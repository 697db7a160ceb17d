/**
 The string operations the plain-text format relies on: the `<==>`
 separator, `str.split(sep, 1)`, `str.rstrip`, `str.join` and a file's
 `readlines()`. The line separator is fixed to "\n" (`os.linesep` on POSIX).
 */
module Text {
  import opened Outcomes

  /** `SEPARATOR` of the plain-text format. */
  const Separator: string := "<==>"

  /** The line separator, `os.linesep` taken as "\n". */
  const LineSep: string := "\n"

  /** `sub` occurs in `s` at index `i`. */
  predicate OccursAt(s: string, i: nat, sub: string)
  {
    i + |sub| <= |s| && s[i..i + |sub|] == sub
  }

  ghost predicate Contains(s: string, sub: string)
  {
    exists i: nat :: OccursAt(s, i, sub)
  }

  /** Index of the first occurrence of `sub` in `s` at or after `i`. */
  function FindFrom(s: string, sub: string, i: nat): (r: Option<nat>)
    ensures r.Some? ==> i <= r.value && OccursAt(s, r.value, sub)
    ensures r.Some? ==> forall j: nat :: i <= j < r.value ==> !OccursAt(s, j, sub)
    ensures r.None? ==> forall j: nat :: i <= j ==> !OccursAt(s, j, sub)
    decreases |s| - i
  {
    if i + |sub| > |s| then None
    else if s[i..i + |sub|] == sub then Some(i)
    else FindFrom(s, sub, i + 1)
  }

  /**
   `tag_name, file_name = s.split(SEPARATOR, 1)`: the text before the first
   separator and everything after it; None where the unpacking raises
   (no separator in `s`).
   */
  function SplitOnce(s: string): (r: Option<(string, string)>)
    ensures r.None? <==> !Contains(s, Separator)
    ensures r.Some? ==> s == r.value.0 + Separator + r.value.1
    ensures r.Some? ==> forall j: nat :: j < |r.value.0| ==> !OccursAt(s, j, Separator)
    ensures r.Some? ==> !Contains(r.value.0, Separator)
  {
    match FindFrom(s, Separator, 0)
    case None => None
    case Some(i) =>
      assert s == s[..i] + Separator + s[i + |Separator|..];
      var tag := s[..i];
      forall j: nat ensures !OccursAt(tag, j, Separator) {
        if j + |Separator| <= |tag| {
          assert !OccursAt(s, j, Separator);
          assert s[j..j + |Separator|] == tag[j..j + |Separator|];
        }
      }
      Some((tag, s[i + |Separator|..]))
  }

  /**
   Splitting `tag + SEPARATOR + file` gives back `tag` and `file` whenever
   `tag` holds no separator; `file` may hold any text.
   */
  lemma SplitOnceJoined(tag: string, file: string)
    requires !Contains(tag, Separator)
    ensures SplitOnce(tag + Separator + file) == Some((tag, file))
  {
    var s := tag + Separator + file;
    assert OccursAt(s, |tag|, Separator);
    forall j: nat | j < |tag| ensures !OccursAt(s, j, Separator) {
      if j + 4 <= |tag| {
        assert !OccursAt(tag, j, Separator);
        assert s[j..j + 4] == tag[j..j + 4];
      } else if j + 4 <= |s| {
        // an occurrence straddling the end of `tag` would put the '<' that
        // starts the separator where "<==>" has '=' or '>'
        var d := |tag| - j;
        assert s[j..j + 4][d] == s[|tag|] == '<';
        assert Separator[d] != '<';
      }
    }
    var r := FindFrom(s, Separator, 0);
    assert r == Some(|tag|);
    assert s[..|tag|] == tag;
    assert s[|tag| + 4..] == file;
  }

  /** `s.rstrip(os.linesep)`: `s` without its trailing line separators. */
  function StripLineSeps(s: string): (r: string)
    ensures |r| <= |s| && r == s[..|r|]
    ensures r == [] || r[|r| - 1] != '\n'
    ensures forall i :: |r| <= i < |s| ==> s[i] == '\n'
    decreases |s|
  {
    if |s| > 0 && s[|s| - 1] == '\n' then StripLineSeps(s[..|s| - 1]) else s
  }

  /** `sep.join(xs)`. */
  function Join(xs: seq<string>, sep: string): string
  {
    if |xs| == 0 then []
    else if |xs| == 1 then xs[0]
    else xs[0] + sep + Join(xs[1..], sep)
  }

  function Concat(xs: seq<string>): string
  {
    if xs == [] then [] else xs[0] + Concat(xs[1..])
  }

  /** Each line followed by a line separator. */
  function Terminated(lines: seq<string>): string
  {
    if lines == [] then [] else lines[0] + LineSep + Terminated(lines[1..])
  }

  /**
   `sep.join(lines) + sep` of the writing loop in `save`: on a non-empty
   list of lines it is every line followed by the separator.
   */
  lemma {:induction false} JoinThenTerminate(lines: seq<string>)
    requires lines != []
    ensures Join(lines, LineSep) + LineSep == Terminated(lines)
    decreases |lines|
  {
    if |lines| > 1 {
      JoinThenTerminate(lines[1..]);
    }
  }

  lemma {:induction false} TerminatedAppend(a: seq<string>, b: seq<string>)
    ensures Terminated(a + b) == Terminated(a) + Terminated(b)
    decreases |a|
  {
    if a != [] {
      assert (a + b)[1..] == a[1..] + b;
      TerminatedAppend(a[1..], b);
    } else {
      assert a + b == b;
    }
  }

  /** Index of the first line separator in `text` at or after `i`, or `|text|` if there is none. */
  function LineEnd(text: string, i: nat): (r: nat)
    requires i <= |text|
    ensures i <= r <= |text|
    ensures forall j :: i <= j < r ==> text[j] != '\n'
    ensures r < |text| ==> text[r] == '\n'
    decreases |text| - i
  {
    if i == |text| || text[i] == '\n' then i else LineEnd(text, i + 1)
  }

  /**
   A file's `readlines()`: the text cut after every line separator, each
   piece keeping its separator; a last piece without one is kept as well.
   */
  function ReadLines(text: string): (r: seq<string>)
    ensures Concat(r) == text
    ensures Pieces(r)
    decreases |text|
  {
    if text == [] then []
    else
      var e := LineEnd(text, 0);
      if e == |text| then
        assert text[..|text| - 1] == text[..e - 1];
        [text]
      else
        var piece := text[..e + 1];
        var rest := ReadLines(text[e + 1..]);
        assert text == piece + text[e + 1..];
        assert piece[..|piece| - 1] == text[..e];
        PiecesCons(piece, rest);
        [piece] + rest
  }

  /** The shape of `readlines()`'s pieces: none empty, a line break only at the end, and one there except maybe last. */
  predicate Pieces(r: seq<string>)
  {
    && (forall k :: 0 <= k < |r| ==> r[k] != [] && '\n' !in r[k][..|r[k]| - 1])
    && (forall k :: 0 <= k < |r| - 1 ==> r[k][|r[k]| - 1] == '\n')
  }

  lemma PiecesCons(piece: string, rest: seq<string>)
    requires piece != [] && '\n' !in piece[..|piece| - 1] && piece[|piece| - 1] == '\n'
    requires Pieces(rest)
    ensures Pieces([piece] + rest)
  {
    var r := [piece] + rest;
    assert forall k :: 1 <= k < |r| ==> r[k] == rest[k - 1];
  }

  /** Each line with its line separator put back. */
  function WithLineSeps(lines: seq<string>): seq<string>
  {
    if lines == [] then [] else [lines[0] + LineSep] + WithLineSeps(lines[1..])
  }

  /** `readlines()` on what `save` writes gives back the lines written. */
  lemma {:induction false} ReadTerminated(lines: seq<string>)
    requires forall k :: 0 <= k < |lines| ==> '\n' !in lines[k]
    ensures ReadLines(Terminated(lines)) == WithLineSeps(lines)
    decreases |lines|
  {
    if lines != [] {
      var l := lines[0];
      var text := Terminated(lines);
      assert text == l + LineSep + Terminated(lines[1..]);
      assert text[|l|] == '\n';
      forall j | 0 <= j < |l| ensures text[j] != '\n' {
        assert text[j] == l[j];
      }
      assert LineEnd(text, 0) == |l|;
      assert text[..|l| + 1] == l + LineSep;
      assert text[|l| + 1..] == Terminated(lines[1..]);
      ReadTerminated(lines[1..]);
    }
  }
}
