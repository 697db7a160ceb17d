/**
 The plain-text format of `save` and `load`: one `tag<==>file` line per
 edge, whichever way the mapping is keyed.
 */
module Codec {
  import opened Outcomes
  import opened Order
  import opened Text
  import opened Relation

  /** The line for one edge: the tag always comes first. */
  function Line(e: Edge): string
  {
    e.tag + Separator + e.file
  }

  /** The lines for a sequence of edges, in the same order. */
  function Lines(edges: seq<Edge>): (r: seq<string>)
    ensures |r| == |edges|
  {
    if edges == [] then [] else [Line(edges[0])] + Lines(edges[1..])
  }

  /** The edges that `values`, listed under `key`, stand for, in the same order. */
  function EdgesAt(fmt: Orientation, key: string, values: seq<string>): (r: seq<Edge>)
    ensures |r| == |values|
    ensures forall i :: 0 <= i < |r| ==> r[i] == EdgeAt(fmt, key, values[i])
    ensures forall e :: e in r <==> KeyOf(fmt, e.file, e.tag) == key && ValueOf(fmt, e.file, e.tag) in values
  {
    if values == [] then [] else [EdgeAt(fmt, key, values[0])] + EdgesAt(fmt, key, values[1..])
  }

  /**
   The lines `save` writes for one primary key: one per value, the values
   in sorted order.
   */
  function GroupLines(fmt: Orientation, key: string, values: seq<string>): seq<string>
    requires NoDups(values)
  {
    Lines(EdgesAt(fmt, key, Sorted(values)))
  }

  /** What `save` writes for one key: its lines joined, then a line separator. */
  function GroupText(fmt: Orientation, key: string, values: seq<string>): string
    requires NoDups(values)
  {
    Join(GroupLines(fmt, key, values), LineSep) + LineSep
  }

  /** What `save` writes for the keys `keys`, in that order. */
  function DumpKeys(fmt: Orientation, m: Mapping, keys: seq<string>): string
    requires WellFormed(m)
    requires forall k :: k in keys ==> k in m
  {
    if keys == [] then []
    else GroupText(fmt, keys[0], m[keys[0]]) + DumpKeys(fmt, m, keys[1..])
  }

  /** The text `save` writes: the groups of the keys in sorted order. */
  function Dump(fmt: Orientation, m: Mapping): string
    requires WellFormed(m)
  {
    DumpKeys(fmt, m, SortedSet(m.Keys))
  }

  /** The edges of the lines `save` writes for `keys`, in the order written. */
  function DumpOrder(fmt: Orientation, m: Mapping, keys: seq<string>): seq<Edge>
    requires WellFormed(m)
    requires forall k :: k in keys ==> k in m
  {
    if keys == [] then []
    else EdgesAt(fmt, keys[0], Sorted(m[keys[0]])) + DumpOrder(fmt, m, keys[1..])
  }

  lemma {:induction false} LinesAppend(a: seq<Edge>, b: seq<Edge>)
    ensures Lines(a + b) == Lines(a) + Lines(b)
    decreases |a|
  {
    if a != [] {
      assert (a + b)[1..] == a[1..] + b;
      LinesAppend(a[1..], b);
    } else {
      assert a + b == b;
    }
  }

  /** `e1` is written before `e2`: by primary key, then by value. */
  predicate WrittenBefore(fmt: Orientation, e1: Edge, e2: Edge)
  {
    var k1, k2 := KeyOf(fmt, e1.file, e1.tag), KeyOf(fmt, e2.file, e2.tag);
    Less(k1, k2) || (k1 == k2 && Less(ValueOf(fmt, e1.file, e1.tag), ValueOf(fmt, e2.file, e2.tag)))
  }

  lemma {:induction false} DumpKeysText(fmt: Orientation, m: Mapping, keys: seq<string>)
    requires WellFormed(m)
    requires forall k :: k in keys ==> k in m
    ensures DumpKeys(fmt, m, keys) == Terminated(Lines(DumpOrder(fmt, m, keys)))
    decreases |keys|
  {
    if keys != [] {
      var edges := EdgesAt(fmt, keys[0], Sorted(m[keys[0]]));
      var rest := DumpOrder(fmt, m, keys[1..]);
      JoinThenTerminate(Lines(edges));
      DumpKeysText(fmt, m, keys[1..]);
      LinesAppend(edges, rest);
      TerminatedAppend(Lines(edges), Lines(rest));
    }
  }

  lemma {:induction false} DumpOrderEdges(fmt: Orientation, m: Mapping, keys: seq<string>)
    requires WellFormed(m)
    requires forall k :: k in keys ==> k in m
    ensures forall e :: e in DumpOrder(fmt, m, keys) <==>
              e in EdgeSet(fmt, m) && KeyOf(fmt, e.file, e.tag) in keys
    decreases |keys|
  {
    if keys != [] {
      var k := keys[0];
      DumpOrderEdges(fmt, m, keys[1..]);
      forall e ensures e in EdgesAt(fmt, k, Sorted(m[k])) <==> e in EdgeSet(fmt, m) && KeyOf(fmt, e.file, e.tag) == k {
        InEdgeSet(fmt, m, e);
        assert ValueOf(fmt, e.file, e.tag) in Sorted(m[k]) <==> ValueOf(fmt, e.file, e.tag) in ToSet(m[k]);
      }
      assert keys == [k] + keys[1..];
    }
  }

  /** The edges of one key's group follow the order of the sorted values. */
  lemma EdgesAtSorted(fmt: Orientation, key: string, values: seq<string>)
    requires StrictlySorted(values)
    ensures forall i, j :: 0 <= i < j < |EdgesAt(fmt, key, values)| ==>
              WrittenBefore(fmt, EdgesAt(fmt, key, values)[i], EdgesAt(fmt, key, values)[j])
  {
    var r := EdgesAt(fmt, key, values);
    forall i, j | 0 <= i < j < |r| ensures WrittenBefore(fmt, r[i], r[j]) {
      assert r[i] == EdgeAt(fmt, key, values[i]) && r[j] == EdgeAt(fmt, key, values[j]);
    }
  }

  lemma {:induction false} DumpOrderSorted(fmt: Orientation, m: Mapping, keys: seq<string>)
    requires WellFormed(m)
    requires forall k :: k in keys ==> k in m
    requires StrictlySorted(keys)
    ensures forall i, j :: 0 <= i < j < |DumpOrder(fmt, m, keys)| ==>
              WrittenBefore(fmt, DumpOrder(fmt, m, keys)[i], DumpOrder(fmt, m, keys)[j])
    decreases |keys|
  {
    if keys != [] {
      var k := keys[0];
      var edges := EdgesAt(fmt, k, Sorted(m[k]));
      var rest := DumpOrder(fmt, m, keys[1..]);
      assert StrictlySorted(keys[1..]);
      DumpOrderSorted(fmt, m, keys[1..]);
      DumpOrderEdges(fmt, m, keys[1..]);
      EdgesAtSorted(fmt, k, Sorted(m[k]));
      var all := edges + rest;
      assert all == DumpOrder(fmt, m, keys);
      forall i, j | 0 <= i < j < |all| ensures WrittenBefore(fmt, all[i], all[j]) {
        if j < |edges| {
          assert all[i] == edges[i] && all[j] == edges[j];
        } else if i < |edges| {
          assert all[i] == edges[i] && all[i] in edges;
          assert all[j] == rest[j - |edges|];
          assert all[j] in rest;
          var kj := KeyOf(fmt, all[j].file, all[j].tag);
          assert kj in keys[1..];
          var n :| 0 <= n < |keys[1..]| && keys[1..][n] == kj;
          assert keys[n + 1] == kj;
        } else {
          assert all[i] == rest[i - |edges|] && all[j] == rest[j - |edges|];
        }
      }
    }
  }

  /**
   What `save` writes: one line per edge (no edge twice, none missing),
   each `tag<==>file` followed by a line separator, ordered by primary
   key and then by value, i.e. grouped by key with the groups and the
   values within each group in sorted order.
   */
  lemma DumpSpec(fmt: Orientation, m: Mapping)
    requires WellFormed(m)
    ensures var order := DumpOrder(fmt, m, SortedSet(m.Keys));
      && Dump(fmt, m) == Terminated(Lines(order))
      && (forall e :: e in order <==> e in EdgeSet(fmt, m))
      && (forall i, j :: 0 <= i < j < |order| ==> WrittenBefore(fmt, order[i], order[j]))
  {
    var keys := SortedSet(m.Keys);
    DumpKeysText(fmt, m, keys);
    DumpOrderEdges(fmt, m, keys);
    DumpOrderSorted(fmt, m, keys);
    forall e | e in EdgeSet(fmt, m) ensures KeyOf(fmt, e.file, e.tag) in keys {
      InEdgeSet(fmt, m, e);
    }
  }

  /** Lines written in order by key and value name each edge once. */
  lemma WrittenOnce(fmt: Orientation, order: seq<Edge>, i: int, j: int)
    requires forall i, j :: 0 <= i < j < |order| ==> WrittenBefore(fmt, order[i], order[j])
    requires 0 <= i < j < |order|
    ensures order[i] != order[j]
  {
    var e := order[i];
    if order[j] == e {
      LessIrreflexive(KeyOf(fmt, e.file, e.tag));
      LessIrreflexive(ValueOf(fmt, e.file, e.tag));
    }
  }

  /**
   One line of `load`: trailing line separators stripped, then split at
   the first separator into tag and file; None where Python raises.
   */
  function ParseLine(line: string): (r: Option<Edge>)
    ensures r.None? <==> !Contains(StripLineSeps(line), Separator)
    ensures r.Some? ==> StripLineSeps(line) == Line(r.value)
    ensures r.Some? ==> !Contains(r.value.tag, Separator)
  {
    match SplitOnce(StripLineSeps(line))
    case None => None
    case Some((tag, file)) => Some(Edge(file, tag))
  }

  /**
   The effect of `load`'s loop on the edge set, line by line: each line is
   parsed and its edge added as `tag` does, stopping at the first line
   that does not parse or whose file is required to exist and does not.
   */
  function LoadEdges(edges: set<Edge>, lines: seq<string>, assertExists: bool, existing: set<string>)
    : (r: (Outcome, set<Edge>))
    ensures edges <= r.1
    decreases |lines|
  {
    if lines == [] then (Pass, edges)
    else
      match ParseLine(lines[0])
      case None => (Fail(MalformedLine(lines[0])), edges)
      case Some(e) =>
        if assertExists && e.file !in existing then (Fail(FileNotFound(e.file)), edges)
        else LoadEdges(edges + {e}, lines[1..], assertExists, existing)
  }

  /** A line the text format can carry back: no separator in the tag, no line break in the file. */
  ghost predicate Loadable(e: Edge)
  {
    !Contains(e.tag, Separator) && '\n' !in e.file
  }

  /** Names the text format can carry: loadable lines, with no line break in a tag either. */
  ghost predicate Portable(edges: set<Edge>)
  {
    forall e :: e in edges ==> Loadable(e) && '\n' !in e.tag
  }

  lemma ParseWritten(e: Edge)
    requires Loadable(e)
    ensures ParseLine(Line(e) + LineSep) == Some(e)
  {
    var l := Line(e);
    assert l[|l| - 1] != '\n' by {
      assert l[|l| - 1] == if e.file == [] then '>' else e.file[|e.file| - 1];
    }
    var s := StripLineSeps(l + LineSep);
    assert s == StripLineSeps(l);
    SplitOnceJoined(e.tag, e.file);
  }

  /** Loading one written line adds its edge and goes on with the rest. */
  lemma LoadWrittenLine(edges: set<Edge>, e: Edge, rest: seq<string>, assertExists: bool, existing: set<string>)
    requires Loadable(e)
    requires assertExists ==> e.file in existing
    ensures LoadEdges(edges, [Line(e) + LineSep] + rest, assertExists, existing)
         == LoadEdges(edges + {e}, rest, assertExists, existing)
  {
    ParseWritten(e);
    assert ([Line(e) + LineSep] + rest)[1..] == rest;
  }

  /** The edges of a sequence, as a set. */
  ghost function EdgesOf(order: seq<Edge>): set<Edge>
  {
    set e | e in order
  }

  lemma {:induction false} LoadWritten(edges: set<Edge>, order: seq<Edge>, assertExists: bool, existing: set<string>)
    requires forall e :: e in order ==> Loadable(e)
    requires assertExists ==> forall e :: e in order ==> e.file in existing
    ensures LoadEdges(edges, WithLineSeps(Lines(order)), assertExists, existing) == (Pass, edges + EdgesOf(order))
    decreases |order|
  {
    if order == [] {
      assert Lines(order) == [];
      assert WithLineSeps(Lines(order)) == [];
      assert EdgesOf(order) == {};
      assert edges + EdgesOf(order) == edges;
    } else {
      var e := order[0];
      var tail := order[1..];
      var rest := WithLineSeps(Lines(tail));
      assert Lines(order) == [Line(e)] + Lines(tail);
      assert WithLineSeps(Lines(order)) == [Line(e) + LineSep] + rest;
      LoadWrittenLine(edges, e, rest, assertExists, existing);
      LoadWritten(edges + {e}, tail, assertExists, existing);
      assert EdgesOf(order) == {e} + EdgesOf(tail) by {
        assert order == [e] + tail;
      }
      assert edges + {e} + EdgesOf(tail) == edges + EdgesOf(order);
    }
  }

  /**
   Round trip: loading what `save` wrote adds exactly the saved edges, so
   with `overwrite` (an empty start) it rebuilds the same edge set, under
   either orientation at either end.
   */
  lemma SaveLoadRoundTrip(fmt: Orientation, m: Mapping, edges: set<Edge>, assertExists: bool, existing: set<string>)
    requires WellFormed(m) && Portable(EdgeSet(fmt, m))
    requires assertExists ==> AllFiles(EdgeSet(fmt, m)) <= existing
    ensures LoadEdges(edges, ReadLines(Dump(fmt, m)), assertExists, existing) == (Pass, edges + EdgeSet(fmt, m))
  {
    DumpSpec(fmt, m);
    var order := DumpOrder(fmt, m, SortedSet(m.Keys));
    LinesNoBreak(order);
    ReadTerminated(Lines(order));
    if assertExists {
      forall e | e in order ensures e.file in existing {
        assert e.file in AllFiles(EdgeSet(fmt, m));
      }
    }
    LoadWritten(edges, order, assertExists, existing);
    assert EdgesOf(order) == EdgeSet(fmt, m);
  }

  lemma {:induction false} LinesNoBreak(order: seq<Edge>)
    requires forall e :: e in order ==> Loadable(e) && '\n' !in e.tag
    ensures forall k :: 0 <= k < |Lines(order)| ==> '\n' !in Lines(order)[k]
    decreases |order|
  {
    if order != [] {
      LinesNoBreak(order[1..]);
      var e := order[0];
      assert Lines(order)[0] == e.tag + Separator + e.file;
      assert forall k :: 1 <= k < |order| ==> Lines(order)[k] == Lines(order[1..])[k - 1];
    }
  }

  /** One step of `save`'s loop: the group of the next key, then the rest. */
  lemma DumpKeysNext(fmt: Orientation, m: Mapping, keys: seq<string>, i: nat)
    requires WellFormed(m) && i < |keys|
    requires forall k :: k in keys ==> k in m
    ensures keys[i] in m
    ensures DumpKeys(fmt, m, keys[i..]) == GroupText(fmt, keys[i], m[keys[i]]) + DumpKeys(fmt, m, keys[i + 1..])
  {
    assert keys[i..][0] == keys[i];
    assert keys[i..][1..] == keys[i + 1..];
  }

  /** The round trip from an empty store, existence not asserted. */
  lemma SaveThenLoad(fmt: Orientation, m: Mapping)
    requires WellFormed(m)
    ensures Portable(EdgeSet(fmt, m)) ==> LoadEdges({}, ReadLines(Dump(fmt, m)), false, {}) == (Pass, EdgeSet(fmt, m))
  {
    if Portable(EdgeSet(fmt, m)) {
      SaveLoadRoundTrip(fmt, m, {}, false, {});
      assert {} + EdgeSet(fmt, m) == EdgeSet(fmt, m);
    }
  }

  /** One step of `load`'s loop, at line `i`. */
  lemma LoadEdgesNext(edges: set<Edge>, lines: seq<string>, i: nat, assertExists: bool, existing: set<string>)
    requires i < |lines|
    ensures ParseLine(lines[i]).None? ==>
      LoadEdges(edges, lines[i..], assertExists, existing) == (Fail(MalformedLine(lines[i])), edges)
    ensures ParseLine(lines[i]).Some? && assertExists && ParseLine(lines[i]).value.file !in existing ==>
      LoadEdges(edges, lines[i..], assertExists, existing) == (Fail(FileNotFound(ParseLine(lines[i]).value.file)), edges)
    ensures ParseLine(lines[i]).Some? && !(assertExists && ParseLine(lines[i]).value.file !in existing) ==>
      LoadEdges(edges, lines[i..], assertExists, existing)
        == LoadEdges(edges + {ParseLine(lines[i]).value}, lines[i + 1..], assertExists, existing)
  {
    assert lines[i..][0] == lines[i];
    assert lines[i..][1..] == lines[i + 1..];
  }
}
