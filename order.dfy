/**
 The ordering Python's `sorted` uses on `str` values (lexicographic by code
 point), sorted listings of duplicate-free collections, and `list(set(...))`.
 */
module Order {

  /** Python's `a < b` on strings: lexicographic, a proper prefix is smaller. */
  predicate Less(a: string, b: string)
    decreases |a|
  {
    if |a| == 0 then |b| > 0
    else if |b| == 0 then false
    else a[0] < b[0] || (a[0] == b[0] && Less(a[1..], b[1..]))
  }

  lemma {:induction false} LessIrreflexive(a: string)
    ensures !Less(a, a)
    decreases |a|
  {
    if |a| > 0 { LessIrreflexive(a[1..]); }
  }

  lemma {:induction false} LessTransitive(a: string, b: string, c: string)
    requires Less(a, b) && Less(b, c)
    ensures Less(a, c)
    decreases |a|
  {
    if |a| > 0 && |b| > 0 && |c| > 0 && a[0] == b[0] == c[0] {
      LessTransitive(a[1..], b[1..], c[1..]);
    }
  }

  lemma {:induction false} LessTotal(a: string, b: string)
    requires a != b
    ensures Less(a, b) || Less(b, a)
    decreases |a|
  {
    if |a| > 0 && |b| > 0 && a[0] == b[0] {
      assert a == [a[0]] + a[1..] && b == [b[0]] + b[1..];
      LessTotal(a[1..], b[1..]);
    }
  }

  lemma LessAsymmetric(a: string, b: string)
    requires Less(a, b)
    ensures !Less(b, a)
  {
    if Less(b, a) {
      LessTransitive(a, b, a);
      LessIrreflexive(a);
    }
  }

  /** The elements of a sequence, as a set (Python's `set(xs)`). */
  function ToSet(xs: seq<string>): (s: set<string>)
    ensures forall x :: x in s <==> x in xs
  {
    set x | x in xs
  }

  lemma EmptyToSet(xs: seq<string>)
    ensures ToSet(xs) == {} <==> xs == []
  {
    if xs != [] { assert xs[0] in ToSet(xs); }
  }

  predicate NoDups(xs: seq<string>)
  {
    forall i, j :: 0 <= i < j < |xs| ==> xs[i] != xs[j]
  }

  predicate StrictlySorted(xs: seq<string>)
  {
    forall i, j :: 0 <= i < j < |xs| ==> Less(xs[i], xs[j])
  }

  /** `m` is the smallest element of `s`. */
  predicate IsLeast(m: string, s: set<string>)
  {
    m in s && forall y :: y in s && y != m ==> Less(m, y)
  }

  lemma {:induction false} LeastExists(s: set<string>)
    requires s != {}
    ensures exists m :: IsLeast(m, s)
    ensures forall m, m' :: IsLeast(m, s) && IsLeast(m', s) ==> m == m'
    decreases |s|
  {
    var x :| x in s;
    if s - {x} == {} {
      assert s == {x};
      assert IsLeast(x, s);
    } else {
      LeastExists(s - {x});
      var m :| IsLeast(m, s - {x});
      if Less(x, m) {
        forall y | y in s && y != x ensures Less(x, y) {
          if y != m { LessTransitive(x, m, y); }
        }
        assert IsLeast(x, s);
      } else {
        LessTotal(x, m);
        assert IsLeast(m, s);
      }
    }
    forall m, m' | IsLeast(m, s) && IsLeast(m', s) ensures m == m' {
      if m != m' { LessAsymmetric(m, m'); }
    }
  }

  /**
   The elements of `s` in ascending order: `sorted(s)` for a set, and
   `sorted(xs)` for any duplicate-free list `xs` with `ToSet(xs) == s`.
   */
  function SortedSet(s: set<string>): (r: seq<string>)
    ensures StrictlySorted(r)
    ensures ToSet(r) == s
    decreases |s|
  {
    if s == {} then []
    else
      LeastExists(s);
      var m :| IsLeast(m, s);
      var rest := SortedSet(s - {m});
      assert forall y :: y in rest ==> y in s && y != m && Less(m, y);
      [m] + rest
  }

  lemma SortedNoDups(xs: seq<string>)
    requires StrictlySorted(xs)
    ensures NoDups(xs)
  {
    forall i, j | 0 <= i < j < |xs| ensures xs[i] != xs[j] {
      if xs[i] == xs[j] { LessIrreflexive(xs[i]); }
    }
  }

  /**
   A strictly sorted sequence is determined by its elements: the sorted
   listing of a set does not depend on how the set was obtained.
   */
  lemma {:induction false} SortedUnique(a: seq<string>, b: seq<string>)
    requires StrictlySorted(a) && StrictlySorted(b)
    requires ToSet(a) == ToSet(b)
    ensures a == b
    decreases |a|
  {
    EmptyToSet(a);
    EmptyToSet(b);
    if a != [] && b != [] {
      // both heads are the least element of the common set
      assert a[0] in b;
      var k :| 0 <= k < |b| && b[k] == a[0];
      assert b[0] in a;
      var k' :| 0 <= k' < |a| && a[k'] == b[0];
      if k != 0 && k' != 0 {
        LessAsymmetric(b[0], a[0]);
        assert false;
      }
      SortedNoDups(a);
      SortedNoDups(b);
      assert ToSet(a[1..]) == ToSet(a) - {a[0]} by {
        assert a == [a[0]] + a[1..];
      }
      assert ToSet(b[1..]) == ToSet(b) - {b[0]} by {
        assert b == [b[0]] + b[1..];
      }
      SortedUnique(a[1..], b[1..]);
      assert a == [a[0]] + a[1..] && b == [b[0]] + b[1..];
    }
  }

  /** Python's `sorted(set(xs))`: duplicates dropped, then ascending order. */
  lemma SortedSetSpec(s: set<string>, r: seq<string>)
    requires StrictlySorted(r) && ToSet(r) == s
    ensures SortedSet(s) == r
  {
    SortedUnique(SortedSet(s), r);
  }

  lemma {:induction false} NoDupsCard(xs: seq<string>)
    requires NoDups(xs)
    ensures |ToSet(xs)| == |xs|
    decreases |xs|
  {
    if xs != [] {
      assert ToSet(xs) == ToSet(xs[1..]) + {xs[0]} by {
        assert xs == [xs[0]] + xs[1..];
      }
      assert xs[0] !in ToSet(xs[1..]);
      NoDupsCard(xs[1..]);
    }
  }

  /**
   Python's `sorted(xs)` on a list without repeated elements (the only
   kind the store ever sorts): the same elements, ascending.
   */
  function Sorted(xs: seq<string>): (r: seq<string>)
    requires NoDups(xs)
    ensures StrictlySorted(r)
    ensures ToSet(r) == ToSet(xs) && |r| == |xs|
  {
    var r := SortedSet(ToSet(xs));
    SortedNoDups(r);
    NoDupsCard(r);
    NoDupsCard(xs);
    r
  }

  /**
   Python's `list(s)` for a set `s`: every element exactly once, in an
   order the language leaves unspecified (here: whatever the loop picks).
   */
  method ListOf(s: set<string>) returns (r: seq<string>)
    ensures ToSet(r) == s
    ensures NoDups(r)
  {
    r := [];
    var rest := s;
    while rest != {}
      invariant rest <= s
      invariant ToSet(r) == s - rest
      invariant NoDups(r)
      decreases rest
    {
      var x :| x in rest;
      r := r + [x];
      rest := rest - {x};
    }
  }
}
