/**
 The association between files and tags, seen two ways: as a set of edges
 (file, tag), independent of orientation, and as the dictionary `THE_LIST`
 that stores it keyed one way or the other (`FORMAT`).
 */
module Relation {
  import opened Order

  /** `FORMAT`: `TAG_TO_FILE` (keys are tags) or `FILE_TO_TAG` (keys are files). */
  datatype Orientation = TagToFile | FileToTag

  /** One association between a file and a tag. */
  datatype Edge = Edge(file: string, tag: string)

  /** `THE_LIST`: primary key to its list of secondary values. */
  type Mapping = map<string, seq<string>>

  /** The primary key under which `fmt` stores the pair (file, tag). */
  function KeyOf(fmt: Orientation, file: string, tag: string): string
  {
    if fmt == TagToFile then tag else file
  }

  /** The value that `fmt` lists under that key. */
  function ValueOf(fmt: Orientation, file: string, tag: string): string
  {
    if fmt == TagToFile then file else tag
  }

  /** The edge that the entry `value` in the list of `key` stands for. */
  function EdgeAt(fmt: Orientation, key: string, value: string): (e: Edge)
    ensures KeyOf(fmt, e.file, e.tag) == key && ValueOf(fmt, e.file, e.tag) == value
  {
    if fmt == TagToFile then Edge(value, key) else Edge(key, value)
  }

  /** No key maps to an empty list, and no list repeats a value. */
  ghost predicate WellFormed(m: Mapping)
  {
    forall k :: k in m ==> m[k] != [] && NoDups(m[k])
  }

  /** The edge set that `m` stores under orientation `fmt`. */
  ghost function EdgeSet(fmt: Orientation, m: Mapping): set<Edge>
  {
    set k, v | k in m && v in m[k] :: EdgeAt(fmt, k, v)
  }

  /** An edge is stored exactly when its value is in its key's list. */
  lemma InEdgeSet(fmt: Orientation, m: Mapping, e: Edge)
    ensures e in EdgeSet(fmt, m)
        <==> KeyOf(fmt, e.file, e.tag) in m && ValueOf(fmt, e.file, e.tag) in m[KeyOf(fmt, e.file, e.tag)]
  {
    var k, v := KeyOf(fmt, e.file, e.tag), ValueOf(fmt, e.file, e.tag);
    if k in m && v in m[k] {
      assert EdgeAt(fmt, k, v) == e;
    }
  }

  /**
   `tag`'s update of `THE_LIST`: append the value to its key's list unless
   it is there already, creating the list if the key is new.
   */
  function Inserted(fmt: Orientation, m: Mapping, file: string, tag: string): Mapping
  {
    var k, v := KeyOf(fmt, file, tag), ValueOf(fmt, file, tag);
    m[k := if k !in m then [v] else if v in m[k] then m[k] else m[k] + [v]]
  }

  /** Inserting adds exactly the one edge and keeps the mapping well formed. */
  lemma InsertedSpec(fmt: Orientation, m: Mapping, file: string, tag: string)
    requires WellFormed(m)
    ensures WellFormed(Inserted(fmt, m, file, tag))
    ensures EdgeSet(fmt, Inserted(fmt, m, file, tag)) == EdgeSet(fmt, m) + {Edge(file, tag)}
  {
    var m' := Inserted(fmt, m, file, tag);
    forall e ensures e in EdgeSet(fmt, m') <==> e in EdgeSet(fmt, m) + {Edge(file, tag)} {
      InEdgeSet(fmt, m, e);
      InEdgeSet(fmt, m', e);
    }
  }

  /** Tagging a file with a tag it already has changes nothing at all. */
  lemma InsertedPresent(fmt: Orientation, m: Mapping, file: string, tag: string)
    requires Edge(file, tag) in EdgeSet(fmt, m)
    ensures Inserted(fmt, m, file, tag) == m
  {
    InEdgeSet(fmt, m, Edge(file, tag));
  }

  /**
   `untag`'s update of `THE_LIST` at key `k`: the list becomes
   `list(set(old) - set([v]))`, in no particular order, and the key goes
   when nothing is left; an absent key is left alone.
   */
  ghost predicate RemovedFrom(m: Mapping, m': Mapping, k: string, v: string)
  {
    && (k !in m ==> m' == m)
    && m' - {k} == m - {k}
    && (k in m' <==> k in m && ToSet(m[k]) - {v} != {})
    && (k in m' ==> ToSet(m'[k]) == ToSet(m[k]) - {v} && NoDups(m'[k]))
  }

  /** Removing takes away exactly the one edge and keeps the mapping well formed. */
  lemma RemovedSpec(fmt: Orientation, m: Mapping, m': Mapping, file: string, tag: string)
    requires WellFormed(m)
    requires RemovedFrom(m, m', KeyOf(fmt, file, tag), ValueOf(fmt, file, tag))
    ensures WellFormed(m')
    ensures EdgeSet(fmt, m') == EdgeSet(fmt, m) - {Edge(file, tag)}
  {
    var k := KeyOf(fmt, file, tag);
    forall k' | k' in m' ensures m'[k'] != [] && NoDups(m'[k']) {
      if k' != k {
        assert m'[k'] == (m' - {k})[k'] == (m - {k})[k'] == m[k'];
      } else {
        EmptyToSet(m'[k']);
      }
    }
    forall e ensures e in EdgeSet(fmt, m') <==> e in EdgeSet(fmt, m) - {Edge(file, tag)} {
      InEdgeSet(fmt, m, e);
      InEdgeSet(fmt, m', e);
      var ke := KeyOf(fmt, e.file, e.tag);
      if ke != k {
        assert ke in m' <==> ke in m' - {k};
        assert ke in m <==> ke in m - {k};
        if ke in m { assert m'[ke] == (m' - {k})[ke] == (m - {k})[ke] == m[ke]; }
      } else {
        var ve, v := ValueOf(fmt, e.file, e.tag), ValueOf(fmt, file, tag);
        assert e == Edge(file, tag) <==> ve == v;
        if k in m && ve in m[k] && ve != v {
          assert ve in ToSet(m[k]) - {v};
        }
        if k in m' {
          assert ve in m'[k] <==> ve in ToSet(m'[k]);
        }
      }
    }
  }

  /** The files tagged `tag`. */
  ghost function FilesOf(edges: set<Edge>, tag: string): set<string>
  {
    set e | e in edges && e.tag == tag :: e.file
  }

  /** The tags of `file`. */
  ghost function TagsOf(edges: set<Edge>, file: string): set<string>
  {
    set e | e in edges && e.file == file :: e.tag
  }

  ghost function AllTags(edges: set<Edge>): set<string>
  {
    set e | e in edges :: e.tag
  }

  ghost function AllFiles(edges: set<Edge>): set<string>
  {
    set e | e in edges :: e.file
  }

  /** Every pair of a file in `files` and a tag in `tags`. */
  ghost function Cross(files: seq<string>, tags: seq<string>): set<Edge>
  {
    set f, t | f in files && t in tags :: Edge(f, t)
  }

  /**
   `rename_tag` when tags are secondary values: every (f, from) becomes
   (f, to), merged into what `f` already has; renaming a tag to itself
   drops its edges, as `tag` then `untag` does.
   */
  ghost function RetagMerged(edges: set<Edge>, from: string, to: string): set<Edge>
  {
    (set e | e in edges && e.tag != from)
      + (set e | e in edges && e.tag == from && from != to :: Edge(e.file, to))
  }

  /**
   `rename_tag` when tags are primary keys: the list of `from` replaces the
   list of `to`, so the edges `to` had before are lost.
   */
  ghost function RetagOverwritten(edges: set<Edge>, from: string, to: string): set<Edge>
  {
    (set e | e in edges && e.tag != from && e.tag != to)
      + (set e | e in edges && e.tag == from :: Edge(e.file, to))
  }

  /** `rename_file` when files are secondary values (see RetagMerged). */
  ghost function RefileMerged(edges: set<Edge>, from: string, to: string): set<Edge>
  {
    (set e | e in edges && e.file != from)
      + (set e | e in edges && e.file == from && from != to :: Edge(to, e.tag))
  }

  /**
   `rename_file` when files are primary keys: as RetagOverwritten, except
   that the old key is deleted after the assignment, so renaming a file
   to itself drops its edges.
   */
  ghost function RefileOverwritten(edges: set<Edge>, from: string, to: string): set<Edge>
  {
    (set e | e in edges && e.file != from && e.file != to)
      + (set e | e in edges && e.file == from && from != to :: Edge(to, e.tag))
  }

  /** Under a well-formed mapping the keys are exactly the names on the key side. */
  lemma KeysAreNames(fmt: Orientation, m: Mapping)
    requires WellFormed(m)
    ensures fmt == TagToFile ==> m.Keys == AllTags(EdgeSet(fmt, m))
    ensures fmt == FileToTag ==> m.Keys == AllFiles(EdgeSet(fmt, m))
  {
    forall k | k in m
      ensures fmt == TagToFile ==> k in AllTags(EdgeSet(fmt, m))
      ensures fmt == FileToTag ==> k in AllFiles(EdgeSet(fmt, m))
    {
      var e := EdgeAt(fmt, k, m[k][0]);
      assert e in EdgeSet(fmt, m);
    }
  }

  /**
   `THE_LIST[to] = THE_LIST.pop(from)` under tag-to-file: the list of
   `from` moves to `to`, replacing whatever `to` had.
   */
  lemma PopMoveTags(m: Mapping, from: string, to: string)
    requires WellFormed(m) && from in m
    ensures WellFormed((m - {from})[to := m[from]])
    ensures EdgeSet(TagToFile, (m - {from})[to := m[from]]) == RetagOverwritten(EdgeSet(TagToFile, m), from, to)
  {
    var m' := (m - {from})[to := m[from]];
    var edges := EdgeSet(TagToFile, m);
    forall e ensures e in EdgeSet(TagToFile, m') <==> e in RetagOverwritten(edges, from, to) {
      InEdgeSet(TagToFile, m, e);
      InEdgeSet(TagToFile, m', e);
      if e.tag == to {
        InEdgeSet(TagToFile, m, Edge(e.file, from));
        if e in EdgeSet(TagToFile, m') {
          assert Edge(e.file, from) in edges;
        }
      }
    }
  }

  /**
   `THE_LIST[to] = THE_LIST[from]; del THE_LIST[from]` under file-to-tag:
   the list of `from` moves to `to`, replacing whatever `to` had; when
   `from == to` the deletion comes last and the file loses every tag.
   */
  lemma AssignDeleteFiles(m: Mapping, from: string, to: string)
    requires WellFormed(m) && from in m
    ensures WellFormed(m[to := m[from]] - {from})
    ensures EdgeSet(FileToTag, m[to := m[from]] - {from}) == RefileOverwritten(EdgeSet(FileToTag, m), from, to)
  {
    var m' := m[to := m[from]] - {from};
    var edges := EdgeSet(FileToTag, m);
    forall e ensures e in EdgeSet(FileToTag, m') <==> e in RefileOverwritten(edges, from, to) {
      InEdgeSet(FileToTag, m, e);
      InEdgeSet(FileToTag, m', e);
      if e.file == to && from != to {
        InEdgeSet(FileToTag, m, Edge(from, e.tag));
        assert m'[to] == m[from];
        if e in EdgeSet(FileToTag, m') {
          var e0 := Edge(from, e.tag);
          assert e0 in edges && e == Edge(to, e0.tag);
        }
      } else if e.file != from && e.file != to {
        assert e.file in m' <==> e.file in m;
        if e.file in m { assert m'[e.file] == m[e.file]; }
      }
    }
  }

  /**
   `rename_tag` under file-to-tag part-way through its loop: the files in
   `done` have been visited (`tag(f, to)` then `untag(f, from)`), the
   others not yet.
   */
  ghost function RetagPartly(edges: set<Edge>, done: set<string>, from: string, to: string): set<Edge>
  {
    (set e | e in edges && (e.file !in done || e.tag != from))
      + (set e | e in edges && e.file in done && e.tag == from && from != to :: Edge(e.file, to))
  }

  /** Visiting one more file `k` of the `rename_tag` loop. */
  lemma RetagStep(edges: set<Edge>, done: set<string>, k: string, from: string, to: string)
    requires k !in done
    ensures Edge(k, from) in edges ==>
      (RetagPartly(edges, done, from, to) + {Edge(k, to)}) - {Edge(k, from)} == RetagPartly(edges, done + {k}, from, to)
    ensures Edge(k, from) !in edges ==>
      RetagPartly(edges, done, from, to) == RetagPartly(edges, done + {k}, from, to)
  {
    if Edge(k, from) in edges {
      var a := (RetagPartly(edges, done, from, to) + {Edge(k, to)}) - {Edge(k, from)};
      var b := RetagPartly(edges, done + {k}, from, to);
      forall e | e in b ensures e in a {
        if e.file == k && e.tag == to && from != to {
        } else if e !in edges {
          var e0 :| e0 in edges && e0.file in done + {k} && e0.tag == from && from != to && e == Edge(e0.file, to);
          if e0.file != k {
            assert e in RetagPartly(edges, done, from, to);
          }
        }
      }
      forall e | e in a ensures e in b {
        if e != Edge(k, to) && e !in edges {
          var e0 :| e0 in edges && e0.file in done && e0.tag == from && from != to && e == Edge(e0.file, to);
        }
      }
    } else {
      var a := RetagPartly(edges, done, from, to);
      var b := RetagPartly(edges, done + {k}, from, to);
      forall e | e in a ensures e in b {
        if e !in edges {
          var e0 :| e0 in edges && e0.file in done && e0.tag == from && from != to && e == Edge(e0.file, to);
        }
      }
      forall e | e in b ensures e in a {
        if e !in edges {
          var e0 :| e0 in edges && e0.file in done + {k} && e0.tag == from && from != to && e == Edge(e0.file, to);
        }
      }
    }
  }

  /** The loop of `rename_tag` starts from the unchanged edges and ends with the merged rename. */
  lemma RetagEnds(edges: set<Edge>, done: set<string>, from: string, to: string)
    ensures RetagPartly(edges, {}, from, to) == edges
    ensures AllFiles(edges) <= done ==> RetagPartly(edges, done, from, to) == RetagMerged(edges, from, to)
  {
    if AllFiles(edges) <= done {
      forall e | e in edges ensures e.file in done {
        assert e.file in AllFiles(edges);
      }
    }
  }

  /** `rename_file` under tag-to-file part-way through its loop (see RetagPartly). */
  ghost function RefilePartly(edges: set<Edge>, done: set<string>, from: string, to: string): set<Edge>
  {
    (set e | e in edges && (e.tag !in done || e.file != from))
      + (set e | e in edges && e.tag in done && e.file == from && from != to :: Edge(to, e.tag))
  }

  /** Visiting one more tag `k` of the `rename_file` loop. */
  lemma RefileStep(edges: set<Edge>, done: set<string>, k: string, from: string, to: string)
    requires k !in done
    ensures Edge(from, k) in edges ==>
      (RefilePartly(edges, done, from, to) + {Edge(to, k)}) - {Edge(from, k)} == RefilePartly(edges, done + {k}, from, to)
    ensures Edge(from, k) !in edges ==>
      RefilePartly(edges, done, from, to) == RefilePartly(edges, done + {k}, from, to)
  {
    if Edge(from, k) in edges {
      var a := (RefilePartly(edges, done, from, to) + {Edge(to, k)}) - {Edge(from, k)};
      var b := RefilePartly(edges, done + {k}, from, to);
      forall e | e in b ensures e in a {
        if e.tag == k && e.file == to && from != to {
        } else if e !in edges {
          var e0 :| e0 in edges && e0.tag in done + {k} && e0.file == from && from != to && e == Edge(to, e0.tag);
          if e0.tag != k {
            assert e in RefilePartly(edges, done, from, to);
          }
        }
      }
      forall e | e in a ensures e in b {
        if e != Edge(to, k) && e !in edges {
          var e0 :| e0 in edges && e0.tag in done && e0.file == from && from != to && e == Edge(to, e0.tag);
        }
      }
    } else {
      var a := RefilePartly(edges, done, from, to);
      var b := RefilePartly(edges, done + {k}, from, to);
      forall e | e in a ensures e in b {
        if e !in edges {
          var e0 :| e0 in edges && e0.tag in done && e0.file == from && from != to && e == Edge(to, e0.tag);
        }
      }
      forall e | e in b ensures e in a {
        if e !in edges {
          var e0 :| e0 in edges && e0.tag in done + {k} && e0.file == from && from != to && e == Edge(to, e0.tag);
        }
      }
    }
  }

  /** The loop of `rename_file` starts from the unchanged edges and ends with the merged rename. */
  lemma RefileEnds(edges: set<Edge>, done: set<string>, from: string, to: string)
    ensures RefilePartly(edges, {}, from, to) == edges
    ensures AllTags(edges) <= done ==> RefilePartly(edges, done, from, to) == RefileMerged(edges, from, to)
  {
    if AllTags(edges) <= done {
      forall e | e in edges ensures e.tag in done {
        assert e.tag in AllTags(edges);
      }
    }
  }

  lemma CrossAppend(a: seq<string>, b: seq<string>, c: seq<string>, d: seq<string>)
    ensures Cross(a + b, c) == Cross(a, c) + Cross(b, c)
    ensures Cross(a, c + d) == Cross(a, c) + Cross(a, d)
  {
  }

  lemma CrossSingle(f: string, t: string)
    ensures Cross([f], [t]) == {Edge(f, t)}
  {
  }

  lemma CrossEmpty(a: seq<string>)
    ensures Cross([], a) == {} && Cross(a, []) == {}
  {
  }

  /**
   The list under a key names exactly the values the edge set pairs with
   it; a name that is not a key has none.
   */
  lemma ListedValues(fmt: Orientation, m: Mapping, k: string)
    requires WellFormed(m)
    ensures fmt == TagToFile ==> FilesOf(EdgeSet(fmt, m), k) == if k in m then ToSet(m[k]) else {}
    ensures fmt == FileToTag ==> TagsOf(EdgeSet(fmt, m), k) == if k in m then ToSet(m[k]) else {}
  {
    var edges := EdgeSet(fmt, m);
    forall x ensures fmt == TagToFile ==> (x in FilesOf(edges, k) <==> k in m && x in m[k]) {
      if fmt == TagToFile {
        InEdgeSet(fmt, m, Edge(x, k));
        if x in FilesOf(edges, k) {
          var e :| e in edges && e.tag == k && e.file == x;
        }
      }
    }
    forall x ensures fmt == FileToTag ==> (x in TagsOf(edges, k) <==> k in m && x in m[k]) {
      if fmt == FileToTag {
        InEdgeSet(fmt, m, Edge(k, x));
        if x in TagsOf(edges, k) {
          var e :| e in edges && e.file == k && e.tag == x;
        }
      }
    }
  }

  /**
   Two well-formed mappings that store the same edges under the same
   orientation have the same keys and, under each key, the same values:
   they differ at most in the order of their lists.
   */
  lemma SameEdgesSameLists(fmt: Orientation, m1: Mapping, m2: Mapping)
    requires WellFormed(m1) && WellFormed(m2)
    requires EdgeSet(fmt, m1) == EdgeSet(fmt, m2)
    ensures m1.Keys == m2.Keys
    ensures forall k :: k in m1 ==> ToSet(m1[k]) == ToSet(m2[k])
  {
    KeysAreNames(fmt, m1);
    KeysAreNames(fmt, m2);
    forall k | k in m1 ensures ToSet(m1[k]) == ToSet(m2[k]) {
      ListedValues(fmt, m1, k);
      ListedValues(fmt, m2, k);
    }
  }

  /** The edges that the values `values` stand for once listed under `key`. */
  ghost function ListedUnder(fmt: Orientation, key: string, values: seq<string>): set<Edge>
  {
    set v | v in values :: EdgeAt(fmt, key, v)
  }

  lemma ListedUnderAppend(fmt: Orientation, key: string, values: seq<string>, v: string)
    ensures ListedUnder(fmt, key, values + [v]) == ListedUnder(fmt, key, values) + {EdgeAt(fmt, key, v)}
  {
  }

  /**
   Merging one primary key's list into another: the edges kept under the
   other keys and every value of `from` listed under `to`; keyed by tag
   this is the merging rename of a tag, keyed by file that of a file.
   */
  lemma MergeKeys(fmt: Orientation, m: Mapping, from: string, to: string)
    requires WellFormed(m) && from in m && from != to
    ensures fmt == TagToFile ==>
      RetagMerged(EdgeSet(fmt, m), from, to) == EdgeSet(fmt, m - {from}) + ListedUnder(fmt, to, m[from])
    ensures fmt == FileToTag ==>
      RefileMerged(EdgeSet(fmt, m), from, to) == EdgeSet(fmt, m - {from}) + ListedUnder(fmt, to, m[from])
  {
    var edges := EdgeSet(fmt, m);
    var merged := EdgeSet(fmt, m - {from}) + ListedUnder(fmt, to, m[from]);
    if fmt == TagToFile {
      forall e ensures e in RetagMerged(edges, from, to) <==> e in merged {
        InEdgeSet(fmt, m, e);
        InEdgeSet(fmt, m - {from}, e);
        InEdgeSet(fmt, m, Edge(e.file, from));
        if e in ListedUnder(fmt, to, m[from]) {
          assert e.tag == to && e.file in m[from];
          assert Edge(e.file, from) in edges;
        }
        if e.tag == to && e.file in m[from] {
          assert e == EdgeAt(fmt, to, e.file);
        }
      }
    } else {
      forall e ensures e in RefileMerged(edges, from, to) <==> e in merged {
        InEdgeSet(fmt, m, e);
        InEdgeSet(fmt, m - {from}, e);
        InEdgeSet(fmt, m, Edge(from, e.tag));
        if e in ListedUnder(fmt, to, m[from]) {
          assert e.file == to && e.tag in m[from];
          assert Edge(from, e.tag) in edges;
        }
        if e.file == to && e.tag in m[from] {
          assert e == EdgeAt(fmt, to, e.tag);
        }
      }
    }
  }

  /** The edges that do not carry tag `t`. */
  ghost function WithoutTag(edges: set<Edge>, t: string): set<Edge>
  {
    set e | e in edges && e.tag != t
  }

  /** The edges that do not name file `f`. */
  ghost function WithoutFile(edges: set<Edge>, f: string): set<Edge>
  {
    set e | e in edges && e.file != f
  }

  /**
   Renaming a name to itself: popping and re-inserting a tag key keeps
   every edge, while each of the three other branches drops the edges of
   that name.
   */
  lemma RenameToSelf(edges: set<Edge>, x: string)
    ensures RetagOverwritten(edges, x, x) == edges
    ensures RetagMerged(edges, x, x) == WithoutTag(edges, x)
    ensures RefileMerged(edges, x, x) == WithoutFile(edges, x)
    ensures RefileOverwritten(edges, x, x) == WithoutFile(edges, x)
  {
    forall e | e in edges && e.tag == x ensures e in RetagOverwritten(edges, x, x) {
      assert Edge(e.file, x) == e;
    }
  }

  /**
   Renaming a tag onto a tag that already has files: keying by tag keeps
   only the renamed tag's files, keying by file merges both.
   */
  lemma RenameOntoExisting()
    ensures var edges := {Edge("a", "x"), Edge("b", "y")};
      && RetagOverwritten(edges, "x", "y") == {Edge("a", "y")}
      && RetagMerged(edges, "x", "y") == {Edge("a", "y"), Edge("b", "y")}
  {
    var edges := {Edge("a", "x"), Edge("b", "y")};
    assert Edge("b", "y") in edges;
    assert Edge("a", "y") == Edge(Edge("a", "x").file, "y");
    var o := RetagOverwritten(edges, "x", "y");
    forall e | e in o ensures e == Edge("a", "y") {
    }
  }

  /**
   Queried across the orientation, the files of a tag (or the tags of a
   file) are the keys whose lists hold it.
   */
  lemma HoldersListed(fmt: Orientation, m: Mapping, x: string)
    ensures fmt == FileToTag ==> FilesOf(EdgeSet(fmt, m), x) == set k | k in m && x in m[k]
    ensures fmt == TagToFile ==> TagsOf(EdgeSet(fmt, m), x) == set k | k in m && x in m[k]
  {
    var edges := EdgeSet(fmt, m);
    forall k ensures fmt == FileToTag ==> (k in FilesOf(edges, x) <==> k in m && x in m[k]) {
      if fmt == FileToTag {
        InEdgeSet(fmt, m, Edge(k, x));
        if k in FilesOf(edges, x) {
          var e :| e in edges && e.tag == x && e.file == k;
        }
      }
    }
    forall k ensures fmt == TagToFile ==> (k in TagsOf(edges, x) <==> k in m && x in m[k]) {
      if fmt == TagToFile {
        InEdgeSet(fmt, m, Edge(x, k));
        if k in TagsOf(edges, x) {
          var e :| e in edges && e.file == x && e.tag == k;
        }
      }
    }
  }

  /** Renaming a tag nothing carries changes nothing. */
  lemma RetagAbsent(edges: set<Edge>, from: string, to: string)
    requires from !in AllTags(edges)
    ensures RetagMerged(edges, from, to) == edges
  {
    forall e | e in edges ensures e.tag != from {
      assert e.tag in AllTags(edges);
    }
  }

  /** Renaming a file nothing names changes nothing. */
  lemma RefileAbsent(edges: set<Edge>, from: string, to: string)
    requires from !in AllFiles(edges)
    ensures RefileMerged(edges, from, to) == edges
  {
    forall e | e in edges ensures e.file != from {
      assert e.file in AllFiles(edges);
    }
  }
}
