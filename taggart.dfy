/**
 The tag store: `THE_LIST` under the orientation `FORMAT`, and the
 operations that tag, untag, rename, query, save and load it.

 File existence (`os.path.exists`) is the set `existing` of paths that
 exist; the contents of a file being loaded are given as text.
 */
module Taggart {
  import opened Outcomes
  import opened Order
  import opened Text
  import opened Relation
  import opened Codec

  /** An argument of `tags`/`untags`: one name (a `basestring`) or a list of names. */
  datatype Names = One(name: string) | Many(names: seq<string>)

  /** The list the argument stands for: a single name becomes `[name]`. */
  function AsList(n: Names): seq<string>
  {
    match n
    case One(name) => [name]
    case Many(names) => names
  }

  /**
   Where a run of `tag` calls over `files` stops: at the first missing
   file when existence is asserted, otherwise nowhere (`|files|`).
   */
  function StopsAt(files: seq<string>, assertExists: bool, existing: set<string>): (k: nat)
    ensures k <= |files|
    ensures forall j :: 0 <= j < k ==> !assertExists || files[j] in existing
    ensures k < |files| ==> assertExists && files[k] !in existing
    decreases |files|
  {
    if files == [] || (assertExists && files[0] !in existing) then 0
    else 1 + StopsAt(files[1..], assertExists, existing)
  }

  class Store {
    /** `FORMAT`: which side of an association is the dictionary key. */
    const format: Orientation
    /** `THE_LIST`: each key's list of associated names. */
    var theList: Mapping

    /** Every operation keeps the lists non-empty and free of repeats. */
    ghost predicate Valid()
      reads this
    {
      WellFormed(theList)
    }

    /** The associations stored, independent of `format`. */
    ghost function Edges(): set<Edge>
      reads this
    {
      EdgeSet(format, theList)
    }

    /** A fresh module state: `THE_LIST = {}`. */
    constructor(format: Orientation)
      ensures this.format == format && theList == map[]
      ensures Valid() && Edges() == {}
    {
      this.format := format;
      theList := map[];
    }

    /**
     `tag(file_name, tag_name, assert_exists)`: with `assertExists` a
     missing file is an error and nothing changes; otherwise the value is
     appended to its key's list unless already there.
     */
    method Tag(fileName: string, tagName: string, assertExists: bool, existing: set<string>) returns (r: Outcome)
      requires Valid()
      modifies this
      ensures Valid()
      ensures r.Fail? <==> assertExists && fileName !in existing
      ensures r.Fail? ==> r.error == FileNotFound(fileName) && theList == old(theList)
      ensures r.Pass? ==> theList == Inserted(format, old(theList), fileName, tagName)
      ensures r.Pass? ==> Edges() == old(Edges()) + {Edge(fileName, tagName)}
      ensures r.Pass? && Edge(fileName, tagName) in old(Edges()) ==> theList == old(theList)
    {
      if assertExists && fileName !in existing {
        return Fail(FileNotFound(fileName));
      }
      InsertedSpec(format, theList, fileName, tagName);
      if Edge(fileName, tagName) in Edges() {
        InsertedPresent(format, theList, fileName, tagName);
      }
      // the two branches on FORMAT differ only in which name is the key
      var key, value := tagName, fileName;
      if format == FileToTag {
        key, value := fileName, tagName;
      }
      if key in theList {
        if value !in theList[key] {
          theList := theList[key := theList[key] + [value]];
        }
      } else {
        theList := theList[key := [value]];
      }
      r := Pass;
    }

    /** The inner loop of `tags` when files drive it: one file, every tag. */
    method TagFile(fileName: string, tags: seq<string>, assertExists: bool, existing: set<string>) returns (r: Outcome)
      requires Valid()
      modifies this
      ensures Valid()
      ensures r.Fail? <==> assertExists && fileName !in existing && tags != []
      ensures r.Fail? ==> r.error == FileNotFound(fileName) && theList == old(theList)
      ensures r.Pass? ==> Edges() == old(Edges()) + Cross([fileName], tags)
    {
      ghost var before := Edges();
      CrossEmpty([fileName]);
      var j := 0;
      while j < |tags|
        invariant 0 <= j <= |tags|
        invariant Valid()
        invariant j > 0 ==> !assertExists || fileName in existing
        invariant j == 0 ==> theList == old(theList)
        invariant Edges() == before + Cross([fileName], tags[..j])
      {
        r := Tag(fileName, tags[j], assertExists, existing);
        if r.Fail? {
          return;
        }
        assert tags[..j + 1] == tags[..j] + [tags[j]];
        CrossAppend([fileName], [], tags[..j], [tags[j]]);
        CrossSingle(fileName, tags[j]);
        j := j + 1;
      }
      assert tags[..j] == tags;
      r := Pass;
    }

    /** The inner loop of `tags` when tags drive it: every file, one tag. */
    method TagWith(files: seq<string>, tagName: string, assertExists: bool, existing: set<string>) returns (r: Outcome)
      requires Valid()
      modifies this
      ensures Valid()
      ensures r.Fail? <==> StopsAt(files, assertExists, existing) < |files|
      ensures r.Fail? ==> r.error == FileNotFound(files[StopsAt(files, assertExists, existing)])
      ensures r.Fail? ==> Edges() == old(Edges()) + Cross(files[..StopsAt(files, assertExists, existing)], [tagName])
      ensures r.Pass? ==> Edges() == old(Edges()) + Cross(files, [tagName])
    {
      ghost var k := StopsAt(files, assertExists, existing);
      ghost var before := Edges();
      CrossEmpty([tagName]);
      var i := 0;
      while i < |files|
        invariant 0 <= i <= |files| && i <= k
        invariant Valid()
        invariant Edges() == before + Cross(files[..i], [tagName])
      {
        r := Tag(files[i], tagName, assertExists, existing);
        if r.Fail? {
          return;
        }
        assert files[..i + 1] == files[..i] + [files[i]];
        CrossAppend(files[..i], [files[i]], [tagName], []);
        CrossSingle(files[i], tagName);
        i := i + 1;
      }
      assert files[..i] == files;
      r := Pass;
    }

    /**
     `tags` when there are no more files than tags: for each file, every
     tag; a missing file stops before any of its tags.
     */
    method TagEachFile(files: seq<string>, tags: seq<string>, assertExists: bool, existing: set<string>)
      returns (r: Outcome)
      requires Valid()
      modifies this
      ensures Valid()
      ensures r.Fail? <==> StopsAt(files, assertExists, existing) < |files| && tags != []
      ensures r.Fail? ==> r.error == FileNotFound(files[StopsAt(files, assertExists, existing)])
      ensures r.Fail? ==> Edges() == old(Edges()) + Cross(files[..StopsAt(files, assertExists, existing)], tags)
      ensures r.Pass? ==> Edges() == old(Edges()) + Cross(files, tags)
    {
      ghost var k := StopsAt(files, assertExists, existing);
      ghost var before := Edges();
      CrossEmpty(tags);
      var i := 0;
      while i < |files|
        invariant 0 <= i <= |files|
        invariant Valid()
        invariant tags == [] || i <= k
        invariant Edges() == before + Cross(files[..i], tags)
      {
        r := TagFile(files[i], tags, assertExists, existing);
        if r.Fail? {
          assert i == k;
          return;
        }
        assert tags == [] || i < k;
        assert files[..i + 1] == files[..i] + [files[i]];
        CrossAppend(files[..i], [files[i]], tags, []);
        i := i + 1;
      }
      assert files[..i] == files;
      r := Pass;
    }

    /**
     `tags` when there are more files than tags: for each tag, every file;
     a missing file is met while giving out the first tag.
     */
    method TagEachTag(files: seq<string>, tags: seq<string>, assertExists: bool, existing: set<string>)
      returns (r: Outcome)
      requires Valid()
      modifies this
      ensures Valid()
      ensures r.Fail? <==> StopsAt(files, assertExists, existing) < |files| && tags != []
      ensures r.Fail? ==> r.error == FileNotFound(files[StopsAt(files, assertExists, existing)])
      ensures r.Fail? ==> Edges() == old(Edges()) + Cross(files[..StopsAt(files, assertExists, existing)], tags[..1])
      ensures r.Pass? ==> Edges() == old(Edges()) + Cross(files, tags)
    {
      ghost var k := StopsAt(files, assertExists, existing);
      ghost var before := Edges();
      CrossEmpty(files);
      var j := 0;
      while j < |tags|
        invariant 0 <= j <= |tags|
        invariant Valid()
        invariant j > 0 ==> k == |files|
        invariant Edges() == before + Cross(files, tags[..j])
      {
        r := TagWith(files, tags[j], assertExists, existing);
        if r.Fail? {
          assert j == 0 && tags[..1] == [tags[j]];
          return;
        }
        assert tags[..j + 1] == tags[..j] + [tags[j]];
        CrossAppend(files, [], tags[..j], [tags[j]]);
        j := j + 1;
      }
      assert tags[..j] == tags;
      r := Pass;
    }

    /**
     `tags(file_names, tag_names, assert_exists)`: `tag` for every file
     and tag, the shorter list driving the outer loop. The first missing
     file (when `assertExists`) stops everything, keeping what was added
     before it: all tags of the files before it when files drive the loop,
     otherwise only the first tag of those files.
     */
    method Tags(fileNames: Names, tagNames: Names, assertExists: bool, existing: set<string>) returns (r: Outcome)
      requires Valid()
      modifies this
      ensures Valid()
      ensures r.Fail? <==> StopsAt(AsList(fileNames), assertExists, existing) < |AsList(fileNames)| && AsList(tagNames) != []
      ensures r.Fail? ==> r.error == FileNotFound(AsList(fileNames)[StopsAt(AsList(fileNames), assertExists, existing)])
      ensures r.Pass? ==> Edges() == old(Edges()) + Cross(AsList(fileNames), AsList(tagNames))
      ensures r.Fail? && |AsList(fileNames)| <= |AsList(tagNames)| ==>
        Edges() == old(Edges()) + Cross(AsList(fileNames)[..StopsAt(AsList(fileNames), assertExists, existing)], AsList(tagNames))
      ensures r.Fail? && |AsList(fileNames)| > |AsList(tagNames)| ==>
        Edges() == old(Edges()) + Cross(AsList(fileNames)[..StopsAt(AsList(fileNames), assertExists, existing)], AsList(tagNames)[..1])
    {
      var files, tags := AsList(fileNames), AsList(tagNames);
      if |files| <= |tags| {
        r := TagEachFile(files, tags, assertExists, existing);
      } else {
        r := TagEachTag(files, tags, assertExists, existing);
      }
    }

    /**
     `untag(file_name, tag_name)`: the key's list becomes its set of
     values minus the one removed, in no particular order, and a key left
     with nothing is deleted; an absent key is left alone.
     */
    method Untag(fileName: string, tagName: string)
      requires Valid()
      modifies this
      ensures Valid()
      ensures RemovedFrom(old(theList), theList, KeyOf(format, fileName, tagName), ValueOf(format, fileName, tagName))
      ensures Edges() == old(Edges()) - {Edge(fileName, tagName)}
    {
      var key, value := tagName, fileName;
      if format == FileToTag {
        key, value := fileName, tagName;
      }
      if key !in theList {
        RemovedSpec(format, theList, theList, fileName, tagName);
        return;
      }
      var rest := ListOf(ToSet(theList[key]) - {value});
      theList := theList[key := rest];
      if rest == [] {
        theList := theList - {key};
      }
      EmptyToSet(rest);
      RemovedSpec(format, old(theList), theList, fileName, tagName);
    }

    /** The inner loop of `untags` when files drive it: one file, every tag. */
    method UntagFile(fileName: string, tags: seq<string>)
      requires Valid()
      modifies this
      ensures Valid()
      ensures Edges() == old(Edges()) - Cross([fileName], tags)
    {
      ghost var before := Edges();
      CrossEmpty([fileName]);
      var j := 0;
      while j < |tags|
        invariant 0 <= j <= |tags|
        invariant Valid()
        invariant Edges() == before - Cross([fileName], tags[..j])
      {
        Untag(fileName, tags[j]);
        assert tags[..j + 1] == tags[..j] + [tags[j]];
        CrossAppend([fileName], [], tags[..j], [tags[j]]);
        CrossSingle(fileName, tags[j]);
        j := j + 1;
      }
      assert tags[..j] == tags;
    }

    /** The inner loop of `untags` when tags drive it: every file, one tag. */
    method UntagWith(files: seq<string>, tagName: string)
      requires Valid()
      modifies this
      ensures Valid()
      ensures Edges() == old(Edges()) - Cross(files, [tagName])
    {
      ghost var before := Edges();
      CrossEmpty([tagName]);
      var i := 0;
      while i < |files|
        invariant 0 <= i <= |files|
        invariant Valid()
        invariant Edges() == before - Cross(files[..i], [tagName])
      {
        Untag(files[i], tagName);
        assert files[..i + 1] == files[..i] + [files[i]];
        CrossAppend(files[..i], [files[i]], [tagName], []);
        CrossSingle(files[i], tagName);
        i := i + 1;
      }
      assert files[..i] == files;
    }

    /** `untags(file_names, tag_names)`: `untag` for every file and tag. */
    method Untags(fileNames: Names, tagNames: Names)
      requires Valid()
      modifies this
      ensures Valid()
      ensures Edges() == old(Edges()) - Cross(AsList(fileNames), AsList(tagNames))
    {
      var files, tags := AsList(fileNames), AsList(tagNames);
      ghost var before := Edges();
      if |files| <= |tags| {
        CrossEmpty(tags);
        var i := 0;
        while i < |files|
          invariant 0 <= i <= |files|
          invariant Valid()
          invariant Edges() == before - Cross(files[..i], tags)
        {
          UntagFile(files[i], tags);
          assert files[..i + 1] == files[..i] + [files[i]];
          CrossAppend(files[..i], [files[i]], tags, []);
          i := i + 1;
        }
        assert files[..i] == files;
      } else {
        CrossEmpty(files);
        var j := 0;
        while j < |tags|
          invariant 0 <= j <= |tags|
          invariant Valid()
          invariant Edges() == before - Cross(files, tags[..j])
        {
          UntagWith(files, tags[j]);
          assert tags[..j + 1] == tags[..j] + [tags[j]];
          CrossAppend(files, [], tags[..j], [tags[j]]);
          j := j + 1;
        }
        assert tags[..j] == tags;
      }
    }
  
    /**
     `rename_tag(old_tag, new_tag)`. Keyed by tag, the list of `from`
     is popped and stored under `to`, replacing whatever `to` had (an
     absent `from` changes nothing). Keyed by file, every file listing
     `from` is tagged `to` and then untagged `from`, a merge; renaming a
     tag to itself there drops it.
     */
    method RenameTag(from: string, to: string)
      requires Valid()
      modifies this
      ensures Valid()
      ensures format == TagToFile ==>
        theList == if from in old(theList) then (old(theList) - {from})[to := old(theList)[from]] else old(theList)
      ensures format == TagToFile ==>
        Edges() == if from in AllTags(old(Edges())) then RetagOverwritten(old(Edges()), from, to) else old(Edges())
      ensures format == FileToTag ==> Edges() == RetagMerged(old(Edges()), from, to)
    {
      if format == TagToFile {
        KeysAreNames(format, theList);
        if from !in theList {
          return;
        }
        PopMoveTags(theList, from, to);
        var moved := theList[from];
        theList := theList - {from};
        theList := theList[to := moved];
      } else {
        ghost var before := Edges();
        // `THE_LIST.items()` is a snapshot; each visit changes only its own key
        var snapshot := theList;
        var pending := snapshot.Keys;
        ghost var done: set<string> := {};
        RetagEnds(before, {}, from, to);
        while pending != {}
          invariant pending <= snapshot.Keys && done == snapshot.Keys - pending
          invariant Valid() && format == FileToTag
          invariant forall k :: k in pending ==> k in theList && theList[k] == snapshot[k]
          invariant Edges() == RetagPartly(before, done, from, to)
          decreases pending
        {
          var fileName :| fileName in pending;
          InEdgeSet(FileToTag, snapshot, Edge(fileName, from));
          RetagStep(before, done, fileName, from, to);
          if from in snapshot[fileName] {
            ghost var prior := theList;
            var tagged := Tag(fileName, to, false, {});
            Untag(fileName, from);
            forall k | k in pending - {fileName} ensures k in theList && theList[k] == prior[k] {
              assert k in theList - {fileName};
            }
          }
          pending := pending - {fileName};
          done := done + {fileName};
        }
        KeysAreNames(FileToTag, snapshot);
        RetagEnds(before, done, from, to);
      }
    }

    /**
     `rename_file(old_file, new_file)`. Keyed by tag, every tag listing
     `from` gets `to` and then loses `from`, a merge; renaming a file to
     itself there drops it. Keyed by file, the list of `from` is stored
     under `to` and then `from` is deleted, so the file's own list is lost
     when renamed to itself (an absent `from` changes nothing).
     */
    method RenameFile(from: string, to: string)
      requires Valid()
      modifies this
      ensures Valid()
      ensures format == FileToTag ==>
        theList == if from in old(theList) then old(theList)[to := old(theList)[from]] - {from} else old(theList)
      ensures format == FileToTag ==>
        Edges() == if from in AllFiles(old(Edges())) then RefileOverwritten(old(Edges()), from, to) else old(Edges())
      ensures format == TagToFile ==> Edges() == RefileMerged(old(Edges()), from, to)
    {
      if format == FileToTag {
        KeysAreNames(format, theList);
        if from !in theList {
          return;
        }
        AssignDeleteFiles(theList, from, to);
        theList := theList[to := theList[from]];
        theList := theList - {from};
      } else {
        ghost var before := Edges();
        var snapshot := theList;
        var pending := snapshot.Keys;
        ghost var done: set<string> := {};
        RefileEnds(before, {}, from, to);
        while pending != {}
          invariant pending <= snapshot.Keys && done == snapshot.Keys - pending
          invariant Valid() && format == TagToFile
          invariant forall k :: k in pending ==> k in theList && theList[k] == snapshot[k]
          invariant Edges() == RefilePartly(before, done, from, to)
          decreases pending
        {
          var tagName :| tagName in pending;
          InEdgeSet(TagToFile, snapshot, Edge(from, tagName));
          RefileStep(before, done, tagName, from, to);
          if from in snapshot[tagName] {
            ghost var prior := theList;
            var tagged := Tag(to, tagName, false, {});
            Untag(from, tagName);
            forall k | k in pending - {tagName} ensures k in theList && theList[k] == prior[k] {
              assert k in theList - {tagName};
            }
          }
          pending := pending - {tagName};
          done := done + {tagName};
        }
        KeysAreNames(TagToFile, snapshot);
        RefileEnds(before, done, from, to);
      }
    }
  
    /**
     `get_files_by_tag(tag_name)`, sorted. Keyed by tag, a tag with no
     list makes `sorted(None)` raise; keyed by file, the keys whose lists
     hold the tag are collected.
     */
    method GetFilesByTag(tagName: string) returns (r: Result<seq<string>>)
      requires Valid()
      ensures r.Err? <==> format == TagToFile && FilesOf(Edges(), tagName) == {}
      ensures r.Err? ==> r.error == NoListForKey(tagName)
      ensures r.Ok? ==> StrictlySorted(r.value) && ToSet(r.value) == FilesOf(Edges(), tagName)
    {
      if format == TagToFile {
        ListedValues(format, theList, tagName);
        if tagName !in theList {
          return Err(NoListForKey(tagName));
        }
        EmptyToSet(theList[tagName]);
        return Ok(Sorted(theList[tagName]));
      }
      HoldersListed(format, theList, tagName);
      var fileNames := Holders(tagName);
      return Ok(Sorted(fileNames));
    }

    /**
     `get_tags_by_file(file_name)`, sorted; the mirror image of
     GetFilesByTag, failing when keyed by file and the file has no list.
     */
    method GetTagsByFile(fileName: string) returns (r: Result<seq<string>>)
      requires Valid()
      ensures r.Err? <==> format == FileToTag && TagsOf(Edges(), fileName) == {}
      ensures r.Err? ==> r.error == NoListForKey(fileName)
      ensures r.Ok? ==> StrictlySorted(r.value) && ToSet(r.value) == TagsOf(Edges(), fileName)
    {
      if format == FileToTag {
        ListedValues(format, theList, fileName);
        if fileName !in theList {
          return Err(NoListForKey(fileName));
        }
        EmptyToSet(theList[fileName]);
        return Ok(Sorted(theList[fileName]));
      }
      HoldersListed(format, theList, fileName);
      var tagNames := Holders(fileName);
      return Ok(Sorted(tagNames));
    }

    /**
     The loop of the slow-direction queries: every key whose list holds
     `name`, each once, in the order the keys are visited.
     */
    method Holders(name: string) returns (r: seq<string>)
      ensures NoDups(r)
      ensures ToSet(r) == set k | k in theList && name in theList[k]
    {
      r := [];
      var pending := theList.Keys;
      while pending != {}
        invariant pending <= theList.Keys
        invariant NoDups(r)
        invariant forall k :: k in r <==> k in theList && k !in pending && name in theList[k]
        decreases pending
      {
        var key :| key in pending;
        if name in theList[key] {
          r := r + [key];
        }
        pending := pending - {key};
      }
    }

    /**
     `get_tags()`: every tag once, sorted. Keyed by tag these are the
     keys; keyed by file every list is gathered and its repeats dropped.
     */
    method GetTags() returns (r: seq<string>)
      requires Valid()
      ensures StrictlySorted(r) && ToSet(r) == AllTags(Edges())
    {
      KeysAreNames(format, theList);
      if format == TagToFile {
        return SortedSet(theList.Keys);
      }
      var allTags := Gathered();
      return SortedSet(ToSet(allTags));
    }

    /** `get_files()`: every file once, sorted; the mirror image of GetTags. */
    method GetFiles() returns (r: seq<string>)
      requires Valid()
      ensures StrictlySorted(r) && ToSet(r) == AllFiles(Edges())
    {
      KeysAreNames(format, theList);
      if format == FileToTag {
        return SortedSet(theList.Keys);
      }
      var allFiles := Gathered();
      return SortedSet(ToSet(allFiles));
    }

    /**
     The loop of the exhaustive queries on the slow side: every key's list
     appended in turn, repeats kept; it holds exactly the names on the
     value side of an association.
     */
    method Gathered() returns (r: seq<string>)
      ensures format == FileToTag ==> ToSet(r) == AllTags(Edges())
      ensures format == TagToFile ==> ToSet(r) == AllFiles(Edges())
    {
      r := [];
      var pending := theList.Keys;
      while pending != {}
        invariant pending <= theList.Keys
        invariant forall x :: x in r ==> exists k :: k in theList && x in theList[k]
        invariant forall k, x :: k in theList && k !in pending && x in theList[k] ==> x in r
        decreases pending
      {
        var key :| key in pending;
        r := r + theList[key];
        pending := pending - {key};
      }
      if format == FileToTag {
        forall x ensures x in r <==> x in AllTags(Edges()) {
          if x in r {
            var k :| k in theList && x in theList[k];
            InEdgeSet(format, theList, Edge(k, x));
          }
          if x in AllTags(Edges()) {
            var e :| e in Edges() && e.tag == x;
            InEdgeSet(format, theList, e);
          }
        }
      } else {
        forall x ensures x in r <==> x in AllFiles(Edges()) {
          if x in r {
            var k :| k in theList && x in theList[k];
            InEdgeSet(format, theList, Edge(x, k));
          }
          if x in AllFiles(Edges()) {
            var e :| e in Edges() && e.file == x;
            InEdgeSet(format, theList, e);
          }
        }
      }
    }
  
    /**
     `save(output_file, overwrite)`: refuses an existing file unless
     `overwrite`; otherwise the text written, one `tag<==>file` line per
     association, keys and then values in sorted order. Loading that text
     into an empty store gives back the same associations.
     */
    method Save(outputFile: string, overwrite: bool, existing: set<string>) returns (r: Result<string>)
      requires Valid()
      ensures r.Err? <==> !overwrite && outputFile in existing
      ensures r.Err? ==> r.error == FileExists(outputFile)
      ensures r.Ok? ==> r.value == Dump(format, theList)
      ensures r.Ok? && Portable(Edges()) ==> LoadEdges({}, ReadLines(r.value), false, {}) == (Pass, Edges())
    {
      if !overwrite && outputFile in existing {
        return Err(FileExists(outputFile));
      }
      // `sorted(THE_LIST.items())` orders by key, the keys being distinct
      var text := WriteGroups(SortedSet(theList.Keys));
      SaveThenLoad(format, theList);
      return Ok(text);
    }

    /** The writing loop of `save`: each key's group of lines, in the order of `keys`. */
    method WriteGroups(keys: seq<string>) returns (text: string)
      requires Valid()
      requires forall k :: k in keys ==> k in theList
      ensures text == DumpKeys(format, theList, keys)
    {
      text := "";
      var i := 0;
      assert keys[0..] == keys;
      while i < |keys|
        invariant 0 <= i <= |keys|
        invariant text + DumpKeys(format, theList, keys[i..]) == DumpKeys(format, theList, keys)
      {
        var key := keys[i];
        DumpKeysNext(format, theList, keys, i);
        text := text + GroupText(format, key, theList[key]);
        i := i + 1;
      }
      assert keys[i..] == [];
    }

    /**
     `load(input_file, overwrite, assert_exists)`: a missing input file is
     an error before anything changes; otherwise the store is optionally
     emptied and each line of `contents` is stripped of trailing line
     separators, split at the first separator and tagged, stopping at the
     first line that has no separator or names a missing file.
     */
    method Load(inputFile: string, contents: string, overwrite: bool, assertExists: bool, existing: set<string>)
      returns (r: Outcome)
      requires Valid()
      modifies this
      ensures Valid()
      ensures inputFile !in existing ==> r == Fail(FileNotFound(inputFile)) && theList == old(theList)
      ensures inputFile in existing ==>
        (r, Edges()) == LoadEdges(if overwrite then {} else old(Edges()), ReadLines(contents), assertExists, existing)
    {
      if inputFile !in existing {
        return Fail(FileNotFound(inputFile));
      }
      if overwrite {
        theList := map[];
      }
      assert Edges() == if overwrite then {} else old(Edges());
      r := LoadLines(ReadLines(contents), assertExists, existing);
    }

    /** The reading loop of `load`: one `tag` per line, in order. */
    method LoadLines(lines: seq<string>, assertExists: bool, existing: set<string>) returns (r: Outcome)
      requires Valid()
      modifies this
      ensures Valid()
      ensures (r, Edges()) == LoadEdges(old(Edges()), lines, assertExists, existing)
    {
      assert lines[0..] == lines;
      var i := 0;
      while i < |lines|
        invariant 0 <= i <= |lines|
        invariant Valid()
        invariant LoadEdges(old(Edges()), lines, assertExists, existing) == LoadEdges(Edges(), lines[i..], assertExists, existing)
      {
        var line := lines[i];
        LoadEdgesNext(Edges(), lines, i, assertExists, existing);
        // `line.rstrip(os.linesep).split(SEPARATOR, 1)`, unpacked
        var parsed := ParseLine(line);
        if parsed.None? {
          return Fail(MalformedLine(line));
        }
        var e := parsed.value;
        ghost var before := Edges();
        r := Tag(e.file, e.tag, assertExists, existing);
        if r.Fail? {
          assert r == Fail(FileNotFound(e.file)) && Edges() == before;
          return;
        }
        assert Edges() == before + {e};
        i := i + 1;
      }
      assert lines[i..] == [];
      return Pass;
    }

    /**
     GetFilesByTag with the evident intent of its `or []`: a tag nobody
     carries has no files, whichever way the store is keyed.
     */
    method FilesByTag(tagName: string) returns (r: seq<string>)
      requires Valid()
      ensures StrictlySorted(r) && ToSet(r) == FilesOf(Edges(), tagName)
    {
      var found := GetFilesByTag(tagName);
      r := if found.Ok? then found.value else [];
    }

    /** GetTagsByFile with the same correction as FilesByTag. */
    method TagsByFile(fileName: string) returns (r: seq<string>)
      requires Valid()
      ensures StrictlySorted(r) && ToSet(r) == TagsOf(Edges(), fileName)
    {
      var found := GetTagsByFile(fileName);
      r := if found.Ok? then found.value else [];
    }

    /**
     `rename_tag` as the design intends it, the orientation affecting only
     speed: the tag's files are merged into the new tag's under either
     orientation, and renaming a tag to itself changes nothing.
     */
    method MergeRenameTag(from: string, to: string)
      requires Valid()
      modifies this
      ensures Valid()
      ensures Edges() == if from == to then old(Edges()) else RetagMerged(old(Edges()), from, to)
    {
      if from == to {
        return;
      }
      if format == FileToTag {
        RenameTag(from, to);
        return;
      }
      KeysAreNames(format, theList);
      if from !in theList {
        RetagAbsent(Edges(), from, to);
        return;
      }
      MergeKeys(format, theList, from, to);
      MergeKey(from, to);
    }

    /** `rename_file` as the design intends it; see MergeRenameTag. */
    method MergeRenameFile(from: string, to: string)
      requires Valid()
      modifies this
      ensures Valid()
      ensures Edges() == if from == to then old(Edges()) else RefileMerged(old(Edges()), from, to)
    {
      if from == to {
        return;
      }
      if format == TagToFile {
        RenameFile(from, to);
        return;
      }
      KeysAreNames(format, theList);
      if from !in theList {
        RefileAbsent(Edges(), from, to);
        return;
      }
      MergeKeys(format, theList, from, to);
      MergeKey(from, to);
    }

    /**
     The primary-key branch of MergeRenameTag and MergeRenameFile: `from`
     is deleted and each of its values is tagged under `to`, joining what
     `to` already lists.
     */
    method MergeKey(from: string, to: string)
      requires Valid() && from in theList
      modifies this
      ensures Valid()
      ensures Edges() == EdgeSet(format, old(theList) - {from}) + ListedUnder(format, to, old(theList)[from])
    {
      var moved := theList[from];
      theList := theList - {from};
      ghost var base := Edges();
      assert moved[..0] == [];
      var i := 0;
      while i < |moved|
        invariant 0 <= i <= |moved|
        invariant Valid()
        invariant Edges() == base + ListedUnder(format, to, moved[..i])
      {
        var edge := EdgeAt(format, to, moved[i]);
        ghost var before := Edges();
        var tagged := Tag(edge.file, edge.tag, false, {});
        assert tagged.Pass? && Edges() == before + {edge};
        assert moved[..i + 1] == moved[..i] + [moved[i]];
        ListedUnderAppend(format, to, moved[..i], moved[i]);
        i := i + 1;
      }
      assert moved[..i] == moved;
    }
  }

  /**
   Saving a store and loading the text into a fresh store keyed either
   way reproduces its associations, whenever its names fit the format.
   */
  method Reload(src: Store, format: Orientation, path: string) returns (dst: Store, r: Outcome)
    requires src.Valid() && Portable(src.Edges())
    ensures fresh(dst) && dst.Valid() && dst.format == format
    ensures r == Pass && dst.Edges() == src.Edges()
  {
    var saved := src.Save(path, true, {});
    SaveLoadRoundTrip(src.format, src.theList, {}, false, {path});
    assert {} + src.Edges() == src.Edges();
    dst := new Store(format);
    r := dst.Load(path, saved.value, true, false, {path});
  }
}
