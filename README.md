# taggart in Dafny

taggart keeps an in-memory association between files and tags. The
association is one dictionary, `THE_LIST`. The setting `FORMAT` decides
which way it is keyed:

- `TAG_TO_FILE`: each tag maps to the list of its files.
- `FILE_TO_TAG`: each file maps to the list of its tags.

The module can:

- add and remove associations one at a time (`tag`, `untag`) or as a
  cross product (`tags`, `untags`);
- rename a tag or a file;
- list the files of a tag, the tags of a file, all tags and all files;
- save the store as text, one `tag<==>file` line per association, and
  load such text back.

This project models that module as the class `Taggart.Store`. Its field
`format` is `FORMAT` and its field `theList` is `THE_LIST`, a
`map<string, seq<string>>` that the methods reassign.

Every operation is specified against the abstract edge set
`Store.Edges()`, the set of (file, tag) pairs stored. This set does not
depend on orientation. The invariant `Store.Valid()` holds throughout:
no key maps to an empty list, and no list repeats a value.
`Relation.SameEdgesSameLists` shows that, under this invariant, the edge
set fixes the dictionary up to the order of each list.

Modules:

- `Outcomes`: the exceptions the module raises, as `Error` values in
  `Outcome` and `Result`. Nothing is thrown.
- `Order`: the string ordering behind `sorted`; sorted listings; and
  `list(set(...))` as `ListOf`, which returns the elements in an order the
  model leaves open.
- `Text`: the separator `<==>`; `str.split(sep, 1)`, `str.rstrip`,
  `str.join`; and a file's `readlines()`. The line separator is "\n".
- `Relation`: edges, the two orientations and the edge-set algebra behind
  each operation.
- `Codec`: the text that `save` writes, as a function (`Dump`); the effect
  of `load`'s loop on edges (`LoadEdges`); and the round trip between them.
- `Taggart`: the `Store` class and its methods.

Existence checks (`os.path.exists`) are modelled as membership in a
parameter `existing`, the set of paths that exist. `save` returns the text
it would write. `load` takes the contents of the input file as a string.

Where the module's tests and its code disagree, the model follows the
code:

- `save` overwrites by default.
- `tags` does not suppress a failing `tag`.
- Only the text format exists; there is no JSON or YAML.

`rename_tag` keyed by file and `rename_file` keyed by tag iterate over
`THE_LIST.items()`. The model takes that as a snapshot (a list under
Python 2, the version `basestring` implies), so each step changes only its
own key.

The two rename branches that re-key the dictionary do not merge. Keyed by
tag, `rename_tag(x, y)` replaces the files `y` had with those of `x`.
Keyed by file, the same call merges them. The edge set after a rename
onto an existing name therefore depends on `FORMAT`. `RenameTag` and
`RenameFile` state both behaviours; see "## Findings".

## Model

| member | source | states |
|---|---|---|
| Order.SortedSet | taggart.py:245 | `sorted` of a set of keys: strictly ascending, holding exactly the set's elements |
| Order.SortedSetSpec | taggart.py:252 | any strictly ascending list of a set's elements equals its sorted listing, so `sorted` does not depend on how the set was built |
| Order.Sorted | taggart.py:135 | `sorted` of a list without repeats: strictly ascending, same elements, same length |
| Order.ListOf | taggart.py:86 | `list(set(...))`: each element of the set exactly once |
| Text.SplitOnce | taggart.py:160 | `split(SEPARATOR, 1)` fails to unpack exactly when the line has no separator; otherwise the parts rejoin to the line and the cut is at the first separator |
| Text.SplitOnceJoined | taggart.py:160 | splitting `tag + SEPARATOR + file` gives back `tag` and `file` whenever `tag` has no separator, whatever `file` holds |
| Text.StripLineSeps | taggart.py:159 | `rstrip(os.linesep)`: a prefix of the line, not ending in "\n", with only "\n" cut off |
| Text.JoinThenTerminate | taggart.py:136 | `linesep.join(lines) + linesep` on a non-empty group is each line followed by a line separator |
| Text.ReadLines | taggart.py:158 | `readlines()`: non-empty pieces that concatenate back to the file's text; every piece but the last ends in "\n", and no piece has a "\n" before its last character |
| Text.ReadTerminated | taggart.py:158 | reading lines that were each written with a trailing separator gives back exactly those lines, separators included |
| Relation.InEdgeSet | taggart.py:45-57 | an edge is stored exactly when its value is in the list of its key, under either orientation |
| Relation.InsertedSpec | taggart.py:45-57 | `tag`'s update keeps the lists non-empty and repeat-free and adds exactly the one edge |
| Relation.InsertedPresent | taggart.py:47-48 | tagging an edge that is already stored leaves the dictionary unchanged |
| Relation.RemovedSpec | taggart.py:82-98 | `untag`'s update keeps the invariant and removes exactly the one edge |
| Relation.KeysAreNames | taggart.py:245 | the keys are exactly the tags (keyed by tag) or the files (keyed by file) that occur in some edge |
| Relation.ListedValues | taggart.py:209 | the native-direction lookup lists exactly the names paired with the key, and an absent key pairs with none |
| Relation.HoldersListed | taggart.py:212-216 | the cross-direction lookup's matching keys are exactly the files of the tag (or the tags of the file) |
| Relation.SameEdgesSameLists | taggart.py:22-35 | two valid dictionaries holding the same edges have the same keys and the same values under each key |
| Relation.PopMoveTags | taggart.py:173 | `THE_LIST[new] = THE_LIST.pop(old)` keyed by tag keeps the invariant; the old tag's files move to the new tag and the new tag's previous files are lost |
| Relation.AssignDeleteFiles | taggart.py:200-201 | assign-then-`del` keyed by file keeps the invariant; the old file's tags replace the new file's |
| Relation.RetagStep | taggart.py:178-181 | one visit of the file-keyed `rename_tag` loop (`tag` then `untag`) moves that file's edge from the old tag to the new one |
| Relation.RetagEnds | taggart.py:178-181 | before the loop nothing is renamed; once every file is visited the result is the merging rename |
| Relation.RefileStep | taggart.py:191-194 | one visit of the tag-keyed `rename_file` loop moves that tag's edge from the old file to the new one |
| Relation.RefileEnds | taggart.py:191-194 | the tag-keyed `rename_file` loop starts from the old edges and ends with the merging rename |
| Relation.RetagAbsent | taggart.py:178-181 | renaming a tag that no file carries changes nothing |
| Relation.RefileAbsent | taggart.py:191-194 | renaming a file that no tag lists changes nothing |
| Relation.MergeKeys | taggart.py:165-201 | a merging rename of a primary key equals deleting that key and listing its values under the new key |
| Relation.RenameToSelf | taggart.py:165-201 | renaming a name to itself keeps every edge when a tag key is popped and re-stored, and drops that name's edges in the other three branches |
| Relation.RenameOntoExisting | taggart.py:165-181 | with files a:x and b:y, renaming x to y keeps only a under y when keyed by tag, but a and b when keyed by file |
| Codec.EdgesAt | taggart.py:134-135 | the group of a key holds one edge per value, in the values' order |
| Codec.DumpKeysText | taggart.py:133-136 | the groups written in turn are the lines of the written edges, each ending in a separator |
| Codec.DumpSpec | taggart.py:132-141 | `save`'s text is one `tag<==>file` line per stored edge, none missing; each line ends in a separator; lines are ordered by primary key and then by value |
| Codec.WrittenOnce | taggart.py:132-141 | lines in that order never repeat an edge |
| Codec.ParseLine | taggart.py:159-160 | a line fails to parse exactly when, once stripped, it has no separator; a line that parses is, once stripped, exactly the line of the parsed edge, cut at the first separator so the tag holds none |
| Codec.ParseWritten | taggart.py:159-160 | a written line with its separator parses back to its edge when the tag has no separator and the file no line break |
| Codec.LoadEdges | taggart.py:158-161 | loading lines only ever adds edges |
| Codec.LoadEdgesNext | taggart.py:158-161 | one line of `load`: a line with no separator fails; a missing file fails when existence is asserted; otherwise the edge is added and loading goes on |
| Codec.LoadWrittenLine | taggart.py:158-161 | loading a written line adds its edge and continues with the rest |
| Codec.LoadWritten | taggart.py:158-161 | loading the lines written for a sequence of edges succeeds and adds exactly those edges |
| Codec.SaveLoadRoundTrip | taggart.py:132-161 | loading what `save` wrote succeeds and adds exactly the saved edges, under either orientation at either end, with or without the existence check |
| Codec.SaveThenLoad | taggart.py:132-161 | loading saved text into an empty store rebuilds the saved edge set |
| Taggart.Store.constructor | taggart.py:17 | an empty `THE_LIST`: valid, with no edges |
| Taggart.Store.Tag | taggart.py:38-57 | fails with `FileNotFound` exactly when existence is asserted and the file is missing, and then changes nothing; otherwise adds exactly the edge, re-tagging changes nothing, and the list gains the value only if absent |
| Taggart.Store.TagFile | taggart.py:71-73 | one file with every tag: fails only if the file is missing and there is a tag, and then changes nothing; otherwise adds the file times all tags |
| Taggart.Store.TagWith | taggart.py:75-77 | every file with one tag: stops at the first missing file, keeping the files before it; otherwise adds all files with the tag |
| Taggart.Store.TagEachFile | taggart.py:70-73 | files-first nesting: fails exactly at the first missing file if there is a tag, keeping every tag of the files before it; otherwise adds the cross product |
| Taggart.Store.TagEachTag | taggart.py:74-77 | tags-first nesting: fails exactly at the first missing file if there is a tag, keeping only the first tag on the files before it; otherwise adds the cross product |
| Taggart.Store.Tags | taggart.py:60-77 | a single name becomes a one-element list; the result is old plus files times tags, or, on the first missing file, the pairs added before it, as the nesting order decides |
| Taggart.Store.Untag | taggart.py:80-98 | removes exactly the edge; an absent key changes nothing; a key left with no values is deleted; the invariant is kept |
| Taggart.Store.UntagFile | taggart.py:112-114 | removes the file times all tags |
| Taggart.Store.UntagWith | taggart.py:116-118 | removes all files with the tag |
| Taggart.Store.Untags | taggart.py:101-118 | the result is old minus files times tags, under either nesting |
| Taggart.Store.RenameTag | taggart.py:165-181 | keyed by tag: pop-and-store, replacing the new tag's files, with no change if the old tag is absent; keyed by file: the merging rename |
| Taggart.Store.RenameFile | taggart.py:184-201 | keyed by file: assign-and-delete, replacing the new file's tags, with no change if the old file is absent; keyed by tag: the merging rename |
| Taggart.Store.GetFilesByTag | taggart.py:204-216 | the tag's files, sorted; fails with `NoListForKey` exactly when keyed by tag and the tag has no files |
| Taggart.Store.GetTagsByFile | taggart.py:222-234 | the file's tags, sorted; fails with `NoListForKey` exactly when keyed by file and the file has no tags |
| Taggart.Store.Holders | taggart.py:212-216 | the slow-direction query loop collects, each once, exactly the keys whose lists hold the name |
| Taggart.Store.GetTags | taggart.py:240-252 | every tag once, strictly ascending, under either orientation |
| Taggart.Store.GetFiles | taggart.py:255-267 | every file once, strictly ascending, under either orientation |
| Taggart.Store.Gathered | taggart.py:249-252 | the gathering loop holds exactly the names on the value side of the stored edges |
| Taggart.Store.Save | taggart.py:121-143 | fails with `FileExists` exactly when not overwriting and the file exists; otherwise returns the text of `Codec.Dump`, which rebuilds the same edges when loaded into an empty store |
| Taggart.Store.WriteGroups | taggart.py:133-141 | the writing loop produces each key's group in turn |
| Taggart.Store.Load | taggart.py:146-162 | a missing input file fails and changes nothing; otherwise the outcome and edge set are those of `Codec.LoadEdges`, starting from no edges when `overwrite` and from the current ones otherwise |
| Taggart.Store.LoadLines | taggart.py:158-161 | the reading loop tags line by line and stops at the first malformed line or missing file, with the outcome and edges `Codec.LoadEdges` gives |
| Taggart.Store.FilesByTag | taggart.py:209 | corrected lookup: the tag's files, sorted, and empty when no file has the tag, under either orientation |
| Taggart.Store.TagsByFile | taggart.py:234 | corrected lookup: the file's tags, sorted, and empty when the file has none, under either orientation |
| Taggart.Store.MergeRenameTag | taggart.py:165-181 | corrected `rename_tag`: the merging rename under either orientation, and no change when a tag is renamed to itself |
| Taggart.Store.MergeRenameFile | taggart.py:184-201 | corrected `rename_file`: the merging rename under either orientation, and no change when a file is renamed to itself |
| Taggart.Store.MergeKey | taggart.py:173 | moving a primary key's values under another key and deleting it leaves the other keys' edges plus the moved values |
| Taggart.Reload | taggart.py:121-162 | saving a store and loading the text into a fresh store, keyed either way, reproduces the associations |

## Left out

- Logging (`logger` and its handler) records messages only; it has no effect on the store.
- The filesystem: `os.path.exists` is the set `existing`, `save` returns its text, and `load` receives the input file's contents. `open`, `write` and `close` are not modelled.
- `os.linesep` is fixed to "\n", the POSIX value.
- JSON and YAML formats, `remap` and the other extras that only some tests exercise. They are not in this version of the module.
- Assigning `FORMAT` while the store is non-empty. Every `Store` keeps the orientation it was built with.
- Arguments of `tags`/`untags` other than a string or a list of strings. `basestring` is the `Names` datatype.
- The aliases `get_tag_files` and `get_file_tags`. They are the same functions under other names.
- Taggart.Store.Tags: the contract gives the edge set and the invariant but not the order of the values inside each list. `Relation.SameEdgesSameLists` shows that nothing else is left open. The same holds for Untags, RenameTag (keyed by file), RenameFile (keyed by tag) and Load.
- Taggart.Store.Untag: the order of the remaining list is left open, as `list(set(...))` leaves it.
- Codec.LoadEdges: names containing "\n" and tags containing `<==>` cannot be saved and loaded back. The round-trip lemmas require `Portable`.
- Python 3 semantics of `dict.items()` as a live view. The renaming loops take a snapshot, as Python 2's list does.

## Findings

| source | as written | input that shows it | evidently intended | confidence | as-written member | corrected member |
|---|---|---|---|---|---|---|
| taggart.py:209 | `sorted(THE_LIST.get(tag_name)) or []` evaluates `sorted(None)` for an unknown tag, which raises `TypeError` before `or []` can apply; taggart.py:234 does the same for files | keyed by tag, empty store, `get_files_by_tag("x")` | an empty list, as the `or []` and the file-keyed branch give | not executed; high | Taggart.Store.GetFilesByTag | Taggart.Store.FilesByTag |
| taggart.py:200-201 | assign then `del` renames a file to itself by deleting it; the tag-then-untag loops at taggart.py:178-181 and taggart.py:191-194 also drop the name (`Relation.RenameToSelf`) | keyed by file, `tag("a", "t")`, `rename_file("a", "a")`: file `a` loses its tag | renaming a name to itself changes nothing, as the tag-keyed `rename_tag` already does | not executed; high | Taggart.Store.RenameFile | Taggart.Store.MergeRenameFile |
| taggart.py:173 | `THE_LIST[new_tag] = THE_LIST.pop(old_tag)` replaces the files the new tag had, while the file-keyed branch merges them (`Relation.RenameOntoExisting`); taggart.py:200 does the same for files | `tag("a", "x")`, `tag("b", "y")`, `rename_tag("x", "y")`: keyed by tag `y` has only `a`, keyed by file it has `a` and `b` | the same merge under either orientation, which the comment at taggart.py:22-32 presents as a speed trade-off only | not executed; medium | Taggart.Store.RenameTag | Taggart.Store.MergeRenameTag |
