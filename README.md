# JSONsInZIPsEditor — a Dafny model of its core

JSONsInZIPsEditor is a script that finds every `.zip` archive below the
current directory, unpacks each one into a scratch directory, loads every
`.json` document found inside, sets one key to one new value wherever that
key occurs in the document, writes the document back and zips the archive
again. This project models the three pieces of that script that hold its
logic, and proves what they do:

- **searchAndReplace**, the recursive key replace over a decoded JSON tree
  (`key_replace.dfy`). `Replace` is its pure meaning; `SearchAndReplace`
  adds the `TypeError` raised for a root that is neither an object nor an
  array; `SearchAndReplaceInPlace` follows the script's two loops step by
  step: the dict loop assigns each slot in key order, and the list loop finds
  each element's slot again with `var.index(item)` (`IndexOf`). That method
  is proved equal to the positional definition. The proof rests on the walk
  being idempotent: when `index` lands on an earlier, already walked slot,
  that slot and the current element are both fixed points of the walk.
- **getFileName**, the name of an archive's scratch sub-directory
  (`file_names.dfy`): the last `/`-separated segment with its last
  extension removed.
- **searchDirFor**, the selection rule of the recursive directory search
  (`dir_search.dfy`), over an in-memory directory tree instead of the file
  system. The name test comes first. So a directory whose name matches is
  returned and never entered, and only directories that do not match are
  searched. The docstring at JSONsInZIPsEditor.py:7 speaks of searching
  for files; the code also returns a matching directory, and the model
  follows the code.

JSON values are the datatype `JsonValues.Json`. Objects are an ordered
sequence of `(key, value)` entries, as a Python dict keeps insertion order.
Numbers are `Int` or `Float`, the two kinds `json` decodes to.
`Errors.Result` carries the exceptions the modelled code raises on its own
inputs.

The central result about the key replace is `ReplaceCharacterized`:
`Replace(j)` is the one value that keeps the shape of `j` and is settled.
Keeping the shape (`SameOutside`) means the same kinds, the same keys in the
same order, the same array lengths and equal scalars everywhere, except
under entries whose key matched. Being settled (`Settled`) means every entry
the walk reaches with the search key holds exactly the new value. Values
under a matched entry are not looked at, so neither the old value nor the
new one is scanned.

The directory search is stated against routes. A route (`DirSearch.Route`)
is a chain of child positions: `Here(i)` ends at child `i`, `Into(i, rest)`
enters child `i` and goes on with `rest`. `Selects` says a route ends at a
matching entry and passes only through directories that do not match;
`RoutePath` is the path the script builds along it. `Listed` follows the
loop child by child, with `Visit` for what one child contributes.
`FoundIffSelected` says the result holds exactly the paths of selected
routes, and `FoundFollowsRoutes` says it lists them once each, in the
depth-first order `RouteBefore` (lexicographic on child positions), which
is the order the loop's recursion visits them.

## Model

| member | source | states |
|---|---|---|
| `KeyReplace.Replace` | JSONsInZIPsEditor.py:82-94 | the pure meaning of the walk on a dict or list: each entry or element goes through `EntryStep` or `ItemStep` in place; its contract is stated by `ReplaceKeepsShape`, `ReplaceSettles` and `ReplaceCharacterized` |
| `KeyReplace.EntryStep` | JSONsInZIPsEditor.py:84-87 | the dict loop's step on one entry: a matched key takes the new value, a container value is walked, any other value stays; `ReplaceKeepsShape` and `ReplaceSettles` state what it keeps and sets |
| `KeyReplace.ItemStep` | JSONsInZIPsEditor.py:92-93 | the list loop's step on one element: a container is walked, a scalar stays; `ItemStepIdempotent` states that it is idempotent |
| `KeyReplace.SearchAndReplace` | JSONsInZIPsEditor.py:80-96 | a root that is not a dict or list gives `TypeError` with the script's message and no result; a container gives a result of the same kind that keeps its shape and is settled |
| `KeyReplace.SearchAndReplaceInPlace` | JSONsInZIPsEditor.py:80-96 | the loops as written, including the slot found by first-equal `var.index(item)` in the list loop, compute `SearchAndReplace` of the input, where equality is exact structural equality of values (see "Left out" for Python's `==`) |
| `KeyReplace.IndexOf` | JSONsInZIPsEditor.py:91 | `list.index` under structural equality: the returned position holds the element and no earlier position does |
| `KeyReplace.ReplaceKeepsShape` | JSONsInZIPsEditor.py:83-94 | only values under matched keys change: the root keeps its kind, objects keep their keys in order, arrays keep their length, unmatched scalars and scalar array elements are unchanged |
| `KeyReplace.ReplaceSettles` | JSONsInZIPsEditor.py:84-85 | after the walk every reached entry keyed by the search key holds exactly the new value |
| `KeyReplace.SettledIsFixpoint` | JSONsInZIPsEditor.py:82-94 | a container that is already settled comes back unchanged |
| `KeyReplace.ReplaceUnchangedIff` | JSONsInZIPsEditor.py:82-94 | the walk leaves a container unchanged if and only if it is already settled |
| `KeyReplace.ReplaceIdempotent` | JSONsInZIPsEditor.py:82-94 | walking the result a second time with the same key and value changes nothing |
| `KeyReplace.ItemStepIdempotent` | JSONsInZIPsEditor.py:92-93 | the list loop's step on one element is idempotent; this is what lets a slot found by `index` be walked again harmlessly |
| `KeyReplace.ReplaceCharacterized` | JSONsInZIPsEditor.py:83-94 | a value equals the walk's result if and only if it keeps the input's shape and is settled |
| `KeyReplace.ShapeAndSettledDetermine` | JSONsInZIPsEditor.py:83-94 | a value that keeps the input's shape and is settled is the walk's result |
| `KeyReplace.KeyAbsentSettled` | JSONsInZIPsEditor.py:86-87 | a tree in which the key occurs nowhere is settled for any new value |
| `KeyReplace.KeyAbsentUnchanged` | JSONsInZIPsEditor.py:86-93 | when the key occurs nowhere in a container, the result equals the input |
| `KeyReplace.ReplaceKeepsUniqueKeys` | JSONsInZIPsEditor.py:83-87 | when neither the input nor the new value has a repeated key in any object, the result has none either |
| `KeyReplace.NestedLevelExample` | JSONsInZIPsEditor.py:83-87 | `{"level":1,"nested":{"level":2}}` with key `level` and value 9 becomes `{"level":9,"nested":{"level":9}}` |
| `KeyReplace.NewValueNotRescannedExample` | JSONsInZIPsEditor.py:84-85 | a matched entry's old value is dropped unread, and the new value goes in as it is, even when it holds the key itself |
| `FileNames.LastSegment` | JSONsInZIPsEditor.py:34-35 | the result holds no `/`, is a suffix of the path, and is either the whole path or preceded by a `/` |
| `FileNames.StripLastExtension` | JSONsInZIPsEditor.py:35 | a name without `.` is returned whole; otherwise the result is the prefix up to the last `.`, with no `.` after it in the name |
| `FileNames.GetFileName` | JSONsInZIPsEditor.py:32-36 | the result holds no `/` and is a prefix of the path's last `/`-segment |
| `FileNames.StripLastExtensionAt` | JSONsInZIPsEditor.py:35 | the result is fixed by the position of the last `.` alone |
| `FileNames.LastSegmentOfJoin` | JSONsInZIPsEditor.py:34-35 | a name without `/` placed after a `/` (or at the start) is the last segment |
| `FileNames.GetFileNameDoubleExtension` | JSONsInZIPsEditor.py:35 | `"x/a.tar.gz"` gives `"a.tar"`: only the last extension is removed |
| `FileNames.GetFileNameDotOnly` | JSONsInZIPsEditor.py:35 | `"x/.zip"` gives `""` |
| `FileNames.GetFileNameNoExtension` | JSONsInZIPsEditor.py:34-35 | for any directory prefix that is empty or ends in `/`, a last segment without `.` is returned whole |
| `DirSearch.Matches` | JSONsInZIPsEditor.py:11 | the name test: ends with `endsW` and starts with `startsW`; `ListedNameMatches` states that every returned name passes it |
| `DirSearch.Join` | JSONsInZIPsEditor.py:12-15 | `os.path.join` of a directory and one name under POSIX rules; `JoinLastSegment` states that the name is the last segment of the result |
| `DirSearch.Listed` | JSONsInZIPsEditor.py:10-15 | the paths the loop holds after the first `n` children; `ListedSound`, `ListedComplete` and `RoutesListedAt` characterize it |
| `DirSearch.Visit` | JSONsInZIPsEditor.py:11-15 | what one pass of the loop appends for one child; `ChildRoutesAt` characterizes it |
| `DirSearch.Found` | JSONsInZIPsEditor.py:6-16 | what `searchDirFor` returns for a directory; `FoundIffSelected`, `FoundFollowsRoutes` and `FoundInRouteOrder` characterize it |
| `DirSearch.SearchDirFor` | JSONsInZIPsEditor.py:6-16 | the listing loop as written returns exactly `Found` for a directory; listing a file raises `NotADirectoryError` |
| `DirSearch.ListedSound` | JSONsInZIPsEditor.py:10-15 | every returned path leads to a matching entry through directories that do not match |
| `DirSearch.ListedComplete` | JSONsInZIPsEditor.py:10-15 | every matching entry reached through directories that do not match is returned |
| `DirSearch.FoundIffSelected` | JSONsInZIPsEditor.py:10-15 | a path is returned if and only if it is the path of such an entry, so a matching directory is never entered and only non-matching directories are searched |
| `DirSearch.RouteBeforeAsymmetric` | JSONsInZIPsEditor.py:10 | depth-first listing order on routes is asymmetric |
| `DirSearch.RouteBeforeIrreflexive` | JSONsInZIPsEditor.py:10 | no route comes before itself |
| `DirSearch.RoutesListedLength` | JSONsInZIPsEditor.py:10-15 | the loop collects one path per selected route |
| `DirSearch.RoutesListedIndex` | JSONsInZIPsEditor.py:10 | the routes collected after `n` children start at one of those children |
| `DirSearch.RoutesListedAt` | JSONsInZIPsEditor.py:10-15 | the route at each position is selected and leads to the path at the same position |
| `DirSearch.ChildRoutesAt` | JSONsInZIPsEditor.py:11-15 | the same for the routes starting at one child and what the loop appends for it |
| `DirSearch.RoutePathInto` | JSONsInZIPsEditor.py:14-15 | a route into a non-matching directory leads where its inner route leads from that directory's path |
| `DirSearch.RoutesListedComplete` | JSONsInZIPsEditor.py:10-15 | every selected route is among the collected routes |
| `DirSearch.RoutesListedSorted` | JSONsInZIPsEditor.py:10-15 | the collected routes are in strictly increasing depth-first order |
| `DirSearch.ChildRoutesSorted` | JSONsInZIPsEditor.py:14-15 | the same for the routes starting at one child |
| `DirSearch.FoundFollowsRoutes` | JSONsInZIPsEditor.py:6-16 | the result is the paths of the listed routes, one per position; every listed route is selected, every selected route is listed, and they come in strictly increasing depth-first order |
| `DirSearch.FoundInRouteOrder` | JSONsInZIPsEditor.py:6-16 | of two selected entries, the one earlier in depth-first listing order has its path earlier in the result |
| `DirSearch.ListedNameMatches` | JSONsInZIPsEditor.py:11-12 | when no child name holds a `/`, every returned path's final name starts with `startsW` and ends with `endsW` |
| `DirSearch.JoinLastSegment` | JSONsInZIPsEditor.py:12 | the last segment of `os.path.join(directory, name)` is `name` |

## Left out

- `jsonChangeValue` (JSONsInZIPsEditor.py:39-77): file I/O. This covers the read, the retry with `utf-8-sig`, the `json` decoding and the `json.dump` rewrite with indent 4. It is a thin wrapper around `open` and the `json` library.
- The archive loop of `main` (JSONsInZIPsEditor.py:179-223): zip extraction and re-zipping through `zipfile`, `shutil.rmtree`, and the failure list around those calls. All of it is calls into libraries outside the model. An exception from `extractall` (JSONsInZIPsEditor.py:188-193) is recorded in the failure list, and the scan and the re-zip still run. An exception from opening the archive (`zipFile(allZips[i], 'r')` at JSONsInZIPsEditor.py:187, outside the `try`) is not caught anywhere in `main`. A corrupt file named `*.zip` or a directory named `*.zip` therefore ends the whole run at that archive: it is not re-zipped, later archives are not processed, and the scratch directory stays. The same holds when the scratch directory was never created: `searchDirFor` at JSONsInZIPsEditor.py:197 then raises from `os.listdir`, and nothing catches it.
- Scratch-directory naming and removal (JSONsInZIPsEditor.py:171-174, 228-237): they use `random.randint`, `os.path.isdir`, `os.rmdir` and the errno-41 fallback, which are randomness and operating-system error codes.
- Console input and confirmation (`getInputJSON`, `getConformation`, `isValidJSON`, JSONsInZIPsEditor.py:107-135): interactive `input()` and `json.loads`.
- Timing and output (`timeStamp`, `printEnd`, `displayArray`, the final report): wall-clock time and printing.
- A change count. The script counts nothing and always rewrites every document and archive it touches, whether or not the key occurred, so the model has no count and no conditional rewrite.
- KeyReplace.SearchAndReplaceInPlace: Python's `==` is not modelled. `IndexOf` compares values structurally, while `var.index(item)` at JSONsInZIPsEditor.py:91 uses Python's `==`. That `==` equates values across types (`1 == 1.0 == True`), compares dicts without regard to key order, and has `-0.0 == 0.0`. So `index` can land on an earlier element that is equal only under Python's rules, and the walk's result then differs from the positional one. Example: `[{"k":null},{"k":{"y":2,"x":1}}]` with key `k` and value `{"x":1,"y":2}`. The first pass sets element 0 to `{"k":{"x":1,"y":2}}`. For element 1, `index` returns 0 because `{"k":{"x":1,"y":2}}` and `{"k":{"y":2,"x":1}}` are equal regardless of key order. So slot 0 is walked again and slot 1 is never walked: it stays `{"k":{"y":2,"x":1}}`, and `json.dump` writes the inner keys in that order. The positional walk, and this model, give slot 1 the value `{"k":{"x":1,"y":2}}`.
- Python's recursion limit: the recursive calls at JSONsInZIPsEditor.py:87 and 93 raise `RecursionError` on deeply nested documents. The model has no depth limit.
- SearchDirFor: the directory is an in-memory tree rather than the file system. Listing a path that does not exist, symbolic links, and listing order (whatever `os.listdir` returns, taken here as the order of `children`) are not modelled.
- JSON floats are exact reals; NaN and infinities, which Python's `json` accepts, are not modelled.
- SearchAndReplaceInPlace: the dict and the list are local sequences reassigned slot by slot, not shared heap objects, so mutation visible through other references is not modelled.
- Aliasing of the new value: the script inserts the same Python object at every match. The model works on values. This loses nothing, because the walk never enters a matched entry again.
