# uniquify_pictures: sort-then-scan deduplication

`uq.py` removes duplicate pictures from a directory tree. It walks the tree,
sorts the file paths by a content key `ikey` (the SHA-256 hex digest of the
decoded pixels), writes a spreadsheet report of the sorted paths with an
empty row between groups of equal digests, and keeps one path per digest:
the first of each run of equal digests in the sorted list.

This project models that core in Dafny:

- `keys.dfy` (module `Keys`): paths and digests are strings. `ikey` is a
  parameter `ikey: Path -> Digest`, a total deterministic function whose body
  is not modelled. Digests are ordered as Python orders `str` values:
  lexicographically by code point (`LexLe`). This order is proved total,
  antisymmetric and transitive.
- `sorting.dfy` (module `KeySort`): `sorted(data, key=ikey)` as a stable
  insertion sort `SortByKey`. It is proved to return a digest-sorted
  permutation of its input that keeps the paths of each digest in their
  input order. `StableSortIsUnique` shows that only one list has these
  properties, so the insertion sort returns exactly what Python's built-in
  stable sort returns.
- `cleaner.dfy` (module `Cleaner`): `sorted_cleaner` is a method. It appends
  to a result list inside an index loop and is proved equal to the
  specification `Cleaned`. Lemmas about `Cleaned` cover: the first path is
  kept; the result is an order-preserving selection of the input;
  position `i >= 1` is kept iff its digest differs from position `i - 1`'s;
  the result length is 1 plus the number of digest changes; the result is
  idempotent; and no digest is lost. For digest-sorted input, kept digests
  strictly increase, and each kept path is the first path of its digest.
- `report.dfy` (module `Report`): the row counter of `write_to_xlsx`. It is a
  method with a loop, proved against the closed form `Layout`/`FinalRow`.
  Lemmas cover: path 0 is never written; rows increase strictly below the
  header; one empty row appears before each digest change; the final
  counter is `2 + (n - 1) + changes`.
- `pipeline.dfy` (module `Pipeline`): `uniquify`, which chains sort, report
  and cleaner. For a non-empty input, the returned paths have exactly the
  input's digests, one path per digest. The path kept for a digest is the
  first path with that digest in walk order.

Behaviour kept exactly as `uq.py` has it, including where a reader might expect otherwise:

- `sorted_cleaner` on an empty list raises `IndexError` at
  `sorted_data[0]`. It does not return an empty result. The model returns
  `Result.IndexError`. An empty input directory therefore makes `main` fail
  once it reaches the cleaning step.
- The sort breaks ties between equal digests by walk order, because
  Python's sort is stable. It does not break them by path string.
- The report never writes the first path of the sorted list. It writes an
  empty row before path 1 when path 1's digest differs from path 0's.
- No digest-collision, extension-filter, parallel or duplicate-only logic
  exists in the code, so none is modelled.

## Model

| member | source | states |
|---|---|---|
| `KeySort.SortByKey` | src/uq.py:41 | the sorted list is a permutation of the input (same multiset) and its digests never decrease |
| `KeySort.SortIsStable` | src/uq.py:41 | for every digest, the paths with that digest appear in the sorted list in the same order as in the input |
| `KeySort.StableSortIsUnique` | src/uq.py:41 | two digest-sorted lists that list every digest's paths in the same order are equal, so a stable sort has one possible result |
| `KeySort.SortByKeyIsTheStableSort` | src/uq.py:93 | any digest-sorted list that keeps each digest's paths in input order is `SortByKey` of the input, which is what `sorted` returns |
| `KeySort.WithKeyFirst` | src/uq.py:41 | if path `i` is the first with its digest, it heads the input-ordered list of paths with that digest |
| `Keys.KeySetSize` | src/uq.py:64-71 | there are at most as many distinct digests as paths, and exactly as many iff no two paths share a digest |
| `Cleaner.SortedCleaner` | src/uq.py:64-71 | an empty list gives `IndexError`; otherwise the result is `Cleaned(sorted_data)`, starts with `sorted_data[0]`, and its length is between 1 and the input's |
| `Cleaner.KeptStartsWithFirst` | src/uq.py:67 | the first kept path is the first input path |
| `Cleaner.KeptLength` | src/uq.py:67-70 | the number of kept paths is 1 plus the number of positions whose digest differs from the previous position's, and at most the input length |
| `Cleaner.KeptSelects` | src/uq.py:67-70 | the kept paths are the input paths at strictly increasing positions, and position `i` is kept iff `i == 0` or its digest differs from position `i - 1`'s |
| `Cleaner.KeptIsSubMultiset` | src/uq.py:67-70 | every kept path comes from the input, and none is kept more often than it occurs |
| `Cleaner.KeptLastKey` | src/uq.py:68-70 | the last path kept so far has the digest of the last path looked at |
| `Cleaner.KeptAdjacentDistinct` | src/uq.py:68-70 | no two neighbouring kept paths share a digest, whatever the input order |
| `Cleaner.KeptKeySet` | src/uq.py:64-71 | the kept paths carry exactly the set of digests of the input |
| `Cleaner.CleanedFixesAdjacentDistinct` | src/uq.py:67-71 | when no two neighbours share a digest, the list comes back unchanged |
| `Cleaner.CleanedIdempotent` | src/uq.py:64-71 | cleaning the cleaned list returns it unchanged |
| `Cleaner.CountBoundariesFull` | src/uq.py:68-69 | the number of digest changes is `n - 1` iff every position differs in digest from its predecessor |
| `Cleaner.CleanedKeepsAllIff` | src/uq.py:67-70 | nothing is removed iff no two neighbours share a digest |
| `Cleaner.SortedBoundaryIsFirstOfGroup` | src/uq.py:68-69 | on digest-sorted input, a position is kept iff no earlier path has its digest |
| `Cleaner.SortedCleanedKeysIncrease` | src/uq.py:64-71 | on digest-sorted input the kept digests strictly increase and are pairwise distinct |
| `Cleaner.SortedCleanedSize` | src/uq.py:64-71 | on digest-sorted input the number of kept paths equals the number of distinct digests, and equals the input length iff all digests differ |
| `Cleaner.SortedCleanedKeepsFirstOfEachGroup` | src/uq.py:64-71 | on digest-sorted input each kept path is the first path of its digest, every input digest has a kept path, and no two kept paths share a digest |
| `Report.WriteRows` | src/uq.py:53-60 | the rows written and the final `cur_row` equal the closed forms `Layout` and `FinalRow` |
| `Report.LayoutOmitsFirstPath` | src/uq.py:54-59 | for a non-empty list exactly `n - 1` rows are written, for paths 1 to `n - 1` in order; path 0 is never written |
| `Report.CountBoundariesMonotone` | src/uq.py:55-56 | the number of empty rows inserted never decreases as the loop advances |
| `Report.LayoutRowsIncrease` | src/uq.py:53-60 | every written row is below the header row 1 and above the final counter, and row numbers strictly increase |
| `Report.LayoutSkipsOneRowPerBoundary` | src/uq.py:55-60 | each written row is one below the previous written row (the header for path 1), plus one skipped row exactly when its digest differs from its predecessor's |
| `Report.FinalRowCountsGroups` | src/uq.py:53-60 | the final counter is one past the last written row, and equals 2 plus the `n - 1` written rows plus the number of kept paths minus one |
| `Report.SortedFinalRowCountsDigests` | src/uq.py:53-60 | on digest-sorted input the number of empty rows is the number of distinct digests minus one |
| `Pipeline.Uniquify` | src/uq.py:36-43 | the report rows are those of the sorted list; empty input gives `IndexError`; otherwise the result has exactly the input's digests with one path each, increasing by digest, and each kept path is the first in walk order with its digest |
| `Pipeline.SortedKeepsFirstDiscovered` | src/uq.py:41-43 | cleaning the sorted list keeps a sub-multiset of the input with the same digest set, one path per digest (all paths iff the digests are all distinct), and the first-discovered path of each digest |
| `Pipeline.SortedKeySet` | src/uq.py:41 | sorting keeps the list length and its set of digests |

## Left out

- `scan_pictures` (src/uq.py:21-30): the `os.walk` enumeration is filesystem I/O. Its result is the input list `data`.
- The body of `ikey` (src/uq.py:32-34): PIL decoding and SHA-256 are foreign calls. `ikey` is an opaque deterministic parameter. The exception `Image.open` raises on a non-picture file is not modelled.
- `write_to_xlsx` cell contents (src/uq.py:48-51, 57-59, 61): the workbook, the header strings, the `realpath`/`split` of each path into name and directory, and the timestamped file name are library I/O and the wall clock. A written row records its row number and the whole path.
- `clean` (src/uq.py:74-85) and the copy loop of `main` (src/uq.py:99-103): these are filesystem side effects (`unlink`, `rmtree`, `relpath`, `makedirs`, `copy2`).
- The flags `DEBUG`, `REPORT` and `PLACE`, the path constants, `debug`, the `print` calls, and the order in which `main` calls the steps (src/uq.py:9-13, 87-113): these are configuration plumbing. `main` sorts exactly as `uniquify` does.
- `KeySort.SortByKey`: this is an insertion sort, not Python's merge sort, so it does not model running time. `KeySort.SortByKeyIsTheStableSort` shows that the two return the same list.
