# Column sorter and zone-marker purge, modelled in Dafny

This project models two small utilities.

- **Column sorter** (`reorder_csv.py`). It reads a delimited table and picks the delimiter from the first line when the caller gives none. The first candidate of `,` `;` tab `|` found in that line wins, and `,` is the default. It then sorts the records ascending by one named column and writes the header and the sorted records back with the same delimiter. The target is either the input itself, through a temporary `.temp` sibling that then replaces it, or an explicit output path. The sort uses numbers only when every value in the column converts. If one value does not, the whole table is sorted by raw text. The sort is stable.
- **Zone-marker purge** (`delete-zone-identifier.py`). It walks a directory tree and deletes every regular file whose name ends with `:Zone.Identifier`. A deletion that fails is reported and the walk goes on. A directory that cannot be listed raises out of the whole walk, so nothing after it is visited.

Modules:

- `Optional` (`optional.dfy`): the `Option` datatype.
- `StableSort` (`stable_sort.dfy`): Python's `sorted(xs, key=f)` as an insertion sort by a `Key`. A key is a number or a string, compared with Python's `<`. The module proves that the result is a permutation, that it is non-decreasing, that it is stable, and that it is the only sequence with those properties. The last point means the model agrees with Python's Timsort whatever algorithm it uses. Sorting is also proved idempotent.
- `ReorderCsv` (`reorder_csv.dfy`):
  - `str.strip()`, `readline()` and the delimiter search. The search is a method with a loop and an early return, proved against a recursive search function.
  - The table-wide choice between numeric and text keys.
  - `SortRows`.
  - The `ordenar_csv` pipeline as the method `SortCsv`. It works over a file map (path to text) and returns the new file map and an `Outcome`.
- `ZonePurge` (`zone_purge.dfy`):
  - The tree: files, directories and special entries.
  - The purge as a recursive rewrite `Purge`.
  - The walk itself as a method with a loop that recurses into subdirectories. It is proved against `Listing`/`Walk`, the purge cut short by the first directory that cannot be listed.
  - Lemmas on the set of entries that remain, on the shape of the rest of the tree, and on idempotence.

Parameters stand in for what the code calls but does not define:

- the `csv` reader: its header (`Env.fieldnames`) and, read separately and later, its records (`Env.records`);
- the `csv` writer (`Env.write`);
- `float()` (`Env.toNumber`, a partial map from text to a real number);
- the paths that cannot be opened for writing (`Env.unwritable`);
- the paths whose deletion fails (`failing`);
- the directories that `os.listdir` cannot list (`unlistable`).

Behaviour of the code worth noting:

- The code checks that the input exists before it detects the delimiter.
- The column test needs only the header. A file whose header lacks the column gives the missing-column outcome even when its records would make the reader raise.
- A bad explicit delimiter (not exactly one character) makes the `csv` module raise, and the generic handler turns that into a failure.
- A record with no value in the sort column always ends in the generic failure. With numeric keys, `float(None)` raises `TypeError`. With text keys, which need an earlier `ValueError` and so at least two records, comparing `None` with text raises.
- Idempotence of the sort is proved for every table, ties included. Byte-for-byte idempotence of the rewritten file depends on the csv writer and reader, which are not modelled.

## Model

| member | source | states |
|---|---|---|
| StableSort.KeyLtStrictTotal | reorder_csv.py:73-77 | Python's `<` on the keys of one table (numbers, or text compared by code point with a proper prefix first) is irreflexive, transitive and trichotomous, so ties are exactly equal keys |
| StableSort.SortByPermutation | reorder_csv.py:73 | the sorted sequence holds the input elements, each as often as in the input |
| StableSort.SortBySorted | reorder_csv.py:73 | no element of the result has a key below that of an earlier element |
| StableSort.SortByStable | reorder_csv.py:73 | for every key, the elements with that key appear in the result in their input order |
| StableSort.SortByUnique | reorder_csv.py:73 | any sorted sequence that keeps, for every key, the input order of that key's elements equals the result, so any stable sort gives the same output |
| StableSort.SortBySortedInput | reorder_csv.py:73 | sorting an already sorted sequence returns it unchanged |
| StableSort.SortByIdempotent | reorder_csv.py:73 | sorting the sorted sequence again changes nothing |
| ReorderCsv.Strip | reorder_csv.py:20 | the stripped line is a slice of the line; everything cut off at either end is whitespace in Python's sense; a non-empty result neither starts nor ends with whitespace |
| ReorderCsv.LineEnd | reorder_csv.py:20 | the first line stops at the first `\n` or `\r` (universal newlines) or at the end of the text, and contains no line break |
| ReorderCsv.StripSurrounded | reorder_csv.py:20 | whitespace of any kind around a line whose ends are not whitespace is exactly what strip removes |
| ReorderCsv.SniffFirstPresent | reorder_csv.py:23-25 | when candidate k occurs in the line and no earlier candidate does, candidate k is the delimiter |
| ReorderCsv.SniffDefault | reorder_csv.py:27-28 | when none of the four candidates occurs, the delimiter is a comma |
| ReorderCsv.SniffIsCandidate | reorder_csv.py:23-28 | the detected delimiter is always one of comma, semicolon, tab and pipe, and it occurs in the line unless it is the default comma |
| ReorderCsv.EdgeTabsIgnored | reorder_csv.py:20-25 | tabs at both ends of the first line are stripped first, so a line whose only inner candidate is `\|` is read as pipe-delimited |
| ReorderCsv.DetectDelimiter | reorder_csv.py:9-28 | the loop with its early return yields the search result on the stripped first line of the file text |
| ReorderCsv.AllNumeric | reorder_csv.py:72-74 | the numeric attempt succeeds exactly when every record's value in the column converts |
| ReorderCsv.TableKey | reorder_csv.py:72-77 | all or nothing: when every value converts, every record's key is its number; when any value fails, every record's key is its raw text |
| ReorderCsv.SortRowsPermutation | reorder_csv.py:69-77 | the output records are a permutation of the input records |
| ReorderCsv.SortRowsMembers | reorder_csv.py:69-77 | the output has as many records as the input, and a record occurs in the output exactly when it occurs in the input |
| ReorderCsv.SortRowsHasColumn | reorder_csv.py:72-77 | every output record has the column, and the output converts in full exactly when the input does, so resorting picks the same mode |
| ReorderCsv.SortRowsNumericOrder | reorder_csv.py:73 | when every value converts, the output is non-decreasing by numeric value |
| ReorderCsv.SortRowsTextOrder | reorder_csv.py:74-77 | when some value does not convert, the whole output is non-decreasing by raw text |
| ReorderCsv.SortRowsStable | reorder_csv.py:73-77 | records with equal key keep their input order, in either mode |
| ReorderCsv.SortRowsIdempotent | reorder_csv.py:73-77 | sorting the sorted records by the same column returns them unchanged |
| ReorderCsv.NumericSortExample | reorder_csv.py:72-73 | `Bob,30 / Ana,25 / Coe,25` sorted by `age` is `Ana, Coe, Bob` |
| ReorderCsv.TextFallbackExample | reorder_csv.py:74-77 | a column holding `x`, `abc`, `5`, where `5` converts and `x` does not, sorts entirely as text: `5`, `abc`, `x` |
| ReorderCsv.SortCsv | reorder_csv.py:30-96 | missing input gives NotFound and no change; a header that reads but lacks the column gives MissingColumn with the header listed and no change, whatever the records hold; any other failure changes nothing. Success happens exactly when the input exists, the delimiter resolves, the header reads and has the column, the records read, every record has a value in it and the target can be opened. On success the target holds the header unchanged with the records of `SortRows`, written with the delimiter used for reading; no output path replaces the input and removes the temporary file; an explicit path is written and nothing else changes; in both cases the written path holds the new text, no `.temp` file is left by an in-place rewrite, and every other existing file keeps its text; the reported mode is numeric exactly when every value converts |
| ReorderCsv.InPlaceReplacesInput | reorder_csv.py:86-87 | after the in-place rewrite the input holds the new text, the temporary file is gone and every other file is untouched |
| ZonePurge.PurgeItems | delete-zone-identifier.py:8-22 | the entries left after the walk are exactly the entries before it minus the marker files whose deletion does not fail |
| ZonePurge.PurgeRemovesOnlyMarkers | delete-zone-identifier.py:12-22 | the only marker files left are those whose deletion failed; every other entry remains; nothing new appears; the set of directories is unchanged |
| ZonePurge.PurgeKeepsTheRest | delete-zone-identifier.py:8-22 | with all marker files erased from both trees, the tree after the walk equals the tree before it: same entries, same order, same nesting |
| ZonePurge.PurgeIdempotent | delete-zone-identifier.py:12-22 | walking the purged tree again, with the same deletions failing, changes nothing (with no failures: purge is idempotent) |
| ZonePurge.WalkEntryFacts | delete-zone-identifier.py:11-22 | one entry: the walk aborts exactly when a directory at or below it cannot be listed; aborted or not, apart from marker files the entry is unchanged (nothing else is removed, moved or added); whatever it deletes is a deletable marker file; when it does not abort the entry becomes its purge and every deletable marker in it is deleted |
| ZonePurge.ListingFacts | delete-zone-identifier.py:8-22 | one call on a directory: it aborts exactly when the directory itself or one below it cannot be listed; aborted or not, with marker files erased the tree is unchanged; it deletes only deletable marker files; when it does not abort the result is `Purge` and every deletable marker is deleted |
| ZonePurge.WalkFacts | delete-zone-identifier.py:8-22 | the same four facts for the loop over a directory's listed entries, the unchanged tree apart from markers included |
| ZonePurge.WalkAfterAbort | delete-zone-identifier.py:8-22 | once a listing has raised, every later entry of every enclosing directory is left as it is and nothing more is deleted |
| ZonePurge.ListingComplete | delete-zone-identifier.py:8-22 | when every directory can be listed, the walk never aborts, leaves exactly the purged tree and deletes exactly the deletable marker files |
| ZonePurge.PurgeDirectory | delete-zone-identifier.py:8-22 | the loop over a directory's entries, recursing into subdirectories, equals `Walk`: it aborts exactly when some directory below cannot be listed, and deletes only deletable marker files; aborted or not, with marker files erased the entries are the same as before; when it does not abort it leaves exactly the purged entries and reports as deleted exactly the marker files below it whose deletion does not fail |
| ZonePurge.EliminateZoneIdentifiers | delete-zone-identifier.py:3-22 | a missing root or a root that is not a directory is left as it is with nothing deleted; otherwise the directory keeps its name and its entries are walked as `Listing` says: aborted exactly when the root or a directory below cannot be listed, with only deletable markers deleted and, with marker files erased, the same entries as before, and fully purged when nothing aborts |

## Left out

- Parsing and quoting of records by `csv.DictReader` and `csv.DictWriter` (reorder_csv.py:61, 81-83) are the parameters `Env.fieldnames`, `Env.records` and `Env.write`. The model records which delimiter, header and records they receive, not the bytes they produce.
- Records with more fields than the header are not modelled. `csv.DictWriter` raises on them after the target has been opened and partly written.
- ReorderCsv.KeyOf: gives a text key to a record that lacks the column, or that does not convert in numeric mode. `SortCsv` never sorts such a record, because it fails first.
- Python's `float()` is the parameter `Env.toNumber`. NaN, infinities and exponent syntax are not modelled. NaN would break the total order the sort relies on.
- Failures when opening or decoding the input (a directory path, permissions, invalid UTF-8) are not modelled. The file map holds only readable text files.
- A failing `os.replace` and the atomicity of the replacement are not modelled.
- All `print` messages, `argparse`/`main` (reorder_csv.py:98-113) and the process exit status are left out.
- Real filesystem calls (`os.listdir`, `os.remove`, `os.path.isfile`, `os.path.isdir`) are not modelled. A listing either fails (`unlistable`) or returns the directory's children. The tree is a finite, acyclic value. A symbolic link counts as whatever it points to, and link cycles cannot be expressed. The listing order is the order of a directory's children.
- Deletion failures are a fixed set of paths, so the model does not capture a failure that happens only on some attempts.
- The error messages of failed deletions are not returned.
- The hard-coded target folder and the module-level call (delete-zone-identifier.py:25-26) are left out. The root path is a parameter. The uncaught exception that ends the script after a failed listing is the `aborted` result.
- ZonePurge.PurgeDirectory: states which paths `deleted` contains, not the order in which they are reported.
