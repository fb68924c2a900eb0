# obrabotka_OL record reconciliation, modelled in Dafny

This project models the batch pipeline that turns a folder of questionnaire
workbooks into one roster with one record per person. The model covers
`functions.py` and the main loop of `main.py`:

- **Named-table lookup** (`load_named_table`, `load_all_tables_from_file`).
  A workbook is a sequence of sheets, and each sheet holds its named ranges in
  order. The first range with the requested name wins, searching sheet by sheet.
  The range's first row is the header and the other rows are data. Every failure
  surfaces as a `RuntimeError`: an unreadable file, a missing table, or a range
  without rows.
- **Table combination** (`combine_dataframes`). The frames of one file are
  stacked, with a null wherever a frame lacks a column. Then the configured raw
  columns are dropped, and then the rename map is applied.
- **Merge** (`smart_merge` with `merge_group`). The rename is applied once more,
  and a missing `ФИО`/`УЗ` column is an error. Rows whose two key fields are both
  null are dropped. The other rows are grouped by the exact (`ФИО`, `УЗ`) pair,
  and a null counts as an ordinary key value. In each group, every other field
  takes the first value, in row order, that is not null and not whitespace-only.
- **Value replacement** (`apply_replacements`). For each listed column the frame
  has, the (old, new) pairs are applied in order to the already-updated column.
- **Orchestration** (`main.py`):
  - the file-name filter;
  - the choice of the module key;
  - the per-file loop over the module's tables;
  - the fixed order: stack everything, then merge, then replace.

Values are `Null | Str | Num`, where pandas' NaN and Python's None are both
`Null`. A table is an ordered list of column labels plus rows. Each row is a map
from label to value, keyed by exactly the columns.

Modules follow the program's structure:

| file | module | models |
|---|---|---|
| `values.dfy` | `Values` | cell values, `Option`/`Result`, Python's `str.strip()` and the "present" test |
| `tables.dfy` | `Tables` | tables, `pd.concat`, `drop(columns=…)`, `rename(columns=…)` |
| `workbooks.dfy` | `Workbooks` | workbooks and the two loaders |
| `combine.dfy` | `Combine` | `combine_dataframes` |
| `merge.dfy` | `Merge` | `smart_merge` |
| `replace.dfy` | `Replace` | `apply_replacements` |
| `pipeline.dfy` | `Pipeline` | the main loop of `main.py` |

Some consequences of the code that a reader might not expect:

- Replacements run after the merge (`main.py:84-87`).
  `Pipeline.ReplacementAfterMergeExample` shows the consequence: two records
  that were merged apart can end up with the same key.
- Replacements cascade within a column: a value produced by one pair can be
  matched by a later pair (`Replace.CascadeExample`). When no new value is a
  later old value, the cascade agrees with a plain dictionary lookup
  (`Replace.ReplaceIsLookup`).
- Zero counts as a present value in the merge. Only a null or a
  whitespace-only string counts as missing.
- Only nulls make a row identity-less, so a row with empty-string keys is kept
  and grouped.
- Header names are not whitespace-trimmed, and no module-tag column is added.
- A missing table or an unreadable workbook ends the whole run; it is not
  skipped. `load_named_table` raises instead of returning `None`, so the
  `df is not None` guard in `main.py:61` never filters anything.
- When no stacked record has a full name or an account, the merge raises
  (`Merge.NoGroups`). With no groups, pandas aggregates the whole frame with
  the key columns still in it, and `reset_index` cannot insert `ФИО` again.
- A key of `MODULES` that is the empty string occurs in every file name. When it
  is the first key that matches, `if not module_key` skips the file even if a
  later key would also match.

## Model

| member | source | states |
|---|---|---|
| Workbooks.NamedTable | functions.py:11-30 | An unreadable workbook fails. A name found in no range fails with "table not found". Otherwise the result comes from the first range, in sheet-major order, with that name: its first row is the header and the rest are the data rows. A range without rows fails. |
| Workbooks.LoadNamedTable | functions.py:13-28 | The nested loop over sheets and then over each sheet's tables computes exactly that first-match search. |
| Workbooks.LoadAllTables | functions.py:34-57 | On success there is one frame per range, in sheet-major order, each split into header and data. The call succeeds exactly when every range has a row. An unreadable file fails. A failure names one of the ranges. |
| Combine.FrameToTable | functions.py:17-21 | `pd.DataFrame(values, columns=headers)`: one record per data row, holding the cell under each header label. |
| Tables.Concat | functions.py:62 | The stacked table's columns are the union of the inputs' columns. Its row count is the sum of theirs. It is well-formed when the inputs are. |
| Tables.ConcatCell | functions.py:62 | Row `k` of table `i` lands at offset(i)+k. There it holds its own value under each of its columns, and null under the others. |
| Tables.DropColumns | functions.py:64-65 | A column is dropped exactly when it is a string label listed for removal. Names that are not present are ignored. Rows keep their count and all other cells. |
| Tables.DropAbsentIsIdentity | functions.py:64-65 | When no column is listed, dropping leaves the table unchanged. |
| Tables.RenameColumns | functions.py:66 | Each label that is a key of the map is replaced in place by its image, and the other labels stay. Every cell moves with its label. |
| Tables.RenameUntouchedIsIdentity | functions.py:66 | A map that renames none of the columns leaves the table unchanged. |
| Combine.CombineDataframes | functions.py:61-67 | No frames gives the concat error. Otherwise the result is well-formed and has as many rows as all the frames' data rows together. Its columns are exactly the renamed images of the raw labels that survive the drop, so columns are dropped by their raw names before renaming. |
| Combine.CombineCell | functions.py:62-66 | Data row `k` of frame `i` is output row rows-before(i)+k. Under the renamed label of each surviving raw label it holds the frame's cell, or null if the frame lacked that column. |
| Values.StripEmptyIffBlank | functions.py:86 | `str(x).strip() == ''` exactly when every character is Python whitespace. |
| Values.PresentStrIff | functions.py:86 | A string is present exactly when it has a non-whitespace character. |
| Merge.DropUnidentifiedMembers | functions.py:83 | `dropna(how='all')` on the keys keeps exactly the rows that have at least one non-null key field. |
| Merge.GroupMembers | functions.py:88 | A group holds exactly the rows whose (ФИО, УЗ) pair equals the key, with null compared as a value. |
| Merge.GroupOfIdentified | functions.py:83-88 | Dropping the identity-less rows leaves every group of an identified key whole and in order. |
| Merge.FirstPresent | functions.py:85-86 | `merge_group` returns a present value or null. It is null exactly when no value is present. A present result is the first present value. |
| Merge.SmartMerge | functions.py:80-90 | The merge fails exactly when the renamed frame lacks `ФИО` or `УЗ`, or when no record has a non-null key field. A missing key column gives a `KeyError` that names exactly the absent key columns. No records gives `NoGroups`. On success the result is well-formed, with the two key columns first. |
| Merge.MissingKeys | functions.py:83 | The labels `dropna(subset=…)` reports are exactly the key columns the frame lacks. |
| Merge.NothingIdentified | functions.py:83 | `dropna(how='all')` leaves no rows exactly when no record has a non-null key field. |
| Merge.KeptKeys | functions.py:83-88 | The keys the merge emits are exactly the identity keys of the rows that have one. |
| Merge.MergeCoverage | functions.py:83-89 | There is one output record per distinct identity key: as many records as keys, every key present, no key twice, and no record with two null key fields. |
| Merge.FirstPresentWins | functions.py:85-89 | Each non-key field of a record is the first present value of that field, in row order, among the input rows with the record's key. It is null when there is none. |
| Merge.MergedValueComesFromGroup | functions.py:85-89 | Values are never invented. A merged field is null or the value of some input row with the same key. |
| Merge.MergeOfMergedRows | functions.py:83-89 | Regrouping a table in merged shape (keys first, distinct identified keys, fields present or null) gives the same table. |
| Merge.MergeIdempotent | functions.py:80-90 | Merging a merge result again, with a map that renames none of its columns, gives it back unchanged. |
| Replace.ReplaceCompose | functions.py:109-116 | Applying two lists of pairs one after the other is the same as applying their concatenation. |
| Replace.ReplaceNoMatch | functions.py:110-116 | A cell equal to no old value is unchanged. |
| Replace.NonStringsKept | functions.py:110 | Null and numeric cells never match a string key. |
| Replace.ReplaceIsLookup | functions.py:109-116 | When no new value is the old value of a later pair, replacement is dictionary lookup. |
| Replace.CascadeExample | functions.py:109-116 | With `{a→b, b→c}`, the value `a` becomes `c`, although a lookup gives `b`. |
| Replace.ReplaceColumn | functions.py:108-116 | One entry rewrites only its own column, by the pairs in order, and is a no-op when the frame lacks the column. Shape is kept. |
| Replace.ApplyReplacements | functions.py:94-122 | The result is well-formed, with the same columns and the same number of rows. |
| Replace.ReplacementCell | functions.py:106-116 | Every cell is its original value run through all pairs listed for its column, in table order. |
| Replace.ReplacementIndependence | functions.py:107-116 | A column the table does not name is left exactly as it was. |
| Replace.AbsentColumnsIgnored | functions.py:117-121 | Entries naming only absent columns change nothing. |
| Pipeline.FindModule | main.py:47 | The chosen key is the first key of `MODULES` that occurs in the file name. There is none exactly when no key occurs. |
| Pipeline.EmptyKeyMatchesAll | main.py:47-49 | The empty key occurs in every file name. |
| Pipeline.ModuleOf | main.py:47-51 | A module is chosen exactly when the first key of `MODULES` occurring in the name is not empty, and then it is that key's entry. |
| Pipeline.LoadTables | main.py:59-62 | The tables are loaded in `table_names` order. All of them are loaded, or the error is that of the first one that fails. |
| Pipeline.ProcessFile | main.py:40-73 | A file whose name fails the filter is skipped, and so is a file with no module. A contributing file passes the filter, belongs to its module, has tables configured and yields a well-formed table. A load failure names a configured table of the file. |
| Pipeline.ProcessedTable | main.py:54-68 | A contributing file's table is `combine_dataframes` of the module's tables, loaded in `table_names` order, with the module's drop list and the rename map. A failed load fails the file with the first failing table's error. |
| Pipeline.CollectOrder | main.py:40-73 | The collected tables are the contributing files' tables in listing order: one per contributing file, and file `i`'s table sits at the number of contributing files listed before it. |
| Pipeline.CollectWellFormed | main.py:68-73 | Every table the loop collects is well-formed. |
| Pipeline.CollectErrors | main.py:40-73 | The folder loop fails exactly when some file fails, and then with the first failing file's error. |
| Pipeline.CollectNothing | main.py:64-66 | Nothing is collected exactly when every file is skipped. |
| Pipeline.SkippedFileIsInert | main.py:40-66 | Removing a skipped file from the folder changes nothing the loop collects. |
| Pipeline.Run | main.py:75-87 | The run stops with no data exactly when nothing was collected. On success the snapshots are the collected tables, the pre-merge table is their `pd.concat`, and the final table is `apply_replacements` of the successful `smart_merge` of it. The final table is well-formed with the key columns first. |
| Pipeline.RunNoData | main.py:75-77 | The run stops before merging exactly when every file is skipped. |
| Pipeline.RunAborts | main.py:59-62 | A failing file, such as one with a missing table, ends the whole run with an error. |
| Pipeline.FinalField | main.py:79-87 | End to end: a non-key field of the final roster is the first present value among the stacked records of that person, run through the replacements for its column. |
| Pipeline.FinalCoverage | main.py:79-87 | The final roster has one record per distinct identity key of the stacked and renamed records. |
| Pipeline.ReplacementAfterMergeExample | main.py:84-87 | Two records that are merge output, each with a personnel number, stay two after replacing `B` by `A` in `ФИО`, and then share a key. Merging after the replacement would give one. |

## Left out

- Parsing the .xlsx container (openpyxl) is not modelled. A workbook is given as its sheets and named ranges, and an unopenable file is `None`.
- Writing spreadsheets (`save_dataframe_to_excel`) is not modelled. The snapshot, pre-merge and final tables are returned in the result instead.
- Reading `config.json` and listing the input folder are not modelled. The configuration and the list of files, in listing order, are parameters.
- Logging, `print`, `log_decorator` and the `verbose` flags are left out. They only report and never change a result.
- UI.py, config_manager.py and logger_utils.py are not part of this model.
- Merge.MergeRows: when the frame has no column besides `ФИО` and `УЗ`, the model emits key-only records. pandas then applies `merge_group` to each whole group frame and adds a column `0` holding a key column's label. That path depends on pandas internals and is not modelled.
- Merge.MergeRows: emits groups in order of first appearance. pandas sorts the groups by key, and that order across mixed types and nulls is not modelled. The group set, the counts and every field are modelled.
- Tables.RenameColumns: requires the map to keep the present labels apart. pandas would silently create duplicate labels, and the model does not represent duplicate columns. The pipeline checks this and ends with `CombineCollision` or `MergeCollision` instead.
- Workbooks.FrameOk: loaded frames are assumed to have unique header cells and rectangular rows, because Excel enforces both for tables. `Pipeline.FileOk` carries this assumption for every workbook in the folder.
- pandas dtype coercion and float NaN are left out. Numbers are unbounded integers, and NaN and None are one `Null`.
- A replacement table's keys are JSON object keys, so they are strings. A new value may be any cell value.
- The replacement table and `MODULES` are sequences of entries and may repeat a name. A JSON object loaded by `json` keeps only the last entry for a repeated name, and the model does not collapse repeats, so `Replace.PairsFor` would apply every entry for a repeated column.
- Dates, booleans and fractional numbers, which openpyxl also returns for cells, have no `Value` case. Only strings, integers and empty cells are represented.
