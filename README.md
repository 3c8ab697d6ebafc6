# DataInsight core, modelled in Dafny

DataInsight is a browser application for comparing, transforming and charting
tabular data (CSV and Excel files, or SQL Server query results), with a small
Node back end that runs the SQL queries. This project models its computational
core and proves properties of it:

- **the record-level dataset comparator**, in both of its versions:
  - the main-thread `performComparison` (`comparison.dfy`, module `DataComparison`);
  - the web-worker `onmessage` handler (`worker.dfy`, module `ComparisonWorker`).

  Both share one statement of the hash join they perform (`hash_join.dfy`, module `HashJoin`):
  - build a lookup map from dataset 2 keyed by a composite key, where a later row replaces an earlier one;
  - probe it with every row of dataset 1, sorting rows into matches, mismatches and rows unique to the first dataset;
  - compare partner rows column by column under `String` coercion;
  - collect the dataset-2 rows whose key dataset 1 never produced.
- **Excel export** (`excel.dfy`, `ExcelUtils`):
  - `chunkArray`;
  - worksheet rows projected onto the first row's keys;
  - unique sheet names of at most 31 characters;
  - oversized sheets split over several worksheets.
- **the line-by-line code diff** and its `.diff` export (`code_diff.dfy`, `CodeComparison`).
- **the column and row transforms** of the Transform page, with their operation history (`transform.dfy`, `Transform`).
- **the Database page** (`database.dfy`, `Database`):
  - the table search and its ordering;
  - the connection payload;
  - the choice of query and result label;
  - the second-file upload.
- **the Analytics page** (`analytics.dfy`, `Analytics`):
  - history edits (hide/unhide, delete, visible list);
  - totals;
  - the file-type and column frequency tables.
- **the paged table** (`pagination.dfy`, `Pagination`).
- **the group-by chart** of the Visualize page (`visualize.dfy`, `Visualize`).
- **the server's pure parts** (`server.dfy`, `Server`):
  - connection configuration defaults;
  - the `ALLOWED_ORIGINS` list and the CORS origin check;
  - the argument check of the execute-query route.

JavaScript semantics used throughout are modelled in four support modules:
- `js_values.dfy` (`JsValues`):
  - cell values `Str | Num | Bool | Null | Undef`;
  - `String()`, truthiness and `||`;
  - `Number()` and `parseInt` on integer text.
- `strings.dfy` (`Strings`): `trim`, `split`/`join`, `includes`/`startsWith`/`endsWith`, ASCII `toLowerCase`, `padStart`, and code-point string order.
- `rows.dfy` (`Rows`): a row is an ordered key list plus a map, so `Object.keys` order is kept.
- `sorting.dfy` (`Sorting`): a stable sort by a "may stay in front" relation, with sortedness, permutation and stability lemmas.

Where the source updates state step by step, the model is imperative:
- loops with invariants:
  - the comparison loops;
  - `chunkArray`;
  - the code-diff loop;
  - the Analytics counting loops;
  - the Visualize grouping loop;
- classes with `modifies` clauses: the workbook and the sheet namer.

Each such method is proved equal to a specification function, and the properties are lemmas about those functions. Code written as `map`/`filter`/expressions is modelled as functions.

## Model

| member | source | states |
|---|---|---|
| HashJoin.IndexByLastWins | src/components/DataComparison.tsx:132-136 | a key is in the lookup map iff some row produces it, and it maps to the last such row (later rows with the same key overwrite earlier ones) |
| HashJoin.KeySetMembers | src/components/DataComparison.tsx:187-188 | `data1Keys` holds exactly the keys the probed rows produce |
| HashJoin.Differences | src/components/DataComparison.tsx:196-201 | a column is listed in `_differences` iff it is a compared column whose `String` values differ in the two rows |
| HashJoin.DifferencesInOrder | src/components/DataComparison.tsx:196-201 | `_differences` keeps the order of the selected columns |
| HashJoin.CompareColumns | src/components/DataComparison.tsx:193-201 | the inner loop's `isMatch` holds iff no compared column differs under `String`, and its `differences` are the differing columns in order |
| HashJoin.Classify | src/components/DataComparison.tsx:190-226 | a row is unique iff its key is absent from the map; otherwise its partner is the map's row, and it is a match iff no compared column differs, else a mismatch with a non-empty list of exactly the differing columns |
| HashJoin.MatchesRows | src/components/DataComparison.tsx:203-204 | the rows behind `matches` are the probed rows classified as matches, in order |
| HashJoin.MismatchesRows | src/components/DataComparison.tsx:209-214 | the rows behind `mismatches` are the probed rows classified as mismatches, in order |
| HashJoin.UniqueToFirstRows | src/components/DataComparison.tsx:220-221 | the rows behind `uniqueToFirst` are the probed rows without a partner, in order |
| HashJoin.BucketedInOrder | src/components/DataComparison.tsx:178-227 | each result list is a subsequence of the probed rows |
| HashJoin.BucketsSplit | src/components/DataComparison.tsx:178-227 | the three buckets together are the probed rows as a multiset |
| HashJoin.ProbePartition | src/components/DataComparison.tsx:178-227 | every probed row appears exactly once across `matches`, `mismatches` and `uniqueToFirst` (multiset equality and total length), and each list keeps input order |
| HashJoin.ProbeMembers | src/components/DataComparison.tsx:203-221 | an entry is in a list iff its row was probed and classified for that list, tagged with `_source`, with `_differences` on mismatches only and the partner attached only when asked |
| HashJoin.UniqueToSecondRows | src/components/DataComparison.tsx:235-246 | the rows behind `uniqueToSecond` are the dataset-2 rows whose key is not in `data1Keys`, in order |
| HashJoin.UnseenInOrder | src/components/DataComparison.tsx:235-246 | `uniqueToSecond` keeps dataset-2 order |
| HashJoin.UnseenCounts | src/components/DataComparison.tsx:235-246 | a row with an unseen key keeps all its duplicates in `uniqueToSecond`; a row with a seen key has none |
| HashJoin.UniqueToSecondMembers | src/components/DataComparison.tsx:235-246 | each `uniqueToSecond` entry is a dataset-2 row with an unseen key tagged with the second file name; the list is an order-preserving subsequence with exact multiplicities |
| HashJoin.UniqueToSecondTagged | src/components/DataComparison.tsx:238 | each `uniqueToSecond` entry carries `_source = fileName2` and no differences or partner |
| HashJoin.UniqueBucketIsUnseen | src/components/DataComparison.tsx:187-191 | a dataset-1 row misses the dataset-2 map exactly when dataset 2 never produces its key |
| HashJoin.BucketedMembers | src/components/DataComparison.tsx:178-227 | a row is in a bucket iff it was probed and its classification selects that bucket |
| HashJoin.PairedListed | src/components/DataComparison.tsx:190-219 | a probed row whose key is in the map is listed in `matches` or `mismatches` |
| HashJoin.SingletonJoin | src/components/DataComparison.tsx:178-246 | one row against one row with the same key: a match when no column differs, else a mismatch listing the differences; nothing is unique on either side |
| HashJoin.ProbeCongruent | src/workers/comparisonWorker.ts:43-74 | two probes that classify every row alike give the same lists up to the attached partner row |
| HashJoin.UniqueToSecondCongruent | src/workers/comparisonWorker.ts:77-84 | two second passes that decide every row alike give the same list |
| HashJoin.IndexByTerminated | src/workers/comparisonWorker.ts:14-35 | keys that are other keys with a trailing `|` index the same rows under the same last-write-wins rule |
| HashJoin.KeySetTerminated | src/workers/comparisonWorker.ts:43-46 | with a trailing `|` on every key, `data1Keys` holds the same keys, each terminated |
| HashJoin.ClassifyTerminated | src/workers/comparisonWorker.ts:45-49 | probing a map of `|`-terminated keys with a `|`-terminated key classifies the row as the unterminated probe does |
| DataComparison.NothingToCompare | src/components/DataComparison.tsx:75-90 | with no selected column, or an empty dataset, all four lists are empty |
| DataComparison.CreateKeyLast | src/components/DataComparison.tsx:113-115 | the key of several columns is the key of the leading columns, a `|`, and `String(row[last] \|\| '')` |
| DataComparison.JoinHasContent | src/components/DataComparison.tsx:124 | a `|`-joined key has a non-blank, non-separator character iff one of its segments is not blank |
| DataComparison.KeyTestsIff | src/components/DataComparison.tsx:124 | the three key tests of `isValidRow` together are equivalent to the `every` test alone: the `trim` and `'\|\|'` tests are implied by it |
| DataComparison.KeyHasContentIff | src/components/DataComparison.tsx:113-124 | a key passes the test iff some selected column's segment `String(row[col] \|\| '')` is not blank |
| DataComparison.CreateKey | src/components/DataComparison.tsx:113-115 | the key of a row: `String(row[col] \|\| '')` of each selected column, joined with `\|` |
| DataComparison.IsValidRowAsWritten | src/components/DataComparison.tsx:118-125 | `isValidRow` as written: the row has an own key, and its key is not blank after trimming, is not `\|\|`, and has a piece that is not blank when split on `\|` |
| DataComparison.IsValidRow | src/components/DataComparison.tsx:118-125 | the row has an own key and some selected column's text holds a character that is neither white space nor `\|` |
| DataComparison.ValidRowIff | src/components/DataComparison.tsx:118-125 | the three tests as written (own keys, a key other than the bare separators, some non-blank piece of the key split on "\|") hold exactly when the row has an own key and some selected column's text has content, and exactly when it has an own key and not every piece of its split key is blank |
| DataComparison.ValidRows | src/components/DataComparison.tsx:131 | `data.filter(isValidRow)` keeps exactly the valid rows |
| DataComparison.Compare | src/components/DataComparison.tsx:63-271 | the result `performComparison` stores: all lists empty without columns or without rows on either side; otherwise the hash join of the valid rows of both datasets under CreateKey |
| DataComparison.PerformComparison | src/components/DataComparison.tsx:75-246 | the method's four lists equal the specification `Compare` |
| DataComparison.BuildLookup | src/components/DataComparison.tsx:131-136 | the build loop leaves the last-write-wins index of the valid dataset-2 rows |
| DataComparison.Probe | src/components/DataComparison.tsx:170-227 | the probe loop's three lists and `data1Keys` equal their specification functions |
| DataComparison.CollectUnseen | src/components/DataComparison.tsx:233-246 | the second pass's list equals the specification of `uniqueToSecond` |
| DataComparison.KeyInValid | src/components/DataComparison.tsx:131-142 | a key is in the map, or in `data1Keys`, iff some valid row of that dataset produces it |
| DataComparison.ComparePartition | src/components/DataComparison.tsx:178-227 | every valid dataset-1 row lands in exactly one of `matches`, `mismatches`, `uniqueToFirst`, each list in dataset-1 order; invalid rows appear nowhere |
| DataComparison.CompareMembers | src/components/DataComparison.tsx:178-246 | every listed row is a valid row of its dataset with the right `_source`; matched and mismatched rows have a partner key in dataset 2 (mismatches with non-empty `_differences`), one-sided rows do not; `uniqueToSecond` keeps every duplicate of each unseen valid row |
| DataComparison.CompareSwapUnique | src/components/DataComparison.tsx:178-246 | swapping the datasets turns the rows unique to the first into the rows unique to the second |
| DataComparison.ComparePairedKeys | src/components/DataComparison.tsx:187-219 | a key occurs among matches and mismatches iff both datasets produce it from a valid row |
| DataComparison.PairedKeyListed | src/components/DataComparison.tsx:187-219 | a key both datasets produce is listed among matches or mismatches |
| DataComparison.KeyPartsInjective | src/components/DataComparison.tsx:114 | for truthy `|`-free string cells, equal keys imply equal values in every compared column |
| DataComparison.NoMismatchesForPlainCells | src/components/DataComparison.tsx:196-201 | when every compared cell is a truthy string without `|`, `mismatches` is empty |
| DataComparison.CompareOnePair | src/components/DataComparison.tsx:187-219 | two valid rows with the same key give a match when no column differs, else a mismatch with those differences |
| DataComparison.FalsyCellMismatch | src/components/DataComparison.tsx:197 | an empty cell and a missing cell share a key but differ under `String`, so the pair is a mismatch |
| DataComparison.SeparatorInValueCollides | src/components/DataComparison.tsx:114 | a `|` inside values lets rows with different values share a key |
| DataComparison.SeparatorCollisionMismatch | src/components/DataComparison.tsx:190-214 | such a pair is reported as a mismatch on both columns |
| DataComparison.CommonColumns | src/components/DataComparison.tsx:342-349 | empty when either dataset is empty; otherwise exactly the first rows' shared keys, in `data1[0]` order |
| DataComparison.KeptIn | src/components/DataComparison.tsx:349 | `cols1.filter(col => cols2.includes(col))` keeps exactly the shared elements, in order |
| DataComparison.ToggleColumn | src/components/DataComparison.tsx:859-869 | clicking a selected column removes every occurrence of it and keeps the other columns, each as often as before and in their order (a subsequence with the same multiset less the column), as `filter` does; clicking another appends it; a duplicate-free selection stays duplicate-free |
| DataComparison.ToggleTwice | src/components/DataComparison.tsx:859-869 | selecting an unselected column and clicking it again restores the selection |
| ComparisonWorker.FirstRowIndex | src/workers/comparisonWorker.ts:8-9 | the index is -1 iff the dataset is empty or the column is not a key of its first row, else the column's position there |
| ComparisonWorker.ColIndices | src/workers/comparisonWorker.ts:7-11 | one entry per selected column, with its index in each dataset's first row |
| ComparisonWorker.KeyText | src/workers/comparisonWorker.ts:14-24 | the worker's key: for each selected column found in its dataset's first row, the text of the row's value at that column's position (`Object.values(row)[idx] \|\| ''`) followed by `\|`; a column not found adds nothing |
| ComparisonWorker.CreateKey | src/workers/comparisonWorker.ts:14-24 | the `+=` loop builds the specified key text |
| ComparisonWorker.KeyTextShape | src/workers/comparisonWorker.ts:14-24 | the key is empty iff no selected column was found, and a non-empty key ends in `|` |
| ComparisonWorker.WorkerCompare | src/workers/comparisonWorker.ts:2-90 | the result the worker posts: the hash join of all rows of both datasets under the worker's key |
| ComparisonWorker.OnMessage | src/workers/comparisonWorker.ts:2-90 | the handler's four lists equal the specification `WorkerCompare` |
| ComparisonWorker.BuildLookup | src/workers/comparisonWorker.ts:27-35 | the build loop leaves the last-write-wins index of all dataset-2 rows |
| ComparisonWorker.Probe | src/workers/comparisonWorker.ts:38-74 | the probe loop's lists (with `_match`) and `data1Keys` equal their specification |
| ComparisonWorker.CollectUnseen | src/workers/comparisonWorker.ts:77-84 | the second loop's list equals its specification |
| ComparisonWorker.WorkerPartition | src/workers/comparisonWorker.ts:43-74 | with no filtering, every dataset-1 row lands in exactly one list, each list in input order |
| ComparisonWorker.WorkerPartner | src/workers/comparisonWorker.ts:48-69 | a matched or mismatched entry carries as `_match` the last dataset-2 row with the same worker key |
| ComparisonWorker.NoColumnsAllMatch | src/workers/comparisonWorker.ts:30-84 | with no selected column every key is empty, so all dataset-1 rows match and the other lists are empty |
| ComparisonWorker.KeyTextAllFound | src/workers/comparisonWorker.ts:14-24 | for a row in its dataset's first-row key order with every column found, the worker key is the main-thread key plus a trailing `|` |
| ComparisonWorker.SegmentFound | src/workers/comparisonWorker.ts:19-20 | a positional lookup in such a row reads the named column |
| ComparisonWorker.WorkerAgreesWithMain | src/workers/comparisonWorker.ts:2-84 | on valid rows sharing their first row's key order, with every column in both first rows, the worker gives the main thread's lists except for the `_match` field |
| ExcelUtils.ChunksFrom | src/lib/excelUtils.ts:196-198 | chunks from position i have 1..k elements, all but the last exactly k, and there are ⌈(n-i)/k⌉ of them |
| ExcelUtils.Chunks | src/lib/excelUtils.ts:194-200 | `chunkArray`: chunks of 1..k elements, all but the last exactly k, ⌈n/k⌉ of them |
| ExcelUtils.ConcatChunksFrom | src/lib/excelUtils.ts:196-198 | the chunks from position i put back together are the array from i |
| ExcelUtils.ConcatChunks | src/lib/excelUtils.ts:194-200 | the chunks put back together are the array |
| ExcelUtils.ChunkArray | src/lib/excelUtils.ts:194-200 | the stepping loop returns the specified chunks: they concatenate to the array, have sizes 1..k with all but the last full, and number ⌈n/k⌉ |
| ExcelUtils.ProjectRow | src/lib/excelUtils.ts:49 | one cell per header: the row's value when truthy, else `''` |
| ExcelUtils.ProjectRows | src/lib/excelUtils.ts:48-51 | one projected row per data row, in order |
| ExcelUtils.ProjectRowsAppend | src/lib/excelUtils.ts:36-39 | projecting chunk by chunk gives the same rows as projecting all at once |
| ExcelUtils.SheetOf | src/lib/excelUtils.ts:11-20 | a worksheet has a header iff it got data, that header is `Object.keys(data[0])`, and it has one row per data row |
| ExcelUtils.Workbook.AddWorksheet | src/lib/excelUtils.ts:11-52 | `addWorksheet` appends exactly the specified worksheet, by the chunked path above 10000 rows and the plain path otherwise |
| ExcelUtils.Prefix | src/lib/excelUtils.ts:167 | `substring(0, n)` is a prefix of length n when in range, the whole string past the end |
| ExcelUtils.Candidate | src/lib/excelUtils.ts:156-167 | the name tried for counter k: the base (cut to 31) for k = 0, else a prefix of the base followed by `_k`, at most 31 characters |
| ExcelUtils.CandidateInjective | src/lib/excelUtils.ts:165-167 | different counters give different suffixed names |
| ExcelUtils.FreeCandidateExists | src/lib/excelUtils.ts:164-169 | one of the first `\|used\| + 1` counters gives an unused name, so the `while` loop ends |
| ExcelUtils.FirstFree | src/lib/excelUtils.ts:164-169 | the counter the loop stops at: its name is unused and every earlier one is used |
| ExcelUtils.FirstFreeUnique | src/lib/excelUtils.ts:164-169 | only that counter is free with all earlier ones taken |
| ExcelUtils.UniqueNameLength | src/lib/excelUtils.ts:159-167 | the chosen name has at most 31 characters while fewer than 10^29 names are taken |
| ExcelUtils.UniqueName | src/lib/excelUtils.ts:155-173 | the chosen name is unused, and an unused base of at most 31 characters is kept as it is |
| ExcelUtils.SheetNamer.MakeUniqueName | src/lib/excelUtils.ts:155-173 | returns the specified name, which was not used before, and adds exactly it to `usedNames`; the comparison page's export-local `makeUniqueName` (src/components/DataComparison.tsx, lines 527-543) is the same function |
| ExcelUtils.SheetParts | src/lib/excelUtils.ts:176-187 | a sheet within the row limit is one part; a larger one is ⌈n/100000⌉ parts |
| ExcelUtils.SheetPartsNamed | src/lib/excelUtils.ts:178-181 | a split sheet has at least two parts, named `${name}_${i}` from 1, each within the limit |
| ExcelUtils.SheetPartsRows | src/lib/excelUtils.ts:176-187 | the parts' rows, one after the other, are the sheet's rows |
| ExcelUtils.ChosenNames | src/lib/excelUtils.ts:175-188 | one worksheet name per part |
| ExcelUtils.ChosenNameAt | src/lib/excelUtils.ts:175-188 | the i-th worksheet's name is the unique name of the i-th part's base name given the names handed out before |
| ExcelUtils.ChosenNamesDistinct | src/lib/excelUtils.ts:155-188 | all worksheet names in the workbook are pairwise distinct |
| ExcelUtils.ChosenNameLength | src/lib/excelUtils.ts:155-188 | every worksheet name has at most 31 characters while there are fewer than 10^29 parts |
| ExcelUtils.Worksheets | src/lib/excelUtils.ts:182-186 | one worksheet per part, built from that part's rows under its chosen name |
| ExcelUtils.ExportShape | src/lib/excelUtils.ts:146-188 | the workbook has one worksheet per part, in order, holding that part's rows, with pairwise distinct names |
| ExcelUtils.ExportMultipleSheets | src/lib/excelUtils.ts:146-188 | with the source's limit of 100000 rows, the loop over sheets leaves exactly the specified worksheets in a fresh workbook, none holding more than 100000 data rows |
| ExcelUtils.PartsWithinLimit | src/lib/excelUtils.ts:176-187 | every part a list of sheets is split into holds at most the row limit |
| ExcelUtils.ExportWithinLimit | src/lib/excelUtils.ts:176-187 | no exported worksheet holds more data rows than the limit |
| ExcelUtils.PartsRows | src/lib/excelUtils.ts:175-187 | the parts' rows, one after the other, are all the sheets' rows in order: splitting loses and duplicates nothing |
| ExcelUtils.AddSheet | src/lib/excelUtils.ts:175-188 | one sheet adds exactly its parts under the names the namer hands out |
| ExcelUtils.AddPart | src/lib/excelUtils.ts:185-186 | an unsplit sheet adds one worksheet under the next unique name |
| ExcelUtils.AddSplitSheet | src/lib/excelUtils.ts:176-183 | a split sheet adds its chunks in order under `${name}_${i}`-based unique names |
| ExcelUtils.AddChunk | src/lib/excelUtils.ts:179-183 | one chunk step adds the j-th part |
| ExcelUtils.SheetPartAt | src/lib/excelUtils.ts:179-181 | the j-th part of a split sheet is its j-th chunk under `${name}_${j+1}` |
| CodeComparison.KindAt | src/pages/CodeComparison.tsx:58-91 | entry i is added iff i is past the first text's lines, removed iff past only the second's, unchanged iff both lines exist and are equal, otherwise modified |
| CodeComparison.Classify | src/pages/CodeComparison.tsx:55-91 | entry i has line number i + 1; added and modified entries show the second text's line, the others the first's; only modified entries carry the original line |
| CodeComparison.DiffsUpTo | src/pages/CodeComparison.tsx:52-92 | one entry per index below the count, entry i classified as above |
| CodeComparison.CompareLines | src/pages/CodeComparison.tsx:45-92 | the comparison of two texts' lines: one difference per line up to the longer text, and the count of each kind |
| CodeComparison.Compare | src/pages/CodeComparison.tsx:36-105 | nothing when either text is blank after trimming; otherwise CompareLines of both texts split on newlines |
| CodeComparison.CompareCode | src/pages/CodeComparison.tsx:36-105 | no result iff either text is blank after trim; otherwise the specified comparison |
| CodeComparison.CompareLineByLine | src/pages/CodeComparison.tsx:45-92 | the loop's differences and four counters equal their specification |
| CodeComparison.CountsSum | src/pages/CodeComparison.tsx:45-92 | the four counters add up to the number of entries |
| CodeComparison.CountUpToKind | src/pages/CodeComparison.tsx:45-92 | counting entries by type is counting indices by type |
| CodeComparison.CountOfDifferences | src/pages/CodeComparison.tsx:45-92 | each counter equals the number of entries of its type |
| CodeComparison.AddedUpTo | src/pages/CodeComparison.tsx:58-65 | the added lines among the first n indices are those at or past the first text's end |
| CodeComparison.RemovedUpTo | src/pages/CodeComparison.tsx:66-73 | the removed lines among the first n indices are those past the second text's end |
| CodeComparison.CompareCounters | src/pages/CodeComparison.tsx:42-92 | `differences` has max(len1, len2) entries, `addedLines = max(0, len2 - len1)`, `removedLines = max(0, len1 - len2)`, at most one is non-zero, and the counters sum to the entry count |
| CodeComparison.UnchangedUpTo | src/pages/CodeComparison.tsx:74-81 | with identical lines every index is unchanged |
| CodeComparison.IdenticalUnchanged | src/pages/CodeComparison.tsx:74-81 | identical non-blank texts give only unchanged entries, and `unchangedLines` equals the total |
| CodeComparison.FormatLine | src/pages/CodeComparison.tsx:121-126 | a line starts with the type's prefix and a space, ends with `: ` and the content, and between them holds the line number left-padded with spaces to width 3 |
| CodeComparison.FormatLineNumber | src/pages/CodeComparison.tsx:125 | the number field is at least three characters: spaces, then decimal digits that read back as the entry's line number |
| CodeComparison.ExportComparison | src/pages/CodeComparison.tsx:118-127 | the `.diff` text: one formatted line per difference, joined with newlines |
| CodeComparison.FormatLines | src/pages/CodeComparison.tsx:120-126 | one formatted line per entry, in order |
| CodeComparison.KindOfPrefix | src/pages/CodeComparison.tsx:122-124 | the prefix character identifies the entry type |
| CodeComparison.FormatLineNoNewline | src/pages/CodeComparison.tsx:125 | a formatted line holds no newline when its content holds none |
| CodeComparison.ContentsNoNewline | src/pages/CodeComparison.tsx:42-43 | the compared lines hold no newline |
| CodeComparison.ExportLines | src/pages/CodeComparison.tsx:120-127 | splitting the exported text on newlines gives back one formatted line per entry, whose prefix tells its type and which ends in its content |
| CodeComparison.ExportLineNumbers | src/pages/CodeComparison.tsx:120-127 | the i-th exported line carries the number i + 1, padded to width 3, between its prefix and the colon |
| Transform.Load | src/pages/Transform.tsx:67-73 | after a file loads, the data and original data are its rows, the history is empty, and the columns are the first row's keys (none for no rows) |
| Transform.RenameRow | src/pages/Transform.tsx:105-110 | the new name holds the old name's value (possibly undefined), the old name is gone, every other key is untouched; `Object.keys` of the new row is the old keys without the old name, in order, followed by the new name when the row did not have it (spread, set and delete move the renamed key to the end), while `columns` keeps it in place |
| Transform.ReplaceColumn | src/pages/Transform.tsx:113 | `columns` has the old name replaced in place |
| Transform.RenameColumn | src/pages/Transform.tsx:102-121 | a no-op when the new name is blank or equal to the old; otherwise every row renamed, row count kept, columns replaced in place, one history entry appended |
| Transform.RenameBack | src/pages/Transform.tsx:105-110 | renaming to a fresh name and back restores every cell |
| Transform.RenameColumnsReplaces | src/pages/Transform.tsx:113 | after a rename the old name is gone from `columns`, the new one present, the rest unchanged |
| Transform.DeleteColumn | src/pages/Transform.tsx:123-138 | the key is removed from every row and from `columns`, the row count kept, one history entry appended; by Rows.Remove the other columns and row keys keep their order and multiplicity |
| Rows.Remove | src/pages/Transform.tsx:131 | `filter(col => col !== name)`: exactly the other elements, each as often as before (multiset less the removed value) and in their order (a subsequence); nothing changes when the value is absent |
| Transform.DeleteColumnTwice | src/pages/Transform.tsx:123-131 | deleting a column twice leaves the rows and columns as deleting it once |
| Transform.ReorderRow | src/pages/Transform.tsx:141-149 | a rebuilt row holds exactly the listed columns whose value is not undefined, with their values |
| Transform.ReorderRowKeys | src/pages/Transform.tsx:142-147 | with no column listed twice, the rebuilt row's keys are those columns in `newOrder` order |
| Transform.ReorderBySelf | src/pages/Transform.tsx:141-149 | reordering a row by its own keys gives it back when none of its values is undefined |
| Transform.ReorderColumns | src/pages/Transform.tsx:140-159 | every row rebuilt, row count kept, `columns` becomes `newOrder`, one history entry appended |
| Transform.ParseOperator | src/pages/Transform.tsx:172-189 | an operator is unknown iff it is none of the seven the switch names |
| Transform.Keep | src/pages/Transform.tsx:168-189 | the filter test of one row: the lower-cased `String(cell)` against the lower-cased value under the chosen operator; an unknown operator keeps the row |
| Transform.FilterRows | src/pages/Transform.tsx:168-190 | a row is kept iff it is in the data and passes the operator's test |
| Transform.FilterIsSubsequence | src/pages/Transform.tsx:168-190 | the filtered rows keep the data's order |
| Transform.UnknownOperatorKeepsAll | src/pages/Transform.tsx:187-188 | an unknown operator keeps every row |
| Transform.EqualsNotEqualsComplement | src/pages/Transform.tsx:172-184 | `not_equals` keeps a row iff `equals` does not |
| Transform.EqualsNotEqualsSplit | src/pages/Transform.tsx:172-184 | `equals` and `not_equals` split the rows between them, duplicates included |
| Transform.ApplyFilter | src/pages/Transform.tsx:162-204 | nothing happens unless column, operator and value are all non-empty; otherwise the rows are filtered, one history entry is appended and the inputs are cleared |
| Transform.ApplySort | src/pages/Transform.tsx:207-235 | nothing happens without a sort column; otherwise the rows are a permutation sorted by the comparator, one history entry is appended and the inputs reset |
| Transform.StringColumnConsistent | src/pages/Transform.tsx:213-222 | on a column of strings the comparator is a total preorder, in both directions |
| Transform.SortStringColumn | src/pages/Transform.tsx:213-222 | sorting a string column orders the rows by it, and rows with equal values keep their order |
| Transform.ResetData | src/pages/Transform.tsx:260-268 | the loaded rows come back, the history is emptied, the filter and sort inputs are cleared |
| Transform.ClearFilters | src/pages/Transform.tsx:271-276 | the loaded rows come back, the filter inputs are cleared, the history is kept |
| Transform.ApplyStep | src/pages/Transform.tsx:102-235 | each operation appends at most one history entry, keeps the older entries and never touches the original data |
| Transform.ApplyAll | src/pages/Transform.tsx:102-276 | the state after a run of operations, applied one after another |
| Transform.HistoryGrows | src/pages/Transform.tsx:116-230 | after any run of operations the history extends the old one by at most one entry per operation |
| Transform.ResetAfterSteps | src/pages/Transform.tsx:260-268 | after any run of operations, reset restores exactly the loaded rows and empties the history |
| Database.ExactMatchContains | src/pages/Database.tsx:124-127 | an exact match is a special case of containment |
| Database.FilteredTables | src/pages/Database.tsx:117-141 | `filteredTables`: the tables passing the search, sorted exact matches first and then by name |
| Database.FilterTables | src/pages/Database.tsx:117-127 | a table is kept iff it is available and passes the search test, each kept table as often as it is available, in the order they are available |
| Database.KeepAll | src/pages/Database.tsx:121 | an empty search key keeps every table in order |
| Database.BlankSearchKeepsAll | src/pages/Database.tsx:119-121 | a search term blank after lower-casing and trimming lists every table, only reordered |
| Database.SearchKeepsContaining | src/pages/Database.tsx:122-127 | otherwise the tables listed are exactly those whose lower-cased name contains the key, each as often as it is available (multiset count equal to the available count, zero for the others) |
| Database.TableLeConsistent | src/pages/Database.tsx:128-141 | the comparator is a total preorder on any list of tables |
| Database.FilteredTablesOrder | src/pages/Database.tsx:128-141 | exact matches come before all other tables, and within each group names are in order |
| Database.TestConnectionPayload | src/pages/Database.tsx:150-157 | the body `testConnection` posts: trimmed server, trimmed database or `master`, `username` or else `user`, password, lower-cased auth type or `sql`, numeric port or 1433 |
| Database.PayloadDatabase | src/pages/Database.tsx:152 | the database is the trimmed form value, or `master` when missing or blank |
| Database.PayloadUsername | src/pages/Database.tsx:153 | the user name comes from `user` only when `username` is missing |
| Database.PayloadDefaults | src/pages/Database.tsx:150-157 | the payload always names a database and a non-zero port, and its auth type is lower-case |
| Database.PayloadPortText | src/pages/Database.tsx:156 | a port given as the text of a non-zero integer is sent as that integer |
| Database.QueryHead | src/pages/Database.tsx:196 | the text before the table name ends with `[` |
| Database.TableQuery | src/pages/Database.tsx:194-196 | `SELECT TOP 1000 * FROM [schema].[name]`, with `dbo` for a missing or empty schema |
| Database.TableLabel | src/pages/Database.tsx:217 | the result label `${schema}.${name}`, a missing schema printing as `undefined` |
| Database.PlanQuery | src/pages/Database.tsx:181-267 | nothing happens without a connection; a non-blank custom query wins under its label; otherwise a selected table gives its `SELECT TOP 1000` query under `${schema}.${name}`; it fails iff there is neither, with the generic message its catch shows in place of the thrown text; `executeQuery` and `executeQuery2` (label `Custom Query 2`) make the same choice |
| Database.TableQueryNamesTable | src/pages/Database.tsx:194-196 | the table name reads back from the generated query when it holds no `[` |
| Database.File2Upload | src/pages/Database.tsx:286-297 | the uploaded rows become dataset 2 under the file's name, with the first row's keys as columns (none when empty) and the row count |
| Analytics.ToggleVisibility | src/pages/Analytics.tsx:86-118 | the length is kept, ids and details are kept, and `hidden` flips exactly on the records with that id; the file history's and the transform history's toggles are the same function |
| Analytics.ToggleTwice | src/pages/Analytics.tsx:86-92 | toggling twice restores the history |
| Analytics.ToggleKeepsOthers | src/pages/Analytics.tsx:87-89 | records with another id are untouched |
| Analytics.DeleteRecord | src/pages/Analytics.tsx:95-125 | no record with that id remains, and the history does not grow; the file history's and the transform history's deletes are the same function |
| Analytics.DeleteCount | src/pages/Analytics.tsx:96 | exactly the records with that id are removed: the new length plus their number is the old length |
| Analytics.DeleteMembers | src/pages/Analytics.tsx:96 | a record remains iff it was present and has another id |
| Analytics.DeleteKeepsOrder | src/pages/Analytics.tsx:96 | the remaining records keep their order |
| Analytics.DeleteIdempotent | src/pages/Analytics.tsx:95-99 | deleting twice is deleting once |
| Analytics.DeleteAfterToggle | src/pages/Analytics.tsx:86-99 | deleting after toggling the same id is deleting alone |
| Analytics.Visible | src/pages/Analytics.tsx:102-109 | with `showHidden` the whole history, otherwise only records that are not hidden; for both histories |
| Analytics.VisibleMembers | src/pages/Analytics.tsx:103 | a record is visible iff it is in the history and shown |
| Analytics.VisibleAfterDelete | src/pages/Analytics.tsx:95-104 | deleting and filtering for visibility commute |
| Analytics.TotalRowsProcessed | src/pages/Analytics.tsx:140 | the total is the sum of `rows1 + rows2` over the history |
| Analytics.TotalRowsAppend | src/pages/Analytics.tsx:140 | the total of two histories put together is the sum of their totals |
| Analytics.TotalRowsAfterDelete | src/pages/Analytics.tsx:140 | the total before a delete is the total after plus that of the deleted records |
| Analytics.Bump | src/pages/Analytics.tsx:152-153 | `types[k] = (types[k] \|\| 0) + 1`: k's count goes up by one, other counts are kept, a new key is appended to the key order |
| Analytics.Tally | src/pages/Analytics.tsx:148-154 | the dictionary after bumping every item in turn |
| Analytics.TallyKeys | src/pages/Analytics.tsx:148-154 | after the counting loop a key has a count iff it occurs, and the key order lists each counted key once |
| Analytics.TallyOccurrences | src/pages/Analytics.tsx:148-154 | each key's count is its number of occurrences |
| Analytics.TallySum | src/pages/Analytics.tsx:148-154 | the counts add up to the number of items counted |
| Analytics.Entries | src/pages/Analytics.tsx:155 | `Object.entries`: one entry per key, in key order, with its count |
| Analytics.TallyEntries | src/pages/Analytics.tsx:148-155 | every entry is an item occurring `count` ≥ 1 times, every item has an entry, keys are distinct, and the counts sum to the number of items |
| Analytics.ByCountDesc | src/pages/Analytics.tsx:155 | the comparator lets a entry stay in front of b iff its count is not smaller |
| Analytics.ByCountDescConsistent | src/pages/Analytics.tsx:155 | that comparator is a total preorder |
| Analytics.TopEntries | src/pages/Analytics.tsx:155 | the result has min(limit, n) entries |
| Analytics.TopEntriesLargest | src/pages/Analytics.tsx:155 | the result is sorted by count descending, is drawn from the entries, and no left-out entry has a larger count than a kept one |
| Analytics.TopEntriesStable | src/pages/Analytics.tsx:155 | entries with equal counts keep their first-appearance order |
| Analytics.Extension | src/pages/Analytics.tsx:150-151 | an extension is never empty |
| Analytics.ExtensionAfterLastDot | src/pages/Analytics.tsx:150-151 | the extension is the lower-cased text after the last `.`, and `unknown` exactly when that text is empty |
| Analytics.Extensions | src/pages/Analytics.tsx:149-151 | each comparison contributes two extensions |
| Analytics.FileTypesCounted | src/pages/Analytics.tsx:147-156 | each file type's count is its number of occurrences among both file names of every comparison, keys are distinct, and the counts sum to twice the number of comparisons |
| Analytics.ColumnsCounted | src/pages/Analytics.tsx:159-167 | each column's count is its number of occurrences across all records' column lists, keys are distinct, and every compared column is counted |
| Analytics.GetFileTypes | src/pages/Analytics.tsx:147-156 | the loop and sort return the top 5 of the file-type table |
| Analytics.GetMostComparedColumns | src/pages/Analytics.tsx:159-167 | the nested loops and sort return the top 10 of the column table |
| Pagination.Slice | src/components/VirtualizedTable.tsx:37-39 | `slice` never returns more rows than there are |
| Pagination.Render | src/components/VirtualizedTable.tsx:28-42 | nothing is rendered iff there are no rows; the columns are the first row's keys |
| Pagination.PageCount | src/components/VirtualizedTable.tsx:33 | `totalPages` is the least number of pages holding every row: (t-1)·size < n ≤ t·size |
| Pagination.SmallDataShowsAll | src/components/VirtualizedTable.tsx:36-39 | up to one page of rows, nothing is paged and all rows are shown |
| Pagination.PageIsChunk | src/components/VirtualizedTable.tsx:37-39 | when paging, the page shown is the page-th chunk of the rows, there are `totalPages` chunks, and they put together give the rows |
| Pagination.PageCaption | src/components/VirtualizedTable.tsx:41-42 | for a page in range, 1 ≤ startRow ≤ endRow ≤ n, the rows shown are rows startRow..endRow, and there are endRow - startRow + 1 ≤ pageSize of them |
| Pagination.PagesTile | src/components/VirtualizedTable.tsx:41-42 | the first page starts at row 1, each page ends just before the next starts, and the last ends at row n |
| Pagination.StalePageEmpty | src/components/VirtualizedTable.tsx:37-42 | a page number past the end shows no rows |
| Pagination.Previous | src/components/VirtualizedTable.tsx:92 | the page goes down by one, stopping at 0 |
| Pagination.Next | src/components/VirtualizedTable.tsx:104 | the page goes up by one, stopping at the last page |
| Pagination.NavigationInRange | src/components/VirtualizedTable.tsx:92-104 | both buttons keep an in-range page in range and undo each other away from the ends |
| Visualize.GroupKey | src/pages/Visualize.tsx:53 | a falsy cell (including 0 and `''`) falls into `Unknown`; any other is grouped under its `String` |
| Visualize.KeyOf | src/pages/Visualize.tsx:53 | the key function is `GroupKey` for the chosen column |
| Visualize.AddRow | src/pages/Visualize.tsx:54-57 | the row is pushed onto its group, created empty if missing; other groups are kept |
| Visualize.Keys | src/pages/Visualize.tsx:52-60 | the key of every element, in data order, duplicates included; GroupKeys proves that the grouping lists each of them once |
| Visualize.WithKey | src/pages/Visualize.tsx:52-58 | the rows with a given key, in input order |
| Visualize.Group | src/pages/Visualize.tsx:50-58 | the grouping after adding every row in turn under its key, a group created the first time its key is seen |
| Visualize.GroupRows | src/pages/Visualize.tsx:50-58 | the `forEach` loop leaves the specified grouping |
| Visualize.GroupKeys | src/pages/Visualize.tsx:52-60 | there is a group iff some row has that key, and each key is listed once |
| Visualize.GroupContents | src/pages/Visualize.tsx:52-58 | each group holds exactly the rows with its key, in input order |
| Visualize.GroupSizesSum | src/pages/Visualize.tsx:52-58 | the group sizes add up to the row count: every row lands in exactly one group |
| Visualize.ParseAggregation | src/pages/Visualize.tsx:64-89 | `sum`, `avg`, `max` and `min` are the floating-point methods; `count` and any other name count rows |
| Visualize.ChartEntries | src/pages/Visualize.tsx:60-95 | one chart entry per group key, in key order |
| Visualize.GenerateChart | src/pages/Visualize.tsx:47-98 | nothing changes unless a group column, an aggregate column and a method are chosen; otherwise the chart is one entry per group and is shown |
| Visualize.ChartEntriesSpec | src/pages/Visualize.tsx:47-98 | without all three choices nothing changes; otherwise the chart is shown with one entry per distinct key, names listed once, and row counts as values for counting |
| Visualize.CountChartTotal | src/pages/Visualize.tsx:65-67 | the values of a count chart add up to the number of rows |
| Visualize.ChartTotalIsGroupSizes | src/pages/Visualize.tsx:87-88 | the count chart's values add up to the group sizes |
| Visualize.GroupAsWritten | src/pages/Visualize.tsx:50-58 | the grouping on a plain object as written: nothing (a thrown TypeError) when a key reads an inherited member, the groups otherwise |
| Visualize.GroupAsWrittenThrows | src/pages/Visualize.tsx:50-58 | on a plain object the grouping throws iff some key names an inherited `Object.prototype` member, and otherwise agrees with the grouping by own keys |
| Visualize.ConstructorCategoryThrows | src/pages/Visualize.tsx:54-57 | a row whose group column is `constructor` makes the grouping as written throw, while the intended grouping gives one group |
| Server.BuildConfig | server.js:46-76 | `buildConfig`: throws `server is required` for a falsy server; otherwise the server, the database or `master`, the port, and trusted connection or user and password by auth type |
| Server.PortOf | server.js:51 | the port is never 0 |
| Server.BuildConfigFields | server.js:46-76 | throws iff the server is falsy; otherwise the server is kept, a falsy database becomes `master` and a truthy one is kept, `authType === 'windows'` sets `trustedConnection` with no user or password, any other type copies them |
| Server.PortRoundTrip | server.js:51 | a non-zero integer port, as a number or as its decimal text, is used as is |
| Server.PortDefaults | server.js:46-51 | a missing, null or empty port, and the port 0, give 1433 |
| Server.TrimAll | server.js:25 | each entry trimmed, one per piece |
| Server.NonEmpty | server.js:26 | `filter(Boolean)` keeps exactly the non-empty entries |
| Server.AllowedOrigins | server.js:23-26 | the variable split on commas, each piece trimmed, empty pieces dropped; no variable gives no origins |
| Server.AllowedOriginsSpec | server.js:23-26 | every listed origin is a non-empty, trimmed, comma-free piece of the variable, and every non-blank piece is listed, trimmed |
| Server.AllowedOriginsRoundTrip | server.js:23-26 | a list of non-empty, trimmed, comma-free origins joined by commas reads back as the same list |
| Server.NoOrigins | server.js:23-28 | an unset or empty variable lists no origin, so no restriction is installed |
| Server.CheckOrigin | server.js:28-35 | the origin callback: no origin or a listed one is allowed, any other rejected with `Not allowed by CORS` |
| Server.OriginAdmittedIff | server.js:28-35 | a request without an origin is admitted; one with an origin is admitted iff no origins are configured or it is listed |
| Server.ExecuteQuery | server.js:192-221 | the route's checks: 400 without body, connection or query, 400 with BuildConfig's message when it throws, otherwise the query runs on the built configuration |
| Server.ExecuteQueryGuard | server.js:193-221 | 400 "connection and query are required" iff the body, the connection or the query is missing; otherwise 400 "server is required" iff the server is falsy; otherwise the given query runs with the built configuration |

## Left out

- Floating point is left out: Visualize `sum`/`avg`/`max`/`min`, the code-diff similarity percentage, Analytics averages and megabyte figures, the `greater_than`/`less_than` filters, and comparison progress percentages. Numbers are integers throughout. Visualize's floating-point methods produce entries without a value.
- `localeCompare` and `toLowerCase` are locale-dependent. They are modelled as code-point order and ASCII lower-casing.
- Strings are sequences of characters, not UTF-16 code units. Lengths, including the 31-character sheet-name limit, count characters.
- The object spread `{ ...row, _source, _differences, _match }` is modelled as a tagged record holding the original row. A row that already has a `_source`, `_differences` or `_match` key is not modelled.
- Object key order is modelled as insertion order. JavaScript lists integer-like keys first. This affects `Object.keys(grouped)` in Visualize, `Object.entries(types)` in Analytics, and the rows Transform.RenameRow and Transform.ReorderRow build: for a column such as `2023`, Transform.ReorderRowKeys's "keys in `newOrder` order" does not hold in JavaScript.
- Rows.Get: a column a row lacks reads as `undefined`. In JavaScript, a missing column named after an `Object.prototype` member (`constructor`, `toString`, `valueOf`, …) reads the inherited function, which is truthy and whose `String` is its source text. DataComparison.CreateKey, HashJoin.Differences, ExcelUtils.ProjectRow, Visualize.GroupKey and Transform.ReorderRow read cells through Get, so their contracts describe JavaScript only for column names that are not such members or that every row has.
- Analytics.Bump: the counts are a map. In the source, a key naming an `Object.prototype` member (`constructor`, `toString`, …) reads the inherited member, so its count is not a number.
- Transform.SortStringColumn: sortedness and stability are proved for columns holding strings only. On mixed or missing values the JavaScript comparator is not a consistent order. The model still sorts a permutation, but the order it picks is not what a JavaScript engine would pick.
- Database.PayloadDefaults: `Number(port)` is modelled on integer text only. The trimmed `server` field is carried through without further properties.
- Pagination.Render requires a positive page size. The source divides by it; every caller passes 1000 or more (src/components/DataPreview.tsx:22-30).
- ExcelUtils.ChunkArray requires a positive chunk size. With size 0 or less the source loop does not terminate.
- I/O is not modelled:
  - localStorage reads and writes, `Date.now()` ids and timestamps, processing times;
  - the download, clipboard, alerts and progress callbacks;
  - ExcelJS styling and column widths;
  - file parsing with Papa.parse and `readExcelFile`;
  - the worker's `postMessage` transport.

  Clocks and ids become parameters.
- The server's other routes, the SQL connection pool, the running of queries, the `connections` map, the SIGINT handler and static file serving are not modelled. Execute-query is modelled up to the configuration and query it would run.
- Server.BuildConfigFields: `trustedConnection` absent is modelled as false. A `connection` in the request body that is not an object is not modelled.
- The large-result export on the comparison page (progress, memory checks, the streaming `_part` sheets) is not modelled beyond its `makeUniqueName`.
- Analytics `totalFileSize` is not modelled; it is a megabyte figure.
- React rendering, hooks and state plumbing are not modelled. Each page's state is a value, and its handlers are functions from one state to the next.

## Findings

| source | as written | input that shows it | evidently intended | confidence | as-written member | corrected member |
|---|---|---|---|---|---|---|
| src/pages/Visualize.tsx:50-58 | groups rows in a plain object `{}` and tests `!grouped[groupValue]` before pushing | a row whose group column holds `constructor` (or `toString`, `__proto__`, …): the inherited member is truthy, no group is created, and `grouped[groupValue].push` throws a TypeError | every row lands in the group of its key, whatever the key's text | not executed | Visualize.GroupAsWrittenThrows | Visualize.GroupSizesSum |

