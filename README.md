# CMS student records: a Dafny model

This project models the core of CMS, a command-line student record manager
written in C. A user types commands such as `INSERT ID=2 Name="Alice Lee"
Programme=IT Mark=72.0`, `UPDATE ID=2 Mark=75.5`, `DELETE ID=2`,
`QUERY ID=2`, `FIND Mark >= 85`, `SHOW ALL SORT BY MARK DESC` and
`SHOW SUMMARY`. They act on an in-memory store of student records.

The model has seven modules:

- `Wrappers` (wrappers.dfy): the `Option` type. `None` also stands for a C `NULL`.
- `Util` (util.dfy), modelling src/util.c:
  - whitespace trimming and lower-casing, both as functions on strings and
    as in-place methods on NUL-terminated `array<char>` buffers;
  - case-insensitive equality and substring search;
  - `strtol` and `parse_int`;
  - the validators `valid_id`, `valid_mark` and `valid_text`.
- `Students` (students.dfy): the `Student` record and the store invariant.
  The invariant says every record passes the validators and no two records
  share an id.
- `RecordStore` (store.dfy), modelling src/store.c:
  - a class `Store` holding an `array<Student>`, a `size` and a `cap`;
  - capacity doubling, lookup by id, the validated insert, the
    sentinel-patch update and the swap-with-last delete;
  - the effect of update and delete, also stated on sequences of records.
- `Sorting` (sort.dfy), modelling src/sort.c: the two comparators, an
  in-place ascending sort, and the two-index reversal used for
  descending order.
- `Statistics` (stats.dfy), modelling src/stats.c: the one-pass loop of
  `compute_stats`, as written and corrected.
- `Commands` (cmd.dfy), modelling src/cmd.c:
  - the verb split and dispatch of `cmd_process_line`;
  - the `ID=<value>` parser;
  - the `key=value` scanner that fills a sentinel patch;
  - the INSERT, UPDATE, DELETE, QUERY, FIND and SHOW handlers, and OPEN.
  - Printed messages become result values: `Reply` and the handlers'
    `ok` flags.

Each method that loops or changes state is proved against a specification
function, for example `ensures r == Scanned(s, find, pf)` or
`ensures s.Records() == old(s.Records()) + [st]`. The properties of those
functions are proved as lemmas. The main results:

- The store invariant is preserved by:
  - insert, update (whether it succeeds or not) and delete;
  - sorting;
  - loading;
  - every command line.
- The update is not atomic. A failing field check can stop it after
  earlier fields were written; what was written had passed its checks.
- `str_trim` is idempotent, and the in-place version leaves exactly the
  trimmed text.
- `parse_int` and the `ID=` parser accept a padded decimal integer with its
  value and reject trailing junk.
- Sorting gives a permutation that is ordered by the key, ascending or
  descending as asked.
- The grade bands partition the records, and the average lies between the
  lowest and highest marks.
- A repeated key in INSERT/UPDATE arguments overwrites the earlier value.
- FIND's count equals the number of matching records and does not depend on
  their order.
- A line returns false exactly for `exit` and `quit`.

`ensure_cap` starts doubling from `cap ? cap : START_CAP`, as the code
says, and not from max(cap, 16). The two agree because the capacity is
always 0 or 16·2^k (`CapShape`, part of `Store.Valid`).

## Model

| member | source | states |
|---|---|---|
| Util.Prefix | src/cmd.c:310-311 | strncpy into an n+1 byte buffer keeps a prefix of at most n characters; text that fits is kept whole |
| Util.SkipSpaces | src/util.c:18-20 | the leading-whitespace scan stops at the first non-space offset at or after i; everything skipped is whitespace |
| Util.TrailingCut | src/util.c:22-25 | the trailing-whitespace scan stops after the last non-space at or after lo; only whitespace follows |
| Util.Trim | src/util.c:14-32 | the kept text is the slice between the leading and trailing whitespace runs, and begins and ends with a non-space |
| Util.TrimIdempotent | src/util.c:14-32 | trimming twice gives the same text as trimming once |
| Util.TrimEmptyIffAllSpace | src/util.c:14-32 | trimming yields nothing exactly when the text is all whitespace |
| Util.TrimOfTrimmed | src/util.c:14-32 | text with non-space ends is left as it is |
| Util.TrimPadded | src/util.c:14-32 | whitespace around a text with non-space ends is exactly what is removed |
| Util.StrLen | src/util.c:16 | the length of a buffer's string is the offset of its first NUL |
| Util.CStrLen | src/util.c:16 | the counting loop returns the offset of the first NUL |
| Util.MoveToFront | src/util.c:28 | the memmove copies [start, end) to the front and leaves the rest of the buffer |
| Util.TrimBounds | src/util.c:16-25 | the two scan loops find bounds whose slice is the trimmed text |
| Util.KeepRange | src/util.c:27-29 | after the conditional memmove the kept range sits at the front |
| Util.Terminate | src/util.c:31 | the NUL written after the text makes it the buffer's whole string |
| Util.StrTrim | src/util.c:14-32 | in place: the buffer's string becomes the trimmed old string, NUL-terminated at its length |
| Util.Lower | src/util.c:10-12 | lowering keeps the length and lowers each character |
| Util.StrToLower | src/util.c:34-39 | in place: the string keeps its length and becomes its lowered old content; bytes after the NUL are unchanged |
| Util.IEqIffLowerEqual | src/util.c:41-54 | case-insensitive equality is equality of the lowered strings, so unequal lengths are unequal |
| Util.ToLowerCharIdempotent | src/util.c:10-12 | lowering a character twice is lowering it once |
| Util.IEqLower | src/util.c:41-54 | lowering one side first does not change case-insensitive equality |
| Util.StrIeq | src/util.c:41-54 | false when either argument is NULL, otherwise case-insensitive equality |
| Util.StrIcaseFind | src/util.c:58-72 | NULL for a NULL argument; 0 for an empty needle, even in an empty haystack; otherwise the smallest matching offset, or NULL exactly when there is no match |
| Util.StrIcontains | src/util.c:74-76 | true exactly when both are non-NULL and the needle occurs ignoring case |
| Util.IContainsLower | src/util.c:58-72 | lowering the haystack first does not change containment |
| Util.DecimalTextValue | src/util.c:83 | reading the digits of a number's decimal spelling gives the number back |
| Util.StrToL | src/util.c:83 | the conversion stops inside the text with a value in the range of long, and is 0 with end 0 when no digits were read |
| Util.StrToLOfDecimal | src/util.c:83 | strtol over whitespace, an optional minus and a decimal spelling returns the (saturated) value and stops after the digits |
| Util.ParsedInt | src/util.c:78-94 | as written: empty text is rejected and every accepted value is in the range of int |
| Util.ParsedIntStrict | src/util.c:78-94 | corrected: also, an accepted text contains a digit |
| Util.ParseInt | src/util.c:78-94 | the method with the trailing-whitespace loop computes ParsedInt |
| Util.ParseIntStrict | src/util.c:78-94 | the method with the no-digits test before the whitespace loop computes ParsedIntStrict |
| Util.ParseIntAcceptsDecimal | src/util.c:78-94 | a whitespace-padded decimal int is accepted with its value by both readings |
| Util.ParseIntRejectsOverflow | src/util.c:89-90 | a decimal number above INT_MAX is rejected |
| Util.ParseIntRejectsUnderflow | src/util.c:89-90 | a negative decimal number below INT_MIN is rejected |
| Util.ParseIntRejectsNoNumber | src/util.c:83-86 | text starting with neither whitespace, a sign nor a digit is rejected |
| Util.ParseIntRejectsJunk | src/util.c:86 | a character other than whitespace after the digits is rejected |
| Util.ParseIntWhitespaceOnly | src/util.c:84-86 | as written, non-empty all-whitespace text is accepted as 0; the corrected reading rejects it |
| Util.ParseIntReadingsAgree | src/util.c:84-86 | apart from all-whitespace text, the two readings agree |
| Util.ValidIdIsSixToEightDigits | src/util.c:112-114 | an id is valid exactly when it is a non-negative number of 6 to 8 decimal digits |
| Util.PrefixValidText | src/util.c:120-124 | a text cut to 63 characters passes valid_text exactly when it is non-empty |
| Util.ToInt32 | src/cmd.c:58 | the narrowing `(int)value` lands in the range of int, is the identity inside it, and is congruent modulo 2^32 |
| Students.IndexOf | src/store.c:39-46 | the first index holding the id, or -1 when none does |
| Students.IndexOfAbsent | src/store.c:39-46 | -1 is returned exactly when no record has the id |
| Students.IndexOfDistinct | src/store.c:39-46 | with distinct ids, the id of the record at k is found at k |
| Students.PermutationKeepsIds | src/sort.c:19-31 | two arrangements of the same records hold the same ids |
| Students.CountWhereMultiset | src/sort.c:19-31 | a count of records depends only on the multiset of records |
| Students.DistinctIdsCount | src/store.c:53-55 | ids are distinct exactly when every id is held at most once |
| Students.PermutationPreservesWellFormed | src/sort.c:19-31 | rearranging a well-formed store keeps it well formed |
| RecordStore.DoubleUntil | src/store.c:13-15 | doubling stops at a value no smaller than the need or the start |
| RecordStore.DoubleUntilShape | src/store.c:13-15 | doubling a capacity of the form 16·2^k keeps that form |
| RecordStore.GrownCapShape | src/store.c:8-24 | growing keeps the capacity of the form 0 or 16·2^k |
| RecordStore.DoubleUntilTight | src/store.c:13-15 | doubling stops before twice the need unless no doubling happened |
| RecordStore.GrownCapProperties | src/store.c:8-24 | cap >= need afterwards; unchanged when already enough; otherwise max(cap, 16) doubled until enough, and below twice the need unless 16 alone suffices |
| RecordStore.ApplyPatch | src/store.c:65-93 | on success every non-sentinel field holds the patch's value, and a re-key writes the patch id |
| RecordStore.ApplyPatchOk | src/store.c:69-90 | the update succeeds exactly when a re-key id is valid and free and every non-sentinel field passes its validator |
| RecordStore.ApplyPatchSentinels | src/store.c:69-90 | sentinel fields (id not positive or equal to the target, empty text, negative mark) leave the record's field unchanged, on success or failure |
| RecordStore.ApplyPatchWritesChecked | src/store.c:69-90 | every changed field holds the patch's value and that value passed its check; a new id was not held by any record |
| RecordStore.UpdateNotAtomic | src/store.c:75-88 | a mark of 150 fails after the new name was already written |
| RecordStore.ApplyPatchPreservesWellFormed | src/store.c:69-90 | writing the patched record back keeps the store well formed, whether the update succeeded or failed |
| RecordStore.SwapRemove | src/store.c:98-99 | one record fewer; the old last record is at k; every other index is unchanged |
| RecordStore.SwapRemoveMultiset | src/store.c:95-101 | the remaining records are the old ones less one copy of the removed record |
| RecordStore.SwapRemovePreservesWellFormed | src/store.c:95-101 | deleting keeps the store well formed and the id is no longer found |
| RecordStore.AppendPreservesWellFormed | src/store.c:48-63 | appending a valid record with a fresh id keeps the store well formed and the record is found at the old size |
| RecordStore.Store.constructor | src/store.c:26-30 | a new store is empty with no allocation |
| RecordStore.Store.Reset | src/store.c:32-37 | the store is empty again with capacity 0 |
| RecordStore.Store.EnsureCap | src/store.c:8-24 | the capacity becomes the grown capacity, at least the need; size and records unchanged; the array is kept when there was room |
| RecordStore.Store.FindIndexById | src/store.c:39-46 | the linear scan returns the first index holding the id, or -1 |
| RecordStore.Store.Insert | src/store.c:48-63 | succeeds exactly when the record is valid and its id is new; then it is appended at the old size and earlier records are unchanged; otherwise nothing changes |
| RecordStore.Store.Update | src/store.c:65-93 | an absent id fails with no change; otherwise the result and the new record are those of ApplyPatch, at the found index only |
| RecordStore.Store.PatchIdStep | src/store.c:69-73 | the id step: a re-key is refused when the new id is invalid or taken, and written otherwise |
| RecordStore.Store.PatchFields | src/store.c:75-92 | the name, programme and mark steps in order, each stopping the update on a failed check |
| RecordStore.Store.SetRecord | src/store.c:72 | a write through `cur` replaces only the record at the index |
| RecordStore.Store.Delete | src/store.c:95-101 | an absent id fails with no change; otherwise the records become SwapRemove at the found index and size drops by one |
| Sorting.CmpIdAsc | src/sort.c:4-8 | the comparator's sign is the order of the ids, in -1..1 |
| Sorting.CmpMarkAsc | src/sort.c:10-14 | the comparator's sign is the order of the marks, in -1..1 |
| Sorting.CmpAntisymmetric | src/sort.c:4-14 | swapping the arguments negates either comparator |
| Sorting.ReversedAscending | src/sort.c:25-31 | an ascending sequence read backwards is descending |
| Sorting.ReversedMultiset | src/sort.c:25-31 | reversal is a permutation |
| Sorting.AscendingByIdStrict | src/sort.c:4-8 | sorted by id with distinct ids means strictly increasing ids |
| Sorting.DescendingByIdStrict | src/sort.c:25-31 | reverse-sorted by id with distinct ids means strictly decreasing ids |
| Sorting.Swap | src/sort.c:27-29 | the exchange swaps two entries and keeps the prefix's multiset |
| Sorting.SortPrefix | src/sort.c:19-23 | the sorted prefix is ascending by the key's comparator and a permutation; the rest of the array is untouched |
| Sorting.ReversePrefix | src/sort.c:26-30 | after the two-index loop, after[k] == before[n-1-k] on the prefix and the rest is untouched |
| Sorting.StoreSort | src/sort.c:16-32 | a permutation that is ascending when asc and descending otherwise; with at most one record nothing changes |
| Statistics.Band | src/stats.c:27-32 | A from 85, B in [75,85), C in [65,75), D in [50,65), F below 50 |
| Statistics.BandsPartition | src/stats.c:28-32 | the five band counts add up to the number of records |
| Statistics.MinMark | src/stats.c:18-21 | the lowest mark is at most every mark and is held by some record |
| Statistics.MaxMark | src/stats.c:22-25 | the highest mark is at least every mark and is held by some record |
| Statistics.FirstAt | src/stats.c:22-25 | the first index holding the mark, or -1 |
| Statistics.AverageBetweenMinAndMax | src/stats.c:36-37 | the average lies between the lowest and the highest mark |
| Statistics.MinIdxAsWrittenMisses | src/stats.c:12 | as written, min_idx is -1 whenever the first record holds the lowest mark |
| Statistics.Tally | src/stats.c:28-32 | the grade-band chain bumps exactly the counter of the mark's band |
| Statistics.Round | src/stats.c:15-32 | one round moves min/max and their index only on a strictly lower/higher mark, then bumps one band |
| Statistics.Rounds | src/stats.c:14-34 | the loop leaves extremes, indices and band counts over all records, and the sum of the marks |
| Statistics.ComputeStats | src/stats.c:4-40 | as written (DescribesAsWritten): empty input gives count 0, both indices -1 and zero counters; otherwise count, average, min/max, max_idx the first index of the maximum, min_idx as the comma expression leaves it, and the band counts |
| Statistics.AsWrittenLowestIndex | src/stats.c:12-21 | as written, a lowest-mark index is reported, and then holds the lowest mark, exactly when the first record does not hold it; SHOW SUMMARY names the lowest student only then (src/cmd.c:555) |
| Statistics.ComputeStatsFixed | src/stats.c:4-40 | corrected: the statistics describe the records, with min_idx the first index of the lowest mark |
| Statistics.MinIdxTypoExample | src/stats.c:12 | for marks 40 then 50 min_idx is -1 though the lowest mark is at index 0 |
| Commands.InitPatchChangesNothing | src/cmd.c:12-16 | the sentinel patch leaves any record unchanged and the update succeeds |
| Commands.HasNoArgs | src/cmd.c:18-27 | no arguments exactly when args is NULL or only whitespace |
| Commands.SingleId | src/cmd.c:29-65 | as written: an accepted id follows a case-insensitive `ID=` and passes valid_id after narrowing |
| Commands.SingleIdStrict | src/cmd.c:29-65 | corrected: the accepted id is strtol's value of the trimmed text itself and passes valid_id |
| Commands.ParseSingleId | src/cmd.c:29-65 | the checks in source order compute SingleId |
| Commands.ParseSingleIdStrict | src/cmd.c:29-65 | the checks with valid_id before narrowing compute SingleIdStrict |
| Commands.IdCheck | src/cmd.c:35 | true exactly when the text starts with `ID=` in any case |
| Commands.SkipTrailing | src/cmd.c:51 | the loop stops at the first non-space offset |
| Commands.SingleIdAcceptsDecimal | src/cmd.c:29-65 | any spelling of `ID=`, whitespace, a valid id in decimal and whitespace are accepted with the id's value |
| Commands.SingleIdRejectsJunk | src/cmd.c:51-56 | a non-space, non-digit character after the digits is rejected |
| Commands.SingleIdReadingsAgree | src/cmd.c:58-63 | when strtol's value is in the range of int the two readings agree |
| Commands.SingleIdWraps | src/cmd.c:58-63 | as written, a valid id plus 2^32 is accepted as the valid id; the corrected reading rejects it |
| Commands.CleanValue | src/cmd.c:292-302 | a scanned value is cut to the 256-byte buffer, trimmed and unquoted, and fits the buffer |
| Commands.CleanValueQuoted | src/cmd.c:295-302 | a quoted non-empty value with surrounding whitespace becomes the text between the quotes |
| Commands.CleanValuePlain | src/cmd.c:295-302 | an unquoted value without surrounding whitespace is kept as it is |
| Commands.CleanValueKeepsEmptyQuotes | src/cmd.c:298 | a value of two quote characters keeps its quotes |
| Commands.NextPair | src/cmd.c:259-290 | one round: the value bounds lie inside the text and the scan resumes strictly further on |
| Commands.ValueFrom | src/cmd.c:276-290 | the value runs from the first non-space after `=` to the next key or the end |
| Commands.Tokens | src/cmd.c:257-321 | every token read by the scan fits the value buffer |
| Commands.MissingEqualsAborts | src/cmd.c:264-274 | a key with no `=` after it, or with another character first, aborts the scan |
| Commands.TokensAbortAt | src/cmd.c:264-274 | the scan fails at a key whose next non-space character is not `=` |
| Commands.ApplyTokensFails | src/cmd.c:304-320 | the command fails exactly when some ID value is refused by parse_int as written (ParsedInt, which accepts all-whitespace text as 0) or some Mark value does not parse |
| Commands.LastIdWins | src/cmd.c:304-308 | the patch id is parse_int's value, as written, of the last ID token, or the sentinel when there is none |
| Commands.LastNameWins | src/cmd.c:309-311 | the patch name is the last Name value cut to 63 characters, or the sentinel |
| Commands.LastProgrammeWins | src/cmd.c:312-314 | the patch programme is the last Programme value cut to 63 characters, or the sentinel |
| Commands.LastMarkWins | src/cmd.c:315-319 | the patch mark is the value of the last Mark token, or the sentinel |
| Commands.ScannedTextFits | src/cmd.c:310-314 | a scanned name and programme fit their 64-byte fields |
| Commands.FindChar | src/cmd.c:264 | strchr: the first offset at or after from holding the character, or none |
| Commands.EqualsAfter | src/cmd.c:264-274 | the `=` test succeeds exactly when the first non-space after the key is `=`, and returns its offset |
| Commands.ReadPair | src/cmd.c:259-290 | one round of the scan loop computes NextPair |
| Commands.ReadAfterKey | src/cmd.c:264-290 | the `=` test and the value bounds after a found key compute NextPair |
| Commands.ReadValue | src/cmd.c:276-290 | the value bounds computed by the loop are those of ValueFrom |
| Commands.SetField | src/cmd.c:304-320 | the field update on the key, with parse_int as written for ID, computes ApplyToken |
| Commands.ScanPatch | src/cmd.c:256-321 | the scan loop returns the patch Scanned describes, or failure; ID values are read by parse_int as written |
| Commands.HandleInsert | src/cmd.c:251-339 | Inserted: succeeds exactly when the scanned patch (ID read as written) exists, is valid and has a new id; then it is appended; otherwise nothing changes; the invariant is kept |
| Commands.HandleUpdate | src/cmd.c:341-432 | Updated: no scanned id (ID read as written) or an absent id fails with no change; otherwise ApplyPatch at that record; ids never change; the invariant is kept |
| Commands.UpdateNeverRekeys | src/cmd.c:425 | with the patch's own id as target, the record keeps its id |
| Commands.HandleDelete | src/cmd.c:434-465 | Deleted: removes the record (swap with the last) exactly when the id read as written by SingleId, narrowing included, is stored and the reply starts with Y or y; otherwise nothing changes; the invariant is kept |
| Commands.DeleteWrapsOntoStoredId | src/cmd.c:58-63 | as written, a confirmed `DELETE ID=` of a stored id plus 2^32 removes the record with that id |
| Commands.QueryResult | src/cmd.c:467-487 | a reported record is stored and has the id SingleId reads as written; nothing is reported exactly when that id does not parse or is not stored |
| Commands.HandleQuery | src/cmd.c:467-487 | the lookup, with the as-written id reading, reports QueryResult and changes nothing |
| Commands.StrTok | src/cmd.c:115-117 | strtok cuts a non-empty blank-free token and resumes after it; None exactly when only blanks remain |
| Commands.Match | src/cmd.c:147-187 | corrected: fails exactly for an unsupported operator; an unknown column matches nothing |
| Commands.MatchAsWritten | src/cmd.c:161-169 | as written: Programme `=` compares the record's name; everything else as Match |
| Commands.ProgrammeEqualsComparesName | src/cmd.c:163 | `FIND Programme = cs` misses a CS student named Ann as written, and matches under Match |
| Commands.FindProgrammeEqualsCountsNone | src/cmd.c:161-163 | FIND's count for Programme `=` cs over a CS student named Ann is 0 |
| Commands.MarkEqualsTolerance | src/cmd.c:172 | Mark `=` accepts exactly the marks within 0.01 of the value |
| Commands.CountMatches | src/cmd.c:189-196 | the count, by MatchAsWritten, is at most the number of records and is 0 exactly when none matches |
| Commands.CountMatchesIsCard | src/cmd.c:189-196 | the count is the number of matching indices |
| Commands.CountMatchesPermutation | src/cmd.c:147-197 | the count does not depend on the order of the records |
| Commands.FindOutcome | src/cmd.c:114-206 | a reported count, with the as-written match, is at most the number of records; missing arguments fail |
| Commands.FindPlan | src/cmd.c:115-145 | the argument checks pass exactly when three tokens are present and, for the mark column, the value parses |
| Commands.HandleFind | src/cmd.c:114-206 | succeeds exactly when FindOutcome is defined, reports its as-written count, and changes nothing |
| Commands.CountLoop | src/cmd.c:147-197 | the loop fails exactly when there is a record and the operator is unsupported, and otherwise counts the records MatchAsWritten accepts |
| Commands.PlanShow | src/cmd.c:539-546 | summary exactly for a case-insensitive `summary` prefix; otherwise sorting exactly when `sort by` occurs, by mark exactly when sorting and `mark` occurs, descending exactly when sorting and `desc` occurs |
| Commands.PlanShowIgnoresCase | src/cmd.c:539-546 | the clause is read the same whatever the case of its letters |
| Commands.ShowClause | src/cmd.c:539-547 | the str_icontains calls compute PlanShow |
| Commands.Admit | src/io.c:61 | store_insert on values either appends the record or leaves the records |
| Commands.InsertAllWellFormed | src/io.c:61 | loading keeps the invariant and keeps the records loaded earlier |
| Commands.InsertAllFromCandidates | src/io.c:61 | every loaded record comes from the database file |
| Commands.Load | src/cmd.c:511-514 | OPEN empties the store and inserts every candidate in file order |
| Commands.VerbEnd | src/cmd.c:497 | the first whitespace offset of the line, or its end |
| Commands.Verb | src/cmd.c:491-504 | the verb is the lowered text before the first whitespace of the 511-character copy, with no whitespace in it |
| Commands.Args | src/cmd.c:499-503 | the arguments follow the first whitespace of the copy, or are NULL |
| Commands.VerbIgnoresCase | src/cmd.c:504 | the verb does not depend on the case of the line |
| Commands.ProcessLine | src/cmd.c:489-650 | false exactly for exit/quit; the invariant is kept; read-only verbs leave the records; OPEN loads; INSERT, UPDATE and DELETE change the records as Inserted, Updated and Deleted say and report their success; FIND and QUERY report their handlers' results; SHOW SUMMARY leaves the records and reports the as-written statistics; SHOW sorts as asked, and without `sort by` leaves the records in place |
| Commands.Dispatch | src/cmd.c:506-649 | the verb branches: INSERT, UPDATE, DELETE as Inserted, Updated, Deleted with their status; OPEN, FIND, QUERY, SHOW as their handlers, SHOW leaving the records in place unless it sorts; other verbs leave the records |
| Commands.HandleShow | src/cmd.c:537-560 | a permutation of the records; for summary the records are unchanged and the stats are compute_stats as written (DescribesAsWritten); otherwise sorted as the clause asks, or unchanged |

## Left out

- src/io.c is not part of this model. OPEN takes the records `cms_load` would
  parse from the database file as a parameter and inserts them as src/io.c:61
  does. `cms_save` and SAVE only write a file, so they change nothing here.
- src/main.c, the read-eval loop over standard input, is not modelled.
- `print_declaration`, `show_all`, the HELP text and all printed messages
  are left out. Each handler returns what it would report instead.
- `find_next_key` is not defined in any of the source files. It is a
  parameter of type `KeyFinder`. The only assumption about it
  (`FinderSound`) is that a reported key lies within the searched text.
- `parse_float` and `strtof` are a parameter of type `FloatParser`.
- Marks are real numbers. Float rounding, including in the average and in
  the 0.01 tolerance of FIND, is not modelled.
- `realloc` is taken to succeed in `ensure_cap`. Its failure path,
  src/store.c:18-20, is not modelled.
- Sorting.SortPrefix: `qsort` is a library call. A selection sort stands in
  for it, and only sortedness and permutation are promised, as the library
  promises. Stability and the exact order of equal keys are not modelled.
- Commands.ScanPatch, Commands.HandleFind and Commands.Dispatch work on
  string values. The in-place edits of the line buffer (`str_trim`,
  `str_tolower`, `memmove`, `strtok` writing NULs) are modelled by their
  value effects. The in-place `str_trim` and `str_tolower` themselves are
  modelled on arrays in `Util`.
- `store_free` is modelled as `Store.Reset`, which replaces the allocation
  with an empty one.
- `tolower` in `str_tolower` and `str_ieq` follows the C locale: ASCII
  letters only.
- Commands.Verb: the line is copied into a 512-byte buffer. The model keeps
  its first 511 characters, as `strncpy` does.

## Findings

| source | as written | input that shows it | evidently intended | confidence | as-written member | corrected member |
|---|---|---|---|---|---|---|
| src/stats.c:12 | `stats.min_idx, stats.max_idx = 0;` is a comma expression that sets only `max_idx`, so `min_idx` stays -1 when the first record holds the lowest mark | marks 40.0 then 50.0: `min_idx` is -1 though the lowest mark is at index 0 | both indices start at 0, so `min_idx` is the first index of the lowest mark | not executed | Statistics.ComputeStats, Statistics.MinIdxTypoExample | Statistics.ComputeStatsFixed |
| src/cmd.c:163 | FIND Programme `=` compares the record's name with the value | `FIND Programme = CS` on the record (100001, "Ann", "CS", 70) does not match it | compare the programme, as CONTAINS at src/cmd.c:165 does | not executed | Commands.MatchAsWritten, Commands.ProgrammeEqualsComparesName | Commands.Match |
| src/cmd.c:58-63 | the 64-bit `long` from strtol is narrowed to `int` before `valid_id` checks it | `DELETE ID=4295067296` deletes the record with id 100000 (4295067296 = 100000 + 2^32) | check the value itself, before narrowing | not executed | Commands.ParseSingleId, Commands.SingleIdWraps | Commands.ParseSingleIdStrict |
| src/util.c:84-86 | the trailing whitespace is skipped before the `end == s` test for "no digits" | `parse_int(" ", &v)` returns true with v = 0; the scanner reaches it from `ID=" "`, whose quotes are stripped | test for no digits before skipping whitespace | not executed | Util.ParseInt, Util.ParseIntWhitespaceOnly | Util.ParseIntStrict |

The command handlers model the program as written, so each finding shows up
at the handler too:

- SHOW SUMMARY uses `ComputeStats`; `AsWrittenLowestIndex` says when the
  lowest student is named.
- FIND counts with `MatchAsWritten`; `FindProgrammeEqualsCountsNone` shows the
  miss in a count.
- DELETE and QUERY use `SingleId`; `DeleteWrapsOntoStoredId` shows the delete
  of a wrapped id.
- The key=value scanner parses ID values with `ParsedInt`, so `ID=" "` sets
  the patch id to 0 (`ParseIntWhitespaceOnly`).

The corrected members stand beside them with their intended properties
proved; no handler uses them.
