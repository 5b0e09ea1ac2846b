# Readmission dataset preparation, modelled in Dafny

This project models the data-preparation core of `odsc_2018_utils.py`, which
builds a hospital-readmission dataset from the MIMIC admissions and notes
tables.

- **Admissions** (`add_next_adm`, and `load_clean_adm` after parsing):
  - The admissions are sorted by subject and admit time.
  - Each admission is linked to the next admission of the same subject.
  - A link to an ELECTIVE admission is blanked.
  - The table is sorted again.
  - The blanks are back-filled within each subject.
  - As a result, every admission carries the admit time and type of the next
    *unplanned* admission of its subject, or nothing.
  - DAYS_NEXT_ADMIT is the time from discharge to that admission, in days.
- **Notes** (`load_clean_notes`):
  - Only discharge summaries are kept.
  - Of those, only the last one per (subject, admission) is kept.
  - The table is rejected when an admission id still occurs twice.
- **Merge** (`load_clean_merge_dataset`):
  - The two tables are left-joined on (subject, admission).
  - The result is rejected if the join added rows.
  - Newborn admissions are dropped.

Tables are sequences of immutable rows. A missing cell (NaT/NaN) is `None`.
Within a subject, a missing admit time sorts after every known one, as with
pandas' default `na_position='last'`.
Times are integer seconds. The two fatal `assert`s become `Failure` values of
`Integrity.IntegrityError`.

The modules follow the pipeline:

- `Wrappers`: the `Option` and `Result` types.
- `Integrity`: the two integrity errors.
- `StableSort`: the sort key (subject, admit time), with a missing admit time
  last within its subject, and a stable sort by that key.
- `GroupScan`: the grouped `shift(-1)` and the grouped backward fill. Each is
  written two ways:
  - as a search, which is the reference;
  - as a single right-to-left scan (`ShiftScan`, `BackfillScan`), proved equal
    to the search.
- `AdmissionsCleaner`: `add_next_adm` and the day gap.
- `NotesSelector`: `load_clean_notes`.
- `DatasetMerger`: the join, the row-count check, the newborn filter and the
  whole pipeline.
- `Examples`: worked cases:
  - an elective admission between two unplanned ones is skipped;
  - a next admission 15 days after discharge gives 15.0 days, the last
    discharge summary is kept, and no row is dropped;
  - two subjects sharing an admission id stop the pipeline.

The central results are `AdmissionsCleaner.AddNextAdmNextType` and
`AdmissionsCleaner.AddNextAdmNextTime`. They state what the chain of sort,
shift, blanking, re-sort and back-fill computes, in terms of the sorted table
alone.

Those lemmas also settle what happens when an unplanned admission has no
admit time. Such an admission sorts after every admission of its subject with
a known time, so no unplanned admission with a known time follows it. An
earlier admission whose first later unplanned admission it is then gets:

- NEXT_ADMISSION_TYPE naming that admission;
- NEXT_ADMITTIME missing.

`AdmissionsCleaner.NullNextTimeMeansNoTime` states this.
`AdmissionsCleaner.AddNextAdmNextUnplanned` states that, when every admit time
is known, both columns come from the same admission.

## Model

| member | source | states |
|---|---|---|
| StableSort.KeyLeTotalOrder | odsc_2018_utils.py:24 | the (subject, admit time) order with missing times last is reflexive, total, antisymmetric and transitive |
| StableSort.Insert | odsc_2018_utils.py:24 | inserting a row into a sorted table keeps it sorted, adds exactly that row and grows it by one |
| StableSort.SortBy | odsc_2018_utils.py:24 | the sort returns a permutation of its input, of the same length, ordered by subject then admit time |
| StableSort.InsertWithKey | odsc_2018_utils.py:24 | an inserted row goes before the rows with an equal key and keeps their order |
| StableSort.SortByStable | odsc_2018_utils.py:24 | for every key, the rows with that key leave the sort in their input order |
| StableSort.SortBySortedIsIdentity | odsc_2018_utils.py:40 | sorting an already sorted table returns it unchanged |
| StableSort.SortByIdempotent | odsc_2018_utils.py:24-40 | sorting twice gives the same table as sorting once |
| GroupScan.FindNext | odsc_2018_utils.py:29 | the result is the first row at or after the start that belongs to the group, and nothing means there is no such row |
| GroupScan.FindFilled | odsc_2018_utils.py:43-44 | the result is the first row at or after the start in the group with a present cell, and nothing means there is none |
| GroupScan.FindNextOfNext | odsc_2018_utils.py:29 | searching from the row after `i` finds `i`'s next row of the same group |
| GroupScan.FindNextOfLast | odsc_2018_utils.py:29 | searching after the last row of a group finds nothing |
| GroupScan.Shift | odsc_2018_utils.py:29-31 | the grouped shift keeps the number of rows |
| GroupScan.Backfill | odsc_2018_utils.py:43-44 | the grouped back-fill keeps the number of rows; where each filled value comes from is stated by GroupScan.BackfillSpec, GroupScan.FindFilled and GroupScan.BackfillScan |
| GroupScan.ShiftSpec | odsc_2018_utils.py:29-31 | a shifted cell is the cell of the next row of the same group; the last row of each group gets a missing cell |
| GroupScan.BackfillSpec | odsc_2018_utils.py:43-44 | the grouped back-fill keeps present cells; every filled value comes from a row at or after it in the same group; the last row of each group is unchanged |
| GroupScan.FindFilledSkip | odsc_2018_utils.py:43-44 | skipping rows of the group that hold no value does not change where the fill finds its value |
| GroupScan.BackfillOfShift | odsc_2018_utils.py:29-44 | shifting a column and then back-filling it gives each row the first present cell strictly after it in its group |
| GroupScan.FilledAfterShift | odsc_2018_utils.py:29-44 | the back-fill search over the shifted column from a row lands on the same value as the search over the original column from the row after |
| GroupScan.ShiftScan | odsc_2018_utils.py:29-31 | a single right-to-left pass, remembering the last cell seen per group, computes exactly the grouped shift |
| GroupScan.BackfillScan | odsc_2018_utils.py:43-44 | a single right-to-left pass, remembering the last present cell per group, computes exactly the grouped back-fill |
| AdmissionsCleaner.SortAdmissions | odsc_2018_utils.py:24 | the first sort returns a permutation of the admissions, of the same length, in (subject, admit time) order |
| AdmissionsCleaner.LinkNext | odsc_2018_utils.py:29-31 | the two grouped shifts keep every admission in place; the cell each row gets is stated by GroupScan.ShiftSpec |
| AdmissionsCleaner.ClearElective | odsc_2018_utils.py:34-36 | the admissions stay in place; a row whose next type is ELECTIVE ends with both NEXT_ADMITTIME and NEXT_ADMISSION_TYPE missing; any other row is left unchanged |
| AdmissionsCleaner.SortLinked | odsc_2018_utils.py:40 | the second sort returns a permutation of the linked rows in (subject, admit time) order; AdmissionsCleaner.ResortIsNoOp shows it changes nothing |
| AdmissionsCleaner.FillBack | odsc_2018_utils.py:43-44 | the back-fill of both next columns keeps the number of rows and every admission in place; the filled values are stated by AdmissionsCleaner.FilledColumns |
| AdmissionsCleaner.AddNextAdm | odsc_2018_utils.py:20-46 | `add_next_adm` keeps the number of rows; its meaning is stated by AdmissionsCleaner.AddNextAdmRows, AdmissionsCleaner.AddNextAdmNextType and AdmissionsCleaner.AddNextAdmNextTime |
| AdmissionsCleaner.DaysBetween | odsc_2018_utils.py:17 | DAYS_NEXT_ADMIT is present exactly when both times are, and discharge time plus that many days of 86400 seconds equals the next admit time |
| AdmissionsCleaner.LoadCleanAdm | odsc_2018_utils.py:4-18 | `load_clean_adm` keeps one row per admission; each row is stated by AdmissionsCleaner.LoadCleanAdmGap |
| AdmissionsCleaner.ClearedLinksAreShiftedUnplanned | odsc_2018_utils.py:29-36 | blanking the links that point to ELECTIVE admissions equals shifting columns in which elective admissions were blanked first; the admissions themselves are unchanged |
| AdmissionsCleaner.ResortIsNoOp | odsc_2018_utils.py:38-40 | the second sort, just before the fill, leaves the table unchanged |
| AdmissionsCleaner.AddNextAdmOrder | odsc_2018_utils.py:20-46 | the result's admissions are the input sorted by subject and admit time, row for row |
| AdmissionsCleaner.AddNextAdmRows | odsc_2018_utils.py:20-46 | no admission is lost, added or altered, electives included; the result is sorted, and rows with equal keys keep their input order |
| AdmissionsCleaner.FilledColumns | odsc_2018_utils.py:29-44 | each next column of row `i` is the first present cell after `i` in the subject, in the column with elective admissions blanked |
| AdmissionsCleaner.AddNextAdmNextType | odsc_2018_utils.py:20-46 | NEXT_ADMISSION_TYPE is the type of the first later non-elective admission of the subject, or missing exactly when every later admission is elective |
| AdmissionsCleaner.AddNextAdmNextTime | odsc_2018_utils.py:20-46 | NEXT_ADMITTIME is the admit time of the first later non-elective admission of the subject whose admit time is known, or missing when there is none |
| AdmissionsCleaner.AddNextAdmNextUnplanned | odsc_2018_utils.py:20-46 | with every admit time known, both next columns come from the first later unplanned admission of the subject, or both are missing exactly when there is none |
| AdmissionsCleaner.NullNextTimeMeansNoTime | odsc_2018_utils.py:24-44 | when the first later unplanned admission has no admit time, NEXT_ADMISSION_TYPE names it and NEXT_ADMITTIME is missing |
| AdmissionsCleaner.NextUnplannedUnique | odsc_2018_utils.py:20-46 | when the first later unplanned admission has a known time, the first timed unplanned admission is that same row |
| AdmissionsCleaner.NextUnplannedIsUnique | odsc_2018_utils.py:20-46 | an admission has at most one first later unplanned admission |
| AdmissionsCleaner.AddNextAdmLinksTo | odsc_2018_utils.py:20-46 | with every admit time known, an admission whose first later unplanned admission is row `j` takes row `j`'s admit time and type |
| AdmissionsCleaner.AddNextAdmNeverElective | odsc_2018_utils.py:34-44 | no admission is left linked to an ELECTIVE admission |
| AdmissionsCleaner.AddNextAdmLinksLater | odsc_2018_utils.py:29-44 | a present link always comes from a strictly later admission of the same subject, whose admit time is not earlier than the admission's own |
| AdmissionsCleaner.AddNextAdmLastIsNull | odsc_2018_utils.py:29-44 | the last admission of each subject has neither a next admit time nor a next type |
| AdmissionsCleaner.LoadCleanAdmGap | odsc_2018_utils.py:14-17 | DAYS_NEXT_ADMIT of an admission is the number of 86400-second days from its discharge to the first later unplanned admission of its subject with a known admit time; it is missing exactly when the discharge time is missing or there is no such admission |
| NotesSelector.DischargeSummaries | odsc_2018_utils.py:53 | a note is kept exactly when it is in the input and its category is 'Discharge summary' |
| NotesSelector.DischargeSummariesAppend | odsc_2018_utils.py:53 | the category filter distributes over concatenation, so summaries keep their input order and their number of copies |
| NotesSelector.LastPerAdmission | odsc_2018_utils.py:56 | `nth(-1)` keeps at most as many notes as it gets; which notes it keeps is stated by NotesSelector.LastPerAdmissionMembers and NotesSelector.LastSummaryMembers |
| NotesSelector.LastSummaryMembers | odsc_2018_utils.py:53-56 | a note is kept exactly when it is a discharge summary of the input and no later discharge summary of the input belongs to the same (subject, admission) |
| NotesSelector.Duplicated | odsc_2018_utils.py:57 | `duplicated(['HADM_ID'])`, computed as one left-to-right pass over the admission ids seen so far, marks exactly the rows whose admission id occurs in an earlier row |
| NotesSelector.DuplicatedPassMarks | odsc_2018_utils.py:57 | the pass started with a set of already seen ids marks a row exactly when its id is in that set or occurs in an earlier row |
| NotesSelector.CountTrue | odsc_2018_utils.py:57 | the sum of a boolean column is at most its length; NotesSelector.CountTrueZero states when it is zero |
| NotesSelector.LoadCleanNotes | odsc_2018_utils.py:48-59 | a failure is always the multiple-summaries error, and a success has at most as many notes as the input; NotesSelector.LoadCleanNotesFails and NotesSelector.LoadCleanNotesSucceeds state when and what |
| NotesSelector.CountTrueZero | odsc_2018_utils.py:57 | the sum of a boolean column is zero exactly when no entry is true |
| NotesSelector.NoDuplicatedIffHadmsUnique | odsc_2018_utils.py:57 | `duplicated(['HADM_ID']).sum() == 0` holds exactly when no two rows share an admission id |
| NotesSelector.LastPerAdmissionMembers | odsc_2018_utils.py:56 | a note is kept exactly when it is the last note of its (subject, admission) in input order |
| NotesSelector.LastPerAdmissionKeys | odsc_2018_utils.py:56 | every (subject, admission) of the input still has a kept note, and no other pair does |
| NotesSelector.LastPerAdmissionSubset | odsc_2018_utils.py:56 | every kept note is a note of the input |
| NotesSelector.LastPerAdmissionKeysUnique | odsc_2018_utils.py:56 | no two kept notes belong to the same (subject, admission) |
| NotesSelector.RepeatedHadmConflicts | odsc_2018_utils.py:56-57 | an admission id repeated among the kept notes comes from two discharge summaries of different subjects |
| NotesSelector.ConflictRepeatsHadm | odsc_2018_utils.py:56-57 | two subjects' discharge summaries with one admission id both survive, so the id repeats |
| NotesSelector.KeptHadmsUnique | odsc_2018_utils.py:53-57 | the kept admission ids are unique exactly when no two subjects' discharge summaries share an admission id |
| NotesSelector.LoadCleanNotesFails | odsc_2018_utils.py:48-59 | `load_clean_notes` fails exactly when two subjects' discharge summaries share an admission id, and then with the multiple-summaries error |
| NotesSelector.LoadCleanNotesSucceeds | odsc_2018_utils.py:48-59 | on success every kept note is an input discharge summary; admission ids and (subject, admission) pairs are unique; the kept notes are exactly the last summary of each summarised admission, both among the summaries and among all input notes; no admission is lost |
| DatasetMerger.Matches | odsc_2018_utils.py:67-71 | an admission matches at most as many notes as there are; which ones is stated by DatasetMerger.MatchesMembers and DatasetMerger.MatchesAppend |
| DatasetMerger.MatchesMembers | odsc_2018_utils.py:67-71 | the notes joining an admission are exactly the input notes with its subject and admission id |
| DatasetMerger.MatchesAppend | odsc_2018_utils.py:67-71 | matching distributes over concatenation, so a joining note counts once per copy of it in the notes |
| DatasetMerger.RowsFor | odsc_2018_utils.py:67-71 | a left join makes one row per matching note, or one row when none matches |
| DatasetMerger.LeftJoin | odsc_2018_utils.py:67-71 | the left join never has fewer rows than admissions; its rows are stated by DatasetMerger.LeftJoinLength and DatasetMerger.LeftJoinRow |
| DatasetMerger.LeftJoinLength | odsc_2018_utils.py:67-72 | the left join never has fewer rows than admissions, and has exactly as many when no admission matches two notes |
| DatasetMerger.NoMatches | odsc_2018_utils.py:67-71 | an admission that no note joins has no matches |
| DatasetMerger.MatchesAtMostOne | odsc_2018_utils.py:67-71 | with notes unique per (subject, admission), each admission matches at most one note |
| DatasetMerger.LeftJoinRow | odsc_2018_utils.py:67-71 | with at most one match per admission, row `i` of the join is admission `i`'s projected columns; TEXT is missing exactly when no note joins it, and otherwise is the text of a joining note |
| DatasetMerger.DropNewborn | odsc_2018_utils.py:75 | the newborn filter never adds rows; which rows survive, in which order, is stated by DatasetMerger.DropNewbornMembers and DatasetMerger.DropNewbornAppend |
| DatasetMerger.DropNewbornMembers | odsc_2018_utils.py:75 | a row survives the filter exactly when it is in the input and is not a NEWBORN admission |
| DatasetMerger.DropNewbornNoNewborns | odsc_2018_utils.py:75 | without newborn admissions the filter changes nothing |
| DatasetMerger.DropNewbornAppend | odsc_2018_utils.py:75 | the filter distributes over concatenation, so surviving rows keep their order |
| DatasetMerger.MergeAdmissionsNotes | odsc_2018_utils.py:67-75 | a failure is always the rows-increased error, and a success has at most one row per admission; DatasetMerger.MergeAdmissionsNotesFails states when it fails |
| DatasetMerger.MergeAdmissionsNotesFails | odsc_2018_utils.py:67-72 | the merge fails exactly when some admission matches two notes, and then with the rows-increased error |
| DatasetMerger.MergeUniqueNotesSucceeds | odsc_2018_utils.py:67-75 | notes unique per (subject, admission) never make the merge fail, the join has one row per admission, and no NEWBORN row remains |
| DatasetMerger.LoadCleanMergeDataset | odsc_2018_utils.py:60-77 | a success has at most one row per admission; DatasetMerger.LoadCleanMergeDatasetResult and DatasetMerger.LoadCleanMergeDatasetRow state the rest |
| DatasetMerger.LoadCleanMergeDatasetResult | odsc_2018_utils.py:60-77 | the pipeline fails exactly when two subjects' discharge summaries share an admission id, always with the multiple-summaries error and never the rows-increased one; otherwise it returns the newborn-free join, which has one row per admission |
| DatasetMerger.LoadCleanMergeDatasetRow | odsc_2018_utils.py:60-77 | before the newborn filter, row `i` is cleaned admission `i`; its TEXT is missing exactly when the admission has no discharge summary, and otherwise is the text of the last discharge summary of that admission in the notes table |
| Examples.SortedInputKeepsOrder | odsc_2018_utils.py:24-40 | an input already in (subject, admit time) order is the table the links are computed on |
| Examples.ElectiveAdmissionIsSkipped | odsc_2018_utils.py:20-46 | for admissions at t1 < t2 < t3 with the second ELECTIVE, the first and second link to t3 and its type, and the third has no link |
| Examples.FifteenDays | odsc_2018_utils.py:17 | a next admission 15 x 86400 seconds after discharge gives DAYS_NEXT_ADMIT 15.0 |
| Examples.TwoStaysCleaned | odsc_2018_utils.py:4-18 | two unplanned stays 15 days apart: the first gets the second's admit time and 15.0 days, the second gets nothing |
| Examples.TwoStaysSummaries | odsc_2018_utils.py:53 | the nursing note is filtered out and both discharge summaries stay |
| Examples.TwoStaysNotesSelected | odsc_2018_utils.py:48-59 | the notes pass the check; the first stay has discharge summaries and the second has none |
| Examples.TwoStaysLastSummary | odsc_2018_utils.py:53-56 | the last discharge summary of the first stay in the notes table is the one with the text `last` |
| Examples.TwoStaysJoined | odsc_2018_utils.py:67-71 | the join has one row per stay; the first carries its last summary and the second has no text |
| Examples.TwoStaysMerged | odsc_2018_utils.py:60-77 | end to end, no row is dropped; the first stay has the next admit time, 15.0 days and its last summary; the second has neither link nor text |
| Examples.SharedAdmissionIdFails | odsc_2018_utils.py:57 | discharge summaries of two subjects under one admission id make the pipeline fail with the multiple-summaries error |

## Left out

- Reading the CSV files (lines 8, 50): the tables are parameters of the model.
- Timestamp parsing with `errors='coerce'` (lines 10-12): times arrive already converted to seconds. A value that fails to parse is `None`, which is what coercion produces.
- Floating point (line 17): DAYS_NEXT_ADMIT is the exact rational `real` number of days. Rounding to a float is not modelled.
- Row labels and `reset_index` (lines 25, 56): rows are identified by position. The extra `index` column that `reset_index` adds after `nth` is not modelled.
- Missing identifiers: `groupby` drops rows whose SUBJECT_ID or HADM_ID is NaN, and notes can lack an HADM_ID. Identifiers are modelled as non-null integers, so that dropping is not modelled.
- Missing strings: ADMISSION_TYPE, CATEGORY and TEXT are modelled as non-null strings.
- Column dtypes after the assignments and the fill, and the `.copy()` on line 75: none of these affects any value.
- Output order of `nth(-1)` (line 56): kept notes stay in input order, as the current row-filtering `nth` does. Older pandas returned them ordered by (SUBJECT_ID, HADM_ID). The merge result does not depend on this order, because a successful selection has at most one note per join key.
- NotesSelector.LoadCleanNotesSucceeds: states which notes are kept, not their order.
- DatasetMerger.LeftJoinRow: states the join row by row only when every admission matches at most one note. Otherwise only the row count is stated, in DatasetMerger.LeftJoinLength.
- The assertion messages: failures are the error values `MultipleDischargeSummaries` and `RowsIncreased`, without the message text.
- Errors pandas itself raises on malformed tables, such as a missing column: these are not modelled.
