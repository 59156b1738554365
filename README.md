# Duty roster: a Dafny model of the rotation scheduler and the ledger edits

This project models the logic of a school duty-roster application.
The application keeps a registry of classes. Each class has busy times: (day, shift)
pairs, Monday ("Thứ 2") to Saturday ("Thứ 7"), morning ("Sáng") or afternoon ("Chiều"),
in which it cannot take duty. It also keeps a newest-first ledger of duty records.
On that state it offers:

- **the weekly rotation**: anchor the chosen start date on a Monday, shuffle the
  classes, and walk the twelve slots of the week with one cursor. For each slot the
  cursor tries at most one pass of the pool and the first class that is not busy
  takes the duty. Generated records go in front of the ledger.
- **the busy-time toggle** of the settings screen;
- **adding, editing and deleting** records, and **filtering** the table by search
  term and shift;
- **CSV export** of the ledger.

Modules, one per component:

| file | module | what it holds |
|---|---|---|
| `types.dfy` | `DutyTypes` | the enumerations with their stored labels and parsers, `BusyTime`, `ClassConfig`, `DutyRecord`, the day and shift lists |
| `seqs.dfy` | `Seqs` | `Option`, the array `filter` and `join`, the string `includes`, subsequence and uniqueness, and a string `split` that reads the exported text back |
| `registry.dfy` | `ClassRegistry` | `IsBusy` and the toggle |
| `ledger.dfy` | `DutyLedger` | the record form, add, update, delete, the table filter and the unique-id invariant |
| `week.dfy` | `WeekAnchor` | weekdays of day numbers and the Monday anchor |
| `scheduler.dfy` | `RotationScheduler` | the scan, the week's specification `Schedule`, its properties, and the method `GenerateSchedule` with the application's nested loops |
| `csv.dfy` | `CsvExport` | the exported lines and text, the split round trip, and the effect of an unquoted comma |

The rotation is specified by the function `Schedule`, which goes slot by slot
through `RunFrom` and uses `Scan` for one slot's search. The method
`GenerateSchedule` keeps the application's loops: six days, two shifts per day,
and the bounded `while` scan in `FindFreeClass`. Its contract ties the records it
produces to `Schedule`. The lemmas about `Schedule` then state the following:

- the batch has one record per *open* slot (a slot in which some class is free), in week order;
- every record names a registry class that is free in its slot and carries the fixed task, supervisor and evaluation;
- a slot is skipped only when every class is busy in it;
- with no busy times, the classes are taken round-robin from the shuffled pool.

Inputs that the application gets from the browser are parameters of the model:

- the shuffled pool (`Math.random`) is any sequence with the same multiset of classes as the registry;
- fresh ids (`crypto.randomUUID`) come from `newId(k)`, the id of the k-th new record;
- dates are day numbers counted from 1970-01-01, a Thursday, and `formatDate` renders them;
- lower-casing (`toLowerCase`) is the parameter `fold`.

Four behaviours of the code as written are stated and proved:

- In the Monday anchor, the special case for a Monday is redundant, because
  `(8 - 1) % 7` is already 0. `WeekAnchor.MondayOffset` proves that the offset always equals `(8 - weekday) % 7`.
- The start-date dialog says the rotation starts on the Monday of the week that
  contains the chosen date (src/App.tsx:538). The code takes the first Monday on or
  after the date instead (src/App.tsx:185-187). The two agree only for a Monday. On
  any other day the code's Monday is the one of the following week
  (`WeekAnchor.AnchorIsNextWeeksMonday`). For a Wednesday, the dialog's Monday is two
  days earlier and the code's is five days later (`WeekAnchor.WednesdayStart`). The
  model follows the code.
- Toggling a pair twice restores the class's busy *set*, but not always the exact
  list. When the pair was absent, the list comes back exactly
  (`ClassRegistry.ToggleTwiceRestoresAbsent`). When it was present, every copy of it
  is removed and one copy is appended at the end
  (`ClassRegistry.ToggleTwiceMovesPresentToEnd`). So the list comes back exactly
  only when the pair was held once, in the last place. A pair held earlier in the
  list moves to the end (`ClassRegistry.ToggleTwiceReordersPresent`), and a
  repeated pair comes back once.
- The export does not quote cells as section 2 of RFC 4180 describes. The text splits
  back into the ledger's cells only when no cell holds a comma or a line break
  (`CsvExport.CsvRoundTrip`). One comma in a class name makes the line read back as
  seven cells (`CsvExport.CommaInCellSplitsTheLine`).

## Model

| member | source | states |
|---|---|---|
| DutyTypes.ParseShift | src/types.ts:1 | exactly the two shift labels parse, and a parsed shift's label is the input |
| DutyTypes.ParseEvaluation | src/types.ts:2 | exactly the four evaluation labels parse, and a parsed value's label is the input |
| DutyTypes.ParseDay | src/types.ts:3 | exactly the six day labels parse, and a parsed day's label is the input |
| DutyTypes.ShiftLabelRoundTrip | src/types.ts:1 | `Shift.Label`: every shift's label is one of the two stored labels and parses back to that shift |
| DutyTypes.EvaluationLabelRoundTrip | src/types.ts:2 | `Evaluation.Label`: every evaluation's label is one of the four stored labels and parses back to it |
| DutyTypes.DayLabelRoundTrip | src/types.ts:3 | `DayOfWeek.Label`: every day's label is one of the six stored labels and parses back to that day |
| DutyTypes.DayIndex | src/App.tsx:43 | each day sits at its own position of the day list |
| DutyTypes.DaysAreTheWeek | src/App.tsx:43 | the day list has six entries, starts with Monday, holds every day and no day twice |
| Seqs.Filter | src/App.tsx:152 | the result keeps exactly the elements that satisfy the predicate, in order (a subsequence), and is no longer than the input |
| Seqs.FilterKeepsAll | src/App.tsx:152 | a predicate true of every element keeps the whole sequence |
| Seqs.FilterIdempotent | src/App.tsx:152 | filtering twice with one predicate is filtering once |
| Seqs.FilterAppend | src/App.tsx:152 | filtering a concatenation is concatenating the filtered parts |
| Seqs.FilterUniqueBy | src/App.tsx:152 | filtering never puts two elements with the same key into the result |
| Seqs.IncludesIsPieceAt | src/App.tsx:239-241 | `Includes` (the string `includes` of the search) holds exactly when the term is the piece of the text at some position |
| Seqs.Join | src/App.tsx:249 | a one-element list joins to its element |
| Seqs.Split | src/App.tsx:249 | the application never splits; this is the reader the line-249 `join` is proved invertible against: a split is never empty, and text without the separator splits to itself |
| Seqs.SplitAtSeparator | src/App.tsx:249 | text up to the first separator is the first piece, and the rest splits on its own |
| Seqs.SplitJoin | src/App.tsx:249 | splitting undoes joining when no element holds the separator |
| Seqs.JoinCellWithSeparator | src/App.tsx:249 | joining a cell that holds the separator gives the same text as joining its two halves as two cells |
| Seqs.SeparatorInCellAddsCell | src/App.tsx:249 | a single separator inside one cell makes the joined text split into one piece more |
| ClassRegistry.IsBusyIsSomeMatch | src/App.tsx:173 | `IsBusy`, the busy test of the toggle and of the scan at line 207, holds exactly when some entry of the busy list has the slot's day and shift |
| ClassRegistry.ToggleBusyTimes | src/App.tsx:173-178 | the toggled pair is busy afterwards exactly when it was not busy before, and every other pair keeps its membership |
| ClassRegistry.ToggleBusyTime | src/App.tsx:170-179 | only classes with the given id change, and only in the toggled pair; id and name are kept, the list length is kept, and an unknown id changes nothing |
| ClassRegistry.ToggleTwiceRestoresAbsent | src/App.tsx:173-178 | toggling an absent pair twice gives back the exact list |
| ClassRegistry.ToggleTwiceRestoresMembership | src/App.tsx:173-178 | toggling any pair twice gives back the same busy pairs |
| ClassRegistry.ToggleTwiceMovesPresentToEnd | src/App.tsx:173-178 | toggling a present pair twice removes every copy of it and appends one copy at the end, the other pairs keeping their order |
| ClassRegistry.ToggleTwiceReordersPresent | src/App.tsx:175-177 | a concrete list in which toggling a present pair twice moves it to the end |
| ClassRegistry.RegistryToggleTwiceRestores | src/App.tsx:170-179 | on a registry where the pair is absent from the class, toggling twice gives back the registry |
| ClassRegistry.ToggleKeepsNoDuplicates | src/App.tsx:173-178 | a busy list without repeated pairs has none after a toggle |
| DutyLedger.RecordForm.WithId | src/App.tsx:128-131 | the record built from the form carries the given id, shows exactly the form's fields and stores the form's notes string as present notes |
| DutyLedger.AddRecord | src/App.tsx:128-132 | the new record, with its fresh id and the form's fields, goes in front and the old ledger follows unchanged |
| DutyLedger.UpdateRecord | src/App.tsx:125 | length and every id are kept; records with the edited id take the form's fields; all others are unchanged |
| DutyLedger.ReopenedFormRebuildsRecord | src/App.tsx:158-166 | `FormOf`, the form the edit dialog opens with, saved unchanged under the record's id rebuilds the record, except that missing notes come back as empty notes |
| DutyLedger.DeleteRecord | src/App.tsx:152 | the result holds exactly the records with a different id, in ledger order, and no record with that id |
| DutyLedger.FilterRecords | src/App.tsx:237-244 | the table shows exactly the records whose folded class, task or supervisor includes the folded term and whose shift passes the selector, in ledger order |
| DutyLedger.EmptySearchFiltersByShiftOnly | src/App.tsx:238-243 | `Matches` with an empty term, when lower-casing keeps it empty, holds exactly when the record's shift passes the selector |
| DutyLedger.DeleteAfterAdd | src/App.tsx:128-132 | deleting a record just added under a fresh id gives back the ledger |
| DutyLedger.AddKeepsUniqueIds | src/App.tsx:128-132 | adding under a fresh id keeps ids unique |
| DutyLedger.UpdateKeepsUniqueIds | src/App.tsx:125 | an edit keeps ids unique |
| DutyLedger.UpdateIdempotent | src/App.tsx:125 | applying the same edit twice is applying it once |
| DutyLedger.UpdateAbsentIsNoop | src/App.tsx:125 | an edit for an id not in the ledger changes nothing |
| DutyLedger.DeleteIdempotent | src/App.tsx:152 | deleting twice is deleting once, and deleting an absent id changes nothing |
| DutyLedger.DeleteKeepsUniqueIds | src/App.tsx:152 | deleting keeps ids unique |
| DutyLedger.OthersKeepTheirPlace | src/App.tsx:152 | with unique ids, a stretch of records that leaves out the k-th record passes the delete filter for the k-th id unchanged |
| DutyLedger.DeleteRemovesOne | src/App.tsx:152 | with unique ids, deleting the id of record k removes exactly that record and keeps the others in order |
| DutyLedger.FilterWithoutCriteriaShowsAll | src/App.tsx:237-244 | an empty term with every shift selected shows the whole ledger |
| WeekAnchor.Weekday | src/App.tsx:185 | a weekday lies between 0 and 6 |
| WeekAnchor.MondayOffset | src/App.tsx:185-187 | the offset is below 7 and lands on a Monday, and it always equals (8 - weekday) mod 7, so the Monday case needs no branch of its own |
| WeekAnchor.WeekdayShift | src/App.tsx:186-187 | moving k days forward moves the weekday k places, modulo 7 |
| WeekAnchor.AnchorMonday | src/App.tsx:184-187 | the anchor is a Monday, it is at most six days after the start, and it is the first Monday on or after the start |
| WeekAnchor.StartOfWeek | src/App.tsx:183-187 | the application's computation yields the first Monday on or after the start |
| WeekAnchor.AnchorEdgeCases | src/App.tsx:185-187 | a Monday is kept, a Sunday moves one day and a Saturday moves two |
| WeekAnchor.MondayOfWeek | src/App.tsx:538 | the Monday of the Monday-to-Sunday week that contains a day is a Monday at most six days before it |
| WeekAnchor.AnchorIsNextWeeksMonday | src/App.tsx:185-187 | the code's anchor is the Monday of the start's own week exactly when the start is a Monday, and otherwise the Monday a week later |
| WeekAnchor.WednesdayStart | src/App.tsx:185-187 | for a Wednesday start, the week's Monday is two days before it and the code's anchor five days after it |
| RotationScheduler.EveryBusyTimeIsASlot | src/App.tsx:194-200 | every (day, shift) pair a class can mark busy is one of the twelve slots the loops visit |
| RotationScheduler.SlotOfDayAndShift | src/App.tsx:194-200 | shift j of day d is slot 2d + j, with that day, shift and date |
| RotationScheduler.PoolAt | src/App.tsx:206 | the class under any cursor position is a pool class |
| RotationScheduler.ScanOutcome | src/App.tsx:202-216 | `Scan`, the search for one slot: a successful scan takes the first class free in the slot from the cursor on: the class at the position just before the new cursor, every earlier position of the pass busy, the cursor moving at most one pass; a failed scan met a busy class at each position of the pass and moves the cursor a full pass |
| RotationScheduler.FailedScanMeansAllBusy | src/App.tsx:205-216 | a scan that finds nothing means every pool class is busy in the slot |
| RotationScheduler.ScanFindsOpenSlot | src/App.tsx:202-216 | the scan finds a class exactly when some pool class is free in the slot |
| RotationScheduler.RunFromExtends | src/App.tsx:194-228 | `RunFrom`, the run over the remaining slots, never changes the records already pushed and pushes at most one record per remaining slot |
| RotationScheduler.OpenSlotsBeforeAreTheOpenSlots | src/App.tsx:194-200 | the listed slots are exactly the open slots, strictly increasing |
| RotationScheduler.FilledSlotInOrder | src/App.tsx:218-227 | the record written for a filled slot fills that slot, so records and slots stay in step |
| RotationScheduler.ScheduleFillsOpenSlots | src/App.tsx:189-230 | `Schedule`, the batch of one run: the batch has one record per open slot, in week order; each names a pool class free in that slot, carries the slot's date and shift, the fixed task, supervisor and evaluation, no notes and the k-th fresh id; there are at most twelve |
| RotationScheduler.GeneratedRecordsCarryDefaults | src/App.tsx:219-227 | every generated record (built by `SlotRecord` with `DefaultTask`) carries the gate-and-schoolyard task exactly in the "Sáng" shift and the corridor task otherwise, the supervisor "Giáo viên trực tuần", the evaluation "Tốt" and no notes |
| RotationScheduler.EmptyPoolSchedulesNothing | src/App.tsx:190-216 | with no classes the batch is empty |
| RotationScheduler.FirstCandidateIsFree | src/App.tsx:205-213 | with no busy times the scan takes the class under the cursor and moves the cursor by one |
| RotationScheduler.RoundRobinWhenNoneBusy | src/App.tsx:190-230 | with no busy times all twelve slots are filled and record k names the class at pool position k mod the pool size |
| RotationScheduler.FilledRecordsNamePoolClasses | src/App.tsx:218-227 | records that fill slots name pool classes |
| RotationScheduler.ScheduleNamesRegistryClasses | src/App.tsx:190-227 | every generated record names a class of the registry the pool was shuffled from |
| RotationScheduler.ScheduleKeepsUniqueIds | src/App.tsx:232 | putting the batch in front of a ledger with unique ids keeps ids unique, when the fresh ids are distinct and none is already in the ledger |
| RotationScheduler.FindFreeClass | src/App.tsx:202-216 | the bounded scan loop returns the class and cursor that the scan specifies |
| RotationScheduler.GenerateSchedule | src/App.tsx:182-235 | the week starts on the first Monday on or after the start date; the batch is the specified schedule, has at most twelve records, all naming registry classes, and goes in front of the ledger |
| CsvExport.RowFields | src/App.tsx:248 | a record exports as many cells as there are headers |
| CsvExport.CsvLines | src/App.tsx:247-249 | the header line comes first, then one line per record, each its cells joined by commas, in ledger order |
| CsvExport.JoinAvoids | src/App.tsx:249 | joining cells that hold no character c (other than the separator) gives text without c |
| CsvExport.RowLineRoundTrip | src/App.tsx:248-249 | a record line whose cells hold no comma or line break has no line break and splits back into the six cells |
| CsvExport.HeaderLineRoundTrip | src/App.tsx:247-249 | the header line has no line break and splits back into the headers |
| CsvExport.CsvRoundTrip | src/App.tsx:247-249 | `CsvText`, the exported text: when no cell holds a comma or line break, the text splits into the header and one line per record, each splitting back into its cells |
| CsvExport.CommaInCellSplitsTheLine | src/App.tsx:248-249 | one comma in a cell makes the record's line read back as seven cells |

## Left out

- Persistence in `localStorage` (loading, saving, the seeded class list) is I/O and is not modelled.
- The shuffle `sort(() => Math.random() - 0.5)` is randomness. The pool is an input, constrained only to be a rearrangement of the registry, and the model does not describe which orders the shuffle can produce.
- `crypto.randomUUID` is randomness. Ids come from the parameter `newId`, and uniqueness of the generated ids is the caller's assumption, as it is in the application.
- `Date` parsing, `getDay` and `setDate` in local time, and `toISOString` in UTC are left out. Dates are whole day numbers, and `formatDate` stands for the rendering. Time-zone shifts between local and UTC days are not modelled.
- `toLowerCase` is the parameter `fold`, and Unicode case mapping is not modelled.
- The confirmation dialog before a delete is user interaction. The model is the deletion after the user confirms.
- The alert after a rotation run, the file download in the CSV export (`Blob`, link, click) and the rest of the React interface are left out.
- The task suggestion service (`src/services/geminiService.ts`) is a network call. It is not part of this model.
- `resetForm` (today's date and empty fields) and the dialog's open and closed state are interface state. The form is an input of `AddRecord` and `UpdateRecord`, and `FormOf` models how `handleEdit` fills it.
