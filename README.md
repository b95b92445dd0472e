# Instructor availability engine

A model of the availability core of an academic scheduling application.
Instructors pick half-hour cells of a weekly grid (Monday to Saturday,
07:30 to 22:30). Each cell is a slot such as `Lunes-08:00`. A saved
selection becomes an immutable, timestamped *version*. One version per
instructor and period may be marked final. Administrators download CSV
reports built from each instructor's *effective* version: the final one,
else the newest draft.

The repository holds two applications, and the model covers both.

- **The server (NestJS).**
  - The availability service creates versions. It checks the period and
    its submission window, then runs the continuity rule.
  - It lists and looks up versions, marks one final in a transaction, and
    picks the effective version.
  - The report service condenses slots into time ranges and writes CSV.
  - Two guards check roles and granular permissions.
- **The clients.** There is a single-page client (`App.tsx`,
  `components/`, `services/`) and a separate front end (`frontend/`). They
  hold:
  - a client copy of the continuity rule;
  - the client's own report table;
  - two availability editors;
  - the instructor filter of the administrator screens;
  - the dashboard chart;
  - the route guard.

The model works on values: slots are a datatype `Slot(day, Clock(hour,
minute))`, clock texts are `HH:MM` strings built and read back by `Text`,
and versions carry integer ids and timestamps. Code that works step by step
in the source (the grid generator, both validators, the condensation
loops, the report walks, the consolidated report loop) is written as
methods with loop invariants and proved equal to a specification function.
The objects whose fields change (the server's version table, the
single-page client's version list, the two editors) are classes whose
methods state their whole new state.

Properties proved include:

- **Continuity rule.** The server accepts a selection exactly when every
  slot names a known day and a time from 07:30 to before 22:30, and every
  day's sorted run of consecutive half hours lasts two hours. A rejection
  names the first bad slot, or the first short run's day and start.
  - The client's copy agrees with the server on every selection of known
    days and aligned in-range times.
  - They disagree on 22:30 (`LastCellDisagreement`). The client's grid
    contains it, but the server's range check refuses it.
  - The client also rejects a day whose times are all unknown
    (`TimelessDayRejected`), and otherwise ignores unknown times.
- **Condensation.** The condensed ranges of a day expand back to that day's
  sorted minutes. Ranges are ordered and, on distinct aligned input,
  separated by a gap. Their `HH:MM` texts read back as their minutes. The
  example in the source's comment holds.
- **Reports.** The CSV header and each row split back into their nine
  columns. The document splits into the header and one line per row. The
  rows of a version read back as its condensed ranges. The consolidated
  report is the concatenation of every listed instructor's rows, and every
  row belongs to one of them.
- **Versions.** Marking final keeps at most one final version per
  instructor and period, and leaves other scopes unchanged.
  - On the single-page client, saving creates a new version that is
    already final. This differs from the server, where new versions are
    drafts.
  - The effective version and the client's report target are the final
    version, else the newest.
- **Editors.** A toggle flips one slot's membership and keeps the selection
  free of repeats. Toggling twice restores the set.
- **Guards and filters.** The route and request guards admit exactly the
  users their rules describe. The instructor filter is one filter by both
  tests, in the original order.

## Model

| member | source | states |
|---|---|---|
| TimeGrid.DaysShape | constants.ts:3 | the six working days from Lunes to Sábado, without repeats and without Domingo |
| TimeGrid.Grid | constants.ts:6-22 | the grid has 31 entries, entry k being the `HH:MM` text of 07:30 plus 30·k minutes |
| TimeGrid.GenerateTimeSlots | constants.ts:6-22 | the generator loop (same loop as frontend/src/utils/constants.ts:4-21) produces exactly the grid |
| TimeGrid.GridEntryClock | constants.ts:12 | every entry is five characters, parses back to its hour and minute, and its minute is 00 or 30 |
| TimeGrid.GridEnds | constants.ts:11 | the grid has 31 entries, from "07:30" to "22:30" |
| TimeGrid.GridEntries | constants.ts:11-19 | every entry reads as 450 + 30·k minutes, each one 30 minutes after the one before, ending in 00 or 30 |
| TimeGrid.GridEntryFacts | constants.ts:12 | the same facts for one entry |
| TimeGrid.GridDistinct | constants.ts:6-22 | no time appears twice in the grid |
| TimeGrid.GridLookup | services/utils.ts:22 | `indexOf` of a clock text is (minutes − 450)/30 for aligned times from 07:30 to 22:30, and −1 otherwise |
| TimeGrid.GridHit | services/utils.ts:22 | an aligned in-range time is found at that index |
| TimeGrid.GridMiss | services/utils.ts:22-25 | any other time is not in the grid, so the client skips it |
| TimeGrid.GridEntryIsAligned | services/utils.ts:22 | a clock whose text is entry k is aligned and lies 30·k minutes after 07:30 |
| TimeGrid.MinutesTextReads | backend/src/reports/reports.service.ts:191-195 | the `HH:MM` text of m minutes reads back as m, for any m below 100 hours |
| TimeGrid.TimeToOffset | backend/src/availability/availability.service.ts:194-205 | no index exactly when the time is before 07:30 or at or after 22:30; otherwise the offset from 07:30 in minutes, which is 30 times the index |
| TimeGrid.TimeToIndexAligned | backend/src/availability/availability.service.ts:194-205 | an aligned time in range gets a whole index 0..29, and 22:30 or later gets none |
| TimeGrid.OffsetRoundTrip | backend/src/availability/availability.service.ts:207-212 | `indexToTime` of a valid time's index gives back the time's text |
| TimeGrid.LookupAgreement | backend/src/availability/availability.service.ts:194-205 | for aligned times, the server's offset is 30 times the client's grid position, and they differ only at 22:30 |
| Text.DecimalTextShape | constants.ts:12 | `toString` of a natural number is one or more digits, and exactly one digit below 10 |
| Text.DecimalTextRoundTrip | constants.ts:12 | the decimal text of n reads back as n |
| Text.Pad2RoundTrip | constants.ts:12 | `padStart(2, '0')` keeps the value and, below 100, gives two characters |
| Text.HourMinuteRoundTrip | constants.ts:12 | parsing the `HH:MM` text of an hour and minute gives them back |
| Text.HourMinuteInjective | constants.ts:12 | different hours and minutes give different texts |
| Text.Split | backend/src/reports/reports.service.ts:119-143 | splitting the CSV text at a separator (used to read the document back) returns at least one part |
| Text.SplitNoSeparator | backend/src/reports/reports.service.ts:141-143 | a part without the separator is split off whole |
| Text.SplitJoin | backend/src/reports/reports.service.ts:129-143 | splitting a join of separator-free parts gives back the parts |
| Text.SplitHeadRest | backend/src/reports/reports.service.ts:143 | a header line followed by joined lines splits into the header and the lines |
| Text.ReplaceAll | services/utils.ts:124 | the global replacement changes exactly the occurrences of one character, keeping the length |
| Text.IndexOf | services/utils.ts:22 | −1 exactly when absent; otherwise the first position holding the value |
| Seqs.Filter | frontend/src/pages/admin/InstructorsPage.tsx:37-48 | `filter` keeps only passing elements and never grows the list |
| Seqs.FilterIsSubsequence | frontend/src/pages/admin/InstructorsPage.tsx:37-48 | the filtered list keeps the original order |
| Seqs.FilterMembership | frontend/src/pages/admin/InstructorsPage.tsx:37-48 | an element is kept exactly when it is in the list and passes |
| Seqs.FilterFilter | frontend/src/pages/admin/InstructorsPage.tsx:32-51 | two filters in a row are one filter by both tests |
| Seqs.FilterAppend | backend/src/reports/reports.service.ts:59 | filtering distributes over concatenation |
| Seqs.FilterAll | frontend/src/pages/admin/InstructorsPage.tsx:32 | a filter everything passes keeps the list |
| Seqs.FilterNone | components/AvailabilityScheduler.tsx:76 | a filter nothing passes empties the list |
| Seqs.SortBy | components/AvailabilityScheduler.tsx:39 | the comparator sort returns a permutation ordered by the key |
| Seqs.Sort | backend/src/availability/availability.service.ts:161 | `sort((a, b) => a - b)` returns an ascending permutation of the same length |
| Seqs.SortedUnique | backend/src/availability/availability.service.ts:161 | two sorted permutations of one list are equal, so the sort's result is determined |
| Seqs.SortMembership | backend/src/availability/availability.service.ts:161 | sorting keeps exactly the same values |
| Seqs.SortDistinct | backend/src/availability/availability.service.ts:161 | a list without repeats sorts into a strictly increasing one |
| Seqs.Dedup | components/AvailabilityScheduler.tsx:60 | `new Set(list)` has no repeats and holds exactly the list's values; `Seqs.DedupOrder` gives their order |
| Seqs.DedupOrder | components/AvailabilityScheduler.tsx:60 | `new Set(list)` keeps the values in the order of their first occurrences in the list |
| Seqs.FirstIndex | components/AvailabilityScheduler.tsx:60 | the position of a value's first occurrence: it holds the value and no earlier position does |
| Seqs.FirstIndexSnoc | components/AvailabilityScheduler.tsx:60 | adding a value at the end keeps the first occurrences of earlier values and puts a new value last |
| DayGroups.DayOrder | backend/src/availability/availability.service.ts:155-160 | the keys of the by-day map, in first-appearance order, without repeats |
| DayGroups.DayOrderMembers | backend/src/availability/availability.service.ts:155-160 | the keys are exactly the days named by some slot |
| DayGroups.DayOrderSnoc | backend/src/availability/availability.service.ts:155 | a slot adds its day at the end unless the day is already a key |
| Continuity.Runs | backend/src/availability/availability.service.ts:166-183 | the maximal runs of a list: none for the empty list, the last run ending with the list's last value |
| Continuity.RunsSnoc | backend/src/availability/availability.service.ts:166-182 | a value one step after the previous one extends the last run; any other value opens a new run |
| Continuity.RunsFlatten | services/utils.ts:32-43 | the runs concatenate back to the list |
| Continuity.RunsShape | services/utils.ts:32-43 | every run is non-empty and goes up by one step, and each run's start breaks from the previous run |
| Continuity.RunsPartition | services/utils.ts:32-43 | the runs are a partition of the list into maximal step chains |
| Continuity.RunsOrdered | backend/src/availability/availability.service.ts:161-183 | on a sorted list, each run lies after the previous one |
| Continuity.RunsMembers | services/utils.ts:32-43 | every value of every run comes from the list |
| Continuity.RunEnds | services/utils.ts:49 | every run is non-empty and both of its ends come from the list |
| Continuity.RunsFollowAt | backend/src/availability/availability.service.ts:169-181 | on a sorted list, consecutive runs are ordered and do not continue each other |
| Continuity.RunsSplit | backend/src/availability/availability.service.ts:169-181 | at a break the runs of the list are the runs of the two halves |
| Continuity.FirstShortRun | services/utils.ts:46-56 | the first run shorter than four blocks, if any; every earlier run is long |
| Continuity.FirstShortRunPrefix | services/utils.ts:46-56 | a short run in the first part is found before anything after it |
| Continuity.FirstShortRunAfterLong | services/utils.ts:46-56 | after all-long runs, the search continues in the rest |
| Continuity.FlattenAppend | services/utils.ts:43 | concatenating lists of runs concatenates their contents |
| Continuity.FlattenMember | services/utils.ts:32-43 | a value is in the concatenation exactly when some run holds it |
| Continuity.ShortRunStart | backend/src/availability/availability.service.ts:177-189 | there is a reported start exactly when some run is short, and it is a value of the list |
| Continuity.ShortRunStartIsRunStart | backend/src/availability/availability.service.ts:177-189 | the reported start is the first value of the first short run |
| Continuity.StepsArithmetic | backend/src/availability/availability.service.ts:178 | in a run, the j-th value is the start plus j steps |
| SlotValidation.SlotCheck | backend/src/availability/availability.service.ts:146-153 | no error exactly when the slot is accepted; an unknown day is reported before the time |
| SlotValidation.FirstBadIndex | backend/src/availability/availability.service.ts:143-157 | the first refused slot, every earlier slot accepted; none when all are accepted |
| SlotValidation.DayOffsets | backend/src/availability/availability.service.ts:155-156 | the indices pushed for one day are non-negative |
| SlotValidation.ShortBlockStartIff | backend/src/availability/availability.service.ts:160-190 | a day has a short-run start exactly when it is not continuous, and the start is that run's first index |
| SlotValidation.ValidateTimeSlots | backend/src/availability/availability.service.ts:138-191 | the validator's two passes return what `Validate` specifies |
| SlotValidation.GroupSlots | backend/src/availability/availability.service.ts:143-157 | the first pass stops with the first refused slot's error, or builds the by-day map of indices |
| SlotValidation.ScanDay | backend/src/availability/availability.service.ts:163-189 | the counter loop over a day's sorted indices reports exactly the start of the first short run |
| SlotValidation.DayOffsetsNonEmpty | backend/src/availability/availability.service.ts:161 | a day that is a key of an accepted selection has at least one index |
| SlotValidation.DayOffsetsMember | backend/src/availability/availability.service.ts:156 | an accepted slot's index is among its day's indices |
| SlotValidation.FirstIsolatedBlockNone | backend/src/availability/availability.service.ts:160-190 | the second pass finds nothing exactly when every listed day is continuous |
| SlotValidation.ValidIff | backend/src/availability/availability.service.ts:138-191 | a selection passes exactly when every slot is accepted and every slot's day is continuous |
| SlotValidation.FirstPassReports | backend/src/availability/availability.service.ts:146-153 | the first refused slot is the one reported, as an invalid day exactly when its day is unknown |
| SlotValidation.IsolatedBlockNamesRun | backend/src/availability/availability.service.ts:177-189 | an isolated-block error names a day of the selection that is not continuous, with its short run's start time, after only continuous days |
| SlotValidation.IsolatedBlockAt | backend/src/availability/availability.service.ts:160-189 | the reported day is the first listed day with a short run |
| SlotValidation.RepeatCutsRun | backend/src/availability/availability.service.ts:167 | a repeated index breaks the run, so a slot sent twice can fail the rule |
| SlotValidation.EmptyPasses | backend/src/availability/availability.service.ts:138-191 | the empty selection passes |
| ClientValidation.GridPositionsInRange | services/utils.ts:22-25 | every position the client pushes is a grid index |
| ClientValidation.ValidateAvailability | services/utils.ts:11-60 | the client validator returns what `ClientValidate` specifies |
| ClientValidation.CheckDay | services/utils.ts:30-56 | one day's check gives that day's verdict |
| ClientValidation.GroupPositions | services/utils.ts:15-26 | the grouping builds keys in first-appearance order, with each day's found grid positions |
| ClientValidation.GridPositionsAbsent | services/utils.ts:17-26 | a day no slot names has no positions |
| ClientValidation.BuildChains | services/utils.ts:32-43 | the chain loop builds exactly the runs of consecutive positions |
| ClientValidation.FirstShortChain | services/utils.ts:46-56 | the chain check finds the first chain shorter than four |
| ClientValidation.FirstInvalidDayNone | services/utils.ts:29-57 | no day is rejected exactly when every listed day passes |
| ClientValidation.ClientValidIff | services/utils.ts:11-60 | the client accepts exactly when every named day has positions and no short chain |
| ClientValidation.FirstInvalidDayIsInvalid | services/utils.ts:46-55 | a rejected day yields an invalid verdict |
| ClientValidation.UnknownTimeIgnored | services/utils.ts:22-25 | adding a slot whose time is not in the grid, on a day already present, changes nothing |
| ClientValidation.SameVerdicts | services/utils.ts:29-57 | selections with the same positions per day get the same verdict |
| ClientValidation.TimelessDayRejected | services/utils.ts:19-54 | a day whose times are all unknown gets an empty key and is rejected, with no time in the message |
| ClientValidation.GridPositionsEmpty | services/utils.ts:19-25 | such a day has no positions |
| ClientValidation.LastCellDisagreement | services/utils.ts:22 | 22:30 is position 30 for the client, while the server refuses it as out of range |
| Agreement.Scale | backend/src/availability/availability.service.ts:204 | scaling multiplies every element by 30 |
| Agreement.ScaleRuns | backend/src/availability/availability.service.ts:204 | scaling each run of a list of runs |
| Agreement.SortScale | backend/src/availability/availability.service.ts:161 | sorting commutes with scaling |
| Agreement.RunsScale | backend/src/availability/availability.service.ts:166-183 | runs of step 30 over scaled values are the scaled runs of step 1 |
| Agreement.OffsetsArePositions | backend/src/availability/availability.service.ts:150-156 | on known days and aligned in-range times, the server's indices of a day are 30 times the client's positions |
| Agreement.DayRunsScaled | backend/src/availability/availability.service.ts:160-183 | the server's runs of a day are the client's chains scaled |
| Agreement.DayAgreement | services/utils.ts:29-56 | on such a selection a listed day passes the client exactly when it is continuous for the server |
| Agreement.CopiesAgree | services/utils.ts:11-60 | on such a selection the client accepts exactly what the server accepts |
| Versions.Scope | backend/src/availability/availability.service.ts:54-64 | exactly the versions of one instructor and period |
| Versions.OfInstructor | services/utils.ts:85 | exactly the versions of one instructor |
| Versions.FirstFinal | components/AvailabilityScheduler.tsx:38 | `find(v => v.isFinal)`: none exactly when nothing is final, else the first final version in list order |
| Versions.FirstFinalOfInstructor | services/utils.ts:85-86 | finding the first final one among an instructor's filtered versions gives the first version of the whole list that is theirs and final |
| Versions.NewestFirst | components/AvailabilityScheduler.tsx:39 | a permutation ordered by timestamp, newest first |
| Versions.NewestFirstHead | components/AvailabilityScheduler.tsx:39 | its head is a version no other is newer than |
| Versions.FinalOrNewestChoice | components/AvailabilityScheduler.tsx:58 | the editor's target: none exactly for no versions, the first final one when there is one, else a newest draft |
| Versions.FindById | backend/src/availability/availability.service.ts:69-76 | none exactly when no version has the id, else the version with that id |
| Versions.MarkFinalTable | backend/src/availability/availability.service.ts:95-110 | the transaction's table: in the scope, final exactly for the marked id; the marked version final; everything else unchanged but the flag |
| Versions.MarkFinalEffect | backend/src/availability/availability.service.ts:80-110 | marking keeps ids unique and at most one final version per instructor and period, and changes no other scope |
| AvailabilityStore.AvailabilityService.constructor | backend/src/availability/availability.service.ts:12-13 | an empty version table over the given periods and their window flags |
| AvailabilityStore.AvailabilityService.Create | backend/src/availability/availability.service.ts:18-49 | unknown period NotFound; closed window Forbidden; a failing rule BadRequest with the validator's message; otherwise one new draft appended |
| AvailabilityStore.AvailabilityService.Append | backend/src/availability/availability.service.ts:40-48 | the new row goes at the end with the next id |
| AvailabilityStore.AvailabilityService.FindAllByInstructor | backend/src/availability/availability.service.ts:54-64 | a permutation of the versions of the instructor and period (each once), newest first |
| AvailabilityStore.AvailabilityService.FindOne | backend/src/availability/availability.service.ts:69-76 | NotFound exactly when no version has the id, else that version |
| AvailabilityStore.AvailabilityService.MarkAsFinal | backend/src/availability/availability.service.ts:82-111 | a missing version NotFound; another instructor's version Forbidden; otherwise the table after the transaction |
| AvailabilityStore.AvailabilityService.GetEffectiveVersion | backend/src/availability/availability.service.ts:117-134 | none exactly when the scope is empty; FINAL_MARKED exactly for a final version (the only one when finals are single); otherwise a newest draft of a scope with no final version |
| Users.FindUser | backend/src/users/users.service.ts:12-16 | none exactly when no user has the id, else that user |
| AppStore.UnmarkScope | App.tsx:285-289 | every version of the user and period loses its final mark, and nothing else changes |
| AppStore.AppState.constructor | App.tsx:255-258 | the state the handlers work on: the period id, the version list and the current user, as given |
| AppStore.AppState.SaveAvailability | App.tsx:282-302 | no user, no change; otherwise the scope is unmarked and a new final version is appended |
| AppStore.AppState.HandleMarkAsFinal | App.tsx:304-312 | no user, no change; otherwise the id marked becomes final and the rest of the user's period versions are unmarked |
| AppStore.SaveLeavesOneFinal | App.tsx:285-301 | after a save, the new version is the only final one in its scope, and other scopes are unchanged |
| AppStore.SingleFinalSnoc | App.tsx:301 | appending to a scope without final versions keeps the single-final property as it was |
| AppStore.ProtectedRouteRule | App.tsx:324-332 | to login exactly without a user; render exactly for an allowed role that, as an admin, holds any required permission |
| Guards.RolesGuardRule | backend/src/auth/guards/roles.guard.ts:10-34 | no roles declared admits all; otherwise a user whose role is listed or SUPER_ADMIN; an empty list admits only SUPER_ADMIN |
| Guards.AllGranted | backend/src/auth/guards/permissions.guard.ts:40-42 | `every`: each required permission is granted |
| Guards.PermissionsGuardRule | backend/src/auth/guards/permissions.guard.ts:11-49 | admit without requirements, super admins, or admins holding every permission; deny without a user or for instructors; otherwise Forbidden for an admin missing one |
| Password.ScanText | services/utils.ts:6 | the scan records whether all characters are ASCII letters or digits, and whether a letter and a digit occur |
| Password.ValidatePassword | services/utils.ts:5-8 | accepted exactly when at least 8 characters, all ASCII letters or digits, with a letter and a digit |
| Password.PasswordExamples | services/utils.ts:6 | letters only, an accented letter, or seven characters are refused; "abcdefg1" is accepted |
| Condensation.RangeTextsRead | backend/src/reports/reports.service.ts:190-197 | a range's start and end texts read back as its minutes |
| Condensation.RunRanges | backend/src/reports/reports.service.ts:169-185 | one range per run |
| Condensation.DayRunsGood | backend/src/reports/reports.service.ts:170 | a day's runs are non-empty and non-negative, so each yields a range |
| Condensation.CondenseSlots | backend/src/reports/reports.service.ts:151-188 | `condenseSlots` returns what `Condense` specifies |
| Condensation.CondenseOneDay | backend/src/reports/reports.service.ts:169-185 | one day's pass gives that day's ranges |
| Condensation.GroupMinutes | backend/src/reports/reports.service.ts:155-164 | the grouping builds keys in first-appearance order, with each day's minutes in slot order |
| Condensation.CondenseDay | backend/src/reports/reports.service.ts:170-184 | the start/prev walk over sorted minutes emits one range per run, from its first minute to 30 after its last |
| Condensation.DayMinutesPresent | backend/src/reports/reports.service.ts:162-163 | a day named by a slot has minutes |
| Condensation.DayMinutesAbsent | backend/src/reports/reports.service.ts:162-163 | a day named by no slot has none |
| CondenseFacts.CellsMember | backend/src/reports/reports.service.ts:190-197 | the half-hour cells of a range are exactly the aligned minutes from its start to before its end |
| CondenseFacts.DayMinutesMember | backend/src/reports/reports.service.ts:157-164 | a minute is among a day's minutes exactly when some slot of that day has it |
| CondenseFacts.RunRangesAt | backend/src/reports/reports.service.ts:175-184 | range k spans run k |
| CondenseFacts.CellsOfRun | backend/src/reports/reports.service.ts:177-184 | the cells of a run's range are the run |
| CondenseFacts.ExpandRunRanges | backend/src/reports/reports.service.ts:169-185 | expanding the ranges of half-hour runs gives back the runs' minutes |
| CondenseFacts.DayRoundTrip | backend/src/reports/reports.service.ts:157-185 | a day's ranges expand back to that day's sorted minutes |
| CondenseFacts.RunRangesDay | backend/src/reports/reports.service.ts:196 | every range of a day carries that day |
| CondenseFacts.AbsentDayRanges | backend/src/reports/reports.service.ts:169 | a day named by no slot has no ranges |
| CondenseFacts.RangesOfDaysFilter | backend/src/reports/reports.service.ts:169-185 | taking one day's ranges from the result gives that day's ranges |
| CondenseFacts.CondenseByDay | backend/src/reports/reports.service.ts:151-188 | the ranges of day d in the result are exactly d's ranges |
| CondenseFacts.CondenseRoundTrip | backend/src/reports/reports.service.ts:151-188 | expanding the result's ranges of a day gives back that day's selected minutes, sorted |
| CondenseFacts.CondenseEmptyIff | backend/src/reports/reports.service.ts:152 | no ranges exactly when there are no slots |
| CondenseFacts.DayRangeAt | backend/src/reports/reports.service.ts:177-184 | range k starts at run k's first minute, ends 30 after its last, and is non-empty |
| CondenseFacts.DayRangesOrdered | backend/src/reports/reports.service.ts:170-184 | a day's ranges are non-empty and in order |
| CondenseFacts.DayRangesApart | backend/src/reports/reports.service.ts:177-179 | on distinct aligned minutes, a gap separates consecutive ranges |
| CondenseFacts.DayRangeLastCell | backend/src/reports/reports.service.ts:175-184 | each range's last half hour was selected |
| CondenseFacts.CondenseTextsRead | backend/src/reports/reports.service.ts:190-197 | every condensed range's texts read back as its minutes |
| CondenseFacts.CondenseDocExample | backend/src/reports/reports.service.ts:147-149 | Lunes 08:00, 08:30 and 10:00 condense to 08:00-09:00 and 10:00-10:30 |
| CondenseFacts.CondenseDocExampleTexts | backend/src/reports/reports.service.ts:149 | those ranges print as "08:00"/"09:00" and "10:00"/"10:30" |
| Reports.RangeRowsAt | backend/src/reports/reports.service.ts:105-112 | one row per range, each the user's, with the status and the range's day, and a comment without line breaks |
| Reports.RowsShape | backend/src/reports/reports.service.ts:71-113 | at least one row, all the user's; PENDIENTE exactly without a version; FINAL exactly for a final version |
| Reports.VersionRows | backend/src/reports/reports.service.ts:90-112 | an empty version gives one SIN DISPONIBILIDAD row with its comment; otherwise one row per range, each on the range's day |
| Reports.TextsOfRange | backend/src/reports/reports.service.ts:191-195 | range texts are at least five characters |
| Reports.ReadRangeRows | backend/src/reports/reports.service.ts:105-112 | the rows of readable ranges read back as those ranges |
| Reports.ReadRangeRow | backend/src/reports/reports.service.ts:105-112 | one row reads back as its range |
| Reports.DashUnreadable | backend/src/reports/reports.service.ts:83-85 | the "-" placeholder reads as no time |
| Reports.RowsReadBack | backend/src/reports/reports.service.ts:71-113 | a version's rows read back as its condensed ranges |
| Reports.RowsCoverSelection | backend/src/reports/reports.service.ts:71-113 | the rows of one day expand back to that day's sorted selected minutes |
| Reports.Fields | backend/src/reports/reports.service.ts:131-140 | a row has as many fields as the header |
| Reports.QuoteAll | backend/src/reports/reports.service.ts:131-140 | every field is wrapped in quotes |
| Reports.Lines | backend/src/reports/reports.service.ts:131-141 | one line per row |
| Reports.HeaderAvoids | backend/src/reports/reports.service.ts:119-128 | no header name contains a comma or a line break |
| Reports.HeaderColumns | backend/src/reports/reports.service.ts:119-129 | the header line splits on commas into the nine names |
| Reports.HeaderOneLine | backend/src/reports/reports.service.ts:119-129 | the header line has no line break |
| Reports.RowColumns | backend/src/reports/reports.service.ts:131-141 | a row without commas splits into nine quoted fields, each unquoting to its value |
| Reports.RowLineOneLine | backend/src/reports/reports.service.ts:131-141 | a row without line breaks is one line |
| Reports.EmptyDocument | backend/src/reports/reports.service.ts:143 | with no rows the document is the header and an empty line |
| Reports.CsvNoRows | backend/src/reports/reports.service.ts:118-144 | the CSV of no rows splits into the header and "" |
| Reports.LinesAt | backend/src/reports/reports.service.ts:131-141 | line k is row k's line |
| Reports.LinesOneLine | backend/src/reports/reports.service.ts:131-141 | rows without line breaks give lines without line breaks |
| Reports.DocumentLines | backend/src/reports/reports.service.ts:143 | the document splits into the header and the lines |
| Reports.CsvLines | backend/src/reports/reports.service.ts:118-144 | the CSV of rows without line breaks splits into the header and one line per row |
| Reports.EffectiveOf | backend/src/reports/reports.service.ts:34 | the effective version is in the instructor's scope, and none exactly when the scope is empty |
| Reports.GenerateIndividualReport | backend/src/reports/reports.service.ts:29-38 | NotFound exactly when no user has the id; otherwise the CSV of that user's effective version's rows |
| Reports.GenerateConsolidatedReport | backend/src/reports/reports.service.ts:43-63 | the CSV of the rows of every active instructor, in order |
| Reports.ConsolidatedStep | backend/src/reports/reports.service.ts:56-60 | one loop step appends one instructor's rows |
| Reports.ConsolidatedAppend | backend/src/reports/reports.service.ts:59 | the rows of two groups of users are the rows of each, concatenated |
| Reports.ConsolidatedBlock | backend/src/reports/reports.service.ts:56-60 | instructor k's rows sit between the rows of those before and after |
| Reports.ConsolidatedCount | backend/src/reports/reports.service.ts:56-60 | every instructor contributes at least one row |
| Reports.RowOwner | backend/src/reports/reports.service.ts:72-77 | every consolidated row belongs to one of the instructors |
| ClientReport.TargetChoice | services/utils.ts:85-93 | no target exactly without versions; FINAL_MARCADA exactly for a final one, the first of theirs in list order over all periods; a fallback is a newest draft when none is final |
| ClientReport.RunRows | services/utils.ts:109-144 | one row per run |
| ClientReport.RunRowsAt | services/utils.ts:109-144 | row k is the row of run k's first and last position |
| ClientReport.IndexRuns | services/utils.ts:105-110 | a day's runs of sorted positions are non-empty |
| ClientReport.GenerateAvailabilityReport | services/utils.ts:75-152 | the report loop returns the header and each instructor's rows |
| ClientReport.InstructorRows | services/utils.ts:85-148 | one instructor's rows: those of their target's days, or the N/A row |
| ClientReport.TargetRows | services/utils.ts:95-145 | the target's rows, day by day in key order |
| ClientReport.OneDayRows | services/utils.ts:104-145 | one day's rows |
| ClientReport.WalkDay | services/utils.ts:105-144 | the start/prev walk emits exactly one row per run of consecutive positions |
| ClientReport.GroupIndices | services/utils.ts:96-102 | the grouping builds keys in first-appearance order, with each day's positions including −1 for unknown times |
| ClientReport.AllPositionsAbsent | services/utils.ts:100-101 | a day named by no slot has no positions |
| ClientReport.AllPositionsPresent | services/utils.ts:100-101 | a day named by a slot has at least one position |
| ClientReportFacts.RunRowsOf | services/utils.ts:115-137 | every run row names the user |
| ClientReportFacts.DaysRowsOf | services/utils.ts:104-145 | every row of the target's days names the user |
| ClientReportFacts.UserRowsOf | services/utils.ts:95-148 | every row of an instructor names them |
| ClientReportFacts.UsersRowOwner | services/utils.ts:79-149 | every row of a list of users names one of them |
| ClientReportFacts.InstructorRowOwner | services/utils.ts:79 | every row after the header names a user with the instructor role |
| ClientReportFacts.ReportHeaderFirst | services/utils.ts:76-77 | the report starts with the nine-column header |
| ClientReportFacts.ReportAt | services/utils.ts:77-79 | row j of the report is row j−1 of the instructors' rows |
| ClientReportFacts.NoVersionRow | services/utils.ts:146-148 | an instructor without versions gets exactly the N/A row |
| ClientReportFacts.VersionRowsCells | services/utils.ts:115-143 | every row of a target carries its period, SI/NO flag and origin, and a comment without commas |
| ClientReportFacts.CellReads | services/utils.ts:111-131 | a start cell reads back as 07:30 plus 30 minutes per position |
| ClientReportFacts.EndCellPast | services/utils.ts:113-133 | past the last grid entry the end is "23:00" |
| ClientReportFacts.EndCellText | services/utils.ts:112-113 | the end cell is the text of the half hour after the run, "23:00" included |
| ClientReportFacts.EndCellReads | services/utils.ts:112-133 | the end cell reads back as 30 minutes after the run's last position |
| ClientReportFacts.AllPositionsRange | services/utils.ts:99-101 | positions are grid indices or −1 |
| ClientReportFacts.IndexRunsPartition | services/utils.ts:104-110 | a day's runs partition its sorted positions into maximal chains |
| ClientReportFacts.RunInList | services/utils.ts:109-113 | without unknown times a run lies within the grid |
| ClientReportFacts.DayRowRead | services/utils.ts:104-144 | without unknown times, row k of a day reads as run k's start and end clock |
| ClientReportFacts.RunRowReads | services/utils.ts:111-113 | a run row's cells read as its start and the half hour after its end |
| ClientReportFacts.UnknownTimeFirst | services/utils.ts:99-101 | an unknown time sorts first, as −1 |
| ClientReportFacts.UnknownTimeRow | services/utils.ts:99-111 | then the day's first row has an empty start cell |
| Editor.Load | components/AvailabilityScheduler.tsx:60 | `new Set(slots)` holds exactly the version's slots, without repeats, in the order of their first occurrences |
| Editor.RemoveMembership | components/AvailabilityScheduler.tsx:76 | `delete` leaves exactly the other slots |
| Editor.ToggleMembership | components/AvailabilityScheduler.tsx:73-80 | a toggle flips the clicked slot's membership and no other |
| Editor.ToggleDistinct | components/AvailabilityScheduler.tsx:73-80 | a toggle keeps the selection free of repeats |
| Editor.ToggleTwice | components/AvailabilityScheduler.tsx:73-80 | toggling twice restores the set, and restores the sequence when the slot was absent |
| Scheduler.StatusRule | components/AvailabilityScheduler.tsx:42-53 | no availability exactly without versions; final marked exactly when one is final; draft otherwise |
| Scheduler.AvailabilityScheduler.constructor | components/AvailabilityScheduler.tsx:56-67 | mounting loads the final, else newest, version's slots and comment, viewing nothing |
| Scheduler.AvailabilityScheduler.ToggleSlot | components/AvailabilityScheduler.tsx:69-83 | ignored unless editable; otherwise toggles the slot and clears both messages |
| Scheduler.AvailabilityScheduler.HandleSave | components/AvailabilityScheduler.tsx:85-103 | a save request exactly when not read-only, the window is open and the client validator accepts; the closed-window or validator message otherwise |
| Scheduler.AvailabilityScheduler.HandleMarkFinal | components/AvailabilityScheduler.tsx:105-110 | the parent is called exactly when not read-only and the window is open |
| Scheduler.AvailabilityScheduler.LoadVersionToView | components/AvailabilityScheduler.tsx:112-118 | shows a version read-only, clearing both messages |
| Scheduler.AvailabilityScheduler.RestoreVersionToEditor | components/AvailabilityScheduler.tsx:120-126 | when editing is possible, copies a version into the editor and leaves view mode |
| Scheduler.AvailabilityScheduler.ResetToEditor | components/AvailabilityScheduler.tsx:128-138 | leaves view mode and reloads the final, else newest, version |
| Scheduler.EditorStart | components/AvailabilityScheduler.tsx:58-65 | the starting content is the final version's, else a newest draft's, else empty, without repeats |
| AvailabilityPage.InitialTargetRule | frontend/src/pages/instructor/AvailabilityPage.tsx:42-45 | none exactly for an empty history; a final version when there is one; else the history's first entry |
| AvailabilityPage.MarkOnly | frontend/src/pages/instructor/AvailabilityPage.tsx:122-125 | a version is final exactly when it has the marked id, and nothing else changes |
| AvailabilityPage.MarkOnlyAgrees | frontend/src/pages/instructor/AvailabilityPage.tsx:122-125 | on a one-scope history the local update equals the server's transaction |
| AvailabilityPage.MarkOnlySingle | frontend/src/pages/instructor/AvailabilityPage.tsx:122-125 | with unique ids, one final version if the id is present, none otherwise |
| AvailabilityPage.Page.constructor | frontend/src/pages/instructor/AvailabilityPage.tsx:27-46 | with a period, keeps the history and views its initial target |
| AvailabilityPage.Page.LoadVersionToEditor | frontend/src/pages/instructor/AvailabilityPage.tsx:67-76 | loads the version; view mode records its id, edit mode clears it and sets the message |
| AvailabilityPage.Page.HandleToggleSlot | frontend/src/pages/instructor/AvailabilityPage.tsx:80-92 | toggles the slot, keeping the selection free of repeats |
| AvailabilityPage.Page.HandleSave | frontend/src/pages/instructor/AvailabilityPage.tsx:94-115 | sends the selection; a created version goes first in the history and is viewed; a failure shows the server's message when it is non-empty, else "Error al guardar." |
| AvailabilityPage.Page.HandleMarkFinal | frontend/src/pages/instructor/AvailabilityPage.tsx:117-131 | accepted: only the marked id is final locally; refused: an error |
| AvailabilityPage.Page.HandleRestore | frontend/src/pages/instructor/AvailabilityPage.tsx:133-136 | loads the version for editing, which makes the page editable when the window is open |
| InstructorFilter.IncludesAt | frontend/src/pages/admin/InstructorsPage.tsx:38-40 | `includes` holds only when the part occurs at some offset |
| InstructorFilter.IncludesFrom | frontend/src/pages/admin/InstructorsPage.tsx:38-40 | and it holds whenever the part occurs |
| InstructorFilter.FilterIsOneFilter | frontend/src/pages/admin/InstructorsPage.tsx:31-52 | the search filter then the status filter is one filter by both tests |
| InstructorFilter.FilterRule | components/AdminViews.tsx:189-205 | the result keeps the list's order and holds exactly the rows matching the search, if any, and the status (the same effect as frontend/src/pages/admin/InstructorsPage.tsx:31-52) |
| InstructorFilter.NoFilterKeepsAll | frontend/src/pages/admin/InstructorsPage.tsx:32-51 | no term and ALL keep the whole list |
| InstructorFilter.DraftDisjoint | frontend/src/pages/admin/InstructorsPage.tsx:46-48 | a DRAFT row is in neither the FINAL nor the PENDING list |
| InstructorFilter.StatusCover | frontend/src/pages/admin/InstructorsPage.tsx:46-48 | every row has some status; exactly one when final implies draft; a final row without a draft is both FINAL and PENDING |
| InstructorFilter.ChartShape | components/AdminViews.tsx:58-63 | no bars without statistics; otherwise four bars holding total, final, draft and pending in that order |

## Left out

- Database access, Prisma transactions, HTTP controllers, JWT and
  authentication, and the JSX rendering are not modelled. The server's
  version table is a sequence owned by one object, and the transaction of
  `markAsFinal` is one atomic update.
- The consolidated report's query orders instructors by name. The model
  takes the users in the order given and keeps the active instructors
  (`ListedInstructor`); the name ordering is not modelled.
- Dates and timestamps are integers. `Date.now()` ids and `new Date()` are
  parameters.
- The server's decimal-hour arithmetic in `timeToIndex` is done in whole
  minutes: index k is offset 30·k. The two agree exactly when the minutes
  are a multiple of 15 (every grid time the clients send is). For other
  minutes the source's floating-point indices carry rounding errors that
  the model does not reproduce.
- TimeGrid.OffsetRoundTrip: holds for the source only for minutes that are a
  multiple of 15. For 07:40, `indexToTime` yields a fractional minute
  (40.000000000000014), so the text does not come back.
- SlotValidation.ValidateTimeSlots: for times whose minutes are not a
  multiple of 15, the model works in exact minutes. The source's `===`
  test on rounded indices can split a run the model sees as continuous.
  For example, Lunes 07:40, 08:10, 08:40 and 09:10 form one run in the
  model, but the source splits them into isolated blocks and rejects them.
  The model does not capture this rejection.
- SlotValidation.ValidIff: states the whole-minute rule. It matches the
  source only for times whose minutes are multiples of 15, as in the
  previous line.
- `parseInt` and `Number` on malformed text are not modelled. Slots are
  the datatype `Slot(day, Clock(hour, minute))`, not `day-HH:MM` strings
  split at run time. A day containing `-` therefore cannot be expressed.
- `Object.keys` puts integer-like keys before the others. The model keeps
  first-appearance order, which agrees for day names that are not numbers.
- The client report does not filter versions by period. The model follows
  this; a version of any period can be reported.
- No CSV escaping exists in the source, and none is modelled. The
  read-back lemmas (`Reports.RowColumns`, `Reports.CsvLines`) assume fields
  without commas, quotes or line breaks.
- The SIN DISPONIBILIDAD row keeps the raw comment, line breaks included.
  The model keeps it too. `Reports.CsvLines` therefore requires rows
  without line breaks.
- `downloadCSV`, `handleDownloadPersonal`, `window.scrollTo` and the DOM are
  left out. They are I/O on a table the model already produces.
- The `setTimeout` that clears messages after three seconds is left out.
- The page's fetch errors during initialisation are left out. These are
  the 404 and connection messages of `AvailabilityPage`.
- `toLowerCase` is a function parameter of the instructor filter, since its
  Unicode rules are not modelled.
- `AvailabilityPage.Page.HandleToggleSlot`: the source toggles
  unconditionally. The grid component is read-only in view mode, and that
  component is not part of this model.
- The DTO's `@ArrayMinSize` and other class-validator decorators are not
  part of this model. Create accepts any list, as the service does.
- `AvailabilityStore.AvailabilityService.Create` stores versions with the
  next integer id instead of a database-generated id string.
