# Specialist-teacher timetable: a Dafny model

The application distributes the lessons of specialist teachers (교담 교사)
over the cells of a school timetable. A cell is a slot: a day of the week
(월 to 금), a period (1 to 7), optionally a grade and a class number. The
user marks which slots are open for specialist teaching ("available") and
lists the teachers. The assignment engine then fills the available slots.
It first asks an external optimizer; when that call fails, it runs a
deterministic greedy fallback. The screen merges the resulting map (slot key
to teacher id) back into the slots.

This project models:

- the domain types and the fixed day and period orders (`types.dfy`);
- the string keys the engine and the screen build with template literals
  (`keys.dfy`);
- the engine: the available-slot key list, the optimizer as an oracle that
  either replies or fails, and the greedy fallback (`engine.dfy`);
- the screen's state transitions: the initial grid, toggling a cell,
  adding and removing a teacher, clearing assignments, and the auto-assign
  handler with its pre-check and merge (`app.dfy`).

The fallback is modelled in two forms:

- `Engine.Fallback` specifies the result as a fold over the week, day-major.
  It walks the days in order, then the periods in order, then the available
  slots of each (day, period) in input order.
- `Engine.GreedyFallback` keeps the source's nested loops. It updates
  `distribution` and `teacherWorkload` in place and keeps a per-period busy
  set. It is proved equal to that fold. The zero-initialisation, day and
  period loops are its own; the slot loop of one (day, period) is the
  separate method `AssignAvailable`.

Four properties are proved of every fallback result:

- only available slots are keyed;
- each assignment goes to an eligible teacher;
- no teacher exceeds its weekly total (for distinct ids);
- no teacher is booked twice in one (day, period).

The fallback is also proved maximal when slot keys are unique
(`completeness.dfy`). Suppose an available slot of the week is left empty.
Then every teacher eligible for it either has its full weekly total already,
or holds another slot of the same (day, period).

For the screen, `App.WellFormed` collects the invariants a timetable keeps:

- teacher ids are unique;
- slot keys are unique;
- only available slots hold a teacher;
- every held id belongs to a listed teacher;
- no teacher holds two slots of one (day, period).

The blank initial grid satisfies `WellFormed`. Toggling, adding, removing
and clearing are each proved to preserve it. So is auto-assign when the
fallback runs: the merge as written leaves every cell unassigned. The
optimizer's reply is not validated, so nothing is claimed for that path.

Some fields of `Teacher` and `Slot` are declared in types.ts and others are
read by the engine. `Teacher` carries both the declared field (`weeklyHours`,
summed by the screen's pre-check) and the fields the engine reads
(`totalWeeklyHours`, `targetGrades`). `Slot` carries the optional `grade` and
`classNumber` that the engine reads. When a field is absent it renders as
`undefined` in keys, and `includes(undefined)` finds nothing.

## Model

| member | source | states |
|---|---|---|
| Types.DaysEnumerateDay | types.ts:2-3 | `DAYS` has five distinct entries, contains every `Day`, and runs from 월 to 금 |
| Types.PeriodsAscending | types.ts:4 | `PERIODS` is 1..7, strictly increasing |
| Types.DayName | types.ts:2 | each day's name is a single character, never a dash |
| Types.DayMajor | services/geminiService.ts:52-53 | the times of the given days number seven per day and are exactly the pairs (day in the list, period in `PERIODS`) |
| Types.DayMajorOrder | services/geminiService.ts:52-53 | position i of the walk is day i / 7 and period i % 7: days in list order, periods ascending within a day |
| Types.DayMajorDistinct | services/geminiService.ts:52-53 | walking distinct days visits no (day, period) twice |
| Types.WeekEnumeratesTimes | services/geminiService.ts:52-53 | the week walk has 35 times, each (day, period) exactly once |
| Keys.SlotKey | services/geminiService.ts:60 | the engine's key is grade and class, each followed by a dash, then the grid's key of the slot's time |
| Keys.SlotKeyEndsWithCellKey | services/geminiService.ts:60 | the grid's key is exactly the tail of the slot key, after the rendered grade, its dash, and the rendered class |
| Keys.CellKey | App.tsx:64 | the grid's key `${day}-${period}`: at least three characters, the second a dash |
| Keys.CellKeyInjective | App.tsx:64 | two cell keys are equal exactly when day and period are |
| Keys.NatStr | services/geminiService.ts:60 | a period renders as a non-empty string of decimal digits |
| Keys.NatStrInjective | services/geminiService.ts:60 | different numbers render differently |
| Keys.RenderInjective | services/geminiService.ts:60 | absent and present grades or classes render differently, and present ones render injectively |
| Keys.DayNameInjective | types.ts:2 | different days have different names |
| Keys.SlotKeyInjective | services/geminiService.ts:13 | two slots share a key exactly when grade, class, day and period agree |
| Keys.SlotKeyIsNeverCellKey | App.tsx:64 | no engine key `grade-class-day-period` equals a grid key `day-period` |
| Engine.EligibleIsIncludes | services/geminiService.ts:62 | true exactly when some entry of the target grades equals the slot's grade; never for an absent grade |
| Engine.QualifiesNeedsRoom | services/geminiService.ts:62-64 | a qualifying teacher is eligible and not busy this period; a teacher without a workload entry or at its weekly total never qualifies |
| Engine.FindTeacher | services/geminiService.ts:61-65 | the result is the first teacher in input order that is eligible, under its total and not busy; every earlier teacher fails a condition; None means nobody qualifies |
| Engine.FindFrom | services/geminiService.ts:61-65 | the same search started at a given position |
| Engine.AvailableAt | services/geminiService.ts:57 | the filtered slots are exactly the available ones of that (day, period) |
| Engine.AvailableAtKeepsOrder | services/geminiService.ts:57 | filtering a concatenation concatenates the filtered parts, so the filter keeps input order and multiplicity |
| Engine.AvailableAtDistinct | services/geminiService.ts:57 | with unique slot keys the filtered group has no repeated slot |
| Engine.AssignSlotRecordsMatch | services/geminiService.ts:61-71 | if the busy set is unchanged then nothing changed and no teacher qualified; otherwise a qualifying teacher was made busy, recorded under the slot key, and its workload raised by one |
| Engine.Fallback | services/geminiService.ts:47-75 | the day-major fold over the week: every key it holds is an available slot's, every assigned grade is targeted by a listed teacher with that id, and no teacher is booked twice at one time |
| Engine.ZeroWorkload | services/geminiService.ts:50 | the workload map has exactly the teacher ids as keys, all at 0 |
| Engine.AvailableSlotKeys | services/geminiService.ts:11-13 | a key is listed exactly when some available slot has it, and there are no more keys than slots |
| Engine.AssignSlotKeepsRecords | services/geminiService.ts:67-70 | recording a match keeps every key an available slot's key and every assignment eligible |
| Engine.AssignSlotKeepsQuota | services/geminiService.ts:61-69 | recording a match raises the count of that teacher's keys by at most the one added to its workload, so workload stays within the quota for distinct ids |
| Engine.AssignSlotKeepsSchedule | services/geminiService.ts:54-70 | recording a match keeps the no-double-booking rule, because the busy set covers everyone recorded at this time |
| Engine.AssignSlotsKeep | services/geminiService.ts:59-72 | the slot loop over one time preserves all of the fallback's invariants |
| Engine.InitialTallySound | services/geminiService.ts:48-50 | the empty distribution with zero workloads satisfies the invariants |
| Engine.AssignTimesKeep | services/geminiService.ts:52-74 | walking any list of distinct times preserves the invariants and records only slots of walked times |
| Engine.FallbackSound | services/geminiService.ts:47-75 | the fallback's final records satisfy all invariants |
| Engine.FallbackSkipsUnavailableSlots | services/geminiService.ts:57 | with unique slot keys, an unavailable slot's key is never in the result |
| Engine.FallbackRespectsQuota | services/geminiService.ts:50-69 | with distinct ids, no teacher gets more keys than its weekly total |
| Engine.TeacherWithoutGradesIsNeverAssigned | services/geminiService.ts:62-71 | a teacher with no target grades never appears as a value |
| Engine.NoEligibleTeacherMeansEmpty | services/geminiService.ts:67-71 | when nobody is eligible for any available slot, the result is empty rather than an error |
| Engine.AssignAvailable | services/geminiService.ts:54-72 | the innermost loop with a fresh busy set yields the slot-loop fold over that time's available slots |
| Engine.GreedyFallback | services/geminiService.ts:47-75 | the nested loops compute exactly the day-major fold, and the result keeps the four properties above |
| Engine.AutoGenerateSchedule | services/geminiService.ts:39-75 | a reply is returned unchecked; on failure the result is the fallback's, with available keys only and no double booking |
| App.Blanks | App.tsx:9-17 | one blank cell per given time, in order: unavailable, unassigned, no grade or class |
| App.InitialSlots | App.tsx:9-17 | the nested `forEach` builds exactly the blank week, cell by cell in day-major order |
| App.InitialGridCoversWeek | App.tsx:9-17 | the initial grid has 35 cells, each (day, period) exactly once, all unavailable and unassigned |
| App.InitialGridWellFormed | App.tsx:8-17 | the initial state (no teachers, blank grid) is well formed |
| App.ToggleSlotAvailability | App.tsx:24-30 | cells at (d, p) flip availability and lose their teacher; all other cells are unchanged, and keys and times are kept |
| App.ToggleTwice | App.tsx:24-30 | toggling twice restores availability and only clears those cells' assignment; with nothing assigned there it is the identity |
| App.ToggleKeepsWellFormed | App.tsx:24-30 | toggling keeps the timetable well formed |
| App.AddTeacher | App.tsx:32-44 | with an empty name or subject nothing changes; otherwise exactly one teacher with the form's fields and the fresh id is appended, the old list is a prefix, and the form resets to ('', '', 1) |
| App.AddTeacherKeepsWellFormed | App.tsx:32-44 | adding under an unused id keeps the timetable well formed and raises the required hours by the form's hours |
| App.WithoutTeacher | App.tsx:47 | the survivors are exactly the teachers whose id differs |
| App.WithoutTeacherKeepsOrder | App.tsx:47 | filtering a concatenation concatenates the filtered parts, so survivors keep their order |
| App.WithoutAbsentTeacher | App.tsx:47 | removing an id nobody has changes nothing |
| App.WithoutTeacherKeepsUniqueIds | App.tsx:47 | filtering keeps ids unique |
| App.RemoveTeacher | App.tsx:46-49 | the id is gone from the list, the others stay; exactly the slots that held it are unassigned, and every other slot is unchanged |
| App.RemoveTeacherKeepsWellFormed | App.tsx:46-49 | removing a teacher keeps the timetable well formed |
| App.ResetAssignments | App.tsx:72-74 | every slot is unassigned, with availability, key and length kept |
| App.ResetIsIdempotent | App.tsx:72-74 | clearing twice equals clearing once, keeps the available count, and keeps the timetable well formed |
| App.TotalRequiredHours | App.tsx:52 | the sum of `weeklyHours`: non-negative when every entry is, non-positive when every entry is |
| App.AvailableSlotCount | App.tsx:53 | the number of available slots: at most the number of slots, and zero exactly when none is available |
| App.AvailableSlotCountIsKeyCount | App.tsx:53 | the pre-check's available count equals the number of keys the engine offers |
| App.Lookup | App.tsx:65 | the lookup-or-null gives the id exactly when the key is present with a non-empty id |
| App.MergeByCellKey | App.tsx:63-66 | as written: each slot takes the lookup under `day-period`, and no other field changes |
| App.MergeBySlotKey | App.tsx:63-66 | the merge under the engine's key: each slot takes the lookup under its slot key, and no other field changes |
| App.CellKeyMergeClearsSlotKeyedMaps | App.tsx:63-66 | merging by cell key any map keyed by slot keys unassigns every slot |
| App.CellKeyMergeClearsFallback | App.tsx:62-66 | merging the fallback's result by cell key unassigns every slot |
| App.CellKeyMergeLosesAssignment | App.tsx:63-66 | on one cell of the screen's own shape, an assignment under the engine's key is dropped by the as-written merge and kept by the slot-key merge |
| App.GradelessGridFallbackIsEmpty | App.tsx:13 | on cells without a grade, as the screen builds them, the fallback assigns nothing |
| App.CellKeyMergeOfFallbackWellFormed | App.tsx:62-66 | merging the fallback's result as written keeps the timetable well formed |
| App.SlotKeyMergeOfSoundWellFormed | App.tsx:63-66 | merging by slot key any assignment that keys only available slots, respects eligibility and books nobody twice at one time keeps the timetable well formed |
| App.SlotKeyMergeOfFallbackWellFormed | App.tsx:62-66 | merging the fallback's result by slot key gives each slot the teacher chosen for it and keeps the timetable well formed |
| App.HandleAutoAssign | App.tsx:51-70 | as written: if required hours exceed available slots, the slots are unchanged; otherwise the reply, or the fallback's result, is merged under the cell key; after the fallback every cell is unassigned and a well-formed timetable stays well formed |
| App.HandleAutoAssignBySlotKey | App.tsx:51-70 | the handler with the merge under the slot key: the same pre-check, the reply or the fallback's result merged under each cell's slot key, and a well-formed timetable stays well formed after the fallback |
| FallbackCompleteness.RecordKeepsMaximal | services/geminiService.ts:67-70 | recording a fresh key for the slot just walked keeps every other walked empty slot explained, since bookings and key counts only grow |
| FallbackCompleteness.RecordKeepsComplete | services/geminiService.ts:67-70 | a match records a fresh key, raises that teacher's count by exactly one, and keeps every walked empty slot explained |
| FallbackCompleteness.PassKeepsComplete | services/geminiService.ts:61-67 | a slot nobody qualifies for is explained: each eligible teacher is at its total or busy this period |
| FallbackCompleteness.GroupKeepsComplete | services/geminiService.ts:54-72 | the slot loop over one (day, period) keeps workloads equal to key counts, busy teachers booked, and empty slots explained |
| FallbackCompleteness.TimesKeepSettled | services/geminiService.ts:52-74 | walking distinct times keeps every empty walked slot explained |
| FallbackCompleteness.FallbackIsMaximal | services/geminiService.ts:47-75 | with unique slot keys, an available slot of the week left unassigned has each eligible teacher at its weekly total or booked in another slot of that (day, period) |

## Left out

- The optimizer call is modelled only as an oracle: its prompt text, the Gemini client, the API key and `JSON.parse` of its reply are left out. `AutoGenerateSchedule` takes the parsed reply, or None for a failed call. No property is claimed of a reply, since the source checks none.
- services/googleSheetsService.ts is not part of this model (network I/O against foreign APIs).
- The screen's rendering is left out: JSX, `window.print`, `alert`, the `isGenerating` flag, the async and `finally` sequencing, `getTeacher`, the progress bar's floating-point percentage and the `parseInt` of the hours field.
- `crypto.randomUUID` is left out; `AddTeacher` takes the fresh id as a parameter. `AddTeacherKeepsWellFormed` assumes the id is unused.
- AddTeacher: the source's handler sets neither `targetGrades` nor `totalWeeklyHours`, which the engine reads; the model takes both as parameters. Left undefined, `targetGrades.includes` would throw inside the fallback whenever an available slot exists; that exception path is not modelled.
- HandleAutoAssign and HandleAutoAssignBySlotKey: a well-formed result is claimed only for the fallback, because the source does not validate the optimizer's reply.
- Numbers are unbounded integers; JavaScript's double-precision arithmetic on hours and counters is not modelled.
- FallbackRespectsQuota and TeacherWithoutGradesIsNeverAssigned: these hold only when teacher ids are distinct. With a shared id, the teachers share one workload counter and one set of keys.
- FallbackSkipsUnavailableSlots: holds only when slot keys are distinct, since an available slot with the same key could be recorded.
- FallbackIsMaximal: holds only when slot keys are distinct. A repeated key can overwrite a recorded entry, and then a teacher's workload outruns the keys it holds.
- A teacher without a workload entry compares as `undefined < n` (false) in the source; the model reads that as not qualifying. The zero-initialisation makes this case unreachable.

## Findings

| source | as written | input that shows it | evidently intended | confidence | as-written member | corrected member |
|---|---|---|---|---|---|---|
| App.tsx:64 | the merge looks up each slot under `${day}-${period}`, but the engine and the optimizer key the map by `${grade}-${classNumber}-${day}-${period}` (services/geminiService.ts:13,60) | one available cell of the screen's shape (no grade or class, 월 1) and a reply `{"undefined-undefined-월-1": "t1"}` in the requested format: the cell ends up unassigned | look up each slot under the engine's own slot key | not executed | App.CellKeyMergeLosesAssignment | App.HandleAutoAssignBySlotKey |
