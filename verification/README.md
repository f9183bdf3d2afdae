# Smart timetable: the study-tracker core in Dafny

The smart timetable is a single-user exam planner. It keeps an ordered list of
exams, each with a subject, an exam date, daily study hours and a number of
syllabus units. It also keeps a progress entry per exam id: the completed unit
numbers and the date of the last update. On that data it offers five things:

- a countdown of the days left to each exam;
- a daily suggestion for each exam still ahead: the unit to study and the unit
  to revise;
- progress tracking, where the user types "all" or a comma-separated unit list;
- a completion percentage;
- a CSV report with one row per exam.

This project models that computation as pure functions. "Today" is a
parameter. The two stores are an in-memory `seq<Exam>` and a
`map<string, Progress>`.

Modules (one file each):

- `Calendar` (calendar.dfy): proleptic Gregorian dates. `Ordinal` is Python's
  `date.toordinal` closed form and `DaysLeft` is the countdown. Both are
  proved against year-by-year and month-by-month reference sums and against
  field-by-field calendar order. `NextDay` and `AddDays` complete the
  countdown.
- `IsoDates` (isodates.dfy): "YYYY-MM-DD" text, written and read back. This
  is the format of `created_at`, `last_updated` and the report file name.
- `Text` (text.dfy): `str.split(',')` and its inverse, join.
- `Units` (units.dfy): the unit-list logic:
  - the next unit to study, the unit to revise and the pacing figure;
  - the all-or-nothing parse and the merge loop;
  - de-duplication and the "all" reset.
- `Tracker` (tracker.dfy): the exam and progress stores, plus:
  - adding an exam and the countdown;
  - the daily suggestion and progress tracking;
  - the percentages and the store invariants the operations keep.
- `Export` (export.dfy): the report rows and the report file name.
- `Scenarios` (scenarios.dfy): concrete cases of the marking and suggestion
  rules.
- `Wrappers` (wrappers.dfy): `Option`.

Three facts about the program shape the model:

- `total_units` is never checked to be positive (app.py:42): `int()` accepts
  0 and negative numbers, so `totalUnits` is an unconstrained `int`.
- The CSV report guards a zero total (app.py:245), but the completion shown
  after an update (app.py:202) does not; see Findings.
- Exam ids come from a timestamp with one-second resolution (app.py:45), so
  two exams added in the same second collide. Here the caller supplies the
  id, and the store lemmas assume it is fresh.

## Model

| member | source | states |
|---|---|---|
| Calendar.DaysInMonth | app.py:36-39 | the month lengths that date parsing accepts: February has 29 days exactly in leap years, April, June, September and November have 30, the rest 31 |
| Calendar.Valid | app.py:36-39 | an accepted date has a year in 1..9999, a month in 1..12 and a day in 1..31; within those ranges every day 1..28 is accepted, and days 29 and 30 of every month but February. 29 February is accepted exactly in leap years, 30 and 31 February never. The 31st is accepted exactly in January, March, May, July, August, October and December |
| Calendar.Ordinal | app.py:67-69 | a valid date's day number is at least 1 and falls inside its own year's span of day numbers |
| Calendar.DaysBeforeYearIsSum | app.py:65-69 | the closed form y*365 + y//4 - y//100 + y//400 counts exactly the days of all earlier years, each 365 or 366 by the leap-year rule |
| Calendar.DaysBeforeMonthIsSum | app.py:65-69 | the cumulative month table plus the leap day counts exactly the days of the earlier months of the year |
| Calendar.OrdinalOrder | app.py:65-69 | one valid date is before another in calendar order exactly when its ordinal is smaller; two dates are equal exactly when their ordinals are equal |
| Calendar.DaysLeft | app.py:65-69 | days left is positive exactly when the exam date is after today, zero exactly when it is today, negative exactly when it has passed |
| Calendar.NextDay | app.py:65-69 | the next calendar day is valid, comes later in calendar order, and has an ordinal one greater |
| Calendar.AddDays | app.py:65-69 | the date n days later is valid; the days left from it back to the start is n, and from the start to it is -n |
| IsoDates.ParseIso | app.py:36-39 | a "YYYY-MM-DD" text that is accepted always names a valid date |
| IsoDates.IsoFormat | app.py:50 | the ISO text of a valid date is ten characters: digits everywhere except dashes at positions 4 and 7 |
| IsoDates.ParseIsoFormat | app.py:50 | the ISO text written for any valid date reads back as that same date |
| IsoDates.FormatParseIso | app.py:36-39 | an accepted text is exactly the ISO text of the date it names, so no two accepted texts name one date |
| Text.Split | app.py:186 | splitting on ',' gives at least one piece, no piece contains ',', and joining the pieces with ',' restores the input |
| Text.SplitJoin | app.py:186 | splitting the join of comma-free pieces gives the pieces back |
| Units.AllUnits | app.py:183 | "all" yields every unit 1..total exactly once and nothing outside that range; it is empty when total < 1 |
| Units.NextUnitFrom | app.py:124-128 | the scan from unit `from` yields the first unit not completed; if every unit from there to total is completed it yields the initial value 1 |
| Units.NextUnit | app.py:124-128 | the next unit is the least unit of 1..total not completed, or 1 when none is left; it is at least 1, and at most total when total >= 1 |
| Units.ReviewUnit | app.py:132 | the review unit is at least 1 and at most the next unit; it is the unit just before the next one, or unit 1 when the next is 1 or 2 |
| Units.UnitsPerDay | app.py:121 | the pacing figure is at least 1; when total >= d it is the floor of total/d, where d is days left but at least 1; otherwise it is 1 |
| Units.MergeUnits | app.py:187-189 | the merge keeps the old list as a prefix and appends only units in 1..total; the result holds exactly the old units plus the in-range new units; a repeat-free list stays repeat-free |
| Units.Dedup | app.py:194 | de-duplication keeps exactly the same units and has no repeats; it is never longer than its input, and a repeat-free list keeps its length |
| Units.ParseAll | app.py:185-191 | the list parses exactly when every token parses, and then the values are the tokens' values in order |
| Units.MarkUnits | app.py:180-191 | "all" gives exactly 1..total. Other input is rejected exactly when some comma token fails to parse, and then the list is unchanged. Otherwise the result holds exactly the prior units plus the parsed tokens in 1..total. The prior list is never shortened except by "all" |
| Units.CompletedCountBound | app.py:188-194 | a repeat-free list of units within 1..total has at most total entries |
| Tracker.ProgressOf | app.py:117 | a stored entry is read as it is; a missing one reads as no completed units and no update date, so an entry with units or a date must be stored |
| Tracker.AddExam | app.py:44-61 | the new store is the old store with one record appended at the end; the record carries the given fields and today as its creation date |
| Tracker.AddExamKeepsStoresOk | app.py:44-61 | adding an exam with a fresh id keeps dates valid and ids unique; it leaves every progress entry consistent; the new exam starts with no progress |
| Tracker.CountdownOf | app.py:85-92 | the countdown line shows the ordinal difference and is flagged as passed exactly when the exam date is not after today; days left is 0 exactly on the exam day |
| Tracker.Countdown | app.py:84-92 | one countdown line per exam, in store order |
| Tracker.Suggest | app.py:112-134 | a suggestion exists exactly when the exam date is after today. It studies the least uncompleted unit and revises a unit between 1 and that one. Pacing is at least 1, hours pass through, and a missing progress entry counts as zero units |
| Tracker.DailyPlan | app.py:112-115 | the plan is no longer than the exam list; every entry is the suggestion of some exam; every exam still ahead has its suggestion in the plan |
| Tracker.Selected | app.py:154-156 | a 1-based menu number selects an exam exactly when it lies in 1..number of exams, and then it selects that exam |
| Tracker.TrackProgress | app.py:153-195 | a non-numeric or out-of-range selection leaves the store unchanged. Otherwise the chosen exam's entry exists afterwards, stamped today even when the input was rejected. Its units are repeat-free and exactly those `MarkUnits` gives from the prior entry. Every other entry is unchanged |
| Tracker.TrackKeepsProgressOk | app.py:162-195 | with unique ids, tracking keeps every exam's progress entry repeat-free and within that exam's unit range |
| Tracker.TrackedCountMatchesStore | app.py:194-204 | on a consistent store, the count shown after an update equals the number of units stored; the guarded completion lies in 0..100, and so does the unguarded one shown at app.py:202 whenever the total is positive |
| Tracker.CompletionPercent | app.py:202 | for a positive total, the percentage times total is count*100; it lies in 0..100 when 0 <= count <= total, and is 100 exactly when count equals total |
| Tracker.ShownPercentAsWritten | app.py:202 | the unguarded division fails exactly when total is 0; otherwise it satisfies percentage*total = count*100 |
| Tracker.ReportPercent | app.py:245 | the guarded percentage satisfies percentage*total = count*100 for a positive total and is 0 otherwise; it lies in 0..100 for a count within range |
| Tracker.ZeroUnitExamFailsAfterSave | app.py:194-202 | for an exam with zero units, tracking stores the stamped entry, and then the unguarded percentage fails while the guarded one is 0 |
| Export.RowOf | app.py:235-247 | a report row carries the subject, date, ordinal countdown, total and hours. Its completed count is the stored list's length, or 0 with percentage 0 when no entry exists. Its percentage is the guarded share |
| Export.ExportRows | app.py:234-247 | one report row per exam, in store order |
| Export.ReportFileName | app.py:225 | the file name is "study_plan_" + the ten-character date + ".csv", and that date text reads back as today |
| Export.ReportPercentInRange | app.py:245 | on consistent stores every reported percentage lies in 0..100 |
| Scenarios.MarkAllScenario | app.py:182-183 | "all" on an empty list with 5 units gives [1..5], and "all" replaces a previous list |
| Scenarios.MergeScenario | app.py:185-189 | prior [2] and input "1,3,9,3" with 5 units give [2,1,3]: out-of-range and repeated units are skipped |
| Scenarios.RejectScenario | app.py:185-191 | prior [2] and input "1,3,x" give [2] unchanged, flagged as rejected: the all-or-nothing policy |
| Scenarios.SuggestionScenario | app.py:121-132 | units 1,2 of 10 done gives study 3 and revise 2; all done gives study 1 and revise 1; pacing 10 units over 5 days is 2 |

## Left out

- The menu loop, prompts and console text (app.py:252-284): interactive UI
  with no computation.
- JSON reading and writing, the bootstrapping of the data directory
  (app.py:13-23) and CSV file writing (app.py:227-232): file I/O. The stores
  are in-memory values; the report is its rows, header and file name. With
  no exams the program writes no report and names no file (app.py:221-223);
  in the model `ExportRows` is then empty while `ReportFileName` still gives
  a name.
- `date.today()` and `datetime.now()`: today is a parameter. The
  timestamp-derived exam id (app.py:45) is an opaque string chosen by the
  caller.
- The lexical rules of `int()`, `float()` and `strptime("%Y-%m-%d")`:
  whitespace, signs, one-digit fields, and `strip().lower()` on the unit
  input.
  - Each unit token is read by a caller-supplied function
    `string -> Option<int>`.
  - The unit input arrives already stripped and lower-cased.
  - A date arrives as a (year, month, day) triple checked by `Valid`.
  - `IsoDates.ParseIso` accepts only the canonical zero-padded form.
- Tracker.Exam: the stored exam date is the text the user typed, which the
  source re-parses on every use. The model stores the parsed date.
- A crash on a non-numeric daily-hours or unit-count answer (app.py:41-42):
  nothing is stored in that case, so `AddExam` takes the values already read.
- Floating point: `daily_hours` and the percentages are Dafny `real`. The
  `:.1f` rounding of the shown percentage (app.py:204) is not modelled.
- The sorted listing of completed units (app.py:173-174): display only.
- Concurrent access and lost updates under whole-file rewrites: the model is
  single-threaded, as the program is.
- Units.Dedup: Python leaves the order of `list(set(...))` unspecified. The
  definition keeps first occurrences, but the contract promises only the
  contents, the absence of repeats and the length, not any order.
- Tracker.DailyPlan: the contract states that every entry is some exam's
  suggestion and that every exam still ahead is covered. It does not state
  that the plan follows store order, nor that each exam still ahead appears
  once, although the definition gives both.
- Scenarios.MergeScenario: the digits-only `ParseDigits` stands in for
  `int()` on the tokens used.

## Findings

| source | as written | input that shows it | evidently intended | confidence | as-written member | corrected member |
|---|---|---|---|---|---|---|
| app.py:202 | the completion after an update divides by `total_units` without a guard; the resulting ZeroDivisionError is not among the caught exceptions and is raised after the progress file was saved | an exam added with 0 units, then "Track Progress" with input "all" | the same guard as the report (app.py:245): 0 when the total is 0 | medium; not executed | Tracker.ShownPercentAsWritten, Tracker.ZeroUnitExamFailsAfterSave | Tracker.ReportPercent |
