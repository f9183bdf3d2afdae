/** The study tracker: the exam store (an ordered list), the progress store
    (a mapping from exam id to completion state) and the operations of the
    planner on them, with "today" passed in by the caller. */
module Tracker {
  import opened Wrappers
  import opened Calendar
  import opened Units

  /** One exam record. The id is whatever the caller chose (the program
      stamps the creation time, app.py:45); the date is kept as a checked
      calendar date. */
  datatype Exam = Exam(
    id: string,
    subject: string,
    examDate: Date,
    dailyHours: real,
    totalUnits: int,
    createdAt: Date)

  /** The progress entry of one exam: the completed unit numbers as stored
      (a list) and the date of the last update, if any. */
  datatype Progress = Progress(completedUnits: seq<int>, lastUpdated: Option<Date>)

  type ExamStore = seq<Exam>

  type ProgressStore = map<string, Progress>

  /** The entry an exam without progress is read as. */
  const NoProgress: Progress := Progress([], None)

  /** `progress.get(exam_id, {})`, reading a missing entry as no progress. */
  function ProgressOf(store: ProgressStore, id: string): (p: Progress)
    ensures id in store ==> p == store[id]
    ensures id !in store ==> p.completedUnits == [] && p.lastUpdated.None?
    ensures p.completedUnits != [] || p.lastUpdated.Some? ==> id in store
  {
    if id in store then store[id] else NoProgress
  }

  // ---------------------------------------------------------------------
  // Store invariants

  predicate DatesValid(exams: ExamStore) {
    forall i :: 0 <= i < |exams| ==> Valid(exams[i].examDate)
  }

  predicate UniqueIds(exams: ExamStore) {
    forall i, j :: 0 <= i < j < |exams| ==> exams[i].id != exams[j].id
  }

  predicate ExamStoreOk(exams: ExamStore) {
    DatesValid(exams) && UniqueIds(exams)
  }

  /** A progress entry lists each unit at most once, all within 1..total. */
  predicate EntryOk(p: Progress, total: int) {
    NoDup(p.completedUnits) && WithinUnits(p.completedUnits, total)
  }

  /** Every exam's entry, where there is one, fits that exam. Entries of
      ids no exam has are inert and unconstrained. */
  predicate ProgressOk(exams: ExamStore, store: ProgressStore) {
    forall i :: 0 <= i < |exams| && exams[i].id in store ==>
      EntryOk(store[exams[i].id], exams[i].totalUnits)
  }

  // ---------------------------------------------------------------------
  // Adding an exam

  /** The record `add_exam` builds, stamped with today's date. */
  function NewExam(id: string, subject: string, examDate: Date, dailyHours: real,
                   totalUnits: int, today: Date): Exam {
    Exam(id, subject, examDate, dailyHours, totalUnits, today)
  }

  /** Appends a new exam at the end of the store. The date prompt repeats
      until the date parses, so the date reaching the record is valid. */
  function AddExam(exams: ExamStore, id: string, subject: string, examDate: Date,
                   dailyHours: real, totalUnits: int, today: Date): (r: ExamStore)
    requires Valid(examDate)
    ensures |r| == |exams| + 1
    ensures r[..|exams|] == exams
    ensures r[|exams|] == NewExam(id, subject, examDate, dailyHours, totalUnits, today)
  {
    exams + [NewExam(id, subject, examDate, dailyHours, totalUnits, today)]
  }

  /** Adding an exam with a fresh id keeps both stores consistent, and the
      new exam starts with no progress. */
  lemma AddExamKeepsStoresOk(exams: ExamStore, store: ProgressStore, id: string,
                             subject: string, examDate: Date, dailyHours: real,
                             totalUnits: int, today: Date)
    requires ExamStoreOk(exams) && ProgressOk(exams, store)
    requires Valid(examDate)
    requires forall i :: 0 <= i < |exams| ==> exams[i].id != id
    requires id !in store
    ensures var r := AddExam(exams, id, subject, examDate, dailyHours, totalUnits, today);
      && ExamStoreOk(r)
      && ProgressOk(r, store)
      && ProgressOf(store, r[|exams|].id) == NoProgress
  {
    var r := AddExam(exams, id, subject, examDate, dailyHours, totalUnits, today);
    assert forall i :: 0 <= i < |exams| ==> r[i] == exams[i];
  }

  // ---------------------------------------------------------------------
  // Countdown

  datatype CountdownLine = CountdownLine(
    subject: string,
    daysLeft: int,
    examDate: Date,
    dailyHours: real,
    passed: bool)

  /** The countdown line of one exam; it is flagged as passed when the
      countdown is not positive, which is exactly when its date is not after
      today. */
  function CountdownOf(e: Exam, today: Date): (line: CountdownLine)
    requires Valid(e.examDate) && Valid(today)
    ensures line.subject == e.subject && line.examDate == e.examDate
    ensures line.dailyHours == e.dailyHours
    ensures line.daysLeft == Ordinal(e.examDate) - Ordinal(today)
    ensures line.passed <==> !Before(today, e.examDate)
    ensures line.daysLeft == 0 <==> e.examDate == today
  {
    var d := DaysLeft(e.examDate, today);
    CountdownLine(e.subject, d, e.examDate, e.dailyHours, d <= 0)
  }

  /** One countdown line per exam, in store order. */
  function Countdown(exams: ExamStore, today: Date): (lines: seq<CountdownLine>)
    requires DatesValid(exams) && Valid(today)
    ensures |lines| == |exams|
    ensures forall i :: 0 <= i < |exams| ==> lines[i] == CountdownOf(exams[i], today)
  {
    seq(|exams|, i requires 0 <= i < |exams| => CountdownOf(exams[i], today))
  }

  // ---------------------------------------------------------------------
  // Daily suggestion

  /** One exam's line of the daily plan. The pacing figure `unitsPerDay` is
      computed by the program (app.py:121) but never printed (app.py:130-134):
      it is kept here so that its computation can be stated. */
  datatype Suggestion = Suggestion(
    subject: string,
    studyUnit: int,
    reviewUnit: int,
    studyHours: real,
    completedCount: nat,
    totalUnits: int,
    unitsPerDay: int)

  /** Today's plan for one exam: none unless the exam is still ahead;
      otherwise study the first unit not yet completed and revise the one
      before it. */
  function Suggest(exam: Exam, store: ProgressStore, today: Date): (r: Option<Suggestion>)
    requires Valid(exam.examDate) && Valid(today)
    ensures r.Some? <==> Before(today, exam.examDate)
    ensures r.Some? ==>
      var completed := ProgressOf(store, exam.id).completedUnits;
      var s := r.value;
      && s.subject == exam.subject
      && s.studyUnit == NextUnit(completed, exam.totalUnits)
      && 1 <= s.reviewUnit <= s.studyUnit
      && s.reviewUnit == ReviewUnit(s.studyUnit)
      && s.unitsPerDay == UnitsPerDay(exam.totalUnits, DaysLeft(exam.examDate, today))
      && s.unitsPerDay >= 1
      && s.studyHours == exam.dailyHours
      && s.completedCount == |completed|
      && s.totalUnits == exam.totalUnits
  {
    var daysLeft := DaysLeft(exam.examDate, today);
    if daysLeft > 0 then
      var completed := ProgressOf(store, exam.id).completedUnits;
      var total := exam.totalUnits;
      var next := NextUnit(completed, total);
      Some(Suggestion(exam.subject, next, ReviewUnit(next), exam.dailyHours,
                      |completed|, total, UnitsPerDay(total, daysLeft)))
    else
      None
  }

  /** The suggestions for all exams still ahead, in store order. */
  function DailyPlan(exams: ExamStore, store: ProgressStore, today: Date): (plan: seq<Suggestion>)
    requires DatesValid(exams) && Valid(today)
    ensures |plan| <= |exams|
    ensures forall k :: 0 <= k < |plan| ==>
      exists i :: 0 <= i < |exams| && Suggest(exams[i], store, today) == Some(plan[k])
    ensures forall i :: 0 <= i < |exams| && Before(today, exams[i].examDate) ==>
      Suggest(exams[i], store, today).value in plan
    decreases |exams|
  {
    if exams == [] then []
    else
      var rest := DailyPlan(exams[1..], store, today);
      assert forall i :: 1 <= i < |exams| ==> exams[1..][i - 1] == exams[i];
      match Suggest(exams[0], store, today)
      case Some(s) => [s] + rest
      case None => rest
  }

  // ---------------------------------------------------------------------
  // Tracking progress

  datatype TrackOutcome =
    | ChoiceNotNumber
    | ChoiceOutOfRange
    | Updated(exam: Exam, units: seq<int>, rejected: bool)

  /** The progress store after the operation, and what was reported. */
  datatype TrackResult = TrackResult(store: ProgressStore, outcome: TrackOutcome)

  /** The exam chosen by a 1-based menu number, if there is one. */
  function Selected(exams: ExamStore, choice: int): (r: Option<Exam>)
    ensures r.Some? <==> 1 <= choice <= |exams|
    ensures r.Some? ==> r.value == exams[choice - 1]
  {
    var index := choice - 1;
    if 0 <= index < |exams| then Some(exams[index]) else None
  }

  /** What tracking does to the store for exam `e`: the exam's entry exists
      afterwards, stamped with today's date even when the input was
      rejected; it holds the units of the marking, each once; every other
      entry stays as it was. */
  ghost predicate EntryUpdated(store: ProgressStore, r: TrackResult, e: Exam, input: string,
                               today: Date, parse: string -> Option<int>)
  {
    var m := MarkUnits(ProgressOf(store, e.id).completedUnits, input, e.totalUnits, parse);
    && r.outcome == Updated(e, m.units, m.rejected)
    && r.store.Keys == store.Keys + {e.id}
    && r.store[e.id].lastUpdated == Some(today)
    && NoDup(r.store[e.id].completedUnits)
    && (forall u :: u in r.store[e.id].completedUnits <==> u in m.units)
    && (forall id :: id in store && id != e.id ==> r.store[id] == store[id])
  }

  /** The update of one exam's entry: the entry is created if missing, the
      units are marked, the stored list is made repeat-free and stamped with
      today's date, and every other entry stays as it was. */
  function UpdateEntry(store: ProgressStore, e: Exam, input: string, today: Date,
                       parse: string -> Option<int>): (r: TrackResult)
    ensures EntryUpdated(store, r, e, input, today, parse)
  {
    var m := MarkUnits(ProgressOf(store, e.id).completedUnits, input, e.totalUnits, parse);
    var updated := Progress(Dedup(m.units), Some(today));
    TrackResult(store[e.id := updated], Updated(e, m.units, m.rejected))
  }

  /** Progress tracking for the exam chosen by its 1-based number. A choice
      that is not a number or out of range changes nothing. */
  function TrackProgress(exams: ExamStore, store: ProgressStore, choice: Option<int>,
                         input: string, today: Date,
                         parse: string -> Option<int>): (r: TrackResult)
    ensures choice.None? ==> r == TrackResult(store, ChoiceNotNumber)
    ensures choice.Some? && !(1 <= choice.value <= |exams|) ==>
      r == TrackResult(store, ChoiceOutOfRange)
    ensures choice.Some? && 1 <= choice.value <= |exams| ==>
      EntryUpdated(store, r, exams[choice.value - 1], input, today, parse)
  {
    match choice
    case None => TrackResult(store, ChoiceNotNumber)
    case Some(n) =>
      match Selected(exams, n)
      case None => TrackResult(store, ChoiceOutOfRange)
      case Some(e) =>
        assert e == exams[n - 1];
        UpdateEntry(store, e, input, today, parse)
  }

  /** The completion share `count / total * 100`, for a positive total. */
  function CompletionPercent(count: int, total: int): (p: real)
    requires total > 0
    ensures p * (total as real) == (count as real) * 100.0
    ensures 0 <= count <= total ==> 0.0 <= p <= 100.0
    ensures p == 100.0 <==> count == total
  {
    (count as real) / (total as real) * 100.0
  }

  /** The completion shown after an update, as written: no guard on the
      total, so a zero total raises ZeroDivisionError (None here), which
      nothing catches, after the updated store has been saved. */
  function ShownPercentAsWritten(count: int, total: int): (p: Option<real>)
    ensures p.None? <==> total == 0
    ensures p.Some? ==> p.value * (total as real) == (count as real) * 100.0
  {
    if total == 0 then None else Some((count as real) / (total as real) * 100.0)
  }

  /** The completion share with the report's guard: 0 when there are no
      units. This is the percentage the rest of the model shows. */
  function ReportPercent(count: int, total: int): (p: real)
    ensures total > 0 ==> p * (total as real) == (count as real) * 100.0
    ensures total <= 0 ==> p == 0.0
    ensures 0 <= count && (count <= total || count == 0) ==> 0.0 <= p <= 100.0
  {
    if total > 0 then CompletionPercent(count, total) else 0.0
  }

  /** An exam with no units can be added and tracked; the update is stored,
      and then showing its completion as written fails. */
  lemma ZeroUnitExamFailsAfterSave(today: Date, parse: string -> Option<int>)
    requires Valid(today)
    ensures var e := NewExam("1", "x", today, 1.0, 0, today);
      var r := TrackProgress([e], map[], Some(1), MarkAllToken, today, parse);
      && r.outcome.Updated?
      && r.store == map["1" := Progress([], Some(today))]
      && ShownPercentAsWritten(|r.outcome.units|, e.totalUnits).None?
      && ReportPercent(|r.outcome.units|, e.totalUnits) == 0.0
  {
    var e := NewExam("1", "x", today, 1.0, 0, today);
    var r := TrackProgress([e], map[], Some(1), MarkAllToken, today, parse);
    assert r.outcome.units == [];
  }

  /** Tracking keeps the progress store consistent with the exam store. */
  lemma TrackKeepsProgressOk(exams: ExamStore, store: ProgressStore, choice: Option<int>,
                             input: string, today: Date, parse: string -> Option<int>)
    requires UniqueIds(exams) && ProgressOk(exams, store)
    ensures ProgressOk(exams, TrackProgress(exams, store, choice, input, today, parse).store)
  {
    var r := TrackProgress(exams, store, choice, input, today, parse);
    if choice.Some? && 1 <= choice.value <= |exams| {
      var e := exams[choice.value - 1];
      var entry := ProgressOf(store, e.id);
      var m := MarkUnits(entry.completedUnits, input, e.totalUnits, parse);
      assert EntryOk(entry, e.totalUnits);
      StoredEntryOk(r.store[e.id].completedUnits, m.units, e.totalUnits);
      forall i | 0 <= i < |exams| && exams[i].id in r.store
        ensures EntryOk(r.store[exams[i].id], exams[i].totalUnits)
      {
        if i != choice.value - 1 {
          assert exams[i].id != e.id;
        }
      }
    }
  }

  /** A repeat-free list with the members of an in-range list is in range. */
  lemma StoredEntryOk(stored: seq<int>, units: seq<int>, total: int)
    requires NoDup(stored) && WithinUnits(units, total)
    requires forall u :: u in stored <==> u in units
    ensures WithinUnits(stored, total)
  {
    forall j | 0 <= j < |stored|
      ensures 1 <= stored[j] <= total
    {
      assert stored[j] in stored;
      assert stored[j] in units;
    }
  }


  /** On a consistent store, the count reported after an update is the
      number of units stored, and the completion shown lies in 0..100. */
  lemma TrackedCountMatchesStore(exams: ExamStore, store: ProgressStore, choice: int,
                                 input: string, today: Date, parse: string -> Option<int>)
    requires UniqueIds(exams) && ProgressOk(exams, store)
    requires 1 <= choice <= |exams|
    ensures var r := TrackProgress(exams, store, Some(choice), input, today, parse);
      var e := exams[choice - 1];
      && r.outcome.Updated?
      && |r.outcome.units| == |r.store[e.id].completedUnits|
      && 0.0 <= ReportPercent(|r.outcome.units|, e.totalUnits) <= 100.0
      && var s := ShownPercentAsWritten(|r.outcome.units|, e.totalUnits);
         s.Some? && e.totalUnits > 0 ==> 0.0 <= s.value <= 100.0
  {
    var e := exams[choice - 1];
    var entry := ProgressOf(store, e.id);
    assert EntryOk(entry, e.totalUnits);
    var m := MarkUnits(entry.completedUnits, input, e.totalUnits, parse);
    CompletedCountBound(m.units, e.totalUnits);
  }
}
