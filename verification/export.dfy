/** The study-plan report: one row per exam, in store order, with the
    columns of the CSV header. Writing the file is left to the caller. */
module Export {
  import opened Wrappers
  import opened Calendar
  import opened IsoDates
  import opened Units
  import opened Tracker

  const Header: seq<string> :=
    ["Subject", "Exam_Date", "Days_Left", "Total_Units", "Completed_Units", "Progress_%", "Daily_Hours"]

  datatype Row = Row(
    subject: string,
    examDate: Date,
    daysLeft: int,
    totalUnits: int,
    completedUnits: nat,
    progressPercent: real,
    dailyHours: real)

  /** The row of one exam; a missing progress entry reads as nothing done. */
  function RowOf(e: Exam, store: ProgressStore, today: Date): (row: Row)
    requires Valid(e.examDate) && Valid(today)
    ensures row.subject == e.subject && row.examDate == e.examDate
    ensures row.daysLeft == Ordinal(e.examDate) - Ordinal(today)
    ensures row.totalUnits == e.totalUnits && row.dailyHours == e.dailyHours
    ensures e.id in store ==> row.completedUnits == |store[e.id].completedUnits|
    ensures e.id !in store ==> row.completedUnits == 0 && row.progressPercent == 0.0
    ensures row.progressPercent == ReportPercent(row.completedUnits, e.totalUnits)
  {
    var count := |ProgressOf(store, e.id).completedUnits|;
    Row(e.subject, e.examDate, DaysLeft(e.examDate, today), e.totalUnits,
        count, ReportPercent(count, e.totalUnits), e.dailyHours)
  }

  /** One row per exam, in store order. */
  function ExportRows(exams: ExamStore, store: ProgressStore, today: Date): (rows: seq<Row>)
    requires DatesValid(exams) && Valid(today)
    ensures |rows| == |exams|
    ensures forall i :: 0 <= i < |exams| ==> rows[i] == RowOf(exams[i], store, today)
  {
    seq(|exams|, i requires 0 <= i < |exams| => RowOf(exams[i], store, today))
  }

  /** The report file is named after today's date: study_plan_YYYY-MM-DD.csv. */
  function ReportFileName(today: Date): (name: string)
    requires Valid(today)
    ensures |name| == |"study_plan_"| + 10 + |".csv"|
    ensures name[..11] == "study_plan_" && name[21..] == ".csv"
    ensures ParseIso(name[11..21]) == Some(today)
  {
    var iso := IsoFormat(today);
    ParseIsoFormat(today);
    var name := "study_plan_" + iso + ".csv";
    assert name[11..21] == iso;
    name
  }

  /** On consistent stores every reported percentage lies in 0..100. */
  lemma ReportPercentInRange(exams: ExamStore, store: ProgressStore, today: Date)
    requires DatesValid(exams) && Valid(today) && ProgressOk(exams, store)
    ensures forall i :: 0 <= i < |exams| ==>
      0.0 <= ExportRows(exams, store, today)[i].progressPercent <= 100.0
  {
    var rows := ExportRows(exams, store, today);
    forall i | 0 <= i < |exams|
      ensures 0.0 <= rows[i].progressPercent <= 100.0
    {
      var e := exams[i];
      if e.id in store {
        CompletedCountBound(store[e.id].completedUnits, e.totalUnits);
      }
    }
  }
}
