/** The tables the prediction views write: the predictions of a recognition session, the
    submissions that confirm them, timetable entries and attendance rows. */
module Records {
  import opened Schema

  /** `AttendancePrediction`: what a session predicted for one student. */
  datatype PredictionRecord = PredictionRecord(
    session: string, regNo: string, subject: string, section: SectionKey,
    predictedPresent: bool, confidence: real)

  /** `AttendanceSubmission`: the confirmed value for one student of a session. */
  datatype SubmissionRecord = SubmissionRecord(
    session: string, regNo: string, subject: string, section: SectionKey,
    finalPresent: bool, wasEdited: bool, originalPrediction: bool, submittedBy: string)

  /** One prediction per (session, student), as the table's unique constraint demands. */
  predicate PredictionsUnique(ps: seq<PredictionRecord>) {
    forall i, j :: 0 <= i < j < |ps| ==> ps[i].session != ps[j].session || ps[i].regNo != ps[j].regNo
  }

  /** One submission per (session, student), as the table's unique constraint demands. */
  predicate SubmissionsUnique(ss: seq<SubmissionRecord>) {
    forall i, j :: 0 <= i < j < |ss| ==> ss[i].session != ss[j].session || ss[i].regNo != ss[j].regNo
  }

  /** The contents of the four tables at one moment. */
  datatype Tables = Tables(
    predictions: seq<PredictionRecord>, submissions: seq<SubmissionRecord>,
    timetables: seq<TimetableEntry>, attendance: seq<AttendanceRow>)

  /** The database tables, in primary-key order. */
  class Store {
    var predictions: seq<PredictionRecord>
    var submissions: seq<SubmissionRecord>
    var timetables: seq<TimetableEntry>
    var attendance: seq<AttendanceRow>

    /** The unique constraints of the tables that have one: predictions and submissions per
        (session, student), attendance rows per (student, class). */
    predicate Valid()
      reads this
    {
      && PredictionsUnique(predictions)
      && SubmissionsUnique(submissions)
      && AttendanceUnique(attendance)
    }

    /** The contents of the tables. */
    function Snapshot(): (t: Tables)
      reads this
      ensures t.predictions == predictions && t.submissions == submissions
      ensures t.timetables == timetables && t.attendance == attendance
    {
      Tables(predictions, submissions, timetables, attendance)
    }

    constructor ()
      ensures Valid()
      ensures predictions == [] && submissions == [] && timetables == [] && attendance == []
    {
      predictions := [];
      submissions := [];
      timetables := [];
      attendance := [];
    }
  }
}
