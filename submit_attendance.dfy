/** The `submit_attendance` view: a user confirms (or corrects) the presence the recognition
    session predicted for each student; every confirmation is logged as a submission and written
    to the attendance row of the student for today's class of the session's subject and section. */
module Submission {
  import opened PyRuntime
  import opened Schema
  import opened Records

  /** One entry of the request's `attendance` list: `register_number` (`None` when absent) and
      `is_present`. */
  datatype AttendanceEntry = AttendanceEntry(regNo: Option<string>, isPresent: bool)

  /** The request: `session_id` ("" when absent or empty), the `attendance` list and
      `submitted_by` (`None` when absent). */
  datatype SubmitRequest = SubmitRequest(session: string, attendance: seq<AttendanceEntry>, submittedBy: Option<string>)

  /** One element of the view's `submissions` list. */
  datatype Submitted = Submitted(regNo: string, finalPresent: bool, wasEdited: bool)

  /** The answer: an error status, or the counts of the success response and the timetable id. */
  datatype SubmitResponse =
    | SubmitStatus(code: int)
    | SubmitOk(submissionsCount: nat, editedCount: nat, created: nat, updated: nat, timetableId: int)

  /** How far the loop over the entries got: the submissions and attendance tables, the
      `submissions` list, the two counters, and whether a submission insert raised. */
  datatype Progress = Progress(
    submissions: seq<SubmissionRecord>, attendance: seq<AttendanceRow>, sent: seq<Submitted>,
    created: nat, updated: nat, failed: bool)

  // ---------------------------------------------------------------------------------------
  // Lookups

  /** `AttendancePrediction.objects.filter(session_id=session)`, in table order. */
  function SessionPredictions(ps: seq<PredictionRecord>, session: string): seq<PredictionRecord> {
    Filter(ps, OfSession(session))
  }

  function OfSession(session: string): PredictionRecord -> bool {
    (p: PredictionRecord) => p.session == session
  }

  /** `predictions_dict.get(regNo)`: the dictionary is built in table order, so of two predictions
      for one student the later one is kept. */
  function PredictionOf(ps: seq<PredictionRecord>, regNo: string): (r: Option<PredictionRecord>)
    ensures r.Some? ==> r.value in ps && r.value.regNo == regNo
    ensures r.None? <==> forall i :: 0 <= i < |ps| ==> ps[i].regNo != regNo
  {
    if ps == [] then None
    else if ps[|ps| - 1].regNo == regNo then Some(ps[|ps| - 1])
    else PredictionOf(ps[..|ps| - 1], regNo)
  }

  /** With one prediction per (session, student), as the table demands, the dictionary of a
      session's predictions finds each of them under its student's register number. */
  lemma {:induction false} SessionLookup(ps: seq<PredictionRecord>, session: string, p: PredictionRecord)
    requires PredictionsUnique(ps)
    requires p in ps && p.session == session
    ensures PredictionOf(SessionPredictions(ps, session), p.regNo) == Some(p)
  {
    var init := ps[..|ps| - 1];
    var last := ps[|ps| - 1];
    if last != p {
      var k :| 0 <= k < |ps| && ps[k] == p;
      assert k != |ps| - 1;
      assert init[k] == p;
      SessionSnoc(ps, session);
      UniqueInit(ps);
      SessionLookup(init, session, p);
      if last.session == session {
        assert ps[k].session != ps[|ps| - 1].session || ps[k].regNo != ps[|ps| - 1].regNo;
        LookupSnoc(SessionPredictions(init, session), last, p.regNo);
      }
    } else {
      SessionSnoc(ps, session);
      LookupSnoc(SessionPredictions(init, session), last, p.regNo);
    }
  }

  lemma UniqueInit(ps: seq<PredictionRecord>)
    requires ps != [] && PredictionsUnique(ps)
    ensures PredictionsUnique(ps[..|ps| - 1])
  {
    var init := ps[..|ps| - 1];
    forall i, j | 0 <= i < j < |init| ensures init[i].session != init[j].session || init[i].regNo != init[j].regNo {
      assert init[i] == ps[i] && init[j] == ps[j];
    }
  }

  lemma SessionSnoc(ps: seq<PredictionRecord>, session: string)
    requires ps != []
    ensures var init, last := ps[..|ps| - 1], ps[|ps| - 1];
      SessionPredictions(ps, session)
        == if last.session == session then SessionPredictions(init, session) + [last] else SessionPredictions(init, session)
  {
    assert OfSession(session)(ps[|ps| - 1]) == (ps[|ps| - 1].session == session);
  }

  lemma LookupSnoc(qs: seq<PredictionRecord>, x: PredictionRecord, regNo: string)
    ensures PredictionOf(qs + [x], regNo) == if x.regNo == regNo then Some(x) else PredictionOf(qs, regNo)
  {
    assert (qs + [x])[..|qs|] == qs;
  }

  /** A timetable id no existing entry uses, as the auto-increment key gives out. */
  function FreshId(ts: seq<TimetableEntry>): (id: int)
    ensures forall t :: t in ts ==> t.id < id
  {
    if ts == [] then 1
    else
      var rest := FreshId(ts[..|ts| - 1]);
      assert forall t :: t in ts ==> t in ts[..|ts| - 1] || t == ts[|ts| - 1];
      Max(rest, ts[|ts| - 1].id + 1)
  }

  /** The filter of `Timetable.objects.get_or_create(section, subject, date)`. */
  function TimetableKey(section: SectionKey, subject: string, today: int): TimetableEntry -> bool {
    (t: TimetableEntry) => t.section == section && t.subject == subject && t.date == today
  }

  /** `Timetable.objects.get_or_create(...)`: the table and the entry for the section and subject
      on `today`, newly appended when there is none; `None` for the `MultipleObjectsReturned` of a
      key the schema does not declare unique. */
  function GetOrCreateTimetable(ts: seq<TimetableEntry>, section: SectionKey, subject: string, today: int)
    : (r: Option<(seq<TimetableEntry>, TimetableEntry)>)
    ensures r.Some? ==> var (ts', t) := r.value;
      && t in ts' && t.section == section && t.subject == subject && t.date == today
      && (ts' == ts || (ts' == ts + [t] && forall x :: x in ts ==> !TimetableKey(section, subject, today)(x) && x.id != t.id))
    ensures r.None? <==> |Filter(ts, TimetableKey(section, subject, today))| >= 2
  {
    match Get(ts, TimetableKey(section, subject, today))
    case Found(t) => Some((ts, t))
    case DoesNotExist =>
      var t := TimetableEntry(FreshId(ts), section, subject, today);
      assert forall x :: x in ts ==> !TimetableKey(section, subject, today)(x) by {
        forall x | x in ts ensures !TimetableKey(section, subject, today)(x) {
          var k :| 0 <= k < |ts| && ts[k] == x;
        }
      }
      Some((ts + [t], t))
    case MultipleObjectsReturned => None
  }

  // ---------------------------------------------------------------------------------------
  // The loop over the entries

  /** A submission of `session` for the student already exists: inserting another breaks the
      table's (session, student) constraint. */
  predicate HasSubmission(subs: seq<SubmissionRecord>, session: string, regNo: string) {
    exists i :: 0 <= i < |subs| && subs[i].session == session && subs[i].regNo == regNo
  }

  /** `data.get("submitted_by", "anonymous")` */
  function SubmittedBy(req: SubmitRequest): string {
    if req.submittedBy.Some? then req.submittedBy.value else "anonymous"
  }

  /** The entry names a student of the session's predictions. */
  predicate Known(preds: seq<PredictionRecord>, e: AttendanceEntry) {
    e.regNo.Some? && PredictionOf(preds, e.regNo.value).Some?
  }

  /** One pass of the loop: an entry without a prediction is skipped; otherwise a submission is
      inserted (raising, which ends the view with 500, when one exists for the student), then the
      attendance row for the class is updated or created and counted. */
  function Step(pr: Progress, preds: seq<PredictionRecord>, session: string, submitter: string, tt: int, e: AttendanceEntry)
    : (r: Progress)
    requires AttendanceUnique(pr.attendance)
    ensures AttendanceUnique(r.attendance)
    ensures SubmissionsUnique(pr.submissions) ==> SubmissionsUnique(r.submissions)
    ensures pr.failed ==> r == pr
    ensures r.created + r.updated + |pr.sent| == |r.sent| + pr.created + pr.updated
    ensures |r.attendance| + pr.created == |pr.attendance| + r.created
    ensures pr.submissions <= r.submissions && pr.sent <= r.sent
    ensures !r.failed ==> |r.sent| == |pr.sent| + (if Known(preds, e) then 1 else 0)
  {
    if pr.failed || !Known(preds, e) then pr
    else
      var p := PredictionOf(preds, e.regNo.value).value;
      var wasEdited := p.predictedPresent != e.isPresent;
      if HasSubmission(pr.submissions, session, p.regNo) then pr.(failed := true)
      else
        var sub := SubmissionRecord(session, p.regNo, p.subject, p.section, e.isPresent, wasEdited, p.predictedPresent, submitter);
        AppendSubmission(pr.submissions, sub);
        var (rows, created) := UpdateOrCreate(pr.attendance, p.regNo, tt, e.isPresent);
        Progress(pr.submissions + [sub], rows, pr.sent + [Submitted(p.regNo, e.isPresent, wasEdited)],
                 if created then pr.created + 1 else pr.created,
                 if created then pr.updated else pr.updated + 1, false)
  }

  lemma AppendSubmission(subs: seq<SubmissionRecord>, sub: SubmissionRecord)
    requires !HasSubmission(subs, sub.session, sub.regNo)
    ensures SubmissionsUnique(subs) ==> SubmissionsUnique(subs + [sub])
  {
    if SubmissionsUnique(subs) {
      var r := subs + [sub];
      forall i, j | 0 <= i < j < |r| ensures r[i].session != r[j].session || r[i].regNo != r[j].regNo {
        assert r[i] == subs[i];
        if j < |subs| {
          assert r[j] == subs[j];
        }
      }
    }
  }

  /** The loop over the first entries of `es`. */
  function Run(pr0: Progress, preds: seq<PredictionRecord>, session: string, submitter: string, tt: int, es: seq<AttendanceEntry>)
    : (r: Progress)
    requires AttendanceUnique(pr0.attendance)
    ensures AttendanceUnique(r.attendance)
  {
    if es == [] then pr0
    else Step(Run(pr0, preds, session, submitter, tt, es[..|es| - 1]), preds, session, submitter, tt, es[|es| - 1])
  }

  /** The run over one more entry is one more step. */
  lemma RunSnoc(pr0: Progress, preds: seq<PredictionRecord>, session: string, submitter: string, tt: int,
                es: seq<AttendanceEntry>, i: nat)
    requires AttendanceUnique(pr0.attendance) && i < |es|
    ensures Run(pr0, preds, session, submitter, tt, es[..i + 1])
         == Step(Run(pr0, preds, session, submitter, tt, es[..i]), preds, session, submitter, tt, es[i])
  {
    assert es[..i + 1][..i] == es[..i];
  }

  /** Once an insert raised, the rest of the entries change nothing: the exception ends the loop. */
  lemma {:induction false} RunAfterFailure(pr0: Progress, preds: seq<PredictionRecord>, session: string, submitter: string, tt: int,
                                           es: seq<AttendanceEntry>, k: nat)
    requires AttendanceUnique(pr0.attendance)
    requires k <= |es| && Run(pr0, preds, session, submitter, tt, es[..k]).failed
    ensures Run(pr0, preds, session, submitter, tt, es) == Run(pr0, preds, session, submitter, tt, es[..k])
  {
    if k < |es| {
      var init := es[..|es| - 1];
      assert init[..k] == es[..k];
      RunAfterFailure(pr0, preds, session, submitter, tt, init, k);
    } else {
      assert es[..k] == es;
    }
  }

  /** How many entries of `es` name a student of the session's predictions. */
  function CountKnown(preds: seq<PredictionRecord>, es: seq<AttendanceEntry>): (n: nat)
    ensures n <= |es|
  {
    if es == [] then 0 else CountKnown(preds, es[..|es| - 1]) + (if Known(preds, es[|es| - 1]) then 1 else 0)
  }

  /** `sum(1 for s in submissions if s["was_edited"])` */
  function EditedCount(sent: seq<Submitted>): (n: nat)
    ensures n <= |sent|
  {
    if sent == [] then 0 else EditedCount(sent[..|sent| - 1]) + (if sent[|sent| - 1].wasEdited then 1 else 0)
  }

  /** Every confirmed student has a submission and an attendance row with the confirmed value. */
  ghost predicate Recorded(pr: Progress, session: string, tt: int) {
    forall s :: s in pr.sent ==>
      AttendanceRow(s.regNo, tt, s.finalPresent) in pr.attendance && HasSubmission(pr.submissions, session, s.regNo)
  }

  /** Each element of the `submissions` list names a student of the session and says whether the
      confirmed value differs from what was predicted for the student. */
  ghost predicate Faithful(sent: seq<Submitted>, preds: seq<PredictionRecord>) {
    forall s :: s in sent ==>
      PredictionOf(preds, s.regNo).Some? && (s.wasEdited <==> s.finalPresent != PredictionOf(preds, s.regNo).value.predictedPresent)
  }

  /** Attendance rows of other classes are neither added nor removed. */
  ghost predicate OtherClassesKept(before: seq<AttendanceRow>, after: seq<AttendanceRow>, tt: int) {
    forall x: AttendanceRow :: x.timetable != tt ==> (x in after <==> x in before)
  }

  lemma StepRecorded(pr: Progress, preds: seq<PredictionRecord>, session: string, submitter: string, tt: int, e: AttendanceEntry)
    requires AttendanceUnique(pr.attendance) && Recorded(pr, session, tt) && Faithful(pr.sent, preds)
    ensures var r := Step(pr, preds, session, submitter, tt, e);
      Recorded(r, session, tt) && Faithful(r.sent, preds) && OtherClassesKept(pr.attendance, r.attendance, tt)
  {
    var r := Step(pr, preds, session, submitter, tt, e);
    if !pr.failed && Known(preds, e) {
      var p := PredictionOf(preds, e.regNo.value).value;
      if !HasSubmission(pr.submissions, session, p.regNo) {
        var sub := r.submissions[|pr.submissions|];
        assert r.submissions == pr.submissions + [sub];
        assert sub.session == session && sub.regNo == p.regNo;
        forall s | s in r.sent
          ensures AttendanceRow(s.regNo, tt, s.finalPresent) in r.attendance && HasSubmission(r.submissions, session, s.regNo)
        {
          if s in pr.sent {
            var i :| 0 <= i < |pr.submissions| && pr.submissions[i].session == session && pr.submissions[i].regNo == s.regNo;
            assert r.submissions[i] == pr.submissions[i];
            assert s.regNo != p.regNo;
          } else {
            assert s == r.sent[|pr.sent|];
            assert r.submissions[|pr.submissions|] == sub;
          }
        }
      }
    }
  }

  /** The loop keeps the tables' constraints, counts every confirmed student once as created or
      updated, confirms exactly the entries that name a student of the session (unless an insert
      raised), records each confirmed value, and touches no other class's attendance. */
  lemma {:induction false} RunFacts(pr0: Progress, preds: seq<PredictionRecord>, session: string, submitter: string, tt: int,
                                    es: seq<AttendanceEntry>)
    requires AttendanceUnique(pr0.attendance) && Recorded(pr0, session, tt) && Faithful(pr0.sent, preds)
    ensures var r := Run(pr0, preds, session, submitter, tt, es);
      && (SubmissionsUnique(pr0.submissions) ==> SubmissionsUnique(r.submissions))
      && r.created + r.updated + |pr0.sent| == |r.sent| + pr0.created + pr0.updated
      && |r.attendance| + pr0.created == |pr0.attendance| + r.created
      && pr0.submissions <= r.submissions
      && (!r.failed ==> !pr0.failed && |r.sent| == |pr0.sent| + CountKnown(preds, es))
      && Recorded(r, session, tt) && Faithful(r.sent, preds)
      && OtherClassesKept(pr0.attendance, r.attendance, tt)
  {
    if es != [] {
      var init := es[..|es| - 1];
      var mid := Run(pr0, preds, session, submitter, tt, init);
      RunFacts(pr0, preds, session, submitter, tt, init);
      StepRecorded(mid, preds, session, submitter, tt, es[|es| - 1]);
      assert Run(pr0, preds, session, submitter, tt, es) == Step(mid, preds, session, submitter, tt, es[|es| - 1]);
    }
  }

  // ---------------------------------------------------------------------------------------
  // The view

  /** What `submit_attendance` answers and the tables it leaves: 400 without a session or entries,
      404 when the session predicted nothing, 500 when today's class of the session's first
      prediction is ambiguous or a student's submission already exists (the writes before it
      stay), and the counts otherwise. */
  function Submit(db: Tables, req: SubmitRequest, today: int): (SubmitResponse, Tables)
    requires AttendanceUnique(db.attendance)
  {
    if req.session == "" || req.attendance == [] then (SubmitStatus(400), db)
    else
      var preds := SessionPredictions(db.predictions, req.session);
      if preds == [] then (SubmitStatus(404), db)
      else
        var first := preds[0];
        match GetOrCreateTimetable(db.timetables, first.section, first.subject, today)
        case None => (SubmitStatus(500), db)
        case Some((ts, tt)) =>
          var pr := Run(Progress(db.submissions, db.attendance, [], 0, 0, false), preds, req.session,
                        SubmittedBy(req), tt.id, req.attendance);
          var db' := db.(submissions := pr.submissions, timetables := ts, attendance := pr.attendance);
          if pr.failed then (SubmitStatus(500), db')
          else (SubmitOk(|pr.sent|, EditedCount(pr.sent), pr.created, pr.updated, tt.id), db')
  }

  /** 400 exactly without a session id or without entries, 404 exactly when the session predicted
      nothing; both leave every table as it was, and so does an ambiguous class. */
  lemma SubmitRefusals(db: Tables, req: SubmitRequest, today: int)
    requires AttendanceUnique(db.attendance)
    ensures var (r, db') := Submit(db, req, today);
      && (r == SubmitStatus(400) <==> req.session == "" || req.attendance == [])
      && (r == SubmitStatus(404) <==>
            req.session != "" && req.attendance != [] && forall p :: p in db.predictions ==> p.session != req.session)
      && ((r == SubmitStatus(400) || r == SubmitStatus(404)) ==> db' == db)
      && (r.SubmitStatus? ==> r.code == 400 || r.code == 404 || r.code == 500)
  {
    var preds := SessionPredictions(db.predictions, req.session);
    if preds != [] {
      assert preds[0] in db.predictions && preds[0].session == req.session;
    } else {
      forall p | p in db.predictions ensures p.session != req.session {
        var k :| 0 <= k < |db.predictions| && db.predictions[k] == p;
      }
    }
  }

  /** On success: every confirmed student was counted once as created or updated, the confirmed
      students are exactly the entries naming a student of the session, at most that many were
      edited, each has its submission and its attendance row for the class holding the confirmed
      value, the class exists, other classes' attendance is untouched, and the tables keep their
      constraints. */
  lemma SubmitSucceeds(db: Tables, req: SubmitRequest, today: int)
    requires AttendanceUnique(db.attendance) && SubmissionsUnique(db.submissions)
    ensures var (r, db') := Submit(db, req, today);
      r.SubmitOk? ==>
        var preds := SessionPredictions(db.predictions, req.session);
        && r.created + r.updated == r.submissionsCount == CountKnown(preds, req.attendance)
        && r.editedCount <= r.submissionsCount
        && |db'.attendance| == |db.attendance| + r.created
        && (exists t :: t in db'.timetables && t.id == r.timetableId && t.date == today)
        && AttendanceUnique(db'.attendance) && SubmissionsUnique(db'.submissions)
        && db.submissions <= db'.submissions
        && OtherClassesKept(db.attendance, db'.attendance, r.timetableId)
        && forall e :: e in req.attendance && Known(preds, e) ==>
             HasSubmission(db'.submissions, req.session, e.regNo.value)
  {
    var (r, db') := Submit(db, req, today);
    if r.SubmitOk? {
      var preds := SessionPredictions(db.predictions, req.session);
      var first := preds[0];
      var (ts, tt) := GetOrCreateTimetable(db.timetables, first.section, first.subject, today).value;
      var pr0 := Progress(db.submissions, db.attendance, [], 0, 0, false);
      RunFacts(pr0, preds, req.session, SubmittedBy(req), tt.id, req.attendance);
      RunConfirmsKnown(pr0, preds, req.session, SubmittedBy(req), tt.id, req.attendance);
    }
  }

  /** Without a failure, every entry naming a student of the session leaves a confirmation. */
  lemma {:induction false} RunConfirmsKnown(pr0: Progress, preds: seq<PredictionRecord>, session: string, submitter: string, tt: int,
                                            es: seq<AttendanceEntry>)
    requires AttendanceUnique(pr0.attendance) && Recorded(pr0, session, tt) && Faithful(pr0.sent, preds)
    ensures var r := Run(pr0, preds, session, submitter, tt, es);
      !r.failed ==> forall e :: e in es && Known(preds, e) ==> HasSubmission(r.submissions, session, e.regNo.value)
  {
    if es != [] {
      var init := es[..|es| - 1];
      var last := es[|es| - 1];
      var mid := Run(pr0, preds, session, submitter, tt, init);
      var r := Run(pr0, preds, session, submitter, tt, es);
      RunConfirmsKnown(pr0, preds, session, submitter, tt, init);
      RunFacts(pr0, preds, session, submitter, tt, init);
      assert r == Step(mid, preds, session, submitter, tt, last);
      if !r.failed {
        forall e | e in es && Known(preds, e) ensures HasSubmission(r.submissions, session, e.regNo.value) {
          if e in init {
            var i :| 0 <= i < |mid.submissions| && mid.submissions[i].session == session && mid.submissions[i].regNo == e.regNo.value;
            assert r.submissions[i] == mid.submissions[i];
          } else {
            assert e == last;
            var p := PredictionOf(preds, e.regNo.value).value;
            assert r.submissions[|mid.submissions|].regNo == p.regNo;
          }
        }
      }
    }
  }

  /** Each confirmation in the loop says whether the user changed the prediction, and the
      attendance row then holds the confirmed value. */
  lemma RunConfirmations(db: Tables, req: SubmitRequest, today: int, tt: TimetableEntry)
    requires AttendanceUnique(db.attendance) && req.session != ""
    ensures var preds := SessionPredictions(db.predictions, req.session);
      var r := Run(Progress(db.submissions, db.attendance, [], 0, 0, false), preds, req.session, SubmittedBy(req), tt.id, req.attendance);
      forall s :: s in r.sent ==>
        && AttendanceRow(s.regNo, tt.id, s.finalPresent) in r.attendance
        && (exists p :: p in db.predictions && p.session == req.session && p.regNo == s.regNo
              && (s.wasEdited <==> s.finalPresent != p.predictedPresent))
  {
    var preds := SessionPredictions(db.predictions, req.session);
    var pr0 := Progress(db.submissions, db.attendance, [], 0, 0, false);
    var r := Run(pr0, preds, req.session, SubmittedBy(req), tt.id, req.attendance);
    RunFacts(pr0, preds, req.session, SubmittedBy(req), tt.id, req.attendance);
    forall s | s in r.sent
      ensures exists p :: (p in db.predictions && p.session == req.session && p.regNo == s.regNo
        && (s.wasEdited <==> s.finalPresent != p.predictedPresent))
    {
      var p := PredictionOf(preds, s.regNo).value;
      assert p in db.predictions && p.session == req.session;
    }
  }

  // ---------------------------------------------------------------------------------------
  // The view, step by step

  /** `submit_attendance` on the store. */
  method SubmitAttendance(store: Store, req: SubmitRequest, today: int) returns (r: SubmitResponse)
    requires store.Valid()
    modifies store
    ensures (r, store.Snapshot()) == Submit(old(store.Snapshot()), req, today)
    ensures store.Valid()
  {
    if req.session == "" || req.attendance == [] {
      return SubmitStatus(400);
    }
    var preds := SessionPredictions(store.predictions, req.session);
    if preds == [] {
      return SubmitStatus(404);
    }
    var first := preds[0];
    var got := GetOrCreateTimetable(store.timetables, first.section, first.subject, today);
    if got.None? {
      return SubmitStatus(500);
    }
    var (ts, tt) := got.value;
    store.timetables := ts;
    var sent, created, updated, failed := ConfirmEntries(store, preds, req.session, SubmittedBy(req), tt.id, req.attendance);
    if failed {
      return SubmitStatus(500);
    }
    r := SubmitOk(|sent|, EditedCount(sent), created, updated, tt.id);
  }

  /** The loop of the view over the entries, stopped by a submission insert that raises. */
  method ConfirmEntries(store: Store, preds: seq<PredictionRecord>, session: string, submitter: string, tt: int,
                        es: seq<AttendanceEntry>)
    returns (sent: seq<Submitted>, created: nat, updated: nat, failed: bool)
    requires store.Valid()
    modifies store
    ensures Run(Progress(old(store.submissions), old(store.attendance), [], 0, 0, false), preds, session, submitter, tt, es)
         == Progress(store.submissions, store.attendance, sent, created, updated, failed)
    ensures store.predictions == old(store.predictions) && store.timetables == old(store.timetables)
    ensures store.Valid()
  {
    ghost var pr0 := Progress(store.submissions, store.attendance, [], 0, 0, false);
    sent, created, updated, failed := [], 0, 0, false;
    var i := 0;
    while i < |es|
      invariant 0 <= i <= |es|
      invariant Run(pr0, preds, session, submitter, tt, es[..i])
             == Progress(store.submissions, store.attendance, sent, created, updated, false)
      invariant store.predictions == old(store.predictions) && store.timetables == old(store.timetables)
      invariant store.Valid()
    {
      RunSnoc(pr0, preds, session, submitter, tt, es, i);
      sent, created, updated, failed := ConfirmEntry(store, preds, session, submitter, tt, es[i], sent, created, updated);
      if failed {
        RunAfterFailure(pr0, preds, session, submitter, tt, es, i + 1);
        return;
      }
      i := i + 1;
    }
    assert es[..i] == es;
  }

  /** One pass of the loop: the submission insert (reporting whether it raised), then the
      `update_or_create` of the attendance row and the counters. */
  method ConfirmEntry(store: Store, preds: seq<PredictionRecord>, session: string, submitter: string, tt: int,
                      e: AttendanceEntry, sent: seq<Submitted>, created: nat, updated: nat)
    returns (sent': seq<Submitted>, created': nat, updated': nat, failed: bool)
    requires store.Valid()
    modifies store
    ensures Step(Progress(old(store.submissions), old(store.attendance), sent, created, updated, false), preds, session, submitter, tt, e)
         == Progress(store.submissions, store.attendance, sent', created', updated', failed)
    ensures store.predictions == old(store.predictions) && store.timetables == old(store.timetables)
    ensures store.Valid()
  {
    sent', created', updated', failed := sent, created, updated, false;
    if e.regNo.Some? && PredictionOf(preds, e.regNo.value).Some? {
      var p := PredictionOf(preds, e.regNo.value).value;
      var wasEdited := p.predictedPresent != e.isPresent;
      if HasSubmission(store.submissions, session, p.regNo) {
        return sent, created, updated, true;
      }
      var sub := SubmissionRecord(session, p.regNo, p.subject, p.section, e.isPresent, wasEdited, p.predictedPresent, submitter);
      AppendSubmission(store.submissions, sub);
      store.submissions := store.submissions + [sub];
      var (rows, isNew) := UpdateOrCreate(store.attendance, p.regNo, tt, e.isPresent);
      store.attendance := rows;
      if isNew {
        created' := created + 1;
      } else {
        updated' := updated + 1;
      }
      sent' := sent + [Submitted(p.regNo, e.isPresent, wasEdited)];
    }
  }
}
