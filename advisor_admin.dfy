/** The administration site's advisor pages: who may view, add, change and delete records,
    which records each user sees, and the short lists of an advisor's assignments. */
module AdvisorAdmin {
  import opened PyRuntime
  import opened Schema
  import opened AdvisorScope

  /** A signed-in user: the superuser and staff flags, the names of the user's groups, and the
      advisor profile attached to the user, if any. */
  datatype User = User(
    username: string,
    isSuperuser: bool,
    isStaff: bool,
    groups: set<string>,
    profile: Option<Advisor>)

  // ---------------------------------------------------------------------------------------
  // Permissions

  function HasViewPermission(u: User): bool {
    if u.isSuperuser then true
    else if u.profile.Some? then true
    else u.isStaff
  }

  function HasChangePermission(u: User): bool {
    if u.isSuperuser then true
    else if u.profile.Some? then u.profile.value.canEditAttendance
    else u.isStaff
  }

  function HasDeletePermission(u: User): bool {
    u.isSuperuser
  }

  function HasAddPermission(u: User): bool {
    if u.isSuperuser then true
    else if u.profile.Some? then true
    else u.isStaff
  }

  /** Viewing and adding are allowed to the same users: superusers, advisors and staff. */
  lemma ViewAndAddRule(u: User)
    ensures HasViewPermission(u) <==> u.isSuperuser || u.profile.Some? || u.isStaff
    ensures HasAddPermission(u) == HasViewPermission(u)
  {
  }

  /** Changing: always for a superuser; for an advisor exactly when its profile allows editing
      attendance, whatever the staff flag; otherwise exactly for staff. */
  lemma ChangeRule(u: User)
    ensures u.isSuperuser ==> HasChangePermission(u)
    ensures !u.isSuperuser && u.profile.Some? ==> (HasChangePermission(u) <==> u.profile.value.canEditAttendance)
    ensures !u.isSuperuser && u.profile.None? ==> (HasChangePermission(u) <==> u.isStaff)
  {
  }

  /** Only superusers delete, and whoever may delete may do everything else. */
  lemma DeleteRule(u: User)
    ensures HasDeletePermission(u) <==> u.isSuperuser
    ensures HasDeletePermission(u) ==> HasChangePermission(u) && HasViewPermission(u) && HasAddPermission(u)
  {
  }

  /** Whoever may change may view. */
  lemma ChangeNeedsView(u: User)
    ensures HasChangePermission(u) ==> HasViewPermission(u)
  {
  }

  // ---------------------------------------------------------------------------------------
  // Record scoping

  /** The students listed to a user: all of them, except that an advisor who is not a superuser
      sees only the students assigned to it. */
  function VisibleStudents(db: Db, u: User): set<Student> {
    if u.isSuperuser then set st | st in db.students
    else if u.profile.Some? then AssignedStudents(db, u.profile.value)
    else set st | st in db.students
  }

  /** The sections listed to a user, scoped in the same way. */
  function VisibleSections(db: Db, u: User): set<SectionKey> {
    if u.isSuperuser then set s | s in db.sections
    else if u.profile.Some? then AssignedSections(db, u.profile.value)
    else set s | s in db.sections
  }

  /** The register numbers of a set of students. */
  function RegNos(students: set<Student>): set<string> {
    set st | st in students :: st.regNo
  }

  /** The attendance rows listed to a user, in table order: an advisor who is not a superuser
      sees the rows of its assigned students only. */
  function VisibleAttendance(db: Db, rows: seq<AttendanceRow>, u: User): seq<AttendanceRow> {
    if u.isSuperuser then rows
    else if u.profile.Some? then
      Filter(rows, OfStudents(RegNos(AssignedStudents(db, u.profile.value))))
    else rows
  }

  function OfStudents(regNos: set<string>): AttendanceRow -> bool {
    (r: AttendanceRow) => r.regNo in regNos
  }

  /** Superusers, and users without an advisor profile, see every student, section and
      attendance row; an advisor who is not a superuser sees exactly its assigned students and
      sections, in the scopes `AssignedStudents` and `AssignedSections` describe. */
  lemma ScopingRules(db: Db, rows: seq<AttendanceRow>, u: User)
    ensures u.isSuperuser || u.profile.None? ==>
      && (forall st :: st in VisibleStudents(db, u) <==> st in db.students)
      && (forall s :: s in VisibleSections(db, u) <==> s in db.sections)
      && VisibleAttendance(db, rows, u) == rows
    ensures !u.isSuperuser && u.profile.Some? ==>
      && VisibleStudents(db, u) == AssignedStudents(db, u.profile.value)
      && VisibleSections(db, u) == AssignedSections(db, u.profile.value)
  {
  }

  /** An advisor who is not a superuser sees, in table order, exactly the attendance rows of the
      students assigned to it. */
  lemma AdvisorAttendance(db: Db, rows: seq<AttendanceRow>, u: User, r: AttendanceRow)
    requires !u.isSuperuser && u.profile.Some?
    ensures r in VisibleAttendance(db, rows, u) <==>
      r in rows && exists st :: st in AssignedStudents(db, u.profile.value) && st.regNo == r.regNo
  {
    var regNos := RegNos(AssignedStudents(db, u.profile.value));
    var seen := Filter(rows, OfStudents(regNos));
    assert VisibleAttendance(db, rows, u) == seen;
    if r in seen {
      var k :| 0 <= k < |seen| && seen[k] == r;
      assert OfStudents(regNos)(r);
    }
    if r in rows && exists st :: st in AssignedStudents(db, u.profile.value) && st.regNo == r.regNo {
      var k :| 0 <= k < |rows| && rows[k] == r;
      assert OfStudents(regNos)(rows[k]);
    }
  }

  // ---------------------------------------------------------------------------------------
  // Assignment lists

  /** The first three labels joined by ", ", followed by "..." when there are more. */
  function Truncated(labels: seq<string>): string {
    Join(labels[..Min(3, |labels|)], ", ") + (if |labels| > 3 then "..." else "")
  }

  predicate EndsWithEllipsis(s: string) {
    |s| >= 3 && s[|s| - 3..] == "..."
  }

  /** The listed part of a truncated list: everything before a final "...". */
  function Shown(s: string): string {
    if EndsWithEllipsis(s) then s[..|s| - 3] else s
  }

  /** A character neither in the pieces nor in the separator is not in their join. */
  lemma {:induction false} JoinAvoids(parts: seq<string>, sep: string, c: char)
    requires c !in sep && forall i :: 0 <= i < |parts| ==> c !in parts[i]
    ensures c !in Join(parts, sep)
  {
    if |parts| > 1 {
      JoinAvoids(parts[1..], sep, c);
    }
  }

  /** A truncated list of labels without '.' ends in "..." exactly when there are more than
      three labels, and what it shows is the first (at most) three labels joined by ", ". */
  lemma ShownTruncated(labels: seq<string>)
    requires forall i :: 0 <= i < |labels| ==> '.' !in labels[i]
    ensures EndsWithEllipsis(Truncated(labels)) <==> |labels| > 3
    ensures Shown(Truncated(labels)) == Join(labels[..Min(3, |labels|)], ", ")
  {
    var joined := Join(labels[..Min(3, |labels|)], ", ");
    JoinAvoids(labels[..Min(3, |labels|)], ", ", '.');
    if |labels| > 3 {
      assert Truncated(labels) == joined + "...";
      assert (joined + "...")[..|joined|] == joined;
    } else {
      assert Truncated(labels) == joined;
      if |joined| >= 3 {
        assert joined[|joined| - 1] in joined;
      }
    }
  }

  /** A truncated list of labels free of ',' and '.' ends in "..." exactly when there are more
      than three labels, and what it shows splits at ',' into the first (at most) three labels,
      each after the first behind one space. */
  lemma TruncatedReadsBack(labels: seq<string>)
    requires |labels| >= 1
    requires forall i :: 0 <= i < |labels| ==> ',' !in labels[i] && '.' !in labels[i]
    ensures EndsWithEllipsis(Truncated(labels)) <==> |labels| > 3
    ensures var n := Min(3, |labels|);
      var parts := SplitOn(Shown(Truncated(labels)), ',');
      |parts| == n && parts[0] == labels[0] && forall i :: 1 <= i < n ==> parts[i] == " " + labels[i]
  {
    ShownTruncated(labels);
    assert ", " == [','] + " ";
    SplitOnJoinSep(labels[..Min(3, |labels|)], ',', " ");
  }

  /** `get_departments`: the advisor's departments. */
  function DepartmentsColumn(adv: Advisor): string {
    Truncated(adv.departments)
  }

  /** The label of a batch: its department and year, separated by one space. */
  function BatchLabel(b: BatchKey): string {
    b.dept + " " + IntToString(b.batchYear)
  }

  function BatchLabels(batches: seq<BatchKey>): (r: seq<string>)
    ensures |r| == |batches| && forall i :: 0 <= i < |batches| ==> r[i] == BatchLabel(batches[i])
  {
    if batches == [] then [] else [BatchLabel(batches[0])] + BatchLabels(batches[1..])
  }

  /** `get_batches`: the advisor's batches as "department year". */
  function BatchesColumn(adv: Advisor): string {
    Truncated(BatchLabels(adv.batches))
  }

  function SectionLabels(secs: seq<SectionKey>): (r: seq<string>)
    ensures |r| == |secs| && forall i :: 0 <= i < |secs| ==> r[i] == secs[i].name
  {
    if secs == [] then [] else [secs[0].name] + SectionLabels(secs[1..])
  }

  /** `get_sections`: the advisor's section names. */
  function SectionsColumn(adv: Advisor): string {
    Truncated(SectionLabels(adv.sections))
  }

  /** Each column shows an advisor's first three assignments and marks the rest with "...". */
  lemma ColumnsShowFirstThree(adv: Advisor)
    requires |adv.batches| >= 1
    requires forall i :: 0 <= i < |adv.batches| ==> ',' !in adv.batches[i].dept && '.' !in adv.batches[i].dept
    ensures var parts := SplitOn(Shown(BatchesColumn(adv)), ',');
      && (EndsWithEllipsis(BatchesColumn(adv)) <==> |adv.batches| > 3)
      && |parts| == Min(3, |adv.batches|)
      && parts[0] == BatchLabel(adv.batches[0])
  {
    var labels := BatchLabels(adv.batches);
    forall i | 0 <= i < |labels| ensures ',' !in labels[i] && '.' !in labels[i] {
      NoDigitPunctuation(adv.batches[i].batchYear);
    }
    TruncatedReadsBack(labels);
  }

  /** The text of a year has no ',' and no '.'. */
  lemma NoDigitPunctuation(n: int)
    ensures ',' !in IntToString(n) && '.' !in IntToString(n)
  {
    var s := IntToString(n);
    var digits := NatToString(if n < 0 then -n else n);
    assert s == (if n < 0 then "-" else "") + digits;
    assert ',' !in digits && '.' !in digits by {
      forall i | 0 <= i < |digits| ensures digits[i] != ',' && digits[i] != '.' {
        assert IsDigit(digits[i]);
      }
    }
  }
}
