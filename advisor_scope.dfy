/** An advisor's profile and the part of the institution it supervises: the sections and the
    students an advisor is responsible for, derived from its direct section, batch and
    department assignments. */
module AdvisorScope {
  import opened PyRuntime
  import opened Schema

  /** An advisor profile.  The three assignment lists are many-to-many relations, listed in
      the order the relation returns them. */
  datatype Advisor = Advisor(
    user: string,
    employeeId: string,
    departments: seq<string>,
    batches: seq<BatchKey>,
    sections: seq<SectionKey>,
    canTakeAttendance: bool,
    canViewAllAttendance: bool,
    canEditAttendance: bool,
    canGenerateReports: bool)

  /** The students of the listed sections. */
  function StudentsOfSections(db: Db, secs: seq<SectionKey>): set<Student> {
    set st | st in db.students && st.section in secs
  }

  /** The students of every section of the listed batches. */
  function StudentsOfBatches(db: Db, batches: seq<BatchKey>): set<Student> {
    set st | st in db.students && st.section.batch in batches
  }

  /** The students of every batch of the listed departments. */
  function StudentsOfDepartments(db: Db, depts: seq<string>): set<Student> {
    set st | st in db.students && st.section.batch.dept in depts
  }

  /** The scope `get_assigned_students` is written to list: the union, without duplicates, of the students of the assigned
      sections and of the assigned batches; the students of the assigned departments join only
      when the advisor has neither batches nor sections. */
  function AssignedStudents(db: Db, adv: Advisor): set<Student> {
    var fromSections := if adv.sections != [] then StudentsOfSections(db, adv.sections) else {};
    var fromBatches := if adv.batches != [] then StudentsOfBatches(db, adv.batches) else {};
    var fromDepartments :=
      if adv.departments != [] && adv.batches == [] && adv.sections == []
      then StudentsOfDepartments(db, adv.departments) else {};
    fromSections + fromBatches + fromDepartments
  }

  /** The scope `get_assigned_sections` is written to list: the union, without duplicates, of the assigned sections, the
      sections of the assigned batches and the sections of the assigned departments. */
  function AssignedSections(db: Db, adv: Advisor): set<SectionKey> {
    var direct := if adv.sections != [] then set s | s in adv.sections else {};
    var fromBatches := if adv.batches != [] then set s | s in db.sections && s.batch in adv.batches else {};
    var fromDepartments :=
      if adv.departments != [] then set s | s in db.sections && s.batch.dept in adv.departments else {};
    direct + fromBatches + fromDepartments
  }

  // ---------------------------------------------------------------------------------------
  // The querysets as written

  /** The querysets start from `objects.none()` and take one `union()` per non-empty kind of
      assignment, then call `distinct()` (see `DistinctAfterUnions`). */
  function OneIf(b: bool): nat {
    if b then 1 else 0
  }

  /** `get_assigned_students` as written. */
  function GetAssignedStudents(db: Db, adv: Advisor): Option<set<Student>> {
    var unions := OneIf(adv.sections != []) + OneIf(adv.batches != [])
      + OneIf(adv.departments != [] && adv.batches == [] && adv.sections == []);
    DistinctAfterUnions(unions, AssignedStudents(db, adv))
  }

  /** `get_assigned_sections` as written. */
  function GetAssignedSections(db: Db, adv: Advisor): Option<set<SectionKey>> {
    var unions := OneIf(adv.sections != []) + OneIf(adv.batches != []) + OneIf(adv.departments != []);
    DistinctAfterUnions(unions, AssignedSections(db, adv))
  }

  /** As written, `get_assigned_students` raises exactly for an advisor with both sections and
      batches, and otherwise lists the students `AssignedStudents` describes. */
  lemma AssignedStudentsRaises(db: Db, adv: Advisor)
    ensures GetAssignedStudents(db, adv).None? <==> adv.sections != [] && adv.batches != []
    ensures GetAssignedStudents(db, adv).Some? ==> GetAssignedStudents(db, adv).value == AssignedStudents(db, adv)
  {
  }

  /** As written, `get_assigned_sections` raises exactly for an advisor with at least two of the
      three kinds of assignment, and otherwise lists the sections `AssignedSections` describes. */
  lemma AssignedSectionsRaises(db: Db, adv: Advisor)
    ensures GetAssignedSections(db, adv).None? <==>
      || (adv.sections != [] && adv.batches != [])
      || (adv.sections != [] && adv.departments != [])
      || (adv.batches != [] && adv.departments != [])
    ensures GetAssignedSections(db, adv).Some? ==> GetAssignedSections(db, adv).value == AssignedSections(db, adv)
  {
  }

  // ---------------------------------------------------------------------------------------
  // The scopes the querysets evidently intend

  /** The students an advisor supervises, member by member: a student of the database whose
      section is assigned, whose batch is assigned, or whose department is assigned to an
      advisor with no batch and no section. */
  lemma AssignedStudentsMembers(db: Db, adv: Advisor, st: Student)
    ensures st in AssignedStudents(db, adv) <==>
      && st in db.students
      && (|| st.section in adv.sections
          || st.section.batch in adv.batches
          || (adv.batches == [] && adv.sections == [] && st.section.batch.dept in adv.departments))
  {
  }

  /** Department assignments matter only to an advisor with no batch and no section: such an
      advisor's students do not change when its departments do. */
  lemma DepartmentsIgnoredWhenScoped(db: Db, adv: Advisor, depts: seq<string>)
    requires adv.batches != [] || adv.sections != []
    ensures AssignedStudents(db, adv.(departments := depts)) == AssignedStudents(db, adv)
  {
  }

  /** The sections an advisor supervises, member by member; the departments always count. */
  lemma AssignedSectionsMembers(db: Db, adv: Advisor, s: SectionKey)
    ensures s in AssignedSections(db, adv) <==>
      || s in adv.sections
      || (s in db.sections && (s.batch in adv.batches || s.batch.dept in adv.departments))
  {
  }

  /** An advisor with no assignment supervises nothing. */
  lemma NoAssignmentsNothing(db: Db, adv: Advisor)
    requires adv.departments == [] && adv.batches == [] && adv.sections == []
    ensures AssignedStudents(db, adv) == {} && AssignedSections(db, adv) == {}
  {
  }

  /** Every student an advisor supervises belongs to a section the advisor supervises, as long
      as every student's section is a row of the sections table. */
  lemma StudentsWithinSections(db: Db, adv: Advisor)
    requires forall st :: st in db.students ==> st.section in db.sections
    ensures forall st :: st in AssignedStudents(db, adv) ==> st.section in AssignedSections(db, adv)
  {
    forall st | st in AssignedStudents(db, adv) ensures st.section in AssignedSections(db, adv) {
      AssignedStudentsMembers(db, adv, st);
      AssignedSectionsMembers(db, adv, st.section);
    }
  }

  /** In the intended scopes, sections of an assigned department are supervised even when batches
      or sections are also assigned, while the students of those sections may not be: the two
      scopes disagree.  (As written, `get_assigned_sections` raises for this advisor, who has a
      department and a batch.) */
  lemma SectionsWiderThanStudents()
    ensures var b1 := BatchKey("CSE", 2026);
      var b2 := BatchKey("CSE", 2027);
      var a := SectionKey(b1, "A");
      var c := SectionKey(b2, "A");
      var st := Student("R1", "Asha", c);
      var db := Db(["CSE"], [b1, b2], [a, c], [], [st], []);
      var adv := Advisor("u", "ADV1", ["CSE"], [b1], [], true, true, true, true);
      c in AssignedSections(db, adv) && st !in AssignedStudents(db, adv)
  {
    var b1 := BatchKey("CSE", 2026);
    var b2 := BatchKey("CSE", 2027);
    var c := SectionKey(b2, "A");
    var st := Student("R1", "Asha", c);
    var db := Db(["CSE"], [b1, b2], [SectionKey(b1, "A"), c], [], [st], []);
    var adv := Advisor("u", "ADV1", ["CSE"], [b1], [], true, true, true, true);
    AssignedSectionsMembers(db, adv, c);
    AssignedStudentsMembers(db, adv, st);
  }
}
