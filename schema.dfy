/** The records of the attendance database (departments, batches, sections, subjects, students,
    time blocks, timetable entries and attendance rows), their uniqueness and validation rules,
    and the academic-calendar arithmetic of a batch. */
module Schema {
  import opened PyRuntime

  /** A batch is identified by its department's name and its graduation year. */
  datatype BatchKey = BatchKey(dept: string, batchYear: int)

  /** A section is identified by its batch and its name. */
  datatype SectionKey = SectionKey(batch: BatchKey, name: string)

  /** A student: register number, name and the section the student belongs to. */
  datatype Student = Student(regNo: string, name: string, section: SectionKey)

  /** A subject: a unique code and name, the departments offering it and its year of study.
      A subject names no batch. */
  datatype Subject = Subject(code: string, name: string, departments: seq<string>, year: int)

  /** A numbered time block of one year of study; times of day are minutes since midnight. */
  datatype TimeBlock = TimeBlock(yearOfStudy: int, blockNumber: int, start: int, end: int)

  /** A timetable entry: one class of a subject for a section on a day. */
  datatype TimetableEntry = TimetableEntry(id: int, section: SectionKey, subject: string, date: int)

  /** One attendance row: a student's presence in one timetable entry. */
  datatype AttendanceRow = AttendanceRow(regNo: string, timetable: int, isPresent: bool)

  /** The tables, each in primary-key order. */
  datatype Db = Db(
    departments: seq<string>,
    batches: seq<BatchKey>,
    sections: seq<SectionKey>,
    subjects: seq<Subject>,
    students: seq<Student>,
    timeBlocks: seq<TimeBlock>)

  predicate Distinct<T(==)>(s: seq<T>) {
    forall i, j :: 0 <= i < j < |s| ==> s[i] != s[j]
  }

  predicate RegNosUnique(students: seq<Student>) {
    forall i, j :: 0 <= i < j < |students| ==> students[i].regNo != students[j].regNo
  }

  predicate SubjectCodesUnique(subjects: seq<Subject>) {
    forall i, j :: 0 <= i < j < |subjects| ==> subjects[i].code != subjects[j].code
  }

  /** The uniqueness constraints of the schema and its foreign keys:
      department names are unique, one batch per (department, year), one section per
      (batch, name), unique subject codes and unique register numbers. */
  predicate Consistent(db: Db) {
    && Distinct(db.departments)
    && Distinct(db.batches)
    && Distinct(db.sections)
    && SubjectCodesUnique(db.subjects)
    && RegNosUnique(db.students)
    && (forall b :: b in db.batches ==> b.dept in db.departments)
    && (forall s :: s in db.sections ==> s.batch in db.batches)
    && (forall st :: st in db.students ==> st.section in db.sections)
  }

  /** The outcome of Django's `objects.get(...)`. */
  datatype Got<T> = Found(value: T) | DoesNotExist | MultipleObjectsReturned

  /** `Model.objects.get(filter)` over a table. */
  function Get<T>(rows: seq<T>, p: T -> bool): (g: Got<T>)
    ensures g.Found? ==> g.value in rows && p(g.value)
    ensures g.DoesNotExist? <==> forall i :: 0 <= i < |rows| ==> !p(rows[i])
  {
    var hits := Filter(rows, p);
    if |hits| == 0 then DoesNotExist
    else if |hits| == 1 then Found(hits[0])
    else MultipleObjectsReturned
  }

  /** `distinct()` on a queryset built from `objects.none()` by `unions` calls of `union()`.
      Django returns the other operand for `none().union(x)`, so one union leaves a plain query,
      but a second builds a combined query, and `distinct()` on a combined query raises
      `NotSupportedError`.  `None` stands for that error. */
  function DistinctAfterUnions<R>(unions: nat, rows: R): (r: Option<R>)
    ensures r.None? <==> unions >= 2
    ensures r.Some? ==> r.value == rows
  {
    if unions >= 2 then None else Some(rows)
  }

  /** `Model.objects.filter(p)`, in table order. */
  function Filter<T>(rows: seq<T>, p: T -> bool): (r: seq<T>)
    ensures |r| <= |rows|
    ensures forall i :: 0 <= i < |r| ==> r[i] in rows && p(r[i])
    ensures forall i :: 0 <= i < |rows| && p(rows[i]) ==> rows[i] in r
    ensures (forall i :: 0 <= i < |rows| ==> !p(rows[i])) ==> r == []
  {
    if rows == [] then []
    else
      var rest := Filter(rows[..|rows| - 1], p);
      assert rows == rows[..|rows| - 1] + [rows[|rows| - 1]];
      if p(rows[|rows| - 1]) then rest + [rows[|rows| - 1]] else rest
  }

  /** `get` raises `DoesNotExist` exactly when no row satisfies the filter. */
  lemma GetNone<T>(rows: seq<T>, p: T -> bool)
    ensures Get(rows, p).DoesNotExist? <==> forall x :: x in rows ==> !p(x)
  {
    if forall x :: x in rows ==> !p(x) {
      forall i | 0 <= i < |rows| ensures !p(rows[i]) {
        assert rows[i] in rows;
      }
    }
  }

  /** A filter that at most one row of the table satisfies returns at most one row. */
  lemma {:induction false} FilterAtMostOne<T>(rows: seq<T>, p: T -> bool)
    requires forall i, j :: 0 <= i < j < |rows| && p(rows[i]) ==> !p(rows[j])
    ensures |Filter(rows, p)| <= 1
  {
    if rows != [] {
      var init := rows[..|rows| - 1];
      FilterAtMostOne(init, p);
      if p(rows[|rows| - 1]) {
        assert forall i :: 0 <= i < |init| ==> !p(init[i]);
      }
    }
  }

  /** A `get` by a field combination the schema declares unique finds the row when it exists
      and never raises `MultipleObjectsReturned`. */
  lemma GetByUniqueKey<T>(rows: seq<T>, key: T)
    requires Distinct(rows)
    ensures Get(rows, x => x == key) == (if key in rows then Found(key) else DoesNotExist)
  {
    FilterAtMostOne(rows, x => x == key);
  }

  /** Looking a student up by register number finds at most one student. */
  lemma GetStudentByRegNo(students: seq<Student>, regNo: string)
    requires RegNosUnique(students)
    ensures !Get(students, (s: Student) => s.regNo == regNo).MultipleObjectsReturned?
  {
    FilterAtMostOne(students, (s: Student) => s.regNo == regNo);
  }

  // ---------------------------------------------------------------------------------------
  // Batch arithmetic

  /** `Batch.display_year`: the start and graduation years of a four-year course, as "start-end". */
  function DisplayYear(batchYear: int): string {
    IntToString(batchYear - 3) + "-" + IntToString(batchYear)
  }

  /** The display string names the two years of the course: split at "-", its parts read back
      as a start year three years before the graduation year. */
  lemma DisplayYearReadsBack(batchYear: int)
    requires batchYear >= 3
    ensures var parts := SplitOn(DisplayYear(batchYear), '-');
      |parts| == 2 && ParseInt(parts[0]) == Some(batchYear - 3) && ParseInt(parts[1]) == Some(batchYear)
  {
    var a, b := IntToString(batchYear - 3), IntToString(batchYear);
    assert '-' !in a && '-' !in b by {
      NoMinus(batchYear - 3);
      NoMinus(batchYear);
    }
    assert DisplayYear(batchYear) == a + ['-'] + b;
    SplitOnPair(a, b, '-');
    IntRoundTrip(batchYear - 3);
    IntRoundTrip(batchYear);
  }

  lemma NoMinus(n: int)
    requires n >= 0
    ensures '-' !in IntToString(n)
  {
  }

  /** The academic year of a date: academic years start in June. */
  function AcademicYear(year: int, month: int): (a: int)
    ensures a == year || a == year + 1
    ensures a == year + 1 <==> month >= 6
  {
    if month >= 6 then year + 1 else year
  }

  /** `Batch.current_year`: the year of study (1 to 4) of a batch graduating in `batchYear`, on a date
      in `year`/`month`; batches not yet started count as first year and graduated ones as fourth. */
  function CurrentYear(batchYear: int, year: int, month: int): (y: int)
    ensures 1 <= y <= 4
    ensures var left := batchYear - AcademicYear(year, month);
      && (0 <= left <= 3 ==> y == 4 - left)
      && (left >= 3 <==> y == 1)
      && (left <= 0 <==> y == 4)
  {
    var yearsUntilGraduation := batchYear - AcademicYear(year, month);
    Max(1, Min(4, 4 - yearsUntilGraduation))
  }

  function Max(a: int, b: int): int { if a >= b then a else b }
  function Min(a: int, b: int): int { if a <= b then a else b }

  /** Of two batches on the same date, the later-graduating one is never in a higher year. */
  lemma CurrentYearAntitoneInBatch(b1: int, b2: int, year: int, month: int)
    requires b1 <= b2
    ensures CurrentYear(b2, year, month) <= CurrentYear(b1, year, month)
  {
  }

  /** A batch's year of study never goes down as the date advances. */
  lemma CurrentYearMonotoneInDate(batchYear: int, y1: int, m1: int, y2: int, m2: int)
    requires 1 <= m1 <= 12 && 1 <= m2 <= 12
    requires y1 < y2 || (y1 == y2 && m1 <= m2)
    ensures CurrentYear(batchYear, y1, m1) <= CurrentYear(batchYear, y2, m2)
  {
    assert AcademicYear(y1, m1) <= AcademicYear(y2, m2);
  }

  // ---------------------------------------------------------------------------------------
  // Validators

  /** What a `MinValueValidator` / `MaxValueValidator` reports. */
  datatype ValidationError = MinValue(limit: int) | MaxValue(limit: int)

  /** The validators of `Subject.year` and `TimeBlock.batch_year`: a year of study from 1 to 4. */
  function ValidateYearOfStudy(v: int): (errs: seq<ValidationError>)
    ensures errs == [] <==> 1 <= v <= 4
    ensures |errs| <= 1
    ensures v < 1 ==> errs == [MinValue(1)]
    ensures v > 4 ==> errs == [MaxValue(4)]
  {
    (if v < 1 then [MinValue(1)] else []) + (if v > 4 then [MaxValue(4)] else [])
  }

  /** Every year of study `current_year` produces passes the validators, so it can select time blocks. */
  lemma CurrentYearIsValidYear(batchYear: int, year: int, month: int)
    ensures ValidateYearOfStudy(CurrentYear(batchYear, year, month)) == []
  {
  }

  // ---------------------------------------------------------------------------------------
  // Subject display

  /** `Subject.get_departments_display`: the department names joined by ", ". */
  function DepartmentsDisplay(s: Subject): string {
    Join(s.departments, ", ")
  }

  /** The display can be read back: split at ",", it gives the first name and then every other
      name behind one space, as long as no name holds a comma. */
  lemma DepartmentsDisplayReadsBack(s: Subject)
    requires |s.departments| >= 1
    requires forall i :: 0 <= i < |s.departments| ==> ',' !in s.departments[i]
    ensures var names := s.departments; var parts := SplitOn(DepartmentsDisplay(s), ',');
      |parts| == |names| && parts[0] == names[0]
      && forall i :: 1 <= i < |names| ==> parts[i] == " " + names[i]
  {
    assert ", " == [','] + " ";
    SplitOnJoinSep(s.departments, ',', " ");
  }

  // ---------------------------------------------------------------------------------------
  // Attendance rows: one per (student, timetable entry)

  predicate AttendanceUnique(rows: seq<AttendanceRow>) {
    forall i, j :: 0 <= i < j < |rows| ==>
      rows[i].regNo != rows[j].regNo || rows[i].timetable != rows[j].timetable
  }

  /** `Attendance.objects.update_or_create(student, timetable, defaults={'is_present': ...})`:
      the table after the call, and whether a row was created. */
  function UpdateOrCreate(rows: seq<AttendanceRow>, regNo: string, timetable: int, present: bool)
    : (r: (seq<AttendanceRow>, bool))
    requires AttendanceUnique(rows)
    ensures AttendanceUnique(r.0)
    ensures r.1 <==> forall i :: 0 <= i < |rows| ==> rows[i].regNo != regNo || rows[i].timetable != timetable
    ensures AttendanceRow(regNo, timetable, present) in r.0
    ensures forall x :: x in r.0 && (x.regNo != regNo || x.timetable != timetable) <==> x in rows && (x.regNo != regNo || x.timetable != timetable)
    ensures |r.0| == |rows| + (if r.1 then 1 else 0)
  {
    if rows == [] then ([AttendanceRow(regNo, timetable, present)], true)
    else
      var last := rows[|rows| - 1];
      var (init, created) := UpdateOrCreate(rows[..|rows| - 1], regNo, timetable, present);
      assert rows == rows[..|rows| - 1] + [last];
      if last.regNo == regNo && last.timetable == timetable then
        (rows[..|rows| - 1] + [AttendanceRow(regNo, timetable, present)], false)
      else
        (init + [last], created)
  }
}
