/** The attendance-form API: the query-string dispatch of its GET actions, the choice of the
    current time slot of a batch, and the listing of the students of chosen departments and
    sections. */
module ApiViews {
  import opened PyRuntime
  import opened Schema
  import opened Sorting

  // ---------------------------------------------------------------------------------------
  // Dispatch

  /** The query string of a GET request. */
  type Query = map<string, string>

  /** `request.GET.get(key)` */
  function Param(q: Query, key: string): Option<string> {
    if key in q then Some(q[key]) else None
  }

  /** `request.GET.get(key, '')` */
  function ParamOr(q: Query, key: string): string {
    if key in q then q[key] else ""
  }

  /** Python truthiness of an optional string: present and not empty. */
  predicate Truthy(v: Option<string>) {
    v.Some? && v.value != ""
  }

  /** `a or b` on two optional strings. */
  function Or(a: Option<string>, b: Option<string>): (r: Option<string>)
    ensures Truthy(a) ==> r == a
    ensures !Truthy(a) ==> r == b
  {
    if Truthy(a) then a else b
  }

  /** Where a GET request is sent, with the arguments it is sent with. */
  datatype Route =
    | ToDepartments
    | ToBatches(dept: Option<string>)
    | ToSubjects(dept: Option<string>, batchYear: Option<string>)
    | ToTimeSlot(batchYear: Option<string>)
    | ToStudents(departments: seq<string>, batchYear: Option<string>, sections: seq<string>)
    | MissingMethod   // the handler does not exist on the view: `AttributeError`, answered with 500
    | InvalidAction   // answered with 400

  /** The status a route answers with before any handler runs, when it answers by itself. */
  function RouteStatus(r: Route): Option<int> {
    match r
    case MissingMethod => Some(500)
    case InvalidAction => Some(400)
    case _ => None
  }

  /** The department of the batches and subjects actions: `dept_id`, or else `dept_name`. */
  function DeptParam(q: Query): Option<string> {
    Or(Param(q, "dept_id"), Param(q, "dept_name"))
  }

  /** The five actions the view knows. */
  predicate KnownAction(a: Option<string>) {
    a == Some("departments") || a == Some("batches") || a == Some("subjects")
    || a == Some("current_time_slot") || a == Some("students")
  }

  /** The dispatch as written: the view asks itself for `get_students`, which only the
      time-blocks view defines, so the students action always fails. */
  function Dispatch(q: Query): (r: Route)
    ensures r == InvalidAction <==> !KnownAction(Param(q, "action"))
    ensures Param(q, "action") == Some("students") <==> r == MissingMethod
  {
    var action := Param(q, "action");
    if action == Some("departments") then ToDepartments
    else if action == Some("batches") then ToBatches(DeptParam(q))
    else if action == Some("subjects") then ToSubjects(DeptParam(q), Param(q, "batch_year"))
    else if action == Some("current_time_slot") then ToTimeSlot(Param(q, "batch_year"))
    else if action == Some("students") then MissingMethod
    else InvalidAction
  }

  /** The dispatch as intended: the students action reaches the student listing. */
  function DispatchFixed(q: Query): (r: Route) {
    if Param(q, "action") == Some("students") then
      ToStudents(SplitOn(ParamOr(q, "departments"), ','), Param(q, "batch_year"),
                 SplitOn(ParamOr(q, "sections"), ','))
    else Dispatch(q)
  }

  /** A request for the students of a department always fails as written. */
  lemma StudentsActionFails(batchYear: string)
    ensures var q := map["action" := "students", "departments" := "CSE", "batch_year" := batchYear];
      RouteStatus(Dispatch(q)) == Some(500)
  {
  }

  /** The intended dispatch sends the students action to the listing with the comma-separated
      lists, never fails for a missing handler, and agrees with the written one on every
      other action. */
  lemma DispatchFixedRoutes(q: Query)
    ensures DispatchFixed(q) != MissingMethod
    ensures Param(q, "action") == Some("students") ==>
      && DispatchFixed(q).ToStudents?
      && Join(DispatchFixed(q).departments, ",") == ParamOr(q, "departments")
      && Join(DispatchFixed(q).sections, ",") == ParamOr(q, "sections")
      && DispatchFixed(q).batchYear == Param(q, "batch_year")
    ensures Param(q, "action") != Some("students") ==> DispatchFixed(q) == Dispatch(q)
  {
    JoinSplitOn(ParamOr(q, "departments"), ',');
    JoinSplitOn(ParamOr(q, "sections"), ',');
  }

  // ---------------------------------------------------------------------------------------
  // The current time slot

  /** The time blocks of one year of study, by block number (`order_by('block_number')`). */
  function BlocksOfYear(blocks: seq<TimeBlock>, year: int): seq<TimeBlock> {
    var mine := Filter(blocks, (b: TimeBlock) => b.yearOfStudy == year);
    Permute(mine, SortIndices(BlockNumbers(mine), IntLess))
  }

  function BlockNumbers(blocks: seq<TimeBlock>): (r: seq<int>)
    ensures |r| == |blocks| && forall i :: 0 <= i < |blocks| ==> r[i] == blocks[i].blockNumber
  {
    if blocks == [] then [] else BlockNumbers(blocks[..|blocks| - 1]) + [blocks[|blocks| - 1].blockNumber]
  }

  predicate IntLess(a: int, b: int) { a < b }

  lemma IntLessIsTotal()
    ensures StrictTotalOrder(IntLess)
  {
  }

  /** The blocks of a year come out in block-number order, and they are exactly the blocks of
      that year. */
  lemma BlocksOfYearOrdered(blocks: seq<TimeBlock>, year: int)
    ensures var bs := BlocksOfYear(blocks, year);
      && (forall i, j :: 0 <= i < j < |bs| ==> bs[i].blockNumber <= bs[j].blockNumber)
      && (forall b :: b in bs <==> b in blocks && b.yearOfStudy == year)
  {
    var mine := Filter(blocks, (b: TimeBlock) => b.yearOfStudy == year);
    var keys := BlockNumbers(mine);
    IntLessIsTotal();
    SortIndicesNotAfter(keys, IntLess);
    PermuteMembers(mine, keys, IntLess);
  }

  predicate IsActive(b: TimeBlock, now: int) { b.start <= now <= b.end }
  predicate IsUpcoming(b: TimeBlock, now: int) { now < b.start }

  /** The index of the first active block, or `|blocks|` when none is. */
  function FirstActive(blocks: seq<TimeBlock>, now: int): (k: nat)
    ensures k <= |blocks|
    ensures k < |blocks| ==> IsActive(blocks[k], now)
    ensures forall i :: 0 <= i < k ==> !IsActive(blocks[i], now)
  {
    if blocks == [] then 0
    else if IsActive(blocks[0], now) then 0
    else 1 + FirstActive(blocks[1..], now)
  }

  /** The index of the first upcoming block, or `|blocks|` when none is. */
  function FirstUpcoming(blocks: seq<TimeBlock>, now: int): (k: nat)
    ensures k <= |blocks|
    ensures k < |blocks| ==> IsUpcoming(blocks[k], now)
    ensures forall i :: 0 <= i < k ==> !IsUpcoming(blocks[i], now)
  {
    if blocks == [] then 0
    else if IsUpcoming(blocks[0], now) then 0
    else 1 + FirstUpcoming(blocks[1..], now)
  }

  datatype SlotStatus = Active | Upcoming

  /** The answer of `get_current_time_slot`. */
  datatype SlotResponse =
    | SlotError(code: int)
    | SlotFound(block: TimeBlock, status: SlotStatus, now: int)
    | NoSlot(now: int)   // `current_time_slot` is None, with a message

  /** The slot chosen among blocks in block-number order: the first active one, or else the
      first upcoming one. */
  function ChooseSlot(blocks: seq<TimeBlock>, now: int): (r: SlotResponse)
    ensures !r.SlotError?
  {
    var a := FirstActive(blocks, now);
    var u := FirstUpcoming(blocks, now);
    if a < |blocks| then SlotFound(blocks[a], Active, now)
    else if u < |blocks| then SlotFound(blocks[u], Upcoming, now)
    else NoSlot(now)
  }

  /** The filter of `Batch.objects.get(batch_year=y)`. */
  function OfYear(y: int): BatchKey -> bool {
    (b: BatchKey) => b.batchYear == y
  }

  /** The batch-year request: missing or empty gives 400; no `int` value or several batches
      of that year give 500 (the error escapes to the outer handler); no batch gives 404. */
  function TimeSlot(db: Db, batchYear: Option<string>, year: int, month: int, now: int): SlotResponse {
    if !Truthy(batchYear) then SlotError(400)
    else match ParseInt(batchYear.value)
      case None => SlotError(500)
      case Some(y) =>
        match Get(db.batches, OfYear(y))
        case DoesNotExist => SlotError(404)
        case MultipleObjectsReturned => SlotError(500)
        case Found(batch) =>
          ChooseSlot(BlocksOfYear(db.timeBlocks, CurrentYear(batch.batchYear, year, month)), now)
  }

  /** The scan of the view: one pass over the blocks, remembering the first upcoming block and
      stopping at the first active one. */
  method ScanBlocks(blocks: seq<TimeBlock>, now: int) returns (r: SlotResponse)
    ensures r == ChooseSlot(blocks, now)
  {
    var current: Option<TimeBlock> := None;
    var next: Option<TimeBlock> := None;
    var i := 0;
    while i < |blocks|
      invariant 0 <= i <= |blocks|
      invariant current.None? && i <= FirstActive(blocks, now)
      invariant next.None? <==> i <= FirstUpcoming(blocks, now)
      invariant next.Some? ==> next.value == blocks[FirstUpcoming(blocks, now)]
      decreases |blocks| - i
    {
      var block := blocks[i];
      if block.start <= now <= block.end {
        current := Some(block);
        break;
      } else if now < block.start && next.None? {
        next := Some(block);
      }
      i := i + 1;
    }
    assert current.Some? ==> current.value == blocks[FirstActive(blocks, now)];
    if current.Some? {
      r := SlotFound(current.value, Active, now);
    } else if next.Some? {
      r := SlotFound(next.value, Upcoming, now);
    } else {
      r := NoSlot(now);
    }
  }

  /** `get_current_time_slot`, with today's date and the time of day as parameters. */
  method GetCurrentTimeSlot(db: Db, batchYear: Option<string>, year: int, month: int, now: int)
    returns (r: SlotResponse)
    ensures r == TimeSlot(db, batchYear, year, month, now)
  {
    if batchYear.None? || batchYear.value == "" {
      return SlotError(400);
    }
    var y := ParseInt(batchYear.value);
    if y.None? {
      return SlotError(500);
    }
    var got := Get(db.batches, OfYear(y.value));
    if got.DoesNotExist? {
      return SlotError(404);
    } else if got.MultipleObjectsReturned? {
      return SlotError(500);
    }
    var blocks := BlocksOfYear(db.timeBlocks, CurrentYear(got.value.batchYear, year, month));
    r := ScanBlocks(blocks, now);
  }

  /** Among blocks in block-number order, the active choice is an active block, and no block
      with a smaller number is active. */
  lemma ChosenActiveIsFirst(bs: seq<TimeBlock>, now: int)
    requires forall i, j :: 0 <= i < j < |bs| ==> bs[i].blockNumber <= bs[j].blockNumber
    requires ChooseSlot(bs, now).SlotFound? && ChooseSlot(bs, now).status == Active
    ensures var b := ChooseSlot(bs, now).block;
      && b in bs && IsActive(b, now)
      && forall c :: c in bs && c.blockNumber < b.blockNumber ==> !IsActive(c, now)
  {
    var k := FirstActive(bs, now);
    forall c | c in bs && c.blockNumber < bs[k].blockNumber ensures !IsActive(c, now) {
      var j :| 0 <= j < |bs| && bs[j] == c;
      assert j < k;
    }
  }

  /** Among blocks in block-number order, the upcoming choice is made only when no block is
      active, and no block with a smaller number is upcoming. */
  lemma ChosenUpcomingIsFirst(bs: seq<TimeBlock>, now: int)
    requires forall i, j :: 0 <= i < j < |bs| ==> bs[i].blockNumber <= bs[j].blockNumber
    requires ChooseSlot(bs, now).SlotFound? && ChooseSlot(bs, now).status == Upcoming
    ensures var b := ChooseSlot(bs, now).block;
      && b in bs && IsUpcoming(b, now)
      && (forall c :: c in bs ==> !IsActive(c, now))
      && forall c :: c in bs && c.blockNumber < b.blockNumber ==> !IsUpcoming(c, now)
  {
    var k := FirstUpcoming(bs, now);
    forall c | c in bs ensures !IsActive(c, now) {
      var j :| 0 <= j < |bs| && bs[j] == c;
    }
    forall c | c in bs && c.blockNumber < bs[k].blockNumber ensures !IsUpcoming(c, now) {
      var j :| 0 <= j < |bs| && bs[j] == c;
      assert j < k;
    }
  }

  /** An active answer is an active block of the batch's year, and no block of that year with
      a smaller block number is active. */
  lemma ActiveSlotIsFirst(blocks: seq<TimeBlock>, year: int, now: int)
    requires ChooseSlot(BlocksOfYear(blocks, year), now).SlotFound?
    requires ChooseSlot(BlocksOfYear(blocks, year), now).status == Active
    ensures var b := ChooseSlot(BlocksOfYear(blocks, year), now).block;
      && b in blocks && b.yearOfStudy == year && IsActive(b, now)
      && forall c :: c in blocks && c.yearOfStudy == year && c.blockNumber < b.blockNumber ==> !IsActive(c, now)
  {
    BlocksOfYearOrdered(blocks, year);
    ChosenActiveIsFirst(BlocksOfYear(blocks, year), now);
  }

  /** An upcoming answer comes only when no block of the year is active, and it is the
      upcoming block with the smallest block number. */
  lemma UpcomingSlotIsFirst(blocks: seq<TimeBlock>, year: int, now: int)
    requires ChooseSlot(BlocksOfYear(blocks, year), now).SlotFound?
    requires ChooseSlot(BlocksOfYear(blocks, year), now).status == Upcoming
    ensures var b := ChooseSlot(BlocksOfYear(blocks, year), now).block;
      && b in blocks && b.yearOfStudy == year && IsUpcoming(b, now)
      && (forall c :: c in blocks && c.yearOfStudy == year ==> !IsActive(c, now))
      && forall c :: c in blocks && c.yearOfStudy == year && c.blockNumber < b.blockNumber ==> !IsUpcoming(c, now)
  {
    BlocksOfYearOrdered(blocks, year);
    ChosenUpcomingIsFirst(BlocksOfYear(blocks, year), now);
  }

  /** No slot is answered exactly when every block of the year has started and ended. */
  lemma NoSlotMeansAllEnded(blocks: seq<TimeBlock>, year: int, now: int)
    ensures ChooseSlot(BlocksOfYear(blocks, year), now).NoSlot? <==>
      forall c :: c in blocks && c.yearOfStudy == year ==> c.start <= now && c.end < now
  {
    var bs := BlocksOfYear(blocks, year);
    BlocksOfYearOrdered(blocks, year);
    if ChooseSlot(bs, now).NoSlot? {
      forall c | c in blocks && c.yearOfStudy == year ensures c.start <= now && c.end < now {
        var j :| 0 <= j < |bs| && bs[j] == c;
      }
    } else {
      var k := if FirstActive(bs, now) < |bs| then FirstActive(bs, now) else FirstUpcoming(bs, now);
      assert bs[k] in bs && (IsActive(bs[k], now) || IsUpcoming(bs[k], now));
    }
  }

  /** The upcoming block is the first in block-number order, not the one starting soonest:
      block 1 at 11:00-12:00 is chosen over block 2 at 10:00-11:00 at 9:00. */
  lemma UpcomingNotEarliest()
    ensures var b1 := TimeBlock(1, 1, 660, 720);
      var b2 := TimeBlock(1, 2, 600, 660);
      ChooseSlot([b1, b2], 540) == SlotFound(b1, Upcoming, 540) && b2.start < b1.start
  {
  }

  /** A missing or empty batch year, and only that, is answered with 400. */
  lemma TimeSlotMissingYear(db: Db, batchYear: Option<string>, year: int, month: int, now: int)
    ensures TimeSlot(db, batchYear, year, month, now) == SlotError(400) <==> !Truthy(batchYear)
  {
  }

  /** A batch year that `int()` rejects is answered with 500. */
  lemma TimeSlotBadYear(db: Db, batchYear: Option<string>, year: int, month: int, now: int)
    requires Truthy(batchYear) && ParseInt(batchYear.value).None?
    ensures TimeSlot(db, batchYear, year, month, now) == SlotError(500)
  {
  }

  /** An integer batch year is answered with 404 exactly when no batch has that year. */
  lemma TimeSlotUnknownBatch(db: Db, batchYear: Option<string>, y: int, year: int, month: int, now: int)
    requires Truthy(batchYear) && ParseInt(batchYear.value) == Some(y)
    ensures TimeSlot(db, batchYear, year, month, now) == SlotError(404) <==>
      forall b :: b in db.batches ==> b.batchYear != y
  {
    GetNone(db.batches, OfYear(y));
  }

  /** The batch-year lookup ignores the department, so two departments with a batch of the
      same year make the action fail with 500. */
  lemma SharedBatchYearFails(y: int, year: int, month: int, now: int)
    ensures var db := Db(["CSE", "ECE"], [BatchKey("CSE", y), BatchKey("ECE", y)], [], [], [], []);
      TimeSlot(db, Some(IntToString(y)), year, month, now) == SlotError(500)
  {
    var s := IntToString(y);
    IntRoundTrip(y);
    assert s != "";
    var batches := [BatchKey("CSE", y), BatchKey("ECE", y)];
    var p := OfYear(y);
    assert batches[..1] == [BatchKey("CSE", y)] && batches[..1][..0] == [];
    assert Filter(batches, p) == batches;
    assert Get(batches, p) == MultipleObjectsReturned;
  }

  // ---------------------------------------------------------------------------------------
  // Students of chosen departments and sections

  /** One row of the students listing. */
  datatype StudentRow = StudentRow(regNo: string, name: string, dept: string, section: string, batchYear: string)

  datatype StudentsResponse = StudentsError(code: int) | StudentsOk(students: seq<StudentRow>, count: nat)

  /** `[t.strip() for t in tokens if t.strip()]` */
  function StripAll(tokens: seq<string>): (r: seq<string>)
    ensures |r| <= |tokens|
  {
    if tokens == [] then []
    else
      var rest := StripAll(tokens[..|tokens| - 1]);
      var t := Strip(tokens[|tokens| - 1]);
      if t != "" then rest + [t] else rest
  }

  /** The kept tokens are the non-blank stripped tokens. */
  lemma {:induction false} StripAllMembers(tokens: seq<string>)
    ensures forall x :: x in StripAll(tokens) <==> x != "" && exists t :: t in tokens && Strip(t) == x
  {
    if tokens != [] {
      var init := tokens[..|tokens| - 1];
      StripAllMembers(init);
      assert tokens == init + [tokens[|tokens| - 1]];
    }
  }

  lemma {:induction false} StripAllKeeps(tokens: seq<string>, t: string)
    requires t in tokens
    ensures Strip(t) != "" ==> Strip(t) in StripAll(tokens)
  {
    var init := tokens[..|tokens| - 1];
    if t != tokens[|tokens| - 1] {
      assert tokens == init + [tokens[|tokens| - 1]];
      StripAllKeeps(init, t);
    }
  }

  /** Section token `s` contributes name `x` to department `dept`: a bare name applies to
      every department; "Dept-Sec" contributes the stripped part after the first "-" when
      the stripped part before it is `dept`. */
  predicate Contributes(s: string, dept: string, x: string) {
    if '-' in s then Strip(SplitFirst(s, '-').0) == dept && x == Strip(SplitFirst(s, '-').1)
    else x == s
  }

  /** The section names the view collects for one department. */
  function NamesFor(sections: seq<string>, dept: string): seq<string> {
    if sections == [] then []
    else
      var rest := NamesFor(sections[..|sections| - 1], dept);
      var s := sections[|sections| - 1];
      if '-' in s then
        if Strip(SplitFirst(s, '-').0) == dept then rest + [Strip(SplitFirst(s, '-').1)] else rest
      else rest + [s]
  }

  lemma {:induction false} NamesForMembers(sections: seq<string>, dept: string)
    ensures forall x :: x in NamesFor(sections, dept) <==> exists s :: s in sections && Contributes(s, dept, x)
  {
    if sections != [] {
      var init := sections[..|sections| - 1];
      var last := sections[|sections| - 1];
      NamesForMembers(init, dept);
      assert sections == init + [last];
      forall x ensures x in NamesFor(sections, dept) <==> exists s :: s in sections && Contributes(s, dept, x) {
        if x in NamesFor(sections, dept) {
          if x in NamesFor(init, dept) {
            var s :| s in init && Contributes(s, dept, x);
            assert s in sections;
          } else {
            assert Contributes(last, dept, x) && last in sections;
          }
        }
        if exists s :: s in sections && Contributes(s, dept, x) {
          var s :| s in sections && Contributes(s, dept, x);
          if s != last {
            assert s in init;
          }
        }
      }
    }
  }

  /** The section-name loop of the view. */
  method CollectNames(sections: seq<string>, dept: string) returns (names: seq<string>)
    ensures names == NamesFor(sections, dept)
  {
    names := [];
    var i := 0;
    while i < |sections|
      invariant 0 <= i <= |sections|
      invariant names == NamesFor(sections[..i], dept)
    {
      var s := sections[i];
      assert sections[..i + 1][..i] == sections[..i];
      if '-' in s {
        var (deptPart, sectionPart) := SplitFirst(s, '-');
        if Strip(deptPart) == dept {
          names := names + [Strip(sectionPart)];
        }
      } else {
        names := names + [s];
      }
      i := i + 1;
    }
    assert sections[..i] == sections;
  }

  /** The sections of a batch to list: those named, or all of them when no name is left. */
  function SectionsToList(db: Db, batch: BatchKey, names: seq<string>): seq<SectionKey> {
    if names == [] then Filter(db.sections, (s: SectionKey) => s.batch == batch)
    else Filter(db.sections, (s: SectionKey) => s.batch == batch && s.name in names)
  }

  function StudentNames(ss: seq<Student>): (r: seq<string>)
    ensures |r| == |ss| && forall i :: 0 <= i < |ss| ==> r[i] == ss[i].name
  {
    if ss == [] then [] else StudentNames(ss[..|ss| - 1]) + [ss[|ss| - 1].name]
  }

  /** The row of a student listed under a department. */
  function RowOf(st: Student, dept: string, batchYear: string): StudentRow {
    StudentRow(st.regNo, st.name, dept, st.section.name, batchYear)
  }

  function RowsOf(ss: seq<Student>, dept: string, batchYear: string): (r: seq<StudentRow>)
    ensures |r| == |ss| && forall i :: 0 <= i < |ss| ==> r[i] == RowOf(ss[i], dept, batchYear)
  {
    if ss == [] then [] else RowsOf(ss[..|ss| - 1], dept, batchYear) + [RowOf(ss[|ss| - 1], dept, batchYear)]
  }

  /** The students of one section, by name (`order_by('name')`). */
  function SectionStudents(db: Db, sec: SectionKey): seq<Student> {
    var ss := Filter(db.students, (st: Student) => st.section == sec);
    Permute(ss, SortIndices(StudentNames(ss), StrLess))
  }

  /** A section lists exactly its students, in name order. */
  lemma SectionStudentsFacts(db: Db, sec: SectionKey)
    ensures var ss := SectionStudents(db, sec);
      && (forall st :: st in ss <==> st in db.students && st.section == sec)
      && forall i, j :: 0 <= i < j < |ss| ==> !StrLess(ss[j].name, ss[i].name)
  {
    var mine := Filter(db.students, (st: Student) => st.section == sec);
    var keys := StudentNames(mine);
    StrLessIsTotal();
    SortIndicesNotAfter(keys, StrLess);
    PermuteMembers(mine, keys, StrLess);
  }

  /** The rows `f` gives for each item of `xs`, one item after the other. */
  function ConcatMap<T>(xs: seq<T>, f: T -> seq<StudentRow>): seq<StudentRow> {
    if xs == [] then [] else ConcatMap(xs[..|xs| - 1], f) + f(xs[|xs| - 1])
  }

  /** One more item adds its rows at the end. */
  lemma ConcatMapSnoc<T>(xs: seq<T>, f: T -> seq<StudentRow>, i: nat)
    requires i < |xs|
    ensures ConcatMap(xs[..i + 1], f) == ConcatMap(xs[..i], f) + f(xs[i])
  {
    assert xs[..i + 1][..i] == xs[..i];
  }

  lemma {:induction false} ConcatMapMembers<T>(xs: seq<T>, f: T -> seq<StudentRow>, row: StudentRow)
    ensures row in ConcatMap(xs, f) <==> exists x :: x in xs && row in f(x)
  {
    if xs != [] {
      var init := xs[..|xs| - 1];
      var last := xs[|xs| - 1];
      ConcatMapMembers(init, f, row);
      assert xs == init + [last];
      if row in f(last) {
        assert last in xs;
      }
      if exists x :: x in xs && row in f(x) {
        var x :| x in xs && row in f(x);
        if x != last {
          assert x in init;
        }
      }
    }
  }

  /** The rows of one section's students, listed under a department. */
  function SectionRows(db: Db, dept: string, batchYear: string): SectionKey -> seq<StudentRow> {
    sec => RowsOf(SectionStudents(db, sec), dept, batchYear)
  }

  /** The batch a department's listing uses, when exactly one batch matches. */
  function DeptBatch(db: Db, dept: string, y: int): Got<BatchKey> {
    Get(db.batches, (b: BatchKey) => b.dept == dept && b.batchYear == y)
  }

  /** The rows of one department: nothing when its batch is missing or ambiguous. */
  function DeptRows(db: Db, dept: string, y: int, batchYear: string, sections: seq<string>): seq<StudentRow> {
    match DeptBatch(db, dept, y)
    case Found(batch) => ConcatMap(SectionsToList(db, batch, NamesFor(sections, dept)), SectionRows(db, dept, batchYear))
    case _ => []
  }

  /** The rows of each department, by the department's name. */
  function DeptRowsOf(db: Db, y: int, batchYear: string, sections: seq<string>): string -> seq<StudentRow> {
    dept => DeptRows(db, dept, y, batchYear, sections)
  }

  /** The rows of the departments: none when the batch year is not an integer. */
  function Listing(db: Db, depts: seq<string>, batchYear: string, sections: seq<string>): seq<StudentRow> {
    match ParseInt(batchYear)
    case None => []
    case Some(y) => ConcatMap(depts, DeptRowsOf(db, y, batchYear, sections))
  }

  /** `get_students`: 400 without departments or batch year, or when every department token is
      blank; a batch year that is not an integer makes every department fail, which the view
      skips, so the listing is empty. */
  function Students(db: Db, departments: seq<string>, batchYear: Option<string>, sections: seq<string>): StudentsResponse {
    if departments == [] || !Truthy(batchYear) then StudentsError(400)
    else
      var depts := StripAll(departments);
      var secs := StripAll(sections);
      if depts == [] then StudentsError(400)
      else
        var rows := Listing(db, depts, batchYear.value, secs);
        StudentsOk(rows, |rows|)
  }

  /** The students of one department: its batch, its sections and their students. */
  method DeptStudents(db: Db, dept: string, y: int, batchYear: string, sections: seq<string>)
    returns (rows: seq<StudentRow>)
    ensures rows == DeptRows(db, dept, y, batchYear, sections)
  {
    var got := DeptBatch(db, dept, y);
    if !got.Found? {
      return [];
    }
    var names := CollectNames(sections, dept);
    var secs := SectionsToList(db, got.value, names);
    rows := SectionsStudents(db, secs, dept, batchYear);
  }

  /** The section loop: each section's students, by name, after those of the sections before. */
  method SectionsStudents(db: Db, secs: seq<SectionKey>, dept: string, batchYear: string)
    returns (rows: seq<StudentRow>)
    ensures rows == ConcatMap(secs, SectionRows(db, dept, batchYear))
  {
    rows := [];
    var i := 0;
    while i < |secs|
      invariant 0 <= i <= |secs|
      invariant rows == ConcatMap(secs[..i], SectionRows(db, dept, batchYear))
    {
      ConcatMapSnoc(secs, SectionRows(db, dept, batchYear), i);
      var sectionStudents := SectionStudents(db, secs[i]);
      rows := rows + RowsOf(sectionStudents, dept, batchYear);
      i := i + 1;
    }
    assert secs[..i] == secs;
  }

  /** The view's department loop. */
  method GetStudents(db: Db, departments: seq<string>, batchYear: Option<string>, sections: seq<string>)
    returns (r: StudentsResponse)
    ensures r == Students(db, departments, batchYear, sections)
  {
    if departments == [] || batchYear.None? || batchYear.value == "" {
      return StudentsError(400);
    }
    var depts := StripAll(departments);
    var secs := StripAll(sections);
    if depts == [] {
      return StudentsError(400);
    }
    var y := ParseInt(batchYear.value);
    var students: seq<StudentRow> := [];
    if y.Some? {
      students := AllStudents(db, depts, y.value, batchYear.value, secs);
    }
    r := StudentsOk(students, |students|);
  }

  /** The department loop: each department's students after those of the departments before. */
  method AllStudents(db: Db, depts: seq<string>, y: int, batchYear: string, sections: seq<string>)
    returns (students: seq<StudentRow>)
    ensures students == ConcatMap(depts, DeptRowsOf(db, y, batchYear, sections))
  {
    students := [];
    var i := 0;
    while i < |depts|
      invariant 0 <= i <= |depts|
      invariant students == ConcatMap(depts[..i], DeptRowsOf(db, y, batchYear, sections))
    {
      ConcatMapSnoc(depts, DeptRowsOf(db, y, batchYear, sections), i);
      var more := DeptStudents(db, depts[i], y, batchYear, sections);
      students := students + more;
      i := i + 1;
    }
    assert depts[..i] == depts;
  }

  /** Student `st` is listed under department `dept`: the department has exactly one batch of
      year `y`, the student's section is a section of that batch, and it is named by the
      section tokens unless none of them names a section for the department. */
  predicate Listed(db: Db, dept: string, y: int, sections: seq<string>, st: Student) {
    && DeptBatch(db, dept, y).Found?
    && st in db.students
    && st.section in db.sections
    && st.section.batch == DeptBatch(db, dept, y).value
    && (NamesFor(sections, dept) == [] || st.section.name in NamesFor(sections, dept))
  }

  /** A section's rows are the rows of its students. */
  lemma SectionRowsMembers(db: Db, sec: SectionKey, dept: string, batchYear: string, row: StudentRow)
    ensures row in SectionRows(db, dept, batchYear)(sec) <==>
      exists st :: st in db.students && st.section == sec && row == RowOf(st, dept, batchYear)
  {
    var ss := SectionStudents(db, sec);
    SectionStudentsFacts(db, sec);
    if row in RowsOf(ss, dept, batchYear) {
      var k :| 0 <= k < |ss| && RowsOf(ss, dept, batchYear)[k] == row;
      assert ss[k] in ss;
    }
    if exists st :: st in db.students && st.section == sec && row == RowOf(st, dept, batchYear) {
      var st :| st in db.students && st.section == sec && row == RowOf(st, dept, batchYear);
      assert st in ss;
      var k :| 0 <= k < |ss| && ss[k] == st;
      assert RowsOf(ss, dept, batchYear)[k] == row;
    }
  }

  /** `row` is the row of a student listed under `dept`. */
  ghost predicate ListsRow(db: Db, dept: string, y: int, batchYear: string, sections: seq<string>, row: StudentRow) {
    exists st :: Listed(db, dept, y, sections, st) && row == RowOf(st, dept, batchYear)
  }

  /** The sections listed for a batch: its sections, restricted to the names when any is left. */
  lemma SectionsToListMembers(db: Db, batch: BatchKey, names: seq<string>, sec: SectionKey)
    ensures sec in SectionsToList(db, batch, names) <==>
      sec in db.sections && sec.batch == batch && (names == [] || sec.name in names)
  {
  }

  /** A student is listed under a department with a batch exactly when the student's section
      is among the sections listed for that batch. */
  lemma ListedIffSectionListed(db: Db, dept: string, y: int, sections: seq<string>, st: Student)
    requires DeptBatch(db, dept, y).Found?
    ensures Listed(db, dept, y, sections, st) <==>
      st in db.students && st.section in SectionsToList(db, DeptBatch(db, dept, y).value, NamesFor(sections, dept))
  {
    SectionsToListMembers(db, DeptBatch(db, dept, y).value, NamesFor(sections, dept), st.section);
  }

  lemma DeptRowsSound(db: Db, dept: string, y: int, batchYear: string, sections: seq<string>, row: StudentRow)
    requires row in DeptRows(db, dept, y, batchYear, sections)
    ensures ListsRow(db, dept, y, batchYear, sections, row)
  {
    var got := DeptBatch(db, dept, y);
    var secs := SectionsToList(db, got.value, NamesFor(sections, dept));
    var f := SectionRows(db, dept, batchYear);
    ConcatMapMembers(secs, f, row);
    var sec :| sec in secs && row in f(sec);
    SectionRowsMembers(db, sec, dept, batchYear, row);
    var st :| st in db.students && st.section == sec && row == RowOf(st, dept, batchYear);
    ListedIffSectionListed(db, dept, y, sections, st);
  }

  lemma DeptRowsComplete(db: Db, dept: string, y: int, batchYear: string, sections: seq<string>, row: StudentRow)
    requires ListsRow(db, dept, y, batchYear, sections, row)
    ensures row in DeptRows(db, dept, y, batchYear, sections)
  {
    var st :| Listed(db, dept, y, sections, st) && row == RowOf(st, dept, batchYear);
    var got := DeptBatch(db, dept, y);
    var secs := SectionsToList(db, got.value, NamesFor(sections, dept));
    var f := SectionRows(db, dept, batchYear);
    ListedIffSectionListed(db, dept, y, sections, st);
    SectionRowsMembers(db, st.section, dept, batchYear, row);
    ConcatMapMembers(secs, f, row);
  }

  /** A department's rows are the rows of its listed students. */
  lemma DeptRowsMembers(db: Db, dept: string, y: int, batchYear: string, sections: seq<string>, row: StudentRow)
    ensures row in DeptRowsOf(db, y, batchYear, sections)(dept) <==> ListsRow(db, dept, y, batchYear, sections, row)
  {
    if row in DeptRows(db, dept, y, batchYear, sections) {
      DeptRowsSound(db, dept, y, batchYear, sections, row);
    }
    if ListsRow(db, dept, y, batchYear, sections, row) {
      DeptRowsComplete(db, dept, y, batchYear, sections, row);
    }
  }

  /** `row` is the row of a student listed under one of `depts`. */
  ghost predicate ListsRowOfAny(db: Db, depts: seq<string>, y: int, batchYear: string, sections: seq<string>, row: StudentRow) {
    exists dept :: dept in depts && ListsRow(db, dept, y, batchYear, sections, row)
  }

  /** A listing's rows are the rows of the students listed under its departments. */
  lemma ListingMembers(db: Db, depts: seq<string>, y: int, batchYear: string, sections: seq<string>, row: StudentRow)
    ensures row in ConcatMap(depts, DeptRowsOf(db, y, batchYear, sections)) <==>
      ListsRowOfAny(db, depts, y, batchYear, sections, row)
  {
    var f := DeptRowsOf(db, y, batchYear, sections);
    ConcatMapMembers(depts, f, row);
    if row in ConcatMap(depts, f) {
      var dept :| dept in depts && row in f(dept);
      DeptRowsMembers(db, dept, y, batchYear, sections, row);
    }
    if exists dept :: dept in depts && ListsRow(db, dept, y, batchYear, sections, row) {
      var dept :| dept in depts && ListsRow(db, dept, y, batchYear, sections, row);
      DeptRowsMembers(db, dept, y, batchYear, sections, row);
    }
  }

  /** The count of the listing is the number of its rows, and a batch year that is not an
      integer lists no one. */
  lemma StudentsCount(db: Db, departments: seq<string>, batchYear: Option<string>, sections: seq<string>)
    requires Students(db, departments, batchYear, sections).StudentsOk?
    ensures var r := Students(db, departments, batchYear, sections);
      && r.count == |r.students|
      && (ParseInt(batchYear.value).None? ==> r.students == [])
  {
  }

  /** With an integer batch year, a row is listed exactly when it is the row of a student
      listed under one of the stripped, non-blank department tokens, with the stripped
      non-blank section tokens. */
  lemma StudentsListing(db: Db, departments: seq<string>, batchYear: string, y: int, sections: seq<string>, row: StudentRow)
    requires Students(db, departments, Some(batchYear), sections).StudentsOk?
    requires ParseInt(batchYear) == Some(y)
    ensures row in Students(db, departments, Some(batchYear), sections).students <==>
      ListsRowOfAny(db, StripAll(departments), y, batchYear, StripAll(sections), row)
  {
    var depts := StripAll(departments);
    var secs := StripAll(sections);
    var rows := ConcatMap(depts, DeptRowsOf(db, y, batchYear, secs));
    assert Listing(db, depts, batchYear, secs) == rows;
    assert Students(db, departments, Some(batchYear), sections).students == rows;
    ListingMembers(db, depts, y, batchYear, secs, row);
  }

  /** The 400 answers of the listing. */
  lemma StudentsRefusals(db: Db, departments: seq<string>, batchYear: Option<string>, sections: seq<string>)
    ensures Students(db, departments, batchYear, sections).StudentsError? <==>
      departments == [] || !Truthy(batchYear) || forall d :: d in departments ==> Strip(d) == ""
  {
    if departments != [] && Truthy(batchYear) {
      var depts := StripAll(departments);
      if depts != [] {
        var x := depts[0];
        StripAllMembers(departments);
        assert x in depts;
        var rows := Listing(db, depts, batchYear.value, StripAll(sections));
        assert Students(db, departments, batchYear, sections) == StudentsOk(rows, |rows|);
      } else {
        assert Students(db, departments, batchYear, sections) == StudentsError(400);
        forall d | d in departments ensures Strip(d) == "" {
          StripAllKeeps(departments, d);
        }
      }
    }
  }
}
