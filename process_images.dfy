/** The `process_images` view: check the request, parse the selected sections, look the session's
    department, batch, subject and section up, recognise the students in every photo, keep each
    student's best confidence, and predict presence for every student of the roster. */
module ProcessImages {
  import opened PyRuntime
  import opened Sorting
  import opened Schema
  import opened Gallery
  import opened FaceMatch
  import opened Service
  import opened Records

  /** A view's answer: an HTTP error status, or the success body. */
  datatype Response<T> = Status(code: int) | Ok(body: T)

  /** The `threshold` field: absent (0.45), a number, or text `float()` rejects. */
  datatype ThresholdField = DefaultThreshold | ThresholdValue(value: real) | NotANumber

  /** The request: images (base64 text, possibly a data URL), department name, batch year as text
      ("" when absent), subject code, the sections string and the threshold. */
  datatype ImageRequest = ImageRequest(
    images: seq<string>, dept: string, batchYear: string, subject: string,
    sections: string, threshold: ThresholdField)

  /** What decoding an image's base64 text gives: invalid base64, or bytes that decode to a photo
      (`None` when they are not an image). */
  datatype Decoded = NotBase64 | Bytes(photo: Option<Scene>)

  /** The checked parameters of a request. */
  datatype Params = Params(dept: string, batchYear: int, subject: string, threshold: real, groups: seq<SectionGroup>)

  /** One entry of `detected_students` in the response. */
  datatype Prediction = Prediction(regNo: string, name: string, confidence: real, isPresent: bool, section: SectionKey)

  /** The success body: the number of photos processed, the predictions in register-number order,
      the number of distinct students detected and the number of predictions. */
  datatype SessionReport = SessionReport(imagesProcessed: nat, predictions: seq<Prediction>, totalDetected: nat, totalStudents: nat)

  // ---------------------------------------------------------------------------------------
  // Sections

  /** The groups the comma-separated parts give: one per part holding "-", named by the text after
      the last "-" of the stripped part, with the request's department and batch. */
  function GroupsOf(dept: string, batchYear: int, parts: seq<string>): (groups: seq<SectionGroup>)
    ensures |groups| <= |parts|
    ensures forall i :: 0 <= i < |groups| ==>
      groups[i].dept == dept && groups[i].batchYear == batchYear
      && |groups[i].sectionNames| == 1 && '-' !in groups[i].sectionNames[0]
  {
    if parts == [] then []
    else
      var prev := GroupsOf(dept, batchYear, parts[..|parts| - 1]);
      var part := parts[|parts| - 1];
      if '-' in part then prev + [PartGroup(dept, batchYear, part)] else prev
  }

  /** The group of one part holding "-". */
  function PartGroup(dept: string, batchYear: int, part: string): SectionGroup {
    SectionGroup(dept, batchYear, [AfterLast(Strip(part), '-')])
  }

  /** `sections_data`: the parsed groups, or one group naming no section when none parses. */
  function SectionGroups(dept: string, batchYear: int, sections: string): (groups: seq<SectionGroup>)
    ensures groups != []
  {
    var parsed := if sections == "" then [] else GroupsOf(dept, batchYear, SplitOn(sections, ','));
    if parsed == [] then [SectionGroup(dept, batchYear, [])] else parsed
  }

  /** The groups always carry the request's department and batch; either there is the one group
      naming no section, or every group names exactly one section without a "-" in it. */
  lemma SectionGroupsShape(dept: string, batchYear: int, sections: string)
    ensures var groups := SectionGroups(dept, batchYear, sections);
      && |groups| >= 1
      && (forall i :: 0 <= i < |groups| ==> groups[i].dept == dept && groups[i].batchYear == batchYear)
      && (groups == [SectionGroup(dept, batchYear, [])] ||
          forall i :: 0 <= i < |groups| ==> |groups[i].sectionNames| == 1 && '-' !in groups[i].sectionNames[0])
      && ('-' !in sections ==> groups == [SectionGroup(dept, batchYear, [])])
  {
    if sections != "" && '-' !in sections {
      NoDashParts(dept, batchYear, SplitOn(sections, ','), sections);
    }
  }

  lemma {:induction false} NoDashParts(dept: string, batchYear: int, parts: seq<string>, sections: string)
    requires sections != "" && '-' !in sections && parts == SplitOn(sections, ',')
    ensures GroupsOf(dept, batchYear, parts) == []
  {
    JoinSplitOn(sections, ',');
    assert forall i :: 0 <= i < |parts| ==> '-' !in parts[i] by {
      forall i | 0 <= i < |parts| ensures '-' !in parts[i] {
        JoinHolds(parts, i, ',');
      }
    }
    NoDashGroups(dept, batchYear, parts);
  }

  lemma {:induction false} NoDashGroups(dept: string, batchYear: int, parts: seq<string>)
    requires forall i :: 0 <= i < |parts| ==> '-' !in parts[i]
    ensures GroupsOf(dept, batchYear, parts) == []
  {
    if parts != [] {
      NoDashGroups(dept, batchYear, parts[..|parts| - 1]);
    }
  }

  /** Every part is a piece of the joined text. */
  lemma {:induction false} JoinHolds(parts: seq<string>, i: nat, c: char)
    requires i < |parts|
    ensures forall x :: x in parts[i] ==> x in Join(parts, [c])
  {
    if |parts| > 1 {
      if i == 0 {
        assert Join(parts, [c]) == parts[0] + [c] + Join(parts[1..], [c]);
      } else {
        JoinHolds(parts[1..], i - 1, c);
        assert Join(parts, [c]) == parts[0] + [c] + Join(parts[1..], [c]);
      }
    }
  }

  /** A "Department-Section" token whose section name has no "-" and no surrounding spaces reads
      back as that section name. */
  lemma SectionTokenReadsBack(d: string, name: string)
    requires PlainToken(d, name)
    ensures AfterLast(Strip(SectionToken(d, name)), '-') == name
  {
    var s := d + "-" + name;
    assert s[0] == if d == [] then '-' else d[0];
    assert s[|s| - 1] == name[|name| - 1];
    StripFixed(s);
    var r := AfterLast(s, '-');
    var p :| s == p + ['-'] + r;
    assert s == d + ['-'] + name;
    LastSeparatorUnique(p, r, d, name, '-');
  }

  /** One group per part. */
  function PartGroups(dept: string, batchYear: int, parts: seq<string>): (groups: seq<SectionGroup>)
    ensures |groups| == |parts|
  {
    if parts == [] then [] else PartGroups(dept, batchYear, parts[..|parts| - 1]) + [PartGroup(dept, batchYear, parts[|parts| - 1])]
  }

  lemma {:induction false} PartGroupsAt(dept: string, batchYear: int, parts: seq<string>, i: nat)
    requires i < |parts|
    ensures PartGroups(dept, batchYear, parts)[i] == PartGroup(dept, batchYear, parts[i])
  {
    if i < |parts| - 1 {
      PartGroupsAt(dept, batchYear, parts[..|parts| - 1], i);
    }
  }

  /** Parts that all hold "-" give one group each, in order. */
  lemma {:induction false} DashedParts(dept: string, batchYear: int, parts: seq<string>)
    requires forall i :: 0 <= i < |parts| ==> '-' in parts[i]
    ensures GroupsOf(dept, batchYear, parts) == PartGroups(dept, batchYear, parts)
  {
    if parts != [] {
      DashedParts(dept, batchYear, parts[..|parts| - 1]);
      GroupsOfDashed(dept, batchYear, parts);
    }
  }

  lemma GroupsOfDashed(dept: string, batchYear: int, parts: seq<string>)
    requires parts != [] && '-' in parts[|parts| - 1]
    ensures GroupsOf(dept, batchYear, parts)
      == GroupsOf(dept, batchYear, parts[..|parts| - 1]) + [PartGroup(dept, batchYear, parts[|parts| - 1])]
  {
  }

  /** A token "D-S" with no comma, S non-empty without "-", and no spaces around it. */
  predicate PlainToken(d: string, name: string) {
    && name != [] && '-' !in name && ',' !in name && ',' !in d
    && !IsSpace(name[0]) && !IsSpace(name[|name| - 1])
    && (d != [] ==> !IsSpace(d[0]))
  }

  /** The text "D-S" naming section S of department D. */
  function SectionToken(d: string, name: string): string {
    d + "-" + name
  }

  /** A sections string written as "D1-S1,D2-S2,..." names exactly the sections S1, S2, ..., in order,
      each as a group of its own. */
  lemma SectionGroupsReadBack(dept: string, batchYear: int, parts: seq<string>, depts: seq<string>, names: seq<string>)
    requires |depts| == |names| == |parts| >= 1
    requires forall i :: 0 <= i < |names| ==> parts[i] == SectionToken(depts[i], names[i]) && PlainToken(depts[i], names[i])
    ensures var groups := SectionGroups(dept, batchYear, Join(parts, ","));
      |groups| == |names| && forall i :: 0 <= i < |names| ==> groups[i] == SectionGroup(dept, batchYear, [names[i]])
  {
    var text := Join(parts, ",");
    forall i | 0 <= i < |parts| ensures ',' !in parts[i] && '-' in parts[i] {
      TokenShape(depts[i], names[i]);
    }
    SplitOnJoin(parts, ',');
    TokenShape(depts[0], names[0]);
    JoinNonEmpty(parts, ',');
    DashedParts(dept, batchYear, parts);
    assert SectionGroups(dept, batchYear, text) == PartGroups(dept, batchYear, parts);
    forall i | 0 <= i < |names|
      ensures PartGroups(dept, batchYear, parts)[i] == SectionGroup(dept, batchYear, [names[i]])
    {
      PartGroupsAt(dept, batchYear, parts, i);
      SectionTokenReadsBack(depts[i], names[i]);
    }
  }

  lemma TokenShape(d: string, name: string)
    requires PlainToken(d, name)
    ensures ',' !in SectionToken(d, name) && '-' in SectionToken(d, name) && SectionToken(d, name) != []
  {
    assert SectionToken(d, name)[|d|] == '-';
  }

  lemma JoinNonEmpty(parts: seq<string>, c: char)
    requires |parts| >= 1 && parts[0] != []
    ensures Join(parts, [c]) != []
  {
    if |parts| > 1 {
      assert Join(parts, [c]) == parts[0] + [c] + Join(parts[1..], [c]);
    }
  }

  // ---------------------------------------------------------------------------------------
  // The request

  /** `int(batch_year) if batch_year else None`, with the missing year read as 0: both fail the
      view's `all([...])` test alike. `None` is the `ValueError` of a year that does not parse. */
  function BatchField(s: string): (r: Option<int>)
    ensures r.None? <==> s != "" && ParseInt(s).None?
    ensures r.Some? && r.value != 0 <==> ParseInt(s).Some? && ParseInt(s).value != 0
    ensures r.Some? && r.value != 0 ==> r == ParseInt(s)
  {
    if s == "" then
      assert Strip(s) == [];
      Some(0)
    else ParseInt(s)
  }

  /** The checks before any lookup: 400 for no images or an empty image, 500 (the view's catch-all)
      when the batch year or threshold is not a number, 400 when the department, a non-zero batch
      year or the subject is missing. */
  function CheckRequest(req: ImageRequest): (r: Response<Params>)
    ensures r.Ok? ==> r.body.groups != []
  {
    if req.images == [] then Status(400)
    else if "" in req.images then Status(400)
    else
      var batch := BatchField(req.batchYear);
      if batch.None? || req.threshold == NotANumber then Status(500)
      else if req.dept == "" || batch.value == 0 || req.subject == "" then Status(400)
      else
        var threshold := if req.threshold.ThresholdValue? then req.threshold.value else 0.45;
        Ok(Params(req.dept, batch.value, req.subject, threshold, SectionGroups(req.dept, batch.value, req.sections)))
  }

  /** A request without images, or with an empty one, is answered 400; any other refusal is 400 or
      500. */
  lemma CheckRequestErrors(req: ImageRequest)
    ensures var r := CheckRequest(req);
      && (r.Status? ==> r.code == 400 || r.code == 500)
      && ((req.images == [] || "" in req.images) ==> r == Status(400))
  {
  }

  /** A request is accepted exactly when it has images, none of them empty, a department, a subject,
      a threshold that parses and a non-zero batch year that parses. */
  lemma CheckRequestAccepts(req: ImageRequest)
    ensures CheckRequest(req).Ok? <==>
      && req.images != [] && "" !in req.images
      && req.dept != "" && req.subject != "" && req.threshold != NotANumber
      && ParseInt(req.batchYear).Some? && ParseInt(req.batchYear).value != 0
  {
  }

  /** An accepted request carries its department, subject, parsed batch year and parsed sections. */
  lemma CheckRequestCarries(req: ImageRequest)
    ensures var r := CheckRequest(req);
      r.Ok? ==>
        && r.body.dept == req.dept && r.body.subject == req.subject
        && Some(r.body.batchYear) == ParseInt(req.batchYear)
        && r.body.groups == SectionGroups(req.dept, r.body.batchYear, req.sections)
  {
  }

  /** The key of the session's batch. */
  function BatchOf(p: Params): BatchKey {
    BatchKey(p.dept, p.batchYear)
  }

  /** The department and batch lookups: `None` when both are found, 404 when one does not exist,
      500 when a `get` finds several rows. */
  function DeptBatchStatus(db: Db, p: Params): (r: Option<int>)
    ensures r.Some? ==> r.value == 404 || r.value == 500
  {
    match Get(db.departments, d => d == p.dept)
    case DoesNotExist => Some(404)
    case MultipleObjectsReturned => Some(500)
    case Found(_) =>
      match Get(db.batches, b => b == BatchOf(p))
      case DoesNotExist => Some(404)
      case MultipleObjectsReturned => Some(500)
      case Found(_) => None
  }

  /** The lookups as the view writes them.  The subject is filtered on `batch`, a field `Subject`
      does not have, so once the department and batch are found the query raises `FieldError`;
      the view's 404 handler does not catch it and the outer handler answers 500. */
  function LookupStatusAsWritten(db: Db, p: Params): (r: Option<int>)
    ensures r.Some? ==> r.value == 404 || r.value == 500
  {
    match DeptBatchStatus(db, p)
    case Some(code) => Some(code)
    case None => Some(500)
  }

  /** As written, no session gets past the lookups: in a consistent database the answer is 404
      when the department or its batch is missing and 500 otherwise. */
  lemma SubjectLookupRaises(db: Db, p: Params)
    requires Consistent(db)
    ensures LookupStatusAsWritten(db, p) != None
    ensures LookupStatusAsWritten(db, p) == Some(500) <==> p.dept in db.departments && BatchOf(p) in db.batches
  {
    GetAtMostOne(db.departments, d => d == p.dept);
    GetAtMostOne(db.batches, b => b == BatchOf(p));
  }

  /** The lookups with the subject found by its unique code, the only subject key the schema has:
      `None` when department, batch, subject and section are all found, 404 when one does not
      exist, 500 when a `get` finds several rows. */
  function LookupStatus(db: Db, p: Params): (r: Option<int>)
    requires p.groups != []
    ensures r.Some? ==> r.value == 404 || r.value == 500
    ensures DeptBatchStatus(db, p).Some? ==> r == DeptBatchStatus(db, p)
  {
    match DeptBatchStatus(db, p)
    case Some(code) => Some(code)
    case None =>
      match Get(db.subjects, (s: Subject) => s.code == p.subject)
      case DoesNotExist => Some(404)
      case MultipleObjectsReturned => Some(500)
      case Found(_) =>
        var names := p.groups[0].sectionNames;
        if names != [] then
          match Get(db.sections, s => s == SectionKey(BatchOf(p), names[0]))
          case DoesNotExist => Some(404)
          case MultipleObjectsReturned => Some(500)
          case Found(_) => None
        else if Filter(db.sections, (s: SectionKey) => s.batch == BatchOf(p)) == [] then Some(404)
        else None
  }

  /** In a consistent database no lookup finds two rows, and the session is accepted exactly when
      the department, its batch, the subject and the section all exist (any section of the batch
      when none is named); the view as written accepts none of these sessions. */
  lemma LookupAgrees(db: Db, p: Params)
    requires Consistent(db) && p.groups != []
    ensures var names := p.groups[0].sectionNames;
      && LookupStatus(db, p) != Some(500)
      && (LookupStatus(db, p) == None <==>
            && p.dept in db.departments && BatchOf(p) in db.batches
            && (exists s :: s in db.subjects && s.code == p.subject)
            && (if names != [] then SectionKey(BatchOf(p), names[0]) in db.sections
                else exists s :: s in db.sections && s.batch == BatchOf(p)))
    ensures LookupStatus(db, p) == None ==> LookupStatusAsWritten(db, p) == Some(500)
  {
    GetAtMostOne(db.departments, d => d == p.dept);
    GetAtMostOne(db.batches, b => b == BatchOf(p));
    GetAtMostOne(db.subjects, (s: Subject) => s.code == p.subject);
    var names := p.groups[0].sectionNames;
    if names != [] {
      GetAtMostOne(db.sections, s => s == SectionKey(BatchOf(p), names[0]));
    }
  }

  /** A `get` on a filter at most one row satisfies finds the row when there is one. */
  lemma GetAtMostOne<T>(rows: seq<T>, p: T -> bool)
    requires forall i, j :: 0 <= i < j < |rows| && p(rows[i]) ==> !p(rows[j])
    ensures !Get(rows, p).MultipleObjectsReturned?
    ensures Get(rows, p).Found? <==> exists x :: x in rows && p(x)
  {
    FilterAtMostOne(rows, p);
  }

  // ---------------------------------------------------------------------------------------
  // Images

  /** The base64 text of an image: a data URL is replaced by its second comma-separated piece;
      `None` (the image is skipped) when it has none. */
  function Payload(img: string): (r: Option<string>)
    ensures r.Some? ==> ',' !in r.value || !(|img| >= 10 && img[..10] == "data:image")
    ensures !(|img| >= 10 && img[..10] == "data:image") ==> r == Some(img)
  {
    if |img| >= 10 && img[..10] == "data:image" then
      var parts := SplitOn(img, ',');
      if |parts| < 2 then None else Some(parts[1])
    else Some(img)
  }

  /** A data URL "<header>,<data>" with no comma in the header or the data yields the data. */
  lemma PayloadOfDataUrl(header: string, data: string)
    requires |header| >= 10 && header[..10] == "data:image"
    requires ',' !in header && ',' !in data
    ensures Payload(header + "," + data) == Some(data)
  {
    var img := header + "," + data;
    assert img[..10] == header[..10];
    SplitOnPrefix(header, data, ',');
    SplitOnPlain(data, ',');
    assert img == header + [','] + data;
  }

  /** What one image contributes: `None` when it is skipped, otherwise the service's result. */
  function ImageResult(t: ServiceState, env: InitEnv, img: string, p: Params, files: Files, db: Db,
                       decode: string -> Decoded, sim: (nat, string) -> real): Option<ProcessResult>
  {
    match Payload(img)
    case None => None
    case Some(text) =>
      match decode(text)
      case NotBase64 => None
      case Bytes(photo) => Some(Predict(t, env, photo, p.threshold, p.groups, files, db, sim))
  }

  /** The photos of the first `n` images that came back processed, and the students they reported,
      in order. */
  function ImagesUpTo(t: ServiceState, env: InitEnv, images: seq<string>, n: nat, p: Params, files: Files, db: Db,
                      decode: string -> Decoded, sim: (nat, string) -> real): (r: (nat, seq<Detected>))
    requires n <= |images|
    ensures r.0 <= n
  {
    if n == 0 then (0, [])
    else AddResult(ImagesUpTo(t, env, images, n - 1, p, files, db, decode, sim),
                   ImageResult(t, env, images[n - 1], p, files, db, decode, sim))
  }

  /** The count of annotated photos and the students they reported, after one more result. */
  function AddResult(acc: (nat, seq<Detected>), res: Option<ProcessResult>): (nat, seq<Detected>) {
    if res.Some? && res.value.annotated then (acc.0 + 1, acc.1 + res.value.students) else acc
  }

  // ---------------------------------------------------------------------------------------
  // Merging the detections of several photos

  /** One detection merged into `all_detected_students`: kept when its register number is new or
      its confidence is strictly higher. */
  function MergeDetection(m: map<string, Detected>, d: Detected): map<string, Detected> {
    if d.regNo !in m || d.confidence > m[d.regNo].confidence then m[d.regNo := d] else m
  }

  /** The detections merged in order, as `all_detected_students`. */
  function Merged(ds: seq<Detected>): map<string, Detected> {
    if ds == [] then map[] else MergeDetection(Merged(ds[..|ds| - 1]), ds[|ds| - 1])
  }

  /** Every detected register number is kept, with the detection of highest confidence, the earliest
      of those on a tie. */
  lemma {:induction false} MergedBest(ds: seq<Detected>)
    ensures KeysDetected(ds, Merged(ds)) && BoundedBy(ds, Merged(ds)) && BestOf(ds, Merged(ds))
  {
    if ds != [] {
      var init := ds[..|ds| - 1];
      var d := ds[|ds| - 1];
      var prev := Merged(init);
      MergedBest(init);
      assert ds == init + [d];
      assert Merged(ds) == MergeDetection(prev, d);
      MergeKeysStep(init, d, prev);
      MergeBoundStep(init, d, prev);
      MergeBestStep(init, d, prev);
    }
  }

  /** Every detection in `ds` is kept under its register number with at least its confidence. */
  ghost predicate BoundedBy(ds: seq<Detected>, m: map<string, Detected>) {
    forall i :: 0 <= i < |ds| ==> ds[i].regNo in m && ds[i].confidence <= m[ds[i].regNo].confidence
  }

  /** Each kept detection is filed under its own register number and is the earliest best of `ds`. */
  ghost predicate BestOf(ds: seq<Detected>, m: map<string, Detected>) {
    forall k :: k in m ==> m[k].regNo == k && EarliestBest(ds, m[k])
  }

  /** The keys of `m` are exactly the register numbers detected in `ds`. */
  ghost predicate KeysDetected(ds: seq<Detected>, m: map<string, Detected>) {
    forall k :: k in m <==> exists i :: 0 <= i < |ds| && ds[i].regNo == k
  }

  lemma MergeKeysStep(init: seq<Detected>, d: Detected, prev: map<string, Detected>)
    requires KeysDetected(init, prev)
    ensures KeysDetected(init + [d], MergeDetection(prev, d))
  {
    var ds, m := init + [d], MergeDetection(prev, d);
    forall k ensures k in m <==> exists i :: 0 <= i < |ds| && ds[i].regNo == k {
      if k == d.regNo {
        assert ds[|init|].regNo == k;
      } else {
        if k in prev {
          var i :| 0 <= i < |init| && init[i].regNo == k;
          assert ds[i].regNo == k;
        }
        if exists i :: 0 <= i < |ds| && ds[i].regNo == k {
          var i :| 0 <= i < |ds| && ds[i].regNo == k;
          assert init[i].regNo == k;
        }
      }
    }
  }

  lemma MergeBoundStep(init: seq<Detected>, d: Detected, prev: map<string, Detected>)
    requires BoundedBy(init, prev)
    ensures BoundedBy(init + [d], MergeDetection(prev, d))
  {
    var ds, m := init + [d], MergeDetection(prev, d);
    forall i | 0 <= i < |ds| ensures ds[i].regNo in m && ds[i].confidence <= m[ds[i].regNo].confidence {
      if i < |init| {
        assert ds[i] == init[i];
      }
    }
  }

  lemma MergeBestStep(init: seq<Detected>, d: Detected, prev: map<string, Detected>)
    requires BoundedBy(init, prev) && BestOf(init, prev)
    ensures BestOf(init + [d], MergeDetection(prev, d))
  {
    var ds, m := init + [d], MergeDetection(prev, d);
    forall k | k in m ensures m[k].regNo == k && EarliestBest(ds, m[k]) {
      if k == d.regNo && (d.regNo !in prev || d.confidence > prev[d.regNo].confidence) {
        assert ds[|init|] == m[k];
        forall h | 0 <= h < |init| && ds[h].regNo == k ensures ds[h].confidence < d.confidence {
          assert ds[h] == init[h];
        }
      } else {
        var i :| 0 <= i < |init| && init[i] == prev[k]
          && forall h :: 0 <= h < i && init[h].regNo == k ==> init[h].confidence < prev[k].confidence;
        assert ds[i] == m[k];
        forall h | 0 <= h < i && ds[h].regNo == k ensures ds[h].confidence < m[k].confidence {
          assert ds[h] == init[h];
        }
      }
    }
  }

  /** `d` occurs in `ds`, and every earlier detection of the same student has a lower confidence. */
  predicate EarliestBest(ds: seq<Detected>, d: Detected) {
    exists i :: 0 <= i < |ds| && ds[i] == d && forall h :: 0 <= h < i && ds[h].regNo == d.regNo ==> ds[h].confidence < d.confidence
  }

  // ---------------------------------------------------------------------------------------
  // Roster and reconciliation

  /** The students of the named sections of the session's batch, or of the whole batch when no
      group names a section; in table order. */
  function Roster(db: Db, p: Params): seq<Student> {
    var names := NamesOf(p.groups);
    Filter(db.students, (s: Student) => s.section.batch == BatchOf(p) && (names == {} || s.section.name in names))
  }

  /** The section names the groups name. */
  function NamesOf(groups: seq<SectionGroup>): (names: set<string>)
    ensures names == {} <==> forall i :: 0 <= i < |groups| ==> groups[i].sectionNames == []
  {
    if groups == [] then {}
    else
      var last := groups[|groups| - 1];
      var init := groups[..|groups| - 1];
      var rest := NamesOf(init);
      assert forall i :: 0 <= i < |init| ==> groups[i] == init[i];
      var own := set n | n in last.sectionNames;
      assert last.sectionNames != [] ==> last.sectionNames[0] in own;
      assert last.sectionNames == [] ==> own == {};
      rest + own
  }

  /** A roster holds each register number once when the students table does. */
  lemma RosterUnique(db: Db, p: Params)
    requires RegNosUnique(db.students)
    ensures RegNosUnique(Roster(db, p))
  {
    var names := NamesOf(p.groups);
    FilterStudentsUnique(db.students, (s: Student) => s.section.batch == BatchOf(p) && (names == {} || s.section.name in names));
  }

  /** The roster, member by member: the students of the session's batch in a named section, or
      in any section of the batch when no group names one. */
  lemma RosterMembers(db: Db, p: Params, st: Student)
    ensures st in Roster(db, p) <==>
      && st in db.students && st.section.batch == BatchOf(p)
      && ((forall i :: 0 <= i < |p.groups| ==> p.groups[i].sectionNames == [])
          || exists i :: 0 <= i < |p.groups| && st.section.name in p.groups[i].sectionNames)
  {
    NamesOfMembers(p.groups, st.section.name);
  }

  /** A name is among `NamesOf(groups)` exactly when some group lists it. */
  lemma {:induction false} NamesOfMembers(groups: seq<SectionGroup>, n: string)
    ensures n in NamesOf(groups) <==> exists i :: 0 <= i < |groups| && n in groups[i].sectionNames
  {
    if groups != [] {
      var init := groups[..|groups| - 1];
      NamesOfMembers(init, n);
      assert forall i :: 0 <= i < |init| ==> groups[i] == init[i];
      if n in groups[|groups| - 1].sectionNames {
        assert n in NamesOf(groups);
      }
    }
  }

  /** How many section names the groups list, repeats included: the number of `union()` calls
      the roster query takes. */
  function NameCount(groups: seq<SectionGroup>): (n: nat)
    ensures n == 0 <==> forall i :: 0 <= i < |groups| ==> groups[i].sectionNames == []
  {
    if groups == [] then 0
    else
      var init := groups[..|groups| - 1];
      assert forall i :: 0 <= i < |init| ==> groups[i] == init[i];
      NameCount(init) + |groups[|groups| - 1].sectionNames|
  }

  /** The roster as the view builds it: one `union()` per named section on `Student.objects.none()`
      (or the batch's students when no section is named), then `distinct()`; `None` is the
      `NotSupportedError` that `distinct()` raises on a combined query, which the outer handler
      answers with 500. */
  function RosterAsWritten(db: Db, p: Params): Option<seq<Student>> {
    DistinctAfterUnions(NameCount(p.groups), Roster(db, p))
  }

  /** As written, the roster query fails exactly when the groups name two or more sections (the
      same name twice included), and otherwise lists the roster. */
  lemma RosterAsWrittenRaises(db: Db, p: Params)
    ensures RosterAsWritten(db, p).None? <==> NameCount(p.groups) >= 2
    ensures RosterAsWritten(db, p).Some? ==> RosterAsWritten(db, p).value == Roster(db, p)
  {
  }

  /** A request whose sections read "D1-S1,D2-S2,..." with two or more parts gets no roster as
      written: every such request is answered with 500. */
  lemma {:induction false} NamedSectionsRaise(db: Db, p: Params, parts: seq<string>, depts: seq<string>, names: seq<string>)
    requires |depts| == |names| == |parts| >= 2
    requires forall i :: 0 <= i < |names| ==> parts[i] == SectionToken(depts[i], names[i]) && PlainToken(depts[i], names[i])
    requires p.groups == SectionGroups(p.dept, p.batchYear, Join(parts, ","))
    ensures RosterAsWritten(db, p).None?
  {
    SectionGroupsReadBack(p.dept, p.batchYear, parts, depts, names);
    var gs := p.groups;
    assert gs[..1] == [gs[0]] && gs[..1][..0] == [];
    assert NameCount(gs[..1]) == 1;
    AtLeastPrefix(gs, |gs|);
    assert gs[..|gs|] == gs;
  }

  /** When the first group names one section and the second names some, every prefix of two or
      more groups names at least two. */
  lemma {:induction false} AtLeastPrefix(gs: seq<SectionGroup>, j: nat)
    requires 2 <= j <= |gs| && gs[1].sectionNames != [] && NameCount(gs[..1]) == 1
    ensures NameCount(gs[..j]) >= 2
  {
    if j == 2 {
      assert gs[..2][..1] == gs[..1];
    } else {
      AtLeastPrefix(gs, j - 1);
      assert gs[..j][..j - 1] == gs[..j - 1];
    }
  }

  lemma {:induction false} FilterStudentsUnique(rows: seq<Student>, keep: Student -> bool)
    requires RegNosUnique(rows)
    ensures RegNosUnique(Filter(rows, keep))
  {
    if rows != [] {
      var init := rows[..|rows| - 1];
      var last := rows[|rows| - 1];
      var rest := Filter(init, keep);
      FilterStudentsUnique(init, keep);
      if keep(last) {
        var r := rest + [last];
        forall i | 0 <= i < |rest| ensures rest[i].regNo != last.regNo {
          var k :| 0 <= k < |init| && init[k] == rest[i];
          assert rows[k] == rest[i];
        }
        assert Filter(rows, keep) == r;
      }
    }
  }

  /** The prediction for one roster student. */
  function PredictionFor(s: Student, detected: map<string, Detected>): Prediction {
    var present := s.regNo in detected;
    Prediction(s.regNo, s.name, if present then detected[s.regNo].confidence else 0.0, present, s.section)
  }

  /** One prediction per roster student, in roster order. */
  function Reconcile(roster: seq<Student>, detected: map<string, Detected>): (ps: seq<Prediction>)
    ensures |ps| == |roster| && forall i :: 0 <= i < |roster| ==> ps[i] == PredictionFor(roster[i], detected)
  {
    seq(|roster|, i requires 0 <= i < |roster| => PredictionFor(roster[i], detected))
  }

  function RegNosOf(ps: seq<Prediction>): (keys: seq<string>)
    ensures |keys| == |ps| && forall i :: 0 <= i < |ps| ==> keys[i] == ps[i].regNo
  {
    seq(|ps|, i requires 0 <= i < |ps| => ps[i].regNo)
  }

  /** `predictions.sort(key=register_number)` */
  function SortByRegNo(ps: seq<Prediction>): seq<Prediction> {
    Permute(ps, SortIndices(RegNosOf(ps), StrLess))
  }

  predicate StrictlyAscending(ps: seq<Prediction>) {
    forall i, j :: 0 <= i < j < |ps| ==> StrLess(ps[i].regNo, ps[j].regNo)
  }

  /** The predictions are in strictly ascending register-number order, one per roster student: a
      student is present exactly when detected, with the detected confidence, and absent with
      confidence 0 otherwise; detected students outside the roster get no prediction. */
  lemma ReconcileSorted(roster: seq<Student>, detected: map<string, Detected>)
    requires RegNosUnique(roster)
    ensures var ps := SortByRegNo(Reconcile(roster, detected));
      && |ps| == |roster|
      && StrictlyAscending(ps)
      && (forall s :: s in roster ==> PredictionFor(s, detected) in ps)
      && (forall x :: x in ps ==> exists s :: s in roster && x == PredictionFor(s, detected))
      && (forall x :: x in ps ==>
            && (x.isPresent <==> x.regNo in detected)
            && x.confidence == (if x.isPresent then detected[x.regNo].confidence else 0.0))
  {
    var qs := Reconcile(roster, detected);
    SortByRegNoFacts(qs);
    forall s | s in roster ensures PredictionFor(s, detected) in qs {
      var i :| 0 <= i < |roster| && roster[i] == s;
      assert qs[i] == PredictionFor(s, detected);
    }
    forall x | x in qs ensures exists s :: s in roster && x == PredictionFor(s, detected) {
      var k :| 0 <= k < |qs| && qs[k] == x;
      assert roster[k] in roster;
    }
  }

  /** Sorting predictions with distinct register numbers puts them in strictly ascending order and
      keeps exactly the same predictions. */
  lemma SortByRegNoFacts(qs: seq<Prediction>)
    requires forall i, j :: 0 <= i < j < |qs| ==> qs[i].regNo != qs[j].regNo
    ensures var ps := SortByRegNo(qs);
      && |ps| == |qs| && StrictlyAscending(ps)
      && forall x :: x in ps <==> x in qs
  {
    var order := SortIndices(RegNosOf(qs), StrLess);
    var ps := SortByRegNo(qs);
    StrLessIsTotal();
    SortIndicesSorted(RegNosOf(qs), StrLess);
    SortIndicesPermutes(RegNosOf(qs), StrLess);
    forall a, b | 0 <= a < b < |ps| ensures StrLess(ps[a].regNo, ps[b].regNo) {
      assert Before(RegNosOf(qs), StrLess, order[a], order[b]);
      assert order[a] != order[b];
      StrLessIrreflexive(qs[order[a]].regNo);
    }
    forall x | x in qs ensures x in ps {
      var i :| 0 <= i < |qs| && qs[i] == x;
      assert i in order;
      var k :| 0 <= k < |order| && order[k] == i;
      assert ps[k] == x;
    }
  }

  /** Strictly ascending sequences of the same predictions are equal. */
  lemma {:induction false} AscendingUnique(a: seq<Prediction>, b: seq<Prediction>)
    requires StrictlyAscending(a) && StrictlyAscending(b)
    requires forall x :: x in a <==> x in b
    ensures a == b
  {
    EmptyTogether(a, b);
    if a != [] {
      assert a[0] in b && b[0] in a;
      AscendingHeads(a, b);
      forall x ensures x in a[1..] <==> x in b[1..] {
        if x in a[1..] {
          AscendingTailMember(a, b, x);
        }
        if x in b[1..] {
          AscendingTailMember(b, a, x);
        }
      }
      AscendingUnique(a[1..], b[1..]);
      assert a == [a[0]] + a[1..] && b == [b[0]] + b[1..];
    }
  }

  lemma EmptyTogether(a: seq<Prediction>, b: seq<Prediction>)
    requires forall y :: y in a <==> y in b
    ensures a == [] <==> b == []
  {
    if a != [] { assert a[0] in b; }
    if b != [] { assert b[0] in a; }
  }

  lemma AscendingHeads(a: seq<Prediction>, b: seq<Prediction>)
    requires StrictlyAscending(a) && StrictlyAscending(b) && a != [] && b != []
    requires forall y :: y in a <==> y in b
    ensures a[0] == b[0]
  {
    StrLessIsTotal();
    assert a[0] in b && b[0] in a;
  }

  lemma AscendingTailMember(a: seq<Prediction>, b: seq<Prediction>, x: Prediction)
    requires StrictlyAscending(a) && StrictlyAscending(b) && a != [] && b != [] && a[0] == b[0]
    requires forall y :: y in a <==> y in b
    requires x in a[1..]
    ensures x in b[1..]
  {
    var i :| 0 <= i < |a[1..]| && a[1..][i] == x;
    assert a[i + 1] == x;
    assert StrLess(a[0].regNo, x.regNo);
    StrLessIrreflexive(x.regNo);
    assert x in b;
    var j :| 0 <= j < |b| && b[j] == x;
    assert j != 0;
    assert b[1..][j - 1] == x;
  }

  /** The predictions do not depend on the order in which the database returns the roster. */
  lemma ReconcileOrderIndependent(r1: seq<Student>, r2: seq<Student>, detected: map<string, Detected>)
    requires RegNosUnique(r1) && RegNosUnique(r2)
    requires forall s :: s in r1 <==> s in r2
    ensures SortByRegNo(Reconcile(r1, detected)) == SortByRegNo(Reconcile(r2, detected))
  {
    ReconcileSorted(r1, detected);
    ReconcileSorted(r2, detected);
    var a, b := SortByRegNo(Reconcile(r1, detected)), SortByRegNo(Reconcile(r2, detected));
    forall x ensures x in a <==> x in b {
      if x in a {
        var s :| s in r1 && x == PredictionFor(s, detected);
      }
      if x in b {
        var s :| s in r2 && x == PredictionFor(s, detected);
      }
    }
    AscendingUnique(a, b);
  }

  // ---------------------------------------------------------------------------------------
  // The whole view

  /** The detections of all images of a request on the service state `t`. */
  function Detections(t: ServiceState, env: InitEnv, images: seq<string>, p: Params, files: Files, db: Db,
                      decode: string -> Decoded, sim: (nat, string) -> real): (nat, seq<Detected>)
  {
    ImagesUpTo(t, env, images, |images|, p, files, db, decode, sim)
  }

  /** The request reaches the images: its fields check out and every lookup succeeds. */
  predicate Reached(req: ImageRequest, db: Db) {
    var c := CheckRequest(req);
    c.Ok? && LookupStatus(db, c.body) == None
  }

  /** The response of `process_images` for a service in state `s0` (initialised once the lookups
      succeed) and the database `db`, with the subject looked up by its code (`LookupStatus`);
      the lookup as written never lets a request through (`SubjectLookupRaises`). */
  function Outcome(s0: ServiceState, env: InitEnv, req: ImageRequest, files: Files, db: Db,
                   decode: string -> Decoded, sim: (nat, string) -> real): Response<SessionReport>
  {
    match CheckRequest(req)
    case Status(code) => Status(code)
    case Ok(p) =>
      match LookupStatus(db, p)
      case Some(code) => Status(code)
      case None =>
        var (n, ds) := Detections(AfterInit(s0, env), env, req.images, p, files, db, decode, sim);
        Ok(Report(n, ds, Roster(db, p)))
  }

  /** The success body for `n` processed photos that detected `ds`, over the roster `roster`. */
  function Report(n: nat, ds: seq<Detected>, roster: seq<Student>): SessionReport {
    var detected := Merged(ds);
    var ps := SortByRegNo(Reconcile(roster, detected));
    SessionReport(n, ps, |detected|, |ps|)
  }

  /** The database rows written for the predictions `ps` of session `session`. */
  function PredictionRecords(session: string, subject: string, ps: seq<Prediction>): (rs: seq<PredictionRecord>)
    ensures |rs| == |ps| && forall i :: 0 <= i < |ps| ==>
      rs[i] == PredictionRecord(session, ps[i].regNo, subject, ps[i].section, ps[i].isPresent, ps[i].confidence)
  {
    seq(|ps|, i requires 0 <= i < |ps| => PredictionRecord(session, ps[i].regNo, subject, ps[i].section, ps[i].isPresent, ps[i].confidence))
  }

  /** Each detection of the images comes from the service: with a model missing it is one of the
      mock's two students; otherwise it is a student on record, above the threshold. */
  lemma {:induction false} ImagesDetections(t: ServiceState, env: InitEnv, images: seq<string>, n: nat, p: Params,
                                            files: Files, db: Db, decode: string -> Decoded, sim: (nat, string) -> real)
    requires n <= |images| && RegNosUnique(db.students)
    ensures var t1 := if t.initialized then t else AfterInit(t, env);
      forall d :: d in ImagesUpTo(t, env, images, n, p, files, db, decode, sim).1 ==>
        if UsesMock(t1) then d in MockStudents
        else d.confidence > p.threshold && exists st :: st in db.students && st.regNo == d.regNo && st.name == d.name
  {
    if n > 0 {
      ImagesDetections(t, env, images, n - 1, p, files, db, decode, sim);
      match Payload(images[n - 1])
      case None =>
      case Some(text) =>
        match decode(text)
        case NotBase64 =>
        case Bytes(photo) =>
          PredictReports(t, env, photo, p.threshold, p.groups, files, db, sim);
    }
  }

  /** How the view answers: 400 for a malformed request, 404 when a looked-up row is missing, 500
      for a number that does not parse or a lookup that finds several rows, and a report exactly
      when the request reaches the images. */
  lemma OutcomeStatus(s0: ServiceState, env: InitEnv, req: ImageRequest, files: Files, db: Db,
                      decode: string -> Decoded, sim: (nat, string) -> real)
    ensures var r := Outcome(s0, env, req, files, db, decode, sim);
      && (r.Status? ==> r.code == 400 || r.code == 404 || r.code == 500)
      && ((req.images == [] || "" in req.images) ==> r == Status(400))
      && (r.Ok? <==> Reached(req, db))
  {
    CheckRequestErrors(req);
  }

  /** On a consistent database the only 500 answers are numbers that do not parse. */
  lemma ConsistentNo500(s0: ServiceState, env: InitEnv, req: ImageRequest, files: Files, db: Db,
                        decode: string -> Decoded, sim: (nat, string) -> real)
    requires Consistent(db)
    ensures Outcome(s0, env, req, files, db, decode, sim) == Status(500) ==> CheckRequest(req) == Status(500)
  {
    var c := CheckRequest(req);
    if c.Ok? {
      LookupAgrees(db, c.body);
    }
  }

  /** A request that reaches the images is answered with the report of its detections on the
      initialised service and of its roster. */
  lemma OutcomeReport(s0: ServiceState, env: InitEnv, req: ImageRequest, files: Files, db: Db,
                      decode: string -> Decoded, sim: (nat, string) -> real)
    requires Reached(req, db)
    ensures var p := CheckRequest(req).body;
      var d := Detections(AfterInit(s0, env), env, req.images, p, files, db, decode, sim);
      Outcome(s0, env, req, files, db, decode, sim) == Ok(Report(d.0, d.1, Roster(db, p)))
  {
  }

  /** The report holds one prediction per roster student, in strictly ascending register-number
      order, and counts the photos that came back annotated. */
  lemma ReportContents(n: nat, ds: seq<Detected>, roster: seq<Student>)
    requires RegNosUnique(roster)
    ensures var r := Report(n, ds, roster);
      var ps := r.predictions;
      && r.imagesProcessed == n
      && r.totalStudents == |ps| == |roster|
      && StrictlyAscending(ps)
      && (forall s :: s in roster ==> PredictionFor(s, Merged(ds)) in ps)
      && (forall x :: x in ps ==> exists s :: s in roster && x == PredictionFor(s, Merged(ds)))
  {
    ReconcileSorted(roster, Merged(ds));
  }

  /** A student is present exactly when some photo detected the student, with the highest
      confidence any photo gave, and absent with confidence 0 otherwise. */
  lemma ReportPresence(n: nat, ds: seq<Detected>, roster: seq<Student>)
    requires RegNosUnique(roster)
    ensures var ps := Report(n, ds, roster).predictions;
      && (forall x :: x in ps ==> (x.isPresent <==> exists i :: 0 <= i < |ds| && ds[i].regNo == x.regNo))
      && (forall x :: x in ps && !x.isPresent ==> x.confidence == 0.0)
      && (forall x :: x in ps && x.isPresent ==>
            && (exists i :: 0 <= i < |ds| && ds[i].regNo == x.regNo && ds[i].confidence == x.confidence)
            && (forall i :: 0 <= i < |ds| && ds[i].regNo == x.regNo ==> ds[i].confidence <= x.confidence))
  {
    var ps := Report(n, ds, roster).predictions;
    MergedBest(ds);
    ReconcileSorted(roster, Merged(ds));
    forall x | x in ps && x.isPresent
      ensures exists i :: 0 <= i < |ds| && ds[i].regNo == x.regNo && ds[i].confidence == x.confidence
    {
      PresentDetected(ds, roster, x);
    }
  }

  /** The detected count is the number of distinct students the photos detected. */
  lemma ReportDetectedCount(n: nat, ds: seq<Detected>, roster: seq<Student>)
    ensures Report(n, ds, roster).totalDetected == |set i | 0 <= i < |ds| :: ds[i].regNo|
  {
    MergedBest(ds);
    assert Merged(ds).Keys == set i | 0 <= i < |ds| :: ds[i].regNo;
  }

  /** With both models loaded, a student is only marked present with a confidence above the
      threshold; with a model missing, only the mock's two register numbers can be marked present. */
  lemma PresentMeansRecognised(s0: ServiceState, env: InitEnv, req: ImageRequest, files: Files, db: Db,
                               decode: string -> Decoded, sim: (nat, string) -> real)
    requires RegNosUnique(db.students)
    ensures var r := Outcome(s0, env, req, files, db, decode, sim);
      r.Ok? ==> forall x :: x in r.body.predictions && x.isPresent ==>
        if UsesMock(AfterInit(s0, env)) then x.regNo == "2027CS001" || x.regNo == "2027CS002"
        else x.confidence > CheckRequest(req).body.threshold
  {
    if Reached(req, db) {
      var p := CheckRequest(req).body;
      var t := AfterInit(s0, env);
      AfterInitIdempotent(s0, env);
      ImagesDetections(t, env, req.images, |req.images|, p, files, db, decode, sim);
      OutcomeReport(s0, env, req, files, db, decode, sim);
      RosterUnique(db, p);
      var d := Detections(t, env, req.images, p, files, db, decode, sim);
      ReportPresent(d.0, d.1, Roster(db, p), p.threshold, UsesMock(t));
    }
  }

  lemma ReportPresent(n: nat, ds: seq<Detected>, roster: seq<Student>, threshold: real, mock: bool)
    requires RegNosUnique(roster)
    requires forall d :: d in ds ==> if mock then d in MockStudents else d.confidence > threshold
    ensures forall x :: x in Report(n, ds, roster).predictions && x.isPresent ==>
      if mock then x.regNo == "2027CS001" || x.regNo == "2027CS002" else x.confidence > threshold
  {
    forall x | x in Report(n, ds, roster).predictions && x.isPresent
      ensures if mock then x.regNo == "2027CS001" || x.regNo == "2027CS002" else x.confidence > threshold
    {
      PresentDetected(ds, roster, x);
      var i :| 0 <= i < |ds| && ds[i].regNo == x.regNo && ds[i].confidence == x.confidence;
      assert ds[i] in ds;
    }
  }

  /** Some detection in `ds` is of student `regNo` with confidence `c`. */
  ghost predicate DetectedWith(ds: seq<Detected>, regNo: string, c: real) {
    exists i :: 0 <= i < |ds| && ds[i].regNo == regNo && ds[i].confidence == c
  }

  /** A present student's confidence is that of one of the detections of the student. */
  lemma PresentDetected(ds: seq<Detected>, roster: seq<Student>, x: Prediction)
    requires RegNosUnique(roster)
    requires x in SortByRegNo(Reconcile(roster, Merged(ds))) && x.isPresent
    ensures DetectedWith(ds, x.regNo, x.confidence)
  {
    var detected := Merged(ds);
    MergedBest(ds);
    ReconcileSorted(roster, detected);
    var i :| 0 <= i < |ds| && ds[i] == detected[x.regNo]
      && forall h :: 0 <= h < i && ds[h].regNo == x.regNo ==> ds[h].confidence < detected[x.regNo].confidence;
    assert ds[i].regNo == x.regNo;
  }

  // ---------------------------------------------------------------------------------------
  // The view, step by step

  /** `process_images`: validate the request, parse the sections, look the session up, initialise
      the service, run every photo through it, fetch the roster and write one prediction per roster
      student; the answer is the outcome `Outcome` describes whenever the service's gallery cache
      agrees with the files on disk. */
  method HandleProcessImages(svc: PredictionService, store: Store, env: InitEnv, req: ImageRequest, files: Files,
                             db: Db, decode: string -> Decoded, sim: (nat, string) -> real, sessionId: string)
    returns (r: Response<SessionReport>)
    requires RegNosUnique(db.students)
    requires store.Valid() && forall x :: x in store.predictions ==> x.session != sessionId
    modifies svc, store
    ensures CacheAgrees(old(svc.galleryCache), files) ==>
      r == Outcome(old(svc.State()), env, req, files, db, decode, sim) && CacheAgrees(svc.galleryCache, files)
    ensures svc.State() == if Reached(req, db) then AfterInit(old(svc.State()), env) else old(svc.State())
    ensures !Reached(req, db) ==> store.predictions == old(store.predictions)
    ensures Reached(req, db) && CacheAgrees(old(svc.galleryCache), files) ==>
      var p := CheckRequest(req).body;
      var ds := Detections(AfterInit(old(svc.State()), env), env, req.images, p, files, db, decode, sim).1;
      store.predictions == old(store.predictions) + PredictionRecords(sessionId, p.subject, Reconcile(Roster(db, p), Merged(ds)))
    ensures store.submissions == old(store.submissions) && store.timetables == old(store.timetables)
    ensures store.attendance == old(store.attendance)
    ensures store.Valid()
  {
    var checked := ParseRequest(req);
    if checked.Status? {
      return Status(checked.code);
    }
    var p := checked.body;
    var lookup := LookupStatus(db, p);
    if lookup.Some? {
      return Status(lookup.value);
    }
    ghost var s0 := svc.State();
    svc.Initialize(env);
    AfterInitIdempotent(s0, env);
    var n, detected := RunImages(svc, env, req.images, p, files, db, decode, sim);
    var roster := CollectRoster(db, p);
    RosterUnique(db, p);
    var ps := WritePredictions(store, sessionId, p.subject, roster, detected);
    var sorted := SortByRegNo(ps);
    r := Ok(SessionReport(n, sorted, |detected|, |sorted|));
    OutcomeReport(s0, env, req, files, db, decode, sim);
  }

  /** The request checks, in the view's order. */
  method ParseRequest(req: ImageRequest) returns (r: Response<Params>)
    ensures r == CheckRequest(req)
  {
    var valid := ValidateImages(req.images);
    if !valid {
      return Status(400);
    }
    var batch := BatchField(req.batchYear);
    if batch.None? || req.threshold == NotANumber {
      return Status(500);
    }
    if req.dept == "" || batch.value == 0 || req.subject == "" {
      return Status(400);
    }
    var threshold := if req.threshold.ThresholdValue? then req.threshold.value else 0.45;
    var groups := ParseSections(req.dept, batch.value, req.sections);
    return Ok(Params(req.dept, batch.value, req.subject, threshold, groups));
  }

  /** `images_data` is present and none of its images is empty. */
  method ValidateImages(images: seq<string>) returns (valid: bool)
    ensures valid <==> images != [] && "" !in images
  {
    if images == [] {
      return false;
    }
    var i := 0;
    while i < |images|
      invariant 0 <= i <= |images|
      invariant forall k :: 0 <= k < i ==> images[k] != ""
    {
      if images[i] == "" {
        return false;
      }
      i := i + 1;
    }
    return true;
  }

  /** The loop over `sections.split(",")` building `sections_data`. */
  method ParseSections(dept: string, batchYear: int, sections: string) returns (groups: seq<SectionGroup>)
    ensures groups == SectionGroups(dept, batchYear, sections)
  {
    groups := [];
    if sections != "" {
      var parts := SplitOn(sections, ',');
      var i := 0;
      while i < |parts|
        invariant 0 <= i <= |parts|
        invariant groups == GroupsOf(dept, batchYear, parts[..i])
      {
        assert parts[..i + 1][..i] == parts[..i];
        if '-' in parts[i] {
          groups := groups + [PartGroup(dept, batchYear, parts[i])];
        }
        i := i + 1;
      }
      assert parts[..i] == parts;
    }
    if groups == [] {
      groups := [SectionGroup(dept, batchYear, [])];
    }
  }

  /** The loop over the photos: each one's payload is decoded and, when that works, processed by the
      service; the students of an annotated photo are merged into `all_detected_students`. */
  method RunImages(svc: PredictionService, env: InitEnv, images: seq<string>, p: Params, files: Files, db: Db,
                   decode: string -> Decoded, sim: (nat, string) -> real)
    returns (n: nat, detected: map<string, Detected>)
    requires svc.State() == AfterInit(svc.State(), env)
    modifies svc
    ensures svc.State() == old(svc.State())
    ensures CacheAgrees(old(svc.galleryCache), files) ==>
      var d := Detections(old(svc.State()), env, images, p, files, db, decode, sim);
      n == d.0 && detected == Merged(d.1) && CacheAgrees(svc.galleryCache, files)
  {
    ghost var t := svc.State();
    ghost var agrees := CacheAgrees(svc.galleryCache, files);
    ghost var ds: seq<Detected> := [];
    n, detected := 0, map[];
    var i := 0;
    while i < |images|
      invariant 0 <= i <= |images|
      invariant svc.State() == t
      invariant agrees ==> CacheAgrees(svc.galleryCache, files)
      invariant agrees ==> (n, ds) == ImagesUpTo(t, env, images, i, p, files, db, decode, sim)
      invariant detected == Merged(ds)
    {
      n, detected, ds := RunImage(svc, env, images[i], p, files, db, decode, sim, n, detected, ds);
      i := i + 1;
    }
  }

  /** One photo: its payload is decoded and, when that works, processed by the service; the students
      of an annotated photo are merged into the detections so far. */
  method RunImage(svc: PredictionService, env: InitEnv, img: string, p: Params, files: Files, db: Db,
                  decode: string -> Decoded, sim: (nat, string) -> real,
                  n: nat, detected: map<string, Detected>, ghost ds: seq<Detected>)
    returns (n': nat, detected': map<string, Detected>, ghost ds': seq<Detected>)
    requires svc.State() == AfterInit(svc.State(), env)
    requires detected == Merged(ds)
    modifies svc
    ensures svc.State() == old(svc.State())
    ensures detected' == Merged(ds')
    ensures CacheAgrees(old(svc.galleryCache), files) ==>
      (n', ds') == AddResult((n, ds), ImageResult(old(svc.State()), env, img, p, files, db, decode, sim))
      && CacheAgrees(svc.galleryCache, files)
  {
    n', detected', ds' := n, detected, ds;
    var payload := Payload(img);
    if payload.None? {
      return;
    }
    var decoded := decode(payload.value);
    if decoded.NotBase64? {
      return;
    }
    var res := svc.ProcessImage(env, decoded.photo, p.threshold, p.groups, files, db, sim);
    if res.annotated {
      n' := n + 1;
      detected' := MergeAll(ds, detected, res.students);
      ds' := ds + res.students;
    }
  }

  /** The inner loop: the students of one photo merged into the detections so far. */
  method MergeAll(ghost ds: seq<Detected>, m: map<string, Detected>, students: seq<Detected>)
    returns (merged: map<string, Detected>)
    requires m == Merged(ds)
    ensures merged == Merged(ds + students)
  {
    merged := m;
    var j := 0;
    assert ds + students[..0] == ds;
    while j < |students|
      invariant 0 <= j <= |students|
      invariant merged == Merged(ds + students[..j])
    {
      assert ds + students[..j + 1] == (ds + students[..j]) + [students[j]];
      MergedSnoc(ds + students[..j], students[j]);
      merged := MergeDetection(merged, students[j]);
      j := j + 1;
    }
    assert students[..j] == students;
  }

  lemma MergedSnoc(ds: seq<Detected>, d: Detected)
    ensures Merged(ds + [d]) == MergeDetection(Merged(ds), d)
  {
    assert (ds + [d])[..|ds|] == ds;
  }

  /** The union of the named sections' students, or the whole batch when no section is named. */
  method CollectRoster(db: Db, p: Params) returns (roster: seq<Student>)
    ensures roster == Roster(db, p)
  {
    var names: set<string> := {};
    var i := 0;
    while i < |p.groups|
      invariant 0 <= i <= |p.groups|
      invariant names == NamesOf(p.groups[..i])
    {
      var sectionNames := p.groups[i].sectionNames;
      assert p.groups[..i + 1][..i] == p.groups[..i];
      ghost var before := names;
      var j := 0;
      while j < |sectionNames|
        invariant 0 <= j <= |sectionNames|
        invariant names == before + set x | x in sectionNames[..j]
      {
        assert sectionNames[..j + 1] == sectionNames[..j] + [sectionNames[j]];
        names := names + {sectionNames[j]};
        j := j + 1;
      }
      assert sectionNames[..j] == sectionNames;
      i := i + 1;
    }
    assert p.groups[..i] == p.groups;
    roster := Filter(db.students, (s: Student) => s.section.batch == BatchOf(p) && (names == {} || s.section.name in names));
  }

  /** The loop over the roster: one `AttendancePrediction` row per student, and its entry. */
  method WritePredictions(store: Store, sessionId: string, subject: string, roster: seq<Student>,
                          detected: map<string, Detected>) returns (ps: seq<Prediction>)
    requires store.Valid() && RegNosUnique(roster)
    requires forall x :: x in store.predictions ==> x.session != sessionId
    modifies store
    ensures ps == Reconcile(roster, detected)
    ensures store.predictions == old(store.predictions) + PredictionRecords(sessionId, subject, ps)
    ensures store.submissions == old(store.submissions) && store.timetables == old(store.timetables)
    ensures store.attendance == old(store.attendance)
    ensures store.Valid()
  {
    ps := [];
    var i := 0;
    while i < |roster|
      invariant 0 <= i <= |roster|
      invariant ps == Reconcile(roster[..i], detected)
      invariant store.predictions == old(store.predictions) + PredictionRecords(sessionId, subject, ps)
      invariant store.submissions == old(store.submissions) && store.timetables == old(store.timetables)
      invariant store.attendance == old(store.attendance)
    {
      var prediction := PredictionFor(roster[i], detected);
      store.predictions := store.predictions
        + [PredictionRecord(sessionId, prediction.regNo, subject, prediction.section, prediction.isPresent, prediction.confidence)];
      ps := ps + [prediction];
      i := i + 1;
    }
    assert roster[..i] == roster;
    SessionRecordsUnique(old(store.predictions), sessionId, subject, ps);
  }

  /** Records of a new session, one per student, keep the predictions table unique. */
  lemma SessionRecordsUnique(before: seq<PredictionRecord>, session: string, subject: string, ps: seq<Prediction>)
    requires PredictionsUnique(before) && forall x :: x in before ==> x.session != session
    requires forall i, j :: 0 <= i < j < |ps| ==> ps[i].regNo != ps[j].regNo
    ensures PredictionsUnique(before + PredictionRecords(session, subject, ps))
  {
    var all := before + PredictionRecords(session, subject, ps);
    forall i, j | 0 <= i < j < |all| ensures all[i].session != all[j].session || all[i].regNo != all[j].regNo {
      if i < |before| && j >= |before| {
        assert all[i] in before;
      }
    }
  }
}
