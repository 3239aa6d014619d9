/** One photo through the recogniser (`PredictionService._process_image_sync`): every detected box is
    padded and clamped to the photo, boxes under 32 pixels are dropped, each remaining face lists the
    gallery identities it resembles more than the threshold, best first, and faces are then served
    greedily, best face first, so that no identity is given to two faces of the same photo.
    Detection, embedding and cosine similarity are outside the model: the boxes come with the photo,
    and `sim(face, regNo)` is the similarity of the face found by detector box `face` to the gallery
    embedding of `regNo`. */
module FaceMatch {
  import opened PyRuntime
  import opened Sorting
  import opened Schema
  import opened Gallery

  /** A box in whole pixels: top-left (x1, y1), bottom-right (x2, y2). */
  datatype Box = Box(x1: int, y1: int, x2: int, y2: int)

  /** A decoded photo: its size and the boxes the face detector reports, in detection order. */
  datatype Scene = Scene(width: nat, height: nat, boxes: seq<Box>)

  /** A candidate identity for a face and its similarity. */
  datatype Match = Match(regNo: string, score: real)

  /** A kept face: the index of its detector box, its padded box, and its candidates, best first. */
  datatype FaceData = FaceData(det: nat, box: Box, matches: seq<Match>)

  /** A recognised student as the recogniser reports it. */
  datatype Detected = Detected(regNo: string, name: string, confidence: real)

  /** What `_process_image_sync` returns: whether an annotated photo came back, and the students.
      `(None, [])` is `ProcessResult(false, [])`. */
  datatype ProcessResult = ProcessResult(annotated: bool, students: seq<Detected>)

  const Failed := ProcessResult(false, [])

  /** The label a face carries until it is given an identity. */
  const Unknown := "Unknown"

  /** The smallest face side the recogniser accepts, in pixels. */
  const MinFace := 32

  /** `int(v * 0.2)`: a fifth of `v`, truncated toward zero. */
  function Fifth(v: int): (r: int)
    ensures v >= 0 ==> 0 <= 5 * r <= v < 5 * r + 5
    ensures v < 0 ==> 5 * r - 5 < v <= 5 * r <= 0
  {
    if v >= 0 then v / 5 else -((-v) / 5)
  }

  function Max(a: int, b: int): int { if a >= b then a else b }
  function Min(a: int, b: int): int { if a <= b then a else b }

  /** The box grown by a fifth of its width and height on each side, then clamped to the photo. */
  function PadAndClamp(b: Box, width: nat, height: nat): (r: Box)
    ensures 0 <= r.x1 && 0 <= r.y1 && r.x2 <= width && r.y2 <= height
    ensures b.x1 <= b.x2 ==> r.x1 <= Max(0, b.x1) && Min(width, b.x2) <= r.x2
    ensures b.y1 <= b.y2 ==> r.y1 <= Max(0, b.y1) && Min(height, b.y2) <= r.y2
  {
    var padX, padY := Fifth(b.x2 - b.x1), Fifth(b.y2 - b.y1);
    Box(Max(0, b.x1 - padX), Max(0, b.y1 - padY), Min(width, b.x2 + padX), Min(height, b.y2 + padY))
  }

  predicate LargeEnough(r: Box) {
    r.x2 - r.x1 >= MinFace && r.y2 - r.y1 >= MinFace
  }

  /** A face that passes the size check is a non-empty crop inside the photo, so the source's
      empty-crop check never fires. */
  lemma KeptCropNotEmpty(b: Box, width: nat, height: nat)
    requires LargeEnough(PadAndClamp(b, width, height))
    ensures var r := PadAndClamp(b, width, height);
      0 <= r.x1 < r.x2 <= width && 0 <= r.y1 < r.y2 <= height
  {
  }

  /** The identities of `g`, in gallery order, that a face may be: in the selected sections when
      any are selected, and more similar than the threshold. */
  function Candidates(g: seq<Entry>, sectionStudents: set<string>, sim: (nat, string) -> real, det: nat, threshold: real)
    : (ms: seq<Match>)
    ensures |ms| <= |g|
  {
    if g == [] then []
    else
      var ms := Candidates(g[..|g| - 1], sectionStudents, sim, det, threshold);
      var last := g[|g| - 1];
      if (sectionStudents == {} || last.regNo in sectionStudents) && sim(det, last.regNo) > threshold then
        ms + [Match(last.regNo, sim(det, last.regNo))]
      else ms
  }

  /** The candidates are exactly the gallery identities of the selected sections above the threshold, with their similarity. */
  lemma {:induction false} CandidatesMembers(g: seq<Entry>, ss: set<string>, sim: (nat, string) -> real, det: nat, threshold: real)
    ensures forall m :: m in Candidates(g, ss, sim, det, threshold) <==>
      && m.regNo in Keys(g)
      && (ss == {} || m.regNo in ss)
      && m.score == sim(det, m.regNo) && m.score > threshold
  {
    if g != [] {
      var init := g[..|g| - 1];
      var last := g[|g| - 1];
      CandidatesMembers(init, ss, sim, det, threshold);
      assert g == init + [last];
      assert Keys(g) == Keys(init) + {last.regNo};
    }
  }

  function Scores(ms: seq<Match>): (s: seq<real>)
    ensures |s| == |ms| && forall i :: 0 <= i < |ms| ==> s[i] == ms[i].score
  {
    seq(|ms|, i requires 0 <= i < |ms| => ms[i].score)
  }

  /** `matches.sort(key=score, reverse=True)` */
  function SortedMatches(ms: seq<Match>): seq<Match> {
    Permute(ms, SortIndices(Scores(ms), Descending))
  }

  /** Sorting keeps exactly the candidates and puts them best first; of equal scores the one earlier
      in the gallery stays first. */
  lemma SortedMatchesOrder(ms: seq<Match>)
    ensures var r := SortedMatches(ms);
      && |r| == |ms|
      && (forall m :: m in r <==> m in ms)
      && (forall a, b :: 0 <= a < b < |r| ==> r[a].score >= r[b].score)
  {
    var order := SortIndices(Scores(ms), Descending);
    var r := SortedMatches(ms);
    DescendingIsTotal();
    SortIndicesSorted(Scores(ms), Descending);
    SortIndicesPermutes(Scores(ms), Descending);
    forall m | m in ms ensures m in r {
      var i :| 0 <= i < |ms| && ms[i] == m;
      assert i in order;
      var k :| 0 <= k < |order| && order[k] == i;
      assert r[k] == m;
    }
    forall a, b | 0 <= a < b < |r| ensures r[a].score >= r[b].score {
      assert Before(Scores(ms), Descending, order[a], order[b]);
    }
  }

  /** The candidate list of each detector box, best first. */
  function Ranked(g: seq<Entry>, ss: set<string>, sim: (nat, string) -> real, threshold: real): nat -> seq<Match> {
    (det: nat) => SortedMatches(Candidates(g, ss, sim, det, threshold))
  }

  /** The face box `i` gives, if its padded and clamped box is large enough. */
  function FaceAt(scene: Scene, rank: nat -> seq<Match>, i: nat)
    : (r: seq<FaceData>)
    requires i < |scene.boxes|
    ensures |r| <= 1
    ensures r != [] <==> LargeEnough(PadAndClamp(scene.boxes[i], scene.width, scene.height))
    ensures r != [] ==> r[0].det == i
  {
    var b := PadAndClamp(scene.boxes[i], scene.width, scene.height);
    if LargeEnough(b) then [FaceData(i, b, rank(i))] else []
  }

  /** The faces the recogniser keeps from the first `n` boxes, in detection order, each with the candidate list `rank` gives its box. */
  function FacesUpTo(scene: Scene, rank: nat -> seq<Match>, n: nat)
    : (faces: seq<FaceData>)
    requires n <= |scene.boxes|
    ensures |faces| <= n
    ensures forall i :: 0 <= i < |faces| ==> faces[i].det < n
  {
    if n == 0 then []
    else FacesUpTo(scene, rank, n - 1) + FaceAt(scene, rank, n - 1)
  }

  /** Faces found later only add to the list. */
  lemma {:induction false} FacesUpToGrows(scene: Scene, rank: nat -> seq<Match>, m: nat, n: nat)
    requires m <= n <= |scene.boxes|
    ensures |FacesUpTo(scene, rank, m)| <= |FacesUpTo(scene, rank, n)|
    decreases n
  {
    if m < n {
      FacesUpToGrows(scene, rank, m, n - 1);
    }
  }

  /** A large-enough box gives the photo a face. */
  lemma SomeFaceFound(scene: Scene, rank: nat -> seq<Match>, i: nat)
    requires i < |scene.boxes| && LargeEnough(PadAndClamp(scene.boxes[i], scene.width, scene.height))
    ensures FacesUpTo(scene, rank, |scene.boxes|) != []
  {
    assert |FacesUpTo(scene, rank, i + 1)| > 0;
    FacesUpToGrows(scene, rank, i + 1, |scene.boxes|);
  }

  /** Each face comes from a later detector box than the faces before it. */
  predicate InDetectionOrder(faces: seq<FaceData>) {
    forall i, j :: 0 <= i < j < |faces| ==> faces[i].det < faces[j].det
  }

  /** Faces come in detection order. */
  lemma {:induction false} FacesUpToOrdered(scene: Scene, rank: nat -> seq<Match>, n: nat)
    requires n <= |scene.boxes|
    ensures InDetectionOrder(FacesUpTo(scene, rank, n))
  {
    if n > 0 {
      FacesUpToOrdered(scene, rank, n - 1);
      var prev := FacesUpTo(scene, rank, n - 1);
      var added := FaceAt(scene, rank, n - 1);
      assert FacesUpTo(scene, rank, n) == prev + added;
      AppendInDetectionOrder(prev, added, n - 1);
    }
  }

  lemma AppendInDetectionOrder(prev: seq<FaceData>, added: seq<FaceData>, d: nat)
    requires InDetectionOrder(prev) && (forall i :: 0 <= i < |prev| ==> prev[i].det < d)
    requires |added| <= 1 && (added != [] ==> added[0].det == d)
    ensures InDetectionOrder(prev + added)
  {
    var faces := prev + added;
    forall i, j | 0 <= i < j < |faces| ensures faces[i].det < faces[j].det {
      assert faces[i] == prev[i];
      if j < |prev| {
        assert faces[j] == prev[j];
      }
    }
  }

  /** Each kept face is a large-enough box with its sorted candidate list. */
  lemma {:induction false} FacesUpToContents(scene: Scene, rank: nat -> seq<Match>, n: nat)
    requires n <= |scene.boxes|
    ensures forall f :: f in FacesUpTo(scene, rank, n) ==>
      && f.det < |scene.boxes|
      && f.box == PadAndClamp(scene.boxes[f.det], scene.width, scene.height)
      && LargeEnough(f.box)
      && f.matches == rank(f.det)
  {
    if n > 0 {
      FacesUpToContents(scene, rank, n - 1);
      FaceAtContents(scene, rank, n - 1);
    }
  }

  lemma FaceAtContents(scene: Scene, rank: nat -> seq<Match>, i: nat)
    requires i < |scene.boxes|
    ensures forall f :: f in FaceAt(scene, rank, i) ==>
      && f.det == i
      && f.box == PadAndClamp(scene.boxes[i], scene.width, scene.height)
      && LargeEnough(f.box)
      && f.matches == rank(i)
  {
  }

  /** Some box of the photo is large enough once padded and clamped. */
  predicate AnyFace(scene: Scene) {
    exists i :: 0 <= i < |scene.boxes| && LargeEnough(PadAndClamp(scene.boxes[i], scene.width, scene.height))
  }

  /** The recogniser finds a face exactly when some box is large enough. */
  lemma FacesFound(scene: Scene, rank: nat -> seq<Match>)
    ensures FacesUpTo(scene, rank, |scene.boxes|) != [] <==> AnyFace(scene)
  {
    var faces := FacesUpTo(scene, rank, |scene.boxes|);
    if faces != [] {
      FacesUpToContents(scene, rank, |scene.boxes|);
      assert faces[0] in faces;
    }
    if AnyFace(scene) {
      var i :| 0 <= i < |scene.boxes| && LargeEnough(PadAndClamp(scene.boxes[i], scene.width, scene.height));
      SomeFaceFound(scene, rank, i);
    }
  }

  /** Some face of `faces` comes from box `i`. */
  predicate HasFace(faces: seq<FaceData>, i: nat) {
    exists k :: 0 <= k < |faces| && faces[k].det == i
  }

  /** Every box that is large enough once padded and clamped is kept as a face. */
  lemma {:induction false} FacesUpToComplete(scene: Scene, rank: nat -> seq<Match>, n: nat, i: nat)
    requires i < n <= |scene.boxes|
    requires LargeEnough(PadAndClamp(scene.boxes[i], scene.width, scene.height))
    ensures HasFace(FacesUpTo(scene, rank, n), i)
  {
    var prev := FacesUpTo(scene, rank, n - 1);
    var added := FaceAt(scene, rank, n - 1);
    assert FacesUpTo(scene, rank, n) == prev + added;
    if i < n - 1 {
      FacesUpToComplete(scene, rank, n - 1, i);
    }
    HasFaceAppend(prev, added, i);
  }

  lemma HasFaceAppend(prev: seq<FaceData>, added: seq<FaceData>, i: nat)
    requires HasFace(prev, i) || (added != [] && added[0].det == i)
    ensures HasFace(prev + added, i)
  {
    var faces := prev + added;
    if HasFace(prev, i) {
      var k :| 0 <= k < |prev| && prev[k].det == i;
      assert faces[k] == prev[k];
    } else {
      assert faces[|prev|] == added[0];
    }
  }

  /** The largest score of a non-empty candidate list (`max(...)`). */
  function MaxScore(ms: seq<Match>): (r: real)
    requires ms != []
    ensures exists i :: 0 <= i < |ms| && ms[i].score == r
    ensures forall i :: 0 <= i < |ms| ==> ms[i].score <= r
  {
    if |ms| == 1 then ms[0].score
    else
      var rest := MaxScore(ms[1..]);
      assert forall i :: 1 <= i < |ms| ==> ms[i] == ms[1..][i - 1];
      if ms[0].score >= rest then ms[0].score else rest
  }

  /** The sort key of a face: its best score, or 0 when it has no candidate. */
  function BestKey(f: FaceData): real {
    if f.matches == [] then 0.0 else MaxScore(f.matches)
  }

  function BestKeys(faces: seq<FaceData>): (keys: seq<real>)
    ensures |keys| == |faces| && forall i :: 0 <= i < |faces| ==> keys[i] == BestKey(faces[i])
  {
    seq(|faces|, i requires 0 <= i < |faces| => BestKey(faces[i]))
  }

  /** The order in which faces choose: `sorted(faces_data, key=BestKey, reverse=True)`. */
  function FaceOrder(faces: seq<FaceData>): (order: seq<nat>)
    ensures |order| == |faces| && InRange(order, |faces|)
  {
    SortIndices(BestKeys(faces), Descending)
  }

  /** Faces choose in order of their best score, highest first, ties in detection order, and every face chooses once. */
  lemma FaceOrderSorted(faces: seq<FaceData>)
    ensures var order := FaceOrder(faces);
      && (forall a, b :: 0 <= a < b < |order| ==> order[a] != order[b])
      && (forall f :: 0 <= f < |faces| ==> f in order)
      && (forall a, b :: 0 <= a < b < |order| ==>
            BestKey(faces[order[a]]) > BestKey(faces[order[b]])
            || (BestKey(faces[order[a]]) == BestKey(faces[order[b]]) && order[a] < order[b]))
  {
    var order := FaceOrder(faces);
    DescendingIsTotal();
    SortIndicesSorted(BestKeys(faces), Descending);
    SortIndicesPermutes(BestKeys(faces), Descending);
    forall a, b | 0 <= a < b < |order|
      ensures BestKey(faces[order[a]]) > BestKey(faces[order[b]])
        || (BestKey(faces[order[a]]) == BestKey(faces[order[b]]) && order[a] < order[b])
    {
      assert Before(BestKeys(faces), Descending, order[a], order[b]);
    }
  }

  /** The position of the first candidate whose identity is not yet used, or `|ms|`. */
  function FirstUnused(ms: seq<Match>, used: set<string>): (t: nat)
    ensures t <= |ms|
    ensures forall u :: 0 <= u < t ==> ms[u].regNo in used
    ensures t < |ms| ==> ms[t].regNo !in used
  {
    if ms == [] || ms[0].regNo !in used then 0 else 1 + FirstUnused(ms[1..], used)
  }

  /** The faces' identities after the first `n` faces in `order` have chosen, and the identities taken. */
  datatype Assignment = Assignment(picks: seq<Option<Match>>, used: set<string>)

  function Assign(faces: seq<FaceData>, order: seq<nat>, n: nat): (a: Assignment)
    requires n <= |order| && InRange(order, |faces|)
    ensures |a.picks| == |faces|
  {
    if n == 0 then Assignment(seq(|faces|, _ => None), {})
    else
      var prev := Assign(faces, order, n - 1);
      var f := order[n - 1];
      var ms := faces[f].matches;
      var t := FirstUnused(ms, prev.used);
      if t < |ms| then Assignment(prev.picks[f := Some(ms[t])], prev.used + {ms[t].regNo})
      else prev
  }

  /** The identities of the faces that have one. */
  function Picked(picks: seq<Option<Match>>): set<string> {
    set f | 0 <= f < |picks| && picks[f].Some? :: picks[f].value.regNo
  }

  /** What holds after any number of faces have chosen, when no face comes twice in `order`. */
  ghost predicate AssignInvariant(faces: seq<FaceData>, order: seq<nat>, n: nat, a: Assignment)
    requires n <= |order| && InRange(order, |faces|) && |a.picks| == |faces|
  {
    && a.used == Picked(a.picks)
    && (forall f :: 0 <= f < |faces| && a.picks[f].Some? ==> f in order[..n] && a.picks[f].value in faces[f].matches)
    && (forall f1, f2 :: 0 <= f1 < f2 < |faces| && a.picks[f1].Some? && a.picks[f2].Some? ==>
          a.picks[f1].value.regNo != a.picks[f2].value.regNo)
    && (forall f :: 0 <= f < |faces| && f in order[..n] && a.picks[f].None? ==>
          forall m :: m in faces[f].matches ==> m.regNo in a.used)
  }

  lemma {:induction false} AssignKeepsInvariant(faces: seq<FaceData>, order: seq<nat>, n: nat)
    requires n <= |order| && InRange(order, |faces|)
    requires forall a, b :: 0 <= a < b < |order| ==> order[a] != order[b]
    ensures AssignInvariant(faces, order, n, Assign(faces, order, n))
  {
    if n == 0 {
      assert Picked(Assign(faces, order, n).picks) == {};
    } else {
      AssignKeepsInvariant(faces, order, n - 1);
      OrderSnoc(order, n);
      AssignStep(faces, order, n);
    }
  }

  /** The `n`-th face in `order` is new to the first `n - 1`. */
  lemma OrderSnoc(order: seq<nat>, n: nat)
    requires 0 < n <= |order|
    requires forall a, b :: 0 <= a < b < |order| ==> order[a] != order[b]
    ensures order[..n] == order[..n - 1] + [order[n - 1]] && order[n - 1] !in order[..n - 1]
  {
    assert order[..n] == order[..n - 1] + [order[n - 1]];
  }

  /** One more face choosing keeps the invariant. */
  lemma AssignStep(faces: seq<FaceData>, order: seq<nat>, n: nat)
    requires 0 < n <= |order| && InRange(order, |faces|)
    requires AssignInvariant(faces, order, n - 1, Assign(faces, order, n - 1))
    requires order[..n] == order[..n - 1] + [order[n - 1]] && order[n - 1] !in order[..n - 1]
    ensures AssignInvariant(faces, order, n, Assign(faces, order, n))
  {
    var prev := Assign(faces, order, n - 1);
    var f := order[n - 1];
    var ms := faces[f].matches;
    var t := FirstUnused(ms, prev.used);
    if t < |ms| {
      AssignPickStep(faces, order, n, prev, t);
      assert Assign(faces, order, n) == Assignment(prev.picks[f := Some(ms[t])], prev.used + {ms[t].regNo});
    } else {
      AssignNoPickStep(faces, order, n, prev);
      assert Assign(faces, order, n) == prev;
    }
  }

  /** The face chooses the candidate at position `t`. */
  lemma AssignPickStep(faces: seq<FaceData>, order: seq<nat>, n: nat, prev: Assignment, t: nat)
    requires 0 < n <= |order| && InRange(order, |faces|) && |prev.picks| == |faces|
    requires AssignInvariant(faces, order, n - 1, prev)
    requires order[..n] == order[..n - 1] + [order[n - 1]] && order[n - 1] !in order[..n - 1]
    requires t < |faces[order[n - 1]].matches| && t == FirstUnused(faces[order[n - 1]].matches, prev.used)
    ensures var f := order[n - 1]; var m := faces[f].matches[t];
      AssignInvariant(faces, order, n, Assignment(prev.picks[f := Some(m)], prev.used + {m.regNo}))
  {
    var f := order[n - 1];
    var m := faces[f].matches[t];
    var a := Assignment(prev.picks[f := Some(m)], prev.used + {m.regNo});
    assert prev.picks[f].None?;
    PickedAdd(prev.picks, f, m);
    forall f1, f2 | 0 <= f1 < f2 < |faces| && a.picks[f1].Some? && a.picks[f2].Some?
      ensures a.picks[f1].value.regNo != a.picks[f2].value.regNo
    {
      if f1 == f {
        assert prev.picks[f2].value.regNo in Picked(prev.picks);
      } else if f2 == f {
        assert prev.picks[f1].value.regNo in Picked(prev.picks);
      }
    }
  }

  /** Every candidate of the face is already taken. */
  lemma AssignNoPickStep(faces: seq<FaceData>, order: seq<nat>, n: nat, prev: Assignment)
    requires 0 < n <= |order| && InRange(order, |faces|) && |prev.picks| == |faces|
    requires AssignInvariant(faces, order, n - 1, prev)
    requires order[..n] == order[..n - 1] + [order[n - 1]]
    requires FirstUnused(faces[order[n - 1]].matches, prev.used) == |faces[order[n - 1]].matches|
    ensures AssignInvariant(faces, order, n, prev)
  {
    var ms := faces[order[n - 1]].matches;
    forall m | m in ms ensures m.regNo in prev.used {
      var u :| 0 <= u < |ms| && ms[u] == m;
    }
  }

  lemma PickedAdd(picks: seq<Option<Match>>, f: nat, m: Match)
    requires f < |picks| && picks[f].None?
    ensures Picked(picks[f := Some(m)]) == Picked(picks) + {m.regNo}
  {
    var r := picks[f := Some(m)];
    assert r[f].Some?;
    forall x | x in Picked(picks) ensures x in Picked(r) {
      var g :| 0 <= g < |picks| && picks[g].Some? && picks[g].value.regNo == x;
      assert r[g] == picks[g];
    }
  }

  /** Once every face has chosen: no identity is given to two faces, each face's identity is one of its
      candidates, and a face left without one had every candidate taken by another face. */
  lemma GreedyAssignment(faces: seq<FaceData>)
    ensures var order := FaceOrder(faces); var a := Assign(faces, order, |order|);
      && (forall f1, f2 :: 0 <= f1 < f2 < |faces| && a.picks[f1].Some? && a.picks[f2].Some? ==>
            a.picks[f1].value.regNo != a.picks[f2].value.regNo)
      && (forall f :: 0 <= f < |faces| && a.picks[f].Some? ==> a.picks[f].value in faces[f].matches)
      && (forall f :: 0 <= f < |faces| && a.picks[f].None? ==>
            forall m :: m in faces[f].matches ==>
              exists g :: 0 <= g < |faces| && g != f && a.picks[g].Some? && a.picks[g].value.regNo == m.regNo)
  {
    var order := FaceOrder(faces);
    FaceOrderSorted(faces);
    AssignKeepsInvariant(faces, order, |order|);
    var a := Assign(faces, order, |order|);
    assert order[..|order|] == order;
    forall f, m | 0 <= f < |faces| && a.picks[f].None? && m in faces[f].matches
      ensures exists g :: 0 <= g < |faces| && g != f && a.picks[g].Some? && a.picks[g].value.regNo == m.regNo
    {
      assert m.regNo in Picked(a.picks);
    }
  }

  /** `Student.objects.get(register_number=regNo)` over the student table. */
  function StudentLookup(students: seq<Student>): string -> Got<Student> {
    (regNo: string) => Get(students, (s: Student) => s.regNo == regNo)
  }

  /** A lookup that never raises and only finds students of the table with the register number asked for. */
  ghost predicate LookupSound(lookup: string -> Got<Student>, students: seq<Student>) {
    forall r :: !lookup(r).MultipleObjectsReturned? && (lookup(r).Found? ==> lookup(r).value in students && lookup(r).value.regNo == r)
  }

  /** With unique register numbers, looking students up by register number is sound. */
  lemma StudentLookupSound(students: seq<Student>)
    requires RegNosUnique(students)
    ensures LookupSound(StudentLookup(students), students)
  {
    forall r ensures !StudentLookup(students)(r).MultipleObjectsReturned? {
      GetStudentByRegNo(students, r);
    }
  }

  /** The students of the faces that were given an identity, in detection order; `None` when a
      register-number lookup raises (several students with that number). */
  function CollectUpTo(faces: seq<FaceData>, picks: seq<Option<Match>>, lookup: string -> Got<Student>, n: nat)
    : (r: Option<seq<Detected>>)
    requires n <= |faces| == |picks|
  {
    if n == 0 then Some([])
    else
      match CollectUpTo(faces, picks, lookup, n - 1)
      case None => None
      case Some(ds) =>
        if picks[n - 1].Some? && picks[n - 1].value.regNo != Unknown then
          var m := picks[n - 1].value;
          match lookup(m.regNo)
          case Found(s) => Some(ds + [Detected(m.regNo, s.name, m.score)])
          case DoesNotExist => Some(ds)
          case MultipleObjectsReturned => None
        else Some(ds)
  }

  /** A lookup failure ends the collection for good. */
  lemma {:induction false} CollectFailureStays(faces: seq<FaceData>, picks: seq<Option<Match>>, lookup: string -> Got<Student>, m: nat, n: nat)
    requires m <= n <= |faces| == |picks|
    requires CollectUpTo(faces, picks, lookup, m).None?
    ensures CollectUpTo(faces, picks, lookup, n).None?
    decreases n
  {
    if m < n {
      CollectFailureStays(faces, picks, lookup, m, n - 1);
    }
  }

  /** With a sound lookup the collection never fails; each reported student is a picked identity with
      a database record, and, picks being distinct, no student is reported twice. */
  lemma {:induction false} CollectReports(faces: seq<FaceData>, picks: seq<Option<Match>>, students: seq<Student>,
                                          lookup: string -> Got<Student>, n: nat)
    requires n <= |faces| == |picks|
    requires LookupSound(lookup, students)
    requires forall f1, f2 :: 0 <= f1 < f2 < |picks| && picks[f1].Some? && picks[f2].Some? ==>
      picks[f1].value.regNo != picks[f2].value.regNo
    ensures var r := CollectUpTo(faces, picks, lookup, n);
      && r.Some?
      && (forall d :: d in r.value ==>
            exists f :: 0 <= f < n && picks[f] == Some(Match(d.regNo, d.confidence)) && d.regNo != Unknown
              && exists s :: s in students && s.regNo == d.regNo && s.name == d.name)
      && (forall i, j :: 0 <= i < j < |r.value| ==> r.value[i].regNo != r.value[j].regNo)
  {
    if n > 0 {
      CollectReports(faces, picks, students, lookup, n - 1);
      var ds := CollectUpTo(faces, picks, lookup, n - 1).value;
      if picks[n - 1].Some? && picks[n - 1].value.regNo != Unknown {
        var m := picks[n - 1].value;
        var got := lookup(m.regNo);
        if got.Found? {
          forall i | 0 <= i < |ds| ensures ds[i].regNo != m.regNo {
            var d := ds[i];
            var f :| 0 <= f < n - 1 && picks[f] == Some(Match(d.regNo, d.confidence));
          }
        }
      }
    }
  }

  /** What `_process_image_sync` returns for a photo (`None` when it cannot be decoded), given whether
      the image transform is set up, the threshold, the gallery, the section students (empty: no
      restriction) and the student table. */
  function Recognise(photo: Option<Scene>, transformReady: bool, threshold: real, g: seq<Entry>,
                     ss: set<string>, sim: (nat, string) -> real, students: seq<Student>): ProcessResult
  {
    match photo
    case None => Failed
    case Some(scene) =>
      var faces := FacesUpTo(scene, Ranked(g, ss, sim, threshold), |scene.boxes|);
      if faces != [] && !transformReady then Failed
      else
        var a := Assign(faces, FaceOrder(faces), |faces|);
        match CollectUpTo(faces, a.picks, StudentLookup(students), |faces|)
        case None => Failed
        case Some(ds) => ProcessResult(true, ds)
  }

  /** No student is reported twice for one photo, and every reported student is a gallery identity of
      the selected sections, more similar than the threshold to a face of the photo, with a database
      record of that name; with unique register numbers, processing fails only for a photo that cannot
      be decoded or when faces were found but the transform is missing. */
  lemma RecogniseReports(photo: Option<Scene>, transformReady: bool, threshold: real, g: seq<Entry>,
                         ss: set<string>, sim: (nat, string) -> real, students: seq<Student>)
    requires RegNosUnique(students)
    ensures var r := Recognise(photo, transformReady, threshold, g, ss, sim, students);
      && (!r.annotated <==> photo.None? || (!transformReady && AnyFace(photo.value)))
      && (!r.annotated ==> r.students == [])
      && (forall i, j :: 0 <= i < j < |r.students| ==> r.students[i].regNo != r.students[j].regNo)
      && (forall d :: d in r.students ==>
            && d.regNo in Keys(g) && (ss == {} || d.regNo in ss) && d.confidence > threshold
            && d.regNo != Unknown
            && (exists det :: 0 <= det < |photo.value.boxes| && d.confidence == sim(det, d.regNo))
            && (exists s :: s in students && s.regNo == d.regNo && s.name == d.name))
  {
    if photo.Some? {
      ReportsOfFaces(photo.value, g, ss, sim, threshold, students);
      FacesFound(photo.value, Ranked(g, ss, sim, threshold));
    }
  }

  /** `RecogniseReports` for the faces of one decoded photo. */
  lemma ReportsOfFaces(scene: Scene, g: seq<Entry>, ss: set<string>, sim: (nat, string) -> real,
                       threshold: real, students: seq<Student>)
    requires RegNosUnique(students)
    ensures var faces := FacesUpTo(scene, Ranked(g, ss, sim, threshold), |scene.boxes|);
      var r := CollectUpTo(faces, Assign(faces, FaceOrder(faces), |faces|).picks, StudentLookup(students), |faces|);
      && r.Some?
      && (forall i, j :: 0 <= i < j < |r.value| ==> r.value[i].regNo != r.value[j].regNo)
      && (forall d :: d in r.value ==>
            && d.regNo in Keys(g) && (ss == {} || d.regNo in ss) && d.confidence > threshold
            && d.regNo != Unknown
            && (exists det :: 0 <= det < |scene.boxes| && d.confidence == sim(det, d.regNo))
            && (exists s :: s in students && s.regNo == d.regNo && s.name == d.name))
  {
    var faces := FacesUpTo(scene, Ranked(g, ss, sim, threshold), |scene.boxes|);
    var a := Assign(faces, FaceOrder(faces), |faces|);
    GreedyAssignment(faces);
    StudentLookupSound(students);
    CollectReports(faces, a.picks, students, StudentLookup(students), |faces|);
    var ds := CollectUpTo(faces, a.picks, StudentLookup(students), |faces|).value;
    forall d | d in ds
      ensures d.regNo in Keys(g) && (ss == {} || d.regNo in ss) && d.confidence > threshold
      ensures exists det :: 0 <= det < |scene.boxes| && d.confidence == sim(det, d.regNo)
    {
      var f :| 0 <= f < |faces| && a.picks[f] == Some(Match(d.regNo, d.confidence));
      PickIsCandidate(scene, g, ss, sim, threshold, faces[f], Match(d.regNo, d.confidence));
    }
  }

  /** An identity picked for a face is one of that face's candidates. */
  lemma PickIsCandidate(scene: Scene, g: seq<Entry>, ss: set<string>, sim: (nat, string) -> real,
                        threshold: real, face: FaceData, m: Match)
    requires face in FacesUpTo(scene, Ranked(g, ss, sim, threshold), |scene.boxes|)
    requires m in face.matches
    ensures m.regNo in Keys(g) && (ss == {} || m.regNo in ss) && m.score > threshold
    ensures face.det < |scene.boxes| && m.score == sim(face.det, m.regNo)
  {
    FacesUpToContents(scene, Ranked(g, ss, sim, threshold), |scene.boxes|);
    SortedMatchesOrder(Candidates(g, ss, sim, face.det, threshold));
    CandidatesMembers(g, ss, sim, face.det, threshold);
  }

  /** `_process_image_sync`: detect the faces, let them choose identities, collect the students. */
  method ProcessImageSync(photo: Option<Scene>, transformReady: bool, threshold: real, g: seq<Entry>,
                          ss: set<string>, sim: (nat, string) -> real, students: seq<Student>)
    returns (res: ProcessResult)
    ensures res == Recognise(photo, transformReady, threshold, g, ss, sim, students)
  {
    if photo.None? {
      return Failed;
    }
    var scene := photo.value;
    var ok, faces := DetectFaces(scene, transformReady, threshold, g, ss, sim);
    if !ok {
      return Failed;
    }
    var picks := AssignIdentities(faces);
    var detected := CollectStudents(faces, picks, StudentLookup(students));
    match detected {
      case None => return Failed;
      case Some(ds) => return ProcessResult(true, ds);
    }
  }

  /** The detection loop: every box, padded and clamped, that is large enough becomes a face with its
      sorted candidates; the first such face without a transform ends processing (`ok` false). */
  method DetectFaces(scene: Scene, transformReady: bool, threshold: real, g: seq<Entry>,
                     ss: set<string>, sim: (nat, string) -> real)
    returns (ok: bool, faces: seq<FaceData>)
    ensures ok <==> transformReady || FacesUpTo(scene, Ranked(g, ss, sim, threshold), |scene.boxes|) == []
    ensures ok ==> faces == FacesUpTo(scene, Ranked(g, ss, sim, threshold), |scene.boxes|)
  {
    var boxes := scene.boxes;
    ghost var rank := Ranked(g, ss, sim, threshold);
    faces := [];
    var i := 0;
    while i < |boxes|
      invariant 0 <= i <= |boxes|
      invariant faces == FacesUpTo(scene, rank, i)
      invariant !transformReady ==> faces == []
    {
      var b := PadAndClamp(boxes[i], scene.width, scene.height);
      assert FacesUpTo(scene, rank, i + 1) == faces + FaceAt(scene, rank, i);
      if b.x2 - b.x1 >= MinFace && b.y2 - b.y1 >= MinFace {
        if !transformReady {
          SomeFaceFound(scene, rank, i);
          return false, [];
        }
        var matches := RankFace(g, ss, sim, i, threshold);
        faces := faces + [FaceData(i, b, matches)];
      }
      i := i + 1;
    }
    return true, faces;
  }

  /** The candidates of one face, best first. */
  method RankFace(g: seq<Entry>, ss: set<string>, sim: (nat, string) -> real, det: nat, threshold: real)
    returns (matches: seq<Match>)
    ensures matches == Ranked(g, ss, sim, threshold)(det)
  {
    matches := MatchGallery(g, ss, sim, det, threshold);
    matches := SortedMatches(matches);
  }

  /** The similarity loop of one face over the gallery. */
  method MatchGallery(g: seq<Entry>, ss: set<string>, sim: (nat, string) -> real, det: nat, threshold: real)
    returns (matches: seq<Match>)
    ensures matches == Candidates(g, ss, sim, det, threshold)
  {
    matches := [];
    var j := 0;
    while j < |g|
      invariant 0 <= j <= |g|
      invariant matches == Candidates(g[..j], ss, sim, det, threshold)
    {
      var e := g[j];
      if (ss == {} || e.regNo in ss) && sim(det, e.regNo) > threshold {
        matches := matches + [Match(e.regNo, sim(det, e.regNo))];
      }
      assert g[..j + 1][..j] == g[..j];
      j := j + 1;
    }
    assert g[..j] == g;
  }

  /** The greedy loop: faces, best first, take their best candidate not yet taken. */
  method AssignIdentities(faces: seq<FaceData>) returns (picks: seq<Option<Match>>)
    ensures picks == Assign(faces, FaceOrder(faces), |faces|).picks
  {
    var order := FaceOrder(faces);
    picks := seq(|faces|, _ => None);
    var used: set<string> := {};
    var k := 0;
    while k < |order|
      invariant 0 <= k <= |order|
      invariant Assignment(picks, used) == Assign(faces, order, k)
    {
      var f := order[k];
      var ms := faces[f].matches;
      var t := FirstFree(ms, used);
      if t < |ms| {
        picks := picks[f := Some(ms[t])];
        used := used + {ms[t].regNo};
      }
      k := k + 1;
    }
  }

  /** The scan of one face's candidates for the first identity not yet taken. */
  method FirstFree(ms: seq<Match>, used: set<string>) returns (t: nat)
    ensures t == FirstUnused(ms, used)
  {
    t := 0;
    while t < |ms| && ms[t].regNo in used
      invariant 0 <= t <= |ms|
      invariant t + FirstUnused(ms[t..], used) == FirstUnused(ms, used)
    {
      assert ms[t..][1..] == ms[t + 1..];
      t := t + 1;
    }
  }

  /** The collection loop: look each picked identity up among the students. */
  method CollectStudents(faces: seq<FaceData>, picks: seq<Option<Match>>, lookup: string -> Got<Student>)
    returns (r: Option<seq<Detected>>)
    requires |faces| == |picks|
    ensures r == CollectUpTo(faces, picks, lookup, |faces|)
  {
    var detected: seq<Detected> := [];
    var k := 0;
    while k < |faces|
      invariant 0 <= k <= |faces|
      invariant CollectUpTo(faces, picks, lookup, k) == Some(detected)
    {
      if picks[k].Some? && picks[k].value.regNo != Unknown {
        var m := picks[k].value;
        match lookup(m.regNo) {
          case Found(s) =>
            detected := detected + [Detected(m.regNo, s.name, m.score)];
          case DoesNotExist =>
          case MultipleObjectsReturned =>
            CollectFailureStays(faces, picks, lookup, k + 1, |faces|);
            return None;
        }
      }
      k := k + 1;
    }
    return Some(detected);
  }

  /** `_mock_process_image`, used when a model is missing: a photo that decodes gets the two
      fixed mock students, whatever it shows; one that does not fails. */
  function MockProcess(photo: Option<Scene>): (r: ProcessResult)
    ensures r.annotated <==> photo.Some?
    ensures r.annotated ==> |r.students| == 2 && r.students[0].regNo != r.students[1].regNo
    ensures !r.annotated ==> r.students == []
  {
    if photo.None? then Failed
    else ProcessResult(true, MockStudents)
  }

  /** The two students the mock reports. */
  const MockStudents: seq<Detected> :=
    [Detected("2027CS001", "Mock Student 1", 0.85), Detected("2027CS002", "Mock Student 2", 0.92)]
}
