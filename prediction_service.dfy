/** The prediction service: a long-lived object that loads its models once, caches the galleries it
    reads from disk, and runs recognition on a photo against the galleries of the selected section
    groups (or returns the mock result when a model is missing). */
module Service {
  import opened PyRuntime
  import opened Schema
  import opened Gallery
  import opened FaceMatch

  /** The face-recognition model handle: none yet, constructed but not loaded (a failed load leaves
      it so), or loaded.  Python treats both non-`None` handles as true. */
  datatype ModelHandle = NoModel | Constructed | Loaded

  /** The step of initialisation that raises, if any: choosing the device or starting the thread
      pool, loading the face model's checkpoint, constructing the face detector, or building the
      image transform.  A fault only bites when its step runs. */
  datatype InitFault = NoFault | DeviceFault | FaceLoadFault | DetectorFault | TransformFault

  /** What initialisation finds on the machine: whether the face checkpoint exists, whether the
      recognition network's code could be imported, whether the detector weights exist, and which
      step, if any, raises. */
  datatype InitEnv = InitEnv(faceFile: bool, networkAvailable: bool, detectorFile: bool, fault: InitFault)

  /** The fields of the service that initialisation sets. */
  datatype ServiceState = ServiceState(initialized: bool, faceModel: ModelHandle, detectorLoaded: bool, transformReady: bool)

  /** A new service: nothing loaded. */
  const Fresh := ServiceState(false, NoModel, false, false)

  /** Whether initialisation under `env` raises. */
  predicate Bites(env: InitEnv) {
    || env.fault == DeviceFault
    || (env.fault == FaceLoadFault && env.faceFile && env.networkAvailable)
    || (env.fault == DetectorFault && env.detectorFile)
    || env.fault == TransformFault
  }

  /** `initialize()`: nothing happens once initialised; otherwise the steps run in order until one
      raises, and the service counts as initialised only when all of them ran.  A missing file leaves
      the corresponding handle as it was. */
  function AfterInit(s: ServiceState, env: InitEnv): ServiceState {
    if s.initialized || env.fault == DeviceFault then s
    else
      var face :=
        if !(env.faceFile && env.networkAvailable) then s.faceModel
        else if env.fault == FaceLoadFault then Constructed
        else Loaded;
      if env.faceFile && env.networkAvailable && env.fault == FaceLoadFault then s.(faceModel := face)
      else if env.detectorFile && env.fault == DetectorFault then s.(faceModel := face)
      else
        var detector := s.detectorLoaded || env.detectorFile;
        if env.fault == TransformFault then s.(faceModel := face, detectorLoaded := detector)
        else ServiceState(true, face, detector, true)
  }

  /** Processing falls back to the mock when either model is missing. */
  predicate UsesMock(s: ServiceState) {
    s.faceModel == NoModel || !s.detectorLoaded
  }

  /** Initialisation succeeds exactly when no step raises, and a successful initialisation has set up
      the transform and loaded every model whose files are present. */
  lemma AfterInitOutcome(s: ServiceState, env: InitEnv)
    ensures var r := AfterInit(s, env);
      && (r.initialized <==> s.initialized || !Bites(env))
      && (s.initialized ==> r == s)
      && (!s.initialized && r.initialized ==>
            && r.transformReady
            && (env.faceFile && env.networkAvailable ==> r.faceModel == Loaded)
            && (env.detectorFile ==> r.detectorLoaded))
  {
  }

  /** A second initialisation on the same machine changes nothing, whether the first succeeded or not. */
  lemma AfterInitIdempotent(s: ServiceState, env: InitEnv)
    ensures AfterInit(AfterInit(s, env), env) == AfterInit(s, env)
  {
  }

  /** A new service that initialises cleanly uses the mock exactly when a model file (or the
      network's code) is missing; a failed load of the face checkpoint leaves a handle that is not
      `None`, so the next photo goes to the real pipeline, which then has no detector or transform. */
  lemma FreshInit(env: InitEnv)
    ensures var r := AfterInit(Fresh, env);
      && (!Bites(env) ==> (UsesMock(r) <==> !(env.faceFile && env.networkAvailable) || !env.detectorFile))
      && (env.fault == FaceLoadFault && env.faceFile && env.networkAvailable ==>
            r.faceModel == Constructed && !r.detectorLoaded && !r.transformReady && !r.initialized)
  {
  }

  /** One entry of `sections_data`: a department, a batch year (0 when absent) and section names. */
  datatype SectionGroup = SectionGroup(dept: string, batchYear: int, sectionNames: seq<string>)

  /** `if dept_name and batch_year`: only groups with both are used. */
  predicate Selected(grp: SectionGroup) {
    grp.dept != "" && grp.batchYear != 0
  }

  /** The gallery one group contributes. */
  function GroupGallery(files: Files, db: Db, grp: SectionGroup): seq<Entry> {
    LoadedGallery(files, db, grp.dept, grp.batchYear, grp.sectionNames)
  }

  /** `combined_gallery.update(gallery)` over the selected groups, in order. */
  function CombinedGallery(files: Files, db: Db, groups: seq<SectionGroup>): (r: seq<Entry>)
    ensures KeysUnique(r)
  {
    if groups == [] then []
    else
      var prev := CombinedGallery(files, db, groups[..|groups| - 1]);
      var last := groups[|groups| - 1];
      if Selected(last) then Update(prev, GroupGallery(files, db, last)) else prev
  }

  /** The students of every named section of the selected groups. */
  function GroupStudents(db: Db, groups: seq<SectionGroup>): (r: set<string>)
  {
    if groups == [] then {}
    else
      var prev := GroupStudents(db, groups[..|groups| - 1]);
      var last := groups[|groups| - 1];
      if Selected(last) then prev + SectionStudents(db, last.dept, last.batchYear, last.sectionNames) else prev
  }

  /** Group `grp` is selected and its gallery holds identity `k`. */
  predicate HoldsKey(files: Files, db: Db, grp: SectionGroup, k: string) {
    Selected(grp) && k in Keys(GroupGallery(files, db, grp))
  }

  /** Some selected group's gallery holds identity `k`. */
  predicate InSomeGroup(files: Files, db: Db, groups: seq<SectionGroup>, k: string) {
    exists i :: 0 <= i < |groups| && HoldsKey(files, db, groups[i], k)
  }

  /** The combined gallery holds exactly the identities of the selected groups' galleries. */
  lemma CombinedGalleryKeys(files: Files, db: Db, groups: seq<SectionGroup>)
    ensures forall k :: k in Keys(CombinedGallery(files, db, groups)) <==>
      exists i :: 0 <= i < |groups| && Selected(groups[i]) && k in Keys(GroupGallery(files, db, groups[i]))
  {
    forall k ensures k in Keys(CombinedGallery(files, db, groups)) <==> InSomeGroup(files, db, groups, k) {
      CombinedGalleryKey(files, db, groups, k);
    }
  }

  lemma {:induction false} CombinedGalleryKey(files: Files, db: Db, groups: seq<SectionGroup>, k: string)
    ensures k in Keys(CombinedGallery(files, db, groups)) <==> InSomeGroup(files, db, groups, k)
  {
    if groups != [] {
      CombinedGalleryKey(files, db, groups[..|groups| - 1], k);
      InSomeGroupSnoc(files, db, groups, k);
    }
  }

  lemma InSomeGroupSnoc(files: Files, db: Db, groups: seq<SectionGroup>, k: string)
    requires groups != []
    ensures InSomeGroup(files, db, groups, k) <==>
      InSomeGroup(files, db, groups[..|groups| - 1], k) || HoldsKey(files, db, groups[|groups| - 1], k)
  {
    ExistsSnoc(groups, groups[..|groups| - 1], grp => HoldsKey(files, db, grp, k));
  }

  /** Some item of a non-empty sequence satisfies `p` exactly when some item before the last one does, or the last one does. */
  lemma ExistsSnoc<T>(xs: seq<T>, init: seq<T>, p: T -> bool)
    requires xs != [] && init == xs[..|xs| - 1]
    ensures (exists i :: 0 <= i < |xs| && p(xs[i])) <==>
      (exists i :: 0 <= i < |init| && p(init[i])) || p(xs[|xs| - 1])
  {
    if exists i :: 0 <= i < |xs| && p(xs[i]) {
      var i :| 0 <= i < |xs| && p(xs[i]);
      if i < |init| {
        assert init[i] == xs[i];
      }
    }
    if exists i :: 0 <= i < |init| && p(init[i]) {
      var i :| 0 <= i < |init| && p(init[i]);
      assert init[i] == xs[i];
    }
  }

  /** The embedding an identity has in the combined gallery is the one from the last selected group
      whose gallery holds it. */
  lemma LastGroupWins(files: Files, db: Db, groups: seq<SectionGroup>, k: string)
    requires FilesWellFormed(files)
    requires groups != [] && Selected(groups[|groups| - 1])
    requires k in Keys(GroupGallery(files, db, groups[|groups| - 1]))
    ensures Find(CombinedGallery(files, db, groups), k) == Find(GroupGallery(files, db, groups[|groups| - 1]), k)
  {
    var last := groups[|groups| - 1];
    UpdateTakesNewValues(CombinedGallery(files, db, groups[..|groups| - 1]), GroupGallery(files, db, last));
  }

  /** The section students are those of some named section of some selected group. */
  lemma {:induction false} GroupStudentsMembers(db: Db, groups: seq<SectionGroup>)
    ensures forall r :: r in GroupStudents(db, groups) <==>
      exists i :: 0 <= i < |groups| && Selected(groups[i])
        && r in SectionStudents(db, groups[i].dept, groups[i].batchYear, groups[i].sectionNames)
  {
    if groups != [] {
      var init := groups[..|groups| - 1];
      GroupStudentsMembers(db, init);
      forall r | r in GroupStudents(db, groups)
        ensures exists i :: 0 <= i < |groups| && Selected(groups[i]) && r in SectionStudents(db, groups[i].dept, groups[i].batchYear, groups[i].sectionNames)
      {
        if r in GroupStudents(db, init) {
          var i :| 0 <= i < |init| && Selected(init[i])
            && r in SectionStudents(db, init[i].dept, init[i].batchYear, init[i].sectionNames);
          assert groups[i] == init[i];
        }
      }
      forall r, i | 0 <= i < |groups| && Selected(groups[i])
          && r in SectionStudents(db, groups[i].dept, groups[i].batchYear, groups[i].sectionNames)
        ensures r in GroupStudents(db, groups)
      {
        if i < |init| {
          assert groups[i] == init[i];
        }
      }
    }
  }

  /** What `process_image_async` returns on a service in state `s` (after initialising it if needed). */
  function Predict(s: ServiceState, env: InitEnv, photo: Option<Scene>, threshold: real,
                   groups: seq<SectionGroup>, files: Files, db: Db, sim: (nat, string) -> real): ProcessResult
  {
    var t := if s.initialized then s else AfterInit(s, env);
    if UsesMock(t) then MockProcess(photo)
    else Recognise(photo, t.transformReady, threshold, CombinedGallery(files, db, groups),
                   GroupStudents(db, groups), sim, db.students)
  }

  /** Every student the service reports is either one of the two mock students (only when a model is
      missing) or a gallery identity of a selected group, of a named section when any section is
      named, above the threshold and on record; no student is reported twice. */
  lemma PredictReports(s: ServiceState, env: InitEnv, photo: Option<Scene>, threshold: real,
                       groups: seq<SectionGroup>, files: Files, db: Db, sim: (nat, string) -> real)
    requires RegNosUnique(db.students)
    ensures var r := Predict(s, env, photo, threshold, groups, files, db, sim);
      var t := if s.initialized then s else AfterInit(s, env);
      && (forall i, j :: 0 <= i < j < |r.students| ==> r.students[i].regNo != r.students[j].regNo)
      && (UsesMock(t) ==> r == MockProcess(photo))
      && (!UsesMock(t) ==> forall d :: d in r.students ==>
            && d.confidence > threshold
            && (exists i :: 0 <= i < |groups| && Selected(groups[i]) && d.regNo in Keys(GroupGallery(files, db, groups[i])))
            && (GroupStudents(db, groups) == {} || d.regNo in GroupStudents(db, groups))
            && (exists st :: st in db.students && st.regNo == d.regNo && st.name == d.name))
  {
    var t := if s.initialized then s else AfterInit(s, env);
    if !UsesMock(t) {
      var g := CombinedGallery(files, db, groups);
      RecogniseReports(photo, t.transformReady, threshold, g, GroupStudents(db, groups), sim, db.students);
      CombinedGalleryKeys(files, db, groups);
    }
  }

  /** The service object. */
  class PredictionService {
    var initialized: bool
    var faceModel: ModelHandle
    var detectorLoaded: bool
    var transformReady: bool
    /** `_gallery_cache`: unfiltered galleries by cache key. */
    var galleryCache: map<string, seq<Entry>>

    function State(): ServiceState
      reads this
    {
      ServiceState(initialized, faceModel, detectorLoaded, transformReady)
    }

    constructor ()
      ensures State() == Fresh && galleryCache == map[]
    {
      initialized := false;
      faceModel := NoModel;
      detectorLoaded := false;
      transformReady := false;
      galleryCache := map[];
    }

    /** `initialize()` */
    method Initialize(env: InitEnv)
      modifies this
      ensures State() == AfterInit(old(State()), env)
      ensures galleryCache == old(galleryCache)
    {
      if initialized {
        return;
      }
      if env.fault == DeviceFault {
        return;
      }
      if env.faceFile && env.networkAvailable {
        faceModel := Constructed;
        if env.fault == FaceLoadFault {
          return;
        }
        faceModel := Loaded;
      }
      if env.detectorFile {
        if env.fault == DetectorFault {
          return;
        }
        detectorLoaded := true;
      }
      if env.fault == TransformFault {
        return;
      }
      transformReady := true;
      initialized := true;
    }

    /** `load_gallery`: from the cache when the key is there; otherwise from disk, caching the
        unfiltered gallery when the file exists and can be read, and `{}` (nothing cached) when not. */
    method LoadGallery(files: Files, db: Db, dept: string, batchYear: int, sectionNames: seq<string>)
      returns (g: seq<Entry>)
      modifies this
      ensures State() == old(State())
      ensures var key := CacheKey(dept, batchYear);
        && (key in old(galleryCache) ==>
              g == FilterBySections(old(galleryCache)[key], db, dept, batchYear, sectionNames)
              && galleryCache == old(galleryCache))
        && (key !in old(galleryCache) ==>
              g == LoadedGallery(files, db, dept, batchYear, sectionNames)
              && galleryCache == match StoredGallery(files, dept, batchYear)
                                 case None => old(galleryCache)
                                 case Some(stored) => old(galleryCache)[key := stored])
      ensures CacheAgrees(old(galleryCache), files) ==>
        g == LoadedGallery(files, db, dept, batchYear, sectionNames) && CacheAgrees(galleryCache, files)
    {
      var key := CacheKey(dept, batchYear);
      if key in galleryCache {
        return FilterBySections(galleryCache[key], db, dept, batchYear, sectionNames);
      }
      var path := GalleryPath(dept, batchYear);
      if path !in files || files[path].Unreadable? {
        return [];
      }
      var gallery := Convert(files[path].entries);
      galleryCache := galleryCache[key := gallery];
      CacheStaysInAgreement(old(galleryCache), files, dept, batchYear);
      return FilterBySections(gallery, db, dept, batchYear, sectionNames);
    }

    /** `process_image_async`: initialise if needed; the mock when a model is missing; otherwise merge
        the galleries and section students of the selected groups and recognise. */
    method ProcessImage(env: InitEnv, photo: Option<Scene>, threshold: real, groups: seq<SectionGroup>,
                        files: Files, db: Db, sim: (nat, string) -> real)
      returns (res: ProcessResult)
      modifies this
      ensures State() == (if old(initialized) then old(State()) else AfterInit(old(State()), env))
      ensures CacheAgrees(old(galleryCache), files) ==>
        res == Predict(old(State()), env, photo, threshold, groups, files, db, sim)
        && CacheAgrees(galleryCache, files)
    {
      if !initialized {
        Initialize(env);
      }
      if faceModel == NoModel || !detectorLoaded {
        return MockProcess(photo);
      }
      var combined, sectionStudents := MergeGroups(groups, files, db);
      res := ProcessImageSync(photo, transformReady, threshold, combined, sectionStudents, sim, db.students);
    }

    /** The loop over `sections_data`: each selected group's gallery is loaded and merged in, and
        the students of its named sections are added. */
    method MergeGroups(groups: seq<SectionGroup>, files: Files, db: Db)
      returns (combined: seq<Entry>, sectionStudents: set<string>)
      modifies this
      ensures State() == old(State())
      ensures KeysUnique(combined)
      ensures sectionStudents == GroupStudents(db, groups)
      ensures CacheAgrees(old(galleryCache), files) ==>
        combined == CombinedGallery(files, db, groups) && CacheAgrees(galleryCache, files)
    {
      combined := [];
      sectionStudents := {};
      ghost var agrees := CacheAgrees(galleryCache, files);
      var i := 0;
      while i < |groups|
        invariant 0 <= i <= |groups|
        invariant State() == old(State())
        invariant KeysUnique(combined)
        invariant agrees ==> CacheAgrees(galleryCache, files)
        invariant agrees ==> combined == CombinedGallery(files, db, groups[..i])
        invariant sectionStudents == GroupStudents(db, groups[..i])
      {
        var grp := groups[i];
        GroupsStep(files, db, groups, i);
        if grp.dept != "" && grp.batchYear != 0 {
          var gallery := LoadGallery(files, db, grp.dept, grp.batchYear, grp.sectionNames);
          combined := Update(combined, gallery);
          var found := QuerySections(db, grp.dept, grp.batchYear, grp.sectionNames);
          sectionStudents := sectionStudents + found;
        }
        i := i + 1;
      }
      assert groups[..i] == groups;
    }
  }

  /** One more group, as the recursive definitions see it. */
  lemma GroupsStep(files: Files, db: Db, groups: seq<SectionGroup>, i: nat)
    requires i < |groups|
    ensures var grp := groups[i];
      && CombinedGallery(files, db, groups[..i + 1])
           == (if Selected(grp) then Update(CombinedGallery(files, db, groups[..i]), GroupGallery(files, db, grp))
               else CombinedGallery(files, db, groups[..i]))
      && GroupStudents(db, groups[..i + 1])
           == (if Selected(grp) then GroupStudents(db, groups[..i]) + SectionStudents(db, grp.dept, grp.batchYear, grp.sectionNames)
               else GroupStudents(db, groups[..i]))
  {
    assert groups[..i + 1][..i] == groups[..i];
  }

  /** The per-name student queries of one group, gathered into one set. */
  method QuerySections(db: Db, dept: string, batchYear: int, sectionNames: seq<string>)
    returns (found: set<string>)
    ensures found == SectionStudents(db, dept, batchYear, sectionNames)
  {
    found := {};
    var j := 0;
    while j < |sectionNames|
      invariant 0 <= j <= |sectionNames|
      invariant found == SectionStudents(db, dept, batchYear, sectionNames[..j])
    {
      SectionStudentsStep(db, dept, batchYear, sectionNames, j);
      found := found + SectionStudents(db, dept, batchYear, [sectionNames[j]]);
      j := j + 1;
    }
    assert sectionNames[..j] == sectionNames;
  }

  /** Caching the stored gallery under its own key keeps the cache in agreement with the files. */
  lemma CacheStaysInAgreement(cache: map<string, seq<Entry>>, files: Files, dept: string, batchYear: int)
    requires StoredGallery(files, dept, batchYear).Some?
    ensures CacheAgrees(cache, files) ==>
      CacheAgrees(cache[CacheKey(dept, batchYear) := StoredGallery(files, dept, batchYear).value], files)
  {
    var key := CacheKey(dept, batchYear);
    var c := cache[key := StoredGallery(files, dept, batchYear).value];
    if CacheAgrees(cache, files) {
      forall d: string, b: int | CacheKey(d, b) in c
        ensures StoredGallery(files, d, b) == Some(c[CacheKey(d, b)])
      {
        if CacheKey(d, b) == key {
          CacheKeyInjective(d, b, dept, batchYear);
        }
      }
    }
  }

  /** The students of one more section name: the per-name queries of the source add up. */
  lemma SectionStudentsStep(db: Db, dept: string, batchYear: int, names: seq<string>, j: nat)
    requires j < |names|
    ensures SectionStudents(db, dept, batchYear, names[..j + 1])
      == SectionStudents(db, dept, batchYear, names[..j]) + SectionStudents(db, dept, batchYear, [names[j]])
  {
    assert forall n :: n in names[..j + 1] <==> n in names[..j] || n == names[j];
  }
}
