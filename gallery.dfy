/** The face gallery of one department and batch: register numbers mapped to face embeddings, as
    read from `gallery/gallery_<department>_<batch>.pth`, cached under a key naming the department
    and batch, and narrowed to the students of the requested sections. */
module Gallery {
  import opened PyRuntime
  import opened Schema

  /** A face embedding.  Its contents only matter to the similarity scores, which the model takes as given. */
  type Embedding = seq<real>

  /** One gallery entry: a register number and its embedding. */
  datatype Entry = Entry(regNo: string, embedding: Embedding)

  /** A value stored in a gallery file. */
  datatype RawValue = NdArray(values: Embedding) | Tensor(tensor: Embedding) | Unsupported

  datatype RawEntry = RawEntry(key: string, value: RawValue)

  /** A gallery file as `torch.load` sees it: a dictionary, or something it cannot read as one. */
  datatype GalleryFile = Unreadable | Saved(entries: seq<RawEntry>)

  /** A gallery is a Python dictionary: its entries in insertion order, keys distinct. */
  predicate KeysUnique(g: seq<Entry>) {
    forall i, j :: 0 <= i < j < |g| ==> g[i].regNo != g[j].regNo
  }

  predicate RawKeysUnique(raw: seq<RawEntry>) {
    forall i, j :: 0 <= i < j < |raw| ==> raw[i].key != raw[j].key
  }

  function Keys(g: seq<Entry>): set<string> {
    set e | e in g :: e.regNo
  }

  /** Where `regNo` sits in `g`: its first position, or `|g|` when it is absent. */
  function IndexOfKey(g: seq<Entry>, regNo: string): (i: nat)
    ensures i <= |g|
    ensures i < |g| ==> g[i].regNo == regNo
    ensures forall j :: 0 <= j < i ==> g[j].regNo != regNo
    ensures i == |g| <==> regNo !in Keys(g)
  {
    if g == [] then 0
    else if g[0].regNo == regNo then 0
    else
      assert forall e :: e in g[1..] ==> e in g;
      assert regNo in Keys(g) ==> regNo in Keys(g[1..]);
      1 + IndexOfKey(g[1..], regNo)
  }

  /** `gallery.get(regNo)` */
  function Find(g: seq<Entry>, regNo: string): (r: Option<Embedding>)
    ensures r.Some? <==> regNo in Keys(g)
    ensures r.Some? ==> Entry(regNo, r.value) in g
  {
    var i := IndexOfKey(g, regNo);
    if i < |g| then Some(g[i].embedding) else None
  }

  /** In a dictionary the entry holding a key is the only one. */
  lemma IndexOfUniqueKey(g: seq<Entry>, i: nat)
    requires KeysUnique(g) && i < |g|
    ensures IndexOfKey(g, g[i].regNo) == i
  {
  }

  /** The conversion loop of `load_gallery`: arrays are kept, tensors are turned into arrays, anything else is dropped. */
  function Convert(raw: seq<RawEntry>): (g: seq<Entry>)
    ensures |g| <= |raw|
    ensures forall e :: e in g <==> RawEntry(e.regNo, NdArray(e.embedding)) in raw || RawEntry(e.regNo, Tensor(e.embedding)) in raw
    ensures RawKeysUnique(raw) ==> KeysUnique(g)
  {
    if raw == [] then []
    else
      var init := Convert(raw[..|raw| - 1]);
      var last := raw[|raw| - 1];
      assert raw == raw[..|raw| - 1] + [last];
      if last.value.Unsupported? then init
      else
        var e := Entry(last.key, if last.value.NdArray? then last.value.values else last.value.tensor);
        ConvertStep(raw, init, e);
        init + [e]
  }

  /** A converted entry appended behind the conversion of the entries before it. */
  lemma ConvertStep(raw: seq<RawEntry>, init: seq<Entry>, e: Entry)
    requires raw != [] && e.regNo == raw[|raw| - 1].key
    requires forall x :: x in init ==> x.regNo in RawKeys(raw[..|raw| - 1])
    requires RawKeysUnique(raw[..|raw| - 1]) ==> KeysUnique(init)
    ensures RawKeysUnique(raw) ==> KeysUnique(init + [e])
  {
    if RawKeysUnique(raw) {
      var before := raw[..|raw| - 1];
      assert RawKeysUnique(before);
      forall x | x in init ensures x.regNo != e.regNo {
        var j :| 0 <= j < |before| && before[j].key == x.regNo;
        assert raw[j] == before[j];
      }
      AppendFresh(init, e);
    }
  }

  function RawKeys(raw: seq<RawEntry>): set<string> {
    set r | r in raw :: r.key
  }

  /** Appending an entry whose key is new keeps the keys distinct. */
  lemma AppendFresh(g: seq<Entry>, e: Entry)
    requires KeysUnique(g) && forall x :: x in g ==> x.regNo != e.regNo
    ensures KeysUnique(g + [e])
  {
    var r := g + [e];
    forall i, j | 0 <= i < j < |r| ensures r[i].regNo != r[j].regNo {
      if j == |g| {
        assert r[i] == g[i] && g[i] in g;
      } else {
        assert r[i] == g[i] && r[j] == g[j];
      }
    }
  }

  /** The entries of `g` whose register number is in `keep`, in gallery order. */
  function KeepKeys(g: seq<Entry>, keep: set<string>): (r: seq<Entry>)
    ensures |r| <= |g|
    ensures forall e :: e in r <==> e in g && e.regNo in keep
    ensures KeysUnique(g) ==> KeysUnique(r)
  {
    if g == [] then []
    else
      var init := KeepKeys(g[..|g| - 1], keep);
      var last := g[|g| - 1];
      assert g == g[..|g| - 1] + [last];
      if last.regNo in keep then
        KeepStep(g, init);
        init + [last]
      else init
  }

  /** A kept entry appended behind the kept entries before it. */
  lemma KeepStep(g: seq<Entry>, init: seq<Entry>)
    requires g != [] && forall x :: x in init ==> x in g[..|g| - 1]
    requires KeysUnique(g[..|g| - 1]) ==> KeysUnique(init)
    ensures KeysUnique(g) ==> KeysUnique(init + [g[|g| - 1]])
  {
    if KeysUnique(g) {
      var before := g[..|g| - 1];
      assert KeysUnique(before);
      forall x | x in init ensures x.regNo != g[|g| - 1].regNo {
        var j :| 0 <= j < |before| && before[j] == x;
        assert g[j] == before[j];
      }
      AppendFresh(init, g[|g| - 1]);
    }
  }

  /** The register numbers of the students in the named sections of a department's batch. */
  function SectionStudents(db: Db, dept: string, batchYear: int, sectionNames: seq<string>): set<string> {
    set s | s in db.students && s.section.batch == BatchKey(dept, batchYear) && s.section.name in sectionNames :: s.regNo
  }

  /** `_filter_gallery_by_sections`: the gallery itself when no section is named, otherwise the entries
      of the students of the named sections, values untouched, in gallery order. */
  function FilterBySections(g: seq<Entry>, db: Db, dept: string, batchYear: int, sectionNames: seq<string>)
    : (r: seq<Entry>)
    ensures sectionNames == [] ==> r == g
    ensures sectionNames != [] ==>
      forall e :: e in r <==> e in g && e.regNo in SectionStudents(db, dept, batchYear, sectionNames)
    ensures KeysUnique(g) ==> KeysUnique(r)
  {
    if sectionNames == [] then g else KeepKeys(g, SectionStudents(db, dept, batchYear, sectionNames))
  }

  /** Filtering keeps a subset of the gallery, and filtering a second time changes nothing. */
  lemma {:induction false} FilterIdempotent(g: seq<Entry>, db: Db, dept: string, batchYear: int, sectionNames: seq<string>)
    ensures var r := FilterBySections(g, db, dept, batchYear, sectionNames);
      (forall e :: e in r ==> e in g) && FilterBySections(r, db, dept, batchYear, sectionNames) == r
  {
    if sectionNames != [] {
      KeepKeysIdempotent(g, SectionStudents(db, dept, batchYear, sectionNames));
    }
  }

  lemma {:induction false} KeepKeysIdempotent(g: seq<Entry>, keep: set<string>)
    ensures KeepKeys(KeepKeys(g, keep), keep) == KeepKeys(g, keep)
  {
    if g != [] {
      var init := g[..|g| - 1];
      var last := g[|g| - 1];
      KeepKeysIdempotent(init, keep);
      var k := KeepKeys(init, keep);
      if last.regNo in keep {
        assert (k + [last])[..|k|] == k;
      }
    }
  }

  /** `gallery[regNo] = embedding`: a new key is appended, an existing one keeps its place and takes the new value. */
  function Put(g: seq<Entry>, e: Entry): (r: seq<Entry>)
    requires KeysUnique(g)
    ensures KeysUnique(r)
    ensures Keys(r) == Keys(g) + {e.regNo}
    ensures Find(r, e.regNo) == Some(e.embedding)
    ensures forall k :: k != e.regNo ==> Find(r, k) == Find(g, k)
    ensures e.regNo in Keys(g) ==> |r| == |g|
    ensures e.regNo !in Keys(g) ==> r == g + [e]
  {
    var i := IndexOfKey(g, e.regNo);
    if i < |g| then
      var r := g[i := e];
      PutKeys(g, i, e);
      IndexOfUniqueKey(r, i);
      r
    else
      PutFresh(g, e);
      g + [e]
  }

  lemma PutFresh(g: seq<Entry>, e: Entry)
    requires KeysUnique(g) && e.regNo !in Keys(g)
    ensures KeysUnique(g + [e]) && Keys(g + [e]) == Keys(g) + {e.regNo}
    ensures Find(g + [e], e.regNo) == Some(e.embedding)
    ensures forall k :: k != e.regNo ==> Find(g + [e], k) == Find(g, k)
  {
    var r := g + [e];
    assert forall x :: x in g ==> x.regNo in Keys(g);
    AppendFresh(g, e);
    assert Keys(r) == Keys(g) + {e.regNo};
    IndexOfUniqueKey(r, |g|);
    forall k | k != e.regNo ensures Find(r, k) == Find(g, k) {
      var j := IndexOfKey(g, k);
      if j < |g| {
        IndexOfUniqueKey(g, j);
        assert r[j] == g[j];
        IndexOfUniqueKey(r, j);
      }
    }
  }

  lemma PutKeys(g: seq<Entry>, i: nat, e: Entry)
    requires KeysUnique(g) && i < |g| && g[i].regNo == e.regNo
    ensures KeysUnique(g[i := e]) && Keys(g[i := e]) == Keys(g)
    ensures forall k :: k != e.regNo ==> Find(g[i := e], k) == Find(g, k)
  {
    var r := g[i := e];
    forall k | k != e.regNo
      ensures Find(r, k) == Find(g, k)
    {
      var j := IndexOfKey(g, k);
      if j < |g| {
        IndexOfUniqueKey(g, j);
        IndexOfUniqueKey(r, j);
      } else {
        assert forall x :: x in r ==> x in g || x == e;
      }
    }
    assert forall x :: x in r ==> x in g || x == e;
    assert r[i] == e && e in r;
    forall k | k in Keys(g) ensures k in Keys(r) {
      var j := IndexOfKey(g, k);
      assert j == i || r[j] == g[j];
    }
  }

  /** `a.update(b)`: the entries of `b`, in order, written into `a`. */
  function Update(a: seq<Entry>, b: seq<Entry>): (r: seq<Entry>)
    requires KeysUnique(a)
    ensures KeysUnique(r)
    ensures Keys(r) == Keys(a) + Keys(b)
    ensures forall k :: k !in Keys(b) ==> Find(r, k) == Find(a, k)
  {
    if b == [] then a
    else
      var init := b[..|b| - 1];
      assert b == init + [b[|b| - 1]];
      Put(Update(a, init), b[|b| - 1])
  }

  /** After `a.update(b)` with `b` a dictionary, every key of `b` holds `b`'s value. */
  lemma {:induction false} UpdateTakesNewValues(a: seq<Entry>, b: seq<Entry>)
    requires KeysUnique(a) && KeysUnique(b)
    ensures forall k :: k in Keys(b) ==> Find(Update(a, b), k) == Find(b, k)
  {
    if b != [] {
      var init := b[..|b| - 1];
      var last := b[|b| - 1];
      assert b == init + [last];
      UpdateTakesNewValues(a, init);
      assert Update(a, b) == Put(Update(a, init), last);
      forall k | k in Keys(b) ensures Find(Update(a, b), k) == Find(b, k) {
        if k == last.regNo {
          IndexOfUniqueKey(b, |b| - 1);
        } else {
          EarlierKey(b, k);
        }
      }
    }
  }

  /** A key of a dictionary other than its last one is a key of the dictionary without its last entry, with the same value. */
  lemma EarlierKey(b: seq<Entry>, k: string)
    requires KeysUnique(b) && b != [] && k in Keys(b) && k != b[|b| - 1].regNo
    ensures k in Keys(b[..|b| - 1]) && Find(b[..|b| - 1], k) == Find(b, k)
  {
    var init := b[..|b| - 1];
    var i := IndexOfKey(b, k);
    assert init[i] == b[i] && b[i] in init;
    IndexOfUniqueKey(b, i);
    IndexOfUniqueKey(init, i);
  }

  /** `f"gallery_{department_name}_{batch_year}"` */
  function CacheKey(dept: string, batchYear: int): string {
    "gallery_" + dept + "_" + IntToString(batchYear)
  }

  /** `f"gallery/gallery_{department_name}_{batch_year}.pth"`: the file behind a cache key. */
  function GalleryPath(dept: string, batchYear: int): (path: string)
    ensures path == "gallery/" + CacheKey(dept, batchYear) + ".pth"
  {
    "gallery/gallery_" + dept + "_" + IntToString(batchYear) + ".pth"
  }

  /** Distinct (department, batch) pairs never share a cache entry, even when the department name holds "_". */
  lemma CacheKeyInjective(d1: string, b1: int, d2: string, b2: int)
    requires CacheKey(d1, b1) == CacheKey(d2, b2)
    ensures d1 == d2 && b1 == b2
  {
    assert CacheKey(d1, b1) == ("gallery_" + d1) + ['_'] + IntToString(b1);
    assert CacheKey(d2, b2) == ("gallery_" + d2) + ['_'] + IntToString(b2);
    LastSeparatorUnique("gallery_" + d1, IntToString(b1), "gallery_" + d2, IntToString(b2), '_');
    IntToStringInjective(b1, b2);
    assert d1 == ("gallery_" + d1)[8..];
    assert d2 == ("gallery_" + d2)[8..];
  }

  /** The gallery files on disk, by path. */
  type Files = map<string, GalleryFile>

  predicate FilesWellFormed(files: Files) {
    forall p :: p in files && files[p].Saved? ==> RawKeysUnique(files[p].entries)
  }

  /** The unfiltered gallery a department's batch has on disk, if its file exists and can be read. */
  function StoredGallery(files: Files, dept: string, batchYear: int): Option<seq<Entry>> {
    var path := GalleryPath(dept, batchYear);
    if path in files && files[path].Saved? then Some(Convert(files[path].entries)) else None
  }

  /** What `load_gallery` returns, whatever is cached: the section-filtered stored gallery, or `{}`
      when the file is missing or unreadable. */
  function LoadedGallery(files: Files, db: Db, dept: string, batchYear: int, sectionNames: seq<string>)
    : (r: seq<Entry>)
    ensures FilesWellFormed(files) ==> KeysUnique(r)
    ensures StoredGallery(files, dept, batchYear).None? ==> r == []
    ensures forall e :: e in r ==> e.regNo in Keys(StoredGallery(files, dept, batchYear).value)
  {
    match StoredGallery(files, dept, batchYear)
    case None => []
    case Some(g) => FilterBySections(g, db, dept, batchYear, sectionNames)
  }

  /** The cache holds, under each key, the unfiltered gallery stored for that department and batch. */
  ghost predicate CacheAgrees(cache: map<string, seq<Entry>>, files: Files) {
    forall d: string, b: int :: CacheKey(d, b) in cache ==>
      StoredGallery(files, d, b) == Some(cache[CacheKey(d, b)])
  }
}
