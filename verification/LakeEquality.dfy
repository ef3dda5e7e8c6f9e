/**
 What a version says: after any export its semantic content is the source below
 the window end, whichever way it was put together. So the inherited baseline
 of an incremental export and the recomputation of a full one cannot be told
 apart by their value digests.
 */
module LakeEquality {
  import opened Wrappers
  import opened Encoding
  import opened Digest
  import opened Reconcile
  import opened Manifest
  import opened Lake
  import opened LakeProofs

  // ---- the source as a map -----------------------------------------

  function KeysOf(source: seq<Cell>): set<Key> {
    set i | 0 <= i < |source| :: source[i].key
  }

  function RowsAt(source: seq<Cell>, k: Key): seq<Row>
    requires k in KeysOf(source)
  {
    if source[0].key == k then source[0].rows
    else
      assert k in KeysOf(source[1..]) by {
        var i :| 0 <= i < |source| && source[i].key == k;
        assert source[1..][i - 1] == source[i];
      }
      RowsAt(source[1..], k)
  }

  lemma {:induction false} RowsAtIsCell(source: seq<Cell>, k: Key)
    requires k in KeysOf(source)
    ensures Cell(k, RowsAt(source, k)) in source
  {
    if source[0].key == k {
      assert source[0] == Cell(k, RowsAt(source, k));
    } else {
      var j :| 0 <= j < |source| && source[j].key == k;
      assert source[1..][j - 1] == source[j];
      RowsAtIsCell(source[1..], k);
    }
  }

  lemma RowsAtGood(spec: Spec, source: seq<Cell>, k: Key)
    requires GoodSource(spec, source) && k in KeysOf(source)
    ensures GoodRows(spec, RowsAt(source, k))
  {
    RowsAtIsCell(source, k);
  }

  function StatsAtKey(spec: Spec, source: seq<Cell>, k: Key): Stats
    requires GoodSource(spec, source) && k in KeysOf(source)
  {
    RowsAtGood(spec, source, k);
    CellStats(spec, RowsAt(source, k))
  }

  /** The content of the source dated in [lo, hi): the statistics of every cell, by key. */
  function Content(spec: Spec, source: seq<Cell>, lo: int, hi: int): map<Key, Stats>
    requires GoodSource(spec, source)
  {
    map k | k in KeysOf(source) && lo <= k.day < hi :: StatsAtKey(spec, source, k)
  }

  /** The content of the source dated before `hi`. */
  function Below(spec: Spec, source: seq<Cell>, hi: int): map<Key, Stats>
    requires GoodSource(spec, source)
  {
    map k | k in KeysOf(source) && k.day < hi :: StatsAtKey(spec, source, k)
  }

  lemma OneCellPerKey(spec: Spec, source: seq<Cell>, i: nat)
    requires GoodSource(spec, source) && i < |source|
    ensures source[i].key in KeysOf(source) && RowsAt(source, source[i].key) == source[i].rows
    ensures StatsAtKey(spec, source, source[i].key) == CellStats(spec, source[i].rows)
  {
    RowsAtIsCell(source, source[i].key);
  }

  lemma {:induction false} CellsInWindow(source: seq<Cell>, lo: int, hi: int)
    ensures forall c :: c in CellsIn(source, lo, hi) <==> c in source && lo <= c.key.day < hi
  {
    if source != [] {
      CellsInWindow(source[1..], lo, hi);
      assert source == [source[0]] + source[1..];
    }
  }

  lemma ProducedIsContent(spec: Spec, files: map<Path, FileBytes>, p: Production, source: seq<Cell>, lo: int, hi: int,
                          k: Key)
    requires GoodSource(spec, source) && GoodCells(spec, CellsIn(source, lo, hi))
    requires ProductionSound(spec, files, p, CellsIn(source, lo, hi))
    requires k in AsMap(p.entries)
    ensures k in KeysOf(source) && lo <= k.day < hi && AsMap(p.entries)[k].stats == StatsAtKey(spec, source, k)
  {
    var cells := CellsIn(source, lo, hi);
    AsMapMembers(p.entries);
    var i :| 0 <= i < |p.entries| && p.entries[i] == AsMap(p.entries)[k] && p.entries[i].key == k;
    assert EntrySound(spec, p.files, cells[i].key, p.entries[i]);
    CellsInWindow(source, lo, hi);
    assert cells[i] in source;
    var j :| 0 <= j < |source| && source[j] == cells[i];
    OneCellPerKey(spec, source, j);
  }

  lemma ContentIsProduced(spec: Spec, files: map<Path, FileBytes>, p: Production, source: seq<Cell>, lo: int, hi: int,
                          k: Key)
    requires GoodSource(spec, source) && GoodCells(spec, CellsIn(source, lo, hi)) && !p.killed
    requires ProductionSound(spec, files, p, CellsIn(source, lo, hi))
    requires k in KeysOf(source) && lo <= k.day < hi
    ensures k in AsMap(p.entries)
  {
    var cells := CellsIn(source, lo, hi);
    var c := Cell(k, RowsAt(source, k));
    RowsAtIsCell(source, k);
    CellsInWindow(source, lo, hi);
    assert c in cells;
    var i :| 0 <= i < |cells| && cells[i] == c;
    assert EntrySound(spec, p.files, cells[i].key, p.entries[i]);
    AsMapMembers(p.entries);
  }

  /** What a complete production holds is the content of its window. */
  lemma ProducedContent(spec: Spec, files: map<Path, FileBytes>, p: Production, source: seq<Cell>, lo: int, hi: int)
    requires GoodSource(spec, source) && GoodCells(spec, CellsIn(source, lo, hi)) && !p.killed
    requires ProductionSound(spec, files, p, CellsIn(source, lo, hi))
    ensures StatsView(AsMap(p.entries)) == Content(spec, source, lo, hi)
  {
    forall k | k in AsMap(p.entries)
      ensures k in Content(spec, source, lo, hi) && AsMap(p.entries)[k].stats == Content(spec, source, lo, hi)[k]
    {
      ProducedIsContent(spec, files, p, source, lo, hi, k);
    }
    forall k | k in Content(spec, source, lo, hi) ensures k in AsMap(p.entries) {
      ContentIsProduced(spec, files, p, source, lo, hi, k);
    }
  }

  lemma {:induction false} FirstDayIsFirst(source: seq<Cell>)
    ensures source != [] ==> forall k :: k in KeysOf(source) ==> FirstDay(source) <= k.day
  {
    if |source| > 1 {
      FirstDayIsFirst(source[1..]);
      forall k | k in KeysOf(source) ensures FirstDay(source) <= k.day {
        var i :| 0 <= i < |source| && source[i].key == k;
        if i > 0 {
          assert source[1..][i - 1] == source[i];
        }
      }
    }
  }

  lemma {:induction false} FirstDayIsAny(source: seq<Cell>)
    requires source != []
    ensures exists k :: k in KeysOf(source) && k.day == FirstDay(source)
  {
    assert source[0].key in KeysOf(source);
    if |source| > 1 {
      FirstDayIsAny(source[1..]);
      var k :| k in KeysOf(source[1..]) && k.day == FirstDay(source[1..]);
      var i :| 0 <= i < |source[1..]| && source[1..][i].key == k;
      assert source[i + 1].key == k;
    }
  }

  /** A window that starts at the first day, or anywhere in an empty source, holds all there is below its end. */
  lemma WholeWindow(spec: Spec, source: seq<Cell>, hi: int)
    requires GoodSource(spec, source)
    ensures Content(spec, source, if source != [] then FirstDay(source) else hi, hi) == Below(spec, source, hi)
  {
    FirstDayIsFirst(source);
  }

  // ---- one export --------------------------------------------------

  /** The baseline still describes the source up to its last day, which lies below the window end. */
  ghost predicate Settled(spec: Spec, baseline: Partitions, source: seq<Cell>, end: int)
    requires GoodSource(spec, source)
  {
    baseline != map[] ==> SettledUpTo(spec, baseline, LastDay(baseline), source, end)
  }

  ghost predicate SettledUpTo(spec: Spec, baseline: Partitions, day: int, source: seq<Cell>, end: int)
    requires GoodSource(spec, source)
  {
    day < end && StatsView(baseline) == Below(spec, source, day + 1)
  }

  lemma MergedAt(spec: Spec, baseline: Partitions, produced: Partitions, source: seq<Cell>, start: int, end: int,
                 k: Key)
    requires GoodSource(spec, source) && start <= end
    requires StatsView(baseline) == Below(spec, source, start)
    requires StatsView(produced) == Content(spec, source, start, end)
    ensures k in baseline + produced <==> k in KeysOf(source) && k.day < end
    ensures k in baseline + produced ==> (baseline + produced)[k].stats == StatsAtKey(spec, source, k)
  {
    assert k in baseline <==> k in StatsView(baseline);
    assert k in produced <==> k in StatsView(produced);
    if k in produced {
      assert produced[k].stats == StatsView(produced)[k];
    } else if k in baseline {
      assert baseline[k].stats == StatsView(baseline)[k];
    }
  }

  /** A baseline that holds all below `start` and the content from there on make up all the content. */
  lemma MergedContent(spec: Spec, baseline: Partitions, produced: Partitions, source: seq<Cell>, start: int, end: int)
    requires GoodSource(spec, source) && start <= end
    requires StatsView(baseline) == Below(spec, source, start)
    requires StatsView(produced) == Content(spec, source, start, end)
    ensures StatsView(baseline + produced) == Below(spec, source, end)
  {
    var merged, whole := StatsView(baseline + produced), Below(spec, source, end);
    forall k ensures k in merged <==> k in whole {
      MergedAt(spec, baseline, produced, source, start, end, k);
    }
    forall k | k in merged ensures merged[k] == whole[k] {
      MergedAt(spec, baseline, produced, source, start, end, k);
    }
    SameMap(merged, whole);
  }

  lemma SameMap<K, V>(a: map<K, V>, b: map<K, V>)
    requires forall k :: k in a <==> k in b
    requires forall k :: k in a ==> a[k] == b[k]
    ensures a == b
  {
  }

  lemma SettledContent(spec: Spec, baseline: Partitions, produced: Partitions, source: seq<Cell>, end: int)
    requires GoodSource(spec, source)
    requires baseline != map[] && Settled(spec, baseline, source, end)
    requires StatsView(produced) == Content(spec, source, LastDay(baseline) + 1, end)
    ensures StatsView(baseline + produced) == Below(spec, source, end)
  {
    MergedContent(spec, baseline, produced, source, LastDay(baseline) + 1, end);
  }

  lemma NothingInherited(spec: Spec, produced: Partitions, source: seq<Cell>, end: int)
    requires GoodSource(spec, source)
    requires StatsView(produced) == Content(spec, source, if source != [] then FirstDay(source) else end, end)
    ensures StatsView(produced) == Below(spec, source, end)
  {
    WholeWindow(spec, source, end);
  }

  function Inherited(job: Job, baseline: Option<DatasetVersion>): Partitions {
    if job.mode == Incremental then PartitionsOf(baseline) else map[]
  }

  lemma ComposedPartitions(spec: Spec, disk: Disk, job: Job, baseline: Option<DatasetVersion>, p: Production)
    requires |p.entries| == |p.written|
    ensures Compose(spec, disk, job, baseline, p).partitions == Inherited(job, baseline) + AsMap(p.entries)
    ensures Inherited(job, baseline) == map[] ==> Compose(spec, disk, job, baseline, p).partitions == AsMap(p.entries)
  {
    EmptyPlus(AsMap(p.entries));
  }

  lemma ComposedDigest(spec: Spec, disk: Disk, job: Job, baseline: Option<DatasetVersion>, p: Production)
    requires |p.entries| == |p.written|
    ensures var m := Compose(spec, disk, job, baseline, p); m.valueDigest == ValueDigest(m.partitions)
  {
  }

  lemma InheritedContent(spec: Spec, job: Job, baseline: Option<DatasetVersion>, produced: Partitions)
    requires GoodSource(spec, job.source)
    requires StatsView(produced) == Content(spec, job.source,
                                            WindowStart(job.mode, job.source, job.end, PartitionsOf(baseline)), job.end)
    requires job.mode == Incremental ==> Settled(spec, PartitionsOf(baseline), job.source, job.end)
    ensures StatsView(Inherited(job, baseline) + produced) == Below(spec, job.source, job.end)
  {
    var b := PartitionsOf(baseline);
    if job.mode == Incremental && b != map[] {
      SettledContent(spec, b, produced, job.source, job.end);
    } else {
      NothingInherited(spec, produced, job.source, job.end);
      EmptyPlus(produced);
    }
  }

  lemma EmptyPlus(p: Partitions)
    ensures map[] + p == p
  {
  }

  lemma ComposedContent(spec: Spec, disk: Disk, job: Job, baseline: Option<DatasetVersion>, p: Production)
    requires GoodSource(spec, job.source) && !p.killed
    requires ProductionSound(spec, disk.files, p, WindowCells(spec, job, baseline))
    requires job.mode == Incremental ==> Settled(spec, PartitionsOf(baseline), job.source, job.end)
    ensures StatsView(Compose(spec, disk, job, baseline, p).partitions) == Below(spec, job.source, job.end)
  {
    var start := WindowStart(job.mode, job.source, job.end, PartitionsOf(baseline));
    ProducedContent(spec, disk.files, p, job.source, start, job.end);
    InheritedContent(spec, job, baseline, AsMap(p.entries));
    ComposedPartitions(spec, disk, job, baseline, p);
  }

  /** The value digest of a full rebuild of the source below the window end. */
  function FullDigest(spec: Spec, source: seq<Cell>, end: int): ValueHash
    requires GoodSource(spec, source)
  {
    ValueSha(Listed(Below(spec, source, end)))
  }

  lemma DigestOfContent(p: Partitions, view: map<Key, Stats>)
    requires StatsView(p) == view
    ensures ValueDigest(p) == ValueSha(Listed(view))
  {
  }

  lemma WindowEmptyContent(spec: Spec, job: Job, baseline: Option<DatasetVersion>)
    requires GoodSource(spec, job.source) && WindowEmpty(job, baseline)
    requires job.mode == Incremental ==> Settled(spec, PartitionsOf(baseline), job.source, job.end)
    ensures StatsView(PartitionsOf(baseline)) == Below(spec, job.source, job.end)
  {
    FirstDayIsFirst(job.source);
    var b := PartitionsOf(baseline);
    if b != map[] {
      assert LastDay(b) + 1 == job.end;
    } else {
      assert Below(spec, job.source, job.end) == map[];
    }
  }

  /** The baseline the export would start from, on a sound disk. */
  function BaselineOf(disk: Disk): Option<DatasetVersion> {
    var b := UsableBaseline(disk.files, ListVersions(disk.manifests), true);
    if b.Ok? then b.value else None
  }

  lemma BaselineOfJob(spec: Spec, disk: Disk, fallback: bool)
    requires DiskSound(spec, disk)
    ensures UsableBaseline(disk.files, ListVersions(disk.manifests), fallback) == Ok(BaselineOf(disk))
  {
    var listing := ListVersions(disk.manifests);
    forall i | 0 <= i < |listing| ensures VersionSound(spec, disk.files, listing[i]) {
      var j := ListingIsPublished(disk.manifests, i);
    }
    FallbackUnused(spec, disk.files, listing, fallback);
  }

  lemma {:induction false} FallbackUnused(spec: Spec, files: map<Path, FileBytes>, listing: seq<DatasetVersion>,
                                          fallback: bool)
    requires forall i :: 0 <= i < |listing| ==> VersionSound(spec, files, listing[i])
    ensures UsableBaseline(files, listing, fallback).Ok?
    ensures UsableBaseline(files, listing, fallback) == UsableBaseline(files, listing, true)
  {
    if listing != [] {
      SoundIsIntact(spec, files, listing[|listing| - 1]);
      if listing[|listing| - 1].status.Invalid? {
        FallbackUnused(spec, files, listing[..|listing| - 1], fallback);
      }
    }
  }

  lemma FinishOutcome(disk: Disk, files: map<Path, FileBytes>, job: Job, baseline: Option<DatasetVersion>,
                      m: DatasetVersion, left: nat)
    ensures var r := Finish(disk, files, job, baseline, m, left);
            && (r.1.Published? ==> r.0.manifests == disk.manifests + [m] && r.1.version == m.version)
            && (!r.1.Published? ==> r.0.manifests == disk.manifests)
            && (r.1.NoOp? ==> baseline.Some? && baseline.value.valueDigest == m.valueDigest)
  {
  }

  /** The ways an export can end, with the version it publishes. */
  lemma ExportOutcome(spec: Spec, disk: Disk, job: Job) returns (baseline: Option<DatasetVersion>, p: Production)
    requires GoodSource(spec, job.source) && DiskSound(spec, disk)
    ensures baseline == BaselineOf(disk) && (baseline.Some? ==> VersionSound(spec, disk.files, baseline.value))
    ensures p == ProduceAll(spec, disk, job, baseline)
    ensures ProductionSound(spec, disk.files, p, WindowCells(spec, job, baseline))
    ensures var r := Export(spec, disk, job);
            && (r.1.Published? ==>
                  && !p.killed && FreshAreReadable(spec, p.files, p.entries, p.written)
                  && r.0.manifests == disk.manifests + [Compose(spec, disk, job, baseline, p)])
            && (!r.1.Published? ==> r.0.manifests == disk.manifests)
            && (r.1.NoOp? ==>
                  && baseline.Some?
                  && (WindowEmpty(job, baseline)
                      || (!p.killed
                          && baseline.value.valueDigest == Compose(spec, disk, job, baseline, p).valueDigest)))
  {
    baseline, p := JobProduction(spec, disk, job);
    BaselineOfJob(spec, disk, job.mode == Full);
    FinishOutcome(disk, p.files, job, baseline, Compose(spec, disk, job, baseline, p), p.left);
  }

  /** The version has the content and the value digest of a full rebuild. */
  ghost predicate LikeRebuilt(spec: Spec, m: DatasetVersion, source: seq<Cell>, end: int)
    requires GoodSource(spec, source)
  {
    StatsView(m.partitions) == Below(spec, source, end) && m.valueDigest == FullDigest(spec, source, end)
  }

  lemma ComposedLikeRebuilt(spec: Spec, disk: Disk, job: Job, baseline: Option<DatasetVersion>, p: Production)
    requires GoodSource(spec, job.source) && !p.killed
    requires ProductionSound(spec, disk.files, p, WindowCells(spec, job, baseline))
    requires job.mode == Incremental ==> Settled(spec, PartitionsOf(baseline), job.source, job.end)
    ensures LikeRebuilt(spec, Compose(spec, disk, job, baseline, p), job.source, job.end)
  {
    ComposedContent(spec, disk, job, baseline, p);
    ComposedDigest(spec, disk, job, baseline, p);
    DigestOfContent(Compose(spec, disk, job, baseline, p).partitions, Below(spec, job.source, job.end));
  }

  /**
   A version published by either mode has the content and the value digest of
   the full rebuild, and an export that finds nothing to publish leaves a
   baseline that has this digest.
   */
  lemma ExportMeetsFullDigest(spec: Spec, disk: Disk, job: Job) returns (m: Option<DatasetVersion>)
    requires GoodSource(spec, job.source) && DiskSound(spec, disk)
    requires job.mode == Incremental ==> Settled(spec, PartitionsOf(BaselineOf(disk)), job.source, job.end)
    ensures m.Some? <==> Export(spec, disk, job).1.Published?
    ensures Export(spec, disk, job).0.manifests == disk.manifests + (if m.Some? then [m.value] else [])
    ensures m.Some? ==> LikeRebuilt(spec, m.value, job.source, job.end)
    ensures Export(spec, disk, job).1.NoOp? ==>
              BaselineOf(disk).Some? && BaselineOf(disk).value.valueDigest == FullDigest(spec, job.source, job.end)
  {
    var baseline, p := ExportOutcome(spec, disk, job);
    var outcome := Export(spec, disk, job).1;
    m := None;
    if !p.killed {
      ComposedLikeRebuilt(spec, disk, job, baseline, p);
      if outcome.Published? {
        m := Some(Compose(spec, disk, job, baseline, p));
      }
    }
    if outcome.NoOp? && WindowEmpty(job, baseline) {
      WindowEmptyContent(spec, job, baseline);
      DigestOfContent(PartitionsOf(baseline), Below(spec, job.source, job.end));
    }
  }

  // ---- runs of exports ---------------------------------------------

  /** The sources hold the same rows, up to order and normal form, on every day before `hi`. */
  ghost predicate SameRowsBelow(a: seq<Cell>, b: seq<Cell>, hi: int) {
    forall k: Key {:trigger SameRowsAt(a, b, k)} :: k.day < hi ==> SameRowsAt(a, b, k)
  }

  ghost predicate SameRowsAt(a: seq<Cell>, b: seq<Cell>, k: Key) {
    && (k in KeysOf(a) <==> k in KeysOf(b))
    && (k in KeysOf(a) && k in KeysOf(b) ==> multiset(NormalRows(RowsAt(a, k))) == multiset(NormalRows(RowsAt(b, k))))
  }

  lemma SameRowsSameStatsAt(spec: Spec, a: seq<Cell>, b: seq<Cell>, k: Key)
    requires GoodSource(spec, a) && GoodSource(spec, b) && SameRowsAt(a, b, k) && k in KeysOf(a)
    ensures StatsAtKey(spec, a, k) == StatsAtKey(spec, b, k)
  {
    RowsAtGood(spec, a, k);
    RowsAtGood(spec, b, k);
    SameRowsSameStats(RowsAt(a, k), RowsAt(b, k), spec.projection, spec.event);
  }

  lemma SameRowsSameContent(spec: Spec, a: seq<Cell>, b: seq<Cell>, hi: int)
    requires GoodSource(spec, a) && GoodSource(spec, b) && SameRowsBelow(a, b, hi)
    ensures Below(spec, a, hi) == Below(spec, b, hi)
  {
    var left, right := Below(spec, a, hi), Below(spec, b, hi);
    forall k: Key ensures k in left <==> k in right {
      assert k.day < hi ==> SameRowsAt(a, b, k);
    }
    forall k | k in left ensures left[k] == right[k] {
      assert SameRowsAt(a, b, k);
      SameRowsSameStatsAt(spec, a, b, k);
    }
    SameMap(left, right);
  }

  /** The job that published each version of the first `n` jobs of a run, in the order of publication. */
  function Publishers(r: Run, n: nat): seq<Job>
    requires n <= |r.jobs| == |r.outcomes|
  {
    if n == 0 then [] else Publishers(r, n - 1) + (if r.outcomes[n - 1].Published? then [r.jobs[n - 1]] else [])
  }

  /**
   The window end is not before the publisher's, and the rows dated up to the baseline's last day
   are those it saw.
   */
  ghost predicate Carries(baseline: Partitions, publisher: Job, job: Job) {
    baseline != map[] ==> publisher.end <= job.end && SameRowsBelow(publisher.source, job.source, LastDay(baseline) + 1)
  }

  /** Job `n` carries on from the baseline it starts from. */
  ghost predicate Continues(r: Run, n: nat)
    requires n < |r.jobs| == |r.outcomes| && n < |r.disks|
  {
    var disk, publishers := r.disks[n], Publishers(r, n);
    forall v :: 0 <= v < |disk.manifests| && v < |publishers| && BaselineOf(disk) == Some(disk.manifests[v]) ==>
      Carries(disk.manifests[v].partitions, publishers[v], r.jobs[n])
  }

  /** Nothing is asked of full exports. */
  ghost predicate IsContinuous(spec: Spec, r: Run) {
    && IsRunFromEmpty(spec, r)
    && forall n :: 0 <= n < |r.jobs| && r.jobs[n].mode == Incremental ==> Continues(r, n)
  }

  /** Every version holds what its publisher saw below its window end. */
  ghost predicate HoldsContent(spec: Spec, manifests: seq<DatasetVersion>, publishers: seq<Job>) {
    && |publishers| == |manifests|
    && forall v :: 0 <= v < |manifests| ==> SeenBy(spec, manifests[v], publishers[v])
  }

  ghost predicate SeenBy(spec: Spec, m: DatasetVersion, publisher: Job) {
    GoodSource(spec, publisher.source) && LikeRebuilt(spec, m, publisher.source, publisher.end)
  }

  /** All content below a window end lies below the day after the last day there is. */
  lemma ContentEnds(spec: Spec, view: map<Key, Stats>, source: seq<Cell>, end: int, last: Key)
    requires GoodSource(spec, source) && view == Below(spec, source, end)
    requires last in view && forall k :: k in view.Keys ==> k.day <= last.day
    ensures last.day < end && view == Below(spec, source, last.day + 1)
  {
    var shorter := Below(spec, source, last.day + 1);
    forall k ensures k in view <==> k in shorter {
      assert k in view ==> k in view.Keys;
    }
    SameMap(view, shorter);
  }

  lemma SettledForItself(spec: Spec, baseline: Partitions, last: Key, publisher: Job)
    requires GoodSource(spec, publisher.source)
    requires StatsView(baseline) == Below(spec, publisher.source, publisher.end)
    requires last in baseline.Keys && forall k :: k in baseline.Keys ==> k.day <= last.day
    ensures SettledUpTo(spec, baseline, last.day, publisher.source, publisher.end)
  {
    ContentEnds(spec, StatsView(baseline), publisher.source, publisher.end, last);
  }

  lemma SettledMovesOn(spec: Spec, baseline: Partitions, day: int, a: seq<Cell>, aEnd: int, b: seq<Cell>, bEnd: int)
    requires GoodSource(spec, a) && GoodSource(spec, b)
    requires SettledUpTo(spec, baseline, day, a, aEnd) && aEnd <= bEnd && SameRowsBelow(a, b, day + 1)
    ensures SettledUpTo(spec, baseline, day, b, bEnd)
  {
    SameRowsSameContent(spec, a, b, day + 1);
  }

  lemma SettledByContent(spec: Spec, baseline: Partitions, publisher: Job, job: Job)
    requires GoodSource(spec, publisher.source) && GoodSource(spec, job.source) && baseline != map[]
    requires StatsView(baseline) == Below(spec, publisher.source, publisher.end)
    requires publisher.end <= job.end && SameRowsBelow(publisher.source, job.source, LastDay(baseline) + 1)
    ensures Settled(spec, baseline, job.source, job.end)
  {
    var last := LastDayIsLast(baseline);
    SettledForItself(spec, baseline, last, publisher);
    SettledMovesOn(spec, baseline, last.day, publisher.source, publisher.end, job.source, job.end);
  }

  lemma ContinuesSettled(spec: Spec, r: Run, n: nat)
    requires IsRunFromEmpty(spec, r) && n < |r.jobs| && Continues(r, n)
    requires HoldsContent(spec, r.disks[n].manifests, Publishers(r, n))
    requires GoodSource(spec, r.jobs[n].source)
    ensures Settled(spec, PartitionsOf(BaselineOf(r.disks[n])), r.jobs[n].source, r.jobs[n].end)
  {
    var disk, publishers := r.disks[n], Publishers(r, n);
    RunKeepsSound(spec, r, n);
    var baseline := JobBaseline(spec, disk, true);
    if PartitionsOf(baseline) != map[] {
      var v :| 0 <= v < |disk.manifests| && disk.manifests[v] == baseline.value;
      assert SeenBy(spec, disk.manifests[v], publishers[v]);
      assert Carries(disk.manifests[v].partitions, publishers[v], r.jobs[n]);
      SettledByContent(spec, PartitionsOf(baseline), publishers[v], r.jobs[n]);
    }
  }

  /** The job finds a settled baseline, if it needs one. */
  ghost predicate ReadyFor(spec: Spec, disk: Disk, job: Job) {
    && GoodSource(spec, job.source)
    && (job.mode == Incremental ==> Settled(spec, PartitionsOf(BaselineOf(disk)), job.source, job.end))
  }

  lemma ContentMakesReady(spec: Spec, r: Run, n: nat)
    requires IsContinuous(spec, r) && n < |r.jobs|
    requires HoldsContent(spec, r.disks[n].manifests, Publishers(r, n))
    ensures ReadyFor(spec, r.disks[n], r.jobs[n])
  {
    assert Follows(spec, r, n);
    if r.jobs[n].mode == Incremental {
      ContinuesSettled(spec, r, n);
    }
  }

  /** What job `n` adds: nothing, or a version that holds what it saw. */
  lemma StepAdds(spec: Spec, r: Run, n: nat) returns (m: Option<DatasetVersion>)
    requires IsRunFromEmpty(spec, r) && n < |r.jobs| && ReadyFor(spec, r.disks[n], r.jobs[n])
    ensures m.Some? <==> r.outcomes[n].Published?
    ensures r.disks[n + 1].manifests == r.disks[n].manifests + (if m.Some? then [m.value] else [])
    ensures m.Some? ==> SeenBy(spec, m.value, r.jobs[n])
    ensures r.outcomes[n].NoOp? ==>
              && BaselineOf(r.disks[n]).Some?
              && BaselineOf(r.disks[n]).value.valueDigest == FullDigest(spec, r.jobs[n].source, r.jobs[n].end)
  {
    assert Follows(spec, r, n);
    RunKeepsSound(spec, r, n);
    m := ExportMeetsFullDigest(spec, r.disks[n], r.jobs[n]);
  }

  lemma HoldsAppend(spec: Spec, manifests: seq<DatasetVersion>, publishers: seq<Job>, m: DatasetVersion, job: Job)
    requires HoldsContent(spec, manifests, publishers) && SeenBy(spec, m, job)
    ensures HoldsContent(spec, manifests + [m], publishers + [job])
  {
  }

  lemma StepHoldsContent(spec: Spec, r: Run, n: nat)
    requires IsRunFromEmpty(spec, r) && n < |r.jobs| && ReadyFor(spec, r.disks[n], r.jobs[n])
    requires HoldsContent(spec, r.disks[n].manifests, Publishers(r, n))
    ensures HoldsContent(spec, r.disks[n + 1].manifests, Publishers(r, n + 1))
  {
    var m := StepAdds(spec, r, n);
    if m.Some? {
      HoldsAppend(spec, r.disks[n].manifests, Publishers(r, n), m.value, r.jobs[n]);
    } else {
      assert r.disks[n + 1].manifests == r.disks[n].manifests && Publishers(r, n + 1) == Publishers(r, n);
    }
  }

  lemma {:induction false} RunHoldsContent(spec: Spec, r: Run, n: nat)
    requires IsContinuous(spec, r) && n <= |r.jobs|
    ensures HoldsContent(spec, r.disks[n].manifests, Publishers(r, n))
  {
    if n > 0 {
      RunHoldsContent(spec, r, n - 1);
      ContentMakesReady(spec, r, n - 1);
      StepHoldsContent(spec, r, n - 1);
    }
  }

  /**
   Incremental equals full. At any point of a run of incremental and full
   exports, refused, killed and invalid ones included, an incremental export
   that publishes has the content and the value digest that any full export of
   the same source and window end publishes in whatever other run; and one that
   finds nothing to publish leaves a baseline with that digest.
   */
  lemma IncrementalEqualsFull(spec: Spec, r: Run, n: nat, other: Run, j: nat)
    returns (m: Option<DatasetVersion>, rebuilt: DatasetVersion)
    requires IsContinuous(spec, r) && n < |r.jobs| && r.jobs[n].mode == Incremental
    requires IsRunFromEmpty(spec, other) && j < |other.jobs| && other.jobs[j].mode == Full
    requires other.outcomes[j].Published?
    requires other.jobs[j].source == r.jobs[n].source && other.jobs[j].end == r.jobs[n].end
    ensures r.disks[n + 1].manifests == r.disks[n].manifests + (if m.Some? then [m.value] else [])
    ensures other.disks[j + 1].manifests == other.disks[j].manifests + [rebuilt]
    ensures m.Some? <==> r.outcomes[n].Published?
    ensures m.Some? ==>
              && StatsView(m.value.partitions) == StatsView(rebuilt.partitions)
              && m.value.valueDigest == rebuilt.valueDigest
    ensures r.outcomes[n].NoOp? ==>
              BaselineOf(r.disks[n]).Some? && BaselineOf(r.disks[n]).value.valueDigest == rebuilt.valueDigest
  {
    RunHoldsContent(spec, r, n);
    ContentMakesReady(spec, r, n);
    m := StepAdds(spec, r, n);
    assert Follows(spec, other, j);
    var full := StepAdds(spec, other, j);
    rebuilt := full.value;
  }
}
