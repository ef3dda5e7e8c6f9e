/**
 The gap ledger of a published version, the order of versions, and how far a
 dataset can shrink along a run of exports.
 */
module LakeRuns {
  import opened Wrappers
  import opened Manifest
  import opened Versions
  import opened Lake
  import opened LakeProofs
  import opened LakeEquality
  import Sorting

  // ---- the gap ledger ----------------------------------------------

  /** Exactly one of present and skipped. */
  predicate Accounted(m: DatasetVersion, k: Key) {
    (k in m.partitions) != (k in m.skipped)
  }

  lemma ComposedSkipped(spec: Spec, disk: Disk, job: Job, baseline: Option<DatasetVersion>, p: Production)
    requires |p.entries| == |p.written|
    ensures var produced := AsMap(p.entries).Keys;
            Compose(spec, disk, job, baseline, p).skipped
            == SynthesizeSkipped(if job.mode == Incremental then SkippedOf(baseline) else {}, produced,
                                 EmptyCells(spec, job.mode, produced,
                                            WindowStart(job.mode, job.source, job.end,
                                                        PartitionsOf(baseline)), job.end, baseline))
  {
  }

  lemma InDims(keys: set<Key>, k: Key)
    requires k in keys
    ensures k.dim in DimsOf(keys)
  {
  }

  lemma IncrementalEmpty(spec: Spec, produced: set<Key>, start: int, end: int, baseline: Option<DatasetVersion>, k: Key)
    requires start <= k.day < end
    requires spec.pairPartitioned ==>
               k.dim in DimsOf(produced) + DimsOf(PartitionsOf(baseline).Keys) + DimsOf(SkippedOf(baseline))
    requires !spec.pairPartitioned ==> k.dim == 0
    ensures k in EmptyCells(spec, Incremental, produced, start, end, baseline) <==> k !in produced
  {
    assert k == Key(k.day, k.dim);
  }

  /** The dimensions an incremental export answers for. */
  predicate KnownDim(spec: Spec, baseline: Option<DatasetVersion>, m: DatasetVersion, dim: nat) {
    if spec.pairPartitioned then dim in DimsOf(m.partitions.Keys) + DimsOf(m.skipped) + DimsOf(SkippedOf(baseline))
    else dim == 0
  }

  /** A dimension of the merged partitions or of the merged ledger comes from one of their sources. */
  lemma DimsOfMerged(kept: set<Key>, produced: set<Key>, dim: nat)
    requires dim in DimsOf(kept + produced)
    ensures dim in DimsOf(kept) || dim in DimsOf(produced)
  {
    var k :| k in kept + produced && k.dim == dim;
    if k in kept { InDims(kept, k); } else { InDims(produced, k); }
  }

  lemma DimsOfEmpty(spec: Spec, produced: set<Key>, start: int, end: int, baseline: Option<DatasetVersion>, k: Key)
    requires spec.pairPartitioned && k in EmptyCells(spec, Incremental, produced, start, end, baseline)
    ensures k.dim in DimsOf(produced) + DimsOf(PartitionsOf(baseline).Keys) + DimsOf(SkippedOf(baseline))
  {
  }

  lemma KnownDimSource(spec: Spec, disk: Disk, job: Job, baseline: Option<DatasetVersion>, p: Production, dim: nat)
    requires |p.entries| == |p.written| && job.mode == Incremental && spec.pairPartitioned
    requires KnownDim(spec, baseline, Compose(spec, disk, job, baseline, p), dim)
    ensures var produced := AsMap(p.entries).Keys;
            dim in DimsOf(produced) || dim in DimsOf(PartitionsOf(baseline).Keys) || dim in DimsOf(SkippedOf(baseline))
  {
    var m := Compose(spec, disk, job, baseline, p);
    var produced := AsMap(p.entries).Keys;
    var start := WindowStart(job.mode, job.source, job.end, PartitionsOf(baseline));
    ComposedPartitions(spec, disk, job, baseline, p);
    ComposedSkipped(spec, disk, job, baseline, p);
    if dim in DimsOf(m.partitions.Keys) {
      DimsOfMerged(PartitionsOf(baseline).Keys, produced, dim);
    } else if dim in DimsOf(m.skipped) {
      var k :| k in m.skipped && k.dim == dim;
      if k in SkippedOf(baseline) {
        InDims(SkippedOf(baseline), k);
      } else {
        DimsOfEmpty(spec, produced, start, job.end, baseline, k);
      }
    }
  }

  /** An incremental version accounts for every known dimension on every day of its window. */
  lemma IncrementalLedger(spec: Spec, disk: Disk, job: Job, baseline: Option<DatasetVersion>, p: Production, k: Key)
    requires |p.entries| == |p.written| && job.mode == Incremental
    requires baseline.Some? ==> baseline.value.partitions.Keys !! baseline.value.skipped
    requires WindowStart(job.mode, job.source, job.end, PartitionsOf(baseline)) <= k.day < job.end
    requires KnownDim(spec, baseline, Compose(spec, disk, job, baseline, p), k.dim)
    ensures Accounted(Compose(spec, disk, job, baseline, p), k)
  {
    var start := WindowStart(job.mode, job.source, job.end, PartitionsOf(baseline));
    var produced := AsMap(p.entries).Keys;
    if spec.pairPartitioned {
      KnownDimSource(spec, disk, job, baseline, p, k.dim);
    }
    IncrementalEmpty(spec, produced, start, job.end, baseline, k);
    ComposedPartitions(spec, disk, job, baseline, p);
    ComposedSkipped(spec, disk, job, baseline, p);
    ComposeDisjoint(spec, disk, job, baseline, p);
  }

  lemma FullEmpty(spec: Spec, produced: set<Key>, start: int, end: int, baseline: Option<DatasetVersion>, k: Key)
    requires forall j :: j in produced ==> start <= j.day < end
    requires spec.pairPartitioned || produced != {} || start >= end
    ensures k in EmptyCells(spec, Full, produced, start, end, baseline) <==>
              k !in produced && Spanned(produced, k.dim, k.day)
  {
    if Spanned(produced, k.dim, k.day) {
      var a :| a in produced && a.dim == k.dim && a.day <= k.day;
      var b :| b in produced && b.dim == k.dim && k.day <= b.day;
      InDims(produced, a);
      assert k == Key(k.day, k.dim);
    }
  }

  /** A full window that is not empty has the cell of its first day. */
  lemma FullWindowIsNotIdle(spec: Spec, files: map<Manifest.Path, FileBytes>, p: Production, source: seq<Cell>,
                            end: int)
    requires GoodSource(spec, source) && !p.killed
    requires var start := if source != [] then FirstDay(source) else end;
             && GoodCells(spec, CellsIn(source, start, end))
             && ProductionSound(spec, files, p, CellsIn(source, start, end))
    ensures AsMap(p.entries).Keys != {} || (if source != [] then FirstDay(source) else end) >= end
  {
    if source != [] && FirstDay(source) < end {
      FirstDayIsAny(source);
      var k :| k in KeysOf(source) && k.day == FirstDay(source);
      ContentIsProduced(spec, files, p, source, FirstDay(source), end, k);
    }
  }

  /** A full version skips exactly the missing days between a dimension's first and last. */
  lemma FullLedger(spec: Spec, disk: Disk, job: Job, baseline: Option<DatasetVersion>, p: Production, k: Key)
    requires |p.entries| == |p.written| && job.mode == Full
    requires forall j :: j in AsMap(p.entries).Keys ==>
               WindowStart(job.mode, job.source, job.end, PartitionsOf(baseline)) <= j.day < job.end
    requires || AsMap(p.entries).Keys != {}
             || WindowStart(job.mode, job.source, job.end, PartitionsOf(baseline)) >= job.end
    ensures var m := Compose(spec, disk, job, baseline, p);
            k in m.skipped <==> k !in m.partitions && Spanned(m.partitions.Keys, k.dim, k.day)
  {
    var produced := AsMap(p.entries).Keys;
    FullEmpty(spec, produced, WindowStart(job.mode, job.source, job.end, PartitionsOf(baseline)), job.end, baseline, k);
    ComposedPartitions(spec, disk, job, baseline, p);
    ComposedSkipped(spec, disk, job, baseline, p);
    assert Compose(spec, disk, job, baseline, p).partitions.Keys == produced;
  }

  /** The cells an incremental export answers for: known dimensions on the days of its window. */
  predicate InLedger(spec: Spec, job: Job, baseline: Option<DatasetVersion>, m: DatasetVersion, k: Key) {
    && job.mode == Incremental && KnownDim(spec, baseline, m, k.dim)
    && WindowStart(Incremental, job.source, job.end, PartitionsOf(baseline)) <= k.day < job.end
  }

  /**
   The ledger of every version an export publishes: nothing is both present and
   skipped; an incremental version has each known dimension on each window day
   exactly one of the two; a full version has each dimension so from its first
   to its last day, and skips nothing else.
   */
  lemma PublishedLedger(spec: Spec, disk: Disk, job: Job, k: Key)
    requires GoodSource(spec, job.source) && DiskSound(spec, disk)
    requires Export(spec, disk, job).1.Published?
    ensures var ms := Export(spec, disk, job).0.manifests;
            && ms != []
            && var m, baseline := ms[|ms| - 1], BaselineOf(disk);
            && m.partitions.Keys !! m.skipped
            && (InLedger(spec, job, baseline, m, k) ==> Accounted(m, k))
            && (job.mode == Full ==>
                  (k in m.skipped <==> k !in m.partitions && Spanned(m.partitions.Keys, k.dim, k.day)))
  {
    var baseline, p := ExportOutcome(spec, disk, job);
    var start := WindowStart(job.mode, job.source, job.end, PartitionsOf(baseline));
    var m := Compose(spec, disk, job, baseline, p);
    ComposeDisjoint(spec, disk, job, baseline, p);
    if job.mode == Incremental {
      if InLedger(spec, job, baseline, m, k) {
        IncrementalLedger(spec, disk, job, baseline, p, k);
      }
    } else {
      ComposedPartitions(spec, disk, job, baseline, p);
      forall j | j in AsMap(p.entries).Keys ensures start <= j.day < job.end {
        ProducedIsContent(spec, disk.files, p, job.source, start, job.end, j);
      }
      FullWindowIsNotIdle(spec, disk.files, p, job.source, job.end);
      FullLedger(spec, disk, job, baseline, p, k);
    }
  }

  /** So along every run: whatever version its exports publish, its ledger is exact. */
  lemma RunLedger(spec: Spec, r: Run, n: nat, k: Key) returns (m: DatasetVersion)
    requires IsRunFromEmpty(spec, r) && n < |r.jobs| && r.outcomes[n].Published?
    ensures r.disks[n + 1].manifests == r.disks[n].manifests + [m]
    ensures m.partitions.Keys !! m.skipped
    ensures InLedger(spec, r.jobs[n], BaselineOf(r.disks[n]), m, k) ==> Accounted(m, k)
    ensures r.jobs[n].mode == Full ==>
              (k in m.skipped <==> k !in m.partitions && Spanned(m.partitions.Keys, k.dim, k.day))
  {
    assert Follows(spec, r, n);
    RunKeepsSound(spec, r, n);
    var baseline, p := ExportOutcome(spec, r.disks[n], r.jobs[n]);
    m := Compose(spec, r.disks[n], r.jobs[n], baseline, p);
    PublishedLedger(spec, r.disks[n], r.jobs[n], k);
  }

  // ---- the order of versions ---------------------------------------

  predicate VersionLt(a: Version, b: Version) {
    VersionLe(a, b) && a != b
  }

  ghost predicate Ascending(ms: seq<DatasetVersion>) {
    forall i, j :: 0 <= i < j < |ms| ==> VersionLt(ms[i].version, ms[j].version)
  }

  ghost predicate NoneLater(ms: seq<DatasetVersion>, day: Day) {
    forall i :: 0 <= i < |ms| ==> DayLe(ms[i].version.day, day)
  }

  lemma VersionsTotal()
    ensures Sorting.TotalPreorder(VersionFileLe)
  {
  }

  /** Listed in the order of their names, ascending versions are in the order of publication. */
  lemma AscendingIsListed(ms: seq<DatasetVersion>)
    requires Ascending(ms)
    ensures ListVersions(ms) == ms
  {
    VersionsTotal();
    Sorting.SortSorted(VersionFileLe, ms);
    forall x, y | x in ms && y in ms && VersionFileLe(x, y) && VersionFileLe(y, x) ensures x == y {
      var i :| 0 <= i < |ms| && ms[i] == x;
      var j :| 0 <= j < |ms| && ms[j] == y;
      assert i == j;
    }
    Sorting.SortedUnique(VersionFileLe, ms, ListVersions(ms));
  }

  /** The next version is new, and above all that are there unless one is of a later day. */
  lemma NextVersionIsAbove(ms: seq<DatasetVersion>, day: Day)
    ensures forall i :: 0 <= i < |ms| ==> ms[i].version != NextVersion(ms, day)
    ensures NoneLater(ms, day) ==> forall i :: 0 <= i < |ms| ==> VersionLt(ms[i].version, NextVersion(ms, day))
  {
  }

  /** The last valid version in the order of publication. */
  function LastValid(ms: seq<DatasetVersion>): Option<DatasetVersion> {
    if ms == [] then None
    else if ms[|ms| - 1].status.Valid? then Some(ms[|ms| - 1])
    else LastValid(ms[..|ms| - 1])
  }

  lemma {:induction false} UsableIsLastValid(spec: Spec, files: map<Manifest.Path, FileBytes>, ms: seq<DatasetVersion>)
    requires forall i :: 0 <= i < |ms| ==> VersionSound(spec, files, ms[i])
    ensures UsableBaseline(files, ms, true) == Ok(LastValid(ms))
  {
    if ms != [] {
      SoundIsIntact(spec, files, ms[|ms| - 1]);
      if ms[|ms| - 1].status.Invalid? {
        UsableIsLastValid(spec, files, ms[..|ms| - 1]);
      }
    }
  }

  ghost predicate Orderly(spec: Spec, disk: Disk) {
    DiskSound(spec, disk) && Ascending(disk.manifests)
  }

  /** On an orderly disk the baseline of any export is the last valid publish. */
  lemma BaselineIsLastPublish(spec: Spec, disk: Disk)
    requires Orderly(spec, disk)
    ensures BaselineOf(disk) == LastValid(disk.manifests)
  {
    AscendingIsListed(disk.manifests);
    UsableIsLastValid(spec, disk.files, disk.manifests);
  }

  lemma AscendingAppend(ms: seq<DatasetVersion>, m: DatasetVersion, day: Day)
    requires Ascending(ms) && NoneLater(ms, day) && m.version == NextVersion(ms, day)
    ensures Ascending(ms + [m]) && NoneLater(ms + [m], day)
  {
    NextVersionIsAbove(ms, day);
    forall i, j | 0 <= i < j < |ms| + 1 ensures VersionLt((ms + [m])[i].version, (ms + [m])[j].version) {
      if j == |ms| {
        assert VersionLt(ms[i].version, m.version);
      }
    }
  }

  lemma ComposedVersion(spec: Spec, disk: Disk, job: Job, baseline: Option<DatasetVersion>, p: Production)
    requires |p.entries| == |p.written|
    ensures Compose(spec, disk, job, baseline, p).version == NextVersion(disk.manifests, job.today)
  {
  }

  lemma ExportStaysOrderly(spec: Spec, disk: Disk, job: Job)
    requires GoodSource(spec, job.source) && Orderly(spec, disk) && NoneLater(disk.manifests, job.today)
    ensures Orderly(spec, Export(spec, disk, job).0) && NoneLater(Export(spec, disk, job).0.manifests, job.today)
  {
    ExportKeepsSound(spec, disk, job);
    var baseline, p := ExportOutcome(spec, disk, job);
    if Export(spec, disk, job).1.Published? {
      ComposedVersion(spec, disk, job, baseline, p);
      AscendingAppend(disk.manifests, Compose(spec, disk, job, baseline, p), job.today);
    }
  }

  // ---- how far a dataset can shrink --------------------------------

  function Count(disk: Disk): nat {
    |PartitionsOf(LastValid(disk.manifests))|
  }

  lemma MoreKeys(a: Partitions, b: Partitions)
    ensures |a + b| >= |a|
  {
    assert (a + b).Keys == a.Keys + b.Keys;
    assert |(a + b).Keys| == |a.Keys| + |b.Keys - a.Keys| by {
      assert a.Keys + b.Keys == a.Keys + (b.Keys - a.Keys);
    }
  }

  /** A full export that publishes has passed the guard. */
  lemma GuardPassed(spec: Spec, disk: Disk, job: Job, baseline: Option<DatasetVersion>)
    requires GoodSource(spec, job.source) && DiskSound(spec, disk) && baseline == BaselineOf(disk)
    requires job.mode == Full && Export(spec, disk, job).1.Published?
    ensures var m := Compose(spec, disk, job, baseline, ProduceAll(spec, disk, job, baseline));
            FullShrinkRefusal(PartitionsOf(baseline), m.partitions, job.end, job.allowShrink) == None
  {
    BaselineOfJob(spec, disk, true);
  }

  lemma GuardBound(baseline: Partitions, current: Partitions, end: int)
    requires FullShrinkRefusal(baseline, current, end, false) == None
    ensures |baseline| <= 2 * |current| && (|baseline| > 0 ==> |current| > 0)
  {
  }

  /** A published version has the baseline's partitions and more, or at least half as many. */
  lemma PublishedCount(spec: Spec, disk: Disk, job: Job) returns (m: DatasetVersion)
    requires GoodSource(spec, job.source) && DiskSound(spec, disk)
    requires !(job.mode == Full && job.allowShrink) && Export(spec, disk, job).1.Published?
    ensures Export(spec, disk, job).0.manifests == disk.manifests + [m]
    ensures var b := PartitionsOf(BaselineOf(disk));
            && |b| <= (if job.mode == Full then 2 else 1) * |m.partitions|
            && (|b| > 0 ==> |m.partitions| > 0)
  {
    var baseline, p := ExportOutcome(spec, disk, job);
    m := Compose(spec, disk, job, baseline, p);
    if job.mode == Full {
      GuardPassed(spec, disk, job, baseline);
      GuardBound(PartitionsOf(baseline), m.partitions, job.end);
    } else {
      ComposedPartitions(spec, disk, job, baseline, p);
      MoreKeys(PartitionsOf(baseline), AsMap(p.entries));
    }
  }

  /** The export has published a version, and a valid one. */
  predicate ValidPublish(outcome: Outcome, ms: seq<DatasetVersion>) {
    outcome.Published? && ms != [] && ms[|ms| - 1].status.Valid?
  }

  lemma PublishedLast(spec: Spec, disk: Disk, job: Job) returns (m: DatasetVersion)
    requires GoodSource(spec, job.source) && DiskSound(spec, disk) && Export(spec, disk, job).1.Published?
    ensures Export(spec, disk, job).0.manifests == disk.manifests + [m]
  {
    var baseline, p := ExportOutcome(spec, disk, job);
    m := Compose(spec, disk, job, baseline, p);
  }

  lemma UnpublishedStays(spec: Spec, disk: Disk, job: Job)
    requires GoodSource(spec, job.source) && DiskSound(spec, disk) && !Export(spec, disk, job).1.Published?
    ensures Export(spec, disk, job).0.manifests == disk.manifests
  {
    var baseline, p := ExportOutcome(spec, disk, job);
  }

  lemma CountAppend(before: Disk, after: Disk, m: DatasetVersion)
    requires after.manifests == before.manifests + [m]
    ensures Count(after) == if m.status.Valid? then |m.partitions| else Count(before)
    ensures after.manifests[|after.manifests| - 1] == m
  {
    LastValidAppend(before.manifests, m);
  }

  /** Only a valid publish changes the number of partitions, and only an unconfirmed full one halves it at worst. */
  lemma ExportShrink(spec: Spec, disk: Disk, job: Job)
    requires GoodSource(spec, job.source) && Orderly(spec, disk)
    ensures var (d, outcome) := Export(spec, disk, job);
            && (!ValidPublish(outcome, d.manifests) ==> Count(d) == Count(disk))
            && (ValidPublish(outcome, d.manifests) && !(job.mode == Full && job.allowShrink) ==>
                  Bounded(job.mode == Full, disk, d))
  {
    var (d, outcome) := Export(spec, disk, job);
    if !outcome.Published? {
      UnpublishedStays(spec, disk, job);
    } else if job.mode == Full && job.allowShrink {
      var m := PublishedLast(spec, disk, job);
      CountAppend(disk, d, m);
    } else {
      var m := PublishedCount(spec, disk, job);
      CountAppend(disk, d, m);
      BaselineIsLastPublish(spec, disk);
    }
  }

  /** The number of partitions is halved at worst, or not even that. */
  ghost predicate Bounded(halves: bool, a: Disk, b: Disk) {
    Count(a) <= (if halves then 2 else 1) * Count(b) && (Count(a) > 0 ==> Count(b) > 0)
  }

  lemma LastValidAppend(ms: seq<DatasetVersion>, m: DatasetVersion)
    ensures LastValid(ms + [m]) == if m.status.Valid? then Some(m) else LastValid(ms)
  {
    assert (ms + [m])[..|ms|] == ms;
  }

  /** n times 2^k */
  function Doubled(n: nat, k: nat): nat {
    if k == 0 then n else 2 * Doubled(n, k - 1)
  }

  /** Job `i` is a full export that publishes a valid version. */
  predicate IsFullPublish(r: Run, i: nat)
    requires i < |r.jobs| == |r.outcomes| && i + 1 < |r.disks|
  {
    r.jobs[i].mode == Full && ValidPublish(r.outcomes[i], r.disks[i + 1].manifests)
  }

  /** How many of the first `n` jobs are such. */
  function FullPublishes(r: Run, n: nat): nat
    requires n <= |r.jobs| == |r.outcomes| && |r.disks| == |r.jobs| + 1
  {
    if n == 0 then 0 else FullPublishes(r, n - 1) + (if IsFullPublish(r, n - 1) then 1 else 0)
  }

  /** The calendar does not go back, from the last version on the first disk on. */
  ghost predicate DaysGoOn(r: Run)
    requires |r.disks| > 0
  {
    && (forall i :: 0 <= i < |r.jobs| ==> NoneLater(r.disks[0].manifests, r.jobs[i].today))
    && (forall i, j :: 0 <= i < j < |r.jobs| ==> DayLe(r.jobs[i].today, r.jobs[j].today))
  }

  lemma LaterStillNoneLater(ms: seq<DatasetVersion>, a: Day, b: Day)
    requires NoneLater(ms, a) && DayLe(a, b)
    ensures NoneLater(ms, b)
  {
  }

  lemma StepStaysOrderly(spec: Spec, r: Run, n: nat)
    requires IsRun(spec, r) && n < |r.jobs| && Orderly(spec, r.disks[n])
    requires NoneLater(r.disks[n].manifests, r.jobs[n].today)
    ensures Orderly(spec, r.disks[n + 1]) && NoneLater(r.disks[n + 1].manifests, r.jobs[n].today)
  {
    assert Follows(spec, r, n);
    ExportStaysOrderly(spec, r.disks[n], r.jobs[n]);
  }

  lemma {:induction false} RunStaysOrderly(spec: Spec, r: Run, n: nat)
    requires IsRun(spec, r) && n <= |r.jobs| && Orderly(spec, r.disks[0]) && DaysGoOn(r)
    ensures Orderly(spec, r.disks[n])
    ensures forall i :: n <= i < |r.jobs| ==> NoneLater(r.disks[n].manifests, r.jobs[i].today)
  {
    if n > 0 {
      RunStaysOrderly(spec, r, n - 1);
      StepStaysOrderly(spec, r, n - 1);
      forall i | n <= i < |r.jobs| ensures NoneLater(r.disks[n].manifests, r.jobs[i].today) {
        LaterStillNoneLater(r.disks[n].manifests, r.jobs[n - 1].today, r.jobs[i].today);
      }
    }
  }

  /** In a run from the empty lake, versions are published in ascending order and the baseline is the last valid one. */
  lemma RunIsOrderly(spec: Spec, r: Run, n: nat)
    requires IsRunFromEmpty(spec, r) && n <= |r.jobs| && DaysGoOn(r)
    ensures Ascending(r.disks[n].manifests) && ListVersions(r.disks[n].manifests) == r.disks[n].manifests
    ensures BaselineOf(r.disks[n]) == LastValid(r.disks[n].manifests)
  {
    RunStaysOrderly(spec, r, n);
    BaselineIsLastPublish(spec, r.disks[n]);
    AscendingIsListed(r.disks[n].manifests);
  }

  lemma {:induction false} DoubledMonotone(m: nat, n: nat, k: nat)
    requires m <= n
    ensures Doubled(m, k) <= Doubled(n, k)
  {
    if k > 0 { DoubledMonotone(m, n, k - 1); }
  }

  lemma {:induction false} DoubledOnceMore(n: nat, k: nat)
    ensures Doubled(2 * n, k) == Doubled(n, k + 1)
  {
    if k > 0 { DoubledOnceMore(n, k - 1); }
  }

  lemma Halved(start: nat, k: nat, middle: nat, end: nat, full: bool)
    requires start <= Doubled(middle, k) && middle <= (if full then 2 else 1) * end
    ensures start <= Doubled(end, if full then k + 1 else k)
  {
    DoubledMonotone(middle, if full then 2 * end else end, k);
    DoubledOnceMore(end, k);
  }

  lemma StepBounded(spec: Spec, r: Run, i: nat)
    requires IsRun(spec, r) && i < |r.jobs| && Orderly(spec, r.disks[i])
    requires IsFullPublish(r, i) ==> !r.jobs[i].allowShrink
    ensures Bounded(IsFullPublish(r, i), r.disks[i], r.disks[i + 1])
  {
    assert Follows(spec, r, i);
    ExportShrink(spec, r.disks[i], r.jobs[i]);
  }

  lemma {:induction false} BoundedRun(r: Run, n: nat)
    requires |r.disks| == |r.jobs| + 1 && |r.outcomes| == |r.jobs| && n <= |r.jobs|
    requires forall i :: 0 <= i < n ==> Bounded(IsFullPublish(r, i), r.disks[i], r.disks[i + 1])
    ensures Count(r.disks[0]) <= Doubled(Count(r.disks[n]), FullPublishes(r, n))
    ensures Count(r.disks[0]) > 0 ==> Count(r.disks[n]) > 0
  {
    if n > 0 {
      BoundedRun(r, n - 1);
      assert Bounded(IsFullPublish(r, n - 1), r.disks[n - 1], r.disks[n - 1 + 1]);
      Halved(Count(r.disks[0]), FullPublishes(r, n - 1), Count(r.disks[n - 1]), Count(r.disks[n]),
             IsFullPublish(r, n - 1));
    }
  }

  /**
   Along any run whose full exports publish without confirming a shrink, the
   number of partitions falls by a factor of 2^k at most, k being the number of
   full exports that publish a valid version, and never from some to none.
   Exports that are refused, killed, idle or invalid do not count.
   */
  lemma RunShrink(spec: Spec, r: Run, n: nat)
    requires IsRun(spec, r) && n <= |r.jobs| && Orderly(spec, r.disks[0]) && DaysGoOn(r)
    requires forall i :: 0 <= i < n && IsFullPublish(r, i) ==> !r.jobs[i].allowShrink
    ensures Count(r.disks[0]) <= Doubled(Count(r.disks[n]), FullPublishes(r, n))
    ensures Count(r.disks[0]) > 0 ==> Count(r.disks[n]) > 0
  {
    forall i | 0 <= i < n ensures Bounded(IsFullPublish(r, i), r.disks[i], r.disks[i + 1]) {
      RunStaysOrderly(spec, r, i);
      StepBounded(spec, r, i);
    }
    BoundedRun(r, n);
  }
}
