/**
 What every export keeps: published versions are permanent, content follows
 the source, incremental exports equal full ones, the gap ledger is exact.
 */
module LakeProofs {
  import opened Wrappers
  import opened Encoding
  import opened Digest
  import opened Reconcile
  import opened Manifest
  import opened Versions
  import opened Lake

  // ------------------------------------------------------------------
  // Soundness of what is on disk
  // ------------------------------------------------------------------

  ghost predicate EntrySound(spec: Spec, files: map<Path, FileBytes>, k: Key, e: Entry) {
    && e.key == k && e.path.key == k
    && e.path in files && e.sha == FileSha(files[e.path])
    && IsStats(spec, e.stats)
  }

  /** The statistics of some source rows. */
  ghost predicate IsStats(spec: Spec, stats: Stats) {
    exists rows :: GoodRows(spec, rows) && stats == CellStats(spec, rows)
  }

  /** What the files hold has the recorded statistics. */
  ghost predicate AllReconcile(spec: Spec, files: map<Path, FileBytes>, p: Partitions) {
    forall k :: k in p ==> ReconcilesOnDisk(spec, files, p[k])
  }

  ghost predicate PartitionsSound(spec: Spec, files: map<Path, FileBytes>, p: Partitions) {
    forall k :: k in p ==> EntrySound(spec, files, k, p[k])
  }

  ghost predicate VersionSound(spec: Spec, files: map<Path, FileBytes>, m: DatasetVersion) {
    && PartitionsSound(spec, files, m.partitions)
    && (m.status.Valid? ==> AllReconcile(spec, files, m.partitions))
    && m.valueDigest == ValueDigest(m.partitions)
    && m.partitions.Keys !! m.skipped
  }

  /**
   Every manifest ever published, valid or not, has all its files with the bytes
   it recorded; and what a valid one's files read back as has its statistics.
   */
  ghost predicate DiskSound(spec: Spec, d: Disk) {
    forall i :: 0 <= i < |d.manifests| ==> VersionSound(spec, d.files, d.manifests[i])
  }

  /** No file of `f` is gone from or changed in `g`. */
  ghost predicate Grows(f: map<Path, FileBytes>, g: map<Path, FileBytes>) {
    forall p :: p in f ==> p in g && g[p] == f[p]
  }

  /** Every file some manifest lists is unchanged. */
  ghost predicate KeepsReferenced(d: Disk, files: map<Path, FileBytes>) {
    forall p :: p in Referenced(d.manifests) && p in d.files ==> p in files && files[p] == d.files[p]
  }

  lemma SoundEntriesAreReferenced(d: Disk, i: nat, k: Key)
    requires i < |d.manifests| && k in d.manifests[i].partitions
    ensures d.manifests[i].partitions[k].path in Referenced(d.manifests)
  {
  }

  lemma KeepingReferencedKeepsReadings(spec: Spec, d: Disk, files: map<Path, FileBytes>, i: nat)
    requires i < |d.manifests| && AllReconcile(spec, d.files, d.manifests[i].partitions) && KeepsReferenced(d, files)
    ensures AllReconcile(spec, files, d.manifests[i].partitions)
  {
    forall k | k in d.manifests[i].partitions
      ensures ReconcilesOnDisk(spec, files, d.manifests[i].partitions[k])
    {
      SoundEntriesAreReferenced(d, i, k);
      assert ReconcilesOnDisk(spec, d.files, d.manifests[i].partitions[k]);
    }
  }

  lemma KeepingReferencedKeepsSound(spec: Spec, d: Disk, files: map<Path, FileBytes>)
    requires DiskSound(spec, d) && KeepsReferenced(d, files)
    ensures DiskSound(spec, Disk(files, d.manifests))
  {
    forall i, k | 0 <= i < |d.manifests| && k in d.manifests[i].partitions
      ensures EntrySound(spec, files, k, d.manifests[i].partitions[k])
    {
      SoundEntriesAreReferenced(d, i, k);
      assert EntrySound(spec, d.files, k, d.manifests[i].partitions[k]);
    }
    forall i | 0 <= i < |d.manifests| && d.manifests[i].status.Valid?
      ensures AllReconcile(spec, files, d.manifests[i].partitions)
    {
      KeepingReferencedKeepsReadings(spec, d, files, i);
    }
  }

  // ------------------------------------------------------------------
  // Producing partitions
  // ------------------------------------------------------------------

  lemma SameDigestSameStats(spec: Spec, a: seq<Row>, b: seq<Row>)
    requires GoodRows(spec, a) && GoodRows(spec, b)
    requires CellStats(spec, a).digest == CellStats(spec, b).digest
    ensures CellStats(spec, a) == CellStats(spec, b)
  {
    ReconcileExact(a, b, spec.projection, spec.event);
    SameRowsSameStats(a, b, spec.projection, spec.event);
  }

  ghost predicate ProductionSound(spec: Spec, files: map<Path, FileBytes>, p: Production, cells: seq<Cell>)
    requires GoodCells(spec, cells)
  {
    && Grows(files, p.files)
    && |p.entries| == |p.written| && |p.entries| <= |cells|
    && (!p.killed ==> |p.entries| == |cells|)
    && (forall i :: 0 <= i < |p.entries| ==>
          EntrySound(spec, p.files, cells[i].key, p.entries[i]) && p.entries[i].stats == CellStats(spec, cells[i].rows))
  }

  lemma GrowingKeepsEntries(spec: Spec, f: map<Path, FileBytes>, g: map<Path, FileBytes>, k: Key, e: Entry)
    requires EntrySound(spec, f, k, e) && Grows(f, g)
    ensures EntrySound(spec, g, k, e)
  {
  }

  lemma ProduceOneSound(spec: Spec, files: map<Path, FileBytes>, p: Production, cells: seq<Cell>, baseline: Partitions,
                        writer: Writer)
    requires GoodCells(spec, cells) && cells != []
    requires PartitionsSound(spec, files, baseline)
    requires GoodCells(spec, cells[..|cells| - 1]) && ProductionSound(spec, files, p, cells[..|cells| - 1])
    ensures ProductionSound(spec, files, ProduceOne(spec, p, cells[|cells| - 1], baseline, writer), cells)
  {
    var front, cell := cells[..|cells| - 1], cells[|cells| - 1];
    var q := ProduceOne(spec, p, cell, baseline, writer);
    if !p.killed {
      assert GoodRows(spec, cells[|cells| - 1].rows);
      var stats := CellStats(spec, cell.rows);
      var path := Path(cell.key, TopRevision(p.files.Keys, cell.key) + 1);
      assert IsTopRevision(TopRevision(p.files.Keys, cell.key), p.files.Keys, cell.key);
      assert path !in p.files;
      assert Grows(p.files, q.files);
      forall i | 0 <= i < |p.entries| ensures EntrySound(spec, q.files, cells[i].key, q.entries[i]) {
        assert cells[i] == front[i];
        GrowingKeepsEntries(spec, p.files, q.files, cells[i].key, p.entries[i]);
      }
      if cell.key in baseline && baseline[cell.key].stats.digest == stats.digest {
        var e := baseline[cell.key];
        assert EntrySound(spec, files, cell.key, e);
        GrowingKeepsEntries(spec, files, q.files, cell.key, e);
        var rows :| GoodRows(spec, rows) && e.stats == CellStats(spec, rows);
        SameDigestSameStats(spec, rows, cell.rows);
      }
    } else {
      assert q == p;
      forall i | 0 <= i < |p.entries| ensures cells[i] == front[i] {}
    }
  }

  /** Production writes only new files, and makes one sound entry per cell with the cell's statistics. */
  lemma {:induction false} ProduceSound(spec: Spec, files: map<Path, FileBytes>, left: nat, cells: seq<Cell>,
                                        baseline: Partitions, writer: Writer)
    requires GoodCells(spec, cells) && PartitionsSound(spec, files, baseline)
    ensures var start := Production(files, [], [], left, false);
            ProductionSound(spec, files, Produce(spec, start, cells, baseline, writer), cells)
  {
    if cells != [] {
      var front := cells[..|cells| - 1];
      ProduceSound(spec, files, left, front, baseline, writer);
      ProduceOneSound(spec, files, Produce(spec, Production(files, [], [], left, false), front, baseline, writer),
                      cells, baseline, writer);
    }
  }

  /** What is not written afresh is the baseline's. */
  ghost predicate ReusedAreBaselines(p: Production, baseline: Partitions) {
    && |p.entries| == |p.written|
    && forall i :: 0 <= i < |p.entries| && !p.written[i] ==> exists k :: k in baseline && baseline[k] == p.entries[i]
  }

  lemma {:induction false} ProduceReuses(spec: Spec, start: Production, cells: seq<Cell>, baseline: Partitions,
                                         writer: Writer)
    requires GoodCells(spec, cells) && ReusedAreBaselines(start, baseline)
    ensures ReusedAreBaselines(Produce(spec, start, cells, baseline, writer), baseline)
  {
    if cells != [] {
      var front, last := cells[..|cells| - 1], cells[|cells| - 1];
      ProduceReuses(spec, start, front, baseline, writer);
      var p := Produce(spec, start, front, baseline, writer);
      var q := ProduceOne(spec, p, last, baseline, writer);
      forall i | 0 <= i < |q.entries| && !q.written[i]
        ensures exists k :: k in baseline && baseline[k] == q.entries[i]
      {
        assert i < |p.entries| ==> q.entries[i] == p.entries[i];
      }
    }
  }

  // ------------------------------------------------------------------
  // The baseline
  // ------------------------------------------------------------------

  lemma SoundIsIntact(spec: Spec, files: map<Path, FileBytes>, m: DatasetVersion)
    requires VersionSound(spec, files, m)
    ensures Intact(files, m)
  {
    forall k | k in m.partitions
      ensures m.partitions[k].path in files && FileSha(files[m.partitions[k].path]) == m.partitions[k].sha
    {
      assert EntrySound(spec, files, k, m.partitions[k]);
    }
  }

  ghost predicate LastValidAt(listing: seq<DatasetVersion>, i: nat) {
    && i < |listing| && listing[i].status.Valid?
    && forall j :: i < j < |listing| ==> listing[j].status.Invalid?
  }

  ghost predicate IsLastValid(listing: seq<DatasetVersion>, b: Option<DatasetVersion>) {
    match b
    case None => forall i :: 0 <= i < |listing| ==> listing[i].status.Invalid?
    case Some(m) => exists i: nat :: LastValidAt(listing, i) && listing[i] == m
  }

  lemma InvalidAtTheEnd(listing: seq<DatasetVersion>, b: Option<DatasetVersion>)
    requires listing != [] && listing[|listing| - 1].status.Invalid?
    requires IsLastValid(listing[..|listing| - 1], b)
    ensures IsLastValid(listing, b)
  {
    var front := listing[..|listing| - 1];
    assert forall i :: 0 <= i < |front| ==> listing[i] == front[i];
    if b.Some? {
      var i: nat :| LastValidAt(front, i) && front[i] == b.value;
      assert LastValidAt(listing, i);
    }
  }

  /** On a sound disk the baseline is the last valid version of the listing, in either mode. */
  lemma {:induction false} BaselineIsLastValid(spec: Spec, files: map<Path, FileBytes>, listing: seq<DatasetVersion>,
                                               fallback: bool)
    requires forall i :: 0 <= i < |listing| ==> VersionSound(spec, files, listing[i])
    ensures UsableBaseline(files, listing, fallback).Ok?
    ensures IsLastValid(listing, UsableBaseline(files, listing, fallback).value)
  {
    if listing != [] {
      SoundIsIntact(spec, files, listing[|listing| - 1]);
      if listing[|listing| - 1].status.Valid? {
        assert LastValidAt(listing, |listing| - 1);
      } else {
        BaselineIsLastValid(spec, files, listing[..|listing| - 1], fallback);
        InvalidAtTheEnd(listing, UsableBaseline(files, listing[..|listing| - 1], fallback).value);
      }
    }
  }

  lemma ListingIsPublished(manifests: seq<DatasetVersion>, i: nat) returns (j: nat)
    requires i < |ListVersions(manifests)|
    ensures j < |manifests| && manifests[j] == ListVersions(manifests)[i]
  {
    assert ListVersions(manifests)[i] in multiset(manifests);
    j :| 0 <= j < |manifests| && manifests[j] == ListVersions(manifests)[i];
  }

  /** The baseline of a job on a sound disk: one of the published valid versions, or none. */
  lemma JobBaseline(spec: Spec, disk: Disk, fallback: bool) returns (baseline: Option<DatasetVersion>)
    requires DiskSound(spec, disk)
    ensures UsableBaseline(disk.files, ListVersions(disk.manifests), fallback) == Ok(baseline)
    ensures baseline.Some? ==>
              && baseline.value.status.Valid? && VersionSound(spec, disk.files, baseline.value)
              && exists i :: 0 <= i < |disk.manifests| && disk.manifests[i] == baseline.value
  {
    var listing := ListVersions(disk.manifests);
    forall i | 0 <= i < |listing| ensures VersionSound(spec, disk.files, listing[i]) {
      var j := ListingIsPublished(disk.manifests, i);
    }
    BaselineIsLastValid(spec, disk.files, listing, fallback);
    baseline := UsableBaseline(disk.files, listing, fallback).value;
    if baseline.Some? {
      var i: nat :| LastValidAt(listing, i) && listing[i] == baseline.value;
      var j := ListingIsPublished(disk.manifests, i);
    }
  }

  // ------------------------------------------------------------------
  // One export
  // ------------------------------------------------------------------

  lemma ProducedPartitionsSound(spec: Spec, files: map<Path, FileBytes>, p: Production, cells: seq<Cell>)
    requires GoodCells(spec, cells) && ProductionSound(spec, files, p, cells)
    ensures PartitionsSound(spec, p.files, AsMap(p.entries))
  {
    AsMapMembers(p.entries);
    forall k | k in AsMap(p.entries) ensures EntrySound(spec, p.files, k, AsMap(p.entries)[k]) {
      var i :| 0 <= i < |p.entries| && p.entries[i] == AsMap(p.entries)[k] && p.entries[i].key == k;
      assert EntrySound(spec, p.files, cells[i].key, p.entries[i]);
    }
  }

  lemma EmptyCellsInWindow(spec: Spec, mode: Mode, produced: set<Key>, start: int, end: int,
                           baseline: Option<DatasetVersion>)
    ensures forall k :: k in EmptyCells(spec, mode, produced, start, end, baseline) ==>
              start <= k.day < end && k !in produced
  {
  }

  lemma SkippedDisjoint(kept: set<Key>, skipped: set<Key>, produced: set<Key>, empty: set<Key>)
    requires kept !! skipped && kept !! empty && produced !! empty
    ensures (kept + produced) !! SynthesizeSkipped(skipped, produced, empty)
  {
  }

  lemma BaselineBelowWindow(job: Job, baseline: Partitions, k: Key)
    requires job.mode == Incremental && k in baseline
    ensures k.day < WindowStart(job.mode, job.source, job.end, baseline)
  {
    var last := LastDayIsLast(baseline);
    assert k in baseline.Keys;
  }

  lemma ComposeDisjoint(spec: Spec, disk: Disk, job: Job, baseline: Option<DatasetVersion>, p: Production)
    requires baseline.Some? ==> baseline.value.partitions.Keys !! baseline.value.skipped
    requires |p.entries| == |p.written|
    ensures var m := Compose(spec, disk, job, baseline, p); m.partitions.Keys !! m.skipped
  {
    var start := WindowStart(job.mode, job.source, job.end, PartitionsOf(baseline));
    var produced := AsMap(p.entries).Keys;
    var empty := EmptyCells(spec, job.mode, produced, start, job.end, baseline);
    EmptyCellsInWindow(spec, job.mode, produced, start, job.end, baseline);
    if job.mode == Incremental {
      forall k | k in PartitionsOf(baseline).Keys ensures k !in empty {
        BaselineBelowWindow(job, PartitionsOf(baseline), k);
      }
      SkippedDisjoint(PartitionsOf(baseline).Keys, SkippedOf(baseline), produced, empty);
    } else {
      SkippedDisjoint({}, {}, produced, empty);
    }
  }

  lemma StillReconciles(spec: Spec, f: map<Path, FileBytes>, g: map<Path, FileBytes>, p: Partitions, k: Key)
    requires AllReconcile(spec, f, p) && k in p && Grows(f, g)
    ensures ReconcilesOnDisk(spec, g, p[k])
  {
    assert ReconcilesOnDisk(spec, f, p[k]);
  }

  lemma ProducedReconcile(spec: Spec, files: map<Path, FileBytes>, p: Production, baseline: Partitions, i: nat)
    requires AllReconcile(spec, files, baseline) && Grows(files, p.files)
    requires ReusedAreBaselines(p, baseline) && i < |p.entries|
    requires Failures(spec, p.files, p.entries, p.written) == {}
    ensures ReconcilesOnDisk(spec, p.files, p.entries[i])
  {
    if p.written[i] {
      assert p.entries[i].key !in Failures(spec, p.files, p.entries, p.written);
    } else {
      var k :| k in baseline && baseline[k] == p.entries[i];
      StillReconciles(spec, files, p.files, baseline, k);
    }
  }

  /** Without a failure everything the version lists reconciles, written afresh, reused or inherited. */
  lemma ComposeReconciles(spec: Spec, disk: Disk, job: Job, baseline: Option<DatasetVersion>, p: Production)
    requires ReusedAreBaselines(p, PartitionsOf(baseline)) && Grows(disk.files, p.files)
    requires AllReconcile(spec, disk.files, PartitionsOf(baseline))
    ensures var m := Compose(spec, disk, job, baseline, p);
            m.status.Valid? ==> AllReconcile(spec, p.files, m.partitions)
  {
    var m := Compose(spec, disk, job, baseline, p);
    if m.status.Valid? {
      AsMapMembers(p.entries);
      forall k | k in m.partitions ensures ReconcilesOnDisk(spec, p.files, m.partitions[k]) {
        if k in AsMap(p.entries) {
          var i :| 0 <= i < |p.entries| && p.entries[i] == AsMap(p.entries)[k];
          ProducedReconcile(spec, disk.files, p, PartitionsOf(baseline), i);
        } else {
          StillReconciles(spec, disk.files, p.files, PartitionsOf(baseline), k);
        }
      }
    }
  }

  /** What an export composes is sound on the files it has written. */
  lemma ComposeSound(spec: Spec, disk: Disk, job: Job, baseline: Option<DatasetVersion>, p: Production)
    requires GoodSource(spec, job.source)
    requires baseline.Some? ==> baseline.value.status.Valid? && VersionSound(spec, disk.files, baseline.value)
    requires ProductionSound(spec, disk.files, p, WindowCells(spec, job, baseline))
    requires ReusedAreBaselines(p, PartitionsOf(baseline))
    ensures VersionSound(spec, p.files, Compose(spec, disk, job, baseline, p))
  {
    var b := PartitionsOf(baseline);
    var m := Compose(spec, disk, job, baseline, p);
    ProducedPartitionsSound(spec, disk.files, p, WindowCells(spec, job, baseline));
    forall k | k in m.partitions ensures EntrySound(spec, p.files, k, m.partitions[k]) {
      if k in AsMap(p.entries) {
        assert EntrySound(spec, p.files, k, AsMap(p.entries)[k]);
      } else {
        assert EntrySound(spec, disk.files, k, b[k]);
        GrowingKeepsEntries(spec, disk.files, p.files, k, b[k]);
      }
    }
    ComposeReconciles(spec, disk, job, baseline, p);
    ComposeDisjoint(spec, disk, job, baseline, p);
  }

  lemma CleanUpKeepsReferenced(files: map<Path, FileBytes>, manifests: seq<DatasetVersion>,
                               reclaimed: Option<set<Path>>)
    ensures KeepsReferenced(Disk(files, manifests), CleanUp(files, manifests, reclaimed))
  {
  }

  /** A sound version joins the sound ones on the files it was written to. */
  lemma AppendSound(spec: Spec, disk: Disk, files: map<Path, FileBytes>, m: DatasetVersion)
    requires DiskSound(spec, disk) && Grows(disk.files, files) && VersionSound(spec, files, m)
    ensures DiskSound(spec, Disk(files, disk.manifests + [m]))
  {
    KeepingReferencedKeepsSound(spec, disk, files);
    var all := disk.manifests + [m];
    forall i | 0 <= i < |all| ensures VersionSound(spec, files, all[i]) {
      if i < |disk.manifests| {
        assert VersionSound(spec, files, Disk(files, disk.manifests).manifests[i]);
      }
    }
  }

  lemma ReferencedStaysReferenced(manifests: seq<DatasetVersion>, m: DatasetVersion, p: Path)
    requires p in Referenced(manifests)
    ensures p in Referenced(manifests + [m])
  {
    var i, k :| 0 <= i < |manifests| && k in manifests[i].partitions && manifests[i].partitions[k].path == p;
    assert (manifests + [m])[i] == manifests[i];
  }

  lemma PublishKeepsReferenced(disk: Disk, files: map<Path, FileBytes>, m: DatasetVersion, kept: map<Path, FileBytes>)
    requires Grows(disk.files, files) && KeepsReferenced(Disk(files, disk.manifests + [m]), kept)
    ensures KeepsReferenced(disk, kept)
  {
    forall p | p in Referenced(disk.manifests) && p in disk.files ensures p in kept && kept[p] == disk.files[p] {
      ReferencedStaysReferenced(disk.manifests, m, p);
    }
  }

  /** Publishing on the files written, and a cleanup, lose nothing that is published. */
  lemma PublishSound(spec: Spec, disk: Disk, files: map<Path, FileBytes>, m: DatasetVersion, d: Disk)
    requires DiskSound(spec, disk) && Grows(disk.files, files) && VersionSound(spec, files, m)
    requires d.manifests == disk.manifests + [m] && KeepsReferenced(Disk(files, d.manifests), d.files)
    ensures DiskSound(spec, d) && KeepsReferenced(disk, d.files)
  {
    AppendSound(spec, disk, files, m);
    KeepingReferencedKeepsSound(spec, Disk(files, d.manifests), d.files);
    PublishKeepsReferenced(disk, files, m, d.files);
  }

  lemma GrowingKeepsReferenced(disk: Disk, files: map<Path, FileBytes>)
    requires Grows(disk.files, files)
    ensures KeepsReferenced(disk, files)
  {
  }

  lemma FinishSound(spec: Spec, disk: Disk, files: map<Path, FileBytes>, job: Job, baseline: Option<DatasetVersion>,
                    m: DatasetVersion, left: nat)
    requires DiskSound(spec, disk) && Grows(disk.files, files) && VersionSound(spec, files, m)
    ensures var d := Finish(disk, files, job, baseline, m, left).0;
            DiskSound(spec, d) && disk.manifests <= d.manifests && KeepsReferenced(disk, d.files)
  {
    var (d, outcome) := Finish(disk, files, job, baseline, m, left);
    if outcome.Published? {
      CleanUpKeepsReferenced(files, d.manifests, job.reclaimed);
      PublishSound(spec, disk, files, m, d);
    } else {
      GrowingKeepsReferenced(disk, files);
      KeepingReferencedKeepsSound(spec, disk, files);
    }
  }

  lemma DyingSound(spec: Spec, disk: Disk, files: map<Path, FileBytes>)
    requires DiskSound(spec, disk) && Grows(disk.files, files)
    ensures DiskSound(spec, Disk(files, disk.manifests)) && KeepsReferenced(disk, files)
  {
    GrowingKeepsReferenced(disk, files);
    KeepingReferencedKeepsSound(spec, disk, files);
  }

  lemma ExportByCases(spec: Spec, disk: Disk, job: Job, baseline: Option<DatasetVersion>, p: Production,
                      m: DatasetVersion)
    requires GoodSource(spec, job.source) && |p.entries| == |p.written|
    requires UsableBaseline(disk.files, ListVersions(disk.manifests), job.mode == Full) == Ok(baseline)
    requires p == ProduceAll(spec, disk, job, baseline) && m == Compose(spec, disk, job, baseline, p)
    ensures Export(spec, disk, job)
            == if WindowEmpty(job, baseline) then (disk, NoOp)
               else if p.killed || !FreshAreReadable(spec, p.files, p.entries, p.written) then
                 (Disk(p.files, disk.manifests), Killed)
               else Finish(disk, p.files, job, baseline, m, p.left)
  {
  }

  /** The production of a job that gets past its baseline, with all that is known of it. */
  lemma JobProduction(spec: Spec, disk: Disk, job: Job) returns (baseline: Option<DatasetVersion>, p: Production)
    requires GoodSource(spec, job.source) && DiskSound(spec, disk)
    ensures UsableBaseline(disk.files, ListVersions(disk.manifests), job.mode == Full) == Ok(baseline)
    ensures baseline.Some? ==>
              && baseline.value.status.Valid? && VersionSound(spec, disk.files, baseline.value)
              && exists i :: 0 <= i < |disk.manifests| && disk.manifests[i] == baseline.value
    ensures p == ProduceAll(spec, disk, job, baseline)
    ensures ProductionSound(spec, disk.files, p, WindowCells(spec, job, baseline))
    ensures VersionSound(spec, p.files, Compose(spec, disk, job, baseline, p))
  {
    baseline := JobBaseline(spec, disk, job.mode == Full);
    p := ProduceAll(spec, disk, job, baseline);
    ProduceSound(spec, disk.files, job.writes, WindowCells(spec, job, baseline), PartitionsOf(baseline), job.writer);
    ProduceReuses(spec, Production(disk.files, [], [], job.writes, false), WindowCells(spec, job, baseline),
                  PartitionsOf(baseline), job.writer);
    ComposeSound(spec, disk, job, baseline, p);
  }

  /**
   However an export ends, every version published before is still published,
   and every file one of them lists still has its bytes.
   */
  lemma ExportKeepsSound(spec: Spec, disk: Disk, job: Job)
    requires GoodSource(spec, job.source) && DiskSound(spec, disk)
    ensures var d := Export(spec, disk, job).0;
            DiskSound(spec, d) && disk.manifests <= d.manifests && KeepsReferenced(disk, d.files)
  {
    var baseline, p := JobProduction(spec, disk, job);
    var m := Compose(spec, disk, job, baseline, p);
    ExportByCases(spec, disk, job, baseline, p, m);
    DyingSound(spec, disk, p.files);
    FinishSound(spec, disk, p.files, job, baseline, m, p.left);
    GrowingKeepsReferenced(disk, disk.files);
  }

  // ------------------------------------------------------------------
  // Runs of exports
  // ------------------------------------------------------------------

  /** The disks before the first job and after each one, with how each job ended. */
  datatype Run = Run(jobs: seq<Job>, disks: seq<Disk>, outcomes: seq<Outcome>)

  ghost predicate Follows(spec: Spec, r: Run, i: nat) {
    && i < |r.jobs| && i < |r.outcomes| && i + 1 < |r.disks|
    && GoodSource(spec, r.jobs[i].source)
    && (r.disks[i + 1], r.outcomes[i]) == Export(spec, r.disks[i], r.jobs[i])
  }

  ghost predicate IsRun(spec: Spec, r: Run) {
    && |r.disks| == |r.jobs| + 1 && |r.outcomes| == |r.jobs|
    && forall i :: 0 <= i < |r.jobs| ==> Follows(spec, r, i)
  }

  const EMPTY_DISK := Disk(map[], [])

  ghost predicate IsRunFromEmpty(spec: Spec, r: Run) {
    IsRun(spec, r) && r.disks[0] == EMPTY_DISK
  }

  function Longer(r: Run, job: Job, disk: Disk, outcome: Outcome): Run {
    Run(r.jobs + [job], r.disks + [disk], r.outcomes + [outcome])
  }

  lemma StillFollows(spec: Spec, r: Run, job: Job, disk: Disk, outcome: Outcome, i: nat)
    requires Follows(spec, r, i)
    ensures Follows(spec, Longer(r, job, disk, outcome), i)
  {
    var l := Longer(r, job, disk, outcome);
    assert l.jobs[i] == r.jobs[i] && l.outcomes[i] == r.outcomes[i];
    assert l.disks[i] == r.disks[i] && l.disks[i + 1] == r.disks[i + 1];
  }

  /** A run goes on with one more export. */
  lemma RunGoesOn(spec: Spec, r: Run, job: Job, disk: Disk, outcome: Outcome)
    requires IsRun(spec, r) && GoodSource(spec, job.source)
    requires (disk, outcome) == Export(spec, r.disks[|r.jobs|], job)
    ensures IsRun(spec, Longer(r, job, disk, outcome))
  {
    var l := Longer(r, job, disk, outcome);
    forall i | 0 <= i < |l.jobs| ensures Follows(spec, l, i) {
      if i < |r.jobs| {
        StillFollows(spec, r, job, disk, outcome, i);
      }
    }
  }

  /** Later than `a`: manifests are only added, and the files the old ones list stay as they are. */
  ghost predicate Archives(a: Disk, b: Disk) {
    a.manifests <= b.manifests && KeepsReferenced(a, b.files)
  }

  lemma ArchivesTransitively(a: Disk, b: Disk, c: Disk)
    requires Archives(a, b) && Archives(b, c)
    ensures Archives(a, c)
  {
    forall p | p in Referenced(a.manifests) ensures p in Referenced(b.manifests) {
      var i, k :| 0 <= i < |a.manifests| && k in a.manifests[i].partitions && a.manifests[i].partitions[k].path == p;
      assert b.manifests[i] == a.manifests[i];
    }
  }

  ghost predicate EachArchives(disks: seq<Disk>) {
    forall i :: 0 <= i < |disks| - 1 ==> Archives(disks[i], disks[i + 1])
  }

  lemma {:induction false} LaterArchives(disks: seq<Disk>, i: nat, n: nat)
    requires EachArchives(disks) && i <= n < |disks|
    ensures Archives(disks[i], disks[n])
  {
    if i < n {
      LaterArchives(disks, i, n - 1);
      assert Archives(disks[n - 1], disks[n - 1 + 1]);
      ArchivesTransitively(disks[i], disks[n - 1], disks[n]);
    }
  }

  lemma StepKeepsSound(spec: Spec, r: Run, i: nat)
    requires IsRun(spec, r) && i < |r.jobs| && DiskSound(spec, r.disks[i])
    ensures DiskSound(spec, r.disks[i + 1]) && Archives(r.disks[i], r.disks[i + 1])
  {
    assert Follows(spec, r, i);
    ExportKeepsSound(spec, r.disks[i], r.jobs[i]);
  }

  lemma {:induction false} RunKeepsSound(spec: Spec, r: Run, n: nat)
    requires IsRun(spec, r) && n <= |r.jobs| && DiskSound(spec, r.disks[0])
    ensures DiskSound(spec, r.disks[n])
  {
    if n > 0 {
      RunKeepsSound(spec, r, n - 1);
      StepKeepsSound(spec, r, n - 1);
    }
  }

  lemma RunArchives(spec: Spec, r: Run, i: nat, n: nat)
    requires IsRun(spec, r) && i <= n <= |r.jobs| && DiskSound(spec, r.disks[0])
    ensures Archives(r.disks[i], r.disks[n])
  {
    forall j | 0 <= j < |r.jobs| ensures Archives(r.disks[j], r.disks[j + 1]) {
      RunKeepsSound(spec, r, j);
      StepKeepsSound(spec, r, j);
    }
    LaterArchives(r.disks, i, n);
  }

  /**
   A version published at any point of a run of exports is published for ever:
   later on it is still there unchanged, and each file it lists is on disk with
   the same bytes, which hash to what the version recorded.
   */
  lemma PublishedIsPermanent(spec: Spec, r: Run, i: nat, n: nat, v: nat, k: Key)
    requires IsRunFromEmpty(spec, r) && i <= n <= |r.jobs|
    requires v < |r.disks[i].manifests| && k in r.disks[i].manifests[v].partitions
    ensures var was, now := r.disks[i], r.disks[n];
            var e := was.manifests[v].partitions[k];
            && v < |now.manifests| && now.manifests[v] == was.manifests[v]
            && e.path in was.files && e.path in now.files
            && now.files[e.path] == was.files[e.path] && FileSha(now.files[e.path]) == e.sha
  {
    RunKeepsSound(spec, r, i);
    RunArchives(spec, r, i, n);
    ArchivedEntry(spec, r.disks[i], r.disks[n], v, k);
  }

  lemma ArchivedEntry(spec: Spec, was: Disk, now: Disk, v: nat, k: Key)
    requires DiskSound(spec, was) && Archives(was, now)
    requires v < |was.manifests| && k in was.manifests[v].partitions
    ensures var e := was.manifests[v].partitions[k];
            && v < |now.manifests| && now.manifests[v] == was.manifests[v]
            && e.path in was.files && e.path in now.files
            && now.files[e.path] == was.files[e.path] && FileSha(now.files[e.path]) == e.sha
  {
    assert EntrySound(spec, was.files, k, was.manifests[v].partitions[k]);
    SoundEntriesAreReferenced(was, v, k);
  }
}
