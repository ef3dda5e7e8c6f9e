/**
 A version is published only when there is something new: exporting once more
 what a valid version has just been published from changes nothing. Also: what
 a cleanup leaves.
 */
module LakeIdempotence {
  import opened Wrappers
  import opened Manifest
  import opened Lake
  import opened LakeProofs
  import opened LakeEquality
  import opened LakeRuns

  // ---- reuse -------------------------------------------------------

  /** The baseline has the cell's content, so its file is reused. */
  predicate Reusable(spec: Spec, cell: Cell, baseline: Partitions)
    requires GoodRows(spec, cell.rows)
  {
    cell.key in baseline && baseline[cell.key].stats.digest == CellStats(spec, cell.rows).digest
  }

  predicate AllReusable(spec: Spec, cells: seq<Cell>, baseline: Partitions)
    requires GoodCells(spec, cells)
  {
    forall i :: 0 <= i < |cells| ==> Reusable(spec, cells[i], baseline)
  }

  /** So far nothing is written, and the entries are the baseline's. */
  ghost predicate ReusedSoFar(start: Production, p: Production, cells: seq<Cell>, baseline: Partitions) {
    && p.files == start.files && !p.killed && |p.entries| == |cells| == |p.written|
    && (forall i :: 0 <= i < |cells| ==>
          cells[i].key in baseline && p.entries[i] == baseline[cells[i].key] && !p.written[i])
  }

  lemma ReusedOneMore(spec: Spec, start: Production, p: Production, cells: seq<Cell>, baseline: Partitions,
                      writer: Writer)
    requires GoodCells(spec, cells) && cells != [] && ReusedSoFar(start, p, cells[..|cells| - 1], baseline)
    requires Reusable(spec, cells[|cells| - 1], baseline)
    ensures ReusedSoFar(start, ProduceOne(spec, p, cells[|cells| - 1], baseline, writer), cells, baseline)
  {
    assert forall i :: 0 <= i < |cells| - 1 ==> cells[i] == cells[..|cells| - 1][i];
  }

  /** When all cells are reusable nothing is written and the entries are the baseline's. */
  lemma {:induction false} AllReused(spec: Spec, start: Production, cells: seq<Cell>, baseline: Partitions,
                                     writer: Writer)
    requires GoodCells(spec, cells) && AllReusable(spec, cells, baseline) && !start.killed && start.entries == []
    requires start.written == []
    ensures ReusedSoFar(start, Produce(spec, start, cells, baseline, writer), cells, baseline)
  {
    if cells != [] {
      var front := cells[..|cells| - 1];
      assert forall i :: 0 <= i < |front| ==> Reusable(spec, front[i], baseline) by {
        assert forall i :: 0 <= i < |front| ==> front[i] == cells[i];
      }
      AllReused(spec, start, front, baseline, writer);
      assert Reusable(spec, cells[|cells| - 1], baseline);
      ReusedOneMore(spec, start, Produce(spec, start, front, baseline, writer), cells, baseline, writer);
    }
  }

  /** A file is written exactly for the cells that are not reusable. */
  lemma {:induction false} WrittenExactly(spec: Spec, start: Production, cells: seq<Cell>, baseline: Partitions,
                                          writer: Writer)
    requires GoodCells(spec, cells) && start.entries == [] && start.written == []
    requires !Produce(spec, start, cells, baseline, writer).killed
    ensures var p := Produce(spec, start, cells, baseline, writer);
            && |p.entries| == |cells| == |p.written|
            && forall i :: 0 <= i < |cells| ==> p.written[i] == !Reusable(spec, cells[i], baseline)
  {
    if cells != [] {
      var front := cells[..|cells| - 1];
      assert forall i :: 0 <= i < |front| ==> front[i] == cells[i];
      WrittenExactly(spec, start, front, baseline, writer);
    }
  }

  /** Nothing of what the source has in the window differs from the baseline. */
  lemma ContentIsReusable(spec: Spec, source: seq<Cell>, lo: int, hi: int, baseline: Partitions)
    requires GoodSource(spec, source) && GoodCells(spec, CellsIn(source, lo, hi))
    requires StatsView(baseline) == Below(spec, source, hi)
    ensures AllReusable(spec, CellsIn(source, lo, hi), baseline)
  {
    var cells := CellsIn(source, lo, hi);
    CellsInWindow(source, lo, hi);
    forall i | 0 <= i < |cells| ensures Reusable(spec, cells[i], baseline) {
      assert cells[i] in cells;
      var j :| 0 <= j < |source| && source[j] == cells[i];
      OneCellPerKey(spec, source, j);
      assert cells[i].key in StatsView(baseline);
    }
  }

  /** Entries taken from the baseline make up the part of it they cover. */
  lemma {:induction false} ReusedPartitions(entries: seq<Entry>, keys: seq<Key>, baseline: Partitions)
    requires |entries| == |keys|
    requires forall i :: 0 <= i < |keys| ==>
              keys[i] in baseline && entries[i] == baseline[keys[i]] && entries[i].key == keys[i]
    ensures forall k :: k in AsMap(entries) <==> k in keys
    ensures forall k :: k in AsMap(entries) ==> k in baseline && AsMap(entries)[k] == baseline[k]
  {
    AsMapMembers(entries);
    forall k | k in AsMap(entries) ensures k in keys && k in baseline && AsMap(entries)[k] == baseline[k] {
      var i :| 0 <= i < |entries| && entries[i] == AsMap(entries)[k] && entries[i].key == k;
      assert keys[i] == k;
    }
    forall k | k in keys ensures k in AsMap(entries) {
      var i :| 0 <= i < |keys| && keys[i] == k;
      assert entries[i].key in AsMap(entries);
    }
  }

  // ---- exporting the same again ------------------------------------

  /** The same export as far as its content goes; what the environment does to it may differ. */
  predicate SameExport(a: Job, b: Job) {
    a.mode == b.mode && a.source == b.source && a.end == b.end && a.metadata == b.metadata
  }

  function KeysIn(cells: seq<Cell>): (keys: seq<Key>)
    ensures |keys| == |cells| && forall i :: 0 <= i < |cells| ==> keys[i] == cells[i].key
  {
    seq(|cells|, i requires 0 <= i < |cells| => cells[i].key)
  }

  /** The entries are those of the baseline for its keys in the window. */
  ghost predicate TakenOver(entries: seq<Entry>, baseline: Partitions, lo: int, hi: int) {
    && (forall k :: k in AsMap(entries) <==> k in baseline && lo <= k.day < hi)
    && (forall k :: k in AsMap(entries) ==> k in baseline && AsMap(entries)[k] == baseline[k])
  }

  lemma ReusedAreTakenOver(spec: Spec, files: map<Path, FileBytes>, source: seq<Cell>, lo: int, hi: int,
                           baseline: Partitions, entries: seq<Entry>)
    requires GoodSource(spec, source) && PartitionsSound(spec, files, baseline)
    requires StatsView(baseline) == Below(spec, source, hi) && |entries| == |CellsIn(source, lo, hi)|
    requires var cells := CellsIn(source, lo, hi);
             forall i :: 0 <= i < |cells| ==> cells[i].key in baseline && entries[i] == baseline[cells[i].key]
    ensures TakenOver(entries, baseline, lo, hi)
  {
    var cells := CellsIn(source, lo, hi);
    EntriesHaveKeys(spec, files, baseline, cells, entries);
    ReusedPartitions(entries, KeysIn(cells), baseline);
    forall k ensures k in KeysIn(cells) <==> k in baseline && lo <= k.day < hi {
      WindowKeys(spec, source, lo, hi, baseline, k);
    }
  }

  lemma NoneWrittenNoneFail(spec: Spec, files: map<Path, FileBytes>, entries: seq<Entry>, written: seq<bool>)
    requires |entries| == |written| && forall i :: 0 <= i < |written| ==> !written[i]
    ensures FreshAreReadable(spec, files, entries, written) && Failures(spec, files, entries, written) == {}
  {
  }

  /** Repeated, the production writes nothing and yields the published entries. */
  lemma RepeatedProduction(spec: Spec, disk: Disk, job: Job, m: DatasetVersion) returns (p: Production)
    requires GoodSource(spec, job.source) && VersionSound(spec, disk.files, m)
    requires StatsView(m.partitions) == Below(spec, job.source, job.end)
    ensures p == ProduceAll(spec, disk, job, Some(m)) && !p.killed && p.files == disk.files
    ensures |p.entries| == |p.written| && FreshAreReadable(spec, p.files, p.entries, p.written)
    ensures Failures(spec, p.files, p.entries, p.written) == {}
    ensures TakenOver(p.entries, m.partitions, WindowStart(job.mode, job.source, job.end, m.partitions), job.end)
  {
    var start := WindowStart(job.mode, job.source, job.end, m.partitions);
    p := ProduceAll(spec, disk, job, Some(m));
    ContentIsReusable(spec, job.source, start, job.end, m.partitions);
    AllReused(spec, Production(disk.files, [], [], job.writes, false), WindowCells(spec, job, Some(m)), m.partitions,
              job.writer);
    ReusedAreTakenOver(spec, disk.files, job.source, start, job.end, m.partitions, p.entries);
    NoneWrittenNoneFail(spec, p.files, p.entries, p.written);
  }

  /** Entries taken over stand under the keys of their cells. */
  lemma EntriesHaveKeys(spec: Spec, files: map<Path, FileBytes>, baseline: Partitions, cells: seq<Cell>,
                        entries: seq<Entry>)
    requires PartitionsSound(spec, files, baseline) && |entries| == |cells|
    requires forall i :: 0 <= i < |cells| ==> cells[i].key in baseline && entries[i] == baseline[cells[i].key]
    ensures forall i :: 0 <= i < |cells| ==> entries[i].key == cells[i].key
  {
    forall i | 0 <= i < |cells| ensures entries[i].key == cells[i].key {
      assert EntrySound(spec, files, cells[i].key, baseline[cells[i].key]);
    }
  }

  lemma KeyOfWindow(spec: Spec, source: seq<Cell>, lo: int, hi: int, k: Key)
    requires GoodSource(spec, source) && k in KeysIn(CellsIn(source, lo, hi))
    ensures k in KeysOf(source) && lo <= k.day < hi
  {
    var cells := CellsIn(source, lo, hi);
    CellsInWindow(source, lo, hi);
    var i :| 0 <= i < |cells| && KeysIn(cells)[i] == k;
    assert cells[i] in cells;
    var j :| 0 <= j < |source| && source[j] == cells[i];
  }

  lemma KeyInWindow(spec: Spec, source: seq<Cell>, lo: int, hi: int, k: Key)
    requires GoodSource(spec, source) && k in KeysOf(source) && lo <= k.day < hi
    ensures k in KeysIn(CellsIn(source, lo, hi))
  {
    var cells := CellsIn(source, lo, hi);
    CellsInWindow(source, lo, hi);
    RowsAtIsCell(source, k);
    var c := Cell(k, RowsAt(source, k));
    assert c in cells;
    var i :| 0 <= i < |cells| && cells[i] == c;
    assert KeysIn(cells)[i] == k;
  }

  lemma WindowKeys(spec: Spec, source: seq<Cell>, lo: int, hi: int, baseline: Partitions, k: Key)
    requires GoodSource(spec, source) && StatsView(baseline) == Below(spec, source, hi)
    ensures k in KeysIn(CellsIn(source, lo, hi)) <==> k in baseline && lo <= k.day < hi
  {
    assert k in baseline <==> k in StatsView(baseline);
    if k in KeysIn(CellsIn(source, lo, hi)) {
      KeyOfWindow(spec, source, lo, hi, k);
    } else if k in KeysOf(source) && lo <= k.day < hi {
      KeyInWindow(spec, source, lo, hi, k);
    }
  }

  /** A window that starts at the first day leaves out nothing of the version. */
  lemma FullWindowKeys(spec: Spec, source: seq<Cell>, end: int, p: Partitions, k: Key)
    requires GoodSource(spec, source) && StatsView(p) == Below(spec, source, end) && k in p
    ensures (if source != [] then FirstDay(source) else end) <= k.day < end
  {
    FirstDayIsFirst(source);
    assert k in StatsView(p);
    RowsAtIsCell(source, k);
  }

  /** What a repeated full export composes is what is published. */
  lemma RepeatedFull(spec: Spec, disk: Disk, job: Job, m: DatasetVersion, p: Production)
    requires GoodSource(spec, job.source) && job.mode == Full
    requires StatsView(m.partitions) == Below(spec, job.source, job.end)
    requires |p.entries| == |p.written|
    requires TakenOver(p.entries, m.partitions, WindowStart(job.mode, job.source, job.end, m.partitions), job.end)
    ensures Compose(spec, disk, job, Some(m), p).partitions == m.partitions && AsMap(p.entries) == m.partitions
  {
    forall k | k in m.partitions ensures k in AsMap(p.entries) {
      FullWindowKeys(spec, job.source, job.end, m.partitions, k);
    }
    SameMap(AsMap(p.entries), m.partitions);
    ComposedPartitions(spec, disk, job, Some(m), p);
  }

  lemma NothingAfterLastDay(job: Job, m: Partitions, k: Key)
    requires job.mode == Incremental && k in m
    ensures k.day < WindowStart(job.mode, job.source, job.end, m)
  {
    BaselineBelowWindow(job, m, k);
  }

  lemma PlusNothing(p: Partitions, q: Partitions)
    requires forall k :: k !in q
    ensures p + q == p && q.Keys == {}
  {
  }

  /** What a repeated incremental export composes is what is published: nothing is left to add. */
  lemma RepeatedIncremental(spec: Spec, disk: Disk, job: Job, m: DatasetVersion, p: Production)
    requires GoodSource(spec, job.source) && job.mode == Incremental
    requires |p.entries| == |p.written|
    requires TakenOver(p.entries, m.partitions, WindowStart(job.mode, job.source, job.end, m.partitions), job.end)
    ensures Compose(spec, disk, job, Some(m), p).partitions == m.partitions && AsMap(p.entries).Keys == {}
  {
    forall k ensures k !in AsMap(p.entries) {
      if k in AsMap(p.entries) { NothingAfterLastDay(job, m.partitions, k); }
    }
    PlusNothing(m.partitions, AsMap(p.entries));
    ComposedPartitions(spec, disk, job, Some(m), p);
  }

  /** The ledger of a full export depends on what was produced only. */
  lemma FullLedgerRepeats(spec: Spec, disk: Disk, job: Job, baseline: Option<DatasetVersion>, p: Production,
                          again: Disk, job': Job, m: DatasetVersion, p': Production)
    requires |p.entries| == |p.written| && |p'.entries| == |p'.written|
    requires job.mode == Full && SameExport(job, job') && AsMap(p.entries).Keys == AsMap(p'.entries).Keys
    ensures Compose(spec, again, job', Some(m), p').skipped == Compose(spec, disk, job, baseline, p).skipped
  {
    ComposedSkipped(spec, disk, job, baseline, p);
    ComposedSkipped(spec, again, job', Some(m), p');
  }

  /** The window of an incremental export starts no later than the next one's. */
  lemma WindowsMoveOn(spec: Spec, job: Job, baseline: Partitions, m: Partitions)
    requires GoodSource(spec, job.source) && m != map[]
    requires StatsView(m) == Below(spec, job.source, job.end) && baseline.Keys <= m.Keys
    ensures WindowStart(Incremental, job.source, job.end, baseline) <= LastDay(m) + 1
  {
    if baseline != map[] {
      LastDayGrows(baseline, m);
    } else {
      var last := LastDayIsLast(m);
      FullWindowKeys(spec, job.source, job.end, m, last);
    }
  }

  lemma LastDayGrows(a: Partitions, b: Partitions)
    requires a != map[] && b != map[] && a.Keys <= b.Keys
    ensures LastDay(a) <= LastDay(b)
  {
    var k := LastDayIsLast(a);
    var last := LastDayIsLast(b);
    assert k in b.Keys;
  }

  /** The dimensions an incremental export of nothing new answers for are those of its baseline. */
  lemma EmptyDimKnown(spec: Spec, start: int, end: int, baseline: Option<DatasetVersion>, m: DatasetVersion, k: Key)
    requires k in EmptyCells(spec, Incremental, {}, start, end, Some(m))
    ensures start <= k.day < end && KnownDim(spec, baseline, m, k.dim)
  {
    if spec.pairPartitioned {
      assert DimsOf({}) == {};
    }
  }

  /** All that a repeated incremental export finds empty is in the ledger already. */
  lemma EmptyIsLedgered(spec: Spec, disk: Disk, job: Job, baseline: Option<DatasetVersion>, p: Production,
                        m: DatasetVersion, k: Key)
    requires GoodSource(spec, job.source) && |p.entries| == |p.written| && job.mode == Incremental
    requires m == Compose(spec, disk, job, baseline, p) && m.partitions != map[]
    requires baseline.Some? ==> baseline.value.partitions.Keys !! baseline.value.skipped
    requires PartitionsOf(baseline).Keys <= m.partitions.Keys
    requires StatsView(m.partitions) == Below(spec, job.source, job.end)
    requires LastDay(m.partitions) < k.day < job.end && KnownDim(spec, baseline, m, k.dim)
    ensures k in m.skipped
  {
    WindowsMoveOn(spec, job, PartitionsOf(baseline), m.partitions);
    IncrementalLedger(spec, disk, job, baseline, p, k);
    var last := LastDayIsLast(m.partitions);
    assert k !in m.partitions.Keys;
  }

  lemma SkippedStays(skipped: set<Key>, empty: set<Key>)
    requires empty <= skipped
    ensures SynthesizeSkipped(skipped, {}, empty) == skipped
  {
  }

  /** The baseline's keys are among those of an incremental version. */
  lemma KeepsKeys(spec: Spec, disk: Disk, job: Job, baseline: Option<DatasetVersion>, p: Production)
    requires |p.entries| == |p.written| && job.mode == Incremental
    ensures PartitionsOf(baseline).Keys <= Compose(spec, disk, job, baseline, p).partitions.Keys
  {
    ComposedPartitions(spec, disk, job, baseline, p);
  }

  lemma IncrementalLedgerRepeats(spec: Spec, disk: Disk, job: Job, baseline: Option<DatasetVersion>, p: Production,
                                 m: DatasetVersion)
    requires GoodSource(spec, job.source) && |p.entries| == |p.written|
    requires job.mode == Incremental && m == Compose(spec, disk, job, baseline, p) && m.partitions != map[]
    requires baseline.Some? ==> baseline.value.partitions.Keys !! baseline.value.skipped
    requires StatsView(m.partitions) == Below(spec, job.source, job.end)
    ensures EmptyCells(spec, Incremental, {}, LastDay(m.partitions) + 1, job.end, Some(m)) <= m.skipped
  {
    var start := LastDay(m.partitions) + 1;
    KeepsKeys(spec, disk, job, baseline, p);
    forall k | k in EmptyCells(spec, Incremental, {}, start, job.end, Some(m)) ensures k in m.skipped {
      EmptyDimKnown(spec, start, job.end, baseline, m, k);
      EmptyIsLedgered(spec, disk, job, baseline, p, m, k);
    }
  }

  lemma SkippedRepeats(spec: Spec, again: Disk, job: Job, m: DatasetVersion, p: Production)
    requires |p.entries| == |p.written| && job.mode == Incremental && AsMap(p.entries).Keys == {}
    requires m.partitions != map[]
    requires EmptyCells(spec, Incremental, {}, LastDay(m.partitions) + 1, job.end, Some(m)) <= m.skipped
    ensures Compose(spec, again, job, Some(m), p).skipped == m.skipped
  {
    ComposedSkipped(spec, again, job, Some(m), p);
    SkippedStays(m.skipped, EmptyCells(spec, Incremental, {}, LastDay(m.partitions) + 1, job.end, Some(m)));
  }

  lemma RepeatIsNoOp(disk: Disk, job: Job, m: DatasetVersion, again: DatasetVersion, left: nat)
    requires m.status.Valid? && again.status.Valid? && again.partitions == m.partitions && again.skipped == m.skipped
    requires again.metadata == m.metadata && again.valueDigest == m.valueDigest
    requires m.partitions != map[] ==> LastDay(m.partitions) < job.end
    ensures Finish(disk, disk.files, job, Some(m), again, left) == (disk, NoOp)
  {
  }

  /** The published version is a fixed point: it is valid, holds the job's content and ledger, and is the baseline. */
  ghost predicate IsFixedPoint(spec: Spec, disk: Disk, job: Job, m: DatasetVersion) {
    && GoodSource(spec, job.source) && DiskSound(spec, disk)
    && BaselineOf(disk) == Some(m) && VersionSound(spec, disk.files, m)
    && m.status.Valid? && m.metadata == job.metadata
    && StatsView(m.partitions) == Below(spec, job.source, job.end)
  }

  lemma RepeatFinishes(spec: Spec, disk: Disk, job: Job, m: DatasetVersion, p: Production)
    requires IsFixedPoint(spec, disk, job, m) && !WindowEmpty(job, Some(m))
    requires p == ProduceAll(spec, disk, job, Some(m)) && !p.killed && p.files == disk.files
    requires FreshAreReadable(spec, p.files, p.entries, p.written)
    requires Failures(spec, p.files, p.entries, p.written) == {}
    requires var again := Compose(spec, disk, job, Some(m), p);
             again.partitions == m.partitions && again.skipped == m.skipped
    ensures Export(spec, disk, job) == (disk, NoOp)
  {
    var again := Compose(spec, disk, job, Some(m), p);
    ComposedDigest(spec, disk, job, Some(m), p);
    BaselineOfJob(spec, disk, job.mode == Full);
    if m.partitions != map[] {
      var last := LastDayIsLast(m.partitions);
      assert last in StatsView(m.partitions);
    }
    RepeatIsNoOp(disk, job, m, again, p.left);
  }

  lemma RepeatedFullIsNoOp(spec: Spec, disk: Disk, job: Job, m: DatasetVersion, first: Disk, job0: Job,
                           baseline: Option<DatasetVersion>, p0: Production)
    requires IsFixedPoint(spec, disk, job, m) && job.mode == Full && SameExport(job0, job)
    requires |p0.entries| == |p0.written| && m == Compose(spec, first, job0, baseline, p0)
    ensures Export(spec, disk, job) == (disk, NoOp)
  {
    BaselineOfJob(spec, disk, true);
    if !WindowEmpty(job, Some(m)) {
      var p := RepeatedProduction(spec, disk, job, m);
      RepeatedFull(spec, disk, job, m, p);
      ComposedPartitions(spec, first, job0, baseline, p0);
      FullLedgerRepeats(spec, first, job0, baseline, p0, disk, job, m, p);
      RepeatFinishes(spec, disk, job, m, p);
    }
  }

  lemma EmptyVersionEmptyWindow(spec: Spec, job: Job, m: DatasetVersion)
    requires GoodSource(spec, job.source) && job.mode == Incremental && m.metadata == job.metadata
    requires m.partitions == map[] && StatsView(m.partitions) == Below(spec, job.source, job.end)
    ensures WindowEmpty(job, Some(m))
  {
    if job.source != [] {
      FirstDayIsAny(job.source);
      var k :| k in KeysOf(job.source) && k.day == FirstDay(job.source);
      assert k !in Below(spec, job.source, job.end);
    }
  }

  lemma RepeatedIncrementalIsNoOp(spec: Spec, disk: Disk, job: Job, m: DatasetVersion)
    requires IsFixedPoint(spec, disk, job, m) && job.mode == Incremental
    requires m.partitions != map[] ==>
              EmptyCells(spec, Incremental, {}, LastDay(m.partitions) + 1, job.end, Some(m)) <= m.skipped
    ensures Export(spec, disk, job) == (disk, NoOp)
  {
    BaselineOfJob(spec, disk, false);
    if m.partitions == map[] {
      EmptyVersionEmptyWindow(spec, job, m);
    } else if !WindowEmpty(job, Some(m)) {
      var p := RepeatedProduction(spec, disk, job, m);
      RepeatedIncremental(spec, disk, job, m, p);
      SkippedRepeats(spec, disk, job, m, p);
      RepeatFinishes(spec, disk, job, m, p);
    }
  }

  lemma ComposedMetadata(spec: Spec, disk: Disk, job: Job, baseline: Option<DatasetVersion>, p: Production)
    requires |p.entries| == |p.written|
    ensures Compose(spec, disk, job, baseline, p).metadata == job.metadata
  {
  }

  /** The version an export has just published, when it is valid. */
  lemma PublishedIsFixedPoint(spec: Spec, disk: Disk, job: Job, again: Job)
    returns (m: DatasetVersion, baseline: Option<DatasetVersion>, p: Production)
    requires Orderly(spec, disk) && NoneLater(disk.manifests, job.today) && ReadyFor(spec, disk, job)
    requires SameExport(job, again)
    requires var r := Export(spec, disk, job); ValidPublish(r.1, r.0.manifests)
    ensures IsFixedPoint(spec, Export(spec, disk, job).0, again, m)
    ensures |p.entries| == |p.written| && m == Compose(spec, disk, job, baseline, p)
    ensures baseline.Some? ==> baseline.value.partitions.Keys !! baseline.value.skipped
  {
    var d := Export(spec, disk, job).0;
    ExportKeepsSound(spec, disk, job);
    ExportStaysOrderly(spec, disk, job);
    baseline, p := ExportOutcome(spec, disk, job);
    m := Compose(spec, disk, job, baseline, p);
    ComposedLikeRebuilt(spec, disk, job, baseline, p);
    ComposedMetadata(spec, disk, job, baseline, p);
    BaselineIsLastPublish(spec, d);
    LastValidAppend(disk.manifests, m);
    assert d.manifests[|disk.manifests|] == m;
  }

  /**
   Publishing only what is new: after an export has published a valid version,
   the same export again, of the same source up to the same end, changes nothing
   on disk and publishes nothing, whatever the environment does to it.
   */
  lemma ExportIsIdempotent(spec: Spec, disk: Disk, job: Job, again: Job)
    requires Orderly(spec, disk) && NoneLater(disk.manifests, job.today) && ReadyFor(spec, disk, job)
    requires SameExport(job, again)
    requires var r := Export(spec, disk, job); ValidPublish(r.1, r.0.manifests)
    ensures Export(spec, Export(spec, disk, job).0, again) == (Export(spec, disk, job).0, NoOp)
  {
    var m, baseline, p := PublishedIsFixedPoint(spec, disk, job, again);
    if again.mode == Full {
      RepeatedFullIsNoOp(spec, Export(spec, disk, job).0, again, m, disk, job, baseline, p);
    } else {
      if m.partitions != map[] {
        IncrementalLedgerRepeats(spec, disk, job, baseline, p, m);
      }
      RepeatedIncrementalIsNoOp(spec, Export(spec, disk, job).0, again, m);
    }
  }

  /** So in every run: a job that only repeats the one that has just published a valid version does nothing. */
  lemma RepeatedJobDoesNothing(spec: Spec, r: Run, n: nat)
    requires IsContinuous(spec, r) && DaysGoOn(r) && n + 1 < |r.jobs|
    requires ValidPublish(r.outcomes[n], r.disks[n + 1].manifests) && SameExport(r.jobs[n], r.jobs[n + 1])
    ensures r.disks[n + 2] == r.disks[n + 1] && r.outcomes[n + 1] == NoOp
  {
    assert Follows(spec, r, n) && Follows(spec, r, n + 1);
    RunStaysOrderly(spec, r, n);
    RunHoldsContent(spec, r, n);
    ContentMakesReady(spec, r, n);
    ExportIsIdempotent(spec, r.disks[n], r.jobs[n], r.jobs[n + 1]);
  }

  // ---- orphans -----------------------------------------------------

  lemma ReferencedIsThere(spec: Spec, d: Disk, p: Path)
    requires DiskSound(spec, d) && p in Referenced(d.manifests)
    ensures p in d.files
  {
    var i, k :| 0 <= i < |d.manifests| && k in d.manifests[i].partitions && d.manifests[i].partitions[k].path == p;
    assert EntrySound(spec, d.files, k, d.manifests[i].partitions[k]);
  }

  lemma ReferencedAreThere(spec: Spec, d: Disk)
    requires DiskSound(spec, d)
    ensures Referenced(d.manifests) <= d.files.Keys
  {
    forall p | p in Referenced(d.manifests) ensures p in d.files {
      ReferencedIsThere(spec, d, p);
    }
  }

  lemma CleanUpLeaves(files: map<Path, FileBytes>, manifests: seq<DatasetVersion>)
    ensures CleanUp(files, manifests, None).Keys <= Referenced(manifests)
  {
  }

  lemma FinishCleans(disk: Disk, files: map<Path, FileBytes>, job: Job, baseline: Option<DatasetVersion>,
                     m: DatasetVersion, left: nat)
    requires job.mode == Full && job.reclaimed.None? && Finish(disk, files, job, baseline, m, left).1.Published?
    ensures var d := Finish(disk, files, job, baseline, m, left).0; d.files.Keys <= Referenced(d.manifests)
  {
    CleanUpLeaves(files, disk.manifests + [m]);
  }

  lemma CleanedFiles(spec: Spec, disk: Disk, job: Job)
    requires GoodSource(spec, job.source) && DiskSound(spec, disk)
    requires job.mode == Full && job.reclaimed.None? && Export(spec, disk, job).1.Published?
    ensures var d := Export(spec, disk, job).0; d.files.Keys <= Referenced(d.manifests)
  {
    var baseline, p := JobProduction(spec, disk, job);
    FinishCleans(disk, p.files, job, baseline, Compose(spec, disk, job, baseline, p), p.left);
  }

  /** A full export that is not killed in its cleanup leaves exactly the files some manifest lists. */
  lemma NoOrphansLeft(spec: Spec, disk: Disk, job: Job)
    requires GoodSource(spec, job.source) && DiskSound(spec, disk)
    requires job.mode == Full && job.reclaimed.None? && Export(spec, disk, job).1.Published?
    ensures var d := Export(spec, disk, job).0; d.files.Keys == Referenced(d.manifests)
  {
    ExportKeepsSound(spec, disk, job);
    ReferencedAreThere(spec, Export(spec, disk, job).0);
    CleanedFiles(spec, disk, job);
  }
}
