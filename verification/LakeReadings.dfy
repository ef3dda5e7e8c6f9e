/**
 What the files of a version read back as. The exporter reads the files it has
 just written and compares statistics; that is enough to tell whether they hold
 the source's rows, and so all files of a valid version do.
 */
module LakeReadings {
  import opened Wrappers
  import opened Encoding
  import opened Digest
  import opened Reconcile
  import opened Manifest
  import opened Lake
  import opened LakeProofs
  import opened LakeEquality
  import opened LakeIdempotence

  /** An entry written afresh stands for its cell, and its file holds what the writer has made of the rows. */
  ghost predicate WrittenFor(spec: Spec, p: Production, cells: seq<Cell>, writer: Writer, i: nat)
    requires i < |cells| && GoodCells(spec, cells)
  {
    && i < |p.entries| && p.entries[i].key == cells[i].key && p.entries[i].stats == CellStats(spec, cells[i].rows)
    && p.entries[i].path in p.files && p.files[p.entries[i].path] == FileBytes(Saved(writer, cells[i]), writer.id)
  }

  lemma WrittenOneMore(spec: Spec, p: Production, cells: seq<Cell>, baseline: Partitions, writer: Writer)
    requires GoodCells(spec, cells) && cells != [] && GoodCells(spec, cells[..|cells| - 1])
    requires |p.entries| == |p.written| <= |cells| - 1 && (!p.killed ==> |p.entries| == |cells| - 1)
    requires forall i :: 0 <= i < |p.entries| && p.written[i] ==>
               WrittenFor(spec, p, cells[..|cells| - 1], writer, i)
    ensures var q := ProduceOne(spec, p, cells[|cells| - 1], baseline, writer);
            && |q.entries| == |q.written| <= |cells| && (!q.killed ==> |q.entries| == |cells|)
            && forall i :: 0 <= i < |q.entries| && q.written[i] ==> WrittenFor(spec, q, cells, writer, i)
  {
    var front, last := cells[..|cells| - 1], cells[|cells| - 1];
    var q := ProduceOne(spec, p, last, baseline, writer);
    assert IsTopRevision(TopRevision(p.files.Keys, last.key), p.files.Keys, last.key);
    assert Grows(p.files, q.files);
    forall i | 0 <= i < |p.entries| && p.written[i] ensures WrittenFor(spec, q, cells, writer, i) {
      assert WrittenFor(spec, p, front, writer, i) && cells[i] == front[i];
    }
  }

  lemma {:induction false} WrittenAsSaved(spec: Spec, start: Production, cells: seq<Cell>, baseline: Partitions,
                                          writer: Writer)
    requires GoodCells(spec, cells) && start.entries == [] && start.written == []
    ensures var p := Produce(spec, start, cells, baseline, writer);
            && |p.entries| == |p.written| <= |cells| && (!p.killed ==> |p.entries| == |cells|)
            && forall i :: 0 <= i < |p.entries| && p.written[i] ==> WrittenFor(spec, p, cells, writer, i)
  {
    if cells != [] {
      var front := cells[..|cells| - 1];
      WrittenAsSaved(spec, start, front, baseline, writer);
      WrittenOneMore(spec, Produce(spec, start, front, baseline, writer), cells, baseline, writer);
    }
  }

  predicate SameRows(a: seq<Row>, b: seq<Row>) {
    multiset(NormalRows(a)) == multiset(NormalRows(b))
  }

  /** Rows whose statistics can be taken reconcile with a cell exactly if they are its rows. */
  lemma ReconcilesExactly(spec: Spec, rows: seq<Row>, read: seq<Row>)
    requires GoodRows(spec, rows)
    ensures Reconciles(spec, CellStats(spec, rows), read) <==> Readable(spec, read) && SameRows(rows, read)
  {
    if Readable(spec, read) {
      RowCodesAt(read, spec.projection);
      ReconcileExact(rows, read, spec.projection, spec.event);
    }
  }

  /** Some cell has to be written afresh, and its file reads back as other rows. */
  ghost predicate SomeMisread(spec: Spec, cells: seq<Cell>, baseline: Partitions, writer: Writer)
    requires GoodCells(spec, cells)
  {
    exists i :: 0 <= i < |cells| && Misread(spec, cells[i], baseline, writer)
  }

  predicate Misread(spec: Spec, cell: Cell, baseline: Partitions, writer: Writer)
    requires GoodRows(spec, cell.rows)
  {
    !Reusable(spec, cell, baseline) && !SameRows(cell.rows, Saved(writer, cell))
  }

  lemma MisreadFails(spec: Spec, p: Production, cells: seq<Cell>, baseline: Partitions, writer: Writer, i: nat)
    requires GoodCells(spec, cells) && |p.entries| == |p.written| && i < |p.entries| == |cells|
    requires p.written[i] == !Reusable(spec, cells[i], baseline)
    requires p.written[i] ==> WrittenFor(spec, p, cells, writer, i)
    requires FreshAreReadable(spec, p.files, p.entries, p.written)
    ensures Misread(spec, cells[i], baseline, writer) <==>
            p.written[i] && !ReconcilesOnDisk(spec, p.files, p.entries[i])
  {
    if p.written[i] {
      ReconcilesExactly(spec, cells[i].rows, Saved(writer, cells[i]));
    }
  }

  lemma FailuresExactly(spec: Spec, files: map<Path, FileBytes>, entries: seq<Entry>, written: seq<bool>)
    requires |entries| == |written|
    ensures Failures(spec, files, entries, written) != {} <==>
              exists i :: 0 <= i < |entries| && written[i] && !ReconcilesOnDisk(spec, files, entries[i])
  {
    if i :| 0 <= i < |entries| && written[i] && !ReconcilesOnDisk(spec, files, entries[i]) {
      assert entries[i].key in Failures(spec, files, entries, written);
    }
  }

  lemma MisreadAreFailures(spec: Spec, p: Production, cells: seq<Cell>, baseline: Partitions, writer: Writer)
    requires GoodCells(spec, cells) && |p.entries| == |p.written| == |cells|
    requires forall i :: 0 <= i < |cells| ==> p.written[i] == !Reusable(spec, cells[i], baseline)
    requires forall i :: 0 <= i < |cells| && p.written[i] ==> WrittenFor(spec, p, cells, writer, i)
    requires FreshAreReadable(spec, p.files, p.entries, p.written)
    ensures Failures(spec, p.files, p.entries, p.written) != {} <==> SomeMisread(spec, cells, baseline, writer)
  {
    FailuresExactly(spec, p.files, p.entries, p.written);
    forall i | 0 <= i < |cells|
      ensures Misread(spec, cells[i], baseline, writer) <==>
              p.written[i] && !ReconcilesOnDisk(spec, p.files, p.entries[i])
    {
      MisreadFails(spec, p, cells, baseline, writer, i);
    }
  }

  /**
   A published version is invalid exactly if a cell that had to be written
   afresh reads back as other rows than the source's.
   */
  lemma InvalidExactly(spec: Spec, disk: Disk, job: Job) returns (m: DatasetVersion)
    requires GoodSource(spec, job.source) && DiskSound(spec, disk) && Export(spec, disk, job).1.Published?
    ensures Export(spec, disk, job).0.manifests == disk.manifests + [m]
    ensures m.status.Invalid? <==>
              SomeMisread(spec, WindowCells(spec, job, BaselineOf(disk)), PartitionsOf(BaselineOf(disk)), job.writer)
  {
    var baseline, p := ExportOutcome(spec, disk, job);
    m := Compose(spec, disk, job, baseline, p);
    var cells, b := WindowCells(spec, job, baseline), PartitionsOf(baseline);
    WrittenExactly(spec, Production(disk.files, [], [], job.writes, false), cells, b, job.writer);
    WrittenAsSaved(spec, Production(disk.files, [], [], job.writes, false), cells, b, job.writer);
    MisreadAreFailures(spec, p, cells, b, job.writer);
  }

  // ---- valid versions ----------------------------------------------

  /** A file that reconciles with the statistics of a cell's rows holds these rows. */
  lemma ReconciledHolds(spec: Spec, files: map<Path, FileBytes>, e: Entry, rows: seq<Row>)
    requires GoodRows(spec, rows) && ReconcilesOnDisk(spec, files, e)
    requires e.stats == CellStats(spec, rows)
    ensures SameRows(rows, files[e.path].rows)
  {
    ReconcilesExactly(spec, rows, files[e.path].rows);
  }

  /**
   At any point of a continuous run, a valid version has a file for exactly the
   cells its publisher saw below its window end, and each reads back as the
   rows of its cell, whether it was written for this version or taken over.
   */
  lemma ValidVersionsHoldTheSource(spec: Spec, r: Run, n: nat, v: nat, k: Key)
    requires IsContinuous(spec, r) && n <= |r.jobs|
    requires v < |r.disks[n].manifests| && r.disks[n].manifests[v].status.Valid?
    ensures |Publishers(r, n)| == |r.disks[n].manifests|
    ensures var (m, job, files) := (r.disks[n].manifests[v], Publishers(r, n)[v], r.disks[n].files);
            && (k in m.partitions <==> k in KeysOf(job.source) && k.day < job.end)
            && (k in m.partitions ==>
                  m.partitions[k].path in files
                  && SameRows(RowsAt(job.source, k), files[m.partitions[k].path].rows))
  {
    RunHoldsContent(spec, r, n);
    RunKeepsSound(spec, r, n);
    var m, job := r.disks[n].manifests[v], Publishers(r, n)[v];
    assert SeenBy(spec, m, job) && VersionSound(spec, r.disks[n].files, m);
    var view := StatsView(m.partitions);
    assert k in view <==> k in m.partitions;
    if k in m.partitions {
      RowsAtGood(spec, job.source, k);
      assert view[k] == StatsAtKey(spec, job.source, k);
      ReconciledHolds(spec, r.disks[n].files, m.partitions[k], RowsAt(job.source, k));
    }
  }

  // ---- getting through ---------------------------------------------

  lemma {:induction false} EnoughWrites(spec: Spec, start: Production, cells: seq<Cell>, baseline: Partitions,
                                        writer: Writer)
    requires GoodCells(spec, cells) && !start.killed && start.left >= |cells|
    ensures var p := Produce(spec, start, cells, baseline, writer); !p.killed && p.left >= start.left - |cells|
  {
    if cells != [] {
      EnoughWrites(spec, start, cells[..|cells| - 1], baseline, writer);
    }
  }

  lemma {:induction false} NoMoreCells(source: seq<Cell>, lo: int, hi: int)
    ensures |CellsIn(source, lo, hi)| <= |source|
  {
    if source != [] {
      NoMoreCells(source[1..], lo, hi);
    }
  }

  lemma SavedIsReadable(spec: Spec, p: Production, cells: seq<Cell>, writer: Writer)
    requires GoodCells(spec, cells) && |p.entries| == |p.written| <= |cells|
    requires forall i :: 0 <= i < |p.entries| && p.written[i] ==> WrittenFor(spec, p, cells, writer, i)
    requires forall k :: k in writer.misread ==> Readable(spec, writer.misread[k])
    ensures FreshAreReadable(spec, p.files, p.entries, p.written)
  {
    forall i | 0 <= i < |p.entries| && p.written[i]
      ensures p.entries[i].path in p.files && Readable(spec, p.files[p.entries[i].path].rows)
    {
      assert WrittenFor(spec, p, cells, writer, i);
      ReconcileExact(cells[i].rows, cells[i].rows, spec.projection, spec.event);
    }
  }

  lemma FinishIsNotKilled(disk: Disk, files: map<Path, FileBytes>, job: Job, baseline: Option<DatasetVersion>,
                          m: DatasetVersion, left: nat)
    requires left > 0
    ensures !Finish(disk, files, job, baseline, m, left).1.Killed?
    ensures baseline.None? ==> Finish(disk, files, job, baseline, m, left).1.Published?
  {
  }

  lemma ProductionGetsThrough(spec: Spec, disk: Disk, job: Job, baseline: Option<DatasetVersion>, p: Production)
    requires GoodSource(spec, job.source) && job.writes > |job.source|
    requires forall k :: k in job.writer.misread ==> Readable(spec, job.writer.misread[k])
    requires p == ProduceAll(spec, disk, job, baseline)
    requires ProductionSound(spec, disk.files, p, WindowCells(spec, job, baseline))
    ensures !p.killed && p.left > 0 && FreshAreReadable(spec, p.files, p.entries, p.written)
  {
    var cells, start := WindowCells(spec, job, baseline), Production(disk.files, [], [], job.writes, false);
    NoMoreCells(job.source, WindowStart(job.mode, job.source, job.end, PartitionsOf(baseline)), job.end);
    EnoughWrites(spec, start, cells, PartitionsOf(baseline), job.writer);
    WrittenAsSaved(spec, start, cells, PartitionsOf(baseline), job.writer);
    SavedIsReadable(spec, p, cells, job.writer);
  }

  /**
   A job allowed more writes than the source has cells, whose files can be
   read, is not killed; without a baseline it publishes, be the source empty.
   */
  lemma ExportGetsThrough(spec: Spec, disk: Disk, job: Job)
    requires GoodSource(spec, job.source) && DiskSound(spec, disk) && job.writes > |job.source|
    requires forall k :: k in job.writer.misread ==> Readable(spec, job.writer.misread[k])
    ensures !Export(spec, disk, job).1.Killed?
    ensures BaselineOf(disk).None? ==> Export(spec, disk, job).1.Published?
  {
    var baseline, p := JobProduction(spec, disk, job);
    BaselineOfJob(spec, disk, job.mode == Full);
    var m := Compose(spec, disk, job, baseline, p);
    ProductionGetsThrough(spec, disk, job, baseline, p);
    ExportByCases(spec, disk, job, baseline, p, m);
    FinishIsNotKilled(disk, p.files, job, baseline, m, p.left);
  }
}
