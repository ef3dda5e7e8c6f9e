/**
 The exporter at work on the lake: the loops and effects of one export, each
 proved to do what the functions of `Lake` say.
 */
module LakeStore {
  import opened Wrappers
  import opened Manifest
  import opened Versions
  import opened Lake
  import opened LakeProofs

  class Exporter {
    var files: map<Path, FileBytes>
    var manifests: seq<DatasetVersion>

    function Contents(): Disk
      reads this
    {
      Disk(files, manifests)
    }

    /** Walks the listing from its end. */
    method FindBaseline(allowFallback: bool) returns (r: Result<Option<DatasetVersion>, Refusal>)
      ensures r == UsableBaseline(files, ListVersions(manifests), allowFallback)
    {
      var listing := ListVersions(manifests);
      var n := |listing|;
      assert listing[..n] == listing;
      while n > 0
        invariant n <= |listing|
        invariant UsableBaseline(files, listing[..n], allowFallback) == UsableBaseline(files, listing, allowFallback)
      {
        var m := listing[n - 1];
        UsableStep(files, listing, n, allowFallback);
        if m.status.Valid? {
          if Intact(files, m) {
            return Ok(Some(m));
          }
          if !allowFallback {
            return Err(BaselineDamaged);
          }
        }
        n := n - 1;
      }
      r := Ok(None);
    }

    /** Writes the next revision of a partition, never over a file that is there. */
    method WritePartition(spec: Spec, cell: Cell, writer: Writer) returns (e: Entry)
      requires GoodRows(spec, cell.rows)
      modifies this`files
      ensures e == Entry(cell.key, e.path, CellStats(spec, cell.rows),
                         FileSha(FileBytes(Saved(writer, cell), writer.id)))
      ensures e.path == Path(cell.key, TopRevision(old(files.Keys), cell.key) + 1)
      ensures e.path !in old(files) && files == old(files)[e.path := FileBytes(Saved(writer, cell), writer.id)]
    {
      var top := TopRevision(files.Keys, cell.key);
      assert IsTopRevision(top, files.Keys, cell.key);
      var bytes := FileBytes(Saved(writer, cell), writer.id);
      e := Entry(cell.key, Path(cell.key, top + 1), CellStats(spec, cell.rows), FileSha(bytes));
      files := files[e.path := bytes];
    }

    /** One cell: its file is the baseline's if the row digests agree, else a new one, unless the process dies first. */
    method ProduceCell(spec: Spec, cell: Cell, baseline: Partitions, writer: Writer,
                       entries: seq<Entry>, written: seq<bool>, left: nat, ghost p: Production)
      returns (entries': seq<Entry>, written': seq<bool>, left': nat, killed: bool)
      requires GoodRows(spec, cell.rows) && p == Production(files, entries, written, left, false)
      modifies this`files
      ensures Production(files, entries', written', left', killed) == ProduceOne(spec, p, cell, baseline, writer)
    {
      entries', written', left', killed := entries, written, left, false;
      var digest := CellStats(spec, cell.rows).digest;
      if cell.key in baseline && baseline[cell.key].stats.digest == digest {
        entries', written' := entries + [baseline[cell.key]], written + [false];
      } else if left == 0 {
        killed := true;
      } else {
        var e := WritePartition(spec, cell, writer);
        entries', written', left' := entries + [e], written + [true], left - 1;
      }
    }

    /** Goes through the cells of the window until done, or until the process dies before a write. */
    method ProducePartitions(spec: Spec, cells: seq<Cell>, baseline: Partitions, writer: Writer, writes: nat)
      returns (entries: seq<Entry>, written: seq<bool>, left: nat, killed: bool)
      requires GoodCells(spec, cells)
      modifies this`files
      ensures Production(files, entries, written, left, killed)
              == Produce(spec, Production(old(files), [], [], writes, false), cells, baseline, writer)
    {
      entries, written, left, killed := [], [], writes, false;
      ghost var start := Production(files, [], [], writes, false);
      ghost var p := start;
      for i := 0 to |cells|
        invariant GoodCells(spec, cells[..i]) && p == Produce(spec, start, cells[..i], baseline, writer)
        invariant !killed && p == Production(files, entries, written, left, killed)
      {
        ProduceStep(spec, start, cells, i, baseline, writer);
        entries, written, left, killed := ProduceCell(spec, cells[i], baseline, writer, entries, written, left, p);
        p := ProduceOne(spec, p, cells[i], baseline, writer);
        if killed {
          KilledStaysKilled(spec, start, cells, i + 1, baseline, writer);
          return;
        }
      }
      assert cells[..|cells|] == cells;
    }

    method ReferencedPaths() returns (referenced: set<Path>)
      ensures referenced == Referenced(manifests)
    {
      referenced := {};
      for i := 0 to |manifests|
        invariant referenced == Referenced(manifests[..i])
      {
        ReferencedStep(manifests, i);
        var m := manifests[i];
        referenced := referenced + (set k | k in m.partitions :: m.partitions[k].path);
      }
      assert manifests[..|manifests|] == manifests;
    }

    /** Unlinks the files not in `referenced`, one by one. */
    method UnlinkOthers(referenced: set<Path>, reclaimed: Option<set<Path>>)
      modifies this`files
      ensures files == old(files) - Doomed(old(files).Keys - referenced, reclaimed)
    {
      var found := files.Keys;
      ghost var doomed := Doomed(found - referenced, reclaimed);
      while found != {}
        invariant found <= old(files).Keys
        invariant files == old(files) - (doomed - found)
        decreases |found|
      {
        var p :| p in found;
        UnlinkOne(old(files), doomed, found, p);
        if p !in referenced && (reclaimed.None? || p in reclaimed.value) {
          files := files - {p};
        }
        found := found - {p};
      }
      assert doomed - found == doomed;
    }

    /** Deletes what no manifest lists; a dying process gets through a part of it. */
    method CleanupOrphans(reclaimed: Option<set<Path>>)
      modifies this`files
      ensures files == CleanUp(old(files), manifests, reclaimed)
    {
      var referenced := ReferencedPaths();
      UnlinkOthers(referenced, reclaimed);
    }

    /** Puts the version together from the baseline and what was produced. */
    method ComposeVersion(spec: Spec, job: Job, baseline: Option<DatasetVersion>, ghost p: Production,
                          entries: seq<Entry>, written: seq<bool>)
      returns (m: DatasetVersion)
      requires |entries| == |written| && p.files == files && p.entries == entries && p.written == written
      ensures m == Compose(spec, Contents(), job, baseline, p)
    {
      var start := WindowStart(job.mode, job.source, job.end, PartitionsOf(baseline));
      var produced := AsMap(entries).Keys;
      var empty := EmptyCells(spec, job.mode, produced, start, job.end, baseline);
      var skipped := SynthesizeSkipped(if job.mode == Incremental then SkippedOf(baseline) else {}, produced, empty);
      var failures := Failures(spec, files, entries, written);
      var merged := SynthesizePartitions(if job.mode == Incremental then PartitionsOf(baseline) else map[], entries);
      m := DatasetVersion(NextVersion(manifests, job.today), if failures != {} then Invalid else Valid,
                          merged, skipped, job.metadata, ValueDigest(merged));
    }

    /** Guard, comparison with the baseline, publication and cleanup. */
    method FinishExport(job: Job, baseline: Option<DatasetVersion>, m: DatasetVersion,
                        left: nat) returns (outcome: Outcome)
      modifies this
      ensures (Contents(), outcome) == Finish(old(Contents()), old(files), job, baseline, m, left)
    {
      if job.mode == Full {
        var refusal := FullShrinkRefusal(PartitionsOf(baseline), m.partitions, job.end, job.allowShrink);
        if refusal.Some? {
          return Refused(refusal.value);
        }
      }
      if !ContentChanged(baseline, m) {
        return NoOp;
      }
      if left == 0 {
        return Killed;
      }
      manifests := manifests + [m];
      if job.mode == Full {
        CleanupOrphans(job.reclaimed);
      }
      outcome := Published(m.version);
    }

    /** One export of the dataset: new state and outcome are those of `Lake.Export`. */
    method ExportOne(spec: Spec, job: Job) returns (outcome: Outcome)
      requires GoodSource(spec, job.source)
      modifies this
      ensures (Contents(), outcome) == Export(spec, old(Contents()), job)
    {
      ghost var before := Contents();
      var found := FindBaseline(job.mode == Full);
      if found.Err? {
        return Refused(found.error);
      }
      var baseline := found.value;
      if WindowEmpty(job, baseline) {
        return NoOp;
      }
      var cells := WindowCells(spec, job, baseline);
      var entries, written, left, killed :=
        ProducePartitions(spec, cells, PartitionsOf(baseline), job.writer, job.writes);
      ghost var p := ProduceAll(spec, before, job, baseline);
      assert p == Production(files, entries, written, left, killed);
      if killed || !FreshAreReadable(spec, files, entries, written) {
        return Killed;
      }
      var m := ComposeVersion(spec, job, baseline, p, entries, written);
      ComposedFromManifests(spec, before, Contents(), job, baseline, p);
      FinishedFromManifests(before, Contents(), p.files, job, baseline, m, left);
      outcome := FinishExport(job, baseline, m, left);
    }

    /** One more export, and the run with it. */
    method ExportNext(spec: Spec, job: Job, ghost r: Run) returns (ghost longer: Run)
      requires GoodSource(spec, job.source) && IsRun(spec, r) && r.disks[|r.jobs|] == Contents()
      modifies this
      ensures IsRun(spec, longer) && longer.jobs == r.jobs + [job]
      ensures longer.disks[0] == r.disks[0] && longer.disks[|longer.jobs|] == Contents()
    {
      var outcome := ExportOne(spec, job);
      RunGoesOn(spec, r, job, Contents(), outcome);
      longer := Longer(r, job, Contents(), outcome);
    }

    /** Exports one after the other, as a run that the theorems on runs speak of. */
    method ExportAll(spec: Spec, jobs: seq<Job>) returns (ghost r: Run)
      requires forall i :: 0 <= i < |jobs| ==> GoodSource(spec, jobs[i].source)
      modifies this
      ensures IsRun(spec, r) && r.jobs == jobs
      ensures r.disks[0] == old(Contents()) && r.disks[|jobs|] == Contents()
    {
      r := Run([], [Contents()], []);
      for i := 0 to |jobs|
        invariant IsRun(spec, r) && r.jobs == jobs[..i]
        invariant r.disks[0] == old(Contents()) && r.disks[i] == Contents()
      {
        r := ExportNext(spec, jobs[i], r);
      }
    }
  }

  /** Composing looks at the manifests of the disk only, not at its files. */
  lemma ComposedFromManifests(spec: Spec, a: Disk, b: Disk, job: Job, baseline: Option<DatasetVersion>, p: Production)
    requires a.manifests == b.manifests && |p.entries| == |p.written|
    ensures Compose(spec, a, job, baseline, p) == Compose(spec, b, job, baseline, p)
  {
  }

  /** And so does finishing. */
  lemma FinishedFromManifests(a: Disk, b: Disk, files: map<Path, FileBytes>, job: Job, baseline: Option<DatasetVersion>,
                              m: DatasetVersion, left: nat)
    requires a.manifests == b.manifests
    ensures Finish(a, files, job, baseline, m, left) == Finish(b, files, job, baseline, m, left)
  {
  }

  lemma UsableStep(files: map<Path, FileBytes>, listing: seq<DatasetVersion>, n: nat, allowFallback: bool)
    requires 0 < n <= |listing|
    ensures var m := listing[n - 1];
            UsableBaseline(files, listing[..n], allowFallback)
            == if m.status.Valid? && Intact(files, m) then Ok(Some(m))
               else if m.status.Valid? && !allowFallback then Err(BaselineDamaged)
               else UsableBaseline(files, listing[..n - 1], allowFallback)
  {
    assert listing[..n][..n - 1] == listing[..n - 1];
  }

  lemma ProduceStep(spec: Spec, start: Production, cells: seq<Cell>, i: nat, baseline: Partitions, writer: Writer)
    requires GoodCells(spec, cells) && i < |cells|
    ensures GoodCells(spec, cells[..i]) && GoodCells(spec, cells[..i + 1])
    ensures Produce(spec, start, cells[..i + 1], baseline, writer)
            == ProduceOne(spec, Produce(spec, start, cells[..i], baseline, writer), cells[i], baseline, writer)
  {
    assert cells[..i + 1][..i] == cells[..i];
  }

  lemma UnlinkOne(files: map<Path, FileBytes>, doomed: set<Path>, found: set<Path>, p: Path)
    requires p in found
    ensures files - (doomed - (found - {p})) == (files - (doomed - found)) - (if p in doomed then {p} else {})
  {
    assert doomed - (found - {p}) == (doomed - found) + (if p in doomed then {p} else {});
  }

  lemma ReferencedStep(manifests: seq<DatasetVersion>, i: nat)
    requires i < |manifests|
    ensures var m := manifests[i];
            Referenced(manifests[..i + 1])
            == Referenced(manifests[..i]) + (set k | k in m.partitions :: m.partitions[k].path)
  {
    var front, all := manifests[..i], manifests[..i + 1];
    forall p | p in Referenced(front) ensures p in Referenced(all) {
      var j, k :| 0 <= j < |front| && k in front[j].partitions && front[j].partitions[k].path == p;
      assert all[j] == front[j];
    }
    forall k | k in manifests[i].partitions ensures manifests[i].partitions[k].path in Referenced(all) {
      assert all[i] == manifests[i];
    }
  }

  /** Once the process is dead the remaining cells change nothing. */
  lemma {:induction false} KilledStaysKilled(spec: Spec, start: Production, cells: seq<Cell>, n: nat,
                                             baseline: Partitions, writer: Writer)
    requires GoodCells(spec, cells) && n <= |cells|
    requires GoodCells(spec, cells[..n]) && Produce(spec, start, cells[..n], baseline, writer).killed
    ensures Produce(spec, start, cells, baseline, writer) == Produce(spec, start, cells[..n], baseline, writer)
    decreases |cells|
  {
    if n < |cells| {
      var front := cells[..|cells| - 1];
      assert front[..n] == cells[..n];
      KilledStaysKilled(spec, start, front, n, baseline, writer);
    } else {
      assert cells[..n] == cells;
    }
  }
}
