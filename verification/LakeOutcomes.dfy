/**
 How an export ends, told from the baseline, the source and the job: when it is
 refused and why, when there is nothing to publish, and that what is published
 does not cut the baseline off.
 */
module LakeOutcomes {
  import opened Wrappers
  import opened Manifest
  import opened Reconcile
  import opened Lake
  import opened LakeProofs
  import opened LakeEquality

  ghost function KeysBelow(source: seq<Cell>, end: int): set<Key> {
    set k | k in KeysOf(source) && k.day < end
  }

  /** Some partition of the baseline is dated at or past the window end. */
  ghost predicate Truncates(baseline: Partitions, end: int) {
    exists k :: k in baseline && k.day >= end
  }

  lemma TruncatesExactly(baseline: Partitions, end: int)
    requires baseline != map[]
    ensures LastDay(baseline) >= end <==> Truncates(baseline, end)
  {
    var last := LastDayIsLast(baseline);
    assert last in baseline;
    if k :| k in baseline && k.day >= end {
      assert k in baseline.Keys;
    }
  }

  lemma SameSize(p: Partitions, view: map<Key, Stats>, keys: set<Key>)
    requires StatsView(p) == view && view.Keys == keys
    ensures |p| == |keys| && (p == map[] <==> keys == {})
  {
    assert StatsView(p).Keys == p.Keys;
    assert |p| == |p.Keys|;
  }

  /** Whether there is a reason to refuse a full rebuild with the keys, and which. */
  ghost predicate IsRefusal(r: Option<Refusal>, baseline: Partitions, keys: set<Key>, end: int, allowShrink: bool) {
    if baseline != map[] && Truncates(baseline, end) then r == Some(WindowTruncates)
    else if baseline != map[] && !allowShrink && keys == {} then r == Some(BecameEmpty)
    else if baseline != map[] && !allowShrink && |keys| * 2 < |baseline| then r == Some(ShrankTooFar)
    else r == None
  }

  /** What the guard says of partitions that hold a full rebuild's content. */
  lemma GuardExactly(spec: Spec, baseline: Partitions, current: Partitions, source: seq<Cell>, end: int,
                     allowShrink: bool)
    requires GoodSource(spec, source) && StatsView(current) == Below(spec, source, end)
    ensures IsRefusal(FullShrinkRefusal(baseline, current, end, allowShrink), baseline, KeysBelow(source, end), end,
                      allowShrink)
  {
    SameSize(current, Below(spec, source, end), KeysBelow(source, end));
    if baseline != map[] {
      TruncatesExactly(baseline, end);
    }
  }

  /** Guard, comparison, and the writes left decide how an export ends that has produced its files. */
  function Ending(job: Job, baseline: Option<DatasetVersion>, m: DatasetVersion, refusal: Option<Refusal>,
                  left: nat): Outcome {
    if refusal.Some? then Refused(refusal.value)
    else if !ContentChanged(baseline, m) then NoOp
    else if left == 0 then Killed
    else Published(m.version)
  }

  function Guard(job: Job, baseline: Option<DatasetVersion>, m: DatasetVersion): Option<Refusal> {
    if job.mode == Full then FullShrinkRefusal(PartitionsOf(baseline), m.partitions, job.end, job.allowShrink) else None
  }

  lemma EndingIs(disk: Disk, files: map<Path, FileBytes>, job: Job, baseline: Option<DatasetVersion>,
                 m: DatasetVersion, left: nat)
    ensures Finish(disk, files, job, baseline, m, left).1 == Ending(job, baseline, m, Guard(job, baseline, m), left)
  {
  }

  lemma EndedByCases(spec: Spec, disk: Disk, job: Job, baseline: Option<DatasetVersion>, p: Production,
                     m: DatasetVersion)
    requires GoodSource(spec, job.source) && |p.entries| == |p.written|
    requires UsableBaseline(disk.files, ListVersions(disk.manifests), job.mode == Full) == Ok(baseline)
    requires p == ProduceAll(spec, disk, job, baseline) && m == Compose(spec, disk, job, baseline, p)
    ensures Export(spec, disk, job).1
            == if WindowEmpty(job, baseline) then NoOp
               else if p.killed || !FreshAreReadable(spec, p.files, p.entries, p.written) then Killed
               else Ending(job, baseline, m, Guard(job, baseline, m), p.left)
  {
    ExportByCases(spec, disk, job, baseline, p, m);
    EndingIs(disk, p.files, job, baseline, m, p.left);
  }

  /** How the export ends, and what is known of the version it has put together. */
  lemma Ended(spec: Spec, disk: Disk, job: Job, outcome: Outcome)
    returns (baseline: Option<DatasetVersion>, m: DatasetVersion, dead: bool, left: nat)
    requires GoodSource(spec, job.source) && DiskSound(spec, disk) && outcome == Export(spec, disk, job).1
    ensures baseline == BaselineOf(disk)
    ensures m == Compose(spec, disk, job, baseline, ProduceAll(spec, disk, job, baseline))
    ensures outcome == if WindowEmpty(job, baseline) then NoOp
                       else if dead then Killed
                       else Ending(job, baseline, m, Guard(job, baseline, m), left)
    ensures m.valueDigest == ValueDigest(m.partitions)
    ensures baseline.Some? ==> baseline.value.valueDigest == ValueDigest(baseline.value.partitions)
    ensures !dead && job.mode == Full ==> StatsView(m.partitions) == Below(spec, job.source, job.end)
  {
    var p;
    baseline, p := JobProduction(spec, disk, job);
    BaselineOfJob(spec, disk, job.mode == Full);
    m := Compose(spec, disk, job, baseline, p);
    dead, left := p.killed || !FreshAreReadable(spec, p.files, p.entries, p.written), p.left;
    EndedByCases(spec, disk, job, baseline, p, m);
    ComposedDigest(spec, disk, job, baseline, p);
    if !p.killed && job.mode == Full {
      ComposedContent(spec, disk, job, baseline, p);
    }
  }

  /**
   A full export that is not killed is refused exactly if there is a baseline
   with partitions, and the window end cuts some of them off, or the shrink is
   not confirmed and the source has nothing, or fewer than half as many cells,
   below the window end.
   */
  lemma RefusedExactly(spec: Spec, disk: Disk, job: Job, outcome: Outcome)
    requires GoodSource(spec, job.source) && DiskSound(spec, disk) && job.mode == Full
    requires outcome == Export(spec, disk, job).1 && !outcome.Killed?
    ensures var (b, keys) := (PartitionsOf(BaselineOf(disk)), KeysBelow(job.source, job.end));
            IsRefusal(if outcome.Refused? then Some(outcome.refusal) else None, b, keys, job.end, job.allowShrink)
  {
    var baseline, m, dead, left := Ended(spec, disk, job, outcome);
    if !dead {
      GuardExactly(spec, PartitionsOf(baseline), m.partitions, job.source, job.end, job.allowShrink);
    }
    RefusedAsSaid(job, baseline, m, left, outcome, KeysBelow(job.source, job.end));
  }

  lemma RefusedAsSaid(job: Job, baseline: Option<DatasetVersion>, m: DatasetVersion, left: nat, outcome: Outcome,
                      keys: set<Key>)
    requires job.mode == Full && !outcome.Killed?
    requires outcome == if WindowEmpty(job, baseline) then NoOp
                        else Ending(job, baseline, m, Guard(job, baseline, m), left)
    requires IsRefusal(Guard(job, baseline, m), PartitionsOf(baseline), keys, job.end, job.allowShrink)
             || WindowEmpty(job, baseline)
    ensures IsRefusal(if outcome.Refused? then Some(outcome.refusal) else None, PartitionsOf(baseline), keys, job.end,
                      job.allowShrink)
  {
  }

  /** On a sound disk nothing else is refused. */
  lemma IncrementalIsNotRefused(spec: Spec, disk: Disk, job: Job)
    requires GoodSource(spec, job.source) && DiskSound(spec, disk) && job.mode == Incremental
    ensures !Export(spec, disk, job).1.Refused?
  {
    var baseline, m, dead, left := Ended(spec, disk, job, Export(spec, disk, job).1);
  }

  /** Whatever a full export publishes, confirmed or not, the baseline's days all lie in its window. */
  lemma FullKeepsTheWindow(spec: Spec, disk: Disk, job: Job, k: Key)
    requires GoodSource(spec, job.source) && DiskSound(spec, disk) && job.mode == Full
    requires Export(spec, disk, job).1.Published? && k in PartitionsOf(BaselineOf(disk))
    ensures k.day < job.end
  {
    RefusedExactly(spec, disk, job, Export(spec, disk, job).1);
  }

  /** The baseline says what the source and the metadata say, and no day is left to look at. */
  ghost predicate Idle(job: Job, baseline: DatasetVersion) {
    && baseline.metadata == job.metadata
    && if baseline.partitions == map[] then KeysBelow(job.source, job.end) == {}
       else job.mode == Incremental && exists k :: k in baseline.partitions && k.day >= job.end - 1
  }

  lemma {:induction false} FirstDayIsThere(source: seq<Cell>) returns (k: Key)
    requires source != []
    ensures k in KeysOf(source) && k.day == FirstDay(source)
  {
    k := source[0].key;
    if |source| > 1 && FirstDay(source[1..]) < k.day {
      k := FirstDayIsThere(source[1..]);
      var i :| 0 <= i < |source[1..]| && source[1..][i].key == k;
      assert source[i + 1].key == k;
    }
  }

  lemma IdleExactly(job: Job, baseline: Option<DatasetVersion>)
    ensures WindowEmpty(job, baseline) <==> baseline.Some? && Idle(job, baseline.value)
  {
    var b := PartitionsOf(baseline);
    if b != map[] {
      var last := LastDayIsLast(b);
      assert last in b;
      if k :| k in b && k.day >= job.end - 1 {
        assert k in b.Keys;
      }
    }
    FirstDayIsFirst(job.source);
    if job.source != [] {
      var first := FirstDayIsThere(job.source);
      assert first.day < job.end ==> first in KeysBelow(job.source, job.end);
    }
    if k :| k in KeysOf(job.source) && k.day < job.end {
      assert k in KeysBelow(job.source, job.end);
    }
  }

  /** Content, ledger and metadata of the two are the same, and every fresh file has reconciled. */
  ghost predicate SaysTheSame(m: DatasetVersion, baseline: DatasetVersion) {
    && m.status.Valid? && StatsView(m.partitions) == StatsView(baseline.partitions)
    && m.skipped == baseline.skipped && m.metadata == baseline.metadata
  }

  /**
   An export that is neither killed nor refused publishes nothing exactly if
   there is a baseline, and either no day is left to look at or the version put
   together says what the baseline says.
   */
  lemma NoOpExactly(spec: Spec, disk: Disk, job: Job, outcome: Outcome)
    requires GoodSource(spec, job.source) && DiskSound(spec, disk)
    requires outcome == Export(spec, disk, job).1 && !outcome.Killed? && !outcome.Refused?
    ensures var baseline := BaselineOf(disk);
            var m := Compose(spec, disk, job, baseline, ProduceAll(spec, disk, job, baseline));
            outcome.NoOp? <==> baseline.Some? && (Idle(job, baseline.value) || SaysTheSame(m, baseline.value))
  {
    var baseline, m, dead, left := Ended(spec, disk, job, outcome);
    NoOpAsSaid(job, baseline, m, left, outcome);
  }

  lemma NoOpAsSaid(job: Job, baseline: Option<DatasetVersion>, m: DatasetVersion, left: nat, outcome: Outcome)
    requires !outcome.Killed? && !outcome.Refused? && m.valueDigest == ValueDigest(m.partitions)
    requires baseline.Some? ==> baseline.value.valueDigest == ValueDigest(baseline.value.partitions)
    requires outcome == if WindowEmpty(job, baseline) then NoOp
                        else Ending(job, baseline, m, Guard(job, baseline, m), left)
    ensures outcome.NoOp? <==> baseline.Some? && (Idle(job, baseline.value) || SaysTheSame(m, baseline.value))
  {
    IdleExactly(job, baseline);
    if baseline.Some? {
      ValueDigestExact(m.partitions, baseline.value.partitions);
    }
  }
}
