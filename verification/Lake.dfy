/**
 One export of one dataset into the versioned lake, as a function of the lake
 on disk and the job. The job carries the source snapshot and all that the
 environment decides: the day, the metadata, as what a freshly written file
 reads back, and after how many writes the process dies.
 */
module Lake {
  import opened Wrappers
  import opened Encoding
  import opened Digest
  import opened Reconcile
  import opened Manifest
  import opened Versions
  import Sorting

  /** Projection and event column of the dataset, and whether it is partitioned by pair. */
  datatype Spec = Spec(projection: seq<LogicalType>, event: nat, pairPartitioned: bool)

  /** The source rows of one logical partition, in one snapshot. */
  datatype Cell = Cell(key: Key, rows: seq<Row>)

  datatype Mode = Incremental | Full
  datatype Status = Valid | Invalid

  datatype DatasetVersion = DatasetVersion(
    version: Version,
    status: Status,
    partitions: Partitions,
    skipped: set<Key>,
    metadata: nat,
    valueDigest: ValueHash)

  /** `manifests` in the order of publication. */
  datatype Disk = Disk(files: map<Path, FileBytes>, manifests: seq<DatasetVersion>)

  /** A process as it writes files: those of the keys in `misread` read back as these rows, others as written. */
  datatype Writer = Writer(id: nat, misread: map<Key, seq<Row>>)

  datatype Job = Job(
    mode: Mode,
    source: seq<Cell>,
    end: int,
    today: Day,
    metadata: nat,
    allowShrink: bool,
    writer: Writer,
    writes: nat,
    reclaimed: Option<set<Path>>)  // the orphans a dying cleanup gets to delete

  datatype Refusal = BaselineDamaged | WindowTruncates | BecameEmpty | ShrankTooFar
  datatype Outcome = Published(version: Version) | NoOp | Refused(refusal: Refusal) | Killed

  // ---- source cells ------------------------------------------------

  predicate GoodRows(spec: Spec, rows: seq<Row>) {
    rows != [] && spec.projection != [] && Encodable(rows, spec.projection) && HasEventTimes(rows, spec.event)
  }

  function CellStats(spec: Spec, rows: seq<Row>): Stats
    requires GoodRows(spec, rows)
  {
    ReconcileExact(rows, rows, spec.projection, spec.event);
    StatsOf(rows, spec.projection, spec.event).value
  }

  predicate GoodCells(spec: Spec, cells: seq<Cell>) {
    forall i :: 0 <= i < |cells| ==> GoodRows(spec, cells[i].rows)
  }

  predicate GoodSource(spec: Spec, source: seq<Cell>) {
    && GoodCells(spec, source)
    && (forall i :: 0 <= i < |source| && !spec.pairPartitioned ==> source[i].key.dim == 0)
    && (forall i, j :: 0 <= i < j < |source| ==> source[i].key != source[j].key)
  }

  function CellsIn(source: seq<Cell>, start: int, end: int): seq<Cell> {
    if source == [] then []
    else if start <= source[0].key.day < end then [source[0]] + CellsIn(source[1..], start, end)
    else CellsIn(source[1..], start, end)
  }

  function FirstDay(source: seq<Cell>): int
    requires source != []
  {
    if |source| == 1 then source[0].key.day
    else
      var rest := FirstDay(source[1..]);
      if source[0].key.day <= rest then source[0].key.day else rest
  }

  // ---- baseline and window -----------------------------------------

  predicate VersionFileLe(a: DatasetVersion, b: DatasetVersion) {
    VersionLe(a.version, b.version)
  }

  function ListVersions(manifests: seq<DatasetVersion>): seq<DatasetVersion> {
    Sorting.Sort(VersionFileLe, manifests)
  }

  /** Every listed file is there with the recorded hash, and the value digest recomputes. */
  predicate Intact(files: map<Path, FileBytes>, m: DatasetVersion) {
    && (forall k :: k in m.partitions ==>
          m.partitions[k].path in files && FileSha(files[m.partitions[k].path]) == m.partitions[k].sha)
    && m.valueDigest == ValueDigest(m.partitions)
  }

  /** The latest valid version; a damaged one is passed over in full mode only. */
  function UsableBaseline(files: map<Path, FileBytes>, listing: seq<DatasetVersion>,
                          allowFallback: bool): Result<Option<DatasetVersion>, Refusal> {
    if listing == [] then Ok(None)
    else
      var m := listing[|listing| - 1];
      if m.status.Valid? && Intact(files, m) then Ok(Some(m))
      else if m.status.Valid? && !allowFallback then Err(BaselineDamaged)
      else UsableBaseline(files, listing[..|listing| - 1], allowFallback)
  }

  function PartitionsOf(baseline: Option<DatasetVersion>): Partitions {
    if baseline.Some? then baseline.value.partitions else map[]
  }

  function SkippedOf(baseline: Option<DatasetVersion>): set<Key> {
    if baseline.Some? then baseline.value.skipped else {}
  }

  /** The day of the last partition in key order. */
  function LastDay(p: Partitions): int
    requires p != map[]
  {
    var k :| k in p;
    assert k in p.Keys;
    var keys := Ascending(p.Keys);
    keys[|keys| - 1].day
  }

  lemma LastDayIsLast(p: Partitions) returns (last: Key)
    requires p != map[]
    ensures last in p.Keys && last.day == LastDay(p)
    ensures forall k :: k in p.Keys ==> k.day <= last.day
  {
    var some :| some in p.Keys;
    var keys := Ascending(p.Keys);
    assert some in keys;
    last := keys[|keys| - 1];
    assert last in keys;
    forall k | k in p.Keys ensures k.day <= last.day {
      assert k in keys;
      var i :| 0 <= i < |keys| && keys[i] == k;
      if i < |keys| - 1 { AscendingIsStrict(p.Keys, i, |keys| - 1); }
    }
  }

  function WindowStart(mode: Mode, source: seq<Cell>, end: int, baseline: Partitions): int {
    if mode == Incremental && baseline != map[] then LastDay(baseline) + 1
    else if source != [] then FirstDay(source) else end
  }

  // ---- partition files ---------------------------------------------

  predicate IsTopRevision(r: nat, paths: set<Path>, key: Key) {
    && (forall p :: p in paths && p.key == key ==> p.revision <= r)
    && (r == 0 || Path(key, r) in paths)
  }

  lemma {:induction false} TopRevisionExists(paths: set<Path>, key: Key)
    ensures exists r: nat :: IsTopRevision(r, paths, key)
    decreases |paths|
  {
    if paths == {} {
      assert IsTopRevision(0, paths, key);
    } else {
      var p :| p in paths;
      TopRevisionExists(paths - {p}, key);
      var r: nat :| IsTopRevision(r, paths - {p}, key);
      var top: nat := if p.key == key && p.revision > r then p.revision else r;
      assert forall q :: q in paths ==> q == p || q in paths - {p};
      assert p.key == key ==> p == Path(key, p.revision);
      assert IsTopRevision(top, paths, key);
    }
  }

  /** The highest revision on disk for a key, zero if there is none. */
  function TopRevision(paths: set<Path>, key: Key): (r: nat)
    ensures IsTopRevision(r, paths, key)
  {
    TopRevisionExists(paths, key);
    var r: nat :| IsTopRevision(r, paths, key);
    r
  }

  datatype Production = Production(
    files: map<Path, FileBytes>,
    entries: seq<Entry>,
    written: seq<bool>,
    left: nat,
    killed: bool)

  /** What the file that is written for a cell reads back as. */
  function Saved(writer: Writer, cell: Cell): seq<Row> {
    if cell.key in writer.misread then writer.misread[cell.key] else cell.rows
  }

  /** Reuses the baseline's file if its row digest is the cell's, else writes the next revision. */
  function ProduceOne(spec: Spec, p: Production, cell: Cell, baseline: Partitions, writer: Writer): Production
    requires GoodRows(spec, cell.rows)
  {
    var stats := CellStats(spec, cell.rows);
    if p.killed then p
    else if cell.key in baseline && baseline[cell.key].stats.digest == stats.digest then
      p.(entries := p.entries + [baseline[cell.key]], written := p.written + [false])
    else if p.left == 0 then p.(killed := true)
    else
      var path := Path(cell.key, TopRevision(p.files.Keys, cell.key) + 1);
      var bytes := FileBytes(Saved(writer, cell), writer.id);
      p.(files := p.files[path := bytes],
         entries := p.entries + [Entry(cell.key, path, stats, FileSha(bytes))],
         written := p.written + [true],
         left := p.left - 1)
  }

  function Produce(spec: Spec, p: Production, cells: seq<Cell>, baseline: Partitions, writer: Writer): Production
    requires GoodCells(spec, cells)
  {
    if cells == [] then p
    else ProduceOne(spec, Produce(spec, p, cells[..|cells| - 1], baseline, writer), cells[|cells| - 1], baseline,
                    writer)
  }

  /** The statistics of these rows can be taken. */
  predicate Readable(spec: Spec, rows: seq<Row>) {
    HasEventTimes(rows, spec.event) && StatsOf(rows, spec.projection, spec.event).Ok?
  }

  /** All three verdicts on the file's rows are ok. */
  predicate Reconciles(spec: Spec, source: Stats, rows: seq<Row>) {
    && Readable(spec, rows)
    && Compare(source, StatsOf(rows, spec.projection, spec.event).value) == Verdict(true, true, true)
  }

  predicate FreshAreReadable(spec: Spec, files: map<Path, FileBytes>, entries: seq<Entry>, written: seq<bool>)
    requires |entries| == |written|
  {
    forall i :: 0 <= i < |entries| && written[i] ==> entries[i].path in files && Readable(spec,
                                                                                          files[entries[i].path].rows)
  }

  /** Keys of the freshly written files that are read again and do not reconcile; the others are not read. */
  function Failures(spec: Spec, files: map<Path, FileBytes>, entries: seq<Entry>, written: seq<bool>): set<Key>
    requires |entries| == |written|
  {
    set i | 0 <= i < |entries| && written[i] && !ReconcilesOnDisk(spec, files, entries[i]) :: entries[i].key
  }

  predicate ReconcilesOnDisk(spec: Spec, files: map<Path, FileBytes>, e: Entry) {
    e.path in files && Reconciles(spec, e.stats, files[e.path].rows)
  }

  // ---- the gap ledger ----------------------------------------------

  function DimsOf(keys: set<Key>): set<nat> {
    set k | k in keys :: k.dim
  }

  /** The day lies between the first and the last day the dimension has a partition for. */
  predicate Spanned(keys: set<Key>, dim: nat, day: int) {
    && (exists k :: k in keys && k.dim == dim && k.day <= day)
    && (exists k :: k in keys && k.dim == dim && day <= k.day)
  }

  function EmptyCells(spec: Spec, mode: Mode, produced: set<Key>, start: int, end: int,
                      baseline: Option<DatasetVersion>): set<Key> {
    if mode == Full && (spec.pairPartitioned || produced != {}) then
      set dim, day |
        && dim in DimsOf(produced) && start <= day < end
        && Spanned(produced, dim, day) && Key(day, dim) !in produced ::
        Key(day, dim)
    else
      var dims := if spec.pairPartitioned
                  then DimsOf(produced) + DimsOf(PartitionsOf(baseline).Keys) + DimsOf(SkippedOf(baseline)) else {0};
      set dim, day | dim in dims && start <= day < end && Key(day, dim) !in produced :: Key(day, dim)
  }

  /** Cells covered this time follow this time's result, the others are inherited. */
  function SynthesizeSkipped(baseline: set<Key>, produced: set<Key>, empty: set<Key>): set<Key> {
    (baseline - (produced + empty)) + empty
  }

  // ---- guard and export --------------------------------------------

  function FullShrinkRefusal(baseline: Partitions, current: Partitions, end: int, allowShrink: bool): Option<Refusal> {
    if baseline == map[] then None
    else if LastDay(baseline) >= end then Some(WindowTruncates)
    else if allowShrink then None
    else if current == map[] then Some(BecameEmpty)
    else if |current| * 2 < |baseline| then Some(ShrankTooFar)
    else None
  }

  function RevisionsOn(manifests: seq<DatasetVersion>, day: Day): (r: nat)
    ensures forall i :: 0 <= i < |manifests| && manifests[i].version.day == day ==> manifests[i].version.revision <= r
  {
    if manifests == [] then 0
    else
      var rest := RevisionsOn(manifests[..|manifests| - 1], day);
      var v := manifests[|manifests| - 1].version;
      if v.day == day && v.revision > rest then v.revision else rest
  }

  function NextVersion(manifests: seq<DatasetVersion>, day: Day): Version {
    Version(day, RevisionsOn(manifests, day) + 1)
  }

  function Referenced(manifests: seq<DatasetVersion>): set<Path> {
    set i, k | 0 <= i < |manifests| && k in manifests[i].partitions :: manifests[i].partitions[k].path
  }

  /** Deletes the files no manifest mentions, or some of them if the process dies on the way. */
  function CleanUp(files: map<Path, FileBytes>, manifests: seq<DatasetVersion>,
                   reclaimed: Option<set<Path>>): map<Path, FileBytes> {
    files - Doomed(files.Keys - Referenced(manifests), reclaimed)
  }

  function Doomed(orphans: set<Path>, reclaimed: Option<set<Path>>): set<Path> {
    if reclaimed.Some? then orphans * reclaimed.value else orphans
  }

  /** What this export would publish, from the baseline, the window and the production. */
  function Compose(spec: Spec, disk: Disk, job: Job, baseline: Option<DatasetVersion>, p: Production): DatasetVersion
    requires |p.entries| == |p.written|
  {
    var start := WindowStart(job.mode, job.source, job.end, PartitionsOf(baseline));
    var produced := AsMap(p.entries).Keys;
    var inherited := if job.mode == Incremental then PartitionsOf(baseline) else map[];
    var merged := inherited + AsMap(p.entries);
    DatasetVersion(
      NextVersion(disk.manifests, job.today),
      if Failures(spec, p.files, p.entries, p.written) != {} then Invalid else Valid,
      merged,
      SynthesizeSkipped(if job.mode == Incremental then SkippedOf(baseline) else {}, produced,
                        EmptyCells(spec, job.mode, produced, start, job.end, baseline)),
      job.metadata,
      ValueDigest(merged))
  }

  predicate ContentChanged(baseline: Option<DatasetVersion>, m: DatasetVersion) {
    baseline.Some? ==>
      m.status.Invalid? || m.valueDigest != baseline.value.valueDigest || m.skipped != baseline.value.skipped
      || m.metadata != baseline.value.metadata
  }

  predicate WindowEmpty(job: Job, baseline: Option<DatasetVersion>) {
    && WindowStart(job.mode, job.source, job.end, PartitionsOf(baseline)) >= job.end
    && baseline.Some? && baseline.value.metadata == job.metadata
    && !(job.mode == Full && PartitionsOf(baseline) != map[])
  }

  function Finish(disk: Disk, files: map<Path, FileBytes>, job: Job, baseline: Option<DatasetVersion>,
                  m: DatasetVersion, left: nat): (Disk, Outcome) {
    var refusal :=
      if job.mode == Full then FullShrinkRefusal(PartitionsOf(baseline), m.partitions, job.end, job.allowShrink)
      else None;
    if refusal.Some? then (Disk(files, disk.manifests), Refused(refusal.value))
    else if !ContentChanged(baseline, m) then (Disk(files, disk.manifests), NoOp)
    else if left == 0 then (Disk(files, disk.manifests), Killed)
    else
      var manifests := disk.manifests + [m];
      (Disk(if job.mode == Full then CleanUp(files, manifests, job.reclaimed) else files, manifests),
       Published(m.version))
  }

  function WindowCells(spec: Spec, job: Job, baseline: Option<DatasetVersion>): (cells: seq<Cell>)
    requires GoodSource(spec, job.source)
    ensures GoodCells(spec, cells)
  {
    var start := WindowStart(job.mode, job.source, job.end, PartitionsOf(baseline));
    GoodCellsIn(spec, job.source, start, job.end);
    CellsIn(job.source, start, job.end)
  }

  function ProduceAll(spec: Spec, disk: Disk, job: Job, baseline: Option<DatasetVersion>): (p: Production)
    requires GoodSource(spec, job.source)
    ensures |p.entries| == |p.written|
  {
    var nothing := Production(disk.files, [], [], job.writes, false);
    ProduceLengths(spec, nothing, WindowCells(spec, job, baseline), PartitionsOf(baseline), job.writer);
    Produce(spec, nothing, WindowCells(spec, job, baseline), PartitionsOf(baseline), job.writer)
  }

  function Export(spec: Spec, disk: Disk, job: Job): (Disk, Outcome)
    requires GoodSource(spec, job.source)
  {
    match UsableBaseline(disk.files, ListVersions(disk.manifests), job.mode == Full)
    case Err(e) => (disk, Refused(e))
    case Ok(baseline) =>
      if WindowEmpty(job, baseline) then (disk, NoOp)
      else
        var p := ProduceAll(spec, disk, job, baseline);
        // a fresh file that cannot be read raises, which like a death leaves files and no manifest
        if p.killed || !FreshAreReadable(spec, p.files, p.entries, p.written) then
          (Disk(p.files, disk.manifests), Killed)
        else Finish(disk, p.files, job, baseline, Compose(spec, disk, job, baseline, p), p.left)
  }

  lemma {:induction false} GoodCellsIn(spec: Spec, source: seq<Cell>, start: int, end: int)
    requires GoodSource(spec, source)
    ensures GoodCells(spec, CellsIn(source, start, end))
  {
    if source != [] {
      GoodCellsIn(spec, source[1..], start, end);
    }
  }

  lemma {:induction false} ProduceLengths(spec: Spec, p: Production, cells: seq<Cell>, baseline: Partitions,
                                          writer: Writer)
    requires GoodCells(spec, cells)
    requires |p.entries| == |p.written|
    ensures var r := Produce(spec, p, cells, baseline, writer); |r.entries| == |r.written|
  {
    if cells != [] {
      ProduceLengths(spec, p, cells[..|cells| - 1], baseline, writer);
    }
  }
}
