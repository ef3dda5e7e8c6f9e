/**
 Reconciliation of one partition: both sides go through the same statistics,
 and the three verdicts of a comparison turn out to be one.
 */
module Reconcile {
  import opened Wrappers
  import opened Encoding
  import opened Digest

  /** `bounds` is empty for a partition without rows. */
  datatype Stats = Stats(rows: nat, bounds: Option<(int, int)>, digest: Hash)

  datatype Verdict = Verdict(rows: bool, timeBounds: bool, rowDigest: bool)

  /** Every row carries a non-null instant in the event column. */
  predicate HasEventTimes(rows: seq<Row>, event: nat) {
    forall i :: 0 <= i < |rows| ==> event < |rows[i]| && rows[i][event].Instant?
  }

  function EventTime(row: Row, event: nat): int
    requires event < |row| && row[event].Instant?
  {
    row[event].micros
  }

  function Earliest(rows: seq<Row>, event: nat): (t: int)
    requires rows != [] && HasEventTimes(rows, event)
    ensures exists i :: 0 <= i < |rows| && EventTime(rows[i], event) == t
    ensures forall i :: 0 <= i < |rows| ==> t <= EventTime(rows[i], event)
  {
    if |rows| == 1 then EventTime(rows[0], event)
    else
      var rest := Earliest(rows[1..], event);
      if EventTime(rows[0], event) <= rest then EventTime(rows[0], event) else rest
  }

  function Latest(rows: seq<Row>, event: nat): (t: int)
    requires rows != [] && HasEventTimes(rows, event)
    ensures exists i :: 0 <= i < |rows| && EventTime(rows[i], event) == t
    ensures forall i :: 0 <= i < |rows| ==> EventTime(rows[i], event) <= t
  {
    if |rows| == 1 then EventTime(rows[0], event)
    else
      var rest := Latest(rows[1..], event);
      if EventTime(rows[0], event) >= rest then EventTime(rows[0], event) else rest
  }

  function StatsOf(rows: seq<Row>, projection: seq<LogicalType>, event: nat): Result<Stats, EncodeError>
    requires HasEventTimes(rows, event)
  {
    match DigestOf(rows, projection)
    case Err(e) => Err(e)
    case Ok(digest) =>
      Ok(Stats(|rows|, if rows == [] then None else Some((Earliest(rows, event), Latest(rows, event))), digest))
  }

  function Compare(source: Stats, lake: Stats): Verdict {
    Verdict(source.rows == lake.rows, source.bounds == lake.bounds, source.digest == lake.digest)
  }

  lemma EventTimeTravels(a: seq<Row>, b: seq<Row>, event: nat, i: nat) returns (j: nat)
    requires HasEventTimes(a, event) && HasEventTimes(b, event) && i < |a|
    requires multiset(NormalRows(a)) == multiset(NormalRows(b))
    ensures j < |b| && EventTime(b[j], event) == EventTime(a[i], event)
  {
    assert NormalRows(a)[i] in multiset(NormalRows(b));
    j :| 0 <= j < |b| && NormalRows(b)[j] == NormalRows(a)[i];
    assert NormalRows(b)[j][event] == b[j][event] && NormalRows(a)[i][event] == a[i][event];
  }

  lemma SameBounds(a: seq<Row>, b: seq<Row>, event: nat)
    requires a != [] && b != [] && HasEventTimes(a, event) && HasEventTimes(b, event)
    requires multiset(NormalRows(a)) == multiset(NormalRows(b))
    ensures Earliest(a, event) >= Earliest(b, event) && Latest(a, event) <= Latest(b, event)
  {
    var lo :| 0 <= lo < |a| && EventTime(a[lo], event) == Earliest(a, event);
    var j := EventTimeTravels(a, b, event, lo);
    var hi :| 0 <= hi < |a| && EventTime(a[hi], event) == Latest(a, event);
    var k := EventTimeTravels(a, b, event, hi);
  }

  /** Lists that agree row for row up to order and normal form have the same statistics. */
  lemma SameRowsSameStats(a: seq<Row>, b: seq<Row>, projection: seq<LogicalType>, event: nat)
    requires projection != [] && Encodable(a, projection) && Encodable(b, projection)
    requires HasEventTimes(a, event) && HasEventTimes(b, event)
    requires multiset(NormalRows(a)) == multiset(NormalRows(b))
    ensures StatsOf(a, projection, event) == StatsOf(b, projection, event)
  {
    DigestExact(a, b, projection);
    assert |a| == |multiset(NormalRows(a))| == |multiset(NormalRows(b))| == |b|;
    if a != [] {
      SameBounds(a, b, event);
      SameBounds(b, a, event);
    }
  }

  /**
   Reconciliation is exact: the digests agree if and only if all three verdicts
   do, if and only if the two sides hold the same rows.
   */
  lemma ReconcileExact(source: seq<Row>, lake: seq<Row>, projection: seq<LogicalType>, event: nat)
    requires projection != [] && Encodable(source, projection) && Encodable(lake, projection)
    requires HasEventTimes(source, event) && HasEventTimes(lake, event)
    ensures StatsOf(source, projection, event).Ok? && StatsOf(lake, projection, event).Ok?
    ensures var v := Compare(StatsOf(source, projection, event).value, StatsOf(lake, projection, event).value);
            && (v.rowDigest <==> v == Verdict(true, true, true))
            && (v.rowDigest <==> multiset(NormalRows(source)) == multiset(NormalRows(lake)))
  {
    DigestExact(source, lake, projection);
    if multiset(NormalRows(source)) == multiset(NormalRows(lake)) {
      SameRowsSameStats(source, lake, projection, event);
    }
  }
}
