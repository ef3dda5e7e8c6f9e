/**
 The resumable candle backfill of one exchange pair: one cursor loop per window
 over the pair's candles and its progress rows.

 Instants are milliseconds. The process may be killed at any commit: a run is
 given the number of commits it gets to make. The exchange answers a fetch with
 a contiguous ascending stretch of its history that starts at or before the
 cursor, possibly an empty one, or raises.
 */
module Backfill {
  import opened Wrappers

  const MINUTE: int := 60_000

  datatype Candle = Candle(open: real, high: real, low: real, close: real, volume: real)
  datatype Bar = Bar(time: int, candle: Candle)

  datatype Status = Running | Failed | Stalled | Complete | Unavailable
  datatype Progress = Progress(nextSince: int, status: Status, rows: nat)

  /** The key of a progress row, for the one exchange, pair and timeframe. */
  datatype Window = Window(start: int, end: int)

  /** Configured availability of the pair. */
  datatype Setting = Setting(listing: Option<int>, delisting: Option<int>, unavailable: bool)

  /** One exchange answer: raise, or `count` bars from the first one at or after `cursor - back`. */
  datatype Fetch = Raise | Batch(back: nat, count: nat)

  /** One turn of the loop: whether the time slice is over, and the answers to the attempts. */
  datatype Turn = Turn(stop: bool, attempts: seq<Fetch>)

  /** Not the end of the slice, and answered at once with what comes next. */
  predicate Friendly(turn: Turn) {
    && !turn.stop && |turn.attempts| > 0
    && turn.attempts[0].Batch? && turn.attempts[0].back == 0 && turn.attempts[0].count > 0
  }

  predicate AllFriendly(turns: seq<Turn>) {
    forall i :: 0 <= i < |turns| ==> Friendly(turns[i])
  }

  datatype Outcome =
    | Completed(rows: nat)
    | NothingAvailable
    | DeadlineReached
    | FetchFailed
    | EmptyBatch
    | CursorStuck
    | Killed

  /** The status a run that stops short leaves behind. */
  function Mark(o: Outcome): Status {
    match o
    case FetchFailed => Failed
    case EmptyBatch => Stalled
    case CursorStuck => Stalled
    case _ => Running
  }

  predicate StopsShort(o: Outcome) {
    !o.Completed? && !o.NothingAvailable?
  }

  function Max(a: int, b: int): int { if a >= b then a else b }
  function Min(a: int, b: int): int { if a <= b then a else b }

  // ---- the exchange ------------------------------------------------

  /** Bars in ascending order, a minute or more apart (minute-aligned history is). */
  ghost predicate IsHistory(h: seq<Bar>) {
    forall i, j :: 0 <= i < j < |h| ==> h[i].time + MINUTE <= h[j].time
  }

  lemma Spaced(h: seq<Bar>, a: Bar, b: Bar)
    requires IsHistory(h) && a in h && b in h
    ensures a.time == b.time ==> a == b
    ensures a.time < b.time ==> a.time + MINUTE <= b.time
  {
    var i :| 0 <= i < |h| && h[i] == a;
    var j :| 0 <= j < |h| && h[j] == b;
  }

  function From(h: seq<Bar>, since: int): seq<Bar> {
    if h == [] || h[0].time >= since then h else From(h[1..], since)
  }

  function Take(h: seq<Bar>, count: nat): seq<Bar> {
    if count <= |h| then h[..count] else h
  }

  function Within(h: seq<Bar>, lo: int, hi: int): seq<Bar> {
    if h == [] then []
    else if lo <= h[0].time < hi then [h[0]] + Within(h[1..], lo, hi)
    else Within(h[1..], lo, hi)
  }

  lemma {:induction false} FromIsSuffix(h: seq<Bar>, since: int) returns (k: nat)
    requires IsHistory(h)
    ensures k <= |h| && From(h, since) == h[k..]
    ensures forall i :: 0 <= i < k ==> h[i].time < since
    ensures forall i :: k <= i < |h| ==> h[i].time >= since
  {
    if h == [] || h[0].time >= since {
      k := 0;
    } else {
      var j := FromIsSuffix(h[1..], since);
      k := j + 1;
      assert forall i :: 0 < i < |h| ==> h[i] == h[1..][i - 1];
    }
  }

  lemma {:induction false} WithinMembers(h: seq<Bar>, lo: int, hi: int, b: Bar)
    ensures b in Within(h, lo, hi) <==> b in h && lo <= b.time < hi
  {
    if h != [] {
      WithinMembers(h[1..], lo, hi, b);
    }
  }

  /** Raising the lower bound past a pending bar leaves fewer bars pending. */
  lemma {:induction false} WithinShrinks(h: seq<Bar>, lo: int, lo': int, hi: int)
    requires lo <= lo'
    ensures |Within(h, lo', hi)| <= |Within(h, lo, hi)|
    ensures (exists b :: b in h && lo <= b.time < hi && b.time < lo') ==> |Within(h, lo', hi)| < |Within(h, lo, hi)|
  {
    if h != [] {
      WithinShrinks(h[1..], lo, lo', hi);
    }
  }

  /** Bars on either side of an instant between the bounds make up all between them. */
  lemma {:induction false} WithinSplits(h: seq<Bar>, lo: int, mid: int, hi: int)
    requires lo <= mid <= hi
    ensures |Within(h, lo, hi)| == |Within(h, lo, mid)| + |Within(h, mid, hi)|
  {
    if h != [] {
      WithinSplits(h[1..], lo, mid, hi);
    }
  }

  lemma {:induction false} WithinIsHistory(h: seq<Bar>, lo: int, hi: int)
    requires IsHistory(h)
    ensures IsHistory(Within(h, lo, hi))
  {
    if h != [] {
      WithinIsHistory(h[1..], lo, hi);
      forall b | b in Within(h[1..], lo, hi) ensures h[0].time + MINUTE <= b.time {
        WithinMembers(h[1..], lo, hi, b);
        var i :| 0 <= i < |h[1..]| && h[1..][i] == b;
        assert h[i + 1] == b;
      }
    }
  }

  lemma {:induction false} HistoryIsDistinct(h: seq<Bar>)
    requires IsHistory(h)
    ensures |h| == |set b | b in h|
  {
    if h != [] {
      HistoryIsDistinct(h[1..]);
      assert h[0] !in h[1..];
      assert (set b | b in h) == {h[0]} + set b | b in h[1..];
    }
  }

  /** Ascending lists of the same bars have one length. */
  lemma SameBarsSameLength(a: seq<Bar>, b: seq<Bar>)
    requires IsHistory(a) && IsHistory(b) && forall x :: x in a <==> x in b
    ensures |a| == |b|
  {
    HistoryIsDistinct(a);
    HistoryIsDistinct(b);
    assert (set x | x in a) == (set x | x in b);
  }

  // ---- what a store promises ---------------------------------------

  type Table = map<int, Candle>

  /** Every exchange bar in `[lo, hi)` is in the table. */
  ghost predicate Stored(table: Table, h: seq<Bar>, lo: int, hi: int) {
    forall b :: b in h && lo <= b.time < hi ==> b.time in table && table[b.time] == b.candle
  }

  ghost predicate TableSound(table: Table, h: seq<Bar>) {
    forall t :: t in table ==> Bar(t, table[t]) in h
  }

  /** The table holds exactly the exchange bars in `[lo, hi)`. */
  ghost predicate Exact(table: Table, h: seq<Bar>, lo: int, hi: int) {
    forall t, c :: lo <= t < hi ==> (t in table && table[t] == c <==> Bar(t, c) in h)
  }

  ghost predicate HasBar(h: seq<Bar>, lo: int, hi: int) {
    exists b :: b in h && lo <= b.time < hi
  }

  function Stamped(rows: seq<Bar>): (m: Table) {
    if rows == [] then map[] else Stamped(rows[..|rows| - 1])[rows[|rows| - 1].time := rows[|rows| - 1].candle]
  }

  lemma {:induction false} StampedAt(rows: seq<Bar>, h: seq<Bar>)
    requires IsHistory(h) && forall b :: b in rows ==> b in h
    ensures forall b :: b in rows ==> b.time in Stamped(rows) && Stamped(rows)[b.time] == b.candle
    ensures forall k :: k in Stamped(rows) ==> Bar(k, Stamped(rows)[k]) in rows
  {
    if rows != [] {
      var front, last := rows[..|rows| - 1], rows[|rows| - 1];
      StampedAt(front, h);
      forall b | b in front && b.time == last.time ensures b == last {
        Spaced(h, b, last);
      }
      assert rows == front + [last];
    }
  }

  /** A contiguous stretch that starts at or before the cursor leaves out no bar up to its last one. */
  lemma StretchCovers(h: seq<Bar>, since: int, back: nat, count: nat, b: Bar, last: Bar)
    requires IsHistory(h) && b in h && since <= b.time <= last.time
    requires last in Take(From(h, since - back), count)
    ensures b in Take(From(h, since - back), count)
  {
    var k := FromIsSuffix(h, since - back);
    var m := TakenAt(h, k, count, last);
    var i :| 0 <= i < |h| && h[i] == b;
    assert k <= i <= k + m;
    assert Take(h[k..], count)[i - k] == b;
  }

  lemma TakenAt(h: seq<Bar>, k: nat, count: nat, b: Bar) returns (m: nat)
    requires k <= |h| && b in Take(h[k..], count)
    ensures m < |Take(h[k..], count)| && k + m < |h| && h[k + m] == b
  {
    m :| 0 <= m < |Take(h[k..], count)| && Take(h[k..], count)[m] == b;
  }

  lemma StretchMembers(h: seq<Bar>, since: int, count: nat, b: Bar)
    requires IsHistory(h) && b in Take(From(h, since), count)
    ensures b in h
  {
    var k := FromIsSuffix(h, since);
  }

  /** The stretch of history with which the exchange answered. */
  function Answer(h: seq<Bar>, cursor: int, fetch: Fetch): seq<Bar>
    requires fetch.Batch?
  {
    Take(From(h, cursor - fetch.back), fetch.count)
  }

  /** The answer that ends the attempts: within the allowed ones, all before it having raised. */
  predicate IsFirstAnswer(attempts: seq<Fetch>, retries: nat, k: nat) {
    k < |attempts| && k < retries && attempts[k].Batch? && forall i :: 0 <= i < k ==> attempts[i].Raise?
  }

  /** The rows are available exchange bars and leave out none between the cursor and the last of them. */
  ghost predicate NoGap(h: seq<Bar>, since: int, rows: seq<Bar>, lo: int, hi: int) {
    && (forall b :: b in rows ==> b in h && lo <= b.time < hi)
    && (rows != [] ==>
          forall b :: b in h && since <= b.time < hi && b.time < rows[|rows| - 1].time + MINUTE ==> b in rows)
  }

  /** What the loop knows about the rows it keeps: they are exchange bars, with no gap after the cursor. */
  lemma BatchCovers(h: seq<Bar>, since: int, back: nat, count: nat, lo: int, hi: int)
    requires IsHistory(h) && lo <= since
    ensures NoGap(h, since, Within(Take(From(h, since - back), count), lo, hi), lo, hi)
  {
    var batch := Take(From(h, since - back), count);
    var rows := Within(batch, lo, hi);
    forall b | b in rows ensures b in h && lo <= b.time < hi {
      WithinMembers(batch, lo, hi, b);
      StretchMembers(h, since - back, count, b);
    }
    if rows != [] {
      var last := rows[|rows| - 1];
      WithinMembers(batch, lo, hi, last);
      forall b | b in h && since <= b.time < hi && b.time < last.time + MINUTE ensures b in rows {
        Spaced(h, last, b);
        StretchCovers(h, since, back, count, b, last);
        WithinMembers(batch, lo, hi, b);
      }
    }
  }

  /** The first bar at or after the cursor is the first pending one, if any is pending. */
  lemma FirstPending(h: seq<Bar>, since: int, hi: int) returns (k: nat)
    requires IsHistory(h) && HasBar(h, since, hi)
    ensures k < |h| && From(h, since) == h[k..] && since <= h[k].time < hi
  {
    k := FromIsSuffix(h, since);
    var b :| b in h && since <= b.time < hi;
    var i :| 0 <= i < |h| && h[i] == b;
  }

  /** A cooperative answer to a cursor with a pending bar is not empty and starts at the cursor. */
  lemma CooperativeBatch(h: seq<Bar>, since: int, count: nat, lo: int, hi: int)
    requires IsHistory(h) && lo <= since && count > 0 && HasBar(h, since, hi)
    ensures var rows := Within(Take(From(h, since), count), lo, hi); rows != [] && rows[|rows| - 1].time >= since
  {
    var k := FirstPending(h, since, hi);
    var batch := Take(h[k..], count);
    assert batch[0] == h[k];
    var rows := Within(batch, lo, hi);
    WithinMembers(batch, lo, hi, h[k]);
    WithinMembers(batch, lo, hi, rows[|rows| - 1]);
    TakenIsNotEarlier(h, k, count, rows[|rows| - 1]);
  }

  lemma TakenIsNotEarlier(h: seq<Bar>, k: nat, count: nat, b: Bar)
    requires IsHistory(h) && k < |h| && b in Take(h[k..], count)
    ensures b.time >= h[k].time
  {
    var m := TakenAt(h, k, count, b);
  }

  /** A cooperative answer to a cursor without a pending bar has no row that counts. */
  lemma NothingPending(h: seq<Bar>, since: int, count: nat, lo: int, hi: int)
    requires IsHistory(h) && !HasBar(h, since, hi)
    ensures Within(Take(From(h, since), count), lo, hi) == []
  {
    var rows := Within(Take(From(h, since), count), lo, hi);
    if rows != [] {
      var k := FromIsSuffix(h, since);
      WithinMembers(Take(h[k..], count), lo, hi, rows[0]);
      StretchMembers(h, since, count, rows[0]);
    }
  }

  /** Rows from the cursor on without a gap are as many as the bars pending before the cursor's next place. */
  lemma RowsAreCounted(h: seq<Bar>, since: int, rows: seq<Bar>, lo: int, hi: int)
    requires IsHistory(h) && IsHistory(rows) && NoGap(h, since, rows, lo, hi)
    requires rows != [] && forall b :: b in rows ==> since <= b.time
    ensures var next := rows[|rows| - 1].time + MINUTE;
            |rows| + |Within(h, next, hi)| == |Within(h, since, hi)|
  {
    var next := rows[|rows| - 1].time + MINUTE;
    var mid := Min(next, hi);
    WithinIsHistory(h, since, mid);
    forall b ensures b in rows <==> b in Within(h, since, mid) {
      WithinMembers(h, since, mid, b);
      if b in rows {
        var i :| 0 <= i < |rows| && rows[i] == b;
        assert b.time <= rows[|rows| - 1].time;
      }
    }
    SameBarsSameLength(rows, Within(h, since, mid));
    WithinSplits(h, since, mid, hi);
    if next > hi {
      NothingPast(h, next, hi);
      NothingPast(h, hi, hi);
    }
  }

  lemma {:induction false} NothingPast(h: seq<Bar>, lo: int, hi: int)
    requires lo >= hi
    ensures Within(h, lo, hi) == []
  {
    if h != [] {
      NothingPast(h[1..], lo, hi);
    }
  }

  /** The rows a turn keeps: those of the first answer that are available. */
  ghost predicate AreKept(h: seq<Bar>, since: int, turn: Turn, retries: nat, rows: seq<Bar>, lo: int, hi: int) {
    exists k: nat :: IsFirstAnswer(turn.attempts, retries, k) && IsWithin(h, since, turn.attempts[k], rows, lo, hi)
  }

  ghost predicate IsWithin(h: seq<Bar>, since: int, fetch: Fetch, rows: seq<Bar>, lo: int, hi: int) {
    fetch.Batch? && rows == Within(Answer(h, since, fetch), lo, hi)
  }

  /** What a friendly turn keeps starts at the cursor. */
  lemma FriendlyRows(h: seq<Bar>, since: int, turn: Turn, retries: nat, rows: seq<Bar>, lo: int, hi: int)
    requires IsHistory(h) && Friendly(turn) && AreKept(h, since, turn, retries, rows, lo, hi)
    ensures IsHistory(rows) && forall b :: b in rows ==> since <= b.time
  {
    var k: nat :| IsFirstAnswer(turn.attempts, retries, k) && IsWithin(h, since, turn.attempts[k], rows, lo, hi);
    assert k == 0;
    var j := FromIsSuffix(h, since);
    var answer := Answer(h, since, turn.attempts[0]);
    assert answer == Take(h[j..], turn.attempts[0].count);
    WithinIsHistory(answer, lo, hi);
    forall b | b in rows ensures since <= b.time {
      WithinMembers(answer, lo, hi, b);
      var m := TakenAt(h, j, turn.attempts[0].count, b);
    }
  }

  lemma FirstIsKept(h: seq<Bar>, since: int, turn: Turn, retries: nat, answer: seq<Bar>, lo: int, hi: int)
    requires exists k: nat :: IsFirstAnswer(turn.attempts, retries, k) && answer == Answer(h, since, turn.attempts[k])
    ensures AreKept(h, since, turn, retries, Within(answer, lo, hi), lo, hi)
  {
    var k: nat :| IsFirstAnswer(turn.attempts, retries, k) && answer == Answer(h, since, turn.attempts[k]);
    assert IsWithin(h, since, turn.attempts[k], Within(answer, lo, hi), lo, hi);
  }

  lemma RowsLeaveNoGap(h: seq<Bar>, since: int, turn: Turn, retries: nat, rows: seq<Bar>, lo: int, hi: int)
    requires IsHistory(h) && lo <= since && AreKept(h, since, turn, retries, rows, lo, hi)
    ensures NoGap(h, since, rows, lo, hi)
  {
    var k: nat :| IsFirstAnswer(turn.attempts, retries, k) && IsWithin(h, since, turn.attempts[k], rows, lo, hi);
    BatchCovers(h, since, turn.attempts[k].back, turn.attempts[k].count, lo, hi);
  }

  /** The rows kept leave no gap; a friendly turn keeps some, from the cursor on, exactly if some are pending. */
  lemma RowsCover(h: seq<Bar>, since: int, turn: Turn, retries: nat, rows: seq<Bar>, lo: int, hi: int)
    requires IsHistory(h) && lo <= since && AreKept(h, since, turn, retries, rows, lo, hi)
    ensures NoGap(h, since, rows, lo, hi)
    ensures Friendly(turn) && HasBar(h, since, hi) ==> rows != [] && rows[|rows| - 1].time >= since
    ensures Friendly(turn) && !HasBar(h, since, hi) ==> rows == []
  {
    RowsLeaveNoGap(h, since, turn, retries, rows, lo, hi);
    if Friendly(turn) {
      var k: nat :| IsFirstAnswer(turn.attempts, retries, k) && IsWithin(h, since, turn.attempts[k], rows, lo, hi);
      assert k == 0;
      if HasBar(h, since, hi) {
        CooperativeBatch(h, since, turn.attempts[0].count, lo, hi);
      } else {
        NothingPending(h, since, turn.attempts[0].count, lo, hi);
      }
    }
  }

  /** One turn has kept some rows, counted them, and gone a minute past the last of them. */
  ghost predicate TurnAdds(h: seq<Bar>, since: int, turn: Turn, retries: nat, lo: int, hi: int,
                           next: int, added: nat)
  {
    exists rows :: AreKept(h, since, turn, retries, rows, lo, hi) && IsStepOver(rows, next, added)
  }

  /** What a friendly turn adds is what is no longer pending. */
  lemma FriendlyAdds(h: seq<Bar>, since: int, turn: Turn, retries: nat, lo: int, hi: int, next: int, added: nat)
    requires IsHistory(h) && lo <= since && TurnAdds(h, since, turn, retries, lo, hi, next, added)
    ensures added > 0 && (Friendly(turn) ==> added + |Within(h, next, hi)| == |Within(h, since, hi)|)
  {
    var rows :| AreKept(h, since, turn, retries, rows, lo, hi) && IsStepOver(rows, next, added);
    if Friendly(turn) {
      RowsCover(h, since, turn, retries, rows, lo, hi);
      FriendlyRows(h, since, turn, retries, rows, lo, hi);
      RowsAreCounted(h, since, rows, lo, hi);
    }
  }

  predicate IsStepOver(rows: seq<Bar>, next: int, added: nat) {
    rows != [] && next == rows[|rows| - 1].time + MINUTE && added == |rows|
  }

  predicate AllRaise(attempts: seq<Fetch>, retries: nat) {
    |attempts| >= retries && forall i :: 0 <= i < retries ==> attempts[i].Raise?
  }

  /** The process dies while it waits for an answer. */
  predicate RunsOut(attempts: seq<Fetch>, retries: nat) {
    |attempts| < retries && forall i :: 0 <= i < |attempts| ==> attempts[i].Raise?
  }

  /** What a turn must be like for a run to end with the outcome in it, if it is not killed for want of commits. */
  predicate Brings(turn: Turn, retries: nat, outcome: Outcome) {
    match outcome
    case DeadlineReached => turn.stop
    case FetchFailed => !turn.stop && AllRaise(turn.attempts, retries)
    case Killed => !turn.stop && RunsOut(turn.attempts, retries)
    case _ => !turn.stop && !AllRaise(turn.attempts, retries) && !RunsOut(turn.attempts, retries)
  }

  /** One of the turns brings the outcome; a kill can come between them too. */
  predicate SomeTurnBrings(turns: seq<Turn>, retries: nat, outcome: Outcome) {
    outcome.Killed? || exists i :: 0 <= i < |turns| && Brings(turns[i], retries, outcome)
  }

  /** A cursor the loop can have: still at the opening, or a minute past some available bar. */
  ghost predicate ReachedBy(h: seq<Bar>, cursor: int, opens: int, closes: int) {
    cursor <= opens || exists b :: b in h && opens <= b.time < closes && b.time + MINUTE == cursor
  }

  /** Such a cursor passes the close exactly by way of a last-minute bar, which until then lies ahead. */
  lemma LastMinuteAhead(h: seq<Bar>, cursor: int, opens: int, closes: int)
    requires IsHistory(h) && opens < closes && opens <= cursor && ReachedBy(h, cursor, opens, closes)
    ensures cursor >= closes ==> HasBar(h, Max(opens, closes - MINUTE), closes)
    ensures cursor < closes && HasBar(h, Max(opens, closes - MINUTE), closes) ==> HasBar(h, cursor, closes)
  {
    if cursor > opens {
      var b :| b in h && opens <= b.time < closes && b.time + MINUTE == cursor;
      if cursor < closes && HasBar(h, Max(opens, closes - MINUTE), closes) {
        var c :| c in h && Max(opens, closes - MINUTE) <= c.time < closes;
        Spaced(h, b, c);
        Spaced(h, c, b);
      }
    }
  }

  lemma ExactFromStored(table: Table, h: seq<Bar>, lo: int, hi: int)
    requires TableSound(table, h) && Stored(table, h, lo, hi)
    ensures Exact(table, h, lo, hi)
  {
  }

  /** A window that is exact stays exact while candles are only added and the table stays sound. */
  lemma ExactIsStable(was: Table, now: Table, h: seq<Bar>, lo: int, hi: int)
    requires Exact(was, h, lo, hi) && TableSound(now, h)
    requires forall k :: k in was ==> k in now && now[k] == was[k]
    ensures Exact(now, h, lo, hi)
  {
    forall b | b in h && lo <= b.time < hi ensures b.time in now && now[b.time] == b.candle {
      assert Bar(b.time, b.candle) == b;
      assert b.time in was;
    }
  }

  /** Two tables that are exact on a window hold the same candles there. */
  lemma ExactIsUnique(a: Table, b: Table, h: seq<Bar>, lo: int, hi: int)
    requires Exact(a, h, lo, hi) && Exact(b, h, lo, hi)
    ensures forall t :: lo <= t < hi ==>
              (t in a <==> t in b) && (t in a ==> a[t] == b[t])
  {
    forall t | lo <= t < hi
      ensures t in a <==> t in b
      ensures t in a ==> a[t] == b[t]
    {
      if t in a { assert Bar(t, a[t]) in h; }
      if t in b { assert Bar(t, b[t]) in h; }
    }
  }

  /** Candles are only added, with times in `[lo, hi)`. */
  ghost predicate Extends(was: Table, now: Table, lo: int, hi: int) {
    && (forall k :: k in was ==> k in now && now[k] == was[k])
    && (forall k :: k in now && k !in was ==> lo <= k < hi)
  }

  lemma ExtendsTransitively(a: Table, b: Table, c: Table, lo: int, hi: int)
    requires Extends(a, b, lo, hi) && Extends(b, c, lo, hi)
    ensures Extends(a, c, lo, hi)
  {
  }

  class Store {
    const history: seq<Bar>
    const setting: Setting
    const resume: bool
    const retries: nat
    var table: Table
    var progress: map<Window, Progress>

    constructor (history: seq<Bar>, setting: Setting, resume: bool, retries: nat)
      requires retries >= 1
      requires IsHistory(history)
      ensures this.history == history && this.setting == setting && this.resume == resume && this.retries == retries
      ensures table == map[] && progress == map[] && Consistent()
    {
      this.history := history;
      this.setting := setting;
      this.resume := resume;
      this.retries := retries;
      table := map[];
      progress := map[];
    }

    /** First instant of the window at which the pair is listed. */
    function Opens(w: Window): int {
      if setting.listing.Some? then Max(w.start, setting.listing.value) else w.start
    }

    /** First instant at which the window or the listing is over. */
    function Closes(w: Window): int {
      if setting.delisting.Some? then Min(w.end, setting.delisting.value) else w.end
    }

    /** The available window is what of the window lies in the listing. */
    lemma AvailableExactly(w: Window, t: int)
      ensures Opens(w) <= t < Closes(w) <==>
              && w.start <= t < w.end
              && (setting.listing.Some? ==> setting.listing.value <= t)
              && (setting.delisting.Some? ==> t < setting.delisting.value)
    {
    }

    /** The exchange has a bar in the last minute of the available window. */
    ghost predicate LastMinuteTraded(w: Window) {
      HasBar(history, Max(Opens(w), Closes(w) - MINUTE), Closes(w))
    }

    ghost predicate ProgressSound(w: Window, p: Progress)
      reads this
    {
      p.status != Unavailable ==>
        && Stored(table, history, Opens(w), Min(p.nextSince, Closes(w)))
        && (p.status == Complete || ReachedBy(history, p.nextSince, Opens(w), Closes(w)))
    }

    /** Every saved cursor has all earlier available bars stored, and the table holds exchange bars only. */
    ghost predicate Consistent()
      reads this
    {
      && retries >= 1
      && IsHistory(history) && TableSound(table, history)
      && (forall w :: w in progress ==> ProgressSound(w, progress[w]))
    }

    /** Nothing stops, fails or kills the run, and the exchange always answers with what comes next. */
    ghost predicate Undisturbed(w: Window, turns: seq<Turn>, commits: nat) {
      && AllFriendly(turns) && !setting.unavailable && Opens(w) < Closes(w)
      && |turns| > |Within(history, Opens(w), Closes(w))| && commits >= 2 * |turns| + 2
    }

    /** A run over the window has stopped short, and runs are resumed. */
    predicate Unfinished(w: Window)
      reads this
    {
      resume && w in progress && progress[w].status in {Running, Failed, Stalled}
    }

    function LoadProgress(w: Window): (int, nat)
      reads this
    {
      if resume && w in progress && !progress[w].status.Complete? && !progress[w].status.Unavailable?
      then (Max(progress[w].nextSince, w.start), progress[w].rows)
      else (w.start, 0)
    }

    method SaveProgress(w: Window, p: Progress)
      requires Consistent() && ProgressSound(w, p)
      modifies this`progress
      ensures Consistent() && progress == old(progress)[w := p]
    {
      progress := progress[w := p];
    }

    method Upsert(rows: seq<Bar>) returns (count: nat)
      requires Consistent() && forall b :: b in rows ==> b in history
      modifies this`table
      ensures Consistent() && count == |rows|
      ensures forall b :: b in rows ==> b.time in table && table[b.time] == b.candle
      ensures forall k :: k in old(table) ==> k in table && table[k] == old(table)[k]
      ensures forall k :: k in table && k !in old(table) ==> Bar(k, table[k]) in rows
    {
      StampedAt(rows, history);
      ghost var was := table;
      table := table + Stamped(rows);
      forall k | k in was ensures table[k] == was[k] {
        if k in Stamped(rows) {
          assert TableSound(was, history);
          Spaced(history, Bar(k, was[k]), Bar(k, table[k]));
        }
      }
      count := |rows|;
    }

    /** Nothing but candles inside the available window and this window's progress row may change. */
    twostate predicate OnlyTouches(w: Window)
      reads this
    {
      Extends(old(table), table, Opens(w), Closes(w)) && progress - {w} == old(progress) - {w}
    }

    /** The first answer within the allowed attempts; a failure if they all raise; nothing if killed before either. */
    method FetchWithRetries(w: Window, cursor: int, attempts: seq<Fetch>) returns (r: Option<Result<seq<Bar>, ()>>)
      requires Consistent()
      ensures r.Some? && r.value.Ok? ==>
                exists k: nat ::
                  IsFirstAnswer(attempts, retries, k) && r.value.value == Answer(history, cursor, attempts[k])
      ensures r.Some? && r.value.Err? <==> AllRaise(attempts, retries)
      ensures r.None? <==> RunsOut(attempts, retries)
    {
      for attempt := 0 to retries
        invariant attempt <= |attempts| && forall i :: 0 <= i < attempt ==> attempts[i].Raise?
      {
        if attempt == |attempts| {
          return None; // killed while waiting for the exchange
        }
        match attempts[attempt]
        case Batch(back, count) =>
          assert IsFirstAnswer(attempts, retries, attempt);
          return Some(Ok(Answer(history, cursor, attempts[attempt])));
        case Raise =>
          if attempt + 1 >= retries {
            return Some(Err(()));
          }
      }
      return Some(Err(()));
    }

    /** Where a run over the window starts: at the saved cursor of an unfinished one, or at the opening. */
    function StartOf(w: Window): int
      reads this
    {
      Max(LoadProgress(w).0, Opens(w))
    }

    predicate Saved(w: Window, cursor: int, status: Status, rows: nat)
      reads this
    {
      w in progress && progress[w] == Progress(cursor, status, rows)
    }

    /** Marks the window as running, from where it starts. */
    method OpenRun(w: Window) returns (since: int, total: nat)
      requires Consistent() && Opens(w) < Closes(w)
      modifies this`progress
      ensures Consistent() && OnlyTouches(w) && since == old(StartOf(w)) && total == old(LoadProgress(w).1)
      ensures Saved(w, since, Running, total)
      ensures Stored(table, history, Opens(w), Min(since, Closes(w))) && ReachedBy(history, since, Opens(w), Closes(w))
    {
      since, total := StartOf(w), LoadProgress(w).1;
      SaveProgress(w, Progress(since, Running, total));
    }

    /** Past the close everything available is stored, and the way there led over the last minute. */
    method CloseRun(w: Window, since: int, total: nat)
      requires Consistent() && Opens(w) < Closes(w) <= since
      requires Stored(table, history, Opens(w), Closes(w)) && ReachedBy(history, since, Opens(w), Closes(w))
      modifies this`progress
      ensures Consistent() && progress == old(progress)[w := Progress(w.end, Complete, total)]
      ensures Exact(table, history, Opens(w), Closes(w)) && LastMinuteTraded(w)
    {
      LastMinuteAhead(history, since, Opens(w), Closes(w));
      ExactFromStored(table, history, Opens(w), Closes(w));
      SaveProgress(w, Progress(w.end, Complete, total));
    }

    /** Upserts the rows, then moves the cursor a minute past the last one and saves it. */
    method StoreRows(w: Window, since: int, total: nat, rows: seq<Bar>, left: nat)
      returns (over: Option<Outcome>, since': int, total': nat, left': nat)
      requires Consistent() && Opens(w) <= since < Closes(w)
      requires Stored(table, history, Opens(w), since) && ReachedBy(history, since, Opens(w), Closes(w))
      requires rows != [] && NoGap(history, since, rows, Opens(w), Closes(w))
      modifies this
      ensures Consistent() && OnlyTouches(w)
      ensures over.Some? ==> !over.value.Completed?
      ensures over.None? ==> since' > since
      ensures over.None? ==>
                && Stored(table, history, Opens(w), Min(since', Closes(w)))
                && ReachedBy(history, since', Opens(w), Closes(w))
      ensures over.None? ==> Saved(w, since', Running, total')
      ensures over.None? ==> IsStepOver(rows, since', |rows|)
      ensures total' == total + |rows|
      ensures over.Some? && over != Some(Killed) ==> over == Some(CursorStuck) && Saved(w, since, Stalled, total')
      ensures over == Some(Killed) <==> left == 0
      ensures over == Some(Killed) ==> progress == old(progress)
      ensures rows[|rows| - 1].time >= since && left >= 1 ==> over.None? && left' == left - 1
    {
      over, since', left' := Some(Killed), since, left;
      var count := Upsert(rows);
      total' := total + count;
      if left == 0 { return; }
      left' := left - 1;
      var next := rows[|rows| - 1].time + MINUTE;
      if next <= since {
        SaveProgress(w, Progress(since, Stalled, total'));
        over := Some(CursorStuck);
        return;
      }
      assert ReachedBy(history, next, Opens(w), Closes(w));
      SaveProgress(w, Progress(next, Running, total'));
      over, since' := None, next;
    }

    /**
     Asks for the available rows at the cursor: none when the slice is over, the
     exchange fails or has nothing, with how the run then ends.
     */
    method AskExchange(w: Window, since: int, turn: Turn) returns (asked: Option<(seq<Bar>, (Status, Outcome))>)
      requires Consistent() && Opens(w) <= since
      ensures asked.None? <==> Brings(turn, retries, Killed)
      ensures asked.Some? ==> NoGap(history, since, asked.value.0, Opens(w), Closes(w))
      ensures asked.Some? && asked.value.0 == [] ==>
                var (status, outcome) := asked.value.1;
                status == Mark(outcome) && (outcome.DeadlineReached? || outcome.FetchFailed? || outcome.EmptyBatch?)
      ensures asked.Some? && asked.value.0 != [] ==>
                !turn.stop && AreKept(history, since, turn, retries, asked.value.0, Opens(w), Closes(w))
      ensures asked.Some? && asked.value.0 == [] ==>
                var outcome := asked.value.1.1;
                && Brings(turn, retries, outcome)
                && (outcome.EmptyBatch? ==> AreKept(history, since, turn, retries, [], Opens(w), Closes(w)))
      ensures asked.Some? && asked.value.0 != [] ==> Brings(turn, retries, CursorStuck)
      ensures Friendly(turn) && !HasBar(history, since, Closes(w)) ==> asked == Some(([], (Stalled, EmptyBatch)))
      ensures Friendly(turn) && HasBar(history, since, Closes(w)) ==>
                asked.Some? && asked.value.0 != [] && asked.value.0[|asked.value.0| - 1].time >= since
    {
      if turn.stop {
        return Some(([], (Running, DeadlineReached)));
      }
      var answer := FetchWithRetries(w, since, turn.attempts);
      if answer.None? {
        return None;
      }
      if answer.value.Err? {
        return Some(([], (Failed, FetchFailed)));
      }
      FirstIsKept(history, since, turn, retries, answer.value.value, Opens(w), Closes(w));
      var rows := Within(answer.value.value, Opens(w), Closes(w));
      RowsCover(history, since, turn, retries, rows, Opens(w), Closes(w));
      asked := Some((rows, (Stalled, EmptyBatch)));
    }

    /**
     One turn of the cursor loop: either the run is over, or the cursor has
     moved on with everything behind it stored and saved.
     */
    method RunTurn(w: Window, since: int, total: nat, turn: Turn, left: nat)
      returns (over: Option<Outcome>, since': int, total': nat, left': nat)
      requires Consistent() && Opens(w) <= since < Closes(w)
      requires Stored(table, history, Opens(w), since)
      requires ReachedBy(history, since, Opens(w), Closes(w))
      modifies this
      ensures Consistent() && OnlyTouches(w)
      ensures over.Some? ==> StopsShort(over.value)
      ensures over.Some? ==> Brings(turn, retries, over.value) || (over == Some(Killed) && left < 2)
      ensures over.None? ==> since' > since && Saved(w, since', Running, total')
      ensures left == 0 ==> over == Some(Killed)
      ensures over.None? ==>
                total' >= total && TurnAdds(history, since, turn, retries, Opens(w), Closes(w), since', total' - total)
      ensures over.Some? && over != Some(Killed) ==> Saved(w, since, Mark(over.value), total') && total' >= total
      ensures over == Some(Killed) ==> progress == old(progress)
      ensures Friendly(turn) && !HasBar(history, since, Closes(w)) && left >= 1 ==> over == Some(EmptyBatch)
      ensures over.None? ==>
                && Stored(table, history, Opens(w), Min(since', Closes(w)))
                && ReachedBy(history, since', Opens(w), Closes(w))
      ensures Friendly(turn) && HasBar(history, since, Closes(w)) && left >= 2 ==>
                over.None? && left' == left - 2
    {
      over, since', total', left' := Some(Killed), since, total, left;
      var asked := AskExchange(w, since, turn);
      if asked.None? { return; }
      var (rows, ending) := asked.value;
      if left == 0 { return; }
      left' := left - 1;
      if rows == [] {
        SaveProgress(w, Progress(since, ending.0, total));
        over := Some(ending.1);
        return;
      }
      over, since', total', left' := StoreRows(w, since, total, rows, left');
    }

    /** The window has a saved cursor that is not behind `start`, and a resumed run starts there. */
    predicate Resumable(w: Window, status: Status, start: int)
      reads this
    {
      && w in progress && progress[w].status == status && progress[w].nextSince >= start
      && (resume ==> StartOf(w) == progress[w].nextSince)
    }

    lemma SavedIsResumable(w: Window, start: int)
      requires w in progress && progress[w].nextSince >= start >= Opens(w)
      requires !progress[w].status.Complete? && !progress[w].status.Unavailable?
      ensures Resumable(w, progress[w].status, start)
    {
    }

    /** The cursor loop: it ends the run, or takes the cursor past the close. */
    method Advance(w: Window, since: int, total: nat, turns: seq<Turn>, left: nat)
      returns (over: Option<Outcome>, since': int, total': nat, left': nat)
      requires Consistent() && Opens(w) < Closes(w) && Opens(w) <= since
      requires Stored(table, history, Opens(w), Min(since, Closes(w))) && ReachedBy(history, since, Opens(w), Closes(w))
      requires Saved(w, since, Running, total)
      modifies this
      ensures Consistent() && OnlyTouches(w)
      ensures over.Some? ==> StopsShort(over.value)
      ensures over.Some? ==> w in progress && progress[w].status == Mark(over.value) && progress[w].nextSince >= since
      ensures over.Some? ==> SomeTurnBrings(turns, retries, over.value)
      ensures left == 0 ==> if over.Some? then over == Some(Killed) else left' == 0
      ensures w in progress && progress[w].rows >= total
      ensures over.None? ==>
                since' >= Closes(w) && since' >= since && Saved(w, since', Running, total') && LastMinuteTraded(w)
      ensures over.None? ==>
                Stored(table, history, Opens(w), Closes(w)) && ReachedBy(history, since', Opens(w), Closes(w))
      ensures AllFriendly(turns) && |turns| > |Within(history, since, Closes(w))| && left > 2 * |turns| ==>
                if LastMinuteTraded(w) then
                  over.None? && left' > 0 && total' == total + |Within(history, since, Closes(w))|
                else over == Some(EmptyBatch)
    {
      over, since', total', left' := None, since, total, left;
      ghost var h := history;
      ghost var quiet := AllFriendly(turns) && |turns| > |Within(h, since, Closes(w))| && left > 2 * |turns|;
      var i := 0;
      while since' < Closes(w)
        invariant Consistent() && OnlyTouches(w) && since' >= since && i <= |turns|
        invariant Stored(table, h, Opens(w), Min(since', Closes(w))) && ReachedBy(h, since', Opens(w), Closes(w))
        invariant Saved(w, since', Running, total') && total' >= total && over.None?
        invariant left == 0 ==> left' == 0
        invariant quiet ==> left' > 2 * (|turns| - i) && |turns| - i > |Within(h, since', Closes(w))|
        invariant quiet ==> total' + |Within(h, since', Closes(w))| == total + |Within(h, since, Closes(w))|
        decreases Closes(w) - since'
      {
        if i == |turns| {
          over := Some(Killed);
          return;
        }
        LastMinuteAhead(h, since', Opens(w), Closes(w));
        ghost var before, from, sum := table, since', total';
        over, since', total', left' := RunTurn(w, since', total', turns[i], left');
        ExtendsTransitively(old(table), before, table, Opens(w), Closes(w));
        if over.Some? { return; }
        FriendlyAdds(h, from, turns[i], retries, Opens(w), Closes(w), since', total' - sum);
        i := i + 1;
      }
      LastMinuteAhead(h, since', Opens(w), Closes(w));
      NothingPast(h, since', Closes(w));
    }

    /** A run over a window in which the pair is listed: opens it, follows the cursor, closes it. */
    method RunWindow(w: Window, turns: seq<Turn>, commits: nat) returns (r: Outcome)
      requires Consistent() && Opens(w) < Closes(w)
      modifies this
      ensures Consistent() && OnlyTouches(w) && !r.NothingAvailable?
      ensures r.Completed? ==>
                Saved(w, w.end, Complete, r.rows) && Exact(table, history, Opens(w), Closes(w)) && LastMinuteTraded(w)
      ensures AllFriendly(turns) && |turns| > |Within(history, Opens(w), Closes(w))| && commits > 2 * |turns| ==>
                if LastMinuteTraded(w) then
                  r.Completed? && r.rows == old(LoadProgress(w).1) + |Within(history, old(StartOf(w)), Closes(w))|
                else r == EmptyBatch
      ensures w in progress && progress[w].rows >= old(LoadProgress(w).1)
      ensures !r.Completed? ==> Resumable(w, Mark(r), old(StartOf(w))) && SomeTurnBrings(turns, retries, r)
      ensures commits == 0 ==> r == Killed
    {
      var since, total := OpenRun(w);
      ghost var start := since;
      WithinShrinks(history, Opens(w), since, Closes(w));
      var over, cursor, rows, left := Advance(w, since, total, turns, commits);
      if over.Some? || left == 0 {
        SavedIsResumable(w, start);
        return if over.Some? then over.value else Killed;
      }
      CloseRun(w, cursor, rows);
      return Completed(rows);
    }

    /**
     One run over one window. Whatever happens to it, the store stays
     consistent; a run that returns `Completed` leaves exactly the exchange's
     bars in the available window; undisturbed, it completes if and only if the
     exchange traded in the window's last available minute and stalls otherwise.
     A run that stops short never goes back behind where it started, and the
     next one starts at the cursor it has saved.
     */
    method FetchSymbol(w: Window, turns: seq<Turn>, commits: nat) returns (r: Outcome)
      requires Consistent()
      modifies this
      ensures Consistent() && OnlyTouches(w)
      ensures r.Completed? ==> w in progress && progress[w] == Progress(w.end, Complete, r.rows)
      ensures r.Completed? ==> Exact(table, history, Opens(w), Closes(w)) && LastMinuteTraded(w)
      ensures Undisturbed(w, turns, commits) ==> if LastMinuteTraded(w) then r.Completed? else r == EmptyBatch
      ensures Undisturbed(w, turns, commits) && r.Completed? ==>
                var (since, rows) :=
                  if old(Unfinished(w)) then old((progress[w].nextSince, progress[w].rows)) else (w.start, 0);
                r.rows == rows + |Within(history, Max(since, Opens(w)), Closes(w))|
      ensures old(Unfinished(w)) && !r.NothingAvailable? ==>
                w in progress && progress[w].rows >= old(progress[w].rows)
      ensures StopsShort(r) && commits > 0 ==> Resumable(w, Mark(r), old(StartOf(w)))
      ensures StopsShort(r) ==> SomeTurnBrings(turns, retries, r)
      ensures commits <= 1 && !r.NothingAvailable? ==> r == Killed
      ensures commits == 0 ==> r == Killed && progress == old(progress) && table == old(table)
      ensures r.NothingAvailable? <==> commits > 0 && (setting.unavailable || Opens(w) >= Closes(w))
      ensures r.NothingAvailable? ==>
                table == old(table) && progress == old(progress)[w := Progress(w.end, Unavailable, 0)]
    {
      if commits == 0 { return Killed; }
      if setting.unavailable || Opens(w) >= Closes(w) {
        SaveProgress(w, Progress(w.end, Unavailable, 0));
        return NothingAvailable;
      }
      r := RunWindow(w, turns, commits - 1);
    }

    /**
     Any sequence of runs over any windows, each disturbed in its own way:
     every window for which some run completed is exact at the end.
     */
    method Campaign(jobs: seq<(Window, seq<Turn>, nat)>) returns (outcomes: seq<Outcome>)
      requires Consistent()
      modifies this
      ensures Consistent() && |outcomes| == |jobs|
      ensures forall i :: 0 <= i < |jobs| && outcomes[i].Completed? ==>
                var w := jobs[i].0; Exact(table, history, Opens(w), Closes(w))
    {
      outcomes := [];
      for n := 0 to |jobs|
        invariant Consistent() && |outcomes| == n
        invariant forall i :: 0 <= i < n && outcomes[i].Completed? ==>
                    var w := jobs[i].0; Exact(table, history, Opens(w), Closes(w))
      {
        ghost var was := table;
        var r := FetchSymbol(jobs[n].0, jobs[n].1, jobs[n].2);
        forall i | 0 <= i < n && outcomes[i].Completed?
          ensures var w := jobs[i].0; Exact(table, history, Opens(w), Closes(w))
        {
          var w := jobs[i].0;
          ExactIsStable(was, table, history, Opens(w), Closes(w));
        }
        outcomes := outcomes + [r];
      }
    }
  }

  /**
   Where the exchange falls silent in a window's last minute the run stalls, and
   so does the one that resumes it: a bar at 0, and a window of two minutes.
   */
  method StallsWithoutLastMinute(candle: Candle) returns (store: Store, first: Outcome, second: Outcome)
    ensures fresh(store) && store.Consistent() && store.history == [Bar(0, candle)]
    ensures first == EmptyBatch && second == EmptyBatch
    ensures var w := Window(0, 120_000); w in store.progress && store.progress[w].status == Stalled
  {
    var history := [Bar(0, candle)];
    store := new Store(history, Setting(None, None, false), true, 1);
    var w, turn := Window(0, 2 * MINUTE), Turn(false, [Batch(0, 1)]);
    assert history[1..] == [];
    assert Within(history, 0, 2 * MINUTE) == [history[0]] + Within(history[1..], 0, 2 * MINUTE);
    assert store.Undisturbed(w, [turn, turn], 6) && !store.LastMinuteTraded(w);
    first := store.FetchSymbol(w, [turn, turn], 6);
    second := store.FetchSymbol(w, [turn, turn], 6);
  }
}
