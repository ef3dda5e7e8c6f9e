/**
 The walk-forward split of a holdout and the trade simulator that never holds
 two positions of one pair at a time. Instants are numbers, durations differences.
 */
module Trades {
  import opened Wrappers
  import Sorting

  // ---- walk-forward windows ----------------------------------------

  datatype Row = Row(date: int, pair: nat, features: nat, target: real)

  datatype Window = Window(train: seq<Row>, test: seq<Row>, trainStart: int, trainEnd: int, testEnd: int)

  const MIN_TRAIN: nat := 1000

  function Min(a: int, b: int): int { if a <= b then a else b }

  function Between(frame: seq<Row>, lo: int, hi: int): seq<Row> {
    if frame == [] then []
    else
      var last := frame[|frame| - 1];
      Between(frame[..|frame| - 1], lo, hi) + (if lo <= last.date < hi then [last] else [])
  }

  lemma {:induction false} BetweenExactly(frame: seq<Row>, lo: int, hi: int, r: Row)
    ensures r in Between(frame, lo, hi) <==> r in frame && lo <= r.date < hi
  {
    if frame != [] {
      BetweenExactly(frame[..|frame| - 1], lo, hi, r);
      assert frame == frame[..|frame| - 1] + [frame[|frame| - 1]];
    }
  }

  /** A test interval, the training interval before it having the given length. */
  datatype Tile = Tile(begin: int, end: int)

  function Tiles(start: int, end: int, step: int): seq<Tile>
    requires step > 0
    decreases end - start
  {
    if start >= end then []
    else
      var next := Min(start + step, end);
      [Tile(start, next)] + Tiles(next, end, step)
  }

  function WindowOf(frame: seq<Row>, tile: Tile, trainLength: int): Window {
    Window(Between(frame, tile.begin - trainLength, tile.begin), Between(frame, tile.begin, tile.end),
           tile.begin - trainLength, tile.begin, tile.end)
  }

  predicate Usable(w: Window) {
    |w.train| >= MIN_TRAIN && |w.test| > 0
  }

  /** The windows of the tiles that have enough rows. */
  function Windows(frame: seq<Row>, tiles: seq<Tile>, trainLength: int): seq<Window> {
    if tiles == [] then []
    else
      var w := WindowOf(frame, tiles[0], trainLength);
      (if Usable(w) then [w] else []) + Windows(frame, tiles[1..], trainLength)
  }

  lemma Regrouped<T>(a: seq<T>, b: seq<T>, c: seq<T>)
    ensures a + (b + c) == (a + b) + c
  {
  }

  lemma WindowsStep(frame: seq<Row>, start: int, end: int, step: int, trainLength: int)
    requires step > 0 && start < end
    ensures var next := Min(start + step, end);
            var w := WindowOf(frame, Tile(start, next), trainLength);
            Windows(frame, Tiles(start, end, step), trainLength)
            == (if Usable(w) then [w] else []) + Windows(frame, Tiles(next, end, step), trainLength)
  {
    assert Tiles(start, end, step)[1..] == Tiles(Min(start + step, end), end, step);
  }

  method RunWalkForward(frame: seq<Row>, trainLength: int, testLength: int, start: int,
                        end: int) returns (windows: seq<Window>)
    requires testLength > 0
    ensures windows == Windows(frame, Tiles(start, end, testLength), trainLength)
  {
    windows := [];
    var current := start;
    while current < end
      invariant windows + Windows(frame, Tiles(current, end, testLength), trainLength)
             == Windows(frame, Tiles(start, end, testLength), trainLength)
      decreases end - current
    {
      var testEnd := Min(current + testLength, end);
      var w := WindowOf(frame, Tile(current, testEnd), trainLength);
      WindowsStep(frame, current, end, testLength, trainLength);
      Regrouped(windows, if Usable(w) then [w] else [], Windows(frame, Tiles(testEnd, end, testLength), trainLength));
      if Usable(w) {
        windows := windows + [w];
      }
      current := testEnd;
    }
  }

  /** The tiles abut, from the start to the end, and none is longer than a step. */
  lemma {:induction false} TilesAbut(start: int, end: int, step: int)
    requires step > 0
    ensures var t := Tiles(start, end, step);
            && (t == [] <==> start >= end)
            && (t != [] ==> t[0].begin == start && t[|t| - 1].end == end)
            && (forall i :: 0 <= i < |t| ==> t[i].begin < t[i].end <= t[i].begin + step)
            && (forall i :: 0 <= i < |t| - 1 ==> t[i].end == t[i + 1].begin)
    decreases end - start
  {
    if start < end {
      TilesAbut(Min(start + step, end), end, step);
    }
  }

  predicate Contains(t: Tile, at: int) {
    t.begin <= at < t.end
  }

  predicate Tested(tiles: seq<Tile>, at: int) {
    exists i :: 0 <= i < |tiles| && Contains(tiles[i], at)
  }

  /** Every instant of the span lies in exactly one tile. */
  lemma {:induction false} TestedOnce(start: int, end: int, step: int, at: int)
    requires step > 0 && start <= at < end
    ensures Tested(Tiles(start, end, step), at)
    ensures var t := Tiles(start, end, step);
            forall i, j :: 0 <= i < j < |t| ==> !(Contains(t[i], at) && Contains(t[j], at))
    decreases end - start
  {
    var next := Min(start + step, end);
    var t, rest := Tiles(start, end, step), Tiles(next, end, step);
    if at < next {
      assert Contains(t[0], at);
    } else {
      TestedOnce(next, end, step, at);
      var i :| 0 <= i < |rest| && Contains(rest[i], at);
      assert t[i + 1] == rest[i];
    }
    LaterTiles(start, end, step);
  }

  lemma {:induction false} LaterTiles(start: int, end: int, step: int)
    requires step > 0
    ensures forall i, j :: 0 <= i < j < |Tiles(start, end, step)| ==>
              Tiles(start, end, step)[i].end <= Tiles(start, end, step)[j].begin
    ensures forall i :: 0 <= i < |Tiles(start, end, step)| ==> Tiles(start, end, step)[i].begin >= start
    decreases end - start
  {
    if start < end {
      LaterTiles(Min(start + step, end), end, step);
    }
  }

  /** The training rows end before the test rows begin, and these end with the window. */
  ghost predicate Split(w: Window) {
    && (forall r :: r in w.train ==> r.date < w.trainEnd)
    && (forall r :: r in w.test ==> w.trainEnd <= r.date < w.testEnd)
  }

  lemma WindowOfSplit(frame: seq<Row>, tile: Tile, trainLength: int)
    ensures Split(WindowOf(frame, tile, trainLength))
  {
    var w := WindowOf(frame, tile, trainLength);
    forall r | r in w.train ensures r.date < w.trainEnd {
      BetweenExactly(frame, tile.begin - trainLength, tile.begin, r);
    }
    forall r | r in w.test ensures w.trainEnd <= r.date < w.testEnd {
      BetweenExactly(frame, tile.begin, tile.end, r);
    }
  }

  /** Every training row is dated before every test row of its window, and no two windows test the same instant. */
  lemma {:induction false} WindowsAreApart(frame: seq<Row>, start: int, end: int, step: int, trainLength: int)
    requires step > 0
    ensures var w := Windows(frame, Tiles(start, end, step), trainLength);
            && (forall i :: 0 <= i < |w| ==> Split(w[i]) && start <= w[i].trainEnd && w[i].testEnd <= end)
            && (forall i, j :: 0 <= i < j < |w| ==> w[i].testEnd <= w[j].trainEnd)
    decreases end - start
  {
    if start < end {
      var next := Min(start + step, end);
      WindowsAreApart(frame, next, end, step, trainLength);
      WindowsStep(frame, start, end, step, trainLength);
      WindowOfSplit(frame, Tile(start, next), trainLength);
    }
  }

  /** The rows of the frame dated in [lo, hi), as often as they are there. */
  ghost predicate HoldsRows(rows: seq<Row>, frame: seq<Row>, lo: int, hi: int) {
    forall r :: multiset(rows)[r] == if lo <= r.date < hi then multiset(frame)[r] else 0
  }

  lemma {:induction false} BetweenHolds(frame: seq<Row>, lo: int, hi: int)
    ensures HoldsRows(Between(frame, lo, hi), frame, lo, hi)
  {
    if frame != [] {
      var front, last := frame[..|frame| - 1], frame[|frame| - 1];
      BetweenHolds(front, lo, hi);
      assert frame == front + [last];
    }
  }

  /** The window trains on the given length before the tile and tests on the tile. */
  ghost predicate IsWindowOf(w: Window, frame: seq<Row>, tile: Tile, trainLength: int) {
    && w.trainEnd == tile.begin && w.testEnd == tile.end && w.trainEnd - w.trainStart == trainLength
    && HoldsRows(w.train, frame, w.trainStart, w.trainEnd) && HoldsRows(w.test, frame, w.trainEnd, w.testEnd)
  }

  lemma WindowOfExactly(frame: seq<Row>, tile: Tile, trainLength: int)
    ensures IsWindowOf(WindowOf(frame, tile, trainLength), frame, tile, trainLength)
  {
    BetweenHolds(frame, tile.begin - trainLength, tile.begin);
    BetweenHolds(frame, tile.begin, tile.end);
  }

  /** There is a window for exactly the tiles with a thousand training rows and some test row. */
  lemma {:induction false} WindowsExactly(frame: seq<Row>, tiles: seq<Tile>, trainLength: int, w: Window)
    ensures w in Windows(frame, tiles, trainLength) <==>
            && |w.train| >= 1000 && |w.test| > 0
            && exists t :: t in tiles && w == WindowOf(frame, t, trainLength)
  {
    if tiles != [] {
      WindowsExactly(frame, tiles[1..], trainLength, w);
      assert tiles == [tiles[0]] + tiles[1..];
    }
  }

  // ---- signals -----------------------------------------------------

  datatype Side = Long | Short
  datatype Signal = Signal(date: int, pair: nat, prediction: real, target: real)

  /** Predictions of one window: over the training rows and, with what came of them, over the test rows. */
  datatype Forecast = Forecast(train: seq<real>, test: seq<Signal>)

  // ---- the greedy choice for one pair ------------------------------

  predicate Free(next: Option<int>, date: int) {
    next.None? || date >= next.value
  }

  /** Takes each signal at which the pair is free, and is busy for `hold` from there. */
  function Greedy(signals: seq<Signal>, next: Option<int>, hold: int): seq<Signal> {
    if signals == [] then []
    else if Free(next, signals[0].date) then [signals[0]] + Greedy(signals[1..], Some(signals[0].date + hold), hold)
    else Greedy(signals[1..], next, hold)
  }

  predicate Ascending(s: seq<Signal>) {
    forall i, j :: 0 <= i < j < |s| ==> s[i].date <= s[j].date
  }

  predicate Apart(s: seq<Signal>, hold: int) {
    forall i, j :: 0 <= i < j < |s| ==> s[i].date + hold <= s[j].date
  }

  lemma ApartFromRest(first: Signal, rest: seq<Signal>, hold: int)
    requires Apart(rest, hold) && forall i :: 0 <= i < |rest| ==> first.date + hold <= rest[i].date
    ensures Apart([first] + rest, hold)
  {
  }

  /** What is taken is free and apart by the holding time. */
  lemma {:induction false} GreedyIsApart(signals: seq<Signal>, next: Option<int>, hold: int)
    requires hold > 0
    ensures Apart(Greedy(signals, next, hold), hold)
    ensures forall i :: 0 <= i < |Greedy(signals, next, hold)| ==>
              Free(next, Greedy(signals, next, hold)[i].date) && Greedy(signals, next, hold)[i] in signals
  {
    if signals != [] {
      if Free(next, signals[0].date) {
        var rest := Greedy(signals[1..], Some(signals[0].date + hold), hold);
        GreedyIsApart(signals[1..], Some(signals[0].date + hold), hold);
        assert forall i :: 0 <= i < |rest| ==> Free(Some(signals[0].date + hold), rest[i].date);
        ApartFromRest(signals[0], rest, hold);
      } else {
        GreedyIsApart(signals[1..], next, hold);
      }
    }
  }

  predicate Covered(taken: seq<Signal>, date: int, hold: int) {
    exists i :: 0 <= i < |taken| && taken[i].date <= date < taken[i].date + hold
  }

  /** What is passed over lies in the holding time of something taken. */
  lemma {:induction false} PassedOverIsCovered(signals: seq<Signal>, next: Option<int>, hold: int, k: nat)
    requires hold > 0 && Ascending(signals) && k < |signals| && Free(next, signals[k].date)
    ensures Covered(Greedy(signals, next, hold), signals[k].date, hold)
  {
    var g := Greedy(signals, next, hold);
    if Free(next, signals[0].date) {
      if signals[k].date < signals[0].date + hold {
        assert g[0].date <= signals[k].date < g[0].date + hold;
      } else {
        var rest := Greedy(signals[1..], Some(signals[0].date + hold), hold);
        PassedOverIsCovered(signals[1..], Some(signals[0].date + hold), hold, k - 1);
        var i :| 0 <= i < |rest| && rest[i].date <= signals[k].date < rest[i].date + hold;
        assert g[i + 1] == rest[i];
      }
    } else {
      PassedOverIsCovered(signals[1..], next, hold, k - 1);
    }
  }

  lemma LaterChoice(signals: seq<Signal>, hold: int, choice: seq<Signal>)
    requires hold > 0 && signals != [] && choice != [] && Ascending(signals) && Apart(choice, hold)
    requires forall i :: 0 <= i < |choice| ==> choice[i] in signals
    ensures forall i :: 1 <= i < |choice| ==> choice[i] in signals[1..] && signals[0].date + hold <= choice[i].date
  {
    assert choice[0] in signals;
    var k :| 0 <= k < |signals| && signals[k] == choice[0];
    forall i | 1 <= i < |choice| ensures choice[i] in signals[1..] && signals[0].date + hold <= choice[i].date {
      assert choice[0].date + hold <= choice[i].date;
      assert signals == [signals[0]] + signals[1..];
    }
  }

  /** No choice of signals that are apart by the holding time is longer. */
  lemma {:induction false} GreedyIsMaximum(signals: seq<Signal>, next: Option<int>, hold: int, choice: seq<Signal>)
    requires hold > 0 && Ascending(signals) && Apart(choice, hold)
    requires forall i :: 0 <= i < |choice| ==> choice[i] in signals && Free(next, choice[i].date)
    ensures |choice| <= |Greedy(signals, next, hold)|
  {
    if choice != [] {
      assert choice[0] in signals;
      assert signals == [signals[0]] + signals[1..];
      if Free(next, signals[0].date) {
        var rest := choice[1..];
        LaterChoice(signals, hold, choice);
        GreedyIsMaximum(signals[1..], Some(signals[0].date + hold), hold, rest);
      } else {
        GreedyIsMaximum(signals[1..], next, hold, choice);
      }
    }
  }

  // ---- the simulation ----------------------------------------------

  datatype Trade = Trade(window: nat, pair: nat, entry: int, exit: int, prediction: real, gross: real, net: real,
                         pnl: real)

  const ROUND_TRIP_FEE: real := 0.003
  const STAKE: real := 100.0

  predicate Earlier(a: Signal, b: Signal) { a.date <= b.date }

  predicate Fires(side: Side, threshold: real, s: Signal) {
    if side.Long? then s.prediction >= threshold else s.prediction <= threshold
  }

  function Firing(side: Side, threshold: real, signals: seq<Signal>): seq<Signal> {
    if signals == [] then []
    else
      Firing(side, threshold, signals[..|signals| - 1])
      + (if Fires(side, threshold, signals[|signals| - 1]) then [signals[|signals| - 1]] else [])
  }

  function SignalsOf(signals: seq<Signal>, pair: nat): seq<Signal> {
    if signals == [] then []
    else (if signals[0].pair == pair then [signals[0]] else []) + SignalsOf(signals[1..], pair)
  }

  lemma {:induction false} SignalsOfAppend(signals: seq<Signal>, s: Signal, pair: nat)
    ensures SignalsOf(signals + [s], pair) == SignalsOf(signals, pair) + if s.pair == pair then [s] else []
  {
    if signals != [] {
      assert (signals + [s])[1..] == signals[1..] + [s];
      SignalsOfAppend(signals[1..], s, pair);
    }
  }

  /** The signals of one pair follow the order of the signals. */
  lemma {:induction false} SignalsAscend(signals: seq<Signal>, pair: nat)
    requires Sorting.Sorted(Earlier, signals)
    ensures Ascending(SignalsOf(signals, pair))
    ensures forall i :: 0 <= i < |SignalsOf(signals, pair)| ==>
              signals != [] && signals[0].date <= SignalsOf(signals, pair)[i].date
  {
    if |signals| > 1 {
      SignalsAscend(signals[1..], pair);
      assert Earlier(signals[0], signals[1]);
    }
  }

  function NextOf(busy: map<nat, int>, pair: nat): Option<int> {
    if pair in busy then Some(busy[pair]) else None
  }

  function TradeOf(window: nat, side: Side, s: Signal, hold: int): Trade {
    var gross := if side.Short? then -s.target else s.target;
    var net := gross - ROUND_TRIP_FEE;
    Trade(window, s.pair, s.date, s.date + hold, s.prediction, gross, net, net * STAKE)
  }

  /** The signals acted on are, pair by pair, the greedy choice among those of the pair. */
  ghost predicate ActsGreedily(kept: seq<Signal>, signals: seq<Signal>, hold: int) {
    forall pair: nat :: SignalsOf(kept, pair) == Greedy(SignalsOf(signals, pair), None, hold)
  }

  /** What has been taken, and what the greedy choice would take of the rest, make up the greedy choice. */
  ghost predicate OnTrack(kept: seq<Signal>, rest: seq<Signal>, busy: map<nat, int>, signals: seq<Signal>, hold: int) {
    forall pair: nat ::
      SignalsOf(kept, pair) + Greedy(SignalsOf(rest, pair), NextOf(busy, pair), hold)
      == Greedy(SignalsOf(signals, pair), None, hold)
  }

  lemma StepForOthers(kept: seq<Signal>, rest: seq<Signal>, pair: nat)
    requires rest != [] && rest[0].pair != pair
    ensures SignalsOf(rest, pair) == SignalsOf(rest[1..], pair)
    ensures SignalsOf(kept + [rest[0]], pair) == SignalsOf(kept, pair)
  {
    SignalsOfAppend(kept, rest[0], pair);
  }

  lemma StepForItsPair(kept: seq<Signal>, rest: seq<Signal>, next: Option<int>, hold: int)
    requires rest != []
    ensures var s := rest[0];
            var before := SignalsOf(kept, s.pair) + Greedy(SignalsOf(rest, s.pair), next, hold);
            if Free(next, s.date)
            then before == SignalsOf(kept + [s], s.pair) + Greedy(SignalsOf(rest[1..], s.pair), Some(s.date + hold),
                                                                  hold)
            else before == SignalsOf(kept, s.pair) + Greedy(SignalsOf(rest[1..], s.pair), next, hold)
  {
    var s := rest[0];
    SignalsOfAppend(kept, s, s.pair);
    var own := SignalsOf(rest, s.pair);
    assert own[0] == s && own[1..] == SignalsOf(rest[1..], s.pair);
    Regrouped(SignalsOf(kept, s.pair), [s], Greedy(own[1..], Some(s.date + hold), hold));
  }

  lemma StepForPair(kept: seq<Signal>, rest: seq<Signal>, busy: map<nat, int>, hold: int, pair: nat)
    requires rest != []
    ensures var s := rest[0];
            var before := SignalsOf(kept, pair) + Greedy(SignalsOf(rest, pair), NextOf(busy, pair), hold);
            var after := NextOf(busy[s.pair := s.date + hold], pair);
            if Free(NextOf(busy, s.pair), s.date)
            then before == SignalsOf(kept + [s], pair) + Greedy(SignalsOf(rest[1..], pair), after, hold)
            else before == SignalsOf(kept, pair) + Greedy(SignalsOf(rest[1..], pair), NextOf(busy, pair), hold)
  {
    if pair == rest[0].pair {
      StepForItsPair(kept, rest, NextOf(busy, pair), hold);
    } else {
      StepForOthers(kept, rest, pair);
    }
  }

  lemma StepOnTrack(kept: seq<Signal>, rest: seq<Signal>, busy: map<nat, int>, signals: seq<Signal>, hold: int)
    requires rest != [] && OnTrack(kept, rest, busy, signals, hold)
    ensures var s := rest[0];
            if Free(NextOf(busy, s.pair), s.date)
            then OnTrack(kept + [s], rest[1..], busy[s.pair := s.date + hold], signals, hold)
            else OnTrack(kept, rest[1..], busy, signals, hold)
  {
    forall pair: nat {
      StepForPair(kept, rest, busy, hold, pair);
    }
  }

  /** `kept` are the signals at the places `picks`, in order. */
  ghost predicate Picks(kept: seq<Signal>, picks: seq<nat>, signals: seq<Signal>) {
    && |picks| == |kept|
    && (forall i :: 0 <= i < |picks| ==> picks[i] < |signals| && kept[i] == signals[picks[i]])
    && (forall i, j :: 0 <= i < j < |picks| ==> picks[i] < picks[j])
  }

  ghost predicate PicksBefore(kept: seq<Signal>, picks: seq<nat>, signals: seq<Signal>, n: nat) {
    Picks(kept, picks, signals) && forall j :: 0 <= j < |picks| ==> picks[j] < n
  }

  lemma PickOneMore(kept: seq<Signal>, picks: seq<nat>, signals: seq<Signal>, i: nat)
    requires i < |signals| && PicksBefore(kept, picks, signals, i)
    ensures PicksBefore(kept + [signals[i]], picks + [i], signals, i + 1)
  {
  }

  /** The trade acts on the signal: what the target brings on the side taken, less a fee, on a stake of a hundred. */
  predicate ActsOn(t: Trade, window: nat, side: Side, s: Signal, hold: int) {
    && t.window == window && t.pair == s.pair && t.prediction == s.prediction
    && t.entry == s.date && t.exit - t.entry == hold
    && (side.Long? ==> t.gross == s.target) && (side.Short? ==> t.gross + s.target == 0.0)
    && t.gross - t.net == 0.003 && t.pnl == 100.0 * t.net
  }

  predicate AreTradesOf(trades: seq<Trade>, kept: seq<Signal>, window: nat, side: Side, hold: int) {
    |trades| == |kept| && forall i :: 0 <= i < |kept| ==> ActsOn(trades[i], window, side, kept[i], hold)
  }

  /** Taking both sides of a signal costs two fees, whatever comes of it. */
  lemma BothSidesCostTheFees(long: Trade, short: Trade, window: nat, s: Signal, hold: int)
    requires ActsOn(long, window, Long, s, hold) && ActsOn(short, window, Short, s, hold)
    ensures long.gross + short.gross == 0.0 && long.net + short.net == -0.006
  {
  }

  lemma TradeOneMore(trades: seq<Trade>, kept: seq<Signal>, s: Signal, window: nat, side: Side, hold: int)
    requires AreTradesOf(trades, kept, window, side, hold)
    ensures AreTradesOf(trades + [TradeOf(window, side, s, hold)], kept + [s], window, side, hold)
  {
  }

  /** The trades are those of the greedy choice for each pair, in the order of the signals. */
  ghost predicate Explains(kept: seq<Signal>, picks: seq<nat>, trades: seq<Trade>, window: nat, side: Side,
                           signals: seq<Signal>, hold: int) {
    && ActsGreedily(kept, signals, hold) && Picks(kept, picks, signals)
    && AreTradesOf(trades, kept, window, side, hold)
  }

  /** Trades of one window: the greedy choice for each pair among the signals, in their order. */
  ghost predicate IsSimulation(trades: seq<Trade>, window: nat, side: Side, signals: seq<Signal>, hold: int) {
    exists kept, picks :: Explains(kept, picks, trades, window, side, signals, hold)
  }

  /** After `i` signals: what is kept so far, at which places, as which trades, and how long each pair is busy. */
  ghost predicate InProgress(kept: seq<Signal>, picks: seq<nat>, trades: seq<Trade>, busy: map<nat, int>, i: nat,
                             window: nat, side: Side, signals: seq<Signal>, hold: int) {
    && i <= |signals| && OnTrack(kept, signals[i..], busy, signals, hold)
    && PicksBefore(kept, picks, signals, i) && AreTradesOf(trades, kept, window, side, hold)
  }

  lemma OneSignal(kept: seq<Signal>, picks: seq<nat>, trades: seq<Trade>, busy: map<nat, int>, i: nat,
                  window: nat, side: Side, signals: seq<Signal>, hold: int)
    requires i < |signals| && InProgress(kept, picks, trades, busy, i, window, side, signals, hold)
    ensures var s := signals[i];
            if Free(NextOf(busy, s.pair), s.date)
            then InProgress(kept + [s], picks + [i], trades + [TradeOf(window, side, s, hold)],
                            busy[s.pair := s.date + hold],
                            i + 1, window, side, signals, hold)
            else InProgress(kept, picks, trades, busy, i + 1, window, side, signals, hold)
  {
    StepOnTrack(kept, signals[i..], busy, signals, hold);
    assert signals[i..][1..] == signals[i + 1..];
    PickOneMore(kept, picks, signals, i);
    TradeOneMore(trades, kept, signals[i], window, side, hold);
  }

  lemma Begun(window: nat, side: Side, signals: seq<Signal>, hold: int)
    ensures InProgress([], [], [], map[], 0, window, side, signals, hold)
  {
    assert signals[0..] == signals;
    forall pair: nat
      ensures SignalsOf([], pair) + Greedy(SignalsOf(signals, pair), None, hold) == Greedy(SignalsOf(signals, pair),
                                                                                           None, hold)
    {
      assert SignalsOf([], pair) == [];
    }
  }

  lemma Finished(kept: seq<Signal>, picks: seq<nat>, trades: seq<Trade>, busy: map<nat, int>,
                 window: nat, side: Side, signals: seq<Signal>, hold: int)
    requires InProgress(kept, picks, trades, busy, |signals|, window, side, signals, hold)
    ensures Explains(kept, picks, trades, window, side, signals, hold)
  {
    forall pair: nat ensures SignalsOf(kept, pair) == Greedy(SignalsOf(signals, pair), None, hold) {
      assert SignalsOf(signals[|signals|..], pair) == [];
      assert SignalsOf(kept, pair) + [] == SignalsOf(kept, pair);
    }
  }

  /** The trades so far, and from when on each pair that has traded is free again. */
  datatype Book = Book(trades: seq<Trade>, busy: map<nat, int>)

  function Entered(book: Book, window: nat, side: Side, s: Signal, hold: int): Book {
    if Free(NextOf(book.busy, s.pair), s.date)
    then Book(book.trades + [TradeOf(window, side, s, hold)], book.busy[s.pair := s.date + hold])
    else book
  }

  function BookOf(window: nat, side: Side, signals: seq<Signal>, n: nat, hold: int): Book
    requires n <= |signals|
  {
    if n == 0 then Book([], map[]) else Entered(BookOf(window, side, signals, n - 1, hold), window, side,
                                                signals[n - 1], hold)
  }

  /** The book is what the greedy choice among the first `n` signals leaves. */
  ghost predicate IsExplained(book: Book, n: nat, window: nat, side: Side, signals: seq<Signal>, hold: int) {
    exists kept, picks :: InProgress(kept, picks, book.trades, book.busy, n, window, side, signals, hold)
  }

  lemma OneMoreExplained(book: Book, i: nat, window: nat, side: Side, signals: seq<Signal>, hold: int)
    requires i < |signals| && IsExplained(book, i, window, side, signals, hold)
    ensures IsExplained(Entered(book, window, side, signals[i], hold), i + 1, window, side, signals, hold)
  {
    var kept, picks :| InProgress(kept, picks, book.trades, book.busy, i, window, side, signals, hold);
    var s, after := signals[i], Entered(book, window, side, signals[i], hold);
    OneSignal(kept, picks, book.trades, book.busy, i, window, side, signals, hold);
    if Free(NextOf(book.busy, s.pair), s.date) {
      assert InProgress(kept + [s], picks + [i], after.trades, after.busy, i + 1, window, side, signals, hold);
    } else {
      assert InProgress(kept, picks, after.trades, after.busy, i + 1, window, side, signals, hold);
    }
  }

  lemma NoneExplained(window: nat, side: Side, signals: seq<Signal>, hold: int)
    ensures IsExplained(Book([], map[]), 0, window, side, signals, hold)
  {
    Begun(window, side, signals, hold);
  }

  lemma {:induction false} BookIsExplained(window: nat, side: Side, signals: seq<Signal>, n: nat, hold: int)
    requires n <= |signals|
    ensures IsExplained(BookOf(window, side, signals, n, hold), n, window, side, signals, hold)
  {
    if n == 0 {
      NoneExplained(window, side, signals, hold);
    } else {
      BookIsExplained(window, side, signals, n - 1, hold);
      OneMoreExplained(BookOf(window, side, signals, n - 1, hold), n - 1, window, side, signals, hold);
    }
  }

  lemma BookIsSimulation(window: nat, side: Side, signals: seq<Signal>, hold: int)
    ensures IsSimulation(BookOf(window, side, signals, |signals|, hold).trades, window, side, signals, hold)
  {
    var book := BookOf(window, side, signals, |signals|, hold);
    BookIsExplained(window, side, signals, |signals|, hold);
    var kept, picks :| InProgress(kept, picks, book.trades, book.busy, |signals|, window, side, signals, hold);
    Finished(kept, picks, book.trades, book.busy, window, side, signals, hold);
  }

  /** One window: goes through the signals by date, with the instant from which each pair is free again. */
  method SimulateWindow(window: nat, side: Side, signals: seq<Signal>, hold: int) returns (trades: seq<Trade>)
    ensures IsSimulation(trades, window, side, signals, hold)
  {
    trades := [];
    var busy: map<nat, int> := map[];
    for i := 0 to |signals|
      invariant Book(trades, busy) == BookOf(window, side, signals, i, hold)
    {
      var s := signals[i];
      if Free(NextOf(busy, s.pair), s.date) {
        trades := trades + [TradeOf(window, side, s, hold)];
        busy := busy[s.pair := s.date + hold];
      }
    }
    BookIsSimulation(window, side, signals, hold);
  }

  /** The signals of one window that fire, by date. */
  function SignalsToTrade(f: Forecast, side: Side, quantile: real, level: (seq<real>, real) -> real): seq<Signal> {
    Sorting.Sort(Earlier, Firing(side, level(f.train, if side.Long? then quantile else 1.0 - quantile), f.test))
  }

  /** Some signal of the window at or past the level on the side taken. */
  ghost predicate IsOnSignal(t: Trade, window: nat, f: Forecast, side: Side, quantile: real, hold: int,
                             level: (seq<real>, real) -> real)
  {
    exists s :: s in f.test && IsPast(s, f.train, side, quantile, level) && ActsOn(t, window, side, s, hold)
  }

  predicate IsPast(s: Signal, train: seq<real>, side: Side, quantile: real, level: (seq<real>, real) -> real) {
    && (side.Long? ==> s.prediction >= level(train, quantile))
    && (side.Short? ==> s.prediction <= level(train, 1.0 - quantile))
  }

  /** Exactly the predictions on the far side of the level are signals, as often as there are such. */
  lemma SignalsExactly(f: Forecast, side: Side, quantile: real, level: (seq<real>, real) -> real, s: Signal)
    ensures multiset(SignalsToTrade(f, side, quantile, level))[s]
            == if IsPast(s, f.train, side, quantile, level) then multiset(f.test)[s] else 0
    ensures Sorting.Sorted(Earlier, SignalsToTrade(f, side, quantile, level))
  {
    var threshold := level(f.train, if side.Long? then quantile else 1.0 - quantile);
    EarlierIsTotal();
    Sorting.SortSorted(Earlier, Firing(side, threshold, f.test));
    FiringExactly(side, threshold, f.test, s);
  }

  /** The trades are the greedy choice for each pair among the signals past the level, each on one of them. */
  ghost predicate TradesWindow(trades: seq<Trade>, window: nat, f: Forecast, side: Side, quantile: real, hold: int,
                               level: (seq<real>, real) -> real)
  {
    && IsSimulation(trades, window, side, SignalsToTrade(f, side, quantile, level), hold)
    && forall j :: 0 <= j < |trades| ==> IsOnSignal(trades[j], window, f, side, quantile, hold, level)
  }

  lemma SimulationTradesWindow(trades: seq<Trade>, window: nat, f: Forecast, side: Side, quantile: real, hold: int,
                               level: (seq<real>, real) -> real)
    requires IsSimulation(trades, window, side, SignalsToTrade(f, side, quantile, level), hold)
    ensures TradesWindow(trades, window, f, side, quantile, hold, level)
  {
    var signals := SignalsToTrade(f, side, quantile, level);
    var kept, picks :| Explains(kept, picks, trades, window, side, signals, hold);
    forall i | 0 <= i < |trades| ensures IsOnSignal(trades[i], window, f, side, quantile, hold, level) {
      var s := signals[picks[i]];
      assert multiset(signals)[s] > 0;
      SignalsExactly(f, side, quantile, level, s);
      assert s in multiset(f.test);
    }
  }

  /** The trades of the first windows, each in its own. */
  ghost predicate TradesWindows(byWindow: seq<seq<Trade>>, forecasts: seq<Forecast>, side: Side, quantile: real,
                                hold: int, level: (seq<real>, real) -> real)
  {
    && |byWindow| <= |forecasts|
    && forall i :: 0 <= i < |byWindow| ==>
         TradesWindow(byWindow[i], i + 1, forecasts[i], side, quantile, hold, level)
  }

  lemma OneMoreWindow(byWindow: seq<seq<Trade>>, trades: seq<Trade>, forecasts: seq<Forecast>, side: Side,
                      quantile: real, hold: int, level: (seq<real>, real) -> real)
    requires TradesWindows(byWindow, forecasts, side, quantile, hold, level) && |byWindow| < |forecasts|
    requires TradesWindow(trades, |byWindow| + 1, forecasts[|byWindow|], side, quantile, hold, level)
    ensures TradesWindows(byWindow + [trades], forecasts, side, quantile, hold, level)
  {
  }

  /** All windows; `level` is the quantile of the training predictions. */
  method SimulatePredictions(forecasts: seq<Forecast>, side: Side, quantile: real, hold: int,
                             level: (seq<real>, real) -> real)
    returns (byWindow: seq<seq<Trade>>)
    ensures |byWindow| == |forecasts| && TradesWindows(byWindow, forecasts, side, quantile, hold, level)
  {
    byWindow := [];
    for i := 0 to |forecasts|
      invariant |byWindow| == i && TradesWindows(byWindow, forecasts, side, quantile, hold, level)
    {
      var trades := SimulateWindow(i + 1, side, SignalsToTrade(forecasts[i], side, quantile, level), hold);
      SimulationTradesWindow(trades, i + 1, forecasts[i], side, quantile, hold, level);
      OneMoreWindow(byWindow, trades, forecasts, side, quantile, hold, level);
      byWindow := byWindow + [trades];
    }
  }

  /** Exactly the predictions on the far side of the threshold are signals. */
  lemma {:induction false} FiringExactly(side: Side, threshold: real, signals: seq<Signal>, s: Signal)
    ensures multiset(Firing(side, threshold, signals))[s]
            == if (if side.Long? then s.prediction >= threshold else s.prediction <= threshold)
               then multiset(signals)[s] else 0
  {
    if signals != [] {
      var front := signals[..|signals| - 1];
      FiringExactly(side, threshold, front, s);
      assert signals == front + [signals[|signals| - 1]];
    }
  }

  lemma EarlierIsTotal()
    ensures Sorting.TotalPreorder(Earlier)
  {
  }

  function TradesOf(trades: seq<Trade>, pair: nat): seq<Trade> {
    if trades == [] then []
    else (if trades[0].pair == pair then [trades[0]] else []) + TradesOf(trades[1..], pair)
  }

  lemma {:induction false} TradesOfPair(trades: seq<Trade>, kept: seq<Signal>, window: nat, side: Side, hold: int,
                                        pair: nat)
    requires AreTradesOf(trades, kept, window, side, hold)
    ensures AreTradesOf(TradesOf(trades, pair), SignalsOf(kept, pair), window, side, hold)
  {
    if trades != [] {
      TradesOfPair(trades[1..], kept[1..], window, side, hold, pair);
    }
  }

  /**
   Within a window and a pair: each trade is entered after the one before it is
   over, every signal falls into the time of a trade, and no choice of signals
   that are the holding time apart is longer than the list of trades.
   */
  lemma TradesAreBest(trades: seq<Trade>, window: nat, side: Side, signals: seq<Signal>, hold: int, pair: nat, k: nat,
                      choice: seq<Signal>)
    requires hold > 0 && IsSimulation(trades, window, side, Sorting.Sort(Earlier, signals), hold)
    requires k < |SignalsOf(Sorting.Sort(Earlier, signals), pair)|
    requires Apart(choice, hold)
    requires forall i :: 0 <= i < |choice| ==> choice[i] in SignalsOf(Sorting.Sort(Earlier, signals), pair)
    ensures var own := TradesOf(trades, pair);
            && (forall i, j :: 0 <= i < j < |own| ==> own[i].exit <= own[j].entry)
            && var at := SignalsOf(Sorting.Sort(Earlier, signals), pair)[k].date;
            && (exists i :: 0 <= i < |own| && own[i].entry <= at < own[i].exit)
            && |choice| <= |own|
  {
    var sorted := Sorting.Sort(Earlier, signals);
    var kept, picks :| Explains(kept, picks, trades, window, side, sorted, hold);
    var taken, own := SignalsOf(kept, pair), TradesOf(trades, pair);
    EarlierIsTotal();
    Sorting.SortSorted(Earlier, signals);
    SignalsAscend(sorted, pair);
    assert taken == Greedy(SignalsOf(sorted, pair), None, hold);
    GreedyIsApart(SignalsOf(sorted, pair), None, hold);
    PassedOverIsCovered(SignalsOf(sorted, pair), None, hold, k);
    GreedyIsMaximum(SignalsOf(sorted, pair), None, hold, choice);
    TradesOfPair(trades, kept, window, side, hold, pair);
    var i :| 0 <= i < |taken| && taken[i].date <= SignalsOf(sorted, pair)[k].date < taken[i].date + hold;
    assert own[i].entry <= SignalsOf(sorted, pair)[k].date < own[i].exit;
  }
}
