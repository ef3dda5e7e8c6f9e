/**
 The claim protocol of one key as an interleaving of many callers.

 Every caller owns a token of its own and lives in one process. A step is one
 system call of one caller, a process start or death, or a jump of the clock
 (in either direction). The critical section is an exclusive file lock that
 does not wait and that the kernel drops when its holder dies. Pids may be
 reused at will, even by two live processes; a process never comes back.
 */
module ClaimProtocol {
  import opened Wrappers
  import Traces
  import opened Claims

  /** One life of a process; `serial` tells apart processes that share a pid. */
  datatype Process = Process(serial: nat, pid: int)

  /** Where a caller is in its code; the phases between lock and unlock name what it has done. */
  datatype Phase =
    | Idle                           // nothing called yet
    | RecoverEntered                 // in `recover`, lock taken
    | OwnerProbed(alive: bool)       // `recover` asked whether the recorded pid is alive
    | TakeoverCleared                // `recover` judged the file stale, unlink comes next
    | ReadyToCreate                  // exclusive create comes next
    | FileCreated(startedAt: int)    // empty file is there, body comes next
    | BodyWritten                    // body is there, unlock comes next
    | Holding                        // `acquire` or `recover` has returned
    | ReleaseEntered(held: bool)     // in `release`, lock taken
    | ReleaseMatched(held: bool)     // `release` saw its own token, unlink comes next
    | ReleaseUnlinked                // unlock comes next
    | Raising(held: bool)            // an exception is leaving the critical section
    | Finished                       // released, gave up, or raised

  datatype Caller = Caller(process: Process, lease: int, phase: Phase)

  datatype State = State(
    clock: int,
    nextSerial: nat,
    live: set<Process>,
    file: File,
    lock: Option<Token>,
    callers: map<Token, Caller>)

  /** One system call (or return) of a caller. */
  datatype Op =
    | EnterAcquire
    | EnterRecover
    | EnterRelease
    | ReadForRecover
    | JudgeTakeover
    | UnlinkStale
    | CreateExclusive
    | WriteBody
    | FailWrite(complete: bool)
    | ReadForRelease
    | UnlinkOwn
    | Raise
    | Unlock
    | GiveUp

  datatype Step =
    | Tick(clock: int)
    | Spawn(pid: int)
    | Die(process: Process)
    | Begin(t: Token, process: Process, lease: int)
    | Call(t: Token, op: Op)

  const START: State := State(0, 0, {}, Missing, None, map[])

  predicate InCriticalSection(p: Phase) {
    !p.Idle? && !p.Holding? && !p.Finished?
  }

  predicate ThinksItHolds(p: Phase) {
    || p.BodyWritten? || p.Holding?
    || (p.ReleaseEntered? && p.held) || (p.ReleaseMatched? && p.held) || (p.Raising? && p.held)
  }

  predicate IsLive(s: State, t: Token) {
    t in s.callers && s.callers[t].process in s.live
  }

  /** A live caller that may act on having the key, from the body write to its own unlink. */
  predicate Holds(s: State, t: Token) {
    IsLive(s, t) && ThinksItHolds(s.callers[t].phase)
  }

  ghost predicate SoleHolder(s: State, t: Token) {
    Holds(s, t) && forall u :: Holds(s, u) ==> u == t
  }

  function LivePids(s: State): set<int> {
    set p | p in s.live :: p.pid
  }

  predicate At(s: State, t: Token, p: Phase) {
    IsLive(s, t) && s.callers[t].phase == p
  }

  predicate CanDo(s: State, t: Token, op: Op) {
    && IsLive(s, t)
    && var p := s.callers[t].phase;
       match op
       case EnterAcquire => p.Idle?
       case EnterRecover => p.Idle?
       case EnterRelease => p.Holding? || p.Finished?
       case ReadForRecover => p.RecoverEntered?
       case JudgeTakeover => p.OwnerProbed? && s.file.Intact?
       case UnlinkStale => p.TakeoverCleared?
       case CreateExclusive => p.ReadyToCreate?
       case WriteBody => p.FileCreated?
       case FailWrite(_) => p.FileCreated?
       case ReadForRelease => p.ReleaseEntered?
       case UnlinkOwn => p.ReleaseMatched?
       case Raise =>
         // every call before the body write may fail; nothing raises past it
         p.RecoverEntered? || p.OwnerProbed? || p.TakeoverCleared? || p.ReadyToCreate?
         || p.ReleaseEntered? || p.ReleaseMatched?
       case Unlock => p.BodyWritten? || p.ReleaseUnlinked? || p.Raising?
       case GiveUp => p.Holding?
  }

  predicate Enabled(s: State, a: Step) {
    match a
    case Tick(_) => true
    case Spawn(pid) => pid > 0
    case Die(p) => p in s.live
    case Begin(t, p, lease) => t !in s.callers && p in s.live && ValidArguments(t, lease)
    case Call(t, op) => CanDo(s, t, op)
  }

  /** What an op leaves in the caller's phase, the claim file and the lock. */
  datatype Effect = Effect(phase: Phase, file: File, lock: Option<Token>)

  function BodyOf(s: State, t: Token): Record
    requires t in s.callers && s.callers[t].phase.FileCreated?
  {
    var c := s.callers[t];
    Record(t, c.phase.startedAt, c.lease, c.process.pid)
  }

  /** Takes the lock and goes to `inside`, or raises at once because somebody has it. */
  function Enter(s: State, t: Token, inside: Phase, refused: Phase): Effect {
    if s.lock == None then Effect(inside, s.file, Some(t)) else Effect(refused, s.file, s.lock)
  }

  function EffectOf(s: State, t: Token, op: Op): Effect
    requires CanDo(s, t, op)
  {
    var p := s.callers[t].phase;
    match op
    case EnterAcquire => Enter(s, t, ReadyToCreate, Finished)
    case EnterRecover => Enter(s, t, RecoverEntered, Finished)
    case EnterRelease => Enter(s, t, ReleaseEntered(p.Holding?), p)
    case ReadForRecover =>
      (match s.file
       case Missing => Effect(ReadyToCreate, s.file, s.lock)
       case Corrupt => Effect(TakeoverCleared, s.file, s.lock)
       case Intact(r) => Effect(OwnerProbed(IsProcessAlive(r.pid, LivePids(s))), s.file, s.lock))
    case JudgeTakeover =>
      var refused := TakeoverRefusal(s.file.record, s.clock, p.alive, false).Some?;
      Effect(if refused then Raising(false) else TakeoverCleared, s.file, s.lock)
    case UnlinkStale => Effect(ReadyToCreate, Missing, s.lock)
    case CreateExclusive =>
      if s.file.Missing? then Effect(FileCreated(s.clock), Corrupt, s.lock) else Effect(Raising(false), s.file, s.lock)
    case WriteBody => Effect(BodyWritten, Intact(BodyOf(s, t)), s.lock)
    case FailWrite(complete) => Effect(Raising(false), if complete then Intact(BodyOf(s, t)) else Corrupt, s.lock)
    case ReadForRelease =>
      // a missing file is a plain return, a corrupt or foreign one an exception: no unlink either way
      if s.file.Intact? && s.file.record.owner == t then Effect(ReleaseMatched(p.held), s.file, s.lock)
      else Effect(Raising(p.held), s.file, s.lock)
    case UnlinkOwn => Effect(ReleaseUnlinked, Missing, s.lock)
    case Raise => Effect(Raising((p.ReleaseEntered? || p.ReleaseMatched?) && p.held), s.file, s.lock)
    case Unlock => Effect(if p.BodyWritten? || (p.Raising? && p.held) then Holding else Finished, s.file, None)
    case GiveUp => Effect(Finished, s.file, s.lock)
  }

  function Do(s: State, t: Token, e: Effect): State
    requires t in s.callers
  {
    s.(callers := s.callers[t := s.callers[t].(phase := e.phase)], file := e.file, lock := e.lock)
  }

  function Apply(s: State, a: Step): State
    requires Enabled(s, a)
  {
    match a
    case Tick(clock) => s.(clock := clock)
    case Spawn(pid) => s.(live := s.live + {Process(s.nextSerial, pid)}, nextSerial := s.nextSerial + 1)
    case Die(p) =>
      s.(live := s.live - {p},
         lock := if s.lock.Some? && s.lock.value in s.callers && s.callers[s.lock.value].process == p then None
                 else s.lock)
    case Begin(t, p, lease) => s.(callers := s.callers[t := Caller(p, lease, Idle)])
    case Call(t, op) => Do(s, t, EffectOf(s, t, op))
  }

  ghost predicate Next(s: State, s': State) {
    exists a :: Enabled(s, a) && s' == Apply(s, a)
  }

  ghost predicate Trace(states: seq<State>) {
    && |states| > 0 && states[0] == START
    && forall i :: 0 <= i < |states| - 1 ==> Next(states[i], states[i + 1])
  }

  ghost predicate NobodyHolds(s: State) {
    forall t :: t in s.callers ==> !Holds(s, t)
  }

  ghost predicate ProcessesOk(s: State) {
    && (forall p :: p in s.live ==> p.serial < s.nextSerial && p.pid > 0)
    && (forall t :: t in s.callers ==> s.callers[t].process.serial < s.nextSerial)
  }

  ghost predicate LockOk(s: State) {
    && (s.lock.Some? ==> IsLive(s, s.lock.value) && InCriticalSection(s.callers[s.lock.value].phase))
    && (forall t :: IsLive(s, t) && InCriticalSection(s.callers[t].phase) ==> s.lock == Some(t))
  }

  ghost predicate FileOk(s: State, t: Token)
    requires t in s.callers
  {
    var c := s.callers[t];
    && (ThinksItHolds(c.phase) ==>
          s.file.Intact? && s.file.record.owner == t && s.file.record.pid == c.process.pid)
    && (c.phase.FileCreated? ==> s.file.Corrupt?)
    && (c.phase.ReleaseMatched? ==> s.file.Intact? && s.file.record.owner == t)
    && (c.phase.TakeoverCleared? ==> NobodyHolds(s))
    && (c.phase.OwnerProbed? ==> s.file.Intact? && (!c.phase.alive ==> NobodyHolds(s)))
  }

  ghost predicate Inv(s: State) {
    && ProcessesOk(s) && LockOk(s)
    && (forall t :: IsLive(s, t) ==> FileOk(s, t))
  }

  /** An op leaves its caller inside the critical section exactly if it leaves it the lock. */
  lemma OpKeepsLock(s: State, t: Token, op: Op)
    requires Inv(s) && CanDo(s, t, op)
    ensures LockOk(Apply(s, Call(t, op)))
  {
    var e := EffectOf(s, t, op);
    if InCriticalSection(s.callers[t].phase) {
      assert s.lock == Some(t);
      assert InCriticalSection(e.phase) <==> e.lock == Some(t);
      assert e.lock == Some(t) || e.lock == None;
    } else if s.lock == None {
      assert InCriticalSection(e.phase) <==> e.lock == Some(t);
    } else {
      assert !InCriticalSection(e.phase) && e.lock == s.lock != Some(t);
    }
  }

  /** The only way to become a holder is to write the body into the file one has created. */
  lemma OpMakesHolder(s: State, t: Token, op: Op)
    requires CanDo(s, t, op)
    ensures ThinksItHolds(EffectOf(s, t, op).phase) ==> ThinksItHolds(s.callers[t].phase) || op == WriteBody
  {
  }

  lemma OpKeepsHolders(s: State, t: Token, op: Op)
    requires Inv(s) && CanDo(s, t, op) && op != WriteBody
    ensures forall u :: Holds(Apply(s, Call(t, op)), u) ==> Holds(s, u)
  {
    OpMakesHolder(s, t, op);
  }

  /** A caller that touches the file does so while no other caller holds the key. */
  lemma OpTouchesNoHeldFile(s: State, t: Token, op: Op)
    requires Inv(s) && CanDo(s, t, op) && EffectOf(s, t, op).file != s.file
    ensures s.lock == Some(t)
    ensures forall u :: u != t ==> !Holds(s, u)
  {
    assert FileOk(s, t);
    forall u | u != t ensures !Holds(s, u) {
      if IsLive(s, u) {
        assert FileOk(s, u);
      }
    }
  }

  lemma OpKeepsOwnFile(s: State, t: Token, op: Op)
    requires Inv(s) && CanDo(s, t, op)
    ensures FileOk(Apply(s, Call(t, op)), t)
  {
    assert FileOk(s, t);
    var s' := Apply(s, Call(t, op));
    if op != WriteBody {
      OpKeepsHolders(s, t, op);
    }
    if op == ReadForRecover {
      forall u | Holds(s, u) ensures s.file.Intact? && IsProcessAlive(s.file.record.pid, LivePids(s)) {
        assert FileOk(s, u);
        assert s.callers[u].process in s.live;
      }
    }
  }

  lemma OpKeepsOthersFile(s: State, t: Token, op: Op, u: Token)
    requires Inv(s) && CanDo(s, t, op) && IsLive(s, u) && u != t
    ensures FileOk(Apply(s, Call(t, op)), u)
  {
    assert FileOk(s, u);
    if EffectOf(s, t, op).file != s.file {
      OpTouchesNoHeldFile(s, t, op);
      assert !InCriticalSection(s.callers[u].phase);
    } else if op != WriteBody {
      OpKeepsHolders(s, t, op);
    }
  }

  lemma OpKeepsInv(s: State, t: Token, op: Op)
    requires Inv(s) && CanDo(s, t, op)
    ensures Inv(Apply(s, Call(t, op)))
  {
    OpKeepsLock(s, t, op);
    forall u | IsLive(Apply(s, Call(t, op)), u) ensures FileOk(Apply(s, Call(t, op)), u) {
      if u == t {
        OpKeepsOwnFile(s, t, op);
      } else {
        OpKeepsOthersFile(s, t, op, u);
      }
    }
  }

  /** Clock jumps, process starts and deaths, and new callers make no holder. */
  lemma EnvironmentKeepsInv(s: State, a: Step)
    requires Inv(s) && Enabled(s, a) && !a.Call?
    ensures Inv(Apply(s, a))
  {
    var s' := Apply(s, a);
    forall t | t in s.callers && IsLive(s', t) ensures IsLive(s, t) && s'.callers[t] == s.callers[t] {
      assert a.Spawn? ==> s.callers[t].process != Process(s.nextSerial, a.pid);
    }
    forall t | IsLive(s', t) ensures FileOk(s', t) {
      if t in s.callers {
        assert FileOk(s, t);
        assert NobodyHolds(s) ==> NobodyHolds(s');
      }
    }
  }

  lemma StepKeepsInv(s: State, a: Step)
    requires Inv(s) && Enabled(s, a)
    ensures Inv(Apply(s, a))
  {
    if a.Call? {
      OpKeepsInv(s, a.t, a.op);
    } else {
      EnvironmentKeepsInv(s, a);
    }
  }

  lemma TraceKeepsInv(states: seq<State>)
    requires Trace(states)
    ensures forall i :: 0 <= i < |states| ==> Inv(states[i])
  {
    forall s, t | Inv(s) && Next(s, t) ensures Inv(t) {
      var a :| Enabled(s, a) && t == Apply(s, a);
      StepKeepsInv(s, a);
    }
    Traces.InvariantHolds(states, s => s == START, (s, t) => Next(s, t), s => Inv(s));
  }

  /**
   Claim safety: at every moment of every interleaving at most one live caller
   holds the key, and the file is then intact and carries its token and pid.
   */
  lemma ClaimSafety(states: seq<State>, i: nat, t: Token, u: Token)
    requires Trace(states) && i < |states| && Holds(states[i], t)
    ensures Holds(states[i], u) ==> u == t
    ensures states[i].file.Intact? && states[i].file.record.owner == t
    ensures states[i].file.record.pid == states[i].callers[t].process.pid
  {
    TraceKeepsInv(states);
    assert FileOk(states[i], t);
    if Holds(states[i], u) {
      assert FileOk(states[i], u);
    }
  }

  /** Two callers are never inside the critical section together, dead ones never keep others out. */
  lemma MutualExclusion(states: seq<State>, i: nat, t: Token, u: Token)
    requires Trace(states) && i < |states|
    requires IsLive(states[i], t) && InCriticalSection(states[i].callers[t].phase)
    ensures IsLive(states[i], u) && InCriticalSection(states[i].callers[u].phase) ==> u == t
    ensures states[i].lock == Some(t)
  {
    TraceKeepsInv(states);
  }

  // ------------------------------------------------------------------
  // Recovery
  // ------------------------------------------------------------------

  /** What `recover` can take: no intact claim, or one whose lease is over and whose pid no live process has. */
  predicate Recoverable(s: State) {
    s.file.Intact? ==>
      && s.clock - s.file.record.startedAt >= s.file.record.lease
      && (s.file.record.pid > 0 ==> forall p :: p in s.live ==> p.pid != s.file.record.pid)
  }

  /** The next op of `recover` for `t` when no system call fails. */
  function RecoverOp(p: Phase): Op {
    match p
    case Idle => EnterRecover
    case RecoverEntered => ReadForRecover
    case OwnerProbed(_) => JudgeTakeover
    case TakeoverCleared => UnlinkStale
    case ReadyToCreate => CreateExclusive
    case FileCreated(_) => WriteBody
    case _ => Unlock
  }

  /** `t` runs `recover` alone to its end; `fuel` bounds the steps left. */
  function RunRecover(s: State, t: Token, fuel: nat): State
    requires t in s.callers
    decreases fuel
  {
    var a := Call(t, RecoverOp(s.callers[t].phase));
    if fuel == 0 || s.callers[t].phase.Holding? || s.callers[t].phase.Finished? || !Enabled(s, a) then s
    else
      var s' := Apply(s, a);
      RunRecover(s', t, fuel - 1)
  }

  lemma Extend(states: seq<State>, a: Step) returns (more: seq<State>)
    requires Trace(states) && Enabled(states[|states| - 1], a)
    ensures Trace(more) && more == states + [Apply(states[|states| - 1], a)]
  {
    more := states + [Apply(states[|states| - 1], a)];
    forall i | 0 <= i < |more| - 1 ensures Next(more[i], more[i + 1]) {
      if i < |states| - 1 {
        assert more[i] == states[i] && more[i + 1] == states[i + 1];
      }
    }
  }

  lemma {:induction false} RunRecoverIsReachable(states: seq<State>, t: Token, fuel: nat) returns (more: seq<State>)
    requires Trace(states) && t in states[|states| - 1].callers
    ensures Trace(more) && states <= more
    ensures more[|more| - 1] == RunRecover(states[|states| - 1], t, fuel)
    decreases fuel
  {
    var s := states[|states| - 1];
    var a := Call(t, RecoverOp(s.callers[t].phase));
    if fuel == 0 || s.callers[t].phase.Holding? || s.callers[t].phase.Finished? || !Enabled(s, a) {
      more := states;
    } else {
      var next := Extend(states, a);
      more := RunRecoverIsReachable(next, t, fuel - 1);
    }
  }

  lemma {:induction false} RecoverTakesNoTime(s: State, t: Token, fuel: nat)
    requires t in s.callers
    ensures RunRecover(s, t, fuel).clock == s.clock
    decreases fuel
  {
    var a := Call(t, RecoverOp(s.callers[t].phase));
    if fuel > 0 && !s.callers[t].phase.Holding? && !s.callers[t].phase.Finished? && Enabled(s, a) {
      RecoverTakesNoTime(Apply(s, a), t, fuel - 1);
    }
  }

  const LONGEST_RECOVER: nat := 7

  /** How `recover` run alone from `s` ends, if it takes the key. */
  ghost predicate TakesOver(s: State, t: Token, e: State)
    requires t in s.callers
  {
    && At(e, t, Holding) && e.lock == None
    && e.file == Intact(Record(t, s.clock, s.callers[t].lease, s.callers[t].process.pid))
  }

  lemma RecoverIntact(s: State, t: Token, fuel: nat)
    requires At(s, t, OwnerProbed(s.file.Intact? && IsProcessAlive(s.file.record.pid, LivePids(s)))) && s.file.Intact?
    requires fuel >= 5
    ensures var e := RunRecover(s, t, fuel);
            if Recoverable(s) then TakesOver(s, t, e) else At(e, t, Finished) && e.file == s.file && e.lock == None
  {
    var s1 := Apply(s, Call(t, JudgeTakeover));
    if Recoverable(s) {
      var s2 := Apply(s1, Call(t, UnlinkStale));
      assert RunRecover(s, t, fuel) == RunRecover(s1, t, fuel - 1) == RunRecover(s2, t, fuel - 2);
      RunCreate(s2, t, fuel - 2);
    } else {
      var s2 := Apply(s1, Call(t, Unlock));
      assert RunRecover(s, t, fuel) == RunRecover(s1, t, fuel - 1) == RunRecover(s2, t, fuel - 2) == s2;
    }
  }

  lemma RecoverCorrupt(s: State, t: Token, fuel: nat)
    requires At(s, t, TakeoverCleared) && fuel >= 4
    ensures TakesOver(s, t, RunRecover(s, t, fuel))
  {
    var s1 := Apply(s, Call(t, UnlinkStale));
    assert RunRecover(s, t, fuel) == RunRecover(s1, t, fuel - 1);
    RunCreate(s1, t, fuel - 1);
  }

  /** With the lock free, `recover` run alone returns holding exactly when the file is recoverable. */
  lemma RecoverOutcome(s: State, t: Token)
    requires Inv(s) && At(s, t, Idle) && s.lock == None
    ensures var e := RunRecover(s, t, LONGEST_RECOVER);
            && e.lock == None
            && (Recoverable(s) <==> At(e, t, Holding))
            && (Recoverable(s) ==> e.file == Intact(Record(t, s.clock, s.callers[t].lease, s.callers[t].process.pid)))
            && (!Recoverable(s) ==> At(e, t, Finished) && e.file == s.file)
  {
    var s1 := Apply(s, Call(t, EnterRecover));
    var s2 := Apply(s1, Call(t, ReadForRecover));
    assert RunRecover(s, t, 7) == RunRecover(s1, t, 6) == RunRecover(s2, t, 5);
    assert LivePids(s1) == LivePids(s) && LivePids(s2) == LivePids(s);
    if s.file.Intact? {
      RecoverIntact(s2, t, 5);
    } else if s.file.Corrupt? {
      RecoverCorrupt(s2, t, 5);
    } else {
      RunCreate(s2, t, 5);
    }
  }

  lemma RunCreate(s: State, t: Token, fuel: nat)
    requires At(s, t, ReadyToCreate) && s.file.Missing? && fuel >= 3
    ensures var e := RunRecover(s, t, fuel);
            && At(e, t, Holding) && e.lock == None
            && e.file == Intact(Record(t, s.clock, s.callers[t].lease, s.callers[t].process.pid))
  {
    var s1 := Apply(s, Call(t, CreateExclusive));
    var s2 := Apply(s1, Call(t, WriteBody));
    var s3 := Apply(s2, Call(t, Unlock));
    assert RunRecover(s, t, fuel) == RunRecover(s1, t, fuel - 1) == RunRecover(s2, t, fuel - 2);
    assert RunRecover(s2, t, fuel - 2) == RunRecover(s3, t, fuel - 3);
  }

  /**
   Claim recoverability: from any reachable state with the lock free and a
   recoverable file, a caller that has not started yet can run `recover` to a
   reachable state in which it is the only holder.
   */
  lemma ClaimRecoverability(states: seq<State>, t: Token) returns (more: seq<State>)
    requires Trace(states)
    requires var s := states[|states| - 1]; At(s, t, Idle) && s.lock == None && Recoverable(s)
    ensures Trace(more) && states <= more
    ensures SoleHolder(more[|more| - 1], t) && more[|more| - 1].clock == states[|states| - 1].clock
  {
    var s := states[|states| - 1];
    TraceKeepsInv(states);
    RecoverOutcome(s, t);
    RecoverTakesNoTime(s, t, LONGEST_RECOVER);
    more := RunRecoverIsReachable(states, t, LONGEST_RECOVER);
    HolderIsSole(more, t);
  }

  lemma HolderIsSole(states: seq<State>, t: Token)
    requires Trace(states) && Holds(states[|states| - 1], t)
    ensures SoleHolder(states[|states| - 1], t)
  {
    var s := states[|states| - 1];
    forall u | Holds(s, u) ensures u == t {
      ClaimSafety(states, |states| - 1, t, u);
    }
  }

  /**
   No crash point blocks the key: wherever the other callers died, once no live
   process has the recorded pid, a fresh caller can recover at any instant from
   the end of the lease on.
   */
  lemma NoCrashPointBlocks(states: seq<State>, t: Token, instant: int) returns (more: seq<State>)
    requires Trace(states)
    requires var s := states[|states| - 1];
             && At(s, t, Idle)
             && (forall u :: IsLive(s, u) ==> u == t)
             && (s.file.Intact? ==> s.file.record.pid !in LivePids(s))
             && (s.file.Intact? ==> instant - s.file.record.startedAt >= s.file.record.lease)
    ensures Trace(more) && states <= more
    ensures SoleHolder(more[|more| - 1], t) && more[|more| - 1].clock == instant
  {
    var s := states[|states| - 1];
    TraceKeepsInv(states);
    assert s.lock == None;
    var next := Extend(states, Tick(instant));
    assert LivePids(next[|next| - 1]) == LivePids(s);
    more := ClaimRecoverability(next, t);
  }

  // ------------------------------------------------------------------
  // Acquiring and releasing
  // ------------------------------------------------------------------

  /** `t` does the one op, if it can. */
  function Done(s: State, t: Token, op: Op): State {
    if CanDo(s, t, op) then Apply(s, Call(t, op)) else s
  }

  /** The caller is out of the critical section in the given phase, with the file left so. */
  predicate Leaves(e: State, t: Token, phase: Phase, file: File) {
    At(e, t, phase) && e.file == file && e.lock == None
  }

  /** With the lock free, `acquire` run alone takes a key that is free and leaves one that is not as it is. */
  lemma AcquireOutcome(s: State, t: Token)
    requires Inv(s) && At(s, t, Idle) && s.lock == None
    ensures var created := Done(Done(s, t, EnterAcquire), t, CreateExclusive);
            if s.file.Missing? then TakesOver(s, t, Done(Done(created, t, WriteBody), t, Unlock))
            else Leaves(Done(created, t, Unlock), t, Finished, s.file)
  {
  }

  /**
   A write that fails is raised and leaves a file that keeps others out until it
   is recovered: corrupt, or intact if the body was complete.
   */
  lemma FailedWriteOutcome(s: State, t: Token, complete: bool)
    requires Inv(s) && At(s, t, ReadyToCreate) && s.file.Missing?
    ensures var created := Done(s, t, CreateExclusive);
            Leaves(Done(Done(created, t, FailWrite(complete)), t, Unlock), t, Finished,
                   if complete then Intact(Record(t, s.clock, s.callers[t].lease, s.callers[t].process.pid))
                   else Corrupt)
  {
  }

  lemma ReleaseReads(s: State, t: Token)
    requires At(s, t, Holding) || At(s, t, Finished)
    requires s.lock == None
    ensures var read := Done(Done(s, t, EnterRelease), t, ReadForRelease);
            var held := s.callers[t].phase.Holding?;
            && At(read, t, if s.file.Intact? && s.file.record.owner == t then ReleaseMatched(held) else Raising(held))
            && read.file == s.file
  {
  }

  lemma UnlockLeaves(s: State, t: Token)
    requires At(s, t, ReleaseUnlinked) || At(s, t, Raising(true)) || At(s, t, Raising(false))
    ensures Leaves(Done(s, t, Unlock), t, if s.callers[t].phase == Raising(true) then Holding else Finished, s.file)
  {
  }

  /** With the lock free, a holder that runs `release` alone leaves the key free. */
  lemma ReleaseOutcome(s: State, t: Token)
    requires Inv(s) && At(s, t, Holding) && s.lock == None
    ensures var matched := Done(Done(s, t, EnterRelease), t, ReadForRelease);
            Leaves(Done(Done(matched, t, UnlinkOwn), t, Unlock), t, Finished, Missing)
  {
    ReleaseReads(s, t);
    assert FileOk(s, t);
    UnlockLeaves(Done(Done(Done(s, t, EnterRelease), t, ReadForRelease), t, UnlinkOwn), t);
  }

  /** A holder that raises in it before the file is gone still holds; one that gives up leaves the file. */
  lemma UnreleasedOutcome(s: State, t: Token)
    requires Inv(s) && At(s, t, Holding) && s.lock == None
    ensures var matched := Done(Done(s, t, EnterRelease), t, ReadForRelease);
            Leaves(Done(Done(matched, t, Raise), t, Unlock), t, Holding, s.file)
    ensures Leaves(Done(s, t, GiveUp), t, Finished, s.file)
  {
    ReleaseReads(s, t);
    assert FileOk(s, t);
    UnlockLeaves(Done(Done(Done(s, t, EnterRelease), t, ReadForRelease), t, Raise), t);
  }

  /** A caller that does not hold removes the file by `release` exactly if it carries its token. */
  lemma LateReleaseOutcome(s: State, t: Token)
    requires Inv(s) && At(s, t, Finished) && s.lock == None
    ensures var read := Done(Done(s, t, EnterRelease), t, ReadForRelease);
            if s.file.Intact? && s.file.record.owner == t then
              Leaves(Done(Done(read, t, UnlinkOwn), t, Unlock), t, Finished, Missing)
            else Leaves(Done(read, t, Unlock), t, Finished, s.file)
  {
    ReleaseReads(s, t);
    var read := Done(Done(s, t, EnterRelease), t, ReadForRelease);
    UnlockLeaves(if s.file.Intact? && s.file.record.owner == t then Done(read, t, UnlinkOwn) else read, t);
  }

  /** One caller's step can have changed the file in this way. */
  predicate IsFileChange(was: File, c: Caller, t: Token, now: File) {
    match now
    case Missing =>
      c.phase.TakeoverCleared? || (c.phase.ReleaseMatched? && was.Intact? && was.record.owner == t)
    case Corrupt => c.phase.ReadyToCreate? && was.Missing?
    case Intact(r) =>
      c.phase.FileCreated? && was.Corrupt? && r == Record(t, c.phase.startedAt, c.lease, c.process.pid)
  }

  lemma FileStep(s: State, a: Step)
    requires Inv(s) && Enabled(s, a) && Apply(s, a).file != s.file
    ensures a.Call? && a.t in s.callers && IsFileChange(s.file, s.callers[a.t], a.t, Apply(s, a).file)
  {
    if a.Call? {
      assert FileOk(s, a.t);
    }
  }

  /**
   No file is overwritten: in a run the file changes only by a caller inside the
   critical section that creates it where there was none, fills with its own
   claim the file it has created, removes its own claim, or takes over.
   */
  lemma NeverOverwritten(states: seq<State>, i: nat) returns (t: Token)
    requires Trace(states) && i < |states| - 1 && states[i + 1].file != states[i].file
    ensures IsLive(states[i], t) && states[i].lock == Some(t)
    ensures IsFileChange(states[i].file, states[i].callers[t], t, states[i + 1].file)
  {
    TraceKeepsInv(states);
    var a := StepAt(states, i);
    FileStep(states[i], a);
    t := a.t;
  }

  /** From the start anybody can come to hold the key. */
  lemma AnybodyCanAcquire(t: Token, pid: int, lease: int) returns (states: seq<State>)
    requires ValidArguments(t, lease) && pid > 0
    ensures Trace(states) && SoleHolder(states[|states| - 1], t)
    ensures states[|states| - 1]
            == State(0, 1, {Process(0, pid)}, Intact(Record(t, 0, lease, pid)), Some(t),
                     map[t := Caller(Process(0, pid), lease, BodyWritten)])
  {
    states := [START];
    states := Extend(states, Spawn(pid));
    states := Extend(states, Begin(t, Process(0, pid), lease));
    states := Extend(states, Call(t, EnterAcquire));
    states := Extend(states, Call(t, CreateExclusive));
    states := Extend(states, Call(t, WriteBody));
    HolderIsSole(states, t);
  }

  /** From there a holder can die and another take over, to the instant when the lease is over. */
  lemma HolderCanBeReplaced(t: Token, pid: int, lease: int, u: Token, other: int)
    returns (states: seq<State>, i: nat)
    requires ValidArguments(t, lease) && pid > 0 && ValidArguments(u, lease) && other > 0 && t != u && pid != other
    ensures Trace(states) && i < |states| && SoleHolder(states[i], t)
    ensures var e := states[|states| - 1]; SoleHolder(e, u) && e.clock == lease
  {
    states := AnybodyCanAcquire(t, pid, lease);
    i := |states| - 1;
    ghost var held := states;
    states := Extend(states, Spawn(other));
    states := Extend(states, Begin(u, Process(1, other), lease));
    states := Extend(states, Die(Process(0, pid)));
    assert states[i] == held[i];
    var e := states[|states| - 1];
    assert e.live == {Process(1, other)} && LivePids(e) == {other};
    held := NoCrashPointBlocks(states, u, lease);
    states := held;
  }

  // ------------------------------------------------------------------
  // While the lease runs
  // ------------------------------------------------------------------

  /** The claim's lease is over. */
  predicate LeaseIsOver(r: Record, now: int) {
    now - r.startedAt >= r.lease
  }

  /** Who is about to unlink an intact file that is not its own has seen the end of its lease. */
  ghost predicate LeasesRespected(s: State) {
    forall t :: IsLive(s, t) && s.callers[t].phase.TakeoverCleared? && s.file.Intact? ==>
      LeaseIsOver(s.file.record, s.clock)
  }

  lemma StepRespectsLeases(s: State, a: Step)
    requires Inv(s) && Enabled(s, a) && LeasesRespected(s) && Apply(s, a).clock >= s.clock
    ensures LeasesRespected(Apply(s, a))
  {
    var s' := Apply(s, a);
    forall t | IsLive(s', t) && s'.callers[t].phase.TakeoverCleared? && s'.file.Intact?
      ensures LeaseIsOver(s'.file.record, s'.clock)
    {
      if a.Call? && a.t != t && s'.file != s.file {
        OpTouchesNoHeldFile(s, a.t, a.op);
        assert false;
      }
    }
  }

  ghost predicate IsOwnUnlink(s: State, s': State, t: Token) {
    Enabled(s, Call(t, UnlinkOwn)) && s' == Apply(s, Call(t, UnlinkOwn))
  }

  /** An intact file goes by its owner's unlink, or by a takeover once its lease is over. */
  lemma StepKeepsClaim(s: State, a: Step, r: Record)
    requires Inv(s) && Enabled(s, a) && LeasesRespected(s)
    requires s.file == Intact(r) && !LeaseIsOver(r, s.clock) && a != Call(r.owner, UnlinkOwn)
    ensures Apply(s, a).file == Intact(r)
  {
    if a.Call? {
      assert FileOk(s, a.t);
    }
  }

  /** The clock does not go back before the `n`th state. */
  predicate Forward(states: seq<State>, n: nat) {
    forall i :: 0 <= i < n && i < |states| - 1 ==> states[i].clock <= states[i + 1].clock
  }

  lemma StepAt(states: seq<State>, i: nat) returns (a: Step)
    requires Trace(states) && i < |states| - 1
    ensures Enabled(states[i], a) && states[i + 1] == Apply(states[i], a)
  {
    assert Next(states[i], states[i + 1]);
    a :| Enabled(states[i], a) && states[i + 1] == Apply(states[i], a);
  }

  lemma {:induction false} TraceRespectsLeases(states: seq<State>, n: nat)
    requires Trace(states) && n < |states| && Forward(states, n)
    ensures LeasesRespected(states[n])
  {
    if n > 0 {
      TraceRespectsLeases(states, n - 1);
      TraceKeepsInv(states);
      var a := StepAt(states, n - 1);
      StepRespectsLeases(states[n - 1], a);
    }
  }

  lemma {:induction false} ClockGoesOn(states: seq<State>, i: nat, n: nat)
    requires i <= n < |states| && Forward(states, n)
    ensures states[i].clock <= states[n].clock
  {
    if i < n {
      ClockGoesOn(states, i, n - 1);
    }
  }

  lemma ClaimStays(states: seq<State>, n: nat, r: Record)
    requires Trace(states) && n < |states| - 1 && Forward(states, n)
    requires states[n].file == Intact(r) && !LeaseIsOver(r, states[n].clock)
    requires !IsOwnUnlink(states[n], states[n + 1], r.owner)
    ensures states[n + 1].file == Intact(r)
  {
    TraceKeepsInv(states);
    TraceRespectsLeases(states, n);
    var a := StepAt(states, n);
    StepKeepsClaim(states[n], a, r);
  }

  /**
   The lease protects the claim: on a clock that does not go back an intact
   file stays as it is until its lease is over, unless its owner unlinks it.
   */
  lemma {:induction false} LeaseProtects(states: seq<State>, i: nat, n: nat, r: Record)
    requires Trace(states) && i <= n < |states| && Forward(states, n)
    requires states[i].file == Intact(r) && states[n].clock - r.startedAt < r.lease
    requires forall j :: i <= j < n ==> !IsOwnUnlink(states[j], states[j + 1], r.owner)
    ensures states[n].file == Intact(r)
  {
    if i < n {
      ClockGoesOn(states, n - 1, n);
      LeaseProtects(states, i, n - 1, r);
      assert !IsOwnUnlink(states[n - 1], states[n - 1 + 1], r.owner);
      ClaimStays(states, n - 1, r);
    }
  }
}
