/**
 The lifecycle controller as an interleaving of client threads and worker
 bodies, without concurrent inference. A step is one critical section of the
 meta lock, one call into the model, or one thread event.
 */
module Lifecycle {
  import opened Wrappers
  import Traces
  import opened KronosModel

  type OpId = nat

  datatype Action = Stop | Restore
  datatype Desired = Running | Stopped
  datatype Derived = IsRunning | IsStopped | IsTransitional

  /** How the worker body of an action ended; `loaded` is the model's state at that moment. */
  datatype Ending =
    | Fine
    | UnloadDiscarded              // the unload failed past the point of no return
    | UnloadKept(loaded: bool)     // the unload failed before it touched anything
    | LoadRaised(loaded: bool)
    | Unexpected(readable: bool, loaded: bool) // the body itself raised; was the status readable then

  datatype Stage =
    | Accepted            // slot taken, baseline memory being read
    | Queued              // handed to the executor
    | Working             // inside the worker body
    | Ended(course: Course, before: Model) // the model call is over, `desired` not settled yet
    | Settled(course: Course, before: Model)
    | Cleared(late: bool) // slot freed, the closing log line still to come
    | Done

  datatype Waiter = Waiting | GaveUp | TimedOut | Answered

  datatype Operation = Operation(action: Action, stage: Stage, waiter: Waiter)

  datatype LogLine = LogLine(id: OpId, late: bool)

  datatype State = State(
    desired: Desired,
    model: Model,
    slot: Option<OpId>,
    ops: map<OpId, Operation>,
    timedOut: set<OpId>,
    log: seq<LogLine>)

  /** What the environment decides about a model call. */
  datatype Course =
    | CallUnload(cacheFails: bool)
    | RefuseUnload                 // the unload raises without touching the model
    | CallLoad(load: LoadCourse)
    | BodyRaises(readable: bool)

  datatype Step =
    | Accept(id: OpId, action: Action)
    | Submit(id: OpId)
    | StartBody(id: OpId)
    | CallModel(id: OpId, course: Course)
    | Settle(id: OpId)
    | Clear(id: OpId)
    | WriteLog(id: OpId)
    | LoseLog(id: OpId)
    | StopWaiting(id: OpId)
    | RegisterTimeout(id: OpId)
    | Collect(id: OpId)

  function DerivedState(desired: Desired, loaded: bool): Derived {
    if desired == Running && loaded then IsRunning
    else if desired == Stopped && !loaded then IsStopped
    else IsTransitional
  }

  predicate Stable(s: State) {
    DerivedState(s.desired, s.model.loaded) != IsTransitional
  }

  function Target(a: Action): Desired {
    if a == Stop then Stopped else Running
  }

  /** Where `desired` is left after an ending: back to the facts, or to the side that claims no free memory. */
  function SettledDesired(a: Action, end: Ending, desired: Desired): Desired {
    match end
    case Fine => desired
    case UnloadDiscarded => desired
    case UnloadKept(_) => Running
    case LoadRaised(_) => Stopped
    case Unexpected(readable, loaded) =>
      if (if readable then loaded else a == Stop) then Running else Stopped
  }

  /** Which courses of an action end in a stable state, by the model they start from. */
  predicate LandsStable(a: Action, c: Course, before: Model) {
    match c
    case CallUnload(_) => true
    case RefuseUnload => before.loaded
    case CallLoad(load) => !(load.FailsAnnouncing? && before.enabled && !before.loaded)
    case BodyRaises(readable) => readable || (before.loaded <==> a == Stop)
  }

  /** Between taking the slot and freeing it. */
  predicate InFlight(g: Stage) {
    g.Accepted? || g.Queued? || g.Working? || g.Ended? || g.Settled?
  }

  predicate Fits(a: Action, c: Course) {
    match c
    case CallUnload(_) => a == Stop
    case RefuseUnload => a == Stop
    case CallLoad(_) => a == Restore
    case BodyRaises(_) => true
  }

  function ModelCall(m: Model, c: Course): (Model, Ending) {
    match c
    case CallUnload(cacheFails) =>
      var (m', r) := Unloaded(m, cacheFails);
      (m', if r.Nothing? then Fine else UnloadDiscarded)
    case RefuseUnload => (m, UnloadKept(m.loaded))
    case CallLoad(course) =>
      var (m', r) := AfterLoad(m, course);
      (m', if r.Nothing? then Fine else LoadRaised(m'.loaded))
    case BodyRaises(readable) => (m, Unexpected(readable, m.loaded))
  }

  predicate Enabled(s: State, a: Step) {
    match a
    case Accept(id, _) => s.slot == None && id !in s.ops
    case Submit(id) => id in s.ops && s.ops[id].stage.Accepted?
    case StartBody(id) => id in s.ops && s.ops[id].stage.Queued?
    case CallModel(id, course) => id in s.ops && s.ops[id].stage.Working? && Fits(s.ops[id].action, course)
    case Settle(id) => id in s.ops && s.ops[id].stage.Ended?
    case Clear(id) => id in s.ops && s.ops[id].stage.Settled?
    case WriteLog(id) => id in s.ops && s.ops[id].stage.Cleared?
    case LoseLog(id) => id in s.ops && s.ops[id].stage.Cleared?
    case StopWaiting(id) =>
      id in s.ops && s.ops[id].waiter.Waiting? && !s.ops[id].stage.Accepted? && !s.ops[id].stage.Done?
    case RegisterTimeout(id) => id in s.ops && s.ops[id].waiter.GaveUp?
    case Collect(id) => id in s.ops && s.ops[id].waiter.Waiting? && s.ops[id].stage.Done?
  }

  function To(s: State, id: OpId, g: Stage): State
    requires id in s.ops
  {
    s.(ops := s.ops[id := s.ops[id].(stage := g)])
  }

  function Wait(s: State, id: OpId, w: Waiter): State
    requires id in s.ops
  {
    s.(ops := s.ops[id := s.ops[id].(waiter := w)])
  }

  function Apply(s: State, a: Step): State
    requires Enabled(s, a)
  {
    match a
    case Accept(id, action) =>
      s.(desired := Target(action), slot := Some(id), ops := s.ops[id := Operation(action, Accepted, Waiting)])
    case Submit(id) => To(s, id, Queued)
    case StartBody(id) => To(s, id, Working)
    case CallModel(id, course) =>
      To(s, id, Ended(course, s.model)).(model := ModelCall(s.model, course).0)
    case Settle(id) =>
      var (course, before) := (s.ops[id].stage.course, s.ops[id].stage.before);
      var end := ModelCall(before, course).1;
      To(s, id, Settled(course, before)).(desired := SettledDesired(s.ops[id].action, end, s.desired))
    case Clear(id) => To(s, id, Cleared(id in s.timedOut)).(slot := None, timedOut := s.timedOut - {id})
    case WriteLog(id) => To(s, id, Done).(log := s.log + [LogLine(id, s.ops[id].stage.late)])
    case LoseLog(id) => To(s, id, Done)
    case StopWaiting(id) => Wait(s, id, GaveUp)
    case RegisterTimeout(id) =>
      // the code tests that some operation is in flight, not that it is this one
      Wait(s, id, TimedOut).(timedOut := if s.slot.Some? then s.timedOut + {id} else s.timedOut)
    case Collect(id) => Wait(s, id, Answered)
  }

  ghost predicate Next(s: State, s': State) {
    exists a :: Enabled(s, a) && s' == Apply(s, a)
  }

  /** Only an enabled model is ever loaded. */
  predicate ModelOk(m: Model) {
    m.loaded ==> m.enabled
  }

  predicate IsStart(s: State) {
    s.desired == Running && s.slot == None && s.ops == map[] && s.timedOut == {} && s.log == [] && ModelOk(s.model)
  }

  ghost predicate Trace(states: seq<State>) {
    && |states| > 0 && IsStart(states[0])
    && forall i :: 0 <= i < |states| - 1 ==> Next(states[i], states[i + 1])
  }

  // ---- invariant ---------------------------------------------------

  ghost predicate SlotOk(s: State) {
    && (s.slot.Some? ==> s.slot.value in s.ops && InFlight(s.ops[s.slot.value].stage))
    && (forall id :: id in s.ops && InFlight(s.ops[id].stage) ==> s.slot == Some(id))
  }

  ghost predicate TimeoutsOk(s: State) {
    && (forall id :: id in s.timedOut ==> id in s.ops && s.ops[id].waiter.TimedOut?)
    && (forall id :: id in s.ops && s.ops[id].stage.Cleared? && s.ops[id].stage.late ==> s.ops[id].waiter.TimedOut?)
    && (forall k :: 0 <= k < |s.log| && s.log[k].late ==> s.log[k].id in s.ops && s.ops[s.log[k].id].waiter.TimedOut?)
  }

  /** What `desired` and the model are while an operation is in flight. */
  ghost predicate ProgressOk(s: State, o: Operation) {
    match o.stage
    case Ended(course, before) =>
      && s.desired == Target(o.action) && s.model == ModelCall(before, course).0
      && Fits(o.action, course) && ModelOk(before)
    case Settled(course, before) =>
      && s.desired == SettledDesired(o.action, ModelCall(before, course).1, Target(o.action))
      && s.model == ModelCall(before, course).0 && Fits(o.action, course) && ModelOk(before)
    case Cleared(_) => true
    case Done => true
    case _ => s.desired == Target(o.action)
  }

  ghost predicate Inv(s: State) {
    && SlotOk(s) && TimeoutsOk(s) && ModelOk(s.model)
    && (s.slot.Some? ==> ProgressOk(s, s.ops[s.slot.value]))
  }

  /** Settled by how the call ended, `desired` agrees with the model exactly for the courses that land stable. */
  lemma SettlingAgrees(a: Action, before: Model, c: Course)
    requires Fits(a, c) && ModelOk(before)
    ensures var (m, end) := ModelCall(before, c);
            LandsStable(a, c, before) <==> DerivedState(SettledDesired(a, end, Target(a)), m.loaded) != IsTransitional
    ensures ModelOk(ModelCall(before, c).0)
  {
  }

  lemma StepKeepsSlot(s: State, a: Step)
    requires Inv(s) && Enabled(s, a)
    ensures SlotOk(Apply(s, a))
  {
  }

  lemma StepKeepsTimeouts(s: State, a: Step)
    requires Inv(s) && Enabled(s, a)
    ensures TimeoutsOk(Apply(s, a))
  {
  }

  lemma StepKeepsProgress(s: State, a: Step)
    requires Inv(s) && Enabled(s, a)
    ensures Apply(s, a).slot.Some? && SlotOk(Apply(s, a)) ==>
              ProgressOk(Apply(s, a), Apply(s, a).ops[Apply(s, a).slot.value])
  {
    if a.Settle? {
      SettlingAgrees(s.ops[a.id].action, s.ops[a.id].stage.before, s.ops[a.id].stage.course);
    }
  }

  lemma StepKeepsInv(s: State, a: Step)
    requires Inv(s) && Enabled(s, a)
    ensures Inv(Apply(s, a))
  {
    StepKeepsSlot(s, a);
    StepKeepsTimeouts(s, a);
    StepKeepsProgress(s, a);
    if a.CallModel? {
      SettlingAgrees(s.ops[a.id].action, s.model, a.course);
    }
  }

  lemma TraceKeepsInv(states: seq<State>)
    requires Trace(states)
    ensures forall i :: 0 <= i < |states| ==> Inv(states[i])
  {
    forall s, t | Inv(s) && Next(s, t) ensures Inv(t) {
      var a :| Enabled(s, a) && t == Apply(s, a);
      StepKeepsInv(s, a);
    }
    Traces.InvariantHolds(states, s => IsStart(s), (s, t) => Next(s, t), s => Inv(s));
  }

  // ---- theorems ----------------------------------------------------

  /** Single flight: whatever executes between acceptance and clearing is the recorded operation. */
  lemma SingleFlight(states: seq<State>, i: nat, id: OpId, other: OpId)
    requires Trace(states) && i < |states|
    requires id in states[i].ops && InFlight(states[i].ops[id].stage)
    ensures states[i].slot == Some(id)
    ensures other in states[i].ops && InFlight(states[i].ops[other].stage) ==> other == id
  {
    TraceKeepsInv(states);
  }

  /**
   Landing: at the instant the slot is freed the derived state is running or
   stopped, whether or not the waiter is still there, exactly for the courses
   that lie in `LandsStable`.
   */
  lemma Landing(states: seq<State>, id: OpId)
    requires Trace(states) && Enabled(states[|states| - 1], Clear(id))
    ensures var s := states[|states| - 1];
            && Apply(s, Clear(id)).slot == None
            && (Stable(Apply(s, Clear(id))) <==>
                  LandsStable(s.ops[id].action, s.ops[id].stage.course, s.ops[id].stage.before))
    ensures var after := Apply(states[|states| - 1], Clear(id));
            Stable(after) ==>
              && (DerivedState(after.desired, after.model.loaded) == IsRunning <==> after.model.loaded)
              && (DerivedState(after.desired, after.model.loaded) == IsStopped <==> !after.model.loaded)
              && (after.desired == Running <==> after.model.loaded)
  {
    TraceKeepsInv(states);
    var o := states[|states| - 1].ops[id];
    SettlingAgrees(o.action, o.stage.before, o.stage.course);
  }

  /** The waiter is answered with a success. */
  predicate Succeeds(s: State, id: OpId)
    requires Enabled(s, Clear(id))
  {
    ModelCall(s.ops[id].stage.before, s.ops[id].stage.course).1.Fine?
  }

  /**
   An action succeeds exactly if its call was the one of the action and nothing
   raised in it, and a success is never untrue: the instance is in the state the
   answer names. An unload that failed past the point of no return is an error
   although it leaves the instance stopped.
   */
  lemma SuccessExactly(states: seq<State>, id: OpId)
    requires Trace(states) && Enabled(states[|states| - 1], Clear(id))
    ensures var s := states[|states| - 1];
            var (a, c, before) := (s.ops[id].action, s.ops[id].stage.course, s.ops[id].stage.before);
            && (Succeeds(s, id) <==>
                  || (a == Stop && c.CallUnload? && !(before.torch && c.cacheFails))
                  || (a == Restore && c.CallLoad? && before.enabled && (before.loaded || c.load == Loads)))
            && (c.RefuseUnload? ==> a == Stop)
    ensures var (s, after) := (states[|states| - 1], Apply(states[|states| - 1], Clear(id)));
            Succeeds(s, id) ==>
              DerivedState(after.desired, after.model.loaded)
              == (if s.ops[id].action == Stop then IsStopped else IsRunning)
    ensures var (s, after) := (states[|states| - 1], Apply(states[|states| - 1], Clear(id)));
            s.ops[id].stage.course.CallUnload? ==> DerivedState(after.desired, after.model.loaded) == IsStopped
  {
    TraceKeepsInv(states);
  }

  /** Nobody gives up or is answered before the operation is handed on, and only a finished one is answered. */
  ghost predicate WaitersOk(s: State) {
    forall id :: id in s.ops ==>
      && (s.ops[id].stage.Accepted? ==> s.ops[id].waiter.Waiting?)
      && (s.ops[id].waiter.Answered? ==> s.ops[id].stage.Done?)
  }

  lemma StepKeepsWaiters(s: State, a: Step)
    requires WaitersOk(s) && Enabled(s, a)
    ensures WaitersOk(Apply(s, a))
  {
  }

  lemma TraceKeepsWaiters(states: seq<State>)
    requires Trace(states)
    ensures forall i :: 0 <= i < |states| ==> WaitersOk(states[i])
  {
    forall s, t | WaitersOk(s) && Next(s, t) ensures WaitersOk(t) {
      var a :| Enabled(s, a) && t == Apply(s, a);
      StepKeepsWaiters(s, a);
    }
    Traces.InvariantHolds(states, s => IsStart(s), (s, t) => Next(s, t), s => WaitersOk(s));
  }

  /** The waiter stops waiting for an operation that was handed on and is not finished. */
  predicate GivesUp(was: Operation, now: Operation) {
    was.waiter.Waiting? && now.waiter.GaveUp? && !was.stage.Accepted? && !was.stage.Done?
  }

  /** A waiter gives up and then times out, or is answered. */
  predicate WaiterGoesOn(was: Operation, now: Operation) {
    || now.waiter == was.waiter
    || GivesUp(was, now)
    || (was.waiter.GaveUp? && now.waiter.TimedOut?)
    || (was.waiter.Waiting? && now.waiter.Answered? && was.stage.Done?)
  }

  lemma WaiterStep(s: State, a: Step, id: OpId)
    requires WaitersOk(s) && Enabled(s, a) && id in s.ops
    ensures id in Apply(s, a).ops && Apply(s, a).ops[id].action == s.ops[id].action
    ensures WaiterGoesOn(s.ops[id], Apply(s, a).ops[id])
  {
  }

  ghost predicate GivesUpBetween(states: seq<State>, i: nat, n: nat, id: OpId) {
    exists k :: i <= k < n && k < |states| - 1 && GivesUpAt(states, k, id)
  }

  ghost predicate GivesUpAt(states: seq<State>, k: nat, id: OpId)
    requires k < |states| - 1
  {
    id in states[k].ops && id in states[k + 1].ops && GivesUp(states[k].ops[id], states[k + 1].ops[id])
  }

  lemma GivesUpSoFar(states: seq<State>, i: nat, n: nat, id: OpId)
    requires i <= n < |states| - 1
    ensures GivesUpBetween(states, i, n + 1, id) <==> GivesUpBetween(states, i, n, id) || GivesUpAt(states, n, id)
  {
  }

  ghost predicate GoesOnAt(states: seq<State>, k: nat, id: OpId)
    requires k < |states| - 1
  {
    && id in states[k].ops && id in states[k + 1].ops && states[k + 1].ops[id].action == states[k].ops[id].action
    && WaiterGoesOn(states[k].ops[id], states[k + 1].ops[id])
  }

  ghost predicate GoesOn(states: seq<State>, i: nat, n: nat, id: OpId)
    requires n < |states|
  {
    forall k :: i <= k < n ==> GoesOnAt(states, k, id)
  }

  lemma WaiterAt(states: seq<State>, n: nat, id: OpId)
    requires Trace(states) && n < |states| - 1 && id in states[n].ops
    ensures GoesOnAt(states, n, id)
  {
    TraceKeepsWaiters(states);
    var a := StepAt(states, n);
    WaiterStep(states[n], a, id);
  }

  lemma {:induction false} StaysKnown(states: seq<State>, i: nat, n: nat, id: OpId)
    requires Trace(states) && i <= n < |states| && id in states[i].ops
    ensures id in states[n].ops
  {
    if i < n {
      StaysKnown(states, i, n - 1, id);
      WaiterAt(states, n - 1, id);
    }
  }

  lemma WaiterOnward(states: seq<State>, i: nat, n: nat, id: OpId)
    requires Trace(states) && i <= n < |states| && id in states[i].ops
    ensures GoesOn(states, i, n, id)
  {
    forall k | i <= k < n ensures GoesOnAt(states, k, id) {
      StaysKnown(states, i, k, id);
      WaiterAt(states, k, id);
    }
  }

  /** Whoever has given up or timed out, and was waiting before, has given up in between. */
  lemma {:induction false} GaveUpBefore(states: seq<State>, i: nat, n: nat, id: OpId)
    requires i <= n < |states| && id in states[i].ops && states[i].ops[id].waiter.Waiting? && GoesOn(states, i, n, id)
    ensures id in states[n].ops
    ensures states[n].ops[id].waiter.GaveUp? || states[n].ops[id].waiter.TimedOut? ==> GivesUpBetween(states, i, n, id)
  {
    if i < n {
      GaveUpBefore(states, i, n - 1, id);
      assert GoesOnAt(states, n - 1, id);
      GivesUpSoFar(states, i, n - 1, id);
    }
  }

  /** An answer and a timeout are final. */
  lemma {:induction false} AnswersLast(states: seq<State>, i: nat, n: nat, id: OpId)
    requires i <= n < |states| && id in states[i].ops && GoesOn(states, i, n, id)
    ensures id in states[n].ops && states[n].ops[id].action == states[i].ops[id].action
    ensures states[i].ops[id].waiter.Answered? || states[i].ops[id].waiter.TimedOut? ==>
              states[n].ops[id].waiter == states[i].ops[id].waiter
  {
    if i < n {
      AnswersLast(states, i, n - 1, id);
      assert GoesOnAt(states, n - 1, id);
    }
  }

  /**
   Every waiter gets one answer: once it is answered or has timed out that
   stays, whoever is answered has a finished operation, and whoever times out
   has given up before, when the operation was under way and not finished.
   */
  lemma OneAnswerEach(states: seq<State>, i: nat, n: nat, id: OpId)
    requires Trace(states) && i <= n < |states| && id in states[i].ops
    ensures id in states[n].ops && states[n].ops[id].action == states[i].ops[id].action
    ensures states[i].ops[id].waiter.Answered? || states[i].ops[id].waiter.TimedOut? ==>
              states[n].ops[id].waiter == states[i].ops[id].waiter
    ensures states[n].ops[id].waiter.Answered? ==> states[n].ops[id].stage.Done?
    ensures states[i].ops[id].waiter.Waiting? && states[n].ops[id].waiter.TimedOut? ==> GivesUpBetween(states, i, n, id)
  {
    TraceKeepsWaiters(states);
    WaiterOnward(states, i, n, id);
    AnswersLast(states, i, n, id);
    if states[i].ops[id].waiter.Waiting? {
      GaveUpBefore(states, i, n, id);
    }
  }

  /** The calls the shipped model can answer, which leaves out a worker body that raises by itself. */
  predicate Shipped(c: Course) {
    c.CallUnload? || c.CallLoad?
  }

  /** With these, an action lands transitional exactly if it installs a model and then fails to announce it. */
  lemma ShippedLanding(states: seq<State>, id: OpId)
    requires Trace(states) && Enabled(states[|states| - 1], Clear(id))
    requires Shipped(states[|states| - 1].ops[id].stage.course)
    ensures var s := states[|states| - 1];
            var (course, before) := (s.ops[id].stage.course, s.ops[id].stage.before);
            Stable(Apply(s, Clear(id))) <==> !(course == CallLoad(FailsAnnouncing) && before.enabled && !before.loaded)
  {
    Landing(states, id);
  }

  /** The derived state stays as it is for as long as the slot is free, which only an acceptance ends. */
  lemma {:induction false} UnchangedUntilAcceptance(states: seq<State>, i: nat, n: nat)
    requires Trace(states) && i <= n < |states| && forall j :: i <= j <= n ==> states[j].slot == None
    ensures states[n].desired == states[i].desired && states[n].model == states[i].model
    ensures Stable(states[n]) <==> Stable(states[i])
  {
    if i < n {
      UnchangedUntilAcceptance(states, i, n - 1);
      FreeSlotStays(states, n - 1);
    }
  }

  lemma FreeSlotStays(states: seq<State>, i: nat)
    requires Trace(states) && i < |states| - 1 && states[i].slot == None && states[i + 1].slot == None
    ensures states[i + 1].desired == states[i].desired && states[i + 1].model == states[i].model
  {
    TraceKeepsInv(states);
    var a := StepAt(states, i);
    FreeSlotStep(states[i], a);
  }

  /** From a free slot every step but an acceptance keeps slot, desired state and model. */
  lemma FreeSlotStep(s: State, a: Step)
    requires Inv(s) && Enabled(s, a) && s.slot == None
    ensures Apply(s, a).slot == None <==> !a.Accept?
    ensures !a.Accept? ==> Apply(s, a).desired == s.desired && Apply(s, a).model == s.model
  {
  }

  /** The step by which a trace goes on. */
  lemma StepAt(states: seq<State>, i: nat) returns (a: Step)
    requires Trace(states) && i < |states| - 1
    ensures Enabled(states[i], a) && states[i + 1] == Apply(states[i], a)
  {
    assert Next(states[i], states[i + 1]);
    a :| Enabled(states[i], a) && states[i + 1] == Apply(states[i], a);
  }

  /** A restore on the shipped model that lands transitional: the model is loaded, announcing it raises. */
  lemma RestoreLandsTransitional() returns (states: seq<State>)
    ensures Trace(states)
    ensures var s := states[|states| - 1];
            Enabled(s, Clear(0)) && Shipped(s.ops[0].stage.course) && !Stable(Apply(s, Clear(0)))
  {
    states := [State(Running, Model(true, false, false), None, map[], {}, [])];
    states := Extend(states, Accept(0, Restore));
    states := Extend(states, Submit(0));
    states := Extend(states, StartBody(0));
    states := Extend(states, CallModel(0, CallLoad(FailsAnnouncing)));
    states := Extend(states, Settle(0));
  }

  /**
   A worker body that raises by itself while the model cannot tell whether it is
   loaded lands a stop of an unloaded model transitional: it must not be said to
   be stopped.
   */
  lemma StopLandsTransitional() returns (states: seq<State>)
    ensures Trace(states)
    ensures var s := states[|states| - 1];
            && Enabled(s, Clear(0)) && s.ops[0].action == Stop && s.ops[0].stage.course == BodyRaises(false)
            && !s.ops[0].stage.before.loaded && !Stable(Apply(s, Clear(0)))
  {
    states := [State(Running, Model(true, false, false), None, map[], {}, [])];
    states := Extend(states, Accept(0, Stop));
    states := Extend(states, Submit(0));
    states := Extend(states, StartBody(0));
    states := Extend(states, CallModel(0, BodyRaises(false)));
    states := Extend(states, Settle(0));
  }

  lemma Extend(states: seq<State>, a: Step) returns (more: seq<State>)
    requires Trace(states) && Enabled(states[|states| - 1], a)
    ensures Trace(more) && |more| == |states| + 1 && more[|more| - 1] == Apply(states[|states| - 1], a)
  {
    more := states + [Apply(states[|states| - 1], a)];
    forall i | 0 <= i < |more| - 1 ensures Next(more[i], more[i + 1]) {
      if i < |states| - 1 {
        assert more[i] == states[i] && more[i + 1] == states[i + 1];
      }
    }
  }

  lemma StopSettles() returns (states: seq<State>)
    ensures Trace(states)
    ensures states[|states| - 1]
            == State(Stopped, Model(true, false, true), Some(0),
                     map[0 := Operation(Stop, Settled(CallUnload(false), Model(true, true, true)), Waiting)], {}, [])
  {
    states := [State(Running, Model(true, true, true), None, map[], {}, [])];
    states := Extend(states, Accept(0, Stop));
    states := Extend(states, Submit(0));
    states := Extend(states, StartBody(0));
    states := Extend(states, CallModel(0, CallUnload(false)));
    states := Extend(states, Settle(0));
  }

  /** A stop that finishes just after its waiter has given up and before that is registered. */
  lemma StopOutrunsItsTimeout() returns (states: seq<State>)
    ensures Trace(states)
    ensures states[|states| - 1]
            == State(Stopped, Model(true, false, true), None, map[0 := Operation(Stop, Done, GaveUp)], {},
                     [LogLine(0, false)])
  {
    states := StopSettles();
    states := Extend(states, StopWaiting(0));
    states := Extend(states, Clear(0));
    states := Extend(states, WriteLog(0));
  }

  /**
   The set of timed-out ids is not always drained: such a waiter registers
   while the next operation is in flight, and nothing takes its id out again.
   */
  lemma TimedOutCanLeak() returns (states: seq<State>)
    ensures Trace(states)
    ensures var s := states[|states| - 1]; 0 in s.timedOut && 0 in s.ops && s.ops[0].stage.Done?
  {
    states := StopOutrunsItsTimeout();
    states := Extend(states, Accept(1, Restore));
    states := Extend(states, RegisterTimeout(0));
  }

  // ---- when a timed-out id is not drained --------------------------

  /** The operation is over and its id is still among the timed-out ones. */
  predicate Leaked(s: State, id: OpId) {
    id in s.timedOut && id in s.ops && !InFlight(s.ops[id].stage)
  }

  /** A waiter registers its timeout when the test finds an operation in flight, but another one's. */
  predicate RegistersLate(s: State, a: Step, id: OpId) {
    a == RegisterTimeout(id) && s.slot.Some? && s.slot.value != id
  }

  /** Registering leaves the id behind exactly if another operation is in flight at that moment. */
  lemma RegistrationLeaksExactly(states: seq<State>, id: OpId)
    requires Trace(states) && Enabled(states[|states| - 1], RegisterTimeout(id))
    ensures var s := states[|states| - 1];
            Leaked(Apply(s, RegisterTimeout(id)), id) <==> s.slot.Some? && s.slot.value != id
  {
    TraceKeepsInv(states);
  }

  /** An id is left behind by a late registration, or because it was before. */
  lemma LeakStep(s: State, a: Step, id: OpId)
    requires Inv(s) && Enabled(s, a)
    ensures Leaked(Apply(s, a), id) <==> Leaked(s, id) || RegistersLate(s, a, id)
  {
  }

  ghost predicate LateAt(states: seq<State>, i: nat, id: OpId)
    requires i < |states| - 1
  {
    && Enabled(states[i], RegisterTimeout(id)) && states[i + 1] == Apply(states[i], RegisterTimeout(id))
    && RegistersLate(states[i], RegisterTimeout(id), id)
  }

  lemma LeakOnward(states: seq<State>, n: nat, id: OpId)
    requires Trace(states) && n < |states| - 1
    ensures Leaked(states[n + 1], id) <==> Leaked(states[n], id) || LateAt(states, n, id)
  {
    TraceKeepsInv(states);
    var a := StepAt(states, n);
    LeakStep(states[n], a, id);
    if LateAt(states, n, id) {
      LeakStep(states[n], RegisterTimeout(id), id);
    }
  }

  ghost predicate LateBefore(states: seq<State>, n: nat, id: OpId)
    requires n <= |states|
  {
    exists i :: 0 <= i < n && i < |states| - 1 && LateAt(states, i, id)
  }

  lemma LateSoFar(states: seq<State>, n: nat, id: OpId)
    requires n < |states| - 1
    ensures LateBefore(states, n + 1, id) <==> LateBefore(states, n, id) || LateAt(states, n, id)
  {
  }

  /**
   At any moment of any run the id of an operation that is over is among the
   timed-out ones exactly if its waiter has registered while another operation
   was in flight.
   */
  lemma {:induction false} LeakedExactly(states: seq<State>, n: nat, id: OpId)
    requires Trace(states) && n < |states|
    ensures Leaked(states[n], id) <==> LateBefore(states, n, id)
  {
    if n > 0 {
      LeakedExactly(states, n - 1, id);
      LeakOnward(states, n - 1, id);
      LateSoFar(states, n - 1, id);
    }
  }

  /** So with a free slot the set is empty exactly if no waiter has ever registered during another's operation. */
  lemma DrainedExactly(states: seq<State>, n: nat)
    requires Trace(states) && n < |states| && states[n].slot == None
    ensures states[n].timedOut == {} <==> forall id :: !LateBefore(states, n, id)
  {
    TraceKeepsInv(states);
    forall id ensures id in states[n].timedOut <==> LateBefore(states, n, id) {
      LeakedExactly(states, n, id);
    }
  }

  // ---- when an operation is marked late ----------------------------

  /** A waiter registers its timeout while its own operation is in flight. */
  predicate RegistersInTime(s: State, a: Step, id: OpId) {
    a == RegisterTimeout(id) && s.slot == Some(id)
  }

  /** What tells late operations: while in flight the set of timed-out ids, once cleared the mark, then the line. */
  ghost predicate TellsLate(s: State, id: OpId, late: bool) {
    && (id !in s.ops ==> !late)
    && (id in s.ops && InFlight(s.ops[id].stage) ==> (id in s.timedOut <==> late))
    && (id in s.ops && s.ops[id].stage.Cleared? ==> (s.ops[id].stage.late <==> late))
    && LinesTell(s, id, late)
  }

  ghost predicate LinesTell(s: State, id: OpId, late: bool) {
    forall k :: 0 <= k < |s.log| && s.log[k].id == id ==>
      id in s.ops && s.ops[id].stage.Done? && (s.log[k].late <==> late)
  }

  lemma LinesTellStep(s: State, a: Step, id: OpId, late: bool)
    requires SlotOk(s) && Enabled(s, a) && TellsLate(s, id, late)
    ensures LinesTell(Apply(s, a), id, late || RegistersInTime(s, a, id))
  {
  }

  lemma TellsLateStep(s: State, a: Step, id: OpId, late: bool)
    requires Inv(s) && Enabled(s, a) && TellsLate(s, id, late)
    ensures TellsLate(Apply(s, a), id, late || RegistersInTime(s, a, id))
  {
    LinesTellStep(s, a, id, late);
  }

  ghost predicate InTimeAt(states: seq<State>, i: nat, id: OpId)
    requires i < |states| - 1
  {
    && Enabled(states[i], RegisterTimeout(id)) && states[i + 1] == Apply(states[i], RegisterTimeout(id))
    && RegistersInTime(states[i], RegisterTimeout(id), id)
  }

  ghost predicate InTimeBefore(states: seq<State>, n: nat, id: OpId)
    requires n <= |states|
  {
    exists i :: 0 <= i < n && i < |states| - 1 && InTimeAt(states, i, id)
  }

  lemma TellsLateOnward(states: seq<State>, n: nat, id: OpId, late: bool)
    requires Trace(states) && n < |states| - 1 && TellsLate(states[n], id, late)
    ensures TellsLate(states[n + 1], id, late || InTimeAt(states, n, id))
  {
    TraceKeepsInv(states);
    var a := StepAt(states, n);
    if InTimeAt(states, n, id) {
      a := RegisterTimeout(id);
    }
    TellsLateStep(states[n], a, id, late);
  }

  lemma InTimeSoFar(states: seq<State>, n: nat, id: OpId)
    requires n < |states| - 1
    ensures InTimeBefore(states, n + 1, id) <==> InTimeBefore(states, n, id) || InTimeAt(states, n, id)
  {
  }

  lemma {:induction false} LateIsTold(states: seq<State>, n: nat, id: OpId)
    requires Trace(states) && n < |states|
    ensures TellsLate(states[n], id, InTimeBefore(states, n, id))
  {
    if n > 0 {
      LateIsTold(states, n - 1, id);
      TellsLateOnward(states, n - 1, id, InTimeBefore(states, n - 1, id));
      InTimeSoFar(states, n - 1, id);
    }
  }

  /**
   When it is cleared and in the line it writes, an operation is marked late
   exactly if its waiter has registered its timeout while it was in flight.
   */
  lemma LateExactly(states: seq<State>, n: nat, id: OpId)
    requires Trace(states) && n < |states|
    ensures id in states[n].ops && states[n].ops[id].stage.Cleared? ==>
              (states[n].ops[id].stage.late <==> InTimeBefore(states, n, id))
    ensures forall k :: 0 <= k < |states[n].log| && states[n].log[k].id == id ==>
              (states[n].log[k].late <==> InTimeBefore(states, n, id))
  {
    LateIsTold(states, n, id);
  }
}
