/** The moves between the states of a run, and what the event log of a published batch is. */
module RunLog {
  import opened Wrappers
  import opened Cohort

  /** The moves the state machine of runs allows. */
  predicate CanMove(origin: State, target: State) {
    match origin
    case Created => target == Validating || target == Incomplete
    case Validating => target == Running || target == Rejected || target == Incomplete
    case Running => target == EvidenceReady || target == Rejected || target == Incomplete
    case Incomplete => target == Validating || target == Registered
    case Rejected => target == Registered
    case EvidenceReady => target == Registered
    case Registered => false
  }

  /** How far a run has come. */
  function Rank(s: State): nat {
    match s
    case Created => 0
    case Validating => 1
    case Running => 2
    case Registered => 4
    case _ => 3
  }

  /**
   A run moves on until it is registered, which it can be from each of its three
   ends; it goes back only by the retry of an incomplete one, and until it has
   ended it can become incomplete at any time.
   */
  lemma MovesOn(a: State, b: State)
    ensures CanMove(a, b) ==> Rank(a) < Rank(b) || (a == Incomplete && b == Validating)
    ensures CanMove(a, Registered) <==> a in {EvidenceReady, Rejected, Incomplete}
    ensures CanMove(a, Incomplete) <==> a in {Created, Validating, Running}
    ensures CanMove(a, Rejected) <==> a in {Validating, Running}
    ensures CanMove(a, Validating) <==> a in {Created, Incomplete}
    ensures CanMove(a, EvidenceReady) <==> a == Running
    ensures CanMove(a, Running) <==> a == Validating
  {
  }

  /** How the log of a run goes on after its walk: with the gate's rejection, or with the candidate's registration. */
  predicate IsEnding(e: Event, last: Event, state: State, c: Candidate) {
    if state == Rejected then
      && e.kind == GateRejected && e.origin == last.origin && e.target == Rejected
      && e.reason == last.reason == Some(LOOKAHEAD) && e.evidence == None && e.sequence == last.sequence + 1
    else
      && e.kind == MemberRegistered && e.origin == state && e.target == Registered
      && e.reason == None && e.evidence == Some(c) && e.sequence == 0
  }

  /** An incomplete experiment was abandoned, with a reason. */
  predicate IsAbandonment(e: Event, state: State) {
    && state == Incomplete && e.kind == StateChanged && e.origin == Incomplete && e.target == Registered
    && e.reason.Some? && e.reason.value != BLANK_REASON
  }

  /** How many events lead to the state. */
  function Length(state: State): nat {
    if state == Rejected then 2 else 3
  }

  /** The events up to the final state are numbered state changes, each from where the one before has led. */
  predicate IsMove(events: seq<Event>, i: nat, state: State)
    requires i < |events|
  {
    && events[i].kind == StateChanged && events[i].sequence == i && events[i].evidence == None
    && events[i].origin == (if i == 0 then Created else events[i - 1].target)
    && (i == Length(state) - 1 ==> events[i].target == state)
  }

  /** The moves come first, then the ending, then any number of abandonments. */
  predicate IsEventAt(events: seq<Event>, i: nat, x: Experiment, state: State, c: Candidate)
    requires i < |events|
  {
    var (e, n) := (events[i], Length(state));
    && e.experiment == x && CanMove(e.origin, e.target)
    && if i < n then IsMove(events, i, state)
       else if i == n then IsEnding(e, events[n - 1], state, c)
       else IsAbandonment(e, state)
  }

  /** The log of a run of the experiment that has ended in the state, with the registration of the candidate. */
  predicate IsRunLog(events: seq<Event>, x: Experiment, state: State, c: Candidate) {
    |events| > Length(state) && forall i :: 0 <= i < |events| ==> IsEventAt(events, i, x, state, c)
  }

  /** Abandoning the experiment is the one thing that can still be noted in the log of a run. */
  lemma AppendAbandonment(events: seq<Event>, x: Experiment, state: State, c: Candidate, e: Event)
    requires IsRunLog(events, x, state, c) && e.experiment == x
    ensures IsRunLog(events + [e], x, state, c) <==> IsAbandonment(e, state)
  {
    var more := events + [e];
    assert IsRunLog(more, x, state, c) ==> IsEventAt(more, |events|, x, state, c);
    if IsAbandonment(e, state) {
      forall i | 0 <= i < |more| ensures IsEventAt(more, i, x, state, c) {
        assert i < |events| ==> IsEventAt(events, i, x, state, c);
      }
    }
  }

  /** The registration in the log, if the run was not rejected, is of the candidate and leaves from the final state. */
  lemma OneRegistration(events: seq<Event>, x: Experiment, state: State, c: Candidate, i: nat)
    requires IsRunLog(events, x, state, c) && i < |events|
    ensures events[i].kind == MemberRegistered <==> i == Length(state) && state != Rejected
    ensures events[i].kind == MemberRegistered ==>
              && events[i].experiment == x && events[i].origin == state && events[i].target == Registered
              && events[i].reason == None && events[i].evidence == Some(c)
  {
    assert IsEventAt(events, i, x, state, c);
  }

  /** Of a log only one final state and one length of the run can be told. */
  lemma StateIsTold(events: seq<Event>, x: Experiment, a: State, b: State, c: Candidate, d: Candidate)
    requires IsRunLog(events, x, a, c) && IsRunLog(events, x, b, d)
    ensures a == b && (a != Rejected ==> c == d)
  {
    assert IsEventAt(events, Length(a), x, a, c) && IsEventAt(events, Length(b), x, b, d);
    assert IsEventAt(events, Length(a) - 1, x, a, c) && IsEventAt(events, Length(b) - 1, x, b, d);
    assert IsEventAt(events, Length(a), x, b, d) && IsEventAt(events, Length(b), x, a, c);
    assert IsEventAt(events, Length(a) - 1, x, b, d) && IsEventAt(events, Length(b) - 1, x, a, c);
  }
}
