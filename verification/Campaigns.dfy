/**
 Operations on the canonical registry one after the other, in any order and
 killed anywhere: what they keep, when a blocked candidate gets through, when
 the registrations can no longer be read, and how a cohort gets its verdict.
 */
module Campaigns {
  import opened Wrappers
  import opened Cohort
  import opened Canonical

  /** A run of one candidate, a finalization, or a candidate registered on an abandoned experiment. */
  datatype Operation =
    | Run(attempt: Attempt)
    | Finalize(ruling: Ruling, at: nat, effects: nat)
    | Abandon(experiment: Experiment, reason: nat, candidate: Candidate, effects: nat)

  /** Whom the operation has registered without a run. */
  function Abandons(o: Operation, s: Step): set<Candidate> {
    if o.Abandon? && s == Done then {o.candidate} else {}
  }

  /** What all operations share, and leave behind. */
  datatype Registry = Registry(targets: map<Experiment, Batch>, files: Files, verdict: Option<Verdict>)

  function Now(r: Reports): Registry
    reads r`targets, r`files, r`verdict
  {
    Registry(r.targets, r.files, r.verdict)
  }

  /**
   Batches, registrations and the verdict stay; and once two registrations of a candidate differ, that
   stays, and a cohort that has no verdict by then never gets one.
   */
  ghost predicate Kept(a: Registry, b: Registry) {
    && Lasts(a.targets, b.targets) && Grows(a.files, b.files)
    && (a.verdict.Some? ==> b.verdict == a.verdict)
    && (!Consistent(a.files) ==> !Consistent(b.files) && b.verdict == a.verdict)
  }

  lemma KeptOn(a: Registry, b: Registry, c: Registry)
    requires Kept(a, b) && Kept(b, c)
    ensures Kept(a, c)
  {
    LastsOn(a.targets, b.targets, c.targets);
  }

  lemma LastsOn(a: map<Experiment, Batch>, b: map<Experiment, Batch>, c: map<Experiment, Batch>)
    requires Lasts(a, b) && Lasts(b, c)
    ensures Lasts(a, c)
  {
  }

  lemma InconsistentStays(f: Files, g: Files)
    requires Grows(f, g) && !Consistent(f)
    ensures !Consistent(g)
  {
    var d, e :| d in f && e in f && f[d].candidate == f[e].candidate && f[d] != f[e];
    assert g[d] == f[d] && g[e] == f[e];
  }

  /** Registering the candidate without a run is tried on its own experiment only. */
  predicate OnItsOwn(o: Operation, c: Candidate, x: Experiment) {
    o.Abandon? && o.candidate == c ==> o.experiment == x
  }

  predicate AllOnItsOwn(operations: seq<Operation>, c: Candidate, x: Experiment) {
    forall i :: 0 <= i < |operations| ==> OnItsOwn(operations[i], c, x)
  }

  /** The experiment is published and not incomplete. */
  predicate Concluded(targets: map<Experiment, Batch>, x: Experiment) {
    x in targets && targets[x].manifest.Some? && targets[x].manifest.value.evidence.state != Incomplete
  }

  lemma ConcludedStays(a: map<Experiment, Batch>, b: map<Experiment, Batch>)
    requires Lasts(a, b)
    ensures forall x :: Concluded(a, x) ==> Concluded(b, x)
  {
  }

  /** It would register a candidate without a run on its own experiment, which is concluded. */
  predicate AbandonsConcluded(targets: map<Experiment, Batch>, experimentOf: Candidate -> Experiment, o: Operation) {
    o.Abandon? && o.experiment == experimentOf(o.candidate) && Concluded(targets, o.experiment)
  }

  /** The candidates registered without a run. */
  function Abandoned(operations: seq<Operation>, steps: seq<Step>): set<Candidate> {
    set i |
      0 <= i < |operations| && i < |steps| && operations[i].Abandon? && steps[i] == Done :: operations[i].candidate
  }

  lemma AbandonedSoFar(operations: seq<Operation>, steps: seq<Step>, s: Step)
    requires |steps| < |operations|
    ensures Abandoned(operations, steps + [s]) == Abandoned(operations, steps) + Abandons(operations[|steps|], s)
  {
    forall c | c in Abandoned(operations, steps) ensures c in Abandoned(operations, steps + [s]) {
      var i :| 0 <= i < |steps| && operations[i].Abandon? && steps[i] == Done && operations[i].candidate == c;
      assert (steps + [s])[i] == Done;
    }
    assert (steps + [s])[|steps|] == s;
  }

  /** Only experiments that are open are abandoned, so a concluded one is left alone. */
  lemma ConcludedAreNotAbandoned(operations: seq<Operation>, steps: seq<Step>, targets: map<Experiment, Batch>,
                                 experimentOf: Candidate -> Experiment, c: Candidate)
    requires forall k :: 0 <= k < |operations| && k < |steps| && steps[k] == Done ==>
               !AbandonsConcluded(targets, experimentOf, operations[k])
    requires Concluded(targets, experimentOf(c)) && AllOnItsOwn(operations, c, experimentOf(c))
    ensures c !in Abandoned(operations, steps)
  {
  }

  /** What is done has left its member registered, and a run its experiment published. */
  predicate Registers(a: Registry, experimentOf: Candidate -> Experiment, o: Operation) {
    match o
    case Run(attempt) => experimentOf(attempt.candidate) in a.targets && IsRegistered(a.files, attempt.candidate)
    case Abandon(_, _, c, _) => IsRegistered(a.files, c)
    case Finalize(_, _, _) => true
  }

  lemma RegistersStays(a: Registry, b: Registry, experimentOf: Candidate -> Experiment, o: Operation)
    requires Registers(a, experimentOf, o) && Kept(a, b)
    ensures Registers(b, experimentOf, o)
  {
    match o
    case Run(attempt) => StaysRegistered(a.files, b.files, attempt.candidate);
    case Abandon(_, _, c, _) => StaysRegistered(a.files, b.files, c);
    case Finalize(_, _, _) =>
  }

  /** Of the candidates blocked in `a`, `who` are not in `b`. */
  ghost predicate Unblocks(a: Registry, b: Registry, experimentOf: Candidate -> Experiment, who: set<Candidate>) {
    forall c :: IsBlocked(a.targets, a.files, experimentOf, c) ==>
      (IsBlocked(b.targets, b.files, experimentOf, c) <==> c !in who)
  }

  lemma UnblocksOn(a: Registry, b: Registry, c: Registry, experimentOf: Candidate -> Experiment,
                   who: set<Candidate>, more: set<Candidate>)
    requires Unblocks(a, b, experimentOf, who) && Unblocks(b, c, experimentOf, more) && Kept(b, c)
    requires forall d :: d in who ==> IsRegistered(b.files, d)
    ensures Unblocks(a, c, experimentOf, who + more)
  {
    forall d | d in who ensures IsRegistered(c.files, d) {
      StaysRegistered(b.files, c.files, d);
    }
  }

  /** One operation leads from `a` to `b`: it unblocks whom it registers without a run, and nobody else. */
  ghost predicate After(a: Registry, b: Registry, experimentOf: Candidate -> Experiment, o: Operation, s: Step) {
    && Kept(a, b)
    && (OnlyRuns(a.files) && Abandons(o, s) == {} ==> OnlyRuns(b.files))
    && Unblocks(a, b, experimentOf, Abandons(o, s))
    && (s == Done ==> !AbandonsConcluded(a.targets, experimentOf, o) && Registers(b, experimentOf, o))
  }

  /** Some operations lead from `a` to `b`. */
  ghost predicate Since(a: Registry, b: Registry, experimentOf: Candidate -> Experiment, operations: seq<Operation>,
                        steps: seq<Step>)
  {
    && Kept(a, b)
    && (OnlyRuns(a.files) && Abandoned(operations, steps) == {} ==> OnlyRuns(b.files))
    && Unblocks(a, b, experimentOf, Abandoned(operations, steps))
    && (forall k :: 0 <= k < |operations| && k < |steps| && steps[k] == Done ==>
                      !AbandonsConcluded(a.targets, experimentOf, operations[k])
                      && Registers(b, experimentOf, operations[k]))
  }

  lemma AbandonedAreRegistered(a: Registry, b: Registry, experimentOf: Candidate -> Experiment,
                               operations: seq<Operation>, steps: seq<Step>)
    requires Since(a, b, experimentOf, operations, steps)
    ensures forall c :: c in Abandoned(operations, steps) ==> IsRegistered(b.files, c)
  {
    forall c | c in Abandoned(operations, steps) ensures IsRegistered(b.files, c) {
      var k :| 0 <= k < |operations| && k < |steps| && operations[k].Abandon? && steps[k] == Done
               && operations[k].candidate == c;
      assert Registers(b, experimentOf, operations[k]);
    }
  }

  lemma Onward(a: Registry, b: Registry, c: Registry, experimentOf: Candidate -> Experiment,
               operations: seq<Operation>, steps: seq<Step>, s: Step)
    requires |steps| < |operations|
    requires Since(a, b, experimentOf, operations, steps) && After(b, c, experimentOf, operations[|steps|], s)
    ensures Since(a, c, experimentOf, operations, steps + [s])
  {
    KeptOn(a, b, c);
    AbandonedSoFar(operations, steps, s);
    AbandonedAreRegistered(a, b, experimentOf, operations, steps);
    UnblocksOn(a, b, c, experimentOf, Abandoned(operations, steps), Abandons(operations[|steps|], s));
    ConcludedStays(a.targets, b.targets);
    forall k | 0 <= k < |steps| && steps[k] == Done ensures Registers(c, experimentOf, operations[k]) {
      RegistersStays(b, c, experimentOf, operations[k]);
    }
  }

  /** A concluded experiment is not abandoned. */
  lemma ConcludedIsKept(r: Reports, c: Candidate, reason: nat, effects: nat)
    requires Concluded(r.targets, r.experimentOf(c))
    ensures !r.CanAbandon(r.experimentOf(c), reason, c, effects)
  {
    var x := r.experimentOf(c);
    forall place | r.IsFirstManifest(x, Some(place)) ensures place == Published {
      r.FirstIsUnique(x, Some(place), Some(Published));
    }
  }

  lemma AfterRun(a: Registry, b: Registry, experimentOf: Candidate -> Experiment, o: Operation, s: Step)
    requires o.Run? && Grows(a.targets, b.targets) && Grows(a.files, b.files) && a.verdict == b.verdict
    requires OnlyRuns(a.files) ==> OnlyRuns(b.files)
    requires s == Done ==> Registers(b, experimentOf, o)
    requires forall c :: IsBlocked(a.targets, a.files, experimentOf, c) ==>
               IsBlocked(b.targets, b.files, experimentOf, c)
    ensures After(a, b, experimentOf, o, s)
  {
    if !Consistent(a.files) {
      InconsistentStays(a.files, b.files);
    }
  }

  lemma AfterAbandon(a: Registry, b: Registry, experimentOf: Candidate -> Experiment, o: Operation, s: Step)
    requires o.Abandon? && Lasts(a.targets, b.targets) && Grows(a.files, b.files) && a.verdict == b.verdict
    requires s != Done ==> a.files == b.files
    requires s == Done ==> IsRegistered(b.files, o.candidate) && !AbandonsConcluded(a.targets, experimentOf, o)
    requires forall c :: IsBlocked(a.targets, a.files, experimentOf, c) ==>
               (IsBlocked(b.targets, b.files, experimentOf, c) <==> !(s == Done && c == o.candidate))
    ensures After(a, b, experimentOf, o, s)
  {
    if !Consistent(a.files) {
      InconsistentStays(a.files, b.files);
    }
  }

  lemma AfterFinalize(a: Registry, b: Registry, experimentOf: Candidate -> Experiment, o: Operation, s: Step)
    requires o.Finalize? && a.targets == b.targets && a.files == b.files
    requires a.verdict.Some? || s != Done ==> b.verdict == a.verdict
    requires s == Done ==> Consistent(a.files)
    ensures After(a, b, experimentOf, o, s)
  {
  }

  method PerformAbandon(r: Reports, x: Experiment, reason: nat, c: Candidate, effects: nat) returns (s: Step)
    requires r.Valid()
    modifies r
    ensures r.Valid() && After(old(Now(r)), Now(r), r.experimentOf, Abandon(x, reason, c, effects), s)
  {
    ghost var a := Now(r);
    if Concluded(r.targets, x) && x == r.experimentOf(c) {
      ConcludedIsKept(r, c, reason, effects);
    }
    s := r.AbandonExperiment(x, reason, c, effects);
    AfterAbandon(a, Now(r), r.experimentOf, Abandon(x, reason, c, effects), s);
  }

  method Perform(r: Reports, o: Operation) returns (s: Step)
    requires r.Valid()
    modifies r
    ensures r.Valid() && After(old(Now(r)), Now(r), r.experimentOf, o, s)
  {
    ghost var a := Now(r);
    match o
    case Run(attempt) =>
      s := r.RunCanonical(attempt);
      AfterRun(a, Now(r), r.experimentOf, o, s);
    case Finalize(ruling, at, effects) =>
      s := r.FinalizeCohort(ruling, at, effects);
      AfterFinalize(a, Now(r), r.experimentOf, o, s);
    case Abandon(x, reason, c, effects) =>
      s := PerformAbandon(r, x, reason, c, effects);
  }

  method Campaign(r: Reports, operations: seq<Operation>) returns (steps: seq<Step>)
    requires r.Valid()
    modifies r
    ensures r.Valid() && |steps| == |operations|
    ensures Since(old(Now(r)), Now(r), r.experimentOf, operations, steps)
    ensures forall c :: old(r.Blocked(c)) && old(Concluded(r.targets, r.experimentOf(c))) ==>
              AllOnItsOwn(operations, c, r.experimentOf(c)) ==> r.Blocked(c)
  {
    steps := [];
    for i := 0 to |operations|
      invariant r.Valid() && |steps| == i
      invariant Since(old(Now(r)), Now(r), r.experimentOf, operations, steps)
    {
      ghost var before := Now(r);
      var s := Perform(r, operations[i]);
      Onward(old(Now(r)), before, Now(r), r.experimentOf, operations, steps, s);
      steps := steps + [s];
    }
    forall c | old(Concluded(r.targets, r.experimentOf(c))) && AllOnItsOwn(operations, c, r.experimentOf(c))
      ensures c !in Abandoned(operations, steps)
    {
      ConcludedAreNotAbandoned(operations, steps, old(r.targets), r.experimentOf, c);
    }
  }

  // ---- blocked -----------------------------------------------------

  lemma {:induction false} Above(s: set<nat>) returns (n: nat)
    ensures forall x :: x in s ==> x < n
  {
    if s == {} {
      n := 0;
    } else {
      var x :| x in s;
      n := Above(s - {x});
      n := if n <= x then x + 1 else n;
      assert s == (s - {x}) + {x};
    }
  }

  /** There is always a reason that nobody has given. */
  lemma FreshReason(files: Files, x: Experiment) returns (reason: nat)
    ensures reason != BLANK_REASON && AbandonedEvent(x, reason) !in files
  {
    var reasons := set e | e in files && e.reason.Some? :: e.reason.value;
    reason := Above(reasons + {BLANK_REASON});
    assert reason !in reasons;
    assert AbandonedEvent(x, reason).reason == Some(reason);
  }

  /** Abandoning its experiment can unblock a candidate iff the experiment is incomplete. */
  lemma UnblockedExactly(r: Reports, c: Candidate)
    requires r.Valid() && c in r.commitments && r.Blocked(c)
    ensures (exists reason, effects :: r.CanAbandon(r.experimentOf(c), reason, c, effects)) <==>
            r.targets[r.experimentOf(c)].manifest.value.evidence.state == Incomplete
  {
    var x := r.experimentOf(c);
    if Concluded(r.targets, x) {
      forall reason, effects ensures !r.CanAbandon(x, reason, c, effects) {
        ConcludedIsKept(r, c, reason, effects);
      }
    } else {
      var reason := FreshReason(r.files, x);
      assert r.CanAbandonAt(x, Published, reason, c, 1 + REGISTER_COST);
      assert r.CanAbandon(x, reason, c, 1 + REGISTER_COST);
    }
  }

  /**
   It can come to that: two commitments with one experiment, from an empty
   registry. The first run is killed between publishing and registering, the
   second reuses the batch. Then the first candidate is blocked until it is
   registered without a run, which its own experiment allows unless it is
   incomplete; and until then the cohort has no verdict.
   */
  method SharedExperimentScenario(first: Attempt, second: Attempt, x: Experiment, later: seq<Operation>)
    returns (r: Reports, steps: seq<Step>)
    requires first.candidate != second.candidate && second.signal == first.signal
    requires first.methodPasses && first.claimed && first.validates
    requires PublishCost(false) <= first.effects < PublishCost(false) + REGISTER_COST && second.effects >= REGISTER_COST
    ensures fresh(r) && r.Valid() && r.commitments == [first.candidate, second.candidate]
    ensures IsRegistered(r.files, second.candidate) && |steps| == |later|
    ensures r.Blocked(first.candidate) <==> first.candidate !in Abandoned(later, steps)
    ensures first.complete && AllOnItsOwn(later, first.candidate, x) ==> r.Blocked(first.candidate)
    ensures r.Blocked(first.candidate) ==> r.verdict.None?
  {
    r := new Reports([first.candidate, second.candidate], _ => x, _ => Judged(0));
    var one := r.RunCanonical(first);
    assert one != Done && r.files == map[];
    SharedSlot(first, x, first.candidate);
    SharedSlot(first, x, second.candidate);
    var two := r.RunCanonical(second);
    assert two == Done;
    assert r.Blocked(first.candidate) && IsRegistered(r.files, second.candidate);
    assert first.complete ==> Concluded(r.targets, x);
    ghost var before := Now(r);
    steps := Campaign(r, later);
    StaysRegistered(before.files, r.files, second.candidate);
    if r.Blocked(first.candidate) {
      r.BlockedHasNoVerdict(first.candidate);
    }
  }

  // ---- unreadable --------------------------------------------------

  /** A run registers its candidate with incomplete evidence, and then the experiment is abandoned. */
  method AbandonedRegistered(a: Attempt, x: Experiment, reason: nat) returns (r: Reports, abandoned: Step)
    requires a.methodPasses && a.claimed && a.validates && !a.complete && reason != BLANK_REASON
    requires a.effects >= PublishCost(false) + REGISTER_COST
    ensures fresh(r) && r.Valid() && r.commitments == [a.candidate] && r.verdict.None?
    ensures abandoned == Done && IsRegistered(r.files, a.candidate) && !Consistent(r.files)
  {
    r := new Reports([a.candidate], _ => x, _ => Judged(0));
    var ran := r.RunCanonical(a);
    assert r.targets[x] == BatchOf(RequestOf(a, x)) && IsRegistered(r.files, a.candidate);
    assert r.CanAbandonAt(x, Published, reason, a.candidate, 1 + REGISTER_COST);
    assert !AgreesWith(r.files, AbandonedMember(a.candidate, x, Published));
    abandoned := r.AbandonExperiment(x, reason, a.candidate, 1 + REGISTER_COST);
  }

  /**
   Abandoning is meant to close a cohort. After a run that has registered its
   candidate with incomplete evidence it does the opposite: the candidate then
   has two registrations that differ, none can be read any more, and whatever
   follows the cohort gets no verdict.
   */
  method AbandonedAfterItsRun(a: Attempt, x: Experiment, reason: nat, later: seq<Operation>)
    returns (r: Reports, abandoned: Step)
    requires a.methodPasses && a.claimed && a.validates && !a.complete && reason != BLANK_REASON
    requires a.effects >= PublishCost(false) + REGISTER_COST
    ensures fresh(r) && r.Valid() && r.commitments == [a.candidate]
    ensures abandoned == Done && IsRegistered(r.files, a.candidate)
    ensures !Consistent(r.files) && r.verdict.None?
  {
    r, abandoned := AbandonedRegistered(a, x, reason);
    ghost var before := r.files;
    var steps := Campaign(r, later);
    StaysRegistered(before, r.files, a.candidate);
  }

  /** A killed run leaves a manifest behind, and the candidate is registered on that. */
  method AbandonedUnpublished(killed: Attempt, x: Experiment, reason: nat) returns (r: Reports, abandoned: Step)
    requires killed.methodPasses && killed.claimed && killed.validates && !killed.complete && reason != BLANK_REASON
    requires PublishCost(false) - 5 <= killed.effects < PublishCost(false)
    ensures fresh(r) && r.Valid() && r.commitments == [killed.candidate] && r.experimentOf(killed.candidate) == x
    ensures abandoned == Done && r.Overtaken(killed.candidate) && r.verdict.None?
  {
    r := new Reports([killed.candidate], _ => x, _ => Judged(0));
    var died := r.RunCanonical(killed);
    assert forall p :: r.HasLeft(x, p) <==> p == killed.pid;
    assert r.CanAbandonAt(x, Leftover(killed.pid), reason, killed.candidate, 1 + REGISTER_COST);
    abandoned := r.AbandonExperiment(x, reason, killed.candidate, 1 + REGISTER_COST);
  }

  /**
   What a killed run leaves behind can be abandoned as well, although nothing is
   published. The run that then publishes registers its candidate a second time,
   with the same consequence.
   */
  method AbandonedBeforeItsRun(killed: Attempt, again: Attempt, x: Experiment, reason: nat, later: seq<Operation>)
    returns (r: Reports, abandoned: Step, ran: Step)
    requires killed.methodPasses && killed.claimed && killed.validates && !killed.complete && reason != BLANK_REASON
    requires PublishCost(false) - 5 <= killed.effects < PublishCost(false)
    requires again.candidate == killed.candidate && again.claimed && again.validates
    requires again.effects >= PublishCost(true) + REGISTER_COST
    ensures fresh(r) && r.Valid() && r.commitments == [killed.candidate]
    ensures abandoned == Done && ran == Done && IsRegistered(r.files, killed.candidate) && x in r.targets
    ensures !Consistent(r.files) && r.verdict.None?
  {
    r, abandoned := AbandonedUnpublished(killed, x, reason);
    ran := r.RunCanonical(again);
    ghost var before := Now(r);
    var steps := Campaign(r, later);
    StaysRegistered(before.files, r.files, killed.candidate);
  }

  // ---- getting there -----------------------------------------------

  /** No two commitments share an experiment. */
  predicate EachItsOwn(r: Reports) {
    forall i, j :: 0 <= i < j < |r.commitments| ==>
      r.experimentOf(r.commitments[i]) != r.experimentOf(r.commitments[j])
  }

  /** The run is granted its claim, validates, lives to its end and has the signal of what is published. */
  predicate Undisturbed(targets: map<Experiment, Batch>, x: Experiment, a: Attempt) {
    && a.claimed && a.validates && a.effects >= PublishCost(true) + REGISTER_COST
    && (x in targets && targets[x].manifest.Some? ==> targets[x].manifest.value.signal == a.signal)
  }

  lemma OwnCanFinish(r: Reports, a: Attempt)
    requires r.Valid() && Consistent(r.files) && EachItsOwn(r)
    requires a.candidate in r.commitments && !IsRegistered(r.files, a.candidate)
    requires Undisturbed(r.targets, r.experimentOf(a.candidate), a)
    ensures r.CanFinish(a) && !r.Overtaken(a.candidate)
  {
    if r.experimentOf(a.candidate) in r.targets {
      r.OwnExperimentIsRegistrable(a.candidate);
    }
  }

  /** Runs a candidate that is not registered. */
  method CompleteMember(r: Reports, a: Attempt)
    requires r.Valid() && Consistent(r.files) && EachItsOwn(r)
    requires a.candidate in r.commitments && Undisturbed(r.targets, r.experimentOf(a.candidate), a)
    modifies r
    ensures r.Valid() && Consistent(r.files) && r.verdict == old(r.verdict)
    ensures IsRegistered(r.files, a.candidate)
    ensures Grows(old(r.targets), r.targets) && Grows(old(r.files), r.files)
    ensures forall y :: y in r.targets ==> y in old(r.targets) || y == r.experimentOf(a.candidate)
  {
    if !IsRegistered(r.files, a.candidate) {
      OwnCanFinish(r, a);
      var s := r.RunCanonical(a);
    }
  }

  /** One attempt for each commitment, in their order; from the `n`th on they can still be made undisturbed. */
  predicate Attempts(targets: map<Experiment, Batch>, order: seq<Candidate>, experimentOf: Candidate -> Experiment,
                     attempts: seq<Attempt>, n: nat)
  {
    && |attempts| == |order|
    && (forall i :: 0 <= i < |order| ==> attempts[i].candidate == order[i])
    && forall i :: n <= i < |order| ==> Undisturbed(targets, experimentOf(order[i]), attempts[i])
  }

  lemma AttemptsStay(a: map<Experiment, Batch>, b: map<Experiment, Batch>, r: Reports, attempts: seq<Attempt>, n: nat)
    requires n < |r.commitments| && EachItsOwn(r) && Attempts(a, r.commitments, r.experimentOf, attempts, n)
    requires Grows(a, b) && forall y :: y in b ==> y in a || y == r.experimentOf(r.commitments[n])
    ensures Attempts(b, r.commitments, r.experimentOf, attempts, n + 1)
  {
  }

  lemma OneMoreRegistered(f: Files, g: Files, order: seq<Candidate>, n: nat)
    requires Grows(f, g) && n < |order| && AllRegistered(order[..n], f) && IsRegistered(g, order[n])
    ensures AllRegistered(order[..n + 1], g)
  {
    forall k | 0 <= k < n ensures IsRegistered(g, order[k]) {
      assert IsRegistered(f, order[..n][k]);
      StaysRegistered(f, g, order[k]);
    }
  }

  method CompleteMembers(r: Reports, attempts: seq<Attempt>)
    requires r.Valid() && Consistent(r.files) && EachItsOwn(r)
    requires Attempts(r.targets, r.commitments, r.experimentOf, attempts, 0)
    modifies r
    ensures r.Valid() && Consistent(r.files) && r.verdict == old(r.verdict)
    ensures AllRegistered(r.commitments, r.files)
    ensures Grows(old(r.targets), r.targets) && Grows(old(r.files), r.files)
  {
    for i := 0 to |attempts|
      invariant r.Valid() && Consistent(r.files) && r.verdict == old(r.verdict)
      invariant Grows(old(r.targets), r.targets) && Grows(old(r.files), r.files)
      invariant AllRegistered(r.commitments[..i], r.files)
      invariant Attempts(r.targets, r.commitments, r.experimentOf, attempts, i)
    {
      ghost var before := Now(r);
      CompleteMember(r, attempts[i]);
      AttemptsStay(before.targets, r.targets, r, attempts, i);
      OneMoreRegistered(before.files, r.files, r.commitments, i);
    }
    assert r.commitments[..|attempts|] == r.commitments;
  }

  /** From wherever the operations so far have led: one undisturbed run of what is missing, and a verdict. */
  method CompleteCohort(r: Reports, attempts: seq<Attempt>, ruling: Ruling, at: nat) returns (s: Step)
    requires r.Valid() && Consistent(r.files) && EachItsOwn(r)
    requires Attempts(r.targets, r.commitments, r.experimentOf, attempts, 0)
    requires r.verdict.None? || r.verdict.value.ruling == ruling
    modifies r
    ensures r.Valid() && s == Done
    ensures r.verdict.Some? && r.verdict.value.ruling == ruling && AllRegistered(r.commitments, r.files)
    ensures Grows(old(r.targets), r.targets) && Grows(old(r.files), r.files)
  {
    CompleteMembers(r, attempts);
    s := r.FinalizeCohort(ruling, at, 2);
  }
}
