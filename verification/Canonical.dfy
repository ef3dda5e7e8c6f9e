/**
 The canonical transaction: publish an evidence batch, then register the member;
 rerun after a crash reuses what is published and registers what is not. An
 experiment that stays incomplete may be abandoned, which registers a candidate
 without a run. The process may die at any effect on the file system: each
 operation is given the number of effects it gets to make.
 */
module Canonical {
  import opened Wrappers
  import opened Cohort
  import RunLog

  /** What the runs of a candidate may differ in. */
  datatype Attempt = Attempt(
    candidate: Candidate,
    pid: nat,
    moment: nat,
    signal: nat,
    costModel: nat,
    methodPasses: bool,
    complete: bool,         // the evaluation yields all the evidence asked for
    stages: nat,
    sampleTier: nat,
    costVerdict: nat,
    report: nat,
    curves: nat,
    validates: bool,        // the written batch passes its validation
    claimed: bool,          // the experiment's claim is granted
    effects: nat)

  datatype Request = Request(
    manifest: ManifestFile,
    report: nat,
    curves: nat,
    events: seq<Event>,
    registration: (Candidate, nat),
    validates: bool)

  datatype Step = Done | Refuses(why: Reason) | Dead
  datatype Reason = NotCommitted | SignalDiffers | ClaimBusy | BatchInvalid | BatchDiffers | RegistrationDiffers
                  | Inconsistent | Unfinished | VerdictDiffers | NoReason | NotFound | NotIncomplete

  function BatchOf(r: Request): Batch {
    Batch(Some(r.manifest), Some(r.report), Some(r.curves), Some(r.events), Some(r.registration))
  }

  const UNDERPOWERED: nat := 0
  const UNDETERMINED: nat := 0

  function StateEvent(x: Experiment, origin: State, target: State, reason: Option<nat>, sequence: nat): Event {
    Event(StateChanged, x, origin, target, reason, None, sequence)
  }

  function RegisteredEvent(x: Experiment, origin: State, reason: Option<nat>, c: Candidate): Event {
    Event(MemberRegistered, x, origin, Registered, reason, Some(c), 0)
  }

  /** Events of a run whose method passes; the last one is the registration's. */
  function RunEvents(x: Experiment, terminal: State, c: Candidate): seq<Event> {
    [StateEvent(x, Created, Validating, None, 0), StateEvent(x, Validating, Running, None, 1),
     StateEvent(x, Running, terminal, None, 2), RegisteredEvent(x, terminal, None, c)]
  }

  function RejectionEvents(x: Experiment): seq<Event> {
    [StateEvent(x, Created, Validating, None, 0), StateEvent(x, Validating, Rejected, Some(LOOKAHEAD), 1),
     Event(GateRejected, x, Validating, Rejected, Some(LOOKAHEAD), None, 2)]
  }

  /** What abandoning an experiment appends to its events. */
  function Transition(x: Experiment, reason: nat): Event {
    StateEvent(x, Incomplete, Registered, Some(reason), 0)
  }

  /** The event of a registration without a run: it names no candidate. */
  function AbandonedEvent(x: Experiment, reason: nat): Event {
    Event(MemberRegistered, x, Incomplete, Registered, Some(reason), None, 0)
  }

  function AbandonedMember(c: Candidate, x: Experiment, place: Place): Member {
    Member(c, x, INCOMPLETE, None, None, None, place)
  }

  function EvidenceOf(a: Attempt): Evidence {
    if a.methodPasses then
      Evidence(if a.complete then EvidenceReady else Incomplete, a.stages, a.sampleTier, a.costVerdict)
    else Evidence(Rejected, a.stages, UNDERPOWERED, UNDETERMINED)
  }

  function EventsOf(a: Attempt, x: Experiment): seq<Event> {
    if a.methodPasses then RunEvents(x, EvidenceOf(a).state, a.candidate) else RejectionEvents(x)
  }

  function RequestOf(a: Attempt, x: Experiment): Request {
    Request(ManifestFile(x, EvidenceOf(a), a.signal), a.report, a.curves, EventsOf(a, x), (a.candidate, a.moment),
            a.validates)
  }

  function EventOf(a: Attempt, x: Experiment): Event {
    RegisteredEvent(x, EvidenceOf(a).state, if a.methodPasses then None else Some(LOOKAHEAD), a.candidate)
  }

  /** The registration event a published batch brings, or the one rebuilt from its state. */
  function PublishedEvent(b: Batch, x: Experiment, c: Candidate): Event
    requires b.manifest.Some?
  {
    var found := if b.events.Some? then FirstRegistered(b.events.value) else None;
    if found.Some? then found.value
    else RegisteredEvent(x, if b.manifest.value.evidence.state == Rejected then Rejected else EvidenceReady, None, c)
  }

  function FirstRegistered(events: seq<Event>): Option<Event> {
    if events == [] then None
    else if events[0].kind == MemberRegistered then Some(events[0])
    else FirstRegistered(events[1..])
  }

  /**
   The effects of publishing: a directory, five files and a rename; one more if a leftover directory
   is in the way.
   */
  function PublishCost(leftover: bool): nat {
    if leftover then 8 else 7
  }

  /** The effects of registering: a temporary file and its rename. */
  const REGISTER_COST: nat := 2

  function Appended(b: Batch, e: Event): Batch {
    var events := if b.events.Some? then b.events.value else [];
    if e in events then b else b.(events := Some(events + [e]))
  }

  function AppendCost(b: Batch, e: Event): nat {
    if b.events.Some? && e in b.events.value then 0 else 1
  }

  class Reports {
    const commitments: seq<Candidate>
    const experimentOf: Candidate -> Experiment   // the identity of a candidate's runs, fixed by their inputs
    const derive: Evidence -> Promotion
    var targets: map<Experiment, Batch>
    var temps: map<(Experiment, nat), Batch>      // sibling directories, by experiment and process
    var files: Files
    var verdict: Option<Verdict>
    var left: nat                                 // effects the running process still gets to make

    constructor (commitments: seq<Candidate>, experimentOf: Candidate -> Experiment, derive: Evidence -> Promotion)
      requires Distinct(commitments)
      ensures this.commitments == commitments && this.experimentOf == experimentOf && this.derive == derive
      ensures targets == map[] && temps == map[] && files == map[] && verdict == None && Valid()
    {
      this.commitments, this.experimentOf, this.derive := commitments, experimentOf, derive;
      targets, temps, files, verdict, left := map[], map[], map[], None, 0;
    }

    /** Every visible batch is complete and is the one of its experiment. */
    ghost predicate TargetsComplete()
      reads this`targets
    {
      forall x :: x in targets ==> BatchSound(x, targets[x])
    }

    /** A manifest in a directory, published or not, is of the directory's experiment. */
    ghost predicate TempsSound()
      reads this`temps
    {
      forall at :: at in temps && temps[at].manifest.Some? ==> temps[at].manifest.value.experiment == at.0
    }

    /**
     A registration by a run is of the candidate's own experiment and says what
     its published evidence says: refused if that is rejected.
     */
    ghost predicate RunSound(m: Member)
      reads this`targets
    {
      && m.experiment == experimentOf(m.candidate)
      && m.experiment in targets && targets[m.experiment].manifest.Some?
      && (var evidence := targets[m.experiment].manifest.value.evidence;
          m.promotion == if evidence.state == Rejected then Refused else derive(evidence))
      && m.sampleTier == Some(targets[m.experiment].manifest.value.evidence.sampleTier)
      && m.evidence == Published
    }

    /** Every registration is of a commitment, by a run or by abandoning some experiment. */
    ghost predicate FileSound(e: Event, m: Member)
      reads this`targets
    {
      && m.candidate in commitments
      && e.kind == MemberRegistered && e.target == Registered && e.experiment == m.experiment
      && if e.evidence.Some? then RunSound(m) && e.origin == targets[m.experiment].manifest.value.evidence.state
         else IsAbandoned(e, m)
    }

    /** There is at most one registration of a candidate by a run. */
    ghost predicate FilesSound()
      reads this`targets, this`files
    {
      && (forall e :: e in files ==> FileSound(e, files[e]))
      && OneRunEach(files)
    }

    function PromotionOf(e: Evidence): Promotion {
      if e.state == Rejected then Refused else derive(e)
    }

    /** A verdict accounts for every commitment, by the registration it has. */
    ghost predicate VerdictSound()
      reads this`verdict, this`files
    {
      verdict.Some? ==> Accounts(verdict.value, commitments) && Reflects(verdict.value, files)
    }

    ghost predicate Valid()
      reads this`targets, this`temps, this`files, this`verdict
    {
      Distinct(commitments) && TargetsComplete() && TempsSound() && FilesSound() && VerdictSound()
    }

    method Effect() returns (alive: bool)
      modifies this`left
      ensures alive <==> old(left) > 0
      ensures left == if alive then old(left) - 1 else old(left)
    {
      alive := left > 0;
      if alive {
        left := left - 1;
      }
    }

    // ---- publishing ------------------------------------------------

    /** One file of the batch gets into the temporary directory. */
    method Put(at: (Experiment, nat), b: Batch) returns (alive: bool)
      modifies this`left, this`temps
      ensures alive <==> old(left) > 0
      ensures left == if alive then old(left) - 1 else old(left)
      ensures temps == if alive then old(temps)[at := b] else old(temps)
    {
      alive := Effect();
      if alive {
        temps := temps[at := b];
      }
    }

    /** Manifest, report, curves, events; then, the batch having passed validation, the registration. */
    method WriteBatch(at: (Experiment, nat), r: Request) returns (s: Step)
      requires at in temps && temps[at] == BLANK
      modifies this`left, this`temps
      ensures s == Done <==> r.validates && old(left) >= 5
      ensures s == Done ==> at in temps && temps[at] == BatchOf(r) && left == old(left) - 5
      ensures s != Done ==> at in temps && temps[at].registration.None?
      ensures SameBut(old(temps), temps, at)
      ensures temps[at].manifest == if old(left) > 0 then Some(r.manifest) else None
      ensures s.Refuses? ==> !r.validates && s.why == BatchInvalid
      ensures s.Dead? ==> old(left) < 5
    {
      var alive := Put(at, temps[at].(manifest := Some(r.manifest)));
      if !alive { return Dead; }
      alive := Put(at, temps[at].(report := Some(r.report)));
      if !alive { return Dead; }
      alive := Put(at, temps[at].(curves := Some(r.curves)));
      if !alive { return Dead; }
      alive := Put(at, temps[at].(events := Some(r.events)));
      if !alive { return Dead; }
      if !r.validates { return Refuses(BatchInvalid); }
      alive := Put(at, temps[at].(registration := Some(r.registration)));
      if !alive { return Dead; }
      s := Done;
    }

    /** The batch holds what is asked to be published; events are not compared. */
    predicate Holds(b: Batch, r: Request) {
      && b.manifest == Some(r.manifest) && b.report == Some(r.report) && b.curves == Some(r.curves)
      && b.registration == Some(r.registration)
    }

    /** The target appears at once and complete, or not at all; one that is there is never written to. */
    method Publish(x: Experiment, pid: nat, r: Request) returns (s: Step)
      modifies this`left, this`temps, this`targets
      ensures targets == old(targets) || (x !in old(targets) && s == Done && targets == old(targets)[x := BatchOf(r)])
      ensures s == Done ==> x in targets && Holds(targets[x], r) && (x, pid) !in temps
      ensures x in old(targets) ==>
                && (s == Done <==>
                      r.validates && old(left) >= PublishCost((x, pid) in old(temps)) - 1 && Holds(targets[x], r))
                && (s == Refuses(BatchDiffers) <==>
                      r.validates && old(left) >= PublishCost((x, pid) in old(temps)) - 1 && !Holds(targets[x], r))
      ensures s.Refuses? ==> (x, pid) !in temps && (s.why == BatchInvalid || s.why == BatchDiffers)
      ensures s == Refuses(BatchInvalid) ==> !r.validates
      ensures (x, pid) in old(temps) && old(left) == 1 ==> s == Dead && (x, pid) !in temps
      ensures x !in old(targets) ==> (s == Done <==> r.validates && old(left) >= PublishCost((x, pid) in old(temps)))
      ensures x !in old(targets) && s == Done ==> left == old(left) - PublishCost((x, pid) in old(temps))
      ensures s.Dead? ==> old(left) < PublishCost((x, pid) in old(temps))
      ensures x !in old(targets) && s.Refuses? ==> !r.validates && s.why == BatchInvalid
      ensures SameBut(old(temps), temps, (x, pid))
      ensures (x, pid) in temps && temps[(x, pid)].manifest.Some? ==>
                temps[(x, pid)].manifest == Some(r.manifest) || temps == old(temps)
      ensures s.Dead? && r.validates && old(left) >= PublishCost((x, pid) in old(temps)) - 5 ==>
                (x, pid) in temps && temps[(x, pid)].manifest == Some(r.manifest)
    {
      var at := (x, pid);
      if at in temps {
        var alive := Effect();
        if !alive { return Dead; }
        temps := temps - {at};
      }
      var alive := Put(at, BLANK);
      if !alive { return Dead; }
      s := WriteBatch(at, r);
      if s.Done? {
        if x in targets {
          if !SameSignature(targets[x], temps[at]) {
            s := Refuses(BatchDiffers);
          } else {
            temps := temps - {at};
          }
        } else {
          alive := Effect();
          if !alive { return Dead; }
          targets := targets[x := temps[at]];
          temps := temps - {at};
        }
      }
      if s.Refuses? {
        temps := temps - {at};
      }
    }

    // ---- registering -----------------------------------------------

    /** Writes the event file once; the same content again is fine, another is refused. */
    method RegisterMember(m: Member, e: Event) returns (s: Step)
      requires e.kind == MemberRegistered && e.target == Registered && e.experiment == m.experiment
      modifies this`left, this`files
      ensures files == old(files) || (s == Done && e !in old(files) && files == old(files)[e := m])
      ensures s == Done ==> m.candidate in commitments && e in files && files[e] == m
      ensures s == if m.candidate !in commitments then Refuses(NotCommitted)
                   else if e in old(files) then if old(files)[e] == m then Done else Refuses(RegistrationDiffers)
                   else if old(left) >= REGISTER_COST then Done else Dead
    {
      if m.candidate !in commitments {
        return Refuses(NotCommitted);
      }
      if e in files {
        return if files[e] == m then Done else Refuses(RegistrationDiffers);
      }
      var alive := Effect();
      if !alive { return Dead; }
      alive := Effect();
      if !alive { return Dead; }
      files := files[e := m];
      s := Done;
    }

    /** A sound registration keeps the registry valid; readable it stays iff the candidate has none that differs. */
    method Register(m: Member, e: Event) returns (s: Step)
      requires Valid() && (m.candidate in commitments ==> FileSound(e, m))
      requires e.kind == MemberRegistered && e.target == Registered && e.experiment == m.experiment
      requires e.evidence.Some? ==> forall f :: f in files && f.evidence.Some? ==> files[f].candidate != m.candidate
      modifies this`left, this`files
      ensures Valid() && Grows(old(files), files)
      ensures s == Done ==> files == old(files)[e := m]
      ensures s != Done ==> files == old(files)
      ensures s == Done ==> (Consistent(files) <==> Consistent(old(files)) && AgreesWith(old(files), m))
      ensures forall d :: IsRegistered(files, d) <==> IsRegistered(old(files), d) || (s == Done && d == m.candidate)
      ensures s == if m.candidate !in commitments then Refuses(NotCommitted)
                   else if e in old(files) then if old(files)[e] == m then Done else Refuses(RegistrationDiffers)
                   else if old(left) >= REGISTER_COST then Done else Dead
    {
      s := RegisterMember(m, e);
      assert s == Done ==> files == old(files)[e := m];
      if s == Done {
        OneRunMore(old(files), e, m);
        ConsistentWithOneMore(old(files), e, m);
        RegisteredWithOneMore(old(files), e, m);
        if verdict.Some? {
          ReflectsGrows(verdict.value, old(files), files);
        }
      }
    }

    /** Reads the event files into a dictionary by candidate, unless two disagree. */
    method Registrations() returns (index: Option<map<Candidate, Member>>)
      ensures index.Some? <==> Consistent(files)
      ensures index.Some? ==> Indexes(index.value, files)
    {
      var known: map<Candidate, Member> := map[];
      var pending := files.Keys;
      while pending != {}
        invariant pending <= files.Keys
        invariant forall e :: e in files.Keys - pending ==>
                  files[e].candidate in known && known[files[e].candidate] == files[e]
        invariant forall c :: c in known ==>
                  known[c].candidate == c && exists e :: e in files.Keys - pending && files[e].candidate == c
        decreases |pending|
      {
        var e :| e in pending;
        var m := files[e];
        if m.candidate in known && known[m.candidate] != m {
          var f :| f in files.Keys - pending && files[f].candidate == m.candidate;
          return None;
        }
        known := known[m.candidate := m];
        pending := pending - {e};
      }
      index := Some(known);
    }

    // ---- one run ---------------------------------------------------

    function DirectMember(a: Attempt): Member {
      Member(a.candidate, experimentOf(a.candidate), PromotionOf(EvidenceOf(a)), Some(EvidenceOf(a).sampleTier),
             if a.methodPasses then Some(a.costModel) else None, None, Published)
    }

    function ReusedMember(a: Attempt, m: ManifestFile): Member {
      Member(a.candidate, experimentOf(a.candidate), PromotionOf(m.evidence), Some(m.evidence.sampleTier),
             Some(a.costModel), None, Published)
    }

    /** The event under which the published batch of the candidate would be registered. */
    function SlotOf(c: Candidate): Event
      requires experimentOf(c) in targets && targets[experimentOf(c)].manifest.Some?
      reads this`targets
    {
      PublishedEvent(targets[experimentOf(c)], experimentOf(c), c)
    }

    /** Registers the member of a published batch unless it is registered; looks at all registrations first. */
    method EnsureMemberRegistered(a: Attempt) returns (s: Step)
      requires Valid() && a.candidate in commitments
      requires experimentOf(a.candidate) in targets && targets[experimentOf(a.candidate)].manifest.Some?
      modifies this`left, this`files
      ensures Valid() && Grows(old(files), files)
      ensures s == Done ==> IsRegistered(files, a.candidate)
      ensures s == Done <==>
                && Consistent(old(files))
                && (IsRegistered(old(files), a.candidate)
                    || (SlotOf(a.candidate) !in old(files) && old(left) >= REGISTER_COST))
      ensures s == Refuses(Inconsistent) <==> !Consistent(old(files))
      ensures s.Refuses? ==> s.why == Inconsistent || s.why == RegistrationDiffers
      ensures Consistent(files) <==> Consistent(old(files))
      ensures forall d :: IsRegistered(files, d) <==> IsRegistered(old(files), d) || (s == Done && d == a.candidate)
      ensures s != Done || IsRegistered(old(files), a.candidate) ==> files == old(files)
      ensures s == Done && !IsRegistered(old(files), a.candidate) ==>
                var m := ReusedMember(a, targets[experimentOf(a.candidate)].manifest.value);
                && SlotOf(a.candidate) !in old(files) && files == old(files)[SlotOf(a.candidate) := m]
                && m.costModel == Some(a.costModel) && m.dedup == None
    {
      var x := experimentOf(a.candidate);
      assert BatchSound(x, targets[x]);
      var index := Registrations();
      if index.None? {
        return Refuses(Inconsistent);
      }
      if a.candidate in index.value {
        return Done;
      }
      var m, e := ReusedMember(a, targets[x].manifest.value), PublishedEvent(targets[x], x, a.candidate);
      PublishedEventSound(targets[x], x, a.candidate);
      s := Register(m, e);
    }

    /** The batch of a candidate whose experiment is not published yet. */
    method PublishCandidate(a: Attempt) returns (s: Step)
      requires Valid() && experimentOf(a.candidate) !in targets
      modifies this`left, this`temps, this`targets
      ensures Valid() && Grows(old(targets), targets)
      ensures s == Done ==>
                var x := experimentOf(a.candidate); x in targets && targets[x] == BatchOf(RequestOf(a, x))
      ensures forall e :: e in files && e.evidence.Some? ==> e.experiment != experimentOf(a.candidate)
      ensures s.Dead? && a.validates && old(left) >= PublishCost((experimentOf(a.candidate),
                                                                  a.pid) in old(temps)) - 5 ==>
                LeftManifest(a)
      ensures s == Done <==> a.validates && old(left) >= PublishCost((experimentOf(a.candidate), a.pid) in old(temps))
      ensures s == Done ==> left == old(left) - PublishCost((experimentOf(a.candidate), a.pid) in old(temps))
      ensures s != Done ==> targets == old(targets)
      ensures s.Refuses? ==> !a.validates && s.why == BatchInvalid
      ensures SameBut(old(temps), temps, (experimentOf(a.candidate), a.pid))
      ensures forall y :: y in targets ==> y in old(targets) || y == experimentOf(a.candidate)
    {
      var x := experimentOf(a.candidate);
      RequestSound(a, x);
      assert forall e :: e in files ==> FileSound(e, files[e]);
      s := Publish(x, a.pid, RequestOf(a, x));
      TempsStaySound(old(temps), temps, (x, a.pid));
      assert forall e :: e in files ==> FileSound(e, files[e]);
    }

    /** No run has registered a candidate whose experiment was not published until now. */
    lemma DirectIsSound(a: Attempt)
      requires Valid() && a.candidate in commitments
      requires experimentOf(a.candidate) in targets
      requires targets[experimentOf(a.candidate)] == BatchOf(RequestOf(a, experimentOf(a.candidate)))
      requires forall e :: e in files && e.evidence.Some? ==> e.experiment != experimentOf(a.candidate)
      ensures FileSound(EventOf(a, experimentOf(a.candidate)), DirectMember(a))
      ensures EventOf(a, experimentOf(a.candidate)) !in files
      ensures forall f :: f in files && f.evidence.Some? ==> files[f].candidate != a.candidate
      ensures AgreesWith(files, DirectMember(a)) <==> !IsRegistered(files, a.candidate)
    {
      assert forall f :: f in files ==> FileSound(f, files[f]);
      OnlyAbandonedDiffer(files, DirectMember(a));
    }

    /** Publishes first, registers then, without a look at the other registrations. */
    method ExecuteCanonical(a: Attempt) returns (s: Step)
      requires Valid() && a.candidate in commitments && experimentOf(a.candidate) !in targets
      modifies this`left, this`temps, this`targets, this`files
      ensures Valid() && Grows(old(targets), targets) && Grows(old(files), files)
      ensures s == Done ==> experimentOf(a.candidate) in targets && IsRegistered(files, a.candidate)
      ensures var x := experimentOf(a.candidate);
              var cost := PublishCost((x, a.pid) in old(temps));
              && (s == Done <==> a.validates && old(left) >= cost + REGISTER_COST)
              && (x in targets <==> a.validates && old(left) >= cost)
              && (x in targets ==> targets[x] == BatchOf(RequestOf(a, x)))
              && (x !in targets && a.validates && old(left) >= cost - 5 ==> LeftManifest(a))
      ensures forall y :: y in targets ==> y in old(targets) || y == experimentOf(a.candidate)
      ensures SameBut(old(temps), temps, (experimentOf(a.candidate), a.pid))
      ensures s.Refuses? ==> !a.validates && s.why == BatchInvalid
      ensures s != Done ==> files == old(files)
      ensures s == Done ==>
                var e := EventOf(a, experimentOf(a.candidate));
                && e !in old(files) && files == old(files)[e := DirectMember(a)]
                && e.reason == (if a.methodPasses then None else Some(LOOKAHEAD)) && e.evidence == Some(a.candidate)
                && files[e].costModel == (if a.methodPasses then Some(a.costModel) else None) && files[e].dedup == None
      ensures Consistent(files) <==>
                Consistent(old(files)) && (s == Done ==> !IsRegistered(old(files), a.candidate))
      ensures forall d :: IsRegistered(files, d) <==> IsRegistered(old(files), d) || (s == Done && d == a.candidate)
    {
      var x := experimentOf(a.candidate);
      s := PublishCandidate(a);
      if s.Done? {
        var m, e := DirectMember(a), EventOf(a, x);
        DirectIsSound(a);
        s := Register(m, e);
      }
    }

    /** The run gets as far as to publish, and how many effects that takes. */
    predicate CanPublish(a: Attempt)
      reads this`targets, this`temps
    {
      var x := experimentOf(a.candidate);
      && a.candidate in commitments && x !in targets && a.claimed && a.validates
      && a.effects >= PublishCost((x, a.pid) in temps)
    }

    /** What decides a run, killed or not: all of it can be looked up beforehand. */
    ghost predicate CanFinish(a: Attempt)
      reads this`targets, this`temps, this`files
    {
      var x := experimentOf(a.candidate);
      if x in targets then
        && a.candidate in commitments
        && targets[x].manifest.Some? && targets[x].manifest.value.signal == a.signal
        && Consistent(files)
        && (IsRegistered(files, a.candidate) || (SlotOf(a.candidate) !in files && a.effects >= REGISTER_COST))
      else
        CanPublish(a) && a.effects >= PublishCost((x, a.pid) in temps) + REGISTER_COST
    }

    /** The experiment is published, with other signals. */
    predicate PublishedOnOther(x: Experiment, signal: nat)
      reads this`targets
    {
      x in targets && targets[x].manifest.Some? && targets[x].manifest.value.signal != signal
    }

    predicate Blocked(c: Candidate)
      reads this`targets, this`files
    {
      IsBlocked(targets, files, experimentOf, c)
    }

    /** Registered without a run, though the candidate's own experiment is not published. */
    predicate Overtaken(c: Candidate)
      reads this`targets, this`files
    {
      experimentOf(c) !in targets && IsRegistered(files, c)
    }

    /** The run dies between writing its manifest and showing its batch. */
    predicate LeavesManifest(a: Attempt)
      reads this`targets, this`temps
    {
      var x := experimentOf(a.candidate);
      var cost := PublishCost((x, a.pid) in temps);
      a.candidate in commitments && x !in targets && a.claimed && a.validates && cost - 5 <= a.effects < cost
    }

    predicate LeftManifest(a: Attempt)
      reads this`temps
    {
      var x := experimentOf(a.candidate);
      (x, a.pid) in temps && temps[(x, a.pid)].manifest == Some(RequestOf(a, x).manifest)
    }

    lemma VerdictIsOfRegistered(c: Candidate)
      requires Valid() && c in commitments && verdict.Some?
      ensures IsRegistered(files, c)
    {
      var i :| 0 <= i < |commitments| && commitments[i] == c;
      assert verdict.value.members[i].candidate == c;
      assert ReflectsAt(verdict.value, files, i);
    }

    /** A cohort with a blocked commitment has no verdict and is not complete. */
    lemma BlockedHasNoVerdict(c: Candidate)
      requires Valid() && c in commitments && Blocked(c)
      ensures verdict.None? && !AllRegistered(commitments, files)
    {
      var i :| 0 <= i < |commitments| && commitments[i] == c;
      assert !IsRegistered(files, commitments[i]);
      if verdict.Some? { VerdictIsOfRegistered(c); }
    }

    /** As long as nothing was abandoned, nobody is registered twice, and nobody unpublished. */
    lemma OnlyRunsAgree()
      requires Valid() && OnlyRuns(files)
      ensures Consistent(files) && forall c :: !Overtaken(c)
      ensures forall e, f :: e in files && f in files && files[e].candidate == files[f].candidate ==> e == f
    {
      assert forall e :: e in files ==> FileSound(e, files[e]);
    }

    /** A published member whose experiment no other commitment shares can always be registered. */
    lemma OwnExperimentIsRegistrable(c: Candidate)
      requires Valid() && experimentOf(c) in targets
      requires forall d :: d in commitments && experimentOf(d) == experimentOf(c) ==> d == c
      ensures Complete(targets[experimentOf(c)]) && Registrable(files, targets[experimentOf(c)], experimentOf(c), c)
    {
      var x := experimentOf(c);
      assert BatchSound(x, targets[x]);
      PublishedEventSound(targets[x], x, c);
      var e := PublishedEvent(targets[x], x, c);
      if e in files {
        assert FileSound(e, files[e]);
      }
    }

    lemma TargetIsPublished(x: Experiment)
      requires TargetsComplete()
      ensures x in targets ==> IsPublished(targets[x])
    {
      assert x in targets ==> BatchSound(x, targets[x]);
    }

    method RunCanonical(a: Attempt) returns (s: Step)
      requires Valid()
      modifies this`left, this`temps, this`targets, this`files
      ensures Valid() && Grows(old(targets), targets) && Grows(old(files), files)
      ensures s == Done ==> experimentOf(a.candidate) in targets && IsRegistered(files, a.candidate)
      ensures s == Done <==> old(CanFinish(a))
      ensures a.candidate !in commitments ==> s == Refuses(NotCommitted)
      ensures a.candidate in commitments ==>
                if experimentOf(a.candidate) in old(targets)
                then old(PublishedOnOther(experimentOf(a.candidate), a.signal)) ==> s == Refuses(SignalDiffers)
                else !a.claimed ==> s == Refuses(ClaimBusy)
      ensures old(CanPublish(a)) ==>
                var x := experimentOf(a.candidate); x in targets && targets[x] == BatchOf(RequestOf(a, x))
      ensures old(experimentOf(a.candidate) in targets) ==> targets == old(targets) && temps == old(temps)
      ensures forall x :: x in targets && x !in old(targets) ==> x == experimentOf(a.candidate)
      ensures SameBut(old(temps), temps, (experimentOf(a.candidate), a.pid))
      ensures s != Done || old(experimentOf(a.candidate) in targets && IsRegistered(files, a.candidate)) ==>
                files == old(files)
      ensures s == Done && old(experimentOf(a.candidate) in targets && !IsRegistered(files, a.candidate)) ==>
                var e := old(SlotOf(a.candidate)); e in files && files[e].candidate == a.candidate
      ensures Consistent(files) <==>
                Consistent(old(files)) && (s == Done ==> old(!Overtaken(a.candidate)))
      ensures old(LeavesManifest(a)) ==> experimentOf(a.candidate) !in targets && LeftManifest(a)
      ensures old(OnlyRuns(files)) ==> OnlyRuns(files)
      ensures forall c :: IsRegistered(files, c) <==> IsRegistered(old(files), c) || (s == Done && c == a.candidate)
      ensures forall c :: IsBlocked(old(targets), old(files), experimentOf, c) ==>
                IsBlocked(targets, files, experimentOf, c)
    {
      left := a.effects;
      var x := experimentOf(a.candidate);
      if a.candidate !in commitments {
        return Refuses(NotCommitted);
      }
      TargetIsPublished(x);
      if x in targets && IsPublished(targets[x]) {
        if targets[x].manifest.value.signal != a.signal {
          return Refuses(SignalDiffers);
        }
        s := EnsureMemberRegistered(a);
      } else {
        if !a.claimed {
          return Refuses(ClaimBusy);
        }
        s := ExecuteCanonical(a);
      }
    }

    // ---- finalization ----------------------------------------------

    /** The registrations, if no commitment is without one. */
    method CompleteIndex() returns (index: Option<map<Candidate, Member>>)
      requires Valid()
      ensures index.Some? <==> Consistent(files) && AllRegistered(commitments, files)
      ensures index.Some? ==> Indexes(index.value, files) && forall i :: 0 <= i < |commitments| ==>
                commitments[i] in index.value
    {
      index := Registrations();
      if index.Some? {
        if i :| 0 <= i < |commitments| && commitments[i] !in index.value {
          assert !IsRegistered(files, commitments[i]);
          index := None;
        }
      }
    }

    /** Writes the verdict of a complete cohort once; the same verdict again is fine, another is refused. */
    method FinalizeCohort(ruling: Ruling, at: nat, effects: nat) returns (s: Step)
      requires Valid()
      modifies this`left, this`verdict
      ensures Valid()
      ensures s == Done <==>
                && Consistent(files) && AllRegistered(commitments, files)
                && if old(verdict).Some? then old(verdict).value.ruling == ruling else effects >= 2
      ensures s == Refuses(Unfinished) <==> !(Consistent(files) && AllRegistered(commitments, files))
      ensures s == Refuses(VerdictDiffers) <==>
                && Consistent(files) && AllRegistered(commitments, files)
                && old(verdict).Some? && old(verdict).value.ruling != ruling
      ensures old(verdict).Some? || s != Done ==> verdict == old(verdict)
      ensures s == Done ==> verdict.Some? && verdict.value.ruling == ruling
      ensures s == Done ==> Accounts(verdict.value, commitments) && Reflects(verdict.value, files)
      ensures s == Done && old(verdict).None? ==> verdict.value.finalizedAt == at
    {
      left := effects;
      var index := CompleteIndex();
      if index.None? {
        return Refuses(Unfinished);
      }
      var v := VerdictOf(commitments, index.value, ruling, at);
      VerdictOfSound(commitments, index.value, files, ruling, at);
      if verdict.Some? {
        if verdict.value.ruling == ruling {
          OneVerdict(verdict.value, commitments, index.value, files, at);
        }
        return if SameVerdict(verdict.value, v) then Done else Refuses(VerdictDiffers);
      }
      var alive := Effect();
      if !alive { return Dead; }
      alive := Effect();
      if !alive { return Dead; }
      verdict := Some(v);
      s := Done;
    }

    // ---- abandoning ------------------------------------------------

    predicate HasLeft(x: Experiment, pid: nat)
      reads this`temps
    {
      (x, pid) in temps && temps[(x, pid)].manifest.Some?
    }

    /** The first manifest of the experiment in the order of the paths, published or left behind. */
    ghost predicate IsFirstManifest(x: Experiment, place: Option<Place>)
      reads this`targets, this`temps
    {
      match place
      case None => x !in targets && forall p :: !HasLeft(x, p)
      case Some(Published) => x in targets
      case Some(Leftover(pid)) => x !in targets && HasLeft(x, pid) && forall p :: HasLeft(x, p) ==> pid <= p
    }

    lemma FirstIsUnique(x: Experiment, p: Option<Place>, q: Option<Place>)
      requires IsFirstManifest(x, p) && IsFirstManifest(x, q)
      ensures p == q
    {
    }

    /** The directory of the experiment at a place. */
    function At(x: Experiment, place: Place): Batch
      requires if place.Published? then x in targets else (x, place.pid) in temps
      reads this`targets, this`temps
    {
      if place.Published? then targets[x] else temps[(x, place.pid)]
    }

    /** Goes through the directories for the first in the order of their paths. */
    method FindManifest(x: Experiment) returns (place: Option<Place>)
      requires Valid()
      ensures IsFirstManifest(x, place)
      ensures place.Some? ==>
                && (if place.value.Published? then x in targets else (x, place.value.pid) in temps)
                && At(x, place.value).manifest.Some? && At(x, place.value).manifest.value.experiment == x
    {
      if x in targets {
        assert BatchSound(x, targets[x]);
        return Some(Published);
      }
      place := None;
      var pending := temps.Keys;
      while pending != {}
        invariant pending <= temps.Keys
        invariant place.Some? ==>
                    place.value.Leftover? && (x, place.value.pid) in temps.Keys - pending
                    && temps[(x, place.value.pid)].manifest.Some?
        invariant forall at :: at in temps.Keys - pending && at.0 == x && temps[at].manifest.Some? ==>
                    place.Some? && place.value.pid <= at.1
        decreases |pending|
      {
        var at: (Experiment, nat) :| at in pending;
        if at.0 == x && temps[at].manifest.Some? && (place.None? || at.1 < place.value.pid) {
          place := Some(Leftover(at.1));
        }
        pending := pending - {at};
      }
    }

    /** What decides whether a candidate is registered by abandoning an experiment: whose it is does not matter. */
    ghost predicate CanAbandon(x: Experiment, reason: nat, c: Candidate, effects: nat)
      reads this`targets, this`temps, this`files
    {
      && reason != BLANK_REASON && c in commitments
      && exists place :: CanAbandonAt(x, place, reason, c, effects)
    }

    ghost predicate CanAbandonAt(x: Experiment, place: Place, reason: nat, c: Candidate, effects: nat)
      reads this`targets, this`temps, this`files
    {
      && IsFirstManifest(x, Some(place))
      && var b := At(x, place);
         && b.manifest.Some? && b.manifest.value.evidence.state == Incomplete
         && var (e, cost) := (AbandonedEvent(x, reason), AppendCost(b, Transition(x, reason)));
            if e in files then files[e] == AbandonedMember(c, x, place) && effects >= cost
            else effects >= cost + REGISTER_COST
    }

    lemma OnlyTheFirstCounts(x: Experiment, place: Option<Place>, reason: nat, c: Candidate, effects: nat)
      requires IsFirstManifest(x, place) && reason != BLANK_REASON
      ensures CanAbandon(x, reason, c, effects) <==>
              c in commitments && place.Some? && CanAbandonAt(x, place.value, reason, c, effects)
    {
      forall p | IsFirstManifest(x, Some(p)) ensures Some(p) == place {
        FirstIsUnique(x, Some(p), place);
      }
    }

    /** Appends the transition to the events of the directory. */
    method AppendTransition(x: Experiment, place: Place, reason: nat) returns (alive: bool)
      requires Valid() && IsFirstManifest(x, Some(place)) && reason != BLANK_REASON
      requires At(x, place).manifest.Some? && At(x, place).manifest.value.evidence.state == Incomplete
      modifies this`left, this`temps, this`targets
      ensures Valid() && Lasts(old(targets), targets) && targets.Keys == old(targets).Keys
      ensures IsFirstManifest(x, Some(place)) && At(x, place).manifest == old(At(x, place)).manifest
      ensures alive <==> old(left) >= old(AppendCost(At(x, place), Transition(x, reason)))
      ensures alive ==> left == old(left) - old(AppendCost(At(x, place), Transition(x, reason)))
      ensures if alive then At(x, place) == old(Appended(At(x, place), Transition(x, reason)))
              else targets == old(targets) && temps == old(temps)
      ensures if place.Published? then temps == old(temps) && SameBut(old(targets), targets, x)
              else targets == old(targets) && SameBut(old(temps), temps, (x, place.pid))
      ensures forall c :: IsBlocked(old(targets), files, experimentOf, c) <==>
                IsBlocked(targets, files, experimentOf, c)
    {
      var b, e := At(x, place), Transition(x, reason);
      if AppendCost(b, e) == 0 {
        return true;
      }
      alive := Effect();
      if !alive { return; }
      match place
      case Published =>
        TargetAppended(targets, files, experimentOf, x, e);
        targets := targets[x := Appended(b, e)];
        assert TargetsComplete() && FilesSound();
      case Leftover(pid) =>
        temps := temps[(x, pid) := Appended(b, e)];
        assert forall p :: HasLeft(x, p) <==> old(HasLeft(x, p));
        assert TempsSound();
    }

    /** The registration of a candidate without a run can block and unblock no other. */
    lemma BlockedAfter(before: Files, e: Event, m: Member)
      requires Valid() && e.evidence.None? && files == before[e := m]
      ensures forall d :: IsBlocked(targets, before, experimentOf, d) ==>
                (IsBlocked(targets, files, experimentOf, d) <==> d != m.candidate)
    {
      forall d | IsBlocked(targets, before, experimentOf, d)
        ensures IsBlocked(targets, files, experimentOf, d) <==> d != m.candidate
      {
        var x := experimentOf(d);
        assert BatchSound(x, targets[x]);
        PublishedEventSound(targets[x], x, d);
        assert e in files && files[e].candidate == m.candidate;
      }
    }

    /** The directory's events have the transition. */
    ghost predicate Noted(x: Experiment, place: Place, reason: nat)
      reads this`targets, this`temps
    {
      && IsFirstManifest(x, Some(place))
      && At(x, place).events.Some? && Transition(x, reason) in At(x, place).events.value
    }

    /** Notes the transition in the directory, then registers the candidate. */
    method AbandonAt(x: Experiment, place: Place, reason: nat, c: Candidate) returns (s: Step)
      requires Valid() && IsFirstManifest(x, Some(place)) && reason != BLANK_REASON
      requires At(x, place).manifest.Some? && At(x, place).manifest.value.evidence.state == Incomplete
      modifies this`left, this`temps, this`targets, this`files
      ensures Valid() && Lasts(old(targets), targets) && targets.Keys == old(targets).Keys
      ensures Grows(old(files), files)
      ensures s == Done <==> c in commitments && old(CanAbandonAt(x, place, reason, c, left))
      ensures s.Refuses? ==> s.why == NotCommitted || s.why == RegistrationDiffers
      ensures s != Done ==> files == old(files)
      ensures s == Done ==>
                IsRegistered(files, c) && files == old(files)[AbandonedEvent(x, reason) := AbandonedMember(c, x, place)]
      ensures s == Done ==>
                (Consistent(files) <==> Consistent(old(files)) && AgreesWith(old(files), AbandonedMember(c, x, place)))
      ensures s == Done ==> Noted(x, place, reason)
      ensures forall d :: IsBlocked(old(targets), old(files), experimentOf, d) ==>
                (IsBlocked(targets, files, experimentOf, d) <==> !(s == Done && d == c))
    {
      var alive := AppendTransition(x, place, reason);
      if !alive { return Dead; }
      assert Noted(x, place, reason);
      var m, e := AbandonedMember(c, x, place), AbandonedEvent(x, reason);
      s := Register(m, e);
      if s == Done {
        BlockedAfter(old(files), e, m);
      }
    }

    /** Registers a candidate without a run, on the manifest of an incomplete experiment. */
    method AbandonExperiment(x: Experiment, reason: nat, c: Candidate, effects: nat) returns (s: Step)
      requires Valid()
      modifies this`left, this`temps, this`targets, this`files
      ensures Valid() && Lasts(old(targets), targets) && targets.Keys == old(targets).Keys
      ensures Grows(old(files), files)
      ensures s == Done <==> old(CanAbandon(x, reason, c, effects))
      ensures s == Refuses(NoReason) <==> reason == BLANK_REASON
      ensures s == Refuses(NotFound) <==> reason != BLANK_REASON && old(IsFirstManifest(x, None))
      ensures s == Refuses(NotIncomplete) ==>
                !exists place :: old(IsFirstManifest(x, Some(place)) && At(x, place).manifest.Some?
                                     && At(x, place).manifest.value.evidence.state == Incomplete)
      ensures s != Done ==> files == old(files)
      ensures s == Done ==> IsRegistered(files, c)
      ensures s == Done ==>
                exists place ::
                  && old(IsFirstManifest(x, Some(place))) && Noted(x, place, reason)
                  && Enters(old(files), files, x, reason, c, place)
      ensures forall d :: IsBlocked(old(targets), old(files), experimentOf, d) ==>
                (IsBlocked(targets, files, experimentOf, d) <==> !(s == Done && d == c))
    {
      left := effects;
      if reason == BLANK_REASON {
        return Refuses(NoReason);
      }
      var place := FindManifest(x);
      assert CanAbandon(x, reason, c, effects) <==>
             c in commitments && place.Some? && CanAbandonAt(x, place.value, reason, c, effects) by {
        OnlyTheFirstCounts(x, place, reason, c, effects);
      }
      assert old(CanAbandon(x, reason, c, effects)) <==> CanAbandon(x, reason, c, effects);
      if place.None? {
        return Refuses(NotFound);
      }
      if At(x, place.value).manifest.value.evidence.state != Incomplete {
        return Refuses(NotIncomplete);
      }
      s := AbandonAt(x, place.value, reason, c);
    }
  }

  /** The candidate is registered without a run; the registry stays readable iff it has no other registration. */
  ghost predicate Enters(before: Files, after: Files, x: Experiment, reason: nat, c: Candidate, place: Place) {
    && after == before[AbandonedEvent(x, reason) := AbandonedMember(c, x, place)]
    && (Consistent(after) <==> Consistent(before) && AgreesWith(before, AbandonedMember(c, x, place)))
  }

  lemma RegisteredWithOneMore(files: Files, e: Event, m: Member)
    requires e in files ==> files[e] == m
    ensures forall d :: IsRegistered(files[e := m], d) <==> IsRegistered(files, d) || d == m.candidate
  {
    var more := files[e := m];
    forall d ensures IsRegistered(more, d) <==> IsRegistered(files, d) || d == m.candidate {
      if IsRegistered(files, d) {
        var f :| f in files && files[f].candidate == d;
        assert f in more && more[f].candidate == d;
      }
      assert e in more && more[e] == m;
    }
  }

  lemma StaysRegistered(f: Files, g: Files, c: Candidate)
    requires Grows(f, g) && IsRegistered(f, c)
    ensures IsRegistered(g, c)
  {
    var e :| e in f && f[e].candidate == c;
    assert e in g && g[e] == f[e];
  }

  ghost predicate Grows<K, V>(a: map<K, V>, b: map<K, V>) {
    forall k :: k in a ==> k in b && b[k] == a[k]
  }

  /** The same batches, but for events that may have been appended. */
  ghost predicate Lasts(a: map<Experiment, Batch>, b: map<Experiment, Batch>) {
    forall x :: x in a ==> x in b && Outlasts(a[x], b[x])
  }

  predicate Outlasts(a: Batch, b: Batch) {
    a.(events := None) == b.(events := None) && (a.events.Some? ==> b.events.Some? && a.events.value <= b.events.value)
  }

  /** Noting an event costs an effect and appends it, once; an event that is there already costs nothing. */
  lemma AppendedOnce(b: Batch, e: Event)
    ensures Appended(Appended(b, e), e) == Appended(b, e) && AppendCost(Appended(b, e), e) == 0
    ensures AppendCost(b, e) == 0 <==> Appended(b, e) == b
    ensures AppendCost(b, e) > 0 ==>
              Appended(b, e).events == Some((if b.events.Some? then b.events.value else []) + [e])
  {
    if AppendCost(b, e) > 0 {
      assert Appended(b, e).events.value[|Appended(b, e).events.value| - 1] == e;
    }
  }

  /** The transition of an abandoned experiment changes neither what its batch says nor whose its event is. */
  lemma AppendedOutlasts(x: Experiment, b: Batch, e: Event)
    requires BatchSound(x, b) && e.experiment == x && RunLog.IsAbandonment(e, b.manifest.value.evidence.state)
    ensures BatchSound(x, Appended(b, e)) && Outlasts(b, Appended(b, e))
    ensures forall c :: PublishedEvent(Appended(b, e), x, c) == PublishedEvent(b, x, c)
  {
    RunLog.AppendAbandonment(b.events.value, x, b.manifest.value.evidence.state, b.registration.value.0, e);
    FirstRegisteredStays(b.events.value, e);
  }

  lemma TargetAppended(targets: map<Experiment, Batch>, files: Files, experimentOf: Candidate -> Experiment,
                       x: Experiment, e: Event)
    requires x in targets && BatchSound(x, targets[x]) && e.experiment == x
    requires RunLog.IsAbandonment(e, targets[x].manifest.value.evidence.state)
    ensures var after := targets[x := Appended(targets[x], e)];
            && BatchSound(x, after[x]) && Lasts(targets, after)
            && forall c :: IsBlocked(targets, files, experimentOf, c) <==> IsBlocked(after, files, experimentOf, c)
  {
    AppendedOutlasts(x, targets[x], e);
  }

  lemma {:induction false} FirstRegisteredStays(events: seq<Event>, e: Event)
    requires e.kind != MemberRegistered
    ensures FirstRegistered(events + [e]) == FirstRegistered(events)
  {
    if events == [] {
      assert FirstRegistered([e]) == FirstRegistered([e][1..]);
    } else {
      assert (events + [e])[1..] == events[1..] + [e];
      FirstRegisteredStays(events[1..], e);
    }
  }

  /** A registration without a run: its event has a reason and names no candidate, and nothing is said but that. */
  predicate IsAbandoned(e: Event, m: Member) {
    && e.reason.Some? && e.reason.value != BLANK_REASON && e.origin == Incomplete && e.evidence == None
    && e.sequence == 0
    && m.promotion == INCOMPLETE && m.sampleTier == None && m.costModel == None && m.dedup == None
  }

  /** Registrations by runs name their candidate in the event; those of abandoned experiments do not. */
  ghost predicate OnlyRuns(files: Files) {
    forall e :: e in files ==> e.evidence.Some?
  }

  /** No registration by a run is like one without. */
  lemma OnlyAbandonedDiffer(files: Files, m: Member)
    requires m.sampleTier.Some?
    requires forall e :: e in files && files[e].candidate == m.candidate ==> files[e].sampleTier.None?
    ensures AgreesWith(files, m) <==> !IsRegistered(files, m.candidate)
  {
  }

  ghost predicate SameBut<K(!new), V>(a: map<K, V>, b: map<K, V>, at: K) {
    forall k :: k != at ==> (k in a <==> k in b) && (k in a ==> a[k] == b[k])
  }

  /** A change in one directory that keeps or writes its experiment's manifest. */
  lemma TempsStaySound(before: map<(Experiment, nat), Batch>, after: map<(Experiment, nat), Batch>,
                       at: (Experiment, nat))
    requires forall k :: k in before && before[k].manifest.Some? ==> before[k].manifest.value.experiment == k.0
    requires SameBut(before, after, at)
    requires at in after && after[at].manifest.Some? ==> after[at].manifest.value.experiment == at.0
    ensures forall k :: k in after && after[k].manifest.Some? ==> after[k].manifest.value.experiment == k.0
  {
    forall k | k in after && after[k].manifest.Some? ensures after[k].manifest.value.experiment == k.0 {
      assert k != at ==> k in before && before[k] == after[k];
    }
  }

  /** A complete batch of experiment `x`, with the log of a run that has ended in the state its manifest says. */
  ghost predicate BatchSound(x: Experiment, b: Batch) {
    && b.manifest.Some? && b.report.Some? && b.curves.Some? && b.events.Some? && b.registration.Some?
    && b.manifest.value.experiment == x
    && RunLog.IsRunLog(b.events.value, x, b.manifest.value.evidence.state, b.registration.value.0)
  }

  lemma RequestSound(a: Attempt, x: Experiment)
    ensures BatchSound(x, BatchOf(RequestOf(a, x)))
  {
  }

  predicate RegisteredAt(events: seq<Event>, i: int, e: Event) {
    0 <= i < |events| && events[i] == e && e.kind == MemberRegistered
  }

  lemma {:induction false} FirstRegisteredIsOne(events: seq<Event>)
    ensures FirstRegistered(events).Some? ==>
              exists i :: RegisteredAt(events, i, FirstRegistered(events).value)
  {
    if events != [] && events[0].kind == MemberRegistered {
      assert RegisteredAt(events, 0, events[0]);
    } else if events != [] {
      FirstRegisteredIsOne(events[1..]);
      if FirstRegistered(events).Some? {
        var i :| RegisteredAt(events[1..], i, FirstRegistered(events[1..]).value);
        assert RegisteredAt(events, i + 1, FirstRegistered(events).value);
      }
    }
  }

  lemma PublishedEventSound(b: Batch, x: Experiment, c: Candidate)
    requires BatchSound(x, b)
    ensures var e := PublishedEvent(b, x, c);
            && e.kind == MemberRegistered && e.target == Registered && e.experiment == x && e.reason == None
            && e.origin == b.manifest.value.evidence.state
            && e.evidence == Some(if e.origin == Rejected then c else b.registration.value.0)
  {
    var (events, state) := (b.events.value, b.manifest.value.evidence.state);
    FirstRegisteredIsOne(events);
    if FirstRegistered(events).Some? {
      var i :| RegisteredAt(events, i, FirstRegistered(events).value);
      RunLog.OneRegistration(events, x, state, b.registration.value.0, i);
    } else if state != Rejected {
      RunLog.OneRegistration(events, x, state, b.registration.value.0, RunLog.Length(state));
      FirstRegisteredIsThere(events, RunLog.Length(state));
    }
  }

  lemma {:induction false} FirstRegisteredIsThere(events: seq<Event>, i: nat)
    requires i < |events| && events[i].kind == MemberRegistered
    ensures FirstRegistered(events).Some?
  {
    if events[0].kind != MemberRegistered {
      FirstRegisteredIsThere(events[1..], i - 1);
    }
  }

  /** The candidate is registered, or the event file its registration would take is not there yet. */
  predicate Registrable(files: Files, b: Batch, x: Experiment, c: Candidate)
    requires b.manifest.Some?
  {
    IsRegistered(files, c) || PublishedEvent(b, x, c) !in files
  }

  /** The candidate is published, not registered, and its event file is somebody else's. */
  predicate IsBlocked(targets: map<Experiment, Batch>, files: Files, experimentOf: Candidate -> Experiment,
                      c: Candidate)
  {
    var x := experimentOf(c);
    x in targets && targets[x].manifest.Some? && !Registrable(files, targets[x], x, c)
  }

  /**
   Two commitments with one experiment block each other: once the other's run
   has registered under the event of the batch this one's run has published,
   no run can register this one any more.
   */
  lemma SharedExperimentBlocks(a: Attempt, x: Experiment, other: Member)
    requires a.methodPasses && other.candidate != a.candidate && other.experiment == x
    ensures var b := BatchOf(RequestOf(a, x));
            var files: Files := map[PublishedEvent(b, x, other.candidate) := other];
            Complete(b) && !Registrable(files, b, x, a.candidate)
  {
    SharedSlot(a, x, a.candidate);
    SharedSlot(a, x, other.candidate);
  }

  /** The event in the batch of a run whose method passes serves whoever asks for it. */
  lemma SharedSlot(a: Attempt, x: Experiment, c: Candidate)
    requires a.methodPasses
    ensures PublishedEvent(BatchOf(RequestOf(a, x)), x, c)
            == RegisteredEvent(x, EvidenceOf(a).state, None, a.candidate)
  {
    var es := RunEvents(x, EvidenceOf(a).state, a.candidate);
    assert FirstRegistered(es) == FirstRegistered(es[1..]) == FirstRegistered(es[1..][1..]);
    assert FirstRegistered(es[1..][1..]) == FirstRegistered(es[1..][1..][1..]);
    assert FirstRegistered(es) == Some(es[3]);
  }

  ghost predicate OneRunEach(files: Files) {
    forall e, f :: e in files && f in files && e.evidence.Some? && f.evidence.Some? ==>
      files[e].candidate == files[f].candidate ==> e == f
  }

  lemma OneRunMore(files: Files, e: Event, m: Member)
    requires OneRunEach(files)
    requires e.evidence.Some? ==> forall f :: f in files && f.evidence.Some? ==> files[f].candidate != m.candidate
    ensures OneRunEach(files[e := m])
  {
  }

  lemma ReflectsGrows(v: Verdict, f: Files, g: Files)
    requires Reflects(v, f) && Grows(f, g)
    ensures Reflects(v, g)
  {
    forall i | 0 <= i < |v.members| ensures ReflectsAt(v, g, i) {
      assert ReflectsAt(v, f, i);
      var e :| e in f && f[e].candidate == v.members[i].candidate && FollowsRuling(v.members[i], f[e], v.ruling);
      assert e in g && g[e] == f[e];
    }
  }

  ghost predicate ReflectsAt(v: Verdict, files: Files, i: nat)
    requires i < |v.members|
  {
    exists e :: e in files && files[e].candidate == v.members[i].candidate
                && FollowsRuling(v.members[i], files[e], v.ruling)
  }

  /** The members of the verdict are the registrations, with the ruling's overrides. */
  ghost predicate Reflects(v: Verdict, files: Files) {
    forall i :: 0 <= i < |v.members| ==> ReflectsAt(v, files, i)
  }

  /** While the registrations agree, a ruling gives one verdict, whenever it is asked for. */
  lemma OneVerdict(v: Verdict, order: seq<Candidate>, index: map<Candidate, Member>, files: Files, at: nat)
    requires Accounts(v, order) && Reflects(v, files)
    requires Indexes(index, files) && forall i :: 0 <= i < |order| ==> order[i] in index
    ensures SameVerdict(v, VerdictOf(order, index, v.ruling, at))
  {
    var w := VerdictOf(order, index, v.ruling, at);
    CompleteInOrder(order, index, files);
    RejectedAreCounted(v.members);
    assert |InOrder(order, index)| == |Candidates(InOrder(order, index))| == |order|;
    forall i | 0 <= i < |v.members| ensures v.members[i] == w.members[i] {
      assert ReflectsAt(v, files, i);
      assert v.members[i].candidate == order[i];
    }
    assert v.members == w.members;
  }

  /** The verdict of a complete cohort. */
  function VerdictOf(order: seq<Candidate>, index: map<Candidate, Member>, ruling: Ruling, at: nat): Verdict {
    var members := RuledAll(InOrder(order, index), ruling);
    Verdict(at, |order|, |members|, RejectedAmong(members), members, ruling)
  }

  lemma VerdictOfSound(order: seq<Candidate>, index: map<Candidate, Member>, files: Files, ruling: Ruling, at: nat)
    requires Indexes(index, files) && forall i :: 0 <= i < |order| ==> order[i] in index
    ensures Accounts(VerdictOf(order, index, ruling, at), order) && Reflects(VerdictOf(order, index, ruling, at), files)
  {
    var v := VerdictOf(order, index, ruling, at);
    CompleteInOrder(order, index, files);
    var entries := InOrder(order, index);
    assert |entries| == |Candidates(entries)|;
    assert forall i :: 0 <= i < |order| ==> v.members[i].candidate == Candidates(entries)[i];
    RejectedAreCounted(v.members);
    forall i | 0 <= i < |v.members| ensures ReflectsAt(v, files, i) {
      assert v.members[i] == Ruled(entries[i], ruling);
      assert IsRegistered(files, order[i]);
      var e :| e in files && files[e].candidate == order[i];
      assert files[e] == entries[i];
    }
  }

  /** Commitments without a registration. */
  predicate AllRegistered(order: seq<Candidate>, files: Files) {
    forall i :: 0 <= i < |order| ==> IsRegistered(files, order[i])
  }
}
