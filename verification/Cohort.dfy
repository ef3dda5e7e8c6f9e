/**
 The values of the canonical registry: evidence batches, registration events,
 the index of registrations by candidate, and the verdict of a cohort.
 */
module Cohort {
  import opened Wrappers

  type Candidate = nat
  type Experiment = nat

  datatype State = Created | Validating | Running | EvidenceReady | Rejected | Incomplete | Registered
  datatype Kind = StateChanged | GateRejected | MemberRegistered

  /** An event; its identifier is a collision-free hash of all these fields. */
  datatype Event = Event(
    kind: Kind,
    experiment: Experiment,
    origin: State,
    target: State,
    reason: Option<nat>,    // the number of the reason's text
    evidence: Option<Candidate>,
    sequence: nat)

  /** Texts without a visible character have one number; the methodology gate's code has the next. */
  const BLANK_REASON: nat := 0
  const LOOKAHEAD: nat := 1

  /** What promotion is derived from. */
  datatype Evidence = Evidence(state: State, stages: nat, sampleTier: nat, costVerdict: nat)

  datatype Promotion = Refused | Judged(verdict: nat)

  /** The verdict on incomplete evidence. */
  const INCOMPLETE := Judged(0)

  datatype ManifestFile = ManifestFile(experiment: Experiment, evidence: Evidence, signal: nat)

  /** A batch directory: the files in it so far. */
  datatype Batch = Batch(
    manifest: Option<ManifestFile>,
    report: Option<nat>,
    curves: Option<nat>,
    events: Option<seq<Event>>,
    registration: Option<(Candidate, nat)>)

  const BLANK := Batch(None, None, None, None, None)

  predicate Complete(b: Batch) {
    b.manifest.Some? && b.report.Some? && b.curves.Some? && b.events.Some? && b.registration.Some?
  }

  /** What a consumer looks for in a canonical batch. */
  predicate IsPublished(b: Batch) {
    b.manifest.Some? && b.report.Some? && b.curves.Some? && b.registration.Some?
  }

  /** What two batches are compared by; their events are not. */
  predicate SameSignature(a: Batch, b: Batch) {
    a.manifest == b.manifest && a.report == b.report && a.registration == b.registration && a.curves == b.curves
  }

  /** A directory of an experiment: the published one, or one that a killed process has left. */
  datatype Place = Published | Leftover(pid: nat)

  datatype Member = Member(
    candidate: Candidate,
    experiment: Experiment,
    promotion: Promotion,
    sampleTier: Option<nat>,
    costModel: Option<nat>,
    dedup: Option<nat>,
    evidence: Place)

  /** The event files of a cohort: each holds an event and a registration. */
  type Files = map<Event, Member>

  // ---- registrations -----------------------------------------------

  /** No two registrations of a candidate differ; otherwise none can be read. */
  ghost predicate Consistent(files: Files) {
    forall e, f :: e in files && f in files && files[e].candidate == files[f].candidate ==> files[e] == files[f]
  }

  predicate IsRegistered(files: Files, c: Candidate) {
    exists e :: e in files && files[e].candidate == c
  }

  ghost predicate AgreesWith(files: Files, m: Member) {
    forall e :: e in files && files[e].candidate == m.candidate ==> files[e] == m
  }

  /** One more registration keeps the others readable iff the candidate has no other. */
  lemma ConsistentWithOneMore(files: Files, e: Event, m: Member)
    requires e in files ==> files[e] == m
    ensures Consistent(files[e := m]) <==> Consistent(files) && AgreesWith(files, m)
  {
    var more := files[e := m];
    if Consistent(more) {
      forall f | f in files && files[f].candidate == m.candidate ensures files[f] == m {
        assert more[f] == more[e];
      }
      forall f, g | f in files && g in files && files[f].candidate == files[g].candidate
        ensures files[f] == files[g]
      {
        assert more[f] == more[g];
      }
    }
  }

  /** `index` holds the registrations of `files` by candidate. */
  ghost predicate Indexes(index: map<Candidate, Member>, files: Files) {
    && (forall e :: e in files ==> files[e].candidate in index && index[files[e].candidate] == files[e])
    && (forall c :: c in index ==> index[c].candidate == c && IsRegistered(files, c))
  }

  function InOrder(order: seq<Candidate>, index: map<Candidate, Member>): seq<Member> {
    if order == [] then []
    else InOrder(order[..|order| - 1], index)
         + (if order[|order| - 1] in index then [index[order[|order| - 1]]] else [])
  }

  function Candidates(members: seq<Member>): seq<Candidate> {
    seq(|members|, i requires 0 <= i < |members| => members[i].candidate)
  }

  predicate Distinct(order: seq<Candidate>) {
    forall i, j :: 0 <= i < j < |order| ==> order[i] != order[j]
  }

  /** When nothing is missing, the members are the commitments one for one and in their order. */
  lemma {:induction false} CompleteInOrder(order: seq<Candidate>, index: map<Candidate, Member>, files: Files)
    requires Indexes(index, files) && forall i :: 0 <= i < |order| ==> order[i] in index
    ensures Candidates(InOrder(order, index)) == order
    ensures forall i :: 0 <= i < |InOrder(order, index)| ==> InOrder(order, index)[i] == index[order[i]]
  {
    if order != [] {
      var front := order[..|order| - 1];
      assert forall i :: 0 <= i < |front| ==> front[i] == order[i];
      CompleteInOrder(front, index, files);
      assert |Candidates(InOrder(front, index))| == |front|;
    }
  }

  // ---- the verdict -------------------------------------------------

  /** What the caller of finalization brings: overrides by candidate and the cohort statistics. */
  datatype Ruling = Ruling(promotions: map<Candidate, Promotion>, dedups: map<Candidate, nat>, statistics: nat)

  datatype Verdict = Verdict(
    finalizedAt: nat,
    trialCount: nat,
    memberCount: nat,
    rejectedCount: nat,
    members: seq<Member>,
    ruling: Ruling)

  function Ruled(m: Member, ruling: Ruling): Member {
    var promoted := if m.candidate in ruling.promotions then m.(promotion := ruling.promotions[m.candidate]) else m;
    if m.candidate in ruling.dedups then promoted.(dedup := Some(ruling.dedups[m.candidate])) else promoted
  }

  function RuledAll(members: seq<Member>, ruling: Ruling): seq<Member> {
    seq(|members|, i requires 0 <= i < |members| => Ruled(members[i], ruling))
  }

  function RejectedAmong(members: seq<Member>): nat {
    if members == [] then 0
    else RejectedAmong(members[..|members| - 1]) + (if members[|members| - 1].promotion == Refused then 1 else 0)
  }

  /** Equal but for the wall clock. */
  predicate SameVerdict(a: Verdict, b: Verdict) {
    a.(finalizedAt := 0) == b.(finalizedAt := 0)
  }

  /** The members that are refused. */
  ghost function RefusedAt(members: seq<Member>): set<nat> {
    set i: nat | i < |members| && members[i].promotion == Refused
  }

  lemma {:induction false} RejectedAreCounted(members: seq<Member>)
    ensures RejectedAmong(members) == |RefusedAt(members)|
  {
    if members != [] {
      var front, last := members[..|members| - 1], |members| - 1;
      RejectedAreCounted(front);
      assert RefusedAt(members) == RefusedAt(front) + (if members[last].promotion == Refused then {last} else {});
    }
  }

  /** A verdict accounts for every commitment once, in order, with the counts that go with it. */
  ghost predicate Accounts(v: Verdict, order: seq<Candidate>) {
    && |v.members| == |order| && (forall i :: 0 <= i < |order| ==> v.members[i].candidate == order[i])
    && v.trialCount == |order| && v.memberCount == v.trialCount
    && v.rejectedCount == |RefusedAt(v.members)|
  }

  /** The member is the registration, but for what the ruling says of its candidate. */
  predicate FollowsRuling(v: Member, m: Member, ruling: Ruling) {
    && v.promotion == (if m.candidate in ruling.promotions then ruling.promotions[m.candidate] else m.promotion)
    && v.dedup == (if m.candidate in ruling.dedups then Some(ruling.dedups[m.candidate]) else m.dedup)
    && v == m.(promotion := v.promotion, dedup := v.dedup)
  }
}
