/**
 Experiments that supersede earlier ones: the check of a new context against the
 index of published ones, and the walk along its lineage.
 */
module Lineage {
  import opened Wrappers
  import Sets

  /** The identity of an experiment is a collision-free hash of all of a context but what it supersedes. */
  datatype Id = Id(upstream: nat, cohort: nat, configuration: nat)

  datatype Context = Context(upstream: nat, cohort: nat, configuration: nat, supersedes: Option<Id>)

  function IdOf(c: Context): Id {
    Id(c.upstream, c.cohort, c.configuration)
  }

  type Index = map<Id, Context>

  ghost predicate WellKeyed(index: Index) {
    forall x :: x in index ==> IdOf(index[x]) == x
  }

  predicate SameKind(a: Context, b: Context) {
    a.upstream == b.upstream && a.cohort == b.cohort
  }

  datatype Objection = SelfReference | TargetMissing | OtherKind | Cycle | Broken

  predicate IsLastOf(contexts: seq<Context>, i: int, x: Id) {
    && 0 <= i < |contexts| && IdOf(contexts[i]) == x
    && forall j :: i < j < |contexts| ==> IdOf(contexts[j]) != x
  }

  /** The later context of one identity replaces the earlier one. */
  method FromContexts(contexts: seq<Context>) returns (index: Index)
    ensures WellKeyed(index)
    ensures index.Keys == set i | 0 <= i < |contexts| :: IdOf(contexts[i])
    ensures forall x :: x in index ==> exists i :: IsLastOf(contexts, i, x) && contexts[i] == index[x]
  {
    index := map[];
    for i := 0 to |contexts|
      invariant WellKeyed(index)
      invariant index.Keys == set j | 0 <= j < i :: IdOf(contexts[j])
      invariant forall x :: x in index ==> exists j :: IsLastOf(contexts[..i], j, x) && contexts[j] == index[x]
    {
      ghost var before := index;
      index := index[IdOf(contexts[i]) := contexts[i]];
      forall x | x in index ensures exists j :: IsLastOf(contexts[..i + 1], j, x) && contexts[j] == index[x] {
        if x == IdOf(contexts[i]) {
          assert IsLastOf(contexts[..i + 1], i, x);
        } else {
          var j :| IsLastOf(contexts[..i], j, x) && contexts[j] == before[x];
          assert IsLastOf(contexts[..i + 1], j, x);
        }
      }
    }
    assert contexts[..|contexts|] == contexts;
  }

  // ---- the walk ----------------------------------------------------

  function Next(index: Index, x: Id): Option<Id> {
    if x in index then index[x].supersedes else None
  }

  /** From `x` the walk takes `n` steps and ends. */
  predicate EndsAfter(index: Index, x: Id, n: nat)
    decreases n
  {
    var next := Next(index, x);
    if next.None? then n == 0 else n > 0 && EndsAfter(index, next.value, n - 1)
  }

  /** The identities the walk comes by after `x`. */
  function Chain(index: Index, x: Id, n: nat): (chain: seq<Id>)
    requires EndsAfter(index, x, n)
    ensures |chain| == n
    decreases n
  {
    var next := Next(index, x);
    if next.None? then [] else [next.value] + Chain(index, next.value, n - 1)
  }

  lemma {:induction false} OneLength(index: Index, x: Id, n: nat, m: nat)
    requires EndsAfter(index, x, n) && EndsAfter(index, x, m)
    ensures n == m
    decreases n
  {
    if Next(index, x).Some? {
      OneLength(index, Next(index, x).value, n - 1, m - 1);
    }
  }

  lemma {:induction false} ChainFromWithin(index: Index, x: Id, n: nat, i: nat)
    requires EndsAfter(index, x, n) && i < n
    ensures EndsAfter(index, Chain(index, x, n)[i], n - i - 1)
    ensures Chain(index, Chain(index, x, n)[i], n - i - 1) == Chain(index, x, n)[i + 1..]
    decreases n
  {
    if i > 0 {
      var y := Next(index, x).value;
      ChainFromWithin(index, y, n - 1, i - 1);
      assert Chain(index, x, n)[i] == Chain(index, y, n - 1)[i - 1];
      assert Chain(index, x, n)[i + 1..] == Chain(index, y, n - 1)[i..];
    }
  }

  /** A walk that ends comes by nothing twice, and never back to where it started. */
  lemma NoRepeats(index: Index, x: Id, n: nat)
    requires EndsAfter(index, x, n)
    ensures x !in Chain(index, x, n)
    ensures forall i, j :: 0 <= i < j < n ==> Chain(index, x, n)[i] != Chain(index, x, n)[j]
  {
    var chain := Chain(index, x, n);
    forall i | 0 <= i < n ensures chain[i] != x {
      ChainFromWithin(index, x, n, i);
      if chain[i] == x { OneLength(index, x, n, n - i - 1); }
    }
    forall i, j | 0 <= i < j < n ensures chain[i] != chain[j] {
      ChainFromWithin(index, x, n, i);
      ChainFromWithin(index, x, n, j);
      if chain[i] == chain[j] { OneLength(index, chain[i], n - i - 1, n - j - 1); }
    }
  }

  // ---- the check ---------------------------------------------------

  /**
   The target is published and of the kind of `c`; from it a chain of published experiments ends
   without coming by `c`.
   */
  ghost predicate Passes(c: Context, index: Index) {
    c.supersedes.Some? ==>
      var t := c.supersedes.value;
      && t in index && index[t].upstream == c.upstream && index[t].cohort == c.cohort
      && exists n: nat :: Sound(c, index, t, n)
  }

  ghost predicate Sound(c: Context, index: Index, t: Id, n: nat) {
    && EndsAfter(index, t, n)
    && IdOf(c) !in [t] + Chain(index, t, n)
    && forall y :: y in Chain(index, t, n) ==> y in index
  }

  /** `path` is the walk from its first element up to its last. */
  ghost predicate Walked(index: Index, path: seq<Id>) {
    path != [] && forall i :: 0 <= i < |path| - 1 ==> Next(index, path[i]) == Some(path[i + 1])
  }

  lemma {:induction false} WalkedChain(index: Index, path: seq<Id>, n: nat)
    requires Walked(index, path) && EndsAfter(index, path[0], n)
    ensures n >= |path| - 1 && EndsAfter(index, path[|path| - 1], n - (|path| - 1))
    ensures [path[0]] + Chain(index, path[0], n) == path + Chain(index, path[|path| - 1], n - (|path| - 1))
  {
    if |path| > 1 {
      var rest := path[1..];
      assert Next(index, path[0]) == Some(rest[0]);
      forall i | 0 <= i < |rest| - 1 ensures Next(index, rest[i]) == Some(rest[i + 1]) {
        assert Next(index, path[i + 1]) == Some(path[i + 2]);
      }
      WalkedChain(index, rest, n - 1);
      assert path == [path[0]] + rest;
    }
  }

  lemma {:induction false} WalkedEnds(index: Index, path: seq<Id>)
    requires Walked(index, path) && Next(index, path[|path| - 1]).None?
    ensures EndsAfter(index, path[0], |path| - 1) && Chain(index, path[0], |path| - 1) == path[1..]
  {
    if |path| > 1 {
      var rest := path[1..];
      assert Next(index, path[0]) == Some(rest[0]);
      forall i | 0 <= i < |rest| - 1 ensures Next(index, rest[i]) == Some(rest[i + 1]) {
        assert Next(index, path[i + 1]) == Some(path[i + 2]);
      }
      WalkedEnds(index, rest);
    }
  }

  lemma WalkedStep(index: Index, path: seq<Id>, next: Id)
    requires Walked(index, path) && Next(index, path[|path| - 1]) == Some(next)
    ensures Walked(index, path + [next])
  {
    var longer := path + [next];
    forall i | 0 <= i < |longer| - 1 ensures Next(index, longer[i]) == Some(longer[i + 1]) {
      if i < |path| - 1 { assert Next(index, path[i]) == Some(path[i + 1]); }
    }
  }

  /** In a sound chain the next step leads to something published and new. */
  lemma SoundStep(c: Context, index: Index, path: seq<Id>, next: Id, n: nat)
    requires Walked(index, path) && Next(index, path[|path| - 1]) == Some(next)
    requires Sound(c, index, path[0], n)
    ensures next in index && next != IdOf(c) && next !in path
  {
    WalkedStep(index, path, next);
    WalkedChain(index, path + [next], n);
    NoRepeats(index, path[0], n);
    var whole := [path[0]] + Chain(index, path[0], n);
    assert whole[|path|] == next;
    forall i | 0 <= i < |path| ensures path[i] != next {
      assert whole[i] == path[i];
    }
  }

  /** `path` is the walk from the target of `c`, so far of published experiments other than `c`. */
  ghost predicate StaysPublished(c: Context, index: Index, path: seq<Id>) {
    && Walked(index, path) && Some(path[0]) == c.supersedes
    && forall x :: x in path ==> x in index && x != IdOf(c)
  }

  predicate GoesOn(index: Index, path: seq<Id>, next: Id) {
    path != [] && Next(index, path[|path| - 1]) == Some(next)
  }

  /** Objects exactly to what does not pass; ends on every index, one with cycles included. */
  method ValidateSupersedes(c: Context, index: Index) returns (objection: Option<Objection>)
    ensures objection.None? <==> Passes(c, index)
    ensures objection == Some(SelfReference) <==> c.supersedes == Some(IdOf(c))
    ensures objection == Some(TargetMissing) <==>
              c.supersedes.Some? && c.supersedes.value != IdOf(c) && c.supersedes.value !in index
    ensures objection == Some(OtherKind) <==>
              && c.supersedes.Some? && c.supersedes.value != IdOf(c) && c.supersedes.value in index
              && var t := index[c.supersedes.value]; t.upstream != c.upstream || t.cohort != c.cohort
    ensures objection == Some(Cycle) ==>
              exists path, next :: StaysPublished(c, index, path) && GoesOn(index, path, next)
                                   && (next == IdOf(c) || next in path)
    ensures objection == Some(Broken) ==>
              exists path, next :: StaysPublished(c, index, path) && GoesOn(index, path, next)
                                   && next !in index && next != IdOf(c) && next !in path
  {
    if c.supersedes.None? {
      return None;
    }
    var target := c.supersedes.value;
    if target == IdOf(c) {
      return Some(SelfReference);
    }
    if target !in index {
      return Some(TargetMissing);
    }
    if !SameKind(index[target], c) {
      return Some(OtherKind);
    }
    var seen := {IdOf(c), target};
    var cursor := index[target];
    ghost var path := [target];
    while cursor.supersedes.Some?
      invariant Walked(index, path) && path[0] == target
      invariant path[|path| - 1] in index && cursor == index[path[|path| - 1]]
      invariant forall x :: x in seen <==> x == IdOf(c) || x in path
      invariant forall x :: x in path ==> x in index && x != IdOf(c)
      decreases |index.Keys - seen|
    {
      var next := cursor.supersedes.value;
      if next in seen {
        forall n: nat | Sound(c, index, target, n) ensures false { SoundStep(c, index, path, next, n); }
        assert StaysPublished(c, index, path) && GoesOn(index, path, next);
        return Some(Cycle);
      }
      ghost var unseen := index.Keys - seen;
      seen := seen + {next};
      if next !in index {
        forall n: nat | Sound(c, index, target, n) ensures false { SoundStep(c, index, path, next, n); }
        assert StaysPublished(c, index, path) && GoesOn(index, path, next);
        return Some(Broken);
      }
      assert index.Keys - seen == unseen - {next};
      cursor := index[next];
      WalkedStep(index, path, next);
      path := path + [next];
    }
    WalkedEnds(index, path);
    assert [target] + path[1..] == path;
    assert Sound(c, index, target, |path| - 1);
    objection := None;
  }

  // ---- lineage -----------------------------------------------------

  /** Walks along what is superseded, which ends exactly where nothing repeats. */
  method LineageOf(index: Index, id: Id) returns (chain: seq<Id>)
    requires NeverRepeats(index, id)
    ensures EndsAfter(index, id, |chain|) && chain == Chain(index, id, |chain|)
  {
    ghost var n := FreshWalkEnds(index, [id]);
    chain := [];
    var at := id;
    ghost var rest: nat := n;
    while Next(index, at).Some?
      invariant rest <= n && EndsAfter(index, id, n) && EndsAfter(index, at, rest)
      invariant |chain| + rest == n && chain + Chain(index, at, rest) == Chain(index, id, n)
      decreases rest
    {
      at := Next(index, at).value;
      chain := chain + [at];
      rest := rest - 1;
    }
  }

  /** The lineage of a published experiment that passes: published experiments, each once, and not itself. */
  lemma LineageIsSound(index: Index, id: Id) returns (n: nat)
    requires WellKeyed(index) && id in index && Passes(index[id], index)
    ensures EndsAfter(index, id, n) && NeverRepeats(index, id)
    ensures forall i :: 0 <= i < n ==> Chain(index, id, n)[i] in index && Chain(index, id, n)[i] != id
    ensures forall i, j :: 0 <= i < j < n ==> Chain(index, id, n)[i] != Chain(index, id, n)[j]
  {
    if index[id].supersedes.None? {
      n := 0;
    } else {
      var t := index[id].supersedes.value;
      var m: nat :| Sound(index[id], index, t, m);
      n := m + 1;
      NoRepeats(index, id, n);
      assert Chain(index, id, n) == [t] + Chain(index, t, m);
    }
    assert EndsIn(index, id, n);
    EndsExactly(index, id);
  }

  /** A walk that comes back to where it started never ends. */
  lemma CycleNeverEnds(index: Index, path: seq<Id>)
    requires Walked(index, path) && |path| > 1 && path[|path| - 1] == path[0]
    ensures !WalkEnds(index, path[0])
  {
    forall n: nat | EndsIn(index, path[0], n) ensures false {
      WalkedChain(index, path, n);
      OneLength(index, path[0], n, n - (|path| - 1));
    }
  }

  // ---- where the walk ends -----------------------------------------

  predicate Repeats(path: seq<Id>) {
    exists i, j :: 0 <= i < j < |path| && path[i] == path[j]
  }

  ghost predicate NeverRepeats(index: Index, x: Id) {
    forall path :: Walked(index, path) && path[0] == x ==> !Repeats(path)
  }

  lemma EndingWalkNeverRepeats(index: Index, path: seq<Id>, n: nat)
    requires Walked(index, path) && EndsAfter(index, path[0], n)
    ensures !Repeats(path)
  {
    var whole := [path[0]] + Chain(index, path[0], n);
    WalkedChain(index, path, n);
    NoRepeats(index, path[0], n);
    forall i, j | 0 <= i < j < |path| ensures path[i] != path[j] {
      assert whole[i] == path[i] && whole[j] == path[j];
    }
  }

  function Members(path: seq<Id>): set<Id> {
    set i | 0 <= i < |path| :: path[i]
  }

  lemma MembersAppend(path: seq<Id>, x: Id)
    ensures Members(path + [x]) == Members(path) + {x}
  {
    var longer := path + [x];
    assert longer[|path|] == x;
    forall y | y in Members(path) ensures y in Members(longer) {
      var i :| 0 <= i < |path| && path[i] == y;
      assert longer[i] == y;
    }
  }

  /** What is walked to next is new, or the walk would repeat. */
  lemma FreshNext(index: Index, path: seq<Id>, next: Id)
    requires Walked(index, path) && NeverRepeats(index, path[0]) && Next(index, path[|path| - 1]) == Some(next)
    ensures Walked(index, path + [next]) && next !in Members(path)
  {
    var longer := path + [next];
    WalkedStep(index, path, next);
    assert !Repeats(longer);
    forall i | 0 <= i < |path| ensures path[i] != next {
      assert longer[i] != longer[|path|];
    }
  }

  /** A walk that never repeats anything uses up the index. */
  lemma {:induction false} FreshWalkEnds(index: Index, path: seq<Id>) returns (n: nat)
    requires Walked(index, path) && NeverRepeats(index, path[0])
    ensures EndsAfter(index, path[|path| - 1], n)
    decreases |index.Keys - Members(path)|
  {
    var last := path[|path| - 1];
    if Next(index, last).None? {
      n := 0;
    } else {
      var next := Next(index, last).value;
      FreshNext(index, path, next);
      MembersAppend(path, next);
      if next in index {
        assert index.Keys - Members(path + [next]) == (index.Keys - Members(path)) - {next};
        n := FreshWalkEnds(index, path + [next]);
      } else {
        n := 0;
      }
      n := n + 1;
    }
  }

  predicate EndsIn(index: Index, x: Id, n: nat) {
    EndsAfter(index, x, n)
  }

  ghost predicate WalkEnds(index: Index, x: Id) {
    exists n: nat :: EndsIn(index, x, n)
  }

  /** The walk from an experiment ends exactly if it never comes by anything twice, be it the start or further on. */
  lemma EndsExactly(index: Index, x: Id)
    ensures WalkEnds(index, x) <==> NeverRepeats(index, x)
  {
    if n: nat :| EndsIn(index, x, n) {
      forall path | Walked(index, path) && path[0] == x ensures !Repeats(path) {
        EndingWalkNeverRepeats(index, path, n);
      }
    }
    if NeverRepeats(index, x) {
      var n := FreshWalkEnds(index, [x]);
      assert EndsIn(index, x, n);
    }
  }

  lemma {:induction false} ManyMembers(path: seq<Id>)
    requires !Repeats(path)
    ensures |Members(path)| == |path|
  {
    if path != [] {
      var front, last := path[..|path| - 1], path[|path| - 1];
      assert !Repeats(front) by {
        forall i, j | 0 <= i < j < |front| ensures front[i] != front[j] {
          assert path[i] != path[j];
        }
      }
      ManyMembers(front);
      assert Members(path) == Members(front) + {last};
      assert last !in front;
    }
  }

  /** A walk that ends takes no more steps than there are experiments, so taking that many decides it. */
  lemma EndsWithinIndex(index: Index, x: Id, n: nat)
    requires EndsAfter(index, x, n)
    ensures n <= |index|
  {
    var whole := [x] + Chain(index, x, n);
    var moving := whole[..n];
    NoRepeats(index, x, n);
    forall i | 0 <= i < n ensures whole[i] in index {
      if i == 0 {
        assert Next(index, x).Some?;
      } else {
        ChainFromWithin(index, x, n, i - 1);
      }
    }
    assert !Repeats(moving);
    ManyMembers(moving);
    Sets.Subset(Members(moving), index.Keys);
  }

  /** Three experiments, the first superseding one of two that supersede each other: no walk among them ends. */
  lemma TailIntoCycle() returns (index: Index, tail: Id)
    ensures WellKeyed(index) && tail in index && |index| == 3
    ensures !WalkEnds(index, tail)
    ensures forall path :: Walked(index, path) && path[0] == tail && |path| > 1 ==> path[|path| - 1] != tail
  {
    var a, b := Id(0, 0, 1), Id(0, 0, 2);
    tail := Id(0, 0, 0);
    index := map[tail := Context(0, 0, 0, Some(a)), a := Context(0, 0, 1, Some(b)), b := Context(0, 0, 2, Some(a))];
    assert index.Keys == {tail, a, b};
    var path := [tail, a, b, a];
    assert Walked(index, path) && path[1] == path[3];
    EndsExactly(index, tail);
    forall other | Walked(index, other) && other[0] == tail && |other| > 1 ensures other[|other| - 1] != tail {
      assert Next(index, other[|other| - 2]) == Some(other[|other| - 2 + 1]);
    }
  }

  /** If every published experiment passes, a lineage is of one upstream and one cohort throughout. */
  lemma {:induction false} LineageIsOfOneKind(index: Index, id: Id, n: nat)
    requires WellKeyed(index) && forall x :: x in index ==> Passes(index[x], index)
    requires id in index && EndsAfter(index, id, n)
    ensures forall i :: 0 <= i < n ==>
              && Chain(index, id, n)[i] in index
              && index[Chain(index, id, n)[i]].upstream == index[id].upstream
              && index[Chain(index, id, n)[i]].cohort == index[id].cohort
    decreases n
  {
    if n > 0 {
      var t := index[id].supersedes.value;
      assert Passes(index[id], index);
      LineageIsOfOneKind(index, t, n - 1);
      assert Chain(index, id, n) == [t] + Chain(index, t, n - 1);
    }
  }
}
