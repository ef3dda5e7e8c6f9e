/**
 The ledger of tradable pairs: half-open intervals of validity, the check that
 intervals of one pair do not overlap, and the canonical document of a ledger.

 A pair is the rank of its name in text order. Instants are written as text
 whose order need not be theirs; `text` gives the rank of that text, different
 for different instants.
 */
module Universe {
  import opened Wrappers
  import Sorting

  datatype Member = Member(pair: nat, begins: int, ends: Option<int>)

  datatype UniverseError = EmptyInterval | Overlap | Unordered | DuplicateKey

  predicate Proper(m: Member) {
    m.ends.Some? ==> m.begins < m.ends.value
  }

  predicate ActiveAt(m: Member, t: int) {
    if t < m.begins then false
    else if m.ends.None? then true
    else t < m.ends.value
  }

  // ---- overlap -----------------------------------------------------

  predicate Before(a: Member, b: Member) {
    a.ends.Some? && a.ends.value <= b.begins
  }

  predicate Apart(a: Member, b: Member) {
    Before(a, b) || Before(b, a)
  }

  /** Apart are exactly the intervals without a common instant. */
  lemma ApartExactly(a: Member, b: Member)
    requires Proper(a) && Proper(b)
    ensures Apart(a, b) <==> forall t :: !(ActiveAt(a, t) && ActiveAt(b, t))
  {
    var later := if a.begins >= b.begins then a.begins else b.begins;
    if !Apart(a, b) {
      assert ActiveAt(a, later) && ActiveAt(b, later);
    }
  }

  predicate AllProper(s: seq<Member>) {
    forall i :: 0 <= i < |s| ==> Proper(s[i])
  }

  predicate ApartFromAll(m: Member, s: seq<Member>) {
    forall i :: 0 <= i < |s| && s[i].pair == m.pair ==> Apart(m, s[i])
  }

  /** No two intervals of one pair overlap. */
  predicate NoOverlap(s: seq<Member>) {
    s != [] ==> ApartFromAll(s[0], s[1..]) && NoOverlap(s[1..])
  }

  lemma {:induction false} NoOverlapPairwise(s: seq<Member>)
    ensures NoOverlap(s) <==> forall i, j :: 0 <= i < j < |s| && s[i].pair == s[j].pair ==> Apart(s[i], s[j])
  {
    if s != [] {
      NoOverlapPairwise(s[1..]);
      if NoOverlap(s) {
        forall i, j | 0 <= i < j < |s| && s[i].pair == s[j].pair ensures Apart(s[i], s[j]) {
          if i == 0 { assert s[1..][j - 1] == s[j]; } else { assert s[1..][i - 1] == s[i] && s[1..][j - 1] == s[j]; }
        }
      }
    }
  }

  /** So at any instant a pair is active by one interval at most. */
  lemma OneActiveInterval(s: seq<Member>, t: int, i: nat, j: nat)
    requires AllProper(s) && NoOverlap(s)
    requires i < |s| && j < |s| && s[i].pair == s[j].pair && ActiveAt(s[i], t) && ActiveAt(s[j], t)
    ensures i == j
  {
    NoOverlapPairwise(s);
    ApartExactly(s[i], s[j]);
    ApartExactly(s[j], s[i]);
  }

  // ---- sorting keeps overlap ---------------------------------------

  lemma SameMembersApart(m: Member, a: seq<Member>, b: seq<Member>)
    requires multiset(a) == multiset(b)
    ensures ApartFromAll(m, a) <==> ApartFromAll(m, b)
  {
    if ApartFromAll(m, a) {
      ApartFromMembers(m, a, b);
    } else if ApartFromAll(m, b) {
      ApartFromMembers(m, b, a);
    }
  }

  lemma ApartFromMembers(m: Member, a: seq<Member>, b: seq<Member>)
    requires multiset(a) == multiset(b) && ApartFromAll(m, a)
    ensures ApartFromAll(m, b)
  {
    forall i | 0 <= i < |b| && b[i].pair == m.pair ensures Apart(m, b[i]) {
      assert b[i] in multiset(a);
      var j :| 0 <= j < |a| && a[j] == b[i];
    }
  }

  lemma {:induction false} InsertKeepsOverlap(le: (Member, Member) -> bool, x: Member, s: seq<Member>)
    ensures NoOverlap(Sorting.Insert(le, x, s)) <==> ApartFromAll(x, s) && NoOverlap(s)
  {
    if s == [] {
    } else if le(x, s[0]) {
      assert ([x] + s)[1..] == s;
    } else {
      var rest := Sorting.Insert(le, x, s[1..]);
      InsertKeepsOverlap(le, x, s[1..]);
      assert Sorting.Insert(le, x, s)[1..] == rest;
      SameMembersApart(s[0], rest, [x] + s[1..]);
      ApartFromMore(s[0], x, s[1..]);
      ApartFromMore(x, s[0], s[1..]);
      assert [s[0]] + s[1..] == s;
    }
  }

  lemma ApartFromMore(m: Member, x: Member, s: seq<Member>)
    ensures ApartFromAll(m, [x] + s) <==> ApartFromAll(m, s) && (x.pair == m.pair ==> Apart(m, x))
  {
    var more := [x] + s;
    if ApartFromAll(m, more) {
      assert more[0] == x;
      forall i | 0 <= i < |s| && s[i].pair == m.pair ensures Apart(m, s[i]) { assert more[i + 1] == s[i]; }
    }
  }

  lemma {:induction false} SortKeepsOverlap(le: (Member, Member) -> bool, s: seq<Member>)
    ensures NoOverlap(Sorting.Sort(le, s)) <==> NoOverlap(s)
  {
    if s != [] {
      SortKeepsOverlap(le, s[1..]);
      InsertKeepsOverlap(le, s[0], Sorting.Sort(le, s[1..]));
      SameMembersApart(s[0], s[1..], Sorting.Sort(le, s[1..]));
    }
  }

  // ---- the neighbour check -----------------------------------------

  predicate StartsNoLater(a: Member, b: Member) { a.begins <= b.begins }

  predicate NeighboursApart(s: seq<Member>) {
    forall i :: 1 <= i < |s| ==> Before(s[i - 1], s[i])
  }

  lemma {:induction false} NeighboursBefore(s: seq<Member>, i: nat, j: nat)
    requires AllProper(s) && NeighboursApart(s) && i < j < |s|
    ensures Before(s[i], s[j])
  {
    assert Before(s[j - 1], s[j]);
    if i < j - 1 {
      NeighboursBefore(s, i, j - 1);
    }
  }

  predicate OfPair(s: seq<Member>, pair: nat) {
    forall i :: 0 <= i < |s| ==> s[i].pair == pair
  }

  /** In the order of their beginnings, comparing neighbours tells whether any two overlap. */
  lemma NeighboursExactly(s: seq<Member>, pair: nat)
    requires AllProper(s) && OfPair(s, pair) && Sorting.Sorted(StartsNoLater, s)
    ensures NeighboursApart(s) <==> NoOverlap(s)
  {
    NoOverlapPairwise(s);
    if NeighboursApart(s) {
      forall i, j | 0 <= i < j < |s| ensures Apart(s[i], s[j]) {
        NeighboursBefore(s, i, j);
      }
    }
    if NoOverlap(s) {
      forall i | 1 <= i < |s| ensures Before(s[i - 1], s[i]) {
        assert Apart(s[i - 1], s[i]) && StartsNoLater(s[i - 1], s[i]);
      }
    }
  }

  function Of(s: seq<Member>, pair: nat): (r: seq<Member>)
    ensures OfPair(r, pair)
  {
    if s == [] then [] else Of(s[..|s| - 1], pair) + (if s[|s| - 1].pair == pair then [s[|s| - 1]] else [])
  }

  lemma {:induction false} OfMembers(s: seq<Member>, pair: nat, m: Member)
    ensures m in Of(s, pair) <==> m in s && m.pair == pair
  {
    if s != [] {
      OfMembers(s[..|s| - 1], pair, m);
      assert s == s[..|s| - 1] + [s[|s| - 1]];
    }
  }

  lemma OfAppend(s: seq<Member>, m: Member, pair: nat)
    ensures Of(s + [m], pair) == if m.pair == pair then Of(s, pair) + [m] else Of(s, pair)
  {
    assert (s + [m])[..|s|] == s;
  }

  predicate PairNoOverlap(s: seq<Member>, pair: nat) {
    NoOverlap(Of(s, pair))
  }

  /** Overlap is a matter of each pair by itself. */
  lemma {:induction false} OverlapByPair(s: seq<Member>)
    ensures NoOverlap(s) <==> forall pair: nat :: PairNoOverlap(s, pair)
  {
    if s != [] {
      var front, last := s[..|s| - 1], s[|s| - 1];
      assert s == front + [last];
      OverlapByPair(front);
      AppendOverlap(front, last);
      AppendOverlap(Of(front, last.pair), last);
      ApartFromOwn(last, front);
      OfAppend(front, last, last.pair);
      if NoOverlap(s) {
        forall pair: nat ensures PairNoOverlap(s, pair) {
          OfAppend(front, last, pair);
          assert PairNoOverlap(front, pair);
        }
      }
      if forall pair: nat :: PairNoOverlap(s, pair) {
        assert PairNoOverlap(s, last.pair);
        forall pair: nat ensures PairNoOverlap(front, pair) {
          OfAppend(front, last, pair);
          assert PairNoOverlap(s, pair);
        }
      }
    }
  }

  lemma ApartFromOwn(m: Member, s: seq<Member>)
    ensures ApartFromAll(m, s) <==> ApartFromAll(m, Of(s, m.pair))
  {
    var own := Of(s, m.pair);
    if ApartFromAll(m, s) {
      forall i | 0 <= i < |own| ensures Apart(m, own[i]) {
        OfMembers(s, m.pair, own[i]);
        var j :| 0 <= j < |s| && s[j] == own[i];
      }
    }
    if ApartFromAll(m, own) {
      forall i | 0 <= i < |s| && s[i].pair == m.pair ensures Apart(m, s[i]) {
        OfMembers(s, m.pair, s[i]);
        var j :| 0 <= j < |own| && own[j] == s[i];
      }
    }
  }

  lemma AppendOverlap(s: seq<Member>, m: Member)
    ensures NoOverlap(s + [m]) <==> NoOverlap(s) && ApartFromAll(m, s)
  {
    NoOverlapPairwise(s);
    NoOverlapPairwise(s + [m]);
    var more := s + [m];
    if NoOverlap(more) {
      forall i, j | 0 <= i < j < |s| && s[i].pair == s[j].pair ensures Apart(s[i], s[j]) {
        assert more[i] == s[i] && more[j] == s[j];
      }
      forall i | 0 <= i < |s| && s[i].pair == m.pair ensures Apart(m, s[i]) {
        assert more[i] == s[i] && more[|s|] == m;
      }
    }
  }

  // ---- the check ---------------------------------------------------

  /** The intervals of each pair, in the order of the members. */
  ghost predicate IsGrouping(windows: map<nat, seq<Member>>, s: seq<Member>) {
    && (forall pair :: pair in windows ==> windows[pair] == Of(s, pair))
    && (forall pair: nat :: pair !in windows ==> Of(s, pair) == [])
  }

  method Group(members: seq<Member>) returns (windows: map<nat, seq<Member>>)
    ensures IsGrouping(windows, members)
  {
    windows := map[];
    for i := 0 to |members|
      invariant IsGrouping(windows, members[..i])
    {
      var m := members[i];
      assert members[..i + 1][..i] == members[..i];
      var own := if m.pair in windows then windows[m.pair] else [];
      windows := windows[m.pair := own + [m]];
    }
    assert members[..|members|] == members;
  }

  /** Compares each interval with the one before it. */
  method CheckNeighbours(s: seq<Member>) returns (ok: bool)
    ensures ok <==> NeighboursApart(s)
  {
    var i := 1;
    while i < |s|
      invariant 1 <= i && forall j :: 1 <= j < i && j < |s| ==> Before(s[j - 1], s[j])
    {
      var previous := s[i - 1].ends;
      if previous.None? || previous.value > s[i].begins {
        assert !Before(s[i - 1], s[i]);
        return false;
      }
      i := i + 1;
    }
    ok := true;
  }

  lemma StartsTotal()
    ensures Sorting.TotalPreorder(StartsNoLater)
  {
  }

  lemma SortedOwn(s: seq<Member>, pair: nat)
    requires AllProper(s)
    ensures var own := Sorting.Sort(StartsNoLater, Of(s, pair));
            AllProper(own) && OfPair(own, pair) && Sorting.Sorted(StartsNoLater, own)
  {
    var own := Sorting.Sort(StartsNoLater, Of(s, pair));
    StartsTotal();
    Sorting.SortSorted(StartsNoLater, Of(s, pair));
    forall i | 0 <= i < |own| ensures Proper(own[i]) && own[i].pair == pair {
      assert own[i] in multiset(own);
      assert own[i] in Of(s, pair);
      OfMembers(s, pair, own[i]);
    }
  }

  /**
   Sorts the intervals of each pair by their beginnings and compares neighbours: finds out exactly
   whether any two overlap.
   */
  method AssertNoOverlap(members: seq<Member>) returns (ok: bool)
    requires AllProper(members)
    ensures ok <==> NoOverlap(members)
  {
    var windows := Group(members);
    var pending := windows.Keys;
    while pending != {}
      invariant pending <= windows.Keys
      invariant forall pair :: pair in windows.Keys - pending ==> PairNoOverlap(members, pair)
      decreases |pending|
    {
      var pair :| pair in pending;
      var spans := Sorting.Sort(StartsNoLater, windows[pair]);
      SortedOwn(members, pair);
      NeighboursExactly(spans, pair);
      SortKeepsOverlap(StartsNoLater, Of(members, pair));
      ok := CheckNeighbours(spans);
      if !ok {
        assert !PairNoOverlap(members, pair);
        OverlapByPair(members);
        return;
      }
      pending := pending - {pair};
    }
    forall pair: nat ensures PairNoOverlap(members, pair) {
      if pair !in windows { assert Of(members, pair) == []; }
    }
    OverlapByPair(members);
    ok := true;
  }

  // ---- the canonical document --------------------------------------

  /** Orders by the name of the pair, then by the text of the beginning. */
  predicate KeyLe(text: int -> int, a: Member, b: Member) {
    a.pair < b.pair || (a.pair == b.pair && text(a.begins) <= text(b.begins))
  }

  function ByKey(text: int -> int): (Member, Member) -> bool {
    (a, b) => KeyLe(text, a, b)
  }

  ghost predicate Faithful(text: int -> int) {
    forall s, t :: text(s) == text(t) ==> s == t
  }

  lemma ByKeyTotal(text: int -> int)
    ensures Sorting.TotalPreorder(ByKey(text))
  {
  }

  /** Side of the consumer: the document of a ledger is the sorted list of its members. */
  function CanonicalUniverse(text: int -> int, members: seq<Member>): Result<seq<Member>, UniverseError> {
    if !AllProper(members) then Err(EmptyInterval)
    else if !NoOverlap(members) then Err(Overlap)
    else Ok(Sorting.Sort(ByKey(text), members))
  }

  /** Refused for an interval that is none, or else for two of one pair that share an instant; otherwise sorted. */
  lemma CanonicalExactly(text: int -> int, members: seq<Member>)
    ensures CanonicalUniverse(text, members) == Err(EmptyInterval) <==>
              exists m :: m in members && m.ends.Some? && m.ends.value <= m.begins
    ensures CanonicalUniverse(text, members) == Err(Overlap) <==>
              && (forall m :: m in members && m.ends.Some? ==> m.begins < m.ends.value)
              && exists i, j, t :: ShareInstant(members, i, j, t)
    ensures CanonicalUniverse(text, members).Ok? || CanonicalUniverse(text, members).error in {EmptyInterval, Overlap}
    ensures CanonicalUniverse(text, members).Ok? ==>
              var d := CanonicalUniverse(text, members).value;
              && multiset(d) == multiset(members)
              && forall i, j :: 0 <= i < j < |d| ==>
                   d[i].pair < d[j].pair || (d[i].pair == d[j].pair && text(d[i].begins) <= text(d[j].begins))
  {
    if AllProper(members) {
      if NoOverlap(members) {
        NoOverlapPairwise(members);
        forall i, j, t ensures !ShareInstant(members, i, j, t) {
          if 0 <= i < j < |members| && members[i].pair == members[j].pair {
            ApartExactly(members[i], members[j]);
          }
        }
        ByKeyTotal(text);
        Sorting.SortSorted(ByKey(text), members);
        var d := CanonicalUniverse(text, members).value;
        forall i, j | 0 <= i < j < |d|
          ensures d[i].pair < d[j].pair || (d[i].pair == d[j].pair && text(d[i].begins) <= text(d[j].begins))
        {
          assert ByKey(text)(d[i], d[j]);
        }
      } else {
        var i, j := OverlapIsSomewhere(members);
        ApartExactly(members[i], members[j]);
        var t :| ActiveAt(members[i], t) && ActiveAt(members[j], t);
        assert ShareInstant(members, i, j, t);
      }
    }
  }

  /** Two intervals of one pair hold the instant. */
  predicate ShareInstant(members: seq<Member>, i: int, j: int, t: int) {
    && 0 <= i < j < |members| && members[i].pair == members[j].pair
    && members[i].begins <= t && (members[i].ends.Some? ==> t < members[i].ends.value)
    && members[j].begins <= t && (members[j].ends.Some? ==> t < members[j].ends.value)
  }

  lemma {:induction false} OverlapIsSomewhere(s: seq<Member>) returns (i: nat, j: nat)
    requires !NoOverlap(s)
    ensures i < j < |s| && s[i].pair == s[j].pair && !Apart(s[i], s[j])
  {
    if !ApartFromAll(s[0], s[1..]) {
      var k: nat :| k < |s[1..]| && s[1..][k].pair == s[0].pair && !Apart(s[0], s[1..][k]);
      i, j := 0, k + 1;
    } else {
      i, j := OverlapIsSomewhere(s[1..]);
      i, j := i + 1, j + 1;
    }
  }

  lemma NoTies(text: int -> int, s: seq<Member>)
    requires Faithful(text) && AllProper(s) && NoOverlap(s)
    ensures Sorting.Separates(ByKey(text), s)
    ensures forall i, j :: 0 <= i < j < |s| ==> !(s[i].pair == s[j].pair && s[i].begins == s[j].begins)
  {
    NoOverlapPairwise(s);
    forall x, y | x in s && y in s && KeyLe(text, x, y) && KeyLe(text, y, x) ensures x == y {
      var i :| 0 <= i < |s| && s[i] == x;
      var j :| 0 <= j < |s| && s[j] == y;
      assert i == j;
    }
  }

  lemma ReorderedOverlap(text: int -> int, a: seq<Member>, b: seq<Member>)
    requires Faithful(text) && AllProper(a) && NoOverlap(a) && multiset(a) == multiset(b)
    ensures NoOverlap(b) && Sorting.Sort(ByKey(text), a) == Sorting.Sort(ByKey(text), b)
  {
    ByKeyTotal(text);
    NoTies(text, a);
    Sorting.SortCanonical(ByKey(text), a, b);
    SortKeepsOverlap(ByKey(text), a);
    SortKeepsOverlap(ByKey(text), b);
  }

  lemma ReorderedProper(a: seq<Member>, b: seq<Member>)
    requires multiset(a) == multiset(b) && AllProper(a)
    ensures AllProper(b)
  {
    forall i | 0 <= i < |b| ensures Proper(b[i]) {
      assert b[i] in multiset(a);
      var j :| 0 <= j < |a| && a[j] == b[i];
    }
  }

  /** The document, or the refusal, does not depend on the order of the members. */
  lemma CanonicalIgnoresOrder(text: int -> int, a: seq<Member>, b: seq<Member>)
    requires Faithful(text) && multiset(a) == multiset(b)
    ensures CanonicalUniverse(text, a) == CanonicalUniverse(text, b)
  {
    if AllProper(a) {
      ReorderedProper(a, b);
      if NoOverlap(a) {
        ReorderedOverlap(text, a, b);
      } else if NoOverlap(b) {
        ReorderedOverlap(text, b, a);
      }
    } else if AllProper(b) {
      ReorderedProper(b, a);
    }
  }

  /** Side of the publisher: sorts, and leaves the checks to the validation. */
  function BuildDocument(text: int -> int, intervals: seq<Member>): seq<Member> {
    Sorting.Sort(ByKey(text), intervals)
  }

  predicate KeyLt(text: int -> int, a: Member, b: Member) {
    KeyLe(text, a, b) && !(a.pair == b.pair && text(a.begins) == text(b.begins))
  }

  predicate ValidDocument(text: int -> int, document: seq<Member>) {
    AllProper(document) && forall i :: 1 <= i < |document| ==> KeyLt(text, document[i - 1], document[i])
  }

  /** The member is the first that does not go on from a valid document. */
  predicate IsFirstFault(text: int -> int, document: seq<Member>, i: int) {
    0 <= i < |document| && ValidDocument(text, document[..i]) && !ValidDocument(text, document[..i + 1])
  }

  /** Why a member does not go on from the one before it. */
  predicate IsFault(text: int -> int, document: seq<Member>, i: int, fault: UniverseError) {
    && 0 <= i < |document|
    && var m := document[i];
       if m.ends.Some? && m.ends.value <= m.begins then fault == EmptyInterval
       else
         && i > 0
         && var p := document[i - 1];
            if p.pair == m.pair && text(p.begins) == text(m.begins) then fault == DuplicateKey
            else fault == Unordered && (p.pair > m.pair || (p.pair == m.pair && text(p.begins) > text(m.begins)))
  }

  method ValidateDocument(text: int -> int, document: seq<Member>) returns (objection: Option<UniverseError>)
    ensures objection.None? <==> ValidDocument(text, document)
    ensures objection.Some? ==>
              exists i :: IsFirstFault(text, document, i) && IsFault(text, document, i, objection.value)
  {
    var previous: Option<Member> := None;
    for i := 0 to |document|
      invariant previous == if i == 0 then None else Some(document[i - 1])
      invariant AllProper(document[..i]) && forall j :: 1 <= j < i ==> KeyLt(text, document[j - 1], document[j])
    {
      var m := document[i];
      assert document[..i + 1][i] == m && i > 0 ==> document[..i + 1][i - 1] == document[i - 1];
      if m.ends.Some? && m.ends.value <= m.begins {
        assert IsFirstFault(text, document, i) && IsFault(text, document, i, EmptyInterval);
        return Some(EmptyInterval);
      }
      if previous.Some? && !KeyLe(text, previous.value, m) {
        assert IsFirstFault(text, document, i) && IsFault(text, document, i, Unordered);
        return Some(Unordered);
      }
      if previous.Some? && m.pair == previous.value.pair && text(m.begins) == text(previous.value.begins) {
        assert IsFirstFault(text, document, i) && IsFault(text, document, i, DuplicateKey);
        return Some(DuplicateKey);
      }
      previous := Some(m);
    }
    assert document[..|document|] == document;
    objection := None;
  }

  /** What the consumer accepts, the publisher builds to the same document, and its validation accepts. */
  lemma BothSidesAgree(text: int -> int, members: seq<Member>)
    requires Faithful(text) && CanonicalUniverse(text, members).Ok?
    ensures CanonicalUniverse(text, members) == Ok(BuildDocument(text, members))
    ensures ValidDocument(text, BuildDocument(text, members))
  {
    var d := BuildDocument(text, members);
    ReorderedProper(members, d);
    ReorderedOverlap(text, members, d);
    NoTies(text, d);
    ByKeyTotal(text);
    Sorting.SortSorted(ByKey(text), members);
    forall i | 1 <= i < |d| ensures KeyLt(text, d[i - 1], d[i]) {
      assert ByKey(text)(d[i - 1], d[i]);
    }
  }

  // ---- who is in ---------------------------------------------------

  /** The consumer's view at an instant. */
  function LedgerAt(members: seq<Member>, t: int): set<nat> {
    set i | 0 <= i < |members| && ActiveAt(members[i], t) :: members[i].pair
  }

  /** The publisher's view at an instant. */
  function ArtifactAt(members: seq<Member>, t: int): set<nat> {
    set i | 0 <= i < |members| && members[i].begins <= t && (members[i].ends.None? || t < members[i].ends.value) ::
      members[i].pair
  }

  lemma ActiveStays(a: seq<Member>, b: seq<Member>, t: int, pair: nat)
    requires multiset(a) == multiset(b) && pair in LedgerAt(a, t)
    ensures pair in ArtifactAt(b, t) && pair in LedgerAt(b, t)
  {
    var i :| 0 <= i < |a| && ActiveAt(a[i], t) && a[i].pair == pair;
    assert a[i] in multiset(b);
    var j :| 0 <= j < |b| && b[j] == a[i];
  }

  /** From the document a ledger is published as, either implementation reads the ledger's universe at every instant. */
  lemma UniversesAgree(text: int -> int, members: seq<Member>, t: int)
    ensures LedgerAt(members, t) == ArtifactAt(BuildDocument(text, members), t)
    ensures LedgerAt(members, t) == LedgerAt(BuildDocument(text, members), t)
  {
    var d := BuildDocument(text, members);
    forall pair | pair in LedgerAt(members, t) ensures pair in ArtifactAt(d, t) && pair in LedgerAt(d, t) {
      ActiveStays(members, d, t, pair);
    }
    forall pair | pair in ArtifactAt(d, t) ensures pair in LedgerAt(d, t) {
      var i :| 0 <= i < |d| && d[i].begins <= t && (d[i].ends.None? || t < d[i].ends.value) && d[i].pair == pair;
      assert ActiveAt(d[i], t);
    }
    forall pair | pair in LedgerAt(d, t) ensures pair in LedgerAt(members, t) {
      ActiveStays(d, members, t, pair);
    }
  }
}
