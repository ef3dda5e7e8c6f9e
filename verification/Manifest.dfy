/**
 The partitions of dataset versions: how a version is composed from its
 baseline and what was produced, what identifies it, and how two versions differ.

 A logical partition key is its UTC day and the rank of its other dimensions;
 the canonical key text sorts by day first (years have four digits). The
 partition list of a manifest has unique keys and stands in key order, so it is
 the listing of a map from key to entry.
 */
module Manifest {
  import opened Reconcile
  import Encoding
  import Sorting

  datatype Key = Key(day: int, dim: nat)
  datatype Path = Path(key: Key, revision: nat)

  /** What reading a Parquet file yields; `writer` stands for all else that may differ between two files. */
  datatype FileBytes = FileBytes(rows: seq<Encoding.Row>, writer: nat)

  /** The collision-free hash of a file. */
  datatype FileHash = FileSha(bytes: FileBytes)

  datatype Entry = Entry(key: Key, path: Path, stats: Stats, sha: FileHash)

  type Partitions = map<Key, Entry>

  predicate KeyLe(a: Key, b: Key) {
    a.day < b.day || (a.day == b.day && a.dim <= b.dim)
  }

  /** The dictionary `{key(e): e for e in es}`. */
  function AsMap(es: seq<Entry>): Partitions {
    if es == [] then map[] else AsMap(es[..|es| - 1])[es[|es| - 1].key := es[|es| - 1]]
  }

  lemma {:induction false} AsMapMembers(es: seq<Entry>)
    ensures forall k :: k in AsMap(es) ==> exists i :: 0 <= i < |es| && es[i] == AsMap(es)[k] && es[i].key == k
    ensures forall i :: 0 <= i < |es| ==> es[i].key in AsMap(es)
  {
    if es != [] {
      var front := es[..|es| - 1];
      AsMapMembers(front);
      forall k | k in AsMap(es) ensures exists i :: 0 <= i < |es| && es[i] == AsMap(es)[k] && es[i].key == k {
        if k == es[|es| - 1].key {
          assert es[|es| - 1] == AsMap(es)[k];
        } else {
          var i :| 0 <= i < |front| && front[i] == AsMap(front)[k] && front[i].key == k;
          assert es[i] == AsMap(es)[k];
        }
      }
    }
  }

  // ---- composing a version -----------------------------------------

  /** Inherits the baseline; every produced partition replaces its key or joins. */
  method SynthesizePartitions(baseline: Partitions, produced: seq<Entry>) returns (merged: Partitions)
    ensures merged == baseline + AsMap(produced)
  {
    merged := baseline;
    for i := 0 to |produced|
      invariant merged == baseline + AsMap(produced[..i])
    {
      merged := merged[produced[i].key := produced[i]];
      assert produced[..i + 1][..i] == produced[..i];
    }
    assert produced[..|produced|] == produced;
  }

  // ---- listing a map in key order ----------------------------------

  predicate IsLeast(k: Key, keys: set<Key>) {
    k in keys && forall j :: j in keys ==> KeyLe(k, j)
  }

  lemma {:induction false} LeastExists(keys: set<Key>)
    requires keys != {}
    ensures exists k :: IsLeast(k, keys)
    decreases |keys|
  {
    var x :| x in keys;
    if keys == {x} {
      assert IsLeast(x, keys);
    } else {
      LeastExists(keys - {x});
      var y :| IsLeast(y, keys - {x});
      assert forall j :: j in keys ==> j == x || j in keys - {x};
      assert KeyLe(x, y) || KeyLe(y, x);
      assert if KeyLe(x, y) then IsLeast(x, keys) else IsLeast(y, keys);
    }
  }

  function Least(keys: set<Key>): (k: Key)
    requires keys != {}
    ensures IsLeast(k, keys)
  {
    LeastExists(keys);
    var k :| IsLeast(k, keys);
    k
  }

  function Ascending(keys: set<Key>): (r: seq<Key>)
    ensures |r| == |keys|
    ensures forall k :: k in r <==> k in keys
    decreases |keys|
  {
    if keys == {} then []
    else
      var k := Least(keys);
      assert keys == {k} + (keys - {k});
      [k] + Ascending(keys - {k})
  }

  lemma {:induction false} AscendingIsStrict(keys: set<Key>, i: nat, j: nat)
    requires i < j < |Ascending(keys)|
    ensures KeyLe(Ascending(keys)[i], Ascending(keys)[j]) && Ascending(keys)[i] != Ascending(keys)[j]
    decreases |keys|
  {
    var k := Least(keys);
    var rest := Ascending(keys - {k});
    assert Ascending(keys) == [k] + rest;
    if i == 0 {
      assert rest[j - 1] in keys - {k};
    } else {
      AscendingIsStrict(keys - {k}, i - 1, j - 1);
    }
  }

  // ---- what identifies a version -----------------------------------

  /** The collision-free hash of the canonical text of the listed partition digests. */
  datatype ValueHash = ValueSha(parts: seq<(Key, Stats)>)

  /** The semantic content of a version: key to row count, time bounds and row digest. */
  function StatsView(p: Partitions): (m: map<Key, Stats>)
    ensures m.Keys == p.Keys
  {
    map k | k in p :: p[k].stats
  }

  function Listed(view: map<Key, Stats>): seq<(Key, Stats)> {
    var keys := Ascending(view.Keys);
    seq(|keys|, i requires 0 <= i < |keys| => (keys[i], StatsAt(view, keys, i)))
  }

  function StatsAt(view: map<Key, Stats>, keys: seq<Key>, i: nat): Stats
    requires keys == Ascending(view.Keys) && i < |keys|
  {
    assert keys[i] in keys;
    view[keys[i]]
  }

  function ValueDigest(p: Partitions): ValueHash {
    ValueSha(Listed(StatsView(p)))
  }

  lemma ListedDetermines(a: map<Key, Stats>, b: map<Key, Stats>, k: Key)
    requires Listed(a) == Listed(b) && k in a
    ensures k in b && b[k] == a[k]
  {
    assert k in Ascending(a.Keys);
    var i :| 0 <= i < |Ascending(a.Keys)| && Ascending(a.Keys)[i] == k;
    assert Listed(a)[i] == (k, a[k]) == Listed(b)[i];
    assert Ascending(b.Keys)[i] in Ascending(b.Keys);
  }

  lemma ListedExact(a: map<Key, Stats>, b: map<Key, Stats>)
    ensures Listed(a) == Listed(b) <==> a == b
  {
    if Listed(a) == Listed(b) {
      forall k | k in a ensures k in b && b[k] == a[k] { ListedDetermines(a, b, k); }
      forall k | k in b ensures k in a { ListedDetermines(b, a, k); }
    }
  }

  /** The value digest is exact: it identifies the semantic content of a version, and nothing else of it. */
  lemma ValueDigestExact(a: Partitions, b: Partitions)
    ensures ValueDigest(a) == ValueDigest(b) <==> StatsView(a) == StatsView(b)
  {
    ListedExact(StatsView(a), StatsView(b));
  }

  lemma AscendingIsFresh(keys: set<Key>, i: nat)
    requires i < |Ascending(keys)|
    ensures Ascending(keys)[i] !in Ascending(keys)[..i]
  {
    forall j | 0 <= j < i ensures Ascending(keys)[j] != Ascending(keys)[i] {
      AscendingIsStrict(keys, j, i);
    }
  }

  // ---- how two versions differ -------------------------------------

  datatype Reason = Added | Changed | Removed
  datatype DiffItem = DiffItem(key: Key, reason: Reason)

  predicate ItemLe(a: DiffItem, b: DiffItem) {
    KeyLe(a.key, b.key)
  }

  predicate Differs(baseline: Partitions, current: Partitions, d: DiffItem) {
    match d.reason
    case Added => d.key in current && d.key !in baseline
    case Changed => d.key in current && d.key in baseline && current[d.key].stats != baseline[d.key].stats
    case Removed => d.key in baseline && d.key !in current
  }

  ghost predicate IsDiff(baseline: Partitions, current: Partitions, diff: seq<DiffItem>) {
    forall d :: d in diff <==> Differs(baseline, current, d)
  }

  predicate Distinct(items: seq<DiffItem>) {
    forall i, j :: 0 <= i < j < |items| ==> items[i] != items[j]
  }

  lemma DistinctAppend(items: seq<DiffItem>, d: DiffItem)
    requires Distinct(items) && d !in items
    ensures Distinct(items + [d])
  {
  }

  /** The first loop of the diff: new and changed keys of the current version. */
  method AddedOrChanged(baseline: Partitions, current: Partitions) returns (found: seq<DiffItem>)
    ensures forall d :: d in found <==> d.reason != Removed && Differs(baseline, current, d)
    ensures Distinct(found)
  {
    found := [];
    var keys := Ascending(current.Keys);
    for i := 0 to |keys|
      invariant forall d :: d in found <==> d.reason != Removed && d.key in keys[..i] && Differs(baseline, current, d)
      invariant Distinct(found)
    {
      var k := keys[i];
      assert k in keys && keys[..i + 1] == keys[..i] + [k];
      AscendingIsFresh(current.Keys, i);
      if k !in baseline {
        DistinctAppend(found, DiffItem(k, Added));
        found := found + [DiffItem(k, Added)];
      } else if current[k].stats != baseline[k].stats {
        DistinctAppend(found, DiffItem(k, Changed));
        found := found + [DiffItem(k, Changed)];
      }
    }
    assert keys[..|keys|] == keys && forall k :: k in keys <==> k in current;
  }

  /** The second loop: keys of the baseline that are gone. */
  method RemovedKeys(baseline: Partitions, current: Partitions) returns (found: seq<DiffItem>)
    ensures forall d :: d in found <==> d.reason == Removed && Differs(baseline, current, d)
    ensures Distinct(found)
  {
    found := [];
    var keys := Ascending(baseline.Keys);
    for i := 0 to |keys|
      invariant forall d :: d in found <==> d.reason == Removed && d.key in keys[..i] && Differs(baseline, current, d)
      invariant Distinct(found)
    {
      var k := keys[i];
      assert k in keys && keys[..i + 1] == keys[..i] + [k];
      AscendingIsFresh(baseline.Keys, i);
      if k !in current {
        DistinctAppend(found, DiffItem(k, Removed));
        found := found + [DiffItem(k, Removed)];
      }
    }
    assert keys[..|keys|] == keys && forall k :: k in keys <==> k in baseline;
  }

  ghost predicate EachOnce(baseline: Partitions, current: Partitions, diff: seq<DiffItem>) {
    forall d :: multiset(diff)[d] == if Differs(baseline, current, d) then 1 else 0
  }

  lemma TogetherEachOnce(baseline: Partitions, current: Partitions, news: seq<DiffItem>, gone: seq<DiffItem>)
    requires Distinct(news) && forall d :: d in news <==> d.reason != Removed && Differs(baseline, current, d)
    requires Distinct(gone) && forall d :: d in gone <==> d.reason == Removed && Differs(baseline, current, d)
    ensures EachOnce(baseline, current, news + gone)
  {
    forall d ensures multiset(news + gone)[d] == if Differs(baseline, current, d) then 1 else 0 {
      DistinctCount(news, d);
      DistinctCount(gone, d);
    }
  }

  predicate InKeyOrder(diff: seq<DiffItem>) {
    forall i, j :: 0 <= i < j < |diff| ==> KeyLe(diff[i].key, diff[j].key)
  }

  lemma SortedInKeyOrder(items: seq<DiffItem>)
    ensures InKeyOrder(Sorting.Sort(ItemLe, items))
  {
    Sorting.SortSorted(ItemLe, items);
    var diff := Sorting.Sort(ItemLe, items);
    forall i, j | 0 <= i < j < |diff| ensures KeyLe(diff[i].key, diff[j].key) {
      assert ItemLe(diff[i], diff[j]);
    }
  }

  /** Lists exactly the keys whose semantic content differs, each once, in key order and with the reason. */
  method PartitionDiff(baseline: Partitions, current: Partitions) returns (diff: seq<DiffItem>)
    ensures IsDiff(baseline, current, diff) && EachOnce(baseline, current, diff) && InKeyOrder(diff)
  {
    var news := AddedOrChanged(baseline, current);
    var gone := RemovedKeys(baseline, current);
    TogetherEachOnce(baseline, current, news, gone);
    SortedInKeyOrder(news + gone);
    diff := Sorting.Sort(ItemLe, news + gone);
    DiffLists(baseline, current, diff);
  }

  lemma {:induction false} DistinctCount(items: seq<DiffItem>, d: DiffItem)
    requires Distinct(items)
    ensures multiset(items)[d] == if d in items then 1 else 0
  {
    if items != [] {
      DistinctCount(items[1..], d);
      assert items == [items[0]] + items[1..];
    }
  }

  /** A list of the differences, in whatever order. */
  lemma DiffLists(baseline: Partitions, current: Partitions, diff: seq<DiffItem>)
    requires EachOnce(baseline, current, diff)
    ensures IsDiff(baseline, current, diff)
  {
    forall d ensures d in diff <==> Differs(baseline, current, d) {
      Sorting.MemberOfMultiset(d, diff);
    }
  }

  /** The baseline with every difference carried out, taking new content from `current`. */
  ghost function Patched(baseline: Partitions, current: Partitions, diff: seq<DiffItem>): map<Key, Stats> {
    map k |
      && k in baseline.Keys + current.Keys && DiffItem(k, Removed) !in diff
      && (k in baseline || DiffItem(k, Added) in diff) ::
      if k in current && (k !in baseline || DiffItem(k, Changed) in diff) then current[k].stats else baseline[k].stats
  }

  lemma DiffEmptyExact(b: Partitions, c: Partitions, diff: seq<DiffItem>)
    requires IsDiff(b, c, diff)
    ensures diff == [] <==> StatsView(b) == StatsView(c)
  {
    if diff == [] {
      forall k ensures k in b <==> k in c {
        assert DiffItem(k, Added) !in diff && DiffItem(k, Removed) !in diff;
      }
      forall k | k in b ensures b[k].stats == c[k].stats {
        assert DiffItem(k, Changed) !in diff;
      }
    } else {
      var d := diff[0];
      assert d in diff;
      assert d.key in StatsView(b) || d.key in StatsView(c);
    }
  }

  lemma DiffPatches(b: Partitions, c: Partitions, diff: seq<DiffItem>)
    requires IsDiff(b, c, diff)
    ensures Patched(b, c, diff) == StatsView(c)
  {
    forall k ensures k in Patched(b, c, diff) <==> k in c {
      assert DiffItem(k, Removed) in diff <==> Differs(b, c, DiffItem(k, Removed));
      assert DiffItem(k, Added) in diff <==> Differs(b, c, DiffItem(k, Added));
    }
    forall k | k in c ensures Patched(b, c, diff)[k] == c[k].stats {
      assert DiffItem(k, Changed) in diff <==> Differs(b, c, DiffItem(k, Changed));
    }
  }

  lemma DiffNamesOneReason(b: Partitions, c: Partitions, diff: seq<DiffItem>, d: DiffItem, e: DiffItem)
    requires IsDiff(b, c, diff) && d in diff && e in diff && d.key == e.key
    ensures d == e
  {
    assert Differs(b, c, d) && Differs(b, c, e);
  }

  /**
   The diff agrees with identity: it is empty exactly when the value digest is
   unchanged, no key has two reasons, and carrying it out on the baseline gives
   the current version.
   */
  lemma DiffAgreesWithIdentity(baseline: Partitions, current: Partitions, diff: seq<DiffItem>)
    requires IsDiff(baseline, current, diff)
    ensures diff == [] <==> ValueDigest(baseline) == ValueDigest(current)
    ensures forall d, e :: d in diff && e in diff && d.key == e.key ==> d == e
    ensures Patched(baseline, current, diff) == StatsView(current)
  {
    ValueDigestExact(baseline, current);
    DiffEmptyExact(baseline, current, diff);
    forall d, e | d in diff && e in diff && d.key == e.key ensures d == e {
      DiffNamesOneReason(baseline, current, diff, d, e);
    }
    DiffPatches(baseline, current, diff);
  }
}
