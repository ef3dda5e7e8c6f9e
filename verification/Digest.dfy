/**
 The order-free row digest: canonical row codes, sorted, fed to one SHA-256.
 The hash is the constructor `Sha256` of its input, so it is injective.
 */
module Digest {
  import opened Wrappers
  import opened Encoding
  import Sorting

  datatype Hash = Sha256(material: Bytes)

  // ---- lexicographic order of byte strings -------------------------

  predicate LexLe(a: Bytes, b: Bytes) {
    a == [] || (b != [] && (a[0] < b[0] || (a[0] == b[0] && LexLe(a[1..], b[1..]))))
  }

  lemma {:induction false} LexTotal(a: Bytes, b: Bytes)
    ensures LexLe(a, b) || LexLe(b, a)
  {
    if a != [] && b != [] && a[0] == b[0] {
      LexTotal(a[1..], b[1..]);
    }
  }

  lemma {:induction false} LexAntisymmetric(a: Bytes, b: Bytes)
    requires LexLe(a, b) && LexLe(b, a)
    ensures a == b
  {
    if a != [] {
      LexAntisymmetric(a[1..], b[1..]);
      assert a == [a[0]] + a[1..] && b == [b[0]] + b[1..];
    }
  }

  lemma {:induction false} LexTransitive(a: Bytes, b: Bytes, c: Bytes)
    requires LexLe(a, b) && LexLe(b, c)
    ensures LexLe(a, c)
  {
    if a != [] && a[0] == b[0] && b[0] == c[0] {
      LexTransitive(a[1..], b[1..], c[1..]);
    }
  }

  lemma LexIsAnOrder(codes: seq<Bytes>)
    ensures Sorting.TotalPreorder(LexLe) && Sorting.Separates(LexLe, codes)
  {
    forall a: Bytes, b: Bytes ensures LexLe(a, b) || LexLe(b, a) { LexTotal(a, b); }
    forall a: Bytes, b: Bytes, c: Bytes | LexLe(a, b) && LexLe(b, c) ensures LexLe(a, c) { LexTransitive(a, b, c); }
    forall a, b | a in codes && b in codes && LexLe(a, b) && LexLe(b, a) ensures a == b { LexAntisymmetric(a, b); }
  }

  // ---- the digest --------------------------------------------------

  function RowCodes(rows: seq<Row>, projection: seq<LogicalType>): (r: Result<seq<Bytes>, EncodeError>)
    ensures r.Ok? ==> |r.value| == |rows|
  {
    if rows == [] then Ok([])
    else match CanonicalRow(rows[0], projection)
      case Err(e) => Err(e)
      case Ok(code) =>
        match RowCodes(rows[1..], projection)
        case Err(e) => Err(e)
        case Ok(rest) => Ok([code] + rest)
  }

  function Concat(chunks: seq<Bytes>): Bytes {
    if chunks == [] then [] else chunks[0] + Concat(chunks[1..])
  }

  function DigestOf(rows: seq<Row>, projection: seq<LogicalType>): Result<Hash, EncodeError> {
    match RowCodes(rows, projection)
    case Err(e) => Err(e)
    case Ok(codes) => Ok(Sha256(Concat(Sorting.Sort(LexLe, codes))))
  }

  predicate Encodable(rows: seq<Row>, projection: seq<LogicalType>) {
    forall i :: 0 <= i < |rows| ==> RowEncodable(rows[i], projection)
  }

  function NormalRows(rows: seq<Row>): (r: seq<Row>)
    ensures |r| == |rows|
  {
    seq(|rows|, i requires 0 <= i < |rows| => NormalRow(rows[i]))
  }

  lemma {:induction false} RowCodesAt(rows: seq<Row>, projection: seq<LogicalType>)
    ensures Encodable(rows, projection) <==> RowCodes(rows, projection).Ok?
    ensures Encodable(rows, projection) ==>
              forall i :: 0 <= i < |rows| ==>
                CanonicalRow(rows[i], projection) == Ok(RowCodes(rows, projection).value[i])
  {
    if rows != [] {
      RowCodesAt(rows[1..], projection);
      assert Encodable(rows, projection) <==> RowEncodable(rows[0], projection) && Encodable(rows[1..], projection);
    }
  }

  lemma {:induction false} ConcatAppend(chunks: seq<Bytes>, last: Bytes)
    ensures Concat(chunks + [last]) == Concat(chunks) + last
  {
    if chunks == [] {
      assert chunks + [last] == [last];
      assert Concat([last]) == last + Concat([]) == last;
    } else {
      assert (chunks + [last])[1..] == chunks[1..] + [last];
      ConcatAppend(chunks[1..], last);
      assert chunks[0] + (Concat(chunks[1..]) + last) == Concat(chunks) + last;
    }
  }

  /** Feeds the hasher chunk by chunk. */
  method Feed(chunks: seq<Bytes>) returns (fed: Bytes)
    ensures fed == Concat(chunks)
  {
    fed := [];
    for k := 0 to |chunks|
      invariant fed == Concat(chunks[..k])
    {
      fed := fed + chunks[k];
      ConcatAppend(chunks[..k], chunks[k]);
      assert chunks[..k + 1] == chunks[..k] + [chunks[k]];
    }
    assert chunks[..|chunks|] == chunks;
  }

  /** Encodes every row, sorts the codes and feeds them to the hasher. */
  method RowDigest(rows: seq<Row>, projection: seq<LogicalType>) returns (r: Result<Hash, EncodeError>)
    ensures r == DigestOf(rows, projection)
  {
    var codes := RowCodes(rows, projection);
    if codes.Err? {
      return Err(codes.error);
    }
    var fed := Feed(Sorting.Sort(LexLe, codes.value));
    return Ok(Sha256(fed));
  }

  // ---- the stream determines the codes -----------------------------

  ghost predicate IsRowCode(code: Bytes, projection: seq<LogicalType>) {
    exists row :: CanonicalRow(row, projection) == Ok(code)
  }

  ghost predicate AllRowCodes(codes: seq<Bytes>, projection: seq<LogicalType>) {
    forall i :: 0 <= i < |codes| ==> IsRowCode(codes[i], projection)
  }

  lemma ChunkSplits(projection: seq<LogicalType>, c: Bytes, d: Bytes, x: Bytes, y: Bytes)
    requires IsRowCode(c, projection) && IsRowCode(d, projection) && c + x == d + y
    ensures c == d && x == y
  {
    var r :| CanonicalRow(r, projection) == Ok(c);
    var s :| CanonicalRow(s, projection) == Ok(d);
    RowSplits(projection, r, s, x, y);
    RowCodeExact(projection, r, s);
  }

  lemma {:induction false} ConcatInjective(projection: seq<LogicalType>, a: seq<Bytes>, b: seq<Bytes>)
    requires projection != []
    requires AllRowCodes(a, projection) && AllRowCodes(b, projection)
    requires Concat(a) == Concat(b)
    ensures a == b
  {
    if a != [] && b != [] {
      ChunkSplits(projection, a[0], b[0], Concat(a[1..]), Concat(b[1..]));
      ConcatInjective(projection, a[1..], b[1..]);
      assert a == [a[0]] + a[1..] && b == [b[0]] + b[1..];
    } else if a != [] || b != [] {
      var c := if a != [] then a[0] else b[0];
      assert IsRowCode(c, projection);
      var row :| CanonicalRow(row, projection) == Ok(c);
      RowCodeNotEmpty(row, projection);
    }
  }

  lemma CountOneMore<T>(x: T, s: seq<T>, y: T)
    ensures multiset([x] + s)[y] == multiset(s)[y] + if x == y then 1 else 0
  {
    assert multiset([x] + s) == multiset{x} + multiset(s);
  }

  lemma FirstCode(rows: seq<Row>, projection: seq<LogicalType>)
    requires rows != [] && Encodable(rows, projection) && RowCodes(rows, projection).Ok?
    ensures RowEncodable(rows[0], projection) && Encodable(rows[1..], projection) && RowCodes(rows[1..], projection).Ok?
    ensures RowCodes(rows, projection).value
            == [CanonicalRow(rows[0], projection).value] + RowCodes(rows[1..], projection).value
    ensures NormalRows(rows) == [NormalRow(rows[0])] + NormalRows(rows[1..])
  {
  }

  /** A row occurs, up to normal form, as often among the rows as its code among the codes. */
  lemma {:induction false} CodeMultiplicity(rows: seq<Row>, projection: seq<LogicalType>, row: Row)
    requires Encodable(rows, projection) && RowEncodable(row, projection) && RowCodes(rows, projection).Ok?
    ensures multiset(RowCodes(rows, projection).value)[CanonicalRow(row, projection).value]
         == multiset(NormalRows(rows))[NormalRow(row)]
  {
    if rows != [] {
      var tail := rows[1..];
      FirstCode(rows, projection);
      CodeMultiplicity(tail, projection, row);
      RowCodeExact(projection, rows[0], row);
      var code, codes := CanonicalRow(rows[0], projection).value, RowCodes(tail, projection).value;
      CountOneMore(code, codes, CanonicalRow(row, projection).value);
      CountOneMore(NormalRow(rows[0]), NormalRows(tail), NormalRow(row));
    }
  }

  lemma CodesDetermineRows(a: seq<Row>, b: seq<Row>, projection: seq<LogicalType>, n: Row)
    requires Encodable(a, projection) && Encodable(b, projection)
    requires RowCodes(a, projection).Ok? && RowCodes(b, projection).Ok?
    requires multiset(RowCodes(a, projection).value) == multiset(RowCodes(b, projection).value)
    requires n in NormalRows(a)
    ensures multiset(NormalRows(a))[n] == multiset(NormalRows(b))[n]
  {
    var i :| 0 <= i < |a| && NormalRows(a)[i] == n;
    CodeMultiplicity(a, projection, a[i]);
    CodeMultiplicity(b, projection, a[i]);
  }

  lemma RowsDetermineCodes(a: seq<Row>, b: seq<Row>, projection: seq<LogicalType>, c: Bytes)
    requires Encodable(a, projection) && Encodable(b, projection)
    requires RowCodes(a, projection).Ok? && RowCodes(b, projection).Ok?
    requires multiset(NormalRows(a)) == multiset(NormalRows(b))
    requires c in RowCodes(a, projection).value
    ensures multiset(RowCodes(a, projection).value)[c] == multiset(RowCodes(b, projection).value)[c]
  {
    RowCodesAt(a, projection);
    var i :| 0 <= i < |a| && RowCodes(a, projection).value[i] == c;
    CodeMultiplicity(a, projection, a[i]);
    CodeMultiplicity(b, projection, a[i]);
  }

  lemma SameMultiset<T>(a: seq<T>, b: seq<T>)
    requires forall x :: x in a || x in b ==> multiset(a)[x] == multiset(b)[x]
    ensures multiset(a) == multiset(b)
  {
    forall x ensures multiset(a)[x] == multiset(b)[x] {
      if x in multiset(a) || x in multiset(b) {
        assert x in a || x in b;
      }
    }
  }

  lemma CodesExact(a: seq<Row>, b: seq<Row>, projection: seq<LogicalType>)
    requires Encodable(a, projection) && Encodable(b, projection)
    requires RowCodes(a, projection).Ok? && RowCodes(b, projection).Ok?
    ensures multiset(RowCodes(a, projection).value) == multiset(RowCodes(b, projection).value)
       <==> multiset(NormalRows(a)) == multiset(NormalRows(b))
  {
    var ca, cb := RowCodes(a, projection).value, RowCodes(b, projection).value;
    if multiset(ca) == multiset(cb) {
      forall n | n in NormalRows(a) { CodesDetermineRows(a, b, projection, n); }
      forall n | n in NormalRows(b) { CodesDetermineRows(b, a, projection, n); }
      SameMultiset(NormalRows(a), NormalRows(b));
    }
    if multiset(NormalRows(a)) == multiset(NormalRows(b)) {
      forall c | c in ca { RowsDetermineCodes(a, b, projection, c); }
      forall c | c in cb { RowsDetermineCodes(b, a, projection, c); }
      SameMultiset(ca, cb);
    }
  }

  lemma SortedCodesAreRowCodes(rows: seq<Row>, projection: seq<LogicalType>)
    requires Encodable(rows, projection) && RowCodes(rows, projection).Ok?
    ensures AllRowCodes(Sorting.Sort(LexLe, RowCodes(rows, projection).value), projection)
  {
    RowCodesAt(rows, projection);
    var codes := RowCodes(rows, projection).value;
    var sorted := Sorting.Sort(LexLe, codes);
    forall i | 0 <= i < |sorted| ensures IsRowCode(sorted[i], projection) {
      var j := SortedFrom(codes, i);
      assert CanonicalRow(rows[j], projection) == Ok(sorted[i]);
    }
  }

  lemma SortedFrom(codes: seq<Bytes>, i: nat) returns (j: nat)
    requires i < |Sorting.Sort(LexLe, codes)|
    ensures j < |codes| && codes[j] == Sorting.Sort(LexLe, codes)[i]
  {
    assert Sorting.Sort(LexLe, codes)[i] in multiset(codes);
    j :| 0 <= j < |codes| && codes[j] == Sorting.Sort(LexLe, codes)[i];
  }

  /**
   The digest is exact: over a non-empty projection two row lists have one
   digest if and only if they hold the same normal rows equally often.
   */
  lemma DigestExact(a: seq<Row>, b: seq<Row>, projection: seq<LogicalType>)
    requires projection != [] && Encodable(a, projection) && Encodable(b, projection)
    ensures DigestOf(a, projection).Ok? && DigestOf(b, projection).Ok?
    ensures DigestOf(a, projection) == DigestOf(b, projection) <==> multiset(NormalRows(a)) == multiset(NormalRows(b))
  {
    RowCodesAt(a, projection);
    RowCodesAt(b, projection);
    CodesExact(a, b, projection);
    var ca, cb := RowCodes(a, projection).value, RowCodes(b, projection).value;
    var sa, sb := Sorting.Sort(LexLe, ca), Sorting.Sort(LexLe, cb);
    LexIsAnOrder(ca);
    if multiset(ca) == multiset(cb) {
      Sorting.SortCanonical(LexLe, ca, cb);
    }
    if Concat(sa) == Concat(sb) {
      SortedCodesAreRowCodes(a, projection);
      SortedCodesAreRowCodes(b, projection);
      ConcatInjective(projection, sa, sb);
      assert multiset(ca) == multiset(sa) == multiset(sb) == multiset(cb);
    }
  }

  /** Without a projected column the digest says nothing: every list of empty rows has the same one. */
  lemma {:induction false} EmptyProjectionCollapses(rows: seq<Row>)
    requires Encodable(rows, [])
    ensures DigestOf(rows, []) == Ok(Sha256([]))
  {
    RowCodesAt(rows, []);
    var codes := RowCodes(rows, []).value;
    var sorted := Sorting.Sort(LexLe, codes);
    forall i | 0 <= i < |sorted| ensures sorted[i] == [] {
      var j := SortedFrom(codes, i);
    }
    ConcatOfEmpties(sorted);
  }

  lemma {:induction false} ConcatOfEmpties(chunks: seq<Bytes>)
    requires forall i :: 0 <= i < |chunks| ==> chunks[i] == []
    ensures Concat(chunks) == []
  {
    if chunks != [] {
      ConcatOfEmpties(chunks[1..]);
    }
  }
}
