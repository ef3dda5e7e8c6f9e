/**
 The canonical byte encoding of one row.

 Text and JSON values stand for their UTF-8 bytes (the JSON text already in
 canonical form), doubles for their binary64 bit patterns.
 */
module Encoding {
  import opened Wrappers

  type Byte = x: int | 0 <= x < 256
  type Bytes = seq<Byte>

  const TWO_32: int := 0x1_0000_0000
  const TWO_52: int := 0x10_0000_0000_0000
  const TWO_63: int := 0x8000_0000_0000_0000
  const TWO_64: int := 0x1_0000_0000_0000_0000
  const NAN_BITS: Bits64 := 0x7FF8_0000_0000_0000

  type Bits64 = b: int | 0 <= b < 0x1_0000_0000_0000_0000

  datatype LogicalType = TimestampTz | Double | Text | Jsonb | Unknown

  datatype Value =
    | Null
    | Instant(micros: int)
    | Float(bits: Bits64)
    | Utf8(payload: Bytes)
    | Json(payload: Bytes)

  type Row = seq<Value>

  datatype EncodeError = UnknownLogicalType | WrongColumnCount | OutOfRange | WrongType

  // ---- fixed-width integers --------------------------------------

  function Pow256(k: nat): (p: int)
    ensures p > 0
  {
    if k == 0 then 1 else 256 * Pow256(k - 1)
  }

  function BigEndian(n: nat, k: nat): (r: Bytes)
    ensures |r| == k
  {
    if k == 0 then [] else BigEndian(n / 256, k - 1) + [n % 256]
  }

  function FromBigEndian(b: Bytes): nat {
    if b == [] then 0 else 256 * FromBigEndian(b[..|b| - 1]) + b[|b| - 1]
  }

  lemma {:induction false} BigEndianRoundTrip(n: nat, k: nat)
    requires n < Pow256(k)
    ensures FromBigEndian(BigEndian(n, k)) == n
  {
    if k > 0 {
      BigEndianRoundTrip(n / 256, k - 1);
      assert BigEndian(n, k)[..k - 1] == BigEndian(n / 256, k - 1);
    }
  }

  lemma PowersOf256()
    ensures Pow256(4) == TWO_32 && Pow256(8) == TWO_64
  {
    assert Pow256(1) == 256;
    assert Pow256(2) == 0x1_0000;
    assert Pow256(4) == 256 * Pow256(3) == TWO_32;
    assert Pow256(6) == 256 * Pow256(5) == 0x1_0000_0000_0000;
    assert Pow256(8) == 256 * Pow256(7) == TWO_64;
  }

  // ---- fields ------------------------------------------------------

  predicate IsNaN(bits: Bits64) {
    (bits / TWO_52) % 2048 == 2047 && bits % TWO_52 != 0
  }

  /** Negative zero becomes zero and every NaN the one quiet NaN. */
  function NormalBits(bits: Bits64): Bits64 {
    if bits == TWO_63 then 0 else if IsNaN(bits) then NAN_BITS else bits
  }

  function Normal(v: Value): Value {
    if v.Float? then Float(NormalBits(v.bits)) else v
  }

  /** Sign, exponent and fraction of a binary64 number (section 3.4 of IEEE 754-2019). */
  predicate IsDouble(bits: Bits64, sign: nat, exponent: nat, fraction: nat) {
    && sign < 2 && exponent < 2048 && fraction < 0x10_0000_0000_0000
    && bits == 0x8000_0000_0000_0000 * sign + 0x10_0000_0000_0000 * exponent + fraction
  }

  ghost predicate IsZero(bits: Bits64) {
    exists sign: nat :: IsDouble(bits, sign, 0, 0)
  }

  ghost predicate IsNotANumber(bits: Bits64) {
    exists sign: nat, fraction: nat :: IsDouble(bits, sign, 2047, fraction) && fraction != 0
  }

  /** The same value, or zeros of either sign, or no numbers both. */
  ghost predicate SameField(v: Value, w: Value) {
    || v == w
    || (v.Float? && w.Float? && IsZero(v.bits) && IsZero(w.bits))
    || (v.Float? && w.Float? && IsNotANumber(v.bits) && IsNotANumber(w.bits))
  }

  lemma ZeroExactly(bits: Bits64)
    ensures IsZero(bits) <==> bits == 0 || bits == TWO_63
  {
    if sign: nat :| IsDouble(bits, sign, 0, 0) {
      assert sign == 0 || sign == 1;
    }
    if bits == 0 {
      assert IsDouble(bits, 0, 0, 0);
    } else if bits == TWO_63 {
      assert IsDouble(bits, 1, 0, 0);
    }
  }

  lemma NaNExactly(bits: Bits64)
    ensures IsNotANumber(bits) <==> IsNaN(bits)
  {
    var high, low := bits / TWO_52, bits % TWO_52;
    assert bits == TWO_52 * high + low && high < 4096;
    if IsNaN(bits) {
      assert high == 2048 * (high / 2048) + 2047;
      assert IsDouble(bits, high / 2048, 2047, low);
    }
    if sign: nat, fraction: nat :| IsDouble(bits, sign, 2047, fraction) && fraction != 0 {
      assert sign == 0 || sign == 1;
      assert high == 2048 * sign + 2047 && low == fraction;
    }
  }

  lemma NormalBitsExactly(a: Bits64, b: Bits64)
    ensures NormalBits(a) == NormalBits(b) <==>
              a == b || (a in {0, TWO_63} && b in {0, TWO_63}) || (IsNaN(a) && IsNaN(b))
  {
    assert NAN_BITS / TWO_52 == 2047 && NAN_BITS % TWO_52 == 0x8_0000_0000_0000;
    assert TWO_63 / TWO_52 == 2048 && TWO_63 % TWO_52 == 0;
  }

  /** Values have one normal form exactly if they are the same, both zero, or both no number. */
  lemma NormalExactly(v: Value, w: Value)
    ensures Normal(v) == Normal(w) <==> SameField(v, w)
  {
    if v.Float? && w.Float? {
      NormalBitsExactly(v.bits, w.bits);
      ZeroExactly(v.bits);
      ZeroExactly(w.bits);
      NaNExactly(v.bits);
      NaNExactly(w.bits);
    }
  }

  function Unsigned64(i: int): nat
    requires -TWO_63 <= i < TWO_63
  {
    if i >= 0 then i else i + TWO_64
  }

  function EncodeText(payload: Bytes): Result<Bytes, EncodeError> {
    if |payload| < TWO_32 then Ok(BigEndian(|payload|, 4) + payload) else Err(OutOfRange)
  }

  function FieldBody(v: Value, t: LogicalType): Result<Bytes, EncodeError>
    requires !v.Null?
  {
    match t
    case TimestampTz =>
      if !v.Instant? then Err(WrongType)
      else if -TWO_63 <= v.micros < TWO_63 then Ok(BigEndian(Unsigned64(v.micros), 8)) else Err(OutOfRange)
    case Double =>
      if !v.Float? then Err(WrongType)
      else Ok(BigEndian(NormalBits(v.bits), 8))
    case Text => if v.Utf8? then EncodeText(v.payload) else Err(WrongType)
    case Jsonb => if v.Json? then EncodeText(v.payload) else Err(WrongType)
    case Unknown => Err(UnknownLogicalType)
  }

  function CanonicalField(v: Value, t: LogicalType): Result<Bytes, EncodeError> {
    if v.Null? then Ok([0])
    else match FieldBody(v, t) case Ok(body) => Ok([1] + body) case Err(e) => Err(e)
  }

  predicate FieldEncodable(v: Value, t: LogicalType) {
    CanonicalField(v, t).Ok?
  }

  /** Which values a column takes: null, or its own type within the width of the code. */
  lemma EncodableExactly(v: Value, t: LogicalType)
    ensures FieldEncodable(v, t) <==>
              || v.Null?
              || (t.TimestampTz? && v.Instant? && -0x8000_0000_0000_0000 <= v.micros < 0x8000_0000_0000_0000)
              || (t.Double? && v.Float?)
              || (t.Text? && v.Utf8? && |v.payload| < 0x1_0000_0000)
              || (t.Jsonb? && v.Json? && |v.payload| < 0x1_0000_0000)
    ensures CanonicalField(v, t) == Err(UnknownLogicalType) <==> !v.Null? && t.Unknown?
    ensures CanonicalField(v, t) == Err(OutOfRange) <==>
              || (t.TimestampTz? && v.Instant? && !(-0x8000_0000_0000_0000 <= v.micros < 0x8000_0000_0000_0000))
              || (t.Text? && v.Utf8? && |v.payload| >= 0x1_0000_0000)
              || (t.Jsonb? && v.Json? && |v.payload| >= 0x1_0000_0000)
    ensures CanonicalField(v, t) != Err(WrongColumnCount)
  {
  }

  /** Normalising a value first changes nothing: the encoding sees only the normal form. */
  lemma FieldSeesNormalForm(v: Value, t: LogicalType)
    ensures CanonicalField(Normal(v), t) == CanonicalField(v, t)
    ensures Normal(Normal(v)) == Normal(v)
  {
    assert NAN_BITS / TWO_52 == 2047 && NAN_BITS % TWO_52 == 0x8_0000_0000_0000;
  }

  /** `p + x == q + y` with parts of equal length splits. */
  lemma SplitEqual<T>(p: seq<T>, x: seq<T>, q: seq<T>, y: seq<T>)
    requires p + x == q + y && |p| == |q|
    ensures p == q && x == y
  {
    assert p == (p + x)[..|p|] && q == (q + y)[..|q|];
    assert x == (p + x)[|p|..] && y == (q + y)[|q|..];
  }

  lemma FixedWidthSplits(a: nat, b: nat, k: nat, x: Bytes, y: Bytes)
    requires a < Pow256(k) && b < Pow256(k)
    requires BigEndian(a, k) + x == BigEndian(b, k) + y
    ensures a == b && x == y
  {
    SplitEqual(BigEndian(a, k), x, BigEndian(b, k), y);
    BigEndianRoundTrip(a, k);
    BigEndianRoundTrip(b, k);
  }

  lemma TextSplits(p: Bytes, q: Bytes, x: Bytes, y: Bytes)
    requires EncodeText(p).Ok? && EncodeText(q).Ok?
    requires EncodeText(p).value + x == EncodeText(q).value + y
    ensures p == q && x == y
  {
    PowersOf256();
    assert BigEndian(|p|, 4) + (p + x) == EncodeText(p).value + x;
    assert BigEndian(|q|, 4) + (q + y) == EncodeText(q).value + y;
    FixedWidthSplits(|p|, |q|, 4, p + x, q + y);
    SplitEqual(p, x, q, y);
  }

  lemma BodySplits(t: LogicalType, v: Value, w: Value, x: Bytes, y: Bytes)
    requires !v.Null? && !w.Null? && FieldBody(v, t).Ok? && FieldBody(w, t).Ok?
    requires FieldBody(v, t).value + x == FieldBody(w, t).value + y
    ensures Normal(v) == Normal(w) && x == y
  {
    PowersOf256();
    match t
    case TimestampTz => FixedWidthSplits(Unsigned64(v.micros), Unsigned64(w.micros), 8, x, y);
    case Double => FixedWidthSplits(NormalBits(v.bits), NormalBits(w.bits), 8, x, y);
    case Text => TextSplits(v.payload, w.payload, x, y);
    case Jsonb => TextSplits(v.payload, w.payload, x, y);
  }

  /** A field is its sentinel byte and a body, so equal streams have equal sentinels and equal bodies. */
  lemma TaggedSplits(tag: Byte, b: Bytes, x: Bytes, tag': Byte, c: Bytes, y: Bytes)
    requires ([tag] + b) + x == ([tag'] + c) + y
    ensures tag == tag' && b + x == c + y
  {
    assert ([tag] + b) + x == [tag] + (b + x);
    assert ([tag'] + c) + y == [tag'] + (c + y);
    SplitEqual([tag], b + x, [tag'], c + y);
  }

  /** Field codes are prefix-free: whatever follows, the field and the rest can be told apart. */
  lemma FieldSplits(t: LogicalType, v: Value, w: Value, x: Bytes, y: Bytes)
    requires FieldEncodable(v, t) && FieldEncodable(w, t)
    requires CanonicalField(v, t).value + x == CanonicalField(w, t).value + y
    ensures Normal(v) == Normal(w) && x == y
  {
    var tag, b := if v.Null? then 0 else 1, if v.Null? then [] else FieldBody(v, t).value;
    var tag', c := if w.Null? then 0 else 1, if w.Null? then [] else FieldBody(w, t).value;
    assert [tag] + b == CanonicalField(v, t).value && [tag'] + c == CanonicalField(w, t).value;
    TaggedSplits(tag, b, x, tag', c, y);
    if v.Null? {
      assert b + x == x && c + y == y;
    } else {
      BodySplits(t, v, w, x, y);
    }
  }

  // ---- rows --------------------------------------------------------

  function JoinFields(row: Row, projection: seq<LogicalType>): Result<Bytes, EncodeError>
    requires |row| == |projection|
  {
    if row == [] then Ok([])
    else match CanonicalField(row[0], projection[0])
      case Err(e) => Err(e)
      case Ok(field) =>
        match JoinFields(row[1..], projection[1..])
        case Err(e) => Err(e)
        case Ok(rest) => Ok(field + rest)
  }

  function CanonicalRow(row: Row, projection: seq<LogicalType>): Result<Bytes, EncodeError> {
    if |row| != |projection| then Err(WrongColumnCount) else JoinFields(row, projection)
  }

  /** A row is refused for its length, or else for the first field that is. */
  lemma {:induction false} RowRefusedExactly(row: Row, projection: seq<LogicalType>)
    ensures CanonicalRow(row, projection) == Err(WrongColumnCount) <==> |row| != |projection|
    ensures |row| == |projection| ==>
              forall i :: IsFirstRefused(row, projection, i) ==>
                CanonicalField(row[i], projection[i]).Err?
                && CanonicalRow(row, projection) == Err(CanonicalField(row[i], projection[i]).error)
    decreases |row|
  {
    if |row| == |projection| && row != [] {
      EncodableExactly(row[0], projection[0]);
      RowRefusedExactly(row[1..], projection[1..]);
      forall i | IsFirstRefused(row, projection, i)
        ensures CanonicalField(row[i], projection[i]).Err?
                && CanonicalRow(row, projection) == Err(CanonicalField(row[i], projection[i]).error)
      {
        if i > 0 {
          assert FieldEncodable(row[0], projection[0]);
          assert IsFirstRefused(row[1..], projection[1..], i - 1);
        }
      }
    }
  }

  predicate IsFirstRefused(row: Row, projection: seq<LogicalType>, i: int) {
    && |row| == |projection| && 0 <= i < |row| && !FieldEncodable(row[i], projection[i])
    && forall j :: 0 <= j < i ==> FieldEncodable(row[j], projection[j])
  }

  predicate RowEncodable(row: Row, projection: seq<LogicalType>) {
    CanonicalRow(row, projection).Ok?
  }

  function NormalRow(row: Row): (r: Row)
    ensures |r| == |row|
  {
    seq(|row|, i requires 0 <= i < |row| => Normal(row[i]))
  }

  lemma {:induction false} RowSeesNormalForm(row: Row, projection: seq<LogicalType>)
    ensures CanonicalRow(NormalRow(row), projection) == CanonicalRow(row, projection)
    decreases |row|
  {
    if |row| == |projection| && row != [] {
      FieldSeesNormalForm(row[0], projection[0]);
      assert NormalRow(row)[1..] == NormalRow(row[1..]);
      RowSeesNormalForm(row[1..], projection[1..]);
    }
  }

  lemma FirstField(row: Row, projection: seq<LogicalType>)
    requires RowEncodable(row, projection) && projection != []
    ensures FieldEncodable(row[0], projection[0]) && RowEncodable(row[1..], projection[1..])
    ensures CanonicalRow(row, projection).value
            == CanonicalField(row[0], projection[0]).value + CanonicalRow(row[1..], projection[1..]).value
    ensures NormalRow(row) == [Normal(row[0])] + NormalRow(row[1..])
  {
  }

  lemma Regroup(f: Bytes, p: Bytes, x: Bytes)
    ensures (f + p) + x == f + (p + x)
  {
  }

  /** Rows delimit themselves: two row codes followed by anything agree only if the normal rows do. */
  lemma {:induction false} RowSplits(projection: seq<LogicalType>, r: Row, s: Row, x: Bytes, y: Bytes)
    requires RowEncodable(r, projection) && RowEncodable(s, projection)
    requires CanonicalRow(r, projection).value + x == CanonicalRow(s, projection).value + y
    ensures NormalRow(r) == NormalRow(s) && x == y
    decreases |projection|
  {
    if projection == [] {
      assert [] + x == x && [] + y == y;
    } else {
      FirstField(r, projection);
      FirstField(s, projection);
      var p, q := CanonicalRow(r[1..], projection[1..]).value, CanonicalRow(s[1..], projection[1..]).value;
      Regroup(CanonicalField(r[0], projection[0]).value, p, x);
      Regroup(CanonicalField(s[0], projection[0]).value, q, y);
      FieldSplits(projection[0], r[0], s[0], p + x, q + y);
      RowSplits(projection[1..], r[1..], s[1..], x, y);
    }
  }

  lemma RowCodeNotEmpty(row: Row, projection: seq<LogicalType>)
    requires RowEncodable(row, projection) && projection != []
    ensures CanonicalRow(row, projection).value != []
  {
  }

  /** Two rows have one code exactly if they have one normal form. */
  lemma RowCodeExact(projection: seq<LogicalType>, r: Row, s: Row)
    requires RowEncodable(r, projection) && RowEncodable(s, projection)
    ensures CanonicalRow(r, projection) == CanonicalRow(s, projection) <==> NormalRow(r) == NormalRow(s)
  {
    RowSeesNormalForm(r, projection);
    RowSeesNormalForm(s, projection);
    if CanonicalRow(r, projection) == CanonicalRow(s, projection) {
      RowSplits(projection, r, s, [], []);
    }
  }
}
