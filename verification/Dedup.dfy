/**
 Duplicate detection by correlation, in exact arithmetic. A correlation is
 carried by its square, which orders absolute values and needs no root.
 */
module Dedup {
  import opened Wrappers

  type Series = seq<real>

  // ---- scalars -----------------------------------------------------

  /** The product, under a name: equal factors then make equal products without any arithmetic. */
  function Mul(x: real, y: real): real {
    x * y
  }

  lemma Square(x: real)
    ensures Mul(x, x) >= 0.0 && (Mul(x, x) == 0.0 ==> x == 0.0)
  {
    if x > 0.0 {
      PositiveProduct(x, x);
    } else if x < 0.0 {
      PositiveProduct(-x, -x);
      assert Mul(-x, -x) == Mul(x, x);
    }
  }

  lemma Commutes(x: real, y: real)
    ensures Mul(x, y) == Mul(y, x)
  {
  }

  lemma PositiveProduct(x: real, y: real)
    requires x > 0.0 && y > 0.0
    ensures Mul(x, y) > 0.0
  {
  }

  lemma PositiveFactor(b: real, x: real)
    requires b > 0.0 && Mul(b, x) >= 0.0
    ensures x >= 0.0
  {
  }

  lemma Quotient(x: real, y: real)
    requires y > 0.0
    ensures x <= y <==> x / y <= 1.0
    ensures x == y <==> x / y == 1.0
    ensures x >= 0.0 ==> x / y >= 0.0
  {
    var q := x / y;
    assert q * y == x;
    if q == 1.0 { assert q * y == y; }
  }

  lemma QuadraticOfSquare(a: real, x: real, b: real, y: real)
    ensures Mul(Mul(a, x) + Mul(b, y), Mul(a, x) + Mul(b, y)) == Quadratic(a, b, Mul(x, x), Mul(x, y), Mul(y, y))
  {
    assert (a * x) * (a * x) == a * a * (x * x);
    assert (a * x) * (b * y) == a * b * (x * y);
    assert (b * y) * (b * y) == b * b * (y * y);
  }

  lemma QuadraticIsLinear(a: real, b: real, uu: real, uv: real, vv: real, xx: real, xy: real, yy: real)
    ensures Quadratic(a, b, uu, uv, vv) + Quadratic(a, b, xx, xy, yy) == Quadratic(a, b, uu + xx, uv + xy, vv + yy)
  {
    assert a * a * (uu + xx) == a * a * uu + a * a * xx;
    assert a * b * (uv + xy) == a * b * uv + a * b * xy;
    assert b * b * (vv + yy) == b * b * vv + b * b * yy;
  }

  function Quadratic(a: real, b: real, uu: real, uv: real, vv: real): real {
    a * a * uu + 2.0 * a * b * uv + b * b * vv
  }

  function Discriminant(uu: real, uv: real, vv: real): real {
    uu * vv - uv * uv
  }

  lemma ResidualTerms(uu: real, uv: real, vv: real)
    ensures Quadratic(vv, -uv, uu, uv, vv) == Mul(vv, Discriminant(uu, uv, vv))
  {
    assert vv * vv * uu == vv * (uu * vv);
    assert vv * -uv * uv == -(vv * (uv * uv));
    assert -uv * -uv * vv == vv * (uv * uv);
  }

  // ---- sums --------------------------------------------------------

  function Sum(s: Series): real {
    if s == [] then 0.0 else Sum(s[..|s| - 1]) + s[|s| - 1]
  }

  function Dot(u: Series, v: Series): real
    requires |u| == |v|
  {
    if u == [] then 0.0 else Dot(u[..|u| - 1], v[..|u| - 1]) + Mul(u[|u| - 1], v[|u| - 1])
  }

  /** a·u + b·v */
  function Combined(a: real, u: Series, b: real, v: Series): (w: Series)
    requires |u| == |v|
    ensures |w| == |u|
  {
    if u == [] then []
    else Combined(a, u[..|u| - 1], b, v[..|u| - 1]) + [Mul(a, u[|u| - 1]) + Mul(b, v[|u| - 1])]
  }

  lemma {:induction false} CombinedAt(a: real, u: Series, b: real, v: Series, i: nat)
    requires |u| == |v| && i < |u|
    ensures Combined(a, u, b, v)[i] == Mul(a, u[i]) + Mul(b, v[i])
  {
    if i < |u| - 1 {
      CombinedAt(a, u[..|u| - 1], b, v[..|v| - 1], i);
    }
  }

  lemma {:induction false} DotCommutes(u: Series, v: Series)
    requires |u| == |v|
    ensures Dot(u, v) == Dot(v, u)
  {
    if u != [] {
      DotCommutes(u[..|u| - 1], v[..|u| - 1]);
      Commutes(u[|u| - 1], v[|u| - 1]);
    }
  }

  lemma {:induction false} DotOfSelf(u: Series)
    ensures Dot(u, u) >= 0.0
    ensures Dot(u, u) == 0.0 ==> forall i :: 0 <= i < |u| ==> u[i] == 0.0
  {
    if u != [] {
      var front, x := u[..|u| - 1], u[|u| - 1];
      DotOfSelf(front);
      Square(x);
      if Dot(u, u) == 0.0 {
        forall i | 0 <= i < |u| ensures u[i] == 0.0 {
          if i < |front| { assert u[i] == front[i]; }
        }
      }
    }
  }

  lemma {:induction false} DotOfCombined(a: real, u: Series, b: real, v: Series, w: Series)
    requires |u| == |v| && w == Combined(a, u, b, v)
    ensures Dot(w, w) == Quadratic(a, b, Dot(u, u), Dot(u, v), Dot(v, v))
  {
    if u != [] {
      var n := |u| - 1;
      DotOfCombined(a, u[..n], b, v[..n], w[..n]);
      QuadraticOfSquare(a, u[n], b, v[n]);
      QuadraticIsLinear(a, b, Dot(u[..n], u[..n]), Dot(u[..n], v[..n]), Dot(v[..n], v[..n]),
                        Mul(u[n], u[n]), Mul(u[n], v[n]), Mul(v[n], v[n]));
    }
  }

  lemma {:induction false} DotWithZero(u: Series, v: Series)
    requires |u| == |v| && forall i :: 0 <= i < |v| ==> v[i] == 0.0
    ensures Dot(u, v) == 0.0
  {
    if u != [] {
      DotWithZero(u[..|u| - 1], v[..|v| - 1]);
    }
  }

  /** (v·v) u - (u·v) v, which is orthogonal to v. */
  function Residual(u: Series, v: Series): (w: Series)
    requires |u| == |v|
    ensures |w| == |u|
  {
    Combined(Dot(v, v), u, -Dot(u, v), v)
  }

  lemma ResidualSquared(u: Series, v: Series)
    requires |u| == |v|
    ensures Dot(Residual(u, v), Residual(u, v)) == Mul(Dot(v, v), Discriminant(Dot(u, u), Dot(u, v), Dot(v, v)))
  {
    DotOfCombined(Dot(v, v), u, -Dot(u, v), v, Residual(u, v));
    ResidualTerms(Dot(u, u), Dot(u, v), Dot(v, v));
  }

  /** The inequality of Cauchy and Schwarz. */
  lemma CauchySchwarz(u: Series, v: Series)
    requires |u| == |v|
    ensures Discriminant(Dot(u, u), Dot(u, v), Dot(v, v)) >= 0.0
  {
    DotOfSelf(v);
    if Dot(v, v) == 0.0 {
      DotWithZero(u, v);
    } else {
      ResidualSquared(u, v);
      DotOfSelf(Residual(u, v));
      PositiveFactor(Dot(v, v), Discriminant(Dot(u, u), Dot(u, v), Dot(v, v)));
    }
  }

  // ---- correlation -------------------------------------------------

  datatype DedupError = LengthsDiffer | TooShort | ConstantSeries | NothingComparable

  function Mean(s: Series): real
    requires s != []
  {
    Sum(s) / |s| as real
  }

  lemma MeanTimes(s: Series)
    requires s != []
    ensures Mul(|s| as real, Mean(s)) == Sum(s)
  {
  }

  function Deviations(s: Series): (d: Series)
    requires s != []
    ensures |d| == |s|
  {
    seq(|s|, i requires 0 <= i < |s| => s[i] - Mean(s))
  }

  function Covariance(a: Series, b: Series): real
    requires |a| == |b| && a != []
  {
    Dot(Deviations(a), Deviations(b))
  }

  function SquaredRatio(cov: real, left: real, right: real): real
    requires left > 0.0 && right > 0.0
  {
    PositiveProduct(left, right);
    cov * cov / (left * right)
  }

  /** The square of Pearson's correlation. */
  function RhoSq(a: Series, b: Series): Result<real, DedupError> {
    if |a| != |b| then Err(LengthsDiffer)
    else if |a| < 2 then Err(TooShort)
    else if Covariance(a, a) <= 0.0 || Covariance(b, b) <= 0.0 then Err(ConstantSeries)
    else Ok(SquaredRatio(Covariance(a, b), Covariance(a, a), Covariance(b, b)))
  }

  lemma RatioFacts(cov: real, left: real, right: real)
    requires left > 0.0 && right > 0.0
    ensures SquaredRatio(cov, left, right) >= 0.0
    ensures SquaredRatio(cov, left, right) <= 1.0 <==> Discriminant(left, cov, right) >= 0.0
    ensures SquaredRatio(cov, left, right) == 1.0 <==> Discriminant(left, cov, right) == 0.0
    ensures SquaredRatio(cov, right, left) == SquaredRatio(cov, left, right)
  {
    PositiveProduct(left, right);
    Square(cov);
    Quotient(cov * cov, left * right);
    Commutes(left, right);
  }

  predicate IsConstant(s: Series) {
    forall i :: 0 <= i < |s| ==> s[i] == s[0]
  }

  lemma {:induction false} SumOfConstant(s: Series, x: real)
    requires forall i :: 0 <= i < |s| ==> s[i] == x
    ensures Sum(s) == Mul(|s| as real, x)
  {
    if s != [] {
      SumOfConstant(s[..|s| - 1], x);
    }
  }

  lemma SameProduct(n: real, x: real, y: real)
    requires n > 0.0 && Mul(n, x) == Mul(n, y)
    ensures x == y
  {
  }

  /** A series varies, as the correlation asks for, exactly if it is not constant. */
  lemma VariesExactly(s: Series)
    requires s != []
    ensures Covariance(s, s) > 0.0 <==> !IsConstant(s)
  {
    var d := Deviations(s);
    DotOfSelf(d);
    if Covariance(s, s) == 0.0 {
      forall i | 0 <= i < |s| ensures s[i] == s[0] {
        assert d[i] == s[i] - Mean(s) && d[0] == s[0] - Mean(s);
      }
    }
    if IsConstant(s) {
      SumOfConstant(s, s[0]);
      MeanTimes(s);
      SameProduct(|s| as real, Mean(s), s[0]);
      DotWithZero(d, d);
    }
  }

  /** A correlation is computed exactly for two equally long series of two points or more that both vary. */
  lemma RhoExactly(a: Series, b: Series)
    ensures RhoSq(a, b).Ok? <==> |a| == |b| >= 2 && !IsConstant(a) && !IsConstant(b)
    ensures RhoSq(a, b) == Err(LengthsDiffer) <==> |a| != |b|
    ensures RhoSq(a, b) == Err(TooShort) <==> |a| == |b| < 2
    ensures RhoSq(a, b) == Err(ConstantSeries) <==> |a| == |b| >= 2 && (IsConstant(a) || IsConstant(b))
  {
    if |a| == |b| >= 2 {
      VariesExactly(a);
      VariesExactly(b);
    }
  }

  /** A correlation lies between minus one and one. */
  lemma RhoIsBounded(a: Series, b: Series)
    requires RhoSq(a, b).Ok?
    ensures 0.0 <= RhoSq(a, b).value <= 1.0
  {
    CauchySchwarz(Deviations(a), Deviations(b));
    RatioFacts(Covariance(a, b), Covariance(a, a), Covariance(b, b));
  }

  lemma RhoIsSymmetric(a: Series, b: Series)
    requires RhoSq(a, b).Ok?
    ensures RhoSq(b, a) == RhoSq(a, b)
  {
    DotCommutes(Deviations(a), Deviations(b));
    RatioFacts(Covariance(a, b), Covariance(a, a), Covariance(b, b));
  }

  // ---- affine copies -----------------------------------------------

  predicate IsAffine(a: Series, b: Series, slope: real, offset: real) {
    |a| == |b| && slope != 0.0 && forall i :: 0 <= i < |a| ==> b[i] == Mul(slope, a[i]) + offset
  }

  lemma SumTerms(slope: real, offset: real, sa: real, x: real, n: real)
    ensures Mul(slope, sa) + Mul(n, offset) + (Mul(slope, x) + offset) == Mul(slope, sa + x) + Mul(n + 1.0, offset)
  {
  }

  lemma {:induction false} SumOfAffine(a: Series, b: Series, slope: real, offset: real)
    requires IsAffine(a, b, slope, offset)
    ensures Sum(b) == Mul(slope, Sum(a)) + Mul(|a| as real, offset)
  {
    if a != [] {
      var n := |a| - 1;
      SumOfAffine(a[..n], b[..n], slope, offset);
      SumTerms(slope, offset, Sum(a[..n]), a[n], n as real);
      assert b[n] == Mul(slope, a[n]) + offset;
    }
  }

  lemma MeanTerms(sa: real, sb: real, ma: real, mb: real, n: real, slope: real, offset: real)
    requires n > 0.0 && Mul(n, ma) == sa && Mul(n, mb) == sb && sb == Mul(slope, sa) + Mul(n, offset)
    ensures mb == Mul(slope, ma) + offset
  {
    assert n * mb == n * (slope * ma + offset);
  }

  lemma DeviationTerms(x: real, mx: real, y: real, my: real, slope: real, offset: real)
    requires y == Mul(slope, x) + offset && my == Mul(slope, mx) + offset
    ensures y - my == Mul(slope, x - mx)
  {
  }

  lemma DeviationsOfAffine(a: Series, b: Series, slope: real, offset: real)
    requires IsAffine(a, b, slope, offset) && a != []
    ensures forall i :: 0 <= i < |a| ==> Deviations(b)[i] == Mul(slope, Deviations(a)[i])
  {
    SumOfAffine(a, b, slope, offset);
    MeanTimes(a);
    MeanTimes(b);
    MeanTerms(Sum(a), Sum(b), Mean(a), Mean(b), |a| as real, slope, offset);
    forall i | 0 <= i < |a| ensures Deviations(b)[i] == Mul(slope, Deviations(a)[i]) {
      DeviationTerms(a[i], Mean(a), b[i], Mean(b), slope, offset);
    }
  }

  lemma ScaledTerms(slope: real, uu: real, uv: real, vv: real, x: real, y: real)
    requires uv == Mul(slope, uu) && vv == Mul(slope, uv) && y == Mul(slope, x)
    ensures uv + Mul(x, y) == Mul(slope, uu + Mul(x, x)) && vv + Mul(y, y) == Mul(slope, uv + Mul(x, y))
  {
    assert x * y == slope * (x * x);
    assert y * y == slope * (x * y);
  }

  lemma {:induction false} DotOfScaled(u: Series, v: Series, slope: real)
    requires |u| == |v| && forall i :: 0 <= i < |u| ==> v[i] == Mul(slope, u[i])
    ensures Dot(u, v) == Mul(slope, Dot(u, u)) && Dot(v, v) == Mul(slope, Dot(u, v))
  {
    if u != [] {
      var n := |u| - 1;
      DotOfScaled(u[..n], v[..n], slope);
      ScaledTerms(slope, Dot(u[..n], u[..n]), Dot(u[..n], v[..n]), Dot(v[..n], v[..n]), u[n], v[n]);
    }
  }

  lemma PerfectTerms(slope: real, aa: real, ab: real, bb: real)
    requires aa > 0.0 && bb > 0.0 && ab == Mul(slope, aa) && bb == Mul(slope, ab)
    ensures SquaredRatio(ab, aa, bb) == 1.0
  {
    assert ab * ab == (slope * aa) * ab == aa * (slope * ab) == aa * bb;
    RatioFacts(ab, aa, bb);
  }

  /** A copy that is only rescaled, turned over or shifted is perfectly correlated. */
  lemma AffineIsPerfect(a: Series, b: Series, slope: real, offset: real)
    requires RhoSq(a, b).Ok? && IsAffine(a, b, slope, offset)
    ensures RhoSq(a, b) == Ok(1.0)
  {
    DeviationsOfAffine(a, b, slope, offset);
    DotOfScaled(Deviations(a), Deviations(b), slope);
    PerfectTerms(slope, Covariance(a, a), Covariance(a, b), Covariance(b, b));
  }

  lemma SlopeTerms(aa: real, s: real, slope: real, x: real, mx: real, y: real, my: real)
    requires aa > 0.0 && Mul(slope, aa) == s && Mul(aa, y - my) + Mul(-s, x - mx) == 0.0
    ensures y == Mul(slope, x) + (my - Mul(slope, mx))
  {
    assert aa * (y - my) == aa * (slope * (x - mx));
  }

  lemma SlopeExists(s: real, aa: real, bb: real) returns (slope: real)
    requires aa > 0.0 && bb > 0.0 && Discriminant(aa, s, bb) == 0.0
    ensures slope != 0.0 && Mul(slope, aa) == s
  {
    PositiveProduct(aa, bb);
    slope := s / aa;
  }

  lemma ZeroCombined(a: real, u: Series, b: real, v: Series, w: Series)
    requires |u| == |v| && w == Combined(a, u, b, v) && Dot(w, w) == 0.0
    ensures forall i :: 0 <= i < |u| ==> Mul(a, u[i]) + Mul(b, v[i]) == 0.0
  {
    DotOfSelf(w);
    forall i | 0 <= i < |u| ensures Mul(a, u[i]) + Mul(b, v[i]) == 0.0 {
      CombinedAt(a, u, b, v, i);
    }
  }

  lemma ZeroProduct(x: real, y: real)
    requires y == 0.0
    ensures Mul(x, y) == 0.0
  {
  }

  lemma ResidualIsZero(u: Series, v: Series)
    requires |u| == |v| && Discriminant(Dot(u, u), Dot(u, v), Dot(v, v)) == 0.0
    ensures Dot(Residual(u, v), Residual(u, v)) == 0.0
  {
    ResidualSquared(u, v);
    ZeroProduct(Dot(v, v), Discriminant(Dot(u, u), Dot(u, v), Dot(v, v)));
  }

  lemma Swapped(uu: real, uv: real, vv: real)
    ensures Discriminant(vv, uv, uu) == Discriminant(uu, uv, vv)
  {
  }

  /** The residual of perfectly correlated deviations vanishes. */
  lemma PerfectResidual(u: Series, v: Series)
    requires |u| == |v| && Discriminant(Dot(u, u), Dot(u, v), Dot(v, v)) == 0.0
    ensures forall i :: 0 <= i < |u| ==> Mul(Dot(u, u), v[i]) + Mul(-Dot(v, u), u[i]) == 0.0
  {
    DotCommutes(u, v);
    Swapped(Dot(u, u), Dot(u, v), Dot(v, v));
    ResidualIsZero(v, u);
    ZeroCombined(Dot(u, u), v, -Dot(v, u), u, Residual(v, u));
  }

  /** And nothing else is. */
  lemma PerfectIsAffine(a: Series, b: Series)
    requires RhoSq(a, b) == Ok(1.0)
    ensures exists slope, offset :: IsAffine(a, b, slope, offset)
  {
    var aa, s := Covariance(a, a), Covariance(b, a);
    RatioFacts(Covariance(a, b), aa, Covariance(b, b));
    PerfectResidual(Deviations(a), Deviations(b));
    DotCommutes(Deviations(a), Deviations(b));
    var slope := SlopeExists(s, aa, Covariance(b, b));
    var offset := Mean(b) - Mul(slope, Mean(a));
    forall i | 0 <= i < |a| ensures b[i] == Mul(slope, a[i]) + offset {
      assert Deviations(a)[i] == a[i] - Mean(a) && Deviations(b)[i] == b[i] - Mean(b);
      SlopeTerms(aa, s, slope, a[i], Mean(a), b[i], Mean(b));
    }
    assert IsAffine(a, b, slope, offset);
  }

  // ---- verdicts ----------------------------------------------------

  datatype Verdict = Distinct | Variant | Rejected

  /** Thresholds 0.99 and 0.90, squared. */
  function DecideVerdict(rhoSq: real): Verdict {
    if rhoSq > 0.9801 then Rejected else if rhoSq >= 0.81 then Variant else Distinct
  }

  lemma SquaresOrder(x: real, y: real)
    requires x >= 0.0 && y >= 0.0
    ensures x < y <==> Mul(x, x) < Mul(y, y)
  {
    if x < y {
      assert x * x <= x * y;
      assert y * y - x * y == y * (y - x);
      PositiveProduct(y, y - x);
    } else {
      assert x * x - y * y == (x - y) * (x + y);
    }
  }

  /**
   Any number that, like the correlation, is the covariance over a root of the
   product of the variances lies in [-1, 1], has the square used here, and
   falls under the verdict its absolute value asks for.
   */
  lemma RootAgrees(a: Series, b: Series, r: real)
    requires RhoSq(a, b).Ok?
    requires Mul(Mul(r, r), Mul(Covariance(a, a), Covariance(b, b))) == Mul(Covariance(a, b), Covariance(a, b))
    ensures -1.0 <= r <= 1.0 && RhoSq(a, b).value == Mul(r, r)
    ensures var size := if r < 0.0 then -r else r;
            DecideVerdict(RhoSq(a, b).value)
            == if size > 0.99 then Rejected else if size >= 0.90 then Variant else Distinct
  {
    var size := if r < 0.0 then -r else r;
    assert Mul(size, size) == Mul(r, r);
    RatioIs(Covariance(a, b), Covariance(a, a), Covariance(b, b), Mul(r, r));
    RhoIsBounded(a, b);
    SquaresOrder(1.0, size);
    SquaresOrder(0.99, size);
    SquaresOrder(size, 0.90);
  }

  lemma RatioIs(cov: real, left: real, right: real, q: real)
    requires left > 0.0 && right > 0.0 && Mul(q, Mul(left, right)) == Mul(cov, cov)
    ensures SquaredRatio(cov, left, right) == q
  {
    PositiveProduct(left, right);
  }

  // ---- comparing members -------------------------------------------

  datatype Candidate = Candidate(id: string, pnl: Series, ic: Series)
  datatype Record = Record(id: string, verdict: Verdict)
  datatype Outcome = Outcome(rhoSq: real, verdict: Verdict, against: Option<string>)

  predicate Comparable(a: Series, b: Series) {
    a != [] && b != [] && |a| == |b|
  }

  /** The larger square of the calibers that can be compared; one that is compared and degenerate raises. */
  function MaxRhoSq(left: Candidate, right: Candidate): Result<real, DedupError> {
    var pnl := if Comparable(left.pnl, right.pnl) then Some(RhoSq(left.pnl, right.pnl)) else None;
    var ic := if Comparable(left.ic, right.ic) then Some(RhoSq(left.ic, right.ic)) else None;
    if pnl.Some? && pnl.value.Err? then pnl.value
    else if ic.Some? && ic.value.Err? then ic.value
    else if pnl.Some? && ic.Some? then Ok(if pnl.value.value >= ic.value.value then pnl.value.value else ic.value.value)
    else if pnl.Some? then pnl.value
    else if ic.Some? then ic.value
    else Err(NothingComparable)
  }

  /** A caliber of `c` is compared with that of `d`, of which it is an affine copy. */
  predicate CopiesIn(c: Series, d: Series, slope: real, offset: real) {
    Comparable(c, d) && IsAffine(c, d, slope, offset)
  }

  lemma MaxRhoIsBounded(left: Candidate, right: Candidate)
    requires MaxRhoSq(left, right).Ok?
    ensures 0.0 <= MaxRhoSq(left, right).value <= 1.0
  {
    if Comparable(left.pnl, right.pnl) { RhoIsBounded(left.pnl, right.pnl); }
    if Comparable(left.ic, right.ic) { RhoIsBounded(left.ic, right.ic); }
  }

  /**
   Two candidates score exactly if some caliber can be compared and each that
   can is computed; the score is then the largest of them.
   */
  lemma MaxRhoExactly(left: Candidate, right: Candidate, score: real)
    ensures var pnl, ic := RhoSq(left.pnl, right.pnl), RhoSq(left.ic, right.ic);
            var onPnl := left.pnl != [] && right.pnl != [] && |left.pnl| == |right.pnl|;
            var onIc := left.ic != [] && right.ic != [] && |left.ic| == |right.ic|;
            && (MaxRhoSq(left, right) == Ok(score) <==>
                  && (onPnl || onIc)
                  && (onPnl ==> pnl.Ok? && pnl.value <= score) && (onIc ==> ic.Ok? && ic.value <= score)
                  && ((onPnl && pnl.value == score) || (onIc && ic.value == score)))
            && (MaxRhoSq(left, right) == Err(NothingComparable) <==> !onPnl && !onIc)
  {
  }

  lemma CopyScoresOne(c: Candidate, d: Candidate, slope: real, offset: real)
    requires MaxRhoSq(c, d).Ok?
    requires CopiesIn(c.pnl, d.pnl, slope, offset) || CopiesIn(c.ic, d.ic, slope, offset)
    ensures MaxRhoSq(c, d) == Ok(1.0)
  {
    MaxRhoIsBounded(c, d);
    if CopiesIn(c.pnl, d.pnl, slope, offset) {
      AffineIsPerfect(c.pnl, d.pnl, slope, offset);
      if Comparable(c.ic, d.ic) { RhoIsBounded(c.ic, d.ic); }
    } else {
      AffineIsPerfect(c.ic, d.ic, slope, offset);
      if Comparable(c.pnl, d.pnl) { RhoIsBounded(c.pnl, d.pnl); }
    }
  }

  type Registry = map<string, Candidate>

  predicate Counts(c: Candidate, r: Record, known: Registry) {
    r.verdict != Rejected && r.id in known && known[r.id].id != c.id
  }

  /** The counterparts of the records that are not rejected, are known and are not the candidate itself. */
  function Known(c: Candidate, records: seq<Record>, known: Registry): seq<Candidate> {
    if records == [] then []
    else
      var front, last := Known(c, records[..|records| - 1], known), records[|records| - 1];
      if Counts(c, last, known) then front + [known[last.id]] else front
  }

  const NOTHING := Outcome(0.0, Distinct, None)

  /** The first comparator of the largest score. */
  function Decide(c: Candidate, comparators: seq<Candidate>): Outcome {
    if comparators == [] then NOTHING
    else
      var best, last := Decide(c, comparators[..|comparators| - 1]), comparators[|comparators| - 1];
      var rho := MaxRhoSq(c, last);
      if rho.Ok? && (best.against.None? || rho.value > best.rhoSq) then
        Outcome(rho.value, DecideVerdict(rho.value), Some(last.id))
      else best
  }

  lemma {:induction false} KnownAppend(c: Candidate, a: seq<Record>, b: seq<Record>, known: Registry)
    ensures Known(c, a + b, known) == Known(c, a, known) + Known(c, b, known)
  {
    if b == [] {
      assert a + b == a;
    } else {
      assert (a + b)[..|a + b| - 1] == a + b[..|b| - 1];
      KnownAppend(c, a, b[..|b| - 1], known);
    }
  }

  /** One record brings its counterpart unless it is rejected, unknown, or the candidate itself. */
  lemma KnownExactly(c: Candidate, r: Record, known: Registry)
    ensures Known(c, [r], known)
            == if r.verdict == Rejected || r.id !in known || known[r.id].id == c.id then [] else [known[r.id]]
  {
    assert [r][..0] == [];
  }

  predicate Scores(c: Candidate, comparators: seq<Candidate>, i: nat)
    requires i < |comparators|
  {
    MaxRhoSq(c, comparators[i]).Ok?
  }

  /** The outcome names a comparator that attains the maximum over all that can be compared, the first such. */
  ghost predicate NamesFirstMaximum(c: Candidate, comparators: seq<Candidate>, o: Outcome, i: nat)
    requires i < |comparators|
  {
    && Scores(c, comparators, i)
    && o == Outcome(MaxRhoSq(c, comparators[i]).value, DecideVerdict(o.rhoSq), Some(comparators[i].id))
    && (forall j :: 0 <= j < |comparators| && Scores(c, comparators, j) ==>
          MaxRhoSq(c, comparators[j]).value <= o.rhoSq)
    && (forall j :: 0 <= j < i && Scores(c, comparators, j) ==> MaxRhoSq(c, comparators[j]).value < o.rhoSq)
  }

  lemma {:induction false} DecideIsMaximum(c: Candidate, comparators: seq<Candidate>) returns (i: nat)
    ensures i < |comparators| || i == |comparators|
    ensures i < |comparators| ==> NamesFirstMaximum(c, comparators, Decide(c, comparators), i)
    ensures i == |comparators| ==>
              && Decide(c, comparators) == Outcome(0.0, Distinct, None)
              && forall j :: 0 <= j < |comparators| ==> !Scores(c, comparators, j)
  {
    if comparators == [] {
      return 0;
    }
    var front, last := comparators[..|comparators| - 1], comparators[|comparators| - 1];
    i := DecideIsMaximum(c, front);
    forall j | 0 <= j < |front| ensures Scores(c, comparators, j) <==> Scores(c, front, j) {}
    var rho := MaxRhoSq(c, last);
    if i == |front| {
      i := if rho.Ok? then |front| else |comparators|;
    } else if rho.Ok? && rho.value > Decide(c, front).rhoSq {
      i := |front|;
    }
  }

  /** A candidate that copies a comparator, up to scale and shift, is rejected whenever the two can be scored. */
  lemma CopyIsRejected(c: Candidate, comparators: seq<Candidate>, k: nat, slope: real, offset: real)
    requires k < |comparators| && Scores(c, comparators, k)
    requires CopiesIn(c.pnl, comparators[k].pnl, slope, offset) || CopiesIn(c.ic, comparators[k].ic, slope, offset)
    ensures Decide(c, comparators).rhoSq == 1.0 && Decide(c, comparators).verdict == Rejected
    ensures Decide(c, comparators).against.Some?
  {
    CopyScoresOne(c, comparators[k], slope, offset);
    var i := DecideIsMaximum(c, comparators);
    MaxRhoIsBounded(c, comparators[i]);
  }

  method DecideDedup(c: Candidate, earlier: seq<Candidate>, records: seq<Record>, known: Registry) returns (o: Outcome)
    ensures o == Decide(c, earlier + Known(c, records, known))
  {
    var comparators := earlier;
    for i := 0 to |records|
      invariant comparators == earlier + Known(c, records[..i], known)
    {
      assert records[..i + 1][..i] == records[..i];
      if Counts(c, records[i], known) {
        comparators := comparators + [known[records[i].id]];
      }
    }
    assert records[..|records|] == records;
    o := NOTHING;
    for i := 0 to |comparators|
      invariant o == Decide(c, comparators[..i])
    {
      assert comparators[..i + 1][..i] == comparators[..i];
      var rho := MaxRhoSq(c, comparators[i]);
      if rho.Ok? && (o.against.None? || rho.value > o.rhoSq) {
        o := Outcome(rho.value, DecideVerdict(rho.value), Some(comparators[i].id));
      }
    }
    assert comparators[..|comparators|] == comparators;
  }

  // ---- a cohort ----------------------------------------------------

  /** Each member is compared with those committed before it and with the registry. */
  function OutcomeAt(members: seq<Candidate>, i: nat, records: seq<Record>, known: Registry): Outcome
    requires i < |members|
  {
    Decide(members[i], members[..i] + Known(members[i], records, known))
  }

  function Resolved(members: seq<Candidate>, records: seq<Record>, known: Registry): map<string, Outcome> {
    if members == [] then map[]
    else
      var n := |members| - 1;
      Resolved(members[..n], records, known)[members[n].id := OutcomeAt(members, n, records, known)]
  }

  lemma ResolvedStep(members: seq<Candidate>, i: nat, records: seq<Record>, known: Registry)
    requires i < |members|
    ensures Resolved(members[..i + 1], records, known)
            == Resolved(members[..i], records, known)[members[i].id := OutcomeAt(members, i, records, known)]
  {
    var upTo := members[..i + 1];
    assert upTo[..i] == members[..i] && upTo[i] == members[i];
  }

  method ResolveCohortDedup(members: seq<Candidate>, records: seq<Record>,
                            known: Registry) returns (outcomes: map<string, Outcome>)
    ensures outcomes == Resolved(members, records, known)
  {
    outcomes := map[];
    var earlier: seq<Candidate> := [];
    for i := 0 to |members|
      invariant earlier == members[..i]
      invariant outcomes == Resolved(members[..i], records, known)
    {
      ResolvedStep(members, i, records, known);
      var o := DecideDedup(members[i], earlier, records, known);
      outcomes := outcomes[members[i].id := o];
      earlier := earlier + [members[i]];
    }
    assert members[..|members|] == members;
  }

  /** The outcome recorded for a member nobody after it shares the name of. */
  lemma {:induction false} ResolvedAt(members: seq<Candidate>, i: nat, records: seq<Record>, known: Registry)
    requires i < |members| && forall j :: i < j < |members| ==> members[j].id != members[i].id
    ensures members[i].id in Resolved(members, records, known)
    ensures Resolved(members, records, known)[members[i].id] == OutcomeAt(members, i, records, known)
  {
    var n := |members| - 1;
    if i < n {
      assert members[..n][..i] == members[..i];
      ResolvedAt(members[..n], i, records, known);
    }
  }

  /** Appending members of other names never changes an earlier outcome. */
  lemma EarlierIsStable(members: seq<Candidate>, later: seq<Candidate>, i: nat, records: seq<Record>, known: Registry)
    requires i < |members| && forall j :: i < j < |members| ==> members[j].id != members[i].id
    requires forall j :: 0 <= j < |later| ==> later[j].id != members[i].id
    ensures members[i].id in Resolved(members, records, known)
    ensures members[i].id in Resolved(members + later, records, known)
    ensures Resolved(members + later, records, known)[members[i].id] == Resolved(members, records, known)[members[i].id]
  {
    ResolvedAt(members, i, records, known);
    ResolvedAt(members + later, i, records, known);
    assert (members + later)[..i] == members[..i];
  }

  /** A record that is marked rejected changes no outcome. */
  lemma RejectedRecordsDoNotCount(members: seq<Candidate>, i: nat, before: seq<Record>, r: Record, after: seq<Record>,
                                  known: Registry)
    requires i < |members| && r.verdict == Rejected
    ensures OutcomeAt(members, i, before + [r] + after, known) == OutcomeAt(members, i, before + after, known)
  {
    var c := members[i];
    KnownAppend(c, before + [r], after, known);
    KnownAppend(c, before, [r], known);
    KnownAppend(c, before, after, known);
    KnownExactly(c, r, known);
  }

  /** A copy of an earlier member of the cohort is rejected. */
  lemma LaterCopyIsRejected(members: seq<Candidate>, i: nat, k: nat, records: seq<Record>, known: Registry,
                            slope: real, offset: real)
    requires k < i < |members| && MaxRhoSq(members[i], members[k]).Ok?
    requires || CopiesIn(members[i].pnl, members[k].pnl, slope, offset)
             || CopiesIn(members[i].ic, members[k].ic, slope, offset)
    ensures OutcomeAt(members, i, records, known).verdict == Rejected
  {
    var comparators := members[..i] + Known(members[i], records, known);
    assert comparators[k] == members[k];
    CopyIsRejected(members[i], comparators, k, slope, offset);
  }
}
