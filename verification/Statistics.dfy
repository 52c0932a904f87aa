/** The statistics of h2kvm/ai/_stats.py over exact reals. `sqrt` is a parameter; what is
    assumed of it is stated where it matters, with `IsSqrt`. */
module Statistics {

  function Sum(xs: seq<real>): real
  {
    if xs == [] then 0.0 else xs[0] + Sum(xs[1..])
  }

  function Mean(xs: seq<real>): real
  {
    if xs == [] then 0.0 else Sum(xs) / |xs| as real
  }

  function Square(x: real): real
  {
    x * x
  }

  /** Sum of squared distances to `c`. */
  function SumSq(xs: seq<real>, c: real): real
  {
    if xs == [] then 0.0 else Square(xs[0] - c) + SumSq(xs[1..], c)
  }

  /** `variance(values, ddof=1)` */
  function Variance(xs: seq<real>): real
  {
    if |xs| < 2 then 0.0 else SumSq(xs, Mean(xs)) / (|xs| - 1) as real
  }

  predicate IsSqrt(s: real, v: real)
  {
    s >= 0.0 && s * s == v
  }

  function ZScore(value: real, xs: seq<real>, sqrt: real -> real): real
  {
    var s := sqrt(Variance(xs));
    if s == 0.0 then 0.0 else (value - Mean(xs)) / s
  }

  // ----- real arithmetic

  lemma TimesPositive(x: real, y: real, p: real)
    requires x > 0.0 && y > 0.0 && p == x * y
    ensures p > 0.0
  {
  }

  lemma SquarePositive(x: real)
    requires x != 0.0
    ensures Square(x) > 0.0
  {
    if x > 0.0 {
      TimesPositive(x, x, Square(x));
    } else {
      var y := -x;
      assert x == -y;
      assert x * x == y * y;
      TimesPositive(y, y, Square(x));
    }
  }

  lemma SquareNonNegative(x: real)
    ensures Square(x) >= 0.0
    ensures Square(x) == 0.0 ==> x == 0.0
  {
    if x != 0.0 { SquarePositive(x); }
  }

  lemma TimesMonotone(x: real, y: real, k: real)
    requires x <= y && k >= 0.0
    ensures k * x <= k * y
  {
  }

  // ----- sums of squares

  lemma {:induction false} SumAppend(a: seq<real>, b: seq<real>)
    ensures Sum(a + b) == Sum(a) + Sum(b)
  {
    if a == [] {
      assert a + b == b;
    } else {
      assert (a + b)[1..] == a[1..] + b;
      SumAppend(a[1..], b);
    }
  }

  lemma {:induction false} SumSqAppend(a: seq<real>, b: seq<real>, c: real)
    ensures SumSq(a + b, c) == SumSq(a, c) + SumSq(b, c)
  {
    if a == [] {
      assert a + b == b;
    } else {
      assert (a + b)[1..] == a[1..] + b;
      SumSqAppend(a[1..], b, c);
    }
  }

  lemma {:induction false} SumSqNonNegative(xs: seq<real>, c: real)
    ensures SumSq(xs, c) >= 0.0
  {
    if xs != [] {
      SumSqNonNegative(xs[1..], c);
      SquareNonNegative(xs[0] - c);
    }
  }

  /** What moving the centre of k values from c to t adds to their sum of squares. */
  function Shift(k: real, total: real, c: real, t: real): real
  {
    2.0 * (t - c) * (total - k * t) + k * Square(t - c)
  }

  lemma ShiftAdds(k: real, total: real, c: real, t: real, x: real)
    ensures Square(x - c) + Shift(k, total, c, t) == Square(x - t) + Shift(k + 1.0, x + total, c, t)
  {
    var u := t - c;
    assert x - c == (x - t) + u;
    assert Square((x - t) + u) == Square(x - t) + 2.0 * u * (x - t) + Square(u);
    assert 2.0 * u * (total - k * t) + 2.0 * u * (x - t) == 2.0 * u * (x + total - (k + 1.0) * t);
    assert k * Square(u) + Square(u) == (k + 1.0) * Square(u);
  }

  lemma NoShift(c: real, t: real)
    ensures Shift(0.0, 0.0, c, t) == 0.0
  {
  }

  lemma {:induction false} SumSqShift(xs: seq<real>, c: real, t: real)
    ensures SumSq(xs, c) == SumSq(xs, t) + Shift(|xs| as real, Sum(xs), c, t)
  {
    hide Square, Shift;
    if xs == [] {
      NoShift(c, t);
    } else {
      SumSqShift(xs[1..], c, t);
      ShiftAdds(|xs[1..]| as real, Sum(xs[1..]), c, t, xs[0]);
      assert |xs| as real == |xs[1..]| as real + 1.0;
    }
  }

  lemma ScaledSquare(k: real, u: real, q: real)
    requires k >= 0.0 && k * Square(u) <= q
    ensures Square(k * u) <= k * q
  {
    assert Square(k * u) == k * (k * Square(u));
    TimesMonotone(k * Square(u), q, k);
  }

  lemma Quotient(x: real, k: real)
    requires k != 0.0
    ensures k * (x / k) == x
  {
  }

  lemma ShiftBound(k: real, total: real, c: real, t: real, q: real)
    requires k >= 0.0 && k * t == total && Shift(k, total, c, t) <= q
    ensures Square(total - k * c) <= k * q
  {
    var u := t - c;
    assert total - k * t == 0.0;
    assert k * Square(u) <= q;
    ScaledSquare(k, u, q);
    assert k * u == k * t - k * c;
  }

  lemma SquareOfZero(x: real)
    requires x == 0.0
    ensures Square(x) == 0.0
  {
  }

  /** The squared sum of deviations is at most n times the sum of squares. */
  lemma SquaredSumBound(xs: seq<real>, c: real)
    ensures Square(Sum(xs) - |xs| as real * c) <= |xs| as real * SumSq(xs, c)
  {
    hide Square, Shift;
    var k := |xs| as real;
    if xs == [] {
      SquareOfZero(Sum(xs) - k * c);
    } else {
      var t := Sum(xs) / k;
      Quotient(Sum(xs), k);
      SumSqNonNegative(xs, t);
      SumSqShift(xs, c, t);
      ShiftBound(k, Sum(xs), c, t, SumSq(xs, c));
    }
  }

  /** Sums over the sample without its j-th member. */
  lemma WithoutMember(xs: seq<real>, j: nat, c: real)
    requires j < |xs|
    ensures var rest := xs[..j] + xs[j + 1..];
            Sum(rest) == Sum(xs) - xs[j] && SumSq(rest, c) == SumSq(xs, c) - Square(xs[j] - c)
  {
    var l, r := xs[..j], xs[j + 1..];
    assert xs == l + ([xs[j]] + r);
    SumAppend(l, [xs[j]] + r);
    SumAppend([xs[j]], r);
    SumAppend(l, r);
    SumSqAppend(l, [xs[j]] + r, c);
    SumSqAppend([xs[j]], r, c);
    SumSqAppend(l, r, c);
  }

  lemma SquaredSumBoundOf(xs: seq<real>, c: real, k: real, total: real, q: real)
    requires k == |xs| as real && total == Sum(xs) && q == SumSq(xs, c)
    ensures Square(total - k * c) <= k * q
  {
    SquaredSumBound(xs, c);
  }

  lemma MeanTimes(xs: seq<real>)
    requires xs != []
    ensures |xs| as real * Mean(xs) == Sum(xs)
  {
    Quotient(Sum(xs), |xs| as real);
  }

  lemma MoveTerm(n: real, m: real, x: real, total: real, k: real, sum: real, r: real, left: real)
    requires k == n - 1.0 && n * m == sum && r == sum - x
    requires left == total - Square(x - m) && Square(r - k * m) <= k * left
    ensures n * Square(x - m) <= k * total
  {
    var d := Square(x - m);
    assert k * m == n * m - m;
    assert r - k * m == m - x;
    assert Square(m - x) == d;
    assert k * left == k * total - k * d;
    assert n * d == k * d + d;
  }

  /** A member of a sample is never far out: n (x - mean)^2 <= (n - 1) S. */
  lemma MemberDeviation(xs: seq<real>, j: nat)
    requires j < |xs|
    ensures |xs| as real * Square(xs[j] - Mean(xs)) <= (|xs| - 1) as real * SumSq(xs, Mean(xs))
  {
    hide Square, SumSq, Sum, Mean;
    var n, m := |xs| as real, Mean(xs);
    var rest := xs[..j] + xs[j + 1..];
    var k := (|xs| - 1) as real;
    WithoutMember(xs, j, m);
    SquaredSumBoundOf(rest, m, k, Sum(rest), SumSq(rest, m));
    MeanTimes(xs);
    MoveTerm(n, m, xs[j], SumSq(xs, m), k, Sum(xs), Sum(rest), SumSq(rest, m));
  }

  lemma ZOfQuotient(d: real, s: real, n: real, k: real, total: real)
    requires s > 0.0 && s * s * k == total && n * Square(d) <= k * total
    ensures n * Square(d / s) <= k * k
  {
    hide Square;
    var z := d / s;
    Quotient(d, s);
    ProductSquare(z, s);
    assert s * z == d;
    SquarePositive(s);
    SquareIs(s);
    CancelVariance(n, Square(z), Square(s), k, total, Square(d));
  }

  lemma CancelVariance(n: real, zz: real, v: real, k: real, total: real, dd: real)
    requires v > 0.0 && v * k == total && dd == zz * v && n * dd <= k * total
    ensures n * zz <= k * k
  {
    assert n * (zz * v) == (n * zz) * v;
    assert k * (v * k) == (k * k) * v;
    Cancel(n * zz, k * k, v);
  }

  lemma ProductSquare(z: real, s: real)
    ensures Square(s * z) == Square(z) * Square(s)
  {
  }

  lemma SquareIs(s: real)
    ensures Square(s) == s * s
  {
  }

  lemma Cancel(x: real, y: real, v: real)
    requires v > 0.0 && x * v <= y * v
    ensures x <= y
  {
    assert (x - y) * v == x * v - y * v;
    if x > y { TimesPositive(x - y, v, (x - y) * v); }
  }

  /** A value tested against a sample that contains it: n z^2 <= (n - 1)^2. */
  lemma MemberZScore(xs: seq<real>, j: nat, sqrt: real -> real)
    requires 2 <= |xs| && j < |xs|
    requires IsSqrt(sqrt(Variance(xs)), Variance(xs))
    ensures |xs| as real * Square(ZScore(xs[j], xs, sqrt)) <= Square((|xs| - 1) as real)
  {
    hide Mean, SumSq, Square;
    var s, k := sqrt(Variance(xs)), (|xs| - 1) as real;
    SquareNonNegative(k);
    SquareIs(k);
    if s == 0.0 {
      SquareOfZero(0.0);
    } else {
      MemberDeviation(xs, j);
      VarianceTimes(xs);
      ZOfQuotient(xs[j] - Mean(xs), s, |xs| as real, k, SumSq(xs, Mean(xs)));
    }
  }

  lemma VarianceTimes(xs: seq<real>)
    requires |xs| >= 2
    ensures Variance(xs) * (|xs| - 1) as real == SumSq(xs, Mean(xs))
  {
    hide SumSq, Mean;
    Quotient(SumSq(xs, Mean(xs)), (|xs| - 1) as real);
  }

  function Zeros(n: nat): (r: seq<real>)
    ensures |r| == n && forall i | 0 <= i < n :: r[i] == 0.0
  {
    seq(n, _ => 0.0)
  }

  lemma {:induction false} ZerosSums(n: nat, c: real)
    ensures Sum(Zeros(n)) == 0.0 && SumSq(Zeros(n), c) == n as real * Square(c)
  {
    if n > 0 {
      assert Zeros(n)[1..] == Zeros(n - 1);
      ZerosSums(n - 1, c);
      assert Square(0.0 - c) == Square(c);
    }
  }

  /** The bound is attained for every sample size: n - 1 equal values and one outlier. */
  lemma MemberBoundIsTight(n: nat)
    requires n >= 2
    ensures var xs := Zeros(n - 1) + [1.0];
            n as real * Square(1.0 - Mean(xs)) == (n - 1) as real * SumSq(xs, Mean(xs)) > 0.0
  {
    var xs := Zeros(n - 1) + [1.0];
    var k, r := (n - 1) as real, n as real;
    var m := Mean(xs);
    ZerosSums(n - 1, m);
    SumAppend(Zeros(n - 1), [1.0]);
    SumSqAppend(Zeros(n - 1), [1.0], m);
    assert Sum([1.0]) == 1.0 && SumSq([1.0], m) == Square(1.0 - m);
    assert m == 1.0 / r && r * m == 1.0 && k == r - 1.0;
    var d := 1.0 - m;
    assert r * d == k;
    assert k * m == d;
    assert d > 0.0;
    assert SumSq(xs, m) == k * Square(m) + Square(d);
    assert k * Square(m) == d * m;
    assert SumSq(xs, m) == d * m + d * d == d * (m + d) == d;
    assert r * Square(d) == (r * d) * d;
  }

  // ----- linear regression

  function CrossSq(xs: seq<real>, ys: seq<real>, cx: real, cy: real): real
    requires |xs| == |ys|
  {
    if xs == [] then 0.0 else (xs[0] - cx) * (ys[0] - cy) + CrossSq(xs[1..], ys[1..], cx, cy)
  }

  function LinearRegression(x: seq<real>, y: seq<real>): (real, real)
  {
    var n := if |x| < |y| then |x| else |y|;
    if n < 2 then (0.0, Mean(y)) else Fit(x[..n], y[..n])
  }

  function Fit(xs: seq<real>, ys: seq<real>): (real, real)
    requires |xs| == |ys|
  {
    var mx, my := Mean(xs), Mean(ys);
    var sxx := SumSq(xs, mx);
    if sxx == 0.0 then (0.0, my) else Through(mx, my, CrossSq(xs, ys, mx, my) / sxx)
  }

  /** Slope and intercept of the line through a point. */
  function Through(mx: real, my: real, slope: real): (real, real)
  {
    (slope, my - slope * mx)
  }

  /** Sum of squared residuals of the line y = a x + b. */
  function Residuals(xs: seq<real>, ys: seq<real>, a: real, b: real): real
    requires |xs| == |ys|
  {
    if xs == [] then 0.0 else Square(ys[0] - a * xs[0] - b) + Residuals(xs[1..], ys[1..], a, b)
  }

  lemma ResidualExpand(dx: real, dy: real, a: real, e: real)
    ensures Square(dy - a * dx + e) ==
            Square(dy) + a * a * Square(dx) + e * e - 2.0 * a * (dx * dy) + 2.0 * e * dy - 2.0 * a * e * dx
  {
  }

  /** The quadratic the residuals are, from the sums of a sample around a centre. */
  function Quadratic(a: real, e: real, k: real, yy: real, xx: real, xy: real, sy: real, sx: real): real
  {
    yy + a * a * xx + k * (e * e) - 2.0 * a * xy + 2.0 * e * sy - 2.0 * a * e * sx
  }

  lemma QuadraticAdds(a: real, e: real, k: real, yy: real, xx: real, xy: real, sy: real, sx: real,
                      dx: real, dy: real, r: real,
                      k1: real, yy1: real, xx1: real, xy1: real, sy1: real, sx1: real)
    requires r == dy - a * dx + e && k1 == k + 1.0 && yy1 == Square(dy) + yy && xx1 == Square(dx) + xx
    requires xy1 == dx * dy + xy && sy1 == dy + sy && sx1 == dx + sx
    ensures Quadratic(a, e, k1, yy1, xx1, xy1, sy1, sx1) == Square(r) + Quadratic(a, e, k, yy, xx, xy, sy, sx)
  {
    ResidualExpand(dx, dy, a, e);
  }

  /** The same quadratic, from a sample. */
  function QuadraticOf(xs: seq<real>, ys: seq<real>, a: real, e: real, cx: real, cy: real): real
    requires |xs| == |ys|
  {
    Quadratic(a, e, |xs| as real, SumSq(ys, cy), SumSq(xs, cx), CrossSq(xs, ys, cx, cy), SumDev(ys, cy),
              SumDev(xs, cx))
  }

  /** Sum of deviations from `c`. */
  function SumDev(xs: seq<real>, c: real): real
  {
    if xs == [] then 0.0 else (xs[0] - c) + SumDev(xs[1..], c)
  }

  lemma {:induction false} SumDevIs(xs: seq<real>, c: real)
    ensures SumDev(xs, c) == Sum(xs) - |xs| as real * c
  {
    if xs != [] {
      SumDevIs(xs[1..], c);
      assert |xs| as real == |xs[1..]| as real + 1.0;
      assert (|xs[1..]| as real + 1.0) * c == |xs[1..]| as real * c + c;
    }
  }

  lemma MeanCentres(xs: seq<real>)
    ensures SumDev(xs, Mean(xs)) == 0.0
  {
    SumDevIs(xs, Mean(xs));
    if xs != [] { Quotient(Sum(xs), |xs| as real); }
  }

  lemma {:induction false} ResidualsExpand(xs: seq<real>, ys: seq<real>, a: real, b: real, cx: real, cy: real,
                                           e: real)
    requires |xs| == |ys| && e == cy - a * cx - b
    ensures Residuals(xs, ys, a, b) == QuadraticOf(xs, ys, a, e, cx, cy)
  {
    hide Square, Quadratic;
    if xs != [] {
      var xr, yr := xs[1..], ys[1..];
      ResidualsExpand(xr, yr, a, b, cx, cy, e);
      SameResidual(xs[0], ys[0], a, b, cx, cy);
      QuadraticAdds(a, e, |xr| as real, SumSq(yr, cy), SumSq(xr, cx), CrossSq(xr, yr, cx, cy),
                    SumDev(yr, cy), SumDev(xr, cx), xs[0] - cx, ys[0] - cy, ys[0] - a * xs[0] - b,
                    |xs| as real, SumSq(ys, cy), SumSq(xs, cx), CrossSq(xs, ys, cx, cy), SumDev(ys, cy),
                    SumDev(xs, cx));
    } else {
      ZeroQuadratic(a, e);
    }
  }

  lemma ZeroQuadratic(a: real, e: real)
    ensures Quadratic(a, e, 0.0, 0.0, 0.0, 0.0, 0.0, 0.0) == 0.0
  {
  }

  lemma SameResidual(x: real, y: real, a: real, b: real, cx: real, cy: real)
    ensures y - a * x - b == (y - cy) - a * (x - cx) + (cy - a * cx - b)
  {
  }

  lemma {:induction false} NoSpreadNoCross(xs: seq<real>, ys: seq<real>, cx: real, cy: real)
    requires |xs| == |ys| && SumSq(xs, cx) == 0.0
    ensures CrossSq(xs, ys, cx, cy) == 0.0
  {
    if xs != [] {
      SumSqNonNegative(xs[1..], cx);
      SquareNonNegative(xs[0] - cx);
      NoSpreadNoCross(xs[1..], ys[1..], cx, cy);
    }
  }

  lemma CompleteSquare(p: real, c: real, a: real, slope: real)
    requires p * slope == c
    ensures a * a * p - 2.0 * a * c - (slope * slope * p - 2.0 * slope * c) == p * Square(a - slope)
  {
    assert Square(a - slope) == a * a - 2.0 * a * slope + slope * slope;
    assert p * Square(a - slope) == p * (a * a) - 2.0 * a * (p * slope) + slope * (p * slope);
    assert slope * slope * p == slope * (p * slope);
  }

  lemma Excess(a: real, e: real, slope: real, k: real, yy: real, p: real, c: real, r: real, fitted: real)
    requires p * slope == c
    requires r == Quadratic(a, e, k, yy, p, c, 0.0, 0.0) && fitted == Quadratic(slope, 0.0, k, yy, p, c, 0.0, 0.0)
    ensures r - fitted == p * Square(a - slope) + k * Square(e)
  {
    CompleteSquare(p, c, a, slope);
  }

  lemma FittedSlope(xs: seq<real>, ys: seq<real>, mx: real, my: real, slope: real)
    requires |xs| == |ys|
    requires slope == if SumSq(xs, mx) == 0.0 then 0.0 else CrossSq(xs, ys, mx, my) / SumSq(xs, mx)
    ensures SumSq(xs, mx) * slope == CrossSq(xs, ys, mx, my)
  {
    hide SumSq, CrossSq;
    if SumSq(xs, mx) == 0.0 {
      NoSpreadNoCross(xs, ys, mx, my);
    } else {
      Quotient(CrossSq(xs, ys, mx, my), SumSq(xs, mx));
    }
  }

  /** The exact excess of any line over the fitted one. */
  lemma RegressionExcess(xs: seq<real>, ys: seq<real>, mx: real, my: real, slope: real, intercept: real,
                         a: real, b: real, e: real)
    requires |xs| == |ys| && mx == Mean(xs) && my == Mean(ys)
    requires slope == if SumSq(xs, mx) == 0.0 then 0.0 else CrossSq(xs, ys, mx, my) / SumSq(xs, mx)
    requires e == my - a * mx - b && 0.0 == my - slope * mx - intercept
    ensures Residuals(xs, ys, a, b) - Residuals(xs, ys, slope, intercept) ==
            SumSq(xs, mx) * Square(a - slope) + |xs| as real * Square(e)
  {
    hide Square, Quadratic, Sum, SumSq, SumDev, CrossSq, Residuals, Mean;
    FittedSlope(xs, ys, mx, my, slope);
    MeanCentres(xs);
    MeanCentres(ys);
    ResidualsExpand(xs, ys, a, b, mx, my, e);
    ResidualsExpand(xs, ys, slope, intercept, mx, my, 0.0);
    Excess(a, e, slope, |xs| as real, SumSq(ys, my), SumSq(xs, mx), CrossSq(xs, ys, mx, my),
           Residuals(xs, ys, a, b), Residuals(xs, ys, slope, intercept));
  }

  /** For n >= 2 paired points `linear_regression`, its zero-spread branch included,
      minimises the sum of squared residuals over all lines, and uniquely so when the
      x values differ. */
  lemma RegressionMinimises(x: seq<real>, y: seq<real>, n: nat, a: real, b: real)
    requires n == (if |x| < |y| then |x| else |y|) && n >= 2
    ensures var (slope, intercept) := LinearRegression(x, y);
            var xs, ys := x[..n], y[..n];
            && Residuals(xs, ys, slope, intercept) <= Residuals(xs, ys, a, b)
            && (SumSq(xs, Mean(xs)) > 0.0 && Residuals(xs, ys, slope, intercept) == Residuals(xs, ys, a, b) ==>
                  (a, b) == (slope, intercept))
  {
    hide Square, Sum, SumSq, CrossSq, Residuals, Mean;
    var (slope, intercept) := LinearRegression(x, y);
    var xs, ys := x[..n], y[..n];
    var mx, my := Mean(xs), Mean(ys);
    var e := my - a * mx - b;
    RegressionExcess(xs, ys, mx, my, slope, intercept, a, b, e);
    SumSqNonNegative(xs, mx);
    ExcessSign(SumSq(xs, mx), n as real, a - slope, e);
    if a == slope { assert a * mx == slope * mx; }
  }

  /** With fewer than two points the line is the constant mean of all of y, 0 without any. */
  lemma FewPointsAreConstant(x: seq<real>, y: seq<real>)
    requires |x| < 2 || |y| < 2
    ensures var (slope, intercept) := LinearRegression(x, y);
            slope == 0.0 && |y| as real * intercept == Sum(y) && (y == [] ==> intercept == 0.0)
  {
    if y != [] { MeanTimes(y); }
  }

  /** The documentation promises (0, mean(y)) for lists of different lengths; the code
      fits the common prefix instead, so the promise holds exactly when the prefix has no
      covariance and the mean of all of y. */
  lemma UnequalLengthsAreTruncated(x: seq<real>, y: seq<real>, n: nat)
    requires n == (if |x| < |y| then |x| else |y|) && n >= 2
    ensures LinearRegression(x, y) == LinearRegression(x[..n], y[..n])
    ensures LinearRegression(x, y) == (0.0, Mean(y)) <==>
            CrossSq(x[..n], y[..n], Mean(x[..n]), Mean(y[..n])) == 0.0 && Mean(y[..n]) == Mean(y)
  {
    hide Fit, CrossSq, Mean;
    var xs, ys := x[..n], y[..n];
    assert xs[..n] == xs && ys[..n] == ys;
    ConstantFit(xs, ys, Mean(y));
  }

  lemma ConstantFit(xs: seq<real>, ys: seq<real>, m: real)
    requires |xs| == |ys|
    ensures Fit(xs, ys) == (0.0, m) <==> CrossSq(xs, ys, Mean(xs), Mean(ys)) == 0.0 && Mean(ys) == m
  {
    hide SumSq, CrossSq, Mean, Through;
    var mx, my := Mean(xs), Mean(ys);
    var p, c := SumSq(xs, mx), CrossSq(xs, ys, mx, my);
    if p == 0.0 {
      NoSpreadNoCross(xs, ys, mx, my);
    } else {
      ConstantThrough(mx, my, c, p, c / p);
    }
  }

  lemma ConstantThrough(mx: real, my: real, c: real, p: real, slope: real)
    requires p != 0.0 && p * slope == c
    ensures Through(mx, my, slope).0 == 0.0 <==> c == 0.0
    ensures c == 0.0 ==> Through(mx, my, slope) == (0.0, my)
  {
    if c == 0.0 { NoRise(mx, slope, slope * mx); }
  }

  lemma NoRise(mx: real, slope: real, rise: real)
    requires slope == 0.0 && rise == slope * mx
    ensures rise == 0.0
  {
  }

  /** Three x values and two y values: a line of slope 1, not the documented constant. */
  lemma UnequalLengthsAreFitted()
    ensures LinearRegression([0.0, 1.0, 2.0], [0.0, 1.0]) == (1.0, 0.0) != (0.0, Mean([0.0, 1.0]))
  {
    var x, y := [0.0, 1.0, 2.0], [0.0, 1.0];
    assert x[..2] == y && y[..2] == y && y[1..] == [1.0];
    assert Mean(y) == 0.5;
    var h := 0.5;
    assert Square(0.0 - h) == 0.25 && Square(1.0 - h) == 0.25;
    assert SumSq(y[1..], h) == 0.25 && SumSq(y, h) == 0.5;
    assert CrossSq(y[1..], y[1..], h, h) == 0.25 && CrossSq(y, y, h, h) == 0.5;
  }

  lemma ExcessSign(p: real, k: real, u: real, e: real)
    requires p >= 0.0 && k > 0.0
    ensures p * Square(u) + k * Square(e) >= 0.0
    ensures p > 0.0 && p * Square(u) + k * Square(e) == 0.0 ==> u == 0.0 && e == 0.0
  {
    hide Square;
    SquareNonNegative(u);
    SquareNonNegative(e);
    var uu, ee := Square(u), Square(e);
    TimesMonotone(0.0, uu, p);
    TimesMonotone(0.0, ee, k);
    if uu > 0.0 && p > 0.0 { TimesPositive(p, uu, p * uu); }
    if ee > 0.0 { TimesPositive(k, ee, k * ee); }
  }
}
