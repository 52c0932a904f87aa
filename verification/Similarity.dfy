/** Cosine similarity and weighted means of h2kvm/ai/_stats.py, over exact reals. */
module Similarity {
  import opened Statistics

  function Dot(a: seq<real>, b: seq<real>): real
    requires |a| == |b|
  {
    if a == [] then 0.0 else a[0] * b[0] + Dot(a[1..], b[1..])
  }

  function CosineSimilarity(a: seq<real>, b: seq<real>, sqrt: real -> real): real
  {
    if |a| != |b| || a == [] then 0.0
    else
      var ma, mb := sqrt(Dot(a, a)), sqrt(Dot(b, b));
      Ratio(Dot(a, b), ma, mb)
  }

  function Ratio(d: real, ma: real, mb: real): real
  {
    if ma == 0.0 || mb == 0.0 then 0.0
    else
      assert ma * mb != 0.0 by { ProductNonZero(ma, mb); }
      d / (ma * mb)
  }

  lemma ProductNonZero(x: real, y: real)
    requires x != 0.0 && y != 0.0
    ensures x * y != 0.0
  {
  }

  // ----- Cauchy-Schwarz

  /** Sum of squares of t a - b. */
  function Gap(a: seq<real>, b: seq<real>, t: real): real
    requires |a| == |b|
  {
    if a == [] then 0.0 else Square(t * a[0] - b[0]) + Gap(a[1..], b[1..], t)
  }

  function Polynomial(t: real, aa: real, ab: real, bb: real): real
  {
    t * (t * aa) - 2.0 * (t * ab) + bb
  }

  lemma PolynomialAdds(t: real, aa: real, ab: real, bb: real, x: real, y: real, r: real, aa1: real, ab1: real,
                       bb1: real)
    requires r == t * x - y
    requires aa1 == x * x + aa && ab1 == x * y + ab && bb1 == y * y + bb
    ensures Polynomial(t, aa1, ab1, bb1) == Square(r) + Polynomial(t, aa, ab, bb)
  {
    GapSquare(t, x, y);
    assert t * (t * aa1) == t * (t * (x * x)) + t * (t * aa);
    assert t * ab1 == t * (x * y) + t * ab;
    hide Square;
  }

  lemma GapSquare(t: real, x: real, y: real)
    ensures Square(t * x - y) == t * (t * (x * x)) - 2.0 * (t * (x * y)) + y * y
  {
  }

  lemma PolynomialZero(t: real)
    ensures Polynomial(t, 0.0, 0.0, 0.0) == 0.0
  {
  }

  lemma {:induction false} GapIsPolynomial(a: seq<real>, b: seq<real>, t: real)
    requires |a| == |b|
    ensures Gap(a, b, t) == Polynomial(t, Dot(a, a), Dot(a, b), Dot(b, b)) && Gap(a, b, t) >= 0.0
  {
    hide Square, Polynomial;
    if a == [] {
      PolynomialZero(t);
    } else {
      GapIsPolynomial(a[1..], b[1..], t);
      SquareNonNegative(t * a[0] - b[0]);
      PolynomialAdds(t, Dot(a[1..], a[1..]), Dot(a[1..], b[1..]), Dot(b[1..], b[1..]), a[0], b[0],
                     t * a[0] - b[0], Dot(a, a), Dot(a, b), Dot(b, b));
    }
  }

  lemma {:induction false} DotSelf(a: seq<real>, b: seq<real>)
    requires |a| == |b|
    ensures Dot(a, a) >= 0.0
    ensures Dot(a, a) == 0.0 ==> Dot(a, b) == 0.0
  {
    if a != [] {
      DotSelf(a[1..], b[1..]);
      SquareNonNegative(a[0]);
      assert Square(a[0]) == a[0] * a[0];
    }
  }

  lemma Discriminant(aa: real, ab: real, bb: real, t: real)
    requires aa > 0.0 && aa * t == ab && Polynomial(t, aa, ab, bb) >= 0.0
    ensures Square(ab) <= aa * bb
  {
    assert t * (t * aa) == t * ab;
    assert t * ab <= bb;
    TimesMonotone(t * ab, bb, aa);
    assert aa * (t * ab) == (aa * t) * ab;
  }

  lemma CauchySchwarz(a: seq<real>, b: seq<real>)
    requires |a| == |b|
    ensures Square(Dot(a, b)) <= Dot(a, a) * Dot(b, b)
  {
    hide Polynomial, Dot;
    DotSelf(a, b);
    if Dot(a, a) > 0.0 {
      var t := Dot(a, b) / Dot(a, a);
      Quotient(Dot(a, b), Dot(a, a));
      GapIsPolynomial(a, b, t);
      Discriminant(Dot(a, a), Dot(a, b), Dot(b, b), t);
    }
  }

  lemma RootBound(d: real, m: real)
    requires m > 0.0 && Square(d) <= Square(m)
    ensures -m <= d <= m
  {
    if d > m {
      TimesPositive(d - m, d + m, (d - m) * (d + m));
    }
    if d < -m {
      TimesPositive(-d - m, m - d, (-d - m) * (m - d));
    }
    assert (d - m) * (d + m) == Square(d) - Square(m);
    assert (-d - m) * (m - d) == Square(d) - Square(m);
  }

  lemma QuotientBounds(d: real, m: real)
    requires m > 0.0 && -m <= d <= m
    ensures -1.0 <= d / m <= 1.0
    ensures d >= 0.0 ==> d / m >= 0.0
  {
    var q := d / m;
    Quotient(d, m);
    if q > 1.0 { TimesPositive(q - 1.0, m, (q - 1.0) * m); }
    if q < -1.0 { TimesPositive(-1.0 - q, m, (-1.0 - q) * m); }
    if q < 0.0 { TimesPositive(-q, m, (-q) * m); }
    assert (q - 1.0) * m == m * q - m;
    assert (-1.0 - q) * m == -m - m * q;
    assert (-q) * m == -(m * q);
  }

  lemma {:induction false} DotNonNegative(a: seq<real>, b: seq<real>)
    requires |a| == |b|
    requires (forall i | 0 <= i < |a| :: a[i] >= 0.0) && (forall i | 0 <= i < |b| :: b[i] >= 0.0)
    ensures Dot(a, b) >= 0.0
  {
    if a != [] {
      DotNonNegative(a[1..], b[1..]);
      TimesMonotone(0.0, b[0], a[0]);
    }
  }

  lemma RootsBound(d: real, ma: real, mb: real, aa: real, bb: real)
    requires ma >= 0.0 && mb >= 0.0 && ma * ma == aa && mb * mb == bb && Square(d) <= aa * bb
    ensures -1.0 <= Ratio(d, ma, mb) <= 1.0 && (d >= 0.0 ==> Ratio(d, ma, mb) >= 0.0)
  {
    if ma != 0.0 && mb != 0.0 {
      var m := ma * mb;
      TimesPositive(ma, mb, m);
      assert Square(m) == (ma * ma) * (mb * mb);
      RootBound(d, m);
      QuotientBounds(d, m);
    }
  }

  /** Cosine similarity lies in [-1, 1] for all vectors, and in [0, 1] for vectors
      without negative components. */
  lemma CosineBounds(a: seq<real>, b: seq<real>, sqrt: real -> real)
    requires |a| == |b| ==> IsSqrt(sqrt(Dot(a, a)), Dot(a, a)) && IsSqrt(sqrt(Dot(b, b)), Dot(b, b))
    ensures -1.0 <= CosineSimilarity(a, b, sqrt) <= 1.0
    ensures (forall i | 0 <= i < |a| :: a[i] >= 0.0) && (forall i | 0 <= i < |b| :: b[i] >= 0.0) ==>
              CosineSimilarity(a, b, sqrt) >= 0.0
  {
    hide Square, Dot, Ratio;
    if |a| == |b| && a != [] {
      CauchySchwarz(a, b);
      RootsBound(Dot(a, b), sqrt(Dot(a, a)), sqrt(Dot(b, b)), Dot(a, a), Dot(b, b));
      if (forall i | 0 <= i < |a| :: a[i] >= 0.0) && (forall i | 0 <= i < |b| :: b[i] >= 0.0) {
        DotNonNegative(a, b);
      }
    }
  }

  // ----- what the cosine is

  /** Squared length, and squared distance of two vectors. */
  function Norm2(a: seq<real>): real
  {
    if a == [] then 0.0 else Square(a[0]) + Norm2(a[1..])
  }

  function Distance2(a: seq<real>, b: seq<real>): real
    requires |a| == |b|
  {
    if a == [] then 0.0 else Square(a[0] - b[0]) + Distance2(a[1..], b[1..])
  }

  lemma {:induction false} NormIsDot(a: seq<real>)
    ensures Norm2(a) == Dot(a, a)
  {
    if a != [] {
      SquareIs(a[0]);
      NormIsDot(a[1..]);
    }
  }

  lemma SquareOfDifference(x: real, y: real)
    ensures Square(x - y) == Square(x) + Square(y) - 2.0 * (x * y)
  {
  }

  lemma {:induction false} DistanceExpands(a: seq<real>, b: seq<real>)
    requires |a| == |b|
    ensures Distance2(a, b) == Norm2(a) + Norm2(b) - 2.0 * Dot(a, b)
  {
    if a != [] {
      SquareOfDifference(a[0], b[0]);
      DistanceExpands(a[1..], b[1..]);
      hide Square;
    }
  }

  lemma RatioTimes(d: real, ma: real, mb: real)
    requires ma == 0.0 || mb == 0.0 ==> d == 0.0
    ensures ma * mb * Ratio(d, ma, mb) == d
  {
    if ma != 0.0 && mb != 0.0 {
      ProductNonZero(ma, mb);
      Quotient(d, ma * mb);
    }
  }

  lemma ZeroRoot(m: real, v: real)
    requires IsSqrt(m, v) && m == 0.0
    ensures v == 0.0
  {
  }

  lemma {:induction false} DotCommutes(a: seq<real>, b: seq<real>)
    requires |a| == |b|
    ensures Dot(a, b) == Dot(b, a)
  {
    if a != [] { DotCommutes(a[1..], b[1..]); }
  }

  /** The law of cosines: the similarity is the cosine of the angle between the vectors,
      by their lengths and their distance alone. */
  lemma LawOfCosines(a: seq<real>, b: seq<real>, ma: real, mb: real, sqrt: real -> real)
    requires |a| == |b| && ma == sqrt(Norm2(a)) && mb == sqrt(Norm2(b))
    requires IsSqrt(ma, Norm2(a)) && IsSqrt(mb, Norm2(b))
    ensures Distance2(a, b) == Norm2(a) + Norm2(b) - 2.0 * (ma * mb * CosineSimilarity(a, b, sqrt))
    ensures ma == 0.0 || mb == 0.0 ==> CosineSimilarity(a, b, sqrt) == 0.0
  {
    CosineTimes(a, b, ma, mb, sqrt);
    hide Norm2, Distance2, IsSqrt, Ratio, Dot, CosineSimilarity;
    DistanceExpands(a, b);
  }

  lemma CosineTimes(a: seq<real>, b: seq<real>, ma: real, mb: real, sqrt: real -> real)
    requires |a| == |b| && ma == sqrt(Norm2(a)) && mb == sqrt(Norm2(b))
    requires IsSqrt(ma, Norm2(a)) && IsSqrt(mb, Norm2(b))
    ensures ma * mb * CosineSimilarity(a, b, sqrt) == Dot(a, b)
    ensures ma == 0.0 || mb == 0.0 ==> CosineSimilarity(a, b, sqrt) == 0.0
  {
    NormIsDot(a);
    NormIsDot(b);
    EmptyDot(a, b);
    if ma == 0.0 { ZeroRoot(ma, Norm2(a)); }
    if mb == 0.0 { ZeroRoot(mb, Norm2(b)); }
    hide Norm2, IsSqrt, Dot;
    DotSelf(a, b);
    DotSelf(b, a);
    DotCommutes(a, b);
    RatioTimes(Dot(a, b), ma, mb);
    RatioOfZero(Dot(a, b), ma, mb);
    hide Ratio;
  }

  lemma RatioOfZero(d: real, ma: real, mb: real)
    ensures ma == 0.0 || mb == 0.0 ==> Ratio(d, ma, mb) == 0.0
  {
  }

  lemma EmptyDot(a: seq<real>, b: seq<real>)
    requires |a| == |b|
    ensures a == [] ==> Dot(a, b) == 0.0
  {
  }

  /** Vectors of different lengths have nothing in common. */
  lemma LengthsMustAgree(a: seq<real>, b: seq<real>, sqrt: real -> real)
    requires |a| != |b|
    ensures CosineSimilarity(a, b, sqrt) == 0.0
  {
  }

  predicate Multiple(a: seq<real>, b: seq<real>, k: real)
    requires |a| == |b|
  {
    forall i | 0 <= i < |a| :: b[i] == k * a[i]
  }

  /** `b` is a positive multiple of `a`. */
  predicate Scaled(a: seq<real>, b: seq<real>, k: real)
    requires |a| == |b|
  {
    k > 0.0 && Multiple(a, b, k)
  }

  lemma {:induction false} GapOfScaled(a: seq<real>, b: seq<real>, k: real)
    requires |a| == |b|
    ensures Gap(a, b, k) == 0.0 <==> Multiple(a, b, k)
    ensures Gap(a, b, k) >= 0.0
  {
    if a != [] {
      hide Square, Multiple;
      var gap, rest := k * a[0] - b[0], Gap(a[1..], b[1..], k);
      SquareNonNegative(gap);
      if gap == 0.0 { SquareOfZero(gap); }
      GapOfScaled(a[1..], b[1..], k);
      assert Gap(a, b, k) == Square(gap) + rest;
      hide Gap;
      ScaledCons(a, b, k);
    }
  }

  lemma ScaledCons(a: seq<real>, b: seq<real>, k: real)
    requires |a| == |b| && a != []
    ensures Multiple(a, b, k) <==> b[0] == k * a[0] && Multiple(a[1..], b[1..], k)
  {
    if b[0] == k * a[0] && Multiple(a[1..], b[1..], k) {
      forall i | 0 <= i < |a| ensures b[i] == k * a[i] {
        if i > 0 { assert b[1..][i - 1] == k * a[1..][i - 1]; }
      }
    }
  }

  /** The polynomial of the gap has a zero exactly where Cauchy-Schwarz is an equality. */
  lemma PolynomialRoot(t: real, aa: real, ab: real, bb: real)
    requires aa > 0.0 && aa * t == ab
    ensures Polynomial(t, aa, ab, bb) == 0.0 <==> Square(ab) == aa * bb
  {
    assert t * (t * aa) == t * ab;
    var gap := bb - t * ab;
    assert aa * gap == aa * bb - (aa * t) * ab;
    assert Square(ab) == ab * ab;
    hide Square;
    FactorIsZero(aa, gap, aa * gap);
  }

  lemma FactorIsZero(x: real, y: real, p: real)
    requires x > 0.0 && p == x * y
    ensures p == 0.0 <==> y == 0.0
  {
    if y > 0.0 { TimesPositive(x, y, p); }
    if y < 0.0 { TimesPositive(x, -y, -p); }
  }

  /** For vectors that are not zero: the similarity is 1 exactly for positive multiples. */
  lemma SimilarityIsOneExactly(a: seq<real>, b: seq<real>, ma: real, mb: real, sqrt: real -> real)
    requires |a| == |b| && ma == sqrt(Dot(a, a)) && mb == sqrt(Dot(b, b))
    requires IsSqrt(ma, Dot(a, a)) && IsSqrt(mb, Dot(b, b)) && ma > 0.0 && mb > 0.0
    ensures CosineSimilarity(a, b, sqrt) == 1.0 <==> exists k :: Scaled(a, b, k)
  {
    NonZeroVector(a, ma);
    var d, aa, bb := Dot(a, b), Dot(a, a), Dot(b, b);
    TimesPositive(ma, ma, aa);
    hide Dot, Square, Polynomial, Scaled, Gap;
    RatioIsOne(d, ma, mb, aa, bb);
    CauchySchwarz(a, b);
    hide Ratio;
    if CosineSimilarity(a, b, sqrt) == 1.0 { EqualityScales(a, b, d / aa); }
    if k :| Scaled(a, b, k) { ScaledIsEqual(a, b, k); }
  }

  lemma EqualityScales(a: seq<real>, b: seq<real>, t: real)
    requires |a| == |b| && Dot(a, a) > 0.0 && t == Dot(a, b) / Dot(a, a)
    requires Dot(a, b) > 0.0 && Square(Dot(a, b)) == Dot(a, a) * Dot(b, b)
    ensures Scaled(a, b, t)
  {
    hide Dot, Square, Polynomial, Gap;
    Quotient(Dot(a, b), Dot(a, a));
    PolynomialRoot(t, Dot(a, a), Dot(a, b), Dot(b, b));
    GapIsPolynomial(a, b, t);
    PositiveQuotient(t, Dot(a, a), Dot(a, b));
    GapOfScaled(a, b, t);
  }

  lemma ScaledIsEqual(a: seq<real>, b: seq<real>, k: real)
    requires |a| == |b| && Dot(a, a) > 0.0 && Scaled(a, b, k)
    ensures Dot(a, b) > 0.0 && Square(Dot(a, b)) == Dot(a, a) * Dot(b, b)
  {
    hide Dot, Square;
    DotOfScaled(a, a, b, k);
    DotOfScaled(a, b, b, k);
    DotCommutes(b, a);
    ScaledEquality(k, Dot(a, a), Dot(a, b), Dot(b, b));
  }

  lemma NonZeroVector(a: seq<real>, ma: real)
    requires IsSqrt(ma, Dot(a, a)) && ma > 0.0
    ensures a != []
  {
    TimesPositive(ma, ma, Dot(a, a));
  }

  lemma PositiveQuotient(t: real, aa: real, d: real)
    requires aa > 0.0 && d > 0.0 && aa * t == d
    ensures t > 0.0
  {
    if t < 0.0 { TimesPositive(aa, -t, -d); }
  }

  /** d / (ma mb) is 1 exactly when d is positive and its square the product of squares. */
  lemma RatioIsOne(d: real, ma: real, mb: real, aa: real, bb: real)
    requires ma > 0.0 && mb > 0.0 && ma * ma == aa && mb * mb == bb
    ensures Ratio(d, ma, mb) == 1.0 <==> d > 0.0 && Square(d) == aa * bb
  {
    var m := ma * mb;
    TimesPositive(ma, mb, m);
    assert Square(m) == aa * bb;
    RatioTimes(d, ma, mb);
    QuotientIsOne(d, m);
    SameSquare(d, m);
  }

  lemma QuotientIsOne(d: real, m: real)
    requires m > 0.0
    ensures d / m == 1.0 <==> d == m
  {
    Quotient(d, m);
  }

  lemma SameSquare(d: real, m: real)
    requires m > 0.0
    ensures d == m <==> d > 0.0 && Square(d) == Square(m)
  {
    assert Square(d) - Square(m) == (d - m) * (d + m);
    if d > m { TimesPositive(d - m, d + m, (d - m) * (d + m)); }
    if 0.0 < d < m {
      TimesPositive(m - d, d + m, (m - d) * (d + m));
      assert (m - d) * (d + m) == -((d - m) * (d + m));
    }
  }

  /** If b is k a, then b . c is k (a . c). */
  lemma {:induction false} DotOfScaled(a: seq<real>, c: seq<real>, b: seq<real>, k: real)
    requires |a| == |b| == |c| && forall i | 0 <= i < |a| :: b[i] == k * a[i]
    ensures Dot(b, c) == k * Dot(a, c)
  {
    if a != [] {
      assert forall i | 0 <= i < |a| - 1 :: b[1..][i] == k * a[1..][i];
      DotOfScaled(a[1..], c[1..], b[1..], k);
      assert (k * a[0]) * c[0] == k * (a[0] * c[0]);
    }
  }

  lemma ScaledEquality(k: real, aa: real, d: real, bb: real)
    requires k > 0.0 && aa > 0.0 && d == k * aa && bb == k * d
    ensures d > 0.0 && Square(d) == aa * bb
  {
    TimesPositive(k, aa, d);
    assert d * d == (k * aa) * d;
    assert aa * (k * d) == (k * aa) * d;
    SquareIs(d);
  }

  // ----- weighted means

  function WeightedMean(values: seq<real>, weights: seq<real>): real
  {
    if values == [] then 0.0
    else if |values| != |weights| then Mean(values)
    else
      var total := Sum(weights);
      if total == 0.0 then Mean(values) else Dot(values, weights) / total
  }

  /** How far the weighted values lie above m, on balance. */
  function Balance(values: seq<real>, weights: seq<real>, m: real): real
    requires |values| == |weights|
  {
    if values == [] then 0.0 else weights[0] * (values[0] - m) + Balance(values[1..], weights[1..], m)
  }

  lemma {:induction false} BalanceIs(values: seq<real>, weights: seq<real>, m: real)
    requires |values| == |weights|
    ensures Balance(values, weights, m) == Dot(values, weights) - Times(m, Sum(weights))
  {
    if values == [] {
      TimesZero(m);
    } else {
      BalanceIs(values[1..], weights[1..], m);
      var v, w, rest := values[0], weights[0], Sum(weights[1..]);
      assert w * (v - m) == v * w - m * w;
      assert Times(m, w + rest) == m * w + Times(m, rest);
      hide Times;
    }
  }

  /** The weighted mean is the one value at which the weighted values balance; without
      weight, or with lists of different lengths, it is the plain mean. */
  lemma WeightedMeanBalances(values: seq<real>, weights: seq<real>, m: real)
    ensures |values| == |weights| && Sum(weights) != 0.0 ==>
              (Balance(values, weights, m) == 0.0 <==> m == WeightedMean(values, weights))
    ensures values != [] && (|values| != |weights| || Sum(weights) == 0.0) ==>
              (|values| as real * m == Sum(values) <==> m == WeightedMean(values, weights))
    ensures values == [] ==> WeightedMean(values, weights) == 0.0
  {
    hide Sum, Dot, Balance;
    if |values| == |weights| && Sum(weights) != 0.0 {
      BalanceIs(values, weights, m);
      EmptySum(weights);
      QuotientUnique(Dot(values, weights), Sum(weights), m);
      assert Times(m, Sum(weights)) == Sum(weights) * m;
    }
    if values != [] { QuotientUnique(Sum(values), |values| as real, m); }
  }

  lemma EmptySum(xs: seq<real>)
    ensures xs == [] ==> Sum(xs) == 0.0
  {
  }

  lemma QuotientUnique(x: real, k: real, m: real)
    requires k != 0.0
    ensures k * m == x <==> m == x / k
  {
    Quotient(x, k);
    var q := x / k;
    if k * m == x {
      assert k * (m - q) == 0.0;
      if k > 0.0 { FactorIsZero(k, m - q, k * (m - q)); } else { FactorIsZero(-k, m - q, -(k * (m - q))); }
    }
  }

  predicate Between(xs: seq<real>, lo: real, hi: real)
  {
    forall i | 0 <= i < |xs| :: lo <= xs[i] <= hi
  }

  lemma {:induction false} SumBounds(xs: seq<real>, lo: real, hi: real)
    requires Between(xs, lo, hi)
    ensures |xs| as real * lo <= Sum(xs) <= |xs| as real * hi
  {
    if xs != [] {
      SumBounds(xs[1..], lo, hi);
      assert |xs| as real * lo == |xs[1..]| as real * lo + lo;
      assert |xs| as real * hi == |xs[1..]| as real * hi + hi;
    }
  }

  function Times(x: real, y: real): real
  {
    x * y
  }

  lemma TimesZero(x: real)
    ensures Times(x, 0.0) == 0.0
  {
  }

  lemma {:induction false} DotBounds(xs: seq<real>, ws: seq<real>, lo: real, hi: real)
    requires |xs| == |ws| && Between(xs, lo, hi) && forall i | 0 <= i < |ws| :: ws[i] >= 0.0
    ensures Times(lo, Sum(ws)) <= Dot(xs, ws) <= Times(hi, Sum(ws)) && Sum(ws) >= 0.0
  {
    hide Times;
    if xs == [] {
      TimesZero(lo);
      TimesZero(hi);
    } else {
      DotBounds(xs[1..], ws[1..], lo, hi);
      DotStep(xs[0], ws[0], lo, hi, Sum(ws[1..]), Dot(xs[1..], ws[1..]), Sum(ws), Dot(xs, ws));
    }
  }

  lemma DotStep(x: real, w: real, lo: real, hi: real, total: real, dot: real, total1: real, dot1: real)
    requires lo <= x <= hi && w >= 0.0 && Times(lo, total) <= dot <= Times(hi, total)
    requires total1 == w + total && dot1 == x * w + dot
    ensures Times(lo, total1) <= dot1 <= Times(hi, total1)
  {
    var l, m, h := w * lo, w * x, w * hi;
    ProductOrder(lo, x, w, l, m);
    ProductOrder(x, hi, w, m, h);
    TimesAdds(lo, w, total, l);
    TimesAdds(hi, w, total, h);
    DotStepSum(x, w, m, dot, dot1);
    hide Times;
  }

  lemma ProductOrder(x: real, y: real, k: real, p: real, q: real)
    requires x <= y && k >= 0.0 && p == k * x && q == k * y
    ensures p <= q
  {
    TimesMonotone(x, y, k);
  }

  lemma TimesAdds(x: real, w: real, total: real, p: real)
    requires p == w * x
    ensures Times(x, w + total) == p + Times(x, total)
  {
  }

  lemma DotStepSum(x: real, w: real, m: real, dot: real, dot1: real)
    requires dot1 == x * w + dot && m == w * x
    ensures dot1 == m + dot
  {
  }

  lemma QuotientBetween(x: real, k: real, lo: real, hi: real)
    requires k > 0.0 && k * lo <= x <= k * hi
    ensures lo <= x / k <= hi
  {
    var q := x / k;
    Quotient(x, k);
    Cancel(lo, q, k);
    Cancel(q, hi, k);
  }

  /** A weighted mean with weights that are not negative lies between the extremes of
      the values, in the fallback to the plain mean too. */
  lemma WeightedMeanBetween(values: seq<real>, weights: seq<real>, lo: real, hi: real)
    requires values != [] && Between(values, lo, hi)
    requires |values| == |weights| ==> forall i | 0 <= i < |weights| :: weights[i] >= 0.0
    ensures lo <= WeightedMean(values, weights) <= hi
  {
    hide Sum, Dot;
    SumBounds(values, lo, hi);
    QuotientBetween(Sum(values), |values| as real, lo, hi);
    if |values| == |weights| {
      DotBounds(values, weights, lo, hi);
      if Sum(weights) != 0.0 {
        assert Sum(weights) * lo == lo * Sum(weights) && Sum(weights) * hi == hi * Sum(weights);
        QuotientBetween(Dot(values, weights), Sum(weights), lo, hi);
      }
    }
  }
}
