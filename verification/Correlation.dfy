/**
 * Correlation and lag search of analysis/grid_correlation.py over the reals. The square root is a
 * parameter, any function that squares back.
 */
module Correlation {

  ghost predicate IsSqrt(sqrt: real -> real) {
    forall x :: x >= 0.0 ==> sqrt(x) >= 0.0 && sqrt(x) * sqrt(x) == x
  }

  function Sum(xs: seq<real>): real {
    if xs == [] then 0.0 else xs[0] + Sum(xs[1..])
  }

  function Mean(xs: seq<real>): real
    requires xs != []
  {
    Sum(xs) / (|xs| as real)
  }

  /** The sum of products of two series around given centres. */
  function Moment(a: seq<real>, b: seq<real>, ma: real, mb: real): real
    requires |a| == |b|
  {
    if a == [] then 0.0 else (a[0] - ma) * (b[0] - mb) + Moment(a[1..], b[1..], ma, mb)
  }

  function Coefficient(sqrt: real -> real, cov: real, va: real, vb: real): real
    requires IsSqrt(sqrt)
  {
    if va <= 0.0 || vb <= 0.0 then 0.0
    else
      ProductPositive(va, vb);
      SqrtAt(sqrt, va * vb);
      cov / sqrt(va * vb)
  }

  function Pearson(sqrt: real -> real, a: seq<real>, b: seq<real>): real
    requires IsSqrt(sqrt)
  {
    if |a| != |b| || |a| < 2 then 0.0
    else
      var ma, mb := Mean(a), Mean(b);
      Coefficient(sqrt, Moment(a, b, ma, mb), Moment(a, a, ma, ma), Moment(b, b, mb, mb))
  }

  lemma ProductPositive(x: real, y: real)
    requires x > 0.0 && y > 0.0
    ensures x * y > 0.0
  {
  }

  // ---- Cauchy-Schwarz ----------------------------------------------------------------------------

  lemma SquareNonNegative(x: real)
    ensures x * x >= 0.0
  {
  }

  lemma {:induction false} MomentNonNegative(a: seq<real>, m: real)
    ensures Moment(a, a, m, m) >= 0.0
  {
    if a != [] {
      SquareNonNegative(a[0] - m);
      MomentNonNegative(a[1..], m);
    }
  }

  lemma SquaresGrow(q: real, p: real)
    requires 0.0 <= q < p
    ensures q * q < p * p
  {
    ProductPositive(p + q, p - q);
    DifferenceOfSquares(p, q);
  }

  lemma DifferenceOfSquares(p: real, q: real)
    ensures (p + q) * (p - q) == p * p - q * q
  {
  }

  lemma RootOrder(p: real, q: real)
    requires p * p <= q * q && q >= 0.0
    ensures -q <= p <= q
  {
    if p > q { SquaresGrow(q, p); }
    if -p > q {
      SquaresGrow(q, -p);
      NegatedSquare(p);
    }
  }

  lemma NegatedSquare(p: real)
    ensures (-p) * (-p) == p * p
  {
  }

  predicate Within(s: real, x: real, y: real) {
    s * s <= x * y
  }

  lemma CrossTerm(s: real, x: real, y: real, u: real, v: real)
    requires x >= 0.0 && y >= 0.0 && s * s <= x * y
    ensures 2.0 * s * u * v <= x * v * v + y * u * u
  {
    var p, q := 2.0 * s * u * v, x * v * v + y * u * u;
    SquareNonNegative(v);
    SquareNonNegative(u);
    assert q >= 0.0 by {
      assert x * (v * v) >= 0.0 && y * (u * u) >= 0.0;
      assert x * (v * v) == x * v * v && y * (u * u) == y * u * u;
    }
    var w := (u * v) * (u * v);
    SquareNonNegative(u * v);
    assert p * p == 4.0 * (s * s) * w;
    assert (s * s) * w <= (x * y) * w;
    SquareNonNegative(x * v * v - y * u * u);
    assert (x * v * v) * (y * u * u) == (x * y) * w;
    SumSquare(x * v * v, y * u * u);
    RootOrder(p, q);
  }

  lemma SumSquare(g: real, h: real)
    ensures (g + h) * (g + h) == (g - h) * (g - h) + 4.0 * (g * h)
  {
  }

  lemma ProductStep(s: real, x: real, y: real, u: real, v: real, s': real, x': real, y': real)
    requires x >= 0.0 && y >= 0.0 && Within(s, x, y)
    requires s' == u * v + s && x' == u * u + x && y' == v * v + y
    ensures Within(s', x', y')
  {
    CrossTerm(s, x, y, u, v);
    assert (u * v + s) * (u * v + s) == (u * v) * (u * v) + 2.0 * s * u * v + s * s;
    assert (u * u + x) * (v * v + y) == (u * v) * (u * v) + (x * v * v + y * u * u) + x * y;
  }

  lemma {:induction false} CauchySchwarz(a: seq<real>, b: seq<real>, ma: real, mb: real)
    requires |a| == |b|
    ensures Within(Moment(a, b, ma, mb), Moment(a, a, ma, ma), Moment(b, b, mb, mb))
  {
    if a != [] {
      hide Moment, Within;
      CauchySchwarz(a[1..], b[1..], ma, mb);
      MomentNonNegative(a[1..], ma);
      MomentNonNegative(b[1..], mb);
      var u, v := a[0] - ma, b[0] - mb;
      MomentStep(a, b, ma, mb, u, v);
      MomentStep(a, a, ma, ma, u, u);
      MomentStep(b, b, mb, mb, v, v);
      ProductStep(Moment(a[1..], b[1..], ma, mb), Moment(a[1..], a[1..], ma, ma), Moment(b[1..], b[1..], mb, mb), u, v,
                  Moment(a, b, ma, mb), Moment(a, a, ma, ma), Moment(b, b, mb, mb));
    }
  }

  lemma MomentStep(a: seq<real>, b: seq<real>, ma: real, mb: real, u: real, v: real)
    requires |a| == |b| > 0 && u == a[0] - ma && v == b[0] - mb
    ensures Moment(a, b, ma, mb) == u * v + Moment(a[1..], b[1..], ma, mb)
  {
  }

  lemma Scaled(t: real, q: real)
    requires q > 0.0
    ensures t > 1.0 ==> t * q > q
    ensures t < -1.0 ==> t * q < -q
  {
    if t > 1.0 { ProductPositive(t - 1.0, q); }
    if t < -1.0 { ProductPositive(-1.0 - t, q); }
  }

  lemma QuotientBound(p: real, q: real)
    requires q > 0.0 && -q <= p <= q
    ensures -1.0 <= p / q <= 1.0
  {
    Scaled(p / q, q);
    assert (p / q) * q == p;
  }

  lemma CoefficientBounded(sqrt: real -> real, cov: real, va: real, vb: real)
    requires IsSqrt(sqrt) && Within(cov, va, vb)
    ensures -1.0 <= Coefficient(sqrt, cov, va, vb) <= 1.0
  {
    hide IsSqrt, Within;
    if va > 0.0 && vb > 0.0 {
      ProductPositive(va, vb);
      SqrtAt(sqrt, va * vb);
      RootBound(cov, va, vb, va * vb, sqrt(va * vb));
    }
  }

  /** The coefficient of any two series lies between -1 and 1. */
  lemma PearsonBounded(sqrt: real -> real, a: seq<real>, b: seq<real>)
    requires IsSqrt(sqrt)
    ensures -1.0 <= Pearson(sqrt, a, b) <= 1.0
  {
    hide IsSqrt, Within, Moment, Coefficient;
    if |a| == |b| && |a| >= 2 {
      var ma, mb := Mean(a), Mean(b);
      CauchySchwarz(a, b, ma, mb);
      CoefficientBounded(sqrt, Moment(a, b, ma, mb), Moment(a, a, ma, ma), Moment(b, b, mb, mb));
    }
  }

  lemma SqrtAt(sqrt: real -> real, x: real)
    requires IsSqrt(sqrt) && x >= 0.0
    ensures sqrt(x) >= 0.0 && sqrt(x) * sqrt(x) == x
  {
  }

  lemma RootBound(cov: real, va: real, vb: real, square: real, root: real)
    requires square == va * vb && square > 0.0 && root >= 0.0 && root * root == square && Within(cov, va, vb)
    ensures root > 0.0 && -1.0 <= cov / root <= 1.0
  {
    RootOrder(cov, root);
    assert root != 0.0;
    QuotientBound(cov, root);
  }

  // ---- Pairs of samples ----------------------------------------------------------------------------

  function Dot(a: seq<real>, b: seq<real>): real
    requires |a| == |b|
  {
    if a == [] then 0.0 else a[0] * b[0] + Dot(a[1..], b[1..])
  }

  /** How one pair of samples differs from each pair of two series: the sum of the products of the differences. */
  function Differences(x: real, y: real, a: seq<real>, b: seq<real>): real
    requires |a| == |b|
  {
    if a == [] then 0.0 else (x - a[0]) * (y - b[0]) + Differences(x, y, a[1..], b[1..])
  }

  /** The same for every sample of two series. */
  function PairSum(p: seq<real>, q: seq<real>, a: seq<real>, b: seq<real>): real
    requires |p| == |q| && |a| == |b|
  {
    if p == [] then 0.0 else Differences(p[0], q[0], a, b) + PairSum(p[1..], q[1..], a, b)
  }

  /** The sum of the products of differences from x and y, by the number of samples and their sums. */
  function Expanded(n: real, x: real, y: real, a: real, b: real, ab: real): real {
    n * (x * y) - x * b - y * a + ab
  }

  lemma ExpandedAdds(n: real, x: real, y: real, a: real, b: real, ab: real, m: real, c: real, d: real, cd: real)
    ensures Expanded(n, x, y, a, b, ab) + Expanded(m, x, y, c, d, cd) == Expanded(n + m, x, y, a + c, b + d, ab + cd)
  {
  }

  lemma OneExpands(x: real, y: real, u: real, v: real, uv: real)
    requires uv == u * v
    ensures (x - u) * (y - v) == Expanded(1.0, x, y, u, v, uv) && (u - x) * (v - y) == Expanded(1.0, x, y, u, v, uv)
  {
  }

  lemma SeriesStep(a: seq<real>, b: seq<real>) returns (ab: real)
    requires |a| == |b| > 0
    ensures Sum(a) == a[0] + Sum(a[1..]) && Sum(b) == b[0] + Sum(b[1..]) && |a| as real == |a[1..]| as real + 1.0
    ensures ab == a[0] * b[0] && Dot(a, b) == ab + Dot(a[1..], b[1..])
  {
    ab := a[0] * b[0];
  }

  lemma {:induction false} DifferencesExpand(x: real, y: real, a: seq<real>, b: seq<real>)
    requires |a| == |b|
    ensures Differences(x, y, a, b) == Expanded(|a| as real, x, y, Sum(a), Sum(b), Dot(a, b))
  {
    hide Expanded;
    if a == [] {
      NothingExpands(x, y);
    } else {
      hide Sum, Dot;
      DifferencesExpand(x, y, a[1..], b[1..]);
      var ab := SeriesStep(a, b);
      OneExpands(x, y, a[0], b[0], ab);
      ExpandedAdds(1.0, x, y, a[0], b[0], ab, |a[1..]| as real, Sum(a[1..]), Sum(b[1..]), Dot(a[1..], b[1..]));
    }
  }

  lemma NothingExpands(x: real, y: real)
    ensures Expanded(0.0, x, y, 0.0, 0.0, 0.0) == 0.0
  {
  }

  lemma {:induction false} MomentExpand(a: seq<real>, b: seq<real>, ma: real, mb: real)
    requires |a| == |b|
    ensures Moment(a, b, ma, mb) == Expanded(|a| as real, ma, mb, Sum(a), Sum(b), Dot(a, b))
  {
    hide Expanded;
    if a == [] {
      NothingExpands(ma, mb);
    } else {
      hide Sum, Dot;
      MomentExpand(a[1..], b[1..], ma, mb);
      var ab := SeriesStep(a, b);
      OneExpands(ma, mb, a[0], b[0], ab);
      ExpandedAdds(1.0, ma, mb, a[0], b[0], ab, |a[1..]| as real, Sum(a[1..]), Sum(b[1..]), Dot(a[1..], b[1..]));
    }
  }

  /** The sum over all pairs of two lists of samples, by the sizes and sums of both. */
  function PairsExpanded(n: real, a: real, b: real, ab: real, m: real, p: real, q: real, pq: real): real {
    n * pq - p * b - q * a + m * ab
  }

  lemma PairsAdd(n: real, a: real, b: real, ab: real, m: real, p: real, q: real, pq: real, x: real, y: real, xy: real)
    requires xy == x * y
    ensures Expanded(n, x, y, a, b, ab) + PairsExpanded(n, a, b, ab, m, p, q, pq)
         == PairsExpanded(n, a, b, ab, m + 1.0, x + p, y + q, xy + pq)
  {
  }

  lemma NoPairs(n: real, a: real, b: real, ab: real)
    ensures PairsExpanded(n, a, b, ab, 0.0, 0.0, 0.0, 0.0) == 0.0
  {
  }

  lemma {:induction false} PairSumExpand(p: seq<real>, q: seq<real>, a: seq<real>, b: seq<real>)
    requires |p| == |q| && |a| == |b|
    ensures PairSum(p, q, a, b)
         == PairsExpanded(|a| as real, Sum(a), Sum(b), Dot(a, b), |p| as real, Sum(p), Sum(q), Dot(p, q))
  {
    hide Expanded, PairsExpanded, Differences;
    if p == [] {
      NoPairs(|a| as real, Sum(a), Sum(b), Dot(a, b));
    } else {
      hide Sum, Dot;
      PairSumExpand(p[1..], q[1..], a, b);
      DifferencesExpand(p[0], q[0], a, b);
      var pq := SeriesStep(p, q);
      PairsAdd(|a| as real, Sum(a), Sum(b), Dot(a, b), |p[1..]| as real, Sum(p[1..]), Sum(q[1..]), Dot(p[1..], q[1..]),
               p[0], q[0], pq);
    }
  }

  /** The moment around the means, without means: twice the samples times it is the sum over all pairs. */
  lemma MomentByPairs(a: seq<real>, b: seq<real>)
    requires |a| == |b| > 0
    ensures PairSum(a, b, a, b) == 2.0 * (|a| as real) * Moment(a, b, Mean(a), Mean(b))
  {
    hide Moment, Sum, Dot, PairSum;
    PairSumExpand(a, b, a, b);
    MomentExpand(a, b, Mean(a), Mean(b));
    MeanTimes(a);
    MeanTimes(b);
    Centred(|a| as real, Mean(a), Mean(b), Sum(a), Sum(b), Dot(a, b));
    hide Mean, Expanded, PairsExpanded;
  }

  lemma MeanTimes(a: seq<real>)
    requires a != []
    ensures (|a| as real) * Mean(a) == Sum(a)
  {
  }

  lemma Centred(n: real, ma: real, mb: real, a: real, b: real, ab: real)
    requires n * ma == a && n * mb == b
    ensures PairsExpanded(n, a, b, ab, n, a, b, ab) == 2.0 * n * Expanded(n, ma, mb, a, b, ab)
  {
    assert n * (ma * b) == a * b;
    assert n * (mb * a) == b * a;
    assert n * (n * (ma * mb)) == (n * ma) * (n * mb);
  }

  // ---- The coefficient by its pairs, and its laws ----------------------------------------------------

  /** How two series vary together: over all pairs of samples, the sum of the products of the two differences. */
  function Together(a: seq<real>, b: seq<real>): real
    requires |a| == |b|
  {
    PairSum(a, b, a, b)
  }

  /** The root of the product of how each series varies by itself. */
  function Spread(sqrt: real -> real, a: seq<real>, b: seq<real>): real {
    sqrt(Together(a, a) * Together(b, b))
  }

  ghost predicate Varies(a: seq<real>) {
    exists i, j | 0 <= i < j < |a| :: a[i] != a[j]
  }

  function Square(x: real): real {
    x * x
  }

  lemma {:induction false} DifferencesOfSelf(x: real, a: seq<real>, k: nat)
    requires k < |a|
    ensures Differences(x, x, a, a) >= Square(x - a[k]) >= 0.0
  {
    SquareNonNegative(x - a[0]);
    if |a| == 1 {
      assert a[1..] == [];
    } else if k > 0 {
      DifferencesOfSelf(x, a[1..], k - 1);
    } else {
      DifferencesOfSelf(x, a[1..], 0);
    }
  }

  lemma {:induction false} PairsOfSelf(p: seq<real>, a: seq<real>, i: nat, k: nat)
    requires i < |p| && k < |a|
    ensures PairSum(p, p, a, a) >= Square(p[i] - a[k]) >= 0.0
  {
    hide Differences;
    DifferencesOfSelf(p[0], a, k);
    if |p| == 1 {
      assert p[1..] == [];
    } else {
      PairsOfSelf(p[1..], a, if i > 0 then i - 1 else 0, k);
    }
  }

  lemma {:induction false} FlatDifferences(x: real, a: seq<real>)
    requires forall k | 0 <= k < |a| :: a[k] == x
    ensures Differences(x, x, a, a) == 0.0
  {
    if a != [] { FlatDifferences(x, a[1..]); }
  }

  lemma {:induction false} FlatPairs(x: real, p: seq<real>, a: seq<real>)
    requires (forall k | 0 <= k < |a| :: a[k] == x) && forall k | 0 <= k < |p| :: p[k] == x
    ensures PairSum(p, p, a, a) == 0.0
  {
    if p != [] {
      FlatDifferences(x, a);
      FlatPairs(x, p[1..], a);
    }
  }

  lemma SquarePositive(x: real)
    requires x != 0.0
    ensures Square(x) > 0.0
  {
    var size := if x > 0.0 then x else -x;
    NegatedSquare(x);
    ProductIsPositive(size, size, Square(x));
  }

  lemma ProductIsPositive(x: real, y: real, product: real)
    requires x > 0.0 && y > 0.0 && product == x * y
    ensures product > 0.0
  {
  }

  /** A series varies together with itself exactly when its samples are not all equal. */
  lemma VariesTogether(a: seq<real>)
    ensures Together(a, a) >= 0.0 && (Together(a, a) > 0.0 <==> Varies(a))
  {
    hide PairSum, Square;
    if i, j :| 0 <= i < j < |a| && a[i] != a[j] {
      PairsOfSelf(a, a, i, j);
      SquarePositive(a[i] - a[j]);
    } else if a != [] {
      FlatPairs(a[0], a, a);
    } else {
      FlatPairs(0.0, a, a);
    }
  }

  lemma RootIsUnique(p: real, q: real)
    requires p >= 0.0 && q >= 0.0 && p * p == q * q
    ensures p == q
  {
    if p < q { SquaresGrow(p, q); }
    if q < p { SquaresGrow(q, p); }
  }

  lemma SquareOfProduct(x: real, y: real)
    ensures (x * y) * (x * y) == (x * x) * (y * y)
  {
  }

  /** The root of a scaled product. */
  lemma RootScales(sqrt: real -> real, c: real, x: real, scaled: real)
    requires IsSqrt(sqrt) && c >= 0.0 && x >= 0.0 && scaled == (c * c) * x
    ensures scaled >= 0.0 && sqrt(scaled) == c * sqrt(x)
  {
    hide IsSqrt;
    SquareNonNegative(c);
    ProductAtLeastZero(c * c, x);
    SqrtAt(sqrt, x);
    SqrtAt(sqrt, scaled);
    ProductAtLeastZero(c, sqrt(x));
    SquareOfProduct(c, sqrt(x));
    RootIsUnique(sqrt(scaled), c * sqrt(x));
  }

  lemma ProductAtLeastZero(x: real, y: real)
    requires x >= 0.0 && y >= 0.0
    ensures x * y >= 0.0
  {
  }

  lemma RootPositive(sqrt: real -> real, x: real)
    requires IsSqrt(sqrt) && x > 0.0
    ensures sqrt(x) > 0.0
  {
    SqrtAt(sqrt, x);
  }

  lemma ScaleCancels(m: real, va: real, vb: real)
    ensures (m * va) * (m * vb) == (m * m) * (va * vb)
  {
  }

  /** The coefficient, by pairs of samples alone: nothing without variation, and otherwise the share of the root. */
  lemma PearsonByPairs(sqrt: real -> real, a: seq<real>, b: seq<real>)
    requires IsSqrt(sqrt)
    ensures |a| != |b| ==> Pearson(sqrt, a, b) == 0.0
    ensures |a| == |b| && !(Varies(a) && Varies(b)) ==> Pearson(sqrt, a, b) == 0.0
    ensures |a| == |b| && Varies(a) && Varies(b) ==>
              Spread(sqrt, a, b) > 0.0 && Pearson(sqrt, a, b) * Spread(sqrt, a, b) == Together(a, b)
  {
    hide IsSqrt, Moment, Mean, PairSum;
    if |a| == |b| >= 2 {
      MomentByPairs(a, a);
      MomentByPairs(b, b);
      MomentByPairs(a, b);
      VariesTogether(a);
      VariesTogether(b);
      hide Varies;
      var m := 2.0 * (|a| as real);
      var va, vb, cov := Moment(a, a, Mean(a), Mean(a)), Moment(b, b, Mean(b), Mean(b)), Moment(a, b, Mean(a), Mean(b));
      PositiveShare(m, va);
      PositiveShare(m, vb);
      if va > 0.0 && vb > 0.0 {
        hide Together;
        ScaledCoefficient(sqrt, cov, va, vb, m, Together(a, b), Together(a, a) * Together(b, b));
      }
    }
  }

  lemma ScaledCoefficient(sqrt: real -> real, cov: real, va: real, vb: real, m: real, xy: real, square: real)
    requires IsSqrt(sqrt) && va > 0.0 && vb > 0.0 && m > 0.0 && square == (m * va) * (m * vb) && xy == m * cov
    ensures sqrt(square) > 0.0 && Coefficient(sqrt, cov, va, vb) * sqrt(square) == xy
  {
    ProductPositive(va, vb);
    RootPositive(sqrt, va * vb);
    ScaleCancels(m, va, vb);
    RootScales(sqrt, m, va * vb, square);
    hide IsSqrt;
    ShareOfRoot(cov, sqrt(va * vb), m);
  }

  lemma PositiveShare(m: real, v: real)
    requires m > 0.0
    ensures m * v > 0.0 <==> v > 0.0
  {
  }

  lemma ShareOfRoot(cov: real, root: real, m: real)
    requires root > 0.0 && m > 0.0
    ensures m * root > 0.0 && (cov / root) * (m * root) == m * cov
  {
    Quotient(cov, root);
    assert (cov / root) * (m * root) == m * ((cov / root) * root);
  }

  lemma Quotient(cov: real, root: real)
    requires root > 0.0
    ensures (cov / root) * root == cov
  {
  }

  /** A series that is another one scaled and shifted, sample by sample. */
  ghost predicate IsAffine(a: seq<real>, b: seq<real>, c: real, d: real) {
    |b| == |a| && forall i | 0 <= i < |a| :: b[i] == c * a[i] + d
  }

  lemma ScaledTerm(x: real, y: real, u: real, v: real, c: real, d: real, y': real, v': real, t: real, t': real)
    requires y' == c * y + d && v' == c * v + d && t == (x - u) * (y - v) && t' == (x - u) * (y' - v')
    ensures t' == c * t
  {
    assert y' - v' == c * (y - v);
  }

  lemma Distributes(c: real, x: real, y: real)
    ensures c * (x + y) == c * x + c * y
  {
  }

  lemma DifferenceTurn(x: real, y: real, a: seq<real>, b: seq<real>) returns (t: real)
    requires |a| == |b| > 0
    ensures t == (x - a[0]) * (y - b[0]) && Differences(x, y, a, b) == t + Differences(x, y, a[1..], b[1..])
  {
    t := (x - a[0]) * (y - b[0]);
  }

  lemma AffineParts(b: seq<real>, b': seq<real>, c: real, d: real)
    requires b != [] && IsAffine(b, b', c, d)
    ensures |b'| == |b| && b'[0] == c * b[0] + d && IsAffine(b[1..], b'[1..], c, d)
  {
  }

  lemma {:induction false} DifferencesScale(x: real, y: real, y': real, a: seq<real>, b: seq<real>, b': seq<real>, c: real,
                                            d: real)
    requires |a| == |b| == |b'| && IsAffine(b, b', c, d) && y' == c * y + d
    ensures Differences(x, y', a, b') == c * Differences(x, y, a, b)
  {
    hide IsAffine, Differences;
    if a == [] {
      NoDifferences(x, y, y', a, b, b', c);
    } else {
      AffineParts(b, b', c, d);
      DifferencesScale(x, y, y', a[1..], b[1..], b'[1..], c, d);
      var t := DifferenceTurn(x, y, a, b);
      var t' := DifferenceTurn(x, y', a, b');
      ScaledTerm(x, y, a[0], b[0], c, d, y', b'[0], t, t');
      Distributes(c, t, Differences(x, y, a[1..], b[1..]));
    }
  }

  lemma NoDifferences(x: real, y: real, y': real, a: seq<real>, b: seq<real>, b': seq<real>, c: real)
    requires |a| == |b| == |b'| == 0
    ensures Differences(x, y', a, b') == c * Differences(x, y, a, b)
  {
  }

  lemma {:induction false} PairsScale(p: seq<real>, q: seq<real>, q': seq<real>, a: seq<real>, b: seq<real>, b': seq<real>,
                                      c: real, d: real)
    requires |p| == |q| && |a| == |b| && IsAffine(b, b', c, d) && IsAffine(q, q', c, d)
    ensures PairSum(p, q', a, b') == c * PairSum(p, q, a, b)
  {
    hide Differences;
    if p != [] {
      PairsScale(p[1..], q[1..], q'[1..], a, b, b', c, d);
      DifferencesScale(p[0], q[0], q'[0], a, b, b', c, d);
      Distributes(c, Differences(p[0], q[0], a, b), PairSum(p[1..], q[1..], a, b));
    }
  }

  lemma {:induction false} DifferencesCommute(x: real, y: real, a: seq<real>, b: seq<real>)
    requires |a| == |b|
    ensures Differences(x, y, a, b) == Differences(y, x, b, a)
  {
    if a != [] { DifferencesCommute(x, y, a[1..], b[1..]); }
  }

  lemma {:induction false} PairsCommute(p: seq<real>, q: seq<real>, a: seq<real>, b: seq<real>)
    requires |p| == |q| && |a| == |b|
    ensures PairSum(p, q, a, b) == PairSum(q, p, b, a)
  {
    hide Differences;
    if p != [] {
      DifferencesCommute(p[0], q[0], a, b);
      PairsCommute(p[1..], q[1..], a, b);
    }
  }

  lemma TogetherScales(a: seq<real>, b: seq<real>, b': seq<real>, c: real, d: real)
    requires |a| == |b| == |b'| && IsAffine(b, b', c, d)
    ensures Together(a, b') == c * Together(a, b) && Together(b', b') == (c * c) * Together(b, b)
  {
    hide PairSum, IsAffine;
    PairsScale(a, b, b', a, b, b', c, d);
    SelfScales(b, b', c, d);
    ScaledTwice(c, Together(b, b));
  }

  lemma SelfScales(b: seq<real>, b': seq<real>, c: real, d: real)
    requires |b| == |b'| && IsAffine(b, b', c, d)
    ensures Together(b', b') == c * (c * Together(b, b))
  {
    hide PairSum, IsAffine;
    PairsScale(b', b, b', b', b, b', c, d);
    PairsCommute(b', b, b', b);
    PairsScale(b, b, b', b, b, b', c, d);
  }

  lemma ScaledTwice(c: real, x: real)
    ensures c * (c * x) == (c * c) * x
  {
  }

  lemma PairsSwap(sqrt: real -> real, a: seq<real>, b: seq<real>)
    requires |a| == |b|
    ensures Together(a, b) == Together(b, a) && Spread(sqrt, a, b) == Spread(sqrt, b, a)
  {
    PairsCommute(a, b, a, b);
  }

  lemma SameShare(r: real, r': real, root: real)
    requires root > 0.0 && r * root == r' * root
    ensures r == r'
  {
    assert (r - r') * root == 0.0;
  }

  /** Which series comes first does not matter. */
  lemma PearsonCommutes(sqrt: real -> real, a: seq<real>, b: seq<real>)
    requires IsSqrt(sqrt)
    ensures Pearson(sqrt, a, b) == Pearson(sqrt, b, a)
  {
    hide IsSqrt, Pearson, Varies, Together, Spread;
    PearsonByPairs(sqrt, a, b);
    PearsonByPairs(sqrt, b, a);
    if |a| == |b| && Varies(a) && Varies(b) {
      PairsSwap(sqrt, a, b);
      SameShare(Pearson(sqrt, a, b), Pearson(sqrt, b, a), Spread(sqrt, a, b));
    }
  }

  lemma AffineVaries(a: seq<real>, b: seq<real>, c: real, d: real)
    requires IsAffine(a, b, c, d)
    ensures Varies(b) <==> c != 0.0 && Varies(a)
  {
    if i, j :| 0 <= i < j < |a| && a[i] != a[j] {
      if c != 0.0 {
        assert c * (a[i] - a[j]) == b[i] - b[j];
        assert b[i] != b[j];
      }
    }
  }

  lemma SpreadScales(sqrt: real -> real, a: seq<real>, b: seq<real>, b': seq<real>, c: real, d: real)
    requires IsSqrt(sqrt) && |a| == |b| == |b'| && IsAffine(b, b', c, d)
    ensures Spread(sqrt, a, b') == (if c > 0.0 then c else -c) * Spread(sqrt, a, b)
  {
    hide IsSqrt, Varies, Together, IsAffine;
    TogetherScales(a, b, b', c, d);
    VariesTogether(a);
    VariesTogether(b);
    RootOfScaled(sqrt, Together(a, a), Together(b, b), c, Together(b', b'), Together(a, a) * Together(b, b),
                 Together(a, a) * Together(b', b'), if c > 0.0 then c else -c);
  }

  lemma RootOfScaled(sqrt: real -> real, x: real, y: real, c: real, y': real, from: real, to: real, size: real)
    requires IsSqrt(sqrt) && x >= 0.0 && y >= 0.0 && y' == (c * c) * y && from == x * y && to == x * y'
    requires size == if c > 0.0 then c else -c
    ensures sqrt(to) == size * sqrt(from)
  {
    hide IsSqrt;
    ProductAtLeastZero(x, y);
    ProductRegroups(x, y, c, size, y');
    RootScales(sqrt, size, from, to);
  }

  lemma ProductRegroups(x: real, y: real, c: real, size: real, y': real)
    requires size == (if c > 0.0 then c else -c) && y' == (c * c) * y
    ensures x * y' == (size * size) * (x * y)
  {
    assert size * size == c * c;
    assert x * ((c * c) * y) == (c * c) * (x * y);
  }

  /** Shifting a series or scaling it up or down leaves the coefficient alone; turning it over turns the sign. */
  lemma PearsonScales(sqrt: real -> real, a: seq<real>, b: seq<real>, b': seq<real>, c: real, d: real)
    requires IsSqrt(sqrt) && IsAffine(b, b', c, d)
    ensures c > 0.0 ==> Pearson(sqrt, a, b') == Pearson(sqrt, a, b) && Pearson(sqrt, b', a) == Pearson(sqrt, b, a)
    ensures c < 0.0 ==> Pearson(sqrt, a, b') == -Pearson(sqrt, a, b) && Pearson(sqrt, b', a) == -Pearson(sqrt, b, a)
    ensures c == 0.0 ==> Pearson(sqrt, a, b') == 0.0 && Pearson(sqrt, b', a) == 0.0
  {
    hide IsSqrt, Pearson, Varies, Together, Spread;
    AffineVaries(b, b', c, d);
    PearsonByPairs(sqrt, a, b);
    PearsonByPairs(sqrt, a, b');
    PearsonCommutes(sqrt, a, b);
    PearsonCommutes(sqrt, a, b');
    if |a| == |b| && Varies(a) && Varies(b) && c != 0.0 {
      TogetherScales(a, b, b', c, d);
      SpreadScales(sqrt, a, b, b', c, d);
      SignedShare(Pearson(sqrt, a, b), Pearson(sqrt, a, b'), c, Spread(sqrt, a, b), Spread(sqrt, a, b'));
    }
  }

  lemma SignedShare(r: real, r': real, c: real, root: real, root': real)
    requires root' == (if c > 0.0 then c else -c) * root && root' > 0.0 && r' * root' == c * (r * root)
    ensures r' == if c > 0.0 then r else -r
  {
    Rearrange(r, c, root);
    SameShare(r', if c > 0.0 then r else -r, root');
  }

  lemma Rearrange(r: real, c: real, root: real)
    ensures r * (c * root) == c * (r * root) && (-r) * (-c * root) == c * (r * root)
  {
  }

  lemma SpreadOfSelf(sqrt: real -> real, a: seq<real>)
    requires IsSqrt(sqrt)
    ensures Spread(sqrt, a, a) == Together(a, a)
  {
    VariesTogether(a);
    hide Together, Varies;
    ProductAtLeastZero(Together(a, a), Together(a, a));
    SqrtAt(sqrt, Together(a, a) * Together(a, a));
    RootIsUnique(Spread(sqrt, a, a), Together(a, a));
  }

  lemma PearsonOfSelf(sqrt: real -> real, a: seq<real>)
    requires IsSqrt(sqrt) && Varies(a)
    ensures Pearson(sqrt, a, a) == 1.0
  {
    hide IsSqrt, Pearson, Varies, Together, Spread;
    PearsonByPairs(sqrt, a, a);
    SpreadOfSelf(sqrt, a);
    SameShare(Pearson(sqrt, a, a), 1.0, Spread(sqrt, a, a));
  }

  /** A series that follows another one exactly: one upwards, minus one downwards, nothing when either is flat. */
  lemma PearsonOfAffine(sqrt: real -> real, a: seq<real>, b: seq<real>, c: real, d: real)
    requires IsSqrt(sqrt) && IsAffine(a, b, c, d)
    ensures Varies(a) && c > 0.0 ==> Pearson(sqrt, a, b) == 1.0
    ensures Varies(a) && c < 0.0 ==> Pearson(sqrt, a, b) == -1.0
    ensures !Varies(a) || c == 0.0 ==> Pearson(sqrt, a, b) == 0.0
  {
    hide IsSqrt, Pearson, Varies, IsAffine;
    PearsonScales(sqrt, a, a, b, c, d);
    if Varies(a) {
      PearsonOfSelf(sqrt, a);
    } else {
      PearsonByPairs(sqrt, a, a);
    }
  }

  // ---- Lag search ----------------------------------------------------------------------------------

  /** The two stretches that a lag pairs up, by Python's slices. */
  function Overlap(a: seq<real>, b: seq<real>, lag: int): (seq<real>, seq<real>) {
    if lag >= 0 then (TakeOr(a, |a| - lag), Drop(b, lag)) else (Drop(a, -lag), Take(b, lag))
  }

  /** a[n:] for a non-negative n. */
  function Drop(a: seq<real>, n: nat): seq<real> {
    if n <= |a| then a[n..] else []
  }

  /** a[:n], where a negative n counts from the end. */
  function Take(a: seq<real>, n: int): seq<real> {
    if n >= 0 then (if n <= |a| then a[..n] else a)
    else if |a| + n >= 0 then a[..|a| + n] else []
  }

  /** a[:n or None]. */
  function TakeOr(a: seq<real>, n: int): seq<real> {
    if n == 0 then a else Take(a, n)
  }

  predicate IsUsable(a: seq<real>, b: seq<real>, lag: int) {
    |Overlap(a, b, lag).0| >= 10 && |Overlap(a, b, lag).1| >= 10
  }

  function Correlation(sqrt: real -> real, a: seq<real>, b: seq<real>, lag: int): real
    requires IsSqrt(sqrt)
  {
    Pearson(sqrt, Overlap(a, b, lag).0, Overlap(a, b, lag).1)
  }

  /**
   * Which lags leave ten samples on both sides. Python's slices leave the whole first series at a lag of its
   * length, and count from the end beyond that; with series of one length neither ever leaves a sample of the other.
   */
  lemma UsableLags(a: seq<real>, b: seq<real>, lag: int)
    ensures lag >= 0 ==>
              (IsUsable(a, b, lag) <==>
                 && |b| - lag >= 10
                 && (|a| - lag >= 10 || (lag == |a| && |a| >= 10) || (lag > |a| && 2 * |a| - lag >= 10)))
    ensures lag < 0 ==> (IsUsable(a, b, lag) <==> |a| + lag >= 10 && |b| + lag >= 10)
    ensures |a| == |b| ==> (IsUsable(a, b, lag) <==> |a| - (if lag >= 0 then lag else -lag) >= 10)
  {
  }

  /** What a lag pairs up: each sample of the one series with the other's so many samples later. */
  lemma OverlapPairs(a: seq<real>, b: seq<real>, lag: int)
    requires |a| == |b| && -|a| < lag < |a|
    ensures var (x, y) := Overlap(a, b, lag);
            var back, ahead := if lag < 0 then -lag else 0, if lag > 0 then lag else 0;
            && |x| == |y| == |a| - back - ahead
            && forall i | 0 <= i < |x| :: x[i] == a[i + back] && y[i] == b[i + ahead]
  {
  }

  /** The second series is the first one so many samples later, perhaps scaled up and shifted. */
  ghost predicate Delayed(a: seq<real>, b: seq<real>, lag: int, c: real, d: real) {
    c > 0.0 && |b| == |a| && forall t | 0 <= t < |a| && 0 <= t + lag < |b| :: b[t + lag] == c * a[t] + d
  }

  /** The samples that have a partner so many samples later are not all equal. */
  ghost predicate VariesWithin(a: seq<real>, lag: int) {
    exists t, u | 0 <= t < u < |a| :: 0 <= t + lag < |a| && 0 <= u + lag < |a| && a[t] != a[u]
  }

  lemma DelayedAt(a: seq<real>, b: seq<real>, lag: int, c: real, d: real, t: int)
    requires Delayed(a, b, lag, c, d) && 0 <= t < |a| && 0 <= t + lag < |b|
    ensures b[t + lag] == c * a[t] + d
  {
  }

  lemma OverlapIsAffine(a: seq<real>, b: seq<real>, lag: int, c: real, d: real)
    requires Delayed(a, b, lag, c, d) && |a| == |b| && -|a| < lag < |a|
    ensures IsAffine(Overlap(a, b, lag).0, Overlap(a, b, lag).1, c, d)
  {
    hide Delayed;
    OverlapPairs(a, b, lag);
    var (x, y) := Overlap(a, b, lag);
    hide Overlap;
    var back := if lag < 0 then -lag else 0;
    forall i | 0 <= i < |x| ensures y[i] == c * x[i] + d {
      DelayedAt(a, b, lag, c, d, i + back);
    }
  }

  lemma OverlapVaries(a: seq<real>, b: seq<real>, lag: int)
    requires VariesWithin(a, lag) && |a| == |b| && -|a| < lag < |a|
    ensures Varies(Overlap(a, b, lag).0)
  {
    hide Overlap, Varies;
    var t, u :| 0 <= t < u < |a| && 0 <= t + lag < |a| && 0 <= u + lag < |a| && a[t] != a[u];
    hide VariesWithin;
    OverlapPairs(a, b, lag);
    var back := if lag < 0 then -lag else 0;
    VariesAt(Overlap(a, b, lag).0, t - back, u - back);
  }

  lemma VariesAt(a: seq<real>, i: nat, j: nat)
    requires i < j < |a| && a[i] != a[j]
    ensures Varies(a)
  {
  }

  lemma DelayedCorrelates(sqrt: real -> real, a: seq<real>, b: seq<real>, lag: int, c: real, d: real)
    requires IsSqrt(sqrt) && Delayed(a, b, lag, c, d) && VariesWithin(a, lag)
    requires |a| - (if lag >= 0 then lag else -lag) >= 10
    ensures IsUsable(a, b, lag) && Correlation(sqrt, a, b, lag) == 1.0
  {
    assert |b| == |a| && c > 0.0;
    hide IsSqrt, Pearson, Overlap, Delayed, VariesWithin, IsAffine, Varies, IsUsable;
    UsableLags(a, b, lag);
    OverlapIsAffine(a, b, lag, c, d);
    OverlapVaries(a, b, lag);
    PearsonOfAffine(sqrt, Overlap(a, b, lag).0, Overlap(a, b, lag).1, c, d);
  }

  /**
   * The sentinel comes back exactly when no lag leaves ten samples on both sides; otherwise the
   * greatest correlation of all usable lags, at the smallest lag that attains it. A series that comes back
   * later is found: the correlation is one, at its delay or at a smaller lag.
   */
  method BestLag(sqrt: real -> real, a: seq<real>, b: seq<real>, maxLag: int) returns (lag: int, best: real)
    requires IsSqrt(sqrt)
    ensures (lag, best) == (0, -2.0) <==> forall k | -maxLag <= k <= maxLag :: !IsUsable(a, b, k)
    ensures best != -2.0 ==>
              && -maxLag <= lag <= maxLag && IsUsable(a, b, lag) && best == Correlation(sqrt, a, b, lag)
              && (forall k | -maxLag <= k <= maxLag && IsUsable(a, b, k) :: Correlation(sqrt, a, b, k) <= best)
              && (forall k | -maxLag <= k < lag && IsUsable(a, b, k) :: Correlation(sqrt, a, b, k) < best)
    ensures forall k, c, d | && -maxLag <= k <= maxLag && |a| - (if k >= 0 then k else -k) >= 10
                             && Delayed(a, b, k, c, d) && VariesWithin(a, k) ::
              best == 1.0 && lag <= k
  {
    hide Pearson, Overlap, IsSqrt, Delayed, VariesWithin;
    lag, best := 0, -2.0;
    if maxLag < 0 {
      return;
    }
    for k := -maxLag to maxLag + 1
      invariant best == -2.0 ==> lag == 0 && forall j | -maxLag <= j < k :: !IsUsable(a, b, j)
      invariant best != -2.0 ==>
                  && best >= -1.0
                  && -maxLag <= lag < k && IsUsable(a, b, lag) && best == Correlation(sqrt, a, b, lag)
                  && (forall j | -maxLag <= j < k && IsUsable(a, b, j) :: Correlation(sqrt, a, b, j) <= best)
                  && (forall j | -maxLag <= j < lag && IsUsable(a, b, j) :: Correlation(sqrt, a, b, j) < best)
    {
      var (segA, segB) := Overlap(a, b, k);
      if |segA| < 10 || |segB| < 10 {
        continue;
      }
      var r := Pearson(sqrt, segA, segB);
      PearsonBounded(sqrt, segA, segB);
      assert IsUsable(a, b, k) && r == Correlation(sqrt, a, b, k);
      if r > best {
        best, lag := r, k;
      }
    }
    if best != -2.0 {
      var (segA, segB) := Overlap(a, b, lag);
      PearsonBounded(sqrt, segA, segB);
    }
    forall k, c, d | && -maxLag <= k <= maxLag && |a| - (if k >= 0 then k else -k) >= 10
                     && Delayed(a, b, k, c, d) && VariesWithin(a, k)
      ensures best == 1.0 && lag <= k
    {
      DelayedCorrelates(sqrt, a, b, k, c, d);
    }
  }
}
