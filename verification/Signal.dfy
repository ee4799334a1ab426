/** The smoothing pipeline and the parameter sweep of analysis/grid_correlation.py over the reals. */
module Signal {
  import opened Wrappers
  import opened Correlation

  // ---- Smoothing ------------------------------------------------------------------------------------

  function Mix(alpha: real, x: real, y: real): real {
    alpha * x + (1.0 - alpha) * y
  }

  /** The filter's output, given its last output if there was one. */
  function EmaFrom(xs: seq<real>, alpha: real, prev: Option<real>): (out: seq<real>)
    ensures |out| == |xs|
    decreases |xs|
  {
    if xs == [] then []
    else
      var y := if prev.None? then xs[0] else Mix(alpha, xs[0], prev.value);
      [y] + EmaFrom(xs[1..], alpha, Some(y))
  }

  function Ema(xs: seq<real>, alpha: real): (out: seq<real>)
    ensures |out| == |xs|
  {
    EmaFrom(xs, alpha, None)
  }

  method EmaLoop(xs: seq<real>, alpha: real) returns (out: seq<real>)
    ensures out == Ema(xs, alpha)
  {
    out := [];
    var prev: Option<real> := None;
    assert xs[0..] == xs;
    for i := 0 to |xs|
      invariant out + EmaFrom(xs[i..], alpha, prev) == Ema(xs, alpha)
    {
      assert xs[i..][1..] == xs[i + 1..];
      var y := if prev.None? then xs[i] else Mix(alpha, xs[i], prev.value);
      assert out + ([y] + EmaFrom(xs[i + 1..], alpha, Some(y))) == (out + [y]) + EmaFrom(xs[i + 1..], alpha, Some(y));
      prev := Some(y);
      out := out + [y];
    }
  }

  lemma {:induction false} EmaMovesFrom(xs: seq<real>, alpha: real, prev: Option<real>, k: nat)
    requires k + 1 < |xs|
    ensures var out := EmaFrom(xs, alpha, prev); out[k + 1] == out[k] + alpha * (xs[k + 1] - out[k])
    decreases |xs|
  {
    var y := if prev.None? then xs[0] else Mix(alpha, xs[0], prev.value);
    var rest := EmaFrom(xs[1..], alpha, Some(y));
    assert EmaFrom(xs, alpha, prev) == [y] + rest;
    if k > 0 {
      hide Mix, EmaFrom;
      EmaMovesFrom(xs[1..], alpha, Some(y), k - 1);
    } else {
      MixMoves(alpha, xs[1], y);
    }
  }

  lemma MixMoves(alpha: real, x: real, y: real)
    ensures Mix(alpha, x, y) == y + alpha * (x - y)
  {
  }

  /** The filter starts at the first sample; from then on it moves by its share of the way to the next one. */
  lemma EmaMoves(xs: seq<real>, alpha: real)
    ensures xs != [] ==> Ema(xs, alpha)[0] == xs[0]
    ensures forall k | 0 <= k < |xs| - 1 ::
              Ema(xs, alpha)[k + 1] == Ema(xs, alpha)[k] + alpha * (xs[k + 1] - Ema(xs, alpha)[k])
  {
    forall k | 0 <= k < |xs| - 1
      ensures Ema(xs, alpha)[k + 1] == Ema(xs, alpha)[k] + alpha * (xs[k + 1] - Ema(xs, alpha)[k])
    {
      EmaMovesFrom(xs, alpha, None, k);
    }
  }

  /** Both series cut to the shorter one, sample by sample mixed. */
  function MixSeries(weight: real, xs: seq<real>, ys: seq<real>): (out: seq<real>)
    decreases |xs|
  {
    if xs == [] || ys == [] then [] else [Mix(weight, xs[0], ys[0])] + MixSeries(weight, xs[1..], ys[1..])
  }

  predicate InHull(xs: seq<real>, lo: real, hi: real) {
    forall i | 0 <= i < |xs| :: lo <= xs[i] <= hi
  }

  lemma MixInHull(alpha: real, x: real, y: real, lo: real, hi: real)
    requires 0.0 <= alpha <= 1.0 && lo <= x <= hi && lo <= y <= hi
    ensures lo <= Mix(alpha, x, y) <= hi
  {
    ProductNonNegative(alpha, x - lo);
    ProductNonNegative(1.0 - alpha, y - lo);
    ProductNonNegative(alpha, hi - x);
    ProductNonNegative(1.0 - alpha, hi - y);
    assert Mix(alpha, x, y) - lo == alpha * (x - lo) + (1.0 - alpha) * (y - lo);
    assert hi - Mix(alpha, x, y) == alpha * (hi - x) + (1.0 - alpha) * (hi - y);
  }

  lemma ProductNonNegative(x: real, y: real)
    requires x >= 0.0 && y >= 0.0
    ensures x * y >= 0.0
  {
  }

  lemma {:induction false} EmaInHull(xs: seq<real>, alpha: real, prev: Option<real>, lo: real, hi: real)
    requires 0.0 <= alpha <= 1.0 && InHull(xs, lo, hi) && (prev.Some? ==> lo <= prev.value <= hi)
    ensures InHull(EmaFrom(xs, alpha, prev), lo, hi)
    decreases |xs|
  {
    hide Mix;
    if xs != [] {
      var y := if prev.None? then xs[0] else Mix(alpha, xs[0], prev.value);
      if prev.Some? { MixInHull(alpha, xs[0], prev.value, lo, hi); }
      EmaInHull(xs[1..], alpha, Some(y), lo, hi);
    }
  }

  lemma {:induction false} MixSeriesInHull(weight: real, xs: seq<real>, ys: seq<real>, lo: real, hi: real)
    requires 0.0 <= weight <= 1.0 && InHull(xs, lo, hi) && InHull(ys, lo, hi)
    ensures InHull(MixSeries(weight, xs, ys), lo, hi)
    decreases |xs|
  {
    hide Mix;
    if xs != [] && ys != [] {
      MixInHull(weight, xs[0], ys[0], lo, hi);
      MixSeriesInHull(weight, xs[1..], ys[1..], lo, hi);
    }
  }

  // ---- Total variation ---------------------------------------------------------------------------

  function Abs(x: real): real {
    if x >= 0.0 then x else -x
  }

  /** The sum of the distances between neighbours, and to a value in front of the first if there is one. */
  function VariationFrom(xs: seq<real>, prev: Option<real>): (v: real)
    ensures v >= 0.0
    decreases |xs|
  {
    if xs == [] then 0.0
    else (if prev.Some? then Abs(xs[0] - prev.value) else 0.0) + VariationFrom(xs[1..], Some(xs[0]))
  }

  function Variation(xs: seq<real>): real {
    VariationFrom(xs, None)
  }

  lemma AbsScaled(c: real, x: real)
    requires c >= 0.0
    ensures Abs(c * x) == c * Abs(x)
  {
    if x >= 0.0 { ProductNonNegative(c, x); } else { ProductNonNegative(c, -x); assert c * (-x) == -(c * x); }
  }

  lemma AbsTriangle(x: real, y: real)
    ensures Abs(x + y) <= Abs(x) + Abs(y)
  {
  }

  /** Where the filter's last output was y and its last input x, the step of the output is paid for. */
  lemma EmaStep(alpha: real, x: real, y: real, x': real)
    requires 0.0 <= alpha <= 1.0
    ensures var y' := Mix(alpha, x', y);
            Abs(y' - y) + Abs(x' - y') <= Abs(x' - x) + Abs(x - y)
  {
    var y' := Mix(alpha, x', y);
    assert y' - y == alpha * (x' - y);
    assert x' - y' == (1.0 - alpha) * (x' - y);
    AbsScaled(alpha, x' - y);
    AbsScaled(1.0 - alpha, x' - y);
    assert alpha * Abs(x' - y) + (1.0 - alpha) * Abs(x' - y) == Abs(x' - y);
    AbsTriangle(x' - x, x - y);
  }

  lemma {:induction false} EmaVariationFrom(xs: seq<real>, alpha: real, x: real, y: real)
    requires 0.0 <= alpha <= 1.0
    ensures VariationFrom(EmaFrom(xs, alpha, Some(y)), Some(y)) <= VariationFrom(xs, Some(x)) + Abs(x - y)
    decreases |xs|
  {
    hide Mix;
    if xs != [] {
      var y' := Mix(alpha, xs[0], y);
      EmaStep(alpha, x, y, xs[0]);
      EmaVariationFrom(xs[1..], alpha, xs[0], y');
      assert EmaFrom(xs, alpha, Some(y))[1..] == EmaFrom(xs[1..], alpha, Some(y'));
    }
  }

  /** Smoothing never makes a series rougher. */
  lemma EmaVariation(xs: seq<real>, alpha: real)
    requires 0.0 <= alpha <= 1.0
    ensures Variation(Ema(xs, alpha)) <= Variation(xs)
  {
    if xs != [] {
      EmaVariationFrom(xs[1..], alpha, xs[0], xs[0]);
      assert Ema(xs, alpha)[1..] == EmaFrom(xs[1..], alpha, Some(xs[0]));
    }
  }

  lemma MixStep(w: real, x: real, y: real, x': real, y': real)
    requires 0.0 <= w <= 1.0
    ensures Abs(Mix(w, x', y') - Mix(w, x, y)) <= Mix(w, Abs(x' - x), Abs(y' - y))
  {
    assert Mix(w, x', y') - Mix(w, x, y) == w * (x' - x) + (1.0 - w) * (y' - y);
    AbsScaled(w, x' - x);
    AbsScaled(1.0 - w, y' - y);
    AbsTriangle(w * (x' - x), (1.0 - w) * (y' - y));
  }

  lemma MixAdds(w: real, a: real, b: real, c: real, d: real)
    ensures Mix(w, a + c, b + d) == Mix(w, a, b) + Mix(w, c, d)
  {
  }

  lemma MixNonNegative(w: real, a: real, b: real)
    requires 0.0 <= w <= 1.0 && a >= 0.0 && b >= 0.0
    ensures Mix(w, a, b) >= 0.0
  {
    ProductNonNegative(w, a);
    ProductNonNegative(1.0 - w, b);
  }

  lemma {:induction false} MixVariationFrom(w: real, xs: seq<real>, ys: seq<real>, x: real, y: real)
    requires 0.0 <= w <= 1.0
    ensures VariationFrom(MixSeries(w, xs, ys), Some(Mix(w, x, y)))
         <= Mix(w, VariationFrom(xs, Some(x)), VariationFrom(ys, Some(y)))
    decreases |xs|
  {
    hide Mix, Abs;
    if xs == [] || ys == [] {
      MixNonNegative(w, VariationFrom(xs, Some(x)), VariationFrom(ys, Some(y)));
    } else {
      MixStep(w, x, y, xs[0], ys[0]);
      MixVariationFrom(w, xs[1..], ys[1..], xs[0], ys[0]);
      MixAdds(w, Abs(xs[0] - x), Abs(ys[0] - y), VariationFrom(xs[1..], Some(xs[0])), VariationFrom(ys[1..], Some(ys[0])));
    }
  }

  lemma MixVariation(w: real, xs: seq<real>, ys: seq<real>)
    requires 0.0 <= w <= 1.0
    ensures Variation(MixSeries(w, xs, ys)) <= Mix(w, Variation(xs), Variation(ys))
  {
    hide Mix;
    if xs == [] || ys == [] {
      MixNonNegative(w, Variation(xs), Variation(ys));
    } else {
      MixVariationFrom(w, xs[1..], ys[1..], xs[0], ys[0]);
    }
  }

  // ---- The blend -----------------------------------------------------------------------------------

  /** The first stage: the derived series filtered, then mixed with the raw one. */
  function FirstStage(raw: seq<real>, derived: seq<real>, weight: real, derivedAlpha: real): seq<real> {
    MixSeries(weight, Ema(derived, derivedAlpha), raw)
  }

  lemma {:induction false} MixSeriesAt(weight: real, xs: seq<real>, ys: seq<real>)
    ensures |MixSeries(weight, xs, ys)| == if |xs| < |ys| then |xs| else |ys|
    ensures forall i | 0 <= i < |MixSeries(weight, xs, ys)| ::
              MixSeries(weight, xs, ys)[i] == weight * xs[i] + (1.0 - weight) * ys[i]
    decreases |xs|
  {
    if xs != [] && ys != [] { MixSeriesAt(weight, xs[1..], ys[1..]); }
  }

  /** Each sample of the blend: the weight's share of the filtered derived series, the rest of the raw one. */
  lemma FirstStageIs(raw: seq<real>, derived: seq<real>, weight: real, derivedAlpha: real)
    ensures var blended, filtered := FirstStage(raw, derived, weight, derivedAlpha), Ema(derived, derivedAlpha);
            && |blended| == (if |derived| < |raw| then |derived| else |raw|)
            && forall i | 0 <= i < |blended| :: blended[i] == weight * filtered[i] + (1.0 - weight) * raw[i]
  {
    MixSeriesAt(weight, Ema(derived, derivedAlpha), raw);
  }

  function Simulate(raw: seq<real>, derived: seq<real>, weight: real, derivedAlpha: real, emaAlpha: real): seq<real> {
    Ema(FirstStage(raw, derived, weight, derivedAlpha), emaAlpha)
  }

  /** Both stages of the first blend in one pass over the pairs of samples. */
  method FirstStageBlend(raw: seq<real>, derived: seq<real>, weight: real, derivedAlpha: real) returns (blended: seq<real>)
    ensures blended == FirstStage(raw, derived, weight, derivedAlpha)
  {
    hide Mix;
    blended := [];
    var filtered: Option<real> := None;
    var n := if |raw| < |derived| then |raw| else |derived|;
    assert raw[0..] == raw && derived[0..] == derived;
    for i := 0 to n
      invariant blended + MixSeries(weight, EmaFrom(derived[i..], derivedAlpha, filtered), raw[i..])
             == FirstStage(raw, derived, weight, derivedAlpha)
    {
      assert raw[i..][1..] == raw[i + 1..] && derived[i..][1..] == derived[i + 1..];
      var fd := if filtered.None? then derived[i] else Mix(derivedAlpha, derived[i], filtered.value);
      BlendTurn(blended, weight, derived[i..], derivedAlpha, filtered, raw[i..], fd);
      filtered := Some(fd);
      blended := blended + [Mix(weight, fd, raw[i])];
    }
    assert blended + [] == blended;
  }

  lemma BlendTurn(done: seq<real>, weight: real, derived: seq<real>, alpha: real, filtered: Option<real>,
                  raw: seq<real>, fd: real)
    requires derived != [] && raw != []
    requires fd == if filtered.None? then derived[0] else Mix(alpha, derived[0], filtered.value)
    ensures done + MixSeries(weight, EmaFrom(derived, alpha, filtered), raw)
         == (done + [Mix(weight, fd, raw[0])]) + MixSeries(weight, EmaFrom(derived[1..], alpha, Some(fd)), raw[1..])
  {
    hide Mix;
    var out, rest := EmaFrom(derived, alpha, filtered), EmaFrom(derived[1..], alpha, Some(fd));
    assert out[0] == fd && out[1..] == rest;
    var tail := MixSeries(weight, rest, raw[1..]);
    assert done + ([Mix(weight, fd, raw[0])] + tail) == (done + [Mix(weight, fd, raw[0])]) + tail;
  }

  /**
   * With coefficients between 0 and 1, the output stays between the smallest and the greatest input
   * sample, and it is no rougher than the weighted inputs.
   */
  lemma BlendIsTame(raw: seq<real>, derived: seq<real>, weight: real, derivedAlpha: real, emaAlpha: real, lo: real, hi: real)
    requires 0.0 <= weight <= 1.0 && 0.0 <= derivedAlpha <= 1.0 && 0.0 <= emaAlpha <= 1.0
    requires InHull(raw, lo, hi) && InHull(derived, lo, hi)
    ensures InHull(Simulate(raw, derived, weight, derivedAlpha, emaAlpha), lo, hi)
    ensures Variation(Simulate(raw, derived, weight, derivedAlpha, emaAlpha))
         <= weight * Variation(derived) + (1.0 - weight) * Variation(raw)
  {
    hide InHull, Variation;
    var filtered := Ema(derived, derivedAlpha);
    EmaInHull(derived, derivedAlpha, None, lo, hi);
    MixSeriesInHull(weight, filtered, raw, lo, hi);
    EmaInHull(FirstStage(raw, derived, weight, derivedAlpha), emaAlpha, None, lo, hi);
    EmaVariation(FirstStage(raw, derived, weight, derivedAlpha), emaAlpha);
    MixVariation(weight, filtered, raw);
    EmaVariation(derived, derivedAlpha);
    MixGrows(weight, Variation(filtered), Variation(derived), Variation(raw));
  }

  lemma MixGrows(w: real, a: real, b: real, c: real)
    requires 0.0 <= w && a <= b
    ensures Mix(w, a, c) <= Mix(w, b, c)
  {
    ProductNonNegative(w, b - a);
    assert w * (b - a) == w * b - w * a;
  }

  // ---- The sweep -----------------------------------------------------------------------------------

  const NEAR_ZERO_W := 100.0

  function CountNearZero(xs: seq<real>): (n: nat)
    ensures n <= |xs|
  {
    if xs == [] then 0 else (if Abs(xs[0]) <= NEAR_ZERO_W then 1 else 0) + CountNearZero(xs[1..])
  }

  function NearZeroPct(xs: seq<real>): real {
    if xs == [] then 0.0 else 100.0 * (CountNearZero(xs) as real) / (|xs| as real)
  }

  function Stddev(sqrt: real -> real, xs: seq<real>): real {
    if |xs| < 2 then 0.0 else sqrt(Moment(xs, xs, Mean(xs), Mean(xs)) / ((|xs| - 1) as real))
  }

  ghost function NearZeroAt(xs: seq<real>): set<int> {
    set i | 0 <= i < |xs| && -100.0 <= xs[i] <= 100.0
  }

  lemma NearZeroGrows(xs: seq<real>, last: real)
    ensures NearZeroAt(xs + [last]) == NearZeroAt(xs) + if -100.0 <= last <= 100.0 then {|xs|} else {}
  {
  }

  lemma {:induction false} NearZeroCounted(xs: seq<real>)
    ensures CountNearZero(xs) == |NearZeroAt(xs)|
  {
    if xs != [] {
      var front, last := xs[..|xs| - 1], xs[|xs| - 1];
      NearZeroCounted(front);
      CountsJoin(front, last);
      NearZeroGrows(front, last);
      assert |front| !in NearZeroAt(front);
      assert xs == front + [last];
      hide CountNearZero, NearZeroAt;
    }
  }

  lemma {:induction false} CountsJoin(xs: seq<real>, last: real)
    ensures CountNearZero(xs + [last]) == CountNearZero(xs) + if -100.0 <= last <= 100.0 then 1 else 0
  {
    if xs == [] {
      assert ([last])[1..] == [];
    } else {
      assert (xs + [last])[1..] == xs[1..] + [last];
      CountsJoin(xs[1..], last);
    }
  }

  /** The near-zero share: the samples within the band in a hundred. */
  lemma NearZeroShare(xs: seq<real>)
    ensures NearZeroPct(xs) * (|xs| as real) == 100.0 * (|NearZeroAt(xs)| as real) && (xs == [] ==> NearZeroPct(xs) == 0.0)
  {
    NearZeroCounted(xs);
    if xs == [] { assert NearZeroAt(xs) == {}; }
  }

  /** The deviation, without a mean: its square is half the mean square difference of the pairs of samples. */
  lemma StddevByPairs(sqrt: real -> real, xs: seq<real>)
    requires IsSqrt(sqrt)
    ensures |xs| < 2 ==> Stddev(sqrt, xs) == 0.0
    ensures |xs| >= 2 ==>
              && Stddev(sqrt, xs) >= 0.0
              && 2.0 * (|xs| as real) * ((|xs| - 1) as real) * Square(Stddev(sqrt, xs)) == Together(xs, xs)
  {
    if |xs| >= 2 {
      hide IsSqrt, Moment, Mean, PairSum, Together;
      var m := Moment(xs, xs, Mean(xs), Mean(xs));
      MomentNonNegative(xs, Mean(xs));
      MomentAsPairs(xs);
      var n, less := |xs| as real, (|xs| - 1) as real;
      QuotientNonNegative(m, less);
      SqrtAt(sqrt, m / less);
      SquareAsShare(n, less, m, Square(Stddev(sqrt, xs)));
    }
  }

  lemma MomentAsPairs(xs: seq<real>)
    requires xs != []
    ensures Together(xs, xs) == 2.0 * (|xs| as real) * Moment(xs, xs, Mean(xs), Mean(xs))
  {
    MomentByPairs(xs, xs);
  }

  lemma QuotientNonNegative(m: real, n: real)
    requires m >= 0.0 && n > 0.0
    ensures m / n >= 0.0
  {
  }

  lemma SquareAsShare(n: real, less: real, m: real, square: real)
    requires less > 0.0 && square == m / less
    ensures 2.0 * n * less * square == 2.0 * n * m
  {
    assert less * square == m;
  }

  datatype Candidate = Candidate(weight: real, derivedAlpha: real, emaAlpha: real, nearZero: real, sigma: real)

  /** Python's order of the score pairs (near-zero share, minus sigma). */
  predicate Above(a: Candidate, b: Candidate) {
    a.nearZero > b.nearZero || (a.nearZero == b.nearZero && -a.sigma > -b.sigma)
  }

  /** A candidate with the metrics of simulating its own coefficients. */
  ghost predicate IsSimulated(sqrt: real -> real, raw: seq<real>, derived: seq<real>, c: Candidate) {
    var sim := Simulate(raw, derived, c.weight, c.derivedAlpha, c.emaAlpha);
    c.nearZero == NearZeroPct(sim) && c.sigma == Stddev(sqrt, sim)
  }

  function Scored(sqrt: real -> real, w: real, ad: real, ea: real, sim: seq<real>): Candidate {
    Candidate(w, ad, ea, NearZeroPct(sim), Stddev(sqrt, sim))
  }

  /** Every combination of coefficients, each with the metrics of its own simulation. */
  function AllCandidates(sqrt: real -> real, raw: seq<real>, derived: seq<real>,
                         ws: seq<real>, ads: seq<real>, eas: seq<real>): seq<Candidate>
  {
    if ws == [] then []
    else CandidatesFor(sqrt, raw, derived, ws[0], ads, eas) + AllCandidates(sqrt, raw, derived, ws[1..], ads, eas)
  }

  function CandidatesFor(sqrt: real -> real, raw: seq<real>, derived: seq<real>,
                         w: real, ads: seq<real>, eas: seq<real>): seq<Candidate>
  {
    if ads == [] then []
    else Row(sqrt, raw, derived, w, ads[0], eas) + CandidatesFor(sqrt, raw, derived, w, ads[1..], eas)
  }

  function Row(sqrt: real -> real, raw: seq<real>, derived: seq<real>, w: real, ad: real, eas: seq<real>): seq<Candidate> {
    seq(|eas|, i requires 0 <= i < |eas| => Scored(sqrt, w, ad, eas[i], Simulate(raw, derived, w, ad, eas[i])))
  }

  /** Exactly the combinations are listed, with the metrics of simulating their coefficients. */
  lemma {:induction false} CandidatesAre(sqrt: real -> real, raw: seq<real>, derived: seq<real>,
                                         ws: seq<real>, ads: seq<real>, eas: seq<real>, c: Candidate)
    ensures c in AllCandidates(sqrt, raw, derived, ws, ads, eas) <==>
              && c.weight in ws && c.derivedAlpha in ads && c.emaAlpha in eas && IsSimulated(sqrt, raw, derived, c)
  {
    hide Simulate, IsSimulated;
    if ws != [] {
      CandidatesAre(sqrt, raw, derived, ws[1..], ads, eas, c);
      CandidatesForAre(sqrt, raw, derived, ws[0], ads, eas, c);
      assert c.weight in ws <==> c.weight == ws[0] || c.weight in ws[1..];
    }
  }

  lemma {:induction false} CandidatesForAre(sqrt: real -> real, raw: seq<real>, derived: seq<real>,
                                            w: real, ads: seq<real>, eas: seq<real>, c: Candidate)
    ensures c in CandidatesFor(sqrt, raw, derived, w, ads, eas) <==>
              && c.weight == w && c.derivedAlpha in ads && c.emaAlpha in eas && IsSimulated(sqrt, raw, derived, c)
  {
    hide Simulate, IsSimulated;
    if ads != [] {
      CandidatesForAre(sqrt, raw, derived, w, ads[1..], eas, c);
      assert c.derivedAlpha in ads <==> c.derivedAlpha == ads[0] || c.derivedAlpha in ads[1..];
      RowIs(sqrt, raw, derived, w, ads[0], eas, c);
    }
  }

  lemma RowIs(sqrt: real -> real, raw: seq<real>, derived: seq<real>, w: real, ad: real, eas: seq<real>, c: Candidate)
    ensures c in Row(sqrt, raw, derived, w, ad, eas) <==>
              && c.weight == w && c.derivedAlpha == ad && c.emaAlpha in eas && IsSimulated(sqrt, raw, derived, c)
  {
    hide Simulate, NearZeroPct, Stddev;
    var row := Row(sqrt, raw, derived, w, ad, eas);
    if c.weight == w && c.derivedAlpha == ad && c.emaAlpha in eas && IsSimulated(sqrt, raw, derived, c) {
      var i :| 0 <= i < |eas| && eas[i] == c.emaAlpha;
      assert row[i] == c;
    }
  }

  predicate Ranked(cs: seq<Candidate>) {
    forall i, j | 0 <= i < j < |cs| :: !Above(cs[j], cs[i])
  }

  function InsertRanked(c: Candidate, cs: seq<Candidate>): (r: seq<Candidate>)
    ensures multiset(r) == multiset([c]) + multiset(cs)
  {
    if cs == [] || !Above(cs[0], c) then [c] + cs
    else
      assert cs == [cs[0]] + cs[1..];
      [cs[0]] + InsertRanked(c, cs[1..])
  }

  /** Python's stable sort by score, the best first. */
  function Rank(cs: seq<Candidate>): (r: seq<Candidate>)
    ensures multiset(r) == multiset(cs)
  {
    if cs == [] then []
    else
      assert cs == [cs[0]] + cs[1..];
      InsertRanked(cs[0], Rank(cs[1..]))
  }

  lemma {:induction false} InsertKeepsRanked(c: Candidate, cs: seq<Candidate>)
    requires Ranked(cs)
    ensures Ranked(InsertRanked(c, cs))
  {
    if cs != [] && Above(cs[0], c) {
      var rest := InsertRanked(c, cs[1..]);
      InsertKeepsRanked(c, cs[1..]);
      forall x | x in rest ensures !Above(x, cs[0]) {
        assert x in multiset(rest);
        assert x in multiset([c]) || x in multiset(cs[1..]);
        if x in cs[1..] {
          var i :| 0 <= i < |cs[1..]| && cs[1..][i] == x;
          assert cs[i + 1] == x;
        }
      }
    } else if cs != [] {
      forall x | x in cs ensures !Above(x, c) {
        var i :| 0 <= i < |cs| && cs[i] == x;
      }
    }
  }

  lemma {:induction false} RankIsRanked(cs: seq<Candidate>)
    ensures Ranked(Rank(cs))
  {
    if cs != [] {
      RankIsRanked(cs[1..]);
      InsertKeepsRanked(cs[0], Rank(cs[1..]));
    }
  }

  /** The candidates of one score, in their order. */
  function WithScore(cs: seq<Candidate>, nearZero: real, sigma: real): seq<Candidate> {
    if cs == [] then []
    else (if cs[0].nearZero == nearZero && cs[0].sigma == sigma then [cs[0]] else []) + WithScore(cs[1..], nearZero, sigma)
  }

  lemma {:induction false} InsertKeepsTies(c: Candidate, cs: seq<Candidate>, nearZero: real, sigma: real)
    ensures WithScore(InsertRanked(c, cs), nearZero, sigma) == WithScore([c] + cs, nearZero, sigma)
  {
    if cs != [] && Above(cs[0], c) {
      InsertKeepsTies(c, cs[1..], nearZero, sigma);
      assert ([c] + cs)[1..] == cs && ([c] + cs[1..])[1..] == cs[1..];
      assert ([cs[0]] + InsertRanked(c, cs[1..]))[1..] == InsertRanked(c, cs[1..]);
    }
  }

  /** Candidates of one score keep their order. */
  lemma {:induction false} RankKeepsTies(cs: seq<Candidate>, nearZero: real, sigma: real)
    ensures WithScore(Rank(cs), nearZero, sigma) == WithScore(cs, nearZero, sigma)
  {
    if cs != [] {
      RankKeepsTies(cs[1..], nearZero, sigma);
      InsertKeepsTies(cs[0], Rank(cs[1..]), nearZero, sigma);
      assert ([cs[0]] + Rank(cs[1..]))[1..] == Rank(cs[1..]);
    }
  }

  /** results[:n], also for a negative n. */
  function Top(cs: seq<Candidate>, n: int): seq<Candidate> {
    if n >= 0 then (if n <= |cs| then cs[..n] else cs)
    else if |cs| + n >= 0 then cs[..|cs| + n] else []
  }

  /** What is kept and what is dropped are all candidates together, and none dropped scores higher. */
  lemma KeptScoreHighest(cs: seq<Candidate>, n: int) returns (dropped: seq<Candidate>)
    ensures multiset(Top(Rank(cs), n)) + multiset(dropped) == multiset(cs)
    ensures forall k, d | k in Top(Rank(cs), n) && d in dropped ::
              d.nearZero <= k.nearZero && (d.nearZero == k.nearZero ==> d.sigma >= k.sigma)
    ensures n >= 0 ==> |Top(Rank(cs), n)| == if n <= |cs| then n else |cs|
    ensures n < 0 ==> |Top(Rank(cs), n)| == if |cs| + n >= 0 then |cs| + n else 0
  {
    hide Ranked, Rank, Above, Top;
    var ranked, kept := Rank(cs), Top(Rank(cs), n);
    RankIsRanked(cs);
    RankKeepsAll(cs);
    TopIsPrefix(ranked, n);
    dropped := ranked[|kept|..];
    assert ranked == kept + dropped;
    NoneDroppedAbove(ranked, |kept|);
  }

  lemma RankKeepsAll(cs: seq<Candidate>)
    ensures multiset(Rank(cs)) == multiset(cs) && |Rank(cs)| == |cs|
  {
    hide Rank;
    assert |multiset(Rank(cs))| == |multiset(cs)|;
  }

  lemma TopIsPrefix(cs: seq<Candidate>, n: int)
    ensures Top(cs, n) == cs[..|Top(cs, n)|]
    ensures n >= 0 ==> |Top(cs, n)| == if n <= |cs| then n else |cs|
    ensures n < 0 ==> |Top(cs, n)| == if |cs| + n >= 0 then |cs| + n else 0
  {
  }

  /** No candidate scores above one that is ranked before it. */
  lemma RankedScores(ranked: seq<Candidate>, i: nat, j: nat)
    requires Ranked(ranked) && i < j < |ranked|
    ensures var k, d := ranked[i], ranked[j];
            d.nearZero <= k.nearZero && (d.nearZero == k.nearZero ==> d.sigma >= k.sigma)
  {
  }

  lemma NoneDroppedAbove(ranked: seq<Candidate>, n: nat)
    requires n <= |ranked| && Ranked(ranked)
    ensures forall k, d | k in ranked[..n] && d in ranked[n..] ::
              d.nearZero <= k.nearZero && (d.nearZero == k.nearZero ==> d.sigma >= k.sigma)
  {
    hide Above, Ranked;
    var kept, dropped := ranked[..n], ranked[n..];
    forall k, d | k in kept && d in dropped
      ensures d.nearZero <= k.nearZero && (d.nearZero == k.nearZero ==> d.sigma >= k.sigma)
    {
      var i :| 0 <= i < |kept| && kept[i] == k;
      var j :| 0 <= j < |dropped| && dropped[j] == d;
      RankedScores(ranked, i, n + j);
    }
  }

  /** An empty list of coefficients stands for the default one. */
  function OrDefault(xs: seq<real>, fallback: seq<real>): seq<real> {
    if xs == [] then fallback else xs
  }

  const DEFAULT_WEIGHTS: seq<real> := seq(19, i requires 0 <= i < 19 => ((i + 1) as real) / 20.0)
  const DEFAULT_DERIVED_ALPHAS: seq<real> := [0.05, 0.1, 0.15, 0.2, 0.3]
  const DEFAULT_EMA_ALPHAS: seq<real> := [0.15, 0.2, 0.3, 0.4]

  /** What a sweep tries: the given coefficients, or for an empty list the usual ones, in every combination. */
  lemma SweepTries(sqrt: real -> real, raw: seq<real>, derived: seq<real>, weights: seq<real>, derivedAlphas: seq<real>,
                   emaAlphas: seq<real>, c: Candidate)
    ensures c in AllCandidates(sqrt, raw, derived, OrDefault(weights, DEFAULT_WEIGHTS),
                               OrDefault(derivedAlphas, DEFAULT_DERIVED_ALPHAS), OrDefault(emaAlphas, DEFAULT_EMA_ALPHAS)) <==>
              && (if weights == [] then
                    c.weight in [0.05, 0.1, 0.15, 0.2, 0.25, 0.3, 0.35, 0.4, 0.45, 0.5,
                                 0.55, 0.6, 0.65, 0.7, 0.75, 0.8, 0.85, 0.9, 0.95]
                  else c.weight in weights)
              && (if derivedAlphas == [] then c.derivedAlpha in [0.05, 0.1, 0.15, 0.2, 0.3] else c.derivedAlpha in derivedAlphas)
              && (if emaAlphas == [] then c.emaAlpha in [0.15, 0.2, 0.3, 0.4] else c.emaAlpha in emaAlphas)
              && IsSimulated(sqrt, raw, derived, c)
  {
    hide AllCandidates, IsSimulated;
    CandidatesAre(sqrt, raw, derived, OrDefault(weights, DEFAULT_WEIGHTS), OrDefault(derivedAlphas, DEFAULT_DERIVED_ALPHAS),
                  OrDefault(emaAlphas, DEFAULT_EMA_ALPHAS), c);
    UsualWeights();
  }

  lemma UsualWeights()
    ensures DEFAULT_WEIGHTS == [0.05, 0.1, 0.15, 0.2, 0.25, 0.3, 0.35, 0.4, 0.45, 0.5,
                                0.55, 0.6, 0.65, 0.7, 0.75, 0.8, 0.85, 0.9, 0.95]
  {
  }

  method Sweep(sqrt: real -> real, raw: seq<real>, derived: seq<real>, weights: seq<real>, derivedAlphas: seq<real>,
               emaAlphas: seq<real>, topN: int)
    returns (kept: seq<Candidate>)
    ensures kept == Top(Rank(AllCandidates(sqrt, raw, derived, OrDefault(weights, DEFAULT_WEIGHTS),
                                           OrDefault(derivedAlphas, DEFAULT_DERIVED_ALPHAS),
                                           OrDefault(emaAlphas, DEFAULT_EMA_ALPHAS))), topN)
  {
    hide FirstStage, Ema, NearZeroPct, Stddev, Scored, AllCandidates, CandidatesFor, Row;
    var ws := OrDefault(weights, DEFAULT_WEIGHTS);
    var ads := OrDefault(derivedAlphas, DEFAULT_DERIVED_ALPHAS);
    var eas := OrDefault(emaAlphas, DEFAULT_EMA_ALPHAS);
    var results := [];
    SweepStart(sqrt, raw, derived, ws, ads, eas);
    for i := 0 to |ws|
      invariant results + AllCandidates(sqrt, raw, derived, ws[i..], ads, eas)
             == AllCandidates(sqrt, raw, derived, ws, ads, eas)
    {
      ghost var atWeight := results;
      WeightTurn(sqrt, raw, derived, ws, ads, eas, i, results);
      for j := 0 to |ads|
        invariant results + CandidatesFor(sqrt, raw, derived, ws[i], ads[j..], eas)
               == atWeight + CandidatesFor(sqrt, raw, derived, ws[i], ads, eas)
      {
        ghost var atAlpha := results;
        AlphaTurn(sqrt, raw, derived, ws[i], ads, eas, j, results);
        var blended := FirstStageBlend(raw, derived, ws[i], ads[j]);
        for k := 0 to |eas|
          invariant results == atAlpha + Row(sqrt, raw, derived, ws[i], ads[j], eas[..k])
        {
          var sim := EmaLoop(blended, eas[k]);
          RowTurn(sqrt, raw, derived, ws[i], ads[j], eas, k, atAlpha, blended);
          results := results + [Scored(sqrt, ws[i], ads[j], eas[k], sim)];
        }
        assert eas[..|eas|] == eas;
      }
      AlphasDone(sqrt, raw, derived, ws[i], ads, eas, results);
    }
    WeightsDone(sqrt, raw, derived, ws, ads, eas, results);
    kept := Top(Rank(results), topN);
  }

  lemma SweepStart(sqrt: real -> real, raw: seq<real>, derived: seq<real>, ws: seq<real>, ads: seq<real>, eas: seq<real>)
    ensures [] + AllCandidates(sqrt, raw, derived, ws[0..], ads, eas) == AllCandidates(sqrt, raw, derived, ws, ads, eas)
  {
    assert ws[0..] == ws;
  }

  lemma WeightTurn(sqrt: real -> real, raw: seq<real>, derived: seq<real>, ws: seq<real>, ads: seq<real>, eas: seq<real>,
                   i: nat, done: seq<Candidate>)
    requires i < |ws|
    ensures done + AllCandidates(sqrt, raw, derived, ws[i..], ads, eas)
         == (done + CandidatesFor(sqrt, raw, derived, ws[i], ads, eas)) + AllCandidates(sqrt, raw, derived, ws[i + 1..], ads, eas)
    ensures done + CandidatesFor(sqrt, raw, derived, ws[i], ads[0..], eas)
         == done + CandidatesFor(sqrt, raw, derived, ws[i], ads, eas)
  {
    hide CandidatesFor;
    assert ws[i..][1..] == ws[i + 1..] && ads[0..] == ads;
  }

  lemma AlphaTurn(sqrt: real -> real, raw: seq<real>, derived: seq<real>, w: real, ads: seq<real>, eas: seq<real>,
                  j: nat, done: seq<Candidate>)
    requires j < |ads|
    ensures done + CandidatesFor(sqrt, raw, derived, w, ads[j..], eas)
         == (done + Row(sqrt, raw, derived, w, ads[j], eas)) + CandidatesFor(sqrt, raw, derived, w, ads[j + 1..], eas)
    ensures done == done + Row(sqrt, raw, derived, w, ads[j], eas[..0])
  {
    assert ads[j..][1..] == ads[j + 1..];
  }

  lemma RowTurn(sqrt: real -> real, raw: seq<real>, derived: seq<real>, w: real, ad: real, eas: seq<real>,
                k: nat, done: seq<Candidate>, blended: seq<real>)
    requires k < |eas| && blended == FirstStage(raw, derived, w, ad)
    ensures done + Row(sqrt, raw, derived, w, ad, eas[..k + 1])
         == (done + Row(sqrt, raw, derived, w, ad, eas[..k])) + [Scored(sqrt, w, ad, eas[k], Ema(blended, eas[k]))]
  {
  }

  lemma AlphasDone(sqrt: real -> real, raw: seq<real>, derived: seq<real>, w: real, ads: seq<real>, eas: seq<real>,
                   done: seq<Candidate>)
    ensures done + CandidatesFor(sqrt, raw, derived, w, ads[|ads|..], eas) == done
  {
  }

  lemma WeightsDone(sqrt: real -> real, raw: seq<real>, derived: seq<real>, ws: seq<real>, ads: seq<real>, eas: seq<real>,
                    done: seq<Candidate>)
    ensures done + AllCandidates(sqrt, raw, derived, ws[|ws|..], ads, eas) == done
  {
  }
}
