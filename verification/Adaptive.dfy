/** The adaptive layer: a smoothed latency that tightens the inner breaker's threshold.
    Ratios and averages are exact reals here. */
module Adaptive {
  import opened FailureRate

  datatype Tuning = Tuning(alpha: real, base: real, min: real, ceiling: int)

  /** What configuration validation guarantees for an adaptive stack. */
  predicate ValidTuning(t: Tuning) {
    0.0 < t.alpha <= 1.0 && 0.0 < t.min < t.base <= 1.0 && t.ceiling > 0
  }

  /** One smoothing step; zero doubles as "no sample yet". */
  function Smooth(alpha: real, ewma: real, latency: int): real {
    if ewma == 0.0 then latency as real else alpha * latency as real + (1.0 - alpha) * ewma
  }

  /** The average after the latencies `ls`, starting from `from`. */
  function Ewma(alpha: real, from: real, ls: seq<int>): real {
    if ls == [] then from else Smooth(alpha, Ewma(alpha, from, ls[..|ls| - 1]), ls[|ls| - 1])
  }

  /** Linear from `base` at the ceiling down to `min` at twice the ceiling. */
  function ThresholdFor(t: Tuning, ewma: real): real
    requires t.ceiling > 0
  {
    var c := t.ceiling as real;
    if ewma <= c then t.base else
    var ratio := (ewma - c) / c;
    t.base - (if ratio > 1.0 then 1.0 else ratio) * (t.base - t.min)
  }

  lemma ScaleMonotone(r: real, s: real, d: real)
    requires r <= s && d >= 0.0
    ensures d * r <= d * s
  {
  }

  lemma MixMonotone(p: real, q: real, x: real, x': real, y: real, y': real)
    requires 0.0 <= p && 0.0 <= q && x <= x' && y <= y'
    ensures p * x + q * y <= p * x' + q * y'
  {
    ScaleMonotone(x, x', p);
    ScaleMonotone(y, y', q);
  }

  lemma Weights(p: real, q: real, x: real)
    requires p + q == 1.0
    ensures p * x + q * x == x
  {
    calc {
      p * x + q * x;
      (p + q) * x;
      { assert p + q == 1.0; }
      1.0 * x;
      x;
    }
  }

  /** A weighted mean of two values stays between any bounds on both. */
  lemma Convex(p: real, q: real, x: real, y: real, lo: real, hi: real)
    requires 0.0 <= p && 0.0 <= q && p + q == 1.0
    requires lo <= x <= hi && lo <= y <= hi
    ensures lo <= p * x + q * y <= hi
  {
    MixMonotone(p, q, lo, x, lo, y);
    MixMonotone(p, q, x, hi, y, hi);
    Weights(p, q, lo);
    Weights(p, q, hi);
  }

  lemma SmoothBetween(alpha: real, e: real, l: int, lo: real, hi: real)
    requires 0.0 < alpha <= 1.0 && lo <= e <= hi && lo <= l as real <= hi
    ensures lo <= Smooth(alpha, e, l) <= hi
  {
    Convex(alpha, 1.0 - alpha, l as real, e, lo, hi);
  }

  /** The average lies between the least and the greatest latency seen since the reset,
      also when zero latencies re-arm the "no sample" case. */
  lemma {:induction false} EwmaWithinSamples(alpha: real, ls: seq<int>, lo: int, hi: int)
    requires 0.0 < alpha <= 1.0 && ls != []
    requires forall i | 0 <= i < |ls| :: lo <= ls[i] <= hi
    ensures lo as real <= Ewma(alpha, 0.0, ls) <= hi as real
  {
    var init, l := ls[..|ls| - 1], ls[|ls| - 1];
    if init != [] {
      EwmaWithinSamples(alpha, init, lo, hi);
      SmoothBetween(alpha, Ewma(alpha, 0.0, init), l, lo as real, hi as real);
    }
  }

  lemma RatioMonotone(x: real, y: real, c: real)
    requires x <= y && c > 0.0
    ensures (x - c) / c <= (y - c) / c
  {
  }

  /** The fraction of the band that a smoothed latency consumes. */
  function Tightening(t: Tuning, ewma: real): real
    requires t.ceiling > 0
  {
    var r := (ewma - t.ceiling as real) / t.ceiling as real;
    if r < 0.0 then 0.0 else if r > 1.0 then 1.0 else r
  }

  lemma ThresholdIsTightened(t: Tuning, ewma: real)
    requires ValidTuning(t)
    ensures ThresholdFor(t, ewma) == t.base - (t.base - t.min) * Tightening(t, ewma)
  {
    var c := t.ceiling as real;
    assert (c - c) / c == 0.0;
    if ewma <= c {
      RatioMonotone(ewma, c, c);
      assert Tightening(t, ewma) == 0.0;
      assert (t.base - t.min) * 0.0 == 0.0;
    } else {
      RatioMonotone(c, ewma, c);
    }
  }

  lemma BandMonotone(t: Tuning, r: real, s: real)
    requires ValidTuning(t) && 0.0 <= r <= s <= 1.0
    ensures 0.0 <= (t.base - t.min) * r <= (t.base - t.min) * s <= t.base - t.min
  {
    ScaleMonotone(0.0, r, t.base - t.min);
    ScaleMonotone(r, s, t.base - t.min);
    ScaleMonotone(s, 1.0, t.base - t.min);
  }

  /** The threshold stays within [min, base] and never rises with the smoothed latency. */
  lemma ThresholdAntitone(t: Tuning, e1: real, e2: real)
    requires ValidTuning(t) && e1 <= e2
    ensures t.min <= ThresholdFor(t, e2) <= ThresholdFor(t, e1) <= t.base
  {
    ThresholdIsTightened(t, e1);
    ThresholdIsTightened(t, e2);
    RatioMonotone(e1, e2, t.ceiling as real);
    BandMonotone(t, Tightening(t, e1), Tightening(t, e2));
  }

  /** A tuning that is lower throughout, from base threshold to ceiling. */
  predicate NoLaxer(a: Tuning, b: Tuning) {
    a.alpha == b.alpha && a.base <= b.base && a.min <= b.min && a.ceiling <= b.ceiling
  }

  lemma ScaleStrict(r: real, s: real, d: real)
    requires r < s && d > 0.0
    ensures d * r < d * s
  {
  }

  lemma RatioTimesCeiling(e: real, c: real)
    requires c > 0.0
    ensures c * ((e - c) / c + 1.0) == e
  {
    var y := (e - c) / c;
    assert c * y == e - c;
    assert c * (y + 1.0) == c * y + c;
  }

  lemma RatioAntitone(e: real, c: real, d: real)
    requires 0.0 < c <= d && 0.0 <= e
    ensures (e - d) / d <= (e - c) / c
  {
    var y, z := (e - d) / d + 1.0, (e - c) / c + 1.0;
    RatioTimesCeiling(e, d);
    RatioTimesCeiling(e, c);
    if y < 0.0 {
      ScaleStrict(y, 0.0, d);
    } else if z < y {
      ScaleStrict(z, y, c);
      ScaleMonotone(c, d, y);
    }
  }

  /** A lower ceiling tightens more. */
  lemma LowerCeilingTightensMore(a: Tuning, b: Tuning, e: real)
    requires ValidTuning(a) && ValidTuning(b) && a.ceiling <= b.ceiling
    ensures Tightening(a, e) >= Tightening(b, e)
  {
    if e >= 0.0 {
      RatioAntitone(e, a.ceiling as real, b.ceiling as real);
    } else {
      RatioMonotone(e, b.ceiling as real, b.ceiling as real);
    }
  }

  lemma MixIsTightened(p: real, q: real, base: real, min: real)
    requires p + q == 1.0
    ensures p * base + q * min == base - (base - min) * q
  {
    assert p == 1.0 - q;
  }

  /** At the same average a tuning that is lower throughout gives a threshold no higher. */
  lemma ThresholdMonotone(a: Tuning, b: Tuning, e: real)
    requires ValidTuning(a) && ValidTuning(b) && NoLaxer(a, b)
    ensures ThresholdFor(a, e) <= ThresholdFor(b, e)
  {
    ThresholdIsTightened(a, e);
    ThresholdIsTightened(b, e);
    LowerCeilingTightensMore(a, b, e);
    LowerBandIsLower(a.base, a.min, Tightening(a, e), b.base, b.min, Tightening(b, e));
  }

  lemma LowerBandIsLower(base: real, min: real, q: real, base': real, min': real, r: real)
    requires 0.0 <= r <= q <= 1.0 && base <= base' && min <= min' <= base'
    ensures base - (base - min) * q <= base' - (base' - min') * r
  {
    var p := 1.0 - q;
    MixIsTightened(p, q, base, min);
    MixIsTightened(p, q, base', min');
    MixMonotone(p, q, base, base', min, min');
    ScaleMonotone(r, q, base' - min');
  }

  function Pow(x: real, n: nat): real {
    if n == 0 then 1.0 else x * Pow(x, n - 1)
  }

  lemma Associate(x: real, y: real, z: real)
    ensures x * (y * z) == (x * y) * z
  {
  }

  function Excess(e: real, c: real): real {
    if e > c then e - c else 0.0
  }

  predicate SamplesAtMost(ls: seq<int>, c: real) {
    forall i | 0 <= i < |ls| :: 0 <= ls[i] && ls[i] as real <= c
  }

  /** The excess of the average over `c` after the latencies `ls`. */
  function ExcessAfter(alpha: real, from: real, ls: seq<int>, c: real): real {
    Excess(Ewma(alpha, from, ls), c)
  }

  /** What is left of `x` after `n` steps that each keep the fraction 1 - alpha. */
  function Decayed(alpha: real, x: real, n: nat): real {
    Pow(1.0 - alpha, n) * x
  }

  lemma NoDecayYet(alpha: real, x: real)
    ensures Decayed(alpha, x, 0) == x
  {
  }

  lemma DecayStep(alpha: real, x: real, n: nat, y: real)
    requires 0.0 < alpha <= 1.0 && n > 0 && y <= Decayed(alpha, x, n - 1)
    ensures (1.0 - alpha) * y <= Decayed(alpha, x, n)
  {
    ScaleMonotone(y, Decayed(alpha, x, n - 1), 1.0 - alpha);
    Associate(1.0 - alpha, Pow(1.0 - alpha, n - 1), x);
  }

  lemma LastSampleShrinks(alpha: real, from: real, ls: seq<int>, c: real, bound: real)
    requires 0.0 < alpha <= 1.0 && c >= 0.0 && ls != []
    requires 0 <= ls[|ls| - 1] && ls[|ls| - 1] as real <= c
    requires (1.0 - alpha) * ExcessAfter(alpha, from, ls[..|ls| - 1], c) <= bound
    ensures ExcessAfter(alpha, from, ls, c) <= bound
  {
    SmoothShrinksExcess(alpha, Ewma(alpha, from, ls[..|ls| - 1]), ls[|ls| - 1], c);
  }

  /** After n samples at most `c`, any excess of the average over `c` has shrunk by (1-alpha)^n. */
  lemma {:induction false} ExcessDecays(alpha: real, from: real, ls: seq<int>, c: real)
    requires 0.0 < alpha <= 1.0 && c >= 0.0 && SamplesAtMost(ls, c)
    ensures ExcessAfter(alpha, from, ls, c) <= Decayed(alpha, Excess(from, c), |ls|)
  {
    var x, n := Excess(from, c), |ls|;
    if ls == [] {
      NoDecayYet(alpha, x);
    } else {
      ExcessDecays(alpha, from, ls[..n - 1], c);
      assert |ls[..n - 1]| == n - 1;
      DecayStep(alpha, x, n, ExcessAfter(alpha, from, ls[..n - 1], c));
      LastSampleShrinks(alpha, from, ls, c, Decayed(alpha, x, n));
    }
  }

  // ---------- The exact average ----------

  predicate AllPositive(ls: seq<int>) {
    forall i | 0 <= i < |ls| :: ls[i] > 0
  }

  lemma MixPositive(p: real, q: real, x: real, y: real)
    requires p > 0.0 && q >= 0.0 && x > 0.0 && y > 0.0
    ensures p * x + q * y > 0.0
  {
    ScaleStrict(0.0, x, p);
    ScaleMonotone(0.0, y, q);
  }

  lemma {:induction false} EwmaPositive(alpha: real, from: real, ls: seq<int>)
    requires 0.0 < alpha <= 1.0 && AllPositive(ls) && (from > 0.0 || (from == 0.0 && ls != []))
    ensures Ewma(alpha, from, ls) > 0.0
  {
    if ls != [] {
      var init := ls[..|ls| - 1];
      if init != [] || from > 0.0 {
        EwmaPositive(alpha, from, init);
        MixPositive(alpha, 1.0 - alpha, ls[|ls| - 1] as real, Ewma(alpha, from, init));
      }
    }
  }

  /** One smoothing step from a positive average. */
  lemma EwmaStep(alpha: real, from: real, ls: seq<int>)
    requires 0.0 < alpha <= 1.0 && AllPositive(ls) && ls != []
    requires from > 0.0 || (from == 0.0 && |ls| > 1)
    ensures Ewma(alpha, from, ls) == alpha * ls[|ls| - 1] as real + (1.0 - alpha) * Ewma(alpha, from, ls[..|ls| - 1])
  {
    EwmaPositive(alpha, from, ls[..|ls| - 1]);
  }

  lemma DecaysBy(alpha: real, x: real, n: nat)
    requires n > 0
    ensures (1.0 - alpha) * Decayed(alpha, x, n - 1) == Decayed(alpha, x, n)
  {
    Associate(1.0 - alpha, Pow(1.0 - alpha, n - 1), x);
  }

  lemma MixAround(p: real, q: real, c: real, y: real)
    requires p + q == 1.0
    ensures p * c + q * (c + y) == c + q * y
  {
    calc {
      p * c + q * (c + y);
      { Distribute(q, c, y); }
      p * c + q * c + q * y;
      { Weights(p, q, c); }
      c + q * y;
    }
  }

  /** Samples that are all equal pull the average towards them by (1-alpha)^n of the distance. */
  lemma {:induction false} EwmaOfConstant(alpha: real, from: real, ls: seq<int>, c: int)
    requires 0.0 < alpha <= 1.0 && from > 0.0 && c > 0 && forall i | 0 <= i < |ls| :: ls[i] == c
    ensures Ewma(alpha, from, ls) == c as real + Decayed(alpha, from - c as real, |ls|)
  {
    var x, n := from - c as real, |ls|;
    if n == 0 {
      NoDecayYet(alpha, x);
    } else {
      EwmaOfConstant(alpha, from, ls[..n - 1], c);
      EwmaStep(alpha, from, ls);
      MixAround(alpha, 1.0 - alpha, c as real, Decayed(alpha, x, n - 1));
      DecaysBy(alpha, x, n);
    }
  }

  /** Contribution of sample `i` of `ls`: the first counts fully, a later one by alpha, and each decays with
      every sample after it. */
  function Share(alpha: real, ls: seq<int>, i: nat): real
    requires i < |ls|
  {
    Decayed(alpha, if i == 0 then ls[i] as real else alpha * ls[i] as real, |ls| - 1 - i)
  }

  /** The contributions of the first `m` samples. */
  function Shares(alpha: real, ls: seq<int>, m: nat): real
    requires m <= |ls|
  {
    if m == 0 then 0.0 else Shares(alpha, ls, m - 1) + Share(alpha, ls, m - 1)
  }

  lemma {:induction false} SharesDecay(alpha: real, ls: seq<int>, m: nat)
    requires m < |ls|
    ensures Shares(alpha, ls, m) == (1.0 - alpha) * Shares(alpha, ls[..|ls| - 1], m)
  {
    if m > 0 {
      var init := ls[..|ls| - 1];
      SharesDecay(alpha, ls, m - 1);
      var x := if m == 1 then ls[0] as real else alpha * ls[m - 1] as real;
      DecaysBy(alpha, x, |ls| - m);
      Distribute(1.0 - alpha, Shares(alpha, init, m - 1), Share(alpha, init, m - 1));
    }
  }

  /** The average since a reset is exactly the exponentially weighted sum of the samples. */
  lemma {:induction false} EwmaIsWeightedSum(alpha: real, ls: seq<int>)
    requires 0.0 < alpha <= 1.0 && ls != [] && AllPositive(ls)
    ensures Ewma(alpha, 0.0, ls) == Shares(alpha, ls, |ls|)
  {
    var n := |ls|;
    NoDecayYet(alpha, ls[0] as real);
    NoDecayYet(alpha, alpha * ls[n - 1] as real);
    if n > 1 {
      EwmaIsWeightedSum(alpha, ls[..n - 1]);
      EwmaStep(alpha, 0.0, ls);
      SharesDecay(alpha, ls, n - 1);
    } else {
      assert Shares(alpha, ls, 1) == Shares(alpha, ls, 0) + Share(alpha, ls, 0);
    }
  }

  /** The threshold on the band: the base up to the ceiling, the minimum from twice the ceiling on, and in
      between lower in proportion to the excess. */
  lemma ThresholdIsLinear(t: Tuning, e: real)
    requires ValidTuning(t)
    ensures var c, d := t.ceiling as real, t.base - ThresholdFor(t, e);
            && (e <= c ==> d == 0.0)
            && (c <= e <= 2.0 * c ==> c * d == (e - c) * (t.base - t.min))
            && (2.0 * c <= e ==> d == t.base - t.min)
  {
    var c, w := t.ceiling as real, t.base - t.min;
    if e > c {
      var r := (e - c) / c;
      assert c * r == e - c;
      if r > 1.0 {
        ScaleStrict(1.0, r, c);
      } else {
        ScaleMonotone(r, 1.0, c);
        Associate(c, r, w);
      }
    }
  }

  lemma SmoothShrinksExcess(alpha: real, e: real, l: int, c: real)
    requires 0.0 < alpha <= 1.0 && c >= 0.0 && 0 <= l && l as real <= c
    ensures Excess(Smooth(alpha, e, l), c) <= (1.0 - alpha) * Excess(e, c)
  {
    var q := 1.0 - alpha;
    ScaleMonotone(0.0, Excess(e, c), q);
    if e != 0.0 {
      MixExcess(alpha, q, l as real, e, c);
    }
  }

  lemma Distribute(q: real, x: real, y: real)
    ensures q * (x + y) == q * x + q * y
  {
  }

  lemma MixExcess(p: real, q: real, x: real, e: real, c: real)
    requires 0.0 <= p && 0.0 <= q && p + q == 1.0 && x <= c
    ensures p * x + q * e - c <= q * Excess(e, c)
  {
    MixMonotone(p, q, x, c, e, c + Excess(e, c));
    Weights(p, q, c);
    Distribute(q, c, Excess(e, c));
  }

  /** Recovery: enough samples at most `c`, below the ceiling, bring the full threshold back. */
  lemma ThresholdRecovers(t: Tuning, from: real, ls: seq<int>, c: real)
    requires ValidTuning(t) && 0.0 <= c <= t.ceiling as real && SamplesAtMost(ls, c)
    requires Decayed(t.alpha, Excess(from, c), |ls|) <= t.ceiling as real - c
    ensures ThresholdFor(t, Ewma(t.alpha, from, ls)) == t.base
  {
    ExcessDecays(t.alpha, from, ls, c);
  }

  lemma {:induction false} PowBetween(q: real, n: nat)
    requires 0.0 <= q <= 1.0
    ensures 0.0 <= Pow(q, n) <= 1.0
  {
    if n > 0 {
      PowBetween(q, n - 1);
      ScaleMonotone(0.0, Pow(q, n - 1), q);
      ScaleMonotone(q, 1.0, Pow(q, n - 1));
    }
  }

  /** Bernoulli's inequality, for powers of 1 - a. */
  lemma {:induction false} PowerBelowHyperbola(a: real, n: nat)
    requires 0.0 < a <= 1.0
    ensures Pow(1.0 - a, n) * (1.0 + n as real * a) <= 1.0
  {
    if n > 0 {
      PowerBelowHyperbola(a, n - 1);
      PowBetween(1.0 - a, n - 1);
      BernoulliStep(a, (n - 1) as real, Pow(1.0 - a, n - 1));
    }
  }

  lemma BernoulliStep(a: real, m: real, p: real)
    requires 0.0 < a <= 1.0 && m >= 0.0 && p >= 0.0 && p * (1.0 + m * a) <= 1.0
    ensures ((1.0 - a) * p) * (1.0 + (m + 1.0) * a) <= 1.0
  {
    var x := 1.0 + (m + 1.0) * a;
    Hyperbola(a, m);
    ScaleMonotone((1.0 - a) * x, 1.0 + m * a, p);
    Associate(1.0 - a, p, x);
    Associate(p, 1.0 - a, x);
  }

  lemma Hyperbola(a: real, m: real)
    requires 0.0 < a <= 1.0 && m >= 0.0
    ensures (1.0 - a) * (1.0 + (m + 1.0) * a) <= 1.0 + m * a
  {
    var k := (m + 1.0) * (a * a);
    assert a * a >= 0.0;
    ScaleMonotone(0.0, a * a, m + 1.0);
    assert (1.0 - a) * (1.0 + (m + 1.0) * a) == (1.0 + m * a) - k;
  }

  /** An explicit count: samples at most `c` restore the full threshold once their number times
      alpha * (ceiling - c) reaches the initial excess. */
  lemma ThresholdRecoversAfter(t: Tuning, from: real, ls: seq<int>, c: real)
    requires ValidTuning(t) && 0.0 <= c <= t.ceiling as real && SamplesAtMost(ls, c)
    requires Excess(from, c) <= (|ls| as real * t.alpha) * (t.ceiling as real - c)
    ensures ThresholdFor(t, Ewma(t.alpha, from, ls)) == t.base
  {
    var p, n, room := Pow(1.0 - t.alpha, |ls|), |ls| as real * t.alpha, t.ceiling as real - c;
    PowerBelowHyperbola(t.alpha, |ls|);
    PowBetween(1.0 - t.alpha, |ls|);
    EnoughRoom(p, n, Excess(from, c), room);
    ThresholdRecovers(t, from, ls, c);
  }

  lemma EnoughRoom(p: real, n: real, excess: real, room: real)
    requires 0.0 <= p && p * (1.0 + n) <= 1.0 && excess <= n * room && room >= 0.0
    ensures p * excess <= room
  {
    ScaleMonotone(excess, n * room, p);
    Associate(p, n, room);
    Distribute(p, 1.0, n);
    ScaleMonotone(p * n, 1.0, room);
  }

  /** `adaptive.go`. */
  class AdaptiveBreaker {
    const inner: FailureRateBreaker
    var ewmaLatency: real
    const tuning: Tuning

    ghost predicate Valid()
      reads this, inner, inner.window
    {
      inner.Valid() && tuning.ceiling > 0
    }

    constructor (inner: FailureRateBreaker, tuning: Tuning)
      requires inner.Valid() && tuning.ceiling > 0
      ensures Valid() && this.inner == inner && this.tuning == tuning && ewmaLatency == 0.0
    {
      this.inner, this.tuning, ewmaLatency := inner, tuning, 0.0;
    }

    method Allow(now: int) returns (ok: bool)
      requires Valid()
      modifies inner
      ensures Valid() && inner.window == old(inner.window)
      ensures ok == Admits(old(inner.Model()), now)
      ensures inner.Model() == Apply(old(inner.Model()), Ask(now))
    {
      ok := inner.Allow(now);
    }

    method UpdateThreshold(latency: int)
      requires Valid()
      modifies this`ewmaLatency, inner`failureThreshold
      ensures Valid()
      ensures ewmaLatency == Smooth(tuning.alpha, old(ewmaLatency), latency)
      ensures inner.Model() == Apply(old(inner.Model()), SetThreshold(ThresholdFor(tuning, ewmaLatency)))
    {
      var ns := latency as real;
      if ewmaLatency == 0.0 {
        ewmaLatency := ns;
      } else {
        ewmaLatency := tuning.alpha * ns + (1.0 - tuning.alpha) * ewmaLatency;
      }
      var threshold := Interpolate(tuning, ewmaLatency);
      inner.SetFailureThreshold(threshold);
    }

    /** The second half of `updateThreshold`. */
    static method Interpolate(t: Tuning, ewma: real) returns (threshold: real)
      requires t.ceiling > 0
      ensures threshold == ThresholdFor(t, ewma)
    {
      var ceiling := t.ceiling as real;
      if ewma <= ceiling {
        return t.base;
      }
      var ratio := (ewma - ceiling) / ceiling;
      if ratio > 1.0 {
        ratio := 1.0;
      }
      return t.base - ratio * (t.base - t.min);
    }

    /** The outcome is judged by the old threshold; only then does its latency move it. */
    method Record(failed: bool, latency: int, now: int)
      requires Valid()
      modifies this`ewmaLatency, inner, inner.window
      ensures Valid() && inner.window == old(inner.window)
      ensures ewmaLatency == Smooth(tuning.alpha, old(ewmaLatency), latency)
      ensures inner.Model() == Apply(Apply(old(inner.Model()), if failed then Failure(now) else Success),
                                     SetThreshold(ThresholdFor(tuning, ewmaLatency)))
    {
      if failed {
        inner.RecordFailure(now);
      } else {
        inner.RecordSuccess();
      }
      UpdateThreshold(latency);
    }

    method ResetBreaker()
      requires Valid()
      modifies this`ewmaLatency, inner
      ensures Valid() && inner.window == old(inner.window)
      ensures ewmaLatency == 0.0
      ensures inner.Model() == Apply(Apply(old(inner.Model()), Reset), SetThreshold(tuning.base))
    {
      inner.ResetBreaker();
      ewmaLatency := 0.0;
      inner.SetFailureThreshold(tuning.base);
    }
  }
}
