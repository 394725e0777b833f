/** The exponential rolling average that trips the emergency stop (src/data.rs). The program computes
    it in 64-bit floating point; here it is over the reals. */
module RollingAverage {

  /** One sample. */
  function Update(average: real, width: nat, x: real): real
    requires width >= 1
  {
    (average * (width - 1) as real + x) / width as real
  }

  /** The average after the samples `xs`, from `seed`. */
  function Average(seed: real, width: nat, xs: seq<real>): real
    requires width >= 1
  {
    if xs == [] then seed
    else Update(Average(seed, width, xs[..|xs| - 1]), width, xs[|xs| - 1])
  }

  lemma {:induction false} AverageAppend(seed: real, width: nat, xs: seq<real>, ys: seq<real>)
    requires width >= 1
    ensures Average(seed, width, xs + ys) == Average(Average(seed, width, xs), width, ys)
    decreases |ys|
  {
    if ys == [] {
      assert xs + ys == xs;
    } else {
      assert (xs + ys)[..|xs + ys| - 1] == xs + ys[..|ys| - 1];
      AverageAppend(seed, width, xs, ys[..|ys| - 1]);
    }
  }

  // ---------------------------------------------------------------------------------------------
  // A weighted sum
  // ---------------------------------------------------------------------------------------------

  function Power(q: real, n: nat): real {
    if n == 0 then 1.0 else q * Power(q, n - 1)
  }

  /** What is kept of the old average by one sample. */
  function Decay(width: nat): real
    requires width >= 1
  {
    (width - 1) as real / width as real
  }

  /** The weight of the seed (`i == 0`) or of sample number `i` after `n` samples. */
  function Weight(width: nat, n: nat, i: nat): real
    requires width >= 1 && i <= n
  {
    if i == 0 then Power(Decay(width), n) else Power(Decay(width), n - i) / width as real
  }

  /** The first `k` weights after `n` samples, added up. */
  function WeightTotal(width: nat, n: nat, k: nat): real
    requires width >= 1 && k <= n + 1
  {
    if k == 0 then 0.0 else WeightTotal(width, n, k - 1) + Weight(width, n, k - 1)
  }

  /** The first `k` of the seed and the samples, weighted and added up. */
  function WeightedTotal(width: nat, seed: real, xs: seq<real>, k: nat): real
    requires width >= 1 && k <= |xs| + 1
  {
    if k == 0 then 0.0
    else WeightedTotal(width, seed, xs, k - 1) + Weight(width, |xs|, k - 1) * (if k == 1 then seed else xs[k - 2])
  }

  lemma {:induction false} PowerPositive(q: real, n: nat)
    requires q >= 0.0
    ensures Power(q, n) >= 0.0
    decreases n
  {
    if n > 0 {
      PowerPositive(q, n - 1);
    }
  }

  lemma DecayBounds(width: nat)
    requires width >= 1
    ensures 0.0 <= Decay(width) && Decay(width) + 1.0 / width as real == 1.0
  {
    var w := width as real;
    assert (width - 1) as real == w - 1.0;
    assert (w - 1.0) / w + 1.0 / w == 1.0;
  }

  lemma WeightsNonNegative(width: nat, n: nat, i: nat)
    requires width >= 1 && i <= n
    ensures Weight(width, n, i) >= 0.0
  {
    DecayBounds(width);
    PowerPositive(Decay(width), if i == 0 then n else n - i);
  }

  /** One more sample scales every earlier weight by the decay. */
  lemma WeightShift(width: nat, n: nat, i: nat)
    requires width >= 1 && i <= n
    ensures Weight(width, n + 1, i) == Decay(width) * Weight(width, n, i)
  {
    if i > 0 {
      var q, p, w := Decay(width), Power(Decay(width), n - i), width as real;
      assert Power(q, n + 1 - i) == q * p;
      Associate(q, p, w);
    }
  }

  lemma Associate(q: real, p: real, w: real)
    requires w > 0.0
    ensures (q * p) / w == q * (p / w)
  {
  }

  lemma {:induction false} TotalsShift(width: nat, seed: real, xs: seq<real>, x: real, k: nat)
    requires width >= 1 && k <= |xs| + 1
    ensures WeightTotal(width, |xs| + 1, k) == Decay(width) * WeightTotal(width, |xs|, k)
    ensures WeightedTotal(width, seed, xs + [x], k) == Decay(width) * WeightedTotal(width, seed, xs, k)
    decreases k
  {
    hide Weight, Power, Decay;
    if k > 0 {
      TotalsShift(width, seed, xs, x, k - 1);
      WeightShift(width, |xs|, k - 1);
      assert k > 1 ==> (xs + [x])[k - 2] == xs[k - 2];
      var g := Weight(width, |xs|, k - 1);
      Distribute(Decay(width), WeightTotal(width, |xs|, k - 1), g, 1.0);
      Distribute(Decay(width), WeightedTotal(width, seed, xs, k - 1), g, if k == 1 then seed else xs[k - 2]);
    }
  }

  lemma Distribute(q: real, a: real, b: real, v: real)
    ensures q * a + (q * b) * v == q * (a + b * v)
  {
  }

  /** The average is a weighted sum of the seed and all samples; the weights are never negative and
      add up to one. */
  lemma {:induction false} AverageIsWeighted(width: nat, seed: real, xs: seq<real>)
    requires width >= 1
    ensures WeightTotal(width, |xs|, |xs| + 1) == 1.0
    ensures Average(seed, width, xs) == WeightedTotal(width, seed, xs, |xs| + 1)
    decreases |xs|
  {
    hide Weight, Power, Decay, Update;
    DecayBounds(width);
    EndWeights(width, |xs|);
    if xs == [] {
      assert WeightTotal(width, 0, 0) == 0.0 && WeightedTotal(width, seed, xs, 0) == 0.0;
    } else {
      var ys, x, n := xs[..|xs| - 1], xs[|xs| - 1], |xs|;
      AverageIsWeighted(width, seed, ys);
      assert xs == ys + [x];
      TotalsShift(width, seed, ys, x, n);
      Blended(width, Average(seed, width, ys), x);
    }
  }

  /** The weight of the last sample, and of the seed when there is none. */
  lemma EndWeights(width: nat, n: nat)
    requires width >= 1
    ensures Weight(width, n, n) == if n == 0 then 1.0 else 1.0 / width as real
  {
  }

  /** One update is a blend of the old average and the sample. */
  lemma Blended(width: nat, a: real, x: real)
    requires width >= 1
    ensures Update(a, width, x) == Decay(width) * a + (1.0 / width as real) * x
  {
    Split(a, x, (width - 1) as real, width as real);
  }

  lemma Split(a: real, x: real, v: real, w: real)
    requires w > 0.0
    ensures (a * v + x) / w == (v / w) * a + (1.0 / w) * x
  {
    assert ((v / w) * a + (1.0 / w) * x) * w == v * a + x by {
      assert (v / w) * a * w == ((v / w) * w) * a;
      assert (1.0 / w) * x * w == ((1.0 / w) * w) * x;
    }
  }

  /** A weighted sum of values in a range stays in the range. */
  lemma {:induction false} WeightedBounds(width: nat, seed: real, xs: seq<real>, k: nat, lo: real, hi: real)
    requires width >= 1 && k <= |xs| + 1
    requires lo <= seed <= hi && forall i :: 0 <= i < |xs| ==> lo <= xs[i] <= hi
    ensures lo * WeightTotal(width, |xs|, k) <= WeightedTotal(width, seed, xs, k) <= hi * WeightTotal(width, |xs|, k)
    decreases k
  {
    hide Weight, Power, Decay;
    if k > 0 {
      WeightedBounds(width, seed, xs, k - 1, lo, hi);
      WeightsNonNegative(width, |xs|, k - 1);
      BoundsStep(lo, hi, WeightTotal(width, |xs|, k - 1), WeightedTotal(width, seed, xs, k - 1),
                 Weight(width, |xs|, k - 1), if k == 1 then seed else xs[k - 2]);
    }
  }

  lemma BoundsStep(lo: real, hi: real, total: real, sum: real, g: real, v: real)
    requires lo * total <= sum <= hi * total && g >= 0.0 && lo <= v <= hi
    ensures lo * (total + g) <= sum + g * v <= hi * (total + g)
  {
    Scale(g, lo, v);
    Scale(g, v, hi);
    assert lo * (total + g) == lo * total + g * lo;
    assert hi * (total + g) == hi * total + g * hi;
  }

  lemma Scale(g: real, a: real, b: real)
    requires g >= 0.0 && a <= b
    ensures g * a <= g * b
  {
  }

  /** Samples within the range keep the average within the range. */
  lemma AverageStaysInside(width: nat, seed: real, xs: seq<real>, lo: real, hi: real)
    requires width >= 1 && lo <= seed <= hi && forall i :: 0 <= i < |xs| ==> lo <= xs[i] <= hi
    ensures lo <= Average(seed, width, xs) <= hi
  {
    AverageIsWeighted(width, seed, xs);
    WeightedBounds(width, seed, xs, |xs| + 1, lo, hi);
  }

  // ---------------------------------------------------------------------------------------------
  // How long an excursion goes unnoticed
  // ---------------------------------------------------------------------------------------------

  /** The deficit below a level all samples reach shrinks at least like `(w-1) / (w-1+n)`. */
  lemma {:induction false} DeficitShrinks(width: nat, a: real, xs: seq<real>, x: real)
    requires width >= 1 && a <= x && forall i :: 0 <= i < |xs| ==> xs[i] >= x
    ensures ShrunkTo((width - 1) as real, |xs| as real, x - Average(a, width, xs), x - a)
    decreases |xs|
  {
    hide ShrunkTo, Update;
    if xs == [] {
      ShrunkStart((width - 1) as real, x - a);
    } else {
      var ys, last, n := xs[..|xs| - 1], xs[|xs| - 1], |xs|;
      assert forall i :: 0 <= i < |ys| ==> ys[i] == xs[i];
      DeficitShrinks(width, a, ys, x);
      DeficitUpdate(width, n as real, Average(a, width, ys), last, x, x - a);
      assert |ys| as real == n as real - 1.0;
    }
  }

  /** The deficit `d`, which was `d0`, after `n` samples; `v` is the width less one. */
  predicate ShrunkTo(v: real, n: real, d: real, d0: real) {
    d <= 0.0 || (v + n) * d <= v * d0
  }

  lemma ShrunkStart(v: real, d: real)
    ensures ShrunkTo(v, 0.0, d, d)
  {
  }

  lemma DeficitUpdate(width: nat, n: real, b: real, last: real, x: real, start: real)
    requires width >= 1 && n >= 1.0 && last >= x && ShrunkTo((width - 1) as real, n - 1.0, x - b, start)
    ensures ShrunkTo((width - 1) as real, n, x - Update(b, width, last), start)
  {
    hide ShrunkTo;
    assert (width - 1) as real == width as real - 1.0;
    DeficitStep(width as real, n, b, last, x, start);
  }

  lemma DeficitStep(w: real, n: real, b: real, last: real, x: real, start: real)
    requires w >= 1.0 && n >= 1.0 && last >= x && ShrunkTo(w - 1.0, n - 1.0, x - b, start)
    ensures ShrunkTo(w - 1.0, n, x - (b * (w - 1.0) + last) / w, start)
  {
    var d0, d := x - b, x - (b * (w - 1.0) + last) / w;
    OneSample(w, b, last, x);
    if d > 0.0 {
      Positive(w, d);
      PositiveFactor(w - 1.0, d0);
      Bernoulli(w, n, d0, d);
    }
  }

  lemma Positive(w: real, d: real)
    requires w >= 1.0 && d > 0.0
    ensures w * d > 0.0
  {
  }

  lemma PositiveFactor(v: real, d: real)
    requires v >= 0.0 && v * d > 0.0
    ensures d > 0.0
  {
  }

  /** One sample at or above `x` multiplies the deficit by at most `(w-1)/w`. */
  lemma OneSample(w: real, b: real, last: real, x: real)
    requires w >= 1.0 && last >= x
    ensures w * (x - (b * (w - 1.0) + last) / w) <= (w - 1.0) * (x - b)
  {
    var next := (b * (w - 1.0) + last) / w;
    assert w * next == b * (w - 1.0) + last;
    assert w * (x - next) == w * x - w * next;
    assert (w - 1.0) * (x - b) == w * x - x - b * (w - 1.0);
  }

  lemma Bernoulli(w: real, n: real, d0: real, d: real)
    requires w >= 1.0 && n >= 1.0 && d0 > 0.0 && w * d <= (w - 1.0) * d0
    ensures (w - 1.0 + n) * d <= (w - 1.0 + (n - 1.0)) * d0
  {
    Widths(w, n);
    Chain(w, w - 1.0, w - 1.0 + n, w - 1.0 + (n - 1.0), d0, d);
  }

  lemma Widths(w: real, n: real)
    requires w >= 1.0 && n >= 1.0
    ensures (w - 1.0 + n) * (w - 1.0) <= w * (w - 1.0 + (n - 1.0))
  {
    assert (w - 1.0 + n) * (w - 1.0) == w * (w - 1.0 + n) - (w - 1.0 + n);
    assert w * (w - 1.0 + (n - 1.0)) == w * (w - 1.0 + n) - w;
  }

  lemma Chain(w: real, v: real, m: real, u: real, d0: real, d: real)
    requires w > 0.0 && m >= 0.0 && d0 > 0.0 && w * d <= v * d0 && m * v <= w * u
    ensures m * d <= u * d0
  {
    Scale(m, w * d, v * d0);
    Scale(d0, m * v, w * u);
    assert m * (w * d) == w * (m * d);
    assert m * (v * d0) == d0 * (m * v);
    assert d0 * (w * u) == w * (u * d0);
    Cancel(w, m * d, u * d0);
  }

  lemma Cancel(w: real, a: real, b: real)
    requires w > 0.0 && w * a <= w * b
    ensures a <= b
  {
  }

  /** Detection latency, upper side: from an average `a <= hi`, once all samples are at least `x > hi`,
      the average is out of range after every `n` of them with `n (x - hi) > (width - 1) (hi - a)`. */
  lemma DetectedAbove(width: nat, a: real, hi: real, x: real, xs: seq<real>)
    requires width >= 1 && a <= hi < x && forall i :: 0 <= i < |xs| ==> xs[i] >= x
    requires |xs| as real * (x - hi) > (width - 1) as real * (hi - a)
    ensures Average(a, width, xs) > hi
  {
    hide Average, ShrunkTo;
    DeficitShrinks(width, a, xs, x);
    assert (x - hi) + (hi - a) == x - a;
    Passed((width - 1) as real, |xs| as real, x - Average(a, width, xs), x - hi, hi - a);
  }

  /** A deficit that has shrunk this far is less than the margin. */
  lemma Passed(v: real, n: real, d: real, margin: real, below: real)
    requires v >= 0.0 && n >= 0.0 && margin > 0.0 && n * margin > v * below
    requires ShrunkTo(v, n, d, margin + below)
    ensures d < margin
  {
    assert v * (margin + below) == v * margin + v * below;
    assert (v + n) * margin == v * margin + n * margin;
    if d > 0.0 {
      LessCancel(v + n, d, margin);
    }
  }

  lemma LessCancel(k: real, a: real, b: real)
    requires k >= 0.0 && k * a < k * b
    ensures a < b
  {
  }

  function Negated(xs: seq<real>): (r: seq<real>)
    ensures |r| == |xs|
  {
    seq(|xs|, i requires 0 <= i < |xs| => -xs[i])
  }

  lemma {:induction false} AverageNegated(seed: real, width: nat, xs: seq<real>)
    requires width >= 1
    ensures Average(-seed, width, Negated(xs)) == -Average(seed, width, xs)
    decreases |xs|
  {
    if xs != [] {
      var ys := xs[..|xs| - 1];
      AverageNegated(seed, width, ys);
      assert Negated(xs)[..|xs| - 1] == Negated(ys);
      NegatedUpdate(Average(seed, width, ys), width, xs[|xs| - 1]);
    }
  }

  lemma NegatedUpdate(a: real, width: nat, x: real)
    requires width >= 1
    ensures Update(-a, width, -x) == -Update(a, width, x)
  {
    var v, w := (width - 1) as real, width as real;
    assert -a * v + -x == -(a * v + x);
  }

  /** Detection latency, lower side. */
  lemma DetectedBelow(width: nat, a: real, lo: real, x: real, xs: seq<real>)
    requires width >= 1 && a >= lo > x && forall i :: 0 <= i < |xs| ==> xs[i] <= x
    requires |xs| as real * (lo - x) > (width - 1) as real * (a - lo)
    ensures Average(a, width, xs) < lo
  {
    AverageNegated(a, width, xs);
    DetectedAbove(width, -a, -lo, -x, Negated(xs));
  }

  /** The exact response to a step: after `n` samples of the same value the distance to it has shrunk
      by the `n`-th power of the decay, so the upper limit is passed exactly when that power is small
      enough. */
  lemma {:induction false} StepResponse(width: nat, a: real, x: real, hi: real, xs: seq<real>)
    requires width >= 1 && forall i :: 0 <= i < |xs| ==> xs[i] == x
    ensures Average(a, width, xs) == x - Power(Decay(width), |xs|) * (x - a)
    ensures Average(a, width, xs) > hi <==> Power(Decay(width), |xs|) * (x - a) < x - hi
    decreases |xs|
  {
    hide Decay, Update;
    if xs != [] {
      var ys := xs[..|xs| - 1];
      assert forall i :: 0 <= i < |ys| ==> ys[i] == xs[i];
      StepResponse(width, a, x, hi, ys);
      var b := Average(a, width, ys);
      Blended(width, b, x);
      DecayBounds(width);
      Blend(Decay(width), 1.0 / width as real, b, x, Power(Decay(width), |ys|), x - a);
    }
  }

  lemma Blend(q: real, u: real, b: real, x: real, p: real, e: real)
    requires q + u == 1.0 && b == x - p * e
    ensures q * b + u * x == x - (q * p) * e
  {
    assert u == 1.0 - q;
    assert (1.0 - q) * x == x - q * x;
    assert q * (x - p * e) == q * x - q * (p * e);
    assert q * (p * e) == (q * p) * e;
  }
}
