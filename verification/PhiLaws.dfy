/** What phi is, in terms of the samples alone. */
module PhiLaws {
  import opened Collections
  import opened Detectors

  function SumOfSquares(s: seq<nat>): nat {
    if s == [] then 0 else SumOfSquares(s[..|s| - 1]) + s[|s| - 1] * s[|s| - 1]
  }

  /** `x` is the larger of `a` and `b`. */
  predicate IsLarger(x: real, a: real, b: real) {
    x >= a && x >= b && (x == a || x == b)
  }

  /** The squares of the deviations from `m`, added up, as the number, sum and sum of squares of the samples tell. */
  predicate IsSpread(squares: real, n: real, sum: real, q: real, m: real) {
    squares == q - 2.0 * (m * sum) + m * m * n
  }

  /** The variance, cleared of fractions. */
  predicate IsVariance(v: real, n: real, sum: real, q: real) {
    n * n * v == n * q - sum * sum
  }

  /** The distance from the mean in deviations, cleared of fractions. */
  predicate IsDistance(z: real, n: real, sum: real, elapsed: real, d: real) {
    z * d * n == elapsed * n - sum
  }

  function Weighted(s: seq<nat>, m: real): real {
    if s == [] then 0.0 else Weighted(s[..|s| - 1], m) + m * s[|s| - 1] as real
  }

  function Repeated(s: seq<nat>, b: real): real {
    if s == [] then 0.0 else Repeated(s[..|s| - 1], b) + b
  }

  lemma Distribute(m: real, x: real, y: real)
    ensures m * (x + y) == m * x + m * y
  {
  }

  lemma {:induction false} WeightedIsProduct(s: seq<nat>, m: real)
    ensures Weighted(s, m) == m * (Sum(s) as real)
  {
    if s != [] {
      var init, x := s[..|s| - 1], s[|s| - 1];
      WeightedIsProduct(init, m);
      Distribute(m, Sum(init) as real, x as real);
    }
  }

  lemma {:induction false} RepeatedIsProduct(s: seq<nat>, b: real)
    ensures Repeated(s, b) == b * (|s| as real)
  {
    if s != [] {
      RepeatedIsProduct(s[..|s| - 1], b);
      Distribute(b, |s| as real - 1.0, 1.0);
    }
  }

  lemma SquareOfDifference(x: nat, m: real, b: real, diff: real)
    requires b == m * m && diff == x as real - m
    ensures diff * diff == (x * x) as real - 2.0 * (m * x as real) + b
  {
    assert (x * x) as real == x as real * x as real;
  }

  lemma {:induction false} DeviationsAddUp(s: seq<nat>, m: real, b: real)
    requires b == m * m
    ensures SquaredDeviations(s, m) == SumOfSquares(s) as real - 2.0 * Weighted(s, m) + Repeated(s, b)
  {
    if s != [] {
      var init, x := s[..|s| - 1], s[|s| - 1];
      var diff := x as real - m;
      DeviationsAddUp(init, m, b);
      SquareOfDifference(x, m, b, diff);
      assert SquaredDeviations(s, m) == SquaredDeviations(init, m) + diff * diff;
      assert Weighted(s, m) == Weighted(init, m) + m * x as real;
    }
  }

  lemma DeviationsFromMoments(s: seq<nat>, m: real)
    ensures IsSpread(SquaredDeviations(s, m), |s| as real, Sum(s) as real, SumOfSquares(s) as real, m)
  {
    DeviationsAddUp(s, m, m * m);
    WeightedIsProduct(s, m);
    RepeatedIsProduct(s, m * m);
  }

  /** The variance, by the number of samples, their sum and the sum of their squares. */
  lemma VarianceFromMoments(s: seq<nat>)
    requires s != []
    ensures IsVariance(Variance(s), |s| as real, Sum(s) as real, SumOfSquares(s) as real)
  {
    TotalIsSum(s);
    DeviationsFromMoments(s, Mean(s));
    ClearFractions(|s| as real, Sum(s) as real, SumOfSquares(s) as real, SquaredDeviations(s, Mean(s)));
  }

  lemma ClearFractions(n: real, sum: real, q: real, squares: real)
    requires n > 0.0 && IsSpread(squares, n, sum, q, sum / n)
    ensures IsVariance(squares / n, n, sum, q)
  {
    var m, v := sum / n, squares / n;
    assert n * m == sum && n * v == squares;
    assert n * squares == n * q - 2.0 * (n * m) * sum + (n * m) * (n * m);
    assert n * n * v == n * (n * v);
  }

  lemma Cancel(n: real, x: real, y: real)
    requires n != 0.0 && n * x == n * y
    ensures x == y
  {
    assert x == n * x / n && y == n * y / n;
  }

  lemma VarianceIsUnique(n: real, sum: real, q: real, v: real, w: real)
    requires n > 0.0 && IsVariance(v, n, sum, q) && IsVariance(w, n, sum, q)
    ensures v == w
  {
    assert n * n * v == n * (n * v) && n * n * w == n * (n * w);
    Cancel(n, n * v, n * w);
    Cancel(n, v, w);
  }

  /** Phi, from five samples or more: with n samples, their sum S and sum of squares Q, let v be the variance, so that
      n n v = n Q - S S; d the larger of its root and a millisecond; z the elapsed time in deviations from the mean, so
      that z d n = elapsed n - S; and p the larger of what the distribution leaves above z and 1e-100. */
  lemma PhiIsFromSamples(w: Window, now: nat, score: Score, v: real, d: real, z: real, p: real)
    requires |w.intervals| >= 5 && w.lastArrival.Some? && w.lastArrival.value <= now
    requires var n, sum, q := |w.intervals| as real, Sum(w.intervals) as real, SumOfSquares(w.intervals) as real;
             && IsVariance(v, n, sum, q) && IsLarger(d, score.sqrt(v), 1000000.0)
             && IsDistance(z, n, sum, (now - w.lastArrival.value) as real, d)
    requires IsLarger(p, 1.0 - score.normalCdf(z), 1e-100)
    ensures Phi(w, now, score) == -score.log10(p)
  {
    var s, elapsed := w.intervals, (now - w.lastArrival.value) as real;
    VarianceFromMoments(s);
    VarianceIsUnique(|s| as real, Sum(s) as real, SumOfSquares(s) as real, v, Variance(s));
    TotalIsSum(s);
    DistanceIsScaled(|s| as real, elapsed, Sum(s) as real, d, z);
  }

  lemma DistanceIsScaled(n: real, elapsed: real, sum: real, d: real, z: real)
    requires n > 0.0 && d > 0.0 && IsDistance(z, n, sum, elapsed, d)
    ensures z == (elapsed - sum / n) / d
  {
    var mean := sum / n;
    assert (elapsed - mean) * n == elapsed * n - sum;
    Cancel(n, z * d, elapsed - mean);
    assert z == z * d / d;
  }

  /** Fewer samples, no arrival, or a clock behind the last arrival: the peer is trusted. */
  lemma TrustWithoutEvidence(w: Window, now: nat, score: Score)
    requires |w.intervals| < 5 || w.lastArrival.None? || now < w.lastArrival.value
    ensures Phi(w, now, score) == 0.0
  {
  }

  lemma {:induction false} EqualGapsAddUp(n: nat, gap: nat)
    ensures Sum(seq(n, _ => gap)) == n * gap && SumOfSquares(seq(n, _ => gap)) == n * (gap * gap)
  {
    if n > 0 {
      var fewer := n - 1;
      EqualGapsAddUp(fewer, gap);
      assert seq(n, _ => gap)[..fewer] == seq(fewer, _ => gap);
      assert n * gap == fewer * gap + gap && n * (gap * gap) == fewer * (gap * gap) + gap * gap;
    }
  }

  /** A peer that is exactly on time, after gaps that were all equal, stands at the middle of the distribution. */
  lemma PunctualPeer(n: nat, gap: nat, last: nat, score: Score, d: real, p: real)
    requires n >= 5 && IsLarger(d, score.sqrt(0.0), 1000000.0) && IsLarger(p, 1.0 - score.normalCdf(0.0), 1e-100)
    ensures Phi(Window(seq(n, _ => gap), Some(last)), last + gap, score) == -score.log10(p)
  {
    var w := Window(seq(n, _ => gap), Some(last));
    EqualGapsAddUp(n, gap);
    NoSpread(n, gap);
    PhiIsFromSamples(w, last + gap, score, 0.0, d, 0.0, p);
  }

  lemma NoSpread(n: nat, gap: nat)
    ensures n as real * (n * (gap * gap)) as real == (n * gap) as real * (n * gap) as real
    ensures gap as real * n as real == (n * gap) as real
  {
    assert n * (n * (gap * gap)) == (n * gap) * (n * gap);
    assert (n * (n * (gap * gap))) as real == n as real * (n * (gap * gap)) as real;
    assert ((n * gap) * (n * gap)) as real == (n * gap) as real * (n * gap) as real;
    assert (n * gap) as real == n as real * gap as real;
  }
}
