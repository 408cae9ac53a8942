/** The failure detector: a sliding window of heartbeat intervals, and the suspicion level phi computed from it.
    Times are in nanoseconds. */
module Detectors {
  import opened Collections

  const MAX_SAMPLES := 100
  const MIN_SAMPLES := 5

  /** The detector as a value: the window, oldest interval first, and the last arrival. */
  datatype Window = Window(intervals: seq<nat>, lastArrival: Option<nat>)

  const Fresh := Window([], None)

  function Received(w: Window, now: nat): Window {
    var intervals :=
      if w.lastArrival.Some? && now > w.lastArrival.value then
        var kept := if |w.intervals| == MAX_SAMPLES then w.intervals[1..] else w.intervals;
        kept + [now - w.lastArrival.value]
      else w.intervals;
    Window(intervals, Some(now))
  }

  // ----- the window against the history of arrivals

  function Replay(arrivals: seq<nat>): Window {
    if arrivals == [] then Fresh else Received(Replay(arrivals[..|arrivals| - 1]), arrivals[|arrivals| - 1])
  }

  /** The gap that an arrival adds to those before it, if it lies after the last of them. */
  function NewGap(arrivals: seq<nat>, time: nat): seq<nat> {
    if arrivals != [] && time > arrivals[|arrivals| - 1] then [time - arrivals[|arrivals| - 1]] else []
  }

  /** The gaps between consecutive arrivals that lie in the right order, oldest first. */
  function Gaps(arrivals: seq<nat>): seq<nat> {
    if arrivals == [] then []
    else
      var earlier := arrivals[..|arrivals| - 1];
      Gaps(earlier) + NewGap(earlier, arrivals[|arrivals| - 1])
  }

  function LastUpTo(s: seq<nat>, n: nat): seq<nat> {
    if |s| <= n then s else s[|s| - n..]
  }

  /** The window holds exactly the last hundred positive gaps, whatever the clock does. */
  lemma {:induction false} WindowIsLastGaps(arrivals: seq<nat>)
    ensures Replay(arrivals).intervals == LastUpTo(Gaps(arrivals), 100)
    ensures Replay(arrivals).lastArrival == if arrivals == [] then None else Some(arrivals[|arrivals| - 1])
  {
    if arrivals != [] {
      WindowIsLastGaps(arrivals[..|arrivals| - 1]);
    }
  }

  function Sum(s: seq<nat>): nat {
    if s == [] then 0 else Sum(s[..|s| - 1]) + s[|s| - 1]
  }

  predicate NonDecreasing(s: seq<nat>) {
    forall i, j :: 0 <= i < j < |s| ==> s[i] <= s[j]
  }

  lemma SumOfMore(s: seq<nat>, x: nat)
    ensures Sum(s + [x]) == Sum(s) + x
  {
    assert (s + [x])[..|s|] == s;
  }

  /** With a clock that never runs backward the gaps add up to the time they span. */
  lemma {:induction false} GapsTelescope(arrivals: seq<nat>)
    requires arrivals != [] && NonDecreasing(arrivals)
    ensures Sum(Gaps(arrivals)) == arrivals[|arrivals| - 1] - arrivals[0]
  {
    var earlier, time := arrivals[..|arrivals| - 1], arrivals[|arrivals| - 1];
    var gap := NewGap(earlier, time);
    if gap == [] {
      assert Gaps(earlier) + gap == Gaps(earlier);
    } else {
      SumOfMore(Gaps(earlier), gap[0]);
      assert gap == [gap[0]];
    }
    if earlier != [] {
      GapsTelescope(earlier);
    }
  }

  lemma GapsOfMore(arrivals: seq<nat>, time: nat)
    ensures Gaps(arrivals + [time]) == Gaps(arrivals) + NewGap(arrivals, time)
  {
    assert (arrivals + [time])[..|arrivals|] == arrivals;
  }

  /** The last gaps are the gaps of the last arrivals. */
  lemma {:induction false} LastGapsAreGapsOfLast(arrivals: seq<nat>, n: nat) returns (j: nat)
    requires arrivals != []
    ensures j < |arrivals| && Gaps(arrivals[j..]) == LastUpTo(Gaps(arrivals), n)
    decreases |arrivals|
  {
    var last := |arrivals| - 1;
    if |Gaps(arrivals)| <= n {
      j := 0;
      assert arrivals[0..] == arrivals;
    } else if n == 0 {
      j := last;
      assert arrivals[j..] == [] + [arrivals[last]];
      GapsOfMore([], arrivals[last]);
    } else {
      var before, time := arrivals[..last], arrivals[last];
      assert arrivals == before + [time];
      GapsOfMore(before, time);
      var gap := NewGap(before, time);
      j := LastGapsAreGapsOfLast(before, n - |gap|);
      LastWithMore(before, j, time);
      LastUpToMore(Gaps(before), gap, n);
    }
  }

  lemma LastWithMore(before: seq<nat>, j: nat, time: nat)
    requires j < |before|
    ensures Gaps((before + [time])[j..]) == Gaps(before[j..]) + NewGap(before, time)
  {
    assert (before + [time])[j..] == before[j..] + [time];
    GapsOfMore(before[j..], time);
    assert before[j..][|before[j..]| - 1] == before[|before| - 1];
  }

  lemma LastUpToMore(s: seq<nat>, t: seq<nat>, n: nat)
    requires |t| <= n < |s + t|
    ensures LastUpTo(s + t, n) == LastUpTo(s, n - |t|) + t
  {
  }

  /** The window holds the gaps from arrival `j` on, and they add up to the time since then. */
  ghost predicate ReachesBack(w: Window, arrivals: seq<nat>, j: nat) {
    && j < |arrivals|
    && w.intervals == Gaps(arrivals[j..])
    && Sum(w.intervals) + arrivals[j] == arrivals[|arrivals| - 1]
  }

  /** The window's intervals add up to the time since some recorded arrival: their mean is the mean gap
      over that stretch. */
  lemma WindowSpansTime(arrivals: seq<nat>)
    requires arrivals != [] && NonDecreasing(arrivals)
    ensures exists j: nat :: ReachesBack(Replay(arrivals), arrivals, j)
  {
    WindowIsLastGaps(arrivals);
    var j := LastGapsAreGapsOfLast(arrivals, MAX_SAMPLES);
    var latest := arrivals[j..];
    assert NonDecreasing(latest) && latest[0] == arrivals[j] && latest[|latest| - 1] == arrivals[|arrivals| - 1];
    GapsTelescope(latest);
    assert ReachesBack(Replay(arrivals), arrivals, j);
  }

  // ----- suspicion

  /** One millisecond: no window counts as more regular than that. */
  const MIN_STD_DEV := 1000000.0

  const MIN_PROBABILITY := 1e-100

  /** The real functions that phi is made of, which the program approximates in floating point. */
  datatype Score = Score(sqrt: real -> real, normalCdf: real -> real, log10: real -> real)

  function RealMax(a: real, b: real): real {
    if a < b then b else a
  }

  function Total(s: seq<nat>): real {
    if s == [] then 0.0 else Total(s[..|s| - 1]) + s[|s| - 1] as real
  }

  function SquaredDeviations(s: seq<nat>, mean: real): real {
    if s == [] then 0.0
    else
      var diff := s[|s| - 1] as real - mean;
      SquaredDeviations(s[..|s| - 1], mean) + diff * diff
  }

  function Mean(s: seq<nat>): real
    requires s != []
  {
    Total(s) / |s| as real
  }

  function Variance(s: seq<nat>): real
    requires s != []
  {
    SquaredDeviations(s, Mean(s)) / |s| as real
  }

  function Deviation(s: seq<nat>, score: Score): real
    requires s != []
  {
    RealMax(score.sqrt(Variance(s)), MIN_STD_DEV)
  }

  /** How suspicious it is to have heard nothing for `elapsed`. */
  function Suspicion(elapsed: real, mean: real, deviation: real, score: Score): real
    requires deviation != 0.0
  {
    var y := (elapsed - mean) / deviation;
    -score.log10(RealMax(1.0 - score.normalCdf(y), MIN_PROBABILITY))
  }

  function Phi(w: Window, now: nat, score: Score): real {
    if |w.intervals| < MIN_SAMPLES || w.lastArrival.None? || now < w.lastArrival.value then 0.0
    else
      Suspicion((now - w.lastArrival.value) as real, Mean(w.intervals), Deviation(w.intervals, score), score)
  }

  ghost predicate Monotone(f: real -> real) {
    forall x, y :: x <= y ==> f(x) <= f(y)
  }

  lemma QuotientGrows(x: real, y: real, d: real)
    requires x <= y && d > 0.0
    ensures x / d <= y / d
  {
    assert y / d - x / d == (y - x) / d;
    QuotientIsNotNegative(y - x, d);
  }

  /** Silence never lowers suspicion, and suspicion has a ceiling, for any nondecreasing distribution function
      and logarithm. */
  lemma SilenceRaisesSuspicion(w: Window, now: nat, later: nat, score: Score)
    requires |w.intervals| >= MIN_SAMPLES && w.lastArrival.Some? && w.lastArrival.value <= now <= later
    requires Monotone(score.normalCdf) && Monotone(score.log10)
    ensures Phi(w, now, score) <= Phi(w, later, score) <= -score.log10(MIN_PROBABILITY)
  {
    var mean, d, last := Mean(w.intervals), Deviation(w.intervals, score), w.lastArrival.value;
    QuotientGrows((now - last) as real - mean, (later - last) as real - mean, d);
  }

  lemma SquareIsNotNegative(x: real)
    ensures x * x >= 0.0
  {
    if x < 0.0 {
      assert x * x == (-x) * (-x);
    }
  }

  lemma {:induction false} DeviationsAreNotNegative(s: seq<nat>, mean: real)
    ensures SquaredDeviations(s, mean) >= 0.0
  {
    if s != [] {
      DeviationsAreNotNegative(s[..|s| - 1], mean);
      SquareIsNotNegative(s[|s| - 1] as real - mean);
    }
  }

  lemma {:induction false} TotalIsSum(s: seq<nat>)
    ensures Total(s) == Sum(s) as real
  {
    if s != [] {
      TotalIsSum(s[..|s| - 1]);
    }
  }

  lemma QuotientIsNotNegative(x: real, n: real)
    requires x >= 0.0 && n > 0.0
    ensures x / n >= 0.0
  {
  }

  lemma VarianceIsNotNegative(s: seq<nat>)
    requires s != []
    ensures Variance(s) >= 0.0
  {
    DeviationsAreNotNegative(s, Mean(s));
    QuotientIsNotNegative(SquaredDeviations(s, Mean(s)), |s| as real);
  }

  ghost predicate MeansTimeSince(s: seq<nat>, arrivals: seq<nat>, j: nat)
    requires s != []
  {
    j < |arrivals| && Mean(s) == (arrivals[|arrivals| - 1] as real - arrivals[j] as real) / |s| as real
  }

  /** What phi computes from the window: under a clock that never runs backward the mean is the time since
      some recorded arrival divided by the number of gaps, and the variance is never negative. */
  lemma WindowStatistics(arrivals: seq<nat>)
    requires arrivals != [] && NonDecreasing(arrivals) && Replay(arrivals).intervals != []
    ensures Variance(Replay(arrivals).intervals) >= 0.0
    ensures exists j: nat :: ReachesBack(Replay(arrivals), arrivals, j)
                             && MeansTimeSince(Replay(arrivals).intervals, arrivals, j)
  {
    var s := Replay(arrivals).intervals;
    VarianceIsNotNegative(s);
    WindowSpansTime(arrivals);
    var j: nat :| ReachesBack(Replay(arrivals), arrivals, j);
    MeanOfSpan(s, arrivals, j);
  }

  lemma MeanOfSpan(s: seq<nat>, arrivals: seq<nat>, j: nat)
    requires s != [] && j < |arrivals| && Sum(s) + arrivals[j] == arrivals[|arrivals| - 1]
    ensures MeansTimeSince(s, arrivals, j)
  {
    TotalIsSum(s);
  }

  class PhiAccrualDetector {
    var intervals: seq<nat>
    var lastArrival: Option<nat>

    function State(): Window
      reads this
    {
      Window(intervals, lastArrival)
    }

    constructor ()
      ensures State() == Fresh
    {
      intervals, lastArrival := [], None;
    }

    method HeartbeatReceived(now: nat)
      modifies this
      ensures State() == Received(old(State()), now)
    {
      if lastArrival.Some? {
        var last := lastArrival.value;
        if now > last {
          var interval := now - last;
          if |intervals| == MAX_SAMPLES {
            intervals := intervals[1..];
          }
          intervals := intervals + [interval];
        }
      }
      lastArrival := Some(now);
    }

    method ComputePhi(now: nat, score: Score) returns (phi: real)
      ensures phi == Phi(State(), now, score)
    {
      if |intervals| < MIN_SAMPLES || lastArrival.None? || now < lastArrival.value {
        return 0.0;
      }
      var elapsed := (now - lastArrival.value) as real;
      var sum := 0.0;
      for i := 0 to |intervals|
        invariant sum == Total(intervals[..i])
      {
        assert intervals[..i + 1][..i] == intervals[..i];
        sum := sum + intervals[i] as real;
      }
      assert intervals[..|intervals|] == intervals;
      var mean := sum / |intervals| as real;
      var varianceSum := 0.0;
      for i := 0 to |intervals|
        invariant varianceSum == SquaredDeviations(intervals[..i], mean)
      {
        assert intervals[..i + 1][..i] == intervals[..i];
        var diff := intervals[i] as real - mean;
        varianceSum := varianceSum + diff * diff;
      }
      var variance := varianceSum / |intervals| as real;
      var deviation := RealMax(score.sqrt(variance), MIN_STD_DEV);
      var y := (elapsed - mean) / deviation;
      var later := RealMax(1.0 - score.normalCdf(y), MIN_PROBABILITY);
      phi := -score.log10(later);
    }
  }
}
