/**
 The bandwidth estimate of webrtc/base/bandwidthsmoother.cc over a whole history
 of samples: it follows drops at once and rises only after the mean has stayed
 high for a while.  Floating-point numbers are modelled as reals and times as
 unbounded numbers.
 */
module Smoother {

  const INT_MAX := 0x7FFFFFFF

  datatype Config = Config(timeBetweenIncrease: nat, percentIncrease: real, maxCount: nat, minCount: nat)

  predicate ConfigValid(c: Config) {
    c.percentIncrease >= 1.0 && c.maxCount >= 1
  }

  /** The estimate, when it or its evidence last changed, and the samples being averaged. */
  datatype State = State(estimate: int, lastChange: nat, window: seq<nat>)

  datatype Sample = Sample(time: nat, bandwidth: int)

  // ------------------------------------------------------------------
  // The mean of the recent samples
  // ------------------------------------------------------------------

  function Sum(w: seq<nat>): nat {
    if w == [] then 0 else w[0] + Sum(w[1..])
  }

  lemma {:induction false} SumBound(w: seq<nat>, max: nat)
    requires forall i :: 0 <= i < |w| ==> w[i] <= max
    ensures Sum(w) <= |w| * max
  {
    if w != [] {
      SumBound(w[1..], max);
      assert |w| * max == max + (|w| - 1) * max;
    }
  }

  /** The mean, truncated to an integer as the code truncates it. */
  function Mean(w: seq<nat>): nat
    requires w != []
  {
    Sum(w) / |w|
  }

  lemma {:induction false} SumConcat(a: seq<nat>, b: seq<nat>)
    ensures Sum(a + b) == Sum(a) + Sum(b)
  {
    if a == [] {
      assert a + b == b;
    } else {
      assert (a + b)[1..] == a[1..] + b;
      SumConcat(a[1..], b);
    }
  }

  /** As many times the mean as there are samples is their sum, up to less than one each. */
  lemma MeanOfSum(w: seq<nat>)
    requires w != []
    ensures Mean(w) * |w| <= Sum(w) < (Mean(w) + 1) * |w|
  {
    var n, q := |w|, Mean(w);
    assert Sum(w) == q * n + Sum(w) % n;
    assert (q + 1) * n == q * n + n;
  }

  lemma MeanBound(w: seq<nat>, max: nat)
    requires w != [] && forall i :: 0 <= i < |w| ==> w[i] <= max
    ensures Mean(w) <= max
  {
    SumBound(w, max);
    DivBound(Sum(w), |w|, max);
  }

  lemma DivBound(s: nat, n: nat, max: nat)
    requires n >= 1 && s <= n * max
    ensures s / n <= max
  {
  }

  /** The window after one more sample: the oldest goes when it is full. */
  function AddSample(w: seq<nat>, x: nat, maxCount: nat): (r: seq<nat>)
    requires maxCount >= 1
    ensures r != []
  {
    (if |w| >= maxCount then w[|w| - maxCount + 1..] else w) + [x]
  }

  // ------------------------------------------------------------------
  // One sample
  // ------------------------------------------------------------------

  /** Is the sample taken into account at all? */
  predicate Counts(c: Config, s: State, x: Sample)
    requires ConfigValid(c)
  {
    x.bandwidth >= 0 && |AddSample(s.window, x.bandwidth, c.maxCount)| >= c.minCount
  }

  function MeanWith(c: Config, s: State, x: Sample): nat
    requires ConfigValid(c) && x.bandwidth >= 0
  {
    Mean(AddSample(s.window, x.bandwidth, c.maxCount))
  }

  /** The value the mean has to reach for an increase. */
  function Threshold(c: Config, s: State): real {
    c.percentIncrease * s.estimate as real
  }

  function Step(c: Config, s: State, x: Sample): State
    requires ConfigValid(c)
  {
    if x.bandwidth < 0 then s
    else
      var s1 := s.(window := AddSample(s.window, x.bandwidth, c.maxCount));
      if |s1.window| < c.minCount then s1
      else
        var mean := Mean(s1.window);
        if mean < s.estimate then s1.(lastChange := x.time, estimate := mean)
        else if Threshold(c, s) > INT_MAX as real then s1
        else
          var threshold := Threshold(c, s).Floor;
          if mean < threshold then s1.(lastChange := x.time)
          else if x.time >= s.lastChange + c.timeBetweenIncrease then
            s1.(lastChange := x.time, estimate := if threshold == 0 then mean else threshold)
          else s1
  }

  predicate Sane(s: State) {
    0 <= s.estimate <= INT_MAX && forall i :: 0 <= i < |s.window| ==> s.window[i] <= INT_MAX
  }

  lemma ThresholdAtLeast(c: Config, s: State)
    requires ConfigValid(c) && s.estimate >= 0
    ensures Threshold(c, s) >= s.estimate as real
    ensures Threshold(c, s).Floor >= s.estimate
  {
    var e := s.estimate as real;
    assert c.percentIncrease * e >= 1.0 * e;
  }

  /** Every sample leaves the estimate in range; a counted one leaves it at or below the mean. */
  lemma StepBounds(c: Config, s: State, x: Sample)
    requires ConfigValid(c) && Sane(s) && x.bandwidth <= INT_MAX
    ensures Sane(Step(c, s, x))
    ensures Counts(c, s, x) ==> Step(c, s, x).estimate <= MeanWith(c, s, x) <= INT_MAX
    ensures Step(c, s, x).estimate > s.estimate && s.estimate > 0 ==>
              Step(c, s, x).estimate as real <= Threshold(c, s)
  {
    hide Mean;
    ThresholdAtLeast(c, s);
    if x.bandwidth >= 0 {
      MeanBound(AddSample(s.window, x.bandwidth, c.maxCount), INT_MAX);
    }
  }

  // What a sample does, case by case.

  /** Samples that are negative or too few change nothing but the window. */
  lemma Uncounted(c: Config, s: State, x: Sample)
    requires ConfigValid(c) && !Counts(c, s, x)
    ensures Step(c, s, x).estimate == s.estimate && Step(c, s, x).lastChange == s.lastChange
    ensures x.bandwidth < 0 ==> Step(c, s, x) == s
  {
  }

  /** A drop is followed at once, down to the mean. */
  lemma DropFollowed(c: Config, s: State, x: Sample)
    requires ConfigValid(c) && Counts(c, s, x) && MeanWith(c, s, x) < s.estimate
    ensures Step(c, s, x).estimate == MeanWith(c, s, x) && Step(c, s, x).lastChange == x.time
  {
    hide Mean;
  }

  /**
   Otherwise the estimate rises exactly if the threshold is in range, the mean
   has reached it and the waiting time is over: to the threshold, or from zero to
   the mean.  A mean below the threshold starts the waiting anew.
   */
  lemma RiseIf(c: Config, s: State, x: Sample)
    requires ConfigValid(c) && Counts(c, s, x) && MeanWith(c, s, x) >= s.estimate >= 0
    ensures var t, threshold := Step(c, s, x), (c.percentIncrease * s.estimate as real).Floor;
            if c.percentIncrease * s.estimate as real > INT_MAX as real then
              t.estimate == s.estimate && t.lastChange == s.lastChange
            else if MeanWith(c, s, x) < threshold then t.estimate == s.estimate && t.lastChange == x.time
            else if x.time < s.lastChange + c.timeBetweenIncrease then
              t.estimate == s.estimate && t.lastChange == s.lastChange
            else t.estimate == (if threshold == 0 then MeanWith(c, s, x) else threshold) && t.lastChange == x.time
  {
    hide Mean;
  }

  // ------------------------------------------------------------------
  // Whole histories
  // ------------------------------------------------------------------

  ghost predicate IsRun(c: Config, trace: seq<State>, xs: seq<Sample>) {
    && ConfigValid(c)
    && |trace| == |xs| + 1
    && Sane(trace[0])
    && (forall i :: 0 <= i < |xs| ==> xs[i].bandwidth <= INT_MAX && trace[i + 1] == Step(c, trace[i], xs[i]))
    && (forall i, j :: 0 <= i < j < |xs| ==> xs[i].time <= xs[j].time)
  }

  /** The bandwidths sampled, without negative ones. */
  function Accepted(xs: seq<Sample>): seq<nat> {
    if xs == [] then []
    else Accepted(xs[..|xs| - 1]) + if xs[|xs| - 1].bandwidth >= 0 then [xs[|xs| - 1].bandwidth] else []
  }

  /** The newest `n` of the samples, or all if there are fewer. */
  function Newest(w: seq<nat>, n: nat): seq<nat> {
    if |w| <= n then w else w[|w| - n..]
  }

  /** In every history that begins with an empty window, it holds the newest samples, as many as are averaged. */
  lemma {:induction false} WindowIsNewest(c: Config, trace: seq<State>, xs: seq<Sample>, i: nat)
    requires IsRun(c, trace, xs) && i < |trace| && trace[0].window == []
    ensures trace[i].window == Newest(Accepted(xs[..i]), c.maxCount)
  {
    hide Sane, Mean;
    if i == 0 {
      assert xs[..0] == [];
    } else {
      WindowIsNewest(c, trace, xs, i - 1);
      assert xs[..i][..i - 1] == xs[..i - 1] && xs[..i][i - 1] == xs[i - 1];
      WindowStep(c, trace[i - 1], xs[i - 1]);
      AddToNewest(Accepted(xs[..i - 1]), xs[i - 1].bandwidth, c.maxCount);
    }
  }

  lemma WindowStep(c: Config, s: State, x: Sample)
    requires ConfigValid(c)
    ensures Step(c, s, x).window == if x.bandwidth >= 0 then AddSample(s.window, x.bandwidth, c.maxCount) else s.window
  {
    hide Mean, AddSample;
  }

  lemma AddToNewest(w: seq<nat>, x: int, n: nat)
    requires n >= 1
    ensures x >= 0 ==> AddSample(Newest(w, n), x, n) == Newest(w + [x], n)
    ensures w + [] == w
  {
  }

  /** The sample counts against an increase: it moved the estimate, or its mean was below the threshold. */
  ghost predicate Disturbs(c: Config, s: State, x: Sample)
    requires ConfigValid(c)
  {
    Counts(c, s, x) && (Step(c, s, x).estimate != s.estimate || MeanWith(c, s, x) < Threshold(c, s).Floor)
  }

  /** A threshold beyond the range of the estimate is never reached. */
  predicate OutOfReach(c: Config, estimate: int) {
    c.percentIncrease * estimate as real > INT_MAX as real
  }

  /** Such a sample is recorded, unless the threshold is out of reach anyway. */
  lemma DisturbanceRecorded(c: Config, s: State, x: Sample)
    requires ConfigValid(c) && Disturbs(c, s, x)
    ensures || Step(c, s, x).lastChange == x.time
            || (Step(c, s, x).estimate == s.estimate && OutOfReach(c, s.estimate))
  {
    hide Mean;
  }

  /** From then on its time is covered by the last change, or the estimate is where it was. */
  lemma {:induction false} LastChangeCovers(c: Config, trace: seq<State>, xs: seq<Sample>, j: nat, i: nat)
    requires IsRun(c, trace, xs) && j < i <= |xs| && Disturbs(c, trace[j], xs[j])
    ensures || trace[i].lastChange >= xs[j].time
            || (trace[i].estimate == trace[j].estimate && OutOfReach(c, trace[j].estimate))
  {
    hide Step, Disturbs, OutOfReach;
    if i == j + 1 {
      DisturbanceRecorded(c, trace[j], xs[j]);
    } else {
      LastChangeCovers(c, trace, xs, j, i - 1);
      LastChangeIs(c, trace[i - 1], xs[i - 1]);
    }
  }

  lemma LastChangeIs(c: Config, s: State, x: Sample)
    requires ConfigValid(c)
    ensures Step(c, s, x).lastChange == x.time
         || (Step(c, s, x).lastChange == s.lastChange && Step(c, s, x).estimate == s.estimate)
  {
    hide Mean;
  }

  /** An increase comes only after a full quiet period: every earlier disturbance lies at least that far back. */
  lemma IncreaseAfterQuiet(c: Config, trace: seq<State>, xs: seq<Sample>, i: nat, j: nat)
    requires IsRun(c, trace, xs) && j < i < |xs|
    requires trace[i + 1].estimate > trace[i].estimate && Disturbs(c, trace[j], xs[j])
    ensures xs[j].time + c.timeBetweenIncrease <= xs[i].time
  {
    hide Disturbs, Step, OutOfReach;
    LastChangeCovers(c, trace, xs, j, i);
    IncreaseNeedsTime(c, trace[i], xs[i]);
  }

  lemma IncreaseNeedsTime(c: Config, s: State, x: Sample)
    requires ConfigValid(c) && Step(c, s, x).estimate > s.estimate
    ensures x.time >= s.lastChange + c.timeBetweenIncrease
    ensures !OutOfReach(c, s.estimate)
  {
    hide Mean;
  }

  /** In every history the estimate stays a bandwidth, at most the latest counted mean. */
  lemma {:induction false} HistoryBounds(c: Config, trace: seq<State>, xs: seq<Sample>, i: nat)
    requires IsRun(c, trace, xs) && i < |trace|
    ensures Sane(trace[i])
    ensures i > 0 && Counts(c, trace[i - 1], xs[i - 1]) ==>
              trace[i].estimate <= MeanWith(c, trace[i - 1], xs[i - 1])
    ensures i > 0 && trace[i].estimate > trace[i - 1].estimate && trace[i - 1].estimate > 0 ==>
              trace[i].estimate as real <= c.percentIncrease * trace[i - 1].estimate as real
  {
    hide Step, Counts, MeanWith, Sane;
    if i > 0 {
      HistoryBounds(c, trace, xs, i - 1);
      StepBounds(c, trace[i - 1], xs[i - 1]);
    }
  }

  // ------------------------------------------------------------------
  // The object
  // ------------------------------------------------------------------

  class BandwidthSmoother {
    const config: Config
    var bandwidthEstimation: int
    var timeAtLastChange: nat
    var window: seq<nat>

    function Value(): State
      reads this
    {
      State(bandwidthEstimation, timeAtLastChange, window)
    }

    constructor (initialGuess: int, timeBetweenIncrease: nat, percentIncrease: real, samplesToAverage: nat,
                 minSamplePercent: real)
      requires samplesToAverage >= 1
      ensures ConfigValid(config) && Value() == State(initialGuess, 0, [])
      ensures config.timeBetweenIncrease == timeBetweenIncrease && config.maxCount == samplesToAverage
      ensures config.percentIncrease == if percentIncrease < 1.0 then 1.0 else percentIncrease
      ensures minSamplePercent <= 0.0 ==> config.minCount == 0
      ensures minSamplePercent >= 1.0 ==> config.minCount == samplesToAverage
      ensures 0.0 <= minSamplePercent <= 1.0 ==>
                config.minCount as real <= samplesToAverage as real * minSamplePercent < config.minCount as real + 1.0
    {
      var share := if minSamplePercent < 0.0 then 0.0 else if minSamplePercent > 1.0 then 1.0 else minSamplePercent;
      var minCount := (samplesToAverage as real * share).Floor;
      ShareNonNegative(samplesToAverage, share);
      config := Config(timeBetweenIncrease, if percentIncrease < 1.0 then 1.0 else percentIncrease,
                       samplesToAverage, minCount);
      bandwidthEstimation, timeAtLastChange, window := initialGuess, 0, [];
    }

    method TakeSample(sampleTime: nat, bandwidth: int) returns (changed: bool)
      requires ConfigValid(config)
      modifies this
      ensures Value() == Step(config, old(Value()), Sample(sampleTime, bandwidth))
      ensures changed <==> bandwidthEstimation != old(bandwidthEstimation)
    {
      hide Mean, AddSample;
      if bandwidth < 0 {
        return false;
      }
      window := AddSample(window, bandwidth, config.maxCount);
      if |window| < config.minCount {
        return false;
      }
      var meanBandwidth := Mean(window);
      if meanBandwidth < bandwidthEstimation {
        timeAtLastChange := sampleTime;
        bandwidthEstimation := meanBandwidth;
        return true;
      }
      var oldEstimation := bandwidthEstimation;
      var thresholdReal := config.percentIncrease * bandwidthEstimation as real;
      if thresholdReal > INT_MAX as real {
        return false;
      }
      var increaseThreshold := thresholdReal.Floor;
      if meanBandwidth < increaseThreshold {
        timeAtLastChange := sampleTime;
      } else if sampleTime >= timeAtLastChange + config.timeBetweenIncrease {
        timeAtLastChange := sampleTime;
        if increaseThreshold == 0 {
          bandwidthEstimation := meanBandwidth;
        } else {
          bandwidthEstimation := increaseThreshold;
        }
      }
      return oldEstimation != bandwidthEstimation;
    }
  }

  lemma ShareNonNegative(n: nat, share: real)
    requires share >= 0.0
    ensures (n as real * share).Floor >= 0
  {
    assert n as real * share >= 0.0;
  }
}
