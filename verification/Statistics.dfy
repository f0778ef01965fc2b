/** The running mean and second moment of utils/bench-scheduler.cc, over the reals: the one-pass loop
    gives the two-pass mean and sum of squared deviations. */
module Statistics {
  import opened Sequences

  datatype PhaseResult = PhaseResult(time: real, rate: real, period: real)

  datatype RunResult = RunResult(init: PhaseResult, run: PhaseResult)

  /** The six quantities that are averaged. */
  datatype Quantity = InitTime | InitRate | InitPeriod | SimuTime | SimuRate | SimuPeriod

  function Value(r: RunResult, q: Quantity): real {
    match q
    case InitTime => r.init.time
    case InitRate => r.init.rate
    case InitPeriod => r.init.period
    case SimuTime => r.run.time
    case SimuRate => r.run.rate
    case SimuPeriod => r.run.period
  }

  function Column(results: seq<RunResult>, q: Quantity): (r: seq<real>)
    ensures |r| == |results| && forall i :: 0 <= i < |r| ==> r[i] == Value(results[i], q)
  {
    seq(|results|, i requires 0 <= i < |results| => Value(results[i], q))
  }

  // ----- the two-pass definitions

  function Sum(xs: seq<real>): real {
    if xs == [] then 0.0 else Sum(xs[..|xs| - 1]) + xs[|xs| - 1]
  }

  function Mean(xs: seq<real>): real
    requires xs != []
  {
    Sum(xs) / |xs| as real
  }

  /** The sum of squared deviations from `m`. */
  function SquaredDeviations(xs: seq<real>, m: real): real {
    if xs == [] then 0.0
    else SquaredDeviations(xs[..|xs| - 1], m) + (xs[|xs| - 1] - m) * (xs[|xs| - 1] - m)
  }

  // ----- one step of the loop

  /** The average moves from `m` to `m1` on a sample `x` that follows `n` others. */
  predicate Moves(m: real, m1: real, x: real, n: real) { (m1 - m) * (n + 1.0) == x - m }

  /** The second moment gains the product of the deviations before and after the move. */
  predicate Gains(before: real, after: real, x: real, m: real, m1: real) { after == before + (x - m) * (x - m1) }

  lemma Distribute(a: real, b: real, c: real)
    ensures a * (b + c) == a * b + a * c
    ensures a * (b - c) == a * b - a * c
  {
  }

  /** How a sum `shifted` of squared deviations from `other` relates to the sum `dev` from `m`, for
      `n` samples with the given total: the parallel-axis identity. */
  predicate ParallelAxis(dev: real, shifted: real, n: real, total: real, m: real, other: real) {
    shifted == dev - 2.0 * (other - m) * (total - n * m) + n * ((other - m) * (other - m))
  }

  lemma ParallelAxisStep(dev: real, shifted: real, n: real, n1: real, total: real, x: real, m: real, other: real)
    requires ParallelAxis(dev, shifted, n, total, m, other) && n1 == n + 1.0
    ensures ParallelAxis(dev + (x - m) * (x - m), shifted + (x - other) * (x - other), n1, total + x, m, other)
  {
    var d, y := other - m, x - m;
    assert x - other == y - d;
    assert total + x - n1 * m == (total - n * m) + y by { Distribute(m, n, 1.0); }
    Distribute(2.0 * d, total - n * m, y);
    Distribute(d * d, n, 1.0);
  }

  lemma ParallelAxisEmpty(m: real, other: real)
    ensures ParallelAxis(0.0, 0.0, 0.0, 0.0, m, other)
  {
    assert 0.0 - 0.0 * m == 0.0;
  }

  /** The sums over a sample, in the relation above. */
  predicate OnParallelAxis(xs: seq<real>, m: real, other: real) {
    ParallelAxis(SquaredDeviations(xs, m), SquaredDeviations(xs, other), |xs| as real, Sum(xs), m, other)
  }

  lemma OneMoreSample(most: seq<real>, x: real, m: real, other: real)
    requires OnParallelAxis(most, m, other)
    ensures OnParallelAxis(most + [x], m, other)
  {
    var n1 := |most + [x]| as real;
    SumSnoc(most, x, m);
    SumSnoc(most, x, other);
    ParallelAxisStep(SquaredDeviations(most, m), SquaredDeviations(most, other),
                     |most| as real, n1, Sum(most), x, m, other);
  }

  lemma {:induction false} DeviationsShift(xs: seq<real>, m: real, other: real)
    ensures OnParallelAxis(xs, m, other)
  {
    if xs == [] {
      ParallelAxisEmpty(m, other);
    } else {
      DeviationsShift(xs[..|xs| - 1], m, other);
      OneMoreSample(xs[..|xs| - 1], xs[|xs| - 1], m, other);
      assert xs == xs[..|xs| - 1] + [xs[|xs| - 1]];
    }
  }

  lemma ParallelAxisAboutMean(dev: real, shifted: real, n: real, total: real, m: real, other: real)
    requires ParallelAxis(dev, shifted, n, total, m, other) && m * n == total
    ensures shifted == dev + n * ((other - m) * (other - m))
  {
    assert total - n * m == 0.0;
  }

  /** The mean without a division. */
  predicate IsMean(xs: seq<real>, m: real) { xs != [] && m * |xs| as real == Sum(xs) }

  /** About the mean the linear term vanishes. */
  lemma DeviationsAboutMean(xs: seq<real>, m: real, other: real)
    requires IsMean(xs, m)
    ensures SquaredDeviations(xs, other) == SquaredDeviations(xs, m) + |xs| as real * ((other - m) * (other - m))
  {
    DeviationsShift(xs, m, other);
    ParallelAxisAboutMean(SquaredDeviations(xs, m), SquaredDeviations(xs, other), |xs| as real, Sum(xs), m, other);
  }

  lemma SumSnoc(xs: seq<real>, x: real, m: real)
    ensures Sum(xs + [x]) == Sum(xs) + x
    ensures SquaredDeviations(xs + [x], m) == SquaredDeviations(xs, m) + (x - m) * (x - m)
  {
    assert (xs + [x])[..|xs|] == xs;
  }

  lemma StepMomentIsDeviations(xs: seq<real>, x: real, m: real, m1: real)
    requires IsMean(xs, m) && Moves(m, m1, x, |xs| as real)
    ensures Gains(SquaredDeviations(xs, m), SquaredDeviations(xs + [x], m1), x, m, m1)
  {
    var a, b, c := (x - m) * (x - m1), (x - m1) * (x - m1), |xs| as real * ((m1 - m) * (m1 - m));
    assert a == c + b by { MomentAlgebra(|xs| as real, x, m, m1); }
    assert SquaredDeviations(xs + [x], m1) == SquaredDeviations(xs, m1) + b by { SumSnoc(xs, x, m1); }
    assert SquaredDeviations(xs, m1) == SquaredDeviations(xs, m) + c by { DeviationsAboutMean(xs, m, m1); }
  }

  lemma MomentAlgebra(n: real, x: real, m: real, m1: real)
    requires Moves(m, m1, x, n)
    ensures (x - m) * (x - m1) == n * ((m1 - m) * (m1 - m)) + (x - m1) * (x - m1)
  {
    var d := m1 - m;
    var z := n * d;
    assert x - m == z + d by { Distribute(d, n, 1.0); }
    assert x - m1 == z;
    assert (z + d) * z == d * z + z * z by { Distribute(z, z, d); }
    assert n * (d * d) == d * z;
  }

  lemma {:induction false} DeviationsNonnegative(xs: seq<real>, m: real)
    ensures SquaredDeviations(xs, m) >= 0.0
  {
    if xs != [] {
      DeviationsNonnegative(xs[..|xs| - 1], m);
      var y := xs[|xs| - 1] - m;
      assert y * y >= 0.0;
    }
  }

  // ----- the loop

  /** The accumulation of one field; `count` includes the new sample. */
  method Accumulate(average: real, moment: real, sample: real, count: nat) returns (newAverage: real, newMoment: real)
    requires count > 0
    ensures Moves(average, newAverage, sample, (count - 1) as real)
    ensures Gains(moment, newMoment, sample, average, newAverage)
  {
    var deltaPre := sample - average;
    var shift := deltaPre / count as real;
    assert shift * count as real == deltaPre;
    newAverage := average + shift;
    assert newAverage - average == shift && (count - 1) as real + 1.0 == count as real;
    var deltaPost := sample - newAverage;
    newMoment := moment + deltaPre * deltaPost;
  }

  /** The new values follow from the old ones by one sample, in each field of a phase. */
  predicate PhaseStep(average: PhaseResult, newAverage: PhaseResult, moment: PhaseResult, newMoment: PhaseResult,
                      sample: PhaseResult, n: real) {
    && Moves(average.time, newAverage.time, sample.time, n)
    && Moves(average.rate, newAverage.rate, sample.rate, n)
    && Moves(average.period, newAverage.period, sample.period, n)
    && Gains(moment.time, newMoment.time, sample.time, average.time, newAverage.time)
    && Gains(moment.rate, newMoment.rate, sample.rate, average.rate, newAverage.rate)
    && Gains(moment.period, newMoment.period, sample.period, average.period, newAverage.period)
  }

  method AccumulatePhase(average: PhaseResult, moment: PhaseResult, sample: PhaseResult, count: nat)
    returns (newAverage: PhaseResult, newMoment: PhaseResult)
    requires count > 0
    ensures PhaseStep(average, newAverage, moment, newMoment, sample, (count - 1) as real)
  {
    var averageTime, momentTime := Accumulate(average.time, moment.time, sample.time, count);
    var averageRate, momentRate := Accumulate(average.rate, moment.rate, sample.rate, count);
    var averagePeriod, momentPeriod := Accumulate(average.period, moment.period, sample.period, count);
    newAverage := PhaseResult(averageTime, averageRate, averagePeriod);
    newMoment := PhaseResult(momentTime, momentRate, momentPeriod);
  }

  /** What the running values are after the first `n` samples of a column. */
  ghost predicate Running(xs: seq<real>, n: nat, average: real, moment: real)
    requires n <= |xs| && xs != []
  {
    if n == 0 then average == xs[0] && moment == 0.0
    else IsMean(xs[..n], average) && moment == SquaredDeviations(xs[..n], average)
  }

  lemma FirstSample(xs: seq<real>, m1: real, moment1: real)
    requires xs != [] && Moves(xs[0], m1, xs[0], 0.0) && Gains(0.0, moment1, xs[0], xs[0], m1)
    ensures Running(xs, 1, m1, moment1)
  {
    assert m1 == xs[0] && moment1 == 0.0;
    SumSnoc([], xs[0], m1);
    assert [] + [xs[0]] == xs[..1];
  }

  lemma LaterSample(xs: seq<real>, n: nat, average: real, moment: real, m1: real, moment1: real)
    requires 0 < n < |xs| && Running(xs, n, average, moment)
    requires Moves(average, m1, xs[n], n as real) && Gains(moment, moment1, xs[n], average, m1)
    ensures Running(xs, n + 1, m1, moment1)
  {
    var seen, x := xs[..n], xs[n];
    assert xs[..n + 1] == seen + [x];
    StepMomentIsDeviations(seen, x, average, m1);
  }

  lemma RunningStep(xs: seq<real>, n: nat, average: real, moment: real, m1: real, moment1: real)
    requires n < |xs| && Running(xs, n, average, moment)
    requires Moves(average, m1, xs[n], n as real) && Gains(moment, moment1, xs[n], average, m1)
    ensures Running(xs, n + 1, m1, moment1)
  {
    if n == 0 {
      FirstSample(xs, m1, moment1);
    } else {
      LaterSample(xs, n, average, moment, m1, moment1);
    }
  }

  /** What is logged for one quantity: the mean, the second moment, and the variance whose square root
      is the standard deviation. */
  ghost predicate Summarises(xs: seq<real>, average: real, moment: real, variance: real) {
    && xs != [] && average == Mean(xs) && moment == SquaredDeviations(xs, average)
    && variance == moment / |xs| as real && variance >= 0.0
  }

  lemma RunToTheEnd(xs: seq<real>, average: real, moment: real)
    requires xs != [] && Running(xs, |xs|, average, moment)
    ensures Summarises(xs, average, moment, moment / |xs| as real)
  {
    assert xs[..|xs|] == xs;
    DeviationsNonnegative(xs, average);
  }

  /** The statistics over the runs; nothing when there are fewer than two. */
  method Summarise(results: seq<RunResult>) returns (summary: Option<(RunResult, RunResult, RunResult)>)
    ensures summary.None? <==> |results| < 2
    ensures summary.Some? ==> forall q: Quantity ::
      Summarises(Column(results, q), Value(summary.value.0, q), Value(summary.value.1, q), Value(summary.value.2, q))
  {
    if |results| < 2 {
      return None;
    }
    var average := results[0];
    var moment2 := RunResult(PhaseResult(0.0, 0.0, 0.0), PhaseResult(0.0, 0.0, 0.0));
    var n := 0;
    while n < |results|
      invariant 0 <= n <= |results|
      invariant forall q: Quantity :: Running(Column(results, q), n, Value(average, q), Value(moment2, q))
    {
      var sample := results[n];
      var count := n + 1;
      var initAverage, initMoment := AccumulatePhase(average.init, moment2.init, sample.init, count);
      var runAverage, runMoment := AccumulatePhase(average.run, moment2.run, sample.run, count);
      ghost var newAverage, newMoment := RunResult(initAverage, runAverage), RunResult(initMoment, runMoment);
      forall q: Quantity ensures Running(Column(results, q), n + 1, Value(newAverage, q), Value(newMoment, q)) {
        RunningStep(Column(results, q), n, Value(average, q), Value(moment2, q),
                    Value(newAverage, q), Value(newMoment, q));
      }
      average, moment2 := RunResult(initAverage, runAverage), RunResult(initMoment, runMoment);
      n := n + 1;
    }
    var variance := RunResult(Divided(moment2.init, n), Divided(moment2.run, n));
    forall q: Quantity
      ensures Summarises(Column(results, q), Value(average, q), Value(moment2, q), Value(variance, q))
    {
      RunToTheEnd(Column(results, q), Value(average, q), Value(moment2, q));
    }
    return Some((average, moment2, variance));
  }

  function Divided(p: PhaseResult, n: nat): PhaseResult
    requires n > 0
  {
    PhaseResult(p.time / n as real, p.rate / n as real, p.period / n as real)
  }
}
