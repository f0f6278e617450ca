/** The statistics of utils/bench-scheduler.cc: one pass over the runs keeps an average and a second
    moment for each measured quantity. Times are exact reals. */
module Welford {
  import opened Options

  datatype PhaseResult = PhaseResult(time: real, rate: real, period: real)

  datatype Result = Result(init: PhaseResult, run: PhaseResult)

  // ---- The definitions by the whole sample ----

  function Total(xs: seq<real>): real {
    if xs == [] then 0.0 else Total(xs[..|xs| - 1]) + xs[|xs| - 1]
  }

  function Mean(xs: seq<real>): real
    requires xs != []
  {
    Total(xs) / |xs| as real
  }

  /** The sum of the squared deviations from c. */
  function SquaredDeviations(xs: seq<real>, c: real): real {
    if xs == [] then 0.0
    else
      var d := xs[|xs| - 1] - c;
      SquaredDeviations(xs[..|xs| - 1], c) + d * d
  }

  lemma {:induction false} DeviationsNonNegative(xs: seq<real>, c: real)
    ensures SquaredDeviations(xs, c) >= 0.0
  {
    if xs == [] {
    } else {
      DeviationsNonNegative(xs[..|xs| - 1], c);
      SquareNonNegative(xs[|xs| - 1] - c);
    }
  }

  lemma SquareNonNegative(d: real)
    ensures d * d >= 0.0
  {
    if d < 0.0 {
      assert (-d) * (-d) == d * d;
    }
  }

  function SumOfSquares(xs: seq<real>): real {
    if xs == [] then 0.0 else SumOfSquares(xs[..|xs| - 1]) + xs[|xs| - 1] * xs[|xs| - 1]
  }

  lemma Distribute(c: real, a: real, b: real)
    ensures c * (a + b) == c * a + c * b
  {
  }

  /** The squared deviations from c of n values with the given power sums. */
  function ByPowerSums(squares: real, sum: real, n: real, c: real): real {
    squares - 2.0 * (c * sum) + n * (c * c)
  }

  lemma ByPowerSumsNext(squares: real, sum: real, n: real, x: real, c: real)
    ensures ByPowerSums(squares, sum, n, c) + (x - c) * (x - c) == ByPowerSums(squares + x * x, sum + x, n + 1.0, c)
  {
    assert (x - c) * (x - c) == x * x - 2.0 * (c * x) + c * c;
    Distribute(c, sum, x);
    assert (n + 1.0) * (c * c) == n * (c * c) + c * c;
  }

  lemma {:induction false} DeviationsByPowerSums(xs: seq<real>, c: real)
    ensures SquaredDeviations(xs, c) == ByPowerSums(SumOfSquares(xs), Total(xs), |xs| as real, c)
  {
    if xs == [] {
    } else {
      var front, x := xs[..|xs| - 1], xs[|xs| - 1];
      DeviationsByPowerSums(front, c);
      ByPowerSumsNext(SumOfSquares(front), Total(front), |front| as real, x, c);
      PowerSumsAppend(front, x);
      assert xs == front + [x];
    }
  }

  // ---- One step ----

  datatype Stat = Stat(average: real, moment2: real)

  /** The average and the second moment are those of a sample, given by its size and power sums. */
  ghost predicate Fits(average: real, moment2: real, n: real, sum: real, squares: real) {
    n * average == sum && moment2 == squares - average * sum
  }

  ghost predicate Describes(average: real, moment2: real, xs: seq<real>) {
    xs != [] && Fits(average, moment2, |xs| as real, Total(xs), SumOfSquares(xs))
  }

  lemma DescribesMean(average: real, moment2: real, xs: seq<real>)
    requires Describes(average, moment2, xs)
    ensures average == Mean(xs) && moment2 == SquaredDeviations(xs, Mean(xs)) && moment2 >= 0.0
  {
    MeanIsQuotient(average, |xs| as real, Total(xs));
    DeviationsByPowerSums(xs, average);
    assert |xs| as real * (average * average) == average * (|xs| as real * average);
    DeviationsNonNegative(xs, average);
  }

  lemma MeanIsQuotient(average: real, n: real, sum: real)
    requires n > 0.0 && n * average == sum
    ensures average == sum / n
  {
  }

  /** The average is pulled towards the sample, and the product of the deviations before and after is
      what the sample adds to the second moment. */
  function Accumulate(x: real, average: real, moment2: real, count: nat): Stat
    requires count > 0
  {
    var deltaPre := x - average;
    var average' := average + deltaPre / count as real;
    var deltaPost := x - average';
    Stat(average', moment2 + deltaPre * deltaPost)
  }

  /** The first sample, with the average already seeded by it. */
  lemma FirstSample(x: real)
    ensures Describes(Accumulate(x, x, 0.0, 1).average, Accumulate(x, x, 0.0, 1).moment2, [x])
  {
    assert [x][..0] == [];
    assert Total([x]) == Total([]) + x && SumOfSquares([x]) == SumOfSquares([]) + x * x;
  }

  /** The new average. */
  lemma AverageStep(n: real, average: real, sum: real, x: real, next: real)
    requires n > 0.0 && n * average == sum && next == average + (x - average) / (n + 1.0)
    ensures (n + 1.0) * next == sum + x
  {
    var e := (x - average) / (n + 1.0);
    assert (n + 1.0) * e == x - average;
    Distribute(n + 1.0, average, e);
    assert (n + 1.0) * average == n * average + average;
  }

  /** The new second moment. */
  lemma MomentStep(n: real, average: real, sum: real, squares: real, x: real, next: real)
    requires n * average == sum && (n + 1.0) * next == sum + x
    ensures (squares - average * sum) + (x - average) * (x - next) == (squares + x * x) - next * (sum + x)
  {
    assert (x - average) * (x - next) == x * x - x * next - average * x + average * next;
    Distribute(average, sum, x);
    Distribute(next, sum, x);
    Distribute(next, sum, average);
    CrossProducts(n, average, next);
    assert next * (sum + average) == next * ((n + 1.0) * average);
    assert average * (sum + x) == average * ((n + 1.0) * next);
  }

  lemma CrossProducts(n: real, a: real, b: real)
    ensures b * ((n + 1.0) * a) == a * ((n + 1.0) * b)
    ensures (n + 1.0) * a == n * a + a
  {
  }

  lemma AccumulateFits(x: real, average: real, moment2: real, count: nat, n: real, sum: real, squares: real)
    requires count > 0 && n > 0.0 && count as real == n + 1.0 && Fits(average, moment2, n, sum, squares)
    ensures var next := Accumulate(x, average, moment2, count);
      Fits(next.average, next.moment2, n + 1.0, sum + x, squares + x * x)
  {
    var next := Accumulate(x, average, moment2, count).average;
    AverageStep(n, average, sum, x, next);
    MomentStep(n, average, sum, squares, x, next);
  }

  lemma NextSample(xs: seq<real>, x: real, average: real, moment2: real)
    requires Describes(average, moment2, xs)
    ensures var next := Accumulate(x, average, moment2, |xs| + 1);
      Describes(next.average, next.moment2, xs + [x])
  {
    AccumulateFits(x, average, moment2, |xs| + 1, |xs| as real, Total(xs), SumOfSquares(xs));
    PowerSumsAppend(xs, x);
  }

  lemma PowerSumsAppend(xs: seq<real>, x: real)
    ensures |xs + [x]| as real == |xs| as real + 1.0
    ensures Total(xs + [x]) == Total(xs) + x
    ensures SumOfSquares(xs + [x]) == SumOfSquares(xs) + x * x
  {
    assert (xs + [x])[..|xs|] == xs;
  }

  // ---- The loop over all six quantities ----

  /** One of the six fields of a result. */
  datatype Field = InitTime | InitRate | InitPeriod | RunTime | RunRate | RunPeriod

  function Get(r: Result, f: Field): real {
    match f
    case InitTime => r.init.time
    case InitRate => r.init.rate
    case InitPeriod => r.init.period
    case RunTime => r.run.time
    case RunRate => r.run.rate
    case RunPeriod => r.run.period
  }

  function Column(results: seq<Result>, f: Field): (xs: seq<real>)
    ensures |xs| == |results| && forall i :: 0 <= i < |xs| ==> xs[i] == Get(results[i], f)
  {
    seq(|results|, i requires 0 <= i < |results| => Get(results[i], f))
  }

  function AccumulateAll(run: Result, average: Result, moment2: Result, count: nat): (r: (Result, Result))
    requires count > 0
    ensures forall f :: Stat(Get(r.0, f), Get(r.1, f)) == Accumulate(Get(run, f), Get(average, f), Get(moment2, f), count)
  {
    var it := Accumulate(run.init.time, average.init.time, moment2.init.time, count);
    var ir := Accumulate(run.init.rate, average.init.rate, moment2.init.rate, count);
    var ip := Accumulate(run.init.period, average.init.period, moment2.init.period, count);
    var rt := Accumulate(run.run.time, average.run.time, moment2.run.time, count);
    var rr := Accumulate(run.run.rate, average.run.rate, moment2.run.rate, count);
    var rp := Accumulate(run.run.period, average.run.period, moment2.run.period, count);
    (Result(PhaseResult(it.average, ir.average, ip.average), PhaseResult(rt.average, rr.average, rp.average)),
     Result(PhaseResult(it.moment2, ir.moment2, ip.moment2), PhaseResult(rt.moment2, rr.moment2, rp.moment2)))
  }

  ghost predicate DescribesAll(average: Result, moment2: Result, results: seq<Result>) {
    forall f :: Describes(Get(average, f), Get(moment2, f), Column(results, f))
  }

  lemma NextRun(results: seq<Result>, run: Result, average: Result, moment2: Result)
    requires if results == [] then average == run && moment2 == Zero() else DescribesAll(average, moment2, results)
    ensures var next := AccumulateAll(run, average, moment2, |results| + 1);
      DescribesAll(next.0, next.1, results + [run])
  {
    var next := AccumulateAll(run, average, moment2, |results| + 1);
    forall f ensures Describes(Get(next.0, f), Get(next.1, f), Column(results + [run], f)) {
      assert Column(results + [run], f) == Column(results, f) + [Get(run, f)];
      if results == [] {
        assert Column(results + [run], f) == [Get(run, f)];
        FirstSample(Get(run, f));
      } else {
        NextSample(Column(results, f), Get(run, f), Get(average, f), Get(moment2, f));
      }
    }
  }

  function Zero(): (r: Result)
    ensures forall f :: Get(r, f) == 0.0
  {
    Result(PhaseResult(0.0, 0.0, 0.0), PhaseResult(0.0, 0.0, 0.0))
  }

  /** With fewer than two runs there is nothing to report. Otherwise each average is the mean of its
      column and each second moment the sum of squared deviations from that mean. */
  method Summarize(results: seq<Result>) returns (summary: Option<(Result, Result)>)
    ensures summary.None? <==> |results| < 2
    ensures summary.Some? ==> forall f ::
      && Get(summary.value.0, f) == Mean(Column(results, f))
      && Get(summary.value.1, f) == SquaredDeviations(Column(results, f), Mean(Column(results, f)))
      && Get(summary.value.1, f) >= 0.0
  {
    if |results| < 2 {
      return None;
    }
    var n := 0;
    var average, moment2 := results[0], Zero();
    while n < |results|
      invariant 0 <= n <= |results|
      invariant n == 0 ==> average == results[0] && moment2 == Zero()
      invariant n > 0 ==> DescribesAll(average, moment2, results[..n])
    {
      var run := results[n];
      var count := n + 1;
      NextRun(results[..n], run, average, moment2);
      assert results[..n] + [run] == results[..n + 1];
      var next := AccumulateAll(run, average, moment2, count);
      average, moment2 := next.0, next.1;
      n := n + 1;
    }
    assert results[..n] == results;
    forall f
      ensures Get(average, f) == Mean(Column(results, f))
      ensures Get(moment2, f) == SquaredDeviations(Column(results, f), Mean(Column(results, f)))
      ensures Get(moment2, f) >= 0.0
    {
      DescribesMean(Get(average, f), Get(moment2, f), Column(results, f));
    }
    summary := Some((average, moment2));
  }
}
