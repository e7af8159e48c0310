/** `BenchSuite::Log`: mean and spread in one pass, against their definition in two. */
module Welford {

  // ---- the definition, for one field ----

  function Sum(xs: seq<real>): real { if xs == [] then 0.0 else Sum(xs[..|xs| - 1]) + xs[|xs| - 1] }

  function Mean(xs: seq<real>): real
    requires xs != []
  {
    Sum(xs) / |xs| as real
  }

  function Square(x: real): real { x * x }

  /** The sum of the squared distances from `c`. */
  function Spread(xs: seq<real>, c: real): real {
    if xs == [] then 0.0 else Spread(xs[..|xs| - 1], c) + Square(xs[|xs| - 1] - c)
  }

  /** What moving the centre from `c` by `e` adds to the spread of `k` numbers with sum `s`. */
  function Moved(s: real, k: real, c: real, e: real): real { k * Square(e) - 2.0 * e * (s - k * c) }

  lemma {:induction false} SpreadShift(xs: seq<real>, c: real, e: real)
    ensures Spread(xs, c + e) == Spread(xs, c) + Moved(Sum(xs), |xs| as real, c, e)
  {
    if xs != [] {
      var n := |xs| - 1;
      SpreadShift(xs[..n], c, e);
      MovedStep(Sum(xs[..n]), n as real, c, e, xs[n], |xs| as real);
    }
  }

  lemma MovedStep(s: real, k: real, c: real, e: real, x: real, k1: real)
    requires k1 == k + 1.0
    ensures Moved(s, k, c, e) + Square(x - (c + e)) == Square(x - c) + Moved(s + x, k1, c, e)
  {}

  /** One step of the accumulation: the new mean and what is added to the second moment. */
  function NextMean(mean: real, x: real, count: nat): real
    requires count > 0
  {
    mean + (x - mean) / count as real
  }

  lemma Undo(a: real, b: real)
    requires b > 0.0
    ensures a / b * b == a
  {}

  lemma DividedBack(a: real, b: real, q: real)
    requires b > 0.0 && a == b * q
    ensures a / b == q
  {}

  lemma StepProduct(k: real, d: real, pre: real, post: real)
    requires pre == (k + 1.0) * d && post == k * d
    ensures k * Square(d) + Square(post) == pre * post
  {}

  lemma MeanIs(xs: seq<real>)
    requires xs != []
    ensures Sum(xs) == |xs| as real * Mean(xs)
  {
    Undo(Sum(xs), |xs| as real);
  }

  lemma NewMean(s: real, k: real, m: real, x: real, d: real)
    requires k > 0.0 && s == k * m && d == (x - m) / (k + 1.0)
    ensures (s + x) / (k + 1.0) == m + d && x - m == (k + 1.0) * d && x - (m + d) == k * d
  {
    Undo(x - m, k + 1.0);
    DividedBack(s + x, k + 1.0, m + d);
  }

  lemma SumMore(xs: seq<real>, x: real, c: real)
    ensures Sum(xs + [x]) == Sum(xs) + x && Spread(xs + [x], c) == Spread(xs, c) + Square(x - c)
  {
    assert (xs + [x])[..|xs|] == xs;
  }

  lemma MovedFromMean(s: real, k: real, m: real, d: real)
    requires s == k * m
    ensures Moved(s, k, m, d) == k * Square(d)
  {}

  lemma MeanStep(xs: seq<real>, x: real)
    requires xs != []
    ensures Mean(xs + [x]) == NextMean(Mean(xs), x, |xs| + 1)
  {
    MeanIs(xs);
    SumMore(xs, x, 0.0);
    NewMean(Sum(xs), |xs| as real, Mean(xs), x, (x - Mean(xs)) / (|xs| as real + 1.0));
  }

  lemma MeanMoves(xs: seq<real>, x: real, d: real)
    requires xs != [] && d == (x - Mean(xs)) / (|xs| as real + 1.0)
    ensures Mean(xs + [x]) == Mean(xs) + d
    ensures x - Mean(xs) == (|xs| as real + 1.0) * d && x - Mean(xs + [x]) == |xs| as real * d
  {
    MeanIs(xs);
    SumMore(xs, x, 0.0);
    NewMean(Sum(xs), |xs| as real, Mean(xs), x, d);
  }

  lemma SpreadAround(xs: seq<real>, m: real, d: real)
    requires Sum(xs) == |xs| as real * m
    ensures Spread(xs, m + d) == Spread(xs, m) + |xs| as real * Square(d)
  {
    SpreadShift(xs, m, d);
    MovedFromMean(Sum(xs), |xs| as real, m, d);
  }

  /** Away from the mean the spread is larger by the square of the distance. */
  lemma SpreadFromMean(xs: seq<real>, d: real, c: real)
    requires xs != [] && c == Mean(xs) + d
    ensures Spread(xs, c) == Spread(xs, Mean(xs)) + |xs| as real * Square(d)
  {
    var m := Mean(xs);
    MeanIs(xs);
    SpreadAt(xs, m, d, c);
  }

  lemma SpreadAt(xs: seq<real>, m: real, d: real, c: real)
    requires Sum(xs) == |xs| as real * m && c == m + d
    ensures Spread(xs, c) == Spread(xs, m) + |xs| as real * Square(d)
  {
    SpreadAround(xs, m, d);
  }

  /** The distance the mean moves by. */
  function Move(xs: seq<real>, x: real): real
    requires xs != []
  {
    (x - Mean(xs)) / (|xs| as real + 1.0)
  }

  lemma MoveProduct(xs: seq<real>, x: real)
    requires xs != []
    ensures |xs| as real * Square(Move(xs, x)) + Square(x - Mean(xs + [x])) == (x - Mean(xs)) * (x - Mean(xs + [x]))
  {
    MeanMoves(xs, x, Move(xs, x));
    StepProduct(|xs| as real, Move(xs, x), x - Mean(xs), x - Mean(xs + [x]));
  }

  lemma MeanMoved(xs: seq<real>, x: real)
    requires xs != []
    ensures Mean(xs + [x]) == Mean(xs) + Move(xs, x)
  {
    MeanMoves(xs, x, Move(xs, x));
  }

  lemma SpreadStepBy(xs: seq<real>, x: real, d: real, c: real, product: real)
    requires xs != [] && c == Mean(xs) + d
    requires |xs| as real * Square(d) + Square(x - c) == product
    ensures Spread(xs + [x], c) == Spread(xs, Mean(xs)) + product
  {
    SpreadFromMean(xs, d, c);
    SumMore(xs, x, c);
  }

  lemma SpreadStep(xs: seq<real>, x: real)
    requires xs != []
    ensures Spread(xs + [x], Mean(xs + [x])) == Spread(xs, Mean(xs)) + (x - Mean(xs)) * (x - Mean(xs + [x]))
  {
    MeanMoved(xs, x);
    MoveProduct(xs, x);
    SpreadStepBy(xs, x, Move(xs, x), Mean(xs + [x]), (x - Mean(xs)) * (x - Mean(xs + [x])));
  }

  // ---- the six fields of a result ----

  /** The measurements of one phase, and of one run of the benchmark. */
  datatype Phase = Phase(time: real, rate: real, period: real)

  datatype Result = Result(init: Phase, run: Phase)

  /** What the accumulators hold once the numbers `xs` are in; before any, the mean starts from `first`. */
  ghost predicate Accumulated(xs: seq<real>, first: real, mean: real, moment2: real) {
    if xs == [] then mean == first && moment2 == 0.0
    else mean == Mean(xs) && moment2 == Spread(xs, Mean(xs))
  }

  function Column(rs: seq<Result>, n: nat, f: Result -> real): seq<real>
    requires n <= |rs|
  {
    seq(n, i requires 0 <= i < n => f(rs[i]))
  }

  lemma OneNumber(x: real)
    ensures Mean([x]) == x && Spread([x], x) == 0.0 && NextMean(x, x, 1) == x
  {
    assert [x][..0] == [];
    assert Sum([x]) == 0.0 + x;
  }

  /** The macro of the loop body, for one field. */
  method Accumulate(mean0: real, moment0: real, x: real, count: nat, ghost rs: seq<Result>, ghost f: Result -> real)
    returns (mean: real, moment2: real)
    requires 0 < count <= |rs| && x == f(rs[count - 1])
    requires Accumulated(Column(rs, count - 1, f), f(rs[0]), mean0, moment0)
    ensures Accumulated(Column(rs, count, f), f(rs[0]), mean, moment2)
  {
    var deltaPre := x - mean0;
    mean := mean0 + deltaPre / count as real;
    var deltaPost := x - mean;
    moment2 := moment0 + deltaPre * deltaPost;
    ghost var xs := Column(rs, count - 1, f);
    ColumnMore(rs, count, f);
    if count == 1 {
      assert xs + [x] == [x];
      OneNumber(x);
    } else {
      MeanStep(xs, x);
      SpreadStep(xs, x);
    }
  }

  lemma ColumnMore(rs: seq<Result>, count: nat, f: Result -> real)
    requires 0 < count <= |rs|
    ensures Column(rs, count, f) == Column(rs, count - 1, f) + [f(rs[count - 1])]
  {}

  ghost predicate AccumulatedPhase(rs: seq<Result>, n: nat, f: Result -> Phase, mean: Phase, moment2: Phase)
    requires 0 < |rs| && n <= |rs|
  {
    && Accumulated(Column(rs, n, r => f(r).time), f(rs[0]).time, mean.time, moment2.time)
    && Accumulated(Column(rs, n, r => f(r).rate), f(rs[0]).rate, mean.rate, moment2.rate)
    && Accumulated(Column(rs, n, r => f(r).period), f(rs[0]).period, mean.period, moment2.period)
  }

  method AccumulatePhase(mean0: Phase, moment0: Phase, phase: Phase, count: nat, ghost rs: seq<Result>, ghost f: Result -> Phase)
    returns (mean: Phase, moment2: Phase)
    requires 0 < count <= |rs| && phase == f(rs[count - 1]) && AccumulatedPhase(rs, count - 1, f, mean0, moment0)
    ensures AccumulatedPhase(rs, count, f, mean, moment2)
  {
    var a, b := Accumulate(mean0.time, moment0.time, phase.time, count, rs, r => f(r).time);
    var c, d := Accumulate(mean0.rate, moment0.rate, phase.rate, count, rs, r => f(r).rate);
    var e, g := Accumulate(mean0.period, moment0.period, phase.period, count, rs, r => f(r).period);
    mean, moment2 := Phase(a, c, e), Phase(b, d, g);
  }

  const ZERO := Phase(0.0, 0.0, 0.0)

  function Init(r: Result): Phase { r.init }

  function Run(r: Result): Phase { r.run }

  /** `Log`, up to the square roots: nothing for fewer than two results; else mean and second moment, and
      how many results they are of. */
  method Log(results: seq<Result>) returns (some: bool, average: Result, moment2: Result, n: nat)
    ensures some == (|results| >= 2)
    ensures some ==>
              && n == |results|
              && AccumulatedPhase(results, n, Init, average.init, moment2.init)
              && AccumulatedPhase(results, n, Run, average.run, moment2.run)
  {
    average, moment2, n := Result(ZERO, ZERO), Result(ZERO, ZERO), 0;
    if |results| < 2 { return false, average, moment2, n; }
    average := results[0];
    while n < |results|
      invariant n <= |results|
      invariant AccumulatedPhase(results, n, Init, average.init, moment2.init)
      invariant AccumulatedPhase(results, n, Run, average.run, moment2.run)
    {
      var run := results[n];
      var count := n + 1;
      var a, b := AccumulatePhase(average.init, moment2.init, run.init, count, results, Init);
      var c, d := AccumulatePhase(average.run, moment2.run, run.run, count, results, Run);
      average, moment2 := Result(a, c), Result(b, d);
      n := n + 1;
    }
    some := true;
  }
}
