/** Incremental mean and variance of round-trip times, over the reals. */
module PingStats {

  datatype Stats = Stats(count: nat, avg: real, variance: real)

  const EMPTY := Stats(0, 0.0, 0.0)

  function Recorded(s: Stats, rtt: real): (r: Stats)
  {
    var n := (s.count + 1) as real;
    var delta := rtt - s.avg;
    var avg := s.avg + delta / n;
    var delta2 := rtt - avg;
    Stats(s.count + 1, avg, s.variance + (delta * delta2 - s.variance) / n)
  }

  function RecordedAll(xs: seq<real>): (s: Stats) {
    if xs == [] then EMPTY else Recorded(RecordedAll(xs[..|xs| - 1]), xs[|xs| - 1])
  }

  // -- Mean and population variance, by definition ----------------------------------------

  function Sum(xs: seq<real>): (r: real) { if xs == [] then 0.0 else Sum(xs[..|xs| - 1]) + xs[|xs| - 1] }

  function Mean(xs: seq<real>): (r: real)
    requires xs != []
  {
    Sum(xs) / |xs| as real
  }

  function Square(x: real): (r: real) { x * x }

  function SquaredDeviations(xs: seq<real>, from: real): (r: real) {
    if xs == [] then 0.0 else SquaredDeviations(xs[..|xs| - 1], from) + Square(xs[|xs| - 1] - from)
  }

  function Variance(xs: seq<real>): (r: real)
    requires xs != []
  {
    SquaredDeviations(xs, Mean(xs)) / |xs| as real
  }

  /** The sum of the deviations from a point. */
  function Deviations(xs: seq<real>, from: real): (r: real) {
    if xs == [] then 0.0 else Deviations(xs[..|xs| - 1], from) + (xs[|xs| - 1] - from)
  }

  lemma {:induction false} DeviationsSum(xs: seq<real>, from: real)
    ensures Deviations(xs, from) == Sum(xs) - |xs| as real * from
  {
    if xs != [] {
      DeviationsSum(xs[..|xs| - 1], from);
      Next((|xs| - 1) as real, from);
    }
  }

  lemma Next(n: real, a: real)
    ensures (n + 1.0) * a == n * a + a
  {
  }

  lemma {:induction false} MoveDeviations(xs: seq<real>, from: real, e: real)
    ensures Deviations(xs, from + e) == Deviations(xs, from) - |xs| as real * e
  {
    if xs != [] {
      MoveDeviations(xs[..|xs| - 1], from, e);
      Next((|xs| - 1) as real, e);
    }
  }

  /** What moving the reference point by e adds to the squared deviations. */
  function Correction(e: real, deviations: real, n: real): (r: real) {
    n * Square(e) - 2.0 * (e * deviations)
  }

  lemma CorrectionStep(e: real, deviations: real, n: real, d: real)
    ensures Correction(e, deviations + d, n + 1.0) + Square(d) == Correction(e, deviations, n) + Square(d - e)
  {
    assert Square(d - e) == d * d - 2.0 * (e * d) + e * e;
    assert e * (deviations + d) == e * deviations + e * d;
    Next(n, Square(e));
  }

  lemma {:induction false} MoveSquares(xs: seq<real>, from: real, e: real)
    ensures SquaredDeviations(xs, from + e) ==
            SquaredDeviations(xs, from) + Correction(e, Deviations(xs, from), |xs| as real)
  {
    hide Square;
    if xs == [] {
      assert Correction(e, 0.0, 0.0) == 0.0;
    } else {
      hide Correction;
      var init, x := xs[..|xs| - 1], xs[|xs| - 1];
      MoveSquares(init, from, e);
      CorrectionStep(e, Deviations(init, from), |init| as real, x - from);
      assert x - (from + e) == (x - from) - e;
    }
  }

  /** The update, cleared of divisions: with n = k + 1 and e the change of the mean. */
  lemma UpdateStep(s: Stats, x: real, k: real, n: real, e: real)
    requires k == s.count as real && n == k + 1.0 && n * e == x - s.avg
    ensures Recorded(s, x).avg == s.avg + e
    ensures n * Recorded(s, x).variance == k * s.variance + (x - s.avg) * (x - s.avg - e)
  {
    var delta := x - s.avg;
    Quotient(delta, n, e);
    var v := delta * (x - (s.avg + e)) - s.variance;
    Quotient(n * (v / n), n, v / n);
    assert n * (s.variance + v / n) == n * s.variance + v;
    Next(k, s.variance);
  }

  lemma Quotient(d: real, n: real, e: real)
    requires n > 0.0 && n * e == d
    ensures d / n == e
  {
  }

  ghost predicate Exact(xs: seq<real>, s: Stats) {
    && s.count == |xs|
    && Deviations(xs, s.avg) == 0.0
    && |xs| as real * s.variance == SquaredDeviations(xs, s.avg)
  }

  lemma VarianceStep(k: real, d: real, e: real)
    requires (k + 1.0) * e == d
    ensures k * Square(e) + Square(d - e) == d * (d - e)
  {
    var f := d - e;
    Next(k, e);
    assert f == k * e;
    assert k * Square(e) == e * f;
    assert d * f == e * f + f * f;
  }

  lemma DeviationsStep(init: seq<real>, avg: real, x: real, k: real, e: real)
    requires k == |init| as real && Deviations(init, avg) == 0.0 && (k + 1.0) * e == x - avg
    ensures Deviations(init + [x], avg + e) == 0.0
  {
    assert (init + [x])[..|init|] == init;
    MoveDeviations(init, avg, e);
    Next(k, e);
  }

  lemma CorrectionAtMean(e: real, k: real)
    ensures Correction(e, 0.0, k) == k * Square(e)
  {
    hide Square;
  }

  lemma SquaresStep(init: seq<real>, avg: real, x: real, k: real, e: real)
    requires k == |init| as real && Deviations(init, avg) == 0.0 && (k + 1.0) * e == x - avg
    ensures SquaredDeviations(init + [x], avg + e) == SquaredDeviations(init, avg) + (x - avg) * (x - avg - e)
  {
    hide Square, Correction;
    assert (init + [x])[..|init|] == init;
    MoveSquares(init, avg, e);
    CorrectionAtMean(e, k);
    VarianceStep(k, x - avg, e);
    assert x - (avg + e) == (x - avg) - e;
  }

  lemma ExactStep(init: seq<real>, s: Stats, x: real)
    requires Exact(init, s)
    ensures Exact(init + [x], Recorded(s, x))
  {
    hide Recorded, SquaredDeviations, Deviations;
    var k, n := |init| as real, |init| as real + 1.0;
    var e := (x - s.avg) / n;
    UpdateStep(s, x, k, n, e);
    CountedOne(s, x);
    DeviationsStep(init, s.avg, x, k, e);
    SquaresStep(init, s.avg, x, k, e);
  }

  lemma CountedOne(s: Stats, x: real)
    ensures Recorded(s, x).count == s.count + 1
  {
  }

  lemma {:induction false} AlwaysExact(xs: seq<real>)
    ensures Exact(xs, RecordedAll(xs))
  {
    if xs != [] {
      AlwaysExact(xs[..|xs| - 1]);
      ExactStep(xs[..|xs| - 1], RecordedAll(xs[..|xs| - 1]), xs[|xs| - 1]);
      assert xs == xs[..|xs| - 1] + [xs[|xs| - 1]];
    }
  }

  /** After any sequence of samples the fields are its arithmetic mean and its
      population variance. */
  lemma StatsAreExact(xs: seq<real>)
    requires xs != []
    ensures RecordedAll(xs).count == |xs|
    ensures RecordedAll(xs).avg == Mean(xs)
    ensures RecordedAll(xs).variance == Variance(xs)
  {
    hide RecordedAll;
    var s, n := RecordedAll(xs), |xs| as real;
    AlwaysExact(xs);
    DeviationsSum(xs, s.avg);
    Quotient(Sum(xs), n, s.avg);
    Quotient(SquaredDeviations(xs, s.avg), n, s.variance);
  }

  class PingTracker {
    var count: nat
    var tcpPackets: nat
    var tcpPingAvg: real
    var tcpPingVar: real

    ghost function View(): (s: Stats)
      reads this
    {
      Stats(count, tcpPingAvg, tcpPingVar)
    }

    constructor ()
      ensures View() == EMPTY && tcpPackets == 0
    {
      count, tcpPackets, tcpPingAvg, tcpPingVar := 0, 0, 0.0, 0.0;
    }

    method RecordTcpRtt(rtt: real)
      modifies this
      ensures View() == Recorded(old(View()), rtt) && tcpPackets == old(tcpPackets) + 1
    {
      tcpPackets := tcpPackets + 1;
      count := count + 1;
      var n := count as real;
      var delta := rtt - tcpPingAvg;
      tcpPingAvg := tcpPingAvg + delta / n;
      var delta2 := rtt - tcpPingAvg;
      tcpPingVar := tcpPingVar + (delta * delta2 - tcpPingVar) / n;
    }
  }
}
