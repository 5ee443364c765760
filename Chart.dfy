/**
 * The three series `initChart` hands to the chart: the dates as labels,
 * the portfolio values, a benchmark line drawn at 0.82 of each value, and
 * the drawdowns.
 */
module Chart {
  import opened JsNumber
  import opened NavSeries
  import opened Drawdown

  /** The factor of `values.map(v => v * 0.82)`. */
  const BenchmarkFactor: real := 0.82

  /** The data of one line chart: labels and its three datasets. */
  datatype ChartData = ChartData(labels: seq<string>, values: seq<Number>, benchmark: seq<Number>, drawdown: seq<Number>)

  function Dates(s: seq<NavPoint>): seq<string>
  {
    seq(|s|, i requires 0 <= i < |s| => s[i].date)
  }

  function Values(s: seq<NavPoint>): seq<Number>
  {
    seq(|s|, i requires 0 <= i < |s| => s[i].value)
  }

  /** `vals.map(v => v * k)`. */
  function ScaleAll(vals: seq<Number>, k: real): seq<Number>
  {
    seq(|vals|, i requires 0 <= i < |vals| => Scale(vals[i], k))
  }

  /**
   * The chart for a filtered series and its drawdowns: one label, value and
   * benchmark value per point, in series order.
   */
  function ChartSeries(filtered: seq<NavPoint>, drawdown: seq<Number>): (c: ChartData)
    ensures |c.labels| == |c.values| == |c.benchmark| == |filtered|
    ensures forall i :: 0 <= i < |filtered| ==> c.labels[i] == filtered[i].date && c.values[i] == filtered[i].value
    ensures forall i :: 0 <= i < |filtered| ==>
      (c.benchmark[i].NaN? <==> filtered[i].value.NaN?)
      && (c.benchmark[i].Num? ==> c.benchmark[i].value == filtered[i].value.value * BenchmarkFactor)
    ensures c.drawdown == drawdown
  {
    var values := Values(filtered);
    ChartData(Dates(filtered), values, ScaleAll(values, BenchmarkFactor), drawdown)
  }

  /** Scaling by a positive factor commutes with `Math.max`. */
  lemma MaxScales(a: Number, b: Number, k: real)
    requires k > 0.0
    ensures Max(Scale(a, k), Scale(b, k)) == Scale(Max(a, b), k)
  {
    if a.Num? && b.Num? {
      if a.value >= b.value {
        assert a.value * k >= b.value * k by { ScaleMonotone(b.value, a.value, k); }
      } else {
        assert a.value * k < b.value * k by { ScaleStrictlyMonotone(a.value, b.value, k); }
      }
    }
  }

  lemma ScaleMonotone(x: real, y: real, k: real)
    requires k > 0.0 && x <= y
    ensures x * k <= y * k
  {
    assert y * k - x * k == (y - x) * k;
  }

  lemma ScaleStrictlyMonotone(x: real, y: real, k: real)
    requires k > 0.0 && x < y
    ensures x * k < y * k
  {
    assert y * k - x * k == (y - x) * k;
  }

  function ScalePeak(p: RunningMax, k: real): RunningMax
  {
    match p
    case MinusInfinity => MinusInfinity
    case Reached(n) => Reached(Scale(n, k))
  }

  /** Scaling every value scales the running peak. */
  lemma {:induction false} PeakScales(vals: seq<Number>, k: real)
    requires k > 0.0
    ensures PeakOf(ScaleAll(vals, k)) == ScalePeak(PeakOf(vals), k)
    decreases |vals|
  {
    if vals != [] {
      var n := |vals|;
      var scaled := ScaleAll(vals, k);
      assert scaled[..n - 1] == ScaleAll(vals[..n - 1], k);
      PeakScales(vals[..n - 1], k);
      var p := PeakOf(vals[..n - 1]);
      if p.Reached? {
        MaxScales(p.n, vals[n - 1], k);
      }
    }
  }

  /** A drawdown is a ratio, so it does not change when value and peak are scaled alike. */
  lemma DrawdownAtScales(v: Number, p: Number, k: real)
    requires k > 0.0
    ensures DrawdownAt(Scale(v, k), Scale(p, k)) == DrawdownAt(v, p)
  {
    if v.Num? && p.Num? && p.value != 0.0 {
      var x, y := v.value, p.value;
      assert y * k != 0.0;
      assert x * k - y * k == (x - y) * k;
      assert ((x - y) * k) / (y * k) == (x - y) / y;
    }
  }

  /** Scaling every value by a positive factor leaves every drawdown as it is. */
  lemma {:induction false} DrawdownsScaleInvariant(vals: seq<Number>, k: real)
    requires k > 0.0
    ensures Drawdowns(ScaleAll(vals, k)) == Drawdowns(vals)
    decreases |vals|
  {
    if vals != [] {
      var n := |vals|;
      var scaled := ScaleAll(vals, k);
      assert scaled[..n - 1] == ScaleAll(vals[..n - 1], k);
      DrawdownsScaleInvariant(vals[..n - 1], k);
      PeakScales(vals, k);
      DrawdownAtScales(vals[n - 1], PeakOf(vals).n, k);
    }
  }

  /** The benchmark line, being a fixed fraction of the portfolio line, has the same drawdowns. */
  lemma BenchmarkHasSameDrawdowns(filtered: seq<NavPoint>, drawdown: seq<Number>)
    ensures Drawdowns(ChartSeries(filtered, drawdown).benchmark) == Drawdowns(ChartSeries(filtered, drawdown).values)
  {
    DrawdownsScaleInvariant(Values(filtered), BenchmarkFactor);
  }

  /** On positive values the benchmark line runs strictly below the portfolio line. */
  lemma BenchmarkBelowValues(filtered: seq<NavPoint>, drawdown: seq<Number>, i: nat)
    requires AllPositive(Values(filtered)) && i < |filtered|
    ensures ChartSeries(filtered, drawdown).benchmark[i].value < ChartSeries(filtered, drawdown).values[i].value
  {
    assert Values(filtered)[i] == filtered[i].value;
  }
}
