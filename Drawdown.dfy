/**
 * `calculateDrawdown`: a running peak that starts at -Infinity and is
 * raised by `Math.max` at every point, and at every point the percentage
 * `((value - peak) / peak) * 100` below that peak.
 */
module Drawdown {
  import opened JsNumber

  /** The running `peak`: -Infinity before the first point, then a number (possibly NaN). */
  datatype RunningMax = MinusInfinity | Reached(n: Number)

  /** `Math.max(peak, v)`; `Math.max(-Infinity, v)` is `v`, NaN included. */
  function MaxPeak(peak: RunningMax, v: Number): (r: RunningMax)
    ensures r.Reached?
    ensures r.n.NaN? <==> v.NaN? || (peak.Reached? && peak.n.NaN?)
    ensures r.n.Num? ==> v.value <= r.n.value && (r.n == v || r == peak)
    ensures r.n.Num? && peak.Reached? ==> peak.n.value <= r.n.value
  {
    match peak
    case MinusInfinity => Reached(v)
    case Reached(n) => Reached(Max(n, v))
  }

  predicate HasNaN(vals: seq<Number>)
  {
    exists i :: 0 <= i < |vals| && vals[i].NaN?
  }

  /**
   * `p` is what `peak` holds once the callback has seen `vals`: -Infinity
   * before any value, then NaN as soon as one value is NaN, otherwise the
   * largest value seen.
   */
  predicate IsRunningPeak(vals: seq<Number>, p: RunningMax)
  {
    && (vals == [] <==> p.MinusInfinity?)
    && (p.Reached? ==> (p.n.NaN? <==> HasNaN(vals)))
    && (p.Reached? && p.n.Num? ==> forall i :: 0 <= i < |vals| ==> vals[i].Num? && vals[i].value <= p.n.value)
    && (p.Reached? && p.n.Num? ==> exists i :: 0 <= i < |vals| && vals[i] == p.n)
  }

  /** The running peak after `vals`. */
  function PeakOf(vals: seq<Number>): (p: RunningMax)
    ensures IsRunningPeak(vals, p)
    decreases |vals|
  {
    if vals == [] then MinusInfinity
    else
      var init, last := vals[..|vals| - 1], vals[|vals| - 1];
      PeakStep(init, last, PeakOf(init));
      assert vals == init + [last];
      MaxPeak(PeakOf(init), last)
  }

  /** One `Math.max(peak, v)` step extends the running peak by one value. */
  lemma PeakStep(init: seq<Number>, last: Number, p: RunningMax)
    requires IsRunningPeak(init, p)
    ensures IsRunningPeak(init + [last], MaxPeak(p, last))
  {
    var vals, r := init + [last], MaxPeak(p, last);
    assert forall i :: 0 <= i < |init| ==> vals[i] == init[i];
    assert vals[|init|] == last;
    if HasNaN(vals) && !last.NaN? {
      var j :| 0 <= j < |vals| && vals[j].NaN?;
      assert init[j].NaN?;
    }
    if r.n.Num? && r.n != last {
      var j :| 0 <= j < |init| && init[j] == r.n;
      assert vals[j] == r.n;
    }
  }

  /**
   * `((v - peak) / peak) * 100`, NaN when either is NaN. A zero peak gives
   * NaN here: for a zero value that is what JavaScript gives, for a negative
   * value it gives an infinity whose sign is that of the zero.
   */
  function DrawdownAt(v: Number, peak: Number): (d: Number)
    ensures d.NaN? <==> v.NaN? || peak.NaN? || peak.value == 0.0
    ensures d.Num? && 0.0 < v.value <= peak.value ==> -100.0 < d.value <= 0.0
    ensures d.Num? && 0.0 < v.value <= peak.value ==> (d.value == 0.0 <==> v == peak)
  {
    if v.NaN? || peak.NaN? || peak.value == 0.0 then NaN
    else
      var d := (v.value - peak.value) / peak.value * 100.0;
      assert 0.0 < v.value <= peak.value ==> -100.0 < d <= 0.0 by {
        if 0.0 < v.value <= peak.value {
          DropBounds(v.value, peak.value);
        }
      }
      Num(d)
  }

  lemma DropBounds(v: real, p: real)
    requires 0.0 < v <= p
    ensures -100.0 < (v - p) / p * 100.0 <= 0.0
    ensures (v - p) / p * 100.0 == 0.0 <==> v == p
  {
    var r := v / p;
    assert p / p == 1.0;
    assert (v - p) / p == v / p - p / p;
    assert 0.0 < r;
    assert r <= 1.0;
  }

  /** `filteredChartData.map(...)`: one drawdown per value, each against the peak so far, that value included. */
  function Drawdowns(vals: seq<Number>): (dd: seq<Number>)
    ensures |dd| == |vals|
    decreases |vals|
  {
    if vals == [] then []
    else Drawdowns(vals[..|vals| - 1]) + [DrawdownAt(vals[|vals| - 1], PeakOf(vals).n)]
  }

  /** Entry `i` is the drawdown of value `i` below the peak of the first `i + 1` values. */
  lemma {:induction false} DrawdownEntry(vals: seq<Number>, i: nat)
    requires i < |vals|
    ensures PeakOf(vals[..i + 1]).Reached?
    ensures Drawdowns(vals)[i] == DrawdownAt(vals[i], PeakOf(vals[..i + 1]).n)
    decreases |vals|
  {
    assert vals[..i + 1] != [];
    var init := vals[..|vals| - 1];
    if i < |vals| - 1 {
      DrawdownEntry(init, i);
      assert init[..i + 1] == vals[..i + 1];
    } else {
      assert vals[..i + 1] == vals;
    }
  }

  predicate AllPositive(vals: seq<Number>)
  {
    forall i :: 0 <= i < |vals| ==> vals[i].Num? && vals[i].value > 0.0
  }

  lemma PrefixPositive(vals: seq<Number>, k: nat)
    requires AllPositive(vals) && k <= |vals|
    ensures AllPositive(vals[..k])
  {
    assert forall i :: 0 <= i < k ==> vals[..k][i] == vals[i];
  }

  /** On positive values every drawdown is a number in (-100, 0]. */
  lemma DrawdownBounds(vals: seq<Number>, i: nat)
    requires AllPositive(vals) && i < |vals|
    ensures Drawdowns(vals)[i].Num?
    ensures -100.0 < Drawdowns(vals)[i].value <= 0.0
  {
    var pre := vals[..i + 1];
    DrawdownEntry(vals, i);
    PrefixPositive(vals, i + 1);
    assert pre[i] == vals[i];
    var j :| 0 <= j < |pre| && pre[j] == PeakOf(pre).n;
  }

  /** On positive values the drawdown is 0 exactly at a value no lower than every value before it. */
  lemma DrawdownZeroAtNewHigh(vals: seq<Number>, i: nat)
    requires AllPositive(vals) && i < |vals|
    ensures Drawdowns(vals)[i] == Num(0.0)
        <==> forall j :: 0 <= j <= i ==> vals[j].value <= vals[i].value
  {
    var pre := vals[..i + 1];
    DrawdownEntry(vals, i);
    PrefixPositive(vals, i + 1);
    assert forall j :: 0 <= j <= i ==> pre[j] == vals[j];
    var peak := PeakOf(pre).n;
    var k :| 0 <= k < |pre| && pre[k] == peak;
    assert pre[i] == vals[i];
    if forall j :: 0 <= j <= i ==> vals[j].value <= vals[i].value {
      assert vals[k].value <= vals[i].value;
    }
  }

  /** The first point is its own peak, so its drawdown is 0 (unless it is 0 or NaN). */
  lemma FirstDrawdownIsZero(vals: seq<Number>)
    requires vals != [] && vals[0].Num? && vals[0].value != 0.0
    ensures Drawdowns(vals)[0] == Num(0.0)
  {
    DrawdownEntry(vals, 0);
    assert vals[..1] == [vals[0]];
    assert vals[..1][..0] == [];
  }

  /** A NaN value makes the peak NaN, and with it that drawdown and every later one. */
  lemma NaNPoisonsLaterDrawdowns(vals: seq<Number>, k: nat, i: nat)
    requires k <= i < |vals| && vals[k].NaN?
    ensures Drawdowns(vals)[i].NaN?
  {
    DrawdownEntry(vals, i);
    assert vals[..i + 1][k] == vals[k];
  }

  /** The drawdowns of a prefix are a prefix of the drawdowns: a later point never changes an earlier entry. */
  lemma {:induction false} DrawdownsPrefix(vals: seq<Number>, k: nat)
    requires k <= |vals|
    ensures Drawdowns(vals[..k]) == Drawdowns(vals)[..k]
    decreases |vals|
  {
    if k == |vals| {
      assert vals[..k] == vals;
    } else {
      var init := vals[..|vals| - 1];
      DrawdownsPrefix(init, k);
      assert init[..k] == vals[..k];
      assert Drawdowns(vals) == Drawdowns(init) + [DrawdownAt(vals[|vals| - 1], PeakOf(vals).n)];
      assert (Drawdowns(init) + [DrawdownAt(vals[|vals| - 1], PeakOf(vals).n)])[..k] == Drawdowns(init)[..k];
    }
  }

  /** `[100, 90, 120]` has drawdowns `[0, -10, 0]`. */
  lemma DrawdownExample()
    ensures Drawdowns([Num(100.0), Num(90.0), Num(120.0)]) == [Num(0.0), Num(-10.0), Num(0.0)]
  {
    var vals := [Num(100.0), Num(90.0), Num(120.0)];
    assert vals[..2] == [Num(100.0), Num(90.0)] && vals[..2][..1] == [Num(100.0)] && vals[..2][..1][..0] == [];
    assert PeakOf(vals[..2][..1]) == Reached(Num(100.0));
    assert PeakOf(vals[..2]) == Reached(Num(100.0));
    assert PeakOf(vals) == Reached(Num(120.0));
  }
}
