/**
 * The NAV series: points of (ISO date string, value), the chronological
 * sort the component applies after parsing and the inclusive date-range
 * filter it applies before drawing, both keyed on `new Date(date).getTime()`.
 */
module NavSeries {
  import opened Wrappers
  import opened Text
  import opened JsNumber
  import opened IsoDate
  import opened ArrayOps

  /** One parsed CSV row: the `NavData` record. */
  datatype NavPoint = NavPoint(date: string, value: Number)

  /** `new Date(p.date).getTime()`, `None` standing for NaN. */
  function DateKey(p: NavPoint): Option<int>
  {
    Timestamp(p.date)
  }

  /** Every point carries a valid calendar date. */
  predicate AllDated(s: seq<NavPoint>)
  {
    forall i :: 0 <= i < |s| ==> IsIsoDate(s[i].date)
  }

  /** Every point is dated and no earlier than the one before it. */
  predicate SortedByDate(s: seq<NavPoint>)
  {
    SortedBy(DateKey, s)
  }

  /** In a date-ordered series the dates never go back: the time values grow. */
  lemma SortedIsChronological(s: seq<NavPoint>, i: nat, j: nat)
    requires SortedByDate(s) && i <= j < |s|
    ensures IsIsoDate(s[i].date) && IsIsoDate(s[j].date)
    ensures Timestamp(s[i].date).value <= Timestamp(s[j].date).value
  {
    SortedPairwise(DateKey, s, i, j);
  }

  /** In a date-ordered series the date strings themselves are in string order. */
  lemma SortedIsLexicographic(s: seq<NavPoint>, i: nat, j: nat)
    requires SortedByDate(s) && i <= j < |s|
    ensures LexLe(s[i].date, s[j].date)
  {
    SortedIsChronological(s, i, j);
    TimestampOrderIsLexicographic(s[i].date, s[j].date);
  }

  /**
   * `allChartData.sort((a, b) => new Date(a.date).getTime() - new Date(b.date).getTime())`:
   * the same points, in date order when every date is valid.
   */
  function SortByDate(s: seq<NavPoint>): (r: seq<NavPoint>)
    ensures multiset(r) == multiset(s) && |r| == |s|
    ensures AllDated(s) ==> SortedByDate(r)
  {
    assert AllDated(s) ==> AllKeyed(DateKey, s);
    SortBy(DateKey, s)
  }

  /** A series already in date order is left as it is. */
  lemma SortKeepsSortedSeries(s: seq<NavPoint>)
    requires SortedByDate(s)
    ensures SortByDate(s) == s
  {
    SortKeepsSorted(DateKey, s);
  }

  /** Sorting twice is sorting once. */
  lemma SortIdempotent(s: seq<NavPoint>)
    requires AllDated(s)
    ensures SortByDate(SortByDate(s)) == SortByDate(s)
  {
    SortKeepsSorted(DateKey, SortByDate(s));
  }

  /**
   * The filter predicate: the item's, the lower bound's and the upper
   * bound's time values all exist (a NaN fails every comparison) and
   * `from <= item <= to`.
   */
  predicate InRange(p: NavPoint, from: string, to: string)
  {
    && Timestamp(p.date).Some? && Timestamp(from).Some? && Timestamp(to).Some?
    && Timestamp(from).value <= Timestamp(p.date).value <= Timestamp(to).value
  }

  /** The filter callback, as a function value. */
  function RangeFilter(from: string, to: string): NavPoint -> bool
  {
    p => InRange(p, from, to)
  }

  /** `series.filter(item => from <= item.date <= to)`: exactly the points in range, in series order. */
  function FilterByRange(s: seq<NavPoint>, from: string, to: string): (r: seq<NavPoint>)
    ensures |r| <= |s|
    ensures forall i :: 0 <= i < |r| ==> r[i] in s && InRange(r[i], from, to)
    ensures forall i :: 0 <= i < |s| && InRange(s[i], from, to) ==> s[i] in r
  {
    Filter(RangeFilter(from, to), s)
  }

  /** Filtering works piecewise, so it keeps the points in their input order. */
  lemma FilterByRangeAppend(a: seq<NavPoint>, b: seq<NavPoint>, from: string, to: string)
    ensures FilterByRange(a + b, from, to) == FilterByRange(a, from, to) + FilterByRange(b, from, to)
  {
    FilterAppend(RangeFilter(from, to), a, b);
  }

  /** Filtering again with the same bounds changes nothing. */
  lemma FilterIdempotent(s: seq<NavPoint>, from: string, to: string)
    ensures FilterByRange(FilterByRange(s, from, to), from, to) == FilterByRange(s, from, to)
  {
    FilterAll(RangeFilter(from, to), FilterByRange(s, from, to));
  }

  /** A range whose bound is not a valid date keeps nothing. */
  lemma InvalidBoundKeepsNothing(s: seq<NavPoint>, from: string, to: string)
    requires !IsIsoDate(from) || !IsIsoDate(to)
    ensures FilterByRange(s, from, to) == []
  {
    FilterNone(RangeFilter(from, to), s);
  }

  /** A range that ends before it starts keeps nothing. */
  lemma EmptyRangeKeepsNothing(s: seq<NavPoint>, from: string, to: string)
    requires IsIsoDate(from) && IsIsoDate(to) && Timestamp(to).value < Timestamp(from).value
    ensures FilterByRange(s, from, to) == []
  {
    FilterNone(RangeFilter(from, to), s);
  }

  /** Filtering a date-ordered series leaves it in date order. */
  lemma FilterKeepsOrder(s: seq<NavPoint>, from: string, to: string)
    requires SortedByDate(s)
    ensures SortedByDate(FilterByRange(s, from, to))
  {
    FilterKeepsSorted(DateKey, RangeFilter(from, to), s);
  }

  /**
   * For valid dates the time comparison is the string comparison, so the
   * filter keeps exactly the points with `from <= date <= to` as strings.
   */
  lemma InRangeIsLexicographic(p: NavPoint, from: string, to: string)
    requires IsIsoDate(p.date) && IsIsoDate(from) && IsIsoDate(to)
    ensures InRange(p, from, to) <==> LexLe(from, p.date) && LexLe(p.date, to)
  {
    TimestampOrderIsLexicographic(from, p.date);
    TimestampOrderIsLexicographic(p.date, to);
  }

  /** With `from == to == d`, a valid date, the filter keeps exactly the points dated `d`. */
  lemma SameDayRange(p: NavPoint, d: string)
    requires IsIsoDate(d)
    ensures InRange(p, d, d) <==> p.date == d
  {
    if IsIsoDate(p.date) {
      TimestampOrderIsLexicographic(p.date, d);
    }
  }

  /** Both bounds are inclusive: a date present once, with `from == to` that date, gives exactly its point. */
  lemma SingleDayFilter(before: seq<NavPoint>, p: NavPoint, after: seq<NavPoint>)
    requires IsIsoDate(p.date)
    requires forall i :: 0 <= i < |before| ==> before[i].date != p.date
    requires forall i :: 0 <= i < |after| ==> after[i].date != p.date
    ensures FilterByRange(before + [p] + after, p.date, p.date) == [p]
  {
    var d := p.date;
    var keep := RangeFilter(d, d);
    forall i | 0 <= i < |before| ensures !keep(before[i]) { SameDayRange(before[i], d); }
    forall i | 0 <= i < |after| ensures !keep(after[i]) { SameDayRange(after[i], d); }
    SameDayRange(p, d);
    FilterNone(keep, before);
    FilterNone(keep, after);
    FilterAppend(keep, before + [p], after);
    FilterAppend(keep, before, [p]);
    assert Filter(keep, [p]) == [p] by { assert [p][1..] == []; }
  }

  /** The sort is stable: the points of any one date keep their input order. */
  lemma SortIsStableOnDates(s: seq<NavPoint>, d: string)
    ensures FilterByRange(SortByDate(s), d, d) == FilterByRange(s, d, d)
  {
    var keep := RangeFilter(d, d);
    if IsIsoDate(d) {
      SortIsStable(DateKey, keep, Timestamp(d).value, s);
    } else {
      FilterNone(keep, SortByDate(s));
      FilterNone(keep, s);
    }
  }
}
