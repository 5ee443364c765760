/**
 * `PortfolioComponent`: the state the component keeps between events and
 * the handlers that move it, from the CSV download to the drawn chart.
 */
module Portfolio {
  import opened Wrappers
  import opened Text
  import opened JsNumber
  import opened NavSeries
  import opened NavCsv
  import opened Drawdown
  import opened Chart

  /**
   * How the `fetch` of the NAV report ends: a rejected request carrying
   * its error message, or a response with its status code and body text.
   */
  datatype FetchOutcome = NetworkError(message: string) | Response(status: nat, body: string)

  /** `response.ok`: a status in the range 200-299. */
  predicate IsOk(status: nat)
  {
    200 <= status <= 299
  }

  /** `HTTP error! status: ${response.status}`. */
  function HttpErrorMessage(status: nat): (m: string)
    ensures StartsWith(m, "HTTP error! status: ")
  {
    var prefix := "HTTP error! status: ";
    var m := prefix + DecimalString(status);
    assert m[..|prefix|] == prefix;
    m
  }

  /** Different statuses give different messages: the message names its status. */
  lemma HttpErrorMessageInjective(a: nat, b: nat)
    requires HttpErrorMessage(a) == HttpErrorMessage(b)
    ensures a == b
  {
    var prefix := "HTTP error! status: ";
    assert HttpErrorMessage(a)[|prefix|..] == DecimalString(a);
    assert HttpErrorMessage(b)[|prefix|..] == DecimalString(b);
  }

  /** The default date range the component opens with. */
  const DefaultFromDate: string := "2019-01-01"
  const DefaultToDate: string := "2024-04-24"

  class PortfolioComponent {
    var allChartData: seq<NavPoint>
    var filteredChartData: seq<NavPoint>
    var drawdownData: seq<Number>
    var fromDate: string
    var toDate: string
    var isLoading: bool
    var error: Option<string>
    /** The chart on the canvas, if one has been drawn. */
    var chart: Option<ChartData>

    /** What the handlers keep true: the drawdowns are those of the filtered series. */
    predicate Valid()
      reads this
    {
      drawdownData == Drawdowns(Values(filteredChartData))
    }

    constructor()
      ensures Valid()
      ensures allChartData == [] && filteredChartData == [] && drawdownData == []
      ensures fromDate == DefaultFromDate && toDate == DefaultToDate
      ensures isLoading && error == None && chart == None
    {
      allChartData := [];
      filteredChartData := [];
      drawdownData := [];
      fromDate := DefaultFromDate;
      toDate := DefaultToDate;
      isLoading := true;
      error := None;
      chart := None;
    }

    /**
     * `loadCsvData` once the download has ended: on success the parsed,
     * date-sorted series replaces the old one and the (deferred) filter and
     * redraw follow; on failure the message is kept and the data stay as
     * they were. Loading ends either way.
     */
    method LoadCsvData(outcome: FetchOutcome, canvasReady: bool)
      requires Valid()
      modifies this
      ensures Valid()
      ensures !isLoading && fromDate == old(fromDate) && toDate == old(toDate)
      ensures outcome.NetworkError? ==>
        error == Some(outcome.message) && allChartData == old(allChartData)
        && filteredChartData == old(filteredChartData) && chart == old(chart)
      ensures outcome.Response? && !IsOk(outcome.status) ==>
        error == Some(HttpErrorMessage(outcome.status)) && allChartData == old(allChartData)
        && filteredChartData == old(filteredChartData) && chart == old(chart)
      ensures outcome.Response? && IsOk(outcome.status) ==>
        && error == old(error)
        && allChartData == ParseCsv(outcome.body)
        && filteredChartData == FilterByRange(allChartData, fromDate, toDate)
        && chart == (if canvasReady && filteredChartData != []
                     then Some(ChartSeries(filteredChartData, drawdownData)) else old(chart))
    {
      match outcome
      case NetworkError(message) =>
        Fail(message);
      case Response(status, body) =>
        if !IsOk(status) {
          Fail(HttpErrorMessage(status));
        } else {
          Loaded(body, canvasReady);
        }
    }

    /**
     * The `.then(csvText => ...)` handler: the parsed, date-sorted series
     * replaces the old one, loading ends, and the deferred filter and
     * redraw follow.
     */
    method Loaded(csvText: string, canvasReady: bool)
      modifies this
      ensures Valid()
      ensures !isLoading && error == old(error) && fromDate == old(fromDate) && toDate == old(toDate)
      ensures allChartData == ParseCsv(csvText)
      ensures filteredChartData == FilterByRange(allChartData, fromDate, toDate)
      ensures chart == (if canvasReady && filteredChartData != []
                        then Some(ChartSeries(filteredChartData, drawdownData)) else old(chart))
    {
      var series := ParseCsv(csvText);
      allChartData := series;
      isLoading := false;
      assert chart == old(chart) && error == old(error);
      FilterDataAndUpdateChart(canvasReady);
    }

    /** The `.catch` handler: keep the error's message and stop loading; the data are untouched. */
    method Fail(message: string)
      requires Valid()
      modifies this
      ensures Valid()
      ensures error == Some(message) && !isLoading
      ensures allChartData == old(allChartData) && filteredChartData == old(filteredChartData)
      ensures drawdownData == old(drawdownData) && chart == old(chart)
      ensures fromDate == old(fromDate) && toDate == old(toDate)
    {
      error := Some(message);
      isLoading := false;
    }

    /** `onDateChange`: the bound dates have changed; filter and redraw. */
    method OnDateChange(canvasReady: bool)
      requires Valid()
      modifies this
      ensures Valid()
      ensures filteredChartData == FilterByRange(allChartData, fromDate, toDate)
      ensures chart == (if canvasReady && filteredChartData != []
                        then Some(ChartSeries(filteredChartData, drawdownData)) else old(chart))
      ensures allChartData == old(allChartData) && fromDate == old(fromDate) && toDate == old(toDate)
      ensures isLoading == old(isLoading) && error == old(error)
    {
      FilterDataAndUpdateChart(canvasReady);
    }

    /** `filterDataAndUpdateChart`: the points within the date range, their drawdowns, then the chart. */
    method FilterDataAndUpdateChart(canvasReady: bool)
      modifies this
      ensures Valid()
      ensures filteredChartData == FilterByRange(allChartData, fromDate, toDate)
      ensures chart == (if canvasReady && filteredChartData != []
                        then Some(ChartSeries(filteredChartData, drawdownData)) else old(chart))
      ensures allChartData == old(allChartData) && fromDate == old(fromDate) && toDate == old(toDate)
      ensures isLoading == old(isLoading) && error == old(error)
    {
      filteredChartData := FilterByRange(allChartData, fromDate, toDate);
      CalculateDrawdown();
      InitChart(canvasReady);
    }

    /**
     * `calculateDrawdown`: one pass over the filtered series carrying the
     * running peak, which starts at -Infinity.
     */
    method CalculateDrawdown()
      modifies this
      ensures drawdownData == Drawdowns(Values(filteredChartData))
      ensures allChartData == old(allChartData) && filteredChartData == old(filteredChartData)
      ensures fromDate == old(fromDate) && toDate == old(toDate)
      ensures isLoading == old(isLoading) && error == old(error) && chart == old(chart)
    {
      var vals := Values(filteredChartData);
      var peak := MinusInfinity;
      var dd: seq<Number> := [];
      var i := 0;
      while i < |filteredChartData|
        invariant 0 <= i <= |vals| == |filteredChartData|
        invariant peak == PeakOf(vals[..i])
        invariant dd == Drawdowns(vals[..i])
      {
        assert vals[..i + 1][..i] == vals[..i];
        assert vals[i] == filteredChartData[i].value;
        peak := MaxPeak(peak, filteredChartData[i].value);
        dd := dd + [DrawdownAt(filteredChartData[i].value, peak.n)];
        i := i + 1;
      }
      assert vals[..i] == vals;
      drawdownData := dd;
    }

    /**
     * `initChart`: with no canvas (or no 2D context) or an empty filtered
     * series nothing is drawn and any earlier chart stays; otherwise the
     * old chart is replaced by one of the filtered series.
     */
    method InitChart(canvasReady: bool)
      modifies this
      ensures chart == (if canvasReady && filteredChartData != []
                        then Some(ChartSeries(filteredChartData, drawdownData)) else old(chart))
      ensures allChartData == old(allChartData) && filteredChartData == old(filteredChartData)
      ensures drawdownData == old(drawdownData) && fromDate == old(fromDate) && toDate == old(toDate)
      ensures isLoading == old(isLoading) && error == old(error)
    {
      if !canvasReady || |filteredChartData| == 0 {
        return;
      }
      chart := Some(ChartSeries(filteredChartData, drawdownData));
    }
  }

  /**
   * The series a date change draws: from a CSV whose rows all carry valid
   * dates, the labels are in date order, each within the range, and there is
   * one drawdown per label.
   */
  lemma DrawnSeriesIsOrderedAndInRange(csvText: string, from: string, to: string)
    requires AllDated(ParseLines(Split(csvText, '\n')[1..]))
    ensures var filtered := FilterByRange(ParseCsv(csvText), from, to);
      && SortedByDate(filtered)
      && (forall i :: 0 <= i < |filtered| ==> InRange(filtered[i], from, to))
      && |ChartSeries(filtered, Drawdowns(Values(filtered))).drawdown| == |filtered|
  {
    var filtered := FilterByRange(ParseCsv(csvText), from, to);
    FilterKeepsOrder(ParseCsv(csvText), from, to);
    forall i | 0 <= i < |filtered| ensures InRange(filtered[i], from, to) {
      assert filtered[i] in filtered;
    }
  }
}
