# Portfolio NAV pipeline, in Dafny

This project models the data pipeline of `PortfolioComponent`, the Angular
component of the portfolio-management app that shows a fund's NAV chart and
performance table. It also proves properties of that model.

The pipeline runs in four steps:

1. **Parse.** The component downloads a CSV NAV report and drops its header
   line. It splits every other line on `,` and skips a row whose date or value
   field is empty or missing. A row's `DD-MM-YYYY` date becomes `YYYY-MM-DD`.
   Its value field is stripped to digits, `.` and `-`, then given to `parseFloat`.
2. **Sort.** The points are sorted by `new Date(date).getTime()`.
3. **Filter.** `fromDate`/`toDate` pick an inclusive date range.
4. **Drawdown.** One pass over the filtered series gives each point's
   drawdown against the running peak. The peak starts at -Infinity.

The chart then draws the dates as labels, the values, a benchmark line at
0.82 of each value, and the drawdowns. Two string classifiers colour the
performance table.

Modules:

- `Wrappers`: `Option`.
- `Text`:
  - `split` with a one-character separator, and its inverse `Join`;
  - `startsWith`;
  - decimal digit strings;
  - lexicographic string order by code point, which is JavaScript's
    code-unit order on strings without characters above U+FFFF (such as
    the ISO dates it is used on).
- `JsNumber`:
  - a number is `NaN` or a real;
  - `parseFloat` over the characters the cleanup leaves;
  - `Math.max`, which propagates NaN;
  - multiplication by a constant.
- `IsoDate`: `new Date(s).getTime()` for the complete extended calendar-date
  form of ISO 8601:2004 (section 4.1.2.2). It is read as midnight UTC, in
  milliseconds since 1970-01-01 in the proleptic Gregorian calendar. Every
  other string is an Invalid Date, whose time value is NaN (`None`).
- `ArrayOps`, generic over the element type:
  - `Array.prototype.sort` with a `key(a) - key(b)` comparator, modelled as a
    stable insertion sort;
  - `Array.prototype.filter`.
- `NavSeries`: the `NavData` point, the sort by date and the date-range filter.
- `NavCsv`: the `.then(csvText => ...)` parse chain.
- `Drawdown`: the running peak and the drawdown series, as specification
  functions.
- `Chart`: the label, value and benchmark series handed to the chart.
- `Classifiers`: `getRowClass` and `getValueClass`.
- `Portfolio`: the class `PortfolioComponent`, described below.

The class `PortfolioComponent` has the component's fields (`allChartData`,
`filteredChartData`, `drawdownData`, `fromDate`, `toDate`, `isLoading`,
`error`, and the drawn chart). Its handlers overwrite those fields.
`CalculateDrawdown` is the imperative scan, a loop that carries `peak`.

Inputs the model takes as parameters:

- How the download ends (`FetchOutcome`): a rejected request with its message,
  or a response with its status and body text.
- Whether a canvas with a 2D context exists (`canvasReady`).

## Model

| member | source | states |
|---|---|---|
| `Text.Split` | src/app/components/portfolio/portfolio.component.ts:99 | `split` always gives at least one piece |
| `Text.SplitPieces` | src/app/components/portfolio/portfolio.component.ts:99 | no piece holds the separator, and joining the pieces with it gives back the string |
| `Text.SplitJoin` | src/app/components/portfolio/portfolio.component.ts:103 | splitting a join of separator-free pieces gives back those pieces |
| `Text.SplitAtFirst` | src/app/components/portfolio/portfolio.component.ts:103 | the first piece ends at the first separator, and the rest is split on its own |
| `Text.SplitNoSeparator` | src/app/components/portfolio/portfolio.component.ts:103 | a string without the separator is a single piece |
| `Text.DecimalString` | src/app/components/portfolio/portfolio.component.ts:94 | `${status}` is a digit string of the status's value, without a leading zero |
| `Text.DigitsOrderIsLexicographic` | src/app/components/portfolio/portfolio.component.ts:113 | for digit strings of equal width, numeric order is string order and equal value is equal text |
| `JsNumber.ParseFloat` | src/app/components/portfolio/portfolio.component.ts:109 | `parseFloat` of the cleaned value field: the longest leading decimal literal with an optional `-`, or NaN; its contract is carried by `ParseFloatNaN`, `ParseFloatSign`, `ParseFloatDecimal` and `ParseFloatFixed` |
| `JsNumber.ParseFloatNaN` | src/app/components/portfolio/portfolio.component.ts:109 | `parseFloat` is NaN exactly when no digit starts the literal, after an optional `-` or a `.` |
| `JsNumber.ParseFloatSign` | src/app/components/portfolio/portfolio.component.ts:109 | only a leading `-` gives a negative value |
| `JsNumber.ParseFloatDecimal` | src/app/components/portfolio/portfolio.component.ts:109 | `parseFloat` reads back the decimal rendering of a whole number |
| `JsNumber.ParseFloatFixed` | src/app/components/portfolio/portfolio.component.ts:109 | `parseFloat("w.f")` is the decimal value of the digit strings `w` and `f` |
| `JsNumber.Max` | src/app/components/portfolio/portfolio.component.ts:140 | `Math.max` is NaN exactly when an argument is NaN; otherwise it is one of the arguments and no smaller than either |
| `JsNumber.Scale` | src/app/components/portfolio/portfolio.component.ts:156 | `v * k` is NaN exactly when `v` is |
| `IsoDate.Timestamp` | src/app/components/portfolio/portfolio.component.ts:127-129 | `getTime()` is a number exactly for a valid `YYYY-MM-DD` calendar date |
| `IsoDate.EpochIsZero` | src/app/components/portfolio/portfolio.component.ts:127 | `1970-01-01` has time value 0 |
| `IsoDate.DayNumberStrictlyIncreasing` | src/app/components/portfolio/portfolio.component.ts:113 | a later (year, month, day) falls on a later day |
| `IsoDate.LexLeIsTripleOrder` | src/app/components/portfolio/portfolio.component.ts:113 | string order on valid dates is (year, month, day) order |
| `IsoDate.TimestampOrderIsLexicographic` | src/app/components/portfolio/portfolio.component.ts:113 | on valid dates, comparing time values is comparing the strings, and equal times mean equal strings |
| `ArrayOps.SortedPairwise` | src/app/components/portfolio/portfolio.component.ts:113 | in a sorted sequence a key is no smaller than any key before it |
| `ArrayOps.InsertBy` | src/app/components/portfolio/portfolio.component.ts:113 | one insertion step adds exactly the new element |
| `ArrayOps.InsertKeepsSorted` | src/app/components/portfolio/portfolio.component.ts:113 | inserting a keyed element into a sorted sequence keeps it sorted |
| `ArrayOps.SortBy` | src/app/components/portfolio/portfolio.component.ts:113 | the sort is a permutation of its input, and it is sorted whenever every element has a key |
| `ArrayOps.SortKeepsSorted` | src/app/components/portfolio/portfolio.component.ts:113 | an already sorted input is left as it is |
| `ArrayOps.InsertKeepsKeyOrder` | src/app/components/portfolio/portfolio.component.ts:113 | insertion keeps the relative order of elements with equal keys |
| `ArrayOps.SortIsStable` | src/app/components/portfolio/portfolio.component.ts:113 | the elements of one key come out in their input order |
| `ArrayOps.Filter` | src/app/components/portfolio/portfolio.component.ts:126-131 | the result is no longer than the input; it holds only kept input elements, and every kept input element |
| `ArrayOps.FilterAppend` | src/app/components/portfolio/portfolio.component.ts:126-131 | filtering works piecewise, so the input order is kept |
| `ArrayOps.FilterAll` | src/app/components/portfolio/portfolio.component.ts:126-131 | an input whose elements are all kept is returned unchanged |
| `ArrayOps.FilterNone` | src/app/components/portfolio/portfolio.component.ts:126-131 | an input with no kept element gives the empty result |
| `ArrayOps.FilterKeepsSorted` | src/app/components/portfolio/portfolio.component.ts:126-131 | filtering a sorted sequence leaves it sorted |
| `NavSeries.DateKey` | src/app/components/portfolio/portfolio.component.ts:113 | the comparator's key `new Date(p.date).getTime()`, missing for an Invalid Date; its meaning is given by `IsoDate.Timestamp` and `IsoDate.TimestampOrderIsLexicographic` |
| `NavSeries.SortByDate` | src/app/components/portfolio/portfolio.component.ts:113 | the sorted series is a permutation of the parsed one, and it is in date order when every date is valid |
| `NavSeries.SortedIsChronological` | src/app/components/portfolio/portfolio.component.ts:113 | in a date-ordered series, later positions have no smaller time values |
| `NavSeries.SortedIsLexicographic` | src/app/components/portfolio/portfolio.component.ts:113 | in a date-ordered series the date strings are in string order |
| `NavSeries.SortKeepsSortedSeries` | src/app/components/portfolio/portfolio.component.ts:113 | a series already in date order is left as it is |
| `NavSeries.SortIdempotent` | src/app/components/portfolio/portfolio.component.ts:113 | sorting twice gives the same as sorting once |
| `NavSeries.SortIsStableOnDates` | src/app/components/portfolio/portfolio.component.ts:113 | the points of any one date keep their input order |
| `NavSeries.InRange` | src/app/components/portfolio/portfolio.component.ts:127-130 | the filter callback: the point's, `from`'s and `to`'s time values all exist and `from <= item <= to`; its string form is `InRangeIsLexicographic`, its one-day case `SameDayRange` |
| `NavSeries.RangeFilter` | src/app/components/portfolio/portfolio.component.ts:126-131 | the callback of `.filter(item => ...)` as a function value; `FilterByRange` states what filtering with it keeps |
| `NavSeries.FilterByRange` | src/app/components/portfolio/portfolio.component.ts:126-131 | the result keeps only points with `from <= date <= to` and every such point; it is no longer than the series |
| `NavSeries.FilterByRangeAppend` | src/app/components/portfolio/portfolio.component.ts:126-131 | the filter is an order-keeping subsequence: it works piecewise over concatenation |
| `NavSeries.FilterIdempotent` | src/app/components/portfolio/portfolio.component.ts:126-131 | filtering again with the same bounds changes nothing |
| `NavSeries.InvalidBoundKeepsNothing` | src/app/components/portfolio/portfolio.component.ts:128-130 | a bound that is not a valid date (NaN time value) keeps no point |
| `NavSeries.EmptyRangeKeepsNothing` | src/app/components/portfolio/portfolio.component.ts:130 | a range that ends before it starts keeps no point |
| `NavSeries.FilterKeepsOrder` | src/app/components/portfolio/portfolio.component.ts:126-131 | filtering a date-ordered series leaves it in date order |
| `NavSeries.InRangeIsLexicographic` | src/app/components/portfolio/portfolio.component.ts:127-130 | for valid dates, the time-value test is `from <= date <= to` on the strings |
| `NavSeries.SameDayRange` | src/app/components/portfolio/portfolio.component.ts:130 | with both bounds equal to a valid date `d`, only points dated `d` are in range |
| `NavSeries.SingleDayFilter` | src/app/components/portfolio/portfolio.component.ts:130 | both bounds are inclusive: a one-day range keeps exactly that day's point |
| `NavCsv.KeepNumeric` | src/app/components/portfolio/portfolio.component.ts:109 | the cleanup leaves only digits, `.` and `-`, and never lengthens the string |
| `NavCsv.KeepNumericCounts` | src/app/components/portfolio/portfolio.component.ts:109 | each allowed character is kept as often as it occurs, and no other character is kept |
| `NavCsv.KeepNumericIsFilter` | src/app/components/portfolio/portfolio.component.ts:109 | the cleanup is the order-keeping filter of the allowed characters |
| `NavCsv.KeepNumericAppend` | src/app/components/portfolio/portfolio.component.ts:109 | the cleanup works piecewise: the kept characters stay in order |
| `NavCsv.KeepNumericOfNumeric` | src/app/components/portfolio/portfolio.component.ts:109 | a string of allowed characters only is left as it is |
| `NavCsv.KeepNumericIdempotent` | src/app/components/portfolio/portfolio.component.ts:109 | applying the cleanup twice gives the same as applying it once |
| `NavCsv.FormatDate` | src/app/components/portfolio/portfolio.component.ts:105-106 | `${year}-${month}-${day}` of the destructured dash split, `undefined` for a missing part; its contract is carried by `ReverseDateParts`, `FormatJoined`, `DayMonthYearToIso` and `DateWithoutDashes` |
| `NavCsv.ReverseDateParts` | src/app/components/portfolio/portfolio.component.ts:105-106 | the date rewrite reverses the three dash-separated parts, and ignores any further parts |
| `NavCsv.FormatJoined` | src/app/components/portfolio/portfolio.component.ts:105-106 | for three or more dash-free parts, the rewrite gives part 2, part 1 and part 0 joined by dashes |
| `NavCsv.DateWithoutDashes` | src/app/components/portfolio/portfolio.component.ts:105-106 | a date with no dash becomes `undefined-undefined-<date>` |
| `NavCsv.DayMonthYearToIso` | src/app/components/portfolio/portfolio.component.ts:105-106 | a valid `DD-MM-YYYY` date becomes the valid `YYYY-MM-DD` date of the same day |
| `NavCsv.ParseRow` | src/app/components/portfolio/portfolio.component.ts:102-111 | the `.map(line => ...)` callback: no point when the date or value field is empty or missing, else the rewritten date and parsed value; its contract is carried by `ParseTwoFields`, `ParseIgnoresExtraFields`, `ParseDropsLineWithoutComma` and `ParseWellFormedRow` |
| `NavCsv.ParseTwoFields` | src/app/components/portfolio/portfolio.component.ts:103-110 | a `date,value` line gives a point exactly when neither field is empty |
| `NavCsv.ParseIgnoresExtraFields` | src/app/components/portfolio/portfolio.component.ts:103 | fields after the second are ignored |
| `NavCsv.ParseDropsLineWithoutComma` | src/app/components/portfolio/portfolio.component.ts:103-104 | a line without a comma has no value field and gives no point |
| `NavCsv.ParseWellFormedRow` | src/app/components/portfolio/portfolio.component.ts:103-110 | a well-formed `DD-MM-YYYY,value` row gives its point with a valid ISO date |
| `NavCsv.RowPoints` | src/app/components/portfolio/portfolio.component.ts:102-112 | what one line leaves after `.map` and the `data !== null` filter: its point, or nothing; `ParseLine` states it for a one-line input |
| `NavCsv.ParseLines` | src/app/components/portfolio/portfolio.component.ts:102-112 | the points are exactly those of the lines that parse, and there are no more points than lines |
| `NavCsv.ParseLinesAppend` | src/app/components/portfolio/portfolio.component.ts:102-112 | rows are parsed one by one, in order |
| `NavCsv.ParseLine` | src/app/components/portfolio/portfolio.component.ts:104-112 | a line that parses adds its one point, and a dropped line adds none |
| `NavCsv.ParseCsv` | src/app/components/portfolio/portfolio.component.ts:99-113 | the series is a permutation of the points of the lines after the header, in date order when all their dates are valid |
| `NavCsv.HeaderIgnored` | src/app/components/portfolio/portfolio.component.ts:99-101 | the first line never affects the series |
| `NavCsv.HeaderOnly` | src/app/components/portfolio/portfolio.component.ts:99-101 | a text of only a header line gives the empty series |
| `Drawdown.MaxPeak` | src/app/components/portfolio/portfolio.component.ts:138-140 | `Math.max(peak, v)` is NaN exactly when either is NaN; otherwise it is at least `v` and at least the old peak, and it equals one of them |
| `Drawdown.PeakOf` | src/app/components/portfolio/portfolio.component.ts:138-140 | after a prefix the peak is -Infinity when the prefix is empty, NaN when it holds a NaN, and otherwise the largest value of the prefix |
| `Drawdown.PeakStep` | src/app/components/portfolio/portfolio.component.ts:140 | one `Math.max` step extends the running peak by one value |
| `Drawdown.DrawdownAt` | src/app/components/portfolio/portfolio.component.ts:141 | the drawdown is NaN exactly when the value or the peak is NaN or the peak is 0; for `0 < v <= peak` it lies in (-100, 0] and is 0 exactly when `v == peak` |
| `Drawdown.DropBounds` | src/app/components/portfolio/portfolio.component.ts:141 | for `0 < v <= p`, `(v - p) / p * 100` lies in (-100, 0] and is 0 exactly when `v == p` |
| `Drawdown.Drawdowns` | src/app/components/portfolio/portfolio.component.ts:139-142 | there is one drawdown per value |
| `Drawdown.DrawdownEntry` | src/app/components/portfolio/portfolio.component.ts:139-142 | entry `i` is value `i` measured against the peak of values `0..i` |
| `Drawdown.DrawdownBounds` | src/app/components/portfolio/portfolio.component.ts:138-142 | on positive values every drawdown is a number in (-100, 0] |
| `Drawdown.DrawdownZeroAtNewHigh` | src/app/components/portfolio/portfolio.component.ts:138-142 | on positive values, entry `i` is 0 exactly when value `i` is at least every earlier value |
| `Drawdown.FirstDrawdownIsZero` | src/app/components/portfolio/portfolio.component.ts:138-142 | the first drawdown is 0 when the first value is a non-zero number |
| `Drawdown.NaNPoisonsLaterDrawdowns` | src/app/components/portfolio/portfolio.component.ts:140-141 | a NaN value makes its own drawdown and every later one NaN |
| `Drawdown.DrawdownsPrefix` | src/app/components/portfolio/portfolio.component.ts:139-142 | a later point never changes an earlier drawdown |
| `Drawdown.DrawdownExample` | src/app/components/portfolio/portfolio.component.ts:138-142 | values `[100, 90, 120]` give drawdowns `[0, -10, 0]` |
| `Chart.Dates` | src/app/components/portfolio/portfolio.component.ts:154 | `filteredChartData.map(d => d.date)`; its length and entries are stated by `ChartSeries` |
| `Chart.Values` | src/app/components/portfolio/portfolio.component.ts:155 | `filteredChartData.map(d => d.value)`; its length and entries are stated by `ChartSeries` |
| `Chart.ScaleAll` | src/app/components/portfolio/portfolio.component.ts:156 | `values.map(v => v * k)`; `ChartSeries` states its entries for k = 0.82, and `DrawdownsScaleInvariant` that it keeps the drawdowns |
| `Chart.ChartSeries` | src/app/components/portfolio/portfolio.component.ts:154-156 | labels, values and benchmark have the series' length; each label and value is the point's own; each benchmark is the value times 0.82, NaN exactly when the value is |
| `Chart.MaxScales` | src/app/components/portfolio/portfolio.component.ts:140 | `Math.max` commutes with scaling by a positive factor |
| `Chart.PeakScales` | src/app/components/portfolio/portfolio.component.ts:138-140 | scaling every value by a positive factor scales the running peak by it |
| `Chart.DrawdownAtScales` | src/app/components/portfolio/portfolio.component.ts:141 | a drawdown does not change when value and peak are scaled alike |
| `Chart.DrawdownsScaleInvariant` | src/app/components/portfolio/portfolio.component.ts:139-142 | scaling every value by a positive factor leaves the drawdowns unchanged |
| `Chart.BenchmarkHasSameDrawdowns` | src/app/components/portfolio/portfolio.component.ts:155-156 | the benchmark line has exactly the portfolio line's drawdowns |
| `Chart.BenchmarkBelowValues` | src/app/components/portfolio/portfolio.component.ts:156 | on positive values the benchmark runs strictly below the portfolio line |
| `Classifiers.GetRowClass` | src/app/components/portfolio/portfolio.component.ts:259-261 | `focused-row` exactly for the name `Focused`, and the empty class otherwise |
| `Classifiers.GetValueClass` | src/app/components/portfolio/portfolio.component.ts:263-271 | one of three classes, mutually exclusive: `negative` exactly for a leading `-`; `neutral` exactly for `0.0%` or `0%`; otherwise `positive` |
| `Classifiers.ValueClassIsTextual` | src/app/components/portfolio/portfolio.component.ts:263-271 | the class follows the text, not the number: `-0.0%` is negative, `0.00%` and the empty string are positive, `0%` is neutral |
| `Classifiers.MinusMakesNegative` | src/app/components/portfolio/portfolio.component.ts:264-265 | any cell with a `-` in front is negative |
| `Portfolio.HttpErrorMessage` | src/app/components/portfolio/portfolio.component.ts:94 | the message starts with `HTTP error! status: ` |
| `Portfolio.HttpErrorMessageInjective` | src/app/components/portfolio/portfolio.component.ts:94 | different statuses give different messages |
| `Portfolio.PortfolioComponent.Valid` | src/app/components/portfolio/portfolio.component.ts:133-143 | the state every handler keeps: `drawdownData` holds the drawdowns of `filteredChartData`; the constructor and each handler ensure it |
| `Portfolio.PortfolioComponent.constructor` | src/app/components/portfolio/portfolio.component.ts:40-48 | empty series, no chart, the default range 2019-01-01 to 2024-04-24, loading, and no error |
| `Portfolio.PortfolioComponent.LoadCsvData` | src/app/components/portfolio/portfolio.component.ts:90-122 | a failed download or a non-2xx status keeps the data and records the message. Success stores the parsed series, filters it and draws the chart. Loading ends either way; the drawdowns still match the filtered series |
| `Portfolio.PortfolioComponent.Loaded` | src/app/components/portfolio/portfolio.component.ts:98-117 | the parsed series replaces the old one, loading ends, then the filter and redraw follow |
| `Portfolio.PortfolioComponent.Fail` | src/app/components/portfolio/portfolio.component.ts:118-122 | the error message is kept and loading ends; nothing else changes |
| `Portfolio.PortfolioComponent.OnDateChange` | src/app/components/portfolio/portfolio.component.ts:86-88 | the filter and redraw run for the current bounds; the full series, bounds, loading flag and error stay |
| `Portfolio.PortfolioComponent.FilterDataAndUpdateChart` | src/app/components/portfolio/portfolio.component.ts:125-135 | the filtered series is the in-range points; the drawdowns are those of the filtered series; the chart follows |
| `Portfolio.PortfolioComponent.CalculateDrawdown` | src/app/components/portfolio/portfolio.component.ts:137-143 | the loop leaves the drawdown series of the filtered values, with the peak as the running maximum in its invariant; nothing else changes |
| `Portfolio.PortfolioComponent.InitChart` | src/app/components/portfolio/portfolio.component.ts:145-157 | with no canvas or an empty filtered series, nothing is drawn and the old chart stays; otherwise the chart shows the filtered series and its drawdowns |
| `Portfolio.DrawnSeriesIsOrderedAndInRange` | src/app/components/portfolio/portfolio.component.ts:125-135 | from a CSV whose rows all have valid dates, the drawn series is in date order, every point is in range, and there is one drawdown per point |

## Left out

- `Drawdown.DrawdownAt`: a zero peak gives NaN. That is what JavaScript gives for a zero value. With a negative value JavaScript gives +Infinity or -Infinity, following the sign of the zero. Infinities are not modelled.
- `NavSeries.SortByDate`: order is promised only when every date is valid. With an Invalid Date the comparator returns NaN, which the sort reads as "equal". That comparator is inconsistent, so ECMAScript leaves the order implementation-defined. The model gives one permitted outcome: a stable insertion sort.
- `ArrayOps.SortBy`: same as `NavSeries.SortByDate`. Sortedness is stated only when every element has a key.
- IEEE-754 doubles: values are exact reals, so the model has no rounding in `parseFloat`, the division or `* 0.82`. It has no signed zero, no overflow to Infinity, and no `-Infinity` other than the initial peak.
- `parseFloat` is defined only for strings of digits, `.` and `-`. Those are the only strings the cleanup passes to it. White space, `+`, exponents and `Infinity` cannot occur.
- `new Date(s)`: only the complete extended date-only `YYYY-MM-DD` form is read, as midnight UTC; every other string is an Invalid Date here. ECMAScript's Date Time String Format also reads date-time forms (`YYYY-MM-DDTHH:mm...`, local time when no offset is given) and expanded years (`+YYYYYY-MM-DD`), and `FormatDate` can build them from a day field such as `02T10:00` or a year field such as `+002020`; the model gives these no time value. It does not follow the legacy parsing some engines apply to other strings either, such as `2020-1-2` or a roll-over of `2021-02-30`. Time zones play no part for the date-only form, which is UTC.
- `Text.LexLe`: compares code points, while JavaScript compares UTF-16 code units; the two differ only on characters above U+FFFF, and the order is used only on `YYYY-MM-DD` dates.
- Years before 0000 and after 9999 cannot be written in four digits, so they do not occur.
- `fetch`, the promise chain and `response.text()` are asynchronous I/O. How the download ends is an input (`FetchOutcome`); `response.ok` is a status of 200-299.
- The `setTimeout(..., 0)` deferral is modelled as an immediate call. Nothing else runs in between in the model.
- `console.error` is output only and is left out.
- Chart.js is left out: the chart configuration, `Chart.register`, `destroy` and the canvas lookup. The drawn chart is its data (`ChartData`). "Canvas element and 2D context exist" is the input `canvasReady`.
- Angular decorators, `ViewChild` and `ngOnInit` are framework glue; the static `portfolioData` table is presentation data.
- src/app/components/home/home.component.ts is not part of this model. It is a static list of posts.
- src/app/app.routes.ts is not part of this model. It is route configuration.
