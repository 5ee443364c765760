/**
 * The CSV-to-series parse of `loadCsvData`: drop the header line, split
 * each remaining line on `,`, drop rows with an empty or missing date or
 * value field, turn the `DD-MM-YYYY` date into `YYYY-MM-DD`, strip the
 * value to its numeric characters, `parseFloat` it, then sort by date.
 */
module NavCsv {
  import opened Wrappers
  import opened Text
  import opened JsNumber
  import opened IsoDate
  import opened NavSeries
  import opened ArrayOps

  /** `navStr.replace(/[^\d.-]/g, '')`: keeps the digits, `.` and `-`. */
  function KeepNumeric(s: string): (r: string)
    ensures AllNumeric(r) && |r| <= |s|
  {
    if s == [] then [] else (if IsNumericChar(s[0]) then [s[0]] else []) + KeepNumeric(s[1..])
  }

  /** Each digit, `.` and `-` is kept as often as it occurs, and nothing else is kept. */
  lemma {:induction false} KeepNumericCounts(s: string, c: char)
    ensures multiset(KeepNumeric(s))[c] == if IsNumericChar(c) then multiset(s)[c] else 0
  {
    if s != [] {
      KeepNumericCounts(s[1..], c);
      assert s == [s[0]] + s[1..];
      assert multiset(s) == multiset{s[0]} + multiset(s[1..]);
      var head := if IsNumericChar(s[0]) then [s[0]] else [];
      assert multiset(KeepNumeric(s)) == multiset(head) + multiset(KeepNumeric(s[1..]));
    }
  }

  /** The cleanup is the order-keeping filter of the characters `[\d.-]`. */
  lemma {:induction false} KeepNumericIsFilter(s: string)
    ensures KeepNumeric(s) == Filter(c => IsNumericChar(c), s)
  {
    if s != [] {
      KeepNumericIsFilter(s[1..]);
    }
  }

  /** The cleanup works character by character, so it keeps the kept characters in order. */
  lemma {:induction false} KeepNumericAppend(a: string, b: string)
    ensures KeepNumeric(a + b) == KeepNumeric(a) + KeepNumeric(b)
  {
    if a != [] {
      assert (a + b)[0] == a[0];
      assert (a + b)[1..] == a[1..] + b;
      KeepNumericAppend(a[1..], b);
    } else {
      assert a + b == b;
    }
  }

  /** A string of numeric characters only is left as it is. */
  lemma {:induction false} KeepNumericOfNumeric(s: string)
    requires AllNumeric(s)
    ensures KeepNumeric(s) == s
  {
    if s != [] {
      KeepNumericOfNumeric(s[1..]);
    }
  }

  /** Applying the cleanup twice gives the same as applying it once. */
  lemma KeepNumericIdempotent(s: string)
    ensures KeepNumeric(KeepNumeric(s)) == KeepNumeric(s)
  {
    KeepNumericOfNumeric(KeepNumeric(s));
  }

  /** `${x}` of a destructured element: the element, or "undefined" past the end. */
  function PartOrUndefined(parts: seq<string>, i: nat): string
  {
    if i < |parts| then parts[i] else "undefined"
  }

  /**
   * `const [day, month, year] = dateStr.split('-')` then
   * `${year}-${month}-${day}`.
   */
  function FormatDate(dateStr: string): string
  {
    FormatParts(Split(dateStr, '-'))
  }

  function FormatParts(parts: seq<string>): string
    requires |parts| >= 1
  {
    PartOrUndefined(parts, 2) + "-" + PartOrUndefined(parts, 1) + "-" + parts[0]
  }

  /** The date rewrite reverses the three dash-separated parts; any further parts are ignored. */
  lemma ReverseDateParts(day: string, month: string, year: string, more: seq<string>)
    requires '-' !in day && '-' !in month && '-' !in year
    requires forall i :: 0 <= i < |more| ==> '-' !in more[i]
    ensures FormatDate(Join([day, month, year] + more, '-')) == year + "-" + month + "-" + day
  {
    var parts := [day, month, year] + more;
    DatePartsHaveNoDash(day, month, year, more);
    FormatJoined(parts);
    assert parts[0] == day && parts[1] == month && parts[2] == year;
  }

  lemma FormatJoined(parts: seq<string>)
    requires |parts| >= 3
    requires forall i :: 0 <= i < |parts| ==> '-' !in parts[i]
    ensures FormatDate(Join(parts, '-')) == parts[2] + "-" + parts[1] + "-" + parts[0]
  {
    SplitJoin(parts, '-');
    assert FormatDate(Join(parts, '-')) == FormatParts(parts);
  }

  lemma DatePartsHaveNoDash(day: string, month: string, year: string, more: seq<string>)
    requires '-' !in day && '-' !in month && '-' !in year
    requires forall i :: 0 <= i < |more| ==> '-' !in more[i]
    ensures forall i :: 0 <= i < |[day, month, year] + more| ==> '-' !in ([day, month, year] + more)[i]
  {
    var parts := [day, month, year] + more;
    forall i | 0 <= i < |parts| ensures '-' !in parts[i] {
      if i >= 3 { assert parts[i] == more[i - 3]; }
    }
  }

  /** A date without its three parts comes out with "undefined" in their place. */
  lemma DateWithoutDashes(dateStr: string)
    requires '-' !in dateStr
    ensures FormatDate(dateStr) == "undefined-undefined-" + dateStr
  {
    SplitNoSeparator(dateStr, '-');
  }

  /** A `DD-MM-YYYY` string naming a real calendar date. */
  predicate IsDayMonthYear(s: string)
  {
    |s| == 10 && s[2] == '-' && s[5] == '-' && IsIsoDate(s[6..] + "-" + s[3..5] + "-" + s[..2])
  }

  /** A well-formed `DD-MM-YYYY` date becomes the valid `YYYY-MM-DD` date of the same day. */
  lemma DayMonthYearToIso(s: string)
    requires IsDayMonthYear(s)
    ensures FormatDate(s) == s[6..] + "-" + s[3..5] + "-" + s[..2]
    ensures IsIsoDate(FormatDate(s))
  {
    var iso := s[6..] + "-" + s[3..5] + "-" + s[..2];
    var day, month, year := s[..2], s[3..5], s[6..];
    assert iso[..4] == year && iso[5..7] == month && iso[8..] == day;
    assert '-' !in day by { assert forall i :: 0 <= i < 2 ==> day[i] == iso[8 + i]; }
    assert '-' !in month by { assert forall i :: 0 <= i < 2 ==> month[i] == iso[5 + i]; }
    assert '-' !in year by { assert forall i :: 0 <= i < 4 ==> year[i] == iso[i]; }
    assert s == day + "-" + month + "-" + year;
    assert [day, month, year][1..] == [month, year] && [month, year][1..] == [year];
    assert Join([year], '-') == year;
    assert Join([month, year], '-') == month + "-" + year;
    assert Join([day, month, year], '-') == day + "-" + (month + "-" + year);
    assert Join([day, month, year], '-') == s;
    ReverseDateParts(day, month, year, []);
    assert [day, month, year] + [] == [day, month, year];
  }

  /**
   * One data line: `[dateStr, navStr] = line.split(',')`; no point when
   * either is empty or missing; otherwise the rewritten date and the parsed
   * value.
   */
  function ParseRow(line: string): Option<NavPoint>
  {
    var fields := Split(line, ',');
    if fields[0] == [] || |fields| < 2 || fields[1] == [] then None
    else Some(NavPoint(FormatDate(fields[0]), ParseFloat(KeepNumeric(fields[1]))))
  }

  /** A line with a date field and a value field gives a point exactly when neither is empty. */
  lemma ParseTwoFields(date: string, value: string)
    requires ',' !in date && ',' !in value
    ensures ParseRow(date + "," + value)
         == if date == [] || value == [] then None
            else Some(NavPoint(FormatDate(date), ParseFloat(KeepNumeric(value))))
  {
    assert Join([date, value], ',') == date + "," + value;
    SplitJoin([date, value], ',');
  }

  /** Fields after the second are ignored. */
  lemma ParseIgnoresExtraFields(date: string, value: string, rest: string)
    requires ',' !in date && ',' !in value
    ensures ParseRow(date + "," + value + "," + rest) == ParseRow(date + "," + value)
  {
    ParseTwoFields(date, value);
    var line := date + "," + value + "," + rest;
    assert line == date + [','] + (value + [','] + rest);
    SplitAtFirst(date, value + [','] + rest, ',');
    SplitAtFirst(value, rest, ',');
  }

  /** A line without a comma has no value field and is dropped. */
  lemma ParseDropsLineWithoutComma(line: string)
    requires ',' !in line
    ensures ParseRow(line) == None
  {
    SplitNoSeparator(line, ',');
  }

  /** A well-formed row `DD-MM-YYYY,value` gives its ISO-dated point. */
  lemma ParseWellFormedRow(date: string, value: string)
    requires IsDayMonthYear(date) && value != [] && ',' !in value
    ensures ParseRow(date + "," + value)
         == Some(NavPoint(date[6..] + "-" + date[3..5] + "-" + date[..2], ParseFloat(KeepNumeric(value))))
    ensures IsIsoDate(ParseRow(date + "," + value).value.date)
  {
    DayMonthYearToIso(date);
    assert ',' !in date by {
      var iso := date[6..] + "-" + date[3..5] + "-" + date[..2];
      assert iso[..4] == date[6..] && iso[5..7] == date[3..5] && iso[8..] == date[..2];
      forall i | 0 <= i < 10 ensures date[i] != ',' {
        if i < 2 { assert date[i] == iso[8 + i]; }
        else if 3 <= i < 5 { assert date[i] == iso[5 + i - 3]; }
        else if 6 <= i { assert date[i] == iso[i - 6]; }
      }
    }
    ParseTwoFields(date, value);
  }

  /** What one line contributes once the `null`s are filtered out: its point, or nothing. */
  function RowPoints(line: string): seq<NavPoint>
  {
    match ParseRow(line)
    case None => []
    case Some(p) => [p]
  }

  /** `lines.map(parseRow).filter(data => data !== null)`. */
  function ParseLines(lines: seq<string>): (points: seq<NavPoint>)
    ensures |points| <= |lines|
    ensures forall p :: p in points <==> exists i :: 0 <= i < |lines| && ParseRow(lines[i]) == Some(p)
  {
    if lines == [] then []
    else
      var rest := ParseLines(lines[1..]);
      assert forall i :: 0 < i < |lines| ==> lines[i] == lines[1..][i - 1];
      RowPoints(lines[0]) + rest
  }

  /** Rows are parsed one by one, in order. */
  lemma {:induction false} ParseLinesAppend(a: seq<string>, b: seq<string>)
    ensures ParseLines(a + b) == ParseLines(a) + ParseLines(b)
  {
    if a != [] {
      var ab := a + b;
      assert ab[0] == a[0];
      assert ab[1..] == a[1..] + b;
      assert ParseLines(ab) == RowPoints(a[0]) + ParseLines(a[1..] + b);
      ParseLinesAppend(a[1..], b);
    } else {
      assert a + b == b;
    }
  }

  /** A line that parses adds one point; a dropped line adds none. */
  lemma ParseLine(line: string)
    ensures ParseLines([line]) == match ParseRow(line) case None => [] case Some(p) => [p]
  {
    assert [line][1..] == [];
  }

  /**
   * The `.then(csvText => ...)` body: split into lines, skip the header,
   * parse the rows, sort by date.
   */
  function ParseCsv(csvText: string): (series: seq<NavPoint>)
    ensures multiset(series) == multiset(ParseLines(Split(csvText, '\n')[1..]))
    ensures AllDated(ParseLines(Split(csvText, '\n')[1..])) ==> SortedByDate(series)
  {
    SortByDate(ParseLines(Split(csvText, '\n')[1..]))
  }

  /** The header line never reaches the series: any first line gives the same result. */
  lemma HeaderIgnored(header: string, header': string, body: string)
    requires '\n' !in header && '\n' !in header'
    ensures ParseCsv(header + "\n" + body) == ParseCsv(header' + "\n" + body)
  {
    SplitAtFirst(header, body, '\n');
    SplitAtFirst(header', body, '\n');
  }

  /** A text that is only a header line gives the empty series. */
  lemma HeaderOnly(header: string)
    requires '\n' !in header
    ensures ParseCsv(header) == []
  {
    SplitNoSeparator(header, '\n');
  }
}
