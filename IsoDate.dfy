/**
 * `new Date(s).getTime()` for the date strings the component builds and
 * compares: the complete extended calendar-date form `YYYY-MM-DD` of
 * ISO 8601:2004 (section 4.1.2.2), which ECMAScript's Date Time String
 * Format reads as midnight UTC. Any other string is an Invalid Date, whose
 * time value is NaN (`None` here).
 */
module IsoDate {
  import opened Wrappers
  import opened Text

  const MillisPerDay: int := 86400000

  /** Days from 0000-01-01 to 1970-01-01 in the proleptic Gregorian calendar. */
  const EpochDay: int := 719528

  predicate IsLeapYear(y: nat)
  {
    y % 4 == 0 && (y % 100 != 0 || y % 400 == 0)
  }

  function DaysInMonth(y: nat, m: nat): (n: nat)
    requires 1 <= m <= 12
    ensures 28 <= n <= 31
  {
    if m == 2 then (if IsLeapYear(y) then 29 else 28)
    else if m == 4 || m == 6 || m == 9 || m == 11 then 30
    else 31
  }

  /** Days of the months of year `y` before month `m` (13 gives the whole year). */
  function DaysBeforeMonth(y: nat, m: nat): (n: nat)
    requires 1 <= m <= 13
  {
    [0, 31, 59, 90, 120, 151, 181, 212, 243, 273, 304, 334, 365][m - 1]
      + (if m > 2 && IsLeapYear(y) then 1 else 0)
  }

  /** Each month starts where the one before it ends. */
  lemma MonthStartsAfterPrevious(y: nat, m: nat)
    requires 1 <= m <= 12
    ensures DaysBeforeMonth(y, m + 1) == DaysBeforeMonth(y, m) + DaysInMonth(y, m)
  {
  }

  function YearLength(y: nat): nat
  {
    DaysBeforeMonth(y, 13)
  }

  /** Days from 0000-01-01 to the first day of year `y`: 365 a year plus one per leap year before it. */
  function DaysBeforeYear(y: nat): nat
  {
    365 * y + (y + 3) / 4 - (y + 99) / 100 + (y + 399) / 400
  }

  /** Each year starts where the one before it ends. */
  lemma NextYear(y: nat)
    ensures DaysBeforeYear(y + 1) == DaysBeforeYear(y) + YearLength(y)
  {
    Div4Step(y);
    Div100Step(y);
    Div400Step(y);
    DivisibilityChain(y);
    assert YearLength(y) == 365 + (if IsLeapYear(y) then 1 else 0);
  }

  /** A multiple of 400 is a multiple of 100, which is a multiple of 4. */
  lemma DivisibilityChain(y: nat)
    ensures y % 400 == 0 ==> y % 100 == 0
    ensures y % 100 == 0 ==> y % 4 == 0
  {
    if y % 400 == 0 {
      assert y == 100 * (4 * (y / 400));
    }
    if y % 100 == 0 {
      assert y == 4 * (25 * (y / 100));
    }
  }

  /** One more year adds a leap day to the count exactly when `y` is a multiple of 4. */
  lemma Div4Step(y: nat)
    ensures (y + 4) / 4 == (y + 3) / 4 + (if y % 4 == 0 then 1 else 0)
  {
    var q, r := y / 4, y % 4;
    assert y == 4 * q + r;
    assert (y + 4) / 4 == q + 1;
    assert (y + 3) / 4 == if r == 0 then q else q + 1;
  }

  lemma Div100Step(y: nat)
    ensures (y + 100) / 100 == (y + 99) / 100 + (if y % 100 == 0 then 1 else 0)
  {
    var q, r := y / 100, y % 100;
    assert y == 100 * q + r;
    assert (y + 100) / 100 == q + 1;
    assert (y + 99) / 100 == if r == 0 then q else q + 1;
  }

  lemma Div400Step(y: nat)
    ensures (y + 400) / 400 == (y + 399) / 400 + (if y % 400 == 0 then 1 else 0)
  {
    var q, r := y / 400, y % 400;
    assert y == 400 * q + r;
    assert (y + 400) / 400 == q + 1;
    assert (y + 399) / 400 == if r == 0 then q else q + 1;
  }

  /** The shape `DDDD-DD-DD` with a real calendar date in it. */
  predicate IsIsoDate(s: string)
  {
    && |s| == 10 && s[4] == '-' && s[7] == '-'
    && AllDigits(s[..4]) && AllDigits(s[5..7]) && AllDigits(s[8..])
    && 1 <= DigitsValue(s[5..7]) <= 12
    && 1 <= DigitsValue(s[8..]) <= DaysInMonth(DigitsValue(s[..4]), DigitsValue(s[5..7]))
  }

  function Year(s: string): nat requires IsIsoDate(s) { DigitsValue(s[..4]) }
  function Month(s: string): nat requires IsIsoDate(s) { DigitsValue(s[5..7]) }
  function Day(s: string): nat requires IsIsoDate(s) { DigitsValue(s[8..]) }

  /** Days from 0000-01-01 to the given date. */
  function DayNumber(y: nat, m: nat, d: nat): int
    requires 1 <= m <= 12
  {
    DaysBeforeYear(y) + DaysBeforeMonth(y, m) + d - 1
  }

  /** `new Date(s).getTime()`: milliseconds since 1970-01-01T00:00:00Z, or NaN. */
  function Timestamp(s: string): (t: Option<int>)
    ensures t.Some? <==> IsIsoDate(s)
  {
    if IsIsoDate(s) then Some((DayNumber(Year(s), Month(s), Day(s)) - EpochDay) * MillisPerDay) else None
  }

  /** The epoch itself is time value 0. */
  lemma EpochIsZero()
    ensures Timestamp("1970-01-01") == Some(0)
  {
    var s := "1970-01-01";
    assert s[..4] == "1970" && s[5..7] == "01" && s[8..] == "01";
    assert DigitsValue("1970") == 1970 by {
      assert "1970"[..3] == "197" && "197"[..2] == "19" && "19"[..1] == "1" && "1"[..0] == "";
    }
    assert DigitsValue("01") == 1 by {
      assert "01"[..1] == "0" && "0"[..0] == "";
    }
  }

  /** Within a year, an earlier (month, day) lies on an earlier day. */
  lemma {:induction false} DaysBeforeMonthGrows(y: nat, m1: nat, m2: nat)
    requires 1 <= m1 < m2 <= 13
    ensures DaysBeforeMonth(y, m1) + DaysInMonth(y, m1) <= DaysBeforeMonth(y, m2)
    decreases m2 - m1
  {
    MonthStartsAfterPrevious(y, m1);
    if m1 + 1 < m2 {
      DaysBeforeMonthGrows(y, m1 + 1, m2);
    }
  }

  lemma {:induction false} DaysBeforeYearGrows(y1: nat, y2: nat)
    requires y1 < y2
    ensures DaysBeforeYear(y1) + YearLength(y1) <= DaysBeforeYear(y2)
    decreases y2 - y1
  {
    NextYear(y1);
    if y1 + 1 < y2 {
      DaysBeforeYearGrows(y1 + 1, y2);
    }
  }

  predicate ValidDate(y: nat, m: nat, d: nat)
  {
    1 <= m <= 12 && 1 <= d <= DaysInMonth(y, m)
  }

  predicate TripleLess(y1: nat, m1: nat, d1: nat, y2: nat, m2: nat, d2: nat)
  {
    y1 < y2 || (y1 == y2 && (m1 < m2 || (m1 == m2 && d1 < d2)))
  }

  /** Day numbers grow strictly with the (year, month, day) order. */
  lemma DayNumberStrictlyIncreasing(y1: nat, m1: nat, d1: nat, y2: nat, m2: nat, d2: nat)
    requires ValidDate(y1, m1, d1) && ValidDate(y2, m2, d2)
    requires TripleLess(y1, m1, d1, y2, m2, d2)
    ensures DayNumber(y1, m1, d1) < DayNumber(y2, m2, d2)
  {
    if y1 < y2 {
      DaysBeforeMonthGrows(y1, m1, 13);
      DaysBeforeYearGrows(y1, y2);
    } else if m1 < m2 {
      DaysBeforeMonthGrows(y1, m1, m2);
    }
  }

  /** String order on valid dates is (year, month, day) order. */
  lemma LexLeIsTripleOrder(a: string, b: string)
    requires IsIsoDate(a) && IsIsoDate(b)
    ensures LexLe(a, b) <==> !TripleLess(Year(b), Month(b), Day(b), Year(a), Month(a), Day(a))
    ensures a == b <==> (Year(a), Month(a), Day(a)) == (Year(b), Month(b), Day(b))
  {
    assert a == a[..4] + ("-" + (a[5..7] + ("-" + a[8..])));
    assert b == b[..4] + ("-" + (b[5..7] + ("-" + b[8..])));
    LexLeAppend(a[..4], b[..4], "-" + (a[5..7] + ("-" + a[8..])), "-" + (b[5..7] + ("-" + b[8..])));
    LexLeAppend("-", "-", a[5..7] + ("-" + a[8..]), b[5..7] + ("-" + b[8..]));
    LexLeAppend(a[5..7], b[5..7], "-" + a[8..], "-" + b[8..]);
    LexLeAppend("-", "-", a[8..], b[8..]);
    DigitsOrderIsLexicographic(a[..4], b[..4]);
    DigitsOrderIsLexicographic(b[..4], a[..4]);
    DigitsOrderIsLexicographic(a[5..7], b[5..7]);
    DigitsOrderIsLexicographic(b[5..7], a[5..7]);
    DigitsOrderIsLexicographic(a[8..], b[8..]);
    DigitsOrderIsLexicographic(b[8..], a[8..]);
  }

  /**
   * On valid dates, comparing time values is comparing the strings: the
   * order `new Date(...).getTime()` gives is the lexicographic order of
   * the fixed-width `YYYY-MM-DD` strings, and equal times mean equal strings.
   */
  lemma TimestampOrderIsLexicographic(a: string, b: string)
    requires IsIsoDate(a) && IsIsoDate(b)
    ensures Timestamp(a).value <= Timestamp(b).value <==> LexLe(a, b)
    ensures Timestamp(a).value == Timestamp(b).value <==> a == b
  {
    LexLeIsTripleOrder(a, b);
    var ya, ma, da := Year(a), Month(a), Day(a);
    var yb, mb, db := Year(b), Month(b), Day(b);
    if TripleLess(ya, ma, da, yb, mb, db) {
      DayNumberStrictlyIncreasing(ya, ma, da, yb, mb, db);
    } else if TripleLess(yb, mb, db, ya, ma, da) {
      DayNumberStrictlyIncreasing(yb, mb, db, ya, ma, da);
    }
  }
}
