/**
 * The JavaScript numbers the NAV pipeline handles: a finite value or NaN,
 * with reals standing for IEEE-754 doubles (rounding is not modelled).
 * `parseFloat` is given for the strings it is ever called on here: those
 * made only of digits, `.` and `-`.
 */
module JsNumber {
  import opened Text

  datatype Number = NaN | Num(value: real)

  /** The characters the value cleanup keeps: the regular expression class `[\d.-]`. */
  predicate IsNumericChar(c: char)
  {
    IsDigit(c) || c == '.' || c == '-'
  }

  predicate AllNumeric(s: string)
  {
    forall i :: 0 <= i < |s| ==> IsNumericChar(s[i])
  }

  /** The longest prefix of `s` made of decimal digits. */
  function LeadingDigits(s: string): (d: string)
    ensures |d| <= |s| && d == s[..|d|] && AllDigits(d)
    ensures |d| < |s| ==> !IsDigit(s[|d|])
  {
    if s != [] && IsDigit(s[0]) then [s[0]] + LeadingDigits(s[1..]) else []
  }

  /** The value of the decimal literal `whole.fraction`. */
  function Magnitude(whole: string, fraction: string): (m: real)
    requires AllDigits(whole) && AllDigits(fraction)
    ensures m >= 0.0
  {
    DigitsValue(whole) as real + DigitsValue(fraction) as real / Pow10(|fraction|) as real
  }

  /**
   * The digits before and after the point of the longest unsigned decimal
   * literal that starts `body`: `digits`, `digits.`, `digits.digits` or
   * `.digits` (both parts empty when there is none).
   */
  function DecimalPrefix(body: string): (parts: (string, string))
    ensures AllDigits(parts.0) && AllDigits(parts.1)
    ensures parts.0 == LeadingDigits(body)
  {
    var whole := LeadingDigits(body);
    var rest := body[|whole|..];
    var fraction := if rest != [] && rest[0] == '.' then LeadingDigits(rest[1..]) else [];
    (whole, fraction)
  }

  /**
   * `parseFloat(s)` (ECMAScript, section 19.2.4): the longest prefix that is
   * a decimal literal, an optional `-` then an unsigned literal; NaN when
   * there is no such prefix. Over this alphabet there is no white space, no
   * `+`, no exponent and no `Infinity` to consider.
   */
  function ParseFloat(s: string): (n: Number)
    requires AllNumeric(s)
  {
    var negative := s != [] && s[0] == '-';
    var (whole, fraction) := DecimalPrefix(if negative then s[1..] else s);
    if whole == [] && fraction == [] then NaN
    else
      var magnitude := Magnitude(whole, fraction);
      Num(if negative then -magnitude else magnitude)
  }

  /** parseFloat gives NaN exactly when no digit starts the literal (after an optional `-`, or after a leading `.`). */
  lemma ParseFloatNaN(s: string)
    requires AllNumeric(s)
    ensures var body := if s != [] && s[0] == '-' then s[1..] else s;
      ParseFloat(s) == NaN <==>
        !(body != [] && IsDigit(body[0])) && !(|body| >= 2 && body[0] == '.' && IsDigit(body[1]))
  {
  }

  /** Only a leading `-` makes the parsed value negative. */
  lemma ParseFloatSign(s: string)
    requires AllNumeric(s)
    ensures ParseFloat(s).Num? && ParseFloat(s).value < 0.0 ==> s[0] == '-'
    ensures !(s != [] && s[0] == '-') && ParseFloat(s).Num? ==> ParseFloat(s).value >= 0.0
  {
  }

  /** parseFloat reads back the decimal rendering of a whole number. */
  lemma ParseFloatDecimal(n: nat)
    ensures AllNumeric(DecimalString(n))
    ensures ParseFloat(DecimalString(n)) == Num(n as real)
  {
    var s := DecimalString(n);
    LeadingDigitsAll(s);
  }

  /** parseFloat of `whole.fraction`, both digit strings, is their decimal value. */
  lemma ParseFloatFixed(whole: string, fraction: string)
    requires AllDigits(whole) && AllDigits(fraction) && whole != []
    ensures AllNumeric(whole + "." + fraction)
    ensures ParseFloat(whole + "." + fraction) == Num(Magnitude(whole, fraction))
  {
    var s := whole + "." + fraction;
    FixedIsNumeric(whole, fraction);
    assert s[0] == whole[0] && IsDigit(s[0]);
    LeadingDigitsStop(whole, "." + fraction);
    assert s == whole + ("." + fraction);
    assert LeadingDigits(s) == whole;
    var rest := s[|whole|..];
    assert rest == "." + fraction;
    assert rest[1..] == fraction;
    LeadingDigitsAll(fraction);
    assert DecimalPrefix(s) == (whole, fraction);
  }

  lemma FixedIsNumeric(whole: string, fraction: string)
    requires AllDigits(whole) && AllDigits(fraction)
    ensures AllNumeric(whole + "." + fraction)
  {
    var s := whole + "." + fraction;
    forall i | 0 <= i < |s| ensures IsNumericChar(s[i]) {
      if i < |whole| { assert s[i] == whole[i]; }
      else if i > |whole| { assert s[i] == fraction[i - |whole| - 1]; }
    }
  }

  lemma {:induction false} LeadingDigitsAll(s: string)
    requires AllDigits(s)
    ensures LeadingDigits(s) == s
  {
    if s != [] {
      LeadingDigitsAll(s[1..]);
    }
  }

  lemma {:induction false} LeadingDigitsStop(d: string, t: string)
    requires AllDigits(d) && t != [] && !IsDigit(t[0])
    ensures LeadingDigits(d + t) == d
  {
    if d != [] {
      assert (d + t)[1..] == d[1..] + t;
      LeadingDigitsStop(d[1..], t);
    } else {
      assert d + t == t;
    }
  }

  /**
   * `Math.max(a, b)`: NaN if either argument is NaN, otherwise the larger.
   */
  function Max(a: Number, b: Number): (m: Number)
    ensures m.NaN? <==> a.NaN? || b.NaN?
    ensures m.Num? ==> (m == a || m == b) && a.value <= m.value && b.value <= m.value
  {
    if a.NaN? || b.NaN? then NaN else if a.value >= b.value then a else b
  }

  /** `a * k`: NaN stays NaN. */
  function Scale(a: Number, k: real): (m: Number)
    ensures m.NaN? <==> a.NaN?
  {
    match a
    case NaN => NaN
    case Num(v) => Num(v * k)
  }
}
