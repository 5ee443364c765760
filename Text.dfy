/**
 * String operations the component relies on, written out as JavaScript
 * defines them: String.prototype.split with a one-character separator,
 * startsWith, decimal digit strings and the lexicographic comparison of
 * strings.
 */
module Text {

  /** Joins pieces with a separator; the inverse of Split. */
  function Join(parts: seq<string>, sep: char): (s: string)
    requires |parts| >= 1
    ensures |s| >= |parts| - 1
  {
    if |parts| == 1 then parts[0] else parts[0] + [sep] + Join(parts[1..], sep)
  }

  /**
   * `s.split(sep)` for a one-character separator: the maximal runs between
   * separators, so there is always at least one piece (`"".split(",")` is
   * `[""]`) and a trailing separator leaves an empty last piece.
   */
  function Split(s: string, sep: char): (parts: seq<string>)
    ensures |parts| >= 1
    decreases |s|
  {
    if s == [] then [[]]
    else
      var rest := Split(s[1..], sep);
      if s[0] == sep then [[]] + rest else [[s[0]] + rest[0]] + rest[1..]
  }

  /** The pieces hold no separator, and joining them back gives the string. */
  lemma {:induction false} SplitPieces(s: string, sep: char)
    ensures forall i :: 0 <= i < |Split(s, sep)| ==> sep !in Split(s, sep)[i]
    ensures Join(Split(s, sep), sep) == s
    decreases |s|
  {
    if s != [] {
      SplitPieces(s[1..], sep);
      var rest := Split(s[1..], sep);
      if s[0] == sep {
        assert Split(s, sep) == [[]] + rest;
        assert ([[]] + rest)[1..] == rest;
        assert s == [sep] + s[1..];
      } else {
        var parts := [[s[0]] + rest[0]] + rest[1..];
        assert Split(s, sep) == parts;
        assert parts[1..] == rest[1..];
        assert forall i :: 1 <= i < |parts| ==> parts[i] == rest[i];
        if |rest| > 1 {
          assert Join(rest, sep) == rest[0] + [sep] + Join(rest[1..], sep);
          assert Join(parts, sep) == [s[0]] + rest[0] + [sep] + Join(rest[1..], sep);
        }
        assert s == [s[0]] + s[1..];
      }
    }
  }

  /** A piece without the separator splits to itself. */
  lemma {:induction false} SplitNoSeparator(a: string, sep: char)
    requires sep !in a
    ensures Split(a, sep) == [a]
    decreases |a|
  {
    if a != [] {
      SplitNoSeparator(a[1..], sep);
      assert a == [a[0]] + a[1..];
    }
  }

  /** Splitting stops at the first separator. */
  lemma {:induction false} SplitAtFirst(a: string, b: string, sep: char)
    requires sep !in a
    ensures Split(a + [sep] + b, sep) == [a] + Split(b, sep)
    decreases |a|
  {
    var s := a + [sep] + b;
    if a == [] {
      assert s == [sep] + b;
      assert s[1..] == b;
    } else {
      assert s[0] == a[0] && a[0] != sep;
      assert s[1..] == a[1..] + [sep] + b;
      SplitAtFirst(a[1..], b, sep);
      var rest := Split(s[1..], sep);
      assert rest == [a[1..]] + Split(b, sep);
      assert Split(s, sep) == [[s[0]] + rest[0]] + rest[1..];
      assert [s[0]] + rest[0] == a;
      assert rest[1..] == Split(b, sep);
    }
  }

  /** Split undoes Join when no piece contains the separator. */
  lemma {:induction false} SplitJoin(parts: seq<string>, sep: char)
    requires |parts| >= 1
    requires forall i :: 0 <= i < |parts| ==> sep !in parts[i]
    ensures Split(Join(parts, sep), sep) == parts
  {
    if |parts| == 1 {
      SplitNoSeparator(parts[0], sep);
    } else {
      SplitJoin(parts[1..], sep);
      SplitAtFirst(parts[0], Join(parts[1..], sep), sep);
      assert [parts[0]] + parts[1..] == parts;
    }
  }

  /** `s.startsWith(prefix)`. */
  predicate StartsWith(s: string, prefix: string)
  {
    |prefix| <= |s| && s[..|prefix|] == prefix
  }

  predicate IsDigit(c: char)
  {
    '0' <= c <= '9'
  }

  predicate AllDigits(s: string)
  {
    forall i :: 0 <= i < |s| ==> IsDigit(s[i])
  }

  function DigitValue(c: char): (d: nat)
    requires IsDigit(c)
    ensures d < 10
  {
    (c - '0') as nat
  }

  function DigitChar(d: nat): (c: char)
    requires d < 10
    ensures IsDigit(c) && DigitValue(c) == d
  {
    ('0' as int + d) as char
  }

  function Pow10(n: nat): (p: nat)
    ensures p >= 1
  {
    if n == 0 then 1 else 10 * Pow10(n - 1)
  }

  /** The number a string of decimal digits denotes, most significant first. */
  function DigitsValue(s: string): (v: nat)
    requires AllDigits(s)
    ensures v < Pow10(|s|)
  {
    if s == [] then 0
    else
      var init := s[..|s| - 1];
      assert AllDigits(init);
      DigitsValue(init) * 10 + DigitValue(s[|s| - 1])
  }

  /** The shortest decimal rendering of a number, as `${n}` gives for an integer. */
  function DecimalString(n: nat): (s: string)
    ensures |s| >= 1 && AllDigits(s)
    ensures DigitsValue(s) == n
    ensures |s| > 1 ==> s[0] != '0'
  {
    if n < 10 then [DigitChar(n)]
    else
      var s := DecimalString(n / 10) + [DigitChar(n % 10)];
      assert s[..|s| - 1] == DecimalString(n / 10);
      s
  }

  /** Peeling off the leading digit: its weight is 10^(|s|-1). */
  lemma {:induction false} DigitsValueHead(s: string)
    requires |s| >= 1 && AllDigits(s)
    ensures DigitsValue(s) == DigitValue(s[0]) * Pow10(|s| - 1) + DigitsValue(s[1..])
  {
    var n := |s|;
    if n == 1 {
      assert s[1..] == [];
      assert s[..0] == [];
    } else {
      var init := s[..n - 1];
      var tail := s[1..];
      assert AllDigits(init) && AllDigits(tail);
      assert AllDigits(init[1..]) && AllDigits(tail[..n - 2]);
      DigitsValueHead(init);
      assert init[0] == s[0];
      assert init[1..] == tail[..n - 2];
      assert tail[n - 2] == s[n - 1];
      var d0, x, last := DigitValue(s[0]), DigitsValue(init[1..]), DigitValue(s[n - 1]);
      assert DigitsValue(init) == d0 * Pow10(n - 2) + x;
      assert DigitsValue(tail) == x * 10 + last;
      assert DigitsValue(s) == (d0 * Pow10(n - 2) + x) * 10 + last;
      assert Pow10(n - 1) == 10 * Pow10(n - 2);
      ShiftDigit(d0, Pow10(n - 2), x);
    }
  }

  lemma ShiftDigit(d: nat, q: nat, x: nat)
    ensures (d * q + x) * 10 == d * (10 * q) + x * 10
  {
  }

  /** A leading digit outweighs every tail of the same width. */
  lemma LeadingDigitDominates(da: nat, db: nat, ra: nat, rb: nat, p: nat)
    requires da < db && ra < p && rb < p
    ensures da * p + ra < db * p + rb
  {
    assert (da + 1) * p <= db * p;
  }

  /**
   * Lexicographic order by code point, a proper prefix coming first. This
   * is JavaScript's `a <= b` (which compares UTF-16 code units) on strings
   * without characters above U+FFFF, such as the ISO dates it is used on.
   */
  predicate LexLe(a: string, b: string)
    decreases |a|
  {
    a == [] || (b != [] && (a[0] < b[0] || (a[0] == b[0] && LexLe(a[1..], b[1..]))))
  }

  /** For digit strings of one width, numeric order is string order, and equal value means equal string. */
  lemma {:induction false} DigitsOrderIsLexicographic(a: string, b: string)
    requires AllDigits(a) && AllDigits(b) && |a| == |b|
    ensures DigitsValue(a) <= DigitsValue(b) <==> LexLe(a, b)
    ensures DigitsValue(a) == DigitsValue(b) <==> a == b
    decreases |a|
  {
    if a != [] {
      DigitsValueHead(a);
      DigitsValueHead(b);
      DigitsOrderIsLexicographic(a[1..], b[1..]);
      var p := Pow10(|a| - 1);
      var da, db := DigitValue(a[0]), DigitValue(b[0]);
      var ra, rb := DigitsValue(a[1..]), DigitsValue(b[1..]);
      if da < db {
        LeadingDigitDominates(da, db, ra, rb, p);
        assert a[0] < b[0];
      } else if db < da {
        LeadingDigitDominates(db, da, rb, ra, p);
        assert b[0] < a[0];
      } else {
        assert a[0] == b[0];
        assert a == [a[0]] + a[1..] && b == [b[0]] + b[1..];
      }
    }
  }

  /** Comparing concatenations of equal-width heads: the heads decide unless they are equal. */
  lemma {:induction false} LexLeAppend(p: string, p': string, q: string, q': string)
    requires |p| == |p'|
    ensures LexLe(p + q, p' + q') <==> if p == p' then LexLe(q, q') else LexLe(p, p')
    decreases |p|
  {
    if p != [] {
      assert (p + q)[0] == p[0] && (p' + q')[0] == p'[0];
      assert (p + q)[1..] == p[1..] + q && (p' + q')[1..] == p'[1..] + q';
      LexLeAppend(p[1..], p'[1..], q, q');
      assert p == [p[0]] + p[1..] && p' == [p'[0]] + p'[1..];
    } else {
      assert p + q == q && p' + q' == q';
    }
  }
}
