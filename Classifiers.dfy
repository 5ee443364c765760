/**
 * The CSS classes the performance table uses: the highlighted row of the
 * `Focused` portfolio, and the colour of a percentage cell by its sign.
 */
module Classifiers {
  import opened Text

  /** `getRowClass(name)`: only the row named exactly `Focused` is highlighted. */
  function GetRowClass(name: string): (c: string)
    ensures c == "focused-row" <==> name == "Focused"
    ensures c != "focused-row" ==> c == ""
  {
    if name == "Focused" then "focused-row" else ""
  }

  /**
   * `getValueClass(value)`: a leading `-` means negative; `0.0%` and `0%`,
   * written exactly so, are neutral; anything else is positive.
   */
  function GetValueClass(value: string): (c: string)
    ensures c == "negative" || c == "neutral" || c == "positive"
    ensures c == "negative" <==> StartsWith(value, "-")
    ensures c == "neutral" <==> !StartsWith(value, "-") && (value == "0.0%" || value == "0%")
  {
    if StartsWith(value, "-") then "negative"
    else if value == "0.0%" || value == "0%" then "neutral"
    else "positive"
  }

  /** The class depends on the text, not on the number it spells. */
  lemma ValueClassIsTextual()
    ensures GetValueClass("-0.0%") == "negative"
    ensures GetValueClass("0.00%") == "positive"
    ensures GetValueClass("") == "positive"
    ensures GetValueClass("0%") == "neutral"
  {
    assert "-0.0%"[..1] == "-";
    assert "0.00%"[..1] == "0";
    assert "0%"[..1] == "0";
  }

  /** Any cell with a `-` in front is negative. */
  lemma MinusMakesNegative(value: string)
    ensures GetValueClass("-" + value) == "negative"
  {
    assert ("-" + value)[..1] == "-";
  }
}
