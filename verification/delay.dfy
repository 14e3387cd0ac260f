/** The delay column: a timetable row's `differenceInMinutes` rendered as
    "-" (no delay to show) or a signed number of minutes. */
module Delay {

  import opened Optional
  import opened Text
  import opened Model

  const Placeholder: string := "-"
  const MinSuffix: string := " min"

  /** The delay text exactly as the handler computes it. It compares the
      field with `null` strictly, so a field the API left out (`undefined`)
      slips past the placeholder test and is interpolated as "undefined". */
  function FormatDiffAsWritten(d: JsNumber): (s: string)
    ensures d != Undefined ==> s == FormatDiff(d)
    ensures d == Undefined ==> s != Placeholder
  {
    match d
    case Null => Placeholder
    case Number(n) => NumberText(n)
    case Undefined => "undefined" + MinSuffix
  }

  /** The text of a delay the API sent as a number: the placeholder for zero,
      otherwise the minutes with an explicit sign. */
  function NumberText(n: int): string {
    if n == 0 then Placeholder
    else if n > 0 then "+" + IntToString(n) + MinSuffix
    else IntToString(n) + MinSuffix
  }

  /** A missing field produces the text "undefined min" instead of the placeholder. */
  lemma UndefinedDelayMisrendered()
    ensures FormatDiffAsWritten(Undefined) == "undefined min"
    ensures FormatDiff(Undefined) == Placeholder
  {
  }

  /** The delay text with an absent field treated like `null`: the
      placeholder for no delay, otherwise the minutes with an explicit sign. */
  function FormatDiff(d: JsNumber): (s: string)
    ensures s == Placeholder <==> (d.Undefined? || d.Null? || d == Number(0))
    ensures d.Number? && d.value > 0 ==> s == "+" + NatToString(d.value) + MinSuffix
    ensures d.Number? && d.value < 0 ==> s == "-" + NatToString(-d.value) + MinSuffix
  {
    match d
    case Number(n) => NumberText(n)
    case _ => Placeholder
  }

  /** Reads a delay text back: the signed minutes, or `None` for the placeholder. */
  function ParseDiff(s: string): Option<int> {
    if |s| > |MinSuffix| && s[|s| - |MinSuffix|..] == MinSuffix then
      ParseSigned(s[..|s| - |MinSuffix|])
    else
      None
  }

  /** Reads "+digits" or "-digits" (or bare digits) as an integer. */
  function ParseSigned(num: string): Option<int>
    requires |num| > 0
  {
    if num[0] == '+' then
      match ParseNat(num[1..])
      case Some(v) => Some(v as int)
      case None => None
    else
      ParseInt(num)
  }

  /** The delay text loses nothing but the difference between "no delay"
      and "no data": every non-zero delay can be read back from it. */
  lemma FormatDiffRoundTrip(d: JsNumber)
    ensures ParseDiff(FormatDiff(d)) == (if d.Number? && d.value != 0 then Some(d.value) else None)
  {
    if d.Number? && d.value != 0 {
      var n := d.value;
      var digits := if n > 0 then NatToString(n) else NatToString(-n);
      var sign := if n > 0 then '+' else '-';
      assert FormatDiff(d) == [sign] + digits + MinSuffix;
      SignedTextReadsBack(sign, digits);
      NatToStringRoundTrip(if n > 0 then n else -n);
    }
  }

  /** A sign, a digit string and the suffix read back as the signed digit value. */
  lemma SignedTextReadsBack(sign: char, digits: string)
    requires sign == '+' || sign == '-'
    requires |digits| > 0 && AllDigits(digits)
    ensures var v: int := DigitsValue(digits);
      ParseDiff([sign] + digits + MinSuffix) == Some(if sign == '+' then v else -v)
  {
    SuffixStripped([sign] + digits);
    SignReadBack(sign, digits);
  }

  lemma SuffixStripped(num: string)
    requires |num| > 0
    ensures ParseDiff(num + MinSuffix) == ParseSigned(num)
  {
    var s := num + MinSuffix;
    assert s[|s| - |MinSuffix|..] == MinSuffix;
    assert s[..|s| - |MinSuffix|] == num;
  }

  lemma SignReadBack(sign: char, digits: string)
    requires sign == '+' || sign == '-'
    requires |digits| > 0 && AllDigits(digits)
    ensures var v: int := DigitsValue(digits);
      ParseSigned([sign] + digits) == Some(if sign == '+' then v else -v)
  {
    var num := [sign] + digits;
    assert num[0] == sign && num[1..] == digits;
    assert ParseNat(digits) == Some(DigitsValue(digits));
  }

  /** The renderings the viewer promises for typical values. */
  lemma FormatDiffExamples()
    ensures FormatDiff(Number(0)) == "-"
    ensures FormatDiff(Null) == "-"
    ensures FormatDiff(Number(5)) == "+5 min"
    ensures FormatDiff(Number(-3)) == "-3 min"
  {
    assert NatToString(5) == "5";
    assert NatToString(3) == "3";
  }
}
