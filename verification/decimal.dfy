/** Decimal digit strings: reading CSS pixel lengths and writing timestamps into file names. */
module Decimal {
  import opened Wrappers

  function DigitValue(c: char): Option<nat> {
    if '0' <= c <= '9' then Some((c as int) - ('0' as int)) else None
  }

  /** The value of a non-empty string of decimal digits. */
  function DecimalValue(s: string): Option<nat>
    decreases |s|
  {
    if |s| == 0 then None
    else
      match DigitValue(s[|s| - 1])
      case None => None
      case Some(d) =>
        if |s| == 1 then Some(d)
        else
          match DecimalValue(s[..|s| - 1])
          case None => None
          case Some(v) => Some(10 * v + d)
  }

  function DigitChar(d: nat): char
    requires d < 10
  {
    (('0' as int) + d) as char
  }

  /** The shortest decimal spelling of `n` (what a template literal prints for a number). */
  function DecimalText(n: nat): (r: string)
    ensures |r| > 0
    decreases n
  {
    if n < 10 then [DigitChar(n)] else DecimalText(n / 10) + [DigitChar(n % 10)]
  }

  /** Writing a number and reading it back gives the number. */
  lemma {:induction false} DecimalRoundTrip(n: nat)
    ensures DecimalValue(DecimalText(n)) == Some(n)
    decreases n
  {
    if n >= 10 {
      DecimalRoundTrip(n / 10);
      var t := DecimalText(n);
      assert t[..|t| - 1] == DecimalText(n / 10);
    }
  }

  /** The number of pixels a length such as "14px" denotes. */
  function CssPixels(s: string): Option<nat> {
    if |s| > 2 && s[|s| - 2..] == "px" then DecimalValue(s[..|s| - 2]) else None
  }
}
