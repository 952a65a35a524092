/** Hexadecimal digits; lower case when printed, either case when read. */
module HexDigits {

  predicate IsHexDigit(c: char) {
    '0' <= c <= '9' || 'a' <= c <= 'f' || 'A' <= c <= 'F'
  }

  function HexValue(c: char): (d: nat)
    requires IsHexDigit(c)
    ensures d < 16
  {
    if c <= '9' then (c - '0') as nat else if c <= 'F' then 10 + (c - 'A') as nat else 10 + (c - 'a') as nat
  }

  function HexDigit(d: nat): (c: char)
    requires d < 16
    ensures IsHexDigit(c) && HexValue(c) == d
  {
    if d < 10 then '0' + d as char else 'a' + (d - 10) as char
  }

  /** The number two hexadecimal digits denote. */
  function Pair(high: char, low: char): (n: nat)
    requires IsHexDigit(high) && IsHexDigit(low)
    ensures n < 256
  {
    16 * HexValue(high) + HexValue(low)
  }

  /** The digits by name: printed in lower case, read in either. */
  lemma DigitsExactly(d: nat)
    requires d < 16
    ensures HexDigit(d) == "0123456789abcdef"[d]
    ensures HexValue("0123456789abcdef"[d]) == d && HexValue("0123456789ABCDEF"[d]) == d
  {
  }
}
