/** Characters and numerals, as the history components read them. */
module Chars {
  predicate IsDigit(c: char) { '0' <= c <= '9' }

  /** How many digits `s` starts with. */
  function DigitRun(s: string): (n: nat)
    ensures n <= |s|
    ensures forall i :: 0 <= i < n ==> IsDigit(s[i])
    ensures n < |s| ==> !IsDigit(s[n])
  {
    if s == [] || !IsDigit(s[0]) then 0 else 1 + DigitRun(s[1..])
  }

  /** The number a digit string denotes, exactly. */
  function Numeral(d: string): (v: nat)
    requires forall k :: 0 <= k < |d| ==> IsDigit(d[k])
  {
    if d == "" then 0 else assert IsDigit(d[|d| - 1]); Numeral(d[..|d| - 1]) * 10 + (d[|d| - 1] as int - '0' as int)
  }
}
