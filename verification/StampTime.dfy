/**
 Reading a history stamp as a time (src/history.rs): `#` and a base-10 strtol parse with a
 64-bit signed range, in which an overflowing numeral reads as 0.
 */
module StampTime {
  import opened Chars

  const I64_MIN: int := -0x8000_0000_0000_0000
  const I64_MAX: int := 0x7fff_ffff_ffff_ffff

  predicate FitsI64(v: int) { I64_MIN <= v <= I64_MAX }

  predicate IsAsciiWhitespace(c: char) { c == ' ' || c == '\t' || c == '\n' || c == '\U{0c}' || c == '\r' }

  function SkipWhitespace(s: string): (r: string)
    ensures r == "" || !IsAsciiWhitespace(r[0])
    ensures |r| <= |s| && r == s[|s| - |r|..]
  {
    if s != "" && IsAsciiWhitespace(s[0]) then SkipWhitespace(s[1..]) else s
  }

  predicate SignedAt(s: string) { s != "" && (s[0] == '+' || s[0] == '-') }

  /** The longest run of digits `s` starts with. */
  function LeadingDigits(s: string): (d: string)
    ensures |d| <= |s| && d == s[..|d|] && forall k :: 0 <= k < |d| ==> IsDigit(d[k])
    ensures |d| < |s| ==> !IsDigit(s[|d|])
  {
    s[..DigitRun(s)]
  }

  function Signed(negative: bool, v: int): int { if negative then -v else v }

  /** The numeral at the front of `text`, after white space and a sign. */
  function Digits(text: string): (d: string)
    ensures forall k :: 0 <= k < |d| ==> IsDigit(d[k])
  {
    var s := SkipWhitespace(text);
    LeadingDigits(if SignedAt(s) then s[1..] else s)
  }

  predicate Negative(text: string) { SkipWhitespace(text) != "" && SkipWhitespace(text)[0] == '-' }

  function SignedValue(text: string): int {
    Signed(Negative(text), Numeral(Digits(text)))
  }

  /** What section 7.22.1.4 of ISO C11 gives, with ERANGE and no conversion both as 0. */
  function Strtol(text: string): int {
    if Digits(text) != "" && FitsI64(SignedValue(text)) then SignedValue(text) else 0
  }

  /** Once a prefix of the digits is out of range every longer one is. */
  lemma {:induction false} OutOfRangeStays(d: string, k: nat, negative: bool)
    requires k <= |d| && forall i :: 0 <= i < |d| ==> IsDigit(d[i])
    requires !FitsI64(Signed(negative, Numeral(d[..k])))
    ensures !FitsI64(Signed(negative, Numeral(d)))
    decreases |d|
  {
    if k == |d| {
      assert d[..k] == d;
    } else {
      var init := d[..|d| - 1];
      assert init[..k] == d[..k];
      OutOfRangeStays(init, k, negative);
      assert Numeral(d) >= Numeral(init);
    }
  }

  /** The digits read so far, while the loop stands on the next one. */
  lemma DigitsReadSoFar(rest: string, k: nat)
    requires k <= |LeadingDigits(rest)|
    ensures k < |rest| && IsDigit(rest[k]) <==> k < |LeadingDigits(rest)|
  {
    if k < |LeadingDigits(rest)| {
      assert rest[k] == LeadingDigits(rest)[k];
    }
  }

  lemma SkippedIsSuffix(text: string, index: nat)
    requires index <= |text|
    requires index < |text| && IsAsciiWhitespace(text[index])
    ensures SkipWhitespace(text[index..]) == SkipWhitespace(text[index + 1..])
  {
    assert text[index..][1..] == text[index + 1..];
  }

  /** The digit loop: checked multiplication, then checked addition or subtraction. */
  method ScanDigits(text: string, start: nat, negative: bool) returns (value: int, digits: bool, overflow: bool)
    requires start <= |text|
    ensures var run := LeadingDigits(text[start..]);
            && (digits <==> run != "")
            && (overflow <==> !FitsI64(Signed(negative, Numeral(run))))
            && (!overflow ==> value == Signed(negative, Numeral(run)))
  {
    ghost var run := LeadingDigits(text[start..]);
    var index := start;
    value, digits, overflow := 0, false, false;
    ghost var k: nat := 0;
    assert run[..0] == "";
    while index < |text| && IsDigit(text[index])
      invariant index == start + k && index <= |text| && k <= |run|
      invariant digits <==> k > 0
      invariant FitsI64(value)
      invariant if overflow then !FitsI64(Signed(negative, Numeral(run[..k])))
                else value == Signed(negative, Numeral(run[..k]))
    {
      DigitsReadSoFar(text[start..], k);
      assert run[k] == text[index];
      ghost var longer := run[..k + 1];
      assert longer[..k] == run[..k] && longer[k] == run[k];
      digits := true;
      if !overflow {
        var digit := text[index] as int - '0' as int;
        assert Numeral(longer) == Numeral(run[..k]) * 10 + digit;
        var next := if negative then value * 10 - digit else value * 10 + digit;
        if FitsI64(value * 10) && FitsI64(next) {
          value := next;
        } else {
          overflow := true;
        }
      } else {
        OutOfRangeStays(longer, k, negative);
      }
      index := index + 1;
      k := k + 1;
    }
    DigitsReadSoFar(text[start..], k);
    assert run[..|run|] == run;
  }

  method StrtolSeconds(text: string) returns (seconds: int)
    ensures seconds == Strtol(text)
    ensures FitsI64(seconds)
  {
    var index := 0;
    assert text[0..] == text;
    while index < |text| && IsAsciiWhitespace(text[index])
      invariant index <= |text|
      invariant SkipWhitespace(text) == SkipWhitespace(text[index..])
    {
      SkippedIsSuffix(text, index);
      index := index + 1;
    }
    assert SkipWhitespace(text) == text[index..];
    var negative := false;
    if index < |text| && (text[index] == '+' || text[index] == '-') {
      negative := text[index] == '-';
      assert text[index..][1..] == text[index + 1..];
      index := index + 1;
    }
    hide LeadingDigits, Numeral, SkipWhitespace;
    var value, digits, overflow := ScanDigits(text, index, negative);
    seconds := if !digits || overflow then 0 else value;
  }

  /** `stamp_epoch`. */
  function StampEpoch(stamp: string): int {
    if stamp != "" && stamp[0] == '#' then Strtol(stamp[1..]) else 0
  }

  /** Canonical decimal digits of a number. */
  function Decimal(n: nat): (d: string)
    ensures d != "" && forall k :: 0 <= k < |d| ==> IsDigit(d[k])
  {
    if n < 10 then [('0' as int + n) as char] else Decimal(n / 10) + [('0' as int + n % 10) as char]
  }

  lemma {:induction false} NumeralOfDecimal(n: nat)
    ensures Numeral(Decimal(n)) == n
  {
    if n >= 10 {
      NumeralOfDecimal(n / 10);
      assert Decimal(n)[..|Decimal(n)| - 1] == Decimal(n / 10);
    } else {
      assert Decimal(n)[..0] == "";
    }
  }

  lemma {:induction false} LeadingDigitsOf(d: string, rest: string)
    requires forall k :: 0 <= k < |d| ==> IsDigit(d[k])
    requires rest == "" || !IsDigit(rest[0])
    ensures LeadingDigits(d + rest) == d
  {
    if d != "" {
      assert (d + rest)[1..] == d[1..] + rest;
      LeadingDigitsOf(d[1..], rest);
    } else {
      assert d + rest == rest;
    }
  }

  lemma StrtolOfDecimal(epoch: nat, text: string)
    requires FitsI64(epoch) && LeadingDigits(text) == Decimal(epoch)
    ensures Strtol(text) == epoch
  {
    hide Decimal, Numeral, LeadingDigits, SkipWhitespace;
    NumeralOfDecimal(epoch);
    var d := Decimal(epoch);
    assert d[0] == text[..|d|][0];
    StartsAtDigit(text);
  }

  lemma StartsAtDigit(text: string)
    requires text != "" && IsDigit(text[0])
    ensures SkipWhitespace(text) == text && !SignedAt(text)
  {
    assert !IsAsciiWhitespace(text[0]);
    SkipsNothing(text);
  }

  lemma SkipsNothing(text: string)
    requires text == "" || !IsAsciiWhitespace(text[0])
    ensures SkipWhitespace(text) == text
  {
    hide IsAsciiWhitespace;
  }

  /** A stamp as every recorded entry carries it reads back as its own time, and any text
      after the digits is ignored. */
  lemma StampReadsBack(epoch: nat, rest: string, stamp: string)
    requires FitsI64(epoch) && (rest == "" || !IsDigit(rest[0]))
    requires stamp == ['#'] + (Decimal(epoch) + rest)
    ensures StampEpoch(stamp) == epoch
  {
    hide Strtol, Decimal;
    LeadingDigitsOf(Decimal(epoch), rest);
    StrtolOfDecimal(epoch, Decimal(epoch) + rest);
    assert stamp[1..] == Decimal(epoch) + rest;
  }
}
