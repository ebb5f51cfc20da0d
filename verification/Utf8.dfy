/**
 UTF-8 byte sequences as section 4 of RFC 3629 defines them, and the two views the
 shell takes of them: whole well-formed strings with their character boundaries (a Rust
 `str`), and arbitrary bytes of which only a prefix need be well formed.
 */
module Utf8 {

  type Byte = b: int | 0 <= b < 256

  type Bytes = seq<Byte>

  predicate IsTail(b: Byte) { 0x80 <= b <= 0xBF }

  predicate IsLead3(b0: Byte, b1: Byte) {
    || (b0 == 0xE0 && 0xA0 <= b1 <= 0xBF)
    || (0xE1 <= b0 <= 0xEC && IsTail(b1))
    || (b0 == 0xED && 0x80 <= b1 <= 0x9F)
    || (0xEE <= b0 <= 0xEF && IsTail(b1))
  }

  predicate IsLead4(b0: Byte, b1: Byte) {
    || (b0 == 0xF0 && 0x90 <= b1 <= 0xBF)
    || (0xF1 <= b0 <= 0xF3 && IsTail(b1))
    || (b0 == 0xF4 && 0x80 <= b1 <= 0x8F)
  }

  /** Length of the well-formed sequence `s` starts with, 0 when there is none. */
  function SeqLen(s: Bytes): (n: nat)
    ensures n <= 4 && n <= |s|
    ensures n > 0 ==> !IsTail(s[0]) && forall k :: 1 <= k < n ==> IsTail(s[k])
  {
    if |s| == 0 then 0
    else if s[0] < 0x80 then 1
    else if |s| >= 2 && 0xC2 <= s[0] <= 0xDF && IsTail(s[1]) then 2
    else if |s| >= 3 && IsLead3(s[0], s[1]) && IsTail(s[2]) then 3
    else if |s| >= 4 && IsLead4(s[0], s[1]) && IsTail(s[2]) && IsTail(s[3]) then 4
    else 0
  }

  predicate WellFormed(s: Bytes) {
    s == [] || (SeqLen(s) > 0 && WellFormed(s[SeqLen(s)..]))
  }

  /** A well-formed string: what a Rust `String` may hold. */
  type Text = s: Bytes | WellFormed(s)

  /** `str::is_char_boundary`. */
  predicate Boundary(s: Bytes, i: int) {
    0 <= i <= |s| && (i == 0 || i == |s| || !IsTail(s[i]))
  }

  lemma SeqLenOfConcat(a: Bytes, b: Bytes)
    requires SeqLen(a) > 0
    ensures SeqLen(a + b) == SeqLen(a)
  {
    var c := a + b;
    assert forall k :: 0 <= k < |a| ==> c[k] == a[k];
  }

  /** A non-empty well-formed prefix shows that a character starts here. */
  lemma PrefixStarts(s: Bytes, k: nat)
    requires 0 < k <= |s| && WellFormed(s[..k])
    ensures SeqLen(s) == SeqLen(s[..k]) > 0
  {
    assert s[..k] + s[k..] == s;
    SeqLenOfConcat(s[..k], s[k..]);
  }

  /** Where no character starts no non-empty prefix is well formed. */
  lemma NoPrefix(s: Bytes, k: nat)
    requires SeqLen(s) == 0 && 0 < k <= |s|
    ensures !WellFormed(s[..k])
  {
    hide SeqLen;
    assert s[..k] + s[k..] == s;
    if SeqLen(s[..k]) > 0 {
      SeqLenOfConcat(s[..k], s[k..]);
    }
  }

  /** The bytes of one character form a well-formed string by themselves. */
  lemma OneCharacter(s: Bytes)
    requires SeqLen(s) > 0
    ensures SeqLen(s[..SeqLen(s)]) == SeqLen(s)
    ensures WellFormed(s[..SeqLen(s)])
  {
    var c := s[..SeqLen(s)];
    assert c[SeqLen(s)..] == [];
  }

  lemma {:induction false} ConcatWellFormed(a: Bytes, b: Bytes)
    requires WellFormed(a) && WellFormed(b)
    ensures WellFormed(a + b)
    decreases |a|
  {
    hide SeqLen;
    if a == [] {
      assert a + b == b;
    } else {
      SeqLenOfConcat(a, b);
      var n := SeqLen(a);
      assert (a + b)[n..] == a[n..] + b;
      ConcatWellFormed(a[n..], b);
    }
  }

  /** Cutting a well-formed string at a boundary leaves two well-formed strings. */
  lemma {:induction false} SplitWellFormed(s: Bytes, i: int)
    requires WellFormed(s) && Boundary(s, i)
    ensures WellFormed(s[..i]) && WellFormed(s[i..])
    decreases |s|
  {
    hide SeqLen;
    if i == 0 {
      assert s[..i] == [] && s[i..] == s;
    } else {
      var n := SeqLen(s);
      assert n <= i;
      assert Boundary(s[n..], i - n);
      SplitWellFormed(s[n..], i - n);
      assert s[n..][i - n..] == s[i..];
      OneCharacter(s);
      ConcatWellFormed(s[..n], s[n..][..i - n]);
      assert s[..n] + s[n..][..i - n] == s[..i];
    }
  }

  lemma SpanWellFormed(s: Bytes, i: int, j: int)
    requires WellFormed(s) && Boundary(s, i) && Boundary(s, j) && i <= j
    ensures WellFormed(s[i..j])
  {
    hide SeqLen;
    SplitWellFormed(s, j);
    assert Boundary(s[..j], i);
    SplitWellFormed(s[..j], i);
    assert s[..j][i..] == s[i..j];
  }

  /** The position before the last character's lead byte, and the one after any
      ASCII byte, are boundaries: what a bytewise scan for ASCII needs. */
  lemma {:induction false} AfterAsciiIsBoundary(s: Bytes, i: nat)
    requires WellFormed(s) && i < |s| && s[i] < 0x80
    ensures Boundary(s, i) && Boundary(s, i + 1)
    decreases |s|
  {
    var n := SeqLen(s);
    if i >= n {
      AfterAsciiIsBoundary(s[n..], i - n);
      if i + 1 < |s| {
        assert s[n..][i + 1 - n] == s[i + 1];
      }
    } else if n < |s| {
      assert s[n..] != [] && SeqLen(s[n..]) > 0 && s[n..][0] == s[n];
    }
  }

  /** In front of an ASCII byte only an ASCII byte is at a boundary: any other ends a longer character. */
  lemma {:induction false} BeforeAscii(s: Bytes, i: nat)
    requires WellFormed(s) && i + 1 < |s| && s[i + 1] < 0x80
    ensures Boundary(s, i) <==> s[i] < 0x80
    decreases |s|
  {
    hide SeqLen;
    if s[i] < 0x80 {
      AfterAsciiIsBoundary(s, i);
    } else {
      var n := SeqLen(s);
      OneByteIsAscii(s);
      if i >= n {
        assert s[n..][i - n] == s[i] && s[n..][i + 1 - n] == s[i + 1];
        BeforeAscii(s[n..], i - n);
        assert s[n..][0] == s[n];
      }
    }
  }

  lemma OneByteIsAscii(s: Bytes)
    ensures SeqLen(s) == 1 ==> s[0] < 0x80
  {
  }

  // ---------------------------------------------------------------- characters

  function Encode(c: char): (t: Bytes)
    ensures 1 <= |t| <= 4 && SeqLen(t) == |t|
  {
    var v := c as int;
    if v < 0x80 then [v] else if v < 0x800 then Encode2(v) else if v < 0x10000 then Encode3(v) else Encode4(v)
  }

  function Encode2(v: nat): (t: Bytes)
    requires 0x80 <= v < 0x800
    ensures |t| == 2 && SeqLen(t) == 2
  {
    [0xC0 + v / 64, 0x80 + v % 64]
  }

  function Encode3(v: nat): (t: Bytes)
    requires 0x800 <= v < 0xD800 || 0xE000 <= v < 0x10000
    ensures |t| == 3 && SeqLen(t) == 3
  {
    [0xE0 + v / 4096, 0x80 + v / 64 % 64, 0x80 + v % 64]
  }

  function Encode4(v: nat): (t: Bytes)
    requires 0x10000 <= v < 0x110000
    ensures |t| == 4 && SeqLen(t) == 4
  {
    [0xF0 + v / 262144, 0x80 + v / 4096 % 64, 0x80 + v / 64 % 64, 0x80 + v % 64]
  }

  /** The character a byte string starts with. */
  function Decode(t: Bytes): (c: char)
    requires SeqLen(t) > 0
  {
    var b0: int := t[0];
    if SeqLen(t) == 1 then b0 as char
    else
      var b1: int := t[1];
      if SeqLen(t) == 2 then ((b0 - 0xC0) * 64 + (b1 - 0x80)) as char
      else
        var b2: int := t[2];
        if SeqLen(t) == 3 then ((b0 - 0xE0) * 4096 + (b1 - 0x80) * 64 + (b2 - 0x80)) as char
        else
          var b3: int := t[3];
          ((b0 - 0xF0) * 262144 + (b1 - 0x80) * 4096 + (b2 - 0x80) * 64 + (b3 - 0x80)) as char
  }

  lemma EncodeWellFormed(c: char)
    ensures WellFormed(Encode(c))
  {
    assert Encode(c)[|Encode(c)|..] == [];
  }

  lemma SixBitGroups(v: nat)
    ensures v == v / 64 * 64 + v % 64
    ensures v == v / 4096 * 4096 + v / 64 % 64 * 64 + v % 64
    ensures v == v / 262144 * 262144 + v / 4096 % 64 * 4096 + v / 64 % 64 * 64 + v % 64
  {
    assert v / 64 / 64 == v / 4096;
    assert v / 4096 / 64 == v / 262144;
  }

  /** Decoding at the start of an encoded character gives that character back. */
  lemma DecodeOfEncode(c: char, rest: Bytes)
    ensures SeqLen(Encode(c) + rest) == |Encode(c)|
    ensures Decode(Encode(c) + rest) == c
  {
    var e := Encode(c);
    SeqLenOfConcat(e, rest);
    var t := e + rest;
    assert t[0] == e[0] && (|e| > 1 ==> t[1] == e[1]) && (|e| > 2 ==> t[2] == e[2]) && (|e| > 3 ==> t[3] == e[3]);
    SixBitGroups(c as int);
    assert Decode(t) as int == c as int;
  }

  function EncodeAll(s: string): (t: Text) {
    if s == [] then
      []
    else
      EncodeWellFormed(s[0]);
      ConcatWellFormed(Encode(s[0]), EncodeAll(s[1..]));
      Encode(s[0]) + EncodeAll(s[1..])
  }

  function DecodeAll(t: Bytes): (s: string)
    requires WellFormed(t)
  {
    if t == [] then [] else [Decode(t)] + DecodeAll(t[SeqLen(t)..])
  }

  // ------------------------------------------------------------ partial validity

  /** `Utf8Error::valid_up_to`, or the length when all of `s` is well formed. */
  function ValidUpTo(s: Bytes): (n: nat)
    ensures n <= |s|
  {
    if SeqLen(s) == 0 then 0 else SeqLen(s) + ValidUpTo(s[SeqLen(s)..])
  }

  /** The validated prefix is well formed and what follows it does not begin a character. */
  lemma {:induction false} ValidPrefix(s: Bytes)
    ensures WellFormed(s[..ValidUpTo(s)])
    ensures SeqLen(s[ValidUpTo(s)..]) == 0
  {
    hide SeqLen;
    var n := SeqLen(s);
    if n == 0 {
      assert s[0..] == s;
    } else {
      var rest := s[n..];
      ValidPrefix(rest);
      var v := ValidUpTo(rest);
      OneCharacter(s);
      ConcatWellFormed(s[..n], rest[..v]);
      hide WellFormed;
      assert s[..n + v] == s[..n] + rest[..v];
      assert rest[v..] == s[n + v..];
    }
  }

  /** No prefix longer than the validated one is well formed. */
  lemma {:induction false} ValidUpToIsMaximal(s: Bytes, k: nat)
    requires k <= |s| && WellFormed(s[..k])
    ensures k <= ValidUpTo(s)
  {
    hide SeqLen;
    if k > 0 {
      var t := s[..k];
      var n := SeqLen(t);
      PrefixStarts(s, k);
      assert t[n..] == s[n..][..k - n];
      ValidUpToIsMaximal(s[n..], k - n);
    }
  }
}
