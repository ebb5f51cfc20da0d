/**
 Quoting units of a word's raw spelling (src/locale.rs): where quotes, backquotes, `${...}` and
 `$(...)` end. Positions are byte offsets.
 */
module LocaleUnits {
  import opened Utf8
  import opened Wrappers

  const QUOTE: Byte := 0x22
  const DOLLAR: Byte := 0x24
  const APOSTROPHE: Byte := 0x27
  const OPEN_PAREN: Byte := 0x28
  const CLOSE_PAREN: Byte := 0x29
  const BACKSLASH: Byte := 0x5C
  const BACKQUOTE: Byte := 0x60
  const OPEN_BRACE: Byte := 0x7B
  const CLOSE_BRACE: Byte := 0x7D

  predicate ByteAt(bytes: Bytes, i: nat, b: Byte) { i < |bytes| && bytes[i] == b }

  /** Past the next apostrophe, or the end. */
  function SingleEnd(bytes: Bytes, i: nat): (end: nat)
    requires i <= |bytes|
    ensures i <= end <= |bytes|
    decreases |bytes| - i
  {
    if i == |bytes| then i else if bytes[i] == APOSTROPHE then i + 1 else SingleEnd(bytes, i + 1)
  }

  /** Past the next `close` that no backslash quotes, or the end. */
  function EscapedEnd(bytes: Bytes, i: nat, close: Byte): (end: nat)
    ensures end <= |bytes| && (i <= |bytes| ==> i <= end)
    decreases |bytes| - i
  {
    if i >= |bytes| then |bytes|
    else if bytes[i] == close then i + 1
    else if bytes[i] == BACKSLASH then EscapedEnd(bytes, i + 2, close)
    else EscapedEnd(bytes, i + 1, close)
  }

  /** Past the double-quoted span that starts at `i`, or the end. */
  function DoubleSpanEnd(bytes: Bytes, i: nat): (end: nat)
    requires i <= |bytes|
    ensures i <= end <= |bytes|
    decreases |bytes| - i, 2
  {
    if i == |bytes| then i
    else if bytes[i] == QUOTE then i + 1
    else if bytes[i] == BACKSLASH then DoubleSpanEnd(bytes, Min(i + 2, |bytes|))
    else if bytes[i] == BACKQUOTE then DoubleSpanEnd(bytes, EscapedEnd(bytes, i + 1, BACKQUOTE))
    else if bytes[i] == DOLLAR && ByteAt(bytes, i + 1, OPEN_BRACE) then DoubleSpanEnd(bytes, BraceEnd(bytes, i + 2))
    else DoubleSpanEnd(bytes, i + 1)
  }

  /** The end of the unit that starts at `i`: a quoted stretch, an escaped byte or a single byte. */
  function NextUnit(bytes: Bytes, i: nat): (next: nat)
    requires i < |bytes|
    ensures i < next <= |bytes|
    decreases |bytes| - i, 0
  {
    if bytes[i] == APOSTROPHE then SingleEnd(bytes, i + 1)
    else if bytes[i] == QUOTE then DoubleSpanEnd(bytes, i + 1)
    else if bytes[i] == BACKQUOTE then EscapedEnd(bytes, i + 1, BACKQUOTE)
    else if bytes[i] == BACKSLASH then Min(i + 2, |bytes|)
    else i + 1
  }

  /** The unquoted `close` that brings the depth to zero. */
  function CloseOf(bytes: Bytes, i: nat, open: Byte, close: Byte, depth: nat): (r: Option<nat>)
    requires i <= |bytes| && depth > 0
    ensures r.Some? ==> i <= r.value < |bytes| && bytes[r.value] == close
    decreases |bytes| - i, 1
  {
    if i == |bytes| then None
    else if bytes[i] == open then CloseOf(bytes, i + 1, open, close, depth + 1)
    else if bytes[i] == close then if depth == 1 then Some(i) else CloseOf(bytes, i + 1, open, close, depth - 1)
    else CloseOf(bytes, NextUnit(bytes, i), open, close, depth)
  }

  function BraceEnd(bytes: Bytes, i: nat): (end: nat)
    requires i <= |bytes|
    ensures i <= end <= |bytes|
    decreases |bytes| - i, 2
  {
    var close := CloseOf(bytes, i, OPEN_BRACE, CLOSE_BRACE, 1);
    if close.Some? then close.value + 1 else |bytes|
  }

  /** The parenthesis that closes the one at `open`. */
  function ParenClose(bytes: Bytes, open: nat): (r: Option<nat>)
    requires ByteAt(bytes, open, OPEN_PAREN)
    ensures r.Some? ==> open < r.value < |bytes| && bytes[r.value] == CLOSE_PAREN
  {
    CloseOf(bytes, open + 1, OPEN_PAREN, CLOSE_PAREN, 1)
  }

  // ------------------------------------------------------------------- first zero of the depth

  /** A unit starts at `p` when units are counted from `i`. */
  predicate UnitStart(bytes: Bytes, i: nat, p: nat)
    requires i <= |bytes|
    decreases |bytes| - i
  {
    i == p || (i < |bytes| && UnitStart(bytes, NextUnit(bytes, i), p))
  }

  function Weight(b: Byte, open: Byte, close: Byte): int {
    if b == open then 1 else if b == close then -1 else 0
  }

  /** Openers less closers among the units from `i` up to `p`. */
  function Balance(bytes: Bytes, i: nat, p: nat, open: Byte, close: Byte): int
    requires i <= |bytes|
    decreases |bytes| - i
  {
    if i >= p || i == |bytes| then 0
    else Weight(bytes[i], open, close) + Balance(bytes, NextUnit(bytes, i), p, open, close)
  }

  /** Bytes that start no quoted stretch. */
  predicate Bracket(b: Byte) {
    b != APOSTROPHE && b != QUOTE && b != BACKQUOTE && b != BACKSLASH
  }

  ghost predicate Open(bytes: Bytes, i: nat, upTo: nat, open: Byte, close: Byte, depth: nat)
    requires i <= |bytes|
  {
    forall p :: i <= p <= upTo && UnitStart(bytes, i, p) ==> depth + Balance(bytes, i, p, open, close) > 0
  }

  lemma OpenStep(bytes: Bytes, i: nat, upTo: nat, open: Byte, close: Byte, depth: nat)
    requires i < |bytes| && depth > 0 && depth + Weight(bytes[i], open, close) > 0
    requires Open(bytes, NextUnit(bytes, i), upTo, open, close, depth + Weight(bytes[i], open, close))
    ensures Open(bytes, i, upTo, open, close, depth)
  {
    hide NextUnit;
    var next := NextUnit(bytes, i);
    forall p | i <= p <= upTo && UnitStart(bytes, i, p)
      ensures depth + Balance(bytes, i, p, open, close) > 0
    {
      if p > i {
        UnitStartsAfter(bytes, next, p);
        assert next <= p && UnitStart(bytes, next, p);
      }
    }
  }

  lemma {:induction false} UnitStartsAfter(bytes: Bytes, i: nat, p: nat)
    requires i <= |bytes| && UnitStart(bytes, i, p)
    ensures i <= p <= |bytes|
    decreases |bytes| - i
  {
    hide NextUnit;
    if i != p {
      UnitStartsAfter(bytes, NextUnit(bytes, i), p);
    }
  }

  /** The closer found is the first unit after which the depth is zero; without one it never is. */
  lemma {:induction false} CloseIsFirstZero(bytes: Bytes, i: nat, open: Byte, close: Byte, depth: nat)
    requires i <= |bytes| && depth > 0 && Bracket(open) && Bracket(close) && open != close
    ensures var r := CloseOf(bytes, i, open, close, depth);
            && (r.Some? ==>
                 && UnitStart(bytes, i, r.value) && Open(bytes, i, r.value, open, close, depth)
                 && depth + Balance(bytes, i, r.value + 1, open, close) == 0)
            && (r.None? ==> Open(bytes, i, |bytes|, open, close, depth))
    decreases |bytes| - i
  {
    if i < |bytes| {
      var deeper := depth + Weight(bytes[i], open, close);
      var next := NextUnit(bytes, i);
      assert bytes[i] == open || bytes[i] == close ==> next == i + 1;
      hide NextUnit;
      if deeper > 0 {
        CloseIsFirstZero(bytes, next, open, close, deeper);
        var r := CloseOf(bytes, i, open, close, depth);
        assert r == CloseOf(bytes, next, open, close, deeper);
        OpenStep(bytes, i, if r.Some? then r.value else |bytes|, open, close, depth);
      } else {
        assert CloseOf(bytes, i, open, close, depth) == Some(i);
        assert Balance(bytes, i, i + 1, open, close) == -1 + Balance(bytes, i + 1, i + 1, open, close);
      }
    }
  }

  /** The parenthesis that closes the one at `open` is the first place where the unquoted depth is zero again. */
  lemma ParenCloseIsFirstZero(bytes: Bytes, open: nat)
    requires ByteAt(bytes, open, OPEN_PAREN)
    ensures var r := ParenClose(bytes, open);
            && (r.Some? ==>
                 UnitStart(bytes, open, r.value) && Balance(bytes, open, r.value + 1, OPEN_PAREN, CLOSE_PAREN) == 0)
            && forall p :: open < p <= (if r.Some? then r.value else |bytes|) && UnitStart(bytes, open, p) ==>
                 Balance(bytes, open, p, OPEN_PAREN, CLOSE_PAREN) > 0
  {
    CloseIsFirstZero(bytes, open + 1, OPEN_PAREN, CLOSE_PAREN, 1);
    assert NextUnit(bytes, open) == open + 1;
  }

  /** In `$((...))` both inner bounds are in order: the closer leaves room for the second parenthesis. */
  lemma ArithmeticBounds(bytes: Bytes, open: nat)
    requires ByteAt(bytes, open, OPEN_PAREN) && ByteAt(bytes, open + 1, OPEN_PAREN)
    ensures var close := ParenClose(bytes, open); close.Some? ==> open + 2 <= close.value - 1
  {
    var close := ParenClose(bytes, open);
    if close.Some? {
      assert CloseOf(bytes, open + 1, OPEN_PAREN, CLOSE_PAREN, 1)
          == CloseOf(bytes, open + 2, OPEN_PAREN, CLOSE_PAREN, 2);
      DeepCloser(bytes, open + 2, OPEN_PAREN, CLOSE_PAREN, 2);
    }
  }

  lemma DeepCloser(bytes: Bytes, i: nat, open: Byte, close: Byte, depth: nat)
    requires i <= |bytes| && depth > 1
    ensures var r := CloseOf(bytes, i, open, close, depth); r.Some? ==> r.value > i
  {
  }

  // ------------------------------------------------------------------------- the program

  method SkipSingleQuoted(bytes: Bytes, from: nat) returns (end: nat)
    requires from <= |bytes|
    ensures end == SingleEnd(bytes, from)
  {
    var i := from;
    while i < |bytes|
      invariant from <= i <= |bytes|
      invariant SingleEnd(bytes, from) == SingleEnd(bytes, i)
    {
      if bytes[i] == APOSTROPHE {
        return i + 1;
      }
      i := i + 1;
    }
    return |bytes|;
  }

  method SkipAnsiCQuoted(bytes: Bytes, from: nat) returns (end: nat)
    requires from <= |bytes|
    ensures end == EscapedEnd(bytes, from, APOSTROPHE)
  {
    var i := from;
    while i < |bytes|
      invariant EscapedEnd(bytes, from, APOSTROPHE) == EscapedEnd(bytes, i, APOSTROPHE)
    {
      if bytes[i] == APOSTROPHE {
        return i + 1;
      }
      i := if bytes[i] == BACKSLASH then i + 2 else i + 1;
    }
    return |bytes|;
  }

  method SkipBackquoted(bytes: Bytes, from: nat) returns (end: nat)
    requires from <= |bytes|
    ensures end == EscapedEnd(bytes, from, BACKQUOTE)
  {
    var i := from;
    while i < |bytes|
      invariant EscapedEnd(bytes, from, BACKQUOTE) == EscapedEnd(bytes, i, BACKQUOTE)
    {
      if bytes[i] == BACKQUOTE {
        return i + 1;
      }
      i := if bytes[i] == BACKSLASH then i + 2 else i + 1;
    }
    return |bytes|;
  }

  method SkipDoubleSpan(bytes: Bytes, from: nat) returns (end: nat)
    requires from <= |bytes|
    ensures end == DoubleSpanEnd(bytes, from)
    decreases |bytes| - from
  {
    hide BraceEnd, EscapedEnd;
    var i := from;
    while i < |bytes|
      invariant from <= i <= |bytes|
      invariant DoubleSpanEnd(bytes, from) == DoubleSpanEnd(bytes, i)
      decreases |bytes| - i
    {
      if bytes[i] == QUOTE {
        return i + 1;
      } else if bytes[i] == BACKSLASH {
        i := Min(i + 2, |bytes|);
      } else if bytes[i] == BACKQUOTE {
        i := SkipBackquoted(bytes, i + 1);
      } else if bytes[i] == DOLLAR && ByteAt(bytes, i + 1, OPEN_BRACE) {
        i := SkipDollarBrace(bytes, i + 2);
      } else {
        i := i + 1;
      }
    }
    return |bytes|;
  }

  method SkipDollarBrace(bytes: Bytes, from: nat) returns (end: nat)
    requires from <= |bytes|
    ensures end == BraceEnd(bytes, from)
    decreases |bytes| - from
  {
    hide DoubleSpanEnd, EscapedEnd, SingleEnd;
    var depth: nat, i := 1, from;
    while i < |bytes|
      invariant from <= i <= |bytes| && depth > 0
      invariant CloseOf(bytes, from, OPEN_BRACE, CLOSE_BRACE, 1) == CloseOf(bytes, i, OPEN_BRACE, CLOSE_BRACE, depth)
      decreases |bytes| - i
    {
      if bytes[i] == OPEN_BRACE {
        depth := depth + 1;
        i := i + 1;
      } else if bytes[i] == CLOSE_BRACE {
        depth := depth - 1;
        i := i + 1;
        if depth == 0 {
          return i;
        }
      } else if bytes[i] == APOSTROPHE {
        i := SkipSingleQuoted(bytes, i + 1);
      } else if bytes[i] == QUOTE {
        i := SkipDoubleSpan(bytes, i + 1);
      } else if bytes[i] == BACKQUOTE {
        i := SkipBackquoted(bytes, i + 1);
      } else if bytes[i] == BACKSLASH {
        i := Min(i + 2, |bytes|);
      } else {
        i := i + 1;
      }
    }
    return |bytes|;
  }

  method FindParenClose(bytes: Bytes, open: nat) returns (r: Option<nat>)
    requires ByteAt(bytes, open, OPEN_PAREN)
    ensures r == ParenClose(bytes, open)
  {
    hide DoubleSpanEnd, EscapedEnd, SingleEnd;
    var depth: nat, i := 0, open;
    while i < |bytes|
      invariant open <= i <= |bytes| && (i == open ==> depth == 0) && (i > open ==> depth > 0)
      invariant i > open ==> ParenClose(bytes, open) == CloseOf(bytes, i, OPEN_PAREN, CLOSE_PAREN, depth)
      decreases |bytes| - i
    {
      if bytes[i] == OPEN_PAREN {
        depth := depth + 1;
        i := i + 1;
      } else if bytes[i] == CLOSE_PAREN {
        depth := depth - 1;
        i := i + 1;
        if depth == 0 {
          return Some(i - 1);
        }
      } else if bytes[i] == APOSTROPHE {
        i := SkipSingleQuoted(bytes, i + 1);
      } else if bytes[i] == QUOTE {
        i := SkipDoubleSpan(bytes, i + 1);
      } else if bytes[i] == BACKQUOTE {
        i := SkipBackquoted(bytes, i + 1);
      } else if bytes[i] == BACKSLASH {
        i := Min(i + 2, |bytes|);
      } else {
        i := i + 1;
      }
    }
    return None;
  }
}
