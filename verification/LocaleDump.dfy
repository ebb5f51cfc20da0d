/**
 The scanner's mutually recursive walks over a script (src/locale.rs), each proved against what
 LocaleScanner says it finds. Texts are UTF-8, and every slice the walks take is cut at character
 boundaries.
 */
module LocaleDump {
  import opened Utf8
  import opened Wrappers
  import opened LocaleUnits
  import opened LocaleScanner

  /** The spelling of every token is text. */
  ghost predicate SpellsText(lex: Lexer) {
    forall s: Bytes, k :: 0 <= k < |lex(s)| ==> WellFormed(lex(s)[k].raw)
  }

  lemma TokenFits(lex: Lexer, input: Bytes, k: nat)
    requires NeverLonger(lex) && SpellsText(lex) && k < |lex(input)|
    ensures WellFormed(lex(input)[k].raw) && |lex(input)[k].raw| <= |input|
  {
    hide WellFormed;
  }

  /** A place next to an ASCII byte, or an end of the text. */
  predicate Cut(text: Bytes, p: nat) {
    p <= |text| && (p == 0 || p == |text| || text[p - 1] < 0x80 || text[p] < 0x80)
  }

  lemma CutsAreBoundaries(text: Bytes, a: nat, b: nat)
    requires WellFormed(text) && a <= b && Cut(text, a) && Cut(text, b)
    ensures Boundary(text, a) && Boundary(text, b) && WellFormed(text[a..b])
  {
    hide WellFormed;
    CutIsBoundary(text, a);
    CutIsBoundary(text, b);
    SpanWellFormed(text, a, b);
  }

  lemma CutIsBoundary(text: Bytes, p: nat)
    requires WellFormed(text) && Cut(text, p)
    ensures Boundary(text, p)
  {
    hide WellFormed;
    if 0 < p < |text| {
      AfterAsciiIsBoundary(text, if text[p] < 0x80 then p else p - 1);
    }
  }

  /** What the walk gives in all, when it has `out` so far and `found` lies ahead. */
  function After(out: seq<Entry>, found: Found): Found {
    Then(Some(out), found)
  }

  lemma AfterThen(out: seq<Entry>, a: Found, b: Found)
    ensures After(out, Then(a, b)) == if a.None? then None else After(out + a.value, b)
  {
    if a.Some? && b.Some? {
      assert out + (a.value + b.value) == (out + a.value) + b.value;
    }
  }

  lemma AfterNothing(out: seq<Entry>)
    ensures After(out, NOTHING) == Some(out)
  {
    assert out + [] == out;
  }

  method CollectLocaleStrings(lex: Lexer, input: Bytes, baseLine: nat, out0: seq<Entry>) returns (r: Found)
    requires NeverLonger(lex) && SpellsText(lex) && WellFormed(input)
    ensures r == After(out0, Collected(lex, input, baseLine))
    decreases |input|, 6
  {
    hide FromToken, WellFormed, NeverLonger, After;
    var out := out0;
    var tokens, k := lex(input), 0;
    while k < |tokens|
      invariant k <= |tokens|
      invariant After(out0, Collected(lex, input, baseLine)) == After(out, FromTokens(lex, input, k, baseLine))
    {
      var token := tokens[k];
      var line := LineOf(token, baseLine);
      TokenFits(lex, input, k);
      AfterThen(out, FromToken(lex, token, line), FromTokens(lex, input, k + 1, baseLine));
      AfterIs(out, FromToken(lex, token, line));
      r := CollectFromToken(lex, token, line, out);
      if r.None? {
        return;
      }
      out := r.value;
      k := k + 1;
    }
    AfterNothing(out);
    return Some(out);
  }

  lemma AfterIs(out: seq<Entry>, found: Found)
    ensures After(out, found) == if found.None? then None else Some(out + found.value)
  {
  }

  method CollectFromToken(lex: Lexer, token: Token, line: nat, out: seq<Entry>) returns (r: Found)
    requires NeverLonger(lex) && SpellsText(lex) && WellFormed(token.raw)
    ensures r == After(out, FromToken(lex, token, line))
    decreases |token.raw|, 4
  {
    hide FromWord, FromArithmetic, Collected, FromSubstitution, WellFormed, SpellsText, NeverLonger, After;
    var raw := token.raw;
    AfterNothing(out);
    if IsWordLike(token.kind) {
      r := ScanLocaleWords(lex, raw, line, out);
    } else if token.kind.Keyword? && IsArithmeticCommand(raw) {
      CutsAreBoundaries(raw, 2, |raw| - 2);
      r := ScanArithmeticText(lex, raw[2..|raw| - 2], line, out);
    } else if token.kind.Keyword? && IsBraceGroup(raw) {
      CutsAreBoundaries(raw, 1, |raw| - 1);
      r := CollectLocaleStrings(lex, raw[1..|raw| - 1], line, out);
    } else if token.kind.CommandSubst? && ByteAt(raw, 0, DOLLAR) && ByteAt(raw, 1, OPEN_PAREN) {
      var end;
      end, r := ScanSubstitutionUnit(lex, raw, 1, line, out);
    } else {
      r := Some(out);
    }
  }

  method ScanLocaleWords(lex: Lexer, raw: Bytes, line: nat, out0: seq<Entry>) returns (r: Found)
    requires NeverLonger(lex) && SpellsText(lex) && WellFormed(raw)
    ensures r == After(out0, FromWord(lex, raw, 0, line))
    decreases |raw|, 3
  {
    hide FromQuoted, FromString, FromSubstitution, BodyEnd, BraceEnd, BraceBody, SubstEnd, EscapedEnd, SingleEnd,
      WellFormed, NeverLonger, SpellsText, After;
    var out, i := out0, 0;
    while i < |raw|
      invariant After(out0, FromWord(lex, raw, 0, line)) == After(out, FromWord(lex, raw, i, line))
    {
      r := Some(out);
      if raw[i] == APOSTROPHE {
        i := SkipSingleQuoted(raw, i + 1);
      } else if raw[i] == BACKQUOTE {
        i := SkipBackquoted(raw, i + 1);
      } else if raw[i] == QUOTE {
        ghost var found := FromQuoted(lex, raw, i + 1, line, true);
        AfterThen(out, found, FromWord(lex, raw, PastQuote(raw, BodyEnd(raw, i + 1)), line));
        AfterIs(out, found);
        i, r := ScanDoubleQuoted(lex, raw, i + 1, line, out);
      } else if raw[i] == DOLLAR && ByteAt(raw, i + 1, QUOTE) {
        ghost var found := FromString(lex, raw, i, line);
        AfterThen(out, found, FromWord(lex, raw, BodyEnd(raw, i + 2) + 1, line));
        AfterIs(out, found);
        i, r := DumpString(lex, raw, i, line, out);
      } else if raw[i] == DOLLAR && ByteAt(raw, i + 1, APOSTROPHE) {
        i := SkipAnsiCQuoted(raw, i + 2);
      } else if raw[i] == DOLLAR && ByteAt(raw, i + 1, OPEN_BRACE) {
        ghost var found := FromWord(lex, BraceBody(raw, i + 2), 0, line);
        AfterThen(out, found, FromWord(lex, raw, BraceEnd(raw, i + 2), line));
        AfterIs(out, found);
        i, r := ScanDollarBraceBody(lex, raw, i + 2, line, out);
      } else if raw[i] == DOLLAR && ByteAt(raw, i + 1, OPEN_PAREN) {
        ghost var found := FromSubstitution(lex, raw, i + 1, line);
        AfterThen(out, found, FromWord(lex, raw, SubstEnd(raw, i + 1), line));
        AfterIs(out, found);
        i, r := ScanSubstitutionUnit(lex, raw, i + 1, line, out);
      } else if raw[i] == BACKSLASH {
        i := Min(i + 2, |raw|);
      } else {
        i := i + 1;
      }
      if r.None? {
        return;
      }
      out := r.value;
    }
    AfterNothing(out);
    return Some(out);
  }

  /** The move at a `$"`: the body's own substitutions first, then the body. */
  method DumpString(lex: Lexer, raw: Bytes, i: nat, line: nat, out: seq<Entry>) returns (next: nat, r: Found)
    requires NeverLonger(lex) && SpellsText(lex) && WellFormed(raw)
    requires ByteAt(raw, i, DOLLAR) && ByteAt(raw, i + 1, QUOTE)
    ensures r == After(out, FromString(lex, raw, i, line))
    ensures next > i && (r.Some? ==> next == BodyEnd(raw, i + 2) + 1)
    decreases |raw|, 2, |raw| - i
  {
    hide FromQuoted, BodyEnd, WellFormed, NeverLonger, SpellsText, After;
    var close;
    ghost var found := FromQuoted(lex, raw, i + 2, line, false);
    AfterThen(out, found, Some([Entry(line, raw[i + 2..BodyEnd(raw, i + 2)])]));
    AfterIs(out, found);
    close, r := LocaleBodyEnd(lex, raw, i + 2, line, out);
    next := close + 1;
    if r.Some? {
      CutsAreBoundaries(raw, i + 2, close);
      AfterIs(r.value, Some([Entry(line, raw[i + 2..close])]));
      r := Some(r.value + [Entry(line, raw[i + 2..close])]);
    }
  }

  /** It ends where skipping the `${...}` would end. */
  method ScanDollarBraceBody(lex: Lexer, raw: Bytes, start: nat, line: nat, out: seq<Entry>)
    returns (end: nat, r: Found)
    requires NeverLonger(lex) && SpellsText(lex) && WellFormed(raw)
    requires 0 < start <= |raw| && raw[start - 1] == OPEN_BRACE
    ensures r == After(out, FromWord(lex, BraceBody(raw, start), 0, line))
    ensures end == BraceEnd(raw, start)
    decreases |raw|, 1
  {
    hide FromWord, BraceEnd, WellFormed, NeverLonger, SpellsText, After;
    end := SkipDollarBrace(raw, start);
    var bodyEnd := if end > start && raw[end - 1] == CLOSE_BRACE then end - 1 else end;
    BraceEndIsCut(raw, start);
    CutsAreBoundaries(raw, start, bodyEnd);
    r := ScanLocaleWords(lex, raw[start..bodyEnd], line, out);
  }

  lemma BraceEndIsCut(raw: Bytes, start: nat)
    requires start <= |raw|
    ensures Cut(raw, BraceEnd(raw, start))
  {
  }

  method LocaleBodyEnd(lex: Lexer, raw: Bytes, start: nat, line: nat, out0: seq<Entry>)
    returns (i: nat, r: Found)
    requires NeverLonger(lex) && SpellsText(lex) && WellFormed(raw) && start <= |raw|
    ensures r == After(out0, FromQuoted(lex, raw, start, line, false))
    ensures start <= i && (r.Some? ==> i == BodyEnd(raw, start))
    decreases |raw|, 2, |raw| - start, 0
  {
    hide FromWord, FromSubstitution, BraceEnd, SubstEnd, EscapedEnd, WellFormed, NeverLonger, SpellsText, After;
    var out := out0;
    i := start;
    while i < |raw|
      invariant start <= i <= |raw|
      invariant BodyEnd(raw, start) == BodyEnd(raw, i)
      invariant After(out0, FromQuoted(lex, raw, start, line, false))
            == After(out, FromQuoted(lex, raw, i, line, false))
      decreases |raw| - i
    {
      if raw[i] == QUOTE {
        break;
      } else if raw[i] == BACKSLASH {
        i := Min(i + 2, |raw|);
      } else if raw[i] == BACKQUOTE {
        i := SkipBackquoted(raw, i + 1);
      } else if raw[i] == DOLLAR && ByteAt(raw, i + 1, OPEN_BRACE) {
        AfterThen(out, NOTHING, FromQuoted(lex, raw, BraceEnd(raw, i + 2), line, false));
        assert out + [] == out;
        i := SkipDollarBrace(raw, i + 2);
      } else if raw[i] == DOLLAR && ByteAt(raw, i + 1, OPEN_PAREN) {
        ghost var found := FromSubstitution(lex, raw, i + 1, line);
        AfterThen(out, found, FromQuoted(lex, raw, SubstEnd(raw, i + 1), line, false));
        AfterIs(out, found);
        i, r := ScanSubstitutionUnit(lex, raw, i + 1, line, out);
        if r.None? {
          return;
        }
        out := r.value;
      } else {
        i := i + 1;
      }
    }
    AfterNothing(out);
    r := Some(out);
  }

  method ScanDoubleQuoted(lex: Lexer, raw: Bytes, start: nat, line: nat, out0: seq<Entry>)
    returns (i: nat, r: Found)
    requires NeverLonger(lex) && SpellsText(lex) && WellFormed(raw) && start <= |raw|
    ensures r == After(out0, FromQuoted(lex, raw, start, line, true))
    ensures start <= i && (r.Some? ==> i == PastQuote(raw, BodyEnd(raw, start)))
    decreases |raw|, 2
  {
    hide FromWord, FromSubstitution, BraceEnd, BraceBody, SubstEnd, EscapedEnd, WellFormed, NeverLonger, SpellsText;
    hide After;
    var out := out0;
    i := start;
    while i < |raw|
      invariant start <= i <= |raw|
      invariant BodyEnd(raw, start) == BodyEnd(raw, i)
      invariant After(out0, FromQuoted(lex, raw, start, line, true)) == After(out, FromQuoted(lex, raw, i, line, true))
      decreases |raw| - i
    {
      r := Some(out);
      if raw[i] == QUOTE {
        AfterNothing(out);
        return i + 1, r;
      } else if raw[i] == BACKSLASH {
        i := Min(i + 2, |raw|);
      } else if raw[i] == BACKQUOTE {
        i := SkipBackquoted(raw, i + 1);
      } else if raw[i] == DOLLAR && ByteAt(raw, i + 1, OPEN_BRACE) {
        ghost var found := FromWord(lex, BraceBody(raw, i + 2), 0, line);
        AfterThen(out, found, FromQuoted(lex, raw, BraceEnd(raw, i + 2), line, true));
        AfterIs(out, found);
        i, r := ScanDollarBraceBody(lex, raw, i + 2, line, out);
      } else if raw[i] == DOLLAR && ByteAt(raw, i + 1, OPEN_PAREN) {
        ghost var found := FromSubstitution(lex, raw, i + 1, line);
        AfterThen(out, found, FromQuoted(lex, raw, SubstEnd(raw, i + 1), line, true));
        AfterIs(out, found);
        i, r := ScanSubstitutionUnit(lex, raw, i + 1, line, out);
      } else {
        i := i + 1;
      }
      if r.None? {
        return;
      }
      out := r.value;
    }
    AfterNothing(out);
    return |raw|, Some(out);
  }

  method ScanSubstitutionUnit(lex: Lexer, raw: Bytes, open: nat, line: nat, out: seq<Entry>)
    returns (end: nat, r: Found)
    requires NeverLonger(lex) && SpellsText(lex) && WellFormed(raw) && ByteAt(raw, open, OPEN_PAREN)
    ensures r == After(out, FromSubstitution(lex, raw, open, line))
    ensures end == SubstEnd(raw, open)
    decreases |raw|, 1
  {
    hide FromArithmetic, Collected, ParenClose, WellFormed, NeverLonger, SpellsText, After;
    var close := FindParenClose(raw, open);
    if close.None? {
      AfterNothing(out);
      return |raw|, Some(out);
    }
    end := close.value + 1;
    if ByteAt(raw, open + 1, OPEN_PAREN) {
      ArithmeticBounds(raw, open);
      AfterIs(out, None);
      if !Boundary(raw, close.value - 1) {
        return end, None;
      }
      CutIsBoundary(raw, open + 2);
      SpanWellFormed(raw, open + 2, close.value - 1);
      r := ScanArithmeticText(lex, raw[open + 2..close.value - 1], line, out);
    } else {
      CutsAreBoundaries(raw, open + 1, close.value);
      r := CollectLocaleStrings(lex, raw[open + 1..close.value], line, out);
    }
  }

  method ScanArithmeticText(lex: Lexer, text: Bytes, line: nat, out0: seq<Entry>) returns (r: Found)
    requires NeverLonger(lex) && SpellsText(lex) && WellFormed(text)
    ensures r == After(out0, FromArithmetic(lex, text, 0, line))
    decreases |text|, 3
  {
    hide FromQuoted, FromString, FromSubstitution, BodyEnd, SubstEnd, EscapedEnd, WellFormed, NeverLonger, SpellsText;
    hide After;
    var out, i := out0, 0;
    while i < |text|
      invariant After(out0, FromArithmetic(lex, text, 0, line)) == After(out, FromArithmetic(lex, text, i, line))
    {
      r := Some(out);
      if text[i] == QUOTE {
        ghost var found := FromQuoted(lex, text, i + 1, line, true);
        AfterThen(out, found, FromArithmetic(lex, text, PastQuote(text, BodyEnd(text, i + 1)), line));
        AfterIs(out, found);
        i, r := ScanDoubleQuoted(lex, text, i + 1, line, out);
      } else if text[i] == BACKQUOTE {
        i := SkipBackquoted(text, i + 1);
      } else if text[i] == DOLLAR && ByteAt(text, i + 1, QUOTE) {
        ghost var found := FromString(lex, text, i, line);
        AfterThen(out, found, FromArithmetic(lex, text, BodyEnd(text, i + 2) + 1, line));
        AfterIs(out, found);
        i, r := DumpString(lex, text, i, line, out);
      } else if text[i] == DOLLAR && ByteAt(text, i + 1, OPEN_PAREN) {
        if ByteAt(text, i + 2, OPEN_PAREN) {
          i := i + 3;
        } else {
          ghost var found := FromSubstitution(lex, text, i + 1, line);
          AfterThen(out, found, FromArithmetic(lex, text, SubstEnd(text, i + 1), line));
          AfterIs(out, found);
          i, r := ScanSubstitutionUnit(lex, text, i + 1, line, out);
        }
      } else if text[i] == BACKSLASH {
        i := Min(i + 2, |text|);
      } else {
        i := i + 1;
      }
      if r.None? {
        return;
      }
      out := r.value;
    }
    AfterNothing(out);
    return Some(out);
  }
}
