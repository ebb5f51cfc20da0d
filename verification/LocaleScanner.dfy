/**
 The scan for locale strings `$"..."` in the raw spelling of a script's words (src/locale.rs).
 The lexer is a parameter; all that is asked of it is that no token is longer than its input.
 */
module LocaleScanner {
  import opened Utf8
  import opened Wrappers
  import opened LocaleUnits

  datatype TokenKind = Word | Assignment | BraceExpand | Variable | Keyword | CommandSubst | OtherKind

  datatype Token = Token(kind: TokenKind, raw: Bytes, position: nat)

  type Lexer = Bytes -> seq<Token>

  /** A locale string: its line and its raw body. */
  datatype Entry = Entry(line: nat, body: Bytes)

  /** The entries found, or `None` when a slice inside a character made the program panic. */
  type Found = Option<seq<Entry>>

  const NOTHING: Found := Some([])

  function Then(a: Found, b: Found): Found {
    if a.None? || b.None? then None else Some(a.value + b.value)
  }

  ghost predicate NeverLonger(lex: Lexer) {
    forall s: Bytes, k :: 0 <= k < |lex(s)| ==> |lex(s)[k].raw| <= |s|
  }

  function SubstEnd(raw: Bytes, open: nat): (end: nat)
    requires ByteAt(raw, open, OPEN_PAREN)
    ensures open < end <= |raw|
  {
    var close := ParenClose(raw, open);
    if close.Some? then close.value + 1 else |raw|
  }

  /** The closing quote of the string body that starts at `i`, or the end. */
  function BodyEnd(raw: Bytes, i: nat): (end: nat)
    requires i <= |raw|
    ensures i <= end <= |raw|
    ensures end < |raw| ==> raw[end] == QUOTE
    decreases |raw| - i
  {
    if i == |raw| || raw[i] == QUOTE then i
    else if raw[i] == BACKSLASH then BodyEnd(raw, Min(i + 2, |raw|))
    else if raw[i] == BACKQUOTE then BodyEnd(raw, EscapedEnd(raw, i + 1, BACKQUOTE))
    else if raw[i] == DOLLAR && ByteAt(raw, i + 1, OPEN_BRACE) then BodyEnd(raw, BraceEnd(raw, i + 2))
    else if raw[i] == DOLLAR && ByteAt(raw, i + 1, OPEN_PAREN) then BodyEnd(raw, SubstEnd(raw, i + 1))
    else BodyEnd(raw, i + 1)
  }

  function PastQuote(raw: Bytes, end: nat): (next: nat)
    requires end <= |raw|
    ensures end <= next <= |raw|
  {
    if end < |raw| then end + 1 else end
  }

  /** The text of a `${...}` between its start and its closing brace. */
  function BraceBody(raw: Bytes, start: nat): (body: Bytes)
    requires start <= |raw|
    ensures |body| <= |raw| - start
  {
    var end := BraceEnd(raw, start);
    raw[start..if end > start && raw[end - 1] == CLOSE_BRACE then end - 1 else end]
  }

  // -------------------------------------------------------------- what is found where

  /** `body` stands in `text` right behind a `$"`. */
  predicate Introduced(text: Bytes, body: Bytes) {
    exists p: nat :: p < |text| && IntroducedAt(text, body, p)
  }

  predicate IntroducedAt(text: Bytes, body: Bytes, p: nat) {
    p + 2 + |body| <= |text| && text[p] == DOLLAR && text[p + 1] == QUOTE && text[p + 2..p + 2 + |body|] == body
  }

  /** Every token is a stretch of its input. */
  ghost predicate SpellsInput(lex: Lexer) {
    forall s: Bytes, k :: 0 <= k < |lex(s)| ==> Stretch(s, lex(s)[k].raw)
  }

  predicate Stretch(s: Bytes, raw: Bytes) { exists a: nat :: a <= |s| && StretchAt(s, raw, a) }

  predicate StretchAt(s: Bytes, raw: Bytes, a: nat) { a + |raw| <= |s| && s[a..a + |raw|] == raw }

  ghost predicate EntriesFrom(lex: Lexer, text: Bytes, line: nat, found: Found) {
    if found.None? then !(SpellsInput(lex) && ClosersAfterAscii(text))
    else
      && (forall k :: 0 <= k < |found.value| ==> found.value[k].line >= line)
      && (SpellsInput(lex) ==> forall k :: 0 <= k < |found.value| ==> Introduced(text, found.value[k].body))
  }

  /** No closing parenthesis stands behind a character outside ASCII. */
  predicate ClosersAfterAscii(text: Bytes) {
    forall p :: 0 < p < |text| && text[p] == CLOSE_PAREN ==> AsciiBefore(text, p)
  }

  predicate AsciiBefore(text: Bytes, p: nat)
    requires 0 < p < |text|
  {
    text[p - 1] < 0x80
  }

  /** All locale strings of a script text whose first line is `baseLine`. */
  ghost function Collected(lex: Lexer, input: Bytes, baseLine: nat): (r: Found)
    requires NeverLonger(lex)
    decreases |input|, 6, 0
  {
    FromTokens(lex, input, 0, baseLine)
  }

  ghost function FromTokens(lex: Lexer, input: Bytes, k: nat, baseLine: nat): (r: Found)
    requires NeverLonger(lex) && k <= |lex(input)|
    decreases |input|, 5, |lex(input)| - k
  {
    if k == |lex(input)| then NOTHING
    else
      var token := lex(input)[k];
      Then(FromToken(lex, token, LineOf(token, baseLine)), FromTokens(lex, input, k + 1, baseLine))
  }

  function LineOf(token: Token, baseLine: nat): (line: nat)
    ensures line >= baseLine
  {
    baseLine + if token.position == 0 then 0 else token.position - 1
  }

  predicate IsWordLike(kind: TokenKind) {
    kind.Word? || kind.Assignment? || kind.BraceExpand? || kind.Variable?
  }

  /** An arithmetic command `((...))` folded into one token. */
  predicate IsArithmeticCommand(raw: Bytes) {
    && |raw| >= 4 && raw[0] == OPEN_PAREN && raw[1] == OPEN_PAREN
    && raw[|raw| - 2] == CLOSE_PAREN && raw[|raw| - 1] == CLOSE_PAREN
  }

  predicate IsBraceGroup(raw: Bytes) { |raw| > 2 && raw[0] == OPEN_BRACE && raw[|raw| - 1] == CLOSE_BRACE }

  ghost function FromToken(lex: Lexer, token: Token, line: nat): (r: Found)
    requires NeverLonger(lex)
    decreases |token.raw|, 4, 0
  {
    var raw := token.raw;
    if IsWordLike(token.kind) then FromWord(lex, raw, 0, line)
    else if token.kind.Keyword? && IsArithmeticCommand(raw) then FromArithmetic(lex, raw[2..|raw| - 2], 0, line)
    else if token.kind.Keyword? && IsBraceGroup(raw) then Collected(lex, raw[1..|raw| - 1], line)
    else if token.kind.CommandSubst? && ByteAt(raw, 0, DOLLAR) && ByteAt(raw, 1, OPEN_PAREN) then
      FromSubstitution(lex, raw, 1, line)
    else NOTHING
  }

  /** The strings of a word's spelling from `i` on. */
  ghost function FromWord(lex: Lexer, raw: Bytes, i: nat, line: nat): (r: Found)
    requires NeverLonger(lex)
    decreases |raw|, 3, |raw| - i
  {
    if i >= |raw| then NOTHING
    else if raw[i] == APOSTROPHE then FromWord(lex, raw, SingleEnd(raw, i + 1), line)
    else if raw[i] == BACKQUOTE then FromWord(lex, raw, EscapedEnd(raw, i + 1, BACKQUOTE), line)
    else if raw[i] == QUOTE then
      Then(FromQuoted(lex, raw, i + 1, line, true), FromWord(lex, raw, PastQuote(raw, BodyEnd(raw, i + 1)), line))
    else if raw[i] == BACKSLASH then FromWord(lex, raw, Min(i + 2, |raw|), line)
    else if raw[i] != DOLLAR || i + 1 == |raw| then FromWord(lex, raw, i + 1, line)
    else if raw[i + 1] == QUOTE then
      Then(FromString(lex, raw, i, line), FromWord(lex, raw, BodyEnd(raw, i + 2) + 1, line))
    else if raw[i + 1] == APOSTROPHE then FromWord(lex, raw, EscapedEnd(raw, i + 2, APOSTROPHE), line)
    else if raw[i + 1] == OPEN_BRACE then
      Then(FromWord(lex, BraceBody(raw, i + 2), 0, line), FromWord(lex, raw, BraceEnd(raw, i + 2), line))
    else if raw[i + 1] == OPEN_PAREN then
      Then(FromSubstitution(lex, raw, i + 1, line), FromWord(lex, raw, SubstEnd(raw, i + 1), line))
    else FromWord(lex, raw, i + 1, line)
  }

  /** A string introduced at `i`: those of its substitutions, then its own body. */
  ghost function FromString(lex: Lexer, raw: Bytes, i: nat, line: nat): (r: Found)
    requires NeverLonger(lex) && ByteAt(raw, i, DOLLAR) && ByteAt(raw, i + 1, QUOTE)
    decreases |raw|, 2, |raw| - i
  {
    Then(FromQuoted(lex, raw, i + 2, line, false), Some([Entry(line, raw[i + 2..BodyEnd(raw, i + 2)])]))
  }

  /** The strings inside double quotes or, without `braces`, inside a locale string's own body. */
  ghost function FromQuoted(lex: Lexer, raw: Bytes, i: nat, line: nat, braces: bool): (r: Found)
    requires NeverLonger(lex) && i <= |raw|
    decreases |raw|, 2, |raw| - i
  {
    if i == |raw| || raw[i] == QUOTE then NOTHING
    else if raw[i] == BACKSLASH then FromQuoted(lex, raw, Min(i + 2, |raw|), line, braces)
    else if raw[i] == BACKQUOTE then FromQuoted(lex, raw, EscapedEnd(raw, i + 1, BACKQUOTE), line, braces)
    else if raw[i] == DOLLAR && ByteAt(raw, i + 1, OPEN_BRACE) then
      Then(if braces then FromWord(lex, BraceBody(raw, i + 2), 0, line) else NOTHING,
           FromQuoted(lex, raw, BraceEnd(raw, i + 2), line, braces))
    else if raw[i] == DOLLAR && ByteAt(raw, i + 1, OPEN_PAREN) then
      Then(FromSubstitution(lex, raw, i + 1, line), FromQuoted(lex, raw, SubstEnd(raw, i + 1), line, braces))
    else FromQuoted(lex, raw, i + 1, line, braces)
  }

  ghost function FromSubstitution(lex: Lexer, raw: Bytes, open: nat, line: nat): (r: Found)
    requires NeverLonger(lex) && ByteAt(raw, open, OPEN_PAREN)
    decreases |raw|, 1, 0
  {
    var close := ParenClose(raw, open);
    if close.None? then NOTHING
    else if ByteAt(raw, open + 1, OPEN_PAREN) then
      ArithmeticBounds(raw, open);
      // The byte in front of the closer is cut off without a look at it.
      if !Boundary(raw, close.value - 1) then None
      else FromArithmetic(lex, raw[open + 2..close.value - 1], 0, line)
    else Collected(lex, raw[open + 1..close.value], line)
  }

  ghost function FromArithmetic(lex: Lexer, text: Bytes, i: nat, line: nat): (r: Found)
    requires NeverLonger(lex)
    decreases |text|, 3, |text| - i
  {
    if i >= |text| then NOTHING
    else if text[i] == QUOTE then
      Then(FromQuoted(lex, text, i + 1, line, true),
           FromArithmetic(lex, text, PastQuote(text, BodyEnd(text, i + 1)), line))
    else if text[i] == BACKQUOTE then FromArithmetic(lex, text, EscapedEnd(text, i + 1, BACKQUOTE), line)
    else if text[i] == DOLLAR && ByteAt(text, i + 1, QUOTE) then
      Then(FromString(lex, text, i, line), FromArithmetic(lex, text, BodyEnd(text, i + 2) + 1, line))
    else if text[i] == DOLLAR && ByteAt(text, i + 1, OPEN_PAREN) then
      if ByteAt(text, i + 2, OPEN_PAREN) then FromArithmetic(lex, text, i + 3, line)
      else Then(FromSubstitution(lex, text, i + 1, line), FromArithmetic(lex, text, SubstEnd(text, i + 1), line))
    else if text[i] == BACKSLASH then FromArithmetic(lex, text, Min(i + 2, |text|), line)
    else FromArithmetic(lex, text, i + 1, line)
  }

  // ------------------------------------------------------------- every body is behind its `$"`

  lemma SliceIsStretch(s: Bytes, a: nat, b: nat)
    requires a <= b <= |s|
    ensures Stretch(s, s[a..b])
  {
    assert StretchAt(s, s[a..b], a);
  }

  lemma IntroducedInStretch(text: Bytes, part: Bytes, body: Bytes)
    requires Stretch(text, part) && Introduced(part, body)
    ensures Introduced(text, body)
  {
    var a: nat :| a <= |text| && StretchAt(text, part, a);
    var p: nat :| p < |part| && IntroducedAt(part, body, p);
    assert forall j :: 0 <= j < |part| ==> text[a + j] == part[j];
    assert text[a + p + 2..a + p + 2 + |body|] == part[p + 2..p + 2 + |body|];
    assert IntroducedAt(text, body, a + p);
  }

  lemma ClosersInStretch(text: Bytes, part: Bytes)
    requires Stretch(text, part)
    ensures ClosersAfterAscii(text) ==> ClosersAfterAscii(part)
  {
    var a: nat :| a <= |text| && StretchAt(text, part, a);
    assert forall j :: 0 <= j < |part| ==> text[a + j] == part[j];
    if ClosersAfterAscii(text) {
      forall p | 0 < p < |part| && part[p] == CLOSE_PAREN ensures AsciiBefore(part, p) {
        assert AsciiBefore(text, a + p);
      }
    }
  }

  lemma TailBeforeCloser(text: Bytes, close: nat)
    requires 0 < close < |text| && text[close] == CLOSE_PAREN && !Boundary(text, close - 1)
    ensures !ClosersAfterAscii(text)
  {
    assert !AsciiBefore(text, close);
  }

  lemma Lifted(lex: Lexer, text: Bytes, part: Bytes, line: nat, partLine: nat, found: Found)
    requires EntriesFrom(lex, part, partLine, found) && line <= partLine
    requires SpellsInput(lex) ==> Stretch(text, part)
    ensures EntriesFrom(lex, text, line, found)
  {
    hide Stretch, Introduced, ClosersAfterAscii;
    if SpellsInput(lex) && found.None? {
      ClosersInStretch(text, part);
    }
    if SpellsInput(lex) && found.Some? {
      forall k | 0 <= k < |found.value| ensures Introduced(text, found.value[k].body) {
        IntroducedInStretch(text, part, found.value[k].body);
      }
    }
  }

  lemma Both(lex: Lexer, text: Bytes, line: nat, a: Found, b: Found)
    requires EntriesFrom(lex, text, line, a) && EntriesFrom(lex, text, line, b)
    ensures EntriesFrom(lex, text, line, Then(a, b))
  {
    hide Introduced;
  }

  lemma OwnBody(lex: Lexer, raw: Bytes, i: nat, line: nat)
    requires ByteAt(raw, i, DOLLAR) && ByteAt(raw, i + 1, QUOTE)
    ensures EntriesFrom(lex, raw, line, Some([Entry(line, raw[i + 2..BodyEnd(raw, i + 2)])]))
  {
    var body := raw[i + 2..BodyEnd(raw, i + 2)];
    assert IntroducedAt(raw, body, i);
  }

  lemma PanicOnlyBehindOthers(lex: Lexer, text: Bytes, line: nat)
    requires !ClosersAfterAscii(text)
    ensures EntriesFrom(lex, text, line, None)
  {
  }

  lemma {:induction false} CollectedAreIntroduced(lex: Lexer, input: Bytes, baseLine: nat)
    requires NeverLonger(lex)
    ensures EntriesFrom(lex, input, baseLine, Collected(lex, input, baseLine))
    decreases |input|, 6, 0
  {
    TokensAreIntroduced(lex, input, 0, baseLine);
  }

  lemma {:induction false} TokensAreIntroduced(lex: Lexer, input: Bytes, k: nat, baseLine: nat)
    requires NeverLonger(lex) && k <= |lex(input)|
    ensures EntriesFrom(lex, input, baseLine, FromTokens(lex, input, k, baseLine))
    decreases |input|, 5, |lex(input)| - k
  {
    hide EntriesFrom, FromToken, Stretch;
    if k == |lex(input)| {
      Nothing(lex, input, baseLine);
    } else {
      var token := lex(input)[k];
      var line := LineOf(token, baseLine);
      TokenIsIntroduced(lex, token, line);
      TokensAreIntroduced(lex, input, k + 1, baseLine);
      Lifted(lex, input, token.raw, baseLine, line, FromToken(lex, token, line));
      Both(lex, input, baseLine, FromToken(lex, token, line), FromTokens(lex, input, k + 1, baseLine));
    }
  }

  lemma Nothing(lex: Lexer, text: Bytes, line: nat)
    ensures EntriesFrom(lex, text, line, NOTHING)
  {
  }

  lemma {:induction false} TokenIsIntroduced(lex: Lexer, token: Token, line: nat)
    requires NeverLonger(lex)
    ensures EntriesFrom(lex, token.raw, line, FromToken(lex, token, line))
    decreases |token.raw|, 4, 0
  {
    hide EntriesFrom, FromWord, FromArithmetic, Collected, FromSubstitution, Stretch, NeverLonger;
    var raw := token.raw;
    if IsWordLike(token.kind) {
      WordIsIntroduced(lex, raw, 0, line);
    } else if token.kind.Keyword? && IsArithmeticCommand(raw) {
      var text := raw[2..|raw| - 2];
      ArithmeticIsIntroduced(lex, text, 0, line);
      SliceIsStretch(raw, 2, |raw| - 2);
      Lifted(lex, raw, text, line, line, FromArithmetic(lex, text, 0, line));
    } else if token.kind.Keyword? && IsBraceGroup(raw) {
      var body := raw[1..|raw| - 1];
      CollectedAreIntroduced(lex, body, line);
      SliceIsStretch(raw, 1, |raw| - 1);
      Lifted(lex, raw, body, line, line, Collected(lex, body, line));
    } else if token.kind.CommandSubst? && ByteAt(raw, 0, DOLLAR) && ByteAt(raw, 1, OPEN_PAREN) {
      SubstitutionIsIntroduced(lex, raw, 1, line);
    } else {
      Nothing(lex, raw, line);
    }
  }

  lemma {:induction false} BraceIsIntroduced(lex: Lexer, raw: Bytes, start: nat, line: nat)
    requires NeverLonger(lex) && 0 < start <= |raw|
    ensures EntriesFrom(lex, raw, line, FromWord(lex, BraceBody(raw, start), 0, line))
    decreases |raw|, 1, 0
  {
    hide EntriesFrom, FromWord, Stretch, BraceEnd, NeverLonger;
    var end := BraceEnd(raw, start);
    var bodyEnd := if end > start && raw[end - 1] == CLOSE_BRACE then end - 1 else end;
    WordIsIntroduced(lex, BraceBody(raw, start), 0, line);
    SliceIsStretch(raw, start, bodyEnd);
    Lifted(lex, raw, BraceBody(raw, start), line, line, FromWord(lex, BraceBody(raw, start), 0, line));
  }

  lemma {:induction false} SubstitutionIsIntroduced(lex: Lexer, raw: Bytes, open: nat, line: nat)
    requires NeverLonger(lex) && ByteAt(raw, open, OPEN_PAREN)
    ensures EntriesFrom(lex, raw, line, FromSubstitution(lex, raw, open, line))
    decreases |raw|, 1, 0
  {
    hide EntriesFrom, FromArithmetic, Collected, Stretch, NeverLonger, ParenClose;
    var close := ParenClose(raw, open);
    if close.None? {
      Nothing(lex, raw, line);
    } else if ByteAt(raw, open + 1, OPEN_PAREN) {
      ArithmeticBounds(raw, open);
      if !Boundary(raw, close.value - 1) {
        TailBeforeCloser(raw, close.value);
        PanicOnlyBehindOthers(lex, raw, line);
        return;
      }
      var text := raw[open + 2..close.value - 1];
      ArithmeticIsIntroduced(lex, text, 0, line);
      SliceIsStretch(raw, open + 2, close.value - 1);
      Lifted(lex, raw, text, line, line, FromArithmetic(lex, text, 0, line));
    } else {
      var body := raw[open + 1..close.value];
      CollectedAreIntroduced(lex, body, line);
      SliceIsStretch(raw, open + 1, close.value);
      Lifted(lex, raw, body, line, line, Collected(lex, body, line));
    }
  }

  lemma {:induction false} StringIsIntroduced(lex: Lexer, raw: Bytes, i: nat, line: nat)
    requires NeverLonger(lex) && ByteAt(raw, i, DOLLAR) && ByteAt(raw, i + 1, QUOTE)
    ensures EntriesFrom(lex, raw, line, FromString(lex, raw, i, line))
    decreases |raw|, 2, |raw| - i
  {
    hide EntriesFrom, FromQuoted, BodyEnd, NeverLonger;
    QuotedIsIntroduced(lex, raw, i + 2, line, false);
    OwnBody(lex, raw, i, line);
    Both(lex, raw, line, FromQuoted(lex, raw, i + 2, line, false),
      Some([Entry(line, raw[i + 2..BodyEnd(raw, i + 2)])]));
  }

  lemma {:induction false} QuotedIsIntroduced(lex: Lexer, raw: Bytes, i: nat, line: nat, braces: bool)
    requires NeverLonger(lex) && i <= |raw|
    ensures EntriesFrom(lex, raw, line, FromQuoted(lex, raw, i, line, braces))
    decreases |raw|, 2, |raw| - i
  {
    hide EntriesFrom, FromWord, FromSubstitution, BraceEnd, EscapedEnd, ParenClose, BraceBody, NeverLonger;
    if i == |raw| || raw[i] == QUOTE {
      Nothing(lex, raw, line);
    } else if raw[i] == BACKSLASH {
      QuotedIsIntroduced(lex, raw, Min(i + 2, |raw|), line, braces);
    } else if raw[i] == BACKQUOTE {
      QuotedIsIntroduced(lex, raw, EscapedEnd(raw, i + 1, BACKQUOTE), line, braces);
    } else if raw[i] == DOLLAR && ByteAt(raw, i + 1, OPEN_BRACE) {
      var next := BraceEnd(raw, i + 2);
      Nothing(lex, raw, line);
      BraceIsIntroduced(lex, raw, i + 2, line);
      QuotedIsIntroduced(lex, raw, next, line, braces);
      var inner := if braces then FromWord(lex, BraceBody(raw, i + 2), 0, line) else NOTHING;
      Both(lex, raw, line, inner, FromQuoted(lex, raw, next, line, braces));
    } else if raw[i] == DOLLAR && ByteAt(raw, i + 1, OPEN_PAREN) {
      var next := SubstEnd(raw, i + 1);
      SubstitutionIsIntroduced(lex, raw, i + 1, line);
      QuotedIsIntroduced(lex, raw, next, line, braces);
      Both(lex, raw, line, FromSubstitution(lex, raw, i + 1, line), FromQuoted(lex, raw, next, line, braces));
    } else {
      QuotedIsIntroduced(lex, raw, i + 1, line, braces);
    }
  }

  lemma {:induction false} WordIsIntroduced(lex: Lexer, raw: Bytes, i: nat, line: nat)
    requires NeverLonger(lex)
    ensures EntriesFrom(lex, raw, line, FromWord(lex, raw, i, line))
    decreases |raw|, 3, |raw| - i
  {
    hide EntriesFrom, FromQuoted, FromString, FromSubstitution, BraceEnd, EscapedEnd, SingleEnd, ParenClose, BraceBody,
      BodyEnd, NeverLonger;
    if i >= |raw| {
      Nothing(lex, raw, line);
    } else if raw[i] == APOSTROPHE {
      WordIsIntroduced(lex, raw, SingleEnd(raw, i + 1), line);
    } else if raw[i] == BACKQUOTE {
      WordIsIntroduced(lex, raw, EscapedEnd(raw, i + 1, BACKQUOTE), line);
    } else if raw[i] == QUOTE {
      var next := PastQuote(raw, BodyEnd(raw, i + 1));
      QuotedIsIntroduced(lex, raw, i + 1, line, true);
      WordIsIntroduced(lex, raw, next, line);
      Both(lex, raw, line, FromQuoted(lex, raw, i + 1, line, true), FromWord(lex, raw, next, line));
    } else if raw[i] == BACKSLASH {
      WordIsIntroduced(lex, raw, Min(i + 2, |raw|), line);
    } else if raw[i] != DOLLAR || i + 1 == |raw| {
      WordIsIntroduced(lex, raw, i + 1, line);
    } else if raw[i + 1] == QUOTE {
      var next := BodyEnd(raw, i + 2) + 1;
      StringIsIntroduced(lex, raw, i, line);
      WordIsIntroduced(lex, raw, next, line);
      Both(lex, raw, line, FromString(lex, raw, i, line), FromWord(lex, raw, next, line));
    } else if raw[i + 1] == APOSTROPHE {
      WordIsIntroduced(lex, raw, EscapedEnd(raw, i + 2, APOSTROPHE), line);
    } else if raw[i + 1] == OPEN_BRACE {
      var next := BraceEnd(raw, i + 2);
      BraceIsIntroduced(lex, raw, i + 2, line);
      WordIsIntroduced(lex, raw, next, line);
      Both(lex, raw, line, FromWord(lex, BraceBody(raw, i + 2), 0, line), FromWord(lex, raw, next, line));
    } else if raw[i + 1] == OPEN_PAREN {
      var next := SubstEnd(raw, i + 1);
      SubstitutionIsIntroduced(lex, raw, i + 1, line);
      WordIsIntroduced(lex, raw, next, line);
      Both(lex, raw, line, FromSubstitution(lex, raw, i + 1, line), FromWord(lex, raw, next, line));
    } else {
      WordIsIntroduced(lex, raw, i + 1, line);
    }
  }

  lemma {:induction false} ArithmeticIsIntroduced(lex: Lexer, text: Bytes, i: nat, line: nat)
    requires NeverLonger(lex)
    ensures EntriesFrom(lex, text, line, FromArithmetic(lex, text, i, line))
    decreases |text|, 3, |text| - i
  {
    hide EntriesFrom, FromQuoted, FromString, FromSubstitution, EscapedEnd, ParenClose, BodyEnd, NeverLonger;
    if i >= |text| {
      Nothing(lex, text, line);
    } else if text[i] == QUOTE {
      var next := PastQuote(text, BodyEnd(text, i + 1));
      QuotedIsIntroduced(lex, text, i + 1, line, true);
      ArithmeticIsIntroduced(lex, text, next, line);
      Both(lex, text, line, FromQuoted(lex, text, i + 1, line, true), FromArithmetic(lex, text, next, line));
    } else if text[i] == BACKQUOTE {
      ArithmeticIsIntroduced(lex, text, EscapedEnd(text, i + 1, BACKQUOTE), line);
    } else if text[i] == DOLLAR && ByteAt(text, i + 1, QUOTE) {
      var next := BodyEnd(text, i + 2) + 1;
      StringIsIntroduced(lex, text, i, line);
      ArithmeticIsIntroduced(lex, text, next, line);
      Both(lex, text, line, FromString(lex, text, i, line), FromArithmetic(lex, text, next, line));
    } else if text[i] == DOLLAR && ByteAt(text, i + 1, OPEN_PAREN) {
      if ByteAt(text, i + 2, OPEN_PAREN) {
        ArithmeticIsIntroduced(lex, text, i + 3, line);
      } else {
        var next := SubstEnd(text, i + 1);
        SubstitutionIsIntroduced(lex, text, i + 1, line);
        ArithmeticIsIntroduced(lex, text, next, line);
        Both(lex, text, line, FromSubstitution(lex, text, i + 1, line), FromArithmetic(lex, text, next, line));
      }
    } else if text[i] == BACKSLASH {
      ArithmeticIsIntroduced(lex, text, Min(i + 2, |text|), line);
    } else {
      ArithmeticIsIntroduced(lex, text, i + 1, line);
    }
  }

  // ------------------------------------------------------------------------ what is found

  /**
   With a lexer that spells its input, every locale string found stands in the script behind a `$"`,
   on a line no earlier than the first; and no slice is cut inside a character unless a closing
   parenthesis stands behind one outside ASCII.
   */
  lemma OnlyIntroducedText(lex: Lexer, input: Bytes, baseLine: nat)
    requires NeverLonger(lex) && SpellsInput(lex)
    ensures var found := Collected(lex, input, baseLine);
            && (ClosersAfterAscii(input) ==> found.Some?)
            && (found.Some? ==> forall k :: 0 <= k < |found.value| ==>
                 found.value[k].line >= baseLine && Introduced(input, found.value[k].body))
  {
    CollectedAreIntroduced(lex, input, baseLine);
  }

  /** The slice of a `$((...))` panics exactly when the byte in front of the closing parenthesis is no ASCII byte. */
  lemma ArithmeticPanicsExactlyWhen(lex: Lexer, raw: Text, open: nat, line: nat)
    requires NeverLonger(lex) && ByteAt(raw, open, OPEN_PAREN) && ByteAt(raw, open + 1, OPEN_PAREN)
    requires ParenClose(raw, open).Some?
    ensures var close := ParenClose(raw, open).value;
            && open + 2 <= close - 1 < |raw|
            && (!Boundary(raw, close - 1) <==> raw[close - 1] >= 0x80)
            && FromSubstitution(lex, raw, open, line) ==
               if raw[close - 1] >= 0x80 then None else FromArithmetic(lex, raw[open + 2..close - 1], 0, line)
  {
    hide FromArithmetic, Boundary, WellFormed, ParenClose;
    var close := ParenClose(raw, open).value;
    ArithmeticBounds(raw, open);
    BeforeAscii(raw, close - 1);
  }

  /** In `$((1)\u{e9})` the slice of the arithmetic text ends inside the two-byte character. */
  lemma ArithmeticCutsCharacter(lex: Lexer, line: nat)
    requires NeverLonger(lex)
    ensures var raw: Bytes := [0x24, 0x28, 0x28, 0x31, 0x29, 0xC3, 0xA9, 0x29];
            WellFormed(raw) && FromSubstitution(lex, raw, 1, line) == None
  {
    var raw: Bytes := [0x24, 0x28, 0x28, 0x31, 0x29, 0xC3, 0xA9, 0x29];
    TextExample(raw);
    ClosesAtEnd(raw);
  }

  lemma ClosesAtEnd(raw: Bytes)
    requires raw == [0x24, 0x28, 0x28, 0x31, 0x29, 0xC3, 0xA9, 0x29]
    ensures ParenClose(raw, 1) == Some(7)
  {
    assert CloseOf(raw, 7, OPEN_PAREN, CLOSE_PAREN, 1) == Some(7);
    assert CloseOf(raw, 6, OPEN_PAREN, CLOSE_PAREN, 1) == Some(7);
    assert CloseOf(raw, 5, OPEN_PAREN, CLOSE_PAREN, 1) == Some(7);
    assert CloseOf(raw, 4, OPEN_PAREN, CLOSE_PAREN, 2) == Some(7);
    assert CloseOf(raw, 3, OPEN_PAREN, CLOSE_PAREN, 2) == Some(7);
    assert CloseOf(raw, 2, OPEN_PAREN, CLOSE_PAREN, 1) == Some(7);
  }

  lemma TextExample(raw: Bytes)
    requires raw == [0x24, 0x28, 0x28, 0x31, 0x29, 0xC3, 0xA9, 0x29]
    ensures WellFormed(raw)
  {
    var last := raw[7..];
    assert SeqLen(last) == 1 && last[1..] == [];
    var eAcute := raw[5..];
    assert SeqLen(eAcute) == 2 && eAcute[2..] == last;
    Ascii(raw[4..], eAcute);
    Ascii(raw[3..], raw[4..]);
    Ascii(raw[2..], raw[3..]);
    Ascii(raw[1..], raw[2..]);
    Ascii(raw, raw[1..]);
  }

  lemma Ascii(s: Bytes, rest: Bytes)
    requires s != [] && s[0] < 0x80 && s[1..] == rest && WellFormed(rest)
    ensures WellFormed(s)
  {
    assert SeqLen(s) == 1;
  }

  /** Bytes that mean nothing to the walks over words and quotes. */
  predicate Neutral(b: Byte) { b != QUOTE && b != DOLLAR && b != APOSTROPHE && b != BACKSLASH && b != BACKQUOTE }

  predicate NeutralSpan(raw: Bytes, i: nat, j: nat) {
    i <= j <= |raw| && forall p :: i <= p < j ==> Neutral(raw[p])
  }

  lemma {:induction false} WordPastNeutral(lex: Lexer, raw: Bytes, i: nat, j: nat, line: nat)
    requires NeverLonger(lex) && NeutralSpan(raw, i, j)
    ensures FromWord(lex, raw, i, line) == FromWord(lex, raw, j, line)
    decreases j - i
  {
    hide NeverLonger;
    if i < j {
      WordPastNeutral(lex, raw, i + 1, j, line);
    }
  }

  lemma {:induction false} QuotedPastNeutral(lex: Lexer, raw: Bytes, i: nat, j: nat, line: nat, braces: bool)
    requires NeverLonger(lex) && NeutralSpan(raw, i, j)
    ensures FromQuoted(lex, raw, i, line, braces) == FromQuoted(lex, raw, j, line, braces)
    ensures BodyEnd(raw, i) == BodyEnd(raw, j)
    decreases j - i
  {
    hide NeverLonger;
    if i < j {
      QuotedPastNeutral(lex, raw, i + 1, j, line, braces);
    }
  }

  lemma WordAtString(lex: Lexer, raw: Bytes, i: nat, line: nat)
    requires NeverLonger(lex) && ByteAt(raw, i, DOLLAR) && ByteAt(raw, i + 1, QUOTE)
    ensures FromWord(lex, raw, i, line)
         == Then(FromString(lex, raw, i, line), FromWord(lex, raw, BodyEnd(raw, i + 2) + 1, line))
  {
    hide NeverLonger, FromString, BodyEnd;
  }

  lemma WordAtQuote(lex: Lexer, raw: Bytes, i: nat, line: nat)
    requires NeverLonger(lex) && ByteAt(raw, i, QUOTE)
    ensures FromWord(lex, raw, i, line)
         == Then(FromQuoted(lex, raw, i + 1, line, true), FromWord(lex, raw, PastQuote(raw, BodyEnd(raw, i + 1)), line))
  {
    hide NeverLonger, FromQuoted, BodyEnd;
  }

  lemma QuotedEnds(lex: Lexer, raw: Bytes, i: nat, line: nat, braces: bool)
    requires NeverLonger(lex) && ByteAt(raw, i, QUOTE)
    ensures FromQuoted(lex, raw, i, line, braces) == NOTHING && BodyEnd(raw, i) == i
  {
  }

  lemma WordEnds(lex: Lexer, raw: Bytes, line: nat)
    requires NeverLonger(lex)
    ensures FromWord(lex, raw, |raw|, line) == NOTHING
  {
  }

  lemma DollarPasses(lex: Lexer, raw: Bytes, i: nat, line: nat, braces: bool)
    requires NeverLonger(lex) && ByteAt(raw, i, DOLLAR) && ByteAt(raw, i + 1, QUOTE)
    ensures FromQuoted(lex, raw, i, line, braces) == FromQuoted(lex, raw, i + 1, line, braces)
    ensures BodyEnd(raw, i) == BodyEnd(raw, i + 1)
  {
  }

  /** A word with one `$"..."` of plain text, and plain text around it, gives exactly that string. */
  lemma PlainStringIsFound(lex: Lexer, raw: Bytes, at: nat, close: nat, line: nat)
    requires NeverLonger(lex) && at + 1 < close < |raw| && raw[at] == DOLLAR && raw[at + 1] == QUOTE == raw[close]
    requires NeutralSpan(raw, 0, at) && NeutralSpan(raw, at + 2, close) && NeutralSpan(raw, close + 1, |raw|)
    ensures FromWord(lex, raw, 0, line) == Some([Entry(line, raw[at + 2..close])])
  {
    hide NeverLonger, FromWord, FromQuoted, BodyEnd;
    var entries := [Entry(line, raw[at + 2..close])];
    WordPastNeutral(lex, raw, 0, at, line);
    WordAtString(lex, raw, at, line);
    QuotedPastNeutral(lex, raw, at + 2, close, line, false);
    QuotedEnds(lex, raw, close, line, false);
    WordPastNeutral(lex, raw, close + 1, |raw|, line);
    WordEnds(lex, raw, line);
    assert [] + entries == entries && entries + [] == entries;
  }

  /** The same text inside double quotes is not a locale string: the `"` behind the `$` closes the quotes. */
  lemma DollarQuoteInQuotes(lex: Lexer, raw: Bytes, at: nat, close: nat, line: nat)
    requires NeverLonger(lex) && 0 < at && at + 1 < close < |raw| - 1 && raw[0] == QUOTE == raw[|raw| - 1]
    requires raw[at] == DOLLAR && raw[at + 1] == QUOTE == raw[close]
    requires NeutralSpan(raw, 1, at) && NeutralSpan(raw, at + 2, close) && NeutralSpan(raw, close + 1, |raw| - 1)
    ensures FromWord(lex, raw, 0, line) == NOTHING
  {
    hide NeverLonger, FromWord, FromQuoted, BodyEnd;
    WordAtQuote(lex, raw, 0, line);
    QuotedPastNeutral(lex, raw, 1, at, line, true);
    DollarPasses(lex, raw, at, line, true);
    QuotedEnds(lex, raw, at + 1, line, true);
    WordPastNeutral(lex, raw, at + 2, close, line);
    WordAtQuote(lex, raw, close, line);
    QuotedPastNeutral(lex, raw, close + 1, |raw| - 1, line, true);
    QuotedEnds(lex, raw, |raw| - 1, line, true);
    WordEnds(lex, raw, line);
    var none: seq<Entry> := [];
    assert none + none == none;
  }

  /** Nothing inside single quotes is a locale string. */
  lemma {:induction false} SingleQuotesHide(lex: Lexer, raw: Bytes, open: nat, close: nat, line: nat)
    requires NeverLonger(lex) && open < close < |raw| && raw[open] == APOSTROPHE == raw[close]
    requires NeutralSpan(raw, 0, open) && (forall p :: open < p < close ==> raw[p] != APOSTROPHE)
    ensures FromWord(lex, raw, 0, line) == FromWord(lex, raw, close + 1, line)
  {
    hide NeverLonger;
    WordPastNeutral(lex, raw, 0, open, line);
    ApostropheAt(raw, open + 1, close);
  }

  lemma {:induction false} ApostropheAt(raw: Bytes, i: nat, close: nat)
    requires i <= close < |raw| && raw[close] == APOSTROPHE && (forall p :: i <= p < close ==> raw[p] != APOSTROPHE)
    ensures SingleEnd(raw, i) == close + 1
    decreases close - i
  {
    if i < close {
      ApostropheAt(raw, i + 1, close);
    }
  }
}
