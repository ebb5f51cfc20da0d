/**
 The locale strings of a word with nested units (src/locale.rs). A word is a run of pieces: plain text, escapes,
 quotes, locale strings, `${...}`, `$(...)` and `$((...))`, one inside another. What the pieces give is read off
 them directly; the scan of the bytes they are spelled with finds exactly that.
 */
module LocaleNested {
  import opened Utf8
  import opened Wrappers
  import opened LocaleUnits
  import opened LocaleScanner
  import opened LocaleLocal

  datatype Piece =
    | Plain(text: Bytes)
    | Dollar(next: Byte)
    | Escaped(byte: Byte)
    | Single(text: Bytes)
    | Ansi(text: Bytes)
    | Back(text: Bytes)
    | Quoted(parts: seq<Piece>)
    | Locale(parts: seq<Piece>)
    | Brace(parts: seq<Piece>)
    | Command(text: Bytes)
    | Arithmetic(parts: seq<Piece>)

  /** Where a piece stands: in a word, in double quotes, in the body of a locale string, or in arithmetic text. */
  datatype Context = InWord | InQuotes | InString | InArithmetic

  // ---------------------------------------------------------------------- spelling

  function Opener(p: Piece): Bytes {
    match p
    case Plain(_) => []
    case Dollar(_) => [DOLLAR]
    case Escaped(_) => [BACKSLASH]
    case Single(_) => [APOSTROPHE]
    case Ansi(_) => [DOLLAR, APOSTROPHE]
    case Back(_) => [BACKQUOTE]
    case Quoted(_) => [QUOTE]
    case Locale(_) => [DOLLAR, QUOTE]
    case Brace(_) => [DOLLAR, OPEN_BRACE]
    case Command(_) => [DOLLAR, OPEN_PAREN]
    case Arithmetic(_) => [DOLLAR, OPEN_PAREN, OPEN_PAREN]
  }

  function Closer(p: Piece): Bytes {
    match p
    case Single(_) => [APOSTROPHE]
    case Ansi(_) => [APOSTROPHE]
    case Back(_) => [BACKQUOTE]
    case Quoted(_) => [QUOTE]
    case Locale(_) => [QUOTE]
    case Brace(_) => [CLOSE_BRACE]
    case Command(_) => [CLOSE_PAREN]
    case Arithmetic(_) => [CLOSE_PAREN, CLOSE_PAREN]
    case _ => []
  }

  function Inside(p: Piece): Bytes
    decreases p, 0
  {
    match p
    case Plain(text) => text
    case Dollar(next) => [next]
    case Escaped(byte) => [byte]
    case Single(text) => text
    case Ansi(text) => text
    case Back(text) => text
    case Command(text) => text
    case Quoted(parts) => SpellAll(parts)
    case Locale(parts) => SpellAll(parts)
    case Brace(parts) => SpellAll(parts)
    case Arithmetic(parts) => SpellAll(parts)
  }

  function Spell(p: Piece): Bytes
    decreases p, 1
  {
    Opener(p) + Inside(p) + Closer(p)
  }

  function SpellAll(ps: seq<Piece>): Bytes {
    if ps == [] then [] else Spell(ps[0]) + SpellAll(ps[1..])
  }

  // ------------------------------------------------------------------ well-formed pieces

  /** A byte that means nothing inside quotes or in arithmetic text. */
  predicate Inert(b: Byte) { b != QUOTE && b != DOLLAR && b != BACKSLASH && b != BACKQUOTE }

  predicate MeansNothing(b: Byte, where: Context) { if where.InWord? then Neutral(b) else Inert(b) }

  /** Every `close` and every backslash in the text is behind a backslash of its own. */
  predicate NoneUnescaped(text: Bytes, close: Byte) {
    if text == [] then true
    else if text[0] == BACKSLASH then |text| > 1 && NoneUnescaped(text[2..], close)
    else text[0] != close && NoneUnescaped(text[1..], close)
  }

  /** The first place where the brackets of the text are closed is behind it. */
  predicate Closes(text: Bytes, open: Byte, close: Byte) {
    CloseOf(text + [close], 0, open, close, 1) == Some(|text|)
  }

  predicate Good(p: Piece, where: Context) {
    match p
    case Plain(text) => forall k :: 0 <= k < |text| ==> MeansNothing(text[k], where)
    case Dollar(next) =>
      MeansNothing(next, where) && next != OPEN_PAREN && (where.InArithmetic? || next != OPEN_BRACE)
    case Escaped(_) => true
    case Single(text) => where.InWord? && forall k :: 0 <= k < |text| ==> text[k] != APOSTROPHE
    case Ansi(text) => where.InWord? && NoneUnescaped(text, APOSTROPHE)
    case Back(text) => NoneUnescaped(text, BACKQUOTE)
    case Quoted(parts) => (where.InWord? || where.InArithmetic?) && AllGood(parts, InQuotes)
    case Locale(parts) => (where.InWord? || where.InArithmetic?) && AllGood(parts, InString)
    case Brace(parts) =>
      !where.InArithmetic? && AllGood(parts, InWord) && Closes(SpellAll(parts), OPEN_BRACE, CLOSE_BRACE)
    case Command(text) => !ByteAt(text, 0, OPEN_PAREN) && Closes(text, OPEN_PAREN, CLOSE_PAREN)
    case Arithmetic(parts) =>
      && AllGood(parts, InArithmetic)
      && (where.InArithmetic? || Closes([OPEN_PAREN] + SpellAll(parts) + [CLOSE_PAREN], OPEN_PAREN, CLOSE_PAREN))
  }

  predicate AllGood(ps: seq<Piece>, where: Context) {
    ps == [] || (Good(ps[0], where) && AllGood(ps[1..], where))
  }

  // --------------------------------------------------------------------- what they give

  /**
   The strings of one piece, in their order. A command substitution gives those of its own script; a locale
   string gives those of its substitutions and then itself; `${...}` gives those of its word, but none where it
   stands in a locale string.
   */
  ghost function Gives(lex: Lexer, p: Piece, where: Context, line: nat): Found
    requires NeverLonger(lex)
  {
    match p
    case Quoted(parts) => AllGive(lex, parts, InQuotes, line)
    case Locale(parts) => Then(AllGive(lex, parts, InString, line), Some([Entry(line, SpellAll(parts))]))
    case Brace(parts) => if where.InString? then NOTHING else AllGive(lex, parts, InWord, line)
    case Command(text) => Collected(lex, text, line)
    case Arithmetic(parts) => AllGive(lex, parts, InArithmetic, line)
    case _ => NOTHING
  }

  ghost function AllGive(lex: Lexer, ps: seq<Piece>, where: Context, line: nat): Found
    requires NeverLonger(lex)
  {
    if ps == [] then NOTHING else Then(Gives(lex, ps[0], where, line), AllGive(lex, ps[1..], where, line))
  }

  // ------------------------------------------------------------------- stretches of bytes

  predicate At(raw: Bytes, i: nat, s: Bytes) { i + |s| <= |raw| && raw[i..i + |s|] == s }

  lemma AtBoth(raw: Bytes, i: nat, s: Bytes, t: Bytes)
    ensures At(raw, i, s + t) <==> At(raw, i, s) && At(raw, i + |s|, t)
  {
    if At(raw, i, s + t) {
      assert raw[i..i + |s| + |t|][..|s|] == s && raw[i..i + |s| + |t|][|s|..] == t;
    }
  }

  lemma AtByte(raw: Bytes, i: nat, s: Bytes, k: nat)
    requires At(raw, i, s) && k < |s|
    ensures i + k < |raw| && raw[i + k] == s[k]
  {
    assert raw[i..i + |s|][k] == raw[i + k];
  }

  /** The three stretches of a piece. */
  lemma PieceAt(raw: Bytes, i: nat, p: Piece)
    requires At(raw, i, Spell(p))
    ensures var a, b := i + |Opener(p)|, i + |Opener(p)| + |Inside(p)|;
            && At(raw, i, Opener(p)) && At(raw, a, Inside(p)) && At(raw, b, Closer(p))
            && b + |Closer(p)| == i + |Spell(p)| <= |raw|
  {
    hide Opener, Inside, Closer, At;
    AtBoth(raw, i, Opener(p) + Inside(p), Closer(p));
    AtBoth(raw, i, Opener(p), Inside(p));
    assert i + |Spell(p)| <= |raw| by {
      AtWithin(raw, i, Spell(p));
    }
  }

  lemma AtWithin(raw: Bytes, i: nat, s: Bytes)
    requires At(raw, i, s)
    ensures i + |s| <= |raw|
  {
  }

  lemma ClosesAt(raw: Bytes, i: nat, text: Bytes, open: Byte, close: Byte)
    requires Closes(text, open, close) && At(raw, i, text) && At(raw, i + |text|, [close])
    ensures i <= |raw| && CloseOf(raw, i, open, close, 1) == Some(i + |text|)
  {
    hide CloseOf;
    AtBoth(raw, i, text, [close]);
    var a := text + [close];
    assert a[0..|a|] == a;
    CloseIsLocal(a, 0, raw, i, |a|, open, close, 1);
  }

  lemma {:induction false} EscapedAt(raw: Bytes, i: nat, text: Bytes, close: Byte)
    requires close != BACKSLASH && NoneUnescaped(text, close) && At(raw, i, text) && At(raw, i + |text|, [close])
    ensures EscapedEnd(raw, i, close) == i + |text| + 1
    decreases |text|
  {
    hide At;
    AtByte(raw, i + |text|, [close], 0);
    if text != [] {
      AtByte(raw, i, text, 0);
      var n := if text[0] == BACKSLASH then 2 else 1;
      assert text == text[..n] + text[n..];
      AtBoth(raw, i, text[..n], text[n..]);
      EscapedAt(raw, i + n, text[n..], close);
    }
  }

  lemma SingleAt(raw: Bytes, i: nat, text: Bytes)
    requires (forall k :: 0 <= k < |text| ==> text[k] != APOSTROPHE)
    requires At(raw, i, text) && At(raw, i + |text|, [APOSTROPHE])
    ensures SingleEnd(raw, i) == i + |text| + 1
  {
    hide At;
    AtByte(raw, i + |text|, [APOSTROPHE], 0);
    forall p | i <= p < i + |text| ensures raw[p] != APOSTROPHE {
      AtByte(raw, i, text, p - i);
    }
    ApostropheAt(raw, i, i + |text|);
  }

  lemma ThenNothing(f: Found)
    ensures Then(NOTHING, f) == f && Then(f, NOTHING) == f
  {
    if f.Some? {
      assert [] + f.value == f.value && f.value + [] == f.value;
    }
  }

  lemma ThenTwice(a: Found, b: Found, c: Found)
    ensures Then(Then(a, b), c) == Then(a, Then(b, c))
  {
    if a.Some? && b.Some? && c.Some? {
      assert (a.value + b.value) + c.value == a.value + (b.value + c.value);
    }
  }

  lemma Spelled(ps: seq<Piece>)
    requires ps != []
    ensures SpellAll(ps) == Spell(ps[0]) + SpellAll(ps[1..])
  {
  }

  // -------------------------------------------------------------- pieces that give nothing

  /** The walk over a word passes over a piece that gives nothing. */
  lemma WordPasses(lex: Lexer, raw: Bytes, i: nat, p: Piece, line: nat)
    requires NeverLonger(lex) && At(raw, i, Spell(p)) && Good(p, InWord)
    requires p.Plain? || p.Dollar? || p.Escaped? || p.Single? || p.Ansi? || p.Back?
    ensures FromWord(lex, raw, i, line) == FromWord(lex, raw, i + |Spell(p)|, line)
  {
    hide NeverLonger, At, FromQuoted, FromString, FromSubstitution, BraceBody, BraceEnd, BodyEnd, SingleEnd, EscapedEnd;
    PieceAt(raw, i, p);
    var n := |Opener(p)|;
    if n > 0 {
      AtByte(raw, i, Opener(p), 0);
    }
    if n > 1 {
      AtByte(raw, i, Opener(p), 1);
    }
    match p {
      case Plain(text) =>
        forall k | i <= k < i + |text| ensures Neutral(raw[k]) {
          AtByte(raw, i, text, k - i);
        }
        WordPastNeutral(lex, raw, i, i + |text|, line);
      case Dollar(next) => AtByte(raw, i + 1, [next], 0);
      case Escaped(byte) => AtByte(raw, i + 1, [byte], 0);
      case Single(text) => SingleAt(raw, i + 1, text);
      case Ansi(text) => EscapedAt(raw, i + 2, text, APOSTROPHE);
      case Back(text) => EscapedAt(raw, i + 1, text, BACKQUOTE);
      case _ =>
    }
  }

  lemma {:induction false} QuotedPastInert(lex: Lexer, raw: Bytes, i: nat, text: Bytes, line: nat, braces: bool)
    requires NeverLonger(lex) && At(raw, i, text) && forall k :: 0 <= k < |text| ==> Inert(text[k])
    ensures i + |text| <= |raw|
    ensures FromQuoted(lex, raw, i, line, braces) == FromQuoted(lex, raw, i + |text|, line, braces)
    ensures BodyEnd(raw, i) == BodyEnd(raw, i + |text|)
    decreases |text|
  {
    hide NeverLonger, At;
    AtWithin(raw, i, text);
    if text != [] {
      AtByte(raw, i, text, 0);
      assert text == text[..1] + text[1..];
      AtBoth(raw, i, text[..1], text[1..]);
      QuotedPastInert(lex, raw, i + 1, text[1..], line, braces);
    }
  }

  lemma {:induction false} ArithmeticPastInert(lex: Lexer, raw: Bytes, i: nat, text: Bytes, line: nat)
    requires NeverLonger(lex) && At(raw, i, text) && forall k :: 0 <= k < |text| ==> Inert(text[k])
    ensures FromArithmetic(lex, raw, i, line) == FromArithmetic(lex, raw, i + |text|, line)
    decreases |text|
  {
    hide NeverLonger, At;
    if text != [] {
      AtByte(raw, i, text, 0);
      assert text == text[..1] + text[1..];
      AtBoth(raw, i, text[..1], text[1..]);
      ArithmeticPastInert(lex, raw, i + 1, text[1..], line);
    }
  }

  predicate QuotedContext(where: Context) { where.InQuotes? || where.InString? }

  lemma QuotedPasses(lex: Lexer, raw: Bytes, i: nat, p: Piece, where: Context, line: nat)
    requires NeverLonger(lex) && At(raw, i, Spell(p)) && QuotedContext(where) && Good(p, where)
    requires p.Plain? || p.Dollar? || p.Escaped? || p.Back?
    ensures i + |Spell(p)| <= |raw|
    ensures var braces := where.InQuotes?;
            FromQuoted(lex, raw, i, line, braces) == FromQuoted(lex, raw, i + |Spell(p)|, line, braces)
    ensures BodyEnd(raw, i) == BodyEnd(raw, i + |Spell(p)|)
  {
    hide NeverLonger, At, FromWord, FromSubstitution, BraceBody, BraceEnd, SubstEnd, EscapedEnd;
    PieceAt(raw, i, p);
    if |Opener(p)| > 0 {
      AtByte(raw, i, Opener(p), 0);
    }
    match p {
      case Plain(text) => QuotedPastInert(lex, raw, i, text, line, where.InQuotes?);
      case Dollar(next) => AtByte(raw, i + 1, [next], 0);
      case Escaped(byte) => AtByte(raw, i + 1, [byte], 0);
      case Back(text) => EscapedAt(raw, i + 1, text, BACKQUOTE);
      case _ =>
    }
  }

  lemma ArithmeticPasses(lex: Lexer, raw: Bytes, i: nat, p: Piece, line: nat)
    requires NeverLonger(lex) && At(raw, i, Spell(p)) && Good(p, InArithmetic)
    requires p.Plain? || p.Dollar? || p.Escaped? || p.Back?
    ensures FromArithmetic(lex, raw, i, line) == FromArithmetic(lex, raw, i + |Spell(p)|, line)
  {
    hide NeverLonger, At, FromQuoted, FromString, FromSubstitution, BodyEnd, SubstEnd, EscapedEnd;
    PieceAt(raw, i, p);
    if |Opener(p)| > 0 {
      AtByte(raw, i, Opener(p), 0);
    }
    match p {
      case Plain(text) => ArithmeticPastInert(lex, raw, i, text, line);
      case Dollar(next) => AtByte(raw, i + 1, [next], 0);
      case Escaped(byte) => AtByte(raw, i + 1, [byte], 0);
      case Back(text) => EscapedAt(raw, i + 1, text, BACKQUOTE);
      case _ =>
    }
  }

  // ----------------------------------------------------------------- the nested units

  /** What stands between the brackets of a unit, and where the unit ends. */
  lemma BraceAt(raw: Bytes, i: nat, p: Piece)
    requires p.Brace? && Closes(SpellAll(p.parts), OPEN_BRACE, CLOSE_BRACE) && At(raw, i, Spell(p))
    ensures ByteAt(raw, i, DOLLAR) && ByteAt(raw, i + 1, OPEN_BRACE) && i + |Spell(p)| <= |raw|
    ensures BraceEnd(raw, i + 2) == i + |Spell(p)| && BraceBody(raw, i + 2) == SpellAll(p.parts)
  {
    hide SpellAll, Closes, CloseOf;
    PieceAt(raw, i, p);
    AtByte(raw, i, Opener(p), 0);
    AtByte(raw, i, Opener(p), 1);
    ClosesAt(raw, i + 2, SpellAll(p.parts), OPEN_BRACE, CLOSE_BRACE);
  }

  lemma CommandAt(raw: Bytes, i: nat, p: Piece)
    requires p.Command? && Closes(p.text, OPEN_PAREN, CLOSE_PAREN) && !ByteAt(p.text, 0, OPEN_PAREN)
    requires At(raw, i, Spell(p))
    ensures ByteAt(raw, i, DOLLAR) && ByteAt(raw, i + 1, OPEN_PAREN) && !ByteAt(raw, i + 2, OPEN_PAREN)
    ensures SubstEnd(raw, i + 1) == i + |Spell(p)| <= |raw|
    ensures ParenClose(raw, i + 1) == Some(i + 2 + |p.text|) && i + 2 + |p.text| < |raw|
    ensures raw[i + 2..i + 2 + |p.text|] == p.text
  {
    hide Closes, CloseOf;
    PieceAt(raw, i, p);
    AtByte(raw, i, Opener(p), 0);
    AtByte(raw, i, Opener(p), 1);
    ClosesAt(raw, i + 2, p.text, OPEN_PAREN, CLOSE_PAREN);
    AtByte(raw, i + 2 + |p.text|, [CLOSE_PAREN], 0);
    if p.text != [] {
      AtByte(raw, i + 2, p.text, 0);
    }
  }

  lemma ArithmeticBytes(raw: Bytes, i: nat, p: Piece)
    requires p.Arithmetic? && At(raw, i, Spell(p))
    ensures ByteAt(raw, i, DOLLAR) && ByteAt(raw, i + 1, OPEN_PAREN) && ByteAt(raw, i + 2, OPEN_PAREN)
    ensures var b := i + 3 + |SpellAll(p.parts)|;
            && At(raw, i + 2, [OPEN_PAREN]) && At(raw, i + 3, SpellAll(p.parts))
            && At(raw, b, [CLOSE_PAREN]) && At(raw, b + 1, [CLOSE_PAREN]) && b + 2 == i + |Spell(p)| <= |raw|
            && raw[b] == CLOSE_PAREN
  {
    hide SpellAll, At, Spell;
    PieceAt(raw, i, p);
    AtByte(raw, i, Opener(p), 0);
    AtByte(raw, i, Opener(p), 1);
    AtByte(raw, i, Opener(p), 2);
    var b := i + 3 + |SpellAll(p.parts)|;
    AtByte(raw, b, Closer(p), 0);
    assert Opener(p) == [DOLLAR, OPEN_PAREN] + [OPEN_PAREN] && Closer(p) == [CLOSE_PAREN] + [CLOSE_PAREN];
    AtBoth(raw, i, [DOLLAR, OPEN_PAREN], [OPEN_PAREN]);
    AtBoth(raw, b, [CLOSE_PAREN], [CLOSE_PAREN]);
  }

  lemma ArithmeticAt(raw: Bytes, i: nat, p: Piece)
    requires p.Arithmetic? && At(raw, i, Spell(p))
    requires Closes([OPEN_PAREN] + SpellAll(p.parts) + [CLOSE_PAREN], OPEN_PAREN, CLOSE_PAREN)
    ensures ByteAt(raw, i, DOLLAR) && ByteAt(raw, i + 1, OPEN_PAREN) && ByteAt(raw, i + 2, OPEN_PAREN)
    ensures var close := i + 4 + |SpellAll(p.parts)|;
            && SubstEnd(raw, i + 1) == i + |Spell(p)| == close + 1 <= |raw|
            && ParenClose(raw, i + 1) == Some(close) && raw[close - 1] == CLOSE_PAREN
            && raw[i + 3..close - 1] == SpellAll(p.parts)
  {
    hide SpellAll, Closes, CloseOf, At, Spell;
    ArithmeticBytes(raw, i, p);
    var text := SpellAll(p.parts);
    var b := i + 3 + |text|;
    AtBoth(raw, i + 2, [OPEN_PAREN], text);
    AtBoth(raw, i + 2, [OPEN_PAREN] + text, [CLOSE_PAREN]);
    ClosesAt(raw, i + 2, [OPEN_PAREN] + text + [CLOSE_PAREN], OPEN_PAREN, CLOSE_PAREN);
    assert raw[i + 3..b] == text by {
      AtIsSlice(raw, i + 3, text);
    }
  }

  lemma AtIsSlice(raw: Bytes, i: nat, s: Bytes)
    requires At(raw, i, s)
    ensures i + |s| <= |raw| && raw[i..i + |s|] == s
  {
  }

  lemma SubstitutionGives(lex: Lexer, raw: Bytes, i: nat, p: Piece, line: nat)
    requires NeverLonger(lex) && p.Command? && At(raw, i, Spell(p))
    requires Closes(p.text, OPEN_PAREN, CLOSE_PAREN) && !ByteAt(p.text, 0, OPEN_PAREN)
    ensures ByteAt(raw, i + 1, OPEN_PAREN)
    ensures FromSubstitution(lex, raw, i + 1, line) == Collected(lex, p.text, line)
  {
    hide NeverLonger, Collected, FromArithmetic, ParenClose, Closes, Spell;
    CommandAt(raw, i, p);
  }

  lemma ArithmeticUnit(lex: Lexer, raw: Bytes, i: nat, p: Piece, line: nat)
    requires NeverLonger(lex) && p.Arithmetic? && At(raw, i, Spell(p))
    requires Closes([OPEN_PAREN] + SpellAll(p.parts) + [CLOSE_PAREN], OPEN_PAREN, CLOSE_PAREN)
    ensures ByteAt(raw, i + 1, OPEN_PAREN)
    ensures FromSubstitution(lex, raw, i + 1, line) == FromArithmetic(lex, SpellAll(p.parts), 0, line)
  {
    hide NeverLonger, Collected, FromArithmetic, ParenClose, Closes, Spell, SpellAll;
    ArithmeticAt(raw, i, p);
  }

  // ---------------------------------------------------------------------- single steps

  lemma WordAtBrace(lex: Lexer, raw: Bytes, i: nat, line: nat)
    requires NeverLonger(lex) && ByteAt(raw, i, DOLLAR) && ByteAt(raw, i + 1, OPEN_BRACE)
    ensures FromWord(lex, raw, i, line)
         == Then(FromWord(lex, BraceBody(raw, i + 2), 0, line), FromWord(lex, raw, BraceEnd(raw, i + 2), line))
  {
    hide NeverLonger, BraceBody, BraceEnd;
  }

  lemma WordAtCommand(lex: Lexer, raw: Bytes, i: nat, line: nat)
    requires NeverLonger(lex) && ByteAt(raw, i, DOLLAR) && ByteAt(raw, i + 1, OPEN_PAREN)
    ensures FromWord(lex, raw, i, line)
         == Then(FromSubstitution(lex, raw, i + 1, line), FromWord(lex, raw, SubstEnd(raw, i + 1), line))
  {
    hide NeverLonger, FromSubstitution, SubstEnd;
  }

  lemma QuotedAtBrace(lex: Lexer, raw: Bytes, i: nat, line: nat, braces: bool)
    requires NeverLonger(lex) && ByteAt(raw, i, DOLLAR) && ByteAt(raw, i + 1, OPEN_BRACE)
    ensures FromQuoted(lex, raw, i, line, braces)
         == Then(if braces then FromWord(lex, BraceBody(raw, i + 2), 0, line) else NOTHING,
                 FromQuoted(lex, raw, BraceEnd(raw, i + 2), line, braces))
    ensures BodyEnd(raw, i) == BodyEnd(raw, BraceEnd(raw, i + 2))
  {
    hide NeverLonger, BraceBody, BraceEnd, FromWord;
  }

  lemma QuotedAtCommand(lex: Lexer, raw: Bytes, i: nat, line: nat, braces: bool)
    requires NeverLonger(lex) && ByteAt(raw, i, DOLLAR) && ByteAt(raw, i + 1, OPEN_PAREN)
    ensures FromQuoted(lex, raw, i, line, braces)
         == Then(FromSubstitution(lex, raw, i + 1, line), FromQuoted(lex, raw, SubstEnd(raw, i + 1), line, braces))
    ensures BodyEnd(raw, i) == BodyEnd(raw, SubstEnd(raw, i + 1))
  {
    hide NeverLonger, FromSubstitution, SubstEnd;
  }

  lemma ArithmeticAtQuote(lex: Lexer, raw: Bytes, i: nat, line: nat)
    requires NeverLonger(lex) && ByteAt(raw, i, QUOTE)
    ensures FromArithmetic(lex, raw, i, line)
         == Then(FromQuoted(lex, raw, i + 1, line, true),
                 FromArithmetic(lex, raw, PastQuote(raw, BodyEnd(raw, i + 1)), line))
  {
    hide NeverLonger, FromQuoted, BodyEnd;
  }

  lemma ArithmeticAtString(lex: Lexer, raw: Bytes, i: nat, line: nat)
    requires NeverLonger(lex) && ByteAt(raw, i, DOLLAR) && ByteAt(raw, i + 1, QUOTE)
    ensures FromArithmetic(lex, raw, i, line)
         == Then(FromString(lex, raw, i, line), FromArithmetic(lex, raw, BodyEnd(raw, i + 2) + 1, line))
  {
    hide NeverLonger, FromString, BodyEnd;
  }

  lemma ArithmeticAtCommand(lex: Lexer, raw: Bytes, i: nat, line: nat)
    requires NeverLonger(lex) && ByteAt(raw, i, DOLLAR) && ByteAt(raw, i + 1, OPEN_PAREN)
    ensures FromArithmetic(lex, raw, i, line) ==
            if ByteAt(raw, i + 2, OPEN_PAREN) then FromArithmetic(lex, raw, i + 3, line)
            else Then(FromSubstitution(lex, raw, i + 1, line),
                      FromArithmetic(lex, raw, SubstEnd(raw, i + 1), line))
  {
    hide NeverLonger, FromSubstitution, SubstEnd;
  }

  // --------------------------------------------------------------------- whole stretches

  /** A unit `$(...)` or `$((...))` gives what its piece gives. */
  lemma {:induction false} UnitGives(lex: Lexer, raw: Bytes, i: nat, p: Piece, where: Context, line: nat)
    requires NeverLonger(lex) && At(raw, i, Spell(p)) && Good(p, where)
    requires p.Command? || (p.Arithmetic? && !where.InArithmetic?)
    ensures ByteAt(raw, i, DOLLAR) && ByteAt(raw, i + 1, OPEN_PAREN)
    ensures FromSubstitution(lex, raw, i + 1, line) == Gives(lex, p, where, line)
    ensures SubstEnd(raw, i + 1) == i + |Spell(p)|
    decreases p, 1
  {
    hide NeverLonger, At, Spell, FromSubstitution, FromArithmetic, SubstEnd, Collected, Closes, AllGive;
    if p.Command? {
      SubstitutionGives(lex, raw, i, p, line);
      CommandAt(raw, i, p);
    } else {
      ArithmeticUnit(lex, raw, i, p, line);
      ArithmeticAt(raw, i, p);
      var text := SpellAll(p.parts);
      WholeAt(text);
      ArithmeticGives(lex, text, 0, p.parts, line);
      ArithmeticEnds(lex, text, line);
      ThenNothing(AllGive(lex, p.parts, InArithmetic, line));
    }
  }

  lemma WholeAt(text: Bytes)
    ensures At(text, 0, text)
  {
    assert text[0..|text|] == text;
  }

  lemma ArithmeticEnds(lex: Lexer, text: Bytes, line: nat)
    requires NeverLonger(lex)
    ensures FromArithmetic(lex, text, |text|, line) == NOTHING
  {
  }

  /** The body of quotes gives what its parts give, and ends where they end. */
  lemma {:induction false} BodyGives(lex: Lexer, raw: Bytes, i: nat, p: Piece, line: nat)
    requires NeverLonger(lex) && At(raw, i, Spell(p))
    requires (p.Quoted? && AllGood(p.parts, InQuotes)) || (p.Locale? && AllGood(p.parts, InString))
    ensures var where, a, b := if p.Quoted? then InQuotes else InString, i + |Opener(p)|, i + |Spell(p)| - 1;
            && a <= b < |raw| && raw[b] == QUOTE && BodyEnd(raw, a) == b && raw[a..b] == SpellAll(p.parts)
            && FromQuoted(lex, raw, a, line, p.Quoted?) == AllGive(lex, p.parts, where, line)
    decreases p, 1
  {
    hide NeverLonger, At, FromQuoted, BodyEnd, AllGive, SpellAll, AllGood, Spell;
    PieceAt(raw, i, p);
    var a := i + |Opener(p)|;
    var b := a + |SpellAll(p.parts)|;
    AtByte(raw, b, Closer(p), 0);
    var where := if p.Quoted? then InQuotes else InString;
    AtIsSlice(raw, a, SpellAll(p.parts));
    QuotedGives(lex, raw, a, p.parts, where, line);
    QuotedEnds(lex, raw, b, line, p.Quoted?);
    ThenNothing(AllGive(lex, p.parts, where, line));
  }

  /** The word of a `${...}` gives what its parts give. */
  lemma {:induction false} BraceGives(lex: Lexer, p: Piece, line: nat)
    requires NeverLonger(lex) && p.Brace? && AllGood(p.parts, InWord)
    ensures FromWord(lex, SpellAll(p.parts), 0, line) == AllGive(lex, p.parts, InWord, line)
    decreases p, 1
  {
    hide NeverLonger, FromWord, AllGive, SpellAll, AllGood;
    WholeAt(SpellAll(p.parts));
    WordGives(lex, SpellAll(p.parts), 0, p.parts, line);
    WordEnds(lex, SpellAll(p.parts), line);
    ThenNothing(AllGive(lex, p.parts, InWord, line));
  }

  lemma {:induction false} WordPiece(lex: Lexer, raw: Bytes, i: nat, p: Piece, line: nat)
    requires NeverLonger(lex) && At(raw, i, Spell(p)) && Good(p, InWord)
    ensures FromWord(lex, raw, i, line) == Then(Gives(lex, p, InWord, line), FromWord(lex, raw, i + |Spell(p)|, line))
    decreases p, 2
  {
    hide NeverLonger, At, Spell, SpellAll, FromWord, FromQuoted, FromSubstitution, BodyEnd, BraceEnd, BraceBody,
      SubstEnd, AllGive, Collected, Closes;
    match p {
      case Quoted(parts) =>
        OpenerAt(raw, i, p);
        BodyGives(lex, raw, i, p, line);
        WordAtQuote(lex, raw, i, line);
      case Locale(parts) =>
        OpenerAt(raw, i, p);
        BodyGives(lex, raw, i, p, line);
        WordAtString(lex, raw, i, line);
      case Brace(parts) =>
        BraceAt(raw, i, p);
        BraceGives(lex, p, line);
        WordAtBrace(lex, raw, i, line);
      case Command(_) =>
        UnitGives(lex, raw, i, p, InWord, line);
        WordAtCommand(lex, raw, i, line);
      case Arithmetic(_) =>
        UnitGives(lex, raw, i, p, InWord, line);
        WordAtCommand(lex, raw, i, line);
      case _ =>
        WordPasses(lex, raw, i, p, line);
        ThenNothing(FromWord(lex, raw, i + |Spell(p)|, line));
    }
  }

  lemma OpenerAt(raw: Bytes, i: nat, p: Piece)
    requires At(raw, i, Spell(p))
    ensures p.Quoted? ==> ByteAt(raw, i, QUOTE)
    ensures p.Locale? ==> ByteAt(raw, i, DOLLAR) && ByteAt(raw, i + 1, QUOTE)
    ensures p.Arithmetic? ==> ByteAt(raw, i, DOLLAR) && ByteAt(raw, i + 1, OPEN_PAREN) && ByteAt(raw, i + 2, OPEN_PAREN)
  {
    hide At, Spell;
    PieceAt(raw, i, p);
    var n := |Opener(p)|;
    if n > 0 {
      AtByte(raw, i, Opener(p), 0);
    }
    if n > 1 {
      AtByte(raw, i, Opener(p), 1);
    }
    if n > 2 {
      AtByte(raw, i, Opener(p), 2);
    }
  }

  lemma {:induction false} QuotedPiece(lex: Lexer, raw: Bytes, i: nat, p: Piece, where: Context, line: nat)
    requires NeverLonger(lex) && At(raw, i, Spell(p)) && QuotedContext(where) && Good(p, where)
    ensures i + |Spell(p)| <= |raw|
    ensures FromQuoted(lex, raw, i, line, where.InQuotes?)
         == Then(Gives(lex, p, where, line), FromQuoted(lex, raw, i + |Spell(p)|, line, where.InQuotes?))
    ensures BodyEnd(raw, i) == BodyEnd(raw, i + |Spell(p)|)
    decreases p, 2
  {
    hide NeverLonger, At, Spell, SpellAll, FromWord, FromQuoted, FromSubstitution, BodyEnd, BraceEnd, BraceBody,
      SubstEnd, AllGive, Collected, Closes;
    AtWithin(raw, i, Spell(p));
    if p.Brace? {
      BraceAt(raw, i, p);
      BraceGives(lex, p, line);
      QuotedAtBrace(lex, raw, i, line, where.InQuotes?);
    } else if p.Command? || p.Arithmetic? {
      UnitGives(lex, raw, i, p, where, line);
      QuotedAtCommand(lex, raw, i, line, where.InQuotes?);
    } else if p.Plain? || p.Dollar? || p.Escaped? || p.Back? {
      QuotedPasses(lex, raw, i, p, where, line);
      ThenNothing(FromQuoted(lex, raw, i + |Spell(p)|, line, where.InQuotes?));
    }
  }

  lemma {:induction false} ArithmeticPiece(lex: Lexer, raw: Bytes, i: nat, p: Piece, line: nat)
    requires NeverLonger(lex) && At(raw, i, Spell(p)) && Good(p, InArithmetic)
    ensures FromArithmetic(lex, raw, i, line)
         == Then(Gives(lex, p, InArithmetic, line), FromArithmetic(lex, raw, i + |Spell(p)|, line))
    decreases p, 2
  {
    hide NeverLonger, At, Spell, SpellAll, FromWord, FromArithmetic, FromQuoted, FromSubstitution, BodyEnd,
      SubstEnd, AllGive, Collected, Closes;
    match p {
      case Quoted(parts) =>
        OpenerAt(raw, i, p);
        BodyGives(lex, raw, i, p, line);
        ArithmeticAtQuote(lex, raw, i, line);
      case Locale(parts) =>
        OpenerAt(raw, i, p);
        BodyGives(lex, raw, i, p, line);
        ArithmeticAtString(lex, raw, i, line);
      case Command(_) =>
        UnitGives(lex, raw, i, p, InArithmetic, line);
        CommandAt(raw, i, p);
        ArithmeticAtCommand(lex, raw, i, line);
      case Arithmetic(parts) =>
        OpenerAt(raw, i, p);
        ArithmeticAtCommand(lex, raw, i, line);
        ArithmeticBytes(raw, i, p);
        var b := i + 3 + |SpellAll(parts)|;
        ArithmeticGives(lex, raw, i + 3, parts, line);
        ClosersPass(lex, raw, b, line);
      case Brace(_) =>
      case Single(_) =>
      case Ansi(_) =>
      case _ =>
        ArithmeticPasses(lex, raw, i, p, line);
        ThenNothing(FromArithmetic(lex, raw, i + |Spell(p)|, line));
    }
  }

  lemma ClosersPass(lex: Lexer, raw: Bytes, b: nat, line: nat)
    requires NeverLonger(lex) && At(raw, b, [CLOSE_PAREN]) && At(raw, b + 1, [CLOSE_PAREN])
    ensures FromArithmetic(lex, raw, b, line) == FromArithmetic(lex, raw, b + 2, line)
  {
    hide NeverLonger, At;
    ArithmeticPastInert(lex, raw, b, [CLOSE_PAREN], line);
    ArithmeticPastInert(lex, raw, b + 1, [CLOSE_PAREN], line);
  }

  lemma {:induction false} WordGives(lex: Lexer, raw: Bytes, i: nat, ps: seq<Piece>, line: nat)
    requires NeverLonger(lex) && At(raw, i, SpellAll(ps)) && AllGood(ps, InWord)
    ensures FromWord(lex, raw, i, line)
         == Then(AllGive(lex, ps, InWord, line), FromWord(lex, raw, i + |SpellAll(ps)|, line))
    decreases ps, 0
  {
    hide NeverLonger, At, Spell, FromWord, Gives, Good;
    if ps == [] {
      ThenNothing(FromWord(lex, raw, i, line));
    } else {
      AtBoth(raw, i, Spell(ps[0]), SpellAll(ps[1..]));
      var next := i + |Spell(ps[0])|;
      WordPiece(lex, raw, i, ps[0], line);
      WordGives(lex, raw, next, ps[1..], line);
      ThenTwice(Gives(lex, ps[0], InWord, line), AllGive(lex, ps[1..], InWord, line),
                FromWord(lex, raw, i + |SpellAll(ps)|, line));
    }
  }

  lemma {:induction false} QuotedGives(lex: Lexer, raw: Bytes, i: nat, ps: seq<Piece>, where: Context, line: nat)
    requires NeverLonger(lex) && At(raw, i, SpellAll(ps)) && QuotedContext(where) && AllGood(ps, where)
    ensures i + |SpellAll(ps)| <= |raw|
    ensures FromQuoted(lex, raw, i, line, where.InQuotes?)
         == Then(AllGive(lex, ps, where, line), FromQuoted(lex, raw, i + |SpellAll(ps)|, line, where.InQuotes?))
    ensures BodyEnd(raw, i) == BodyEnd(raw, i + |SpellAll(ps)|)
    decreases ps, 0
  {
    hide NeverLonger, At, Spell, FromQuoted, BodyEnd, Gives, Good;
    AtWithin(raw, i, SpellAll(ps));
    if ps == [] {
      ThenNothing(FromQuoted(lex, raw, i, line, where.InQuotes?));
    } else {
      AtBoth(raw, i, Spell(ps[0]), SpellAll(ps[1..]));
      var next := i + |Spell(ps[0])|;
      QuotedPiece(lex, raw, i, ps[0], where, line);
      QuotedGives(lex, raw, next, ps[1..], where, line);
      ThenTwice(Gives(lex, ps[0], where, line), AllGive(lex, ps[1..], where, line),
                FromQuoted(lex, raw, i + |SpellAll(ps)|, line, where.InQuotes?));
    }
  }

  lemma {:induction false} ArithmeticGives(lex: Lexer, raw: Bytes, i: nat, ps: seq<Piece>, line: nat)
    requires NeverLonger(lex) && At(raw, i, SpellAll(ps)) && AllGood(ps, InArithmetic)
    ensures FromArithmetic(lex, raw, i, line)
         == Then(AllGive(lex, ps, InArithmetic, line), FromArithmetic(lex, raw, i + |SpellAll(ps)|, line))
    decreases ps, 0
  {
    hide NeverLonger, At, Spell, FromArithmetic, Gives, Good;
    if ps == [] {
      ThenNothing(FromArithmetic(lex, raw, i, line));
    } else {
      AtBoth(raw, i, Spell(ps[0]), SpellAll(ps[1..]));
      var next := i + |Spell(ps[0])|;
      ArithmeticPiece(lex, raw, i, ps[0], line);
      ArithmeticGives(lex, raw, next, ps[1..], line);
      ThenTwice(Gives(lex, ps[0], InArithmetic, line), AllGive(lex, ps[1..], InArithmetic, line),
                FromArithmetic(lex, raw, i + |SpellAll(ps)|, line));
    }
  }

  // ------------------------------------------------------------------------ whole words

  /** From a word of pieces the scan collects exactly what the pieces give, in order, units within units included. */
  lemma PiecesGiveTheirStrings(lex: Lexer, ps: seq<Piece>, line: nat)
    requires NeverLonger(lex) && AllGood(ps, InWord)
    ensures FromWord(lex, SpellAll(ps), 0, line) == AllGive(lex, ps, InWord, line)
  {
    hide NeverLonger, FromWord, AllGive, SpellAll, AllGood;
    WholeAt(SpellAll(ps));
    WordGives(lex, SpellAll(ps), 0, ps, line);
    WordEnds(lex, SpellAll(ps), line);
    ThenNothing(AllGive(lex, ps, InWord, line));
  }

  lemma {:induction false} PiecesJoin(lex: Lexer, ps: seq<Piece>, qs: seq<Piece>, where: Context, line: nat)
    requires NeverLonger(lex)
    ensures SpellAll(ps + qs) == SpellAll(ps) + SpellAll(qs)
    ensures AllGood(ps + qs, where) <==> AllGood(ps, where) && AllGood(qs, where)
    ensures AllGive(lex, ps + qs, where, line) == Then(AllGive(lex, ps, where, line), AllGive(lex, qs, where, line))
    decreases |ps|
  {
    hide NeverLonger, Spell, Good, Gives;
    if ps == [] {
      assert ps + qs == qs && [] + SpellAll(qs) == SpellAll(qs);
      ThenNothing(AllGive(lex, qs, where, line));
    } else {
      assert (ps + qs)[0] == ps[0] && (ps + qs)[1..] == ps[1..] + qs;
      PiecesJoin(lex, ps[1..], qs, where, line);
      assert Spell(ps[0]) + (SpellAll(ps[1..]) + SpellAll(qs)) == Spell(ps[0]) + SpellAll(ps[1..]) + SpellAll(qs);
      ThenTwice(Gives(lex, ps[0], where, line), AllGive(lex, ps[1..], where, line), AllGive(lex, qs, where, line));
    }
  }

  lemma OnePiece(lex: Lexer, p: Piece, where: Context, line: nat)
    requires NeverLonger(lex)
    ensures SpellAll([p]) == Spell(p) && (AllGood([p], where) <==> Good(p, where))
    ensures AllGive(lex, [p], where, line) == Gives(lex, p, where, line)
  {
    hide NeverLonger, Spell, Good, Gives;
    var none: seq<Piece> := [];
    assert [p][1..] == none && SpellAll(none) == [] && Spell(p) + [] == Spell(p);
    ThenNothing(Gives(lex, p, where, line));
  }

  /** One piece between others: the strings in front of it, its own, and those behind it. */
  lemma AroundPiece(lex: Lexer, before: seq<Piece>, p: Piece, after: seq<Piece>, where: Context, line: nat)
    requires NeverLonger(lex) && AllGood(before, where) && Good(p, where) && AllGood(after, where)
    ensures AllGood(before + ([p] + after), where)
    ensures SpellAll(before + ([p] + after)) == SpellAll(before) + (Spell(p) + SpellAll(after))
    ensures AllGive(lex, before + ([p] + after), where, line)
         == Then(AllGive(lex, before, where, line), Then(Gives(lex, p, where, line), AllGive(lex, after, where, line)))
  {
    hide NeverLonger, Spell, SpellAll, Good, AllGood, Gives, AllGive;
    OnePiece(lex, p, where, line);
    PiecesJoin(lex, [p], after, where, line);
    PiecesJoin(lex, before, [p] + after, where, line);
  }

  /** A closed `$(script)` in a word gives the strings of its script between those in front of it and behind it. */
  lemma SubstitutionInWord(lex: Lexer, before: seq<Piece>, script: Bytes, after: seq<Piece>, line: nat)
    requires NeverLonger(lex) && AllGood(before, InWord) && AllGood(after, InWord)
    requires !ByteAt(script, 0, OPEN_PAREN) && Closes(script, OPEN_PAREN, CLOSE_PAREN)
    ensures var raw := SpellAll(before) + ([DOLLAR, OPEN_PAREN] + script + [CLOSE_PAREN] + SpellAll(after));
            FromWord(lex, raw, 0, line) ==
            Then(AllGive(lex, before, InWord, line),
                Then(Collected(lex, script, line), AllGive(lex, after, InWord, line)))
  {
    var p := Command(script);
    assert Spell(p) == [DOLLAR, OPEN_PAREN] + script + [CLOSE_PAREN];
    assert Gives(lex, p, InWord, line) == Collected(lex, script, line) && Good(p, InWord);
    hide NeverLonger, Spell, SpellAll, Good, AllGood, Gives, AllGive, FromWord, Collected, Closes;
    AroundPiece(lex, before, p, after, InWord, line);
    PiecesGiveTheirStrings(lex, before + ([p] + after), line);
  }

  /** The same inside double quotes. */
  lemma SubstitutionInQuotes(lex: Lexer, before: seq<Piece>, script: Bytes, after: seq<Piece>, line: nat)
    requires NeverLonger(lex) && AllGood(before, InQuotes) && AllGood(after, InQuotes)
    requires !ByteAt(script, 0, OPEN_PAREN) && Closes(script, OPEN_PAREN, CLOSE_PAREN)
    ensures var text := SpellAll(before) + ([DOLLAR, OPEN_PAREN] + script + [CLOSE_PAREN] + SpellAll(after));
            FromWord(lex, [QUOTE] + text + [QUOTE], 0, line) ==
            Then(AllGive(lex, before, InQuotes, line),
                 Then(Collected(lex, script, line), AllGive(lex, after, InQuotes, line)))
  {
    var p := Command(script);
    assert Spell(p) == [DOLLAR, OPEN_PAREN] + script + [CLOSE_PAREN];
    assert Gives(lex, p, InQuotes, line) == Collected(lex, script, line) && Good(p, InQuotes);
    hide SpellAll, AllGood, AllGive, FromWord, Collected, Closes;
    AroundPiece(lex, before, p, after, InQuotes, line);
    var quoted := Quoted(before + ([p] + after));
    assert Spell(quoted) == [QUOTE] + SpellAll(quoted.parts) + [QUOTE];
    OnePiece(lex, quoted, InWord, line);
    PiecesGiveTheirStrings(lex, [quoted], line);
  }

  /** A `${word}` gives the strings of its word, in a word and inside double quotes alike. */
  lemma BraceInWord(lex: Lexer, word: seq<Piece>, quotes: bool, line: nat)
    requires NeverLonger(lex) && AllGood(word, InWord) && Closes(SpellAll(word), OPEN_BRACE, CLOSE_BRACE)
    ensures var raw := [DOLLAR, OPEN_BRACE] + SpellAll(word) + [CLOSE_BRACE];
            FromWord(lex, if quotes then [QUOTE] + raw + [QUOTE] else raw, 0, line) ==
            FromWord(lex, SpellAll(word), 0, line)
  {
    var p := Brace(word);
    assert Spell(p) == [DOLLAR, OPEN_BRACE] + SpellAll(word) + [CLOSE_BRACE];
    var where := if quotes then InQuotes else InWord;
    assert Gives(lex, p, where, line) == AllGive(lex, word, InWord, line) && Good(p, where);
    hide SpellAll, AllGood, AllGive, FromWord, Closes;
    PiecesGiveTheirStrings(lex, word, line);
    OnePiece(lex, p, where, line);
    if quotes {
      var quoted := Quoted([p]);
      assert Spell(quoted) == [QUOTE] + SpellAll(quoted.parts) + [QUOTE];
      OnePiece(lex, quoted, InWord, line);
      PiecesGiveTheirStrings(lex, [quoted], line);
    } else {
      PiecesGiveTheirStrings(lex, [p], line);
    }
  }

  /** A locale string around a `$(script)` gives the strings of the script first and then its own body. */
  lemma SubstitutionInString(lex: Lexer, before: seq<Piece>, script: Bytes, after: seq<Piece>, line: nat)
    requires NeverLonger(lex) && AllGood(before, InString) && AllGood(after, InString)
    requires !ByteAt(script, 0, OPEN_PAREN) && Closes(script, OPEN_PAREN, CLOSE_PAREN)
    ensures var text := SpellAll(before) + ([DOLLAR, OPEN_PAREN] + script + [CLOSE_PAREN] + SpellAll(after));
            FromWord(lex, [DOLLAR, QUOTE] + text + [QUOTE], 0, line) ==
            Then(Then(AllGive(lex, before, InString, line),
                      Then(Collected(lex, script, line), AllGive(lex, after, InString, line))),
                 Some([Entry(line, text)]))
  {
    var p := Command(script);
    assert Spell(p) == [DOLLAR, OPEN_PAREN] + script + [CLOSE_PAREN];
    assert Gives(lex, p, InString, line) == Collected(lex, script, line) && Good(p, InString);
    hide SpellAll, AllGood, AllGive, FromWord, Collected, Closes;
    AroundPiece(lex, before, p, after, InString, line);
    var whole := Locale(before + ([p] + after));
    assert Spell(whole) == [DOLLAR, QUOTE] + SpellAll(whole.parts) + [QUOTE];
    OnePiece(lex, whole, InWord, line);
    PiecesGiveTheirStrings(lex, [whole], line);
  }

  /** A `$(` that is never closed gives nothing, and nothing behind it is read. */
  lemma UnclosedGivesNothing(lex: Lexer, before: seq<Piece>, rest: Bytes, line: nat)
    requires NeverLonger(lex) && AllGood(before, InWord)
    requires ParenClose([OPEN_PAREN] + rest, 0).None?
    ensures FromWord(lex, SpellAll(before) + ([DOLLAR, OPEN_PAREN] + rest), 0, line)
          == AllGive(lex, before, InWord, line)
  {
    hide NeverLonger, SpellAll, AllGood, AllGive, FromWord, ParenClose, Collected;
    var raw := SpellAll(before) + ([DOLLAR, OPEN_PAREN] + rest);
    var n := |SpellAll(before)|;
    WholeAt(raw);
    AtBoth(raw, 0, SpellAll(before), [DOLLAR, OPEN_PAREN] + rest);
    WordGives(lex, raw, 0, before, line);
    assert raw[n] == DOLLAR && raw[n + 1] == OPEN_PAREN && raw[n + 1..] == [OPEN_PAREN] + rest;
    UnclosedStays(raw, n + 1);
    WordAtCommand(lex, raw, n, line);
    WordEnds(lex, raw, line);
    ThenNothing(NOTHING);
    ThenNothing(AllGive(lex, before, InWord, line));
  }

  lemma UnclosedStays(raw: Bytes, i: nat)
    requires ByteAt(raw, i, OPEN_PAREN) && ParenClose(raw[i..], 0).None?
    ensures ParenClose(raw, i).None?
  {
    hide CloseOf;
    var tail := raw[i..];
    var n := |tail|;
    assert tail[1..n] == raw[i + 1..i + n];
    if ParenClose(raw, i).Some? {
      CloseIsLocal(raw, i + 1, tail, 1, n - 1, OPEN_PAREN, CLOSE_PAREN, 1);
    }
  }

  // ------------------------------------------------------------------- balanced brackets

  /** Every `close` in the text has its `open`, and the other way round, with `depth` of them open in front. */
  predicate Balanced(text: Bytes, open: Byte, close: Byte, depth: nat) {
    if text == [] then depth == 0
    else if text[0] == open then Balanced(text[1..], open, close, depth + 1)
    else if text[0] == close then depth > 0 && Balanced(text[1..], open, close, depth - 1)
    else Balanced(text[1..], open, close, depth)
  }

  lemma {:induction false} BalancedCloses(text: Bytes, i: nat, open: Byte, close: Byte, depth: nat)
    requires open != close && Bracket(open) && Bracket(close) && (forall k :: 0 <= k < |text| ==> Bracket(text[k]))
    requires i <= |text|
    ensures CloseOf(text + [close], i, open, close, depth + 1) == Some(|text|) <==>
            Balanced(text[i..], open, close, depth)
    decreases |text| - i
  {
    var all := text + [close];
    if i < |text| {
      assert all[i] == text[i] == text[i..][0] && text[i..][1..] == text[i + 1..] && Bracket(text[i]);
      assert NextUnit(all, i) == i + 1;
      hide NextUnit;
      if text[i] == open {
        BalancedCloses(text, i + 1, open, close, depth + 1);
      } else if text[i] == close {
        if depth > 0 {
          BalancedCloses(text, i + 1, open, close, depth - 1);
        }
      } else {
        BalancedCloses(text, i + 1, open, close, depth);
      }
    } else {
      assert all[i] == close && NextUnit(all, i) == i + 1;
      assert depth > 0 ==> CloseOf(all, i + 1, open, close, depth) == None;
    }
  }

  /** In a text without quotes and backslashes the brackets close behind it exactly when they are balanced. */
  lemma ClosesExactlyWhenBalanced(text: Bytes, open: Byte, close: Byte)
    requires open != close && Bracket(open) && Bracket(close) && (forall k :: 0 <= k < |text| ==> Bracket(text[k]))
    ensures Closes(text, open, close) <==> Balanced(text, open, close, 0)
  {
    assert text[0..] == text;
    BalancedCloses(text, 0, open, close, 0);
  }

  // ------------------------------------------------------------------------ whole scripts

  /** A token of the script, as it is spelled. */
  datatype Item =
    | WordItem(pieces: seq<Piece>)
    | ArithmeticCommand(pieces: seq<Piece>)
    | Group(script: Bytes)
    | Unit(piece: Piece)
    | Other

  predicate SpelledAs(token: Token, item: Item) {
    match item
    case WordItem(pieces) => IsWordLike(token.kind) && AllGood(pieces, InWord) && token.raw == SpellAll(pieces)
    case ArithmeticCommand(pieces) =>
      && token.kind.Keyword? && AllGood(pieces, InArithmetic)
      && token.raw == [OPEN_PAREN, OPEN_PAREN] + SpellAll(pieces) + [CLOSE_PAREN, CLOSE_PAREN]
    case Group(script) => token.kind.Keyword? && script != [] && token.raw == [OPEN_BRACE] + script + [CLOSE_BRACE]
    case Unit(p) =>
      token.kind.CommandSubst? && (p.Command? || p.Arithmetic?) && Good(p, InWord) && token.raw == Spell(p)
    case Other =>
      || token.kind.OtherKind?
      || (token.kind.Keyword? && !IsArithmeticCommand(token.raw) && !IsBraceGroup(token.raw))
      || (token.kind.CommandSubst? && !(ByteAt(token.raw, 0, DOLLAR) && ByteAt(token.raw, 1, OPEN_PAREN)))
  }

  ghost function ItemGives(lex: Lexer, item: Item, line: nat): Found
    requires NeverLonger(lex)
  {
    match item
    case WordItem(pieces) => AllGive(lex, pieces, InWord, line)
    case ArithmeticCommand(pieces) => AllGive(lex, pieces, InArithmetic, line)
    case Group(script) => Collected(lex, script, line)
    case Unit(p) => Gives(lex, p, InWord, line)
    case Other => NOTHING
  }

  lemma ArithmeticCommandGives(lex: Lexer, token: Token, pieces: seq<Piece>, line: nat)
    requires NeverLonger(lex) && SpelledAs(token, ArithmeticCommand(pieces))
    ensures FromToken(lex, token, line) == AllGive(lex, pieces, InArithmetic, line)
  {
    hide NeverLonger, FromArithmetic, AllGive, SpellAll, AllGood;
    var text := SpellAll(pieces);
    assert token.raw[2..|token.raw| - 2] == text;
    assert IsArithmeticCommand(token.raw);
    WholeAt(text);
    ArithmeticGives(lex, text, 0, pieces, line);
    ArithmeticEnds(lex, text, line);
    ThenNothing(AllGive(lex, pieces, InArithmetic, line));
  }

  lemma GroupGives(lex: Lexer, token: Token, script: Bytes, line: nat)
    requires NeverLonger(lex) && SpelledAs(token, Group(script))
    ensures FromToken(lex, token, line) == Collected(lex, script, line)
  {
    hide NeverLonger, Collected;
    assert token.raw[1..|token.raw| - 1] == script;
  }

  lemma UnitTokenGives(lex: Lexer, token: Token, p: Piece, line: nat)
    requires NeverLonger(lex) && SpelledAs(token, Unit(p))
    ensures FromToken(lex, token, line) == Gives(lex, p, InWord, line)
  {
    hide NeverLonger, Gives, Spell, Good, FromSubstitution, SubstEnd;
    WholeAt(token.raw);
    UnitGives(lex, token.raw, 0, p, InWord, line);
  }

  lemma TokenGives(lex: Lexer, token: Token, item: Item, line: nat)
    requires NeverLonger(lex) && SpelledAs(token, item)
    ensures FromToken(lex, token, line) == ItemGives(lex, item, line)
  {
    hide NeverLonger, Gives, Spell, Good, AllGood, AllGive, SpellAll, FromWord, Collected;
    match item {
      case WordItem(pieces) => PiecesGiveTheirStrings(lex, pieces, line);
      case ArithmeticCommand(pieces) => ArithmeticCommandGives(lex, token, pieces, line);
      case Group(script) => GroupGives(lex, token, script, line);
      case Unit(p) => UnitTokenGives(lex, token, p, line);
      case Other =>
    }
  }

  /** What the tokens of a script give from the k-th on, each on its own line. */
  ghost function ItemsGive(lex: Lexer, input: Bytes, items: seq<Item>, k: nat, baseLine: nat): Found
    requires NeverLonger(lex) && |items| == |lex(input)| && k <= |items|
    decreases |items| - k
  {
    if k == |items| then NOTHING
    else
      // Lines are counted from 1, and a position of 0 is on the first one too.
      var position := lex(input)[k].position;
      var line := if position <= 1 then baseLine else baseLine + position - 1;
      Then(ItemGives(lex, items[k], line), ItemsGive(lex, input, items, k + 1, baseLine))
  }

  lemma {:induction false} ItemsFrom(lex: Lexer, input: Bytes, items: seq<Item>, k: nat, baseLine: nat)
    requires NeverLonger(lex) && |items| == |lex(input)| && k <= |items|
    requires forall j :: 0 <= j < |items| ==> SpelledAs(lex(input)[j], items[j])
    ensures FromTokens(lex, input, k, baseLine) == ItemsGive(lex, input, items, k, baseLine)
    decreases |items| - k
  {
    hide NeverLonger, FromToken, ItemGives, SpelledAs;
    if k < |items| {
      TokenGives(lex, lex(input)[k], items[k], LineOf(lex(input)[k], baseLine));
      ItemsFrom(lex, input, items, k + 1, baseLine);
    }
  }

  /** From a script the scan collects, token by token, what the pieces of its words and units give. */
  lemma ScriptGivesItsStrings(lex: Lexer, input: Bytes, items: seq<Item>, baseLine: nat)
    requires NeverLonger(lex) && |items| == |lex(input)|
    requires forall j :: 0 <= j < |items| ==> SpelledAs(lex(input)[j], items[j])
    ensures Collected(lex, input, baseLine) == ItemsGive(lex, input, items, 0, baseLine)
  {
    hide NeverLonger, FromTokens, ItemsGive, SpelledAs;
    ItemsFrom(lex, input, items, 0, baseLine);
  }
}
