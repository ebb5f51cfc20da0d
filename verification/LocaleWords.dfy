/**
 The locale strings of a single word without backquotes, `${...}` and `$(...)` (src/locale.rs): the scan finds
 exactly what a reader of the word's quotes finds, byte by byte.
 */
module LocaleWords {
  import opened Utf8
  import opened Wrappers
  import opened LocaleUnits
  import opened LocaleScanner

  /** What a reader of the word is inside of: nothing (behind a `$`, or a backslash), single quotes, `$'...'`,
      double quotes, or a locale string from `start` on. */
  datatype Reader =
    | Outside | Dollar | OutsideEscape
    | Single
    | Ansi | AnsiEscape
    | Double | DoubleEscape
    | Locale(start: nat) | LocaleEscape(start: nat)

  function ReadOutside(b: Byte): Reader {
    if b == APOSTROPHE then Single
    else if b == QUOTE then Double
    else if b == BACKSLASH then OutsideEscape
    else if b == DOLLAR then Dollar
    else Outside
  }

  /** The reader behind byte `b`, which is at `i`. */
  function Read(r: Reader, b: Byte, i: nat): Reader {
    match r
    case Outside => ReadOutside(b)
    case Dollar => if b == QUOTE then Locale(i + 1) else if b == APOSTROPHE then Ansi else ReadOutside(b)
    case OutsideEscape => Outside
    case Single => if b == APOSTROPHE then Outside else Single
    case Ansi => if b == APOSTROPHE then Outside else if b == BACKSLASH then AnsiEscape else Ansi
    case AnsiEscape => Ansi
    case Double => if b == QUOTE then Outside else if b == BACKSLASH then DoubleEscape else Double
    case DoubleEscape => Double
    case Locale(s) => if b == QUOTE then Outside else if b == BACKSLASH then LocaleEscape(s) else r
    case LocaleEscape(s) => Locale(s)
  }

  predicate StartsWithin(r: Reader, i: nat) { (r.Locale? || r.LocaleEscape?) ==> r.start <= i }

  /** The strings a reader finds from `i` on; one that is not closed ends with the word. */
  function Strings(raw: Bytes, i: nat, r: Reader, line: nat): seq<Entry>
    requires i <= |raw| && StartsWithin(r, i)
    decreases |raw| - i
  {
    if i == |raw| then if r.Locale? || r.LocaleEscape? then [Entry(line, raw[r.start..])] else []
    else
      var more := Strings(raw, i + 1, Read(r, raw[i], i), line);
      if r.Locale? && raw[i] == QUOTE then [Entry(line, raw[r.start..i])] + more else more
  }

  /** No backquote, and no `$` in front of a brace or a parenthesis. */
  predicate Unnested(raw: Bytes) {
    forall p :: 0 <= p < |raw| ==> raw[p] != BACKQUOTE && !(raw[p] == DOLLAR && OpensUnit(raw, p + 1))
  }

  predicate OpensUnit(raw: Bytes, p: nat) { p < |raw| && (raw[p] == OPEN_BRACE || raw[p] == OPEN_PAREN) }

  lemma {:induction false} ReadsSingle(raw: Bytes, i: nat, line: nat)
    requires i <= |raw|
    ensures Strings(raw, i, Single, line) == Strings(raw, SingleEnd(raw, i), Outside, line)
    decreases |raw| - i
  {
    if i < |raw| && raw[i] != APOSTROPHE {
      ReadsSingle(raw, i + 1, line);
    }
  }

  lemma {:induction false} ReadsAnsi(raw: Bytes, i: nat, line: nat)
    requires i <= |raw|
    ensures Strings(raw, i, Ansi, line) == Strings(raw, EscapedEnd(raw, i, APOSTROPHE), Outside, line)
    decreases |raw| - i
  {
    if i < |raw| && raw[i] == BACKSLASH {
      if i + 1 < |raw| {
        ReadsAnsi(raw, i + 2, line);
      }
    } else if i < |raw| && raw[i] != APOSTROPHE {
      ReadsAnsi(raw, i + 1, line);
    }
  }

  /** A body without nested units ends at the next quote that no backslash quotes. */
  lemma BodyStep(raw: Bytes, i: nat)
    requires i <= |raw| && Unnested(raw)
    ensures BodyEnd(raw, i) ==
            if i == |raw| || raw[i] == QUOTE then i
            else if raw[i] == BACKSLASH then BodyEnd(raw, Min(i + 2, |raw|))
            else BodyEnd(raw, i + 1)
  {
    if i < |raw| {
      NoUnitHere(raw, i);
    }
  }

  lemma {:induction false} ReadsDouble(raw: Bytes, i: nat, line: nat)
    requires i <= |raw| && Unnested(raw)
    ensures Strings(raw, i, Double, line) == Strings(raw, PastQuote(raw, BodyEnd(raw, i)), Outside, line)
    decreases |raw| - i
  {
    if i < |raw| && raw[i] == BACKSLASH {
      if i + 1 < |raw| {
        ReadsDouble(raw, i + 2, line);
      }
    } else if i < |raw| && raw[i] != QUOTE {
      ReadsDouble(raw, i + 1, line);
    }
  }

  /** How a reader goes on inside a locale string. */
  lemma LocaleStep(raw: Bytes, i: nat, start: nat, line: nat)
    requires start <= i < |raw|
    ensures Strings(raw, i, Locale(start), line) ==
            if raw[i] == QUOTE then [Entry(line, raw[start..i])] + Strings(raw, i + 1, Outside, line)
            else if raw[i] == BACKSLASH then Strings(raw, Min(i + 2, |raw|), Locale(start), line)
            else Strings(raw, i + 1, Locale(start), line)
  {
    if raw[i] == BACKSLASH {
      assert Strings(raw, i + 1, LocaleEscape(start), line) == Strings(raw, Min(i + 2, |raw|), Locale(start), line);
    }
  }

  lemma LocaleAtEnd(raw: Bytes, start: nat, line: nat)
    requires start <= |raw|
    ensures Strings(raw, |raw|, Locale(start), line) ==
            [Entry(line, raw[start..|raw|])] + Strings(raw, |raw|, Outside, line)
  {
    assert raw[start..] == raw[start..|raw|];
  }

  lemma {:induction false} ReadsLocale(raw: Bytes, i: nat, start: nat, line: nat)
    requires start <= i <= |raw| && Unnested(raw)
    ensures var end := BodyEnd(raw, i);
            Strings(raw, i, Locale(start), line) ==
            [Entry(line, raw[start..end])] + Strings(raw, PastQuote(raw, end), Outside, line)
    decreases |raw| - i
  {
    hide Strings, Unnested, BodyEnd;
    BodyStep(raw, i);
    if i == |raw| {
      LocaleAtEnd(raw, start, line);
    } else {
      LocaleStep(raw, i, start, line);
      if raw[i] == BACKSLASH {
        ReadsLocale(raw, Min(i + 2, |raw|), start, line);
      } else if raw[i] != QUOTE {
        ReadsLocale(raw, i + 1, start, line);
      }
    }
  }

  lemma {:induction false} NothingNested(lex: Lexer, raw: Bytes, i: nat, line: nat, braces: bool)
    requires NeverLonger(lex) && i <= |raw| && Unnested(raw)
    ensures FromQuoted(lex, raw, i, line, braces) == NOTHING
    decreases |raw| - i
  {
    hide NeverLonger;
    if i < |raw| && raw[i] == BACKSLASH {
      NothingNested(lex, raw, Min(i + 2, |raw|), line, braces);
    } else if i < |raw| && raw[i] != QUOTE {
      NothingNested(lex, raw, i + 1, line, braces);
    }
  }

  lemma PastTheEnd(lex: Lexer, raw: Bytes, i: nat, line: nat)
    requires NeverLonger(lex) && i >= |raw|
    ensures FromWord(lex, raw, i, line) == NOTHING && Strings(raw, |raw|, Outside, line) == []
  {
  }

  /** A locale string in the word. */
  lemma FoundHere(lex: Lexer, raw: Bytes, i: nat, line: nat)
    requires NeverLonger(lex) && Unnested(raw) && i + 1 < |raw| && raw[i] == DOLLAR && raw[i + 1] == QUOTE
    requires var end := BodyEnd(raw, i + 2);
             FromWord(lex, raw, end + 1, line) == Some(Strings(raw, PastQuote(raw, end), Outside, line))
    ensures FromWord(lex, raw, i, line) == Some(Strings(raw, i, Outside, line))
  {
    NothingNested(lex, raw, i + 2, line, false);
    ReadsLocale(raw, i + 2, i + 2, line);
    var entry := Entry(line, raw[i + 2..BodyEnd(raw, i + 2)]);
    assert Strings(raw, i, Outside, line) == Strings(raw, i + 2, Locale(i + 2), line) by {
      assert Strings(raw, i + 1, Dollar, line) == Strings(raw, i + 2, Locale(i + 2), line);
    }
    WordAtString(lex, raw, i, line);
    hide NeverLonger, FromWord, FromQuoted, BodyEnd, Strings;
    assert [] + [entry] == [entry];
  }

  lemma {:induction false} FindsStrings(lex: Lexer, raw: Bytes, i: nat, line: nat)
    requires NeverLonger(lex) && Unnested(raw) && i <= |raw|
    ensures FromWord(lex, raw, i, line) == Some(Strings(raw, i, Outside, line))
    decreases |raw| - i
  {
    hide NeverLonger, Unnested, BodyEnd, FromQuoted;
    if i == |raw| {
      PastTheEnd(lex, raw, i, line);
    } else if raw[i] == APOSTROPHE {
      ReadsSingle(raw, i + 1, line);
      FindsStrings(lex, raw, SingleEnd(raw, i + 1), line);
    } else if raw[i] == QUOTE {
      ReadsDouble(raw, i + 1, line);
      NothingNested(lex, raw, i + 1, line, true);
      FindsStrings(lex, raw, PastQuote(raw, BodyEnd(raw, i + 1)), line);
      var more := Strings(raw, PastQuote(raw, BodyEnd(raw, i + 1)), Outside, line);
      assert [] + more == more;
    } else if raw[i] == BACKSLASH {
      FindsStrings(lex, raw, Min(i + 2, |raw|), line);
    } else if raw[i] == DOLLAR && ByteAt(raw, i + 1, QUOTE) {
      var end := BodyEnd(raw, i + 2);
      if end < |raw| {
        FindsStrings(lex, raw, end + 1, line);
      } else {
        PastTheEnd(lex, raw, end + 1, line);
      }
      FoundHere(lex, raw, i, line);
    } else if raw[i] == DOLLAR && ByteAt(raw, i + 1, APOSTROPHE) {
      ReadsAnsi(raw, i + 2, line);
      FindsStrings(lex, raw, EscapedEnd(raw, i + 2, APOSTROPHE), line);
    } else {
      NoUnitHere(raw, i);
      FindsStrings(lex, raw, i + 1, line);
    }
  }

  lemma NoUnitHere(raw: Bytes, i: nat)
    requires Unnested(raw) && i < |raw|
    ensures raw[i] != BACKQUOTE && !(raw[i] == DOLLAR && OpensUnit(raw, i + 1))
  {
  }

  /** From a word without nested units the scan collects, in order, exactly the strings a reader of its quotes
      finds, whatever the lexer; and no slice of it cuts a character. */
  lemma WordGivesItsStrings(lex: Lexer, raw: Bytes, line: nat)
    requires NeverLonger(lex) && Unnested(raw)
    ensures FromWord(lex, raw, 0, line) == Some(Strings(raw, 0, Outside, line))
  {
    FindsStrings(lex, raw, 0, line);
  }
}
