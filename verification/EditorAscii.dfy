/**
 Sessions of the line editor on ASCII text (src/readline_editor.rs): every key keeps the line, the
 saved line, the history and the kill ring ASCII, so that the transposition of words never panics.
 */
module EditorAscii {
  import opened Utf8
  import opened Wrappers
  import opened EditorSpec
  import opened EditorTheorems

  predicate Ascii(t: Bytes) { forall k :: 0 <= k < |t| ==> t[k] < 0x80 }

  predicate AllAscii(ts: seq<Bytes>) { forall k :: 0 <= k < |ts| ==> Ascii(ts[k]) }

  predicate AsciiString(s: string) { forall k :: 0 <= k < |s| ==> s[k] as int < 0x80 }

  /** Changing the case of ASCII text gives ASCII text. */
  ghost predicate KeepsAscii(u: CharTables) {
    && (forall s: string :: AsciiString(s) ==> AsciiString(u.upper(s)))
    && (forall s: string :: AsciiString(s) ==> AsciiString(u.lower(s)))
    && (forall c: char :: c as int < 0x80 ==> AsciiString(u.upperChar(c)))
    && (forall c: char :: c as int < 0x80 ==> AsciiString(u.lowerChar(c)))
  }

  ghost predicate AsciiSession(m: Session) {
    KeepsAscii(m.tables) && AllAscii(m.history) && Ascii(m.buffer) && Ascii(m.savedLine) && AllAscii(m.ring)
  }

  // ------------------------------------------------------------------------- text

  lemma AsciiParts(t: Bytes, a: nat, b: nat)
    requires Ascii(t) && a <= b <= |t|
    ensures Ascii(t[a..b]) && Ascii(t[..a]) && Ascii(t[b..])
  {
  }

  lemma AsciiConcat(a: Bytes, b: Bytes)
    requires Ascii(a) && Ascii(b)
    ensures Ascii(a + b)
  {
  }

  lemma AsciiStringConcat(a: string, b: string)
    requires AsciiString(a) && AsciiString(b)
    ensures AsciiString(a + b)
  {
  }

  lemma {:induction false} DecodedAscii(t: Bytes)
    requires WellFormed(t) && Ascii(t)
    ensures AsciiString(DecodeAll(t))
  {
    if t != [] {
      AsciiParts(t, 0, SeqLen(t));
      DecodedAscii(t[SeqLen(t)..]);
      AsciiStringConcat([Decode(t)], DecodeAll(t[SeqLen(t)..]));
    }
  }

  lemma EncodedCharacter(c: char)
    requires c as int < 0x80
    ensures Ascii(Encode(c))
  {
  }

  lemma {:induction false} EncodedAscii(s: string)
    requires AsciiString(s)
    ensures Ascii(EncodeAll(s))
  {
    hide Encode;
    if s != "" {
      EncodedCharacter(s[0]);
      EncodedAscii(s[1..]);
      AsciiConcat(Encode(s[0]), EncodeAll(s[1..]));
    }
  }

  lemma {:induction false} LowerEachAscii(u: CharTables, word: string)
    requires KeepsAscii(u) && AsciiString(word)
    ensures AsciiString(LowerEach(u, word))
  {
    if word != "" {
      LowerEachAscii(u, word[1..]);
      AsciiStringConcat(u.lowerChar(word[0]), LowerEach(u, word[1..]));
    }
  }

  lemma RecasedAscii(u: CharTables, word: string, up: bool, capitalize: bool)
    requires KeepsAscii(u) && AsciiString(word)
    ensures AsciiString(Recased(u, word, up, capitalize))
  {
    if capitalize && word != "" {
      LowerEachAscii(u, word[1..]);
      AsciiStringConcat(u.upperChar(word[0]), LowerEach(u, word[1..]));
    }
  }

  // ---------------------------------------------------------------------- editing

  lemma ReplaceAscii(m: Session, a: nat, b: nat, t: Bytes)
    requires Inv(m) && Boundary(m.buffer, a) && Boundary(m.buffer, b) && a <= b && WellFormed(t)
    requires AsciiSession(m) && Ascii(t)
    ensures AsciiSession(Replace(m, a, b, t))
  {
    hide WellFormed, KeepsAscii, AllAscii;
    AsciiParts(m.buffer, a, b);
    AsciiConcat(m.buffer[..a], t);
    AsciiConcat(m.buffer[..a] + t, m.buffer[b..]);
  }

  lemma InsertAscii(m: Session, c: char)
    requires Inv(m) && AsciiSession(m) && c as int < 0x80
    ensures AsciiSession(InsertChar(m, c))
  {
    EncodeWellFormed(c);
    EncodedCharacter(c);
    ReplaceAscii(m, m.cursor, m.cursor, Encode(c));
    hide Replace, Encode, WellFormed, AsciiSession;
  }

  lemma DeleteAscii(m: Session)
    requires Inv(m) && AsciiSession(m)
    ensures AsciiSession(Rubout(m)) && AsciiSession(DeleteCharAtCursor(m))
  {
    hide Replace, KeepsAscii, AllAscii, Ascii;
    NothingIsAscii();
    if m.cursor > 0 {
      ReplaceAscii(m, PrevBoundary(m.buffer, m.cursor), m.cursor, []);
    }
    if m.cursor < |m.buffer| {
      ReplaceAscii(m, m.cursor, NextBoundary(m.buffer, m.cursor), []);
    }
  }

  lemma NothingIsAscii()
    ensures Ascii([]) && WellFormed([])
  {
  }

  lemma RingAscii(ring: seq<Bytes>, merge: bool, killed: Bytes, forward: bool)
    requires (forall k :: 0 <= k < |ring| ==> WellFormed(ring[k])) && WellFormed(killed)
    requires AllAscii(ring) && Ascii(killed)
    ensures AllAscii(RingAfterKill(ring, merge, killed, forward))
  {
    hide WellFormed, Ascii;
    if merge && ring != [] {
      AsciiConcat(ring[|ring| - 1], killed);
      AsciiConcat(killed, ring[|ring| - 1]);
    }
  }

  lemma KillAscii(m: Session, a: nat, b: nat, forward: bool)
    requires Inv(m) && Boundary(m.buffer, a) && Boundary(m.buffer, b)
    requires if forward then a == m.cursor <= b else a <= m.cursor == b
    requires AsciiSession(m)
    ensures AsciiSession(KillSpan(m, a, b, forward))
  {
    SpanWellFormed(m.buffer, a, b);
    hide WellFormed, Boundary, KeepsAscii, AllAscii, Ascii, RingAfterKill, Replace;
    NothingIsAscii();
    ReplaceAscii(m, a, b, []);
    AsciiParts(m.buffer, a, b);
    RingAscii(m.ring, m.lastAction == Kill, m.buffer[a..b], forward);
    ReplaceKeepsRing(m, a, b, []);
  }

  lemma ReplaceKeepsRing(m: Session, a: nat, b: nat, t: Bytes)
    requires Inv(m) && Boundary(m.buffer, a) && Boundary(m.buffer, b) && a <= b && WellFormed(t)
    ensures Replace(m, a, b, t).ring == m.ring && Replace(m, a, b, t).savedLine == m.savedLine
  {
  }

  lemma KillsAscii(m: Session)
    requires Inv(m) && AsciiSession(m)
    ensures AsciiSession(KillLine(m)) && AsciiSession(LineDiscard(m)) && AsciiSession(WordRubout(m))
    ensures AsciiSession(KillWord(m)) && AsciiSession(BackwardKillWord(m))
  {
    hide WellFormed, AsciiSession, KillSpan, RuboutStart;
    RuboutStartIsBoundary(m.buffer, m.cursor);
    KillAscii(m, m.cursor, |m.buffer|, true);
    KillAscii(m, 0, m.cursor, false);
    KillAscii(m, RuboutStart(m.buffer, m.cursor), m.cursor, false);
    KillAscii(m, m.cursor, WordEndAfter(m.tables, m.buffer, m.cursor), true);
    KillAscii(m, WordStartBefore(m.tables, m.buffer, m.cursor), m.cursor, false);
  }

  /** Sessions that hold the same text. */
  ghost predicate SameText(m: Session, r: Session) {
    && r.tables == m.tables && r.history == m.history && r.ring == m.ring
    && r.buffer == m.buffer && r.savedLine == m.savedLine
  }

  lemma SameTextAscii(m: Session, r: Session)
    requires SameText(m, r) && AsciiSession(m)
    ensures AsciiSession(r)
  {
  }

  lemma YankAscii(m: Session)
    requires Inv(m) && AsciiSession(m)
    ensures AsciiSession(YankTop(m))
  {
    hide WellFormed, KeepsAscii, Ascii, Replace;
    if m.ring != [] {
      var text := m.ring[|m.ring| - 1];
      ReplaceAscii(m, m.cursor, m.cursor, text);
      SameTextAscii(Replace(m, m.cursor, m.cursor, text), YankTop(m));
    }
  }

  lemma YankPopAscii(m: Session)
    requires Inv(m) && AsciiSession(m)
    ensures AsciiSession(YankPop(m))
  {
    hide WellFormed, KeepsAscii, Ascii, Replace, Boundary;
    if m.lastAction.Yank? && m.ring != [] {
      var next := if m.lastAction.ringIndex == 0 then |m.ring| - 1 else m.lastAction.ringIndex - 1;
      YankStartIsBoundary(m);
      ReplaceAscii(m, m.yankStart, m.yankStart + m.yankLen, m.ring[next]);
      SameTextAscii(Replace(m, m.yankStart, m.yankStart + m.yankLen, m.ring[next]), YankPop(m));
    }
  }

  lemma TransposeCharsAscii(m: Session)
    requires Inv(m) && AsciiSession(m)
    ensures AsciiSession(TransposeChars(m))
  {
    hide WellFormed, KeepsAscii, Ascii, Replace, AllAscii, TransposeSpans;
    if m.cursor > 0 && |m.buffer| >= 2 {
      var (first, second) := TransposeSpans(m.buffer, m.cursor);
      var end := NextBoundary(m.buffer, second);
      SpanWellFormed(m.buffer, first, second);
      SpanWellFormed(m.buffer, second, end);
      ConcatWellFormed(m.buffer[second..end], m.buffer[first..second]);
      AsciiParts(m.buffer, first, second);
      AsciiParts(m.buffer, second, end);
      AsciiConcat(m.buffer[second..end], m.buffer[first..second]);
      ReplaceAscii(m, first, end, m.buffer[second..end] + m.buffer[first..second]);
    }
  }

  lemma SwapAscii(t: Bytes, a: nat, b: nat, c: nat, d: nat)
    requires a <= b <= c <= d <= |t| && WellFormed(t) && Ascii(t)
    requires Boundary(t, a) && Boundary(t, b) && Boundary(t, c) && Boundary(t, d)
    ensures Ascii(SwapWords(t, a, b, c, d))
  {
    hide Ascii, WellFormed;
    AsciiParts(t, a, b);
    AsciiParts(t, b, c);
    AsciiParts(t, c, d);
    AsciiConcat(t[c..d], t[b..c]);
    AsciiConcat(t[c..d] + t[b..c], t[a..b]);
  }

  lemma TransposeWordsAscii(m: Session)
    requires Inv(m) && AsciiSession(m)
    ensures TransposeWords(m).Some? ==> AsciiSession(TransposeWords(m).value)
  {
    hide WellFormed, KeepsAscii, Ascii, Replace, AllAscii, TransposeScan, SwapWords, SkipForward, WordStartBefore;
    hide WordEndAfter;
    var t, u := m.buffer, m.tables;
    var scan := TransposeScan(u, t, m.cursor);
    if scan.Some? && WordStartBefore(u, t, scan.value) != scan.value && SkipForward(u, t, scan.value, false) < |t| {
      var a, b, c := WordStartBefore(u, t, scan.value), scan.value, SkipForward(u, t, scan.value, false);
      var d := WordEndAfter(u, t, c);
      SwapAscii(t, a, b, c, d);
      ReplaceAscii(m, a, d, SwapWords(t, a, b, c, d));
    }
  }

  lemma ChangeWordCaseAscii(m: Session, up: bool, capitalize: bool)
    requires Inv(m) && AsciiSession(m)
    ensures AsciiSession(ChangeWordCase(m, up, capitalize))
  {
    hide WellFormed, KeepsAscii, Ascii, AsciiString, Replace, AllAscii, Recased, SkipForward, WordEndAfter, EncodeAll;
    hide DecodeAll;
    var start := SkipForward(m.tables, m.buffer, m.cursor, false);
    var end := WordEndAfter(m.tables, m.buffer, start);
    if start < end {
      SpanWellFormed(m.buffer, start, end);
      AsciiParts(m.buffer, start, end);
      DecodedAscii(m.buffer[start..end]);
      var word := DecodeAll(m.buffer[start..end]);
      RecasedAscii(m.tables, word, up, capitalize);
      EncodedAscii(Recased(m.tables, word, up, capitalize));
      ReplaceAscii(m, start, end, EncodeAll(Recased(m.tables, word, up, capitalize)));
    }
  }

  lemma RecallAscii(m: Session)
    requires Inv(m) && AsciiSession(m)
    ensures AsciiSession(HistoryPrevious(m)) && AsciiSession(HistoryNext(m))
    ensures AsciiSession(BeginningOfHistory(m)) && AsciiSession(EndOfHistory(m))
  {
    hide WellFormed, KeepsAscii, Ascii;
  }

  // --------------------------------------------------------------------- dispatch

  lemma TildeAscii(m: Session, key: string, word: bool)
    requires Inv(m) && AsciiSession(m)
    ensures AsciiSession(CsiTilde(m, key, word))
  {
    hide WellFormed, AsciiSession, Replace, DeleteCharAtCursor, BeginningOfHistory, EndOfHistory, WordEndAfter;
    hide MoveTo, NoteOther;
    MovesAscii(m);
    NoteAscii(m);
    DeleteAscii(m);
    RecallAscii(m);
    NothingIsAscii();
    ReplaceAscii(m, m.cursor, WordEndAfter(m.tables, m.buffer, m.cursor), []);
  }

  lemma NoteAscii(m: Session)
    requires Inv(m) && AsciiSession(m)
    ensures AsciiSession(NoteOther(m))
  {
    hide WellFormed, KeepsAscii, Ascii, Boundary, AllAscii;
  }

  lemma MoveAscii(m: Session, cursor: nat)
    requires Inv(m) && AsciiSession(m) && Boundary(m.buffer, cursor)
    ensures AsciiSession(MoveTo(m, cursor))
  {
    hide WellFormed, KeepsAscii, Ascii, Boundary, AllAscii;
  }

  /** The moves of the point within the line. */
  lemma MovesAscii(m: Session)
    requires Inv(m) && AsciiSession(m)
    ensures m.cursor <= |m.buffer| && Boundary(m.buffer, m.cursor)
    ensures Boundary(m.buffer, 0) && Boundary(m.buffer, |m.buffer|)
    ensures Boundary(m.buffer, PrevBoundary(m.buffer, m.cursor)) && Boundary(m.buffer, NextBoundary(m.buffer, m.cursor))
    ensures Boundary(m.buffer, WordEndAfter(m.tables, m.buffer, m.cursor))
    ensures Boundary(m.buffer, WordStartBefore(m.tables, m.buffer, m.cursor))
    ensures AsciiSession(MoveTo(m, 0)) && AsciiSession(MoveTo(m, |m.buffer|))
    ensures AsciiSession(MoveTo(m, PrevBoundary(m.buffer, m.cursor)))
    ensures AsciiSession(MoveTo(m, NextBoundary(m.buffer, m.cursor)))
    ensures AsciiSession(MoveTo(m, WordEndAfter(m.tables, m.buffer, m.cursor)))
    ensures AsciiSession(MoveTo(m, WordStartBefore(m.tables, m.buffer, m.cursor)))
  {
    hide WellFormed, AsciiSession, MoveTo, PrevBoundary, NextBoundary, WordEndAfter, WordStartBefore;
    assert m.cursor == 0 ==> PrevBoundary(m.buffer, m.cursor) == 0 by { PrevOfStart(m.buffer); }
    MoveAscii(m, 0);
    MoveAscii(m, |m.buffer|);
    MoveAscii(m, PrevBoundary(m.buffer, m.cursor));
    MoveAscii(m, NextBoundary(m.buffer, m.cursor));
    MoveAscii(m, WordEndAfter(m.tables, m.buffer, m.cursor));
    MoveAscii(m, WordStartBefore(m.tables, m.buffer, m.cursor));
  }

  lemma PrevOfStart(t: Bytes)
    ensures PrevBoundary(t, 0) == 0
  {
  }

  lemma CsiAscii(m: Session, params: string, final: char)
    requires Inv(m) && AsciiSession(m)
    ensures AsciiSession(CsiDispatch(m, params, final))
  {
    hide WellFormed, AsciiSession, NoteOther, MoveTo, CsiTilde, HistoryPrevious, HistoryNext, WordModifier;
    hide WordEndAfter, WordStartBefore, FirstField, Boundary, PrevBoundary, NextBoundary;
    NoteAscii(m);
    var n := NoteOther(m);
    MovesAscii(n);
    RecallAscii(n);
    TildeAscii(n, FirstField(params), WordModifier(params));
  }

  lemma Ss3Ascii(m: Session, c: char)
    requires Inv(m) && AsciiSession(m)
    ensures AsciiSession(Ss3Dispatch(m, c))
  {
    hide WellFormed, AsciiSession, NoteOther, MoveTo, HistoryPrevious, HistoryNext, Boundary, PrevBoundary;
    hide NextBoundary;
    NoteAscii(m);
    MovesAscii(NoteOther(m));
    RecallAscii(NoteOther(m));
  }

  lemma EscAscii(m: Session, esc: Esc, params: string)
    requires Inv(m) && AsciiSession(m)
    ensures Inv(m.(esc := esc, csiParams := params)) && AsciiSession(m.(esc := esc, csiParams := params))
  {
    hide WellFormed, KeepsAscii, Ascii, Boundary, AllAscii;
  }

  lemma MetaAscii(m: Session, c: char)
    requires Inv(m) && AsciiSession(m)
    ensures MetaDispatch(m, c).Running? ==> AsciiSession(MetaDispatch(m, c).m)
  {
    hide WellFormed, AsciiSession, Inv, NoteOther, MoveTo, KillWord, BackwardKillWord, ChangeWordCase, TransposeWords;
    hide YankPop;
    hide BeginningOfHistory, EndOfHistory, WordEndAfter, WordStartBefore, TransposeScan, Boundary, PrevBoundary;
    hide NextBoundary;
    MovesAscii(m);
    NoteAscii(m);
    KillsAscii(m);
    RecallAscii(m);
    EscAscii(m, Csi, "");
    EscAscii(m, Ss3, m.csiParams);
    CaseKeysAscii(m, c);
  }

  lemma CaseKeysAscii(m: Session, c: char)
    requires Inv(m) && AsciiSession(m)
    ensures AsciiSession(ChangeWordCase(m, true, false)) && AsciiSession(ChangeWordCase(m, false, false))
    ensures AsciiSession(ChangeWordCase(m, true, true)) && AsciiSession(YankPop(m))
    ensures TransposeWords(m).Some? ==> AsciiSession(TransposeWords(m).value)
  {
    hide *;
    ChangeWordCaseAscii(m, true, false);
    ChangeWordCaseAscii(m, false, false);
    ChangeWordCaseAscii(m, true, true);
    YankPopAscii(m);
    TransposeWordsAscii(m);
  }

  lemma PointIsBoundary(m: Session)
    requires Inv(m)
    ensures m.cursor <= |m.buffer| && Boundary(m.buffer, m.cursor)
  {
  }

  lemma PlainAscii(m: Session, c: char)
    requires Inv(m) && AsciiSession(m) && c as int < 0x80
    ensures PlainDispatch(m, c).Running? ==> AsciiSession(PlainDispatch(m, c).m)
  {
    hide WellFormed, AsciiSession, Inv, NoteOther, MoveTo, KillLine, LineDiscard, WordRubout, YankTop, TransposeChars;
    hide Rubout, DeleteCharAtCursor, HistoryPrevious, HistoryNext, InsertChar, Accept;
    hide WordEndAfter, WordStartBefore, Boundary, PrevBoundary, NextBoundary;
    MovesAscii(m);
    NoteAscii(m);
    KillsAscii(m);
    RecallAscii(m);
    DeleteAscii(m);
    InsertAscii(m, c);
    YankAscii(m);
    TransposeCharsAscii(m);
    EscAscii(m, QuotedInsert, m.csiParams);
    EscAscii(m, Ctlx, m.csiParams);
    EscAscii(m, Meta, m.csiParams);
  }

  lemma DispatchAscii(m: Session, c: char)
    requires Inv(m) && AsciiSession(m) && c as int < 0x80
    ensures Dispatch(m, c).Running? ==> AsciiSession(Dispatch(m, c).m)
  {
    hide AsciiSession, Inv, PlainDispatch, MetaDispatch, CsiDispatch, Ss3Dispatch, NoteOther, InsertChar, TransposeScan;
    var n := m.(esc := NoEsc);
    EscAscii(m, NoEsc, m.csiParams);
    match m.esc
    case QuotedInsert => InsertAscii(n, c);
    case Meta => MetaAscii(n, c);
    case Csi =>
      EscAscii(m, NoEsc, "");
      EscAscii(m, Csi, m.csiParams + [c]);
      CsiAscii(m.(esc := NoEsc, csiParams := ""), m.csiParams, c);
    case Ss3 => Ss3Ascii(n, c);
    case Ctlx => NoteAscii(n);
    case NoEsc => PlainAscii(m, c);
  }

  lemma AsciiHasNoMultibyte(u: CharTables, t: Bytes, cursor: nat)
    requires Ascii(t) && cursor <= |t|
    ensures !MultibyteBeforeWord(u, t, cursor)
  {
  }

  lemma FeedAscii(e: Editor, c: char)
    requires Inv(e.m) && AsciiSession(e.m) && c as int < 0x80
    ensures var r := Feed(e, c); !r.Panicked? && (r.Running? ==> AsciiSession(r.m.m))
  {
    hide Dispatch, Inv, KeepsAscii, AllAscii, Ascii;
    PointIsBoundary(e.m);
    AsciiHasNoMultibyte(e.m.tables, e.m.buffer, e.m.cursor);
    FeedPanicsExactlyWhen(e, c);
    DispatchAscii(e.m, c);
  }

  lemma {:induction false} AsciiRunNeverPanics(e: Editor, input: string)
    requires Inv(e.m) && AsciiSession(e.m) && AsciiString(input)
    ensures var r := FeedAll(e, input); !r.Panicked? && (r.Running? ==> AsciiSession(r.m.m))
    decreases |input|
  {
    hide Feed, Inv, AsciiSession;
    if input != "" {
      FeedAscii(e, input[0]);
      var out := Feed(e, input[0]);
      if out.Running? && |input| > 1 {
        AsciiRunNeverPanics(out.m, input[1..]);
      }
    }
  }

  /** A session whose initial text, history, kill ring and input are ASCII never panics. */
  lemma SingleByteRunsNeverPanic(tables: CharTables, initial: Text, history: seq<Text>, maxChars: Option<nat>,
                                 eolDelim: Option<char>, ring: seq<Text>, input: string)
    requires KeepsAscii(tables) && Ascii(initial) && AllAscii(history) && AllAscii(ring) && AsciiString(input)
    ensures !FeedAll(NewEditor(tables, initial, history, maxChars, eolDelim, ring), input).Panicked?
  {
    hide FeedAll, KeepsAscii, AllAscii, AsciiString, Inv;
    AsciiRunNeverPanics(NewEditor(tables, initial, history, maxChars, eolDelim, ring), input);
  }
}
