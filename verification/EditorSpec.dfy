/**
 The `read -e` line editor (src/readline_editor.rs) as a transition system over one
 session: the editor's fields together with the caller's kill ring. Offsets are UTF-8 byte
 offsets, as in the program. The imperative editor in module LineEditor is proved against
 these transitions; each of them keeps the invariant `Inv`.
 */
module EditorSpec {
  import opened Utf8
  import opened Wrappers

  /** The Unicode tables of the Rust standard library the word commands consult. */
  datatype CharTables = CharTables(
    isAlphanumeric: char -> bool,
    upper: string -> string,
    lower: string -> string,
    upperChar: char -> string,
    lowerChar: char -> string)

  datatype EditEnd = Accepted(line: Bytes) | Eof

  datatype Esc = NoEsc | Meta | Csi | Ss3 | Ctlx | QuotedInsert

  datatype LastAction = Other | Kill | Yank(ringIndex: nat)

  datatype Session = Session(
    tables: CharTables,
    history: seq<Text>,
    eolDelim: Option<char>,
    buffer: Bytes,
    cursor: nat,
    esc: Esc,
    csiParams: string,
    historyIndex: Option<nat>,
    savedLine: Bytes,
    lastAction: LastAction,
    yankStart: nat,
    yankLen: nat,
    ring: seq<Bytes>)

  /** A session with its count of characters read and the `-n` limit on them. */
  datatype Editor = Editor(m: Session, charsRead: nat, maxChars: Option<nat>)

  /** What one input character does: editing goes on (with or without a screen clear), the
      session ends, or the editor slices inside a character and panics. */
  datatype Step<S> = Running(m: S, clear: bool) | Ended(end: EditEnd, m: S) | Panicked

  ghost predicate Inv(m: Session) {
    && WellFormed(m.buffer)
    && Boundary(m.buffer, m.cursor)
    && WellFormed(m.savedLine)
    && (m.historyIndex.Some? ==> m.historyIndex.value < |m.history|)
    && (forall k :: 0 <= k < |m.ring| ==> WellFormed(m.ring[k]))
    && (m.lastAction.Yank? ==> YankSpan(m))
  }

  /** The text last yanked is the indexed ring entry and the point is at its end. */
  ghost predicate YankSpan(m: Session)
    requires m.lastAction.Yank?
  {
    && m.lastAction.ringIndex < |m.ring|
    && m.yankStart + m.yankLen == m.cursor <= |m.buffer|
    && m.buffer[m.yankStart..m.cursor] == m.ring[m.lastAction.ringIndex]
  }

  /** What the session was opened with stays as it is. */
  ghost predicate SameInputs(m: Session, r: Session) {
    r.tables == m.tables && r.history == m.history && r.eolDelim == m.eolDelim
  }

  function NewEditor(tables: CharTables, initial: Text, history: seq<Text>, maxChars: Option<nat>,
                      eolDelim: Option<char>, ring: seq<Bytes>): (e: Editor)
    requires forall k :: 0 <= k < |ring| ==> WellFormed(ring[k])
    ensures Inv(e.m)
  {
    var delim := if eolDelim == Some('\n') || eolDelim == Some('\0') then None else eolDelim;
    Editor(Session(tables, history, delim, initial, |initial|, NoEsc, "", None, [], Other, 0, 0, ring),
           0, if maxChars == Some(0) then None else maxChars)
  }

  // ------------------------------------------------------------- text and words

  function Splice(s: Bytes, a: nat, b: nat, t: Bytes): Bytes
    requires a <= b <= |s|
  {
    s[..a] + t + s[b..]
  }

  lemma SpliceIsText(s: Bytes, a: nat, b: nat, t: Bytes)
    requires WellFormed(s) && Boundary(s, a) && Boundary(s, b) && a <= b && WellFormed(t)
    ensures WellFormed(Splice(s, a, b, t))
    ensures Boundary(Splice(s, a, b, t), a) && Boundary(Splice(s, a, b, t), a + |t|)
  {
    SplitWellFormed(s, a);
    SplitWellFormed(s, b);
    JoinThree(s[..a], t, s[b..]);
  }

  lemma JoinThree(x: Bytes, y: Bytes, z: Bytes)
    requires WellFormed(x) && WellFormed(y) && WellFormed(z)
    ensures WellFormed(x + y + z)
    ensures Boundary(x + y + z, |x|) && Boundary(x + y + z, |x| + |y|)
  {
    ConcatWellFormed(x, y);
    ConcatWellFormed(x + y, z);
    NoLeadingTail(y);
    NoLeadingTail(z);
    var s := x + y + z;
    assert y != [] ==> s[|x|] == y[0];
    assert z != [] ==> s[|x| + |y|] == z[0];
  }

  lemma NoLeadingTail(s: Bytes)
    requires WellFormed(s)
    ensures s != [] ==> !IsTail(s[0])
  {
  }

  function PrevBoundary(t: Bytes, at: nat): (r: nat)
    ensures r <= |t|
    ensures 0 < at <= |t| ==> r < at && Boundary(t, r) && forall k :: r < k < at ==> !Boundary(t, k)
  {
    var i := Min(at, |t|);
    if i <= 1 then 0 else if Boundary(t, i - 1) then i - 1 else PrevBoundary(t, i - 1)
  }

  function NextBoundary(t: Bytes, at: nat): (r: nat)
    ensures r <= |t| && Boundary(t, r)
    ensures at < |t| ==> at < r && forall k :: at < k < r ==> !Boundary(t, k)
    decreases |t| - at
  {
    if at >= |t| then |t| else if Boundary(t, at + 1) then at + 1 else NextBoundary(t, at + 1)
  }

  predicate IsWordChar(u: CharTables, c: char) { u.isAlphanumeric(c) || c == '_' }

  /** A word character starts at byte `i`. */
  predicate IsWordAt(u: CharTables, t: Bytes, i: nat) {
    i < |t| && SeqLen(t[i..]) > 0 && IsWordChar(u, Decode(t[i..]))
  }

  /** Back over characters that are word characters, or over those that are not. */
  function SkipBack(u: CharTables, t: Bytes, i: nat, word: bool): (r: nat)
    requires i <= |t|
    ensures r <= i && (Boundary(t, i) ==> Boundary(t, r))
    ensures r > 0 ==> IsWordAt(u, t, PrevBoundary(t, r)) != word
    decreases i
  {
    if i > 0 && IsWordAt(u, t, PrevBoundary(t, i)) == word
    then SkipBack(u, t, PrevBoundary(t, i), word)
    else i
  }

  function SkipForward(u: CharTables, t: Bytes, i: nat, word: bool): (r: nat)
    requires i <= |t|
    ensures i <= r <= |t| && (Boundary(t, i) ==> Boundary(t, r))
    ensures r < |t| ==> IsWordAt(u, t, r) != word
    decreases |t| - i
  {
    if i < |t| && IsWordAt(u, t, i) == word
    then SkipForward(u, t, NextBoundary(t, i), word)
    else i
  }

  function WordStartBefore(u: CharTables, t: Bytes, at: nat): (r: nat)
    ensures r <= Min(at, |t|) && (Boundary(t, at) ==> Boundary(t, r))
  {
    SkipBack(u, t, SkipBack(u, t, Min(at, |t|), false), true)
  }

  function WordEndAfter(u: CharTables, t: Bytes, at: nat): (r: nat)
    ensures Min(at, |t|) <= r <= |t| && (Boundary(t, at) ==> Boundary(t, r))
  {
    SkipForward(u, t, SkipForward(u, t, Min(at, |t|), false), true)
  }

  predicate IsAsciiWhitespace(b: Byte) { b == 32 || b == 9 || b == 10 || b == 12 || b == 13 }

  /** The bytewise scan of unix-word-rubout, over whitespace or over the rest. */
  function SkipBytesBack(t: Bytes, i: nat, white: bool): (r: nat)
    requires i <= |t|
    ensures r <= i
    ensures r > 0 ==> IsAsciiWhitespace(t[r - 1]) != white
    ensures forall k :: r <= k < i ==> IsAsciiWhitespace(t[k]) == white
    decreases i
  {
    if i > 0 && IsAsciiWhitespace(t[i - 1]) == white then SkipBytesBack(t, i - 1, white) else i
  }

  function RuboutStart(t: Bytes, cursor: nat): (r: nat)
    requires cursor <= |t|
    ensures r <= cursor
  {
    SkipBytesBack(t, SkipBytesBack(t, cursor, true), false)
  }

  /** The bytewise scan stops on a character boundary all the same. */
  lemma RuboutStartIsBoundary(t: Bytes, cursor: nat)
    requires WellFormed(t) && Boundary(t, cursor)
    ensures Boundary(t, RuboutStart(t, cursor))
  {
    var r := RuboutStart(t, cursor);
    if 0 < r {
      AfterAsciiIsBoundary(t, r - 1);
    }
  }

  // ------------------------------------------------------------------- editing

  function NoteOther(m: Session): (r: Session)
    requires Inv(m)
    ensures Inv(r) && SameInputs(m, r)
  {
    m.(lastAction := Other)
  }

  function MoveTo(m: Session, cursor: nat): (r: Session)
    requires Inv(m) && Boundary(m.buffer, cursor)
    ensures Inv(r) && SameInputs(m, r)
  {
    m.(cursor := cursor, lastAction := Other)
  }

  /** Replace bytes `a..b` and leave the point after the new text. */
  function Replace(m: Session, a: nat, b: nat, t: Bytes): (r: Session)
    requires Inv(m) && Boundary(m.buffer, a) && Boundary(m.buffer, b) && a <= b && WellFormed(t)
    ensures Inv(r) && SameInputs(m, r)
  {
    SpliceIsText(m.buffer, a, b, t);
    m.(buffer := Splice(m.buffer, a, b, t), cursor := a + |t|, lastAction := Other)
  }

  function InsertChar(m: Session, c: char): (r: Session)
    requires Inv(m)
    ensures Inv(r) && SameInputs(m, r)
  {
    EncodeWellFormed(c);
    Replace(m, m.cursor, m.cursor, Encode(c))
  }

  function Rubout(m: Session): (r: Session)
    requires Inv(m)
    ensures Inv(r) && SameInputs(m, r)
  {
    if m.cursor == 0 then m else Replace(m, PrevBoundary(m.buffer, m.cursor), m.cursor, [])
  }

  function DeleteCharAtCursor(m: Session): (r: Session)
    requires Inv(m)
    ensures Inv(r) && SameInputs(m, r)
  {
    if m.cursor < |m.buffer| then Replace(m, m.cursor, NextBoundary(m.buffer, m.cursor), []) else NoteOther(m)
  }

  const RING_MAX := 60

  /** `kill`: consecutive kills merge into the newest entry. */
  function RingAfterKill(ring: seq<Bytes>, merge: bool, killed: Bytes, forward: bool): (r: seq<Bytes>)
    requires forall k :: 0 <= k < |ring| ==> WellFormed(ring[k])
    requires WellFormed(killed)
    ensures forall k :: 0 <= k < |r| ==> WellFormed(r[k])
    ensures |ring| <= |r| <= |ring| + 1 && (|r| <= |ring| || |r| <= RING_MAX)
  {
    if killed == [] then
      ring
    else if merge && ring != [] then
      var top := ring[|ring| - 1];
      ConcatWellFormed(top, killed);
      ConcatWellFormed(killed, top);
      ring[|ring| - 1 := if forward then top + killed else killed + top]
    else
      var pushed := ring + [killed];
      if |pushed| > RING_MAX then pushed[1..] else pushed
  }

  /** Drain bytes `a..b`, which end or start at the point, into the ring. */
  function KillSpan(m: Session, a: nat, b: nat, forward: bool): (r: Session)
    requires Inv(m) && Boundary(m.buffer, a) && Boundary(m.buffer, b)
    requires if forward then a == m.cursor <= b else a <= m.cursor == b
    ensures Inv(r) && SameInputs(m, r)
  {
    SpanWellFormed(m.buffer, a, b);
    var drained := Replace(m, a, b, []);
    drained.(ring := RingAfterKill(m.ring, m.lastAction == Kill, m.buffer[a..b], forward), lastAction := Kill)
  }

  function YankTop(m: Session): (r: Session)
    requires Inv(m)
    ensures Inv(r) && SameInputs(m, r)
  {
    if m.ring == [] then NoteOther(m)
    else
      var text := m.ring[|m.ring| - 1];
      var inserted := Replace(m, m.cursor, m.cursor, text);
      inserted.(yankStart := m.cursor, yankLen := |text|, lastAction := Yank(|m.ring| - 1))
  }

  lemma YankStartIsBoundary(m: Session)
    requires Inv(m) && m.lastAction.Yank?
    ensures Boundary(m.buffer, m.yankStart)
  {
    var entry := m.ring[m.lastAction.ringIndex];
    if entry != [] {
      assert entry[0] == m.buffer[m.yankStart];
    }
  }

  function YankPop(m: Session): (r: Session)
    requires Inv(m)
    ensures Inv(r) && SameInputs(m, r)
  {
    if !m.lastAction.Yank? || m.ring == [] then m
    else
      var next := if m.lastAction.ringIndex == 0 then |m.ring| - 1 else m.lastAction.ringIndex - 1;
      var text := m.ring[next];
      YankStartIsBoundary(m);
      var swapped := Replace(m, m.yankStart, m.yankStart + m.yankLen, text);
      swapped.(yankLen := |text|, lastAction := Yank(next))
  }

  /** The two adjacent spans C-t swaps. */
  function TransposeSpans(t: Bytes, cursor: nat): (r: (nat, nat))
    requires 0 < cursor <= |t|
    ensures r.0 <= r.1 <= |t|
    ensures Boundary(t, cursor) ==> Boundary(t, r.0) && Boundary(t, r.1)
  {
    if cursor == |t| then
      var second := PrevBoundary(t, |t|);
      (PrevBoundary(t, second), second)
    else
      (PrevBoundary(t, cursor), cursor)
  }

  function TransposeChars(m: Session): (r: Session)
    requires Inv(m)
    ensures Inv(r) && SameInputs(m, r)
  {
    if m.cursor == 0 || |m.buffer| < 2 then m
    else
      var (first, second) := TransposeSpans(m.buffer, m.cursor);
      var end := NextBoundary(m.buffer, second);
      SpanWellFormed(m.buffer, first, second);
      SpanWellFormed(m.buffer, second, end);
      ConcatWellFormed(m.buffer[second..end], m.buffer[first..second]);
      Replace(m, first, end, m.buffer[second..end] + m.buffer[first..second])
  }

  /** The end of the word before the point, found by looking at the byte before each
      position; None where that byte does not start a character. */
  function TransposeScan(u: CharTables, t: Bytes, e: nat): (r: Option<nat>)
    requires e <= |t|
    ensures r.Some? ==> r.value <= e && (Boundary(t, e) ==> Boundary(t, r.value))
    decreases e
  {
    if e == 0 then Some(0)
    else if !Boundary(t, e - 1) then None
    else if IsWordAt(u, t, e - 1) then Some(e)
    else TransposeScan(u, t, e - 1)
  }

  /** Two words `a..b` and `c..d` swapped around the gap between them. */
  function SwapWords(t: Bytes, a: nat, b: nat, c: nat, d: nat): (r: Bytes)
    requires a <= b <= c <= d <= |t| && WellFormed(t)
    requires Boundary(t, a) && Boundary(t, b) && Boundary(t, c) && Boundary(t, d)
    ensures |r| == d - a && WellFormed(r)
  {
    SpanWellFormed(t, a, b);
    SpanWellFormed(t, b, c);
    SpanWellFormed(t, c, d);
    ConcatWellFormed(t[c..d], t[b..c]);
    ConcatWellFormed(t[c..d] + t[b..c], t[a..b]);
    t[c..d] + t[b..c] + t[a..b]
  }

  function TransposeWords(m: Session): (r: Option<Session>)
    requires Inv(m)
    ensures r.Some? ==> Inv(r.value) && SameInputs(m, r.value)
    ensures r.None? <==> TransposeScan(m.tables, m.buffer, m.cursor).None?
  {
    var t, u := m.buffer, m.tables;
    match TransposeScan(u, t, m.cursor)
    case None => None
    case Some(w1End) =>
      var w1Start := WordStartBefore(u, t, w1End);
      if w1Start == w1End then Some(m)
      else
        var w2Start := SkipForward(u, t, w1End, false);
        if w2Start >= |t| then Some(m)
        else
          var w2End := WordEndAfter(u, t, w2Start);
          Some(Replace(m, w1Start, w2End, SwapWords(t, w1Start, w1End, w2Start, w2End)))
  }

  function Capitalized(u: CharTables, word: string): string {
    if word == "" then "" else u.upperChar(word[0]) + LowerEach(u, word[1..])
  }

  function LowerEach(u: CharTables, word: string): string {
    if word == "" then "" else u.lowerChar(word[0]) + LowerEach(u, word[1..])
  }

  function Recased(u: CharTables, word: string, up: bool, capitalize: bool): string {
    if capitalize then Capitalized(u, word) else if up then u.upper(word) else u.lower(word)
  }

  function ChangeWordCase(m: Session, up: bool, capitalize: bool): (r: Session)
    requires Inv(m)
    ensures Inv(r) && SameInputs(m, r)
  {
    var start := SkipForward(m.tables, m.buffer, m.cursor, false);
    var end := WordEndAfter(m.tables, m.buffer, start);
    if start >= end then m
    else
      SpanWellFormed(m.buffer, start, end);
      Replace(m, start, end, EncodeAll(Recased(m.tables, DecodeAll(m.buffer[start..end]), up, capitalize)))
  }

  // ------------------------------------------------------------- history recall

  function ShowLine(m: Session, index: Option<nat>, line: Bytes): (r: Session)
    requires Inv(m) && WellFormed(line) && (index.Some? ==> index.value < |m.history|)
    ensures Inv(r) && SameInputs(m, r)
  {
    m.(historyIndex := index, buffer := line, cursor := |line|, lastAction := Other)
  }

  function SaveLine(m: Session): (r: Session)
    requires Inv(m)
    ensures Inv(r) && SameInputs(m, r)
  {
    if m.historyIndex.None? then m.(savedLine := m.buffer) else m
  }

  function HistoryPrevious(m: Session): (r: Session)
    requires Inv(m)
    ensures Inv(r) && SameInputs(m, r)
  {
    if m.history == [] then m
    else
      var index := match m.historyIndex
        case None => |m.history| - 1
        case Some(i) => if i == 0 then 0 else i - 1;
      ShowLine(SaveLine(m), Some(index), m.history[index])
  }

  function HistoryNext(m: Session): (r: Session)
    requires Inv(m)
    ensures Inv(r) && SameInputs(m, r)
  {
    match m.historyIndex
    case None => m
    case Some(i) =>
      if i + 1 < |m.history| then ShowLine(m, Some(i + 1), m.history[i + 1]) else ShowLine(m, None, m.savedLine)
  }

  function BeginningOfHistory(m: Session): (r: Session)
    requires Inv(m)
    ensures Inv(r) && SameInputs(m, r)
  {
    if m.history == [] then NoteOther(m) else ShowLine(SaveLine(m), Some(0), m.history[0])
  }

  function EndOfHistory(m: Session): (r: Session)
    requires Inv(m)
    ensures Inv(r) && SameInputs(m, r)
  {
    if m.historyIndex.None? then NoteOther(m) else ShowLine(m, None, m.savedLine)
  }

  // ------------------------------------------------------------------- dispatch

  /** The text before the first `;`, and the text after the last one. */
  function FirstField(s: string): string {
    if s == "" || s[0] == ';' then "" else [s[0]] + FirstField(s[1..])
  }

  function LastField(s: string): string {
    if s == "" || s[|s| - 1] == ';' then "" else LastField(s[..|s| - 1]) + [s[|s| - 1]]
  }

  predicate WordModifier(params: string) {
    ';' in params && (LastField(params) == "5" || LastField(params) == "3")
  }

  function CsiDispatch(m0: Session, params: string, final: char): (r: Session)
    requires Inv(m0)
    ensures Inv(r) && SameInputs(m0, r)
  {
    var m := NoteOther(m0);
    var word := WordModifier(params);
    if final == 'A' then HistoryPrevious(m)
    else if final == 'B' then HistoryNext(m)
    else if final == 'C' then
      MoveTo(m, if word then WordEndAfter(m.tables, m.buffer, m.cursor) else NextBoundary(m.buffer, m.cursor))
    else if final == 'D' then
      MoveTo(m, if word then WordStartBefore(m.tables, m.buffer, m.cursor) else PrevBoundary(m.buffer, m.cursor))
    else if final == 'H' then MoveTo(m, 0)
    else if final == 'F' then MoveTo(m, |m.buffer|)
    else if final == '~' then CsiTilde(m, FirstField(params), word)
    else m
  }

  function CsiTilde(m: Session, key: string, word: bool): (r: Session)
    requires Inv(m)
    ensures Inv(r) && SameInputs(m, r)
  {
    if key == "1" || key == "7" then MoveTo(m, 0)
    else if key == "4" || key == "8" then MoveTo(m, |m.buffer|)
    else if key == "3" then
      if word then Replace(m, m.cursor, WordEndAfter(m.tables, m.buffer, m.cursor), []) else DeleteCharAtCursor(m)
    else if key == "5" then BeginningOfHistory(m)
    else if key == "6" then EndOfHistory(m)
    else NoteOther(m)
  }

  function Ss3Dispatch(m0: Session, c: char): (r: Session)
    requires Inv(m0)
    ensures Inv(r) && SameInputs(m0, r)
  {
    var m := NoteOther(m0);
    if c == 'A' then HistoryPrevious(m)
    else if c == 'B' then HistoryNext(m)
    else if c == 'C' then MoveTo(m, NextBoundary(m.buffer, m.cursor))
    else if c == 'D' then MoveTo(m, PrevBoundary(m.buffer, m.cursor))
    else if c == 'H' then MoveTo(m, 0)
    else if c == 'F' then MoveTo(m, |m.buffer|)
    else m
  }

  const DEL := '\U{7f}'
  const BACKSPACE := '\U{08}'
  const ESC := '\U{1b}'

  function MetaDispatch(m: Session, c: char): (r: Step<Session>)
    requires Inv(m)
    ensures r.Running? ==> Inv(r.m) && SameInputs(m, r.m)
    ensures !r.Ended?
    ensures r.Panicked? <==> c == 't' && TransposeScan(m.tables, m.buffer, m.cursor).None?
  {
    if c == '[' then Running(m.(esc := Csi, csiParams := ""), false)
    else if c == 'O' then Running(m.(esc := Ss3), false)
    else if c == 'b' then Running(MoveTo(m, WordStartBefore(m.tables, m.buffer, m.cursor)), false)
    else if c == 'f' then Running(MoveTo(m, WordEndAfter(m.tables, m.buffer, m.cursor)), false)
    else if c == 'd' then Running(KillWord(m), false)
    else if c == DEL || c == BACKSPACE then Running(BackwardKillWord(m), false)
    else if c == 'u' then Running(ChangeWordCase(m, true, false), false)
    else if c == 'l' then Running(ChangeWordCase(m, false, false), false)
    else if c == 'c' then Running(ChangeWordCase(m, true, true), false)
    else if c == 't' then
      (match TransposeWords(m) case None => Panicked case Some(r) => Running(r, false))
    else if c == 'y' then Running(YankPop(m), false)
    else if c == '<' then Running(BeginningOfHistory(m), false)
    else if c == '>' then Running(EndOfHistory(m), false)
    else Running(NoteOther(m), false)
  }

  function KillLine(m: Session): (r: Session)
    requires Inv(m)
    ensures Inv(r) && SameInputs(m, r)
  {
    KillSpan(m, m.cursor, |m.buffer|, true)
  }

  function LineDiscard(m: Session): (r: Session)
    requires Inv(m)
    ensures Inv(r) && SameInputs(m, r)
  {
    KillSpan(m, 0, m.cursor, false)
  }

  function WordRubout(m: Session): (r: Session)
    requires Inv(m)
    ensures Inv(r) && SameInputs(m, r)
  {
    RuboutStartIsBoundary(m.buffer, m.cursor);
    KillSpan(m, RuboutStart(m.buffer, m.cursor), m.cursor, false)
  }

  function KillWord(m: Session): (r: Session)
    requires Inv(m)
    ensures Inv(r) && SameInputs(m, r)
  {
    KillSpan(m, m.cursor, WordEndAfter(m.tables, m.buffer, m.cursor), true)
  }

  function BackwardKillWord(m: Session): (r: Session)
    requires Inv(m)
    ensures Inv(r) && SameInputs(m, r)
  {
    KillSpan(m, WordStartBefore(m.tables, m.buffer, m.cursor), m.cursor, false)
  }

  /** Take the line and end the session; the cursor keeps its stale value. */
  function Accept(m: Session): (r: Step<Session>)
    ensures r.Ended?
  {
    Ended(Accepted(m.buffer), m.(buffer := []))
  }

  function Dispatch(m: Session, c: char): (r: Step<Session>)
    requires Inv(m)
    ensures r.Running? ==> Inv(r.m) && SameInputs(m, r.m)
    ensures r.Panicked? <==> m.esc == Meta && c == 't' && TransposeScan(m.tables, m.buffer, m.cursor).None?
  {
    match m.esc
    case QuotedInsert => Running(InsertChar(m.(esc := NoEsc), c), false)
    case Meta => MetaDispatch(m.(esc := NoEsc), c)
    case Csi =>
      if '\U{40}' <= c <= '\U{7e}'
      then Running(CsiDispatch(m.(esc := NoEsc, csiParams := ""), m.csiParams, c), false)
      else Running(m.(csiParams := m.csiParams + [c]), false)
    case Ss3 => Running(Ss3Dispatch(m.(esc := NoEsc), c), false)
    case Ctlx => Running(NoteOther(m.(esc := NoEsc)), false)
    case NoEsc => PlainDispatch(m, c)
  }

  function PlainDispatch(m: Session, c: char): (r: Step<Session>)
    requires Inv(m)
    ensures r.Running? ==> Inv(r.m) && SameInputs(m, r.m)
    ensures !r.Panicked?
  {
    if Some(c) == m.eolDelim || c == '\n' || c == '\r' || c == '\U{0f}' then Accept(m)
    else if c == '\U{01}' then Running(MoveTo(m, 0), false)
    else if c == '\U{05}' then Running(MoveTo(m, |m.buffer|), false)
    else if c == '\U{02}' then Running(MoveTo(m, PrevBoundary(m.buffer, m.cursor)), false)
    else if c == '\U{06}' then Running(MoveTo(m, NextBoundary(m.buffer, m.cursor)), false)
    else if c == BACKSPACE || c == DEL then Running(Rubout(m), false)
    else if c == '\U{04}' then
      if m.buffer == [] then Ended(Eof, m) else Running(DeleteCharAtCursor(m), false)
    else if c == '\U{0b}' then Running(KillLine(m), false)
    else if c == '\U{15}' then Running(LineDiscard(m), false)
    else if c == '\U{17}' then Running(WordRubout(m), false)
    else if c == '\U{14}' then Running(TransposeChars(m), false)
    else if c == '\U{19}' then Running(YankTop(m), false)
    else if c == '\U{10}' then Running(HistoryPrevious(m), false)
    else if c == '\U{0e}' then Running(HistoryNext(m), false)
    else if c == '\U{0c}' then Running(NoteOther(m), true)
    else if c == '\U{16}' then Running(m.(esc := QuotedInsert), false)
    else if c == '\U{18}' then Running(m.(esc := Ctlx), false)
    else if c == ESC then Running(m.(esc := Meta), false)
    else if c >= ' ' then Running(InsertChar(m, c), false)
    else Running(NoteOther(m), false)
  }

  predicate LimitReached(e: Editor) { e.maxChars.Some? && e.charsRead >= e.maxChars.value }

  /** `feed`: count the character, act on it, and accept the line at the `-n` limit. */
  function Feed(e: Editor, c: char): (r: Step<Editor>)
    requires Inv(e.m)
    ensures r.Running? ==> Inv(r.m.m) && SameInputs(e.m, r.m.m)
    ensures !r.Panicked? ==> r.m.charsRead == e.charsRead + 1 && r.m.maxChars == e.maxChars
    ensures r.Running? ==> !LimitReached(r.m)
    ensures r.Panicked? <==> e.m.esc == Meta && c == 't' && TransposeScan(e.m.tables, e.m.buffer, e.m.cursor).None?
  {
    var counted := e.(charsRead := e.charsRead + 1);
    match Dispatch(e.m, c)
    case Running(m, clear) =>
      if LimitReached(counted) then Ended(Accepted(m.buffer), counted.(m := m.(buffer := [])))
      else Running(counted.(m := m), clear)
    case Ended(end, m) => Ended(end, counted.(m := m))
    case Panicked => Panicked
  }

  /** A whole run: characters are fed until the session ends. */
  function FeedAll(e: Editor, input: string): (r: Step<Editor>)
    requires Inv(e.m)
    ensures r.Running? ==> Inv(r.m.m) && SameInputs(e.m, r.m.m) && r.m.charsRead == e.charsRead + |input|
    ensures !r.Panicked? ==> r.m.maxChars == e.maxChars && r.m.charsRead <= e.charsRead + |input|
    ensures !LimitReached(e) ==>
              (r.Running? ==> !LimitReached(r.m))
                  && (r.Ended? && e.maxChars.Some? ==> r.m.charsRead <= e.maxChars.value)
    decreases |input|
  {
    if input == "" then Running(e, false)
    else
      var out := Feed(e, input[0]);
      if out.Running? && |input| > 1 then FeedAll(out.m, input[1..]) else out
  }
}
