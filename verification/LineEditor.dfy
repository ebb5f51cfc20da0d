/**
 The imperative `read -e` editor (src/readline_editor.rs): its fields are updated in place,
 its index loops run over the bytes of the line, and the kill ring belongs to the caller.
 Every method is proved against the transition of EditorSpec it carries out.
 */
module LineEditor {
  import opened Utf8
  import opened Wrappers
  import Spec = EditorSpec

  /** The process kill ring, newest entry last. */
  class KillRing {
    var entries: seq<Bytes>

    constructor ()
      ensures entries == []
    {
      entries := [];
    }
  }

  datatype Outcome = Continue | ClearScreen | End(end: Spec.EditEnd) | Panic

  // ------------------------------------------------------------ boundary and word loops

  method PrevCharBoundary(text: Bytes, at: nat) returns (i: nat)
    ensures i == Spec.PrevBoundary(text, at)
  {
    i := Min(at, |text|);
    if i == 0 {
      return 0;
    }
    i := i - 1;
    while i > 0 && !Boundary(text, i)
      invariant i < |text|
      invariant Spec.PrevBoundary(text, at) == if i > 0 && !Boundary(text, i) then Spec.PrevBoundary(text, i) else i
    {
      i := i - 1;
    }
  }

  method NextCharBoundary(text: Bytes, at: nat) returns (i: nat)
    ensures i == Spec.NextBoundary(text, at)
  {
    i := Min(at, |text|);
    if i >= |text| {
      return |text|;
    }
    i := i + 1;
    while i < |text| && !Boundary(text, i)
      invariant i <= |text|
      invariant Spec.NextBoundary(text, at)
             == if i < |text| && !Boundary(text, i) then Spec.NextBoundary(text, i) else i
    {
      i := i + 1;
    }
  }

  /** The two characters `transpose_chars` swaps: the starts of both and the end of the second. */
  method TransposeBounds(text: Bytes, cursor: nat) returns (first: nat, second: nat, secondEnd: nat)
    requires 0 < cursor <= |text|
    ensures (first, second) == Spec.TransposeSpans(text, cursor) && secondEnd == Spec.NextBoundary(text, second)
    ensures first <= second <= secondEnd <= |text| && (cursor == |text| ==> secondEnd == |text|)
  {
    if cursor >= |text| {
      second := PrevCharBoundary(text, |text|);
      first := PrevCharBoundary(text, second);
    } else {
      first := PrevCharBoundary(text, cursor);
      second := cursor;
    }
    secondEnd := NextCharBoundary(text, second);
  }

  method SkipBack(u: Spec.CharTables, text: Bytes, from: nat, word: bool) returns (i: nat)
    requires from <= |text|
    ensures i == Spec.SkipBack(u, text, from, word)
  {
    i := from;
    var p := PrevCharBoundary(text, i);
    while i > 0 && Spec.IsWordAt(u, text, p) == word
      invariant i <= |text| && p == Spec.PrevBoundary(text, i)
      invariant Spec.SkipBack(u, text, from, word) == Spec.SkipBack(u, text, i, word)
      decreases i
    {
      i := p;
      p := PrevCharBoundary(text, i);
    }
  }

  method SkipForward(u: Spec.CharTables, text: Bytes, from: nat, word: bool) returns (i: nat)
    requires from <= |text|
    ensures i == Spec.SkipForward(u, text, from, word)
  {
    i := from;
    while i < |text| && Spec.IsWordAt(u, text, i) == word
      invariant i <= |text|
      invariant Spec.SkipForward(u, text, from, word) == Spec.SkipForward(u, text, i, word)
    {
      i := NextCharBoundary(text, i);
    }
  }

  method WordStartBefore(u: Spec.CharTables, text: Bytes, at: nat) returns (i: nat)
    ensures i == Spec.WordStartBefore(u, text, at)
  {
    i := SkipBack(u, text, Min(at, |text|), false);
    i := SkipBack(u, text, i, true);
  }

  method WordEndAfter(u: Spec.CharTables, text: Bytes, at: nat) returns (i: nat)
    ensures i == Spec.WordEndAfter(u, text, at)
  {
    i := SkipForward(u, text, Min(at, |text|), false);
    i := SkipForward(u, text, i, true);
  }

  method RuboutStart(text: Bytes, cursor: nat) returns (start: nat)
    requires cursor <= |text|
    ensures start == Spec.RuboutStart(text, cursor)
  {
    start := cursor;
    while start > 0 && Spec.IsAsciiWhitespace(text[start - 1])
      invariant start <= cursor
      invariant Spec.SkipBytesBack(text, cursor, true) == Spec.SkipBytesBack(text, start, true)
    {
      start := start - 1;
    }
    while start > 0 && !Spec.IsAsciiWhitespace(text[start - 1])
      invariant start <= cursor
      invariant Spec.RuboutStart(text, cursor) == Spec.SkipBytesBack(text, start, false)
    {
      start := start - 1;
    }
  }

  /** Where the word before the point ends, or a panic on slicing inside a character. */
  method TransposeScan(u: Spec.CharTables, text: Bytes, cursor: nat) returns (e: nat, panics: bool)
    requires cursor <= |text|
    ensures Spec.TransposeScan(u, text, cursor) == if panics then None else Some(e)
  {
    e, panics := cursor, false;
    while e > 0
      invariant e <= |text|
      invariant Spec.TransposeScan(u, text, cursor) == Spec.TransposeScan(u, text, e)
    {
      if !Boundary(text, e - 1) {
        return e, true;
      }
      if Spec.IsWordAt(u, text, e - 1) {
        return;
      }
      e := PrevCharBoundary(text, e);
    }
  }

  /** The capitalizing loop: the first character raised, every later one lowered. */
  method Capitalize(u: Spec.CharTables, word: string) returns (changed: string)
    ensures changed == Spec.Capitalized(u, word)
  {
    changed := "";
    var i := 0;
    while i < |word|
      invariant i <= |word|
      invariant i == 0 ==> changed == ""
      invariant i > 0 ==> Spec.Capitalized(u, word) == changed + Spec.LowerEach(u, word[i..])
    {
      if i == 0 {
        changed := u.upperChar(word[i]);
      } else {
        ghost var rest := Spec.LowerEach(u, word[i + 1..]);
        assert word[i..][1..] == word[i + 1..];
        assert changed + (u.lowerChar(word[i]) + rest) == (changed + u.lowerChar(word[i])) + rest;
        changed := changed + u.lowerChar(word[i]);
      }
      i := i + 1;
    }
  }

  method Recase(u: Spec.CharTables, word: string, up: bool, capitalize: bool) returns (changed: string)
    ensures changed == Spec.Recased(u, word, up, capitalize)
  {
    if capitalize {
      changed := Capitalize(u, word);
    } else {
      changed := if up then u.upper(word) else u.lower(word);
    }
  }

  // --------------------------------------------------------------------------- editor

  class LineEditor {
    const tables: Spec.CharTables
    const history: seq<Text>
    const maxChars: Option<nat>
    const eolDelim: Option<char>
    var buffer: Bytes
    var cursor: nat
    var esc: Spec.Esc
    var csiParams: string
    var historyIndex: Option<nat>
    var savedLine: Bytes
    var lastAction: Spec.LastAction
    var yankStart: nat
    var yankLen: nat
    var charsRead: nat

    ghost function View(kill: KillRing): Spec.Session
      reads this, kill
    {
      Spec.Session(tables, history, eolDelim, buffer, cursor, esc, csiParams, historyIndex, savedLine,
                   lastAction, yankStart, yankLen, kill.entries)
    }

    ghost function Counted(kill: KillRing): Spec.Editor
      reads this, kill
    {
      Spec.Editor(View(kill), charsRead, maxChars)
    }

    ghost predicate Valid(kill: KillRing)
      reads this, kill
    {
      Spec.Inv(View(kill))
    }

    constructor (tables: Spec.CharTables, initial: Text, history: seq<Text>, maxChars: Option<nat>,
                 eolDelim: Option<char>, ghost kill: KillRing)
      requires forall k :: 0 <= k < |kill.entries| ==> WellFormed(kill.entries[k])
      ensures Valid(kill)
      ensures Counted(kill) == Spec.NewEditor(tables, initial, history, maxChars, eolDelim, kill.entries)
    {
      this.tables, this.history := tables, history;
      this.maxChars := if maxChars == Some(0) then None else maxChars;
      this.eolDelim := if eolDelim == Some('\n') || eolDelim == Some('\0') then None else eolDelim;
      buffer, cursor := initial, |initial|;
      esc, csiParams := Spec.NoEsc, "";
      historyIndex, savedLine := None, [];
      lastAction, yankStart, yankLen := Spec.Other, 0, 0;
      charsRead := 0;
    }

    method NoteOther(ghost kill: KillRing)
      requires Valid(kill)
      modifies this`lastAction
      ensures View(kill) == Spec.NoteOther(old(View(kill)))
    {
      lastAction := Spec.Other;
    }

    method MoveTo(at: nat, ghost kill: KillRing)
      requires Valid(kill) && Boundary(buffer, at)
      modifies this
      ensures View(kill) == Spec.MoveTo(old(View(kill)), at) && charsRead == old(charsRead)
    {
      cursor := at;
      lastAction := Spec.Other;
    }

    /** `replace_range`, leaving the point after the new text. */
    method ReplaceRange(a: nat, b: nat, text: Bytes, ghost kill: KillRing)
      requires Valid(kill) && Boundary(buffer, a) && Boundary(buffer, b) && a <= b && WellFormed(text)
      modifies this
      ensures View(kill) == Spec.Replace(old(View(kill)), a, b, text) && charsRead == old(charsRead)
    {
      buffer := buffer[..a] + text + buffer[b..];
      cursor := a + |text|;
      lastAction := Spec.Other;
    }

    method InsertChar(c: char, ghost kill: KillRing)
      requires Valid(kill)
      modifies this
      ensures View(kill) == Spec.InsertChar(old(View(kill)), c) && charsRead == old(charsRead)
    {
      buffer := buffer[..cursor] + Encode(c) + buffer[cursor..];
      cursor := cursor + |Encode(c)|;
      lastAction := Spec.Other;
    }

    method Rubout(ghost kill: KillRing)
      requires Valid(kill)
      modifies this
      ensures View(kill) == Spec.Rubout(old(View(kill))) && charsRead == old(charsRead)
    {
      if cursor == 0 {
        return;
      }
      var start := PrevCharBoundary(buffer, cursor);
      buffer := buffer[..start] + [] + buffer[cursor..];
      cursor := start;
      lastAction := Spec.Other;
    }

    method DeleteCharAtCursor(ghost kill: KillRing)
      requires Valid(kill)
      modifies this
      ensures View(kill) == Spec.DeleteCharAtCursor(old(View(kill))) && charsRead == old(charsRead)
    {
      if cursor < |buffer| {
        var end := NextCharBoundary(buffer, cursor);
        buffer := buffer[..cursor] + [] + buffer[end..];
      }
      lastAction := Spec.Other;
    }

    /** Drain `a..b` and record the kill. */
    method KillSpan(kill: KillRing, a: nat, b: nat, forward: bool)
      requires Valid(kill) && Boundary(buffer, a) && Boundary(buffer, b)
      requires if forward then a == cursor <= b else a <= cursor == b
      modifies this, kill
      ensures View(kill) == Spec.KillSpan(old(View(kill)), a, b, forward) && charsRead == old(charsRead)
    {
      hide WellFormed, SeqLen, Spec.RingAfterKill;
      SpanWellFormed(buffer, a, b);
      var killed := buffer[a..b];
      buffer := buffer[..a] + [] + buffer[b..];
      cursor := a;
      Record(kill, killed, forward);
    }

    /** `kill`: put killed text into the ring. */
    method Record(kill: KillRing, killed: Bytes, forward: bool)
      requires WellFormed(killed) && forall k :: 0 <= k < |kill.entries| ==> WellFormed(kill.entries[k])
      modifies this`lastAction, kill
      ensures lastAction == Spec.Kill
      ensures kill.entries == Spec.RingAfterKill(old(kill.entries), old(lastAction) == Spec.Kill, killed, forward)
    {
      if killed == [] {
        lastAction := Spec.Kill;
        return;
      }
      if lastAction == Spec.Kill && |kill.entries| > 0 {
        var last := |kill.entries| - 1;
        if forward {
          kill.entries := kill.entries[last := kill.entries[last] + killed];
        } else {
          kill.entries := kill.entries[last := killed + kill.entries[last]];
        }
        lastAction := Spec.Kill;
        return;
      }
      kill.entries := kill.entries + [killed];
      if |kill.entries| > Spec.RING_MAX {
        kill.entries := kill.entries[1..];
      }
      lastAction := Spec.Kill;
    }

    method Yank(kill: KillRing)
      requires Valid(kill)
      modifies this
      ensures View(kill) == Spec.YankTop(old(View(kill))) && charsRead == old(charsRead)
    {
      hide WellFormed, SeqLen;
      if kill.entries == [] {
        lastAction := Spec.Other;
        return;
      }
      var text := kill.entries[|kill.entries| - 1];
      yankStart, yankLen := cursor, |text|;
      buffer := buffer[..cursor] + text + buffer[cursor..];
      cursor := cursor + |text|;
      lastAction := Spec.Yank(|kill.entries| - 1);
    }

    method YankPop(kill: KillRing)
      requires Valid(kill)
      modifies this
      ensures View(kill) == Spec.YankPop(old(View(kill))) && charsRead == old(charsRead)
    {
      hide WellFormed, SeqLen, Boundary, Spec.Splice;
      if !lastAction.Yank? || kill.entries == [] {
        return;
      }
      var index := lastAction.ringIndex;
      var next := if index == 0 then |kill.entries| - 1 else index - 1;
      var text := kill.entries[next];
      buffer := Spec.Splice(buffer, yankStart, yankStart + yankLen, text);
      cursor := yankStart + |text|;
      yankLen := |text|;
      lastAction := Spec.Yank(next);
    }

    method TransposeChars(ghost kill: KillRing)
      requires Valid(kill)
      modifies this
      ensures View(kill) == Spec.TransposeChars(old(View(kill))) && charsRead == old(charsRead)
    {
      hide WellFormed, SeqLen, Spec.TransposeSpans, Spec.NextBoundary;
      var len := |buffer|;
      if cursor == 0 || len < 2 {
        return;
      }
      var first, second, secondEnd := TransposeBounds(buffer, cursor);
      buffer := buffer[..first] + (buffer[second..secondEnd] + buffer[first..second]) + buffer[secondEnd..];
      if cursor < len {
        cursor := secondEnd;
      }
      lastAction := Spec.Other;
    }

    method TransposeWords(ghost kill: KillRing) returns (panics: bool)
      requires Valid(kill)
      modifies this
      ensures match Spec.TransposeWords(old(View(kill)))
              case None => panics
              case Some(m) => !panics && View(kill) == m && charsRead == old(charsRead)
    {
      hide WellFormed, SeqLen, Spec.Splice, Spec.TransposeScan, Spec.WordStartBefore, Spec.WordEndAfter;
      hide Spec.SkipForward;
      var w1End;
      w1End, panics := TransposeScan(tables, buffer, cursor);
      if panics {
        return;
      }
      var w1Start := WordStartBefore(tables, buffer, w1End);
      if w1Start == w1End {
        return;
      }
      var w2Start := SkipForward(tables, buffer, w1End, false);
      if w2Start >= |buffer| {
        return;
      }
      var w2End := WordEndAfter(tables, buffer, w2Start);
      var word1, gap, word2 := buffer[w1Start..w1End], buffer[w1End..w2Start], buffer[w2Start..w2End];
      assert word2 + gap + word1 == Spec.SwapWords(buffer, w1Start, w1End, w2Start, w2End);
      ReplaceRange(w1Start, w2End, word2 + gap + word1, kill);
      cursor := w2End;
    }

    method ChangeWordCase(up: bool, capitalize: bool, ghost kill: KillRing)
      requires Valid(kill)
      modifies this
      ensures View(kill) == Spec.ChangeWordCase(old(View(kill)), up, capitalize) && charsRead == old(charsRead)
    {
      hide WellFormed, SeqLen, Spec.Replace, Spec.Recased, EncodeAll, DecodeAll, Spec.WordEndAfter, Spec.SkipForward;
      var start := SkipForward(tables, buffer, cursor, false);
      var end := WordEndAfter(tables, buffer, start);
      if start >= end {
        return;
      }
      SpanWellFormed(buffer, start, end);
      var recased := Recase(tables, DecodeAll(buffer[start..end]), up, capitalize);
      ReplaceRange(start, end, EncodeAll(recased), kill);
    }

    /** Put a whole line in the buffer with the point at its end. */
    method ShowLine(index: Option<nat>, line: Bytes, ghost kill: KillRing)
      requires Valid(kill) && WellFormed(line) && (index.Some? ==> index.value < |history|)
      modifies this
      ensures View(kill) == Spec.ShowLine(old(View(kill)), index, line) && charsRead == old(charsRead)
    {
      historyIndex := index;
      buffer := line;
      cursor := |buffer|;
      lastAction := Spec.Other;
    }

    method HistoryPrevious(ghost kill: KillRing)
      requires Valid(kill)
      modifies this
      ensures View(kill) == Spec.HistoryPrevious(old(View(kill))) && charsRead == old(charsRead)
    {
      hide WellFormed, SeqLen;
      if history == [] {
        return;
      }
      var index: nat;
      match historyIndex {
        case None =>
          savedLine := buffer;
          index := |history| - 1;
        case Some(i) =>
          index := if i == 0 then 0 else i - 1;
      }
      ShowLine(Some(index), history[index], kill);
    }

    method HistoryNext(ghost kill: KillRing)
      requires Valid(kill)
      modifies this
      ensures View(kill) == Spec.HistoryNext(old(View(kill))) && charsRead == old(charsRead)
    {
      hide WellFormed, SeqLen;
      if historyIndex.None? {
        return;
      }
      var i := historyIndex.value;
      if i + 1 < |history| {
        ShowLine(Some(i + 1), history[i + 1], kill);
      } else {
        ShowLine(None, savedLine, kill);
      }
    }

    method BeginningOfHistory(ghost kill: KillRing)
      requires Valid(kill)
      modifies this
      ensures View(kill) == Spec.BeginningOfHistory(old(View(kill))) && charsRead == old(charsRead)
    {
      hide WellFormed, SeqLen;
      if history != [] {
        if historyIndex.None? {
          savedLine := buffer;
        }
        ShowLine(Some(0), history[0], kill);
      }
      NoteOther(kill);
    }

    method EndOfHistory(ghost kill: KillRing)
      requires Valid(kill)
      modifies this
      ensures View(kill) == Spec.EndOfHistory(old(View(kill))) && charsRead == old(charsRead)
    {
      hide WellFormed, SeqLen;
      if historyIndex.Some? {
        ShowLine(None, savedLine, kill);
      }
      NoteOther(kill);
    }

    method CsiDispatch(params: string, final: char, ghost kill: KillRing)
      requires Valid(kill)
      modifies this
      ensures View(kill) == Spec.CsiDispatch(old(View(kill)), params, final) && charsRead == old(charsRead)
    {
      hide Spec.HistoryPrevious, Spec.HistoryNext, Spec.CsiTilde, WellFormed, SeqLen;
      NoteOther(kill);
      var word := Spec.WordModifier(params);
      if final == 'A' {
        HistoryPrevious(kill);
      } else if final == 'B' {
        HistoryNext(kill);
      } else if final == 'C' {
        var at: nat;
        if word { at := WordEndAfter(tables, buffer, cursor); } else { at := NextCharBoundary(buffer, cursor); }
        MoveTo(at, kill);
      } else if final == 'D' {
        var at: nat;
        if word { at := WordStartBefore(tables, buffer, cursor); } else { at := PrevCharBoundary(buffer, cursor); }
        MoveTo(at, kill);
      } else if final == 'H' {
        MoveTo(0, kill);
      } else if final == 'F' {
        MoveTo(|buffer|, kill);
      } else if final == '~' {
        CsiTilde(Spec.FirstField(params), word, kill);
      }
    }

    method CsiTilde(key: string, word: bool, ghost kill: KillRing)
      requires Valid(kill)
      modifies this
      ensures View(kill) == Spec.CsiTilde(old(View(kill)), key, word) && charsRead == old(charsRead)
    {
      hide Spec.DeleteCharAtCursor, Spec.BeginningOfHistory, Spec.EndOfHistory, WellFormed, SeqLen;
      if key == "1" || key == "7" {
        MoveTo(0, kill);
      } else if key == "4" || key == "8" {
        MoveTo(|buffer|, kill);
      } else if key == "3" {
        if word {
          var end := WordEndAfter(tables, buffer, cursor);
          buffer := buffer[..cursor] + [] + buffer[end..];
          lastAction := Spec.Other;
        } else {
          DeleteCharAtCursor(kill);
        }
      } else if key == "5" {
        BeginningOfHistory(kill);
      } else if key == "6" {
        EndOfHistory(kill);
      } else {
        NoteOther(kill);
      }
    }

    method Ss3Dispatch(c: char, ghost kill: KillRing)
      requires Valid(kill)
      modifies this
      ensures View(kill) == Spec.Ss3Dispatch(old(View(kill)), c) && charsRead == old(charsRead)
    {
      hide Spec.HistoryPrevious, Spec.HistoryNext, WellFormed, SeqLen;
      NoteOther(kill);
      if c == 'A' {
        HistoryPrevious(kill);
      } else if c == 'B' {
        HistoryNext(kill);
      } else if c == 'C' {
        var at := NextCharBoundary(buffer, cursor);
        MoveTo(at, kill);
      } else if c == 'D' {
        var at := PrevCharBoundary(buffer, cursor);
        MoveTo(at, kill);
      } else if c == 'H' {
        MoveTo(0, kill);
      } else if c == 'F' {
        MoveTo(|buffer|, kill);
      }
    }

    /** What an outcome and the state left behind say about the specified step. */
    ghost predicate Matches(out: Outcome, step: Spec.Step<Spec.Session>, kill: KillRing)
      reads this, kill
    {
      match step
      case Running(m, clear) => out == (if clear then ClearScreen else Continue) && View(kill) == m
      case Ended(end, m) => out == End(end) && View(kill) == m
      case Panicked => out == Panic
    }

    method MetaDispatch(c: char, kill: KillRing) returns (out: Outcome)
      requires Valid(kill)
      modifies this, kill
      ensures Matches(out, Spec.MetaDispatch(old(View(kill)), c), kill) && (!out.Panic? ==> charsRead == old(charsRead))
    {
      hide Spec.KillSpan, Spec.ChangeWordCase, Spec.TransposeWords, Spec.YankPop;
      hide Spec.BeginningOfHistory, Spec.EndOfHistory, WellFormed, SeqLen;
      out := Continue;
      if c == '[' {
        esc := Spec.Csi;
        csiParams := "";
      } else if c == 'O' {
        esc := Spec.Ss3;
      } else if c == 'b' {
        var at := WordStartBefore(tables, buffer, cursor);
        MoveTo(at, kill);
      } else if c == 'f' {
        var at := WordEndAfter(tables, buffer, cursor);
        MoveTo(at, kill);
      } else if c == 'd' {
        var end := WordEndAfter(tables, buffer, cursor);
        KillSpan(kill, cursor, end, true);
      } else if c == Spec.DEL || c == Spec.BACKSPACE {
        var start := WordStartBefore(tables, buffer, cursor);
        KillSpan(kill, start, cursor, false);
      } else if c == 'u' {
        ChangeWordCase(true, false, kill);
      } else if c == 'l' {
        ChangeWordCase(false, false, kill);
      } else if c == 'c' {
        ChangeWordCase(true, true, kill);
      } else if c == 't' {
        var panics := TransposeWords(kill);
        out := if panics then Panic else Continue;
      } else if c == 'y' {
        YankPop(kill);
      } else if c == '<' {
        BeginningOfHistory(kill);
      } else if c == '>' {
        EndOfHistory(kill);
      } else {
        NoteOther(kill);
      }
    }

    /** Take the line out of the buffer and end the session. */
    method Accept(ghost kill: KillRing) returns (out: Outcome)
      modifies this`buffer
      ensures Matches(out, Spec.Accept(old(View(kill))), kill)
    {
      out := End(Spec.Accepted(buffer));
      buffer := [];
    }

    method PlainDispatch(c: char, kill: KillRing) returns (out: Outcome)
      requires Valid(kill)
      modifies this, kill
      ensures Matches(out, Spec.PlainDispatch(old(View(kill)), c), kill) && charsRead == old(charsRead)
    {
      hide Spec.KillSpan, Spec.Rubout, Spec.DeleteCharAtCursor, Spec.TransposeChars, Spec.YankTop, Spec.InsertChar;
      hide Spec.HistoryPrevious, Spec.HistoryNext, WellFormed, SeqLen, Spec.RuboutStart;
      out := Continue;
      if Some(c) == eolDelim || c == '\n' || c == '\r' || c == '\U{0f}' {
        out := Accept(kill);
      } else if c == '\U{01}' {
        MoveTo(0, kill);
      } else if c == '\U{05}' {
        MoveTo(|buffer|, kill);
      } else if c == '\U{02}' {
        var at := PrevCharBoundary(buffer, cursor);
        MoveTo(at, kill);
      } else if c == '\U{06}' {
        var at := NextCharBoundary(buffer, cursor);
        MoveTo(at, kill);
      } else if c == Spec.BACKSPACE || c == Spec.DEL {
        Rubout(kill);
      } else if c == '\U{04}' {
        if buffer == [] {
          out := End(Spec.Eof);
        } else {
          DeleteCharAtCursor(kill);
        }
      } else if c == '\U{0b}' {
        KillSpan(kill, cursor, |buffer|, true);
      } else if c == '\U{15}' {
        KillSpan(kill, 0, cursor, false);
      } else if c == '\U{17}' {
        var start := RuboutStart(buffer, cursor);
        Spec.RuboutStartIsBoundary(buffer, cursor);
        KillSpan(kill, start, cursor, false);
      } else if c == '\U{14}' {
        TransposeChars(kill);
      } else if c == '\U{19}' {
        Yank(kill);
      } else if c == '\U{10}' {
        HistoryPrevious(kill);
      } else if c == '\U{0e}' {
        HistoryNext(kill);
      } else if c == '\U{0c}' {
        NoteOther(kill);
        out := ClearScreen;
      } else if c == '\U{16}' {
        esc := Spec.QuotedInsert;
      } else if c == '\U{18}' {
        esc := Spec.Ctlx;
      } else if c == Spec.ESC {
        esc := Spec.Meta;
      } else if c >= ' ' {
        InsertChar(c, kill);
      } else {
        NoteOther(kill);
      }
    }

    method Dispatch(c: char, kill: KillRing) returns (out: Outcome)
      requires Valid(kill)
      modifies this, kill
      ensures Matches(out, Spec.Dispatch(old(View(kill)), c), kill) && (!out.Panic? ==> charsRead == old(charsRead))
    {
      hide Spec.InsertChar, Spec.MetaDispatch, Spec.CsiDispatch, Spec.Ss3Dispatch, Spec.PlainDispatch, WellFormed;
      hide SeqLen;
      match esc {
        case QuotedInsert =>
          esc := Spec.NoEsc;
          InsertChar(c, kill);
          return Continue;
        case Meta =>
          esc := Spec.NoEsc;
          out := MetaDispatch(c, kill);
          return;
        case Csi =>
          if '\U{40}' <= c <= '\U{7e}' {
            esc := Spec.NoEsc;
            var params := csiParams;
            csiParams := "";
            CsiDispatch(params, c, kill);
          } else {
            csiParams := csiParams + [c];
          }
          return Continue;
        case Ss3 =>
          esc := Spec.NoEsc;
          Ss3Dispatch(c, kill);
          return Continue;
        case Ctlx =>
          esc := Spec.NoEsc;
          NoteOther(kill);
          return Continue;
        case NoEsc =>
          out := PlainDispatch(c, kill);
      }
    }

    /** `feed`: one input character against the caller's kill ring. */
    method Feed(c: char, kill: KillRing) returns (out: Outcome)
      requires Valid(kill)
      modifies this, kill
      ensures match Spec.Feed(old(Counted(kill)), c)
              case Running(e, clear) =>
                out == (if clear then ClearScreen else Continue) && Counted(kill) == e && Valid(kill)
              case Ended(end, e) => out == End(end) && Counted(kill) == e
              case Panicked => out == Panic
    {
      hide Spec.Dispatch, WellFormed, SeqLen;
      charsRead := charsRead + 1;
      out := Dispatch(c, kill);
      if out.Continue? || out.ClearScreen? {
        if maxChars.Some? && charsRead >= maxChars.value {
          out := Accept(kill);
        }
      }
    }
  }

  /** Feed a whole string, as the read builtin does, until the session ends. */
  method FeedString(ed: LineEditor, kill: KillRing, input: string) returns (out: Outcome)
    requires ed.Valid(kill) && input != ""
    modifies ed, kill
    ensures match Spec.FeedAll(old(ed.Counted(kill)), input)
            case Running(e, clear) =>
              out == (if clear then ClearScreen else Continue) && ed.Counted(kill) == e && ed.Valid(kill)
            case Ended(end, e) => out == End(end) && ed.Counted(kill) == e
            case Panicked => out == Panic
  {
    hide Spec.Feed, Spec.Inv;
    var i := 0;
    out := Continue;
    while i < |input|
      invariant i <= |input|
      invariant ed.Valid(kill)
      invariant i < |input| ==>
        Spec.FeedAll(old(ed.Counted(kill)), input) == Spec.FeedAll(ed.Counted(kill), input[i..])
      invariant i == |input| ==>
        Spec.FeedAll(old(ed.Counted(kill)), input) == Spec.Running(ed.Counted(kill), out == ClearScreen)
      invariant i > 0 ==> out == Continue || out == ClearScreen
    {
      assert input[i..][0] == input[i] && input[i..][1..] == input[i + 1..];
      out := ed.Feed(input[i], kill);
      if out.End? || out.Panic? {
        return;
      }
      i := i + 1;
    }
  }
}
