/**
 What a word is to the `read -e` editor (src/readline_editor.rs), said without the scans that look for it: the
 end of the word after a position and the start of the word before one, and the keys that go there.
 */
module EditorWords {
  import opened Utf8
  import opened Wrappers
  import opened EditorSpec
  import opened EditorTheorems

  /** A word character starts at each character boundary from `a` up to `b`, or at none of them. */
  predicate AllWord(u: CharTables, t: Bytes, a: nat, b: nat, word: bool) {
    forall k :: a <= k < b && Boundary(t, k) ==> IsWordAt(u, t, k) == word
  }

  /** The first word after `at` starts at `s` and ends at `r`; behind the last word both are the end of the text. */
  predicate WordAfter(u: CharTables, t: Bytes, at: nat, s: nat, r: nat) {
    && at <= s <= r <= |t| && Boundary(t, s) && Boundary(t, r)
    && AllWord(u, t, at, s, false) && AllWord(u, t, s, r, true)
    && (r < |t| ==> !IsWordAt(u, t, r)) && (s < |t| ==> s < r)
  }

  ghost predicate IsWordEnd(u: CharTables, t: Bytes, at: nat, r: nat) { exists s :: WordAfter(u, t, at, s, r) }

  /** The last word before `at` ends at `s` and starts at `r`; before the first word both are 0. */
  predicate WordBefore(u: CharTables, t: Bytes, at: nat, s: nat, r: nat) {
    && r <= s <= at <= |t| && Boundary(t, s) && Boundary(t, r)
    && AllWord(u, t, s, at, false) && AllWord(u, t, r, s, true)
    && (r > 0 ==> !IsWordAt(u, t, PrevBoundary(t, r))) && (s > 0 ==> r < s)
  }

  ghost predicate IsWordStart(u: CharTables, t: Bytes, at: nat, r: nat) { exists s :: WordBefore(u, t, at, s, r) }

  lemma {:induction false} SkippedForward(u: CharTables, t: Bytes, i: nat, word: bool)
    requires Boundary(t, i)
    ensures AllWord(u, t, i, SkipForward(u, t, i, word), word)
    ensures i < |t| && IsWordAt(u, t, i) == word ==> i < SkipForward(u, t, i, word)
    decreases |t| - i
  {
    hide IsWordAt, NextBoundary;
    if i < |t| && IsWordAt(u, t, i) == word {
      SkippedForward(u, t, NextBoundary(t, i), word);
    }
  }

  lemma {:induction false} SkippedBack(u: CharTables, t: Bytes, i: nat, word: bool)
    requires Boundary(t, i)
    ensures AllWord(u, t, SkipBack(u, t, i, word), i, word)
    ensures i > 0 && IsWordAt(u, t, PrevBoundary(t, i)) == word ==> SkipBack(u, t, i, word) < i
    decreases i
  {
    hide IsWordAt, PrevBoundary;
    if i > 0 && IsWordAt(u, t, PrevBoundary(t, i)) == word {
      SkippedBack(u, t, PrevBoundary(t, i), word);
    }
  }

  lemma FoundWordAfter(u: CharTables, t: Bytes, at: nat)
    requires Boundary(t, at)
    ensures WordAfter(u, t, at, SkipForward(u, t, at, false), WordEndAfter(u, t, at))
  {
    hide IsWordAt;
    var s := SkipForward(u, t, at, false);
    SkippedForward(u, t, at, false);
    SkippedForward(u, t, s, true);
  }

  lemma FoundWordBefore(u: CharTables, t: Bytes, at: nat)
    requires Boundary(t, at)
    ensures WordBefore(u, t, at, SkipBack(u, t, at, false), WordStartBefore(u, t, at))
  {
    hide IsWordAt, PrevBoundary;
    var s := SkipBack(u, t, at, false);
    SkippedBack(u, t, at, false);
    SkippedBack(u, t, s, true);
  }

  /** There is one such word. */
  lemma OneWordAfter(u: CharTables, t: Bytes, at: nat, s: nat, r: nat, s1: nat, r1: nat)
    requires WordAfter(u, t, at, s, r) && WordAfter(u, t, at, s1, r1)
    ensures s == s1 && r == r1
  {
    hide IsWordAt;
    assert s < s1 ==> IsWordAt(u, t, s);
    assert s1 < s ==> IsWordAt(u, t, s1);
    assert r < r1 && s == s1 ==> IsWordAt(u, t, r);
    assert r1 < r && s == s1 ==> IsWordAt(u, t, r1);
  }

  lemma NoLaterWordBefore(u: CharTables, t: Bytes, at: nat, s: nat, r: nat, s1: nat, r1: nat)
    requires WordBefore(u, t, at, s, r) && WordBefore(u, t, at, s1, r1)
    ensures s1 <= s && (s == s1 ==> r1 <= r)
  {
    hide IsWordAt, PrevBoundary;
    assert 0 < s1 <= |t| ==> PrevBoundary(t, s1) < s1;
    assert 0 < r1 <= |t| ==> PrevBoundary(t, r1) < r1;
  }

  lemma OneWordBefore(u: CharTables, t: Bytes, at: nat, s: nat, r: nat, s1: nat, r1: nat)
    requires WordBefore(u, t, at, s, r) && WordBefore(u, t, at, s1, r1)
    ensures s == s1 && r == r1
  {
    hide WordBefore;
    NoLaterWordBefore(u, t, at, s, r, s1, r1);
    NoLaterWordBefore(u, t, at, s1, r1, s, r);
  }

  /** The scan for the end of a word finds the end of the first word after a position, and nothing else is one. */
  lemma WordEndIs(u: CharTables, t: Bytes, at: nat, r: nat)
    requires Boundary(t, at)
    ensures IsWordEnd(u, t, at, r) <==> r == WordEndAfter(u, t, at)
  {
    FoundWordAfter(u, t, at);
    hide WordAfter, WordEndAfter;
    if IsWordEnd(u, t, at, r) {
      var s :| WordAfter(u, t, at, s, r);
      OneWordAfter(u, t, at, s, r, SkipForward(u, t, at, false), WordEndAfter(u, t, at));
    }
  }

  /** The scan for the start of a word finds the start of the last word before a position, and nothing else is one. */
  lemma WordStartIs(u: CharTables, t: Bytes, at: nat, r: nat)
    requires Boundary(t, at)
    ensures IsWordStart(u, t, at, r) <==> r == WordStartBefore(u, t, at)
  {
    FoundWordBefore(u, t, at);
    hide WordBefore, WordStartBefore;
    if IsWordStart(u, t, at, r) {
      var s :| WordBefore(u, t, at, s, r);
      OneWordBefore(u, t, at, s, r, SkipBack(u, t, at, false), WordStartBefore(u, t, at));
    }
  }

  // ------------------------------------------------------------------------------- the keys

  lemma MetaWordKeys(m: Session)
    requires Inv(m)
    ensures MetaDispatch(m, 'f') == Running(MoveTo(m, WordEndAfter(m.tables, m.buffer, m.cursor)), false)
    ensures MetaDispatch(m, 'b') == Running(MoveTo(m, WordStartBefore(m.tables, m.buffer, m.cursor)), false)
    ensures MetaDispatch(m, 'd') == Running(KillWord(m), false)
    ensures MetaDispatch(m, DEL) == Running(BackwardKillWord(m), false)
  {
    hide Inv, MoveTo, KillWord, BackwardKillWord, WordEndAfter, WordStartBefore;
  }

  /** What is left when a stretch is taken out. */
  lemma TakenOut(t: Bytes, a: nat, b: nat)
    requires a <= b <= |t|
    ensures Splice(t, a, b, []) == t[..a] + t[b..]
  {
    assert t[..a] + [] == t[..a];
  }

  lemma KillWordIs(m: Session)
    requires Inv(m)
    ensures KillWord(m) == KillBy(m, MetaD) && BackwardKillWord(m) == KillBy(m, MetaDel)
  {
    hide WellFormed, SeqLen, WordEndAfter, WordStartBefore, KillSpan;
  }

  /** What a kill of the stretch from `a` up to `b` does: it goes out of the line and onto the ring. */
  predicate Kills(m: Session, r: Session, a: nat, b: nat, forward: bool)
    requires a <= b <= |m.buffer| && WellFormed(m.buffer[a..b])
    requires forall k :: 0 <= k < |m.ring| ==> WellFormed(m.ring[k])
  {
    && r.buffer == m.buffer[..a] + m.buffer[b..] && r.cursor == a
    && r.ring == RingAfterKill(m.ring, m.lastAction == Kill, m.buffer[a..b], forward)
  }

  lemma KillByKills(m: Session, key: KillKey)
    requires Inv(m)
    ensures var (a, b, forward) := Extent(m, key);
            && a <= b <= |m.buffer| && WellFormed(m.buffer[a..b]) && Kills(m, KillBy(m, key), a, b, forward)
  {
    var (a, b, forward) := Extent(m, key);
    KillByEffect(m, key);
    SpanWellFormed(m.buffer, a, b);
    hide WellFormed, Boundary, SeqLen, Extent, RingAfterKill, Splice, KillBy;
    TakenOut(m.buffer, a, b);
  }

  lemma WordExtents(m: Session)
    requires Inv(m)
    ensures Extent(m, MetaD) == (m.cursor, WordEndAfter(m.tables, m.buffer, m.cursor), true)
    ensures Extent(m, MetaDel) == (WordStartBefore(m.tables, m.buffer, m.cursor), m.cursor, false)
  {
    hide WellFormed, Boundary, SeqLen, WordEndAfter, WordStartBefore, RuboutStart, Inv;
  }

  lemma MovedTo(m: Session, cursor: nat)
    requires Inv(m) && Boundary(m.buffer, cursor)
    ensures MoveTo(m, cursor).cursor == cursor && MoveTo(m, cursor).buffer == m.buffer
  {
  }

  lemma PointIsBoundary(m: Session)
    requires Inv(m)
    ensures Boundary(m.buffer, m.cursor) && forall k :: 0 <= k < |m.ring| ==> WellFormed(m.ring[k])
  {
  }

  lemma ForwardKeys(m: Session)
    requires Inv(m)
    ensures MetaDispatch(m, 'f').Running? && MetaDispatch(m, 'd').Running?
    ensures var moved, killed := MetaDispatch(m, 'f').m, MetaDispatch(m, 'd').m;
            var r := moved.cursor;
            && IsWordEnd(m.tables, m.buffer, m.cursor, r) && moved.buffer == m.buffer
            && m.cursor <= r <= |m.buffer| && WellFormed(m.buffer[m.cursor..r]) && Kills(m, killed, m.cursor, r, true)
  {
    hide *;
    var r := WordEndAfter(m.tables, m.buffer, m.cursor);
    PointIsBoundary(m);
    MetaWordKeys(m);
    WordEndIs(m.tables, m.buffer, m.cursor, r);
    KillWordIs(m);
    WordExtents(m);
    KillByKills(m, MetaD);
    MovedTo(m, r);
  }

  lemma BackwardKeys(m: Session)
    requires Inv(m)
    ensures MetaDispatch(m, 'b').Running? && MetaDispatch(m, DEL).Running?
    ensures var moved, killed := MetaDispatch(m, 'b').m, MetaDispatch(m, DEL).m;
            var r := moved.cursor;
            && IsWordStart(m.tables, m.buffer, m.cursor, r) && moved.buffer == m.buffer
            && r <= m.cursor <= |m.buffer| && WellFormed(m.buffer[r..m.cursor]) && Kills(m, killed, r, m.cursor, false)
  {
    hide *;
    var r := WordStartBefore(m.tables, m.buffer, m.cursor);
    PointIsBoundary(m);
    MetaWordKeys(m);
    WordStartIs(m.tables, m.buffer, m.cursor, r);
    KillWordIs(m);
    WordExtents(m);
    KillByKills(m, MetaDel);
    MovedTo(m, r);
  }

  lemma DispatchesMeta(m: Session, c: char)
    requires Inv(m) && m.esc == Meta
    ensures Inv(m.(esc := NoEsc)) && Dispatch(m, c) == MetaDispatch(m.(esc := NoEsc), c)
  {
    hide WellFormed, Boundary, MetaDispatch, TransposeScan;
  }

  lemma RingIsText(m: Session)
    requires Inv(m)
    ensures forall k :: 0 <= k < |m.ring| ==> WellFormed(m.ring[k])
  {
  }

  /** M-f goes to the end of the word after the point, and M-d kills up to there. */
  lemma ForwardWordKeys(m: Session)
    requires Inv(m) && m.esc == Meta
    ensures Dispatch(m, 'f').Running? && Dispatch(m, 'd').Running?
    ensures var moved, killed := Dispatch(m, 'f').m, Dispatch(m, 'd').m;
            var r := moved.cursor;
            && IsWordEnd(m.tables, m.buffer, m.cursor, r) && moved.buffer == m.buffer
            && m.cursor <= r <= |m.buffer| && WellFormed(m.buffer[m.cursor..r]) && Kills(m, killed, m.cursor, r, true)
  {
    hide Inv, Dispatch, MetaDispatch, IsWordEnd, WellFormed, RingAfterKill, TransposeScan, SameInputs, Boundary;
    RingIsText(m);
    DispatchesMeta(m, 'f');
    DispatchesMeta(m, 'd');
    ForwardKeys(m.(esc := NoEsc));
  }

  /** M-b goes to the start of the word before the point, and M-DEL kills back to there. */
  lemma BackwardWordKeys(m: Session)
    requires Inv(m) && m.esc == Meta
    ensures Dispatch(m, 'b').Running? && Dispatch(m, DEL).Running?
    ensures var moved, killed := Dispatch(m, 'b').m, Dispatch(m, DEL).m;
            var r := moved.cursor;
            && IsWordStart(m.tables, m.buffer, m.cursor, r) && moved.buffer == m.buffer
            && r <= m.cursor <= |m.buffer| && WellFormed(m.buffer[r..m.cursor]) && Kills(m, killed, r, m.cursor, false)
  {
    hide Inv, Dispatch, MetaDispatch, IsWordStart, WellFormed, RingAfterKill, TransposeScan, SameInputs, Boundary;
    RingIsText(m);
    DispatchesMeta(m, 'b');
    DispatchesMeta(m, DEL);
    BackwardKeys(m.(esc := NoEsc));
  }
}
