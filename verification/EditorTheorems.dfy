/**
 What runs of the `read -e` editor promise (src/readline_editor.rs): kills followed by a
 yank, the yank-pop cycle, history recall, and where M-t panics.
 */
module EditorTheorems {
  import opened Utf8
  import opened Wrappers
  import opened EditorSpec

  const CTRL_Y := '\U{19}'
  const CTRL_P := '\U{10}'
  const CTRL_N := '\U{0e}'
  const META_Y := [ESC, 'y']

  function Repeat(s: string, k: nat): string { if k == 0 then "" else Repeat(s, k - 1) + s }

  /** Feeding two pieces of input one after the other. */
  lemma {:induction false} FeedAllConcat(e: Editor, a: string, b: string)
    requires Inv(e.m)
    ensures FeedAll(e, a).Running? && b != "" ==> FeedAll(e, a + b) == FeedAll(FeedAll(e, a).m, b)
    ensures !FeedAll(e, a).Running? || b == "" ==> FeedAll(e, a + b) == FeedAll(e, a)
    decreases |a|
  {
    hide Inv, Feed;
    if a == "" {
      assert a + b == b;
    } else if b == "" {
      assert a + b == a;
    } else {
      assert (a + b)[0] == a[0] && (a + b)[1..] == a[1..] + b;
      var out := Feed(e, a[0]);
      if out.Running? {
        FeedAllConcat(out.m, a[1..], b);
        if |a| == 1 {
          assert a[1..] == "";
        }
      }
    }
  }

  lemma FeedNothing(e: Editor)
    requires Inv(e.m)
    ensures FeedAll(e, "") == Running(e, false)
  {
  }

  /** A character typed outside an escape sequence, and one typed after ESC: unless the
      session ends, its command has run. */
  lemma TypedPlain(e: Editor, c: char)
    requires Inv(e.m) && e.m.esc == NoEsc
    ensures FeedAll(e, [c]).Running? ==>
              PlainDispatch(e.m, c).Running? && FeedAll(e, [c]).m.m == PlainDispatch(e.m, c).m
  {
    hide Inv, PlainDispatch, MetaDispatch, CsiDispatch, Ss3Dispatch, InsertChar, NoteOther;
    assert FeedAll(e, [c]) == Feed(e, c);
  }

  lemma TypedMeta(e: Editor, c: char)
    requires Inv(e.m) && e.m.esc == NoEsc
    ensures FeedAll(e, [ESC, c]).Running? ==>
              MetaDispatch(e.m, c).Running? && FeedAll(e, [ESC, c]).m.m == MetaDispatch(e.m, c).m
  {
    TypedPlain(e, ESC);
    PlainEscape(e.m);
    assert [ESC, c] == [ESC] + [c];
    FeedAllConcat(e, [ESC], [c]);
    hide Inv, PlainDispatch, MetaDispatch, CsiDispatch, Ss3Dispatch, InsertChar, NoteOther;
    var out := FeedAll(e, [ESC]);
    if out.Running? {
      assert out.m.m.(esc := NoEsc) == e.m;
      assert FeedAll(out.m, [c]) == Feed(out.m, c);
    }
  }

  lemma PlainEscape(m: Session)
    requires Inv(m)
    ensures PlainDispatch(m, ESC).Running? ==> PlainDispatch(m, ESC).m == m.(esc := Meta)
  {
    hide Inv, Replace, MoveTo, KillLine, LineDiscard, WordRubout, Accept;
    hide Rubout, DeleteCharAtCursor, TransposeChars, InsertChar, YankTop, HistoryPrevious, HistoryNext, NoteOther;
  }

  // ---------------------------------------------------------------- kill and yank

  datatype KillKey = CtrlK | CtrlU | CtrlW | MetaD | MetaDel

  function Typed(key: KillKey): string {
    match key
    case CtrlK => ['\U{0b}']
    case CtrlU => ['\U{15}']
    case CtrlW => ['\U{17}']
    case MetaD => [ESC, 'd']
    case MetaDel => [ESC, DEL]
  }

  function TypedAll(keys: seq<KillKey>): string {
    if keys == [] then "" else Typed(keys[0]) + TypedAll(keys[1..])
  }

  /** The bytes a kill key removes and whether it kills forward. */
  function Extent(m: Session, key: KillKey): (r: (nat, nat, bool))
    requires Inv(m)
    ensures Boundary(m.buffer, r.0) && Boundary(m.buffer, r.1) && r.1 <= |m.buffer|
    ensures if r.2 then r.0 == m.cursor <= r.1 else r.0 <= m.cursor == r.1
  {
    match key
    case CtrlK => (m.cursor, |m.buffer|, true)
    case CtrlU => (0, m.cursor, false)
    case CtrlW => RuboutStartIsBoundary(m.buffer, m.cursor); (RuboutStart(m.buffer, m.cursor), m.cursor, false)
    case MetaD => (m.cursor, WordEndAfter(m.tables, m.buffer, m.cursor), true)
    case MetaDel => (WordStartBefore(m.tables, m.buffer, m.cursor), m.cursor, false)
  }

  function KillBy(m: Session, key: KillKey): (r: Session)
    requires Inv(m)
    ensures Inv(r) && r.esc == m.esc
  {
    var (a, b, forward) := Extent(m, key);
    KillSpan(m, a, b, forward)
  }

  function KilledText(m: Session, key: KillKey): (t: Bytes)
    requires Inv(m)
    ensures WellFormed(t)
  {
    SpanWellFormed(m.buffer, Extent(m, key).0, Extent(m, key).1);
    m.buffer[Extent(m, key).0..Extent(m, key).1]
  }

  function KillAll(m: Session, keys: seq<KillKey>): (r: Session)
    requires Inv(m)
    ensures Inv(r) && r.esc == m.esc
    decreases |keys|
  {
    if keys == [] then m else KillAll(KillBy(m, keys[0]), keys[1..])
  }

  lemma KillKeyDispatch(m: Session, key: KillKey)
    requires Inv(m)
    ensures var out := if |Typed(key)| == 1 then PlainDispatch(m, Typed(key)[0]) else MetaDispatch(m, Typed(key)[1]);
            out.Running? ==> out.m == KillBy(m, key)
  {
    hide Inv, RingAfterKill, WordEndAfter, WordStartBefore, RuboutStart, MoveTo, Accept, NoteOther;
    hide Rubout, DeleteCharAtCursor, TransposeChars, TransposeWords, ChangeWordCase, InsertChar, YankTop, YankPop;
    hide HistoryPrevious, HistoryNext, BeginningOfHistory, EndOfHistory, KillSpan;
  }

  /** Typing a kill key outside an escape sequence performs its kill. */
  lemma TypedKill(e: Editor, key: KillKey)
    requires Inv(e.m) && e.m.esc == NoEsc
    ensures FeedAll(e, Typed(key)).Running? ==> FeedAll(e, Typed(key)).m.m == KillBy(e.m, key)
  {
    hide Inv, FeedAll, PlainDispatch, MetaDispatch, KillBy;
    KillKeyDispatch(e.m, key);
    TypedPlain(e, Typed(key)[0]);
    TypedMeta(e, Typed(key)[|Typed(key)| - 1]);
  }

  lemma {:induction false} TypedKills(e: Editor, keys: seq<KillKey>)
    requires Inv(e.m) && e.m.esc == NoEsc
    ensures FeedAll(e, TypedAll(keys)).Running? ==> FeedAll(e, TypedAll(keys)).m.m == KillAll(e.m, keys)
    decreases |keys|
  {
    if keys != [] {
      hide Inv, FeedAll, KillBy;
      var first, rest := Typed(keys[0]), TypedAll(keys[1..]);
      TypedKill(e, keys[0]);
      FeedAllConcat(e, first, rest);
      if FeedAll(e, first).Running? {
        var next := FeedAll(e, first).m;
        TypedKills(next, keys[1..]);
        if rest == "" {
          assert keys[1..] == [] || |rest| >= |Typed(keys[1..][0])|;
        }
      }
    }
  }

  function Top(ring: seq<Bytes>): Bytes
    requires ring != []
  {
    ring[|ring| - 1]
  }

  /** The line with the newest kill put back at the point. */
  function Whole(m: Session): Bytes
    requires m.ring != [] && m.cursor <= |m.buffer|
  {
    m.buffer[..m.cursor] + Top(m.ring) + m.buffer[m.cursor..]
  }

  lemma CutPieces(t: Bytes, a: nat, b: nat)
    requires a <= b <= |t|
    ensures var r := Splice(t, a, b, []); r[..a] == t[..a] && r[a..] == t[b..]
    ensures t == t[..a] + t[a..b] + t[b..]
    ensures t[..b] == t[..a] + t[a..b] && t[a..] == t[a..b] + t[b..]
  {
  }

  lemma KillByEffect(m: Session, key: KillKey)
    requires Inv(m)
    ensures var (a, b, forward) := Extent(m, key);
            var r := KillBy(m, key);
            && r.buffer == Splice(m.buffer, a, b, []) && r.cursor == a && r.lastAction == Kill
            && r.ring == RingAfterKill(m.ring, m.lastAction == Kill, KilledText(m, key), forward)
  {
    hide WellFormed, Boundary, SeqLen, WordEndAfter, WordStartBefore, RuboutStart, Splice, RingAfterKill;
  }

  lemma Regroup(left: Bytes, top: Bytes, mid: Bytes, right: Bytes)
    ensures left + (top + mid) + right == left + top + (mid + right)
    ensures left + (mid + top) + right == (left + mid) + top + right
  {
  }

  lemma RingTopAfterKill(ring: seq<Bytes>, merge: bool, killed: Bytes, forward: bool)
    requires (forall k :: 0 <= k < |ring| ==> WellFormed(ring[k])) && WellFormed(killed)
    requires killed != [] || ring != []
    ensures var r := RingAfterKill(ring, merge, killed, forward);
            && r != []
            && Top(r) == if killed == [] then Top(ring)
                         else if !merge || ring == [] then killed
                         else if forward then Top(ring) + killed else killed + Top(ring)
  {
    hide WellFormed;
  }

  /** A kill merged into the newest entry conserves the whole line. */
  lemma MergedKillConserves(m: Session, key: KillKey)
    requires Inv(m) && m.lastAction == Kill && m.ring != []
    ensures var r := KillBy(m, key); r.ring != [] && r.lastAction == Kill && Whole(r) == Whole(m)
  {
    var (a, b, forward) := Extent(m, key);
    KillByEffect(m, key);
    RingTopAfterKill(m.ring, true, KilledText(m, key), forward);
    hide WellFormed, Boundary, SeqLen, Extent, KillBy, Inv, RingAfterKill, Splice;
    CutPieces(m.buffer, a, b);
    Regroup(m.buffer[..a], Top(m.ring), m.buffer[a..b], m.buffer[b..]);
  }

  /** A kill that opens a ring entry conserves the line, also when the full ring drops its
      oldest entry. */
  lemma OpeningKillConserves(m: Session, key: KillKey)
    requires Inv(m) && (m.lastAction != Kill || m.ring == []) && KilledText(m, key) != []
    ensures var r := KillBy(m, key); r.ring != [] && r.lastAction == Kill && Whole(r) == m.buffer
  {
    var (a, b, forward) := Extent(m, key);
    KillByEffect(m, key);
    RingTopAfterKill(m.ring, m.lastAction == Kill, KilledText(m, key), forward);
    hide WellFormed, Boundary, SeqLen, Extent, KillBy, Inv, RingAfterKill, Splice;
    CutPieces(m.buffer, a, b);
  }

  /** A kill of nothing only arms merging. */
  lemma EmptyKillArms(m: Session, key: KillKey)
    requires Inv(m) && KilledText(m, key) == []
    ensures KillBy(m, key) == m.(lastAction := Kill)
  {
    var (a, b, forward) := Extent(m, key);
    EmptyExtent(m, key);
    hide WellFormed, SeqLen, Extent, Boundary, KilledText;
    assert m.buffer[..a] + [] + m.buffer[a..] == m.buffer;
  }

  lemma EmptyExtent(m: Session, key: KillKey)
    requires Inv(m) && KilledText(m, key) == []
    ensures Extent(m, key).0 == Extent(m, key).1 == m.cursor <= |m.buffer|
  {
    hide WellFormed, Boundary, WordEndAfter, WordStartBefore, RuboutStart;
  }

  /** The kills open an entry of their own (or extend an empty one), so that yanking gives
      back what they removed and nothing older. */
  predicate OpensOwnEntry(m: Session, keys: seq<KillKey>)
    requires Inv(m)
  {
    || m.ring == []
    || Top(m.ring) == []
    || (m.lastAction != Kill && keys != [] && KilledText(m, keys[0]) != [])
  }

  lemma {:induction false} ArmedKillsConserve(m: Session, keys: seq<KillKey>)
    requires Inv(m) && m.lastAction == Kill && m.ring != []
    ensures var r := KillAll(m, keys); r.ring != [] && Whole(r) == Whole(m)
    decreases |keys|
  {
    hide WellFormed, Boundary, SeqLen, Extent, KillBy, Whole;
    if keys != [] {
      MergedKillConserves(m, keys[0]);
      ArmedKillsConserve(KillBy(m, keys[0]), keys[1..]);
    }
  }

  /** The line after some kills with the newest entry put back: the line as it was, after
      whatever that entry held before the first kill. */
  lemma {:induction false} KillsOutcome(m: Session, keys: seq<KillKey>)
    requires Inv(m)
    ensures var r := KillAll(m, keys);
            if r.ring == [] then m.ring == [] && r.buffer == m.buffer
            else if OpensOwnEntry(m, keys) then Whole(r) == m.buffer
            else m.ring != [] && Whole(r) == Whole(m)
    decreases |keys|
  {
    assert m.buffer[..m.cursor] + [] + m.buffer[m.cursor..] == m.buffer;
    hide WellFormed, Boundary, SeqLen, Extent, KillBy, KilledText;
    if keys == [] || (m.lastAction == Kill && m.ring != []) {
      if keys != [] {
        ArmedKillsConserve(m, keys);
      }
    } else if KilledText(m, keys[0]) != [] {
      OpeningKillConserves(m, keys[0]);
      ArmedKillsConserve(KillBy(m, keys[0]), keys[1..]);
    } else {
      EmptyKillArms(m, keys[0]);
      KillsOutcome(KillBy(m, keys[0]), keys[1..]);
    }
  }

  lemma PlainYank(m: Session)
    requires Inv(m)
    ensures PlainDispatch(m, CTRL_Y).Running? ==> PlainDispatch(m, CTRL_Y).m == YankTop(m)
  {
    hide Inv, Replace, MoveTo, KillLine, LineDiscard, WordRubout, Accept;
    hide Rubout, DeleteCharAtCursor, TransposeChars, InsertChar, YankTop, HistoryPrevious, HistoryNext, NoteOther;
  }

  lemma YankPutsBack(m: Session)
    requires Inv(m)
    ensures YankTop(m).esc == m.esc
    ensures YankTop(m).buffer == if m.ring == [] then m.buffer else Whole(m)
  {
    hide WellFormed, SeqLen;
  }

  /** Any mix of C-k, C-u, C-w, M-d and M-DEL followed by C-y restores the line exactly
      when the kills opened an entry of their own. */
  lemma KillsThenYankRestore(e: Editor, keys: seq<KillKey>)
    requires Inv(e.m) && e.m.esc == NoEsc
    ensures var r := FeedAll(e, TypedAll(keys) + [CTRL_Y]);
            r.Running? ==> (r.m.m.buffer == e.m.buffer <==> OpensOwnEntry(e.m, keys))
  {
    TypedKills(e, keys);
    FeedAllConcat(e, TypedAll(keys), [CTRL_Y]);
    KillsOutcome(e.m, keys);
    WholeLength(e.m);
    var killed := FeedAll(e, TypedAll(keys));
    if killed.Running? {
      TypedPlain(killed.m, CTRL_Y);
      PlainYank(killed.m.m);
      YankPutsBack(killed.m.m);
      hide KillAll, FeedAll, Inv, TypedAll, PlainDispatch, YankTop, KilledText, Whole;
    }
  }

  lemma WholeLength(m: Session)
    requires Inv(m)
    ensures m.ring != [] && Top(m.ring) != [] ==> Whole(m) != m.buffer
  {
    if m.ring != [] {
      assert |Whole(m)| == |m.buffer| + |Top(m.ring)|;
    }
  }

  /** At the end of a line, with an older entry in the ring, C-u alone opens an entry; behind a C-k that
      kills nothing it does not, and the yank brings the older text back too. */
  lemma EmptyFirstKillYanksTooMuch(m: Session)
    requires Inv(m) && m.cursor == |m.buffer| > 0 && m.lastAction != Kill
    requires m.ring != [] && Top(m.ring) != []
    ensures OpensOwnEntry(m, [CtrlU]) && !OpensOwnEntry(m, [CtrlK, CtrlU])
    ensures YankTop(KillAll(m, [CtrlK, CtrlU])).buffer == m.buffer + Top(m.ring)
  {
    KillsAtEnd(m);
    hide KillAll, WellFormed, Boundary, YankTop, KilledText, Inv, Top;
    KillsOutcome(m, [CtrlK, CtrlU]);
    YankPutsBack(KillAll(m, [CtrlK, CtrlU]));
    assert m.buffer[..m.cursor] == m.buffer && m.buffer[m.cursor..] == [];
    assert m.buffer + Top(m.ring) + [] == m.buffer + Top(m.ring);
  }

  lemma KillsAtEnd(m: Session)
    requires Inv(m) && m.cursor == |m.buffer|
    ensures KilledText(m, CtrlK) == [] && KilledText(m, CtrlU) == m.buffer
  {
    hide WellFormed, WordEndAfter, WordStartBefore, RuboutStart;
  }

  // -------------------------------------------------------------------- yank-pop

  /** The session with ring entry `i` yanked at the point. */
  function Yanked(m: Session, i: nat): Session
    requires i < |m.ring| && m.cursor <= |m.buffer|
  {
    m.(buffer := Splice(m.buffer, m.cursor, m.cursor, m.ring[i]),
       cursor := m.cursor + |m.ring[i]|,
       yankStart := m.cursor,
       yankLen := |m.ring[i]|,
       lastAction := Yank(i))
  }

  lemma YankedKeepsInv(m: Session, i: nat)
    requires Inv(m) && i < |m.ring|
    ensures Inv(Yanked(m, i))
  {
    SpliceIsText(m.buffer, m.cursor, m.cursor, m.ring[i]);
  }

  lemma PopEffect(y: Session)
    requires Inv(y) && y.lastAction.Yank?
    ensures y.yankStart + y.yankLen <= |y.buffer| && y.ring != []
    ensures var i := y.lastAction.ringIndex;
            var next := if i == 0 then |y.ring| - 1 else i - 1;
            next < |y.ring| &&
            YankPop(y) == y.(buffer := Splice(y.buffer, y.yankStart, y.yankStart + y.yankLen, y.ring[next]),
                             cursor := y.yankStart + |y.ring[next]|,
                             yankLen := |y.ring[next]|,
                             lastAction := Yank(next))
  {
    hide WellFormed, Boundary, SeqLen, Splice;
  }

  /** Yanking entry `i` and then replacing it by entry `j` is yanking entry `j`. */
  lemma YankedInstead(m: Session, i: nat, j: nat)
    requires i < |m.ring| && j < |m.ring| && m.cursor <= |m.buffer|
    ensures Yanked(m, i).(buffer := Splice(m.buffer, m.cursor, m.cursor, m.ring[j]),
                          cursor := m.cursor + |m.ring[j]|,
                          yankLen := |m.ring[j]|,
                          lastAction := Yank(j)) == Yanked(m, j)
  {
    hide Splice;
  }

  lemma YankedSpan(m: Session, i: nat)
    requires i < |m.ring| && m.cursor <= |m.buffer|
    ensures var y := Yanked(m, i);
            && y.ring == m.ring && y.lastAction == Yank(i) && y.yankStart == m.cursor && y.yankLen == |m.ring[i]|
            && y.buffer == Splice(m.buffer, m.cursor, m.cursor, m.ring[i])
  {
    hide Splice;
  }

  lemma PopAt(y: Session, next: nat, spliced: Bytes)
    requires Inv(y) && y.lastAction.Yank? && next < |y.ring|
    requires next == if y.lastAction.ringIndex == 0 then |y.ring| - 1 else y.lastAction.ringIndex - 1
    requires y.yankStart + y.yankLen <= |y.buffer|
    requires spliced == Splice(y.buffer, y.yankStart, y.yankStart + y.yankLen, y.ring[next])
    ensures YankPop(y) == y.(buffer := spliced, cursor := y.yankStart + |y.ring[next]|,
                             yankLen := |y.ring[next]|, lastAction := Yank(next))
  {
    hide *;
    PopEffect(y);
  }

  lemma PopYanked(m: Session, i: nat)
    requires Inv(m) && i < |m.ring|
    ensures Inv(Yanked(m, i))
    ensures YankPop(Yanked(m, i)) == Yanked(m, if i == 0 then |m.ring| - 1 else i - 1)
  {
    YankedKeepsInv(m, i);
    assert m.cursor <= |m.buffer|;
    hide *;
    YankedSpan(m, i);
    var y, next := Yanked(m, i), if i == 0 then |m.ring| - 1 else i - 1;
    RespliceAt(m.buffer, m.cursor, m.ring[i], m.ring[next]);
    PopAt(y, next, Splice(m.buffer, m.cursor, m.cursor, m.ring[next]));
    YankedInstead(m, i, next);
  }

  lemma RespliceAt(t: Bytes, c: nat, x: Bytes, y: Bytes)
    requires c <= |t|
    ensures Splice(Splice(t, c, c, x), c, c + |x|, y) == Splice(t, c, c, y)
  {
    var s := Splice(t, c, c, x);
    assert s[..c] == t[..c] && s[c + |x|..] == t[c..];
  }

  lemma ModIs(x: int, n: int, q: int, r: int)
    requires 0 <= r < n && x == n * q + r
    ensures x % n == r
  {
    var d := x / n - q;
    assert n * d == r - x % n;
    assert d >= 1 ==> n * d >= n;
    assert d <= -1 ==> n * d <= -n;
  }

  lemma ModStep(x: int, n: int)
    requires n > 0
    ensures (x - 1) % n == if x % n == 0 then n - 1 else x % n - 1
  {
    var q, r := x / n, x % n;
    if r == 0 {
      assert n * (q - 1) == n * q - n;
      ModIs(x - 1, n, q - 1, n - 1);
    } else {
      ModIs(x - 1, n, q, r - 1);
    }
  }

  /** The ring entry k pops after a yank of the newest of n. */
  function PoppedIndex(n: nat, k: nat): (i: nat)
    requires n > 0
    ensures i < n
  {
    (n - 1 - k) % n
  }

  lemma PoppedIndexSteps(n: nat, k: nat)
    requires n > 0
    ensures PoppedIndex(n, 0) == n - 1 && PoppedIndex(n, n) == n - 1
    ensures PoppedIndex(n, k + 1) == if PoppedIndex(n, k) == 0 then n - 1 else PoppedIndex(n, k) - 1
  {
    ModIs(n - 1, n, 0, n - 1);
    ModIs(-1, n, -1, n - 1);
    ModStep(n - 1 - k, n);
  }

  function Pops(m: Session, k: nat): (r: Session)
    requires Inv(m)
    ensures Inv(r)
  {
    if k == 0 then m else YankPop(Pops(m, k - 1))
  }

  lemma {:induction false} PopsCycle(m: Session, k: nat)
    requires Inv(m) && m.ring != []
    ensures Pops(YankTop(m), k) == Yanked(m, PoppedIndex(|m.ring|, k))
  {
    var n := |m.ring|;
    hide WellFormed, Boundary, SeqLen, YankPop, PoppedIndex, Splice;
    PoppedIndexSteps(n, if k == 0 then 0 else k - 1);
    if k > 0 {
      PopsCycle(m, k - 1);
      PopYanked(m, PoppedIndex(n, k - 1));
    }
  }

  /** Typing M-y `k` times in a row pops `k` times. */
  lemma {:induction false} TypedPops(e: Editor, k: nat)
    requires Inv(e.m) && e.m.esc == NoEsc
    ensures var r := FeedAll(e, Repeat(META_Y, k)); r.Running? ==> r.m.m == Pops(e.m, k) && r.m.m.esc == NoEsc
  {
    hide FeedAll, Inv, MetaDispatch, YankPop;
    FeedNothing(e);
    if k > 0 {
      TypedPops(e, k - 1);
      FeedAllConcat(e, Repeat(META_Y, k - 1), META_Y);
      var before := FeedAll(e, Repeat(META_Y, k - 1));
      if before.Running? {
        TypedMeta(before.m, 'y');
        MetaPop(before.m.m);
      }
    }
  }

  lemma MetaPop(m: Session)
    requires Inv(m)
    ensures MetaDispatch(m, 'y').Running? ==> MetaDispatch(m, 'y').m == YankPop(m)
    ensures YankPop(m).esc == m.esc
  {
    hide WellFormed, Boundary, SeqLen, WordEndAfter, WordStartBefore, MoveTo, Splice, NoteOther;
    hide KillWord, BackwardKillWord, TransposeWords, ChangeWordCase, BeginningOfHistory, EndOfHistory;
  }

  lemma TypedYankThenPops(e: Editor, k: nat)
    requires Inv(e.m) && e.m.esc == NoEsc
    ensures var r := FeedAll(e, [CTRL_Y] + Repeat(META_Y, k)); r.Running? ==> r.m.m == Pops(YankTop(e.m), k)
  {
    TypedPlain(e, CTRL_Y);
    PlainYank(e.m);
    YankPutsBack(e.m);
    FeedAllConcat(e, [CTRL_Y], Repeat(META_Y, k));
    var first := FeedAll(e, [CTRL_Y]);
    if first.Running? {
      TypedPops(first.m, k);
    }
    if k > 0 {
      assert |Repeat(META_Y, k)| >= 2;
    }
    hide WellFormed, Boundary, SeqLen, YankPop, YankTop, FeedAll, Inv, PlainDispatch;
  }

  /** After C-y on a ring of n entries, k presses of M-y leave the text around the span as it
      was and put entry (n-1-k) mod n in it; n presses bring the session back to C-y's. */
  lemma YankPopCycles(e: Editor, k: nat)
    requires Inv(e.m) && e.m.esc == NoEsc && e.m.ring != []
    ensures var m, n := e.m, |e.m.ring|;
            var r := FeedAll(e, [CTRL_Y] + Repeat(META_Y, k));
            r.Running? ==>
              && r.m.m.buffer == m.buffer[..m.cursor] + m.ring[PoppedIndex(n, k)] + m.buffer[m.cursor..]
              && r.m.m.cursor == m.cursor + |m.ring[PoppedIndex(n, k)]|
              && (k == n ==> r.m.m == YankTop(m))
  {
    var n := |e.m.ring|;
    assert e.m.cursor <= |e.m.buffer|;
    TypedYankThenPops(e, k);
    PopsCycle(e.m, k);
    PopsCycle(e.m, 0);
    assert Pops(YankTop(e.m), 0) == YankTop(e.m);
    PoppedIndexSteps(n, k);
    hide WellFormed, Boundary, SeqLen, YankPop, YankTop, FeedAll, Inv, PoppedIndex, Repeat;
    assert PoppedIndex(n, n) == PoppedIndex(n, 0);
  }

  // -------------------------------------------------------------- history recall

  function Previous(m: Session, k: nat): (r: Session)
    requires Inv(m)
    ensures Inv(r)
  {
    if k == 0 then m else HistoryPrevious(Previous(m, k - 1))
  }

  function Next(m: Session, k: nat): (r: Session)
    requires Inv(m)
    ensures Inv(r)
  {
    if k == 0 then m else HistoryNext(Next(m, k - 1))
  }

  lemma {:induction false} PreviousShows(m: Session, k: nat)
    requires Inv(m) && m.historyIndex.None? && m.history != [] && k > 0
    ensures var r := Previous(m, k);
            && r.history == m.history && r.savedLine == m.buffer
            && r.historyIndex == Some(if k < |m.history| then |m.history| - k else 0)
            && r.buffer == m.history[r.historyIndex.value]
  {
    hide WellFormed, Boundary, SeqLen;
    if k > 1 {
      PreviousShows(m, k - 1);
    } else {
      assert Previous(m, 0) == m;
    }
  }

  lemma {:induction false} NextReturns(m: Session, k: nat)
    requires Inv(m) && m.historyIndex.Some?
    ensures var r := Next(m, k);
            && r.history == m.history && r.savedLine == m.savedLine
            && if m.historyIndex.value + k < |m.history|
               then r.historyIndex == Some(m.historyIndex.value + k)
               else r.historyIndex.None? && r.buffer == m.savedLine
  {
    hide WellFormed, Boundary, SeqLen;
    if k > 0 {
      NextReturns(m, k - 1);
    }
  }

  lemma {:induction false} InertRecall(m: Session, k: nat)
    requires Inv(m) && m.historyIndex.None?
    ensures Next(m, k) == m
    ensures m.history == [] ==> Previous(m, k) == m
  {
    if k > 0 {
      InertRecall(m, k - 1);
    }
  }

  /** k times back then k times forward from outside recall shows the edited line again. */
  lemma BackAndForth(m: Session, k: nat)
    requires Inv(m) && m.historyIndex.None?
    ensures Next(Previous(m, k), k).buffer == m.buffer && Next(Previous(m, k), k).historyIndex.None?
  {
    InertRecall(m, k);
    if m.history != [] && k > 0 {
      PreviousShows(m, k);
      NextReturns(Previous(m, k), k);
    }
  }

  lemma RecallKeys(m: Session)
    requires Inv(m)
    ensures PlainDispatch(m, CTRL_P).Running? ==> PlainDispatch(m, CTRL_P).m == HistoryPrevious(m)
    ensures PlainDispatch(m, CTRL_N).Running? ==> PlainDispatch(m, CTRL_N).m == HistoryNext(m)
    ensures HistoryPrevious(m).esc == m.esc && HistoryNext(m).esc == m.esc
  {
    hide WellFormed, Boundary, SeqLen, Replace, MoveTo, KillLine, LineDiscard, WordRubout, Accept;
    hide Rubout, DeleteCharAtCursor, TransposeChars, InsertChar, YankTop, NoteOther;
  }

  lemma {:induction false} TypedRecall(e: Editor, k: nat, back: bool)
    requires Inv(e.m) && e.m.esc == NoEsc
    ensures var r := FeedAll(e, Repeat([if back then CTRL_P else CTRL_N], k));
            r.Running? ==> r.m.m == (if back then Previous(e.m, k) else Next(e.m, k)) && r.m.m.esc == NoEsc
  {
    var key := if back then CTRL_P else CTRL_N;
    hide Inv, FeedAll, PlainDispatch, HistoryPrevious, HistoryNext;
    FeedNothing(e);
    if k > 0 {
      TypedRecall(e, k - 1, back);
      FeedAllConcat(e, Repeat([key], k - 1), [key]);
      var before := FeedAll(e, Repeat([key], k - 1));
      if before.Running? {
        TypedPlain(before.m, key);
        RecallKeys(before.m.m);
      }
    }
  }

  /** k times history-previous then k times history-next, from outside recall, brings back
      the edited line, however k compares with the length of the history. */
  lemma RecallRestores(e: Editor, k: nat)
    requires Inv(e.m) && e.m.esc == NoEsc && e.m.historyIndex.None?
    ensures var r := FeedAll(e, Repeat([CTRL_P], k) + Repeat([CTRL_N], k));
            r.Running? ==> r.m.m.buffer == e.m.buffer && r.m.m.historyIndex.None?
  {
    FeedAllConcat(e, Repeat([CTRL_P], k), Repeat([CTRL_N], k));
    TypedRecall(e, k, true);
    BackAndForth(e.m, k);
    var up := FeedAll(e, Repeat([CTRL_P], k));
    if up.Running? {
      TypedRecall(up.m, k, false);
    }
    assert k > 0 ==> |Repeat([CTRL_N], k)| >= 1;
    hide Inv, FeedAll, HistoryPrevious, HistoryNext;
  }

  // -------------------------------------------------------------- transpose-words

  /** Reading back from the point over single-byte non-word characters meets a multi-byte
      character before a word character or the start of the line. */
  ghost predicate MultibyteBeforeWord(u: CharTables, t: Bytes, cursor: nat)
    requires cursor <= |t|
  {
    exists k: nat :: MultibyteAt(u, t, cursor, k)
  }

  /** Byte `k` ends a multi-byte character and only single-byte non-word ones follow it. */
  ghost predicate MultibyteAt(u: CharTables, t: Bytes, cursor: nat, k: nat)
    requires cursor <= |t|
  {
    0 < k < cursor && IsTail(t[k]) && forall j :: k < j < cursor ==> !IsTail(t[j]) && !IsWordAt(u, t, j)
  }

  lemma {:induction false} ScanStopsAtMultibyte(u: CharTables, t: Bytes, e: nat)
    requires e <= |t| && WellFormed(t)
    ensures TransposeScan(u, t, e).None? <==> MultibyteBeforeWord(u, t, e)
    decreases e
  {
    hide WellFormed, IsWordAt;
    NoLeadingTail(t);
    if e > 0 {
      if !Boundary(t, e - 1) {
        assert MultibyteAt(u, t, e, e - 1);
      } else {
        assert !IsTail(t[e - 1]);
        ScanStopsAtMultibyte(u, t, e - 1);
        if !IsWordAt(u, t, e - 1) && MultibyteBeforeWord(u, t, e - 1) {
          var k: nat :| MultibyteAt(u, t, e - 1, k);
          assert MultibyteAt(u, t, e, k);
        }
        if MultibyteBeforeWord(u, t, e) {
          var k: nat :| MultibyteAt(u, t, e, k);
          assert k < e - 1;
          assert MultibyteAt(u, t, e - 1, k);
        }
      }
    }
  }

  /** One character at a time, the editor panics exactly on M-t with a multi-byte character
      before the nearest word; on every other input the run goes on in a valid session or
      ends. */
  lemma FeedPanicsExactlyWhen(e: Editor, c: char)
    requires Inv(e.m)
    ensures Feed(e, c).Panicked? <==>
            e.m.esc == Meta && c == 't' && MultibyteBeforeWord(e.m.tables, e.m.buffer, e.m.cursor)
  {
    ScanStopsAtMultibyte(e.m.tables, e.m.buffer, e.m.cursor);
    hide Feed, WellFormed, Boundary;
  }

  lemma LastByteOfCharacter(c: char)
    requires c as int >= 0x80
    ensures |Encode(c)| > 1 && IsTail(Encode(c)[|Encode(c)| - 1])
  {
  }

  lemma TypedIntoEmpty(m: Session, c: char)
    requires Inv(m) && m.buffer == [] && m.cursor == 0
    ensures InsertChar(m, c).buffer == Encode(c) && InsertChar(m, c).cursor == |Encode(c)|
    ensures InsertChar(m, c).esc == m.esc && InsertChar(m, c).tables == m.tables
  {
    hide Encode, WellFormed, SeqLen;
    assert [] + Encode(c) + [] == Encode(c);
  }

  lemma FedPlain(e: Editor, c: char)
    requires Inv(e.m) && e.m.esc == NoEsc && e.maxChars.None? && PlainDispatch(e.m, c).Running?
    ensures Feed(e, c).Running? && Feed(e, c).m.m == PlainDispatch(e.m, c).m
  {
    hide Inv, PlainDispatch;
  }

  lemma PlainInsert(m: Session, c: char)
    requires Inv(m) && m.eolDelim.None? && c as int >= 0x80
    ensures PlainDispatch(m, c) == Running(InsertChar(m, c), false) && PlainDispatch(m, ESC).Running?
  {
    hide Inv, InsertChar;
  }

  /** A multi-byte character typed into an empty line, and then M-t: the editor panics. */
  lemma MultibyteThenTransposePanics(tables: CharTables, history: seq<Text>, ring: seq<Text>, c: char)
    requires c as int >= 0x80
    ensures FeedAll(NewEditor(tables, [], history, None, None, ring), [c, ESC, 't']).Panicked?
  {
    var e := NewEditor(tables, [], history, None, None, ring);
    PlainInsert(e.m, c);
    hide Encode, WellFormed, Boundary, Feed, InsertChar, Inv, PlainDispatch, FeedAll, NewEditor;
    TypedIntoEmpty(e.m, c);
    LastByteOfCharacter(c);
    FedPlain(e, c);
    var e1 := Feed(e, c).m;
    PlainInsert(e1.m, c);
    PlainEscape(e1.m);
    FedPlain(e1, ESC);
    var e2 := Feed(e1, ESC).m;
    assert MultibyteAt(e2.m.tables, e2.m.buffer, e2.m.cursor, |Encode(c)| - 1);
    FeedPanicsExactlyWhen(e2, 't');
    ThreeFed(e, c, ESC, 't');
  }

  lemma ThreeFed(e: Editor, a: char, b: char, c: char)
    requires Inv(e.m) && Feed(e, a).Running? && Feed(Feed(e, a).m, b).Running?
    ensures FeedAll(e, [a, b, c]) == Feed(Feed(Feed(e, a).m, b).m, c)
  {
    hide Feed, Inv;
    assert [a, b, c][1..] == [b, c] && [b, c][1..] == [c];
    assert FeedAll(Feed(Feed(e, a).m, b).m, [c]) == Feed(Feed(Feed(e, a).m, b).m, c);
    assert FeedAll(Feed(e, a).m, [b, c]) == FeedAll(Feed(Feed(e, a).m, b).m, [c]);
  }
}
