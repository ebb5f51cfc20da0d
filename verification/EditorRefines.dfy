/**
 The editor on UTF-8 offsets does what the editor on characters does (src/readline_editor.rs): every key, and so
 every run of keys, takes a line and its bytes to a line and its bytes.
 */
module EditorRefines {
  import opened Utf8
  import opened Wrappers
  import opened Sequences
  import opened EditorSpec
  import opened CharEditor
  import opened CharText

  /** The bytes of the line, with the point between the same characters. */
  predicate ShowsText(l: Line, m: Session) {
    m.buffer == EncodeAll(l.left + l.right) && m.cursor == |EncodeAll(l.left)|
  }

  predicate ShowsAll(texts: seq<string>, bytes: seq<Bytes>) {
    |texts| == |bytes| && forall k :: 0 <= k < |texts| ==> bytes[k] == EncodeAll(texts[k])
  }

  ghost predicate ShowsSetting(s: Setting, m: Session) {
    m.tables == s.tables && m.eolDelim == s.eolDelim && ShowsAll(s.history, m.history)
  }

  predicate ShowsRest(l: Line, m: Session) {
    && m.esc == l.esc && m.csiParams == l.params && m.historyIndex == l.index && m.savedLine == EncodeAll(l.saved)
    && m.lastAction == l.last && ShowsAll(l.ring, m.ring)
  }

  /** The text yanked last stands in front of the point. */
  predicate ShowsYank(l: Line, m: Session) {
    l.last.Yank? ==>
      && l.last.ringIndex < |l.ring| && EndsIn(l.left, l.ring[l.last.ringIndex])
      && var entry := l.ring[l.last.ringIndex];
         m.yankStart == |EncodeAll(l.left[..|l.left| - |entry|])| && m.yankLen == |EncodeAll(entry)|
  }

  /** The session is the line as bytes. */
  ghost predicate Shows(l: Line, s: Setting, m: Session) {
    ShowsText(l, m) && ShowsSetting(s, m) && ShowsRest(l, m) && ShowsYank(l, m)
  }

  ghost predicate OutcomeShows(o: Outcome, s: Setting, r: Step<Session>) {
    match o
    case Goes(l, clear) => r.Running? && r.clear == clear && Shows(l, s, r.m)
    case Ends(None) => r.Ended? && r.end == Eof
    case Ends(Some(text)) => r.Ended? && r.end == Accepted(EncodeAll(text))
    case Panics => r.Panicked?
  }

  // ------------------------------------------------------------------------- changes of text

  /** `x`, `y` and `z` make up the text of the session. */
  predicate Cut(m: Session, x: string, y: string, z: string) { m.buffer == EncodeAll(x + y + z) }

  lemma CutBoundaries(m: Session, x: string, y: string, z: string)
    requires Cut(m, x, y, z)
    ensures Boundary(m.buffer, |EncodeAll(x)|) && Boundary(m.buffer, |EncodeAll(x + y)|)
    ensures |EncodeAll(x)| <= |EncodeAll(x + y)| <= |m.buffer|
  {
    hide EncodeAll, Boundary;
    BetweenIsBoundary(x + y, z);
    Assoc(x, y, z);
    BetweenIsBoundary(x, y + z);
    CutTwice(x, y, z);
  }

  /** Replacing the bytes of a stretch is replacing the stretch. */
  lemma SpliceShows(x: string, y: string, z: string, w: string)
    ensures |EncodeAll(x)| <= |EncodeAll(x + y)| <= |EncodeAll(x + y + z)|
    ensures Splice(EncodeAll(x + y + z), |EncodeAll(x)|, |EncodeAll(x + y)|, EncodeAll(w)) == EncodeAll(x + w + z)
    ensures |EncodeAll(x)| + |EncodeAll(w)| == |EncodeAll(x + w)|
  {
    CutTwice(x, y, z);
    EncodeConcat(x + w, z);
    EncodeConcat(x, w);
    hide EncodeAll;
  }

  lemma ReplaceShows(l: Line, s: Setting, m: Session, x: string, y: string, z: string, w: string)
    requires Inv(m) && ShowsSetting(s, m) && ShowsRest(l, m) && Cut(m, x, y, z)
    ensures Boundary(m.buffer, |EncodeAll(x)|) && Boundary(m.buffer, |EncodeAll(x + y)|)
    ensures |EncodeAll(x)| <= |EncodeAll(x + y)|
    ensures Shows(l.(left := x + w, right := z, last := Other), s,
                  Replace(m, |EncodeAll(x)|, |EncodeAll(x + y)|, EncodeAll(w)))
  {
    CutBoundaries(m, x, y, z);
    SpliceShows(x, y, z, w);
    hide EncodeAll, WellFormed, Boundary, Splice;
  }

  lemma MoveShows(l: Line, s: Setting, m: Session, n: nat)
    requires Inv(m) && Shows(l, s, m) && n <= |l.left| + |l.right|
    ensures Boundary(m.buffer, |EncodeAll((l.left + l.right)[..n])|)
    ensures Shows(PointAt(l, n), s, MoveTo(m, |EncodeAll((l.left + l.right)[..n])|))
  {
    var text := l.left + l.right;
    TakeDrop(text, n);
    BetweenIsBoundary(text[..n], text[n..]);
    hide EncodeAll, WellFormed, Boundary;
  }

  lemma NoteShows(l: Line, s: Setting, m: Session)
    requires Inv(m) && Shows(l, s, m)
    ensures Shows(Idle(l), s, NoteOther(m))
  {
    hide EncodeAll, WellFormed, Boundary;
  }

  lemma PointIsCut(l: Line, m: Session)
    requires ShowsText(l, m)
    ensures Cut(m, l.left, "", l.right)
    ensures l.left + "" == l.left
  {
    hide EncodeAll;
    assert l.left + "" == l.left;
  }

  lemma InsertShows(l: Line, s: Setting, m: Session, c: char)
    requires Inv(m) && Shows(l, s, m)
    ensures Shows(Insert(l, [c]), s, InsertChar(m, c))
  {
    hide EncodeAll, Encode, WellFormed, Boundary, Replace;
    PointIsCut(l, m);
    EncodeOne(c);
    ReplaceShows(l, s, m, l.left, "", l.right, [c]);
  }

  lemma RubShows(l: Line, s: Setting, m: Session)
    requires Inv(m) && Shows(l, s, m)
    ensures Shows(Rubbed(l), s, Rubout(m))
  {
    hide EncodeAll, WellFormed, Boundary, Replace, PrevBoundary;
    EncodeNothing(l.left);
    if l.left != "" {
      var x, c := l.left[..|l.left| - 1], l.left[|l.left| - 1];
      LastOf(l.left);
      NextBetween(x, c, l.right);
      EncodeNothingAtAll();
      assert x + "" == x;
      ReplaceShows(l, s, m, x, [c], l.right, "");
    }
  }

  lemma EncodeNothingAtAll()
    ensures EncodeAll("") == []
  {
  }

  lemma DeleteShows(l: Line, s: Setting, m: Session)
    requires Inv(m) && Shows(l, s, m)
    ensures Shows(Deleted(l), s, DeleteCharAtCursor(m))
  {
    AtEndOfText(l, m);
    hide EncodeAll, WellFormed, Boundary, Replace, NextBoundary;
    if l.right == "" {
      NoteShows(l, s, m);
    } else {
      var c, z := l.right[0], l.right[1..];
      FirstOf(l.right);
      Assoc(l.left, [c], z);
      NextBetween(l.left, c, z);
      EncodeNothingAtAll();
      assert l.left + "" == l.left;
      ReplaceShows(l, s, m, l.left, [c], z, "");
    }
  }

  lemma AtEndOfText(l: Line, m: Session)
    requires ShowsText(l, m)
    ensures m.cursor <= |m.buffer| && (m.cursor == |m.buffer| <==> l.right == "")
    ensures m.cursor == 0 <==> l.left == ""
    ensures m.buffer == [] <==> l.left == "" == l.right
  {
    EncodeConcat(l.left, l.right);
    EncodeNothing(l.left);
    EncodeNothing(l.right);
    hide EncodeAll;
  }

  // -------------------------------------------------------------------------- kill and yank

  lemma MergedRing(ring: seq<string>, bytes: seq<Bytes>, top: string, topBytes: Bytes)
    requires ShowsAll(ring, bytes) && ring != [] && topBytes == EncodeAll(top)
    ensures ShowsAll(ring[|ring| - 1 := top], bytes[|bytes| - 1 := topBytes])
  {
    hide EncodeAll;
  }

  lemma LongerRing(ring: seq<string>, bytes: seq<Bytes>, top: string)
    requires ShowsAll(ring, bytes)
    ensures ShowsAll(ring + [top], bytes + [EncodeAll(top)])
    ensures ShowsAll((ring + [top])[1..], (bytes + [EncodeAll(top)])[1..])
  {
    hide EncodeAll;
  }

  lemma RingShows(ring: seq<string>, bytes: seq<Bytes>, merge: bool, killed: string, forward: bool)
    requires ShowsAll(ring, bytes) && forall k :: 0 <= k < |bytes| ==> WellFormed(bytes[k])
    ensures ShowsAll(RingAfter(ring, merge, killed, forward), RingAfterKill(bytes, merge, EncodeAll(killed), forward))
  {
    EncodeNothing(killed);
    LongerRing(ring, bytes, killed);
    if ring != [] {
      var top := ring[|ring| - 1];
      EncodeConcat(top, killed);
      EncodeConcat(killed, top);
      MergedRing(ring, bytes, if forward then top + killed else killed + top,
                 if forward then EncodeAll(top) + EncodeAll(killed) else EncodeAll(killed) + EncodeAll(top));
    }
    hide EncodeAll, WellFormed;
  }

  lemma KilledLine(l: Line, s: Setting, drained: Session, x: string, z: string, ring: seq<string>, bytes: seq<Bytes>)
    requires Shows(l.(left := x, right := z, last := Other), s, drained) && ShowsAll(ring, bytes)
    ensures Shows(l.(left := x, right := z, ring := ring, last := Kill), s, drained.(ring := bytes, lastAction := Kill))
  {
    hide EncodeAll;
  }

  lemma KillShows(l: Line, s: Setting, m: Session, x: string, y: string, z: string, forward: bool)
    requires Inv(m) && Shows(l, s, m) && Cut(m, x, y, z)
    requires if forward then l.left == x && l.right == y + z else l.left == x + y && l.right == z
    ensures Boundary(m.buffer, |EncodeAll(x)|) && Boundary(m.buffer, |EncodeAll(x + y)|)
    ensures |EncodeAll(x)| <= |EncodeAll(x + y)|
    ensures Shows(l.(left := x, right := z, ring := RingAfter(l.ring, l.last == Kill, y, forward), last := Kill), s,
                  KillSpan(m, |EncodeAll(x)|, |EncodeAll(x + y)|, forward))
  {
    var a, b := |EncodeAll(x)|, |EncodeAll(x + y)|;
    CutTwice(x, y, z);
    RingShows(l.ring, m.ring, l.last == Kill, y, forward);
    EncodeNothingAtAll();
    NothingBehind(x);
    ReplaceShows(l, s, m, x, y, z, "");
    KilledLine(l, s, Replace(m, a, b, []), x, z, RingAfter(l.ring, l.last == Kill, y, forward),
               RingAfterKill(m.ring, m.lastAction == Kill, EncodeAll(y), forward));
    KillSpanIs(m, a, b, forward, EncodeAll(y));
    hide *;
  }

  lemma NothingBehind(x: string)
    ensures x + "" == x
  {
  }

  lemma KillSpanIs(m: Session, a: nat, b: nat, forward: bool, killed: Bytes)
    requires Inv(m) && Boundary(m.buffer, a) && Boundary(m.buffer, b) && a <= b && killed == m.buffer[a..b]
    requires if forward then a == m.cursor <= b else a <= m.cursor == b
    ensures WellFormed(killed)
    ensures KillSpan(m, a, b, forward) ==
            Replace(m, a, b, []).(ring := RingAfterKill(m.ring, m.lastAction == Kill, killed, forward),
                lastAction := Kill)
  {
    SpanWellFormed(m.buffer, a, b);
    hide WellFormed, Boundary, Replace, RingAfterKill;
  }

  lemma KillAheadShows(l: Line, s: Setting, m: Session, n: nat, b: nat)
    requires Inv(m) && Shows(l, s, m) && n <= |l.right| && b == |EncodeAll(l.left + l.right[..n])|
    ensures m.cursor <= b && Boundary(m.buffer, b) && Boundary(m.buffer, m.cursor)
    ensures Shows(KillAhead(l, n), s, KillSpan(m, m.cursor, b, true))
  {
    hide EncodeAll, WellFormed, Boundary, KillSpan, RingAfter;
    TakeDrop(l.right, n);
    Assoc(l.left, l.right[..n], l.right[n..]);
    KillShows(l, s, m, l.left, l.right[..n], l.right[n..], true);
  }

  lemma KillBehindShows(l: Line, s: Setting, m: Session, n: nat, a: nat)
    requires Inv(m) && Shows(l, s, m) && n <= |l.left| && a == |EncodeAll(l.left[..|l.left| - n])|
    ensures a <= m.cursor && Boundary(m.buffer, a) && Boundary(m.buffer, m.cursor)
    ensures Shows(KillBehind(l, n), s, KillSpan(m, a, m.cursor, false))
  {
    hide EncodeAll, WellFormed, Boundary, KillSpan, RingAfter;
    var k := |l.left| - n;
    TakeDrop(l.left, k);
    KillShows(l, s, m, l.left[..k], l.left[k..], l.right, false);
  }

  lemma YankShows(l: Line, s: Setting, m: Session)
    requires Inv(m) && Shows(l, s, m)
    ensures Shows(Yanked(l), s, YankTop(m))
  {
    hide EncodeAll, WellFormed, Boundary, Replace;
    if l.ring == [] {
      NoteShows(l, s, m);
    } else {
      var text := l.ring[|l.ring| - 1];
      PointIsCut(l, m);
      ReplaceShows(l, s, m, l.left, "", l.right, text);
      assert (l.left + text)[|l.left|..] == text && (l.left + text)[..|l.left|] == l.left;
    }
  }

  /** The entry yanked, taken out again and another put in its place. */
  lemma PoppedLine(l: Line, s: Setting, swapped: Session, x: string, next: nat)
    requires next < |l.ring|
    requires Shows(l.(left := x + l.ring[next], last := Other), s, swapped) && swapped.yankStart == |EncodeAll(x)|
    ensures Shows(l.(left := x + l.ring[next], last := Yank(next)), s,
                  swapped.(yankLen := |EncodeAll(l.ring[next])|, lastAction := Yank(next)))
  {
    hide EncodeAll;
    var entry := l.ring[next];
    assert (x + entry)[|x|..] == entry && (x + entry)[..|x|] == x;
  }

  lemma PopShows(l: Line, s: Setting, m: Session)
    requires Inv(m) && Shows(l, s, m) && Sound(l, s)
    ensures Shows(Popped(l), s, YankPop(m))
  {
    hide EncodeAll, WellFormed, Boundary, Replace;
    if l.last.Yank? {
      var entry := l.ring[l.last.ringIndex];
      var k := |l.left| - |entry|;
      var next := if l.last.ringIndex == 0 then |l.ring| - 1 else l.last.ringIndex - 1;
      TakeDrop(l.left, k);
      EncodeConcat(l.left[..k], entry);
      YankStartIsBoundary(m);
      ReplaceShows(l, s, m, l.left[..k], entry, l.right, l.ring[next]);
      KeepsYank(m, m.yankStart, m.yankStart + m.yankLen, m.ring[next]);
      PoppedLine(l, s, Replace(m, m.yankStart, m.yankStart + m.yankLen, m.ring[next]), l.left[..k], next);
    }
  }

  lemma KeepsYank(m: Session, a: nat, b: nat, t: Bytes)
    requires Inv(m) && Boundary(m.buffer, a) && Boundary(m.buffer, b) && a <= b && WellFormed(t)
    ensures Replace(m, a, b, t).yankStart == m.yankStart
  {
  }

  // ------------------------------------------------------------------------------ transposing

  lemma AtMostOneByteIs(text: string)
    ensures AtMostOneByte(text) <==> |EncodeAll(text)| < 2
  {
    if text != "" {
      OneByteIs(text[0]);
      FirstOf(text);
      EncodeOne(text[0]);
      EncodeConcat([text[0]], text[1..]);
      EncodeNothing(text[1..]);
      hide Encode, EncodeAll;
    }
  }

  /** Two characters next to each other change places. */
  lemma SwapShows(l: Line, s: Setting, m: Session, x: string, c: char, d: char, z: string)
    requires Inv(m) && Shows(l, s, m) && Cut(m, x + [c], [d], z)
    ensures var a, b, e := |EncodeAll(x)|, |EncodeAll(x + [c])|, |EncodeAll(x + [c] + [d])|;
            && a <= b <= e <= |m.buffer| && Boundary(m.buffer, a) && Boundary(m.buffer, b) && Boundary(m.buffer, e)
            && WellFormed(m.buffer[b..e] + m.buffer[a..b])
            && Shows(l.(left := x + [d, c], right := z, last := Other), s,
                     Replace(m, a, e, m.buffer[b..e] + m.buffer[a..b]))
  {
    hide EncodeAll, WellFormed, Boundary, Replace;
    assert x + [c] + [d] == x + [c, d] && [d] + [c] == [d, c];
    CutBoundaries(m, x + [c], [d], z);
    CutBoundaries(m, x, [c, d], z);
    CutTwice(x + [c], [d], z);
    Assoc(x + [c], [d], z);
    CutTwice(x, [c], [d] + z);
    EncodeConcat([d], [c]);
    ReplaceShows(l, s, m, x, [c, d], z, [d, c]);
  }

  lemma TransposeShows(l: Line, s: Setting, m: Session)
    requires Inv(m) && Shows(l, s, m)
    ensures Shows(Transposed(l), s, TransposeChars(m))
  {
    AtEndOfText(l, m);
    AtMostOneByteIs(l.left + l.right);
    hide EncodeAll, WellFormed, Boundary, Replace, PrevBoundary, NextBoundary, OneByte, AtMostOneByte;
    if l.left != "" && !AtMostOneByte(l.left + l.right) {
      var n := |l.left|;
      var c := l.left[n - 1];
      LastOf(l.left);
      if l.right != "" {
        TransposeInside(l, s, m);
      } else if n == 1 {
        TransposeOne(l, s, m);
      } else {
        TransposeLast(l, s, m);
      }
    }
  }

  lemma TransposeInside(l: Line, s: Setting, m: Session)
    requires Inv(m) && Shows(l, s, m) && l.left != "" && l.right != "" && !AtMostOneByte(l.left + l.right)
    ensures Shows(Transposed(l), s, TransposeChars(m))
  {
    AtEndOfText(l, m);
    AtMostOneByteIs(l.left + l.right);
    hide EncodeAll, WellFormed, Boundary, Replace, PrevBoundary, NextBoundary, OneByte, AtMostOneByte;
    var x, c, d, z := l.left[..|l.left| - 1], l.left[|l.left| - 1], l.right[0], l.right[1..];
    LastOf(l.left);
    FirstOf(l.right);
    Assoc(l.left, [d], z);
    NextBetween(x, c, l.right);
    NextBetween(l.left, d, z);
    SwapShows(l, s, m, x, c, d, z);
  }

  lemma LastTwoSpans(x: string, c: char, d: char)
    ensures var t := EncodeAll(x + [c] + [d]);
            && |EncodeAll(x + [c])| <= |t|
            && PrevBoundary(t, |t|) == |EncodeAll(x + [c])| && PrevBoundary(t, |EncodeAll(x + [c])|) == |EncodeAll(x)|
            && NextBoundary(t, |EncodeAll(x + [c])|) == |t|
  {
    hide EncodeAll, PrevBoundary, NextBoundary, Boundary;
    assert x + [c] + [d] + "" == x + [c] + [d];
    CutBetween(x + [c], [d]);
    NextBetween(x + [c], d, "");
    NextBetween(x, c, [d]);
  }

  lemma LastTwo(left: string)
    requires |left| > 1
    ensures var n := |left|; left == left[..n - 2] + [left[n - 2]] + [left[n - 1]]
    ensures left + "" == left
  {
  }

  lemma TransposeLast(l: Line, s: Setting, m: Session)
    requires Inv(m) && Shows(l, s, m) && |l.left| > 1 && l.right == "" && !AtMostOneByte(l.left + l.right)
    ensures Shows(Transposed(l), s, TransposeChars(m))
  {
    AtEndOfText(l, m);
    AtMostOneByteIs(l.left + l.right);
    hide EncodeAll, WellFormed, Boundary, Replace, PrevBoundary, NextBoundary, OneByte, AtMostOneByte;
    var n := |l.left|;
    var x, c, d := l.left[..n - 2], l.left[n - 2], l.left[n - 1];
    LastTwo(l.left);
    LastTwoSpans(x, c, d);
    SwapShows(l, s, m, x, c, d, "");
  }

  lemma OneSpans(c: char)
    ensures var t := EncodeAll([c]);
            t != [] && PrevBoundary(t, |t|) == 0 && NextBoundary(t, 0) == |t| && TransposeSpans(t, |t|) == (0, 0)
  {
    NextBetween("", c, "");
    EncodeNothingAtAll();
    EncodeNothing([c]);
    assert "" + [c] + "" == [c] == "" + [c];
    hide EncodeAll, NextBoundary;
  }

  /** The whole line for itself. */
  lemma SameTextShows(l: Line, s: Setting, m: Session)
    requires Inv(m) && Shows(l, s, m) && m.cursor == |m.buffer|
    ensures Shows(Idle(l), s, Replace(m, 0, |m.buffer|, m.buffer))
  {
    hide EncodeAll, WellFormed;
    assert Splice(m.buffer, 0, |m.buffer|, m.buffer) == m.buffer;
  }

  lemma TransposeOne(l: Line, s: Setting, m: Session)
    requires Inv(m) && Shows(l, s, m) && |l.left| == 1 && l.right == "" && !AtMostOneByte(l.left + l.right)
    ensures Shows(Transposed(l), s, TransposeChars(m))
  {
    AtEndOfText(l, m);
    AtMostOneByteIs(l.left + l.right);
    assert l.left + l.right == [l.left[0]];
    OneSpans(l.left[0]);
    SameTextShows(l, s, m);
    hide EncodeAll, WellFormed, Boundary, Replace, PrevBoundary, NextBoundary, OneByte, AtMostOneByte, TransposeSpans;
    assert m.buffer[0..|m.buffer|] + m.buffer[0..0] == m.buffer;
  }

  // ---------------------------------------------------------------------------------- words

  /** Four stretches of a text: two words, and what is between and around them. */
  lemma FiveParts(text: string, a: nat, b: nat, c: nat, d: nat)
    requires a <= b <= c <= d <= |text|
    ensures text == text[..a] + (text[a..b] + text[b..c] + text[c..d]) + text[d..]
    ensures text[..a] + text[a..b] == text[..b]
    ensures text[..a] + (text[a..b] + text[b..c]) == text[..c]
    ensures text[..a] + (text[a..b] + text[b..c] + text[c..d]) == text[..d]
    ensures text[a..b] + text[b..c] + text[c..d] == text[a..d]
  {
  }

  lemma SliceBetween(text: string, i: nat, j: nat)
    requires i <= j <= |text|
    ensures |EncodeAll(text[..i])| <= |EncodeAll(text[..j])| <= |EncodeAll(text)|
    ensures EncodeAll(text)[|EncodeAll(text[..i])|..|EncodeAll(text[..j])|] == EncodeAll(text[i..j])
    ensures Boundary(EncodeAll(text), |EncodeAll(text[..i])|)
  {
    hide EncodeAll, Boundary;
    assert text == text[..i] + text[i..j] + text[j..] && text[..j] == text[..i] + text[i..j];
    CutTwice(text[..i], text[i..j], text[j..]);
    TakeDrop(text, i);
    BetweenIsBoundary(text[..i], text[i..]);
  }

  /** Two words change places around what is between them. */
  lemma SwapWordsShows(text: string, a: nat, b: nat, c: nat, d: nat)
    requires a <= b <= c <= d <= |text|
    ensures var t := EncodeAll(text);
            var ta, tb, tc, td := |EncodeAll(text[..a])|, |EncodeAll(text[..b])|, |EncodeAll(text[..c])|,
                |EncodeAll(text[..d])|;
            && ta <= tb <= tc <= td <= |t| && Boundary(t, ta) && Boundary(t, tb) && Boundary(t, tc) && Boundary(t, td)
            && SwapWords(t, ta, tb, tc, td) == EncodeAll(text[c..d] + text[b..c] + text[a..b])
  {
    SliceBetween(text, a, b);
    SliceBetween(text, b, c);
    SliceBetween(text, c, d);
    SliceBetween(text, d, d);
    EncodeConcat(text[c..d] + text[b..c], text[a..b]);
    EncodeConcat(text[c..d], text[b..c]);
    hide EncodeAll, WellFormed, Boundary;
  }

  lemma WordsSwapped(l: Line, s: Setting, m: Session, a: nat, b: nat, c: nat, d: nat)
    requires Inv(m) && Shows(l, s, m) && a <= b <= c <= d <= |l.left + l.right|
    ensures var text := l.left + l.right;
            var ta, tb, tc, td := |EncodeAll(text[..a])|, |EncodeAll(text[..b])|, |EncodeAll(text[..c])|,
                |EncodeAll(text[..d])|;
            && ta <= tb <= tc <= td <= |m.buffer|
            && Boundary(m.buffer, ta) && Boundary(m.buffer, tb) && Boundary(m.buffer, tc) && Boundary(m.buffer, td)
            && Shows(l.(left := text[..a] + text[c..d] + text[b..c] + text[a..b], right := text[d..], last := Other), s,
                     Replace(m, ta, td, SwapWords(m.buffer, ta, tb, tc, td)))
  {
    hide EncodeAll, WellFormed, Boundary, Replace, SwapWords;
    var text := l.left + l.right;
    SwapWordsShows(text, a, b, c, d);
    FiveParts(text, a, b, c, d);
    ReplaceShows(l, s, m, text[..a], text[a..d], text[d..], text[c..d] + text[b..c] + text[a..b]);
    assert text[..a] + (text[c..d] + text[b..c] + text[a..b]) == text[..a] + text[c..d] + text[b..c] + text[a..b];
  }

  lemma PrefixLengths(text: string, i: nat, j: nat)
    requires i <= j <= |text|
    ensures |EncodeAll(text[..i])| <= |EncodeAll(text[..j])| <= |EncodeAll(text)|
    ensures |EncodeAll(text[..i])| == |EncodeAll(text[..j])| <==> i == j
  {
    SliceBetween(text, i, j);
    EncodeNothing(text[i..j]);
    hide EncodeAll;
  }

  lemma {:induction false} TrailStops(u: CharTables, text: string, word: bool)
    ensures Trail(u, text[..|text| - Trail(u, text, word)], word) == 0
    decreases |text|
  {
    hide IsWordChar;
    if text != "" && IsWordChar(u, text[|text| - 1]) == word {
      var rest := text[..|text| - 1];
      TrailStops(u, rest, word);
      assert rest[..|rest| - Trail(u, rest, word)] == text[..|text| - Trail(u, text, word)];
    } else {
      assert text[..|text|] == text;
    }
  }

  lemma {:induction false} LeadStops(u: CharTables, text: string, word: bool)
    ensures Lead(u, text[Lead(u, text, word)..], word) == 0
    decreases |text|
  {
    hide IsWordChar;
    if text != "" && IsWordChar(u, text[0]) == word {
      var rest := text[1..];
      LeadStops(u, rest, word);
      assert rest[Lead(u, rest, word)..] == text[Lead(u, text, word)..];
    } else {
      assert text[0..] == text;
    }
  }

  /** The start of the word that ends behind the last characters that are none. */
  lemma FirstWordStart(u: CharTables, left: string, right: string)
    ensures var end := |left| - Trail(u, left, false);
            var start := end - Trail(u, left[..end], true);
            WordStartBefore(u, EncodeAll(left + right), |EncodeAll(left[..end])|) == |EncodeAll(left[..start])|
  {
    hide EncodeAll, Trail, WordStartBefore;
    var end := |left| - Trail(u, left, false);
    TrailStops(u, left, false);
    TakeDrop(left, end);
    Assoc(left[..end], left[end..], right);
    WordBehindIs(u, left[..end], left[end..] + right);
    assert left[..end][..end] == left[..end];
    var n := Trail(u, left[..end], true);
    assert left[..end][..end - n] == left[..end - n];
  }

  /** The start and the end of the first word from `end` on. */
  lemma SecondWord(u: CharTables, text: string, end: nat)
    requires end <= |text|
    ensures |EncodeAll(text[..end])| <= |EncodeAll(text)|
    ensures var gap := Lead(u, text[end..], false);
            var length := Lead(u, text[end + gap..], true);
            var t, at := EncodeAll(text), |EncodeAll(text[..end + gap])|;
            && SkipForward(u, t, |EncodeAll(text[..end])|, false) == at <= |t|
            && WordEndAfter(u, t, at) == |EncodeAll(text[..end + gap + length])|
  {
    hide EncodeAll, Lead, SkipForward, WordEndAfter;
    var rest := text[end..];
    var gap := Lead(u, rest, false);
    TakeDrop(text, end);
    SkipForwardIs(u, text[..end], rest, false);
    assert text[..end] + rest[..gap] == text[..end + gap];
    LeadStops(u, rest, false);
    var more := text[end + gap..];
    assert rest[gap..] == more;
    TakeDrop(text, end + gap);
    WordAheadIs(u, text[..end + gap], more);
    PrefixLengths(text, end + gap, end + gap);
    assert more[0..] == more;
    var length := Lead(u, more, true);
    assert text[..end + gap] + more[..length] == text[..end + gap + length];
  }

  /** The scans of M-t from `at` back: the word from `a` up to `b`, and the word from `c` up to `d` behind it. */
  predicate FindsWords(u: CharTables, t: Bytes, at: nat, a: nat, b: nat, c: nat, d: nat) {
    && at <= |t| && a <= b <= c <= |t|
    && TransposeScan(u, t, at) == Some(b) && WordStartBefore(u, t, b) == a
    && SkipForward(u, t, b, false) == c && WordEndAfter(u, t, c) == d
  }

  lemma WordsFound(u: CharTables, left: string, right: string, text: string, start: nat, end: nat, gap: nat,
      length: nat)
    requires !MeetsMultibyte(u, left) && text == left + right
    requires end == |left| - Trail(u, left, false) && start == end - Trail(u, left[..end], true)
    requires gap == Lead(u, text[end..], false) && length == Lead(u, text[end + gap..], true)
    ensures FindsWords(u, EncodeAll(text), |EncodeAll(left)|, |EncodeAll(text[..start])|, |EncodeAll(text[..end])|,
                       |EncodeAll(text[..end + gap])|, |EncodeAll(text[..end + gap + length])|)
    ensures |EncodeAll(text[..start])| == |EncodeAll(text[..end])| <==> start == end
    ensures |EncodeAll(text[..end + gap])| == |EncodeAll(text)| <==> end + gap == |text|
  {
    hide EncodeAll, Trail, Lead, SkipForward, WordEndAfter, WordStartBefore, TransposeScan, MeetsMultibyte;
    TransposeScanIs(u, left, right);
    assert text[..end] == left[..end] && text[..start] == left[..start];
    FirstWordStart(u, left, right);
    SecondWord(u, text, end);
    PrefixLengths(text, start, end);
    PrefixLengths(text, end, end + gap);
    PrefixLengths(text, end + gap, |text|);
    assert text[..|text|] == text;
  }

  lemma TransposeWordsShow(l: Line, s: Setting, m: Session)
    requires Inv(m) && Shows(l, s, m)
    ensures TransposeWords(m).None? <==> MeetsMultibyte(s.tables, l.left)
    ensures !MeetsMultibyte(s.tables, l.left) ==> Shows(WordsTransposed(l, s.tables), s, TransposeWords(m).value)
  {
    var u, text := s.tables, l.left + l.right;
    TransposeScanIs(u, l.left, l.right);
    hide EncodeAll, WellFormed, Boundary, Replace, SwapWords, Trail, Lead, SkipForward, WordEndAfter,
      WordStartBefore, TransposeScan, MeetsMultibyte;
    if !MeetsMultibyte(u, l.left) {
      var end := |l.left| - Trail(u, l.left, false);
      var start := end - Trail(u, l.left[..end], true);
      var gap := Lead(u, text[end..], false);
      var length := Lead(u, text[end + gap..], true);
      WordsFound(u, l.left, l.right, text, start, end, gap, length);
      WordsSwapped(l, s, m, start, end, end + gap, end + gap + length);
    }
  }

  /** The scans of the keys that change case, from `a` on: the word from `b` up to `c`. */
  predicate FindsCaseWord(u: CharTables, t: Bytes, a: nat, b: nat, c: nat, word: Bytes) {
    a <= b <= c <= |t| && SkipForward(u, t, a, false) == b && WordEndAfter(u, t, b) == c && t[b..c] == word
  }

  lemma CaseWordFound(u: CharTables, text: string, n: nat, gap: nat, length: nat)
    requires n <= |text| && gap == Lead(u, text[n..], false) && length == Lead(u, text[n + gap..], true)
    ensures |EncodeAll(text[..n + gap])| == |EncodeAll(text[..n + gap + length])| <==> length == 0
    ensures FindsCaseWord(u, EncodeAll(text), |EncodeAll(text[..n])|, |EncodeAll(text[..n + gap])|,
                          |EncodeAll(text[..n + gap + length])|, EncodeAll(text[n + gap..n + gap + length]))
  {
    hide EncodeAll, Lead, SkipForward, WordEndAfter;
    SecondWord(u, text, n);
    PrefixLengths(text, n, n + gap);
    PrefixLengths(text, n + gap, n + gap + length);
    SliceBetween(text, n + gap, n + gap + length);
  }

  lemma RecaseShows(l: Line, s: Setting, m: Session, how: Case)
    requires Inv(m) && Shows(l, s, m)
    ensures Shows(Recase(l, s.tables, how), s, ChangeWordCase(m, how != Lower, how == Capital))
  {
    hide EncodeAll, WellFormed, Boundary, Replace, Lead, SkipForward, WordEndAfter, DecodeAll, Recased, InCase;
    var u, text, n := s.tables, l.left + l.right, |l.left|;
    var gap := Lead(u, l.right, false);
    assert text[..n] == l.left && text[n..] == l.right && text[n + gap..] == l.right[gap..];
    var length := Lead(u, l.right[gap..], true);
    CaseWordFound(u, text, n, gap, length);
    RecaseParts(l, gap, length);
    if length > 0 {
      var word := l.right[gap..gap + length];
      DecodedBack(word);
      CaseIs(u, word, how);
      ReplaceShows(l, s, m, l.left + l.right[..gap], word, l.right[gap + length..], InCase(u, word, how));
    }
  }

  lemma RecaseParts(l: Line, gap: nat, length: nat)
    requires gap + length <= |l.right|
    ensures var text, n, word := l.left + l.right, |l.left|, l.right[gap..gap + length];
            && text[n + gap..n + gap + length] == word && text[..n + gap] == l.left + l.right[..gap]
            && text[..n + gap + length] == l.left + l.right[..gap] + word
            && text == l.left + l.right[..gap] + word + l.right[gap + length..]
  {
  }

  // --------------------------------------------------------------------------------- recall

  lemma ShowShows(l: Line, s: Setting, m: Session, index: Option<nat>, text: string, bytes: Bytes)
    requires Inv(m) && ShowsSetting(s, m) && ShowsRest(l, m) && bytes == EncodeAll(text)
    requires index.Some? ==> index.value < |m.history|
    ensures Shows(Show(l, index, text), s, ShowLine(m, index, bytes))
  {
    hide EncodeAll, WellFormed;
    assert text + "" == text;
  }

  lemma KeepShows(l: Line, s: Setting, m: Session)
    requires Inv(m) && Shows(l, s, m)
    ensures Shows(Keep(l), s, SaveLine(m)) && SaveLine(m).history == m.history
  {
    hide EncodeAll, WellFormed;
  }

  lemma RecallShows(l: Line, s: Setting, m: Session)
    requires Inv(m) && Shows(l, s, m) && Sound(l, s)
    ensures Shows(Earlier(l, s), s, HistoryPrevious(m)) && Shows(Later(l, s), s, HistoryNext(m))
    ensures Shows(Earliest(l, s), s, BeginningOfHistory(m)) && Shows(Latest(l), s, EndOfHistory(m))
  {
    hide EncodeAll, WellFormed, ShowLine;
    KeepShows(l, s, m);
    NoteShows(l, s, m);
    if m.history != [] {
      var index := if l.index.None? then |s.history| - 1 else if l.index.value == 0 then 0 else l.index.value - 1;
      ShowShows(Keep(l), s, SaveLine(m), Some(index), s.history[index], m.history[index]);
      ShowShows(Keep(l), s, SaveLine(m), Some(0), s.history[0], m.history[0]);
    }
    if l.index.Some? {
      ShowShows(l, s, m, None, l.saved, m.savedLine);
      if l.index.value + 1 < |s.history| {
        ShowShows(l, s, m, Some(l.index.value + 1), s.history[l.index.value + 1], m.history[l.index.value + 1]);
      }
    }
  }

  // ---------------------------------------------------------------------------------- moves

  lemma MoveToShows(l: Line, s: Setting, m: Session, n: nat, at: nat)
    requires Inv(m) && Shows(l, s, m) && n <= |l.left| + |l.right| && at == |EncodeAll((l.left + l.right)[..n])|
    ensures Boundary(m.buffer, at) && Shows(PointAt(l, n), s, MoveTo(m, at))
  {
    MoveShows(l, s, m, n);
    hide *;
  }

  lemma EndsShow(l: Line, s: Setting, m: Session)
    requires Inv(m) && Shows(l, s, m)
    ensures Shows(PointAt(l, 0), s, MoveTo(m, 0)) && Shows(Forward(l, |l.right|), s, MoveTo(m, |m.buffer|))
  {
    EncodeNothingAtAll();
    var text := l.left + l.right;
    assert text[..0] == "" && text[..|text|] == text;
    hide EncodeAll, WellFormed, Boundary, MoveTo, PointAt;
    MoveToShows(l, s, m, 0, 0);
    MoveToShows(l, s, m, |text|, |m.buffer|);
  }

  lemma PrefixOfLine(l: Line, k: nat)
    ensures k <= |l.left| ==> (l.left + l.right)[..|l.left| - k] == l.left[..|l.left| - k]
    ensures k <= |l.right| ==> (l.left + l.right)[..|l.left| + k] == l.left + l.right[..k]
  {
  }

  lemma StepBackShows(l: Line, s: Setting, m: Session)
    requires Inv(m) && Shows(l, s, m)
    ensures PrevBoundary(m.buffer, m.cursor) <= |m.buffer| && Boundary(m.buffer, PrevBoundary(m.buffer, m.cursor))
    ensures Shows(Back(l, Min(1, |l.left|)), s, MoveTo(m, PrevBoundary(m.buffer, m.cursor)))
  {
    hide EncodeAll, WellFormed, Boundary, MoveTo, PointAt, PrevBoundary, NextBoundary, Shows, Inv;
    PointIsText(l, s, m);
    EncodeNothing(l.left);
    var n := |l.left|;
    if l.left == "" {
      NothingBefore(l);
      PrevOfStart(m.buffer);
      MoveToShows(l, s, m, 0, 0);
    } else {
      PrefixOfLine(l, 1);
      LastOf(l.left);
      NextBetween(l.left[..n - 1], l.left[n - 1], l.right);
      MoveToShows(l, s, m, n - 1, PrevBoundary(m.buffer, m.cursor));
    }
  }

  lemma PointIsText(l: Line, s: Setting, m: Session)
    requires Inv(m) && Shows(l, s, m)
    ensures m.buffer == EncodeAll(l.left + l.right) && m.cursor == |EncodeAll(l.left)|
    ensures Boundary(m.buffer, m.cursor) && m.cursor <= |m.buffer|
  {
    hide EncodeAll, WellFormed;
  }

  lemma NothingBefore(l: Line)
    ensures (l.left + l.right)[..0] == "" && EncodeAll("") == []
  {
  }

  lemma PrevOfStart(t: Bytes)
    ensures PrevBoundary(t, 0) == 0 && Boundary(t, 0)
  {
  }

  lemma StepForwardShows(l: Line, s: Setting, m: Session)
    requires Inv(m) && Shows(l, s, m)
    ensures Shows(Forward(l, Min(1, |l.right|)), s, MoveTo(m, NextBoundary(m.buffer, m.cursor)))
  {
    AtEndOfText(l, m);
    EndsShow(l, s, m);
    PrefixOfLine(l, Min(1, |l.right|));
    hide EncodeAll, WellFormed, Boundary, MoveTo, PointAt;
    if l.right != "" {
      var c := l.right[0];
      FirstOf(l.right);
      Assoc(l.left, [c], l.right[1..]);
      NextBetween(l.left, c, l.right[1..]);
      assert l.right[..1] == [c];
      MoveToShows(l, s, m, |l.left| + 1, NextBoundary(m.buffer, m.cursor));
    }
  }

  lemma WordMovesShow(l: Line, s: Setting, m: Session)
    requires Inv(m) && Shows(l, s, m)
    ensures Shows(Forward(l, WordAhead(s.tables, l.right)), s, MoveTo(m, WordEndAfter(m.tables, m.buffer, m.cursor)))
    ensures Shows(Back(l, WordBehind(s.tables, l.left)), s, MoveTo(m, WordStartBefore(m.tables, m.buffer, m.cursor)))
  {
    hide EncodeAll, WellFormed, Boundary, MoveTo, PointAt, WordEndAfter, WordStartBefore, WordAhead, WordBehind;
    var u := s.tables;
    WordAheadIs(u, l.left, l.right);
    WordBehindIs(u, l.left, l.right);
    PrefixOfLine(l, WordAhead(u, l.right));
    PrefixOfLine(l, WordBehind(u, l.left));
    MoveToShows(l, s, m, |l.left| + WordAhead(u, l.right), WordEndAfter(u, m.buffer, m.cursor));
    MoveToShows(l, s, m, |l.left| - WordBehind(u, l.left), WordStartBefore(u, m.buffer, m.cursor));
  }

  lemma LineKillsShow(l: Line, s: Setting, m: Session)
    requires Inv(m) && Shows(l, s, m)
    ensures Shows(KillAhead(l, |l.right|), s, KillLine(m)) && Shows(KillBehind(l, |l.left|), s, LineDiscard(m))
  {
    EncodeNothingAtAll();
    assert l.left[..0] == "" && l.right[..|l.right|] == l.right;
    hide EncodeAll, WellFormed, Boundary, KillSpan, KillAhead, KillBehind;
    KillAheadShows(l, s, m, |l.right|, |m.buffer|);
    KillBehindShows(l, s, m, |l.left|, 0);
  }

  lemma RuboutShows(l: Line, s: Setting, m: Session)
    requires Inv(m) && Shows(l, s, m)
    ensures Shows(KillBehind(l, RuboutBehind(l.left)), s, WordRubout(m))
  {
    hide EncodeAll, WellFormed, Boundary, KillSpan, KillBehind, RuboutStart, RuboutBehind;
    RuboutIs(l.left, l.right);
    KillBehindShows(l, s, m, RuboutBehind(l.left), RuboutStart(m.buffer, m.cursor));
  }

  lemma WordKillsShow(l: Line, s: Setting, m: Session)
    requires Inv(m) && Shows(l, s, m)
    ensures Shows(KillAhead(l, WordAhead(s.tables, l.right)), s, KillWord(m))
    ensures Shows(KillBehind(l, WordBehind(s.tables, l.left)), s, BackwardKillWord(m))
  {
    hide EncodeAll, WellFormed, Boundary, KillSpan, KillAhead, KillBehind, WordEndAfter, WordStartBefore,
      WordAhead, WordBehind;
    var u := s.tables;
    WordAheadIs(u, l.left, l.right);
    WordBehindIs(u, l.left, l.right);
    KillAheadShows(l, s, m, WordAhead(u, l.right), WordEndAfter(u, m.buffer, m.cursor));
    KillBehindShows(l, s, m, WordBehind(u, l.left), WordStartBefore(u, m.buffer, m.cursor));
  }

  lemma DeleteWordShows(l: Line, s: Setting, m: Session)
    requires Inv(m) && Shows(l, s, m)
    ensures m.cursor <= WordEndAfter(m.tables, m.buffer, m.cursor)
    ensures Shows(l.(right := l.right[WordAhead(s.tables, l.right)..], last := Other), s,
                  Replace(m, m.cursor, WordEndAfter(m.tables, m.buffer, m.cursor), []))
  {
    hide EncodeAll, WellFormed, Boundary, Replace, WordEndAfter, WordAhead;
    var k := WordAhead(s.tables, l.right);
    WordAheadIs(s.tables, l.left, l.right);
    TakeDrop(l.right, k);
    Assoc(l.left, l.right[..k], l.right[k..]);
    EncodeNothingAtAll();
    NothingBehind(l.left);
    ReplaceShows(l, s, m, l.left, l.right[..k], l.right[k..], "");
  }

  // ----------------------------------------------------------------------------------- keys

  lemma EscapeShows(l: Line, s: Setting, m: Session, esc: Esc, params: string)
    requires Inv(m) && Shows(l, s, m)
    ensures Inv(m.(esc := esc, csiParams := params))
          && Shows(l.(esc := esc, params := params), s, m.(esc := esc, csiParams := params))
  {
    hide EncodeAll, WellFormed, Boundary;
  }

  lemma SettingOf(l: Line, s: Setting, m: Session)
    requires Shows(l, s, m)
    ensures m.tables == s.tables && m.eolDelim == s.eolDelim && m.esc == l.esc && m.csiParams == l.params
    ensures m.buffer == EncodeAll(l.left + l.right) && ShowsText(l, m)
  {
  }

  predicate MovesPoint(c: char) { c == '\U{01}' || c == '\U{05}' || c == '\U{02}' || c == '\U{06}' }

  predicate Erases(c: char) { c == BACKSPACE || c == DEL || c == '\U{04}' || c == '\U{14}' || c == '\U{19}' }

  predicate KillsText(c: char) { c == '\U{0b}' || c == '\U{15}' || c == '\U{17}' }

  predicate Recalls(c: char) { c == '\U{10}' || c == '\U{0e}' || c == '\U{0c}' }

  predicate Escapes(c: char) { c == '\U{16}' || c == '\U{18}' || c == ESC }

  predicate Accepts(c: char, s: Setting) { Some(c) == s.eolDelim || c == '\n' || c == '\r' || c == '\U{0f}' }

  lemma MoveKeyShows(l: Line, s: Setting, m: Session, c: char)
    requires Inv(m) && Shows(l, s, m) && Sound(l, s) && MovesPoint(c) && !Accepts(c, s)
    ensures OutcomeShows(PlainKey(l, s, c), s, PlainDispatch(m, c))
  {
    hide Inv, Shows, EncodeAll, Sound, Accept, MoveTo, PrevBoundary, NextBoundary, Rubout, DeleteCharAtCursor,
      KillLine, LineDiscard, WordRubout, TransposeChars, YankTop, HistoryPrevious, HistoryNext, NoteOther,
      InsertChar, WellFormed, Boundary, PointAt, Forward, Back, Rubbed, Deleted, KillAhead, KillBehind,
      Transposed, Yanked, Earlier, Later, Idle, Insert, RuboutBehind, SameInputs;
    EndsShow(l, s, m);
    StepBackShows(l, s, m);
    StepForwardShows(l, s, m);
    SettingOf(l, s, m);
  }

  lemma EraseKeyShows(l: Line, s: Setting, m: Session, c: char)
    requires Inv(m) && Shows(l, s, m) && Sound(l, s) && Erases(c) && !Accepts(c, s)
    ensures OutcomeShows(PlainKey(l, s, c), s, PlainDispatch(m, c))
  {
    hide Inv, Shows, EncodeAll, Sound, Accept, MoveTo, PrevBoundary, NextBoundary, Rubout, DeleteCharAtCursor,
      KillLine, LineDiscard, WordRubout, TransposeChars, YankTop, HistoryPrevious, HistoryNext, NoteOther,
      InsertChar, WellFormed, Boundary, PointAt, Forward, Back, Rubbed, Deleted, KillAhead, KillBehind,
      Transposed, Yanked, Earlier, Later, Idle, Insert, RuboutBehind, SameInputs;
    SettingOf(l, s, m);
    AtEndOfText(l, m);
    RubShows(l, s, m);
    DeleteShows(l, s, m);
    TransposeShows(l, s, m);
    YankShows(l, s, m);
  }

  lemma KillKeyShows(l: Line, s: Setting, m: Session, c: char)
    requires Inv(m) && Shows(l, s, m) && Sound(l, s) && KillsText(c) && !Accepts(c, s)
    ensures OutcomeShows(PlainKey(l, s, c), s, PlainDispatch(m, c))
  {
    hide Inv, Shows, EncodeAll, Sound, Accept, MoveTo, PrevBoundary, NextBoundary, Rubout, DeleteCharAtCursor,
      KillLine, LineDiscard, WordRubout, TransposeChars, YankTop, HistoryPrevious, HistoryNext, NoteOther,
      InsertChar, WellFormed, Boundary, PointAt, Forward, Back, Rubbed, Deleted, KillAhead, KillBehind,
      Transposed, Yanked, Earlier, Later, Idle, Insert, RuboutBehind, SameInputs;
    LineKillsShow(l, s, m);
    RuboutShows(l, s, m);
    SettingOf(l, s, m);
  }

  lemma RecallKeyShows(l: Line, s: Setting, m: Session, c: char)
    requires Inv(m) && Shows(l, s, m) && Sound(l, s) && Recalls(c) && !Accepts(c, s)
    ensures OutcomeShows(PlainKey(l, s, c), s, PlainDispatch(m, c))
  {
    hide Inv, Shows, EncodeAll, Sound, Accept, MoveTo, PrevBoundary, NextBoundary, Rubout, DeleteCharAtCursor,
      KillLine, LineDiscard, WordRubout, TransposeChars, YankTop, HistoryPrevious, HistoryNext, NoteOther,
      InsertChar, WellFormed, Boundary, PointAt, Forward, Back, Rubbed, Deleted, KillAhead, KillBehind,
      Transposed, Yanked, Earlier, Later, Idle, Insert, RuboutBehind, SameInputs;
    RecallShows(l, s, m);
    NoteShows(l, s, m);
    SettingOf(l, s, m);
  }

  lemma EscapeKeyShows(l: Line, s: Setting, m: Session, c: char)
    requires Inv(m) && Shows(l, s, m) && Sound(l, s) && Escapes(c) && !Accepts(c, s)
    ensures OutcomeShows(PlainKey(l, s, c), s, PlainDispatch(m, c))
  {
    hide Inv, Shows, EncodeAll, Sound, Accept, MoveTo, PrevBoundary, NextBoundary, Rubout, DeleteCharAtCursor,
      KillLine, LineDiscard, WordRubout, TransposeChars, YankTop, HistoryPrevious, HistoryNext, NoteOther,
      InsertChar, WellFormed, Boundary, PointAt, Forward, Back, Rubbed, Deleted, KillAhead, KillBehind,
      Transposed, Yanked, Earlier, Later, Idle, Insert, RuboutBehind, SameInputs;
    SettingOf(l, s, m);
    var esc := if c == '\U{16}' then QuotedInsert else if c == '\U{18}' then Ctlx else Meta;
    EscapeShows(l, s, m, esc, m.csiParams);
    assert m.(esc := esc, csiParams := m.csiParams) == m.(esc := esc);
    assert l.(esc := esc, params := m.csiParams) == l.(esc := esc);
  }

  lemma AcceptKeyShows(l: Line, s: Setting, m: Session, c: char)
    requires Inv(m) && Shows(l, s, m) && Sound(l, s) && Accepts(c, s)
    ensures OutcomeShows(PlainKey(l, s, c), s, PlainDispatch(m, c))
  {
    SettingOf(l, s, m);
    hide Inv, Shows, EncodeAll, Sound;
  }

  lemma PlainKeyShows(l: Line, s: Setting, m: Session, c: char)
    requires Inv(m) && Shows(l, s, m) && Sound(l, s)
    ensures OutcomeShows(PlainKey(l, s, c), s, PlainDispatch(m, c))
  {
    if Accepts(c, s) {
      AcceptKeyShows(l, s, m, c);
    } else if MovesPoint(c) {
      MoveKeyShows(l, s, m, c);
    } else if Erases(c) {
      EraseKeyShows(l, s, m, c);
    } else if KillsText(c) {
      KillKeyShows(l, s, m, c);
    } else if Recalls(c) {
      RecallKeyShows(l, s, m, c);
    } else if Escapes(c) {
      EscapeKeyShows(l, s, m, c);
    } else {
      InsertShows(l, s, m, c);
      NoteShows(l, s, m);
      SettingOf(l, s, m);
      hide Inv, Shows, EncodeAll, Idle, NoteOther, Insert, InsertChar, Sound;
    }
  }

  // ------------------------------------------------------------------------- meta and CSI keys

  predicate WordKey(c: char) { c == 'b' || c == 'f' || c == 'd' || c == DEL || c == BACKSPACE }

  predicate CaseKey(c: char) { c == 'u' || c == 'l' || c == 'c' }

  lemma MetaWordShows(l: Line, s: Setting, m: Session, c: char)
    requires Inv(m) && Shows(l, s, m) && Sound(l, s) && WordKey(c)
    ensures OutcomeShows(MetaKey(l, s, c), s, MetaDispatch(m, c))
  {
    hide Inv, Shows, Sound, MoveTo, WordStartBefore, WordEndAfter, KillWord, BackwardKillWord, Back, Forward,
      KillAhead, KillBehind, WordAhead, WordBehind, Boundary, WellFormed, SameInputs;
    WordMovesShow(l, s, m);
    WordKillsShow(l, s, m);
  }

  lemma MetaCaseShows(l: Line, s: Setting, m: Session, c: char)
    requires Inv(m) && Shows(l, s, m) && Sound(l, s) && CaseKey(c)
    ensures OutcomeShows(MetaKey(l, s, c), s, MetaDispatch(m, c))
  {
    hide Inv, Shows, Sound, ChangeWordCase, Recase, Boundary, WellFormed, SameInputs;
    RecaseShows(l, s, m, Upper);
    RecaseShows(l, s, m, Lower);
    RecaseShows(l, s, m, Capital);
  }

  lemma MetaTransposeShows(l: Line, s: Setting, m: Session)
    requires Inv(m) && Shows(l, s, m) && Sound(l, s)
    ensures OutcomeShows(MetaKey(l, s, 't'), s, MetaDispatch(m, 't'))
  {
    hide Inv, Shows, Sound, TransposeWords, WordsTransposed, MeetsMultibyte, TransposeScan, Boundary, WellFormed,
      SameInputs;
    TransposeWordsShow(l, s, m);
    TablesOf(l, s, m);
  }

  lemma TablesOf(l: Line, s: Setting, m: Session)
    requires Shows(l, s, m)
    ensures m.tables == s.tables
  {
  }

  lemma MetaKeyShows(l: Line, s: Setting, m: Session, c: char)
    requires Inv(m) && Shows(l, s, m) && Sound(l, s)
    ensures OutcomeShows(MetaKey(l, s, c), s, MetaDispatch(m, c))
  {
    if WordKey(c) {
      MetaWordShows(l, s, m, c);
    } else if CaseKey(c) {
      MetaCaseShows(l, s, m, c);
    } else if c == 't' {
      MetaTransposeShows(l, s, m);
    } else {
      OtherMetaShows(l, s, m, c);
    }
  }

  lemma OtherMetaShows(l: Line, s: Setting, m: Session, c: char)
    requires Inv(m) && Shows(l, s, m) && Sound(l, s) && !WordKey(c) && !CaseKey(c) && c != 't'
    ensures OutcomeShows(MetaKey(l, s, c), s, MetaDispatch(m, c))
  {
    hide Inv, Shows, Sound, YankPop, Popped, BeginningOfHistory, EndOfHistory, Earliest, Latest, NoteOther, Idle,
      Boundary, WellFormed, SameInputs;
    ReadsYank(l, s, m);
    PopShows(l, s, m);
    RecallShows(l, s, m);
    NoteShows(l, s, m);
    EscapeShows(l, s, m, Csi, "");
    EscapeShows(l, s, m, Ss3, m.csiParams);
    assert m.(esc := Ss3, csiParams := m.csiParams) == m.(esc := Ss3);
    assert l.(esc := Ss3, params := m.csiParams) == l.(esc := Ss3);
  }

  lemma ReadsYank(l: Line, s: Setting, m: Session)
    requires Shows(l, s, m)
    ensures l.params == m.csiParams
    ensures l.last.Yank? ==> l.last.ringIndex < |l.ring| && EndsIn(l.left, l.ring[l.last.ringIndex])
  {
  }

  lemma ArrowShows(l: Line, s: Setting, m: Session, c: char, word: bool)
    requires Inv(m) && Shows(l, s, m) && Sound(l, s)
    ensures c == 'A' ==> Shows(ArrowKey(l, s, c, word), s, HistoryPrevious(m))
    ensures c == 'B' ==> Shows(ArrowKey(l, s, c, word), s, HistoryNext(m))
    ensures c == 'C' ==> Shows(ArrowKey(l, s, c, word), s,
              MoveTo(m, if word then WordEndAfter(m.tables, m.buffer, m.cursor) else NextBoundary(m.buffer, m.cursor)))
    ensures PrevBoundary(m.buffer, m.cursor) <= |m.buffer| && Boundary(m.buffer, PrevBoundary(m.buffer, m.cursor))
    ensures c == 'D' ==> Shows(ArrowKey(l, s, c, word), s,
              MoveTo(m, if word then WordStartBefore(m.tables, m.buffer, m.cursor)
                  else PrevBoundary(m.buffer, m.cursor)))
    ensures c == 'H' ==> Shows(ArrowKey(l, s, c, word), s, MoveTo(m, 0))
    ensures c == 'F' ==> Shows(ArrowKey(l, s, c, word), s, MoveTo(m, |m.buffer|))
    ensures c !in "ABCDHF" ==> ArrowKey(l, s, c, word) == l
  {
    hide Inv, Shows, Sound, HistoryPrevious, HistoryNext, Earlier, Later, MoveTo, WordEndAfter, WordStartBefore,
      NextBoundary, PrevBoundary, WordAhead, WordBehind, Forward, Back, PointAt, Boundary, WellFormed, SameInputs;
    RecallShows(l, s, m);
    WordMovesShow(l, s, m);
    StepForwardShows(l, s, m);
    StepBackShows(l, s, m);
    EndsShow(l, s, m);
  }

  lemma FirstFieldsAre(params: string)
    ensures FirstField(params) == "1" <==> FirstIs(params, '1')
    ensures FirstField(params) == "7" <==> FirstIs(params, '7')
    ensures FirstField(params) == "4" <==> FirstIs(params, '4')
    ensures FirstField(params) == "8" <==> FirstIs(params, '8')
    ensures FirstField(params) == "3" <==> FirstIs(params, '3')
    ensures FirstField(params) == "5" <==> FirstIs(params, '5')
    ensures FirstField(params) == "6" <==> FirstIs(params, '6')
  {
    hide FirstField, FirstIs;
    FirstFieldIs(params, '1');
    FirstFieldIs(params, '7');
    FirstFieldIs(params, '4');
    FirstFieldIs(params, '8');
    FirstFieldIs(params, '3');
    FirstFieldIs(params, '5');
    FirstFieldIs(params, '6');
  }

  lemma TildeShows(l: Line, s: Setting, m: Session, params: string, word: bool)
    requires Inv(m) && Shows(l, s, m) && Sound(l, s)
    ensures Shows(TildeKey(l, s, params, word), s, CsiTilde(m, FirstField(params), word))
  {
    hide Inv, Shows, Sound, MoveTo, Replace, WordEndAfter, WordAhead, Forward, PointAt, DeleteCharAtCursor,
      Deleted, BeginningOfHistory, EndOfHistory, Earliest, Latest, NoteOther, Idle, Boundary, WellFormed,
      SameInputs;
    hide FirstField, FirstIs;
    FirstFieldsAre(params);
    EndsShow(l, s, m);
    DeleteWordShows(l, s, m);
    DeleteShows(l, s, m);
    RecallShows(l, s, m);
    NoteShows(l, s, m);
  }

  lemma CsiShows(l: Line, s: Setting, m: Session, params: string, c: char)
    requires Inv(m) && Shows(l, s, m) && Sound(l, s) && Sound(Idle(l), s)
    ensures var word := Modified(params);
            var r := if c == '~' then TildeKey(Idle(l), s, params, word) else ArrowKey(Idle(l), s, c, word);
            Shows(r, s, CsiDispatch(m, params, c))
  {
    hide Inv, Shows, Sound, NoteOther, Idle, HistoryPrevious, HistoryNext, MoveTo, WordEndAfter, WordStartBefore,
      NextBoundary, PrevBoundary, CsiTilde, TildeKey, ArrowKey, WordModifier, Modified, FirstField, Boundary,
      WellFormed, SameInputs;
    NoteShows(l, s, m);
    ModifierIs(params);
    ArrowShows(Idle(l), s, NoteOther(m), c, Modified(params));
    TildeShows(Idle(l), s, NoteOther(m), params, Modified(params));
  }

  lemma Ss3Shows(l: Line, s: Setting, m: Session, c: char)
    requires Inv(m) && Shows(l, s, m) && Sound(l, s) && Sound(Idle(l), s)
    ensures Shows(ArrowKey(Idle(l), s, c, false), s, Ss3Dispatch(m, c))
  {
    hide Inv, Shows, Sound, NoteOther, Idle, HistoryPrevious, HistoryNext, MoveTo, WordEndAfter, WordStartBefore,
      NextBoundary, PrevBoundary, ArrowKey, Boundary, WellFormed, SameInputs;
    NoteShows(l, s, m);
    ArrowShows(Idle(l), s, NoteOther(m), c, false);
  }

  lemma IdleIsSound(l: Line, s: Setting)
    requires Sound(l, s)
    ensures Sound(Idle(l), s) && forall esc, params :: Sound(l.(esc := esc, params := params), s)
  {
  }

  /** Every key takes a line and its bytes to a line and its bytes, ends the session with the same line, or panics
      in both. */
  lemma PressShows(l: Line, s: Setting, m: Session, c: char)
    requires Inv(m) && Shows(l, s, m) && Sound(l, s)
    ensures OutcomeShows(Press(l, s, c), s, Dispatch(m, c))
  {
    hide Inv, Shows, Sound, InsertChar, Insert, MetaDispatch, MetaKey, PlainDispatch, PlainKey, CsiDispatch,
      Ss3Dispatch, TildeKey, ArrowKey, WordModifier, Modified, FirstField, NoteOther, Idle, Boundary, WellFormed,
      SameInputs, TransposeScan;
    SettingOf(l, s, m);
    IdleIsSound(l, s);
    match m.esc
    case QuotedInsert =>
      NoEscape(l, s, m, l.params);
      InsertShows(l.(esc := NoEsc), s, m.(esc := NoEsc), c);
    case Meta =>
      NoEscape(l, s, m, l.params);
      MetaKeyShows(l.(esc := NoEsc), s, m.(esc := NoEsc), c);
    case Csi =>
      EscapeShows(l, s, m, NoEsc, "");
      IdleIsSound(l.(esc := NoEsc, params := ""), s);
      CsiShows(l.(esc := NoEsc, params := ""), s, m.(esc := NoEsc, csiParams := ""), l.params, c);
      EscapeShows(l, s, m, Csi, l.params + [c]);
      assert l.(esc := Csi, params := l.params + [c]) == l.(params := l.params + [c]);
      assert m.(esc := Csi, csiParams := m.csiParams + [c]) == m.(csiParams := m.csiParams + [c]);
    case Ss3 =>
      NoEscape(l, s, m, l.params);
      IdleIsSound(l.(esc := NoEsc), s);
      Ss3Shows(l.(esc := NoEsc), s, m.(esc := NoEsc), c);
    case Ctlx =>
      NoEscape(l, s, m, l.params);
      NoteShows(l.(esc := NoEsc), s, m.(esc := NoEsc));
    case NoEsc => PlainKeyShows(l, s, m, c);
  }

  lemma NoEscape(l: Line, s: Setting, m: Session, params: string)
    requires Inv(m) && Shows(l, s, m) && Sound(l, s) && params == l.params
    ensures Inv(m.(esc := NoEsc)) && Shows(l.(esc := NoEsc), s, m.(esc := NoEsc)) && Sound(l.(esc := NoEsc), s)
  {
    EscapeShows(l, s, m, NoEsc, params);
    IdleIsSound(l, s);
    SettingOf(l, s, m);
    assert l.(esc := NoEsc, params := params) == l.(esc := NoEsc);
    assert m.(esc := NoEsc, csiParams := params) == m.(esc := NoEsc);
    hide Inv, Shows, Sound;
  }
}
