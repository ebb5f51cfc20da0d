/**
 For which plain patterns and replacements substitution by words ends on every line of plain words
 (src/history_expand.rs).
 */
module ByWordsEnding {
  import opened ByWords
  import opened ByWordsLines
  import opened ByWordsPlaces
  import opened HistoryTokenizer
  import opened HistoryWords
  import opened Sequences
  import opened Substitution
  import opened Wrappers

  predicate EndsIn(s: string, lhs: string) { |lhs| <= |s| && s[|s| - |lhs|..] == lhs }

  // ---------------------------------------------------------------- a line without end

  /** The replacement begins with the pattern, or ends in it behind another pattern's length. */
  predicate FeedsItself(lhs: string, rhs: string) {
    lhs <= rhs || (EndsIn(rhs, lhs) && |rhs| >= 2 * |lhs|)
  }

  /** Replacing the pattern at the front of text that ends in it, by text that does, gives text that does. */
  lemma EndsInAgain(lhs: string, rhs: string, s: string)
    requires lhs <= s && EndsIn(s, lhs) && EndsIn(rhs, lhs)
    ensures EndsIn(rhs + s[|lhs|..], lhs)
  {
    var L, r := |lhs|, rhs + s[|lhs|..];
    var k := |r| - L;
    forall j | 0 <= j < L ensures r[k + j] == lhs[j] {
      var i := |s| - L + j;
      assert s[|s| - L..][j] == lhs[j];
      if i < L {
        assert r[k + j] == rhs[|rhs| - L + i];
        assert rhs[|rhs| - L..][i] == lhs[i] == s[i];
      } else {
        assert r[k + j] == s[i];
      }
    }
    assert r[k..] == lhs;
  }

  lemma EndOfEnd(s: string, k: nat, lhs: string)
    requires EndsIn(s, lhs) && k + |lhs| <= |s|
    ensures EndsIn(s[k..], lhs)
  {
    DropDrop(s, k, |s| - k - |lhs|);
  }

  lemma {:induction false} NeverLeavesWord(c: Walk, at: Place, lhs: string, rhs: string, n: nat)
    requires PlainPair(lhs, rhs) && EndsIn(rhs, lhs) && |rhs| >= 2 * |lhs|
    requires PlainPlace(at) && IsAt(c, at) && EndsIn(at.ahead, lhs)
    ensures !WalkDone(lhs, After(lhs, rhs, c, n))
    decreases n
  {
    hide PlainPair, PlainPlace, IsAt, WalkStep, Further;
    PairNotEmpty(lhs, rhs);
    NotDoneWithRoom(c, at, lhs);
    if n > 0 {
      StepFollows(c, at, lhs, rhs);
      EndsInStill(at, lhs, rhs);
      NeverLeavesWord(WalkStep(lhs, rhs, c), NextPlace(lhs, rhs, at), lhs, rhs, n - 1);
    }
  }

  lemma NotDoneWithRoom(c: Walk, at: Place, lhs: string)
    requires IsAt(c, at) && |lhs| <= |at.ahead|
    ensures !WalkDone(lhs, c)
  {
    AheadOf(at);
  }

  lemma EndsInWhole(s: string, lhs: string)
    requires EndsIn(s, lhs) && |s| == |lhs|
    ensures lhs <= s
  {
    assert s[0..] == s;
  }

  lemma EndsInStill(at: Place, lhs: string, rhs: string)
    requires lhs != "" && EndsIn(rhs, lhs) && |rhs| >= 2 * |lhs| && EndsIn(at.ahead, lhs)
    ensures EndsIn(NextPlace(lhs, rhs, at).ahead, lhs)
  {
    if !(lhs <= at.ahead) {
      if |at.ahead| == |lhs| {
        EndsInWhole(at.ahead, lhs);
      }
      EndOfEnd(at.ahead, 1, lhs);
    } else {
      EndsInAgain(lhs, rhs, at.ahead);
      if !at.stuck {
        EndOfEnd(rhs + at.ahead[|lhs|..], |at.ahead|, lhs);
      }
    }
  }

  /** The pattern alone is such a line. */
  lemma NeverEndsOnItself(lhs: string, rhs: string)
    requires PlainPair(lhs, rhs) && FeedsItself(lhs, rhs)
    ensures PlainWords([lhs]) && !WalkEnds(lhs, rhs, StartWalk(Join([lhs])))
  {
    PairWord(lhs, rhs);
    PairNotEmpty(lhs, rhs);
    FurtherStep([lhs]);
    assert [lhs][1..] == [] && Join([lhs]) == lhs + "" == lhs;
    hide PlainPair, PlainWord, After;
    StartsThere([lhs]);
    assert lhs[0..] == lhs;
    forall n: nat ensures !WalkDone(lhs, After(lhs, rhs, StartWalk(lhs), n)) {
      if lhs <= rhs {
        FirstIs(lhs, lhs, rhs);
        StuckAtWordEnd(lhs, rhs, StartWalk(lhs), n);
      } else {
        NeverLeavesWord(StartWalk(lhs), StartPlace([lhs]), lhs, rhs, n);
      }
    }
  }

  // ------------------------------------------------------------- ends that never match

  /** Text whose end agrees with that of the pattern in exactly `r` characters, too few for a match. */
  predicate AgreesIn(s: string, lhs: string, r: nat) {
    && r < |lhs| && r < |s| && s[|s| - r..] == lhs[|lhs| - r..] && s[|s| - r - 1] != lhs[|lhs| - r - 1]
  }

  lemma WholeEnd(s: string, lhs: string)
    requires |lhs| <= |s| && s[|s| - |lhs|..] == lhs[0..]
    ensures EndsIn(s, lhs)
  {
    assert lhs[0..] == lhs;
  }

  lemma {:induction false} AgreesSomewhere(s: string, lhs: string, r: nat)
    requires |lhs| <= |s| && !EndsIn(s, lhs) && r <= |lhs| && s[|s| - r..] == lhs[|lhs| - r..]
    ensures exists q: nat :: AgreesIn(s, lhs, q)
    decreases |lhs| - r
  {
    if r == |lhs| {
      WholeEnd(s, lhs);
    } else if s[|s| - r - 1] != lhs[|lhs| - r - 1] {
      assert AgreesIn(s, lhs, r);
    } else {
      assert s[|s| - r - 1..] == [s[|s| - r - 1]] + s[|s| - r..];
      assert lhs[|lhs| - r - 1..] == [lhs[|lhs| - r - 1]] + lhs[|lhs| - r..];
      AgreesSomewhere(s, lhs, r + 1);
    }
  }

  lemma AgreesIsNoEnd(s: string, lhs: string, r: nat)
    requires AgreesIn(s, lhs, r)
    ensures !EndsIn(s, lhs)
  {
    if EndsIn(s, lhs) {
      SameFromEnd(s, lhs, r);
    }
  }

  lemma SameFromEnd(s: string, lhs: string, r: nat)
    requires EndsIn(s, lhs) && r < |lhs|
    ensures s[|s| - r - 1] == lhs[|lhs| - r - 1]
  {
    assert s[|s| - |lhs|..][|lhs| - r - 1] == s[|s| - r - 1];
  }

  /** Whether the end of a text agrees depends on its last characters alone. */
  lemma AgreesByEnd(s: string, t: string, lhs: string, r: nat)
    requires r < |s| && r < |t| && s[|s| - r - 1..] == t[|t| - r - 1..]
    ensures AgreesIn(s, lhs, r) <==> AgreesIn(t, lhs, r)
  {
    assert s[|s| - r - 1..][1..] == s[|s| - r..] && t[|t| - r - 1..][1..] == t[|t| - r..];
    assert s[|s| - r - 1] == s[|s| - r - 1..][0] && t[|t| - r - 1] == t[|t| - r - 1..][0];
  }

  /** A replacement in front of further text leaves the end as it was. */
  lemma AgreesStill(p: string, z: string, lhs: string, rhs: string, r: nat)
    requires z != "" && |rhs| >= |lhs| && AgreesIn(rhs, lhs, r) && AgreesIn(p + lhs + z, lhs, r)
    ensures AgreesIn(p + rhs + z, lhs, r)
  {
    var s, t := p + lhs + z, p + rhs + z;
    if r < |z| {
      assert s[|s| - r - 1..] == z[|z| - r - 1..] == t[|t| - r - 1..];
    } else {
      var m := r + 1 - |z|;
      DropDrop(rhs, |rhs| - r, r - m);
      DropDrop(lhs, |lhs| - r, r - m);
      assert s[|s| - r - 1..] == lhs[|lhs| - m..] + z;
      assert t[|t| - r - 1..] == rhs[|rhs| - m..] + z;
    }
    AgreesByEnd(s, t, lhs, r);
  }

  lemma AgreesBehind(p: string, s: string, lhs: string, r: nat)
    requires AgreesIn(s, lhs, r)
    ensures AgreesIn(p + s, lhs, r)
  {
    assert (p + s)[|p + s| - r - 1..] == s[|s| - r - 1..];
    AgreesByEnd(p + s, s, lhs, r);
  }

  // -------------------------------------------------------------------- counting down

  /** The number the marks are the digits of. */
  function Value(marks: seq<bool>): (v: nat)
    ensures v < Power(|marks|)
  {
    if marks == [] then 0 else (if marks[0] then Power(|marks| - 1) else 0) + Value(marks[1..])
  }

  function Power(n: nat): (p: nat)
    ensures p > 0
  {
    if n == 0 then 1 else 2 * Power(n - 1)
  }

  /** The marks after mark `o` is taken away: those behind it are all set again. */
  function Taken(marks: seq<bool>, o: nat): (r: seq<bool>)
    requires o < |marks|
    ensures |r| == |marks|
  {
    seq(|marks|, i => if 0 <= i < o then marks[i] else i > o)
  }

  lemma {:induction false} TakenIsLess(marks: seq<bool>, o: nat)
    requires o < |marks| && marks[o]
    ensures Value(Taken(marks, o)) < Value(marks)
    decreases o
  {
    var taken := Taken(marks, o);
    if o > 0 {
      TakenIsLess(marks[1..], o - 1);
      assert taken[1..] == Taken(marks[1..], o - 1);
    }
  }

  // ----------------------------------------------------------------- a word is left behind

  /** Where a mark is gone the text up to it agrees with the pattern too little for a match there. */
  predicate Marked(text: string, marks: seq<bool>, lhs: string, r: nat) {
    forall a :: 0 <= a < |marks| && !marks[a] ==> a <= |text| && AgreesIn(text[..|text| - a], lhs, r)
  }

  lemma MarkIsSet(p: string, z: string, lhs: string, r: nat, marks: seq<bool>)
    requires Marked(p + lhs + z, marks, lhs, r) && |z| < |marks|
    ensures marks[|z|]
  {
    var text := p + lhs + z;
    assert text[..|text| - |z|] == p + lhs && (p + lhs)[|p|..] == lhs;
    if !marks[|z|] {
      AgreesIsNoEnd(p + lhs, lhs, r);
    }
  }

  /** A match takes its mark away and keeps the others that are gone in front of it. */
  lemma MarkedAgain(p: string, z: string, lhs: string, rhs: string, r: nat, marks: seq<bool>)
    requires |rhs| >= |lhs| && AgreesIn(rhs, lhs, r)
    requires Marked(p + lhs + z, marks, lhs, r) && |z| < |marks|
    ensures Marked(p + rhs + z, Taken(marks, |z|), lhs, r)
  {
    hide AgreesIn;
    var s, t, taken := p + lhs + z, p + rhs + z, Taken(marks, |z|);
    forall a | 0 <= a < |taken| && !taken[a] ensures a <= |t| && AgreesIn(t[..|t| - a], lhs, r) {
      if a == |z| {
        assert t[..|t| - a] == p + rhs;
        AgreesBehind(p, rhs, lhs, r);
      } else {
        assert a < |z| && !marks[a];
        var front := z[..|z| - a];
        assert s[..|s| - a] == p + lhs + front && t[..|t| - a] == p + rhs + front;
        AgreesStill(p, front, lhs, rhs, r);
      }
    }
  }

  /** Every place at the end of a word in front of these words leads to an end. */
  ghost predicate EndsBehind(lhs: string, rhs: string, more: seq<string>) {
    forall behind: string :: Gives(lhs, rhs, Place(behind, "", more, false), None)
  }

  lemma EndedWord(at: Place, lhs: string, rhs: string)
    requires at.ahead == "" && EndsBehind(lhs, rhs, at.more)
    ensures Gives(lhs, rhs, at, None)
  {
    hide Gives;
    if at.stuck {
      StuckOrNot(lhs, rhs, at.behind, at.more, false, None);
    }
  }

  /** Text that cannot hold the pattern any more is passed over. */
  lemma TooShort(at: Place, lhs: string, rhs: string)
    requires PlainPair(lhs, rhs) && PlainPlace(at) && |at.ahead| < |lhs| && EndsBehind(lhs, rhs, at.more)
    ensures Gives(lhs, rhs, at, None)
  {
    hide Gives, PlainWord, PlainChar;
    assert !Occurs(lhs, at.ahead);
    PassOver(lhs, rhs, at, None);
  }

  lemma PlainAfter(at: Place, lhs: string, rhs: string)
    requires PlainPair(lhs, rhs) && PlainPlace(at) && at.ahead != ""
    requires |rhs| >= |lhs|
    ensures PlainPlace(NextPlace(lhs, rhs, at)) && NextPlace(lhs, rhs, at).more == at.more
  {
    hide PlainWord, PlainChar;
    PlainParts(at.ahead, "", 1);
    if lhs <= at.ahead {
      PlainParts(at.ahead, "", |lhs|);
      PlainParts(rhs, at.ahead[|lhs|..], 0);
      if !at.stuck {
        PlainParts(rhs + at.ahead[|lhs|..], "", |at.ahead|);
      }
    }
  }

  lemma NoPrefixAfter(lhs: string, rhs: string, z: string)
    requires |rhs| >= |lhs| && !(lhs <= rhs)
    ensures !(lhs <= rhs + z)
  {
    assert (rhs + z)[..|lhs|] == rhs[..|lhs|];
  }

  /** A replacement shorter than two patterns: a word is left behind after two replacements at most. */
  lemma {:induction false} ShortLeavesWord(at: Place, lhs: string, rhs: string)
    requires PlainPair(lhs, rhs) && |lhs| <= |rhs| < 2 * |lhs| && !(lhs <= rhs)
    requires PlainPlace(at) && EndsBehind(lhs, rhs, at.more)
    ensures Gives(lhs, rhs, at, None)
    decreases if at.stuck && lhs <= at.ahead then 1 else 0, |at.ahead|
  {
    hide Gives, PlainPair, PlainPlace, EndsBehind;
    if |at.ahead| < |lhs| {
      TooShort(at, lhs, rhs);
    } else {
      PairNotEmpty(lhs, rhs);
      PlainAfter(at, lhs, rhs);
      var next := NextPlace(lhs, rhs, at);
      if lhs <= at.ahead && !at.stuck {
        TooShort(next, lhs, rhs);
      } else {
        NoPrefixAfter(lhs, rhs, if lhs <= at.ahead then at.ahead[|lhs|..] else "");
        ShortLeavesWord(next, lhs, rhs);
      }
      Forward(lhs, rhs, at, None);
    }
  }

  /** What a place has behind and ahead of it in its word. */
  function WordSoFar(at: Place): string { at.behind + at.ahead }

  lemma SameWord(at: Place, lhs: string, rhs: string)
    requires at.ahead != "" && |rhs| >= |lhs| && lhs != ""
    ensures var next := NextPlace(lhs, rhs, at);
            if lhs <= at.ahead then
              && WordSoFar(at) == at.behind + lhs + at.ahead[|lhs|..]
              && WordSoFar(next) == at.behind + rhs + at.ahead[|lhs|..]
            else WordSoFar(next) == WordSoFar(at)
  {
    if lhs <= at.ahead {
      assert at.ahead == lhs + at.ahead[|lhs|..];
      Assoc(at.behind, lhs, at.ahead[|lhs|..]);
      var after := rhs + at.ahead[|lhs|..];
      Assoc(at.behind, rhs, at.ahead[|lhs|..]);
      if !at.stuck {
        TakeDrop(after, |at.ahead|);
        Assoc(at.behind, after[..|at.ahead|], after[|at.ahead|..]);
      }
    } else {
      TakeDrop(at.ahead, 1);
      Assoc(at.behind, at.ahead[..1], at.ahead[1..]);
    }
  }

  /** How far from the end of its word the loop may still be before it has left it. */
  predicate WithinMarks(at: Place, lhs: string, rhs: string, size: nat)
    requires |rhs| >= |lhs|
  {
    && |at.ahead| + (if at.stuck && lhs <= at.ahead then |rhs| - |lhs| else 0) <= size
    && 2 * (|rhs| - |lhs|) <= size
  }

  lemma WithinNext(at: Place, lhs: string, rhs: string, size: nat)
    requires lhs != "" && |rhs| >= |lhs| && !(lhs <= rhs) && at.ahead != "" && WithinMarks(at, lhs, rhs, size)
    ensures WithinMarks(NextPlace(lhs, rhs, at), lhs, rhs, size)
    ensures lhs <= at.ahead && at.stuck ==> !(lhs <= NextPlace(lhs, rhs, at).ahead)
  {
    if lhs <= at.ahead && at.stuck {
      NoPrefixAfter(lhs, rhs, at.ahead[|lhs|..]);
    }
  }

  /** A replacement that does not begin or end with its pattern: every word is left behind. */
  lemma {:induction false} LongLeavesWord(at: Place, lhs: string, rhs: string, r: nat, marks: seq<bool>)
    requires PlainPair(lhs, rhs) && |rhs| >= |lhs| && !(lhs <= rhs) && AgreesIn(rhs, lhs, r)
    requires PlainPlace(at) && EndsBehind(lhs, rhs, at.more)
    requires WithinMarks(at, lhs, rhs, |marks|) && Marked(WordSoFar(at), marks, lhs, r)
    ensures Gives(lhs, rhs, at, None)
    decreases Value(marks), |at.ahead|
  {
    hide Gives, PlainPair, PlainPlace, EndsBehind, AgreesIn, Marked, WithinMarks, WordSoFar, Value, Taken, NextPlace;
    if at.ahead == "" {
      EndedWord(at, lhs, rhs);
    } else {
      PairNotEmpty(lhs, rhs);
      PlainAfter(at, lhs, rhs);
      SameWord(at, lhs, rhs);
      WithinNext(at, lhs, rhs, |marks|);
      var next := NextPlace(lhs, rhs, at);
      if lhs <= at.ahead {
        var z := at.ahead[|lhs|..];
        RoomForMark(at, lhs, rhs, |marks|);
        MarkIsSet(at.behind, z, lhs, r, marks);
        MarkedAgain(at.behind, z, lhs, rhs, r, marks);
        TakenIsLess(marks, |z|);
        LongLeavesWord(next, lhs, rhs, r, Taken(marks, |z|));
      } else {
        NextIsShorter(at, lhs, rhs);
        LongLeavesWord(next, lhs, rhs, r, marks);
      }
      Forward(lhs, rhs, at, None);
    }
  }

  lemma RoomForMark(at: Place, lhs: string, rhs: string, size: nat)
    requires lhs != "" && |rhs| >= |lhs| && lhs <= at.ahead && WithinMarks(at, lhs, rhs, size)
    ensures |at.ahead[|lhs|..]| < size
  {
  }

  lemma NextIsShorter(at: Place, lhs: string, rhs: string)
    requires at.ahead != "" && !(lhs <= at.ahead) && |rhs| >= |lhs|
    ensures |NextPlace(lhs, rhs, at).ahead| < |at.ahead|
  {
  }

  // ------------------------------------------------------------------ a line is left behind

  lemma LeavesWord(at: Place, lhs: string, rhs: string)
    requires PlainPair(lhs, rhs) && |rhs| >= |lhs| && !FeedsItself(lhs, rhs)
    requires PlainPlace(at) && EndsBehind(lhs, rhs, at.more)
    ensures Gives(lhs, rhs, at, None)
  {
    hide Gives, PlainPair, PlainPlace, EndsBehind;
    if |rhs| < 2 * |lhs| {
      ShortLeavesWord(at, lhs, rhs);
    } else {
      AgreesSomewhere(rhs, lhs, 0);
      var r: nat :| AgreesIn(rhs, lhs, r);
      var marks := seq(|at.ahead| + 2 * |rhs|, i => true);
      LongLeavesWord(at, lhs, rhs, r, marks);
    }
  }

  lemma {:induction false} LeavesLine(ws: seq<string>, lhs: string, rhs: string)
    requires PlainPair(lhs, rhs) && |rhs| >= |lhs| && !FeedsItself(lhs, rhs) && PlainWords(ws)
    ensures EndsBehind(lhs, rhs, ws)
    decreases |ws|
  {
    hide Gives, PlainPair, PlainWord, FeedsItself;
    PairNotEmpty(lhs, rhs);
    if ws != [] {
      LeavesLine(ws[1..], lhs, rhs);
      FirstIsPlain(ws[0]);
    }
    forall behind: string ensures Gives(lhs, rhs, Place(behind, "", ws, false), None) {
      var at := Place(behind, "", ws, false);
      if ws == [] {
        AtLineEnd(lhs, rhs, at, None);
      } else {
        LeavesWord(Place(behind + " ", ws[0], ws[1..], false), lhs, rhs);
        Forward(lhs, rhs, at, None);
      }
    }
  }

  lemma EndsOnLine(ws: seq<string>, lhs: string, rhs: string)
    requires PlainPair(lhs, rhs) && !FeedsItself(lhs, rhs) && PlainWords(ws)
    ensures WalkEnds(lhs, rhs, StartWalk(Join(ws)))
  {
    PairNotEmpty(lhs, rhs);
    hide PlainPair, PlainWord, FeedsItself, Join, EndsWith, Occurs;
    var text := Join(ws);
    if !Occurs(lhs, rhs) {
      ByWordsEnds(text, lhs, rhs);
    } else if ws == [] {
      EmptyEnds(lhs, rhs);
    } else {
      OccursIsLonger(lhs, rhs);
      LeavesLine(ws[1..], lhs, rhs);
      StartsThere(ws);
      LeavesWord(StartPlace(ws), lhs, rhs);
      EndsWithEnds(lhs, rhs, StartWalk(text));
    }
  }

  lemma OccursIsLonger(lhs: string, rhs: string)
    requires Occurs(lhs, rhs)
    ensures |rhs| >= |lhs|
  {
  }

  lemma EmptyEnds(lhs: string, rhs: string)
    requires lhs != ""
    ensures WalkEnds(lhs, rhs, StartWalk(Join([])))
  {
    assert WalkDone(lhs, After(lhs, rhs, StartWalk(""), 0));
  }

  lemma EndsWithEnds(lhs: string, rhs: string, c: Walk)
    requires EndsWith(lhs, rhs, c, None)
    ensures WalkEnds(lhs, rhs, c)
  {
  }

  /**
   With a plain pattern and replacement, substitution by words ends on every line of plain words exactly
   unless the replacement begins with the pattern, or ends in it and is at least twice as long.
   */
  lemma ByWordsEndsExactlyWhen(lhs: string, rhs: string)
    requires PlainPair(lhs, rhs)
    ensures (forall ws :: PlainWords(ws) ==> WalkEnds(lhs, rhs, StartWalk(Join(ws)))) <==> !FeedsItself(lhs, rhs)
  {
    hide PlainPair, PlainWords, WalkEnds, Join, FeedsItself;
    if FeedsItself(lhs, rhs) {
      NeverEndsOnItself(lhs, rhs);
    } else {
      forall ws | PlainWords(ws) ensures WalkEnds(lhs, rhs, StartWalk(Join(ws))) {
        EndsOnLine(ws, lhs, rhs);
      }
    }
  }
}
