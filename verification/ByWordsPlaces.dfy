/**
 The loop of substitution by words on a line of plain words (src/history_expand.rs), as steps from place
 to place in the line.
 */
module ByWordsPlaces {
  import opened ByWords
  import opened HistoryTokenizer
  import opened HistoryWords
  import opened Sequences
  import opened Substitution
  import opened Wrappers

  predicate AllPlain(s: string) { forall i :: 0 <= i < |s| ==> PlainChar(s[i]) }

  predicate PlainWords(ws: seq<string>) { forall i :: 0 <= i < |ws| ==> PlainWord(ws[i]) }

  /** A pattern and a replacement of plain characters. */
  predicate PlainPair(lhs: string, rhs: string) { PlainWord(lhs) && AllPlain(rhs) }

  // -------------------------------------------------------------------- places in a line

  /** Further words of a line, each behind a space. */
  function Further(ws: seq<string>): (r: string)
    ensures SpaceOrEnd(r)
  {
    if ws == [] then "" else " " + Join(ws)
  }

  /** Where the loop is in a line: what is behind it, the rest of the word it is in and the words after that.
      It is `stuck` when it takes its own place for the end of the word. */
  datatype Place = Place(behind: string, ahead: string, more: seq<string>, stuck: bool)

  function LineOf(at: Place): string { at.behind + at.ahead + Further(at.more) }

  predicate PlainPlace(at: Place) { AllPlain(at.ahead) && PlainWords(at.more) }

  predicate IsAt(c: Walk, at: Place) {
    && c.work == LineOf(at) && c.si == |at.behind|
    && (if at.ahead == "" then c.we <= c.si
        else if at.stuck then c.we == c.si
        else c.we < c.si || c.we == c.si + |at.ahead|)
  }

  predicate LineEnd(at: Place) { at.ahead == "" && at.more == [] }

  /** Where the loop is after one iteration; a replacement is no shorter than its pattern, or the loop is stuck. */
  function NextPlace(lhs: string, rhs: string, at: Place): Place
    requires !LineEnd(at) && (|rhs| >= |lhs| || at.stuck || !(lhs <= at.ahead))
  {
    if at.ahead == "" then Place(at.behind + " ", at.more[0], at.more[1..], false)
    else if !(lhs <= at.ahead) then Place(at.behind + at.ahead[..1], at.ahead[1..], at.more, false)
    else
      var after := rhs + at.ahead[|lhs|..];
      if at.stuck then Place(at.behind, after, at.more, true)
      else Place(at.behind + after[..|at.ahead|], after[|at.ahead|..], at.more, true)
  }

  // ------------------------------------------------------ the loop follows the places

  lemma FurtherStep(ws: seq<string>)
    requires ws != []
    ensures Further(ws) == " " + ws[0] + Further(ws[1..])
    ensures Join(ws) == ws[0] + Further(ws[1..])
  {
    JoinHead(ws);
    Assoc(" ", ws[0], Further(ws[1..]));
  }

  lemma PlainSkips(s: string)
    requires s != "" && PlainChar(s[0])
    ensures SkipFields(s) == s && SkipFields(" " + s) == s
  {
    assert (" " + s)[1..] == s;
  }

  /** The end of a plain word from its own characters on, and from the space in front of it on. */
  lemma WordEndOf(work: string, i: nat, w: string, other: string)
    requires i <= |work| && PlainWord(w) && SpaceOrEnd(other)
    ensures work[i..] == w + other ==> WordEndFrom(work, i) == i + |w|
    ensures work[i..] == " " + (w + other) ==> WordEndFrom(work, i) == i + 1 + |w|
  {
    PlainWordEnds(w, other);
    hide WordLength, PlainWord;
    var s := w + other;
    assert s[0] == w[0];
    FirstIsPlain(w);
    PlainSkips(s);
  }

  lemma FirstIsPlain(w: string)
    requires PlainWord(w)
    ensures w != "" && PlainChar(w[0]) && AllPlain(w) && w[0] != ' '
  {
  }

  lemma AheadOf(at: Place)
    ensures LineOf(at)[|at.behind|..] == at.ahead + Further(at.more)
    ensures |LineOf(at)| == |at.behind| + |at.ahead| + |Further(at.more)|
  {
    Assoc(at.behind, at.ahead, Further(at.more));
  }

  /** The word end the loop works with at a place. */
  lemma WordEndHere(c: Walk, at: Place)
    requires PlainPlace(at) && IsAt(c, at)
    ensures at.ahead != "" ==> WordEndAt(c) == c.si + if at.stuck then 0 else |at.ahead|
    ensures at.ahead == "" ==> WordEndAt(c) == c.si || (at.more != [] && WordEndAt(c) == c.si + 1 + |at.more[0]|)
  {
    hide WordEndFrom, PlainWord, LineOf;
    AheadOf(at);
    if at.ahead != "" {
      AheadIsWord(at.ahead);
      WordEndOf(c.work, c.si, at.ahead, Further(at.more));
    } else if at.more != [] {
      FurtherStep(at.more);
      var w, other := at.more[0], Further(at.more[1..]);
      Assoc(" ", w, other);
      assert "" + Further(at.more) == Further(at.more);
      WordEndOf(c.work, c.si, w, other);
    } else {
      assert c.work[c.si..] == "";
      NoWordEnd(c.work);
    }
  }

  lemma AheadIsWord(s: string)
    requires AllPlain(s) && s != ""
    ensures PlainWord(s)
  {
  }

  lemma NoWordEnd(work: string)
    ensures WordEndFrom(work, |work|) == |work|
  {
  }

  /** A plain pattern matches within the word or not at all. */
  lemma MatchHere(lhs: string, behind: string, ahead: string, other: string)
    requires PlainWord(lhs) && SpaceOrEnd(other)
    ensures At(behind + ahead + other, |behind|, lhs) <==> lhs <= ahead
  {
    var line, n := behind + ahead + other, |behind|;
    assert line[n..] == ahead + other;
    if n + |lhs| <= |line| {
      Reslice(line, n, |lhs|);
      if |lhs| > |ahead| {
        assert (ahead + other)[|ahead|] == ' ';
        assert PlainChar(lhs[|ahead|]);
      } else {
        assert (ahead + other)[..|lhs|] == ahead[..|lhs|];
      }
    }
  }

  lemma MatchAtPlace(c: Walk, at: Place, lhs: string)
    requires PlainWord(lhs) && IsAt(c, at)
    ensures At(c.work, c.si, lhs) <==> lhs <= at.ahead
  {
    hide At, PlainWord;
    MatchHere(lhs, at.behind, at.ahead, Further(at.more));
  }

  lemma PlainParts(a: string, b: string, i: nat)
    requires AllPlain(a) && AllPlain(b) && i <= |a|
    ensures AllPlain(a + b) && AllPlain(a[i..]) && AllPlain(a[..i])
  {
  }

  lemma OnePast(c: Walk, at: Place, lhs: string, rhs: string)
    requires PlainPair(lhs, rhs) && PlainPlace(at) && IsAt(c, at) && at.ahead != "" && !(lhs <= at.ahead)
    ensures var next := NextPlace(lhs, rhs, at);
            PlainPlace(next) && IsAt(Walk(c.work, c.si + 1, WordEndAt(c), c.found), next)
  {
    WordEndHere(c, at);
    hide WordEndAt, PlainWord, PlainChar, Further;
    PlainParts(at.ahead, "", 1);
    TakeDrop(at.ahead, 1);
    Assoc(at.behind, at.ahead[..1], at.ahead[1..]);
  }

  lemma ToNextWord(c: Walk, at: Place, lhs: string, rhs: string)
    requires PlainPair(lhs, rhs) && PlainPlace(at) && IsAt(c, at) && at.ahead == "" && at.more != []
    ensures var next := NextPlace(lhs, rhs, at);
            PlainPlace(next) && IsAt(Walk(c.work, c.si + 1, WordEndAt(c), c.found), next)
  {
    WordEndHere(c, at);
    FurtherStep(at.more);
    FirstIsPlain(at.more[0]);
    hide WordEndAt, PlainWord, PlainChar, Further;
    assert at.behind + "" == at.behind;
    Assoc(at.behind, " " + at.more[0], Further(at.more[1..]));
    Assoc(at.behind, " ", at.more[0]);
  }

  lemma CutMatch(lhs: string, rhs: string, behind: string, ahead: string, other: string)
    requires lhs <= ahead
    ensures var work := behind + ahead + other;
            work[..|behind|] + rhs + work[|behind| + |lhs|..] == behind + (rhs + ahead[|lhs|..]) + other
  {
    var work := behind + ahead + other;
    assert work[..|behind|] == behind && work[|behind| + |lhs|..] == ahead[|lhs|..] + other;
    assert behind + rhs + (ahead[|lhs|..] + other) == behind + (rhs + ahead[|lhs|..]) + other;
  }

  /** The walk after a match. */
  function Matched(lhs: string, rhs: string, c: Walk): Walk
    requires c.si + |lhs| <= |c.work|
  {
    Walk(c.work[..c.si] + rhs + c.work[c.si + |lhs|..], WordEndAt(c), WordEndAt(c), true)
  }

  lemma PastMatch(c: Walk, at: Place, lhs: string, rhs: string)
    requires PlainPair(lhs, rhs) && PlainPlace(at) && IsAt(c, at) && lhs <= at.ahead && c.si + |lhs| <= |c.work|
    requires |rhs| >= |lhs| || at.stuck
    ensures var next := NextPlace(lhs, rhs, at); PlainPlace(next) && IsAt(Matched(lhs, rhs, c), next)
  {
    WordEndHere(c, at);
    hide WordEndAt, PlainWord, PlainChar, Further;
    CutMatch(lhs, rhs, at.behind, at.ahead, Further(at.more));
    var after := rhs + at.ahead[|lhs|..];
    PlainParts(at.ahead, "", |lhs|);
    PlainParts(rhs, at.ahead[|lhs|..], 0);
    if !at.stuck {
      PlainParts(after, "", |at.ahead|);
      TakeDrop(after, |at.ahead|);
      Assoc(at.behind, after[..|at.ahead|], after[|at.ahead|..]);
    }
  }

  /** One iteration of the loop is one step from place to place. */
  lemma StepFollows(c: Walk, at: Place, lhs: string, rhs: string)
    requires PlainPair(lhs, rhs) && PlainPlace(at) && IsAt(c, at) && !LineEnd(at)
    requires |rhs| >= |lhs| || at.stuck || !(lhs <= at.ahead)
    ensures PlainPlace(NextPlace(lhs, rhs, at))
    ensures !WalkDone(lhs, c) ==> IsAt(WalkStep(lhs, rhs, c), NextPlace(lhs, rhs, at))
    ensures WalkDone(lhs, c) ==> !(lhs <= at.ahead)
    ensures !(lhs <= at.ahead) ==> IsAt(Walk(c.work, c.si + 1, WordEndAt(c), c.found), NextPlace(lhs, rhs, at))
  {
    FirstIsPlain(lhs);
    AheadOf(at);
    MatchAtPlace(c, at, lhs);
    hide NextPlace, PlainPair, PlainPlace, IsAt, LineOf, WordEndAt, PlainWord, At;
    if at.ahead == "" {
      ToNextWord(c, at, lhs, rhs);
    } else if !(lhs <= at.ahead) {
      OnePast(c, at, lhs, rhs);
    } else {
      PastMatch(c, at, lhs, rhs);
    }
  }

  // ------------------------------------------------------------------- what comes of it

  /** The loop ends, with the text if one is given. */
  ghost predicate EndsWith(lhs: string, rhs: string, c: Walk, result: Option<string>) {
    exists n: nat :: WalkDone(lhs, After(lhs, rhs, c, n))
        && (result.None? || After(lhs, rhs, c, n).work == result.value)
  }

  /** From this place on the loop ends, with the text if one is given. */
  ghost predicate Gives(lhs: string, rhs: string, at: Place, result: Option<string>) {
    forall c: Walk :: IsAt(c, at) ==> EndsWith(lhs, rhs, c, result)
  }

  lemma EndsNow(lhs: string, rhs: string, c: Walk, result: Option<string>)
    requires WalkDone(lhs, c)
    ensures EndsWith(lhs, rhs, c, result) <==> result.None? || c.work == result.value
  {
    assert After(lhs, rhs, c, 0) == c;
    if EndsWith(lhs, rhs, c, result) {
      var n: nat :| WalkDone(lhs, After(lhs, rhs, c, n))
          && (result.None? || After(lhs, rhs, c, n).work == result.value);
      assert After(lhs, rhs, c, n) == c;
    }
  }

  lemma EndsAfterStep(lhs: string, rhs: string, c: Walk, result: Option<string>)
    requires !WalkDone(lhs, c) && EndsWith(lhs, rhs, WalkStep(lhs, rhs, c), result)
    ensures EndsWith(lhs, rhs, c, result)
  {
    hide WalkStep;
    var next := WalkStep(lhs, rhs, c);
    var n: nat :| WalkDone(lhs, After(lhs, rhs, next, n))
        && (result.None? || After(lhs, rhs, next, n).work == result.value);
    assert After(lhs, rhs, c, n + 1) == After(lhs, rhs, next, n);
  }

  /** What comes of the next place comes of this one. */
  lemma Forward(lhs: string, rhs: string, at: Place, result: Option<string>)
    requires PlainPair(lhs, rhs) && PlainPlace(at) && !LineEnd(at)
    requires |rhs| >= |lhs| || at.stuck || !(lhs <= at.ahead)
    requires Gives(lhs, rhs, NextPlace(lhs, rhs, at), result)
    ensures Gives(lhs, rhs, at, result)
  {
    hide NextPlace, PlainPair, PlainPlace, EndsWith, WalkStep, WordEndAt;
    forall c: Walk | IsAt(c, at) ensures EndsWith(lhs, rhs, c, result) {
      StepFollows(c, at, lhs, rhs);
      if WalkDone(lhs, c) {
        var past := Walk(c.work, c.si + 1, WordEndAt(c), c.found);
        EndsNow(lhs, rhs, past, result);
        EndsNow(lhs, rhs, c, result);
      } else {
        EndsAfterStep(lhs, rhs, c, result);
      }
    }
  }

  lemma AtLineEnd(lhs: string, rhs: string, at: Place, result: Option<string>)
    requires lhs != "" && LineEnd(at) && (result.None? || result.value == at.behind)
    ensures Gives(lhs, rhs, at, result)
  {
    hide EndsWith;
    forall c: Walk | IsAt(c, at) ensures EndsWith(lhs, rhs, c, result) {
      assert at.behind + "" + "" == at.behind;
      EndsNow(lhs, rhs, c, result);
    }
  }

  /** At the end of a word it does not matter what the loop takes for its end. */
  lemma StuckOrNot(lhs: string, rhs: string, behind: string, more: seq<string>, stuck: bool, result: Option<string>)
    requires Gives(lhs, rhs, Place(behind, "", more, stuck), result)
    ensures Gives(lhs, rhs, Place(behind, "", more, !stuck), result)
  {
    hide EndsWith, Further;
    forall c: Walk | IsAt(c, Place(behind, "", more, !stuck)) ensures EndsWith(lhs, rhs, c, result) {
      assert IsAt(c, Place(behind, "", more, stuck));
    }
  }

  // ------------------------------------------------------- over what does not match

  lemma OccursFurther(lhs: string, s: string)
    requires lhs != "" && s != "" && !(lhs <= s)
    ensures Occurs(lhs, s) <==> Occurs(lhs, s[1..])
  {
    assert !At(s, 0, lhs) by {
      assert |lhs| <= |s| ==> s[0..|lhs|] == s[..|lhs|];
    }
    forall i: nat | 1 <= i <= |s| ensures At(s, i, lhs) <==> At(s[1..], i - 1, lhs) {
      AtInTail(s, 1, i - 1, lhs);
    }
    if Occurs(lhs, s) {
      var i: nat :| i <= |s| && At(s, i, lhs);
      assert i > 0 && At(s[1..], i - 1, lhs);
    }
    if Occurs(lhs, s[1..]) {
      var i: nat :| i <= |s[1..]| && At(s[1..], i, lhs);
      assert At(s, i + 1, lhs);
    }
  }

  lemma OccursInFront(lhs: string, s: string)
    requires lhs <= s
    ensures Occurs(lhs, s)
  {
    assert s[0..|lhs|] == s[..|lhs|];
    assert At(s, 0, lhs);
  }

  /** A word without the pattern is passed over. */
  lemma {:induction false} PassOver(lhs: string, rhs: string, at: Place, result: Option<string>)
    requires PlainPair(lhs, rhs) && PlainPlace(at) && !Occurs(lhs, at.ahead)
    requires Gives(lhs, rhs, Place(at.behind + at.ahead, "", at.more, false), result)
    ensures Gives(lhs, rhs, at, result)
    decreases |at.ahead|
  {
    hide Gives, PlainWord, PlainChar, Occurs;
    if at.ahead == "" {
      assert at.behind + "" == at.behind;
      if at.stuck {
        StuckOrNot(lhs, rhs, at.behind, at.more, false, result);
      }
    } else {
      if lhs <= at.ahead {
        OccursInFront(lhs, at.ahead);
      }
      FirstIsPlain(lhs);
      OccursFurther(lhs, at.ahead);
      var next := NextPlace(lhs, rhs, at);
      PlainParts(at.ahead, "", 1);
      TakeDrop(at.ahead, 1);
      Assoc(at.behind, at.ahead[..1], at.ahead[1..]);
      PassOver(lhs, rhs, next, result);
      Forward(lhs, rhs, at, result);
    }
  }

  /** The characters in front of the first match are passed over. */
  lemma {:induction false} PassTo(lhs: string, rhs: string, at: Place, q: nat, result: Option<string>)
    requires PlainPair(lhs, rhs) && PlainPlace(at)
    requires 0 < q <= |at.ahead| && forall p: nat :: p < q ==> !At(at.ahead, p, lhs)
    requires Gives(lhs, rhs, Place(at.behind + at.ahead[..q], at.ahead[q..], at.more, false), result)
    ensures Gives(lhs, rhs, at, result)
    decreases q
  {
    hide Gives, PlainWord, PlainChar;
    var s := at.ahead;
    assert !(lhs <= s) by {
      assert |lhs| <= |s| ==> s[0..|lhs|] == s[..|lhs|];
      assert !At(s, 0, lhs);
    }
    hide At;
    var next := NextPlace(lhs, rhs, at);
    if q > 1 {
      PlainParts(s, "", 1);
      NotEarlier(s, q, lhs);
      assert s[..1] + s[1..][..q - 1] == s[..q];
      Assoc(at.behind, s[..1], s[1..][..q - 1]);
      DropDrop(s, 1, q - 1);
      PassTo(lhs, rhs, next, q - 1, result);
    }
    Forward(lhs, rhs, at, result);
  }

  lemma NotEarlier(s: string, q: nat, lhs: string)
    requires 0 < q <= |s| && forall p: nat :: p < q ==> !At(s, p, lhs)
    ensures forall p: nat :: p < q - 1 ==> !At(s[1..], p, lhs)
  {
    forall p: nat | p < q - 1 ensures !At(s[1..], p, lhs) {
      AtInTail(s, 1, p, lhs);
    }
  }
}
