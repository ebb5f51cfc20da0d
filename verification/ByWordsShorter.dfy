/**
 Substitution by words on lines of plain words with a replacement shorter than its pattern
 (src/history_expand.rs): the loop goes on beyond the shortened word, so it may pass over the start of
 the next words. One condition under which it replaces the first occurrence in each word all the same,
 and two families of lines on which the loop does something else.
 */
module ByWordsShorter {
  import opened ByWords
  import opened ByWordsLines
  import opened ByWordsPlaces
  import opened HistoryTokenizer
  import opened HistoryWords
  import opened Sequences
  import opened Substitution
  import opened Wrappers

  /** Where the loop is when it goes on `past` characters into further words; None beyond the line. */
  function Landed(behind: string, more: seq<string>, past: nat): Option<Place>
    requires past > 0
    decreases |more|
  {
    if more == [] then None
    else
      var w := more[0];
      if past <= |w| + 1 then Some(Place(behind + " " + w[..past - 1], w[past - 1..], more[1..], true))
      else Landed(behind + " " + w, more[1..], past - 1 - |w|)
  }

  lemma {:induction false} LandedIsThere(c: Walk, behind: string, more: seq<string>, past: nat)
    requires past > 0 && PlainWords(more)
    requires c.work == behind + Further(more) && c.si == c.we == |behind| + past
    ensures match Landed(behind, more, past)
            case None => c.si > |c.work|
            case Some(at) => IsAt(c, at) && PlainPlace(at)
    decreases |more|
  {
    if more != [] {
      var w, rest := more[0], more[1..];
      FurtherStep(more);
      FirstIsPlain(w);
      hide Further, PlainWord, PlainChar;
      Assoc(behind, " " + w, Further(rest));
      Assoc(behind, " ", w);
      if past <= |w| + 1 {
        PlainParts(w, "", past - 1);
        TakeDrop(w, past - 1);
        Assoc(behind + " ", w[..past - 1], w[past - 1..]);
      } else {
        LandedIsThere(c, behind + " " + w, rest, past - 1 - |w|);
      }
    }
  }

  /** A match in a word the loop has the end of, replaced by something shorter. */
  lemma Jump(lhs: string, rhs: string, at: Place, result: Option<string>)
    requires PlainPair(lhs, rhs) && |rhs| < |lhs| && PlainPlace(at) && !at.stuck && lhs <= at.ahead
    requires var after := at.behind + (rhs + at.ahead[|lhs|..]);
             match Landed(after, at.more, |lhs| - |rhs|)
             case None => result.None? || result.value == after + Further(at.more)
             case Some(next) => Gives(lhs, rhs, next, result)
    ensures Gives(lhs, rhs, at, result)
  {
    hide EndsWith, PlainWord, PlainChar, Further, WordEndAt, Landed;
    NotEmpty(lhs);
    forall c: Walk | IsAt(c, at) ensures EndsWith(lhs, rhs, c, result) {
      NotDoneAtMatch(c, at, lhs);
      MatchAtPlace(c, at, lhs);
      WordEndHere(c, at);
      CutMatch(lhs, rhs, at.behind, at.ahead, Further(at.more));
      var after, next := at.behind + (rhs + at.ahead[|lhs|..]), WalkStep(lhs, rhs, c);
      LandedIsThere(next, after, at.more, |lhs| - |rhs|);
      if Landed(after, at.more, |lhs| - |rhs|).None? {
        EndsNow(lhs, rhs, next, result);
      }
      EndsAfterStep(lhs, rhs, c, result);
    }
  }

  // -------------------------------------------------------- words far enough apart

  /**
   The pattern is nowhere in what the loop passes over, when it goes on `past` characters into these words,
   stuck there or not; and what is replaced where it is stuck is not replaced again.
   */
  ghost predicate Apart(ws: seq<string>, lhs: string, rhs: string, past: nat, stuck: bool)
    requires |rhs| < |lhs|
    decreases |ws|
  {
    if ws == [] then true
    else
      var w, rest := ws[0], ws[1..];
      if past > |w| then !Occurs(lhs, w) && Apart(rest, lhs, rhs, past - |w| - 1, stuck)
      else
        match LeftmostFrom(w, lhs, 0)
        case None => Apart(rest, lhs, rhs, 0, false)
        case Some(q) =>
          && past <= q
          && if stuck && past == q then !Occurs(lhs, rhs + w[q + |lhs|..]) && Apart(rest, lhs, rhs, 0, false)
             else Apart(rest, lhs, rhs, |lhs| - |rhs| - 1, true)
  }

  /** The text that comes of these words when the first occurrence in each is replaced. */
  function OnceFrom(front: string, ws: seq<string>, lhs: string, rhs: string): string {
    front + Further(EachOnce(ws, lhs, rhs))
  }

  lemma OnceFromNext(front: string, ws: seq<string>, lhs: string, rhs: string)
    requires ws != []
    ensures OnceFrom(front, ws, lhs, rhs) == OnceFrom(front + " " + FirstReplaced(ws[0], lhs, rhs), ws[1..], lhs, rhs)
  {
    FurtherStep(EachOnce(ws, lhs, rhs));
    assert EachOnce(ws, lhs, rhs)[1..] == EachOnce(ws[1..], lhs, rhs);
    hide Further, FirstReplaced;
    var once := FirstReplaced(ws[0], lhs, rhs);
    Assoc(front, " " + once, Further(EachOnce(ws[1..], lhs, rhs)));
    Assoc(front, " ", once);
  }

  lemma NotInPart(w: string, k: nat, lhs: string)
    requires k <= |w| && !Occurs(lhs, w)
    ensures !Occurs(lhs, w[k..])
  {
    forall i: nat | i <= |w| - k ensures !At(w[k..], i, lhs) {
      AtInTail(w, k, i, lhs);
    }
  }

  lemma NotInPartBefore(w: string, k: nat, q: nat, lhs: string)
    requires k <= q <= |w| && forall p: nat :: p < q ==> !At(w, p, lhs)
    ensures forall p: nat :: p < q - k ==> !At(w[k..], p, lhs)
  {
    forall p: nat | p < q - k ensures !At(w[k..], p, lhs) {
      AtInTail(w, k, p, lhs);
    }
  }

  /** The place `k` characters into a word. */
  function InWord(front: string, ws: seq<string>, k: nat, stuck: bool): Place
    requires ws != [] && k <= |ws[0]|
  {
    Place(front + ws[0][..k], ws[0][k..], ws[1..], stuck)
  }

  lemma InWordIsPlain(front: string, ws: seq<string>, k: nat, stuck: bool)
    requires ws != [] && k <= |ws[0]| && PlainWords(ws)
    ensures PlainPlace(InWord(front, ws, k, stuck))
  {
    FirstIsPlain(ws[0]);
    hide PlainWord, PlainChar;
    PlainParts(ws[0], "", k);
  }

  /** A word without the pattern. */
  lemma {:induction false} WordWithout(lhs: string, rhs: string, front: string, ws: seq<string>, k: nat, stuck: bool)
    requires PlainPair(lhs, rhs) && |rhs| < |lhs| && PlainWords(ws) && ws != [] && k <= |ws[0]|
    requires LeftmostFrom(ws[0], lhs, 0).None? && Apart(ws[1..], lhs, rhs, 0, false)
    ensures Gives(lhs, rhs, InWord(front, ws, k, stuck),
                  Some(OnceFrom(front + FirstReplaced(ws[0], lhs, rhs), ws[1..], lhs, rhs)))
    decreases |ws|, 0
  {
    var w := ws[0];
    LeftmostOccurs(w, lhs);
    NotInPart(w, k, lhs);
    InWordIsPlain(front, ws, k, stuck);
    TakeDrop(w, k);
    Assoc(front, w[..k], w[k..]);
    hide Gives, PlainWord, PlainChar, Occurs, Further, Apart;
    BehindWord(lhs, rhs, front + w, ws[1..]);
    PassOver(lhs, rhs, InWord(front, ws, k, stuck), Some(OnceFrom(front + w, ws[1..], lhs, rhs)));
  }

  /** A word whose first occurrence is where the loop is stuck. */
  lemma {:induction false} WordStuck(lhs: string, rhs: string, front: string, ws: seq<string>, q: nat)
    requires PlainPair(lhs, rhs) && |rhs| < |lhs| && PlainWords(ws) && ws != []
    requires LeftmostFrom(ws[0], lhs, 0) == Some(q) && q <= |ws[0]| && At(ws[0], q, lhs)
    requires !Occurs(lhs, rhs + ws[0][q + |lhs|..]) && Apart(ws[1..], lhs, rhs, 0, false)
    ensures Gives(lhs, rhs, InWord(front, ws, q, true),
                  Some(OnceFrom(front + FirstReplaced(ws[0], lhs, rhs), ws[1..], lhs, rhs)))
    decreases |ws|, 0
  {
    var w, at := ws[0], InWord(front, ws, q, true);
    FirstMatchReplaced(front, w, lhs, rhs, q);
    InWordIsPlain(front, ws, q, true);
    NotEmpty(lhs);
    hide Gives, PlainWord, PlainChar, Occurs, Further, Apart, At, FirstReplaced, OnceFrom;
    var result := Some(OnceFrom(front + FirstReplaced(w, lhs, rhs), ws[1..], lhs, rhs));
    PlainParts(w[q..], "", |lhs|);
    PlainParts(rhs, w[q..][|lhs|..], 0);
    BehindWord(lhs, rhs, front + FirstReplaced(w, lhs, rhs), ws[1..]);
    PassOver(lhs, rhs, NextPlace(lhs, rhs, at), result);
    Forward(lhs, rhs, at, result);
  }

  lemma FirstMatchReplaced(front: string, w: string, lhs: string, rhs: string, q: nat)
    requires LeftmostFrom(w, lhs, 0) == Some(q) && q <= |w| && At(w, q, lhs)
    ensures lhs <= w[q..] && w[q..][|lhs|..] == w[q + |lhs|..]
    ensures front + w[..q] + (rhs + w[q..][|lhs|..]) == front + FirstReplaced(w, lhs, rhs)
  {
    FoundAt(w, lhs, q);
    ReplacedAt(w, lhs, rhs, q);
    hide At, LeftmostFrom, FirstReplaced;
    DropDrop(w, q, |lhs|);
    Assoc(w[..q], rhs, w[q + |lhs|..]);
    Assoc(front, w[..q], rhs + w[q + |lhs|..]);
  }

  /** A word whose first occurrence the loop comes to with the end of the word known. */
  lemma {:induction false} WordJumped(lhs: string, rhs: string, front: string, ws: seq<string>, q: nat)
    requires PlainPair(lhs, rhs) && |rhs| < |lhs| && PlainWords(ws) && ws != []
    requires LeftmostFrom(ws[0], lhs, 0) == Some(q) && q <= |ws[0]| && At(ws[0], q, lhs)
    requires Apart(ws[1..], lhs, rhs, |lhs| - |rhs| - 1, true)
    ensures Gives(lhs, rhs, InWord(front, ws, q, false),
                  Some(OnceFrom(front + FirstReplaced(ws[0], lhs, rhs), ws[1..], lhs, rhs)))
    decreases |ws|, 0
  {
    var w, at := ws[0], InWord(front, ws, q, false);
    FirstMatchReplaced(front, w, lhs, rhs, q);
    InWordIsPlain(front, ws, q, false);
    hide Gives, PlainWord, PlainChar, Further, Apart, At, Landed, FirstReplaced;
    LandsRight(lhs, rhs, front + FirstReplaced(w, lhs, rhs), ws[1..], |lhs| - |rhs|);
    Jump(lhs, rhs, at, Some(OnceFrom(front + FirstReplaced(w, lhs, rhs), ws[1..], lhs, rhs)));
  }

  lemma {:induction false} WordApart(lhs: string, rhs: string, front: string, ws: seq<string>, k: nat, stuck: bool)
    requires PlainPair(lhs, rhs) && |rhs| < |lhs| && PlainWords(ws) && ws != [] && k <= |ws[0]|
    requires Apart(ws, lhs, rhs, k, stuck)
    ensures Gives(lhs, rhs, InWord(front, ws, k, stuck),
                  Some(OnceFrom(front + FirstReplaced(ws[0], lhs, rhs), ws[1..], lhs, rhs)))
    decreases |ws|, 1
  {
    hide Gives, PlainWord, PlainChar, Occurs, Further, OnceFrom, FirstReplaced;
    var w := ws[0];
    match LeftmostFrom(w, lhs, 0)
    case None => WordWithout(lhs, rhs, front, ws, k, stuck);
    case Some(q) =>
      if stuck && k == q {
        WordStuck(lhs, rhs, front, ws, q);
      } else {
        WordJumped(lhs, rhs, front, ws, q);
        if k < q {
          NotInPartBefore(w, k, q, lhs);
          InWordIsPlain(front, ws, k, stuck);
          SliceOfRest(w, k, q);
          Assoc(front, w[..k], w[k..][..q - k]);
          PassTo(lhs, rhs, InWord(front, ws, k, stuck), q - k,
                 Some(OnceFrom(front + FirstReplaced(w, lhs, rhs), ws[1..], lhs, rhs)));
        }
      }
  }

  lemma SliceOfRest(w: string, k: nat, q: nat)
    requires k <= q <= |w|
    ensures w[..k] + w[k..][..q - k] == w[..q] && w[k..][q - k..] == w[q..]
  {
  }

  lemma {:induction false} BehindWord(lhs: string, rhs: string, front: string, ws: seq<string>)
    requires PlainPair(lhs, rhs) && |rhs| < |lhs| && PlainWords(ws) && Apart(ws, lhs, rhs, 0, false)
    ensures Gives(lhs, rhs, Place(front, "", ws, false), Some(OnceFrom(front, ws, lhs, rhs)))
    decreases |ws|, 2
  {
    hide Gives, PlainWord, PlainChar, Apart, FirstReplaced;
    var at := Place(front, "", ws, false);
    NotEmpty(lhs) by { PairWord(lhs, rhs); }
    if ws == [] {
      assert front + "" == front;
      AtLineEnd(lhs, rhs, at, Some(OnceFrom(front, ws, lhs, rhs)));
    } else {
      WordApart(lhs, rhs, front + " ", ws, 0, false);
      OnceFromNext(front, ws, lhs, rhs);
      hide Further, OnceFrom;
      assert ws[0][0..] == ws[0] && front + " " + ws[0][..0] == front + " ";
      Forward(lhs, rhs, at, Some(OnceFrom(front, ws, lhs, rhs)));
    }
  }

  lemma {:induction false} LandsRight(lhs: string, rhs: string, front: string, ws: seq<string>, past: nat)
    requires PlainPair(lhs, rhs) && |rhs| < |lhs| && PlainWords(ws) && past > 0 && Apart(ws, lhs, rhs, past - 1, true)
    ensures match Landed(front, ws, past)
            case None => OnceFrom(front, ws, lhs, rhs) == front + Further(ws)
            case Some(at) => Gives(lhs, rhs, at, Some(OnceFrom(front, ws, lhs, rhs)))
    decreases |ws|, 2
  {
    hide Gives, PlainWord, PlainChar, Occurs;
    if ws != [] {
      var w := ws[0];
      OnceFromNext(front, ws, lhs, rhs);
      hide OnceFrom;
      if past - 1 > |w| {
        LeftmostOccurs(w, lhs);
        LandsRight(lhs, rhs, front + " " + w, ws[1..], past - 1 - |w|);
        FurtherStep(ws);
        hide Further;
        Assoc(front, " " + w, Further(ws[1..]));
        Assoc(front, " ", w);
      } else {
        hide FirstReplaced;
        WordApart(lhs, rhs, front + " ", ws, past - 1, true);
      }
    }
  }

  /**
   With a shorter replacement: where the pattern is in none of the characters the loop passes over, exactly
   the first occurrence in each word is replaced.
   */
  lemma EachWordOnceWhenApart(ws: seq<string>, lhs: string, rhs: string)
    requires PlainPair(lhs, rhs) && |rhs| < |lhs| && PlainWords(ws) && Apart(ws, lhs, rhs, 0, true)
    ensures WordsOutcome(Join(ws), lhs, rhs) == Intended(ws, lhs, rhs)
  {
    PairWord(lhs, rhs);
    NotEmpty(lhs);
    hide Gives, PlainWord, PlainChar, Apart, WordsOutcome, FirstReplaced;
    if ws == [] {
      NothingOccurs(lhs);
      OutcomeAfter("", lhs, rhs, 0);
    } else {
      StartsThere(ws);
      WordApart(lhs, rhs, "", ws, 0, true);
      FurtherStep(EachOnce(ws, lhs, rhs));
      assert EachOnce(ws, lhs, rhs)[1..] == EachOnce(ws[1..], lhs, rhs);
      hide Further, Join;
      var once := FirstReplaced(ws[0], lhs, rhs);
      assert ws[0][0..] == ws[0] && "" + ws[0][..0] == "" && "" + once == once;
      GivesAtStart(ws, lhs, rhs, Join(EachOnce(ws, lhs, rhs)));
      OutcomeOfLine(ws, lhs, rhs, Join(EachOnce(ws, lhs, rhs)));
    }
  }

  lemma GivesAtStart(ws: seq<string>, lhs: string, rhs: string, result: string)
    requires ws != [] && PlainWords(ws) && Gives(lhs, rhs, StartPlace(ws), Some(result))
    ensures EndsWith(lhs, rhs, StartWalk(Join(ws)), Some(result))
  {
    hide EndsWith;
    StartsThere(ws);
  }

  // ------------------------------------------------------------------- lines it fails on

  /** The first of two words that the pattern is all of is deleted, and the second passed over. */
  lemma SkipsNextWord(b: string, w: string)
    requires PlainWord(b) && PlainWord(w) && |w| > 1 && !Occurs(w, b)
    ensures WordsOutcome(Join([b, w, w]), w, "") == Replaced(Join([b, "", w]))
  {
    FirstIsPlain(w);
    LandsInLast(b + " ", w);
    WholeWord(w);
    assert [w, w][1..] == [w] && [b] + [w, w] == [b, w, w];
    hide Gives, PlainWord, PlainChar, Occurs, WordsOutcome, Join;
    FromSecondWord(w, "", b, [w, w], b + " " + " " + w);
    JoinThree(b, w);
  }

  lemma WholeWord(w: string)
    ensures Occurs(w, w)
  {
    OccursInFront(w, w);
  }

  lemma JoinThree(b: string, w: string)
    ensures Join([b, "", w]) == b + " " + " " + w
  {
    assert [b, "", w][1..] == ["", w];
    FurtherStep([b, "", w]);
    JoinTwo("", w);
    FurtherStep(["", w]);
    assert "" + " " + w == " " + w;
    Assoc(b, " ", " " + w);
    Assoc(b + " ", " ", w);
  }

  lemma LandsInLast(front: string, w: string)
    requires PlainWord(w) && |w| > 1
    ensures Gives(w, "", Place(front, w, [w], false), Some(front + " " + w))
  {
    FirstIsPlain(w);
    var last := Place(front + " " + w[..|w| - 1], w[|w| - 1..], [], true);
    assert w[|w|..] == "" && "" + "" == "" && front + "" == front && [w][1..] == [];
    assert Landed(front, [w], |w|) == Some(last);
    TakeDrop(w, |w| - 1);
    Assoc(front + " ", w[..|w| - 1], w[|w| - 1..]);
    PlainParts(w, "", |w| - 1);
    ShortHasNone(w, w[|w| - 1..]);
    hide Gives, PlainWord, PlainChar, Occurs, Further, Landed;
    PassToLineEnd(w, "", last);
    Jump(w, "", Place(front, w, [w], false), Some(front + " " + w));
  }

  lemma ShortHasNone(lhs: string, s: string)
    requires |s| < |lhs|
    ensures !Occurs(lhs, s)
  {
  }

  lemma SkipsExample()
    ensures WordsOutcome("b aaa aaa", "aaa", "") == Replaced("b  aaa")
  {
    hide WordsOutcome, Join;
    JoinTwo("aaa", "aaa");
    JoinThree("b", "aaa");
    LineOfThree("b", "aaa");
    assert "b" + " " + "aaa" + " " + "aaa" == "b aaa aaa" && "b" + " " + " " + "aaa" == "b  aaa";
    NotAmong("aaa", "b");
    SkipsNextWord("b", "aaa");
  }

  lemma LineOfThree(b: string, w: string)
    ensures Join([b, w, w]) == b + " " + w + " " + w
  {
    assert [b, w, w][1..] == [w, w];
    FurtherStep([b, w, w]);
    JoinTwo(w, w);
    FurtherStep([w, w]);
    hide Join, Further;
    assert b + (" " + (w + " " + w)) == b + " " + w + " " + w;
  }
}
