/**
 Substitution by words on lines of plain words (src/history_expand.rs): exactly when the first occurrence
 in each word is replaced and nothing else.
 */
module ByWordsLines {
  import opened ByWords
  import opened ByWordsPlaces
  import opened HistoryTokenizer
  import opened HistoryWords
  import opened Sequences
  import opened Substitution
  import opened Wrappers

  // ------------------------------------------------- the first occurrence in each word

  function EachOnce(ws: seq<string>, lhs: string, rhs: string): seq<string> {
    if ws == [] then [] else [FirstReplaced(ws[0], lhs, rhs)] + EachOnce(ws[1..], lhs, rhs)
  }

  ghost predicate InSomeWord(lhs: string, ws: seq<string>) { exists i :: 0 <= i < |ws| && Occurs(lhs, ws[i]) }

  /** What is meant: the first occurrence in each word replaced. */
  ghost function Intended(ws: seq<string>, lhs: string, rhs: string): Substituted {
    if InSomeWord(lhs, ws) then Replaced(Join(EachOnce(ws, lhs, rhs))) else NotFound
  }

  /** The pattern is not in what the replaced word has beyond the length of the old one. */
  ghost predicate StaysRight(w: string, lhs: string, rhs: string) {
    var r := FirstReplaced(w, lhs, rhs);
    |w| <= |r| && !Occurs(lhs, r[|w|..])
  }

  /** The word at the start of the line, when it begins with the pattern: it is nowhere in the replaced word. */
  ghost predicate StartsRight(w: string, lhs: string, rhs: string)
    requires lhs <= w
  {
    !Occurs(lhs, rhs + w[|lhs|..])
  }

  ghost predicate RightAtStart(w: string, lhs: string, rhs: string) {
    if lhs <= w then StartsRight(w, lhs, rhs) else StaysRight(w, lhs, rhs)
  }

  /** The replacement is replaced nowhere once more. */
  ghost predicate RightOnce(ws: seq<string>, lhs: string, rhs: string) {
    ws != [] ==> RightAtStart(ws[0], lhs, rhs) && forall i :: 1 <= i < |ws| ==> StaysRight(ws[i], lhs, rhs)
  }

  lemma FirstIs(w: string, lhs: string, rhs: string)
    requires lhs <= w
    ensures LeftmostFrom(w, lhs, 0) == Some(0) && FirstReplaced(w, lhs, rhs) == rhs + w[|lhs|..]
  {
    assert w[0..|lhs|] == w[..|lhs|];
    LeftmostIs(w, lhs, 0);
    assert w[..0] + rhs == rhs;
  }

  /** A word the loop enters from its front, or the first one when it does not begin with the pattern. */
  lemma WordOnce(lhs: string, rhs: string, at: Place, result: Option<string>)
    requires PlainPair(lhs, rhs) && |rhs| >= |lhs| && PlainPlace(at) && (at.stuck ==> !(lhs <= at.ahead))
    requires StaysRight(at.ahead, lhs, rhs)
    requires Gives(lhs, rhs, Place(at.behind + FirstReplaced(at.ahead, lhs, rhs), "", at.more, false), result)
    ensures Gives(lhs, rhs, at, result)
  {
    hide Gives, PlainWord, PlainChar, Occurs;
    var w := at.ahead;
    match LeftmostFrom(w, lhs, 0)
    case None =>
      LeftmostOccurs(w, lhs);
      PassOver(lhs, rhs, at, result);
    case Some(q) =>
      WordMatched(lhs, rhs, Place(at.behind + w[..q], w[q..], at.more, false), w[..q], result) by {
        FoundAt(w, lhs, q);
        PlainParts(w, "", q);
        var after := rhs + w[q..][|lhs|..];
        DropDrop(w, q, |lhs|);
        Assoc(w[..q], rhs, w[q + |lhs|..]);
        assert FirstReplaced(w, lhs, rhs) == w[..q] + after;
        Assoc(at.behind, w[..q], after);
        assert (w[..q] + after)[|w|..] == after[|w| - q..];
      }
      if q > 0 {
        PassTo(lhs, rhs, at, q, result);
      } else {
        assert at.behind + w[..0] == at.behind && w[0..] == w;
        FirstHere(w, lhs);
      }
  }

  lemma FoundAt(w: string, lhs: string, q: nat)
    requires At(w, q, lhs)
    ensures lhs <= w[q..]
  {
    Reslice(w, q, |lhs|);
  }

  lemma FirstHere(w: string, lhs: string)
    requires At(w, 0, lhs)
    ensures lhs <= w
  {
    FoundAt(w, lhs, 0);
    assert w[0..] == w;
  }

  lemma WordMatched(lhs: string, rhs: string, at: Place, skipped: string, result: Option<string>)
    requires PlainPair(lhs, rhs) && |rhs| >= |lhs| && PlainPlace(at) && !at.stuck && lhs <= at.ahead
    requires !Occurs(lhs, (rhs + at.ahead[|lhs|..])[|at.ahead|..])
    requires Gives(lhs, rhs, Place(at.behind + (rhs + at.ahead[|lhs|..]), "", at.more, false), result)
    ensures Gives(lhs, rhs, at, result)
  {
    hide Gives, PlainWord, PlainChar, Occurs;
    FirstIsPlain(lhs);
    var after := rhs + at.ahead[|lhs|..];
    var next := NextPlace(lhs, rhs, at);
    PlainParts(at.ahead, "", |lhs|);
    PlainParts(rhs, at.ahead[|lhs|..], 0);
    PlainParts(after, "", |at.ahead|);
    TakeDrop(after, |at.ahead|);
    Assoc(at.behind, after[..|at.ahead|], after[|at.ahead|..]);
    PassOver(lhs, rhs, next, result);
    Forward(lhs, rhs, at, result);
  }

  /** The first word when it begins with the pattern. */
  lemma StartOnce(lhs: string, rhs: string, at: Place, result: Option<string>)
    requires PlainPair(lhs, rhs) && PlainPlace(at) && at.stuck && lhs <= at.ahead
    requires StartsRight(at.ahead, lhs, rhs)
    requires Gives(lhs, rhs, Place(at.behind + FirstReplaced(at.ahead, lhs, rhs), "", at.more, false), result)
    ensures Gives(lhs, rhs, at, result)
  {
    hide Gives, PlainWord, PlainChar, Occurs;
    FirstIsPlain(lhs);
    FirstIs(at.ahead, lhs, rhs);
    PlainParts(at.ahead, "", |lhs|);
    PlainParts(rhs, at.ahead[|lhs|..], 0);
    PassOver(lhs, rhs, NextPlace(lhs, rhs, at), result);
    Forward(lhs, rhs, at, result);
  }

  lemma {:induction false} RestOnce(lhs: string, rhs: string, behind: string, ws: seq<string>)
    requires PlainPair(lhs, rhs) && |rhs| >= |lhs| && PlainWords(ws)
    requires forall i :: 0 <= i < |ws| ==> StaysRight(ws[i], lhs, rhs)
    ensures Gives(lhs, rhs, Place(behind, "", ws, false), Some(behind + Further(EachOnce(ws, lhs, rhs))))
    decreases |ws|
  {
    hide Gives, PlainWord, StaysRight, FirstReplaced;
    var result := Some(behind + Further(EachOnce(ws, lhs, rhs)));
    if ws == [] {
      NotEmpty(lhs);
      assert behind + "" == behind;
      AtLineEnd(lhs, rhs, Place(behind, "", ws, false), result);
    } else {
      var w, rest := ws[0], ws[1..];
      var once := FirstReplaced(w, lhs, rhs);
      RestOnce(lhs, rhs, behind + " " + once, rest);
      FurtherStep(EachOnce(ws, lhs, rhs));
      assert EachOnce(ws, lhs, rhs)[1..] == EachOnce(rest, lhs, rhs);
      hide Further, EachOnce;
      Assoc(behind, " " + once, Further(EachOnce(rest, lhs, rhs)));
      Assoc(behind, " ", once);
      FirstIsPlain(w);
      WordOnce(lhs, rhs, Place(behind + " ", w, rest, false), result);
      Forward(lhs, rhs, Place(behind, "", ws, false), result);
    }
  }

  lemma NotEmpty(w: string)
    requires PlainWord(w)
    ensures w != ""
  {
  }

  /** The place the loop starts from. */
  function StartPlace(ws: seq<string>): Place
    requires ws != []
  {
    Place("", ws[0], ws[1..], true)
  }

  lemma StartsThere(ws: seq<string>)
    requires ws != [] && PlainWords(ws)
    ensures IsAt(StartWalk(Join(ws)), StartPlace(ws)) && PlainPlace(StartPlace(ws))
  {
    FurtherStep(ws);
    FirstIsPlain(ws[0]);
    hide Further, PlainWord, PlainChar;
    assert "" + ws[0] == ws[0];
  }

  lemma LineOnce(ws: seq<string>, lhs: string, rhs: string)
    requires PlainPair(lhs, rhs) && |rhs| >= |lhs| && PlainWords(ws) && ws != [] && RightOnce(ws, lhs, rhs)
    ensures EndsWith(lhs, rhs, StartWalk(Join(ws)), Some(Join(EachOnce(ws, lhs, rhs))))
  {
    StartsThere(ws);
    var at := StartPlace(ws);
    var once, rest := FirstReplaced(ws[0], lhs, rhs), EachOnce(ws[1..], lhs, rhs);
    RestOnce(lhs, rhs, once, ws[1..]);
    assert EachOnce(ws, lhs, rhs)[1..] == rest;
    FurtherStep(EachOnce(ws, lhs, rhs));
    var result := Some(once + Further(rest));
    assert "" + once == once;
    hide EndsWith, PlainWord, Further, EachOnce, StaysRight, StartsRight;
    if lhs <= ws[0] {
      StartOnce(lhs, rhs, at, result);
    } else {
      WordOnce(lhs, rhs, at, result);
    }
  }

  // ----------------------------------------------------------------- occurrences in a line

  lemma OccursInWord(lhs: string, w: string, other: string)
    requires PlainWord(lhs) && SpaceOrEnd(other)
    ensures Occurs(lhs, w + other) <==> Occurs(lhs, w) || (other != "" && Occurs(lhs, other[1..]))
  {
    var line := w + other;
    forall i: nat | i <= |w| ensures At(line, i, lhs) <==> At(w, i, lhs) {
      TakeDrop(w, i);
      MatchHere(lhs, w[..i], w[i..], other);
      MatchHere(lhs, w[..i], w[i..], "");
      assert w[..i] + w[i..] + "" == w;
    }
    forall i: nat | |w| < i <= |line| ensures At(line, i, lhs) <==> At(other[1..], i - |w| - 1, lhs) {
      assert line[|w| + 1..] == other[1..];
      AtInTail(line, |w| + 1, i - |w| - 1, lhs);
    }
    if Occurs(lhs, line) {
      var i: nat :| i <= |line| && At(line, i, lhs);
      assert i <= |w| ==> At(w, i, lhs);
    }
    if Occurs(lhs, w) {
      var i: nat :| i <= |w| && At(w, i, lhs);
      assert At(line, i, lhs);
    }
    if other != "" && Occurs(lhs, other[1..]) {
      var i: nat :| i <= |other[1..]| && At(other[1..], i, lhs);
      assert At(line, |w| + 1 + i, lhs);
    }
  }

  lemma {:induction false} OccursInLine(lhs: string, ws: seq<string>)
    requires PlainWord(lhs)
    ensures Occurs(lhs, Join(ws)) <==> InSomeWord(lhs, ws)
    decreases |ws|
  {
    hide Occurs, PlainWord;
    if ws == [] {
      NothingOccurs(lhs);
    } else {
      FurtherStep(ws);
      OccursInWord(lhs, ws[0], Further(ws[1..]));
      OccursInLine(lhs, ws[1..]);
      NothingOccurs(lhs);
      assert ws[1..] != [] ==> Further(ws[1..])[1..] == Join(ws[1..]);
      assert forall i :: 1 <= i < |ws| ==> ws[1..][i - 1] == ws[i];
    }
  }

  lemma NothingOccurs(lhs: string)
    requires PlainWord(lhs)
    ensures !Occurs(lhs, "") && Join([]) == ""
  {
  }

  lemma OutcomeOfLine(ws: seq<string>, lhs: string, rhs: string, result: string)
    requires PlainWord(lhs) && EndsWith(lhs, rhs, StartWalk(Join(ws)), Some(result))
    ensures WordsOutcome(Join(ws), lhs, rhs) == if InSomeWord(lhs, ws) then Replaced(result) else NotFound
  {
    hide After, Occurs, Join, InSomeWord, WordsOutcome, PlainWord;
    var text := Join(ws);
    var n: nat :| WalkDone(lhs, After(lhs, rhs, StartWalk(text), n))
        && After(lhs, rhs, StartWalk(text), n).work == result;
    OutcomeAfter(text, lhs, rhs, n);
    ByWordsFailsExactlyWhen(text, lhs, rhs);
    OccursInLine(lhs, ws);
  }

  // ---------------------------------------------------------- when it is not what is meant

  /** How many replacements a word undergoes at least when the loop enters it from its front. */
  ghost function Needs(w: string, lhs: string, rhs: string): nat {
    if !Occurs(lhs, w) then 0 else if StaysRight(w, lhs, rhs) then 1 else 2
  }

  ghost function NeedsStuck(w: string, lhs: string, rhs: string): nat {
    if !(lhs <= w) then Needs(w, lhs, rhs) else if StartsRight(w, lhs, rhs) then 1 else 2
  }

  ghost function NeedsAll(ws: seq<string>, lhs: string, rhs: string): nat {
    if ws == [] then 0 else Needs(ws[0], lhs, rhs) + NeedsAll(ws[1..], lhs, rhs)
  }

  ghost function NeedsAt(at: Place, lhs: string, rhs: string): nat {
    (if at.stuck then NeedsStuck(at.ahead, lhs, rhs) else Needs(at.ahead, lhs, rhs)) + NeedsAll(at.more, lhs, rhs)
  }

  lemma OccurringNeeds(w: string, lhs: string, rhs: string)
    requires Occurs(lhs, w)
    ensures Needs(w, lhs, rhs) >= 1 && NeedsStuck(w, lhs, rhs) >= 1
  {
  }

  lemma NothingNeeds(lhs: string, rhs: string)
    requires lhs != ""
    ensures Needs("", lhs, rhs) == 0 && NeedsStuck("", lhs, rhs) == 0
  {
    assert !Occurs(lhs, "");
  }

  /** Without its first character a word that does not begin with the pattern needs as many. */
  lemma NeedsFurther(w: string, lhs: string, rhs: string)
    requires lhs != "" && w != "" && !(lhs <= w)
    ensures Needs(w[1..], lhs, rhs) == Needs(w, lhs, rhs) == NeedsStuck(w, lhs, rhs)
  {
    OccursFurther(lhs, w);
    hide Occurs, FirstReplaced;
    if Occurs(lhs, w) {
      LaterReplaced(w, lhs, rhs);
      StaysFurther(w, lhs, rhs);
    }
  }

  lemma StaysFurther(w: string, lhs: string, rhs: string)
    requires w != "" && FirstReplaced(w, lhs, rhs) == w[..1] + FirstReplaced(w[1..], lhs, rhs)
    ensures StaysRight(w, lhs, rhs) <==> StaysRight(w[1..], lhs, rhs)
  {
    hide Occurs, FirstReplaced;
    var more := FirstReplaced(w[1..], lhs, rhs);
    if |w| - 1 <= |more| {
      assert (w[..1] + more)[|w|..] == more[|w| - 1..];
    }
  }

  lemma LaterReplaced(w: string, lhs: string, rhs: string)
    requires w != "" && !(lhs <= w) && Occurs(lhs, w)
    ensures FirstReplaced(w, lhs, rhs) == w[..1] + FirstReplaced(w[1..], lhs, rhs)
  {
    var q := NotInFront(w, lhs);
    hide Occurs, At, LeftmostFrom, FirstReplaced;
    ReplacedAt(w, lhs, rhs, q);
    ReplacedAt(w[1..], lhs, rhs, q - 1);
    BeyondFirst(w, rhs, q, |lhs|);
  }

  /** The leftmost place in a word that does not begin with the pattern. */
  lemma NotInFront(w: string, lhs: string) returns (q: nat)
    requires w != "" && !(lhs <= w) && Occurs(lhs, w)
    ensures 0 < q && q + |lhs| <= |w|
    ensures LeftmostFrom(w, lhs, 0) == Some(q) && LeftmostFrom(w[1..], lhs, 0) == Some(q - 1)
  {
    LeftmostOccurs(w, lhs);
    q := LeftmostFrom(w, lhs, 0).value;
    if q == 0 {
      FirstHere(w, lhs);
    }
    FurtherLeftmost(w, lhs, q);
  }

  lemma ReplacedAt(w: string, lhs: string, rhs: string, q: nat)
    requires LeftmostFrom(w, lhs, 0) == Some(q) && q + |lhs| <= |w|
    ensures FirstReplaced(w, lhs, rhs) == w[..q] + rhs + w[q + |lhs|..]
  {
    hide LeftmostFrom, At;
  }

  lemma BeyondFirst(w: string, rhs: string, q: nat, n: nat)
    requires 0 < q && q + n <= |w|
    ensures w[..q] + rhs + w[q + n..] == w[..1] + (w[1..][..q - 1] + rhs + w[1..][q - 1 + n..])
  {
    PartsBeyondFirst(w, q, n);
    Assoc(w[..1], w[1..q], rhs);
    Assoc(w[..1], w[1..q] + rhs, w[q + n..]);
  }

  lemma PartsBeyondFirst(w: string, q: nat, n: nat)
    requires 0 < q && q + n <= |w|
    ensures w[1..][..q - 1] == w[1..q] && w[..q] == w[..1] + w[1..q]
    ensures w[1..][q - 1 + n..] == w[q + n..]
  {
    DropDrop(w, 1, q - 1 + n);
  }

  lemma FurtherLeftmost(w: string, lhs: string, q: nat)
    requires 0 < q && LeftmostFrom(w, lhs, 0) == Some(q) && q + |lhs| <= |w|
    ensures LeftmostFrom(w[1..], lhs, 0) == Some(q - 1)
  {
    AtInTail(w, 1, q - 1, lhs);
    NotEarlier(w, q, lhs);
    LeftmostIs(w[1..], lhs, q - 1);
  }

  lemma NeedsMatched(w: string, lhs: string, rhs: string)
    requires lhs <= w && |rhs| >= |lhs|
    ensures var after := rhs + w[|lhs|..];
            && Needs(w, lhs, rhs) <= 1 + NeedsStuck(after[|w|..], lhs, rhs)
            && NeedsStuck(w, lhs, rhs) <= 1 + NeedsStuck(after, lhs, rhs)
  {
    OccursInFront(lhs, w);
    FirstIs(w, lhs, rhs);
    var after := rhs + w[|lhs|..];
    hide Occurs, FirstReplaced;
    if Occurs(lhs, after[|w|..]) {
      OccurringNeeds(after[|w|..], lhs, rhs);
    }
    if Occurs(lhs, after) {
      OccurringNeeds(after, lhs, rhs);
    }
  }

  /** Each iteration that replaces something takes one off what is needed at most. */
  lemma StepNeeds(at: Place, lhs: string, rhs: string)
    requires lhs != "" && |rhs| >= |lhs| && !LineEnd(at)
    ensures var next := NextPlace(lhs, rhs, at);
            NeedsAt(at, lhs, rhs) <= NeedsAt(next, lhs, rhs) + if lhs <= at.ahead then 1 else 0
  {
    hide Needs, NeedsStuck;
    if at.ahead == "" {
      NothingNeeds(lhs, rhs);
    } else if !(lhs <= at.ahead) {
      NeedsFurther(at.ahead, lhs, rhs);
    } else {
      NeedsMatched(at.ahead, lhs, rhs);
    }
  }

  lemma ShortNeedsNothing(w: string, lhs: string, rhs: string)
    requires |w| < |lhs|
    ensures Needs(w, lhs, rhs) == 0 && NeedsStuck(w, lhs, rhs) == 0
  {
    assert !Occurs(lhs, w);
  }

  lemma {:induction false} DoneNeedsNothing(ws: seq<string>, lhs: string, rhs: string)
    requires |Further(ws)| < |lhs|
    ensures NeedsAll(ws, lhs, rhs) == 0
    decreases |ws|
  {
    hide Needs;
    if ws != [] {
      FurtherStep(ws);
      ShortNeedsNothing(ws[0], lhs, rhs);
      DoneNeedsNothing(ws[1..], lhs, rhs);
    }
  }

  lemma {:induction false} Lengthens(c: Walk, at: Place, lhs: string, rhs: string, n: nat)
    requires PlainPair(lhs, rhs) && |rhs| >= |lhs| && PlainPlace(at) && IsAt(c, at)
    requires WalkDone(lhs, After(lhs, rhs, c, n))
    ensures |After(lhs, rhs, c, n).work| >= |c.work| + (|rhs| - |lhs|) * NeedsAt(at, lhs, rhs)
    decreases n
  {
    hide NextPlace, PlainPair, PlainPlace, IsAt, NeedsAt, WalkStep, Further;
    AheadOf(at);
    if WalkDone(lhs, c) {
      DoneAt(c, at, lhs, rhs);
    } else {
      NotAtLineEnd(c, at, lhs, rhs);
      StepFollows(c, at, lhs, rhs);
      StepNeeds(at, lhs, rhs);
      var next := NextPlace(lhs, rhs, at);
      Lengthens(WalkStep(lhs, rhs, c), next, lhs, rhs, n - 1);
      StepLength(c, at, lhs, rhs);
      var d := |rhs| - |lhs|;
      if lhs <= at.ahead {
        TimesOneMore(d, NeedsAt(at, lhs, rhs), NeedsAt(next, lhs, rhs));
      } else {
        TimesMonotone(d, NeedsAt(at, lhs, rhs), NeedsAt(next, lhs, rhs));
      }
    }
  }

  lemma TimesMonotone(d: nat, a: nat, b: nat)
    requires a <= b
    ensures d * a <= d * b
  {
  }

  lemma TimesOneMore(d: nat, a: nat, b: nat)
    requires a <= b + 1
    ensures d * a <= d * b + d
  {
    TimesMonotone(d, a, b + 1);
  }

  lemma DoneAt(c: Walk, at: Place, lhs: string, rhs: string)
    requires IsAt(c, at) && WalkDone(lhs, c)
    ensures NeedsAt(at, lhs, rhs) == 0
  {
    AheadOf(at);
    hide Needs, NeedsStuck;
    ShortNeedsNothing(at.ahead, lhs, rhs);
    DoneNeedsNothing(at.more, lhs, rhs);
  }

  lemma NotAtLineEnd(c: Walk, at: Place, lhs: string, rhs: string)
    requires PlainPair(lhs, rhs) && IsAt(c, at) && !WalkDone(lhs, c)
    ensures !LineEnd(at) && lhs != ""
  {
    AheadOf(at);
    NotEmpty(lhs);
  }

  lemma StepLength(c: Walk, at: Place, lhs: string, rhs: string)
    requires PlainPair(lhs, rhs) && IsAt(c, at) && !WalkDone(lhs, c)
    ensures |WalkStep(lhs, rhs, c).work| == |c.work| + if lhs <= at.ahead then |rhs| - |lhs| else 0
  {
    MatchAtPlace(c, at, lhs);
    hide IsAt, PlainWord;
  }

  /** How many words have the pattern. */
  ghost function Having(ws: seq<string>, lhs: string): nat {
    if ws == [] then 0 else (if Occurs(lhs, ws[0]) then 1 else 0) + Having(ws[1..], lhs)
  }

  lemma OnceLength(w: string, lhs: string, rhs: string)
    ensures |FirstReplaced(w, lhs, rhs)| == |w| + if Occurs(lhs, w) then |rhs| - |lhs| else 0
  {
    LeftmostOccurs(w, lhs);
  }

  lemma {:induction false} EachOnceLength(ws: seq<string>, lhs: string, rhs: string)
    requires |rhs| >= |lhs|
    ensures |Further(EachOnce(ws, lhs, rhs))| == |Further(ws)| + (|rhs| - |lhs|) * Having(ws, lhs)
    decreases |ws|
  {
    hide FirstReplaced, Occurs;
    if ws != [] {
      OnceLength(ws[0], lhs, rhs);
      EachOnceLength(ws[1..], lhs, rhs);
      FurtherStep(ws);
      FurtherStep(EachOnce(ws, lhs, rhs));
      assert EachOnce(ws, lhs, rhs)[1..] == EachOnce(ws[1..], lhs, rhs);
    }
  }

  lemma {:induction false} NeedsMore(ws: seq<string>, lhs: string, rhs: string)
    ensures NeedsAll(ws, lhs, rhs) >= Having(ws, lhs)
    ensures (exists i :: 0 <= i < |ws| && Needs(ws[i], lhs, rhs) == 2) ==> NeedsAll(ws, lhs, rhs) > Having(ws, lhs)
    decreases |ws|
  {
    hide Occurs, StaysRight;
    if ws != [] {
      NeedsMore(ws[1..], lhs, rhs);
      assert forall i :: 1 <= i < |ws| ==> ws[i] == ws[1..][i - 1];
    }
  }

  /** What is behind the loop stays as it is. */
  lemma {:induction false} StaysBehind(lhs: string, rhs: string, c: Walk, n: nat)
    requires c.si <= |c.work|
    ensures var r := After(lhs, rhs, c, n).work; c.si <= |r| && r[..c.si] == c.work[..c.si]
    decreases n
  {
    hide WordEndAt;
    if n > 0 && !WalkDone(lhs, c) {
      var next := WalkStep(lhs, rhs, c);
      KeptByStep(lhs, rhs, c);
      hide WalkStep;
      if next.si <= |next.work| {
        StaysBehind(lhs, rhs, next, n - 1);
        var r := After(lhs, rhs, next, n - 1).work;
        assert r[..next.si][..c.si] == r[..c.si] && next.work[..next.si][..c.si] == next.work[..c.si];
      }
    }
  }

  lemma KeptByStep(lhs: string, rhs: string, c: Walk)
    requires !WalkDone(lhs, c)
    ensures var next := WalkStep(lhs, rhs, c);
            c.si <= next.si && c.si <= |next.work| && next.work[..c.si] == c.work[..c.si]
  {
    hide WordEndAt;
  }

  /** A replacement of the same length that is another text shows in the result. */
  lemma {:induction false} Differs(c: Walk, at: Place, lhs: string, rhs: string, n: nat)
    requires PlainPair(lhs, rhs) && |rhs| == |lhs| && rhs != lhs && PlainPlace(at) && IsAt(c, at)
    requires Occurs(lhs, at.ahead) && (at.stuck ==> !(lhs <= at.ahead))
    requires WalkDone(lhs, After(lhs, rhs, c, n))
    ensures var r, m := After(lhs, rhs, c, n).work, |at.behind| + |at.ahead|;
            m <= |r| && r[..m] != at.behind + at.ahead
    decreases n
  {
    hide PlainPair, PlainPlace, IsAt, WalkStep, Occurs, Further;
    NotDoneYet(c, at, lhs);
    StepFollows(c, at, lhs, rhs);
    var next, after := NextPlace(lhs, rhs, at), WalkStep(lhs, rhs, c);
    if !(lhs <= at.ahead) {
      PairNotEmpty(lhs, rhs);
      OccursFurther(lhs, at.ahead);
      TakeDrop(at.ahead, 1);
      Assoc(at.behind, at.ahead[..1], at.ahead[1..]);
      Differs(after, next, lhs, rhs, n - 1);
    } else {
      ReplacedEvenly(after, next, at, lhs, rhs);
      StaysBehind(lhs, rhs, after, n - 1);
    }
  }

  lemma PairNotEmpty(lhs: string, rhs: string)
    requires PlainPair(lhs, rhs)
    ensures lhs != ""
  {
  }

  lemma NotDoneYet(c: Walk, at: Place, lhs: string)
    requires IsAt(c, at) && Occurs(lhs, at.ahead) && lhs != ""
    ensures !WalkDone(lhs, c) && at.ahead != ""
  {
    AheadOf(at);
  }

  lemma ReplacedEvenly(c: Walk, next: Place, at: Place, lhs: string, rhs: string)
    requires |rhs| == |lhs| && rhs != lhs && lhs <= at.ahead && !at.stuck && at.ahead != "" && lhs != ""
    requires next == NextPlace(lhs, rhs, at) && IsAt(c, next)
    ensures var m := |at.behind| + |at.ahead|;
            c.si == m <= |c.work| && c.work[..m] != at.behind + at.ahead
  {
    hide Further;
    var after := rhs + at.ahead[|lhs|..];
    assert after[..|at.ahead|] == after;
    assert c.work[..c.si] == at.behind + after;
    assert after[..|lhs|] == rhs && at.ahead[..|lhs|] == lhs;
    assert (at.behind + after)[|at.behind|..] == after && (at.behind + at.ahead)[|at.behind|..] == at.ahead;
  }

  lemma StaysRightEvenly(w: string, lhs: string, rhs: string)
    requires lhs != "" && (|rhs| == |lhs| || !Occurs(lhs, w))
    ensures StaysRight(w, lhs, rhs)
  {
    OnceLength(w, lhs, rhs);
    hide FirstReplaced;
    var r := FirstReplaced(w, lhs, rhs);
    assert r[|w|..] == "";
    assert !Occurs(lhs, "");
  }

  lemma RightWhereNothingOccurs(ws: seq<string>, lhs: string, rhs: string)
    requires lhs != "" && !InSomeWord(lhs, ws)
    ensures RightOnce(ws, lhs, rhs)
  {
    hide StaysRight, Occurs;
    forall i | 0 <= i < |ws| ensures StaysRight(ws[i], lhs, rhs) {
      StaysRightEvenly(ws[i], lhs, rhs);
    }
    if ws != [] && lhs <= ws[0] {
      OccursInFront(lhs, ws[0]);
    }
  }

  lemma WrongNeedsMore(ws: seq<string>, lhs: string, rhs: string)
    requires lhs != "" && ws != [] && !RightOnce(ws, lhs, rhs)
    ensures NeedsAt(StartPlace(ws), lhs, rhs) > Having(ws, lhs)
  {
    hide StaysRight, StartsRight, Occurs;
    var w, rest := ws[0], ws[1..];
    NeedsMore(rest, lhs, rhs);
    if lhs <= w {
      OccursInFront(lhs, w);
    }
    if !RightAtStart(w, lhs, rhs) {
      if !Occurs(lhs, w) {
        StaysRightEvenly(w, lhs, rhs);
      }
    } else {
      var i :| 1 <= i < |ws| && !StaysRight(ws[i], lhs, rhs);
      assert rest[i - 1] == ws[i];
      if !Occurs(lhs, ws[i]) {
        StaysRightEvenly(ws[i], lhs, rhs);
      }
      assert Needs(rest[i - 1], lhs, rhs) == 2;
    }
  }

  lemma WrongIsLonger(ws: seq<string>, lhs: string, rhs: string, n: nat)
    requires PlainPair(lhs, rhs) && |rhs| > |lhs| && PlainWords(ws) && ws != [] && !RightOnce(ws, lhs, rhs)
    requires WalkDone(lhs, After(lhs, rhs, StartWalk(Join(ws)), n))
    ensures After(lhs, rhs, StartWalk(Join(ws)), n).work != Join(EachOnce(ws, lhs, rhs))
  {
    PairNotEmpty(lhs, rhs);
    hide PlainPair, PlainWord, NeedsAt, Having, After, RightOnce, Join, EachOnce;
    StartsThere(ws);
    Lengthens(StartWalk(Join(ws)), StartPlace(ws), lhs, rhs, n);
    WrongNeedsMore(ws, lhs, rhs);
    EachOnceLength(ws, lhs, rhs);
    FurtherIsLonger(ws);
    FurtherIsLonger(EachOnce(ws, lhs, rhs));
    TimesLess(|rhs| - |lhs|, Having(ws, lhs), NeedsAt(StartPlace(ws), lhs, rhs));
    EachOnceSize(ws, lhs, rhs);
  }

  lemma TimesLess(d: nat, a: nat, b: nat)
    requires d > 0 && a < b
    ensures d * a < d * b
  {
  }

  lemma FurtherIsLonger(ws: seq<string>)
    ensures ws != [] ==> |Further(ws)| == |Join(ws)| + 1
  {
    hide Join;
  }

  lemma EachOnceSize(ws: seq<string>, lhs: string, rhs: string)
    ensures |EachOnce(ws, lhs, rhs)| == |ws|
  {
  }

  lemma WrongStart(ws: seq<string>, lhs: string, rhs: string)
    requires PlainPair(lhs, rhs) && |rhs| == |lhs| && ws != [] && !RightOnce(ws, lhs, rhs)
    ensures lhs <= ws[0] && Occurs(lhs, rhs + ws[0][|lhs|..])
  {
    PairNotEmpty(lhs, rhs);
    hide StaysRight, Occurs;
    forall i | 0 <= i < |ws| ensures StaysRight(ws[i], lhs, rhs) {
      StaysRightEvenly(ws[i], lhs, rhs);
    }
  }

  lemma StartDiffers(ws: seq<string>, lhs: string, rhs: string, n: nat)
    requires PlainPair(lhs, rhs) && |rhs| == |lhs| && rhs != lhs && PlainWords(ws) && ws != []
    requires lhs <= ws[0] && Occurs(lhs, rhs + ws[0][|lhs|..])
    requires WalkDone(lhs, After(lhs, rhs, StartWalk(Join(ws)), n))
    ensures var r, after := After(lhs, rhs, StartWalk(Join(ws)), n).work, rhs + ws[0][|lhs|..];
            |after| <= |r| && r[..|after|] != after
  {
    hide PlainPair, PlainWord, IsAt, WalkStep, Occurs, Join, WalkDone;
    var c, at := StartWalk(Join(ws)), StartPlace(ws);
    StartsThere(ws);
    NotDoneAtMatch(c, at, lhs);
    StepFollows(c, at, lhs, rhs);
    var after := rhs + ws[0][|lhs|..];
    assert NextPlace(lhs, rhs, at) == Place("", after, ws[1..], true) by {
      PairNotEmpty(lhs, rhs);
    }
    assert after[..|lhs|] == rhs;
    AfterStart(lhs, rhs, c, n);
    Differs(WalkStep(lhs, rhs, c), NextPlace(lhs, rhs, at), lhs, rhs, n - 1);
    assert "" + after == after;
  }

  lemma AfterStart(lhs: string, rhs: string, c: Walk, n: nat)
    requires !WalkDone(lhs, c) && WalkDone(lhs, After(lhs, rhs, c, n))
    ensures n > 0 && After(lhs, rhs, c, n) == After(lhs, rhs, WalkStep(lhs, rhs, c), n - 1)
  {
    hide WalkStep;
  }

  lemma WrongDiffers(ws: seq<string>, lhs: string, rhs: string, n: nat)
    requires PlainPair(lhs, rhs) && |rhs| == |lhs| && PlainWords(ws) && ws != [] && !RightOnce(ws, lhs, rhs)
    requires WalkDone(lhs, After(lhs, rhs, StartWalk(Join(ws)), n))
    ensures After(lhs, rhs, StartWalk(Join(ws)), n).work != Join(EachOnce(ws, lhs, rhs))
  {
    WrongStart(ws, lhs, rhs);
    PairNotEmpty(lhs, rhs);
    BeginsWith(lhs, ws);
    hide PlainPair, PlainWords, RightOnce, Occurs, EachOnce, Join, After, WordsOutcome;
    if rhs == lhs {
      ByWordsNeverEnds(Join(ws), lhs, rhs);
      OutcomeAfter(Join(ws), lhs, rhs, n);
    } else {
      StartDiffers(ws, lhs, rhs, n);
      FirstIs(ws[0], lhs, rhs);
      EachOnceBegins(ws, lhs, rhs);
    }
  }

  lemma NotDoneAtMatch(c: Walk, at: Place, lhs: string)
    requires IsAt(c, at) && lhs <= at.ahead
    ensures !WalkDone(lhs, c)
  {
    AheadOf(at);
  }

  lemma PairWord(lhs: string, rhs: string)
    requires PlainPair(lhs, rhs)
    ensures PlainWord(lhs)
  {
  }

  lemma BeginsWith(lhs: string, ws: seq<string>)
    requires ws != [] && lhs <= ws[0]
    ensures lhs <= Join(ws)
  {
    FurtherStep(ws);
    hide Join;
  }

  lemma EachOnceBegins(ws: seq<string>, lhs: string, rhs: string)
    requires ws != []
    ensures FirstReplaced(ws[0], lhs, rhs) <= Join(EachOnce(ws, lhs, rhs))
  {
    FurtherStep(EachOnce(ws, lhs, rhs));
    hide Join, FirstReplaced, Further;
  }

  lemma RightIsIntended(ws: seq<string>, lhs: string, rhs: string)
    requires PlainPair(lhs, rhs) && |rhs| >= |lhs| && PlainWords(ws) && RightOnce(ws, lhs, rhs)
    ensures WordsOutcome(Join(ws), lhs, rhs) == Intended(ws, lhs, rhs)
  {
    PairWord(lhs, rhs);
    hide PlainPair, EndsWith, RightOnce, WordsOutcome, PlainWord;
    if ws == [] {
      NothingOccurs(lhs);
      OutcomeAfter("", lhs, rhs, 0);
    } else {
      LineOnce(ws, lhs, rhs);
      OutcomeOfLine(ws, lhs, rhs, Join(EachOnce(ws, lhs, rhs)));
    }
  }

  lemma WrongIsNotIntended(ws: seq<string>, lhs: string, rhs: string)
    requires PlainPair(lhs, rhs) && |rhs| >= |lhs| && PlainWords(ws) && !RightOnce(ws, lhs, rhs)
    ensures WordsOutcome(Join(ws), lhs, rhs) != Intended(ws, lhs, rhs)
  {
    PairNotEmpty(lhs, rhs);
    if !InSomeWord(lhs, ws) {
      RightWhereNothingOccurs(ws, lhs, rhs);
    }
    var text := Join(ws);
    assert ws != [];
    hide PlainPair, RightOnce, InSomeWord, After, Join, EachOnce, PlainWord;
    if WalkEnds(lhs, rhs, StartWalk(text)) {
      var n: nat :| WalkDone(lhs, After(lhs, rhs, StartWalk(text), n));
      OutcomeAfter(text, lhs, rhs, n);
      if |rhs| > |lhs| {
        WrongIsLonger(ws, lhs, rhs, n);
      } else {
        WrongDiffers(ws, lhs, rhs, n);
      }
    }
  }

  /**
   On a line of plain words, with a plain replacement no shorter than its pattern, exactly the first
   occurrence in each word is replaced exactly when the replacement gives the loop nothing to replace
   again: nothing in the first word, if the line begins with the pattern, and nothing in what any other
   word has beyond its old length.
   */
  lemma EachWordOnceExactlyWhen(ws: seq<string>, lhs: string, rhs: string)
    requires PlainPair(lhs, rhs) && |rhs| >= |lhs| && PlainWords(ws)
    ensures WordsOutcome(Join(ws), lhs, rhs) == Intended(ws, lhs, rhs) <==> RightOnce(ws, lhs, rhs)
  {
    hide PlainPair, PlainWords, WordsOutcome, Intended, RightOnce;
    if RightOnce(ws, lhs, rhs) {
      RightIsIntended(ws, lhs, rhs);
    } else {
      WrongIsNotIntended(ws, lhs, rhs);
    }
  }

  /** The outcome on a line whose first word does not have the pattern, from the front of the second word. */
  lemma FromSecondWord(lhs: string, rhs: string, b: string, ws: seq<string>, result: string)
    requires PlainPair(lhs, rhs) && PlainWord(b) && PlainWords(ws) && ws != [] && !Occurs(lhs, b)
    requires Occurs(lhs, ws[0]) && Gives(lhs, rhs, Place(b + " ", ws[0], ws[1..], false), Some(result))
    ensures WordsOutcome(Join([b] + ws), lhs, rhs) == Replaced(result)
  {
    PairWord(lhs, rhs);
    NotEmpty(lhs);
    var line := [b] + ws;
    assert line[0] == b && line[1] == ws[0] && line[1..] == ws;
    assert PlainWords(line) && InSomeWord(lhs, line);
    hide Gives, PlainWord, PlainChar, Occurs, Further, WordsOutcome, Join, InSomeWord, EndsWith;
    StartsThere(line);
    Forward(lhs, rhs, Place(b, "", ws, false), Some(result));
    assert "" + b == b;
    PassOver(lhs, rhs, StartPlace(line), Some(result));
    assert EndsWith(lhs, rhs, StartWalk(Join(line)), Some(result)) by {
      GivesFrom(lhs, rhs, StartWalk(Join(line)), StartPlace(line), Some(result));
    }
    OutcomeOfLine(line, lhs, rhs, result);
  }

  lemma GivesFrom(lhs: string, rhs: string, c: Walk, at: Place, result: Option<string>)
    requires Gives(lhs, rhs, at, result) && IsAt(c, at)
    ensures EndsWith(lhs, rhs, c, result)
  {
    hide EndsWith, IsAt;
  }

  /** The last characters of a line, without the pattern. */
  lemma PassToLineEnd(lhs: string, rhs: string, at: Place)
    requires PlainPair(lhs, rhs) && PlainPlace(at) && at.more == [] && !Occurs(lhs, at.ahead)
    ensures Gives(lhs, rhs, at, Some(at.behind + at.ahead))
  {
    PairNotEmpty(lhs, rhs);
    hide Gives, PlainWord, PlainChar, Occurs;
    AtLineEnd(lhs, rhs, Place(at.behind + at.ahead, "", [], false), Some(at.behind + at.ahead));
    PassOver(lhs, rhs, at, Some(at.behind + at.ahead));
  }

  /** In a second word of two patterns both are replaced when the replacement is as long as the two. */
  lemma LaterWordTwice(b: string, lhs: string, rhs: string)
    requires PlainPair(lhs, rhs) && PlainWord(b) && |rhs| == 2 * |lhs| && !Occurs(lhs, b) && !Occurs(lhs, rhs)
    ensures WordsOutcome(Join([b, lhs + lhs]), lhs, rhs) == Replaced(Join([b, rhs + rhs]))
  {
    PairWord(lhs, rhs);
    TwoPatterns(b + " ", lhs, rhs);
    JoinTwo(b, lhs + lhs);
    JoinTwo(b, rhs + rhs);
    PlainTwice(lhs);
    assert [lhs + lhs][1..] == [] && [b] + [lhs + lhs] == [b, lhs + lhs];
    OccursInFront(lhs, lhs + lhs);
    hide Gives, Occurs, WordsOutcome, Join, PlainWord;
    Assoc(b + " ", rhs, rhs);
    FromSecondWord(lhs, rhs, b, [lhs + lhs], b + " " + (rhs + rhs));
  }

  lemma PlainTwice(w: string)
    requires PlainWord(w)
    ensures PlainWord(w + w)
  {
  }

  lemma JoinTwo(a: string, b: string)
    ensures Join([a, b]) == a + " " + b
  {
    assert [a, b][1..] == [b] && [b][1..] == [];
    FurtherStep([a, b]);
    FurtherStep([b]);
    assert " " + b + "" == " " + b;
    Assoc(a, " ", b);
  }

  lemma TwoPatterns(front: string, lhs: string, rhs: string)
    requires PlainPair(lhs, rhs) && |rhs| == 2 * |lhs| && !Occurs(lhs, rhs)
    ensures Gives(lhs, rhs, Place(front, lhs + lhs, [], false), Some(front + rhs + rhs))
  {
    PairWord(lhs, rhs);
    NotEmpty(lhs);
    FirstIsPlain(lhs);
    PlainParts(lhs, lhs, 0);
    var at := Place(front, lhs + lhs, [], false);
    var second, third := Place(front + rhs, lhs, [], true), Place(front + rhs, rhs, [], true);
    assert (lhs + lhs)[|lhs|..] == lhs && (rhs + lhs)[..|lhs + lhs|] == rhs && (rhs + lhs)[|lhs + lhs|..] == lhs;
    assert lhs[|lhs|..] == "" && rhs + "" == rhs;
    assert NextPlace(lhs, rhs, at) == second && NextPlace(lhs, rhs, second) == third;
    var result := Some(front + rhs + rhs);
    hide Gives, PlainWord, PlainChar, Occurs, NextPlace;
    PassToLineEnd(lhs, rhs, third);
    Forward(lhs, rhs, second, result);
    Forward(lhs, rhs, at, result);
  }

  lemma LaterWordExample()
    ensures WordsOutcome("b aa", "a", "xy") == Replaced("b xyxy")
  {
    hide WordsOutcome, Join;
    JoinTwo("b", "aa");
    JoinTwo("b", "xyxy");
    assert "b" + " " + "aa" == "b aa" && "b" + " " + "xyxy" == "b xyxy" && "a" + "a" == "aa" && "xy" + "xy" == "xyxy";
    NotAmong("a", "b");
    NotAmong("a", "xy");
    LaterWordTwice("b", "a", "xy");
  }

  lemma NotAmong(lhs: string, s: string)
    requires lhs != "" && lhs[0] !in s
    ensures !Occurs(lhs, s)
  {
    forall i: nat | i <= |s| ensures !At(s, i, lhs) {
      if At(s, i, lhs) {
        MatchHasFirst(lhs, s, i);
      }
    }
  }

  lemma MatchHasFirst(lhs: string, s: string, i: nat)
    requires lhs != "" && At(s, i, lhs)
    ensures lhs[0] in s
  {
    assert s[i] == s[i..i + |lhs|][0];
  }
}
