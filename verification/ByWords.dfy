/**
 The `:Gs/lhs/rhs/` modifier of history expansion (src/history_expand.rs): the substitution loop by
 words. After a replacement it goes on at the end of the word as it was before, and the first word has
 no end while the loop is at its start; so it may replace in one word twice, and need not end.
 */
module ByWords {
  import opened HistoryTokenizer
  import opened Sequences
  import opened Substitution
  import opened Wrappers

  /** The loop: the text, where it is, the end of the word it is in, and whether it replaced anything. */
  datatype Walk = Walk(work: string, si: nat, we: nat, found: bool)

  function StartWalk(text: string): Walk { Walk(text, 0, 0, false) }

  predicate WalkDone(lhs: string, c: Walk) { c.si + |lhs| > |c.work| }

  /** The end of the word at or behind `i`. */
  function WordEndFrom(work: string, i: nat): (end: nat)
    requires i <= |work|
    ensures i <= end <= |work|
    ensures i < |work| ==> i < end
  {
    var rest := SkipFields(work[i..]);
    if rest != "" then
      WordAdvances(rest);
      |work| - |rest| + WordLength(rest)
    else |work|
  }

  /** The word end the loop works with at this place: a new one when it has passed the last. */
  function WordEndAt(c: Walk): (end: nat)
    requires c.si <= |c.work|
    ensures c.si <= end
  {
    if c.si > c.we then WordEndFrom(c.work, c.si) else c.we
  }

  function WalkStep(lhs: string, rhs: string, c: Walk): Walk
    requires !WalkDone(lhs, c)
  {
    var we := WordEndAt(c);
    if At(c.work, c.si, lhs) then Walk(c.work[..c.si] + rhs + c.work[c.si + |lhs|..], we, we, true)
    else Walk(c.work, c.si + 1, we, c.found)
  }

  function After(lhs: string, rhs: string, c: Walk, n: nat): Walk
    decreases n
  {
    if n == 0 || WalkDone(lhs, c) then c else After(lhs, rhs, WalkStep(lhs, rhs, c), n - 1)
  }

  /** The loop ends. */
  ghost predicate WalkEnds(lhs: string, rhs: string, c: Walk) {
    exists n: nat :: WalkDone(lhs, After(lhs, rhs, c, n))
  }

  function ResultOf(c: Walk): Substituted { if c.found then Replaced(c.work) else NotFound }

  /** What substitution by words makes of a text. */
  ghost function WordsOutcome(text: string, lhs: string, rhs: string): Substituted {
    if WalkEnds(lhs, rhs, StartWalk(text)) then
      var n: nat :| WalkDone(lhs, After(lhs, rhs, StartWalk(text), n));
      ResultOf(After(lhs, rhs, StartWalk(text), n))
    else Forever
  }

  lemma {:induction false} DoneIsDone(lhs: string, rhs: string, c: Walk, m: nat, n: nat)
    requires WalkDone(lhs, After(lhs, rhs, c, m)) && WalkDone(lhs, After(lhs, rhs, c, n))
    ensures After(lhs, rhs, c, m) == After(lhs, rhs, c, n)
    decreases m
  {
    hide WalkStep;
    if !WalkDone(lhs, c) {
      DoneIsDone(lhs, rhs, WalkStep(lhs, rhs, c), m - 1, n - 1);
    }
  }

  /** Any number of iterations after which the loop has ended gives its outcome. */
  lemma OutcomeAfter(text: string, lhs: string, rhs: string, n: nat)
    requires WalkDone(lhs, After(lhs, rhs, StartWalk(text), n))
    ensures WordsOutcome(text, lhs, rhs) == ResultOf(After(lhs, rhs, StartWalk(text), n))
  {
    hide After;
    var m: nat :| WalkDone(lhs, After(lhs, rhs, StartWalk(text), m))
                  && WordsOutcome(text, lhs, rhs) == ResultOf(After(lhs, rhs, StartWalk(text), m));
    DoneIsDone(lhs, rhs, StartWalk(text), m, n);
  }

  // ------------------------------------------------------------------ does it end?

  /** Behind the place of the loop stand an end of the replacement and `k` more characters. */
  predicate EndOfReplacement(rhs: string, c: Walk, k: nat) {
    && k + c.si <= |c.work|
    && var inserted := |c.work| - k - c.si;
       inserted <= |rhs| && c.work[c.si..c.si + inserted] == rhs[|rhs| - inserted..]
  }

  /** A match within the inserted text is an occurrence of the pattern in the replacement. */
  lemma MatchWithin(lhs: string, rhs: string, c: Walk, k: nat)
    requires EndOfReplacement(rhs, c, k) && At(c.work, c.si, lhs) && c.si + |lhs| <= |c.work| - k
    ensures Occurs(lhs, rhs)
  {
    var inserted := |c.work| - k - c.si;
    var i := |rhs| - inserted;
    Reslice(rhs, i, |lhs|);
    SliceOfSlice(c.work, c.si, inserted, |lhs|);
    assert At(rhs, i, lhs);
  }

  lemma StepOver(lhs: string, rhs: string, c: Walk, k: nat)
    requires lhs != "" && !WalkDone(lhs, c) && EndOfReplacement(rhs, c, k) && !At(c.work, c.si, lhs)
    ensures var next := WalkStep(lhs, rhs, c);
            && next.work == c.work && next.si == c.si + 1
            && EndOfReplacement(rhs, next, if k < |c.work| - c.si then k else k - 1)
  {
    var inserted := |c.work| - k - c.si;
    if inserted > 0 {
      assert c.work[c.si..c.si + inserted][1..] == c.work[c.si + 1..c.si + inserted];
      assert rhs[|rhs| - inserted..][1..] == rhs[|rhs| - inserted + 1..];
    }
  }

  lemma StepMatched(lhs: string, rhs: string, c: Walk, k: nat)
    requires lhs != "" && !WalkDone(lhs, c) && !Occurs(lhs, rhs) && EndOfReplacement(rhs, c, k) && At(c.work, c.si, lhs)
    ensures var next := WalkStep(lhs, rhs, c);
            next.si <= |next.work| ==> exists k' :: 0 <= k' < k && EndOfReplacement(rhs, next, k')
  {
    if c.si + |lhs| <= |c.work| - k {
      MatchWithin(lhs, rhs, c, k);
    }
    var next := WalkStep(lhs, rhs, c);
    var left := |c.work| - c.si - |lhs|;
    var end := c.si + |rhs|;
    if next.si <= end {
      var inserted := end - next.si;
      assert next.work == c.work[..c.si] + (rhs + c.work[c.si + |lhs|..]);
      assert next.work[next.si..next.si + inserted] == rhs[|rhs| - inserted..];
      assert EndOfReplacement(rhs, next, left);
    } else if next.si <= |next.work| {
      assert next.work[next.si..next.si + 0] == rhs[|rhs| - 0..];
      assert EndOfReplacement(rhs, next, |next.work| - next.si);
    }
  }

  lemma {:induction false} WalkEndsFrom(lhs: string, rhs: string, c: Walk, k: nat)
    requires lhs != "" && !Occurs(lhs, rhs) && EndOfReplacement(rhs, c, k)
    ensures WalkEnds(lhs, rhs, c)
    decreases k, |c.work| - c.si
  {
    hide At, EndOfReplacement, Occurs, WalkStep;
    if WalkDone(lhs, c) {
      assert WalkDone(lhs, After(lhs, rhs, c, 0));
    } else {
      var next := WalkStep(lhs, rhs, c);
      if !At(c.work, c.si, lhs) {
        StepOver(lhs, rhs, c, k);
        WalkEndsFrom(lhs, rhs, next, if k < |c.work| - c.si then k else k - 1);
      } else {
        StepMatched(lhs, rhs, c, k);
        if next.si <= |next.work| {
          var k' :| 0 <= k' < k && EndOfReplacement(rhs, next, k');
          WalkEndsFrom(lhs, rhs, next, k');
        } else {
          assert WalkDone(lhs, After(lhs, rhs, next, 0));
        }
      }
      var n: nat :| WalkDone(lhs, After(lhs, rhs, next, n));
      assert After(lhs, rhs, c, n + 1) == After(lhs, rhs, next, n);
    }
  }

  /** Substitution by words ends on every text when the pattern does not occur in its replacement. */
  lemma ByWordsEnds(text: string, lhs: string, rhs: string)
    requires lhs != "" && !Occurs(lhs, rhs)
    ensures WalkEnds(lhs, rhs, StartWalk(text))
  {
    NothingInserted(rhs, text);
    WalkEndsFrom(lhs, rhs, StartWalk(text), |text|);
  }

  lemma {:induction false} StuckAtWordEnd(lhs: string, rhs: string, c: Walk, n: nat)
    requires lhs != "" && lhs <= rhs && c.si <= c.we && At(c.work, c.si, lhs) && c.si == c.we
    ensures !WalkDone(lhs, After(lhs, rhs, c, n))
    decreases n
  {
    if n > 0 {
      var next := WalkStep(lhs, rhs, c);
      assert next.work == c.work[..c.si] + (rhs + c.work[c.si + |lhs|..]);
      assert next.work[c.si..c.si + |lhs|] == rhs[..|lhs|] == lhs;
      StuckAtWordEnd(lhs, rhs, next, n - 1);
    }
  }

  /** It never ends on a text that begins with the pattern when the replacement does so, too. */
  lemma ByWordsNeverEnds(text: string, lhs: string, rhs: string)
    requires lhs != "" && lhs <= rhs && lhs <= text
    ensures WordsOutcome(text, lhs, rhs) == Forever
  {
    assert At(text, 0, lhs);
    forall n: nat ensures !WalkDone(lhs, After(lhs, rhs, StartWalk(text), n)) {
      StuckAtWordEnd(lhs, rhs, StartWalk(text), n);
    }
  }

  // ------------------------------------------------------------------- what it finds

  lemma {:induction false} FoundStays(lhs: string, rhs: string, c: Walk, n: nat)
    requires c.found
    ensures After(lhs, rhs, c, n).found
    decreases n
  {
    if n > 0 && !WalkDone(lhs, c) {
      FoundStays(lhs, rhs, WalkStep(lhs, rhs, c), n - 1);
    }
  }

  lemma {:induction false} FindsWhatOccurs(lhs: string, rhs: string, c: Walk, n: nat)
    requires !c.found && (forall p: nat :: p < c.si ==> !At(c.work, p, lhs))
    requires WalkDone(lhs, After(lhs, rhs, c, n))
    ensures After(lhs, rhs, c, n).found <==> Occurs(lhs, c.work)
    decreases n
  {
    hide WordEndAt;
    if WalkDone(lhs, c) {
      assert !Occurs(lhs, c.work);
    } else {
      var next := WalkStep(lhs, rhs, c);
      if At(c.work, c.si, lhs) {
        FoundStays(lhs, rhs, next, n - 1);
        assert Occurs(lhs, c.work);
      } else {
        FindsWhatOccurs(lhs, rhs, next, n - 1);
      }
    }
  }

  /** A substitution by words that ends fails exactly when the pattern occurs nowhere. */
  lemma ByWordsFailsExactlyWhen(text: string, lhs: string, rhs: string)
    requires WalkEnds(lhs, rhs, StartWalk(text))
    ensures WordsOutcome(text, lhs, rhs) == NotFound <==> !Occurs(lhs, text)
  {
    hide After, Occurs;
    var n: nat :| WalkDone(lhs, After(lhs, rhs, StartWalk(text), n));
    OutcomeAfter(text, lhs, rhs, n);
    FindsWhatOccurs(lhs, rhs, StartWalk(text), n);
  }

  /** A match at the start of the text is replaced, and another one in the same word after it. */
  lemma FirstWordTwice(x: char, y: char)
    requires x != y
    ensures WordsOutcome([x, x], [x], [y]) == Replaced([y, y])
  {
    var lhs, rhs := [x], [y];
    var c0 := StartWalk([x, x]);
    assert [x, x][0..1] == lhs && [x, x][..0] + rhs + [x, x][1..] == [y, x];
    var c1 := Walk([y, x], 0, 0, true);
    assert WalkStep(lhs, rhs, c0) == c1;
    assert [y, x][0..1] == [y] && !At([y, x], 0, lhs);
    var c2 := Walk([y, x], 1, 0, true);
    assert WalkStep(lhs, rhs, c1) == c2;
    assert [y, x][1..2] == lhs && [y, x][..1] + rhs + [y, x][2..] == [y, y];
    var c3 := WalkStep(lhs, rhs, c2);
    assert c3.work == [y, y] && c3.si == 2 && c3.found;
    assert After(lhs, rhs, c2, 1) == After(lhs, rhs, c3, 0) == c3;
    assert After(lhs, rhs, c1, 2) == After(lhs, rhs, c2, 1);
    assert After(lhs, rhs, c0, 3) == After(lhs, rhs, c1, 2);
    OutcomeAfter([x, x], lhs, rhs, 3);
  }

  // ----------------------------------------------------------------------- the program

  lemma SkipIsThere(work: string, i: nat, skip: nat)
    requires i <= skip <= |work| && (forall k :: i <= k < skip ==> FieldDelim(work[k]))
    requires skip < |work| ==> !FieldDelim(work[skip])
    ensures SkipFields(work[i..]) == work[skip..]
    decreases skip - i
  {
    if i < skip {
      assert work[i..][1..] == work[i + 1..];
      SkipIsThere(work, i + 1, skip);
    }
  }

  method NextWordEnd(work: string, i: nat) returns (end: nat)
    requires i <= |work|
    ensures end == WordEndFrom(work, i)
  {
    hide WordLength;
    var skip := i;
    while skip < |work| && FieldDelim(work[skip])
      invariant i <= skip <= |work|
      invariant forall k :: i <= k < skip ==> FieldDelim(work[k])
    {
      skip := skip + 1;
    }
    SkipIsThere(work, i, skip);
    end := HistoryTokenizeWord(work, skip);
  }

  /** The substitution loop with `G`, for at most `patience` iterations. */
  method SubstituteByWords(text: string, lhs: string, rhs: string, patience: nat) returns (r: Option<Substituted>)
    requires lhs != ""
    ensures r.None? <==> !WalkDone(lhs, After(lhs, rhs, StartWalk(text), patience))
    ensures r.Some? ==> r.value == WordsOutcome(text, lhs, rhs)
  {
    hide After, WordsOutcome, WordEndFrom;
    var work, failed := text, true;
    var si: nat, we: nat, n: nat := 0, 0, 0;
    while si + |lhs| <= |work| && n < patience
      invariant n <= patience
      invariant After(lhs, rhs, StartWalk(text), patience) == After(lhs, rhs, Walk(work, si, we, !failed), patience - n)
      decreases patience - n
    {
      AfterStep(lhs, rhs, Walk(work, si, we, !failed), patience - n);
      if si > we {
        we := NextWordEnd(work, si);
      }
      if work[si..si + |lhs|] == lhs {
        work := work[..si] + rhs + work[si + |lhs|..];
        failed := false;
        si := we;
      } else {
        si := si + 1;
      }
      n := n + 1;
    }
    AfterEnd(lhs, rhs, Walk(work, si, we, !failed), patience - n);
    if si + |lhs| <= |work| {
      return None;
    }
    OutcomeAfter(text, lhs, rhs, patience);
    return Some(if failed then NotFound else Replaced(work));
  }

  /** The same loop where the pattern does not occur in its replacement, to its end. */
  method SubstituteEachWord(text: string, lhs: string, rhs: string) returns (r: Substituted)
    requires lhs != "" && !Occurs(lhs, rhs)
    ensures r == WordsOutcome(text, lhs, rhs)
  {
    hide After, WordsOutcome, WordEndFrom, Occurs, EndOfReplacement;
    var work, failed := text, true;
    var si: nat, we: nat := 0, 0;
    ghost var n: nat, k: nat := 0, |text|;
    NothingInserted(rhs, text);
    AfterEnd(lhs, rhs, StartWalk(text), 0);
    while si + |lhs| <= |work|
      invariant After(lhs, rhs, StartWalk(text), n) == Walk(work, si, we, !failed)
      invariant si <= |work| ==> EndOfReplacement(rhs, Walk(work, si, we, !failed), k)
      decreases k, |work| - si
    {
      ghost var c := Walk(work, si, we, !failed);
      OneMore(lhs, rhs, StartWalk(text), n);
      if si > we {
        we := NextWordEnd(work, si);
      }
      if work[si..si + |lhs|] == lhs {
        StepMatched(lhs, rhs, c, k);
        work := work[..si] + rhs + work[si + |lhs|..];
        failed := false;
        si := we;
        if si <= |work| {
          ghost var k' :| 0 <= k' < k && EndOfReplacement(rhs, Walk(work, si, we, !failed), k');
          k := k';
        }
      } else {
        StepOver(lhs, rhs, c, k);
        k := if k < |work| - si then k else k - 1;
        si := si + 1;
      }
      n := n + 1;
    }
    OutcomeAfter(text, lhs, rhs, n);
    return if failed then NotFound else Replaced(work);
  }

  lemma NothingInserted(rhs: string, text: string)
    ensures EndOfReplacement(rhs, StartWalk(text), |text|)
  {
  }

  lemma {:induction false} OneMore(lhs: string, rhs: string, c: Walk, n: nat)
    requires !WalkDone(lhs, After(lhs, rhs, c, n))
    ensures After(lhs, rhs, c, n + 1) == WalkStep(lhs, rhs, After(lhs, rhs, c, n))
    decreases n
  {
    hide WalkStep;
    if n > 0 {
      OneMore(lhs, rhs, WalkStep(lhs, rhs, c), n - 1);
    } else {
      assert After(lhs, rhs, c, 1) == After(lhs, rhs, WalkStep(lhs, rhs, c), 0);
    }
  }

  lemma AfterStep(lhs: string, rhs: string, c: Walk, n: nat)
    requires n > 0 && !WalkDone(lhs, c)
    ensures After(lhs, rhs, c, n) == After(lhs, rhs, WalkStep(lhs, rhs, c), n - 1)
  {
    hide WalkStep;
  }

  lemma AfterEnd(lhs: string, rhs: string, c: Walk, n: nat)
    requires n == 0 || WalkDone(lhs, c)
    ensures After(lhs, rhs, c, n) == c
  {
  }
}
