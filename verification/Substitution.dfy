/**
 The `:s/lhs/rhs/` modifier of history expansion (src/history_expand.rs): the loop that
 rewrites the event text in place. After a global replacement the loop goes on at the last
 character of the text it inserted, not after it, so it is not ordinary replacement for all
 patterns; the lemmas say for which it is, and when it ends at all.
 */
module Substitution {

  import opened Sequences
  import opened Wrappers

  /** What a substitution comes to: a new text, no match, or a loop without end. */
  datatype Substituted = Replaced(text: string) | NotFound | Forever

  /** `lhs` occurs at position `i`. */
  predicate At(work: string, i: nat, lhs: string) { i + |lhs| <= |work| && work[i..i + |lhs|] == lhs }

  predicate Occurs(lhs: string, text: string) { exists i: nat :: i <= |text| && At(text, i, lhs) }

  /** Ordinary global replacement: leftmost matches, never overlapping. */
  function ReplaceAll(lhs: string, rhs: string, s: string): string
    requires lhs != ""
    decreases |s|
  {
    if |s| < |lhs| then s
    else if lhs <= s then rhs + ReplaceAll(lhs, rhs, s[|lhs|..])
    else [s[0]] + ReplaceAll(lhs, rhs, s[1..])
  }

  lemma AtInTail(s: string, k: nat, i: nat, lhs: string)
    requires k + i <= |s|
    ensures At(s, k + i, lhs) <==> At(s[k..], i, lhs)
  {
    if k + i + |lhs| <= |s| {
      assert s[k..][i..i + |lhs|] == s[k + i..k + i + |lhs|];
    }
  }

  /** The leftmost place of the pattern from `i` on. */
  function LeftmostFrom(text: string, lhs: string, i: nat): (r: Option<nat>)
    ensures r.Some? ==> i <= r.value && At(text, r.value, lhs)
    ensures r.Some? ==> forall p: nat :: i <= p < r.value ==> !At(text, p, lhs)
    ensures r.None? ==> forall p: nat :: i <= p ==> !At(text, p, lhs)
    decreases |text| - i
  {
    if i + |lhs| > |text| then None
    else if At(text, i, lhs) then Some(i)
    else LeftmostFrom(text, lhs, i + 1)
  }

  /** The leftmost occurrence replaced, if there is one. */
  function FirstReplaced(text: string, lhs: string, rhs: string): string {
    match LeftmostFrom(text, lhs, 0)
    case None => text
    case Some(q) => text[..q] + rhs + text[q + |lhs|..]
  }

  lemma LeftmostIs(text: string, lhs: string, i: nat)
    requires At(text, i, lhs) && forall p: nat :: p < i ==> !At(text, p, lhs)
    ensures LeftmostFrom(text, lhs, 0) == Some(i)
  {
    var r := LeftmostFrom(text, lhs, 0);
    assert r.None? ==> !At(text, i, lhs);
  }

  lemma FirstReplacedIs(text: string, lhs: string, rhs: string, i: nat)
    requires At(text, i, lhs) && forall p: nat :: p < i ==> !At(text, p, lhs)
    ensures Occurs(lhs, text) && FirstReplaced(text, lhs, rhs) == text[..i] + rhs + text[i + |lhs|..]
  {
    LeftmostIs(text, lhs, i);
    LeftmostOccurs(text, lhs);
  }

  lemma LeftmostOccurs(text: string, lhs: string)
    ensures LeftmostFrom(text, lhs, 0).Some? <==> Occurs(lhs, text)
  {
    var r := LeftmostFrom(text, lhs, 0);
    assert r.Some? ==> At(text, r.value, lhs);
  }

  // ------------------------------------------------------------ the loop, step by step

  datatype Config = Config(work: string, si: nat)

  predicate Done(lhs: string, c: Config) { c.si + |lhs| > |c.work| }

  /** One iteration of the global loop. */
  function Step(lhs: string, rhs: string, c: Config): Config
    requires !Done(lhs, c)
  {
    if At(c.work, c.si, lhs) then
      Config(c.work[..c.si] + rhs + c.work[c.si + |lhs|..],
             if rhs != "" then c.si + |rhs| - 1 else if c.si == 0 then 0 else c.si - 1)
    else
      Config(c.work, c.si + 1)
  }

  function Iterate(lhs: string, rhs: string, c: Config, n: nat): Config
    decreases n
  {
    if n == 0 || Done(lhs, c) then c else Iterate(lhs, rhs, Step(lhs, rhs, c), n - 1)
  }

  /** The global loop started at `c` ends with the text `w`. */
  ghost predicate Yields(lhs: string, rhs: string, c: Config, w: string) {
    exists n: nat :: YieldsIn(lhs, rhs, c, w, n)
  }

  ghost predicate YieldsIn(lhs: string, rhs: string, c: Config, w: string, n: nat) {
    Done(lhs, Iterate(lhs, rhs, c, n)) && Iterate(lhs, rhs, c, n).work == w
  }

  lemma {:induction false} YieldsOneResult(lhs: string, rhs: string, c: Config, v: string, w: string, m: nat, n: nat)
    requires YieldsIn(lhs, rhs, c, v, m) && YieldsIn(lhs, rhs, c, w, n)
    ensures v == w
    decreases m
  {
    if !Done(lhs, c) {
      var next := Step(lhs, rhs, c);
      assert YieldsIn(lhs, rhs, next, v, m - 1) && YieldsIn(lhs, rhs, next, w, n - 1);
      YieldsOneResult(lhs, rhs, next, v, w, m - 1, n - 1);
    }
  }

  /** A loop ends with one text at most. */
  lemma ResultIsUnique(lhs: string, rhs: string, c: Config, v: string, w: string)
    requires Yields(lhs, rhs, c, v) && Yields(lhs, rhs, c, w)
    ensures v == w
  {
    var m: nat :| YieldsIn(lhs, rhs, c, v, m);
    var n: nat :| YieldsIn(lhs, rhs, c, w, n);
    YieldsOneResult(lhs, rhs, c, v, w, m, n);
  }

  lemma YieldsAtEnd(lhs: string, rhs: string, c: Config)
    requires Done(lhs, c)
    ensures Yields(lhs, rhs, c, c.work)
  {
    assert YieldsIn(lhs, rhs, c, c.work, 0);
  }

  lemma YieldsAfterStep(lhs: string, rhs: string, c: Config, w: string)
    requires !Done(lhs, c) && Yields(lhs, rhs, Step(lhs, rhs, c), w)
    ensures Yields(lhs, rhs, c, w)
  {
    var n: nat :| YieldsIn(lhs, rhs, Step(lhs, rhs, c), w, n);
    assert YieldsIn(lhs, rhs, c, w, n + 1);
  }

  /** After a global replacement the loop stands on the last character it inserted; a
      one-character pattern found there is found again for ever. */
  predicate RefindsItself(lhs: string, rhs: string) {
    |lhs| == 1 && rhs != "" && rhs[|rhs| - 1] == lhs[0]
  }

  /** The bound the loop counts down. */
  function Measure(lhs: string, rhs: string, c: Config): (m: nat)
    requires lhs != "" && c.si <= |c.work|
  {
    if rhs == "" then 2 * |c.work| - c.si
    else 2 * (|c.work| - c.si) + (if c.si < |c.work| && c.work[c.si] == lhs[0] then 1 else 0)
  }

  lemma StepDescends(lhs: string, rhs: string, c: Config)
    requires lhs != "" && c.si <= |c.work| && !Done(lhs, c)
    requires RefindsItself(lhs, rhs) ==> !At(c.work, c.si, lhs)
    ensures Step(lhs, rhs, c).si <= |Step(lhs, rhs, c).work|
    ensures Measure(lhs, rhs, Step(lhs, rhs, c)) < Measure(lhs, rhs, c)
  {
    if At(c.work, c.si, lhs) {
      assert c.work[c.si..c.si + |lhs|][0] == lhs[0];
      if rhs != "" {
        assert Step(lhs, rhs, c).work[c.si + |rhs| - 1] == rhs[|rhs| - 1];
      }
    }
  }

  // ------------------------------------------------------------------ does it end?

  lemma {:induction false} EndsFrom(lhs: string, rhs: string, c: Config)
    requires lhs != "" && c.si <= |c.work|
    requires RefindsItself(lhs, rhs) ==> lhs[0] !in c.work
    ensures exists w :: Yields(lhs, rhs, c, w)
    decreases Measure(lhs, rhs, c)
  {
    if Done(lhs, c) {
      YieldsAtEnd(lhs, rhs, c);
    } else {
      if At(c.work, c.si, lhs) {
        assert c.work[c.si..c.si + |lhs|][0] == c.work[c.si];
      }
      StepDescends(lhs, rhs, c);
      var next := Step(lhs, rhs, c);
      EndsFrom(lhs, rhs, next);
      var w :| Yields(lhs, rhs, next, w);
      YieldsAfterStep(lhs, rhs, c, w);
    }
  }

  lemma RefoundAgain(lhs: string, rhs: string, c: Config)
    requires RefindsItself(lhs, rhs) && !Done(lhs, c) && At(c.work, c.si, lhs)
    ensures var next := Step(lhs, rhs, c); next.si <= |next.work| && lhs[0] in next.work[next.si..]
  {
    var next := Step(lhs, rhs, c);
    assert next.work[next.si] == rhs[|rhs| - 1];
    assert next.work[next.si..][0] == lhs[0];
  }

  lemma FoundFurther(lhs: string, rhs: string, c: Config)
    requires |lhs| == 1 && c.si <= |c.work| && lhs[0] in c.work[c.si..] && !At(c.work, c.si, lhs)
    ensures !Done(lhs, c)
    ensures var next := Step(lhs, rhs, c); next.si <= |next.work| && lhs[0] in next.work[next.si..]
  {
    var k :| 0 <= k < |c.work[c.si..]| && c.work[c.si..][k] == lhs[0];
    OneCharacterAt(lhs, c.work, c.si);
    assert c.work[c.si + 1..][k - 1] == lhs[0];
  }

  lemma OneCharacterAt(lhs: string, work: string, i: nat)
    requires |lhs| == 1 && i < |work|
    ensures At(work, i, lhs) <==> work[i] == lhs[0]
  {
    assert work[i..i + 1] == [work[i]];
  }

  lemma {:induction false} NeverDone(lhs: string, rhs: string, c: Config, n: nat)
    requires RefindsItself(lhs, rhs)
    requires c.si <= |c.work| && lhs[0] in c.work[c.si..]
    ensures !Done(lhs, Iterate(lhs, rhs, c, n))
    decreases n
  {
    if n > 0 {
      hide Step, At;
      if At(c.work, c.si, lhs) {
        RefoundAgain(lhs, rhs, c);
      } else {
        FoundFurther(lhs, rhs, c);
      }
      NeverDone(lhs, rhs, Step(lhs, rhs, c), n - 1);
    }
  }

  /** The global loop ends exactly unless it keeps finding its own replacement and the
      pattern occurs at all. */
  lemma GlobalLoopEndsExactlyWhen(lhs: string, rhs: string, text: string)
    requires lhs != ""
    ensures (exists w :: Yields(lhs, rhs, Config(text, 0), w))
       <==> !(RefindsItself(lhs, rhs) && lhs[0] in text)
  {
    var c := Config(text, 0);
    if RefindsItself(lhs, rhs) && lhs[0] in text {
      assert text[0..] == text;
      forall w ensures !Yields(lhs, rhs, c, w) {
        forall n: nat ensures !YieldsIn(lhs, rhs, c, w, n) {
          NeverDone(lhs, rhs, c, n);
        }
      }
    } else {
      EndsFrom(lhs, rhs, c);
    }
  }

  // --------------------------------------------------------- is it ordinary replacement?

  predicate Uniform(lhs: string) { forall j :: 1 <= j < |lhs| ==> lhs[j] == lhs[j - 1] }

  /** Deleting needs a pattern of one repeated character; replacing needs a last character
      that cannot start the pattern, or a replacement that changes nothing. */
  predicate ReplacesOrdinarily(lhs: string, rhs: string)
    requires lhs != ""
  {
    if rhs == "" then Uniform(lhs)
    else rhs[|rhs| - 1] != lhs[0] || (rhs == lhs && |lhs| >= 2)
  }

  lemma ReplaceAllSkips(lhs: string, rhs: string, x: char, rest: string)
    requires lhs != "" && x != lhs[0]
    ensures ReplaceAll(lhs, rhs, [x] + rest) == [x] + ReplaceAll(lhs, rhs, rest)
  {
    var s := [x] + rest;
    assert s[1..] == rest && s[0] != lhs[0];
    if |s| < |lhs| {
      assert ReplaceAll(lhs, rhs, rest) == rest;
    } else {
      assert !(lhs <= s);
    }
  }

  lemma AtIsPrefix(lhs: string, work: string, si: nat)
    requires si + |lhs| <= |work|
    ensures At(work, si, lhs) <==> lhs <= work[si..]
    ensures work[si..][|lhs|..] == work[si + |lhs|..]
  {
    assert work[si..][..|lhs|] == work[si..si + |lhs|];
  }

  /** What ordinary replacement makes of a configuration: the part before `si` is final. */
  function Target(lhs: string, rhs: string, c: Config): string
    requires lhs != "" && c.si <= |c.work|
  {
    c.work[..c.si] + ReplaceAll(lhs, rhs, c.work[c.si..])
  }

  lemma TargetAtEnd(lhs: string, rhs: string, c: Config)
    requires lhs != "" && c.si <= |c.work| && Done(lhs, c)
    ensures Target(lhs, rhs, c) == c.work
  {
    assert c.work[..c.si] + c.work[c.si..] == c.work;
  }

  lemma TargetPastMismatch(lhs: string, rhs: string, c: Config)
    requires lhs != "" && !Done(lhs, c) && !At(c.work, c.si, lhs)
    ensures Target(lhs, rhs, Step(lhs, rhs, c)) == Target(lhs, rhs, c)
  {
    AtIsPrefix(lhs, c.work, c.si);
    var done, ahead := c.work[..c.si], c.work[c.si..];
    assert ahead[1..] == c.work[c.si + 1..] && c.work[..c.si + 1] == done + [ahead[0]];
    assert ReplaceAll(lhs, rhs, ahead) == [ahead[0]] + ReplaceAll(lhs, rhs, ahead[1..]);
    hide ReplaceAll;
    Assoc(done, [ahead[0]], ReplaceAll(lhs, rhs, ahead[1..]));
  }

  lemma TargetAtMatch(lhs: string, rhs: string, c: Config)
    requires lhs != "" && !Done(lhs, c) && At(c.work, c.si, lhs)
    ensures Target(lhs, rhs, c) == c.work[..c.si] + rhs + ReplaceAll(lhs, rhs, c.work[c.si + |lhs|..])
  {
    AtIsPrefix(lhs, c.work, c.si);
    Assoc(c.work[..c.si], rhs, ReplaceAll(lhs, rhs, c.work[c.si + |lhs|..]));
  }

  /** Going on at a character that cannot start the pattern is going on after it. */
  lemma TargetBackOne(lhs: string, rhs: string, pre: string, x: char, rest: string)
    requires lhs != "" && x != lhs[0]
    ensures Target(lhs, rhs, Config(pre + [x] + rest, |pre|)) == pre + [x] + ReplaceAll(lhs, rhs, rest)
  {
    ReplaceAllSkips(lhs, rhs, x, rest);
    hide ReplaceAll;
    var work := pre + [x] + rest;
    assert work[..|pre|] == pre && work[|pre|..] == [x] + rest;
    Assoc(pre, [x], ReplaceAll(lhs, rhs, rest));
  }

  lemma {:induction false} FreshTailRun(lhs: string, rhs: string, c: Config)
    requires lhs != "" && rhs != "" && rhs[|rhs| - 1] != lhs[0] && c.si <= |c.work|
    ensures Yields(lhs, rhs, c, Target(lhs, rhs, c))
    decreases Measure(lhs, rhs, c)
  {
    hide ReplaceAll, Iterate;
    if Done(lhs, c) {
      YieldsAtEnd(lhs, rhs, c);
      TargetAtEnd(lhs, rhs, c);
    } else {
      StepDescends(lhs, rhs, c);
      var next := Step(lhs, rhs, c);
      FreshTailRun(lhs, rhs, next);
      if At(c.work, c.si, lhs) {
        var pre, x, rest := c.work[..c.si] + rhs[..|rhs| - 1], rhs[|rhs| - 1], c.work[c.si + |lhs|..];
        TargetAtMatch(lhs, rhs, c);
        TargetBackOne(lhs, rhs, pre, x, rest);
        assert pre + [x] == c.work[..c.si] + rhs;
        assert next == Config(pre + [x] + rest, |pre|);
      } else {
        TargetPastMismatch(lhs, rhs, c);
      }
      hide Target;
      YieldsAfterStep(lhs, rhs, c, Target(lhs, rhs, c));
    }
  }

  lemma {:induction false} IdentityRun(lhs: string, c: Config)
    requires |lhs| >= 2 && c.si <= |c.work|
    ensures Yields(lhs, lhs, c, c.work)
    decreases Measure(lhs, lhs, c)
  {
    if Done(lhs, c) {
      YieldsAtEnd(lhs, lhs, c);
    } else {
      StepDescends(lhs, lhs, c);
      if At(c.work, c.si, lhs) {
        assert c.work[..c.si] + lhs + c.work[c.si + |lhs|..] == c.work;
      }
      IdentityRun(lhs, Step(lhs, lhs, c));
      YieldsAfterStep(lhs, lhs, c, c.work);
    }
  }

  lemma {:induction false} ReplaceBySelf(lhs: string, s: string)
    requires lhs != ""
    ensures ReplaceAll(lhs, lhs, s) == s
    decreases |s|
  {
    if |s| >= |lhs| {
      if lhs <= s {
        ReplaceBySelf(lhs, s[|lhs|..]);
        assert lhs + s[|lhs|..] == s;
      } else {
        ReplaceBySelf(lhs, s[1..]);
        assert [s[0]] + s[1..] == s;
      }
    }
  }

  lemma {:induction false} UniformIs(lhs: string, j: nat)
    requires Uniform(lhs) && j < |lhs|
    ensures lhs[j] == lhs[0]
  {
    if j > 0 {
      UniformIs(lhs, j - 1);
    }
  }

  /** Deleting a run of one character and stepping back one never uncovers a new match. */
  lemma UniformOneBack(work: string, lhs: string, i: nat)
    requires lhs != "" && Uniform(lhs) && i > 0 && At(work, i, lhs) && work[i - 1] == lhs[0]
    ensures At(work, i - 1, lhs)
  {
    forall j | 0 <= j < |lhs| ensures work[i - 1..i - 1 + |lhs|][j] == lhs[j] {
      UniformIs(lhs, j);
      if j > 0 {
        UniformIs(lhs, j - 1);
        assert work[i..i + |lhs|][j - 1] == lhs[j - 1];
      }
    }
  }

  lemma StepBackIsHarmless(lhs: string, c: Config)
    requires lhs != "" && Uniform(lhs) && c.si > 0 && At(c.work, c.si, lhs)
    requires forall p: nat :: p < c.si ==> !At(c.work, p, lhs)
    ensures c.work[c.si - 1] != lhs[0]
    ensures var next := Step(lhs, "", c); forall p: nat :: p < next.si ==> !At(next.work, p, lhs)
  {
    var si, L := c.si, |lhs|;
    if c.work[si - 1] == lhs[0] {
      UniformOneBack(c.work, lhs, si);
    }
    var next := Step(lhs, "", c);
    forall p: nat | p < next.si ensures !At(next.work, p, lhs) {
      assert !At(c.work, p, lhs);
      if p + L <= si {
        assert next.work[p..p + L] == c.work[p..p + L];
      } else {
        UniformIs(lhs, si - 1 - p);
        assert p + L <= |next.work| ==> next.work[p..p + L][si - 1 - p] == c.work[si - 1];
      }
    }
  }

  lemma {:induction false} DeletionRun(lhs: string, c: Config)
    requires lhs != "" && Uniform(lhs) && c.si <= |c.work|
    requires forall p: nat :: p < c.si ==> !At(c.work, p, lhs)
    ensures Yields(lhs, "", c, Target(lhs, "", c))
    decreases Measure(lhs, "", c)
  {
    hide ReplaceAll, Iterate, Uniform;
    if Done(lhs, c) {
      YieldsAtEnd(lhs, "", c);
      TargetAtEnd(lhs, "", c);
    } else {
      StepDescends(lhs, "", c);
      var next := Step(lhs, "", c);
      if !At(c.work, c.si, lhs) {
        TargetPastMismatch(lhs, "", c);
      } else {
        var rest := c.work[c.si + |lhs|..];
        TargetAtMatch(lhs, "", c);
        if c.si == 0 {
          assert next.work == rest && next.work[0..] == rest && next.work[..0] == c.work[..0] + "";
        } else {
          StepBackIsHarmless(lhs, c);
          var pre, x := c.work[..c.si - 1], c.work[c.si - 1];
          TargetBackOne(lhs, "", pre, x, rest);
          assert pre + [x] == c.work[..c.si] + "";
          assert next == Config(pre + [x] + rest, |pre|);
        }
      }
      DeletionRun(lhs, next);
      hide Target;
      YieldsAfterStep(lhs, "", c, Target(lhs, "", c));
    }
  }

  /** Under the condition the in-place loop is ordinary global replacement on every text. */
  lemma OrdinaryOnEveryText(lhs: string, rhs: string, text: string)
    requires lhs != "" && ReplacesOrdinarily(lhs, rhs)
    ensures Yields(lhs, rhs, Config(text, 0), ReplaceAll(lhs, rhs, text))
  {
    var c := Config(text, 0);
    assert Target(lhs, rhs, c) == ReplaceAll(lhs, rhs, text) by { assert text[0..] == text; }
    if rhs == "" {
      DeletionRun(lhs, c);
    } else if rhs[|rhs| - 1] != lhs[0] {
      FreshTailRun(lhs, rhs, c);
    } else {
      IdentityRun(lhs, c);
      ReplaceBySelf(lhs, text);
    }
  }

  lemma StepOnMatch(lhs: string, rhs: string, a: string, b: string, work: string, next: string)
    requires work == a + lhs + b && next == a + rhs + b
    ensures !Done(lhs, Config(work, |a|)) && At(work, |a|, lhs)
    ensures Step(lhs, rhs, Config(work, |a|))
         == Config(next, if rhs != "" then |a| + |rhs| - 1 else if a == "" then 0 else |a| - 1)
  {
    assert work[|a|..|a| + |lhs|] == lhs && work[..|a|] == a && work[|a| + |lhs|..] == b;
  }

  lemma EmptyEnds(x: string, y: string)
    ensures "" + x + y == x + y && x + y + "" == x + y && x + "" + y == x + y
  {
  }

  lemma ReplaceAllHead(lhs: string, rhs: string, rest: string)
    requires lhs != "" && |rest| < |lhs|
    ensures ReplaceAll(lhs, rhs, lhs + rest) == rhs + rest
  {
    assert (lhs + rest)[|lhs|..] == rest;
  }

  /** Three configurations, each a step from the one before, and the last one done. */
  lemma YieldsAfterTwoSteps(lhs: string, rhs: string, c0: Config, c1: Config, c2: Config)
    requires !Done(lhs, c0) && Step(lhs, rhs, c0) == c1
    requires !Done(lhs, c1) && Step(lhs, rhs, c1) == c2
    requires Done(lhs, c2)
    ensures Yields(lhs, rhs, c0, c2.work)
  {
    hide Step, Yields, Iterate;
    YieldsAtEnd(lhs, rhs, c2);
    YieldsAfterStep(lhs, rhs, c1, c2.work);
    YieldsAfterStep(lhs, rhs, c0, c2.work);
  }

  lemma OverlapSteps(lhs: string, rhs: string)
    requires |lhs| >= 2 && rhs != "" && rhs[|rhs| - 1] == lhs[0]
    ensures var init := rhs[..|rhs| - 1];
            var c0, c1, c2 := Config(lhs + lhs[1..], 0), Config(rhs + lhs[1..], |init|), Config(init + rhs, 2 * |init|);
            && !Done(lhs, c0) && Step(lhs, rhs, c0) == c1
            && !Done(lhs, c1) && Step(lhs, rhs, c1) == c2 && Done(lhs, c2)
  {
    hide Step, At;
    var init, tail := rhs[..|rhs| - 1], lhs[1..];
    EmptyEnds(lhs, tail);
    EmptyEnds(rhs, tail);
    StepOnMatch(lhs, rhs, "", tail, lhs + tail, rhs + tail);
    EmptyEnds(init, lhs);
    EmptyEnds(init, rhs);
    MoveLast(lhs, rhs);
    StepOnMatch(lhs, rhs, init, "", rhs + tail, init + rhs);
  }

  lemma MoveLast(lhs: string, rhs: string)
    requires lhs != "" && rhs != "" && rhs[|rhs| - 1] == lhs[0]
    ensures rhs + lhs[1..] == rhs[..|rhs| - 1] + lhs
  {
  }

  /** A longer pattern whose first character ends the replacement: `lhs + lhs[1..]` is
      replaced twice where ordinary replacement replaces once. */
  lemma ReplacedTwice(lhs: string, rhs: string)
    requires |lhs| >= 2 && rhs != "" && rhs[|rhs| - 1] == lhs[0] && rhs != lhs
    ensures var text := lhs + lhs[1..]; !Yields(lhs, rhs, Config(text, 0), ReplaceAll(lhs, rhs, text))
  {
    hide ReplaceAll, Iterate, Step, Yields;
    var init, tail := rhs[..|rhs| - 1], lhs[1..];
    var c0 := Config(lhs + tail, 0);
    OverlapSteps(lhs, rhs);
    YieldsAfterTwoSteps(lhs, rhs, c0, Config(rhs + tail, |init|), Config(init + rhs, 2 * |init|));
    ReplaceAllHead(lhs, rhs, tail);
    OverlapDiffers(lhs, rhs);
    if Yields(lhs, rhs, c0, rhs + tail) {
      ResultIsUnique(lhs, rhs, c0, init + rhs, rhs + tail);
    }
  }

  lemma OverlapDiffers(lhs: string, rhs: string)
    requires lhs != "" && rhs != "" && rhs[|rhs| - 1] == lhs[0] && rhs != lhs
    ensures rhs[..|rhs| - 1] + rhs != rhs + lhs[1..]
  {
    var R, a, b := |rhs|, rhs[..|rhs| - 1] + rhs, rhs + lhs[1..];
    if R == |lhs| {
      var j :| 0 <= j < R && rhs[j] != lhs[j];
      assert a[R - 1 + j] == rhs[j];
      assert b[R - 1 + j] == if j == 0 then rhs[R - 1] else lhs[j];
    } else {
      assert |a| != |b|;
    }
  }

  /** A pattern of differing characters deleted from `lhs[..1] + lhs + lhs[1..]` closes up
      into a new match, which the step back finds. */
  lemma DeletedTwice(lhs: string)
    requires lhs != "" && !Uniform(lhs)
    ensures var text := lhs[..1] + lhs + lhs[1..]; !Yields(lhs, "", Config(text, 0), ReplaceAll(lhs, "", text))
  {
    hide ReplaceAll, Iterate, Step, Yields;
    var text := lhs[..1] + lhs + lhs[1..];
    var c0 := Config(text, 0);
    ClosingSteps(lhs);
    YieldsAfterTwoSteps(lhs, "", Config(text, 1), Config(lhs, 0), Config("", 0));
    YieldsAfterStep(lhs, "", c0, "");
    KeepsFirst(lhs, text);
    if Yields(lhs, "", c0, ReplaceAll(lhs, "", text)) {
      ResultIsUnique(lhs, "", c0, "", ReplaceAll(lhs, "", text));
    }
  }

  lemma KeepsFirst(lhs: string, text: string)
    requires lhs != "" && |text| >= |lhs| && !(lhs <= text)
    ensures ReplaceAll(lhs, "", text) != ""
  {
  }

  lemma PassesOver(lhs: string, text: string)
    requires |lhs| <= |text| && !At(text, 0, lhs)
    ensures Step(lhs, "", Config(text, 0)) == Config(text, 1)
  {
    hide At;
  }

  lemma ClosingSteps(lhs: string)
    requires lhs != "" && !Uniform(lhs)
    ensures var text := lhs[..1] + lhs + lhs[1..];
            && |text| >= |lhs| && !(lhs <= text)
            && Step(lhs, "", Config(text, 0)) == Config(text, 1)
            && Step(lhs, "", Config(text, 1)) == Config(lhs, 0)
            && Step(lhs, "", Config(lhs, 0)) == Config("", 0)
  {
    hide Step, At;
    var first, tail := lhs[..1], lhs[1..];
    var text := first + lhs + tail;
    NotAtStart(lhs);
    PassesOver(lhs, text);
    EmptyEnds(first, tail);
    StepOnMatch(lhs, "", first, tail, text, lhs);
    EmptyEnds(lhs, "");
    EmptyEnds("", "");
    StepOnMatch(lhs, "", "", "", lhs, "");
  }

  lemma NotAtStart(lhs: string)
    requires lhs != "" && !Uniform(lhs)
    ensures var text := lhs[..1] + lhs + lhs[1..]; !At(text, 0, lhs) && !(lhs <= text)
  {
    var text := lhs[..1] + lhs + lhs[1..];
    var j :| 1 <= j < |lhs| && lhs[j] != lhs[j - 1];
    assert text[j] == lhs[j - 1];
    assert text[0..|lhs|][j] == text[j] && text[..|lhs|][j] == text[j];
  }

  ghost predicate OrdinaryOn(lhs: string, rhs: string, text: string)
    requires lhs != ""
  {
    Yields(lhs, rhs, Config(text, 0), ReplaceAll(lhs, rhs, text))
  }

  /** The in-place global loop is ordinary left-to-right replacement on all texts exactly
      for the patterns and replacements of ReplacesOrdinarily. */
  lemma OrdinaryExactlyWhen(lhs: string, rhs: string)
    requires lhs != ""
    ensures (forall text :: OrdinaryOn(lhs, rhs, text)) <==> ReplacesOrdinarily(lhs, rhs)
  {
    if ReplacesOrdinarily(lhs, rhs) {
      forall text ensures OrdinaryOn(lhs, rhs, text) {
        OrdinaryOnEveryText(lhs, rhs, text);
      }
    } else if rhs == "" {
      DeletedTwice(lhs);
      assert !OrdinaryOn(lhs, rhs, lhs[..1] + lhs + lhs[1..]);
    } else if |lhs| == 1 {
      GlobalLoopEndsExactlyWhen(lhs, rhs, lhs);
      assert !OrdinaryOn(lhs, rhs, lhs);
    } else {
      ReplacedTwice(lhs, rhs);
      assert !OrdinaryOn(lhs, rhs, lhs + lhs[1..]);
    }
  }

  // ----------------------------------------------------------------------- the program

  /** Whatever the loop yields from `d` it yields from `c`. */
  ghost predicate LeadsTo(lhs: string, rhs: string, c: Config, d: Config) {
    forall w :: Yields(lhs, rhs, d, w) ==> Yields(lhs, rhs, c, w)
  }

  lemma YieldsBackwards(lhs: string, rhs: string, c: Config, start: Config)
    requires !Done(lhs, c) && LeadsTo(lhs, rhs, start, c)
    ensures LeadsTo(lhs, rhs, start, Step(lhs, rhs, c))
  {
    forall w | Yields(lhs, rhs, Step(lhs, rhs, c), w) ensures Yields(lhs, rhs, start, w) {
      YieldsAfterStep(lhs, rhs, c, w);
    }
  }

  /** The substitution loop, for `:s` and with `g` or `a`; with `G` it is in module ByWords. */
  method Substitute(text: string, lhs: string, rhs: string, global: bool) returns (work: string, failed: bool)
    requires lhs != ""
    requires global ==> !(RefindsItself(lhs, rhs) && lhs[0] in text)
    ensures failed <==> !Occurs(lhs, text)
    ensures failed ==> work == text
    ensures global ==> Yields(lhs, rhs, Config(text, 0), work)
    ensures !global && !failed ==>
      exists i: nat :: At(text, i, lhs) && (forall p: nat :: p < i ==> !At(text, p, lhs))
                       && work == text[..i] + rhs + text[i + |lhs|..]
  {
    hide Yields, Iterate, Measure;
    work, failed := text, true;
    if |lhs| > |work| {
      YieldsAtEnd(lhs, rhs, Config(text, 0));
      return;
    }
    var si: nat := 0;
    ghost var steps: nat := 0;
    while si + |lhs| <= |work|
      invariant si <= |work|
      invariant failed ==> work == text && forall p: nat :: p < si ==> !At(text, p, lhs)
      invariant !failed ==> global && Occurs(lhs, text)
      invariant global && RefindsItself(lhs, rhs) ==> lhs[0] !in work
      invariant global ==> LeadsTo(lhs, rhs, Config(text, 0), Config(work, si))
      decreases Measure(lhs, rhs, Config(work, si))
    {
      ghost var c := Config(work, si);
      assert At(work, si, lhs) ==> work[si] == work[si..si + |lhs|][0] == lhs[0];
      if global || !At(work, si, lhs) {
        StepDescends(lhs, rhs, c);
      }
      if global {
        YieldsBackwards(lhs, rhs, c, Config(text, 0));
      }
      if work[si..si + |lhs|] == lhs {
        assert failed ==> Occurs(lhs, text);
        work := work[..si] + rhs + work[si + |lhs|..];
        failed := false;
        if global {
          if rhs == "" {
            si := if si == 0 then 0 else si - 1;
          } else {
            si := si + |rhs| - 1;
          }
          continue;
        } else {
          return;
        }
      }
      si := si + 1;
    }
    YieldsAtEnd(lhs, rhs, Config(work, si));
    if failed {
      forall i: nat | i <= |text| ensures !At(text, i, lhs) {}
    }
  }
}
