/**
 Runs of recording and appending (src/history.rs) against the unbounded log of everything
 recorded: what the bounded list still holds, what `!n` and `!-n` mean, and whether every
 recorded line reached the history file.
 */
module HistoryLog {
  import opened Wrappers
  import opened HistoryText
  import opened HistorySpec

  /** A `record` call or a `history -a`. */
  datatype Op = Recording(c: Call) | Appending

  /** The list and the file together with the log, and what got out of step with it: the
      entries erasedups removed, and the lines stifled before they were appended. */
  datatype Run = Run(h: Hist, file: string, log: seq<string>, logStamps: seq<string>,
                     erased: nat, written: nat, lost: nat, lostText: nat)

  const START := Run(EMPTY, "", [], [], 0, 0, 0, 0)

  function Removed(h: Hist, c: Call): (n: nat)
    requires Aligned(h)
    ensures n > 0 <==> c.eraseDups && c.line in h.entries
  {
    if c.eraseDups then |h.entries| - |Without(h.entries, h.stamps, c.line).0| else 0
  }

  predicate Wf(s: Run) {
    && Aligned(s.h) && |s.log| == |s.logStamps|
    && |s.h.entries| <= |s.log| && s.h.session <= |s.log| && s.h.base >= 1
  }

  function Step(s: Run, op: Op, w: bool): (r: Run)
    requires Wf(s)
    ensures Wf(r)
  {
    match op
    case Recording(c) =>
      if !Accepted(s.h, c) then s
      else s.(h := Record(s.h, c), log := s.log + [c.line], logStamps := s.logStamps + [c.stamp],
              erased := s.erased + Removed(s.h, c))
    case Appending =>
      var n, flushed := Unflushed(s.h), |s.log| - s.h.session;
      s.(h := s.h.(session := 0),
         file := s.file + AppendedText(s.h, w),
         written := s.written + n,
         lost := s.lost + (s.h.session - n),
         lostText := s.lostText + |LogText(s, flushed, |s.log| - n, w)|)
  }

  /** The file text of log lines `i..j`. */
  function LogText(s: Run, i: nat, j: nat, w: bool): string
    requires |s.log| == |s.logStamps| && i <= j <= |s.log|
  {
    WrittenText(s.log[i..j], s.logStamps[i..j], w)
  }

  function RunOps(ops: seq<Op>, w: bool): (s: Run)
    ensures Wf(s)
  {
    if ops == [] then START else Step(RunOps(ops[..|ops| - 1], w), ops[|ops| - 1], w)
  }

  // ------------------------------------------------------------------- numbering

  predicate Numbered(s: Run) { s.h.base + |s.h.entries| + s.erased == 1 + |s.log| }

  /** The list is the end of the log, stamps included. */
  predicate IsSuffix(s: Run)
    requires Wf(s)
  {
    && s.h.entries == s.log[|s.log| - |s.h.entries|..]
    && s.h.stamps == s.logStamps[|s.log| - |s.h.entries|..]
  }

  lemma RecordSuffix(s: Run, c: Call)
    requires Wf(s) && IsSuffix(s) && Accepted(s.h, c) && Removed(s.h, c) == 0
    ensures IsSuffix(Step(s, Recording(c), false))
  {
    var n, k := |s.log|, |s.log| - |s.h.entries|;
    var log, stamps := s.log + [c.line], s.logStamps + [c.stamp];
    assert s.h.entries + [c.line] == log[k..] && s.h.stamps + [c.stamp] == stamps[k..];
    var x := Excess(|s.h.entries| + 1, c.limit);
    assert log[k..][x..] == log[k + x..] && stamps[k..][x..] == stamps[k + x..];
  }

  lemma StepIsNumbered(s: Run, op: Op, w: bool)
    requires Wf(s) && Numbered(s) && (s.erased == 0 ==> IsSuffix(s))
    ensures var r := Step(s, op, w); Numbered(r) && (r.erased == 0 ==> IsSuffix(r))
  {
    hide AppendedText, LogText;
    if op.Recording? && Accepted(s.h, op.c) {
      RecordNumbers(s.h, op.c);
      if s.erased == 0 && Removed(s.h, op.c) == 0 {
        RecordSuffix(s, op.c);
      }
    }
    hide Record, Removed, Accepted;
  }

  lemma RecordNumbers(h: Hist, c: Call)
    requires Aligned(h) && Accepted(h, c)
    ensures var r := Record(h, c); r.base + |r.entries| + Removed(h, c) == h.base + |h.entries| + 1
  {
  }

  lemma {:induction false} RunIsNumbered(ops: seq<Op>, w: bool)
    ensures var s := RunOps(ops, w); Numbered(s) && (s.erased == 0 ==> IsSuffix(s))
    decreases |ops|
  {
    hide Step;
    if ops != [] {
      RunIsNumbered(ops[..|ops| - 1], w);
      StepIsNumbered(RunOps(ops[..|ops| - 1], w), ops[|ops| - 1], w);
    }
  }

  /** This call erases: it is accepted, has erasedups, and its line is in the list. */
  predicate Erases(h: Hist, op: Op)
    requires Aligned(h)
  {
    op.Recording? && Accepted(h, op.c) && op.c.eraseDups && op.c.line in h.entries
  }

  /** No call of the run erases anything from the list it finds. */
  predicate NeverErases(ops: seq<Op>, w: bool) {
    forall i :: 0 <= i < |ops| ==> !ErasesAt(ops, i, w)
  }

  predicate ErasesAt(ops: seq<Op>, i: nat, w: bool)
    requires i < |ops|
  {
    Erases(RunOps(ops[..i], w).h, ops[i])
  }

  lemma ErasedByStep(s: Run, op: Op, w: bool)
    requires Wf(s)
    ensures Step(s, op, w).erased >= s.erased
    ensures Step(s, op, w).erased == s.erased <==> !Erases(s.h, op)
  {
    hide Record, Accepted, AppendedText, LogText;
  }

  lemma RunOpsStep(ops: seq<Op>, w: bool)
    requires ops != []
    ensures RunOps(ops, w) == Step(RunOps(ops[..|ops| - 1], w), ops[|ops| - 1], w)
  {
    hide Step;
  }

  /** Whether all calls but the last did not erase, and whether the last did not. */
  lemma NeverErasesStep(ops: seq<Op>, w: bool)
    requires ops != []
    ensures var n := |ops| - 1; NeverErases(ops, w) <==> NeverErases(ops[..n], w) && !ErasesAt(ops, n, w)
  {
    hide RunOps, Erases;
    var n := |ops| - 1;
    forall i | 0 <= i < n ensures ErasesAt(ops[..n], i, w) == ErasesAt(ops, i, w) {
      assert ops[..n][..i] == ops[..i];
    }
  }

  lemma {:induction false} NothingErased(ops: seq<Op>, w: bool)
    ensures RunOps(ops, w).erased == 0 <==> NeverErases(ops, w)
    decreases |ops|
  {
    hide Step, Erases, NeverErases;
    if ops == [] {
      NoCallErases(w);
    } else {
      var n := |ops| - 1;
      NothingErased(ops[..n], w);
      RunOpsStep(ops, w);
      ErasedByStep(RunOps(ops[..n], w), ops[n], w);
      NeverErasesStep(ops, w);
    }
  }

  lemma NoCallErases(w: bool)
    ensures NeverErases([], w)
  {
  }

  /** Over any run, with any sizes at any time: base plus length counts the log exactly when no
      call erased anything, and then the list is the log's end. Without erasedups no call does. */
  lemma ListIsEndOfLog(ops: seq<Op>, w: bool)
    ensures var s := RunOps(ops, w);
            && (s.h.base + |s.h.entries| == 1 + |s.log| <==> NeverErases(ops, w))
            && (NeverErases(ops, w) ==> IsSuffix(s))
    ensures (forall i :: 0 <= i < |ops| && ops[i].Recording? ==> !ops[i].c.eraseDups) ==> NeverErases(ops, w)
  {
    hide RunOps, IsSuffix;
    RunIsNumbered(ops, w);
    NothingErased(ops, w);
  }

  /** `!n` and `!-n` give the log's own line or fail. */
  lemma EventsAreLogLines(ops: seq<Op>, w: bool, n: nat)
    requires NeverErases(ops, w)
    ensures var s := RunOps(ops, w);
            && NumberedEvent(s.h.base, s.h.entries, n, false)
               == (if s.h.base <= n <= |s.log| then Some(s.log[n - 1]) else None)
            && NumberedEvent(s.h.base, s.h.entries, n, true)
               == (if 1 <= n <= |s.h.entries| then Some(s.log[|s.log| - n]) else None)
  {
    hide RunOps, NeverErases;
    NothingErased(ops, w);
    RunIsNumbered(ops, w);
  }

  // --------------------------------------------------------------------- the file

  lemma LogTextSplits(s: Run, i: nat, j: nat, k: nat, w: bool)
    requires |s.log| == |s.logStamps| && i <= j <= k <= |s.log|
    ensures LogText(s, i, k, w) == LogText(s, i, j, w) + LogText(s, j, k, w)
  {
    WrittenTextConcat(s.log[i..j], s.logStamps[i..j], s.log[j..k], s.logStamps[j..k], w);
    assert s.log[i..j] + s.log[j..k] == s.log[i..k];
    assert s.logStamps[i..j] + s.logStamps[j..k] == s.logStamps[i..k];
  }

  lemma {:induction false} TextHasEveryLine(entries: seq<string>, stamps: seq<string>, w: bool)
    requires |entries| == |stamps|
    ensures |WrittenText(entries, stamps, w)| >= |entries|
    decreases |entries|
  {
    if entries != [] {
      TextHasEveryLine(entries[1..], stamps[1..], w);
    }
  }

  /** The file against the log up to the last append: all of it unless lines were lost, and
      always shorter by exactly their text. */
  predicate FileMatches(s: Run, w: bool)
    requires Wf(s)
  {
    var flushed := |s.log| - s.h.session;
    && s.written + s.lost == flushed
    && s.lost <= s.lostText && (s.lost == 0 ==> s.lostText == 0)
    && |s.file| + s.lostText == |LogText(s, 0, flushed, w)|
    && (s.lost == 0 ==> s.file == LogText(s, 0, flushed, w))
  }

  lemma AppendMatches(s: Run, w: bool)
    requires Wf(s) && IsSuffix(s) && FileMatches(s, w)
    ensures FileMatches(Step(s, Appending, w), w)
  {
    hide LogText, IsSuffix, AppendedText;
    var n, total, flushed := Unflushed(s.h), |s.log|, |s.log| - s.h.session;
    LogTextSplits(s, 0, flushed, total, w);
    LogTextSplits(s, flushed, total - n, total, w);
    LogTextLength(s, flushed, total - n, w);
    AppendedIsLogEnd(s, w);
    var r := Step(s, Appending, w);
    SameLogText(r, s, total, w);
  }

  lemma SameLogText(r: Run, s: Run, j: nat, w: bool)
    requires |s.log| == |s.logStamps| && j <= |s.log| && r.log == s.log && r.logStamps == s.logStamps
    ensures LogText(r, 0, j, w) == LogText(s, 0, j, w)
  {
  }

  lemma LogTextLength(s: Run, i: nat, j: nat, w: bool)
    requires |s.log| == |s.logStamps| && i <= j <= |s.log|
    ensures |LogText(s, i, j, w)| >= j - i
    ensures i == j ==> LogText(s, i, j, w) == ""
  {
    TextHasEveryLine(s.log[i..j], s.logStamps[i..j], w);
  }

  lemma AppendedIsLogEnd(s: Run, w: bool)
    requires Wf(s) && IsSuffix(s)
    ensures AppendedText(s.h, w) == LogText(s, |s.log| - Unflushed(s.h), |s.log|, w)
  {
    var n := Unflushed(s.h);
    var start := |s.h.entries| - n;
    assert s.h.entries[start..] == s.log[|s.log| - n..|s.log|];
    assert s.h.stamps[start..] == s.logStamps[|s.log| - n..|s.log|];
  }

  lemma RecordMatches(s: Run, c: Call, w: bool)
    requires Wf(s) && FileMatches(s, w) && Accepted(s.h, c)
    ensures FileMatches(Step(s, Recording(c), w), w)
  {
    var r, flushed := Step(s, Recording(c), w), |s.log| - s.h.session;
    assert r.log[0..flushed] == s.log[0..flushed] && r.logStamps[0..flushed] == s.logStamps[0..flushed];
    hide WrittenText;
  }

  lemma StepMatches(s: Run, op: Op, w: bool)
    requires Wf(s) && IsSuffix(s) && FileMatches(s, w)
    ensures FileMatches(Step(s, op, w), w)
  {
    hide FileMatches, IsSuffix;
    match op
    case Recording(c) =>
      if Accepted(s.h, c) {
        RecordMatches(s, c, w);
      }
    case Appending =>
      AppendMatches(s, w);
  }

  lemma StartMatches(w: bool)
    ensures FileMatches(START, w)
  {
    assert WrittenText([], [], w) == "";
  }

  lemma {:induction false} RunFileMatches(ops: seq<Op>, w: bool)
    requires NeverErases(ops, w)
    ensures FileMatches(RunOps(ops, w), w)
    decreases |ops|
  {
    hide Step, FileMatches, NeverErases, IsSuffix;
    if ops == [] {
      StartMatches(w);
    } else {
      var init := ops[..|ops| - 1];
      NeverErasesStep(ops, w);
      RunFileMatches(init, w);
      NothingErased(init, w);
      RunIsNumbered(init, w);
      RunOpsStep(ops, w);
      StepMatches(RunOps(init, w), ops[|ops| - 1], w);
    }
  }

  /** An append at `i` finds the list still holding every line recorded since the last append. */
  predicate InTime(ops: seq<Op>, i: nat, w: bool)
    requires i < |ops|
  {
    var h := RunOps(ops[..i], w).h;
    ops[i].Appending? ==> h.session <= |h.entries|
  }

  predicate AlwaysInTime(ops: seq<Op>, w: bool) {
    forall i :: 0 <= i < |ops| ==> InTime(ops, i, w)
  }

  lemma LostByStep(s: Run, op: Op, w: bool)
    requires Wf(s)
    ensures Step(s, op, w).lost >= s.lost
    ensures Step(s, op, w).lost == s.lost <==> (op.Appending? ==> s.h.session <= |s.h.entries|)
  {
    hide Record, Accepted, AppendedText, LogText, Removed;
  }

  lemma AlwaysInTimeStep(ops: seq<Op>, w: bool)
    requires ops != []
    ensures var n := |ops| - 1; AlwaysInTime(ops, w) <==> AlwaysInTime(ops[..n], w) && InTime(ops, n, w)
  {
    hide RunOps;
    var n := |ops| - 1;
    forall i | 0 <= i < n ensures InTime(ops[..n], i, w) == InTime(ops, i, w) {
      assert ops[..n][..i] == ops[..i];
    }
  }

  lemma {:induction false} NothingLost(ops: seq<Op>, w: bool)
    ensures RunOps(ops, w).lost == 0 <==> AlwaysInTime(ops, w)
    decreases |ops|
  {
    hide Step, AlwaysInTime;
    if ops == [] {
      NoAppendIsLate(w);
    } else {
      var n := |ops| - 1;
      NothingLost(ops[..n], w);
      RunOpsStep(ops, w);
      LostByStep(RunOps(ops[..n], w), ops[n], w);
      AlwaysInTimeStep(ops, w);
    }
  }

  lemma NoAppendIsLate(w: bool)
    ensures AlwaysInTime([], w)
  {
  }

  lemma WholeLog(s: Run, w: bool)
    requires Wf(s) && FileMatches(s, w) && s.h.session == 0
    ensures s.file == WrittenText(s.log, s.logStamps, w) <==> s.lost == 0
  {
    hide WrittenText;
    assert s.log[0..|s.log|] == s.log && s.logStamps[0..|s.log|] == s.logStamps;
  }

  /**
   After an append the file holds every recorded line exactly once, in order, exactly when every
   append of the run found the list still holding all lines recorded since the one before.
   */
  lemma EveryLineReachesTheFileExactlyWhen(ops: seq<Op>, w: bool)
    requires NeverErases(ops, w)
    ensures var all := ops + [Appending];
            var s := RunOps(all, w);
            s.file == WrittenText(s.log, s.logStamps, w) <==> AlwaysInTime(all, w)
  {
    hide RunOps, FileMatches, AlwaysInTime, NeverErases, WrittenText;
    var all := ops + [Appending];
    AppendingErasesNothing(ops, w);
    RunFileMatches(all, w);
    NothingLost(all, w);
    EndsWithAppend(ops, w);
    WholeLog(RunOps(all, w), w);
  }

  lemma AppendingErasesNothing(ops: seq<Op>, w: bool)
    requires NeverErases(ops, w)
    ensures NeverErases(ops + [Appending], w)
  {
    hide RunOps, NeverErases;
    assert (ops + [Appending])[..|ops|] == ops;
    NeverErasesStep(ops + [Appending], w);
  }

  lemma EndsWithAppend(ops: seq<Op>, w: bool)
    ensures RunOps(ops + [Appending], w).h.session == 0
  {
    assert (ops + [Appending])[..|ops|] == ops;
    RunOpsStep(ops + [Appending], w);
  }

  /** A line recorded with no flags under a HISTSIZE of 1. */
  function KeepOne(line: string, stamp: string): Op {
    Recording(Call(line, stamp, false, false, false, false, Some(1)))
  }

  /** Any two lines recorded under a HISTSIZE of 1 and then appended: the file gets the second alone. */
  lemma StifledLineIsLost(a: string, b: string, stamp: string)
    ensures var ops := [KeepOne(a, stamp), KeepOne(b, stamp), Appending];
            var s := RunOps(ops, false);
            NeverErases(ops, false) && !AlwaysInTime(ops, false) && s.log == [a, b] && s.file == b + ['\n']
  {
    hide Step, RunOps, AlwaysInTime, NeverErases, InTime, KeepOne, IsSuffix;
    var ra, rb := KeepOne(a, stamp), KeepOne(b, stamp);
    var ops := [ra, rb, Appending];
    assert ops[..2] == [ra, rb] && [ra, rb][..1] == [ra] && [ra][..0] == [];
    RunOpsStart(false);
    RunOpsStep(ops, false);
    RunOpsStep([ra, rb], false);
    RunOpsStep([ra], false);
    FirstLine(a, stamp);
    SecondLine(a, b, stamp);
    SecondAppended(a, b, stamp);
    KeepOneErasesNothing(a, b, stamp);
    ListIsEndOfLog(ops, false);
    LateAppend(ops);
  }

  lemma KeepOneErasesNothing(a: string, b: string, stamp: string)
    ensures var ops := [KeepOne(a, stamp), KeepOne(b, stamp), Appending];
            forall i :: 0 <= i < |ops| && ops[i].Recording? ==> !ops[i].c.eraseDups
  {
  }

  lemma RunOpsStart(w: bool)
    ensures RunOps([], w) == START
  {
  }

  lemma LateAppend(ops: seq<Op>)
    requires |ops| == 3 && ops[2].Appending?
    requires var h := RunOps(ops[..2], false).h; h.session > |h.entries|
    ensures !AlwaysInTime(ops, false)
  {
    hide RunOps;
    assert !InTime(ops, 2, false);
  }

  /** The run after one and after two such lines. */
  function OneKept(a: string, stamp: string): Run {
    START.(h := Hist([a], [stamp], 1, 1), log := [a], logStamps := [stamp])
  }

  function TwoKept(a: string, b: string, stamp: string): Run {
    START.(h := Hist([b], [stamp], 2, 2), log := [a, b], logStamps := [stamp, stamp])
  }

  lemma FirstLine(a: string, stamp: string)
    ensures Step(START, KeepOne(a, stamp), false) == OneKept(a, stamp)
  {
    var none: seq<string> := [];
    assert none + [a] == [a] && none + [stamp] == [stamp] && [a][0..] == [a] && [stamp][0..] == [stamp];
  }

  lemma SecondLine(a: string, b: string, stamp: string)
    ensures Step(OneKept(a, stamp), KeepOne(b, stamp), false) == TwoKept(a, b, stamp)
  {
    assert [a] + [b] == [a, b] && [stamp] + [stamp] == [stamp, stamp];
    assert [a, b][1..] == [b] && [stamp, stamp][1..] == [stamp];
  }

  lemma SecondAppended(a: string, b: string, stamp: string)
    ensures Step(TwoKept(a, b, stamp), Appending, false).file == b + ['\n']
    ensures Step(TwoKept(a, b, stamp), Appending, false).log == [a, b]
  {
    hide LogText;
    var none: seq<string> := [];
    assert [b][0..] == [b] && [stamp][0..] == [stamp] && [b][1..] == none;
    assert WrittenText([b], [stamp], false) == EntryText(b, stamp, false) + "";
  }

  /** erasedups takes entries out of the middle: after `a`, `b` and `a` again the list
      numbers `a` as 2, which the log recorded as `b`. */
  lemma ErasingRenumbers()
    ensures var h := Hist(["a", "b"], ["#1", "#1"], 1, 2);
            var r := Record(h, Call("a", "#1", false, false, false, true, None));
            r.entries == ["b", "a"] && r.base == 1 && NumberedEvent(r.base, r.entries, 2, false) == Some("a")
  {
    assert Without([], [], "a") == ([], []);
    assert ["a"][..0] == [] && ["#1"][..0] == [];
    assert Without(["a"], ["#1"], "a") == ([], []);
    assert ["a", "b"][..1] == ["a"] && ["#1", "#1"][..1] == ["#1"];
    var none: seq<string> := [];
    assert none + ["b"] == ["b"] && none + ["#1"] == ["#1"];
    assert Without(["a", "b"], ["#1", "#1"], "a") == (none + ["b"], none + ["#1"]);
    assert ["b"] + ["a"] == ["b", "a"] && ["b", "a"][0..] == ["b", "a"];
  }
}
