/**
 What history expansion keeps: status 0 means an unchanged line, every move makes progress, and
 single-quoted spans and comments reach the result as they are.
 */
module HistoryExpandTheorems {
  import opened Sequences
  import opened HistoryScan
  import opened HistoryTokenizer
  import opened HistoryEvents
  import opened HistoryExpand
  import opened Wrappers

  // ------------------------------------------------------------------------- status 0

  lemma StepKeeps(chars: string, p: Pass, w: World)
    requires p.i < |chars| && PassStep(chars, p, w).Go?
    ensures var m := PassStep(chars, p, w);
            && (p.modified ==> m.next.modified)
            && (m.kind == Expansion ==> m.next.modified && chars[p.i] == w.ctx.chars.expand)
            && (m.kind != Expansion ==> m.next.out == p.out + chars[p.i..m.next.i] && m.next.modified == p.modified)
            && |m.next.out| >= |p.out| && m.next.out[..|p.out|] == p.out
  {
    hide ExpandOne, Inhibited, NoExpansion, CommentStarts, SpanEnd;
  }

  lemma JoinSlices(chars: string, i: nat, j: nat)
    requires i <= j <= |chars|
    ensures chars[..i] + chars[i..j] == chars[..j]
  {
  }

  /** A pass that expanded nothing copied everything. */
  lemma {:induction false} UnmodifiedIsCopied(chars: string, p: Pass, w: World)
    requires p.i <= |chars| && (!p.modified ==> p.out == chars[..p.i])
    ensures var m := PassRun(chars, p, w); m.Go? && !m.next.modified ==> m.next.out == chars
    decreases |chars| - p.i
  {
    hide PassRun, PassStep;
    if p.i == |chars| {
      RunAtEnd(chars, p, w);
      assert chars[..p.i] == chars;
    } else {
      RunUnfold(chars, p, w);
      var m := PassStep(chars, p, w);
      if m.Go? {
        StepKeeps(chars, p, w);
        JoinSlices(chars, p.i, m.next.i);
        UnmodifiedIsCopied(chars, m.next, w);
      }
    }
  }

  lemma {:induction false} ModifiedStays(chars: string, p: Pass, w: World)
    requires p.i <= |chars| && p.modified
    ensures var m := PassRun(chars, p, w); m.Go? ==> m.next.modified
    decreases |chars| - p.i
  {
    hide PassRun, PassStep;
    if p.i == |chars| {
      RunAtEnd(chars, p, w);
    } else {
      RunUnfold(chars, p, w);
      if PassStep(chars, p, w).Go? {
        StepKeeps(chars, p, w);
        ModifiedStays(chars, PassStep(chars, p, w).next, w);
      }
    }
  }

  /** An expansion character the inhibition scan can find. */
  predicate OrdinaryExpand(ctx: Ctx) { ctx.chars.expand != '\\' && ctx.chars.expand != '`' }

  /** An expansion character that is nowhere in front of another character is never expanded. */
  lemma {:induction false} NothingToExpand(chars: string, p: Pass, w: World)
    requires p.i <= |chars|
    requires forall k :: p.i <= k < |chars| && chars[k] == w.ctx.chars.expand ==> k == |chars| - 1
    ensures var m := PassRun(chars, p, w);
            m.Go? && m.next.modified == p.modified && m.next.printing == p.printing
    decreases |chars| - p.i
  {
    hide PassRun;
    if p.i == |chars| {
      RunAtEnd(chars, p, w);
    } else {
      RunUnfold(chars, p, w);
      StepCopies(chars, p, w);
      NothingToExpand(chars, PassStep(chars, p, w).next, w);
    }
  }

  lemma StepCopies(chars: string, p: Pass, w: World)
    requires p.i < |chars| && (chars[p.i] == w.ctx.chars.expand ==> NoExpansion(chars, p.i, p.dquote))
    ensures var m := PassStep(chars, p, w);
            m.Go? && m.next.modified == p.modified && m.next.printing == p.printing
  {
    hide ExpandOne, Inhibited, NoExpansion, CommentStarts, SpanEnd;
  }

  /** The scan finds an ordinary expansion character where the line has nothing else before it. */
  lemma NotInhibitedAtFront(probe: string, i: nat, ctx: Ctx)
    requires OrdinaryExpand(ctx) && i < |probe| && i <= 1 && ctx.chars.expand != '['
    requires forall k :: 0 <= k <= i ==> probe[k] == ctx.chars.expand
    ensures !Inhibited(probe, i, ctx)
  {
    assert forall k :: 0 <= k <= i ==> ScanStep(probe, k, FRESH, ctx).Found?;
    assert ScanEnd(probe, 0, FRESH, ctx) == 0;
    if i == 1 {
      assert ScanEnd(probe, 1, FRESH, ctx) == 1;
      assert ScanPast(probe, 1, 1, ctx) == 1;
      assert ScanPast(probe, 0, 1, ctx) == 1;
    }
  }

  /** Two ordinary expansion characters at the start of a line, and no quote behind them, are an expansion or an
      error. */
  lemma DoubleModifies(chars: string, engine: Engine, w: World)
    requires OrdinaryExpand(w.ctx) && |chars| > 2 && chars[2] == ':'
    requires chars[0] == chars[1] == w.ctx.chars.expand
    ensures var m := PassRun(chars, StartOf(engine), w); m.Go? ==> m.next.modified
  {
    hide PassRun, ExpandOne, Inhibited, ScanPast;
    var p, e := StartOf(engine), w.ctx.chars.expand;
    RunUnfold(chars, p, w);
    var m := PassStep(chars, p, w);
    if e in NO_EXPAND_CHARS {
      var q := m.next;
      assert q == CopyTo(chars, p, 1);
      TakeOne(chars, 0);
      assert q.out == [e];
      NotInhibitedAtFront(q.out + [e, ':'], 1, w.ctx);
      RunUnfold(chars, q, w);
      ModifiedOrHalts(chars, q, w);
    } else {
      NotInhibitedFirst(p.out + [e, e], w.ctx);
      ModifiedOrHalts(chars, p, w);
    }
  }

  lemma NotInhibitedFirst(probe: string, ctx: Ctx)
    requires OrdinaryExpand(ctx) && probe != "" && probe[0] == ctx.chars.expand
    ensures !Inhibited(probe, 0, ctx)
  {
    assert ScanStep(probe, 0, FRESH, ctx).Found?;
  }

  lemma ModifiedOrHalts(chars: string, p: Pass, w: World)
    requires p.i < |chars| && !p.passc && chars[p.i] == w.ctx.chars.expand && !NoExpansion(chars, p.i, p.dquote)
    requires !Inhibited(p.out + [chars[p.i], chars[p.i + 1]], |p.out|, w.ctx)
    ensures var m := PassStep(chars, p, w);
            m.Go? ==> m.next.modified && var end := PassRun(chars, m.next, w); (end.Go? ==> end.next.modified)
  {
    var m := PassStep(chars, p, w);
    hide PassRun, ExpandOne, Inhibited, NoExpansion;
    if m.Go? {
      ModifiedStays(chars, m.next, w);
    }
  }

  /** Status 0 is given only for the line as it was. */
  predicate KeepsOnZero(chars: string, r: Expansion) { r.Finished? && r.status == 0 ==> r.text == chars }

  lemma StatusZeroIsUnchanged(chars: string, engine: Engine, w: World)
    requires OrdinaryExpand(w.ctx) || !IsQuick(chars, w.ctx)
    ensures KeepsOnZero(chars, ExpandLine(chars, engine, w))
    ensures var r := ExpandLine(chars, engine, w); IsQuick(chars, w.ctx) && r.Finished? ==> r.status != 0
  {
    hide PassRun, Candidate, PassStep;
    if IsQuick(chars, w.ctx) {
      DoubleModifies(QuickLine(chars, w.ctx), engine, w);
    } else {
      UnmodifiedIsCopied(chars, StartOf(engine), w);
    }
  }

  /** With a backslash or a backquote for the expansion character a quick substitution is left unexpanded, but not
      undone. */
  lemma QuickLeftOver(engine: Engine, w: World)
    requires !OrdinaryExpand(w.ctx)
    ensures var chars := [w.ctx.chars.subst];
            ExpandLine(chars, engine, w) == Finished(0, QuickLine(chars, w.ctx))
  {
    var line := QuickLine([w.ctx.chars.subst], w.ctx);
    QuickCopied(line, StartOf(engine), w);
    hide PassRun;
    UnmodifiedIsCopied(line, StartOf(engine), w);
  }

  lemma QuickCopied(line: string, p: Pass, w: World)
    requires !OrdinaryExpand(w.ctx) && p.i == 0 && p.out == "" && !p.passc
    requires var e := w.ctx.chars.expand; |line| == 5 && line[..4] == [e, e, ':', 's']
    ensures var m := PassRun(line, p, w); m.Go? && m.next.modified == p.modified && m.next.printing == p.printing
  {
    hide PassRun, PassStep, Inhibited;
    var e := w.ctx.chars.expand;
    assert line[0] == line[..4][0] && line[1] == line[..4][1] && line[2] == line[..4][2] && line[3] == line[..4][3];
    TakeOne(line, 0);
    InhibitedFirst(e, w.ctx);
    InhibitedCopies(line, p, w);
    var q := CopyTo(line, p, 1);
    assert q.out == [e];
    InhibitedSecond(e, w.ctx);
    InhibitedCopies(line, q, w);
    NothingToExpand(line, CopyTo(line, q, 2), w);
  }

  lemma InhibitedCopies(chars: string, p: Pass, w: World)
    requires p.i + 1 < |chars| && !p.passc && chars[p.i] == w.ctx.chars.expand
    requires Inhibited(p.out + [chars[p.i], chars[p.i + 1]], |p.out|, w.ctx)
    ensures PassRun(chars, p, w) == PassRun(chars, CopyTo(chars, p, p.i + 1), w)
  {
    hide PassRun, PassStep, Inhibited;
    RunUnfold(chars, p, w);
    InhibitedStep(chars, p, w);
  }

  lemma InhibitedFirst(e: char, ctx: Ctx)
    requires !OrdinaryExpand(ctx) && e == ctx.chars.expand
    ensures Inhibited("" + [e, e], 0, ctx)
  {
    var probe := "" + [e, e];
    var next := ScanStep(probe, 0, FRESH, ctx);
    assert ScanStep(probe, 1, next.scan, ctx).next == 2;
    assert ScanEnd(probe, 1, next.scan, ctx) == 2;
  }

  lemma InhibitedSecond(e: char, ctx: Ctx)
    requires !OrdinaryExpand(ctx) && e == ctx.chars.expand
    ensures Inhibited([e] + [e, ':'], 1, ctx)
  {
    var probe := [e] + [e, ':'];
    var next := ScanStep(probe, 0, FRESH, ctx);
    var after := ScanStep(probe, 1, next.scan, ctx);
    assert after.next == 2 && ScanStep(probe, 2, after.scan, ctx).next == 3;
    assert ScanEnd(probe, 2, after.scan, ctx) == 3;
    assert ScanEnd(probe, 1, next.scan, ctx) == 3;
  }

  lemma InhibitedStep(chars: string, p: Pass, w: World)
    requires p.i + 1 < |chars| && !p.passc && chars[p.i] == w.ctx.chars.expand
    requires Inhibited(p.out + [chars[p.i], chars[p.i + 1]], |p.out|, w.ctx)
    ensures PassStep(chars, p, w) == Go(Copied, CopyTo(chars, p, p.i + 1))
  {
  }

  /** For which expansion characters status 0 always means an unchanged line: all but backslash and backquote. */
  lemma StatusZeroExactlyWhen(engine: Engine, w: World)
    ensures (forall chars :: KeepsOnZero(chars, ExpandLine(chars, engine, w))) <==> OrdinaryExpand(w.ctx)
    ensures w.ctx.chars == DEFAULT_CHARS ==> OrdinaryExpand(w.ctx)
  {
    hide ExpandLine;
    if OrdinaryExpand(w.ctx) {
      forall chars ensures KeepsOnZero(chars, ExpandLine(chars, engine, w)) {
        StatusZeroIsUnchanged(chars, engine, w);
      }
    } else {
      QuickLeftOver(engine, w);
      assert !KeepsOnZero([w.ctx.chars.subst], ExpandLine([w.ctx.chars.subst], engine, w));
    }
  }

  // -------------------------------------------------------------------- spans of the pass

  /** The stretch of the line one move took and the stretch of the result it gave; the quote around it, what was
      sought and substituted before and after it, and whether it asks for the line only to be printed. */
  datatype Span = Span(kind: Kind, from: nat, to: nat, outFrom: nat, outTo: nat,
                       quote: Option<char>, before: Engine, after: Engine, printOnly: bool)

  ghost function SpanOf(chars: string, p: Pass, w: World): Span
    requires p.i < |chars| && PassStep(chars, p, w).Go?
  {
    var m := PassStep(chars, p, w);
    Span(m.kind, p.i, m.next.i, |p.out|, |m.next.out|, if p.dquote then Some('"') else None, p.engine, m.next.engine,
         m.kind == Expansion && PrintsOnly(ExpandOne(chars, p.i, if p.dquote then Some('"') else None, p.out, p.engine,
             w)))
  }

  predicate PrintsOnly(o: Occurrence) { o.Expanded? && o.printOnly }

  /** The moves of a pass that reaches the end of the line. */
  ghost function Spans(chars: string, p: Pass, w: World): seq<Span>
    requires p.i <= |chars|
    decreases |chars| - p.i
  {
    if p.i == |chars| || PassStep(chars, p, w).Halt? then []
    else [SpanOf(chars, p, w)] + Spans(chars, PassStep(chars, p, w).next, w)
  }

  /** A span moves forward. What an expansion gives is the text of its occurrence at that place, with the result so
      far before it; any other span is in the result as it was in the line. */
  ghost predicate Faithful(chars: string, out: string, s: Span, w: World) {
    && s.from < s.to <= |chars| && s.outFrom <= s.outTo <= |out|
    && (s.kind == Expansion ==>
          && chars[s.from] == w.ctx.chars.expand
          && ExpandOne(chars, s.from, s.quote, out[..s.outFrom], s.before, w)
          == Expanded(out[s.outFrom..s.outTo], s.to, s.printOnly, s.after))
    && (s.kind != Expansion ==>
          out[s.outFrom..s.outTo] == chars[s.from..s.to] && s.after == s.before && !s.printOnly)
    && (s.kind == SingleQuoted ==> chars[s.from] == '\'' && s.to == SpanEnd(chars, s.from))
    && (s.kind == Comment ==> CommentStarts(chars, s.from, false, w.ctx) && s.to == |chars|)
  }

  /** A place in the line, in the result, and what was sought and substituted up to there. */
  datatype Stand = Stand(at: nat, outAt: nat, engine: Engine)

  /** Spans follow each other without gaps, in the line and in the result, from the start to the end of both, each
      starting from what the one before it left. */
  predicate Tiles(spans: seq<Span>, from: Stand, to: Stand) {
    if spans == [] then from == to
    else
      && Stand(spans[0].from, spans[0].outFrom, spans[0].before) == from
      && Tiles(spans[1..], Stand(spans[0].to, spans[0].outTo, spans[0].after), to)
  }

  lemma StepIsFaithful(chars: string, p: Pass, w: World, out: string)
    requires p.i < |chars| && PassStep(chars, p, w).Go?
    requires var n := |PassStep(chars, p, w).next.out|;
             n <= |out| && out[..n] == PassStep(chars, p, w).next.out
    ensures Faithful(chars, out, SpanOf(chars, p, w), w)
  {
    StepKeeps(chars, p, w);
    StepKinds(chars, p, w);
    hide PassStep, CommentStarts, SpanEnd, ExpandOne;
    var m := PassStep(chars, p, w);
    var given := m.next.out[|p.out|..];
    assert out[..|p.out|] == out[..|m.next.out|][..|p.out|] == p.out;
    assert out[|p.out|..|m.next.out|] == out[..|m.next.out|][|p.out|..] == given;
    if m.kind != Expansion {
      var a, b := p.out, chars[p.i..m.next.i];
      assert (a + b)[|a|..] == b;
    }
  }

  lemma StepKinds(chars: string, p: Pass, w: World)
    requires p.i < |chars| && PassStep(chars, p, w).Go?
    ensures var m := PassStep(chars, p, w);
            && (m.kind == SingleQuoted ==> chars[p.i] == '\'' && m.next.i == SpanEnd(chars, p.i))
            && (m.kind == Comment ==> CommentStarts(chars, p.i, false, w.ctx) && m.next.i == |chars|)
            && (m.kind != Expansion ==> m.next.engine == p.engine && m.next.printing == p.printing)
            && (m.kind == Expansion ==>
                  var o := ExpandOne(chars, p.i, if p.dquote then Some('"') else None, p.out, p.engine, w);
                  && |p.out| <= |m.next.out|
                  && o == Expanded(m.next.out[|p.out|..], m.next.i, PrintsOnly(o), m.next.engine)
                  && m.next.printing == (p.printing || PrintsOnly(o)))
  {
    hide ExpandOne, Inhibited, NoExpansion, SpanEnd;
    var m := PassStep(chars, p, w);
    if m.kind == Expansion {
      var o := ExpandOne(chars, p.i, if p.dquote then Some('"') else None, p.out, p.engine, w);
      assert (p.out + o.text)[|p.out|..] == o.text;
    }
  }

  /** The result only grows. */
  lemma {:induction false} ResultGrows(chars: string, p: Pass, w: World)
    requires p.i <= |chars|
    ensures var m := PassRun(chars, p, w);
            m.Go? ==> |p.out| <= |m.next.out| && m.next.out[..|p.out|] == p.out
    decreases |chars| - p.i
  {
    hide PassRun, PassStep;
    if p.i == |chars| {
      RunAtEnd(chars, p, w);
      assert p.out[..|p.out|] == p.out;
    } else {
      RunUnfold(chars, p, w);
      var m := PassStep(chars, p, w);
      if m.Go? {
        StepKeeps(chars, p, w);
        ResultGrows(chars, m.next, w);
        var end := PassRun(chars, m.next, w);
        if end.Go? {
          assert end.next.out[..|m.next.out|][..|p.out|] == end.next.out[..|p.out|];
        }
      }
    }
  }

  predicate HasExpansion(spans: seq<Span>) { exists k :: 0 <= k < |spans| && spans[k].kind == Expansion }

  predicate HasPrintOnly(spans: seq<Span>) { exists k :: 0 <= k < |spans| && spans[k].printOnly }

  lemma OneMore(span: Span, spans: seq<Span>)
    ensures HasExpansion([span] + spans) <==> span.kind == Expansion || HasExpansion(spans)
    ensures HasPrintOnly([span] + spans) <==> span.printOnly || HasPrintOnly(spans)
  {
    var all := [span] + spans;
    assert all[0] == span && forall k :: 0 <= k < |spans| ==> all[k + 1] == spans[k];
  }

  /**
   A pass that reaches the end is a sequence of spans that tile the line and the result; each makes
   progress within the line. An expansion gives the text of its occurrence there, and all others are copied as
   they are; the pass has modified something, or is only to print, exactly when one of the spans says so.
   */
  lemma {:induction false} PassIsItsSpans(chars: string, p: Pass, w: World)
    requires p.i <= |chars| && PassRun(chars, p, w).Go?
    ensures var end, spans := PassRun(chars, p, w).next, Spans(chars, p, w);
            && Tiles(spans, Stand(p.i, |p.out|, p.engine), Stand(|chars|, |end.out|, end.engine))
            && (forall k :: 0 <= k < |spans| ==> Faithful(chars, end.out, spans[k], w))
            && (end.modified <==> p.modified || HasExpansion(spans))
            && (end.printing <==> p.printing || HasPrintOnly(spans))
    decreases |chars| - p.i
  {
    hide PassRun, PassStep, Faithful, HasExpansion, HasPrintOnly, ExpandOne;
    if p.i == |chars| {
      RunAtEnd(chars, p, w);
      NoSpans();
    } else {
      RunUnfold(chars, p, w);
      var m := PassStep(chars, p, w);
      var out := PassRun(chars, p, w).next.out;
      ResultGrows(chars, m.next, w);
      StepIsFaithful(chars, p, w, out);
      StepKeeps(chars, p, w);
      StepKinds(chars, p, w);
      PassIsItsSpans(chars, m.next, w);
      var span, more := SpanOf(chars, p, w), Spans(chars, m.next, w);
      assert Spans(chars, p, w) == [span] + more && ([span] + more)[1..] == more;
      OneMore(span, more);
    }
  }

  lemma NoSpans()
    ensures !HasExpansion([]) && !HasPrintOnly([])
  {
  }

  /** A character the pass copies, whatever stands around it. */
  predicate CopiedAlone(c: char, ctx: Ctx) { c !in "\\\"'" && c != ctx.chars.expand && c != ctx.chars.comment }

  lemma CopiedStep(chars: string, p: Pass, w: World)
    requires p.i < |chars| && CopiedAlone(chars[p.i], w.ctx) && !p.passc
    ensures PassStep(chars, p, w) == Go(Copied, CopyTo(chars, p, p.i + 1))
  {
    hide ExpandOne, Inhibited, NoExpansion, SpanEnd;
  }

  lemma {:induction false} CopiedRun(chars: string, p: Pass, k: nat, w: World)
    requires p.i <= k <= |chars| && !p.passc
    requires forall j :: p.i <= j < k ==> CopiedAlone(chars[j], w.ctx)
    ensures PassRun(chars, p, w) == PassRun(chars, CopyTo(chars, p, k), w)
    decreases k - p.i
  {
    hide PassRun, PassStep, CopiedAlone;
    if p.i == k {
      assert chars[k..k] == [] && p.out + [] == p.out;
    } else {
      RunUnfold(chars, p, w);
      CopiedStep(chars, p, w);
      CopiedRun(chars, CopyTo(chars, p, p.i + 1), k, w);
      CopyTwice(chars, p, p.i + 1, k);
    }
  }

  lemma CopyTwice(chars: string, p: Pass, j: nat, k: nat)
    requires p.i <= j <= k <= |chars|
    ensures CopyTo(chars, CopyTo(chars, p, j), k) == CopyTo(chars, p, k)
  {
    assert chars[p.i..j] + chars[j..k] == chars[p.i..k];
    Assoc(p.out, chars[p.i..j], chars[j..k]);
  }

  lemma QuoteStep(chars: string, p: Pass, w: World)
    requires p.i < |chars| && chars[p.i] == '\'' && !p.dquote && !p.passc && w.ctx.chars.expand != '\''
    ensures PassStep(chars, p, w) == Go(SingleQuoted, CopyTo(chars, p, SpanEnd(chars, p.i)))
  {
    hide ExpandOne, Inhibited, NoExpansion, SpanEnd;
  }

  /** The line `before`, then `quoted` between single quotes, then `after`. */
  function QuotedLine(before: string, quoted: string, after: string): string {
    before + "'" + quoted + "'" + after
  }

  lemma QuotedLineSpan(before: string, quoted: string, after: string)
    requires '\'' !in quoted && (before == "" || before[|before| - 1] != '$')
    ensures var line := QuotedLine(before, quoted, after);
            && |before| < |line| && line[|before|] == '\'' && line[..|before|] == before
            && SpanEnd(line, |before|) == |before| + |quoted| + 2
            && line[..|before| + |quoted| + 2] == before + "'" + quoted + "'"
  {
    var line, n := QuotedLine(before, quoted, after), |before|;
    var head := before + "'" + quoted + "'";
    assert line == head + after;
    assert head[n] == '\'' && head[n + 1..n + 1 + |quoted|] == quoted && head[n + 1 + |quoted|] == '\'';
    forall j | n + 1 <= j < n + 1 + |quoted| ensures line[j] != '\'' {
      assert line[j] == quoted[j - n - 1];
    }
    assert n > 0 ==> line[n - 1] == before[n - 1];
    var end := SingleQuoteEnd(line, n + 1, false);
    QuoteEndWithin(line, n + 1, n + 1 + |quoted|);
  }

  lemma {:induction false} QuoteEndWithin(chars: string, i: nat, close: nat)
    requires i <= close < |chars| && chars[close] == '\''
    ensures SingleQuoteEnd(chars, i, false) <= close
    decreases close - i
  {
    if i < close && chars[i] != '\'' {
      QuoteEndWithin(chars, i + 1, close);
    }
  }

  /**
   Text between single quotes is in the result as it is in the line, whatever it holds: the pass goes on
   behind it as if it had copied everything so far, so a line that is expanded still starts with it.
   */
  lemma SingleQuotesKeep(before: string, quoted: string, after: string, engine: Engine, w: World)
    requires '\'' !in quoted && (before == "" || before[|before| - 1] != '$') && w.ctx.chars.expand != '\''
    requires forall j :: 0 <= j < |before| ==> CopiedAlone(before[j], w.ctx)
    ensures var line, kept := QuotedLine(before, quoted, after), before + "'" + quoted + "'";
            var run := PassRun(line, StartOf(engine), w);
            && |kept| <= |line|
            && run == PassRun(line, StartOf(engine).(i := |kept|, out := kept), w)
            && (run.Go? ==> |kept| <= |run.next.out| && run.next.out[..|kept|] == kept)
  {
    hide PassRun, PassStep, SpanEnd, QuotedLine, CopiedAlone;
    var line, n := QuotedLine(before, quoted, after), |before|;
    var kept := before + "'" + quoted + "'";
    QuotedLineSpan(before, quoted, after);
    assert forall j :: 0 <= j < n ==> line[..n][j] == line[j];
    var p := CopyTo(line, StartOf(engine), n);
    CopiedRun(line, StartOf(engine), n, w);
    RunUnfold(line, p, w);
    QuoteStep(line, p, w);
    CopyTwice(line, StartOf(engine), n, |kept|);
    var q := CopyTo(line, StartOf(engine), |kept|);
    assert "" + line[0..|kept|] == kept;
    ResultGrows(line, q, w);
  }

  lemma CommentEndsPass(chars: string, p: Pass, w: World)
    requires p.i < |chars| && !p.passc && CommentStarts(chars, p.i, p.dquote, w.ctx)
    requires chars[p.i] != w.ctx.chars.expand && chars[p.i] !in "\\\"'"
    ensures PassRun(chars, p, w) == Go(Copied, CopyTo(chars, p, |chars|))
  {
    hide ExpandOne, Inhibited, NoExpansion;
    RunUnfold(chars, p, w);
    RunAtEnd(chars, CopyTo(chars, p, |chars|), w);
  }

  /**
   A line of ordinary text and then a comment, at the start of the line or behind the end of a word, comes
   out as it is, whatever the comment holds: nothing in it is expanded and nothing fails.
   */
  lemma CommentKeeps(before: string, after: string, engine: Engine, w: World)
    requires var c := w.ctx.chars.comment; c != '\0' && c != w.ctx.chars.expand && c !in "\\\"'"
    requires before == "" || before[|before| - 1] in WORD_DELIMITERS
    requires forall j :: 0 <= j < |before| ==> CopiedAlone(before[j], w.ctx)
    ensures var line := before + [w.ctx.chars.comment] + after;
            PassRun(line, StartOf(engine), w) == Go(Copied, StartOf(engine).(i := |line|, out := line))
  {
    hide PassRun, PassStep, CopiedAlone;
    var line, n := before + [w.ctx.chars.comment] + after, |before|;
    assert forall j :: 0 <= j < n ==> line[j] == before[j];
    var p := CopyTo(line, StartOf(engine), n);
    CopiedRun(line, StartOf(engine), n, w);
    CommentEndsPass(line, p, w);
    CopyTwice(line, StartOf(engine), n, |line|);
    assert "" + line[0..|line|] == line;
  }
}
