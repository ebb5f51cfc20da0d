/**
 What history expansion is for, on ordinary lines (src/history_expand.rs): `!!`, `!n` and `!-n` stand for lines of
 the history, and `^lhs^rhs^` for the newest line with a replacement.
 */
module HistoryLineLaws {
  import opened Chars
  import opened Wrappers
  import opened HistoryScan
  import opened HistoryEvents
  import opened HistoryModifiers
  import opened HistoryExpand
  import opened HistoryExpandTheorems
  import opened HistoryNames
  import opened HistorySelections
  import opened HistoryOccurrences
  import opened HistoryLines
  import opened StampTime
  import opened Substitution

  // ---------------------------------------------------------------------- simple lines

  /** Text without quotes, escapes, substitutions, comments and expansion characters. */
  predicate OrdinaryChar(c: char, ctx: Ctx) { c != ctx.chars.expand && c != ctx.chars.comment && c !in "\\`'\"$<>" }

  predicate Ordinary(s: string, ctx: Ctx) { forall k :: 0 <= k < |s| ==> OrdinaryChar(s[k], ctx) }

  lemma {:induction false} NoQuotesIn(s: string)
    requires '"' !in s
    ensures !OddQuotes(s)
    decreases |s|
  {
    if s != "" {
      NoQuotesIn(s[..|s| - 1]);
    }
  }

  lemma OrdinaryReads(s: string, ctx: Ctx)
    requires Ordinary(s, ctx)
    ensures Passes(s, false, ctx) && Scans(s, ctx) && !OddQuotes(s)
  {
    forall k | 0 <= k < |s| ensures PassesAs(s[k], OddQuotes(s[..k]), ctx) && ScansAt(s, k, ctx) {
      assert OrdinaryChar(s[k], ctx) && (k > 0 ==> OrdinaryChar(s[k - 1], ctx));
    }
    assert '"' !in s by {
      assert forall k :: 0 <= k < |s| ==> OrdinaryChar(s[k], ctx);
    }
    NoQuotesIn(s);
  }

  /** The occurrence may be expanded behind this text: it does not end in an open bracket or brace. */
  predicate NotBracketed(before: string) { before == "" || before[|before| - 1] !in "[{" }

  /** The text ends an event name and begins neither a word designator nor a modifier. */
  predicate EndsOccurrence(after: string) {
    after == "" || (after[0] !in ":$*%^-" && !IsDigit(after[0]))
  }

  /** A line of one occurrence between ordinary texts. */
  function OneEvent(before: string, o: Written, after: string): seq<Part> {
    [Between(before), Named(o), Between(after)]
  }

  lemma OneEventText(before: string, o: Written, after: string, e: char)
    ensures LineText(OneEvent(before, o, after), e) == before + ([e] + (WrittenText(o, e) + after))
  {
    hide WrittenText;
    var parts := OneEvent(before, o, after);
    assert parts[1..] == [Named(o), Between(after)] && parts[1..][1..] == [Between(after)];
    LastText(after, e);
  }

  lemma LastText(after: string, e: char)
    ensures LineText([Between(after)], e) == after
  {
    assert [Between(after)][1..] == [] && after + "" == after;
  }

  lemma OneEventTells(before: string, o: Written, after: string, engine: Engine, w: World)
    requires Ordinary(before, w.ctx) && Ordinary(after, w.ctx) && MeaningOf(o, w, before, engine).Means?
    ensures var m := MeaningOf(o, w, before, engine);
            Tell(OneEvent(before, o, after), StoryStart(engine), w) ==
            Told(Story(before + m.text + after, false, true, m.printOnly, m.engine))
  {
    hide MeaningOf;
    OrdinaryReads(before, w.ctx);
    OrdinaryReads(after, w.ctx);
    hide OddQuotes;
    var parts := OneEvent(before, o, after);
    assert parts[1..] == [Named(o), Between(after)] && parts[1..][1..] == [Between(after)];
    assert [Between(after)][1..] == [];
    assert "" + before == before;
    var t := AfterText(StoryStart(engine), before);
    var u := AfterEvent(t, MeaningOf(o, w, before, engine));
    assert Tell([Between(after)], u, w) == Tell([], AfterText(u, after), w);
    assert Tell(parts, StoryStart(engine), w) == Tell(parts[1..], t, w) == Tell([Between(after)], u, w);
  }

  lemma OneEventReads(before: string, o: Written, after: string, engine: Engine, w: World)
    requires Ordinary(before, w.ctx) && Ordinary(after, w.ctx) && NotBracketed(before)
    requires Writable(o, after, w.ctx.chars.expand, None)
    requires var next := WrittenText(o, w.ctx.chars.expand) + after;
             next != "" && next[0] !in NO_EXPAND_CHARS
    ensures Readable(OneEvent(before, o, after), StoryStart(engine), w)
  {
    OrdinaryReads(before, w.ctx);
    assert before != "" ==> OrdinaryChar(before[|before| - 1], w.ctx);
    hide MeaningOf, Writable, WrittenText, Expandable, OddQuotes, Scans, Passes, Ordinary;
    var parts, t := OneEvent(before, o, after), AfterText(StoryStart(engine), before);
    assert parts[1..] == [Named(o), Between(after)];
    NothingBeforeText(before);
    ExpandableBehind(before, WrittenText(o, w.ctx.chars.expand) + after, w.ctx);
    EventReads(o, after, t, w);
  }

  lemma ExpandableBehind(before: string, next: string, ctx: Ctx)
    requires Ordinary(before, ctx) && NotBracketed(before) && next != "" && next[0] !in NO_EXPAND_CHARS
    ensures Expandable(before, next, false, ctx)
  {
    OrdinaryReads(before, ctx);
    assert before != "" ==> OrdinaryChar(before[|before| - 1], ctx);
    hide OddQuotes, Scans;
  }

  /** An occurrence and the text behind it. */
  lemma EventReads(o: Written, after: string, t: Story, w: World)
    requires Ordinary(after, w.ctx) && !t.quoted && Writable(o, after, w.ctx.chars.expand, None)
    requires Expandable(t.out, WrittenText(o, w.ctx.chars.expand) + after, false, w.ctx)
    ensures Readable([Named(o), Between(after)], t, w)
  {
    OrdinaryReads(after, w.ctx);
    hide MeaningOf, Writable, WrittenText, Expandable, OddQuotes, Scans, Passes;
    LastText(after, w.ctx.chars.expand);
    assert [Named(o), Between(after)][1..] == [Between(after)];
    var m := MeaningOf(o, w, t.out, t.engine);
    if m.Means? {
      TextReads(after, AfterEvent(t, m), w);
    }
  }

  lemma TextReads(after: string, t: Story, w: World)
    requires Passes(after, t.quoted, w.ctx)
    ensures Readable([Between(after)], t, w)
  {
    hide Passes;
    assert [Between(after)][1..] == [] && Readable([], AfterText(t, after), w);
  }

  /** An occurrence between ordinary texts is expanded there, and nothing else changes. */
  lemma OneEventMeans(before: string, o: Written, after: string, engine: Engine, w: World)
    requires UsualExpand(w.ctx) && Ordinary(before, w.ctx) && Ordinary(after, w.ctx) && NotBracketed(before)
    requires Writable(o, after, w.ctx.chars.expand, None) && MeaningOf(o, w, before, engine).Means?
    requires var next := WrittenText(o, w.ctx.chars.expand) + after;
             next != "" && next[0] !in NO_EXPAND_CHARS
    requires !IsQuick(before + ([w.ctx.chars.expand] + (WrittenText(o, w.ctx.chars.expand) + after)), w.ctx)
    ensures var m := MeaningOf(o, w, before, engine);
            ExpandLine(before + ([w.ctx.chars.expand] + (WrittenText(o, w.ctx.chars.expand) + after)), engine, w) ==
            Finished(if m.printOnly then 2 else 1, before + m.text + after)
  {
    var parts := OneEvent(before, o, after);
    assert parts[1].Named?;
    hide UsualExpand, Ordinary, Writable, WrittenText, MeaningOf, LineText, Tell, Readable, ExpandLine, IsQuick;
    OneEventText(before, o, after, w.ctx.chars.expand);
    OneEventReads(before, o, after, engine, w);
    OneEventTells(before, o, after, engine, w);
    LineMeans(parts, engine, w);
  }

  /** A name alone. */
  function Alone(name: Name): Written { Written(name, Whole, false, []) }

  lemma AloneText(name: Name, e: char, after: string)
    ensures BehindName(Alone(name)) == "" && WrittenText(Alone(name), e) == NameText(name, e)
    ensures BehindName(Alone(name)) + after == after
  {
    assert NameText(name, e) + "" == NameText(name, e);
  }

  lemma AloneMeans(name: Name, w: World, soFar: string, engine: Engine)
    requires NamedLine(name, w.list, soFar, engine).Some?
    ensures MeaningOf(Alone(name), w, soFar, engine) ==
            Means(NamedLine(name, w.list, soFar, engine).value, false, EngineAfter(name, w.list, engine))
  {
    hide NamedLine, EngineAfter;
  }

  lemma AloneWrites(name: Name, after: string, e: char)
    requires EndsOccurrence(after) && (name.Previous? || name.Numbered? || name.Back?)
    ensures Writable(Alone(name), after, e, None)
  {
    AloneText(name, e, after);
    assert "" + after == after;
  }

  /** `!!` in a line of ordinary text is the newest line of the history there, and the status is 1. */
  lemma PreviousIsExpanded(before: string, after: string, engine: Engine, w: World)
    requires UsualExpand(w.ctx) && Ordinary(before, w.ctx) && Ordinary(after, w.ctx) && NotBracketed(before)
    requires EndsOccurrence(after) && w.list.lines != [] && w.ctx.chars.expand !in NO_EXPAND_CHARS
    requires var e := w.ctx.chars.expand; !IsQuick(before + ([e] + ([e] + after)), w.ctx)
    ensures var e, lines := w.ctx.chars.expand, w.list.lines;
            ExpandLine(before + ([e] + ([e] + after)), engine, w) ==
            Finished(1, before + lines[|lines| - 1] + after)
  {
    var e := w.ctx.chars.expand;
    AloneText(Previous, e, after);
    AloneMeans(Previous, w, before, engine);
    AloneWrites(Previous, after, e);
    assert ([e] + after)[0] == e;
    hide UsualExpand, Ordinary, Writable, WrittenText, MeaningOf, ExpandLine, IsQuick;
    OneEventMeans(before, Alone(Previous), after, engine, w);
  }

  function NumberName(n: nat, back: bool): Name { if back then Back(n) else Numbered(n) }

  /** With the usual characters, `!!` in a line of ordinary text that begins with no `^`. */
  lemma BangBang(before: string, after: string, engine: Engine, w: World)
    requires w.ctx.chars == DEFAULT_CHARS && w.list.lines != []
    requires Ordinary(before, w.ctx) && Ordinary(after, w.ctx) && NotBracketed(before) && EndsOccurrence(after)
    requires before != "" ==> before[0] != '^'
    ensures ExpandLine(before + "!!" + after, engine, w) ==
            Finished(1, before + w.list.lines[|w.list.lines| - 1] + after)
  {
    var line := before + "!!" + after;
    assert line == before + (['!'] + (['!'] + after));
    assert line[0] == if before == "" then '!' else before[0];
    DefaultIsUsual(w.ctx);
    hide Ordinary, UsualExpand, EndsOccurrence, NotBracketed, ExpandLine;
    PreviousIsExpanded(before, after, engine, w);
  }

  /** `!n` is the line with that number, and `!-n` the n-th from the end. */
  lemma NumberIsExpanded(before: string, n: nat, back: bool, after: string, engine: Engine, w: World)
    requires UsualExpand(w.ctx) && Ordinary(before, w.ctx) && Ordinary(after, w.ctx) && NotBracketed(before)
    requires EndsOccurrence(after) && w.list.base > 0
    requires if back then 1 <= n <= |w.list.lines| else w.list.base <= n < w.list.base + |w.list.lines|
    requires var e := w.ctx.chars.expand; !IsQuick(before + ([e] + (NameText(NumberName(n, back), e) + after)), w.ctx)
    ensures var e, lines := w.ctx.chars.expand, w.list.lines;
            ExpandLine(before + ([e] + (NameText(NumberName(n, back), e) + after)), engine, w) ==
            Finished(1, before + (if back then lines[|lines| - n] else lines[n - w.list.base]) + after)
  {
    var e, name := w.ctx.chars.expand, NumberName(n, back);
    NumberedText(n, back, w, before, engine);
    AloneText(name, e, after);
    AloneMeans(name, w, before, engine);
    AloneWrites(name, after, e);
    NumberMayExpand(name, after, e);
    hide *;
    OneEventMeans(before, Alone(name), after, engine, w);
  }

  lemma NumberedText(n: nat, back: bool, w: World, before: string, engine: Engine)
    requires w.list.base > 0
    requires if back then 1 <= n <= |w.list.lines| else w.list.base <= n < w.list.base + |w.list.lines|
    ensures NamedLine(NumberName(n, back), w.list, before, engine) ==
            Some(if back then w.list.lines[|w.list.lines| - n] else w.list.lines[n - w.list.base])
  {
  }

  lemma NumberMayExpand(name: Name, after: string, e: char)
    requires name.Numbered? || name.Back?
    ensures var next := NameText(name, e) + after; next != "" && next[0] !in NO_EXPAND_CHARS
  {
    hide Decimal;
  }

  // ------------------------------------------------------------------------------- escapes

  /** The pass on a character behind a backslash: it is copied, whatever it is. */
  lemma EscapeRun(line: string, p: Pass, c: char, rest: string, w: World)
    requires p.i <= |line| && line[p.i..] == ['\\', c] + rest && !p.passc && w.ctx.chars.expand != '\\'
    ensures p.i + 2 <= |line| && line[p.i + 2..] == rest
    ensures PassRun(line, p, w) == PassRun(line, p.(i := p.i + 2, out := p.out + ['\\', c]), w)
  {
    hide PassRun, ExpandOne, Inhibited;
    Stands(line, p.i, ['\\', c], rest);
    Begins(line, p.i, ['\\', c], rest);
    var one := CopyTo(line, p, p.i + 1).(passc := true);
    RunUnfold(line, p, w);
    RunUnfold(line, one, w);
    TakeOne(line, p.i);
    TakeOne(line, p.i + 1);
    assert p.out + ['\\'] + [c] == p.out + ['\\', c];
  }

  /** An expansion character behind a backslash is left alone: the line stays as it is, and the status is 0. */
  lemma EscapedIsKept(before: string, after: string, engine: Engine, w: World)
    requires UsualExpand(w.ctx) && Ordinary(before, w.ctx) && Ordinary(after, w.ctx)
    requires !IsQuick(before + (['\\', w.ctx.chars.expand] + after), w.ctx)
    ensures var line := before + (['\\', w.ctx.chars.expand] + after);
            ExpandLine(line, engine, w) == Finished(0, line)
  {
    var e := w.ctx.chars.expand;
    var line, p := before + (['\\', e] + after), StartOf(engine);
    assert line[0..] == line && after + "" == after;
    OrdinaryReads(before, w.ctx);
    OrdinaryReads(after, w.ctx);
    hide PassRun, PassStep, Candidate, Passes, OddQuotes, Scans, Ordinary;
    TextRun(line, p, before, ['\\', e] + after, w);
    var q := p.(i := |before|, out := "" + before);
    EscapeRun(line, q, e, after, w);
    var r := q.(i := q.i + 2, out := q.out + ['\\', e]);
    TextRun(line, r, after, "", w);
    var end := r.(i := r.i + |after|, out := r.out + after);
    RunAtEnd(line, end, w);
    assert "" + before + ['\\', e] + after == line;
  }

  // ------------------------------------------------------------------- quick substitution

  /** A line `^lhs^rhs^`, with the last one left out at the end of the line. */
  function QuickText(lhs: string, rhs: string, closed: bool, after: string, ctx: Ctx): string {
    [ctx.chars.subst] + (PatternsText(lhs, rhs, ctx.chars.subst, closed) + after)
  }

  function QuickOccurrence(lhs: string, rhs: string, closed: bool, ctx: Ctx): Written {
    Written(Previous, Whole, false, [Replacing(lhs, rhs, ctx.chars.subst, false, closed)])
  }

  lemma QuickIsOccurrence(lhs: string, rhs: string, closed: bool, after: string, ctx: Ctx)
    ensures var e, o := ctx.chars.expand, QuickOccurrence(lhs, rhs, closed, ctx);
            && QuickLine(QuickText(lhs, rhs, closed, after, ctx), ctx) == [e] + (WrittenText(o, e) + after)
            && BehindName(o) == ModifierText(o.modifiers[0])
            && WrittenText(o, e) == [e] + BehindName(o) && ModifiersText(o.modifiers) == BehindName(o)
  {
    hide PatternsText;
    var e, d, o := ctx.chars.expand, ctx.chars.subst, QuickOccurrence(lhs, rhs, closed, ctx);
    var p := PatternsText(lhs, rhs, d, closed);
    assert o.modifiers[1..] == [] && ModifiersText([]) == "";
    assert ":s" + [d] + p + "" == ":s" + [d] + p == "" + (":s" + [d] + p);
    assert [e, e, ':', 's'] + ([d] + (p + after)) == [e] + ([e] + (":s" + [d] + p) + after);
  }

  /** `^lhs^rhs^` is the newest line with its leftmost `lhs` replaced, whatever is in the two; and what stands
      behind it stays there. */
  lemma QuickMeans(lhs: string, rhs: string, closed: bool, after: string, engine: Engine, w: World)
    requires UsualExpand(w.ctx) && w.ctx.chars.expand !in NO_EXPAND_CHARS && Ordinary(after, w.ctx)
    requires Fits(Replacing(lhs, rhs, w.ctx.chars.subst, false, closed), after) && EndsModifiers(after)
    requires w.list.lines != [] && Occurs(lhs, w.list.lines[|w.list.lines| - 1])
    ensures var lines := w.list.lines;
            ExpandLine(QuickText(lhs, rhs, closed, after, w.ctx), engine, w) ==
            Finished(1, FirstReplaced(lines[|lines| - 1], lhs, rhs) + after)
  {
    var e, o := w.ctx.chars.expand, QuickOccurrence(lhs, rhs, closed, w.ctx);
    var parts, line := OneEvent("", o, after), QuickLine(QuickText(lhs, rhs, closed, after, w.ctx), w.ctx);
    QuickIsOccurrence(lhs, rhs, closed, after, w.ctx);
    QuickWrites(lhs, rhs, closed, after, w.ctx);
    QuickWorks(lhs, rhs, closed, engine, w);
    NothingBefore(w.ctx);
    assert ([e] + BehindName(o) + after)[0] == e;
    hide *;
    OneEventText("", o, after, e);
    NothingBeforeText([e] + (WrittenText(o, e) + after));
    OneEventReads("", o, after, engine, w);
    OneEventTells("", o, after, engine, w);
    QuickRuns(QuickText(lhs, rhs, closed, after, w.ctx), parts, engine, w);
    NothingBeforeText(FirstReplaced(w.list.lines[|w.list.lines| - 1], lhs, rhs));
    StartsQuick(lhs, rhs, closed, after, w.ctx);
    var t := Story("" + FirstReplaced(w.list.lines[|w.list.lines| - 1], lhs, rhs) + after, false, true, false,
                   engine.(substLhs := Some(lhs), substRhs := Some(rhs)));
    ComesToStory(ExpandLine(QuickText(lhs, rhs, closed, after, w.ctx), engine, w), t);
  }

  lemma NothingBefore(ctx: Ctx)
    ensures Ordinary("", ctx) && NotBracketed("")
  {
  }

  lemma NothingBeforeText(s: string)
    ensures "" + s == s
  {
  }

  lemma StartsQuick(lhs: string, rhs: string, closed: bool, after: string, ctx: Ctx)
    ensures IsQuick(QuickText(lhs, rhs, closed, after, ctx), ctx)
  {
  }

  lemma ComesToStory(r: Expansion, t: Story)
    ensures ComesTo(r, Told(t)) ==> r == Finished(if t.printing then 2 else if t.modified then 1 else 0, t.out)
  {
  }

  /** A quick substitution is the line it stands for. */
  lemma QuickRuns(chars: string, parts: seq<Part>, engine: Engine, w: World)
    requires UsualExpand(w.ctx) && Readable(parts, StoryStart(engine), w)
    requires QuickLine(chars, w.ctx) == LineText(parts, w.ctx.chars.expand)
    ensures IsQuick(chars, w.ctx) ==> ComesTo(ExpandLine(chars, engine, w), Tell(parts, StoryStart(engine), w))
  {
    hide PassRun, UsualExpand, Readable, Tell, LineText;
    var line := QuickLine(chars, w.ctx);
    assert line[0..] == line;
    PartsRun(line, 0, parts, StoryStart(engine), w);
    Outcomes(PassRun(line, StartOf(engine), w), line, Tell(parts, StoryStart(engine), w));
  }

  lemma QuickWrites(lhs: string, rhs: string, closed: bool, after: string, ctx: Ctx)
    requires Fits(Replacing(lhs, rhs, ctx.chars.subst, false, closed), after) && EndsModifiers(after)
    ensures Writable(QuickOccurrence(lhs, rhs, closed, ctx), after, ctx.chars.expand, None)
  {
    hide PatternsText;
    var o := QuickOccurrence(lhs, rhs, closed, ctx);
    QuickIsOccurrence(lhs, rhs, closed, after, ctx);
    assert o.modifiers[1..] == [] && ModifiersText([]) == "" && "" + after == after;
    assert (ModifierText(o.modifiers[0]) + after)[0] == ':' && (ModifierText(o.modifiers[0]) + after)[1] == 's';
    assert AllFit([], after);
    hide Fits, ModifierText, ModifiersText;
  }

  lemma QuickWorks(lhs: string, rhs: string, closed: bool, engine: Engine, w: World)
    requires lhs != "" && w.list.lines != [] && Occurs(lhs, w.list.lines[|w.list.lines| - 1])
    ensures var m := MeaningOf(QuickOccurrence(lhs, rhs, closed, w.ctx), w, "", engine);
            m == Means(FirstReplaced(w.list.lines[|w.list.lines| - 1], lhs, rhs), false,
                       engine.(substLhs := Some(lhs), substRhs := Some(rhs)))
  {
    hide Occurs, FirstReplaced;
    var ms := QuickOccurrence(lhs, rhs, closed, w.ctx).modifiers;
    assert ms[1..] == [];
    var work := Work(w.list.lines[|w.list.lines| - 1], false, Unchanged, false, engine);
    assert AllWorked(ms, work) == Worked(ms[0], work) by {
      if Worked(ms[0], work).Some? {
        assert AllWorked([], Worked(ms[0], work).value) == Worked(ms[0], work);
      }
    }
  }
}
