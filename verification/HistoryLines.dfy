/**
 Whole lines of history expansion (src/history_expand.rs): a line of text and occurrences comes out with each
 occurrence replaced by what it stands for, and with the status that says so.
 */
module HistoryLines {
  import opened Wrappers
  import opened Sequences
  import opened HistoryScan
  import opened HistoryTokenizer
  import opened HistoryEvents
  import opened HistoryModifiers
  import opened HistoryExpand
  import opened HistoryExpandTheorems
  import opened HistoryNames
  import opened HistorySelections
  import opened HistoryOccurrences

  // -------------------------------------------------------------------------- double quotes

  /** Behind `s` one is inside double quotes. */
  predicate OddQuotes(s: string) {
    if s == "" then false else OddQuotes(s[..|s| - 1]) != (s[|s| - 1] == '"')
  }

  lemma NoQuotes()
    ensures !OddQuotes("")
  {
  }

  lemma OddQuotesStep(s: string, k: nat)
    requires k < |s|
    ensures OddQuotes(s[..k + 1]) == (OddQuotes(s[..k]) != (s[k] == '"'))
  {
    assert s[..k + 1][..k] == s[..k];
  }

  /** An expansion character with no other meaning in a line. */
  predicate UsualExpand(ctx: Ctx) {
    OrdinaryExpand(ctx) && PlainExpand(ctx.chars.expand) && ctx.chars.expand !in ['(', ctx.chars.comment]
  }

  lemma DefaultIsUsual(ctx: Ctx)
    requires ctx.chars == DEFAULT_CHARS
    ensures UsualExpand(ctx)
  {
  }

  // --------------------------------------------------------------- what does not inhibit

  /** A character of the result so far that the inhibition scan passes over. */
  predicate ScansAt(out: string, k: nat, ctx: Ctx)
    requires k < |out|
  {
    var c := out[k];
    && c != ctx.chars.expand && c != '\\' && c != '`'
    && (c == '\'' ==> OddQuotes(out[..k])) && (c == '"' ==> !ctx.posix)
    && (c == '(' && k > 0 ==> out[k - 1] !in "$<>")
  }

  predicate Scans(out: string, ctx: Ctx) { forall k :: 0 <= k < |out| ==> ScansAt(out, k, ctx) }

  lemma ScanOnce(probe: string, n: nat, i: nat, ctx: Ctx)
    requires UsualExpand(ctx) && i < n < |probe| && probe[n] == ctx.chars.expand && ScansAt(probe[..n], i, ctx)
    requires i + 1 < n ==> ScansAt(probe[..n], i + 1, ctx)
    ensures ScanStep(probe, i, FRESH.(dquote := OddQuotes(probe[..i])), ctx)
         == Moved(i + 1, FRESH.(dquote := OddQuotes(probe[..i + 1])))
  {
    OddQuotesStep(probe, i);
    assert probe[..n][..i] == probe[..i];
    assert i + 1 < n ==> probe[..n][i + 1] == probe[i + 1];
  }

  lemma {:induction false} ScanReaches(probe: string, n: nat, i: nat, ctx: Ctx)
    requires UsualExpand(ctx) && i <= n < |probe| && probe[n] == ctx.chars.expand && Scans(probe[..n], ctx)
    requires !(OddQuotes(probe[..n]) && CharAt(probe, n + 1, '"'))
    ensures ScanEnd(probe, i, FRESH.(dquote := OddQuotes(probe[..i])), ctx) == n
    decreases n - i
  {
    hide ScanStep, UsualExpand, ScansAt, OddQuotes;
    if i < n {
      ScanOnce(probe, n, i, ctx);
      ScanReaches(probe, n, i + 1, ctx);
    } else {
      ScanStops(probe, n, OddQuotes(probe[..n]), ctx);
    }
  }

  lemma ScanStops(probe: string, n: nat, dquote: bool, ctx: Ctx)
    requires UsualExpand(ctx) && CharAt(probe, n, ctx.chars.expand) && !(dquote && CharAt(probe, n + 1, '"'))
    ensures ScanStep(probe, n, FRESH.(dquote := dquote), ctx) == Found
  {
  }

  /** Behind such text the scan stops at an expansion character, exactly unless that closes double quotes. */
  lemma ScanStopsExactlyWhen(probe: string, n: nat, ctx: Ctx)
    requires UsualExpand(ctx) && CharAt(probe, n, ctx.chars.expand) && Scans(probe[..n], ctx)
    ensures ScannedOver(probe, n, ctx) <==> OddQuotes(probe[..n]) && CharAt(probe, n + 1, '"')
  {
    hide ScanStep, UsualExpand, ScansAt, ScanEnd, OddQuotes;
    assert probe[..0] == "";
    NoQuotes();
    if OddQuotes(probe[..n]) && CharAt(probe, n + 1, '"') {
      ScanPassesBefore(probe, n, 0, ctx);
    } else {
      ScanReaches(probe, n, 0, ctx);
    }
  }

  /** In front of a closing quote the scan goes on behind the expansion character. */
  lemma {:induction false} ScanPassesBefore(probe: string, n: nat, i: nat, ctx: Ctx)
    requires UsualExpand(ctx) && i <= n < |probe| && probe[n] == ctx.chars.expand && Scans(probe[..n], ctx)
    requires OddQuotes(probe[..n]) && CharAt(probe, n + 1, '"')
    ensures ScanEnd(probe, i, FRESH.(dquote := OddQuotes(probe[..i])), ctx) > n
    decreases n - i
  {
    hide ScanStep, UsualExpand, ScansAt, OddQuotes;
    if i < n {
      ScanOnce(probe, n, i, ctx);
      ScanPassesBefore(probe, n, i + 1, ctx);
    } else {
      ScanMoves(probe, n, ctx);
    }
  }

  lemma ScanMoves(probe: string, n: nat, ctx: Ctx)
    requires UsualExpand(ctx) && CharAt(probe, n, ctx.chars.expand) && CharAt(probe, n + 1, '"')
    ensures ScanStep(probe, n, FRESH.(dquote := true), ctx).Moved?
  {
  }

  /** Behind text without escapes and substitutions an expansion character is inhibited exactly in a bracket
      expression, in a `${`...`}`, behind a `$` that does not begin the line, and in front of a closing quote. */
  lemma InhibitedExactlyWhen(probe: string, n: nat, ctx: Ctx)
    requires UsualExpand(ctx) && CharAt(probe, n, ctx.chars.expand) && Scans(probe[..n], ctx)
    ensures Inhibited(probe, n, ctx) <==>
            || (n > 0 && probe[n - 1] == '[' && ']' in probe[n + 1..])
            || (n > 1 && probe[n - 2] == '$' && probe[n - 1] == '{' && '}' in probe[n + 1..])
            || (n > 1 && probe[n - 1] == '$')
            || (OddQuotes(probe[..n]) && CharAt(probe, n + 1, '"'))
  {
    ScanStopsExactlyWhen(probe, n, ctx);
    hide ScannedOver, UsualExpand, ScansAt, OddQuotes;
  }

  lemma NotInhibited(probe: string, n: nat, ctx: Ctx)
    requires UsualExpand(ctx) && CharAt(probe, n, ctx.chars.expand) && Scans(probe[..n], ctx)
    requires (n == 0 || probe[n - 1] !in "[{$") && !(OddQuotes(probe[..n]) && CharAt(probe, n + 1, '"'))
    ensures !Inhibited(probe, n, ctx)
  {
    InhibitedExactlyWhen(probe, n, ctx);
    hide Inhibited, UsualExpand, ScansAt, OddQuotes;
  }

  // ------------------------------------------------------------------------------ plain text

  /** A character of the line that is copied, inside double quotes or outside. */
  predicate PassesAs(c: char, quoted: bool, ctx: Ctx) {
    c != ctx.chars.expand && c != '\\' && c != ctx.chars.comment && (c == '\'' ==> quoted)
  }

  predicate Passes(s: string, quoted: bool, ctx: Ctx) {
    forall k :: 0 <= k < |s| ==> PassesAs(s[k], quoted != OddQuotes(s[..k]), ctx)
  }

  lemma PassesRest(s: string, quoted: bool, ctx: Ctx)
    requires s != "" && Passes(s, quoted, ctx)
    ensures PassesAs(s[0], quoted, ctx) && Passes(s[1..], quoted != (s[0] == '"'), ctx)
    ensures OddQuotes(s) == ((s[0] == '"') != OddQuotes(s[1..]))
  {
    hide PassesAs;
    assert s[..0] == "";
    forall k | 0 <= k < |s| - 1 ensures PassesAs(s[1..][k], (quoted != (s[0] == '"')) != OddQuotes(s[1..][..k]), ctx) {
      QuotesBehindFirst(s[..k + 1]);
      assert s[..k + 1][1..] == s[1..][..k];
    }
    QuotesBehindFirst(s);
  }

  lemma {:induction false} QuotesBehindFirst(s: string)
    requires s != ""
    ensures OddQuotes(s) == ((s[0] == '"') != OddQuotes(s[1..]))
    decreases |s|
  {
    if |s| > 1 {
      QuotesBehindFirst(s[..|s| - 1]);
      assert s[..|s| - 1][1..] == s[1..][..|s| - 2];
    } else {
      assert s[1..] == "" && s[..0] == "";
    }
  }

  lemma TextStep(line: string, p: Pass, w: World)
    requires p.i < |line| && !p.passc && PassesAs(line[p.i], p.dquote, w.ctx)
    ensures var m := PassStep(line, p, w);
            m.Go? && m.next == CopyTo(line, p, p.i + 1).(dquote := p.dquote != (line[p.i] == '"'))
  {
    hide ExpandOne, Inhibited, NoExpansion, SpanEnd;
  }

  /** Text is copied, and the pass knows behind it whether it is inside double quotes. */
  lemma {:induction false} TextRun(line: string, p: Pass, text: string, rest: string, w: World)
    requires p.i <= |line| && line[p.i..] == text + rest && !p.passc && Passes(text, p.dquote, w.ctx)
    ensures p.i + |text| <= |line| && line[p.i + |text|..] == rest
    ensures var q := p.(i := p.i + |text|, out := p.out + text, dquote := p.dquote != OddQuotes(text));
            PassRun(line, p, w) == PassRun(line, q, w)
    decreases |text|
  {
    hide PassRun, PassStep, PassesAs, Passes, OddQuotes;
    if text == "" {
      NoText(p);
      assert "" + rest == rest;
    } else {
      PassesRest(text, p.dquote, w.ctx);
      Begins(line, p.i, text, rest);
      RunUnfold(line, p, w);
      TextStep(line, p, w);
      TakeOne(line, p.i);
      DropStep(line, p.i);
      var q := PassStep(line, p, w).next;
      assert line[q.i..] == text[1..] + rest by {
        assert (text + rest)[1..] == text[1..] + rest;
        DropDrop(line, p.i, 1);
      }
      TextRun(line, q, text[1..], rest, w);
      assert p.out + text == p.out + [text[0]] + text[1..];
    }
  }

  lemma NoText(p: Pass)
    ensures p.(i := p.i + 0, out := p.out + "", dquote := p.dquote != OddQuotes("")) == p
  {
    assert p.out + "" == p.out;
  }

  lemma CandidateStep(line: string, i: nat, dquote: bool, ctx: Ctx)
    requires i < |line| && PassesAs(line[i], dquote, ctx)
    ensures Candidate(line, i, dquote, ctx) == Candidate(line, i + 1, dquote != (line[i] == '"'), ctx)
  {
    hide Inhibited, NoExpansion, SpanEnd;
  }

  /** The first pass finds nothing in text. */
  lemma {:induction false} TextCandidate(line: string, i: nat, dquote: bool, text: string, rest: string, ctx: Ctx)
    requires i <= |line| && line[i..] == text + rest && Passes(text, dquote, ctx)
    ensures i + |text| <= |line|
    ensures Candidate(line, i, dquote, ctx) == Candidate(line, i + |text|, dquote != OddQuotes(text), ctx)
    decreases |text|
  {
    hide Candidate, PassesAs, Passes, OddQuotes;
    if text == "" {
      NoQuotes();
    } else {
      PassesRest(text, dquote, ctx);
      Begins(line, i, text, rest);
      CandidateStep(line, i, dquote, ctx);
      assert line[i + 1..] == text[1..] + rest by {
        assert (text + rest)[1..] == text[1..] + rest;
        DropDrop(line, i, 1);
      }
      TextCandidate(line, i + 1, dquote != (line[i] == '"'), text[1..], rest, ctx);
    }
  }

  // ------------------------------------------------------------------------------ occurrences

  /** The expansion character may be expanded behind `out` and in front of `next`. */
  predicate Expandable(out: string, next: string, quoted: bool, ctx: Ctx) {
    && Scans(out, ctx) && (out == "" || out[|out| - 1] !in "[{$")
    && next != "" && next[0] !in NO_EXPAND_CHARS
    && (next[0] == '"' ==> !quoted && !OddQuotes(out))
  }

  lemma ProbeIsFree(out: string, c: char, ctx: Ctx, next: string, quoted: bool)
    requires UsualExpand(ctx) && Expandable(out, next, quoted, ctx) && c == next[0]
    ensures !Inhibited(out + [ctx.chars.expand, c], |out|, ctx)
  {
    var probe := out + [ctx.chars.expand, c];
    assert probe[..|out|] == out;
    hide UsualExpand, Scans, Inhibited, OddQuotes;
    NotInhibited(probe, |out|, ctx);
  }

  /** The pass at an expansion character that may be expanded. */
  lemma ExpansionStep(line: string, p: Pass, w: World)
    requires UsualExpand(w.ctx) && CharAt(line, p.i, w.ctx.chars.expand) && !p.passc
    requires Expandable(p.out, line[p.i + 1..], p.dquote, w.ctx)
    ensures var r := ExpandOne(line, p.i, if p.dquote then Some('"') else None, p.out, p.engine, w);
            PassStep(line, p, w) ==
            if r.Expanded? then
              Go(Expansion, Pass(r.end, p.out + r.text, p.dquote, false, true, p.printing || r.printOnly, r.engine))
            else Halt(r)
  {
    ProbeIsFree(p.out, line[p.i + 1], w.ctx, line[p.i + 1..], p.dquote);
    hide ExpandOne, Inhibited, Expandable, UsualExpand;
    MayExpand(line, p.i, p.dquote, p.out, w.ctx);
  }

  lemma MayExpand(line: string, i: nat, dquote: bool, out: string, ctx: Ctx)
    requires i < |line| && Expandable(out, line[i + 1..], dquote, ctx)
    ensures i + 1 < |line| && !NoExpansion(line, i, dquote)
  {
  }

  // -------------------------------------------------------------------------- a line of parts

  datatype Part = Between(text: string) | Named(written: Written)

  function LineText(parts: seq<Part>, expand: char): string {
    if parts == [] then ""
    else
      match parts[0]
      case Between(text) => text + LineText(parts[1..], expand)
      case Named(o) => [expand] + (WrittenText(o, expand) + LineText(parts[1..], expand))
  }

  /** What is known of a line up to some part of it: the result so far, whether one is inside double quotes,
      whether anything was expanded or is only to be printed, and what was sought and substituted last. */
  datatype Story = Story(out: string, quoted: bool, modified: bool, printing: bool, engine: Engine)

  /** How it ends: told to the end, broken off by an error, or by a substitution that does not succeed. */
  datatype Ending = Told(story: Story) | Broken(message: string, engine: Engine) | Lost

  function AfterText(t: Story, text: string): Story {
    t.(out := t.out + text, quoted := t.quoted != OddQuotes(text))
  }

  function AfterEvent(t: Story, m: Meaning): Story
    requires m.Means?
  {
    Story(t.out + m.text, t.quoted, true, t.printing || m.printOnly, m.engine)
  }

  ghost function Tell(parts: seq<Part>, t: Story, w: World): Ending {
    if parts == [] then Told(t)
    else
      match parts[0]
      case Between(text) => Tell(parts[1..], AfterText(t, text), w)
      case Named(o) =>
        var m := MeaningOf(o, w, t.out, t.engine);
        match m
        case Means(_, _, _) => Tell(parts[1..], AfterEvent(t, m), w)
        case NoEvent => Broken(ErrorOf([w.ctx.chars.expand] + NameText(o.name, w.ctx.chars.expand), EventNotFound),
            t.engine)
        case NoWords(engine) => Broken(ErrorOf(SelectionText(o.selection, o.colon), BadWordSpec), engine)
        case Fails => Lost
  }

  function QuoteOf(t: Story): Option<char> { if t.quoted then Some('"') else None }

  /** Each part can be read where it stands: text is copied, and an occurrence may be expanded and ends where it
      should. */
  ghost predicate Readable(parts: seq<Part>, t: Story, w: World) {
    if parts == [] then true
    else
      var e, rest := w.ctx.chars.expand, LineText(parts[1..], w.ctx.chars.expand);
      match parts[0]
      case Between(text) => Passes(text, t.quoted, w.ctx) && Readable(parts[1..], AfterText(t, text), w)
      case Named(o) =>
        && Writable(o, rest, e, QuoteOf(t)) && Expandable(t.out, WrittenText(o, e) + rest, t.quoted, w.ctx)
        && var m := MeaningOf(o, w, t.out, t.engine); (m.Means? ==> Readable(parts[1..], AfterEvent(t, m), w))
  }

  function PassOf(i: nat, t: Story): Pass { Pass(i, t.out, t.quoted, false, t.modified, t.printing, t.engine) }

  /** The run of the pass ends as it is told. */
  predicate EndsAs(m: PassMove, line: string, end: Ending) {
    match end
    case Told(t) => m == Go(Copied, PassOf(|line|, t))
    case Broken(message, engine) => m == Halt(Failed(message, engine))
    case Lost => m.Halt?
  }

  /** The move of the pass at an occurrence. */
  ghost predicate MovesAs(move: PassMove, j: nat, o: Written, t: Story, w: World) {
    var m := MeaningOf(o, w, t.out, t.engine);
    match m
    case Means(_, _, _) => move == Go(Expansion, PassOf(j, AfterEvent(t, m)))
    case NoEvent =>
      move == Halt(Failed(ErrorOf([w.ctx.chars.expand] + NameText(o.name, w.ctx.chars.expand), EventNotFound),
          t.engine))
    case NoWords(engine) => move == Halt(Failed(ErrorOf(SelectionText(o.selection, o.colon), BadWordSpec), engine))
    case Fails => move.Halt?
  }

  lemma EventStep(line: string, i: nat, o: Written, rest: string, t: Story, w: World)
    requires UsualExpand(w.ctx) && CharAt(line, i, w.ctx.chars.expand)
    requires var e := w.ctx.chars.expand;
             && line[i + 1..] == WrittenText(o, e) + rest && Writable(o, rest, e, QuoteOf(t))
             && Expandable(t.out, line[i + 1..], t.quoted, w.ctx)
    ensures MovesAs(PassStep(line, PassOf(i, t), w), i + 1 + |WrittenText(o, w.ctx.chars.expand)|, o, t, w)
  {
    hide PassStep, ExpandOne, WrittenText, Expandable, Writable, MeaningOf, NameText, SelectionText, ErrorOf;
    UsualIsPlain(w.ctx);
    ExpansionStep(line, PassOf(i, t), w);
    OccurrenceMeans(line, i, o, rest, QuoteOf(t), t.out, t.engine, w);
  }

  lemma EventText(line: string, i: nat, o: Written, rest: string, e: char)
    requires i <= |line| && line[i..] == [e] + (WrittenText(o, e) + rest)
    ensures CharAt(line, i, e) && line[i + 1..] == WrittenText(o, e) + rest
    ensures var j := i + 1 + |WrittenText(o, e)|; j <= |line| && line[j..] == rest
  {
    hide WrittenText;
    Stands(line, i, [e], WrittenText(o, e) + rest);
    Begins(line, i, [e], WrittenText(o, e) + rest);
    Stands(line, i + 1, WrittenText(o, e), rest);
  }

  /** The pass at an occurrence that may be expanded. */
  lemma EventRun(line: string, i: nat, o: Written, rest: string, t: Story, w: World)
    requires UsualExpand(w.ctx) && i <= |line|
    requires var e := w.ctx.chars.expand;
             && line[i..] == [e] + (WrittenText(o, e) + rest) && Writable(o, rest, e, QuoteOf(t))
             && Expandable(t.out, WrittenText(o, e) + rest, t.quoted, w.ctx)
    ensures var j := i + 1 + |WrittenText(o, w.ctx.chars.expand)|;
            var move := PassStep(line, PassOf(i, t), w);
            && j <= |line| && line[j..] == rest && i < |line| && MovesAs(move, j, o, t, w)
            && PassRun(line, PassOf(i, t), w) == if move.Halt? then move else PassRun(line, move.next, w)
  {
    hide *;
    EventText(line, i, o, rest, w.ctx.chars.expand);
    assert CharAt(line, i, w.ctx.chars.expand) ==> i < |line| by {
      Inside(line, i, w.ctx.chars.expand);
    }
    EventStep(line, i, o, rest, t, w);
    PositionOf(i, t);
    RunUnfold(line, PassOf(i, t), w);
  }

  lemma Inside(line: string, i: nat, c: char)
    ensures CharAt(line, i, c) ==> i < |line|
  {
  }

  lemma PositionOf(i: nat, t: Story)
    ensures PassOf(i, t).i == i
  {
  }

  lemma UsualIsPlain(ctx: Ctx)
    requires UsualExpand(ctx)
    ensures PlainExpand(ctx.chars.expand)
  {
  }

  /** How the run ends at an occurrence, when it ends behind it as it is told. */
  lemma EventEnds(line: string, i: nat, parts: seq<Part>, t: Story, w: World)
    requires parts != [] && parts[0].Named? && i < |line|
    requires var o := parts[0].written; var j := i + 1 + |WrittenText(o, w.ctx.chars.expand)|;
             var m, move := MeaningOf(o, w, t.out, t.engine), PassStep(line, PassOf(i, t), w);
             && j <= |line| && MovesAs(move, j, o, t, w)
             && PassRun(line, PassOf(i, t), w) == (if move.Halt? then move else PassRun(line, move.next, w))
             && (m.Means? ==>
                   EndsAs(PassRun(line, PassOf(j, AfterEvent(t, m)), w), line, Tell(parts[1..], AfterEvent(t, m), w)))
    ensures EndsAs(PassRun(line, PassOf(i, t), w), line, Tell(parts, t, w))
  {
    hide PassRun, PassStep, MeaningOf, WrittenText, ErrorOf, NameText, SelectionText;
  }

  lemma ReadableEvent(parts: seq<Part>, t: Story, w: World)
    requires parts != [] && parts[0].Named? && Readable(parts, t, w)
    ensures var o, e := parts[0].written, w.ctx.chars.expand;
            var rest := LineText(parts[1..], e);
            && LineText(parts, e) == [e] + (WrittenText(o, e) + rest)
            && Writable(o, rest, e, QuoteOf(t)) && Expandable(t.out, WrittenText(o, e) + rest, t.quoted, w.ctx)
            && var m := MeaningOf(o, w, t.out, t.engine); (m.Means? ==> Readable(parts[1..], AfterEvent(t, m), w))
  {
    hide Writable, Expandable, MeaningOf, WrittenText;
  }

  lemma ReadableText(parts: seq<Part>, t: Story, w: World)
    requires parts != [] && parts[0].Between? && Readable(parts, t, w)
    ensures var text, e := parts[0].text, w.ctx.chars.expand;
            && LineText(parts, e) == text + LineText(parts[1..], e)
            && Passes(text, t.quoted, w.ctx) && Readable(parts[1..], AfterText(t, text), w)
            && Tell(parts, t, w) == Tell(parts[1..], AfterText(t, text), w)
  {
    hide Passes;
  }

  lemma NothingLeft(line: string, i: nat, t: Story, w: World)
    requires i <= |line| && line[i..] == LineText([], w.ctx.chars.expand)
    ensures EndsAs(PassRun(line, PassOf(i, t), w), line, Tell([], t, w))
  {
    RunAtEnd(line, PassOf(i, t), w);
  }

  lemma PlainRun(line: string, i: nat, text: string, rest: string, t: Story, w: World)
    requires i <= |line| && line[i..] == text + rest && Passes(text, t.quoted, w.ctx)
    ensures i + |text| <= |line| && line[i + |text|..] == rest
    ensures PassRun(line, PassOf(i, t), w) == PassRun(line, PassOf(i + |text|, AfterText(t, text)), w)
  {
    hide PassRun, Passes, OddQuotes;
    TextRun(line, PassOf(i, t), text, rest, w);
  }

  lemma {:induction false} PartsRun(line: string, i: nat, parts: seq<Part>, t: Story, w: World)
    requires UsualExpand(w.ctx) && i <= |line| && line[i..] == LineText(parts, w.ctx.chars.expand)
    requires Readable(parts, t, w)
    ensures EndsAs(PassRun(line, PassOf(i, t), w), line, Tell(parts, t, w))
    decreases |parts|
  {
    hide *;
    if parts == [] {
      NothingLeft(line, i, t, w);
    } else if parts[0].Between? {
      ReadableText(parts, t, w);
      PlainRun(line, i, parts[0].text, LineText(parts[1..], w.ctx.chars.expand), t, w);
      PartsRun(line, i + |parts[0].text|, parts[1..], AfterText(t, parts[0].text), w);
    } else {
      ReadableEvent(parts, t, w);
      var o, m := parts[0].written, MeaningOf(parts[0].written, w, t.out, t.engine);
      EventRun(line, i, o, LineText(parts[1..], w.ctx.chars.expand), t, w);
      if m.Means? {
        PartsRun(line, i + 1 + |WrittenText(o, w.ctx.chars.expand)|, parts[1..], AfterEvent(t, m), w);
      }
      EventEnds(line, i, parts, t, w);
    }
  }

  predicate HasEvent(parts: seq<Part>) { exists k :: 0 <= k < |parts| && parts[k].Named? }

  /** The first occurrence of a line is found by the first pass. */
  lemma {:induction false} PartsCandidate(line: string, i: nat, parts: seq<Part>, t: Story, w: World)
    requires UsualExpand(w.ctx) && i <= |line| && line[i..] == LineText(parts, w.ctx.chars.expand)
    requires Readable(parts, t, w) && HasEvent(parts) && line[..i] == t.out
    ensures Candidate(line, i, t.quoted, w.ctx).Some?
    decreases |parts|
  {
    hide *;
    EventAmong(parts);
    var rest := LineText(parts[1..], w.ctx.chars.expand);
    if parts[0].Between? {
      ReadableText(parts, t, w);
      EventBehind(parts);
      PlainCandidate(line, i, parts[0].text, rest, t, w.ctx);
      PartsCandidate(line, i + |parts[0].text|, parts[1..], AfterText(t, parts[0].text), w);
    } else {
      ReadableEvent(parts, t, w);
      EventText(line, i, parts[0].written, rest, w.ctx.chars.expand);
      CandidateHere(line, i, t, w.ctx);
    }
  }

  lemma PlainCandidate(line: string, i: nat, text: string, rest: string, t: Story, ctx: Ctx)
    requires i <= |line| && line[i..] == text + rest && Passes(text, t.quoted, ctx) && line[..i] == t.out
    ensures i + |text| <= |line| && line[i + |text|..] == rest
    ensures line[..i + |text|] == AfterText(t, text).out
    ensures Candidate(line, i, t.quoted, ctx) == Candidate(line, i + |text|, AfterText(t, text).quoted, ctx)
  {
    hide Candidate, Passes, OddQuotes;
    TextCandidate(line, i, t.quoted, text, rest, ctx);
    Stands(line, i, text, rest);
    assert line[..i + |text|] == t.out + text by {
      assert line[i..][..|text|] == text;
    }
  }

  lemma EventAmong(parts: seq<Part>)
    requires HasEvent(parts)
    ensures parts != []
  {
  }

  lemma EventBehind(parts: seq<Part>)
    requires HasEvent(parts) && parts[0].Between?
    ensures HasEvent(parts[1..])
  {
    var k :| 0 <= k < |parts| && parts[k].Named?;
    assert parts[1..][k - 1].Named?;
  }

  lemma CandidateHere(line: string, i: nat, t: Story, ctx: Ctx)
    requires UsualExpand(ctx) && CharAt(line, i, ctx.chars.expand) && line[..i] == t.out
    requires Expandable(t.out, line[i + 1..], t.quoted, ctx)
    ensures Candidate(line, i, t.quoted, ctx) == Some(i)
  {
    MayExpand(line, i, t.quoted, t.out, ctx);
    hide Inhibited, OddQuotes, Scans;
    assert t.out != "" ==> t.out[|t.out| - 1] == line[i - 1];
    assert line[i + 1..][0] == line[i + 1];
    NotInhibited(line, i, ctx);
  }

  function StoryStart(engine: Engine): Story { Story("", false, false, false, engine) }

  /** What a line comes to when it ends so: its status and its text. */
  predicate ComesTo(r: Expansion, end: Ending) {
    match end
    case Told(t) => r == Finished(if t.printing then 2 else if t.modified then 1 else 0, t.out)
    case Broken(message, _) => r == Finished(-1, message)
    case Lost => r == Diverges || (r.Finished? && r.status == -1)
  }

  /**
   A line of text and occurrences comes out with each occurrence replaced by what it stands for at that place,
   the later ones knowing what the earlier ones sought and substituted. The status is 1 when there is one, 2 when
   one is only to be printed; the first that stands for nothing makes the line an error that names it.
   */
  lemma LineMeans(parts: seq<Part>, engine: Engine, w: World)
    requires UsualExpand(w.ctx) && Readable(parts, StoryStart(engine), w) && HasEvent(parts)
    requires !IsQuick(LineText(parts, w.ctx.chars.expand), w.ctx)
    ensures ComesTo(ExpandLine(LineText(parts, w.ctx.chars.expand), engine, w), Tell(parts, StoryStart(engine), w))
  {
    var line := LineText(parts, w.ctx.chars.expand);
    assert line[0..] == line && line[..0] == "";
    PartsRun(line, 0, parts, StoryStart(engine), w);
    PartsCandidate(line, 0, parts, StoryStart(engine), w);
    hide PassRun, Candidate, Tell, Readable, LineText, UsualExpand;
    Outcomes(PassRun(line, StartOf(engine), w), line, Tell(parts, StoryStart(engine), w));
  }

  lemma Outcomes(m: PassMove, line: string, end: Ending)
    requires EndsAs(m, line, end)
    ensures ComesTo(Outcome(m), end)
  {
  }
}
