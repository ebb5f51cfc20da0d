/**
 History expansion of a line (src/history_expand.rs): one event occurrence, the pass over the
 line, and the whole of `history_expand`.
 */
module HistoryExpand {
  import opened Wrappers
  import opened HistoryScan
  import opened HistoryTokenizer
  import opened HistoryEvents
  import opened HistoryModifiers

  const WORD_SPEC_STARTS: string := ":$*%^"
  const NO_EXPAND_CHARS: string := " \t\n\r=;&|()<>"

  /** The list and the configuration. */
  datatype World = World(list: Snapshot, ctx: Ctx)

  // ------------------------------------------------------------------ one occurrence

  datatype Occurrence =
    | Expanded(text: string, end: nat, printOnly: bool, engine: Engine)
    | Failed(message: string, engine: Engine)
    | Unending(engine: Engine)

  /** The line an occurrence starts from: the previous event, the text so far, or a named event. */
  function SourceLine(chars: string, start: nat, quote: Option<char>, soFar: string, engine: Engine, w: World)
    : (e: Event)
    requires CharAt(chars, start, w.ctx.chars.expand)
    ensures start < e.next <= |chars|
  {
    var expand := w.ctx.chars.expand;
    if start + 1 < |chars| && chars[start + 1] in WORD_SPEC_STARTS then
      var previous := EventAt([expand, expand], 0, None, w.list, engine, expand);
      Event(previous.line, start + 1, previous.engine)
    else if CharAt(chars, start + 1, '#') then Event(Some(soFar), start + 2, engine)
    else EventAt(chars, start, quote, w.list, engine, expand)
  }

  function Quoted(text: string, quoting: Quoting): string {
    match quoting
    case Unchanged => text
    case Quotes => "'" + QuoteBody(text) + "'"
    case Breaks => "'" + BreakBody(text) + "'"
  }

  ghost function ExpandOne(chars: string, start: nat, quote: Option<char>, soFar: string, engine: Engine, w: World)
    : (o: Occurrence)
    requires CharAt(chars, start, w.ctx.chars.expand)
    ensures o.Expanded? ==> start < o.end <= |chars|
  {
    var event := SourceLine(chars, start, quote, soFar, engine, w);
    if event.line.None? then Failed(HistError(chars, start, event.next, EventNotFound), event.engine)
    else
      var words := DesignatorAt(chars, event.next, event.line.value, event.engine.searchMatch, w.ctx.chars.comment);
      match words
      case BadWords(at) => Failed(HistError(chars, event.next, at, BadWordSpec), event.engine)
      case Designated(chosen, next) =>
        var temp := if chosen.Some? then chosen.value else event.line.value;
        match Modify(chars, next, next, NO_MODS, temp, event.engine)
        case Rejected(message, e) => Failed(message, e)
        case Endless(e) => Unending(e)
        case Modified(text, end, mods, e) => Expanded(Quoted(text, mods.quoting), end, mods.printOnly, e)
  }

  method HistoryExpandInternal(chars: string, start: nat, quote: Option<char>, soFar: string,
                               state: HistEngineState, w: World, f: WordSubst)
    returns (o: Occurrence)
    requires CharAt(chars, start, w.ctx.chars.expand) && ByTheLoop(f)
    modifies state
    ensures o == ExpandOne(chars, start, quote, soFar, old(state.Value()), w)
    ensures o.engine == state.Value()
  {
    hide EventAt, DesignatorAt, Modify, HistError, QuoteBody, BreakBody, ByTheLoop;
    var i := start;
    var event: string;
    if i + 1 < |chars| && chars[i + 1] in WORD_SPEC_STARTS {
      var expand := w.ctx.chars.expand;
      var resolved, ni := GetHistoryEvent([expand, expand], 0, None, w.list, state, w.ctx);
      if resolved.None? {
        return Failed(HistError(chars, start, start + 1, EventNotFound), state.Value());
      }
      i := i + 1;
      event := resolved.value;
    } else if CharAt(chars, i + 1, '#') {
      i := i + 2;
      event := soFar;
    } else {
      var resolved;
      resolved, i := GetHistoryEvent(chars, i, quote, w.list, state, w.ctx);
      if resolved.None? {
        return Failed(HistError(chars, start, i, EventNotFound), state.Value());
      }
      event := resolved.value;
    }
    var startingIndex := i;
    var words := GetHistoryWordSpecifier(chars, i, event, state, w.ctx);
    if words.BadWords? {
      return Failed(HistError(chars, startingIndex, words.at, BadWordSpec), state.Value());
    }
    i := words.next;
    var temp := if words.words.Some? then words.words.value else event;
    var done := ApplyModifiers(chars, i, temp, state, f);
    match done {
      case Rejected(message, e) => return Failed(message, e);
      case Endless(e) => return Unending(e);
      case Modified(text, next, mods, e) =>
        temp, i := text, next;
        if mods.quoting == Quotes {
          temp := ShSingleQuote(text);
        } else if mods.quoting == Breaks {
          temp := QuoteBreaks(text);
        }
        return Expanded(temp, i, mods.printOnly, e);
    }
  }

  // ------------------------------------------------------------------------- the pass

  datatype Pass = Pass(i: nat, out: string, dquote: bool, passc: bool, modified: bool, printing: bool, engine: Engine)

  /** What one move of the pass did with the characters it took. */
  datatype Kind = Copied | SingleQuoted | Comment | Expansion

  datatype PassMove = Go(kind: Kind, next: Pass) | Halt(why: Occurrence)

  /** The comment character at the start of a word. */
  predicate CommentStarts(chars: string, i: nat, dquote: bool, ctx: Ctx)
    requires i < |chars|
  {
    var comment := ctx.chars.comment;
    comment != '\0' && chars[i] == comment && !dquote && (i == 0 || chars[i - 1] in WORD_DELIMITERS)
  }

  /** The end of the single-quoted span that opens at `i`: past its closing quote, or the end of the line. */
  function SpanEnd(chars: string, i: nat): (end: nat)
    requires i < |chars|
    ensures i < end <= |chars|
  {
    PastQuote(chars, SingleQuoteEnd(chars, i + 1, i > 0 && chars[i - 1] == '$'))
  }

  /** The expansion character at `i` that stays as it is because of what follows it. */
  predicate NoExpansion(chars: string, i: nat, dquote: bool) {
    i + 1 >= |chars| || chars[i + 1] in NO_EXPAND_CHARS || (dquote && chars[i + 1] == '"')
  }

  function CopyTo(chars: string, p: Pass, end: nat): Pass
    requires p.i <= end <= |chars|
  {
    p.(i := end, out := p.out + chars[p.i..end])
  }

  ghost function PassStep(chars: string, p: Pass, w: World): (m: PassMove)
    requires p.i < |chars|
    ensures m.Go? ==> p.i < m.next.i <= |chars|
  {
    var c, one, ctx := chars[p.i], CopyTo(chars, p, p.i + 1), w.ctx;
    if p.passc then Go(Copied, one.(passc := false))
    else if c == ctx.chars.expand then
      if NoExpansion(chars, p.i, p.dquote) || Inhibited(p.out + [c, chars[p.i + 1]], |p.out|, ctx) then Go(Copied, one)
      else
        match ExpandOne(chars, p.i, if p.dquote then Some('"') else None, p.out, p.engine, w)
        case Expanded(text, end, printOnly, engine) =>
          Go(Expansion, Pass(end, p.out + text, p.dquote, p.passc, true, p.printing || printOnly, engine))
        case why => Halt(why)
    else if c == '\\' then Go(Copied, one.(passc := true))
    else if c == '"' then Go(Copied, one.(dquote := !p.dquote))
    else if c == '\'' && !p.dquote then Go(SingleQuoted, CopyTo(chars, p, SpanEnd(chars, p.i)))
    else if CommentStarts(chars, p.i, p.dquote, ctx) then Go(Comment, CopyTo(chars, p, |chars|))
    else Go(Copied, one)
  }

  ghost function PassRun(chars: string, p: Pass, w: World): (m: PassMove)
    requires p.i <= |chars|
    ensures m.Go? ==> m.next.i == |chars|
    decreases |chars| - p.i
  {
    if p.i == |chars| then Go(Copied, p)
    else
      var m := PassStep(chars, p, w);
      if m.Halt? then m else PassRun(chars, m.next, w)
  }

  function StartOf(engine: Engine): Pass { Pass(0, "", false, false, false, false, engine) }

  lemma RunUnfold(chars: string, p: Pass, w: World)
    requires p.i < |chars|
    ensures var m := PassStep(chars, p, w);
            PassRun(chars, p, w) == if m.Halt? then m else PassRun(chars, m.next, w)
  {
    hide PassStep;
  }

  lemma RunAtEnd(chars: string, p: Pass, w: World)
    requires p.i == |chars|
    ensures PassRun(chars, p, w) == Go(Copied, p)
  {
  }

  lemma TakeOne(chars: string, i: nat)
    requires i < |chars|
    ensures chars[i..i + 1] == [chars[i]]
  {
  }

  /** The move at an expansion character. */
  method ExpandAt(chars: string, p: Pass, state: HistEngineState, w: World, f: WordSubst) returns (m: PassMove)
    requires ByTheLoop(f)
    requires CharAt(chars, p.i, w.ctx.chars.expand) && !p.passc && p.engine == state.Value()
    modifies state
    ensures m == PassStep(chars, p, w)
    ensures m.Go? ==> m.next.engine == state.Value() && m.next.dquote == p.dquote && !m.next.passc
  {
    hide ExpandOne, Inhibited, ByTheLoop;
    var tchar := chars[p.i];
    if NoExpansion(chars, p.i, p.dquote) {
      return Go(Copied, CopyTo(chars, p, p.i + 1));
    }
    var probe := p.out + [tchar, chars[p.i + 1]];
    var inhibited := BashHistoryInhibitExpansion(probe, |p.out|, w.ctx);
    if inhibited {
      return Go(Copied, CopyTo(chars, p, p.i + 1));
    }
    var r := HistoryExpandInternal(chars, p.i, if p.dquote then Some('"') else None, p.out, state, w, f);
    if !r.Expanded? {
      return Halt(r);
    }
    return Go(Expansion, Pass(r.end, p.out + r.text, p.dquote, p.passc, true, p.printing || r.printOnly, r.engine));
  }

  method ExpandPass(chars: string, state: HistEngineState, w: World, f: WordSubst) returns (m: PassMove)
    requires ByTheLoop(f)
    modifies state
    ensures m.Go? ==> PassRun(chars, StartOf(old(state.Value())), w) == Go(Copied, m.next)
    ensures m.Halt? ==> PassRun(chars, StartOf(old(state.Value())), w) == m
  {
    hide PassRun, CommentStarts, SingleQuoteEnd, PastQuote, SpanEnd, ExpandOne, Inhibited, NoExpansion, ByTheLoop;
    var result, i, dquote, passc := "", 0, false, false;
    var modified, onlyPrinting := false, false;
    while i < |chars|
      invariant i <= |chars|
      invariant PassRun(chars, StartOf(old(state.Value())), w)
             == PassRun(chars, Pass(i, result, dquote, passc, modified, onlyPrinting, state.Value()), w)
      decreases |chars| - i
    {
      var p := Pass(i, result, dquote, passc, modified, onlyPrinting, state.Value());
      RunUnfold(chars, p, w);
      TakeOne(chars, i);
      var tchar := chars[i];
      if passc {
        passc := false;
        result := result + [tchar];
        i := i + 1;
        continue;
      }
      if tchar == w.ctx.chars.expand {
        var move := ExpandAt(chars, p, state, w, f);
        if move.Halt? {
          return move;
        }
        i, result, modified, onlyPrinting := move.next.i, move.next.out, move.next.modified, move.next.printing;
        continue;
      }
      if tchar == '\\' {
        passc := true;
        result := result + [tchar];
      } else if tchar == '"' {
        dquote := !dquote;
        result := result + [tchar];
      } else if tchar == '\'' && !dquote {
        var upto := CopySpanEnd(chars, i);
        result := result + chars[i..upto];
        i := upto;
        continue;
      } else if CommentStarts(chars, i, dquote, w.ctx) {
        assert chars[i..] == chars[i..|chars|];
        result := result + chars[i..];
        i := |chars|;
        continue;
      } else {
        result := result + [tchar];
      }
      i := i + 1;
    }
    var last := Pass(i, result, dquote, passc, modified, onlyPrinting, state.Value());
    RunAtEnd(chars, last, w);
    return Go(Copied, last);
  }

  method CopySpanEnd(chars: string, i: nat) returns (upto: nat)
    requires i < |chars|
    ensures upto == SpanEnd(chars, i)
  {
    var end := HistStringExtractSingleQuoted(chars, i + 1, i > 0 && chars[i - 1] == '$');
    upto := if end + 1 < |chars| then end + 1 else |chars|;
  }

  // ----------------------------------------------------------------------- the whole line

  /** The first expansion character, from `i` on, that may start an expansion. */
  function Candidate(chars: string, i: nat, dquote: bool, ctx: Ctx): (r: Option<nat>)
    requires i <= |chars|
    ensures r.Some? ==> i <= r.value < |chars| && chars[r.value] == ctx.chars.expand
    decreases |chars| - i
  {
    if i == |chars| || CommentStarts(chars, i, dquote, ctx) then None
    else
      var c := chars[i];
      if c == ctx.chars.expand then
        if NoExpansion(chars, i, dquote) || Inhibited(chars, i, ctx) then Candidate(chars, i + 1, dquote, ctx)
        else Some(i)
      else if dquote && c == '\\' && CharAt(chars, i + 1, '"') then Candidate(chars, i + 2, dquote, ctx)
      else if c == '"' then Candidate(chars, i + 1, !dquote, ctx)
      else if !dquote && c == '\'' then Candidate(chars, SpanEnd(chars, i), dquote, ctx)
      else if c == '\\' && (CharAt(chars, i + 1, '\'') || CharAt(chars, i + 1, ctx.chars.expand)) then
        Candidate(chars, i + 2, dquote, ctx)
      else Candidate(chars, i + 1, dquote, ctx)
  }

  method FindCandidate(chars: string, ctx: Ctx) returns (candidate: Option<nat>)
    ensures candidate == Candidate(chars, 0, false, ctx)
  {
    hide CommentStarts, Inhibited, NoExpansion, SingleQuoteEnd, PastQuote;
    var dquote, i := false, 0;
    while i < |chars|
      invariant i <= |chars|
      invariant Candidate(chars, 0, false, ctx) == Candidate(chars, i, dquote, ctx)
      decreases |chars| - i
    {
      var c := chars[i];
      if CommentStarts(chars, i, dquote, ctx) {
        break;
      } else if c == ctx.chars.expand {
        if NoExpansion(chars, i, dquote) {
          i := i + 1;
          continue;
        }
        var inhibited := BashHistoryInhibitExpansion(chars, i, ctx);
        if inhibited {
          i := i + 1;
          continue;
        }
        return Some(i);
      } else if dquote && c == '\\' && CharAt(chars, i + 1, '"') {
        i := i + 1;
      } else if c == '"' {
        dquote := !dquote;
      } else if !dquote && c == '\'' {
        i := CopySpanEnd(chars, i);
        continue;
      } else if c == '\\' && (CharAt(chars, i + 1, '\'') || CharAt(chars, i + 1, ctx.chars.expand)) {
        i := i + 1;
      }
      i := i + 1;
    }
    return None;
  }

  /** Status -1 for an error, 0 for no expansion, 1 for one, 2 for print-only; or no end. */
  datatype Expansion = Finished(status: int, text: string) | Diverges

  function Outcome(m: PassMove): Expansion {
    match m
    case Halt(Failed(message, _)) => Finished(-1, message)
    case Halt(_) => Diverges
    case Go(_, p) => Finished(if p.printing then 2 else if p.modified then 1 else 0, p.out)
  }

  /** A line `^x^y` stands for `!!:s^x^y`. */
  function QuickLine(chars: string, ctx: Ctx): string {
    [ctx.chars.expand, ctx.chars.expand, ':', 's'] + chars
  }

  predicate IsQuick(chars: string, ctx: Ctx) { CharAt(chars, 0, ctx.chars.subst) }

  ghost function ExpandLine(chars: string, engine: Engine, w: World): Expansion {
    if IsQuick(chars, w.ctx) then Outcome(PassRun(QuickLine(chars, w.ctx), StartOf(engine), w))
    else if Candidate(chars, 0, false, w.ctx).None? then Finished(0, chars)
    else Outcome(PassRun(chars, StartOf(engine), w))
  }

  method HistoryExpandLine(chars: string, state: HistEngineState, w: World, f: WordSubst) returns (r: Expansion)
    requires ByTheLoop(f)
    modifies state
    ensures r == ExpandLine(chars, old(state.Value()), w)
  {
    hide PassRun, Candidate, ByTheLoop;
    if IsQuick(chars, w.ctx) {
      var quick := ExpandPass(QuickLine(chars, w.ctx), state, w, f);
      return Outcome(quick);
    }
    var candidate := FindCandidate(chars, w.ctx);
    if candidate.None? {
      return Finished(0, chars);
    }
    var m := ExpandPass(chars, state, w, f);
    return Outcome(m);
  }
}
