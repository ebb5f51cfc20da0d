/**
 Where history expansion may happen in a line (src/history_expand.rs): the scan for the
 expansion character past quotes and substitutions, and the inhibition test built on it.
 */
module HistoryScan {

  datatype HistChars = HistChars(expand: char, subst: char, comment: char)

  datatype Ctx = Ctx(chars: HistChars, posix: bool)

  const DEFAULT_CHARS := HistChars('!', '^', '#')

  predicate CharAt(chars: string, i: nat, c: char) { i < |chars| && chars[i] == c }

  // ------------------------------------------------------------------------ quotes

  /** The closing single quote at or after `i`, or the end; a backslash may quote a character. */
  function SingleQuoteEnd(chars: string, i: nat, backslash: bool): (end: nat)
    requires i <= |chars|
    ensures i <= end <= |chars|
    ensures end < |chars| ==> chars[end] == '\''
    ensures !backslash ==> forall p :: i <= p < end ==> chars[p] != '\''
    decreases |chars| - i
  {
    if i == |chars| || chars[i] == '\'' then i
    else if backslash && chars[i] == '\\' && i + 1 < |chars| then SingleQuoteEnd(chars, i + 2, backslash)
    else SingleQuoteEnd(chars, i + 1, backslash)
  }

  method HistStringExtractSingleQuoted(chars: string, sindex: nat, backslash: bool) returns (i: nat)
    requires sindex <= |chars|
    ensures i == SingleQuoteEnd(chars, sindex, backslash)
  {
    i := sindex;
    while i < |chars|
      invariant sindex <= i <= |chars|
      invariant SingleQuoteEnd(chars, sindex, backslash) == SingleQuoteEnd(chars, i, backslash)
    {
      var c := chars[i];
      if c == '\'' {
        break;
      }
      if backslash && c == '\\' && i + 1 < |chars| {
        i := i + 1;
      }
      i := i + 1;
    }
  }

  /** Past the quote at `end`, if there is one. */
  function PastQuote(chars: string, end: nat): (next: nat)
    requires end <= |chars|
    ensures end <= next <= |chars|
  {
    if end < |chars| then end + 1 else end
  }

  method SkipSingleQuoted(chars: string, from: nat) returns (next: nat)
    requires from <= |chars|
    ensures next == PastQuote(chars, SingleQuoteEnd(chars, from, true))
  {
    var i := from;
    while i < |chars|
      invariant from <= i <= |chars|
      invariant SingleQuoteEnd(chars, from, true) == SingleQuoteEnd(chars, i, true)
    {
      var c := chars[i];
      if c == '\'' {
        return i + 1;
      }
      if c == '\\' && i + 1 < |chars| {
        i := i + 1;
      }
      i := i + 1;
    }
    return |chars|;
  }

  function DoubleQuoteEnd(chars: string, i: nat): (end: nat)
    requires i <= |chars|
    ensures i <= end <= |chars|
    ensures end < |chars| ==> chars[end] == '"'
    decreases |chars| - i
  {
    if i == |chars| || chars[i] == '"' then i
    else if chars[i] == '\\' then if i + 2 <= |chars| then DoubleQuoteEnd(chars, i + 2) else |chars|
    else DoubleQuoteEnd(chars, i + 1)
  }

  method SkipDoubleQuoted(chars: string, from: nat) returns (next: nat)
    requires from <= |chars|
    ensures next == PastQuote(chars, DoubleQuoteEnd(chars, from))
  {
    var i := from;
    while i < |chars|
      invariant from <= i
      invariant DoubleQuoteEnd(chars, from) == if i <= |chars| then DoubleQuoteEnd(chars, i) else |chars|
    {
      var c := chars[i];
      if c == '\\' {
        i := i + 1;
      } else if c == '"' {
        return i + 1;
      }
      i := i + 1;
    }
    return |chars|;
  }

  // -------------------------------------------------------------------------- the scan

  datatype Scan = Scan(passNext: bool, backq: bool, dquote: bool, comsub: nat, oldDquote: bool)

  const FRESH := Scan(false, false, false, 0, false)

  datatype ScanMove = Found | Moved(next: nat, scan: Scan)

  function ScanStep(chars: string, i: nat, s: Scan, ctx: Ctx): (m: ScanMove)
    requires i < |chars|
    ensures m.Moved? ==> i < m.next <= |chars|
    ensures m.Found? ==> chars[i] == ctx.chars.expand
  {
    var c := chars[i];
    if s.passNext then Moved(i + 1, s.(passNext := false))
    else if c == '\\' then Moved(i + 1, s.(passNext := true))
    else if s.backq && c == '`' then Moved(i + 1, s.(backq := false, dquote := s.oldDquote))
    else if c == '`' then Moved(i + 1, s.(backq := true, oldDquote := s.dquote, dquote := false))
    else if s.dquote && c == ctx.chars.expand && CharAt(chars, i + 1, '"') then Moved(i + 1, s)
    else if c == ctx.chars.expand then Found
    else if s.dquote && c == '\'' then Moved(i + 1, s)
    else if c == '\'' then Moved(PastQuote(chars, SingleQuoteEnd(chars, i + 1, true)), s)
    else if c == '"' then
      if ctx.posix then Moved(PastQuote(chars, DoubleQuoteEnd(chars, i + 1)), s)
      else Moved(i + 1, s.(dquote := !s.dquote))
    else if (c == '$' || c == '<' || c == '>') && CharAt(chars, i + 1, '(') && !CharAt(chars, i + 2, '(') then
      Moved(i + 2, s.(comsub := s.comsub + 1, oldDquote := s.dquote, dquote := false))
    else if s.comsub > 0 && c == ')' then Moved(i + 1, s.(comsub := s.comsub - 1, dquote := s.oldDquote))
    else Moved(i + 1, s)
  }

  /** The first expansion character the scan stops at, or the end of the line. */
  function ScanEnd(chars: string, i: nat, s: Scan, ctx: Ctx): (end: nat)
    requires i <= |chars|
    ensures i <= end <= |chars|
    ensures end < |chars| ==> chars[end] == ctx.chars.expand
    decreases |chars| - i
  {
    if i == |chars| then i
    else
      match ScanStep(chars, i, s, ctx)
      case Found => i
      case Moved(next, t) => ScanEnd(chars, next, t, ctx)
  }

  lemma ScanUnfold(chars: string, i: nat, s: Scan, ctx: Ctx)
    requires i < |chars|
    ensures var m := ScanStep(chars, i, s, ctx);
            ScanEnd(chars, i, s, ctx) == if m.Found? then i else ScanEnd(chars, m.next, m.scan, ctx)
  {
  }

  lemma ScanAtEnd(chars: string, s: Scan, ctx: Ctx)
    ensures ScanEnd(chars, |chars|, s, ctx) == |chars|
  {
  }

  /** It never gives up: running off the line counts as stopping at the end. */
  method SkipToHistexp(chars: string, start: nat, ctx: Ctx) returns (r: nat)
    requires start <= |chars|
    ensures r == ScanEnd(chars, start, FRESH, ctx)
    ensures start <= r <= |chars|
  {
    hide SingleQuoteEnd, DoubleQuoteEnd, PastQuote, ScanEnd;
    var histchar := ctx.chars.expand;
    var i := start;
    var passNext, backq, dquote, histexpComsub, oldDquote := false, false, false, 0, false;
    while i < |chars|
      invariant start <= i <= |chars| && histexpComsub >= 0
      invariant ScanEnd(chars, start, FRESH, ctx)
             == ScanEnd(chars, i, Scan(passNext, backq, dquote, histexpComsub, oldDquote), ctx)
    {
      ScanUnfold(chars, i, Scan(passNext, backq, dquote, histexpComsub, oldDquote), ctx);
      var c := chars[i];
      if passNext {
        passNext := false;
        i := i + 1;
        continue;
      }
      if c == '\\' {
        passNext := true;
        i := i + 1;
        continue;
      }
      if backq && c == '`' {
        backq := false;
        dquote := oldDquote;
        i := i + 1;
        continue;
      }
      if c == '`' {
        backq := true;
        oldDquote := dquote;
        dquote := false;
        i := i + 1;
        continue;
      }
      if dquote && c == histchar && i + 1 < |chars| && chars[i + 1] == '"' {
        i := i + 1;
        continue;
      }
      if c == histchar {
        return i;
      }
      if dquote && c == '\'' {
        i := i + 1;
        continue;
      }
      if c == '\'' {
        i := SkipSingleQuoted(chars, i + 1);
        continue;
      }
      if c == '"' {
        if ctx.posix {
          i := SkipDoubleQuoted(chars, i + 1);
        } else {
          dquote := !dquote;
          i := i + 1;
        }
        continue;
      }
      if (c == '$' || c == '<' || c == '>') && CharAt(chars, i + 1, '(') && !CharAt(chars, i + 2, '(') {
        i := i + 2;
        histexpComsub := histexpComsub + 1;
        oldDquote := dquote;
        dquote := false;
        continue;
      }
      if histexpComsub > 0 && c == ')' {
        histexpComsub := histexpComsub - 1;
        dquote := oldDquote;
        i := i + 1;
        continue;
      }
      i := i + 1;
    }
    ScanAtEnd(chars, Scan(passNext, backq, dquote, histexpComsub, oldDquote), ctx);
    return |chars|;
  }

  // ---------------------------------------------------------------------- inhibition

  /** Scanning on from stop to stop until one is at `i` or past it. */
  function ScanPast(chars: string, t: nat, i: nat, ctx: Ctx): (end: nat)
    requires t <= |chars| && i < |chars|
    ensures i <= end <= |chars|
    decreases |chars| - t
  {
    if t >= i then t else ScanPast(chars, ScanEnd(chars, t + 1, FRESH, ctx), i, ctx)
  }

  /** `i` lies inside something the scan skips. */
  predicate ScannedOver(chars: string, i: nat, ctx: Ctx)
    requires i < |chars|
  {
    ScanPast(chars, ScanEnd(chars, 0, FRESH, ctx), i, ctx) > i
  }

  predicate Inhibited(chars: string, i: nat, ctx: Ctx)
    requires i < |chars|
  {
    || (i > 0 && chars[i - 1] == '[' && ']' in chars[i + 1..])
    || (i > 1 && chars[i - 1] == '{' && chars[i - 2] == '$' && '}' in chars[i + 1..])
    || (i > 1 && chars[i - 1] == '$' && chars[i] == ctx.chars.expand)
    || ScannedOver(chars, i, ctx)
  }

  method BashHistoryInhibitExpansion(chars: string, i: nat, ctx: Ctx) returns (r: bool)
    requires i < |chars|
    ensures r == Inhibited(chars, i, ctx)
  {
    hide ScanEnd;
    if i > 0 && chars[i - 1] == '[' && ']' in chars[i + 1..] {
      return true;
    }
    if i > 1 && chars[i - 1] == '{' && chars[i - 2] == '$' && '}' in chars[i + 1..] {
      return true;
    }
    if i > 1 && chars[i - 1] == '$' && chars[i] == ctx.chars.expand {
      return true;
    }
    var t := SkipToHistexp(chars, 0, ctx);
    while t < i
      invariant t <= |chars|
      invariant ScanPast(chars, ScanEnd(chars, 0, FRESH, ctx), i, ctx) == ScanPast(chars, t, i, ctx)
      decreases i - t
    {
      t := SkipToHistexp(chars, t + 1, ctx);
    }
    return t > i;
  }

  // ------------------------------------------------------------------ what is scanned over

  /** A character the scan takes no notice of. */
  predicate Neutral(c: char, ctx: Ctx) {
    && c != ctx.chars.expand && c != '\\' && c != '`' && c != '\'' && c != '"'
    && c != '$' && c != '<' && c != '>'
  }

  lemma {:induction false} PastNeutral(chars: string, i: nat, j: nat, ctx: Ctx)
    requires i <= j <= |chars|
    requires forall p :: i <= p < j ==> Neutral(chars[p], ctx)
    ensures ScanEnd(chars, i, FRESH, ctx) == ScanEnd(chars, j, FRESH, ctx)
    decreases j - i
  {
    if i < j {
      assert Neutral(chars[i], ctx);
      PastNeutral(chars, i + 1, j, ctx);
    }
  }

  lemma {:induction false} PlainLineStopsEverywhere(chars: string, t: nat, i: nat, ctx: Ctx)
    requires t <= i < |chars| && chars[i] == ctx.chars.expand
    requires forall p :: 0 <= p < |chars| ==> chars[p] == ctx.chars.expand || Neutral(chars[p], ctx)
    requires ctx.chars.expand != '\\' && ctx.chars.expand != '`'
    ensures ScanPast(chars, ScanEnd(chars, t, FRESH, ctx), i, ctx) == i
    decreases i - t
  {
    var e := NextExpand(chars, t, ctx);
    PastNeutral(chars, t, e, ctx);
    if e < i {
      PlainLineStopsEverywhere(chars, e + 1, i, ctx);
    }
  }

  predicate PlainLine(chars: string, ctx: Ctx) {
    && ctx.chars.expand != '\\' && ctx.chars.expand != '`' && ctx.chars.expand != '$'
    && forall p :: 0 <= p < |chars| ==> chars[p] == ctx.chars.expand || Neutral(chars[p], ctx)
  }

  /** In a line without quotes, backslashes and substitutions only a bracket expression inhibits. */
  lemma PlainLineInhibitsOnlyInBrackets(chars: string, i: nat, ctx: Ctx)
    requires i < |chars| && chars[i] == ctx.chars.expand && PlainLine(chars, ctx)
    ensures Inhibited(chars, i, ctx) <==> i > 0 && chars[i - 1] == '[' && ']' in chars[i + 1..]
  {
    hide ScanEnd, ScanPast;
    PlainLineStopsEverywhere(chars, 0, i, ctx);
  }

  function NextExpand(chars: string, t: nat, ctx: Ctx): (e: nat)
    requires t < |chars|
    ensures t <= e <= |chars| && (e < |chars| ==> chars[e] == ctx.chars.expand)
    ensures forall p :: t <= p < e ==> chars[p] != ctx.chars.expand
    decreases |chars| - t
  {
    if chars[t] == ctx.chars.expand then t
    else if t + 1 == |chars| then |chars|
    else NextExpand(chars, t + 1, ctx)
  }

  lemma {:induction false} QuotedSpan(chars: string, i: nat, j: nat)
    requires i <= j < |chars| && chars[j] == '\''
    requires forall p :: i <= p < j ==> chars[p] != '\'' && chars[p] != '\\'
    ensures SingleQuoteEnd(chars, i, true) == j
    decreases j - i
  {
    if i < j {
      QuotedSpan(chars, i + 1, j);
    }
  }

  /** Inside the first single quotes of a line, expansion is inhibited everywhere. */
  lemma SingleQuotesInhibit(chars: string, open: nat, close: nat, i: nat, ctx: Ctx)
    requires open < i < close < |chars| && chars[open] == '\'' == chars[close] && ctx.chars.expand != '\''
    requires forall p :: 0 <= p < open ==> Neutral(chars[p], ctx)
    requires forall p :: open < p < close ==> chars[p] != '\'' && chars[p] != '\\'
    ensures Inhibited(chars, i, ctx)
  {
    PastNeutral(chars, 0, open, ctx);
    QuotedSpan(chars, open + 1, close);
  }
}
