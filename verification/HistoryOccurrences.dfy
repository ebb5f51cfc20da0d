/**
 Whole occurrences of history expansion (src/history_expand.rs): an event name, a word designator and modifiers,
 written one behind the other, are expanded to what they stand for.
 */
module HistoryOccurrences {
  import opened Wrappers
  import opened Sequences
  import opened HistoryScan
  import opened HistoryTokenizer
  import opened HistoryEvents
  import opened HistoryModifiers
  import opened HistoryExpand
  import opened HistoryNames
  import opened HistorySelections
  import opened StampTime
  import opened Substitution

  // ------------------------------------------------------------------------------ modifiers

  /** The modifiers `h`, `t`, `r`, `e`, `q`, `x` and `p`, a substitution with its patterns, and `&` for the one
      before; the last two for all occurrences when a `g` stands in front. At the end of the line the replacement
      may be left open. */
  datatype Modifier =
    | HeadOf | TailOf | RootOf | SuffixOf | InQuotes | InPieces | Printed
    | Replacing(lhs: string, rhs: string, delimiter: char, everywhere: bool, closed: bool)
    | Again(everywhere: bool)

  /** The patterns behind the first delimiter. */
  function PatternsText(lhs: string, rhs: string, delimiter: char, closed: bool): string {
    Escape(lhs, delimiter) + ([delimiter] + (Escape(Escape(rhs, '&'), delimiter) + if closed then [delimiter] else ""))
  }

  function ModifierText(m: Modifier): string {
    match m
    case HeadOf => ":h" case TailOf => ":t" case RootOf => ":r" case SuffixOf => ":e"
    case InQuotes => ":q" case InPieces => ":x" case Printed => ":p"
    case Replacing(lhs, rhs, d, everywhere, closed) =>
      (if everywhere then ":gs" else ":s") + [d] + PatternsText(lhs, rhs, d, closed)
    case Again(everywhere) => if everywhere then ":g&" else ":&"
  }

  function ModifiersText(ms: seq<Modifier>): string {
    if ms == [] then "" else ModifierText(ms[0]) + ModifiersText(ms[1..])
  }

  /** The modifier can be written in front of `rest`: no pattern that is closed ends in a backslash, and there is
      one to look for. */
  predicate Fits(m: Modifier, rest: string) {
    m.Replacing? ==>
      && m.delimiter != '\\' && m.lhs != "" && !EndsInBackslash(m.lhs)
      && if m.closed then !EndsInBackslash(m.rhs) else rest == ""
  }

  predicate AllFit(ms: seq<Modifier>, rest: string) {
    ms == [] || (Fits(ms[0], ModifiersText(ms[1..]) + rest) && AllFit(ms[1..], rest))
  }

  /** The text worked on, what the modifiers ask for, and the patterns of the last substitution. */
  datatype Work = Work(text: string, everywhere: bool, quoting: Quoting, printOnly: bool, engine: Engine)

  function ModsOf(w: Work): Mods { Mods(w.everywhere, false, w.quoting, w.printOnly) }

  /** A substitution with the patterns at hand; nothing when there are none, when the pattern is not found, or when
      it never ends. Once asked for, it is for all occurrences. */
  ghost function Substituted(w: Work): Option<Work> {
    var lhs, rhs := OrEmpty(w.engine.substLhs), OrEmpty(w.engine.substRhs);
    if lhs == "" || !Occurs(lhs, w.text) then None
    else if !w.everywhere then Some(w.(text := FirstReplaced(w.text, lhs, rhs)))
    else
      match SubstOutcome(w.text, lhs, rhs, true, false)
      case Replaced(t) => Some(w.(text := t))
      case _ => None
  }

  ghost function Worked(m: Modifier, w: Work): Option<Work> {
    match m
    case HeadOf => Some(w.(text := Head(w.text)))
    case TailOf => Some(w.(text := Tail(w.text)))
    case RootOf => Some(w.(text := Root(w.text)))
    case SuffixOf => Some(w.(text := Suffix(w.text)))
    case InQuotes => Some(w.(quoting := Quotes))
    case InPieces => Some(w.(quoting := Breaks))
    case Printed => Some(w.(printOnly := true))
    case Replacing(lhs, rhs, _, everywhere, _) =>
      Substituted(w.(everywhere := w.everywhere || everywhere,
                     engine := w.engine.(substLhs := Some(lhs), substRhs := Some(rhs))))
    case Again(everywhere) => Substituted(w.(everywhere := w.everywhere || everywhere))
  }

  ghost function AllWorked(ms: seq<Modifier>, w: Work): Option<Work> {
    if ms == [] then Some(w)
    else
      var first := Worked(ms[0], w);
      if first.None? then None else AllWorked(ms[1..], first.value)
  }

  /** For patterns and replacements that are no trouble, all occurrences are replaced from left to right. */
  lemma EverywhereIsOrdinary(text: string, lhs: string, rhs: string)
    requires lhs != "" && ReplacesOrdinarily(lhs, rhs)
    ensures SubstOutcome(text, lhs, rhs, true, false) ==
            if Occurs(lhs, text) then Replaced(ReplaceAll(lhs, rhs, text)) else NotFound
  {
    OrdinaryOnEveryText(lhs, rhs, text);
    assert !RefindsItself(lhs, rhs);
    if Occurs(lhs, text) {
      GlobalOutcome(text, lhs, rhs, false, ReplaceAll(lhs, rhs, text));
    }
    hide Yields, Occurs, ReplaceAll;
  }

  predicate EndsModifiers(rest: string) { rest == "" || rest[0] != ':' }

  /** The program goes on with the work done, or stops when it cannot be done. */
  ghost predicate GoesOn(r: Modified, chars: string, next: nat, from: nat, done: Option<Work>)
    requires next <= |chars|
  {
    if done.None? then !r.Modified?
    else r == Modify(chars, next, from, ModsOf(done.value), done.value.text, done.value.engine)
  }

  /** How the substitution of the program goes on from what is asked for here. */
  lemma SubstitutionMeans(chars: string, next: nat, from: nat, w: Work)
    requires next <= |chars|
    ensures GoesOn(ModifyBySubstitution(chars, next, from, ModsOf(w), w.text, w.engine), chars, next, from,
          Substituted(w))
  {
    hide Modify, Occurs, FirstReplaced;
    var lhs := OrEmpty(w.engine.substLhs);
    OccursFits(lhs, w.text);
  }

  lemma OccursFits(lhs: string, text: string)
    ensures Occurs(lhs, text) ==> |lhs| <= |text|
  {
  }

  lemma SimpleAt(chars: string, at: nat, from: nat, w: Work, c: char)
    requires at + 1 < |chars| && chars[at] == ':' && chars[at + 1] == c && IsSimple(c)
    ensures Modify(chars, at, from, ModsOf(w), w.text, w.engine) ==
            Modify(chars, at + 2, from, SimpleMods(c, ModsOf(w)), SimpleText(c, w.text), w.engine)
  {
    hide ModifyBySubstitution, WithPatterns, SimpleText, SimpleMods, HistError;
  }

  /** What the letter of a modifier does. */
  lemma WorkedLetter(m: Modifier, w: Work, c: char)
    requires ModifierText(m) == [':', c] && !m.Replacing? && !m.Again?
    ensures var r := Worked(m, w).value;
            IsSimple(c) && SimpleMods(c, ModsOf(w)) == ModsOf(r) && SimpleText(c, w.text) == r.text
            && r.engine == w.engine
  {
    hide Head, Tail, Root, Suffix;
    assert ModifierText(m)[1] == c;
  }

  lemma SimpleModifier(chars: string, at: nat, from: nat, m: Modifier, w: Work, c: char)
    requires at + 1 < |chars| && chars[at] == ':' && chars[at + 1] == c && ModifierText(m) == [':', c]
    requires !m.Replacing? && !m.Again?
    ensures var r := Worked(m, w).value;
            Modify(chars, at, from, ModsOf(w), w.text, w.engine) ==
            Modify(chars, at + 2, from, ModsOf(r), r.text, r.engine)
  {
    WorkedLetter(m, w, c);
    hide Modify, ModifierText, SimpleText, SimpleMods, Head, Tail, Root, Suffix;
    SimpleAt(chars, at, from, w, c);
  }

  lemma LetterAt(chars: string, j: nat, from: nat, w: Work)
    requires j < |chars| && j > 0
    ensures var r := Modify(chars, j - 1, from, ModsOf(w), w.text, w.engine);
            chars[j - 1] == ':' ==>
              && (chars[j] == '&' ==> r == ModifyBySubstitution(chars, j + 1, from, ModsOf(w), w.text, w.engine))
              && (chars[j] == 's' && j + 1 < |chars| ==>
                    var (e, next) := WithPatterns(chars, j + 2, chars[j + 1], w.engine);
                    r == ModifyBySubstitution(chars, next, from, ModsOf(w), w.text, e))
  {
    hide ModifyBySubstitution, WithPatterns, SimpleText, SimpleMods, HistError;
  }

  lemma EverywhereLetterAt(chars: string, j: nat, from: nat, w: Work)
    requires j < |chars| && j > 1 && chars[j - 1] == 'g'
    ensures var r := Modify(chars, j - 2, from, ModsOf(w), w.text, w.engine);
            var m := ModsOf(w.(everywhere := true));
            chars[j - 2] == ':' ==>
              && (chars[j] == '&' ==> r == ModifyBySubstitution(chars, j + 1, from, m, w.text, w.engine))
              && (chars[j] == 's' && j + 1 < |chars| ==>
                    var (e, next) := WithPatterns(chars, j + 2, chars[j + 1], w.engine);
                    r == ModifyBySubstitution(chars, next, from, m, w.text, e))
  {
    hide ModifyBySubstitution, WithPatterns, SimpleText, SimpleMods, HistError;
  }

  /** The letter of a substitution, behind its `g` if it has one. */
  lemma SubstitutionLetter(chars: string, at: nat, from: nat, everywhere: bool, w: Work)
    requires at + 1 < |chars| && chars[at] == ':' && (everywhere ==> at + 2 < |chars| && chars[at + 1] == 'g')
    ensures var j, m := if everywhere then at + 2 else at + 1, ModsOf(w.(everywhere := w.everywhere || everywhere));
            var r := Modify(chars, at, from, ModsOf(w), w.text, w.engine);
            && (chars[j] == '&' ==> r == ModifyBySubstitution(chars, j + 1, from, m, w.text, w.engine))
            && (chars[j] == 's' && j + 1 < |chars| ==>
                  var (e, next) := WithPatterns(chars, j + 2, chars[j + 1], w.engine);
                  r == ModifyBySubstitution(chars, next, from, m, w.text, e))
  {
    hide Modify, ModifyBySubstitution, WithPatterns;
    if everywhere {
      EverywhereLetterAt(chars, at + 2, from, w);
    } else {
      LetterAt(chars, at + 1, from, w);
    }
  }

  lemma AgainModifier(chars: string, at: nat, from: nat, everywhere: bool, rest: string, w: Work)
    requires at <= |chars| && chars[at..] == ModifierText(Again(everywhere)) + rest
    requires at + |ModifierText(Again(everywhere))| <= |chars|
    ensures GoesOn(Modify(chars, at, from, ModsOf(w), w.text, w.engine), chars,
                   at + |ModifierText(Again(everywhere))|, from, Worked(Again(everywhere), w))
  {
    hide Modify, ModifyBySubstitution, Substituted;
    var text := if everywhere then ":g&" else ":&";
    Stands(chars, at, text, rest);
    Begins(chars, at, text, rest);
    assert everywhere ==> chars[at + 2] == text[2];
    SubstitutionLetter(chars, at, from, everywhere, w);
    SubstitutionMeans(chars, at + |text|, from, w.(everywhere := w.everywhere || everywhere));
  }

  /** The patterns and what follows them. */
  function PatternsThen(m: Modifier, rest: string): string
    requires m.Replacing?
  {
    var d := m.delimiter;
    Escape(m.lhs, d) + ([d] + (Escape(Escape(m.rhs, '&'), d) + if m.closed then [d] + rest else ""))
  }

  lemma ReplacingText(m: Modifier, rest: string)
    requires m.Replacing? && (!m.closed ==> rest == "")
    ensures var head := (if m.everywhere then ":gs" else ":s") + [m.delimiter];
            && ModifierText(m) + rest == head + PatternsThen(m, rest)
            && |ModifierText(m)| + |rest| == |head| + |PatternsThen(m, rest)|
  {
    hide Escape;
    var d := m.delimiter;
    var left, right := Escape(m.lhs, d), Escape(Escape(m.rhs, '&'), d);
    var head := (if m.everywhere then ":gs" else ":s") + [d];
    if m.closed {
      assert head + (left + ([d] + (right + [d]))) + rest == head + (left + ([d] + (right + ([d] + rest))));
    } else {
      assert head + (left + ([d] + (right + ""))) + "" == head + (left + ([d] + (right + "")));
    }
  }

  /** The patterns of a substitution that begins at `at` are read as they were meant, up to `end`. */
  predicate PatternsRead(chars: string, at: nat, m: Modifier, end: nat, engine: Engine)
    requires m.Replacing?
  {
    var j := if m.everywhere then at + 2 else at + 1;
    && j + 1 < |chars| && chars[at] == ':' && chars[j] == 's' && (m.everywhere ==> chars[at + 1] == 'g')
    && WithPatterns(chars, j + 2, chars[j + 1], engine)
    == (engine.(substLhs := Some(m.lhs), substRhs := Some(m.rhs)), end)
  }

  lemma PatternsStand(chars: string, at: nat, m: Modifier, rest: string, engine: Engine)
    requires m.Replacing? && Fits(m, rest) && at <= |chars| && chars[at..] == ModifierText(m) + rest
    ensures at + |ModifierText(m)| <= |chars|
    ensures PatternsRead(chars, at, m, at + |ModifierText(m)|, engine)
  {
    hide WithPatterns, Escape, PatternsText, EndsInBackslash;
    assert |chars[at..]| == |ModifierText(m)| + |rest|;
    ReplacingText(m, rest);
    HeadStands(chars, at, m.everywhere, m.delimiter, PatternsThen(m, rest));
    var j := if m.everywhere then at + 2 else at + 1;
    if m.closed {
      PatternsReadBack(chars, j + 2, m.lhs, m.rhs, m.delimiter, rest, engine);
    } else {
      var right := Escape(Escape(m.rhs, '&'), m.delimiter);
      assert right + "" == right;
      OpenPatternsReadBack(chars, j + 2, m.lhs, m.rhs, m.delimiter, engine);
    }
  }

  lemma ReplacingModifier(chars: string, at: nat, end: nat, from: nat, m: Modifier, w: Work)
    requires m.Replacing? && end <= |chars| && PatternsRead(chars, at, m, end, w.engine)
    ensures GoesOn(Modify(chars, at, from, ModsOf(w), w.text, w.engine), chars, end, from, Worked(m, w))
  {
    hide Modify, ModifyBySubstitution, Substituted, WithPatterns;
    SubstitutionLetter(chars, at, from, m.everywhere, w);
    SubstitutionMeans(chars, end, from,
                      w.(everywhere := w.everywhere || m.everywhere,
                         engine := w.engine.(substLhs := Some(m.lhs), substRhs := Some(m.rhs))));
  }

  lemma HeadStands(chars: string, at: nat, everywhere: bool, d: char, patterns: string)
    requires at <= |chars| && chars[at..] == (if everywhere then ":gs" else ":s") + [d] + patterns
    ensures var j := if everywhere then at + 2 else at + 1;
            && j + 2 <= |chars| && chars[at] == ':' && chars[j] == 's' && chars[j + 1] == d
            && (everywhere ==> chars[at + 1] == 'g') && chars[j + 2..] == patterns
  {
    var head := (if everywhere then ":gs" else ":s") + [d];
    Stands(chars, at, head, patterns);
    Begins(chars, at, head, patterns);
    assert chars[at + 2] == head[2] && (everywhere ==> chars[at + 3] == head[3]);
  }

  lemma LetterModifier(chars: string, at: nat, from: nat, m: Modifier, rest: string, w: Work)
    requires at <= |chars| && chars[at..] == ModifierText(m) + rest && !m.Replacing? && !m.Again?
    ensures |ModifierText(m)| == 2 && at + 2 <= |chars|
    ensures GoesOn(Modify(chars, at, from, ModsOf(w), w.text, w.engine), chars, at + 2, from, Worked(m, w))
  {
    OneLetter(m);
    hide Modify, ModifierText, Head, Tail, Root, Suffix;
    Begins(chars, at, ModifierText(m), rest);
    SimpleModifier(chars, at, from, m, w, ModifierText(m)[1]);
  }

  lemma ModifierMeans(chars: string, at: nat, from: nat, m: Modifier, rest: string, w: Work)
    requires at <= |chars| && chars[at..] == ModifierText(m) + rest && Fits(m, rest)
    ensures at + |ModifierText(m)| <= |chars|
    ensures GoesOn(Modify(chars, at, from, ModsOf(w), w.text, w.engine), chars, at + |ModifierText(m)|, from,
          Worked(m, w))
  {
    hide *;
    LongEnough(chars, at, ModifierText(m), rest);
    if m.Replacing? {
      PatternsStand(chars, at, m, rest, w.engine);
      ReplacingModifier(chars, at, at + |ModifierText(m)|, from, m, w);
    } else if m.Again? {
      AgainModifier(chars, at, from, m.everywhere, rest, w);
    } else {
      LetterModifier(chars, at, from, m, rest, w);
    }
  }

  lemma LongEnough(chars: string, at: nat, s: string, rest: string)
    requires at <= |chars| && chars[at..] == s + rest
    ensures at + |s| <= |chars|
  {
    assert |chars[at..]| == |s| + |rest|;
  }

  lemma OneLetter(m: Modifier)
    requires !m.Replacing? && !m.Again?
    ensures |ModifierText(m)| == 2 && ModifierText(m) == [':', ModifierText(m)[1]]
  {
  }

  /** Modifiers are applied one after the other, each to what the one before it gave. */
  lemma {:induction false} ModifiersMean(chars: string, at: nat, from: nat, ms: seq<Modifier>, rest: string, w: Work)
    requires at <= |chars| && chars[at..] == ModifiersText(ms) + rest && EndsModifiers(rest)
    requires AllFit(ms, rest)
    ensures var r, done := Modify(chars, at, from, ModsOf(w), w.text, w.engine), AllWorked(ms, w);
            if done.None? then !r.Modified?
            else
              r == Modified(done.value.text, at + |ModifiersText(ms)|, ModsOf(done.value), done.value.engine)
    decreases |ms|
  {
    hide Modify, Worked, ModifierText, Fits;
    if ms == [] {
      NoModifiers(chars, at, from, rest, w);
    } else {
      FirstModifier(ms, rest);
      hide ModifiersText, EndsModifiers;
      var n := at + |ModifierText(ms[0])|;
      Stands(chars, at, ModifierText(ms[0]), ModifiersText(ms[1..]) + rest);
      ModifierMeans(chars, at, from, ms[0], ModifiersText(ms[1..]) + rest, w);
      if Worked(ms[0], w).Some? {
        ModifiersMean(chars, n, from, ms[1..], rest, Worked(ms[0], w).value);
      }
    }
  }

  lemma FirstModifier(ms: seq<Modifier>, rest: string)
    requires ms != [] && AllFit(ms, rest)
    ensures Fits(ms[0], ModifiersText(ms[1..]) + rest) && AllFit(ms[1..], rest)
    ensures ModifiersText(ms) + rest == ModifierText(ms[0]) + (ModifiersText(ms[1..]) + rest)
    ensures |ModifiersText(ms)| == |ModifierText(ms[0])| + |ModifiersText(ms[1..])|
  {
    hide Fits, ModifierText;
    Assoc(ModifierText(ms[0]), ModifiersText(ms[1..]), rest);
  }

  lemma NoModifiers(chars: string, at: nat, from: nat, rest: string, w: Work)
    requires at <= |chars| && chars[at..] == ModifiersText([]) + rest && EndsModifiers(rest)
    ensures Modify(chars, at, from, ModsOf(w), w.text, w.engine) == Modified(w.text, at, ModsOf(w), w.engine)
  {
    hide Modify;
    assert "" + rest == rest == rest + "";
    Begins(chars, at, rest, "");
    ModifyAt(chars, at, from, ModsOf(w), w.text, w.engine);
  }

  // ---------------------------------------------------------------------------- occurrences

  datatype Written = Written(name: Name, selection: Selection, colon: bool, modifiers: seq<Modifier>)

  /** The text behind the name. */
  function BehindName(o: Written): string { SelectionText(o.selection, o.colon) + ModifiersText(o.modifiers) }

  /** The occurrence behind its expansion character. */
  function WrittenText(o: Written, expand: char): string { NameText(o.name, expand) + BehindName(o) }

  /** The occurrence can be written in front of `rest`. */
  predicate Writable(o: Written, rest: string, expand: char, quote: Option<char>) {
    && Nameable(o.name, BehindName(o) + rest, expand, quote)
    && Selectable(o.selection, o.colon, ModifiersText(o.modifiers) + rest)
    && AllFit(o.modifiers, rest) && EndsModifiers(rest)
  }

  /** What an occurrence comes to: a text, no such event, no such words, or a substitution that does not succeed. */
  datatype Meaning = Means(text: string, printOnly: bool, engine: Engine) | NoEvent | NoWords(engine: Engine) | Fails

  ghost function MeaningOf(o: Written, w: World, soFar: string, engine: Engine): Meaning {
    var line := NamedLine(o.name, w.list, soFar, engine);
    if line.None? then NoEvent
    else
      var after := EngineAfter(o.name, w.list, engine);
      match Selected(o.selection, Words(line.value, Some(w.ctx.chars.comment)), after.searchMatch)
      case NoSuchWords => NoWords(after)
      case choice =>
        var text := if choice.Chosen? then choice.text else line.value;
        match AllWorked(o.modifiers, Work(text, false, Unchanged, false, after))
        case None => Fails
        case Some(r) => Means(HistoryExpand.Quoted(r.text, r.quoting), r.printOnly, r.engine)
  }

  /** The event of an occurrence. */
  lemma EventMeans(chars: string, start: nat, o: Written, rest: string, quote: Option<char>, soFar: string,
      engine: Engine, w: World)
    requires PlainExpand(w.ctx.chars.expand) && CharAt(chars, start, w.ctx.chars.expand)
    requires chars[start + 1..] == NameText(o.name, w.ctx.chars.expand) + (BehindName(o) + rest)
    requires Nameable(o.name, BehindName(o) + rest, w.ctx.chars.expand, quote)
    ensures SourceLine(chars, start, quote, soFar, engine, w) ==
            Event(NamedLine(o.name, w.list, soFar, engine), start + 1 + |NameText(o.name, w.ctx.chars.expand)|,
                  EngineAfter(o.name, w.list, engine))
  {
    var e, more := w.ctx.chars.expand, BehindName(o) + rest;
    hide BehindName, EventAt, EndsName, NewestBeginning, NewestContaining;
    Begins(chars, start + 1, NameText(o.name, e), more);
    match o.name
    case Implied =>
      assert "" + more == more;
      Begins(chars, start + 1, more, "");
      assert more + "" == more;
      PreviousEvent([e, e], 0, None, w.list, engine, e);
    case SoFar => assert "#"[0] == '#';
    case _ =>
      NameStarts(o.name, more, e, quote);
      NameMeans(chars, start, o.name, more, quote, w.list, engine, e);
  }

  /** A name that is looked up begins with none of the characters that stand for one. */
  lemma NameStarts(name: Name, rest: string, expand: char, quote: Option<char>)
    requires ListedName(name) && PlainExpand(expand) && Nameable(name, rest, expand, quote)
    ensures var s := NameText(name, expand); s != "" && s[0] !in ":$*%^#"
  {
    hide Decimal;
    if name.Beginning? {
      assert name.text[0] != '-' ==> !EndsName(name.text[0], quote);
    }
  }

  /** The text of an occurrence from its expansion character on, part by part. */
  lemma Parts(chars: string, start: nat, o: Written, rest: string, expand: char)
    requires CharAt(chars, start, expand) && chars[start + 1..] == WrittenText(o, expand) + rest
    ensures var n := start + 1 + |NameText(o.name, expand)|;
            var m := n + |SelectionText(o.selection, o.colon)|;
            && chars[start + 1..] == NameText(o.name, expand) + (BehindName(o) + rest)
            && n <= m <= |chars|
            && chars[n..] == SelectionText(o.selection, o.colon) + (ModifiersText(o.modifiers) + rest)
            && chars[m..] == ModifiersText(o.modifiers) + rest
            && m + |ModifiersText(o.modifiers)| == start + 1 + |WrittenText(o, expand)|
            && chars[start..n] == [expand] + NameText(o.name, expand)
            && chars[n..m] == SelectionText(o.selection, o.colon)
  {
    hide NameText, SelectionText, ModifiersText;
    var name, selection, mods := NameText(o.name, expand), SelectionText(o.selection, o.colon),
        ModifiersText(o.modifiers);
    Assoc(name, BehindName(o), rest);
    Assoc(selection, mods, rest);
    assert BehindName(o) == selection + mods && WrittenText(o, expand) == name + BehindName(o);
    hide BehindName, WrittenText;
    TextAt(chars, start + 1, name, BehindName(o) + rest);
    TextAt(chars, start + 1 + |name|, selection, mods + rest);
    assert chars[start..start + 1 + |name|] == [chars[start]] + chars[start + 1..start + 1 + |name|];
    WrittenLength(o, expand);
  }

  lemma TextAt(chars: string, at: nat, s: string, rest: string)
    requires at <= |chars| && chars[at..] == s + rest
    ensures at + |s| <= |chars| && chars[at..at + |s|] == s && chars[at + |s|..] == rest
  {
    Stands(chars, at, s, rest);
  }

  lemma WrittenLength(o: Written, expand: char)
    ensures |WrittenText(o, expand)| ==
            |NameText(o.name, expand)| + |SelectionText(o.selection, o.colon)| + |ModifiersText(o.modifiers)|
  {
    hide NameText, SelectionText, ModifiersText;
  }

  function ErrorOf(text: string, kind: ErrorKind): string { text + ": " + ErrorText(kind) }

  lemma WithoutEvent(chars: string, start: nat, quote: Option<char>, soFar: string, engine: Engine, w: World, n: nat)
    requires CharAt(chars, start, w.ctx.chars.expand)
    requires SourceLine(chars, start, quote, soFar, engine, w) == Event(None, n, engine)
    ensures n <= |chars|
    ensures ExpandOne(chars, start, quote, soFar, engine, w) == Failed(ErrorOf(chars[start..n], EventNotFound), engine)
  {
    hide SourceLine, DesignatorAt, Modify;
  }

  /** What comes of an event whose designator is read. */
  lemma WithEvent(chars: string, start: nat, quote: Option<char>, soFar: string, engine: Engine, w: World,
      line: string, n: nat, after: Engine, d: Designation)
    requires CharAt(chars, start, w.ctx.chars.expand)
    requires SourceLine(chars, start, quote, soFar, engine, w) == Event(Some(line), n, after)
    requires n <= |chars| && DesignatorAt(chars, n, line, after.searchMatch, w.ctx.chars.comment) == d
    ensures var r := ExpandOne(chars, start, quote, soFar, engine, w);
            if d.BadWords? then r == Failed(HistError(chars, n, d.at, BadWordSpec), after)
            else
              var done := Modify(chars, d.next, d.next, NO_MODS, if d.words.Some? then d.words.value else line, after);
              if !done.Modified? then !r.Expanded?
              else
                r == Expanded(HistoryExpand.Quoted(done.text, done.mods.quoting), done.next, done.mods.printOnly,
                    done.engine)
  {
    hide SourceLine, DesignatorAt, Modify, HistError;
  }

  lemma ErrorSlice(chars: string, n: nat, m: nat, kind: ErrorKind)
    requires n <= m <= |chars|
    ensures HistError(chars, n, m, kind) == ErrorOf(chars[n..m], kind)
  {
    hide ErrorText;
  }

  /** What comes of the modifiers behind an event and its words. */
  lemma ModifiedMeans(chars: string, m: nat, ms: seq<Modifier>, rest: string, text: string, after: Engine)
    requires m <= |chars| && chars[m..] == ModifiersText(ms) + rest && EndsModifiers(rest) && AllFit(ms, rest)
    ensures var done := AllWorked(ms, Work(text, false, Unchanged, false, after));
            var r := Modify(chars, m, m, NO_MODS, text, after);
            if done.None? then !r.Modified?
            else r == Modified(done.value.text, m + |ModifiersText(ms)|, ModsOf(done.value), done.value.engine)
  {
    hide Modify, AllWorked, ModifiersText;
    ModifiersMean(chars, m, m, ms, rest, Work(text, false, Unchanged, false, after));
  }

  /**
   An occurrence is expanded to what it means, and ends where its text ends. If there is no such event, or if
   the event has no such words, the error names the part that failed.
   */
  lemma OccurrenceMeans(chars: string, start: nat, o: Written, rest: string, quote: Option<char>, soFar: string,
      engine: Engine, w: World)
    requires PlainExpand(w.ctx.chars.expand) && CharAt(chars, start, w.ctx.chars.expand)
    requires chars[start + 1..] == WrittenText(o, w.ctx.chars.expand) + rest
    requires Writable(o, rest, w.ctx.chars.expand, quote)
    ensures var e := w.ctx.chars.expand;
            var r := ExpandOne(chars, start, quote, soFar, engine, w);
            match MeaningOf(o, w, soFar, engine)
            case Means(text, printOnly, after) =>
              r == Expanded(text, start + 1 + |WrittenText(o, e)|, printOnly, after)
            case NoEvent => r == Failed(ErrorOf([e] + NameText(o.name, e), EventNotFound), engine)
            case NoWords(after) => r == Failed(ErrorOf(SelectionText(o.selection, o.colon), BadWordSpec), after)
            case Fails => !r.Expanded?
  {
    var e := w.ctx.chars.expand;
    hide SourceLine, NameText, Nameable, WrittenText, Modify, DesignatorAt, Words, Selected, AllWorked;
    hide SelectionText, ModifiersText, Selectable, ExpandOne, NamedLine, EngineAfter, ErrorOf, HistError;
    Parts(chars, start, o, rest, e);
    hide BehindName;
    EventMeans(chars, start, o, rest, quote, soFar, engine, w);
    var line, after := NamedLine(o.name, w.list, soFar, engine), EngineAfter(o.name, w.list, engine);
    var n := start + 1 + |NameText(o.name, e)|;
    var m := n + |SelectionText(o.selection, o.colon)|;
    if line.None? {
      NoEventKeepsEngine(o.name, w.list, soFar, engine);
      WithoutEvent(chars, start, quote, soFar, engine, w, n);
    } else {
      SelectionMeans(chars, n, o.selection, o.colon, ModifiersText(o.modifiers) + rest, line.value,
                     after.searchMatch, w.ctx.chars.comment);
      var choice := Selected(o.selection, Words(line.value, Some(w.ctx.chars.comment)), after.searchMatch);
      var d := AsDesignation(choice, n, m);
      WithEvent(chars, start, quote, soFar, engine, w, line.value, n, after, d);
      ErrorSlice(chars, n, m, BadWordSpec);
      ModifiedMeans(chars, m, o.modifiers, rest, if choice.Chosen? then choice.text else line.value, after);
    }
  }

  lemma NoEventKeepsEngine(name: Name, list: Snapshot, soFar: string, engine: Engine)
    ensures NamedLine(name, list, soFar, engine).None? ==> EngineAfter(name, list, engine) == engine
  {
  }
}
