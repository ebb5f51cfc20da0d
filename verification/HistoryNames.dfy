/**
 How events and their words are written in a line, and what they mean (src/history_expand.rs): every way to
 write an event name or a word designator is read as the line or the words it stands for.
 */
module HistoryNames {
  import opened Chars
  import opened Wrappers
  import opened Sequences
  import opened HistoryScan
  import opened HistoryTokenizer
  import opened HistoryEvents
  import opened StampTime
  import opened Substitution
  import HistorySpec

  // --------------------------------------------------------------------- reading at a place

  /** Characters of a line are those of the text known to stand there. */
  lemma Stands(chars: string, at: nat, s: string, rest: string)
    requires at <= |chars| && chars[at..] == s + rest
    ensures at + |s| <= |chars| && chars[at + |s|..] == rest
    ensures forall k :: 0 <= k < |s| ==> chars[at + k] == s[k]
    ensures rest == "" ==> at + |s| == |chars|
    ensures rest != "" ==> at + |s| < |chars| && chars[at + |s|] == rest[0]
    ensures |rest| > 1 ==> at + |s| + 1 < |chars| && chars[at + |s| + 1] == rest[1]
    ensures |rest| == 1 ==> at + |s| + 1 == |chars|
  {
    assert forall k :: 0 <= k < |chars| - at ==> chars[at + k] == chars[at..][k];
    assert chars[at..][|s|..] == chars[at + |s|..];
  }

  /** Its first characters. */
  lemma Begins(chars: string, at: nat, s: string, rest: string)
    requires at <= |chars| && chars[at..] == s + rest
    ensures s != "" ==> at < |chars| && chars[at] == s[0]
    ensures |s| > 1 ==> at + 1 < |chars| && chars[at + 1] == s[1]
  {
    Stands(chars, at, s, rest);
    assert s != "" ==> chars[at + 0] == s[0];
  }

  predicate NoDigit(rest: string) { rest == "" || !IsDigit(rest[0]) }

  lemma NumberStands(chars: string, at: nat, n: nat, rest: string)
    requires at <= |chars| && chars[at..] == Decimal(n) + rest && NoDigit(rest)
    ensures DigitAt(chars, at) && NumberAt(chars, at) == n && DigitsEnd(chars, at) == at + |Decimal(n)|
  {
    hide Decimal, NumberAt, DigitsEnd;
    assert chars == chars[..at] + (Decimal(n) + rest);
    NumberOfDecimal(chars[..at], n, rest);
  }

  // ------------------------------------------------------------------------------- events

  /** The ways to name an event: `!!`; `!` alone in front of a word designator or a modifier; `!n`; `!-n`; `!text`;
      `!?text?`, in which no text stands for the one sought last; and `!#`. */
  datatype Name =
    | Previous | Implied | Numbered(n: nat) | Back(n: nat)
    | Beginning(text: string) | Containing(text: string) | SoFar

  /** The name behind the expansion character. */
  function NameText(name: Name, expand: char): string {
    match name
    case Previous => [expand]
    case Implied => ""
    case Numbered(n) => Decimal(n)
    case Back(n) => "-" + Decimal(n)
    case Beginning(text) => text
    case Containing(text) => "?" + text + "?"
    case SoFar => "#"
  }

  /** Characters that end the text of a `!text`; a hyphen may begin one. */
  const NAME_ENDS: string := " \t\n\r\U{0b}\U{0c}:^$*%-;&()|<>"

  predicate EndsName(c: char, quote: Option<char>) { c in NAME_ENDS || quote == Some(c) }

  /** An expansion character that means nothing else where names are read. */
  predicate PlainExpand(c: char) { !IsDigit(c) && c !in "-?#:$*%^" }

  /** The name can be written in front of `rest`. */
  predicate Nameable(name: Name, rest: string, expand: char, quote: Option<char>) {
    match name
    case Previous => true
    case Implied => rest != "" && rest[0] in ":$*%^"
    case Numbered(_) => NoDigit(rest)
    case Back(_) => NoDigit(rest)
    case Beginning(text) =>
      && text != "" && text[0] != expand && !IsDigit(text[0]) && text[0] !in "?#"
      && (text[0] == '-' ==> |text| > 1 && !IsDigit(text[1]))
      && (text[0] != '-' ==> !EndsName(text[0], quote)) && quote != Some(text[0])
      && (forall k :: 1 <= k < |text| ==> !EndsName(text[k], quote))
      && (rest == "" || EndsName(rest[0], quote))
    case Containing(text) => '?' !in text && '\n' !in text
    case SoFar => true
  }

  /** The newest line that begins with `text`, and the newest that has it. */
  function NewestBeginning(lines: seq<string>, text: string): Option<string> {
    if lines == [] then None
    else if text <= lines[|lines| - 1] then Some(lines[|lines| - 1])
    else NewestBeginning(lines[..|lines| - 1], text)
  }

  function NewestContaining(lines: seq<string>, text: string): Option<string> {
    if lines == [] then None
    else if Occurs(text, lines[|lines| - 1]) then Some(lines[|lines| - 1])
    else NewestContaining(lines[..|lines| - 1], text)
  }

  /** What `!?text?` looks for. */
  function Sought(text: string, engine: Engine): Option<string> {
    if text != "" then Some(text)
    else if engine.searchString == Some("") then None
    else engine.searchString
  }

  /** The line a name stands for, when there is one. (The numbers of a session's list begin at 1 or later.) */
  function NamedLine(name: Name, list: Snapshot, soFar: string, engine: Engine): Option<string> {
    var lines, n := list.lines, |list.lines|;
    match name
    case Previous => if lines == [] then None else Some(lines[n - 1])
    case Implied => if lines == [] then None else Some(lines[n - 1])
    case Numbered(k) => if list.base <= k < list.base + n then Some(lines[k - list.base]) else None
    case Back(k) => if 1 <= k <= n && k < n + list.base then Some(lines[n - k]) else None
    case Beginning(text) => NewestBeginning(lines, text)
    case Containing(text) =>
      var sought := Sought(text, engine);
      if sought.None? then None else NewestContaining(lines, sought.value)
    case SoFar => Some(soFar)
  }

  /** What a name leaves for the next ones: a text sought and found, and the word around it. */
  function EngineAfter(name: Name, list: Snapshot, engine: Engine): Engine {
    match name
    case Containing(text) =>
      var line := NamedLine(name, list, "", engine);
      if line.None? then engine
      else
        var sought := Sought(text, engine).value;
        engine.(searchString := Some(sought), searchMatch := MatchedWord(line.value, sought))
    case _ => engine
  }

  lemma {:induction false} NewestLine(lines: seq<string>, text: string, substring: bool)
    ensures var k := Newest(lines, text, substring);
            (if k.Some? then Some(lines[k.value]) else None) ==
            if substring then NewestContaining(lines, text) else NewestBeginning(lines, text)
    decreases |lines|
  {
    hide Occurs;
    if lines != [] {
      NewestLine(lines[..|lines| - 1], text, substring);
    }
  }

  /** Which characters end a search text. */
  lemma PatternEnders(c: char, first: bool, quote: Option<char>)
    ensures EndsPattern(c, first, false, quote) <==> (EndsName(c, None) && !(first && c == '-')) || quote == Some(c)
    ensures EndsPattern(c, first, true, quote) <==> c == '?' || c == '\n'
  {
  }

  lemma PatternEndIs(chars: string, from: nat, end: nat, substring: bool, quote: Option<char>)
    requires from <= end <= |chars|
    requires forall p :: from <= p < end ==> !EndsPattern(chars[p], p == from, substring, quote)
    requires end < |chars| ==> EndsPattern(chars[end], end == from, substring, quote)
    ensures PatternEnd(chars, from, from, substring, quote) == end
  {
    hide EndsPattern;
    var e := PatternEnd(chars, from, from, substring, quote);
  }

  /** The end of a `!text`. */
  lemma BeginningEnds(chars: string, at: nat, text: string, rest: string, expand: char, quote: Option<char>)
    requires at <= |chars| && chars[at..] == text + rest && Nameable(Beginning(text), rest, expand, quote)
    ensures PatternEnd(chars, at, at, false, quote) == at + |text| && chars[at..at + |text|] == text
  {
    Stands(chars, at, text, rest);
    hide EndsName, EndsPattern, IsDigit;
    forall p | at <= p < at + |text| ensures !EndsPattern(chars[p], p == at, false, quote) {
      PatternEnders(chars[p], p == at, quote);
      QuoteEndsName(chars[p], quote);
      assert chars[p] == text[p - at];
    }
    if rest != "" {
      PatternEnders(rest[0], false, quote);
      QuoteEndsName(rest[0], quote);
    }
    PatternEndIs(chars, at, at + |text|, false, quote);
    assert chars[at..at + |text|] == chars[at..][..|text|];
  }

  lemma QuoteEndsName(c: char, quote: Option<char>)
    ensures EndsName(c, quote) <==> EndsName(c, None) || quote == Some(c)
  {
  }

  lemma ContainingEnds(chars: string, at: nat, text: string, rest: string, quote: Option<char>)
    requires at <= |chars| && chars[at..] == text + ("?" + rest) && '?' !in text && '\n' !in text
    ensures PatternEnd(chars, at, at, true, quote) == at + |text| && chars[at..at + |text|] == text
    ensures CharAt(chars, at + |text|, '?')
  {
    Stands(chars, at, text, "?" + rest);
    hide EndsPattern;
    forall p | at <= p < at + |text| ensures !EndsPattern(chars[p], p == at, true, quote) {
      PatternEnders(chars[p], p == at, quote);
      assert chars[p] in text;
    }
    PatternEnders('?', text == "", quote);
    PatternEndIs(chars, at, at + |text|, true, quote);
    assert chars[at..at + |text|] == chars[at..][..|text|];
  }

  predicate ListedName(name: Name) { !name.Implied? && !name.SoFar? }

  /** How the text of a `!text` begins. */
  lemma TextBegins(text: string, rest: string, expand: char, quote: Option<char>)
    requires Nameable(Beginning(text), rest, expand, quote)
    ensures text != "" && text[0] != expand && !IsDigit(text[0]) && text[0] != '?'
    ensures text[0] == '-' ==> |text| > 1 && !IsDigit(text[1])
  {
    hide EndsName, IsDigit;
  }

  lemma PrefixSearch(chars: string, i: nat, quote: Option<char>, list: Snapshot, engine: Engine, text: string)
    requires i <= |chars| && !CharAt(chars, i, '?')
    requires chars[i..PatternEnd(chars, i, i, false, quote)] == text
    ensures var k := Newest(list.lines, text, false);
            SearchedEvent(chars, i, quote, list, engine) ==
            Event(if k.Some? then Some(list.lines[k.value]) else None, PatternEnd(chars, i, i, false, quote), engine)
  {
    hide Newest, PatternEnd, MatchedWord;
  }

  lemma SubstringSearch(chars: string, i: nat, quote: Option<char>, list: Snapshot, engine: Engine, end: nat)
    requires CharAt(chars, i, '?') && end == PatternEnd(chars, i + 1, i + 1, true, quote) && CharAt(chars, end, '?')
    ensures var sought := Sought(chars[i + 1..end], engine);
            var k := if sought.Some? then Newest(list.lines, sought.value, true) else None;
            SearchedEvent(chars, i, quote, list, engine) ==
            if k.None? then Event(None, end + 1, engine)
            else
              var line := list.lines[k.value];
              Event(Some(line), end + 1,
                    engine.(searchString := sought, searchMatch := MatchedWord(line, sought.value)))
  {
    hide Newest, PatternEnd, MatchedWord;
    assert chars[i + 1..end] == "" <==> end == i + 1;
  }

  lemma BeginningMeans(chars: string, at: nat, text: string, rest: string, quote: Option<char>, list: Snapshot,
      engine: Engine, expand: char)
    requires at <= |chars| && chars[at..] == text + rest && Nameable(Beginning(text), rest, expand, quote)
    ensures SearchedEvent(chars, at, quote, list, engine) ==
            Event(NewestBeginning(list.lines, text), at + |text|, engine)
  {
    hide Newest, NewestBeginning, PatternEnd, SearchedEvent, Nameable, IsDigit;
    BeginningEnds(chars, at, text, rest, expand, quote);
    TextBegins(text, rest, expand, quote);
    Begins(chars, at, text, rest);
    PrefixSearch(chars, at, quote, list, engine, text);
    NewestLine(list.lines, text, false);
  }

  lemma ContainingMeans(chars: string, at: nat, text: string, rest: string, quote: Option<char>, list: Snapshot,
      engine: Engine, expand: char)
    requires at <= |chars| && chars[at..] == "?" + text + "?" + rest
    requires Nameable(Containing(text), rest, expand, quote)
    ensures var name := Containing(text);
            SearchedEvent(chars, at, quote, list, engine) ==
            Event(NamedLine(name, list, "", engine), at + |text| + 2, EngineAfter(name, list, engine))
  {
    hide Newest, NewestContaining, PatternEnd, EndsName, SearchedEvent;
    assert "?" + text + "?" + rest == "?" + (text + ("?" + rest));
    Stands(chars, at, "?", text + ("?" + rest));
    Begins(chars, at, "?", text + ("?" + rest));
    ContainingEnds(chars, at + 1, text, rest, quote);
    SubstringSearch(chars, at, quote, list, engine, at + 1 + |text|);
    var sought := Sought(text, engine);
    if sought.Some? {
      NewestLine(list.lines, sought.value, true);
    }
  }

  lemma NumberedEventAt(chars: string, at: nat, quote: Option<char>, list: Snapshot, engine: Engine, expand: char,
      back: bool)
    requires CharAt(chars, at, expand) && !CharAt(chars, at + 1, expand)
    requires CharAt(chars, at + 1, '-') == back && DigitAt(chars, if back then at + 2 else at + 1)
    ensures var i := if back then at + 2 else at + 1;
            var n := NumberAt(chars, i);
            EventAt(chars, at, quote, list, engine, expand) ==
            Event(NamedLine(if back then Back(n) else Numbered(n), list, "", engine), DigitsEnd(chars, i), engine)
  {
    hide NumberAt, DigitsEnd, IsDigit, NewestBeginning, NewestContaining;
  }

  lemma NumberedMeans(chars: string, at: nat, n: nat, back: bool, rest: string, quote: Option<char>, list: Snapshot,
      engine: Engine, expand: char)
    requires PlainExpand(expand) && CharAt(chars, at, expand) && NoDigit(rest)
    requires chars[at + 1..] == (if back then "-" else "") + Decimal(n) + rest
    ensures var name := if back then Back(n) else Numbered(n);
            EventAt(chars, at, quote, list, engine, expand) ==
            Event(NamedLine(name, list, "", engine), at + 1 + |NameText(name, expand)|, engine)
  {
    hide Decimal, NumberAt, DigitsEnd, IsDigit, EventAt, NamedLine, PlainExpand;
    var d := Decimal(n);
    if back {
      assert "-" + d + rest == "-" + (d + rest);
      Stands(chars, at + 1, "-", d + rest);
      assert chars[at + 1 + 0] == "-"[0];
      NumberStands(chars, at + 2, n, rest);
      HyphenIsNothingElse(expand);
      assert |"-" + d| == 1 + |d|;
    } else {
      assert "" + d + rest == d + rest;
      NumberStands(chars, at + 1, n, rest);
      DigitIsNothingElse(chars[at + 1], expand);
    }
    NumberedEventAt(chars, at, quote, list, engine, expand, back);
  }

  lemma HyphenIsNothingElse(expand: char)
    requires PlainExpand(expand)
    ensures expand != '-'
  {
  }

  lemma DigitIsNothingElse(c: char, expand: char)
    requires IsDigit(c) && PlainExpand(expand)
    ensures c != expand && c != '-'
  {
  }

  lemma SearchedEventAt(chars: string, at: nat, quote: Option<char>, list: Snapshot, engine: Engine, expand: char)
    requires CharAt(chars, at, expand) && !CharAt(chars, at + 1, expand) && !DigitAt(chars, at + 1)
    requires !(CharAt(chars, at + 1, '-') && DigitAt(chars, at + 2))
    ensures EventAt(chars, at, quote, list, engine, expand) == SearchedEvent(chars, at + 1, quote, list, engine)
  {
    hide SearchedEvent;
  }

  lemma NumberEnds(name: Name, rest: string, expand: char, quote: Option<char>)
    requires Nameable(name, rest, expand, quote)
    ensures name.Numbered? || name.Back? ==> NoDigit(rest)
  {
  }

  lemma QuestionIsNothingElse(expand: char)
    requires PlainExpand(expand)
    ensures expand != '?' && !IsDigit('?')
  {
  }

  /** A name that is looked up in the list is read as the line it stands for, and no further than it reaches. */
  lemma NameMeans(chars: string, at: nat, name: Name, rest: string, quote: Option<char>, list: Snapshot,
      engine: Engine, expand: char)
    requires PlainExpand(expand) && CharAt(chars, at, expand) && ListedName(name)
    requires chars[at + 1..] == NameText(name, expand) + rest && Nameable(name, rest, expand, quote)
    ensures EventAt(chars, at, quote, list, engine, expand) ==
            Event(NamedLine(name, list, "", engine), at + 1 + |NameText(name, expand)|,
                  EngineAfter(name, list, engine))
  {
    hide Decimal, NumberAt, DigitsEnd, NewestBeginning, NewestContaining, SearchedEvent, EventAt, Nameable, IsDigit;
    Begins(chars, at + 1, NameText(name, expand), rest);
    if name.Beginning? {
      TextBegins(name.text, rest, expand, quote);
    } else {
      NumberEnds(name, rest, expand, quote);
    }
    match name
    case Previous =>
      PreviousEvent(chars, at, quote, list, engine, expand);
    case Numbered(n) =>
      assert Decimal(n) + rest == "" + Decimal(n) + rest;
      NumberedMeans(chars, at, n, false, rest, quote, list, engine, expand);
    case Back(n) => NumberedMeans(chars, at, n, true, rest, quote, list, engine, expand);
    case Beginning(text) =>
      SearchedEventAt(chars, at, quote, list, engine, expand);
      BeginningMeans(chars, at + 1, text, rest, quote, list, engine, expand);
    case Containing(text) =>
      assert ("?" + text + "?")[0] == '?';
      QuestionIsNothingElse(expand);
      SearchedEventAt(chars, at, quote, list, engine, expand);
      ContainingMeans(chars, at + 1, text, rest, quote, list, engine, expand);
  }
}
