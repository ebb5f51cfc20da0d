/**
 How words of an event are written in a line, and what they mean (src/history_expand.rs): every word designator
 is read as a stretch of the words of the event.
 */
module HistorySelections {
  import opened Chars
  import opened Wrappers
  import opened HistoryScan
  import opened HistoryTokenizer
  import opened HistoryEvents
  import opened HistoryNames
  import opened StampTime

  /** The first word of a range: a number, the first argument `^`, or word 0 when nothing is written. */
  datatype First = Nth(n: nat) | Caret | Zero

  /** Its last word: the first itself, the last of all `*`, the first argument `^`, `-n`, `-$`, `-^`, or `-` alone
      for all but the last. */
  datatype Last = Same | Star | ToCaret | DashNth(n: nat) | DashDollar | DashCaret | Dash

  /** A word designator: none, a range, the last word `$`, all arguments `*`, or the word `%` sought last. */
  datatype Selection = Whole | Range(first: First, last: Last) | LastWord | Arguments | Matched

  function FirstText(first: First): string {
    match first case Nth(n) => Decimal(n) case Caret => "^" case Zero => ""
  }

  function LastText(last: Last): string {
    match last
    case Same => "" case Star => "*" case ToCaret => "^"
    case DashNth(n) => "-" + Decimal(n) case DashDollar => "-$" case DashCaret => "-^" case Dash => "-"
  }

  function SelectionText(s: Selection, colon: bool): string {
    match s
    case Whole => ""
    case Range(first, last) => (if colon then ":" else "") + (FirstText(first) + LastText(last))
    case LastWord => if colon then ":$" else "$"
    case Arguments => if colon then ":*" else "*"
    case Matched => if colon then ":%" else "%"
  }

  predicate StartsDesignator(rest: string) {
    || (rest != "" && rest[0] in "%*$-^")
    || (|rest| > 1 && rest[0] == ':' && (rest[1] in "%*$-^" || IsDigit(rest[1])))
  }

  predicate FirstFits(first: First, last: Last, colon: bool) {
    match first
    case Nth(_) => colon
    case Caret => true
    case Zero => last.DashNth? || last.DashDollar? || last.DashCaret? || last.Dash?
  }

  predicate LastFits(first: First, last: Last, rest: string) {
    match last
    case Same => (rest == "" || rest[0] !in "^*-") && (first.Nth? ==> NoDigit(rest))
    case DashNth(_) => NoDigit(rest)
    case Dash => NoDigit(rest) && (rest == "" || rest[0] !in "$^")
    case _ => true
  }

  /** The designator can be written in front of `rest`; a number needs the colon. */
  predicate Selectable(s: Selection, colon: bool, rest: string) {
    match s
    case Whole => !StartsDesignator(rest)
    case Range(first, last) => FirstFits(first, last, colon) && LastFits(first, last, rest)
    case _ => true
  }

  /** The words chosen, none because there is no designator, or a bad designator. */
  datatype Choice = Chosen(text: string) | Everything | NoSuchWords

  function FirstNumber(first: First): nat { match first case Nth(n) => n case Caret => 1 case Zero => 0 }

  /** The words of a range among `words`. */
  function RangeOf(first: First, last: Last, words: seq<string>): Choice {
    var a, n := FirstNumber(first), |words|;
    match last
    case Same => if a < n then Chosen(words[a]) else NoSuchWords
    case Star => if a < n then Chosen(Join(words[a..])) else NoSuchWords
    case DashDollar => if a < n then Chosen(Join(words[a..])) else NoSuchWords
    case ToCaret => if a <= 1 < n then Chosen(Join(words[a..2])) else NoSuchWords
    case DashCaret => if a <= 1 < n then Chosen(Join(words[a..2])) else NoSuchWords
    case DashNth(b) => if a <= b < n then Chosen(Join(words[a..b + 1])) else NoSuchWords
    case Dash => if a < n then Chosen(Join(words[a..n - 1])) else NoSuchWords
  }

  function Selected(s: Selection, words: seq<string>, matched: Option<string>): Choice {
    match s
    case Whole => Everything
    case Range(first, last) => RangeOf(first, last, words)
    case LastWord => if words == [] then Everything else Chosen(words[|words| - 1])
    case Arguments => Chosen(if |words| > 1 then Join(words[1..]) else "")
    case Matched => Chosen(OrEmpty(matched))
  }

  function AsDesignation(c: Choice, at: nat, end: nat): Designation {
    match c
    case Chosen(text) => Designated(Some(text), end)
    case Everything => Designated(None, end)
    case NoSuchWords => BadWords(end)
  }

  // ------------------------------------------------------------------------------- ranges

  lemma JoinOne(words: seq<string>, a: nat)
    requires a < |words|
    ensures Join(words[a..a + 1]) == words[a]
  {
  }

  /** The number the end of a range stands for, and where it ends. */
  function LastNumber(first: First, last: Last): int {
    match last
    case Same => FirstNumber(first)
    case Star => DOLLAR
    case DashDollar => DOLLAR
    case ToCaret => 1
    case DashCaret => 1
    case DashNth(b) => b
    case Dash => -1
  }

  lemma RangeEnds(chars: string, at: nat, first: First, last: Last, rest: string)
    requires at <= |chars| && chars[at..] == LastText(last) + rest && LastFits(first, last, rest)
    ensures RangeEndAt(chars, at, FirstNumber(first)) == RangeEnd(LastNumber(first, last), at + |LastText(last)|)
  {
    hide Decimal, NumberAt, DigitsEnd;
    Stands(chars, at, LastText(last), rest);
    Begins(chars, at, LastText(last), rest);
    match last
    case Same =>
    case Star => assert LastText(last)[0] == '*';
    case ToCaret => assert LastText(last)[0] == '^';
    case DashNth(n) =>
      assert "-" + Decimal(n) + rest == "-" + (Decimal(n) + rest);
      Stands(chars, at, "-", Decimal(n) + rest);
      NumberStands(chars, at + 1, n, rest);
    case DashDollar => assert LastText(last)[0] == '-' && LastText(last)[1] == '$';
    case DashCaret => assert LastText(last)[0] == '-' && LastText(last)[1] == '^';
    case Dash => assert LastText(last)[0] == '-';
  }

  lemma RangeChosen(first: First, last: Last, from: string, comment: char)
    ensures var a, b, words := FirstNumber(first), LastNumber(first, last), Words(from, Some(comment));
            (if b >= a || b < 0 then
              (match ArgExtract(a, b, from, comment) case Some(t) => Chosen(t) case None => NoSuchWords)
            else NoSuchWords) == RangeOf(first, last, words)
  {
    hide Words, Join;
    var a, words := FirstNumber(first), Words(from, Some(comment));
    if a < |words| {
      JoinOne(words, a);
      assert words[a..|words|] == words[a..];
    }
  }

  /** A range behind its first word. */
  lemma RangeMeans(chars: string, at: nat, first: First, last: Last, rest: string, from: string, comment: char)
    requires at <= |chars| && chars[at..] == LastText(last) + rest && LastFits(first, last, rest)
    ensures var choice := RangeOf(first, last, Words(from, Some(comment)));
            RangeAt(chars, at, FirstNumber(first), from, comment) ==
            AsDesignation(choice, at, at + |LastText(last)|)
  {
    RangeEnds(chars, at, first, last, rest);
    RangeChosen(first, last, from, comment);
    hide Words, ArgExtract, RangeOf, RangeEndAt, LastText;
  }

  // --------------------------------------------------------------------------- designators

  /** What a designator is by its first character behind the colon. */
  lemma DesignatorCases(chars: string, at: nat, colon: bool, from: string, matched: Option<string>, comment: char)
    requires at <= |chars| && (colon <==> CharAt(chars, at, ':'))
    ensures var i := if colon then at + 1 else at;
            var d := DesignatorAt(chars, at, from, matched, comment);
            && (CharAt(chars, i, '%') ==> d == Designated(Some(OrEmpty(matched)), i + 1))
            && (CharAt(chars, i, '*') ==> d == Designated(Some(OrEmpty(ArgExtract(1, DOLLAR, from, comment))), i + 1))
            && (CharAt(chars, i, '$') ==> d == Designated(ArgExtract(DOLLAR, DOLLAR, from, comment), i + 1))
            && (CharAt(chars, i, '-') ==> d == RangeAt(chars, i, 0, from, comment))
            && (CharAt(chars, i, '^') ==> d == RangeAt(chars, i + 1, 1, from, comment))
            && (colon && DigitAt(chars, i) ==>
                  d == RangeAt(chars, DigitsEnd(chars, i), NumberAt(chars, i), from, comment))
            && (i == |chars| || (chars[i] !in "%*$-^" && !(colon && DigitAt(chars, i))) ==> d == Designated(None, at))
  {
    hide ArgExtract, RangeAt, NumberAt, DigitsEnd;
  }

  lemma ExtractedWords(from: string, comment: char)
    ensures var words := Words(from, Some(comment));
            && OrEmpty(ArgExtract(1, DOLLAR, from, comment)) == (if |words| > 1 then Join(words[1..]) else "")
            && ArgExtract(DOLLAR, DOLLAR, from, comment) == (if words == [] then None else Some(words[|words| - 1]))
  {
    hide Words, Join;
    var words := Words(from, Some(comment));
    if words != [] {
      JoinOne(words, |words| - 1);
      assert words[1..|words|] == words[1..];
    }
  }

  lemma ColonFirst(s: string, rest: string, colon: bool)
    ensures (if colon then ":" else "") + s + rest == (if colon then ":" + (s + rest) else s + rest)
  {
  }

  /** The text behind a colon, if there is one. */
  lemma BehindColon(chars: string, at: nat, colon: bool, s: string, rest: string)
    requires at <= |chars| && chars[at..] == (if colon then ":" else "") + s + rest
    ensures var i := if colon then at + 1 else at; i <= |chars| && chars[i..] == s + rest
    ensures colon ==> CharAt(chars, at, ':')
    ensures !colon && s != "" ==> (CharAt(chars, at, ':') <==> s[0] == ':')
  {
    ColonFirst(s, rest, colon);
    if colon {
      Stands(chars, at, ":", s + rest);
      Begins(chars, at, ":", s + rest);
    } else {
      Begins(chars, at, s, rest);
    }
  }

  lemma RangeHead(first: First, last: Last, colon: bool)
    requires FirstFits(first, last, colon)
    ensures var s := FirstText(first) + LastText(last);
            && s != "" && s[0] != ':'
            && (first.Caret? ==> s[0] == '^') && (first.Zero? ==> s[0] == '-')
            && (first.Nth? ==> IsDigit(s[0]))
  {
    hide Decimal;
  }

  lemma NumberThenLast(n: nat, last: Last, rest: string)
    requires LastFits(Nth(n), last, rest)
    ensures NoDigit(LastText(last) + rest)
  {
    hide Decimal;
    assert last.Same? ==> LastText(last) + rest == rest;
  }

  /** What a designator is that begins a range. */
  lemma RangeCases(chars: string, at: nat, first: First, colon: bool, from: string, matched: Option<string>,
      comment: char)
    requires at <= |chars| && (colon <==> CharAt(chars, at, ':'))
    ensures var i := if colon then at + 1 else at;
            var d := DesignatorAt(chars, at, from, matched, comment);
            match first
            case Nth(_) => colon && DigitAt(chars, i) ==>
              d == RangeAt(chars, DigitsEnd(chars, i), NumberAt(chars, i), from, comment)
            case Caret => CharAt(chars, i, '^') ==> d == RangeAt(chars, i + 1, 1, from, comment)
            case Zero => CharAt(chars, i, '-') ==> d == RangeAt(chars, i, 0, from, comment)
  {
    hide DesignatorAt, RangeAt, NumberAt, DigitsEnd;
    DesignatorCases(chars, at, colon, from, matched, comment);
  }

  /** The first word of a range stands at `i` and ends at `j`. */
  predicate RangeBegins(chars: string, i: nat, j: nat, first: First) {
    && i < |chars| && j <= |chars|
    && match first
       case Nth(n) => IsDigit(chars[i]) && NumberAt(chars, i) == n && DigitsEnd(chars, i) == j
       case Caret => chars[i] == '^' && j == i + 1
       case Zero => chars[i] == '-' && j == i
  }

  /** A range behind its colon is read from the end of its first word on. */
  lemma RangeStarts(chars: string, at: nat, i: nat, j: nat, first: First, colon: bool, from: string,
      matched: Option<string>, comment: char)
    requires i == (if colon then at + 1 else at) && RangeBegins(chars, i, j, first)
    requires (first.Nth? ==> colon) && (colon <==> CharAt(chars, at, ':'))
    ensures DesignatorAt(chars, at, from, matched, comment) == RangeAt(chars, j, FirstNumber(first), from, comment)
  {
    hide DesignatorAt, NumberAt, DigitsEnd, RangeAt;
    RangeCases(chars, at, first, colon, from, matched, comment);
  }

  lemma RangeRuns(chars: string, i: nat, first: First, last: Last, s: string, rest: string)
    requires i <= |chars| && s == FirstText(first) + LastText(last) && chars[i..] == s + rest
    requires FirstFits(first, last, true) && LastFits(first, last, rest)
    ensures RangeBegins(chars, i, i + |FirstText(first)|, first)
    ensures chars[i + |FirstText(first)|..] == LastText(last) + rest
    ensures s != "" && s[0] != ':' && chars[i] == s[0]
  {
    RangeHead(first, last, true);
    Begins(chars, i, s, rest);
    FirstThenLast(chars, i, first, last, rest);
    hide Decimal, LastFits, NumberAt, DigitsEnd, LastText, FirstText;
  }

  lemma RangeDesignator(chars: string, at: nat, i: nat, first: First, last: Last, colon: bool, s: string, rest: string,
      from: string, matched: Option<string>, comment: char)
    requires i == (if colon then at + 1 else at) && i <= |chars| && chars[i..] == s + rest
    requires s == FirstText(first) + LastText(last) && (colon ==> CharAt(chars, at, ':'))
    requires FirstFits(first, last, colon) && LastFits(first, last, rest)
    ensures var choice := RangeOf(first, last, Words(from, Some(comment)));
            DesignatorAt(chars, at, from, matched, comment) == AsDesignation(choice, at, i + |s|)
  {
    hide Words, RangeOf, LastFits, RangeAt, LastText, FirstText, DesignatorAt;
    RangeRuns(chars, i, first, last, s, rest);
    RangeStarts(chars, at, i, i + |FirstText(first)|, first, colon, from, matched, comment);
    RangeMeans(chars, i + |FirstText(first)|, first, last, rest, from, comment);
  }

  /** Where the first word of a range ends, and its number. */
  lemma FirstThenLast(chars: string, i: nat, first: First, last: Last, rest: string)
    requires i <= |chars| && chars[i..] == FirstText(first) + LastText(last) + rest && LastFits(first, last, rest)
    ensures i + |FirstText(first)| <= |chars| && chars[i + |FirstText(first)|..] == LastText(last) + rest
    ensures match first
            case Nth(n) => NumberAt(chars, i) == n && DigitsEnd(chars, i) == i + |FirstText(first)|
            case Caret => |FirstText(first)| == 1 && FirstNumber(first) == 1
            case Zero => |FirstText(first)| == 0 && FirstNumber(first) == 0
  {
    hide Decimal, LastFits, NumberAt, DigitsEnd, LastText;
    assert FirstText(first) + LastText(last) + rest == FirstText(first) + (LastText(last) + rest);
    Stands(chars, i, FirstText(first), LastText(last) + rest);
    if first.Nth? {
      NumberThenLast(first.n, last, rest);
      NumberStands(chars, i, first.n, LastText(last) + rest);
    }
  }

  lemma NoDesignator(chars: string, at: nat, rest: string, from: string, matched: Option<string>, comment: char)
    requires at <= |chars| && chars[at..] == rest && !StartsDesignator(rest)
    ensures DesignatorAt(chars, at, from, matched, comment) == Designated(None, at)
  {
    assert "" + rest == rest;
    Stands(chars, at, "", rest);
    hide DesignatorAt;
    DesignatorCases(chars, at, CharAt(chars, at, ':'), from, matched, comment);
  }

  /** A designator is read as the words it stands for, and no further than it reaches. */
  lemma SelectionMeans(chars: string, at: nat, s: Selection, colon: bool, rest: string, from: string,
      matched: Option<string>, comment: char)
    requires at <= |chars| && chars[at..] == SelectionText(s, colon) + rest && Selectable(s, colon, rest)
    ensures var choice := Selected(s, Words(from, Some(comment)), matched);
            DesignatorAt(chars, at, from, matched, comment) ==
            AsDesignation(choice, at, at + |SelectionText(s, colon)|)
  {
    hide Words, RangeOf, DesignatorAt, FirstFits, LastFits, StartsDesignator, Join, ArgExtract;
    match s
    case Whole =>
      assert "" + rest == rest;
      NoDesignator(chars, at, rest, from, matched, comment);
    case Range(first, last) =>
      var text := FirstText(first) + LastText(last);
      BehindColon(chars, at, colon, text, rest);
      RangeDesignator(chars, at, if colon then at + 1 else at, first, last, colon, text, rest, from, matched, comment);
    case LastWord => MarkMeans(chars, at, '$', s, colon, rest, from, matched, comment);
    case Arguments => MarkMeans(chars, at, '*', s, colon, rest, from, matched, comment);
    case Matched => MarkMeans(chars, at, '%', s, colon, rest, from, matched, comment);
  }

  /** A designator of one character. */
  lemma MarkMeans(chars: string, at: nat, mark: char, s: Selection, colon: bool, rest: string, from: string,
      matched: Option<string>, comment: char)
    requires at <= |chars| && chars[at..] == SelectionText(s, colon) + rest
    requires (s == LastWord && mark == '$') || (s == Arguments && mark == '*') || (s == Matched && mark == '%')
    ensures var choice := Selected(s, Words(from, Some(comment)), matched);
            DesignatorAt(chars, at, from, matched, comment) ==
            AsDesignation(choice, at, at + |SelectionText(s, colon)|)
  {
    hide Words, DesignatorAt, Join, ArgExtract;
    assert SelectionText(s, colon) == (if colon then ":" else "") + [mark];
    BehindColon(chars, at, colon, [mark], rest);
    Begins(chars, if colon then at + 1 else at, [mark], rest);
    DesignatorCases(chars, at, colon, from, matched, comment);
    ExtractedWords(from, comment);
  }
}
