/**
 Event and word designators of history expansion (src/history_expand.rs): which line `!...`
 means and which of its words, the word a substring search matched included.
 */
module HistoryEvents {
  import opened Chars
  import opened Wrappers
  import opened HistoryScan
  import opened HistoryTokenizer
  import opened Substitution
  import opened TextSlices
  import HistorySpec
  import opened StampTime

  const EVENT_DELIMITERS: string := "^$*%-"
  const SEARCH_DELIMITERS: string := ";&()|<>"

  /** What one expansion leaves for the next ones. */
  datatype Engine = Engine(searchString: Option<string>, searchMatch: Option<string>,
                           substLhs: Option<string>, substRhs: Option<string>)

  class HistEngineState {
    var searchString: Option<string>
    var searchMatch: Option<string>
    var substLhs: Option<string>
    var substRhs: Option<string>

    constructor ()
      ensures Value() == Engine(None, None, None, None)
    {
      searchString, searchMatch, substLhs, substRhs := None, None, None, None;
    }

    function Value(): Engine
      reads this
    {
      Engine(searchString, searchMatch, substLhs, substRhs)
    }
  }

  /** The list as the engine sees it: line `k` has number `base + k`. */
  datatype Snapshot = Snapshot(base: nat, lines: seq<string>)

  /** The last place of a text in a line, from `k` down. */
  function LastMatch(line: string, text: string, k: nat): (r: Option<nat>)
    ensures r.Some? ==> r.value <= k && At(line, r.value, text)
    ensures r.Some? ==> forall p: nat :: r.value < p <= k ==> !At(line, p, text)
    ensures r.None? ==> forall p: nat :: p <= k ==> !At(line, p, text)
    decreases k
  {
    if At(line, k, text) then Some(k) else if k == 0 then None else LastMatch(line, text, k - 1)
  }

  /** `history_find_word` at the last place of the text: the byte index of the place is taken for the index
      of a character. */
  function MatchedWord(line: string, text: string): Option<string> {
    match LastMatch(line, text, |line|)
    case None => None
    case Some(k) => WordOver(line, ByteLen(line[..k]), None)
  }

  // ------------------------------------------------------------------------- events

  predicate EndsPattern(c: char, first: bool, substring: bool, quote: Option<char>) {
    || (!substring && (FieldDelim(c) || c == ':' || (!first && c == '-') || (c != '-' && c in EVENT_DELIMITERS)
                       || c in SEARCH_DELIMITERS || quote == Some(c)))
    || c == '\n'
    || (substring && c == '?')
  }

  /** The first character from `i` on that ends a search text that began at `from`. */
  function PatternEnd(chars: string, from: nat, i: nat, substring: bool, quote: Option<char>): (end: nat)
    requires from <= i <= |chars|
    ensures i <= end <= |chars|
    ensures forall p :: i <= p < end ==> !EndsPattern(chars[p], p == from, substring, quote)
    ensures end < |chars| ==> EndsPattern(chars[end], end == from, substring, quote)
    decreases |chars| - i
  {
    if i < |chars| && !EndsPattern(chars[i], i == from, substring, quote)
    then PatternEnd(chars, from, i + 1, substring, quote) else i
  }

  predicate Matches(line: string, text: string, substring: bool) {
    if substring then Occurs(text, line) else text <= line
  }

  /** The newest line that matches. */
  function Newest(lines: seq<string>, text: string, substring: bool): (r: Option<nat>)
    ensures r.Some? ==> r.value < |lines| && Matches(lines[r.value], text, substring)
    ensures var older := if r.Some? then r.value + 1 else 0;
            forall k :: older <= k < |lines| ==> !Matches(lines[k], text, substring)
  {
    if lines == [] then None
    else
      var n := |lines| - 1;
      if Matches(lines[n], text, substring) then Some(n) else Newest(lines[..n], text, substring)
  }

  function DigitsEnd(chars: string, from: nat): (end: nat)
    requires from <= |chars|
    ensures from <= end <= |chars|
    ensures forall k :: from <= k < end ==> IsDigit(chars[k])
    ensures from < |chars| && IsDigit(chars[from]) ==> from < end
  {
    var n := DigitRun(chars[from..]);
    assert forall k :: from <= k < from + n ==> chars[k] == chars[from..][k - from];
    from + n
  }

  /** The number the digits from `from` on denote. */
  function NumberAt(chars: string, from: nat): nat
    requires from <= |chars|
  {
    Numeral(chars[from..DigitsEnd(chars, from)])
  }

  function PowerOfTen(n: nat): nat {
    if n == 0 then 1 else 10 * PowerOfTen(n - 1)
  }

  lemma {:induction false} NumeralBelow(d: string)
    requires forall k :: 0 <= k < |d| ==> IsDigit(d[k])
    ensures Numeral(d) < PowerOfTen(|d|)
    decreases |d|
  {
    if d != "" {
      assert IsDigit(d[|d| - 1]);
      NumeralBelow(d[..|d| - 1]);
    }
  }

  lemma {:induction false} PowersGrow(m: nat, n: nat)
    requires m <= n
    ensures PowerOfTen(m) <= PowerOfTen(n)
    decreases n
  {
    if m < n {
      PowersGrow(m, n - 1);
    }
  }

  /** Numbers of up to 18 digits fit the program's 64 bits, signed and unsigned: no step of reading them overflows. */
  lemma ShortNumbersFit(d: string)
    requires (forall k :: 0 <= k < |d| ==> IsDigit(d[k])) && |d| <= 18
    ensures Numeral(d) <= I64_MAX
  {
    hide Numeral, PowerOfTen;
    NumeralBelow(d);
    PowersGrow(|d|, 18);
    EighteenDigits();
  }

  lemma EighteenDigits()
    ensures PowerOfTen(18) == 1000000000000000000
  {
    assert PowerOfTen(3) == 1000 && PowerOfTen(6) == 1000000 && PowerOfTen(9) == 1000000000;
    assert PowerOfTen(12) == 1000000000000 && PowerOfTen(15) == 1000000000000000;
  }

  predicate DigitAt(chars: string, i: nat) { i < |chars| && IsDigit(chars[i]) }

  datatype Event = Event(line: Option<string>, next: nat, engine: Engine)

  /** `!text` and `!?text?` from behind the expansion character. */
  function SearchedEvent(chars: string, i: nat, quote: Option<char>, list: Snapshot, engine: Engine): (e: Event)
    requires i <= |chars|
    ensures i <= e.next <= |chars|
  {
    var substring := CharAt(chars, i, '?');
    var from := if substring then i + 1 else i;
    var end := PatternEnd(chars, from, from, substring, quote);
    var next := if substring && CharAt(chars, end, '?') then end + 1 else end;
    var reuse := end == from && substring;
    if reuse && (engine.searchString.None? || engine.searchString.value == "") then Event(None, next, engine)
    else
      var text := if reuse then engine.searchString.value else chars[from..end];
      match Newest(list.lines, text, substring)
      case None => Event(None, next, engine)
      case Some(k) =>
        var found := engine.(searchString := Some(text), searchMatch := MatchedWord(list.lines[k], text));
        Event(Some(list.lines[k]), next, if substring then found else engine)
  }

  /** The event named at `at`, and where its name ends. */
  function EventAt(chars: string, at: nat, quote: Option<char>, list: Snapshot, engine: Engine, expand: char)
    : (e: Event)
    ensures CharAt(chars, at, expand) ==> at < e.next <= |chars|
  {
    if !CharAt(chars, at, expand) then Event(None, at, engine)
    else if CharAt(chars, at + 1, expand) then
      var n := |list.lines|;
      Event(HistorySpec.Lookup(list.base, list.lines, list.base + (if n == 0 then 0 else n - 1)), at + 2, engine)
    else
      var fromEnd := CharAt(chars, at + 1, '-') && DigitAt(chars, at + 2);
      var i := if fromEnd then at + 2 else at + 1;
      if DigitAt(chars, i) then
        var line := HistorySpec.NumberedEvent(list.base, list.lines, NumberAt(chars, i), fromEnd);
        Event(line, DigitsEnd(chars, i), engine)
      else SearchedEvent(chars, at + 1, quote, list, engine)
  }

  /** `!!` names the newest line, and nothing in an empty list. */
  lemma PreviousEvent(chars: string, at: nat, quote: Option<char>, list: Snapshot, engine: Engine, expand: char)
    requires CharAt(chars, at, expand) && CharAt(chars, at + 1, expand)
    ensures var line := if list.lines == [] then None else Some(list.lines[|list.lines| - 1]);
            EventAt(chars, at, quote, list, engine, expand) == Event(line, at + 2, engine)
  {
  }

  // -------------------------------------------------------------------- the event loops

  lemma NumeralGrows(chars: string, from: nat, i: nat)
    requires from <= i < |chars| && forall k :: from <= k <= i ==> IsDigit(chars[k])
    ensures Numeral(chars[from..i + 1]) == Numeral(chars[from..i]) * 10 + (chars[i] as int - '0' as int)
  {
    assert chars[from..i + 1][..i - from] == chars[from..i];
    assert chars[from..i + 1][i - from] == chars[i];
  }

  lemma DigitsEndIs(chars: string, from: nat, i: nat)
    requires from <= i <= |chars| && (forall k :: from <= k < i ==> IsDigit(chars[k])) && !DigitAt(chars, i)
    ensures DigitsEnd(chars, from) == i
  {
    var end := DigitsEnd(chars, from);
    if end < |chars| {
      assert chars[end] == chars[from..][end - from];
    }
  }

  /** The digit loop: the number and where it ends. */
  method ReadNumber(chars: string, from: nat) returns (which: nat, i: nat)
    requires from <= |chars|
    ensures i == DigitsEnd(chars, from) && which == NumberAt(chars, from)
  {
    hide Numeral;
    which, i := 0, from;
    NumeralOfNothing();
    assert chars[from..from] == "";
    while i < |chars| && IsDigit(chars[i])
      invariant from <= i <= |chars|
      invariant forall k :: from <= k < i ==> IsDigit(chars[k])
      invariant which == Numeral(chars[from..i])
    {
      NumeralGrows(chars, from, i);
      which := which * 10 + (chars[i] as int - '0' as int);
      i := i + 1;
    }
    DigitsEndIs(chars, from, i);
  }

  lemma NumeralOfNothing()
    ensures Numeral("") == 0
  {
  }

  /** The search back through the list. */
  method SearchBack(lines: seq<string>, text: string, substring: bool) returns (r: Option<nat>)
    ensures r == Newest(lines, text, substring)
  {
    if |lines| == 0 {
      return None;
    }
    var position: nat := |lines| - 1;
    assert lines[..position + 1] == lines;
    while true
      invariant position < |lines|
      invariant Newest(lines, text, substring) == Newest(lines[..position + 1], text, substring)
      decreases position
    {
      assert lines[..position + 1][..position] == lines[..position];
      if Matches(lines[position], text, substring) {
        return Some(position);
      }
      if position == 0 {
        return None;
      }
      position := position - 1;
    }
  }

  method GetHistoryEvent(chars: string, callerIndex: nat, quote: Option<char>, list: Snapshot,
                         state: HistEngineState, ctx: Ctx)
    returns (line: Option<string>, i: nat)
    modifies state
    ensures Event(line, i, state.Value())
         == EventAt(chars, callerIndex, quote, list, old(state.Value()), ctx.chars.expand)
  {
    hide Newest, Numeral, EndsPattern, DigitRun;
    var histchar := ctx.chars.expand;
    i := callerIndex;
    if !CharAt(chars, i, histchar) {
      return None, i;
    }
    i := i + 1;
    if CharAt(chars, i, histchar) {
      i := i + 1;
      var n := |list.lines|;
      return HistorySpec.Lookup(list.base, list.lines, list.base + (if n == 0 then 0 else n - 1)), i;
    }
    var fromEnd := false;
    if CharAt(chars, i, '-') && DigitAt(chars, i + 1) {
      fromEnd := true;
      i := i + 1;
    }
    if DigitAt(chars, i) {
      var which;
      which, i := ReadNumber(chars, i);
      if fromEnd {
        var total := |list.lines| + list.base;
        if which >= total {
          return None, i;
        }
        which := total - which;
      }
      return HistorySpec.Lookup(list.base, list.lines, which), i;
    }
    line, i := SearchEvent(chars, i, quote, list, state);
  }

  /** `rfind` and `history_find_word`. */
  method FindMatchedWord(line: string, text: string) returns (word: Option<string>)
    ensures word == MatchedWord(line, text)
  {
    hide ByteLen, WordOver;
    var k := LastMatch(line, text, |line|);
    if k.None? {
      return None;
    }
    var words, index, starts, stop := HistoryTokenizeInternal(line, ByteLen(line[..k.value]), None);
    return if index < 0 then None else Some(words[index]);
  }

  method SearchEvent(chars: string, at: nat, quote: Option<char>, list: Snapshot, state: HistEngineState)
    returns (line: Option<string>, i: nat)
    requires at <= |chars|
    modifies state
    ensures Event(line, i, state.Value()) == SearchedEvent(chars, at, quote, list, old(state.Value()))
  {
    hide Newest, EndsPattern, MatchedWord;
    i := at;
    var substring := false;
    if CharAt(chars, i, '?') {
      substring := true;
      i := i + 1;
    }
    var localIndex := i;
    while i < |chars|
      invariant localIndex <= i <= |chars|
      invariant PatternEnd(chars, localIndex, localIndex, substring, quote)
             == PatternEnd(chars, localIndex, i, substring, quote)
    {
      if EndsPattern(chars[i], i == localIndex, substring, quote) {
        break;
      }
      i := i + 1;
    }
    var temp := chars[localIndex..i];
    if substring && CharAt(chars, i, '?') {
      i := i + 1;
    }
    if temp == "" && substring {
      if state.searchString.None? || state.searchString.value == "" {
        return None, i;
      }
      temp := state.searchString.value;
    }
    var found := SearchBack(list.lines, temp, substring);
    if found.None? {
      return None, i;
    }
    if substring {
      state.searchString := Some(temp);
      state.searchMatch := FindMatchedWord(list.lines[found.value], temp);
    }
    return Some(list.lines[found.value]), i;
  }

  // ----------------------------------------------------------------- word designators

  /** The words designated (`None` for no designator) and where the designator ends, or a bad one. */
  datatype Designation = Designated(words: Option<string>, next: nat) | BadWords(at: nat)

  /** The last word of a range, and where it ends. */
  datatype RangeEnd = RangeEnd(last: int, next: nat)

  function RangeEndAt(chars: string, i: nat, first: int): (r: RangeEnd)
    requires i <= |chars|
    ensures i <= r.next <= |chars|
  {
    if CharAt(chars, i, '^') then RangeEnd(1, i + 1)
    else if CharAt(chars, i, '*') then RangeEnd(DOLLAR, i + 1)
    else if !CharAt(chars, i, '-') then RangeEnd(first, i)
    else if DigitAt(chars, i + 1) then RangeEnd(NumberAt(chars, i + 1), DigitsEnd(chars, i + 1))
    else if CharAt(chars, i + 1, '$') then RangeEnd(DOLLAR, i + 2)
    else if CharAt(chars, i + 1, '^') then RangeEnd(1, i + 2)
    else RangeEnd(-1, i + 1)
  }

  function RangeAt(chars: string, i: nat, first: int, from: string, comment: char): (d: Designation)
    requires i <= |chars|
    ensures d.Designated? ==> i <= d.next <= |chars|
  {
    var r := RangeEndAt(chars, i, first);
    if r.last >= first || r.last < 0 then
      match ArgExtract(first, r.last, from, comment)
      case Some(text) => Designated(Some(text), r.next)
      case None => BadWords(r.next)
    else BadWords(r.next)
  }

  function OrEmpty(text: Option<string>): string { if text.Some? then text.value else "" }

  /** The word designator at `at`, applied to the line `from`. */
  function DesignatorAt(chars: string, at: nat, from: string, searchMatch: Option<string>, comment: char)
    : (d: Designation)
    requires at <= |chars|
    ensures d.Designated? ==> at <= d.next <= |chars|
  {
    var colon := CharAt(chars, at, ':');
    var i := if colon then at + 1 else at;
    if CharAt(chars, i, '%') then Designated(Some(OrEmpty(searchMatch)), i + 1)
    else if CharAt(chars, i, '*') then Designated(Some(OrEmpty(ArgExtract(1, DOLLAR, from, comment))), i + 1)
    else if CharAt(chars, i, '$') then Designated(ArgExtract(DOLLAR, DOLLAR, from, comment), i + 1)
    else if CharAt(chars, i, '-') then RangeAt(chars, i, 0, from, comment)
    else if CharAt(chars, i, '^') then RangeAt(chars, i + 1, 1, from, comment)
    else if colon && DigitAt(chars, i) then RangeAt(chars, DigitsEnd(chars, i), NumberAt(chars, i), from, comment)
    else Designated(None, at)
  }

  method GetHistoryWordSpecifier(chars: string, callerIndex: nat, from: string, state: HistEngineState, ctx: Ctx)
    returns (d: Designation)
    requires callerIndex <= |chars|
    ensures d == DesignatorAt(chars, callerIndex, from, state.searchMatch, ctx.chars.comment)
  {
    hide ArgExtract, Numeral, DigitsEnd;
    var i, first, last, expectingWordSpec := callerIndex, 0, 0, false;
    var comment := ctx.chars.comment;
    if CharAt(chars, i, ':') {
      i := i + 1;
      expectingWordSpec := true;
    }
    if CharAt(chars, i, '%') {
      return Designated(Some(OrEmpty(state.searchMatch)), i + 1);
    }
    if CharAt(chars, i, '*') {
      var arguments := HistoryArgExtract(1, DOLLAR, from, comment);
      return Designated(Some(OrEmpty(arguments)), i + 1);
    }
    if CharAt(chars, i, '$') {
      var argument := HistoryArgExtract(DOLLAR, DOLLAR, from, comment);
      return Designated(argument, i + 1);
    }
    if CharAt(chars, i, '-') {
      first := 0;
    } else if CharAt(chars, i, '^') {
      first := 1;
      i := i + 1;
    } else if DigitAt(chars, i) && expectingWordSpec {
      first, i := ReadNumber(chars, i);
    } else {
      return Designated(None, callerIndex);
    }
    ghost var afterFirst := i;
    if CharAt(chars, i, '^') || CharAt(chars, i, '*') {
      last := if CharAt(chars, i, '^') then 1 else DOLLAR;
      i := i + 1;
    } else if !CharAt(chars, i, '-') {
      last := first;
    } else {
      i := i + 1;
      if DigitAt(chars, i) {
        last, i := ReadNumber(chars, i);
      } else if CharAt(chars, i, '$') {
        i := i + 1;
        last := DOLLAR;
      } else if CharAt(chars, i, '^') {
        i := i + 1;
        last := 1;
      } else {
        last := -1;
      }
    }
    assert RangeEnd(last, i) == RangeEndAt(chars, afterFirst, first);
    if last >= first || last == DOLLAR || last < 0 {
      var result := HistoryArgExtract(first, last, from, comment);
      if result.None? {
        return BadWords(i);
      }
      return Designated(result, i);
    }
    return BadWords(i);
  }

  lemma NumberOfDecimal(pre: string, n: nat, post: string)
    requires post == "" || !IsDigit(post[0])
    ensures var chars, i := pre + (Decimal(n) + post), |pre|;
            && DigitAt(chars, i) && NumberAt(chars, i) == n
            && DigitsEnd(chars, i) == i + |Decimal(n)| && chars[..i + |Decimal(n)|] == pre + Decimal(n)
  {
    hide Decimal, Numeral, DigitsEnd;
    var d := Decimal(n);
    var chars, i := pre + (d + post), |pre|;
    NumeralOfDecimal(n);
    forall k | i <= k < i + |d| ensures IsDigit(chars[k]) {
      assert chars[k] == d[k - i];
    }
    assert post != "" ==> chars[i + |d|] == post[0];
    DigitsEndIs(chars, i, i + |d|);
    assert chars[i..i + |d|] == d;
    assert chars[i] == d[0];
  }

  lemma RangeByPosition(chars: string, at: nat, dash: nat, from: string, searchMatch: Option<string>, comment: char)
    requires CharAt(chars, at, ':') && DigitAt(chars, at + 1) && DigitsEnd(chars, at + 1) == dash
    requires CharAt(chars, dash, '-') && DigitAt(chars, dash + 1)
    requires NumberAt(chars, at + 1) <= NumberAt(chars, dash + 1) < |Words(from, Some(comment))|
    ensures var words := Words(from, Some(comment))[NumberAt(chars, at + 1)..NumberAt(chars, dash + 1) + 1];
            var d := Designated(Some(Join(words)), DigitsEnd(chars, dash + 1));
            DesignatorAt(chars, at, from, searchMatch, comment) == d
  {
    hide Words, Join, NumberAt, DigitsEnd;
  }

  lemma RangeText(pre: string, first: string, second: string, post: string)
    requires first != ""
    ensures var toDash := pre + ":" + first + "-"; var chars := toDash + (second + post);
            && chars == (pre + ":") + (first + ("-" + (second + post)))
            && CharAt(chars, |pre|, ':') && CharAt(chars, |pre| + 1 + |first|, '-')
  {
    var toDash := pre + ":" + first + "-";
    assert toDash[|pre|] == ':' && toDash[|pre| + 1 + |first|] == '-';
  }

  /** `:a-b` designates words `a` to `b`, whatever follows it that is not a digit. */
  lemma RangeDesignates(pre: string, a: nat, b: nat, post: string, from: string, searchMatch: Option<string>,
      comment: char)
    requires a <= b < |Words(from, Some(comment))| && (post == "" || !IsDigit(post[0]))
    ensures var head := pre + ":" + Decimal(a) + "-";
            var d := Designated(Some(Join(Words(from, Some(comment))[a..b + 1])), |head| + |Decimal(b)|);
            DesignatorAt(head + (Decimal(b) + post), |pre|, from, searchMatch, comment) == d
  {
    hide Words, Join, Decimal, NumberAt, DigitsEnd;
    var first, second := Decimal(a), Decimal(b);
    var head := pre + ":" + first + "-";
    RangeText(pre, first, second, post);
    NumberOfDecimal(pre + ":", a, "-" + (second + post));
    NumberOfDecimal(head, b, post);
    RangeByPosition(head + (second + post), |pre|, |pre| + 1 + |first|, from, searchMatch, comment);
  }
}
