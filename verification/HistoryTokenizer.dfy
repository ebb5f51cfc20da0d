/**
 The shell-word tokenizer of history expansion (src/history_expand.rs): where a word ends,
 how a line falls into words, and the extraction of a range of them.
 */
module HistoryTokenizer {
  import opened Chars
  import opened Wrappers
  import opened Sequences

  const WORD_DELIMITERS: string := " \t\n;&()|<>"
  const QUOTE_CHARACTERS: string := "\"'`"
  const GLOB_OPENERS: string := "<>$!@?+*"
  const OPERATORS: string := "<>;&|"
  const DOLLAR := -2

  predicate FieldDelim(c: char) {
    c == ' ' || c == '\t' || c == '\n' || c == '\r' || c == '\U{0b}' || c == '\U{0c}'
  }

  /** What the tail scanner is inside of: nothing, a quote, or nested parentheses. */
  datatype Mode = Plain | Quoted(quote: char) | Nested(depth: nat)

  /** One move of the tail scanner: `taken` characters, and whether the word goes on in `mode`. */
  datatype Move = Move(taken: nat, goesOn: bool, mode: Mode)

  /** The move on character `c`; `opens` when an open parenthesis follows it, `last` when that ends the text. */
  function MoveOn(c: char, opens: bool, last: bool, mode: Mode): Move {
    if c == '\\' then Move(1, true, mode)
    else if mode.Nested? then
      if c == '(' then Move(1, true, Nested(mode.depth + 1))
      else if c != ')' then Move(1, true, mode)
      else Move(1, true, if mode.depth <= 1 then Plain else Nested(mode.depth - 1))
    else if mode.Quoted? then Move(1, true, if c == mode.quote then Plain else mode)
    else if c in GLOB_OPENERS && opens then
      if last then Move(1, false, Plain) else Move(2, true, Nested(1))
    else if c in WORD_DELIMITERS then Move(0, false, Plain)
    else Move(1, true, if c in QUOTE_CHARACTERS then Quoted(c) else Plain)
  }

  function TailMove(s: string, mode: Mode): (m: Move)
    requires s != []
    ensures m.taken <= |s| && (m.goesOn ==> m.taken > 0)
  {
    MoveOn(s[0], |s| > 1 && s[1] == '(', |s| == 2, mode)
  }

  /** How much of `s` the tail scanner takes when it starts in `mode`. */
  function TailLength(s: string, mode: Mode): (n: nat)
    ensures n <= |s|
    decreases |s|
  {
    if s == [] then 0
    else
      var m := TailMove(s, mode);
      if m.goesOn then m.taken + TailLength(s[m.taken..], m.mode) else m.taken
  }

  /** The operator at the front of `s`, with what belongs to it. */
  function OperatorLength(s: string): (n: nat)
    requires s != [] && s[0] in OPERATORS
    ensures 1 <= n <= |s|
  {
    var c := s[0];
    if |s| == 1 then 1
    else if s[1] == c then
      if c == '<' && |s| > 2 && (s[2] == '-' || s[2] == '<') then 3 else 2
    else if s[1] == '&' && (c == '>' || c == '<') then
      var j := 2 + DigitRun(s[2..]);
      if j < |s| && s[j] == '-' then j + 1 else j
    else if (s[1] == '>' && c == '&') || (s[1] == '|' && c == '>') then 2
    else if s[1] == '(' && (c == '>' || c == '<') then 2 + TailLength(s[2..], Nested(1))
    else 1
  }

  /** The length of the word at the front of `s`. */
  function WordLength(s: string): (n: nat)
    ensures n <= |s|
  {
    var d := DigitRun(s);
    if s == [] then 0
    else if s[0] in "()\n" then 1
    else if d == |s| then d
    else if d > 0 && s[d] != '<' && s[d] != '>' then TailLength(s, Plain)
    else if s[d] in OPERATORS then d + OperatorLength(s[d..])
    else TailLength(s, Plain)
  }

  /** A word that starts where the tokenizer looks for one is never empty. */
  lemma WordAdvances(s: string)
    requires s != [] && !FieldDelim(s[0])
    ensures 0 < WordLength(s) <= |s|
  {
  }

  function SkipFields(s: string): (t: string)
    ensures |t| <= |s|
    ensures t != [] ==> !FieldDelim(t[0])
  {
    if s == [] || !FieldDelim(s[0]) then s else SkipFields(s[1..])
  }

  /** The words of a line, up to a word that starts with the comment character. */
  function Words(s: string, comment: Option<char>): seq<string>
    decreases |s|
  {
    var t := SkipFields(s);
    if t == [] || Some(t[0]) == comment then []
    else
      WordAdvances(t);
      [t[..WordLength(t)]] + Words(t[WordLength(t)..], comment)
  }

  // -------------------------------------------------------------------- the program

  function ModeOf(delimiter: char, nestdelim: nat): Mode {
    if nestdelim > 0 then Nested(nestdelim)
    else if delimiter == '\0' then Plain
    else Quoted(delimiter)
  }

  predicate Coupled(delimiter: char, nestdelim: nat, delimopen: char) {
    if nestdelim > 0 then delimiter == ')' && delimopen == '('
    else delimiter == '\0' || delimiter in QUOTE_CHARACTERS
  }

  /** Where the word ends for a tail scanner that is at `i` in `mode`. */
  function TailEnd(chars: string, i: nat, mode: Mode): (end: nat)
    requires i <= |chars|
    ensures i <= end <= |chars|
  {
    i + TailLength(chars[i..], mode)
  }

  lemma TailUnfold(chars: string, i: nat, mode: Mode)
    requires i < |chars|
    ensures var m := MoveOn(chars[i], i + 1 < |chars| && chars[i + 1] == '(', i + 2 == |chars|, mode);
            && i + m.taken <= |chars|
            && TailEnd(chars, i, mode) == if m.goesOn then TailEnd(chars, i + m.taken, m.mode) else i + m.taken
  {
    var m := TailMove(chars[i..], mode);
    hide MoveOn;
    assert chars[i..][m.taken..] == chars[i + m.taken..];
  }

  lemma SuffixAt(chars: string, i: nat, k: nat)
    requires i + k < |chars|
    ensures chars[i..][k] == chars[i + k] && chars[i..][k..] == chars[i + k..]
  {
  }

  method GetWordTail(chars: string, from: nat, delimiter0: char, nestdelim0: nat, delimopen0: char)
    returns (i: nat)
    requires from <= |chars|
    requires Coupled(delimiter0, nestdelim0, delimopen0) && delimiter0 !in QUOTE_CHARACTERS
    ensures i == TailEnd(chars, from, ModeOf(delimiter0, nestdelim0))
  {
    hide TailEnd;
    var len := |chars|;
    var delimiter, nestdelim, delimopen := delimiter0, nestdelim0, delimopen0;
    i := from;
    if i < len {
      TailUnfold(chars, i, ModeOf(delimiter, nestdelim));
    }
    if delimiter == '\0' && i < len && chars[i] in QUOTE_CHARACTERS {
      delimiter := chars[i];
      i := i + 1;
    }
    ghost var all := TailEnd(chars, from, ModeOf(delimiter0, nestdelim0));
    while i < len
      invariant from <= i <= len
      invariant Coupled(delimiter, nestdelim, delimopen)
      invariant all == TailEnd(chars, i, ModeOf(delimiter, nestdelim))
    {
      var c := chars[i];
      TailUnfold(chars, i, ModeOf(delimiter, nestdelim));
      if c == '\\' && i + 1 < len && chars[i + 1] == '\n' {
        i := i + 1;
        continue;
      }
      if c == '\\' && delimiter != '\'' && (delimiter != '"' || c in "\\`\"$") {
        i := i + 1;
        if i == len {
          break;
        }
        continue;
      }
      if nestdelim > 0 && c == delimopen {
        nestdelim := nestdelim + 1;
        i := i + 1;
        continue;
      }
      if nestdelim > 0 && c == delimiter {
        nestdelim := nestdelim - 1;
        if nestdelim == 0 {
          delimiter := '\0';
        }
        i := i + 1;
        continue;
      }
      if delimiter != '\0' && c == delimiter {
        delimiter := '\0';
        i := i + 1;
        continue;
      }
      if nestdelim == 0 && delimiter == '\0' && c in GLOB_OPENERS && i + 1 < len && chars[i + 1] == '(' {
        i := i + 1;
        if i + 1 >= len {
          break;
        }
        delimopen := '(';
        delimiter := ')';
        nestdelim := 1;
        i := i + 1;
        continue;
      }
      if delimiter == '\0' && c in WORD_DELIMITERS {
        break;
      }
      if delimiter == '\0' && c in QUOTE_CHARACTERS {
        delimiter := c;
      }
      i := i + 1;
    }
  }

  method DigitsFrom(chars: string, from: nat) returns (j: nat)
    requires from <= |chars|
    ensures j == from + DigitRun(chars[from..]) && from <= j <= |chars|
  {
    j := from;
    while j < |chars| && IsDigit(chars[j])
      invariant from <= j <= |chars|
      invariant from + DigitRun(chars[from..]) == j + DigitRun(chars[j..])
    {
      DropStep(chars, j);
      j := j + 1;
    }
  }

  lemma WordLengthAt(chars: string, i: nat)
    requires i < |chars|
    ensures var s := chars[i..]; var d := DigitRun(s);
            && i + d <= |chars|
            && (chars[i] in "()\n" ==> WordLength(s) == 1)
            && (chars[i] !in "()\n" && i + d == |chars| ==> WordLength(s) == d)
            && (chars[i] !in "()\n" && i + d < |chars| ==>
               if d > 0 && chars[i + d] != '<' && chars[i + d] != '>' then i + WordLength(s) == TailEnd(chars, i, Plain)
               else if chars[i + d] in OPERATORS then WordLength(s) == d + OperatorLength(chars[i + d..])
               else i + WordLength(s) == TailEnd(chars, i, Plain))
  {
    hide TailLength, OperatorLength;
    var s := chars[i..];
    var d := DigitRun(s);
    if i + d < |chars| {
      SuffixAt(chars, i, d);
    }
  }

  method HistoryTokenizeWord(chars: string, ind: nat) returns (end: nat)
    requires ind <= |chars|
    ensures end == ind + WordLength(chars[ind..])
    ensures end <= |chars|
    ensures ind < |chars| && !FieldDelim(chars[ind]) ==> ind < end
  {
    hide TailLength, TailEnd, WordLength, DigitRun, OperatorLength;
    var len, i := |chars|, ind;
    if i == len {
      WordOfNothing(chars);
    } else {
      WordLengthAt(chars, i);
      if !FieldDelim(chars[i]) {
        WordAdvances(chars[i..]);
      }
    }
    if i < len && chars[i] in "()\n" {
      return i + 1;
    }
    if i < len && IsDigit(chars[i]) {
      var j := DigitsFrom(chars, i);
      if j == len {
        return j;
      }
      if chars[j] == '<' || chars[j] == '>' {
        i := j;
      } else {
        end := GetWordTail(chars, i, '\0', 0, '\0');
        return;
      }
    }
    if i < len && chars[i] in OPERATORS {
      end := OperatorEnd(chars, i);
      return;
    }
    end := GetWordTail(chars, i, '\0', 0, '\0');
  }

  lemma WordOfNothing(chars: string)
    ensures WordLength(chars[|chars|..]) == 0
    ensures TailEnd(chars, |chars|, Plain) == |chars|
  {
  }

  method OperatorEnd(chars: string, at: nat) returns (end: nat)
    requires at < |chars| && chars[at] in OPERATORS
    ensures end == at + OperatorLength(chars[at..])
    ensures end <= |chars|
  {
    hide TailLength;
    var len, i := |chars|, at;
    if i + 1 < len && chars[i + 1] == chars[i] {
      if chars[i] == '<' && i + 2 < len && chars[i + 2] == '-' {
        i := i + 1;
      } else if chars[i] == '<' && i + 2 < len && chars[i + 2] == '<' {
        i := i + 1;
      }
      return i + 2;
    } else if i + 1 < len && chars[i + 1] == '&' && (chars[i] == '>' || chars[i] == '<') {
      var j := DigitsFrom(chars, i + 2);
      if j < len && chars[j] == '-' {
        j := j + 1;
      }
      return j;
    } else if i + 1 < len && ((chars[i + 1] == '>' && chars[i] == '&') || (chars[i + 1] == '|' && chars[i] == '>')) {
      return i + 2;
    } else if i + 1 < len && chars[i + 1] == '(' && (chars[i] == '>' || chars[i] == '<') {
      end := GetWordTail(chars, i + 2, ')', 1, '(');
      return;
    }
    return i + 1;
  }

  /** Words `words` stand in `chars` at `starts`: in order, apart, with only field delimiters between them. */
  ghost predicate Placed(chars: string, words: seq<string>, starts: seq<nat>, upTo: nat) {
    && |starts| == |words| && upTo <= |chars|
    && (forall k :: 0 <= k < |words| ==> StandsAt(chars, words[k], starts[k], upTo))
    && (forall j, k :: 0 <= j < k < |words| ==> starts[j] + |words[j]| <= starts[k])
    && (forall p :: 0 <= p < upTo && !FieldDelim(chars[p]) ==> exists k :: Covers(words, starts, k, p))
  }

  predicate StandsAt(chars: string, word: string, start: nat, upTo: nat) {
    word != [] && start + |word| <= upTo && upTo <= |chars| && chars[start..start + |word|] == word
  }

  predicate Covers(words: seq<string>, starts: seq<nat>, k: int, p: int) {
    && 0 <= k < |words| && k < |starts|
    && starts[k] <= p < starts[k] + |words[k]|
  }

  lemma PlacedSkip(chars: string, words: seq<string>, starts: seq<nat>, upTo: nat)
    requires upTo < |chars| && FieldDelim(chars[upTo]) && Placed(chars, words, starts, upTo)
    ensures Placed(chars, words, starts, upTo + 1)
  {
    forall k | 0 <= k < |words| ensures StandsAt(chars, words[k], starts[k], upTo + 1) {
      assert StandsAt(chars, words[k], starts[k], upTo);
    }
  }

  lemma PlacedWord(chars: string, words: seq<string>, starts: seq<nat>, upTo: nat, end: nat)
    requires upTo < end <= |chars| && Placed(chars, words, starts, upTo)
    ensures Placed(chars, words + [chars[upTo..end]], starts + [upTo], end)
  {
    var ws, ss := words + [chars[upTo..end]], starts + [upTo];
    forall k | 0 <= k < |ws| ensures StandsAt(chars, ws[k], ss[k], end) {
      if k < |words| {
        assert StandsAt(chars, words[k], starts[k], upTo);
      }
    }
    forall p | 0 <= p < end && !FieldDelim(chars[p]) ensures exists k :: Covers(ws, ss, k, p) {
      if p < upTo {
        var k :| Covers(words, starts, k, p);
        assert Covers(ws, ss, k, p);
      } else {
        assert Covers(ws, ss, |words|, p);
      }
    }
    forall j, k | 0 <= j < k < |ws| ensures ss[j] + |ws[j]| <= ss[k] {
      assert StandsAt(chars, words[j], starts[j], upTo);
    }
  }

  lemma WordsSkip(chars: string, i: nat, comment: Option<char>)
    requires i < |chars| && FieldDelim(chars[i])
    ensures Words(chars[i..], comment) == Words(chars[i + 1..], comment)
  {
    DropStep(chars, i);
  }

  lemma WordsStep(chars: string, i: nat, comment: Option<char>)
    requires i < |chars| && !FieldDelim(chars[i]) && Some(chars[i]) != comment
    ensures var end := i + WordLength(chars[i..]);
            i < end <= |chars| && Words(chars[i..], comment) == [chars[i..end]] + Words(chars[end..], comment)
  {
    hide WordLength;
    var s := chars[i..];
    WordAdvances(s);
    var n := WordLength(s);
    Reslice(chars, i, n);
  }

  /** Start and end of the word over character `wind`, among the words from `i` on. */
  function WordSpan(chars: string, i: nat, wind: int, comment: Option<char>): (r: Option<(nat, nat)>)
    requires i <= |chars|
    ensures r.Some? ==> i <= r.value.0 <= wind < r.value.1 <= |chars|
    ensures comment.None? && i <= wind < |chars| && !FieldDelim(chars[wind]) ==> r.Some?
    decreases |chars| - i
  {
    if i == |chars| then None
    else if FieldDelim(chars[i]) then WordSpan(chars, i + 1, wind, comment)
    else if Some(chars[i]) == comment then None
    else
      WordAdvances(chars[i..]);
      var end := i + WordLength(chars[i..]);
      if i <= wind < end then Some((i, end)) else WordSpan(chars, end, wind, comment)
  }

  /** That word. */
  function WordOver(chars: string, wind: int, comment: Option<char>): (r: Option<string>)
    ensures r.Some? ==> exists a: nat :: StandsAt(chars, r.value, a, |chars|) && a <= wind < a + |r.value|
    ensures comment.None? && 0 <= wind < |chars| && !FieldDelim(chars[wind]) ==> r.Some?
  {
    match WordSpan(chars, 0, wind, comment)
    case None => None
    case Some(span) =>
      assert StandsAt(chars, chars[span.0..span.1], span.0, |chars|);
      Some(chars[span.0..span.1])
  }

  /**
   All words of a line, with the place of each and the index of the one that covers `wind`.
   The scan stops short of the end only at a comment.
   */
  method HistoryTokenizeInternal(chars: string, wind: int, comment: Option<char>)
    returns (words: seq<string>, resultIndex: int, ghost starts: seq<nat>, ghost stop: nat)
    ensures words == Words(chars, comment)
    ensures Placed(chars, words, starts, stop)
    ensures stop == |chars| || Some(chars[stop]) == comment
    ensures if resultIndex == -1 then forall k :: !Covers(words, starts, k, wind)
            else Covers(words, starts, resultIndex, wind)
    ensures wind != -1 ==>
              WordOver(chars, wind, comment) == if resultIndex == -1 then None else Some(words[resultIndex])
  {
    hide Words, WordLength, WordSpan, WordOver, FoundSoFar, Placed;
    words, resultIndex, starts := [], -1, [];
    var i, len := 0, |chars|;
    assert chars[0..] == chars;
    FoundAtStart(chars, wind, comment);
    while i < len
      invariant i <= len
      invariant Words(chars, comment) == words + Words(chars[i..], comment)
      invariant Placed(chars, words, starts, i)
      invariant if resultIndex == -1 then forall k :: !Covers(words, starts, k, wind)
                else Covers(words, starts, resultIndex, wind)
      invariant FoundSoFar(chars, words, resultIndex, i, wind, comment)
    {
      while i < len && FieldDelim(chars[i])
        invariant i <= len
        invariant Words(chars, comment) == words + Words(chars[i..], comment)
        invariant Placed(chars, words, starts, i)
        invariant FoundSoFar(chars, words, resultIndex, i, wind, comment)
      {
        WordSpanSkips(chars, words, resultIndex, i, wind, comment);
        PlacedSkip(chars, words, starts, i);
        WordsSkip(chars, i, comment);
        i := i + 1;
      }
      if i >= len || Some(chars[i]) == comment {
        break;
      }
      var start := i;
      WordsStep(chars, i, comment);
      i := HistoryTokenizeWord(chars, start);
      // The word is never empty, so the step that forces progress after an empty word has no use.
      assert i > start;
      ghost var before := resultIndex;
      if wind != -1 && wind >= start && wind < i {
        resultIndex := |words|;
      }
      WordSpanNext(chars, words, before, start, i, wind, comment);
      PlacedWord(chars, words, starts, start, i);
      CoversMore(words, starts, chars[start..i], start, wind);
      Assoc(words, [chars[start..i]], Words(chars[i..], comment));
      words, starts := words + [chars[start..i]], starts + [start];
    }
    stop := i;
    FoundAtEnd(chars, words, resultIndex, i, wind, comment);
    WordsEnd(chars, i, comment);
    assert words + [] == words;
  }

  /** The word over `wind` among those read up to `i`, or else the one behind them. */
  ghost predicate FoundSoFar(chars: string, words: seq<string>, index: int, i: nat, wind: int, comment: Option<char>) {
    && -1 <= index < |words| && i <= |chars|
    && (index == -1 ==> WordSpan(chars, 0, wind, comment) == WordSpan(chars, i, wind, comment))
    && (index != -1 ==> wind < i && WordOver(chars, wind, comment) == Some(words[index]))
  }

  lemma WordSpanSkips(chars: string, words: seq<string>, index: int, i: nat, wind: int, comment: Option<char>)
    requires FoundSoFar(chars, words, index, i, wind, comment) && i < |chars| && FieldDelim(chars[i])
    ensures FoundSoFar(chars, words, index, i + 1, wind, comment)
  {
    hide WordLength;
  }

  lemma WordSpanNext(chars: string, words: seq<string>, index: int, start: nat, end: nat, wind: int,
      comment: Option<char>)
    requires FoundSoFar(chars, words, index, start, wind, comment)
    requires start < |chars| && !FieldDelim(chars[start]) && Some(chars[start]) != comment
    requires start < end == start + WordLength(chars[start..]) <= |chars|
    ensures FoundSoFar(chars, words + [chars[start..end]], if wind != -1 && start <= wind < end then |words| else index,
                       end, wind, comment)
  {
    hide WordLength;
  }

  lemma FoundAtStart(chars: string, wind: int, comment: Option<char>)
    ensures FoundSoFar(chars, [], -1, 0, wind, comment) && Placed(chars, [], [], 0)
  {
  }

  lemma FoundAtEnd(chars: string, words: seq<string>, index: int, i: nat, wind: int, comment: Option<char>)
    requires FoundSoFar(chars, words, index, i, wind, comment)
    requires i < |chars| ==> !FieldDelim(chars[i]) && Some(chars[i]) == comment
    ensures -1 <= index < |words|
    ensures WordOver(chars, wind, comment) == if index == -1 then None else Some(words[index])
  {
  }

  /** The word over a position is the word over every other position in it. */
  lemma {:induction false} SpanHolds(chars: string, i: nat, p: int, q: int, comment: Option<char>)
    requires i <= |chars| && WordSpan(chars, i, p, comment).Some?
    requires var span := WordSpan(chars, i, p, comment).value; span.0 <= q < span.1
    ensures WordSpan(chars, i, q, comment) == WordSpan(chars, i, p, comment)
    decreases |chars| - i
  {
    hide WordLength;
    if FieldDelim(chars[i]) {
      SpanHolds(chars, i + 1, p, q, comment);
    } else {
      WordAdvances(chars[i..]);
      var end := i + WordLength(chars[i..]);
      if p >= end {
        SpanHolds(chars, end, p, q, comment);
      }
    }
  }

  /** Words behind the end of a word start behind it. */
  lemma {:induction false} SpansApart(chars: string, i: nat, p: int, q: int, comment: Option<char>)
    requires i <= |chars| && WordSpan(chars, i, p, comment).Some? && WordSpan(chars, i, q, comment).Some?
    requires WordSpan(chars, i, p, comment).value.1 <= q
    ensures WordSpan(chars, i, p, comment).value.1 <= WordSpan(chars, i, q, comment).value.0
    decreases |chars| - i
  {
    hide WordLength;
    if FieldDelim(chars[i]) {
      SpansApart(chars, i + 1, p, q, comment);
    } else {
      WordAdvances(chars[i..]);
      var end := i + WordLength(chars[i..]);
      if p >= end {
        SpansApart(chars, end, p, q, comment);
      }
    }
  }

  lemma CoversMore(words: seq<string>, starts: seq<nat>, word: string, start: nat, p: int)
    requires |words| == |starts|
    ensures forall k :: Covers(words, starts, k, p) ==> Covers(words + [word], starts + [start], k, p)
    ensures forall k :: Covers(words + [word], starts + [start], k, p) ==> k == |words| || Covers(words, starts, k, p)
    ensures start <= p < start + |word| <==> Covers(words + [word], starts + [start], |words|, p)
  {
  }

  lemma WordsEnd(chars: string, i: nat, comment: Option<char>)
    requires i <= |chars| && (i < |chars| ==> !FieldDelim(chars[i]) && Some(chars[i]) == comment)
    ensures Words(chars[i..], comment) == []
  {
  }

  method HistoryTokenize(chars: string, comment: Option<char>) returns (r: Option<seq<string>>)
    ensures r == if Words(chars, comment) == [] then None else Some(Words(chars, comment))
  {
    var words, resultIndex, starts, stop := HistoryTokenizeInternal(chars, -1, comment);
    return if words == [] then None else Some(words);
  }

  function Join(words: seq<string>): string {
    if words == [] then "" else if |words| == 1 then words[0] else words[0] + " " + Join(words[1..])
  }

  /** The index a word number stands for in a line of `len` words. */
  function Resolve(number: int, len: nat): int {
    var counted := if number < 0 && number != DOLLAR then len + number - 1 else number;
    if counted == DOLLAR then len - 1 else counted
  }

  /** Words `first` to `last` of a line, `DOLLAR` for the last one and other negatives from the end. */
  function ArgExtract(first: int, last: int, chars: string, comment: char): Option<string> {
    var words := Words(chars, Some(comment));
    var a, b := Resolve(first, |words|), Resolve(last, |words|) + 1;
    if words != [] && 0 <= a < |words| && a <= b <= |words| then Some(Join(words[a..b])) else None
  }

  method HistoryArgExtract(first0: int, last0: int, chars: string, comment: char) returns (r: Option<string>)
    ensures r == ArgExtract(first0, last0, chars, comment)
  {
    hide Words, Join;
    var list := HistoryTokenize(chars, Some(comment));
    if list.None? {
      return None;
    }
    var len := |list.value|;
    var first, last := first0, last0;
    if last < 0 && last != DOLLAR {
      last := len + last - 1;
    }
    if first < 0 && first != DOLLAR {
      first := len + first - 1;
    }
    if last == DOLLAR {
      last := len - 1;
    }
    if first == DOLLAR {
      first := len - 1;
    }
    last := last + 1;
    if first >= len || last > len || first < 0 || last < 0 || first > last {
      return None;
    }
    var parts := Parts(list.value, first, last);
    return Some(Join(parts));
  }

  /** The words `first` up to `last`, pushed one by one. */
  method Parts(list: seq<string>, first: nat, last: nat) returns (parts: seq<string>)
    requires first <= last <= |list|
    ensures parts == list[first..last]
  {
    parts := [];
    var index := first;
    while index < last
      invariant first <= index <= last
      invariant parts == list[first..index]
    {
      SliceStep(list, first, index);
      parts := parts + [list[index]];
      index := index + 1;
    }
  }
}
