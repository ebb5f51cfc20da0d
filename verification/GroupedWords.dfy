/**
 Quotes and parentheses hold a history word together (src/history_expand.rs): a word made of runs of
 characters, quoted stretches and parenthesized groups is one word, whatever spaces and operators stand inside
 its quotes and groups; and operators are words of their own.
 */
module GroupedWords {
  import opened Chars
  import opened Wrappers
  import opened HistoryTokenizer
  import opened HistoryWords
  import opened Sequences

  // ------------------------------------------------------------------- what a word is made of

  /** A stretch of a word: characters outside quotes, a quoted stretch, or a group such as `$(...)` and `<(...)`. */
  datatype Segment = Run(text: string) | Quote(quote: char, body: string) | Group(opener: char, body: string)

  function Spelled(seg: Segment): string {
    match seg
    case Run(text) => text
    case Quote(q, body) => [q] + body + [q]
    case Group(c, body) => [c, '('] + body + ")"
  }

  function Spelling(segs: seq<Segment>): string {
    if segs == [] then "" else Spelled(segs[0]) + Spelling(segs[1..])
  }

  /** How deep in parentheses one is behind `s`, from depth `d` on. */
  function DepthAfter(s: string, d: int): int {
    if s == "" then d
    else DepthAfter(s[..|s| - 1], d) + (if s[|s| - 1] == '(' then 1 else if s[|s| - 1] == ')' then -1 else 0)
  }

  /** Every parenthesis that closes has its own that opens, and the other way around. */
  predicate Balanced(s: string) {
    DepthAfter(s, 0) == 0 && forall k :: 0 <= k <= |s| ==> DepthAfter(s[..k], 0) >= 0
  }

  predicate RunChar(c: char) { c !in WORD_DELIMITERS && c !in QUOTE_CHARACTERS }

  predicate Proper(seg: Segment) {
    match seg
    case Run(text) => forall i :: 0 <= i < |text| ==> RunChar(text[i])
    case Quote(q, body) => q in QUOTE_CHARACTERS && q !in body
    case Group(c, body) => c in GLOB_OPENERS && Balanced(body)
  }

  predicate AllProper(segs: seq<Segment>) { forall k :: 0 <= k < |segs| ==> Proper(segs[k]) }

  /** What may stand behind a word: nothing, or a delimiter that opens no group. */
  predicate EndsWord(rest: string) {
    rest == "" || (rest[0] in WORD_DELIMITERS && rest[0] != '(' && !(rest[0] in "<>" && |rest| > 1 && rest[1] == '('))
  }

  // ------------------------------------------------------------------------- the tail scanner

  lemma StopsBefore(rest: string)
    requires EndsWord(rest)
    ensures TailLength(rest, Plain) == 0
  {
  }

  /** Runs are passed over one by one. */
  lemma {:induction false} PastRun(w: string, other: string)
    requires (forall i :: 0 <= i < |w| ==> RunChar(w[i])) && (other == "" || other[0] != '(')
    ensures TailLength(w + other, Plain) == |w| + TailLength(other, Plain)
    decreases |w|
  {
    if w == "" {
      assert w + other == other;
    } else {
      hide TailLength;
      assert RunChar(w[0]) && (|w| > 1 ==> RunChar(w[1]));
      TailUnfoldConcat(w, other, Plain);
      PastRun(w[1..], other);
    }
  }

  /** Inside quotes nothing but the same quote counts. */
  lemma {:induction false} PastBody(q: char, body: string, other: string)
    requires q in QUOTE_CHARACTERS && q !in body
    ensures TailLength(body + ([q] + other), Quoted(q)) == |body| + 1 + TailLength(other, Plain)
    decreases |body|
  {
    var rest := [q] + other;
    hide TailLength;
    if body == "" {
      assert body + rest == rest && rest[1..] == other;
      assert [q][1..] + other == other;
      TailUnfoldConcat([q], other, Quoted(q));
    } else {
      assert body[0] in body;
      TailUnfoldConcat(body, rest, Quoted(q));
      PastBody(q, body[1..], other);
    }
  }

  lemma PastQuote(q: char, body: string, other: string)
    requires q in QUOTE_CHARACTERS && q !in body
    ensures TailLength([q] + (body + ([q] + other)), Plain) == |body| + 2 + TailLength(other, Plain)
  {
    var rest := body + ([q] + other);
    PastBody(q, body, other);
    hide TailLength;
    assert [q][1..] + rest == rest;
    TailUnfoldConcat([q], rest, Plain);
  }

  lemma {:induction false} DepthFrom(s: string, d: int)
    ensures DepthAfter(s, d) == d + DepthAfter(s, 0)
    decreases |s|
  {
    if s != "" {
      DepthFrom(s[..|s| - 1], d);
    }
  }

  lemma {:induction false} DepthOfConcat(a: string, b: string, d: int)
    ensures DepthAfter(a + b, d) == DepthAfter(b, DepthAfter(a, d))
    decreases |b|
  {
    if b == "" {
      assert a + b == a;
    } else {
      assert (a + b)[..|a + b| - 1] == a + b[..|b| - 1];
      DepthOfConcat(a, b[..|b| - 1], d);
    }
  }

  /** From depth `d` the depth stays above zero up to the end of `s`. */
  predicate StaysInside(s: string, d: int) { forall k :: 0 <= k <= |s| ==> DepthAfter(s[..k], d) > 0 }

  lemma InsideStep(s: string, d: nat)
    requires s != "" && d > 0 && StaysInside(s, d)
    ensures var e := DepthAfter(s[..1], d);
            && e == d + (if s[0] == '(' then 1 else if s[0] == ')' then -1 else 0) && e > 0
            && StaysInside(s[1..], e) && DepthAfter(s[1..], e) == DepthAfter(s, d)
  {
    var e := DepthAfter(s[..1], d);
    assert s[..1][..0] == "";
    assert DepthAfter("", d) == d;
    forall k | 0 <= k <= |s| - 1 ensures DepthAfter(s[1..][..k], e) > 0 {
      assert s[..k + 1] == s[..1] + s[1..][..k];
      DepthOfConcat(s[..1], s[1..][..k], d);
    }
    assert s == s[..1] + s[1..];
    DepthOfConcat(s[..1], s[1..], d);
  }

  lemma {:induction false} PastNested(body: string, other: string, d: nat)
    requires d > 0 && StaysInside(body, d) && DepthAfter(body, d) == 1
    ensures TailLength(body + (")" + other), Nested(d)) == |body| + 1 + TailLength(other, Plain)
    decreases |body|
  {
    var rest := ")" + other;
    hide TailLength, DepthAfter, StaysInside;
    if body == "" {
      NoDepth(d);
      assert body + rest == rest && ")"[1..] + other == other;
      TailUnfoldConcat(")", other, Nested(1));
    } else {
      InsideStep(body, d);
      var e := DepthAfter(body[..1], d);
      TailUnfoldConcat(body, rest, Nested(d));
      PastNested(body[1..], other, e);
    }
  }

  lemma NoDepth(d: int)
    ensures DepthAfter("", d) == d
  {
  }

  lemma BalancedStaysInside(s: string)
    requires Balanced(s)
    ensures StaysInside(s, 1) && DepthAfter(s, 1) == 1
  {
    forall k | 0 <= k <= |s| ensures DepthAfter(s[..k], 1) > 0 {
      DepthFrom(s[..k], 1);
    }
    DepthFrom(s, 1);
  }

  lemma PastGroup(c: char, body: string, other: string)
    requires c in GLOB_OPENERS && Balanced(body)
    ensures TailLength([c, '('] + (body + (")" + other)), Plain) == |body| + 3 + TailLength(other, Plain)
  {
    var rest := body + (")" + other);
    BalancedStaysInside(body);
    PastNested(body, other, 1);
    hide TailLength;
    assert [c, '('][2..] + rest == rest;
    TailUnfoldConcat([c, '('], rest, Plain);
  }

  lemma SpelledThen(seg: Segment, other: string)
    ensures Spelled(seg) + other ==
            match seg
            case Run(text) => text + other
            case Quote(q, body) => [q] + (body + ([q] + other))
            case Group(c, body) => [c, '('] + (body + (")" + other))
  {
  }

  lemma SegmentLength(seg: Segment, other: string)
    requires Proper(seg) && (other == "" || other[0] != '(')
    ensures TailLength(Spelled(seg) + other, Plain) == |Spelled(seg)| + TailLength(other, Plain)
  {
    hide TailLength, Balanced;
    SpelledThen(seg, other);
    match seg
    case Run(text) => PastRun(text, other);
    case Quote(q, body) => PastQuote(q, body, other);
    case Group(c, body) => PastGroup(c, body, other);
  }

  /** No word goes on with an open parenthesis. */
  lemma {:induction false} NeverOpens(segs: seq<Segment>, rest: string)
    requires AllProper(segs) && EndsWord(rest)
    ensures var s := Spelling(segs) + rest; s == "" || s[0] != '('
    decreases |segs|
  {
    if segs == [] {
      assert "" + rest == rest;
    } else {
      NeverOpens(segs[1..], rest);
      assert Proper(segs[0]);
      Assoc(Spelled(segs[0]), Spelling(segs[1..]), rest);
      var head := Spelled(segs[0]);
      if head == "" {
        assert head + (Spelling(segs[1..]) + rest) == Spelling(segs[1..]) + rest;
      } else {
        HeadOfSegment(segs[0]);
      }
    }
  }

  lemma HeadOfSegment(seg: Segment)
    requires Proper(seg) && Spelled(seg) != ""
    ensures Spelled(seg)[0] != '(' && Spelled(seg)[0] !in "()\n"
    ensures Spelled(seg)[0] in OPERATORS ==> seg.Group?
  {
    if seg.Run? {
      assert RunChar(seg.text[0]);
    }
  }

  lemma {:induction false} SegmentsLength(segs: seq<Segment>, rest: string)
    requires AllProper(segs) && EndsWord(rest)
    ensures TailLength(Spelling(segs) + rest, Plain) == |Spelling(segs)|
    decreases |segs|
  {
    hide TailLength, Proper, Spelled;
    if segs == [] {
      assert "" + rest == rest;
      StopsBefore(rest);
    } else {
      var more := Spelling(segs[1..]) + rest;
      Assoc(Spelled(segs[0]), Spelling(segs[1..]), rest);
      NeverOpens(segs[1..], rest);
      SegmentLength(segs[0], more);
      SegmentsLength(segs[1..], rest);
    }
  }

  // --------------------------------------------------------------------------------- one word

  lemma OperatorInSegment(seg: Segment, k: nat)
    requires Proper(seg) && k < |Spelled(seg)| && Spelled(seg)[k] in OPERATORS
    requires forall j :: 0 <= j < k ==> IsDigit(Spelled(seg)[j])
    ensures k == 0 && seg.Group?
    ensures |Spelled(seg)| > 2 && Spelled(seg)[0] in "<>" && Spelled(seg)[1] == '('
  {
    if seg.Run? {
      RunHasNoOperator(seg.text);
    } else {
      HeadIsNoDigit(seg);
    }
  }

  lemma RunHasNoOperator(text: string)
    requires Proper(Run(text))
    ensures forall k :: 0 <= k < |text| ==> text[k] !in OPERATORS
  {
    forall k | 0 <= k < |text| ensures text[k] !in OPERATORS {
      assert RunChar(text[k]);
    }
  }

  lemma HeadIsNoDigit(seg: Segment)
    requires Proper(seg) && !seg.Run?
    ensures Spelled(seg) != "" && !IsDigit(Spelled(seg)[0])
  {
  }

  /** At the front of a word, or behind the digits it begins with, an operator character opens a group. */
  lemma {:induction false} OperatorOpens(segs: seq<Segment>, k: nat)
    requires AllProper(segs) && k < |Spelling(segs)| && Spelling(segs)[k] in OPERATORS
    requires forall j :: 0 <= j < k ==> IsDigit(Spelling(segs)[j])
    ensures k + 2 < |Spelling(segs)| && Spelling(segs)[k] in "<>" && Spelling(segs)[k + 1] == '('
    decreases |segs|
  {
    hide Proper, Spelled, IsDigit;
    var head, more := Spelled(segs[0]), Spelling(segs[1..]);
    assert Proper(segs[0]);
    if k < |head| {
      assert forall j :: 0 <= j < k ==> head[j] == Spelling(segs)[j];
      OperatorInSegment(segs[0], k);
    } else {
      assert forall j :: 0 <= j < |more| ==> more[j] == Spelling(segs)[j + |head|];
      OperatorOpens(segs[1..], k - |head|);
    }
  }

  lemma OperatorThenGroup(s: string)
    requires |s| > 1 && s[0] in "<>" && s[1] == '('
    ensures OperatorLength(s) == 2 + TailLength(s[2..], Nested(1))
    ensures |s| > 2 ==> TailLength(s, Plain) == OperatorLength(s)
  {
  }

  lemma {:induction false} DigitsThenTail(s: string, d: nat)
    requires d <= |s| && forall j :: 0 <= j < d ==> IsDigit(s[j])
    ensures TailLength(s, Plain) == d + TailLength(s[d..], Plain)
    decreases d
  {
    if d == 0 {
      assert s[0..] == s;
    } else {
      assert s[1..][d - 1..] == s[d..];
      assert IsDigit(s[0]) && forall j :: 0 <= j < d - 1 ==> s[1..][j] == s[j + 1];
      DigitsThenTail(s[1..], d - 1);
      DigitIsPlain(s);
    }
  }

  lemma DigitIsPlain(s: string)
    requires s != "" && IsDigit(s[0])
    ensures TailLength(s, Plain) == 1 + TailLength(s[1..], Plain)
  {
    DigitMoves(s[0], |s| > 1 && s[1] == '(', |s| == 2);
    hide MoveOn;
  }

  lemma DigitMoves(c: char, opens: bool, last: bool)
    requires IsDigit(c)
    ensures MoveOn(c, opens, last, Plain) == Move(1, true, Plain)
  {
  }

  /** A number in front of an angle bracket is a file descriptor, not a word. */
  predicate NoDescriptor(w: string, rest: string) {
    DigitRun(w) == |w| ==> rest == "" || (rest[0] != '<' && rest[0] != '>')
  }

  /** A word of runs, quotes and groups is one word in front of any delimiter: nothing inside quotes or
      parentheses ends it, be it a space or an operator. */
  lemma SegmentsAreOneWord(segs: seq<Segment>, rest: string)
    requires AllProper(segs) && Spelling(segs) != "" && EndsWord(rest) && NoDescriptor(Spelling(segs), rest)
    ensures WordLength(Spelling(segs) + rest) == |Spelling(segs)|
  {
    var w := Spelling(segs);
    var s := w + rest;
    SegmentsLength(segs, rest);
    hide TailLength, OperatorLength, DigitRun, AllProper, Spelling;
    NotParenthesis(segs);
    var d := DigitRun(s);
    DigitRunOfConcat(w, rest);
    assert s[0] == w[0];
    if d < |s| && (d == 0 || s[d] == '<' || s[d] == '>') && s[d] in OPERATORS {
      assert d < |w| && s[d] == w[d] by {
        DigitsMeet(w, rest);
      }
      assert forall j :: 0 <= j < d ==> IsDigit(w[j]) by {
        assert forall j :: 0 <= j < d ==> w[j] == s[j];
      }
      OperatorOpens(segs, d);
      assert s[d + 1] == w[d + 1];
      OperatorThenGroup(s[d..]);
      DigitsThenTail(s, d);
    }
  }

  lemma DigitsMeet(w: string, rest: string)
    requires w != "" && EndsWord(rest) && NoDescriptor(w, rest)
    requires var s := w + rest; var d := DigitRun(s); d < |s| && (d == 0 || s[d] == '<' || s[d] == '>')
    ensures DigitRun(w + rest) < |w|
  {
    DigitRunOfConcat(w, rest);
    var s := w + rest;
    assert rest != "" ==> s[|w|] == rest[0] && !IsDigit(rest[0]);
    assert rest != "" ==> DigitRun(rest) == 0;
  }

  lemma {:induction false} NotParenthesis(segs: seq<Segment>)
    requires AllProper(segs) && Spelling(segs) != ""
    ensures Spelling(segs)[0] !in "()\n"
    decreases |segs|
  {
    hide Proper, Spelled;
    assert Proper(segs[0]);
    if Spelled(segs[0]) != "" {
      HeadOfSegment(segs[0]);
    } else {
      assert Spelling(segs) == Spelling(segs[1..]);
      NotParenthesis(segs[1..]);
    }
  }

  // -------------------------------------------------------------------------- a line of words

  function Spellings(words: seq<seq<Segment>>): (r: seq<string>)
    ensures |r| == |words| && forall k :: 0 <= k < |r| ==> r[k] == Spelling(words[k])
  {
    if words == [] then [] else [Spelling(words[0])] + Spellings(words[1..])
  }

  lemma {:induction false} GroupedRejoin(words: seq<seq<Segment>>)
    requires forall k :: 0 <= k < |words| ==> AllProper(words[k]) && Spelling(words[k]) != ""
    ensures Rejoinable(Spellings(words))
    decreases |words|
  {
    hide AllProper, Spelling, WordLength, AfterHead, EndsWord;
    if words != [] {
      var ws := Spellings(words);
      assert ws[1..] == Spellings(words[1..]);
      SpaceEndsWord(AfterHead(ws));
      SegmentsAreOneWord(words[0], AfterHead(ws));
      GroupedRejoin(words[1..]);
    }
  }

  lemma SpaceEndsWord(rest: string)
    requires SpaceOrEnd(rest)
    ensures EndsWord(rest) && forall w :: NoDescriptor(w, rest)
  {
  }

  /** A line of such words between single spaces has exactly those words, whatever their quotes and groups hold. */
  lemma GroupedWordsReadBack(words: seq<seq<Segment>>, comment: Option<char>)
    requires forall k :: 0 <= k < |words| ==> AllProper(words[k]) && StartsWord(Spelling(words[k]), comment)
    ensures Words(Join(Spellings(words)), comment) == Spellings(words)
  {
    hide AllProper, Spelling, Words, Join, Rejoinable;
    var ws := Spellings(words);
    assert forall k :: 0 <= k < |ws| ==> StartsWord(ws[k], comment);
    GroupedRejoin(words);
    JoinedWordsReadBack(ws, comment);
  }

  // --------------------------------------------------------------------------------- operators

  const OPERATOR_WORDS := {"<", ">", ";", "&", "|", "<<", ">>", ";;", "&&", "||", "<<-", "<<<", "&>", ">|"}

  /** The operator is the longest one `s` begins with. */
  predicate LongestOperator(s: string, op: string) {
    op in OPERATOR_WORDS && op <= s && forall other :: other in OPERATOR_WORDS && other <= s ==> |other| <= |op|
  }

  /** An operator that is followed by neither a parenthesis nor, behind an angle bracket, an ampersand. */
  predicate StandsAlone(s: string) {
    s != "" && s[0] in OPERATORS && !(s[0] in "<>" && |s| > 1 && s[1] in "&(")
  }

  /** What the length of an operator word says of its first characters. */
  lemma OperatorCases(s: string)
    requires StandsAlone(s)
    ensures var n := WordLength(s);
            && 1 <= n <= 3 && n <= |s|
            && (n == 3 <==> |s| > 2 && s[0] == '<' == s[1] && s[2] in "-<")
            && (n >= 2 <==> |s| > 1 && (s[1] == s[0] || (s[0] == '&' && s[1] == '>') || (s[0] == '>' && s[1] == '|')))
  {
    OperatorWord(s);
    hide TailLength, DigitRun, WordLength;
  }

  lemma OperatorPrefix(s: string, op: string)
    requires StandsAlone(s) && op in OPERATOR_WORDS && op <= s
    ensures |op| <= WordLength(s)
  {
    OperatorCases(s);
    hide WordLength;
    assert op[0] == s[0] && (|op| > 1 ==> op[1] == s[1]) && (|op| > 2 ==> op[2] == s[2]);
  }

  lemma WordIsOperator(s: string)
    requires StandsAlone(s)
    ensures s[..WordLength(s)] in OPERATOR_WORDS
  {
    OperatorCases(s);
    hide WordLength;
    var n := WordLength(s);
    assert n == 1 ==> s[..n] == [s[0]];
    assert n == 2 ==> s[..n] == [s[0], s[1]];
    assert n == 3 ==> s[..n] == [s[0], s[1], s[2]];
  }

  /** An operator is a word of its own, the longest that is there. */
  lemma OperatorsAreWords(s: string)
    requires StandsAlone(s)
    ensures LongestOperator(s, s[..WordLength(s)])
  {
    WordIsOperator(s);
    forall op | op in OPERATOR_WORDS && op <= s ensures |op| <= WordLength(s) {
      OperatorPrefix(s, op);
    }
    hide *;
  }

  predicate AllDigits(s: string) { forall k :: 0 <= k < |s| ==> IsDigit(s[k]) }

  lemma DuplicateLength(angle: char, to: string, after: string)
    requires AllDigits(to) && angle in "<>" && (after != "" ==> !IsDigit(after[0]))
    ensures OperatorLength([angle, '&'] + (to + after)) == 2 + |to| + if after != "" && after[0] == '-' then 1 else 0
  {
    hide TailLength, DigitRun;
    var op := [angle, '&'] + (to + after);
    AllDigitsRun(to);
    DigitRunOfConcat(to, after);
    NoDigitsAhead(after);
    assert op[2..] == to + after;
    assert after != "" ==> op[2 + |to|] == after[0];
  }

  /** A duplicated file descriptor such as `2>&1` is one word, with the dash that closes it. */
  lemma DescriptorIsOneWord(from: string, angle: char, to: string, dash: bool, rest: string)
    requires AllDigits(from) && AllDigits(to) && angle in "<>"
    requires rest != "" && !dash ==> !IsDigit(rest[0]) && rest[0] != '-'
    ensures var w := from + [angle, '&'] + to + (if dash then "-" else ""); WordLength(w + rest) == |w|
  {
    var close := if dash then "-" else "";
    var w := from + [angle, '&'] + to + close;
    var op := [angle, '&'] + (to + (close + rest));
    assert w + rest == from + op;
    DuplicateLength(angle, to, close + rest);
    hide OperatorLength;
    if from == "" {
      assert from + op == op;
      NoDigitsAhead(op);
      OperatorWord(op);
    } else {
      DescriptorOfOperator(from, op);
      NoDigitsAhead(op);
      OperatorWord(op);
    }
  }

  lemma OperatorWord(s: string)
    requires s != "" && s[0] in OPERATORS
    ensures WordLength(s) == OperatorLength(s)
  {
    hide TailLength, OperatorLength;
    NoDigitsAhead(s);
    assert s[0..] == s;
  }

  lemma {:induction false} AllDigitsRun(s: string)
    requires AllDigits(s)
    ensures DigitRun(s) == |s|
    decreases |s|
  {
    if s != "" {
      AllDigitsRun(s[1..]);
    }
  }

  lemma NoDigitsAhead(s: string)
    requires s != "" ==> !IsDigit(s[0])
    ensures DigitRun(s) == 0
  {
  }

  /** A file descriptor belongs to the operator behind it. */
  lemma DescriptorOfOperator(from: string, s: string)
    requires AllDigits(from) && from != "" && s != "" && s[0] in "<>"
    ensures WordLength(from + s) == |from| + WordLength(s)
  {
    hide TailLength, OperatorLength;
    AllDigitsRun(from);
    DigitRunOfConcat(from, s);
    NoDigitsAhead(s);
    assert (from + s)[0] == from[0] && (from + s)[|from|] == s[0] && (from + s)[|from|..] == s && s[0..] == s;
  }
}
