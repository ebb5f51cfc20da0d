/**
 Modifiers of history expansion (src/history_expand.rs): the pieces of a path, quoting, and
 the substitution `:s` with its patterns.
 */
module HistoryModifiers {
  import opened Wrappers
  import opened HistoryScan
  import opened HistoryTokenizer
  import opened HistoryEvents
  import opened Substitution
  import opened ByWords
  import opened Sequences

  // --------------------------------------------------------------------------- errors

  datatype ErrorKind = EventNotFound | BadWordSpec | SubstFailed | BadModifier | NoPrevSubst

  function ErrorText(kind: ErrorKind): string {
    match kind
    case EventNotFound => "event not found"
    case BadWordSpec => "bad word specifier"
    case SubstFailed => "substitution failed"
    case BadModifier => "unrecognized history modifier"
    case NoPrevSubst => "no previous substitution"
  }

  function HistError(chars: string, start: nat, current: nat, kind: ErrorKind): string {
    var end := Min(current, |chars|);
    chars[Min(start, end)..end] + ": " + ErrorText(kind)
  }

  // -------------------------------------------------------------------------- quoting

  /** `s` with every quote closed, escaped and opened again. */
  function QuoteBody(s: string): string {
    if s == "" then ""
    else (if s[0] == '\'' then "'\\''" else [s[0]]) + QuoteBody(s[1..])
  }

  /** The same with white space left outside the quotes. */
  function BreakBody(s: string): string {
    if s == "" then ""
    else (if s[0] == '\'' then "'\\''" else if FieldDelim(s[0]) then ['\'', s[0], '\''] else [s[0]]) + BreakBody(s[1..])
  }

  method ShSingleQuote(s: string) returns (r: string)
    ensures r == "'" + QuoteBody(s) + "'"
  {
    r := "'";
    var i := 0;
    assert s[0..] == s;
    while i < |s|
      invariant i <= |s|
      invariant "'" + QuoteBody(s) == r + QuoteBody(s[i..])
    {
      DropStep(s, i);
      ghost var piece := if s[i] == '\'' then "'\\''" else [s[i]];
      Assoc(r, piece, QuoteBody(s[i + 1..]));
      r := r + if s[i] == '\'' then "'\\''" else [s[i]];
      i := i + 1;
    }
    assert r + "" == r;
    r := r + "'";
  }

  method QuoteBreaks(s: string) returns (r: string)
    ensures r == "'" + BreakBody(s) + "'"
  {
    r := "'";
    var i := 0;
    assert s[0..] == s;
    while i < |s|
      invariant i <= |s|
      invariant "'" + BreakBody(s) == r + BreakBody(s[i..])
    {
      DropStep(s, i);
      var c := s[i];
      ghost var piece := if c == '\'' then "'\\''" else if FieldDelim(c) then ['\'', c, '\''] else [c];
      Assoc(r, piece, BreakBody(s[i + 1..]));
      if c == '\'' {
        r := r + "'\\''";
      } else if FieldDelim(c) {
        r := r + ['\'', c, '\''];
      } else {
        r := r + [c];
      }
      i := i + 1;
    }
    assert r + "" == r;
    r := r + "'";
  }

  /** How a shell reads text of quotes and escapes as words, with the word it has begun; `None` when a quote or
      an escape is not finished. */
  function ShellWords(s: string, quoted: bool, word: Option<string>): Option<seq<string>>
    decreases |s|
  {
    if s == "" then if quoted then None else Some(if word.Some? then [word.value] else [])
    else if s[0] == '\'' then ShellWords(s[1..], !quoted, Some(OrEmpty(word)))
    else if s[0] == '\\' && !quoted then
      if |s| == 1 then None else ShellWords(s[2..], quoted, Some(OrEmpty(word) + [s[1]]))
    else if FieldDelim(s[0]) && !quoted then
      var more := ShellWords(s[1..], false, None);
      if word.Some? && more.Some? then Some([word.value] + more.value) else more
    else ShellWords(s[1..], quoted, Some(OrEmpty(word) + [s[0]]))
  }

  /** A text cut at each white space character. */
  function Pieces(s: string): (r: seq<string>)
    ensures r != []
  {
    if s == "" then [""]
    else
      var rest := Pieces(s[1..]);
      if FieldDelim(s[0]) then [""] + rest else [[s[0]] + rest[0]] + rest[1..]
  }

  lemma ReadQuote(t: string, quoted: bool, word: Option<string>)
    ensures ShellWords("'" + t, quoted, word) == ShellWords(t, !quoted, Some(OrEmpty(word)))
  {
    assert ("'" + t)[1..] == t;
  }

  lemma ReadEscaped(c: char, t: string, word: string)
    ensures ShellWords(['\\', c] + t, false, Some(word)) == ShellWords(t, false, Some(word + [c]))
  {
    assert (['\\', c] + t)[2..] == t;
  }

  lemma ReadBlank(c: char, t: string, word: string)
    requires FieldDelim(c)
    ensures ShellWords([c] + t, false, Some(word)) ==
            var more := ShellWords(t, false, None); if more.Some? then Some([word] + more.value) else None
  {
    assert ([c] + t)[1..] == t;
  }

  lemma ReadInQuotes(c: char, t: string, word: string)
    requires c != '\''
    ensures ShellWords([c] + t, true, Some(word)) == ShellWords(t, true, Some(word + [c]))
  {
    assert ([c] + t)[1..] == t;
  }

  /** A quote that is closed, escaped and opened again. */
  lemma ReadQuoteEscape(t: string, word: string)
    ensures ShellWords("'\\''" + t, true, Some(word)) == ShellWords(t, true, Some(word + "'"))
  {
    hide ShellWords;
    ReadQuote("\\'" + ("'" + t), true, Some(word));
    ReadEscaped('\'', "'" + t, word);
    ReadQuote(t, false, Some(word + "'"));
    assert "'\\''" + t == "'" + ("\\'" + ("'" + t));
    assert "\\'" + ("'" + t) == ['\\', '\''] + ("'" + t);
  }

  /** White space between quotes ends a word and begins the next. */
  lemma ReadBreak(c: char, t: string, word: string)
    requires FieldDelim(c)
    ensures ShellWords(['\'', c, '\''] + t, true, Some(word)) ==
            var more := ShellWords(t, true, Some("")); if more.Some? then Some([word] + more.value) else None
  {
    hide ShellWords;
    ReadQuote([c] + ("'" + t), true, Some(word));
    ReadBlank(c, "'" + t, word);
    ReadQuote(t, false, None);
    assert ['\'', c, '\''] + t == "'" + ([c] + ("'" + t));
  }

  lemma ReadClose(word: string)
    ensures ShellWords("'", true, Some(word)) == Some([word])
  {
    assert ShellWords("", false, Some(word)) == Some([word]);
  }

  lemma {:induction false} QuoteBodyReadsBack(s: string, word: string)
    ensures ShellWords(QuoteBody(s) + "'", true, Some(word)) == Some([word + s])
    decreases |s|
  {
    hide ShellWords;
    if s == "" {
      ReadClose(word);
      assert "" + "'" == "'" && word + "" == word;
    } else {
      var rest := QuoteBody(s[1..]) + "'";
      QuoteBodyReadsBack(s[1..], word + [s[0]]);
      assert word + [s[0]] + s[1..] == word + s;
      if s[0] == '\'' {
        Assoc("'\\''", QuoteBody(s[1..]), "'");
        ReadQuoteEscape(rest, word);
        assert "'" == [s[0]];
      } else {
        Assoc([s[0]], QuoteBody(s[1..]), "'");
        ReadInQuotes(s[0], rest, word);
      }
    }
  }

  /** The pieces of a text behind a word that is begun. */
  function Continued(word: string, pieces: seq<string>): seq<string>
    requires pieces != []
  {
    [word + pieces[0]] + pieces[1..]
  }

  lemma {:induction false} BreakBodyReadsBack(s: string, word: string)
    ensures ShellWords(BreakBody(s) + "'", true, Some(word)) == Some(Continued(word, Pieces(s)))
    decreases |s|
  {
    hide ShellWords, FieldDelim;
    if s == "" {
      ReadClose(word);
      assert "" + "'" == "'";
      ContinuedNothing(word);
    } else {
      var c, body, pieces := s[0], BreakBody(s[1..]), Pieces(s[1..]);
      if c == '\'' {
        BreakBodyReadsBack(s[1..], word + [c]);
        Assoc("'\\''", body, "'");
        ReadQuoteEscape(body + "'", word);
        NoBlank();
        assert "'" == [c];
        ContinuedChar(word, c, pieces);
      } else if FieldDelim(c) {
        BreakBodyReadsBack(s[1..], "");
        Assoc(['\'', c, '\''], body, "'");
        ReadBreak(c, body + "'", word);
        ContinuedBreak(word, pieces);
      } else {
        BreakBodyReadsBack(s[1..], word + [c]);
        Assoc([c], body, "'");
        ReadInQuotes(c, body + "'", word);
        ContinuedChar(word, c, pieces);
      }
    }
  }

  lemma NoBlank()
    ensures !FieldDelim('\'')
  {
  }

  lemma ContinuedNothing(word: string)
    ensures Continued(word, [""]) == [word]
  {
    var one: seq<string> := [""];
    assert one[1..] == [] && word + "" == word;
  }

  lemma ContinuedChar(word: string, c: char, pieces: seq<string>)
    requires pieces != []
    ensures Continued(word + [c], pieces) == Continued(word, [[c] + pieces[0]] + pieces[1..])
  {
    Assoc(word, [c], pieces[0]);
    assert ([[c] + pieces[0]] + pieces[1..])[1..] == pieces[1..];
  }

  lemma ContinuedBreak(word: string, pieces: seq<string>)
    requires pieces != []
    ensures Continued(word, [""] + pieces) == [word] + Continued("", pieces)
  {
    assert word + "" == word && "" + pieces[0] == pieces[0] && [pieces[0]] + pieces[1..] == pieces;
    assert ([""] + pieces)[1..] == pieces;
  }

  /** What `:q` quotes a shell reads as one word, the text itself; what `:x` quotes, as the pieces of the text
      between its white space. */
  lemma QuotedReadsBack(s: string)
    ensures ShellWords("'" + QuoteBody(s) + "'", false, None) == Some([s])
    ensures ShellWords("'" + BreakBody(s) + "'", false, None) == Some(Pieces(s))
  {
    hide ShellWords, QuoteBody, BreakBody;
    QuoteBodyReadsBack(s, "");
    BreakBodyReadsBack(s, "");
    Assoc("'", QuoteBody(s), "'");
    Assoc("'", BreakBody(s), "'");
    ReadQuote(QuoteBody(s) + "'", false, None);
    ReadQuote(BreakBody(s) + "'", false, None);
    assert "" + s == s && "" + Pieces(s)[0] == Pieces(s)[0] && [Pieces(s)[0]] + Pieces(s)[1..] == Pieces(s);
  }

  // -------------------------------------------------------------------- pieces of a path

  /** The last place of `c`. */
  function LastOf(s: string, c: char): (r: Option<nat>)
    ensures r.Some? ==> r.value < |s| && s[r.value] == c && forall k :: r.value < k < |s| ==> s[k] != c
    ensures r.None? ==> c !in s
  {
    if s == "" then None
    else if s[|s| - 1] == c then Some(|s| - 1)
    else LastOf(s[..|s| - 1], c)
  }

  /** The modifiers `t`, `h`, `r` and `e`. */
  function Tail(s: string): string { var p := LastOf(s, '/'); if p.Some? then s[p.value + 1..] else s }
  function Head(s: string): string { var p := LastOf(s, '/'); if p.Some? then s[..p.value] else s }
  function Root(s: string): string { var p := LastOf(s, '.'); if p.Some? then s[..p.value] else s }
  function Suffix(s: string): string { var p := LastOf(s, '.'); if p.Some? then s[p.value..] else s }

  /** Head and tail make up the path around its last slash, root and suffix make up the name. */
  lemma PathParts(s: string)
    ensures if '/' in s then Head(s) + "/" + Tail(s) == s && '/' !in Tail(s) else Head(s) == s == Tail(s)
    ensures if '.' in s then Root(s) + Suffix(s) == s && '.' !in Suffix(s)[1..] else Root(s) == s == Suffix(s)
  {
  }

  // ------------------------------------------------------------------ substitution patterns

  /** A pattern up to `delimiter`, in which a backslash quotes the delimiter: its text and its length. */
  function TakePattern(s: string, delimiter: char): (r: (string, nat))
    ensures r.1 <= |s| && (r.1 < |s| ==> s[r.1] == delimiter)
    ensures r.1 == 0 ==> r.0 == ""
    decreases |s|
  {
    if s == "" || s[0] == delimiter then ("", 0)
    else if s[0] == '\\' && CharAt(s, 1, delimiter) then
      var r := TakePattern(s[2..], delimiter);
      ([delimiter] + r.0, 2 + r.1)
    else
      var r := TakePattern(s[1..], delimiter);
      ([s[0]] + r.0, 1 + r.1)
  }

  /** The pattern at `i`, `None` for an empty left side, and what comes after it and its delimiter. */
  function PatternAt(chars: string, i: nat, delimiter: char, isRhs: bool): (r: (Option<string>, nat))
    requires i <= |chars|
    ensures i <= r.1 <= |chars|
    ensures isRhs ==> r.0.Some?
  {
    var (text, n) := TakePattern(chars[i..], delimiter);
    (if n > 0 || isRhs then Some(text) else None, if i + n < |chars| then i + n + 1 else i + n)
  }

  lemma TakePatternAt(chars: string, i: nat, delimiter: char)
    requires i <= |chars|
    ensures var r := TakePattern(chars[i..], delimiter);
            if i == |chars| || chars[i] == delimiter then r == ("", 0)
            else
              var k := if chars[i] == '\\' && CharAt(chars, i + 1, delimiter) then i + 2 else i + 1;
              var more := TakePattern(chars[k..], delimiter);
              r == ([chars[k - 1]] + more.0, k - i + more.1)
  {
    var s := chars[i..];
    if i < |chars| && chars[i] != delimiter {
      assert s[0] == chars[i];
      if i + 1 < |chars| {
        assert s[1] == chars[i + 1];
        assert s[2..] == chars[i + 2..];
      }
      assert s[1..] == chars[i + 1..];
    }
  }

  method GetSubstPattern(chars: string, i: nat, delimiter: char, isRhs: bool) returns (s: Option<string>, ni: nat)
    requires i <= |chars|
    ensures (s, ni) == PatternAt(chars, i, delimiter, isRhs)
  {
    hide TakePattern;
    var si := i;
    while si < |chars| && chars[si] != delimiter
      invariant i <= si <= |chars|
      invariant i + TakePattern(chars[i..], delimiter).1 == si + TakePattern(chars[si..], delimiter).1
    {
      TakePatternAt(chars, si, delimiter);
      if chars[si] == '\\' && CharAt(chars, si + 1, delimiter) {
        si := si + 1;
      }
      si := si + 1;
    }
    TakePatternAt(chars, si, delimiter);
    var closed := si < |chars|;
    s := None;
    if si > i || isRhs {
      var buf, k := "", i;
      ghost var all := TakePattern(chars[i..], delimiter).0;
      assert "" + all == all;
      while k < si
        invariant i <= k <= si
        invariant k + TakePattern(chars[k..], delimiter).1 == si
        invariant all == buf + TakePattern(chars[k..], delimiter).0
      {
        TakePatternAt(chars, k, delimiter);
        if chars[k] == '\\' && CharAt(chars, k + 1, delimiter) {
          k := k + 1;
        }
        Assoc(buf, [chars[k]], TakePattern(chars[k + 1..], delimiter).0);
        buf := buf + [chars[k]];
        k := k + 1;
      }
      assert buf + "" == buf;
      s := Some(buf);
    }
    ni := si;
    if closed {
      ni := ni + 1;
    }
  }

  /** `text` with a backslash before every `c`. */
  function Escape(text: string, c: char): string {
    if text == "" then "" else (if text[0] == c then ['\\', c] else [text[0]]) + Escape(text[1..], c)
  }

  predicate EndsInBackslash(text: string) { text != "" && text[|text| - 1] == '\\' }

  lemma TakeQuoted(delimiter: char, rest: string)
    requires delimiter != '\\'
    ensures var more := TakePattern(rest, delimiter);
            TakePattern(['\\', delimiter] + rest, delimiter) == ([delimiter] + more.0, 2 + more.1)
  {
    assert (['\\', delimiter] + rest)[2..] == rest;
  }

  lemma TakePlain(c: char, delimiter: char, rest: string)
    requires c != delimiter && !(c == '\\' && CharAt(rest, 0, delimiter))
    ensures var more := TakePattern(rest, delimiter);
            TakePattern([c] + rest, delimiter) == ([c] + more.0, 1 + more.1)
  {
    assert ([c] + rest)[1..] == rest;
  }

  /** The text and the length of an escaped text in front of its delimiter. */
  predicate ReadsBack(text: string, delimiter: char, post: string) {
    TakePattern(Escape(text, delimiter) + ([delimiter] + post), delimiter) == (text, |Escape(text, delimiter)|)
  }

  lemma EscapeCons(c: char, more: string, delimiter: char, tail: string)
    ensures Escape([c] + more, delimiter) + tail
         == (if c == delimiter then ['\\', c] else [c]) + (Escape(more, delimiter) + tail)
  {
    assert ([c] + more)[1..] == more;
    Assoc(if c == delimiter then ['\\', c] else [c], Escape(more, delimiter), tail);
  }

  lemma EscapeConsLength(c: char, more: string, delimiter: char)
    ensures |Escape([c] + more, delimiter)| == (if c == delimiter then 2 else 1) + |Escape(more, delimiter)|
  {
    assert ([c] + more)[1..] == more;
  }

  lemma ReadsBackNothing(delimiter: char, post: string)
    ensures ReadsBack("", delimiter, post)
  {
    assert "" + ([delimiter] + post) == [delimiter] + post;
  }

  lemma ReadsBackQuoted(more: string, delimiter: char, post: string)
    requires delimiter != '\\'
    ensures ReadsBack([delimiter] + more, delimiter, post) <==> ReadsBack(more, delimiter, post)
  {
    hide TakePattern, Escape;
    var rest := Escape(more, delimiter) + ([delimiter] + post);
    EscapeCons(delimiter, more, delimiter, [delimiter] + post);
    EscapeConsLength(delimiter, more, delimiter);
    PairHead(delimiter, TakePattern(rest, delimiter).0, more);
    TakeQuoted(delimiter, rest);
  }

  lemma ReadsBackPlain(c: char, more: string, delimiter: char, post: string)
    requires c != delimiter && delimiter != '\\' && (c == '\\' ==> more != "")
    ensures ReadsBack([c] + more, delimiter, post) <==> ReadsBack(more, delimiter, post)
  {
    hide TakePattern, Escape;
    var rest := Escape(more, delimiter) + ([delimiter] + post);
    EscapeCons(c, more, delimiter, [delimiter] + post);
    EscapeConsLength(c, more, delimiter);
    PairHead(c, TakePattern(rest, delimiter).0, more);
    EscapeStarts(more, delimiter, post);
    TakePlain(c, delimiter, rest);
  }

  lemma LoneBackslash(delimiter: char, post: string)
    requires delimiter != '\\'
    ensures !ReadsBack("\\", delimiter, post)
  {
    hide TakePattern;
    EscapeNothing(delimiter);
    EscapeConsLength('\\', "", delimiter);
    EscapeCons('\\', "", delimiter, [delimiter] + post);
    assert ['\\'] + "" == "\\" && "" + ([delimiter] + post) == [delimiter] + post;
    assert ['\\'] + ([delimiter] + post) == ['\\', delimiter] + post;
    TakeQuoted(delimiter, post);
  }

  /** An escaped text before its delimiter is read back exactly when it does not end in a backslash. */
  lemma {:induction false} PatternReadsBack(text: string, delimiter: char, post: string)
    requires delimiter != '\\'
    ensures ReadsBack(text, delimiter, post) <==> !EndsInBackslash(text)
    decreases |text|
  {
    hide ReadsBack;
    if text == "" {
      ReadsBackNothing(delimiter, post);
    } else {
      var c, more := text[0], text[1..];
      assert text == [c] + more;
      PatternReadsBack(more, delimiter, post);
      if c == delimiter {
        ReadsBackQuoted(more, delimiter, post);
      } else if c == '\\' && more == "" {
        assert text == "\\";
        LoneBackslash(delimiter, post);
      } else {
        ReadsBackPlain(c, more, delimiter, post);
      }
    }
  }

  lemma EscapeNothing(delimiter: char)
    ensures Escape("", delimiter) == ""
  {
  }

  lemma PairHead(c: char, a: string, b: string)
    ensures [c] + a == [c] + b <==> a == b
  {
    assert ([c] + a)[1..] == a && ([c] + b)[1..] == b;
  }

  /** Only in front of the closing delimiter does an escaped text start with the delimiter. */
  lemma EscapeStarts(text: string, delimiter: char, post: string)
    requires delimiter != '\\'
    ensures var s := Escape(text, delimiter) + ([delimiter] + post); s != "" && (s[0] == delimiter <==> text == "")
  {
  }

  // ---------------------------------------------------------------- ampersands in replacements

  /** `rhs` with every unquoted ampersand replaced by `lhs`. */
  function WithAmpersands(lhs: string, rhs: string): string
    decreases |rhs|
  {
    if rhs == "" then ""
    else if rhs[0] == '&' then lhs + WithAmpersands(lhs, rhs[1..])
    else if rhs[0] == '\\' && CharAt(rhs, 1, '&') then "&" + WithAmpersands(lhs, rhs[2..])
    else [rhs[0]] + WithAmpersands(lhs, rhs[1..])
  }

  lemma AmpersandAt(lhs: string, chars: string, i: nat)
    requires i < |chars|
    ensures var quoted := chars[i] == '\\' && CharAt(chars, i + 1, '&');
            var k := if quoted then i + 2 else i + 1;
            var piece := if chars[i] == '&' then lhs else [chars[k - 1]];
            WithAmpersands(lhs, chars[i..]) == piece + WithAmpersands(lhs, chars[k..])
  {
    var s := chars[i..];
    assert s[0] == chars[i];
    if i + 1 < |chars| {
      assert s[1] == chars[i + 1] && s[2..] == chars[i + 2..];
    }
    assert s[1..] == chars[i + 1..];
    if chars[i] == '\\' && CharAt(chars, i + 1, '&') {
      assert WithAmpersands(lhs, s) == "&" + WithAmpersands(lhs, s[2..]);
      assert [chars[i + 1]] == "&";
    }
  }

  method PostprocSubstRhs(state: HistEngineState)
    modifies state`substRhs
    ensures state.substRhs == Some(WithAmpersands(OrEmpty(old(state.substLhs)), OrEmpty(old(state.substRhs))))
  {
    hide WithAmpersands;
    var lhs, chars := OrEmpty(state.substLhs), OrEmpty(state.substRhs);
    var out, i := "", 0;
    ghost var all := WithAmpersands(lhs, chars);
    assert chars[0..] == chars && "" + all == all;
    while i < |chars|
      invariant i <= |chars|
      invariant all == out + WithAmpersands(lhs, chars[i..])
    {
      AmpersandAt(lhs, chars, i);
      if chars[i] == '&' {
        Assoc(out, lhs, WithAmpersands(lhs, chars[i + 1..]));
        out := out + lhs;
      } else {
        if chars[i] == '\\' && CharAt(chars, i + 1, '&') {
          i := i + 1;
        }
        Assoc(out, [chars[i]], WithAmpersands(lhs, chars[i + 1..]));
        out := out + [chars[i]];
      }
      i := i + 1;
    }
    NoAmpersands(lhs);
    assert chars[i..] == "" && out + "" == out;
    state.substRhs := Some(out);
  }

  lemma NoAmpersands(lhs: string)
    ensures WithAmpersands(lhs, "") == ""
  {
  }

  /** Any replacement can be written: escaped ampersands are read back for every left side. */
  lemma {:induction false} AmpersandsReadBack(lhs: string, text: string)
    ensures WithAmpersands(lhs, Escape(text, '&')) == text
    decreases |text|
  {
    if text != "" {
      var c, more := text[0], text[1..];
      AmpersandsReadBack(lhs, more);
      var s := Escape(text, '&');
      assert text == [c] + more;
      if c == '&' {
        assert s == ['\\', '&'] + Escape(more, '&');
        assert s[2..] == Escape(more, '&');
      } else {
        assert s == [c] + Escape(more, '&');
        assert s[1..] == Escape(more, '&');
        EscapeNeverStarts(more);
      }
    }
  }

  lemma EscapeNeverStarts(text: string)
    ensures !CharAt(Escape(text, '&'), 0, '&')
  {
  }

  // ------------------------------------------------------------------------ substitution

  /** A procedure that substitutes word by word: text, pattern and replacement to the outcome. */
  type WordSubst = (string, string, string) -> Substituted

  /** It gives what the loop comes to, where that need not end. */
  ghost predicate ByTheLoop(f: WordSubst) {
    forall text, lhs, rhs :: Occurs(lhs, rhs) ==> f(text, lhs, rhs) == WordsOutcome(text, lhs, rhs)
  }

  /** What the substitution loop makes of `text`. */
  ghost function SubstOutcome(text: string, lhs: string, rhs: string, global: bool, byWords: bool): Substituted
    requires lhs != ""
  {
    if |lhs| > |text| then NotFound
    else if global then
      if RefindsItself(lhs, rhs) && lhs[0] in text then Forever
      else if !Occurs(lhs, text) then NotFound
      else
        EndsFrom(lhs, rhs, Config(text, 0));
        var w :| Yields(lhs, rhs, Config(text, 0), w);
        Replaced(w)
    else if byWords then WordsOutcome(text, lhs, rhs)
    else if Occurs(lhs, text) then Replaced(FirstReplaced(text, lhs, rhs))
    else NotFound
  }

  lemma GlobalOutcome(text: string, lhs: string, rhs: string, byWords: bool, work: string)
    requires lhs != "" && |lhs| <= |text| && Occurs(lhs, text) && !(RefindsItself(lhs, rhs) && lhs[0] in text)
    requires Yields(lhs, rhs, Config(text, 0), work)
    ensures SubstOutcome(text, lhs, rhs, true, byWords) == Replaced(work)
  {
    hide Yields, Occurs;
    forall w | Yields(lhs, rhs, Config(text, 0), w) ensures w == work {
      ResultIsUnique(lhs, rhs, Config(text, 0), w, work);
    }
  }

  lemma AsTheLoop(f: WordSubst, text: string, lhs: string, rhs: string)
    requires ByTheLoop(f) && Occurs(lhs, rhs)
    ensures f(text, lhs, rhs) == WordsOutcome(text, lhs, rhs)
  {
  }

  method SubstituteIn(text: string, lhs: string, rhs: string, global: bool, byWords: bool, f: WordSubst)
    returns (r: Substituted)
    requires lhs != "" && ByTheLoop(f)
    ensures r == SubstOutcome(text, lhs, rhs, global, byWords)
  {
    hide Yields, Occurs, WordsOutcome, LeftmostFrom, FirstReplaced, ByTheLoop, RefindsItself;
    if |lhs| > |text| {
      return NotFound;
    }
    if global && RefindsItself(lhs, rhs) && lhs[0] in text {
      return Forever;
    }
    if !global && byWords {
      LeftmostOccurs(rhs, lhs);
      if LeftmostFrom(rhs, lhs, 0).None? {
        r := SubstituteEachWord(text, lhs, rhs);
      } else {
        r := f(text, lhs, rhs);
        AsTheLoop(f, text, lhs, rhs);
      }
      return;
    }
    var work, failed := Substitute(text, lhs, rhs, global);
    if failed {
      LeftmostOccurs(text, lhs);
      return NotFound;
    }
    if global {
      GlobalOutcome(text, lhs, rhs, byWords, work);
    } else {
      ghost var i: nat :| At(text, i, lhs) && (forall p: nat :: p < i ==> !At(text, p, lhs))
                          && work == text[..i] + rhs + text[i + |lhs|..];
      FirstReplacedIs(text, lhs, rhs, i);
    }
    return Replaced(work);
  }

  // --------------------------------------------------------------------------- modifiers

  datatype Quoting = Unchanged | Quotes | Breaks

  datatype Mods = Mods(global: bool, byWords: bool, quoting: Quoting, printOnly: bool)

  const NO_MODS := Mods(false, false, Unchanged, false)

  datatype Modified =
    | Modified(text: string, next: nat, mods: Mods, engine: Engine)
    | Rejected(message: string, engine: Engine)
    | Endless(engine: Engine)

  /** The `g`, `a` or `G` in front of a modifier letter. */
  function Prefixed(c: char, mods: Mods): Mods {
    if c == 'g' || c == 'a' then mods.(global := true)
    else if c == 'G' then mods.(byWords := true)
    else mods
  }

  predicate IsPrefix(c: char) { c == 'g' || c == 'a' || c == 'G' }

  /** The modifiers that only change the text or a flag. */
  predicate IsSimple(c: char) { c == 'q' || c == 'x' || c == 'p' || c == 't' || c == 'h' || c == 'r' || c == 'e' }

  function SimpleMods(c: char, mods: Mods): Mods {
    if c == 'q' then mods.(quoting := Quotes)
    else if c == 'x' then mods.(quoting := Breaks)
    else if c == 'p' then mods.(printOnly := true)
    else mods
  }

  function SimpleText(c: char, text: string): string {
    if c == 't' then Tail(text)
    else if c == 'h' then Head(text)
    else if c == 'r' then Root(text)
    else if c == 'e' then Suffix(text)
    else text
  }

  /** The engine with the patterns of an `s` modifier that starts at `i`, behind its delimiter; and where they end. */
  function WithPatterns(chars: string, i: nat, delimiter: char, engine: Engine): (r: (Engine, nat))
    requires i <= |chars|
    ensures i <= r.1 <= |chars|
  {
    var (left, middle) := PatternAt(chars, i, delimiter, false);
    var (right, next) := PatternAt(chars, middle, delimiter, true);
    var searched := engine.searchString.Some? && engine.searchString.value != "";
    var lhs := if left.Some? then left
               else if engine.substLhs.None? && searched then engine.searchString
               else engine.substLhs;
    var rhs := if lhs.Some? && '&' in right.value then Some(WithAmpersands(lhs.value, right.value)) else right;
    (engine.(substLhs := lhs, substRhs := rhs), next)
  }

  /** All modifiers from `i` on; `from` is where they began, for the error messages. */
  ghost function Modify(chars: string, i: nat, from: nat, mods: Mods, text: string, engine: Engine): (r: Modified)
    requires i <= |chars|
    ensures r.Modified? ==> i <= r.next <= |chars|
    decreases |chars| - i, 0
  {
    if !CharAt(chars, i, ':') || i + 1 == |chars| then Modified(text, i, mods, engine)
    else
      var m := Prefixed(chars[i + 1], mods);
      var j := if IsPrefix(chars[i + 1]) then i + 1 else i;
      var c := if j + 1 < |chars| then chars[j + 1] else '\0';
      if IsSimple(c) then Modify(chars, j + 2, from, SimpleMods(c, m), SimpleText(c, text), engine)
      else if c == '&' then ModifyBySubstitution(chars, j + 2, from, m, text, engine)
      else if c == 's' && j + 2 == |chars| then Modified(text, j, m, engine)
      else if c == 's' then
        var (e, next) := WithPatterns(chars, j + 3, chars[j + 2], engine);
        ModifyBySubstitution(chars, next, from, m, text, e)
      else Rejected(HistError(chars, j + 1, j + 2, BadModifier), engine)
  }

  /** A substitution with the patterns of the engine, then the modifiers from `next` on. */
  ghost function ModifyBySubstitution(chars: string, next: nat, from: nat, mods: Mods, text: string, engine: Engine)
    : (r: Modified)
    requires next <= |chars|
    ensures r.Modified? ==> next <= r.next <= |chars|
    decreases |chars| - next, 1
  {
    var lhs, rhs := OrEmpty(engine.substLhs), OrEmpty(engine.substRhs);
    if lhs == "" then Rejected(HistError(chars, from, next, NoPrevSubst), engine)
    else
      match SubstOutcome(text, lhs, rhs, mods.global, mods.byWords)
      case NotFound => Rejected(HistError(chars, from, next, SubstFailed), engine)
      case Forever => Endless(engine)
      case Replaced(t) => Modify(chars, next, from, mods, t, engine)
  }

  lemma PatternAtReads(chars: string, i: nat, text: string, delimiter: char, isRhs: bool, post: string)
    requires delimiter != '\\' && i <= |chars| && !EndsInBackslash(text) && (isRhs || text != "")
    requires chars[i..] == Escape(text, delimiter) + ([delimiter] + post)
    ensures PatternAt(chars, i, delimiter, isRhs) == (Some(text), |chars| - |post|)
    ensures chars[|chars| - |post|..] == post
  {
    hide TakePattern, Escape;
    PatternReadsBack(text, delimiter, post);
    var n := |Escape(text, delimiter)|;
    assert |chars| == i + n + 1 + |post|;
    AfterPattern(chars, i, Escape(text, delimiter), delimiter, post);
    if text != "" {
      EscapeIsLonger(text, delimiter);
    }
  }

  lemma AfterPattern(chars: string, i: nat, a: string, delimiter: char, post: string)
    requires i <= |chars| && chars[i..] == a + ([delimiter] + post)
    ensures |chars| >= |post| && chars[|chars| - |post|..] == post
  {
    assert chars[i..][|a| + 1..] == post;
  }

  lemma {:induction false} EscapeIsLonger(text: string, c: char)
    ensures |Escape(text, c)| >= |text|
    ensures c !in text ==> Escape(text, c) == text
    ensures c in text ==> c in Escape(text, c)
    decreases |text|
  {
    if text != "" {
      EscapeIsLonger(text[1..], c);
      assert text == [text[0]] + text[1..];
    }
  }

  lemma {:induction false} EscapeEnd(text: string, c: char)
    requires c != '\\'
    ensures EndsInBackslash(Escape(text, c)) <==> EndsInBackslash(text)
    ensures Escape(text, c) == "" <==> text == ""
    decreases |text|
  {
    if text != "" {
      EscapeEnd(text[1..], c);
    }
  }

  /**
   Every pattern and every replacement that do not end in a backslash can be written in an `s`
   modifier, with any delimiter, and are what the substitution then uses.
   */
  lemma PatternsReadBack(chars: string, i: nat, lhs: string, rhs: string, delimiter: char, post: string, engine: Engine)
    requires delimiter != '\\' && i <= |chars| && lhs != ""
    requires !EndsInBackslash(lhs) && !EndsInBackslash(rhs)
    requires var right := Escape(Escape(rhs, '&'), delimiter) + ([delimiter] + post);
             chars[i..] == Escape(lhs, delimiter) + ([delimiter] + right)
    ensures WithPatterns(chars, i, delimiter, engine)
         == (engine.(substLhs := Some(lhs), substRhs := Some(rhs)), |chars| - |post|)
  {
    hide PatternAt, Escape, WithAmpersands, EndsInBackslash;
    var written := Escape(rhs, '&');
    var right := Escape(written, delimiter) + ([delimiter] + post);
    EscapeEnd(rhs, '&');
    PatternAtReads(chars, i, lhs, delimiter, false, right);
    PatternAtReads(chars, |chars| - |right|, written, delimiter, true, post);
    AmpersandsReadBack(lhs, rhs);
    EscapeIsLonger(rhs, '&');
  }

  /** An escaped text at the end of a line needs no closing delimiter. */
  lemma {:induction false} EndReadsBack(text: string, delimiter: char)
    requires delimiter != '\\'
    ensures TakePattern(Escape(text, delimiter), delimiter) == (text, |Escape(text, delimiter)|)
    decreases |text|
  {
    if text != "" {
      var c, more := text[0], text[1..];
      EndReadsBack(more, delimiter);
      assert text == [c] + more;
      if c == delimiter {
        TakeQuoted(delimiter, Escape(more, delimiter));
      } else {
        EscapeNeverBegins(more, delimiter);
        TakePlain(c, delimiter, Escape(more, delimiter));
      }
    }
  }

  lemma EscapeNeverBegins(text: string, c: char)
    requires c != '\\'
    ensures !CharAt(Escape(text, c), 0, c)
  {
  }

  /** The replacement at the end of a line may be left open. */
  lemma OpenPatternsReadBack(chars: string, i: nat, lhs: string, rhs: string, delimiter: char, engine: Engine)
    requires delimiter != '\\' && i <= |chars| && lhs != "" && !EndsInBackslash(lhs)
    requires chars[i..] == Escape(lhs, delimiter) + ([delimiter] + Escape(Escape(rhs, '&'), delimiter))
    ensures WithPatterns(chars, i, delimiter, engine)
         == (engine.(substLhs := Some(lhs), substRhs := Some(rhs)), |chars|)
  {
    hide TakePattern, Escape, WithAmpersands, EndsInBackslash;
    var right := Escape(Escape(rhs, '&'), delimiter);
    PatternAtReads(chars, i, lhs, delimiter, false, right);
    EndReadsBack(Escape(rhs, '&'), delimiter);
    AmpersandsReadBack(lhs, rhs);
    EscapeIsLonger(rhs, '&');
  }

  method ReadPatterns(chars: string, i: nat, delimiter: char, state: HistEngineState) returns (next: nat)
    requires i <= |chars|
    modifies state
    ensures (state.Value(), next) == WithPatterns(chars, i, delimiter, old(state.Value()))
  {
    hide PatternAt, WithAmpersands;
    var lhs, middle := GetSubstPattern(chars, i, delimiter, false);
    if lhs.Some? {
      state.substLhs := lhs;
    } else if state.substLhs.None? {
      if state.searchString.Some? && state.searchString.value != "" {
        state.substLhs := state.searchString;
      }
    }
    var rhs;
    rhs, next := GetSubstPattern(chars, middle, delimiter, true);
    state.substRhs := rhs;
    if state.substLhs.Some? && '&' in rhs.value {
      PostprocSubstRhs(state);
    }
  }

  /** The substitution of one modifier: the outcome when it is the last, or the text to go on with. */
  method SubstituteOnce(chars: string, next: nat, from: nat, mods: Mods, text: string, engine: Engine, f: WordSubst)
    returns (stop: Option<Modified>, t: string)
    requires next <= |chars| && ByTheLoop(f)
    ensures ModifyBySubstitution(chars, next, from, mods, text, engine)
         == if stop.Some? then stop.value else Modify(chars, next, from, mods, t, engine)
    ensures stop.Some? ==> !stop.value.Modified? && stop.value.engine == engine
  {
    hide SubstOutcome, Modify, HistError, ByTheLoop;
    t := text;
    var lhs, rhs := OrEmpty(engine.substLhs), OrEmpty(engine.substRhs);
    if lhs == "" {
      return Some(Rejected(HistError(chars, from, next, NoPrevSubst), engine)), t;
    }
    var done := SubstituteIn(text, lhs, rhs, mods.global, mods.byWords, f);
    match done {
      case NotFound => stop := Some(Rejected(HistError(chars, from, next, SubstFailed), engine));
      case Forever => stop := Some(Endless(engine));
      case Replaced(w) => stop, t := None, w;
    }
  }

  method ApplyModifiers(chars: string, at: nat, temp: string, state: HistEngineState, f: WordSubst)
      returns (r: Modified)
    requires at <= |chars| && ByTheLoop(f)
    modifies state
    ensures r == Modify(chars, at, at, NO_MODS, temp, old(state.Value()))
    ensures r.engine == state.Value()
  {
    hide Modify, WithPatterns, HistError, ModifyBySubstitution, SimpleText, SimpleMods, ByTheLoop;
    var i, text, mods := at, temp, NO_MODS;
    while CharAt(chars, i, ':')
      invariant i <= |chars|
      invariant Modify(chars, at, at, NO_MODS, temp, old(state.Value()))
             == Modify(chars, i, at, mods, text, state.Value())
      decreases |chars| - i
    {
      ModifyAt(chars, i, at, mods, text, state.Value());
      if i + 1 == |chars| {
        break;
      }
      var c := chars[i + 1];
      if c == 'g' || c == 'a' {
        mods := mods.(global := true);
        i := i + 1;
        c := if i + 1 < |chars| then chars[i + 1] else '\0';
      } else if c == 'G' {
        mods := mods.(byWords := true);
        i := i + 1;
        c := if i + 1 < |chars| then chars[i + 1] else '\0';
      }
      if IsSimple(c) {
        text, mods := SimpleText(c, text), SimpleMods(c, mods);
        i := i + 2;
        continue;
      }
      if c != '&' && c != 's' {
        return Rejected(HistError(chars, i + 1, i + 2, BadModifier), state.Value());
      }
      if c == 's' {
        if i + 2 == |chars| {
          return Modified(text, i, mods, state.Value());
        }
        i := ReadPatterns(chars, i + 3, chars[i + 2], state);
      } else {
        i := i + 2;
      }
      var stop;
      stop, text := SubstituteOnce(chars, i, at, mods, text, state.Value(), f);
      if stop.Some? {
        return stop.value;
      }
    }
    ModifyAt(chars, i, at, mods, text, state.Value());
    return Modified(text, i, mods, state.Value());
  }

  /** One modifier: none, one that only changes the text or a flag, a substitution, or an error. */
  lemma ModifyAt(chars: string, i: nat, from: nat, mods: Mods, text: string, engine: Engine)
    requires i <= |chars|
    ensures var r := Modify(chars, i, from, mods, text, engine);
            if !CharAt(chars, i, ':') || i + 1 == |chars| then r == Modified(text, i, mods, engine)
            else
              var m := Prefixed(chars[i + 1], mods);
              var j := if IsPrefix(chars[i + 1]) then i + 1 else i;
              var c := if j + 1 < |chars| then chars[j + 1] else '\0';
              if IsSimple(c) then r == Modify(chars, j + 2, from, SimpleMods(c, m), SimpleText(c, text), engine)
              else if c == '&' then r == ModifyBySubstitution(chars, j + 2, from, m, text, engine)
              else if c == 's' && j + 2 == |chars| then r == Modified(text, j, m, engine)
              else if c == 's' then
                var (e, next) := WithPatterns(chars, j + 3, chars[j + 2], engine);
                r == ModifyBySubstitution(chars, next, from, m, text, e)
              else r == Rejected(HistError(chars, j + 1, j + 2, BadModifier), engine)
  {
    hide WithPatterns, HistError, ModifyBySubstitution, SimpleText, SimpleMods;
  }
}
