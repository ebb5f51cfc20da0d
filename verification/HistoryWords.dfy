/**
 What the words of a history line are good for: they make up the line, and words taken out of
 one line and joined by single spaces are the same words again, with one exception.
 */
module HistoryWords {
  import opened Chars
  import opened Wrappers
  import opened HistoryTokenizer

  // ------------------------------------------------------- a word does not depend on its context

  predicate EndsInAngle(w: string) { w != [] && (w[|w| - 1] == '<' || w[|w| - 1] == '>') }

  predicate SpaceOrEnd(rest: string) { rest == [] || rest[0] == ' ' }

  predicate KnownQuote(mode: Mode) { mode.Quoted? ==> mode.quote in QUOTE_CHARACTERS }

  lemma AfterFirst(w: string, rest: string, n: nat)
    requires n <= |w|
    ensures (w + rest)[n..] == w[n..] + rest
  {
  }

  lemma TailUnfoldConcat(w: string, rest: string, mode: Mode)
    requires w != []
    ensures var next := if |w| > 1 then w[1] else if rest != [] then rest[0] else ' ';
            var m := MoveOn(w[0], next == '(', |w| + |rest| == 2, mode);
            && m.taken <= |w| + |rest|
            && (!m.goesOn ==> TailLength(w + rest, mode) == m.taken)
            && (m.goesOn && m.taken <= |w| ==>
                 TailLength(w + rest, mode) == m.taken + TailLength(w[m.taken..] + rest, m.mode))
            && (m.goesOn ==> TailLength(w + rest, mode) >= m.taken)
  {
    var m := TailMove(w + rest, mode);
    hide MoveOn;
    if m.taken <= |w| {
      AfterFirst(w, rest, m.taken);
    }
  }

  /**
   A tail that stops after `w` with text left over stops there in front of a space or the end too;
   but if it stopped at an opener that ends the text, it stops before that opener's angle bracket.
   */
  lemma {:induction false} TailLocal(w: string, rest: string, other: string, mode: Mode)
    requires rest != [] && SpaceOrEnd(other) && KnownQuote(mode)
    requires TailLength(w + rest, mode) == |w|
    ensures TailLength(w + other, mode) == if EndsInAngle(w) then |w| - 1 else |w|
    ensures w == [] ==> mode == Plain
    decreases |w|
  {
    hide TailLength;
    if w == [] {
      assert w + rest == rest && w + other == other;
      StopsAtOnce(rest, mode);
      StopsAtSpace(other);
    } else {
      TailUnfoldConcat(w, rest, mode);
      TailUnfoldConcat(w, other, mode);
      var next := if |w| > 1 then w[1] else rest[0];
      var m := MoveOn(w[0], next == '(', |w| + |rest| == 2, mode);
      if m.goesOn {
        assert m.taken <= |w|;
        TailLocal(w[m.taken..], rest, other, m.mode);
      } else {
        assert m.taken == 1 && |w| == 1 && mode == Plain;
        if !EndsInAngle(w) {
          assert w[1..] + other == other;
          StopsAtSpace(other);
        }
      }
    }
  }

  lemma StopsAtOnce(s: string, mode: Mode)
    requires s != [] && TailLength(s, mode) == 0
    ensures mode == Plain
  {
  }

  lemma StopsAtSpace(s: string)
    requires SpaceOrEnd(s)
    ensures TailLength(s, Plain) == 0
  {
  }

  lemma {:induction false} DigitRunOfConcat(a: string, b: string)
    ensures DigitRun(a + b) == if DigitRun(a) == |a| then |a| + DigitRun(b) else DigitRun(a)
    decreases |a|
  {
    if a == [] {
      assert a + b == b;
    } else {
      AfterFirst(a, b, 1);
      DigitRunOfConcat(a[1..], b);
    }
  }

  const ANGLE_OPERATORS := {"<", ">", "<<", ">>", "<<<", "&>"}

  lemma OperatorUnfoldConcat(w: string, rest: string)
    requires |w| > 1 && w[0] in OPERATORS
    ensures var n := OperatorLength(w + rest);
            && (w[1] == w[0] ==>
                 n == if w[0] == '<' && |w| + |rest| > 2 && (w + rest)[2] in "-<" then 3 else 2)
            && (w[1] == '&' != w[0] && (w[0] == '<' || w[0] == '>') ==>
                 var j := 2 + DigitRun(w[2..] + rest);
                 n == if j < |w| + |rest| && (w + rest)[j] == '-' then j + 1 else j)
            && (w[1] == '(' && (w[0] == '<' || w[0] == '>') ==> n == 2 + TailLength(w[2..] + rest, Nested(1)))
            && (w[1] != w[0] && !((w[1] == '&' || w[1] == '(') && (w[0] == '<' || w[0] == '>')) ==> n <= 2)
  {
    hide TailLength, DigitRun;
    var s := w + rest;
    AfterFirst(w, rest, 2);
    assert s[0] == w[0] && s[1] == w[1] && |s| == |w| + |rest|;
  }

  lemma DescriptorLocal(w: string, rest: string, other: string)
    requires |w| > 1 && w[1] == '&' && (w[0] == '<' || w[0] == '>')
    requires rest != [] && SpaceOrEnd(other) && OperatorLength(w + rest) == |w|
    ensures OperatorLength(w + other) == |w| && !EndsInAngle(w)
  {
    hide OperatorLength;
    OperatorUnfoldConcat(w, rest);
    OperatorUnfoldConcat(w, other);
    DigitRunOfConcat(w[2..], rest);
    DigitRunOfConcat(w[2..], other);
  }

  lemma OperatorLocal(w: string, rest: string, other: string)
    requires w != [] && w[0] in OPERATORS && rest != [] && SpaceOrEnd(other)
    requires OperatorLength(w + rest) == |w|
    ensures OperatorLength(w + other) == |w| <==> !(EndsInAngle(w) && w !in ANGLE_OPERATORS)
  {
    hide TailLength, DigitRun;
    if |w| == 1 {
      assert w == [w[0]];
    } else if w[1] == '&' && (w[0] == '<' || w[0] == '>') {
      DescriptorLocal(w, rest, other);
    } else {
      hide OperatorLength;
      OperatorUnfoldConcat(w, rest);
      OperatorUnfoldConcat(w, other);
      if w[1] == '(' && (w[0] == '<' || w[0] == '>') {
        TailLocal(w[2..], rest, other, Nested(1));
      } else {
        assert |w| == 2 ==> w == [w[0], w[1]];
        assert |w| == 3 ==> w == [w[0], w[1], w[2]];
      }
    }
  }

  /** `w` is a redirection or list operator that ends in an angle bracket, with its file descriptor. */
  predicate IsAngleOperator(w: string) {
    var d := DigitRun(w);
    w[d..] in ANGLE_OPERATORS && (d > 0 ==> w[d..] != "&>")
  }

  /** `w` ends in the angle bracket of a `<(` or `>(` that closes the line. */
  predicate IsCutOpener(w: string) { EndsInAngle(w) && !IsAngleOperator(w) }

  lemma DigitsOfConcat(w: string, rest: string)
    ensures var d := DigitRun(w);
            && (d < |w| ==> DigitRun(w + rest) == d && (w + rest)[d] == w[d] && (w + rest)[d..] == w[d..] + rest)
            && (d == |w| ==> DigitRun(w + rest) == d + DigitRun(rest))
  {
    DigitRunOfConcat(w, rest);
    var d := DigitRun(w);
    AfterFirst(w, rest, d);
  }

  lemma WordUnfoldConcat(w: string, rest: string)
    requires w != []
    ensures var d := DigitRun(w); var n := WordLength(w + rest);
            && (w[0] in "()\n" ==> n == 1)
            && (w[0] !in "()\n" && d < |w| ==>
               if d > 0 && w[d] != '<' && w[d] != '>' then n == TailLength(w + rest, Plain)
               else if w[d] in OPERATORS then n == d + OperatorLength(w[d..] + rest)
               else n == TailLength(w + rest, Plain))
            && (w[0] !in "()\n" && d == |w| ==>
               && (rest == [] ==> n == |w|)
               && (rest != [] && rest[0] == ' ' ==> n == TailLength(w + rest, Plain))
               && (rest != [] && n == |w| ==> n == TailLength(w + rest, Plain)))
  {
    hide TailLength, OperatorLength;
    DigitsOfConcat(w, rest);
    var s := w + rest;
    assert s[0] == w[0] && |s| == |w| + |rest|;
    var d := DigitRun(s);
    if DigitRun(w) == |w| && rest != [] {
      assert rest[0] == s[|w|];
    }
  }

  /** A word found in front of other text is found again in front of a space, unless it is a cut opener. */
  lemma WordLocal(w: string, rest: string, other: string)
    requires w != [] && rest != [] && SpaceOrEnd(other)
    requires WordLength(w + rest) == |w|
    ensures WordLength(w + other) == |w| <==> !IsCutOpener(w)
  {
    hide TailLength, OperatorLength, WordLength, DigitRun;
    WordUnfoldConcat(w, rest);
    WordUnfoldConcat(w, other);
    var d := DigitRun(w);
    if w[0] in "()\n" {
    } else if d < |w| && w[d] in OPERATORS && (d == 0 || w[d] == '<' || w[d] == '>') {
      OperatorLocal(w[d..], rest, other);
      assert EndsInAngle(w[d..]) == EndsInAngle(w);
    } else {
      TailLocal(w, rest, other, Plain);
      if d < |w| {
        NotAngleOperator(w);
      } else {
        assert IsDigit(w[|w| - 1]);
      }
    }
  }

  lemma NotAngleOperator(w: string)
    requires DigitRun(w) < |w|
    requires var c := w[DigitRun(w)]; c !in OPERATORS || (DigitRun(w) > 0 && c != '<' && c != '>')
    ensures !IsAngleOperator(w)
  {
    hide DigitRun;
    var t := w[DigitRun(w)..];
    if t in ANGLE_OPERATORS {
      assert t[0] == w[DigitRun(w)];
    }
  }

  // ------------------------------------------------------------------- words joined by spaces

  /** A word that stands where the tokenizer starts one. */
  predicate StartsWord(w: string, comment: Option<char>) {
    w != [] && !FieldDelim(w[0]) && Some(w[0]) != comment
  }

  lemma WordsOfCons(w: string, other: string, comment: Option<char>)
    requires StartsWord(w, comment)
    ensures WordLength(w + other) == |w| ==> Words(w + other, comment) == [w] + Words(other, comment)
    ensures WordLength(w + other) != |w| && SpaceOrEnd(other) ==>
              Words(w + other, comment) != [] && Words(w + other, comment)[0] != w
  {
    hide WordLength;
    var s := w + other;
    assert SkipFields(s) == s by {
      assert s[0] == w[0];
    }
    WordAdvances(s);
    var n := WordLength(s);
    assert n == |w| ==> s[..n] == w && s[n..] == other;
    assert |s[..n]| == n;
  }

  lemma WordsAfterSpace(s: string, comment: Option<char>)
    ensures Words(" " + s, comment) == Words(s, comment)
  {
    assert (" " + s)[1..] == s;
  }

  /** What follows the first of several joined words: nothing, or a space and the others joined. */
  function AfterHead(ws: seq<string>): (r: string)
    requires ws != []
    ensures SpaceOrEnd(r)
  {
    if |ws| == 1 then "" else " " + Join(ws[1..])
  }

  lemma JoinHead(ws: seq<string>)
    requires ws != []
    ensures Join(ws) == ws[0] + AfterHead(ws)
  {
    if |ws| > 1 {
      assert ws[0] + " " + Join(ws[1..]) == ws[0] + (" " + Join(ws[1..]));
    }
  }

  lemma WordsOfAfterHead(ws: seq<string>, comment: Option<char>)
    requires ws != []
    ensures Words(AfterHead(ws), comment) == Words(Join(ws[1..]), comment)
  {
    hide Words;
    if |ws| == 1 {
      assert ws[1..] == [];
    } else {
      WordsAfterSpace(Join(ws[1..]), comment);
    }
  }

  /** Every word but the last keeps its end before a space, and the last one at the end. */
  predicate Rejoinable(ws: seq<string>) {
    ws == [] || (WordLength(ws[0] + AfterHead(ws)) == |ws[0]| && Rejoinable(ws[1..]))
  }

  /** Joined words are read back as the same words exactly when each keeps its end. */
  lemma {:induction false} JoinedWordsReadBack(ws: seq<string>, comment: Option<char>)
    requires forall i :: 0 <= i < |ws| ==> StartsWord(ws[i], comment)
    ensures Words(Join(ws), comment) == ws <==> Rejoinable(ws)
    decreases |ws|
  {
    hide Words, WordLength, Join, AfterHead;
    if ws == [] {
      NoWordsJoined(comment);
    } else {
      var w, more := ws[0], ws[1..];
      JoinHead(ws);
      WordsOfCons(w, AfterHead(ws), comment);
      WordsOfAfterHead(ws, comment);
      JoinedWordsReadBack(more, comment);
      assert ws == [w] + more;
      assert ([w] + Words(Join(more), comment))[1..] == Words(Join(more), comment);
    }
  }

  lemma NoWordsJoined(comment: Option<char>)
    ensures Join([]) == "" && Words(Join([]), comment) == []
  {
  }

  // ------------------------------------------------------------------- words taken from a line

  /** The text of a line behind its word number `i`. */
  function RestAfter(s: string, comment: Option<char>, i: nat): string
    requires i < |Words(s, comment)|
    decreases i
  {
    var t := SkipFields(s);
    WordAdvances(t);
    var rest := t[WordLength(t)..];
    if i == 0 then rest else RestAfter(rest, comment, i - 1)
  }

  /** A word of a line, read together with the rest of the line, is that word; only the last reaches the end. */
  lemma {:induction false} WordInContext(s: string, comment: Option<char>, i: nat)
    requires i < |Words(s, comment)|
    ensures var ws, rest := Words(s, comment), RestAfter(s, comment, i);
            StartsWord(ws[i], comment) && WordLength(ws[i] + rest) == |ws[i]| && (rest == [] ==> i == |ws| - 1)
    decreases i
  {
    hide WordLength;
    var t := SkipFields(s);
    WordAdvances(t);
    var n := WordLength(t);
    if i == 0 {
      assert t[..n] + t[n..] == t;
      assert (t[..n])[0] == t[0];
      NoWordsInNothing(comment);
    } else {
      WordInContext(t[n..], comment, i - 1);
    }
  }

  lemma NoWordsInNothing(comment: Option<char>)
    ensures Words("", comment) == []
  {
  }

  /** No word from `a` up to `b` is the first part of an opener the end of the line cuts in two. */
  predicate NoCutOpener(s: string, comment: Option<char>, a: nat, b: nat)
    requires b <= |Words(s, comment)|
  {
    forall i :: a <= i < b ==> Uncut(s, comment, i)
  }

  predicate Uncut(s: string, comment: Option<char>, i: nat)
    requires i < |Words(s, comment)|
  {
    RestAfter(s, comment, i) != [] ==> !IsCutOpener(Words(s, comment)[i])
  }

  lemma {:induction false} SliceRejoins(s: string, comment: Option<char>, a: nat, b: nat)
    requires a <= b <= |Words(s, comment)|
    ensures Rejoinable(Words(s, comment)[a..b]) <==> NoCutOpener(s, comment, a, b)
    decreases b - a
  {
    hide Words, WordLength, RestAfter, IsCutOpener;
    var ws := Words(s, comment);
    if a < b {
      var some := ws[a..b];
      assert some[0] == ws[a] && some[1..] == ws[a + 1..b];
      SliceRejoins(s, comment, a + 1, b);
      WordInContext(s, comment, a);
      var rest := RestAfter(s, comment, a);
      if rest != [] {
        WordLocal(ws[a], rest, AfterHead(some));
      } else {
        assert AfterHead(some) == "" && ws[a] + rest == ws[a] + "";
      }
      assert NoCutOpener(s, comment, a, b) <==> Uncut(s, comment, a) && NoCutOpener(s, comment, a + 1, b);
    }
  }

  /**
   Words taken out of a line (as `!:a-b`, `!*` and `!$` take them) and joined by spaces are read back
   as the same words, exactly when none of them is cut from an opener at the end of the line.
   */
  lemma ExtractedWordsReadBack(s: string, comment: Option<char>, a: nat, b: nat)
    requires a <= b <= |Words(s, comment)|
    ensures var some := Words(s, comment)[a..b];
            Words(Join(some), comment) == some <==> NoCutOpener(s, comment, a, b)
  {
    hide *;
    SliceStartsWords(s, comment, a, b);
    JoinedWordsReadBack(Words(s, comment)[a..b], comment);
    SliceRejoins(s, comment, a, b);
  }

  lemma SliceStartsWords(s: string, comment: Option<char>, a: nat, b: nat)
    requires a <= b <= |Words(s, comment)|
    ensures forall k :: 0 <= k < b - a ==> StartsWord(Words(s, comment)[a..b][k], comment)
  {
    hide *;
    var ws := Words(s, comment);
    forall k | 0 <= k < b - a ensures StartsWord(ws[a..b][k], comment) {
      WordInContext(s, comment, a + k);
      assert ws[a..b][k] == ws[a + k];
    }
  }

  /** In `a<(` the last word `(` is cut off from `a<`, so the joined words do not read back. */
  lemma CutOpenerSplits()
    ensures var ws := Words("a<(", Some('#'));
            ws == ["a<", "("] && Words(Join(ws), Some('#')) != ws
  {
    hide Words, Join, IsCutOpener, WordLength;
    var s, ws := "a<(", Words("a<(", Some('#'));
    CutWords();
    RestAfterCut();
    assert IsCutOpener("a<") by {
      CutOpenerExample();
    }
    assert !Uncut(s, Some('#'), 0);
    ExtractedWordsReadBack(s, Some('#'), 0, |ws|);
    assert ws[0..|ws|] == ws;
  }

  lemma CutOpenerExample()
    ensures IsCutOpener("a<")
  {
    assert DigitRun("a<") == 0;
    assert "a<"[0..] == "a<" && "a<"[0] == 'a';
  }

  lemma CutWordLengths()
    ensures WordLength("a<" + "(") == 2 && WordLength("(" + "") == 1
  {
    hide TailLength;
    TailUnfoldConcat("a<", "(", Plain);
    assert "a<"[1..] == "<";
    TailUnfoldConcat("<", "(", Plain);
    WordUnfoldConcat("a<", "(");
    assert DigitRun("a<") == 0;
  }

  lemma CutWords()
    ensures Words("a<(", Some('#')) == ["a<", "("]
  {
    hide Words, WordLength;
    CutWordLengths();
    assert "a<(" == "a<" + "(" && "(" == "(" + "";
    WordsOfCons("a<", "(", Some('#'));
    WordsOfCons("(", "", Some('#'));
    NoWordsInNothing(Some('#'));
  }

  lemma RestAfterCut()
    requires |Words("a<(", Some('#'))| > 0
    ensures RestAfter("a<(", Some('#'), 0) != []
  {
    hide WordLength;
    CutWordLengths();
    assert "a<(" == "a<" + "(";
  }

  // -------------------------------------------------------------------------------- plain words

  predicate PlainChar(c: char) {
    !FieldDelim(c) && c !in WORD_DELIMITERS && c !in QUOTE_CHARACTERS && c !in GLOB_OPENERS && c != '\\'
  }

  predicate PlainWord(w: string) { w != [] && forall i :: 0 <= i < |w| ==> PlainChar(w[i]) }

  /** The tail scanner passes over plain characters, whatever follows them. */
  lemma {:induction false} PlainPrefix(w: string, other: string)
    requires forall i :: 0 <= i < |w| ==> PlainChar(w[i])
    ensures TailLength(w + other, Plain) == |w| + TailLength(other, Plain)
    decreases |w|
  {
    if w == [] {
      assert w + other == other;
    } else {
      hide TailLength;
      TailUnfoldConcat(w, other, Plain);
      PlainPrefix(w[1..], other);
    }
  }

  lemma PlainWordEnds(w: string, other: string)
    requires PlainWord(w) && SpaceOrEnd(other)
    ensures WordLength(w + other) == |w|
  {
    hide WordLength, TailLength;
    WordUnfoldConcat(w, other);
    PlainPrefix(w, other);
    StopsAtSpace(other);
    var d := DigitRun(w);
    assert PlainChar(w[0]);
    assert d < |w| ==> PlainChar(w[d]);
  }

  /** A line of plain words between single spaces has exactly those words. */
  lemma {:induction false} PlainWordsReadBack(ws: seq<string>, comment: Option<char>)
    requires forall i :: 0 <= i < |ws| ==> PlainWord(ws[i]) && Some(ws[i][0]) != comment
    ensures Words(Join(ws), comment) == ws
  {
    hide PlainWord, Words, WordLength, Join;
    forall i | 0 <= i < |ws| ensures StartsWord(ws[i], comment) {
      PlainWordStarts(ws[i], comment);
    }
    JoinedWordsReadBack(ws, comment);
    PlainWordsRejoin(ws);
  }

  lemma PlainWordStarts(w: string, comment: Option<char>)
    requires PlainWord(w) && Some(w[0]) != comment
    ensures StartsWord(w, comment)
  {
    assert PlainChar(w[0]);
  }

  lemma {:induction false} PlainWordsRejoin(ws: seq<string>)
    requires forall i :: 0 <= i < |ws| ==> PlainWord(ws[i])
    ensures Rejoinable(ws)
    decreases |ws|
  {
    hide PlainWord, WordLength;
    if ws != [] {
      PlainWordEnds(ws[0], AfterHead(ws));
      PlainWordsRejoin(ws[1..]);
    }
  }

  // -------------------------------------------------------------------------------- backslash

  /**
   Behind a backslash outside quotes a delimiter ends the word all the same, even a space, exactly
   unless it opens a parenthesis, as it would without the backslash.
   */
  lemma BackslashKeepsNothing(s: string)
    requires |s| > 1 && s[0] == '\\' && s[1] in WORD_DELIMITERS
    ensures TailLength(s, Plain) == 1 <==> (s[1] in GLOB_OPENERS ==> |s| == 2 || s[2] != '(')
  {
    var rest := s[1..];
    var m := TailMove(rest, Plain);
    assert m.goesOn ==> TailLength(rest, Plain) >= m.taken;
  }

  lemma WordToBackslash(w: string, other: string)
    requires PlainWord(w)
    ensures WordLength(w + "\\" + " " + other) == |w| + 1
  {
    hide WordLength, TailLength;
    var word, rest := w + "\\", " " + other;
    assert word + rest == w + ("\\" + rest) == w + "\\" + " " + other;
    BackslashKeepsNothing("\\" + rest);
    PlainPrefix(w, "\\" + rest);
    WordUnfoldConcat(word, rest);
    var d := DigitRun(word);
    assert PlainChar(word[0]);
    assert d < |w| ==> PlainChar(word[d]);
  }

  /** A plain word, a backslash, a space and a plain word: two words where the shell reads one. */
  lemma BackslashSplits(u: string, v: string, comment: Option<char>)
    requires PlainWord(u) && PlainWord(v) && Some(u[0]) != comment && Some(v[0]) != comment
    ensures Words(u + "\\" + " " + v, comment) == [u + "\\", v]
  {
    hide PlainWord, Words, WordLength;
    var word := u + "\\";
    WordToBackslash(u, v);
    PlainWordStarts(u, comment);
    PlainWordStarts(v, comment);
    WordsOfCons(word, " " + v, comment);
    WordsAfterSpace(v, comment);
    PlainWordEnds(v, "");
    WordsOfCons(v, "", comment);
    NoWordsInNothing(comment);
    assert word + (" " + v) == u + "\\" + " " + v && v + "" == v;
  }

  lemma BackslashExample()
    ensures Words("a\\ b", Some('#')) == ["a\\", "b"]
  {
    hide Words;
    BackslashSplits("a", "b", Some('#'));
    assert "a" + "\\" + " " + "b" == "a\\ b" && "a" + "\\" == "a\\";
  }
}
