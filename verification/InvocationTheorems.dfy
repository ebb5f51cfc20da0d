/**
 What the two passes over the command line agree on: a cluster of letters means its separate
 options, spreading twice is spreading once, and a script is followed by its own parameters.
 */
module InvocationTheorems {
  import opened Wrappers
  import opened Invocation
  import opened Sequences

  predicate IsSign(c: char) { c == '-' || c == '+' }

  /** A cluster written out: one word for each letter, each `o` and `O` in front of the next word of its own. */
  function Separated(sign: char, letters: string, following: seq<string>): seq<string>
    decreases |letters|
  {
    if letters == "" then following
    else if TakesValue(letters[0]) && following != [] then
      [LetterWord(sign, letters[0]), following[0]] + Separated(sign, letters[1..], following[1..])
    else [LetterWord(sign, letters[0])] + Separated(sign, letters[1..], following)
  }

  /** The first pass writes a cluster out in this way. */
  lemma {:induction false} SpreadSeparates(sign: char, letters: string, following: seq<string>)
    ensures var spread := Spread(sign, letters, following);
            Separated(sign, letters, following) == spread.0 + following[spread.1..]
    decreases |letters|
  {
    hide LetterWord, TakesValue;
    if letters == "" {
      assert following[0..] == following && [] + following == following;
    } else if TakesValue(letters[0]) && following != [] {
      var more := Spread(sign, letters[1..], following[1..]);
      SpreadSeparates(sign, letters[1..], following[1..]);
      DropDrop(following, 1, more.1);
      Assoc([LetterWord(sign, letters[0]), following[0]], more.0, following[1 + more.1..]);
    } else {
      var more := Spread(sign, letters[1..], following);
      SpreadSeparates(sign, letters[1..], following);
      Assoc([LetterWord(sign, letters[0])], more.0, following[more.1..]);
    }
  }

  /** How many of the letters take a value. */
  function Needs(letters: string): nat {
    if letters == "" then 0 else (if TakesValue(letters[0]) then 1 else 0) + Needs(letters[1..])
  }

  lemma {:induction false} SpreadTakes(sign: char, letters: string, following: seq<string>)
    ensures Spread(sign, letters, following).1 == if Needs(letters) < |following| then Needs(letters) else |following|
    decreases |letters|
  {
    if letters != "" {
      SpreadTakes(sign, letters[1..], if TakesValue(letters[0]) && following != [] then following[1..] else following);
    }
  }

  /** An option word of one letter. */
  predicate Single(word: string) { |word| == 2 && IsSigned(word) && word[1] != '-' }

  lemma SingleWord(word: string)
    requires Single(word)
    ensures !EndsOptions(word) && !IsLong(word) && !TakesFile(word) && (IsCluster(word) <==> TakesValue(word[1]))
    ensures TakesValue(word[1]) <==> IsValueOption(word)
    ensures IsSign(word[0]) && (TakesValue(word[1]) ==> LetterWord(word[0], word[1]) == word)
  {
    assert word == [word[0], word[1]];
  }

  lemma TwoRest(x: string, y: string, b: seq<string>)
    ensures ([x, y] + b)[0] == x && ([x, y] + b)[1..] == [y] + b && ([y] + b)[1..] == b
  {
  }

  /** What a lone value letter in front of its value becomes. */
  lemma LoneSpread(word: string, rest: seq<string>)
    requires Single(word) && TakesValue(word[1]) && rest != []
    ensures Spread(word[0], word[1..], rest) == ([word, rest[0]], 1)
  {
    SingleWord(word);
    assert word[1..][0] == word[1] && word[1..][1..] == "";
    var none: seq<string> := [];
    assert Spread(word[0], "", rest[1..]) == (none, 0);
    assert [word, rest[0]] + none == [word, rest[0]];
  }

  lemma LoneSpreadAtEnd(word: string)
    requires Single(word) && TakesValue(word[1])
    ensures Spread(word[0], word[1..], []) == ([word], 0)
  {
    SingleWord(word);
    assert word[1..][0] == word[1] && word[1..][1..] == "";
    var none: seq<string> := [];
    assert Spread(word[0], "", none) == (none, 0);
    assert [word] + none == [word];
  }

  lemma NormalizeSingle(word: string, rest: seq<string>)
    requires Single(word) && !TakesValue(word[1])
    ensures Normalize([word] + rest) == [word] + Normalize(rest)
  {
    SingleWord(word);
    hide IsCluster, EndsOptions, TakesFile, Spread, Single;
    assert ([word] + rest)[1..] == rest;
  }

  lemma NormalizeValue(word: string, value: string, rest: seq<string>)
    requires Single(word) && TakesValue(word[1])
    ensures Normalize([word, value] + rest) == [word, value] + Normalize(rest)
  {
    SingleWord(word);
    LoneSpread(word, [value] + rest);
    hide IsCluster, EndsOptions, TakesFile, Spread, Single;
    TwoRest(word, value, rest);
  }

  lemma {:induction false} SinglesAreNormal(words: seq<string>)
    requires forall k :: 0 <= k < |words| ==> Single(words[k])
    ensures Normalize(words) == words
    decreases |words|
  {
    hide Normalize, Spread, Single;
    if words == [] {
      NormalizeNothing();
    } else {
      var word, rest := words[0], words[1..];
      assert words == [word] + rest;
      if !TakesValue(SecondOf(word)) {
        NormalizeSingle(word, rest);
        SinglesAreNormal(rest);
      } else if rest != [] {
        assert words == [word, rest[0]] + rest[1..];
        NormalizeValue(word, rest[0], rest[1..]);
        SinglesAreNormal(rest[1..]);
      } else {
        LastValueIsNormal(word);
        assert words == [word];
      }
    }
  }

  function SecondOf(word: string): char
    requires Single(word)
  {
    word[1]
  }

  lemma LastValueIsNormal(word: string)
    requires Single(word) && TakesValue(word[1])
    ensures Normalize([word]) == [word]
  {
    SingleWord(word);
    LoneSpreadAtEnd(word);
    hide IsCluster, EndsOptions, TakesFile, Spread, Single;
    var none: seq<string> := [];
    assert [word][1..] == none && none[0..] == none && [word] + none == [word];
  }

  lemma LetterWordIsSingle(sign: char, letter: char)
    requires IsSign(sign) && letter in SHORT_LETTERS
    ensures Single(LetterWord(sign, letter))
  {
  }

  lemma {:induction false} SpreadAlone(sign: char, letters: string)
    requires IsSign(sign) && AllKnown(letters)
    ensures Spread(sign, letters, []).1 == 0
    ensures forall k :: 0 <= k < |Spread(sign, letters, []).0| ==> Single(Spread(sign, letters, []).0[k])
    decreases |letters|
  {
    hide LetterWord, Single;
    if letters != "" {
      LetterWordIsSingle(sign, letters[0]);
      SpreadAlone(sign, letters[1..]);
      var more := Spread(sign, letters[1..], []).0;
      assert Spread(sign, letters, []).0 == [LetterWord(sign, letters[0])] + more;
    }
  }

  lemma AllKnownRest(letters: string)
    requires letters != "" && AllKnown(letters)
    ensures letters[0] in SHORT_LETTERS && AllKnown(letters[1..])
  {
  }

  /** The words a cluster becomes are left alone by the first pass, whatever follows the values they take. */
  lemma {:induction false} NormalizeSpread(sign: char, letters: string, following: seq<string>, rest: seq<string>)
    requires IsSign(sign) && AllKnown(letters)
    requires Needs(letters) > |following| ==> rest == []
    ensures Normalize(Spread(sign, letters, following).0 + rest) == Spread(sign, letters, following).0 + Normalize(rest)
    decreases |letters|
  {
    hide Normalize, AllKnown, LetterWord, Single;
    if letters == "" {
      assert [] + rest == rest && [] + Normalize(rest) == Normalize(rest);
    } else {
      AllKnownRest(letters);
      var letter, more := letters[0], letters[1..];
      var w := LetterWord(sign, letter);
      LetterWordIsSingle(sign, letter);
      if !TakesValue(letter) {
        var words := Spread(sign, more, following).0;
        NormalizeSpread(sign, more, following, rest);
        NormalizeSingle(w, words + rest);
        Assoc([w], words, rest);
        Assoc([w], words, Normalize(rest));
      } else if following != [] {
        var words := Spread(sign, more, following[1..]).0;
        NormalizeSpread(sign, more, following[1..], rest);
        NormalizeValue(w, following[0], words + rest);
        Assoc([w, following[0]], words, rest);
        Assoc([w, following[0]], words, Normalize(rest));
      } else {
        SpreadAlone(sign, letters);
        SinglesAreNormal(Spread(sign, letters, []).0);
        NormalizeNothing();
        var words := Spread(sign, letters, []).0;
        assert words + [] == words;
      }
    }
  }

  lemma ClusterWord(sign: char, letters: string)
    requires IsSign(sign) && |letters| > 1 && AllKnown(letters)
    ensures var word := [sign] + letters; IsCluster(word) && !EndsOptions(word) && !TakesFile(word)
    ensures ([sign] + letters)[0] == sign && ([sign] + letters)[1..] == letters
  {
    var word := [sign] + letters;
    assert word[1..] == letters && word[1] == letters[0] && word[2] == letters[1];
    assert letters[0] in SHORT_LETTERS && letters[1] in SHORT_LETTERS;
  }

  /**
   A cluster of known letters in front of any words is parsed as the separate options, each `o` and `O`
   followed by the word it takes. Behind `+`, the letters c, s, l, i and D still mean their `-` forms.
   */
  lemma ClusterMeansItsLetters(sign: char, letters: string, following: seq<string>)
    requires IsSign(sign) && |letters| > 1 && AllKnown(letters)
    ensures ParseArgs([[sign] + letters] + following) == ParseArgs(Separated(sign, letters, following))
  {
    hide AllKnown, IsCluster, EndsOptions, TakesFile, Spread, Separated, ParseWords;
    ClusterWord(sign, letters);
    SpreadSeparates(sign, letters, following);
    var word := [sign] + letters;
    var spread := Spread(sign, letters, following);
    assert ([word] + following)[1..] == following;
    SpreadTakes(sign, letters, following);
    NormalizeSpread(sign, letters, following, following[spread.1..]);
  }

  /** The first pass is done after one go. */
  lemma {:induction false} NormalizeTwice(args: seq<string>)
    ensures Normalize(Normalize(args)) == Normalize(args)
    decreases |args|
  {
    hide Spread, AllKnown, IsCluster, EndsOptions, TakesFile;
    if args != [] && !EndsOptions(args[0]) {
      var word, rest := args[0], args[1..];
      if TakesFile(word) && rest != [] {
        NormalizeTwice(rest[1..]);
        TwoRest(word, rest[0], Normalize(rest[1..]));
      } else if IsCluster(word) {
        ClusterLetters(word);
        var spread := Spread(word[0], word[1..], rest);
        NormalizeTwice(rest[spread.1..]);
        SpreadTakes(word[0], word[1..], rest);
        NormalizeNothing();
        NormalizeSpread(word[0], word[1..], rest, Normalize(rest[spread.1..]));
      } else {
        NormalizeTwice(rest);
        OtherWordAgain(word, rest);
      }
    }
  }

  lemma ClusterLetters(word: string)
    requires IsCluster(word)
    ensures |word| > 1 && IsSign(word[0]) && AllKnown(word[1..])
  {
    assert |word| == 2 ==> word[1..] == [word[1]];
  }

  lemma OtherWordAgain(word: string, rest: seq<string>)
    requires !EndsOptions(word) && !IsCluster(word) && !(TakesFile(word) && rest != [])
    ensures Normalize([word] + Normalize(rest)) == [word] + Normalize(Normalize(rest))
  {
    hide IsCluster, EndsOptions, TakesFile, Spread;
    assert ([word] + Normalize(rest))[1..] == Normalize(rest);
  }

  // ------------------------------------------------------------------ the script's own words

  /** `tail` is what is left of `args` from some word on. */
  predicate IsTail(args: seq<string>, tail: seq<string>) {
    |tail| <= |args| && args[|args| - |tail|..] == tail
  }

  lemma TailOfTail(args: seq<string>, k: nat, tail: seq<string>)
    requires k <= |args| && IsTail(args[k..], tail)
    ensures IsTail(args, tail)
  {
    var n := |args| - k - |tail|;
    assert args[k..][n..] == args[k + n..];
  }

  /** If a script was chosen, it and its parameters are the end of `args`. */
  predicate ScriptEnds(args: seq<string>, r: Parse) {
    r.Parsed? && r.value.script.Some? ==> IsTail(args, [r.value.script.value] + r.value.positionalParams)
  }

  predicate NoScript(r: Parse) { r.Parsed? ==> r.value.script.None? }

  /** One option word that is not followed by a value: the rest is parsed, or nothing after it is a script. */
  lemma OptionStep(word: string, rest: seq<string>, out: Invocation)
    requires out.script.None? && IsSigned(word) && word != "-" && word != "--"
    requires !IsValueOption(word) && !TakesFile(word)
    ensures var r := ParseWords([word] + rest, out);
            NoScript(r) || exists o: Invocation :: o.script.None? && r == ParseWords(rest, o)
  {
    var words := [word] + rest;
    assert words[0] == word && words[1..] == rest;
    var r := ParseWords(words, out);
    var early := SetEarly(word, out);
    hide SetEarly, SetFlags, PostCommand;
    if word != "-c" && word != "-s" && early.Some? {
      assert r == ParseWords(rest, early.value);
    } else if word != "-c" && word != "-s" && !(|word| == 1 || 'o' in word[1..]) {
      var flags := SetFlags(word[1..], word[0] == '-', out);
      assert flags.Set? ==> r == ParseWords(rest, flags.out);
    }
  }

  /** A value option and its value, or at the end of the words. */
  lemma ValueStep(word: string, value: string, rest: seq<string>, out: Invocation)
    requires out.script.None? && IsValueOption(word)
    ensures exists o: Invocation :: o.script.None? && ParseWords([word, value] + rest, out) == ParseWords(rest, o)
    ensures NoScript(ParseWords([word], out))
  {
    hide SetFlags, PostCommand;
    TwoRest(word, value, rest);
    var words := [word, value] + rest;
    var o := SetOption(word, Some(value), out);
    assert ParseWords(words, out) == ParseWords(rest, o);
    var none: seq<string> := [];
    assert [word][1..] == none;
    assert ParseWords(none, SetOption(word, None, out)) == Parsed(SetOption(word, None, out));
  }

  lemma {:induction false} SinglesHaveNoScript(words: seq<string>, out: Invocation)
    requires out.script.None? && forall k :: 0 <= k < |words| ==> Single(words[k])
    ensures NoScript(ParseWords(words, out))
    decreases |words|
  {
    hide ParseWords, Single;
    if words == [] {
      NothingParsed(out);
    } else {
      var word, rest := words[0], words[1..];
      SingleWord(word);
      assert words == [word] + rest;
      hide IsValueOption, TakesFile;
      if !IsValueOption(word) {
        SingleIsOption(word);
        OptionStep(word, rest, out);
        if !NoScript(ParseWords(words, out)) {
          var o: Invocation :| o.script.None? && ParseWords(words, out) == ParseWords(rest, o);
          SinglesHaveNoScript(rest, o);
        }
      } else if rest != [] {
        ValueStep(word, rest[0], rest[1..], out);
        assert words == [word, rest[0]] + rest[1..];
        var o: Invocation :| o.script.None? && ParseWords(words, out) == ParseWords(rest[1..], o);
        SinglesHaveNoScript(rest[1..], o);
      } else {
        ValueStep(word, word, rest, out);
        assert words == [word];
      }
    }
  }

  lemma SingleIsOption(word: string)
    requires Single(word)
    ensures IsSigned(word) && word != "-" && word != "--"
  {
  }

  lemma NothingParsed(out: Invocation)
    ensures ParseWords([], out) == Parsed(out)
  {
  }

  /** The words of a cluster choose no script; one can only come from behind the values they take. */
  lemma {:induction false} SpreadScriptEnds(sign: char, letters: string, following: seq<string>, out: Invocation)
    requires IsSign(sign) && AllKnown(letters) && out.script.None?
    ensures var spread := Spread(sign, letters, following);
            ScriptEnds(following, ParseWords(spread.0 + Normalize(following[spread.1..]), out))
    decreases |following|, |letters| + 1
  {
    hide ParseWords, Normalize, AllKnown, LetterWord, Single, IsTail;
    var spread := Spread(sign, letters, following);
    if letters == "" {
      assert [] + Normalize(following) == Normalize(following);
      WordsScriptEnds(following, out);
    } else {
      AllKnownRest(letters);
      var letter, more := letters[0], letters[1..];
      var w := LetterWord(sign, letter);
      LetterWordIsSingle(sign, letter);
      SingleWord(w);
      SingleIsOption(w);
      if !TakesValue(letter) {
        var inner := Spread(sign, more, following);
        var rest := inner.0 + Normalize(following[inner.1..]);
        Assoc([w], inner.0, Normalize(following[inner.1..]));
        OptionStep(w, rest, out);
        if !NoScript(ParseWords([w] + rest, out)) {
          var o: Invocation :| o.script.None? && ParseWords([w] + rest, out) == ParseWords(rest, o);
          SpreadScriptEnds(sign, more, following, o);
        }
      } else if following != [] {
        var inner := Spread(sign, more, following[1..]);
        var rest := inner.0 + Normalize(following[1..][inner.1..]);
        assert following[1..][inner.1..] == following[spread.1..];
        Assoc([w, following[0]], inner.0, Normalize(following[spread.1..]));
        ValueStep(w, following[0], rest, out);
        var o: Invocation :| o.script.None? && ParseWords([w, following[0]] + rest, out) == ParseWords(rest, o);
        SpreadScriptEnds(sign, more, following[1..], o);
        ScriptEndsFurther(following, 1, ParseWords(rest, o));
      } else {
        SpreadAlone(sign, letters);
        NormalizeNothing();
        assert following[spread.1..] == [] && spread.0 + [] == spread.0;
        SinglesHaveNoScript(spread.0, out);
      }
    }
  }

  lemma ScriptEndsFurther(args: seq<string>, k: nat, r: Parse)
    requires k <= |args| && ScriptEnds(args[k..], r)
    ensures ScriptEnds(args, r)
  {
    if r.Parsed? && r.value.script.Some? {
      TailOfTail(args, k, [r.value.script.value] + r.value.positionalParams);
    }
  }

  lemma {:induction false} WordsScriptEnds(args: seq<string>, out: Invocation)
    requires out.script.None?
    ensures ScriptEnds(args, ParseWords(Normalize(args), out))
    decreases |args|, 0
  {
    if args == [] {
      NothingParsed(out);
    } else {
      hide ParseWords, IsCluster, Spread, IsTail;
      var word, rest := args[0], args[1..];
      if EndsOptions(word) {
        OperandEnds(args, out);
      } else if TakesFile(word) && rest != [] {
        FileStep(word, rest[0], Normalize(rest[1..]), out);
        WordsScriptEnds(rest[1..], out.(rcFile := Some(rest[0])));
        assert rest[1..] == args[2..];
        ScriptEndsFurther(args, 2, ParseWords(Normalize(args), out));
      } else if IsCluster(word) {
        ClusterLetters(word);
        SpreadScriptEnds(word[0], word[1..], rest, out);
        ScriptEndsFurther(args, 1, ParseWords(Normalize(args), out));
      } else if TakesFile(word) {
        NormalizeNothing();
        FileMissing(word, out);
        assert [word] + [] == [word];
      } else {
        NotValueOption(word);
        OptionStep(word, Normalize(rest), out);
        if !NoScript(ParseWords(Normalize(args), out)) {
          var o: Invocation :| o.script.None? && ParseWords(Normalize(args), out) == ParseWords(Normalize(rest), o);
          WordsScriptEnds(rest, o);
          ScriptEndsFurther(args, 1, ParseWords(Normalize(rest), o));
        }
      }
    }
  }

  lemma NotValueOption(word: string)
    requires !EndsOptions(word) && !IsCluster(word)
    ensures !IsValueOption(word) && IsSigned(word) && word != "-" && word != "--"
  {
  }

  lemma PlainOptionIsLong(word: string, out: Invocation)
    ensures SetPlain(word, out).Some? ==> |word| > 1 && word[0] == '-' && word != "--"
  {
  }

  lemma EarlyOptionIsLong(word: string, out: Invocation)
    ensures SetEarly(word, out).Some? ==> |word| > 1 && IsSigned(word) && word != "--"
  {
    hide SetPlain;
    PlainOptionIsLong(word, out);
  }

  lemma OperandIsNoOption(word: string)
    requires EndsOptions(word)
    ensures word != "-c" && word != "-s" && !TakesFile(word) && !IsValueOption(word)
  {
  }

  predicate IsDash(word: string) { word == "-" || word == "--" }

  lemma DashIsOperand(word: string)
    ensures EndsOptions(word) <==> IsDash(word) || !IsSigned(word)
  {
  }

  lemma OperandParsed(args: seq<string>, out: Invocation)
    requires args != [] && EndsOptions(args[0])
    ensures var word, rest, r := args[0], args[1..], ParseWords(args, out);
            if !IsDash(word) then r == Parsed(out.(script := Some(word), positionalParams := rest))
            else if rest == [] then r == Parsed(out.(readStdin := true))
            else r == Parsed(out.(script := Some(rest[0]), positionalParams := rest[1..]))
  {
    hide PostCommand, SetFlags, SetEarly, TakesFile, IsValueOption, EndsOptions, IsSigned;
    EarlyOptionIsLong(args[0], out);
    OperandIsNoOption(args[0]);
    DashIsOperand(args[0]);
    DashIsShort(args[0]);
  }

  lemma DashIsShort(word: string)
    ensures IsDash(word) ==> |word| == 1 || word == "--"
  {
  }

  lemma ScriptOperandEnds(args: seq<string>, out: Invocation)
    requires args != [] && EndsOptions(args[0]) && !IsDash(args[0])
    ensures ScriptEnds(args, ParseWords(args, out))
  {
    hide ParseWords, EndsOptions, IsDash, ScriptEnds;
    OperandParsed(args, out);
    ScriptAt(args, 0, ParseWords(args, out));
  }

  lemma LoneDashEnds(args: seq<string>, out: Invocation)
    requires |args| == 1 && EndsOptions(args[0]) && IsDash(args[0]) && out.script.None?
    ensures ScriptEnds(args, ParseWords(args, out))
  {
    hide ParseWords, EndsOptions, IsDash;
    OperandParsed(args, out);
    assert |args[1..]| == 0;
  }

  lemma DashOperandEnds(args: seq<string>, out: Invocation)
    requires |args| > 1 && EndsOptions(args[0]) && IsDash(args[0])
    ensures ScriptEnds(args, ParseWords(args, out))
  {
    hide ParseWords, EndsOptions, IsDash, ScriptEnds;
    OperandParsed(args, out);
    SecondAndRest(args);
    ScriptAt(args, 1, ParseWords(args, out));
  }

  lemma OperandEnds(args: seq<string>, out: Invocation)
    requires out.script.None? && args != [] && EndsOptions(args[0])
    ensures ScriptEnds(args, ParseWords(args, out))
  {
    hide ParseWords, EndsOptions, IsDash, ScriptEnds;
    if IsDash(args[0]) && |args| == 1 {
      LoneDashEnds(args, out);
    } else if IsDash(args[0]) {
      DashOperandEnds(args, out);
    } else {
      ScriptOperandEnds(args, out);
    }
  }

  lemma ScriptAt(args: seq<string>, k: nat, r: Parse)
    requires k < |args| && r.Parsed? && r.value.script == Some(args[k]) && r.value.positionalParams == args[k + 1..]
    ensures ScriptEnds(args, r)
  {
    var tail := [args[k]] + args[k + 1..];
    assert tail == args[k..] && |tail| == |args| - k;
  }

  lemma SecondAndRest(args: seq<string>)
    requires |args| > 1
    ensures args[1..] != [] && args[1..][0] == args[1] && args[1..][1..] == args[2..]
  {
  }

  lemma FileIsNoOther(word: string, out: Invocation)
    requires TakesFile(word)
    ensures word != "-c" && word != "-s" && SetEarly(word, out).None?
  {
  }

  lemma FileStep(word: string, value: string, rest: seq<string>, out: Invocation)
    requires TakesFile(word)
    ensures ParseWords([word, value] + rest, out) == ParseWords(rest, out.(rcFile := Some(value)))
  {
    hide PostCommand, SetFlags, SetEarly, TakesFile, IsValueOption;
    FileIsNoOther(word, out);
    TwoRest(word, value, rest);
  }

  lemma FileMissing(word: string, out: Invocation)
    requires TakesFile(word)
    ensures ParseWords([word], out).Usage?
  {
    hide PostCommand, SetFlags, SetEarly, TakesFile, IsValueOption;
    FileIsNoOther(word, out);
    var none: seq<string> := [];
    assert [word][1..] == none;
  }

  /** When a script is chosen, it and its positional parameters are the words of the command line from it on. */
  lemma ScriptAndParametersAreVerbatim(args: seq<string>)
    ensures var r := ParseArgs(args);
            r.Parsed? && r.value.script.Some? ==> IsTail(args, [r.value.script.value] + r.value.positionalParams)
  {
    hide ParseWords, Normalize, IsTail;
    WordsScriptEnds(args, DEFAULTS);
  }

  // ---------------------------------------------------------------- flags of a command word

  /** The letters that set a field of their own. */
  predicate SetsField(letter: char) { letter == 'i' || letter == 'D' || letter == 'r' }

  predicate IsFlag(letter: char) { SetsField(letter) || CliFlagName(letter).Some? }

  /** The first letter that is no flag stands at `k`; there is none when `k` is the number of letters. */
  predicate FirstUnknown(letters: string, k: nat) {
    && k <= |letters|
    && (forall j :: 0 <= j < k ==> IsFlag(letters[j]))
    && (k < |letters| ==> !IsFlag(letters[k]))
  }

  /** The named options the letters switch, in their order. */
  function NamedOptions(letters: string, enabled: bool): seq<(string, bool)>
    requires forall c :: c in letters ==> IsFlag(c)
  {
    if letters == "" then []
    else
      var first := letters[0];
      var rest := NamedOptions(letters[1..], enabled);
      assert first in letters && IsFlag(first);
      if SetsField(first) then rest else [(CliFlagName(first).value, enabled)] + rest
  }

  /** The four fields flags can change. */
  function WithFlags(out: Invocation, interactive: bool, dumpStrings: bool, restricted: bool,
                     shellFlags: seq<(string, bool)>): Invocation {
    out.(interactive := interactive, dumpStrings := dumpStrings, restricted := restricted, shellFlags := shellFlags)
  }

  lemma WithFlagsReads(out: Invocation, i: bool, d: bool, r: bool, names: seq<(string, bool)>)
    ensures var o := WithFlags(out, i, d, r, names);
            o.interactive == i && o.dumpStrings == d && o.restricted == r && o.shellFlags == names
  {
  }

  lemma WithFlagsAgain(out: Invocation, i: bool, d: bool, r: bool, names: seq<(string, bool)>,
                       i1: bool, d1: bool, r1: bool, names1: seq<(string, bool)>)
    ensures WithFlags(WithFlags(out, i, d, r, names), i1, d1, r1, names1) == WithFlags(out, i1, d1, r1, names1)
  {
  }

  lemma WithOwnFlags(out: Invocation)
    ensures WithFlags(out, out.interactive, out.dumpStrings, out.restricted, out.shellFlags) == out
  {
  }

  /** The invocation after letters that are all flags: each field named by one of them, and the named options. */
  function Effect(letters: string, enabled: bool, out: Invocation): Invocation
    requires forall c :: c in letters ==> IsFlag(c)
  {
    WithFlags(out,
              if 'i' in letters then enabled else out.interactive,
              if 'D' in letters then enabled else out.dumpStrings,
              if 'r' in letters then enabled else out.restricted,
              out.shellFlags + NamedOptions(letters, enabled))
  }

  /** A `+` word may not take the restriction off. */
  predicate LiftsRestriction(letters: string, enabled: bool, out: Invocation) {
    !enabled && out.restricted && 'r' in letters
  }

  /** The letter sets a field that is as the letter says already. */
  predicate AlreadySo(letter: char, enabled: bool, out: Invocation) {
    || (letter == 'i' && out.interactive == enabled)
    || (letter == 'D' && out.dumpStrings == enabled)
    || (letter == 'r' && out.restricted == enabled)
  }

  lemma FirstLetter(letters: string)
    requires letters != ""
    ensures forall c :: c in letters <==> c == letters[0] || c in letters[1..]
  {
    assert letters == [letters[0]] + letters[1..];
  }

  lemma NoPosixName(letter: char)
    ensures CliFlagName(letter) != Some("posix")
  {
  }

  lemma OneNamedOption(letter: char, enabled: bool)
    requires IsFlag(letter)
    ensures NamedOptions([letter], enabled) ==
            if SetsField(letter) then [] else [(CliFlagName(letter).value, enabled)]
  {
    hide CliFlagName;
    var none: seq<(string, bool)> := [];
    assert [letter][1..] == "" && NamedOptions("", enabled) == none;
    if !SetsField(letter) {
      assert [(CliFlagName(letter).value, enabled)] + none == [(CliFlagName(letter).value, enabled)];
    }
  }

  lemma OneFieldFlag(letter: char, enabled: bool, out: Invocation)
    requires SetsField(letter) && !LiftsRestriction([letter], enabled, out)
    ensures SetFlag(letter, enabled, out) ==
            Set(WithFlags(out, if letter == 'i' then enabled else out.interactive,
                          if letter == 'D' then enabled else out.dumpStrings,
                          if letter == 'r' then enabled else out.restricted, out.shellFlags))
  {
    hide CliFlagName, NamedOptions;
    assert letter in [letter];
  }

  lemma OneNamedFlag(letter: char, enabled: bool, out: Invocation)
    requires !SetsField(letter) && IsFlag(letter)
    ensures SetFlag(letter, enabled, out) ==
            Set(WithFlags(out, out.interactive, out.dumpStrings, out.restricted,
                          out.shellFlags + [(CliFlagName(letter).value, enabled)]))
  {
    hide CliFlagName, NamedOptions;
    NoPosixName(letter);
  }

  lemma OneFlag(letter: char, enabled: bool, out: Invocation)
    requires IsFlag(letter)
    ensures SetFlag(letter, enabled, out) ==
            if LiftsRestriction([letter], enabled, out) then Refused(out) else Set(Effect([letter], enabled, out))
  {
    hide CliFlagName, SetFlag, NamedOptions, WithFlags;
    OneNamedOption(letter, enabled);
    if !SetsField(letter) {
      OneNamedFlag(letter, enabled, out);
    } else if LiftsRestriction([letter], enabled, out) {
      RefusedFlag(enabled, out);
    } else {
      assert out.shellFlags + [] == out.shellFlags;
      OneFieldFlag(letter, enabled, out);
    }
  }

  lemma RefusedFlag(enabled: bool, out: Invocation)
    requires !enabled && out.restricted
    ensures SetFlag('r', enabled, out) == Refused(out)
  {
  }

  lemma EffectReads(letters: string, enabled: bool, out: Invocation)
    requires forall c :: c in letters ==> IsFlag(c)
    ensures var o := Effect(letters, enabled, out);
            && o.interactive == (if 'i' in letters then enabled else out.interactive)
            && o.dumpStrings == (if 'D' in letters then enabled else out.dumpStrings)
            && o.restricted == (if 'r' in letters then enabled else out.restricted)
            && o.shellFlags == out.shellFlags + NamedOptions(letters, enabled)
  {
    hide IsFlag, WithFlags, NamedOptions;
    WithFlagsReads(out, if 'i' in letters then enabled else out.interactive,
                   if 'D' in letters then enabled else out.dumpStrings,
                   if 'r' in letters then enabled else out.restricted,
                   out.shellFlags + NamedOptions(letters, enabled));
  }

  /** What the effect of two runs of letters is, one after the other. */
  lemma EffectAgain(first: string, rest: string, enabled: bool, out: Invocation)
    requires (forall c :: c in first ==> IsFlag(c)) && (forall c :: c in rest ==> IsFlag(c))
    ensures Effect(rest, enabled, Effect(first, enabled, out)) ==
            WithFlags(out,
                      if 'i' in rest || 'i' in first then enabled else out.interactive,
                      if 'D' in rest || 'D' in first then enabled else out.dumpStrings,
                      if 'r' in rest || 'r' in first then enabled else out.restricted,
                      out.shellFlags + NamedOptions(first, enabled) + NamedOptions(rest, enabled))
  {
    hide IsFlag, WithFlags, NamedOptions;
    EffectReads(first, enabled, out);
    var o := Effect(first, enabled, out);
    WithFlagsAgain(out, o.interactive, o.dumpStrings, o.restricted, o.shellFlags,
                   if 'i' in rest then enabled else o.interactive,
                   if 'D' in rest then enabled else o.dumpStrings,
                   if 'r' in rest then enabled else o.restricted,
                   o.shellFlags + NamedOptions(rest, enabled));
  }

  lemma EffectInSteps(letters: string, enabled: bool, out: Invocation)
    requires letters != "" && forall c :: c in letters ==> IsFlag(c)
    ensures IsFlag(letters[0]) && forall c :: c in letters[1..] ==> IsFlag(c)
    ensures Effect(letters, enabled, out) == Effect(letters[1..], enabled, Effect([letters[0]], enabled, out))
  {
    hide IsFlag, WithFlags, NamedOptions;
    FirstLetter(letters);
    EffectAgain([letters[0]], letters[1..], enabled, out);
    NamedOptionsInSteps(letters, enabled);
    Assoc(out.shellFlags, NamedOptions([letters[0]], enabled), NamedOptions(letters[1..], enabled));
  }

  lemma LiftInSteps(letters: string, enabled: bool, out: Invocation)
    requires letters != "" && IsFlag(letters[0])
    ensures LiftsRestriction(letters, enabled, out) <==>
            LiftsRestriction([letters[0]], enabled, out)
            || LiftsRestriction(letters[1..], enabled, Effect([letters[0]], enabled, out))
  {
    hide IsFlag, Effect;
    FirstLetter(letters);
    EffectReads([letters[0]], enabled, out);
  }

  lemma NamedOptionsInSteps(letters: string, enabled: bool)
    requires letters != "" && forall c :: c in letters ==> IsFlag(c)
    ensures NamedOptions(letters, enabled) ==
            NamedOptions([letters[0]], enabled) + NamedOptions(letters[1..], enabled)
  {
    hide CliFlagName, IsFlag;
    assert letters[0] in letters;
    OneNamedOption(letters[0], enabled);
  }

  /**
   A run of flag letters: the letters in front of the first unknown one take effect, whether or not one
   follows; a `+` word that would take the restriction off is refused.
   */
  lemma {:induction false} LettersTakeEffect(letters: string, k: nat, enabled: bool, out: Invocation)
    requires FirstUnknown(letters, k)
    ensures var r, before := SetFlags(letters, enabled, out), letters[..k];
            if LiftsRestriction(before, enabled, out) then r.Refused?
            else if k < |letters| then r == Unknown(Effect(before, enabled, out))
            else r == Set(Effect(before, enabled, out))
    decreases k
  {
    hide CliFlagName, SetFlag, Effect, LiftsRestriction;
    if k == 0 {
      NoEffect(enabled, out);
      assert letters[..0] == "";
      if letters != "" {
        UnknownFlag(letters[0], enabled, out);
      }
    } else {
      var before := letters[..k];
      assert before[0] == letters[0] && before[1..] == letters[1..][..k - 1];
      OneFlag(letters[0], enabled, out);
      EffectInSteps(before, enabled, out);
      LiftInSteps(before, enabled, out);
      LettersTakeEffect(letters[1..], k - 1, enabled, Effect([letters[0]], enabled, out));
    }
  }

  lemma NoEffect(enabled: bool, out: Invocation)
    ensures Effect("", enabled, out) == out && !LiftsRestriction("", enabled, out)
  {
    hide WithFlags;
    var none: seq<(string, bool)> := [];
    assert NamedOptions("", enabled) == none && out.shellFlags + none == out.shellFlags;
    WithOwnFlags(out);
  }

  lemma UnknownFlag(letter: char, enabled: bool, out: Invocation)
    requires !IsFlag(letter)
    ensures SetFlag(letter, enabled, out) == Unknown(out)
  {
  }

  lemma {:induction false} NoNamedOptions(letters: string, enabled: bool)
    requires forall c :: c in letters ==> IsFlag(c)
    ensures NamedOptions(letters, enabled) == [] <==> forall c :: c in letters ==> SetsField(c)
  {
    hide CliFlagName, IsFlag, SetsField;
    if letters != "" {
      FirstLetter(letters);
      NoNamedOptions(letters[1..], enabled);
    }
  }

  lemma EffectIsNothing(letters: string, enabled: bool, out: Invocation)
    requires forall c :: c in letters ==> IsFlag(c)
    ensures Effect(letters, enabled, out) == out && !LiftsRestriction(letters, enabled, out) <==>
            forall c :: c in letters ==> AlreadySo(c, enabled, out)
  {
    hide CliFlagName, IsFlag, NamedOptions, WithFlags;
    NoNamedOptions(letters, enabled);
    var named := NamedOptions(letters, enabled);
    EffectReads(letters, enabled, out);
    WithOwnFlags(out);
    assert named != [] ==> |out.shellFlags + named| > |out.shellFlags|;
    assert named == [] ==> out.shellFlags + named == out.shellFlags;
  }

  /** A run with an unknown letter changes nothing exactly when the letters in front of it change nothing each. */
  lemma LettersChangeNothingExactlyWhen(letters: string, k: nat, enabled: bool, out: Invocation)
    requires FirstUnknown(letters, k)
    ensures SetFlags(letters, enabled, out) == Unknown(out) <==>
            k < |letters| && forall c :: c in letters[..k] ==> AlreadySo(c, enabled, out)
  {
    hide CliFlagName, SetFlags, Effect, LiftsRestriction, AlreadySo;
    LettersTakeEffect(letters, k, enabled, out);
    EffectIsNothing(letters[..k], enabled, out);
  }

  /** A word behind `-c` that is read as a run of flags. */
  predicate ReadAsFlags(word: string, out: Invocation) {
    && IsSigned(word) && |word| > 1 && 'o' !in word[1..] && 'O' !in word[1..]
    && SetPlain(word, out).None?
  }

  /** The command, its name and the parameters. */
  function AsCommand(words: seq<string>, out: Invocation): Parse
    requires words != []
  {
    var named := out.(command := Some(words[0]));
    Parsed(if |words| > 1 then named.(commandName := Some(words[1]), positionalParams := words[2..]) else named)
  }

  lemma ValueOptionHasItsLetter(word: string)
    requires IsValueOption(word)
    ensures 'o' in word[1..] || 'O' in word[1..]
  {
    assert word[1..][0] == word[1];
  }

  lemma FlagsOfCommandWord(word: string, rest: seq<string>, k: nat, out: Invocation)
    requires ReadAsFlags(word, out) && FirstUnknown(word[1..], k) && k < |word| - 1
    ensures var enabled, before := word[0] == '-', word[1..][..k];
            PostCOption([word] + rest, out) ==
            if LiftsRestriction(before, enabled, out) then Rejected(InvalidOption(word))
            else PostC(0, Effect(before, enabled, out))
  {
    hide CliFlagName, SetPlain, SetFlags, Effect, LiftsRestriction, IsValueOption, FirstUnknown;
    if IsValueOption(word) {
      ValueOptionHasItsLetter(word);
    }
    LettersTakeEffect(word[1..], k, word[0] == '-', out);
    assert ([word] + rest)[0] == word;
  }

  /**
   Behind `-c`, a word read as flags with a letter among them that is none is the command, not an option;
   the flags in front of that letter are set all the same.
   */
  lemma CommandWordSetsItsFlags(word: string, rest: seq<string>, k: nat, out: Invocation)
    requires ReadAsFlags(word, out) && FirstUnknown(word[1..], k) && k < |word| - 1
    ensures var enabled, before := word[0] == '-', word[1..][..k];
            PostCommand([word] + rest, out) ==
            if LiftsRestriction(before, enabled, out) then Usage(InvalidOption(word))
            else AsCommand([word] + rest, Effect(before, enabled, out))
  {
    hide CliFlagName, PostCOption, Effect, LiftsRestriction, ReadAsFlags, FirstUnknown, InvalidOption;
    FlagsOfCommandWord(word, rest, k, out);
  }

  /** Such a command leaves the invocation alone exactly when each flag in front of the unknown letter does. */
  lemma CommandWordLeavesFlagsExactlyWhen(word: string, rest: seq<string>, k: nat, out: Invocation)
    requires ReadAsFlags(word, out) && FirstUnknown(word[1..], k) && k < |word| - 1
    ensures PostCOption([word] + rest, out) == PostC(0, out) <==>
            forall c :: c in word[1..][..k] ==> AlreadySo(c, word[0] == '-', out)
  {
    hide CliFlagName, PostCOption, Effect, LiftsRestriction, ReadAsFlags, AlreadySo;
    FlagsOfCommandWord(word, rest, k, out);
    EffectIsNothing(word[1..][..k], word[0] == '-', out);
  }
}
