/**
 Strings of characters and their UTF-8 bytes: offsets between characters, and what the scans of the `read -e`
 editor (src/readline_editor.rs) find there.
 */
module CharText {
  import opened Utf8
  import opened Wrappers
  import opened Sequences
  import opened EditorSpec
  import opened EditorTheorems
  import opened CharEditor

  // ---------------------------------------------------------------------- bytes of a string

  lemma EncodeOne(c: char)
    ensures EncodeAll([c]) == Encode(c)
  {
    assert [c][1..] == [] && Encode(c) + EncodeAll([]) == Encode(c);
  }

  lemma {:induction false} EncodeConcat(a: string, b: string)
    ensures EncodeAll(a + b) == EncodeAll(a) + EncodeAll(b)
    decreases |a|
  {
    hide Encode, WellFormed, SeqLen;
    if a == "" {
      assert a + b == b;
    } else {
      EncodeConcat(a[1..], b);
      assert (a + b)[1..] == a[1..] + b;
      Assoc(Encode(a[0]), EncodeAll(a[1..]), EncodeAll(b));
    }
  }

  lemma {:induction false} DecodedBack(s: string)
    ensures DecodeAll(EncodeAll(s)) == s
    decreases |s|
  {
    hide Encode, Decode, SeqLen;
    if s != "" {
      var rest := EncodeAll(s[1..]);
      DecodeOfEncode(s[0], rest);
      DecodedBack(s[1..]);
      assert (Encode(s[0]) + rest)[|Encode(s[0])|..] == rest;
    }
  }

  lemma EncodeNothing(s: string)
    ensures EncodeAll(s) == [] <==> s == ""
  {
    hide Encode;
  }

  /** A text cut between two characters. */
  lemma CutBetween(a: string, b: string)
    ensures |EncodeAll(a)| <= |EncodeAll(a + b)|
    ensures EncodeAll(a + b)[..|EncodeAll(a)|] == EncodeAll(a) && EncodeAll(a + b)[|EncodeAll(a)|..] == EncodeAll(b)
  {
    EncodeConcat(a, b);
  }

  lemma CutTwice(a: string, b: string, c: string)
    ensures var t, i, j := EncodeAll(a + b + c), |EncodeAll(a)|, |EncodeAll(a + b)|;
            i <= j <= |t| && t[..i] == EncodeAll(a) && t[i..j] == EncodeAll(b) && t[j..] == EncodeAll(c)
  {
    EncodeConcat(a + b, c);
    EncodeConcat(a, b);
  }

  lemma EncodedStarts(s: string)
    ensures EncodeAll(s) != [] ==> !IsTail(EncodeAll(s)[0])
  {
    NoLeadingTail(EncodeAll(s));
  }

  lemma BetweenIsBoundary(a: string, b: string)
    ensures Boundary(EncodeAll(a + b), |EncodeAll(a)|)
  {
    CutBetween(a, b);
    EncodedStarts(b);
    var t := EncodeAll(a + b);
    assert |EncodeAll(a)| < |t| ==> t[|EncodeAll(a)|] == EncodeAll(b)[0];
  }

  /** Inside the bytes of a character there is no boundary. */
  lemma InsideIsNone(a: string, c: char, b: string, k: nat)
    requires |EncodeAll(a)| < k < |EncodeAll(a + [c])|
    ensures !Boundary(EncodeAll(a + [c] + b), k)
  {
    CutTwice(a, [c], b);
    EncodeOne(c);
    var t, i := EncodeAll(a + [c] + b), |EncodeAll(a)|;
    hide Encode;
    EncodeConcat(a, [c]);
    EncodeConcat(a + [c], b);
    TailsOf(c, k - i);
    assert t[k] == t[i..|EncodeAll(a + [c])|][k - i];
  }

  lemma TailsOf(c: char, k: nat)
    requires 0 < k < |Encode(c)|
    ensures IsTail(Encode(c)[k])
  {
  }

  lemma NextBetween(a: string, c: char, b: string)
    ensures NextBoundary(EncodeAll(a + [c] + b), |EncodeAll(a)|) == |EncodeAll(a + [c])|
    ensures PrevBoundary(EncodeAll(a + [c] + b), |EncodeAll(a + [c])|) == |EncodeAll(a)|
  {
    var t, i, j := EncodeAll(a + [c] + b), |EncodeAll(a)|, |EncodeAll(a + [c])|;
    EncodeConcat(a, [c]);
    EncodeOne(c);
    CutTwice(a, [c], b);
    BetweenIsBoundary(a + [c], b);
    Assoc(a, [c], b);
    BetweenIsBoundary(a, [c] + b);
    hide Encode, EncodeAll;
    forall k | i < k < j ensures !Boundary(t, k) {
      InsideIsNone(a, c, b, k);
    }
  }

  lemma WordBetween(u: CharTables, a: string, c: char, b: string)
    ensures IsWordAt(u, EncodeAll(a + [c] + b), |EncodeAll(a)|) == IsWordChar(u, c)
  {
    var t, i := EncodeAll(a + [c] + b), |EncodeAll(a)|;
    Assoc(a, [c], b);
    CutBetween(a, [c] + b);
    EncodeConcat([c], b);
    EncodeOne(c);
    DecodeOfEncode(c, EncodeAll(b));
    hide Encode, Decode, SeqLen;
    assert t[i..] == Encode(c) + EncodeAll(b);
  }

  lemma FirstOf(s: string)
    requires s != ""
    ensures s == [s[0]] + s[1..]
  {
  }

  lemma LastOf(s: string)
    requires s != ""
    ensures s == s[..|s| - 1] + [s[|s| - 1]]
  {
  }

  // ----------------------------------------------------------------------- what the scans find

  lemma {:induction false} SkipForwardIs(u: CharTables, a: string, b: string, word: bool)
    ensures |EncodeAll(a)| <= |EncodeAll(a + b)|
    ensures var n := Lead(u, b, word);
            SkipForward(u, EncodeAll(a + b), |EncodeAll(a)|, word) == |EncodeAll(a + b[..n])|
    decreases |b|
  {
    hide EncodeAll, IsWordAt, NextBoundary, IsWordChar, Boundary;
    var t, i := EncodeAll(a + b), |EncodeAll(a)|;
    CutBetween(a, b);
    EncodeNothing(b);
    BetweenIsBoundary(a, b);
    if b == "" {
      assert a + b[..0] == a;
    } else {
      var c, rest := b[0], b[1..];
      FirstOf(b);
      Assoc(a, [c], rest);
      WordBetween(u, a, c, rest);
      if IsWordChar(u, c) == word {
        NextBetween(a, c, rest);
        SkipForwardIs(u, a + [c], rest, word);
        var n := Lead(u, rest, word);
        assert b[..n + 1] == [c] + rest[..n];
        Assoc(a, [c], rest[..n]);
      } else {
        assert a + b[..0] == a;
      }
    }
  }

  lemma {:induction false} SkipBackIs(u: CharTables, a: string, b: string, word: bool)
    ensures |EncodeAll(a)| <= |EncodeAll(a + b)|
    ensures var n := Trail(u, a, word);
            SkipBack(u, EncodeAll(a + b), |EncodeAll(a)|, word) == |EncodeAll(a[..|a| - n])|
    decreases |a|
  {
    hide EncodeAll, IsWordAt, PrevBoundary, IsWordChar, Boundary, WellFormed, SeqLen;
    CutBetween(a, b);
    EncodeNothing(a);
    BetweenIsBoundary(a, b);
    if a == "" {
      assert a[..0] == a;
    } else {
      var c, rest := a[|a| - 1], a[..|a| - 1];
      LastOf(a);
      WordBetween(u, rest, c, b);
      NextBetween(rest, c, b);
      if IsWordChar(u, c) == word {
        Assoc(rest, [c], b);
        SkipBackIs(u, rest, [c] + b, word);
        var n := Trail(u, rest, word);
        assert rest[..|rest| - n] == a[..|a| - (n + 1)];
      } else {
        assert a[..|a|] == a;
      }
    }
  }

  lemma WordAheadIs(u: CharTables, a: string, b: string)
    ensures WordEndAfter(u, EncodeAll(a + b), |EncodeAll(a)|) == |EncodeAll(a + b[..WordAhead(u, b)])|
  {
    hide EncodeAll, SkipForward, Lead, IsWordAt, NextBoundary, Boundary, IsWordChar;
    var k := Lead(u, b, false);
    CutBetween(a, b);
    SkipForwardIs(u, a, b, false);
    TakeDrop(b, k);
    Assoc(a, b[..k], b[k..]);
    SkipForwardIs(u, a + b[..k], b[k..], true);
    var n := Lead(u, b[k..], true);
    assert b[..k] + b[k..][..n] == b[..k + n];
    Assoc(a, b[..k], b[k..][..n]);
  }

  lemma WordBehindIs(u: CharTables, a: string, b: string)
    ensures WordStartBefore(u, EncodeAll(a + b), |EncodeAll(a)|) == |EncodeAll(a[..|a| - WordBehind(u, a)])|
  {
    hide EncodeAll, SkipBack, Trail, IsWordAt, PrevBoundary, Boundary, IsWordChar;
    var k := |a| - Trail(u, a, false);
    CutBetween(a, b);
    SkipBackIs(u, a, b, false);
    TakeDrop(a, k);
    Assoc(a[..k], a[k..], b);
    SkipBackIs(u, a[..k], a[k..] + b, true);
    var n := Trail(u, a[..k], true);
    assert a[..k][..k - n] == a[..k - n];
  }

  // --------------------------------------------------------------------------- C-w and M-t

  lemma BlankBytes(c: char)
    ensures IsBlank(c) ==> |Encode(c)| == 1
    ensures forall k :: 0 <= k < |Encode(c)| ==> IsAsciiWhitespace(Encode(c)[k]) == IsBlank(c)
  {
  }

  /** The bytewise scan over one character. */
  lemma {:induction false} SkipBytesOver(t: Bytes, i: nat, j: nat, white: bool)
    requires i <= j <= |t| && forall k :: i <= k < j ==> IsAsciiWhitespace(t[k]) == white
    ensures SkipBytesBack(t, j, white) == SkipBytesBack(t, i, white)
    decreases j - i
  {
    if i < j {
      SkipBytesOver(t, i, j - 1, white);
    }
  }

  lemma BytesOfLast(a: string, c: char, b: string)
    ensures var t, i, j := EncodeAll(a + [c] + b), |EncodeAll(a)|, |EncodeAll(a + [c])|;
            && i < j <= |t| && j - i == |Encode(c)|
            && forall k :: i <= k < j ==> t[k] == Encode(c)[k - i]
  {
    CutTwice(a, [c], b);
    EncodeOne(c);
    hide Encode, EncodeAll;
    var t, i, j := EncodeAll(a + [c] + b), |EncodeAll(a)|, |EncodeAll(a + [c])|;
    assert forall k :: i <= k < j ==> t[k] == t[i..j][k - i];
  }

  lemma {:induction false} SkipBytesIs(a: string, b: string, blank: bool)
    ensures |EncodeAll(a)| <= |EncodeAll(a + b)|
    ensures SkipBytesBack(EncodeAll(a + b), |EncodeAll(a)|, blank) == |EncodeAll(a[..|a| - TrailBlank(a, blank)])|
    decreases |a|
  {
    hide EncodeAll, Encode, IsBlank, IsAsciiWhitespace, WellFormed, SeqLen;
    CutBetween(a, b);
    EncodeNothing(a);
    if a == "" {
      assert a[..0] == a;
    } else {
      var c, rest := a[|a| - 1], a[..|a| - 1];
      var t, i, j := EncodeAll(a + b), |EncodeAll(rest)|, |EncodeAll(a)|;
      LastOf(a);
      BytesOfLast(rest, c, b);
      BlankBytes(c);
      if IsBlank(c) == blank {
        forall k | i <= k < j ensures IsAsciiWhitespace(t[k]) == blank {
          assert t[k] == Encode(c)[k - i];
        }
        SkipBytesOver(t, i, j, blank);
        Assoc(rest, [c], b);
        SkipBytesIs(rest, [c] + b, blank);
        var n := TrailBlank(rest, blank);
        assert rest[..|rest| - n] == a[..|a| - (n + 1)];
      } else {
        assert t[j - 1] == Encode(c)[j - 1 - i];
        assert a[..|a|] == a;
      }
    }
  }

  lemma RuboutIs(a: string, b: string)
    ensures |EncodeAll(a)| <= |EncodeAll(a + b)|
    ensures RuboutStart(EncodeAll(a + b), |EncodeAll(a)|) == |EncodeAll(a[..|a| - RuboutBehind(a)])|
  {
    hide EncodeAll, SkipBytesBack, TrailBlank;
    var k := |a| - TrailBlank(a, true);
    SkipBytesIs(a, b, true);
    TakeDrop(a, k);
    Assoc(a[..k], a[k..], b);
    SkipBytesIs(a[..k], a[k..] + b, false);
    var n := TrailBlank(a[..k], false);
    assert a[..k][..k - n] == a[..k - n];
  }

  // --------------------------------------------------------------------- case and parameters

  lemma {:induction false} LowerSnoc(u: CharTables, text: string, c: char)
    ensures LowerEach(u, text + [c]) == LowerEach(u, text) + u.lowerChar(c)
    decreases |text|
  {
    var all := text + [c];
    if text == "" {
      assert all[1..] == "" && u.lowerChar(c) + "" == u.lowerChar(c) && "" + u.lowerChar(c) == u.lowerChar(c);
    } else {
      assert all[0] == text[0] && all[1..] == text[1..] + [c];
      LowerSnoc(u, text[1..], c);
      Assoc(u.lowerChar(text[0]), LowerEach(u, text[1..]), u.lowerChar(c));
    }
  }

  lemma {:induction false} LowerEachIs(u: CharTables, text: string)
    ensures LowerEach(u, text) == EachLower(u, text)
    decreases |text|
  {
    if text != "" {
      var n := |text| - 1;
      LowerEachIs(u, text[..n]);
      LowerSnoc(u, text[..n], text[n]);
      assert text[..n] + [text[n]] == text;
    }
  }

  lemma CaseIs(u: CharTables, word: string, how: Case)
    ensures InCase(u, word, how) == Recased(u, word, how != Lower, how == Capital)
  {
    hide LowerEach, EachLower;
    if how == Capital && word != "" {
      LowerEachIs(u, word[1..]);
    }
  }

  lemma OneAndRest(c: char, rest: string, key: char)
    ensures [c] + rest == [key] <==> c == key && rest == ""
    ensures rest + [c] == [key] <==> c == key && rest == ""
  {
    assert ([c] + rest)[0] == c && |[c] + rest| == 1 + |rest|;
    assert (rest + [c])[|rest|] == c && |rest + [c]| == 1 + |rest|;
  }

  lemma FirstFieldIs(params: string, key: char)
    requires key != ';'
    ensures FirstField(params) == [key] <==> FirstIs(params, key)
  {
    if params != "" && params[0] != ';' {
      OneAndRest(params[0], FirstField(params[1..]), key);
      assert FirstField(params[1..]) == "" <==> |params| == 1 || params[1] == ';';
    }
  }

  lemma EndsInTwo(text: string, c: char, d: char)
    ensures EndsIn(text, [c, d]) <==> |text| > 1 && text[|text| - 2] == c && text[|text| - 1] == d
  {
    if |text| > 1 {
      assert text[|text| - 2..] == [text[|text| - 2], text[|text| - 1]];
    }
  }

  lemma LastFieldIs(params: string, key: char)
    requires key != ';'
    ensures LastField(params) == [key] <==> params == [key] || EndsIn(params, [';', key])
  {
    EndsInTwo(params, ';', key);
    var n := |params| - 1;
    if n >= 0 && params[n] != ';' {
      var front := params[..n];
      OneAndRest(params[n], LastField(front), key);
      assert LastField(front) == "" <==> front == "" || front[n - 1] == ';';
    }
  }

  lemma ModifierIs(params: string)
    ensures WordModifier(params) <==> Modified(params)
  {
    hide LastField;
    LastFieldIs(params, '5');
    LastFieldIs(params, '3');
    EndsInTwo(params, ';', '5');
    EndsInTwo(params, ';', '3');
  }

  lemma OneByteIs(c: char)
    ensures OneByte(c) <==> |Encode(c)| == 1
  {
  }

  lemma {:induction false} TransposeScanIs(u: CharTables, a: string, b: string)
    ensures |EncodeAll(a)| <= |EncodeAll(a + b)|
    ensures TransposeScan(u, EncodeAll(a + b), |EncodeAll(a)|) ==
            if MeetsMultibyte(u, a) then None else Some(|EncodeAll(a[..|a| - Trail(u, a, false)])|)
    decreases |a|
  {
    hide EncodeAll, Encode, IsWordAt, IsWordChar, OneByte, Boundary;
    CutBetween(a, b);
    EncodeNothing(a);
    if a == "" {
      assert a[..0] == a;
    } else {
      var c, rest := a[|a| - 1], a[..|a| - 1];
      var t, i, j := EncodeAll(a + b), |EncodeAll(rest)|, |EncodeAll(a)|;
      LastOf(a);
      BytesOfLast(rest, c, b);
      OneByteIs(c);
      Assoc(rest, [c], b);
      if OneByte(c) {
        BetweenIsBoundary(rest, [c] + b);
        WordBetween(u, rest, c, b);
        TransposeScanIs(u, rest, [c] + b);
        var n := Trail(u, rest, false);
        assert rest[..|rest| - n] == a[..|a| - (n + 1)] && a[..|a|] == a;
      } else {
        InsideIsNone(rest, c, b, j - 1);
      }
    }
  }
}
