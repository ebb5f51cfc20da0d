/**
 The word kept for `%` after a substring search (src/history_expand.rs): the search gives the byte index of
 its match, which is taken for the index of a character.
 */
module MatchedWords {
  import opened HistoryEvents
  import opened HistoryTokenizer
  import opened HistoryWords
  import opened Sequences
  import opened Substitution
  import opened TextSlices
  import opened Wrappers

  /** Whatever the text, the place the program looks at is in the word of the match exactly when the bytes in
      front of the match are fewer than the characters up to the end of that word. */
  lemma LooksAtItsWordExactlyWhen(line: string, text: string)
    requires LastMatch(line, text, |line|).Some?
    requires WordSpan(line, 0, LastMatch(line, text, |line|).value, None).Some?
    ensures var k := LastMatch(line, text, |line|).value;
            var span := WordSpan(line, 0, k, None);
            WordSpan(line, 0, ByteLen(line[..k]), None) == span <==> ByteLen(line[..k]) < span.value.1
  {
    hide ByteLen, WordSpan, At;
    var k := LastMatch(line, text, |line|).value;
    var place := ByteLen(line[..k]);
    ByteLenOfAscii(line[..k]);
    if place < WordSpan(line, 0, k, None).value.1 {
      SpanHolds(line, 0, k, place, None);
    }
  }

  /** A text within a word stands in any equal word, as far from its start. */
  lemma MatchInEqualWord(line: string, text: string, k: nat, s: nat, e: nat, t: nat)
    requires s <= k && k + |text| <= e <= |line| && t + (e - s) <= |line| && line[t..t + (e - s)] == line[s..e]
    requires At(line, k, text)
    ensures At(line, t + (k - s), text)
  {
    SliceInside(line, s, e, k, |text|);
    SliceInside(line, t, t + (e - s), t + (k - s), |text|);
  }

  lemma SliceInside(line: string, s: nat, e: nat, k: nat, n: nat)
    requires s <= k && k + n <= e <= |line|
    ensures line[s..e][k - s..k - s + n] == line[k..k + n]
  {
    var part := line[s..e][k - s..k - s + n];
    assert forall j :: 0 <= j < n ==> part[j] == line[s..e][k - s + j] == line[k + j];
  }

  /**
   Where the match lies within a word, that word is kept exactly when the bytes in front of the match are
   fewer than the characters up to the end of the word. Behind ASCII text they always are.
   */
  lemma KeptWordIsRightExactlyWhen(line: string, text: string)
    requires text != "" && LastMatch(line, text, |line|).Some?
    requires var k := LastMatch(line, text, |line|).value;
             WordSpan(line, 0, k, None).Some? && k + |text| <= WordSpan(line, 0, k, None).value.1
    ensures var k := LastMatch(line, text, |line|).value;
            && (MatchedWord(line, text) == WordOver(line, k, None) <==>
                 ByteLen(line[..k]) < WordSpan(line, 0, k, None).value.1)
            && (SingleByte(line[..k]) ==> ByteLen(line[..k]) == k)
  {
    LooksAtItsWordExactlyWhen(line, text);
    hide ByteLen, SingleByte, WordSpan, At;
    var k := LastMatch(line, text, |line|).value;
    var place := ByteLen(line[..k]);
    var (s, e) := WordSpan(line, 0, k, None).value;
    ByteLenOfAscii(line[..k]);
    var other := WordSpan(line, 0, place, None);
    if place >= e && other.Some? && line[other.value.0..other.value.1] == line[s..e] {
      SpansApart(line, 0, k, place, None);
      MatchInEqualWord(line, text, k, s, e, other.value.0);
    }
  }

  // ------------------------------------------------------------------ lines it fails on

  lemma LastOfCharacters(line: string, x: char, k: nat)
    requires k < |line| && line[k] == x && forall p :: k < p < |line| ==> line[p] != x
    ensures LastMatch(line, [x], |line|) == Some(k)
  {
    var r := LastMatch(line, [x], |line|);
    hide At, LastMatch;
    OneCharacterAt([x], line, k);
    if r.Some? && r.value > k {
      OneCharacterBeyond(line, x, r.value);
    }
  }

  lemma OneCharacterBeyond(line: string, x: char, p: nat)
    requires At(line, p, [x])
    ensures p < |line| && line[p] == x
  {
    assert line[p..p + 1][0] == line[p];
  }

  /** Behind one longer character the place can be past the end of the line, and no word is kept. */
  lemma MatchedWordIsLost(c: char, x: char)
    requires c as int >= 0x80
    ensures MatchedWord([c, ' ', x], [x]) == None
  {
    hide ByteLen, SingleByte, WordSpan, At, LastMatch;
    var line := [c, ' ', x];
    LastOfCharacters(line, x, 2);
    ByteLenOfAscii(line[..2]);
    assert line[..2][0] == c;
    NotSingleByte(line[..2]);
    assert WordSpan(line, 0, ByteLen(line[..2]), None) == None;
  }

  lemma NotSingleByte(s: string)
    requires s != "" && s[0] as int >= 0x80
    ensures !SingleByte(s)
  {
  }

  /** Behind two characters of two bytes each the place can be in the next word, which is kept instead. */
  lemma AnotherWordIsKept(c: char, x: char, y: char)
    requires PlainChar(c) && PlainChar(x) && PlainChar(y) && x != y && 0x80 <= c as int < 0x800
    ensures MatchedWord([c, c, ' ', x, ' ', y], [x]) == Some([y])
  {
    var line := [c, c, ' ', x, ' ', y];
    TwoBytesEach(c);
    SpanOfLast(line, c, x, y);
    NotASpace(x);
    hide ByteLen, WordSpan, At, LastMatch, PlainChar;
    LastOfCharacters(line, x, 3);
    assert line[..3] == [c, c, ' '];
    assert line[5..6] == [y];
  }

  lemma NotASpace(x: char)
    requires PlainChar(x)
    ensures x != ' ' && !FieldDelim(x)
  {
  }

  lemma TwoBytesEach(c: char)
    requires 0x80 <= c as int < 0x800
    ensures ByteLen([c, c, ' ']) == 5
  {
    assert [c, c, ' '][1..] == [c, ' '] && [c, ' '][1..] == [' '] && [' '][1..] == [];
    assert ByteLen([' ']) == 1 && ByteLen([c, ' ']) == 3;
  }

  lemma WordFrom(line: string, i: nat, w: string, other: string)
    requires i <= |line| && line[i..] == w + other && PlainWord(w) && SpaceOrEnd(other)
    ensures WordLength(line[i..]) == |w|
  {
    PlainWordEnds(w, other);
  }

  lemma SpanOfLast(line: string, c: char, x: char, y: char)
    requires PlainChar(c) && PlainChar(x) && PlainChar(y) && line == [c, c, ' ', x, ' ', y]
    ensures WordSpan(line, 0, 5, None) == Some((5, 6))
  {
    WordFrom(line, 0, [c, c], [' ', x, ' ', y]);
    WordFrom(line, 3, [x], [' ', y]);
    WordFrom(line, 5, [y], []);
    hide WordLength, WordSpan, PlainChar;
    NotASpace(c);
    NotASpace(x);
    NotASpace(y);
    SpanWord(line, 0, 2, 5);
    SpanSkip(line, 2, 5);
    SpanWord(line, 3, 4, 5);
    SpanSkip(line, 4, 5);
    SpanWord(line, 5, 6, 5);
  }

  lemma SpanWord(line: string, i: nat, end: nat, wind: nat)
    requires i < end <= |line| && !FieldDelim(line[i]) && WordLength(line[i..]) == end - i
    ensures WordSpan(line, i, wind, None) == if i <= wind < end then Some((i, end)) else WordSpan(line, end, wind, None)
  {
    hide WordLength;
  }

  lemma SpanSkip(line: string, i: nat, wind: nat)
    requires i < |line| && FieldDelim(line[i])
    ensures WordSpan(line, i, wind, None) == WordSpan(line, i + 1, wind, None)
  {
    hide WordLength;
  }

  lemma AnotherWordExample()
    ensures MatchedWord("\U{E9}\U{E9} a b", "a") == Some("b")
  {
    AnotherWordIsKept('\U{E9}', 'a', 'b');
    assert ['\U{E9}', '\U{E9}', ' ', 'a', ' ', 'b'] == "\U{E9}\U{E9} a b" && ['a'] == "a" && ['b'] == "b";
  }
}
