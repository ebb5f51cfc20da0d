/**
 Truncating a history file (src/history.rs): what is kept, when the byte offset the program
 computes is the right one, how truncations compose, and truncating before loading.
 */
module HistoryTruncate {
  import opened Wrappers
  import opened HistoryText
  import opened HistorySpec
  import opened HistoryFileTheorems
  import opened Sequences
  import opened TextSlices
  import opened Utf8

  // -------------------------------------------------------------- tails of a text

  lemma RawOffsetBound(content: string, k: nat)
    requires k <= |RawLines(content)|
    ensures RawOffset(RawLines(content), k) <= |content|
  {
    RawLinesCover(content);
    RawOffsetMonotone(RawLines(content), k, |RawLines(content)|);
  }

  /** The text from raw line `k` on. */
  function TailText(content: string, k: nat): string
    requires k <= |RawLines(content)|
  {
    RawOffsetBound(content, k);
    content[RawOffset(RawLines(content), k)..]
  }

  lemma RawOffsetStep(content: string, k: nat)
    requires 1 <= k <= |RawLines(content)|
    ensures var j := FirstLineLength(content);
            && RawLines(content)[1..] == RawLines(content[j..]) && k - 1 <= |RawLines(content[j..])|
            && RawOffset(RawLines(content), k) == j + RawOffset(RawLines(content[j..]), k - 1)
  {
    var j := FirstLineLength(content);
    assert RawLines(content)[1..] == RawLines(content[j..]) && |RawLines(content)[0]| == j;
    hide RawLines, RawOffset;
    RawOffsetShift(RawLines(content), k);
  }

  lemma TailStep(content: string, k: nat)
    requires 1 <= k <= |RawLines(content)|
    ensures var rest := content[FirstLineLength(content)..];
            && RawLines(content)[1..] == RawLines(rest) && k - 1 <= |RawLines(rest)|
            && TailText(content, k) == TailText(rest, k - 1)
  {
    RawOffsetStep(content, k);
    hide RawLines, RawOffset, FirstLineLength;
    var j := FirstLineLength(content);
    RawOffsetBound(content[j..], k - 1);
    DropDrop(content, j, RawOffset(RawLines(content[j..]), k - 1));
  }

  lemma {:induction false} LinesOfTail(content: string, k: nat)
    requires k <= |RawLines(content)|
    ensures RawLines(TailText(content, k)) == RawLines(content)[k..]
    decreases k
  {
    hide RawLines;
    var raws := RawLines(content);
    if k == 0 {
      assert content[0..] == content && raws[0..] == raws;
    } else {
      hide TailText;
      TailStep(content, k);
      LinesOfTail(content[FirstLineLength(content)..], k - 1);
      assert raws[1..][k - 1..] == raws[k..];
    }
  }

  lemma {:induction false} TextsOfTail(raws: seq<string>, k: nat)
    requires k <= |raws|
    ensures TextsOf(raws[k..]) == TextsOf(raws)[k..]
  {
    if k > 0 {
      TextsOfTail(raws[1..], k - 1);
      assert raws[1..][k - 1..] == raws[k..];
    }
  }

  predicate EndsInCrLf(raw: string) { |raw| >= 2 && raw[|raw| - 1] == '\n' && raw[|raw| - 2] == '\r' }

  lemma LineBytes(raw: string)
    requires EndsInNewline(raw)
    ensures ByteLen(LineText(raw)) + 1 + (if EndsInCrLf(raw) then 1 else 0) == ByteLen(raw)
  {
    hide ByteLen;
    var n := |raw| - 1;
    assert raw == raw[..n] + ['\n'];
    ByteLenConcat(raw[..n], ['\n']);
    AsciiByteLen('\n');
    if EndsInCrLf(raw) {
      assert raw[..n] == raw[..n - 1] + ['\r'];
      ByteLenConcat(raw[..n - 1], ['\r']);
      AsciiByteLen('\r');
    }
  }

  /** How many of the first `k` lines end in CR LF. */
  function CrLfs(raws: seq<string>, k: nat): nat
    requires k <= |raws|
  {
    if k == 0 then 0 else (if EndsInCrLf(raws[0]) then 1 else 0) + CrLfs(raws[1..], k - 1)
  }

  lemma {:induction false} NoCrLfs(raws: seq<string>, k: nat)
    requires k <= |raws|
    ensures CrLfs(raws, k) == 0 <==> forall i :: 0 <= i < k ==> !EndsInCrLf(raws[i])
  {
    hide EndsInCrLf;
    if k > 0 {
      NoCrLfs(raws[1..], k - 1);
      assert forall i :: 1 <= i < k ==> raws[1..][i - 1] == raws[i];
    }
  }

  lemma {:induction false} OffsetShift(lines: seq<string>, k: nat)
    requires 1 <= k <= |lines|
    ensures OffsetOf(lines, k) == ByteLen(lines[0]) + 1 + OffsetOf(lines[1..], k - 1)
  {
    hide ByteLen;
    if k > 1 {
      OffsetShift(lines, k - 1);
    }
  }

  lemma FirstRaw(content: string)
    requires content != ""
    ensures var j := FirstLineLength(content);
            RawLines(content) == [content[..j]] + RawLines(content[j..]) && content == content[..j] + content[j..]
  {
    hide FirstLineLength;
  }

  lemma FirstText(raws: seq<string>)
    requires raws != []
    ensures TextsOf(raws)[0] == LineText(raws[0]) && TextsOf(raws)[1..] == TextsOf(raws[1..])
  {
  }

  /** The program's offset falls short of line `k` by one byte for each line before it that ends in CR LF. */
  lemma {:induction false} OffsetFallsShort(content: string, k: nat)
    requires k < |RawLines(content)|
    ensures OffsetOf(Lines(content), k) + CrLfs(RawLines(content), k) + ByteLen(TailText(content, k))
          == ByteLen(content)
    decreases k
  {
    hide RawLines, TextsOf, ByteLen, TailText, LineText, EndsInCrLf, EndsInNewline, FirstLineLength;
    if k == 0 {
      WholeTail(content);
    } else {
      assert content != "" by { NoRawLines(); }
      var j, raws := FirstLineLength(content), RawLines(content);
      var rest := content[j..];
      FirstRaw(content);
      RawLinesCover(content);
      TailStep(content, k);
      OffsetFallsShort(rest, k - 1);
      FirstText(raws);
      OffsetShift(TextsOf(raws), k);
      LineBytes(raws[0]);
      ByteLenConcat(content[..j], rest);
    }
  }

  lemma NoRawLines()
    ensures RawLines("") == []
  {
  }

  lemma WholeTail(content: string)
    ensures TailText(content, 0) == content
  {
  }

  /** The tail is what a slice at its own offset gives, and nothing a slice before it does. */
  lemma SliceAtTail(content: string, k: nat, offset: nat)
    requires k <= |RawLines(content)| && offset + ByteLen(TailText(content, k)) <= ByteLen(content)
    ensures SliceFrom(content, offset) == Some(TailText(content, k)) <==>
            offset + ByteLen(TailText(content, k)) == ByteLen(content)
  {
    var r := RawOffset(RawLines(content), k);
    RawOffsetBound(content, k);
    var tail := TailText(content, k);
    assert tail == content[r..];
    hide *;
    TakeDrop(content, r);
    SliceAtSuffix(content[..r], tail, offset);
  }

  lemma SliceAtSuffix(head: string, tail: string, offset: nat)
    requires offset + ByteLen(tail) <= ByteLen(head + tail)
    ensures SliceFrom(head + tail, offset) == Some(tail) <==> offset + ByteLen(tail) == ByteLen(head + tail)
  {
    hide ByteLen, SliceFrom;
    ByteLenConcat(head, tail);
    SliceFromConcat(head, tail, 0);
    SliceAtStart(tail);
    if SliceFrom(head + tail, offset) == Some(tail) {
      SliceFromIsSuffix(head + tail, offset);
    }
  }

  lemma SliceAtStart(s: string)
    ensures SliceFrom(s, 0) == Some(s)
  {
  }

  /** Where the program cuts is where the kept lines start exactly when no dropped line ends
      in CR LF. */
  lemma TruncateCutsAtLineExactlyWhen(content: string, n: nat, w: bool)
    requires 1 <= n < Commands(Lines(content), w)
    ensures var raws, s := RawLines(content), TruncateStart(Lines(content), n, w);
            Truncate(content, n, w) == Some(TailText(content, s)) <==> forall i :: 0 <= i < s ==> !EndsInCrLf(raws[i])
  {
    hide RawLines, TextsOf, Commands, TruncateStart, OffsetOf, RawOffset, TailText, ByteLen, SliceFrom, CrLfs;
    var s := TruncateStart(Lines(content), n, w);
    OffsetFallsShort(content, s);
    NoCrLfs(RawLines(content), s);
    SliceAtTail(content, s, OffsetOf(Lines(content), s));
  }

  /** The cut comes one byte too early for each dropped line that ends in CR LF, and the program panics
      exactly when that byte is inside a character. */
  lemma TruncatePanicsExactlyWhen(content: string, n: nat, w: bool)
    requires 1 <= n < Commands(Lines(content), w)
    ensures var s, r := TruncateStart(Lines(content), n, w), Truncate(content, n, w);
            var cut := ByteLen(content) - ByteLen(TailText(content, s)) - CrLfs(RawLines(content), s);
            && (r.None? <==> !Boundary(EncodeAll(content), cut))
            && (r.Some? ==> |r.value| <= |content| && r.value == content[|content| - |r.value|..]
                            && ByteLen(r.value) == ByteLen(TailText(content, s)) + CrLfs(RawLines(content), s))
  {
    hide RawLines, TextsOf, Commands, TruncateStart, OffsetOf, RawOffset, TailText, ByteLen, SliceFrom, CrLfs, Boundary;
    var s := TruncateStart(Lines(content), n, w);
    OffsetFallsShort(content, s);
    var cut := OffsetOf(Lines(content), s);
    SliceFromExactlyAtBoundaries(content, cut);
    if SliceFrom(content, cut).Some? {
      SliceFromIsSuffix(content, cut);
    }
  }

  predicate NoCrLf(content: string) { forall i :: 0 <= i < |RawLines(content)| ==> !EndsInCrLf(RawLines(content)[i]) }

  lemma TwoLines(a: string, b: string)
    requires '\n' !in a && '\n' !in b
    ensures Lines(a + ['\n'] + (b + ['\n'] + "")) == [StripCr(a), StripCr(b)]
  {
    LinesOfLine(a, b + ['\n'] + "");
    LinesOfLine(b, "");
    assert Lines("") == [];
    hide Lines, StripCr;
  }

  lemma LastOfTwo(a: string, b: string)
    ensures Commands([a, b], false) == 2 && TruncateStart([a, b], 1, false) == 1
    ensures OffsetOf([a, b], 1) == ByteLen(a) + 1
  {
    hide ByteLen;
    assert [a, b][1..] == [b] && [b][1..] == [];
    assert Commands([b], false) == 1;
    FirstKeptIsUnique([a, b], 1, false, 1);
  }

  /** A CR LF among the dropped lines leaves part of its line in the file. */
  lemma CrLfKeepsTooMuch()
    ensures Lines("a\r\nb\n") == ["a", "b"] && Truncate("a\r\nb\n", 1, false) == Some("\nb\n")
  {
    hide Lines, Commands, TruncateStart, OffsetOf, SliceFrom, ByteLen;
    TwoLines("a\r", "b");
    assert StripCr("a\r") == "a" && StripCr("b") == "b";
    assert "a\r" + ['\n'] + ("b" + ['\n'] + "") == "a\r\nb\n" == "a\r" + "\nb\n";
    LastOfTwo("a", "b");
    AsciiByteLen('a');
    AsciiByteLen('\r');
    ByteLenConcat("a", "\r");
    assert "a" + "\r" == "a\r";
    SliceFromConcat("a\r", "\nb\n", 0);
    SliceAtStart("\nb\n");
  }

  lemma FourLines(a: string, b: string, c: string, d: string)
    requires '\n' !in a && '\n' !in b && '\n' !in c && '\n' !in d
    ensures Lines(a + ['\n'] + (b + ['\n'] + (c + ['\n'] + (d + ['\n'] + ""))))
         == [StripCr(a), StripCr(b), StripCr(c), StripCr(d)]
  {
    hide Lines, RawLines, StripCr;
    LinesOfLine(a, b + ['\n'] + (c + ['\n'] + (d + ['\n'] + "")));
    ThreeLines(b, c, d);
  }

  lemma LastOfFour(a: string, b: string, c: string, d: string)
    ensures Commands([a, b, c, d], false) == 4 && TruncateStart([a, b, c, d], 1, false) == 3
    ensures OffsetOf([a, b, c, d], 3) == ByteLen(a) + 1 + ByteLen(b) + 1 + ByteLen(c) + 1
  {
    hide ByteLen;
    var lines := [a, b, c, d];
    assert lines[1..] == [b, c, d] && [b, c, d][1..] == [c, d] && [c, d][1..] == [d] && [d][1..] == [];
    assert Commands([d], false) == 1 && Commands([c, d], false) == 2 && Commands([b, c, d], false) == 3;
    assert lines[3..] == [d];
    FirstKeptIsUnique(lines, 1, false, 3);
    assert OffsetOf(lines, 1) == ByteLen(a) + 1 && OffsetOf(lines, 2) == ByteLen(a) + 1 + ByteLen(b) + 1;
  }

  lemma TwoByteCharacter(c: char, rest: string)
    requires |Encode(c)| == 2
    ensures ByteLen([c]) == 2 && SliceFrom([c] + rest, 1) == None
  {
    hide Encode;
    assert ([c] + rest)[0] == c && [c][1..] == "" && [c][0] == c;
  }

  /** Three dropped lines that end in CR LF: the cut falls on the second byte of a character. */
  lemma CrLfPanics()
    ensures Truncate("a\r\na\r\n\U{E9}\r\nb\n", 1, false) == None
  {
    hide Lines, Commands, TruncateStart, OffsetOf, SliceFrom, ByteLen;
    var e: string := ['\U{E9}'];
    FourLines("a\r", "a\r", e + "\r", "b");
    assert StripCr("a\r") == "a" && StripCr("b") == "b" && StripCr(e + "\r") == e;
    var content := "a\r\na\r\n\U{E9}\r\nb\n";
    assert "a\r" + ['\n'] + ("a\r" + ['\n'] + (e + "\r" + ['\n'] + ("b" + ['\n'] + ""))) == content;
    assert Lines(content) == ["a", "a", e, "b"];
    LastOfFour("a", "a", e, "b");
    TwoByteCharacter('\U{E9}', "\r\nb\n");
    AsciiByteLen('a');
    SixAsciiBytes('a', '\r', '\n', 'a', '\r', '\n');
    var head := "a\r\na\r\n";
    assert head + ([e[0]] + "\r\nb\n") == content;
    SliceFromConcat(head, [e[0]] + "\r\nb\n", 1);
  }

  lemma SixAsciiBytes(a: char, b: char, c: char, d: char, e: char, f: char)
    requires forall x :: x in [a, b, c, d, e, f] ==> x as int < 0x80
    ensures ByteLen([a, b, c, d, e, f]) == 6
  {
    hide ByteLen;
    assert a in [a, b, c, d, e, f] && b in [a, b, c, d, e, f] && c in [a, b, c, d, e, f];
    assert d in [a, b, c, d, e, f] && e in [a, b, c, d, e, f] && f in [a, b, c, d, e, f];
    assert [a] + ([b] + ([c] + ([d] + ([e] + [f])))) == [a, b, c, d, e, f];
    ByteLenConcat([a], [b] + ([c] + ([d] + ([e] + [f]))));
    ByteLenConcat([b], [c] + ([d] + ([e] + [f])));
    ByteLenConcat([c], [d] + ([e] + [f]));
    ByteLenConcat([d], [e] + [f]);
    ByteLenConcat([e], [f]);
    AsciiByteLen(a);
    AsciiByteLen(b);
    AsciiByteLen(c);
    AsciiByteLen(d);
    AsciiByteLen(e);
    AsciiByteLen(f);
  }

  // ------------------------------------------------------------------ composition

  lemma {:induction false} CommandsFrom(lines: seq<string>, i: nat, j: nat, w: bool)
    requires i <= j <= |lines|
    ensures Commands(lines[j..], w) <= Commands(lines[i..], w)
    ensures i < j && !(w && LooksLikeStamp(lines[i])) ==> Commands(lines[j..], w) < Commands(lines[i..], w)
    decreases j - i
  {
    if i < j {
      assert lines[i..][1..] == lines[i + 1..];
      CommandsFrom(lines, i + 1, j, w);
    }
  }

  lemma FirstKeptIsUnique(lines: seq<string>, n: nat, w: bool, f: nat)
    requires 1 <= n <= Commands(lines, w)
    requires f < |lines| && !(w && LooksLikeStamp(lines[f])) && Commands(lines[f..], w) == n
    ensures FirstKept(lines, n, w) == f
  {
    var g := FirstKept(lines, n, w);
    hide FirstKept;
    if g < f {
      CommandsFrom(lines, g, f, w);
    } else if f < g {
      CommandsFrom(lines, f, g, w);
    }
  }

  lemma TruncateStartKeeps(lines: seq<string>, n: nat, w: bool)
    requires 1 <= n <= Commands(lines, w)
    ensures Commands(lines[TruncateStart(lines, n, w)..], w) == n
  {
    var s, f := TruncateStart(lines, n, w), FirstKept(lines, n, w);
    if s < f {
      assert lines[s..][1..] == lines[f..];
    }
  }

  /** Truncation keeps a tail of the text with exactly the wanted number of commands. */
  lemma TruncateKeeps(content: string, n: nat, w: bool)
    requires n >= 1 && NoCrLf(content)
    ensures Truncate(content, n, w).Some?
    ensures var t := Truncate(content, n, w).value;
            && |t| <= |content| && t == content[|content| - |t|..] && NoCrLf(t)
            && (if Commands(Lines(content), w) <= n then t == content
                else Lines(t) == Lines(content)[TruncateStart(Lines(content), n, w)..] && Commands(Lines(t), w) == n)
  {
    hide RawLines, TextsOf, Commands, TruncateStart, OffsetOf, SliceFrom, RawOffset, TailText;
    if Commands(Lines(content), w) > n {
      var raws, s := RawLines(content), TruncateStart(Lines(content), n, w);
      TruncateCutsAtLineExactlyWhen(content, n, w);
      TruncateStartKeeps(Lines(content), n, w);
      TextsOfTail(raws, s);
      LinesOfTail(content, s);
      TailIsSuffix(content, s);
      assert forall i :: 0 <= i < |raws[s..]| ==> raws[s..][i] == raws[s + i];
    } else {
      assert content[0..] == content;
    }
  }

  lemma TailIsSuffix(content: string, k: nat)
    requires k <= |RawLines(content)|
    ensures var t := TailText(content, k); |t| <= |content| && t == content[|content| - |t|..]
  {
    RawOffsetBound(content, k);
  }

  lemma FirstKeptInTail(lines: seq<string>, s: nat, n: nat, w: bool)
    requires s <= |lines| && 1 <= n <= Commands(lines[s..], w)
    ensures n <= Commands(lines, w) && FirstKept(lines, n, w) == s + FirstKept(lines[s..], n, w)
  {
    hide Commands, LooksLikeStamp;
    assert lines[0..] == lines;
    CommandsFrom(lines, 0, s, w);
    var f := FirstKept(lines[s..], n, w);
    DropDrop(lines, s, f);
    FirstKeptIsUnique(lines, n, w, s + f);
  }

  /** A cut for fewer commands comes later. */
  lemma FirstKeptIsLater(lines: seq<string>, n: nat, w: bool)
    requires 1 <= n < Commands(lines, w)
    ensures FirstKept(lines, n, w) > 0
  {
    hide LooksLikeStamp;
    var f := FirstKept(lines, n, w);
    hide FirstKept, Commands;
    assert lines[0..] == lines;
  }

  lemma StartFromFirst(lines: seq<string>, tail: seq<string>, s: nat, n: nat, w: bool)
    requires s <= |lines| && tail == lines[s..] && 1 <= n <= Commands(tail, w) && n <= Commands(lines, w)
    requires FirstKept(lines, n, w) == s + FirstKept(tail, n, w) && FirstKept(tail, n, w) > 0
    ensures TruncateStart(lines, n, w) == s + TruncateStart(tail, n, w)
  {
    hide FirstKept, Commands, LooksLikeStamp;
    assert tail[FirstKept(tail, n, w) - 1] == lines[s + FirstKept(tail, n, w) - 1];
  }

  lemma TruncateStartInTail(lines: seq<string>, m: nat, n: nat, w: bool)
    requires 1 <= n < m <= Commands(lines, w)
    ensures var s := TruncateStart(lines, m, w);
            && Commands(lines[s..], w) == m
            && TruncateStart(lines, n, w) == s + TruncateStart(lines[s..], n, w)
  {
    hide *;
    var s := TruncateStart(lines, m, w);
    TruncateStartKeeps(lines, m, w);
    FirstKeptInTail(lines, s, n, w);
    FirstKeptIsLater(lines[s..], n, w);
    StartFromFirst(lines, lines[s..], s, n, w);
  }

  lemma CutTwice(content: string, s: nat, t: nat)
    requires s <= |RawLines(content)| && t <= |RawLines(content)| - s
    ensures t <= |RawLines(TailText(content, s))|
    ensures TailText(TailText(content, s), t) == TailText(content, s + t)
  {
    hide RawLines, RawOffset;
    var raws := RawLines(content);
    LinesOfTail(content, s);
    RawOffsetFrom(raws, s, t);
    RawOffsetBound(content, s + t);
    DropDrop(content, RawOffset(raws, s), RawOffset(raws[s..], t));
  }

  lemma {:induction false} RawOffsetFrom(raws: seq<string>, s: nat, t: nat)
    requires s + t <= |raws|
    ensures RawOffset(raws, s + t) == RawOffset(raws, s) + RawOffset(raws[s..], t)
    decreases t
  {
    if t > 0 {
      RawOffsetFrom(raws, s, t - 1);
      assert raws[s..][t - 1] == raws[s + t - 1];
    }
  }

  lemma TruncateToNothing(content: string, w: bool)
    ensures Truncate(content, 0, w) == Some("")
  {
    hide Lines, Commands, TruncateStart, OffsetOf, SliceFrom;
  }

  lemma TruncateNothing(n: nat, w: bool)
    ensures Truncate("", n, w) == Some("")
  {
    hide TruncateStart, OffsetOf, SliceFrom;
    assert Lines("") == [] && Commands([], w) == 0;
  }

  lemma TruncateShort(content: string, n: nat, w: bool)
    requires 1 <= n && Commands(Lines(content), w) <= n
    ensures Truncate(content, n, w) == Some(content)
  {
    hide Lines, Commands, TruncateStart, OffsetOf, SliceFrom;
  }

  /** Truncating to m and then to n is truncating to the smaller of the two. */
  lemma TruncationsCompose(content: string, m: nat, n: nat, w: bool)
    requires NoCrLf(content)
    ensures Truncate(content, m, w).Some?
    ensures Truncate(Truncate(content, m, w).value, n, w) == Truncate(content, if m < n then m else n, w)
  {
    hide Truncate, Lines, Commands, NoCrLf, TruncateStart;
    if m == 0 {
      TruncateToNothing(content, w);
      TruncateNothing(n, w);
    } else {
      TruncateKeeps(content, m, w);
      if n == 0 {
        TruncateToNothing(content, w);
        TruncateToNothing(Truncate(content, m, w).value, w);
      } else if Commands(Lines(content), w) <= m {
        TruncateShort(content, m, w);
        if m < n {
          TruncateShort(content, n, w);
        }
      } else if n < m {
        TruncateTwice(content, m, n, w);
      } else {
        TruncateShort(Truncate(content, m, w).value, n, w);
      }
    }
  }

  lemma TruncateTwice(content: string, m: nat, n: nat, w: bool)
    requires NoCrLf(content) && 1 <= n < m < Commands(Lines(content), w)
    ensures Truncate(content, m, w).Some?
    ensures Truncate(Truncate(content, m, w).value, n, w) == Truncate(content, n, w)
  {
    hide Truncate, TailText, RawLines, TruncateStart, Commands, TextsOf;
    var lines := Lines(content);
    TruncateKeeps(content, m, w);
    var s, t := TruncateStart(lines, m, w), Truncate(content, m, w).value;
    TruncateCutsAtLineExactlyWhen(content, m, w);
    TruncateCutsAtLineExactlyWhen(content, n, w);
    TruncateCutsAtLineExactlyWhen(t, n, w);
    TruncateStartInTail(lines, m, n, w);
    LinesOfTail(content, s);
    CutTwice(content, s, TruncateStart(Lines(t), n, w));
  }

  // --------------------------------------------------------- truncating, then loading

  predicate SingleLine(entry: string) { '\n' !in entry && PlainLine(entry) }

  predicate AllSingleLine(entries: seq<string>) { forall i :: 0 <= i < |entries| ==> SingleLine(entries[i]) }

  /** The lines of stamped single-line entries. */
  function StampedLines(entries: seq<string>, stamps: seq<string>): (r: seq<string>)
    requires |entries| == |stamps|
    ensures |r| == 2 * |entries|
    ensures entries != [] ==> r[0] == stamps[0]
  {
    if entries == [] then [] else [stamps[0], entries[0]] + StampedLines(entries[1..], stamps[1..])
  }

  lemma {:induction false} SplitSingle(entry: string)
    requires '\n' !in entry
    ensures Split(entry, '\n') == [entry]
  {
    if entry != "" {
      SplitSingle(entry[1..]);
      assert [entry[0]] + entry[1..] == entry;
    }
  }

  lemma {:induction false} LinesOfWritten(entries: seq<string>, stamps: seq<string>)
    requires |entries| == |stamps| && AllStamps(stamps) && AllSingleLine(entries)
    ensures Lines(WrittenText(entries, stamps, true)) == StampedLines(entries, stamps)
    ensures Commands(StampedLines(entries, stamps), true) == |entries|
    decreases |entries|
  {
    if entries != [] {
      LinesOfWritten(entries[1..], stamps[1..]);
      var rest := StampedLines(entries[1..], stamps[1..]);
      LinesOfEntry(entries[0], stamps[0], WrittenText(entries[1..], stamps[1..], true));
      SplitSingle(entries[0]);
      assert StripEach([entries[0]]) == [entries[0]] by {
        assert SingleLine(entries[0]) && [entries[0]][1..] == [];
      }
      assert [stamps[0]] + [entries[0]] == [stamps[0], entries[0]];
      var lines := StampedLines(entries, stamps);
      assert lines[1..][1..] == rest && lines[1..][0] == entries[0];
      assert SingleLine(entries[0]) && IsStamp(stamps[0]);
    }
  }

  /** A stamp and a command more at the front do not change where the kept lines start. */
  lemma StartPastTwo(lines: seq<string>, rest: seq<string>, n: nat)
    requires |lines| >= 2 && rest == lines[2..] && LooksLikeStamp(lines[0]) && !LooksLikeStamp(lines[1])
    requires 1 <= n <= Commands(rest, true) && LooksLikeStamp(rest[0])
    ensures Commands(lines, true) == 1 + Commands(rest, true)
    ensures TruncateStart(lines, n, true) == 2 + TruncateStart(rest, n, true)
  {
    assert lines[1..][1..] == rest && lines[1..][0] == lines[1];
    var f := FirstKept(rest, n, true);
    assert rest[f..] == lines[2 + f..] && rest[f] == lines[2 + f];
    FirstKeptIsUnique(lines, n, true, 2 + f);
    hide FirstKept, Commands;
    assert f > 0 && lines[2 + f - 1] == rest[f - 1];
  }

  /** Lines that start with a stamp and a command, none to be dropped. */
  lemma StartAtFront(lines: seq<string>)
    requires |lines| >= 2 && LooksLikeStamp(lines[0]) && !LooksLikeStamp(lines[1])
    ensures Commands(lines, true) >= 1 && TruncateStart(lines, Commands(lines, true), true) == 0
  {
    assert lines[1..][0] == lines[1];
    FirstKeptIsUnique(lines, Commands(lines, true), true, 1);
  }

  lemma StampedShape(entries: seq<string>, stamps: seq<string>)
    requires |entries| == |stamps| && AllStamps(stamps) && AllSingleLine(entries) && entries != []
    ensures var lines := StampedLines(entries, stamps);
            && |lines| >= 2 && lines[0] == stamps[0] && lines[1] == entries[0]
            && LooksLikeStamp(lines[0]) && !LooksLikeStamp(lines[1])
            && lines[2..] == StampedLines(entries[1..], stamps[1..])
  {
    assert SingleLine(entries[0]) && IsStamp(stamps[0]);
  }

  lemma {:induction false} TruncateWritten(entries: seq<string>, stamps: seq<string>, n: nat)
    requires |entries| == |stamps| && AllStamps(stamps) && AllSingleLine(entries)
    ensures var k := Excess(|entries|, Some(n));
            Truncate(WrittenText(entries, stamps, true), n, true) == Some(WrittenText(entries[k..], stamps[k..], true))
    decreases |entries|
  {
    var text := WrittenText(entries, stamps, true);
    LinesOfWritten(entries, stamps);
    if |entries| <= n || n == 0 {
      assert entries[0..] == entries && stamps[0..] == stamps;
    } else {
      var k := |entries| - n;
      TruncateWritten(entries[1..], stamps[1..], n);
      TruncatePastEntry(entries, stamps, n);
      assert entries[1..][k - 1..] == entries[k..] && stamps[1..][k - 1..] == stamps[k..];
    }
  }

  lemma EntryBytes(entry: string, stamp: string)
    requires IsStamp(stamp)
    ensures ByteLen(EntryText(entry, stamp, true)) == ByteLen(stamp) + 1 + ByteLen(entry) + 1
  {
    hide ByteLen;
    ByteLenConcat(stamp + ['\n'], entry + ['\n']);
    ByteLenConcat(stamp, ['\n']);
    ByteLenConcat(entry, ['\n']);
    AsciiByteLen('\n');
  }

  lemma TruncatePastEntry(entries: seq<string>, stamps: seq<string>, n: nat)
    requires |entries| == |stamps| && AllStamps(stamps) && AllSingleLine(entries)
    requires 1 <= n < |entries|
    ensures Truncate(WrittenText(entries, stamps, true), n, true)
         == Truncate(WrittenText(entries[1..], stamps[1..], true), n, true)
  {
    var text, restText := WrittenText(entries, stamps, true), WrittenText(entries[1..], stamps[1..], true);
    var head := EntryText(entries[0], stamps[0], true);
    assert text == head + restText;
    EntryBytes(entries[0], stamps[0]);
    LinesOfWritten(entries, stamps);
    LinesOfWritten(entries[1..], stamps[1..]);
    StampedShape(entries, stamps);
    StampedShape(entries[1..], stamps[1..]);
    hide TruncateStart, Commands, StampedLines, Lines, WrittenText, EntryText, OffsetOf, AllStamps, AllSingleLine;
    hide ByteLen;
    DropHead(text, restText, head, n);
  }

  /** Truncation drops a leading stamped line when the rest holds enough commands. */
  lemma DropHead(text: string, restText: string, head: string, n: nat)
    requires text == head + restText
    requires |Lines(text)| >= 2 && Lines(restText) == Lines(text)[2..] && |Lines(restText)| >= 2
    requires LooksLikeStamp(Lines(text)[0]) && !LooksLikeStamp(Lines(text)[1])
    requires LooksLikeStamp(Lines(restText)[0]) && !LooksLikeStamp(Lines(restText)[1])
    requires ByteLen(head) == ByteLen(Lines(text)[0]) + 1 + ByteLen(Lines(text)[1]) + 1
    requires 1 <= n <= Commands(Lines(restText), true)
    ensures Truncate(text, n, true) == Truncate(restText, n, true)
  {
    hide TruncateStart, Commands, Lines, OffsetOf, ByteLen, SliceFrom;
    var lines, rest := Lines(text), Lines(restText);
    StartPastTwo(lines, rest, n);
    StartAtFront(rest);
    var s := TruncateStart(rest, n, true);
    OffsetPastTwo(lines, rest, s);
    SliceFromConcat(head, restText, OffsetOf(rest, s));
    if n == Commands(rest, true) {
      SliceAtStart(restText);
      NoOffset(rest);
    }
  }

  lemma NoOffset(lines: seq<string>)
    ensures OffsetOf(lines, 0) == 0
  {
  }

  lemma OffsetPastTwo(lines: seq<string>, rest: seq<string>, k: nat)
    requires |lines| >= 2 && rest == lines[2..] && k <= |rest|
    ensures OffsetOf(lines, 2 + k) == ByteLen(lines[0]) + 1 + ByteLen(lines[1]) + 1 + OffsetOf(rest, k)
  {
    hide ByteLen;
    OffsetShift(lines, 2 + k);
    OffsetShift(lines[1..], 1 + k);
    assert lines[1..][1..] == rest;
  }

  /** For stamped single-line entries, truncating the file to n and loading it is loading it
      and keeping the last n. */
  lemma TruncateThenLoad(h: Hist, n: nat, armed: bool, now: nat -> string)
    requires Aligned(h) && AllStamps(h.stamps) && AllSingleLine(h.entries) && AllStorable(h.entries)
    ensures var text := WrittenText(h.entries, h.stamps, true);
            var kept := Stifle(Load(EMPTY, text, None, armed, now).h, Some(n));
            && Truncate(text, n, true).Some?
            && var loaded := Load(EMPTY, Truncate(text, n, true).value, None, armed, now).h;
            loaded.entries == kept.entries && loaded.stamps == kept.stamps
  {
    var k := Excess(|h.entries|, Some(n));
    TruncateWritten(h.entries, h.stamps, n);
    RoundTripExactlyWhen(h, armed, now);
    RoundTripExactlyWhen(Hist(h.entries[k..], h.stamps[k..], 1, 0), armed, now);
  }
}
