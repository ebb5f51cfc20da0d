/**
 The text of a history file (src/history.rs): its lines as `str::lines` cuts them, the
 stamp lines among them, and the text written for a list of entries.
 */
module HistoryText {
  import opened Chars
  import opened Sequences

  /** A `#<digit>` line. */
  predicate LooksLikeStamp(line: string) { |line| >= 2 && line[0] == '#' && IsDigit(line[1]) }

  // ---------------------------------------------------------------- lines of a text

  /** Length of the first line of a non-empty text with its terminator. */
  function FirstLineLength(content: string): (k: nat)
    requires content != ""
    ensures 1 <= k <= |content|
    ensures forall i :: 0 <= i < k - 1 ==> content[i] != '\n'
    ensures k == |content| || content[k - 1] == '\n'
  {
    if content[0] == '\n' || |content| == 1 then 1 else 1 + FirstLineLength(content[1..])
  }

  /** The text cut after each newline. */
  function RawLines(content: string): seq<string> {
    if content == "" then [] else
    var k := FirstLineLength(content);
    [content[..k]] + RawLines(content[k..])
  }

  function StripCr(line: string): (r: string)
    ensures |r| <= |line|
  {
    if line != "" && line[|line| - 1] == '\r' then line[..|line| - 1] else line
  }

  /** A line without its terminator `\n` or `\r\n`; a last line may have none. */
  function LineText(raw: string): (r: string)
    ensures |r| <= |raw|
  {
    if raw != "" && raw[|raw| - 1] == '\n' then StripCr(raw[..|raw| - 1]) else raw
  }

  function TextsOf(raws: seq<string>): (r: seq<string>)
    ensures |r| == |raws| && forall i :: 0 <= i < |r| ==> r[i] == LineText(raws[i])
  {
    if raws == [] then [] else [LineText(raws[0])] + TextsOf(raws[1..])
  }

  /** `content.lines()`. */
  function Lines(content: string): seq<string> { TextsOf(RawLines(content)) }

  lemma {:induction false} FirstLineOf(line: string, rest: string)
    requires '\n' !in line
    ensures FirstLineLength(line + ['\n'] + rest) == |line| + 1
  {
    var text := line + ['\n'] + rest;
    var k := FirstLineLength(text);
    assert text[|line|] == '\n';
    assert forall i :: 0 <= i < |line| ==> text[i] == line[i];
  }

  /** A terminated line at the front of a text is its first line. */
  lemma LinesOfLine(line: string, rest: string)
    requires '\n' !in line
    ensures RawLines(line + ['\n'] + rest) == [line + ['\n']] + RawLines(rest)
    ensures Lines(line + ['\n'] + rest) == [StripCr(line)] + Lines(rest)
  {
    var text := line + ['\n'] + rest;
    FirstLineOf(line, rest);
    assert text[..|line| + 1] == line + ['\n'] && text[|line| + 1..] == rest;
    assert (line + ['\n'])[..|line|] == line;
    var raws := RawLines(text);
    assert raws[0] == line + ['\n'] && raws[1..] == RawLines(rest);
  }

  // ------------------------------------------------------------- lines of an entry

  /** `str::split` at one character. */
  function Split(text: string, sep: char): (r: seq<string>)
    ensures r != [] && sep !in r[0]
  {
    if text == "" then [""]
    else
      var rest := Split(text[1..], sep);
      if text[0] == sep then [""] + rest else [[text[0]] + rest[0]] + rest[1..]
  }

  lemma {:induction false} SplitHasNoSeparators(text: string, sep: char)
    ensures forall i :: 0 <= i < |Split(text, sep)| ==> sep !in Split(text, sep)[i]
  {
    if text != "" {
      SplitHasNoSeparators(text[1..], sep);
    }
  }

  /** Each part followed by the separator. */
  function Terminated(parts: seq<string>, sep: char): string {
    if parts == [] then "" else parts[0] + [sep] + Terminated(parts[1..], sep)
  }

  /** The parts of a text make it up again. */
  lemma {:induction false} TerminatedSplit(text: string, sep: char)
    ensures Terminated(Split(text, sep), sep) == text + [sep]
  {
    if text == "" {
      assert Split(text, sep)[1..] == [];
    } else {
      TerminatedSplit(text[1..], sep);
      var rest := Split(text[1..], sep);
      assert text == [text[0]] + text[1..];
      if text[0] == sep {
        assert Split(text, sep)[1..] == rest;
      } else {
        assert Split(text, sep)[1..] == rest[1..];
        assert Terminated(Split(text, sep), sep) == [text[0]] + Terminated(rest, sep);
      }
    }
  }

  /** A line, then the lines appended to it as the loader does. */
  function Joined(first: string, more: seq<string>): string
    decreases |more|
  {
    if more == [] then first else Joined(first + ['\n'] + more[0], more[1..])
  }

  lemma {:induction false} JoinedTerminated(first: string, more: seq<string>)
    ensures Joined(first, more) + ['\n'] == first + ['\n'] + Terminated(more, '\n')
    decreases |more|
  {
    if more != [] {
      JoinedTerminated(first + ['\n'] + more[0], more[1..]);
    }
  }

  lemma JoinedSplit(entry: string)
    ensures Joined(Split(entry, '\n')[0], Split(entry, '\n')[1..]) == entry
  {
    var lines := Split(entry, '\n');
    TerminatedSplit(entry, '\n');
    JoinedTerminated(lines[0], lines[1..]);
    var j := Joined(lines[0], lines[1..]);
    assert j + ['\n'] == entry + ['\n'];
    assert j == (j + ['\n'])[..|j|];
  }

  function StripEach(lines: seq<string>): (r: seq<string>)
    ensures |r| == |lines| && forall i :: 0 <= i < |r| ==> r[i] == StripCr(lines[i])
  {
    if lines == [] then [] else [StripCr(lines[0])] + StripEach(lines[1..])
  }

  lemma {:induction false} LinesOfTerminated(lines: seq<string>, rest: string)
    requires forall i :: 0 <= i < |lines| ==> '\n' !in lines[i]
    ensures Lines(Terminated(lines, '\n') + rest) == StripEach(lines) + Lines(rest)
    decreases |lines|
  {
    hide Lines, StripCr;
    if lines == [] {
      assert Terminated(lines, '\n') + rest == rest;
      assert StripEach(lines) + Lines(rest) == Lines(rest);
    } else {
      var tail := Terminated(lines[1..], '\n');
      LinesOfTerminated(lines[1..], rest);
      LinesOfLine(lines[0], tail + rest);
      Assoc(lines[0] + ['\n'], tail, rest);
      Assoc([StripCr(lines[0])], StripEach(lines[1..]), Lines(rest));
    }
  }

  // ----------------------------------------------------------------- writing entries

  /** The text of one entry, after its stamp line when it carries one. */
  function EntryText(entry: string, stamp: string, withStamps: bool): string {
    (if withStamps && stamp != "" then stamp + ['\n'] else "") + (entry + ['\n'])
  }

  /** The text written for entries with their stamps. */
  function WrittenText(entries: seq<string>, stamps: seq<string>, withStamps: bool): string
    requires |entries| == |stamps|
  {
    if entries == [] then ""
    else EntryText(entries[0], stamps[0], withStamps) + WrittenText(entries[1..], stamps[1..], withStamps)
  }

  lemma {:induction false} WrittenTextConcat(e1: seq<string>, s1: seq<string>, e2: seq<string>, s2: seq<string>,
      w: bool)
    requires |e1| == |s1| && |e2| == |s2|
    ensures WrittenText(e1 + e2, s1 + s2, w) == WrittenText(e1, s1, w) + WrittenText(e2, s2, w)
    decreases |e1|
  {
    if e1 == [] {
      assert e1 + e2 == e2 && s1 + s2 == s2;
    } else {
      WrittenTextConcat(e1[1..], s1[1..], e2, s2, w);
      assert (e1 + e2)[1..] == e1[1..] + e2 && (s1 + s2)[1..] == s1[1..] + s2;
    }
  }

  lemma WrittenTextSnoc(entries: seq<string>, stamps: seq<string>, entry: string, stamp: string, w: bool)
    requires |entries| == |stamps|
    ensures WrittenText(entries + [entry], stamps + [stamp], w)
         == WrittenText(entries, stamps, w) + EntryText(entry, stamp, w)
  {
    WrittenTextConcat(entries, stamps, [entry], [stamp], w);
    assert WrittenText([entry], [stamp], w) == EntryText(entry, stamp, w) + "";
  }

  /** A stamp as entries carry it: `#<digit>...` on one line. */
  predicate IsStamp(stamp: string) {
    LooksLikeStamp(stamp) && '\n' !in stamp && stamp[|stamp| - 1] != '\r'
  }

  /** The lines of one written, stamped entry. */
  lemma LinesOfEntry(entry: string, stamp: string, rest: string)
    requires IsStamp(stamp)
    ensures Lines(EntryText(entry, stamp, true) + rest) == [stamp] + StripEach(Split(entry, '\n')) + Lines(rest)
  {
    TerminatedSplit(entry, '\n');
    SplitHasNoSeparators(entry, '\n');
    LinesOfTerminated(Split(entry, '\n'), rest);
    assert StripCr(stamp) == stamp;
    LinesOfLine(stamp, entry + ['\n'] + rest);
    hide Lines, StripEach, Split, Terminated, StripCr;
    Assoc(stamp + ['\n'], entry + ['\n'], rest);
    Assoc([stamp], StripEach(Split(entry, '\n')), Lines(rest));
  }
}
