/**
 The session history list itself (src/history.rs): vectors and counters updated in place by
 loops, each method proved against the value-level operation of HistorySpec. File contents
 are passed in and out as texts.
 */
module SessionHistory {
  import opened Wrappers
  import opened HistoryText
  import opened TextSlices
  import Spec = HistorySpec
  import opened HistoryControl
  import HistoryTruncate
  import opened Sequences

  class SessionHistory {
    var entries: seq<string>
    var timestamps: seq<string>
    var base: nat
    var linesThisSession: nat

    ghost function View(): Spec.Hist
      reads this
    {
      Spec.Hist(entries, timestamps, base, linesThisSession)
    }

    ghost predicate Valid()
      reads this
    {
      Spec.Aligned(View())
    }

    constructor ()
      ensures Valid() && View() == Spec.EMPTY
    {
      entries, timestamps := [], [];
      base, linesThisSession := 1, 0;
    }

    /** Drop the oldest entries beyond HISTSIZE, one at a time. */
    method Stifle(histsize: Option<nat>)
      requires Valid()
      modifies this
      ensures Valid() && View() == Spec.Stifle(old(View()), histsize)
    {
      ghost var was := View();
      if histsize.None? {
        assert was.entries[0..] == was.entries && was.stamps[0..] == was.stamps;
        return;
      }
      ghost var k: nat := 0;
      assert was.entries[0..] == was.entries && was.stamps[0..] == was.stamps;
      while |entries| > histsize.value
        invariant Valid() && k <= Spec.Excess(|was.entries|, histsize)
        invariant entries == was.entries[k..] && timestamps == was.stamps[k..]
        invariant base == was.base + k && linesThisSession == was.session
        decreases |entries|
      {
        entries := entries[1..];
        if timestamps != [] {
          timestamps := timestamps[1..];
        }
        base := base + 1;
        k := k + 1;
      }
    }

    /** `add_history` with its stamp, then stifling. */
    method AddEntry(line: string, stamp: string, histsize: Option<nat>)
      requires Valid()
      modifies this
      ensures Valid() && View() == Spec.Stifle(Spec.Push(old(View()), line, stamp), histsize)
    {
      entries := entries + [line];
      timestamps := timestamps + [stamp];
      Stifle(histsize);
    }

    /** A continuation line goes to the last entry. */
    method AppendToLast(line: string)
      requires Valid() && entries != []
      modifies this`entries
      ensures Valid() && View() == Spec.AppendToLast(old(View()), line)
    {
      var last := |entries| - 1;
      entries := entries[last := entries[last] + ['\n'] + line];
    }

    /** The erasedups loop: keep the entries that differ from `line`. */
    method Erase(line: string)
      requires Valid()
      modifies this`entries, this`timestamps
      ensures Valid() && (entries, timestamps) == Spec.Without(old(entries), old(timestamps), line)
    {
      hide Spec.Without;
      WithoutNone(line);
      var kept, keptStamps: seq<string> := [], [];
      var i := 0;
      while i < |entries|
        invariant i <= |entries| && Valid()
        invariant entries == old(entries) && timestamps == old(timestamps)
        invariant (kept, keptStamps) == Spec.Without(entries[..i], timestamps[..i], line)
      {
        WithoutNext(entries, timestamps, i, line);
        if entries[i] != line {
          kept := kept + [entries[i]];
          keptStamps := keptStamps + [timestamps[i]];
        }
        i := i + 1;
      }
      assert entries[..|entries|] == entries && timestamps[..|entries|] == timestamps;
      entries, timestamps := kept, keptStamps;
    }

    /** `record`, with the stamp of the clock given. */
    method Record(line: string, histcontrol: string, histignore: string, histsize: Option<nat>, isWhite: char -> bool,
                  stamp: string) returns (recorded: bool)
      requires Valid()
      modifies this
      ensures Valid()
      ensures var c := CallFor(line, histcontrol, histignore, histsize, isWhite, stamp, LastOf(old(entries)));
              View() == Spec.Record(old(View()), c) && recorded == Spec.Accepted(old(View()), c)
    {
      hide Split, Trim, ControlsOf, Ignored;
      ghost var c := CallFor(line, histcontrol, histignore, histsize, isWhite, stamp, LastOf(entries));
      if Trim(line, isWhite) == "" {
        return false;
      }
      var ignored := HistoryShouldIgnore(line, histignore, isWhite, LastOf(entries));
      if ignored {
        return false;
      }
      var control := ReadControls(histcontrol, isWhite);
      if control.ignoreSpace && line != "" && (line[0] == ' ' || line[0] == '\t') {
        return false;
      }
      if control.ignoreDups && LastOf(entries) == Some(line) {
        return false;
      }
      if control.eraseDups {
        Erase(line);
      }
      AddEntry(line, stamp, histsize);
      linesThisSession := linesThisSession + 1;
      assert View() == Spec.Record(old(View()), c);
      recorded := true;
    }

    /** One line of a history file: a stamp, a blank to skip, a continuation of the last
        entry, or a new entry. */
    method LoadLine(line: string, lastStamp: Option<string>, skipBlanks: bool, count: nat, mode: Spec.LoadMode)
        returns (nextStamp: Option<string>, nextSkip: bool, nextCount: nat)
      requires Valid()
      modifies this
      ensures Valid()
      ensures Spec.Loading(View(), nextStamp, nextSkip, nextCount)
           == Spec.LoadLine(Spec.Loading(old(View()), lastStamp, skipBlanks, count), line, mode)
    {
      hide Spec.Stifle, Spec.Push, Spec.AppendToLast, LooksLikeStamp;
      nextStamp, nextSkip, nextCount := lastStamp, skipBlanks, count;
      if mode.active && LooksLikeStamp(line) {
        return Some(line), true, count;
      }
      if line == "" && skipBlanks {
        return;
      }
      nextSkip := !mode.stamped;
      if lastStamp.None? && mode.stamped && entries != [] {
        AppendToLast(line);
      } else {
        var stamp := if lastStamp.Some? then lastStamp.value else if mode.active then mode.now(count) else "";
        AddEntry(line, stamp, mode.limit);
        nextCount := count + 1;
      }
      nextStamp := None;
    }

    /** `load_file_with_arming`: one pass over the lines of the file. */
    method LoadFile(content: string, histsize: Option<nat>, armed: bool, now: nat -> string) returns (count: nat)
      requires Valid()
      modifies this
      ensures Valid()
      ensures var r := Spec.Load(old(View()), content, histsize, armed, now); View() == r.h && count == r.count
    {
      var lines := Lines(content);
      var hasTimestamps := lines != [] && LooksLikeStamp(lines[0]);
      var mode := Spec.LoadMode(hasTimestamps, armed || hasTimestamps, histsize, now);
      ghost var goal := Spec.Load(old(View()), content, histsize, armed, now);
      var lastStamp, skipBlanks := None, !hasTimestamps;
      count := 0;
      assert goal == Spec.LoadLines(Spec.Loading(View(), lastStamp, skipBlanks, count), lines, mode);
      hide Spec.LoadLines, Spec.LoadLine, Spec.Load, Lines, LooksLikeStamp;
      var i := 0;
      assert lines[0..] == lines;
      while i < |lines|
        invariant i <= |lines| && Valid()
        invariant goal == Spec.LoadLines(Spec.Loading(View(), lastStamp, skipBlanks, count), lines[i..], mode)
      {
        NextLine(Spec.Loading(View(), lastStamp, skipBlanks, count), lines, i, mode);
        lastStamp, skipBlanks, count := LoadLine(lines[i], lastStamp, skipBlanks, count, mode);
        i := i + 1;
      }
      NoMoreLines(Spec.Loading(View(), lastStamp, skipBlanks, count), mode);
    }

    /** `write_file`: the text written, stamp lines included when asked for. */
    method WriteFile(withStamps: bool) returns (content: string, count: nat)
      requires Valid()
      ensures content == WrittenText(entries, timestamps, withStamps) && count == |entries|
    {
      content := WriteFrom(0, withStamps);
      assert entries[0..] == entries && timestamps[0..] == timestamps;
      count := |entries|;
    }

    /** The writing loop shared by writing and appending. */
    method WriteFrom(start: nat, withStamps: bool) returns (content: string)
      requires Valid() && start <= |entries|
      ensures content == WrittenText(entries[start..], timestamps[start..], withStamps)
    {
      hide WrittenText, EntryText;
      content := "";
      var i := start;
      NothingWritten(withStamps);
      assert entries[start..start] == [] && timestamps[start..start] == [];
      while i < |entries|
        invariant start <= i <= |entries|
        invariant content == WrittenText(entries[start..i], timestamps[start..i], withStamps)
      {
        WrittenTextSnoc(entries[start..i], timestamps[start..i], entries[i], timestamps[i], withStamps);
        SliceStep(entries, start, i);
        SliceStep(timestamps, start, i);
        content := content + EntryText(entries[i], timestamps[i], withStamps);
        i := i + 1;
      }
      assert entries[start..|entries|] == entries[start..] && timestamps[start..|entries|] == timestamps[start..];
    }

    /** `append_file`: the lines of this session go to the end of the file. */
    method AppendFile(content: string, withStamps: bool) returns (appended: string, n: nat)
      requires Valid()
      modifies this`linesThisSession
      ensures Valid() && View() == old(View()).(session := 0)
      ensures n == Spec.Unflushed(old(View())) && appended == content + Spec.AppendedText(old(View()), withStamps)
    {
      n := if linesThisSession < |entries| then linesThisSession else |entries|;
      var start := |entries| - n;
      appended := content;
      if n > 0 {
        var text := WriteFrom(start, withStamps);
        appended := content + text;
      } else {
        assert entries[start..] == [] && content + "" == content;
      }
      linesThisSession := 0;
    }

    /** `truncate_file`: the command lines of the file are listed, and the text cut before
        the one to keep first or its stamp line; the cut panics inside a character. */
    method TruncateFile(content: string, limit: nat, withStamps: bool) returns (kept: Option<string>)
      ensures kept == Spec.Truncate(content, limit, withStamps)
    {
      hide Lines, Spec.TruncateStart, Spec.Commands, Spec.OffsetOf, SliceFrom;
      if limit == 0 {
        return Some("");
      }
      var lines := Lines(content);
      var commands := ListCommands(lines, withStamps);
      if |commands| <= limit {
        return Some(content);
      }
      var start := KeptStart(lines, commands, limit, withStamps);
      var offset := LineOffset(lines, start);
      kept := SliceFrom(content, offset);
    }

    /** Back up from the first kept command over its stamp line. */
    method KeptStart(lines: seq<string>, commands: seq<nat>, limit: nat, withStamps: bool) returns (start: nat)
      requires AreCommands(lines, commands, withStamps) && |commands| == Spec.Commands(lines, withStamps)
      requires 1 <= limit < |commands|
      ensures start == Spec.TruncateStart(lines, limit, withStamps)
    {
      hide Spec.FirstKept, Spec.Commands;
      CommandPosition(lines, commands, |commands| - limit, withStamps);
      var firstKept := commands[|commands| - limit];
      start := if firstKept > 0 && withStamps && LooksLikeStamp(lines[firstKept - 1]) then firstKept - 1 else firstKept;
    }

    method LineOffset(lines: seq<string>, start: nat) returns (offset: nat)
      requires start <= |lines|
      ensures offset == Spec.OffsetOf(lines, start)
    {
      offset := 0;
      var i := 0;
      while i < start
        invariant i <= start && offset == Spec.OffsetOf(lines, i)
      {
        offset := offset + ByteLen(lines[i]) + 1;
        i := i + 1;
      }
    }

    /** Positions of the lines that are not stamps, in order. */
    method ListCommands(lines: seq<string>, withStamps: bool) returns (commands: seq<nat>)
      ensures AreCommands(lines, commands, withStamps)
      ensures |commands| == Spec.Commands(lines, withStamps)
    {
      commands := [];
      var i := 0;
      assert lines[0..] == lines;
      while i < |lines|
        invariant i <= |lines|
        invariant |commands| + Spec.Commands(lines[i..], withStamps) == Spec.Commands(lines, withStamps)
        invariant forall k :: 0 <= k < |commands| ==> commands[k] < i && IsCommand(lines, commands[k], withStamps)
        invariant forall k :: 0 <= k < |commands| ==>
                    Spec.Commands(lines[commands[k]..], withStamps) == Spec.Commands(lines, withStamps) - k
      {
        assert lines[i..][1..] == lines[i + 1..];
        if !(withStamps && LooksLikeStamp(lines[i])) {
          commands := commands + [i];
        }
        i := i + 1;
      }
    }
  }

  function LastOf(entries: seq<string>): Option<string> {
    if entries == [] then None else Some(entries[|entries| - 1])
  }

  lemma NextLine(st: Spec.Loading, lines: seq<string>, i: nat, mode: Spec.LoadMode)
    requires Spec.Aligned(st.h) && i < |lines|
    ensures Spec.LoadLines(st, lines[i..], mode)
          == Spec.LoadLines(Spec.LoadLine(st, lines[i], mode), lines[i + 1..], mode)
  {
    assert lines[i..][1..] == lines[i + 1..];
  }

  lemma WithoutNone(line: string)
    ensures Spec.Without([], [], line) == ([], [])
  {
  }

  lemma WithoutNext(entries: seq<string>, stamps: seq<string>, i: nat, line: string)
    requires |entries| == |stamps| && i < |entries|
    ensures var r := Spec.Without(entries[..i], stamps[..i], line);
            var next := Spec.Without(entries[..i + 1], stamps[..i + 1], line);
            next == if entries[i] == line then r else (r.0 + [entries[i]], r.1 + [stamps[i]])
  {
    assert entries[..i + 1][..i] == entries[..i] && stamps[..i + 1][..i] == stamps[..i];
  }

  lemma NoMoreLines(st: Spec.Loading, mode: Spec.LoadMode)
    requires Spec.Aligned(st.h)
    ensures Spec.LoadLines(st, [], mode) == st
  {
  }

  lemma NothingWritten(withStamps: bool)
    ensures WrittenText([], [], withStamps) == ""
  {
  }

  predicate IsCommand(lines: seq<string>, i: nat, withStamps: bool) {
    i < |lines| && !(withStamps && LooksLikeStamp(lines[i]))
  }

  /** Each listed position is a command line with the commands listed from it on after it. */
  predicate AreCommands(lines: seq<string>, commands: seq<nat>, withStamps: bool) {
    forall k :: 0 <= k < |commands| ==>
      IsCommand(lines, commands[k], withStamps)
      && Spec.Commands(lines[commands[k]..], withStamps) == |commands| - k
  }

  lemma CommandPosition(lines: seq<string>, commands: seq<nat>, k: nat, withStamps: bool)
    requires AreCommands(lines, commands, withStamps) && k < |commands| == Spec.Commands(lines, withStamps)
    ensures commands[k] < |lines| && Spec.FirstKept(lines, |commands| - k, withStamps) == commands[k]
  {
    HistoryTruncate.FirstKeptIsUnique(lines, |commands| - k, withStamps, commands[k]);
  }
}
