/**
 History files (src/history.rs): which lists survive being written with stamps and loaded
 again, what a size limit does during a load, and how truncations compose.
 */
module HistoryFileTheorems {
  import opened Wrappers
  import opened HistoryText
  import opened HistorySpec
  import opened Sequences

  // ------------------------------------------------------------------- round trip

  /** Lines a stamped file gives back unchanged and keeps with their entry. */
  predicate PlainLine(line: string) { !LooksLikeStamp(line) && StripCr(line) == line }

  predicate PlainLines(lines: seq<string>) { forall i :: 0 <= i < |lines| ==> PlainLine(lines[i]) }

  /** Entries that survive: a non-empty first line, and no line that reads as a stamp or
      ends in a carriage return. */
  predicate Storable(entry: string) { Split(entry, '\n')[0] != "" && PlainLines(Split(entry, '\n')) }

  predicate AllStorable(entries: seq<string>) { forall i :: 0 <= i < |entries| ==> Storable(entries[i]) }

  predicate AllStamps(stamps: seq<string>) { forall i :: 0 <= i < |stamps| ==> IsStamp(stamps[i]) }

  lemma {:induction false} LoadLinesConcat(st: Loading, a: seq<string>, b: seq<string>, mode: LoadMode)
    requires Aligned(st.h)
    ensures LoadLines(st, a + b, mode) == LoadLines(LoadLines(st, a, mode), b, mode)
    decreases |a|
  {
    if a == [] {
      assert a + b == b;
    } else {
      assert (a + b)[1..] == a[1..] + b;
      LoadLinesConcat(LoadLine(st, a[0], mode), a[1..], b, mode);
    }
  }

  /** The mode in which a file starting with a stamp is read, without a size limit. */
  predicate Stamped(mode: LoadMode) { mode.stamped && mode.active && mode.limit.None? }

  lemma {:induction false} LoadMoreLines(st: Loading, more: seq<string>, mode: LoadMode)
    requires Aligned(st.h) && st.h.entries != [] && Stamped(mode)
    requires st.pending.None? && !st.skipBlanks && PlainLines(more)
    ensures var n := |st.h.entries| - 1;
            var joined := st.h.entries[n := Joined(st.h.entries[n], more)];
            LoadLines(st, more, mode) == st.(h := st.h.(entries := joined))
    decreases |more|
  {
    var n := |st.h.entries| - 1;
    if more == [] {
      assert st.h.entries[n := st.h.entries[n]] == st.h.entries;
    } else {
      assert PlainLine(more[0]);
      LoadMoreLines(LoadLine(st, more[0], mode), more[1..], mode);
    }
  }

  lemma {:induction false} StripPlain(lines: seq<string>)
    requires PlainLines(lines)
    ensures StripEach(lines) == lines
  {
    assert forall i :: 0 <= i < |lines| ==> PlainLine(lines[i]);
  }

  lemma LoadStamp(st: Loading, stamp: string, lines: seq<string>, mode: LoadMode)
    requires Aligned(st.h) && Stamped(mode) && IsStamp(stamp)
    ensures LoadLines(st, [stamp] + lines, mode)
         == LoadLines(st.(pending := Some(stamp), skipBlanks := true), lines, mode)
  {
    assert ([stamp] + lines)[1..] == lines;
  }

  /** A storable entry, written with its stamp, is loaded as one entry with that stamp. */
  lemma LoadEntry(st: Loading, entry: string, stamp: string, mode: LoadMode)
    requires Aligned(st.h) && Stamped(mode) && IsStamp(stamp) && Storable(entry)
    ensures LoadLines(st, [stamp] + StripEach(Split(entry, '\n')), mode)
         == Loading(Push(st.h, entry, stamp), None, false, st.count + 1)
  {
    var lines := Split(entry, '\n');
    StripPlain(lines);
    LoadStamp(st, stamp, lines, mode);
    var ready := st.(pending := Some(stamp), skipBlanks := true);
    assert PlainLine(lines[0]);
    var first := LoadLine(ready, lines[0], mode);
    assert first == Loading(Push(st.h, lines[0], stamp), None, false, st.count + 1);
    LoadMoreLines(first, lines[1..], mode);
    JoinedSplit(entry);
  }

  lemma LoadNothing(st: Loading, mode: LoadMode)
    requires Aligned(st.h)
    ensures LoadLines(st, Lines(""), mode).h == st.h
  {
  }

  lemma {:induction false} LoadWritten(st: Loading, entries: seq<string>, stamps: seq<string>, mode: LoadMode)
    requires Aligned(st.h) && Stamped(mode) && |entries| == |stamps| && AllStamps(stamps) && AllStorable(entries)
    ensures var r := LoadLines(st, Lines(WrittenText(entries, stamps, true)), mode);
            r.h == st.h.(entries := st.h.entries + entries, stamps := st.h.stamps + stamps)
    decreases |entries|
  {
    hide IsStamp, Storable, LoadLines, Lines, Split, StripEach, EntryText;
    if entries == [] {
      LoadNothing(st, mode);
      assert st.h.entries + [] == st.h.entries && st.h.stamps + [] == st.h.stamps;
    } else {
      var rest := WrittenText(entries[1..], stamps[1..], true);
      LinesOfEntry(entries[0], stamps[0], rest);
      LoadLinesConcat(st, [stamps[0]] + StripEach(Split(entries[0], '\n')), Lines(rest), mode);
      LoadEntry(st, entries[0], stamps[0], mode);
      var next := Loading(Push(st.h, entries[0], stamps[0]), None, false, st.count + 1);
      LoadWritten(next, entries[1..], stamps[1..], mode);
      Assoc(st.h.entries, [entries[0]], entries[1..]);
      Assoc(st.h.stamps, [stamps[0]], stamps[1..]);
      assert [entries[0]] + entries[1..] == entries && [stamps[0]] + stamps[1..] == stamps;
    }
  }

  /** Total length of lines or entries, one newline each. */
  function Weight(lines: seq<string>): nat {
    if lines == [] then 0 else Weight(lines[..|lines| - 1]) + |lines[|lines| - 1]| + 1
  }

  lemma WeightSnoc(lines: seq<string>, line: string)
    ensures Weight(lines + [line]) == Weight(lines) + |line| + 1
  {
    assert (lines + [line])[..|lines|] == lines;
  }

  lemma {:induction false} WeightCons(lines: seq<string>)
    requires lines != []
    ensures Weight(lines) == |lines[0]| + 1 + Weight(lines[1..])
  {
    var n := |lines| - 1;
    if n > 0 {
      WeightCons(lines[..n]);
      assert lines[..n][1..] == lines[1..][..n - 1];
    }
  }

  lemma {:induction false} WeightOfSplit(entry: string)
    ensures Weight(Split(entry, '\n')) == |entry| + 1
  {
    if entry != "" {
      WeightOfSplit(entry[1..]);
      var rest := Split(entry[1..], '\n');
      WeightCons(Split(entry, '\n'));
      if entry[0] == '\n' {
        assert Split(entry, '\n')[1..] == rest;
      } else {
        WeightCons(rest);
        assert Split(entry, '\n')[1..] == rest[1..];
      }
    } else {
      assert [""][..0] == [];
    }
  }

  lemma {:induction false} WeightStripped(lines: seq<string>)
    ensures Weight(StripEach(lines)) <= Weight(lines)
    ensures StripEach(lines) != lines ==> Weight(StripEach(lines)) < Weight(lines)
    decreases |lines|
  {
    if lines != [] {
      WeightStripped(lines[1..]);
      WeightCons(lines);
      WeightCons(StripEach(lines));
      assert StripEach(lines)[1..] == StripEach(lines[1..]);
      assert lines == [lines[0]] + lines[1..];
    }
  }

  /** Is this line lost when the loader reads it: a stamp, or a blank right after one? */
  predicate Dropped(st: Loading, line: string) { LooksLikeStamp(line) || (line == "" && st.skipBlanks) }

  lemma LoadLineWeight(st: Loading, line: string, mode: LoadMode)
    requires Aligned(st.h) && Stamped(mode)
    ensures var r := LoadLine(st, line, mode);
            Weight(r.h.entries) == Weight(st.h.entries) + if Dropped(st, line) then 0 else |line| + 1
  {
    hide Weight;
    var entries := st.h.entries;
    if Dropped(st, line) {
    } else if st.pending.None? && entries != [] {
      var n := |entries| - 1;
      var last := entries[n] + ['\n'] + line;
      WeightSnoc(entries[..n], entries[n]);
      WeightSnoc(entries[..n], last);
      assert entries[..n] + [entries[n]] == entries;
      assert entries[n := last] == entries[..n] + [last];
    } else {
      WeightSnoc(entries, line);
      assert (entries + [line])[0..] == entries + [line];
    }
  }

  predicate SomeDropped(st: Loading, lines: seq<string>) {
    || (lines != [] && lines[0] == "" && st.skipBlanks)
    || (exists i :: 0 <= i < |lines| && LooksLikeStamp(lines[i]))
  }

  lemma {:induction false} LoadLinesWeight(st: Loading, lines: seq<string>, mode: LoadMode)
    requires Aligned(st.h) && Stamped(mode)
    ensures var r := LoadLines(st, lines, mode);
            && Weight(r.h.entries) <= Weight(st.h.entries) + Weight(lines)
            && (SomeDropped(st, lines) ==> Weight(r.h.entries) < Weight(st.h.entries) + Weight(lines))
    decreases |lines|
  {
    hide Weight, LoadLine;
    if lines != [] {
      WeightCons(lines);
      LoadLineWeight(st, lines[0], mode);
      LoadLinesWeight(LoadLine(st, lines[0], mode), lines[1..], mode);
      if i :| 0 <= i < |lines| && LooksLikeStamp(lines[i]) && i > 0 {
        assert lines[1..][i - 1] == lines[i];
      }
    } else {
      assert Weight(lines) >= 0;
    }
  }

  /** An entry that is not storable comes back shorter, whatever is loaded around it. */
  lemma LoadEntryWeight(st: Loading, entry: string, stamp: string, mode: LoadMode)
    requires Aligned(st.h) && Stamped(mode) && IsStamp(stamp)
    ensures var r := LoadLines(st, [stamp] + StripEach(Split(entry, '\n')), mode);
            && Weight(r.h.entries) <= Weight(st.h.entries) + |entry| + 1
            && (!Storable(entry) ==> Weight(r.h.entries) < Weight(st.h.entries) + |entry| + 1)
  {
    var lines := Split(entry, '\n');
    var stripped := StripEach(lines);
    LoadStamp(st, stamp, stripped, mode);
    WeightOfSplit(entry);
    WeightStripped(lines);
    var ready := st.(pending := Some(stamp), skipBlanks := true);
    LoadLinesWeight(ready, stripped, mode);
    hide Weight, LoadLines, Split, StripEach;
    if !Storable(entry) && stripped == lines && lines[0] != "" {
      var i :| 0 <= i < |lines| && !PlainLine(lines[i]);
      assert LooksLikeStamp(stripped[i]);
    }
  }

  lemma {:induction false} LoadWrittenWeight(st: Loading, entries: seq<string>, stamps: seq<string>, mode: LoadMode)
    requires Aligned(st.h) && Stamped(mode) && |entries| == |stamps| && AllStamps(stamps)
    ensures var r := LoadLines(st, Lines(WrittenText(entries, stamps, true)), mode);
            && Weight(r.h.entries) <= Weight(st.h.entries) + Weight(entries)
            && (!AllStorable(entries) ==> Weight(r.h.entries) < Weight(st.h.entries) + Weight(entries))
    decreases |entries|
  {
    hide Weight, LoadLines, Split, StripEach, Lines, Storable, IsStamp, EntryText;
    if entries == [] {
      LoadNothing(st, mode);
    } else {
      var rest := WrittenText(entries[1..], stamps[1..], true);
      LinesOfEntry(entries[0], stamps[0], rest);
      var first := [stamps[0]] + StripEach(Split(entries[0], '\n'));
      LoadLinesConcat(st, first, Lines(rest), mode);
      LoadEntryWeight(st, entries[0], stamps[0], mode);
      LoadWrittenWeight(LoadLines(st, first, mode), entries[1..], stamps[1..], mode);
      WeightCons(entries);
      if Storable(entries[0]) {
        StorableRest(entries);
      }
    }
  }

  lemma StorableRest(entries: seq<string>)
    requires entries != [] && Storable(entries[0])
    ensures AllStorable(entries[1..]) ==> AllStorable(entries)
  {
    hide Storable;
    assert forall i :: 1 <= i < |entries| ==> entries[1..][i - 1] == entries[i];
  }

  lemma WrittenMode(entries: seq<string>, stamps: seq<string>, armed: bool, now: nat -> string)
    requires |entries| == |stamps| && AllStamps(stamps) && entries != []
    ensures Stamped(ModeFor(WrittenText(entries, stamps, true), armed, None, now))
  {
    LinesOfEntry(entries[0], stamps[0], WrittenText(entries[1..], stamps[1..], true));
  }

  /** A stamped list, written with its stamps and loaded into an empty list, comes back entry
      for entry and stamp for stamp exactly when every entry is storable. */
  lemma RoundTripExactlyWhen(h: Hist, armed: bool, now: nat -> string)
    requires Aligned(h) && AllStamps(h.stamps)
    ensures var r := Load(EMPTY, WrittenText(h.entries, h.stamps, true), None, armed, now).h;
            && (AllStorable(h.entries) ==> r.entries == h.entries && r.stamps == h.stamps && r.base == 1)
            && (r.entries == h.entries ==> AllStorable(h.entries))
  {
    var text := WrittenText(h.entries, h.stamps, true);
    var mode := ModeFor(text, armed, None, now);
    var st := StartLoad(EMPTY, mode);
    if h.entries != [] {
      WrittenMode(h.entries, h.stamps, armed, now);
      LoadWrittenWeight(st, h.entries, h.stamps, mode);
      assert Weight([]) == 0;
      if AllStorable(h.entries) {
        LoadWritten(st, h.entries, h.stamps, mode);
        assert [] + h.entries == h.entries && [] + h.stamps == h.stamps;
      }
    }
  }

  // -------------------------------------------------------------------- size limit

  lemma DropThenAdd(s: seq<string>, line: string, k: nat, k2: nat)
    requires k <= |s| && k + k2 <= |s| + 1
    ensures (s[k..] + [line])[k2..] == (s + [line])[k + k2..]
  {
    assert s[k..] + [line] == (s + [line])[k..];
    assert (s + [line])[k..][k2..] == (s + [line])[k + k2..];
  }

  lemma StiflePush(h: Hist, entry: string, stamp: string, limit: Option<nat>)
    requires Aligned(h)
    ensures Stifle(Push(Stifle(h, limit), entry, stamp), limit) == Stifle(Push(h, entry, stamp), limit)
  {
    var k := Excess(|h.entries|, limit);
    var k2 := Excess(|h.entries| - k + 1, limit);
    assert k + k2 == Excess(|h.entries| + 1, limit);
    hide Excess;
    DropThenAdd(h.entries, entry, k, k2);
    DropThenAdd(h.stamps, stamp, k, k2);
  }

  lemma StifleAppendToLast(h: Hist, line: string, limit: Option<nat>)
    requires Aligned(h) && h.entries != [] && limit != Some(0)
    ensures Stifle(h, limit).entries != []
    ensures AppendToLast(Stifle(h, limit), line) == Stifle(AppendToLast(h, line), limit)
  {
    var k, n := Excess(|h.entries|, limit), |h.entries| - 1;
    var last := h.entries[n] + ['\n'] + line;
    assert h.entries[k..][n - k := last] == h.entries[n := last][k..];
  }

  /** A load under a limit of at least one keeps, line by line, the stifled list of the
      unlimited load. */
  lemma LimitedLoadLine(u: Loading, line: string, mode: LoadMode, limit: Option<nat>)
    requires Aligned(u.h) && mode.limit.None? && limit != Some(0)
    ensures var r := LoadLine(u, line, mode);
            LoadLine(u.(h := Stifle(u.h, limit)), line, mode.(limit := limit)) == r.(h := Stifle(r.h, limit))
  {
    hide Stifle, Push, AppendToLast, LooksLikeStamp;
    StifleKeepsEmptiness(u.h, limit);
    if (mode.active && LooksLikeStamp(line)) || (line == "" && u.skipBlanks) {
    } else if u.pending.None? && mode.stamped && u.h.entries != [] {
      StifleAppendToLast(u.h, line, limit);
    } else {
      var stamp := if u.pending.Some? then u.pending.value else if mode.active then mode.now(u.count) else "";
      StiflePush(u.h, line, stamp, limit);
      StifleNoLimit(Push(u.h, line, stamp));
    }
  }

  lemma {:induction false} LimitedLoadLines(u: Loading, lines: seq<string>, mode: LoadMode, limit: Option<nat>)
    requires Aligned(u.h) && mode.limit.None? && limit != Some(0)
    ensures var r := LoadLines(u, lines, mode);
            LoadLines(u.(h := Stifle(u.h, limit)), lines, mode.(limit := limit)) == r.(h := Stifle(r.h, limit))
    decreases |lines|
  {
    hide Stifle, LoadLine;
    if lines != [] {
      LimitedLoadLine(u, lines[0], mode, limit);
      LimitedLoadLines(LoadLine(u, lines[0], mode), lines[1..], mode, limit);
    }
  }

  lemma StifleNoLimit(h: Hist)
    requires Aligned(h)
    ensures Stifle(h, None) == h
  {
    assert h.entries[0..] == h.entries && h.stamps[0..] == h.stamps;
  }

  lemma StifleKeepsEmptiness(h: Hist, limit: Option<nat>)
    requires Aligned(h) && limit != Some(0)
    ensures Stifle(h, limit).entries == [] <==> h.entries == []
  {
  }

  lemma StifleWithin(h: Hist, limit: Option<nat>)
    requires Aligned(h) && (limit.Some? ==> |h.entries| <= limit.value)
    ensures Stifle(h, limit) == h
  {
    assert h.entries[0..] == h.entries && h.stamps[0..] == h.stamps;
  }

  /** Loading any file under a limit n >= 1 into a list of at most n entries is loading it
      without a limit and stifling then, numbering included. */
  lemma LimitedLoadIsStifledLoad(h: Hist, content: string, n: nat, armed: bool, now: nat -> string)
    requires Aligned(h) && 1 <= n && |h.entries| <= n
    ensures var u := Load(h, content, None, armed, now);
            Load(h, content, Some(n), armed, now) == u.(h := Stifle(u.h, Some(n)))
  {
    var mode := ModeFor(content, armed, None, now);
    var st := StartLoad(h, mode);
    StifleWithin(h, Some(n));
    LimitedLoadLines(st, Lines(content), mode, Some(n));
    assert ModeFor(content, armed, Some(n), now) == mode.(limit := Some(n));
  }

  // -------------------------------------------------------------------- limit zero

  /** A line that is joined to the entry before it. */
  predicate Continues(st: Loading, line: string, mode: LoadMode) {
    && !(mode.active && LooksLikeStamp(line)) && !(line == "" && st.skipBlanks)
    && st.pending.None? && mode.stamped && st.h.entries != []
  }

  /** How many lines a load joins to the entry before them. */
  function Continuations(st: Loading, lines: seq<string>, mode: LoadMode): nat
    requires Aligned(st.h)
    decreases |lines|
  {
    if lines == [] then 0
    else
      var more := if Continues(st, lines[0], mode) then 1 else 0;
      more + Continuations(LoadLine(st, lines[0], mode), lines[1..], mode)
  }

  /** A load under limit 0, in step with the unlimited one. */
  predicate InStep(z: Loading, u: Loading, ahead: int) {
    && z.h.entries == [] && z.h.stamps == [] && z.h.session == u.h.session
    && z.h.base == u.h.base + |u.h.entries| + ahead && z.count == u.count + ahead
    && z.pending == u.pending && z.skipBlanks == u.skipBlanks
  }

  lemma PushNothing(h: Hist, entry: string, stamp: string)
    requires h.entries == [] && h.stamps == []
    ensures Stifle(Push(h, entry, stamp), Some(0)) == h.(base := h.base + 1)
  {
    var pushed := Push(h, entry, stamp);
    assert pushed.entries[1..] == [] && pushed.stamps[1..] == [];
  }

  lemma ZeroLimitLine(z: Loading, u: Loading, line: string, mode: LoadMode, ahead: nat)
    requires Aligned(u.h) && mode.limit.None? && InStep(z, u, ahead)
    ensures InStep(LoadLine(z, line, mode.(limit := Some(0))), LoadLine(u, line, mode),
                   ahead + if Continues(u, line, mode) then 1 else 0)
  {
    hide Stifle, LooksLikeStamp;
    PushNothing(z.h, line, if z.pending.Some? then z.pending.value else if mode.active then mode.now(z.count) else "");
    var stamp := if u.pending.Some? then u.pending.value else if mode.active then mode.now(u.count) else "";
    StifleNoLimit(Push(u.h, line, stamp));
  }

  lemma {:induction false} ZeroLimitLines(z: Loading, u: Loading, lines: seq<string>, mode: LoadMode, ahead: nat)
    requires Aligned(u.h) && mode.limit.None? && InStep(z, u, ahead)
    ensures InStep(LoadLines(z, lines, mode.(limit := Some(0))), LoadLines(u, lines, mode),
                   ahead + Continuations(u, lines, mode))
    decreases |lines|
  {
    hide LoadLine, Continues, InStep;
    InStepIsAligned(z, u, ahead);
    if lines != [] {
      ZeroLimitLine(z, u, lines[0], mode, ahead);
      var more := if Continues(u, lines[0], mode) then 1 else 0;
      ZeroLimitLines(LoadLine(z, lines[0], mode.(limit := Some(0))), LoadLine(u, lines[0], mode), lines[1..], mode,
                     ahead + more);
    }
  }

  lemma InStepIsAligned(z: Loading, u: Loading, ahead: int)
    requires InStep(z, u, ahead)
    ensures Aligned(z.h)
  {
  }

  /** Two neighbouring lines of a stamped file, neither a stamp, the first not blank. */
  predicate HasContinuation(lines: seq<string>) {
    && |lines| >= 2
    && ((lines[0] != "" && !LooksLikeStamp(lines[0]) && !LooksLikeStamp(lines[1])) || HasContinuation(lines[1..]))
  }

  /** The load is right behind a stamp. */
  predicate AfterStamp(st: Loading) { Aligned(st.h) && st.pending.Some? && st.skipBlanks }

  /** The load is behind a line of an entry. */
  predicate InEntry(st: Loading) { Aligned(st.h) && st.pending.None? && !st.skipBlanks && st.h.entries != [] }

  lemma ContinuationStep(st: Loading, line: string, mode: LoadMode)
    requires Stamped(mode) && (AfterStamp(st) || InEntry(st))
    ensures var r := LoadLine(st, line, mode);
            if LooksLikeStamp(line) || (line == "" && AfterStamp(st)) then AfterStamp(r) else InEntry(r)
    ensures Continues(st, line, mode) <==> InEntry(st) && !LooksLikeStamp(line)
  {
    hide LooksLikeStamp, Stifle, Push, AppendToLast;
    AddedLineStays(st.h, line, if st.pending.Some? then st.pending.value else mode.now(st.count));
  }

  lemma AddedLineStays(h: Hist, line: string, stamp: string)
    requires Aligned(h)
    ensures Stifle(Push(h, line, stamp), None).entries != []
    ensures h.entries != [] ==> AppendToLast(h, line).entries != []
  {
  }

  lemma {:induction false} ContinuationsInFile(st: Loading, lines: seq<string>, mode: LoadMode)
    requires Stamped(mode) && (AfterStamp(st) || InEntry(st))
    ensures Continuations(st, lines, mode) > 0 <==>
            HasContinuation(lines) || (InEntry(st) && lines != [] && !LooksLikeStamp(lines[0]))
    decreases |lines|
  {
    hide LoadLine, LooksLikeStamp, Continues;
    if lines != [] {
      ContinuationStep(st, lines[0], mode);
      ContinuationsInFile(LoadLine(st, lines[0], mode), lines[1..], mode);
    }
  }

  lemma {:induction false} NoContinuations(st: Loading, lines: seq<string>, mode: LoadMode)
    requires Aligned(st.h) && !mode.stamped
    ensures Continuations(st, lines, mode) == 0
    decreases |lines|
  {
    hide LoadLine;
    if lines != [] {
      NoContinuations(LoadLine(st, lines[0], mode), lines[1..], mode);
    }
  }

  predicate HasContinuationLine(content: string) {
    var lines := Lines(content);
    lines != [] && LooksLikeStamp(lines[0]) && HasContinuation(lines)
  }

  lemma ContinuationsOfFile(h: Hist, content: string, armed: bool, now: nat -> string)
    requires Aligned(h) && h.entries == []
    ensures var mode := ModeFor(content, armed, None, now);
            Continuations(StartLoad(h, mode), Lines(content), mode) > 0 <==> HasContinuationLine(content)
  {
    var mode, lines := ModeFor(content, armed, None, now), Lines(content);
    hide Lines, LooksLikeStamp;
    var st := StartLoad(h, mode);
    if mode.stamped {
      assert LoadLine(st, lines[0], mode) == st.(pending := Some(lines[0]), skipBlanks := true);
      ContinuationsInFile(LoadLine(st, lines[0], mode), lines[1..], mode);
    } else {
      NoContinuations(st, lines, mode);
    }
  }

  /** Under limit 0 the lines that continue an entry are numbered as entries of their own. */
  lemma ZeroLimitNumbers(h: Hist, content: string, armed: bool, now: nat -> string)
    requires Aligned(h) && h.entries == []
    ensures var u, z := Load(h, content, None, armed, now), Load(h, content, Some(0), armed, now);
            var mode := ModeFor(content, armed, None, now);
            var ahead := Continuations(StartLoad(h, mode), Lines(content), mode);
            && z.h == Hist([], [], u.h.base + |u.h.entries| + ahead, u.h.session)
            && z.count == u.count + ahead && z.pending == u.pending && z.skipBlanks == u.skipBlanks
  {
    hide LoadLines, Continuations, Lines, LooksLikeStamp;
    var mode := ModeFor(content, armed, None, now);
    assert ModeFor(content, armed, Some(0), now) == mode.(limit := Some(0));
    var st := StartLoad(h, mode);
    assert h.stamps == [] && InStep(st, st, 0);
    ZeroLimitLines(st, st, Lines(content), mode, 0);
  }

  /** Loading a file under limit 0 into an empty list is loading it without a limit and stifling
      then exactly when no line of it continues an entry. */
  lemma ZeroLimitAgreesExactlyWhen(h: Hist, content: string, armed: bool, now: nat -> string)
    requires Aligned(h) && h.entries == []
    ensures var u := Load(h, content, None, armed, now);
            Load(h, content, Some(0), armed, now) == u.(h := Stifle(u.h, Some(0))) <==> !HasContinuationLine(content)
  {
    hide Load, Continuations, HasContinuationLine, Lines;
    ZeroLimitNumbers(h, content, armed, now);
    ContinuationsOfFile(h, content, armed, now);
    var u := Load(h, content, None, armed, now).h;
    assert u.entries[|u.entries|..] == [] && u.stamps[|u.stamps|..] == [];
  }

  lemma ThreeLines(a: string, b: string, c: string)
    requires '\n' !in a && '\n' !in b && '\n' !in c
    ensures Lines(a + ['\n'] + (b + ['\n'] + (c + ['\n'] + ""))) == [StripCr(a), StripCr(b), StripCr(c)]
  {
    LinesOfLine(a, b + ['\n'] + (c + ['\n'] + ""));
    LinesOfLine(b, c + ['\n'] + "");
    LinesOfLine(c, "");
    assert Lines("") == [];
    hide Lines, StripCr;
  }

  lemma LinesOfExample()
    ensures Lines("#1\na\nb\n") == ["#1", "a", "b"]
  {
    hide Lines;
    ThreeLines("#1", "a", "b");
    assert "#1" + ['\n'] + ("a" + ['\n'] + ("b" + ['\n'] + "")) == "#1\na\nb\n";
  }

  lemma JoinOfExample(h: Hist)
    requires h == Hist(["a"], ["#1"], 1, 0)
    ensures AppendToLast(h, "b") == Hist(["a\nb"], ["#1"], 1, 0)
  {
    assert "a" + ['\n'] + "b" == "a\nb";
  }

  /** A file of one entry of two lines: with a limit of zero the next number is 3, not 2. */
  lemma ZeroLimitCountsLines(armed: bool, now: nat -> string)
    ensures var u, z := Load(EMPTY, "#1\na\nb\n", None, armed, now), Load(EMPTY, "#1\na\nb\n", Some(0), armed, now);
            u.h == Hist(["a\nb"], ["#1"], 1, 0) && z.h.base == 3
  {
    LinesOfExample();
    hide Lines, Stifle, LoadLines, Continuations;
    StampedEntryOfTwo("#1\na\nb\n", "#1", "a", "b", armed, now);
    JoinOfExample(Hist(["a"], ["#1"], 1, 0));
  }

  /** A stamp, a line and a line that continues it, loaded with and without the limit. */
  lemma StampedEntryOfTwo(content: string, stamp: string, first: string, second: string, armed: bool,
      now: nat -> string)
    requires Lines(content) == [stamp, first, second]
    requires LooksLikeStamp(stamp) && first != "" && !LooksLikeStamp(first) && !LooksLikeStamp(second)
    ensures var u, z := Load(EMPTY, content, None, armed, now), Load(EMPTY, content, Some(0), armed, now);
            u.h == AppendToLast(Hist([first], [stamp], 1, 0), second) && z.h.base == 3
  {
    hide Lines, LooksLikeStamp, Stifle, LoadLine, AppendToLast;
    ZeroLimitNumbers(EMPTY, content, armed, now);
    var mode := ModeFor(content, armed, None, now);
    var start, lines := StartLoad(EMPTY, mode), [stamp, first, second];
    EntryOfTwo(mode, stamp, first, second);
    var s1 := LoadLine(start, stamp, mode);
    var s2 := LoadLine(s1, first, mode);
    LoadFirst(start, stamp, [first, second], mode);
    LoadFirst(s1, first, [second], mode);
    LoadFirst(s2, second, [], mode);
    assert [stamp] + [first, second] == lines && [first] + [second] == [first, second] && [second] + [] == [second];
    LastIsOnly(Hist([first], [stamp], 1, 0), second);
  }

  lemma LastIsOnly(h: Hist, line: string)
    requires Aligned(h) && |h.entries| == 1
    ensures |AppendToLast(h, line).entries| == 1 && AppendToLast(h, line).base == h.base
  {
  }

  lemma LoadFirst(st: Loading, line: string, rest: seq<string>, mode: LoadMode)
    requires Aligned(st.h)
    ensures LoadLines(st, [line] + rest, mode) == LoadLines(LoadLine(st, line, mode), rest, mode)
    ensures Continuations(st, [line] + rest, mode) ==
            (if Continues(st, line, mode) then 1 else 0) + Continuations(LoadLine(st, line, mode), rest, mode)
  {
    hide LoadLine, Continues;
    assert ([line] + rest)[1..] == rest;
  }

  lemma EntryOfTwo(mode: LoadMode, stamp: string, first: string, second: string)
    requires Stamped(mode)
    requires LooksLikeStamp(stamp) && first != "" && !LooksLikeStamp(first) && !LooksLikeStamp(second)
    ensures var s0 := StartLoad(EMPTY, mode);
            var s1 := LoadLine(s0, stamp, mode);
            var s2 := LoadLine(s1, first, mode);
            && !Continues(s0, stamp, mode) && !Continues(s1, first, mode) && Continues(s2, second, mode)
            && LoadLine(s2, second, mode).h == AppendToLast(Hist([first], [stamp], 1, 0), second)
  {
    hide LooksLikeStamp, Stifle, AppendToLast;
    StifleNoLimit(Push(EMPTY, first, stamp));
    assert [] + [first] == [first] && [] + [stamp] == [stamp];
  }
}
