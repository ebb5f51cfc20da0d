/**
 What a history file means (src/history.rs): a run of records, each with its stamps, its first line and the lines
 that belong to it.
 */
module HistoryLoads {
  import opened Wrappers
  import opened HistoryText
  import opened HistorySpec
  import opened HistoryFileTheorems
  import opened Sequences

  /** Stamp lines, blank lines, a line, and the lines that go on with it. */
  datatype Record = Record(stamps: seq<string>, blanks: nat, first: string, more: seq<string>)

  function Blanks(n: nat): seq<string> { if n == 0 then [] else [""] + Blanks(n - 1) }

  function RecordLines(r: Record): seq<string> { r.stamps + (Blanks(r.blanks) + ([r.first] + r.more)) }

  function AllLines(rs: seq<Record>): seq<string> {
    if rs == [] then [] else RecordLines(rs[0]) + AllLines(rs[1..])
  }

  predicate AreStamps(lines: seq<string>) { forall k :: 0 <= k < |lines| ==> LooksLikeStamp(lines[k]) }

  /** The record can be read in such a file: with stamps each record has one, without them each line is its own. */
  predicate Readable(r: Record, mode: LoadMode) {
    && (r.stamps != [] ==> mode.active) && AreStamps(r.stamps)
    && r.first != "" && !(mode.active && LooksLikeStamp(r.first))
    && if mode.stamped then r.stamps != [] && (forall k :: 0 <= k < |r.more| ==> !LooksLikeStamp(r.more[k]))
       else r.more == []
  }

  predicate AllReadable(rs: seq<Record>, mode: LoadMode) { forall k :: 0 <= k < |rs| ==> Readable(rs[k], mode) }

  function TextOf(r: Record): string { Joined(r.first, r.more) }

  function TextsOfRecords(rs: seq<Record>): (r: seq<string>)
    ensures |r| == |rs| && forall k :: 0 <= k < |r| ==> r[k] == TextOf(rs[k])
  {
    if rs == [] then [] else [TextOf(rs[0])] + TextsOfRecords(rs[1..])
  }

  /** The last stamp of a record; without one, the time when the k-th entry is read, if stamps are in use. */
  function StampOf(r: Record, k: nat, mode: LoadMode): string {
    if r.stamps != [] then r.stamps[|r.stamps| - 1] else if mode.active then mode.now(k) else ""
  }

  function StampsOf(rs: seq<Record>, k: nat, mode: LoadMode): (r: seq<string>)
    ensures |r| == |rs| && forall j :: 0 <= j < |r| ==> r[j] == StampOf(rs[j], k + j, mode)
  {
    if rs == [] then [] else [StampOf(rs[0], k, mode)] + StampsOf(rs[1..], k + 1, mode)
  }

  // -------------------------------------------------------------------------- one record

  lemma LoadOne(st: Loading, line: string, rest: seq<string>, mode: LoadMode)
    requires Aligned(st.h)
    ensures LoadLines(st, [line] + rest, mode) == LoadLines(LoadLine(st, line, mode), rest, mode)
  {
    hide LoadLine;
    assert ([line] + rest)[1..] == rest;
  }

  lemma {:induction false} StampLines(st: Loading, stamps: seq<string>, rest: seq<string>, mode: LoadMode)
    requires Aligned(st.h) && (stamps != [] ==> mode.active) && AreStamps(stamps)
    ensures LoadLines(st, stamps + rest, mode) ==
            LoadLines(if stamps == [] then st else st.(pending := Some(stamps[|stamps| - 1]), skipBlanks := true),
                      rest, mode)
    decreases |stamps|
  {
    hide LoadLines, LooksLikeStamp;
    if stamps == [] {
      assert stamps + rest == rest;
    } else {
      assert stamps + rest == [stamps[0]] + (stamps[1..] + rest);
      LoadOne(st, stamps[0], stamps[1..] + rest, mode);
      StampLines(LoadLine(st, stamps[0], mode), stamps[1..], rest, mode);
    }
  }

  lemma {:induction false} BlankLines(st: Loading, n: nat, rest: seq<string>, mode: LoadMode)
    requires Aligned(st.h) && st.skipBlanks
    ensures LoadLines(st, Blanks(n) + rest, mode) == LoadLines(st, rest, mode)
    decreases n
  {
    hide LoadLines;
    if n == 0 {
      assert Blanks(n) + rest == rest;
    } else {
      Assoc([""], Blanks(n - 1), rest);
      LoadOne(st, "", Blanks(n - 1) + rest, mode);
      BlankLines(st, n - 1, rest, mode);
    }
  }

  /** Lines that are no stamps go to the last entry of a stamped file, blank ones too. */
  lemma {:induction false} MoreLines(st: Loading, more: seq<string>, mode: LoadMode)
    requires Aligned(st.h) && st.h.entries != [] && mode.stamped && st.pending.None? && !st.skipBlanks
    requires forall k :: 0 <= k < |more| ==> !LooksLikeStamp(more[k])
    ensures var n := |st.h.entries| - 1;
            LoadLines(st, more, mode) ==
            st.(h := st.h.(entries := st.h.entries[n := Joined(st.h.entries[n], more)]))
    decreases |more|
  {
    hide LooksLikeStamp;
    var n := |st.h.entries| - 1;
    if more == [] {
      assert st.h.entries[n := st.h.entries[n]] == st.h.entries;
    } else {
      MoreLines(LoadLine(st, more[0], mode), more[1..], mode);
    }
  }

  lemma FirstLine(st: Loading, line: string, mode: LoadMode)
    requires Aligned(st.h) && mode.limit.None? && line != "" && !(mode.active && LooksLikeStamp(line))
    requires st.pending.Some? || !mode.stamped
    ensures var stamp := if st.pending.Some? then st.pending.value else if mode.active then mode.now(st.count) else "";
            LoadLine(st, line, mode) == Loading(Push(st.h, line, stamp), None, !mode.stamped, st.count + 1)
  {
    hide LooksLikeStamp, Push, Stifle;
    var stamp := if st.pending.Some? then st.pending.value else if mode.active then mode.now(st.count) else "";
    StifleNoLimit(Push(st.h, line, stamp));
  }

  /** The list after one record more. */
  function Read(st: Loading, r: Record, mode: LoadMode): Loading
    requires Aligned(st.h)
  {
    Loading(Push(st.h, TextOf(r), StampOf(r, st.count, mode)), None, !mode.stamped, st.count + 1)
  }

  lemma RecordLoads(st: Loading, r: Record, mode: LoadMode)
    requires Aligned(st.h) && mode.limit.None? && Readable(r, mode)
    requires st.pending.None? && st.skipBlanks == !mode.stamped
    ensures LoadLines(st, RecordLines(r), mode) == Read(st, r, mode)
  {
    hide LoadLines, LoadLine, LooksLikeStamp, Blanks;
    var line := [r.first] + r.more;
    StampLines(st, r.stamps, Blanks(r.blanks) + line, mode);
    var ready := if r.stamps == [] then st else st.(pending := Some(r.stamps[|r.stamps| - 1]), skipBlanks := true);
    BlankLines(ready, r.blanks, line, mode);
    LoadOne(ready, r.first, r.more, mode);
    FirstLine(ready, r.first, mode);
    var st1 := Loading(Push(st.h, r.first, StampOf(r, st.count, mode)), None, !mode.stamped, st.count + 1);
    if mode.stamped {
      MoreLines(st1, r.more, mode);
      LastEntry(st.h.entries, r.first, TextOf(r));
    } else {
      NoLines(st1, mode);
    }
  }

  lemma LastEntry(entries: seq<string>, first: string, text: string)
    ensures var all := entries + [first];
            all[|all| - 1] == first && all[|all| - 1 := text] == entries + [text]
  {
  }

  lemma NoLines(st: Loading, mode: LoadMode)
    requires Aligned(st.h)
    ensures LoadLines(st, [], mode) == st
  {
  }

  // -------------------------------------------------------------------------- whole files

  /** The list after some records. */
  function ReadAll(st: Loading, rs: seq<Record>, mode: LoadMode): Loading
    requires Aligned(st.h)
  {
    Loading(st.h.(entries := st.h.entries + TextsOfRecords(rs), stamps := st.h.stamps + StampsOf(rs, st.count, mode)),
            None, !mode.stamped, st.count + |rs|)
  }

  lemma RecordsStep(rs: seq<Record>, k: nat, mode: LoadMode)
    requires rs != []
    ensures TextsOfRecords(rs) == [TextOf(rs[0])] + TextsOfRecords(rs[1..])
    ensures StampsOf(rs, k, mode) == [StampOf(rs[0], k, mode)] + StampsOf(rs[1..], k + 1, mode)
  {
  }

  lemma ReadOneThenAll(st: Loading, rs: seq<Record>, mode: LoadMode)
    requires Aligned(st.h) && rs != []
    ensures Aligned(Read(st, rs[0], mode).h)
    ensures ReadAll(Read(st, rs[0], mode), rs[1..], mode) == ReadAll(st, rs, mode)
  {
    hide TextOf, StampOf, TextsOfRecords, StampsOf;
    RecordsStep(rs, st.count, mode);
    Assoc(st.h.entries, [TextOf(rs[0])], TextsOfRecords(rs[1..]));
    Assoc(st.h.stamps, [StampOf(rs[0], st.count, mode)], StampsOf(rs[1..], st.count + 1, mode));
  }

  lemma ReadNothing(st: Loading, mode: LoadMode)
    requires Aligned(st.h) && st.pending.None? && st.skipBlanks == !mode.stamped
    ensures ReadAll(st, [], mode) == st
  {
    assert st.h.entries + [] == st.h.entries && st.h.stamps + [] == st.h.stamps;
  }

  lemma {:induction false} RecordsLoad(st: Loading, rs: seq<Record>, mode: LoadMode)
    requires Aligned(st.h) && mode.limit.None? && AllReadable(rs, mode)
    requires st.pending.None? && st.skipBlanks == !mode.stamped
    ensures LoadLines(st, AllLines(rs), mode) == ReadAll(st, rs, mode)
    decreases |rs|
  {
    hide LoadLines, RecordLines, Readable, TextOf, StampOf, ReadAll;
    if rs == [] {
      NoLines(st, mode);
      ReadNothing(st, mode);
    } else {
      LoadLinesConcat(st, RecordLines(rs[0]), AllLines(rs[1..]), mode);
      RecordLoads(st, rs[0], mode);
      ReadOneThenAll(st, rs, mode);
      RecordsLoad(Read(st, rs[0], mode), rs[1..], mode);
    }
  }

  /** A file of records, with blank lines behind them when it has no stamps, is loaded as one entry for each, in
      order and with its stamp; nothing that was in the list changes. */
  lemma FileIsItsRecords(h: Hist, content: string, rs: seq<Record>, blanks: nat, armed: bool, now: nat -> string)
    requires Aligned(h)
    requires var mode := ModeFor(content, armed, None, now);
             && Lines(content) == AllLines(rs) + Blanks(blanks) && AllReadable(rs, mode)
             && (mode.stamped ==> blanks == 0)
    ensures var mode, r := ModeFor(content, armed, None, now), Load(h, content, None, armed, now);
            && r.h == h.(entries := h.entries + TextsOfRecords(rs), stamps := h.stamps + StampsOf(rs, 0, mode))
            && r.count == |rs|
  {
    hide LoadLines, RecordLines, Readable, TextOf, StampOf, Lines, AllLines, LooksLikeStamp, Blanks, AllReadable;
    var mode := ModeFor(content, armed, None, now);
    var st := StartLoad(h, mode);
    RecordsLoad(st, rs, mode);
    LoadLinesConcat(st, AllLines(rs), Blanks(blanks), mode);
    var loaded := LoadLines(st, AllLines(rs), mode);
    NoLines(loaded, mode);
    if mode.stamped {
      NoBlanks();
    } else {
      BlankLines(loaded, blanks, [], mode);
      assert Blanks(blanks) + [] == Blanks(blanks);
    }
  }

  lemma NoBlanks()
    ensures Blanks(0) == []
  {
  }

  function NonBlank(lines: seq<string>): seq<string> {
    if lines == [] then []
    else if lines[0] == "" then NonBlank(lines[1..])
    else [lines[0]] + NonBlank(lines[1..])
  }

  function NoStamps(n: nat): (r: seq<string>)
    ensures |r| == n
  {
    if n == 0 then [] else [""] + NoStamps(n - 1)
  }

  lemma {:induction false} PlainLoads(st: Loading, lines: seq<string>, mode: LoadMode)
    requires Aligned(st.h) && mode.limit.None? && !mode.active && !mode.stamped
    requires st.pending.None? && st.skipBlanks
    ensures var r := NonBlank(lines);
            LoadLines(st, lines, mode).h ==
            st.h.(entries := st.h.entries + r, stamps := st.h.stamps + NoStamps(|r|))
    decreases |lines|
  {
    hide LoadLines, LoadLine, LooksLikeStamp;
    if lines == [] {
      NoLines(st, mode);
      assert st.h.entries + [] == st.h.entries && st.h.stamps + [] == st.h.stamps;
    } else {
      var line, rest := lines[0], lines[1..];
      assert lines == [line] + rest;
      LoadOne(st, line, rest, mode);
      if line == "" {
        BlankStays(st, mode);
        PlainLoads(st, rest, mode);
      } else {
        FirstLine(st, line, mode);
        PlainLoads(LoadLine(st, line, mode), rest, mode);
        Assoc(st.h.entries, [line], NonBlank(rest));
        Assoc(st.h.stamps, [""], NoStamps(|NonBlank(rest)|));
      }
    }
  }

  lemma BlankStays(st: Loading, mode: LoadMode)
    requires Aligned(st.h) && st.skipBlanks
    ensures LoadLine(st, "", mode) == st
  {
  }

  /** Any file that does not begin with a stamp, read when stamps are not in use, is its lines that are not blank,
      whatever they look like. */
  lemma PlainFileIsItsLines(h: Hist, content: string, now: nat -> string)
    requires Aligned(h) && (Lines(content) != [] ==> !LooksLikeStamp(Lines(content)[0]))
    ensures var r := NonBlank(Lines(content));
            Load(h, content, None, false, now).h ==
            h.(entries := h.entries + r, stamps := h.stamps + NoStamps(|r|))
  {
    hide LoadLines, Lines, LooksLikeStamp, NonBlank;
    var mode := ModeFor(content, false, None, now);
    PlainLoads(StartLoad(h, mode), Lines(content), mode);
  }
}
