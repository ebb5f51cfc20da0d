/**
 The session history list as a value, and what recording, stifling, loading, appending and
 truncating do to it and to the history file (src/history.rs). A file is its text; the
 clock is a parameter.
 */
module HistorySpec {
  import opened Wrappers
  import opened HistoryText
  import opened TextSlices

  /** `entries[i]` has list number `base + i`; `session` counts the lines recorded since the
      last append. */
  datatype Hist = Hist(entries: seq<string>, stamps: seq<string>, base: nat, session: nat)

  predicate Aligned(h: Hist) { |h.entries| == |h.stamps| }

  const EMPTY := Hist([], [], 1, 0)

  function Excess(n: nat, limit: Option<nat>): nat {
    if limit.Some? && n > limit.value then n - limit.value else 0
  }

  /** `stifle`: keep the newest entries, moving the base past the others. */
  function Stifle(h: Hist, limit: Option<nat>): (r: Hist)
    requires Aligned(h)
    ensures Aligned(r) && r.base + |r.entries| == h.base + |h.entries|
    ensures limit.Some? ==> |r.entries| <= limit.value
  {
    var k := Excess(|h.entries|, limit);
    h.(entries := h.entries[k..], stamps := h.stamps[k..], base := h.base + k)
  }

  function Push(h: Hist, entry: string, stamp: string): (r: Hist)
    requires Aligned(h)
    ensures Aligned(r)
  {
    h.(entries := h.entries + [entry], stamps := h.stamps + [stamp])
  }

  // -------------------------------------------------------------------- recording

  /** One call of `record`: the line, the stamp of the clock, whether the line is blank or
      matches HISTIGNORE, the HISTCONTROL flags and HISTSIZE. */
  datatype Call = Call(line: string, stamp: string, rejected: bool, ignoreSpace: bool, ignoreDups: bool,
                       eraseDups: bool, limit: Option<nat>)

  predicate Accepted(h: Hist, c: Call) {
    && !c.rejected
    && !(c.ignoreSpace && c.line != "" && (c.line[0] == ' ' || c.line[0] == '\t'))
    && !(c.ignoreDups && h.entries != [] && h.entries[|h.entries| - 1] == c.line)
  }

  /** Entries other than `line`, with their stamps. */
  function Without(entries: seq<string>, stamps: seq<string>, line: string): (r: (seq<string>, seq<string>))
    requires |entries| == |stamps|
    ensures |r.0| == |r.1| <= |entries|
    ensures line !in r.0
    ensures line !in entries ==> r == (entries, stamps)
    ensures line in entries ==> |r.0| < |entries|
  {
    if entries == [] then ([], [])
    else
      var n := |entries| - 1;
      var rest := Without(entries[..n], stamps[..n], line);
      assert entries == entries[..n] + [entries[n]] && stamps == stamps[..n] + [stamps[n]];
      if entries[n] == line then rest else (rest.0 + [entries[n]], rest.1 + [stamps[n]])
  }

  /** Positions of the entries other than `line`, in order. */
  function Others(entries: seq<string>, line: string): (r: seq<nat>)
    ensures forall k :: 0 <= k < |r| ==> r[k] < |entries|
  {
    if entries == [] then []
    else
      var n := |entries| - 1;
      var rest := Others(entries[..n], line);
      if entries[n] == line then rest else rest + [n]
  }

  lemma {:induction false} OthersAreInOrder(entries: seq<string>, line: string)
    ensures forall j: nat :: j in Others(entries, line) <==> j < |entries| && entries[j] != line
    ensures forall j, k :: 0 <= j < k < |Others(entries, line)| ==> Others(entries, line)[j] < Others(entries, line)[k]
  {
    if entries != [] {
      var n := |entries| - 1;
      OthersAreInOrder(entries[..n], line);
    }
  }

  /** `r` is `s` at the positions `kept`. */
  predicate Picks(r: seq<string>, s: seq<string>, kept: seq<nat>) {
    |r| == |kept| && forall k :: 0 <= k < |kept| ==> kept[k] < |s| && r[k] == s[kept[k]]
  }

  lemma PicksMore(r: seq<string>, s: seq<string>, kept: seq<nat>)
    requires s != [] && Picks(r, s[..|s| - 1], kept)
    ensures Picks(r, s, kept) && Picks(r + [s[|s| - 1]], s, kept + [|s| - 1])
  {
  }

  /** Erasing a line leaves exactly the other entries, in their order and with their stamps. */
  lemma {:induction false} WithoutKeepsTheOthers(entries: seq<string>, stamps: seq<string>, line: string)
    requires |entries| == |stamps|
    ensures var r, kept := Without(entries, stamps, line), Others(entries, line);
            Picks(r.0, entries, kept) && Picks(r.1, stamps, kept)
  {
    hide Without, Others, Picks;
    if entries == [] {
      NothingWithout(line);
      NothingPicked();
    } else {
      var n := |entries| - 1;
      var rest, kept := Without(entries[..n], stamps[..n], line), Others(entries[..n], line);
      WithoutLast(entries, stamps, line);
      WithoutKeepsTheOthers(entries[..n], stamps[..n], line);
      PicksMore(rest.0, entries, kept);
      PicksMore(rest.1, stamps, kept);
    }
  }

  lemma NothingPicked()
    ensures Picks([], [], [])
  {
  }

  lemma NothingWithout(line: string)
    ensures Without([], [], line) == ([], []) && Others([], line) == []
  {
  }

  lemma WithoutLast(entries: seq<string>, stamps: seq<string>, line: string)
    requires |entries| == |stamps| > 0
    ensures var n := |entries| - 1;
            var rest, kept := Without(entries[..n], stamps[..n], line), Others(entries[..n], line);
            if entries[n] == line then Without(entries, stamps, line) == rest && Others(entries, line) == kept
            else Without(entries, stamps, line) == (rest.0 + [entries[n]], rest.1 + [stamps[n]])
                 && Others(entries, line) == kept + [n]
  {
  }

  function Record(h: Hist, c: Call): (r: Hist)
    requires Aligned(h)
    ensures Aligned(r)
  {
    if !Accepted(h, c) then h
    else
      var (entries, stamps) := if c.eraseDups then Without(h.entries, h.stamps, c.line) else (h.entries, h.stamps);
      var kept := Stifle(Push(h.(entries := entries, stamps := stamps), c.line, c.stamp), c.limit);
      kept.(session := h.session + 1)
  }

  // ----------------------------------------------------------------------- loading

  datatype Loading = Loading(h: Hist, pending: Option<string>, skipBlanks: bool, count: nat)

  /** How a load reads its file: whether it starts with a stamp, whether stamp lines are
      stamps at all, HISTSIZE, and the clock: its stamp when the k-th entry is added. */
  datatype LoadMode = LoadMode(stamped: bool, active: bool, limit: Option<nat>, now: nat -> string)

  function AppendToLast(h: Hist, line: string): (r: Hist)
    requires Aligned(h) && h.entries != []
    ensures Aligned(r)
  {
    var n := |h.entries| - 1;
    h.(entries := h.entries[n := h.entries[n] + ['\n'] + line])
  }

  function LoadLine(st: Loading, line: string, mode: LoadMode): (r: Loading)
    requires Aligned(st.h)
    ensures Aligned(r.h)
  {
    if mode.active && LooksLikeStamp(line) then
      st.(pending := Some(line), skipBlanks := true)
    else if line == "" && st.skipBlanks then
      st
    else if st.pending.None? && mode.stamped && st.h.entries != [] then
      Loading(AppendToLast(st.h, line), None, !mode.stamped, st.count)
    else
      var stamp := if st.pending.Some? then st.pending.value else if mode.active then mode.now(st.count) else "";
      Loading(Stifle(Push(st.h, line, stamp), mode.limit), None, !mode.stamped, st.count + 1)
  }

  function LoadLines(st: Loading, lines: seq<string>, mode: LoadMode): (r: Loading)
    requires Aligned(st.h)
    ensures Aligned(r.h)
    decreases |lines|
  {
    if lines == [] then st else LoadLines(LoadLine(st, lines[0], mode), lines[1..], mode)
  }

  function ModeFor(content: string, armed: bool, limit: Option<nat>, now: nat -> string): LoadMode {
    var lines := Lines(content);
    var stamped := lines != [] && LooksLikeStamp(lines[0]);
    LoadMode(stamped, armed || stamped, limit, now)
  }

  function StartLoad(h: Hist, mode: LoadMode): Loading { Loading(h, None, !mode.stamped, 0) }

  /** `load_file_with_arming`. */
  function Load(h: Hist, content: string, limit: Option<nat>, armed: bool, now: nat -> string): (r: Loading)
    requires Aligned(h)
    ensures Aligned(r.h)
  {
    var mode := ModeFor(content, armed, limit, now);
    LoadLines(StartLoad(h, mode), Lines(content), mode)
  }

  // --------------------------------------------------------------------- the file

  /** `append_file`: the text appended, and the list after it. */
  function Unflushed(h: Hist): (n: nat)
    ensures n <= |h.entries|
  {
    if h.session < |h.entries| then h.session else |h.entries|
  }

  function AppendedText(h: Hist, withStamps: bool): string
    requires Aligned(h)
  {
    var start := |h.entries| - Unflushed(h);
    WrittenText(h.entries[start..], h.stamps[start..], withStamps)
  }

  /** Lines that count toward a truncation limit. */
  function Commands(lines: seq<string>, withStamps: bool): (n: nat)
    ensures n <= |lines|
  {
    if lines == [] then 0
    else (if withStamps && LooksLikeStamp(lines[0]) then 0 else 1) + Commands(lines[1..], withStamps)
  }

  /** Position of the n-th command line from the end. */
  function FirstKept(lines: seq<string>, n: nat, withStamps: bool): (f: nat)
    requires 1 <= n <= Commands(lines, withStamps)
    ensures f < |lines| && !(withStamps && LooksLikeStamp(lines[f])) && Commands(lines[f..], withStamps) == n
  {
    if Commands(lines, withStamps) == n && !(withStamps && LooksLikeStamp(lines[0])) then 0
    else
      var f := FirstKept(lines[1..], n, withStamps);
      assert lines[1..][f..] == lines[1 + f..];
      1 + f
  }

  /** Where the kept tail starts: at that line, or at its stamp line. */
  function TruncateStart(lines: seq<string>, n: nat, withStamps: bool): (s: nat)
    requires 1 <= n <= Commands(lines, withStamps)
    ensures s < |lines|
  {
    var f := FirstKept(lines, n, withStamps);
    if f > 0 && withStamps && LooksLikeStamp(lines[f - 1]) then f - 1 else f
  }

  /** The byte offset the program computes for line `k`: a line's text and one more. */
  function OffsetOf(lines: seq<string>, k: nat): nat
    requires k <= |lines|
  {
    if k == 0 then 0 else OffsetOf(lines, k - 1) + ByteLen(lines[k - 1]) + 1
  }

  /** Characters before raw line `k`. */
  function RawOffset(raws: seq<string>, k: nat): nat
    requires k <= |raws|
  {
    if k == 0 then 0 else RawOffset(raws, k - 1) + |raws[k - 1]|
  }

  lemma {:induction false} RawLinesCover(content: string)
    ensures RawOffset(RawLines(content), |RawLines(content)|) == |content|
    ensures forall i :: 0 <= i < |RawLines(content)| - 1 ==> EndsInNewline(RawLines(content)[i])
    decreases |content|
  {
    if content != "" {
      var k := FirstLineLength(content);
      var raws, rest := RawLines(content), RawLines(content[k..]);
      RawLinesCover(content[k..]);
      assert raws == [content[..k]] + rest;
      RawOffsetShift(raws, |raws|);
      assert raws[1..] == rest;
    }
  }

  lemma {:induction false} RawOffsetShift(raws: seq<string>, k: nat)
    requires 1 <= k <= |raws|
    ensures RawOffset(raws, k) == |raws[0]| + RawOffset(raws[1..], k - 1)
  {
    if k > 1 {
      RawOffsetShift(raws, k - 1);
    }
  }

  lemma {:induction false} RawOffsetMonotone(raws: seq<string>, j: nat, k: nat)
    requires j <= k <= |raws|
    ensures RawOffset(raws, j) <= RawOffset(raws, k)
    decreases k
  {
    if j < k {
      RawOffsetMonotone(raws, j, k - 1);
    }
  }

  predicate EndsInNewline(raw: string) { raw != "" && raw[|raw| - 1] == '\n' }

  /** `truncate_file`: the text kept, or nothing when the offset cuts a character and the slice panics. */
  function Truncate(content: string, n: nat, withStamps: bool): Option<string> {
    var lines := Lines(content);
    if n == 0 then Some("")
    else if Commands(lines, withStamps) <= n then Some(content)
    else SliceFrom(content, OffsetOf(lines, TruncateStart(lines, n, withStamps)))
  }

  // --------------------------------------------------------------- numbered events

  /** The snapshot lookup: the line numbered `offset`. */
  function Lookup(base: nat, lines: seq<string>, offset: nat): Option<string> {
    if offset >= base && offset - base < |lines| then Some(lines[offset - base]) else None
  }

  /** `!n` and `!-n`. */
  function NumberedEvent(base: nat, lines: seq<string>, n: nat, fromEnd: bool): Option<string> {
    if !fromEnd then Lookup(base, lines, n)
    else if n >= |lines| + base then None
    else Lookup(base, lines, |lines| + base - n)
  }
}
