/**
 What recording refuses and what it keeps of the list, over one call and over any run of calls.
 */
module HistoryRecords {
  import opened Wrappers
  import opened HistorySpec
  import opened HistoryText
  import opened HistoryControl

  ghost predicate Leads(line: string) { exists rest :: line == " " + rest || line == "\t" + rest }

  /** Recording leaves the list as it is exactly when the line is blank or matched by HISTIGNORE, starts with
      a space or a tab under ignorespace, or is the newest line again under ignoredups. */
  lemma RecordRefusesExactlyWhen(h: Hist, c: Call)
    requires Aligned(h)
    ensures Record(h, c) == h <==>
            || c.rejected
            || (c.ignoreSpace && Leads(c.line))
            || (c.ignoreDups && exists older: seq<string> :: h.entries == older + [c.line])
  {
    hide Without, Stifle, Push;
    assert Record(h, c) == h <==> !Accepted(h, c);
    if c.line != "" && (c.line[0] == ' ' || c.line[0] == '\t') {
      assert c.line == [c.line[0]] + c.line[1..];
      assert Leads(c.line);
    }
    if older: seq<string> :| h.entries == older + [c.line] {
      assert h.entries[|h.entries| - 1] == c.line;
    }
    if h.entries != [] && h.entries[|h.entries| - 1] == c.line {
      var n := |h.entries| - 1;
      assert h.entries == h.entries[..n] + [c.line];
    }
  }

  /** Any other line becomes the newest, with its stamp, unless HISTSIZE keeps no line at all. */
  lemma RecordedIsNewest(h: Hist, c: Call)
    requires Aligned(h) && Record(h, c) != h
    ensures var r := Record(h, c);
            && r.session == h.session + 1
            && (c.limit == Some(0) ==> r.entries == [])
            && (c.limit != Some(0) ==>
                 exists older, olderStamps: seq<string> ::
                   |older| == |olderStamps| && r.entries == older + [c.line] && r.stamps == olderStamps + [c.stamp])
  {
    hide Without;
    var r := Record(h, c);
    var (entries, stamps) := if c.eraseDups then Without(h.entries, h.stamps, c.line) else (h.entries, h.stamps);
    var all, allStamps := entries + [c.line], stamps + [c.stamp];
    var k := Excess(|all|, c.limit);
    assert r.entries == all[k..] && r.stamps == allStamps[k..];
    if c.limit != Some(0) {
      assert all[k..] == entries[k..] + [c.line] && allStamps[k..] == stamps[k..] + [c.stamp];
    }
  }

  // ------------------------------------------------------------------------ runs

  function RecordAll(h: Hist, calls: seq<Call>): (r: Hist)
    requires Aligned(h)
    ensures Aligned(r)
  {
    if calls == [] then h
    else Record(RecordAll(h, calls[..|calls| - 1]), calls[|calls| - 1])
  }

  predicate NoneTwiceRunning(entries: seq<string>) { forall k :: 0 < k < |entries| ==> entries[k - 1] != entries[k] }

  predicate NoneTwice(entries: seq<string>) { forall j, k :: 0 <= j < k < |entries| ==> entries[j] != entries[k] }

  ghost predicate NoneLeads(entries: seq<string>) { forall k :: 0 <= k < |entries| ==> !Leads(entries[k]) }

  lemma TailOfList(entries: seq<string>, k: nat)
    requires k <= |entries|
    ensures NoneTwiceRunning(entries) ==> NoneTwiceRunning(entries[k..])
    ensures NoneTwice(entries) ==> NoneTwice(entries[k..])
    ensures NoneLeads(entries) ==> NoneLeads(entries[k..])
  {
    hide Leads;
    var tail := entries[k..];
    assert forall j :: 0 <= j < |tail| ==> tail[j] == entries[k + j];
    if NoneTwiceRunning(entries) {
      forall j | 0 < j < |tail| ensures tail[j - 1] != tail[j] {
        assert entries[k + j - 1] != entries[k + j];
      }
    }
  }

  /** The list after a recorded line: the end of what was kept with the line behind it. */
  lemma RecordedIsTail(h: Hist, c: Call)
    requires Aligned(h) && Accepted(h, c)
    ensures var kept := if c.eraseDups then Without(h.entries, h.stamps, c.line).0 else h.entries;
            var k := Excess(|kept| + 1, c.limit);
            k <= |kept| + 1 && Record(h, c).entries == (kept + [c.line])[k..]
  {
    hide Without;
  }

  /** Under ignoredups without erasedups, no line ever stands twice running in the list. */
  lemma {:induction false} DupsAreIgnored(h: Hist, calls: seq<Call>)
    requires Aligned(h) && NoneTwiceRunning(h.entries)
    requires forall c :: c in calls ==> c.ignoreDups && !c.eraseDups
    ensures NoneTwiceRunning(RecordAll(h, calls).entries)
    decreases |calls|
  {
    hide Record, Accepted;
    if calls != [] {
      var c, before := calls[|calls| - 1], RecordAll(h, calls[..|calls| - 1]);
      DupsAreIgnored(h, calls[..|calls| - 1]);
      if Accepted(before, c) {
        RecordedIsTail(before, c);
        AcceptedIsAnother(before, c);
        TailOfList(before.entries + [c.line], Excess(|before.entries| + 1, c.limit));
      } else {
        RefusedStays(before, c);
      }
    }
  }

  lemma AcceptedIsAnother(h: Hist, c: Call)
    requires Accepted(h, c) && c.ignoreDups && NoneTwiceRunning(h.entries)
    ensures NoneTwiceRunning(h.entries + [c.line])
  {
  }

  lemma RefusedStays(h: Hist, c: Call)
    requires Aligned(h) && !Accepted(h, c)
    ensures Record(h, c) == h
  {
  }

  /** Under erasedups no line ever stands twice in the list. */
  lemma {:induction false} DupsAreErased(h: Hist, calls: seq<Call>)
    requires Aligned(h) && NoneTwice(h.entries)
    requires forall c :: c in calls ==> c.eraseDups
    ensures NoneTwice(RecordAll(h, calls).entries)
    decreases |calls|
  {
    hide Record, Without, Accepted;
    if calls != [] {
      var c, before := calls[|calls| - 1], RecordAll(h, calls[..|calls| - 1]);
      DupsAreErased(h, calls[..|calls| - 1]);
      if Accepted(before, c) {
        RecordedIsTail(before, c);
        var kept := Without(before.entries, before.stamps, c.line).0;
        KeptOnce(before.entries, before.stamps, c.line);
        TailOfList(kept + [c.line], Excess(|kept| + 1, c.limit));
      } else {
        RefusedStays(before, c);
      }
    }
  }

  /** What is left when a line is erased has no line twice, and not that one. */
  lemma KeptOnce(entries: seq<string>, stamps: seq<string>, line: string)
    requires |entries| == |stamps| && NoneTwice(entries)
    ensures NoneTwice(Without(entries, stamps, line).0 + [line])
  {
    hide Without, Others;
    var r, kept := Without(entries, stamps, line).0, Others(entries, line);
    WithoutKeepsTheOthers(entries, stamps, line);
    OthersAreInOrder(entries, line);
    forall j, k | 0 <= j < k < |r| + 1 ensures (r + [line])[j] != (r + [line])[k] {
      if k < |r| {
        assert kept[j] < kept[k];
      } else {
        assert kept[j] in Others(entries, line);
      }
    }
  }

  /** Under ignorespace no line that starts with a space or a tab ever comes into the list. */
  lemma {:induction false} LeadingSpaceIsIgnored(h: Hist, calls: seq<Call>)
    requires Aligned(h) && NoneLeads(h.entries)
    requires forall c :: c in calls ==> c.ignoreSpace
    ensures NoneLeads(RecordAll(h, calls).entries)
    decreases |calls|
  {
    hide Record, Without, Leads, Accepted;
    if calls != [] {
      var c, before := calls[|calls| - 1], RecordAll(h, calls[..|calls| - 1]);
      LeadingSpaceIsIgnored(h, calls[..|calls| - 1]);
      if Accepted(before, c) {
        RecordedIsTail(before, c);
        var kept := if c.eraseDups then Without(before.entries, before.stamps, c.line).0 else before.entries;
        KeptAreEntries(before.entries, before.stamps, c.line);
        AcceptedDoesNotLead(before, c);
        assert NoneLeads(kept + [c.line]);
        TailOfList(kept + [c.line], Excess(|kept| + 1, c.limit));
      } else {
        RefusedStays(before, c);
      }
    }
  }

  lemma AcceptedDoesNotLead(h: Hist, c: Call)
    requires Accepted(h, c) && c.ignoreSpace
    ensures !Leads(c.line)
  {
    assert forall rest: string :: (" " + rest)[0] == ' ';
    assert forall rest: string :: ("\t" + rest)[0] == '\t';
  }

  lemma KeptAreEntries(entries: seq<string>, stamps: seq<string>, line: string)
    requires |entries| == |stamps|
    ensures NoneLeads(entries) ==> NoneLeads(Without(entries, stamps, line).0)
  {
    hide Without, Others, Leads;
    WithoutKeepsTheOthers(entries, stamps, line);
  }

  // ----------------------------------------------------------------- HISTCONTROL as it is written

  /** One part of HISTCONTROL: a word between white space. */
  datatype Part = Part(before: string, word: string, after: string)

  function PartText(p: Part): string { p.before + p.word + p.after }

  ghost predicate GoodPart(p: Part, isWhite: char -> bool) {
    && p.word != "" && !isWhite(p.word[0]) && !isWhite(p.word[|p.word| - 1])
    && (forall c :: c in p.before ==> isWhite(c)) && (forall c :: c in p.after ==> isWhite(c))
    && ':' !in PartText(p)
  }

  /** The parts with colons between them. */
  function Colons(parts: seq<Part>): string
    requires parts != []
  {
    if |parts| == 1 then PartText(parts[0]) else PartText(parts[0]) + ":" + Colons(parts[1..])
  }

  function Texts(parts: seq<Part>): (r: seq<string>)
    ensures |r| == |parts| && forall k :: 0 <= k < |parts| ==> r[k] == PartText(parts[k])
  {
    if parts == [] then [] else [PartText(parts[0])] + Texts(parts[1..])
  }

  predicate Names(parts: seq<Part>, word: string) { exists k :: 0 <= k < |parts| && parts[k].word == word }

  lemma {:induction false} SplitPart(a: string, rest: string)
    requires ':' !in a
    ensures Split(a, ':') == [a] && Split(a + ":" + rest, ':') == [a] + Split(rest, ':')
    decreases |a|
  {
    var all := a + ":" + rest;
    if a == "" {
      assert all[1..] == rest;
    } else {
      assert all[0] == a[0] && all[1..] == a[1..] + ":" + rest && a == [a[0]] + a[1..];
      SplitPart(a[1..], rest);
      assert Split(all, ':') == [[a[0]] + a[1..]] + ([a[1..]] + Split(rest, ':'))[1..];
    }
  }

  lemma {:induction false} SplitColons(parts: seq<Part>)
    requires parts != [] && forall k :: 0 <= k < |parts| ==> ':' !in PartText(parts[k])
    ensures Split(Colons(parts), ':') == Texts(parts)
    decreases |parts|
  {
    hide Split, PartText;
    if |parts| == 1 {
      SplitPart(PartText(parts[0]), "");
      assert Texts(parts[1..]) == [];
    } else {
      SplitPart(PartText(parts[0]), Colons(parts[1..]));
      SplitColons(parts[1..]);
    }
  }

  /** The word stands between white space and begins and ends with something else. */
  lemma PartStands(p: Part, isWhite: char -> bool)
    requires GoodPart(p, isWhite)
    ensures var s, n, e := PartText(p), |p.before|, |p.before| + |p.word|;
            && n < e <= |s| && s[n..e] == p.word && !isWhite(s[n]) && !isWhite(s[e - 1])
            && forall k :: 0 <= k < n || e <= k < |s| ==> isWhite(s[k])
  {
    var s, n, e := PartText(p), |p.before|, |p.before| + |p.word|;
    assert s[..n] == p.before && s[n..e] == p.word && s[e..] == p.after;
    forall k | 0 <= k < n || e <= k < |s| ensures isWhite(s[k]) {
      assert s[k] == if k < n then p.before[k] else p.after[k - e];
    }
  }

  lemma OneStandsSo(s: string, r: string, a: nat, n: nat, e: nat, isWhite: char -> bool)
    requires n < e <= |s| && !isWhite(s[n]) && !isWhite(s[e - 1])
    requires forall k :: 0 <= k < n || e <= k < |s| ==> isWhite(s[k])
    requires StandsAt(s, r, a, isWhite) && r != "" && !isWhite(r[0]) && !isWhite(r[|r| - 1])
    ensures r == s[n..e]
  {
    assert r[0] == s[a] && r[|r| - 1] == s[a + |r| - 1];
    assert a == n && a + |r| == e;
  }

  lemma TrimmedPart(p: Part, isWhite: char -> bool)
    requires GoodPart(p, isWhite)
    ensures Trim(PartText(p), isWhite) == p.word
  {
    hide Trim, GoodPart, PartText;
    var s := PartText(p);
    var r := Trim(s, isWhite);
    PartStands(p, isWhite);
    TrimmedText(s, isWhite);
    assert s[|p.before|] in s;
    var a: nat :| StandsAt(s, r, a, isWhite);
    OneStandsSo(s, r, a, |p.before|, |p.before| + |p.word|, isWhite);
  }

  lemma AskedIsNamed(parts: seq<Part>, word: string, isWhite: char -> bool)
    requires forall k :: 0 <= k < |parts| ==> GoodPart(parts[k], isWhite)
    ensures Asks(Texts(parts), word, isWhite) <==> Names(parts, word)
  {
    hide Trim, GoodPart, PartText;
    forall k | 0 <= k < |parts| ensures Trim(Texts(parts)[k], isWhite) == parts[k].word {
      TrimmedPart(parts[k], isWhite);
    }
  }

  lemma ControlsMean(parts: seq<Part>, isWhite: char -> bool)
    requires parts != [] && forall k :: 0 <= k < |parts| ==> GoodPart(parts[k], isWhite)
    ensures ControlsOf(Split(Colons(parts), ':'), isWhite) ==
            Controls(Names(parts, "ignorespace") || Names(parts, "ignoreboth"),
                     Names(parts, "ignoredups") || Names(parts, "ignoreboth"), Names(parts, "erasedups"))
  {
    assert forall k :: 0 <= k < |parts| ==> ':' !in PartText(parts[k]);
    hide Split, Colons, Asks, Names, GoodPart, PartText;
    SplitColons(parts);
    AskedIsNamed(parts, "ignorespace", isWhite);
    AskedIsNamed(parts, "ignoredups", isWhite);
    AskedIsNamed(parts, "ignoreboth", isWhite);
    AskedIsNamed(parts, "erasedups", isWhite);
  }

  /** What HISTCONTROL refuses, read off its words: under ignorespace or ignoreboth a line with a space or a tab in
      front, under ignoredups or ignoreboth the newest line again; and any line of white space or in HISTIGNORE. */
  lemma RefusedExactlyWhen(h: Hist, line: string, parts: seq<Part>, histignore: string, histsize: Option<nat>,
                           isWhite: char -> bool, stamp: string, previous: Option<string>)
    requires Aligned(h) && parts != [] && forall k :: 0 <= k < |parts| ==> GoodPart(parts[k], isWhite)
    ensures Record(h, CallFor(line, Colons(parts), histignore, histsize, isWhite, stamp, previous)) == h <==>
            || (forall c :: c in line ==> isWhite(c))
            || Ignored(line, histignore, isWhite, previous)
            || ((Names(parts, "ignorespace") || Names(parts, "ignoreboth")) && Leads(line))
            || ((Names(parts, "ignoredups") || Names(parts, "ignoreboth"))
                && exists older: seq<string> :: h.entries == older + [line])
  {
    hide Split, Colons, Trim, Ignored, Names, Leads, GoodPart, Record, ControlsOf;
    ControlsMean(parts, isWhite);
    TrimmedText(line, isWhite);
    RecordRefusesExactlyWhen(h, CallFor(line, Colons(parts), histignore, histsize, isWhite, stamp, previous));
  }
}
