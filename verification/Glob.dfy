/**
 The HISTIGNORE glob matcher (src/history.rs): a backtracking walk over pattern and text,
 proved to accept exactly the language of the pattern, in the notation of section 2.13 of
 the Shell Command Language of POSIX.1-2017.
 */
module Glob {
  /** One character, or a range, of a bracket expression. */
  datatype Range = Range(lo: char, hi: char)

  datatype Item =
    | Star
    | Any
    | Bracket(negated: bool, ranges: seq<Range>)
    | Literal(c: char)

  // ----------------------------------------------------------------- the language

  predicate InRanges(ranges: seq<Range>, c: char) {
    exists k :: 0 <= k < |ranges| && ranges[k].lo <= c <= ranges[k].hi
  }

  predicate MatchesOne(item: Item, c: char) {
    match item
    case Star => false
    case Any => true
    case Bracket(negated, ranges) => InRanges(ranges, c) != negated
    case Literal(l) => c == l
  }

  /** The texts a pattern stands for: a star splits the text anywhere, every other item
      takes one character. */
  ghost predicate Language(items: seq<Item>, text: string)
    decreases |items|
  {
    if items == [] then text == ""
    else if items[0].Star? then exists k :: 0 <= k <= |text| && Language(items[1..], text[k..])
    else text != "" && MatchesOne(items[0], text[0]) && Language(items[1..], text[1..])
  }

  // ------------------------------------------------------------------ the notation

  /** The members of a bracket expression from `j` on, and the index of its closing
      bracket; the pattern's end when there is none. A `]` standing first is a member. */
  function Members(p: string, j: nat, first: bool): (r: (seq<Range>, nat))
    requires j <= |p|
    ensures j <= r.1 <= |p|
    ensures r.1 < |p| ==> p[r.1] == ']' && (first ==> j < r.1)
    decreases |p| - j
  {
    if j < |p| && (p[j] != ']' || first) then
      var step := if IsRangeAt(p, j) then 3 else 1;
      var member := if IsRangeAt(p, j) then Range(p[j], p[j + 2]) else Range(p[j], p[j]);
      var rest := Members(p, j + step, false);
      ([member] + rest.0, rest.1)
    else
      ([], j)
  }

  predicate IsRangeAt(p: string, j: nat) { j + 2 < |p| && p[j + 1] == '-' && p[j + 2] != ']' }

  predicate NegatedAt(p: string, i: nat) { i + 1 < |p| && (p[i + 1] == '!' || p[i + 1] == '^') }

  function MembersFrom(p: string, i: nat): (r: nat)
    requires i < |p|
    ensures i < r <= |p|
  {
    if NegatedAt(p, i) then i + 2 else i + 1
  }

  /** The item at `i` and where the next one starts; an unterminated `[` is literal. */
  function ItemAt(p: string, i: nat): (r: (Item, nat))
    requires i < |p|
    ensures i < r.1 <= |p|
  {
    if p[i] == '*' then (Star, i + 1)
    else if p[i] == '?' then (Any, i + 1)
    else if p[i] == '[' then
      var (ranges, close) := Members(p, MembersFrom(p, i), true);
      if close < |p| then (Bracket(NegatedAt(p, i), ranges), close + 1) else (Literal('['), i + 1)
    else (Literal(p[i]), i + 1)
  }

  function Items(p: string, i: nat): seq<Item>
    requires i <= |p|
    decreases |p| - i
  {
    if i == |p| then [] else [ItemAt(p, i).0] + Items(p, ItemAt(p, i).1)
  }

  /** The text from `ti` on is in the language of the pattern from `pi` on. */
  ghost predicate Accepts(p: string, pi: nat, t: string, ti: nat)
    requires pi <= |p| && ti <= |t|
  {
    Language(Items(p, pi), t[ti..])
  }

  lemma AcceptsOne(p: string, pi: nat, t: string, ti: nat)
    requires pi < |p| && ti <= |t| && !ItemAt(p, pi).0.Star?
    ensures Accepts(p, pi, t, ti)
       <==> ti < |t| && MatchesOne(ItemAt(p, pi).0, t[ti]) && Accepts(p, ItemAt(p, pi).1, t, ti + 1)
  {
    var items := Items(p, pi);
    assert items[1..] == Items(p, ItemAt(p, pi).1);
    if ti < |t| {
      assert t[ti..][1..] == t[ti + 1..];
    }
  }

  ghost predicate AcceptsSomewhere(p: string, pi: nat, t: string, ti: nat)
    requires pi <= |p|
  {
    exists skip: nat :: ti <= skip <= |t| && Accepts(p, pi, t, skip)
  }

  lemma AcceptsStar(p: string, pi: nat, t: string, ti: nat)
    requires pi < |p| && p[pi] == '*' && ti <= |t|
    ensures Accepts(p, pi, t, ti) <==> AcceptsSomewhere(p, pi + 1, t, ti)
  {
    var items, rest := Items(p, pi), t[ti..];
    assert items[1..] == Items(p, pi + 1);
    if Accepts(p, pi, t, ti) {
      var k :| 0 <= k <= |rest| && Language(items[1..], rest[k..]);
      assert rest[k..] == t[ti + k..];
      assert Accepts(p, pi + 1, t, ti + k);
    }
    if AcceptsSomewhere(p, pi + 1, t, ti) {
      ghost var next := pi + 1;
      var skip: nat :| ti <= skip <= |t| && Accepts(p, next, t, skip);
      assert rest[skip - ti..] == t[skip..];
    }
  }

  /** A star after a star adds nothing. */
  lemma DoubleStar(p: string, pi: nat, t: string, ti: nat)
    requires pi + 1 < |p| && p[pi] == '*' && p[pi + 1] == '*' && ti <= |t|
    ensures Accepts(p, pi, t, ti) <==> Accepts(p, pi + 1, t, ti)
  {
    AcceptsStar(p, pi, t, ti);
    AcceptsStar(p, pi + 1, t, ti);
    hide Accepts;
    var next := pi + 1;
    if AcceptsSomewhere(p, next, t, ti) {
      var skip: nat :| ti <= skip <= |t| && Accepts(p, next, t, skip);
      AcceptsStar(p, next, t, skip);
    }
  }

  lemma FinalStar(p: string, pi: nat, t: string, ti: nat)
    requires pi + 1 == |p| && p[pi] == '*' && ti <= |t|
    ensures Accepts(p, pi, t, ti)
  {
    AcceptsStar(p, pi, t, ti);
    assert Accepts(p, pi + 1, t, |t|);
  }

  // ------------------------------------------------------------------- the program

  /** The loop over the members of a bracket expression. */
  method ScanMembers(p: string, from: nat, c: char) returns (matched: bool, j: nat)
    requires from <= |p|
    ensures j == Members(p, from, true).1
    ensures matched <==> InRanges(Members(p, from, true).0, c)
  {
    j, matched := from, false;
    var first := true;
    ghost var seen: seq<Range> := [];
    assert [] + Members(p, from, true).0 == Members(p, from, true).0;
    while j < |p| && (p[j] != ']' || first)
      invariant from <= j <= |p|
      invariant Members(p, from, true) == (seen + Members(p, j, first).0, Members(p, j, first).1)
      invariant matched <==> InRanges(seen, c)
      decreases |p| - j
    {
      ghost var rest := Members(p, j, first);
      ghost var member := rest.0[0];
      assert seen + rest.0 == (seen + [member]) + rest.0[1..];
      InRangesAppend(seen, member, c);
      seen := seen + [member];
      first := false;
      if j + 2 < |p| && p[j + 1] == '-' && p[j + 2] != ']' {
        if c >= p[j] && c <= p[j + 2] {
          matched := true;
        }
        j := j + 3;
      } else {
        if c == p[j] {
          matched := true;
        }
        j := j + 1;
      }
    }
    assert seen + [] == seen;
  }

  lemma InRangesAppend(ranges: seq<Range>, member: Range, c: char)
    ensures InRanges(ranges + [member], c) <==> InRanges(ranges, c) || member.lo <= c <= member.hi
  {
    var all := ranges + [member];
    assert all[|ranges|] == member;
    assert forall k :: 0 <= k < |ranges| ==> all[k] == ranges[k];
  }

  /** The bracket expression at `pi` against one character. */
  method MatchBracket(p: string, pi: nat, c: char) returns (ok: bool, next: nat)
    requires pi < |p| && p[pi] == '['
    ensures ok <==> MatchesOne(ItemAt(p, pi).0, c)
    ensures next == ItemAt(p, pi).1
  {
    var j := pi + 1;
    var negate := false;
    if j < |p| && (p[j] == '!' || p[j] == '^') {
      negate := true;
      j := j + 1;
    }
    var matched;
    matched, j := ScanMembers(p, j, c);
    if j >= |p| {
      // unterminated: the bracket is literal
      return c == '[', pi + 1;
    }
    return matched != negate, j + 1;
  }

  lemma AcceptsEnd(p: string, t: string, ti: nat)
    requires ti <= |t|
    ensures Accepts(p, |p|, t, ti) <==> ti == |t|
  {
  }

  /** `fnmatch_at`: the walk, recursive only at a star. */
  method FnmatchAt(p: string, from: nat, t: string, at: nat) returns (accepted: bool)
    requires from <= |p| && at <= |t|
    ensures accepted <==> Accepts(p, from, t, at)
    decreases |p| - from
  {
    hide Accepts, Members;
    var pi: nat, ti: nat := from, at;
    while pi < |p|
      invariant from <= pi <= |p| && ti <= |t|
      invariant Accepts(p, from, t, at) <==> Accepts(p, pi, t, ti)
      decreases |p| - pi
    {
      if p[pi] == '*' {
        accepted := MatchStar(p, pi, t, ti);
        return;
      }
      AcceptsOne(p, pi, t, ti);
      if ti >= |t| {
        return false;
      }
      var ok, next := t[ti] == p[pi], pi + 1;
      if p[pi] == '?' {
        ok := true;
      } else if p[pi] == '[' {
        ok, next := MatchBracket(p, pi, t[ti]);
      }
      if !ok {
        return false;
      }
      pi, ti := next, ti + 1;
    }
    AcceptsEnd(p, t, ti);
    accepted := ti == |t|;
  }

  /** Collapse consecutive stars and try every place for what follows them. */
  method MatchStar(p: string, star: nat, t: string, ti: nat) returns (accepted: bool)
    requires star < |p| && p[star] == '*' && ti <= |t|
    ensures accepted <==> Accepts(p, star, t, ti)
    decreases |p| - star, 0
  {
    hide Accepts, Items;
    var pi: nat := star + 1;
    while pi < |p| && p[pi] == '*'
      invariant star < pi <= |p| && p[pi - 1] == '*'
      invariant Accepts(p, star, t, ti) <==> Accepts(p, pi - 1, t, ti)
    {
      DoubleStar(p, pi - 1, t, ti);
      pi := pi + 1;
    }
    if pi == |p| {
      FinalStar(p, pi - 1, t, ti);
      return true;
    }
    AcceptsStar(p, pi - 1, t, ti);
    var skip: nat := ti;
    while skip <= |t|
      invariant ti <= skip <= |t| + 1
      invariant forall s: nat :: ti <= s < skip ==> !Accepts(p, pi, t, s)
    {
      var found := FnmatchAt(p, pi, t, skip);
      if found {
        return true;
      }
      skip := skip + 1;
    }
    accepted := false;
  }

  /** `fnmatch` accepts exactly the language of its pattern. */
  method Fnmatch(pattern: string, text: string) returns (accepted: bool)
    ensures accepted <==> Language(Items(pattern, 0), text)
  {
    assert text[0..] == text;
    accepted := FnmatchAt(pattern, 0, text, 0);
  }

  // -------------------------------------------------------------- reading patterns

  /** A pattern without special characters stands for itself alone. */
  lemma {:induction false} PlainPattern(p: string, i: nat, text: string)
    requires i <= |p| && forall k :: i <= k < |p| ==> p[k] !in "*?["
    ensures Language(Items(p, i), text) <==> text == p[i..]
    decreases |p| - i
  {
    if i < |p| {
      var items := Items(p, i);
      assert items[0] == Literal(p[i]) && items[1..] == Items(p, i + 1);
      assert p[i..] == [p[i]] + p[i + 1..];
      if text != "" {
        PlainPattern(p, i + 1, text[1..]);
        assert text == [text[0]] + text[1..];
      }
    }
  }
}
