/**
 What the patterns of HISTIGNORE mean as they are written (src/history.rs).
 */
module GlobPatterns {
  import opened Glob
  import opened Sequences

  /** A member of a bracket expression: one character, or a range with a dash. */
  function Member(r: Range): string { if r.lo == r.hi then [r.lo] else [r.lo, '-', r.hi] }

  function AllMembers(ranges: seq<Range>): string {
    if ranges == [] then "" else Member(ranges[0]) + AllMembers(ranges[1..])
  }

  function Spelled(item: Item): string {
    match item
    case Star => "*"
    case Any => "?"
    case Bracket(negated, ranges) => Opening(negated) + AllMembers(ranges) + "]"
    case Literal(c) => [c]
  }

  function Pattern(items: seq<Item>): string {
    if items == [] then "" else Spelled(items[0]) + Pattern(items[1..])
  }

  predicate GoodMember(r: Range) { r.lo !in "-]" && r.hi !in "-]" }

  /** No member is a dash or a closing bracket, and none in front could be taken for the negation. */
  predicate Writable(item: Item) {
    match item
    case Bracket(_, ranges) =>
      && ranges != [] && ranges[0].lo !in "!^"
      && forall k :: 0 <= k < |ranges| ==> GoodMember(ranges[k])
    case Literal(c) => c !in "*?["
    case _ => true
  }

  /** One member in front of what follows it, which begins with no dash. */
  lemma MemberAt(p: string, j: nat, r: Range, tail: string)
    requires j <= |p| && p[j..] == Member(r) + tail && tail != "" && tail[0] != '-' && GoodMember(r)
    ensures var n := |Member(r)|;
            && j + n < |p| && p[j] == r.lo && p[j] != ']' && p[j + n..] == tail
            && IsRangeAt(p, j) == (r.lo != r.hi) && (r.lo != r.hi ==> p[j + 2] == r.hi)
  {
    var m, q := Member(r), p[j..];
    assert q[|m|..] == tail && p[j + |m|..] == q[|m|..];
    assert p[j] == q[0] && p[j + 1] == q[1] && p[j + |m|] == q[|m|];
    if |m| == 3 {
      assert p[j + 2] == q[2];
    }
  }

  lemma AllMembersStep(ranges: seq<Range>, rest: string)
    requires ranges != []
    ensures AllMembers(ranges) + ("]" + rest) == Member(ranges[0]) + (AllMembers(ranges[1..]) + ("]" + rest))
    ensures |AllMembers(ranges)| == |Member(ranges[0])| + |AllMembers(ranges[1..])|
  {
    hide Member;
    Assoc(Member(ranges[0]), AllMembers(ranges[1..]), "]" + rest);
  }

  lemma {:induction false} MembersAt(p: string, j: nat, ranges: seq<Range>, rest: string, first: bool)
    requires j <= |p| && p[j..] == AllMembers(ranges) + ("]" + rest) && (first ==> ranges != [])
    requires forall k :: 0 <= k < |ranges| ==> GoodMember(ranges[k])
    ensures Members(p, j, first) == (ranges, j + |AllMembers(ranges)|)
    decreases |ranges|
  {
    if ranges == [] {
      assert p[j..][0] == ']';
    } else {
      hide Member, AllMembers, IsRangeAt;
      var tail := AllMembers(ranges[1..]) + ("]" + rest);
      AllMembersStep(ranges, rest);
      NextMember(ranges[1..], rest);
      MemberAt(p, j, ranges[0], tail);
      var n := |Member(ranges[0])|;
      MembersAt(p, j + n, ranges[1..], rest, false);
      MemberLength(ranges[0]);
      assert [ranges[0]] + ranges[1..] == ranges;
    }
  }

  lemma MemberLength(r: Range)
    ensures |Member(r)| == if r.lo == r.hi then 1 else 3
  {
  }

  lemma NextMember(ranges: seq<Range>, rest: string)
    requires forall k :: 0 <= k < |ranges| ==> GoodMember(ranges[k])
    ensures var tail := AllMembers(ranges) + ("]" + rest); tail != "" && tail[0] != '-'
  {
  }

  function Opening(negated: bool): string { if negated then "[!" else "[" }

  /** A bracket expression in front of other text. */
  lemma BracketWritten(p: string, i: nat, negated: bool, ranges: seq<Range>, rest: string)
    requires i <= |p| && p[i..] == Opening(negated) + (AllMembers(ranges) + ("]" + rest))
    requires Writable(Bracket(negated, ranges))
    ensures i < |p| && p[i] == '['
    ensures ItemAt(p, i) == (Bracket(negated, ranges), i + |Opening(negated)| + |AllMembers(ranges)| + 1)
  {
    hide AllMembers, Members;
    var open, members := Opening(negated), AllMembers(ranges);
    var tail := members + ("]" + rest);
    var j := i + |open|;
    assert p[j..] == p[i..][|open|..] == tail;
    FirstMember(ranges);
    assert p[j] == tail[0] == members[0];
    assert p[i] == p[i..][0] == '[' && (negated ==> p[i + 1] == p[i..][1] == '!');
    MembersAt(p, j, ranges, rest, true);
    assert j + |members| < |p|;
  }

  lemma FirstMember(ranges: seq<Range>)
    requires ranges != []
    ensures AllMembers(ranges) != "" && AllMembers(ranges)[0] == ranges[0].lo
  {
  }

  lemma BracketSpelled(negated: bool, ranges: seq<Range>, rest: string)
    ensures Spelled(Bracket(negated, ranges)) + rest == Opening(negated) + (AllMembers(ranges) + ("]" + rest))
    ensures |Spelled(Bracket(negated, ranges))| == |Opening(negated)| + |AllMembers(ranges)| + 1
  {
    hide AllMembers;
    Assoc(Opening(negated) + AllMembers(ranges), "]", rest);
    Assoc(Opening(negated), AllMembers(ranges), "]" + rest);
  }

  lemma ItemWritten(p: string, i: nat, item: Item, rest: string)
    requires i <= |p| && p[i..] == Spelled(item) + rest && Writable(item)
    ensures i < |p| && ItemAt(p, i) == (item, i + |Spelled(item)|)
  {
    if item.Bracket? {
      hide AllMembers, Members, ItemAt, Writable, Spelled;
      BracketSpelled(item.negated, item.ranges, rest);
      BracketWritten(p, i, item.negated, item.ranges, rest);
    } else {
      hide AllMembers, Members;
      assert p[i] == p[i..][0];
    }
  }

  lemma {:induction false} ItemsFrom(p: string, i: nat, items: seq<Item>)
    requires i <= |p| && p[i..] == Pattern(items) && forall k :: 0 <= k < |items| ==> Writable(items[k])
    ensures Items(p, i) == items
    decreases |items|
  {
    hide ItemAt, Spelled, Writable;
    if items != [] {
      var s := Spelled(items[0]);
      ItemWritten(p, i, items[0], Pattern(items[1..]));
      assert p[i + |s|..] == p[i..][|s|..] == Pattern(items[1..]);
      ItemsFrom(p, i + |s|, items[1..]);
    }
  }

  /** A pattern written out of stars, question marks, brackets and characters is read as these. */
  lemma PatternIsItsItems(items: seq<Item>)
    requires forall k :: 0 <= k < |items| ==> Writable(items[k])
    ensures Items(Pattern(items), 0) == items
  {
    hide Items, Writable;
    assert Pattern(items)[0..] == Pattern(items);
    ItemsFrom(Pattern(items), 0, items);
  }

  // ------------------------------------------------------------------------ what they match

  function Literals(s: string): (r: seq<Item>)
    ensures |r| == |s| && forall k :: 0 <= k < |s| ==> r[k] == Literal(s[k])
  {
    if s == "" then [] else [Literal(s[0])] + Literals(s[1..])
  }

  lemma PatternStep(items: seq<Item>)
    requires items != []
    ensures Pattern(items) == Spelled(items[0]) + Pattern(items[1..])
  {
  }

  lemma OneThenRest<T>(x: T, rest: seq<T>)
    ensures ([x] + rest)[0] == x && ([x] + rest)[1..] == rest
  {
  }

  lemma LiteralStep(s: string, items: seq<Item>)
    requires s != ""
    ensures var all := Literals(s) + items;
            all != [] && all[0] == Literal(s[0]) && all[1..] == Literals(s[1..]) + items
  {
    var more := Literals(s[1..]);
    assert Literals(s) == [Literal(s[0])] + more;
    hide Literals;
    Assoc([Literal(s[0])], more, items);
    OneThenRest(Literal(s[0]), more + items);
  }

  lemma {:induction false} LiteralPattern(s: string, items: seq<Item>)
    ensures Pattern(Literals(s) + items) == s + Pattern(items)
    decreases |s|
  {
    hide Pattern, Literals;
    if s == "" {
      NoLiterals(items);
      assert s + Pattern(items) == Pattern(items);
    } else {
      LiteralPattern(s[1..], items);
      LiteralStep(s, items);
      PatternStep(Literals(s) + items);
      Assoc([s[0]], s[1..], Pattern(items));
      assert [s[0]] + s[1..] == s;
    }
  }

  lemma NoLiterals(items: seq<Item>)
    ensures Literals("") + items == items
  {
  }

  lemma LanguageStep(items: seq<Item>, c: char, text: string)
    requires items != [] && items[0] == Literal(c)
    ensures Language(items, text) <==> text != "" && text[0] == c && Language(items[1..], text[1..])
  {
    hide Literals;
  }

  lemma StartsWithFirst(s: string, text: string)
    requires s != ""
    ensures |s| <= |text| && text[..|s|] == s <==>
            text != "" && text[0] == s[0] && |s[1..]| <= |text[1..]| && text[1..][..|s[1..]|] == s[1..]
    ensures |s| <= |text| ==> text[|s|..] == text[1..][|s[1..]|..]
  {
    if |s| <= |text| {
      assert text[..|s|] == [text[0]] + text[1..][..|s[1..]|];
      assert s == [s[0]] + s[1..];
    }
  }

  /** Characters stand for themselves. */
  lemma {:induction false} LiteralsMatch(s: string, items: seq<Item>, text: string)
    ensures Language(Literals(s) + items, text) <==>
            |s| <= |text| && text[..|s|] == s && Language(items, text[|s|..])
    decreases |s|
  {
    hide Language, Literals;
    if s == "" {
      NoLiterals(items);
      assert text[0..] == text && text[..0] == "";
    } else {
      LiteralStep(s, items);
      LanguageStep(Literals(s) + items, s[0], text);
      StartsWithFirst(s, text);
      if text != "" {
        LiteralsMatch(s[1..], items, text[1..]);
      }
    }
  }

  predicate Plain(s: string) { forall k :: 0 <= k < |s| ==> s[k] !in "*?[" }

  /** The items of `a*b`. */
  function Starred(a: string, b: string): seq<Item> { Literals(a) + ([Star] + Literals(b)) }

  lemma StarredPattern(a: string, b: string)
    ensures Pattern(Starred(a, b)) == a + "*" + b
  {
    hide Pattern, Literals;
    var none: seq<Item> := [];
    var ending := [Star] + Literals(b);
    LiteralPattern(a, ending);
    PatternStep(ending);
    assert ending[1..] == Literals(b);
    LiteralPattern(b, none);
    assert Literals(b) + none == Literals(b);
    NoPattern(b);
    Assoc(a, "*", b);
  }

  lemma NoPattern(b: string)
    ensures b + Pattern([]) == b
  {
  }

  lemma StarredIsWritable(a: string, b: string)
    requires Plain(a) && Plain(b)
    ensures forall k :: 0 <= k < |Starred(a, b)| ==> Writable(Starred(a, b)[k])
  {
    hide Literals;
    var items, n := Starred(a, b), |a|;
    forall k | 0 <= k < |items| ensures Writable(items[k]) {
      assert items[k] == if k < n then Literal(a[k]) else if k == n then Star else Literal(b[k - n - 1]);
    }
  }

  lemma StarredMatches(a: string, b: string, text: string)
    ensures Language(Starred(a, b), text) <==>
            |a| + |b| <= |text| && text[..|a|] == a && text[|text| - |b|..] == b
  {
    hide Language, Literals;
    LiteralsMatch(a, [Star] + Literals(b), text);
    if |a| <= |text| {
      EndsIn(b, text[|a|..]);
      if |a| + |b| <= |text| {
        assert text[|a|..][|text| - |a| - |b|..] == text[|text| - |b|..];
      }
    }
  }

  /** `a*b` stands for the texts that begin with a and end, behind that, with b. */
  lemma StarBetween(a: string, b: string, text: string)
    requires Plain(a) && Plain(b)
    ensures Language(Items(a + "*" + b, 0), text) <==>
            |a| + |b| <= |text| && text[..|a|] == a && text[|text| - |b|..] == b
  {
    hide *;
    StarredPattern(a, b);
    StarredIsWritable(a, b);
    PatternIsItsItems(Starred(a, b));
    StarredMatches(a, b, text);
  }

  lemma StarLanguage(items: seq<Item>, text: string)
    ensures Language([Star] + items, text) <==> exists k :: 0 <= k <= |text| && Language(items, text[k..])
  {
    assert ([Star] + items)[1..] == items;
  }

  lemma WholeMatches(b: string, text: string)
    ensures Language(Literals(b), text) <==> text == b
  {
    hide Language, Literals;
    var none: seq<Item> := [];
    LiteralsMatch(b, none, text);
    assert Literals(b) + none == Literals(b);
    NothingMatches(text[if |b| <= |text| then |b| else 0..]);
    if |b| <= |text| {
      assert text == text[..|b|] + text[|b|..];
    }
  }

  lemma NothingMatches(text: string)
    ensures Language([], text) <==> text == ""
  {
  }

  lemma EndsIn(b: string, text: string)
    ensures Language([Star] + Literals(b), text) <==> |b| <= |text| && text[|text| - |b|..] == b
  {
    hide Language, Literals;
    StarLanguage(Literals(b), text);
    forall k | 0 <= k <= |text| ensures Language(Literals(b), text[k..]) <==> text[k..] == b {
      WholeMatches(b, text[k..]);
    }
    if |b| <= |text| {
      var k := |text| - |b|;
      assert Language(Literals(b), text[k..]) <==> text[k..] == b;
    }
  }

  /** `[lo-hi]` stands for the characters of the range, `[!lo-hi]` for all others. */
  lemma RangeMatches(lo: char, hi: char, negated: bool, text: string)
    requires lo !in "-]!^" && hi !in "-]" && lo != hi
    ensures Language(Items(Opening(negated) + [lo, '-', hi] + "]", 0), text) <==>
            |text| == 1 && (lo <= text[0] <= hi) != negated
  {
    var r := Range(lo, hi);
    var item := Bracket(negated, [r]);
    RangeWritten(negated, r);
    PatternIsItsItems([item]);
    hide Items, Pattern, Spelled, Writable;
    assert [item][1..] == [];
    OneRange(r);
    if text != "" {
      NothingMatches(text[1..]);
    }
  }

  lemma OneRange(r: Range)
    ensures forall c :: InRanges([r], c) <==> r.lo <= c <= r.hi
  {
    assert [r][0] == r;
  }

  lemma RangeWritten(negated: bool, r: Range)
    requires r.lo !in "-]!^" && r.hi !in "-]" && r.lo != r.hi
    ensures Pattern([Bracket(negated, [r])]) == Opening(negated) + [r.lo, '-', r.hi] + "]"
    ensures Writable(Bracket(negated, [r]))
  {
    var item := Bracket(negated, [r]);
    var none: seq<Range> := [];
    assert [r][1..] == none && Member(r) + "" == Member(r);
    assert AllMembers([r]) == Member(r) == [r.lo, '-', r.hi];
    PatternStep([item]);
    hide Pattern;
    NoPattern(Spelled(item));
    assert [item][1..] == [];
  }
}
