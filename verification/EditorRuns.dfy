/**
 Whole runs of the `read -e` editor (src/readline_editor.rs): whatever text, history and ring a session is opened
 with, and whatever is typed, the editor on UTF-8 offsets does what the editor on characters does.
 */
module EditorRuns {
  import opened Utf8
  import opened Wrappers
  import opened Sequences
  import opened EditorSpec
  import opened CharEditor
  import opened CharText
  import opened EditorRefines

  // ---------------------------------------------------------------- every text is characters

  lemma EncodeOfDecode(t: Bytes)
    requires SeqLen(t) > 0
    ensures Encode(Decode(t)) == t[..SeqLen(t)]
  {
    var b0: int := t[0];
    if SeqLen(t) == 2 {
      var b1: int := t[1];
      TwoBytes(b0 - 0xC0, b1 - 0x80);
    } else if SeqLen(t) == 3 {
      var b1: int, b2: int := t[1], t[2];
      ThreeBytes(b0 - 0xE0, b1 - 0x80, b2 - 0x80);
    } else if SeqLen(t) == 4 {
      var b1: int, b2: int, b3: int := t[1], t[2], t[3];
      FourBytes(b0 - 0xF0, b1 - 0x80, b2 - 0x80, b3 - 0x80);
    }
  }

  lemma TwoBytes(a: nat, b: nat)
    requires b < 64
    ensures (a * 64 + b) / 64 == a && (a * 64 + b) % 64 == b
  {
  }

  lemma ThreeBytes(a: nat, b: nat, c: nat)
    requires b < 64 && c < 64
    ensures var v := a * 4096 + b * 64 + c; v / 4096 == a && v / 64 % 64 == b && v % 64 == c
  {
    var v := a * 4096 + b * 64 + c;
    assert v == (a * 64 + b) * 64 + c;
    TwoBytes(a * 64 + b, c);
    TwoBytes(a, b);
  }

  lemma FourBytes(a: nat, b: nat, c: nat, d: nat)
    requires b < 64 && c < 64 && d < 64
    ensures var v := a * 262144 + b * 4096 + c * 64 + d;
            v / 262144 == a && v / 4096 % 64 == b && v / 64 % 64 == c && v % 64 == d
  {
    var v := a * 262144 + b * 4096 + c * 64 + d;
    assert v == (a * 4096 + b * 64 + c) * 64 + d;
    TwoBytes(a * 4096 + b * 64 + c, d);
    ThreeBytes(a, b, c);
    assert v / 4096 == v / 64 / 64 && v / 262144 == v / 64 / 4096;
  }

  /** Well-formed bytes are the characters they decode to. */
  lemma {:induction false} EncodedBack(t: Bytes)
    requires WellFormed(t)
    ensures EncodeAll(DecodeAll(t)) == t
    decreases |t|
  {
    hide Encode, Decode, SeqLen;
    if t != [] {
      var n := SeqLen(t);
      EncodeOfDecode(t);
      EncodedBack(t[n..]);
      var s := DecodeAll(t);
      assert s[0] == Decode(t) && s[1..] == DecodeAll(t[n..]);
      assert t == t[..n] + t[n..];
    }
  }

  function AllDecoded(texts: seq<Bytes>): (r: seq<string>)
    requires forall k :: 0 <= k < |texts| ==> WellFormed(texts[k])
    ensures |r| == |texts|
  {
    if texts == [] then [] else AllDecoded(texts[..|texts| - 1]) + [DecodeAll(texts[|texts| - 1])]
  }

  lemma {:induction false} DecodedShow(texts: seq<Bytes>)
    requires forall k :: 0 <= k < |texts| ==> WellFormed(texts[k])
    ensures ShowsAll(AllDecoded(texts), texts)
    decreases |texts|
  {
    hide WellFormed, EncodeAll, DecodeAll;
    if texts != [] {
      DecodedShow(texts[..|texts| - 1]);
      EncodedBack(texts[|texts| - 1]);
    }
  }

  // ------------------------------------------------------------------------------- sessions

  /** The line a session is opened with. */
  function Opened(initial: string, ring: seq<string>): Line {
    Line(initial, "", NoEsc, "", None, "", Other, ring)
  }

  /** What is typed: keys until one ends the session, or the limit of `-n` is reached. */
  function Type(l: Line, s: Setting, read: nat, limit: Option<nat>, input: string): Outcome
    requires Sound(l, s)
    decreases |input|
  {
    if input == "" then Goes(l, false)
    else
      match Press(l, s, input[0])
      case Goes(next, clear) =>
        PressKeepsSound(l, s, input[0]);
        if limit.Some? && read + 1 >= limit.value then Ends(Some(next.left + next.right))
        else if |input| == 1 then Goes(next, clear)
        else Type(next, s, read + 1, limit, input[1..])
      case outcome => outcome
  }

  ghost predicate RunShows(o: Outcome, s: Setting, r: Step<Editor>) {
    match o
    case Goes(l, clear) => r.Running? && r.clear == clear && Shows(l, s, r.m.m)
    case Ends(None) => r.Ended? && r.end == Eof
    case Ends(Some(text)) => r.Ended? && r.end == Accepted(EncodeAll(text))
    case Panics => r.Panicked?
  }

  lemma PointKeepsSound(l: Line, s: Setting, n: nat)
    requires Sound(l, s) && n <= |l.left| + |l.right|
    ensures Sound(PointAt(l, n), s)
  {
    hide EndsIn;
  }

  /** An escape sequence is read, or a character comes in. */
  lemma EscapesKeepSound(l: Line, s: Setting, esc: Esc, params: string, c: char)
    requires Sound(l, s)
    ensures Sound(l.(esc := esc), s) && Sound(l.(params := params), s) && Sound(l.(esc := esc, params := params), s)
    ensures Sound(Insert(l, [c]), s)
  {
    hide EndsIn;
  }

  lemma MovesKeepSound(l: Line, s: Setting)
    requires Sound(l, s)
    ensures Sound(Rubbed(l), s) && Sound(Deleted(l), s) && Sound(Idle(l), s) && Sound(Transposed(l), s)
    ensures Sound(Latest(l), s) && Sound(Earliest(l, s), s) && Sound(Earlier(l, s), s) && Sound(Later(l, s), s)
  {
    hide EndsIn;
  }

  lemma KillsKeepSound(l: Line, s: Setting)
    requires Sound(l, s)
    ensures forall n: nat :: n <= |l.right| ==> Sound(KillAhead(l, n), s)
    ensures forall n: nat :: n <= |l.left| ==> Sound(KillBehind(l, n), s)
  {
    hide EndsIn, RingAfter;
  }

  lemma YanksKeepSound(l: Line, s: Setting)
    requires Sound(l, s)
    ensures Sound(Yanked(l), s) && Sound(Popped(l), s)
  {
  }

  lemma WordsKeepSound(l: Line, s: Setting, u: CharTables, how: Case)
    requires Sound(l, s)
    ensures Sound(WordsTransposed(l, u), s) && Sound(Recase(l, u, how), s)
  {
    hide EndsIn, Lead, Trail, InCase;
  }

  /** The moves and kills the keys ask for. */
  lemma SpansKeepSound(l: Line, s: Setting, u: CharTables)
    requires Sound(l, s)
    ensures Sound(PointAt(l, 0), s) && Sound(Forward(l, |l.right|), s)
    ensures Sound(Back(l, Min(1, |l.left|)), s) && Sound(Forward(l, Min(1, |l.right|)), s)
    ensures Sound(Back(l, WordBehind(u, l.left)), s) && Sound(Forward(l, WordAhead(u, l.right)), s)
    ensures Sound(KillAhead(l, |l.right|), s) && Sound(KillBehind(l, |l.left|), s)
    ensures Sound(KillAhead(l, WordAhead(u, l.right)), s) && Sound(KillBehind(l, WordBehind(u, l.left)), s)
    ensures Sound(KillBehind(l, RuboutBehind(l.left)), s)
  {
    hide Sound, PointAt, KillAhead, KillBehind, WordBehind, WordAhead, RuboutBehind;
    PointKeepsSound(l, s, 0);
    PointKeepsSound(l, s, |l.left| + |l.right|);
    PointKeepsSound(l, s, |l.left| - Min(1, |l.left|));
    PointKeepsSound(l, s, |l.left| + Min(1, |l.right|));
    PointKeepsSound(l, s, |l.left| - WordBehind(u, l.left));
    PointKeepsSound(l, s, |l.left| + WordAhead(u, l.right));
    KillsKeepSound(l, s);
  }

  predicate GoesSound(o: Outcome, s: Setting) { o.Goes? ==> Sound(o.line, s) }

  lemma PlainKeepsSound(l: Line, s: Setting, c: char)
    requires Sound(l, s)
    ensures GoesSound(PlainKey(l, s, c), s)
  {
    hide Sound, PointAt, Rubbed, Deleted, Idle, Transposed, Earlier, Later, KillAhead, KillBehind, Yanked,
      RuboutBehind, Insert, Forward, Back;
    EscapesKeepSound(l, s, QuotedInsert, "", c);
    EscapesKeepSound(l, s, Ctlx, "", c);
    EscapesKeepSound(l, s, Meta, "", c);
    MovesKeepSound(l, s);
    SpansKeepSound(l, s, s.tables);
    YanksKeepSound(l, s);
  }

  lemma MetaKeepsSound(l: Line, s: Setting, c: char)
    requires Sound(l, s)
    ensures GoesSound(MetaKey(l, s, c), s)
  {
    hide Sound, PointAt, Idle, Earliest, Latest, KillAhead, KillBehind, Popped, Recase, WordsTransposed,
      WordAhead, WordBehind, MeetsMultibyte, Forward, Back;
    EscapesKeepSound(l, s, Csi, "", c);
    EscapesKeepSound(l, s, Ss3, "", c);
    MovesKeepSound(l, s);
    SpansKeepSound(l, s, s.tables);
    YanksKeepSound(l, s);
    WordsKeepSound(l, s, s.tables, Upper);
    WordsKeepSound(l, s, s.tables, Lower);
    WordsKeepSound(l, s, s.tables, Capital);
  }

  lemma ArrowKeepsSound(l: Line, s: Setting, c: char, word: bool)
    requires Sound(l, s)
    ensures Sound(ArrowKey(l, s, c, word), s)
  {
    hide Sound, PointAt, Earlier, Later, WordAhead, WordBehind;
    var ahead := if word then WordAhead(s.tables, l.right) else Min(1, |l.right|);
    var behind := if word then WordBehind(s.tables, l.left) else Min(1, |l.left|);
    MovesKeepSound(l, s);
    PointKeepsSound(l, s, 0);
    PointKeepsSound(l, s, |l.left| + |l.right|);
    PointKeepsSound(l, s, |l.left| + ahead);
    PointKeepsSound(l, s, |l.left| - behind);
  }

  lemma TildeKeepsSound(l: Line, s: Setting, params: string, word: bool)
    requires Sound(l, s)
    ensures Sound(TildeKey(l, s, params, word), s)
  {
    hide PointAt, Earliest, Latest, WordAhead, Deleted, EndsIn;
    MovesKeepSound(l, s);
    PointKeepsSound(l, s, 0);
    PointKeepsSound(l, s, |l.left| + |l.right|);
  }

  lemma PressKeepsSound(l: Line, s: Setting, c: char)
    requires Sound(l, s)
    ensures GoesSound(Press(l, s, c), s)
  {
    hide Sound, PlainKey, MetaKey, TildeKey, ArrowKey, Idle, Insert, Modified;
    EscapesKeepSound(l, s, NoEsc, "", c);
    EscapesKeepSound(l, s, l.esc, l.params + [c], c);
    var m := l.(esc := NoEsc);
    match l.esc
    case QuotedInsert => EscapesKeepSound(m, s, NoEsc, "", c);
    case Meta => MetaKeepsSound(m, s, c);
    case Csi =>
      var idle, word := Idle(l.(esc := NoEsc, params := "")), Modified(l.params);
      IdleIsSound(l.(esc := NoEsc, params := ""), s);
      TildeKeepsSound(idle, s, l.params, word);
      ArrowKeepsSound(idle, s, c, word);
    case Ss3 =>
      IdleIsSound(m, s);
      ArrowKeepsSound(Idle(m), s, c, false);
    case Ctlx => IdleIsSound(m, s);
    case NoEsc => PlainKeepsSound(l, s, c);
  }

  lemma AcceptedShows(l: Line, s: Setting, m: Session)
    requires Shows(l, s, m)
    ensures m.buffer == EncodeAll(l.left + l.right)
  {
  }

  /** Any run of keys from a line and its bytes. */
  lemma {:induction false} TypingShows(l: Line, s: Setting, e: Editor, input: string)
    requires Inv(e.m) && Shows(l, s, e.m) && Sound(l, s)
    ensures RunShows(Type(l, s, e.charsRead, e.maxChars, input), s, FeedAll(e, input))
    decreases |input|
  {
    hide Inv, Shows, Sound, Press, Dispatch, EncodeAll, SameInputs, Boundary, WellFormed, TransposeScan;
    if input != "" {
      PressShows(l, s, e.m, input[0]);
      PressKeepsSound(l, s, input[0]);
      var o, r := Press(l, s, input[0]), Dispatch(e.m, input[0]);
      if o.Goes? {
        AcceptedShows(o.line, s, r.m);
        var out := Feed(e, input[0]);
        if out.Running? && |input| > 1 {
          TypingShows(o.line, s, out.m, input[1..]);
        }
      }
    }
  }

  /** A newline or a NUL is no delimiter of its own. */
  function SettingFor(tables: CharTables, history: seq<Text>, eolDelim: Option<char>): Setting {
    Setting(tables, AllDecoded(history), if eolDelim == Some('\n') || eolDelim == Some('\0') then None else eolDelim)
  }

  lemma OpeningShows(tables: CharTables, initial: Text, history: seq<Text>, maxChars: Option<nat>,
                     eolDelim: Option<char>, ring: seq<Text>)
    ensures var l, s := Opened(DecodeAll(initial), AllDecoded(ring)), SettingFor(tables, history, eolDelim);
            Sound(l, s) && Shows(l, s, NewEditor(tables, initial, history, maxChars, eolDelim, ring).m)
  {
    hide WellFormed, EncodeAll, DecodeAll, AllDecoded, Boundary;
    EncodedBack(initial);
    DecodedShow(history);
    DecodedShow(ring);
    assert DecodeAll(initial) + "" == DecodeAll(initial);
    assert EncodeAll("") == [] by {
      EncodeNothing("");
    }
  }

  /** Every session, opened with any text, history, ring, delimiter and limit, and fed any input, is the session of
      the line of characters: the same line is shown or accepted, and the same inputs panic. */
  lemma SessionsAreOfCharacters(tables: CharTables, initial: Text, history: seq<Text>, maxChars: Option<nat>,
                                eolDelim: Option<char>, ring: seq<Text>, input: string)
    ensures var l, s := Opened(DecodeAll(initial), AllDecoded(ring)), SettingFor(tables, history, eolDelim);
            && Sound(l, s)
            && RunShows(Type(l, s, 0, if maxChars == Some(0) then None else maxChars, input), s,
                        FeedAll(NewEditor(tables, initial, history, maxChars, eolDelim, ring), input))
  {
    hide WellFormed, EncodeAll, DecodeAll, AllDecoded, Boundary, Sound, Shows, FeedAll, Type, RunShows, Inv;
    OpeningShows(tables, initial, history, maxChars, eolDelim, ring);
    var e := NewEditor(tables, initial, history, maxChars, eolDelim, ring);
    TypingShows(Opened(DecodeAll(initial), AllDecoded(ring)), SettingFor(tables, history, eolDelim), e, input);
  }
}
