/**
 The `read -e` line editor (src/readline_editor.rs) as one would describe it: a line of characters with the point
 between two of them, and no bytes. What the editor does on UTF-8 offsets is proved to be this.
 */
module CharEditor {
  import opened Wrappers
  import opened EditorSpec

  /** The text before the point and behind it, the escape sequence being read, history recall and the kill ring. */
  datatype Line = Line(
    left: string, right: string,
    esc: Esc, params: string,
    index: Option<nat>, saved: string,
    last: LastAction, ring: seq<string>)

  /** What a session is opened with. */
  datatype Setting = Setting(tables: CharTables, history: seq<string>, eolDelim: Option<char>)

  datatype Outcome = Goes(line: Line, clear: bool) | Ends(accepted: Option<string>) | Panics

  /** An escape leaves the recall index and the ring meaningful. */
  predicate Sound(l: Line, s: Setting) {
    && (l.index.Some? ==> l.index.value < |s.history|)
    && (l.last.Yank? ==> l.last.ringIndex < |l.ring| && EndsIn(l.left, l.ring[l.last.ringIndex]))
  }

  predicate EndsIn(text: string, end: string) { |end| <= |text| && text[|text| - |end|..] == end }

  // ------------------------------------------------------------------------------- words

  /** How many characters `text` begins with that are word characters, or that are not. */
  function Lead(u: CharTables, text: string, word: bool): (n: nat)
    ensures n <= |text|
  {
    if text == "" || IsWordChar(u, text[0]) != word then 0 else 1 + Lead(u, text[1..], word)
  }

  /** How many it ends with. */
  function Trail(u: CharTables, text: string, word: bool): (n: nat)
    ensures n <= |text|
  {
    if text == "" || IsWordChar(u, text[|text| - 1]) != word then 0
    else 1 + Trail(u, text[..|text| - 1], word)
  }

  /** How far the end of the next word is behind the point, and the start of the last one before it. */
  function WordAhead(u: CharTables, right: string): (n: nat)
    ensures n <= |right|
  {
    var k := Lead(u, right, false);
    k + Lead(u, right[k..], true)
  }

  function WordBehind(u: CharTables, left: string): (n: nat)
    ensures n <= |left|
  {
    var k := Trail(u, left, false);
    k + Trail(u, left[..|left| - k], true)
  }

  predicate IsBlank(c: char) { c == ' ' || c == '\t' || c == '\n' || c == '\U{0c}' || c == '\r' }

  function TrailBlank(text: string, blank: bool): (n: nat)
    ensures n <= |text|
  {
    if text == "" || IsBlank(text[|text| - 1]) != blank then 0 else 1 + TrailBlank(text[..|text| - 1], blank)
  }

  /** How far C-w reaches back: over blanks, then over what is none. */
  function RuboutBehind(left: string): (n: nat)
    ensures n <= |left|
  {
    var k := TrailBlank(left, true);
    k + TrailBlank(left[..|left| - k], false)
  }

  // ------------------------------------------------------------------------------- editing

  function Idle(l: Line): Line { l.(last := Other) }

  /** The point `n` characters from the start. */
  function PointAt(l: Line, n: nat): Line
    requires n <= |l.left| + |l.right|
  {
    var text := l.left + l.right;
    l.(left := text[..n], right := text[n..], last := Other)
  }

  function Forward(l: Line, n: nat): Line
    requires n <= |l.right|
  {
    PointAt(l, |l.left| + n)
  }

  function Back(l: Line, n: nat): Line
    requires n <= |l.left|
  {
    PointAt(l, |l.left| - n)
  }

  function Insert(l: Line, text: string): Line { l.(left := l.left + text, last := Other) }

  function Rubbed(l: Line): Line {
    if l.left == "" then l else l.(left := l.left[..|l.left| - 1], last := Other)
  }

  function Deleted(l: Line): Line { if l.right == "" then Idle(l) else l.(right := l.right[1..], last := Other) }

  /** The ring after a kill: added to the newest entry right behind another kill, or an entry of its own. */
  function RingAfter(ring: seq<string>, merge: bool, killed: string, forward: bool): seq<string> {
    if killed == "" then ring
    else if merge && ring != [] then
      var top := ring[|ring| - 1];
      ring[|ring| - 1 := if forward then top + killed else killed + top]
    else
      var pushed := ring + [killed];
      if |pushed| > RING_MAX then pushed[1..] else pushed
  }

  function KillAhead(l: Line, n: nat): Line
    requires n <= |l.right|
  {
    l.(right := l.right[n..], ring := RingAfter(l.ring, l.last == Kill, l.right[..n], true), last := Kill)
  }

  function KillBehind(l: Line, n: nat): Line
    requires n <= |l.left|
  {
    var k := |l.left| - n;
    l.(left := l.left[..k], ring := RingAfter(l.ring, l.last == Kill, l.left[k..], false), last := Kill)
  }

  function Yanked(l: Line): Line {
    if l.ring == [] then Idle(l)
    else l.(left := l.left + l.ring[|l.ring| - 1], last := Yank(|l.ring| - 1))
  }

  /** The entry yanked gives way to the one before it in the ring. */
  function Popped(l: Line): Line
    requires l.last.Yank? ==> l.last.ringIndex < |l.ring| && EndsIn(l.left, l.ring[l.last.ringIndex])
  {
    if !l.last.Yank? then l
    else
      var next := if l.last.ringIndex == 0 then |l.ring| - 1 else l.last.ringIndex - 1;
      var before := l.left[..|l.left| - |l.ring[l.last.ringIndex]|];
      l.(left := before + l.ring[next], last := Yank(next))
  }

  /** Characters of one byte in UTF-8. */
  predicate OneByte(c: char) { c as int < 0x80 }

  /** A line of one byte at most. */
  predicate AtMostOneByte(text: string) { text == "" || (|text| == 1 && OneByte(text[0])) }

  /** C-t: the characters around the point change places, at the end of the line the last two. */
  function Transposed(l: Line): Line {
    var n := |l.left|;
    if l.left == "" || AtMostOneByte(l.left + l.right) then l
    else if l.right != "" then
      l.(left := l.left[..n - 1] + [l.right[0], l.left[n - 1]], right := l.right[1..], last := Other)
    else if n == 1 then Idle(l)
    else l.(left := l.left[..n - 2] + [l.left[n - 1], l.left[n - 2]], last := Other)
  }

  /** M-t looks back for a word character, and panics when it meets a character of more than one byte. */
  predicate MeetsMultibyte(u: CharTables, left: string) {
    left != "" &&
    (!OneByte(left[|left| - 1]) || (!IsWordChar(u, left[|left| - 1]) && MeetsMultibyte(u, left[..|left| - 1])))
  }

  /** M-t: the word before the point and the one behind it change places; the text between them stays. */
  function WordsTransposed(l: Line, u: CharTables): Line {
    var text, end := l.left + l.right, |l.left| - Trail(u, l.left, false);
    var start := end - Trail(u, l.left[..end], true);
    var gap := Lead(u, text[end..], false);
    var length := Lead(u, text[end + gap..], true);
    if start == end || end + gap == |text| then l
    else
      var next := end + gap + length;
      l.(left := text[..start] + text[end + gap..next] + text[end..end + gap] + text[start..end],
         right := text[next..], last := Other)
  }

  datatype Case = Upper | Lower | Capital

  function EachLower(u: CharTables, text: string): string {
    if text == "" then "" else EachLower(u, text[..|text| - 1]) + u.lowerChar(text[|text| - 1])
  }

  /** The word in upper case, in lower case, or with its first character in upper case and the others in lower. */
  function InCase(u: CharTables, word: string, how: Case): string {
    match how
    case Upper => u.upper(word)
    case Lower => u.lower(word)
    case Capital => if word == "" then "" else u.upperChar(word[0]) + EachLower(u, word[1..])
  }

  function Recase(l: Line, u: CharTables, how: Case): Line {
    var gap := Lead(u, l.right, false);
    var length := Lead(u, l.right[gap..], true);
    if length == 0 then l
    else
      l.(left := l.left + l.right[..gap] + InCase(u, l.right[gap..gap + length], how),
         right := l.right[gap + length..], last := Other)
  }

  // -------------------------------------------------------------------------------- recall

  function Show(l: Line, index: Option<nat>, text: string): Line {
    l.(index := index, left := text, right := "", last := Other)
  }

  function Keep(l: Line): Line { if l.index.None? then l.(saved := l.left + l.right) else l }

  function Earlier(l: Line, s: Setting): Line
    requires Sound(l, s)
  {
    if s.history == [] then l
    else
      var index := if l.index.None? then |s.history| - 1 else if l.index.value == 0 then 0 else l.index.value - 1;
      Show(Keep(l), Some(index), s.history[index])
  }

  function Later(l: Line, s: Setting): Line
    requires Sound(l, s)
  {
    if l.index.None? then l
    else if l.index.value + 1 < |s.history| then Show(l, Some(l.index.value + 1), s.history[l.index.value + 1])
    else Show(l, None, l.saved)
  }

  function Earliest(l: Line, s: Setting): Line {
    if s.history == [] then Idle(l) else Show(Keep(l), Some(0), s.history[0])
  }

  function Latest(l: Line): Line { if l.index.None? then Idle(l) else Show(l, None, l.saved) }

  // ---------------------------------------------------------------------------------- keys

  /** C-t and the keys of one character. */
  function PlainKey(l: Line, s: Setting, c: char): Outcome
    requires Sound(l, s)
  {
    if Some(c) == s.eolDelim || c == '\n' || c == '\r' || c == '\U{0f}' then Ends(Some(l.left + l.right))
    else if c == '\U{01}' then Goes(PointAt(l, 0), false)
    else if c == '\U{05}' then Goes(Forward(l, |l.right|), false)
    else if c == '\U{02}' then Goes(Back(l, Min(1, |l.left|)), false)
    else if c == '\U{06}' then Goes(Forward(l, Min(1, |l.right|)), false)
    else if c == BACKSPACE || c == DEL then Goes(Rubbed(l), false)
    else if c == '\U{04}' then if l.left == "" == l.right then Ends(None) else Goes(Deleted(l), false)
    else if c == '\U{0b}' then Goes(KillAhead(l, |l.right|), false)
    else if c == '\U{15}' then Goes(KillBehind(l, |l.left|), false)
    else if c == '\U{17}' then Goes(KillBehind(l, RuboutBehind(l.left)), false)
    else if c == '\U{14}' then Goes(Transposed(l), false)
    else if c == '\U{19}' then Goes(Yanked(l), false)
    else if c == '\U{10}' then Goes(Earlier(l, s), false)
    else if c == '\U{0e}' then Goes(Later(l, s), false)
    else if c == '\U{0c}' then Goes(Idle(l), true)
    else if c == '\U{16}' then Goes(l.(esc := QuotedInsert), false)
    else if c == '\U{18}' then Goes(l.(esc := Ctlx), false)
    else if c == ESC then Goes(l.(esc := Meta), false)
    else if c >= ' ' then Goes(Insert(l, [c]), false)
    else Goes(Idle(l), false)
  }

  function MetaKey(l: Line, s: Setting, c: char): Outcome
    requires Sound(l, s)
  {
    var u := s.tables;
    if c == '[' then Goes(l.(esc := Csi, params := ""), false)
    else if c == 'O' then Goes(l.(esc := Ss3), false)
    else if c == 'b' then Goes(Back(l, WordBehind(u, l.left)), false)
    else if c == 'f' then Goes(Forward(l, WordAhead(u, l.right)), false)
    else if c == 'd' then Goes(KillAhead(l, WordAhead(u, l.right)), false)
    else if c == DEL || c == BACKSPACE then Goes(KillBehind(l, WordBehind(u, l.left)), false)
    else if c == 'u' then Goes(Recase(l, u, Upper), false)
    else if c == 'l' then Goes(Recase(l, u, Lower), false)
    else if c == 'c' then Goes(Recase(l, u, Capital), false)
    else if c == 't' then if MeetsMultibyte(u, l.left) then Panics else Goes(WordsTransposed(l, u), false)
    else if c == 'y' then Goes(Popped(l), false)
    else if c == '<' then Goes(Earliest(l, s), false)
    else if c == '>' then Goes(Latest(l), false)
    else Goes(Idle(l), false)
  }

  function ArrowKey(l: Line, s: Setting, c: char, word: bool): Line
    requires Sound(l, s)
  {
    if c == 'A' then Earlier(l, s)
    else if c == 'B' then Later(l, s)
    else if c == 'C' then Forward(l, if word then WordAhead(s.tables, l.right) else Min(1, |l.right|))
    else if c == 'D' then Back(l, if word then WordBehind(s.tables, l.left) else Min(1, |l.left|))
    else if c == 'H' then PointAt(l, 0)
    else if c == 'F' then Forward(l, |l.right|)
    else l
  }

  /** The first of the parameters is this digit. */
  predicate FirstIs(params: string, key: char) {
    params != "" && params[0] == key && (|params| == 1 || params[1] == ';')
  }

  /** The last of several parameters is 5 or 3: Control or Alt is held. */
  predicate Modified(params: string) { EndsIn(params, ";5") || EndsIn(params, ";3") }

  function TildeKey(l: Line, s: Setting, params: string, word: bool): Line {
    if FirstIs(params, '1') || FirstIs(params, '7') then PointAt(l, 0)
    else if FirstIs(params, '4') || FirstIs(params, '8') then Forward(l, |l.right|)
    else if FirstIs(params, '3') then
      if word then l.(right := l.right[WordAhead(s.tables, l.right)..], last := Other) else Deleted(l)
    else if FirstIs(params, '5') then Earliest(l, s)
    else if FirstIs(params, '6') then Latest(l)
    else Idle(l)
  }

  /** One character of input. */
  function Press(l: Line, s: Setting, c: char): Outcome
    requires Sound(l, s)
  {
    match l.esc
    case QuotedInsert => Goes(Insert(l.(esc := NoEsc), [c]), false)
    case Meta => MetaKey(l.(esc := NoEsc), s, c)
    case Csi =>
      if '\U{40}' <= c <= '\U{7e}' then
        var m, word := Idle(l.(esc := NoEsc, params := "")), Modified(l.params);
        Goes(if c == '~' then TildeKey(m, s, l.params, word) else ArrowKey(m, s, c, word), false)
      else Goes(l.(params := l.params + [c]), false)
    case Ss3 => Goes(ArrowKey(Idle(l.(esc := NoEsc)), s, c, false), false)
    case Ctlx => Goes(Idle(l.(esc := NoEsc)), false)
    case NoEsc => PlainKey(l, s, c)
  }
}
