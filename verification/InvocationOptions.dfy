/**
 What a command line asks for. A line is a run of options and an ending: a command, a script, the standard
 input, a request for a list, or a word the shell refuses. Here the fields of the parsed invocation are read
 off the options directly, without the two passes over the words.
 */
module InvocationOptions {
  import opened Wrappers
  import opened Sequences
  import opened Invocation
  import opened InvocationTheorems

  // ------------------------------------------------------------------------ options

  datatype LongOption =
    Login | Posix | NoProfile | NoRc | NoEditing | Debug | Debugger | Dap
    | DumpStrings | DumpPo | PrettyPrint | Restricted | Verbose

  /** One option: a long one, a file to read, a named option, or a letter. */
  datatype Choice =
    | Long(option: LongOption)
    | LoginLetter
    | RcFile(init: bool, file: string)
    | Shell(on: bool, name: string)
    | Shopt(on: bool, name: string)
    | Letter(on: bool, flag: nat)
    | Interactive(on: bool)
    | Dump(on: bool)
    | Restrict(on: bool)

  const FLAG_LETTERS: string := "abefhkmnptuvxBCEHPT"
  const FLAG_NAMES: seq<string> := [
    "allexport", "notify", "errexit", "noglob", "hashall", "keyword", "monitor", "noexec", "privileged", "onecmd",
    "nounset", "verbose", "xtrace", "braceexpand", "noclobber", "errtrace", "histexpand", "physical", "functrace"]

  predicate Possible(c: Choice) { c.Letter? ==> c.flag < |FLAG_LETTERS| }

  predicate AllPossible(all: seq<Choice>) { forall k :: 0 <= k < |all| ==> Possible(all[k]) }

  function LongWord(option: LongOption): string {
    match option
    case Login => "--login" case Posix => "--posix" case NoProfile => "--noprofile" case NoRc => "--norc"
    case NoEditing => "--noediting" case Debug => "--debug" case Debugger => "--debugger" case Dap => "--dap"
    case DumpStrings => "--dump-strings" case DumpPo => "--dump-po-strings" case PrettyPrint => "--pretty-print"
    case Restricted => "--restricted" case Verbose => "--verbose"
  }

  function Sign(on: bool): char { if on then '-' else '+' }

  /** An option of one letter: `-` switches it on and `+` off. */
  function Lettered(on: bool, letter: char): string { [Sign(on), letter] }

  function FileWord(init: bool): string { if init then "--init-file" else "--rcfile" }

  /** The option as it is written. */
  function Written(c: Choice): seq<string>
    requires Possible(c)
  {
    match c
    case Long(option) => [LongWord(option)]
    case LoginLetter => ["-l"]
    case RcFile(init, file) => [FileWord(init), file]
    case Shell(on, name) => [Lettered(on, 'o'), name]
    case Shopt(on, name) => [Lettered(on, 'O'), name]
    case Letter(on, flag) => [Lettered(on, FLAG_LETTERS[flag])]
    case Interactive(on) => [Lettered(on, 'i')]
    case Dump(on) => [Lettered(on, 'D')]
    case Restrict(on) => [Lettered(on, 'r')]
  }

  function AllWritten(all: seq<Choice>): seq<string>
    requires AllPossible(all)
  {
    if all == [] then []
    else
      assert Possible(Last(all));
      AllWritten(Front(all)) + Written(Last(all))
  }

  function Last<T>(s: seq<T>): T
    requires s != []
  {
    s[|s| - 1]
  }

  function Front<T>(s: seq<T>): seq<T>
    requires s != []
  {
    s[..|s| - 1]
  }

  // ---------------------------------------------------------------- what they ask for

  /** The pair one option records among the named shell options. */
  function ShellFlag(c: Choice): Option<(string, bool)>
    requires Possible(c)
  {
    match c
    case Shell(on, name) => Some((name, on))
    case Letter(on, flag) => Some((FLAG_NAMES[flag], on))
    case Long(option) => if option == Verbose then Some(("verbose", true)) else None
    case _ => None
  }

  /** Those pairs, in the order of the line. */
  function ShellFlags(all: seq<Choice>): seq<(string, bool)>
    requires AllPossible(all)
  {
    if all == [] then []
    else
      var before := ShellFlags(Front(all));
      assert Possible(Last(all));
      match ShellFlag(Last(all))
      case Some(pair) => before + [pair]
      case None => before
  }

  function ShoptFlags(all: seq<Choice>): seq<(string, bool)> {
    if all == [] then []
    else
      var before := ShoptFlags(Front(all));
      if Last(all).Shopt? then before + [(Last(all).name, Last(all).on)] else before
  }

  /** The last file that was named. */
  function LastFile(all: seq<Choice>): Option<string> {
    if all == [] then None
    else if Last(all).RcFile? then Some(Last(all).file)
    else LastFile(Front(all))
  }

  /** The last `-i` or `+i` decides. */
  predicate IsInteractive(all: seq<Choice>) {
    all != [] && if Last(all).Interactive? then Last(all).on else IsInteractive(Front(all))
  }

  predicate IsRestricted(all: seq<Choice>) { Long(Restricted) in all || Restrict(true) in all }

  /** A `+r` behind an option that restricts. */
  predicate LiftsIt(all: seq<Choice>) {
    exists k :: 0 <= k < |all| && all[k] == Restrict(false) && IsRestricted(all[..k])
  }

  predicate Has(all: seq<Choice>, option: LongOption) { Long(option) in all }

  /** What the options ask for, with or without the dump of the strings. */
  function Asked(all: seq<Choice>, dumps: bool): Invocation
    requires AllPossible(all)
  {
    Invocation(
      posix := Has(all, Posix),
      login := Has(all, Login) || LoginLetter in all,
      noProfile := Has(all, NoProfile),
      noRc := Has(all, NoRc),
      rcFile := LastFile(all),
      noEditing := Has(all, NoEditing),
      interactive := IsInteractive(all),
      dumpStrings := dumps,
      dumpPo := Has(all, DumpPo),
      prettyPrint := Has(all, PrettyPrint),
      debug := Has(all, Debug),
      debugger := Has(all, Debugger),
      dap := Has(all, Dap),
      command := None, commandName := None, positionalParams := [], script := None, readStdin := false,
      listShellOptions := None, listShoptOptions := None,
      restricted := IsRestricted(all),
      shellFlags := ShellFlags(all),
      shoptFlags := ShoptFlags(all))
  }

  /** In front of `-c`, `+D` asks for the dump as `-D` does. */
  predicate AsksForDump(c: Choice) { c.Dump? || c == Long(DumpStrings) || c == Long(DumpPo) }

  predicate DumpsEarly(all: seq<Choice>) { exists k :: 0 <= k < |all| && AsksForDump(all[k]) }

  /** Behind `-c`, the last `-D` or `+D` decides. */
  predicate Dumps(before: seq<Choice>, after: seq<Choice>) {
    if after == [] then DumpsEarly(before)
    else if Last(after).Dump? then Last(after).on
    else Dumps(before, Front(after))
  }

  /** The options that are options behind `-c` too. */
  predicate GoesBehind(c: Choice) {
    match c
    case Long(option) =>
      option != DumpStrings && option != DumpPo && option != PrettyPrint && option != Restricted && option != Verbose
    case RcFile(_, _) => false
    case _ => true
  }

  // ------------------------------------------------------------------- one option

  lemma FlagHasItsName(flag: nat)
    requires flag < |FLAG_LETTERS|
    ensures |FLAG_NAMES| == |FLAG_LETTERS|
    ensures CliFlagName(FLAG_LETTERS[flag]) == Some(FLAG_NAMES[flag])
    ensures !SetsField(FLAG_LETTERS[flag]) && FLAG_LETTERS[flag] !in "cslo-O"
  {
  }

  lemma LastAdded<T>(all: seq<T>, c: T)
    ensures Last(all + [c]) == c && Front(all + [c]) == all
    ensures forall x: T :: x in all + [c] <==> x in all || x == c
  {
  }

  lemma PossibleAdded(all: seq<Choice>, c: Choice)
    ensures AllPossible(all + [c]) <==> AllPossible(all) && Possible(c)
  {
    var more := all + [c];
    assert AllPossible(more) ==> Possible(more[|all|]) && forall k :: 0 <= k < |all| ==> more[k] == all[k];
  }

  lemma ShellFlagsAdded(all: seq<Choice>, c: Choice)
    requires AllPossible(all) && Possible(c)
    ensures AllPossible(all + [c])
    ensures ShellFlags(all + [c]) ==
            if ShellFlag(c).Some? then ShellFlags(all) + [ShellFlag(c).value] else ShellFlags(all)
  {
    hide Last, Front, AllPossible, ShellFlag;
    PossibleAdded(all, c);
    LastAdded(all, c);
  }

  lemma LastsAdded(all: seq<Choice>, c: Choice)
    ensures ShoptFlags(all + [c]) == if c.Shopt? then ShoptFlags(all) + [(c.name, c.on)] else ShoptFlags(all)
    ensures LastFile(all + [c]) == if c.RcFile? then Some(c.file) else LastFile(all)
    ensures IsInteractive(all + [c]) == if c.Interactive? then c.on else IsInteractive(all)
    ensures IsRestricted(all + [c]) <==> IsRestricted(all) || c == Long(Restricted) || c == Restrict(true)
  {
    LastAdded(all, c);
    hide Last, Front;
  }

  /** What a line with one more option has in it. */
  predicate MoreBy(all: seq<Choice>, c: Choice, more: seq<Choice>)
    requires AllPossible(all) && AllPossible(more) && Possible(c)
  {
    && (forall o: LongOption :: Has(more, o) <==> Has(all, o) || c == Long(o))
    && (LoginLetter in more <==> LoginLetter in all || c.LoginLetter?)
    && ShellFlags(more) == (if ShellFlag(c).Some? then ShellFlags(all) + [ShellFlag(c).value] else ShellFlags(all))
    && ShoptFlags(more) == (if c.Shopt? then ShoptFlags(all) + [(c.name, c.on)] else ShoptFlags(all))
    && LastFile(more) == (if c.RcFile? then Some(c.file) else LastFile(all))
    && IsInteractive(more) == (if c.Interactive? then c.on else IsInteractive(all))
    && (IsRestricted(more) <==> IsRestricted(all) || c == Long(Restricted) || c == Restrict(true))
  }

  lemma ChoiceAdded(all: seq<Choice>, c: Choice)
    requires AllPossible(all) && Possible(c) && AllPossible(all + [c])
    ensures MoreBy(all, c, all + [c])
  {
    hide Last, Front, AllPossible, ShellFlags, ShoptFlags, LastFile, IsInteractive, IsRestricted, ShellFlag;
    ShellFlagsAdded(all, c);
    LastsAdded(all, c);
    LastAdded(all, c);
  }

  lemma StartupAdded(all: seq<Choice>, c: Choice, more: seq<Choice>, dumps: bool, dumpsNow: bool)
    requires AllPossible(all) && AllPossible(more) && Possible(c) && MoreBy(all, c, more)
    requires c == Long(Login) || c == Long(Posix) || c == Long(NoProfile)
    ensures Asked(more, dumpsNow) == With(c, Asked(all, dumps).(dumpStrings := dumpsNow))
  {
    hide AllPossible, Has, ShellFlags, ShoptFlags, LastFile, IsInteractive, IsRestricted;
    if c == Long(Login) {
    } else if c == Long(Posix) {
    } else if c == Long(NoProfile) {
    }
  }

  lemma QuietAdded(all: seq<Choice>, c: Choice, more: seq<Choice>, dumps: bool, dumpsNow: bool)
    requires AllPossible(all) && AllPossible(more) && Possible(c) && MoreBy(all, c, more)
    requires c == Long(NoRc) || c == Long(NoEditing) || c == Long(PrettyPrint)
    ensures Asked(more, dumpsNow) == With(c, Asked(all, dumps).(dumpStrings := dumpsNow))
  {
    hide AllPossible, Has, ShellFlags, ShoptFlags, LastFile, IsInteractive, IsRestricted;
    if c == Long(NoRc) {
    } else if c == Long(NoEditing) {
    } else if c == Long(PrettyPrint) {
    }
  }

  lemma DebugAdded(all: seq<Choice>, c: Choice, more: seq<Choice>, dumps: bool, dumpsNow: bool)
    requires AllPossible(all) && AllPossible(more) && Possible(c) && MoreBy(all, c, more)
    requires c == Long(Debug) || c == Long(Debugger) || c == Long(Dap)
    ensures Asked(more, dumpsNow) == With(c, Asked(all, dumps).(dumpStrings := dumpsNow))
  {
    hide AllPossible, Has, ShellFlags, ShoptFlags, LastFile, IsInteractive, IsRestricted;
    if c == Long(Debug) {
    } else if c == Long(Debugger) {
    } else if c == Long(Dap) {
    }
  }

  lemma DumpAdded(all: seq<Choice>, c: Choice, more: seq<Choice>, dumps: bool, dumpsNow: bool)
    requires AllPossible(all) && AllPossible(more) && Possible(c) && MoreBy(all, c, more)
    requires c == Long(DumpStrings) || c == Long(DumpPo)
    ensures Asked(more, dumpsNow) == With(c, Asked(all, dumps).(dumpStrings := dumpsNow))
  {
    hide AllPossible, Has, ShellFlags, ShoptFlags, LastFile, IsInteractive, IsRestricted;
    if c == Long(DumpStrings) {
    } else if c == Long(DumpPo) {
    }
  }

  lemma RestrictedAdded(all: seq<Choice>, c: Choice, more: seq<Choice>, dumps: bool, dumpsNow: bool)
    requires AllPossible(all) && AllPossible(more) && Possible(c) && MoreBy(all, c, more)
    requires c == Long(Restricted)
    ensures Asked(more, dumpsNow) == With(c, Asked(all, dumps).(dumpStrings := dumpsNow))
  {
    hide AllPossible, Has, ShellFlags, ShoptFlags, LastFile, IsInteractive, IsRestricted;
  }

  lemma VerboseAdded(all: seq<Choice>, c: Choice, more: seq<Choice>, dumps: bool, dumpsNow: bool)
    requires AllPossible(all) && AllPossible(more) && Possible(c) && MoreBy(all, c, more)
    requires c == Long(Verbose)
    ensures Asked(more, dumpsNow) == With(c, Asked(all, dumps).(dumpStrings := dumpsNow))
  {
    hide AllPossible, Has, ShellFlags, ShoptFlags, LastFile, IsInteractive, IsRestricted;
  }

  lemma ValueAdded(all: seq<Choice>, c: Choice, more: seq<Choice>, dumps: bool, dumpsNow: bool)
    requires AllPossible(all) && AllPossible(more) && Possible(c) && MoreBy(all, c, more)
    requires c.RcFile? || c.Shell? || c.Shopt?
    ensures Asked(more, dumpsNow) == With(c, Asked(all, dumps).(dumpStrings := dumpsNow))
  {
    hide AllPossible, Has, ShellFlags, ShoptFlags, LastFile, IsInteractive, IsRestricted;
    if c.RcFile? {
    } else if c.Shell? {
    } else if c.Shopt? {
    }
  }

  lemma SwitchAdded(all: seq<Choice>, c: Choice, more: seq<Choice>, dumps: bool, dumpsNow: bool)
    requires AllPossible(all) && AllPossible(more) && Possible(c) && MoreBy(all, c, more)
    requires c.LoginLetter? || c.Interactive? || c.Restrict?
    ensures Asked(more, dumpsNow) == With(c, Asked(all, dumps).(dumpStrings := dumpsNow))
  {
    hide AllPossible, Has, ShellFlags, ShoptFlags, LastFile, IsInteractive, IsRestricted;
    if c.LoginLetter? {
    } else if c.Interactive? {
    } else if c.Restrict? {
    }
  }

  lemma FlagAdded(all: seq<Choice>, c: Choice, more: seq<Choice>, dumps: bool, dumpsNow: bool)
    requires AllPossible(all) && AllPossible(more) && Possible(c) && MoreBy(all, c, more)
    requires c.Letter? || c.Dump?
    ensures Asked(more, dumpsNow) == With(c, Asked(all, dumps).(dumpStrings := dumpsNow))
  {
    hide AllPossible, Has, ShellFlags, ShoptFlags, LastFile, IsInteractive, IsRestricted;
    if c.Letter? {
    } else if c.Dump? {
    }
  }

  /** What one option changes. */
  lemma AskedAdded(all: seq<Choice>, c: Choice, dumps: bool, dumpsNow: bool)
    requires AllPossible(all) && Possible(c)
    ensures AllPossible(all + [c])
    ensures Asked(all + [c], dumpsNow) == With(c, Asked(all, dumps).(dumpStrings := dumpsNow))
  {
    hide Last, Front, AllPossible, Asked, With, MoreBy;
    PossibleAdded(all, c);
    ChoiceAdded(all, c);
    var more := all + [c];
    match c {
      case Long(option) =>
        match option {
          case Login => StartupAdded(all, c, more, dumps, dumpsNow);
          case Posix => StartupAdded(all, c, more, dumps, dumpsNow);
          case NoProfile => StartupAdded(all, c, more, dumps, dumpsNow);
          case NoRc => QuietAdded(all, c, more, dumps, dumpsNow);
          case NoEditing => QuietAdded(all, c, more, dumps, dumpsNow);
          case PrettyPrint => QuietAdded(all, c, more, dumps, dumpsNow);
          case Debug => DebugAdded(all, c, more, dumps, dumpsNow);
          case Debugger => DebugAdded(all, c, more, dumps, dumpsNow);
          case Dap => DebugAdded(all, c, more, dumps, dumpsNow);
          case DumpStrings => DumpAdded(all, c, more, dumps, dumpsNow);
          case DumpPo => DumpAdded(all, c, more, dumps, dumpsNow);
          case Restricted => RestrictedAdded(all, c, more, dumps, dumpsNow);
          case Verbose => VerboseAdded(all, c, more, dumps, dumpsNow);
        }
      case RcFile(_, _) => ValueAdded(all, c, more, dumps, dumpsNow);
      case Shell(_, _) => ValueAdded(all, c, more, dumps, dumpsNow);
      case Shopt(_, _) => ValueAdded(all, c, more, dumps, dumpsNow);
      case Letter(_, _) => FlagAdded(all, c, more, dumps, dumpsNow);
      case Dump(_) => FlagAdded(all, c, more, dumps, dumpsNow);
      case _ => SwitchAdded(all, c, more, dumps, dumpsNow);
    }
  }

  function With(c: Choice, out: Invocation): Invocation
    requires Possible(c)
  {
    match c
    case Long(option) => WithLong(option, out)
    case LoginLetter => out.(login := true)
    case RcFile(_, file) => out.(rcFile := Some(file))
    case Shell(on, name) => out.(shellFlags := out.shellFlags + [(name, on)])
    case Shopt(on, name) => out.(shoptFlags := out.shoptFlags + [(name, on)])
    case Letter(on, flag) => out.(shellFlags := out.shellFlags + [(FLAG_NAMES[flag], on)])
    case Interactive(on) => out.(interactive := on)
    case Dump(_) => out
    case Restrict(on) => out.(restricted := on || out.restricted)
  }

  function WithLong(option: LongOption, out: Invocation): Invocation {
    match option
    case Login => out.(login := true)
    case Posix => out.(posix := true)
    case NoProfile => out.(noProfile := true)
    case NoRc => out.(noRc := true)
    case NoEditing => out.(noEditing := true)
    case Debug => out.(debug := true)
    case Debugger => out.(debugger := true)
    case Dap => out.(dap := true)
    case DumpStrings => out
    case DumpPo => out.(dumpPo := true)
    case PrettyPrint => out.(prettyPrint := true)
    case Restricted => out.(restricted := true)
    case Verbose => out.(shellFlags := out.shellFlags + [("verbose", true)])
  }

  lemma LongIsPlain(option: LongOption, out: Invocation)
    requires GoesBehind(Long(option))
    ensures SetPlain(LongWord(option), out) == Some(WithLong(option, out))
  {
  }

  /** An option that goes behind `-c` is none of the early ones. */
  lemma PlainIsNotEarly(option: LongOption, out: Invocation)
    requires GoesBehind(Long(option))
    ensures SetEarly(LongWord(option), out) == SetPlain(LongWord(option), out)
  {
    hide SetPlain;
  }

  lemma EarlyAlone(option: LongOption, out: Invocation)
    requires !GoesBehind(Long(option))
    ensures SetEarly(LongWord(option), out) ==
            Some(WithLong(option, if AsksForDump(Long(option)) then out.(dumpStrings := true) else out))
  {
    hide SetPlain;
  }

  lemma LongIsEarly(option: LongOption, out: Invocation)
    ensures SetEarly(LongWord(option), out) ==
            Some(WithLong(option, if AsksForDump(Long(option)) then out.(dumpStrings := true) else out))
    ensures LongWord(option) != "-c" && LongWord(option) != "-s"
  {
    hide SetPlain, SetEarly, WithLong;
    if GoesBehind(Long(option)) {
      LongIsPlain(option, out);
      PlainIsNotEarly(option, out);
    } else {
      EarlyAlone(option, out);
    }
  }

  /** A letter that is a flag and no option of its own. */
  lemma FlagWordIsNoOther(on: bool, letter: char)
    requires letter !in "cslo-Oi"
    ensures var w := Lettered(on, letter);
            && IsSigned(w) && |w| == 2 && (w[0] == '-' <==> on) && w[1..] == [letter]
            && w != "-c" && w != "-s" && w != "-l" && w != "-i" && !IsValueOption(w) && !EndsOptions(w) && !TakesFile(w)
  {
  }

  lemma ShortIsNoLong(word: string, out: Invocation)
    requires |word| == 2 && word != "-l"
    ensures SetPlain(word, out).None?
    ensures SetEarly(word, out) ==
            if word == "-i" then Some(out.(interactive := true))
            else if word == "-D" || word == "+D" then Some(out.(dumpStrings := true)) else None
  {
  }

  /** One letter as a word of its own is a run of one flag. */
  lemma OneLetterRun(letter: char, enabled: bool, out: Invocation)
    ensures SetFlags([letter], enabled, out) == SetFlag(letter, enabled, out)
  {
    hide SetFlag;
    assert [letter][1..] == "";
  }

  predicate IsRun(c: Choice) { c.Letter? || c.Dump? || c.Restrict? || c == Interactive(false) }

  /** The letter of such a word sets its flag. */
  lemma RunSets(c: Choice, out: Invocation)
    requires IsRun(c) && Possible(c)
    ensures |Written(c)| == 1 && |Written(c)[0]| == 2 && (Written(c)[0][0] == '-' <==> c.on)
    ensures !IsValueOption(Written(c)[0]) && !EndsOptions(Written(c)[0]) && !TakesFile(Written(c)[0])
    ensures Written(c)[0] != "-c" && Written(c)[0] != "-s" && Written(c)[0] != "-l"
    ensures Written(c)[0][1..] != "" && 'o' !in Written(c)[0][1..] && 'O' !in Written(c)[0][1..]
    ensures SetFlags(Written(c)[0][1..], c.on, out) ==
            if c == Restrict(false) && out.restricted then Refused(out)
            else Set(With(c, if c.Dump? then out.(dumpStrings := c.on) else out))
  {
    hide CliFlagName, IsValueOption, EndsOptions, TakesFile, SetFlags;
    var letter := match c
      case Letter(_, flag) => FLAG_LETTERS[flag]
      case Dump(_) => 'D'
      case Restrict(_) => 'r'
      case _ => 'i';
    assert Written(c) == [Lettered(c.on, letter)];
    OneLetterRun(letter, c.on, out);
    if c.Letter? {
      FlagHasItsName(c.flag);
      NoPosixName(letter);
    }
    if letter == 'i' {
      SwitchedOff();
    } else {
      FlagWordIsNoOther(c.on, letter);
    }
  }

  lemma SwitchedOff()
    ensures Lettered(false, 'i') == "+i" && "+i"[1..] == "i"
    ensures !IsValueOption("+i") && !EndsOptions("+i") && !TakesFile("+i")
  {
  }

  predicate IsRefused(c: Choice, out: Invocation) { c == Restrict(false) && out.restricted }

  const REFUSED: string := "+r: invalid option"

  /** What one option in front of `-c` does. */
  function Early(c: Choice, out: Invocation): Invocation
    requires Possible(c)
  {
    With(c, if AsksForDump(c) then out.(dumpStrings := true) else out)
  }

  /** What one option behind `-c` does. */
  function Late(c: Choice, out: Invocation): Invocation
    requires Possible(c)
  {
    With(c, if c.Dump? then out.(dumpStrings := c.on) else out)
  }

  lemma LongStep(option: LongOption, rest: seq<string>, out: Invocation)
    ensures ParseWords([LongWord(option)] + rest, out) == ParseWords(rest, Early(Long(option), out))
  {
    hide LongWord, WithLong, SetEarly;
    LongIsEarly(option, out);
    assert ([LongWord(option)] + rest)[1..] == rest;
  }

  lemma RunStep(c: Choice, rest: seq<string>, out: Invocation)
    requires IsRun(c) && Possible(c)
    ensures ParseWords(Written(c) + rest, out) ==
            if IsRefused(c, out) then Usage(InvalidOption(Written(c)[0])) else ParseWords(rest, Early(c, out))
  {
    RunSets(c, out);
    ShortIsNoLong(Written(c)[0], out);
    hide Written, SetFlags, SetEarly, SetPlain, PostCommand, With, InvalidOption, IsValueOption, EndsOptions, TakesFile;
    assert (Written(c) + rest)[0] == Written(c)[0] && (Written(c) + rest)[1..] == rest;
  }

  lemma ValueOptionStep(on: bool, shopt: bool, name: string, rest: seq<string>, out: Invocation)
    ensures var word := Lettered(on, if shopt then 'O' else 'o');
            ParseWords([word, name] + rest, out) ==
            ParseWords(rest, With(if shopt then Shopt(on, name) else Shell(on, name), out))
  {
    hide PostCommand, SetFlags, TakesFile, EndsOptions;
    var word := Lettered(on, if shopt then 'O' else 'o');
    ShortIsNoLong(word, out);
    FileWordIsLong(word);
    TwoRest(word, name, rest);
    hide SetEarly;
  }

  lemma FileWordIsLong(word: string)
    ensures TakesFile(word) ==> |word| > 2
  {
  }

  lemma LetterStep(word: string, rest: seq<string>, out: Invocation)
    requires word == "-l" || word == "-i"
    ensures ParseWords([word] + rest, out) ==
            ParseWords(rest, if word == "-l" then out.(login := true) else out.(interactive := true))
  {
    hide PostCommand, SetFlags, TakesFile, EndsOptions;
    assert ([word] + rest)[1..] == rest;
  }

  lemma RefusedWord()
    ensures InvalidOption(Written(Restrict(false))[0]) == REFUSED
  {
    assert Written(Restrict(false))[0] == "+r";
  }

  /** One option in front of `-c` or a script. */
  lemma EarlyStep(c: Choice, rest: seq<string>, out: Invocation)
    requires Possible(c)
    ensures ParseWords(Written(c) + rest, out) ==
            if IsRefused(c, out) then Usage(REFUSED) else ParseWords(rest, Early(c, out))
  {
    hide ParseWords, LongWord, WithLong;
    RefusedWord();
    match c {
      case Long(option) => LongStep(option, rest, out);
      case LoginLetter => LetterStep("-l", rest, out);
      case RcFile(init, file) => FileStep(FileWord(init), file, rest, out);
      case Shell(on, name) => ValueOptionStep(on, false, name, rest, out);
      case Shopt(on, name) => ValueOptionStep(on, true, name, rest, out);
      case Interactive(on) =>
        if on {
          LetterStep("-i", rest, out);
        } else {
          RunStep(c, rest, out);
        }
      case _ => RunStep(c, rest, out);
    }
  }

  lemma LateLong(option: LongOption, rest: seq<string>, out: Invocation)
    requires GoesBehind(Long(option))
    ensures PostCommand([LongWord(option)] + rest, out) == PostCommand(rest, Late(Long(option), out))
  {
    hide LongWord, WithLong, SetPlain, GoesBehind;
    LongIsPlain(option, out);
    assert ([LongWord(option)] + rest)[1..] == rest;
  }

  lemma LateLogin(rest: seq<string>, out: Invocation)
    ensures PostCommand(["-l"] + rest, out) == PostCommand(rest, out.(login := true))
  {
    assert (["-l"] + rest)[1..] == rest;
  }

  lemma LateRun(c: Choice, rest: seq<string>, out: Invocation)
    requires IsRun(c) && Possible(c)
    ensures PostCommand(Written(c) + rest, out) ==
            if IsRefused(c, out) then Usage(InvalidOption(Written(c)[0])) else PostCommand(rest, Late(c, out))
  {
    RunSets(c, out);
    ShortIsNoLong(Written(c)[0], out);
    hide Written, SetFlags, SetEarly, SetPlain, With, InvalidOption, IsValueOption, EndsOptions, TakesFile;
    assert (Written(c) + rest)[0] == Written(c)[0] && (Written(c) + rest)[1..] == rest;
    assert IsSigned(Written(c)[0]) by {
      SignedByLength(c);
    }
  }

  lemma SignedByLength(c: Choice)
    requires IsRun(c) && Possible(c)
    ensures IsSigned(Written(c)[0])
  {
  }

  lemma LateValue(on: bool, shopt: bool, name: string, rest: seq<string>, out: Invocation)
    ensures var word := Lettered(on, if shopt then 'O' else 'o');
            PostCommand([word, name] + rest, out) ==
            PostCommand(rest, With(if shopt then Shopt(on, name) else Shell(on, name), out))
  {
    hide SetFlags;
    var word := Lettered(on, if shopt then 'O' else 'o');
    ShortIsNoLong(word, out);
    TwoRest(word, name, rest);
    assert ([word, name] + rest)[2..] == rest;
    hide SetPlain;
  }

  lemma LateInteractive(rest: seq<string>, out: Invocation)
    ensures PostCommand(["-i"] + rest, out) == PostCommand(rest, out.(interactive := true))
  {
    hide CliFlagName, SetFlags;
    ShortIsNoLong("-i", out);
    OneLetterRun('i', true, out);
    assert "-i"[1..] == "i";
    hide SetPlain;
    assert (["-i"] + rest)[1..] == rest;
  }

  /** One option behind `-c`. */
  lemma LateStep(c: Choice, rest: seq<string>, out: Invocation)
    requires Possible(c) && GoesBehind(c)
    ensures PostCommand(Written(c) + rest, out) ==
            if IsRefused(c, out) then Usage(REFUSED) else PostCommand(rest, Late(c, out))
  {
    hide PostCommand, LongWord, WithLong;
    RefusedWord();
    match c {
      case Long(option) => LateLong(option, rest, out);
      case LoginLetter => LateLogin(rest, out);
      case Shell(on, name) => LateValue(on, false, name, rest, out);
      case Shopt(on, name) => LateValue(on, true, name, rest, out);
      case Interactive(on) =>
        if on {
          LateInteractive(rest, out);
        } else {
          LateRun(c, rest, out);
        }
      case _ => LateRun(c, rest, out);
    }
  }

  // --------------------------------------------------------------- runs of options

  lemma LongIsNormal(option: LongOption, rest: seq<string>)
    ensures Normalize([LongWord(option)] + rest) == [LongWord(option)] + Normalize(rest)
  {
    hide Spread;
    LongWordIsLong(option);
    hide LongWord, IsCluster, EndsOptions, TakesFile;
    assert ([LongWord(option)] + rest)[1..] == rest;
  }

  lemma LongWordIsLong(option: LongOption)
    ensures var w := LongWord(option); !EndsOptions(w) && !TakesFile(w) && !IsCluster(w)
  {
    hide AllKnown;
  }

  lemma FileIsNormal(init: bool, file: string, rest: seq<string>)
    ensures Normalize([FileWord(init), file] + rest) == [FileWord(init), file] + Normalize(rest)
  {
    hide Spread;
    TwoRest(FileWord(init), file, rest);
    assert !EndsOptions(FileWord(init)) && TakesFile(FileWord(init));
    hide FileWord, IsCluster, EndsOptions, TakesFile;
  }

  lemma ChoiceIsNormal(c: Choice, rest: seq<string>)
    requires Possible(c)
    ensures Normalize(Written(c) + rest) == Written(c) + Normalize(rest)
  {
    hide Normalize, LongWord, FileWord;
    match c {
      case Long(option) => LongIsNormal(option, rest);
      case RcFile(init, file) => FileIsNormal(init, file, rest);
      case Shell(on, name) => NormalizeValue(Lettered(on, 'o'), name, rest);
      case Shopt(on, name) => NormalizeValue(Lettered(on, 'O'), name, rest);
      case LoginLetter => NormalizeSingle("-l", rest);
      case Interactive(on) => NormalizeSingle(Lettered(on, 'i'), rest);
      case Dump(on) => NormalizeSingle(Lettered(on, 'D'), rest);
      case Restrict(on) => NormalizeSingle(Lettered(on, 'r'), rest);
      case Letter(on, flag) =>
        FlagHasItsName(flag);
        NormalizeSingle(Lettered(on, FLAG_LETTERS[flag]), rest);
    }
  }

  lemma PossibleFront(all: seq<Choice>)
    requires all != [] && AllPossible(all)
    ensures AllPossible(Front(all)) && Possible(Last(all)) && Front(all) + [Last(all)] == all
  {
  }

  /** The first pass leaves separate options as they are. */
  lemma {:induction false} OptionsAreNormal(all: seq<Choice>, rest: seq<string>)
    requires AllPossible(all)
    ensures Normalize(AllWritten(all) + rest) == AllWritten(all) + Normalize(rest)
    decreases |all|
  {
    hide Normalize, Written, AllPossible;
    if all == [] {
      assert [] + rest == rest && [] + Normalize(rest) == Normalize(rest);
    } else {
      PossibleFront(all);
      var written, front := Written(Last(all)), AllWritten(Front(all));
      OptionsAreNormal(Front(all), written + rest);
      ChoiceIsNormal(Last(all), rest);
      Assoc(front, written, rest);
      Assoc(front, written, Normalize(rest));
    }
  }

  /** Whether `+r` lifts a restriction, read from the front of the line. */
  lemma LiftsAdded(all: seq<Choice>, c: Choice)
    ensures LiftsIt(all + [c]) <==> LiftsIt(all) || (c == Restrict(false) && IsRestricted(all))
  {
    hide IsRestricted;
    var more := all + [c];
    assert more[..|all|] == all && more[|all|] == c;
    forall k | 0 <= k < |all| ensures more[k] == all[k] && more[..k] == all[..k] {
    }
  }

  /** What the options in front of `-c` or a script ask for. */
  lemma {:induction false} EarlyOptions(all: seq<Choice>, rest: seq<string>)
    requires AllPossible(all)
    ensures ParseWords(AllWritten(all) + rest, DEFAULTS) ==
            if LiftsIt(all) then Usage(REFUSED) else ParseWords(rest, Asked(all, DumpsEarly(all)))
    decreases |all|
  {
    hide ParseWords, Written, AllPossible, Asked, LiftsIt, DumpsEarly, Early;
    if all == [] {
      NothingAsked();
      assert [] + rest == rest;
    } else {
      PossibleFront(all);
      var c, front := Last(all), Front(all);
      Assoc(AllWritten(front), Written(c), rest);
      EarlyOptions(front, Written(c) + rest);
      LiftsAdded(front, c);
      EarlyAsked(front, c);
      EarlyStep(c, rest, Asked(front, DumpsEarly(front)));
    }
  }

  lemma NothingAsked()
    ensures AllPossible([]) && Asked([], false) == DEFAULTS && !DumpsEarly([]) && !LiftsIt([])
  {
  }

  lemma EarlyAsked(front: seq<Choice>, c: Choice)
    requires AllPossible(front) && Possible(c)
    ensures AllPossible(front + [c])
    ensures IsRefused(c, Asked(front, DumpsEarly(front))) <==> c == Restrict(false) && IsRestricted(front)
    ensures !IsRefused(c, Asked(front, DumpsEarly(front))) ==>
              Early(c, Asked(front, DumpsEarly(front))) == Asked(front + [c], DumpsEarly(front + [c]))
  {
    hide With, AllPossible, IsRestricted, AsksForDump;
    PossibleAdded(front, c);
    DumpsAdded(front, c);
    AskedAdded(front, c, DumpsEarly(front), DumpsEarly(front + [c]));
  }

  lemma DumpsAdded(front: seq<Choice>, c: Choice)
    ensures DumpsEarly(front + [c]) <==> DumpsEarly(front) || AsksForDump(c)
  {
    hide AsksForDump;
    var more := front + [c];
    assert more[|front|] == c;
    forall k | 0 <= k < |front| ensures more[k] == front[k] {
    }
  }

  predicate AllGoBehind(after: seq<Choice>) { forall k :: 0 <= k < |after| ==> GoesBehind(after[k]) }

  lemma AskedReads(all: seq<Choice>, dumps: bool, dumpsNow: bool)
    requires AllPossible(all)
    ensures Asked(all, dumps).restricted == IsRestricted(all)
    ensures Asked(all, dumps).(dumpStrings := dumpsNow) == Asked(all, dumpsNow)
  {
    hide AllPossible, Has, ShellFlags, ShoptFlags, LastFile, IsInteractive, IsRestricted;
  }

  lemma LateDumps(before: seq<Choice>, front: seq<Choice>, c: Choice)
    ensures Dumps(before, front + [c]) == if c.Dump? then c.on else Dumps(before, front)
  {
    LastAdded(front, c);
    hide Last, Front;
  }

  lemma LateAsked(before: seq<Choice>, front: seq<Choice>, c: Choice)
    requires AllPossible(before + front) && Possible(c)
    ensures AllPossible(before + (front + [c]))
    ensures var now := Asked(before + front, Dumps(before, front));
            && (IsRefused(c, now) <==> c == Restrict(false) && IsRestricted(before + front))
            && (!IsRefused(c, now) ==>
                 Late(c, now) == Asked(before + (front + [c]), Dumps(before, front + [c])))
            && (LiftsIt(before + (front + [c])) <==>
                 LiftsIt(before + front) || (c == Restrict(false) && IsRestricted(before + front)))
  {
    hide With, AllPossible, IsRestricted, LiftsIt, Last, Front, Asked, Dumps;
    var all := before + front;
    Assoc(before, front, [c]);
    PossibleAdded(all, c);
    LateDumps(before, front, c);
    LiftsAdded(all, c);
    var dumps, dumpsNow := Dumps(before, front), Dumps(before, front + [c]);
    AskedReads(all, dumps, dumpsNow);
    AskedReads(all, dumps, dumps);
    AskedAdded(all, c, dumps, dumpsNow);
  }

  lemma BothPossible(before: seq<Choice>, after: seq<Choice>)
    ensures AllPossible(before + after) <==> AllPossible(before) && AllPossible(after)
  {
    var all := before + after;
    assert forall k :: 0 <= k < |before| ==> all[k] == before[k];
    assert forall k :: 0 <= k < |after| ==> all[|before| + k] == after[k];
    if AllPossible(all) {
      forall k | 0 <= k < |after| ensures Possible(after[k]) {
        assert Possible(all[|before| + k]);
      }
    }
  }

  /** What the options behind `-c` ask for beside those in front of it. */
  lemma {:induction false} LateOptions(before: seq<Choice>, after: seq<Choice>, rest: seq<string>)
    requires AllPossible(before) && AllPossible(after) && AllGoBehind(after) && !LiftsIt(before)
    ensures AllPossible(before + after)
    ensures PostCommand(AllWritten(after) + rest, Asked(before, DumpsEarly(before))) ==
            if LiftsIt(before + after) then Usage(REFUSED)
            else PostCommand(rest, Asked(before + after, Dumps(before, after)))
    decreases |after|
  {
    hide PostCommand, Written, AllPossible, Asked, LiftsIt, DumpsEarly, Late, IsRestricted, IsRefused;
    BothPossible(before, after);
    if after == [] {
      assert [] + rest == rest && before + after == before;
    } else {
      PossibleFront(after);
      var c, front := Last(after), Front(after);
      BothPossible(before, front);
      Assoc(AllWritten(front), Written(c), rest);
      LateOptions(before, front, Written(c) + rest);
      LateAsked(before, front, c);
      LateStep(c, rest, Asked(before + front, Dumps(before, front)));
    }
  }

  // --------------------------------------------------------------------- whole lines

  /** What stands behind the options in front: all that the line runs, or what makes it refused. */
  datatype Ending =
    | Nothing
    | ListOf(on: bool, shopt: bool)
    | Command(after: seq<Choice>, command: string, operands: seq<string>)
    | NoCommand(after: seq<Choice>)
    | Script(script: string, params: seq<string>)
    | Operands(double: bool, words: seq<string>)
    | Input(params: seq<string>)
    | NoFile(init: bool)
    | Unknown(word: string, rest: seq<string>)

  /** A signed word that is no option: a letter of it is none, or has no `+` form. */
  predicate IsUnknown(word: string) {
    && IsSigned(word) && !IsDash(word) && !TakesFile(word) && (forall option :: word != LongWord(option))
    && (|word| == 1 || word == "+c" || word == "+s" || word == "+l" || !AllKnown(word[1..]))
  }

  predicate PossibleEnding(e: Ending) {
    match e
    case Command(after, command, _) => AllPossible(after) && AllGoBehind(after) && EndsOptions(command)
    case NoCommand(after) => AllPossible(after) && AllGoBehind(after)
    case Script(script, _) => !IsSigned(script)
    case Input(params) => params == [] || EndsOptions(params[0])
    case Unknown(word, _) => IsUnknown(word)
    case _ => true
  }

  function EndingWritten(e: Ending): seq<string>
    requires PossibleEnding(e)
  {
    match e
    case Nothing => []
    case ListOf(on, shopt) => [Lettered(on, if shopt then 'O' else 'o')]
    case Command(after, command, operands) => ["-c"] + (AllWritten(after) + ([command] + operands))
    case NoCommand(after) => ["-c"] + (AllWritten(after) + [])
    case Script(script, params) => [script] + params
    case Operands(double, words) => [if double then "--" else "-"] + words
    case Input(params) => ["-s"] + params
    case NoFile(init) => [FileWord(init)]
    case Unknown(word, rest) => [word] + rest
  }

  function WithOperands(out: Invocation, operands: seq<string>): Invocation {
    if operands == [] then out else out.(commandName := Some(operands[0]), positionalParams := operands[1..])
  }

  /** What the ending adds to what the options in front ask for. */
  function Ended(options: seq<Choice>, e: Ending): Parse
    requires AllPossible(options) && PossibleEnding(e)
  {
    var asked := Asked(options, DumpsEarly(options));
    match e
    case Nothing => Parsed(asked)
    case ListOf(on, shopt) =>
      Parsed(if shopt then asked.(listShoptOptions := Some(!on)) else asked.(listShellOptions := Some(!on)))
    case Command(after, command, operands) =>
      BothPossible(options, after);
      var all := Asked(options + after, Dumps(options, after));
      if LiftsIt(options + after) then Usage(REFUSED)
      else Parsed(WithOperands(all.(command := Some(command)), operands))
    case NoCommand(after) =>
      if LiftsIt(options + after) then Usage(REFUSED) else Usage("-c: option requires an argument")
    case Script(script, params) => Parsed(asked.(script := Some(script), positionalParams := params))
    case Operands(_, words) =>
      if words == [] then Parsed(asked.(readStdin := true))
      else Parsed(asked.(script := Some(words[0]), positionalParams := words[1..]))
    case Input(params) => Parsed(asked.(readStdin := true, positionalParams := params))
    case NoFile(init) => Usage(FileWord(init) + ": option requires an argument")
    case Unknown(word, _) => Usage(word + ": invalid option")
  }

  /** What a line means. */
  function Meaning(options: seq<Choice>, e: Ending): Parse
    requires AllPossible(options) && PossibleEnding(e)
  {
    if LiftsIt(options) then Usage(REFUSED) else Ended(options, e)
  }

  lemma EndsItself(word: string, rest: seq<string>)
    requires EndsOptions(word)
    ensures Normalize([word] + rest) == [word] + rest
  {
  }

  lemma ListedAtEnd(on: bool, shopt: bool, out: Invocation)
    ensures var words := [Lettered(on, if shopt then 'O' else 'o')];
            ParseWords(Normalize(words), out) ==
            Parsed(if shopt then out.(listShoptOptions := Some(!on)) else out.(listShellOptions := Some(!on)))
  {
    hide Normalize, SetFlags, PostCommand, TakesFile, EndsOptions;
    var word := Lettered(on, if shopt then 'O' else 'o');
    LastValueIsNormal(word);
    ShortIsNoLong(word, out);
    FileWordIsLong(word);
    var none: seq<string> := [];
    assert [word][1..] == none;
    hide SetEarly;
  }

  lemma CommandEnds(command: string, operands: seq<string>, out: Invocation)
    requires EndsOptions(command)
    ensures PostCommand([command] + operands, out) ==
            Parsed(WithOperands(out.(command := Some(command)), operands))
  {
    var words := [command] + operands;
    NoLateOption(command, operands, out);
    hide PostCOption;
    assert operands != [] ==> words[1] == operands[0] && words[2..] == operands[1..];
  }

  lemma NoLateOption(command: string, operands: seq<string>, out: Invocation)
    requires EndsOptions(command)
    ensures PostCOption([command] + operands, out) == PostC(0, out)
  {
    hide CliFlagName;
    PlainOptionIsLong(command, out);
    OperandIsNoOption(command);
    hide SetPlain, IsValueOption;
    if command == "--" {
      assert "--"[1..] == "-";
      assert SetFlags("-", true, out) == Flags.Unknown(out) by {
        OneLetterRun('-', true, out);
        DashIsNoFlag(out);
      }
    }
  }

  lemma DashIsNoFlag(out: Invocation)
    ensures SetFlag('-', true, out) == Flags.Unknown(out)
  {
  }

  lemma {:induction false} SetFlagsKnowAll(letters: string, enabled: bool, out: Invocation)
    ensures SetFlags(letters, enabled, out).Set? ==> forall k :: 0 <= k < |letters| ==> IsFlag(letters[k])
    decreases |letters|
  {
    hide SetFlag, IsFlag;
    if letters != "" {
      var first := SetFlag(letters[0], enabled, out);
      if first.Set? {
        SetFlagsKnowAll(letters[1..], enabled, first.out);
        assert IsFlag(letters[0]) by {
          FlagIsKnown(letters[0], enabled, out);
        }
        assert forall k :: 1 <= k < |letters| ==> letters[k] == letters[1..][k - 1];
      }
    }
  }

  lemma FlagIsKnown(letter: char, enabled: bool, out: Invocation)
    ensures SetFlag(letter, enabled, out).Set? ==> IsFlag(letter)
    ensures IsFlag(letter) ==> letter in SHORT_LETTERS && letter !in "csl"
  {
  }

  lemma UnknownIsNormal(word: string, rest: seq<string>)
    requires IsUnknown(word)
    ensures Normalize([word] + rest) == [word] + Normalize(rest)
    ensures !IsValueOption(word) && word != "-c" && word != "-s" && !IsDash(word) && IsSigned(word)
  {
    hide Spread, LongWord;
    assert |word| == 2 ==> word[1..] == [word[1]];
    assert ([word] + rest)[1..] == rest;
  }

  lemma UnknownIsNotEarly(word: string, out: Invocation)
    requires IsUnknown(word)
    ensures SetEarly(word, out).None?
  {
    hide AllKnown;
    assert AllKnown("i") && AllKnown("l") && AllKnown("D") by {
      KnownLetters();
    }
    assert "-i"[1..] == "i" && "-l"[1..] == "l" && "-D"[1..] == "D" && "+D"[1..] == "D";
    assert word != LongWord(Login) && word != LongWord(Posix) && word != LongWord(NoProfile);
    assert word != LongWord(NoRc) && word != LongWord(NoEditing) && word != LongWord(Debug);
    assert word != LongWord(Debugger) && word != LongWord(Dap) && word != LongWord(DumpStrings);
    assert word != LongWord(DumpPo) && word != LongWord(PrettyPrint) && word != LongWord(Restricted);
    assert word != LongWord(Verbose);
  }

  lemma KnownLetters()
    ensures AllKnown("i") && AllKnown("l") && AllKnown("D")
  {
  }

  lemma UnknownIsRefused(word: string, rest: seq<string>, out: Invocation)
    requires IsUnknown(word)
    ensures ParseWords(Normalize([word] + rest), out) == Usage(word + ": invalid option")
  {
    hide Normalize, SetEarly, SetFlags, PostCommand, LongWord, IsValueOption, TakesFile, CliFlagName, IsFlag;
    UnknownIsNormal(word, rest);
    UnknownIsNotEarly(word, out);
    if |word| > 1 {
      SetFlagsKnowAll(word[1..], word[0] == '-', out);
      forall k | 0 <= k < |word[1..]|
        ensures IsFlag(word[1..][k]) ==> word[1..][k] in SHORT_LETTERS && word[1..][k] !in "csl"
      {
        FlagIsKnown(word[1..][k], true, out);
      }
      assert |word| == 2 ==> word[1..][0] == word[1];
    }
  }

  lemma CommandBegins(rest: seq<string>, out: Invocation)
    ensures ParseWords(Normalize(["-c"] + rest), out) == PostCommand(Normalize(rest), out)
  {
    hide Normalize, PostCommand;
    NormalizeSingle("-c", rest);
    assert (["-c"] + Normalize(rest))[1..] == Normalize(rest);
  }

  lemma InputBegins(params: seq<string>, out: Invocation)
    ensures ParseWords(Normalize(["-s"] + params), out) ==
            Parsed(out.(readStdin := true, positionalParams := Normalize(params)))
  {
    hide Normalize, PostCommand;
    NormalizeSingle("-s", params);
    assert (["-s"] + Normalize(params))[1..] == Normalize(params);
  }

  lemma NoFileEnds(init: bool, out: Invocation)
    ensures ParseWords(Normalize([FileWord(init)]), out) == Usage(FileWord(init) + ": option requires an argument")
  {
    hide PostCommand, SetFlags, SetEarly, IsValueOption, Spread;
    var word := FileWord(init);
    assert TakesFile(word) && !EndsOptions(word) && !IsCluster(word);
    FileIsNoOther(word, out);
    var none: seq<string> := [];
    assert [word][1..] == none && Normalize(none) == none && [word] + none == [word];
  }

  lemma WithoutOperands(options: seq<Choice>, e: Ending)
    requires AllPossible(options) && PossibleEnding(e) && !LiftsIt(options)
    requires e.Command? || e.NoCommand?
    ensures ParseWords(Normalize(EndingWritten(e)), Asked(options, DumpsEarly(options))) == Ended(options, e)
  {
    hide ParseWords, Normalize, PostCommand, Asked, AllPossible, LiftsIt, AllWritten, Dumps, DumpsEarly, EndsOptions;
    var tail := if e.Command? then [e.command] + e.operands else [];
    var out := Asked(options, DumpsEarly(options));
    CommandBegins(AllWritten(e.after) + tail, out);
    OptionsAreNormal(e.after, tail);
    BothPossible(options, e.after);
    LateOptions(options, e.after, tail);
    var all := Asked(options + e.after, Dumps(options, e.after));
    if e.Command? {
      EndsItself(e.command, e.operands);
      CommandEnds(e.command, e.operands, all);
    } else {
      NormalizeNothing();
      NoCommandEnds(all);
    }
  }

  lemma NoCommandEnds(out: Invocation)
    ensures PostCommand([], out) == Usage("-c: option requires an argument")
  {
  }

  lemma OperandEnding(options: seq<Choice>, e: Ending)
    requires AllPossible(options) && PossibleEnding(e) && !LiftsIt(options)
    requires e.Script? || e.Operands?
    ensures ParseWords(Normalize(EndingWritten(e)), Asked(options, DumpsEarly(options))) == Ended(options, e)
  {
    hide ParseWords, Normalize, Asked, AllPossible, LiftsIt, DumpsEarly;
    var word, rest := if e.Script? then e.script else if e.double then "--" else "-",
                      if e.Script? then e.params else e.words;
    EndsItself(word, rest);
    OperandParsed([word] + rest, Asked(options, DumpsEarly(options)));
    assert ([word] + rest)[1..] == rest;
  }

  lemma EndingMeans(options: seq<Choice>, e: Ending)
    requires AllPossible(options) && PossibleEnding(e) && !LiftsIt(options)
    ensures ParseWords(Normalize(EndingWritten(e)), Asked(options, DumpsEarly(options))) == Ended(options, e)
  {
    hide ParseWords, Normalize, Asked, AllPossible, LiftsIt, DumpsEarly, IsUnknown, EndsOptions, FileWord;
    var out := Asked(options, DumpsEarly(options));
    match e {
      case Nothing =>
        NormalizeNothing();
        NothingParsed(out);
      case ListOf(on, shopt) => ListedAtEnd(on, shopt, out);
      case Input(params) =>
        InputBegins(params, out);
        InputIsNormal(params);
      case NoFile(init) => NoFileEnds(init, out);
      case Unknown(word, rest) => UnknownIsRefused(word, rest, out);
      case Command(_, _, _) => WithoutOperands(options, e);
      case NoCommand(_) => WithoutOperands(options, e);
      case _ => OperandEnding(options, e);
    }
  }

  lemma InputIsNormal(params: seq<string>)
    requires params == [] || EndsOptions(params[0])
    ensures Normalize(params) == params
  {
  }

  /**
   Any line of separate options and an ending is parsed to what it means: each field is as the options ask
   for it, wherever they stand; the pairs of `-o` and `-O` come in the order of the line and are true exactly
   for `-`; and the ending gives the command, the script, the list, or the message.
   */
  lemma CommandLineMeans(options: seq<Choice>, e: Ending)
    requires AllPossible(options) && PossibleEnding(e)
    ensures ParseArgs(AllWritten(options) + EndingWritten(e)) == Meaning(options, e)
  {
    hide ParseWords, Normalize, Asked, AllPossible, LiftsIt, DumpsEarly, PossibleEnding, EndingWritten, Ended;
    OptionsAreNormal(options, EndingWritten(e));
    EarlyOptions(options, Normalize(EndingWritten(e)));
    if !LiftsIt(options) {
      EndingMeans(options, e);
    }
  }

  /** A cluster behind any options is parsed as its separate letters, each `o` and `O` with the word it takes. */
  lemma ClusterBehindOptions(options: seq<Choice>, sign: char, letters: string, following: seq<string>)
    requires AllPossible(options) && IsSign(sign) && |letters| > 1 && AllKnown(letters)
    ensures ParseArgs(AllWritten(options) + ([[sign] + letters] + following)) ==
            ParseArgs(AllWritten(options) + Separated(sign, letters, following))
  {
    hide AllKnown, AllPossible, Normalize, Separated, ParseWords;
    OptionsAreNormal(options, [[sign] + letters] + following);
    OptionsAreNormal(options, Separated(sign, letters, following));
    ClusterIsSeparated(sign, letters, following);
  }

  lemma ClusterIsSeparated(sign: char, letters: string, following: seq<string>)
    requires IsSign(sign) && |letters| > 1 && AllKnown(letters)
    ensures Normalize([[sign] + letters] + following) == Normalize(Separated(sign, letters, following))
  {
    hide AllKnown, IsCluster, EndsOptions, TakesFile, Spread, Separated;
    ClusterWord(sign, letters);
    SpreadSeparates(sign, letters, following);
    var spread := Spread(sign, letters, following);
    assert ([[sign] + letters] + following)[1..] == following;
    SpreadTakes(sign, letters, following);
    NormalizeSpread(sign, letters, following, following[spread.1..]);
  }

  /**
   A cluster of `o` and another letter with no word behind it asks for no list: the word of the other letter
   becomes the name of the option.
   */
  lemma LastClusterTakesItsLetter(on: bool, letter: char)
    requires letter in SHORT_LETTERS && !TakesValue(letter)
    ensures ParseArgs([[Sign(on), 'o', letter]]) ==
            Parsed(DEFAULTS.(shellFlags := [(LetterWord(Sign(on), letter), on)]))
  {
    hide Normalize, ParseWords;
    var letters, none: seq<string> := ['o', letter], [];
    assert [Sign(on)] + letters == [Sign(on), 'o', letter];
    var word := LetterWord(Sign(on), letter);
    LettersApart(on, letter);
    hide LetterWord;
    ClusterIsSeparated(Sign(on), letters, none);
    var all := [Shell(on, word)];
    assert [[Sign(on), 'o', letter]] + none == [[Sign(on), 'o', letter]];
    CommandLineMeans(all, Nothing);
    OneShellOption(on, word);
  }

  lemma LettersApart(on: bool, letter: char)
    requires letter in SHORT_LETTERS && !TakesValue(letter)
    ensures Separated(Sign(on), ['o', letter], []) == [Lettered(on, 'o'), LetterWord(Sign(on), letter)]
    ensures AllKnown(['o', letter]) && IsSign(Sign(on))
  {
    var letters := ['o', letter];
    assert letters[1..] == [letter] && letters[1..][1..] == "";
    var none: seq<string> := [];
    assert Separated(Sign(on), "", none) == none;
    assert [LetterWord(Sign(on), letter)] + none == [LetterWord(Sign(on), letter)];
    hide LetterWord;
    assert Separated(Sign(on), [letter], none) == [LetterWord(Sign(on), letter)] + Separated(Sign(on), "", none);
    assert LetterWord(Sign(on), 'o') == Lettered(on, 'o') by {
      OptionLetter(on);
    }
  }

  lemma OptionLetter(on: bool)
    ensures LetterWord(Sign(on), 'o') == Lettered(on, 'o')
  {
  }

  lemma OneShellOption(on: bool, name: string)
    ensures var all := [Shell(on, name)];
            && AllPossible(all) && AllWritten(all) + [] == [Lettered(on, 'o'), name]
            && Meaning(all, Nothing) == Parsed(DEFAULTS.(shellFlags := [(name, on)]))
  {
    hide Meaning, AllWritten, Asked;
    var none: seq<Choice> := [];
    var c := Shell(on, name);
    assert none + [c] == [c];
    NothingAsked();
    LiftsAdded(none, c);
    AskedAdded(none, c, false, false);
    assert !DumpsEarly([c]);
    assert Meaning([c], Nothing) == Parsed(Asked([c], false)) by {
      NothingBehind([c]);
    }
    assert AllWritten([c]) + [] == [Lettered(on, 'o'), name] by {
      OneWritten(c);
    }
  }

  lemma NothingBehind(all: seq<Choice>)
    requires AllPossible(all) && !LiftsIt(all)
    ensures Meaning(all, Nothing) == Parsed(Asked(all, DumpsEarly(all)))
  {
    hide Asked;
  }

  lemma OneWritten(c: Choice)
    requires Possible(c)
    ensures AllPossible([c]) && AllWritten([c]) + [] == Written(c)
  {
    var none: seq<string> := [];
    var all := [c];
    assert Front(all) == [] && Last(all) == c;
    assert AllWritten([]) == none;
    assert none + Written(c) == Written(c) && Written(c) + none == Written(c);
  }
}
