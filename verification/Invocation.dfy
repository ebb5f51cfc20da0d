/**
 The command line of the shell (src/invocation.rs): a first pass that spreads clusters of option
 letters into separate words, and a second one that reads the words.
 */
module Invocation {
  import opened Wrappers
  import opened Sequences

  datatype Invocation = Invocation(
    posix: bool, login: bool, noProfile: bool, noRc: bool, rcFile: Option<string>, noEditing: bool,
    interactive: bool, dumpStrings: bool, dumpPo: bool, prettyPrint: bool,
    debug: bool, debugger: bool, dap: bool,
    command: Option<string>, commandName: Option<string>, positionalParams: seq<string>,
    script: Option<string>, readStdin: bool,
    listShellOptions: Option<bool>, listShoptOptions: Option<bool>, restricted: bool,
    shellFlags: seq<(string, bool)>, shoptFlags: seq<(string, bool)>)

  const DEFAULTS := Invocation(false, false, false, false, None, false, false, false, false, false,
                               false, false, false, None, None, [], None, false, None, None, false, [], [])

  /** The invocation, or the message of a usage error. */
  datatype Parse = Parsed(value: Invocation) | Usage(message: string)

  /** The short options of src/usage.rs. */
  const SHORT_LETTERS: string := "cilrsDoOabefhkmnptuvxBCEHPT"

  function CliFlagName(flag: char): Option<string> {
    match flag
    case 'a' => Some("allexport") case 'b' => Some("notify") case 'e' => Some("errexit")
    case 'f' => Some("noglob") case 'h' => Some("hashall") case 'k' => Some("keyword")
    case 'm' => Some("monitor") case 'n' => Some("noexec") case 'p' => Some("privileged")
    case 'r' => Some("restricted") case 't' => Some("onecmd") case 'u' => Some("nounset")
    case 'v' => Some("verbose") case 'x' => Some("xtrace") case 'B' => Some("braceexpand")
    case 'C' => Some("noclobber") case 'E' => Some("errtrace") case 'H' => Some("histexpand")
    case 'P' => Some("physical") case 'T' => Some("functrace")
    case _ => None
  }

  predicate IsSigned(word: string) { word != "" && (word[0] == '-' || word[0] == '+') }

  /** The word that ends the options: `-` or `--`, or one that is no option. */
  predicate EndsOptions(word: string) { word == "-" || word == "--" || !IsSigned(word) }

  predicate IsLong(word: string) { |word| >= 2 && word[0] == '-' && word[1] == '-' && word != "--" }

  predicate TakesFile(word: string) { word == "--rcfile" || word == "--init-file" }

  predicate TakesValue(letter: char) { letter == 'o' || letter == 'O' }

  predicate AllKnown(letters: string) { forall k :: 0 <= k < |letters| ==> letters[k] in SHORT_LETTERS }

  /** A word of letters the first pass spreads: a known cluster, or a lone `o` or `O`. */
  predicate IsCluster(word: string) {
    && IsSigned(word) && !EndsOptions(word) && !IsLong(word)
    && ((|word| == 2 && TakesValue(word[1])) || (|word| > 2 && AllKnown(word[1..])))
  }

  // -------------------------------------------------------------------- the first pass

  /** The word one letter of a cluster becomes: some letters have no `+` form. */
  function LetterWord(sign: char, letter: char): (w: string)
    ensures |w| == 2 && w[1] == letter
    ensures sign == '-' || sign == '+' ==> IsSigned(w)
  {
    if letter == 'c' || letter == 's' || letter == 'l' || letter == 'i' || letter == 'D' then ['-', letter]
    else [sign, letter]
  }

  /** The words a cluster becomes, with the values its `o`s and `O`s take from `following`; and how many they take. */
  function Spread(sign: char, letters: string, following: seq<string>): (r: (seq<string>, nat))
    ensures r.1 <= |following|
    decreases |letters|
  {
    if letters == "" then ([], 0)
    else
      var w := LetterWord(sign, letters[0]);
      if TakesValue(letters[0]) && following != [] then
        var more := Spread(sign, letters[1..], following[1..]);
        ([w, following[0]] + more.0, 1 + more.1)
      else
        var more := Spread(sign, letters[1..], following);
        ([w] + more.0, more.1)
  }

  function Normalize(args: seq<string>): seq<string>
    decreases |args|
  {
    if args == [] then []
    else
      var word, rest := args[0], args[1..];
      if EndsOptions(word) then args
      else if TakesFile(word) && rest != [] then [word, rest[0]] + Normalize(rest[1..])
      else if IsCluster(word) then
        var spread := Spread(word[0], word[1..], rest);
        spread.0 + Normalize(rest[spread.1..])
      else [word] + Normalize(rest)
  }

  lemma SpreadAt(sign: char, letters: string, k: nat, args: seq<string>, next: nat)
    requires k < |letters| && next <= |args|
    ensures var w := LetterWord(sign, letters[k]);
            var taking := TakesValue(letters[k]) && next < |args|;
            var after := if taking then next + 1 else next;
            var more := Spread(sign, letters[k + 1..], args[after..]);
            var words := if taking then [w, args[next]] else [w];
            Spread(sign, letters[k..], args[next..]) == (words + more.0, after - next + more.1)
  {
    hide LetterWord, TakesValue;
    assert letters[k..][0] == letters[k] && letters[k..][1..] == letters[k + 1..];
    if next < |args| {
      DropStep(args, next);
    }
  }

  /** The inner loop of the first pass: one cluster. */
  method SpreadCluster(args: seq<string>, i: nat, expanded: seq<string>) returns (out: seq<string>, nextValue: nat)
    requires i < |args| && IsCluster(args[i])
    ensures var spread := Spread(args[i][0], args[i][1..], args[i + 1..]);
            out == expanded + spread.0 && nextValue == i + 1 + spread.1
  {
    hide Spread, LetterWord, TakesValue, AllKnown;
    var sign, letters := args[i][0], args[i][1..];
    ghost var all := Spread(sign, letters, args[i + 1..]);
    out, nextValue := expanded, i + 1;
    var k := 0;
    assert letters[0..] == letters;
    while k < |letters|
      invariant k <= |letters| && i + 1 <= nextValue <= |args|
      invariant expanded + all.0 == out + Spread(sign, letters[k..], args[nextValue..]).0
      invariant i + 1 + all.1 == nextValue + Spread(sign, letters[k..], args[nextValue..]).1
    {
      var flag := letters[k];
      SpreadAt(sign, letters, k, args, nextValue);
      var w := LetterWord(sign, flag);
      if TakesValue(flag) && nextValue < |args| {
        Assoc(out, [w, args[nextValue]], Spread(sign, letters[k + 1..], args[nextValue + 1..]).0);
        out := out + [w, args[nextValue]];
        nextValue := nextValue + 1;
      } else {
        Assoc(out, [w], Spread(sign, letters[k + 1..], args[nextValue..]).0);
        out := out + [w];
      }
      k := k + 1;
    }
    SpreadNothing(sign, args[nextValue..]);
    assert letters[k..] == "" && out + [] == out;
  }

  lemma SpreadNothing(sign: char, following: seq<string>)
    ensures Spread(sign, "", following) == ([], 0)
  {
  }

  lemma NormalizeAt(args: seq<string>, i: nat)
    requires i < |args|
    ensures var word := args[i];
            && (EndsOptions(word) ==> Normalize(args[i..]) == args[i..])
            && (!EndsOptions(word) && TakesFile(word) && i + 1 < |args| ==>
                 Normalize(args[i..]) == [word, args[i + 1]] + Normalize(args[i + 2..]))
            && (!EndsOptions(word) && !(TakesFile(word) && i + 1 < |args|) && !IsCluster(word) ==>
                 Normalize(args[i..]) == [word] + Normalize(args[i + 1..]))
            && (!EndsOptions(word) && !(TakesFile(word) && i + 1 < |args|) && IsCluster(word) ==>
                 var spread := Spread(word[0], word[1..], args[i + 1..]);
                 Normalize(args[i..]) == spread.0 + Normalize(args[i + 1 + spread.1..]))
  {
    hide Spread, IsCluster, EndsOptions, TakesFile;
    DropStep(args, i);
    if i + 1 < |args| {
      DropStep(args, i + 1);
    }
    if args[i] != "" {
      DropDrop(args, i + 1, Spread(args[i][0], args[i][1..], args[i + 1..]).1);
    }
  }

  method NormalizeArgs(args: seq<string>) returns (expanded: seq<string>)
    ensures expanded == Normalize(args)
  {
    hide Normalize, Spread, AllKnown;
    expanded := [];
    var i := 0;
    assert args[0..] == args;
    while i < |args|
      invariant i <= |args|
      invariant Normalize(args) == expanded + Normalize(args[i..])
      decreases |args| - i
    {
      var arg := args[i];
      NormalizeAt(args, i);
      if arg == "-" || arg == "--" {
        return expanded + args[i..];
      }
      if IsLong(arg) {
        if TakesFile(arg) && i + 1 < |args| {
          Assoc(expanded, [arg, args[i + 1]], Normalize(args[i + 2..]));
          expanded := expanded + [arg, args[i + 1]];
          i := i + 2;
          continue;
        }
        Assoc(expanded, [arg], Normalize(args[i + 1..]));
        expanded := expanded + [arg];
        i := i + 1;
        continue;
      }
      if !IsSigned(arg) {
        return expanded + args[i..];
      }
      if IsCluster(arg) {
        ghost var spread := Spread(arg[0], arg[1..], args[i + 1..]);
        Assoc(expanded, spread.0, Normalize(args[i + 1 + spread.1..]));
        expanded, i := SpreadCluster(args, i, expanded);
        continue;
      }
      Assoc(expanded, [arg], Normalize(args[i + 1..]));
      expanded := expanded + [arg];
      i := i + 1;
    }
    NormalizeNothing();
    assert args[i..] == [] && expanded + [] == expanded;
  }

  lemma NormalizeNothing()
    ensures Normalize([]) == []
  {
  }

  // ------------------------------------------------------------------- the second pass

  /** What a run of single-letter flags does: it is done, stops at an unknown letter, or is refused. */
  datatype Flags = Set(out: Invocation) | Unknown(out: Invocation) | Refused(out: Invocation)

  function SetFlag(flag: char, enabled: bool, out: Invocation): (r: Flags)
    ensures r.out.script == out.script
  {
    if flag == 'i' then Set(out.(interactive := enabled))
    else if flag == 'D' then Set(out.(dumpStrings := enabled))
    else if flag == 'r' then
      if out.restricted && !enabled then Refused(out) else Set(out.(restricted := enabled))
    else
      match CliFlagName(flag)
      case None => Unknown(out)
      case Some(name) =>
        var named := if name == "posix" then out.(posix := enabled) else out;
        Set(named.(shellFlags := named.shellFlags + [(name, enabled)]))
  }

  function SetFlags(flags: string, enabled: bool, out: Invocation): (r: Flags)
    ensures r.out.script == out.script
  {
    if flags == "" then Set(out)
    else
      var first := SetFlag(flags[0], enabled, out);
      if first.Set? then SetFlags(flags[1..], enabled, first.out) else first
  }

  /** `-o`, `+o`, `-O` and `+O` with the word that follows, or as a request for the list without one. */
  function SetOption(word: string, value: Option<string>, out: Invocation): (r: Invocation)
    requires |word| == 2
    ensures r.script == out.script
  {
    var minus := word[0] == '-';
    match value
    case Some(name) =>
      if word[1] == 'o' then out.(shellFlags := out.shellFlags + [(name, minus)])
      else out.(shoptFlags := out.shoptFlags + [(name, minus)])
    case None =>
      if word[1] == 'o' then out.(listShellOptions := Some(!minus)) else out.(listShoptOptions := Some(!minus))
  }

  predicate IsValueOption(word: string) { word == "-o" || word == "+o" || word == "-O" || word == "+O" }

  function InvalidOption(word: string): string { word + ": invalid option" }

  /** The options both walks know and that stand alone. */
  function SetPlain(word: string, out: Invocation): (r: Option<Invocation>)
    ensures r.Some? ==> r.value.script == out.script
  {
    if word == "--login" || word == "-l" then Some(out.(login := true))
    else if word == "--posix" then Some(out.(posix := true))
    else if word == "--noprofile" then Some(out.(noProfile := true))
    else if word == "--norc" then Some(out.(noRc := true))
    else if word == "--noediting" then Some(out.(noEditing := true))
    else if word == "--debug" then Some(out.(debug := true))
    else if word == "--dap" then Some(out.(dap := true))
    else if word == "--debugger" then Some(out.(debugger := true))
    else None
  }

  /** The options only the walk before `-c` knows. */
  function SetEarly(word: string, out: Invocation): (r: Option<Invocation>)
    ensures r.Some? ==> r.value.script == out.script
  {
    if word == "-i" then Some(out.(interactive := true))
    else if word == "-D" || word == "+D" then Some(out.(dumpStrings := true))
    else if word == "--dump-strings" then Some(out.(dumpStrings := true))
    else if word == "--dump-po-strings" then Some(out.(dumpStrings := true, dumpPo := true))
    else if word == "--pretty-print" then Some(out.(prettyPrint := true))
    else if word == "--restricted" then Some(out.(restricted := true))
    else if word == "--verbose" then Some(out.(shellFlags := out.shellFlags + [("verbose", true)]))
    else SetPlain(word, out)
  }

  /** One option behind `-c`: how many words it took (none when it is no option), or a usage error. */
  datatype PostC = PostC(taken: nat, out: Invocation) | Rejected(message: string)

  function PostCOption(words: seq<string>, out: Invocation): (r: PostC)
    ensures r.PostC? ==> r.taken <= |words| && r.out.script == out.script
  {
    if words == [] then PostC(0, out)
    else
      var word := words[0];
      var plain := SetPlain(word, out);
      if plain.Some? then PostC(1, plain.value)
      else if IsValueOption(word) then
        if |words| > 1 then PostC(2, SetOption(word, Some(words[1]), out)) else PostC(1, SetOption(word, None, out))
      else if !IsSigned(word) || |word| == 1 || 'o' in word[1..] || 'O' in word[1..] then PostC(0, out)
      else
        match SetFlags(word[1..], word[0] == '-', out)
        case Set(o) => PostC(1, o)
        case Unknown(o) => PostC(0, o)
        case Refused(_) => Rejected(InvalidOption(word))
  }

  /** The options behind `-c`, then the command, its name and the parameters. */
  function PostCommand(words: seq<string>, out: Invocation): (r: Parse)
    ensures r.Parsed? ==> r.value.script == out.script
    decreases |words|
  {
    match PostCOption(words, out)
    case Rejected(message) => Usage(message)
    case PostC(taken, o) =>
      if taken > 0 then PostCommand(words[taken..], o)
      else if words == [] then Usage("-c: option requires an argument")
      else
        var named := o.(command := Some(words[0]));
        Parsed(if |words| > 1 then named.(commandName := Some(words[1]), positionalParams := words[2..]) else named)
  }

  function ParseWords(words: seq<string>, out: Invocation): Parse
    decreases |words|
  {
    if words == [] then Parsed(out)
    else
      var word, rest := words[0], words[1..];
      var early := SetEarly(word, out);
      if word == "-c" then PostCommand(rest, out)
      else if word == "-s" then Parsed(out.(readStdin := true, positionalParams := rest))
      else if early.Some? then ParseWords(rest, early.value)
      else if TakesFile(word) then
        if rest == [] then Usage(word + ": option requires an argument")
        else ParseWords(rest[1..], out.(rcFile := Some(rest[0])))
      else if IsValueOption(word) then
        if rest == [] then ParseWords(rest, SetOption(word, None, out))
        else ParseWords(rest[1..], SetOption(word, Some(rest[0]), out))
      else if word == "-" || word == "--" then
        if rest == [] then Parsed(out.(readStdin := true))
        else Parsed(out.(script := Some(rest[0]), positionalParams := rest[1..]))
      else if !IsSigned(word) then Parsed(out.(script := Some(word), positionalParams := rest))
      else if |word| == 1 || 'o' in word[1..] then Usage(InvalidOption(word))
      else
        match SetFlags(word[1..], word[0] == '-', out)
        case Set(o) => ParseWords(rest, o)
        case _ => Usage(InvalidOption(word))
  }

  function ParseArgs(args: seq<string>): Parse { ParseWords(Normalize(args), DEFAULTS) }

  // ----------------------------------------------------------------- its loops

  method ReadFlags(flags: string, enabled: bool, out0: Invocation) returns (r: Flags)
    ensures r == SetFlags(flags, enabled, out0)
  {
    hide SetFlag;
    var out, k := out0, 0;
    assert flags[0..] == flags;
    while k < |flags|
      invariant k <= |flags|
      invariant SetFlags(flags, enabled, out0) == SetFlags(flags[k..], enabled, out)
    {
      assert flags[k..][0] == flags[k] && flags[k..][1..] == flags[k + 1..];
      var first := SetFlag(flags[k], enabled, out);
      if !first.Set? {
        return first;
      }
      out := first.out;
      k := k + 1;
    }
    assert flags[k..] == "";
    return Set(out);
  }

  method ParsePostCOption(args: seq<string>, index: nat, out: Invocation) returns (r: PostC)
    requires index <= |args|
    ensures r == PostCOption(args[index..], out)
  {
    hide SetPlain, SetOption, SetFlags;
    if index == |args| {
      return PostC(0, out);
    }
    DropStep(args, index);
    var arg := args[index];
    var plain := SetPlain(arg, out);
    if plain.Some? {
      return PostC(1, plain.value);
    }
    if IsValueOption(arg) {
      if index + 1 < |args| {
        assert args[index..][1] == args[index + 1];
        return PostC(2, SetOption(arg, Some(args[index + 1]), out));
      }
      return PostC(1, SetOption(arg, None, out));
    }
    if !IsSigned(arg) || |arg| == 1 || 'o' in arg[1..] || 'O' in arg[1..] {
      return PostC(0, out);
    }
    var flags := ReadFlags(arg[1..], arg[0] == '-', out);
    match flags {
      case Set(o) => return PostC(1, o);
      case Unknown(o) => return PostC(0, o);
      case Refused(_) => return Rejected(InvalidOption(arg));
    }
  }

  method ParseCommand(words: seq<string>, from: nat, out0: Invocation) returns (r: Parse)
    requires from <= |words|
    ensures r == PostCommand(words[from..], out0)
  {
    hide PostCOption;
    var out, i := out0, from;
    while true
      invariant from <= i <= |words|
      invariant PostCommand(words[from..], out0) == PostCommand(words[i..], out)
      decreases |words| - i
    {
      var next := ParsePostCOption(words, i, out);
      if next.Rejected? {
        return Usage(next.message);
      }
      if next.taken == 0 {
        out := next.out;
        if i == |words| {
          return Usage("-c: option requires an argument");
        }
        var named := out.(command := Some(words[i]));
        if i + 1 < |words| {
          DropStep(words, i);
          assert words[i..][1] == words[i + 1] && words[i..][2..] == words[i + 2..];
          named := named.(commandName := Some(words[i + 1]), positionalParams := words[i + 2..]);
        }
        return Parsed(named);
      }
      DropDrop(words, i, next.taken);
      out, i := next.out, i + next.taken;
    }
  }

  lemma ParseUnfold(words: seq<string>, i: nat)
    requires i < |words|
    ensures words[i..][0] == words[i] && words[i..][1..] == words[i + 1..]
    ensures i + 1 < |words| ==> words[i + 1..][0] == words[i + 1] && words[i + 1..][1..] == words[i + 2..]
    ensures words[i + 1..] == [] <==> i + 1 == |words|
  {
  }

  method ParseInvocation(args: seq<string>) returns (r: Parse)
    ensures r == ParseArgs(args)
  {
    hide Normalize, PostCommand, SetEarly, SetOption, SetFlags;
    var words := NormalizeArgs(args);
    var out, i := DEFAULTS, 0;
    assert words[0..] == words;
    while i < |words|
      invariant i <= |words|
      invariant ParseArgs(args) == ParseWords(words[i..], out)
      decreases |words| - i
    {
      ParseUnfold(words, i);
      var arg := words[i];
      if arg == "-c" {
        r := ParseCommand(words, i + 1, out);
        return;
      }
      if arg == "-s" {
        return Parsed(out.(readStdin := true, positionalParams := words[i + 1..]));
      }
      var early := SetEarly(arg, out);
      if early.Some? {
        out, i := early.value, i + 1;
        continue;
      }
      if TakesFile(arg) {
        if i + 1 == |words| {
          return Usage(arg + ": option requires an argument");
        }
        out, i := out.(rcFile := Some(words[i + 1])), i + 2;
        continue;
      }
      if IsValueOption(arg) {
        if i + 1 < |words| {
          out, i := SetOption(arg, Some(words[i + 1]), out), i + 2;
        } else {
          out, i := SetOption(arg, None, out), i + 1;
        }
        continue;
      }
      if arg == "-" || arg == "--" {
        if i + 1 < |words| {
          return Parsed(out.(script := Some(words[i + 1]), positionalParams := words[i + 2..]));
        }
        return Parsed(out.(readStdin := true));
      }
      if !IsSigned(arg) {
        return Parsed(out.(script := Some(arg), positionalParams := words[i + 1..]));
      }
      if |arg| == 1 || 'o' in arg[1..] {
        return Usage(InvalidOption(arg));
      }
      var flags := ReadFlags(arg[1..], arg[0] == '-', out);
      if !flags.Set? {
        return Usage(InvalidOption(arg));
      }
      out, i := flags.out, i + 1;
    }
    assert words[i..] == [];
    return Parsed(out);
  }
}
