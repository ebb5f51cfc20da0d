/**
 What HISTCONTROL and HISTIGNORE ask of a line to be recorded (src/history.rs). The white space that is
 trimmed is a parameter.
 */
module HistoryControl {
  import opened Wrappers
  import opened HistoryText
  import Spec = HistorySpec
  import Glob
  import Substitution

  function TrimStart(s: string, isWhite: char -> bool): (r: string)
    ensures r != "" ==> !isWhite(r[0])
    ensures |r| <= |s| && s[|s| - |r|..] == r
    ensures forall k :: 0 <= k < |s| - |r| ==> isWhite(s[k])
  {
    if s == "" || !isWhite(s[0]) then s else TrimStart(s[1..], isWhite)
  }

  function TrimEnd(s: string, isWhite: char -> bool): (r: string)
    ensures r != "" ==> !isWhite(r[|r| - 1])
    ensures |r| <= |s| && s[..|r|] == r
    ensures forall k :: |r| <= k < |s| ==> isWhite(s[k])
  {
    if s == "" || !isWhite(s[|s| - 1]) then s else TrimEnd(s[..|s| - 1], isWhite)
  }

  /** `str::trim`. */
  function Trim(s: string, isWhite: char -> bool): string { TrimEnd(TrimStart(s, isWhite), isWhite) }

  /** `r` stands at `a` in `s`, between white space. */
  ghost predicate StandsAt(s: string, r: string, a: nat, isWhite: char -> bool) {
    && a + |r| <= |s| && s[a..a + |r|] == r
    && forall k :: 0 <= k < a || a + |r| <= k < |s| ==> isWhite(s[k])
  }

  /** Nothing is left of a text exactly when it is all white space; otherwise what is left begins and ends
      with something else and stands in the text between white space. */
  lemma TrimmedText(s: string, isWhite: char -> bool)
    ensures var r := Trim(s, isWhite);
            && (r == "" <==> forall c :: c in s ==> isWhite(c))
            && (r != "" ==> !isWhite(r[0]) && !isWhite(r[|r| - 1]))
            && exists a: nat :: StandsAt(s, r, a, isWhite)
  {
    hide TrimStart, TrimEnd;
    var t, r := TrimStart(s, isWhite), Trim(s, isWhite);
    var a := |s| - |t|;
    assert t == s[a..] && r == t[..|r|];
    assert s[a..a + |r|] == r;
    forall k | 0 <= k < a || a + |r| <= k < |s| ensures isWhite(s[k]) {
      assert k >= a ==> t[k - a] == s[k];
    }
    assert StandsAt(s, r, a, isWhite);
    if r == "" {
      assert forall k :: 0 <= k < |s| ==> isWhite(s[k]);
    } else {
      assert r[0] == t[0] && t[0] == s[a] && s[a] in s;
    }
  }

  // ------------------------------------------------------------------- HISTCONTROL

  datatype Controls = Controls(ignoreSpace: bool, ignoreDups: bool, eraseDups: bool)

  /** One of the parts between the colons is the word. */
  predicate Asks(parts: seq<string>, word: string, isWhite: char -> bool) {
    exists k :: 0 <= k < |parts| && Trim(parts[k], isWhite) == word
  }

  function ControlsOf(parts: seq<string>, isWhite: char -> bool): Controls {
    Controls(Asks(parts, "ignorespace", isWhite) || Asks(parts, "ignoreboth", isWhite),
             Asks(parts, "ignoredups", isWhite) || Asks(parts, "ignoreboth", isWhite),
             Asks(parts, "erasedups", isWhite))
  }

  lemma AsksNext(parts: seq<string>, i: nat, word: string, isWhite: char -> bool)
    requires i < |parts|
    ensures Asks(parts[..i + 1], word, isWhite) <==> Asks(parts[..i], word, isWhite) || Trim(parts[i], isWhite) == word
  {
    hide Trim;
    var next := parts[..i + 1];
    assert forall k :: 0 <= k < i ==> next[k] == parts[..i][k];
    assert next[i] == parts[i];
  }

  method ReadControls(histcontrol: string, isWhite: char -> bool) returns (control: Controls)
    ensures control == ControlsOf(Split(histcontrol, ':'), isWhite)
  {
    hide Trim, Asks;
    var parts := Split(histcontrol, ':');
    control := Controls(false, false, false);
    NothingAsked(isWhite);
    assert parts[..0] == [];
    var i := 0;
    while i < |parts|
      invariant i <= |parts|
      invariant control == ControlsOf(parts[..i], isWhite)
    {
      var part := Trim(parts[i], isWhite);
      AsksNext(parts, i, "ignorespace", isWhite);
      AsksNext(parts, i, "ignoredups", isWhite);
      AsksNext(parts, i, "ignoreboth", isWhite);
      AsksNext(parts, i, "erasedups", isWhite);
      if part == "ignorespace" {
        control := control.(ignoreSpace := true);
      } else if part == "ignoredups" {
        control := control.(ignoreDups := true);
      } else if part == "ignoreboth" {
        control := control.(ignoreSpace := true, ignoreDups := true);
      } else if part == "erasedups" {
        control := control.(eraseDups := true);
      }
      i := i + 1;
    }
    assert parts[..i] == parts;
  }

  lemma NothingAsked(isWhite: char -> bool)
    ensures ControlsOf([], isWhite) == Controls(false, false, false)
  {
  }

  // -------------------------------------------------------------------- HISTIGNORE

  /** A pattern with its ampersands replaced by the previous line; None when it needs a previous line and
      there is none. */
  function ResolvedPattern(pattern: string, previous: Option<string>): Option<string> {
    if '&' !in pattern then Some(pattern)
    else if previous.None? then None
    else Some(Substitution.ReplaceAll("&", previous.value, pattern))
  }

  ghost predicate IgnoredBy(line: string, pattern: string, previous: Option<string>) {
    && pattern != ""
    && ResolvedPattern(pattern, previous).Some?
    && Glob.Language(Glob.Items(ResolvedPattern(pattern, previous).value, 0), line)
  }

  /** One of the patterns between the colons matches the line. */
  ghost predicate Ignored(line: string, histignore: string, isWhite: char -> bool, previous: Option<string>) {
    var parts := Split(histignore, ':');
    exists k :: 0 <= k < |parts| && IgnoredBy(line, Trim(parts[k], isWhite), previous)
  }

  method HistoryShouldIgnore(line: string, histignore: string, isWhite: char -> bool, previous: Option<string>)
      returns (ignored: bool)
    ensures ignored <==> Ignored(line, histignore, isWhite, previous)
  {
    hide Trim, ResolvedPattern;
    var parts := Split(histignore, ':');
    if histignore == "" {
      EmptyIsTrimmed(isWhite);
      return false;
    }
    hide Split;
    var i := 0;
    while i < |parts|
      invariant i <= |parts|
      invariant forall k :: 0 <= k < i ==> !IgnoredBy(line, Trim(parts[k], isWhite), previous)
    {
      var pattern := Trim(parts[i], isWhite);
      var resolved := ResolvedPattern(pattern, previous);
      if pattern != "" && resolved.Some? {
        var accepted := Glob.Fnmatch(resolved.value, line);
        if accepted {
          return true;
        }
      }
      i := i + 1;
    }
    return false;
  }

  lemma EmptyIsTrimmed(isWhite: char -> bool)
    ensures Trim("", isWhite) == ""
  {
  }

  // ----------------------------------------------------------------------- the call

  /** One call of `record` as the list sees it. */
  ghost function CallFor(line: string, histcontrol: string, histignore: string, histsize: Option<nat>,
                         isWhite: char -> bool, stamp: string, previous: Option<string>): Spec.Call {
    var control := ControlsOf(Split(histcontrol, ':'), isWhite);
    Spec.Call(line, stamp, Trim(line, isWhite) == "" || Ignored(line, histignore, isWhite, previous),
              control.ignoreSpace, control.ignoreDups, control.eraseDups, histsize)
  }
}
