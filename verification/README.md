# Verification model of rubash

Rubash is a Bash 5.3 engine. This project models six parts of it in Dafny and proves properties of
the models:

- **the `read -e` line editor** (`src/readline_editor.rs`): `EditorSpec` is the transition system on UTF-8
  offsets, `LineEditor` the imperative editor proved against it, `EditorTheorems` the theorems about runs,
  `EditorAscii` sessions on ASCII text, `EditorWords` what a word is to its keys. `CharEditor` is an editor of
  characters, with no bytes in it; `CharText`, `EditorRefines` and `EditorRuns` prove that every session is one
  of it;
- **the session history** (`src/history.rs`): `HistorySpec` and `HistoryText` say what recording,
  stifling, loading, writing, appending and truncating do, `HistoryControl` what HISTCONTROL and
  HISTIGNORE ask for, `SessionHistory` is the imperative list,
  `HistoryRecords`, `HistoryLoads`, `HistoryFileTheorems`, `HistoryTruncate` and `HistoryLog` hold the theorems about
  recording, files and runs, `Glob` is the pattern matcher and `GlobPatterns` what patterns mean as they are written,
  `StampTime` the numeral parser;
- **history expansion** (`src/history_expand.rs`): `HistoryScan` (quoting and inhibition),
  `HistoryTokenizer`, `HistoryWords` and `GroupedWords` (shell words), `HistoryEvents` and `MatchedWords` (event and
  word designators), `Substitution` and `HistoryModifiers` (modifiers), `ByWords` (the loop of substitution by words),
  `ByWordsPlaces`, `ByWordsLines`, `ByWordsShorter` and `ByWordsEnding` (what it does on lines of plain words),
  `HistoryExpand` and `HistoryExpandTheorems` (the pass and the whole line). `HistoryNames`, `HistorySelections`,
  `HistoryOccurrences`, `HistoryLines` and `HistoryLineLaws` say what a written line means without any walk over its
  characters: event names, word designators, occurrences with their modifiers, and whole lines of text and
  occurrences;
- **the locale walkers** (`src/locale.rs`): `LocaleOffsets` (the chunked boundary walk),
  `LocaleUnits`, `LocaleScanner`, `LocaleWords` and `LocaleDump` (the `$"..."` scanner), `LocaleLocal` and
  `LocaleNested` (what words of nested units give);
- **the command line and the respawn state file** (`src/invocation.rs`): `Invocation`,
  `InvocationTheorems`, `InvocationOptions` (what a written command line asks for) and `RespawnCodec`;
- **the FIFO rendezvous** (`src/winuxcmd_fifo.rs`): `FifoRendezvous`, a two-process protocol as a
  transition system over all interleavings.

`Utf8` holds the well-formed byte sequences of section 4 of RFC 3629, `TextSlices` texts cut at byte
offsets; `Chars`, `Sequences` and `Wrappers` hold what several parts share. Every loop of the program is
a method proved against a specification function or a stated property; the theorems are about those
specifications. `dafny verify dfyconfig.toml` checks all of it.

Texts whose byte offsets matter (the editor, the locale walkers, the codec) are sequences of bytes; a
slice inside a character is a panic of the program and is modelled as an outcome. History lines are
sequences of characters, as the engine's `Vec<char>` is, with byte offsets where the program takes them.
The Unicode tables, the clock and the lexer are parameters of the models.

## Where the code decides

Some things the code does are not what its comments say, or not what one would expect. The model follows
the code; each of these is proved.

- An empty kill arms merging (`src/readline_editor.rs:538-541`), so a following kill joins older text:
  `EmptyKillArms`, `KillsThenYankRestore`.
- M-t reads the byte before a position as if a character started there (`src/readline_editor.rs:631`):
  `FeedPanicsExactlyWhen`, `MultibyteThenTransposePanics`.
- `continue` in the global substitution loop skips the `si += 1` its comment relies on
  (`src/history_expand.rs:721-738`): the loop may not end, and may replace its own replacement:
  `GlobalLoopEndsExactlyWhen`, `OrdinaryExactlyWhen`.
- A backslash outside quotes does not protect a delimiter from ending a word
  (`src/history_expand.rs:992-998`): `BackslashKeepsNothing`, `BackslashSplits`.
- Substitution by words is to replace the first occurrence of each word (`src/history_expand.rs:697-699`).
  The loop knows the end of a word only where it enters one, and goes on from the last character of a
  replacement: it may replace twice in any word, pass over words, and need not end. `EachWordOnceExactlyWhen`,
  `FirstWordTwice`, `LaterWordTwice`, `EachWordOnceWhenApart`, `SkipsNextWord`, `ByWordsEndsExactlyWhen`.
- The byte index of a match is taken for the index of a character (`src/history_expand.rs:453-461`), so `%`
  may give another word or none: `KeptWordIsRightExactlyWhen`, `AnotherWordIsKept`, `MatchedWordIsLost`.
- `<(` or `>(` at the very end of a line is cut in two inside a word (`src/history_expand.rs:1019-1027`):
  `ExtractedWordsReadBack`, `CutOpenerSplits`.
- With a backslash or a backquote as the expansion character a quick substitution is rewritten to its long
  form and left there with status 0 (`src/history_expand.rs:1113-1129`): `StatusZeroExactlyWhen`.
- History truncation counts one byte for every line end (`src/history.rs:549-555`), so that with CR LF it
  keeps part of a dropped line or panics: `TruncateCutsAtLineExactlyWhen`, `TruncatePanicsExactlyWhen`.
- A load under a size limit of zero numbers continuation lines (`src/history.rs:386-447`):
  `ZeroLimitAgreesExactlyWhen`, `ZeroLimitCountsLines`.
- A line stifled before `history -a` is never appended (`src/history.rs:480-504`):
  `EveryLineReachesTheFileExactlyWhen`, `StifledLineIsLost`.
- The arithmetic slice of the locale scanner drops the byte in front of the closing parenthesis without
  looking at it (`src/locale.rs:1593-1594`): `ArithmeticPanicsExactlyWhen`, `ArithmeticCutsCharacter`.
- Behind `-c`, a word that is no option still sets the flags of its letters before the unknown one
  (`src/invocation.rs:793-821`): `CommandWordSetsItsFlags`, `CommandWordLeavesFlagsExactlyWhen`.
- A cluster such as `-oe` at the end of the command line asks for no list, as the comment at
  `src/invocation.rs:304-308` has it of an `-o` with no word behind it: the word made of the next letter becomes the
  name of the option: `LastClusterTakesItsLetter`.

## Model

| member | source | states |
|---|---|---|
| EditorSpec.SpliceIsText | src/readline_editor.rs:563-597 | replacing a stretch between two character boundaries by text leaves text, with a boundary at both ends of the new stretch |
| EditorSpec.RuboutStartIsBoundary | src/readline_editor.rs:272-289 | the bytewise scan of C-w for white space always stops on a character boundary |
| EditorSpec.RingAfterKill | src/readline_editor.rs:533-561 | the ring stays a ring of text, grows by one entry at most and not past 60, merging, opening an entry and dropping the oldest one included |
| EditorSpec.Dispatch | src/readline_editor.rs:173-216 | one character through the escape state keeps the editor invariant unless the session ends or panics |
| EditorSpec.PlainDispatch | src/readline_editor.rs:217-348 | every plain key keeps the invariant (cursor on a boundary of well-formed text, recall index inside the history, yank span equal to its ring entry with the cursor at its end) and leaves the history and the settings of the session as they are |
| EditorSpec.MetaDispatch | src/readline_editor.rs:351-424 | every meta key keeps the invariant, or is the panicking transposition |
| EditorSpec.CsiDispatch | src/readline_editor.rs:426-490 | every CSI sequence keeps the invariant, with modifiers and tilde keys |
| EditorSpec.Ss3Dispatch | src/readline_editor.rs:492-503 | every SS3 key keeps the invariant |
| EditorSpec.Feed | src/readline_editor.rs:149-171 | one fed character counts once and keeps the invariant while the session runs, which it does only below the -n limit; when it panics |
| EditorSpec.FeedAll | src/readline_editor.rs:159-171 | every run of input keeps the invariant up to the end of the session, counts its characters, and never reads past the -n limit |
| EditorTheorems.FeedAllConcat | src/readline_editor.rs:837-845 | feeding a text in two pieces is feeding it at once, up to the end of the session |
| EditorTheorems.OpeningKillConserves | src/readline_editor.rs:537-561 | a kill that opens an entry conserves the line: left part, newest entry and right part make up the old buffer, also when the full ring drops its oldest entry |
| EditorTheorems.MergedKillConserves | src/readline_editor.rs:542-552 | a merging kill, forward or backward, conserves left part + newest entry + right part |
| EditorTheorems.EmptyKillArms | src/readline_editor.rs:538-541 | a kill of nothing changes nothing but arms merging, which the comment at 533-536 denies |
| EditorTheorems.KillsThenYankRestore | src/readline_editor.rs:259-289 | any mix of C-k, C-u, C-w, M-d and M-DEL followed by C-y restores the buffer exactly when the kills opened an entry of their own |
| EditorTheorems.EmptyFirstKillYanksTooMuch | src/readline_editor.rs:537-576 | at the end of any line, with an older entry in the ring, an empty first kill makes the yank bring the older text back too |
| EditorTheorems.YankPopCycles | src/readline_editor.rs:563-597 | after C-y on n entries, k presses of M-y keep the text around the span and insert entry (n-1-k) mod n; n presses restore the session |
| EditorTheorems.RecallRestores | src/readline_editor.rs:693-724 | k previous keys followed by k next keys, from outside recall, show the edited line again for every k |
| EditorTheorems.ScanStopsAtMultibyte | src/readline_editor.rs:629-635 | the byte-before scan of M-t cuts a character exactly when a multibyte character ends where the scan arrives before a word |
| EditorTheorems.FeedPanicsExactlyWhen | src/readline_editor.rs:626-655 | feeding a character panics exactly for M-t with a multibyte character in that place |
| EditorTheorems.MultibyteThenTransposePanics | src/readline_editor.rs:626-655 | any multibyte character typed into an empty line and then M-t: the editor panics |
| EditorAscii.SingleByteRunsNeverPanic | src/readline_editor.rs:626-655 | a session whose initial text, history, kill ring and input are ASCII, with case tables that keep ASCII, never panics |
| EditorAscii.DispatchAscii | src/readline_editor.rs:173-216 | every key keeps the line, the saved line, the history and the ring ASCII, case changes, transpositions, kills, yanks and recall included |
| EditorWords.WordEndIs | src/readline_editor.rs:777-786 | the end of the word after a position is the end of the first run of word characters behind it, or the end of the line when there is none; nothing else is one |
| EditorWords.WordStartIs | src/readline_editor.rs:763-772 | the start of the word before a position is the start of the last run of word characters in front of it, or the start of the line; nothing else is one |
| EditorWords.ForwardWordKeys | src/readline_editor.rs:351-424 | M-f moves to the end of that word, and M-d takes what is up to there out of the line and puts it on the ring |
| EditorWords.BackwardWordKeys | src/readline_editor.rs:351-424 | M-b moves to the start of that word, and M-DEL takes what is back to there out of the line and puts it on the ring |
| CharText.WordAheadIs | src/readline_editor.rs:777-786 | on UTF-8 the scan for the end of a word goes over the characters that are none and then over those that are |
| CharText.RuboutIs | src/readline_editor.rs:272-289 | on UTF-8 the bytewise scan of C-w goes back over blanks and then over characters that are none |
| CharText.TransposeScanIs | src/readline_editor.rs:629-635 | the scan of M-t goes back over characters of one byte that belong to no word, and panics exactly when it meets a character of more bytes first |
| EditorRefines.PressShows | src/readline_editor.rs:173-503 | every key, in every escape state, does to the bytes of a line what it does to the line of characters: moves, insertions, deletions, kills, yanks, transpositions, changes of case and recall; it ends the session with the same line, or panics, in both or in neither |
| EditorRuns.EncodedBack | src/readline_editor.rs:733-735 | well-formed bytes are the characters they decode to |
| EditorRuns.TypingShows | src/readline_editor.rs:149-171 | any run of input from a line and its bytes is the same run of the editor of characters, the -n limit included |
| EditorRuns.SessionsAreOfCharacters | src/readline_editor.rs:114-171 | every session, opened with any text, history, ring, delimiter and limit and fed any input, is the session of the editor of characters: the same line is shown or accepted, and the same inputs panic |
| LineEditor.PrevCharBoundary | src/readline_editor.rs:737-747 | the loop finds the boundary before a position |
| LineEditor.NextCharBoundary | src/readline_editor.rs:749-759 | the loop finds the boundary after a position |
| LineEditor.WordStartBefore | src/readline_editor.rs:763-772 | the two loops find the start of the word before a position |
| LineEditor.WordEndAfter | src/readline_editor.rs:777-786 | the two loops find the end of the word after a position |
| LineEditor.RuboutStart | src/readline_editor.rs:276-284 | the two byte loops of C-w |
| LineEditor.TransposeBounds | src/readline_editor.rs:603-615 | the two characters C-t swaps, at the end of the line and inside it |
| LineEditor.TransposeScan | src/readline_editor.rs:629-635 | the scan of M-t, and whether it slices inside a character |
| LineEditor.Capitalize | src/readline_editor.rs:673-682 | the capitalizing loop: first character upper, the others lower |
| LineEditor.LineEditor.constructor | src/readline_editor.rs:114-135 | a new editor shows the initial text with the cursor behind it and satisfies the invariant |
| LineEditor.LineEditor.Record | src/readline_editor.rs:537-561 | the in-place ring update is the ring of the specification |
| LineEditor.LineEditor.Yank | src/readline_editor.rs:563-576 | the whole new state after C-y |
| LineEditor.LineEditor.YankPop | src/readline_editor.rs:578-597 | the whole new state after M-y |
| LineEditor.LineEditor.TransposeChars | src/readline_editor.rs:599-624 | the whole new state after C-t |
| LineEditor.LineEditor.TransposeWords | src/readline_editor.rs:626-655 | the whole new state after M-t, or the panic |
| LineEditor.LineEditor.ChangeWordCase | src/readline_editor.rs:657-691 | the whole new state after M-u, M-l and M-c |
| LineEditor.LineEditor.HistoryPrevious | src/readline_editor.rs:693-709 | the whole new state after a step back in history |
| LineEditor.LineEditor.HistoryNext | src/readline_editor.rs:711-724 | the whole new state after a step forward in history |
| LineEditor.LineEditor.MetaDispatch | src/readline_editor.rs:351-424 | the imperative dispatcher of meta keys does what the specification says |
| LineEditor.LineEditor.CsiDispatch | src/readline_editor.rs:426-490 | the imperative dispatcher of CSI sequences does what the specification says |
| LineEditor.LineEditor.PlainDispatch | src/readline_editor.rs:210-348 | the imperative dispatcher of plain keys does what the specification says |
| LineEditor.LineEditor.Dispatch | src/readline_editor.rs:173-216 | the escape-state machine does what the specification says |
| LineEditor.LineEditor.Feed | src/readline_editor.rs:162-171 | one call of feed: new state and outcome |
| LineEditor.FeedString | src/readline_editor.rs:837-845 | feeding a whole string: final state and outcome |
| Utf8.SplitWellFormed | src/locale.rs:559-593 | cutting a well-formed text at a boundary leaves two well-formed texts |
| Utf8.AfterAsciiIsBoundary | src/locale.rs:1532-1549 | both sides of an ASCII byte of a well-formed text are character boundaries |
| Utf8.BeforeAscii | src/locale.rs:1593-1594 | in front of an ASCII byte of a well-formed text, exactly an ASCII byte is at a character boundary |
| Utf8.ValidPrefix | src/locale.rs:566-590 | the bulk-validated prefix is well formed and no character starts behind it |
| Utf8.ValidUpToIsMaximal | src/locale.rs:566-590 | no longer prefix is well formed |
| Utf8.DecodeOfEncode | src/readline_editor.rs:733-735 | decoding at the start of an encoded character gives that character, whatever follows |
| LocaleOffsets.MultibyteCharOffsets | src/locale.rs:559-593 | the chunked loop computes the simple walk: a well-formed sequence where one starts, otherwise a single byte |
| LocaleOffsets.WalkIsCharPartition | src/locale.rs:540-593 | for any bytes the offsets increase from 0 to the length and each step is one well-formed character or one byte that starts none |
| LocaleOffsets.CharPartitionIsWalk | src/locale.rs:540-593 | it is the only such list of offsets |
| LocaleOffsets.WalkOfTextIsItsBoundaries | src/locale.rs:559-593 | for well-formed text the offsets are exactly its character boundaries |
| LocaleUnits.CloseIsFirstZero | src/locale.rs:1657-1686 | a closer is found exactly at the first unit after which the unquoted depth is zero |
| LocaleUnits.ParenCloseIsFirstZero | src/locale.rs:1657-1686 | paren_close gives the first place where the unquoted depth returns to zero, and nothing exactly when it never does |
| LocaleUnits.ArithmeticBounds | src/locale.rs:1593-1594 | in `$((...))` the bounds of the inner slice are in order |
| LocaleUnits.SkipDoubleSpan | src/locale.rs:1720-1731 | the loop ends where the double-quoted span ends, nested backquotes and `${...}` included |
| LocaleUnits.SkipDollarBrace | src/locale.rs:1733-1756 | the loop ends behind the brace that brings the depth to zero, or at the end |
| LocaleUnits.SkipSingleQuoted | src/locale.rs:1688-1696 | the loop ends behind the next apostrophe |
| LocaleUnits.SkipAnsiCQuoted | src/locale.rs:1698-1707 | the loop ends behind the next apostrophe no backslash quotes |
| LocaleUnits.SkipBackquoted | src/locale.rs:1709-1718 | the loop ends behind the next backquote no backslash quotes |
| LocaleUnits.FindParenClose | src/locale.rs:1662-1686 | the loop finds the closing parenthesis |
| LocaleScanner.OnlyIntroducedText | src/locale.rs:1395-1475 | every collected string stands in the script right behind a `$"`, on a line no earlier than the first; without a closing parenthesis behind a non-ASCII character no slice is cut inside a character |
| LocaleScanner.ArithmeticPanicsExactlyWhen | src/locale.rs:1593-1594 | the slice of one `$((...))` unit panics exactly when the byte in front of its closing parenthesis is no ASCII byte; otherwise the text between is scanned as arithmetic |
| LocaleScanner.ArithmeticCutsCharacter | src/locale.rs:1593-1594 | an input whose arithmetic slice ends inside a two-byte character |
| LocaleScanner.PlainStringIsFound | src/locale.rs:1485-1490 | a word with one `$"..."` of plain text gives exactly that body |
| LocaleScanner.DollarQuoteInQuotes | src/locale.rs:1551-1578 | the same text inside double quotes gives nothing |
| LocaleScanner.SingleQuotesHide | src/locale.rs:1482 | nothing inside single quotes is collected |
| LocaleWords.WordGivesItsStrings | src/locale.rs:1477-1500 | from a word without backquotes, `${` and `$(` the scan collects, in order, exactly the strings a reader of its quotes finds, whatever the lexer, and cuts no character |
| LocaleLocal.CloseIsLocal | src/locale.rs:1657-1756 | where a bracket closes depends on nothing in front of its stretch of bytes and nothing behind it |
| LocaleNested.PiecesGiveTheirStrings | src/locale.rs:1477-1631 | a word of plain text, escapes, quotes, locale strings, `${...}`, `$(...)` and `$((...))`, one inside another to any depth, gives exactly what its pieces give, in order: a substitution the strings of its own script, a locale string those of its substitutions and then itself |
| LocaleNested.SubstitutionInWord | src/locale.rs:1580-1600 | a closed `$(script)` in a word gives the strings of its script, between those of the text in front of it and behind it |
| LocaleNested.SubstitutionInQuotes | src/locale.rs:1551-1600 | the same inside double quotes |
| LocaleNested.SubstitutionInString | src/locale.rs:1523-1549 | a locale string around a `$(script)` gives the strings of the script first and then its own body |
| LocaleNested.BraceInWord | src/locale.rs:1502-1521 | `${word}` gives the strings of its word read as a word, inside double quotes and outside |
| LocaleNested.UnclosedGivesNothing | src/locale.rs:1590-1592 | a `$(` that is never closed gives nothing, and nothing behind it is read |
| LocaleNested.ClosesExactlyWhenBalanced | src/locale.rs:1657-1686 | without quotes and backslashes, the bracket in front of a text closes right behind it exactly when the text is balanced |
| LocaleNested.ScriptGivesItsStrings | src/locale.rs:1431-1471 | a script gives, token by token and each on its own line, what the pieces of its words, arithmetic commands, brace groups and substitutions give |
| LocaleDump.CollectLocaleStrings | src/locale.rs:1431-1471 | the walk over the tokens appends exactly the strings of the specification, and terminates for any lexer whose tokens are no longer than its input |
| LocaleDump.ScanLocaleWords | src/locale.rs:1477-1500 | the word walk appends exactly its strings, in order |
| LocaleDump.ScanDollarBraceBody | src/locale.rs:1502-1521 | the body of `${...}` is scanned as words and the walk goes on where skipping it would |
| LocaleDump.LocaleBodyEnd | src/locale.rs:1523-1549 | the closing quote of a body, with the strings of its substitutions first |
| LocaleDump.ScanDoubleQuoted | src/locale.rs:1551-1578 | the strings inside double quotes and the index behind the closing quote |
| LocaleDump.ScanSubstitutionUnit | src/locale.rs:1580-1600 | the strings of a `$(...)` or `$((...))` unit, the index behind it, and when its slice panics |
| LocaleDump.ScanArithmeticText | src/locale.rs:1602-1631 | the strings of arithmetic text, nested spans included |
| TextSlices.SliceFromExactlyAtBoundaries | src/history.rs:545-556 | a text can be cut at a byte offset exactly where its bytes have a character boundary; anywhere else the slice panics |
| TextSlices.SliceFromConcat | src/history.rs:545-556 | cutting behind a first part is cutting the second |
| Substitution.Substitute | src/history_expand.rs:691-745 | without g exactly the leftmost match is replaced and failure means there is none; with g the loop yields its text |
| Substitution.GlobalLoopEndsExactlyWhen | src/history_expand.rs:703-739 | the global loop ends exactly unless a one-character pattern ends its own replacement and occurs in the text |
| Substitution.ResultIsUnique | src/history_expand.rs:703-739 | the loop has at most one outcome |
| Substitution.OrdinaryExactlyWhen | src/history_expand.rs:703-739 | it is ordinary left-to-right replacement on all texts exactly for a last replacement character that cannot start the pattern, a replacement of two or more characters by itself, or deletion of one repeated character |
| Substitution.OrdinaryOnEveryText | src/history_expand.rs:703-739 | under that condition it equals the recursive non-overlapping replacement |
| Substitution.ReplacedTwice | src/history_expand.rs:727-730 | a family of inputs where the last replaced character is replaced again |
| Substitution.DeletedTwice | src/history_expand.rs:725-730 | a family of inputs where stepping back after a deletion finds a match that was not there |
| ByWords.SubstituteByWords | src/history_expand.rs:697-739 | the loop with G, run for a given number of iterations: its outcome, or that it has not ended yet |
| ByWords.SubstituteEachWord | src/history_expand.rs:697-739 | the loop with G, run to its end, which it has when the pattern does not occur in its replacement |
| ByWords.ByWordsEnds | src/history_expand.rs:697-739 | substitution by words ends on every text, plain or not, when the pattern does not occur in its replacement |
| ByWords.ByWordsNeverEnds | src/history_expand.rs:703-739 | on a text that begins with the pattern it never ends when the replacement begins with it, too |
| ByWords.ByWordsFailsExactlyWhen | src/history_expand.rs:697-745 | when it ends, it fails exactly when the pattern occurs nowhere in the text |
| ByWords.FirstWordTwice | src/history_expand.rs:703-735 | a family of inputs where two occurrences in the first word are replaced, not the first alone |
| ByWordsPlaces.StepFollows | src/history_expand.rs:697-739 | on a line of plain words each iteration is one step from place to place: past a character, past a match within its word, or into the next word |
| ByWordsLines.EachWordOnceExactlyWhen | src/history_expand.rs:697-739 | on a line of plain words, with a plain pattern and a plain replacement no shorter, the first occurrence in each word and nothing else is replaced exactly when the pattern is nowhere in the replaced first word, if the line begins with the pattern, and nowhere in what any other replaced word has beyond the length of the old one |
| ByWordsLines.LaterWordTwice | src/history_expand.rs:703-735 | a family of lines where two occurrences in the second word are replaced |
| ByWordsLines.LaterWordExample | src/history_expand.rs:703-735 | `b aa` with `a` for `xy` by words is `b xyxy` |
| ByWordsShorter.EachWordOnceWhenApart | src/history_expand.rs:697-739 | with a replacement shorter than its pattern, on lines of plain words, the first occurrence in each word and nothing else is replaced when the pattern is nowhere in what the loop passes over behind a replacement, and nowhere in the replaced word it is held up in |
| ByWordsShorter.SkipsNextWord | src/history_expand.rs:703-735 | a family of lines where the word behind a deleted one is passed over |
| ByWordsShorter.SkipsExample | src/history_expand.rs:703-735 | `b aaa aaa` with `aaa` deleted by words is `b  aaa` |
| ByWordsEnding.ByWordsEndsExactlyWhen | src/history_expand.rs:697-739 | with a plain pattern and replacement the loop ends on every line of plain words exactly unless the replacement begins with the pattern, or ends in it and is at least twice as long |
| ByWordsEnding.NeverEndsOnItself | src/history_expand.rs:697-739 | otherwise it does not end on the line that is the pattern alone |
| HistoryTokenizer.GetWordTail | src/history_expand.rs:972-1041 | the end of a word tail, quotes, nested parentheses and glob openers included |
| HistoryTokenizer.HistoryTokenizeWord | src/history_expand.rs:909-970 | the end of a word is within the line and strictly past a start that is no field delimiter |
| HistoryTokenizer.HistoryTokenizeInternal | src/history_expand.rs:1047-1079 | the words stand in the line in order, apart and non-empty, with only field delimiters between them; the scan stops at the end or at the comment character; the index is that of the word covering the position asked for |
| HistoryTokenizer.WordOver | src/history_expand.rs:1047-1079 | the word over a position is a stretch of the line that holds it, and over every character that is no field delimiter there is one |
| HistoryTokenizer.WordSpan | src/history_expand.rs:1047-1079 | start and end of the word over a position lie around it and within the line |
| HistoryTokenizer.HistoryTokenize | src/history_expand.rs:1082-1089 | the words of a line, or nothing for a line without any |
| HistoryTokenizer.WordAdvances | src/history_expand.rs:1065-1072 | a word is never empty, so the step that forces progress is unreachable |
| HistoryTokenizer.HistoryArgExtract | src/history_expand.rs:874-905 | words first to last joined by spaces, counted from the end for negatives, or nothing out of range |
| HistoryWords.WordLocal | src/history_expand.rs:909-1041 | a word in front of other text is found again in front of a space or the end, exactly unless it is cut from an opener that ends the line |
| HistoryWords.JoinedWordsReadBack | src/history_expand.rs:874-905 | words joined by spaces are read back exactly when each keeps its end |
| HistoryWords.ExtractedWordsReadBack | src/history_expand.rs:874-905 | words extracted from any line are the same words when read again, exactly when none is cut from a closing opener |
| HistoryWords.CutOpenerSplits | src/history_expand.rs:1019-1027 | an input that falls apart: the words of `a<(` |
| HistoryWords.PlainWordsReadBack | src/history_expand.rs:1047-1079 | a line of plain words between single spaces has exactly those words |
| HistoryWords.BackslashKeepsNothing | src/history_expand.rs:992-998 | behind a backslash outside quotes a delimiter ends the word all the same, exactly unless it opens a parenthesis |
| HistoryWords.BackslashSplits | src/history_expand.rs:992-998 | a plain word, a backslash, a space and a plain word are two words, whatever the words are |
| HistoryWords.BackslashExample | src/history_expand.rs:992-998 | the words of `a\ b` |
| GroupedWords.SegmentsAreOneWord | src/history_expand.rs:972-1041 | a word of plain stretches, quoted stretches that may hold anything but their own quote, and groups of balanced parentheses behind `$`, `<`, `>`, `!`, `?`, `@`, `*` or `+` is one word in front of any delimiter |
| GroupedWords.GroupedWordsReadBack | src/history_expand.rs:1047-1079 | a line of such words between single spaces has exactly those words, whatever their quotes and groups hold |
| GroupedWords.OperatorsAreWords | src/history_expand.rs:909-970 | an operator is a word of its own, the longest one that stands there |
| GroupedWords.DescriptorIsOneWord | src/history_expand.rs:909-970 | a duplicated file descriptor such as `2>&1` is one word, with the dash that closes it |
| GroupedWords.DescriptorOfOperator | src/history_expand.rs:909-970 | a file descriptor belongs to the operator behind it |
| HistoryScan.HistStringExtractSingleQuoted | src/history_expand.rs:157-170 | the index of the closing single quote, or the end |
| HistoryScan.SkipSingleQuoted | src/history_expand.rs:172-189 | the index behind the closing single quote, or the end |
| HistoryScan.SkipDoubleQuoted | src/history_expand.rs:191-205 | the index behind the closing double quote, or the end |
| HistoryScan.SkipToHistexp | src/history_expand.rs:207-296 | the scan moves forward within the line and stops at an expansion character or the end |
| HistoryScan.BashHistoryInhibitExpansion | src/history_expand.rs:298-336 | the inhibition test, its scan advancing strictly |
| HistoryScan.SingleQuotesInhibit | src/history_expand.rs:253-256 | every position inside the first single quotes of a line is inhibited |
| HistoryScan.PlainLineInhibitsOnlyInBrackets | src/history_expand.rs:305-336 | in a line without quoting, inhibition is exactly the bracket rule |
| HistoryEvents.GetHistoryEvent | src/history_expand.rs:353-470 | the event resolver against its specification: double character, numbers from either end, prefix and substring searches, and the word kept for `%` |
| HistoryEvents.EventAt | src/history_expand.rs:353-470 | a resolved event name advances strictly past its start and stays within the line |
| HistoryEvents.PreviousEvent | src/history_expand.rs:367-372 | `!!` is the newest line, and nothing in an empty list |
| HistoryEvents.PatternEnd | src/history_expand.rs:403-418 | a search text ends at the first character that ends it |
| HistoryEvents.Newest | src/history_expand.rs:437-470 | the search finds the newest matching line and fails exactly when none matches |
| HistoryEvents.ShortNumbersFit | src/history_expand.rs:382-388 | event numbers of up to 18 digits fit 64 bits, signed or not, so that reading them overflows nowhere |
| HistoryNames.NameMeans | src/history_expand.rs:353-470 | each way to name an event: `!!` is the newest line, `!n` the line with that number, `!-n` the n-th from the end, `!text` the newest line that begins with the text, `!?text?` the newest that has it; and what the search leaves for the next one |
| HistorySelections.SelectionMeans | src/history_expand.rs:774-868 | each word designator as words of the event: `n`, `^`, `$`, `*`, `%`, and the ranges `a-b`, `a-`, `a*`, `a-$`, `-b`, with or without their colon; or an error when there are no such words |
| HistoryOccurrences.OccurrenceMeans | src/history_expand.rs:531-771 | an occurrence with its name, designator and modifiers comes to the text they stand for and ends where it is written to end; an unknown event or bad designator is an error that names the part |
| HistoryOccurrences.ModifiersMean | src/history_expand.rs:591-756 | modifiers are applied one after the other: h, t, r and e take the head, tail, root and suffix, q and x ask for quoting, p for printing, s and & substitute, with g everywhere |
| HistoryOccurrences.EverywhereIsOrdinary | src/history_expand.rs:691-745 | for patterns that are no trouble, a substitution everywhere replaces all occurrences from left to right |
| MatchedWords.KeptWordIsRightExactlyWhen | src/history_expand.rs:453-461 | for a match within a word, that word is the one kept exactly when the bytes in front of the match are fewer than the characters up to the end of the word; behind ASCII text they always are |
| MatchedWords.LooksAtItsWordExactlyWhen | src/history_expand.rs:453-461 | the same of the place looked at, for a match that may reach beyond its word |
| MatchedWords.MatchedWordIsLost | src/history_expand.rs:453-461 | a family of lines where the place is past the end of the line and no word is kept |
| MatchedWords.AnotherWordIsKept | src/history_expand.rs:453-461 | a family of lines where the word behind the one that matched is kept |
| MatchedWords.AnotherWordExample | src/history_expand.rs:453-461 | `éé a b` searched for `a` keeps `b` |
| HistoryEvents.GetHistoryWordSpecifier | src/history_expand.rs:774-868 | the word designator against its specification, errors included |
| HistoryEvents.RangeDesignates | src/history_expand.rs:812-867 | `:a-b` designates words a to b of the event, whatever follows |
| HistoryModifiers.ShSingleQuote | src/history_expand.rs:141-153 | the loop of the q modifier |
| HistoryModifiers.QuoteBreaks | src/history_expand.rs:122-138 | the loop of the x modifier |
| HistoryModifiers.QuotedReadsBack | src/history_expand.rs:122-153 | what q quotes, a shell reads as one word, the text itself; what x quotes, as the pieces of the text between its white space |
| HistoryModifiers.PathParts | src/history_expand.rs:613-632 | head and tail make up the path around its last slash; root and suffix make up the name around its last dot |
| HistoryModifiers.GetSubstPattern | src/history_expand.rs:472-505 | the pattern up to its delimiter, and where it ends |
| HistoryModifiers.PatternReadsBack | src/history_expand.rs:474-505 | a pattern with its delimiters escaped is read back exactly when it does not end in a backslash |
| HistoryModifiers.PostprocSubstRhs | src/history_expand.rs:507-527 | the replacement with unquoted ampersands replaced |
| HistoryModifiers.AmpersandsReadBack | src/history_expand.rs:507-527 | any replacement with its ampersands escaped is read back for every pattern |
| HistoryModifiers.PatternsReadBack | src/history_expand.rs:634-665 | any pattern and replacement not ending in a backslash can be written with any delimiter and are what the substitution uses |
| HistoryModifiers.OpenPatternsReadBack | src/history_expand.rs:634-665 | the replacement of a substitution at the end of the line may be left open |
| HistoryModifiers.SubstituteIn | src/history_expand.rs:670-745 | the outcome of one substitution, leftmost, global or by words: replaced, not found, or no end |
| HistoryModifiers.ApplyModifiers | src/history_expand.rs:591-756 | the modifier loop against its specification, errors and unending substitution included |
| HistoryModifiers.Modify | src/history_expand.rs:591-756 | modifiers never move back and stay within the line |
| HistoryExpand.HistoryExpandInternal | src/history_expand.rs:531-771 | one occurrence: event, words, modifiers and quoting together |
| HistoryExpand.ExpandOne | src/history_expand.rs:531-771 | the end of an expansion is strictly past its start and within the line |
| HistoryExpand.ExpandPass | src/history_expand.rs:1205-1332 | the expansion pass is the run of its moves from the start of the line |
| HistoryExpand.FindCandidate | src/history_expand.rs:1131-1182 | the first pass finds the first place that may expand |
| HistoryExpand.HistoryExpandLine | src/history_expand.rs:1100-1203 | the whole of history_expand: quick substitution, first pass, expansion pass and status |
| HistoryExpandTheorems.StatusZeroIsUnchanged | src/history_expand.rs:1102-1203 | status 0 is given only for the line as it was, and never for a quick substitution |
| HistoryExpandTheorems.StatusZeroExactlyWhen | src/history_expand.rs:1102-1203 | status 0 always means an unchanged line exactly when the expansion character is neither backslash nor backquote; the default one is not |
| HistoryExpandTheorems.QuickLeftOver | src/history_expand.rs:1113-1129 | with such a character a quick substitution comes out rewritten but with status 0 |
| HistoryExpandTheorems.PassIsItsSpans | src/history_expand.rs:1205-1332 | a pass that reaches the end is a tiling of the line and of the result by spans, each moving forward: an expansion is the text its occurrence expands to at that place, quotes, result so far and searches so far included; all else is copied verbatim, single-quoted spans and comment tails included; the line counts as modified exactly when one is an expansion, and as printed only exactly when one asks for that |
| HistoryExpandTheorems.SingleQuotesKeep | src/history_expand.rs:1295-1309 | text between single quotes behind ordinary text is in the result as it is in the line, whatever it holds: the pass goes on behind it as if all so far were copied |
| HistoryExpandTheorems.CommentKeeps | src/history_expand.rs:1310-1322 | a line of ordinary text and a comment comes out as it is, whatever the comment holds |
| HistoryExpandTheorems.UnmodifiedIsCopied | src/history_expand.rs:1206-1332 | a pass that expanded nothing gives the line itself |
| HistoryLines.InhibitedExactlyWhen | src/history_expand.rs:298-336 | behind text without escapes, single quotes and substitutions, an expansion is inhibited exactly in a bracket expression, in `${...}`, behind a `$` that does not begin the line, and in front of a closing double quote |
| HistoryLines.ScanStopsExactlyWhen | src/history_expand.rs:207-296 | behind such text the scan for expansions stops at an expansion character exactly unless that stands in front of a closing double quote |
| HistoryLines.LineMeans | src/history_expand.rs:1100-1332 | a line of text and occurrences comes out with each occurrence replaced by what it stands for there, the later ones knowing what the earlier ones sought and substituted; status, printing and the first error come with it |
| HistoryLineLaws.OneEventMeans | src/history_expand.rs:1100-1332 | an occurrence between ordinary texts is expanded there, and nothing else changes |
| HistoryLineLaws.PreviousIsExpanded | src/history_expand.rs:1100-1332 | `!!` between ordinary texts is the newest line between them, with status 1 |
| HistoryLineLaws.BangBang | src/history_expand.rs:1100-1332 | the same with the usual characters: text, `!!`, text |
| HistoryLineLaws.NumberIsExpanded | src/history_expand.rs:1100-1332 | `!n` and `!-n` between ordinary texts are the line with that number, counted from either end; without such a line the whole line is an error |
| HistoryLineLaws.EscapedIsKept | src/history_expand.rs:1131-1293 | an expansion character behind a backslash is left alone: the line stays as it is, with status 0 |
| HistoryLineLaws.QuickMeans | src/history_expand.rs:1113-1129 | `^lhs^rhs^` is the newest line with its leftmost lhs replaced by rhs, whatever characters the two have, and the text behind it |
| Glob.Fnmatch | src/history.rs:755-759 | a text matches exactly when it is in the declarative language of the pattern |
| Glob.FnmatchAt | src/history.rs:761-837 | the walk accepts exactly what the rest of the pattern stands for and terminates |
| Glob.MatchStar | src/history.rs:764-778 | consecutive stars are one, and a star is an existential split of the text |
| Glob.MatchBracket | src/history.rs:786-826 | a bracket expression: negation, ranges, a leading `]`, and an unterminated `[` as a literal |
| Glob.ScanMembers | src/history.rs:796-811 | the loop over the members of a bracket expression |
| Glob.PlainPattern | src/history.rs:755-759 | a pattern without special characters matches itself alone |
| GlobPatterns.PatternIsItsItems | src/history.rs:761-837 | a pattern written out of stars, question marks, bracket expressions of characters and ranges, and other characters is read as these |
| GlobPatterns.StarBetween | src/history.rs:764-778 | `a*b` matches exactly the texts that begin with a and end, behind that, with b |
| GlobPatterns.RangeMatches | src/history.rs:786-826 | `[lo-hi]` matches exactly the characters of the range, `[!lo-hi]` exactly all others |
| StampTime.StrtolSeconds | src/history.rs:641-676 | the exact signed value of the numeral exactly when it fits 64 bits, otherwise 0 |
| StampTime.ScanDigits | src/history.rs:652-673 | the checked digit loop: value, whether there were digits, whether they overflowed |
| StampTime.OutOfRangeStays | src/history.rs:656-672 | once the digits read are out of range every longer numeral is |
| StampTime.StampReadsBack | src/history.rs:626-635 | a stamp of a representable time reads back as that time, whatever follows the digits |
| HistoryText.LinesOfEntry | src/history.rs:452-475 | the lines of one written entry are its stamp line and its own lines |
| HistorySpec.Stifle | src/history.rs:327-338 | stifling keeps base plus length and bounds the list |
| HistorySpec.WithoutKeepsTheOthers | src/history.rs:300-312 | erasing a line leaves exactly the other entries, in their order and with their stamps |
| HistorySpec.OthersAreInOrder | src/history.rs:300-312 | the entries that stay are exactly those that differ from the line, in their order |
| HistorySpec.Without | src/history.rs:300-312 | the erased line is nowhere in what is left, and nothing is changed when it was not there |
| HistoryFileTheorems.RoundTripExactlyWhen | src/history.rs:386-475 | writing a stamped list and loading it gives back entries and stamps exactly when every entry has a non-empty first line, no line that reads as a stamp and none ending in a carriage return |
| HistoryLoads.FileIsItsRecords | src/history.rs:386-447 | a file of records, each with its stamps, blank lines, first line and further lines, is loaded as one entry for each, in order, with its last stamp or else the time of reading, and nothing that was in the list changes; with stamps and without |
| HistoryLoads.PlainFileIsItsLines | src/history.rs:386-447 | any file that does not begin with a stamp, read when stamps are not in use, is its lines that are not blank, whatever they look like |
| HistoryFileTheorems.LimitedLoadIsStifledLoad | src/history.rs:386-447 | loading any file under a limit of at least 1 into a list within it is loading without limit and stifling, numbering included |
| HistoryFileTheorems.ZeroLimitNumbers | src/history.rs:386-447 | under limit 0 an empty list is left, its numbering ahead of the unlimited load by the lines that continue an entry |
| HistoryFileTheorems.ZeroLimitAgreesExactlyWhen | src/history.rs:386-447 | a load under limit 0 into an empty list is the unlimited load, stifled, exactly when the file is unstamped or no two neighbouring lines continue an entry |
| HistoryFileTheorems.ZeroLimitCountsLines | src/history.rs:386-447 | a file of one entry of two lines, after which the next number is 3 instead of 2 |
| HistoryTruncate.TruncateCutsAtLineExactlyWhen | src/history.rs:545-556 | the cut is at the start of the kept lines exactly when no dropped line ends in CR LF |
| HistoryTruncate.TruncatePanicsExactlyWhen | src/history.rs:545-556 | the cut is one byte too early for each dropped line that ends in CR LF, and the program panics exactly when that byte is inside a character; otherwise so many bytes too many are kept |
| HistoryTruncate.CrLfKeepsTooMuch | src/history.rs:549-555 | a CR LF among the dropped lines leaves part of its line in the file |
| HistoryTruncate.CrLfPanics | src/history.rs:549-555 | a file of four CR LF and LF lines on which truncation panics |
| HistoryTruncate.TruncateKeeps | src/history.rs:511-558 | truncation keeps a tail of the text with exactly the wanted number of commands |
| HistoryTruncate.TruncationsCompose | src/history.rs:511-558 | truncating to m and then to n is truncating to the smaller |
| HistoryTruncate.TruncateThenLoad | src/history.rs:511-558 | for stamped single-line entries, truncating and loading is loading and keeping the last n |
| HistoryLog.ListIsEndOfLog | src/history.rs:271-338 | over every run, base plus length counts the log exactly when no accepted erasedups call found its line in the list, and then the list with its stamps is the end of the log; without erasedups none does |
| HistoryLog.EventsAreLogLines | src/history.rs:712-728 | when nothing was erased so, `!n` and `!-n` give the log's own line or fail |
| HistoryLog.EveryLineReachesTheFileExactlyWhen | src/history.rs:480-504 | after an append the file holds every recorded line once and in order exactly when each append found the list still holding all lines recorded since the one before |
| HistoryLog.StifledLineIsLost | src/history.rs:480-504 | any two lines recorded under a HISTSIZE of 1 and then appended: the file gets the second alone |
| HistoryLog.ErasingRenumbers | src/history.rs:300-312 | an input where erasedups gives a number another line than the log recorded under it |
| HistoryControl.HistoryShouldIgnore | src/history.rs:730-751 | a line is ignored exactly when one of the trimmed patterns between the colons, its ampersands replaced by the previous line, matches it |
| HistoryControl.ReadControls | src/history.rs:283-292 | the flags of HISTCONTROL, each asked for by the trimmed parts between the colons |
| HistoryControl.TrimmedText | src/history.rs:278-285 | trimming leaves nothing exactly of white space, and otherwise what stands between white space |
| HistoryRecords.RecordRefusesExactlyWhen | src/history.rs:271-299 | recording leaves the list as it is exactly for a line that is blank or ignored, that starts with a space or a tab under ignorespace, or that is the newest line again under ignoredups |
| HistoryRecords.RefusedExactlyWhen | src/history.rs:271-299 | the same said of HISTCONTROL as it is written, a list of words between colons and white space, ignoreboth included |
| HistoryRecords.RecordedIsNewest | src/history.rs:300-321 | any other line becomes the newest, with its stamp, unless HISTSIZE keeps no line |
| HistoryRecords.DupsAreIgnored | src/history.rs:271-321 | under ignoredups without erasedups no line ever stands twice running in the list, over any run of calls |
| HistoryRecords.DupsAreErased | src/history.rs:300-312 | under erasedups no line ever stands twice in the list, over any run of calls |
| HistoryRecords.LeadingSpaceIsIgnored | src/history.rs:293-295 | under ignorespace no line with a space or a tab in front ever comes into the list, over any run of calls |
| HistoryText.TerminatedSplit | src/history.rs:284 | the parts of a text split at a character make it up again |
| SessionHistory.SessionHistory.constructor | src/history.rs:242-250 | a new list is empty with base 1 |
| SessionHistory.SessionHistory.Stifle | src/history.rs:327-338 | the dropping loop leaves the newest entries and moves the base |
| SessionHistory.SessionHistory.Erase | src/history.rs:300-312 | the erasedups loop leaves the entries that differ from the line |
| SessionHistory.SessionHistory.Record | src/history.rs:271-321 | the whole new list after recording a line, and whether it was recorded, HISTCONTROL and HISTIGNORE included |
| SessionHistory.SessionHistory.LoadLine | src/history.rs:402-443 | one line of a file: a stamp, a skipped blank, a continuation or a new entry |
| SessionHistory.SessionHistory.LoadFile | src/history.rs:386-447 | the whole new list after loading a file, and the count of lines |
| SessionHistory.SessionHistory.WriteFile | src/history.rs:452-475 | the text of the file written |
| SessionHistory.SessionHistory.AppendFile | src/history.rs:480-504 | the text appended, and the session count set back |
| SessionHistory.TruncateFile | src/history.rs:511-558 | the text kept, or the panic |
| FifoRendezvous.HandleEndsExactlyOnce | src/winuxcmd_fifo.rs:379-467 | in every interleaving, with any number of timeouts, a created handle ends in the returned file or closed exactly once |
| FifoRendezvous.SuccessOnlyWhenConnected | src/winuxcmd_fifo.rs:398-467 | the file is returned only when the connect call succeeded or answered that a writer was connected already (535); every other answer is returned as its own error |
| FifoRendezvous.DefensiveArmsAreDead | src/winuxcmd_fifo.rs:413-467 | both out-of-order arms and the vanished-helper arms are unreachable |
| FifoRendezvous.CallerIsNeverStuck | src/winuxcmd_fifo.rs:413-467 | a caller never waits on a helper that has nothing more to send |
| FifoRendezvous.InterruptCanOvertakeTheConnect | src/winuxcmd_fifo.rs:398-467 | a run in which an interrupt closes the handle before the helper waits on it |
| RespawnCodec.DecodesExactlyTheEncoding | src/invocation.rs:941-985 | decoding gives entries exactly for their encoding, when count and lengths fit 32 bits |
| RespawnCodec.OversizedNeverComesBack | src/invocation.rs:941-951 | entries that do not fit are not what their encoding decodes to |
| RespawnCodec.PrefixCode | src/invocation.rs:941-985 | no encoding is another one with bytes appended |
| RespawnCodec.CutOrPaddedIsRejected | src/invocation.rs:953-985 | every strict prefix and every padded file is rejected |
| RespawnCodec.EncodeRespawnStateEntries | src/invocation.rs:941-951 | the encoding loop |
| RespawnCodec.DecodeRespawnStateEntries | src/invocation.rs:953-985 | the all-or-nothing decoding loop |
| RespawnCodec.ReadU32 | src/invocation.rs:958-963 | a little-endian value at a position, or nothing |
| RespawnCodec.ReadEntry | src/invocation.rs:968-979 | one entry at a position: lengths, key and value as text, or nothing |
| Invocation.NormalizeArgs | src/invocation.rs:85-173 | the first pass over the words |
| Invocation.SpreadCluster | src/invocation.rs:145-169 | one cluster: a word for each letter, each value letter followed by the next word |
| Invocation.ParseInvocation | src/invocation.rs:74-392 | both passes: every field of the invocation, or the usage message |
| Invocation.ParsePostCOption | src/invocation.rs:722-825 | one option behind -c, or that there is none |
| Invocation.ReadFlags | src/invocation.rs:356-381 | a run of flag letters |
| InvocationTheorems.ClusterMeansItsLetters | src/invocation.rs:85-173 | a cluster of known letters in front of any words is parsed as the separate options, each o and O in front of the next word of its own |
| InvocationTheorems.NormalizeTwice | src/invocation.rs:85-173 | the first pass changes nothing when done again |
| InvocationTheorems.ScriptAndParametersAreVerbatim | src/invocation.rs:200-391 | when a script is chosen, it and the positional parameters are the end of the command line as given |
| InvocationTheorems.LettersTakeEffect | src/invocation.rs:793-821 | of any run of flag letters those in front of the first unknown one take effect, and a + word is refused exactly when it would take the restriction off |
| InvocationTheorems.LettersChangeNothingExactlyWhen | src/invocation.rs:793-821 | a run with an unknown letter leaves the invocation alone exactly when each letter in front of it is i, D or r with its field as it says already |
| InvocationTheorems.CommandWordSetsItsFlags | src/invocation.rs:793-821 | behind -c, every word read as flags with a letter among them that is none is the command, with exactly the effect of the flags in front of that letter |
| InvocationTheorems.CommandWordLeavesFlagsExactlyWhen | src/invocation.rs:793-821 | such a command leaves the invocation alone exactly when each flag in front of the unknown letter does |
| InvocationOptions.CommandLineMeans | src/invocation.rs:200-391 | any run of separate options, long, lettered, named or with a file, followed by a command with its own options, a script, `-s`, `-` or `--`, a lone `-o` or `-O`, or a word that is refused, is parsed to the fields these ask for: the pairs of `-o` and `-O` in their order and true exactly for `-`, each other field by which options are there, or the usage message |
| InvocationOptions.EarlyOptions | src/invocation.rs:202-383 | the options in front of `-c`, a script or the end, whatever stands behind them: a `+r` behind an option that restricts is refused, and all others take effect |
| InvocationOptions.LateOptions | src/invocation.rs:204-218 | the options behind `-c` take effect beside those in front of it; there `+D` takes the dump back |
| InvocationOptions.FlagHasItsName | src/invocation.rs:827-851 | the table of flag letters and their option names |
| InvocationOptions.ClusterBehindOptions | src/invocation.rs:85-173 | behind any options a cluster of known letters is parsed as the separate options, each o and O in front of the next word of its own |
| InvocationOptions.LastClusterTakesItsLetter | src/invocation.rs:145-169 | a cluster of o and one more letter at the end of the line: the word of that letter is the name of the option |

## Left out

- ByWordsEnds: one way only, for any pattern and text. For plain ones it is exact in `ByWordsEndsExactlyWhen`; otherwise it depends on where the tokenizer ends words of the text and of the replacement.
- EachWordOnceExactlyWhen: lines of plain words, which the tokenizer ends at their spaces, not lines with quotes, redirections or groups.
- EachWordOnceWhenApart: one way only. A word passed over may have had the same text in the end, as `b aaa aaaa` with `aaa` deleted, where another occurrence of the last word is taken.
- SubstituteIn: where the pattern occurs in its replacement the outcome by words comes from a procedure that is asked to be exact, because the loop need not end; elsewhere it is the loop of `SubstituteEachWord`.
- ApplyModifiers: the same procedure, as in all that is above it.
- GetHistoryEvent: event numbers are unbounded; the program's `usize` arithmetic may overflow on numerals of more than 18 digits (`ShortNumbersFit`).
- GetHistoryWordSpecifier: word numbers are unbounded, where the program has 64 bits; up to 18 digits it is the same.
- Record: reading HISTSIZE is not modelled, its value is an argument, as is the stamp of the clock; white space is a parameter.
- LoadFile: a file is its text; opening, creating and permissions are not modelled.
- Capitalize: upper and lower case are parameters.
- Feed: the outcome for an end of input with a partial line is never produced by the editor and is not part of it.
- CollectLocaleStrings: the lexer is a parameter. Termination and bounds ask only that its tokens are text and no longer than the input; that bodies stand in the script asks that tokens are stretches of it.
- OnlyIntroducedText: the condition for no slice inside a character is one-way for whole scripts, because which parentheses close arithmetic depends on the lexer; for one unit it is exact in `ArithmeticPanicsExactlyWhen`.
- PiecesGiveTheirStrings: words whose quotes, braces and parentheses are closed, with one ordinary character behind every `$` that begins nothing; of units never closed, `$(` is in `UnclosedGivesNothing`.
- LineMeans: text without escapes, single quotes, backquotes, `$` and angle brackets, and an expansion character without another meaning in a line. What the pass does with the others is in `PassIsItsSpans`, `SingleQuotesKeep`, `CommentKeeps` and `EscapedIsKept`.
- ModifiersMean: G, a, the modifier that is no letter of the list, and patterns that end in a backslash are not among its modifiers; `ApplyModifiers` has them.
- CommandLineMeans: separate options. Clusters are brought to them by `ClusterBehindOptions`, and a command that begins with a sign is in `CommandWordSetsItsFlags`. Words behind `-s` are taken as written when the first of them is no option.
- PatternIsItsItems: bracket expressions in which a dash or a closing bracket is a member, or that are never closed; `MatchBracket` has them.
- FileIsItsRecords: no size limit (`LimitedLoadIsStifledLoad` brings one in), and no stamps behind the last record.
- ParseInvocation: applying an invocation to an executor, startup files and the environment carriers.
- HandleEndsExactlyOnce: a panic of the helper thread, the names of pipes and the writing side of a FIFO.
- `read_new_file`, `clear`, `last_line_added` and rendering of stamps in `src/history.rs`: easy members.
- Terminal and console handling, display width and redraw in `src/readline_editor.rs`.
- Locale names, collation, character classes and the visible-text decoder in `src/locale.rs`: library state and tables.
- `startup_env_file` and the command-file carrier in `src/invocation.rs`: finite selection and file access.
- Builtins, executor, parser and lexer are not part of this model.
