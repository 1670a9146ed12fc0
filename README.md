# rShell line editor and command history, in Dafny

rShell is a small interactive shell. Its only stateful logic sits in two places:

- `CommandHistory` keeps an ordered log of submitted commands, oldest first, with at most 1000 entries. It has a browse cursor, and the cursor value `Count` is the "live" position below the newest entry. `AddCommand` rejects blank commands and repeats of the last entry. An accepted command is appended, the oldest entry is evicted past 1000, and the cursor goes live. `GetPrevious` and `GetNext` move the cursor, clamping at the oldest entry and turning into the blank line past the newest. `LoadHistory` builds the initial list from the history file's lines.
- `Input.ReadLine` is a line editor driven by key events. It keeps an edit buffer and an insertion point. Up and Down pull history entries into the buffer. Enter returns the line and records it. Ctrl+C returns the empty string. `GetDisplayLength` measures the prompt's visible width by deleting terminal escape sequences and then markup tags. `UpdateCursorPosition` puts the terminal cursor at that width plus the insertion point.

The model has four modules:

- `Text` (text.dfy) holds the .NET character classifications the code relies on: `char.IsWhiteSpace`, `string.IsNullOrWhiteSpace` and `char.IsControl` (the Unicode Cc range).
- `History` (history.dfy) has the abstract value `State(entries, cursor)` and pure functions that specify each operation: `Add`, `Previous`, `Next`, `Live`, and `Loaded`, plus the filter `NonBlank` and the trim `KeepNewest`. The class `CommandHistory` keeps the source's two mutable fields, `entries: seq<string>` and `currentIndex: int`. Each of its methods is proved to update `Model()` exactly as the matching function says, and to keep the invariant: at most 1000 entries, none blank, `0 <= cursor <= |entries|`.
- `Display` (display.dfy) rewrites the two regular-expression replacements of `GetDisplayLength` as left-to-right scanners that delete each leftmost, non-overlapping match. `DisplayLength` and `CursorColumn` are built on them.
- `Input` (input.dfy) models key events as `KeyInfo(key, keyChar, modifiers)`, as `Console.ReadKey` returns them. `Step` gives the transition for one key and `Run` for a sequence of keys, both on an `Editor(buffer, cursor, history)` value. `ReadLine` is the imperative loop. It calls the history object's methods and is proved to end where `Run` says, both in its result and in the history object's state.

Two details are modelled exactly as the code has them:

- `AddCommand` does not trim its argument. A command with surrounding spaces is stored as given and compared with the last entry as given. Loaded lines are not trimmed either.
- Only the entry directly before a new command is checked for duplicates, and only in `AddCommand`. Loading keeps consecutive duplicates that are already in the file.

## Model

| member | source | states |
|---|---|---|
| `Text.IsWhiteSpace` | rShell/Helpers/CommandHistory.cs:27 | char.IsWhiteSpace: the space separators, U+0009..U+000D, U+0085, U+2028 and U+2029 |
| `Text.IsNullOrWhiteSpace` | rShell/Helpers/CommandHistory.cs:101 | string.IsNullOrWhiteSpace for non-null strings: empty, or white space only; also used at Input.cs:37 |
| `Text.IsControl` | rShell/Helpers/Input.cs:118 | char.IsControl: U+0000..U+001F and U+007F..U+009F |
| `History.Accepts` | rShell/Helpers/CommandHistory.cs:27-32 | the two guards of AddCommand passed: the command is not blank and differs from the last entry |
| `History.Add` | rShell/Helpers/CommandHistory.cs:25-44 | adding keeps the invariant: at most 1000 entries, none blank, cursor in range |
| `History.AddChangesIffAccepted` | rShell/Helpers/CommandHistory.cs:27-42 | the entries change if and only if the command is not blank and differs from the last entry; a refused command leaves entries and cursor untouched; an accepted one makes the cursor equal the new count |
| `History.AddEvictsOldest` | rShell/Helpers/CommandHistory.cs:34-40 | below capacity the command is appended; at 1000 exactly the entry at index 0 is dropped and the rest keep their order; the new length is min(count + 1, 1000) |
| `History.AddNoConsecutiveDuplicate` | rShell/Helpers/CommandHistory.cs:30-40 | after an accepted add the list ends with the command and the entry before it differs; every older entry but the evicted one keeps its place (index i, or i - 1 after an eviction), whether it equals the command or not |
| `History.OnlyAdjacentDuplicatesSuppressed` | rShell/Helpers/CommandHistory.cs:30-32 | adding "ls" to ["ls", "pwd"] appends it (no global dedup); adding "pwd" again changes nothing, cursor included |
| `History.Previous` | rShell/Helpers/CommandHistory.cs:50-61 | GetPrevious never changes the entries and keeps the cursor in range |
| `History.Next` | rShell/Helpers/CommandHistory.cs:67-81 | GetNext never changes the entries and keeps the cursor in range |
| `History.Live` | rShell/Helpers/CommandHistory.cs:86-89 | Reset keeps the entries and sets the cursor to their count, the live position |
| `History.PreviousClamps` | rShell/Helpers/CommandHistory.cs:50-61 | on an empty history Previous shows "" and changes nothing; otherwise the cursor becomes cursor - 1 if it was above 0, else stays 0, and the entry shown is the one at the new cursor |
| `History.PreviousAtOldestRepeats` | rShell/Helpers/CommandHistory.cs:55-60 | at index 0 Previous shows entry 0 again and stays there (clamp, no wrap) |
| `History.NextSteps` | rShell/Helpers/CommandHistory.cs:67-81 | on an empty history Next shows ""; below the newest entry it shows the next one; from the newest entry or the live position it goes live and shows "" |
| `History.NextThenPrevious` | rShell/Helpers/CommandHistory.cs:50-81 | from any entry, Next then Previous returns to that entry and state |
| `History.PreviousThenNext` | rShell/Helpers/CommandHistory.cs:50-81 | from any position above 0, Previous then Next returns to the same state and shows what that position shows ("" when live) |
| `History.PreviousTimes` | rShell/Helpers/CommandHistory.cs:50-61 | any number of Up presses keeps the entries and the cursor in range |
| `History.PreviousTimesClamps` | rShell/Helpers/CommandHistory.cs:55-58 | n Up presses from cursor c land on max(c - n, 0) |
| `History.PreviousAfterAdd` | rShell/Helpers/CommandHistory.cs:25-61 | after an accepted add, the first Previous shows the command just added |
| `History.BrowseScenario` | rShell/Helpers/CommandHistory.cs:50-81 | with ["ls", "echo hi", "ls -l"] from the live position, four Ups and three Downs show "ls -l", "echo hi", "ls", "ls", "echo hi", "ls -l", "" and end live |
| `History.NonBlank` | rShell/Helpers/CommandHistory.cs:101 | the filtered lines are no more than the input lines and none of them is blank |
| `History.NonBlankMembers` | rShell/Helpers/CommandHistory.cs:101 | a string is kept if and only if it is a line of the file and not blank |
| `History.NonBlankConcat` | rShell/Helpers/CommandHistory.cs:101 | the filter keeps the order: filtering a + b gives filter(a) followed by filter(b) |
| `History.NonBlankKeepsClean` | rShell/Helpers/CommandHistory.cs:101 | lines that are all non-blank pass the filter unchanged |
| `History.KeepNewest` | rShell/Helpers/CommandHistory.cs:104-107 | the result is the suffix of length min(count, n) |
| `History.Loaded` | rShell/Helpers/CommandHistory.cs:94-117 | a loaded history meets the invariant and its cursor is live, whatever the file; a missing or unreadable file gives no entries |
| `History.LoadKeepsNewestNonBlank` | rShell/Helpers/CommandHistory.cs:100-107 | the loaded entries are all the non-blank lines in file order when at most 1000, otherwise exactly the newest 1000 with the older ones dropped in front |
| `History.LoadedEntriesComeFromFile` | rShell/Helpers/CommandHistory.cs:100-101 | every loaded entry is a non-blank line of the file |
| `History.SaveLoadRoundTrip` | rShell/Helpers/CommandHistory.cs:94-139 | the list SaveHistory writes for any reachable history loads back as the same entries |
| `History.CommandHistory.constructor` | rShell/Helpers/CommandHistory.cs:12-19 | a new history holds what LoadHistory read and meets the invariant |
| `History.CommandHistory.LoadHistory` | rShell/Helpers/CommandHistory.cs:94-117 | the list becomes the loaded entries (empty on a missing or unreadable file) and the cursor its count |
| `History.CommandHistory.SaveHistory` | rShell/Helpers/CommandHistory.cs:122-139 | the lines written are the entries, one per line, and they load back as the same entries |
| `History.CommandHistory.AddCommand` | rShell/Helpers/CommandHistory.cs:25-44 | the object's new state is Add of its old state; the invariant is kept |
| `History.CommandHistory.GetPrevious` | rShell/Helpers/CommandHistory.cs:50-61 | the returned string and the new state are those of Previous on the old state |
| `History.CommandHistory.GetNext` | rShell/Helpers/CommandHistory.cs:67-81 | the returned string and the new state are those of Next on the old state |
| `History.CommandHistory.Reset` | rShell/Helpers/CommandHistory.cs:86-89 | the cursor becomes the count; the entries stay |
| `Display.ParamRun` | rShell/Helpers/Input.cs:167 | the run is the longest prefix of [0-9;] characters: all inside match, the next one does not |
| `Display.TagBodyRun` | rShell/Helpers/Input.cs:169 | the run is the longest prefix without ']': none inside, and a ']' right after unless the text ends |
| `Display.EscapeAt` | rShell/Helpers/Input.cs:167 | a prefix of the text is a whole match of ESC '[' [0-9;]* [mK] exactly when its length is the result; 0 means no match starts here |
| `Display.TagAt` | rShell/Helpers/Input.cs:169 | a prefix of the text is a whole match of '[' [^\]]* ']' exactly when its length is the result; 0 means no tag starts here |
| `Display.StripEscapes` | rShell/Helpers/Input.cs:167 | the first replacement never lengthens the text and keeps only characters of it |
| `Display.StripTags` | rShell/Helpers/Input.cs:169 | the second replacement never lengthens the text and keeps only characters of it |
| `Display.DisplayLength` | rShell/Helpers/Input.cs:164-171 | the display length never exceeds the prompt's raw length |
| `Display.CursorColumn` | rShell/Helpers/Input.cs:154-159 | the cursor column lies between the insertion point and the raw prompt length plus the insertion point |
| `Display.StripEscapesPlain` | rShell/Helpers/Input.cs:167 | text without ESC is unchanged by the first replacement |
| `Display.StripTagsPlain` | rShell/Helpers/Input.cs:169 | text without '[' is unchanged by the second replacement |
| `Display.DisplayLengthOfPlainText` | rShell/Helpers/Input.cs:164-171 | a prompt with no ESC and no '[' has a display length equal to its raw length |
| `Display.StripEscapesPlainPrefix` | rShell/Helpers/Input.cs:167 | a prefix without ESC passes through unchanged and scanning resumes right after it |
| `Display.StripTagsPlainPrefix` | rShell/Helpers/Input.cs:169 | a prefix without '[' passes through unchanged and scanning resumes right after it |
| `Display.StripEscapesLeadingSequence` | rShell/Helpers/Input.cs:167 | a complete escape sequence at the front is deleted entirely, and nothing after it |
| `Display.StripTagsLeadingTag` | rShell/Helpers/Input.cs:169 | a complete tag at the front is deleted entirely, and nothing after it |
| `Display.ParamRunOfPrefix` | rShell/Helpers/Input.cs:167 | the [0-9;] run stops exactly where the parameters end |
| `Display.TagBodyRunOfPrefix` | rShell/Helpers/Input.cs:169 | the tag-body run stops exactly at the closing ']' |
| `Display.StripEscapesKeepsStrayEsc` | rShell/Helpers/Input.cs:167 | an ESC that starts no whole escape sequence is kept, and scanning goes on at the next character |
| `Display.UnterminatedIsNoMatch` | rShell/Helpers/Input.cs:167 | ESC '[' and parameters not followed by 'm' or 'K' start no match |
| `Display.StripEscapesKeepsUnterminated` | rShell/Helpers/Input.cs:167 | ESC '[' and parameters not closed by 'm' or 'K' (ESC[2J, say) are kept whole; scanning resumes after the parameters |
| `Display.StripTagsKeepsUnclosedBracket` | rShell/Helpers/Input.cs:169 | a '[' with no later ']' is kept, and scanning goes on right after it |
| `Display.NestedTagsStripped` | rShell/Helpers/Input.cs:169 | adjacent and nested tags, "[bold][green]" text "[/][/]", leave exactly the text |
| `Display.StripTagsLeavesNoTag` | rShell/Helpers/Input.cs:169 | after the second replacement no '[' is followed anywhere later by ']' |
| `Display.LeadingEscapeSequenceInvisible` | rShell/Helpers/Input.cs:164-171 | an escape sequence in front of a prompt does not change its display length |
| `Display.ShellPromptHasNoEscapes` | rShell/Program.cs:32 | example input: the shell's prompt markup (which Program.cs gives to AnsiConsole.Ask, not to ReadLine), around a directory name without ESC, is unchanged by the first replacement |
| `Display.ShellPromptTagsStripped` | rShell/Program.cs:32 | example input: the three tags of that prompt markup are deleted, leaving "rShell> ", the directory name and "> " |
| `Display.ShellPromptWidth` | rShell/Helpers/Input.cs:164-171 | example input: that prompt markup, for a directory name without ESC and '[', is the name's length plus 10 columns wide, also behind a leading ESC[0m |
| `Input.Step` | rShell/Helpers/Input.cs:29-125 | every key keeps the insertion point within [0, buffer length] and the history valid |
| `Input.Run` | rShell/Helpers/Input.cs:25-126 | any sequence of keys keeps the insertion point within [0, buffer length] and the history valid |
| `Input.Types` | rShell/Helpers/Input.cs:116-118 | a key reaching the default branch (not one of the named keys, and not Ctrl+C) whose character is not a control character: it types that character |
| `Input.IsCancel` | rShell/Helpers/Input.cs:111 | Ctrl+C: the C key with the Control modifier and no other |
| `Input.Session` | rShell/Helpers/Input.cs:17-126 | a call of ReadLine from a reset history and an empty buffer: its entries change only by the returned line being added, exactly when the history accepts it |
| `Input.ReadLine` | rShell/Helpers/Input.cs:14-127 | after Reset and the keys, the result and the history object's new state are those of Run from an empty buffer; None when the keys run out before Enter or Ctrl+C |
| `Input.MovementKeepsText` | rShell/Helpers/Input.cs:62-90 | Left and Right move by one only when in range, Home goes to 0, End to the buffer length; none of them changes the buffer or the history |
| `Input.BackspaceDeletesBefore` | rShell/Helpers/Input.cs:92-100 | with the insertion point above 0, Backspace removes exactly the character before it and moves it back by one; at 0 nothing changes |
| `Input.DeleteDeletesAt` | rShell/Helpers/Input.cs:102-109 | before the end, Delete removes exactly the character at the insertion point, which stays put; at the end nothing changes |
| `Input.TypedCharInserted` | rShell/Helpers/Input.cs:116-124 | a non-control character is inserted at the insertion point, everything else shifts by one, and the point advances by one |
| `Input.ControlCharIgnored` | rShell/Helpers/Input.cs:116-124 | an unhandled key whose character is a control character changes nothing |
| `Input.TypeThenBackspaceRestores` | rShell/Helpers/Input.cs:92-124 | typing a character and then Backspace restores the editor exactly |
| `Input.TypeLeftDeleteRestores` | rShell/Helpers/Input.cs:62-124 | typing a character, then Left, then Delete restores the editor exactly |
| `Input.BrowseReplacesBuffer` | rShell/Helpers/Input.cs:44-60 | Up or Down replaces the buffer by what GetPrevious or GetNext returns and puts the insertion point at its end; the entries stay |
| `Input.EnterAndCancel` | rShell/Helpers/Input.cs:31-42 | Enter returns the buffer and changes the entries exactly when the history accepts the line; Ctrl+C (Control alone, lines 111-114) returns "" and leaves the history untouched |
| `Input.RunOnlyRecordsReturnedLine` | rShell/Helpers/Input.cs:25-126 | over any keys, browsing never changes the entries; the only change is the returned line being added when accepted, after which the history is live |
| `Input.TypingAppends` | rShell/Helpers/Input.cs:116-124 | typing a text without control characters at the end of the buffer appends exactly that text |
| `Input.SessionStartsLive` | rShell/Helpers/Input.cs:17 | whatever cursor an earlier browse left, the first Up of a new ReadLine shows the newest entry |
| `Input.SubmitRecords` | rShell/Helpers/Input.cs:31-42 | typing an acceptable line and pressing Enter returns that line and adds it to the history |
| `Input.SubmitThenRecall` | rShell/Helpers/Input.cs:17-60 | a line submitted in one ReadLine is the buffer after the first Up in the next |
| `Input.EditingScenario` | rShell/Helpers/Input.cs:62-124 | "abc" at 3: Backspace gives "ab" at 2, Left gives 1, typing X gives "aXb" at 2, Delete gives "aX" at 2 |
| `Input.CursorColumnWithinLine` | rShell/Helpers/Input.cs:154-159 | the cursor column stays between the prompt's display width and that width plus the buffer length, and equals raw prompt length plus insertion point for a plain prompt |

## Left out

- File I/O reduces to a `HistoryFile` value: no file, an unreadable file (any exception while reading), or its lines. The home-directory path, UTF-8 decoding and the splitting into lines (`File.ReadAllLines`) are not modelled. The save/load round trip is therefore stated at the level of lines. An entry containing a line break would come back as several lines, and the model does not show that.
- `SaveHistory` returns the lines it would write instead of writing them. Creating the directory, the write itself and ignoring a write failure are I/O with no effect on the in-memory state.
- `LoadHistory` requires an empty list, because the constructor is its only caller and calls it on the freshly created empty list.
- `Console.ReadKey` is replaced by a finite sequence of `KeyInfo` values. Blocking when the keys run out becomes the `None` result. Whether the console delivers Ctrl+C as a key at all (`Console.TreatControlCAsInput`) is outside the model; the switch is modelled as written.
- `AnsiConsole.Markup` throws on markup Spectre.Console rejects (an unclosed `[`, a lone `]`, an unknown style name), both when `ReadLine` first shows the prompt and in `RedrawLine`. The model assumes a prompt Spectre accepts: `ReadLine`'s contract, and the lemmas about an unclosed `[` or a stray ESC, describe prompts that the real `ReadLine` may throw on before reading any key.
- Rendering is not modelled: `AnsiConsole.Markup`, `Console.Write`, `Console.WriteLine`, the line clearing with `Console.WindowWidth` and `Console.SetCursorPosition` in `RedrawLine`. Only the column arithmetic of `UpdateCursorPosition` is modelled, as `CursorColumn`. The exception `SetCursorPosition` throws for a column beyond the buffer width is left out too.
- `GetDisplayLength` follows the two regular expressions, not Spectre.Console's markup rules. For example, it treats the escaped bracket `[[` as the start of a tag.
- Characters are Unicode scalar values, whereas .NET uses UTF-16 code units. A character outside the Basic Multilingual Plane is one key character in the model but two `KeyChar` values in .NET. Likewise `cleanText.Length`, `StringBuilder.Length` and `cursorPosition` count UTF-16 units in .NET, so such a character counts 2 there but 1 in `DisplayLength` and in the buffer.
- `string.IsNullOrWhiteSpace` has no null case, because Dafny strings are never null.
- `Program.cs`, `EchoCommand.cs`, `LsCommand.cs`, `Logger.cs` and `StringHelpers.cs` are REPL, command and output glue, and they are not part of this model. `Program.cs` is cited only for the prompt's format.
