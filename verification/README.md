# x64dbg script engine and analysis helpers, modelled in Dafny

This project models the core logic of several x64dbg components:

- **The script engine** (`src/dbg/simplescript.cpp`):
  - the line-map compiler, which splits text into lines, strips `//` comments and classifies each line as empty, comment, label, branch or command;
  - label checks and branch resolution, and the synthetic trailing `ret`;
  - the next-ip rule and the branch-mnemonic families;
  - the built-in commands and the call stack;
  - single steps, the run loop and its success verdict;
  - the silent and user breakpoint lists;
  - the GUI's line queries.
- **The hex byte-pattern parser** of the trace memory search (`src/gui/Src/Tracer/TraceFileSearch.cpp`), with the short title it shows, and its inclusive range test.
- **The report pass's classifiers** (`src/dbg/analysis/AutoAnalysisReportPass.cpp`):
  - printable strings and narrow/wide string candidates;
  - the IOC priority dispatch with its registry, file-path and domain guards;
  - IOC extraction and the statistics.
- **Both `fixupHtmlEmojiBug` functions** of the release-notes dialogs: the cross-platform one and the Qt GUI one with its Windows emoji table.
- **The runtime-function filter** of the exception-directory analysis.
- **The `MultiLayerController` state machine.**

Every component is a set of immutable datatypes and pure functions; loops that the source writes imperatively are `method`s with invariants. What the debugger supplies from outside becomes a parameter:

- the `$_EZ_FLAG`/`$_BS_FLAG` variables and the command executor's verdict (a `Host` record);
- the run loop's abort and timeout events (a sequence of `Tick`s);
- the file contents (an `Option<string>`, `None` when the read fails);
- the IOC regular expressions (the `Matchers` predicates);
- the module range test of the exception-directory analysis (a predicate).

Files, one module each:

| file | module | component |
|---|---|---|
| text.dfy | Text | C character classes, trimming, ASCII case folding, `Option`/`Result` |
| script_lines.dfy | ScriptLines | branch families, internal-command match, comment scan, line classification, raw splitting |
| line_map.dfy | LineMap | next ip, label lookup, label checks, branch resolution, synthetic `ret` |
| breakpoints.dfy | Breakpoints | silent and user breakpoints |
| interpreter.dfy | Interpreter | engine record, branch decision, built-ins, one step |
| script_api.dfy | ScriptApi | load, unload, run, step, direct commands, set ip, line queries |
| mem_pattern.dfy | MemPattern | byte-pattern parser and its short title |
| machine.dfy | Machine | the 64-bit word modulus |
| report_pass.dfy | ReportPass | string and IOC classifiers, statistics |
| utf16.dfy | Utf16 | UTF-16 code units |
| release_notes_cross.dfy | ReleaseNotesCross | cross-platform surrogate fixup |
| release_notes_gui.dfy | ReleaseNotesGui | emoji wrapping and surrogate-run fixup |
| exception_directory.dfy | ExceptionDirectory | runtime-function range filter |
| multi_layer.dfy | MultiLayer | multi-layer unpacking controller |

Behaviour of the code that the model keeps, including the parts a reader might not expect:

- Only `//` comments are stripped from a line (src/dbg/simplescript.cpp:204-246). A line that starts with `;` is a comment line (line 258), but a trailing `;` comment is not removed.
- When the ip is out of range, a step returns at once (src/dbg/simplescript.cpp:536-537): it reports "no line", leaves the last result unchanged and does not exit the script.
- The silent breakpoint that "run to line" plants (src/dbg/simplescript.cpp:593-600) is never removed afterwards.
- Aborting ends the run loop (src/dbg/simplescript.cpp:608) without moving the ip.
- When the file cannot be read, the old line map stays in place (src/dbg/simplescript.cpp:139-147). The map is cleared only after a successful read.
- A branch line's stored destination is not used at run time. The step looks the label up again (src/dbg/simplescript.cpp:560-566) and moves to `NextIp(LabelFind(label))`.
- The `error` built-in returns Exit and resets the ip (src/dbg/simplescript.cpp:476-484), so a run that ends in `error` reports success (line 632).
- In the GUI fixup, a high surrogate in the last position still gets a zero-width space (src/gui/Src/Gui/ReleaseNotesDialog.cpp:141-143). The cross-platform fixup does not add one.
- `IsFilePath`'s drive form accepts any first character, not only a letter (src/dbg/analysis/AutoAnalysisReportPass.cpp:414-415).

## Model

| member | source | states |
|---|---|---|
| ScriptLines.MnemonicsWellFormed | src/dbg/simplescript.cpp:69-84 | every listed mnemonic is non-empty, free of whitespace and classified into its own family |
| ScriptLines.FamiliesDisjoint | src/dbg/simplescript.cpp:63-86 | no text starts with mnemonics of two different families, so each mnemonic maps to exactly one branch type |
| ScriptLines.BranchTypeIsFamily | src/dbg/simplescript.cpp:63-86 | the branch type is t exactly when the trimmed, space-padded text starts with one of t's mnemonics followed by a space |
| ScriptLines.NoBranchIsNoFamily | src/dbg/simplescript.cpp:63-86 | the result is "no branch" exactly when no family's mnemonic prefixes the padded text |
| ScriptLines.BranchTypeByFirstToken | src/dbg/simplescript.cpp:63-86 | classification depends only on the first space-delimited token of the trimmed text |
| ScriptLines.MnemonicClassifies | src/dbg/simplescript.cpp:66-68 | a mnemonic followed by an operand and the bare mnemonic alone (padded with a space) both classify into the mnemonic's family |
| ScriptLines.FirstToken | src/dbg/simplescript.cpp:115-126 | the token is a space-free prefix of the text, followed by a space when shorter than the text |
| ScriptLines.InternalCommandIsFirstToken | src/dbg/simplescript.cpp:115-126 | text matches a space-free command exactly when its first token equals the command ignoring ASCII case |
| ScriptLines.RetTokenBoundary | src/dbg/simplescript.cpp:115-126 | `retrieve_x` does not match `ret`; `ret`, `RET` and `ret 1` do |
| ScriptLines.ScanComment | src/dbg/simplescript.cpp:203-231 | a comment start found by the scan is a `//` at or after the starting position |
| ScriptLines.CommentStartIsFirstSlashes | src/dbg/simplescript.cpp:203-231 | without quotes the comment starts at the first `//`, and there is none exactly when the line holds no `//` |
| ScriptLines.QuotedSpanSkipped | src/dbg/simplescript.cpp:213-226 | `//` inside a quoted span without escapes is not a comment: scanning resumes after the closing quote |
| ScriptLines.EscapedQuoteStaysQuoted | src/dbg/simplescript.cpp:215-222 | an escaped quote does not end the quoted span |
| ScriptLines.StripComment | src/dbg/simplescript.cpp:204-246 | the line without its comment is a prefix of the raw line, cut at the first `//` outside quotes (one character earlier when a space precedes it), left whole when it has no such `//` or starts with one, and what remains has no `//` outside quotes |
| ScriptLines.ClassifyLine | src/dbg/simplescript.cpp:248-306 | after the comment cut and the trailing trim, the line is empty, a comment (`//` or `;`), a label (ends in `:`), a branch (a branch mnemonic) or a command, each exactly when its test holds and the earlier ones fail; label names are shorter than the line, comments and commands keep the cleaned text, and branches carry their family with no destination yet |
| ScriptLines.TrailingCommentIgnored | src/dbg/simplescript.cpp:204-246 | a quote-free line followed by ` //` and a quote-free comment is classified exactly as the line alone |
| ScriptLines.ClassifySemicolonComment | src/dbg/simplescript.cpp:258-262 | a line starting with `;` is a comment line |
| ScriptLines.ClassifyLabelLine | src/dbg/simplescript.cpp:263-269 | `start:` is the label `start` |
| ScriptLines.DropTrailingEmpty | src/dbg/simplescript.cpp:193-198 | exactly the empty lines at the end are removed, and the result is a prefix whose last line is non-empty |
| ScriptLines.SplitKeepsText | src/dbg/simplescript.cpp:148-192 | the corrected split loses no visible character, no line exceeds 254 characters and no line starts with whitespace |
| ScriptLines.SplitJoinRoundTrip | src/dbg/simplescript.cpp:148-172 | splitting LF-joined short plain lines gives back the lines |
| ScriptLines.SplitKeepsPrefix | src/dbg/simplescript.cpp:184-185 | characters before the first line break, up to 254 of them, are buffered into the first line |
| ScriptLines.OverlongLineLosesCharacter | src/dbg/simplescript.cpp:173-183 | as written, a 255-character line yields a single 254-character line: one character is lost |
| ScriptLines.OverlongLineSplitKeepsCharacter | src/dbg/simplescript.cpp:173-185 | the corrected split turns a 255-character line into lines of 254 and 1 characters |
| ScriptLines.FinalLineKeepsIndentation | src/dbg/simplescript.cpp:187-192 | as written, an unterminated last line keeps its indentation while a terminated one is stripped |
| ScriptLines.IndentedRetIsPlainCommand | src/dbg/simplescript.cpp:302-306 | an indented `ret` classifies as a command that is not the `ret` built-in |
| ScriptLines.IndentedWordIsCommand | src/dbg/simplescript.cpp:302-306 | an indented word that is no mnemonic or label is a command whose text keeps the indentation |
| ScriptLines.FinalLineStripped | src/dbg/simplescript.cpp:187-192 | the corrected split strips the indentation of an unterminated last line too |
| LineMap.Skip | src/dbg/simplescript.cpp:98-110 | the scan stops at the first executable line at or after the start, or at the end |
| LineMap.NextIp | src/dbg/simplescript.cpp:103-113 | past the end the ip is unchanged; otherwise it is the 1-based index of the first executable line at or after `from`, strictly greater than `from` and at most one past the map |
| LineMap.NextIpAsWrittenAgrees | src/dbg/simplescript.cpp:103-113 | the source's loop (read before the bounds test) fails exactly when only non-executable lines follow `from`, and otherwise agrees with NextIp |
| LineMap.LabelBeforeOnlyCommentsThrows | src/dbg/simplescript.cpp:329 | resolving `jmp a` to a label followed only by a comment reads past the map as written |
| LineMap.NoOutOfRangeAfterCompile | src/dbg/simplescript.cpp:332-366 | once compiled, the map ends in an executable line and the as-written loop never reads past it |
| LineMap.LabelFind | src/dbg/simplescript.cpp:88-96 | returns 0 exactly when no line is that label, otherwise the 1-based index of the first such line |
| LineMap.LabelCheckIsLabelOk | src/dbg/simplescript.cpp:263-287 | a label line fails exactly when its name is empty or `""` or it repeats an earlier label, and the error names its line |
| LineMap.FirstLabelErrorIsFirst | src/dbg/simplescript.cpp:199-287 | the reported label error is on the first failing line, and no error means every label is fine |
| LineMap.FirstUnresolved | src/dbg/simplescript.cpp:314-327 | finds the first branch whose label does not exist |
| LineMap.ResolveOkIff | src/dbg/simplescript.cpp:313-331 | resolution succeeds exactly when every branch's label exists |
| LineMap.CompileOkIff | src/dbg/simplescript.cpp:263-331 | compilation succeeds exactly when labels are well formed and every branch resolves |
| LineMap.CompileErrorIsFirst | src/dbg/simplescript.cpp:270-286 | a failure names the first bad label line, or, when labels are fine, the first branch with an unknown label |
| LineMap.CompiledShape | src/dbg/simplescript.cpp:332-366 | the compiled map keeps every line in place and appends exactly one `ret` when the last line is no terminator (`ret`/`invalid`/`error` command or `jmp`) |
| LineMap.CompiledEndsExecutable | src/dbg/simplescript.cpp:332-366 | a compiled non-empty map ends in an executable line |
| LineMap.LabelFindAfterCompile | src/dbg/simplescript.cpp:313-366 | compiling does not change where any label is found |
| LineMap.CompiledBranchResolves | src/dbg/simplescript.cpp:317-329 | every branch of a compiled map has an existing label |
| LineMap.RuntimeTargetExecutable | src/dbg/simplescript.cpp:566-567 | the destination the step computes for a compiled branch is an executable line inside the map |
| LineMap.StoredDestMatchesRuntime | src/dbg/simplescript.cpp:329 | the stored destination equals the runtime one, except for a label on the last raw line, where it stops one short of the synthetic `ret` |
| Breakpoints.FindBp | src/dbg/simplescript.cpp:392-397 | the index found is the first breakpoint on the line (only user ones when asked), or the list length |
| Breakpoints.RemoveAt | src/dbg/simplescript.cpp:395 | erasing shifts later entries down by one and keeps earlier ones |
| Breakpoints.SilentSelects | src/dbg/simplescript.cpp:28-31 | the silent breakpoints are exactly the entries flagged silent, each taken from the list, and a list of only silent entries is kept whole |
| Breakpoints.SilentRemoveUser | src/dbg/simplescript.cpp:730-739 | removing a user breakpoint leaves the silent ones untouched |
| Breakpoints.BpToggleFlips | src/dbg/simplescript.cpp:723-748 | the toggle fails exactly for line 0 or past the map; otherwise it flips the user breakpoint on the next executable line, keeps all others and the silent ones |
| Breakpoints.BpToggleTwice | src/dbg/simplescript.cpp:723-748 | toggling twice restores the list as a multiset, and in its original order when no user breakpoint was there before |
| Breakpoints.InternalToggleAddsSilent | src/dbg/simplescript.cpp:380-407 | the internal toggle adds a silent breakpoint on the next executable line and changes no user breakpoint |
| Breakpoints.TogglesKeepBpsOnCode | src/dbg/simplescript.cpp:385-387 | both toggles only ever put breakpoints on executable lines |
| Interpreter.BranchTakenMatchesComparison | src/dbg/simplescript.cpp:409-435 | with the flags a comparison leaves, each family is taken exactly when its comparison holds (call and jmp always) |
| Interpreter.Ret | src/dbg/simplescript.cpp:439-475 | with an empty stack it resets the ip to the first line and exits; otherwise it pops the frame into the ip and pauses when stepping or when the frame was not running, and continues at the branch otherwise |
| Interpreter.RetPops | src/dbg/simplescript.cpp:453-474 | `ret` on a stack with top frame f resumes at f's ip with the rest of the stack |
| Interpreter.TakeBranch | src/dbg/simplescript.cpp:510-516 | a taken branch goes to the first line after the label and pushes a frame only for `call` |
| Interpreter.DirectBranch | src/dbg/simplescript.cpp:496-518 | a directly typed branch fails exactly when its label is unknown; otherwise it pauses when stepping and continues at the branch otherwise |
| Interpreter.DirectBranchLabelAgrees | src/dbg/simplescript.cpp:500-501 | the source's operand extraction succeeds exactly when the command has a space, and then agrees with the corrected one |
| Interpreter.BareBranchCommandThrows | src/dbg/simplescript.cpp:500-501 | a bare `jmp` is a branch, and taking its operand after a missing space fails as written |
| Interpreter.CmdExec | src/dbg/simplescript.cpp:437-530 | only ordinary commands reach the executor and leave the engine unchanged; Exit resets the ip; Error leaves the engine unchanged |
| Interpreter.BuiltinResults | src/dbg/simplescript.cpp:437-494 | in the source's order: `ret` returns from a call, `error` gives Exit on the first line, `invalid` gives Error, `scriptrun`/`scriptexec` give Error unless paused, `pause` gives Pause, `nop` gives Continue while running and Pause otherwise, each leaving the rest of the engine alone; any other non-branch command goes to the executor with logging on exactly for `log` |
| Interpreter.ExecutorSeesOrdinaryCommands | src/dbg/simplescript.cpp:520-529 | the executor runs exactly for non-built-in, non-branch commands, and its verdict gives Error, Continue or Pause |
| Interpreter.DirectBranchSemantics | src/dbg/simplescript.cpp:496-519 | a typed branch with an unknown label is an error, a known one moves like a taken branch when its condition holds |
| Interpreter.InternalCmd | src/dbg/simplescript.cpp:532-571 | an out-of-range ip stops without any change; otherwise the previous ip is recorded |
| Interpreter.CommandStepContinues | src/dbg/simplescript.cpp:541-559 | a command line continues exactly on Continue/ContinueBranch, an error restores the ip, and exit resets it |
| Interpreter.BranchStepContinues | src/dbg/simplescript.cpp:560-570 | a branch line always continues: taken, it goes to the label's first line (pushing the return ip for `call`); not taken, it goes to the next line |
| Interpreter.CallThenRet | src/dbg/simplescript.cpp:564-567 | a `call` followed later by `ret` returns to the line after the call with the original stack |
| Interpreter.InternalCmdKeepsInv | src/dbg/simplescript.cpp:532-571 | a step keeps the ip, the previous ip, every return address and every breakpoint on an executable line (or nowhere) |
| ScriptApi.RunLoop | src/dbg/simplescript.cpp:608-625 | the loop never changes the map, breakpoints or mode; stopping at a breakpoint means one is on the ip; a stop by a line leaves Error, Exit or Pause as the last result; and a stop for leaving the map leaves the ip outside it |
| ScriptApi.StopResult | src/dbg/simplescript.cpp:610 | a line that ends the loop ran a command that failed, exited or paused, and an ip outside the map stops the loop without any change |
| ScriptApi.ContinuingLineKeepsLooping | src/dbg/simplescript.cpp:608-612 | a line that is not a command, or a command answering Continue or ContinueBranch, with no breakpoint on the next line, no abort and no termination, lets the loop go on to the next tick |
| ScriptApi.Run | src/dbg/simplescript.cpp:573-633 | a run starts only when paused and the debuggee is stopped; once started, it reports success exactly when the ip is back on the first executable line and the last result is Exit, Continue or ContinueBranch, whatever ended the loop |
| ScriptApi.RunVerdict | src/dbg/simplescript.cpp:626-632 | an exit is a success, an error or pause is a failure, and a breakpoint stop sits on a breakpoint |
| ScriptApi.LoopStopRecorded | src/dbg/simplescript.cpp:543-557 | the result that stopped the loop is the recorded last result, and exit leaves the ip at the first line |
| ScriptApi.RunKeepsInv | src/dbg/simplescript.cpp:573-633 | a run keeps the engine's well-formedness |
| ScriptApi.RunToLineLeavesSilentBp | src/dbg/simplescript.cpp:593-600 | running to a line plants a breakpoint on its next executable line, and no user breakpoint changes |
| ScriptApi.Step | src/dbg/simplescript.cpp:698-711 | a step happens only when paused and changes neither map nor breakpoints |
| ScriptApi.StepMovesLikeRun | src/dbg/simplescript.cpp:698-711 | a step moves the ip and stack exactly as one iteration of a run would |
| ScriptApi.ExecDirect | src/dbg/simplescript.cpp:750-779 | a typed command succeeds exactly when it is not an error, and it queues a run from the new ip exactly when it answered ContinueBranch in the paused state |
| ScriptApi.DirectCallStartsRun | src/dbg/simplescript.cpp:750-779 | a typed `call x` while paused pushes a paused frame and runs from x; the later `ret` pauses back at the original ip |
| ScriptApi.Load | src/dbg/simplescript.cpp:635-656 | loading always clears the breakpoints and stack; a failed read keeps the old map; it succeeds exactly when the text compiles, and a failed compile leaves an empty map |
| ScriptApi.LoadStartsOnCode | src/dbg/simplescript.cpp:653 | after a load the ip is the first executable line |
| ScriptApi.Unload | src/dbg/simplescript.cpp:666-680 | unloading empties the map, breakpoints and stack and zeroes the ip |
| ScriptApi.SetIpLands | src/dbg/simplescript.cpp:781-791 | setting the ip to a line lands on the first executable line at or after it, and setting it there again changes nothing |
| ScriptApi.GetLineType | src/dbg/simplescript.cpp:807-813 | line 0 and lines past the map are empty |
| ScriptApi.LineZeroThrows | src/dbg/simplescript.cpp:810-812 | as written, line 0 indexes before the map; the corrected query answers "empty" |
| ScriptApi.BranchInfo | src/dbg/simplescript.cpp:815-824 | branch information exists only for an in-range branch line and is that line |
| ScriptApi.LineQueriesAgree | src/dbg/simplescript.cpp:807-824 | the as-written query fails only on line 0 and otherwise agrees; a line is a branch exactly when branch information exists |
| MemPattern.InRangeInclusive | src/gui/Src/Tracer/TraceFileSearch.cpp:9-12 | both ends belong to a non-empty range and an inverted range contains nothing |
| MemPattern.ParsePattern | src/gui/Src/Tracer/TraceFileSearch.cpp:191-254 | the parse succeeds exactly when every character is whitespace, a hex digit or `?`, and then yields the independently defined byte pattern |
| MemPattern.ParsesStep | src/gui/Src/Tracer/TraceFileSearch.cpp:193-197 | any character above 0x80, or any other non-space non-nibble character, makes the whole parse fail |
| MemPattern.PushNibble | src/gui/Src/Tracer/TraceFileSearch.cpp:198-252 | a high nibble opens a byte (`?` gives data 0 / mask 0, digit d gives d<<4 / 0xf0); a low nibble ORs d and 0x0f into it, or leaves it for `?` |
| MemPattern.Expected | src/gui/Src/Tracer/TraceFileSearch.cpp:191-254 | data and mask have equal length, one byte per two nibble characters rounded up |
| MemPattern.ExpectedCanonical | src/gui/Src/Tracer/TraceFileSearch.cpp:198-252 | every parsed mask nibble is all-or-nothing and data bits lie inside the mask |
| MemPattern.HexDigit | src/gui/Src/Tracer/TraceFileSearch.cpp:259 | the digit shown for a nibble parses back to that nibble |
| MemPattern.PatternShortShape | src/gui/Src/Tracer/TraceFileSearch.cpp:256-266 | the title shows at most 16 bytes as two characters each, `?` exactly for masked-out nibbles, and ends in `...` when there are more than 16 |
| MemPattern.ShortFormRoundTrip | src/gui/Src/Tracer/TraceFileSearch.cpp:256-266 | parsing the title's bytes gives back the first 16 bytes of any parsed pattern |
| ReportPass.PrintableCount | src/dbg/analysis/AutoAnalysisReportPass.cpp:316-321 | the count is at most the length and equals it exactly when every character is printable or whitespace |
| ReportPass.IsPrintableString | src/dbg/analysis/AutoAnalysisReportPass.cpp:311-324 | true exactly for strings of four or more characters at least 80% of which are printable or whitespace |
| ReportPass.Threshold | src/dbg/analysis/AutoAnalysisReportPass.cpp:323 | the truncating `count*100/n >= 80` is exactly the ratio 4/5 |
| ReportPass.IsStringCandidate | src/dbg/analysis/AutoAnalysisReportPass.cpp:270-309 | narrow exactly when the first four bytes are text; wide exactly when that fails and the first four UTF-16 units are text below 256 |
| ReportPass.FindAtZero | src/dbg/analysis/AutoAnalysisReportPass.cpp:408-416 | `find(p) == 0` holds exactly when the string starts with p |
| ReportPass.IsRegistryPath | src/dbg/analysis/AutoAnalysisReportPass.cpp:406-410 | true exactly when the string starts with `HKEY_`, `\Registry\`, `SOFTWARE\` or `SYSTEM\` |
| ReportPass.IsFilePath | src/dbg/analysis/AutoAnalysisReportPass.cpp:412-418 | true exactly when longer than 3 and in drive form, UNC form, or containing both `%` and `\` |
| ReportPass.IsDomainName | src/dbg/analysis/AutoAnalysisReportPass.cpp:400-404 | true only when longer than 4, containing a dot and accepted by the domain grammar |
| ReportPass.IsIOCCandidate | src/dbg/analysis/AutoAnalysisReportPass.cpp:326-355 | the type found matches and no earlier type in ip, url, domain, registry, file_path order does; none is found exactly when no type matches |
| ReportPass.CandidateIsHighestPriority | src/dbg/analysis/AutoAnalysisReportPass.cpp:326-355 | any matching type guarantees a result of equal or higher priority |
| ReportPass.AnalyzeIOCs | src/dbg/analysis/AutoAnalysisReportPass.cpp:135-148 | at most one IOC per string, each with the context "String at <address>" |
| ReportPass.AnalyzeIOCsAppend | src/dbg/analysis/AutoAnalysisReportPass.cpp:135-148 | extraction distributes over concatenation, so IOCs keep the order of their strings |
| ReportPass.AnalyzeIOCsSound | src/dbg/analysis/AutoAnalysisReportPass.cpp:135-148 | every IOC comes from a qualifying string with its address, type and value, and every qualifying string yields its IOC |
| ReportPass.GatherStatistics | src/dbg/analysis/AutoAnalysisReportPass.cpp:247-268 | the four totals are the list sizes, instructions are the 64-bit wrapped sum of block counts, and functions are the distinct targets of call blocks |
| ReportPass.FunctionsBounded | src/dbg/analysis/AutoAnalysisReportPass.cpp:255-267 | distinct call targets never outnumber call blocks, nor call blocks the blocks |
| Utf16.Units | src/gui/Src/Gui/ReleaseNotesDialog.cpp:19 | text in the Basic Multilingual Plane becomes one code unit per character with the same value; ASCII text gives ASCII units with no high surrogate, so the surrogate fixups leave it alone |
| ReleaseNotesCross.Fixup | src/cross/release_notes/ReleaseNotesDialog.cpp:10-22 | the output is the input's length plus the number of high surrogates before the last unit, and it ends in the input's last unit |
| ReleaseNotesCross.FixupAllButLast | src/cross/release_notes/ReleaseNotesDialog.cpp:13-21 | every unit but the last gets a zero-width space exactly when it is a high surrogate; the last is copied alone |
| ReleaseNotesCross.FixupRoundTrip | src/cross/release_notes/ReleaseNotesDialog.cpp:13-21 | removing each inserted space before a high surrogate restores the input, so every input unit appears in order |
| ReleaseNotesCross.NoSurrogateUnchanged | src/cross/release_notes/ReleaseNotesDialog.cpp:13-21 | an input with no high surrogate before its last unit is returned unchanged |
| ReleaseNotesGui.Encode | src/gui/Src/Gui/ReleaseNotesDialog.cpp:16-17 | each table code point becomes one non-ASCII unit, or a surrogate pair exactly when above the BMP, from which it can be recomputed |
| ReleaseNotesGui.ReplaceAll | src/gui/Src/Gui/ReleaseNotesDialog.cpp:129 | a text without the searched sequence is left unchanged |
| ReleaseNotesGui.ReplaceLeftmost | src/gui/Src/Gui/ReleaseNotesDialog.cpp:127-130 | the leftmost occurrence is replaced, the text before it is kept, and replacing continues after it |
| ReleaseNotesGui.RunLength | src/gui/Src/Gui/ReleaseNotesDialog.cpp:144-152 | the inner loop copies non-ASCII units up to and including the first ASCII unit, or to the end |
| ReleaseNotesGui.SurrogatePass | src/gui/Src/Gui/ReleaseNotesDialog.cpp:135-159 | the output is never shorter than the input |
| ReleaseNotesGui.SurrogatePassRoundTrip | src/gui/Src/Gui/ReleaseNotesDialog.cpp:138-158 | removing the one space inserted before each surrogate run restores the input, so every unit is copied in order |
| ReleaseNotesGui.OneSpacePerRun | src/gui/Src/Gui/ReleaseNotesDialog.cpp:141-153 | a run with no ASCII unit gets a single zero-width space in front however many surrogates it holds |
| ReleaseNotesGui.AsciiPassesSurrogateLoop | src/gui/Src/Gui/ReleaseNotesDialog.cpp:154-157 | ASCII-only text passes the surrogate loop unchanged |
| ReleaseNotesGui.AsciiUnchanged | src/gui/Src/Gui/ReleaseNotesDialog.cpp:23-160 | ASCII-only HTML leaves the whole fixup unchanged, on Windows and elsewhere |
| ReleaseNotesGui.FinalSurrogateDiffers | src/gui/Src/Gui/ReleaseNotesDialog.cpp:141-143 | a lone final high surrogate gets a space in the GUI fixup but not in the cross-platform one |
| ExceptionDirectory.Analyse | src/dbg/analysis/exceptiondirectoryanalysis.cpp:23-39 | the loop keeps, in order, the functions whose start and end are in range with start <= end, and no more functions than it was given |
| ExceptionDirectory.DiscoveredAppend | src/dbg/analysis/exceptiondirectoryanalysis.cpp:26-34 | the filter distributes over concatenation, so kept functions keep their order |
| ExceptionDirectory.DiscoveredOne | src/dbg/analysis/exceptiondirectoryanalysis.cpp:28-33 | a single function is kept as [base+begin, base+end-1] exactly when the guard holds |
| ExceptionDirectory.NoWrapExtent | src/dbg/analysis/exceptiondirectoryanalysis.cpp:28-32 | without wrap-around, start <= end exactly when begin < end, and the range covers end-begin bytes |
| ExceptionDirectory.ZeroEndWraps | src/dbg/analysis/exceptiondirectoryanalysis.cpp:29 | an end address of 0 with base 0 wraps to the top of the address space and passes the order test |
| MultiLayer.Step | src/plugins/AdvancedReconstructor/MultiLayerController.cpp:10-60 | each entry point's effect on the controller; only the getters return a value, the current layer and the bound respectively, and they leave the controller unchanged |
| MultiLayer.InitialInv | src/plugins/AdvancedReconstructor/MultiLayerController.cpp:6-8 | the initial controller (not initialised, layer 0, maximum 3) satisfies the invariant |
| MultiLayer.StepKeepsInv | src/plugins/AdvancedReconstructor/MultiLayerController.cpp:10-60 | every entry point keeps the current layer at 0 and the maximum in 1..10 |
| MultiLayer.ReachableInv | src/plugins/AdvancedReconstructor/MultiLayerController.cpp:10-60 | any sequence of calls keeps that invariant |
| MultiLayer.SetThenGet | src/plugins/AdvancedReconstructor/MultiLayerController.cpp:48-60 | the getter returns the new maximum exactly when it was in 1..10, otherwise the old one |
| MultiLayer.GettersAreQueries | src/plugins/AdvancedReconstructor/MultiLayerController.cpp:43-51 | calling a getter leaves the controller unchanged and calling it again gives the same answer |

## Left out

- Concurrency: the job queue, locks, atomics and the GUI event pumping are not modelled. Each entry point runs to completion as one function, and the run's compare-and-swap becomes a plain Paused test.
- GUI notifications and message texts (`Gui*` calls, `dputs`, the error strings) are not modelled. Errors are results.
- The 30-second timeout prompt and the abort flag are the `Tick` sequence.
- `ScriptAbortAwait` only sets the abort flag the `Tick`s stand for, and `ScriptLogLocked` only shows text, so neither is modelled.
- `ScriptExecAwait` is not modelled. It is load, run and unload in sequence, and each of those is modelled.
- The file read (`FileHelper::ReadAllText`) is not modelled; its contents are a parameter.
- The command executor (`cmddirectexec`), `varget`, `dbgisrunning` and the debuggee wait loop are the `Host` record.
- Line numbers are `nat`: negative line arguments of the API are not modelled.
- The 256-byte `strcpy_s` buffer truncations of labels, commands and comments are not modelled. The 254-character line split is.
- `scmp` is taken to be ASCII case-insensitive equality. Its definition is not part of this model.
- `ToByteString` is taken to print two upper-case hex digits. Its definition is not part of this model.
- The dump check, the trace reader, the Zydis disassembly and the result view of the trace memory search are left out; only parsing and the title are modelled.
- The three `std::regex` bodies (IP, URL and the domain grammar) are the `Matchers` parameters.
- The report pass's memory scans, its symbol/label/module lookups, the clock and the file exporters are left out: they are foreign calls and I/O.
- `Analysis::inRange` is a predicate parameter, because its definition is not part of this model.
- A basic block's instruction count is taken as a `nat`, because the basic-block type is not part of this model.
- Log lines of the multi-layer controller are not modelled.
- ReportPass.IsStringCandidate: the scan stops at the end of `data` as if a terminator followed, because the source reads raw memory up to `maxLength` bytes whatever the buffer holds.
- ReportPass.Printable: a character above 0x7F is not printable. The source passes such a signed `char` to `isprint`, which leaves the result to the C library.
- ReleaseNotesGui.BadEmojis: the table holds the code point each UTF-8 literal decodes to, not the bytes of the literal. UTF-8 decoding is not modelled.
- ReleaseNotesGui.ReplaceAll: an empty search string is excluded, because every table entry is non-empty.
- LineMap.Compile: the engine's map is built with the corrected split (`ScriptLines.Split`, not `ScriptLines.SplitAsWritten`) and the bounds-first next-ip lookup (`LineMap.NextIp`, not `LineMap.NextIpAsWritten`) of the Findings table. The as-written versions are modelled and compared there, but nothing the engine does is built on them.
- ScriptApi.Load: loads through `LineMap.Compile`, so it inherits the corrected split and lookup above; the 255-character line and the unterminated indented last line behave as the Findings table says the source intended.
- ScriptApi.ExecDirect: extracts a typed branch's operand with `Interpreter.DirectBranchLabel`, so a bare `jmp` is an unknown-label error instead of the `out_of_range` exception of `Interpreter.DirectBranchLabelAsWritten`.
- ScriptApi.GetLineType: answers "empty" for line 0, the corrected behaviour; `ScriptApi.GetLineTypeAsWritten` models the source's out-of-range read.
- Interpreter.CmdExec: an ordinary command is taken to leave the engine unchanged. The job queue runs an awaited job directly when it is already on the worker thread (src/dbg/jobqueue.h:111-115), so a script line that calls a script command such as `scriptload` or `scriptbp` can change the map or the breakpoints while the line runs. That re-entry is not modelled.
- Text.Trim: the whitespace set is C `isspace` (space, \t, \n, \v, \f, \r). `StringUtils::Trim`'s default set is not part of this model and may be narrower, for instance without \v and \f.
- ScriptLines.Split: scripts are sequences of characters, while the source counts bytes of a multi-byte file. The 254 limit is applied to characters, so a line with non-ASCII text is split later than the source would split it.
- ReportPass.GatherStatistics: the counters wrap at 2^64, as `size_t` does on the 64-bit build. The 32-bit build, where they wrap at 2^32, is not modelled.
- MultiLayer.Step: the controller's `int` fields are unbounded. `SetMaxLayers` only stores values in 1..10, so no 32-bit wrap-around can occur.

## Findings

| source | as written | input that shows it | evidently intended | confidence | as-written member | corrected member |
|---|---|---|---|---|---|---|
| src/dbg/simplescript.cpp:109 | the loop reads `scriptLineMap.at(fromIp)` before testing `fromIp < maxIp`; branch resolution at line 329 runs before the synthetic `ret` is appended | script `jmp a` / `a:` / `//x`: resolving `a` reads past the map and throws | test the bound first, so the destination is the synthetic `ret` | not executed | LineMap.LabelBeforeOnlyCommentsThrows | LineMap.NextIpAsWrittenAgrees |
| src/dbg/simplescript.cpp:173-183 | when 254 characters are buffered, the line is flushed but the current character is not buffered | a line of 255 `a`s becomes one line of 254 `a`s; the 255th is lost | flush, then start the next line with the current character | not executed | ScriptLines.OverlongLineLosesCharacter | ScriptLines.SplitKeepsText |
| src/dbg/simplescript.cpp:187-192 | an unterminated last line is copied without skipping its leading whitespace | `  ret` at the end of the file is a host command, not the `ret` built-in; with a final newline it is the built-in | strip the leading whitespace as for the other lines | not executed | ScriptLines.FinalLineKeepsIndentation | ScriptLines.FinalLineStripped |
| src/dbg/simplescript.cpp:810-812 | only `line > size` is rejected, so line 0 reads `at(-1)` | line 0 | answer "empty" for line 0, as the branch-info query does | not executed | ScriptApi.LineZeroThrows | ScriptApi.LineQueriesAgree |
| src/dbg/simplescript.cpp:500-501 | `cmdStr.substr(cmdStr.find(' '))` with no space in the command | the typed command `jmp` (a bare mnemonic still classifies as a branch) throws `out_of_range` | treat a missing operand as an empty label, which the label lookup rejects | not executed | Interpreter.BareBranchCommandThrows | Interpreter.DirectBranchSemantics |
