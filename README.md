# mgpt core in Dafny

`mgpt.py` is a command-line front end. It does two things:

- It sends a prompt to a chat-completion service.
- It can delegate a task to a local OpenManus agent, which runs as a child process. The agent's output is then filtered down to the useful lines.

This project models the deterministic string and list rules inside that front end. Each rule is written as a Dafny function or method, and lemmas prove what the program promises about it:

- **Payload** (`PromptRouter`). Choosing the confirmation answers fed to the agent, and building the text written to its standard input.
- **Outcome to reply** (`DelegationInvoker`). Mapping how the agent process ended (clean exit, non-zero exit, timeout, interpreter missing, script missing) to the string `call_openmanus` returns.
- **Output filter** (`OutputExtractor`, `ExtractorCases`). This covers:
  - joining and splitting the agent's streams into lines;
  - classifying each line (saved, observation, unparsed, dropped);
  - a leftmost-match model of the regular expression `\{'observation':\s*'([^']*)'\}`;
  - unescaping `\n`;
  - the final join.
- **Chat** (`ChatSession`). One chat exchange appended in place to a shared conversation history.
- **Interactive loop** (`InteractionLoop`). Each input line is classified as exit, skip, delegation (with optional `;`-separated answers) or chat. The session that results is a specification function, and the loop method is proved against it.
- **Command line** (`CommandLine`). Mode selection from the arguments, and the one-shot prompt assembly:
  - piped input plus arguments;
  - each option text deleted wherever it occurs;
  - then the empty-prompt test.
- **String built-ins** (`Text`). Python's `strip`, `rstrip`, `lower`, `in`, `split`, `splitlines`, `join` and `replace`, over a fixed ASCII whitespace set.

The outside world is passed in as parameters:

- the child process is a function `run` from the standard-input text to an `Outcome`;
- the existence test of the script path is a boolean;
- the chat service is a function `service` from the message list to the raw reply text;
- the interactive input is a sequence of lines.

Filter idempotence: the filter is sometimes described as idempotent, that is `extract(extract(x)) == extract(x)`. The code is not. A lone observation line yields its bare body. Filtered again, that body carries no marker and yields `""`. The model follows the code, and `ExtractorCases.ExtractNotIdempotent` proves the counterexample for every such body.

The one-shot prompt assembly deletes the option texts from the piped input as well as from the arguments. It also deletes them inside words: `-o` is removed from `co-operate`. So "with only the program name the prompt is the stripped piped input" holds only when that input contains no option text. `CommandLine.OnlyPipedInput` states it with that condition.

When the prompt holds "save" but not "execute", there are no confirmation answers, and the standard-input text is the task followed by two line breaks. The agent then reads the task line and one empty line, not one line per expected prompt. `PromptRouter.PayloadLines` proves this case.

## Model

| member | source | states |
|---|---|---|
| Text.Strip | mgpt.py:59 | the result starts and ends with non-whitespace and is never longer than the input |
| Text.StripFactor | mgpt.py:59 | the stripped text is a factor of the input with only whitespace cut on either side |
| Text.StripContains | mgpt.py:175 | stripping creates no new occurrence of any text |
| Text.RStrip | mgpt.py:63 | the result is a prefix of the input, the cut suffix is all whitespace, and the result does not end in whitespace |
| Text.StripEach | mgpt.py:109 | `[x.strip() for x in xs]`, also on line 79: the list of each item stripped, in order (each item is specified by Text.Strip) |
| Text.StripTrimmed | mgpt.py:79 | stripping text that is already trimmed changes nothing |
| Text.Contains | mgpt.py:32 | `sub in s`, also on lines 64 and 66: some position of `s` starts with `sub` (its behaviour under strip and replace is stated by Text.StripContains, Text.ReplaceAbsent and Text.ReplaceDeletes) |
| Text.Lower | mgpt.py:32 | `str.lower()`, also on line 99: each character lower-cased in place (idempotence is stated by PromptRouter.LowerIdempotent) |
| Text.Lines | mgpt.py:62 | splitlines: no line holds a break, and the text is empty exactly when there are no lines |
| Text.LinesJoin | mgpt.py:62 | joining the lines with "\n" restores non-empty text, up to one final break |
| Text.Join | mgpt.py:39 | `sep.join(parts)`, also on lines 79 and 173: the parts with the separator between neighbours (specified against Split by Text.SplitJoinBack and Text.SplitJoin, and over concatenation by Text.JoinAppend) |
| Text.Split | mgpt.py:107 | split on ';': at least one piece, and no piece holds the separator |
| Text.SplitJoinBack | mgpt.py:107 | joining the pieces with the separator gives the text back |
| Text.SplitCount | mgpt.py:107 | there is one more piece than the text has separators |
| Text.SplitJoin | mgpt.py:107 | joining a non-empty list of separator-free pieces and splitting again gives the same pieces |
| Text.JoinAppend | mgpt.py:39 | joining two non-empty lists puts exactly one separator between their joins |
| Text.Replace | mgpt.py:175 | `s.replace(pat, repl)`, also on line 70, for a non-empty pattern: occurrences replaced left to right without overlap (specified by Text.ReplaceAbsent and Text.ReplaceDeletes) |
| Text.ReplaceAbsent | mgpt.py:175 | replace leaves text without the pattern unchanged |
| Text.ReplaceDeletes | mgpt.py:175 | deleting a pattern never lengthens the text, and shortens it exactly when the pattern occurs |
| OutputExtractor.SkipSpaces | mgpt.py:68 | the `\s*` part: the position after the longest whitespace run |
| OutputExtractor.QuoteEnd | mgpt.py:68 | the `[^']*` part: the position of the first quote at or after the start, with no quote before it |
| OutputExtractor.MatchAt | mgpt.py:68 | the regex tried at one position: marker, whitespace run, quote, quote-free group, `'}` (specified against the declarative pattern by OutputExtractor.MatchAtIff) |
| OutputExtractor.MatchAtIff | mgpt.py:68 | the matcher at one position returns a body exactly when the marker, whitespace, a quote, that quote-free body and `'}` start there |
| OutputExtractor.SearchFrom | mgpt.py:68 | re.search from a position: the first position where MatchAt succeeds (specified by OutputExtractor.SearchFromLeftmost) |
| OutputExtractor.Search | mgpt.py:68 | re.search over a whole line (specified by OutputExtractor.SearchLeftmost) |
| OutputExtractor.SearchFromLeftmost | mgpt.py:68 | scanning from a position finds nothing exactly when no later position matches, and otherwise the body matched at the first matching position |
| OutputExtractor.SearchLeftmost | mgpt.py:68 | re.search finds nothing exactly when no position matches; otherwise its body is the one matched at the leftmost matching position |
| OutputExtractor.Unescape | mgpt.py:70 | `replace('\\n', '\n')`: each backslash-n pair becomes a line break, left to right (specified by OutputExtractor.UnescapeLeavesNoEscape) |
| OutputExtractor.UnescapeLeavesNoEscape | mgpt.py:70 | after replacing backslash-n by a line break, no backslash-n is left |
| OutputExtractor.Classify | mgpt.py:63-76 | one pass of the loop body: the rstripped line, tested for the saved marker first, then for the observation marker with the regex (specified by OutputExtractor.ClassifySpec) |
| OutputExtractor.ClassifySpec | mgpt.py:62-76 | a line is dropped exactly when its rstripped form holds neither marker; the saved marker wins and keeps the rstripped line; a failed match keeps the rstripped line, and only when no position matches; a match keeps the stripped, unescaped leftmost body |
| OutputExtractor.Survivors | mgpt.py:61-76 | the list `output_lines` after the loop: the kept text of each line, in order (specified by OutputExtractor.SurvivorsAppend, SurvivorsSingle and SurvivorsEmpty) |
| OutputExtractor.SurvivorsAppend | mgpt.py:61-76 | the surviving lines of two runs of lines are the survivors of each, in input order |
| OutputExtractor.SurvivorsSingle | mgpt.py:62-76 | one line survives exactly when it carries a marker, as its classified text |
| OutputExtractor.SurvivorsEmpty | mgpt.py:62-76 | nothing survives exactly when no line carries a marker |
| OutputExtractor.Extract | mgpt.py:59-79 | the filtered answer of a clean run: both streams joined and stripped, split into lines, filtered, and the survivors joined (specified by OutputExtractor.JoinOutput, ExtractWithoutMarkers and the ExtractorCases lemmas; FilterOutput is the loop proved equal to it) |
| OutputExtractor.JoinOutput | mgpt.py:79 | the filtered output is empty or does not end in whitespace |
| OutputExtractor.ExtractWithoutMarkers | mgpt.py:59-79 | output with no marked line filters to the empty string |
| OutputExtractor.FilterOutput | mgpt.py:59-79 | the loop over the lines produces exactly the filtered output of the two streams |
| ExtractorCases.ObservationLineMatches | mgpt.py:68 | the regex captures the body of a well-formed observation record |
| ExtractorCases.ClassifyRecord | mgpt.py:66-74 | a well-formed observation record with a clean body is classified as that body |
| ExtractorCases.LinesOfJoin | mgpt.py:59-62 | break-free lines joined by breaks are split back into the same lines |
| ExtractorCases.RecordSurvivors | mgpt.py:61-76 | one observation record between unmarked lines is the only survivor |
| ExtractorCases.ExtractKeepsOnlyRecord | mgpt.py:59-79 | the output of break-free unmarked lines around one observation record with a clean body (trimmed, with no backslash-n, no line break and no save marker), the whole text trimmed, is exactly that body |
| ExtractorCases.ExtractSingleSurvivor | mgpt.py:79 | when one trimmed line survives, the output is that line |
| ExtractorCases.JoinOneLine | mgpt.py:79 | joining a single trimmed survivor gives it unchanged |
| ExtractorCases.ExtractUnmarkedLine | mgpt.py:62-66 | an unmarked line filters to the empty string |
| ExtractorCases.ExtractLoneRecord | mgpt.py:59-79 | a lone observation record with a clean body (trimmed, with no backslash-n, no line break and no save marker) filters to that body |
| ExtractorCases.ExtractNotIdempotent | mgpt.py:59-79 | filtering a lone record gives its body, filtering that again gives "", so filtering twice differs from filtering once |
| PromptRouter.Route | mgpt.py:31-37 | a given list, even an empty one, is used unchanged; otherwise the answers are one of the three canned lists |
| PromptRouter.RouteByKeywords | mgpt.py:31-37 | ["yes"] exactly when the lower-cased prompt holds "save" and "execute", [] exactly when it holds "save" but not "execute", ["Hello World", "yes"] exactly when it lacks "save" |
| PromptRouter.RouteIgnoresCase | mgpt.py:32-34 | the keyword tests ignore letter case: a prompt and its lower-cased form get the same answers |
| PromptRouter.Payload | mgpt.py:39 | the standard-input text: the task, a break, the answers joined by breaks, and a final break (its lines are specified by PromptRouter.PayloadLines) |
| PromptRouter.PayloadLines | mgpt.py:39 | for break-free items the payload splits into the task, the answers in order and one empty piece, and splitlines gives the task then the answers; with no answers it is the task and two breaks, whose lines are the task and one empty line |
| DelegationInvoker.IntText | mgpt.py:89 | the decimal rendering of an exit code, with '-' before a negative one (specified by DelegationInvoker.IntTextSign and IntTextInjective) |
| DelegationInvoker.TimeoutReply | mgpt.py:87 | the timeout message quoting both partial streams (specified by DelegationInvoker.TimeoutReplyKeepsStreams) |
| DelegationInvoker.TimeoutReplyKeepsStreams | mgpt.py:87 | the timeout message contains both streams |
| DelegationInvoker.FailureReply | mgpt.py:89 | the non-zero exit message quoting the code and both streams (specified by DelegationInvoker.FailureReplyKeepsStreams) |
| DelegationInvoker.FailureReplyKeepsStreams | mgpt.py:89 | the failure message contains the rendered code and both streams |
| DelegationInvoker.Reply | mgpt.py:47-91 | the value call_openmanus returns: the path check first, then one case per way the process ended (specified by DelegationInvoker.MissingScriptIgnoresTask, FailureRepliesKeepStreams and CleanExitIsFiltered; CallOpenManus is proved equal to it) |
| DelegationInvoker.NatText | mgpt.py:89 | the exit code is rendered as at least one decimal digit, one digit exactly for codes below ten |
| DelegationInvoker.NatTextInjective | mgpt.py:89 | distinct non-negative exit codes are rendered differently |
| DelegationInvoker.IntTextSign | mgpt.py:89 | a rendered exit code starts with a minus sign exactly when the code is negative |
| DelegationInvoker.IntTextInjective | mgpt.py:89 | distinct exit codes, including the negative codes of a process killed by a signal, are rendered differently |
| DelegationInvoker.CallOpenManus | mgpt.py:26-91 | the method returns the reply of the outcome-to-message mapping for the routed payload |
| DelegationInvoker.MissingScriptIgnoresTask | mgpt.py:47-48 | a missing script gives the configuration error naming the path, whatever the task and the process |
| DelegationInvoker.FailureRepliesKeepStreams | mgpt.py:86-89 | a timeout or a non-zero exit reports both captured streams verbatim, and a non-zero exit also reports the code |
| DelegationInvoker.CleanExitIsFiltered | mgpt.py:59-85 | a zero exit returns the filtered output of both streams |
| DelegationInvoker.ProcessSeesTaskThenAnswers | mgpt.py:39-53 | when the task and the answers hold no line break and there is at least one answer, the process reads the task line and then one line per answer, in order |
| ChatSession.History.constructor | mgpt.py:13-14 | a new history is empty |
| ChatSession.Answer | mgpt.py:22 | the reply kept is stripped |
| ChatSession.Exchange | mgpt.py:15-23 | the history after one query_gpt call (specified by ChatSession.ExchangeExtends and ExchangeAlternates; QueryGpt is proved to produce it) |
| ChatSession.ExchangeExtends | mgpt.py:15-23 | one exchange adds exactly the prompt as a user turn and then, as an assistant turn, the stripped service reply to the history ending in that prompt, and leaves earlier turns unchanged |
| ChatSession.AlternatingAppend | mgpt.py:15-23 | alternating conversations concatenated still alternate |
| ChatSession.AlternatingPair | mgpt.py:15-23 | a user message followed by an assistant message keeps a conversation alternating |
| ChatSession.ExchangeAlternates | mgpt.py:15-23 | an exchange keeps the conversation alternating user/assistant, starting with the user |
| ChatSession.QueryGpt | mgpt.py:12-24 | a missing history becomes a fresh one; a given history is the same object returned; the service sees the history including the new prompt; the history gains the prompt and the stripped answer |
| InteractionLoop.ClassifyInput | mgpt.py:98-112 | what one input line asks for: exit, skip, delegation or chat (specified by InteractionLoop.ClassifyInputSpec) |
| InteractionLoop.ClassifyInputSpec | mgpt.py:98-115 | exit exactly when the lower-cased stripped line is "exit" (checked before emptiness); skip exactly when it is empty; delegation exactly when it starts with "openmanus:"; chat otherwise, with the stripped line as the prompt |
| InteractionLoop.DelegateCommand | mgpt.py:105-112 | the delegated task and its optional `;`-separated answers; always a delegation (its pieces are specified by InteractionLoop.DelegateCommandSpec) |
| InteractionLoop.DelegateCommandSpec | mgpt.py:105-112 | no answers are passed exactly when the task part has no ';'; otherwise the part is the ';'-join of pieces, the task is the first piece stripped, and each further piece is one stripped answer, in order |
| InteractionLoop.AnswerCount | mgpt.py:107-109 | there is one answer per ';' in the task part |
| InteractionLoop.Commands | mgpt.py:96-98 | one command per input line |
| InteractionLoop.CommandsAppend | mgpt.py:96-98 | the commands of consecutive input lines are the commands of each part, in order |
| InteractionLoop.Printed | mgpt.py:110-116 | what the loop prints for one command: the OpenManus reply, the chat answer, or nothing for an empty line |
| InteractionLoop.NextTurns | mgpt.py:115 | only a chat line extends the conversation, by one exchange |
| InteractionLoop.Session | mgpt.py:96-119 | the whole run over the commands: each prints its reply in order and the first exit ends reading (specified by InteractionLoop.SessionStep, SessionAlternates, SessionHistoryGrowth, SessionEnds and SessionStopsAtExit; InteractiveChat is proved equal to it) |
| InteractionLoop.Respond | mgpt.py:104-116 | a delegation prints the OpenManus reply and leaves the history alone; a chat line prints the answer and extends the shared history by the exchange; an empty line prints nothing |
| InteractionLoop.SessionStep | mgpt.py:96-116 | an exit line ends the session with the farewell; any other line prints its reply before the rest of the session |
| InteractionLoop.InteractiveChat | mgpt.py:93-119 | the loop with one shared history prints and keeps exactly what the session of the line commands specifies |
| InteractionLoop.SessionAlternates | mgpt.py:113-116 | a session keeps the conversation alternating |
| InteractionLoop.SessionHistoryGrowth | mgpt.py:110-116 | the conversation only grows, by two messages per chat answer printed; delegations and skipped lines add nothing |
| InteractionLoop.SessionEnds | mgpt.py:99-101 | "Chat ended." is printed exactly when some line asks to exit, and it is then the last thing printed |
| InteractionLoop.SessionStopsAtExit | mgpt.py:99-101 | lines after the first exit are never read |
| CommandLine.SelectMode | mgpt.py:164-171 | help exactly when -h/--help is present; chat exactly when -c/--chat is present and help is not; the one-shot query exactly when none of help, chat or delegation is asked for; verbose follows -v/--verbose |
| CommandLine.CombinedText | mgpt.py:172-173 | the stripped piped input, then a space and the arguments after the program name joined by spaces when there are any |
| CommandLine.RemoveFlags | mgpt.py:174-175 | each option text deleted in turn, stripping after each deletion (specified by CommandLine.RemoveFlagsTrimmed, RemoveFlagsAbsent, RemoveFlagsShortens and OnlyPipedInput) |
| CommandLine.FlagsNonEmpty | mgpt.py:174 | every option text the program removes is non-empty |
| CommandLine.RemoveEach | mgpt.py:174-175 | the loop deletes each option text in turn and strips, giving the specified removal |
| CommandLine.AssemblePrompt | mgpt.py:172-178 | the prompt is the combined text with all option texts removed, or no prompt when that is empty |
| CommandLine.RemoveFlagsTrimmed | mgpt.py:174-175 | the assembled prompt never begins or ends with whitespace |
| CommandLine.RemoveFlagsAbsent | mgpt.py:174-175 | text containing no option text is only stripped |
| CommandLine.RemoveFlagsShortens | mgpt.py:174-175 | the assembled prompt is never longer than the combined text |
| CommandLine.OnlyPipedInput | mgpt.py:172-175 | with only the program name, removing non-empty option texts gives the stripped piped input when that input holds none of them |

## Left out

- The chat-completion client and its request options (mgpt.py:10, 16-21) are a network call. They are the opaque `service` parameter, which always answers; network errors are not modelled.
- Process control in `subprocess.run` (mgpt.py:51-58) is not modelled: spawning, the 60-second kill and stream capture. The child is the opaque `run` parameter returning an `Outcome`.
- `os.path.exists` (mgpt.py:47) is a filesystem query. It is a boolean parameter.
- The process `run` and the chat `service` are pure functions of their input. So two identical delegations in one session get the same reply, and a service given the same history answers the same. The real process and service guarantee neither.
- DelegationInvoker.TimeoutReply: takes the partial streams as text already rendered. Python captures them as bytes or `None` and formats their `str()` form (`b'...'` or `None`); that rendering is not modelled.
- Terminal I/O and signals are not modelled: `input()`, `print`, `sys.stdin.read`, `isatty`, `sys.exit`, Ctrl+C handling (mgpt.py:98, 100, 113, 116-119, 172, 176-181, 186-190). The interactive input is a sequence of lines. Reaching its end ends the session without "Chat ended.", as the uncaught end-of-input error does in the program.
- The top-level dispatch (mgpt.py:179-181, 189-190) is left as composition of modelled members. It feeds the assembled prompt to `call_openmanus` or `query_gpt` and prints the result.
- `show_help` (mgpt.py:121-161) is static text.
- All verbose and progress printing (mgpt.py:41-45, 71-73, 77-84) is side output that never changes a returned value.
- Text.IsSpace: whitespace is space, tab, line feed, carriage return, vertical tab and form feed. Python's `strip` and `\s` also count the ASCII separators \x1c-\x1f and the non-ASCII Unicode whitespace; those are not modelled.
- Text.Lines: only "\n" is a line break. Python's `splitlines` also breaks on "\r", "\r\n", "\v", "\f", \x1c-\x1e, \x85 and the Unicode line and paragraph separators.
- Text.Lower: lower-casing is ASCII only.
- CommandLine.OnlyPipedInput: stated only for piped input that contains no option text, because the program deletes option texts from the piped input too. It is stated for any list of non-empty option texts, which the program's list is (CommandLine.FlagsNonEmpty).
