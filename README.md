# c-shell core, modelled in Dafny

This project models the core of a small interactive shell written in C
(`main.c`). The shell reads a line, cuts it into arguments in place, and
then does one of two things. For the builtins `cd`, `exit` and `jobs` it
changes its own state. For anything else it forks a child, and remembers
background children in a linked list of jobs.

The model has six modules:

- `Wrappers` holds `Option` and `Result`.
- `Decimal` holds `isdigit`, `atoi` on digit strings, and `%d` printing.
- `Parser` holds `parser` and `arrayLength`.
  - `Run` states the tokenizer's character loop as a function of the original buffer, including the NULs it writes into the buffer.
  - `ParseLine` states the whole result.
  - `Parse`, with its parts `ScanLine` and `EndArguments`, works in place on an `array<char>` and an array of token offsets (`None` is the NULL pointer). Its contract is proved against `Run` and `ParseLine`.
- `Jobs` holds the job list, which is a class `JobList` whose field `jobs` is the sequence of nodes in list order. It also holds `concatStrings`, `getLast`, `printJob`, `deleteJob`, `freeJobs` and the append at the tail. Each of these is specified by a function of the list and of the answers of `waitpid`: `Live`, `Running`, `StatusAfterFree` and `Listing`.
- `Builtins` holds the class `Shell` with the shell state: `statusCode`, `stopProgram`, `lastDirectory` and the working directory. It holds `cd`, specified by the function `Cd`, and `exit`.
- `Router` holds `doCommand` and the parent's side of `basicCommand`.

Operating-system calls are parameters:

- `waitpid(pid, &status, WNOHANG)` during one pass over the list is a function `wait: Pid -> Poll`. A `Poll` holds the return value and the status word, which is stored only when a pid is returned.
- `chdir` is a function `string -> Option<string>` that gives the new working directory, or `None` on failure.
- `getenv("HOME")` is an `Option<string>`.
- `getpid` and the pid that `fork` returns to the parent are plain values, bundled in `Router.World`.
- Printing to standard output is a sequence of returned lines. An error message on standard error is a returned `err` flag.

### Where the code differs from a conventional shell

The model follows the code in each of these cases.

- **A closing quotation mark.** In a conventional shell, a closing quotation mark ends the quoted part and the characters after it join the same word. In this code a closing quotation mark does not move `start` past itself (main.c:159-167). A separator that comes later therefore emits the quoted text a second time, and the characters after the mark are lost. For example, `echo "a b"c` gives `echo`, `a b`, `a b`. See `Parser.ReemitAfterClosingQuote` and `ParserExamples.QuotedTextRepeated`.
- **A quoted `&`.** In a conventional shell, a quoted `"&"` is an ordinary argument. This code compares the text of the last token (main.c:179), so a quoted `"&"` also marks the command as background (`ParserExamples.QuotedAmpersand`).
- **Jobs that `deleteJob` keeps.** A conventional `jobs` command forgets every job whose process has terminated. This code removes only jobs whose `waitpid` returned a negative value (main.c:205, 221). A job that is reaped during that same call (`waitpid` returns its pid) stays listed. `Jobs.Live` keeps every job whose answer is `>= 0`.

## Model

| member | source | states |
|---|---|---|
| Decimal.Format | main.c:263 | `%d` has a leading minus sign exactly for negative numbers, and digits only otherwise |
| Decimal.AtoiNatural | main.c:263 | reading a printed non-negative number back with `atoi` gives the number |
| Decimal.NaturalAtoi | main.c:428 | a digit string without leading zeros is what `%d` prints for its `atoi` value |
| Decimal.Atoi | main.c:428 | `atoi` of a digit string is 0 exactly when every digit is `0` (the empty string included) |
| Parser.FirstNul | main.c:119 | `strlen`: the first NUL at or after an offset, with no NUL before it |
| Parser.Step | main.c:128-172 | one loop iteration writes at most one NUL, at the current index, and either keeps the tokens or appends the token that starts at `start`; `quotation` toggles exactly on `"` |
| Parser.Run | main.c:128-172 | the loop state after `n` characters; the buffer keeps its size and at most `n` tokens are stored, so `parsed[argumentNumber]` stays in bounds |
| Parser.RunKeeps | main.c:137-166 | the loop never writes at or after the index it has reached |
| Parser.StepReadBack | main.c:137-167 | one iteration keeps every stored token readable as the same string |
| Parser.RunReadBack | main.c:128-172 | after the loop every stored offset reads back, from the final buffer, as the token stored there |
| Parser.TerminatedArgs | main.c:179-184 | the kept offsets followed by a NULL form a NULL-terminated array whose strings are the kept tokens |
| Parser.QuotationToggles | main.c:130-166 | the `quotation` flag after `n` characters is the toggle of every `"` among them |
| Parser.QuotationIsParity | main.c:130-166 | the parser is inside quotation marks exactly when it has seen an odd number of them |
| Parser.ParseFailsIffQuoteOpen | main.c:173-176 | `parser` returns -1 exactly when the line holds an odd number of quotation marks |
| Parser.ParseLine | main.c:117-187 | the whole result of `parser`: failure exactly when the line holds an odd number of quotation marks; otherwise the arguments are the stored tokens, less a final `&`; the command is background exactly when the last stored token is `&` |
| Parser.RunStartAfterSeparator | main.c:149 | a word that follows a separator begins just after it |
| Parser.WordsToWithinRun | main.c:169-170 | characters that are not separators end no word |
| Parser.WordsSnoc | main.c:135-151 | appending a word and a separator adds exactly that word |
| Parser.StepWords | main.c:135-170 | without quotation marks, one iteration keeps the tokens equal to the separator-ended words of the prefix read so far |
| Parser.QuoteFreeWords | main.c:128-172 | on a line without quotation marks the tokens are exactly the separator-ended words |
| Parser.QuoteFreeParse | main.c:117-187 | the parse of a line without quotation marks is its words, and a last word `&` makes the command background and is removed |
| Parser.QuoteFreeBackground | main.c:177-186 | a line without quotation marks whose last word is `&` runs the words before it in the background |
| Parser.QuoteFreePrefix | main.c:128-172 | after a prefix without quotation marks, the tokens are that prefix's words and no quotation is open |
| Parser.WordsToPrefix | main.c:128-172 | the words of a prefix do not depend on what follows it |
| Parser.RunStartPrefix | main.c:149 | where the current word begins does not depend on what follows it |
| Parser.InsideQuotes | main.c:130-158 | an opening `"` moves `start` after it, and nothing changes until the closing mark |
| Parser.StepClosesQuote | main.c:159-166 | a closing `"` becomes a NUL and emits the text from `start`, without moving `start` |
| Parser.ClosingQuoteEmits | main.c:153-167 | a closed quotation emits the text between the marks, separators included, as one token, and drops text before the opening mark |
| Parser.QuotedWord | main.c:153-170 | after a closed quotation, later characters of the same word only set `command` |
| Parser.SeparatorReadsFrom | main.c:137-147 | a separator emits the C string from `start`, which an earlier NUL can cut short |
| Parser.ReemitAfterClosingQuote | main.c:137-167 | text that follows a closing mark before the separator makes the quoted text a token a second time |
| Parser.QuotedWordRun | main.c:128-172 | for a line made of words, a quotation, a tail and a newline: the words, the quoted text, then the quoted text again when the tail is not empty |
| Parser.QuotedLastWord | main.c:117-172 | the same result, stated for the line `prefix"quoted"tail` followed by a newline |
| Parser.PlainChars | main.c:169-170 | outside quotation marks, ordinary characters only set `command` |
| Parser.ScanLine | main.c:128-172 | the in-place loop leaves the buffer, the token count, the stored offsets and the `quotation` flag exactly as `Run` says |
| Parser.EndArguments | main.c:178-186 | returns "background" exactly when the last token is `&` (never when there is no token); NULL-terminates the array after the kept tokens |
| Parser.Parse | main.c:117-187 | returns -1 exactly when `ParseLine` fails; otherwise returns 1 or 0 as the command is background or not, and leaves a NULL-terminated array of the command's arguments |
| Parser.ArrayLength | main.c:92-97 | the count of non-NULL pointers before the first NULL |
| Parser.ArrayLengthCountsArgs | main.c:92-97 | after a successful parse, `arrayLength` counts exactly the kept arguments |
| ParserExamples.BackgroundSleep | main.c:117-187 | `sleep 5 &` is `sleep 5` in the background |
| ParserExamples.QuotedArgument | main.c:153-167 | `ls -l "my file"` passes `my file`, with its space, as one argument |
| ParserExamples.QuotedTextRepeated | main.c:137-167 | `echo "a b"c` gives `echo`, `a b`, `a b` |
| ParserExamples.QuotedAmpersand | main.c:179 | `sleep "&"` is `sleep` in the background |
| ParserExamples.UnclosedQuotation | main.c:173-176 | `echo "oops` is rejected |
| ParserExamples.LastWordNeedsSeparator | main.c:135-151 | a last word with no separator after it is not a token |
| ParserExamples.BlankLineHasNoToken | main.c:135-179 | a line of blanks stores no token, so the background test as written reads `parsed[-1]` |
| ParserExamples.BlankLineIsEmptyCommand | main.c:178-186 | with the guard, a line of blanks is an empty foreground command |
| ParserExamples.LoneAmpersand | main.c:178-186 | `&` alone is a background command with no arguments, so `parsed[0]` is NULL |
| Jobs.SpacedIsJoin | main.c:279-286 | a space after every token, with the last space cut, is the tokens joined by single spaces |
| Jobs.ConcatStrings | main.c:274-287 | `concatStrings` produces the tokens joined by single spaces, without a trailing space |
| Jobs.JoinSplitsBack | main.c:274-287 | a stored command line of separator-free words splits back into those words |
| Jobs.LiveMember | main.c:195-235 | a job survives `deleteJob` exactly when it was listed and its `waitpid` did not return a negative value |
| Jobs.Live | main.c:195-235 | the jobs `deleteJob` keeps: never more than were listed, and each one's `waitpid` returned a non-negative value |
| Jobs.LiveAppend | main.c:195-235 | `deleteJob` filters each part of the list independently and keeps the order |
| Jobs.LiveIdempotent | main.c:195-235 | a second pass that gets the same answers removes nothing more |
| Jobs.LiveKeepsDistinct | main.c:195-235 | removing jobs never makes two jobs share a pid |
| Jobs.RunningMember | main.c:389-394 | `freeJobs` kills exactly the listed pids whose `waitpid` returned 0 |
| Jobs.Running | main.c:389-394 | the pids `freeJobs` kills: never more than the listed jobs, and `waitpid` returned 0 for each |
| Jobs.StatusSurvivesFree | main.c:391 | if no job is reaped during `freeJobs`, the variable passed to `waitpid` keeps its value |
| Jobs.StatusAfterFree | main.c:391 | what `freeJobs` leaves in the variable passed to `waitpid`: its starting value, or the status word of a listed job whose `waitpid` returned a pid |
| Jobs.StatusOfLastReaped | main.c:388-401 | the value `freeJobs` leaves in the variable passed to `waitpid` is the status word of the last job reaped during the pass |
| Jobs.JobLineReadsBack | main.c:263 | a printed job line reads back as the pid, one space, then the command line |
| Jobs.AppendKeepsDistinct | main.c:316-331 | appending a job whose pid is not listed keeps the pids distinct |
| Jobs.JobList.constructor | main.c:67 | the list starts empty |
| Jobs.JobList.Last | main.c:242-253 | `getLast` gives NULL for an empty list, and otherwise the last node |
| Jobs.JobList.Append | main.c:316-331 | the new job goes after every existing job, which stay unchanged and in order |
| Jobs.JobList.Print | main.c:259-267 | `printJob` prints one `%d %s` line per job, in list order |
| Jobs.UnlinkFailed | main.c:217-232 | the walk after the head keeps the current node and exactly the later nodes whose query did not fail, in order, and queries each later pid once, in order |
| Jobs.JobList.DeleteDead | main.c:195-235 | the list becomes `Live` of the old list, whether removals happen at the head, middle or tail; every pid is queried exactly once, in list order |
| Jobs.JobList.FreeAll | main.c:386-402 | the list becomes empty; the killed pids are exactly those still running, in order; the status variable ends as `StatusAfterFree` says |
| Builtins.Cd | main.c:349-380 | `cd` reports an error exactly for: more than one operand, `cd -` with no recorded directory, or a failed `chdir`. An error changes nothing. Every other case records the starting directory in `lastDirectory` |
| Builtins.CdTooManyIgnoresChdir | main.c:374 | with more than one operand, `chdir` is not attempted |
| Builtins.CdBackTwice | main.c:364-371 | `cd -` twice returns to the starting directory and history |
| Builtins.CdThenBack | main.c:364-379 | a successful `cd path` followed by `cd -` comes back to the starting directory |
| Builtins.ExitCodeReadsOperand | main.c:428 | an operand without leading zeros is the decimal form of the exit code |
| Builtins.ExitCode | main.c:419-432 | the exit code is 0 exactly when there is no operand or the operand is all zeros |
| Builtins.ExitCodeOverwritten | main.c:428-435 | `exit 3` with a job that already finished with status 0: as written, the shell ends with 0 |
| Builtins.ExitCodeKeptWhenNoneReaped | main.c:428-435 | as written, the exit code survives when no job is reaped during the pass |
| Builtins.Shell.constructor | main.c:22-69 | the shell starts with status 0, not stopping, and an empty `lastDirectory` |
| Builtins.Shell.CdCommand | main.c:349-380 | the working directory, `lastDirectory` and the error flag become what `Cd` gives; `statusCode` and `stopProgram` are untouched |
| Builtins.Shell.ExitCommand | main.c:409-437 | the corrected member of the Findings row for main.c:391. Errors exactly for more than one operand or a non-digit in the operand, and then changes nothing. Otherwise sets `statusCode` to the operand's value (0 with no operand or an empty one), empties the list, kills the running jobs, and sets `stopProgram`. It also returns `statusAsWritten`, the value the code as written leaves in `statusCode`: `ExitStatusAsWritten` of the old list |
| Router.BasicCommand | main.c:311-335 | prints the child's pid. A background command appends one job holding the pid and the joined arguments; a foreground command leaves the list as it was |
| Router.DoCommand | main.c:447-466 | exact-match dispatch on the first argument, with the effect of each branch, including the pids a successful `exit` kills (and no kill in any other branch). The exit branch is the corrected `Shell.ExitCommand` of the Findings row for main.c:391: `statusCode` becomes the exit code, and `statusAsWritten` is the value the code as written leaves there, `ExitStatusAsWritten` of the old list. The background flag matters only to external programs. An empty command does nothing |

## Left out

- Terminal I/O and the main loop (`getLine`, `main`) are not modelled. The model starts from a NUL-terminated line and from a parsed command.
- `fork`, `execvp`, the child branch, and the blocking `waitpid(..., WUNTRACED)` for foreground commands are not modelled. The parent receives the child's pid as an input. A `fork` failure (pid -1) is not distinguished from a pid.
- The meaning of `waitpid`, `kill`, `chdir`, `getcwd`, `getenv` and `getpid` is left to the oracles. A `getcwd` failure (for a path longer than 512 bytes) is not modelled. Within one pass, each pid gets a single answer.
- Jobs.JobList: the linked nodes and their `next` pointers are modelled as a sequence. Relinking in place and `malloc`/`free` are therefore not modelled, and a node is removed by leaving it out of the sequence.
- Jobs.JobList.FreeAll: sending `SIGKILL` is modelled as the returned list of killed pids.
- Parser.Parse: `__bzero(parsed, INPUT_SIZE)` clears 512 bytes, which is only part of the pointer array. The model does not rely on that clearing: the only slots it reads are ones `parser` has written.
- Parser.Parse: on the -1 path, `parsed` is left as the loop left it. Only the buffer is stated for that path.
- Jobs.ConcatStrings: the 512-byte `command` buffer is not modelled. A repeated quoted token can make the joined command line longer than the input line.
- Builtins.Shell.ExitCommand: requires that the operand's value fits in an `int`, because `atoi` overflow is undefined in C.
- The effect of `statusCode` on the exit status of the process is not modelled; it belongs to `main`.
- The line with the pid that `cd` and `exit` print is modelled as an output line. The wording of the error message is not modelled, only whether one is printed.

## Findings

| source | as written | input that shows it | evidently intended | confidence | as-written member | corrected member |
|---|---|---|---|---|---|---|
| main.c:179 | the background test reads `parsed[argumentNumber - 1]` even when no token was stored | the line ` \n` (a blank followed by a newline) stores no token, so the test reads `parsed[-1]` | a line with no token is an empty foreground command | not executed | Parser.BackgroundAsWritten, ParserExamples.BlankLineHasNoToken | Parser.ParseLine, ParserExamples.BlankLineIsEmptyCommand |
| main.c:391 | `freeJobs` passes the global `statusCode` to `waitpid`, so a job reaped while freeing overwrites the exit code that `exit` just set (main.c:428) | `exit 3` with one background job that has already finished with status 0: the shell ends with 0 | the shell ends with the code given to `exit` | not executed | Builtins.ExitStatusAsWritten, Builtins.ExitCodeOverwritten | Builtins.Shell.ExitCommand, Router.DoCommand |
| main.c:448-450 | `doCommand` passes `parsed[0]` to `strcmp` without checking that there is an argument | the line `&\n` parses to a background command with no arguments, so `parsed[0]` is NULL | an empty command does nothing | not executed | Router.CommandNameAsWritten, ParserExamples.LoneAmpersand | Router.DoCommand |
