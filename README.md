# A verified model of a small Rust shell

This project models the command-line core of a small POSIX-style shell written in Rust. The core has four layers:

- **Tokenizer** (`Tokenize`). A character-level state machine splits one input line into words. It handles three things:
  - backslash escapes and single and double quotes;
  - separation by whitespace (Rust's `char::is_whitespace`);
  - the redirection operators `>`, `>>`, and a prefix followed by `>`/`>>`.

  It keeps the source's quirk: when the pending word ends in an ASCII digit, the whole word becomes the operator's prefix, so `a1>` is one token. `Tokenize` is the source's loop, written as a method. It is proved to compute the recursive state machine `Lex`, and the properties are proved about `Lex`.
- **Redirection parser and output routing** (`Redirection`). `ParseCommand` is the source's cursor loop. It turns a token list into arguments plus at most one stdout and one stderr redirection. It is proved equal to `Parse`, a declarative reading: the tokens are cut into items (a word, or an operator that takes the next token as its target), the arguments are the words, and each stream takes its redirection from its last operator. `HandleOutput` decides where a builtin's result goes and returns the output actions in order. `Apply` gives the effect of those actions on a map from file names to contents, with the truncate and append semantics of `write_to_file` and `create_file`.
- **Builtins** (`Commands`). This layer covers `echo`, `pwd`, `cd`, `type`, the unknown-command error, and `full_path`'s first-match search along the `:`-separated PATH. The process environment is an explicit `Env` value:
  - HOME and PATH;
  - the current directory;
  - whether changing to a directory succeeds;
  - the metadata of a path.
- **Completion** (`Completion`). `ExtractWord` finds the word before the cursor, and `IsFirstWord` is the first-word test. `Complete` is the completer: it collects the matching builtins and PATH entries, sorts them by display and removes repeated displays. It is proved to return exactly the pairs `(name, name + " ")` of the matching names, strictly sorted. The PATH value and the directory listings are inputs.

`Wrappers` holds `Option` and `Result`. `Text` holds the pieces of Rust's standard library that the shell relies on: `char::is_whitespace`, `str::split`, `split_whitespace`, `join`, and the code-point order of `String`.

## Model

| member | source | states |
|---|---|---|
| Text.SplitWhere | src/commands.rs:61 | `str::split` at every separator character: at least one piece, empty pieces included, and no piece holds a separator; that it loses nothing is `JoinSplitWhere` |
| Text.Join | src/commands.rs:14 | `join(sep)`; a definition with no `ensures` of its own, whose properties are `JoinSplitWhere`, `SplitWhereJoin` and `EchoRoundTrip` |
| Text.JoinSplitWhere | src/commands.rs:61 | joining the pieces of `str::split` with the separator gives the string back, so every PATH entry is kept, in order |
| Text.SplitWhereJoin | src/commands.rs:61 | splitting a join of separator-free pieces gives the pieces back |
| Text.SplitWhitespace | src/completion.rs:34 | `split_whitespace` yields non-empty words that contain no whitespace |
| Text.ConcatSplitWhitespace | src/completion.rs:34 | the words of `split_whitespace`, put together, are exactly the non-whitespace characters in order |
| Text.SplitWhitespaceWord | src/completion.rs:34 | a word followed by the end of the line or by whitespace is the first word, and the remaining words are those of the rest |
| Text.SplitWhitespaceSkip | src/completion.rs:34 | leading whitespace does not change the words |
| Text.LexLeTotal | src/completion.rs:68 | the order used by `sort_by` on displays is total |
| Text.LexLeTransitive | src/completion.rs:68 | the order used by `sort_by` is transitive |
| Text.LexLeAntisymmetric | src/completion.rs:68 | the order used by `sort_by` is antisymmetric |
| Tokenize.Step | src/tokenize.rs:10-51 | one pass of the loop body, with the source's branches in the source's order; its contract says every step consumes input, so the machine always ends |
| Tokenize.Run | src/tokenize.rs:10-56 | the state machine from a given state; a definition with no `ensures` of its own, whose properties are the `Run…` lemmas and `RunTokensNonEmpty` |
| Tokenize.Lex | src/tokenize.rs:3-59 | the machine from the start state; a definition with no `ensures` of its own, whose properties are the `Lex…` lemmas, `TrailingBackslashDropped` and the unit tests below, and which `Tokenize` is proved to compute |
| Tokenize.Tokenize | src/tokenize.rs:3-59 | the loop over the characters returns the tokens of the state machine `Lex`, and every token is non-empty |
| Tokenize.LexTokensNonEmpty | src/tokenize.rs:38-55 | every emitted token is non-empty |
| Tokenize.LexPlainIsSplitWhitespace | src/tokenize.rs:44-51 | on a line with no backslash, quote or `>`, tokenizing is splitting on runs of whitespace |
| Tokenize.LexJoinedWords | src/tokenize.rs:44-51 | plain words joined by single spaces are tokenized back into the same words |
| Tokenize.LexSingleQuoted | src/tokenize.rs:16-17 | inside single quotes every character is kept literally: backslash, `"`, `>` and whitespace too; the quotes are never emitted; `''` gives nothing |
| Tokenize.LexDoubleQuoted | src/tokenize.rs:18-19 | inside double quotes `'`, `>` and whitespace are kept; the quotes are never emitted |
| Tokenize.LexEscapedRoundTrip | src/tokenize.rs:11-15 | a backslash before each character makes any string, even one of quotes, spaces and `>`, a single token of exactly that string |
| Tokenize.LexEscapedInDoubleQuotes | src/tokenize.rs:11-19 | inside double quotes a backslash escapes every character, not just a restricted set |
| Tokenize.TrailingBackslashDropped | src/tokenize.rs:11-15 | on a line with no other backslash and no single quote, a backslash at the very end is dropped: after quoted text, inside an open double quote, after `>` and in a plain word alike |
| Tokenize.TrailingBackslashInSingleQuote | src/tokenize.rs:11-17 | inside an open single quote a final backslash is not an escape and stays in the word |
| Tokenize.RedirectOperator | src/tokenize.rs:20-43 | an unquoted `>` emits `>`, or `>>` when a second `>` follows at once; a pending word that ends in a digit becomes its prefix, and any other pending word is emitted before it |
| Tokenize.LexWordGluedRedirect | src/tokenize.rs:23-43 | `w>f` is `[w>, f]` when `w` ends in an ASCII digit, and `[w, >, f]` otherwise |
| Tokenize.LexWordsThenQuoted | src/tokenize.rs:44-51 | words followed by a double-quoted string keep the string's spaces in one token |
| Tokenize.LexWordsRedirect | src/tokenize.rs:20-51 | `words > f` gives the words, then `>`, then `f` |
| Tokenize.TestSimpleCommand | src/tokenize.rs:65-68 | `echo hello` gives `["echo", "hello"]` |
| Tokenize.TestQuotedString | src/tokenize.rs:70-73 | `echo "hello world"` gives `["echo", "hello world"]` |
| Tokenize.TestRedirection | src/tokenize.rs:75-78 | `echo hi > file.txt` gives `["echo", "hi", ">", "file.txt"]` |
| Tokenize.TestDigitPrefix | src/tokenize.rs:23-43 | `a1>f` gives `["a1>", "f"]`: the whole pending word, not only its digit, becomes the operator's prefix |
| Tokenize.TestStderrOperator | src/tokenize.rs:23-43 | `2>err` gives `["2>", "err"]` |
| Tokenize.TestWordBeforeOperator | src/tokenize.rs:23-43 | `ls>out` gives `["ls", ">", "out"]` |
| Commands.SearchPath | src/commands.rs:61-78 | the result is none exactly when no entry holds an executable regular file; otherwise it is `dir/command` for such an entry with none before it |
| Commands.FullPath | src/commands.rs:57-79 | with PATH unset there is no path; otherwise the first-match search over the `:`-separated entries |
| Commands.FullPathFirstMatch | src/commands.rs:61-78 | when entry `k` holds the executable, a path is found, and it comes from entry `k` or an earlier one |
| Commands.PathDirsJoin | src/commands.rs:61 | the PATH entries joined with `:` are PATH itself |
| Commands.CdTarget | src/commands.rs:20-31 | no argument or `~` gives HOME; `~/rest` gives HOME + `/` + rest, or none when HOME is unset; any other argument is used verbatim |
| Commands.CdExpansion | src/commands.rs:20-31 | `~/rest` expands under HOME, and an argument not starting with `~` is used as given whether HOME is set or not |
| Commands.ExecuteCd | src/commands.rs:19-38 | success is `Ok("")` exactly when the target exists and the directory change succeeds; an unset HOME gives `cd: HOME not set`; a failed change gives `cd: <dir>: No such file or directory` |
| Commands.ExecuteType | src/commands.rs:40-54 | `type` always succeeds: `type: missing argument` with no argument, `X is a shell builtin` for a builtin, `X is <path>` for a PATH hit, and `X: not found` otherwise |
| Commands.TypeBuiltinWinsOverPath | src/commands.rs:46-47 | a builtin is reported as a builtin whatever PATH holds |
| Commands.ExecuteBuiltin | src/commands.rs:7-17 | dispatch: `echo` joins its arguments with spaces and adds a newline; `pwd` prints the current directory or reports the error; `cd` and `type` are as above; any other name is `<cmd>: command not found` |
| Commands.EchoRoundTrip | src/commands.rs:14 | the output of `echo` ends in a newline, and splitting the rest at spaces gives back arguments that have no spaces |
| Commands.TestEcho | src/commands.rs:85-89 | `echo hello world` gives `hello world\n` |
| Commands.TestTypeBuiltin | src/commands.rs:91-95 | `type echo` gives `echo is a shell builtin\n` |
| Commands.ExitNotDispatched | src/commands.rs:4-16 | `exit` is listed in `BUILTINS` but not dispatched, so running it gives `exit: command not found` |
| Redirection.Parse | src/redirection.rs:19-67 | the declarative reading of `parse_command`: the arguments of the items and the last redirection of each stream; a definition with no `ensures` of its own, whose properties are `ParseCommand` and the lemmas below |
| Redirection.ArgsOf | src/redirection.rs:55-57 | the word items in order; a definition with no `ensures` of its own, whose properties are `ArgsOfAppend`, `ArgsAreNotOperators` and `ArgsSubsequence` |
| Redirection.ArgsOfAppend | src/redirection.rs:55-57 | the arguments of two item lists are those of the first, then those of the second |
| Redirection.Final | src/redirection.rs:27-54 | the redirection of a stream after all items; a definition with no `ensures` of its own, whose properties are `FinalAppend`, `FinalMentioned`, `LastWins` and `DanglingResets` |
| Redirection.FinalAppend | src/redirection.rs:27-54 | after two item lists a stream has the second list's redirection if the second list redirects it, and the first list's otherwise |
| Redirection.FinalMentioned | src/redirection.rs:27-54 | a stream that some item redirects takes its redirection from such an item |
| Redirection.OperatorOf | src/redirection.rs:26-54 | exactly the six tokens `>`, `1>`, `>>`, `1>>`, `2>`, `2>>` are operators |
| Redirection.Items | src/redirection.rs:25-59 | the cut into items has no more items than there are tokens |
| Redirection.ParseCommand | src/redirection.rs:19-67 | the cursor loop computes `Parse`, including a cursor that steps past the end after a final operator |
| Redirection.OperatorModesTruncate | src/redirection.rs:27-54 | `>` and `1>` truncate stdout; `2>` truncates stderr |
| Redirection.OperatorModesAppend | src/redirection.rs:27-54 | `>>` and `1>>` append to stdout; `2>>` appends to stderr |
| Redirection.DanglingEndsOpen | src/redirection.rs:28-54 | the tokens end in an operator waiting for its target exactly when their last item is an operator without a target |
| Redirection.DanglingAppend | src/redirection.rs:25-59 | after tokens that do not end in such an operator, whether the whole ends in one is decided by the tokens that follow |
| Redirection.ItemsAppend | src/redirection.rs:25-59 | when the first part does not end in an operator waiting for its target, the items of two parts are the items of the first, then those of the second |
| Redirection.ArgsAreNotOperators | src/redirection.rs:55-57 | no argument is an operator token |
| Redirection.ArgsSubsequence | src/redirection.rs:25-59 | the arguments are the tokens in order, with some left out, and there are at most as many of them as tokens |
| Redirection.NoOperators | src/redirection.rs:55-57 | without operator tokens, every token is an argument and nothing is redirected |
| Redirection.ParseAppend | src/redirection.rs:25-59 | when the first part does not end in an operator waiting for a target, parsing composes: the arguments of both parts, and for each stream the second part's redirection if it redirects that stream, else the first part's |
| Redirection.LastWins | src/redirection.rs:28-54 | an operator and its target, followed by tokens that do not redirect the same stream, decide that stream's redirection |
| Redirection.DanglingResets | src/redirection.rs:28-49 | an operator as the final token resets its stream to none, erasing an earlier redirection, and leaves the other stream and the arguments alone |
| Redirection.OperatorTakesOperator | src/redirection.rs:27-33 | an operator takes the next token as its target even when that token is an operator: `> 2> rest` redirects stdout to a file named `2>` |
| Redirection.RedirectAfterWords | src/redirection.rs:25-59 | words followed by one operator and its target: the words are the arguments and only the operator's stream is redirected |
| Redirection.SingleRedirect | src/redirection.rs:25-59 | one command word, one operator and its target: the operator's stream is redirected to the target with its mode |
| Redirection.ParseTests | src/redirection.rs:137-151 | `echo hi > out.txt` gives arguments `echo hi` and stdout to `out.txt`; `ls 2> err.txt` redirects stderr |
| Redirection.LineWithRedirect | src/redirection.rs:19-67 | a line of plain words, ` > ` and a file name, tokenized and then parsed, has the words as its arguments and stdout going to the file, truncating |
| Redirection.HandleOutput | src/redirection.rs:96-131 | the actions of `handle_output`, the stdout half then the stderr half; a definition with no `ensures` of its own, whose properties are `HandleOutputStdout`, `HandleOutputFlush`, `HandleOutputStderr`, `HandleOutputFiles` and `FilesAfterOutput` |
| Redirection.StdoutEffects | src/redirection.rs:100-116 | with a stdout redirection nothing is printed and only that file is opened; without one, an Ok text is printed only when non-empty, and only for `clear` is stdout flushed, right after the print |
| Redirection.StderrEffects | src/redirection.rs:118-130 | without a stderr redirection an error is printed to stderr with a newline; with one, nothing is printed, and the file is opened only for a builtin |
| Redirection.HandleOutputStdout | src/redirection.rs:100-116 | stdout gets the Ok text only without a stdout redirection, and never an empty print |
| Redirection.HandleOutputFlush | src/redirection.rs:108-115 | stdout is flushed exactly when an Ok text was printed for `clear` |
| Redirection.HandleOutputStderr | src/redirection.rs:118-130 | stderr gets the error and a newline only without a stderr redirection |
| Redirection.HandleOutputFiles | src/redirection.rs:96-131 | the files opened are the stdout target, then the stderr target when the command is a builtin |
| Redirection.ApplyOne | src/redirection.rs:70-93 | what `write_to_file` and `create_file` do to the files: truncate, or keep the old text in append mode, then write; a definition with no `ensures` of its own, whose properties are `ApplySingle` and the `Apply…` lemmas |
| Redirection.Apply | src/redirection.rs:96-131 | the actions carried out in order; a definition with no `ensures` of its own, whose properties are `ApplyAppend`, `ApplySingle` and the lemmas below |
| Redirection.ApplyAppend | src/redirection.rs:96-131 | carrying out two lists of actions is carrying out the first, then the second |
| Redirection.ApplySingle | src/redirection.rs:70-93 | carrying out a one-action list is carrying out that action |
| Redirection.ApplyStdoutEffects | src/redirection.rs:101-107 | the stdout target receives the Ok text, truncated or appended as its mode says; an empty or failed result still creates or truncates it |
| Redirection.ApplyStderrEffects | src/redirection.rs:119-127 | the stderr target of a builtin receives the error text, or is only created or truncated on success; for an external command no file changes |
| Redirection.FilesAfterOutput | src/redirection.rs:96-131 | the files after `handle_output`: the stdout target receives the Ok text, then the stderr target of a builtin receives the error text, and no other file changes |
| Redirection.SameFileForBothStreams | src/redirection.rs:101-127 | `echo hi > f 2> f` on success leaves `f` empty, because the stderr side truncates it again after the output was written |
| Redirection.SameFileAppended | src/redirection.rs:101-127 | with `>> f 2>> f` on success, the file grows by exactly the Ok text |
| Completion.LastWhitespace | src/completion.rs:79 | the index of the last whitespace character, or none exactly when there is no whitespace |
| Completion.ExtractWord | src/completion.rs:77-81 | `start <= pos` and the word is `line[start..pos]`; it contains no whitespace; `start` is 0 exactly when the text before the cursor has no whitespace, and otherwise follows a whitespace character |
| Completion.IsFirstWord | src/completion.rs:34 | at most one word of `split_whitespace` before the cursor; a definition with no `ensures` of its own, whose properties are `FirstWordWithoutWhitespace`, `SecondWord`, `CommandAfterSpace` and `Complete` |
| Completion.FirstWordWithoutWhitespace | src/completion.rs:33-36 | before any whitespace the cursor is in the first word, and the whole prefix is the word |
| Completion.SecondWord | src/completion.rs:33-36 | after `w1 w2` the cursor is not in the first word, and the word under it is `w2` |
| Completion.CommandAfterSpace | src/completion.rs:33-36 | at the end of `w ` (a word and a space) the line still counts as its first word, and the word is empty, so every command name is a candidate |
| Completion.Offer | src/completion.rs:40-63 | the pair `(name, name + " ")` of each name that starts with the word, in order; a definition with no `ensures` of its own, whose properties are `OfferMembers` and `OfferAppend` |
| Completion.OfferAppend | src/completion.rs:40-63 | the candidates of two name lists are those of the first, then those of the second |
| Completion.OfferMembers | src/completion.rs:40-63 | a pair is offered exactly when it is `(name, name + " ")` for a listed name that starts with the word |
| Completion.OfferPath | src/completion.rs:51-65 | the PATH loop offers, in order, the matching entries of every readable directory of the `:`-separated PATH; nothing when PATH is unset |
| Completion.OfferEntries | src/completion.rs:54-63 | the loop over one directory's entries offers, in order, those that start with the word |
| Completion.CollectCandidates | src/completion.rs:39-66 | the candidates before sorting are the matching builtins, then the matching PATH entries |
| Completion.Insert | src/completion.rs:68 | one step of the sort: the result is one longer and begins with the new element or with the old first element; `InsertPermutes` and `InsertSorted` state the rest |
| Completion.InsertPermutes | src/completion.rs:68 | insertion adds exactly the one element: the result is a permutation of the list and the element |
| Completion.InsertSorted | src/completion.rs:68 | insertion into a list sorted by display keeps it sorted |
| Completion.SortByDisplay | src/completion.rs:68 | the result is sorted by display and is a permutation of the input |
| Completion.Dedup | src/completion.rs:69 | removing repeats keeps only elements of the input, and the last display stays last |
| Completion.DedupByDisplay | src/completion.rs:69 | the loop removes each entry whose display equals that of the entry before it, computing `Dedup` |
| Completion.DedupStrictlySorted | src/completion.rs:68-69 | after sorting, removing repeats leaves the list strictly increasing in display |
| Completion.DedupKeepsDisplays | src/completion.rs:69 | removing repeats drops no display |
| Completion.SortedUnique | src/completion.rs:68-69 | after sorting and removing repeats, exactly the pairs of the matching names remain, in strictly increasing order |
| Completion.Complete | src/completion.rs:27-74 | command names are completed exactly when the text before the cursor has at most one word. The answer starts at `extract_word`'s start, and its candidates are strictly sorted, each display once. The candidates are exactly the pairs `(name, name + " ")` of the builtins and PATH entries that start with the word. Otherwise the filename completer answers |

## Left out

- Real file I/O. `write_to_file` and `create_file` (src/redirection.rs:70-93) are the actions `WriteFile` and `CreateFile`. `Apply` models their effect on a map of file contents, and their errors, which the source ignores, are not modelled.
- Terminal output. `print!`, `eprintln!` and the flush for `clear` are the actions `Print`, `PrintError` and `FlushStdout`.
- The process environment. `env::current_dir`, `env::set_current_dir`, `env::var("HOME")` and `env::var("PATH")` are fields of `Env`. `cd` changing the process's directory is not modelled; only its result is.
- `std::fs::metadata` is an oracle in `Env` returning the file flag and permission bits. The branch for non-Unix targets, which accepts any regular file, is left out.
- The rustyline plumbing: `ShellCompleter::new`, the `Helper`/`Hinter`/`Highlighter`/`Validator` impls and the `Context` argument. The filename completer's answer is the opaque `Filenames`, and the `ReadlineError` path is left out because the command branch always succeeds.
- `std::fs::read_dir` over the PATH directories is the input `listDir`. Entries that fail to read and names that are not valid UTF-8, which the source drops, never appear in its listings.
- Completion.ExtractWord: positions count characters, not bytes. `extract_word` slices at the byte after the last whitespace, which is not a character boundary after multi-byte whitespace such as U+00A0. That panic in the source is not modelled.
- Commands.ExecuteBuiltin: requires a non-empty argument list for `echo`, because `args[1..]` panics on an empty one.
- Redirection.HandleOutput, Redirection.StderrEffects, Redirection.HandleOutputStdout, Redirection.HandleOutputFlush, Redirection.HandleOutputStderr, Redirection.HandleOutputFiles, Redirection.ApplyStderrEffects, Redirection.FilesAfterOutput: require a non-empty argument list when stderr is redirected, because `parsed.args[0]` panics otherwise.
- Completion.SortByDisplay: does not state that the sort is stable, as `sort_by` is. In `Complete`, entries with equal displays are equal pairs, so the order among them cannot be observed.
- src/main.rs is not part of this model. It is a separate read loop that uses none of these modules.
- Pipelines, and the spawning and waiting of external commands, are not part of the modelled source. `|` is an ordinary character to the tokenizer.
