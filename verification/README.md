# SubmitTool in Dafny

SubmitTool is a console helper for AtCoder contests. It reads commands in a loop. `get` and `load` set up a contest's task table. `change` switches the C# language id. `run` and `submit` build the solver file `Solver.cs`, run it on the task's samples and, for `submit`, post it. `expand` writes the expanded solver to `Result.cs`.

Before building, the solver is expanded. Every `using Solve.Libraries.X;` line pulls in the library file `Libraries/X.cs`, and this repeats until no new module appears. The result can also be minified.

This project models the logic of `SubmitTool/Program.cs` and proves properties of it:

- the expansion loop and the minifier;
- the output comparison, the status the sample loop accumulates, and the confirmation prompt;
- the contest task table: how `Get` builds it, the tab-separated file it is written to and `Load` reads back, the task lookup of `Run`, and the language switch of `Change`;
- the parsing of the command line.

The modules follow the program's structure:

| module | file | what it holds |
|---|---|---|
| `Wrappers` | wrappers.dfy | `Option` and `Result` |
| `Text` | text.dfy | .NET string operations on ASCII (`Split`, `Join`, trimming, case, white-space tokens) |
| `Patterns` | patterns.dfy | the two `using` regexes read line by line, the module-to-path mapping, and the comment cut |
| `Minifier` | minifier.dfy | the minify loop |
| `Expander` | expander.dfy | `ExpandInner` and `Expand` |
| `Verifier` | verifier.dfy | output comparison, the sample loop's status, and the key prompt |
| `Tolerance` | tolerance.dfy | the numeric branch of the comparison |
| `Pipeline` | pipeline.dfy | `RunInner`, with its processes and HTTP replaced by their results |
| `Tasks` | tasks.dfy | the task table, its file format, task lookup, and language aliases |
| `Sessions` | session.dfy | the `Program` object's contest and language fields, and the methods `Get`, `Load`, `Change` and `Run` |
| `Cli` | cli.dfy | the command switch of `Main` |

The model keeps the shape of the code where the code changes state step by step:

- `ExpandInner` is a method whose loops update the same variables as the C# code (`source`, `usingSet`, `newUsing`, `added`, `flag`).
- The minify loop, the comparison loop, the sample loop, the key loop and the dictionary-filling loops of `Get` and `Load` are methods with loop invariants.
- Each of these methods is proved equal to a specification function. The properties are proved as lemmas about those functions.
- `Session` is a class whose fields are the program's `_contestName`, `_tasks` and `_languageId`, plus the contest files under `config/contests`. Its methods keep the invariant `Valid()`:
  - the language id is one of the four known ids;
  - a table exists only for a loaded contest, and that contest's file exists;
  - every key of the table is upper case.

The outside world is given to the model as values:

- the lines of each library file (a map from path to lines);
- the HTTP status of the contest page and the standings' (assignment, screen name) matches;
- the build's exit code;
- each sample's run outcome (exit code and output, or time-out);
- the keys pressed at the prompt;
- `double.TryParse`, which is a function parameter.

Two kinds of exception in the C# code are never caught, so they end the program: a missing library file, and `Dictionary.Add` with a key already present in `Get` or `Load`. The model returns each as a `Failure` value instead. The only `try` in the code guards the deletion of `tmp` (SubmitTool/Program.cs:618-622).

## Model

| member | source | states |
|---|---|---|
| Patterns.LibraryRef | SubmitTool/Program.cs:354 | A line matched by the library regex yields a name of `\w` and `.` characters, and the line starts with `using Solve.Libraries.<name>;` |
| Patterns.UsingTarget | SubmitTool/Program.cs:355 | The `using` regex captures a non-empty run with no white space |
| Patterns.RefsNeedMarker | SubmitTool/Program.cs:418-433 | A text with a library-reference line contains "Solve.Libraries", so the `Contains` test that skips expansion never skips a reference |
| Patterns.UsingLineRoundTrip | SubmitTool/Program.cs:385-387 | Every prepended `using x;` line is read back by the `using` regex as target x |
| Patterns.LibraryLineRoundTrip | SubmitTool/Program.cs:354 | The line `using Solve.Libraries.n;` is matched with capture n, for every module name n |
| Patterns.ModulePathRoundTrip | SubmitTool/Program.cs:371 | The path `Libraries/<name with '.' as '/'>.cs` maps back to the module name |
| Patterns.ModulePathInjective | SubmitTool/Program.cs:371 | Two different module names never read the same file |
| Patterns.CommentFrom | SubmitTool/Program.cs:394 | Finds the first `//` that has a character after it, and there is none before it |
| Patterns.StripLineMarkerAtEnd | SubmitTool/Program.cs:394 | After a line is cut at its comment, a remaining `//` can only be its last two characters |
| Patterns.StripLineIdempotent | SubmitTool/Program.cs:394 | Cutting comments twice gives the same line as once |
| Patterns.CommentHidesTail | SubmitTool/Program.cs:394 | Text appended after a comment on the same line is removed by the cut |
| Minifier.LinesOfStripped | SubmitTool/Program.cs:394-397 | The lines the minify loop walks are exactly the source lines, each cut at its comment |
| Minifier.StripCommentsIdempotent | SubmitTool/Program.cs:394 | Removing comments from the whole text a second time changes nothing |
| Minifier.Minify | SubmitTool/Program.cs:391-412 | The loop over the lines with the buffer `sb` and the list `lines` computes `Minified` |
| Minifier.DirectiveVerbatim | SubmitTool/Program.cs:399-404 | A `#` line is emitted unchanged (its `TrimStart(' ')` does nothing) |
| Minifier.MinifyPlain | SubmitTool/Program.cs:407-410 | Lines after the last `#` line become one trimmed line of their space-trimmed texts, each followed by a space; they become no line when the buffer is empty |
| Minifier.MinifyGroup | SubmitTool/Program.cs:399-407 | A `#` line is emitted right after the trimmed buffer of the lines since the previous `#` line, and the buffer starts empty again |
| Minifier.MinifyLineCount | SubmitTool/Program.cs:397-411 | The output has two lines per `#` line, plus one if a line follows the last `#` line (or if only the start buffer is non-empty) |
| Minifier.MinifiedLineCount | SubmitTool/Program.cs:394-411 | The same count for the minified text |
| Expander.KeptLines | SubmitTool/Program.cs:379-380 | A line is among the kept lines exactly when it is a library line that is non-empty and does not start with "using" |
| Expander.KeptLinesBase | SubmitTool/Program.cs:379-380 | An empty file keeps no line; a one-line file keeps its line exactly when the line is non-empty and does not start with "using" |
| Expander.KeptLinesAppend | SubmitTool/Program.cs:379-380 | The filter keeps file order and every occurrence: the kept lines of two consecutive parts of a file are the first part's followed by the second's |
| Expander.Visit | SubmitTool/Program.cs:365-381 | Visiting a module skips it when it is already in `added`, fails with its path when the file is missing, and otherwise adds it exactly once |
| Expander.Round | SubmitTool/Program.cs:363-382 | A round fails only on a missing file of a captured module. Otherwise every captured name ends up in `added`, `added` only grows, and a round that adds nothing changes nothing |
| Expander.VisitEffect | SubmitTool/Program.cs:365-381 | A new module appends its kept lines joined by "\n" plus "\n". Its `using` targets join `usingSet`, and those not yet in `usingSet` are queued in `newUsing` |
| Expander.RoundSane | SubmitTool/Program.cs:363-382 | After a round, `added` still has no duplicates and names only modules whose files exist |
| Expander.Grows | SubmitTool/Program.cs:361-389 | A round that adds a module shrinks the set of library files not yet read, so the loop ends on any library graph, cycles included |
| Expander.SourceOfClose | SubmitTool/Program.cs:386 | The end of a round puts the queued `using` lines and a "\n" in front of the text |
| Expander.ExpandFrom | SubmitTool/Program.cs:361-389 | The loop fails only on a missing file. On success, every library reference in the final text has been expanded and the solver text is kept |
| Expander.ExpandStep | SubmitTool/Program.cs:361-389 | A failed round fails the loop; a round that adds nothing breaks with the text as it is; otherwise the next round starts from the text with the `using` lines prepended |
| Expander.ExpandRound | SubmitTool/Program.cs:363-382 | The `foreach` over one round's captures computes `Round`, and `flag` tells whether a module was added |
| Expander.ExpandInner | SubmitTool/Program.cs:349-416 | The method returns `ExpandInnerSpec`: the expanded text, minified when asked, or the path of a missing library file |
| Expander.SkipAgrees | SubmitTool/Program.cs:418-433 | For a text that does not mention "Solve.Libraries", expanding without minifying returns it unchanged, so skipping expansion loses nothing |
| Expander.NoRefsUnchanged | SubmitTool/Program.cs:356-389 | A text with no library-reference line comes back unchanged when minify is off |
| Expander.VisitInv | SubmitTool/Program.cs:365-381 | Visiting a module keeps the invariant: the body is the concatenated bodies of `added`; queued targets have no duplicates and none of the solver's own; `usingSet` is the solver's targets plus the queued ones |
| Expander.RoundInv | SubmitTool/Program.cs:363-382 | A whole round keeps that invariant |
| Expander.CloseInv | SubmitTool/Program.cs:386-388 | Prepending the queued `using` lines and clearing `newUsing` keeps it |
| Expander.ExpandFromInv | SubmitTool/Program.cs:361-389 | The whole loop keeps it |
| Expander.ExpandResult | SubmitTool/Program.cs:356-389 | Result text: the prepended `using` blocks, then the solver text, then each expanded module's body once in expansion order. No module is expanded twice. No `using` target is prepended twice or duplicates one of the solver's own. The prepended targets are exactly the libraries' targets that the solver lacked |
| Expander.BodyLines | SubmitTool/Program.cs:379-380 | The lines of an appended body are its kept lines followed by an empty line |
| Expander.GluedFirstLine | SubmitTool/Program.cs:378-381 | The text gets no line feed before a body is appended, so the library's first kept line continues the text's last line |
| Expander.CommentSwallowsLibraryLine | SubmitTool/Program.cs:378-394 | When the solver's last line ends in a `//` comment, cutting comments removes the first kept library line too |
| Verifier.CompareOutput | SubmitTool/Program.cs:559-585 | The comparison loop looks at every position. `isOk` is true exactly when the token counts are equal and every pair matches: numerically when a token holds '.' and both parse, literally otherwise |
| Verifier.ExactWithoutDots | SubmitTool/Program.cs:566-581 | When no token holds '.', the output is accepted exactly when the token sequences are equal |
| Verifier.WhitespaceRunsIrrelevant | SubmitTool/Program.cs:559-560 | Replacing one run of white space with another never changes the comparison |
| Verifier.TrailingWhitespaceIrrelevant | SubmitTool/Program.cs:559-560 | Trailing white space never changes the comparison |
| Verifier.ExpectedIsAccepted | SubmitTool/Program.cs:559-585 | When the numeric check never rejects a token against itself, the expected output is accepted |
| Verifier.CountMismatchIsWrong | SubmitTool/Program.cs:564-594 | A normal exit with a different token count is WA |
| Verifier.Executed | SubmitTool/Program.cs:539-618 | The samples run are all of them, or those up to and including the first time-out |
| Verifier.RunSamples | SubmitTool/Program.cs:536-618 | The sample loop gives one verdict per executed sample and the status `Status` of those verdicts |
| Verifier.StatusZeroIffAllAccepted | SubmitTool/Program.cs:538-615 | The status is 0 exactly when every executed sample is AC |
| Verifier.TimeoutStopsTheLoop | SubmitTool/Program.cs:609-615 | A time-out at sample k means no sample after k runs, and the status is 2 |
| Verifier.AllRunWithoutTimeout | SubmitTool/Program.cs:536-618 | With no time-out every sample runs and the status is not 2 |
| Verifier.FirstDecisive | SubmitTool/Program.cs:638-653 | Finds the first Enter, N or Y key; every earlier key is ignored |
| Verifier.ConfirmGate | SubmitTool/Program.cs:628-653 | The key loop computes `Gate`: status 0 proceeds without reading a key; otherwise the first Enter or N cancels, the first Y proceeds, and other keys are read and ignored |
| Verifier.GateProceedsIff | SubmitTool/Program.cs:638-653 | The gate proceeds exactly when the status is 0 or the first Enter/N/Y key is Y |
| Tolerance.NegativeExpectedAcceptsAnything | SubmitTool/Program.cs:573-578 | As written, a negative expected value accepts every actual value |
| Tolerance.NegativeExpectedCounterexample | SubmitTool/Program.cs:573-578 | As written, expected -1.0 accepts 1000.0, although the two differ by far more than 1e-7 in absolute and relative terms |
| Tolerance.CloseIff | SubmitTool/Program.cs:573-578 | The corrected check accepts exactly when the difference is within 1e-7 times max(1, abs(expected)) |
| Tolerance.ToleranceExamples | SubmitTool/Program.cs:573-578 | Expected 1.0 accepts 1.00000009 and rejects 1.0002, both as written and corrected |
| Tolerance.CloseSignSymmetric | SubmitTool/Program.cs:573-578 | The corrected check does not depend on the sign: negating both numbers keeps the answer |
| Tolerance.CloseAgreesOnNonNegative | SubmitTool/Program.cs:573-578 | For expected values that are not negative, the corrected check is the one written |
| Tolerance.NumericJudgeAcceptsExpected | SubmitTool/Program.cs:559-585 | With the corrected numeric check, the expected output always passes |
| Pipeline.RunInner | SubmitTool/Program.cs:435-693 | A run gives `RunSpec`: a missing library, a build failure, the verdicts of a test run, the prompt's outcome, a missing CSRF token, or the posted form (forced or not) |
| Pipeline.SubmitsOnlyWhenAllowed | SubmitTool/Program.cs:536-672 | A submission is made only when the build passed and either it was forced, or submit was asked and every sample passed or the first deciding key was Y. The posted form holds the prepared source, the given task and language, and the page's CSRF token |
| Pipeline.AllPassedSubmits | SubmitTool/Program.cs:626-656 | When every sample passes and the submit page has a token, `submit` submits without reading a key |
| Pipeline.ForceIgnoresSamples | SubmitTool/Program.cs:536-672 | A forced run skips the samples and the prompt, so its outcome does not depend on them; with a token it posts the prepared source |
| Pipeline.RunNeverSubmits | SubmitTool/Program.cs:626 | Without submit and without force, nothing is submitted and the submit page is not read |
| Tasks.TaskKeys | SubmitTool/Program.cs:232-234 | The keys of entries 0..31 are pairwise distinct and already upper case; the key of entry 32 ('a' upper-cased) equals the key of entry 0 |
| Tasks.KeyChar | SubmitTool/Program.cs:233-234 | The key of entry i is the single character 'A'+i, or "A" for i = 32 |
| Tasks.TaskTable | SubmitTool/Program.cs:230-235 | The count branch produces min(count, 33) candidate entries, and none for a negative count |
| Tasks.Collect | SubmitTool/Program.cs:213-235 | Adding entries to a Dictionary either gives a map with exactly the entries' keys and values, or throws on a key that two entries share |
| Tasks.CollectFailsIffDuplicate | SubmitTool/Program.cs:223-235 | `Add` throws exactly when two entries share a key |
| Tasks.CountTableSucceeds | SubmitTool/Program.cs:230-235 | For counts up to 32 the table is built, and key i maps to `<contest with '-' as '_'>_<'a'+i>` |
| Tasks.CountTableFails | SubmitTool/Program.cs:230-235 | For any count above 32, `Add` throws on key "A" |
| Tasks.CollectPrefixFailure | SubmitTool/Program.cs:223-235 | Once `Add` has thrown, later entries do not matter |
| Tasks.ScrapeTable | SubmitTool/Program.cs:216-227 | The loop over the standings' matches builds `Collect` of the upper-cased entries and stops at the first repeated key |
| Tasks.CountTable | SubmitTool/Program.cs:228-236 | The counted loop builds `Collect` of the count entries and stops at the repeated key "A" |
| Tasks.LoadTable | SubmitTool/Program.cs:253-264 | Reading a file never reports a missing file; a format error names a line that does not split into two fields at tabs; on success every key is upper case |
| Tasks.LoadTableMeaning | SubmitTool/Program.cs:253-264 | For any file, reading succeeds exactly when every line splits into two fields and no two lines share an upper-cased first field. The map then holds exactly those keys, each mapped to its line's second field. A format error names the first line without two fields. A duplicate key is the key of the first line whose key an earlier line already had |
| Tasks.LoadPrefixFailure | SubmitTool/Program.cs:254-263 | After a failing line, the later lines are never read |
| Tasks.FileRoundTrip | SubmitTool/Program.cs:242-264 | Reading back the `key\tvalue` lines of a table gives the same map, when keys are upper case and nothing holds a tab |
| Tasks.GetKeysUpper | SubmitTool/Program.cs:223-235 | Every key `Get` adds is upper case |
| Tasks.GetEntriesFileSafe | SubmitTool/Program.cs:220-242 | The tables `Get` writes satisfy the round trip's conditions when the contest name and the scraped words have no tab |
| Tasks.GetThenLoad | SubmitTool/Program.cs:242-267 | What `Get` writes, `Load` reads back as the same table |
| Tasks.ResolveTask | SubmitTool/Program.cs:695-715 | Without a contest: fails when none is loaded or the upper-cased task is missing, and otherwise uses the loaded contest and the table's screen name. With a contest, the contest is used as given |
| Tasks.LookupIgnoresCase | SubmitTool/Program.cs:697-707 | Without a contest, the task name's case does not matter, and an upper-case key is found by its lower-case name |
| Tasks.ResolveAgrees | SubmitTool/Program.cs:697-711 | After `get c n`, naming a lettered task by letter (either case) gives the same screen name as naming contest c explicitly |
| Tasks.LanguageIdOf | SubmitTool/Program.cs:726-733 | A known alias maps to one of the four language ids |
| Tasks.AliasRoundTrip | SubmitTool/Program.cs:726-733 | Each language id has exactly one alias, and the switch maps it back |
| Sessions.Session.constructor | SubmitTool/Program.cs:127-133 | A new program has no contest, an empty table and language 4010 |
| Sessions.Session.Get | SubmitTool/Program.cs:195-243 | Status 404 or another non-OK status changes nothing. Otherwise a repeated key stops it with nothing changed, or the table `Collect` builds becomes the contest's table and is written to its file |
| Sessions.Session.Load | SubmitTool/Program.cs:245-268 | A missing file or a malformed or repeated line changes nothing. Otherwise the contest and the file's table become current |
| Sessions.Session.Change | SubmitTool/Program.cs:724-742 | A known alias sets its language id; any other word changes nothing |
| Sessions.Session.Run | SubmitTool/Program.cs:695-715 | In a valid session, the task is resolved as `ResolveTask` says, and the run uses the resolved contest and screen name and the current language |
| Sessions.EveryKeyReachable | SubmitTool/Program.cs:697-707 | In a session satisfying `Valid()` with a contest loaded, every key of the table is found by `Run`'s lookup, typed in upper or lower case |
| Cli.Words | SubmitTool/Program.cs:27 | A command line's words are the non-empty pieces between spaces |
| Cli.WordsRoundTrip | SubmitTool/Program.cs:27 | Words joined by single spaces split back into the same words |
| Cli.ParseInt32 | SubmitTool/Program.cs:46 | A parsed count is a 32-bit integer |
| Cli.ParseShow | SubmitTool/Program.cs:46 | Every 32-bit integer parses back from its decimal form |
| Cli.ParseWith | SubmitTool/Program.cs:24-123 | The command switch; a `get` count is -1, 0 or within the accepted bound |
| Cli.GetCountMeaning | SubmitTool/Program.cs:40-55 | `get`: no third word scrapes the table (count -1); an unparsable third word counts as 0; a parsed count outside 0..bound is refused |
| Cli.SubmitIgnoresOptionOrder | SubmitTool/Program.cs:77-91 | `submit` depends only on its positional words and its set of options, not on their order or repetition |
| Cli.SubmitFlags | SubmitTool/Program.cs:77-94 | `submit` submits; `--force` or `-F` anywhere forces it; `--minimize` anywhere minimizes |
| Cli.RunDefaults | SubmitTool/Program.cs:96-106 | `run` never submits or forces, always minimizes, and takes the contest only from a third word |
| Cli.CountLimitAsWritten | SubmitTool/Program.cs:40-55 | As written, `get c 33` is accepted and reaches a table build that throws on key "A" |
| Cli.CountLimitCorrected | SubmitTool/Program.cs:40-55 | With the count bound at 26, every count `get` accepts builds a table whose keys are the letters A to Z |

## Left out

- HTTP and login: `HttpGet`, `HttpPost`, `HttpGetString`, `Login`, `Initialize`, the cookie handling and `ParseSession` are network glue. The model takes the contest page's status, the standings' matches and the submit page's CSRF token as inputs. A submission ends the model at the posted form; the response and its "Detail" link are not modelled.
- HTML scraping: the sample regex, the standings regex and the CSRF-token regex (`ExtractCsrfToken`) are left out. Samples and standings matches are given as ordered sequences.
- Processes and time: `dotnet new`, `dotnet publish`, running the solver, and the 3000 ms wait are left out. The build's exit code and each sample's outcome are inputs.
- Floating point: doubles are modelled as exact reals. NaN and the infinities are not modelled, nor the `float` cast of `maxError`, which is only printed. `double.TryParse` and its culture are a function parameter.
- File-system effects: creating and deleting `config` and `tmp`, `File.Copy` in `Expand`, writing `Result.cs` and `tmp/Program.cs`, and `Destroy`/`Logout` are left out. The contest files are the field `contestFiles`, and library files are a map from path to lines.
- The loop around the command switch, console output and colours, `exit` and `logout` are presentation and process control. `Cli.ParseWith` gives the command, and the `Sessions.Session` methods give its effect.
- Text is ASCII: `ToUpper`, `ToLower`, `\w`, `\s` and `char.IsWhiteSpace` are modelled on ASCII characters only. Line ends are "\n", and a "\r" stays part of its line.
- Collection order: `HashSet` and `Dictionary` enumeration is taken to be insertion order. The code only adds to them, so this matches .NET's behaviour in practice, although .NET does not promise it.
- Tasks.TaskTable: stops at 33 candidate entries. The 33rd entry always throws, so later entries are never built.
- Exceptions end the C# program; the model returns them as failures of the command that raised them.

## Findings

| source | as written | input that shows it | evidently intended | confidence | as-written member | corrected member |
|---|---|---|---|---|---|---|
| SubmitTool/Program.cs:573-578 | The error is min(abs(re-ex), abs(re-ex)/ex); it is negative whenever the expected value is negative, so the pair always passes | expected "-1.0", actual "1000.0": accepted | a relative error divided by abs(ex), so a negative expected value is checked like a positive one | not executed; high | Tolerance.NegativeExpectedCounterexample | Tolerance.CloseIff |
| SubmitTool/Program.cs:46-52 | `get` accepts task counts 0..100, and the count loop (230-235) keys task i by 'A'+i upper-cased. From the 33rd task on, the key 'a' upper-cases to "A" again, so `Dictionary.Add` throws and the program ends | `get abc 33` | counts that give distinct letter keys, at most 26 | not executed; medium | Cli.CountLimitAsWritten | Cli.CountLimitCorrected |
