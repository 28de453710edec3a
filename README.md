# MyBatis token parser and SQL script runner in Dafny

This project models two parts of MyBatis 3.

**`GenericTokenParser.parse`.** It replaces every `open expression close` span of a text by what a token handler returns for the expression.
- A backslash just before an open token escapes that token. The backslash is dropped and the token is kept as literal text.
- A backslash just before a close token makes that close token part of the expression, again without the backslash.
- An open token that no close token follows is copied unchanged, together with the rest of the text.

**`ScriptRunner`.** It runs a SQL script over a JDBC connection.
- *Line by line*, it reads the script:
  - Comment lines (`//` or `--`) may redefine the delimiter with `@DELIMITER`.
  - A ready line executes the buffered command, together with the line up to its last delimiter. Outside full-line mode a line is ready when it contains the delimiter. In full-line mode it is ready only when the trimmed line is the delimiter itself, so `x; y` is not.
  - Any other non-blank line is buffered.
  - After the last line it commits, and then it checks that no unterminated command is left over. So a run that raises the missing-terminator error has already committed.
- *Whole script*, it sends the script as one statement, then commits unless the statement raised. It makes no check for a left-over command.
- Either mode commits only when the connection is not in auto-commit mode.
- Around either mode it:
  - negotiates the connection's auto-commit mode;
  - attempts a rollback in the `finally` of the run, unless setting the auto-commit mode already raised. A failure of that rollback is ignored.

## Modules

- `Wrappers`: the `Option` type.
- `Strings`: the `java.lang.String` operations the two classes rely on, over `seq<char>`. They are `indexOf`, `contains`, `lastIndexOf`, `trim`, `replaceFirst("//", "")`, `toUpperCase` and `replaceAll("\r\n", "\n")`, each with its defining properties.
- `TokenParser`: the parser.
  - The specification is `Scan`. It walks from one open token to the next and yields the output text and the handler's arguments, or `None` where `parse` throws.
  - `Parse` is the parser's two nested loops, proved to return what `Scan` yields.
- `TokenParserProperties`: lemmas about the parser:
  - it never throws when neither token ends in a backslash;
  - the handler's answers do not change which expressions reach it;
  - handing each expression back between its tokens reproduces a text without backslashes.
- `TokenParserExamples`: single inputs that pin down each branch.
- `ScriptSpec`: every runner operation as a function of the runner's flags (`Settings`), the database's answers (`Database`) and the session so far (`Session`). A session holds the delimiter, the connection's auto-commit mode, the calls made on the connection, and the commands whose failure was logged.
- `Scripts`: the runner.
  - `Connection` is a class that records its calls.
  - `ScriptRunner` is a class with the source's fields, except `escapeProcessing`, `logWriter` and `errorLogWriter`. Each method ensures that its new state and its exception equal the matching `ScriptSpec` function applied to the old state.
- `ScriptProperties`: lemmas about those functions:
  - what each kind of line does;
  - when a statement raises;
  - the lines only execute statements;
  - one commit per run;
  - the run ends with the rollback;
  - under `stopOnError` nothing runs after a failed statement.

An exception is modelled as a value. `parse` yields `None`, and the runner's methods return `Some(error)` with a `ScriptError` that says which call raised.

Some behaviours of the code are worth stating outright; the model has each of them:
- **The executed text keeps a trailing line separator.** A statement's text ends with the line separator appended after the buffered line. For example, `SELECT 1;` is sent as `"SELECT 1\n"`, not as `"SELECT 1"`.
- **A failed auto-commit change is not rolled back.** `runScript` sets the auto-commit mode before its `try`. When that call fails, the run raises without any rollback (`AutoCommitFailureSkipsScript`).
- **A short `@DELIMITER` directive raises.** The new delimiter is `cleaned.substring(11, 12)`, so a directive shorter than twelve characters makes `handleLine` raise (`ShortDelimiterDirectiveRaises`). A directive of twelve characters or more sets the delimiter to that single character, whatever follows it.
- **`parse` can throw.** When an open token sits directly at the point where the previous token ended, and the character before it is a backslash, `parse` throws. That backslash belongs to the previous token, so this needs a token that ends in a backslash (`ThrowsExample`). Such a token is escaped by `src[start - 1]` but appended with length `-1`.

## Model

| member | source | states |
|---|---|---|
| Strings.IndexOf | src/main/java/org/apache/ibatis/parsing/GenericTokenParser.java:40 | `indexOf(pat, from)` is -1 or an index at or after `from` where the pattern fits in the text |
| Strings.IndexOfFirst | src/main/java/org/apache/ibatis/parsing/GenericTokenParser.java:51 | the index found is an occurrence and no occurrence lies between `from` and it; -1 means there is none at or after `from` |
| Strings.Contains | src/main/java/org/apache/ibatis/jdbc/ScriptRunner.java:266 | `contains` holds exactly when the pattern occurs at some index |
| Strings.LastIndexOf | src/main/java/org/apache/ibatis/jdbc/ScriptRunner.java:236 | `lastIndexOf` is -1 or an occurrence of the pattern |
| Strings.LastIndexOfLast | src/main/java/org/apache/ibatis/jdbc/ScriptRunner.java:236 | no occurrence lies after the index `lastIndexOf` returns |
| Strings.RemoveFirst | src/main/java/org/apache/ibatis/jdbc/ScriptRunner.java:227-228 | `replaceFirst("//", "")` leaves a text without `//` unchanged; otherwise it cuts out exactly the first occurrence, and reinserting it there gives back the text |
| Strings.Substring | src/main/java/org/apache/ibatis/parsing/GenericTokenParser.java:49 | `append(src, a, b - a)` appends exactly `b - a` characters |
| Strings.Trim | src/main/java/org/apache/ibatis/jdbc/ScriptRunner.java:225 | `trim()` is the contiguous part of the text that starts after its leading white space |
| Strings.TrimCutsSpace | src/main/java/org/apache/ibatis/jdbc/ScriptRunner.java:225 | everything `trim()` cuts off at either end is a character up to U+0020, and what it keeps neither starts nor ends with one |
| Strings.TrimEmptyIff | src/main/java/org/apache/ibatis/jdbc/ScriptRunner.java:207 | a text trims to the empty string exactly when every character is white space |
| Strings.TrimOccurrence | src/main/java/org/apache/ibatis/jdbc/ScriptRunner.java:234-236 | a delimiter found in the trimmed line occurs in the raw line too, so `lastIndexOf` on the raw line finds one at or after it |
| Strings.UpperChar | src/main/java/org/apache/ibatis/jdbc/ScriptRunner.java:229 | a lower-case ASCII letter becomes its capital; every other character is unchanged |
| Strings.ToUpper | src/main/java/org/apache/ibatis/jdbc/ScriptRunner.java:229 | `toUpperCase()` keeps the length and upper-cases character by character |
| Strings.NormalizeLineEnds | src/main/java/org/apache/ibatis/jdbc/ScriptRunner.java:282 | `replaceAll("\r\n", "\n")` never lengthens the text |
| Strings.NormalizeLineEndsLoneCR | src/main/java/org/apache/ibatis/jdbc/ScriptRunner.java:282 | a carriage return that no line feed follows is kept, the text before it is kept, and the text after it is rewritten likewise |
| Strings.NormalizeLineEndsDropsOnlyCR | src/main/java/org/apache/ibatis/jdbc/ScriptRunner.java:282 | the rewrite only removes carriage returns: with every CR dropped, input and output are equal |
| Strings.NormalizeLineEndsWithoutCR | src/main/java/org/apache/ibatis/jdbc/ScriptRunner.java:282 | a text without carriage returns is left unchanged |
| Strings.NormalizeLineEndsPair | src/main/java/org/apache/ibatis/jdbc/ScriptRunner.java:282 | the first CR LF pair of a text becomes a single LF, the text before it is kept, and the text after it is rewritten likewise |
| TokenParser.CloseStepAt | src/main/java/org/apache/ibatis/parsing/GenericTokenParser.java:51-62 | one step of the inner loop moves past the close token it finds, staying within the text |
| TokenParser.ScanClose | src/main/java/org/apache/ibatis/parsing/GenericTokenParser.java:51-63 | a closed expression is followed by a close token that ends within the text |
| TokenParser.OpenStepAt | src/main/java/org/apache/ibatis/parsing/GenericTokenParser.java:40-73 | every step of the outer loop that continues moves the offset strictly forward, within the text |
| TokenParser.Scan | src/main/java/org/apache/ibatis/parsing/GenericTokenParser.java:33-80 | the outer loop from an offset as a recursive definition: the output text and the handler's arguments, or `None` where `parse` throws. `TokenParser.Parse` is proved equal to it; `ScanThrowsOnlyOnBackslash`, `ScanNeverThrows`, `ScanCallsIgnoreHandler` and `ScanReassembles` state its properties |
| TokenParser.Parsed | src/main/java/org/apache/ibatis/parsing/GenericTokenParser.java:33-80 | the text `parse` returns, or `None` where it throws; `ParseThrowsOnlyOnBackslash` and `ParseNeverThrows` state when it throws |
| TokenParser.HandlerCalls | src/main/java/org/apache/ibatis/parsing/GenericTokenParser.java:69 | the handler's arguments, in order; `ParseThrowsOnlyOnBackslash` bounds their number and `HandlerCallsIgnoreHandler` shows they do not depend on the handler |
| TokenParser.InnerEscapedStep | src/main/java/org/apache/ibatis/parsing/GenericTokenParser.java:53-57 | appending the text before an escaped close token, without its backslash, and the close token keeps the inner loop's invariant |
| TokenParser.InnerFoundStep | src/main/java/org/apache/ibatis/parsing/GenericTokenParser.java:58-62 | an unescaped close token completes the expression, and the scan resumes after it |
| TokenParser.InnerMissingStep | src/main/java/org/apache/ibatis/parsing/GenericTokenParser.java:52-64 | when no further close token exists, the token is unclosed |
| TokenParser.OuterThrowsStep | src/main/java/org/apache/ibatis/parsing/GenericTokenParser.java:42-44 | an open token at the offset with a backslash before it makes the whole parse throw |
| TokenParser.OuterEscapedStep | src/main/java/org/apache/ibatis/parsing/GenericTokenParser.java:42-45 | an escaped open token is appended without its backslash, keeping the outer loop's invariant |
| TokenParser.OuterUnclosedStep | src/main/java/org/apache/ibatis/parsing/GenericTokenParser.java:64-67 | an unclosed token copies the literal text and the rest of the text from the open token, and ends the scan |
| TokenParser.OuterTokenStep | src/main/java/org/apache/ibatis/parsing/GenericTokenParser.java:47-71 | a closed token appends the literal text before it and the handler's answer, records the expression as a handler call, and keeps the invariant |
| TokenParser.OuterMissingStep | src/main/java/org/apache/ibatis/parsing/GenericTokenParser.java:73-77 | without a further open token, the rest of the text is appended and the output is complete |
| TokenParser.ScanExpression | src/main/java/org/apache/ibatis/parsing/GenericTokenParser.java:51-63 | the inner loop returns exactly the expression `ScanClose` defines and the index after its close token, or -1 exactly when `ScanClose` finds the token unclosed |
| TokenParser.ReplaceToken | src/main/java/org/apache/ibatis/parsing/GenericTokenParser.java:46-71 | handling an unescaped open token moves the offset forward and keeps the outer invariant |
| TokenParser.Parse | src/main/java/org/apache/ibatis/parsing/GenericTokenParser.java:33-80 | `parse` returns what the specification `Scan` yields; it throws exactly where `Scan` yields `None`; and the handler is called with exactly `Scan`'s expressions, in order |
| TokenParserProperties.ParseEmpty | src/main/java/org/apache/ibatis/parsing/GenericTokenParser.java:36 | an empty text parses to the empty string without calling the handler |
| TokenParserProperties.ParseWithoutOpenToken | src/main/java/org/apache/ibatis/parsing/GenericTokenParser.java:40-77 | a text without the open token is returned unchanged, and the handler is not called |
| TokenParserProperties.ScanCloseEndsAtCloseToken | src/main/java/org/apache/ibatis/parsing/GenericTokenParser.java:51-62 | an expression ends exactly at an occurrence of the close token |
| TokenParserProperties.ScanNeverThrows | src/main/java/org/apache/ibatis/parsing/GenericTokenParser.java:42-45 | from an offset not preceded by a backslash, with tokens that do not end in a backslash, the scan never throws |
| TokenParserProperties.ParseNeverThrows | src/main/java/org/apache/ibatis/parsing/GenericTokenParser.java:42-45 | `parse` never throws when neither token ends in a backslash |
| TokenParserProperties.ScanThrowsOnlyOnBackslash | src/main/java/org/apache/ibatis/parsing/GenericTokenParser.java:42-45 | from any offset, the scan throws only on a text that holds a backslash, and it hands at most one expression to the handler per character still to scan |
| TokenParserProperties.ParseThrowsOnlyOnBackslash | src/main/java/org/apache/ibatis/parsing/GenericTokenParser.java:33-80 | `parse` throws only on a text that holds a backslash; its handler calls exist exactly when it returns, and there are no more of them than characters in the text |
| TokenParserProperties.ScanCallsIgnoreHandler | src/main/java/org/apache/ibatis/parsing/GenericTokenParser.java:69 | from any offset, whether the scan throws and which expressions it hands over do not depend on the handler |
| TokenParserProperties.HandlerCallsIgnoreHandler | src/main/java/org/apache/ibatis/parsing/GenericTokenParser.java:69 | the handler calls of a parse, and whether it throws, do not depend on what the handler answers |
| TokenParserProperties.ScanCloseWithoutBackslash | src/main/java/org/apache/ibatis/parsing/GenericTokenParser.java:51-62 | in a text without backslashes, the expression runs up to the first close token |
| TokenParserProperties.OpenStepWithoutBackslash | src/main/java/org/apache/ibatis/parsing/GenericTokenParser.java:40-71 | in a text without backslashes, a step finds no open token, finds an unclosed one, or replaces the span from the first open token to the first close token after it |
| TokenParserProperties.ScanReassembles | src/main/java/org/apache/ibatis/parsing/GenericTokenParser.java:33-80 | in a text without backslashes, with a handler that puts the tokens back around the expression, the scan from any offset reproduces the rest of the text |
| TokenParserProperties.ParseReassembles | src/main/java/org/apache/ibatis/parsing/GenericTokenParser.java:33-80 | `parse` with the handler `e => open + e + close` is the identity on texts without backslashes |
| TokenParserExamples.EscapedOpenTokenExample | src/main/java/org/apache/ibatis/parsing/GenericTokenParser.java:42-45 | `\${x}` parses to `${x}` without calling the handler |
| TokenParserExamples.EscapedCloseTokenExample | src/main/java/org/apache/ibatis/parsing/GenericTokenParser.java:53-57 | `a${b\}c}d` hands `b}c` to the handler and gives `a`, its answer and `d` |
| TokenParserExamples.UnclosedTokenExample | src/main/java/org/apache/ibatis/parsing/GenericTokenParser.java:64-67 | `a${b\}c` is returned unchanged, backslash included, without calling the handler |
| TokenParserExamples.TwoTokensExample | src/main/java/org/apache/ibatis/parsing/GenericTokenParser.java:68-73 | `${x}${y}` gives the two answers in order and calls the handler with `x`, then `y` |
| TokenParserExamples.ThrowsExample | src/main/java/org/apache/ibatis/parsing/GenericTokenParser.java:42-44 | with tokens `<` and `>\`, the text `<a>\<b>\` makes `parse` throw |
| ScriptSpec.StartsWithIff | src/main/java/org/apache/ibatis/jdbc/ScriptRunner.java:255 | `startsWith(prefix)` holds exactly when the prefix fits in the text and occurs at index 0 |
| ScriptSpec.DelimiterDirectiveIff | src/main/java/org/apache/ibatis/jdbc/ScriptRunner.java:229 | the cleaned comment is a directive exactly when it has at least ten characters and the first ten, upper-cased, spell `@DELIMITER` |
| ScriptSpec.LineIsComment | src/main/java/org/apache/ibatis/jdbc/ScriptRunner.java:254-256 | a trimmed line is a comment exactly when it starts with two equal characters that are both `/` or both `-` |
| ScriptSpec.CommandReadyToExecute | src/main/java/org/apache/ibatis/jdbc/ScriptRunner.java:264-267 | a ready line always holds an occurrence of the delimiter; outside full-line mode, a line is ready exactly when it holds one; in full-line mode, exactly when it is the delimiter |
| ScriptSpec.CleanComment | src/main/java/org/apache/ibatis/jdbc/ScriptRunner.java:227-228 | the cleaned comment is at least two characters shorter than the trimmed line |
| ScriptSpec.ReadyLineHasDelimiter | src/main/java/org/apache/ibatis/jdbc/ScriptRunner.java:234-236 | a line that `commandReadyToExecute` accepts contains the delimiter, so `line.substring(0, line.lastIndexOf(delimiter))` is in range |
| ScriptSpec.HandleLinesStep | src/main/java/org/apache/ibatis/jdbc/ScriptRunner.java:145-146 | while no line has raised, the next line continues from the session and buffer the earlier lines left |
| ScriptSpec.HandleLinesStopped | src/main/java/org/apache/ibatis/jdbc/ScriptRunner.java:142-150 | once a line raises, later lines change nothing: the loop's outcome is that line's |
| ScriptSpec.StatementSql | src/main/java/org/apache/ibatis/jdbc/ScriptRunner.java:280-283 | the SQL sent is never longer than the command, and is the command itself without `removeCRs` |
| ScriptSpec.ExecuteStatementSpec | src/main/java/org/apache/ibatis/jdbc/ScriptRunner.java:276-307 | executes exactly the SQL sent, once; keeps the delimiter and the mode; raises only under `stopOnError`; logs at most the command |
| ScriptSpec.HandleLineSpec | src/main/java/org/apache/ibatis/jdbc/ScriptRunner.java:223-246 | one line keeps the connection's mode and makes at most one call |
| ScriptSpec.HandleLinesSpec | src/main/java/org/apache/ibatis/jdbc/ScriptRunner.java:145-147 | the lines keep the connection's mode and make at most one call each |
| ScriptSpec.CommitSpec | src/main/java/org/apache/ibatis/jdbc/ScriptRunner.java:182-191 | commits exactly when the connection does not auto-commit, raises exactly when that commit fails, and changes nothing else |
| ScriptSpec.RollbackSpec | src/main/java/org/apache/ibatis/jdbc/ScriptRunner.java:196-204 | rolls back exactly when the connection does not auto-commit and changes nothing else; it never raises |
| ScriptSpec.SetAutoCommitSpec | src/main/java/org/apache/ibatis/jdbc/ScriptRunner.java:168-177 | calls the connection exactly when the modes differ, and raises exactly when the connection does not end in the runner's mode |
| ScriptSpec.MissingTerminatorSpec | src/main/java/org/apache/ibatis/jdbc/ScriptRunner.java:206-212 | raises, naming the command, exactly when the command holds a character that is not white space |
| ScriptSpec.LineByLineSpec | src/main/java/org/apache/ibatis/jdbc/ScriptRunner.java:140-155 | a line-by-line run keeps the connection's mode |
| ScriptSpec.Joined | src/main/java/org/apache/ibatis/jdbc/ScriptRunner.java:116-124 | the whole script has at least one character, its separator, per line |
| ScriptSpec.FullScriptSpec | src/main/java/org/apache/ibatis/jdbc/ScriptRunner.java:115-133 | a whole-script run keeps the connection's mode and makes one or two calls: the statement, then possibly the commit |
| ScriptSpec.RunScriptSpec | src/main/java/org/apache/ibatis/jdbc/ScriptRunner.java:101-113 | after a run the connection is in its old mode or the runner's; when it is not in the runner's mode, the run raised because the mode could not be set |
| Scripts.Connection.Execute | src/main/java/org/apache/ibatis/jdbc/ScriptRunner.java:285-287 | records one execution of exactly the given SQL and reports the database's failure and warning for it |
| Scripts.Connection.SetAutoCommit | src/main/java/org/apache/ibatis/jdbc/ScriptRunner.java:171 | records the call; the mode changes only when the call succeeds |
| Scripts.Connection.Commit | src/main/java/org/apache/ibatis/jdbc/ScriptRunner.java:185 | records one commit and reports whether it failed |
| Scripts.Connection.Rollback | src/main/java/org/apache/ibatis/jdbc/ScriptRunner.java:199 | records one rollback and reports whether it failed |
| Scripts.ScriptRunner.constructor | src/main/java/org/apache/ibatis/jdbc/ScriptRunner.java:41-56 | a new runner has every flag off, the delimiter `;`, an empty error log and the given connection |
| Scripts.ScriptRunner.ExecuteStatement | src/main/java/org/apache/ibatis/jdbc/ScriptRunner.java:276-307 | sends the command once, with CR LF pairs rewritten under `removeCRs`. Under `stopOnError`, a failure raises, and so does a warning when `throwWarning` is set. Otherwise a failure is logged. The flags are unchanged |
| Scripts.ScriptRunner.HandleLine | src/main/java/org/apache/ibatis/jdbc/ScriptRunner.java:223-246 | the new delimiter, connection calls, log and buffer are those of `HandleLineSpec` for the old state and the line |
| Scripts.ScriptRunner.CommitConnection | src/main/java/org/apache/ibatis/jdbc/ScriptRunner.java:182-191 | commits only when the connection does not auto-commit, and raises when the commit fails |
| Scripts.ScriptRunner.RollbackConnection | src/main/java/org/apache/ibatis/jdbc/ScriptRunner.java:196-204 | rolls back only when the connection does not auto-commit, and never raises |
| Scripts.ScriptRunner.SetAutoCommit | src/main/java/org/apache/ibatis/jdbc/ScriptRunner.java:168-177 | calls `setAutoCommit` only when the modes differ; the connection takes the runner's mode unless the call fails, which raises |
| Scripts.ScriptRunner.CheckForMissingLineTerminator | src/main/java/org/apache/ibatis/jdbc/ScriptRunner.java:206-212 | raises, with the command, exactly when the command holds a character that is not white space |
| Scripts.ScriptRunner.HandleLines | src/main/java/org/apache/ibatis/jdbc/ScriptRunner.java:145-147 | the loop over the lines ends in the state and buffer of `HandleLinesSpec`, stopping at the first line that raises |
| Scripts.ScriptRunner.ExecuteLineByLine | src/main/java/org/apache/ibatis/jdbc/ScriptRunner.java:140-155 | handles the lines, then commits, then checks the buffer left over, stopping at the first exception, as `LineByLineSpec` says |
| Scripts.ScriptRunner.ExecuteFullScript | src/main/java/org/apache/ibatis/jdbc/ScriptRunner.java:115-133 | builds the script from every line, each followed by a separator. It sends the script as one statement and then commits, as `FullScriptSpec` says |
| Scripts.ScriptRunner.RunScript | src/main/java/org/apache/ibatis/jdbc/ScriptRunner.java:101-113 | negotiates the auto-commit mode and runs the script in the configured mode. The rollback follows every exit except a failed negotiation, as `RunScriptSpec` says |
| ScriptProperties.CommentLineIsNotExecuted | src/main/java/org/apache/ibatis/jdbc/ScriptRunner.java:226-233 | a comment line makes no connection call and leaves the buffer, the log and the mode unchanged |
| ScriptProperties.DelimiterDirectiveSetsDelimiter | src/main/java/org/apache/ibatis/jdbc/ScriptRunner.java:229-231 | a `@DELIMITER` comment, in any letter case, makes the cleaned comment's character at index 11 the delimiter and changes nothing else |
| ScriptProperties.ShortDelimiterDirectiveRaises | src/main/java/org/apache/ibatis/jdbc/ScriptRunner.java:229-230 | a directive shorter than twelve characters raises and changes nothing |
| ScriptProperties.ReadyLineExecutesBuffer | src/main/java/org/apache/ibatis/jdbc/ScriptRunner.java:234-240 | a ready line executes exactly one statement: the buffer, the line up to its last delimiter, then a separator. The buffer is empty afterwards unless the statement raised |
| ScriptProperties.OtherLineIsBuffered | src/main/java/org/apache/ibatis/jdbc/ScriptRunner.java:241-244 | a non-blank line that is neither a comment nor ready is appended to the buffer with a separator, and nothing else changes |
| ScriptProperties.BlankLineChangesNothing | src/main/java/org/apache/ibatis/jdbc/ScriptRunner.java:225-245 | with a non-empty delimiter, a blank line changes nothing |
| ScriptProperties.StatementSqlDropsOnlyCRs | src/main/java/org/apache/ibatis/jdbc/ScriptRunner.java:280-283 | the SQL sent differs from the command only in dropped carriage returns, and equals it when there are none |
| ScriptProperties.FailureIsLoggedWithoutStopOnError | src/main/java/org/apache/ibatis/jdbc/ScriptRunner.java:292-300 | without `stopOnError` a failing statement does not raise, and its command is logged |
| ScriptProperties.StatementRaisesOnlyWhenStopping | src/main/java/org/apache/ibatis/jdbc/ScriptRunner.java:284-300 | a statement raises exactly when `stopOnError` is set and it fails, or it warns with `throwWarning` set; the error names the SQL sent, which is executed exactly once |
| ScriptProperties.HandleLineOnlyExecutes | src/main/java/org/apache/ibatis/jdbc/ScriptRunner.java:223-246 | a line only ever executes statements and keeps the connection's mode; a statement that raises is the one just sent, under `stopOnError` |
| ScriptProperties.HandleLinesOnlyExecutes | src/main/java/org/apache/ibatis/jdbc/ScriptRunner.java:145-147 | the loop over the lines only executes statements and keeps the mode; a statement raises only under `stopOnError`, as the last call made |
| ScriptProperties.HandleLinesNeverCommits | src/main/java/org/apache/ibatis/jdbc/ScriptRunner.java:145-147 | the loop over the lines issues no commit |
| ScriptProperties.LineByLineCommitsOnce | src/main/java/org/apache/ibatis/jdbc/ScriptRunner.java:140-149 | line by line, a run commits at most once; it commits exactly once, after all the statements, when the lines raised nothing and the connection does not auto-commit; it never commits when the connection auto-commits |
| ScriptProperties.MissingTerminatorComesLast | src/main/java/org/apache/ibatis/jdbc/ScriptRunner.java:145-149 | a missing terminator is reported only after every line ran and the commit succeeded, about the non-blank buffer left over |
| ScriptProperties.MissingTerminatorIff | src/main/java/org/apache/ibatis/jdbc/ScriptRunner.java:148-149 | when the lines and the commit succeed, the run raises exactly when the buffer left over is not blank |
| ScriptProperties.JoinedAppend | src/main/java/org/apache/ibatis/jdbc/ScriptRunner.java:120-123 | the whole script keeps every line, comments included, each followed by a separator, in order |
| ScriptProperties.FullScriptExecutesOnce | src/main/java/org/apache/ibatis/jdbc/ScriptRunner.java:115-127 | the whole script is sent as exactly one statement, followed by at most one commit: exactly one when it succeeded and the connection does not auto-commit, none when the connection auto-commits |
| ScriptProperties.RunScriptBody | src/main/java/org/apache/ibatis/jdbc/ScriptRunner.java:101-113 | once the mode is negotiated, the connection keeps the runner's mode; either mode adds at most one commit, none under auto-commit, and the run is that mode followed by the rollback |
| ScriptProperties.RunScriptEndsWithRollback | src/main/java/org/apache/ibatis/jdbc/ScriptRunner.java:101-113 | unless the mode could not be set, a run without auto-commit ends with a rollback, no run commits more than once, and a run with auto-commit neither commits nor rolls back |
| ScriptProperties.AutoCommitRunNeverRollsBack | src/main/java/org/apache/ibatis/jdbc/ScriptRunner.java:196-199 | with auto-commit on, no call the run makes after the mode change is a rollback |
| ScriptProperties.AutoCommitFailureSkipsScript | src/main/java/org/apache/ibatis/jdbc/ScriptRunner.java:101-104 | when setting the mode fails, the run raises after that one call: nothing is executed and nothing is rolled back |
| ScriptProperties.StopOnErrorStopsAtFailure | src/main/java/org/apache/ibatis/jdbc/ScriptRunner.java:101-113 | a statement raises out of a run only under `stopOnError`. No statement runs after it: it is the last call, or the last before the rollback |

## Left out

- `null` texts, tokens, lines and delimiters are not modelled. The model's strings always exist.
- An empty open token is excluded by a precondition. With one, `parse` does not terminate in general: the search from the same offset keeps finding the empty token.
- The token handler is a function from expression to text. Concrete `TokenHandler` implementations, and any side effects they have, are not modelled.
- The `Reader` and `BufferedReader` are not modelled: the script is a sequence of lines, as `readLine` splits it. The line separator is the constant `"\n"`, the default of the `line.separator` property.
- The database is not modelled. Its answers depend only on the SQL text: which statements fail, which leave a warning, and whether changing the auto-commit mode, committing or rolling back fail.
  - Failures of `getAutoCommit`, `createStatement`, `setEscapeProcessing` and `Statement.close` are not modelled.
  - The `escapeProcessing` flag is not modelled, since nothing in the model depends on it.
- `printResults`, `print`, `println`, `printlnError` and the log writers are output only and are not modelled. A failed statement that does not raise is recorded as its command in `errorLog`, instead of as a printed message.
- The exception messages and the wrapping in `RuntimeSqlException` are not modelled. Errors are the `ScriptError` datatype, naming the call that raised.
- `closeConnection` is not modelled. It only closes the connection and ignores any failure.
- The setters are not modelled. They are plain field assignments, made directly on the class's fields here.
- Strings are sequences of Unicode scalar values, not of UTF-16 code units as in Java. Index arithmetic therefore differs for characters outside the Basic Multilingual Plane. For example, for the line `//@DELIMITER😀`, `substring(11, 12)` returns a lone surrogate in Java, while the model counts eleven characters and reports the directive as too short.
- `Jdbc3KeyGenerator`, `BoundSql` and `ResultSetType` are not part of this model.
- Strings.ToUpper: only the ASCII letters `a` to `z` are upper-cased. Java's locale- and Unicode-aware mapping is not modelled, including `ı` becoming `I` and `ß` becoming `SS`.
- Strings.RemoveFirst: models `replaceFirst` only for a pattern without regular-expression metacharacters, which covers the `//` the runner uses.
