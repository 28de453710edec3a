/**
 * What `ScriptRunner` does with a script, as functions of its settings, of
 * what the database answers and of the session so far. The JDBC connection
 * is an event trace (`Event`) and a set of answers (`Database`); the runner's
 * class in `Scripts` is proved to follow these functions step by step.
 */
module ScriptSpec {
  import opened Wrappers
  import opened Strings

  /** The line separator appended after every line; the runner takes it from the system. */
  const LineSeparator: string := "\n"

  /** The statement delimiter a runner starts with. */
  const DefaultDelimiter: string := ";"

  /** The prefix, compared case-insensitively, of a comment that sets the delimiter. */
  const DelimiterDirective: string := "@DELIMITER"

  /** The runner's flags, as its setters leave them. */
  datatype Settings = Settings(
    stopOnError: bool,
    throwWarning: bool,
    autoCommit: bool,
    sendFullScript: bool,
    removeCRs: bool,
    fullLineDelimiter: bool)

  /**
   * What the database answers: which SQL texts fail, which leave a warning,
   * and whether changing the auto-commit mode, committing or rolling back
   * fails.
   */
  datatype Database = Database(
    executeFails: string -> bool,
    executeWarns: string -> bool,
    setAutoCommitFails: bool,
    commitFails: bool,
    rollbackFails: bool)

  /** A call the runner makes on the connection. */
  datatype Event = Exec(sql: string) | AutoCommitSet(on: bool) | Committed | RolledBack

  /** Why a run stops with an exception. */
  datatype ScriptError =
    | CouldNotSetAutoCommit(on: bool)
    | StatementFailed(sql: string)
    | StatementWarned(sql: string)
    | DirectiveTooShort(cleaned: string)
    | CouldNotCommit
    | MissingTerminator(command: string)

  /**
   * The state a run changes: the runner's delimiter and error log, and the
   * connection's auto-commit mode and the calls made on it.
   */
  datatype Session = Session(delimiter: string, autoCommit: bool, events: seq<Event>, errorLog: seq<string>)

  /** A session after a call, and the exception the call raised, if any. */
  datatype Effect = Effect(session: Session, error: Option<ScriptError>)

  /** A session and the command buffer after one or more lines. */
  datatype Outcome = Outcome(session: Session, command: string, error: Option<ScriptError>)

  /** `s.startsWith(prefix)`. */
  predicate StartsWith(s: string, prefix: string)
  {
    |prefix| <= |s| && s[..|prefix|] == prefix
  }

  /** A text starts with a prefix exactly when the prefix fits and occurs at index 0. */
  lemma StartsWithIff(s: string, prefix: string)
    ensures StartsWith(s, prefix) <==> |prefix| <= |s| && OccursAt(s, prefix, 0)
  {
    if |prefix| <= |s| {
      OccursAtSlice(s, prefix, 0);
    }
  }

  /** `lineIsComment`: the trimmed line starts with `//` or `--`, that is, with two equal comment characters. */
  predicate LineIsComment(trimmedLine: string)
    ensures LineIsComment(trimmedLine) <==>
      |trimmedLine| >= 2 && trimmedLine[0] == trimmedLine[1] && (trimmedLine[0] == '/' || trimmedLine[0] == '-')
  {
    StartsWith(trimmedLine, "//") || StartsWith(trimmedLine, "--")
  }

  /** A comment without its two comment characters, trimmed, and without its first `//`. */
  function CleanComment(trimmedLine: string): (cleaned: string)
    requires LineIsComment(trimmedLine)
    ensures |cleaned| <= |trimmedLine| - 2
  {
    RemoveFirst(Trim(trimmedLine[2..]), "//")
  }

  /**
   * `cleaned.toUpperCase().startsWith("@DELIMITER")`: the first ten
   * characters of the cleaned comment spell the directive in either case.
   */
  predicate IsDelimiterDirective(cleaned: string)
  {
    StartsWith(ToUpper(cleaned), DelimiterDirective)
  }

  /** The directive test looks at the first ten characters only, in either case. */
  lemma DelimiterDirectiveIff(cleaned: string)
    ensures IsDelimiterDirective(cleaned) <==>
      |DelimiterDirective| <= |cleaned| &&
      forall i :: 0 <= i < |DelimiterDirective| ==> UpperChar(cleaned[i]) == DelimiterDirective[i]
  {
  }

  /**
   * `commandReadyToExecute`: the trimmed line contains the delimiter, or in
   * full-line mode is it; either way the delimiter occurs in the line.
   */
  predicate CommandReadyToExecute(trimmedLine: string, delimiter: string, fullLineDelimiter: bool)
    ensures CommandReadyToExecute(trimmedLine, delimiter, fullLineDelimiter) ==> exists k :: OccursAt(trimmedLine, delimiter, k)
    ensures !fullLineDelimiter ==>
      (CommandReadyToExecute(trimmedLine, delimiter, fullLineDelimiter) <==> exists k :: OccursAt(trimmedLine, delimiter, k))
    ensures fullLineDelimiter ==>
      (CommandReadyToExecute(trimmedLine, delimiter, fullLineDelimiter) <==> trimmedLine == delimiter)
  {
    assert trimmedLine == delimiter ==> OccursAt(trimmedLine, delimiter, 0) by {
      if trimmedLine == delimiter {
        OccursAtSlice(trimmedLine, delimiter, 0);
      }
    }
    (!fullLineDelimiter && Contains(trimmedLine, delimiter)) || (fullLineDelimiter && trimmedLine == delimiter)
  }

  /** A line that is ready to execute contains the delimiter, so `lastIndexOf` finds it. */
  lemma ReadyLineHasDelimiter(line: string, delimiter: string, fullLineDelimiter: bool)
    requires CommandReadyToExecute(Trim(line), delimiter, fullLineDelimiter)
    ensures 0 <= LastIndexOf(line, delimiter) && LastIndexOf(line, delimiter) + |delimiter| <= |line|
  {
    var k :| OccursAt(Trim(line), delimiter, k);
    TrimOccurrence(line, delimiter, k);
  }

  /** The SQL text sent for a command. */
  function StatementSql(removeCRs: bool, command: string): (sql: string)
    ensures |sql| <= |command|
    ensures !removeCRs ==> sql == command
  {
    if removeCRs then NormalizeLineEnds(command) else command
  }

  /**
   * `executeStatement`: the SQL is sent once. With `stopOnError` a failure,
   * or a warning when `throwWarning` is set, raises; without it a failure
   * only goes to the error log.
   */
  function ExecuteStatementSpec(settings: Settings, db: Database, s: Session, command: string): (e: Effect)
    ensures e.session.events == s.events + [Exec(StatementSql(settings.removeCRs, command))]
    ensures e.session.delimiter == s.delimiter && e.session.autoCommit == s.autoCommit
    ensures e.error.Some? ==> settings.stopOnError
    ensures e.session.errorLog == s.errorLog || e.session.errorLog == s.errorLog + [command]
  {
    var sql := StatementSql(settings.removeCRs, command);
    var sent := s.(events := s.events + [Exec(sql)]);
    if settings.stopOnError then
      if db.executeFails(sql) then Effect(sent, Some(StatementFailed(sql)))
      else if settings.throwWarning && db.executeWarns(sql) then Effect(sent, Some(StatementWarned(sql)))
      else Effect(sent, None)
    else if db.executeFails(sql) then Effect(sent.(errorLog := s.errorLog + [command]), None)
    else Effect(sent, None)
  }

  /** `handleLine`: what one line does to the session and to the command buffer. */
  function HandleLineSpec(settings: Settings, db: Database, s: Session, command: string, line: string): (o: Outcome)
    ensures o.session.autoCommit == s.autoCommit
    ensures o.session.events == s.events || |o.session.events| == |s.events| + 1
  {
    var trimmed := Trim(line);
    if LineIsComment(trimmed) then
      var cleaned := CleanComment(trimmed);
      if IsDelimiterDirective(cleaned) then
        // the new delimiter is `cleaned.substring(11, 12)`, which throws on a shorter text
        if |cleaned| < 12 then Outcome(s, command, Some(DirectiveTooShort(cleaned)))
        else Outcome(s.(delimiter := cleaned[11..12]), command, None)
      else Outcome(s, command, None)
    else if CommandReadyToExecute(trimmed, s.delimiter, settings.fullLineDelimiter) then
      ReadyLineHasDelimiter(line, s.delimiter, settings.fullLineDelimiter);
      var full := command + line[..LastIndexOf(line, s.delimiter)] + LineSeparator;
      var e := ExecuteStatementSpec(settings, db, s, full);
      // the buffer is cleared only after the statement returns normally
      if e.error.Some? then Outcome(e.session, full, e.error) else Outcome(e.session, "", None)
    else if |trimmed| > 0 then Outcome(s, command + line + LineSeparator, None)
    else Outcome(s, command, None)
  }

  /** The loop of `executeLineByLine` over `lines`; it stops at the first exception. */
  function HandleLinesSpec(settings: Settings, db: Database, s: Session, command: string, lines: seq<string>): (o: Outcome)
    ensures o.session.autoCommit == s.autoCommit
    ensures |s.events| <= |o.session.events| <= |s.events| + |lines|
    decreases |lines|
  {
    if lines == [] then Outcome(s, command, None)
    else
      var before := HandleLinesSpec(settings, db, s, command, lines[..|lines| - 1]);
      if before.error.Some? then before
      else HandleLineSpec(settings, db, before.session, before.command, lines[|lines| - 1])
  }

  /** One more line: the loop goes on from where the lines before it left off. */
  lemma HandleLinesStep(settings: Settings, db: Database, s: Session, command: string, lines: seq<string>, i: nat)
    requires i < |lines| && HandleLinesSpec(settings, db, s, command, lines[..i]).error.None?
    ensures var before := HandleLinesSpec(settings, db, s, command, lines[..i]);
      HandleLinesSpec(settings, db, s, command, lines[..i + 1])
        == HandleLineSpec(settings, db, before.session, before.command, lines[i])
  {
    assert lines[..i + 1][..i] == lines[..i];
  }

  /** Once a line raises, the loop over the lines yields that line's outcome. */
  lemma {:induction false} HandleLinesStopped(settings: Settings, db: Database, s: Session, command: string,
                                              lines: seq<string>, k: nat)
    requires 0 < k <= |lines| && HandleLinesSpec(settings, db, s, command, lines[..k]).error.Some?
    ensures HandleLinesSpec(settings, db, s, command, lines) == HandleLinesSpec(settings, db, s, command, lines[..k])
    decreases |lines| - k
  {
    if k < |lines| {
      assert lines[..k + 1][..k] == lines[..k];
      HandleLinesStopped(settings, db, s, command, lines, k + 1);
    } else {
      assert lines[..k] == lines;
    }
  }

  /** `commitConnection`: commits unless the connection is in auto-commit mode. */
  function CommitSpec(db: Database, s: Session): (e: Effect)
    ensures e.session.autoCommit == s.autoCommit && e.session.delimiter == s.delimiter && e.session.errorLog == s.errorLog
    ensures e.session.events == s.events <==> s.autoCommit
    ensures e.error.Some? <==> !s.autoCommit && db.commitFails
  {
    if s.autoCommit then Effect(s, None)
    else Effect(s.(events := s.events + [Committed]), if db.commitFails then Some(CouldNotCommit) else None)
  }

  /** `rollbackConnection`: rolls back unless in auto-commit mode; a failure is ignored. */
  function RollbackSpec(s: Session): (r: Session)
    ensures r.autoCommit == s.autoCommit && r.delimiter == s.delimiter && r.errorLog == s.errorLog
    ensures r.events == s.events <==> s.autoCommit
  {
    if s.autoCommit then s else s.(events := s.events + [RolledBack])
  }

  /** The private `setAutoCommit`: switches the connection to the runner's mode when they differ. */
  function SetAutoCommitSpec(settings: Settings, db: Database, s: Session): (e: Effect)
    ensures e.error.None? <==> e.session.autoCommit == settings.autoCommit
    ensures e.session.events == s.events <==> settings.autoCommit == s.autoCommit
    ensures e.session.delimiter == s.delimiter && e.session.errorLog == s.errorLog
  {
    if settings.autoCommit == s.autoCommit then Effect(s, None)
    else
      var sent := s.(events := s.events + [AutoCommitSet(settings.autoCommit)]);
      if db.setAutoCommitFails then Effect(sent, Some(CouldNotSetAutoCommit(settings.autoCommit)))
      else Effect(sent.(autoCommit := settings.autoCommit), None)
  }

  /** `checkForMissingLineTerminator`: raises when the buffer holds more than white space. */
  function MissingTerminatorSpec(command: string): (error: Option<ScriptError>)
    ensures error.Some? <==> exists i :: 0 <= i < |command| && !IsSpace(command[i])
    ensures error.Some? ==> error == Some(MissingTerminator(command))
  {
    TrimEmptyIff(command);
    if |Trim(command)| > 0 then Some(MissingTerminator(command)) else None
  }

  /** `executeLineByLine`: the lines, then the commit, then the check of what is left in the buffer. */
  function LineByLineSpec(settings: Settings, db: Database, s: Session, lines: seq<string>): (e: Effect)
    ensures e.session.autoCommit == s.autoCommit
  {
    var o := HandleLinesSpec(settings, db, s, "", lines);
    if o.error.Some? then Effect(o.session, o.error)
    else
      var c := CommitSpec(db, o.session);
      if c.error.Some? then c
      else Effect(c.session, MissingTerminatorSpec(o.command))
  }

  /** The whole script as `executeFullScript` builds it: every line followed by a separator. */
  function Joined(lines: seq<string>): (script: string)
    ensures |script| >= |lines|
    decreases |lines|
  {
    if lines == [] then "" else Joined(lines[..|lines| - 1]) + lines[|lines| - 1] + LineSeparator
  }

  /** `executeFullScript`: the whole script as one statement, then the commit. */
  function FullScriptSpec(settings: Settings, db: Database, s: Session, lines: seq<string>): (e: Effect)
    ensures e.session.autoCommit == s.autoCommit
    ensures |s.events| < |e.session.events| <= |s.events| + 2
  {
    var e := ExecuteStatementSpec(settings, db, s, Joined(lines));
    if e.error.Some? then e else CommitSpec(db, e.session)
  }

  /**
   * `runScript`: the auto-commit mode is set first, outside the `try`; then
   * the script runs in one of its two modes, and a rollback follows whatever
   * happened.
   */
  function RunScriptSpec(settings: Settings, db: Database, s: Session, lines: seq<string>): (e: Effect)
    ensures e.session.autoCommit == s.autoCommit || e.session.autoCommit == settings.autoCommit
    ensures e.session.autoCommit != settings.autoCommit ==> e.error == Some(CouldNotSetAutoCommit(settings.autoCommit))
  {
    var a := SetAutoCommitSpec(settings, db, s);
    if a.error.Some? then a
    else
      var b := if settings.sendFullScript then FullScriptSpec(settings, db, a.session, lines)
               else LineByLineSpec(settings, db, a.session, lines);
      Effect(RollbackSpec(b.session), b.error)
  }
}
