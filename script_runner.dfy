/**
 * `ScriptRunner` as a class over a connection whose calls are recorded. Each
 * method leaves the session exactly as the matching function of `ScriptSpec`
 * says, so everything proved about those functions holds for the runner.
 */
module Scripts {
  import opened Wrappers
  import opened Strings
  import opened ScriptSpec

  /** The JDBC connection: its auto-commit mode, the calls made on it, and its answers. */
  class Connection {
    var autoCommit: bool
    var events: seq<Event>
    const db: Database

    constructor(autoCommit: bool, db: Database)
      ensures this.autoCommit == autoCommit && events == [] && this.db == db
    {
      this.autoCommit := autoCommit;
      this.events := [];
      this.db := db;
    }

    /** Runs `sql` on a new statement; says whether it failed and whether it left a warning. */
    method Execute(sql: string) returns (failed: bool, warned: bool)
      modifies this
      ensures events == old(events) + [Exec(sql)] && autoCommit == old(autoCommit)
      ensures failed == db.executeFails(sql) && warned == db.executeWarns(sql)
    {
      events := events + [Exec(sql)];
      failed := db.executeFails(sql);
      warned := db.executeWarns(sql);
    }

    method SetAutoCommit(on: bool) returns (ok: bool)
      modifies this
      ensures events == old(events) + [AutoCommitSet(on)]
      ensures ok == !db.setAutoCommitFails
      ensures autoCommit == if ok then on else old(autoCommit)
    {
      events := events + [AutoCommitSet(on)];
      ok := !db.setAutoCommitFails;
      if ok {
        autoCommit := on;
      }
    }

    method Commit() returns (ok: bool)
      modifies this
      ensures events == old(events) + [Committed] && autoCommit == old(autoCommit)
      ensures ok == !db.commitFails
    {
      events := events + [Committed];
      ok := !db.commitFails;
    }

    method Rollback() returns (ok: bool)
      modifies this
      ensures events == old(events) + [RolledBack] && autoCommit == old(autoCommit)
      ensures ok == !db.rollbackFails
    {
      events := events + [RolledBack];
      ok := !db.rollbackFails;
    }
  }

  class ScriptRunner {
    const connection: Connection
    var stopOnError: bool
    var throwWarning: bool
    var autoCommit: bool
    var sendFullScript: bool
    var removeCRs: bool
    var fullLineDelimiter: bool
    var delimiter: string
    /** The commands whose failure was logged instead of raised. */
    var errorLog: seq<string>

    constructor(connection: Connection)
      ensures this.connection == connection
      ensures Flags() == Settings(false, false, false, false, false, false)
      ensures delimiter == DefaultDelimiter && errorLog == []
    {
      this.connection := connection;
      stopOnError := false;
      throwWarning := false;
      autoCommit := false;
      sendFullScript := false;
      removeCRs := false;
      fullLineDelimiter := false;
      delimiter := DefaultDelimiter;
      errorLog := [];
    }

    function Flags(): (settings: Settings)
      reads this
    {
      Settings(stopOnError, throwWarning, autoCommit, sendFullScript, removeCRs, fullLineDelimiter)
    }

    function State(): (session: Session)
      reads this, connection
    {
      Session(delimiter, connection.autoCommit, connection.events, errorLog)
    }

    method ExecuteStatement(command: string) returns (error: Option<ScriptError>)
      modifies this, connection
      ensures Flags() == old(Flags())
      ensures Effect(State(), error) == ExecuteStatementSpec(Flags(), connection.db, old(State()), command)
    {
      var sql := command;
      if removeCRs {
        sql := NormalizeLineEnds(sql);
      }
      var failed, warned := connection.Execute(sql);
      error := None;
      if stopOnError {
        if failed {
          error := Some(StatementFailed(sql));
        } else if throwWarning && warned {
          error := Some(StatementWarned(sql));
        }
      } else if failed {
        errorLog := errorLog + [command];
      }
    }

    /**
     * `handleLine`: a comment may set the delimiter, a ready line executes
     * the buffer and clears it, any other non-blank line is buffered.
     */
    method HandleLine(command: string, line: string) returns (command': string, error: Option<ScriptError>)
      modifies this, connection
      ensures Flags() == old(Flags())
      ensures Outcome(State(), command', error) == HandleLineSpec(Flags(), connection.db, old(State()), command, line)
    {
      var trimmed := Trim(line);
      command', error := command, None;
      if LineIsComment(trimmed) {
        var cleaned := CleanComment(trimmed);
        if IsDelimiterDirective(cleaned) {
          if |cleaned| < 12 {
            error := Some(DirectiveTooShort(cleaned));
          } else {
            delimiter := cleaned[11..12];
          }
        }
      } else if CommandReadyToExecute(trimmed, delimiter, fullLineDelimiter) {
        ReadyLineHasDelimiter(line, delimiter, fullLineDelimiter);
        command' := command + line[..LastIndexOf(line, delimiter)] + LineSeparator;
        error := ExecuteStatement(command');
        if error.None? {
          command' := "";
        }
      } else if |trimmed| > 0 {
        command' := command + line + LineSeparator;
      }
    }

    method CommitConnection() returns (error: Option<ScriptError>)
      modifies connection
      ensures Effect(State(), error) == CommitSpec(connection.db, old(State()))
    {
      error := None;
      if !connection.autoCommit {
        var ok := connection.Commit();
        if !ok {
          error := Some(CouldNotCommit);
        }
      }
    }

    method RollbackConnection()
      modifies connection
      ensures State() == RollbackSpec(old(State()))
    {
      if !connection.autoCommit {
        var _ := connection.Rollback();
      }
    }

    /** The private `setAutoCommit()`, which brings the connection to the runner's mode. */
    method SetAutoCommit() returns (error: Option<ScriptError>)
      modifies connection
      ensures Effect(State(), error) == SetAutoCommitSpec(Flags(), connection.db, old(State()))
    {
      error := None;
      if autoCommit != connection.autoCommit {
        var ok := connection.SetAutoCommit(autoCommit);
        if !ok {
          error := Some(CouldNotSetAutoCommit(autoCommit));
        }
      }
    }

    /**
     * `checkForMissingLineTerminator`: raises exactly when the buffer holds a
     * character other than white space.
     */
    method CheckForMissingLineTerminator(command: string) returns (error: Option<ScriptError>)
      ensures error.Some? <==> exists i :: 0 <= i < |command| && !IsSpace(command[i])
      ensures error.Some? ==> error == Some(MissingTerminator(command))
    {
      TrimEmptyIff(command);
      if |Trim(command)| > 0 {
        error := Some(MissingTerminator(command));
      } else {
        error := None;
      }
    }

    /** The loop of `executeLineByLine`: every line in turn, until one raises. */
    method HandleLines(lines: seq<string>) returns (command: string, error: Option<ScriptError>)
      modifies this, connection
      ensures Flags() == old(Flags())
      ensures Outcome(State(), command, error) == HandleLinesSpec(Flags(), connection.db, old(State()), "", lines)
    {
      ghost var start := State();
      command, error := "", None;
      var i := 0;
      while i < |lines|
        invariant i <= |lines| && Flags() == old(Flags())
        invariant error.None?
        invariant Outcome(State(), command, None) == HandleLinesSpec(Flags(), connection.db, start, "", lines[..i])
      {
        HandleLinesStep(Flags(), connection.db, start, "", lines, i);
        command, error := HandleLine(command, lines[i]);
        if error.Some? {
          HandleLinesStopped(Flags(), connection.db, start, "", lines, i + 1);
          return;
        }
        i := i + 1;
      }
      assert lines[..i] == lines;
    }

    method ExecuteLineByLine(lines: seq<string>) returns (error: Option<ScriptError>)
      modifies this, connection
      ensures Flags() == old(Flags())
      ensures Effect(State(), error) == LineByLineSpec(Flags(), connection.db, old(State()), lines)
    {
      var command;
      command, error := HandleLines(lines);
      if error.Some? {
        return;
      }
      error := CommitConnection();
      if error.Some? {
        return;
      }
      error := CheckForMissingLineTerminator(command);
      TrimEmptyIff(command);
    }

    method ExecuteFullScript(lines: seq<string>) returns (error: Option<ScriptError>)
      modifies this, connection
      ensures Flags() == old(Flags())
      ensures Effect(State(), error) == FullScriptSpec(Flags(), connection.db, old(State()), lines)
    {
      var script := "";
      var i := 0;
      while i < |lines|
        invariant i <= |lines| && script == Joined(lines[..i])
      {
        assert lines[..i + 1][..i] == lines[..i];
        script := script + lines[i] + LineSeparator;
        i := i + 1;
      }
      assert lines[..i] == lines;
      error := ExecuteStatement(script);
      if error.Some? {
        return;
      }
      error := CommitConnection();
    }

    method RunScript(lines: seq<string>) returns (error: Option<ScriptError>)
      modifies this, connection
      ensures Flags() == old(Flags())
      ensures Effect(State(), error) == RunScriptSpec(Flags(), connection.db, old(State()), lines)
    {
      error := SetAutoCommit();
      if error.Some? {
        return;
      }
      if sendFullScript {
        error := ExecuteFullScript(lines);
      } else {
        error := ExecuteLineByLine(lines);
      }
      RollbackConnection();
    }
  }
}
