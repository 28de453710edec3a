/**
 * What `ScriptRunner` promises about the statements it sends and the
 * transaction calls around them, proved about the functions of `ScriptSpec`
 * that its methods are proved to follow.
 */
module ScriptProperties {
  import opened Wrappers
  import opened Strings
  import opened ScriptSpec

  // ---- one line ----

  /** A comment line executes nothing and leaves the buffer as it is. */
  lemma CommentLineIsNotExecuted(settings: Settings, db: Database, s: Session, command: string, line: string)
    requires LineIsComment(Trim(line))
    ensures var o := HandleLineSpec(settings, db, s, command, line);
      o.command == command && o.session.events == s.events && o.session.errorLog == s.errorLog &&
      o.session.autoCommit == s.autoCommit
  {
  }

  /**
   * A `@DELIMITER` directive, in any letter case, makes the character at
   * index 11 of the cleaned comment the delimiter, and changes nothing else.
   */
  lemma DelimiterDirectiveSetsDelimiter(settings: Settings, db: Database, s: Session, command: string, line: string)
    requires LineIsComment(Trim(line))
    requires IsDelimiterDirective(CleanComment(Trim(line))) && |CleanComment(Trim(line))| >= 12
    ensures var o := HandleLineSpec(settings, db, s, command, line);
      o.error.None? && o.command == command &&
      o.session == s.(delimiter := [CleanComment(Trim(line))[11]])
  {
    var cleaned := CleanComment(Trim(line));
    assert cleaned[11..12] == [cleaned[11]];
    assert HandleLineSpec(settings, db, s, command, line) == Outcome(s.(delimiter := cleaned[11..12]), command, None);
  }

  /** A directive too short to hold a delimiter raises, and changes nothing. */
  lemma ShortDelimiterDirectiveRaises(settings: Settings, db: Database, s: Session, command: string, line: string)
    requires LineIsComment(Trim(line))
    requires IsDelimiterDirective(CleanComment(Trim(line))) && |CleanComment(Trim(line))| < 12
    ensures HandleLineSpec(settings, db, s, command, line)
      == Outcome(s, command, Some(DirectiveTooShort(CleanComment(Trim(line)))))
  {
  }

  /**
   * A line that is ready executes exactly one statement: the buffer, then the
   * line up to its last delimiter, then a line separator. When it returns
   * normally, the buffer is empty afterwards.
   */
  lemma ReadyLineExecutesBuffer(settings: Settings, db: Database, s: Session, command: string, line: string)
    requires !LineIsComment(Trim(line)) && CommandReadyToExecute(Trim(line), s.delimiter, settings.fullLineDelimiter)
    ensures 0 <= LastIndexOf(line, s.delimiter) <= |line|
    ensures var o := HandleLineSpec(settings, db, s, command, line);
      var full := command + line[..LastIndexOf(line, s.delimiter)] + LineSeparator;
      o.session.events == s.events + [Exec(StatementSql(settings.removeCRs, full))] &&
      o.session.delimiter == s.delimiter && o.session.autoCommit == s.autoCommit &&
      (o.error.None? ==> o.command == "")
  {
    ReadyLineHasDelimiter(line, s.delimiter, settings.fullLineDelimiter);
  }

  /** A non-blank line that is neither a comment nor ready is buffered with a separator. */
  lemma OtherLineIsBuffered(settings: Settings, db: Database, s: Session, command: string, line: string)
    requires !LineIsComment(Trim(line)) && !CommandReadyToExecute(Trim(line), s.delimiter, settings.fullLineDelimiter)
    requires |Trim(line)| > 0
    ensures HandleLineSpec(settings, db, s, command, line) == Outcome(s, command + line + LineSeparator, None)
  {
  }

  /** With a non-empty delimiter, a blank line changes nothing. */
  lemma BlankLineChangesNothing(settings: Settings, db: Database, s: Session, command: string, line: string)
    requires |s.delimiter| > 0 && forall i :: 0 <= i < |line| ==> IsSpace(line[i])
    ensures HandleLineSpec(settings, db, s, command, line) == Outcome(s, command, None)
  {
    TrimEmptyIff(line);
    assert Trim(line) == [];
    assert IndexOf([], s.delimiter, 0) == -1;
  }

  /** With `removeCRs` the statement differs from the command only in dropped carriage returns. */
  lemma StatementSqlDropsOnlyCRs(removeCRs: bool, command: string)
    ensures WithoutCR(StatementSql(removeCRs, command)) == WithoutCR(command)
    ensures '\r' !in command ==> StatementSql(removeCRs, command) == command
  {
    NormalizeLineEndsDropsOnlyCR(command);
    if '\r' !in command {
      NormalizeLineEndsWithoutCR(command);
    }
  }

  /** Without `stopOnError` a failing statement is logged and does not raise. */
  lemma FailureIsLoggedWithoutStopOnError(settings: Settings, db: Database, s: Session, command: string)
    requires !settings.stopOnError && db.executeFails(StatementSql(settings.removeCRs, command))
    ensures ExecuteStatementSpec(settings, db, s, command).error.None?
    ensures ExecuteStatementSpec(settings, db, s, command).session.errorLog == s.errorLog + [command]
  {
  }

  /** A statement raises only with `stopOnError`, and a warning only with `throwWarning` too. */
  lemma StatementRaisesOnlyWhenStopping(settings: Settings, db: Database, s: Session, command: string)
    ensures var e := ExecuteStatementSpec(settings, db, s, command);
      var sql := StatementSql(settings.removeCRs, command);
      (e.error.Some? <==> settings.stopOnError && (db.executeFails(sql) || (settings.throwWarning && db.executeWarns(sql)))) &&
      (e.error.Some? ==> e.error.value.sql == sql) &&
      e.session.events == s.events + [Exec(sql)]
  {
  }

  // ---- the whole run ----

  /** An error that `executeStatement` raised. */
  predicate RaisedByStatement(error: Option<ScriptError>)
  {
    error.Some? && (error.value.StatementFailed? || error.value.StatementWarned?)
  }

  /** Calls that only execute statements. */
  predicate OnlyExecs(events: seq<Event>)
  {
    forall i :: 0 <= i < |events| ==> events[i].Exec?
  }

  /** `after` is `before` followed by statement executions only. */
  predicate ExecsAppended(before: seq<Event>, after: seq<Event>)
  {
    |before| <= |after| && after[..|before|] == before && OnlyExecs(after[|before|..])
  }

  lemma ExecsAppendedTwice(a: seq<Event>, b: seq<Event>, c: seq<Event>)
    requires ExecsAppended(a, b) && ExecsAppended(b, c)
    ensures ExecsAppended(a, c)
  {
    assert c[..|a|] == c[..|b|][..|a|];
    forall i | |a| <= i < |c|
      ensures c[i].Exec?
    {
      if i < |b| {
        assert c[i] == b[i] == b[|a|..][i - |a|];
      } else {
        assert c[i] == c[|b|..][i - |b|];
      }
    }
    assert forall i :: 0 <= i < |c| - |a| ==> c[|a|..][i] == c[|a| + i];
  }

  /**
   * One line executes at most one statement and keeps the connection's mode;
   * when the statement raises, it is the statement just sent.
   */
  lemma HandleLineOnlyExecutes(settings: Settings, db: Database, s: Session, command: string, line: string)
    ensures var o := HandleLineSpec(settings, db, s, command, line);
      o.session.autoCommit == s.autoCommit && ExecsAppended(s.events, o.session.events) &&
      (RaisedByStatement(o.error) ==> settings.stopOnError && o.session.events == s.events + [Exec(o.error.value.sql)])
  {
    var o := HandleLineSpec(settings, db, s, command, line);
    if o.session.events != s.events {
      var t := Trim(line);
      assert !LineIsComment(t) && CommandReadyToExecute(t, s.delimiter, settings.fullLineDelimiter);
      ReadyLineHasDelimiter(line, s.delimiter, settings.fullLineDelimiter);
      var full := command + line[..LastIndexOf(line, s.delimiter)] + LineSeparator;
      var sql := StatementSql(settings.removeCRs, full);
      assert o.session.events == s.events + [Exec(sql)];
      assert o.session.events[|s.events|..] == [Exec(sql)];
    } else {
      assert o.session.events[|s.events|..] == [];
    }
  }

  /**
   * The loop over the lines only executes statements and keeps the
   * connection's mode; a statement raises only under `stopOnError`, and then
   * it is the last call made.
   */
  lemma {:induction false} HandleLinesOnlyExecutes(settings: Settings, db: Database, s: Session, command: string, lines: seq<string>)
    ensures var o := HandleLinesSpec(settings, db, s, command, lines);
      o.session.autoCommit == s.autoCommit && ExecsAppended(s.events, o.session.events) &&
      (RaisedByStatement(o.error) ==>
         (settings.stopOnError && |o.session.events| > 0 &&
          o.session.events[|o.session.events| - 1] == Exec(o.error.value.sql)))
    decreases |lines|
  {
    if lines == [] {
      assert s.events[|s.events|..] == [];
    } else {
      var init := lines[..|lines| - 1];
      HandleLinesOnlyExecutes(settings, db, s, command, init);
      var before := HandleLinesSpec(settings, db, s, command, init);
      if before.error.None? {
        HandleLineOnlyExecutes(settings, db, before.session, before.command, lines[|lines| - 1]);
        var o := HandleLineSpec(settings, db, before.session, before.command, lines[|lines| - 1]);
        ExecsAppendedTwice(s.events, before.session.events, o.session.events);
      }
    }
  }

  /** The number of commits among `events`. */
  function Commits(events: seq<Event>): (n: nat)
    ensures n <= |events|
    decreases |events|
  {
    if events == [] then 0
    else Commits(events[..|events| - 1]) + (if events[|events| - 1] == Committed then 1 else 0)
  }

  lemma {:induction false} CommitsAppend(a: seq<Event>, b: seq<Event>)
    ensures Commits(a + b) == Commits(a) + Commits(b)
    decreases |b|
  {
    if b == [] {
      assert a + b == a;
    } else {
      assert (a + b)[..|a + b| - 1] == a + b[..|b| - 1];
      assert (a + b)[|a + b| - 1] == b[|b| - 1];
      CommitsAppend(a, b[..|b| - 1]);
    }
  }

  lemma {:induction false} CommitsOfExecs(events: seq<Event>)
    requires OnlyExecs(events)
    ensures Commits(events) == 0
    decreases |events|
  {
    if events != [] {
      CommitsOfExecs(events[..|events| - 1]);
    }
  }

  /** The loop over the lines never commits. */
  lemma HandleLinesNeverCommits(settings: Settings, db: Database, s: Session, command: string, lines: seq<string>)
    ensures Commits(HandleLinesSpec(settings, db, s, command, lines).session.events) == Commits(s.events)
  {
    HandleLinesOnlyExecutes(settings, db, s, command, lines);
    var ev := HandleLinesSpec(settings, db, s, command, lines).session.events;
    assert ev == s.events + ev[|s.events|..];
    CommitsAppend(s.events, ev[|s.events|..]);
    CommitsOfExecs(ev[|s.events|..]);
  }

  /**
   * Line by line, the lines only execute statements; then one commit is
   * issued unless the connection auto-commits, and none when it does.
   */
  lemma LineByLineCommitsOnce(settings: Settings, db: Database, s: Session, lines: seq<string>)
    ensures var r := LineByLineSpec(settings, db, s, lines);
      var o := HandleLinesSpec(settings, db, s, "", lines);
      r.session.autoCommit == s.autoCommit &&
      Commits(r.session.events) <= Commits(s.events) + 1 &&
      (s.autoCommit ==> Commits(r.session.events) == Commits(s.events)) &&
      (o.error.None? && !s.autoCommit ==> r.session.events == o.session.events + [Committed])
  {
    HandleLinesOnlyExecutes(settings, db, s, "", lines);
    HandleLinesNeverCommits(settings, db, s, "", lines);
    var o := HandleLinesSpec(settings, db, s, "", lines);
    CommitsAppend(o.session.events, [Committed]);
  }

  /**
   * A missing terminator is reported only after all lines ran and the commit
   * succeeded, about the buffer they left, which is not blank.
   */
  lemma MissingTerminatorComesLast(settings: Settings, db: Database, s: Session, lines: seq<string>)
    ensures var r := LineByLineSpec(settings, db, s, lines);
      var o := HandleLinesSpec(settings, db, s, "", lines);
      r.error.Some? && r.error.value.MissingTerminator? ==>
        o.error.None? && r.error.value.command == o.command && |Trim(o.command)| > 0 &&
        r.session == CommitSpec(db, o.session).session
  {
  }

  /** Line by line, a missing terminator is reported exactly when the buffer left over is not blank. */
  lemma MissingTerminatorIff(settings: Settings, db: Database, s: Session, lines: seq<string>)
    requires !db.commitFails && HandleLinesSpec(settings, db, s, "", lines).error.None?
    ensures var o := HandleLinesSpec(settings, db, s, "", lines);
      LineByLineSpec(settings, db, s, lines).error.Some? <==>
        exists i :: 0 <= i < |o.command| && !IsSpace(o.command[i])
  {
    TrimEmptyIff(HandleLinesSpec(settings, db, s, "", lines).command);
  }

  /** `Joined` keeps every line, comments included, in order. */
  lemma {:induction false} JoinedAppend(a: seq<string>, b: seq<string>)
    ensures Joined(a + b) == Joined(a) + Joined(b)
    decreases |b|
  {
    if b == [] {
      assert a + b == a;
    } else {
      var b' := b[..|b| - 1];
      assert (a + b)[..|a + b| - 1] == a + b';
      JoinedAppend(a, b');
      assert Joined(a + b) == Joined(a) + Joined(b') + b[|b| - 1] + LineSeparator;
    }
  }

  /**
   * The whole script is sent as exactly one statement, followed by at most
   * one commit, and by none when the connection auto-commits.
   */
  lemma FullScriptExecutesOnce(settings: Settings, db: Database, s: Session, lines: seq<string>)
    ensures var r := FullScriptSpec(settings, db, s, lines);
      var sent := StatementSql(settings.removeCRs, Joined(lines));
      r.session.autoCommit == s.autoCommit &&
      (r.session.events == s.events + [Exec(sent)] ||
       r.session.events == s.events + [Exec(sent), Committed]) &&
      (s.autoCommit ==> r.session.events == s.events + [Exec(sent)]) &&
      (!s.autoCommit && r.error.None? ==> r.session.events == s.events + [Exec(sent), Committed])
  {
  }

  /** What `runScript` did before its rollback, when the auto-commit mode could be set. */
  lemma RunScriptBody(settings: Settings, db: Database, s: Session, lines: seq<string>)
    requires SetAutoCommitSpec(settings, db, s).error.None?
    ensures var a := SetAutoCommitSpec(settings, db, s).session;
      var b := if settings.sendFullScript then FullScriptSpec(settings, db, a, lines) else LineByLineSpec(settings, db, a, lines);
      a.autoCommit == settings.autoCommit && b.session.autoCommit == settings.autoCommit &&
      Commits(b.session.events) <= Commits(a.events) + 1 &&
      (settings.autoCommit ==> Commits(b.session.events) == Commits(a.events)) &&
      RunScriptSpec(settings, db, s, lines) == Effect(RollbackSpec(b.session), b.error)
  {
    var a := SetAutoCommitSpec(settings, db, s).session;
    if settings.sendFullScript {
      FullScriptExecutesOnce(settings, db, a, lines);
      var sent := StatementSql(settings.removeCRs, Joined(lines));
      CommitsAppend(a.events, [Exec(sent)]);
      CommitsAppend(a.events, [Exec(sent), Committed]);
    } else {
      LineByLineCommitsOnce(settings, db, a, lines);
    }
  }

  /**
   * Unless the auto-commit mode could not be set, `runScript` ends with a
   * rollback when the runner does not auto-commit, and never commits or
   * rolls back when it does; it commits at most once.
   */
  lemma RunScriptEndsWithRollback(settings: Settings, db: Database, s: Session, lines: seq<string>)
    requires SetAutoCommitSpec(settings, db, s).error.None?
    ensures var r := RunScriptSpec(settings, db, s, lines);
      (!settings.autoCommit ==> |r.session.events| > 0 && r.session.events[|r.session.events| - 1] == RolledBack) &&
      Commits(r.session.events) <= Commits(s.events) + 1 &&
      (settings.autoCommit ==> Commits(r.session.events) == Commits(s.events)) &&
      (settings.autoCommit ==> forall i :: |s.events| <= i < |r.session.events| ==> r.session.events[i] != RolledBack)
  {
    RunScriptBody(settings, db, s, lines);
    var a := SetAutoCommitSpec(settings, db, s).session;
    CommitsAppend(s.events, [AutoCommitSet(settings.autoCommit)]);
    var r := RunScriptSpec(settings, db, s, lines);
    var b := if settings.sendFullScript then FullScriptSpec(settings, db, a, lines) else LineByLineSpec(settings, db, a, lines);
    CommitsAppend(b.session.events, [RolledBack]);
    if settings.autoCommit {
      AutoCommitRunNeverRollsBack(settings, db, s, lines);
    }
  }

  /** With auto-commit on, nothing after the mode change is a rollback: only the statements run. */
  lemma AutoCommitRunNeverRollsBack(settings: Settings, db: Database, s: Session, lines: seq<string>)
    requires SetAutoCommitSpec(settings, db, s).error.None? && settings.autoCommit
    ensures var r := RunScriptSpec(settings, db, s, lines);
      forall i :: |s.events| <= i < |r.session.events| ==> r.session.events[i] != RolledBack
  {
    var a := SetAutoCommitSpec(settings, db, s).session;
    assert a.events == s.events || a.events == s.events + [AutoCommitSet(true)];
    var ev := RunScriptSpec(settings, db, s, lines).session.events;
    if settings.sendFullScript {
      FullScriptExecutesOnce(settings, db, a, lines);
      assert ev == a.events + [Exec(StatementSql(settings.removeCRs, Joined(lines)))];
    } else {
      HandleLinesOnlyExecutes(settings, db, a, "", lines);
      var o := HandleLinesSpec(settings, db, a, "", lines);
      assert ev == o.session.events;
      forall i | |s.events| <= i < |ev|
        ensures ev[i] != RolledBack
      {
        if i >= |a.events| {
          assert ev[i] == ev[|a.events|..][i - |a.events|];
        } else {
          assert ev[i] == ev[..|a.events|][i];
        }
      }
    }
  }

  /**
   * When the auto-commit mode cannot be set, `runScript` raises before its
   * `try`: nothing is executed and no rollback is attempted.
   */
  lemma AutoCommitFailureSkipsScript(settings: Settings, db: Database, s: Session, lines: seq<string>)
    requires settings.autoCommit != s.autoCommit && db.setAutoCommitFails
    ensures RunScriptSpec(settings, db, s, lines)
      == Effect(s.(events := s.events + [AutoCommitSet(settings.autoCommit)]), Some(CouldNotSetAutoCommit(settings.autoCommit)))
  {
  }

  /**
   * A statement raises out of `runScript` only under `stopOnError`, and then
   * no later statement is executed: the failing one is the last call, or the
   * last before the rollback.
   */
  lemma StopOnErrorStopsAtFailure(settings: Settings, db: Database, s: Session, lines: seq<string>)
    ensures var r := RunScriptSpec(settings, db, s, lines);
      var ev := r.session.events;
      RaisedByStatement(r.error) ==>
        (settings.stopOnError && |ev| > 0 &&
         (ev[|ev| - 1] == Exec(r.error.value.sql) ||
          (|ev| > 1 && ev[|ev| - 2] == Exec(r.error.value.sql) && ev[|ev| - 1] == RolledBack)))
  {
    var a := SetAutoCommitSpec(settings, db, s);
    if a.error.None? && !settings.sendFullScript {
      HandleLinesOnlyExecutes(settings, db, a.session, "", lines);
    }
  }
}
