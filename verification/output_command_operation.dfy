/**
 The unbatched sink: one freshly created command per row, executed in row
 order inside one transaction, with an optional tolerance for primary key
 violations, and a single commit-or-rollback decision at the end taken from
 the pipeline-wide error flag.
 */
module OutputCommandOperation {
  import opened Effects
  import opened PrimaryKeyViolationBehaviour

  /** The SQL Server error number of a PRIMARY KEY constraint violation. */
  const PrimaryKeyViolationErrorCode := 2627

  /** Every command of this sink gets one hour, in seconds. */
  const CommandTimeout := 60 * 60

  /** One concrete sink: its `PrepareCommand` hook and its violation policy.
      The hook receives the freshly created command and the row, and returns
      the command filled in. */
  datatype Operation = Operation(prepare: (Command, Row) -> Command, policy: Behaviour)

  /** The database: what executing the command prepared from row `j` returns. */
  type CommandOracle = (nat, Command) -> ExecResult

  /** A sink built with the constructor: the policy starts out as `Throw`. */
  function Create(prepare: (Command, Row) -> Command): (op: Operation)
    ensures op.policy == Throw && op.prepare == prepare
  {
    Operation(prepare, Throw)
  }

  /** The command the connection creates for a row, before the hook sees it. */
  function NewCommand(): (c: Command)
    ensures c.params == [] && c.timeout == 3600
  {
    Command("", [], CommandTimeout)
  }

  /** The command prepared from row `j`. */
  function PreparedAt(op: Operation, rows: seq<Row>, j: nat): (c: Command)
    requires j < |rows|
  {
    op.prepare(NewCommand(), rows[j])
  }

  /** What the database answers for row `j`. */
  function ResultAt(op: Operation, rows: seq<Row>, db: CommandOracle, j: nat): (res: ExecResult)
    requires j < |rows|
  {
    db(j, PreparedAt(op, rows, j))
  }

  predicate IsPrimaryKeyViolation(e: Failure)
  {
    e.SqlException? && e.number == PrimaryKeyViolationErrorCode
  }

  /** Reference reading of the policy: a row lets processing go on when its
      command succeeded, or when it hit a primary key violation and the policy
      says such rows are skipped. */
  predicate Survives(policy: Behaviour, res: ExecResult)
  {
    res.Affected? || (IsPrimaryKeyViolation(res.error) && OnViolation(policy) == SkipAndContinue)
  }

  /** Every row from `i` on lets processing go on. */
  predicate AllSurviveFrom(op: Operation, rows: seq<Row>, db: CommandOracle, i: nat)
  {
    forall j :: i <= j < |rows| ==> Survives(op.policy, ResultAt(op, rows, db, j))
  }

  /** The end of a loop that ran to completion: rollback when the pipeline
      has errors, commit otherwise. Only the commit checks that a transaction
      exists; rolling back an absent one fails with a null reference. */
  function Finish(env: Environment): (r: Run)
  {
    if env.pipelineHasErrors then
      if env.transactionPresent then Run([Rollback], Completed, [])
      else Run([], Aborted(NullReferenceException), [])
    else
      Run(if env.transactionPresent then [Commit] else [], Completed, [])
  }

  /** The decision: a rollback exactly when the pipeline has errors and a
      transaction exists, a commit exactly when it has none and a transaction
      exists, at most one of them, and an abort with a null reference exactly
      when a rollback meets an absent transaction. */
  lemma FinishDecision(env: Environment)
    ensures |Finish(env).effects| <= 1 && Finish(env).yielded == []
    ensures Rollback in Finish(env).effects <==> env.pipelineHasErrors && env.transactionPresent
    ensures Commit in Finish(env).effects <==> !env.pipelineHasErrors && env.transactionPresent
    ensures Finish(env).outcome.Aborted? <==> env.pipelineHasErrors && !env.transactionPresent
    ensures Finish(env).outcome.Aborted? ==> Finish(env).outcome.error == NullReferenceException
  {
  }

  /** The `foreach` over the rows from index `i` on, then the final decision. */
  function Loop(op: Operation, rows: seq<Row>, i: nat, db: CommandOracle, env: Environment): (r: Run)
    requires i <= |rows|
    ensures r.yielded == []
    decreases |rows| - i
  {
    if i == |rows| then Finish(env)
    else
      var cmd := PreparedAt(op, rows, i);
      var res := db(i, cmd);
      var executed := ExecuteCommand(cmd, res);
      if op.policy == Ignore then
        match res
        case Affected(_) => Prepend([executed], Loop(op, rows, i + 1, db, env))
        case Failed(e) =>
          if e.SqlException? && e.number == PrimaryKeyViolationErrorCode then
            Prepend([executed, IgnoredViolation], Loop(op, rows, i + 1, db, env))
          else
            Run([executed], Aborted(e), [])
      else
        match res
        case Affected(_) => Prepend([executed], Loop(op, rows, i + 1, db, env))
        case Failed(e) => Run([executed], Aborted(e), [])
  }

  /** `Execute`: open the connection and the transaction, then run the loop. */
  function Execute(op: Operation, rows: seq<Row>, db: CommandOracle, env: Environment): (r: Run)
    ensures |r.effects| >= 1 && r.effects[0] == Opened
    ensures forall j :: 1 <= j < |r.effects| ==> r.effects[j] != Opened
    ensures r.yielded == []
  {
    LoopNeverReopens(op, rows, 0, db, env);
    Prepend([Opened], Loop(op, rows, 0, db, env))
  }

  lemma {:induction false} LoopNeverReopens(op: Operation, rows: seq<Row>, i: nat, db: CommandOracle, env: Environment)
    requires i <= |rows|
    ensures forall j :: 0 <= j < |Loop(op, rows, i, db, env).effects| ==> Loop(op, rows, i, db, env).effects[j] != Opened
    decreases |rows| - i
  {
    if i < |rows| {
      LoopNeverReopens(op, rows, i + 1, db, env);
    }
  }

  /** Whatever happens, the loop ends in the outcome of the final decision
      when every row survives, and aborts with no decision otherwise. */
  lemma {:induction false} LoopOutcome(op: Operation, rows: seq<Row>, i: nat, db: CommandOracle, env: Environment)
    requires i <= |rows|
    ensures AllSurviveFrom(op, rows, db, i) ==> Loop(op, rows, i, db, env).outcome == Finish(env).outcome
    ensures !AllSurviveFrom(op, rows, db, i) ==> Loop(op, rows, i, db, env).outcome.Aborted?
    decreases |rows| - i
  {
    if i < |rows| {
      LoopOutcome(op, rows, i + 1, db, env);
      if !Survives(op.policy, ResultAt(op, rows, db, i)) {
        assert !AllSurviveFrom(op, rows, db, i);
      } else {
        assert AllSurviveFrom(op, rows, db, i) <==> AllSurviveFrom(op, rows, db, i + 1);
      }
    }
  }

  /** A run completes exactly when every row's result is a success or a
      tolerated violation, and the final decision does not hit the missing
      transaction. */
  lemma CompletesIff(op: Operation, rows: seq<Row>, db: CommandOracle, env: Environment)
    ensures Execute(op, rows, db, env).outcome == Completed
        <==> AllSurviveFrom(op, rows, db, 0) && !(env.pipelineHasErrors && !env.transactionPresent)
  {
    LoopOutcome(op, rows, 0, db, env);
  }

  /** The rollback is not guarded: with pipeline errors and no transaction, a
      run whose rows all went through fails with a null reference. */
  lemma RollbackWithoutTransaction(op: Operation, rows: seq<Row>, db: CommandOracle, env: Environment)
    requires AllSurviveFrom(op, rows, db, 0)
    requires env.pipelineHasErrors && !env.transactionPresent
    ensures Execute(op, rows, db, env).outcome == Aborted(NullReferenceException)
    ensures Decisions(Execute(op, rows, db, env).effects) == 0
  {
    LoopOutcome(op, rows, 0, db, env);
    LoopEndsWithFinish(op, rows, 0, db, env);
    DecisionsConcat([Opened], Loop(op, rows, 0, db, env).effects);
  }

  /** The effects of a row that lets processing go on: its execution, and
      the trace message when it was a swallowed violation. */
  function SurvivorEffects(op: Operation, rows: seq<Row>, db: CommandOracle, i: nat): (es: seq<Effect>)
    requires i < |rows|
  {
    var res := ResultAt(op, rows, db, i);
    [ExecuteCommand(PreparedAt(op, rows, i), res)] + (if res.Failed? then [IgnoredViolation] else [])
  }

  /** One turn of the loop on a row that lets processing go on. */
  lemma LoopStep(op: Operation, rows: seq<Row>, i: nat, db: CommandOracle, env: Environment)
    requires i < |rows|
    requires Survives(op.policy, ResultAt(op, rows, db, i))
    ensures Loop(op, rows, i, db, env).effects == SurvivorEffects(op, rows, db, i) + Loop(op, rows, i + 1, db, env).effects
    ensures Loop(op, rows, i, db, env).outcome == Loop(op, rows, i + 1, db, env).outcome
  {
  }

  /** Reference: the commands prepared from rows `i` up to (not including) `n`, in row order. */
  function PreparedRange(op: Operation, rows: seq<Row>, i: nat, n: nat): (cs: seq<Command>)
    requires i <= n <= |rows|
    decreases n - i
  {
    if i == n then [] else [PreparedAt(op, rows, i)] + PreparedRange(op, rows, i + 1, n)
  }

  lemma {:induction false} PreparedRangeIsPointwise(op: Operation, rows: seq<Row>, i: nat, n: nat)
    requires i <= n <= |rows|
    ensures |PreparedRange(op, rows, i, n)| == n - i
    ensures forall k :: 0 <= k < n - i ==> PreparedRange(op, rows, i, n)[k] == op.prepare(NewCommand(), rows[i + k])
    decreases n - i
  {
    if i < n {
      PreparedRangeIsPointwise(op, rows, i + 1, n);
      forall k | 0 < k < n - i
        ensures PreparedRange(op, rows, i, n)[k] == op.prepare(NewCommand(), rows[i + k])
      {
        assert PreparedRange(op, rows, i, n)[k] == PreparedRange(op, rows, i + 1, n)[k - 1];
      }
    }
  }

  /** When every row survives, the loop executes each row's command once, in
      row order. */
  lemma {:induction false} LoopCommandsCompleted(op: Operation, rows: seq<Row>, i: nat, db: CommandOracle, env: Environment)
    requires i <= |rows|
    requires AllSurviveFrom(op, rows, db, i)
    ensures Commands(Loop(op, rows, i, db, env).effects) == PreparedRange(op, rows, i, |rows|)
    decreases |rows| - i
  {
    if i < |rows| {
      LoopCommandsCompleted(op, rows, i + 1, db, env);
      var rest := Loop(op, rows, i + 1, db, env).effects;
      var head := SurvivorEffects(op, rows, db, i);
      LoopStep(op, rows, i, db, env);
      CommandsConcat(head, rest);
      assert Commands(head) == [PreparedAt(op, rows, i)];
    } else {
      assert Commands(Finish(env).effects) == [];
    }
  }

  /** When every row survives, the loop ends with exactly the effects of the
      final decision, makes no other decision, and traces one message per
      swallowed violation. */
  lemma {:induction false} LoopEndsWithFinish(op: Operation, rows: seq<Row>, i: nat, db: CommandOracle, env: Environment)
    requires i <= |rows|
    requires AllSurviveFrom(op, rows, db, i)
    ensures var es := Loop(op, rows, i, db, env).effects;
      && |Finish(env).effects| <= |es|
      && es[|es| - |Finish(env).effects|..] == Finish(env).effects
      && Decisions(es) == Decisions(Finish(env).effects)
      && Ignored(es) == ViolationsFrom(op, rows, db, i)
    decreases |rows| - i
  {
    var es := Loop(op, rows, i, db, env).effects;
    if i < |rows| {
      LoopEndsWithFinish(op, rows, i + 1, db, env);
      var rest := Loop(op, rows, i + 1, db, env).effects;
      var head := SurvivorEffects(op, rows, db, i);
      LoopStep(op, rows, i, db, env);
      DecisionsConcat(head, rest);
      IgnoredConcat(head, rest);
      assert es[|es| - |Finish(env).effects|..] == rest[|rest| - |Finish(env).effects|..];
    } else {
      assert Ignored(es) == 0 by {
        assert es == [] || es == [Rollback] || es == [Commit];
      }
    }
  }


  /** Number of rows from `i` on whose command hit a primary key violation. */
  function ViolationsFrom(op: Operation, rows: seq<Row>, db: CommandOracle, i: nat): (n: nat)
    requires i <= |rows|
    decreases |rows| - i
  {
    if i == |rows| then 0
    else
      var res := ResultAt(op, rows, db, i);
      (if res.Failed? && IsPrimaryKeyViolation(res.error) then 1 else 0)
        + ViolationsFrom(op, rows, db, i + 1)
  }

  /** A completed run executed exactly one command per row, in row order,
      each prepared from a fresh command with the one-hour timeout. */
  lemma CompletedRunCommands(op: Operation, rows: seq<Row>, db: CommandOracle, env: Environment)
    requires Execute(op, rows, db, env).outcome == Completed
    ensures var es := Execute(op, rows, db, env).effects;
      && |Commands(es)| == |rows|
      && (forall j :: 0 <= j < |rows| ==> Commands(es)[j] == op.prepare(Command("", [], 3600), rows[j]))
  {
    var loop := Loop(op, rows, 0, db, env).effects;
    LoopOutcome(op, rows, 0, db, env);
    LoopCommandsCompleted(op, rows, 0, db, env);
    PreparedRangeIsPointwise(op, rows, 0, |rows|);
    CommandsConcat([Opened], loop);
    assert Commands([Opened]) == [];
    assert Commands([Opened] + loop) == Commands(loop);
  }

  /** A completed run traced one message per swallowed violation, and decided
      once from the pipeline flag alone, however many violations it swallowed. */
  lemma CompletedRunDecision(op: Operation, rows: seq<Row>, db: CommandOracle, env: Environment)
    requires Execute(op, rows, db, env).outcome == Completed
    ensures var es := Execute(op, rows, db, env).effects;
      && Ignored(es) == ViolationsFrom(op, rows, db, 0)
      && (env.pipelineHasErrors ==> es[|es| - 1] == Rollback && Decisions(es) == 1)
      && (!env.pipelineHasErrors && env.transactionPresent ==> es[|es| - 1] == Commit && Decisions(es) == 1)
      && (!env.pipelineHasErrors && !env.transactionPresent ==> Decisions(es) == 0)
  {
    var loop := Loop(op, rows, 0, db, env).effects;
    LoopOutcome(op, rows, 0, db, env);
    LoopEndsWithFinish(op, rows, 0, db, env);
    DecisionsConcat([Opened], loop);
    IgnoredConcat([Opened], loop);
    var es := Execute(op, rows, db, env).effects;
    assert es == [Opened] + loop;
    var f := Finish(env).effects;
    if f != [] {
      assert es[|es| - 1] == loop[|loop| - 1];
      assert loop[|loop| - 1] == loop[|loop| - |f|..][|f| - 1];
      assert f[|f| - 1] == (if env.pipelineHasErrors then Rollback else Commit);
    }
  }

  /** Processing stops at the first row whose failure is not tolerated: that
      error reaches the caller, later rows are neither prepared nor executed,
      and neither commit nor rollback happens. */
  lemma {:induction false} LoopStopsAtFirstFatal(op: Operation, rows: seq<Row>, i: nat, j: nat, db: CommandOracle, env: Environment)
    requires i <= j < |rows|
    requires forall k :: i <= k < j ==> Survives(op.policy, ResultAt(op, rows, db, k))
    requires !Survives(op.policy, ResultAt(op, rows, db, j))
    ensures var r := Loop(op, rows, i, db, env);
      && r.outcome == Aborted(ResultAt(op, rows, db, j).error)
      && Commands(r.effects) == PreparedRange(op, rows, i, j + 1)
      && Decisions(r.effects) == 0
    decreases j - i
  {
    var cmd := PreparedAt(op, rows, i);
    var es := Loop(op, rows, i, db, env).effects;
    if i == j {
      assert es == [ExecuteCommand(cmd, db(i, cmd))];
      assert PreparedRange(op, rows, i + 1, j + 1) == [];
    } else {
      LoopStopsAtFirstFatal(op, rows, i + 1, j, db, env);
      var rest := Loop(op, rows, i + 1, db, env).effects;
      var head := SurvivorEffects(op, rows, db, i);
      LoopStep(op, rows, i, db, env);
      CommandsConcat(head, rest);
      DecisionsConcat(head, rest);
      assert Commands(head) == [cmd];
    }
  }

  /** The same, for a whole run. */
  lemma StopsAtFirstFatal(op: Operation, rows: seq<Row>, j: nat, db: CommandOracle, env: Environment)
    requires j < |rows|
    requires forall k :: 0 <= k < j ==> Survives(op.policy, ResultAt(op, rows, db, k))
    requires !Survives(op.policy, ResultAt(op, rows, db, j))
    ensures var r := Execute(op, rows, db, env);
      && r.outcome == Aborted(ResultAt(op, rows, db, j).error)
      && |Commands(r.effects)| == j + 1
      && (forall k :: 0 <= k <= j ==> Commands(r.effects)[k] == op.prepare(Command("", [], 3600), rows[k]))
      && Decisions(r.effects) == 0
  {
    var loop := Loop(op, rows, 0, db, env).effects;
    LoopStopsAtFirstFatal(op, rows, 0, j, db, env);
    PreparedRangeIsPointwise(op, rows, 0, j + 1);
    CommandsConcat([Opened], loop);
    DecisionsConcat([Opened], loop);
    assert Commands([Opened]) == [];
    assert Commands([Opened] + loop) == Commands(loop);
  }

  /** Under `Ignore`, exactly the SQL exceptions numbered 2627 are tolerated:
      any other SQL exception number, and any other kind of exception, is fatal. */
  lemma IgnoreToleratesOnlyPrimaryKeyViolations(res: ExecResult)
    ensures Survives(Ignore, res) <==> res.Affected? || res == Failed(SqlException(2627))
  {
  }

  /** Under `Throw`, every failure is fatal. */
  lemma ThrowToleratesNothing(res: ExecResult)
    ensures Survives(Throw, res) <==> res.Affected?
  {
  }

  /** Under `Throw`, the first failing row ends the run with its error, and
      no later row is prepared. */
  lemma ThrowStopsAtFirstFailure(op: Operation, rows: seq<Row>, j: nat, db: CommandOracle, env: Environment)
    requires op.policy == Throw && j < |rows|
    requires forall k :: 0 <= k < j ==> ResultAt(op, rows, db, k).Affected?
    requires ResultAt(op, rows, db, j).Failed?
    ensures var r := Execute(op, rows, db, env);
      && r.outcome == Aborted(ResultAt(op, rows, db, j).error)
      && |Commands(r.effects)| == j + 1
      && Decisions(r.effects) == 0
  {
    StopsAtFirstFatal(op, rows, j, db, env);
  }

  /** One row whose command hits a primary key violation, under `Ignore`,
      with a clean pipeline and a transaction: nothing is written, the
      violation is traced, and the transaction still commits. */
  lemma SkippedViolationStillCommits(op: Operation, row: Row, db: CommandOracle, env: Environment)
    requires op.policy == Ignore
    requires db(0, op.prepare(NewCommand(), row)) == Failed(SqlException(2627))
    requires !env.pipelineHasErrors && env.transactionPresent
    ensures var r := Execute(op, [row], db, env);
      && r.outcome == Completed
      && Ignored(r.effects) == 1
      && r.effects[|r.effects| - 1] == Commit
  {
    CompletesIff(op, [row], db, env);
    CompletedRunDecision(op, [row], db, env);
  }
}
