# Rhino ETL write sinks, modelled in Dafny

This project models the two terminal write stages of the Rhino ETL pipeline
and the policy one of them consults:

- `OutputCommandOperation` (unbatched sink): for every row, a fresh command
  with a one-hour timeout is created, filled in by the concrete operation's
  `PrepareCommand` hook and executed. Under the `Ignore` policy, a
  `SqlException` numbered 2627 (PRIMARY KEY violation) is traced and
  swallowed. Every other failure reaches the caller. When the rows run out,
  the pipeline-wide `HasErrors` flag decides between rollback and commit.
- `SqlBatchOperation` (batched sink): a null row sequence is refused with an
  `ArgumentException` before anything is opened. Each row's command gets a
  synthetic parameter if it has none, and is appended to a `SqlCommandSet`.
  The set is executed, counted into the output-row statistics and replaced
  once it holds `BatchSize` commands (default 50). When the rows run out, one
  more set is always executed, even an empty one. Then comes the same
  commit-or-rollback decision. Every set carries the configured `Timeout`
  (default 30). Any failing execution aborts the run.
- `PrimaryKeyViolationBehaviour`: the two-valued `Ignore` / `Throw` policy.

Each sink is a pure function from its inputs to a `Run`. A `Run` holds the
ordered effects (`Opened`, `ExecuteCommand`, `IgnoredViolation`,
`ExecuteBatch`, `AddOutputRows`, `Commit`, `Rollback`), how the run ended
(`Completed` or `Aborted(error)`), and the rows it yields (always none).

The inputs are:

- the rows;
- the operation's configuration and its `PrepareCommand` hook, as a function;
- an oracle giving the database's answer to each execution, indexed by row
  (unbatched) or by flush number (batched);
- an `Environment` saying whether `BeginTransaction` produced a transaction,
  and what `PipelineExecuter.HasErrors` reads at the end.

The batched sink's grouping is proved equal to an independent reference,
`Chunking.Chunks`. `Chunks` cuts a sequence into full pieces of
`k = max(BatchSize, 1)` and one trailing piece of the remainder. The
reference lemmas `Chunking.ChunksFlatten` and `Chunking.ChunksShape` give
the flush count and the batch sizes.

Files: `effects.dfy` (shared types and trace summaries), `chunking.dfy`,
`primary_key_violation_behaviour.dfy`, `output_command_operation.dfy`,
`sql_batch_operation.dfy`.

Two behaviours of the code are worth stating plainly:

- The batched sink flushes inside the loop whenever the set's count reaches
  `BatchSize`, then flushes once more after the loop
  (`Rhino.Etl.Core/Operations/SqlBatchOperation.cs:68-75`). Over `n` rows that
  makes `floor(n / k) + 1` round trips for `k = max(BatchSize, 1)`: 120 rows
  at batch size 50 give sets of 50, 50 and 20, and 100 rows give 50, 50 and
  an empty set.
- `SqlBatchOperation` guards both its commit and its rollback against an
  absent transaction (`SqlBatchOperation.cs:80, 86`). `OutputCommandOperation`
  guards only the commit (`OutputCommandOperation.cs:79, 85`), so its rollback
  on an absent transaction is modelled as an abort with a null reference
  error.

## Model

| member | source | states |
|---|---|---|
| PrimaryKeyViolationBehaviour.OnViolation | Rhino.Etl.Core/Operations/PrimaryKeyViolationBehaviour.cs:12-22 | there are exactly two policies: `Ignore` skips the violating row and continues, `Throw` lets the exception reach the caller |
| OutputCommandOperation.Create | Rhino.Etl.Core/Operations/OutputCommandOperation.cs:30-34 | a newly constructed sink has the `Throw` policy |
| OutputCommandOperation.NewCommand | Rhino.Etl.Core/Operations/OutputCommandOperation.cs:48-50 | the command created for each row starts with no parameters and a 3600-second timeout |
| OutputCommandOperation.Execute | Rhino.Etl.Core/Operations/OutputCommandOperation.cs:41-46 | the connection and transaction are opened once, first, and never again; the sink yields no rows |
| OutputCommandOperation.Loop | Rhino.Etl.Core/Operations/OutputCommandOperation.cs:46-87 | the row loop followed by the decision; its own contract states only that it yields no rows. Its behaviour is pinned down by `LoopStep`, `LoopOutcome`, `LoopCommandsCompleted`, `LoopEndsWithFinish` and `LoopStopsAtFirstFatal` |
| OutputCommandOperation.FinishDecision | Rhino.Etl.Core/Operations/OutputCommandOperation.cs:76-87 | states what `Finish` does, which has no contract of its own: at most one decision; a rollback exactly when the pipeline has errors and a transaction exists; a commit exactly when there are no errors and a transaction exists; an abort with a null reference exactly when the unguarded rollback meets an absent transaction; no rows yielded |
| OutputCommandOperation.LoopNeverReopens | Rhino.Etl.Core/Operations/OutputCommandOperation.cs:43-46 | nothing inside the row loop opens a connection or transaction |
| OutputCommandOperation.LoopStep | Rhino.Etl.Core/Operations/OutputCommandOperation.cs:46-75 | a row whose result is a success or a tolerated violation leaves its execution (and trace message) and continues with the next row |
| OutputCommandOperation.LoopOutcome | Rhino.Etl.Core/Operations/OutputCommandOperation.cs:46-87 | if every remaining row survives, the loop ends as the final decision does; otherwise it aborts |
| OutputCommandOperation.CompletesIff | Rhino.Etl.Core/Operations/OutputCommandOperation.cs:46-87 | a run completes if and only if every row's result is a success or a violation the policy tolerates, and the rollback does not meet an absent transaction |
| OutputCommandOperation.RollbackWithoutTransaction | Rhino.Etl.Core/Operations/OutputCommandOperation.cs:76-81 | the rollback is unguarded: pipeline errors with no transaction end in a null reference error, with no decision made |
| OutputCommandOperation.PreparedRangeIsPointwise | Rhino.Etl.Core/Operations/OutputCommandOperation.cs:48-53 | the reference list holds, for each row, the hook applied to a fresh 3600-second command and that row |
| OutputCommandOperation.LoopCommandsCompleted | Rhino.Etl.Core/Operations/OutputCommandOperation.cs:46-75 | when every row survives, the executed commands are exactly the prepared commands of the remaining rows, in row order |
| OutputCommandOperation.LoopEndsWithFinish | Rhino.Etl.Core/Operations/OutputCommandOperation.cs:55-87 | when every row survives, the trace ends with the final decision's effects, holds no other decision, and has one trace message per swallowed violation |
| OutputCommandOperation.CompletedRunCommands | Rhino.Etl.Core/Operations/OutputCommandOperation.cs:46-53 | a completed run executed one command per row, in row order, each one the hook applied to a fresh 3600-second command |
| OutputCommandOperation.CompletedRunDecision | Rhino.Etl.Core/Operations/OutputCommandOperation.cs:55-87 | a completed run traced each swallowed violation, then ended with exactly one rollback (pipeline errors) or one commit (no errors, transaction present), or no decision (no errors, no transaction), however many violations were swallowed |
| OutputCommandOperation.LoopStopsAtFirstFatal | Rhino.Etl.Core/Operations/OutputCommandOperation.cs:55-73 | from any row on, the first untolerated failure aborts with its own error, after executing exactly the rows up to it, with no decision |
| OutputCommandOperation.StopsAtFirstFatal | Rhino.Etl.Core/Operations/OutputCommandOperation.cs:55-73 | the first untolerated failure reaches the caller; later rows are neither prepared nor executed; neither commit nor rollback happens |
| OutputCommandOperation.IgnoreToleratesOnlyPrimaryKeyViolations | Rhino.Etl.Core/Operations/OutputCommandOperation.cs:55-68 | under `Ignore`, a result lets processing go on exactly when it is a success or a `SqlException` numbered 2627; other numbers and non-SQL exceptions are fatal |
| OutputCommandOperation.ThrowToleratesNothing | Rhino.Etl.Core/Operations/OutputCommandOperation.cs:70-73 | under `Throw`, every failure is fatal |
| OutputCommandOperation.ThrowStopsAtFirstFailure | Rhino.Etl.Core/Operations/OutputCommandOperation.cs:70-73 | under `Throw`, the first failing row aborts the run with its error after exactly that many executions, with no decision |
| OutputCommandOperation.SkippedViolationStillCommits | Rhino.Etl.Core/Operations/OutputCommandOperation.cs:55-87 | a single row that hits a primary key violation under `Ignore`, with no pipeline errors, is traced and skipped, and the transaction still commits |
| SqlBatchOperation.Create | Rhino.Etl.Core/Operations/SqlBatchOperation.cs:19-24 | `BatchSize` defaults to 50 and `Timeout` to 30 |
| SqlBatchOperation.Capacity | Rhino.Etl.Core/Operations/SqlBatchOperation.cs:68 | a set is flushed when its count reaches `BatchSize`, so it never holds more than `max(BatchSize, 1)` commands: `BatchSize` itself when positive, one otherwise |
| SqlBatchOperation.WithParameterWorkaround | Rhino.Etl.Core/Operations/SqlBatchOperation.cs:62-66 | a parameterless command gets exactly one fresh parameter and is otherwise unchanged; a command with parameters is untouched |
| SqlBatchOperation.CreateCommandSet | Rhino.Etl.Core/Operations/SqlBatchOperation.cs:101-110 | every new command set starts empty with the configured timeout |
| SqlBatchOperation.Execute | Rhino.Etl.Core/Operations/SqlBatchOperation.cs:50-88 | a null row sequence fails with an `ArgumentException` and no effect at all, so nothing was opened; otherwise opening comes first and never happens again; no rows are yielded |
| SqlBatchOperation.LoopNeverReopens | Rhino.Etl.Core/Operations/SqlBatchOperation.cs:58-88 | from any loop state, neither the flushes nor the final decision open a connection or transaction |
| SqlBatchOperation.Loop | Rhino.Etl.Core/Operations/SqlBatchOperation.cs:58-88 | the loop, the trailing flush and the decision; its own contract states only that it yields no rows. Its behaviour is pinned down by `LoopChunks`, `LoopPrefix`, `LoopAsksDatabase`, `LoopStatistics`, `LoopCompletesIff`, `LoopCompletedEnding` and `LoopAbortedEnding` |
| SqlBatchOperation.FinishDecision | Rhino.Etl.Core/Operations/SqlBatchOperation.cs:77-88 | states what `Finish` does, which has no contract of its own: at most one decision; a rollback exactly when a transaction exists and the pipeline has errors; a commit exactly when a transaction exists and there are none. Both are guarded, so an absent transaction gives no decision |
| SqlBatchOperation.LoopAsksDatabase | Rhino.Etl.Core/Operations/SqlBatchOperation.cs:68-75 | from any loop state, the `n`-th set the loop executes is sent to the database as round trip `flushes + n`, and the recorded answer is the database's answer to that set |
| SqlBatchOperation.AnsweredRowsAreDatabaseRows | Rhino.Etl.Core/Operations/SqlBatchOperation.cs:70-75 | when every recorded answer is the database's, the recorded affected-row counts add up to the counts the database reported |
| SqlBatchOperation.PreparedIsPointwise | Rhino.Etl.Core/Operations/SqlBatchOperation.cs:58-67 | the reference list has one command per row, in row order: the hook's command after the parameter workaround |
| SqlBatchOperation.PreparedStep | Rhino.Etl.Core/Operations/SqlBatchOperation.cs:58-67 | the prepared commands of the remaining rows start with the current row's command |
| SqlBatchOperation.LoopBatchesWellFormed | Rhino.Etl.Core/Operations/SqlBatchOperation.cs:57-75 | from any loop state, every executed set has the configured timeout, at most `max(BatchSize, 1)` commands, and only commands with a parameter |
| SqlBatchOperation.LoopStatistics | Rhino.Etl.Core/Operations/SqlBatchOperation.cs:68-75 | from any loop state, the statistics grow by exactly the affected rows recorded for the successful executions; `LoopAsksDatabase` makes those the database's answers |
| SqlBatchOperation.LoopCompletesIff | Rhino.Etl.Core/Operations/SqlBatchOperation.cs:58-88 | from any loop state, the loop completes if and only if no recorded batch answer is a failure; `LoopAsksDatabase` makes those the database's answers |
| SqlBatchOperation.LoopCompletedEnding | Rhino.Etl.Core/Operations/SqlBatchOperation.cs:75-88 | a completed loop ends with the final decision's effects and makes no other decision |
| SqlBatchOperation.LoopAbortedEnding | Rhino.Etl.Core/Operations/SqlBatchOperation.cs:68-75 | an aborted loop ends with the failed execution and makes no decision |
| SqlBatchOperation.LoopStopsAtFirstFailure | Rhino.Etl.Core/Operations/SqlBatchOperation.cs:68-75 | from any loop state, every executed set but the last was answered with a success: a failing `ExecuteNonQuery` ends the loop, and nothing is executed after it |
| SqlBatchOperation.LoopChunks | Rhino.Etl.Core/Operations/SqlBatchOperation.cs:58-75 | from a state holding fewer than `max(BatchSize, 1)` pending commands, the executed sets are an initial run of the reference chunks of the pending commands followed by the remaining rows' commands, whatever the outcome, and all of those chunks when the loop completes |
| SqlBatchOperation.FlushChunks | Rhino.Etl.Core/Operations/SqlBatchOperation.cs:67-73 | from a state where the current row's command fills the set, the executed sets are an initial run of the reference chunks of the pending commands followed by the remaining rows' commands, and all of them on completion |
| SqlBatchOperation.LoopPrefix | Rhino.Etl.Core/Operations/SqlBatchOperation.cs:58-75 | from any loop state, the executed commands form an initial segment of the pending commands followed by the remaining rows' commands |
| SqlBatchOperation.TrailingFlushPrefix | Rhino.Etl.Core/Operations/SqlBatchOperation.cs:75 | the trailing flush executes exactly the pending set, whatever it holds, and is the only set executed once the rows have run out |
| SqlBatchOperation.FlushPrefix | Rhino.Etl.Core/Operations/SqlBatchOperation.cs:67-73 | from a state where the current row's command fills the set, the executed commands are an initial segment of the pending commands followed by the remaining rows' commands: the flush drops and reorders nothing |
| SqlBatchOperation.ExecutedBatchesWellFormed | Rhino.Etl.Core/Operations/SqlBatchOperation.cs:62-73 | in any run, every executed set has the configured timeout, at most `max(BatchSize, 1)` commands, and only commands with at least one parameter |
| SqlBatchOperation.DatabaseAnswers | Rhino.Etl.Core/Operations/SqlBatchOperation.cs:68-75 | in any run, the `n`-th executed set is the `n`-th batch, it is the database's `n`-th round trip, and the recorded answer is the database's answer to it |
| SqlBatchOperation.StatisticsAreAffectedRows | Rhino.Etl.Core/Operations/SqlBatchOperation.cs:70-75 | the output-row statistics equal the sum of the affected-row counts of all successful executions, the trailing one included: the counts the database reported for the sets it was sent, in order |
| SqlBatchOperation.CompletesIffBatchesSucceed | Rhino.Etl.Core/Operations/SqlBatchOperation.cs:68-88 | a run completes if and only if the database answered every set it was sent with a success, and so no batch failed, whatever the failure (no violation policy applies). It then ends with exactly one rollback (pipeline errors) or commit (otherwise) when a transaction exists, and with none when it does not. An aborted run stopped at the first set the database refused: every earlier set was answered with a success; it ends with the failed execution and decides nothing |
| SqlBatchOperation.AbortsAtFirstRefusal | Rhino.Etl.Core/Operations/SqlBatchOperation.cs:68-75 | an aborted run executed at least one set; the database answered every set before the last with a success, and refused the last one with exactly the error that reaches the caller |
| SqlBatchOperation.BatchesAreChunks | Rhino.Etl.Core/Operations/SqlBatchOperation.cs:58-75 | a completed run executes exactly the reference chunks of the prepared commands |
| SqlBatchOperation.BatchesArePrefixOfChunks | Rhino.Etl.Core/Operations/SqlBatchOperation.cs:58-75 | in any run, completed or aborted, the executed sets are an initial run of the reference chunks of the prepared commands, so every in-loop flush held exactly `max(BatchSize, 1)` commands |
| SqlBatchOperation.FlushCount | Rhino.Etl.Core/Operations/SqlBatchOperation.cs:68-75 | a completed run over `n` rows executes `n / k + 1` sets for `k = max(BatchSize, 1)`: all but the last hold `k` commands, and the last holds `n % k` |
| SqlBatchOperation.OrderPreserved | Rhino.Etl.Core/Operations/SqlBatchOperation.cs:58-75 | the executed commands are always an initial segment of the prepared commands in row order, and all of them in a completed run |
| SqlBatchOperation.HundredTwentyRows | Rhino.Etl.Core/Operations/SqlBatchOperation.cs:68-75 | 120 rows at batch size 50 give sets of 50, 50 and 20 |
| SqlBatchOperation.HundredRows | Rhino.Etl.Core/Operations/SqlBatchOperation.cs:68-75 | 100 rows at batch size 50 give sets of 50, 50 and an empty one |

## Left out

- Connection and configuration lookup (`Use.Connection`, `ConfigurationManager.ConnectionStrings`, `BeginTransaction`) is environment access. It is represented by one `Opened` effect, plus an input saying whether a transaction came back.
- Opening the connection, beginning the transaction, `transaction.Commit()` and `transaction.Rollback()` are modelled as never failing (`SqlBatchOperation.cs:53-54, 80, 86`, `OutputCommandOperation.cs:43-44, 79, 85`). Their own exceptions, such as a lost connection at commit time, are not modelled: a run the model reports as `Completed` could still fail at that point. The only such failure modelled is the unbatched sink's rollback on an absent transaction, which the code itself causes.
- `SqlCommandSet`, `SqlCommand` and the actual SQL execution are framework code. An oracle stands in for them, indexed by row or by flush number. Any change in database state between executions is folded into that oracle.
- The `PrepareCommand` hook is a total function and is assumed never to throw. In the source, an exception from the hook (`OutputCommandOperation.cs:53`, `SqlBatchOperation.cs:61`) lies outside the `try` around `ExecuteNonQuery` (`OutputCommandOperation.cs:57-68`), so it would reach the caller even under `Ignore`, even for number 2627.
- `Guid.NewGuid()` naming of the synthetic parameter is non-deterministic. It is modelled as the single constructor `FreshParam`.
- The `paramPrefix` set in the batched sink's constructor, and attaching each command to the connection and the transaction, are not modelled. The model has only one transaction.
- `SingleRowEventRaisingEnumerator` is not part of this model, and neither are its row events. The unbatched sink therefore takes its rows as a sequence and has no null case.
- `Trace`, `Debug` and `Warn` messages are logging and are left out. The one exception is the `IgnoredViolation` marker, which is kept so that each swallowed violation stays visible.
- `Statistics` is modelled only as `AddOutputRows` effects and their sum.
- `PipelineExecuter.HasErrors` is ambient state that sibling stages may set concurrently. It is taken as one boolean read at the end.
- Iterator laziness (`yield break`) and `using` disposal are runtime mechanics. In the source, the null-rows guard runs when enumeration starts. An aborted run is recorded only by its `Aborted` outcome, with no rollback effect.
- `BatchSize`, `Timeout` and affected-row counts are unbounded integers. Thirty-two-bit overflow of the statistics sum is not modelled.
- The unbatched sink discards the value returned by `ExecuteNonQuery` and updates no statistics. The model records each result in its `ExecuteCommand` effect only.
