/**
 The batched sink: every row becomes a command, commands are appended to a
 command set that is executed as one round trip and replaced once it holds
 `BatchSize` commands, one last set is always executed when the rows run
 out, and a single commit-or-rollback decision follows, taken from the
 pipeline-wide error flag. Any failing execution aborts the run.
 */
module SqlBatchOperation {
  import opened Effects
  import opened Chunking

  const DefaultBatchSize := 50
  const DefaultTimeout := 30

  /** One concrete sink: its `PrepareCommand` hook, and its `BatchSize` and
      `Timeout` properties (C# `int`s, so possibly zero or negative). */
  datatype Operation = Operation(prepare: Row -> Command, batchSize: int, timeout: int)

  /** The database: what executing the `n`-th command set of the run returns. */
  type BatchOracle = (nat, CommandSet) -> ExecResult

  /** A sink built with the constructor keeps the property defaults. */
  function Create(prepare: Row -> Command): (op: Operation)
    ensures op.batchSize == 50 && op.timeout == 30 && op.prepare == prepare
  {
    Operation(prepare, DefaultBatchSize, DefaultTimeout)
  }

  /** The most commands an executed set can hold. A set is flushed as soon as
      its count reaches `BatchSize`, so a `BatchSize` below one flushes every
      command on its own. */
  function Capacity(op: Operation): (k: nat)
    ensures k >= 1 && k >= op.batchSize
    ensures op.batchSize >= 1 ==> k == op.batchSize
    ensures op.batchSize < 1 ==> k == 1
  {
    if op.batchSize >= 1 then op.batchSize else 1
  }

  /** A workaround for a framework bug with parameterless commands in a
      command set: a command that came back from the hook without parameters
      gets one fresh, uniquely named parameter; any other command is left alone. */
  function WithParameterWorkaround(c: Command): (r: Command)
    ensures |r.params| >= 1
    ensures |c.params| == 0 ==> r.params == [FreshParam] && r.text == c.text && r.timeout == c.timeout
    ensures |c.params| >= 1 ==> r == c
  {
    if |c.params| == 0 then c.(params := [FreshParam]) else c
  }

  /** `CreateCommandSet`: a new, empty set carrying the configured timeout. */
  function CreateCommandSet(timeout: int): (s: CommandSet)
    ensures s.commands == [] && s.timeout == timeout
  {
    CommandSet([], timeout)
  }

  /** Reference: the commands the rows turn into, one per row, in row order. */
  function Prepared(op: Operation, rows: seq<Row>): (cs: seq<Command>)
  {
    if rows == [] then [] else [WithParameterWorkaround(op.prepare(rows[0]))] + Prepared(op, rows[1..])
  }

  /** Both the commit and the rollback are skipped when there is no transaction. */
  function Finish(env: Environment): (es: seq<Effect>)
  {
    if !env.transactionPresent then []
    else if env.pipelineHasErrors then [Rollback]
    else [Commit]
  }

  /** The decision: a rollback exactly when a transaction exists and the
      pipeline has errors, a commit exactly when a transaction exists and it
      has none, and at most one of them. */
  lemma FinishDecision(env: Environment)
    ensures |Finish(env)| <= 1
    ensures Rollback in Finish(env) <==> env.transactionPresent && env.pipelineHasErrors
    ensures Commit in Finish(env) <==> env.transactionPresent && !env.pipelineHasErrors
  {
  }

  /** The `foreach` over the rows from index `i` on, with `current` the command
      set being filled and `flushes` the number of sets executed so far; then
      the trailing flush and the final decision. */
  function Loop(op: Operation, rows: seq<Row>, i: nat, current: CommandSet, flushes: nat,
                db: BatchOracle, env: Environment): (r: Run)
    requires i <= |rows|
    ensures r.yielded == []
    decreases |rows| - i
  {
    if i == |rows| then
      var res := db(flushes, current);
      match res
      case Failed(e) => Run([ExecuteBatch(current, res)], Aborted(e), [])
      case Affected(n) => Run([ExecuteBatch(current, res), AddOutputRows(n)] + Finish(env), Completed, [])
    else
      var appended := current.(commands := current.commands + [WithParameterWorkaround(op.prepare(rows[i]))]);
      if |appended.commands| >= op.batchSize then
        var res := db(flushes, appended);
        match res
        case Failed(e) => Run([ExecuteBatch(appended, res)], Aborted(e), [])
        case Affected(n) =>
          Prepend([ExecuteBatch(appended, res), AddOutputRows(n)],
                  Loop(op, rows, i + 1, CreateCommandSet(op.timeout), flushes + 1, db, env))
      else
        Loop(op, rows, i + 1, appended, flushes, db, env)
  }

  /** `Execute`: a null row sequence is refused before the connection and the
      transaction are opened; otherwise the loop runs on a fresh command set. */
  function Execute(op: Operation, rows: Option<seq<Row>>, db: BatchOracle, env: Environment): (r: Run)
    ensures rows.None? ==> r.effects == [] && r.outcome == Aborted(ArgumentException)
    ensures rows.Some? ==> |r.effects| >= 1 && r.effects[0] == Opened
    ensures rows.Some? ==> forall j :: 1 <= j < |r.effects| ==> r.effects[j] != Opened
    ensures r.yielded == []
  {
    match rows
    case None => Run([], Aborted(ArgumentException), [])
    case Some(rs) =>
      var loop := Loop(op, rs, 0, CreateCommandSet(op.timeout), 0, db, env);
      LoopNeverReopens(op, rs, 0, CreateCommandSet(op.timeout), 0, db, env);
      Prepend([Opened], loop)
  }

  /** The loop never opens the connection a second time. */
  lemma {:induction false} LoopNeverReopens(op: Operation, rows: seq<Row>, i: nat, current: CommandSet, flushes: nat,
                                            db: BatchOracle, env: Environment)
    requires i <= |rows|
    ensures forall j :: 0 <= j < |Loop(op, rows, i, current, flushes, db, env).effects| ==>
              Loop(op, rows, i, current, flushes, db, env).effects[j] != Opened
    decreases |rows| - i
  {
    if i < |rows| {
      var appended := current.(commands := current.commands + [WithParameterWorkaround(op.prepare(rows[i]))]);
      if |appended.commands| >= op.batchSize {
        var res := db(flushes, appended);
        if res.Affected? {
          var next := Loop(op, rows, i + 1, CreateCommandSet(op.timeout), flushes + 1, db, env);
          LoopNeverReopens(op, rows, i + 1, CreateCommandSet(op.timeout), flushes + 1, db, env);
          assert Loop(op, rows, i, current, flushes, db, env).effects
              == [ExecuteBatch(appended, res), AddOutputRows(res.count)] + next.effects;
        }
      } else {
        LoopNeverReopens(op, rows, i + 1, appended, flushes, db, env);
      }
    }
  }

  // ---------------------------------------------------------------------
  // The reference list of prepared commands

  lemma {:induction false} PreparedIsPointwise(op: Operation, rows: seq<Row>)
    ensures |Prepared(op, rows)| == |rows|
    ensures forall j :: 0 <= j < |rows| ==> Prepared(op, rows)[j] == WithParameterWorkaround(op.prepare(rows[j]))
    decreases |rows|
  {
    if rows != [] {
      PreparedIsPointwise(op, rows[1..]);
      forall j | 0 < j < |rows|
        ensures Prepared(op, rows)[j] == WithParameterWorkaround(op.prepare(rows[j]))
      {
        assert Prepared(op, rows)[j] == Prepared(op, rows[1..])[j - 1];
      }
    }
  }

  lemma PreparedStep(op: Operation, rows: seq<Row>, i: nat)
    requires i < |rows|
    ensures Prepared(op, rows[i..]) == [WithParameterWorkaround(op.prepare(rows[i]))] + Prepared(op, rows[i + 1..])
  {
    assert rows[i..][1..] == rows[i + 1..];
  }

  // ---------------------------------------------------------------------
  // Properties of the loop, from any state it can be in

  /** An executed set carries the configured timeout, holds at most
      `Capacity` commands, and each of its commands has a parameter. */
  predicate WellFormedBatch(op: Operation, s: CommandSet)
  {
    && s.timeout == op.timeout
    && |s.commands| <= Capacity(op)
    && forall c :: c in s.commands ==> |c.params| >= 1
  }

  predicate AllBatchesWellFormed(op: Operation, es: seq<Effect>)
  {
    forall j :: 0 <= j < |es| && es[j].ExecuteBatch? ==> WellFormedBatch(op, es[j].batch)
  }

  lemma {:induction false} LoopBatchesWellFormed(op: Operation, rows: seq<Row>, i: nat, current: CommandSet, flushes: nat,
                                                 db: BatchOracle, env: Environment)
    requires i <= |rows|
    requires current.timeout == op.timeout && |current.commands| < Capacity(op)
    requires forall c :: c in current.commands ==> |c.params| >= 1
    ensures AllBatchesWellFormed(op, Loop(op, rows, i, current, flushes, db, env).effects)
    decreases |rows| - i
  {
    if i < |rows| {
      var appended := current.(commands := current.commands + [WithParameterWorkaround(op.prepare(rows[i]))]);
      if |appended.commands| >= op.batchSize {
        LoopBatchesWellFormed(op, rows, i + 1, CreateCommandSet(op.timeout), flushes + 1, db, env);
      } else {
        LoopBatchesWellFormed(op, rows, i + 1, appended, flushes, db, env);
      }
    }
  }

  /** Every successful execution is added to the statistics, and nothing else is. */
  lemma {:induction false} LoopStatistics(op: Operation, rows: seq<Row>, i: nat, current: CommandSet, flushes: nat,
                                          db: BatchOracle, env: Environment)
    requires i <= |rows|
    ensures var es := Loop(op, rows, i, current, flushes, db, env).effects;
      OutputRows(es) == AffectedByBatches(es)
    decreases |rows| - i
  {
    var es := Loop(op, rows, i, current, flushes, db, env).effects;
    if i == |rows| {
      var res := db(flushes, current);
      if res.Affected? {
        var head := [ExecuteBatch(current, res), AddOutputRows(res.count)];
        OutputRowsConcat(head, Finish(env));
        AffectedByBatchesConcat(head, Finish(env));
      }
    } else {
      var appended := current.(commands := current.commands + [WithParameterWorkaround(op.prepare(rows[i]))]);
      if |appended.commands| >= op.batchSize {
        var res := db(flushes, appended);
        if res.Affected? {
          var head := [ExecuteBatch(appended, res), AddOutputRows(res.count)];
          var rest := Loop(op, rows, i + 1, CreateCommandSet(op.timeout), flushes + 1, db, env).effects;
          LoopStatistics(op, rows, i + 1, CreateCommandSet(op.timeout), flushes + 1, db, env);
          OutputRowsConcat(head, rest);
          AffectedByBatchesConcat(head, rest);
        }
      } else {
        LoopStatistics(op, rows, i + 1, appended, flushes, db, env);
      }
    }
  }

  /** The `n`-th recorded execution of `xs` got the answer the database gives
      to that set as the `from + n`-th round trip of the run. */
  predicate AnsweredBy(db: BatchOracle, xs: seq<(CommandSet, ExecResult)>, from: nat)
  {
    forall n :: 0 <= n < |xs| ==> xs[n].1 == db(from + n, xs[n].0)
  }

  /** Reference: the affected-row counts the database reports for the sets
      of `xs`, asked in order from round trip `from` on. */
  function DatabaseRows(db: BatchOracle, xs: seq<(CommandSet, ExecResult)>, from: nat): (total: int)
    decreases |xs|
  {
    if xs == [] then 0
    else (match db(from, xs[0].0) case Affected(c) => c case Failed(_) => 0) + DatabaseRows(db, xs[1..], from + 1)
  }

  /** Every set the loop executes is sent to the database exactly once, in
      order, and the recorded answer is the database's. */
  lemma {:induction false} LoopAsksDatabase(op: Operation, rows: seq<Row>, i: nat, current: CommandSet, flushes: nat,
                                            db: BatchOracle, env: Environment)
    requires i <= |rows|
    ensures AnsweredBy(db, Executed(Loop(op, rows, i, current, flushes, db, env).effects), flushes)
    decreases |rows| - i
  {
    var r := Loop(op, rows, i, current, flushes, db, env);
    if i == |rows| {
      var res := db(flushes, current);
      var head := [ExecuteBatch(current, res)] + (if res.Affected? then [AddOutputRows(res.count)] else []);
      var fin := if res.Affected? then Finish(env) else [];
      assert r.effects == head + fin;
      ExecutedConcat(head, fin);
      assert Executed(head) == [(current, res)];
      assert Executed(fin) == [];
    } else {
      var appended := current.(commands := current.commands + [WithParameterWorkaround(op.prepare(rows[i]))]);
      if |appended.commands| >= op.batchSize {
        var res := db(flushes, appended);
        if res.Affected? {
          var head := [ExecuteBatch(appended, res), AddOutputRows(res.count)];
          var next := Loop(op, rows, i + 1, CreateCommandSet(op.timeout), flushes + 1, db, env);
          LoopAsksDatabase(op, rows, i + 1, CreateCommandSet(op.timeout), flushes + 1, db, env);
          assert r.effects == head + next.effects;
          ExecutedConcat(head, next.effects);
          var xs, ys := Executed(r.effects), Executed(next.effects);
          assert xs == [(appended, res)] + ys;
          forall n | 0 <= n < |xs|
            ensures xs[n].1 == db(flushes + n, xs[n].0)
          {
            if n > 0 {
              assert xs[n] == ys[n - 1];
              assert ys[n - 1].1 == db(flushes + 1 + (n - 1), ys[n - 1].0);
            }
          }
        } else {
          assert Executed(r.effects) == [(appended, res)];
        }
      } else {
        LoopAsksDatabase(op, rows, i + 1, appended, flushes, db, env);
      }
    }
  }

  /** The loop stops at the first failing execution: every executed set but
      the last one was answered with a success. */
  lemma {:induction false} LoopStopsAtFirstFailure(op: Operation, rows: seq<Row>, i: nat, current: CommandSet, flushes: nat,
                                                   db: BatchOracle, env: Environment)
    requires i <= |rows|
    ensures forall n :: 0 <= n < |Executed(Loop(op, rows, i, current, flushes, db, env).effects)| - 1 ==>
      Executed(Loop(op, rows, i, current, flushes, db, env).effects)[n].1.Affected?
    decreases |rows| - i
  {
    var r := Loop(op, rows, i, current, flushes, db, env);
    if i == |rows| {
      var res := db(flushes, current);
      var head := [ExecuteBatch(current, res)] + (if res.Affected? then [AddOutputRows(res.count)] else []);
      var fin := if res.Affected? then Finish(env) else [];
      assert r.effects == head + fin;
      ExecutedConcat(head, fin);
      assert Executed(head) == [(current, res)];
      assert Executed(fin) == [];
    } else {
      var appended := current.(commands := current.commands + [WithParameterWorkaround(op.prepare(rows[i]))]);
      if |appended.commands| >= op.batchSize {
        var res := db(flushes, appended);
        if res.Affected? {
          var head := [ExecuteBatch(appended, res), AddOutputRows(res.count)];
          var next := Loop(op, rows, i + 1, CreateCommandSet(op.timeout), flushes + 1, db, env);
          LoopStopsAtFirstFailure(op, rows, i + 1, CreateCommandSet(op.timeout), flushes + 1, db, env);
          assert r.effects == head + next.effects;
          ExecutedConcat(head, next.effects);
          var xs, ys := Executed(r.effects), Executed(next.effects);
          assert xs == [(appended, res)] + ys;
          forall n | 0 <= n < |xs| - 1
            ensures xs[n].1.Affected?
          {
            if n > 0 {
              assert xs[n] == ys[n - 1];
              assert ys[n - 1].1.Affected?;
            }
          }
        } else {
          assert Executed(r.effects) == [(appended, res)];
        }
      } else {
        LoopStopsAtFirstFailure(op, rows, i + 1, appended, flushes, db, env);
      }
    }
  }

  /** Answers taken from the database add up to the database's counts. */
  lemma {:induction false} AnsweredRowsAreDatabaseRows(db: BatchOracle, xs: seq<(CommandSet, ExecResult)>, from: nat)
    requires AnsweredBy(db, xs, from)
    ensures AnsweredRows(xs) == DatabaseRows(db, xs, from)
    decreases |xs|
  {
    if xs != [] {
      assert xs[0].1 == db(from + 0, xs[0].0);
      forall n | 0 <= n < |xs[1..]|
        ensures xs[1..][n].1 == db(from + 1 + n, xs[1..][n].0)
      {
        assert xs[1..][n] == xs[n + 1];
      }
      AnsweredRowsAreDatabaseRows(db, xs[1..], from + 1);
    }
  }

  /** The loop completes exactly when no batch failed. */
  lemma {:induction false} LoopCompletesIff(op: Operation, rows: seq<Row>, i: nat, current: CommandSet, flushes: nat,
                                            db: BatchOracle, env: Environment)
    requires i <= |rows|
    ensures var r := Loop(op, rows, i, current, flushes, db, env);
      r.outcome == Completed <==> BatchesSucceeded(r.effects)
    decreases |rows| - i
  {
    var r := Loop(op, rows, i, current, flushes, db, env);
    if i == |rows| {
      var res := db(flushes, current);
      if res.Affected? {
        var head := [ExecuteBatch(current, res), AddOutputRows(res.count)];
        assert r.effects == head + Finish(env);
        BatchesSucceededConcat(head, Finish(env));
        assert BatchesSucceeded(head);
        assert BatchesSucceeded(Finish(env));
      }
    } else {
      var appended := current.(commands := current.commands + [WithParameterWorkaround(op.prepare(rows[i]))]);
      if |appended.commands| >= op.batchSize {
        var res := db(flushes, appended);
        if res.Affected? {
          var head := [ExecuteBatch(appended, res), AddOutputRows(res.count)];
          var next := Loop(op, rows, i + 1, CreateCommandSet(op.timeout), flushes + 1, db, env);
          LoopCompletesIff(op, rows, i + 1, CreateCommandSet(op.timeout), flushes + 1, db, env);
          assert r.effects == head + next.effects;
          BatchesSucceededConcat(head, next.effects);
          assert BatchesSucceeded(head);
        }
      } else {
        LoopCompletesIff(op, rows, i + 1, appended, flushes, db, env);
      }
    }
  }

  /** A completed loop ends with the final decision and makes no other. */
  lemma {:induction false} LoopCompletedEnding(op: Operation, rows: seq<Row>, i: nat, current: CommandSet, flushes: nat,
                                               db: BatchOracle, env: Environment)
    requires i <= |rows|
    requires Loop(op, rows, i, current, flushes, db, env).outcome == Completed
    ensures var es := Loop(op, rows, i, current, flushes, db, env).effects;
      && |Finish(env)| < |es| && es[|es| - |Finish(env)|..] == Finish(env)
      && Decisions(es) == Decisions(Finish(env))
    decreases |rows| - i
  {
    var r := Loop(op, rows, i, current, flushes, db, env);
    if i == |rows| {
      var res := db(flushes, current);
      var head := [ExecuteBatch(current, res), AddOutputRows(res.count)];
      assert r.effects == head + Finish(env);
      DecisionsConcat(head, Finish(env));
      assert r.effects[|r.effects| - |Finish(env)|..] == Finish(env);
    } else {
      var appended := current.(commands := current.commands + [WithParameterWorkaround(op.prepare(rows[i]))]);
      if |appended.commands| >= op.batchSize {
        var res := db(flushes, appended);
        var head := [ExecuteBatch(appended, res), AddOutputRows(res.count)];
        var next := Loop(op, rows, i + 1, CreateCommandSet(op.timeout), flushes + 1, db, env);
        LoopCompletedEnding(op, rows, i + 1, CreateCommandSet(op.timeout), flushes + 1, db, env);
        assert r.effects == head + next.effects;
        DecisionsConcat(head, next.effects);
        SuffixOfConcat(head, next.effects, |Finish(env)|);
      } else {
        LoopCompletedEnding(op, rows, i + 1, appended, flushes, db, env);
      }
    }
  }

  /** The last `n` elements of `a + b` are those of `b`, when `b` has that many. */
  lemma SuffixOfConcat<T>(a: seq<T>, b: seq<T>, n: nat)
    requires n <= |b|
    ensures (a + b)[|a + b| - n..] == b[|b| - n..]
  {
  }

  /** An aborted loop ends with the failed execution and decides nothing. */
  lemma {:induction false} LoopAbortedEnding(op: Operation, rows: seq<Row>, i: nat, current: CommandSet, flushes: nat,
                                             db: BatchOracle, env: Environment)
    requires i <= |rows|
    requires Loop(op, rows, i, current, flushes, db, env).outcome.Aborted?
    ensures var r := Loop(op, rows, i, current, flushes, db, env);
      && |r.effects| >= 1 && r.effects[|r.effects| - 1].ExecuteBatch?
      && r.effects[|r.effects| - 1].result == Failed(r.outcome.error)
      && Decisions(r.effects) == 0
    decreases |rows| - i
  {
    var r := Loop(op, rows, i, current, flushes, db, env);
    if i < |rows| {
      var appended := current.(commands := current.commands + [WithParameterWorkaround(op.prepare(rows[i]))]);
      if |appended.commands| >= op.batchSize {
        var res := db(flushes, appended);
        if res.Affected? {
          var head := [ExecuteBatch(appended, res), AddOutputRows(res.count)];
          var next := Loop(op, rows, i + 1, CreateCommandSet(op.timeout), flushes + 1, db, env);
          LoopAbortedEnding(op, rows, i + 1, CreateCommandSet(op.timeout), flushes + 1, db, env);
          assert r.effects == head + next.effects;
          DecisionsConcat(head, next.effects);
          assert r.effects[|r.effects| - 1] == next.effects[|next.effects| - 1];
        }
      } else {
        LoopAbortedEnding(op, rows, i + 1, appended, flushes, db, env);
      }
    }
  }

  /** Whatever the outcome, the executed sets are an initial run of the
      reference chunks of the pending commands followed by the commands of
      the remaining rows, and on completion they are all of those chunks. */
  lemma {:induction false} LoopChunks(op: Operation, rows: seq<Row>, i: nat, current: CommandSet, flushes: nat,
                                      db: BatchOracle, env: Environment)
    requires i <= |rows|
    requires |current.commands| < Capacity(op)
    ensures var r := Loop(op, rows, i, current, flushes, db, env);
      && Batches(r.effects) <= Chunks(current.commands + Prepared(op, rows[i..]), Capacity(op))
      && (r.outcome == Completed ==>
            Batches(r.effects) == Chunks(current.commands + Prepared(op, rows[i..]), Capacity(op)))
    decreases |rows| - i
  {
    if i == |rows| {
      TrailingFlushPrefix(op, rows, current, flushes, db, env);
      assert rows[i..] == [];
      assert current.commands + Prepared(op, rows[i..]) == current.commands;
      assert Chunks(current.commands, Capacity(op)) == [current.commands];
    } else {
      var c := WithParameterWorkaround(op.prepare(rows[i]));
      var appended := current.(commands := current.commands + [c]);
      if |appended.commands| >= op.batchSize {
        FlushChunks(op, rows, i, current, flushes, db, env);
      } else {
        PreparedStep(op, rows, i);
        assert current.commands + Prepared(op, rows[i..]) == appended.commands + Prepared(op, rows[i + 1..]);
        LoopChunks(op, rows, i + 1, appended, flushes, db, env);
      }
    }
  }

  /** The in-loop flush that row `i`'s command triggers: the executed set is
      the first reference chunk, and the rest follow from a fresh set. */
  lemma {:induction false} FlushChunks(op: Operation, rows: seq<Row>, i: nat, current: CommandSet, flushes: nat,
                                       db: BatchOracle, env: Environment)
    requires i < |rows|
    requires |current.commands| < Capacity(op) && |current.commands| + 1 >= op.batchSize
    ensures var r := Loop(op, rows, i, current, flushes, db, env);
      && Batches(r.effects) <= Chunks(current.commands + Prepared(op, rows[i..]), Capacity(op))
      && (r.outcome == Completed ==>
            Batches(r.effects) == Chunks(current.commands + Prepared(op, rows[i..]), Capacity(op)))
    decreases |rows| - i, 0
  {
    var r := Loop(op, rows, i, current, flushes, db, env);
    var k := Capacity(op);
    var appended := current.(commands := current.commands + [WithParameterWorkaround(op.prepare(rows[i]))]);
    var tail := Prepared(op, rows[i + 1..]);
    PreparedStep(op, rows, i);
    var s := appended.commands + tail;
    assert current.commands + Prepared(op, rows[i..]) == s;
    assert s[..k] == appended.commands && s[k..] == tail;
    assert Chunks(s, k) == [appended.commands] + Chunks(tail, k);
    var res := db(flushes, appended);
    if res.Affected? {
      var head := [ExecuteBatch(appended, res), AddOutputRows(res.count)];
      var next := Loop(op, rows, i + 1, CreateCommandSet(op.timeout), flushes + 1, db, env);
      LoopChunks(op, rows, i + 1, CreateCommandSet(op.timeout), flushes + 1, db, env);
      assert r.effects == head + next.effects;
      BatchesConcat(head, next.effects);
      assert [] + tail == tail;
    } else {
      assert Batches(r.effects) == [appended.commands];
    }
  }

  /** Whatever the outcome, the executed commands are an initial segment of
      the pending commands followed by those of the remaining rows. */
  lemma {:induction false} LoopPrefix(op: Operation, rows: seq<Row>, i: nat, current: CommandSet, flushes: nat,
                                      db: BatchOracle, env: Environment)
    requires i <= |rows|
    ensures var r := Loop(op, rows, i, current, flushes, db, env);
      Flatten(Batches(r.effects)) <= current.commands + Prepared(op, rows[i..])
    decreases |rows| - i
  {
    if i == |rows| {
      TrailingFlushPrefix(op, rows, current, flushes, db, env);
    } else {
      var c := WithParameterWorkaround(op.prepare(rows[i]));
      var appended := current.(commands := current.commands + [c]);
      if |appended.commands| >= op.batchSize {
        FlushPrefix(op, rows, i, current, flushes, db, env);
      } else {
        PreparedStep(op, rows, i);
        assert current.commands + Prepared(op, rows[i..]) == appended.commands + Prepared(op, rows[i + 1..]);
        LoopPrefix(op, rows, i + 1, appended, flushes, db, env);
      }
    }
  }

  lemma TrailingFlushPrefix(op: Operation, rows: seq<Row>, current: CommandSet, flushes: nat,
                            db: BatchOracle, env: Environment)
    ensures var r := Loop(op, rows, |rows|, current, flushes, db, env);
      Batches(r.effects) == [current.commands] && Flatten(Batches(r.effects)) == current.commands
  {
    var r := Loop(op, rows, |rows|, current, flushes, db, env);
    var res := db(flushes, current);
    var head := [ExecuteBatch(current, res)] + (if res.Affected? then [AddOutputRows(res.count)] else []);
    var fin := if res.Affected? then Finish(env) else [];
    assert r.effects == head + fin;
    BatchesConcat(head, fin);
    assert Batches(head) == [current.commands];
    assert Batches(fin) == [];
    assert Flatten([current.commands]) == current.commands + Flatten([]);
  }

  /** The in-loop flush that row `i`'s command triggers loses and reorders
      nothing: the flushed set, then what follows from a fresh set. */
  lemma {:induction false} FlushPrefix(op: Operation, rows: seq<Row>, i: nat, current: CommandSet, flushes: nat,
                                       db: BatchOracle, env: Environment)
    requires i < |rows|
    requires |current.commands| + 1 >= op.batchSize
    ensures Flatten(Batches(Loop(op, rows, i, current, flushes, db, env).effects))
              <= current.commands + Prepared(op, rows[i..])
    decreases |rows| - i, 0
  {
    var r := Loop(op, rows, i, current, flushes, db, env);
    var appended := current.(commands := current.commands + [WithParameterWorkaround(op.prepare(rows[i]))]);
    var tail := Prepared(op, rows[i + 1..]);
    PreparedStep(op, rows, i);
    assert current.commands + Prepared(op, rows[i..]) == appended.commands + tail;
    var res := db(flushes, appended);
    if res.Affected? {
      var head := [ExecuteBatch(appended, res), AddOutputRows(res.count)];
      var next := Loop(op, rows, i + 1, CreateCommandSet(op.timeout), flushes + 1, db, env);
      LoopPrefix(op, rows, i + 1, CreateCommandSet(op.timeout), flushes + 1, db, env);
      assert r.effects == head + next.effects;
      BatchesConcat(head, next.effects);
      assert Batches(head) == [appended.commands];
      FlattenConcat([appended.commands], Batches(next.effects));
      assert Flatten([appended.commands]) == appended.commands + Flatten([]);
      assert [] + tail == tail;
    } else {
      assert Batches(r.effects) == [appended.commands];
      assert Flatten([appended.commands]) == appended.commands + Flatten([]);
    }
  }

  // ---------------------------------------------------------------------
  // Properties of a whole run

  /** Every executed set carries the configured timeout, holds at most
      `max(BatchSize, 1)` commands, and holds only commands with a parameter. */
  lemma ExecutedBatchesWellFormed(op: Operation, rows: Option<seq<Row>>, db: BatchOracle, env: Environment)
    ensures AllBatchesWellFormed(op, Execute(op, rows, db, env).effects)
  {
    if rows.Some? {
      var loop := Loop(op, rows.value, 0, CreateCommandSet(op.timeout), 0, db, env).effects;
      LoopBatchesWellFormed(op, rows.value, 0, CreateCommandSet(op.timeout), 0, db, env);
      var es := Execute(op, rows, db, env).effects;
      forall j | 0 <= j < |es| && es[j].ExecuteBatch?
        ensures WellFormedBatch(op, es[j].batch)
      {
        assert es[j] == loop[j - 1];
      }
    }
  }

  /** The `n`-th set a run executes is its `n`-th batch and is the database's
      `n`-th round trip: every recorded answer is the database's answer. */
  lemma DatabaseAnswers(op: Operation, rows: Option<seq<Row>>, db: BatchOracle, env: Environment)
    ensures |Executed(Execute(op, rows, db, env).effects)| == |Batches(Execute(op, rows, db, env).effects)|
    ensures forall n :: 0 <= n < |Executed(Execute(op, rows, db, env).effects)| ==>
      && Executed(Execute(op, rows, db, env).effects)[n].0.commands == Batches(Execute(op, rows, db, env).effects)[n]
      && Executed(Execute(op, rows, db, env).effects)[n].1 == db(n, Executed(Execute(op, rows, db, env).effects)[n].0)
  {
    var es := Execute(op, rows, db, env).effects;
    ExecutedAreBatches(es);
    if rows.Some? {
      var loop := Loop(op, rows.value, 0, CreateCommandSet(op.timeout), 0, db, env).effects;
      LoopAsksDatabase(op, rows.value, 0, CreateCommandSet(op.timeout), 0, db, env);
      ExecutedConcat([Opened], loop);
      assert Executed([Opened]) == [];
      assert Executed(es) == Executed(loop);
    }
  }

  /** The output-row statistics grow by exactly the affected-row counts of
      the successful executions, the trailing one included: the counts the
      database reported for the sets it was sent, in order. */
  lemma StatisticsAreAffectedRows(op: Operation, rows: Option<seq<Row>>, db: BatchOracle, env: Environment)
    ensures var es := Execute(op, rows, db, env).effects;
      OutputRows(es) == AffectedByBatches(es)
    ensures var es := Execute(op, rows, db, env).effects;
      OutputRows(es) == DatabaseRows(db, Executed(es), 0)
  {
    var es := Execute(op, rows, db, env).effects;
    if rows.Some? {
      var loop := Loop(op, rows.value, 0, CreateCommandSet(op.timeout), 0, db, env).effects;
      LoopStatistics(op, rows.value, 0, CreateCommandSet(op.timeout), 0, db, env);
      OutputRowsConcat([Opened], loop);
      AffectedByBatchesConcat([Opened], loop);
    }
    DatabaseAnswers(op, rows, db, env);
    AffectedAreAnsweredRows(es);
    AnsweredRowsAreDatabaseRows(db, Executed(es), 0);
  }

  /** With rows present, a run completes exactly when no batch failed: the
      violation policy of the unbatched sink plays no part here. A completed
      run ends with the final decision: a rollback when the pipeline has
      errors, a commit otherwise, neither when there is no transaction. An
      aborted run ends with the failed execution and decides nothing. */
  /** An aborted run stopped at the first set the database refused: every
      earlier set was answered with a success, the last one executed was
      refused, and its failure is the one that reaches the caller. */
  lemma AbortsAtFirstRefusal(op: Operation, rows: seq<Row>, db: BatchOracle, env: Environment)
    requires Execute(op, Some(rows), db, env).outcome.Aborted?
    ensures |Executed(Execute(op, Some(rows), db, env).effects)| >= 1
    ensures forall n :: 0 <= n < |Executed(Execute(op, Some(rows), db, env).effects)| - 1 ==>
      db(n, Executed(Execute(op, Some(rows), db, env).effects)[n].0).Affected?
    ensures var xs := Executed(Execute(op, Some(rows), db, env).effects);
      db(|xs| - 1, xs[|xs| - 1].0) == Failed(Execute(op, Some(rows), db, env).outcome.error)
  {
    var r := Execute(op, Some(rows), db, env);
    var loop := Loop(op, rows, 0, CreateCommandSet(op.timeout), 0, db, env);
    LoopAbortedEnding(op, rows, 0, CreateCommandSet(op.timeout), 0, db, env);
    LoopStopsAtFirstFailure(op, rows, 0, CreateCommandSet(op.timeout), 0, db, env);
    DatabaseAnswers(op, Some(rows), db, env);
    assert r.effects == [Opened] + loop.effects;
    ExecutedConcat([Opened], loop.effects);
    assert Executed([Opened]) == [];
    assert Executed(r.effects) == Executed(loop.effects);
    var es := r.effects;
    var last := es[|es| - 1];
    assert es == es[..|es| - 1] + [last];
    ExecutedConcat(es[..|es| - 1], [last]);
    assert Executed([last]) == [(last.batch, last.result)];
  }

  lemma CompletesIffBatchesSucceed(op: Operation, rows: seq<Row>, db: BatchOracle, env: Environment)
    ensures Execute(op, Some(rows), db, env).outcome == Completed <==>
      forall n :: 0 <= n < |Executed(Execute(op, Some(rows), db, env).effects)| ==>
        db(n, Executed(Execute(op, Some(rows), db, env).effects)[n].0).Affected?
    ensures Execute(op, Some(rows), db, env).outcome.Aborted? ==>
      forall n :: 0 <= n < |Executed(Execute(op, Some(rows), db, env).effects)| - 1 ==>
        db(n, Executed(Execute(op, Some(rows), db, env).effects)[n].0).Affected?
    ensures var r := Execute(op, Some(rows), db, env);
      && (r.outcome == Completed <==> BatchesSucceeded(r.effects))
      && (r.outcome == Completed && env.transactionPresent ==>
            r.effects[|r.effects| - 1] == (if env.pipelineHasErrors then Rollback else Commit)
            && Decisions(r.effects) == 1)
      && (r.outcome == Completed && !env.transactionPresent ==> Decisions(r.effects) == 0)
      && (r.outcome.Aborted? ==>
            r.effects[|r.effects| - 1].ExecuteBatch?
            && r.effects[|r.effects| - 1].result == Failed(r.outcome.error)
            && Decisions(r.effects) == 0)
  {
    var r := Execute(op, Some(rows), db, env);
    var loop := Loop(op, rows, 0, CreateCommandSet(op.timeout), 0, db, env);
    LoopCompletesIff(op, rows, 0, CreateCommandSet(op.timeout), 0, db, env);
    if loop.outcome == Completed {
      LoopCompletedEnding(op, rows, 0, CreateCommandSet(op.timeout), 0, db, env);
    } else {
      LoopAbortedEnding(op, rows, 0, CreateCommandSet(op.timeout), 0, db, env);
    }
    DecisionsConcat([Opened], loop.effects);
    assert r.effects == [Opened] + loop.effects;
    BatchesSucceededConcat([Opened], loop.effects);
    DatabaseAnswers(op, Some(rows), db, env);
    SucceededIffAnswersAffected(r.effects);
    if r.outcome.Aborted? {
      AbortsAtFirstRefusal(op, rows, db, env);
    }
    if r.outcome == Completed && env.transactionPresent {
      var f := Finish(env);
      assert r.effects[|r.effects| - 1] == loop.effects[|loop.effects| - |f|..][|f| - 1];
    }
  }

  /** A completed run executed the reference chunks of the prepared commands. */
  lemma BatchesAreChunks(op: Operation, rows: seq<Row>, db: BatchOracle, env: Environment)
    requires Execute(op, Some(rows), db, env).outcome == Completed
    ensures Batches(Execute(op, Some(rows), db, env).effects) == Chunks(Prepared(op, rows), Capacity(op))
  {
    var loop := Loop(op, rows, 0, CreateCommandSet(op.timeout), 0, db, env);
    LoopChunks(op, rows, 0, CreateCommandSet(op.timeout), 0, db, env);
    BatchesConcat([Opened], loop.effects);
    assert rows[0..] == rows;
    assert [] + Prepared(op, rows) == Prepared(op, rows);
  }

  /** Whatever the outcome, the executed sets are an initial run of the
      reference chunks of the prepared commands: every in-loop flush, even in
      a run that later fails, held exactly `Capacity` commands. */
  lemma BatchesArePrefixOfChunks(op: Operation, rows: seq<Row>, db: BatchOracle, env: Environment)
    ensures Batches(Execute(op, Some(rows), db, env).effects) <= Chunks(Prepared(op, rows), Capacity(op))
  {
    var loop := Loop(op, rows, 0, CreateCommandSet(op.timeout), 0, db, env);
    LoopChunks(op, rows, 0, CreateCommandSet(op.timeout), 0, db, env);
    BatchesConcat([Opened], loop.effects);
    assert rows[0..] == rows;
    assert [] + Prepared(op, rows) == Prepared(op, rows);
  }

  /** A completed run over `n` rows with capacity `k` executed `n / k + 1`
      sets: every set but the last held `k` commands, and the last held
      `n % k`, so it is empty when `n` is a multiple of `k`. */
  lemma FlushCount(op: Operation, rows: seq<Row>, db: BatchOracle, env: Environment)
    requires Execute(op, Some(rows), db, env).outcome == Completed
    ensures var b := Batches(Execute(op, Some(rows), db, env).effects);
      && |b| == |rows| / Capacity(op) + 1
      && (forall j :: 0 <= j < |b| - 1 ==> |b[j]| == Capacity(op))
      && |b[|b| - 1]| == |rows| % Capacity(op)
  {
    BatchesAreChunks(op, rows, db, env);
    PreparedIsPointwise(op, rows);
    ChunksShape(Prepared(op, rows), Capacity(op));
  }

  /** The executed commands, in execution order, are always an initial
      segment of the rows' prepared commands in row order, and all of them
      once the run completes: nothing dropped, duplicated or reordered. */
  lemma OrderPreserved(op: Operation, rows: seq<Row>, db: BatchOracle, env: Environment)
    ensures var es := Execute(op, Some(rows), db, env).effects;
      && Flatten(Batches(es)) <= Prepared(op, rows)
      && (Execute(op, Some(rows), db, env).outcome == Completed ==> Flatten(Batches(es)) == Prepared(op, rows))
  {
    var loop := Loop(op, rows, 0, CreateCommandSet(op.timeout), 0, db, env);
    LoopPrefix(op, rows, 0, CreateCommandSet(op.timeout), 0, db, env);
    BatchesConcat([Opened], loop.effects);
    assert Batches([Opened]) == [];
    assert [] + Batches(loop.effects) == Batches(loop.effects);
    assert rows[0..] == rows;
    assert [] + Prepared(op, rows) == Prepared(op, rows);
    if loop.outcome == Completed {
      BatchesAreChunks(op, rows, db, env);
      ChunksFlatten(Prepared(op, rows), Capacity(op));
    }
  }

  /** 120 rows at the default batch size: sets of 50, 50 and 20. */
  lemma HundredTwentyRows(op: Operation, rows: seq<Row>, db: BatchOracle, env: Environment)
    requires op.batchSize == 50 && |rows| == 120
    requires Execute(op, Some(rows), db, env).outcome == Completed
    ensures var b := Batches(Execute(op, Some(rows), db, env).effects);
      |b| == 3 && |b[0]| == 50 && |b[1]| == 50 && |b[2]| == 20
  {
    FlushCount(op, rows, db, env);
  }

  /** 100 rows at the default batch size: sets of 50 and 50, then an empty one. */
  lemma HundredRows(op: Operation, rows: seq<Row>, db: BatchOracle, env: Environment)
    requires op.batchSize == 50 && |rows| == 100
    requires Execute(op, Some(rows), db, env).outcome == Completed
    ensures var b := Batches(Execute(op, Some(rows), db, env).effects);
      |b| == 3 && |b[0]| == 50 && |b[1]| == 50 && b[2] == []
  {
    FlushCount(op, rows, db, env);
  }
}
