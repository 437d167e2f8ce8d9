/**
 Shared vocabulary of the two write sinks: rows, commands, the outcome of
 executing something against the database, and the ordered trace of effects
 a sink leaves behind. Each sink is a pure function from its inputs to a
 `Run`; the summaries defined here (`Batches`, `Commands`, `OutputRows`, ...)
 are what the properties of the sinks are stated over.
 */
module Effects {

  /** A reference that may be null. */
  datatype Option<T> = None | Some(value: T)

  /** A column value of a row. The sinks never look inside values. */
  datatype Value = NullValue | IntValue(i: int) | TextValue(s: string)

  /** A pipeline row: a mapping from column name to value. */
  datatype Row = Row(columns: map<string, Value>)

  /** A command parameter: one bound by the command preparer, or the
      uniquely named throw-away parameter the batched sink synthesizes. */
  datatype Param = Param(name: string, value: Value) | FreshParam

  /** A parameterized command with its own timeout (in seconds). */
  datatype Command = Command(text: string, params: seq<Param>, timeout: int)

  /** A batch of commands executed as one round trip, with the timeout of the set. */
  datatype CommandSet = CommandSet(commands: seq<Command>, timeout: int)

  /** The failures a sink can see. `SqlException` carries the server's error number. */
  datatype Failure =
    | SqlException(number: int)
    | OtherException
    | ArgumentException
    | NullReferenceException

  /** What the database answers to one `ExecuteNonQuery`: an affected-row count or a failure. */
  datatype ExecResult = Affected(count: int) | Failed(error: Failure)

  /** One observable effect of a sink, in the order it happens. */
  datatype Effect =
    | Opened                                            // connection acquired and transaction begun
    | ExecuteCommand(command: Command, result: ExecResult)
    | IgnoredViolation                                  // the trace message for a swallowed PK violation
    | ExecuteBatch(batch: CommandSet, result: ExecResult)
    | AddOutputRows(count: int)                         // statistics update
    | Commit
    | Rollback

  /** How a run ends: normally, or by an exception that reaches the caller. */
  datatype Outcome = Completed | Aborted(error: Failure)

  /** A whole execution: its effects, how it ended, and the rows it yields downstream. */
  datatype Run = Run(effects: seq<Effect>, outcome: Outcome, yielded: seq<Row>)

  /** What the sink observes of its surroundings: whether `BeginTransaction`
      produced a transaction, and the pipeline-wide error flag read at the end. */
  datatype Environment = Environment(transactionPresent: bool, pipelineHasErrors: bool)

  /** Effects `es` happen before the run `r`. */
  function Prepend(es: seq<Effect>, r: Run): (r': Run)
  {
    Run(es + r.effects, r.outcome, r.yielded)
  }

  /** The commands of every executed batch, in execution order. */
  function Batches(es: seq<Effect>): (bs: seq<seq<Command>>)
  {
    if es == [] then []
    else (if es[0].ExecuteBatch? then [es[0].batch.commands] else []) + Batches(es[1..])
  }

  /** Every single command executed, in execution order. */
  function Commands(es: seq<Effect>): (cs: seq<Command>)
  {
    if es == [] then []
    else (if es[0].ExecuteCommand? then [es[0].command] else []) + Commands(es[1..])
  }

  /** Total added to the output-row statistics. */
  function OutputRows(es: seq<Effect>): (total: int)
  {
    if es == [] then 0
    else (if es[0].AddOutputRows? then es[0].count else 0) + OutputRows(es[1..])
  }

  /** Total affected-row count reported by the successful batch executions. */
  function AffectedByBatches(es: seq<Effect>): (total: int)
  {
    if es == [] then 0
    else (if es[0].ExecuteBatch? && es[0].result.Affected? then es[0].result.count else 0)
         + AffectedByBatches(es[1..])
  }

  /** Number of commit and rollback effects. */
  function Decisions(es: seq<Effect>): (n: nat)
  {
    if es == [] then 0
    else (if es[0].Commit? || es[0].Rollback? then 1 else 0) + Decisions(es[1..])
  }

  /** Number of swallowed primary key violations. */
  function Ignored(es: seq<Effect>): (n: nat)
  {
    if es == [] then 0
    else (if es[0].IgnoredViolation? then 1 else 0) + Ignored(es[1..])
  }

  /** Every batch execution with the answer it got, in execution order. */
  function Executed(es: seq<Effect>): (xs: seq<(CommandSet, ExecResult)>)
  {
    if es == [] then []
    else (if es[0].ExecuteBatch? then [(es[0].batch, es[0].result)] else []) + Executed(es[1..])
  }

  /** Total of the affected-row counts among the successful answers of `xs`. */
  function AnsweredRows(xs: seq<(CommandSet, ExecResult)>): (total: int)
  {
    if xs == [] then 0
    else (if xs[0].1.Affected? then xs[0].1.count else 0) + AnsweredRows(xs[1..])
  }

  /** No batch execution in `es` failed. */
  predicate BatchesSucceeded(es: seq<Effect>)
  {
    es == [] || ((es[0].ExecuteBatch? ==> es[0].result.Affected?) && BatchesSucceeded(es[1..]))
  }

  // Every summary distributes over concatenation of traces.

  lemma {:induction false} BatchesConcat(a: seq<Effect>, b: seq<Effect>)
    ensures Batches(a + b) == Batches(a) + Batches(b)
    decreases |a|
  {
    if a != [] {
      assert (a + b)[1..] == a[1..] + b;
      BatchesConcat(a[1..], b);
    } else {
      assert a + b == b;
    }
  }

  lemma {:induction false} CommandsConcat(a: seq<Effect>, b: seq<Effect>)
    ensures Commands(a + b) == Commands(a) + Commands(b)
    decreases |a|
  {
    if a != [] {
      assert (a + b)[1..] == a[1..] + b;
      CommandsConcat(a[1..], b);
    } else {
      assert a + b == b;
    }
  }

  lemma {:induction false} OutputRowsConcat(a: seq<Effect>, b: seq<Effect>)
    ensures OutputRows(a + b) == OutputRows(a) + OutputRows(b)
    decreases |a|
  {
    if a != [] {
      assert (a + b)[1..] == a[1..] + b;
      OutputRowsConcat(a[1..], b);
    } else {
      assert a + b == b;
    }
  }

  lemma {:induction false} AffectedByBatchesConcat(a: seq<Effect>, b: seq<Effect>)
    ensures AffectedByBatches(a + b) == AffectedByBatches(a) + AffectedByBatches(b)
    decreases |a|
  {
    if a != [] {
      assert (a + b)[1..] == a[1..] + b;
      AffectedByBatchesConcat(a[1..], b);
    } else {
      assert a + b == b;
    }
  }

  lemma {:induction false} DecisionsConcat(a: seq<Effect>, b: seq<Effect>)
    ensures Decisions(a + b) == Decisions(a) + Decisions(b)
    decreases |a|
  {
    if a != [] {
      assert (a + b)[1..] == a[1..] + b;
      DecisionsConcat(a[1..], b);
    } else {
      assert a + b == b;
    }
  }

  lemma {:induction false} IgnoredConcat(a: seq<Effect>, b: seq<Effect>)
    ensures Ignored(a + b) == Ignored(a) + Ignored(b)
    decreases |a|
  {
    if a != [] {
      assert (a + b)[1..] == a[1..] + b;
      IgnoredConcat(a[1..], b);
    } else {
      assert a + b == b;
    }
  }

  lemma {:induction false} BatchesSucceededConcat(a: seq<Effect>, b: seq<Effect>)
    ensures BatchesSucceeded(a + b) <==> BatchesSucceeded(a) && BatchesSucceeded(b)
    decreases |a|
  {
    if a != [] {
      assert (a + b)[1..] == a[1..] + b;
      BatchesSucceededConcat(a[1..], b);
    } else {
      assert a + b == b;
    }
  }

  lemma {:induction false} ExecutedConcat(a: seq<Effect>, b: seq<Effect>)
    ensures Executed(a + b) == Executed(a) + Executed(b)
    decreases |a|
  {
    if a != [] {
      assert (a + b)[1..] == a[1..] + b;
      ExecutedConcat(a[1..], b);
    } else {
      assert a + b == b;
    }
  }

  // The executions with their answers agree with the other summaries.

  /** The sets of the executions are the batches, one for one. */
  lemma {:induction false} ExecutedAreBatches(es: seq<Effect>)
    ensures |Executed(es)| == |Batches(es)|
    ensures forall n :: 0 <= n < |Executed(es)| ==> Executed(es)[n].0.commands == Batches(es)[n]
    decreases |es|
  {
    if es != [] {
      ExecutedAreBatches(es[1..]);
      if es[0].ExecuteBatch? {
        forall n | 0 < n < |Executed(es)|
          ensures Executed(es)[n].0.commands == Batches(es)[n]
        {
          assert Executed(es)[n] == Executed(es[1..])[n - 1];
          assert Batches(es)[n] == Batches(es[1..])[n - 1];
        }
      } else {
        assert Executed(es) == Executed(es[1..]);
        assert Batches(es) == Batches(es[1..]);
      }
    }
  }

  /** No batch failed exactly when every recorded answer is a success. */
  lemma {:induction false} SucceededIffAnswersAffected(es: seq<Effect>)
    ensures BatchesSucceeded(es) <==> forall n :: 0 <= n < |Executed(es)| ==> Executed(es)[n].1.Affected?
    decreases |es|
  {
    if es != [] {
      SucceededIffAnswersAffected(es[1..]);
      assert BatchesSucceeded(es[1..]) ==> forall m :: 0 <= m < |Executed(es[1..])| ==> Executed(es[1..])[m].1.Affected?;
      if es[0].ExecuteBatch? {
        var xs, tail := Executed(es), Executed(es[1..]);
        assert xs == [(es[0].batch, es[0].result)] + tail;
        assert xs[0].1 == es[0].result;
        assert BatchesSucceeded(es) <==> es[0].result.Affected? && BatchesSucceeded(es[1..]);
        if forall n :: 0 <= n < |xs| ==> xs[n].1.Affected? {
          forall m | 0 <= m < |tail| ensures tail[m].1.Affected? {
            assert tail[m] == xs[m + 1];
          }
        }
        if BatchesSucceeded(es) {
          forall n | 0 <= n < |xs| ensures xs[n].1.Affected? {
            if n > 0 {
              assert xs[n] == tail[n - 1];
            }
          }
        }
      } else {
        assert Executed(es) == Executed(es[1..]);
      }
    }
  }

  /** The affected rows of the batch executions are those of the recorded answers. */
  lemma {:induction false} AffectedAreAnsweredRows(es: seq<Effect>)
    ensures AffectedByBatches(es) == AnsweredRows(Executed(es))
    decreases |es|
  {
    if es != [] {
      AffectedAreAnsweredRows(es[1..]);
      if es[0].ExecuteBatch? {
        var xs := Executed(es);
        assert xs == [(es[0].batch, es[0].result)] + Executed(es[1..]);
        assert xs[1..] == Executed(es[1..]);
      } else {
        assert Executed(es) == Executed(es[1..]);
      }
    }
  }
}
