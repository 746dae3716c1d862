/**
 * The outcome transition of `processJob` (src/processor.ts). Running the
 * command is outside the model: its result comes in as an `ExecResult`, and
 * the two clock readings the function takes (the backoff clock and the
 * `updated_at` stamp) are parameters.
 */
module Processor {
  import opened Models
  import opened Backoff
  import opened JobRepository

  /** What the awaited `exec` did: resolved, or rejected with an error message. */
  datatype ExecResult = Success | Failure(message: string)

  /** `{success: true}` or `{success: false, dead}`. */
  datatype ProcessResult = Succeeded | FailedAttempt(dead: bool)

  /** The `Partial<Job>` that each branch of `processJob` passes to `updateJob`. */
  function OutcomeFields(job: Job, exec: ExecResult, base: nat, nowMs: int, stamp: Timestamp): (fields: seq<Field>)
    ensures forall i, j :: 0 <= i < j < |fields| ==> ColumnOf(fields[i]) != ColumnOf(fields[j])
    ensures |fields| >= 2 && fields[0].SetState? && SetUpdatedAt(stamp) in fields
    ensures exec.Success? <==> SetState(Completed) in fields
    ensures exec.Failure? ==> SetAttempts(job.attempts + 1) in fields && SetLastError(Some(exec.message)) in fields
  {
    match exec
    case Success => [SetState(Completed), SetUpdatedAt(stamp)]
    case Failure(message) =>
      var attempts := job.attempts + 1;
      if attempts > job.maxRetries then
        [SetState(Dead), SetAttempts(attempts), SetUpdatedAt(stamp), SetLastError(Some(message))]
      else
        [SetState(Pending), SetAttempts(attempts), SetRunAfter(ComputeBackoffRunAfter(nowMs, base, attempts)),
         SetUpdatedAt(stamp), SetLastError(Some(message))]
  }

  /** The value `processJob` resolves to. */
  function OutcomeResult(job: Job, exec: ExecResult): (result: ProcessResult)
    ensures result.Succeeded? <==> exec.Success?
    ensures result.FailedAttempt? ==> (result.dead <==> job.attempts >= job.maxRetries)
  {
    match exec
    case Success => Succeeded
    case Failure(_) => FailedAttempt(job.attempts + 1 > job.maxRetries)
  }

  /**
   * `processJob(job, backoffBase)`: writes the outcome to row `job.id`. The
   * new attempt count comes from the snapshot `job`, not from the stored row.
   */
  method ProcessJob(table: JobTable, job: Job, exec: ExecResult, base: nat, nowMs: int, stamp: Timestamp)
    returns (result: ProcessResult)
    requires table.Valid()
    modifies table
    ensures table.Valid()
    ensures table.rows == UpdatedRows(old(table.rows), job.id, OutcomeFields(job, exec, base, nowMs, stamp))
    ensures result == OutcomeResult(job, exec)
  {
    match exec {
      case Success =>
        table.UpdateJob(job.id, [SetState(Completed), SetUpdatedAt(stamp)]);
        return Succeeded;
      case Failure(message) =>
        var attempts := job.attempts + 1;
        if attempts > job.maxRetries {
          table.UpdateJob(job.id, [SetState(Dead), SetAttempts(attempts), SetUpdatedAt(stamp), SetLastError(Some(message))]);
          return FailedAttempt(true);
        } else {
          var runAfter := ComputeBackoffRunAfter(nowMs, base, attempts);
          table.UpdateJob(job.id, [SetState(Pending), SetAttempts(attempts), SetRunAfter(runAfter),
                                   SetUpdatedAt(stamp), SetLastError(Some(message))]);
          return FailedAttempt(false);
        }
    }
  }

  /** The stored row `row` after `processJob(job)` wrote its outcome to it. */
  function ProcessedRow(row: Job, job: Job, exec: ExecResult, base: nat, nowMs: int, stamp: Timestamp): Job
  {
    Patched(row, OutcomeFields(job, exec, base, nowMs, stamp))
  }

  /**
   * What each branch writes. Success: completed, stamped, and nothing else
   * changes. Failure: attempts is the snapshot's plus one and the message is
   * recorded; past `max_retries` the row is dead and keeps its `run_after`,
   * otherwise it is pending again with a backoff `run_after`.
   */
  lemma OutcomeEffect(row: Job, job: Job, exec: ExecResult, base: nat, nowMs: int, stamp: Timestamp)
    ensures var r := ProcessedRow(row, job, exec, base, nowMs, stamp);
      && r.id == row.id && r.command == row.command && r.maxRetries == row.maxRetries && r.createdAt == row.createdAt
      && r.updatedAt == stamp
      && (exec.Success? ==>
            && r.state == Completed && r.attempts == row.attempts
            && r.runAfter == row.runAfter && r.lastError == row.lastError
            && OutcomeResult(job, exec) == Succeeded)
      && (exec.Failure? ==> r.attempts == job.attempts + 1 && r.lastError == Some(exec.message))
      && (exec.Failure? && job.attempts + 1 > job.maxRetries ==>
            r.state == Dead && r.runAfter == row.runAfter && OutcomeResult(job, exec) == FailedAttempt(true))
      && (exec.Failure? && job.attempts + 1 <= job.maxRetries ==>
            && r.state == Pending && r.runAfter == ComputeBackoffRunAfter(nowMs, base, job.attempts + 1)
            && OutcomeResult(job, exec) == FailedAttempt(false))
  {
    match exec {
      case Success => StateStampPatch(row, Completed, stamp);
      case Failure(message) =>
        var attempts := job.attempts + 1;
        if attempts > job.maxRetries {
          DeadPatch(row, attempts, stamp, message);
        } else {
          RetryPatch(row, attempts, ComputeBackoffRunAfter(nowMs, base, attempts), stamp, message);
        }
    }
  }

  /** The dead patch: state, attempts, `updated_at` and the error; `run_after` is kept. */
  lemma DeadPatch(row: Job, attempts: nat, stamp: Timestamp, message: string)
    ensures Patched(row, [SetState(Dead), SetAttempts(attempts), SetUpdatedAt(stamp), SetLastError(Some(message))])
         == row.(state := Dead, attempts := attempts, updatedAt := stamp, lastError := Some(message))
  {
    var a, b, c, d := SetState(Dead), SetAttempts(attempts), SetUpdatedAt(stamp), SetLastError(Some(message));
    PatchedSnoc(row, [], a);
    assert [] + [a] == [a];
    PatchedSnoc(row, [a], b);
    assert [a] + [b] == [a, b];
    PatchedSnoc(row, [a, b], c);
    assert [a, b] + [c] == [a, b, c];
    PatchedSnoc(row, [a, b, c], d);
    assert [a, b, c] + [d] == [a, b, c, d];
  }

  /** The retry patch: pending again with a new `run_after`, attempts, `updated_at` and the error. */
  lemma RetryPatch(row: Job, attempts: nat, runAfter: int, stamp: Timestamp, message: string)
    ensures Patched(row, [SetState(Pending), SetAttempts(attempts), SetRunAfter(runAfter), SetUpdatedAt(stamp),
                          SetLastError(Some(message))])
         == row.(state := Pending, attempts := attempts, runAfter := runAfter, updatedAt := stamp,
                 lastError := Some(message))
  {
    var a, b, c := SetState(Pending), SetAttempts(attempts), SetRunAfter(runAfter);
    var d, e := SetUpdatedAt(stamp), SetLastError(Some(message));
    PatchedSnoc(row, [], a);
    assert [] + [a] == [a];
    PatchedSnoc(row, [a], b);
    assert [a] + [b] == [a, b];
    PatchedSnoc(row, [a, b], c);
    assert [a, b] + [c] == [a, b, c];
    PatchedSnoc(row, [a, b, c], d);
    assert [a, b, c] + [d] == [a, b, c, d];
    PatchedSnoc(row, [a, b, c, d], e);
    assert [a, b, c, d] + [e] == [a, b, c, d, e];
  }

  /**
   * The claim's own write (state and `updated_at`) is overwritten by every
   * outcome: processing the snapshot a claim returned leaves the row exactly
   * as if the outcome had been written over the snapshot itself.
   */
  lemma OutcomeOverwritesClaim(job: Job, claimStamp: Timestamp, exec: ExecResult, base: nat, nowMs: int, stamp: Timestamp)
    ensures ProcessedRow(job.(state := Processing, updatedAt := claimStamp), job, exec, base, nowMs, stamp)
         == ProcessedRow(job, job, exec, base, nowMs, stamp)
  {
    var claimed := job.(state := Processing, updatedAt := claimStamp);
    OutcomeEffect(claimed, job, exec, base, nowMs, stamp);
    OutcomeEffect(job, job, exec, base, nowMs, stamp);
  }

  /** One failed claim-and-process cycle of `job`, at clock `nowMs` for both readings. */
  function FailOnce(job: Job, base: nat, nowMs: int, message: string): Job
  {
    ProcessedRow(job, job, Failure(message), base, nowMs, nowMs)
  }

  /** `job` after one failed cycle at each clock reading of `clocks`, in order. */
  function FailRepeatedly(job: Job, base: nat, clocks: seq<int>, message: string): Job
    decreases |clocks|
  {
    if clocks == [] then job else FailRepeatedly(FailOnce(job, base, clocks[0], message), base, clocks[1..], message)
  }

  /**
   * Terminal exhaustion: from `attempts = a`, each failure adds one attempt;
   * the job stays pending while the count is at most `max_retries` and is
   * dead at the failure that takes it to `max_retries + 1`, never earlier.
   */
  lemma {:induction false} ExhaustionFrom(job: Job, base: nat, clocks: seq<int>, message: string)
    requires job.attempts + |clocks| <= job.maxRetries + 1
    ensures var r := FailRepeatedly(job, base, clocks, message);
      && r.attempts == job.attempts + |clocks|
      && r.maxRetries == job.maxRetries
      && (clocks != [] && job.attempts + |clocks| <= job.maxRetries ==> r.state == Pending)
      && (clocks != [] && job.attempts + |clocks| == job.maxRetries + 1 ==> r.state == Dead)
    decreases |clocks|
  {
    if clocks != [] {
      var next := FailOnce(job, base, clocks[0], message);
      OutcomeEffect(job, job, Failure(message), base, clocks[0], clocks[0]);
      ExhaustionFrom(next, base, clocks[1..], message);
    }
  }

  /**
   * With `max_retries = r >= 0` and no attempts yet, failures 1..r leave the
   * job pending and failure r + 1 makes it dead; with r = 0 the first failure
   * is fatal.
   */
  lemma TerminalExhaustion(job: Job, base: nat, clocks: seq<int>, message: string)
    requires job.attempts == 0 && job.maxRetries >= 0
    requires 1 <= |clocks| <= job.maxRetries + 1
    ensures FailRepeatedly(job, base, clocks, message).attempts == |clocks|
    ensures FailRepeatedly(job, base, clocks, message).state == if |clocks| <= job.maxRetries then Pending else Dead
  {
    ExhaustionFrom(job, base, clocks, message);
  }

  /**
   * Two successive retries of one job, the second at a clock no earlier than
   * the first, get non-decreasing `run_after` for every base, including an
   * unchecked `--base 0` (strictly increasing for base 2 or more).
   */
  lemma RetryBackoffNonDecreasing(job: Job, base: nat, t1: int, t2: int, m1: string, m2: string)
    requires t1 <= t2
    requires job.attempts + 2 <= job.maxRetries
    ensures var first := FailOnce(job, base, t1, m1);
      var second := FailOnce(first, base, t2, m2);
      && first.state == Pending && second.state == Pending
      && first.runAfter <= second.runAfter
      && (base >= 2 ==> first.runAfter < second.runAfter)
  {
    var first := FailOnce(job, base, t1, m1);
    OutcomeEffect(job, job, Failure(m1), base, t1, t1);
    OutcomeEffect(first, first, Failure(m2), base, t2, t2);
    if base >= 1 {
      BackoffMonotoneInAttempts(t1, base, job.attempts + 1, job.attempts + 2);
    }
    BackoffMonotoneInClock(t1, t2, base, job.attempts + 2);
  }
}
