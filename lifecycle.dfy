/**
 * The job state machine as a whole: an invariant on every row that the
 * engine's writes (enqueue, claim, outcome, requeue) keep, and one
 * sequential claim-then-process cycle of a worker loop
 * (src/workerManager.ts:15-21).
 */
module Lifecycle {
  import opened Models
  import opened Backoff
  import opened JobRepository
  import opened Processor
  import opened Cli

  /** The attempts a job may fail while still being retried: `max_retries`, or none if it is negative. */
  function Budget(maxRetries: int): nat
  {
    if maxRetries < 0 then 0 else maxRetries
  }

  /**
   * A row written only by the engine: never `failed`; an error is recorded
   * exactly when some attempt failed; a dead job has used its whole budget
   * plus the fatal attempt, any other job at most its budget.
   */
  ghost predicate JobInvariant(job: Job)
  {
    && job.state != Failed
    && (job.lastError.Some? <==> job.attempts > 0)
    && (if job.state == Dead then job.attempts == Budget(job.maxRetries) + 1 else job.attempts <= Budget(job.maxRetries))
  }

  ghost predicate TableInvariant(rows: Rows)
  {
    KeysMatch(rows) && forall id :: id in rows ==> JobInvariant(rows[id])
  }

  /**
   * What the invariant means for one row: it is never `failed`; with a
   * non-negative `max_retries` a job that is not dead has at most
   * `max_retries` attempts, and `max_retries + 1` attempts occur only in
   * `dead`.
   */
  lemma InvariantConsequences(rows: Rows, id: string)
    requires TableInvariant(rows) && id in rows
    ensures rows[id].state != Failed
    ensures rows[id].maxRetries >= 0 && rows[id].state != Dead ==> rows[id].attempts <= rows[id].maxRetries
    ensures rows[id].maxRetries >= 0 && rows[id].attempts == rows[id].maxRetries + 1 ==> rows[id].state == Dead
  {
  }

  /** `enqueue` builds a job that satisfies the invariant and inserting it keeps the table's. */
  lemma EnqueuePreservesInvariant(rows: Rows, raw: string, parsed: ParsedArgument, freshId: string,
                                  maxRetries: Option<int>, stamp: Timestamp)
    requires TableInvariant(rows)
    requires NewJob(raw, parsed, freshId, maxRetries, stamp).Some?
    ensures var job := NewJob(raw, parsed, freshId, maxRetries, stamp).value;
      JobInvariant(job) && (job.id !in rows ==> TableInvariant(rows[job.id := job]))
  {
  }

  /** Claiming an eligible row keeps the invariant. */
  lemma ClaimPreservesInvariant(rows: Rows, id: string, stamp: Timestamp, now: int)
    requires TableInvariant(rows) && id in rows && Eligible(rows[id], now)
    ensures TableInvariant(Claimed(rows, id, stamp))
  {
  }

  /**
   * Writing the outcome for a claimed job keeps the invariant: the stored
   * row is the snapshot `job` with the claim's state and stamp.
   */
  lemma OutcomePreservesInvariant(rows: Rows, job: Job, exec: ExecResult, base: nat, nowMs: int, stamp: Timestamp)
    requires TableInvariant(rows)
    requires job.id in rows && job.state == Pending
    requires rows[job.id] == job.(state := Processing, updatedAt := rows[job.id].updatedAt)
    ensures TableInvariant(UpdatedRows(rows, job.id, OutcomeFields(job, exec, base, nowMs, stamp)))
  {
    var row := rows[job.id];
    assert JobInvariant(row);
    OutcomeEffect(row, job, exec, base, nowMs, stamp);
    var r := ProcessedRow(row, job, exec, base, nowMs, stamp);
    assert JobInvariant(r);
  }

  /** Requeueing any row keeps the invariant. */
  lemma RequeuePreservesInvariant(rows: Rows, id: string)
    requires TableInvariant(rows) && id in rows
    ensures TableInvariant(Requeue(rows, id))
  {
  }

  /** No outcome write ever sets the state to `failed`. */
  lemma OutcomeNeverWritesFailed(job: Job, exec: ExecResult, base: nat, nowMs: int, stamp: Timestamp)
    ensures SetState(Failed) !in OutcomeFields(job, exec, base, nowMs, stamp)
  {
  }

  /**
   * One pass of a worker loop: claim the earliest eligible job and, if there
   * is one, write the outcome `exec` of running its command. Nothing changes
   * when no job is eligible; otherwise only the claimed row changes, to the
   * outcome written over the snapshot, and the invariant is kept.
   */
  method WorkerStep(table: JobTable, claimMs: int, claimStamp: Timestamp, exec: ExecResult, base: nat,
                    doneMs: int, doneStamp: Timestamp) returns (claimed: Option<Job>, result: Option<ProcessResult>)
    requires table.Valid() && TableInvariant(table.rows)
    modifies table
    ensures table.Valid() && TableInvariant(table.rows)
    ensures claimed.None? ==> result.None? && table.rows == old(table.rows)
    ensures claimed.Some? ==>
      && IsEarliestEligible(old(table.rows), claimed.value.id, EpochSeconds(claimMs))
      && claimed.value == old(table.rows)[claimed.value.id]
      && result == Some(OutcomeResult(claimed.value, exec))
      && table.rows == old(table.rows)[claimed.value.id := ProcessedRow(claimed.value, claimed.value, exec, base, doneMs, doneStamp)]
  {
    claimed := table.GetPendingJob(claimMs, claimStamp);
    if claimed.None? {
      return claimed, None;
    }
    var job := claimed.value;
    ghost var afterClaim := table.rows;
    ClaimPreservesInvariant(old(table.rows), job.id, claimStamp, EpochSeconds(claimMs));
    var r := ProcessJob(table, job, exec, base, doneMs, doneStamp);
    OutcomePreservesInvariant(afterClaim, job, exec, base, doneMs, doneStamp);
    OutcomeOverwritesClaim(job, claimStamp, exec, base, doneMs, doneStamp);
    result := Some(r);
  }
}
