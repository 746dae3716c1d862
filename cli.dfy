/**
 * The two command-line actions that write to the `jobs` table
 * (src/cli.ts): `enqueue` builds a new job and inserts it, and `dlq` lists
 * the dead jobs or puts one back to pending. Option parsing, output and
 * `JSON.parse` are outside the model: the parsed argument, the fresh uuid
 * and the timestamp come in as parameters.
 */
module Cli {
  import opened Models
  import opened JobRepository

  /**
   * What `JSON.parse(cmd)` gave: a parse error; `null`, on which reading
   * `.command` throws and the catch keeps both defaults; or any other value,
   * whose `command` and `id` properties may be absent.
   */
  datatype ParsedArgument = NotJson | JsonNull | JsonValue(command: Option<string>, id: Option<string>)

  datatype EnqueueError =
    | MissingCommand        // `command TEXT NOT NULL` refuses the row
    | DuplicateId(id: string)  // `id TEXT PRIMARY KEY` refuses the row

  datatype EnqueueOutcome = Enqueued(id: string) | Rejected(error: EnqueueError)

  /** The `--max-retries` default. */
  const DefaultMaxRetries: int := 3

  /** `Number(opts.maxRetries || 3)`: an absent or empty option means 3. */
  function MaxRetriesFrom(option: Option<int>): (maxRetries: int)
    ensures option.None? ==> maxRetries == DefaultMaxRetries
    ensures option.Some? ==> maxRetries == option.value
  {
    if option.Some? then option.value else DefaultMaxRetries
  }

  /**
   * The job the `enqueue` action builds, or none when the parsed JSON has no
   * `command`. `max_retries` comes from the option alone.
   */
  function NewJob(raw: string, parsed: ParsedArgument, freshId: string, maxRetries: Option<int>, stamp: Timestamp)
    : (r: Option<Job>)
    ensures r.None? <==> parsed.JsonValue? && parsed.command.None?
    ensures r.Some? ==>
      && r.value.state == Pending && r.value.attempts == 0 && r.value.runAfter == 0 && r.value.lastError.None?
      && r.value.createdAt == stamp && r.value.updatedAt == stamp
      && r.value.maxRetries == MaxRetriesFrom(maxRetries)
    ensures r.Some? && !parsed.JsonValue? ==> r.value.command == raw && r.value.id == freshId
    ensures r.Some? && parsed.JsonValue? ==>
      && Some(r.value.command) == parsed.command
      && r.value.id == if parsed.id.Some? && parsed.id.value != "" then parsed.id.value else freshId
  {
    match parsed
    case NotJson => Some(Job(freshId, raw, Pending, 0, MaxRetriesFrom(maxRetries), stamp, stamp, 0, None))
    case JsonNull => Some(Job(freshId, raw, Pending, 0, MaxRetriesFrom(maxRetries), stamp, stamp, 0, None))
    case JsonValue(command, id) =>
      if command.None? then None
      else
        var chosen := if id.Some? && id.value != "" then id.value else freshId;
        Some(Job(chosen, command.value, Pending, 0, MaxRetriesFrom(maxRetries), stamp, stamp, 0, None))
  }

  /** A newly built job is claimable at any clock reading from the epoch on. */
  lemma NewJobIsClaimable(raw: string, parsed: ParsedArgument, freshId: string, maxRetries: Option<int>,
                          stamp: Timestamp, now: int)
    requires NewJob(raw, parsed, freshId, maxRetries, stamp).Some? && now >= 0
    ensures Eligible(NewJob(raw, parsed, freshId, maxRetries, stamp).value, now)
  {
  }

  /** Whatever the JSON argument says, two jobs built with the same option get the same `max_retries`. */
  lemma MaxRetriesIgnoresArgument(raw1: string, parsed1: ParsedArgument, id1: string,
                                  raw2: string, parsed2: ParsedArgument, id2: string,
                                  maxRetries: Option<int>, stamp: Timestamp)
    requires NewJob(raw1, parsed1, id1, maxRetries, stamp).Some?
    requires NewJob(raw2, parsed2, id2, maxRetries, stamp).Some?
    ensures NewJob(raw1, parsed1, id1, maxRetries, stamp).value.maxRetries
         == NewJob(raw2, parsed2, id2, maxRetries, stamp).value.maxRetries
  {
  }

  /** The `enqueue` action: build the job and insert it. */
  method Enqueue(table: JobTable, raw: string, parsed: ParsedArgument, freshId: string, maxRetries: Option<int>,
                 stamp: Timestamp) returns (outcome: EnqueueOutcome)
    requires table.Valid()
    modifies table
    ensures table.Valid()
    ensures NewJob(raw, parsed, freshId, maxRetries, stamp).None? ==>
      outcome == Rejected(MissingCommand) && table.rows == old(table.rows)
    ensures NewJob(raw, parsed, freshId, maxRetries, stamp).Some? ==>
      var job := NewJob(raw, parsed, freshId, maxRetries, stamp).value;
      && (job.id in old(table.rows) ==> outcome == Rejected(DuplicateId(job.id)) && table.rows == old(table.rows))
      && (job.id !in old(table.rows) ==> outcome == Enqueued(job.id) && table.rows == old(table.rows)[job.id := job])
  {
    var command: Option<string> := Some(raw);
    var id := freshId;
    match parsed {
      case NotJson =>
      case JsonNull =>
      case JsonValue(c, i) =>
        command := c;
        if i.Some? && i.value != "" {
          id := i.value;
        }
    }
    if command.None? {
      return Rejected(MissingCommand);
    }
    var job := Job(id, command.value, Pending, 0, MaxRetriesFrom(maxRetries), stamp, stamp, 0, None);
    var inserted := table.InsertJob(job);
    if !inserted {
      return Rejected(DuplicateId(id));
    }
    return Enqueued(id);
  }

  /** `UPDATE jobs SET state='pending', attempts=0, last_error=NULL WHERE id=?`. */
  function Requeue(rows: Rows, id: string): (r: Rows)
    requires id in rows
    ensures r == UpdatedRows(rows, id, [SetState(Pending), SetAttempts(0), SetLastError(None)])
  {
    RequeuePatch(rows[id]);
    rows[id := rows[id].(state := Pending, attempts := 0, lastError := None)]
  }

  /** The requeue's three columns, applied as one patch, reset exactly those columns. */
  lemma RequeuePatch(job: Job)
    ensures Patched(job, [SetState(Pending), SetAttempts(0), SetLastError(None)])
         == job.(state := Pending, attempts := 0, lastError := None)
  {
    var a, b, c := SetState(Pending), SetAttempts(0), SetLastError(None);
    var j1, j2 := job.(state := Pending), job.(state := Pending, attempts := 0);
    assert Patched(job, [a]) == j1 by {
      PatchedSnoc(job, [], a);
      assert [] + [a] == [a];
    }
    assert Patched(job, [a, b]) == j2 by {
      PatchedSnoc(job, [a], b);
      assert [a] + [b] == [a, b];
    }
    PatchedSnoc(job, [a, b], c);
    assert [a, b] + [c] == [a, b, c];
  }

  /**
   * Requeue resets state, attempts and the error of row `id`, whatever its
   * state was, and leaves its other columns and every other row alone: it
   * neither stamps `updated_at` nor resets `run_after`.
   */
  lemma RequeueEffect(rows: Rows, id: string)
    requires id in rows
    ensures Requeue(rows, id).Keys == rows.Keys
    ensures forall k :: k in rows && k != id ==> Requeue(rows, id)[k] == rows[k]
    ensures var r := Requeue(rows, id)[id];
      && r.state == Pending && r.attempts == 0 && r.lastError.None?
      && r.id == rows[id].id && r.command == rows[id].command && r.maxRetries == rows[id].maxRetries
      && r.runAfter == rows[id].runAfter && r.createdAt == rows[id].createdAt && r.updatedAt == rows[id].updatedAt
  {
  }

  /** Requeueing twice leaves the same table as requeueing once. */
  lemma RequeueIdempotent(rows: Rows, id: string)
    requires id in rows
    ensures Requeue(Requeue(rows, id), id) == Requeue(rows, id)
  {
  }

  /**
   * Because `run_after` is kept, a requeued job is claimable exactly when its
   * old `run_after` has passed.
   */
  lemma RequeuedEligibility(rows: Rows, id: string, now: int)
    requires id in rows
    ensures Eligible(Requeue(rows, id)[id], now) <==> rows[id].runAfter <= now
  {
  }

  /** What the `dlq` action reports. */
  datatype DlqOutcome = DeadJobs(jobs: seq<Job>) | JobNotFound | Requeued(id: string) | NoAction

  /**
   * The `dlq` action: `--list` lists the dead jobs and returns; otherwise a
   * non-empty `--retry` id is looked up and, when found, requeued.
   */
  method Dlq(table: JobTable, list: bool, retry: Option<string>) returns (outcome: DlqOutcome)
    requires table.Valid()
    modifies table
    ensures table.Valid()
    ensures list ==> outcome.DeadJobs? && IsListing(old(table.rows), Some(Dead), outcome.jobs) && table.rows == old(table.rows)
    ensures !list && (retry.None? || retry.value == "") ==> outcome == NoAction && table.rows == old(table.rows)
    ensures !list && retry.Some? && retry.value != "" && retry.value !in old(table.rows) ==>
      outcome == JobNotFound && table.rows == old(table.rows)
    ensures !list && retry.Some? && retry.value != "" && retry.value in old(table.rows) ==>
      outcome == Requeued(retry.value) && table.rows == Requeue(old(table.rows), retry.value)
  {
    if list {
      var rows := ListJobs(table.rows, Some(Dead));
      return DeadJobs(rows);
    }
    if retry.Some? && retry.value != "" {
      var job := GetJob(table.rows, retry.value);
      if job.None? {
        return JobNotFound;
      }
      var id := job.value.id;
      table.rows := table.rows[id := table.rows[id].(state := Pending, attempts := 0, lastError := None)];
      return Requeued(retry.value);
    }
    return NoAction;
  }
}
