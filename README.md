# queuectl job lifecycle, modelled in Dafny

queuectl is a command-line background job queue kept in one SQLite table,
`jobs`. `enqueue` inserts a shell-command job in state `pending`; worker
loops repeatedly claim the oldest eligible pending job (state `pending` and
`run_after` no later than the current second), flip it to `processing`, run
its command, and write the outcome: `completed` on success; on failure one
more attempt is counted and the job either goes back to `pending` with an
exponential-backoff `run_after` or, past `max_retries`, to `dead`. `dlq`
lists dead jobs and can put one back to `pending`.

This project models that lifecycle engine:

- `models.dfy` (module `Models`): the five-valued `JobState` and the `Job`
  row. Timestamps (`created_at`, `updated_at`), stored as ISO-8601 text, are
  represented by the instant they denote in milliseconds; `toISOString`
  text sorts chronologically, so ordering by the column is ordering by the
  instant. `run_after` is an integer number of epoch seconds.
- `backoff.dfy` (module `Backoff`): `computeBackoffRunAfter` with the clock
  reading as a parameter, and its monotonicity.
- `job_repository.dfy` (module `JobRepository`): the table as a map from the
  primary key `id` to its row. The class `JobTable` holds that map and has
  the writes `InsertJob`, `GetPendingJob` (the claim) and `UpdateJob`; the
  read queries `GetJob`, `ListJobs` and `Stats` take the map. A
  `Partial<Job>` is a sequence of `Field` assignments, one per column named.
- `processor.dfy` (module `Processor`): `processJob`, with the result of
  running the command passed in as `Success` or `Failure(message)`.
- `cli.dfy` (module `Cli`): the `enqueue` and `dlq` actions.
- `lifecycle.dfy` (module `Lifecycle`): an invariant every row written by the
  engine keeps, its preservation by each write, and one sequential
  claim-then-process pass of a worker loop.

Clock readings (`Date.now()` for the claim and the backoff, `new
Date().toISOString()` for `updated_at`), the fresh uuid and the outcome of
running the command are parameters of the operations that use them.

## Model

| member | source | states |
|---|---|---|
| `Models.AllStatesClosed` | src/models.ts:1 | `JobState` is exactly the five values pending, processing, completed, failed, dead, listed once each |
| `Backoff.EpochSeconds` | src/utils.ts:5 | the current second is the floor of the millisecond clock divided by 1000, also for readings before the epoch |
| `Backoff.Pow` | src/utils.ts:4 | `base^attempts` is at least 1 for base 1 or more; base 0 gives 1 only for exponent 0 |
| `Backoff.ComputeBackoffRunAfter` | src/utils.ts:3-7 | for base 1 or more the next eligible second is strictly after the current second |
| `Backoff.PowMonotone` | src/utils.ts:4 | a larger exponent never gives a smaller power; for base 2 or more a strictly larger one |
| `Backoff.BackoffMonotoneInAttempts` | src/utils.ts:3-7 | for base 1 or more, at a fixed clock, more attempts never schedule earlier, and strictly later for base 2 or more |
| `Backoff.BackoffMonotoneInClock` | src/utils.ts:3-7 | for fixed base and attempts, a later clock reading never schedules earlier |
| `Backoff.BackoffBaseTwo` | src/utils.ts:3-7 | base 2 waits 2 seconds after one attempt and 8 after three |
| `JobRepository.Assign` | src/jobRepository.ts:35 | setting one column changes that column to the given value and leaves the id and every other column alone |
| `JobRepository.Patched` | src/jobRepository.ts:27-36 | after the SET list, each named column holds the value last assigned to it and every other column and the id are unchanged |
| `JobRepository.PatchedSnoc` | src/jobRepository.ts:30-35 | one more key in the patch is applied after all the earlier ones |
| `JobRepository.StateStampPatch` | src/jobRepository.ts:20 | a patch of `state` and `updated_at` alone, as the claim and the success outcome (src/processor.ts:12) write, changes exactly those two columns |
| `JobRepository.LastAssignedDistinct` | src/jobRepository.ts:30-33 | when each column is named once, as the keys of an object are, every entry's value is the one stored and unnamed columns are not assigned |
| `JobRepository.SetColumns` | src/jobRepository.ts:29-35 | applying the accumulated parameters sets exactly the columns that have a parameter |
| `JobRepository.UpdatedRows` | src/jobRepository.ts:27-36 | `updateJob` keeps the key set, leaves every other row alone, and changes nothing for an empty field set or an unknown id |
| `JobRepository.UpdateTouchesOnlyNamedColumns` | src/jobRepository.ts:27-36 | a column not named in the fields keeps its value in row `id`, and rows stay keyed by their own id |
| `JobRepository.JobTable.UpdateJob` | src/jobRepository.ts:27-36 | the loop over the entries builds the SET list and parameters; the table afterwards is exactly `UpdatedRows` of the old table |
| `JobRepository.Eligible` | src/jobRepository.ts:16 | definition of the claim's WHERE clause: only pending rows qualify, and a pending row qualifies exactly when the clock has reached its `run_after` |
| `JobRepository.EligibleLater` | src/jobRepository.ts:16 | a row claimable at one clock reading stays claimable at every later one |
| `JobRepository.OldestExists` | src/jobRepository.ts:16 | every non-empty set of rows has one with the smallest `created_at` |
| `JobRepository.NewestExists` | src/jobRepository.ts:41-43 | every non-empty set of rows has one with the largest `created_at` |
| `JobRepository.EarliestExists` | src/jobRepository.ts:16 | whenever some row is pending with `run_after <= now`, one of them has the minimal `created_at` among all such rows |
| `JobRepository.Claimed` | src/jobRepository.ts:20-23 | definition of the claim UPDATE; it equals the general `UpdatedRows` patch of `state` (processing) and `updated_at` on row `id`; its effect on eligibility is in `JobRepository.ClaimRemovesOnlyClaimed` |
| `JobRepository.ClaimRemovesOnlyClaimed` | src/jobRepository.ts:20-23 | after a claim the claimed row is no longer eligible at any clock and every other row's eligibility is unchanged, so a second claim without an intervening write cannot return the same id |
| `JobRepository.JobTable.constructor` | src/db.ts:8-19 | a new database file starts with an empty table (a reopened `queuectl.db` keeps its stored rows, which the model takes as any table satisfying `Valid`) |
| `JobRepository.JobTable.InsertJob` | src/jobRepository.ts:4-10 | a new id adds exactly that row with the given fields; an id already present (primary key, src/db.ts:10) fails and leaves the table unchanged |
| `JobRepository.JobTable.GetPendingJob` | src/jobRepository.ts:12-25 | with no eligible row: returns none and changes nothing; otherwise returns a pending row with `run_after <= now` and minimal `created_at` (ties unbroken), as read before the update, and the table changes only in that row's state (to processing) and `updated_at` |
| `JobRepository.GetJob` | src/jobRepository.ts:46-48 | returns the row stored under `id`, and none exactly when there is no such row |
| `JobRepository.Matches` | src/jobRepository.ts:39-43 | definition of the optional state filter: no filter admits every row, a filter admits exactly the rows in that state |
| `JobRepository.ListJobs` | src/jobRepository.ts:38-44 | returns exactly the stored rows in the filtered state (all rows without a filter), each once, ordered by `created_at` descending, changing nothing |
| `JobRepository.GroupByState` | src/jobRepository.ts:51 | the GROUP BY rows carry each state's true count, and every state that has rows appears |
| `JobRepository.CountsPartition` | src/jobRepository.ts:50-61 | the five per-state counts add up to the number of rows |
| `JobRepository.Stats` | src/jobRepository.ts:50-61 | every one of the five states is present, zero when no row has it, each equal to its number of rows, and the counts sum to the table size |
| `Processor.OutcomeFields` | src/processor.ts:12-32 | definition of the three `updateJob` arguments: each names every column at most once, always sets the state first and stamps `updated_at`, sets `completed` exactly on success, and on failure records the snapshot's attempts plus one and the message |
| `Processor.OutcomeResult` | src/processor.ts:13-33 | definition of the resolved value: success exactly when the command succeeded, and a failure is dead exactly when the snapshot's attempts had reached `max_retries` |
| `Processor.ProcessJob` | src/processor.ts:9-36 | writes only row `job.id`, with the fields of the taken branch computed from the snapshot `job`; resolves to success, or failure with `dead` exactly when `job.attempts + 1 > max_retries` |
| `Processor.OutcomeEffect` | src/processor.ts:11-33 | success: completed, fresh `updated_at`, attempts, `run_after` and `last_error` unchanged; failure: attempts is the snapshot's plus one and `last_error` the message; dead keeps `run_after`, retry is pending with `run_after = computeBackoffRunAfter(base, attempts)` |
| `Processor.DeadPatch` | src/processor.ts:17-22 | the dead update sets state, attempts, `updated_at` and `last_error` and keeps `run_after` and the other columns |
| `Processor.RetryPatch` | src/processor.ts:25-32 | the retry update sets the row pending with the given attempts, `run_after`, `updated_at` and error, and keeps `command`, `max_retries` and `created_at` |
| `Processor.OutcomeOverwritesClaim` | src/processor.ts:12-31 | every outcome overwrites the claim's state and stamp, so processing a claimed row gives the same row as writing the outcome over the snapshot |
| `Processor.ExhaustionFrom` | src/processor.ts:15-27 | each failure adds one attempt; the job is pending while attempts stay within `max_retries` and dead at the failure that reaches `max_retries + 1` |
| `Processor.TerminalExhaustion` | src/processor.ts:15-16 | from 0 attempts with `max_retries = r >= 0`, failures 1..r leave the job pending and failure r + 1 makes it dead; with r = 0 the first failure is fatal |
| `Processor.RetryBackoffNonDecreasing` | src/processor.ts:25 | successive retries of one job at non-decreasing clock readings get non-decreasing `run_after` for every base, including base 0 (both retries then get the current second), strictly increasing for base 2 or more |
| `Cli.MaxRetriesFrom` | src/cli.ts:31 | definition of the `--max-retries` fallback to 3: the option's value when given, otherwise 3 |
| `Cli.NewJob` | src/cli.ts:17-36 | the built job is pending with 0 attempts, `run_after` 0, no error and `created_at = updated_at`; `max_retries` from the option (default 3); a non-JSON or `null` argument is the command with the fresh id; a JSON value gives its `command` and its `id` when non-empty; no job when the JSON has no `command` |
| `Cli.NewJobIsClaimable` | src/cli.ts:29-34 | a newly built job is eligible at every clock reading from the epoch on |
| `Cli.MaxRetriesIgnoresArgument` | src/cli.ts:16-31 | `max_retries` does not depend on the argument: any `max_retries` in the JSON is ignored |
| `Cli.Enqueue` | src/cli.ts:17-38 | inserts the built job when its id is new; a duplicate id or a missing command is rejected and the table is unchanged |
| `Cli.Requeue` | src/cli.ts:87 | definition of the requeue UPDATE; it equals the general `UpdatedRows` patch of `state`, `attempts` and `last_error` on row `id`; its effects are in `Cli.RequeueEffect` |
| `Cli.RequeuePatch` | src/cli.ts:87 | the requeue's three columns applied as one patch reset exactly those columns and keep the rest |
| `Cli.RequeueEffect` | src/cli.ts:87 | requeue sets state pending, attempts 0 and no error whatever the prior state, leaves `command`, `max_retries`, `run_after`, `created_at` and `updated_at` untouched, and every other row alone |
| `Cli.RequeueIdempotent` | src/cli.ts:87 | requeueing twice yields the same table as once |
| `Cli.RequeuedEligibility` | src/cli.ts:87 | a requeued job is claimable exactly when its kept `run_after` has passed |
| `Cli.Dlq` | src/cli.ts:78-89 | `--list` returns the dead jobs and changes nothing, even with `--retry`; an unknown id reports not found and changes nothing; a known id is requeued; no list and no (or an empty) id does nothing |
| `Lifecycle.InvariantConsequences` | src/processor.ts:15-27 | in a table the engine wrote, no job is `failed`; with `max_retries >= 0` a job that is not dead has at most `max_retries` attempts, and `max_retries + 1` attempts occur only in `dead` |
| `Lifecycle.EnqueuePreservesInvariant` | src/cli.ts:25-37 | an enqueued job satisfies the row invariant (not failed, no error with 0 attempts, attempts within budget) and inserting it keeps the table invariant |
| `Lifecycle.ClaimPreservesInvariant` | src/jobRepository.ts:20-23 | claiming an eligible row keeps the table invariant |
| `Lifecycle.OutcomePreservesInvariant` | src/processor.ts:9-36 | writing any outcome for a claimed job keeps the invariant: an error is recorded exactly when attempts are positive, and a dead job has exactly its budget plus one attempts |
| `Lifecycle.RequeuePreservesInvariant` | src/cli.ts:87 | requeueing any row keeps the table invariant |
| `Lifecycle.OutcomeNeverWritesFailed` | src/processor.ts:12-27 | no outcome write sets the state `failed` |
| `Lifecycle.WorkerStep` | src/workerManager.ts:15-21 | one claim-then-process pass changes nothing when no job is eligible; otherwise only the earliest eligible row changes, to the outcome written over its snapshot, and the invariant is kept |

## Left out

- Running the command: `exec` with its 5-minute timeout (src/processor.ts:11) is an external process; its result is the `ExecResult` parameter, and `err.message || String(err)` is the message string.
- The worker pool (src/workerManager.ts): fire-and-forget spawning of several loops, the module-wide `active` flag, polling sleep and logging. Only one sequential pass of the loop body is modelled (`Lifecycle.WorkerStep`).
- Claim atomicity: `getPendingJob` runs a SELECT and then a separate UPDATE without a transaction; the model is sequential and says nothing about concurrent claims.
- Connection and schema handling (src/db.ts): only the primary key on `id` and the NOT NULL `command` column are modelled.
- Command-line plumbing: commander option parsing, the `Number(...)` conversion of option strings (and the NaN it yields for non-numeric text), chalk, `console.table`, the SIGINT handler, and the `worker`, `list` and `status` commands.
- `JSON.parse` itself: the parse result is a parameter whose `command` and `id` are strings or absent; JSON values of other types in those properties are not modelled.
- `updateJob` with an `id` entry in its fields, which would also change the row the WHERE clause selects: no caller passes one, and `Field` has no such entry.
- `listJobs` with a state string outside the five values: a non-empty one returns no rows, and the empty string is treated as no filter, which the model covers as `None`; the filter is a `JobState`.
- `sleep` (src/utils.ts:1): timer I/O.
- Backoff.Pow: `Math.pow` is a floating-point operation; the model is an exact power of a natural-number base, so fractional or negative bases and results beyond 2^53 are not modelled.
- Backoff.ComputeBackoffRunAfter: the worker passes `Number(opts.base)` unchecked; only natural-number bases are modelled.

Places where the model deliberately follows the code as written:

- Claims do not break ties on `created_at` (src/jobRepository.ts:16); `GetPendingJob` and `ListJobs` return some row with the extreme `created_at`, not one chosen by id.
- Requeue applies to a job in any state and neither stamps `updated_at` nor resets `run_after` (src/cli.ts:87).
- The dead transition leaves `run_after` untouched (src/processor.ts:17-22).
- `failed` is a declared state that nothing ever writes.
- An unknown id for `dlq --retry` prints a message and returns rather than failing (src/cli.ts:86); it is the `JobNotFound` outcome.
- A `max_retries` in the enqueued JSON is ignored; only `--max-retries` counts (src/cli.ts:31).
