/**
 * The job record of the queue and its five lifecycle states
 * (src/models.ts).
 */
module Models {

  datatype Option<+T> = None | Some(value: T)

  /**
   * A timestamp column (`created_at`, `updated_at`). The source stores the
   * ISO-8601 text produced by `toISOString`; that text has a fixed width and
   * sorts in chronological order, so it is represented here by the instant it
   * denotes, in milliseconds since the epoch.
   */
  type Timestamp = int

  /** `JobState`: a closed set of five values. `Failed` is declared but never written. */
  datatype JobState = Pending | Processing | Completed | Failed | Dead

  const AllStates: seq<JobState> := [Pending, Processing, Completed, Failed, Dead]

  /** One row of the `jobs` table. `lastError` is the only nullable column. */
  datatype Job = Job(
    id: string,
    command: string,
    state: JobState,
    attempts: nat,
    maxRetries: int,
    createdAt: Timestamp,
    updatedAt: Timestamp,
    runAfter: int,          // whole epoch seconds
    lastError: Option<string>)

  /** `AllStates` lists every state exactly once. */
  lemma AllStatesClosed(s: JobState)
    ensures s in AllStates
    ensures |AllStates| == 5
    ensures forall i, j :: 0 <= i < j < |AllStates| ==> AllStates[i] != AllStates[j]
  {
  }
}
