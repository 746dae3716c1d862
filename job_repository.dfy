/**
 * The job repository (src/jobRepository.ts) over the `jobs` table. The
 * table is a map from the primary key `id` to its row; the SQLite
 * statements become updates of that map, and the clock readings the
 * repository takes are parameters.
 */
module JobRepository {
  import opened Models
  import opened Backoff

  /** The `jobs` table, keyed by its primary key `id` (src/db.ts:10). */
  type Rows = map<string, Job>

  /** Every row is stored under its own `id`. */
  ghost predicate KeysMatch(rows: Rows)
  {
    forall id :: id in rows ==> rows[id].id == id
  }

  // ---------------------------------------------------------------------
  // Partial<Job>: the columns `updateJob` may set

  datatype Column =
    | CommandColumn | StateColumn | AttemptsColumn | MaxRetriesColumn
    | CreatedAtColumn | UpdatedAtColumn | RunAfterColumn | LastErrorColumn

  /** The value held in one column. */
  datatype Value =
    | Text(text: string)
    | Number(number: int)
    | StateValue(state: JobState)
    | NullableText(nullable: Option<string>)

  /**
   * One entry of the `fields` object passed to `updateJob`: a column other
   * than `id` and the value to store in it.
   */
  datatype Field =
    | SetCommand(command: string)
    | SetState(state: JobState)
    | SetAttempts(attempts: nat)
    | SetMaxRetries(maxRetries: int)
    | SetCreatedAt(createdAt: Timestamp)
    | SetUpdatedAt(updatedAt: Timestamp)
    | SetRunAfter(runAfter: int)
    | SetLastError(lastError: Option<string>)

  function ColumnOf(f: Field): Column
  {
    match f
    case SetCommand(_) => CommandColumn
    case SetState(_) => StateColumn
    case SetAttempts(_) => AttemptsColumn
    case SetMaxRetries(_) => MaxRetriesColumn
    case SetCreatedAt(_) => CreatedAtColumn
    case SetUpdatedAt(_) => UpdatedAtColumn
    case SetRunAfter(_) => RunAfterColumn
    case SetLastError(_) => LastErrorColumn
  }

  function ValueOf(f: Field): Value
  {
    match f
    case SetCommand(c) => Text(c)
    case SetState(s) => StateValue(s)
    case SetAttempts(n) => Number(n)
    case SetMaxRetries(n) => Number(n)
    case SetCreatedAt(t) => Number(t)
    case SetUpdatedAt(t) => Number(t)
    case SetRunAfter(t) => Number(t)
    case SetLastError(e) => NullableText(e)
  }

  function ColumnValue(job: Job, c: Column): Value
  {
    match c
    case CommandColumn => Text(job.command)
    case StateColumn => StateValue(job.state)
    case AttemptsColumn => Number(job.attempts)
    case MaxRetriesColumn => Number(job.maxRetries)
    case CreatedAtColumn => Number(job.createdAt)
    case UpdatedAtColumn => Number(job.updatedAt)
    case RunAfterColumn => Number(job.runAfter)
    case LastErrorColumn => NullableText(job.lastError)
  }

  /** Two rows with the same id and the same value in every column are the same row. */
  lemma SameColumnsSameJob(a: Job, b: Job)
    requires a.id == b.id
    requires forall c :: ColumnValue(a, c) == ColumnValue(b, c)
    ensures a == b
  {
    assert ColumnValue(a, CommandColumn) == ColumnValue(b, CommandColumn);
    assert ColumnValue(a, StateColumn) == ColumnValue(b, StateColumn);
    assert ColumnValue(a, AttemptsColumn) == ColumnValue(b, AttemptsColumn);
    assert ColumnValue(a, MaxRetriesColumn) == ColumnValue(b, MaxRetriesColumn);
    assert ColumnValue(a, CreatedAtColumn) == ColumnValue(b, CreatedAtColumn);
    assert ColumnValue(a, UpdatedAtColumn) == ColumnValue(b, UpdatedAtColumn);
    assert ColumnValue(a, RunAfterColumn) == ColumnValue(b, RunAfterColumn);
    assert ColumnValue(a, LastErrorColumn) == ColumnValue(b, LastErrorColumn);
  }

  /** `col = value` on one row: that column changes, nothing else does. */
  function Assign(job: Job, f: Field): (r: Job)
    ensures r.id == job.id
    ensures forall c :: ColumnValue(r, c) == if c == ColumnOf(f) then ValueOf(f) else ColumnValue(job, c)
  {
    match f
    case SetCommand(v) => job.(command := v)
    case SetState(v) => job.(state := v)
    case SetAttempts(v) => job.(attempts := v)
    case SetMaxRetries(v) => job.(maxRetries := v)
    case SetCreatedAt(v) => job.(createdAt := v)
    case SetUpdatedAt(v) => job.(updatedAt := v)
    case SetRunAfter(v) => job.(runAfter := v)
    case SetLastError(v) => job.(lastError := v)
  }

  /** The value the last entry of `fields` naming column `c` assigns, if any. */
  function LastAssigned(fields: seq<Field>, c: Column): Option<Value>
  {
    if fields == [] then None
    else if ColumnOf(fields[|fields| - 1]) == c then Some(ValueOf(fields[|fields| - 1]))
    else LastAssigned(fields[..|fields| - 1], c)
  }

  /** No entry of `fields` names column `c`. */
  predicate Untouched(fields: seq<Field>, c: Column)
  {
    forall k :: 0 <= k < |fields| ==> ColumnOf(fields[k]) != c
  }

  /**
   * When `fields` names each column at most once, as the keys of an object
   * do, every entry's value is the one assigned, whatever the order, and an
   * unnamed column is not assigned.
   */
  lemma {:induction false} LastAssignedDistinct(fields: seq<Field>)
    requires forall i, j :: 0 <= i < j < |fields| ==> ColumnOf(fields[i]) != ColumnOf(fields[j])
    ensures forall k :: 0 <= k < |fields| ==> LastAssigned(fields, ColumnOf(fields[k])) == Some(ValueOf(fields[k]))
    ensures forall c :: Untouched(fields, c) ==> LastAssigned(fields, c).None?
    decreases |fields|
  {
    if fields != [] {
      var init := fields[..|fields| - 1];
      LastAssignedDistinct(init);
      forall c | Untouched(fields, c) ensures LastAssigned(fields, c).None? {
        assert Untouched(init, c);
      }
      forall k | 0 <= k < |fields| ensures LastAssigned(fields, ColumnOf(fields[k])) == Some(ValueOf(fields[k])) {
        if k < |fields| - 1 {
          assert init[k] == fields[k];
        }
      }
    }
  }

  /**
   * The row after `UPDATE jobs SET fields`: a column named in `fields` takes
   * the value last assigned to it, every other column and the id keep theirs.
   */
  function Patched(job: Job, fields: seq<Field>): (r: Job)
    ensures r.id == job.id
    ensures forall c ::
      ColumnValue(r, c) == if LastAssigned(fields, c).Some? then LastAssigned(fields, c).value else ColumnValue(job, c)
  {
    if fields == [] then job else Assign(Patched(job, fields[..|fields| - 1]), fields[|fields| - 1])
  }

  /** Appending one entry to a patch applies it after the others. */
  lemma PatchedSnoc(job: Job, fields: seq<Field>, f: Field)
    ensures Patched(job, fields + [f]) == Assign(Patched(job, fields), f)
  {
    assert (fields + [f])[..|fields|] == fields;
  }

  /** A patch of the state and `updated_at` alone changes exactly those two columns. */
  lemma StateStampPatch(job: Job, s: JobState, stamp: Timestamp)
    ensures Patched(job, [SetState(s), SetUpdatedAt(stamp)]) == job.(state := s, updatedAt := stamp)
  {
    var a, b := SetState(s), SetUpdatedAt(stamp);
    PatchedSnoc(job, [], a);
    assert [] + [a] == [a];
    PatchedSnoc(job, [a], b);
    assert [a] + [b] == [a, b];
  }

  /** `params` maps each column to the field that sets it. */
  ghost predicate WellKeyed(params: map<Column, Field>)
  {
    forall c :: c in params ==> ColumnOf(params[c]) == c
  }

  /** `col = @col` when `params` holds a parameter for column `c`. */
  function AssignIfPresent(job: Job, params: map<Column, Field>, c: Column): (r: Job)
    requires WellKeyed(params)
    ensures r.id == job.id
    ensures forall c' :: ColumnValue(r, c') == if c' == c && c in params then ValueOf(params[c]) else ColumnValue(job, c')
  {
    if c in params then Assign(job, params[c]) else job
  }

  /** `UPDATE jobs SET <each column in params> = <its parameter>` on one row. */
  function SetColumns(job: Job, params: map<Column, Field>): (r: Job)
    requires WellKeyed(params)
    ensures r.id == job.id
    ensures forall c :: ColumnValue(r, c) == if c in params then ValueOf(params[c]) else ColumnValue(job, c)
  {
    var j1 := AssignIfPresent(job, params, CommandColumn);
    var j2 := AssignIfPresent(j1, params, StateColumn);
    var j3 := AssignIfPresent(j2, params, AttemptsColumn);
    var j4 := AssignIfPresent(j3, params, MaxRetriesColumn);
    var j5 := AssignIfPresent(j4, params, CreatedAtColumn);
    var j6 := AssignIfPresent(j5, params, UpdatedAtColumn);
    var j7 := AssignIfPresent(j6, params, RunAfterColumn);
    AssignIfPresent(j7, params, LastErrorColumn)
  }

  /** `params` holds, for each column, the field `fields` last assigns to it. */
  ghost predicate ParamsFor(params: map<Column, Field>, fields: seq<Field>)
  {
    && WellKeyed(params)
    && forall c :: LastAssigned(fields, c) == if c in params then Some(ValueOf(params[c])) else None
  }

  /** `params[k] = v` for one more entry keeps `params` in step with the entries seen. */
  lemma ParamsStep(params: map<Column, Field>, fields: seq<Field>, f: Field)
    requires ParamsFor(params, fields)
    ensures ParamsFor(params[ColumnOf(f) := f], fields + [f])
  {
    assert (fields + [f])[..|fields|] == fields;
  }

  /** The UPDATE built from the parameters gives the row `Patched` describes. */
  lemma ParamsUpdateRow(job: Job, params: map<Column, Field>, fields: seq<Field>)
    requires ParamsFor(params, fields)
    ensures SetColumns(job, params) == Patched(job, fields)
  {
    SameColumnsSameJob(SetColumns(job, params), Patched(job, fields));
  }

  /** The table after `updateJob(id, fields)`. */
  function UpdatedRows(rows: Rows, id: string, fields: seq<Field>): (r: Rows)
    ensures r.Keys == rows.Keys
    ensures forall k :: k in rows && k != id ==> r[k] == rows[k]
    ensures fields == [] || id !in rows ==> r == rows
  {
    if fields == [] || id !in rows then rows else rows[id := Patched(rows[id], fields)]
  }

  /** Only the named columns of row `id` change: its id and every other column keep their values. */
  lemma UpdateTouchesOnlyNamedColumns(rows: Rows, id: string, fields: seq<Field>, c: Column)
    requires id in rows && KeysMatch(rows)
    requires LastAssigned(fields, c).None?
    ensures KeysMatch(UpdatedRows(rows, id, fields))
    ensures ColumnValue(UpdatedRows(rows, id, fields)[id], c) == ColumnValue(rows[id], c)
  {
  }

  // ---------------------------------------------------------------------
  // The claim: `getPendingJob`

  /** `state = 'pending' AND run_after <= now`. */
  predicate Eligible(job: Job, now: int)
    ensures Eligible(job, now) ==> job.state == Pending
    ensures job.state == Pending ==> (Eligible(job, now) <==> now >= job.runAfter)
  {
    job.state == Pending && job.runAfter <= now
  }

  /** A claimable row stays claimable as the clock advances, until some write changes it. */
  lemma EligibleLater(job: Job, now: int, later: int)
    requires Eligible(job, now) && now <= later
    ensures Eligible(job, later)
  {
  }

  function EligibleIds(rows: Rows, now: int): set<string>
  {
    set id | id in rows.Keys && Eligible(rows[id], now)
  }

  /** Row `id` is eligible and no eligible row was created before it. */
  predicate IsEarliestEligible(rows: Rows, id: string, now: int)
  {
    && id in rows
    && Eligible(rows[id], now)
    && forall other :: other in rows && Eligible(rows[other], now) ==> rows[id].createdAt <= rows[other].createdAt
  }

  /** Every non-empty set of rows has an oldest member. */
  lemma {:induction false} OldestExists(rows: Rows, ids: set<string>)
    requires ids != {} && ids <= rows.Keys
    ensures exists m :: m in ids && forall o :: o in ids ==> rows[m].createdAt <= rows[o].createdAt
    decreases |ids|
  {
    var x :| x in ids;
    if ids != {x} {
      var rest := ids - {x};
      OldestExists(rows, rest);
      var m :| m in rest && forall o :: o in rest ==> rows[m].createdAt <= rows[o].createdAt;
      if rows[x].createdAt <= rows[m].createdAt {
        assert forall o :: o in ids ==> rows[x].createdAt <= rows[o].createdAt;
      } else {
        assert forall o :: o in ids ==> rows[m].createdAt <= rows[o].createdAt;
      }
    }
  }

  /** Every non-empty set of rows has a newest member. */
  lemma {:induction false} NewestExists(rows: Rows, ids: set<string>)
    requires ids != {} && ids <= rows.Keys
    ensures exists m :: m in ids && forall o :: o in ids ==> rows[o].createdAt <= rows[m].createdAt
    decreases |ids|
  {
    var x :| x in ids;
    if ids != {x} {
      var rest := ids - {x};
      NewestExists(rows, rest);
      var m :| m in rest && forall o :: o in rest ==> rows[o].createdAt <= rows[m].createdAt;
      if rows[m].createdAt <= rows[x].createdAt {
        assert forall o :: o in ids ==> rows[o].createdAt <= rows[x].createdAt;
      } else {
        assert forall o :: o in ids ==> rows[o].createdAt <= rows[m].createdAt;
      }
    }
  }

  /** Whenever some row is eligible, one with the earliest `created_at` exists. */
  lemma EarliestExists(rows: Rows, now: int)
    requires EligibleIds(rows, now) != {}
    ensures exists id :: IsEarliestEligible(rows, id, now)
  {
    var ids := EligibleIds(rows, now);
    OldestExists(rows, ids);
    var m :| m in ids && forall o :: o in ids ==> rows[m].createdAt <= rows[o].createdAt;
    assert forall other :: other in rows && Eligible(rows[other], now) ==> other in ids;
    assert IsEarliestEligible(rows, m, now);
  }

  /** `UPDATE jobs SET state='processing', updated_at=stamp WHERE id=id`. */
  function Claimed(rows: Rows, id: string, stamp: Timestamp): (r: Rows)
    requires id in rows
    ensures r == UpdatedRows(rows, id, [SetState(Processing), SetUpdatedAt(stamp)])
  {
    StateStampPatch(rows[id], Processing, stamp);
    rows[id := rows[id].(state := Processing, updatedAt := stamp)]
  }

  /**
   * A claim removes exactly the claimed row from the eligible set, at every
   * clock reading: a second claim with no write in between cannot return it.
   */
  lemma ClaimRemovesOnlyClaimed(rows: Rows, id: string, stamp: Timestamp, now: int)
    requires id in rows
    ensures id !in EligibleIds(Claimed(rows, id, stamp), now)
    ensures EligibleIds(Claimed(rows, id, stamp), now) == EligibleIds(rows, now) - {id}
  {
  }

  // ---------------------------------------------------------------------
  // The table and its writes

  class JobTable {
    var rows: Rows

    ghost predicate Valid()
      reads this
    {
      KeysMatch(rows)
    }

    /** An empty `jobs` table. */
    constructor ()
      ensures Valid() && rows == map[]
    {
      rows := map[];
    }

    /**
     * `insertJob`: adds one row keyed by `job.id`; an id already present
     * violates the primary key, the statement fails and nothing changes.
     */
    method InsertJob(job: Job) returns (inserted: bool)
      requires Valid()
      modifies this
      ensures Valid()
      ensures inserted == (job.id !in old(rows))
      ensures rows == if inserted then old(rows)[job.id := job] else old(rows)
    {
      if job.id in rows {
        return false;
      }
      rows := rows[job.id := job];
      return true;
    }

    /**
     * `getPendingJob`: selects an eligible row with the earliest `created_at`
     * (ties are not broken) and marks it processing. The row is returned as
     * read by the select, before the update.
     */
    method GetPendingJob(nowMs: int, stamp: Timestamp) returns (claimed: Option<Job>)
      requires Valid()
      modifies this
      ensures Valid()
      ensures claimed.None? ==> EligibleIds(old(rows), EpochSeconds(nowMs)) == {} && rows == old(rows)
      ensures claimed.Some? ==>
        && IsEarliestEligible(old(rows), claimed.value.id, EpochSeconds(nowMs))
        && claimed.value == old(rows)[claimed.value.id]
        && rows == Claimed(old(rows), claimed.value.id, stamp)
    {
      var now := nowMs / 1000;
      if EligibleIds(rows, now) == {} {
        return None;
      }
      EarliestExists(rows, now);
      var id :| id in rows && IsEarliestEligible(rows, id, now);
      var job := rows[id];
      rows := rows[job.id := job.(state := Processing, updatedAt := stamp)];
      return Some(job);
    }

    /**
     * `updateJob(id, fields)`: builds the SET list and its parameters entry
     * by entry, does nothing for an empty list, and otherwise updates row
     * `id` if there is one.
     */
    method UpdateJob(id: string, fields: seq<Field>)
      requires Valid()
      modifies this
      ensures Valid()
      ensures rows == UpdatedRows(old(rows), id, fields)
    {
      var columns: seq<Column> := [];
      var params: map<Column, Field> := map[];
      for i := 0 to |fields|
        invariant rows == old(rows)
        invariant |columns| == i
        invariant ParamsFor(params, fields[..i])
      {
        var f := fields[i];
        ParamsStep(params, fields[..i], f);
        assert fields[..i + 1] == fields[..i] + [f];
        columns := columns + [ColumnOf(f)];
        params := params[ColumnOf(f) := f];
      }
      if |columns| == 0 {
        return;
      }
      assert fields[..|fields|] == fields;
      if id in rows {
        var updated := SetColumns(rows[id], params);
        ParamsUpdateRow(rows[id], params, fields);
        rows := rows[id := updated];
      }
    }
  }

  // ---------------------------------------------------------------------
  // Read-only queries

  /** `getJob(id)`: the row stored under `id`, or none. */
  function GetJob(rows: Rows, id: string): (r: Option<Job>)
    ensures r.Some? <==> id in rows
    ensures r.Some? ==> r.value == rows[id]
  {
    if id in rows then Some(rows[id]) else None
  }

  /** The optional `state` filter of `listJobs`. */
  predicate Matches(job: Job, filter: Option<JobState>)
    ensures Matches(job, filter) <==> filter == None || filter == Some(job.state)
  {
    filter.None? || job.state == filter.value
  }

  /**
   * `rows` lists exactly the stored rows that pass `filter`, each once,
   * newest `created_at` first.
   */
  ghost predicate IsListing(table: Rows, filter: Option<JobState>, listed: seq<Job>)
  {
    && (forall k :: 0 <= k < |listed| ==>
          listed[k].id in table && table[listed[k].id] == listed[k] && Matches(listed[k], filter))
    && (forall id :: id in table && Matches(table[id], filter) ==> table[id] in listed)
    && (forall i, j :: 0 <= i < j < |listed| ==> listed[i].id != listed[j].id)
    && (forall i, j :: 0 <= i < j < |listed| ==> listed[i].createdAt >= listed[j].createdAt)
  }

  /**
   * Part way through a listing: `listed` holds, newest first and each once,
   * the matching rows not in `remaining`, none older than a remaining one.
   */
  ghost predicate ListedSoFar(table: Rows, filter: Option<JobState>, listed: seq<Job>, remaining: set<string>)
  {
    && remaining <= table.Keys
    && (forall id :: id in remaining ==> Matches(table[id], filter))
    && (forall k :: 0 <= k < |listed| ==>
          listed[k].id in table && table[listed[k].id] == listed[k] && Matches(listed[k], filter) && listed[k].id !in remaining)
    && (forall id :: id in table && Matches(table[id], filter) ==> id in remaining || table[id] in listed)
    && (forall i, j :: 0 <= i < j < |listed| ==> listed[i].id != listed[j].id)
    && (forall i, j :: 0 <= i < j < |listed| ==> listed[i].createdAt >= listed[j].createdAt)
    && (forall k, id :: 0 <= k < |listed| && id in remaining ==> listed[k].createdAt >= table[id].createdAt)
  }

  /** Moving the newest remaining row to the end of the listing keeps `ListedSoFar`. */
  lemma ListStep(table: Rows, filter: Option<JobState>, listed: seq<Job>, remaining: set<string>, id: string)
    requires KeysMatch(table)
    requires ListedSoFar(table, filter, listed, remaining)
    requires id in remaining && forall o :: o in remaining ==> table[o].createdAt <= table[id].createdAt
    ensures ListedSoFar(table, filter, listed + [table[id]], remaining - {id})
  {
    var listed' := listed + [table[id]];
    assert listed'[|listed|] == table[id];
    assert forall k :: 0 <= k < |listed| ==> listed'[k] == listed[k];
  }

  /**
   * `listJobs(filter)`: `SELECT * ... ORDER BY created_at DESC`, taking the
   * newest remaining row at each step; rows with equal `created_at` come in
   * an unspecified order.
   */
  method ListJobs(table: Rows, filter: Option<JobState>) returns (listed: seq<Job>)
    requires KeysMatch(table)
    ensures IsListing(table, filter, listed)
  {
    var remaining := set id | id in table.Keys && Matches(table[id], filter);
    listed := [];
    while remaining != {}
      invariant ListedSoFar(table, filter, listed, remaining)
      decreases |remaining|
    {
      NewestExists(table, remaining);
      var id :| id in remaining && forall o :: o in remaining ==> table[o].createdAt <= table[id].createdAt;
      ListStep(table, filter, listed, remaining, id);
      listed := listed + [table[id]];
      remaining := remaining - {id};
    }
  }

  /** The ids of the rows in state `s`. */
  function IdsIn(rows: Rows, s: JobState): set<string>
  {
    set id | id in rows.Keys && rows[id].state == s
  }

  /** The number of rows in state `s`. */
  function CountIn(rows: Rows, s: JobState): nat
  {
    |IdsIn(rows, s)|
  }

  lemma DisjointUnionSize(a: set<string>, b: set<string>)
    requires a !! b
    ensures |a + b| == |a| + |b|
  {
  }

  /** Rows in two different states are disjoint sets. */
  lemma IdsInDisjoint(rows: Rows, s: JobState, t: JobState)
    requires s != t
    ensures IdsIn(rows, s) !! IdsIn(rows, t)
  {
  }

  /** Every row is in exactly one state, so the five counts add up to the table size. */
  lemma CountsPartition(rows: Rows)
    ensures CountIn(rows, Pending) + CountIn(rows, Processing) + CountIn(rows, Completed)
            + CountIn(rows, Failed) + CountIn(rows, Dead) == |rows|
  {
    var p, q, c, f, d := IdsIn(rows, Pending), IdsIn(rows, Processing), IdsIn(rows, Completed),
                         IdsIn(rows, Failed), IdsIn(rows, Dead);
    IdsInDisjoint(rows, Pending, Processing);
    IdsInDisjoint(rows, Pending, Completed);
    IdsInDisjoint(rows, Processing, Completed);
    IdsInDisjoint(rows, Pending, Failed);
    IdsInDisjoint(rows, Processing, Failed);
    IdsInDisjoint(rows, Completed, Failed);
    IdsInDisjoint(rows, Pending, Dead);
    IdsInDisjoint(rows, Processing, Dead);
    IdsInDisjoint(rows, Completed, Dead);
    IdsInDisjoint(rows, Failed, Dead);
    var pq := p + q;
    DisjointUnionSize(p, q);
    var pqc := pq + c;
    DisjointUnionSize(pq, c);
    var pqcf := pqc + f;
    DisjointUnionSize(pqc, f);
    var all := pqcf + d;
    DisjointUnionSize(pqcf, d);
    assert rows.Keys == all by {
      forall id | id in rows.Keys ensures id in all {
        assert id in IdsIn(rows, rows[id].state);
      }
    }
    assert |rows| == |rows.Keys|;
  }

  /** One row of `SELECT state, COUNT(*) AS cnt FROM jobs GROUP BY state`. */
  datatype GroupRow = GroupRow(state: JobState, cnt: nat)

  /** The GROUP BY result: one row per state of `states` that some job is in. */
  function GroupByState(rows: Rows, states: seq<JobState>): (groups: seq<GroupRow>)
    ensures forall k :: 0 <= k < |groups| ==> groups[k].cnt == CountIn(rows, groups[k].state) > 0
    ensures forall s :: s in states && CountIn(rows, s) > 0 ==> GroupRow(s, CountIn(rows, s)) in groups
  {
    if states == [] then []
    else
      var rest := GroupByState(rows, states[1..]);
      if CountIn(rows, states[0]) > 0 then [GroupRow(states[0], CountIn(rows, states[0]))] + rest else rest
  }

  /** Each state is a key of the zero-filled record `stats` starts from. */
  lemma ZeroFilledHasEveryState(s: JobState)
    ensures s in map[Pending := 0, Processing := 0, Completed := 0, Failed := 0, Dead := 0]
  {
    AllStatesClosed(s);
  }

  /** A state that no GROUP BY row names has no rows. */
  lemma UngroupedStateIsEmpty(rows: Rows, groups: seq<GroupRow>, s: JobState)
    requires forall t :: t in AllStates && CountIn(rows, t) > 0 ==> GroupRow(t, CountIn(rows, t)) in groups
    requires forall k :: 0 <= k < |groups| ==> groups[k].state != s
    ensures CountIn(rows, s) == 0
  {
    AllStatesClosed(s);
  }

  /**
   * After the first `i` GROUP BY rows are copied into `counts`: every state
   * is a key, and its entry is either its count or the zero it started from,
   * in which case none of those rows named it.
   */
  ghost predicate CountedSoFar(rows: Rows, groups: seq<GroupRow>, counts: map<JobState, nat>, i: nat)
    requires i <= |groups|
  {
    && (forall s :: s in counts)
    && forall s :: counts[s] == CountIn(rows, s) || (counts[s] == 0 && forall k :: 0 <= k < i ==> groups[k].state != s)
  }

  /** Copying GROUP BY row `i` into `counts` keeps `CountedSoFar`. */
  lemma CountStep(rows: Rows, groups: seq<GroupRow>, counts: map<JobState, nat>, i: nat)
    requires i < |groups|
    requires forall k :: 0 <= k < |groups| ==> groups[k].cnt == CountIn(rows, groups[k].state)
    requires CountedSoFar(rows, groups, counts, i)
    ensures CountedSoFar(rows, groups, counts[groups[i].state := groups[i].cnt], i + 1)
  {
  }

  /** Once every GROUP BY row is copied, each state holds its count and the counts add up to the table size. */
  lemma CountsComplete(rows: Rows, groups: seq<GroupRow>, counts: map<JobState, nat>)
    requires forall t :: t in AllStates && CountIn(rows, t) > 0 ==> GroupRow(t, CountIn(rows, t)) in groups
    requires CountedSoFar(rows, groups, counts, |groups|)
    ensures forall s :: s in counts && counts[s] == CountIn(rows, s)
    ensures counts[Pending] + counts[Processing] + counts[Completed] + counts[Failed] + counts[Dead] == |rows|
  {
    forall s ensures counts[s] == CountIn(rows, s) {
      if counts[s] != CountIn(rows, s) {
        UngroupedStateIsEmpty(rows, groups, s);
      }
    }
    CountsPartition(rows);
  }

  /**
   * `stats`: a zero-filled count for each of the five states, overwritten by
   * the GROUP BY rows. Every state is present and holds its number of rows.
   */
  method Stats(rows: Rows) returns (counts: map<JobState, nat>)
    ensures forall s :: s in counts && counts[s] == CountIn(rows, s)
    ensures counts[Pending] + counts[Processing] + counts[Completed] + counts[Failed] + counts[Dead] == |rows|
  {
    var groups := GroupByState(rows, AllStates);
    counts := map[Pending := 0, Processing := 0, Completed := 0, Failed := 0, Dead := 0];
    forall s ensures s in counts {
      ZeroFilledHasEveryState(s);
    }
    for i := 0 to |groups|
      invariant CountedSoFar(rows, groups, counts, i)
    {
      CountStep(rows, groups, counts, i);
      counts := counts[groups[i].state := groups[i].cnt];
    }
    CountsComplete(rows, groups, counts);
  }
}
