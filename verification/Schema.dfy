/** The three tables as the final migrations leave them: keys, references and CHECKs,
    and inserting a row as "apply, or reject and change nothing". */
module Schema {
  import opened Wrappers

  /** The five words the `outcome` CHECK admits. */
  datatype Outcome = SucceededRun | FailedPipeline | FailedOrphaned | FailedInternal | Superseded

  /** The three words the job `state` CHECK admits. */
  datatype JobState = StateActive | StateSucceeded | StateFailed

  datatype RunRow = RunRow(
    repo: string, refName: string, sha: string, pushedAtMs: int,
    createdAt: int, dispatchedAt: Option<int>, resolvedAt: Option<int>, outcome: Option<Outcome>,
    runToken: Option<string>, traceparent: Option<string>)

  datatype JobRow = JobRow(state: JobState, exitCode: Option<int>, startedAtMs: Option<int>, finishedAtMs: Option<int>)

  datatype ShRow = ShRow(finishedAtMs: int, exitCode: int, cmd: string)

  type JobKey = (string, string)
  type ShKey = (string, string, int)

  datatype Tables = Tables(runs: map<string, RunRow>, jobs: map<JobKey, JobRow>, sh: map<ShKey, ShRow>)

  datatype DbError = PrimaryKey | ForeignKey | CheckFailed

  predicate RunRowOk(r: RunRow) {
    && (r.dispatchedAt.Some? ==> r.dispatchedAt.value >= r.createdAt)
    && (r.resolvedAt.Some? ==> r.resolvedAt.value >= r.createdAt)
    && (r.resolvedAt.Some? && r.dispatchedAt.Some? ==> r.resolvedAt.value >= r.dispatchedAt.value)
    && (r.resolvedAt.None? <==> r.outcome.None?)
  }

  predicate JobRowOk(r: JobRow) {
    && (r.startedAtMs.Some? && r.finishedAtMs.Some? ==> r.finishedAtMs.value >= r.startedAtMs.value)
    && (if r.state.StateActive? then r.startedAtMs.Some? && r.finishedAtMs.None?
        else r.startedAtMs.Some? && r.finishedAtMs.Some?)
  }

  /** Every key constraint and CHECK of the schema. */
  ghost predicate TablesOk(t: Tables) {
    && (forall id :: id in t.runs ==> RunRowOk(t.runs[id]))
    && (forall k :: k in t.jobs ==> k.0 in t.runs && JobRowOk(t.jobs[k]))
    && forall k :: k in t.sh ==> (k.0, k.1) in t.jobs
  }

  /** CHECKs are evaluated before keys, references last. */
  function InsertJob(t: Tables, key: JobKey, row: JobRow): Result<Tables, DbError> {
    if !JobRowOk(row) then Err(CheckFailed)
    else if key in t.jobs then Err(PrimaryKey)
    else if key.0 !in t.runs then Err(ForeignKey)
    else Ok(t.(jobs := t.jobs[key := row]))
  }

  function InsertSh(t: Tables, key: ShKey, row: ShRow): Result<Tables, DbError> {
    if key in t.sh then Err(PrimaryKey)
    else if (key.0, key.1) !in t.jobs then Err(ForeignKey)
    else Ok(t.(sh := t.sh[key := row]))
  }

  /** `UPDATE runs SET … WHERE id = …`: no row, no change; a failed CHECK undoes the statement. */
  function UpdateRun(runs: map<string, RunRow>, id: string, row: RunRow): Result<map<string, RunRow>, DbError> {
    if id !in runs then Ok(runs)
    else if RunRowOk(row) then Ok(runs[id := row])
    else Err(CheckFailed)
  }

  /** The database the server's connections share. */
  class Database {
    var tables: Tables

    constructor ()
      ensures tables == Tables(map[], map[], map[])
    {
      tables := Tables(map[], map[], map[]);
    }

    method ExecInsertJob(key: JobKey, row: JobRow) returns (e: Option<DbError>)
      modifies this
      ensures InsertJob(old(tables), key, row) == if e.Some? then Err(e.value) else Ok(tables)
      ensures e == if !JobRowOk(row) then Some(CheckFailed)
                   else if key in old(tables).jobs then Some(PrimaryKey)
                   else if key.0 !in old(tables).runs then Some(ForeignKey) else None
      ensures tables == if e.Some? then old(tables) else old(tables).(jobs := old(tables).jobs[key := row])
    {
      match InsertJob(tables, key, row)
      case Err(error) => return Some(error);
      case Ok(t) => tables := t; return None;
    }

    method ExecInsertSh(key: ShKey, row: ShRow) returns (e: Option<DbError>)
      modifies this
      ensures InsertSh(old(tables), key, row) == if e.Some? then Err(e.value) else Ok(tables)
      ensures e == if key in old(tables).sh then Some(PrimaryKey)
                   else if (key.0, key.1) !in old(tables).jobs then Some(ForeignKey) else None
      ensures tables == if e.Some? then old(tables) else old(tables).(sh := old(tables).sh[key := row])
    {
      match InsertSh(tables, key, row)
      case Err(error) => return Some(error);
      case Ok(t) => tables := t; return None;
    }
  }
}
