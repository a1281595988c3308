/** The server's side of a run: the methods that issue the statements of `Runs`, and
    how the end of `Run::execute` turns an event file and an exit status into an outcome. */
module Server {
  import opened Wrappers
  import opened Orders
  import opened Events
  import opened Schema
  import opened Ingest
  import opened Runs

  datatype ExecuteError = ProcessFailed | Lifecycle(error: RunError)

  class RunStore {
    const db: Database
    const repo: string

    constructor (db: Database, repo: string)
      ensures this.db == db && this.repo == repo
    {
      this.db, this.repo := db, repo;
    }

    /** Supersede what is active, one statement per run, then what is queued, all at once. */
    method CancelExisting(refName: string, now: int) returns (e: Option<DbError>, ghost active: seq<string>)
      modifies db
      ensures ListsActive(old(db.tables.runs), repo, refName, active)
      ensures (db.tables.runs, e) == Runs.CancelExisting(old(db.tables.runs), repo, refName, active, now)
      ensures db.tables == old(db.tables).(runs := db.tables.runs)
    {
      var runs := db.tables.runs;
      var todo := set id | id in runs && OnRef(runs[id], repo, refName) && IsActive(runs[id]);
      var ids := ListIds(todo);
      active := ids;
      ghost var runs0 := db.tables.runs;
      for i := 0 to |ids|
        invariant db.tables == old(db.tables).(runs := db.tables.runs)
        invariant CancelActive(runs0, ids, now) == CancelActive(db.tables.runs, ids[i..], now)
      {
        assert ids[i..][1..] == ids[i + 1..];
        if ids[i] in db.tables.runs {
          match UpdateRun(db.tables.runs, ids[i], WithResolved(db.tables.runs[ids[i]], Superseded, now))
          case Err(error) => return Some(error), active;
          case Ok(runs') => db.tables := db.tables.(runs := runs');
        }
      }
      match CancelQueued(db.tables.runs, repo, refName, now)
      case Err(error) => return Some(error), active;
      case Ok(runs') =>
        db.tables := db.tables.(runs := runs');
        return None, active;
    }

    method Create(n: NewRun, cancelNow: int, insertNow: int)
      returns (r: Result<Run, DbError>, ghost active: seq<string>)
      requires n.repo == repo
      modifies db
      ensures ListsActive(old(db.tables.runs), repo, n.refName, active)
      ensures (db.tables.runs, if r.Ok? then None else Some(r.error)) ==
                CreateRun(old(db.tables.runs), n, active, cancelNow, insertNow)
      ensures db.tables == old(db.tables).(runs := db.tables.runs)
      ensures r.Ok? ==> fresh(r.value) && r.value.db == db && r.value.AsHandle() == Handle(n.id, false, false)
      ensures forall handles, h ::
                Apply(System(old(db.tables.runs), handles), Step.Create(n, active, cancelNow, insertNow, h)) ==
                System(db.tables.runs, if r.Ok? then handles[h := Handle(n.id, false, false)] else handles)
      ensures RowsOk(old(db.tables.runs)) ==>
                Created(old(db.tables.runs), n, cancelNow, insertNow, db.tables.runs,
                        if r.Ok? then None else Some(r.error))
    {
      ghost var runs := db.tables.runs;
      var e, listed := CancelExisting(n.refName, cancelNow);
      active := listed;
      if RowsOk(runs) { CreateMeans(runs, n, active, cancelNow, insertNow); }
      hide Created, RowsOk;
      if e.Some? { return Err(e.value), active; }
      if n.id in db.tables.runs { return Err(PrimaryKey), active; }
      db.tables := db.tables.(runs := db.tables.runs[n.id := FreshRow(n, insertNow)]);
      var run := new Run(db, n.id, false, false);
      return Ok(run), active;
    }
  }

  /** The rows of a SELECT, in whatever order the engine gives them. */
  method ListIds(ids: set<string>) returns (r: seq<string>)
    ensures NoDup(r) && forall id :: id in r <==> id in ids
  {
    r := [];
    var todo := ids;
    while todo != {}
      invariant todo <= ids && NoDup(r) && forall id :: id in r <==> id in ids && id !in todo
      decreases todo
    {
      var id :| id in todo;
      assert id !in r;
      r := r + [id];
      todo := todo - {id};
    }
  }

  /** One UPDATE over every open row: all of them, or none once a CHECK fails. */
  method ReconcileAtStartup(db: Database, now: int) returns (e: Option<DbError>)
    requires RowsOk(db.tables.runs)
    modifies db
    ensures e.None? <==> forall id :: id in old(db.tables.runs) && old(db.tables.runs)[id].resolvedAt.None? ==>
                           OpenedBy(old(db.tables.runs)[id], now)
    ensures e.None? ==>
              && Reconciled(old(db.tables.runs), db.tables.runs, now)
              && db.tables == old(db.tables).(runs := db.tables.runs)
    ensures e.Some? ==> db.tables == old(db.tables)
    ensures ReconcileOrphans(old(db.tables.runs), now) == if e.Some? then Err(e.value) else Ok(db.tables.runs)
    ensures forall handles ::
              Apply(System(old(db.tables.runs), handles), Reconcile(now)) == System(db.tables.runs, handles)
  {
    hide OpenedBy, Reconciled, ReconcileOrphans;
    ReconcileResolvesAll(db.tables.runs, now);
    var updated := OrphanRows(db.tables.runs, now);
    match updated
    case Err(error) => return Some(error);
    case Ok(runs) =>
      db.tables := db.tables.(runs := runs);
      return None;
  }

  method OrphanRows(runs: RunTable, now: int) returns (r: Result<RunTable, DbError>)
    ensures r == ReconcileOrphans(runs, now)
  {
    hide WithResolved, RunRowOk;
    var todo, updated := runs.Keys, runs;
    while todo != {}
      invariant todo <= runs.Keys && updated.Keys == runs.Keys
      invariant forall id :: id in runs ==>
                  updated[id] ==
                  if id in todo || runs[id].resolvedAt.Some? then runs[id]
                  else WithResolved(runs[id], FailedOrphaned, now)
      invariant forall id :: id in runs && id !in todo && runs[id].resolvedAt.None? ==>
                RunRowOk(WithResolved(runs[id], FailedOrphaned, now))
      decreases todo
    {
      var id :| id in todo;
      todo := todo - {id};
      if runs[id].resolvedAt.Some? { continue; }
      var row := WithResolved(runs[id], FailedOrphaned, now);
      if !RunRowOk(row) { return Err(CheckFailed); }
      updated := updated[id := row];
    }
    assert updated == ReconcileOrphans(runs, now).value;
    return Ok(updated);
  }

  /** `GET /api/run/bootstrap`, once the bearer token has named the run: a queued row is stamped and handed
      out, unless the stamp does not fit its others. */
  method GetBootstrap(db: Database, runId: string, now: int) returns (r: Result<Bootstrap, RunError>)
    modifies db
    ensures (db.tables.runs, r) == ServeBootstrap(old(db.tables.runs), runId, now)
    ensures db.tables == old(db.tables).(runs := db.tables.runs)
    ensures forall handles ::
              Apply(System(old(db.tables.runs), handles), FetchBootstrap(runId, now)) == System(db.tables.runs, handles)
    ensures r == Err(NotFound) <==> runId !in old(db.tables.runs)
    ensures r == Err(Gone) <==> runId in old(db.tables.runs) && old(db.tables.runs)[runId].dispatchedAt.Some?
    ensures runId in old(db.tables.runs) && old(db.tables.runs)[runId].dispatchedAt.None?
            && RunRowOk(old(db.tables.runs)[runId]) ==>
              var row := old(db.tables.runs)[runId];
              if row.createdAt <= now && (row.resolvedAt.Some? ==> now <= row.resolvedAt.value)
              then r.Ok? else r == Err(RunError.Rejected(CheckFailed))
    ensures r.Ok? ==>
              && runId in old(db.tables.runs)
              && var row := old(db.tables.runs)[runId];
              && r.value.sha == row.sha && r.value.refName == row.refName && r.value.pushedAtMs == row.pushedAtMs
              && r.value.repo == row.repo && r.value.runId == runId && r.value.traceparent == row.traceparent
              && db.tables.runs == old(db.tables.runs)[runId := row.(dispatchedAt := Some(now))]
    ensures r.Err? ==> db.tables == old(db.tables)
  {
    if runId !in db.tables.runs { return Err(NotFound); }
    var row := db.tables.runs[runId];
    if row.dispatchedAt.Some? { return Err(Gone); }
    match UpdateRun(db.tables.runs, runId, row.(dispatchedAt := Some(now)))
    case Err(e) => return Err(RunError.Rejected(e));
    case Ok(runs) =>
      db.tables := db.tables.(runs := runs);
      return Ok(Bootstrap(row.sha, row.refName, row.pushedAtMs, row.repo, runId, row.traceparent));
  }

  class Run {
    const db: Database
    const id: string
    var dispatched: bool
    var resolved: bool

    function AsHandle(): Handle
      reads this
    {
      Handle(id, dispatched, resolved)
    }

    constructor (db: Database, id: string, dispatched: bool, resolved: bool)
      ensures this.db == db && AsHandle() == Handle(id, dispatched, resolved)
    {
      this.db, this.id, this.dispatched, this.resolved := db, id, dispatched, resolved;
    }

    method Dispatch(now: int) returns (e: Option<RunError>)
      modifies this, db
      ensures (db.tables.runs, AsHandle(), e) == DispatchRun(old(db.tables.runs), old(AsHandle()), now)
      ensures db.tables == old(db.tables).(runs := db.tables.runs)
      ensures forall handles: map<nat, Handle>, h :: h in handles && handles[h] == old(AsHandle()) ==>
                Apply(System(old(db.tables.runs), handles), Step.Dispatch(h, now)) ==
                System(db.tables.runs, handles[h := AsHandle()])
      ensures e == Some(AlreadyDispatched) <==> old(dispatched) || old(resolved)
      ensures e.Some? ==> db.tables == old(db.tables) && AsHandle() == old(AsHandle())
      ensures e.None? ==> dispatched && resolved == old(resolved)
      ensures e.None? && id !in old(db.tables.runs) ==> db.tables == old(db.tables)
      ensures e.None? && id in old(db.tables.runs) ==>
                var row := old(db.tables.runs)[id];
                db.tables.runs ==
                old(db.tables.runs)[id := row.(dispatchedAt := if row.dispatchedAt.Some? then row.dispatchedAt
                                                               else Some(now))]
      ensures !old(dispatched) && !old(resolved) && id in old(db.tables.runs) && RunRowOk(old(db.tables.runs)[id]) ==>
                var row := old(db.tables.runs)[id];
                if row.dispatchedAt.Some?
                   || (row.createdAt <= now && (row.resolvedAt.Some? ==> now <= row.resolvedAt.value))
                then e == None else e == Some(RunError.Rejected(CheckFailed))
    {
      if dispatched || resolved { return Some(AlreadyDispatched); }
      if id in db.tables.runs {
        match UpdateRun(db.tables.runs, id, WithDispatched(db.tables.runs[id], now))
        case Err(error) => return Some(RunError.Rejected(error));
        case Ok(runs) => db.tables := db.tables.(runs := runs);
      }
      dispatched := true;
      return None;
    }

    method Resolve(outcome: Outcome, now: int) returns (e: Option<RunError>)
      modifies this, db
      ensures (db.tables.runs, AsHandle(), e) == ResolveRun(old(db.tables.runs), old(AsHandle()), outcome, now)
      ensures db.tables == old(db.tables).(runs := db.tables.runs)
      ensures forall handles: map<nat, Handle>, h :: h in handles && handles[h] == old(AsHandle()) ==>
                Apply(System(old(db.tables.runs), handles), Step.Resolve(h, outcome, now)) ==
                System(db.tables.runs, handles[h := AsHandle()])
      ensures e == Some(AlreadyResolved) <==> old(resolved)
      ensures e.Some? ==> db.tables == old(db.tables) && AsHandle() == old(AsHandle())
      ensures e.None? ==> dispatched && resolved
      ensures e.None? && id !in old(db.tables.runs) ==> db.tables == old(db.tables)
      ensures e.None? && id in old(db.tables.runs) ==>
                var row := old(db.tables.runs)[id];
                db.tables.runs ==
                old(db.tables.runs)[id := row.(
                  dispatchedAt := if row.dispatchedAt.Some? then row.dispatchedAt else Some(now),
                  resolvedAt := if row.resolvedAt.Some? then row.resolvedAt else Some(now),
                  outcome := if row.outcome.Some? then row.outcome else Some(outcome))]
      ensures !old(resolved) && id in old(db.tables.runs) && RunRowOk(old(db.tables.runs)[id])
              && old(db.tables.runs)[id].resolvedAt.None? ==>
                if OpenedBy(old(db.tables.runs)[id], now) then e == None
                else e == Some(RunError.Rejected(CheckFailed))
    {
      if resolved { return Some(AlreadyResolved); }
      if id in db.tables.runs {
        match UpdateRun(db.tables.runs, id, WithResolved(db.tables.runs[id], outcome, now))
        case Err(error) => return Some(RunError.Rejected(error));
        case Ok(runs) => db.tables := db.tables.(runs := runs);
      }
      dispatched := true;
      resolved := true;
      return None;
    }

    /** The first half of `execute`: with an API session only the flag is set, the row is
        left for the bootstrap fetch to stamp. */
    method Begin(session: bool, traceparent: Option<string>, now: int) returns (e: Option<RunError>)
      modifies this, db
      ensures session ==> e == None && dispatched && resolved == old(resolved)
      ensures session && id !in old(db.tables.runs) ==> db.tables == old(db.tables)
      ensures session && id in old(db.tables.runs) ==>
                db.tables == old(db.tables).(
                  runs := old(db.tables.runs)[id := old(db.tables.runs)[id].(traceparent := traceparent)])
      ensures session ==> forall handles: map<nat, Handle>, h :: h in handles && handles[h] == old(AsHandle()) ==>
                Apply(Apply(System(old(db.tables.runs), handles), MarkDispatched(h)),
                      SetTraceparent(id, traceparent)) == System(db.tables.runs, handles[h := AsHandle()])
      ensures !session ==> (db.tables.runs, AsHandle(), e) == DispatchRun(old(db.tables.runs), old(AsHandle()), now)
                           && db.tables == old(db.tables).(runs := db.tables.runs)
    {
      if session {
        dispatched := true;
        db.tables := db.tables.(runs := Runs.StoreTraceparent(db.tables.runs, id, traceparent));
        return None;
      }
      e := Dispatch(now);
    }

    /** The second half, after the subprocess exits: replay its events, then resolve. */
    method Conclude(file: EventsFile, exitOk: bool, now: int) returns (e: Option<ExecuteError>)
      modifies this, db
      ensures db.tables == Concluded(old(db.tables), old(AsHandle()), file, exitOk, now)
      ensures !exitOk ==> e.Some?
      ensures e == None ==> OutcomeRead(old(db.tables), id, file).Some?
      ensures old(resolved) ==> e == Some(Lifecycle(AlreadyResolved)) && db.tables.runs == old(db.tables.runs)
      ensures !old(resolved) && id in old(db.tables.runs) && RunRowOk(old(db.tables.runs)[id])
              && old(db.tables.runs)[id].resolvedAt.None? && OpenedBy(old(db.tables.runs)[id], now) ==>
                var row, read := old(db.tables.runs)[id], OutcomeRead(old(db.tables), id, file);
                && id in db.tables.runs && resolved
                && db.tables.runs[id].resolvedAt == Some(now)
                && (db.tables.runs[id].outcome == Some(SucceededRun) <==> exitOk && read == Some(Succeeded))
                && (db.tables.runs[id].outcome == Some(FailedPipeline) <==> exitOk && read == Some(PipelineFailure))
                && (db.tables.runs[id].outcome == Some(FailedInternal) <==> !exitOk || read == None)
                && e == if exitOk && read.Some? then None else Some(ProcessFailed)
      ensures !old(resolved) && id in old(db.tables.runs) && RunRowOk(old(db.tables.runs)[id])
              && old(db.tables.runs)[id].resolvedAt.None? && !OpenedBy(old(db.tables.runs)[id], now) ==>
                e == Some(Lifecycle(RunError.Rejected(CheckFailed))) && db.tables.runs == old(db.tables.runs)
      ensures var verdict := Verdict(exitOk, OutcomeRead(old(db.tables), id, file));
              var resolved := ResolveRun(AfterIngest(old(db.tables), id, file).runs, old(AsHandle()), verdict, now);
              AsHandle() == resolved.1 && (e == None <==> resolved.2.None? && verdict != FailedInternal)
    {
      hide IngestedTables, IngestResult, OpenedBy, ResolveRun;
      if file.Parsed? { IngestOnlyAdds(db.tables, id, file.events); }
      var ingested := IngestEvents(db, id, file);
      var runOutcome := if ingested.Ok? then ingested.value else None;
      var error: Option<RunError>;
      if !exitOk {
        error := Resolve(FailedInternal, now);
        return Some(if error.Some? then Lifecycle(error.value) else ProcessFailed);
      }
      match runOutcome
      case Some(Succeeded) =>
        error := Resolve(SucceededRun, now);
        return if error.Some? then Some(Lifecycle(error.value)) else None;
      case Some(PipelineFailure) =>
        error := Resolve(FailedPipeline, now);
        return if error.Some? then Some(Lifecycle(error.value)) else None;
      case None =>
        error := Resolve(FailedInternal, now);
        return Some(if error.Some? then Lifecycle(error.value) else ProcessFailed);
    }
  }

  /** `Run::open`: a second handle on an existing run, as its row stands. */
  method OpenRun(db: Database, id: string) returns (r: Option<Run>)
    ensures r.None? <==> id !in db.tables.runs
    ensures r.Some? ==>
              && fresh(r.value) && r.value.db == db && r.value.id == id
              && r.value.dispatched == db.tables.runs[id].dispatchedAt.Some?
              && r.value.resolved == db.tables.runs[id].resolvedAt.Some?
    ensures forall handles, h ::
              Apply(System(db.tables.runs, handles), Open(id, h)) ==
              System(db.tables.runs, if r.Some? then handles[h := r.value.AsHandle()] else handles)
  {
    if id !in db.tables.runs { return None; }
    var row := db.tables.runs[id];
    var run := new Run(db, id, row.dispatchedAt.Some?, row.resolvedAt.Some?);
    return Some(run);
  }

  function AfterIngest(t: Tables, runId: string, file: EventsFile): Tables {
    if file.Parsed? then IngestedTables(t, runId, file.events) else t
  }

  /** What execute knows of the run's own verdict; an ingest error hides it. */
  function OutcomeRead(t: Tables, runId: string, file: EventsFile): Option<RunOutcome> {
    if file.Parsed? && IngestResult(t, runId, file.events).Ok? then IngestResult(t, runId, file.events).value else None
  }

  function Verdict(exitOk: bool, outcome: Option<RunOutcome>): Outcome {
    if !exitOk then FailedInternal
    else
      match outcome
      case Some(Succeeded) => SucceededRun
      case Some(PipelineFailure) => FailedPipeline
      case None => FailedInternal
  }

  /** The tables once the events are ingested and the run is resolved. */
  function Concluded(t: Tables, h: Handle, file: EventsFile, exitOk: bool, now: int): Tables {
    var t1 := AfterIngest(t, h.id, file);
    t1.(runs := ResolveRun(t1.runs, h, Verdict(exitOk, OutcomeRead(t, h.id, file)), now).0)
  }
}
