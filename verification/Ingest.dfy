/** Ingest: replaying `events.jsonl` into the `jobs` and `sh` tables in two passes, and
    what that leaves behind for the streams the executor writes, cut anywhere. */
module Ingest {
  import opened Wrappers
  import opened Events
  import opened Schema

  /** What is found at the events path. A line cut in half by a crash makes it unparsable. */
  datatype EventsFile = Missing | Unreadable | Unparsable | Parsed(events: seq<Event>)

  datatype IngestError = ReadFailed | ParseFailed | DbFailed(error: DbError)

  // ------------------------------------------------------- the two passes

  datatype Pass1 = Pass1(tables: Tables, inflight: map<string, int>, outcome: Option<RunOutcome>,
                         error: Option<DbError>)

  datatype Pass2 = Pass2(tables: Tables, inflight: map<string, (int, string)>, error: Option<DbError>)

  function StateOf(o: JobOutcome): JobState {
    match o
    case JobSucceeded => StateSucceeded
    case JobFailed => StateFailed
  }

  function Step1(s: Pass1, runId: string, e: Event): Pass1 {
    if s.error.Some? then s
    else
      match e.kind
      case JobStarted(id) => s.(inflight := s.inflight[id := e.atMs])
      case JobFinished(id, outcome) =>
        var startedAt := if id in s.inflight then s.inflight[id] else e.atMs;
        var s' := s.(inflight := s.inflight - {id});
        (match InsertJob(s.tables, (runId, id), JobRow(StateOf(outcome), None, Some(startedAt), Some(e.atMs)))
         case Ok(t) => s'.(tables := t)
         case Err(error) => s'.(error := Some(error)))
      case RunFinished(outcome) => s.(outcome := Some(outcome))
      case _ => s
  }

  function Step2(s: Pass2, runId: string, e: Event): Pass2 {
    if s.error.Some? then s
    else
      match e.kind
      case ShStarted(id, cmd) => s.(inflight := s.inflight[id := (e.atMs, cmd)])
      case ShFinished(id, exitCode) =>
        if id !in s.inflight then s
        else
          var s' := s.(inflight := s.inflight - {id});
          (match InsertSh(s.tables, (runId, id, s.inflight[id].0), ShRow(e.atMs, exitCode, s.inflight[id].1))
           case Ok(t) => s'.(tables := t)
           case Err(error) => s'.(error := Some(error)))
      case _ => s
  }

  function Replay1(s: Pass1, runId: string, es: seq<Event>): Pass1 {
    if es == [] then s else Step1(Replay1(s, runId, es[..|es| - 1]), runId, es[|es| - 1])
  }

  function Replay2(s: Pass2, runId: string, es: seq<Event>): Pass2 {
    if es == [] then s else Step2(Replay2(s, runId, es[..|es| - 1]), runId, es[|es| - 1])
  }

  function Start1(t: Tables): Pass1 { Pass1(t, map[], None, None) }

  function Start2(t: Tables): Pass2 { Pass2(t, map[], None) }

  /** The tables after ingesting `es`: an insert that fails ends the replay where it stands. */
  function IngestedTables(t: Tables, runId: string, es: seq<Event>): Tables {
    var s1 := Replay1(Start1(t), runId, es);
    if s1.error.Some? then s1.tables else Replay2(Start2(s1.tables), runId, es).tables
  }

  function IngestResult(t: Tables, runId: string, es: seq<Event>): Result<Option<RunOutcome>, IngestError> {
    var s1 := Replay1(Start1(t), runId, es);
    if s1.error.Some? then Err(DbFailed(s1.error.value))
    else
      var s2 := Replay2(Start2(s1.tables), runId, es);
      if s2.error.Some? then Err(DbFailed(s2.error.value)) else Ok(s1.outcome)
  }

  lemma {:induction false} Replay1Append(s: Pass1, runId: string, a: seq<Event>, b: seq<Event>)
    ensures Replay1(s, runId, a + b) == Replay1(Replay1(s, runId, a), runId, b)
  {
    if b == [] {
      assert a + b == a;
    } else {
      Replay1Append(s, runId, a, b[..|b| - 1]);
      assert (a + b)[..|a + b| - 1] == a + b[..|b| - 1];
    }
  }

  lemma {:induction false} Replay2Append(s: Pass2, runId: string, a: seq<Event>, b: seq<Event>)
    ensures Replay2(s, runId, a + b) == Replay2(Replay2(s, runId, a), runId, b)
  {
    if b == [] {
      assert a + b == a;
    } else {
      Replay2Append(s, runId, a, b[..|b| - 1]);
      assert (a + b)[..|a + b| - 1] == a + b[..|b| - 1];
    }
  }

  lemma {:induction false} Replay1Halted(s: Pass1, runId: string, es: seq<Event>)
    requires s.error.Some?
    ensures Replay1(s, runId, es) == s
  {
    if es != [] { Replay1Halted(s, runId, es[..|es| - 1]); }
  }

  lemma {:induction false} Replay2Halted(s: Pass2, runId: string, es: seq<Event>)
    requires s.error.Some?
    ensures Replay2(s, runId, es) == s
  {
    if es != [] { Replay2Halted(s, runId, es[..|es| - 1]); }
  }

  method IngestEvents(db: Database, runId: string, file: EventsFile)
    returns (r: Result<Option<RunOutcome>, IngestError>)
    modifies db
    ensures file.Missing? ==> r == Ok(None) && db.tables == old(db.tables)
    ensures file.Unreadable? ==> r == Err(ReadFailed) && db.tables == old(db.tables)
    ensures file.Unparsable? ==> r == Err(ParseFailed) && db.tables == old(db.tables)
    ensures file.Parsed? ==> r == IngestResult(old(db.tables), runId, file.events)
                             && db.tables == IngestedTables(old(db.tables), runId, file.events)
  {
    match file
    case Missing => return Ok(None);
    case Unreadable => return Err(ReadFailed);
    case Unparsable => return Err(ParseFailed);
    case Parsed(events) =>
      var outcome, error := InsertJobs(db, runId, events);
      if error.Some? { return Err(DbFailed(error.value)); }
      error := InsertShs(db, runId, events);
      if error.Some? { return Err(DbFailed(error.value)); }
      return Ok(outcome);
  }

  /** Pass 1: pair each job's start with its finish and insert the finished row. */
  method InsertJobs(db: Database, runId: string, events: seq<Event>)
    returns (outcome: Option<RunOutcome>, error: Option<DbError>)
    modifies db
    ensures var s := Replay1(Start1(old(db.tables)), runId, events);
            db.tables == s.tables && error == s.error && (error.None? ==> outcome == s.outcome)
  {
    var inflight: map<string, int> := map[];
    outcome, error := None, None;
    ghost var s0 := Start1(db.tables);
    for i := 0 to |events|
      invariant error.None? && Replay1(s0, runId, events[..i]) == Pass1(db.tables, inflight, outcome, None)
    {
      var event := events[i];
      assert events[..i + 1][..i] == events[..i];
      match event.kind
      case JobStarted(id) => inflight := inflight[id := event.atMs];
      case JobFinished(id, jobOutcome) =>
        var startedAt := if id in inflight then inflight[id] else event.atMs;
        inflight := inflight - {id};
        error := db.ExecInsertJob((runId, id), JobRow(StateOf(jobOutcome), None, Some(startedAt), Some(event.atMs)));
        if error.Some? {
          assert events == events[..i + 1] + events[i + 1..];
          Replay1Append(s0, runId, events[..i + 1], events[i + 1..]);
          Replay1Halted(Replay1(s0, runId, events[..i + 1]), runId, events[i + 1..]);
          return;
        }
      case RunFinished(o) => outcome := Some(o);
      case ShStarted(_, _) =>
      case ShFinished(_, _) =>
    }
    assert events[..|events|] == events;
  }

  /** Pass 2: one slot per job pairs each command's start with its finish. */
  method InsertShs(db: Database, runId: string, events: seq<Event>) returns (error: Option<DbError>)
    modifies db
    ensures var s := Replay2(Start2(old(db.tables)), runId, events);
            db.tables == s.tables && error == s.error
  {
    var inflight: map<string, (int, string)> := map[];
    error := None;
    ghost var s0 := Start2(db.tables);
    for i := 0 to |events|
      invariant error.None? && Replay2(s0, runId, events[..i]) == Pass2(db.tables, inflight, None)
    {
      var event := events[i];
      assert events[..i + 1][..i] == events[..i];
      match event.kind
      case ShStarted(id, cmd) => inflight := inflight[id := (event.atMs, cmd)];
      case ShFinished(id, exitCode) =>
        if id !in inflight { continue; }
        var slot := inflight[id];
        inflight := inflight - {id};
        error := db.ExecInsertSh((runId, id, slot.0), ShRow(event.atMs, exitCode, slot.1));
        if error.Some? {
          assert events == events[..i + 1] + events[i + 1..];
          Replay2Append(s0, runId, events[..i + 1], events[i + 1..]);
          Replay2Halted(Replay2(s0, runId, events[..i + 1]), runId, events[i + 1..]);
          return;
        }
      case JobStarted(_) =>
      case JobFinished(_, _) =>
      case RunFinished(_) =>
    }
    assert events[..|events|] == events;
  }

  // ---------------------------------------------------- any event list at all

  /** Only rows of `runId` are added; nothing is overwritten, and every constraint still holds. */
  ghost predicate OnlyAdds(t: Tables, t': Tables, runId: string) {
    && t'.runs == t.runs
    && (TablesOk(t) ==> TablesOk(t'))
    && (forall k :: k in t.jobs ==> k in t'.jobs && t'.jobs[k] == t.jobs[k])
    && (forall k :: k in t'.jobs && k.0 != runId ==> k in t.jobs)
    && (forall k :: k in t.sh ==> k in t'.sh && t'.sh[k] == t.sh[k])
    && (forall k :: k in t'.sh && k.0 != runId ==> k in t.sh)
  }

  lemma InsertsOnlyAdd(t: Tables, runId: string, jobId: string, row: JobRow, ms: int, sh: ShRow)
    ensures OnlyAdds(t, t, runId)
    ensures InsertJob(t, (runId, jobId), row).Ok? ==> OnlyAdds(t, InsertJob(t, (runId, jobId), row).value, runId)
    ensures InsertSh(t, (runId, jobId, ms), sh).Ok? ==> OnlyAdds(t, InsertSh(t, (runId, jobId, ms), sh).value, runId)
  {
  }

  lemma Step1OnlyAdds(s: Pass1, runId: string, e: Event)
    ensures OnlyAdds(s.tables, Step1(s, runId, e).tables, runId)
  {
    hide OnlyAdds, InsertJob;
    InsertsOnlyAdd(s.tables, runId, "", JobRow(StateActive, None, None, None), 0, ShRow(0, 0, ""));
    if e.kind.JobFinished? {
      var startedAt := if e.kind.jobId in s.inflight then s.inflight[e.kind.jobId] else e.atMs;
      InsertsOnlyAdd(s.tables, runId, e.kind.jobId,
                     JobRow(StateOf(e.kind.outcome), None, Some(startedAt), Some(e.atMs)), 0, ShRow(0, 0, ""));
    }
  }

  lemma Step2OnlyAdds(s: Pass2, runId: string, e: Event)
    ensures OnlyAdds(s.tables, Step2(s, runId, e).tables, runId)
  {
    hide OnlyAdds, InsertSh;
    InsertsOnlyAdd(s.tables, runId, "", JobRow(StateActive, None, None, None), 0, ShRow(0, 0, ""));
    if e.kind.ShFinished? && e.kind.jobId in s.inflight {
      var slot := s.inflight[e.kind.jobId];
      InsertsOnlyAdd(s.tables, runId, e.kind.jobId, JobRow(StateActive, None, None, None), slot.0,
                     ShRow(e.atMs, e.kind.exitCode, slot.1));
    }
  }

  lemma OnlyAddsTransitive(a: Tables, b: Tables, c: Tables, runId: string)
    requires OnlyAdds(a, b, runId) && OnlyAdds(b, c, runId)
    ensures OnlyAdds(a, c, runId)
  {
    hide TablesOk;
  }

  lemma {:induction false} Replay1OnlyAdds(s: Pass1, runId: string, es: seq<Event>)
    ensures OnlyAdds(s.tables, Replay1(s, runId, es).tables, runId)
  {
    if es != [] {
      hide OnlyAdds, Step1;
      var before := Replay1(s, runId, es[..|es| - 1]);
      Replay1OnlyAdds(s, runId, es[..|es| - 1]);
      Step1OnlyAdds(before, runId, es[|es| - 1]);
      OnlyAddsTransitive(s.tables, before.tables, Replay1(s, runId, es).tables, runId);
    }
  }

  lemma {:induction false} Replay2OnlyAdds(s: Pass2, runId: string, es: seq<Event>)
    ensures OnlyAdds(s.tables, Replay2(s, runId, es).tables, runId)
  {
    if es != [] {
      hide OnlyAdds, Step2;
      var before := Replay2(s, runId, es[..|es| - 1]);
      Replay2OnlyAdds(s, runId, es[..|es| - 1]);
      Step2OnlyAdds(before, runId, es[|es| - 1]);
      OnlyAddsTransitive(s.tables, before.tables, Replay2(s, runId, es).tables, runId);
    }
  }

  /** Whatever the file claims, ingesting it adds rows of this run only, overwrites none, and
      leaves every key and CHECK of the schema intact. */
  lemma IngestOnlyAdds(t: Tables, runId: string, es: seq<Event>)
    ensures OnlyAdds(t, IngestedTables(t, runId, es), runId)
  {
    var s1 := Replay1(Start1(t), runId, es);
    Replay1OnlyAdds(Start1(t), runId, es);
    Replay2OnlyAdds(Start2(s1.tables), runId, es);
    OnlyAddsTransitive(t, s1.tables, Replay2(Start2(s1.tables), runId, es).tables, runId);
  }

  // -------------------------------------------------- the rows of a history

  function JobRowOf(r: JobRun): JobRow {
    JobRow(if r.script.ok then StateSucceeded else StateFailed, None, Some(r.script.startMs), Some(r.script.finishMs))
  }

  function ShRowOf(a: Attempt): ShRow
    requires a.spawn.Spawned?
  {
    ShRow(a.spawn.finishMs, a.spawn.output.exit, a.cmd)
  }

  /** `jobs` with one row for each of the first `n` runs. */
  function WithJobs(jobs: map<JobKey, JobRow>, runId: string, rs: seq<JobRun>, n: nat): map<JobKey, JobRow>
    requires n <= |rs|
  {
    if n == 0 then jobs else WithJobs(jobs, runId, rs, n - 1)[(runId, rs[n - 1].id) := JobRowOf(rs[n - 1])]
  }

  /** `sh` with one row for each of the first `n` attempts that spawned. */
  function WithShs(sh: map<ShKey, ShRow>, runId: string, id: string, attempts: seq<Attempt>, n: nat): map<ShKey, ShRow>
    requires n <= |attempts|
  {
    if n == 0 then sh
    else
      var before := WithShs(sh, runId, id, attempts, n - 1);
      var a := attempts[n - 1];
      if a.spawn.Spawned? then before[(runId, id, a.startMs) := ShRowOf(a)] else before
  }

  function WithRunShs(sh: map<ShKey, ShRow>, runId: string, rs: seq<JobRun>, n: nat): map<ShKey, ShRow>
    requires n <= |rs|
  {
    if n == 0 then sh
    else WithShs(WithRunShs(sh, runId, rs, n - 1), runId, rs[n - 1].id, rs[n - 1].script.attempts,
                 |rs[n - 1].script.attempts|)
  }

  /** The tables that record the first `n` runs in full, and nothing else. */
  function Recorded(t: Tables, runId: string, rs: seq<JobRun>, n: nat): Tables
    requires n <= |rs|
  {
    t.(jobs := WithJobs(t.jobs, runId, rs, n), sh := WithRunShs(t.sh, runId, rs, n))
  }

  /** Spawned commands of a job have different start stamps. */
  ghost predicate DistinctStarts(attempts: seq<Attempt>, n: nat)
    requires n <= |attempts|
  {
    forall i, j :: 0 <= i < j < n && attempts[i].spawn.Spawned? && attempts[j].spawn.Spawned? ==>
      attempts[i].startMs != attempts[j].startMs
  }

  /** What the schema needs of one executed job's time stamps. */
  ghost predicate Recordable(r: JobRun) {
    r.script.startMs <= r.script.finishMs && DistinctStarts(r.script.attempts, |r.script.attempts|)
  }

  ghost predicate AllRecordable(rs: seq<JobRun>, n: nat)
    requires n <= |rs|
  {
    forall i :: 0 <= i < n ==> Recordable(rs[i])
  }

  /** The run exists and nothing has been recorded for it yet. */
  ghost predicate Fresh(t: Tables, runId: string) {
    && runId in t.runs
    && (forall id :: (runId, id) !in t.jobs)
    && forall id, ms :: (runId, id, ms) !in t.sh
  }

  lemma {:induction false} WithJobsKeys(jobs: map<JobKey, JobRow>, runId: string, rs: seq<JobRun>, n: nat, key: JobKey)
    requires n <= |rs|
    ensures key in WithJobs(jobs, runId, rs, n) <==> key in jobs || exists i :: 0 <= i < n && key == (runId, rs[i].id)
  {
    if n > 0 { WithJobsKeys(jobs, runId, rs, n - 1, key); }
  }

  /** One row per recorded job, with its outcome and times; every other row untouched. */
  lemma {:induction false} WithJobsRows(jobs: map<JobKey, JobRow>, runId: string, rs: seq<JobRun>, n: nat)
    requires n <= |rs| && DistinctRuns(rs)
    ensures forall i :: 0 <= i < n ==> (runId, rs[i].id) in WithJobs(jobs, runId, rs, n)
                                       && WithJobs(jobs, runId, rs, n)[(runId, rs[i].id)] == JobRowOf(rs[i])
    ensures forall key | key in WithJobs(jobs, runId, rs, n) && (forall i :: 0 <= i < n ==> key != (runId, rs[i].id)) ::
              key in jobs && WithJobs(jobs, runId, rs, n)[key] == jobs[key]
  {
    if n > 0 { WithJobsRows(jobs, runId, rs, n - 1); }
  }

  lemma {:induction false} WithShsKeys(sh: map<ShKey, ShRow>, runId: string, id: string, attempts: seq<Attempt>, n: nat,
                                       key: ShKey)
    requires n <= |attempts|
    ensures key in WithShs(sh, runId, id, attempts, n) <==>
              || key in sh
              || exists i :: 0 <= i < n && attempts[i].spawn.Spawned? && key == (runId, id, attempts[i].startMs)
  {
    if n > 0 { WithShsKeys(sh, runId, id, attempts, n - 1, key); }
  }

  lemma {:induction false} WithRunShsJobs(sh: map<ShKey, ShRow>, runId: string, rs: seq<JobRun>, n: nat, key: ShKey)
    requires n <= |rs| && key in WithRunShs(sh, runId, rs, n)
    ensures key in sh || exists i :: 0 <= i < n && key.0 == runId && key.1 == rs[i].id
  {
    if n > 0 {
      WithShsKeys(WithRunShs(sh, runId, rs, n - 1), runId, rs[n - 1].id, rs[n - 1].script.attempts,
                  |rs[n - 1].script.attempts|, key);
      if key in WithRunShs(sh, runId, rs, n - 1) { WithRunShsJobs(sh, runId, rs, n - 1, key); }
    }
  }

  /** Another job's attempts do not touch this job's rows. */
  lemma {:induction false} OtherShRows(sh: map<ShKey, ShRow>, runId: string, id: string, attempts: seq<Attempt>, n: nat,
                                       key: ShKey)
    requires n <= |attempts| && key.1 != id
    ensures key in WithShs(sh, runId, id, attempts, n) <==> key in sh
    ensures key in sh ==> WithShs(sh, runId, id, attempts, n)[key] == sh[key]
  {
    if n > 0 { OtherShRows(sh, runId, id, attempts, n - 1, key); }
  }

  lemma {:induction false} WithShsRow(sh: map<ShKey, ShRow>, runId: string, id: string, attempts: seq<Attempt>, n: nat,
                                      i: nat)
    requires i < n <= |attempts| && attempts[i].spawn.Spawned? && DistinctStarts(attempts, n)
    ensures var key := (runId, id, attempts[i].startMs);
            && key in WithShs(sh, runId, id, attempts, n)
            && WithShs(sh, runId, id, attempts, n)[key] ==
               ShRow(attempts[i].spawn.finishMs, attempts[i].spawn.output.exit, attempts[i].cmd)
  {
    if i < n - 1 { WithShsRow(sh, runId, id, attempts, n - 1, i); }
  }

  /** One row per spawned command of each recorded job, with its stamps, exit status and text. */
  lemma {:induction false} WithRunShsRow(sh: map<ShKey, ShRow>, runId: string, rs: seq<JobRun>, n: nat, m: nat, i: nat)
    requires m < n <= |rs| && DistinctRuns(rs) && i < |rs[m].script.attempts|
    requires rs[m].script.attempts[i].spawn.Spawned?
    requires DistinctStarts(rs[m].script.attempts, |rs[m].script.attempts|)
    ensures var a := rs[m].script.attempts[i];
            var key := (runId, rs[m].id, a.startMs);
            && key in WithRunShs(sh, runId, rs, n)
            && WithRunShs(sh, runId, rs, n)[key] == ShRow(a.spawn.finishMs, a.spawn.output.exit, a.cmd)
  {
    var r, before := rs[n - 1], WithRunShs(sh, runId, rs, n - 1);
    if m == n - 1 {
      WithShsRow(before, runId, r.id, r.script.attempts, |r.script.attempts|, i);
    } else {
      WithRunShsRow(sh, runId, rs, n - 1, m, i);
      OtherShRows(before, runId, r.id, r.script.attempts, |r.script.attempts|,
                  (runId, rs[m].id, rs[m].script.attempts[i].startMs));
    }
  }

  /** And no row besides. */
  lemma {:induction false} WithRunShsKeys(sh: map<ShKey, ShRow>, runId: string, rs: seq<JobRun>, n: nat, key: ShKey)
    requires n <= |rs| && key in WithRunShs(sh, runId, rs, n) && key !in sh
    ensures exists m, i :: 0 <= m < n && 0 <= i < |rs[m].script.attempts| && rs[m].script.attempts[i].spawn.Spawned?
                           && key == (runId, rs[m].id, rs[m].script.attempts[i].startMs)
  {
    var r, before := rs[n - 1], WithRunShs(sh, runId, rs, n - 1);
    WithShsKeys(before, runId, r.id, r.script.attempts, |r.script.attempts|, key);
    if key in before { WithRunShsKeys(sh, runId, rs, n - 1, key); }
  }

  /** What is recorded of a history: of each job its result and the stamps of its brackets, of each spawned
      command its stamps, exit status and text; no other row is added or changed. */
  lemma RecordedMeans(t: Tables, runId: string, rs: seq<JobRun>, n: nat)
    requires n <= |rs| && DistinctRuns(rs) && Fresh(t, runId) && AllRecordable(rs, n)
    ensures Recorded(t, runId, rs, n).runs == t.runs
    ensures forall m :: 0 <= m < n ==>
              && (runId, rs[m].id) in Recorded(t, runId, rs, n).jobs
              && Recorded(t, runId, rs, n).jobs[(runId, rs[m].id)] ==
                 JobRow(if rs[m].script.ok then StateSucceeded else StateFailed, None, Some(rs[m].script.startMs),
                        Some(rs[m].script.finishMs))
    ensures forall key | key in Recorded(t, runId, rs, n).jobs
                         && (forall m :: 0 <= m < n ==> key != (runId, rs[m].id)) ::
              key in t.jobs && Recorded(t, runId, rs, n).jobs[key] == t.jobs[key]
    ensures forall m, i :: 0 <= m < n && 0 <= i < |rs[m].script.attempts| && rs[m].script.attempts[i].spawn.Spawned? ==>
              var a := rs[m].script.attempts[i];
              && (runId, rs[m].id, a.startMs) in Recorded(t, runId, rs, n).sh
              && Recorded(t, runId, rs, n).sh[(runId, rs[m].id, a.startMs)] ==
                 ShRow(a.spawn.finishMs, a.spawn.output.exit, a.cmd)
    ensures forall key | key in Recorded(t, runId, rs, n).sh && key !in t.sh ::
              exists m, i :: 0 <= m < n && 0 <= i < |rs[m].script.attempts| && rs[m].script.attempts[i].spawn.Spawned?
                             && key == (runId, rs[m].id, rs[m].script.attempts[i].startMs)
  {
    hide WithJobs, WithRunShs, DistinctStarts;
    WithJobsRows(t.jobs, runId, rs, n);
    forall m, i | 0 <= m < n && 0 <= i < |rs[m].script.attempts| && rs[m].script.attempts[i].spawn.Spawned?
      ensures var key := (runId, rs[m].id, rs[m].script.attempts[i].startMs);
              key in WithRunShs(t.sh, runId, rs, n)
              && WithRunShs(t.sh, runId, rs, n)[key] ==
                 ShRow(rs[m].script.attempts[i].spawn.finishMs, rs[m].script.attempts[i].spawn.output.exit,
                       rs[m].script.attempts[i].cmd)
    {
      assert Recordable(rs[m]);
      WithRunShsRow(t.sh, runId, rs, n, m, i);
    }
    forall key | key in WithRunShs(t.sh, runId, rs, n) && key !in t.sh
      ensures exists m, i :: 0 <= m < n && 0 <= i < |rs[m].script.attempts|
                             && rs[m].script.attempts[i].spawn.Spawned?
                             && key == (runId, rs[m].id, rs[m].script.attempts[i].startMs)
    {
      WithRunShsKeys(t.sh, runId, rs, n, key);
    }
  }

  // --------------------------------------------------------- pass 1 theory

  /** Sh events and the terminal event do not touch the jobs table. */
  lemma {:induction false} Replay1Sh(s: Pass1, runId: string, id: string, attempts: seq<Attempt>, n: nat, d: nat)
    requires n <= |attempts| && d <= |ShUpTo(id, attempts, n)|
    ensures Replay1(s, runId, ShUpTo(id, attempts, n)[..d]) == s
    decreases d
  {
    if d > 0 {
      var es := ShUpTo(id, attempts, n);
      ShUpToKinds(id, attempts, n, d - 1);
      Replay1Sh(s, runId, id, attempts, n, d - 1);
      assert es[..d][..d - 1] == es[..d - 1];
    }
  }

  /** Part of an unfinished job only leaves its start stamp in flight. */
  lemma Replay1Open(s: Pass1, runId: string, r: JobRun, d: nat)
    requires d <= |OpenJob(r)| && s.error.None?
    ensures Replay1(s, runId, OpenJob(r)[..d]) ==
            if d == 0 then s else s.(inflight := s.inflight[r.id := r.script.startMs])
  {
    if d > 0 {
      var attempts := r.script.attempts;
      var head := [Event(r.script.startMs, JobStarted(r.id))];
      assert OpenJob(r)[..d] == head + ShUpTo(r.id, attempts, |attempts|)[..d - 1];
      Replay1Append(s, runId, head, ShUpTo(r.id, attempts, |attempts|)[..d - 1]);
      assert head[..0] == [];
      assert Replay1(s, runId, head) == Step1(Replay1(s, runId, []), runId, head[0]);
      Replay1Sh(Replay1(s, runId, head), runId, r.id, attempts, |attempts|, d - 1);
    }
  }

  lemma Replay1Job(s: Pass1, runId: string, r: JobRun)
    requires s.error.None? && runId in s.tables.runs && (runId, r.id) !in s.tables.jobs
    ensures var s' := Replay1(s, runId, JobStream(r));
            if r.script.startMs <= r.script.finishMs
            then s' == s.(tables := s.tables.(jobs := s.tables.jobs[(runId, r.id) := JobRowOf(r)]),
                          inflight := s.inflight - {r.id})
            else s'.error.Some?
  {
    var last := Event(r.script.finishMs, JobFinished(r.id, OutcomeOf(r.script.ok)));
    assert JobStream(r)[..|JobStream(r)| - 1] == OpenJob(r) == OpenJob(r)[..|OpenJob(r)|];
    Replay1Open(s, runId, r, |OpenJob(r)|);
    assert s.inflight[r.id := r.script.startMs] - {r.id} == s.inflight - {r.id};
  }

  /** No job among the first `n` ends before it starts. */
  ghost predicate TimesOk(rs: seq<JobRun>, n: nat)
    requires n <= |rs|
  {
    forall i :: 0 <= i < n ==> rs[i].script.startMs <= rs[i].script.finishMs
  }

  lemma {:induction false} Replay1GoodRuns(t: Tables, runId: string, rs: seq<JobRun>, n: nat)
    requires n <= |rs| && DistinctRuns(rs) && runId in t.runs && TimesOk(rs, n)
    requires forall i :: 0 <= i < |rs| ==> (runId, rs[i].id) !in t.jobs
    ensures Replay1(Start1(t), runId, RunsUpTo(rs, n)) ==
              Pass1(t.(jobs := WithJobs(t.jobs, runId, rs, n)), map[], None, None)
  {
    hide JobStream;
    if n > 0 {
      var before, next := RunsUpTo(rs, n - 1), JobStream(rs[n - 1]);
      assert RunsUpTo(rs, n) == before + next;
      hide RunsUpTo, WithJobs;
      Replay1GoodRuns(t, runId, rs, n - 1);
      Replay1Append(Start1(t), runId, before, next);
      NextRow(t, runId, rs, n);
    }
  }

  lemma {:induction false} Replay1BadRuns(t: Tables, runId: string, rs: seq<JobRun>, n: nat)
    requires n <= |rs| && DistinctRuns(rs) && runId in t.runs && !TimesOk(rs, n)
    requires forall i :: 0 <= i < |rs| ==> (runId, rs[i].id) !in t.jobs
    ensures Replay1(Start1(t), runId, RunsUpTo(rs, n)).error.Some?
  {
    var s := Replay1(Start1(t), runId, RunsUpTo(rs, n - 1));
    Replay1Append(Start1(t), runId, RunsUpTo(rs, n - 1), JobStream(rs[n - 1]));
    if TimesOk(rs, n - 1) {
      Replay1GoodRuns(t, runId, rs, n - 1);
      NextRow(t, runId, rs, n);
    } else {
      Replay1BadRuns(t, runId, rs, n - 1);
      Replay1Halted(s, runId, JobStream(rs[n - 1]));
    }
  }

  /** Pass 1 over whole jobs succeeds exactly when none ends before it starts, and then records each. */
  lemma Replay1Runs(t: Tables, runId: string, rs: seq<JobRun>, n: nat)
    requires n <= |rs| && DistinctRuns(rs) && runId in t.runs
    requires forall i :: 0 <= i < |rs| ==> (runId, rs[i].id) !in t.jobs
    ensures var s := Replay1(Start1(t), runId, RunsUpTo(rs, n));
            && (s.error.None? <==> TimesOk(rs, n))
            && (s.error.None? ==> s == Pass1(t.(jobs := WithJobs(t.jobs, runId, rs, n)), map[], None, None))
  {
    if TimesOk(rs, n) { Replay1GoodRuns(t, runId, rs, n); } else { Replay1BadRuns(t, runId, rs, n); }
  }

  lemma NextRow(t: Tables, runId: string, rs: seq<JobRun>, n: nat)
    requires 0 < n <= |rs| && DistinctRuns(rs) && runId in t.runs && (runId, rs[n - 1].id) !in t.jobs
    ensures var s := Replay1(Pass1(t.(jobs := WithJobs(t.jobs, runId, rs, n - 1)), map[], None, None), runId,
                             JobStream(rs[n - 1]));
            if rs[n - 1].script.startMs <= rs[n - 1].script.finishMs
            then s == Pass1(t.(jobs := WithJobs(t.jobs, runId, rs, n)), map[], None, None)
            else s.error.Some?
  {
    WithJobsKeys(t.jobs, runId, rs, n - 1, (runId, rs[n - 1].id));
    Replay1Job(Pass1(t.(jobs := WithJobs(t.jobs, runId, rs, n - 1)), map[], None, None), runId, rs[n - 1]);
    var none: map<string, int> := map[];
    assert none - {rs[n - 1].id} == none;
  }

  // --------------------------------------------------------- pass 2 theory

  lemma Replay2One(s: Pass2, runId: string, e: Event)
    ensures Replay2(s, runId, [e]) == Step2(s, runId, e)
  {
    assert [e][..0] == [];
    assert Replay2(s, runId, []) == s;
  }

  /** Job-level events do not touch the sh table. */
  lemma Replay2Other(s: Pass2, runId: string, e: Event)
    requires e.kind.JobStarted? || e.kind.JobFinished? || e.kind.RunFinished?
    ensures Replay2(s, runId, [e]) == s
  {
    Replay2One(s, runId, e);
  }

  lemma Replay2Attempt(s: Pass2, runId: string, id: string, a: Attempt)
    requires s.error.None?
    ensures var s' := Replay2(s, runId, ShEvents(id, a));
            if a.spawn.SpawnFailed? then s' == s.(inflight := s.inflight[id := (a.startMs, a.cmd)])
            else if (runId, id) !in s.tables.jobs || (runId, id, a.startMs) in s.tables.sh
            then s'.error.Some? && s'.tables == s.tables
                 && ((runId, id, a.startMs) !in s.tables.sh ==> s'.error == Some(ForeignKey))
            else
              s' == Pass2(s.tables.(sh := s.tables.sh[(runId, id, a.startMs) := ShRowOf(a)]), s.inflight - {id}, None)
  {
    var head := [Event(a.startMs, ShStarted(id, a.cmd))];
    assert head[..0] == [];
    var s1 := s.(inflight := s.inflight[id := (a.startMs, a.cmd)]);
    assert Replay2(s, runId, head) == Step2(Replay2(s, runId, []), runId, head[0]) == s1;
    if a.spawn.Spawned? {
      assert ShEvents(id, a)[..1] == head;
      assert Replay2(s, runId, ShEvents(id, a)) == Step2(s1, runId, ShEvents(id, a)[1]);
      assert s1.inflight - {id} == s.inflight - {id};
    } else {
      assert ShEvents(id, a) == head;
    }
  }

  /** For a job whose row exists, all attempts replay exactly when the spawned ones start at
      different times (and clear of rows already there); then each spawned one has its row. */
  lemma {:induction false} Replay2Attempts(s: Pass2, runId: string, id: string, attempts: seq<Attempt>, n: nat)
    requires n <= |attempts| && s.error.None? && (runId, id) in s.tables.jobs
    requires forall ms :: (runId, id, ms) !in s.tables.sh
    ensures var s' := Replay2(s, runId, ShUpTo(id, attempts, n));
            && (s'.error.None? <==> DistinctStarts(attempts, n))
            && (s'.error.None? ==> s'.tables == s.tables.(sh := WithShs(s.tables.sh, runId, id, attempts, n)))
  {
    if n > 0 {
      var a := attempts[n - 1];
      Replay2Attempts(s, runId, id, attempts, n - 1);
      var s1 := Replay2(s, runId, ShUpTo(id, attempts, n - 1));
      Replay2Append(s, runId, ShUpTo(id, attempts, n - 1), ShEvents(id, a));
      if s1.error.Some? {
        Replay2Halted(s1, runId, ShEvents(id, a));
      } else {
        WithShsKeys(s.tables.sh, runId, id, attempts, n - 1, (runId, id, a.startMs));
        Replay2Attempt(s1, runId, id, a);
      }
    }
  }

  lemma Replay2Job(s: Pass2, runId: string, r: JobRun)
    requires s.error.None? && (runId, r.id) in s.tables.jobs
    requires forall ms :: (runId, r.id, ms) !in s.tables.sh
    ensures var s' := Replay2(s, runId, JobStream(r));
            && (s'.error.None? <==> DistinctStarts(r.script.attempts, |r.script.attempts|))
            && (s'.error.None? ==>
                  s'.tables ==
                  s.tables.(sh := WithShs(s.tables.sh, runId, r.id, r.script.attempts, |r.script.attempts|)))
  {
    var head := [Event(r.script.startMs, JobStarted(r.id))];
    var body := ShUpTo(r.id, r.script.attempts, |r.script.attempts|);
    var last := [Event(r.script.finishMs, JobFinished(r.id, OutcomeOf(r.script.ok)))];
    assert JobStream(r) == head + body + last;
    Replay2Append(s, runId, head + body, last);
    Replay2Append(s, runId, head, body);
    Replay2Other(s, runId, head[0]);
    Replay2Attempts(s, runId, r.id, r.script.attempts, |r.script.attempts|);
    Replay2Other(Replay2(s, runId, body), runId, last[0]);
  }

  /** Pass 2 over whole jobs, once their rows exist. */
  lemma {:induction false} Replay2Runs(t: Tables, runId: string, rs: seq<JobRun>, n: nat)
    requires n <= |rs| && DistinctRuns(rs)
    requires forall i :: 0 <= i < n ==> (runId, rs[i].id) in t.jobs
    requires forall id, ms :: (runId, id, ms) !in t.sh
    ensures var s := Replay2(Start2(t), runId, RunsUpTo(rs, n));
            && (s.error.None? <==>
                forall i :: 0 <= i < n ==> DistinctStarts(rs[i].script.attempts, |rs[i].script.attempts|))
            && (s.error.None? ==> s.tables == t.(sh := WithRunShs(t.sh, runId, rs, n)))
  {
    if n > 0 {
      Replay2Runs(t, runId, rs, n - 1);
      assert RunsUpTo(rs, n) == RunsUpTo(rs, n - 1) + JobStream(rs[n - 1]);
      hide RunsUpTo, JobStream, DistinctStarts;
      Replay2Append(Start2(t), runId, RunsUpTo(rs, n - 1), JobStream(rs[n - 1]));
      Replay2NextRun(t, runId, rs, n, Replay2(Start2(t), runId, RunsUpTo(rs, n - 1)));
    }
  }

  lemma Replay2NextRun(t: Tables, runId: string, rs: seq<JobRun>, n: nat, s: Pass2)
    requires 0 < n <= |rs| && DistinctRuns(rs) && (runId, rs[n - 1].id) in t.jobs
    requires forall id, ms :: (runId, id, ms) !in t.sh
    requires s.error.None? ==> s.tables == t.(sh := WithRunShs(t.sh, runId, rs, n - 1))
    ensures var s' := Replay2(s, runId, JobStream(rs[n - 1]));
            && (s'.error.None? <==>
                s.error.None? && DistinctStarts(rs[n - 1].script.attempts, |rs[n - 1].script.attempts|))
            && (s'.error.None? ==> s'.tables == t.(sh := WithRunShs(t.sh, runId, rs, n)))
  {
    hide JobStream, DistinctStarts;
    var r := rs[n - 1];
    if s.error.Some? {
      Replay2Halted(s, runId, JobStream(r));
    } else {
      forall ms ensures (runId, r.id, ms) !in s.tables.sh {
        if (runId, r.id, ms) in s.tables.sh { WithRunShsJobs(t.sh, runId, rs, n - 1, (runId, r.id, ms)); }
      }
      Replay2Job(s, runId, r);
    }
  }

  /** Commands of a job without a row: the first that finished stops the replay at its foreign key. */
  lemma {:induction false} Replay2Unfinished(s: Pass2, runId: string, id: string, attempts: seq<Attempt>, n: nat,
                                             d: nat)
    requires n <= |attempts| && d <= |ShUpTo(id, attempts, n)|
    requires s.error.None? && (runId, id) !in s.tables.jobs && forall ms :: (runId, id, ms) !in s.tables.sh
    ensures var s' := Replay2(s, runId, ShUpTo(id, attempts, n)[..d]);
            && s'.tables == s.tables
            && s'.error == if AnyFinish(ShUpTo(id, attempts, n)[..d]) then Some(ForeignKey) else None
    decreases n
  {
    hide ShUpTo, ShEvents;
    if n == 0 {
      NothingToCut(id, attempts, d);
    } else {
      var a, before := attempts[n - 1], ShUpTo(id, attempts, n - 1);
      if d <= |before| {
        CutEarlier(id, attempts, n, d);
        Replay2Unfinished(s, runId, id, attempts, n - 1, d);
      } else {
        CutLast(id, attempts, n, d);
        Replay2Unfinished(s, runId, id, attempts, n - 1, |before|);
        assert before[..|before|] == before;
        Replay2MoreUnfinished(s, runId, id, before, a, d - |before|);
      }
    }
  }

  lemma NothingToCut(id: string, attempts: seq<Attempt>, d: nat)
    requires d <= |ShUpTo(id, attempts, 0)|
    ensures ShUpTo(id, attempts, 0)[..d] == []
  {
  }

  lemma CutEarlier(id: string, attempts: seq<Attempt>, n: nat, d: nat)
    requires 0 < n <= |attempts| && d <= |ShUpTo(id, attempts, n - 1)|
    ensures ShUpTo(id, attempts, n)[..d] == ShUpTo(id, attempts, n - 1)[..d]
  {
  }

  lemma CutLast(id: string, attempts: seq<Attempt>, n: nat, d: nat)
    requires 0 < n <= |attempts| && |ShUpTo(id, attempts, n - 1)| < d <= |ShUpTo(id, attempts, n)|
    ensures var before := ShUpTo(id, attempts, n - 1);
            && d - |before| <= |ShEvents(id, attempts[n - 1])|
            && ShUpTo(id, attempts, n)[..d] == before + ShEvents(id, attempts[n - 1])[..d - |before|]
  {
  }

  lemma Replay2MoreUnfinished(s: Pass2, runId: string, id: string, before: seq<Event>, a: Attempt, d: nat)
    requires s.error.None? && (runId, id) !in s.tables.jobs && forall ms :: (runId, id, ms) !in s.tables.sh
    requires d <= |ShEvents(id, a)|
    requires Replay2(s, runId, before).tables == s.tables
    requires Replay2(s, runId, before).error == if AnyFinish(before) then Some(ForeignKey) else None
    ensures var es := before + ShEvents(id, a)[..d];
            Replay2(s, runId, es).tables == s.tables
            && Replay2(s, runId, es).error == if AnyFinish(es) then Some(ForeignKey) else None
  {
    var tail := ShEvents(id, a)[..d];
    Replay2Append(s, runId, before, tail);
    if AnyFinish(before) {
      Replay2Halted(Replay2(s, runId, before), runId, tail);
      var k :| 0 <= k < |before| && before[k].kind.ShFinished?;
      assert (before + tail)[k].kind.ShFinished?;
    } else {
      Replay2Tail(Replay2(s, runId, before), runId, id, a, d);
      if d == 2 { assert (before + tail)[|before| + 1].kind.ShFinished?; }
    }
  }

  ghost predicate AnyFinish(es: seq<Event>) { exists k :: 0 <= k < |es| && es[k].kind.ShFinished? }

  lemma Replay2Tail(s: Pass2, runId: string, id: string, a: Attempt, d: nat)
    requires d <= |ShEvents(id, a)| && s.error.None?
    requires (runId, id) !in s.tables.jobs && (runId, id, a.startMs) !in s.tables.sh
    ensures var s' := Replay2(s, runId, ShEvents(id, a)[..d]);
            s'.tables == s.tables && s'.error == if d == 2 then Some(ForeignKey) else None
  {
    if d == |ShEvents(id, a)| {
      assert ShEvents(id, a)[..d] == ShEvents(id, a);
      Replay2Attempt(s, runId, id, a);
    } else if d == 1 {
      var failed := a.(spawn := SpawnFailed);
      assert ShEvents(id, a)[..d] == ShEvents(id, failed);
      Replay2Attempt(s, runId, id, failed);
    } else {
      assert ShEvents(id, a)[..d] == [];
    }
  }

  // -------------------------------------------------------------- theorems

  lemma Replay1One(s: Pass1, runId: string, e: Event)
    ensures Replay1(s, runId, [e]) == Step1(s, runId, e)
  {
    assert [e][..0] == [];
    assert Replay1(s, runId, []) == s;
  }

  /** A stream that reached its end is ingested without error exactly when the schema can
      hold its time stamps; and then the tables reconstruct the history and the outcome
      is the one emitted. */
  lemma CompleteStream(t: Tables, runId: string, rs: seq<JobRun>, endMs: int)
    requires DistinctRuns(rs) && Fresh(t, runId)
    ensures IngestResult(t, runId, Stream(rs, endMs)).Ok? <==> AllRecordable(rs, |rs|)
    ensures AllRecordable(rs, |rs|) ==>
              && IngestResult(t, runId, Stream(rs, endMs)) == Ok(Some(RunOutcomeOf(rs)))
              && IngestedTables(t, runId, Stream(rs, endMs)) == Recorded(t, runId, rs, |rs|)
  {
    hide RunsUpTo, WithJobs, WithRunShs, RunOutcomeOf;
    var body, last := RunsUpTo(rs, |rs|), Event(endMs, RunFinished(RunOutcomeOf(rs)));
    Replay1Runs(t, runId, rs, |rs|);
    Replay1Append(Start1(t), runId, body, [last]);
    var s1 := Replay1(Start1(t), runId, body);
    Replay1One(s1, runId, last);
    if s1.error.None? {
      WithJobsRows(t.jobs, runId, rs, |rs|);
      Replay2Runs(s1.tables, runId, rs, |rs|);
      Replay2Append(Start2(s1.tables), runId, body, [last]);
      Replay2Other(Replay2(Start2(s1.tables), runId, body), runId, last);
    }
  }

  /** Cut at any event (a crash), the stream still records exactly the jobs finished by then
      and exactly their commands, whether ingest ends well or stops at the foreign key of the
      one job left unfinished. */
  lemma CutStreamIngest(t: Tables, runId: string, rs: seq<JobRun>, endMs: int, k: nat)
    requires DistinctRuns(rs) && Fresh(t, runId) && k <= |Stream(rs, endMs)|
    requires AllRecordable(rs, Finished(rs, k))
    ensures var m := Finished(rs, k);
            var es := Stream(rs, endMs)[..k];
            && IngestedTables(t, runId, es) == Recorded(t, runId, rs, m)
            && IngestResult(t, runId, es) ==
                 if k == |Stream(rs, endMs)| then Ok(Some(RunOutcomeOf(rs)))
                 else if m < |rs| && AnyFinish(es[|RunsUpTo(rs, m)|..]) then Err(DbFailed(ForeignKey))
                 else Ok(None)
  {
    hide IngestedTables, IngestResult, Recorded, Stream, RunsUpTo, AnyFinish, AllRecordable, DistinctRuns, Fresh,
         RunOutcomeOf;
    if Finished(rs, k) < |rs| { CutAmidJob(t, runId, rs, endMs, k); } else { CutAfterJobs(t, runId, rs, endMs, k); }
  }

  lemma CutAmidJob(t: Tables, runId: string, rs: seq<JobRun>, endMs: int, k: nat)
    requires DistinctRuns(rs) && Fresh(t, runId) && k <= |Stream(rs, endMs)|
    requires Finished(rs, k) < |rs| && AllRecordable(rs, Finished(rs, k))
    ensures var m := Finished(rs, k);
            var es := Stream(rs, endMs)[..k];
            && k < |Stream(rs, endMs)|
            && IngestedTables(t, runId, es) == Recorded(t, runId, rs, m)
            && IngestResult(t, runId, es) ==
                 if AnyFinish(es[|RunsUpTo(rs, m)|..]) then Err(DbFailed(ForeignKey)) else Ok(None)
  {
    CutStream(rs, endMs, k);
    hide IngestedTables, IngestResult, Recorded, Stream, OpenJob, RunsUpTo, AnyFinish, AllRecordable, DistinctRuns,
         Fresh;
    CutInsideJob(t, runId, rs, Finished(rs, k), k - |RunsUpTo(rs, Finished(rs, k))|, Stream(rs, endMs)[..k]);
  }

  lemma CutAfterJobs(t: Tables, runId: string, rs: seq<JobRun>, endMs: int, k: nat)
    requires DistinctRuns(rs) && Fresh(t, runId) && k <= |Stream(rs, endMs)|
    requires Finished(rs, k) == |rs| && AllRecordable(rs, |rs|)
    ensures var es := Stream(rs, endMs)[..k];
            && IngestedTables(t, runId, es) == Recorded(t, runId, rs, |rs|)
            && IngestResult(t, runId, es) == if k == |Stream(rs, endMs)| then Ok(Some(RunOutcomeOf(rs))) else Ok(None)
  {
    CutStream(rs, endMs, k);
    hide IngestedTables, IngestResult, Recorded, Stream, RunsUpTo, AllRecordable, DistinctRuns, Fresh, RunOutcomeOf;
    if k == |Stream(rs, endMs)| { CompleteStream(t, runId, rs, endMs); } else { CutBetweenJobs(t, runId, rs, |rs|); }
  }

  lemma CutBetweenJobs(t: Tables, runId: string, rs: seq<JobRun>, m: nat)
    requires DistinctRuns(rs) && Fresh(t, runId) && m <= |rs| && AllRecordable(rs, m)
    ensures IngestedTables(t, runId, RunsUpTo(rs, m)) == Recorded(t, runId, rs, m)
    ensures IngestResult(t, runId, RunsUpTo(rs, m)) == Ok(None)
  {
    Replay1Runs(t, runId, rs, m);
    WithJobsRows(t.jobs, runId, rs, m);
    Replay2Runs(t.(jobs := WithJobs(t.jobs, runId, rs, m)), runId, rs, m);
  }

  lemma CutInsideJob(t: Tables, runId: string, rs: seq<JobRun>, m: nat, d: nat, es: seq<Event>)
    requires DistinctRuns(rs) && Fresh(t, runId) && m < |rs| && d <= |OpenJob(rs[m])| && AllRecordable(rs, m)
    requires es == RunsUpTo(rs, m) + OpenJob(rs[m])[..d]
    ensures es[|RunsUpTo(rs, m)|..] == OpenJob(rs[m])[..d]
    ensures IngestedTables(t, runId, es) == Recorded(t, runId, rs, m)
    ensures IngestResult(t, runId, es) ==
            if AnyFinish(es[|RunsUpTo(rs, m)|..]) then Err(DbFailed(ForeignKey)) else Ok(None)
  {
    var body, open, r := RunsUpTo(rs, m), OpenJob(rs[m])[..d], rs[m];
    Replay1Runs(t, runId, rs, m);
    Replay1Append(Start1(t), runId, body, open);
    var s1 := Replay1(Start1(t), runId, body);
    Replay1Open(s1, runId, r, d);
    WithJobsRows(t.jobs, runId, rs, m);
    WithJobsKeys(t.jobs, runId, rs, m, (runId, r.id));
    Replay2Runs(s1.tables, runId, rs, m);
    var s2 := Replay2(Start2(s1.tables), runId, body);
    Replay2Append(Start2(s1.tables), runId, body, open);
    forall ms ensures (runId, r.id, ms) !in s2.tables.sh {
      if (runId, r.id, ms) in s2.tables.sh { WithRunShsJobs(t.sh, runId, rs, m, (runId, r.id, ms)); }
    }
    OpenJobUnfinished(s2, runId, r, d);
  }

  lemma OpenJobUnfinished(s: Pass2, runId: string, r: JobRun, d: nat)
    requires d <= |OpenJob(r)| && s.error.None?
    requires (runId, r.id) !in s.tables.jobs && forall ms :: (runId, r.id, ms) !in s.tables.sh
    ensures var s' := Replay2(s, runId, OpenJob(r)[..d]);
            s'.tables == s.tables && s'.error == if AnyFinish(OpenJob(r)[..d]) then Some(ForeignKey) else None
  {
    if d > 0 {
      var head := [Event(r.script.startMs, JobStarted(r.id))];
      var body := ShUpTo(r.id, r.script.attempts, |r.script.attempts|)[..d - 1];
      assert OpenJob(r)[..d] == head + body;
      Replay2Append(s, runId, head, body);
      Replay2Other(s, runId, head[0]);
      Replay2Unfinished(s, runId, r.id, r.script.attempts, |r.script.attempts|, d - 1);
      if k :| 0 <= k < |body| && body[k].kind.ShFinished? { assert OpenJob(r)[..d][k + 1].kind.ShFinished?; }
      if k :| 0 <= k < d && OpenJob(r)[..d][k].kind.ShFinished? { assert body[k - 1].kind.ShFinished?; }
    }
  }

  /** A finish without a start counts as its own start; after two starts the later one counts. */
  lemma UnpairedJobEvents(t: Tables, runId: string, id: string, outcome: JobOutcome, a: int, b: int, c: int)
    requires Fresh(t, runId)
    ensures IngestedTables(t, runId, [Event(a, JobFinished(id, outcome))]) ==
            t.(jobs := t.jobs[(runId, id) :=
              JobRow(if outcome.JobSucceeded? then StateSucceeded else StateFailed, None, Some(a), Some(a))])
    ensures b <= c ==>
              IngestedTables(t, runId, [Event(a, JobStarted(id)), Event(b, JobStarted(id)),
                                        Event(c, JobFinished(id, outcome))]) ==
              t.(jobs := t.jobs[(runId, id) :=
                JobRow(if outcome.JobSucceeded? then StateSucceeded else StateFailed, None, Some(b), Some(c))])
  {
    var finish, first, second := Event(a, JobFinished(id, outcome)), Event(a, JobStarted(id)), Event(b, JobStarted(id));
    Replay1One(Start1(t), runId, finish);
    Replay2Other(Start2(Replay1(Start1(t), runId, [finish]).tables), runId, finish);
    if b <= c {
      var last := Event(c, JobFinished(id, outcome));
      var es := [first] + [second] + [last];
      assert [first, second, last] == es;
      Replay1Three(Start1(t), runId, first, second, last);
      var t1 := Replay1(Start1(t), runId, es).tables;
      Replay2Append(Start2(t1), runId, [first] + [second], [last]);
      Replay2Append(Start2(t1), runId, [first], [second]);
      Replay2Other(Start2(t1), runId, first);
      Replay2Other(Start2(t1), runId, second);
      Replay2Other(Start2(t1), runId, last);
    }
  }

  lemma Replay1Three(s: Pass1, runId: string, a: Event, b: Event, c: Event)
    ensures Replay1(s, runId, [a] + [b] + [c]) == Step1(Step1(Step1(s, runId, a), runId, b), runId, c)
  {
    Replay1Append(s, runId, [a] + [b], [c]);
    Replay1Append(s, runId, [a], [b]);
    Replay1One(s, runId, a);
    Replay1One(Step1(s, runId, a), runId, b);
    Replay1One(Step1(Step1(s, runId, a), runId, b), runId, c);
  }

  /** A command's finish without a start is passed over. */
  lemma UnpairedShFinish(t: Tables, runId: string, id: string, ms: int, exit: int)
    ensures IngestResult(t, runId, [Event(ms, ShFinished(id, exit))]) == Ok(None)
    ensures IngestedTables(t, runId, [Event(ms, ShFinished(id, exit))]) == t
  {
    var e := Event(ms, ShFinished(id, exit));
    Replay1One(Start1(t), runId, e);
    Replay2One(Start2(t), runId, e);
  }

  /** After two starts of a command the later one counts. */
  lemma RestartedSh(t: Tables, runId: string, id: string, a: int, first: string, b: int, cmd: string, c: int,
                    exit: int)
    requires (runId, id) in t.jobs && (runId, id, b) !in t.sh
    ensures IngestedTables(t, runId, [Event(a, ShStarted(id, first)), Event(b, ShStarted(id, cmd)),
                                      Event(c, ShFinished(id, exit))]) ==
            t.(sh := t.sh[(runId, id, b) := ShRow(c, exit, cmd)])
  {
    var e1, e2, e3 := Event(a, ShStarted(id, first)), Event(b, ShStarted(id, cmd)), Event(c, ShFinished(id, exit));
    assert [e1, e2, e3] == [e1] + [e2] + [e3];
    Replay1Three(Start1(t), runId, e1, e2, e3);
    Replay2Append(Start2(t), runId, [e1] + [e2], [e3]);
    Replay2Append(Start2(t), runId, [e1], [e2]);
    forall s: Pass2, e: Event ensures Replay2(s, runId, [e]) == Step2(s, runId, e) { Replay2One(s, runId, e); }
  }

  /** Whatever comes before it, a terminal event adds no row, and a replay that ends well reports it. */
  lemma LastOutcomeCounts(t: Tables, runId: string, es: seq<Event>, ms: int, o: RunOutcome)
    ensures var es' := es + [Event(ms, RunFinished(o))];
            && IngestedTables(t, runId, es') == IngestedTables(t, runId, es)
            && IngestResult(t, runId, es') ==
               match IngestResult(t, runId, es)
               case Err(e) => Err(e)
               case Ok(_) => Ok(Some(o))
  {
    var last := Event(ms, RunFinished(o));
    var s1 := Replay1(Start1(t), runId, es);
    Replay1Append(Start1(t), runId, es, [last]);
    Replay1One(s1, runId, last);
    Replay2Append(Start2(s1.tables), runId, es, [last]);
    Replay2Other(Replay2(Start2(s1.tables), runId, es), runId, last);
  }
}
