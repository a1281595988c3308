/** What a verdict in a run's row means, whatever else is going on: from the script through
    execution, crash and ingest to the row, with every other writer acting in between. */
module Verdicts {
  import opened Wrappers
  import opened Graphs
  import opened Registration
  import opened Pipelines
  import opened Events
  import opened Executor
  import opened Schema
  import opened Ingest
  import opened Runs
  import opened Server

  // ------------------------------------------------ what quire-ci leaves behind

  ghost predicate IsRunOfSome(jobs: seq<Job>, oracle: string -> JobScript, r: JobRun) {
    exists j :: j in jobs && r == RunOf(j, oracle)
  }

  /** `rs` are runs of these jobs, none twice, all good but possibly the last, and all of them if all are good. */
  ghost predicate Ran(jobs: seq<Job>, oracle: string -> JobScript, rs: seq<JobRun>) {
    && DistinctRuns(rs)
    && (forall i :: 0 <= i < |rs| ==> IsRunOfSome(jobs, oracle, rs[i]))
    && (forall i :: 0 <= i < |rs| - 1 ==> rs[i].script.ok)
    && (AllOk(rs) ==> forall j :: j in jobs ==> RunOf(j, oracle) in rs)
  }

  lemma PipelineRan(p: Pipeline, order: seq<nat>, oracle: string -> JobScript)
    requires p.Sound() && p.graph.IsTopoOrder(order) && (forall i :: 0 <= i < |order| ==> order[i] < |p.graph.nodes|)
    ensures Ran(p.graph.nodes, oracle, Executed(JobsAt(p.graph, order), oracle))
  {
    ExecutedDistinct(p, order, oracle);
    JobsAtTopo(p.graph, order);
    ExecutedRan(p.graph.nodes, JobsAt(p.graph, order), oracle);
  }

  lemma ExecutedRan(nodes: seq<Job>, jobs: seq<Job>, oracle: string -> JobScript)
    requires DistinctRuns(Executed(jobs, oracle)) && forall j :: j in jobs <==> j in nodes
    ensures Ran(nodes, oracle, Executed(jobs, oracle))
  {
    hide RunOf;
    var rs := Executed(jobs, oracle);
    forall i | 0 <= i < |rs| ensures IsRunOfSome(nodes, oracle, rs[i]) {
      assert jobs[i] in jobs;
    }
    if AllOk(rs) {
      forall j | j in nodes ensures RunOf(j, oracle) in rs {
        var i :| 0 <= i < |jobs| && jobs[i] == j;
        assert rs[i] == RunOf(j, oracle);
      }
    }
  }

  /** The file holds what `quire-ci` wrote of the runs `rs`, up to some event. */
  ghost predicate CutOf(file: EventsFile, rs: seq<JobRun>, endMs: int, k: nat) {
    k <= |Stream(rs, endMs)| && file == Parsed(Stream(rs, endMs)[..k])
  }

  ghost function AllJobs(calls: seq<Call>): seq<Job> { JobsOf(calls) + [BUILTIN_PUSH_JOB] }

  /** What `quire-ci run` may leave on disk: no readable stream, none of it, the lone failure event of
      a script that is not accepted, or the stream of its jobs up to event `k`. */
  ghost predicate Left(file: EventsFile, calls: seq<Call>, scriptOk: bool, oracle: string -> JobScript, rs: seq<JobRun>,
                       endMs: int, k: nat)
  {
    || !file.Parsed?
    || file == Parsed([])
    || if scriptOk && Accepts(calls) then Ran(AllJobs(calls), oracle, rs) && CutOf(file, rs, endMs, k)
       else file == Parsed([Event(endMs, RunFinished(PipelineFailure))])
  }

  // ------------------------------------------------------ what ingest reads

  lemma {:induction false} NoEndNoOutcome(s: Pass1, runId: string, es: seq<Event>)
    requires forall i :: 0 <= i < |es| ==> !es[i].kind.RunFinished?
    ensures Replay1(s, runId, es).outcome == s.outcome
  {
    if es != [] { NoEndNoOutcome(s, runId, es[..|es| - 1]); }
  }

  /** An outcome is read only from a stream that is all there, and then everything in it was recorded. */
  lemma OutcomeMeansComplete(t: Tables, runId: string, rs: seq<JobRun>, endMs: int, k: nat)
    requires DistinctRuns(rs) && Fresh(t, runId) && k <= |Stream(rs, endMs)|
    requires OutcomeRead(t, runId, Parsed(Stream(rs, endMs)[..k])).Some?
    ensures k == |Stream(rs, endMs)|
    ensures OutcomeRead(t, runId, Parsed(Stream(rs, endMs)[..k])) == Some(RunOutcomeOf(rs))
    ensures IngestedTables(t, runId, Stream(rs, endMs)[..k]) == Recorded(t, runId, rs, |rs|)
  {
    var es := Stream(rs, endMs)[..k];
    if k < |Stream(rs, endMs)| {
      forall i | 0 <= i < k ensures !es[i].kind.RunFinished? {
        var m := LocateEvent(rs, |rs|, i);
        JobStreamKinds(rs[m], i - |RunsUpTo(rs, m)|);
      }
      NoEndNoOutcome(Start1(t), runId, es);
    } else {
      assert es == Stream(rs, endMs);
      CompleteStream(t, runId, rs, endMs);
    }
  }

  /** When ingest reads an outcome: the stream is all there and the schema can hold its time stamps. */
  lemma OutcomeReadIff(t: Tables, runId: string, rs: seq<JobRun>, endMs: int, k: nat)
    requires DistinctRuns(rs) && Fresh(t, runId) && k <= |Stream(rs, endMs)|
    ensures OutcomeRead(t, runId, Parsed(Stream(rs, endMs)[..k])) ==
            if k == |Stream(rs, endMs)| && AllRecordable(rs, |rs|) then Some(RunOutcomeOf(rs)) else None
  {
    hide Stream;
    CompleteStream(t, runId, rs, endMs);
    if k == |Stream(rs, endMs)| { assert Stream(rs, endMs)[..k] == Stream(rs, endMs); }
    if OutcomeRead(t, runId, Parsed(Stream(rs, endMs)[..k])).Some? { OutcomeMeansComplete(t, runId, rs, endMs, k); }
  }

  /** A script that did not compile: the run fails without a job row. */
  lemma CompileFailureLeavesNoJobs(t: Tables, runId: string, endMs: int, id: string)
    requires Fresh(t, runId)
    ensures var file := Parsed([Event(endMs, RunFinished(PipelineFailure))]);
            && Verdict(true, OutcomeRead(t, runId, file)) == FailedPipeline
            && (runId, id) !in AfterIngest(t, runId, file).jobs
  {
    var es := [Event(endMs, RunFinished(PipelineFailure))];
    assert es[..0] == [];
    Replay2Other(Start2(t), runId, es[0]);
    assert Replay1(Start1(t), runId, es) == Step1(Replay1(Start1(t), runId, []), runId, es[0]);
  }

  /** The documentation says an ingest failure never hides the run's own verdict. It does: two
      commands of one job starting in the same millisecond turn a success into `failed-internal`. */
  lemma IngestErrorDemotes(t: Tables, runId: string, endMs: int) returns (rs: seq<JobRun>)
    requires Fresh(t, runId)
    ensures DistinctRuns(rs) && AllOk(rs)
    ensures Verdict(true, OutcomeRead(t, runId, Parsed(Stream(rs, endMs)))) == FailedInternal
  {
    var out := ShOutput(0, "", "");
    var a := Attempt("ts", 10, "true", Spawned(10, out, Written));
    rs := [JobRun("build", JobScript(10, [a, a], true, 10))];
    assert !DistinctStarts(rs[0].script.attempts, 2) by {
      assert rs[0].script.attempts[0] == rs[0].script.attempts[1] == a;
    }
    assert !Recordable(rs[0]);
    CompleteStream(t, runId, rs, endMs);
  }

  // ------------------------------------------------------- what a verdict says

  /** Every job of the script, the built-in one included, has a succeeded row. */
  ghost predicate AllSucceeded(t: Tables, runId: string, calls: seq<Call>) {
    && HasSucceeded(t, runId, "quire/push")
    && forall c :: 0 <= c < |calls| && calls[c].JobCall? ==> HasSucceeded(t, runId, calls[c].id)
  }

  ghost predicate HasSucceeded(t: Tables, runId: string, id: string) {
    (runId, id) in t.jobs && t.jobs[(runId, id)].state == StateSucceeded
  }

  /** No job's run-fn fails. */
  ghost predicate RunFnsOk(calls: seq<Call>, oracle: string -> JobScript) {
    forall c :: 0 <= c < |calls| && calls[c].JobCall? ==> oracle(calls[c].id).ok
  }

  /** A call defines `id`, and its run-fn fails. */
  ghost predicate RunFnFailed(calls: seq<Call>, oracle: string -> JobScript, id: string) {
    !oracle(id).ok && exists c :: 0 <= c < |calls| && calls[c].JobCall? && calls[c].id == id
  }

  /** Exactly the executed jobs have rows, the last of them failed and every other one succeeded. */
  ghost predicate LastFailed(t: Tables, runId: string, rs: seq<JobRun>) {
    && rs != []
    && (forall id :: (runId, id) in t.jobs <==> exists i :: 0 <= i < |rs| && rs[i].id == id)
    && forall id :: (runId, id) in t.jobs ==>
         t.jobs[(runId, id)].state == if id == rs[|rs| - 1].id then StateFailed else StateSucceeded
  }

  ghost predicate NoJobRows(t: Tables, runId: string) { forall id :: (runId, id) !in t.jobs }

  ghost predicate OutcomeIsTrue(o: Option<Outcome>, t: Tables, runId: string, calls: seq<Call>, scriptOk: bool,
                                oracle: string -> JobScript, rs: seq<JobRun>) {
    && (o == Some(SucceededRun) ==>
          scriptOk && Accepts(calls) && AllSucceeded(t, runId, calls) && RunFnsOk(calls, oracle))
    && (o == Some(FailedPipeline) ==>
          if scriptOk && Accepts(calls)
          then LastFailed(t, runId, rs) && RunFnFailed(calls, oracle, rs[|rs| - 1].id)
          else NoJobRows(t, runId))
  }

  /** The outcome in the run's row says no more than its job rows bear out. */
  ghost predicate VerdictIsTrue(t: Tables, runId: string, calls: seq<Call>, scriptOk: bool,
                                oracle: string -> JobScript, rs: seq<JobRun>) {
    runId in t.runs && OutcomeIsTrue(t.runs[runId].outcome, t, runId, calls, scriptOk, oracle, rs)
  }

  /** Whatever was left behind, the verdict that ingest leads to is true of the rows it inserted. */
  lemma VerdictReadIsTrue(t: Tables, runId: string, file: EventsFile, exitOk: bool, calls: seq<Call>, scriptOk: bool,
                          oracle: string -> JobScript, rs: seq<JobRun>, endMs: int, k: nat)
    requires Fresh(t, runId) && Left(file, calls, scriptOk, oracle, rs, endMs, k)
    ensures OutcomeIsTrue(Some(Verdict(exitOk, OutcomeRead(t, runId, file))), AfterIngest(t, runId, file), runId,
                          calls, scriptOk, oracle, rs)
  {
    if exitOk && OutcomeRead(t, runId, file).Some? && file != Parsed([]) {
      if scriptOk && Accepts(calls) {
        OutcomeMeansComplete(t, runId, rs, endMs, k);
        RecordedIsTrue(t, runId, calls, oracle, rs);
        AllOkIff(calls, oracle, rs);
      } else {
        forall id ensures (runId, id) !in AfterIngest(t, runId, file).jobs {
          CompileFailureLeavesNoJobs(t, runId, endMs, id);
        }
        CompileFailureLeavesNoJobs(t, runId, endMs, "");
      }
    }
  }

  lemma RecordedIsTrue(t: Tables, runId: string, calls: seq<Call>, oracle: string -> JobScript, rs: seq<JobRun>)
    requires Fresh(t, runId) && Ran(AllJobs(calls), oracle, rs)
    ensures AllOk(rs) ==> AllSucceeded(Recorded(t, runId, rs, |rs|), runId, calls)
    ensures !AllOk(rs) ==> LastFailed(Recorded(t, runId, rs, |rs|), runId, rs)
  {
    hide AllJobs, AllSucceeded, LastFailed;
    if AllOk(rs) { RecordedSucceeded(t, runId, calls, oracle, rs); } else { RecordedFailed(t, runId, rs); }
  }

  lemma RecordedSucceeded(t: Tables, runId: string, calls: seq<Call>, oracle: string -> JobScript, rs: seq<JobRun>)
    requires Ran(AllJobs(calls), oracle, rs) && AllOk(rs)
    ensures AllSucceeded(Recorded(t, runId, rs, |rs|), runId, calls)
  {
    assert BUILTIN_PUSH_JOB in AllJobs(calls);
    RowSucceeded(t, runId, calls, oracle, rs, BUILTIN_PUSH_JOB);
    forall c | 0 <= c < |calls| && calls[c].JobCall?
      ensures HasSucceeded(Recorded(t, runId, rs, |rs|), runId, calls[c].id)
    {
      CallIsJob(calls, c);
      RowSucceeded(t, runId, calls, oracle, rs, calls[c].ToJob());
    }
  }

  lemma CallIsJob(calls: seq<Call>, c: nat)
    requires c < |calls| && calls[c].JobCall?
    ensures Job(calls[c].id, calls[c].inputs, Some(calls[c].line), Lua) in AllJobs(calls)
  {
    JobsOfMeans(calls, calls[c].ToJob());
  }

  lemma RowSucceeded(t: Tables, runId: string, calls: seq<Call>, oracle: string -> JobScript, rs: seq<JobRun>, j: Job)
    requires Ran(AllJobs(calls), oracle, rs) && AllOk(rs) && j in AllJobs(calls)
    ensures HasSucceeded(Recorded(t, runId, rs, |rs|), runId, j.id)
  {
    WithJobsRows(t.jobs, runId, rs, |rs|);
    var i :| 0 <= i < |rs| && rs[i] == RunOf(j, oracle);
    assert rs[i].id == j.id;
  }

  /** All executed jobs were good exactly when no run-fn fails; otherwise the last one's did. */
  lemma AllOkIff(calls: seq<Call>, oracle: string -> JobScript, rs: seq<JobRun>)
    requires Ran(AllJobs(calls), oracle, rs)
    ensures AllOk(rs) <==> RunFnsOk(calls, oracle)
    ensures !AllOk(rs) ==> rs != [] && RunFnFailed(calls, oracle, rs[|rs| - 1].id)
  {
    if AllOk(rs) {
      forall c | 0 <= c < |calls| && calls[c].JobCall? ensures oracle(calls[c].id).ok {
        CallIsJob(calls, c);
        var i :| 0 <= i < |rs| && rs[i] == RunOf(calls[c].ToJob(), oracle);
      }
    } else {
      var i :| 0 <= i < |rs| && !rs[i].script.ok;
      assert i == |rs| - 1 && IsRunOfSome(AllJobs(calls), oracle, rs[i]);
      var j :| j in AllJobs(calls) && rs[i] == RunOf(j, oracle);
      JobsOfMeans(calls, j);
    }
  }

  lemma RecordedFailed(t: Tables, runId: string, rs: seq<JobRun>)
    requires Fresh(t, runId) && DistinctRuns(rs) && !AllOk(rs) && forall i :: 0 <= i < |rs| - 1 ==> rs[i].script.ok
    ensures LastFailed(Recorded(t, runId, rs, |rs|), runId, rs)
  {
    WithJobsRows(t.jobs, runId, rs, |rs|);
    hide WithJobs, WithRunShs;
    forall id
      ensures (runId, id) in WithJobs(t.jobs, runId, rs, |rs|) <==> exists i :: 0 <= i < |rs| && rs[i].id == id
    {
      WithJobsKeys(t.jobs, runId, rs, |rs|, (runId, id));
    }
  }

  // --------------------------------------------------- amid all other writers

  /** One thing some process does to the database. */
  datatype Action = OnRuns(step: Step) | IngestOf(runId: string, file: EventsFile)

  datatype World = World(tables: Tables, handles: map<nat, Handle>)

  const NOTHING: World := World(Tables(map[], map[], map[]), map[])

  function Do(w: World, a: Action): World {
    match a
    case OnRuns(step) =>
      var s := Apply(System(w.tables.runs, w.handles), step);
      World(w.tables.(runs := s.runs), s.handles)
    case IngestOf(runId, file) => w.(tables := AfterIngest(w.tables, runId, file))
  }

  function DoAll(w: World, actions: seq<Action>): World
    decreases |actions|
  {
    if actions == [] then w else DoAll(Do(w, actions[0]), actions[1..])
  }

  /** Not part of executing `id`: neither ingests its events nor resolves it through a handle. Superseding,
      reconciling, dispatching or fetching for `id`, and anything at all for another run, is. */
  predicate IsOther(w: World, a: Action, id: string) {
    match a
    case OnRuns(step) => step.Resolve? && step.h in w.handles ==> w.handles[step.h].id != id
    case IngestOf(runId, _) => runId != id
  }

  ghost predicate AllOther(w: World, actions: seq<Action>, id: string)
    decreases |actions|
  {
    actions == [] || (IsOther(w, actions[0], id) && AllOther(Do(w, actions[0]), actions[1..], id))
  }

  /** Nothing of `id` is on record but perhaps its row, and no verdict in it. */
  ghost predicate Unconcluded(w: World, id: string) {
    && RowsOk(w.tables.runs)
    && (forall job :: (id, job) !in w.tables.jobs)
    && (forall job, ms :: (id, job, ms) !in w.tables.sh)
    && (id in w.tables.runs ==> Bystander(w.tables.runs[id].outcome))
  }

  /** The job rows of `id` are the same in both. */
  ghost predicate SameJobs(t: Tables, t': Tables, id: string) {
    forall job :: ((id, job) in t'.jobs <==> (id, job) in t.jobs)
                  && ((id, job) in t.jobs ==> t'.jobs[(id, job)] == t.jobs[(id, job)])
  }

  ghost predicate SameShs(t: Tables, t': Tables, id: string) {
    forall job, ms :: (id, job, ms) in t'.sh <==> (id, job, ms) in t.sh
  }

  /** What other actions leave alone: `id`'s job rows, and the verdict in its row, or the lack of one. */
  ghost predicate Keeps(w: World, w': World, id: string) {
    && RowsOk(w'.tables.runs)
    && SameJobs(w.tables, w'.tables, id) && SameShs(w.tables, w'.tables, id)
    && (id in w.tables.runs ==>
          id in w'.tables.runs && KeepsVerdict(w.tables.runs[id].outcome, w'.tables.runs[id].outcome))
    && (id !in w.tables.runs && id in w'.tables.runs ==> Bystander(w'.tables.runs[id].outcome))
  }

  ghost predicate KeepsVerdict(o: Option<Outcome>, o': Option<Outcome>) {
    if Bystander(o) then Bystander(o') else o' == o
  }

  lemma OtherKeeps(w: World, a: Action, id: string)
    requires RowsOk(w.tables.runs) && IsOther(w, a, id)
    ensures Keeps(w, Do(w, a), id)
  {
    hide Apply, RowsOk;
    match a
    case OnRuns(step) =>
      var s := System(w.tables.runs, w.handles);
      StepRows(s, step);
      if id in s.runs {
        assert RowStep(s.runs[id], Apply(s, step).runs[id], Times(step));
        if s.runs[id].outcome.None? && !Bystander(Apply(s, step).runs[id].outcome) {
          VerdictComesFromResolve(s, step, id);
        }
      } else if id in Apply(s, step).runs {
        NewRow(s, step, id);
      }
    case IngestOf(runId, file) =>
      if file.Parsed? { IngestOnlyAdds(w.tables, runId, file.events); }
  }

  lemma {:induction false} OthersKeep(w: World, actions: seq<Action>, id: string)
    requires RowsOk(w.tables.runs) && AllOther(w, actions, id)
    ensures Keeps(w, DoAll(w, actions), id)
    decreases |actions|
  {
    if actions != [] {
      OtherKeeps(w, actions[0], id);
      OthersKeep(Do(w, actions[0]), actions[1..], id);
    }
  }

  /** `execute` concluding `id` amid others: ingest, whatever happens then, and resolve. */
  function ConcludedAmid(w: World, id: string, h: nat, file: EventsFile, exitOk: bool, between: seq<Action>,
                         now: int): World {
    var ingested := DoAll(Do(w, IngestOf(id, file)), between);
    Do(ingested, OnRuns(Resolve(h, Verdict(exitOk, OutcomeRead(w.tables, id, file)), now)))
  }

  /** With nobody in between that is what `execute`'s last part does on its own. */
  lemma ConcludedAmidNothing(w: World, id: string, h: nat, file: EventsFile, exitOk: bool, now: int)
    requires h in w.handles && w.handles[h].id == id
    ensures ConcludedAmid(w, id, h, file, exitOk, [], now).tables ==
            Concluded(w.tables, w.handles[h], file, exitOk, now)
  {
  }

  lemma ConcludingKeeps(w: World, id: string, h: nat, file: EventsFile, exitOk: bool, between: seq<Action>, now: int)
    requires Unconcluded(w, id) && id in w.tables.runs
    requires AllOther(Do(w, IngestOf(id, file)), between, id)
    requires var ingested := DoAll(Do(w, IngestOf(id, file)), between);
             h in ingested.handles && ingested.handles[h].id == id
    ensures var w' := ConcludedAmid(w, id, h, file, exitOk, between, now);
            && RowsOk(w'.tables.runs) && id in w'.tables.runs
            && SameJobs(AfterIngest(w.tables, id, file), w'.tables, id)
            && (Bystander(w'.tables.runs[id].outcome)
                || w'.tables.runs[id].outcome == Some(Verdict(exitOk, OutcomeRead(w.tables, id, file))))
  {
    if file.Parsed? { IngestOnlyAdds(w.tables, id, file.events); }
    var w1 := Do(w, IngestOf(id, file));
    OthersKeep(w1, between, id);
    var w2 := DoAll(w1, between);
    var step := Resolve(h, Verdict(exitOk, OutcomeRead(w.tables, id, file)), now);
    var s := System(w2.tables.runs, w2.handles);
    StepRows(s, step);
    assert RowStep(s.runs[id], Apply(s, step).runs[id], Times(step));
  }

  lemma SameJobsSameTruth(o: Option<Outcome>, t: Tables, t': Tables, id: string, calls: seq<Call>, scriptOk: bool,
                          oracle: string -> JobScript, rs: seq<JobRun>)
    requires OutcomeIsTrue(o, t, id, calls, scriptOk, oracle, rs) && SameJobs(t, t', id)
    ensures OutcomeIsTrue(o, t', id, calls, scriptOk, oracle, rs)
  {
  }

  /** From a world in which nothing of the run has been concluded, through ingest and resolve, with any
      other actions before, between and after: the verdict in its row is true. */
  lemma ConcludedVerdictIsTrue(w: World, id: string, h: nat, file: EventsFile, exitOk: bool, between: seq<Action>,
                               now: int, after: seq<Action>, calls: seq<Call>, scriptOk: bool,
                               oracle: string -> JobScript, rs: seq<JobRun>, endMs: int, k: nat)
    requires Unconcluded(w, id) && id in w.tables.runs && Left(file, calls, scriptOk, oracle, rs, endMs, k)
    requires AllOther(Do(w, IngestOf(id, file)), between, id)
    requires var ingested := DoAll(Do(w, IngestOf(id, file)), between);
             h in ingested.handles && ingested.handles[h].id == id
    requires AllOther(ConcludedAmid(w, id, h, file, exitOk, between, now), after, id)
    ensures VerdictIsTrue(DoAll(ConcludedAmid(w, id, h, file, exitOk, between, now), after).tables, id, calls,
                          scriptOk, oracle, rs)
  {
    hide Left, OutcomeIsTrue, ConcludedAmid;
    VerdictReadIsTrue(w.tables, id, file, exitOk, calls, scriptOk, oracle, rs, endMs, k);
    ConcludingKeeps(w, id, h, file, exitOk, between, now);
    var w' := ConcludedAmid(w, id, h, file, exitOk, between, now);
    OthersKeep(w', after, id);
    var w'' := DoAll(w', after);
    var t, verdict := AfterIngest(w.tables, id, file), Verdict(exitOk, OutcomeRead(w.tables, id, file));
    assert SameJobs(t, w''.tables, id);
    if Bystander(w''.tables.runs[id].outcome) {
      BystanderIsTrue(w''.tables.runs[id].outcome, w''.tables, id, calls, scriptOk, oracle, rs);
    } else {
      SameJobsSameTruth(Some(verdict), t, w''.tables, id, calls, scriptOk, oracle, rs);
    }
  }

  lemma BystanderIsTrue(o: Option<Outcome>, t: Tables, id: string, calls: seq<Call>, scriptOk: bool,
                        oracle: string -> JobScript, rs: seq<JobRun>)
    requires Bystander(o)
    ensures OutcomeIsTrue(o, t, id, calls, scriptOk, oracle, rs)
  {
  }

  /** So in every database reachable from an empty one: whoever else creates, supersedes, dispatches,
      reconciles, ingests or resolves what, at any point, a `succeeded` row means that every job of
      the run's script has a succeeded row, and a `failed-pipeline` row that the last executed job
      failed and all the others succeeded, or that the script was rejected and there is no job row. */
  lemma ReachableVerdictIsTrue(before: seq<Action>, id: string, h: nat, file: EventsFile, exitOk: bool,
                               between: seq<Action>, now: int, after: seq<Action>, calls: seq<Call>, scriptOk: bool,
                               oracle: string -> JobScript, rs: seq<JobRun>, endMs: int, k: nat)
    requires AllOther(NOTHING, before, id) && id in DoAll(NOTHING, before).tables.runs
    requires Left(file, calls, scriptOk, oracle, rs, endMs, k)
    requires AllOther(Do(DoAll(NOTHING, before), IngestOf(id, file)), between, id)
    requires var ingested := DoAll(Do(DoAll(NOTHING, before), IngestOf(id, file)), between);
             h in ingested.handles && ingested.handles[h].id == id
    requires AllOther(ConcludedAmid(DoAll(NOTHING, before), id, h, file, exitOk, between, now), after, id)
    ensures VerdictIsTrue(DoAll(ConcludedAmid(DoAll(NOTHING, before), id, h, file, exitOk, between, now), after).tables,
                          id, calls, scriptOk, oracle, rs)
  {
    OthersKeep(NOTHING, before, id);
    var w := DoAll(NOTHING, before);
    assert Unconcluded(w, id);
    ConcludedVerdictIsTrue(w, id, h, file, exitOk, between, now, after, calls, scriptOk, oracle, rs, endMs, k);
  }

  /** Every statement on run rows keeps the keys and CHECKs of the other tables too. */
  lemma StepKeepsTables(t: Tables, handles: map<nat, Handle>, step: Step)
    requires TablesOk(t)
    ensures TablesOk(t.(runs := Apply(System(t.runs, handles), step).runs))
  {
    StepRows(System(t.runs, handles), step);
  }

  // ------------------------------------------------------ a run, end to end

  /** The run may start, and the clock does not go back behind the row's stamps. */
  ghost predicate StampsFit(row: RunRow, session: bool, dispatched: bool, startNow: int, endNow: int) {
    && Starts(row, session, dispatched, startNow)
    && Or(row.dispatchedAt, startNow).value <= endNow
  }

  /** With a session the row must wait for its bootstrap fetch, without one the handle for its dispatch. */
  ghost predicate Starts(row: RunRow, session: bool, dispatched: bool, startNow: int) {
    && (if session then row.dispatchedAt.None? else !dispatched)
    && row.createdAt <= Or(row.dispatchedAt, startNow).value
  }

  /** Dispatch, or with a session the one-shot bootstrap fetch. */
  method Start(run: Run, session: bool, traceparent: Option<string>, startNow: int)
    returns (e: Option<RunError>, ready: bool)
    requires RowsOk(run.db.tables.runs) && run.id in run.db.tables.runs
    requires run.db.tables.runs[run.id].outcome.None? && !run.resolved
    modifies run, run.db
    ensures !run.resolved && RowsOk(run.db.tables.runs) && run.id in run.db.tables.runs
    ensures run.db.tables == old(run.db.tables).(runs := run.db.tables.runs)
    ensures run.db.tables.runs[run.id].outcome.None?
    ensures ready <==> Starts(old(run.db.tables.runs)[run.id], session, old(run.dispatched), startNow)
    ensures var row := old(run.db.tables.runs)[run.id];
            && run.db.tables.runs[run.id].createdAt == row.createdAt
            && run.db.tables.runs[run.id].dispatchedAt ==
               if ready then Or(row.dispatchedAt, startNow) else row.dispatchedAt
    ensures e.Some? <==> !session && !ready
  {
    e := run.Begin(session, traceparent, startNow);
    ready := e.None?;
    if session {
      var fetched := GetBootstrap(run.db, run.id, startNow);
      ready := fetched.Ok?;
    }
  }

  /** What `quire-ci run` wrote before it ended, or died after `k` events. */
  method EventsWritten(calls: seq<Call>, scriptOk: bool, push: PushData, oracle: string -> JobScript, endMs: int,
                       k: nat)
    returns (file: EventsFile, ghost rs: seq<JobRun>, ghost n: nat)
    ensures Left(file, calls, scriptOk, oracle, rs, endMs, n)
    ensures scriptOk && Accepts(calls) ==>
              && Ran(AllJobs(calls), oracle, rs)
              && n == (if k < |Stream(rs, endMs)| then k else |Stream(rs, endMs)|)
              && CutOf(file, rs, endMs, n)
    ensures !(scriptOk && Accepts(calls)) ==>
              file == if k == 0 then Parsed([]) else Parsed([Event(endMs, RunFinished(PipelineFailure))])
  {
    var compiled := Compile(calls, scriptOk);
    var pipeline := match compiled case Ok(pl) => Some(pl) case Err(_) => None;
    var events, logs, order := RunPipeline(pipeline, push, oracle, endMs);
    var written := if k < |events| then k else |events|;
    file, rs, n := Parsed(events[..written]), [], written;
    if pipeline.Some? {
      rs := Executed(JobsAt(pipeline.value.graph, order), oracle);
      PipelineRan(pipeline.value, order, oracle);
    } else if k > 0 {
      assert events[..written] == events;
    }
  }

  /** What is read from the events written. */
  lemma WrittenOutcome(t: Tables, runId: string, file: EventsFile, calls: seq<Call>, scriptOk: bool,
                       oracle: string -> JobScript, rs: seq<JobRun>, endMs: int, k: nat, n: nat)
    requires Fresh(t, runId)
    requires scriptOk && Accepts(calls) ==>
               && Ran(AllJobs(calls), oracle, rs)
               && n == (if k < |Stream(rs, endMs)| then k else |Stream(rs, endMs)|)
               && CutOf(file, rs, endMs, n)
    requires !(scriptOk && Accepts(calls)) ==>
              file == if k == 0 then Parsed([]) else Parsed([Event(endMs, RunFinished(PipelineFailure))])
    ensures OutcomeRead(t, runId, file) ==
            if !AllWritten(calls, scriptOk, rs, endMs, k) then None
            else if scriptOk && Accepts(calls) && RunFnsOk(calls, oracle) then Some(Succeeded)
            else Some(PipelineFailure)
  {
    hide Stream, Accepts, RunFnsOk;
    if scriptOk && Accepts(calls) {
      OutcomeReadIff(t, runId, rs, endMs, n);
      AllOkIff(calls, oracle, rs);
    } else if k > 0 {
      CompileFailureLeavesNoJobs(t, runId, endMs, "");
    }
  }

  lemma LeftNothing(file: EventsFile, calls: seq<Call>, scriptOk: bool, oracle: string -> JobScript, rs: seq<JobRun>,
                    endMs: int, k: nat)
    ensures !file.Parsed? || file == Parsed([]) ==> Left(file, calls, scriptOk, oracle, rs, endMs, k)
  {
  }

  lemma NothingReadable(t: Tables, runId: string, file: EventsFile)
    requires !file.Parsed?
    ensures OutcomeRead(t, runId, file) == None
  {
  }

  /** The row after ingest and resolve, when no one else wrote it. */
  lemma ConcludedRow(t: Tables, h: Handle, file: EventsFile, exitOk: bool, now: int)
    requires Fresh(t, h.id) && RunRowOk(t.runs[h.id]) && t.runs[h.id].outcome.None? && !h.resolved
    ensures var t' := Concluded(t, h, file, exitOk, now);
            && h.id in t'.runs && t'.jobs == AfterIngest(t, h.id, file).jobs
            && t'.runs[h.id].outcome ==
                 if OpenedBy(t.runs[h.id], now) then Some(Verdict(exitOk, OutcomeRead(t, h.id, file))) else None
  {
    if file.Parsed? { IngestOnlyAdds(t, h.id, file.events); }
    ResolveLandsIff(t.runs, h, Verdict(exitOk, OutcomeRead(t, h.id, file)), now);
  }

  lemma ConcludedIsTrue(t: Tables, h: Handle, file: EventsFile, exitOk: bool, now: int, calls: seq<Call>,
                        scriptOk: bool, oracle: string -> JobScript, rs: seq<JobRun>, endMs: int, k: nat)
    requires Fresh(t, h.id) && RunRowOk(t.runs[h.id]) && t.runs[h.id].outcome.None? && !h.resolved
    requires Left(file, calls, scriptOk, oracle, rs, endMs, k)
    ensures VerdictIsTrue(Concluded(t, h, file, exitOk, now), h.id, calls, scriptOk, oracle, rs)
  {
    ConcludedRow(t, h, file, exitOk, now);
    VerdictReadIsTrue(t, h.id, file, exitOk, calls, scriptOk, oracle, rs, endMs, k);
  }

  /** After the start the row is open for a stamp exactly when the run's stamps fit. */
  lemma FitsWhenOpened(row: RunRow, started: RunRow, session: bool, dispatched: bool, startNow: int, endNow: int)
    requires RunRowOk(started) && started.createdAt == row.createdAt
    requires started.dispatchedAt == if Starts(row, session, dispatched, startNow)
                                     then Or(row.dispatchedAt, startNow) else row.dispatchedAt
    ensures StampsFit(row, session, dispatched, startNow, endNow) <==>
              Starts(row, session, dispatched, startNow) && OpenedBy(started, endNow)
    ensures !Starts(row, session, dispatched, startNow) ==> (OpenedBy(started, endNow) <==> OpenedBy(row, endNow))
  {
  }

  /** Everything the run had to say was written, and the schema can hold its time stamps. */
  ghost predicate AllWritten(calls: seq<Call>, scriptOk: bool, rs: seq<JobRun>, endMs: int, k: nat) {
    if scriptOk && Accepts(calls) then k >= |Stream(rs, endMs)| && AllRecordable(rs, |rs|) else k > 0
  }

  /** One run from `execute` to its row: dispatch or bootstrap fetch, `quire-ci run` dying after `k`
      events or not at all, perhaps tearing its last line (`torn`), ingest and resolve. `rs` is what its
      jobs do when run. The verdict is true; and with no other writer in between it is exactly this one. */
  method ExecuteRun(run: Run, session: bool, traceparent: Option<string>, calls: seq<Call>, scriptOk: bool,
                    push: PushData, oracle: string -> JobScript, k: nat, torn: bool, exitOk: bool, startNow: int,
                    endMs: int, endNow: int)
    returns (e: Option<ExecuteError>, ghost rs: seq<JobRun>)
    requires RowsOk(run.db.tables.runs) && Fresh(run.db.tables, run.id)
    requires run.db.tables.runs[run.id].outcome.None? && !run.resolved
    modifies run, run.db
    ensures scriptOk && Accepts(calls) ==> Ran(AllJobs(calls), oracle, rs)
    ensures VerdictIsTrue(run.db.tables, run.id, calls, scriptOk, oracle, rs)
    ensures run.db.tables.runs[run.id].outcome == Some(SucceededRun) <==>
              && StampsFit(old(run.db.tables.runs)[run.id], session, old(run.dispatched), startNow, endNow)
              && exitOk && !torn && AllWritten(calls, scriptOk, rs, endMs, k)
              && scriptOk && Accepts(calls) && RunFnsOk(calls, oracle)
    ensures run.db.tables.runs[run.id].outcome == Some(FailedPipeline) <==>
              && StampsFit(old(run.db.tables.runs)[run.id], session, old(run.dispatched), startNow, endNow)
              && exitOk && !torn && AllWritten(calls, scriptOk, rs, endMs, k)
              && !(scriptOk && Accepts(calls) && RunFnsOk(calls, oracle))
    ensures run.db.tables.runs[run.id].outcome == Some(FailedInternal) <==>
              if Starts(old(run.db.tables.runs)[run.id], session, old(run.dispatched), startNow)
              then StampsFit(old(run.db.tables.runs)[run.id], session, old(run.dispatched), startNow, endNow)
                   && !(exitOk && !torn && AllWritten(calls, scriptOk, rs, endMs, k))
              else session && OpenedBy(old(run.db.tables.runs)[run.id], endNow)
    ensures e == None <==> run.db.tables.runs[run.id].outcome in {Some(SucceededRun), Some(FailedPipeline)}
  {
    hide Stream, Accepts, Ran, AllRecordable, AllOk, OutcomeIsTrue, Concluded;
    hide Left, CutOf, RunOutcomeOf, IngestResult, IngestedTables, AfterIngest, OutcomeRead, RunFnsOk, AllWritten;
    hide StampsFit, Starts, OpenedBy;
    ghost var row, wasDispatched := run.db.tables.runs[run.id], run.dispatched;
    var began, ready := Start(run, session, traceparent, startNow);
    FitsWhenOpened(row, run.db.tables.runs[run.id], session, wasDispatched, startNow, endNow);
    var file, written, n := EventsWritten(calls, scriptOk, push, oracle, endMs, k);
    rs := written;
    if began.Some? {
      BystanderIsTrue(None, run.db.tables, run.id, calls, scriptOk, oracle, rs);
      return Some(Lifecycle(began.value)), rs;
    }
    if torn { file := Unparsable; }
    // Without its bootstrap the process exits before the first event.
    if !ready { file := Parsed([]); }
    var exited := exitOk && ready;
    LeftNothing(file, calls, scriptOk, oracle, rs, endMs, n);
    if ready && torn { NothingReadable(run.db.tables, run.id, file); }
    if ready && !torn { WrittenOutcome(run.db.tables, run.id, file, calls, scriptOk, oracle, rs, endMs, k, n); }
    ConcludedRow(run.db.tables, run.AsHandle(), file, exited, endNow);
    ConcludedIsTrue(run.db.tables, run.AsHandle(), file, exited, endNow, calls, scriptOk, oracle, rs, endMs, n);
    e := run.Conclude(file, exited, endNow);
  }
}
