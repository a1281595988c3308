/** The executor: input views, the runtime's `sh` recording, and the job loop of
    `quire-ci run`, with the order theorem for everything it emits. */
module Executor {
  import opened Wrappers
  import opened Graphs
  import opened Orders
  import opened Registration
  import opened Pipelines
  import opened Events
  import opened Seqs
  import CriLog

  datatype PushData = PushData(sha: string, refName: string, pushedAt: string)

  type View = map<string, Option<PushData>>

  datatype LookupError = OutsideJob | OwnOutputs(job: string) | NotTransitive(job: string, name: string)

  datatype RuntimeError = CommandSpawnFailed | LogWriteFailed

  /** One view per job: its keys are the job's strict ancestors, and only the push job has a value yet. */
  ghost predicate AreInputViews(p: Pipeline, inputs: map<string, View>, push: PushData) {
    && inputs.Keys == p.byId.Keys
    && forall id :: id in inputs ==> IsInputView(p.graph, p.byId[id], inputs[id], push)
  }

  ghost predicate IsInputView(g: JobGraph, v: nat, view: View, push: PushData) {
    && (forall name :: name in view <==> AncestorName(g, v, name))
    && forall name :: name in view ==> view[name] == if name == PUSH then Some(push) else None
  }

  method BuildInputViews(p: Pipeline, push: PushData) returns (inputs: map<string, View>)
    requires p.Sound()
    ensures AreInputViews(p, inputs, push)
  {
    hide Pipeline.Sound, IsInputView, AncestorName;
    var transitive := p.TransitiveInputs();
    inputs := map[];
    var todo := transitive.Keys;
    while todo != {}
      invariant todo <= transitive.Keys && inputs.Keys == transitive.Keys - todo
      invariant forall id :: id in inputs ==> IsInputView(p.graph, p.byId[id], inputs[id], push)
      decreases todo
    {
      var id :| id in todo;
      var view := BuildView(p.graph, p.byId[id], transitive[id], push);
      inputs := inputs[id := view];
      todo := todo - {id};
    }
  }

  method BuildView(g: JobGraph, ghost v: nat, reachable: set<string>, push: PushData) returns (view: View)
    requires forall name :: name in reachable <==> AncestorName(g, v, name)
    ensures IsInputView(g, v, view, push)
  {
    view := map[];
    var names := reachable;
    while names != {}
      invariant names <= reachable && view.Keys == reachable - names
      invariant forall name :: name in view ==> view[name] == if name == PUSH then Some(push) else None
      decreases names
    {
      var name :| name in names;
      view := view[name := if name == PUSH then Some(push) else None];
      names := names - {name};
    }
  }

  lemma OnlyPushIsTrigger(p: Pipeline)
    requires p.Sound()
    ensures forall j :: j in p.graph.nodes ==> (j.inputs == [] <==> j.id == PUSH)
  {
    var g := p.graph;
    var t := |g.nodes| - 1;
    forall j | j in g.nodes && j.id == PUSH ensures j.inputs == [] {
      var w: nat :| w < |g.nodes| && g.nodes[w] == j;
      assert w == t;
    }
  }

  /** Looking up a job's id gives its node. */
  lemma NodeOf(p: Pipeline, v: nat)
    requires p.Indexed() && p.graph.IsNode(v)
    ensures p.graph.nodes[v].id in p.byId && p.byId[p.graph.nodes[v].id] == v
  {
    var id := p.graph.nodes[v].id;
    assert Resolve(p.graph.nodes, id) == if id in p.byId then Some(p.byId[id]) else None;
    assert p.graph.nodes[Resolve(p.graph.nodes, id).value].id == id;
  }

  lemma NodeNamed(p: Pipeline, id: string)
    requires p.Indexed() && id in p.byId
    ensures p.graph.IsNode(p.byId[id]) && p.graph.nodes[p.byId[id]].id == id
  {
    assert Resolve(p.graph.nodes, id) == Some(p.byId[id]);
  }

  lemma PushIsAbove(p: Pipeline, v: nat)
    requires p.Sound() && p.graph.IsNode(v) && p.graph.nodes[v].id != PUSH
    ensures AncestorName(p.graph, v, PUSH)
  {
    OnlyPushIsTrigger(p);
    assert HasTriggerAncestor(p.graph, v);
    var u: nat :| IsTrigger(p.graph, u) && p.graph.Reach(u, v);
    assert p.graph.nodes[u] in p.graph.nodes && p.graph.nodes[v] in p.graph.nodes;
    ReachCases(p.graph, u, v);
  }

  lemma AncestorsExist(p: Pipeline, v: nat, name: string)
    requires p.Sound() && p.graph.IsNode(v) && AncestorName(p.graph, v, name)
    ensures name in p.byId && name != p.graph.nodes[v].id
  {
    var u: nat :| p.graph.IsNode(u) && p.graph.StrictReach(u, v) && p.graph.nodes[u].id == name;
    NodeOf(p, u);
    NodeOf(p, v);
    assert !p.graph.OnCycle(v);
  }

  /** The views of an accepted pipeline: existing names, never one's own; the push job
      is in everybody else's view, has no inputs and is alone in that, and is the only
      name that carries a value. */
  lemma ViewsOfSoundPipeline(p: Pipeline, inputs: map<string, View>, push: PushData, id: string)
    requires p.Sound() && id in p.byId && AreInputViews(p, inputs, push)
    ensures id !in inputs[id] && inputs[id].Keys <= p.byId.Keys
    ensures PUSH in inputs[id] <==> id != PUSH
    ensures forall name :: name in inputs[id] ==> (inputs[id][name].Some? <==> name == PUSH)
    ensures forall j :: j in p.graph.nodes ==> (j.inputs == [] <==> j.id == PUSH)
  {
    OnlyPushIsTrigger(p);
    NodeNamed(p, id);
    assert IsInputView(p.graph, p.byId[id], inputs[id], push);
    forall name | name in inputs[id] ensures name in p.byId && name != id {
      AncestorsExist(p, p.byId[id], name);
    }
    if id != PUSH { PushIsAbove(p, p.byId[id]); }
  }

  /** The `(jobs name)` primitive. A readable name without outputs gives nil. */
  function Lookup(inputs: map<string, View>, calling: Option<string>, name: string): Result<Option<PushData>,
                  LookupError>
    requires calling.Some? ==> calling.value in inputs
  {
    match calling
    case None => Err(OutsideJob)
    case Some(job) =>
      if name in inputs[job] then Ok(inputs[job][name])
      else if name == job then Err(OwnOutputs(job))
      else Err(NotTransitive(job, name))
  }

  /** A job may read exactly its strict ancestors, and gets push data from the push job alone; its own
      outputs, any other name, and a call from outside a job are three different errors. */
  lemma LookupReadsAncestors(p: Pipeline, inputs: map<string, View>, push: PushData, job: string, name: string)
    requires p.Sound() && job in p.byId && AreInputViews(p, inputs, push)
    ensures Lookup(inputs, Some(job), name).Ok? <==> AncestorName(p.graph, p.byId[job], name)
    ensures Lookup(inputs, Some(job), name) == Ok(Some(push)) <==> name == "quire/push" && job != "quire/push"
    ensures AncestorName(p.graph, p.byId[job], name) && name != "quire/push" ==>
              Lookup(inputs, Some(job), name) == Ok(None)
    ensures Lookup(inputs, Some(job), job) == Err(OwnOutputs(job))
    ensures name != job && !AncestorName(p.graph, p.byId[job], name) ==>
              Lookup(inputs, Some(job), name) == Err(NotTransitive(job, name))
    ensures Lookup(inputs, None, name) == Err(OutsideJob)
  {
    ViewsOfSoundPipeline(p, inputs, push, job);
    assert IsInputView(p.graph, p.byId[job], inputs[job], push);
  }

  // ---------------------------------------------------------- sh recording

  /** Recorded outputs and log files, by job and by `(job, n)` for `jobs/<job>/sh-<n>.log`. */
  datatype Logs = Logs(outputs: map<string, seq<ShOutput>>, files: map<(string, nat), string>) {
    function Recorded(id: string): seq<ShOutput> { if id in outputs then outputs[id] else [] }
  }

  function AfterSh(l: Logs, id: string, a: Attempt): Logs {
    if a.spawn.SpawnFailed? then l
    else
      var n := |l.Recorded(id)| + 1;
      match a.spawn.log
      case Written => Logs(l.outputs[id := l.Recorded(id) + [a.spawn.output]],
                           l.files[(id, n) := CriLog.Contents(a.spawn.output.stdout, a.spawn.output.stderr, a.ts)])
      case WriteFailed(Some(partial)) => l.(files := l.files[(id, n) := partial])
      case WriteFailed(None) => l
  }

  function LogsUpTo(l: Logs, id: string, attempts: seq<Attempt>, n: nat): Logs
    requires n <= |attempts|
  {
    if n == 0 then l else AfterSh(LogsUpTo(l, id, attempts, n - 1), id, attempts[n - 1])
  }

  function RunLogs(l: Logs, rs: seq<JobRun>, n: nat): Logs
    requires n <= |rs|
  {
    if n == 0 then l
    else LogsUpTo(RunLogs(l, rs, n - 1), rs[n - 1].id, rs[n - 1].script.attempts, |rs[n - 1].script.attempts|)
  }

  /** The runtime, its event sink, and the executor's active-job pointer the sink callback reads. */
  class Runtime {
    const pipeline: Pipeline
    const inputs: map<string, View>
    var currentJob: Option<string>
    var activeJob: Option<string>
    var logs: Logs
    var events: seq<Event>

    constructor (pipeline: Pipeline, inputs: map<string, View>)
      ensures this.pipeline == pipeline && this.inputs == inputs
      ensures currentJob == activeJob == None && logs == Logs(map[], map[]) && events == []
    {
      this.pipeline, this.inputs := pipeline, inputs;
      currentJob, activeJob := None, None;
      logs, events := Logs(map[], map[]), [];
    }

    method EnterJob(id: string)
      requires id in inputs
      modifies this`currentJob
      ensures currentJob == Some(id)
    {
      currentJob := Some(id);
    }

    method LeaveJob()
      modifies this`currentJob
      ensures currentJob == None
    {
      currentJob := None;
    }

    method Emit(event: Event)
      modifies this`events
      ensures events == old(events) + [event]
    {
      events := events + [event];
    }

    /** The installed callback: stamps a runtime event with the active job. */
    method OnShStarted(atMs: int, cmd: string)
      requires activeJob.Some?
      modifies this`events
      ensures events == old(events) + [Event(atMs, ShStarted(activeJob.value, cmd))]
    {
      Emit(Event(atMs, ShStarted(activeJob.value, cmd)));
    }

    method OnShFinished(atMs: int, exit: int)
      requires activeJob.Some?
      modifies this`events
      ensures events == old(events) + [Event(atMs, ShFinished(activeJob.value, exit))]
    {
      Emit(Event(atMs, ShFinished(activeJob.value, exit)));
    }

    /** Run one command. Inside a job it is announced before the spawn and after the
        exit, logged under the next free number, and recorded only once logged. */
    method Sh(a: Attempt) returns (r: Result<ShOutput, RuntimeError>)
      requires currentJob.Some? ==> activeJob == currentJob
      modifies this`events, this`logs
      ensures currentJob.Some? ==>
                events == old(events) + [Event(a.startMs, ShStarted(currentJob.value, a.cmd))]
                          + if a.spawn.Spawned?
                            then [Event(a.spawn.finishMs, ShFinished(currentJob.value, a.spawn.output.exit))] else []
      ensures currentJob.None? ==> events == old(events)
      ensures logs == if currentJob.Some? then AfterSh(old(logs), currentJob.value, a) else old(logs)
      ensures currentJob.Some? && a.spawn.Spawned? ==>
                var id := currentJob.value;
                var recorded := if id in old(logs).outputs then old(logs).outputs[id] else [];
                match a.spawn.log
                case Written =>
                  && logs.outputs == old(logs).outputs[id := recorded + [a.spawn.output]]
                  && logs.files == old(logs).files[(id, |recorded| + 1) :=
                       CriLog.Contents(a.spawn.output.stdout, a.spawn.output.stderr, a.ts)]
                case WriteFailed(leftover) =>
                  && logs.outputs == old(logs).outputs
                  && logs.files == if leftover.Some? then old(logs).files[(id, |recorded| + 1) := leftover.value]
                                   else old(logs).files
      ensures currentJob.None? || a.spawn.SpawnFailed? ==> logs == old(logs)
      ensures r == match a.spawn
                   case SpawnFailed => Err(CommandSpawnFailed)
                   case Spawned(_, output, log) =>
                     if currentJob.Some? && log.WriteFailed? then Err(LogWriteFailed) else Ok(output)
    {
      if currentJob.Some? { OnShStarted(a.startMs, a.cmd); }
      match a.spawn
      case SpawnFailed => return Err(CommandSpawnFailed);
      case Spawned(finishMs, output, log) =>
        if currentJob.Some? {
          var id := currentJob.value;
          OnShFinished(finishMs, output.exit);
          var n := |logs.Recorded(id)| + 1;
          match log {
            case WriteFailed(leftover) =>
              if leftover.Some? { logs := logs.(files := logs.files[(id, n) := leftover.value]); }
              return Err(LogWriteFailed);
            case Written =>
              var contents := CriLog.WriteCriLog(output.stdout, output.stderr, a.ts);
              logs := logs.(files := logs.files[(id, n) := contents]);
              logs := logs.(outputs := logs.outputs[id := logs.Recorded(id) + [output]]);
          }
        }
        return Ok(output);
    }

    /** Call a job's run-fn: a Lua one attempts its commands and may fail, the built-in one does nothing. */
    method CallRunFn(runFn: RunFn, script: JobScript) returns (ok: bool)
      requires currentJob.Some? && activeJob == currentJob
      modifies this`events, this`logs
      ensures runFn.Lua? ==> ok == script.ok
      ensures runFn.Lua? ==> events == old(events) + ShUpTo(currentJob.value, script.attempts, |script.attempts|)
      ensures runFn.Lua? ==> logs == LogsUpTo(old(logs), currentJob.value, script.attempts, |script.attempts|)
      ensures runFn.BuiltinNoop? ==> ok && events == old(events) && logs == old(logs)
    {
      match runFn
      case BuiltinNoop => return true;
      case Lua =>
        for i := 0 to |script.attempts|
          invariant events == old(events) + ShUpTo(currentJob.value, script.attempts, i)
          invariant logs == LogsUpTo(old(logs), currentJob.value, script.attempts, i)
        {
          var _ := Sh(script.attempts[i]);
        }
        return script.ok;
    }
  }

  function Effective(runFn: RunFn, script: JobScript): JobScript {
    if runFn.BuiltinNoop? then script.(attempts := [], ok := true) else script
  }

  /** The events of the attempts: each is announced, and its exit follows at once if it was spawned. */
  lemma {:induction false} AttemptEvents(id: string, attempts: seq<Attempt>, n: nat) returns (at: seq<nat>)
    requires n <= |attempts|
    ensures |at| == n + 1 && at[0] == 0 && at[n] == |ShUpTo(id, attempts, n)|
    ensures forall i {:trigger attempts[i]} :: 0 <= i < n ==>
              && at[i + 1] == at[i] + (if attempts[i].spawn.Spawned? then 2 else 1) <= at[n]
              && ShUpTo(id, attempts, n)[at[i]] == Event(attempts[i].startMs, ShStarted(id, attempts[i].cmd))
              && (attempts[i].spawn.Spawned? ==>
                    ShUpTo(id, attempts, n)[at[i] + 1] ==
                    Event(attempts[i].spawn.finishMs, ShFinished(id, attempts[i].spawn.output.exit)))
  {
    if n == 0 { return [0]; }
    at := AttemptEvents(id, attempts, n - 1);
    at := at + [|ShUpTo(id, attempts, n)|];
  }

  /** The outputs recorded of a job are those of its logged attempts, in order. */
  lemma {:induction false} RecordedOutputs(l: Logs, id: string, attempts: seq<Attempt>, n: nat)
    returns (which: seq<nat>)
    requires n <= |attempts|
    ensures KeptAre(attempts, n, which)
    ensures IsRecordOf(LogsUpTo(l, id, attempts, n).Recorded(id), l.Recorded(id), attempts, which)
  {
    hide IsRecordOf, KeptAre, AfterSh, Logs.Recorded;
    if n == 0 {
      NothingRecorded(l.Recorded(id), attempts);
      return [];
    }
    which := RecordedOutputs(l, id, attempts, n - 1);
    RecordedAfterSh(LogsUpTo(l, id, attempts, n - 1), id, attempts[n - 1]);
    which := RecordStep(LogsUpTo(l, id, attempts, n - 1).Recorded(id), LogsUpTo(l, id, attempts, n).Recorded(id),
                        l.Recorded(id), attempts, n, which);
  }

  lemma RecordStep(recorded: seq<ShOutput>, recorded': seq<ShOutput>, before: seq<ShOutput>, attempts: seq<Attempt>,
                   n: nat, which: seq<nat>)
    returns (which': seq<nat>)
    requires 0 < n <= |attempts| && KeptAre(attempts, n - 1, which) && IsRecordOf(recorded, before, attempts, which)
    requires var a := attempts[n - 1];
             recorded' == recorded + if a.spawn.Spawned? && a.spawn.log.Written? then [a.spawn.output] else []
    ensures KeptAre(attempts, n, which') && IsRecordOf(recorded', before, attempts, which')
  {
    hide *;
    OneMoreKept(attempts, n, which);
    var a := attempts[n - 1];
    if a.spawn.Spawned? && a.spawn.log.Written? {
      OneMoreOutput(recorded, before, attempts, which, n - 1);
      return which + [n - 1];
    }
    assert recorded' == recorded && which + [] == which;
    return which;
  }

  /** `which` lists, in order, those of the first `n` attempts that were spawned and whose log was written. */
  ghost predicate KeptAre(attempts: seq<Attempt>, n: nat, which: seq<nat>)
    requires n <= |attempts|
  {
    && (forall i, j :: 0 <= i < j < |which| ==> which[i] < which[j])
    && (forall k :: 0 <= k < |which| ==> which[k] < n)
    && forall i :: 0 <= i < n ==> (i in which <==> attempts[i].spawn.Spawned? && attempts[i].spawn.log.Written?)
  }

  lemma OneMoreKept(attempts: seq<Attempt>, n: nat, which: seq<nat>)
    requires 0 < n <= |attempts| && KeptAre(attempts, n - 1, which)
    ensures KeptAre(attempts, n, which + if attempts[n - 1].spawn.Spawned? && attempts[n - 1].spawn.log.Written?
                                         then [n - 1] else [])
  {
    assert which + [] == which;
  }

  /** `recorded` is what was there before and then the outputs of the attempts at `which`. */
  ghost predicate IsRecordOf(recorded: seq<ShOutput>, before: seq<ShOutput>, attempts: seq<Attempt>, which: seq<nat>) {
    && (forall k :: 0 <= k < |which| ==> which[k] < |attempts| && attempts[which[k]].spawn.Spawned?)
    && recorded == before + seq(|which|, k requires 0 <= k < |which| && which[k] < |attempts|
                                                    && attempts[which[k]].spawn.Spawned? =>
                                  attempts[which[k]].spawn.output)
  }

  lemma NothingRecorded(before: seq<ShOutput>, attempts: seq<Attempt>)
    ensures IsRecordOf(before, before, attempts, []) && KeptAre(attempts, 0, [])
  {
  }

  lemma OneMoreOutput(recorded: seq<ShOutput>, before: seq<ShOutput>, attempts: seq<Attempt>, which: seq<nat>, i: nat)
    requires IsRecordOf(recorded, before, attempts, which) && i < |attempts| && attempts[i].spawn.Spawned?
    ensures IsRecordOf(recorded + [attempts[i].spawn.output], before, attempts, which + [i])
  {
  }

  lemma RecordedAfterSh(l: Logs, id: string, a: Attempt)
    ensures AfterSh(l, id, a).Recorded(id) ==
            l.Recorded(id) + if a.spawn.Spawned? && a.spawn.log.Written? then [a.spawn.output] else []
    ensures forall other :: other != id ==> AfterSh(l, id, a).Recorded(other) == l.Recorded(other)
  {
  }

  // -------------------------------------------------------------- job loop

  /** A user's job does what its run-fn did: its attempts, its result. */
  lemma RunOfUserJob(job: Job, oracle: string -> JobScript)
    ensures job.runFn.Lua? ==> RunOf(job, oracle) == JobRun(job.id, oracle(job.id))
    ensures job.runFn.BuiltinNoop? ==>
              && RunOf(job, oracle).id == job.id
              && RunOf(job, oracle).script.attempts == [] && RunOf(job, oracle).script.ok
  {
  }

  function RunOf(job: Job, oracle: string -> JobScript): JobRun {
    JobRun(job.id, Effective(job.runFn, oracle(job.id)))
  }

  /** Jobs run one after another until the first failure. */
  function Executed(jobs: seq<Job>, oracle: string -> JobScript): (rs: seq<JobRun>)
    ensures |rs| <= |jobs|
    ensures forall i :: 0 <= i < |rs| ==> rs[i] == RunOf(jobs[i], oracle)
    ensures forall i :: 0 <= i < |rs| - 1 ==> rs[i].script.ok
    ensures |rs| < |jobs| ==> rs != [] && !rs[|rs| - 1].script.ok
  {
    if jobs == [] then []
    else
      var r := RunOf(jobs[0], oracle);
      if r.script.ok then [r] + Executed(jobs[1..], oracle) else [r]
  }

  /** Those facts determine the run: the jobs up to the first failure. */
  lemma {:induction false} ExecutedUnique(jobs: seq<Job>, oracle: string -> JobScript, rs: seq<JobRun>)
    requires |rs| <= |jobs| && forall i :: 0 <= i < |rs| ==> rs[i] == RunOf(jobs[i], oracle)
    requires forall i :: 0 <= i < |rs| - 1 ==> rs[i].script.ok
    requires |rs| < |jobs| ==> rs != [] && !rs[|rs| - 1].script.ok
    ensures rs == Executed(jobs, oracle)
  {
    if jobs != [] {
      assert rs[0] == RunOf(jobs[0], oracle);
      assert rs == [rs[0]] + rs[1..];
      if rs[0].script.ok { ExecutedUnique(jobs[1..], oracle, rs[1..]); }
    }
  }

  /** `quire-ci run`: a script that does not compile is one event; otherwise every job in
      topological order until the first failure. (With no jobs at all the source emits the
      same lone event as the loop below would.) */
  method RunPipeline(compiled: Option<Pipeline>, push: PushData, oracle: string -> JobScript, endMs: int)
    returns (events: seq<Event>, logs: Logs, ghost order: seq<nat>)
    requires compiled.Some? ==> compiled.value.Sound()
    ensures compiled.None? ==> events == [Event(endMs, RunFinished(PipelineFailure))] && logs == NO_LOGS
    ensures compiled.Some? ==> IsRunOf(compiled.value, order, oracle, endMs, events, logs)
    ensures compiled.Some? ==>
              events != []
              && events[|events| - 1] ==
                 Event(endMs, RunFinished(
                         if forall j :: j in compiled.value.graph.nodes && j.id != "quire/push" ==> oracle(j.id).ok
                         then Succeeded else PipelineFailure))
  {
    if compiled.None? {
      return [Event(endMs, RunFinished(PipelineFailure))], NO_LOGS, [];
    }
    var jobs, order' := compiled.value.Jobs();
    order := order';
    var inputs := BuildInputViews(compiled.value, push);
    var rt := new Runtime(compiled.value, inputs);
    RunJobs(rt, jobs, oracle, endMs);
    AllOkMeans(compiled.value, jobs, oracle);
    return rt.events, rt.logs, order;
  }

  lemma OnlyPushIsBuiltin(p: Pipeline, j: Job)
    requires p.Sound() && j in p.graph.nodes
    ensures j.runFn.Lua? <==> j.id != "quire/push"
  {
    var g := p.graph;
    var w: nat :| w < |g.nodes| && g.nodes[w] == j;
    if j.id == PUSH { assert w == |g.nodes| - 1; }
  }

  /** Every executed job is good exactly when every user's run-fn is. */
  lemma AllOkMeans(p: Pipeline, jobs: seq<Job>, oracle: string -> JobScript)
    requires p.Sound() && forall j :: j in jobs <==> j in p.graph.nodes
    ensures AllOk(Executed(jobs, oracle)) <==>
              forall j :: j in p.graph.nodes && j.id != "quire/push" ==> oracle(j.id).ok
  {
    var rs := Executed(jobs, oracle);
    forall j | j in p.graph.nodes ensures j.runFn.Lua? <==> j.id != "quire/push" { OnlyPushIsBuiltin(p, j); }
    hide Pipeline.Sound, Executed;
    if AllOk(rs) {
      assert |rs| == |jobs|;
      forall j | j in p.graph.nodes && j.id != "quire/push" ensures oracle(j.id).ok {
        var i :| 0 <= i < |jobs| && jobs[i] == j;
        assert rs[i].script.ok;
      }
    } else {
      var i :| 0 <= i < |rs| && !rs[i].script.ok;
      assert jobs[i] in jobs;
    }
  }

  const NO_LOGS: Logs := Logs(map[], map[])

  /** `events` and `logs` are what executing `p` in this order leaves behind. */
  ghost predicate IsRunOf(p: Pipeline, order: seq<nat>, oracle: string -> JobScript, endMs: int, events: seq<Event>,
                          logs: Logs) {
    && p.graph.IsTopoOrder(order) && (forall i :: 0 <= i < |order| ==> order[i] < |p.graph.nodes|)
    && events == Stream(Executed(JobsAt(p.graph, order), oracle), endMs)
    && logs == RunLogs(NO_LOGS, Executed(JobsAt(p.graph, order), oracle), |Executed(JobsAt(p.graph, order), oracle)|)
  }

  method RunJobs(rt: Runtime, jobs: seq<Job>, oracle: string -> JobScript, endMs: int)
    requires rt.pipeline.Indexed() && rt.inputs.Keys == rt.pipeline.byId.Keys
    requires forall j :: j in jobs ==> j in rt.pipeline.graph.nodes
    requires rt.currentJob == None && rt.events == [] && rt.logs == NO_LOGS
    modifies rt
    ensures rt.events == Stream(Executed(jobs, oracle), endMs)
    ensures rt.logs == RunLogs(NO_LOGS, Executed(jobs, oracle), |Executed(jobs, oracle)|)
  {
    var failed, rs := RunUntilFailure(rt, jobs, oracle);
    ExecutedUnique(jobs, oracle, rs);
    rt.Emit(Event(endMs, RunFinished(if failed then PipelineFailure else Succeeded)));
  }

  method RunUntilFailure(rt: Runtime, jobs: seq<Job>, oracle: string -> JobScript)
    returns (failed: bool, ghost rs: seq<JobRun>)
    requires rt.pipeline.Indexed() && rt.inputs.Keys == rt.pipeline.byId.Keys
    requires forall j :: j in jobs ==> j in rt.pipeline.graph.nodes
    requires rt.currentJob == None && rt.events == [] && rt.logs == NO_LOGS
    modifies rt
    ensures |rs| <= |jobs| && forall k :: 0 <= k < |rs| ==> rs[k] == RunOf(jobs[k], oracle)
    ensures forall k :: 0 <= k < |rs| - 1 ==> rs[k].script.ok
    ensures failed <==> rs != [] && !rs[|rs| - 1].script.ok
    ensures |rs| < |jobs| ==> failed
    ensures rt.events == RunsUpTo(rs, |rs|) && rt.logs == RunLogs(NO_LOGS, rs, |rs|)
  {
    hide Pipeline.Indexed, Effective, RunUpTo;
    failed := false;
    rs := [];
    NothingRun(jobs, oracle);
    var i := 0;
    while i < |jobs| && !failed
      invariant 0 <= i <= |jobs| && |rs| == i && rt.currentJob == None && (i == 0 ==> !failed)
      invariant RunUpTo(jobs, oracle, rs, failed)
      invariant rt.events == RunsUpTo(rs, i) && rt.logs == RunLogs(NO_LOGS, rs, i)
      decreases |jobs| - i
    {
      hide RunsUpTo, RunLogs, JobStream, LogsUpTo, RunOf, ShUpTo;
      OneMoreRun(NO_LOGS, rs, RunOf(jobs[i], oracle));
      Bracketed(rt.events, rt.logs, jobs[i], oracle);
      OneMoreRan(jobs, oracle, rs);
      var ok := RunJob(rt, jobs[i], oracle(jobs[i].id));
      rs := rs + [RunOf(jobs[i], oracle)];
      failed := !ok;
      i := i + 1;
    }
    RunUpToMeans(jobs, oracle, rs, failed);
  }

  /** `rs` are the runs of the first jobs, all of them good unless the last one `failed`. */
  ghost predicate RunUpTo(jobs: seq<Job>, oracle: string -> JobScript, rs: seq<JobRun>, failed: bool) {
    && |rs| <= |jobs|
    && (forall k :: 0 <= k < |rs| ==> rs[k] == RunOf(jobs[k], oracle))
    && (forall k :: 0 <= k < |rs| - 1 ==> rs[k].script.ok)
    && (failed <==> rs != [] && !rs[|rs| - 1].script.ok)
  }

  lemma NothingRun(jobs: seq<Job>, oracle: string -> JobScript)
    ensures RunUpTo(jobs, oracle, [], false)
  {
  }

  lemma OneMoreRan(jobs: seq<Job>, oracle: string -> JobScript, rs: seq<JobRun>)
    requires RunUpTo(jobs, oracle, rs, false) && |rs| < |jobs|
    ensures var r := RunOf(jobs[|rs|], oracle); RunUpTo(jobs, oracle, rs + [r], !r.script.ok)
  {
  }

  lemma RunUpToMeans(jobs: seq<Job>, oracle: string -> JobScript, rs: seq<JobRun>, failed: bool)
    requires RunUpTo(jobs, oracle, rs, failed)
    ensures forall k :: 0 <= k < |rs| ==> rs[k] == RunOf(jobs[k], oracle)
    ensures forall k :: 0 <= k < |rs| - 1 ==> rs[k].script.ok
    ensures failed <==> rs != [] && !rs[|rs| - 1].script.ok
  {
  }

  lemma OneMoreRun(l: Logs, rs: seq<JobRun>, r: JobRun)
    ensures RunsUpTo(rs + [r], |rs| + 1) == RunsUpTo(rs, |rs|) + JobStream(r)
    ensures RunLogs(l, rs + [r], |rs| + 1) ==
            LogsUpTo(RunLogs(l, rs, |rs|), r.id, r.script.attempts, |r.script.attempts|)
  {
    assert (rs + [r])[..|rs|] == rs;
    RunsUpToSame(rs, rs + [r], |rs|);
    RunLogsSame(l, rs, rs + [r], |rs|);
  }

  /** One turn of the loop: bracket events around the run-fn call. */
  method RunJob(rt: Runtime, job: Job, script: JobScript) returns (ok: bool)
    requires rt.pipeline.Indexed() && job in rt.pipeline.graph.nodes && rt.inputs.Keys == rt.pipeline.byId.Keys
    modifies rt
    ensures rt.currentJob == None && (ok <==> (job.runFn.Lua? ==> script.ok))
    ensures rt.events ==
            old(rt.events) + [Event(script.startMs, JobStarted(job.id))]
            + (if job.runFn.Lua? then ShUpTo(job.id, script.attempts, |script.attempts|) else [])
            + [Event(script.finishMs, JobFinished(job.id, if ok then JobSucceeded else JobFailed))]
    ensures rt.logs == if job.runFn.Lua? then LogsUpTo(old(rt.logs), job.id, script.attempts, |script.attempts|)
                       else old(rt.logs)
  {
    hide Pipeline.Indexed, LogsUpTo, ShUpTo;
    rt.activeJob := Some(job.id);
    rt.Emit(Event(script.startMs, JobStarted(job.id)));
    var found := rt.pipeline.Job(job.id);
    IdsAreUnique(rt.pipeline, job);
    rt.EnterJob(job.id);
    ok := rt.CallRunFn(found.value.runFn, script);
    rt.LeaveJob();
    rt.Emit(Event(script.finishMs, JobFinished(job.id, if ok then JobSucceeded else JobFailed)));
    rt.activeJob := None;
  }

  /** What that leaves behind is the job's run. */
  lemma Bracketed(before: seq<Event>, l: Logs, job: Job, oracle: string -> JobScript)
    ensures var r, script := RunOf(job, oracle), oracle(job.id);
            && r.id == job.id && (r.script.ok <==> (job.runFn.Lua? ==> script.ok))
            && before + JobStream(r) ==
               before + [Event(script.startMs, JobStarted(job.id))]
               + (if job.runFn.Lua? then ShUpTo(job.id, script.attempts, |script.attempts|) else [])
               + [Event(script.finishMs, JobFinished(job.id, if r.script.ok then JobSucceeded else JobFailed))]
            && LogsUpTo(l, r.id, r.script.attempts, |r.script.attempts|) ==
               if job.runFn.Lua? then LogsUpTo(l, job.id, script.attempts, |script.attempts|) else l
  {
    var r := RunOf(job, oracle);
    Associate4(before, [Event(r.script.startMs, JobStarted(r.id))],
               ShUpTo(r.id, r.script.attempts, |r.script.attempts|),
               [Event(r.script.finishMs, JobFinished(r.id, OutcomeOf(r.script.ok)))]);
  }

  lemma IdsAreUnique(p: Pipeline, job: Job)
    requires p.Indexed() && job in p.graph.nodes
    ensures job.id in p.byId
    ensures forall j :: j in p.graph.nodes && j.id == job.id ==> j == job
  {
    var v: nat :| v < |p.graph.nodes| && p.graph.nodes[v] == job;
    NodeOf(p, v);
  }

  lemma {:induction false} RunLogsSame(l: Logs, rs: seq<JobRun>, rs': seq<JobRun>, n: nat)
    requires n <= |rs| && n <= |rs'| && rs[..n] == rs'[..n]
    ensures RunLogs(l, rs, n) == RunLogs(l, rs', n)
  {
    if n > 0 {
      assert rs[..n - 1] == rs[..n][..n - 1] == rs'[..n - 1];
      assert rs[n - 1] == rs[..n][n - 1] == rs'[n - 1];
      RunLogsSame(l, rs, rs', n - 1);
    }
  }

  // --------------------------------------------------------- order theorem

  lemma ExecutedDistinct(p: Pipeline, order: seq<nat>, oracle: string -> JobScript)
    requires p.Sound() && p.graph.IsTopoOrder(order)
    requires forall i :: 0 <= i < |order| ==> order[i] < |p.graph.nodes|
    ensures DistinctRuns(Executed(JobsAt(p.graph, order), oracle))
  {
    NoJobTwice(p.graph, order, Executed(JobsAt(p.graph, order), oracle));
  }

  lemma NoJobTwice(g: JobGraph, order: seq<nat>, rs: seq<JobRun>)
    requires DistinctIds(g.nodes) && NoDup(order) && |rs| <= |order|
    requires forall i :: 0 <= i < |order| ==> order[i] < |g.nodes|
    requires forall i :: 0 <= i < |rs| ==> rs[i].id == g.nodes[order[i]].id
    ensures DistinctRuns(rs)
  {
  }

  /** Each strict ancestor of the `m`-th executed job was executed before it, with success. */
  lemma AncestorRanBefore(g: JobGraph, order: seq<nat>, jobs: seq<Job>, rs: seq<JobRun>, m: nat, name: string)
    returns (i: nat)
    requires g.Valid() && g.IsTopoOrder(order) && m < |rs| <= |jobs| == |order| && AncestorName(g, order[m], name)
    requires forall k :: 0 <= k < |order| ==> order[k] < |g.nodes| && jobs[k] == g.nodes[order[k]]
    requires forall k :: 0 <= k < |rs| ==> rs[k].id == jobs[k].id && (k < |rs| - 1 ==> rs[k].script.ok)
    ensures i < m && rs[i].id == name && rs[i].script.ok
  {
    var u: nat :| g.IsNode(u) && g.StrictReach(u, order[m]) && g.nodes[u].id == name;
    i :| 0 <= i < |order| && order[i] == u;
    StrictAncestorsComeFirst(g, order, i, m);
  }

  /** Whenever a job's start is emitted, every job it transitively depends on has
      already emitted a successful finish. */
  lemma InputsFinishFirst(p: Pipeline, order: seq<nat>, oracle: string -> JobScript, endMs: int, events: seq<Event>,
                          logs: Logs, k: nat, id: string, name: string)
    returns (l: nat)
    requires p.Indexed() && p.graph.Valid() && IsRunOf(p, order, oracle, endMs, events, logs)
    requires k < |events| && events[k].kind == JobStarted(id)
    requires id in p.byId && AncestorName(p.graph, p.byId[id], name)
    ensures l < k && events[l].kind == JobFinished(name, JobSucceeded)
  {
    hide AncestorName, Stream, Pipeline.Indexed, Graph.IsTopoOrder, Graph.Valid;
    var jobs := JobsAt(p.graph, order);
    var rs := Executed(jobs, oracle);
    var m := StartedJob(rs, endMs, k, id);
    var i := NeededRanBefore(p, order, jobs, rs, m, name);
    l := FinishEvent(rs, i, m, endMs);
  }

  /** In particular every name its call lists, if some job is called so. */
  lemma ListedInputsFinishFirst(calls: seq<Call>, p: Pipeline, order: seq<nat>, oracle: string -> JobScript,
                                endMs: int, events: seq<Event>, logs: Logs, k: nat, c: nat, name: string)
    returns (l: nat)
    requires p.Sound() && p.graph.nodes == JobsOf(calls) + [BUILTIN_PUSH_JOB]
    requires IsRunOf(p, order, oracle, endMs, events, logs)
    requires c < |calls| && calls[c].JobCall? && name in calls[c].inputs && Names(calls, name)
    requires k < |events| && events[k].kind == JobStarted(calls[c].id)
    ensures l < k && events[l].kind == JobFinished(name, JobSucceeded)
  {
    assert Lists(calls, calls[c].id, name);
    assert IsChain(calls, [name, calls[c].id], name, calls[c].id);
    NodeOfCall(calls, p, c);
    DependencyGraphValid(p.graph.nodes);
    AncestorsAreChains(calls, p, calls[c].id, name);
    hide IsRunOf, IsChain, Lists, AncestorName, Names, Pipeline.Indexed;
    l := InputsFinishFirst(p, order, oracle, endMs, events, logs, k, calls[c].id, name);
  }

  /** What a run's events say is what the run-fns did: the stamps are theirs, and a user's job is
      reported succeeded exactly when its run-fn did not fail. */
  lemma JobEventsTell(p: Pipeline, order: seq<nat>, oracle: string -> JobScript, endMs: int, events: seq<Event>,
                      logs: Logs, k: nat)
    requires p.Sound() && IsRunOf(p, order, oracle, endMs, events, logs) && k < |events|
    ensures events[k].kind.JobStarted? ==> events[k].atMs == oracle(events[k].kind.jobId).startMs
    ensures events[k].kind.JobFinished? ==>
              var id := events[k].kind.jobId;
              && events[k].atMs == oracle(id).finishMs
              && (events[k].kind.outcome == JobSucceeded <==> (id != "quire/push" ==> oracle(id).ok))
  {
    JobsAtTopo(p.graph, order);
    hide Pipeline.Sound, Graph.IsTopoOrder, JobsAt, Stream, JobStream, RunOf, Executed;
    if events[k].kind.JobStarted? || events[k].kind.JobFinished? {
      var job, i := EventOfJob(JobsAt(p.graph, order), oracle, endMs, k);
      OnlyPushIsBuiltin(p, job);
      JobStreamTells(job, oracle, i);
    }
  }

  lemma EventOfJob(jobs: seq<Job>, oracle: string -> JobScript, endMs: int, k: nat) returns (job: Job, i: nat)
    requires var events := Stream(Executed(jobs, oracle), endMs); k < |events| && !events[k].kind.RunFinished?
    ensures job in jobs && i < |JobStream(RunOf(job, oracle))|
    ensures Stream(Executed(jobs, oracle), endMs)[k] == JobStream(RunOf(job, oracle))[i]
  {
    var rs := Executed(jobs, oracle);
    hide Executed, Stream, JobStream, RunOf, RunsUpTo;
    var m := LocateJobEvent(rs, endMs, k);
    return jobs[m], k - |RunsUpTo(rs, m)|;
  }

  lemma JobStreamTells(job: Job, oracle: string -> JobScript, i: nat)
    requires i < |JobStream(RunOf(job, oracle))|
    ensures var e := JobStream(RunOf(job, oracle))[i];
            && !e.kind.RunFinished? && e.kind.jobId == job.id
            && (e.kind.JobStarted? ==> e.atMs == oracle(job.id).startMs)
            && (e.kind.JobFinished? ==>
                  e.atMs == oracle(job.id).finishMs
                  && (e.kind.outcome == JobSucceeded <==> (job.runFn.Lua? ==> oracle(job.id).ok)))
  {
    JobStreamKinds(RunOf(job, oracle), i);
  }

  lemma LocateJobEvent(rs: seq<JobRun>, endMs: int, k: nat) returns (m: nat)
    requires k < |Stream(rs, endMs)| && !Stream(rs, endMs)[k].kind.RunFinished?
    ensures m < |rs| && |RunsUpTo(rs, m)| <= k < |RunsUpTo(rs, m)| + |JobStream(rs[m])|
    ensures Stream(rs, endMs)[k] == JobStream(rs[m])[k - |RunsUpTo(rs, m)|]
  {
    m := LocateEvent(rs, |rs|, k);
    assert RunsUpTo(rs, m + 1) == RunsUpTo(rs, m) + JobStream(rs[m]);
  }

  lemma NeededRanBefore(p: Pipeline, order: seq<nat>, jobs: seq<Job>, rs: seq<JobRun>, m: nat, name: string)
    returns (i: nat)
    requires p.Indexed() && p.graph.Valid() && p.graph.IsTopoOrder(order) && m < |rs| <= |jobs| == |order|
    requires forall k :: 0 <= k < |order| ==> order[k] < |p.graph.nodes| && jobs[k] == p.graph.nodes[order[k]]
    requires forall k :: 0 <= k < |rs| ==> rs[k].id == jobs[k].id && (k < |rs| - 1 ==> rs[k].script.ok)
    requires rs[m].id in p.byId && AncestorName(p.graph, p.byId[rs[m].id], name)
    ensures i < m && rs[i].id == name && rs[i].script.ok
  {
    NodeOf(p, order[m]);
    i := AncestorRanBefore(p.graph, order, jobs, rs, m, name);
  }

  lemma StartedJob(rs: seq<JobRun>, endMs: int, k: nat, id: string) returns (m: nat)
    requires k < |Stream(rs, endMs)| && Stream(rs, endMs)[k].kind == JobStarted(id)
    ensures m < |rs| && rs[m].id == id && k == |RunsUpTo(rs, m)|
  {
    m := LocateEvent(rs, |rs|, k);
    JobStreamKinds(rs[m], k - |RunsUpTo(rs, m)|);
  }

  /** Where the `i`-th job's closing event sits: before anything the `m`-th job emits. */
  lemma FinishEvent(rs: seq<JobRun>, i: nat, m: nat, endMs: int) returns (l: nat)
    requires i < m < |rs|
    ensures l < |RunsUpTo(rs, m)|
    ensures l < |Stream(rs, endMs)|
            && Stream(rs, endMs)[l] == Event(rs[i].script.finishMs, JobFinished(rs[i].id, OutcomeOf(rs[i].script.ok)))
  {
    hide JobStream;
    JobStreamEnd(rs[i]);
    assert RunsUpTo(rs, i + 1) == RunsUpTo(rs, i) + JobStream(rs[i]);
    RunsUpToPrefix(rs, i + 1, m);
    RunsUpToPrefix(rs, i + 1, |rs|);
    l := |RunsUpTo(rs, i + 1)| - 1;
  }

  lemma JobStreamEnd(r: JobRun)
    ensures JobStream(r) != []
    ensures JobStream(r)[|JobStream(r)| - 1] == Event(r.script.finishMs, JobFinished(r.id, OutcomeOf(r.script.ok)))
  {
  }
}
