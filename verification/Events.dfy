/** Wire events, and the history they encode: which jobs ran, which commands each
    attempted, and when. Time stamps and run-fn behaviour are inputs of the model. */
module Events {
  import opened Wrappers

  datatype JobOutcome = JobSucceeded | JobFailed

  datatype RunOutcome = Succeeded | PipelineFailure

  datatype EventKind =
    | JobStarted(jobId: string)
    | JobFinished(jobId: string, outcome: JobOutcome)
    | ShStarted(jobId: string, cmd: string)
    | ShFinished(jobId: string, exitCode: int)
    | RunFinished(runOutcome: RunOutcome)

  datatype Event = Event(atMs: int, kind: EventKind)

  datatype ShOutput = ShOutput(exit: int, stdout: string, stderr: string)

  /** A log write that fails may leave a partial file behind. */
  datatype LogWrite = Written | WriteFailed(leftover: Option<string>)

  datatype Spawn =
    | SpawnFailed
    | Spawned(finishMs: int, output: ShOutput, log: LogWrite)

  /** One `(sh …)` call: `ts` is its start time as the log prints it, `startMs` as the event carries it. */
  datatype Attempt = Attempt(ts: string, startMs: int, cmd: string, spawn: Spawn)

  /** What a run-fn does when called: its sh attempts, whatever their fate, then success or an error. */
  datatype JobScript = JobScript(startMs: int, attempts: seq<Attempt>, ok: bool, finishMs: int)

  /** One executed job. */
  datatype JobRun = JobRun(id: string, script: JobScript)

  function ShEvents(id: string, a: Attempt): seq<Event> {
    [Event(a.startMs, ShStarted(id, a.cmd))] +
    if a.spawn.Spawned? then [Event(a.spawn.finishMs, ShFinished(id, a.spawn.output.exit))] else []
  }

  function ShUpTo(id: string, attempts: seq<Attempt>, n: nat): seq<Event>
    requires n <= |attempts|
  {
    if n == 0 then [] else ShUpTo(id, attempts, n - 1) + ShEvents(id, attempts[n - 1])
  }

  function OutcomeOf(ok: bool): JobOutcome { if ok then JobSucceeded else JobFailed }

  /** Everything a job emits before its closing bracket. */
  function OpenJob(r: JobRun): seq<Event> {
    [Event(r.script.startMs, JobStarted(r.id))] + ShUpTo(r.id, r.script.attempts, |r.script.attempts|)
  }

  function JobStream(r: JobRun): seq<Event> {
    OpenJob(r) + [Event(r.script.finishMs, JobFinished(r.id, OutcomeOf(r.script.ok)))]
  }

  function RunsUpTo(rs: seq<JobRun>, n: nat): seq<Event>
    requires n <= |rs|
  {
    if n == 0 then [] else RunsUpTo(rs, n - 1) + JobStream(rs[n - 1])
  }

  ghost predicate AllOk(rs: seq<JobRun>) { forall i :: 0 <= i < |rs| ==> rs[i].script.ok }

  ghost function RunOutcomeOf(rs: seq<JobRun>): RunOutcome {
    if AllOk(rs) then Succeeded else PipelineFailure
  }

  /** The event stream of a run that executed `rs` and reached its end. */
  ghost function Stream(rs: seq<JobRun>, endMs: int): seq<Event> {
    RunsUpTo(rs, |rs|) + [Event(endMs, RunFinished(RunOutcomeOf(rs)))]
  }

  ghost predicate DistinctRuns(rs: seq<JobRun>) {
    forall i, j :: 0 <= i < j < |rs| ==> rs[i].id != rs[j].id
  }

  lemma {:induction false} RunsUpToPrefix(rs: seq<JobRun>, m: nat, n: nat)
    requires m <= n <= |rs|
    ensures RunsUpTo(rs, m) <= RunsUpTo(rs, n)
    decreases n
  {
    if m < n { RunsUpToPrefix(rs, m, n - 1); }
  }

  lemma {:induction false} RunsUpToSame(rs: seq<JobRun>, rs': seq<JobRun>, n: nat)
    requires n <= |rs| && n <= |rs'| && rs[..n] == rs'[..n]
    ensures RunsUpTo(rs, n) == RunsUpTo(rs', n)
  {
    if n > 0 {
      assert rs[..n - 1] == rs[..n][..n - 1] == rs'[..n - 1];
      assert rs[n - 1] == rs[..n][n - 1] == rs'[n - 1];
      RunsUpToSame(rs, rs', n - 1);
    }
  }

  // ------------------------------------------- cutting a stream anywhere

  /** The jobs that have emitted their closing bracket within the first `k` events. */
  ghost function Finished(rs: seq<JobRun>, k: nat): (m: nat)
    ensures m <= |rs| && |RunsUpTo(rs, m)| <= k
    ensures m < |rs| ==> k < |RunsUpTo(rs, m + 1)|
  {
    FinishedAmong(rs, k, |rs|)
  }

  ghost function FinishedAmong(rs: seq<JobRun>, k: nat, n: nat): (m: nat)
    requires n <= |rs|
    ensures m <= n && |RunsUpTo(rs, m)| <= k
    ensures m < n ==> k < |RunsUpTo(rs, m + 1)|
  {
    if |RunsUpTo(rs, n)| <= k then n else FinishedAmong(rs, k, n - 1)
  }

  /** A cut stream is its finished jobs followed by the start of an unfinished one,
      unless the cut comes after the end. */
  lemma CutStream(rs: seq<JobRun>, endMs: int, k: nat)
    requires k <= |Stream(rs, endMs)|
    ensures var m := Finished(rs, k);
            var d := k - |RunsUpTo(rs, m)|;
            && (m < |rs| ==>
                  && k < |Stream(rs, endMs)| && d <= |OpenJob(rs[m])|
                  && Stream(rs, endMs)[..k] == RunsUpTo(rs, m) + OpenJob(rs[m])[..d])
            && (m == |rs| ==>
                  && d <= 1 && (d == 1 <==> k == |Stream(rs, endMs)|)
                  && Stream(rs, endMs)[..k] == if d == 0 then RunsUpTo(rs, m) else Stream(rs, endMs))
  {
    var m := Finished(rs, k);
    var d := k - |RunsUpTo(rs, m)|;
    if m < |rs| {
      RunsUpToPrefix(rs, m + 1, |rs|);
      assert RunsUpTo(rs, m + 1) == RunsUpTo(rs, m) + JobStream(rs[m]);
      assert Stream(rs, endMs)[..k] == RunsUpTo(rs, m + 1)[..k];
    }
  }

  /** An event of a whole stream belongs to one job's stretch of it, or is the last. */
  lemma {:induction false} LocateEvent(rs: seq<JobRun>, n: nat, k: nat) returns (m: nat)
    requires n <= |rs| && k < |RunsUpTo(rs, n)|
    ensures m < n && |RunsUpTo(rs, m)| <= k < |RunsUpTo(rs, m + 1)|
    ensures RunsUpTo(rs, n)[k] == JobStream(rs[m])[k - |RunsUpTo(rs, m)|]
  {
    hide JobStream;
    var before := RunsUpTo(rs, n - 1);
    assert RunsUpTo(rs, n) == before + JobStream(rs[n - 1]);
    if k < |before| {
      m := LocateEvent(rs, n - 1, k);
    } else {
      m := n - 1;
    }
  }

  /** Inside a job's brackets there are only that job's sh events. */
  lemma {:induction false} ShUpToKinds(id: string, attempts: seq<Attempt>, n: nat, i: nat)
    requires n <= |attempts| && i < |ShUpTo(id, attempts, n)|
    ensures var kind := ShUpTo(id, attempts, n)[i].kind;
            (kind.ShStarted? || kind.ShFinished?) && kind.jobId == id
  {
    if i < |ShUpTo(id, attempts, n - 1)| { ShUpToKinds(id, attempts, n - 1, i); }
  }

  lemma JobStreamKinds(r: JobRun, i: nat)
    requires i < |JobStream(r)|
    ensures JobStream(r)[i].kind.JobStarted? <==> i == 0
    ensures JobStream(r)[i].kind.JobFinished? <==> i == |JobStream(r)| - 1
    ensures !JobStream(r)[i].kind.RunFinished? && JobStream(r)[i].kind.jobId == r.id
  {
    if 0 < i < |JobStream(r)| - 1 {
      ShUpToKinds(r.id, r.script.attempts, |r.script.attempts|, i - 1);
    }
  }
}
