/** The run detail page: grouping commands by job, fetching their logs as one flat list
    and putting the two back together, and why each command gets its own log. */
module RunDetail {
  import opened Wrappers
  import opened Orders
  import opened Seqs
  import opened Events
  import opened Executor
  import opened Schema
  import opened Ingest
  import CriLog

  datatype JobRecord = JobRecord(jobId: string, row: JobRow)

  datatype ShEvent = ShEvent(jobId: string, startedAtMs: int, row: ShRow)

  datatype DetailShEvent = DetailShEvent(event: ShEvent, logContent: string)

  datatype DetailJob = DetailJob(job: JobRecord, shEvents: seq<DetailShEvent>)

  /** `ORDER BY job_id, started_at_ms`. */
  predicate ShBefore(a: ShEvent, b: ShEvent) {
    StringLess(a.jobId, b.jobId) || (a.jobId == b.jobId && a.startedAtMs < b.startedAtMs)
  }

  /** What the sh query of `load_run_detail` returns: the run's rows, in that order. */
  ghost predicate IsShQuery(t: Tables, runId: string, evs: seq<ShEvent>) {
    && Sorted(evs, ShBefore)
    && forall e :: e in evs <==>
         (runId, e.jobId, e.startedAtMs) in t.sh && t.sh[(runId, e.jobId, e.startedAtMs)] == e.row
  }

  predicate IsSafePathSegment(s: string) {
    s != "" && '/' !in s && '\\' !in s && '\0' !in s && s != "." && s != ".."
  }

  /** A missing file reads as empty; an unsafe job id is never looked up. */
  function ReadLog(files: map<(string, nat), string>, id: string, n: nat): string {
    if IsSafePathSegment(id) && (id, n) in files then files[(id, n)] else ""
  }

  /** The events of one job, in query order. */
  function Group(evs: seq<ShEvent>, id: string): (r: seq<ShEvent>)
    ensures forall e :: e in r <==> e in evs && e.jobId == id
  {
    if evs == [] then []
    else Group(evs[..|evs| - 1], id) + if evs[|evs| - 1].jobId == id then [evs[|evs| - 1]] else []
  }

  /** `group` is the events at these places, in order, and they are all of this job's. */
  ghost predicate IsGroupAt(evs: seq<ShEvent>, id: string, group: seq<ShEvent>, at: seq<nat>) {
    && |at| == |group| && (forall k :: 0 <= k < |at| ==> at[k] < |evs| && group[k] == evs[at[k]])
    && (forall j, k :: 0 <= j < k < |at| ==> at[j] < at[k])
    && forall i :: 0 <= i < |evs| ==> (evs[i].jobId == id <==> i in at)
  }

  /** Grouping keeps a job's events in query order, and no others. */
  lemma {:induction false} GroupMeans(evs: seq<ShEvent>, id: string) returns (at: seq<nat>)
    ensures IsGroupAt(evs, id, Group(evs, id), at)
  {
    hide IsGroupAt;
    if evs == [] {
      NoGroup(id);
      return [];
    }
    var init, last := evs[..|evs| - 1], evs[|evs| - 1];
    assert evs == init + [last];
    at := GroupMeans(init, id);
    if last.jobId == id {
      GroupGrows(init, id, Group(init, id), at, last);
      at := at + [|init|];
    } else {
      GroupStays(init, id, Group(init, id), at, last);
      assert Group(evs, id) == Group(init, id);
    }
  }

  lemma NoGroup(id: string)
    ensures IsGroupAt([], id, [], [])
  {
  }

  lemma GroupGrows(evs: seq<ShEvent>, id: string, group: seq<ShEvent>, at: seq<nat>, e: ShEvent)
    requires IsGroupAt(evs, id, group, at) && e.jobId == id
    ensures IsGroupAt(evs + [e], id, group + [e], at + [|evs|])
  {
    forall i | 0 <= i < |evs| ensures i in at + [|evs|] <==> i in at {}
  }

  lemma GroupStays(evs: seq<ShEvent>, id: string, group: seq<ShEvent>, at: seq<nat>, e: ShEvent)
    requires IsGroupAt(evs, id, group, at) && e.jobId != id
    ensures IsGroupAt(evs + [e], id, group, at)
  {
  }

  /** What the page shows for one job: its `k`-th event beside the job's log number `k + 1`. */
  ghost predicate ShowsLogs(d: DetailJob, evs: seq<ShEvent>, files: map<(string, nat), string>) {
    var group := Group(evs, d.job.jobId);
    && |d.shEvents| == |group|
    && forall k :: 0 <= k < |group| ==> d.shEvents[k] == DetailShEvent(group[k], ReadLog(files, d.job.jobId, k + 1))
  }

  /** Logs of one job's first `n` commands. */
  function JobLogs(files: map<(string, nat), string>, id: string, n: nat): (r: seq<string>)
    ensures |r| == n
  {
    if n == 0 then [] else JobLogs(files, id, n - 1) + [ReadLog(files, id, n)]
  }

  lemma {:induction false} JobLogsAt(files: map<(string, nat), string>, id: string, n: nat, k: nat)
    requires k < n
    ensures JobLogs(files, id, n)[k] == ReadLog(files, id, k + 1)
  {
    if k < n - 1 { JobLogsAt(files, id, n - 1, k); }
  }

  /** The flat list over the first `n` jobs. */
  function FlatLogs(jobs: seq<JobRecord>, evs: seq<ShEvent>, files: map<(string, nat), string>, n: nat): seq<string>
    requires n <= |jobs|
  {
    if n == 0 then []
    else FlatLogs(jobs, evs, files, n - 1) + JobLogs(files, jobs[n - 1].jobId, |Group(evs, jobs[n - 1].jobId)|)
  }

  lemma FlatLogsStep(jobs: seq<JobRecord>, evs: seq<ShEvent>, files: map<(string, nat), string>, n: nat)
    requires n < |jobs|
    ensures FlatLogs(jobs, evs, files, n) <= FlatLogs(jobs, evs, files, n + 1)
  {
  }

  lemma {:induction false} FlatLogsGrow(jobs: seq<JobRecord>, evs: seq<ShEvent>, files: map<(string, nat), string>,
                                        m: nat, n: nat)
    requires m <= n <= |jobs|
    ensures FlatLogs(jobs, evs, files, m) <= FlatLogs(jobs, evs, files, n)
    decreases n - m
  {
    hide FlatLogs;
    if m < n {
      FlatLogsStep(jobs, evs, files, m);
      FlatLogsGrow(jobs, evs, files, m + 1, n);
      PrefixTransitive(FlatLogs(jobs, evs, files, m), FlatLogs(jobs, evs, files, m + 1), FlatLogs(jobs, evs, files, n));
    }
  }

  function EventsFor(byJob: map<string, seq<ShEvent>>, id: string): seq<ShEvent> {
    if id in byJob then byJob[id] else []
  }

  ghost predicate IsGrouping(byJob: map<string, seq<ShEvent>>, evs: seq<ShEvent>) {
    forall id :: EventsFor(byJob, id) == Group(evs, id)
  }

  method GroupEvents(evs: seq<ShEvent>) returns (byJob: map<string, seq<ShEvent>>)
    ensures IsGrouping(byJob, evs)
  {
    byJob := map[];
    for i := 0 to |evs|
      invariant IsGrouping(byJob, evs[..i])
    {
      var ev := evs[i];
      assert evs[..i + 1][..i] == evs[..i];
      byJob := byJob[ev.jobId := EventsFor(byJob, ev.jobId) + [ev]];
    }
    assert evs[..|evs|] == evs;
  }

  /** Both walks of the page: fetch all logs into one list, then deal them out again. */
  method BuildDetail(jobs: seq<JobRecord>, evs: seq<ShEvent>, files: map<(string, nat), string>)
    returns (detail: seq<DetailJob>)
    ensures |detail| == |jobs|
    ensures forall i :: 0 <= i < |jobs| ==> detail[i].job == jobs[i] && ShowsLogs(detail[i], evs, files)
  {
    var byJob := GroupEvents(evs);
    var logs := FetchLogs(jobs, byJob, evs, files);
    detail := DealLogs(jobs, byJob, evs, files, logs);
  }

  method DealLogs(jobs: seq<JobRecord>, byJob: map<string, seq<ShEvent>>, ghost evs: seq<ShEvent>,
                  ghost files: map<(string, nat), string>, logs: seq<string>)
    returns (detail: seq<DetailJob>)
    requires IsGrouping(byJob, evs)
    requires logs == FlatLogs(jobs, evs, files, |jobs|)
    ensures |detail| == |jobs|
    ensures forall i :: 0 <= i < |jobs| ==> detail[i].job == jobs[i] && ShowsLogs(detail[i], evs, files)
  {
    hide ShowsLogs, FlatLogs, IsGrouping, JobLogs, Group, EventsFor;
    NoLogsYet(jobs, evs, files);
    var logIdx := 0;
    detail := [];
    for i := 0 to |jobs|
      invariant |detail| == i && logIdx == |FlatLogs(jobs, evs, files, i)|
      invariant forall k :: 0 <= k < i ==> detail[k].job == jobs[k] && ShowsLogs(detail[k], evs, files)
    {
      var group := EventsFor(byJob, jobs[i].jobId);
      GroupFor(byJob, evs, jobs[i].jobId);
      FlatLogsSlice(jobs, evs, files, i);
      var shEvents, next := TakeLogs(group, logs, logIdx);
      DealtRight(jobs[i], evs, files, shEvents, logs[logIdx..next]);
      var d := DetailJob(jobs[i], shEvents);
      logIdx := next;
      detail := detail + [d];
    }
  }

  lemma NoLogsYet(jobs: seq<JobRecord>, evs: seq<ShEvent>, files: map<(string, nat), string>)
    ensures FlatLogs(jobs, evs, files, 0) == []
  {
  }

  lemma GroupFor(byJob: map<string, seq<ShEvent>>, evs: seq<ShEvent>, id: string)
    requires IsGrouping(byJob, evs)
    ensures EventsFor(byJob, id) == Group(evs, id)
  {
  }

  lemma DealtRight(job: JobRecord, evs: seq<ShEvent>, files: map<(string, nat), string>, shEvents: seq<DetailShEvent>,
                   logs: seq<string>)
    requires var group := Group(evs, job.jobId);
             |shEvents| == |group| && logs == JobLogs(files, job.jobId, |group|)
             && forall k :: 0 <= k < |group| ==> shEvents[k] == DetailShEvent(group[k], logs[k])
    ensures ShowsLogs(DetailJob(job, shEvents), evs, files)
  {
    forall k | 0 <= k < |shEvents| ensures logs[k] == ReadLog(files, job.jobId, k + 1) {
      JobLogsAt(files, job.jobId, |logs|, k);
    }
  }

  /** Pair one job's events with the next logs of the list. */
  method TakeLogs(group: seq<ShEvent>, logs: seq<string>, start: nat)
    returns (shEvents: seq<DetailShEvent>, logIdx: nat)
    requires start + |group| <= |logs|
    ensures logIdx == start + |group| && |shEvents| == |group|
    ensures forall k :: 0 <= k < |group| ==> shEvents[k] == DetailShEvent(group[k], logs[start..start + |group|][k])
  {
    shEvents, logIdx := [], start;
    for k := 0 to |group|
      invariant logIdx == start + k && |shEvents| == k
      invariant forall j :: 0 <= j < k ==> shEvents[j] == DetailShEvent(group[j], logs[start + j])
    {
      shEvents := shEvents + [DetailShEvent(group[k], logs[logIdx])];
      logIdx := logIdx + 1;
    }
  }

  lemma FlatLogsSlice(jobs: seq<JobRecord>, evs: seq<ShEvent>, files: map<(string, nat), string>, i: nat)
    requires i < |jobs|
    ensures var n := |Group(evs, jobs[i].jobId)|;
            var start := |FlatLogs(jobs, evs, files, i)|;
            && |FlatLogs(jobs, evs, files, i + 1)| == start + n <= |FlatLogs(jobs, evs, files, |jobs|)|
            && FlatLogs(jobs, evs, files, |jobs|)[start..start + n] == JobLogs(files, jobs[i].jobId, n)
  {
    hide JobLogs, Group;
    FlatLogsGrow(jobs, evs, files, i + 1, |jobs|);
    SliceOfSum(FlatLogs(jobs, evs, files, i), JobLogs(files, jobs[i].jobId, |Group(evs, jobs[i].jobId)|),
               FlatLogs(jobs, evs, files, |jobs|));
  }

  method FetchLogs(jobs: seq<JobRecord>, byJob: map<string, seq<ShEvent>>, ghost evs: seq<ShEvent>,
                   files: map<(string, nat), string>)
    returns (logs: seq<string>)
    requires IsGrouping(byJob, evs)
    ensures logs == FlatLogs(jobs, evs, files, |jobs|)
  {
    logs := [];
    for i := 0 to |jobs|
      invariant logs == FlatLogs(jobs, evs, files, i)
    {
      var id := jobs[i].jobId;
      var group := EventsFor(byJob, id);
      var jobLogs := FetchJobLogs(files, id, |group|);
      logs := logs + jobLogs;
    }
  }

  method FetchJobLogs(files: map<(string, nat), string>, id: string, n: nat) returns (logs: seq<string>)
    ensures logs == JobLogs(files, id, n)
    ensures forall k :: 0 <= k < n ==>
              logs[k] ==
              if id != "" && id != "." && id != ".." && '/' !in id && '\\' !in id && '\0' !in id && (id, k + 1) in files
              then files[(id, k + 1)] else ""
  {
    logs := [];
    var safe := IsSafePathSegment(id);
    for k := 0 to n
      invariant logs == JobLogs(files, id, k)
      invariant forall j :: 0 <= j < k ==> logs[j] == ReadLog(files, id, j + 1)
    {
      if safe {
        logs := logs + [if (id, k + 1) in files then files[(id, k + 1)] else ""];
      } else {
        logs := logs + [""];
      }
    }
  }

  // ------------------------------------------------ commands, rows and logs

  /** Attempts that spawned, among the first `n`: the ones that get a row. */
  function SpawnedUpTo(attempts: seq<Attempt>, n: nat): (r: seq<Attempt>)
    requires n <= |attempts|
    ensures forall a :: a in r ==> a.spawn.Spawned?
  {
    if n == 0 then []
    else SpawnedUpTo(attempts, n - 1) + if attempts[n - 1].spawn.Spawned? then [attempts[n - 1]] else []
  }

  lemma {:induction false} SpawnedMembers(attempts: seq<Attempt>, n: nat, a: Attempt)
    requires n <= |attempts|
    ensures a in SpawnedUpTo(attempts, n) <==> exists i :: 0 <= i < n && attempts[i] == a && a.spawn.Spawned?
  {
    if n > 0 { SpawnedMembers(attempts, n - 1, a); }
  }

  /** One more attempt adds at most itself, at the end. */
  lemma SpawnedGrow(attempts: seq<Attempt>, n: nat)
    requires 0 < n <= |attempts|
    ensures SpawnedUpTo(attempts, n - 1) <= SpawnedUpTo(attempts, n)
    ensures |SpawnedUpTo(attempts, n - 1)| < |SpawnedUpTo(attempts, n)| ==>
              SpawnedUpTo(attempts, n) == SpawnedUpTo(attempts, n - 1) + [attempts[n - 1]]
  {
  }

  /** Start stamps strictly increase from one command that spawned to the next. */
  ghost predicate IncreasingStarts(attempts: seq<Attempt>, n: nat)
    requires n <= |attempts|
  {
    forall i, j :: 0 <= i < j < n && attempts[i].spawn.Spawned? && attempts[j].spawn.Spawned? ==>
      attempts[i].startMs < attempts[j].startMs
  }

  function EventOf(id: string, a: Attempt): ShEvent
    requires a.spawn.Spawned?
  {
    ShEvent(id, a.startMs, ShRowOf(a))
  }

  function EventsOf(id: string, spawned: seq<Attempt>): (r: seq<ShEvent>)
    requires forall a :: a in spawned ==> a.spawn.Spawned?
    ensures |r| == |spawned| && forall k :: 0 <= k < |r| ==> r[k] == EventOf(id, spawned[k])
  {
    if spawned == [] then [] else EventsOf(id, spawned[..|spawned| - 1]) + [EventOf(id, spawned[|spawned| - 1])]
  }

  lemma {:induction false} SpawnedIncrease(attempts: seq<Attempt>, n: nat)
    requires n <= |attempts| && IncreasingStarts(attempts, n)
    ensures forall i, j :: 0 <= i < j < |SpawnedUpTo(attempts, n)| ==>
              SpawnedUpTo(attempts, n)[i].startMs < SpawnedUpTo(attempts, n)[j].startMs
  {
    if n > 0 {
      SpawnedIncrease(attempts, n - 1);
      var before := SpawnedUpTo(attempts, n - 1);
      forall i | 0 <= i < |before| &&
        attempts[n - 1].spawn.Spawned? ensures before[i].startMs < attempts[n - 1].startMs {
        SpawnedMembers(attempts, n - 1, before[i]);
      }
    }
  }

  lemma {:induction false} GroupSorted(evs: seq<ShEvent>, id: string)
    requires Sorted(evs, ShBefore)
    ensures Sorted(Group(evs, id), ShBefore)
  {
    if evs != [] {
      var init, last := evs[..|evs| - 1], evs[|evs| - 1];
      assert Sorted(init, ShBefore);
      GroupSorted(init, id);
      forall e | e in Group(init, id) ensures ShBefore(e, last) { assert e in init; }
    }
  }

  /** Rows one job's attempts leave in the sh table, given it held none of that job before. */
  lemma {:induction false} JobShRows(sh: map<ShKey, ShRow>, runId: string, id: string, attempts: seq<Attempt>, n: nat,
                                     e: ShEvent)
    requires n <= |attempts| && IncreasingStarts(attempts, n) && e.jobId == id
    requires (runId, id, e.startedAtMs) !in sh
    ensures var sh' := WithShs(sh, runId, id, attempts, n);
            ((runId, id, e.startedAtMs) in sh' && sh'[(runId, id, e.startedAtMs)] == e.row)
            <==> exists i :: 0 <= i < n && attempts[i].spawn.Spawned? && e == EventOf(id, attempts[i])
  {
    if n > 0 { JobShRows(sh, runId, id, attempts, n - 1, e); }
  }

  /** The `m`-th job's rows in the whole table. */
  lemma {:induction false} RunShRows(sh: map<ShKey, ShRow>, runId: string, rs: seq<JobRun>, n: nat, m: nat, e: ShEvent)
    requires m < |rs| && n <= |rs| && DistinctRuns(rs) && e.jobId == rs[m].id
    requires IncreasingStarts(rs[m].script.attempts, |rs[m].script.attempts|)
    requires (runId, e.jobId, e.startedAtMs) !in sh
    ensures var sh' := WithRunShs(sh, runId, rs, n);
            ((runId, e.jobId, e.startedAtMs) in sh' && sh'[(runId, e.jobId, e.startedAtMs)] == e.row)
            <==> m < n && e in EventsOf(e.jobId, SpawnedUpTo(rs[m].script.attempts, |rs[m].script.attempts|))
  {
    if n > 0 {
      hide EventsOf, WithShs, IncreasingStarts;
      var before, r := WithRunShs(sh, runId, rs, n - 1), rs[n - 1];
      if m == n - 1 {
        if (runId, e.jobId, e.startedAtMs) in before {
          WithRunShsJobs(sh, runId, rs, n - 1, (runId, e.jobId, e.startedAtMs));
        }
        JobEvents(before, runId, r.id, r.script.attempts, e);
      } else {
        RunShRows(sh, runId, rs, n - 1, m, e);
        OtherShRows(before, runId, r.id, r.script.attempts, |r.script.attempts|, (runId, e.jobId, e.startedAtMs));
      }
    }
  }

  /** One job's rows are its spawned attempts' events. */
  lemma JobEvents(sh: map<ShKey, ShRow>, runId: string, id: string, attempts: seq<Attempt>, e: ShEvent)
    requires IncreasingStarts(attempts, |attempts|) && e.jobId == id && (runId, id, e.startedAtMs) !in sh
    ensures var sh' := WithShs(sh, runId, id, attempts, |attempts|);
            ((runId, id, e.startedAtMs) in sh' && sh'[(runId, id, e.startedAtMs)] == e.row)
            <==> e in EventsOf(id, SpawnedUpTo(attempts, |attempts|))
  {
    hide EventsOf, WithShs, IncreasingStarts;
    JobShRows(sh, runId, id, attempts, |attempts|, e);
    SpawnedEvents(id, attempts, |attempts|, e);
  }

  lemma SpawnedEvents(id: string, attempts: seq<Attempt>, n: nat, e: ShEvent)
    requires n <= |attempts|
    ensures e in EventsOf(id, SpawnedUpTo(attempts, n)) <==>
              exists i :: 0 <= i < n && attempts[i].spawn.Spawned? && e == EventOf(id, attempts[i])
  {
    var spawned := SpawnedUpTo(attempts, n);
    if i :| 0 <= i < n && attempts[i].spawn.Spawned? && e == EventOf(id, attempts[i]) {
      SpawnedMembers(attempts, n, attempts[i]);
      var k :| 0 <= k < |spawned| && spawned[k] == attempts[i];
      assert EventsOf(id, spawned)[k] == e;
    }
    if e in EventsOf(id, spawned) {
      var k :| 0 <= k < |spawned| && EventsOf(id, spawned)[k] == e;
      SpawnedMembers(attempts, n, spawned[k]);
    }
  }

  /** Ordering and grouping give back exactly the job's spawned commands in launch order. */
  lemma GroupIsLaunchOrder(t: Tables, runId: string, rs: seq<JobRun>, n: nat, m: nat, evs: seq<ShEvent>)
    requires m < n <= |rs| && DistinctRuns(rs) && Fresh(t, runId)
    requires IncreasingStarts(rs[m].script.attempts, |rs[m].script.attempts|)
    requires IsShQuery(Recorded(t, runId, rs, n), runId, evs)
    ensures Group(evs, rs[m].id) == EventsOf(rs[m].id, SpawnedUpTo(rs[m].script.attempts, |rs[m].script.attempts|))
  {
    var id, spawned := rs[m].id, SpawnedUpTo(rs[m].script.attempts, |rs[m].script.attempts|);
    StringLessStrict();
    GroupSorted(evs, id);
    SpawnedIncrease(rs[m].script.attempts, |rs[m].script.attempts|);
    forall e ensures e in Group(evs, id) <==> e in EventsOf(id, spawned) {
      if e.jobId == id { RunShRows(t.sh, runId, rs, n, m, e); }
    }
    SortedUnique(Group(evs, id), EventsOf(id, spawned), ShBefore);
  }

  // ----------------------------------------------------------- log numbers

  predicate Logged(a: Attempt) { a.spawn.Spawned? && a.spawn.log.Written? }

  /** Commands whose log was written, among the first `n` attempts. */
  function WrittenUpTo(attempts: seq<Attempt>, n: nat): nat
    requires n <= |attempts|
  {
    if n == 0 then 0
    else WrittenUpTo(attempts, n - 1) + if Logged(attempts[n - 1]) then 1 else 0
  }

  lemma {:induction false} RecordedCount(l: Logs, id: string, attempts: seq<Attempt>, n: nat)
    requires n <= |attempts|
    ensures |LogsUpTo(l, id, attempts, n).Recorded(id)| == |l.Recorded(id)| + WrittenUpTo(attempts, n)
  {
    hide AfterSh;
    if n > 0 {
      RecordedCount(l, id, attempts, n - 1);
      RecordedStep(LogsUpTo(l, id, attempts, n - 1), id, attempts[n - 1]);
    }
  }

  lemma RecordedStep(l: Logs, id: string, a: Attempt)
    ensures |AfterSh(l, id, a).Recorded(id)| == |l.Recorded(id)| + if Logged(a) then 1 else 0
  {
  }

  lemma {:induction false} WrittenVersusSpawned(attempts: seq<Attempt>, n: nat)
    requires n <= |attempts|
    ensures WrittenUpTo(attempts, n) <= |SpawnedUpTo(attempts, n)|
    ensures WrittenUpTo(attempts, n) == |SpawnedUpTo(attempts, n)| <==>
              forall i :: 0 <= i < n && attempts[i].spawn.Spawned? ==> attempts[i].spawn.log.Written?
  {
    if n > 0 { WrittenVersusSpawned(attempts, n - 1); }
  }

  /** As many logs are numbered as commands have rows before command `n`, so that its log gets its
      row's position, exactly when no earlier command of the job lost its log. Failed spawns do
      not matter. */
  lemma NumberIsPosition(l: Logs, id: string, attempts: seq<Attempt>, n: nat)
    requires n < |attempts| && attempts[n].spawn.Spawned? && l.Recorded(id) == []
    ensures |LogsUpTo(l, id, attempts, n).Recorded(id)| == |SpawnedUpTo(attempts, n)| <==>
              forall i :: 0 <= i < n && attempts[i].spawn.Spawned? ==> attempts[i].spawn.log.Written?
  {
    RecordedCount(l, id, attempts, n);
    WrittenVersusSpawned(attempts, n);
  }

  function LogOf(a: Attempt): string
    requires a.spawn.Spawned?
  {
    CriLog.Contents(a.spawn.output.stdout, a.spawn.output.stderr, a.ts)
  }

  /** Up to and including the `k`-th spawned command, every log was written. */
  ghost predicate LoggedThrough(spawned: seq<Attempt>, k: nat) {
    k < |spawned| && forall j :: 0 <= j <= k ==> spawned[j].spawn.Spawned? && spawned[j].spawn.log.Written?
  }

  lemma WrittenSoFar(attempts: seq<Attempt>, n: nat)
    requires n <= |attempts| && forall a :: a in SpawnedUpTo(attempts, n) ==> a.spawn.log.Written?
    ensures WrittenUpTo(attempts, n) == |SpawnedUpTo(attempts, n)|
  {
    forall i | 0 <= i < n && attempts[i].spawn.Spawned? ensures attempts[i].spawn.log.Written? {
      SpawnedMembers(attempts, n, attempts[i]);
    }
    WrittenVersusSpawned(attempts, n);
  }

  lemma NextLog(l: Logs, id: string, attempts: seq<Attempt>, n: nat)
    requires n < |attempts| && attempts[n].spawn.Spawned? && attempts[n].spawn.log.Written? && l.Recorded(id) == []
    requires forall a :: a in SpawnedUpTo(attempts, n) ==> a.spawn.log.Written?
    ensures HoldsLog(LogsUpTo(l, id, attempts, n + 1), id, |SpawnedUpTo(attempts, n)|, attempts[n])
  {
    WrittenSoFar(attempts, n);
    RecordedCount(l, id, attempts, n);
    GetsLog(LogsUpTo(l, id, attempts, n), id, attempts[n]);
  }

  /** Then its log is file number `k + 1`, and no later command overwrites it. */
  lemma {:induction false} LogStays(l: Logs, id: string, attempts: seq<Attempt>, n: nat, k: nat)
    requires n <= |attempts| && l.Recorded(id) == [] && LoggedThrough(SpawnedUpTo(attempts, n), k)
    ensures HoldsLog(LogsUpTo(l, id, attempts, n), id, k, SpawnedUpTo(attempts, n)[k])
  {
    var before, a := SpawnedUpTo(attempts, n - 1), attempts[n - 1];
    SpawnedGrow(attempts, n);
    if k < |before| {
      assert LoggedThrough(before, k);
      LogStays(l, id, attempts, n - 1, k);
      KeepsLog(LogsUpTo(l, id, attempts, n - 1), id, k, before[k], a);
    } else {
      assert SpawnedUpTo(attempts, n)[k] == a;
      forall b | b in before ensures b.spawn.log.Written? {
        var j :| 0 <= j < |before| && before[j] == b;
        assert SpawnedUpTo(attempts, n)[j] == b;
      }
      NextLog(l, id, attempts, n - 1);
    }
  }

  /** File `k + 1` of the job holds the log of `a`, and its number is used up. */
  ghost predicate HoldsLog(l: Logs, id: string, k: nat, a: Attempt)
    requires a.spawn.Spawned?
  {
    |l.Recorded(id)| > k && (id, k + 1) in l.files && l.files[(id, k + 1)] == LogOf(a)
  }

  lemma KeepsLog(l: Logs, id: string, k: nat, a: Attempt, next: Attempt)
    requires a.spawn.Spawned? && HoldsLog(l, id, k, a)
    ensures HoldsLog(AfterSh(l, id, next), id, k, a)
  {
  }

  lemma GetsLog(l: Logs, id: string, a: Attempt)
    requires a.spawn.Spawned? && a.spawn.log.Written?
    ensures HoldsLog(AfterSh(l, id, a), id, |l.Recorded(id)|, a)
  {
  }

  /** One job's commands leave every other job's logs alone. */
  lemma {:induction false} OtherLogs(l: Logs, other: string, attempts: seq<Attempt>, n: nat, id: string)
    requires n <= |attempts| && id != other
    ensures LogsUpTo(l, other, attempts, n).Recorded(id) == l.Recorded(id)
    ensures forall k: nat :: ((id, k) in LogsUpTo(l, other, attempts, n).files <==> (id, k) in l.files)
                        && ((id, k) in l.files ==> LogsUpTo(l, other, attempts, n).files[(id, k)] == l.files[(id, k)])
  {
    if n > 0 { OtherLogs(l, other, attempts, n - 1, id); }
  }

  lemma {:induction false} NothingRecordedYet(rs: seq<JobRun>, n: nat, id: string)
    requires n <= |rs| && forall i :: 0 <= i < n ==> rs[i].id != id
    ensures RunLogs(NO_LOGS, rs, n).Recorded(id) == []
  {
    if n > 0 {
      NothingRecordedYet(rs, n - 1, id);
      OtherLogs(RunLogs(NO_LOGS, rs, n - 1), rs[n - 1].id, rs[n - 1].script.attempts, |rs[n - 1].script.attempts|, id);
    }
  }

  lemma {:induction false} RunLogFile(rs: seq<JobRun>, n: nat, m: nat, k: nat)
    requires m < n <= |rs| && DistinctRuns(rs)
    requires LoggedThrough(SpawnedUpTo(rs[m].script.attempts, |rs[m].script.attempts|), k)
    ensures var files := RunLogs(NO_LOGS, rs, n).files;
            (rs[m].id, k + 1) in files
            && files[(rs[m].id, k + 1)] == LogOf(SpawnedUpTo(rs[m].script.attempts, |rs[m].script.attempts|)[k])
  {
    var l, r := RunLogs(NO_LOGS, rs, n - 1), rs[n - 1];
    if m == n - 1 {
      NothingRecordedYet(rs, n - 1, r.id);
      LogStays(l, r.id, r.script.attempts, |r.script.attempts|, k);
    } else {
      RunLogFile(rs, n - 1, m, k);
      OtherLogs(l, r.id, r.script.attempts, |r.script.attempts|, rs[m].id);
    }
  }

  /** The log files once the first `n` jobs are done and `cut` is what the next one, `id`, has attempted so far. */
  function FilesAfter(rs: seq<JobRun>, n: nat, id: string, cut: seq<Attempt>): map<(string, nat), string>
    requires n <= |rs|
  {
    LogsUpTo(RunLogs(NO_LOGS, rs, n), id, cut, |cut|).files
  }

  /** The log the page shows beside a command's row is the file written for that command: from the
      executor's log files, through ingest, ordering, grouping and both walks, for every finished job
      of a run, whatever an unfinished one has left behind. */
  lemma ShownLogIsOwnLog(t: Tables, runId: string, rs: seq<JobRun>, n: nat, id: string, cut: seq<Attempt>, m: nat,
                         k: nat, evs: seq<ShEvent>, d: DetailJob)
    requires m < n <= |rs| && DistinctRuns(rs) && Fresh(t, runId) && id != rs[m].id
    requires IncreasingStarts(rs[m].script.attempts, |rs[m].script.attempts|)
    requires LoggedThrough(SpawnedUpTo(rs[m].script.attempts, |rs[m].script.attempts|), k)
    requires IsShQuery(Recorded(t, runId, rs, n), runId, evs)
    requires d.job.jobId == rs[m].id && ShowsLogs(d, evs, FilesAfter(rs, n, id, cut))
    ensures k < |d.shEvents|
    ensures var a := SpawnedUpTo(rs[m].script.attempts, |rs[m].script.attempts|)[k];
            d.shEvents[k] ==
            DetailShEvent(
              ShEvent(rs[m].id, a.startMs, ShRow(a.spawn.finishMs, a.spawn.output.exit, a.cmd)),
              if IsSafePathSegment(rs[m].id) then CriLog.Contents(a.spawn.output.stdout, a.spawn.output.stderr, a.ts)
              else "")
  {
    GroupIsLaunchOrder(t, runId, rs, n, m, evs);
    RunLogFile(rs, n, m, k);
    OtherLogs(RunLogs(NO_LOGS, rs, n), id, cut, |cut|, rs[m].id);
  }

  /** So after a crash at any event, or at the end, the page shows every recorded command its own log. */
  lemma CrashedRunShowsOwnLogs(t: Tables, runId: string, rs: seq<JobRun>, endMs: int, e: nat, cut: seq<Attempt>, m: nat,
                               k: nat, evs: seq<ShEvent>, d: DetailJob)
    requires DistinctRuns(rs) && Fresh(t, runId) && e <= |Stream(rs, endMs)| && m < Finished(rs, e)
    requires AllRecordable(rs, Finished(rs, e)) && IncreasingStarts(rs[m].script.attempts, |rs[m].script.attempts|)
    requires LoggedThrough(SpawnedUpTo(rs[m].script.attempts, |rs[m].script.attempts|), k)
    requires IsShQuery(IngestedTables(t, runId, Stream(rs, endMs)[..e]), runId, evs)
    requires var n := Finished(rs, e);
             d.job.jobId == rs[m].id
             && ShowsLogs(d, evs, if n < |rs| then FilesAfter(rs, n, rs[n].id, cut) else RunLogs(NO_LOGS, rs, n).files)
    ensures k < |d.shEvents|
    ensures var a := SpawnedUpTo(rs[m].script.attempts, |rs[m].script.attempts|)[k];
            d.shEvents[k] ==
            DetailShEvent(
              ShEvent(rs[m].id, a.startMs, ShRow(a.spawn.finishMs, a.spawn.output.exit, a.cmd)),
              if IsSafePathSegment(rs[m].id) then CriLog.Contents(a.spawn.output.stdout, a.spawn.output.stderr, a.ts)
              else "")
  {
    hide Stream, IsShQuery, ShowsLogs, LoggedThrough, IncreasingStarts, AllRecordable, RunLogs;
    var n := Finished(rs, e);
    CutStreamIngest(t, runId, rs, endMs, e);
    if n < |rs| {
      ShownLogIsOwnLog(t, runId, rs, n, rs[n].id, cut, m, k, evs, d);
    } else {
      NoMoreFiles(rs, n, rs[m].id + "x");
      ShownLogIsOwnLog(t, runId, rs, n, rs[m].id + "x", [], m, k, evs, d);
    }
  }

  lemma NoMoreFiles(rs: seq<JobRun>, n: nat, id: string)
    requires n <= |rs|
    ensures FilesAfter(rs, n, id, []) == RunLogs(NO_LOGS, rs, n).files
  {
  }

  /** One lost log shifts the rest: the second command's row then shows no log of its own. */
  lemma LostLogShifts() returns (attempts: seq<Attempt>)
    ensures |attempts| == 2 && IncreasingStarts(attempts, 2) && Logged(attempts[1])
    ensures LogsUpTo(NO_LOGS, "build", attempts, 2).files == map[("build", 1) := LogOf(attempts[1])]
  {
    var out := ShOutput(0, "", "");
    attempts := [Attempt("t1", 1, "a", Spawned(2, out, WriteFailed(None))),
                 Attempt("t2", 3, "b", Spawned(4, out, Written))];
    assert LogsUpTo(NO_LOGS, "build", attempts, 0) == NO_LOGS;
    assert LogsUpTo(NO_LOGS, "build", attempts, 1) == NO_LOGS;
  }
}
