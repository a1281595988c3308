/** Registration: what a `ci.fnl` script's `(ci.job …)` and `(ci.image …)` calls
    leave behind. Evaluating the script itself is not modelled; it is the list of
    calls it made, and whether it ran to its end. */
module Registration {
  import opened Wrappers

  /** `Lua` stands for a user's run-fn, `BuiltinNoop` for the built-in push job's. */
  datatype RunFn = Lua | BuiltinNoop

  /** The span is the source line of the call; built-in jobs have none. */
  datatype Job = Job(id: string, inputs: seq<string>, span: Option<nat>, runFn: RunFn)

  datatype DefinitionError =
    | EmptyInputs(jobId: string, line: nat)
    | ReservedSlash(jobId: string, line: nat)
    | DuplicateImage(line: nat)
    | DuplicateJob(jobId: string, line: nat)

  datatype Call =
    | JobCall(id: string, inputs: seq<string>, line: nat)
    | ImageCall(name: string, line: nat)
  {
    /** Passes every rule that looks at this call alone. */
    predicate WellFormed() { JobCall? && '/' !in id && inputs != [] }

    function ToJob(): Job
      requires JobCall?
    {
      Job(id, inputs, Some(line), Lua)
    }
  }

  datatype Registrations = Registrations(jobs: seq<Job>, image: Option<string>)

  datatype RegisterError = ScriptFailed | Rejected(errors: seq<DefinitionError>)

  // ------------------------------------------------ what each call deserves

  ghost predicate EarlierJob(calls: seq<Call>, k: nat, id: string)
    requires k <= |calls|
  {
    exists j :: 0 <= j < k && calls[j].WellFormed() && calls[j].id == id
  }

  ghost predicate EarlierImage(calls: seq<Call>, k: nat)
    requires k <= |calls|
  {
    exists j :: 0 <= j < k && calls[j].ImageCall?
  }

  /** The error call `k` gives rise to, judged against the calls before it. */
  ghost function Fault(calls: seq<Call>, k: nat): Option<DefinitionError>
    requires k < |calls|
  {
    match calls[k]
    case ImageCall(_, line) =>
      if EarlierImage(calls, k) then Some(DuplicateImage(line)) else None
    case JobCall(id, inputs, line) =>
      if '/' in id then Some(ReservedSlash(id, line))
      else if inputs == [] then Some(EmptyInputs(id, line))
      else if EarlierJob(calls, k, id) then Some(DuplicateJob(id, line))
      else None
  }

  ghost function Faults(calls: seq<Call>, n: nat): seq<DefinitionError>
    requires n <= |calls|
  {
    if n == 0 then []
    else Faults(calls, n - 1) + match Fault(calls, n - 1) case Some(e) => [e] case None => []
  }

  /** Jobs of the fault-free job calls among the first `n`, in order. */
  ghost function Accepted(calls: seq<Call>, n: nat): seq<Job>
    requires n <= |calls|
  {
    if n == 0 then []
    else Accepted(calls, n - 1) +
         if calls[n - 1].JobCall? && Fault(calls, n - 1) == None then [calls[n - 1].ToJob()] else []
  }

  ghost function FirstImage(calls: seq<Call>, n: nat): Option<string>
    requires n <= |calls|
  {
    if n == 0 then None
    else if FirstImage(calls, n - 1).None? && calls[n - 1].ImageCall? then Some(calls[n - 1].name)
    else FirstImage(calls, n - 1)
  }

  /** Nothing for any rule to complain about: slash-free ids, non-empty inputs,
      no id twice, at most one image. */
  ghost predicate Clean(calls: seq<Call>) {
    && (forall k :: 0 <= k < |calls| && calls[k].JobCall? ==> calls[k].WellFormed())
    && (forall j, k :: 0 <= j < k < |calls| && calls[j].JobCall? && calls[k].JobCall? ==> calls[j].id != calls[k].id)
    && forall j, k :: 0 <= j < k < |calls| ==> !(calls[j].ImageCall? && calls[k].ImageCall?)
  }

  /** Every job call's job, in call order. */
  ghost function JobsOf(calls: seq<Call>): seq<Job> {
    if calls == [] then []
    else if calls[0].JobCall? then [calls[0].ToJob()] + JobsOf(calls[1..])
    else JobsOf(calls[1..])
  }

  lemma {:induction false} JobsOfSnoc(calls: seq<Call>, c: Call)
    ensures JobsOf(calls + [c]) == JobsOf(calls) + if c.JobCall? then [c.ToJob()] else []
  {
    if calls == [] {
      assert calls + [c] == [c];
    } else {
      JobsOfSnoc(calls[1..], c);
      assert (calls + [c])[1..] == calls[1..] + [c];
    }
  }

  lemma {:induction false} NoFaultsUpTo(calls: seq<Call>, n: nat)
    requires n <= |calls|
    ensures Faults(calls, n) == [] <==> forall k :: 0 <= k < n ==> Fault(calls, k) == None
  {
    if n > 0 { NoFaultsUpTo(calls, n - 1); }
  }

  lemma {:induction false} AcceptedWhenFaultless(calls: seq<Call>, n: nat)
    requires n <= |calls| && forall k :: 0 <= k < n ==> Fault(calls, k) == None
    ensures Accepted(calls, n) == JobsOf(calls[..n])
  {
    if n > 0 {
      AcceptedWhenFaultless(calls, n - 1);
      assert calls[..n] == calls[..n - 1] + [calls[n - 1]];
      JobsOfSnoc(calls[..n - 1], calls[n - 1]);
    }
  }

  lemma CleanHasNoFault(calls: seq<Call>, k: nat)
    requires Clean(calls) && k < |calls|
    ensures Fault(calls, k) == None
  {
    if calls[k].JobCall? { assert calls[k].WellFormed(); }
  }

  lemma FaultlessIsClean(calls: seq<Call>)
    requires forall k :: 0 <= k < |calls| ==> Fault(calls, k) == None
    ensures Clean(calls)
  {
    forall k | 0 <= k < |calls| && calls[k].JobCall? ensures calls[k].WellFormed() {
      assert Fault(calls, k) == None;
    }
    forall j, k | 0 <= j < k < |calls| && calls[j].JobCall? && calls[k].JobCall?
      ensures calls[j].id != calls[k].id
    {
      assert Fault(calls, k) == None && calls[j].WellFormed();
    }
    forall j, k | 0 <= j < k < |calls| ensures !(calls[j].ImageCall? && calls[k].ImageCall?) {
      assert Fault(calls, k) == None;
    }
  }

  /** Registration reports nothing exactly on clean scripts, and then keeps every job, in order. */
  lemma CleanIffNoFaults(calls: seq<Call>)
    ensures Clean(calls) <==> Faults(calls, |calls|) == []
    ensures Clean(calls) ==> Accepted(calls, |calls|) == JobsOf(calls)
  {
    NoFaultsUpTo(calls, |calls|);
    assert calls[..|calls|] == calls;
    if Clean(calls) {
      forall k | 0 <= k < |calls| ensures Fault(calls, k) == None { CleanHasNoFault(calls, k); }
      AcceptedWhenFaultless(calls, |calls|);
    } else if Faults(calls, |calls|) == [] {
      FaultlessIsClean(calls);
    }
  }

  /** An accepted job carries some id exactly when an earlier well-formed call did. */
  lemma {:induction false} AcceptedIds(calls: seq<Call>, n: nat, id: string)
    requires n <= |calls|
    ensures (exists j :: j in Accepted(calls, n) && j.id == id) <==> EarlierJob(calls, n, id)
  {
    if n > 0 {
      AcceptedIds(calls, n - 1, id);
      if EarlierJob(calls, n - 1, id) {
        var j :| j in Accepted(calls, n - 1) && j.id == id;
        assert j in Accepted(calls, n);
      } else if calls[n - 1].WellFormed() && calls[n - 1].id == id {
        assert Accepted(calls, n)[|Accepted(calls, n - 1)|] == calls[n - 1].ToJob();
      }
    }
  }

  lemma {:induction false} FirstImageSet(calls: seq<Call>, n: nat)
    requires n <= |calls|
    ensures FirstImage(calls, n).Some? <==> EarlierImage(calls, n)
  {
    if n > 0 { FirstImageSet(calls, n - 1); }
  }

  /** The image is the one named by the first image call. */
  lemma {:induction false} FirstImageMeans(calls: seq<Call>, n: nat, name: string)
    requires n <= |calls|
    ensures FirstImage(calls, n) == Some(name) <==>
              exists k :: 0 <= k < n && calls[k].ImageCall? && calls[k].name == name
                          && forall j :: 0 <= j < k ==> !calls[j].ImageCall?
  {
    if n > 0 {
      FirstImageMeans(calls, n - 1, name);
      FirstImageSet(calls, n - 1);
    }
  }

  /** The jobs are those of the job calls, with every input, line and id as given. */
  lemma {:induction false} JobsOfMeans(calls: seq<Call>, j: Job)
    ensures j in JobsOf(calls) <==>
              exists k :: 0 <= k < |calls| && calls[k].JobCall?
                          && j == Job(calls[k].id, calls[k].inputs, Some(calls[k].line), Lua)
  {
    if calls != [] {
      var rest := calls[1..];
      JobsOfMeans(rest, j);
      assert forall k :: 0 <= k < |rest| ==> rest[k] == calls[k + 1];
      assert forall k :: 0 < k < |calls| ==> calls[k] == rest[k - 1];
    }
  }

  /** And they are in the order of the calls. */
  lemma {:induction false} JobsKeepOrder(calls: seq<Call>, a: nat, b: nat) returns (i: nat, j: nat)
    requires a < b < |calls| && calls[a].JobCall? && calls[b].JobCall?
    ensures i < j < |JobsOf(calls)|
    ensures JobsOf(calls)[i] == Job(calls[a].id, calls[a].inputs, Some(calls[a].line), Lua)
    ensures JobsOf(calls)[j] == Job(calls[b].id, calls[b].inputs, Some(calls[b].line), Lua)
  {
    var shift := if calls[0].JobCall? then 1 else 0;
    if a == 0 {
      JobsOfMeans(calls[1..], calls[b].ToJob());
      assert calls[1..][b - 1] == calls[b];
      var k: nat :| k < |JobsOf(calls[1..])| && JobsOf(calls[1..])[k] == calls[b].ToJob();
      return 0, k + 1;
    }
    assert calls[1..][a - 1] == calls[a] && calls[1..][b - 1] == calls[b];
    i, j := JobsKeepOrder(calls[1..], a - 1, b - 1);
    i, j := i + shift, j + shift;
  }

  /** Jobs of a clean script obey the per-job rules and have pairwise different ids. */
  lemma {:induction false} JobsOfClean(calls: seq<Call>)
    requires Clean(calls)
    ensures forall j :: j in JobsOf(calls) ==> '/' !in j.id && j.inputs != [] && j.span.Some? && j.runFn.Lua?
    ensures forall j :: j in JobsOf(calls) ==>
              exists k :: 0 <= k < |calls| && calls[k].JobCall? && calls[k].ToJob() == j
    ensures forall i, j :: 0 <= i < j < |JobsOf(calls)| ==> JobsOf(calls)[i].id != JobsOf(calls)[j].id
  {
    if calls != [] {
      var rest := calls[1..];
      assert forall k :: 0 <= k < |rest| ==> rest[k] == calls[k + 1];
      assert Clean(rest);
      JobsOfClean(rest);
      assert calls[0].JobCall? ==> calls[0].WellFormed();
      forall j | j in JobsOf(rest)
        ensures calls[0].JobCall? ==> calls[0].id != j.id
        ensures exists k :: 0 <= k < |calls| && calls[k].JobCall? && calls[k].ToJob() == j
      {
        var k :| 0 <= k < |rest| && rest[k].JobCall? && rest[k].ToJob() == j;
        assert calls[k + 1].ToJob() == j;
      }
    }
  }

  // --------------------------------------------------------- the collector

  /** The per-job rules that hold however a job is registered. */
  function NewJob(id: string, inputs: seq<string>, runFn: RunFn, line: nat): (r: Result<Job, DefinitionError>)
    ensures r.Ok? <==> inputs != []
    ensures r.Ok? ==>
              && r.value.id == id && r.value.inputs == inputs
              && r.value.span == Some(line) && r.value.runFn == runFn
    ensures r.Err? ==> r.error == EmptyInputs(id, line)
  {
    if inputs == [] then Err(EmptyInputs(id, line)) else Ok(Job(id, inputs, Some(line), runFn))
  }

  /** The sinks the two registration callbacks push into. */
  class Collector {
    var jobs: seq<Job>
    var errors: seq<DefinitionError>
    var image: Option<string>

    /** The state after the first `n` calls of a script. */
    ghost predicate After(calls: seq<Call>, n: nat)
      requires n <= |calls|
      reads this
    {
      jobs == Accepted(calls, n) && errors == Faults(calls, n) && image == FirstImage(calls, n)
    }

    constructor ()
      ensures jobs == [] && errors == [] && image == None
    {
      jobs, errors, image := [], [], None;
    }

    /** The first registration of an id wins. */
    method AddJob(job: Job, line: nat)
      modifies this
      ensures image == old(image)
      ensures (exists j :: j in old(jobs) && j.id == job.id) ==>
                jobs == old(jobs) && errors == old(errors) + [DuplicateJob(job.id, line)]
      ensures !(exists j :: j in old(jobs) && j.id == job.id) ==>
                jobs == old(jobs) + [job] && errors == old(errors)
    {
      if exists j :: j in jobs && j.id == job.id {
        errors := errors + [DuplicateJob(job.id, line)];
        return;
      }
      jobs := jobs + [job];
    }

    method RegisterImage(name: string, line: nat, ghost calls: seq<Call>, ghost k: nat)
      requires k < |calls| && calls[k] == ImageCall(name, line) && After(calls, k)
      modifies this
      ensures After(calls, k + 1)
      ensures jobs == old(jobs)
      ensures old(image).Some? ==> image == old(image) && errors == old(errors) + [DuplicateImage(line)]
      ensures old(image).None? ==> image == Some(name) && errors == old(errors)
    {
      FirstImageSet(calls, k);
      match image
      case Some(_) => errors := errors + [DuplicateImage(line)];
      case None => image := Some(name);
    }

    method RegisterJob(id: string, inputs: seq<string>, line: nat, ghost calls: seq<Call>, ghost k: nat)
      requires k < |calls| && calls[k] == JobCall(id, inputs, line) && After(calls, k)
      modifies this
      ensures After(calls, k + 1)
      ensures image == old(image)
      ensures var known := exists j :: j in old(jobs) && j.id == id;
              && jobs == old(jobs) + (if '/' !in id && inputs != [] && !known
                                      then [Job(id, inputs, Some(line), Lua)] else [])
              && errors == old(errors) + (if '/' in id then [ReservedSlash(id, line)]
                                          else if inputs == [] then [EmptyInputs(id, line)]
                                          else if known then [DuplicateJob(id, line)] else [])
    {
      if '/' in id {
        errors := errors + [ReservedSlash(id, line)];
        return;
      }
      match NewJob(id, inputs, Lua, line)
      case Ok(job) =>
        AcceptedIds(calls, k, id);
        AddJob(job, line);
      case Err(e) => errors := errors + [e];
    }
  }

  /** Run the script's calls through the callbacks; any error discards the whole batch. */
  method Register(calls: seq<Call>, scriptOk: bool) returns (r: Result<Registrations, RegisterError>)
    ensures !scriptOk ==> r == Err(ScriptFailed)
    ensures scriptOk && !Clean(calls) ==> r == Err(Rejected(Faults(calls, |calls|))) && Faults(calls, |calls|) != []
    ensures scriptOk && Clean(calls) ==> r == Ok(Registrations(JobsOf(calls), FirstImage(calls, |calls|)))
  {
    var c := new Collector();
    for k := 0 to |calls|
      invariant fresh(c) && c.After(calls, k)
    {
      match calls[k]
      case JobCall(id, inputs, line) => c.RegisterJob(id, inputs, line, calls, k);
      case ImageCall(name, line) => c.RegisterImage(name, line, calls, k);
    }
    CleanIffNoFaults(calls);
    if !scriptOk { return Err(ScriptFailed); }
    if c.errors != [] { return Err(Rejected(c.errors)); }
    return Ok(Registrations(c.jobs, c.image));
  }
}
