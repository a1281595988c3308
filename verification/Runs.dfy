/** The life of a `runs` row: every statement that writes one, as an atomic step that
    applies or is rejected by a CHECK, and what holds over every interleaving of them. */
module Runs {
  import opened Wrappers
  import opened Orders
  import opened Schema

  type RunTable = map<string, RunRow>

  datatype RunError = AlreadyDispatched | AlreadyResolved | NotFound | Gone | Rejected(error: DbError)

  /** A `Run` value in some process: its id and its two in-memory flags. */
  datatype Handle = Handle(id: string, dispatched: bool, resolved: bool)

  datatype Bootstrap = Bootstrap(sha: string, refName: string, pushedAtMs: int, repo: string, runId: string,
                                 traceparent: Option<string>)

  function Or<T>(a: Option<T>, b: T): Option<T> { if a.Some? then a else Some(b) }

  // -------------------------------------------------- the statements, as functions

  function WithDispatched(r: RunRow, now: int): RunRow { r.(dispatchedAt := Or(r.dispatchedAt, now)) }

  /** Fill in whatever is still empty of the three lifecycle columns. */
  function WithResolved(r: RunRow, outcome: Outcome, now: int): RunRow {
    r.(dispatchedAt := Or(r.dispatchedAt, now), resolvedAt := Or(r.resolvedAt, now), outcome := Or(r.outcome, outcome))
  }

  /** The same without a dispatch stamp: how queued runs are superseded. */
  function WithSuperseded(r: RunRow, now: int): RunRow {
    r.(resolvedAt := Or(r.resolvedAt, now), outcome := Or(r.outcome, Superseded))
  }

  predicate OnRef(r: RunRow, repo: string, refName: string) { r.repo == repo && r.refName == refName }

  predicate IsActive(r: RunRow) { r.dispatchedAt.Some? && r.resolvedAt.None? }

  predicate IsQueued(r: RunRow) { r.dispatchedAt.None? && r.resolvedAt.None? }

  /** An UPDATE of many rows: all of them, or none if any CHECK fails. */
  function UpdateWhere(runs: RunTable, hit: RunRow -> bool, change: RunRow -> RunRow): Result<RunTable, DbError> {
    if forall id :: id in runs && hit(runs[id]) ==> RunRowOk(change(runs[id]))
    then Ok(map id | id in runs :: if hit(runs[id]) then change(runs[id]) else runs[id])
    else Err(CheckFailed)
  }

  /** One UPDATE per active run, in the order the SELECT listed them; an error keeps the earlier ones. */
  function CancelActive(runs: RunTable, ids: seq<string>, now: int): (RunTable, Option<DbError>) {
    if ids == [] then (runs, None)
    else if ids[0] !in runs then CancelActive(runs, ids[1..], now)
    else
      match UpdateRun(runs, ids[0], WithResolved(runs[ids[0]], Superseded, now))
      case Err(e) => (runs, Some(e))
      case Ok(runs') => CancelActive(runs', ids[1..], now)
  }

  function CancelQueued(runs: RunTable, repo: string, refName: string, now: int): Result<RunTable, DbError> {
    UpdateWhere(runs, (r: RunRow) => OnRef(r, repo, refName) && IsQueued(r), (r: RunRow) => WithSuperseded(r, now))
  }

  function CancelExisting(runs: RunTable, repo: string, refName: string, active: seq<string>, now: int)
    : (RunTable, Option<DbError>)
  {
    var (runs1, e) := CancelActive(runs, active, now);
    if e.Some? then (runs1, e)
    else
      match CancelQueued(runs1, repo, refName, now)
      case Err(error) => (runs1, Some(error))
      case Ok(runs2) => (runs2, None)
  }

  datatype NewRun = NewRun(id: string, repo: string, refName: string, sha: string, pushedAtMs: int,
                           runToken: Option<string>)

  function FreshRow(n: NewRun, now: int): RunRow {
    RunRow(n.repo, n.refName, n.sha, n.pushedAtMs, now, None, None, None, n.runToken, None)
  }

  function CreateRun(runs: RunTable, n: NewRun, active: seq<string>, cancelNow: int, insertNow: int)
    : (RunTable, Option<DbError>)
  {
    var (runs1, e) := CancelExisting(runs, n.repo, n.refName, active, cancelNow);
    if e.Some? then (runs1, e)
    else if n.id in runs1 then (runs1, Some(PrimaryKey))
    else (runs1[n.id := FreshRow(n, insertNow)], None)
  }

  function ReconcileOrphans(runs: RunTable, now: int): Result<RunTable, DbError> {
    UpdateWhere(runs, (r: RunRow) => r.resolvedAt.None?, (r: RunRow) => WithResolved(r, FailedOrphaned, now))
  }

  function DispatchRun(runs: RunTable, h: Handle, now: int): (RunTable, Handle, Option<RunError>) {
    if h.dispatched || h.resolved then (runs, h, Some(AlreadyDispatched))
    else if h.id !in runs then (runs, h.(dispatched := true), None)
    else
      match UpdateRun(runs, h.id, WithDispatched(runs[h.id], now))
      case Err(e) => (runs, h, Some(Rejected(e)))
      case Ok(runs') => (runs', h.(dispatched := true), None)
  }

  function ResolveRun(runs: RunTable, h: Handle, outcome: Outcome, now: int): (RunTable, Handle, Option<RunError>) {
    if h.resolved then (runs, h, Some(AlreadyResolved))
    else if h.id !in runs then (runs, h.(dispatched := true, resolved := true), None)
    else
      match UpdateRun(runs, h.id, WithResolved(runs[h.id], outcome, now))
      case Err(e) => (runs, h, Some(Rejected(e)))
      case Ok(runs') => (runs', h.(dispatched := true, resolved := true), None)
  }

  function ServeBootstrap(runs: RunTable, id: string, now: int): (RunTable, Result<Bootstrap, RunError>) {
    if id !in runs then (runs, Err(NotFound))
    else if runs[id].dispatchedAt.Some? then (runs, Err(Gone))
    else
      var r := runs[id];
      match UpdateRun(runs, id, r.(dispatchedAt := Some(now)))
      case Err(e) => (runs, Err(Rejected(e)))
      case Ok(runs') => (runs', Ok(Bootstrap(r.sha, r.refName, r.pushedAtMs, r.repo, id, r.traceparent)))
  }

  function StoreTraceparent(runs: RunTable, id: string, traceparent: Option<string>): RunTable {
    if id in runs then runs[id := runs[id].(traceparent := traceparent)] else runs
  }

  // ------------------------------------------------------- steps and traces

  datatype System = System(runs: RunTable, handles: map<nat, Handle>)

  const EMPTY: System := System(map[], map[])

  datatype Step =
    | Create(n: NewRun, active: seq<string>, cancelNow: int, insertNow: int, h: nat)
    | Open(id: string, h: nat)
    | MarkDispatched(h: nat)
    | Dispatch(h: nat, now: int)
    | Resolve(h: nat, outcome: Outcome, now: int)
    | FetchBootstrap(id: string, now: int)
    | SetTraceparent(id: string, traceparent: Option<string>)
    | Reconcile(now: int)

  /** `active` lists, in some order and once each, the ids the cancelling SELECT finds. */
  ghost predicate ListsActive(runs: RunTable, repo: string, refName: string, active: seq<string>) {
    NoDup(active) && forall id :: id in active <==> id in runs && OnRef(runs[id], repo, refName) && IsActive(runs[id])
  }

  ghost predicate Possible(s: System, step: Step) {
    match step
    case Create(n, active, _, _, _) => ListsActive(s.runs, n.repo, n.refName, active)
    case Open(id, _) => id in s.runs
    case MarkDispatched(h) => h in s.handles
    case Dispatch(h, _) => h in s.handles
    case Resolve(h, _, _) => h in s.handles
    case _ => true
  }

  function Apply(s: System, step: Step): System {
    match step
    case Create(n, active, cancelNow, insertNow, h) =>
      var (runs, e) := CreateRun(s.runs, n, active, cancelNow, insertNow);
      System(runs, if e.None? then s.handles[h := Handle(n.id, false, false)] else s.handles)
    case Open(id, h) =>
      if id !in s.runs then s
      else s.(handles := s.handles[h := Handle(id, s.runs[id].dispatchedAt.Some?, s.runs[id].resolvedAt.Some?)])
    case MarkDispatched(h) =>
      if h !in s.handles then s else s.(handles := s.handles[h := s.handles[h].(dispatched := true)])
    case Dispatch(h, now) =>
      if h !in s.handles then s
      else var (runs, handle, _) := DispatchRun(s.runs, s.handles[h], now); System(runs, s.handles[h := handle])
    case Resolve(h, outcome, now) =>
      if h !in s.handles then s
      else var (runs, handle, _) := ResolveRun(s.runs, s.handles[h], outcome, now); System(runs, s.handles[h := handle])
    case FetchBootstrap(id, now) => s.(runs := ServeBootstrap(s.runs, id, now).0)
    case SetTraceparent(id, tp) => s.(runs := StoreTraceparent(s.runs, id, tp))
    case Reconcile(now) =>
      match ReconcileOrphans(s.runs, now)
      case Ok(runs) => s.(runs := runs)
      case Err(_) => s
  }

  function RunSteps(s: System, steps: seq<Step>): System
    decreases |steps|
  {
    if steps == [] then s else RunSteps(Apply(s, steps[0]), steps[1..])
  }

  ghost predicate AllPossible(s: System, steps: seq<Step>)
    decreases |steps|
  {
    steps == [] || (Possible(s, steps[0]) && AllPossible(Apply(s, steps[0]), steps[1..]))
  }

  // ------------------------------------------------ what one step does to one row

  /** How a row may change in one step, given every clock reading of the step is one of `times`. */
  ghost predicate RowStep(a: RunRow, b: RunRow, times: set<int>) {
    && b.repo == a.repo && b.refName == a.refName && b.sha == a.sha && b.pushedAtMs == a.pushedAtMs
    && b.createdAt == a.createdAt && b.runToken == a.runToken
    && (b.dispatchedAt == a.dispatchedAt
        || (a.dispatchedAt.None? && b.dispatchedAt.Some? && b.dispatchedAt.value in times))
    && ((b.resolvedAt == a.resolvedAt && b.outcome == a.outcome)
        || (a.resolvedAt.None? && a.outcome.None?
            && b.resolvedAt.Some? && b.outcome.Some? && b.resolvedAt.value in times))
  }

  ghost function Times(step: Step): set<int> {
    match step
    case Create(_, _, cancelNow, insertNow, _) => {cancelNow, insertNow}
    case Dispatch(_, now) => {now}
    case Resolve(_, _, now) => {now}
    case FetchBootstrap(_, now) => {now}
    case Reconcile(now) => {now}
    case _ => {}
  }

  /** Rows are never deleted, and every change to one is a `RowStep`. */
  ghost predicate RowsStep(a: RunTable, b: RunTable, times: set<int>) {
    forall id :: id in a ==> id in b && RowStep(a[id], b[id], times)
  }

  ghost predicate RowsOk(runs: RunTable) { forall id :: id in runs ==> RunRowOk(runs[id]) }

  lemma RowsStepTransitive(a: RunTable, b: RunTable, c: RunTable, times: set<int>)
    requires RowsStep(a, b, times) && RowsStep(b, c, times)
    ensures RowsStep(a, c, times)
  {
    forall id | id in a ensures id in c && RowStep(a[id], c[id], times) {
      assert RowStep(a[id], b[id], times) && RowStep(b[id], c[id], times);
    }
  }

  lemma UpdateWhereSteps(runs: RunTable, hit: RunRow -> bool, change: RunRow -> RunRow, times: set<int>)
    requires RowsOk(runs)
    requires forall r :: RunRowOk(r) && hit(r) ==> RowStep(r, change(r), times)
    ensures UpdateWhere(runs, hit, change).Ok? ==>
              var runs' := UpdateWhere(runs, hit, change).value;
              RowsOk(runs') && RowsStep(runs, runs', times) && runs'.Keys == runs.Keys
  {
  }

  lemma ResolvedStep(runs: RunTable, id: string, r: RunRow, now: int)
    requires RowsOk(runs) && id in runs && r == WithResolved(runs[id], Superseded, now) && RunRowOk(r)
    ensures RowsOk(runs[id := r]) && RowsStep(runs, runs[id := r], {now})
  {
  }

  lemma {:induction false} CancelActiveSteps(runs: RunTable, ids: seq<string>, now: int)
    requires RowsOk(runs)
    ensures var (runs', _) := CancelActive(runs, ids, now);
            RowsOk(runs') && RowsStep(runs, runs', {now}) && runs'.Keys == runs.Keys
            && forall id :: id in runs && id !in ids ==> runs'[id] == runs[id]
  {
    if ids != [] {
      if ids[0] !in runs {
        CancelActiveSteps(runs, ids[1..], now);
      } else {
        var r := WithResolved(runs[ids[0]], Superseded, now);
        if RunRowOk(r) {
          var runs1 := runs[ids[0] := r];
          ResolvedStep(runs, ids[0], r, now);
          CancelActiveSteps(runs1, ids[1..], now);
          RowsStepTransitive(runs, runs1, CancelActive(runs1, ids[1..], now).0, {now});
        }
      }
    }
  }

  lemma CancelQueuedSteps(runs: RunTable, repo: string, refName: string, now: int)
    requires RowsOk(runs) && CancelQueued(runs, repo, refName, now).Ok?
    ensures var runs' := CancelQueued(runs, repo, refName, now).value;
            RowsOk(runs') && RowsStep(runs, runs', {now}) && runs'.Keys == runs.Keys
  {
    UpdateWhereSteps(runs, (r: RunRow) => OnRef(r, repo, refName) && IsQueued(r),
                     (r: RunRow) => WithSuperseded(r, now), {now});
  }

  lemma CancelExistingSteps(runs: RunTable, repo: string, refName: string, active: seq<string>, now: int)
    requires RowsOk(runs)
    ensures var (runs', _) := CancelExisting(runs, repo, refName, active, now);
            RowsOk(runs') && RowsStep(runs, runs', {now}) && runs'.Keys == runs.Keys
  {
    CancelActiveSteps(runs, active, now);
    var (runs1, e) := CancelActive(runs, active, now);
    if e.None? && CancelQueued(runs1, repo, refName, now).Ok? {
      CancelQueuedSteps(runs1, repo, refName, now);
      RowsStepTransitive(runs, runs1, CancelQueued(runs1, repo, refName, now).value, {now});
    }
  }

  lemma MoreTimes(a: RunTable, b: RunTable, times: set<int>, times': set<int>)
    requires RowsStep(a, b, times) && times <= times'
    ensures RowsStep(a, b, times')
  {
    forall id | id in a ensures id in b && RowStep(a[id], b[id], times') {
      assert RowStep(a[id], b[id], times);
    }
  }

  lemma CreateRows(runs: RunTable, n: NewRun, active: seq<string>, cancelNow: int, insertNow: int)
    requires RowsOk(runs)
    ensures var (runs', _) := CreateRun(runs, n, active, cancelNow, insertNow);
            RowsOk(runs') && RowsStep(runs, runs', {cancelNow, insertNow})
            && forall id :: id in runs' && id !in runs ==> runs'[id] == FreshRow(n, insertNow)
  {
    CancelExistingSteps(runs, n.repo, n.refName, active, cancelNow);
    MoreTimes(runs, CancelExisting(runs, n.repo, n.refName, active, cancelNow).0, {cancelNow}, {cancelNow, insertNow});
  }

  lemma ReconcileRows(runs: RunTable, now: int)
    requires RowsOk(runs)
    ensures ReconcileOrphans(runs, now).Ok? ==>
              var runs' := ReconcileOrphans(runs, now).value; RowsOk(runs') && RowsStep(runs, runs', {now})
  {
    UpdateWhereSteps(runs, (r: RunRow) => r.resolvedAt.None?,
                     (r: RunRow) => WithResolved(r, FailedOrphaned, now), {now});
  }

  lemma OneRow(runs: RunTable, id: string, row: RunRow, times: set<int>)
    requires RowsOk(runs) && id in runs && RowStep(runs[id], row, times)
    ensures RunRowOk(row) ==> RowsOk(runs[id := row]) && RowsStep(runs, runs[id := row], times)
    ensures RowsStep(runs, runs, times)
  {
  }

  lemma DispatchRows(runs: RunTable, h: Handle, now: int)
    requires RowsOk(runs)
    ensures var runs' := DispatchRun(runs, h, now).0; RowsOk(runs') && RowsStep(runs, runs', {now})
  {
    NoStep(runs, {now});
    hide RowsOk, RowsStep, RunRowOk;
    if h.id in runs { OneRow(runs, h.id, WithDispatched(runs[h.id], now), {now}); }
  }

  lemma ResolveRows(runs: RunTable, h: Handle, outcome: Outcome, now: int)
    requires RowsOk(runs)
    ensures var runs' := ResolveRun(runs, h, outcome, now).0; RowsOk(runs') && RowsStep(runs, runs', {now})
  {
    NoStep(runs, {now});
    if h.id in runs {
      assert RowStep(runs[h.id], WithResolved(runs[h.id], outcome, now), {now}) by { assert RunRowOk(runs[h.id]); }
      hide RowsOk, RowsStep, RunRowOk, RowStep;
      OneRow(runs, h.id, WithResolved(runs[h.id], outcome, now), {now});
    }
  }

  lemma BootstrapRows(runs: RunTable, id: string, now: int)
    requires RowsOk(runs)
    ensures var runs' := ServeBootstrap(runs, id, now).0; RowsOk(runs') && RowsStep(runs, runs', {now})
  {
    NoStep(runs, {now});
    hide RowsOk, RowsStep, RunRowOk;
    if id in runs && runs[id].dispatchedAt.None? { OneRow(runs, id, runs[id].(dispatchedAt := Some(now)), {now}); }
  }

  lemma TraceparentRows(runs: RunTable, id: string, traceparent: Option<string>)
    requires RowsOk(runs)
    ensures var runs' := StoreTraceparent(runs, id, traceparent); RowsOk(runs') && RowsStep(runs, runs', {})
  {
  }

  lemma NoStep(runs: RunTable, times: set<int>)
    ensures RowsStep(runs, runs, times)
  {
  }

  /** Every step keeps the CHECKs, and writes each lifecycle column at most once. */
  lemma StepRows(s: System, step: Step)
    requires RowsOk(s.runs)
    ensures RowsOk(Apply(s, step).runs) && RowsStep(s.runs, Apply(s, step).runs, Times(step))
  {
    hide RowsOk, RowsStep, CreateRun, DispatchRun, ResolveRun, ServeBootstrap, StoreTraceparent, ReconcileOrphans;
    NoStep(s.runs, Times(step));
    match step
    case Create(n, active, cancelNow, insertNow, h) => CreateRows(s.runs, n, active, cancelNow, insertNow);
    case Dispatch(h, now) => if h in s.handles { DispatchRows(s.runs, s.handles[h], now); }
    case Resolve(h, outcome, now) => if h in s.handles { ResolveRows(s.runs, s.handles[h], outcome, now); }
    case FetchBootstrap(id, now) => BootstrapRows(s.runs, id, now);
    case SetTraceparent(id, tp) => TraceparentRows(s.runs, id, tp);
    case Reconcile(now) => ReconcileRows(s.runs, now);
    case _ =>
  }

  // ------------------------------------------------------ over whole traces

  /** `resolved_at` and `outcome` are written together and never change; `dispatched_at`
      is written at most once; identity columns never. */
  ghost predicate RowLater(a: RunRow, b: RunRow) {
    && b.repo == a.repo && b.refName == a.refName && b.sha == a.sha && b.pushedAtMs == a.pushedAtMs
    && b.createdAt == a.createdAt && b.runToken == a.runToken
    && (a.dispatchedAt.Some? ==> b.dispatchedAt == a.dispatchedAt)
    && (a.resolvedAt.Some? ==> b.resolvedAt == a.resolvedAt && b.outcome == a.outcome)
    && (b.resolvedAt.Some? <==> b.outcome.Some?)
  }

  lemma {:induction false} TraceRows(s: System, steps: seq<Step>)
    requires RowsOk(s.runs)
    ensures var s' := RunSteps(s, steps);
            RowsOk(s'.runs) && forall id :: id in s.runs ==> id in s'.runs && RowLater(s.runs[id], s'.runs[id])
    decreases |steps|
  {
    if steps != [] {
      StepRows(s, steps[0]);
      var s1 := Apply(s, steps[0]);
      TraceRows(s1, steps[1..]);
      forall id | id in s.runs ensures id in s1.runs && RowLater(s.runs[id], s1.runs[id]) {
        assert RowStep(s.runs[id], s1.runs[id], Times(steps[0]));
      }
    }
  }

  /** Bootstrap fetches of `id` that were served. */
  function Served(s: System, steps: seq<Step>, id: string): nat
    decreases |steps|
  {
    if steps == [] then 0
    else
      (if steps[0].FetchBootstrap? && steps[0].id == id && ServeBootstrap(s.runs, id, steps[0].now).1.Ok?
       then 1 else 0) +
      Served(Apply(s, steps[0]), steps[1..], id)
  }

  /** At most one bootstrap fetch per run is ever served, and none once it was dispatched. */
  lemma {:induction false} BootstrapIsOneShot(s: System, steps: seq<Step>, id: string)
    requires RowsOk(s.runs)
    ensures Served(s, steps, id) <= 1
    ensures id in s.runs && s.runs[id].dispatchedAt.Some? ==> Served(s, steps, id) == 0
    decreases |steps|
  {
    if steps != [] {
      StepRows(s, steps[0]);
      var s1 := Apply(s, steps[0]);
      BootstrapIsOneShot(s1, steps[1..], id);
      assert id in s.runs ==> RowStep(s.runs[id], s1.runs[id], Times(steps[0]));
    }
  }

  // ----------------------------------------------- one unresolved run per ref

  ghost predicate Unresolved(runs: RunTable, id: string, repo: string, refName: string) {
    id in runs && runs[id].repo == repo && runs[id].refName == refName && runs[id].resolvedAt.None?
  }

  ghost predicate OnePerRef(runs: RunTable) {
    forall id, id', repo, refName ::
      Unresolved(runs, id, repo, refName) && Unresolved(runs, id', repo, refName) ==> id == id'
  }

  lemma {:induction false} CancelActiveResolves(runs: RunTable, ids: seq<string>, now: int)
    requires RowsOk(runs) && CancelActive(runs, ids, now).1.None?
    ensures var runs' := CancelActive(runs, ids, now).0;
            forall id :: id in ids && id in runs ==> id in runs' && runs'[id].resolvedAt.Some?
  {
    if ids != [] {
      if ids[0] !in runs {
        CancelActiveResolves(runs, ids[1..], now);
      } else {
        var runs1 := runs[ids[0] := WithResolved(runs[ids[0]], Superseded, now)];
        CancelActiveResolves(runs1, ids[1..], now);
        CancelActiveSteps(runs1, ids[1..], now);
        assert RowStep(runs1[ids[0]], CancelActive(runs1, ids[1..], now).0[ids[0]], {now});
      }
    }
  }

  /** A cancel that succeeds leaves nothing unresolved on its ref and does not touch other refs. */
  lemma CancelExistingResolves(runs: RunTable, repo: string, refName: string, active: seq<string>, now: int)
    requires RowsOk(runs) && ListsActive(runs, repo, refName, active)
    ensures var (runs', e) := CancelExisting(runs, repo, refName, active, now);
            && runs'.Keys == runs.Keys
            && (forall id :: id in runs && !OnRef(runs[id], repo, refName) ==> runs'[id] == runs[id])
            && (e.None? ==> forall id :: !Unresolved(runs', id, repo, refName))
  {
    CancelExistingSteps(runs, repo, refName, active, now);
    CancelActiveSteps(runs, active, now);
    var (runs1, e1) := CancelActive(runs, active, now);
    if e1.None? {
      CancelActiveResolves(runs, active, now);
      var (runs', e) := CancelExisting(runs, repo, refName, active, now);
      if e.None? {
        forall id ensures !Unresolved(runs', id, repo, refName) {
          if id in runs {
            assert RowStep(runs[id], runs1[id], {now}) && RowStep(runs[id], runs'[id], {now});
            assert id in active <==> OnRef(runs[id], repo, refName) && IsActive(runs[id]);
          }
        }
      }
    }
  }

  /** A step that is not a create opens nothing. */
  lemma StillUnresolved(runs: RunTable, runs': RunTable, times: set<int>, id: string, repo: string, refName: string)
    requires RowsStep(runs, runs', times) && id in runs && Unresolved(runs', id, repo, refName)
    ensures Unresolved(runs, id, repo, refName)
  {
    assert RowStep(runs[id], runs'[id], times);
  }

  lemma StepOnePerRef(s: System, step: Step)
    requires RowsOk(s.runs) && OnePerRef(s.runs) && Possible(s, step)
    ensures OnePerRef(Apply(s, step).runs)
  {
    var runs' := Apply(s, step).runs;
    if step.Create? {
      CreateOnePerRef(s.runs, step.n, step.active, step.cancelNow, step.insertNow);
    } else {
      StepRows(s, step);
      forall id, repo, refName | Unresolved(runs', id, repo, refName) ensures Unresolved(s.runs, id, repo, refName) {
        StillUnresolved(s.runs, runs', Times(step), id, repo, refName);
      }
    }
  }

  lemma CreateOnePerRef(runs: RunTable, n: NewRun, active: seq<string>, cancelNow: int, insertNow: int)
    requires RowsOk(runs) && OnePerRef(runs) && ListsActive(runs, n.repo, n.refName, active)
    ensures OnePerRef(CreateRun(runs, n, active, cancelNow, insertNow).0)
  {
    CancelExistingResolves(runs, n.repo, n.refName, active, cancelNow);
    CancelExistingSteps(runs, n.repo, n.refName, active, cancelNow);
    var (runs1, e) := CancelExisting(runs, n.repo, n.refName, active, cancelNow);
    forall id, repo, refName | Unresolved(runs1, id, repo, refName) ensures Unresolved(runs, id, repo, refName) {
      StillUnresolved(runs, runs1, {cancelNow}, id, repo, refName);
    }
    var runs2 := CreateRun(runs, n, active, cancelNow, insertNow).0;
    forall id, id', repo, refName | Unresolved(runs2, id, repo, refName) && Unresolved(runs2, id', repo, refName)
      ensures id == id'
    {
      assert id in runs1 && runs2[id] == runs1[id] ==> Unresolved(runs1, id, repo, refName);
      assert id' in runs1 && runs2[id'] == runs1[id'] ==> Unresolved(runs1, id', repo, refName);
    }
  }

  /** In every reachable database each (repo, ref) has at most one unresolved run, and the CHECKs hold. */
  lemma {:induction false} ReachableOnePerRef(s: System, steps: seq<Step>)
    requires RowsOk(s.runs) && OnePerRef(s.runs) && AllPossible(s, steps)
    ensures RowsOk(RunSteps(s, steps).runs) && OnePerRef(RunSteps(s, steps).runs)
    decreases |steps|
  {
    if steps != [] {
      StepRows(s, steps[0]);
      StepOnePerRef(s, steps[0]);
      ReachableOnePerRef(Apply(s, steps[0]), steps[1..]);
    }
  }

  /** Creating a run leaves every row of every other (repo, ref) as it was. */
  lemma CreateLeavesOtherRefs(s: System, step: Step, id: string)
    requires RowsOk(s.runs) && step.Create? && Possible(s, step)
    requires id in s.runs && (s.runs[id].repo != step.n.repo || s.runs[id].refName != step.n.refName)
    ensures id in Apply(s, step).runs && Apply(s, step).runs[id] == s.runs[id]
  {
    CancelExistingResolves(s.runs, step.n.repo, step.n.refName, step.active, step.cancelNow);
  }

  // ------------------------------------------------------ what a create does

  /** Neither created nor dispatched after `now`. */
  ghost predicate OpenedBy(r: RunRow, now: int) {
    r.createdAt <= now && (r.dispatchedAt.Some? ==> r.dispatchedAt.value <= now)
  }

  ghost predicate OpenOn(r: RunRow, repo: string, refName: string) {
    r.repo == repo && r.refName == refName && r.resolvedAt.None?
  }

  /** Resolved as superseded, in no other column different. */
  ghost predicate SupersededAt(a: RunRow, b: RunRow, now: int) {
    b == RunRow(a.repo, a.refName, a.sha, a.pushedAtMs, a.createdAt, a.dispatchedAt, Some(now), Some(Superseded),
                a.runToken, a.traceparent)
  }

  /** The rows listed are superseded, up to the first that has a later stamp. */
  ghost predicate ActiveCancelled(runs: RunTable, ids: seq<string>, now: int, runs': RunTable, e: Option<DbError>)
    requires forall id :: id in ids ==> id in runs
  {
    && runs'.Keys == runs.Keys
    && (e == if forall id :: id in ids ==> OpenedBy(runs[id], now) then None else Some(CheckFailed))
    && (forall id :: id in runs && id !in ids ==> runs'[id] == runs[id])
    && forall id :: id in ids ==> SupersededAt(runs[id], runs'[id], now) || (e.Some? && runs'[id] == runs[id])
  }

  lemma {:induction false} CancelActiveMeans(runs: RunTable, ids: seq<string>, now: int)
    requires RowsOk(runs) && NoDup(ids) && forall id :: id in ids ==> id in runs && IsActive(runs[id])
    ensures ActiveCancelled(runs, ids, now, CancelActive(runs, ids, now).0, CancelActive(runs, ids, now).1)
  {
    if ids != [] {
      CancelActiveStep(runs, ids, now);
      assert ids == [ids[0]] + ids[1..];
      if OpenedBy(runs[ids[0]], now) {
        var runs1 := runs[ids[0] := WithResolved(runs[ids[0]], Superseded, now)];
        hide WithResolved, RunRowOk, OpenedBy, SupersededAt, CancelActive, RowsOk, ActiveCancelled;
        CancelActiveMeans(runs1, ids[1..], now);
        OneMoreCancelled(runs, ids, now, runs1, CancelActive(runs1, ids[1..], now).0,
                         CancelActive(runs1, ids[1..], now).1);
      }
    }
  }

  lemma OneMoreCancelled(runs: RunTable, ids: seq<string>, now: int, runs1: RunTable, runs': RunTable,
                         e: Option<DbError>)
    requires ids != [] && NoDup(ids) && (forall id :: id in ids ==> id in runs) && OpenedBy(runs[ids[0]], now)
    requires runs1.Keys == runs.Keys && SupersededAt(runs[ids[0]], runs1[ids[0]], now)
    requires forall id :: id in runs && id != ids[0] ==> runs1[id] == runs[id]
    requires (forall id :: id in ids[1..] ==> id in runs1) && ActiveCancelled(runs1, ids[1..], now, runs', e)
    ensures ActiveCancelled(runs, ids, now, runs', e)
  {
    hide OpenedBy, SupersededAt;
    var first, rest := ids[0], ids[1..];
    assert first !in rest;
    forall id ensures id in ids <==> id == first || id in rest {}
  }

  lemma CancelActiveStep(runs: RunTable, ids: seq<string>, now: int)
    requires RowsOk(runs) && ids != [] && ids[0] in runs && IsActive(runs[ids[0]])
    ensures var r := WithResolved(runs[ids[0]], Superseded, now);
            && SupersededAt(runs[ids[0]], r, now)
            && (OpenedBy(runs[ids[0]], now) ==> RowsOk(runs[ids[0] := r]))
            && CancelActive(runs, ids, now) ==
               if OpenedBy(runs[ids[0]], now) then CancelActive(runs[ids[0] := r], ids[1..], now)
               else (runs, Some(CheckFailed))
  {
    assert RunRowOk(runs[ids[0]]);
    hide RowsOk;
    var r := WithResolved(runs[ids[0]], Superseded, now);
    assert RunRowOk(r) <==> OpenedBy(runs[ids[0]], now);
    if RunRowOk(r) { ResolvedStep(runs, ids[0], r, now); }
  }

  /** A cancel goes through exactly when no open row of the ref has a stamp after the clock reading; then all
      of them, active or queued, are superseded, and every other row is as it was. */
  lemma CancelExistingMeans(runs: RunTable, repo: string, refName: string, active: seq<string>, now: int)
    requires RowsOk(runs) && ListsActive(runs, repo, refName, active)
    ensures var (runs', e) := CancelExisting(runs, repo, refName, active, now);
            && runs'.Keys == runs.Keys
            && (e == if forall id :: id in runs && OpenOn(runs[id], repo, refName) ==> OpenedBy(runs[id], now)
                     then None else Some(CheckFailed))
            && (forall id :: id in runs && !OpenOn(runs[id], repo, refName) ==> runs'[id] == runs[id])
            && (forall id :: id in runs && OpenOn(runs[id], repo, refName) ==>
                  SupersededAt(runs[id], runs'[id], now) || (e.Some? && runs'[id] == runs[id]))
  {
    CancelActiveMeans(runs, active, now);
    var (runs1, e) := CancelActive(runs, active, now);
    forall id | id in runs && OpenOn(runs[id], repo, refName)
      ensures id !in active ==> OnRef(runs1[id], repo, refName) && IsQueued(runs1[id])
    {
    }
    if e.None? {
      hide CancelActive;
      QueuedMeans(runs, runs1, repo, refName, active, now);
    }
  }

  /** The second statement, once the first ones have superseded the active rows. */
  lemma QueuedMeans(runs: RunTable, runs1: RunTable, repo: string, refName: string, active: seq<string>, now: int)
    requires RowsOk(runs) && ListsActive(runs, repo, refName, active) && runs1.Keys == runs.Keys
    requires forall id :: id in runs && id !in active ==> runs1[id] == runs[id]
    requires forall id :: id in active ==> SupersededAt(runs[id], runs1[id], now)
    ensures CancelQueued(runs1, repo, refName, now).Ok? <==>
              forall id :: id in runs && OpenOn(runs[id], repo, refName) && id !in active ==> OpenedBy(runs[id], now)
    ensures CancelQueued(runs1, repo, refName, now).Err? ==>
              CancelQueued(runs1, repo, refName, now).error == CheckFailed
    ensures CancelQueued(runs1, repo, refName, now).Ok? ==>
              var runs2 := CancelQueued(runs1, repo, refName, now).value;
              && runs2.Keys == runs.Keys
              && (forall id :: id in runs && !OpenOn(runs[id], repo, refName) ==> runs2[id] == runs[id])
              && forall id :: id in runs && OpenOn(runs[id], repo, refName) ==> SupersededAt(runs[id], runs2[id], now)
  {
    forall id | id in runs
      ensures OnRef(runs1[id], repo, refName) && IsQueued(runs1[id]) <==>
                OpenOn(runs[id], repo, refName) && id !in active
      ensures OpenOn(runs[id], repo, refName) && id !in active ==>
                SupersededAt(runs[id], WithSuperseded(runs1[id], now), now)
                && (RunRowOk(WithSuperseded(runs1[id], now)) <==> OpenedBy(runs[id], now))
    {
      assert RunRowOk(runs[id]);
    }
  }

  /** What a create does to the rows: every open row of its ref is superseded, the new row is queued as given,
      and every other row is as it was. It is refused exactly when some open row of the ref has a stamp after the
      clock reading or the id is taken; then nothing is inserted, but some rows may have been superseded. */
  ghost predicate Created(runs: RunTable, n: NewRun, cancelNow: int, insertNow: int, runs': RunTable,
                          e: Option<DbError>) {
    && (e == if exists id :: id in runs && OpenOn(runs[id], n.repo, n.refName) && !OpenedBy(runs[id], cancelNow)
             then Some(CheckFailed)
             else if n.id in runs then Some(PrimaryKey) else None)
    && (e.None? ==>
          && runs'.Keys == runs.Keys + {n.id}
          && runs'[n.id] == RunRow(n.repo, n.refName, n.sha, n.pushedAtMs, insertNow, None, None, None,
                                   n.runToken, None))
    && (e.Some? ==> runs'.Keys == runs.Keys)
    && (forall id :: id in runs && !OpenOn(runs[id], n.repo, n.refName) ==> runs'[id] == runs[id])
    && (forall id :: id in runs && OpenOn(runs[id], n.repo, n.refName) ==>
          SupersededAt(runs[id], runs'[id], cancelNow) || (e.Some? && runs'[id] == runs[id]))
  }

  lemma CreateMeans(runs: RunTable, n: NewRun, active: seq<string>, cancelNow: int, insertNow: int)
    requires RowsOk(runs) && ListsActive(runs, n.repo, n.refName, active)
    ensures var (runs', e) := CreateRun(runs, n, active, cancelNow, insertNow);
            Created(runs, n, cancelNow, insertNow, runs', e)
  {
    CancelExistingMeans(runs, n.repo, n.refName, active, cancelNow);
    hide CancelExisting, OpenOn, OpenedBy, SupersededAt;
  }

  /** What a served fetch hands out is what the run was created with, whatever happened since. */
  lemma FetchServesWhatWasCreated(s: System, n: NewRun, active: seq<string>, cancelNow: int, insertNow: int, h: nat,
                                  steps: seq<Step>, now: int)
    requires RowsOk(s.runs) && CreateRun(s.runs, n, active, cancelNow, insertNow).1.None?
    ensures var s' := RunSteps(Apply(s, Step.Create(n, active, cancelNow, insertNow, h)), steps);
            var r := ServeBootstrap(s'.runs, n.id, now).1;
            && n.id in s'.runs
            && (r.Ok? ==>
                  && r.value.sha == n.sha && r.value.refName == n.refName && r.value.pushedAtMs == n.pushedAtMs
                  && r.value.repo == n.repo && r.value.runId == n.id
                  && r.value.traceparent == s'.runs[n.id].traceparent)
            && (r == Err(Gone) <==> s'.runs[n.id].dispatchedAt.Some?)
            && r != Err(NotFound)
  {
    var step := Step.Create(n, active, cancelNow, insertNow, h);
    StepRows(s, step);
    var s1 := Apply(s, step);
    TraceRows(s1, steps);
    assert n.id in s1.runs && s1.runs[n.id] == FreshRow(n, insertNow);
    assert RowLater(s1.runs[n.id], RunSteps(s1, steps).runs[n.id]);
  }

  // -------------------------------------------------------------- reconcile

  /** No stamp lies after `now`. */
  ghost predicate StampsUpTo(r: RunRow, now: int) {
    && r.createdAt <= now
    && (r.dispatchedAt.Some? ==> r.dispatchedAt.value <= now)
    && (r.resolvedAt.Some? ==> r.resolvedAt.value <= now)
  }

  /** Reconciling succeeds exactly when no open row was created or dispatched after the clock
      reading. Then everything open is resolved as orphaned and resolved rows stay as they were. */
  lemma ReconcileResolvesAll(runs: RunTable, now: int)
    requires RowsOk(runs)
    ensures ReconcileOrphans(runs, now).Ok? <==>
              forall id :: id in runs && runs[id].resolvedAt.None? ==> OpenedBy(runs[id], now)
    ensures ReconcileOrphans(runs, now).Ok? ==> Reconciled(runs, ReconcileOrphans(runs, now).value, now)
  {
    forall id | id in runs && runs[id].resolvedAt.None?
      ensures RunRowOk(WithResolved(runs[id], FailedOrphaned, now)) <==> OpenedBy(runs[id], now)
    {
      assert RunRowOk(runs[id]);
    }
  }

  /** No run is unresolved, what was open is orphaned now, what was resolved is untouched. */
  ghost predicate Reconciled(runs: RunTable, runs': RunTable, now: int) {
    && runs'.Keys == runs.Keys
    && forall id :: id in runs ==>
         if runs[id].resolvedAt.Some? then runs'[id] == runs[id]
         else runs'[id] == runs[id].(dispatchedAt := Or(runs[id].dispatchedAt, now), resolvedAt := Some(now),
                                     outcome := Some(FailedOrphaned))
  }

  /** The last clock reading once a step is taken. */
  function LastReading(step: Step, now: int): int {
    match step
    case Create(_, _, _, insertNow, _) => insertNow
    case Dispatch(_, t) => t
    case Resolve(_, _, t) => t
    case FetchBootstrap(_, t) => t
    case Reconcile(t) => t
    case _ => now
  }

  /** The clock readings of a trace: none before `lo` or after `hi`, none before an earlier one. */
  ghost predicate Nondecreasing(steps: seq<Step>, lo: int, hi: int)
    decreases |steps|
  {
    if steps == [] then lo <= hi
    else
      && lo <= LastReading(steps[0], lo)
      && (steps[0].Create? ==> lo <= steps[0].cancelNow <= steps[0].insertNow)
      && Nondecreasing(steps[1..], LastReading(steps[0], lo), hi)
  }

  ghost predicate AllStampsUpTo(runs: RunTable, now: int) { forall id :: id in runs ==> StampsUpTo(runs[id], now) }

  /** A row that was not there before is freshly created. */
  lemma NewRow(s: System, step: Step, id: string)
    requires RowsOk(s.runs) && id !in s.runs && id in Apply(s, step).runs
    ensures step.Create? && Apply(s, step).runs[id] == FreshRow(step.n, step.insertNow)
  {
    hide RowsOk;
    if step.Create? { CreateRows(s.runs, step.n, step.active, step.cancelNow, step.insertNow); }
  }

  lemma RowStepStamps(a: RunRow, b: RunRow, times: set<int>, lo: int, hi: int)
    requires RowStep(a, b, times) && StampsUpTo(a, lo) && lo <= hi && forall t :: t in times ==> t <= hi
    ensures StampsUpTo(b, hi)
  {
  }

  /** A step writes no stamp beyond its last clock reading. */
  lemma StepStamps(s: System, step: Step, lo: int)
    requires RowsOk(s.runs) && AllStampsUpTo(s.runs, lo) && lo <= LastReading(step, lo)
    requires step.Create? ==> lo <= step.cancelNow <= step.insertNow
    ensures AllStampsUpTo(Apply(s, step).runs, LastReading(step, lo))
  {
    StepRows(s, step);
    var runs' := Apply(s, step).runs;
    hide RowStep, StampsUpTo, Apply, RowsOk;
    forall id | id in runs' ensures StampsUpTo(runs'[id], LastReading(step, lo)) {
      if id in s.runs {
        RowStepStamps(s.runs[id], runs'[id], Times(step), lo, LastReading(step, lo));
      } else {
        NewRow(s, step, id);
      }
    }
  }

  lemma {:induction false} TraceStamps(s: System, steps: seq<Step>, lo: int, hi: int)
    requires RowsOk(s.runs) && AllStampsUpTo(s.runs, lo) && Nondecreasing(steps, lo, hi)
    ensures RowsOk(RunSteps(s, steps).runs) && AllStampsUpTo(RunSteps(s, steps).runs, hi)
    decreases |steps|
  {
    if steps != [] {
      StepRows(s, steps[0]);
      StepStamps(s, steps[0], lo);
      TraceStamps(Apply(s, steps[0]), steps[1..], LastReading(steps[0], lo), hi);
    }
  }

  /** So a server that starts on any reachable database, under a clock that never went back,
      reconciles it. */
  lemma ReconcileAfterAnyTrace(steps: seq<Step>, lo: int, now: int)
    requires Nondecreasing(steps, lo, now)
    ensures var runs := RunSteps(EMPTY, steps).runs;
            ReconcileOrphans(runs, now).Ok? && Reconciled(runs, ReconcileOrphans(runs, now).value, now)
  {
    TraceStamps(EMPTY, steps, lo, now);
    var runs := RunSteps(EMPTY, steps).runs;
    ReconcileResolvesAll(runs, now);
    forall id | id in runs ensures OpenedBy(runs[id], now) { assert StampsUpTo(runs[id], now); }
  }

  // ------------------------------------------------------------- frozen rows

  predicate SameLifecycle(a: RunRow, b: RunRow) {
    && a.createdAt == b.createdAt && a.dispatchedAt == b.dispatchedAt
    && a.resolvedAt == b.resolvedAt && a.outcome == b.outcome
  }

  /** Exactly when a dispatch stamp still lands on a row that was resolved while queued:
      the clock has not moved past the resolution. Every later stamp is rejected. */
  lemma ResolvedRowTakesStamp(r: RunRow, outcome: Outcome, now: int)
    requires RunRowOk(r) && r.resolvedAt.Some?
    ensures RunRowOk(WithDispatched(r, now)) && !SameLifecycle(r, WithDispatched(r, now)) <==>
              r.dispatchedAt.None? && r.createdAt <= now <= r.resolvedAt.value
    ensures RunRowOk(WithResolved(r, outcome, now)) && !SameLifecycle(r, WithResolved(r, outcome, now)) <==>
              r.dispatchedAt.None? && r.createdAt <= now <= r.resolvedAt.value
  {
  }

  /** A concrete case with a clock that merely stands still: a superseded run gets dispatched. */
  lemma StillClockUnfreezes() returns (r: RunRow)
    ensures RunRowOk(r) && r.outcome == Some(Superseded) && r.dispatchedAt.None?
    ensures ServeBootstrap(map["run" := r], "run", r.resolvedAt.value).1.Ok?
  {
    r := RunRow("repo.git", "refs/heads/main", "sha", 0, 5, None, Some(7), Some(Superseded), None, None);
  }

  /** The clock readings of a trace, each later than everything before it. */
  ghost predicate Ticking(steps: seq<Step>, now: int) {
    steps == [] ||
    match steps[0]
    case Create(_, _, cancelNow, insertNow, _) => now < cancelNow < insertNow && Ticking(steps[1..], insertNow)
    case Dispatch(_, t) => now < t && Ticking(steps[1..], t)
    case Resolve(_, _, t) => now < t && Ticking(steps[1..], t)
    case FetchBootstrap(_, t) => now < t && Ticking(steps[1..], t)
    case Reconcile(t) => now < t && Ticking(steps[1..], t)
    case _ => Ticking(steps[1..], now)
  }

  /** Under a strictly increasing clock the lifecycle columns of a resolved row are frozen. */
  lemma {:induction false} ResolvedIsFrozen(s: System, steps: seq<Step>, now: int, id: string)
    requires RowsOk(s.runs) && Ticking(steps, now)
    requires id in s.runs && s.runs[id].resolvedAt.Some? && s.runs[id].resolvedAt.value <= now
    ensures id in RunSteps(s, steps).runs && SameLifecycle(s.runs[id], RunSteps(s, steps).runs[id])
    decreases |steps|
  {
    if steps != [] {
      StepRows(s, steps[0]);
      var s1 := Apply(s, steps[0]);
      var a, b := s.runs[id], s1.runs[id];
      assert RowStep(a, b, Times(steps[0]));
      forall t | t in Times(steps[0]) ensures now < t {}
      ResolvedIsFrozen(s1, steps[1..], LastReading(steps[0], now), id);
    }
  }

  // ---------------------------------------------------------------- handles

  /** A handle that believes its run resolved is right, whatever the interleaving. */
  ghost predicate HandlesOk(s: System) {
    forall h :: h in s.handles ==>
      s.handles[h].id in s.runs && (s.handles[h].resolved ==> s.runs[s.handles[h].id].resolvedAt.Some?)
  }

  lemma StepHandles(s: System, step: Step)
    requires RowsOk(s.runs) && HandlesOk(s)
    ensures HandlesOk(Apply(s, step))
  {
    StepRows(s, step);
    var s' := Apply(s, step);
    forall h | h in s'.handles
      ensures s'.handles[h].id in s'.runs && (s'.handles[h].resolved ==> s'.runs[s'.handles[h].id].resolvedAt.Some?)
    {
      if h in s.handles { assert RowStep(s.runs[s.handles[h].id], s'.runs[s.handles[h].id], Times(step)); }
    }
  }

  lemma {:induction false} ReachableHandles(s: System, steps: seq<Step>)
    requires RowsOk(s.runs) && HandlesOk(s)
    ensures HandlesOk(RunSteps(s, steps))
    decreases |steps|
  {
    if steps != [] {
      StepRows(s, steps[0]);
      StepHandles(s, steps[0]);
      ReachableHandles(Apply(s, steps[0]), steps[1..]);
    }
  }

  /** The outcomes a row may get from statements other than `resolve`. */
  predicate Bystander(o: Option<Outcome>) { o.None? || o.value in {Superseded, FailedOrphaned} }

  /** Nothing but a handle resolving its run writes an outcome other than superseded or orphaned. */
  lemma VerdictComesFromResolve(s: System, step: Step, id: string)
    requires id in s.runs && s.runs[id].outcome.None?
    requires id in Apply(s, step).runs && !Bystander(Apply(s, step).runs[id].outcome)
    ensures step.Resolve? && step.h in s.handles && s.handles[step.h].id == id && !s.handles[step.h].resolved
    ensures Apply(s, step).runs[id].outcome == Some(step.outcome)
  {
    match step
    case Create(n, active, cancelNow, insertNow, _) =>
      CancelActiveOutcome(s.runs, active, cancelNow, id);
      var (runs1, e) := CancelActive(s.runs, active, cancelNow);
      assert CancelQueued(runs1, n.repo, n.refName, cancelNow).Ok? ==>
          Bystander(CancelQueued(runs1, n.repo, n.refName, cancelNow).value[id].outcome);
    case _ =>
  }

  /** When it does: the handle does not think its run resolved, no one has resolved it, and the clock
      has not gone back behind its stamps. */
  lemma ResolveLandsIff(runs: RunTable, h: Handle, outcome: Outcome, now: int)
    requires h.id in runs && RunRowOk(runs[h.id]) && runs[h.id].outcome != Some(outcome)
    ensures h.id in ResolveRun(runs, h, outcome, now).0
    ensures ResolveRun(runs, h, outcome, now).0[h.id].outcome == Some(outcome) <==>
              !h.resolved && runs[h.id].resolvedAt.None? && OpenedBy(runs[h.id], now)
    ensures ResolveRun(runs, h, outcome, now).0[h.id].outcome in {runs[h.id].outcome, Some(outcome)}
  {
  }

  lemma {:induction false} CancelActiveOutcome(runs: RunTable, ids: seq<string>, now: int, id: string)
    requires id in runs && Bystander(runs[id].outcome)
    ensures id in CancelActive(runs, ids, now).0 && Bystander(CancelActive(runs, ids, now).0[id].outcome)
  {
    if ids != [] {
      if ids[0] !in runs {
        CancelActiveOutcome(runs, ids[1..], now, id);
      } else {
        var r := WithResolved(runs[ids[0]], Superseded, now);
        if RunRowOk(r) { CancelActiveOutcome(runs[ids[0] := r], ids[1..], now, id); }
      }
    }
  }
}
