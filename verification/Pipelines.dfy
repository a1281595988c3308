/** The pipeline compiler: dependency graph, structural validation, and the two
    views of an accepted pipeline the executor uses (job order, transitive inputs). */
module Pipelines {
  import opened Wrappers
  import opened Orders
  import opened Graphs
  import opened Registration

  type JobGraph = Graph<Job>

  datatype StructureError =
    | Cycle(cycleJobs: seq<string>, spans: seq<nat>)
    | Unreachable(jobId: string, span: nat)

  datatype CompileError =
    | Fennel
    | Definition(errors: seq<DefinitionError>)
    | Structure(diagnostics: seq<StructureError>)

  const PUSH: string := "quire/push"

  const BUILTIN_PUSH_JOB: Job := Job(PUSH, [], None, BuiltinNoop)

  // ----------------------------------------------------- dependency graph

  ghost predicate DistinctIds(jobs: seq<Job>) {
    forall i, j :: 0 <= i < j < |jobs| ==> jobs[i].id != jobs[j].id
  }

  /** Index of the last job called `name`: what the id map holds after all inserts. */
  function Resolve(jobs: seq<Job>, name: string): (r: Option<nat>)
    ensures r.Some? ==> r.value < |jobs| && jobs[r.value].id == name
    ensures r.None? ==> forall i :: 0 <= i < |jobs| ==> jobs[i].id != name
  {
    if jobs == [] then None
    else if jobs[|jobs| - 1].id == name then Some(|jobs| - 1)
    else Resolve(jobs[..|jobs| - 1], name)
  }

  /** Edges into node `v`, one per resolved name of `inputs`; other names give none. */
  function EdgesInto(jobs: seq<Job>, v: nat, inputs: seq<string>): seq<(nat, nat)> {
    if inputs == [] then []
    else
      EdgesInto(jobs, v, inputs[..|inputs| - 1]) +
      match Resolve(jobs, inputs[|inputs| - 1])
      case Some(u) => [(u, v)]
      case None => []
  }

  function EdgesUpTo(jobs: seq<Job>, n: nat): seq<(nat, nat)>
    requires n <= |jobs|
  {
    if n == 0 then [] else EdgesUpTo(jobs, n - 1) + EdgesInto(jobs, n - 1, jobs[n - 1].inputs)
  }

  function DependencyGraph(jobs: seq<Job>): JobGraph {
    Graph(jobs, EdgesUpTo(jobs, |jobs|))
  }

  lemma {:induction false} EdgesIntoMembers(jobs: seq<Job>, v: nat, inputs: seq<string>)
    ensures forall e :: e in EdgesInto(jobs, v, inputs) <==>
              e.1 == v && exists name :: name in inputs && Resolve(jobs, name) == Some(e.0)
  {
    if inputs != [] {
      var init, last := inputs[..|inputs| - 1], inputs[|inputs| - 1];
      EdgesIntoMembers(jobs, v, init);
      assert inputs == init + [last];
      forall e: (nat, nat) ensures (exists name :: name in inputs && Resolve(jobs, name) == Some(e.0)) <==>
                       || (exists name :: name in init && Resolve(jobs, name) == Some(e.0))
                       || Resolve(jobs, last) == Some(e.0)
      {
        if Resolve(jobs, last) == Some(e.0) { assert last in inputs; }
      }
    }
  }

  lemma {:induction false} EdgesUpToMembers(jobs: seq<Job>, n: nat)
    requires n <= |jobs|
    ensures forall e :: e in EdgesUpTo(jobs, n) <==>
              e.1 < n && exists name :: name in jobs[e.1].inputs && Resolve(jobs, name) == Some(e.0)
  {
    hide Resolve;
    if n > 0 {
      EdgesUpToMembers(jobs, n - 1);
      EdgesIntoMembers(jobs, n - 1, jobs[n - 1].inputs);
      assert EdgesUpTo(jobs, n) == EdgesUpTo(jobs, n - 1) + EdgesInto(jobs, n - 1, jobs[n - 1].inputs);
    }
  }

  /** An edge is a listed input that names a job; it points from that job to the lister. */
  lemma DependencyEdges(jobs: seq<Job>, u: nat, v: nat)
    requires DistinctIds(jobs)
    ensures DependencyGraph(jobs).Edge(u, v) <==>
              u < |jobs| && v < |jobs| && jobs[u].id in jobs[v].inputs
  {
    EdgesUpToMembers(jobs, |jobs|);
    if u < |jobs| && v < |jobs| && jobs[u].id in jobs[v].inputs {
      assert Resolve(jobs, jobs[u].id) == Some(u);
    }
    if DependencyGraph(jobs).Edge(u, v) {
      var name :| name in jobs[v].inputs && Resolve(jobs, name) == Some(u);
    }
  }

  lemma DependencyGraphValid(jobs: seq<Job>)
    ensures DependencyGraph(jobs).Valid()
  {
    EdgesUpToMembers(jobs, |jobs|);
  }

  /** The id map sends each name to the last job carrying it, and no other name anywhere. */
  ghost predicate Indexes(byId: map<string, nat>, jobs: seq<Job>) {
    forall name :: (if name in byId then Some(byId[name]) else None) == Resolve(jobs, name)
  }

  /** Nodes first, then one edge per resolved input, both in registration order. */
  method BuildGraph(jobs: seq<Job>) returns (graph: JobGraph, byId: map<string, nat>)
    ensures graph == DependencyGraph(jobs) && graph.Valid()
    ensures Indexes(byId, jobs)
  {
    graph := Graph([], []);
    byId := map[];
    for i := 0 to |jobs|
      invariant graph == Graph(jobs[..i], [])
      invariant Indexes(byId, jobs[..i])
    {
      IndexStep(byId, jobs[..i], jobs[i]);
      assert jobs[..i + 1] == jobs[..i] + [jobs[i]];
      var idx := |graph.nodes|;
      graph := graph.(nodes := graph.nodes + [jobs[i]]);
      byId := byId[jobs[i].id := idx];
    }
    assert jobs[..|jobs|] == jobs;
    for dependent := 0 to |jobs|
      invariant graph.nodes == jobs && graph.edges == EdgesUpTo(jobs, dependent)
    {
      var edges := InputEdges(jobs, byId, dependent, graph.nodes[dependent].inputs);
      graph := graph.(edges := graph.edges + edges);
    }
    DependencyGraphValid(jobs);
  }

  lemma IndexStep(byId: map<string, nat>, jobs: seq<Job>, job: Job)
    requires Indexes(byId, jobs)
    ensures Indexes(byId[job.id := |jobs|], jobs + [job])
  {
    assert (jobs + [job])[..|jobs|] == jobs;
    forall name
      ensures Resolve(jobs + [job], name) == if name == job.id then Some(|jobs|) else Resolve(jobs, name)
    {
    }
  }

  /** The edges `dependent`'s inputs contribute; a name missing from the map contributes none. */
  method InputEdges(jobs: seq<Job>, byId: map<string, nat>, dependent: nat, inputs: seq<string>)
    returns (edges: seq<(nat, nat)>)
    requires Indexes(byId, jobs)
    ensures edges == EdgesInto(jobs, dependent, inputs)
  {
    edges := [];
    for k := 0 to |inputs|
      invariant edges == EdgesInto(jobs, dependent, inputs[..k])
    {
      assert inputs[..k + 1] == inputs[..k] + [inputs[k]];
      assert inputs[..k + 1][..k] == inputs[..k];
      assert Resolve(jobs, inputs[k]) == if inputs[k] in byId then Some(byId[inputs[k]]) else None;
      if inputs[k] in byId {
        edges := edges + [(byId[inputs[k]], dependent)];
      }
    }
    assert inputs[..|inputs|] == inputs;
  }

  // ----------------------------------------------------------- validation

  /** What registration and `compile` guarantee of the jobs handed to the validator. */
  ghost predicate WellBuilt(g: JobGraph) {
    && DistinctIds(g.nodes)
    && g == DependencyGraph(g.nodes)
    && forall j :: j in g.nodes && j.inputs != [] ==> j.span.Some?
  }

  predicate IsTrigger(g: JobGraph, v: nat) { g.IsNode(v) && g.nodes[v].inputs == [] }

  ghost predicate HasTriggerAncestor(g: JobGraph, v: nat) {
    exists u: nat :: IsTrigger(g, u) && g.Reach(u, v)
  }

  ghost predicate AllTriggered(g: JobGraph) {
    forall v: nat {:trigger HasTriggerAncestor(g, v)} :: g.IsNode(v) ==> HasTriggerAncestor(g, v)
  }

  /** `id` names a member of the component of `v`. */
  ghost predicate MemberName(g: JobGraph, v: nat, id: string) {
    exists u: nat :: g.IsNode(u) && g.Mutual(u, v) && g.nodes[u].id == id
  }

  /** `e` lists the component of `v`: every member, sorted, each with its span. */
  ghost predicate ReportsComponent(g: JobGraph, e: StructureError, v: nat) {
    && e.Cycle?
    && Sorted(e.cycleJobs, StringLess)
    && (forall id :: id in e.cycleJobs <==> MemberName(g, v, id))
    && |e.spans| == |e.cycleJobs|
    && forall i :: 0 <= i < |e.spans| ==> SpanOf(g, e.cycleJobs[i], e.spans[i])
  }

  /** The job with this id was registered there. */
  ghost predicate SpanOf(g: JobGraph, id: string, span: nat) {
    exists u: nat :: g.IsNode(u) && g.nodes[u].id == id && g.nodes[u].span == Some(span)
  }

  function CycleJobs(e: StructureError): seq<string> { if e.Cycle? then e.cycleJobs else [] }

  ghost predicate ReportsACycle(g: JobGraph, e: StructureError) {
    exists v: nat :: g.IsNode(v) && g.OnCycle(v) && ReportsComponent(g, e, v)
  }

  ghost predicate ComponentReported(g: JobGraph, errors: seq<StructureError>, v: nat) {
    exists k :: 0 <= k < |errors| && ReportsComponent(g, errors[k], v)
  }

  ghost predicate Disjoint(errors: seq<StructureError>) {
    forall k, l, id :: 0 <= k < l < |errors| && id in CycleJobs(errors[k]) ==> id !in CycleJobs(errors[l])
  }

  /** The cycle errors are the components on a cycle: each reported, each once. */
  ghost predicate CyclesReported(g: JobGraph, cycles: seq<StructureError>) {
    && (forall e :: e in cycles ==> ReportsACycle(g, e))
    && (forall v: nat :: g.IsNode(v) && g.OnCycle(v) ==> ComponentReported(g, cycles, v))
    && Disjoint(cycles)
  }

  /** Neither a trigger, nor on a cycle, nor below a trigger. */
  ghost predicate Orphan(g: JobGraph, v: nat) {
    g.IsNode(v) && !g.OnCycle(v) && g.nodes[v].inputs != [] && !HasTriggerAncestor(g, v)
  }

  ghost function Orphans(g: JobGraph, n: nat): seq<StructureError>
    requires n <= |g.nodes|
    requires forall j :: j in g.nodes && j.inputs != [] ==> j.span.Some?
  {
    if n == 0 then []
    else Orphans(g, n - 1) +
         if Orphan(g, n - 1) then [Unreachable(g.nodes[n - 1].id, g.nodes[n - 1].span.value)] else []
  }

  lemma WellBuiltEdges(g: JobGraph)
    requires WellBuilt(g)
    ensures g.Valid()
    ensures forall u: nat, v: nat :: g.Edge(u, v) <==> g.IsNode(u) && g.IsNode(v) && g.nodes[u].id in g.nodes[v].inputs
  {
    DependencyGraphValid(g.nodes);
    forall u: nat, v: nat ensures g.Edge(u, v) <==> g.IsNode(u) && g.IsNode(v) && g.nodes[u].id in g.nodes[v].inputs {
      DependencyEdges(g.nodes, u, v);
    }
  }

  lemma OnCycleHasInputs(g: JobGraph, v: nat)
    requires WellBuilt(g) && g.IsNode(v) && g.OnCycle(v)
    ensures g.nodes[v].inputs != []
  {
    WellBuiltEdges(g);
    if exists u: nat :: u != v && g.Mutual(u, v) {
      var u: nat :| u != v && g.Mutual(u, v);
      LastEdge(g, u, v);
    }
    CycleComponent(g, v);
  }

  lemma LastEdge(g: JobGraph, u: nat, v: nat)
    requires g.Reach(u, v) && u != v
    ensures exists w: nat :: g.Edge(w, v)
  {
    var p :| g.IsPath(p, u, v);
    assert g.Edge(p[|p| - 2], v);
  }

  /** One cycle error per strongly connected component that is a cycle. */
  method CycleErrors(g: JobGraph) returns (errors: seq<StructureError>, members: set<string>)
    requires WellBuilt(g)
    ensures CyclesReported(g, errors)
    ensures forall v: nat :: g.IsNode(v) ==> (g.nodes[v].id in members <==> g.OnCycle(v))
  {
    DependencyGraphValid(g.nodes);
    var sccs := StrongComponents(g);
    errors, members := [], {};
    hide CyclesSeen, Graph.IsComponents, WellBuilt, CyclesReported;
    NothingSeen(g, sccs);
    for i := 0 to |sccs|
      invariant CyclesSeen(g, sccs, i, errors, members)
    {
      var scc := sccs[i];
      FirstIsEnough(g, sccs, i);
      if |scc| > 1 || (|scc| == 1 && g.Edge(scc[0], scc[0])) {
        var e := CycleErrorFor(g, sccs, i);
        CycleStep(g, sccs, i, errors, members, e);
        members := members + set id | id in e.cycleJobs;
        errors := errors + [e];
      } else {
        NoCycleStep(g, sccs, i, errors, members);
      }
    }
    AllCyclesSeen(g, sccs, errors, members);
  }

  /** The loop's state after `n` components. */
  ghost predicate CyclesSeen(g: JobGraph, sccs: seq<seq<nat>>, n: nat, errors: seq<StructureError>,
                             members: set<string>)
    requires n <= |sccs|
  {
    && SeenReported(g, sccs, n, errors)
    && Disjoint(errors)
    && forall v: nat :: g.IsNode(v) ==> (g.nodes[v].id in members <==> ComponentSeen(g, sccs, n, v))
  }

  lemma NothingSeen(g: JobGraph, sccs: seq<seq<nat>>)
    ensures CyclesSeen(g, sccs, 0, [], {})
  {
  }

  /** Testing a component's first node for a self-edge suffices. */
  lemma FirstIsEnough(g: JobGraph, sccs: seq<seq<nat>>, i: nat)
    requires g.Valid() && g.IsComponents(sccs) && i < |sccs|
    ensures sccs[i] != []
    ensures g.OnCycle(sccs[i][0]) <==> |sccs[i]| > 1 || g.Edge(sccs[i][0], sccs[i][0])
  {
    assert sccs[i][0] in sccs[i];
    ComponentIsCycle(g, sccs, i);
  }

  lemma CycleStep(g: JobGraph, sccs: seq<seq<nat>>, i: nat, errors: seq<StructureError>, members: set<string>,
                  e: StructureError)
    requires WellBuilt(g) && g.IsComponents(sccs) && i < |sccs| && CyclesSeen(g, sccs, i, errors, members)
    requires g.OnCycle(sccs[i][0]) && ReportsComponent(g, e, sccs[i][0])
    ensures CyclesSeen(g, sccs, i + 1, errors + [e], members + set id | id in e.cycleJobs)
  {
    DependencyGraphValid(g.nodes);
    assert sccs[i][0] in sccs[i];
    ComponentIsCycle(g, sccs, i);
    SeenStep(g, sccs, i);
    ReportStep(g, sccs, i, errors, e);
    MemberStep(g, sccs, i, e);
  }

  lemma NoCycleStep(g: JobGraph, sccs: seq<seq<nat>>, i: nat, errors: seq<StructureError>, members: set<string>)
    requires g.Valid() && g.IsComponents(sccs) && i < |sccs| && CyclesSeen(g, sccs, i, errors, members)
    requires |sccs[i]| == 1 && !g.Edge(sccs[i][0], sccs[i][0])
    ensures CyclesSeen(g, sccs, i + 1, errors, members)
  {
    ComponentIsCycle(g, sccs, i);
    SeenStep(g, sccs, i);
    forall e | e in errors ensures SeenSource(g, sccs, i + 1, e) {
      var v: nat :| ComponentSeen(g, sccs, i, v) && ReportsComponent(g, e, v);
      assert ComponentSeen(g, sccs, i + 1, v);
    }
  }

  lemma AllCyclesSeen(g: JobGraph, sccs: seq<seq<nat>>, errors: seq<StructureError>, members: set<string>)
    requires g.IsComponents(sccs) && CyclesSeen(g, sccs, |sccs|, errors, members)
    ensures CyclesReported(g, errors)
    ensures forall v: nat :: g.IsNode(v) ==> (g.nodes[v].id in members <==> g.OnCycle(v))
  {
    forall v: nat | g.IsNode(v) ensures ComponentSeen(g, sccs, |sccs|, v) <==> g.OnCycle(v) {
      var i :| 0 <= i < |sccs| && v in sccs[i];
    }
  }

  /** The errors so far are those of the cyclic components among the first `n`. */
  ghost predicate SeenReported(g: JobGraph, sccs: seq<seq<nat>>, n: nat, errors: seq<StructureError>)
    requires n <= |sccs|
  {
    && (forall e :: e in errors ==> SeenSource(g, sccs, n, e))
    && forall v: nat :: ComponentSeen(g, sccs, n, v) ==> ComponentReported(g, errors, v)
  }

  ghost predicate SeenSource(g: JobGraph, sccs: seq<seq<nat>>, n: nat, e: StructureError)
    requires n <= |sccs|
  {
    exists v: nat :: ComponentSeen(g, sccs, n, v) && ReportsComponent(g, e, v)
  }

  lemma ReportCoversStep(g: JobGraph, sccs: seq<seq<nat>>, i: nat, errors: seq<StructureError>, e: StructureError)
    requires WellBuilt(g) && g.IsComponents(sccs) && i < |sccs|
    requires g.OnCycle(sccs[i][0]) && ReportsComponent(g, e, sccs[i][0])
    requires SeenReported(g, sccs, i, errors)
    ensures SeenReported(g, sccs, i + 1, errors + [e])
  {
    var errors' := errors + [e];
    assert sccs[i][0] in sccs[i];
    assert ComponentSeen(g, sccs, i + 1, sccs[i][0]);
    SeenStep(g, sccs, i);
    forall e' | e' in errors' ensures SeenSource(g, sccs, i + 1, e') {
      if e' in errors {
        var v: nat :| ComponentSeen(g, sccs, i, v) && ReportsComponent(g, e', v);
        assert ComponentSeen(g, sccs, i + 1, v);
      }
    }
    forall v: nat | ComponentSeen(g, sccs, i + 1, v) ensures ComponentReported(g, errors', v) {
      if v in sccs[i] {
        SameComponent(g, e, sccs[i][0], v);
        assert errors'[|errors|] == e;
      } else {
        var k :| 0 <= k < |errors| && ReportsComponent(g, errors[k], v);
        assert errors'[k] == errors[k];
      }
    }
  }

  lemma ReportStep(g: JobGraph, sccs: seq<seq<nat>>, i: nat, errors: seq<StructureError>, e: StructureError)
    requires WellBuilt(g) && g.IsComponents(sccs) && i < |sccs|
    requires g.OnCycle(sccs[i][0]) && ReportsComponent(g, e, sccs[i][0])
    requires SeenReported(g, sccs, i, errors) && Disjoint(errors)
    ensures SeenReported(g, sccs, i + 1, errors + [e]) && Disjoint(errors + [e])
  {
    ReportCoversStep(g, sccs, i, errors, e);
    forall k, id | 0 <= k < |errors| && id in CycleJobs(errors[k]) ensures id !in e.cycleJobs {
      assert errors[k] in errors;
      var w: nat :| ComponentSeen(g, sccs, i, w) && ReportsComponent(g, errors[k], w);
      DifferentComponents(g, sccs, i, w, id);
    }
  }

  lemma MemberStep(g: JobGraph, sccs: seq<seq<nat>>, i: nat, e: StructureError)
    requires WellBuilt(g) && g.IsComponents(sccs) && i < |sccs| && ReportsComponent(g, e, sccs[i][0])
    ensures forall v: nat :: g.IsNode(v) ==> (g.nodes[v].id in e.cycleJobs <==> v in sccs[i])
  {
    assert sccs[i][0] in sccs[i];
    forall v: nat | g.IsNode(v) ensures MemberName(g, sccs[i][0], g.nodes[v].id) <==> v in sccs[i] {
      if MemberName(g, sccs[i][0], g.nodes[v].id) {
        var u: nat :| g.IsNode(u) && g.Mutual(u, sccs[i][0]) && g.nodes[u].id == g.nodes[v].id;
        assert u == v;
        var k :| 0 <= k < |sccs| && v in sccs[k];
      }
    }
  }

  /** `v` is on a cycle and in one of the first `n` components. */
  ghost predicate ComponentSeen(g: JobGraph, sccs: seq<seq<nat>>, n: nat, v: nat)
    requires n <= |sccs|
  {
    g.IsNode(v) && g.OnCycle(v) && exists i :: 0 <= i < n && v in sccs[i]
  }

  lemma ComponentIsCycle(g: JobGraph, sccs: seq<seq<nat>>, i: nat)
    requires g.Valid() && g.IsComponents(sccs) && i < |sccs|
    ensures forall v: nat :: v in sccs[i] ==>
              (g.OnCycle(v) <==> |sccs[i]| > 1 || g.Edge(sccs[i][0], sccs[i][0]))
  {
    forall v: nat | v in sccs[i]
      ensures g.OnCycle(v) <==> |sccs[i]| > 1 || g.Edge(sccs[i][0], sccs[i][0])
    {
      CycleComponent(g, v);
      if |sccs[i]| > 1 {
        var u := if sccs[i][0] == v then sccs[i][1] else sccs[i][0];
        assert u in sccs[i] && g.Mutual(u, v);
      } else if u: nat :| u != v && g.Mutual(u, v) {
        ReachCases(g, u, v);
        var j :| 0 <= j < |sccs| && u in sccs[j];
        assert u in sccs[i];
      }
    }
  }

  lemma SeenStep(g: JobGraph, sccs: seq<seq<nat>>, i: nat)
    requires g.IsComponents(sccs) && i < |sccs|
    ensures forall v: nat :: ComponentSeen(g, sccs, i + 1, v) <==>
              ComponentSeen(g, sccs, i, v) || (v in sccs[i] && g.OnCycle(v))
  {
  }

  lemma SharedName(g: JobGraph, v: nat, w: nat, id: string)
    requires DistinctIds(g.nodes) && MemberName(g, v, id) && MemberName(g, w, id)
    ensures g.Mutual(v, w)
  {
    var x: nat :| g.IsNode(x) && g.Mutual(x, v) && g.nodes[x].id == id;
    var y: nat :| g.IsNode(y) && g.Mutual(y, w) && g.nodes[y].id == id;
    assert x == y;
    ReachTransitive(g, v, x, w);
    ReachTransitive(g, w, x, v);
  }

  lemma DifferentComponents(g: JobGraph, sccs: seq<seq<nat>>, i: nat, w: nat, id: string)
    requires WellBuilt(g) && g.IsComponents(sccs) && i < |sccs| && ComponentSeen(g, sccs, i, w)
    requires MemberName(g, w, id)
    ensures !MemberName(g, sccs[i][0], id)
  {
    assert sccs[i][0] in sccs[i];
    if MemberName(g, sccs[i][0], id) { SharedName(g, w, sccs[i][0], id); }
  }

  lemma SameComponent(g: JobGraph, e: StructureError, v: nat, w: nat)
    requires ReportsComponent(g, e, v) && g.Mutual(v, w)
    ensures ReportsComponent(g, e, w)
  {
    forall id ensures MemberName(g, v, id) <==> MemberName(g, w, id) {
      if u: nat :| g.IsNode(u) && g.Mutual(u, v) && g.nodes[u].id == id {
        ReachTransitive(g, u, v, w);
        ReachTransitive(g, w, v, u);
      }
      if u: nat :| g.IsNode(u) && g.Mutual(u, w) && g.nodes[u].id == id {
        ReachTransitive(g, u, w, v);
        ReachTransitive(g, v, w, u);
      }
    }
  }

  /** The jobs of component `i`, sorted by id. */
  method SortedMembers(g: JobGraph, sccs: seq<seq<nat>>, i: nat) returns (members: seq<Job>)
    requires DistinctIds(g.nodes) && g.IsComponents(sccs) && i < |sccs|
    ensures forall a, b :: 0 <= a < b < |members| ==> StringLess(members[a].id, members[b].id)
    ensures forall j :: j in members <==> exists u: nat :: u in sccs[i] && g.IsNode(u) && g.nodes[u] == j
  {
    assert forall k :: 0 <= k < |sccs[i]| ==> sccs[i][k] in sccs[i];
    hide Graph.IsComponents;
    var unsorted := MembersOf(g, sccs[i]);
    StringLessStrict();
    members := SortBy(unsorted, (a: Job, b: Job) => StringLess(a.id, b.id));
    forall j ensures j in members <==> j in unsorted {
      assert j in multiset(members) <==> j in multiset(unsorted);
    }
  }

  /** The jobs of a component, as it lists them. */
  method MembersOf(g: JobGraph, scc: seq<nat>) returns (jobs: seq<Job>)
    requires DistinctIds(g.nodes) && NoDup(scc) && forall k :: 0 <= k < |scc| ==> g.IsNode(scc[k])
    ensures forall a, b :: 0 <= a < b < |jobs| ==> jobs[a].id != jobs[b].id
    ensures forall j :: j in jobs <==> exists u: nat :: u in scc && g.IsNode(u) && g.nodes[u] == j
  {
    jobs := [];
    for k := 0 to |scc|
      invariant |jobs| == k && forall j :: 0 <= j < k ==> jobs[j] == g.nodes[scc[j]]
    {
      jobs := jobs + [g.nodes[scc[k]]];
    }
    forall j ensures j in jobs <==> exists u: nat :: u in scc && g.IsNode(u) && g.nodes[u] == j {
      if j in jobs {
        var k :| 0 <= k < |jobs| && jobs[k] == j;
        assert scc[k] in scc;
      }
      if u: nat :| u in scc && g.IsNode(u) && g.nodes[u] == j {
        var k :| 0 <= k < |scc| && scc[k] == u;
        assert jobs[k] == j;
      }
    }
  }

  lemma MembersAreNamed(g: JobGraph, sccs: seq<seq<nat>>, i: nat, members: seq<Job>, id: string)
    requires g.IsComponents(sccs) && i < |sccs|
    requires forall j :: j in members <==> exists u: nat :: u in sccs[i] && g.IsNode(u) && g.nodes[u] == j
    ensures (exists j :: j in members && j.id == id) <==> MemberName(g, sccs[i][0], id)
  {
    var v := sccs[i][0];
    assert v in sccs[i];
    if j :| j in members && j.id == id {
      var u: nat :| u in sccs[i] && g.IsNode(u) && g.nodes[u] == j;
      assert g.Mutual(u, v);
    }
    if u: nat :| g.IsNode(u) && g.Mutual(u, v) && g.nodes[u].id == id {
      var k :| 0 <= k < |sccs| && u in sccs[k];
      assert g.nodes[u] in members;
    }
  }

  method IdsAndSpans(members: seq<Job>) returns (ids: seq<string>, spans: seq<nat>)
    requires forall j :: j in members ==> j.span.Some?
    ensures |ids| == |spans| == |members|
    ensures forall k :: 0 <= k < |members| ==> ids[k] == members[k].id && members[k].span == Some(spans[k])
  {
    ids, spans := [], [];
    for k := 0 to |members|
      invariant |ids| == |spans| == k
      invariant forall j :: 0 <= j < k ==> ids[j] == members[j].id && members[j].span == Some(spans[j])
    {
      assert members[k] in members;
      ids := ids + [members[k].id];
      spans := spans + [members[k].span.value];
    }
  }

  method CycleErrorFor(g: JobGraph, sccs: seq<seq<nat>>, i: nat) returns (e: StructureError)
    requires WellBuilt(g) && g.Valid() && g.IsComponents(sccs) && i < |sccs| && g.OnCycle(sccs[i][0])
    ensures ReportsComponent(g, e, sccs[i][0])
  {
    var members := SortedMembers(g, sccs, i);
    forall j | j in members ensures j.span.Some? {
      var u: nat :| u in sccs[i] && g.IsNode(u) && g.nodes[u] == j;
      assert sccs[i][0] in sccs[i];
      ComponentIsCycle(g, sccs, i);
      OnCycleHasInputs(g, u);
    }
    var ids, spans := IdsAndSpans(members);
    e := Cycle(ids, spans);
    NamesAndSpans(g, sccs, i, members, ids, spans);
  }

  lemma NamesAndSpans(g: JobGraph, sccs: seq<seq<nat>>, i: nat, members: seq<Job>, ids: seq<string>, spans: seq<nat>)
    requires g.IsComponents(sccs) && i < |sccs| && |ids| == |spans| == |members|
    requires forall j :: j in members <==> exists u: nat :: u in sccs[i] && g.IsNode(u) && g.nodes[u] == j
    requires forall k :: 0 <= k < |members| ==> ids[k] == members[k].id && members[k].span == Some(spans[k])
    ensures forall id :: id in ids <==> MemberName(g, sccs[i][0], id)
    ensures forall k :: 0 <= k < |spans| ==> SpanOf(g, ids[k], spans[k])
  {
    forall id ensures id in ids <==> MemberName(g, sccs[i][0], id) {
      MembersAreNamed(g, sccs, i, members, id);
      if j :| j in members && j.id == id {
        var k :| 0 <= k < |members| && members[k] == j;
        assert ids[k] == id;
      }
      if id in ids {
        var k :| 0 <= k < |ids| && ids[k] == id;
        assert members[k] in members;
      }
    }
    forall k | 0 <= k < |spans| ensures SpanOf(g, ids[k], spans[k]) {
      assert members[k] in members;
    }
  }

  /** Walk back from `v` until a trigger turns up or the ancestors run out. */
  method FindsTrigger(g: JobGraph, v: nat) returns (found: bool)
    requires g.Valid() && g.IsNode(v)
    ensures found <==> HasTriggerAncestor(g, v)
  {
    var bfs := new Bfs(g, v);
    while true
      invariant bfs.Valid() && fresh(bfs) && bfs.graph == g && bfs.start == v
      invariant |bfs.visited| <= |g.nodes| && forall u :: u in bfs.visited ==> !IsTrigger(g, u)
      decreases |g.nodes| - |bfs.visited|
    {
      var next := bfs.Next();
      if next.None? { break; }
      if g.nodes[next.value].inputs == [] {
        assert IsTrigger(g, next.value);
        return true;
      }
    }
    bfs.Exhausted();
    return false;
  }

  /** The reachability rule for one job. */
  method CheckReachable(g: JobGraph, v: nat, cycleMembers: set<string>) returns (errors: seq<StructureError>)
    requires g.Valid() && g.IsNode(v) && (g.nodes[v].inputs != [] ==> g.nodes[v].span.Some?)
    requires g.nodes[v].id in cycleMembers <==> g.OnCycle(v)
    ensures errors == if Orphan(g, v) then [Unreachable(g.nodes[v].id, g.nodes[v].span.value)] else []
  {
    var job := g.nodes[v];
    if job.id in cycleMembers || job.inputs == [] { return []; }
    var found := FindsTrigger(g, v);
    if found { return []; }
    return [Unreachable(job.id, job.span.value)];
  }

  /** Cycle errors first, then the unreachable jobs in registration order. */
  method ValidatePostGraph(g: JobGraph) returns (r: Result<(), seq<StructureError>>)
    requires WellBuilt(g)
    ensures r.Ok? <==> g.Acyclic() && AllTriggered(g)
    ensures r.Err? ==> exists cycles :: CyclesReported(g, cycles) && r.error == cycles + Orphans(g, |g.nodes|)
  {
    hide CyclesReported, AllTriggered, Graph.Acyclic;
    DependencyGraphValid(g.nodes);
    var errors, cycleMembers := CycleErrors(g);
    VerdictMeans(g, errors);
    var unreachable := UnreachableErrors(g, cycleMembers);
    errors := errors + unreachable;
    r := if errors == [] then Ok(()) else Err(errors);
  }

  method UnreachableErrors(g: JobGraph, cycleMembers: set<string>) returns (errors: seq<StructureError>)
    requires g.Valid() && forall j :: j in g.nodes && j.inputs != [] ==> j.span.Some?
    requires forall v: nat :: g.IsNode(v) ==> (g.nodes[v].id in cycleMembers <==> g.OnCycle(v))
    ensures errors == Orphans(g, |g.nodes|)
  {
    errors := [];
    for v := 0 to |g.nodes|
      invariant errors == Orphans(g, v)
    {
      assert g.nodes[v] in g.nodes && g.IsNode(v);
      var unreachable := CheckReachable(g, v, cycleMembers);
      errors := errors + unreachable;
    }
  }

  // --------------------------------------------- what the validator decides

  /** No cycle is reported exactly when some order puts every job after its inputs. */
  lemma NoCycleErrorIffTopoOrder(g: JobGraph, cycles: seq<StructureError>)
    requires g.Valid() && CyclesReported(g, cycles)
    ensures cycles == [] <==> exists order :: g.IsTopoOrder(order)
  {
    if cycles == [] {
      forall v: nat | g.IsNode(v) ensures !g.OnCycle(v) {
        assert !ComponentReported(g, cycles, v);
      }
      var order := AcyclicHasTopoOrder(g);
    }
    if order :| g.IsTopoOrder(order) {
      TopoOrderMeansAcyclic(g, order);
      assert cycles != [] ==> cycles[0] in cycles && ReportsACycle(g, cycles[0]);
    }
  }

  /** Every cycle error is a whole component with several jobs or a job feeding itself,
      and none of its members is also reported unreachable. */
  lemma CycleErrorIsNontrivialComponent(g: JobGraph, cycles: seq<StructureError>, e: StructureError) returns (v: nat)
    requires WellBuilt(g) && CyclesReported(g, cycles) && e in cycles
    ensures g.IsNode(v) && ReportsComponent(g, e, v)
    ensures g.nodes[v].id in g.nodes[v].inputs || exists u: nat :: u != v && g.Mutual(u, v)
    ensures forall id, line :: id in e.cycleJobs ==> Unreachable(id, line) !in Orphans(g, |g.nodes|)
  {
    DependencyGraphValid(g.nodes);
    assert ReportsACycle(g, e);
    v :| g.IsNode(v) && g.OnCycle(v) && ReportsComponent(g, e, v);
    CycleComponent(g, v);
    DependencyEdges(g.nodes, v, v);
    forall id, line | id in e.cycleJobs ensures Unreachable(id, line) !in Orphans(g, |g.nodes|) {
      MemberIsNoOrphan(g, v, id, line);
    }
  }

  lemma MemberIsNoOrphan(g: JobGraph, v: nat, id: string, line: nat)
    requires WellBuilt(g) && g.OnCycle(v) && MemberName(g, v, id)
    ensures Unreachable(id, line) !in Orphans(g, |g.nodes|)
  {
    DependencyGraphValid(g.nodes);
    var u: nat :| g.IsNode(u) && g.Mutual(u, v) && g.nodes[u].id == id;
    MutualOnCycle(g, u, v);
    OrphanMembers(g, |g.nodes|, Unreachable(id, line));
  }

  lemma MutualOnCycle(g: JobGraph, u: nat, v: nat)
    requires g.Valid() && g.Mutual(u, v) && g.OnCycle(v)
    ensures g.OnCycle(u)
  {
    if u != v {
      assert g.Mutual(v, u);
      CycleComponent(g, u);
    }
  }

  lemma {:induction false} OrphanMembers(g: JobGraph, n: nat, e: StructureError)
    requires n <= |g.nodes| && forall j :: j in g.nodes && j.inputs != [] ==> j.span.Some?
    ensures e in Orphans(g, n) <==>
              exists v: nat :: v < n && Orphan(g, v) && e == Unreachable(g.nodes[v].id, g.nodes[v].span.value)
  {
    if n > 0 {
      OrphanMembers(g, n - 1, e);
      if v: nat :| v < n && Orphan(g, v) && e == Unreachable(g.nodes[v].id, g.nodes[v].span.value) {
        if v < n - 1 { assert e in Orphans(g, n - 1); }
      }
    }
  }

  /** A non-empty input list in which no name belongs to a job. */
  ghost predicate NothingResolves(g: JobGraph, v: nat) {
    && g.IsNode(v) && g.nodes[v].inputs != []
    && forall j :: j in g.nodes ==> j.id !in g.nodes[v].inputs
  }

  /** In an acyclic graph a job is reported unreachable exactly when no trigger is
      among its ancestors; and then it, or one of its ancestors, names nothing that exists. */
  lemma UnreachableWhenAcyclic(g: JobGraph, v: nat)
    requires WellBuilt(g) && g.Acyclic() && g.IsNode(v)
    ensures Orphan(g, v) <==> !HasTriggerAncestor(g, v)
    ensures Orphan(g, v) ==> exists u: nat :: g.Reach(u, v) && NothingResolves(g, u)
  {
    WellBuiltEdges(g);
    ReachSelf(g, v);
    assert IsTrigger(g, v) ==> HasTriggerAncestor(g, v);
    if Orphan(g, v) {
      var above := set u | 0 <= u < |g.nodes| && g.Reach(u, v);
      assert v in above;
      if forall u {:trigger g.HasPredecessorIn(u, above)} :: u in above ==> g.HasPredecessorIn(u, above) {
        var c := NoSourceMeansCycle(g, above);
        assert false;
      }
      var u :| u in above && !g.HasPredecessorIn(u, above);
      SourceResolvesNothing(g, u, v, above);
    }
  }

  lemma SourceResolvesNothing(g: JobGraph, u: nat, v: nat, above: set<nat>)
    requires WellBuilt(g) && g.IsNode(u) && g.Reach(u, v) && !HasTriggerAncestor(g, v)
    requires forall w: nat :: g.IsNode(w) && g.Reach(w, v) ==> w in above
    requires !g.HasPredecessorIn(u, above)
    ensures NothingResolves(g, u)
  {
    WellBuiltEdges(g);
    assert !IsTrigger(g, u);
    forall j | j in g.nodes ensures j.id !in g.nodes[u].inputs {
      var w: nat :| w < |g.nodes| && g.nodes[w] == j;
      if j.id in g.nodes[u].inputs {
        assert g.Edge(w, u);
        EdgeReach(g, w, u);
        ReachTransitive(g, w, u, v);
      }
    }
  }

  /** So an acyclic graph in which every non-empty input list names some job has no unreachable job. */
  lemma ResolvedMeansReachable(g: JobGraph)
    requires WellBuilt(g) && g.Acyclic()
    requires forall v: nat :: g.IsNode(v) ==> !NothingResolves(g, v)
    ensures Orphans(g, |g.nodes|) == []
  {
    forall v: nat | g.IsNode(v) ensures !Orphan(g, v) {
      UnreachableWhenAcyclic(g, v);
      if u: nat :| g.Reach(u, v) && NothingResolves(g, u) { ReachCases(g, u, v); }
    }
    NoOrphans(g, |g.nodes|);
  }

  lemma {:induction false} NoOrphans(g: JobGraph, n: nat)
    requires n <= |g.nodes| && forall j :: j in g.nodes && j.inputs != [] ==> j.span.Some?
    ensures Orphans(g, n) == [] <==> forall v: nat :: v < n ==> !Orphan(g, v)
  {
    if n > 0 { NoOrphans(g, n - 1); }
  }

  // --------------------------------------------------- accepted pipelines

  /** The jobs of `order`'s nodes, in that order. */
  function JobsAt(g: JobGraph, order: seq<nat>): (r: seq<Job>)
    requires forall i :: 0 <= i < |order| ==> order[i] < |g.nodes|
    ensures |r| == |order| && forall i :: 0 <= i < |order| ==> r[i] == g.nodes[order[i]]
  {
    if order == [] then [] else [g.nodes[order[0]]] + JobsAt(g, order[1..])
  }

  /** `name` is the id of a strict ancestor of node `v`. */
  ghost predicate AncestorName(g: JobGraph, v: nat, name: string) {
    exists u: nat :: g.IsNode(u) && g.StrictReach(u, v) && g.nodes[u].id == name
  }

  datatype Pipeline = Pipeline(graph: JobGraph, byId: map<string, nat>, image: Option<string>) {
    /** Ids are unique and the id map finds every job. */
    ghost predicate Indexed() { DistinctIds(graph.nodes) && Indexes(byId, graph.nodes) }

    /** What holding a pipeline is proof of. */
    ghost predicate Sound() {
      && Indexed()
      && WellBuilt(graph)
      && graph.Acyclic()
      && AllTriggered(graph)
      && graph.nodes != [] && graph.nodes[|graph.nodes| - 1] == BUILTIN_PUSH_JOB
      && forall j :: j in graph.nodes && j.id != PUSH ==> j.inputs != [] && j.runFn.Lua?
    }

    /** Jobs in topological order; the sort cannot fail on a sound pipeline. */
    method Jobs() returns (jobs: seq<Job>, ghost order: seq<nat>)
      requires Sound()
      ensures graph.IsTopoOrder(order) && (forall i :: 0 <= i < |order| ==> order[i] < |graph.nodes|)
      ensures jobs == JobsAt(graph, order)
      ensures |jobs| == |graph.nodes| && forall j :: j in jobs <==> j in graph.nodes
      ensures forall i, j :: 0 <= i < |jobs| && 0 <= j < |jobs| && jobs[i].id in jobs[j].inputs ==> i < j
    {
      DependencyGraphValid(graph.nodes);
      var sorted := Toposort(graph);
      order := sorted.value;
      JobsAtTopo(graph, order);
      jobs := JobsAt(graph, sorted.value);
    }

    method Job(id: string) returns (r: Option<Job>)
      requires Indexed()
      ensures r.Some? ==> r.value in graph.nodes && r.value.id == id
      ensures r.None? ==> forall j :: j in graph.nodes ==> j.id != id
    {
      assert Resolve(graph.nodes, id) == if id in byId then Some(byId[id]) else None;
      r := if id in byId then Some(graph.nodes[byId[id]]) else None;
    }

    /** For each job id, the ids of its strict ancestors. */
    method TransitiveInputs() returns (result: map<string, set<string>>)
      requires Sound()
      ensures result.Keys == byId.Keys
      ensures forall id, name :: id in result ==> (name in result[id] <==> AncestorName(graph, byId[id], name))
    {
      DependencyGraphValid(graph.nodes);
      result := map[];
      var todo := byId.Keys;
      while todo != {}
        invariant todo <= byId.Keys && result.Keys == byId.Keys - todo
        invariant forall id, name :: id in result ==> (name in result[id] <==> AncestorName(graph, byId[id], name))
        decreases todo
      {
        var id :| id in todo;
        assert Resolve(graph.nodes, id) == Some(byId[id]);
        var reachable := AncestorIds(graph, byId[id]);
        result := result[id := reachable];
        todo := todo - {id};
      }
    }
  }

  function IdsOf(g: JobGraph, nodes: set<nat>): set<string> {
    set u | u in nodes && g.IsNode(u) :: g.nodes[u].id
  }

  lemma NoIds(g: JobGraph)
    ensures IdsOf(g, {}) == {}
  {
  }

  lemma IdsOfStep(g: JobGraph, nodes: set<nat>, v: nat)
    requires g.IsNode(v)
    ensures IdsOf(g, nodes + {v}) == IdsOf(g, nodes) + {g.nodes[v].id}
  {
  }

  method AncestorIds(g: JobGraph, start: nat) returns (names: set<string>)
    requires g.Valid() && g.IsNode(start) && !g.OnCycle(start)
    ensures forall name :: name in names <==> AncestorName(g, start, name)
  {
    hide AncestorName, Graph.OnCycle, IdsOf, Graph.Valid, Bfs.Valid, Graph.Reach;
    NoIds(g);
    names := {};
    ghost var above: set<nat> := {};
    var bfs := new Bfs(g, start);
    while true
      invariant bfs.Valid() && fresh(bfs) && bfs.graph == g && bfs.start == start
      invariant |bfs.visited| <= |g.nodes| && above == bfs.visited - {start} && names == IdsOf(g, above)
      decreases |g.nodes| - |bfs.visited|
    {
      var next := bfs.Next();
      if next.None? { break; }
      names, above := AddName(g, start, next.value, names, above);
    }
    bfs.Exhausted();
    AboveIsStrict(g, start, above);
  }

  /** Record one visited node, unless it is the start. */
  method AddName(g: JobGraph, start: nat, v: nat, names: set<string>, ghost above: set<nat>)
    returns (names': set<string>, ghost above': set<nat>)
    requires g.IsNode(v) && names == IdsOf(g, above)
    ensures above' == if v == start then above else above + {v}
    ensures names' == IdsOf(g, above')
  {
    if v == start { return names, above; }
    IdsOfStep(g, above, v);
    return names + {g.nodes[v].id}, above + {v};
  }

  lemma AboveIsStrict(g: JobGraph, start: nat, above: set<nat>)
    requires g.Valid() && g.IsNode(start) && !g.OnCycle(start)
    requires forall u: nat :: u in above <==> g.Reach(u, start) && u != start
    ensures forall name :: name in IdsOf(g, above) <==> AncestorName(g, start, name)
  {
    forall u: nat ensures u in above <==> g.StrictReach(u, start) {
      if u in above { ReachCases(g, u, start); }
      if g.StrictReach(u, start) { StrictReachIsReach(g, u, start); }
    }
    forall name ensures name in IdsOf(g, above) <==> AncestorName(g, start, name) {
      if name in IdsOf(g, above) {
        var u: nat :| u in above && g.IsNode(u) && g.nodes[u].id == name;
        assert g.StrictReach(u, start);
      }
    }
  }

  lemma JobsAtTopo(g: JobGraph, order: seq<nat>)
    requires WellBuilt(g) && g.IsTopoOrder(order)
    ensures |order| == |g.nodes| && forall i :: 0 <= i < |order| ==> order[i] < |g.nodes|
    ensures forall j :: j in JobsAt(g, order) <==> j in g.nodes
    ensures var jobs := JobsAt(g, order);
            forall i, j :: 0 <= i < |order| && 0 <= j < |order| && jobs[i].id in jobs[j].inputs ==> i < j
  {
    TopoOrderSize(g, order);
    var jobs := JobsAt(g, order);
    forall j ensures j in jobs <==> j in g.nodes {
      if j in g.nodes {
        var v: nat :| v < |g.nodes| && g.nodes[v] == j;
        assert g.IsNode(v);
        var i :| 0 <= i < |order| && order[i] == v;
        assert jobs[i] == j;
      }
    }
    forall i, j | 0 <= i < |order| && 0 <= j < |order| && jobs[i].id in jobs[j].inputs ensures i < j {
      DependencyEdges(g.nodes, order[i], order[j]);
    }
  }

  lemma TopoOrderSize<N>(g: Graph<N>, order: seq<nat>)
    requires g.IsTopoOrder(order)
    ensures |order| == |g.nodes| && forall i :: 0 <= i < |order| ==> order[i] < |g.nodes|
  {
    NoDupSize(order);
    assert forall i :: 0 <= i < |order| ==> order[i] in order;
    assert Elements(order) == Below(|g.nodes|);
  }

  // ---------------------------------------------------------------- compile

  ghost predicate Accepts(calls: seq<Call>) {
    var g := DependencyGraph(JobsOf(calls) + [BUILTIN_PUSH_JOB]);
    Clean(calls) && g.Acyclic() && AllTriggered(g)
  }

  /** Compile a script: registration errors first; structure errors only without them. */
  method Compile(calls: seq<Call>, scriptOk: bool) returns (r: Result<Pipeline, CompileError>)
    ensures r.Ok? <==> scriptOk && Accepts(calls)
    ensures r.Ok? ==> r.value.Sound() && r.value.graph.nodes == JobsOf(calls) + [BUILTIN_PUSH_JOB]
                      && r.value.image == FirstImage(calls, |calls|) && IsPipelineOf(calls, r.value)
    ensures scriptOk && !Clean(calls) ==> r == Err(Definition(Faults(calls, |calls|)))
    ensures scriptOk && Clean(calls) && r.Err? ==>
              var g := DependencyGraph(JobsOf(calls) + [BUILTIN_PUSH_JOB]);
              WellBuilt(g) && r.error.Structure?
              && exists cycles :: CyclesReported(g, cycles) && r.error.diagnostics == cycles + Orphans(g, |g.nodes|)
  {
    var registered := Register(calls, scriptOk);
    match registered
    case Err(ScriptFailed) => return Err(Fennel);
    case Err(Rejected(errors)) => return Err(Definition(errors));
    case Ok(Registrations(userJobs, image)) =>
      var jobs := userJobs + [BUILTIN_PUSH_JOB];
      CompiledJobs(calls);
      var graph, byId := BuildGraph(jobs);
      var verdict := ValidatePostGraph(graph);
      match verdict
      case Err(errors) => return Err(Structure(errors));
      case Ok(_) =>
        PipelineOfCalls(calls, Pipeline(graph, byId, image));
        return Ok(Pipeline(graph, byId, image));
  }

  lemma CompiledJobs(calls: seq<Call>)
    requires Clean(calls)
    ensures WellBuilt(DependencyGraph(JobsOf(calls) + [BUILTIN_PUSH_JOB]))
    ensures forall j :: j in JobsOf(calls) ==> j.id != PUSH && j.inputs != [] && j.runFn.Lua?
  {
    JobsOfClean(calls);
    assert PUSH[5] == '/';
  }

  /** No errors at all exactly when the graph is acyclic and everybody is below a trigger. */
  lemma VerdictMeans(g: JobGraph, cycles: seq<StructureError>)
    requires WellBuilt(g) && CyclesReported(g, cycles)
    ensures cycles + Orphans(g, |g.nodes|) == [] <==>
              g.Acyclic() && AllTriggered(g)
  {
    DependencyGraphValid(g.nodes);
    NoCycleErrorIffTopoOrder(g, cycles);
    NoOrphans(g, |g.nodes|);
    if order :| g.IsTopoOrder(order) { TopoOrderMeansAcyclic(g, order); }
    if g.Acyclic() {
      var order := AcyclicHasTopoOrder(g);
      forall v: nat | g.IsNode(v) ensures Orphan(g, v) <==> !HasTriggerAncestor(g, v) { UnreachableWhenAcyclic(g, v); }
    }
  }

  // ------------------------------------------- in terms of the calls alone

  /** Some job is called so: the built-in push job, or one that a call defined. */
  ghost predicate Names(calls: seq<Call>, name: string) {
    name == "quire/push" || exists k :: 0 <= k < |calls| && calls[k].JobCall? && calls[k].id == name
  }

  /** `p` has the built-in job and one job per call, each as its call gave it, and an edge for each
      listed input that names a job, from that job to the lister. */
  ghost predicate IsPipelineOf(calls: seq<Call>, p: Pipeline) {
    && (forall name :: name in p.byId <==> Names(calls, name))
    && (forall name :: name in p.byId ==> p.graph.IsNode(p.byId[name]))
    && p.graph.nodes[p.byId["quire/push"]] == Job("quire/push", [], None, BuiltinNoop)
    && (forall k :: 0 <= k < |calls| && calls[k].JobCall? ==>
          calls[k].id in p.byId
          && p.graph.nodes[p.byId[calls[k].id]] == Job(calls[k].id, calls[k].inputs, Some(calls[k].line), Lua))
    && (forall name, k :: name in p.byId && 0 <= k < |calls| && calls[k].JobCall? ==>
          (p.graph.Edge(p.byId[name], p.byId[calls[k].id]) <==> name in calls[k].inputs))
    && forall name :: name in p.byId ==> !p.graph.Edge(p.byId[name], p.byId["quire/push"])
  }

  lemma NamesAreIds(calls: seq<Call>, name: string)
    ensures Names(calls, name) <==> exists j :: j in JobsOf(calls) + [BUILTIN_PUSH_JOB] && j.id == name
  {
    var jobs := JobsOf(calls) + [BUILTIN_PUSH_JOB];
    assert BUILTIN_PUSH_JOB in jobs;
    if k :| 0 <= k < |calls| && calls[k].JobCall? && calls[k].id == name {
      JobsOfMeans(calls, calls[k].ToJob());
      assert calls[k].ToJob() in jobs;
    }
    if j :| j in jobs && j.id == name { JobsOfMeans(calls, j); }
  }

  lemma PipelineOfCalls(calls: seq<Call>, p: Pipeline)
    requires p.Indexed() && WellBuilt(p.graph) && p.graph.nodes == JobsOf(calls) + [BUILTIN_PUSH_JOB]
    ensures IsPipelineOf(calls, p)
  {
    hide JobsOf, WellBuilt, Graph.Edge, Names, Pipeline.Indexed;
    WellBuiltEdges(p.graph);
    NamedNodes(calls, p);
    forall k | 0 <= k < |calls| && calls[k].JobCall?
      ensures calls[k].id in p.byId
      ensures p.graph.nodes[p.byId[calls[k].id]] == Job(calls[k].id, calls[k].inputs, Some(calls[k].line), Lua)
    {
      NodeOfCall(calls, p, k);
    }
    NodeOfPush(calls, p);
  }

  lemma NamedNodes(calls: seq<Call>, p: Pipeline)
    requires p.Indexed() && p.graph.nodes == JobsOf(calls) + [BUILTIN_PUSH_JOB]
    ensures forall name :: name in p.byId <==> Names(calls, name)
    ensures forall name :: name in p.byId ==> p.graph.IsNode(p.byId[name]) && p.graph.nodes[p.byId[name]].id == name
  {
    forall name ensures name in p.byId <==> Names(calls, name)
                ensures name in p.byId ==> p.graph.IsNode(p.byId[name]) && p.graph.nodes[p.byId[name]].id == name
    {
      NamesAreIds(calls, name);
      hide JobsOf, Names;
      assert Resolve(p.graph.nodes, name) == if name in p.byId then Some(p.byId[name]) else None;
    }
  }

  /** In a sound index, the node of an id is the job carrying it. */
  lemma NodeIs(p: Pipeline, job: Job)
    requires p.Indexed() && job in p.graph.nodes
    ensures job.id in p.byId && p.graph.IsNode(p.byId[job.id]) && p.graph.nodes[p.byId[job.id]] == job
  {
    assert Resolve(p.graph.nodes, job.id) == if job.id in p.byId then Some(p.byId[job.id]) else None;
    var v: nat :| v < |p.graph.nodes| && p.graph.nodes[v] == job;
  }

  lemma NodeOfCall(calls: seq<Call>, p: Pipeline, k: nat)
    requires p.Indexed() && p.graph.nodes == JobsOf(calls) + [BUILTIN_PUSH_JOB] && k < |calls| && calls[k].JobCall?
    ensures calls[k].id in p.byId && p.graph.IsNode(p.byId[calls[k].id])
    ensures p.graph.nodes[p.byId[calls[k].id]] == Job(calls[k].id, calls[k].inputs, Some(calls[k].line), Lua)
  {
    var i := PositionOf(calls, p.graph.nodes, k);
    hide Pipeline.Indexed, JobsOf;
    NodeIs(p, p.graph.nodes[i]);
  }

  lemma NodeOfPush(calls: seq<Call>, p: Pipeline)
    requires p.Indexed() && p.graph.nodes == JobsOf(calls) + [BUILTIN_PUSH_JOB]
    ensures "quire/push" in p.byId && p.graph.IsNode(p.byId["quire/push"])
    ensures p.graph.nodes[p.byId["quire/push"]] == Job("quire/push", [], None, BuiltinNoop)
  {
    assert BUILTIN_PUSH_JOB in p.graph.nodes;
    hide Pipeline.Indexed, JobsOf;
    NodeIs(p, BUILTIN_PUSH_JOB);
  }

  /** Some job call defines `id` and lists `name`, which some job carries. */
  ghost predicate Lists(calls: seq<Call>, id: string, name: string) {
    && Names(calls, name)
    && exists k :: 0 <= k < |calls| && calls[k].JobCall? && calls[k].id == id && name in calls[k].inputs
  }

  /** A chain of names from `name` to `id`, each listed by the job called the next. */
  ghost predicate IsChain(calls: seq<Call>, chain: seq<string>, name: string, id: string) {
    && |chain| > 1 && chain[0] == name && chain[|chain| - 1] == id
    && forall i :: 0 <= i < |chain| - 1 ==> Lists(calls, chain[i + 1], chain[i])
  }

  lemma ListsIsEdge(calls: seq<Call>, p: Pipeline, u: nat, v: nat)
    requires p.Indexed() && WellBuilt(p.graph) && p.graph.nodes == JobsOf(calls) + [BUILTIN_PUSH_JOB]
    requires p.graph.IsNode(u) && p.graph.IsNode(v)
    ensures p.graph.Edge(u, v) <==> Lists(calls, p.graph.nodes[v].id, p.graph.nodes[u].id)
  {
    var g := p.graph;
    WellBuiltEdges(g);
    assert g.nodes[u] in g.nodes && g.nodes[v] in g.nodes;
    NamesAreIds(calls, g.nodes[u].id);
    hide JobsOf, WellBuilt, Names, Graph.Edge;
    if g.nodes[u].id in g.nodes[v].inputs {
      assert g.nodes[v] in JobsOf(calls);
      JobsOfMeans(calls, g.nodes[v]);
    }
    if k :| 0 <= k < |calls| && calls[k].JobCall? && calls[k].id == g.nodes[v].id && g.nodes[u].id in calls[k].inputs {
      var i := PositionOf(calls, g.nodes, k);
      assert i == v;
    }
  }

  /** A job's strict ancestors are the names from which such a chain leads to it. */
  lemma AncestorsAreChains(calls: seq<Call>, p: Pipeline, id: string, name: string)
    requires p.Indexed() && WellBuilt(p.graph) && p.graph.nodes == JobsOf(calls) + [BUILTIN_PUSH_JOB]
    requires id in p.byId
    ensures AncestorName(p.graph, p.byId[id], name) <==> exists chain :: IsChain(calls, chain, name, id)
  {
    NamedNodes(calls, p);
    DependencyGraphValid(p.graph.nodes);
    var g, v := p.graph, p.byId[id];
    if AncestorName(g, v, name) {
      var u: nat :| g.IsNode(u) && g.StrictReach(u, v) && g.nodes[u].id == name;
      var w :| g.Edge(u, w) && g.Reach(w, v);
      var path :| g.IsPath(path, w, v);
      var chain := PathIsChain(calls, p, [u] + path, u, v);
    }
    if chain :| IsChain(calls, chain, name, id) {
      var u := ChainIsReach(calls, p, chain, name, id);
    }
  }

  lemma PathIsChain(calls: seq<Call>, p: Pipeline, path: seq<nat>, u: nat, v: nat) returns (chain: seq<string>)
    requires p.Indexed() && WellBuilt(p.graph) && p.graph.nodes == JobsOf(calls) + [BUILTIN_PUSH_JOB]
    requires p.graph.IsPath(path, u, v) && |path| > 1
    ensures IsChain(calls, chain, p.graph.nodes[u].id, p.graph.nodes[v].id)
  {
    hide JobsOf, WellBuilt, Lists, Pipeline.Indexed;
    chain := seq(|path|, i requires 0 <= i < |path| => p.graph.nodes[path[i]].id);
    forall i | 0 <= i < |chain| - 1 ensures Lists(calls, chain[i + 1], chain[i]) {
      ListsIsEdge(calls, p, path[i], path[i + 1]);
    }
  }

  lemma {:induction false} ChainIsReach(calls: seq<Call>, p: Pipeline, chain: seq<string>, name: string, id: string)
    returns (u: nat)
    requires p.Indexed() && WellBuilt(p.graph) && p.graph.nodes == JobsOf(calls) + [BUILTIN_PUSH_JOB]
    requires IsChain(calls, chain, name, id) && id in p.byId
    ensures name in p.byId && u == p.byId[name] && p.graph.IsNode(u) && p.graph.nodes[u].id == name
    ensures p.graph.IsNode(p.byId[id]) && p.graph.StrictReach(u, p.byId[id])
    decreases |chain|
  {
    NamedNodes(calls, p);
    DependencyGraphValid(p.graph.nodes);
    var next := chain[1];
    assert Lists(calls, chain[1], chain[0]);
    u := p.byId[name];
    assert Names(calls, next);
    ListsIsEdge(calls, p, u, p.byId[next]);
    hide JobsOf, WellBuilt, Lists, Pipeline.Indexed, Names;
    if |chain| == 2 {
      EdgeIsStrictReach(p.graph, u, p.byId[next]);
    } else {
      var rest := chain[1..];
      forall i | 0 <= i < |rest| - 1 ensures Lists(calls, rest[i + 1], rest[i]) {
        assert Lists(calls, chain[i + 1 + 1], chain[i + 1]);
      }
      var w := ChainIsReach(calls, p, rest, next, id);
      EdgeThenStrictReach(p.graph, u, w, p.byId[id]);
    }
  }

  /** Some numbering of the jobs grows along every listed input that names a job. */
  ghost predicate Ranks(calls: seq<Call>, rank: map<string, int>) {
    && (forall name :: Names(calls, name) ==> name in rank)
    && forall k, name :: 0 <= k < |calls| && calls[k].JobCall? && name in calls[k].inputs && Names(calls, name) ==>
         calls[k].id in rank && rank[name] < rank[calls[k].id]
  }

  /** Which scripts compile, said of the calls alone: nothing for the per-call rules to complain about, the jobs
      can be numbered so that inputs come first, and every job lists at least one input that exists. */
  lemma AcceptsIff(calls: seq<Call>)
    ensures Accepts(calls) <==>
              && Clean(calls)
              && (exists rank :: Ranks(calls, rank))
              && forall k :: 0 <= k < |calls| && calls[k].JobCall? ==>
                   exists name :: name in calls[k].inputs && Names(calls, name)
  {
    if Clean(calls) {
      CompiledJobs(calls);
      var g := DependencyGraph(JobsOf(calls) + [BUILTIN_PUSH_JOB]);
      if Accepts(calls) {
        var rank := RankOf(calls, g);
        forall k | 0 <= k < |calls| && calls[k].JobCall?
          ensures exists name :: name in calls[k].inputs && Names(calls, name)
        {
          var name := NamedInput(calls, g, k);
        }
      } else if rank :| Ranks(calls, rank) {
        RankedIsAcyclic(calls, g, rank);
        if forall k :: 0 <= k < |calls| && calls[k].JobCall? ==>
             exists name :: name in calls[k].inputs && Names(calls, name)
        {
          EverybodyTriggered(calls, g);
        }
      }
    }
  }

  lemma RankOf(calls: seq<Call>, g: JobGraph) returns (rank: map<string, int>)
    requires WellBuilt(g) && g.nodes == JobsOf(calls) + [BUILTIN_PUSH_JOB] && g.Acyclic()
    ensures Ranks(calls, rank)
  {
    DependencyGraphValid(g.nodes);
    var order := AcyclicHasTopoOrder(g);
    JobsAtTopo(g, order);
    OrderedIdsDiffer(g, order);
    var jobs := JobsAt(g, order);
    forall i, j | 0 <= i < |jobs| && 0 <= j < |jobs| && jobs[i].id in jobs[j].inputs ensures i < j {
      DependencyEdges(g.nodes, order[i], order[j]);
    }
    hide WellBuilt, JobsOf, Graph.Acyclic, Graph.IsTopoOrder;
    rank := PositionsRank(calls, jobs);
  }

  lemma PositionsRank(calls: seq<Call>, jobs: seq<Job>) returns (rank: map<string, int>)
    requires forall j :: j in jobs <==> j in JobsOf(calls) + [BUILTIN_PUSH_JOB]
    requires forall i, j :: 0 <= i < |jobs| && 0 <= j < |jobs| && jobs[i].id == jobs[j].id ==> i == j
    requires forall i, j :: 0 <= i < |jobs| && 0 <= j < |jobs| && jobs[i].id in jobs[j].inputs ==> i < j
    ensures Ranks(calls, rank)
  {
    hide JobsOf, Names;
    rank := map i | 0 <= i < |jobs| :: jobs[i].id := i;
    forall name | Names(calls, name) ensures exists i :: 0 <= i < |jobs| && jobs[i].id == name {
      NamesAreIds(calls, name);
      var j :| j in JobsOf(calls) + [BUILTIN_PUSH_JOB] && j.id == name;
      assert j in jobs;
    }
    forall k, name | 0 <= k < |calls| && calls[k].JobCall? && name in calls[k].inputs && Names(calls, name)
      ensures calls[k].id in rank && rank[name] < rank[calls[k].id]
    {
      var h :| 0 <= h < |jobs| && jobs[h].id == name;
      var i := PositionOf(calls, jobs, k);
      assert jobs[h].id in jobs[i].inputs;
    }
  }

  lemma PositionOf(calls: seq<Call>, jobs: seq<Job>, k: nat) returns (i: nat)
    requires k < |calls| && calls[k].JobCall?
    requires forall j :: j in jobs <==> j in JobsOf(calls) + [BUILTIN_PUSH_JOB]
    ensures i < |jobs| && jobs[i].id == calls[k].id && jobs[i].inputs == calls[k].inputs
    ensures jobs[i] == Job(calls[k].id, calls[k].inputs, Some(calls[k].line), Lua)
  {
    var job := Job(calls[k].id, calls[k].inputs, Some(calls[k].line), Lua);
    JobsOfMeans(calls, job);
    hide JobsOf;
    assert job in JobsOf(calls) + [BUILTIN_PUSH_JOB];
    i :| 0 <= i < |jobs| && jobs[i] == job;
  }

  lemma OrderedIdsDiffer(g: JobGraph, order: seq<nat>)
    requires DistinctIds(g.nodes) && NoDup(order) && forall i :: 0 <= i < |order| ==> order[i] < |g.nodes|
    ensures var jobs := JobsAt(g, order);
            forall i, j :: 0 <= i < |jobs| && 0 <= j < |jobs| && jobs[i].id == jobs[j].id ==> i == j
  {
  }

  /** In an accepted script every job call lists some job. */
  lemma NamedInput(calls: seq<Call>, g: JobGraph, k: nat) returns (name: string)
    requires Clean(calls) && WellBuilt(g) && g.nodes == JobsOf(calls) + [BUILTIN_PUSH_JOB] && AllTriggered(g)
    requires k < |calls| && calls[k].JobCall?
    ensures name in calls[k].inputs && Names(calls, name)
  {
    WellBuiltEdges(g);
    assert calls[k].WellFormed();
    JobsOfMeans(calls, calls[k].ToJob());
    assert calls[k].ToJob() in g.nodes;
    var v: nat :| v < |g.nodes| && g.nodes[v] == calls[k].ToJob();
    assert HasTriggerAncestor(g, v);
    var u: nat :| IsTrigger(g, u) && g.Reach(u, v);
    LastEdge(g, u, v);
    var w: nat :| g.Edge(w, v);
    name := g.nodes[w].id;
    assert g.nodes[w] in g.nodes;
    NamesAreIds(calls, name);
  }

  lemma RankedIsAcyclic(calls: seq<Call>, g: JobGraph, rank: map<string, int>)
    requires WellBuilt(g) && g.nodes == JobsOf(calls) + [BUILTIN_PUSH_JOB] && Ranks(calls, rank)
    ensures g.Acyclic()
  {
    WellBuiltEdges(g);
    var height := (v: nat) => if g.IsNode(v) && g.nodes[v].id in rank then rank[g.nodes[v].id] else 0;
    forall u: nat, v: nat | g.Edge(u, v) ensures height(u) < height(v) {
      assert g.nodes[u] in g.nodes && g.nodes[v] in g.nodes;
      NamesAreIds(calls, g.nodes[u].id);
      assert g.nodes[v] in JobsOf(calls);
      JobsOfMeans(calls, g.nodes[v]);
    }
    ClimbingMeansAcyclic(g, height);
  }

  lemma EverybodyTriggered(calls: seq<Call>, g: JobGraph)
    requires WellBuilt(g) && g.nodes == JobsOf(calls) + [BUILTIN_PUSH_JOB] && g.Acyclic()
    requires forall k :: 0 <= k < |calls| && calls[k].JobCall? ==>
               exists name :: name in calls[k].inputs && Names(calls, name)
    ensures AllTriggered(g)
  {
    hide WellBuilt, JobsOf, Graph.Acyclic, Names;
    forall v: nat | g.IsNode(v) ensures HasTriggerAncestor(g, v) {
      UnreachableWhenAcyclic(g, v);
      if u: nat :| g.Reach(u, v) && NothingResolves(g, u) { SomethingResolves(calls, g, u); }
    }
  }

  lemma SomethingResolves(calls: seq<Call>, g: JobGraph, u: nat)
    requires g.nodes == JobsOf(calls) + [BUILTIN_PUSH_JOB]
    requires forall k :: 0 <= k < |calls| && calls[k].JobCall? ==>
               exists name :: name in calls[k].inputs && Names(calls, name)
    ensures !NothingResolves(g, u)
  {
    if NothingResolves(g, u) {
      assert g.nodes[u] in JobsOf(calls);
      JobsOfMeans(calls, g.nodes[u]);
      hide JobsOf, Names;
      var k :| 0 <= k < |calls| && calls[k].JobCall? && calls[k].inputs == g.nodes[u].inputs;
      var name :| name in calls[k].inputs && Names(calls, name);
      NamesAreIds(calls, name);
    }
  }

  /** Off every cycle, with inputs, and below no job that has none. */
  lemma OrphanMeans(g: JobGraph, v: nat)
    requires g.IsNode(v)
    ensures Orphan(g, v) <==>
              && !g.StrictReach(v, v) && g.nodes[v].inputs != []
              && forall u: nat :: u < |g.nodes| && g.Reach(u, v) ==> g.nodes[u].inputs != []
  {
    hide Graph.Reach, Graph.StrictReach;
    if u: nat :| u < |g.nodes| && g.Reach(u, v) && g.nodes[u].inputs == [] { assert IsTrigger(g, u); }
  }

  /** The unreachable jobs are reported one by one in registration order, each with its own id and line. */
  lemma {:induction false} OrphansListed(g: JobGraph, n: nat) returns (at: seq<nat>)
    requires n <= |g.nodes| && forall j :: j in g.nodes && j.inputs != [] ==> j.span.Some?
    ensures |at| == |Orphans(g, n)|
    ensures forall i, j :: 0 <= i < j < |at| ==> at[i] < at[j]
    ensures forall i :: 0 <= i < |at| ==>
              at[i] < n && g.nodes[at[i]].span.Some?
              && Orphans(g, n)[i] == Unreachable(g.nodes[at[i]].id, g.nodes[at[i]].span.value)
    ensures forall v: nat :: v in at <==> v < n && Orphan(g, v)
  {
    if n == 0 { return []; }
    at := OrphansListed(g, n - 1);
    assert g.nodes[n - 1] in g.nodes;
    assert Orphan(g, n - 1) ==> g.nodes[n - 1].inputs != [];
    hide Orphan;
    if Orphan(g, n - 1) { at := at + [n - 1]; }
  }

  /** A name nobody registered is no error by itself: this script compiles. */
  lemma UnknownInputIsAccepted(line: nat)
    ensures Accepts([JobCall("build", [PUSH, "typo"], line)])
  {
    var calls := [JobCall("build", [PUSH, "typo"], line)];
    assert JobsOf(calls[1..]) == [];
    var jobs := JobsOf(calls) + [BUILTIN_PUSH_JOB];
    assert jobs == [calls[0].ToJob(), BUILTIN_PUSH_JOB];
    var g := DependencyGraph(jobs);
    assert "build"[0] != PUSH[0] && "build" !in [PUSH, "typo"] by { assert "build"[0] != "typo"[0]; }
    CompiledJobs(calls);
    WellBuiltEdges(g);
    assert g.IsTopoOrder([1, 0]);
    TopoOrderMeansAcyclic(g, [1, 0]);
    assert g.Edge(1, 0);
    EdgeReach(g, 1, 0);
    ReachSelf(g, 1);
    assert IsTrigger(g, 1);
  }
}
