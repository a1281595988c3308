/** The directed multigraph the pipeline compiler builds, with reachability as a
    property of paths, and the three traversals it borrows from its graph library
    (breadth-first search over incoming edges, strongly connected components and
    topological sort), each proved against that path-based reading. */
module Graphs {
  import opened Wrappers
  import opened Orders

  /** Nodes are indices into `nodes`; an edge `(u, v)` runs from dependency to dependent. */
  datatype Graph<N> = Graph(nodes: seq<N>, edges: seq<(nat, nat)>) {
    predicate IsNode(v: nat) { v < |nodes| }

    ghost predicate Valid() {
      forall e :: e in edges ==> IsNode(e.0) && IsNode(e.1)
    }

    predicate Edge(u: nat, v: nat) { (u, v) in edges }

    ghost predicate HasPredecessorIn(v: nat, s: set<nat>) { exists u :: u in s && Edge(u, v) }

    /** Some predecessor of `v` is not in `placed`. */
    ghost predicate Blocked(v: nat, placed: seq<nat>) { exists u :: u !in placed && Edge(u, v) }

    ghost predicate IsPath(p: seq<nat>, u: nat, v: nat) {
      && |p| > 0 && p[0] == u && p[|p| - 1] == v
      && (forall i :: 0 <= i < |p| ==> IsNode(p[i]))
      && forall i :: 0 <= i < |p| - 1 ==> Edge(p[i], p[i + 1])
    }

    ghost predicate Reach(u: nat, v: nat) { exists p :: IsPath(p, u, v) }

    /** Reachable along at least one edge. */
    ghost predicate StrictReach(u: nat, v: nat) { exists w :: Edge(u, w) && Reach(w, v) }

    ghost predicate OnCycle(v: nat) { StrictReach(v, v) }

    ghost predicate Acyclic() { forall v: nat {:trigger OnCycle(v)} :: IsNode(v) ==> !OnCycle(v) }

    /** Membership in the same strongly connected component. */
    ghost predicate Mutual(u: nat, v: nat) { Reach(u, v) && Reach(v, u) }

    ghost predicate IsTopoOrder(order: seq<nat>) {
      && NoDup(order)
      && (forall v :: v in order <==> IsNode(v))
      && forall i, j :: 0 <= i < |order| && 0 <= j < |order| && Edge(order[i], order[j]) ==> i < j
    }

    /** The components partition the nodes, and two nodes share one exactly when mutually reachable. */
    ghost predicate IsComponents(sccs: seq<seq<nat>>) {
      && (forall i :: 0 <= i < |sccs| ==> sccs[i] != [] && NoDup(sccs[i]))
      && (forall i, v :: 0 <= i < |sccs| && v in sccs[i] ==> IsNode(v))
      && (forall v :: IsNode(v) ==> exists i :: 0 <= i < |sccs| && v in sccs[i])
      && forall i, j, u, v :: 0 <= i < |sccs| && 0 <= j < |sccs| && u in sccs[i] && v in sccs[j] ==>
           (i == j <==> Mutual(u, v))
    }
  }

  // ---------------------------------------------------------------- paths

  lemma ReachSelf<N>(g: Graph<N>, v: nat)
    requires g.IsNode(v)
    ensures g.Reach(v, v)
  {
    assert g.IsPath([v], v, v);
  }

  lemma ReachTransitive<N>(g: Graph<N>, u: nat, v: nat, w: nat)
    requires g.Reach(u, v) && g.Reach(v, w)
    ensures g.Reach(u, w)
  {
    var p :| g.IsPath(p, u, v);
    var q :| g.IsPath(q, v, w);
    assert g.IsPath(p + q[1..], u, w);
  }

  lemma EdgeReach<N>(g: Graph<N>, u: nat, v: nat)
    requires g.Valid() && g.Edge(u, v)
    ensures g.Reach(u, v)
  {
    assert g.IsPath([u, v], u, v);
  }

  lemma StrictReachIsReach<N>(g: Graph<N>, u: nat, v: nat)
    requires g.Valid() && g.StrictReach(u, v)
    ensures g.Reach(u, v)
  {
    var w :| g.Edge(u, w) && g.Reach(w, v);
    EdgeReach(g, u, w);
    ReachTransitive(g, u, w, v);
  }

  /** A path is empty or starts with an edge. */
  lemma ReachCases<N>(g: Graph<N>, u: nat, v: nat)
    requires g.Reach(u, v)
    ensures g.IsNode(u) && g.IsNode(v)
    ensures u == v || g.StrictReach(u, v)
  {
    var p :| g.IsPath(p, u, v);
    if |p| > 1 {
      assert g.IsPath(p[1..], p[1], v);
      assert g.Edge(u, p[1]) && g.Reach(p[1], v);
    }
  }

  /** A set closed under predecessors and holding `v` holds every ancestor of `v`. */
  lemma {:induction false} ClosedHoldsAncestors<N>(g: Graph<N>, s: set<nat>, p: seq<nat>, u: nat, v: nat)
    requires g.IsPath(p, u, v) && v in s
    requires forall x, y :: g.Edge(x, y) && y in s ==> x in s
    ensures u in s
    decreases |p|
  {
    if |p| > 1 {
      assert g.IsPath(p[1..], p[1], v);
      ClosedHoldsAncestors(g, s, p[1..], p[1], v);
      assert g.Edge(p[0], p[1]);
    }
  }

  /** The same for a set closed under successors. */
  lemma {:induction false} ClosedHoldsDescendants<N>(g: Graph<N>, s: set<nat>, p: seq<nat>, u: nat, v: nat)
    requires g.IsPath(p, u, v) && u in s
    requires forall x, y :: g.Edge(x, y) && x in s ==> y in s
    ensures v in s
    decreases |p|
  {
    if |p| > 1 {
      assert g.IsPath(p[1..], p[1], v);
      assert g.Edge(p[0], p[1]);
      ClosedHoldsDescendants(g, s, p[1..], p[1], v);
    }
  }

  /** A component with two members, or a self-edge, is exactly a component on a cycle. */
  lemma CycleComponent<N>(g: Graph<N>, v: nat)
    requires g.Valid() && g.IsNode(v)
    ensures g.OnCycle(v) <==> g.Edge(v, v) || exists u :: u != v && g.Mutual(u, v)
  {
    if g.OnCycle(v) {
      var w :| g.Edge(v, w) && g.Reach(w, v);
      EdgeReach(g, v, w);
      assert g.Mutual(w, v);
    }
    if g.Edge(v, v) { ReachSelf(g, v); }
    if u :| u != v && g.Mutual(u, v) {
      ReachCases(g, v, u);
      var w :| g.Edge(v, w) && g.Reach(w, u);
      ReachTransitive(g, w, u, v);
    }
  }

  // ------------------------------------------------- order and acyclicity

  lemma EdgeThenStrictReach<N>(g: Graph<N>, w: nat, u: nat, v: nat)
    requires g.Valid() && g.Edge(w, u) && g.StrictReach(u, v)
    ensures g.StrictReach(w, v)
  {
    StrictReachIsReach(g, u, v);
  }

  lemma EdgeIsStrictReach<N>(g: Graph<N>, u: nat, v: nat)
    requires g.Valid() && g.Edge(u, v)
    ensures g.StrictReach(u, v)
  {
    ReachSelf(g, v);
  }

  /** In a finite non-empty set where everybody has a predecessor inside the set, somebody is on a cycle. */
  lemma {:induction false} NoSourceMeansCycle<N>(g: Graph<N>, s: set<nat>) returns (c: nat)
    requires g.Valid() && s != {}
    requires forall v {:trigger g.HasPredecessorIn(v, s)} :: v in s ==> g.HasPredecessorIn(v, s)
    ensures c in s && g.OnCycle(c)
    decreases |s|
  {
    var v :| v in s;
    var above := set u | u in s && g.StrictReach(u, v);
    if v in above { return v; }
    AboveHasPredecessors(g, s, v, above);
    hide Graph.StrictReach, Graph.HasPredecessorIn, Graph.Valid;
    SubsetSize(above, s - {v});
    c := NoSourceMeansCycle(g, above);
  }

  lemma AboveHasPredecessors<N>(g: Graph<N>, s: set<nat>, v: nat, above: set<nat>)
    requires g.Valid() && v in s && above == set u | u in s && g.StrictReach(u, v)
    requires forall u {:trigger g.HasPredecessorIn(u, s)} :: u in s ==> g.HasPredecessorIn(u, s)
    ensures above != {}
    ensures forall u {:trigger g.HasPredecessorIn(u, above)} :: u in above ==> g.HasPredecessorIn(u, above)
  {
    var u0 := PredecessorIn(g, v, s);
    EdgeIsStrictReach(g, u0, v);
    assert u0 in above;
    forall u | u in above ensures g.HasPredecessorIn(u, above) {
      var w := PredecessorIn(g, u, s);
      EdgeThenStrictReach(g, w, u, v);
    }
  }

  lemma PredecessorIn<N>(g: Graph<N>, v: nat, s: set<nat>) returns (u: nat)
    requires g.HasPredecessorIn(v, s)
    ensures u in s && g.Edge(u, v)
  {
    u :| u in s && g.Edge(u, v);
  }

  lemma SubsetSize(a: set<nat>, b: set<nat>)
    requires a <= b
    ensures |a| <= |b|
  {
    assert b == a + (b - a);
  }

  lemma {:induction false} TopoPathsGoForward<N>(g: Graph<N>, order: seq<nat>, p: seq<nat>, i: nat, j: nat)
    requires g.IsTopoOrder(order) && i < |order| && j < |order|
    requires g.IsPath(p, order[i], order[j])
    ensures i <= j && (|p| > 1 ==> i < j)
    decreases |p|
  {
    if |p| == 1 {
      assert order[i] == order[j];
    } else {
      assert g.IsNode(p[1]);
      var k :| 0 <= k < |order| && order[k] == p[1];
      assert g.Edge(p[0], p[1]);
      assert g.IsPath(p[1..], order[k], order[j]);
      TopoPathsGoForward(g, order, p[1..], k, j);
    }
  }

  lemma StrictAncestorsComeFirst<N>(g: Graph<N>, order: seq<nat>, i: nat, j: nat)
    requires g.Valid() && g.IsTopoOrder(order) && i < |order| && j < |order|
    requires g.StrictReach(order[i], order[j])
    ensures i < j
  {
    var w :| g.Edge(order[i], w) && g.Reach(w, order[j]);
    var p :| g.IsPath(p, w, order[j]);
    assert g.IsPath([order[i]] + p, order[i], order[j]);
    TopoPathsGoForward(g, order, [order[i]] + p, i, j);
  }

  lemma TopoOrderMeansAcyclic<N>(g: Graph<N>, order: seq<nat>)
    requires g.Valid() && g.IsTopoOrder(order)
    ensures g.Acyclic()
  {
    forall v | g.IsNode(v) ensures !g.OnCycle(v) {
      var i :| 0 <= i < |order| && order[i] == v;
      if g.OnCycle(v) { StrictAncestorsComeFirst(g, order, i, i); }
    }
  }

  /** A graph whose edges all climb has no cycle. */
  lemma ClimbingMeansAcyclic<N>(g: Graph<N>, height: nat -> int)
    requires g.Valid() && forall u: nat, v: nat :: g.Edge(u, v) ==> height(u) < height(v)
    ensures g.Acyclic()
  {
    forall v: nat | g.IsNode(v) ensures !g.OnCycle(v) {
      if g.OnCycle(v) {
        var w :| g.Edge(v, w) && g.Reach(w, v);
        var p :| g.IsPath(p, w, v);
        PathsClimb(g, height, p, w, v);
      }
    }
  }

  lemma {:induction false} PathsClimb<N>(g: Graph<N>, height: nat -> int, p: seq<nat>, u: nat, v: nat)
    requires g.IsPath(p, u, v) && forall x: nat, y: nat :: g.Edge(x, y) ==> height(x) < height(y)
    ensures height(u) <= height(v)
    decreases |p|
  {
    if |p| > 1 {
      assert g.Edge(p[0], p[1]);
      assert g.IsPath(p[1..], p[1], v);
      PathsClimb(g, height, p[1..], p[1], v);
    }
  }

  // ---------------------------------------------------------- traversals

  /** Sources of the edges into `v`, in edge order: the neighbours of `v` in the reversed graph. */
  function Predecessors(edges: seq<(nat, nat)>, v: nat): (r: seq<nat>)
    ensures forall u :: u in r <==> (u, v) in edges
  {
    if edges == [] then []
    else (if edges[0].1 == v then [edges[0].0] else []) + Predecessors(edges[1..], v)
  }

  ghost function Below(n: nat): (s: set<nat>)
    ensures forall v: nat :: v in s <==> v < n
    ensures |s| == n
  {
    if n == 0 then {} else Below(n - 1) + {n - 1}
  }

  lemma BoundedSet(s: set<nat>, n: nat)
    requires forall v :: v in s ==> v < n
    ensures |s| <= n
  {
    SubsetSize(s, Below(n));
  }

  /** A breadth-first cursor over incoming edges: each `Next` yields one new
      ancestor of `start`, and it runs dry exactly when all have been yielded. */
  class Bfs<N> {
    const graph: Graph<N>
    const start: nat
    var discovered: set<nat>
    var queue: seq<nat>
    ghost var visited: set<nat>

    ghost predicate Valid()
      reads this
    {
      && graph.Valid() && graph.IsNode(start)
      && start in discovered
      && NoDup(queue)
      && discovered == visited + (set v | v in queue)
      && (forall v :: v in visited ==> v !in queue)
      && (forall v :: v in discovered ==> graph.Reach(v, start))
      && forall u, v :: graph.Edge(u, v) && v in visited ==> u in discovered
    }

    constructor (g: Graph<N>, start: nat)
      requires g.Valid() && g.IsNode(start)
      ensures Valid() && visited == {} && graph == g && this.start == start
    {
      graph := g;
      this.start := start;
      discovered := {start};
      queue := [start];
      visited := {};
      ReachSelf(g, start);
    }

    /** Once the queue is empty, exactly the ancestors have been yielded. */
    lemma Exhausted()
      requires Valid() && queue == []
      ensures forall u: nat :: u in visited <==> graph.Reach(u, start)
    {
      forall u: nat | graph.Reach(u, start) ensures u in visited {
        var p :| graph.IsPath(p, u, start);
        ClosedHoldsAncestors(graph, visited, p, u, start);
      }
    }

    method Next() returns (r: Option<nat>)
      requires Valid()
      modifies this
      ensures Valid()
      ensures r.Some? ==> r.value !in old(visited) && visited == old(visited) + {r.value}
                          && graph.IsNode(r.value) && graph.Reach(r.value, start)
                          && |visited| <= |graph.nodes|
      ensures r.None? ==> visited == old(visited) && queue == []
    {
      if queue == [] { return None; }
      var node := queue[0];
      ReachCases(graph, node, start);
      queue := queue[1..];
      visited := visited + {node};
      var preds := Predecessors(graph.edges, node);
      for i := 0 to |preds|
        invariant NoDup(queue)
        invariant start in discovered
        invariant visited == old(visited) + {node}
        invariant discovered == visited + (set v | v in queue)
        invariant forall v :: v in visited ==> v !in queue
        invariant forall v :: v in discovered ==> graph.Reach(v, start)
        invariant forall u, v :: graph.Edge(u, v) && v in old(visited) ==> u in discovered
        invariant forall k :: 0 <= k < i ==> preds[k] in discovered
      {
        var u := preds[i];
        if u !in discovered {
          assert graph.Edge(u, node);
          EdgeReach(graph, u, node);
          ReachTransitive(graph, u, node, start);
          discovered := discovered + {u};
          queue := queue + [u];
        }
      }
      forall v | v in visited ensures v < |graph.nodes| { ReachCases(graph, v, start); }
      BoundedSet(visited, |graph.nodes|);
      return Some(node);
    }
  }

  /** All nodes with a path to `v`. */
  method Ancestors<N>(g: Graph<N>, v: nat) returns (s: set<nat>)
    requires g.Valid() && g.IsNode(v)
    ensures forall u :: u in s <==> g.Reach(u, v)
  {
    s := {};
    var bfs := new Bfs(g, v);
    while true
      invariant bfs.Valid() && fresh(bfs) && bfs.graph == g && bfs.start == v
      invariant |bfs.visited| <= |g.nodes| && bfs.visited == s
      decreases |g.nodes| - |bfs.visited|
    {
      var next := bfs.Next();
      if next.None? { break; }
      s := s + {next.value};
    }
    bfs.Exhausted();
  }

  /** Strongly connected components, found from the ancestor sets. */
  method StrongComponents<N>(g: Graph<N>) returns (sccs: seq<seq<nat>>)
    requires g.Valid()
    ensures g.IsComponents(sccs)
  {
    var n := |g.nodes|;
    var above: seq<set<nat>> := [];
    for v := 0 to n
      invariant |above| == v
      invariant forall w, u :: 0 <= w < v ==> (u in above[w] <==> g.Reach(u, w))
    {
      var s := Ancestors(g, v);
      above := above + [s];
    }
    sccs := [];
    var taken: set<nat> := {};
    for v := 0 to n
      invariant forall u :: u in taken <==> exists i :: 0 <= i < |sccs| && u in sccs[i]
      invariant forall u: nat :: u < v ==> u in taken
      invariant forall i :: 0 <= i < |sccs| ==> sccs[i] != [] && NoDup(sccs[i])
      invariant forall i, u :: 0 <= i < |sccs| && u in sccs[i] ==> g.IsNode(u)
      invariant forall i, u, w :: 0 <= i < |sccs| && u in sccs[i] && g.IsNode(w) ==> (w in sccs[i] <==> g.Mutual(u, w))
      invariant forall i, j, u :: 0 <= i < |sccs| && 0 <= j < |sccs| && u in sccs[i] && u in sccs[j] ==> i == j
    {
      if v !in taken {
        var component := ComponentOf(g, above, v);
        assert v in component by { ReachSelf(g, v); }
        forall u, w | u in component && g.IsNode(w) ensures w in component <==> g.Mutual(u, w) {
          if g.Mutual(u, w) { ReachTransitive(g, v, u, w); ReachTransitive(g, w, u, v); }
          if w in component { ReachTransitive(g, u, v, w); ReachTransitive(g, w, v, u); }
        }
        forall i, u | 0 <= i < |sccs| && u in sccs[i] ensures u !in component {
          assert v !in sccs[i];
          assert v in sccs[i] <==> g.Mutual(u, v);
        }
        ghost var before := sccs;
        sccs := sccs + [component];
        taken := taken + set u | u in component;
        assert sccs[|before|] == component;
        assert forall i :: 0 <= i < |before| ==> sccs[i] == before[i];
      }
    }
    forall v | g.IsNode(v) ensures exists i :: 0 <= i < |sccs| && v in sccs[i] {
      assert v in taken;
    }
    forall i, j, u, v | 0 <= i < |sccs| && 0 <= j < |sccs| && u in sccs[i] && v in sccs[j]
      ensures i == j <==> g.Mutual(u, v)
    {
      assert v in sccs[i] <==> g.Mutual(u, v);
    }
  }

  method ComponentOf<N>(g: Graph<N>, above: seq<set<nat>>, v: nat) returns (component: seq<nat>)
    requires g.IsNode(v) && |above| == |g.nodes|
    requires forall w, u :: 0 <= w < |above| ==> (u in above[w] <==> g.Reach(u, w))
    ensures NoDup(component)
    ensures forall u :: u in component <==> g.IsNode(u) && g.Mutual(u, v)
  {
    component := [];
    for u := 0 to |g.nodes|
      invariant NoDup(component)
      invariant forall w: nat :: w in component <==> w < u && g.Mutual(w, v)
    {
      assert u !in component;
      if u in above[v] && v in above[u] { component := component + [u]; }
    }
  }

  /** A duplicate-free start of a topological order: predecessors of placed nodes are placed, earlier. */
  ghost predicate PartialTopo<N>(g: Graph<N>, order: seq<nat>) {
    && NoDup(order)
    && (forall v :: v in order ==> g.IsNode(v))
    && (forall u, v :: g.Edge(u, v) && v in order ==> u in order)
    && forall i, j :: 0 <= i < |order| && 0 <= j < |order| && g.Edge(order[i], order[j]) ==> i < j
  }

  /** Topological sort: repeatedly place a node whose predecessors are all placed.
      Fails exactly on graphs that have a cycle. */
  method Toposort<N>(g: Graph<N>) returns (r: Option<seq<nat>>)
    requires g.Valid()
    ensures r.Some? <==> g.Acyclic()
    ensures r.Some? ==> g.IsTopoOrder(r.value)
  {
    var order: seq<nat> := [];
    var ready := FindReady(g, order);
    while ready.Some?
      invariant ReadyFor(g, order, ready)
      invariant PartialTopo(g, order)
      decreases |g.nodes| - |order|
    {
      PartialTopoRoom(g, order + [ready.value]);
      order := order + [ready.value];
      ready := FindReady(g, order);
    }
    if |order| == |g.nodes| {
      EverythingPlaced(g, order);
      TopoOrderMeansAcyclic(g, order);
      return Some(order);
    }
    ghost var c := StuckMeansCycle(g, order);
    return None;
  }

  /** Every acyclic graph has a topological order. */
  lemma AcyclicHasTopoOrder<N>(g: Graph<N>) returns (order: seq<nat>)
    requires g.Valid() && g.Acyclic()
    ensures g.IsTopoOrder(order)
  {
    order := [];
    while |order| < |g.nodes|
      invariant PartialTopo(g, order) && |order| <= |g.nodes|
    {
      if ReadyFor(g, order, None) {
        var c := StuckMeansCycle(g, order);
        assert false;
      }
      var v :| g.IsNode(v) && v !in order && !g.Blocked(v, order);
      assert forall u :: g.Edge(u, v) && u !in order ==> g.Blocked(v, order);
      PartialTopoRoom(g, order + [v]);
      order := order + [v];
    }
    EverythingPlaced(g, order);
  }

  lemma PartialTopoRoom<N>(g: Graph<N>, order: seq<nat>)
    requires NoDup(order) && forall v :: v in order ==> g.IsNode(v)
    ensures |order| <= |g.nodes|
  {
    NoDupSize(order);
    BoundedSet(Elements(order), |g.nodes|);
  }

  lemma StuckMeansCycle<N>(g: Graph<N>, order: seq<nat>) returns (c: nat)
    requires g.Valid() && ReadyFor(g, order, None) && NoDup(order) && |order| != |g.nodes|
    requires forall v :: v in order ==> g.IsNode(v)
    ensures g.IsNode(c) && g.OnCycle(c)
  {
    var left := Below(|g.nodes|) - Elements(order);
    PartialTopoRoom(g, order);
    NoDupSize(order);
    if Below(|g.nodes|) <= Elements(order) { SubsetSize(Below(|g.nodes|), Elements(order)); }
    forall v | v in left ensures g.HasPredecessorIn(v, left) {
      assert g.Blocked(v, order);
      var u :| u !in order && g.Edge(u, v);
      assert u in left;
    }
    c := NoSourceMeansCycle(g, left);
  }

  lemma EverythingPlaced<N>(g: Graph<N>, order: seq<nat>)
    requires NoDup(order) && |order| == |g.nodes|
    requires forall v :: v in order ==> g.IsNode(v)
    ensures forall v :: g.IsNode(v) ==> v in order
  {
    NoDupSize(order);
    forall v | g.IsNode(v) ensures v in order {
      if v !in order { SubsetSize(Elements(order) + {v}, Below(|g.nodes|)); }
    }
  }

  lemma {:induction false} NoDupSize<T(!new)>(s: seq<T>)
    requires NoDup(s)
    ensures |Elements(s)| == |s|
  {
    if s != [] {
      NoDupSize(s[1..]);
      assert s == [s[0]] + s[1..];
      assert Elements(s) == {s[0]} + Elements(s[1..]);
      assert s[0] !in s[1..];
    }
  }

  ghost function Elements<T(!new)>(s: seq<T>): set<T> { set x | x in s }

  ghost predicate ReadyFor<N>(g: Graph<N>, order: seq<nat>, r: Option<nat>) {
    match r
    case Some(v) => g.IsNode(v) && v !in order && forall u :: g.Edge(u, v) ==> u in order
    case None => forall v {:trigger g.Blocked(v, order)} :: g.IsNode(v) && v !in order ==> g.Blocked(v, order)
  }

  /** A node not yet placed all of whose predecessors are. */
  method FindReady<N>(g: Graph<N>, order: seq<nat>) returns (r: Option<nat>)
    requires g.Valid()
    ensures ReadyFor(g, order, r)
  {
    for v := 0 to |g.nodes|
      invariant forall w: nat {:trigger g.Blocked(w, order)} :: w < v && w !in order ==> g.Blocked(w, order)
    {
      if v !in order {
        var preds := Predecessors(g.edges, v);
        if forall u :: u in preds ==> u in order {
          return Some(v);
        }
        assert g.Blocked(v, order);
      }
    }
    return None;
  }
}
