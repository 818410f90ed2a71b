/** The condensation of a graph: one node per strongly connected component. */
module Condensations {
  import opened Digraphs
  import opened SCC

  /** Some edge leads from component k to component m. */
  ghost predicate Crosses(g: Digraph, scc: seq<seq<Node>>, id: map<Node, nat>, k: nat, m: nat)
    requires k < |scc|
  {
    m != k && exists i, w :: 0 <= i < |scc[k]| && g.Edge(scc[k][i], w) && w in id && id[w] == m
  }

  ghost predicate IsCondensation(g: Digraph, scc: seq<seq<Node>>, id: map<Node, nat>, successors: seq<set<nat>>) {
    |successors| == |scc| && forall k, m :: 0 <= k < |scc| && 0 <= m ==>
      (m in successors[k] <==> Crosses(g, scc, id, k, m))
  }

  /** The components' nodes are nodes of g, and they and their successors have numbers. */
  ghost predicate Numbered(g: Digraph, scc: seq<seq<Node>>, id: map<Node, nat>) {
    && (forall k, i :: 0 <= k < |scc| && 0 <= i < |scc[k]| ==> scc[k][i] in g.succ)
    && (forall k, i, j :: 0 <= k < |scc| && 0 <= i < |scc[k]| && 0 <= j < |g.succ[scc[k][i]]| ==>
          g.succ[scc[k][i]][j] in id)
  }

  class SCCCondensation {
    var components: seq<seq<Node>>
    var successors: seq<set<nat>>

    constructor (g: Digraph, scc: seq<seq<Node>>, id: map<Node, nat>)
      requires Numbered(g, scc, id)
      ensures components == scc && IsCondensation(g, scc, id, successors)
    {
      components := scc;
      successors := [];
      new;
      while |successors| < |scc|
        invariant components == scc && |successors| <= |scc|
        invariant forall k :: 0 <= k < |successors| ==> successors[k] == {}
      {
        successors := successors + [{}];
      }
      var idx := 0;
      while idx < |scc|
        invariant idx <= |scc| && components == scc && |successors| == |scc|
        invariant forall k, m :: 0 <= k < idx && 0 <= m ==> (m in successors[k] <==> Crosses(g, scc, id, k, m))
        invariant forall k :: idx <= k < |scc| ==> successors[k] == {}
      {
        AddSuccessors(g, scc, id, idx);
        idx := idx + 1;
      }
    }

    /** Add the edges that leave component idx. */
    method AddSuccessors(g: Digraph, scc: seq<seq<Node>>, id: map<Node, nat>, idx: nat)
      requires Numbered(g, scc, id) && idx < |scc| == |successors| && successors[idx] == {}
      modifies this
      ensures components == old(components) && |successors| == |scc|
      ensures forall m: nat :: m in successors[idx] <==> Crosses(g, scc, id, idx, m)
      ensures forall k :: 0 <= k < |scc| && k != idx ==> successors[k] == old(successors[k])
    {
      ghost var was := successors;
      var i := 0;
      while i < |scc[idx]|
        invariant i <= |scc[idx]| && components == old(components) && |successors| == |scc|
        invariant forall k :: 0 <= k < |scc| && k != idx ==> successors[k] == was[k]
        invariant forall m: nat :: m in successors[idx] <==> CrossesBefore(g, scc[idx], id, idx, m, i, 0)
      {
        var succ := g.succ[scc[idx][i]];
        var j := 0;
        while j < |succ|
          invariant j <= |succ| && components == old(components) && |successors| == |scc|
          invariant forall k :: 0 <= k < |scc| && k != idx ==> successors[k] == was[k]
          invariant forall m: nat :: m in successors[idx] <==> CrossesBefore(g, scc[idx], id, idx, m, i, j)
        {
          ghost var now := successors[idx];
          if id[succ[j]] != idx {
            successors := successors[idx := successors[idx] + {id[succ[j]]}];
          }
          NextSuccessor(g, scc[idx], id, idx, i, j);
          j := j + 1;
        }
        NextMember(g, scc[idx], id, idx, i);
        i := i + 1;
      }
      AllMembers(g, scc, id, idx);
    }
  }

  /** An edge to component m leaves one of the first i nodes of a component, or is
      one of the first j edges of the next node. */
  ghost predicate CrossesBefore(g: Digraph, c: seq<Node>, id: map<Node, nat>, k: nat, m: nat, i: nat, j: nat) {
    m != k && exists a: nat, b: nat :: Crossing(g, c, id, m, a, b) && (a < i || (a == i && b < j))
  }

  ghost predicate Crossing(g: Digraph, c: seq<Node>, id: map<Node, nat>, m: nat, a: nat, b: nat) {
    a < |c| && c[a] in g.succ && b < |g.succ[c[a]]| && g.succ[c[a]][b] in id && id[g.succ[c[a]][b]] == m
  }

  lemma NextSuccessor(g: Digraph, c: seq<Node>, id: map<Node, nat>, k: nat, i: nat, j: nat)
    requires i < |c| && c[i] in g.succ && j < |g.succ[c[i]]| && g.succ[c[i]][j] in id
    ensures forall m: nat :: CrossesBefore(g, c, id, k, m, i, j + 1) <==>
      CrossesBefore(g, c, id, k, m, i, j) || (m != k && m == id[g.succ[c[i]][j]])
  {
    var x := id[g.succ[c[i]][j]];
    assert Crossing(g, c, id, x, i, j);
    forall m: nat | CrossesBefore(g, c, id, k, m, i, j) ensures CrossesBefore(g, c, id, k, m, i, j + 1) {
      var a: nat, b: nat :| Crossing(g, c, id, m, a, b) && (a < i || (a == i && b < j));
    }
    forall m: nat | CrossesBefore(g, c, id, k, m, i, j + 1) && m != x ensures CrossesBefore(g, c, id, k, m, i, j) {
      var a: nat, b: nat :| Crossing(g, c, id, m, a, b) && (a < i || (a == i && b < j + 1));
    }
  }

  lemma NextMember(g: Digraph, c: seq<Node>, id: map<Node, nat>, k: nat, i: nat)
    requires i < |c| && c[i] in g.succ
    ensures forall m: nat :: CrossesBefore(g, c, id, k, m, i + 1, 0) <==>
      CrossesBefore(g, c, id, k, m, i, |g.succ[c[i]]|)
  {
  }

  lemma AllMembers(g: Digraph, scc: seq<seq<Node>>, id: map<Node, nat>, k: nat)
    requires Numbered(g, scc, id) && k < |scc|
    ensures forall m: nat :: CrossesBefore(g, scc[k], id, k, m, |scc[k]|, 0) <==> Crosses(g, scc, id, k, m)
  {
    forall m: nat | Crosses(g, scc, id, k, m) ensures CrossesBefore(g, scc[k], id, k, m, |scc[k]|, 0) {
      var i, w :| 0 <= i < |scc[k]| && g.Edge(scc[k][i], w) && w in id && id[w] == m;
      var j :| 0 <= j < |g.succ[scc[k][i]]| && g.succ[scc[k][i]][j] == w;
      assert Crossing(g, scc[k], id, m, i, j);
    }
    forall m: nat | CrossesBefore(g, scc[k], id, k, m, |scc[k]|, 0) ensures Crosses(g, scc, id, k, m) {
      var a: nat, b: nat :| Crossing(g, scc[k], id, m, a, b) && a < |scc[k]|;
      assert g.Edge(scc[k][a], g.succ[scc[k][a]][b]);
    }
  }

  // ---- what the condensation of the components found by Tarjan's algorithm says

  lemma ComponentsNumbered(g: Digraph, start: Node, scc: seq<seq<Node>>, id: map<Node, nat>)
    requires g.Valid() && Components(g, start, scc, id)
    ensures Numbered(g, scc, id)
  {
    hide Digraph.Valid, Digraph.Reaches;
    forall k, i | 0 <= k < |scc| && 0 <= i < |scc[k]|
      ensures scc[k][i] in g.succ && forall j :: 0 <= j < |g.succ[scc[k][i]]| ==> g.succ[scc[k][i]][j] in id
    {
      var v := scc[k][i];
      assert g.Reaches(start, v);
      g.ReachesIsNode(start, v);
      forall j | 0 <= j < |g.succ[v]| ensures g.succ[v][j] in id {
        g.ReachesStep(v, g.succ[v][j]);
        g.ReachesTransitive(start, v, g.succ[v][j]);
      }
    }
  }

  /** Every edge of the condensation leads to a component with a smaller number. */
  lemma EdgesDecrease(g: Digraph, start: Node, scc: seq<seq<Node>>, id: map<Node, nat>, successors: seq<set<nat>>,
                      k: nat, m: nat)
    requires Components(g, start, scc, id) && IsCondensation(g, scc, id, successors) && k < |scc| && m in successors[k]
    ensures m < k
  {
    hide Digraph.Reaches;
    assert Crosses(g, scc, id, k, m);
    var i, w :| 0 <= i < |scc[k]| && g.Edge(scc[k][i], w) && w in id && id[w] == m;
    assert g.Reaches(start, scc[k][i]) && id[scc[k][i]] == k;
  }

  /** A path in the condensation. */
  ghost predicate Chain(successors: seq<set<nat>>, p: seq<nat>) {
    p != [] && (forall i :: 0 <= i < |p| ==> p[i] < |successors|) && forall i :: 0 <= i < |p| - 1 ==>
      p[i + 1] in successors[p[i]]
  }

  ghost predicate Leads(successors: seq<set<nat>>, k: nat, m: nat) {
    exists p :: Chain(successors, p) && p[0] == k && p[|p| - 1] == m
  }

  /** The condensation has no cycle: a chain that moves goes down. */
  lemma {:induction false} ChainDecreases(g: Digraph, start: Node, scc: seq<seq<Node>>, id: map<Node, nat>,
                                          successors: seq<set<nat>>, p: seq<nat>)
    requires Components(g, start, scc, id) && IsCondensation(g, scc, id, successors) && Chain(successors, p)
    ensures p[|p| - 1] <= p[0] && (|p| > 1 ==> p[|p| - 1] < p[0])
    decreases |p|
  {
    hide Components, IsCondensation;
    if |p| > 1 {
      SizeOf(g, scc, id, successors);
      assert p[1] in successors[p[0]];
      EdgesDecrease(g, start, scc, id, successors, p[0], p[1]);
      ChainDecreases(g, start, scc, id, successors, p[1..]);
    }
  }

  lemma SizeOf(g: Digraph, scc: seq<seq<Node>>, id: map<Node, nat>, successors: seq<set<nat>>)
    requires IsCondensation(g, scc, id, successors)
    ensures |successors| == |scc|
  {
  }

  /** One component leads to another iff its nodes reach the other's nodes. */
  lemma LeadsIffReaches(g: Digraph, start: Node, scc: seq<seq<Node>>, id: map<Node, nat>, successors: seq<set<nat>>,
                        u: Node, v: Node)
    requires g.Valid() && Components(g, start, scc, id) && IsCondensation(g, scc, id, successors)
    requires g.Reaches(start, u) && g.Reaches(start, v)
    ensures u in id && v in id && (g.Reaches(u, v) <==> Leads(successors, id[u], id[v]))
  {
    hide Digraph.Valid, Digraph.Reaches, IsCondensation;
    SizeOf(g, scc, id, successors);
    if g.Reaches(u, v) {
      var p := g.PathOf(u, v);
      PathGivesChain(g, start, scc, id, successors, p);
    }
    if Leads(successors, id[u], id[v]) {
      var p :| Chain(successors, p) && p[0] == id[u] && p[|p| - 1] == id[v];
      ChainGivesPath(g, start, scc, id, successors, p, u, v);
    }
  }

  lemma {:induction false} PathGivesChain(g: Digraph, start: Node, scc: seq<seq<Node>>, id: map<Node, nat>,
                                          successors: seq<set<nat>>, p: seq<Node>)
    requires g.Valid() && Components(g, start, scc, id) && IsCondensation(g, scc, id, successors) && g.Path(p)
    requires g.Reaches(start, p[0])
    ensures p[0] in id && p[|p| - 1] in id && Leads(successors, id[p[0]], id[p[|p| - 1]])
    decreases |p|
  {
    hide Digraph.Valid, Digraph.Reaches, IsCondensation;
    SizeOf(g, scc, id, successors);
    if |p| == 1 {
      assert Chain(successors, [id[p[0]]]);
    } else {
      assert g.Edge(p[0], p[1]);
      g.ReachesStep(p[0], p[1]);
      g.ReachesTransitive(start, p[0], p[1]);
      g.PathTail(p);
      PathGivesChain(g, start, scc, id, successors, p[1..]);
      var q :| Chain(successors, q) && q[0] == id[p[1]] && q[|q| - 1] == id[p[|p| - 1]];
      if id[p[0]] != id[p[1]] {
        StepCrosses(g, start, scc, id, successors, p[0], p[1]);
        assert Chain(successors, [id[p[0]]] + q);
      }
    }
  }

  lemma StepCrosses(g: Digraph, start: Node, scc: seq<seq<Node>>, id: map<Node, nat>, successors: seq<set<nat>>,
                    u: Node, v: Node)
    requires Components(g, start, scc, id) && IsCondensation(g, scc, id, successors)
    requires g.Reaches(start, u) && g.Edge(u, v) && u in id && v in id && id[u] != id[v]
    ensures id[u] < |successors| && id[v] in successors[id[u]]
  {
    hide Digraph.Reaches;
    var i :| 0 <= i < |scc[id[u]]| && scc[id[u]][i] == u;
    assert Crosses(g, scc, id, id[u], id[v]);
  }

  lemma {:induction false} ChainGivesPath(g: Digraph, start: Node, scc: seq<seq<Node>>, id: map<Node, nat>,
                                          successors: seq<set<nat>>, p: seq<nat>, u: Node, v: Node)
    requires Components(g, start, scc, id) && IsCondensation(g, scc, id, successors) && Chain(successors, p)
    requires g.Reaches(start, u) && g.Reaches(start, v) && u in id && v in id && id[u] == p[0] && id[v] == p[|p| - 1]
    ensures g.Reaches(u, v)
    decreases |p|
  {
    hide Digraph.Reaches, IsCondensation;
    if |p| > 1 {
      var x, y := CrossingEdge(g, start, scc, id, successors, p[0], p[1]);
      g.ReachesStep(x, y);
      g.ReachesTransitive(start, x, y);
      ChainGivesPath(g, start, scc, id, successors, p[1..], y, v);
      g.ReachesTransitive(u, x, y);
      g.ReachesTransitive(u, y, v);
    }
  }

  lemma CrossingEdge(g: Digraph, start: Node, scc: seq<seq<Node>>, id: map<Node, nat>, successors: seq<set<nat>>,
                     k: nat, m: nat)
      returns (x: Node, y: Node)
    requires Components(g, start, scc, id) && IsCondensation(g, scc, id, successors) && k < |successors|
    requires m in successors[k]
    ensures g.Reaches(start, x) && g.Edge(x, y) && x in id && y in id && id[x] == k && id[y] == m
  {
    hide Digraph.Reaches;
    assert Crosses(g, scc, id, k, m);
    var i, w :| 0 <= i < |scc[k]| && g.Edge(scc[k][i], w) && w in id && id[w] == m;
    x, y := scc[k][i], w;
  }

  /** The condensation of what start reaches: it has no cycle, and one component leads to
      another iff its nodes reach the other's nodes. */
  method Condense(g: Digraph, start: Node)
    returns (components: seq<seq<Node>>, successors: seq<set<nat>>, id: map<Node, nat>)
    requires g.Valid() && start in g.succ
    ensures Components(g, start, components, id) && |successors| == |components|
    ensures forall p :: Chain(successors, p) && |p| > 1 ==> p[|p| - 1] < p[0]
    ensures forall u, v :: g.Reaches(start, u) && g.Reaches(start, v) ==>
      u in id && v in id && (g.Reaches(u, v) <==> Leads(successors, id[u], id[v]))
  {
    hide Components, IsCondensation, Numbered, Digraph.Valid, Digraph.Reaches, Inv, Chain, Leads;
    var tarjan := new Tarjan(g);
    components := tarjan.Compute(start);
    id := tarjan.id;
    ComponentsNumbered(g, start, components, id);
    var condensation := new SCCCondensation(g, components, id);
    successors := condensation.successors;
    SizeOf(g, components, id, successors);
    forall p | Chain(successors, p) && |p| > 1 ensures p[|p| - 1] < p[0] {
      ChainDecreases(g, start, components, id, successors, p);
    }
    forall u, v | g.Reaches(start, u) && g.Reaches(start, v)
      ensures u in id && v in id && (g.Reaches(u, v) <==> Leads(successors, id[u], id[v]))
    {
      LeadsIffReaches(g, start, components, id, successors, u, v);
    }
  }
}
