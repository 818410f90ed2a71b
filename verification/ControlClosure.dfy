/** Strong control closure. */
module ControlClosures {
  import opened Digraphs
  import opened MaximalPaths
  import opened FirstReachables
  import opened CDGraphs
  import opened ControlDependences
  import opened CounterSearches
  import opened CounterSearchRuns
  import opened SetQueues

  ghost function Gamma(g: Digraph, X: set<Node>): set<Node> { g.succ.Keys - Colors(g, X) }

  /** p can be reached from X in one or more steps. */
  ghost predicate After(g: Digraph, X: set<Node>, p: Node) { exists x, s :: x in X && g.Edge(x, s) && g.Reaches(s, p) }

  /** p cannot reach X, or it must reach X and meets it in one node. */
  ghost predicate ReallySettled(g: Digraph, X: set<Node>, p: Node) {
    Theta(g, X, p) == {} || (|Theta(g, X, p)| == 1 && MustReach(g, X, p))
  }

  /** X is strongly control closed. */
  ghost predicate StronglyClosed(g: Digraph, X: set<Node>) { forall p :: After(g, X, p) ==> ReallySettled(g, X, p) }

  /** The same, as far as the colours of the search can tell. */
  ghost predicate Settled(g: Digraph, X: set<Node>, p: Node) {
    Theta(g, X, p) == {} || (|Theta(g, X, p)| == 1 && p !in Gamma(g, X))
  }

  ghost predicate Closed(g: Digraph, X: set<Node>) { forall p :: After(g, X, p) ==> Settled(g, X, p) }

  /** An edge from p to r for which p has to be added. */
  ghost predicate Adds(g: Digraph, X: set<Node>, p: Node, r: Node) {
    && g.Edge(p, r) && |Theta(g, X, r)| == 1 && r !in Gamma(g, X)
    && (|Theta(g, X, p)| >= 2 || p in Gamma(g, X))
  }

  ghost predicate NothingAdded(g: Digraph, X: set<Node>) { forall p, r :: After(g, X, p) ==> !Adds(g, X, p, r) }

  /** The search with the targets X is exact. */
  ghost predicate Exact(g: Digraph, X: set<Node>) { Colors(g, X) == MustSet(g, X) }

  /** No node behind X that can reach X is coloured although it can avoid X. */
  ghost predicate NoneEarly(g: Digraph, X: set<Node>) { forall p :: After(g, X, p) ==> !Early(g, X, p) }

  ghost predicate Early(g: Digraph, X: set<Node>, p: Node) {
    Theta(g, X, p) != {} && p in Colors(g, X) && !MustReach(g, X, p)
  }

  lemma AfterIsNode(g: Digraph, X: set<Node>, p: Node)
    requires g.Valid() && After(g, X, p)
    ensures p in g.succ
  {
    hide Digraph.Reaches, Digraph.Valid;
    var x, s :| x in X && g.Edge(x, s) && g.Reaches(s, p);
    g.ReachesIsNode(s, p);
  }

  /** A set that is closed by its colours is strongly closed iff none of them is early. */
  lemma StronglyClosedIff(g: Digraph, X: set<Node>)
    requires g.Valid() && X <= g.succ.Keys
    ensures StronglyClosed(g, X) <==> Closed(g, X) && NoneEarly(g, X)
  {
    hide After, Theta, Colors, MustReach, Digraph.Valid;
    MustIsColored(g, X);
    forall p | After(g, X, p)
      ensures p in g.succ && (MustReach(g, X, p) ==> p in Colors(g, X))
      ensures ReallySettled(g, X, p) <==> Settled(g, X, p) && !Early(g, X, p)
    {
      AfterIsNode(g, X, p);
      assert MustReach(g, X, p) ==> p in MustSet(g, X);
    }
  }

  lemma ExactIsNotEarly(g: Digraph, X: set<Node>)
    requires Exact(g, X)
    ensures NoneEarly(g, X)
  {
    hide After, Theta, Colors, MustReach;
  }

  lemma AfterStep(g: Digraph, X: set<Node>, p: Node, r: Node)
    requires After(g, X, p) && g.Edge(p, r)
    ensures After(g, X, r)
  {
    hide Digraph.Reaches;
    var x, s :| x in X && g.Edge(x, s) && g.Reaches(s, p);
    g.ReachesStep(p, r);
    g.ReachesTransitive(s, p, r);
  }

  /** Without such edges X is closed: a path to X settles its nodes from the end. */
  lemma {:induction false} SettledAlong(g: Digraph, X: set<Node>, p: Node, q: seq<Node>, x: Node)
    requires g.Valid() && X <= g.succ.Keys && After(g, X, p) && FirstPath(g, X, q, p, x)
    requires NothingAdded(g, X)
    ensures Settled(g, X, p)
    decreases |q|
  {
    hide After, Theta, Colors, Digraph.Valid;
    if |q| == 1 {
      ThetaInside(g, X, p);
      ColorsTargets(g, X);
    } else {
      var r := q[1];
      FirstTail(g, X, q, p, x);
      AfterStep(g, X, p, r);
      SettledAlong(g, X, r, q[1..], x);
      ThetaMember(g, X, r, x);
      ThetaMember(g, X, p, x);
      FirstStep(g, X, p, r, x);
      assert !Adds(g, X, p, r);
      OneElement(Theta(g, X, p), x);
      EdgeIsNode(g, p, r);
    }
  }

  lemma ColorsTargets(g: Digraph, X: set<Node>)
    ensures X <= Colors(g, X)
  {
  }

  lemma OneElement(a: set<Node>, x: Node)
    requires x in a
    ensures |a| >= 1 && (|a| < 2 ==> a == {x})
  {
    assert a == {x} + (a - {x});
    if |a| < 2 { assert a - {x} == {}; }
  }

  lemma ClosedWithoutEdges(g: Digraph, X: set<Node>)
    requires g.Valid() && X <= g.succ.Keys && NothingAdded(g, X)
    ensures Closed(g, X)
  {
    hide After, Colors, Digraph.Valid, Adds, NothingAdded, FirstPath;
    forall p | After(g, X, p) ensures Settled(g, X, p) {
      if Theta(g, X, p) != {} {
        var x :| x in Theta(g, X, p);
        var q := PathOfFirst(g, X, p, x);
        SettledAlong(g, X, p, q, x);
      }
    }
  }

  // ---- the closure is the least one

  /** What an exact search adds to X belongs to every strongly closed superset. */
  lemma AddedIsNeeded(g: Digraph, X: set<Node>, Y: set<Node>, p: Node, r: Node)
    requires g.Valid() && X <= Y <= g.succ.Keys && StronglyClosed(g, Y) && Exact(g, X)
    requires After(g, X, p) && Adds(g, X, p, r)
    ensures p in Y
  {
    hide MustReach, First, FirstPath, Theta, Gamma, Colors, Digraph.Valid, StronglyClosed, After;
    EdgeIsNode(g, p, r);
    MustOutsideGamma(g, X, r);
    MustOutsideGamma(g, X, p);
    if p !in Y {
      NotAdded(g, X, Y, p, r);
    }
  }

  lemma NotAdded(g: Digraph, X: set<Node>, Y: set<Node>, p: Node, r: Node)
    requires g.Valid() && X <= Y <= g.succ.Keys && StronglyClosed(g, Y) && p !in Y && p in g.succ
    requires After(g, X, p) && g.Edge(p, r) && MustReach(g, X, r)
    ensures MustReach(g, X, p) && |Theta(g, X, p)| <= |Theta(g, X, r)|
  {
    hide MustReach, First, FirstPath, Theta, Gamma, Colors, Digraph.Valid, StronglyClosed, After, Only;
    var y := FirstNode(g, X, Y, p, r);
    var q := PathOfFirst(g, Y, r, y);
    MustBehind(g, X, Y, r, q, y);
    MustThrough(g, X, Y, p, y);
    ThetaShrinks(g, X, Y, p, r, y, q);
  }

  lemma MustOutsideGamma(g: Digraph, X: set<Node>, n: Node)
    requires Exact(g, X) && n in g.succ
    ensures n !in Gamma(g, X) <==> MustReach(g, X, n)
  {
    hide MustReach, Colors;
  }

  lemma MustMonotone(g: Digraph, X: set<Node>, Y: set<Node>, n: Node)
    requires X <= Y && MustReach(g, X, n)
    ensures MustReach(g, Y, n)
  {
    forall f: nat -> Node | Maximal(g, f, n) ensures Hits(f, Y) {
      assert Hits(f, X);
      var i: nat :| f(i) in X;
      assert f(i) in Y;
    }
  }

  lemma AfterMonotone(g: Digraph, X: set<Node>, Y: set<Node>, p: Node)
    requires X <= Y && After(g, X, p)
    ensures After(g, Y, p)
  {
  }

  /** The one node in which p and r meet a strongly closed set Y. */
  lemma FirstNode(g: Digraph, X: set<Node>, Y: set<Node>, p: Node, r: Node) returns (y: Node)
    requires g.Valid() && X <= Y <= g.succ.Keys && StronglyClosed(g, Y) && p !in Y && p in g.succ
    requires After(g, X, p) && g.Edge(p, r) && MustReach(g, X, r)
    ensures First(g, Y, r, y) && Only(g, Y, p, y) && MustReach(g, Y, p)
  {
    hide MustReach, First, Theta, Digraph.Valid, After;
    MustMonotone(g, X, Y, r);
    MustHasFirst(g, Y, r);
    y :| First(g, Y, r, y);
    FirstStep(g, Y, p, r, y);
    AfterMonotone(g, X, Y, p);
    assert ReallySettled(g, Y, p);
    ThetaMember(g, Y, p, y);
    OneElement(Theta(g, Y, p), y);
    forall z | First(g, Y, p, z) ensures z == y { ThetaMember(g, Y, p, z); }
  }

  lemma ThetaShrinks(g: Digraph, X: set<Node>, Y: set<Node>, p: Node, r: Node, y: Node, q: seq<Node>)
    requires g.Valid() && X <= Y && Only(g, Y, p, y) && FirstPath(g, Y, q, r, y) && p in g.succ
    ensures |Theta(g, X, p)| <= |Theta(g, X, r)|
  {
    hide First, Theta, Digraph.Valid, Only;
    forall x | x in Theta(g, X, p) ensures x in Theta(g, X, r) {
      ThetaMember(g, X, p, x);
      var w := PathOfFirst(g, X, p, x);
      FirstPassesThrough(g, X, Y, p, y, w, x);
      FirstFromBefore(g, X, Y, r, q, y, x);
      ThetaMember(g, X, r, x);
    }
    SubsetSize(Theta(g, X, p), Theta(g, X, r));
  }

  lemma PathOfFirst(g: Digraph, X: set<Node>, n: Node, x: Node) returns (p: seq<Node>)
    requires First(g, X, n, x)
    ensures FirstPath(g, X, p, n, x)
  {
    p :| FirstPath(g, X, p, n, x);
  }

  // ---- the searches

  ghost predicate SuccessorsIn(g: Digraph, v: Node, Q: set<Node>) { forall s :: g.Edge(v, s) ==> s in Q }

  /** Every popped node was handled: nodes of X were found, others expanded. */
  ghost predicate Expanded(g: Digraph, X: set<Node>, done: set<Node>, queued: set<Node>, found: set<Node>) {
    forall v :: v in done ==> if v in X then v in found else SuccessorsIn(g, v, queued)
  }

  lemma {:induction false} FoundAlong(g: Digraph, X: set<Node>, Q: set<Node>, found: set<Node>, v: Node, p: seq<Node>,
                                      x: Node)
    requires g.Valid() && v in Q && Expanded(g, X, Q, Q, found) && FirstPath(g, X, p, v, x)
    ensures x in found
    decreases |p|
  {
    hide Digraph.Valid;
    if |p| > 1 {
      FirstTail(g, X, p, v, x);
      assert SuccessorsIn(g, v, Q);
      FoundAlong(g, X, Q, found, p[1], p[1..], x);
    }
  }

  lemma AllFirstFound(g: Digraph, X: set<Node>, n: Node, Q: set<Node>, found: set<Node>)
    requires g.Valid() && n !in X && SuccessorsIn(g, n, Q) && Expanded(g, X, Q, Q, found) && found <= Theta(g, X, n)
    ensures found == Theta(g, X, n)
  {
    hide Digraph.Valid, First;
    forall x | x in Theta(g, X, n) ensures x in found {
      FirstInverse(g, X, n, x);
      var s :| g.Edge(n, s) && First(g, X, s, x);
      var p := PathOfFirst(g, X, s, x);
      FoundAlong(g, X, Q, found, s, p, x);
    }
  }

  /** The first nodes of X behind v are first nodes behind n. */
  ghost predicate Leads(g: Digraph, X: set<Node>, n: Node, Q: set<Node>) {
    forall v, x :: v in Q && First(g, X, v, x) ==> First(g, X, n, x)
  }

  lemma LeadsOn(g: Digraph, X: set<Node>, n: Node, Q: set<Node>, v: Node, r: set<Node>)
    requires Leads(g, X, n, Q) && v in Q && v !in X && r == Q + Succs(g, v)
    ensures Leads(g, X, n, r)
  {
    hide First;
    forall s, x | s in Succs(g, v) && First(g, X, s, x) ensures First(g, X, n, x) {
      assert g.Edge(v, s);
      FirstStep(g, X, v, s, x);
    }
  }

  lemma LeadsFirst(g: Digraph, X: set<Node>, n: Node, r: set<Node>)
    requires n !in X && r == Succs(g, n)
    ensures Leads(g, X, n, r)
  {
    hide First;
    assert Leads(g, X, n, {n});
    LeadsOn(g, X, n, {n}, n, {n} + r);
  }

  class StrongControlClosure {
    constructor () {}

    /** The nodes of X that are reached first from n. */
    method ComputeTheta(graph: CDGraph, X: set<Node>, n: Node) returns (r: set<Node>)
      requires graph.Valid() && n in graph.succ
      ensures r == Theta(graph.G(), X, n)
    {
      hide Inverse, InOrder, Branching, Theta, First, Expanded, Leads, SuccessorsIn, SetQueue.Valid, SetQueue.Done;
      hide Digraph.Valid;
      ghost var g := graph.G();
      if n in X {
        r := {n};
        ThetaInside(g, X, n);
        return;
      }
      NodesOf(graph.succ, graph.pred);
      r := {};
      EmptyQueue();
      var q := PushAll(SetQueue({}, []), graph.succ[n]);
      LeadsFirst(g, X, n, q.queued);
      FirstSuccessors(g, X, n, q.queued);
      while q.queue != []
        invariant q.Valid() && q.queued <= g.succ.Keys && SuccessorsIn(g, n, q.queued) && Leads(g, X, n, q.queued)
        invariant Expanded(g, X, q.Done(), q.queued, r) && r <= Theta(g, X, n)
        decreases g.succ.Keys - q.Done()
      {
        q.PopMoves();
        var cur := q.Top();
        ghost var before := q;
        q := q.Pop();
        if cur in X {
          FoundFirst(g, X, n, q.queued, cur);
          ExpandFound(g, X, before.Done(), q.queued, r, cur);
          r := r + {cur};
        } else {
          q := PushAll(q, graph.succ[cur]);
          LeadsOn(g, X, n, before.queued, cur, q.queued);
          ExpandNode(g, X, n, before.Done(), before.queued, q.queued, r, cur);
        }
      }
      EmptiedQueue(q);
      AllFirstFound(g, X, n, q.queued, r);
    }

    /** The nodes that the counter search from X does not colour. */
    method ComputeGamma(graph: CDGraph, X: set<Node>) returns (r: set<Node>)
      requires graph.Valid() && Narrow(graph.G()) && X <= graph.succ.Keys
      ensures r == Gamma(graph.G(), X)
    {
      var colored, pops := CounterSearch(graph, X);
      r := set n | n in graph.succ && n !in colored;
    }

    /** Whether some edge out of p makes p a member of the closure. */
    method HasAddingEdge(graph: CDGraph, X: set<Node>, p: Node) returns (adds: bool)
      requires graph.Valid() && Narrow(graph.G()) && X <= graph.succ.Keys && p in graph.succ
      ensures adds <==> exists r :: Adds(graph.G(), X, p, r)
    {
      hide Inverse, InOrder, Branching, Theta, Narrow, Gamma, Digraph.Valid;
      ghost var g := graph.G();
      NodesOf(graph.succ, graph.pred);
      adds := false;
      var i := 0;
      while i < |graph.succ[p]|
        invariant i <= |graph.succ[p]| && forall j :: 0 <= j < i ==> !Adds(g, X, p, graph.succ[p][j])
      {
        var r := graph.succ[p][i];
        assert g.Edge(p, r);
        EdgeIsNode(g, p, r);
        i := i + 1;
        var thetaR := ComputeTheta(graph, X, r);
        if |thetaR| != 1 {
          continue;
        }
        var gam := ComputeGamma(graph, X);
        if r in gam {
          continue;
        }
        var thetaP := ComputeTheta(graph, X, p);
        if |thetaP| < 2 && p !in gam {
          continue;
        }
        assert Adds(g, X, p, r);
        return true;
      }
    }

    /** A node behind X that has to be added, if there is one. */
    method FindNode(graph: CDGraph, X: set<Node>) returns (found: bool, p: Node)
      requires graph.Valid() && Narrow(graph.G()) && X <= graph.succ.Keys
      ensures found ==> After(graph.G(), X, p) && exists r :: Adds(graph.G(), X, p, r)
      ensures !found ==> NothingAdded(graph.G(), X)
    {
      hide Inverse, InOrder, Branching, Adds, NothingAdded, Narrow, After, Searched, AllAfter, SetQueue.Valid;
      hide SetQueue.Done, Digraph.Valid;
      ghost var g := graph.G();
      NodesOf(graph.succ, graph.pred);
      EmptyQueue();
      var q := SetQueue({}, []);
      var todo := X;
      while todo != {}
        invariant todo <= X && q.Valid() && q.Done() == {} && q.queued <= g.succ.Keys
        invariant q.queued == SuccsOf(g, X - todo)
      {
        var n :| n in todo;
        ghost var before := q;
        q := PushAll(q, graph.succ[n]);
        MoreSuccessors(g, X - todo, n, X - (todo - {n}));
        todo := todo - {n};
      }
      assert X - todo == X;
      StartSearch(g, X, q.queued);
      while q.queue != []
        invariant q.Valid() && q.queued <= g.succ.Keys && AllAfter(g, X, q.queued) && Searched(g, X, q.Done(), q.queued)
        decreases g.succ.Keys - q.Done()
      {
        q.PopMoves();
        p := q.Top();
        ghost var before := q;
        q := q.Pop();
        var adds := HasAddingEdge(graph, X, p);
        if adds {
          IsAfter(g, X, q.queued, p);
          return true, p;
        }
        q := PushAll(q, graph.succ[p]);
        SearchNode(g, X, before.Done(), before.queued, q.queued, p);
      }
      EmptiedQueue(q);
      SearchedAll(g, X, q.queued);
      return false, 0;
    }

    /** Close a set: add nodes until no edge asks for one. `chain` are the nodes in the order in
        which they are added. */
    method CloseSet(graph: CDGraph, X0: set<Node>) returns (X: set<Node>, ghost chain: seq<Node>)
      requires graph.Valid() && Narrow(graph.G()) && X0 <= graph.succ.Keys
      ensures X0 <= X <= graph.succ.Keys && NothingAdded(graph.G(), X)
      ensures X == X0 + ToSet(chain) && OneByOne(graph.G(), X0, chain)
      ensures NothingAdded(graph.G(), X0) ==> X == X0
      ensures StronglyClosed(graph.G(), X) <==> NoneEarly(graph.G(), X)
      ensures Bounded(graph.G(), X0) ==> IsClosure(graph.G(), X0, X)
    {
      hide Inverse, InOrder, Branching, Adds, NothingAdded, Narrow, After, Digraph.Valid, Closed, Bounded, NoneEarly;
      hide StronglyClosed, OneByOne;
      ghost var g := graph.G();
      NodesOf(graph.succ, graph.pred);
      X, chain := X0, [];
      NoneAdded(g, X0);
      while true
        invariant X == X0 + ToSet(chain) && OneByOne(g, X0, chain)
        invariant X0 <= X <= g.succ.Keys && (NothingAdded(g, X0) ==> X == X0)
        invariant Bounded(g, X0) ==> Needed(g, X0, X)
        decreases g.succ.Keys - X
      {
        var found, p := FindNode(graph, X);
        if !found {
          break;
        }
        ghost var r :| Adds(g, X, p, r);
        AddsOutside(g, X, p, r);
        SomethingAdded(g, X, p, r);
        if Bounded(g, X0) { NeededStep(g, X0, X, p, r); }
        OneMoreAdded(g, X0, chain, p);
        X := X + {p};
        chain := chain + [p];
      }
      ClosedWithoutEdges(g, X);
      StronglyClosedIff(g, X);
      if Bounded(g, X0) { NeededIsClosure(g, X0, X); }
    }
  }

  /** Each node of the chain lies behind X0 and those added before it, and an edge asks for it there. */
  ghost predicate OneByOne(g: Digraph, X0: set<Node>, chain: seq<Node>) {
    forall i :: 0 <= i < |chain| ==> Asked(g, X0 + ToSet(chain[..i]), chain[i])
  }

  ghost predicate Asked(g: Digraph, X: set<Node>, p: Node) { After(g, X, p) && exists r :: Adds(g, X, p, r) }

  lemma NoneAdded(g: Digraph, X0: set<Node>)
    ensures OneByOne(g, X0, []) && X0 + ToSet([]) == X0
  {
  }

  lemma OneMoreAdded(g: Digraph, X0: set<Node>, chain: seq<Node>, p: Node)
    requires OneByOne(g, X0, chain) && After(g, X0 + ToSet(chain), p) && exists r :: Adds(g, X0 + ToSet(chain), p, r)
    ensures OneByOne(g, X0, chain + [p]) && X0 + ToSet(chain + [p]) == X0 + ToSet(chain) + {p}
  {
    hide After, Adds;
    assert forall i :: 0 <= i < |chain| ==> (chain + [p])[..i] == chain[..i];
    assert (chain + [p])[..|chain|] == chain;
  }

  ghost predicate Superset(g: Digraph, X0: set<Node>, Y: set<Node>) { X0 <= Y <= g.succ.Keys && StronglyClosed(g, Y) }

  /** X is the least strongly control closed superset of X0. */
  ghost predicate IsClosure(g: Digraph, X0: set<Node>, X: set<Node>) { Superset(g, X0, X) && Needed(g, X0, X) }

  ghost predicate Needed(g: Digraph, X0: set<Node>, X: set<Node>) { forall Y :: Superset(g, X0, Y) ==> X <= Y }

  /** Between X0 and some strongly closed superset all searches are exact. */
  ghost predicate Bounded(g: Digraph, X0: set<Node>) { exists Y :: Bounds(g, X0, Y) }

  ghost predicate Bounds(g: Digraph, X0: set<Node>, Y: set<Node>) {
    Superset(g, X0, Y) && forall Z :: X0 <= Z <= Y ==> Exact(g, Z)
  }

  /** In particular it suffices that all supersets of X0 are searched exactly. */
  lemma AllExact(g: Digraph, X0: set<Node>)
    requires X0 <= g.succ.Keys && forall Z :: X0 <= Z <= g.succ.Keys ==> Exact(g, Z)
    requires g.Valid()
    ensures Bounded(g, X0)
  {
    hide Exact, Theta, MustReach, After;
    var Y := g.succ.Keys;
    forall p | After(g, Y, p) ensures ReallySettled(g, Y, p) {
      AfterIsNode(g, Y, p);
      ThetaInside(g, Y, p);
      MustReachHere(g, Y, p);
    }
    assert Bounds(g, X0, Y);
  }

  lemma NeededIsExact(g: Digraph, X0: set<Node>, X: set<Node>)
    requires X0 <= X && Needed(g, X0, X) && Bounded(g, X0)
    ensures Exact(g, X)
  {
    hide Superset, Exact;
    var Y :| Bounds(g, X0, Y);
    assert X <= Y;
  }

  lemma NeededStep(g: Digraph, X0: set<Node>, X: set<Node>, p: Node, r: Node)
    requires g.Valid() && X0 <= X && Needed(g, X0, X) && Bounded(g, X0) && After(g, X, p) && Adds(g, X, p, r)
    ensures Needed(g, X0, X + {p})
  {
    hide StronglyClosed, Exact, After, Adds, Digraph.Valid, Bounded;
    NeededIsExact(g, X0, X);
    forall Y | Superset(g, X0, Y) ensures X + {p} <= Y { AddedIsNeeded(g, X, Y, p, r); }
  }

  lemma NeededIsClosure(g: Digraph, X0: set<Node>, X: set<Node>)
    requires g.Valid() && X0 <= X <= g.succ.Keys && Needed(g, X0, X) && Bounded(g, X0) && Closed(g, X)
    ensures IsClosure(g, X0, X)
  {
    hide StronglyClosed, Exact, Digraph.Valid, Bounded, Closed, NoneEarly;
    NeededIsExact(g, X0, X);
    ExactIsNotEarly(g, X);
    StronglyClosedIff(g, X);
  }

  lemma SomethingAdded(g: Digraph, X: set<Node>, p: Node, r: Node)
    requires After(g, X, p) && Adds(g, X, p, r)
    ensures !NothingAdded(g, X)
  {
    hide After, Adds;
  }

  // ---- a set that is left open

  /** 1 and 3 are their own successors, 2 can go to either, and 4 goes to 2. */
  ghost const OPEN: Digraph := Digraph(map[1 := [1], 2 := [1, 3], 3 := [3], 4 := [2]])

  /** Nothing is added to {1, 4}, although 2 lies behind 4, can reach 1 and can avoid it. */
  lemma LeftOpen()
    ensures OPEN.Valid() && NothingAdded(OPEN, {1, 4}) && !StronglyClosed(OPEN, {1, 4})
  {
    hide After, Theta, MustReach, Colors, Digraph.Valid;
    var g := OPEN;
    OpenEdges(g);
    OpenFirst(g);
    OpenColors(g);
    OpenAfter(g);
    StayingAvoids(g, {1, 4}, iset{2, 3}, 2);
    assert !ReallySettled(g, {1, 4}, 2);
    forall p, r | After(g, {1, 4}, p) ensures !Adds(g, {1, 4}, p, r) {
      assert p == 3 ==> g.Edge(p, r) ==> r == 3;
    }
  }

  /** The edges of that graph. */
  ghost predicate Open(g: Digraph) {
    g.succ.Keys == {1, 2, 3, 4} && forall u, v :: g.Edge(u, v) <==> (u, v) in {(1, 1), (2, 1), (2, 3), (3, 3), (4, 2)}
  }

  lemma OpenEdges(g: Digraph)
    requires g == OPEN
    ensures g.Valid() && Open(g) && Succs(g, 1) == {1} && Succs(g, 2) == {1, 3}
    ensures g.Edge(2, 3) && g.Edge(3, 3)
  {
    assert g.succ[2][1] == 3;
  }

  lemma OpenAfter(g: Digraph)
    requires g.Valid() && Open(g)
    ensures After(g, {1, 4}, 2) && forall p :: After(g, {1, 4}, p) ==> p == 1 || p == 2 || p == 3
  {
    hide Digraph.Reaches, Digraph.Valid;
    assert g.Edge(4, 2);
    g.ReachesSelf(2);
    forall p | After(g, {1, 4}, p) ensures p == 1 || p == 2 || p == 3 {
      var x, s :| x in {1, 4} && g.Edge(x, s) && g.Reaches(s, p);
      g.ClosedUnderReaches(iset{1, 2, 3}, s, p);
    }
  }

  lemma OpenFirst(g: Digraph)
    requires g.Valid() && Open(g)
    ensures Theta(g, {1, 4}, 1) == {1} && Theta(g, {1, 4}, 2) == {1} && Theta(g, {1, 4}, 3) == {}
  {
    hide First, Digraph.Valid;
    var X: set<Node> := {1, 4};
    ThetaInside(g, X, 1);
    forall x ensures !First(g, X, 3, x) {
      if First(g, X, 3, x) {
        var p := PathOfFirst(g, X, 3, x);
        g.ClosedUnderReaches(iset{3}, 3, x);
      }
    }
    FirstHere(g, X, 1);
    assert g.Edge(2, 1);
    FirstStep(g, X, 2, 1, 1);
    forall x | First(g, X, 2, x) ensures x == 1 {
      FirstInverse(g, X, 2, x);
      var s :| g.Edge(2, s) && First(g, X, s, x);
      FirstInside(g, X, s, x);
    }
  }

  lemma OpenColors(g: Digraph)
    requires Succs(g, 1) == {1} && Succs(g, 2) == {1, 3}
    ensures 1 in Colors(g, {1, 4}) && 2 in Colors(g, {1, 4})
  {
    hide Returned, Succs, RuleClosed;
    ReturnedIsClosed(g, {1, 4});
    ColorsEarly(g, {1, 4}, Returned(g, {1, 4}));
  }

  lemma AddsOutside(g: Digraph, X: set<Node>, p: Node, r: Node)
    requires Adds(g, X, p, r)
    ensures p in g.succ && p !in X
  {
    ColorsTargets(g, X);
    hide Colors, Theta;
    if p in X { ThetaInside(g, X, p); }
  }

  lemma NodesOf(succ: map<Node, seq<Node>>, pred: map<Node, seq<Node>>)
    requires Inverse(succ, pred)
    ensures Digraph(succ).Valid()
    ensures forall v :: v in succ ==>
      (set s | s in succ[v]) == Succs(Digraph(succ), v) && Succs(Digraph(succ), v) <= succ.Keys
  {
  }

  lemma EmptyQueue()
    ensures SetQueue({}, []).Valid() && SetQueue({}, []).Done() == {}
  {
  }

  lemma EmptiedQueue(q: SetQueue)
    requires q.queue == []
    ensures q.Done() == q.queued
  {
  }

  lemma FirstSuccessors(g: Digraph, X: set<Node>, n: Node, Q: set<Node>)
    requires Q == Succs(g, n)
    ensures SuccessorsIn(g, n, Q) && Expanded(g, X, {}, Q, {})
  {
  }

  lemma FoundFirst(g: Digraph, X: set<Node>, n: Node, Q: set<Node>, v: Node)
    requires Leads(g, X, n, Q) && v in Q && v in X && v in g.succ
    ensures v in Theta(g, X, n)
  {
    hide First;
    FirstHere(g, X, v);
  }

  lemma ExpandFound(g: Digraph, X: set<Node>, done: set<Node>, Q: set<Node>, found: set<Node>, v: Node)
    requires Expanded(g, X, done, Q, found) && v in X
    ensures Expanded(g, X, done + {v}, Q, found + {v})
  {
    hide SuccessorsIn;
  }

  lemma ExpandNode(g: Digraph, X: set<Node>, n: Node, done: set<Node>, Q: set<Node>, Q': set<Node>, found: set<Node>,
                   v: Node)
    requires Expanded(g, X, done, Q, found) && SuccessorsIn(g, n, Q) && v !in X && Q' == Q + Succs(g, v)
    ensures Expanded(g, X, done + {v}, Q', found) && SuccessorsIn(g, n, Q')
  {
  }

  /** The queued nodes lie behind X. */
  ghost predicate AllAfter(g: Digraph, X: set<Node>, Q: set<Node>) { forall v :: v in Q ==> After(g, X, v) }

  /** No popped node has to be added, and their and X's successors were queued. */
  ghost predicate Searched(g: Digraph, X: set<Node>, done: set<Node>, Q: set<Node>) {
    && (forall v :: v in X || v in done ==> SuccessorsIn(g, v, Q))
    && (forall v, r :: v in done ==> !Adds(g, X, v, r))
  }

  ghost function SuccsOf(g: Digraph, X: set<Node>): set<Node> { set v, s | v in X && s in Succs(g, v) :: s }

  lemma MoreSuccessors(g: Digraph, A: set<Node>, n: Node, B: set<Node>)
    requires B == A + {n}
    ensures SuccsOf(g, B) == SuccsOf(g, A) + Succs(g, n)
  {
  }

  lemma StartSearch(g: Digraph, X: set<Node>, Q: set<Node>)
    requires g.Valid() && Q == SuccsOf(g, X)
    ensures AllAfter(g, X, Q) && Searched(g, X, {}, Q)
  {
    hide Digraph.Reaches, Adds;
    forall s | s in Q ensures After(g, X, s) {
      var x :| x in X && s in Succs(g, x);
      g.ReachesSelf(s);
      assert g.Edge(x, s);
    }
    forall v, s | v in X && g.Edge(v, s) ensures s in Q { assert s in Succs(g, v); }
  }

  lemma IsAfter(g: Digraph, X: set<Node>, Q: set<Node>, p: Node)
    requires AllAfter(g, X, Q) && p in Q
    ensures After(g, X, p)
  {
  }

  lemma SearchNode(g: Digraph, X: set<Node>, done: set<Node>, Q: set<Node>, Q': set<Node>, p: Node)
    requires AllAfter(g, X, Q) && Searched(g, X, done, Q) && p in Q && Q' == Q + Succs(g, p)
    requires forall r :: !Adds(g, X, p, r)
    ensures AllAfter(g, X, Q') && Searched(g, X, done + {p}, Q')
  {
    hide After, Adds;
    forall s | s in Succs(g, p) ensures After(g, X, s) {
      assert g.Edge(p, s);
      AfterStep(g, X, p, s);
    }
    forall v | v in X || v in done + {p} ensures SuccessorsIn(g, v, Q') {
      assert v != p ==> SuccessorsIn(g, v, Q);
    }
  }

  lemma SearchedAll(g: Digraph, X: set<Node>, Q: set<Node>)
    requires Searched(g, X, Q, Q)
    ensures NothingAdded(g, X)
  {
    hide Adds, Digraph.Reaches;
    forall n, r | After(g, X, n) ensures !Adds(g, X, n, r) {
      var x, s :| x in X && g.Edge(x, s) && g.Reaches(s, n);
      assert SuccessorsIn(g, x, Q);
      g.ClosedUnderReaches((iset v | v in Q), s, n);
    }
  }
}
