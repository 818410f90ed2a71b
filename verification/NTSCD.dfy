/** Non-termination sensitive control dependence by the counter search. */
module NTSCDs {
  import opened Digraphs
  import opened MaximalPaths
  import opened CDGraphs
  import opened ControlDependences
  import opened CounterSearches
  import opened CounterSearchRuns

  ghost function ColorSets(g: Digraph): map<Node, set<Node>> { map n | n in g.succ :: Colors(g, {n}) }

  class NTSCD {
    /** The nodes coloured for the last target. */
    var data: set<Node>

    constructor () { data := {}; }

    method ComputeTarget(graph: CDGraph, target: Node)
      requires graph.Valid() && Narrow(graph.G()) && target in graph.succ
      modifies this
      ensures data == Colors(graph.G(), {target})
    {
      ghost var pops;
      data, pops := CounterSearch(graph, {target});
    }

    /** The dependences that the colours say; they are the control dependences of every
        node for which the search is exact. */
    method Compute(graph: CDGraph) returns (CD: Dependences, revCD: Dependences)
      requires graph.Valid() && Narrow(graph.G())
      modifies this
      ensures Records(graph.G(), ColorSets(graph.G()), graph.succ.Keys, CD, revCD)
    {
      hide Records, Inverse, Colors, Narrow;
      ghost var g := graph.G();
      CD, revCD := map[], map[];
      var id := 1;
      ghost var done: set<Node> := {};
      RecordNone(g, ColorSets(g));
      while id <= |graph.succ|
        invariant 1 <= id <= |graph.succ| + 1 && done == set v | v in graph.succ && v < id
        invariant Records(g, ColorSets(g), done, CD, revCD)
      {
        ComputeTarget(graph, id);
        CD, revCD := AddDependences(graph, id, data, CD, revCD, ColorSets(g), done);
        done := done + {id};
        id := id + 1;
      }
      assert done == g.succ.Keys;
    }
  }

  /** The two relations hold the control dependences on node n, as those of NTSCD2 do. */
  ghost predicate Agrees(g: Digraph, CD: Dependences, revCD: Dependences, n: Node) {
    forall p :: RightFor(g, CD, revCD, n, p)
  }

  /** If a successor of p can avoid n but not evade it, then p has a successor that must
      reach n iff it has one that can evade it. */
  ghost predicate Harmless(g: Digraph, n: Node, p: Node) {
    Overcolored(g, n, p) ==>
      ((exists v :: g.Edge(p, v) && MustReach(g, {n}, v)) <==> exists v :: g.Edge(p, v) && CanEvade(g, n, v))
  }

  ghost predicate Overcolored(g: Digraph, n: Node, p: Node) {
    exists v :: g.Edge(p, v) && !CanEvade(g, n, v) && !MustReach(g, {n}, v)
  }

  /** The colours of the successors of p say the right thing iff p is harmless. */
  lemma MixedIffHarmless(g: Digraph, n: Node, p: Node)
    requires g.Valid() && n in g.succ
    ensures (Mixed(g, Colors(g, {n}), p) <==> DependsOn(g, n, p)) <==> Harmless(g, n, p)
  {
    hide MustReach, Colors, CanEvade;
    MustIsColored(g, {n});
    forall v | g.Edge(p, v) ensures v !in Colors(g, {n}) <==> CanEvade(g, n, v) { UncoloredIff(g, n, v); }
    assert forall v :: g.Edge(p, v) && MustReach(g, {n}, v) ==> v in MustSet(g, {n});
  }

  /** The relations are right for n iff every node is harmless. */
  lemma AgreesIff(g: Digraph, CD: Dependences, revCD: Dependences, n: Node)
    requires g.Valid() && Records(g, ColorSets(g), g.succ.Keys, CD, revCD) && n in g.succ
    ensures Agrees(g, CD, revCD, n) <==> forall p :: Harmless(g, n, p)
  {
    hide Colors, Mixed, DependsOn, Harmless, Get;
    forall p ensures RightFor(g, CD, revCD, n, p) <==> Harmless(g, n, p) {
      assert Recorded(g, ColorSets(g), g.succ.Keys, CD, revCD, n, p);
      MixedIffHarmless(g, n, p);
    }
  }

  lemma ExactIsHarmless(g: Digraph, n: Node, p: Node)
    requires g.Valid() && n in g.succ && Colors(g, {n}) == MustSet(g, {n})
    ensures Harmless(g, n, p)
  {
    hide MustReach, Colors, CanEvade;
    forall v | g.Edge(p, v) ensures CanEvade(g, n, v) <==> v !in MustSet(g, {n}) { UncoloredIff(g, n, v); }
  }

  /** They are right for every node whose search is exact. */
  lemma AgreesWhereExact(g: Digraph, CD: Dependences, revCD: Dependences, n: Node)
    requires g.Valid() && Records(g, ColorSets(g), g.succ.Keys, CD, revCD) && n in g.succ && ExactTarget(g, n)
    ensures Agrees(g, CD, revCD, n)
  {
    hide MustReach, Colors, ExactTarget, Agrees, Digraph.Valid;
    SingleTarget(g, n);
    AgreesIff(g, CD, revCD, n);
    forall p ensures Harmless(g, n, p) { ExactIsHarmless(g, n, p); }
  }

  /** 1 is its own successor, 2 can go to 1 or to 3 and stay there, 4 can go to 1 or 2. */
  ghost const FORK: Digraph := Digraph(map[1 := [1], 2 := [1, 3], 3 := [3], 4 := [1, 2]])

  /** 4 decides whether 1 must be reached, and the relations miss it. */
  lemma MissesDependence(CD: Dependences, revCD: Dependences)
    requires Records(FORK, ColorSets(FORK), FORK.succ.Keys, CD, revCD)
    ensures FORK.Valid() && DependsOn(FORK, 1, 4) && 4 !in Get(CD, 1) && 1 !in Get(revCD, 4)
  {
    Fork(FORK);
    hide DependsOn, Records, Digraph.Valid, Get;
    MissedFork(FORK, CD, revCD);
  }

  lemma MissedFork(g: Digraph, CD: Dependences, revCD: Dependences)
    requires g.Valid() && 1 in g.succ && Records(g, ColorSets(g), g.succ.Keys, CD, revCD)
    requires Succs(g, 1) == {1} && Succs(g, 2) == {1, 3} && g.Edge(2, 3) && g.Edge(3, 3)
    requires forall v :: g.Edge(4, v) <==> v == 1 || v == 2
    ensures DependsOn(g, 1, 4) && 4 !in Get(CD, 1) && 1 !in Get(revCD, 4)
  {
    hide MustReach, Returned, RuleClosed, Succs, Digraph.Valid, Get;
    ReturnedIsClosed(g, {1});
    ColorsEarly(g, {1}, Returned(g, {1}));
    AvoidsForever(g);
    MustReachHere(g, {1}, 1);
    assert g.Edge(4, 1) && g.Edge(4, 2);
    assert Recorded(g, ColorSets(g), g.succ.Keys, CD, revCD, 1, 4);
  }

  lemma Fork(g: Digraph)
    requires g == FORK
    ensures g.Valid() && Succs(g, 1) == {1} && Succs(g, 2) == {1, 3} && g.Edge(2, 3) && g.Edge(3, 3)
    ensures 1 in g.succ && forall v :: g.Edge(4, v) <==> v == 1 || v == 2
  {
    assert g.succ[2][1] == 3 && g.succ[4][1] == 2;
  }
}
