/** Non-termination sensitive control dependence, by colouring backwards. */
module NTSCD2s {
  import opened Digraphs
  import opened MaximalPaths
  import opened CDGraphs
  import opened ControlDependences

  class NTSCD2 {
    var data: map<Node, nat>

    /** The nodes of the graph that have the colour of the target. */
    function Colored(graph: CDGraph, target: Node): set<Node>
      reads this`data, graph`succ
    {
      set v | v in graph.succ && v in data && data[v] == target
    }

    predicate HasColor(v: Node, target: Node)
      reads this
    {
      v in data && data[v] == target
    }

    constructor ()
      ensures data == map[]
    {
      data := map[];
    }

    /** The predecessors of n that lack the target's colour join a frontier. */
    method Enqueue(graph: CDGraph, n: Node, target: Node, frontier: set<Node>) returns (r: set<Node>)
      requires graph.Valid() && n in graph.succ
      ensures r == frontier + (set p | p in graph.pred[n] && p !in Colored(graph, target))
    {
      r := frontier;
      var i := 0;
      while i < |graph.pred[n]|
        invariant i <= |graph.pred[n]|
        invariant r == frontier + (set p | p in graph.pred[n][..i] && !HasColor(p, target))
      {
        var p := graph.pred[n][i];
        assert graph.pred[n][..i + 1] == graph.pred[n][..i] + [p];
        if !HasColor(p, target) {
          r := r + {p};
        }
        i := i + 1;
      }
      assert graph.pred[n][..i] == graph.pred[n];
      assert forall p :: p in graph.pred[n] ==> graph.G().Edge(p, n);
    }

    method AllColored(graph: CDGraph, n: Node, target: Node) returns (colorit: bool)
      requires graph.Valid() && n in graph.succ
      ensures colorit <==> forall v :: graph.G().Edge(n, v) ==> v in Colored(graph, target)
    {
      colorit := true;
      var i := 0;
      while i < |graph.succ[n]|
        invariant i <= |graph.succ[n]| && colorit && forall j :: 0 <= j < i ==> HasColor(graph.succ[n][j], target)
      {
        if !HasColor(graph.succ[n][i], target) {
          colorit := false;
          assert graph.G().Edge(n, graph.succ[n][i]);
          break;
        }
        i := i + 1;
      }
      if colorit {
        forall v | graph.G().Edge(n, v) ensures v in Colored(graph, target) {
          var j :| 0 <= j < |graph.succ[n]| && graph.succ[n][j] == v;
        }
      }
    }

    /** Colour n if all its successors are coloured and enqueue its predecessors;
        otherwise put n back. */
    method ColorOrRequeue(graph: CDGraph, target: Node, n: Node, frontier: set<Node>)
      returns (r: set<Node>, colored: bool)
      requires graph.Valid() && n in graph.succ
      modifies this`data
      ensures colored <==> forall v :: graph.G().Edge(n, v) ==> v in old(Colored(graph, target))
      ensures colored ==> Colored(graph, target) == old(Colored(graph, target)) + {n}
      ensures colored ==> r == frontier + (set p | p in graph.pred[n] && p !in Colored(graph, target))
      ensures !colored ==> data == old(data) && r == frontier + {n}
      ensures forall v :: v in data ==> data[v] == target || (v in old(data) && data[v] == old(data)[v])
    {
      colored := AllColored(graph, n, target);
      if colored {
        data := data[n := target];
        r := Enqueue(graph, n, target, frontier);
      } else {
        r := frontier + {n};
      }
    }

    /** Colour the nodes that must reach the target. */
    method Color(graph: CDGraph, target: Node)
      requires graph.Valid() && target in graph.succ && forall v :: v in data ==> data[v] != target
      modifies this`data
      ensures Colored(graph, target) == MustSet(graph.G(), {target})
      ensures forall v :: v in data ==> data[v] == target || (v in old(data) && data[v] == old(data)[v])
    {
      hide MustReach, Inverse, InOrder, Branching, Coloring, Lacks, Digraph.Valid;
      ghost var g := graph.G();
      SameNodes(graph.succ, graph.pred);
      data := data[target := target];
      assert Colored(graph, target) == {target};
      var frontier := Enqueue(graph, target, target, {});
      FrontierStarts(graph.succ, graph.pred, target, frontier);
      var progress := true;
      while progress
        invariant Coloring(g, target, Colored(graph, target), frontier)
        invariant !progress ==> forall p :: p in frontier ==>
          p !in Colored(graph, target) && Lacks(g, Colored(graph, target), p)
        invariant forall v :: v in data ==> data[v] == target || (v in old(data) && data[v] == old(data)[v])
        decreases g.succ.Keys - Colored(graph, target), frontier * Colored(graph, target), progress
      {
        progress := false;
        ghost var K0 := Colored(graph, target);
        var todo, newFrontier := frontier, {};
        assert todo + newFrontier == frontier;
        while todo != {}
          invariant Coloring(g, target, Colored(graph, target), todo + newFrontier) && todo <= frontier
          invariant K0 <= Colored(graph, target) <= g.succ.Keys
          invariant !progress ==> Colored(graph, target) == K0 && forall p :: p in newFrontier ==> Lacks(g, K0, p)
          invariant Colored(graph, target) == K0 ==> newFrontier !! K0 && (progress ==> frontier * K0 != {})
          invariant forall v :: v in data ==> data[v] == target || (v in old(data) && data[v] == old(data)[v])
          decreases todo
        {
          var n :| n in todo;
          ghost var K := Colored(graph, target);
          ghost var before := newFrontier;
          FrontierNode(g, target, K, todo + newFrontier, n);
          assert todo + newFrontier == (todo - {n}) + {n} + before;
          todo := todo - {n};
          var colored;
          newFrontier, colored := ColorOrRequeue(graph, target, n, newFrontier);
          if colored {
            ColorNode(graph.succ, graph.pred, target, K, todo, before, newFrontier, n);
            progress := true;
          } else {
            assert todo + newFrontier == todo + {n} + before;
          }
        }
        assert todo + newFrontier == newFrontier;
        frontier := newFrontier;
      }
      AllFound(g, target, Colored(graph, target), frontier);
    }

    /** The control dependences of all nodes, and the reverse relation. */
    method Compute(graph: CDGraph) returns (CD: Dependences, revCD: Dependences)
      requires graph.Valid() && data == map[]
      modifies this
      ensures AllDependences(graph.G(), CD, revCD)
    {
      hide Records, Inverse, MustSet;
      ghost var g := graph.G();
      SameNodes(graph.succ, graph.pred);
      CD, revCD := map[], map[];
      var id := 1;
      ghost var done: set<Node> := {};
      RecordNone(g, MustSets(g));
      while id <= |graph.succ|
        invariant 1 <= id <= |graph.succ| + 1 && done == set v | v in graph.succ && v < id
        invariant Records(g, MustSets(g), done, CD, revCD) && forall v :: v in data ==> data[v] in done
      {
        Color(graph, id);
        CD, revCD := AddDependences(graph, id, Colored(graph, id), CD, revCD, MustSets(g), done);
        done := done + {id};
        id := id + 1;
      }
      assert done == g.succ.Keys;
      RecordsAll(g, CD, revCD);
    }
  }

  ghost predicate Lacks(g: Digraph, K: set<Node>, p: Node) { exists v :: g.Edge(p, v) && v !in K }

  /** K are coloured nodes; the frontier holds every other node with an edge to them. */
  ghost predicate Coloring(g: Digraph, target: Node, K: set<Node>, frontier: set<Node>) {
    && g.Valid() && target in K && K <= g.succ.Keys
    && (forall v :: v in K ==> MustReach(g, {target}, v))
    && (forall v, w :: v in K && v != target && g.Edge(v, w) ==> w in K)
    && target !in frontier && (forall p :: p in frontier ==> HasSuccessors(g, p))
    && (forall p, v :: p !in K && v in K && g.Edge(p, v) ==> p in frontier)
  }

  lemma SameNodes(succ: map<Node, seq<Node>>, pred: map<Node, seq<Node>>)
    requires Inverse(succ, pred)
    ensures pred.Keys == succ.Keys && Digraph(succ).Valid()
  {
  }

  lemma FrontierStarts(succ: map<Node, seq<Node>>, pred: map<Node, seq<Node>>, target: Node, frontier: set<Node>)
    requires Inverse(succ, pred) && target in succ && forall p :: p in frontier <==> p in pred[target] && p != target
    ensures Coloring(Digraph(succ), target, {target}, frontier)
  {
    var g := Digraph(succ);
    MustReachHere(g, {target}, target);
    forall p | p in frontier ensures HasSuccessors(g, p) { assert g.Edge(p, target); }
  }

  lemma FrontierNode(g: Digraph, target: Node, K: set<Node>, frontier: set<Node>, n: Node)
    requires Coloring(g, target, K, frontier) && n in frontier
    ensures HasSuccessors(g, n) && n in g.succ && n != target
    ensures K <= g.succ.Keys && (!(forall v :: g.Edge(n, v) ==> v in K) ==> Lacks(g, K, n) && n !in K)
  {
    hide MustReach;
  }

  /** A frontier node whose successors are all coloured is coloured. */
  lemma ColorNode(succ: map<Node, seq<Node>>, pred: map<Node, seq<Node>>, target: Node, K: set<Node>,
                  todo: set<Node>, before: set<Node>, after: set<Node>, n: Node)
    requires Inverse(succ, pred) && Coloring(Digraph(succ), target, K, todo + {n} + before)
    requires HasSuccessors(Digraph(succ), n) && n != target
    requires forall v :: Digraph(succ).Edge(n, v) ==> v in K
    requires after == before + (set p | p in pred[n] && p !in K + {n})
    ensures Coloring(Digraph(succ), target, K + {n}, todo + after)
  {
    hide MustReach;
    var g := Digraph(succ);
    MustReachStep(g, {target}, n);
    forall p | p in todo + after ensures HasSuccessors(g, p) {
      assert p in todo + {n} + before || g.Edge(p, n);
    }
  }

  lemma AllFound(g: Digraph, target: Node, K: set<Node>, frontier: set<Node>)
    requires Coloring(g, target, K, frontier) && forall p :: p in frontier ==> p !in K && Lacks(g, K, p)
    ensures K == MustSet(g, {target})
  {
    hide MustReach;
    forall v | v in g.succ && MustReach(g, {target}, v) ensures v in K {
      var S := iset u | u in K;
      forall u | HasSuccessors(g, u) && (forall w :: g.Edge(u, w) ==> w in S) ensures u in S {
        assert g.Edge(u, g.succ[u][0]);
      }
      MustReachIsLeast(g, {target}, S, v);
    }
  }
}
