/** The walk over a pointer graph that collects the nodes to process. */
module NodesWalks {
  import opened Digraphs

  /** The edges of a node. A call leads to the entries of its callees instead of its
      successors, a return to its return sites, when there are any. */
  datatype Edges =
    | Plain(successors: seq<Node>)
    | Call(successors: seq<Node>, callees: seq<Node>)
    | Return(successors: seq<Node>, returnSites: seq<Node>)
  {
    function Targets(): seq<Node> {
      match this
      case Plain(successors) => successors
      case Call(successors, callees) => if callees != [] then callees else successors
      case Return(successors, returnSites) => if returnSites != [] then returnSites else successors
    }
  }

  /** The walk goes from n to m: into a callee or back to a return site where there are any, and
      else along the successors. */
  ghost predicate Leads(edges: map<Node, Edges>, n: Node, m: Node) {
    n in edges
    && match edges[n]
       case Plain(successors) => m in successors
       case Call(successors, callees) => m in callees || (|callees| == 0 && m in successors)
       case Return(successors, returnSites) => m in returnSites || (|returnSites| == 0 && m in successors)
  }

  lemma WalkedLeads(edges: map<Node, Edges>, n: Node, m: Node)
    requires Walked(edges).Valid()
    ensures Walked(edges).Edge(n, m) <==> Leads(edges, n, m)
  {
  }

  ghost function Walked(edges: map<Node, Edges>): Digraph { Digraph(map n | n in edges :: edges[n].Targets()) }

  ghost predicate ReachedFrom(g: Digraph, start: seq<Node>, v: Node) { exists u :: u in start && g.Reaches(u, v) }

  ghost function ToSet(s: seq<Node>): set<Node> { set n | n in s }

  /** The targets that were not visited, in order. */
  ghost function Unvisited(targets: seq<Node>, visited: set<Node>): (r: seq<Node>)
    ensures forall n :: n in r ==> n in targets && n !in visited
  {
    if targets == [] then []
    else
      var r, last := Unvisited(targets[..|targets| - 1], visited), targets[|targets| - 1];
      if last in visited || last in r then r else r + [last]
  }

  /** The nodes of a breadth-first walk, in its order. */
  ghost function WalkOrder(g: Digraph, queue: seq<Node>, visited: set<Node>): seq<Node>
    requires g.Valid() && forall n :: n in queue ==> n in g.succ
    decreases g.succ.Keys - visited, |queue|
  {
    if queue == [] then []
    else
      var added := Unvisited(g.succ[queue[0]], visited);
      assert added != [] ==> added[0] in added && added[0] in g.succ.Keys - visited;
      [queue[0]] + WalkOrder(g, queue[1..] + added, visited + ToSet(added))
  }

  class PointerGraph {
    const edges: map<Node, Edges>
    var dfsnum: nat
    /** The number of the last walk that visited a node. */
    var dfsid: map<Node, nat>

    ghost function G(): Digraph { Walked(edges) }

    ghost predicate Valid()
      reads this
    {
      G().Valid() && forall n :: n in dfsid ==> dfsid[n] <= dfsnum
    }

    constructor (edges: map<Node, Edges>)
      requires Walked(edges).Valid()
      ensures Valid() && this.edges == edges
    {
      this.edges := edges;
      dfsnum, dfsid := 0, map[];
    }

    predicate Visited(n: Node)
      reads this
    {
      n in dfsid && dfsid[n] == dfsnum
    }

    ghost function VisitedNodes(): set<Node>
      reads this
    {
      set n | n in dfsid && dfsid[n] == dfsnum
    }

    method Enqueue(queue: seq<Node>, n: Node) returns (r: seq<Node>)
      requires Valid()
      modifies this`dfsid
      ensures Valid() && r == queue + [n] && VisitedNodes() == old(VisitedNodes()) + {n}
    {
      r := queue + [n];
      dfsid := dfsid[n := dfsnum];
    }

    /** Enqueue the targets of the current node that were not visited. */
    method EnqueueTargets(queue: seq<Node>, current: Node) returns (r: seq<Node>)
      requires Valid() && current in edges && VisitedNodes() <= edges.Keys
      modifies this`dfsid
      ensures Valid() && VisitedNodes() <= edges.Keys
      ensures var added := Unvisited(edges[current].Targets(), old(VisitedNodes()));
        r == queue + added && VisitedNodes() == old(VisitedNodes()) + ToSet(added)
    {
      hide Unvisited, Digraph.Valid;
      ghost var before, added := VisitedNodes(), [];
      var succs, j := edges[current].Targets(), 0;
      assert G().succ[current] == succs;
      NoneUnvisited(succs, before);
      r := queue;
      while j < |succs|
        invariant j <= |succs| && Valid() && r == queue + added && added == Unvisited(succs[..j], before)
        invariant VisitedNodes() == before + ToSet(added) && VisitedNodes() <= edges.Keys
      {
        UnvisitedStep(succs, j, before);
        if !Visited(succs[j]) {
          IsTarget(G(), current, j);
          added := added + [succs[j]];
          r := Enqueue(r, succs[j]);
        }
        j := j + 1;
      }
      assert succs[..j] == succs;
    }

    /** The nodes that can be reached from the start nodes, in the order of the walk. */
    method GetNodes(start: seq<Node>) returns (cont: seq<Node>)
      requires Valid() && forall n :: n in start ==> n in edges
      modifies this`dfsnum, this`dfsid
      ensures Valid() && Ordered(G(), start, cont, [], ToSet(cont))
      ensures forall v :: v in cont <==> ReachedFrom(G(), start, v)
    {
      hide Digraph.Reaches, Digraph.Valid, Walking, Unvisited, Ordered, ReachedFrom;
      dfsnum := dfsnum + 1;
      cont := [];
      var queue: seq<Node> := [];
      var i := 0;
      StartWalk(G(), start);
      OrderedStart(G(), start);
      while i < |start|
        invariant i <= |start| && queue == start[..i] && Valid()
        invariant VisitedNodes() == ToSet(queue)
      {
        queue := Enqueue(queue, start[i]);
        i := i + 1;
      }
      assert queue == start;
      while queue != []
        invariant Valid() && VisitedNodes() <= edges.Keys && Walking(G(), start, cont, queue, VisitedNodes())
        invariant Ordered(G(), start, cont, queue, VisitedNodes())
        decreases edges.Keys - VisitedNodes(), |queue|
      {
        ghost var before := VisitedNodes();
        HeadVisited(G(), start, cont, queue, before);
        var current := queue[0];
        ghost var added := Unvisited(G().succ[current], before);
        MoreVisited(G(), edges.Keys, before, current);
        WalkOn(G(), start, cont, queue, before, added);
        OrderOn(G(), start, cont, queue, before, added);
        queue := EnqueueTargets(queue[1..], current);
        cont := cont + [current];
      }
      WalkedAll(G(), start, cont, VisitedNodes());
      OrderedEnd(G(), start, cont, VisitedNodes());
    }
  }

  lemma MoreVisited(g: Digraph, all: set<Node>, visited: set<Node>, n: Node)
    requires g.Valid() && all == g.succ.Keys && n in g.succ
    ensures var added := Unvisited(g.succ[n], visited); added == [] || all - (visited + ToSet(added)) < all - visited
    ensures var added := Unvisited(g.succ[n], visited); forall k :: 0 <= k < |g.succ[n]| ==>
      g.succ[n][k] in visited + ToSet(added)
  {
    var added := Unvisited(g.succ[n], visited);
    if added != [] { assert added[0] in added && added[0] in all - visited && added[0] in ToSet(added); }
    AllVisited(g.succ[n], visited);
  }

  lemma {:induction false} AllVisited(targets: seq<Node>, visited: set<Node>)
    ensures forall k :: 0 <= k < |targets| ==> targets[k] in visited + ToSet(Unvisited(targets, visited))
  {
    if targets != [] { AllVisited(targets[..|targets| - 1], visited); }
  }

  /** cont are the first nodes of the walk from start, and the rest follows from queue. */
  ghost predicate Ordered(g: Digraph, start: seq<Node>, cont: seq<Node>, queue: seq<Node>, visited: set<Node>) {
    && g.Valid() && (forall n :: n in start || n in queue ==> n in g.succ)
    && cont + WalkOrder(g, queue, visited) == WalkOrder(g, start, ToSet(start))
  }

  lemma OrderedStart(g: Digraph, start: seq<Node>)
    requires g.Valid() && forall n :: n in start ==> n in g.succ
    ensures Ordered(g, start, [], start, ToSet(start))
  {
    hide WalkOrder;
    assert [] + WalkOrder(g, start, ToSet(start)) == WalkOrder(g, start, ToSet(start));
  }

  lemma OrderedEnd(g: Digraph, start: seq<Node>, cont: seq<Node>, visited: set<Node>)
    requires Ordered(g, start, cont, [], visited)
    ensures Ordered(g, start, cont, [], ToSet(cont))
  {
  }

  lemma OrderOn(g: Digraph, start: seq<Node>, cont: seq<Node>, queue: seq<Node>, visited: set<Node>, added: seq<Node>)
    requires Ordered(g, start, cont, queue, visited) && queue != [] && added == Unvisited(g.succ[queue[0]], visited)
    ensures Ordered(g, start, cont + [queue[0]], queue[1..] + added, visited + ToSet(added))
  {
    hide Unvisited;
    forall n | n in queue[1..] + added ensures n in g.succ {}
    var rest := WalkOrder(g, queue[1..] + added, visited + ToSet(added));
    assert WalkOrder(g, queue, visited) == [queue[0]] + rest;
    assert cont + ([queue[0]] + rest) == cont + [queue[0]] + rest;
  }

  lemma NoneUnvisited(targets: seq<Node>, visited: set<Node>)
    ensures Unvisited(targets[..0], visited) == []
  {
  }

  lemma UnvisitedStep(targets: seq<Node>, j: nat, visited: set<Node>)
    requires j < |targets|
    ensures var r := Unvisited(targets[..j], visited);
      Unvisited(targets[..j + 1], visited) == if targets[j] in visited + ToSet(r) then r else r + [targets[j]]
  {
    assert targets[..j + 1][..j] == targets[..j];
  }

  lemma IsTarget(g: Digraph, u: Node, j: nat)
    requires g.Valid() && u in g.succ && j < |g.succ[u]|
    ensures g.succ[u][j] in g.succ
  {
  }

  lemma HeadVisited(g: Digraph, start: seq<Node>, cont: seq<Node>, queue: seq<Node>, visited: set<Node>)
    requires Walking(g, start, cont, queue, visited) && queue != []
    ensures queue[0] in visited
  {
  }

  ghost predicate Walking(g: Digraph, start: seq<Node>, cont: seq<Node>, queue: seq<Node>, visited: set<Node>) {
    && (forall v :: v in visited <==> v in cont || v in queue)
    && (forall v :: v in start ==> v in visited)
    && (forall v :: v in visited ==> ReachedFrom(g, start, v))
    && (forall v, w :: v in cont && g.Edge(v, w) ==> w in visited)
  }

  lemma StartWalk(g: Digraph, start: seq<Node>)
    requires forall n :: n in start ==> n in g.succ
    ensures Walking(g, start, [], start, ToSet(start))
  {
    hide Digraph.Reaches;
    forall v | v in start ensures ReachedFrom(g, start, v) { g.ReachesSelf(v); }
  }

  lemma WalkOn(g: Digraph, start: seq<Node>, cont: seq<Node>, queue: seq<Node>, visited: set<Node>, added: seq<Node>)
    requires Walking(g, start, cont, queue, visited) && queue != [] && queue[0] in g.succ
    requires forall n :: n in added ==> n in g.succ[queue[0]]
    requires forall k :: 0 <= k < |g.succ[queue[0]]| ==> g.succ[queue[0]][k] in visited + ToSet(added)
    ensures Walking(g, start, cont + [queue[0]], queue[1..] + added, visited + ToSet(added))
  {
    hide Digraph.Reaches;
    var c := queue[0];
    assert ReachedFrom(g, start, c);
    forall w | w in g.succ[c] ensures ReachedFrom(g, start, w) {
      var u :| u in start && g.Reaches(u, c);
      g.ReachesStep(c, w);
      g.ReachesTransitive(u, c, w);
    }
    hide ReachedFrom;
    assert queue == [c] + queue[1..];
  }

  lemma WalkedAll(g: Digraph, start: seq<Node>, cont: seq<Node>, visited: set<Node>)
    requires Walking(g, start, cont, [], visited)
    ensures forall v :: v in cont <==> ReachedFrom(g, start, v)
  {
    hide Digraph.Reaches;
    forall v | ReachedFrom(g, start, v) ensures v in cont {
      var u :| u in start && g.Reaches(u, v);
      g.ClosedUnderReaches((iset x | x in cont), u, v);
    }
  }
}
