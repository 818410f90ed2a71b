/** The nodes of a set that are reached first. */
module FirstReachables {
  import opened Digraphs
  import opened MaximalPaths

  /** A path from n to a node x of X that has no earlier node in X. */
  ghost predicate FirstPath(g: Digraph, X: set<Node>, p: seq<Node>, n: Node, x: Node) {
    g.PathFromTo(p, n, x) && x in X && forall i :: 0 <= i < |p| - 1 ==> p[i] !in X
  }

  ghost predicate First(g: Digraph, X: set<Node>, n: Node, x: Node) { exists p :: FirstPath(g, X, p, n, x) }

  ghost function Theta(g: Digraph, X: set<Node>, n: Node): set<Node> { set x | x in X && First(g, X, n, x) }

  lemma FirstHere(g: Digraph, X: set<Node>, x: Node)
    requires x in X && x in g.succ
    ensures First(g, X, x, x)
  {
    assert FirstPath(g, X, [x], x, x);
  }

  lemma FirstStep(g: Digraph, X: set<Node>, n: Node, s: Node, x: Node)
    requires n !in X && g.Edge(n, s) && First(g, X, s, x)
    ensures First(g, X, n, x)
  {
    var p :| FirstPath(g, X, p, s, x);
    var q := [n] + p;
    forall i | 0 <= i < |q| - 1 ensures g.Edge(q[i], q[i + 1]) && q[i] !in X {
      if i > 0 { assert q[i] == p[i - 1] && q[i + 1] == p[i - 1 + 1]; }
    }
    assert FirstPath(g, X, q, n, x);
  }

  lemma FirstTail(g: Digraph, X: set<Node>, p: seq<Node>, n: Node, x: Node)
    requires g.Valid() && FirstPath(g, X, p, n, x) && |p| > 1
    ensures n !in X && g.Edge(n, p[1]) && FirstPath(g, X, p[1..], p[1], x) && First(g, X, p[1], x)
  {
    g.PathTail(p);
  }

  /** A node outside X passes the question on to its successors. */
  lemma FirstInverse(g: Digraph, X: set<Node>, n: Node, x: Node)
    requires g.Valid() && First(g, X, n, x) && n !in X
    ensures exists s :: g.Edge(n, s) && First(g, X, s, x)
  {
    var p :| FirstPath(g, X, p, n, x);
    FirstTail(g, X, p, n, x);
  }

  lemma FirstInside(g: Digraph, X: set<Node>, n: Node, x: Node)
    requires First(g, X, n, x)
    ensures x in X && (n in X ==> x == n)
  {
    var p :| FirstPath(g, X, p, n, x);
  }

  lemma ThetaInside(g: Digraph, X: set<Node>, n: Node)
    requires n in X && n in g.succ
    ensures Theta(g, X, n) == {n}
  {
    FirstHere(g, X, n);
    forall x | First(g, X, n, x) ensures x == n { FirstInside(g, X, n, x); }
  }

  lemma ThetaMember(g: Digraph, X: set<Node>, n: Node, x: Node)
    ensures x in Theta(g, X, n) <==> First(g, X, n, x)
  {
    hide First;
    if First(g, X, n, x) { FirstInside(g, X, n, x); }
  }

  ghost predicate HasFirst(g: Digraph, T: set<Node>, n: Node) { exists y :: First(g, T, n, y) }

  /** A node that must reach T has a first node of T. */
  lemma MustHasFirst(g: Digraph, T: set<Node>, n: Node)
    requires g.Valid() && T <= g.succ.Keys && MustReach(g, T, n)
    ensures HasFirst(g, T, n)
  {
    hide MustReach, First, Digraph.Valid;
    var K := iset v | HasFirst(g, T, v);
    forall v | v in T ensures v in K { FirstHere(g, T, v); }
    forall v | HasSuccessors(g, v) && (forall w :: g.Edge(v, w) ==> w in K) ensures v in K {
      if v in T {
        FirstHere(g, T, v);
      } else {
        var w := g.succ[v][0];
        assert g.Edge(v, w);
        var y :| First(g, T, w, y);
        FirstStep(g, T, v, w, y);
      }
    }
    MustReachIsLeast(g, T, K, n);
  }

  // ---- a set X inside Y, where u meets Y only in y

  ghost predicate Only(g: Digraph, Y: set<Node>, u: Node, y: Node) { forall z :: First(g, Y, u, z) ==> z == y }

  lemma OnlyStep(g: Digraph, Y: set<Node>, u: Node, y: Node, s: Node)
    requires Only(g, Y, u, y) && u !in Y && g.Edge(u, s)
    ensures Only(g, Y, s, y)
  {
    forall z | First(g, Y, s, z) ensures z == y { FirstStep(g, Y, u, s, z); }
  }

  lemma {:induction false} FirstPassesThrough(g: Digraph, X: set<Node>, Y: set<Node>, u: Node, y: Node, p: seq<Node>,
                                              x: Node)
    requires g.Valid() && X <= Y && Only(g, Y, u, y) && FirstPath(g, X, p, u, x) && u in g.succ
    ensures First(g, X, y, x)
    decreases |p|
  {
    hide Only, Digraph.Valid;
    if u in Y {
      FirstHere(g, Y, u);
      OnlyIs(g, Y, u, y, u);
    } else {
      assert |p| > 1;
      FirstTail(g, X, p, u, x);
      OnlyStep(g, Y, u, y, p[1]);
      EdgeIsNode(g, u, p[1]);
      FirstPassesThrough(g, X, Y, p[1], y, p[1..], x);
    }
  }

  lemma OnlyIs(g: Digraph, Y: set<Node>, u: Node, y: Node, z: Node)
    requires Only(g, Y, u, y) && First(g, Y, u, z)
    ensures z == y
  {
  }

  lemma EdgeIsNode(g: Digraph, u: Node, v: Node)
    requires g.Valid() && g.Edge(u, v)
    ensures v in g.succ
  {
  }

  lemma {:induction false} FirstFromBefore(g: Digraph, X: set<Node>, Y: set<Node>, r: Node, q: seq<Node>, y: Node,
                                           x: Node)
    requires g.Valid() && X <= Y && FirstPath(g, Y, q, r, y) && First(g, X, y, x)
    ensures First(g, X, r, x)
    decreases |q|
  {
    hide First, Digraph.Valid;
    if |q| > 1 {
      FirstTail(g, Y, q, r, y);
      FirstFromBefore(g, X, Y, q[1], q[1..], y, x);
      FirstStep(g, X, r, q[1], x);
    }
  }

  lemma {:induction false} MustBehind(g: Digraph, X: set<Node>, Y: set<Node>, r: Node, q: seq<Node>, y: Node)
    requires g.Valid() && X <= Y && FirstPath(g, Y, q, r, y) && MustReach(g, X, r)
    ensures MustReach(g, X, y)
    decreases |q|
  {
    hide MustReach, First, Digraph.Valid;
    if |q| > 1 {
      FirstTail(g, Y, q, r, y);
      MustReachInverse(g, X, r);
      MustBehind(g, X, Y, q[1], q[1..], y);
    }
  }

  /** If p must reach Y, meets it only in y and y must reach X, then p must reach X. */
  lemma MustThrough(g: Digraph, X: set<Node>, Y: set<Node>, p: Node, y: Node)
    requires g.Valid() && X <= Y <= g.succ.Keys && MustReach(g, Y, p) && Only(g, Y, p, y) && MustReach(g, X, y)
    ensures MustReach(g, X, p)
  {
    hide MustReach, First, Only, Digraph.Valid;
    var K := iset v | Only(g, Y, v, y) ==> MustReach(g, X, v);
    forall v | v in Y ensures v in K {
      FirstHere(g, Y, v);
      if Only(g, Y, v, y) { OnlyIs(g, Y, v, y, v); }
    }
    forall v | HasSuccessors(g, v) && (forall w :: g.Edge(v, w) ==> w in K) ensures v in K {
      if v !in Y && Only(g, Y, v, y) {
        forall w | g.Edge(v, w) ensures MustReach(g, X, w) { OnlyStep(g, Y, v, y, w); }
        MustReachStep(g, X, v);
      }
    }
    MustReachIsLeast(g, Y, K, p);
  }
}
