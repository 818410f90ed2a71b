/** Maximal paths of a graph: infinite ones, and ones that end in a node without
    successors. A finite path is drawn out by repeating its last node. */
module MaximalPaths {
  import opened Digraphs

  ghost predicate Maximal(g: Digraph, f: nat -> Node, n: Node) {
    f(0) == n && forall i: nat :: Steps(g, f(i), f(i + 1))
  }

  ghost predicate Steps(g: Digraph, u: Node, v: Node) {
    if HasSuccessors(g, u) then g.Edge(u, v) else v == u
  }

  ghost predicate HasSuccessors(g: Digraph, u: Node) { u in g.succ && g.succ[u] != [] }

  ghost predicate Hits(f: nat -> Node, T: set<Node>) { exists i: nat :: f(i) in T }

  /** Every maximal path from n contains a node of T. */
  ghost predicate MustReach(g: Digraph, T: set<Node>, n: Node) {
    forall f: nat -> Node :: Maximal(g, f, n) ==> Hits(f, T)
  }

  ghost function Shift(f: nat -> Node, k: nat): nat -> Node { (i: nat) => f(i + k) }

  lemma ShiftMaximal(g: Digraph, f: nat -> Node, n: Node, k: nat)
    requires Maximal(g, f, n)
    ensures Maximal(g, Shift(f, k), f(k))
  {
    forall i: nat ensures Steps(g, Shift(f, k)(i), Shift(f, k)(i + 1)) {
      assert Steps(g, f(i + k), f(i + k + 1));
    }
  }

  lemma MustReachHere(g: Digraph, T: set<Node>, n: Node)
    requires n in T
    ensures MustReach(g, T, n)
  {
    forall f: nat -> Node | Maximal(g, f, n) ensures Hits(f, T) { assert f(0) in T; }
  }

  lemma MustReachStep(g: Digraph, T: set<Node>, n: Node)
    requires HasSuccessors(g, n) && forall v :: g.Edge(n, v) ==> MustReach(g, T, v)
    ensures MustReach(g, T, n)
  {
    forall f: nat -> Node | Maximal(g, f, n) ensures Hits(f, T) {
      assert Steps(g, f(0), f(1));
      ShiftMaximal(g, f, n, 1);
      var i: nat :| Shift(f, 1)(i) in T;
      assert f(i + 1) in T;
    }
  }

  /** A node that must reach T is in T or passes the obligation to all successors. */
  lemma MustReachInverse(g: Digraph, T: set<Node>, n: Node)
    requires MustReach(g, T, n) && n !in T
    ensures HasSuccessors(g, n) && forall v :: g.Edge(n, v) ==> MustReach(g, T, v)
  {
    DeadEnd(g, T, n);
    forall v, f: nat -> Node | g.Edge(n, v) && Maximal(g, f, v) ensures Hits(f, T) {
      var h := Prepend(g, f, n, v);
      assert Hits(h, T);
      var i: nat :| h(i) in T;
      assert f(i - 1) in T;
    }
  }

  lemma DeadEnd(g: Digraph, T: set<Node>, n: Node)
    requires n !in T
    ensures !HasSuccessors(g, n) ==> !MustReach(g, T, n)
  {
    var f := (i: nat) => n;
    assert !Hits(f, T);
    assert !HasSuccessors(g, n) ==> Maximal(g, f, n);
  }

  lemma Prepend(g: Digraph, f: nat -> Node, n: Node, v: Node) returns (h: nat -> Node)
    requires g.Edge(n, v) && Maximal(g, f, v)
    ensures Maximal(g, h, n) && forall i: nat :: h(i + 1) == f(i)
  {
    h := (i: nat) => if i == 0 then n else f(i - 1);
    forall i: nat ensures Steps(g, h(i), h(i + 1)) {
      if i > 0 { assert Steps(g, f(i - 1), f(i - 1 + 1)); }
    }
  }

  // ---- a maximal path that stays inside a set

  /** One can stay in U forever, or until a node without successors. */
  ghost predicate Stays(g: Digraph, U: iset<Node>) {
    forall u :: u in U ==> StaysAt(g, U, u)
  }

  ghost predicate StaysAt(g: Digraph, U: iset<Node>, u: Node) {
    HasSuccessors(g, u) ==> exists v :: v in U && g.Edge(u, v)
  }

  ghost function Next(g: Digraph, U: iset<Node>, u: Node): (v: Node)
    requires u in U && Stays(g, U)
    ensures v in U && Steps(g, u, v)
  {
    assert StaysAt(g, U, u);
    if HasSuccessors(g, u) then var v :| v in U && g.Edge(u, v); v else u
  }

  ghost function Walk(g: Digraph, U: iset<Node>, u: Node, i: nat): (v: Node)
    requires u in U && Stays(g, U)
    ensures v in U
  {
    if i == 0 then u else Next(g, U, Walk(g, U, u, i - 1))
  }

  lemma StayingAvoids(g: Digraph, T: set<Node>, U: iset<Node>, n: Node)
    requires Stays(g, U) && n in U && forall u :: u in U ==> u !in T
    ensures !MustReach(g, T, n)
  {
    var f := (i: nat) => Walk(g, U, n, i);
    assert Maximal(g, f, n);
    assert !Hits(f, T);
  }

  /** The nodes that must reach T are the least set that holds T and every node all
      of whose successors, at least one, are in it. */
  lemma MustReachIsLeast(g: Digraph, T: set<Node>, K: iset<Node>, n: Node)
    requires forall v :: v in T ==> v in K
    requires forall v :: HasSuccessors(g, v) && (forall w :: g.Edge(v, w) ==> w in K) ==> v in K
    requires MustReach(g, T, n)
    ensures n in K
  {
    if n !in K {
      var U := iset v | v !in K;
      forall u | u in U ensures StaysAt(g, U, u) {
        if HasSuccessors(g, u) {
          var w :| g.Edge(u, w) && w !in K;
          assert w in U;
        }
      }
      StayingAvoids(g, T, U, n);
    }
  }
}
