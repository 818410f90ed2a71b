/** Post-dominance, and correct trees of immediate post-dominators. */
module PostDominance {
  import opened Digraphs

  /** Every path from y to the exit passes x, and there is one. */
  ghost predicate PDom(g: Digraph, exit: Node, x: Node, y: Node) {
    g.Reaches(y, exit) && forall p :: g.PathFromTo(p, y, exit) ==> x in p
  }

  ghost predicate SPDom(g: Digraph, exit: Node, x: Node, y: Node) { x != y && PDom(g, exit, x, y) }

  /** ipdom names the closest strict post-dominator of every node that reaches the exit. */
  ghost predicate CorrectTree(g: Digraph, exit: Node, ipdom: map<Node, Node>) {
    && g.Valid() && exit in g.succ && g.succ[exit] == []
    && (forall y :: y in ipdom <==> y != exit && g.Reaches(y, exit))
    && (forall y :: y in ipdom ==> SPDom(g, exit, ipdom[y], y))
    && (forall y, z :: y in ipdom && SPDom(g, exit, z, y) ==> PDom(g, exit, z, ipdom[y]))
  }

  lemma Suffix(g: Digraph, p: seq<Node>, u: Node, v: Node, i: nat)
    requires g.Valid() && g.PathFromTo(p, u, v) && i < |p|
    ensures g.PathFromTo(p[i..], p[i], v)
  {
    var q := p[i..];
    forall k | 0 <= k < |q| - 1 ensures g.Edge(q[k], q[k + 1]) { assert g.Edge(p[i + k], p[i + k + 1]); }
    if i > 0 { assert g.Edge(p[i - 1], p[i - 1 + 1]); }
  }

  lemma Splice(g: Digraph, p: seq<Node>, u: Node, v: Node, i: nat, q: seq<Node>, w: Node) returns (r: seq<Node>)
    requires g.PathFromTo(p, u, v) && i < |p| && g.PathFromTo(q, p[i], w)
    ensures g.PathFromTo(r, u, w) && forall x :: x in r ==> x in p[..i] || x in q
  {
    r := p[..i] + q;
    forall k | 0 <= k < |r| - 1 ensures g.Edge(r[k], r[k + 1]) {
      if k + 1 < i {
        assert r[k] == p[k] && r[k + 1] == p[k + 1];
      } else if k < i {
        assert r[k] == p[k] && r[k + 1] == q[0] && g.Edge(p[k], p[k + 1]);
      } else {
        assert r[k] == q[k - i] && r[k + 1] == q[k - i + 1];
      }
    }
  }

  lemma PDomReflexive(g: Digraph, exit: Node, y: Node)
    requires g.Reaches(y, exit)
    ensures PDom(g, exit, y, y)
  {
  }

  lemma PDomReaches(g: Digraph, exit: Node, x: Node, y: Node)
    requires g.Valid() && PDom(g, exit, x, y)
    ensures g.Reaches(x, exit) && g.Reaches(y, exit)
  {
    var p := g.PathOf(y, exit);
    var i :| 0 <= i < |p| && p[i] == x;
    Suffix(g, p, y, exit, i);
  }

  lemma PDomTransitive(g: Digraph, exit: Node, x: Node, y: Node, z: Node)
    requires g.Valid() && PDom(g, exit, x, y) && PDom(g, exit, y, z)
    ensures PDom(g, exit, x, z)
  {
    forall p | g.PathFromTo(p, z, exit) ensures x in p {
      var i :| 0 <= i < |p| && p[i] == y;
      Suffix(g, p, z, exit, i);
      assert x in p[i..];
    }
  }

  /** A path from a to the exit that avoids b, for a and b that do not both
      post-dominate each other. */
  lemma Avoiding(g: Digraph, exit: Node, b: Node, a: Node) returns (q: seq<Node>)
    requires g.Reaches(a, exit) && !PDom(g, exit, b, a)
    ensures g.PathFromTo(q, a, exit) && b !in q
  {
    q :| g.PathFromTo(q, a, exit) && b !in q;
  }

  lemma PDomAntisymmetric(g: Digraph, exit: Node, a: Node, b: Node)
    requires g.Valid() && PDom(g, exit, a, b) && PDom(g, exit, b, a)
    ensures a == b
  {
    var p := g.PathOf(a, exit);
    if a != b {
      NoEscape(g, exit, a, b, p);
    }
  }

  /** A path from a or b to the exit cannot leave both for good. */
  lemma {:induction false} NoEscape(g: Digraph, exit: Node, a: Node, b: Node, p: seq<Node>)
    requires g.Valid() && PDom(g, exit, a, b) && PDom(g, exit, b, a) && a != b && p != [] && (p[0] == a || p[0] == b)
    ensures !g.PathFromTo(p, p[0], exit)
    decreases |p|
  {
    if g.PathFromTo(p, p[0], exit) {
      var other := if p[0] == a then b else a;
      var i :| 0 <= i < |p| && p[i] == other;
      Suffix(g, p, p[0], exit, i);
      NoEscape(g, exit, a, b, p[i..]);
    }
  }

  /** The post-dominators of a node form a chain. */
  lemma PDomTotal(g: Digraph, exit: Node, a: Node, b: Node, s: Node)
    requires g.Valid() && PDom(g, exit, a, s) && PDom(g, exit, b, s)
    ensures PDom(g, exit, a, b) || PDom(g, exit, b, a)
  {
    PDomReaches(g, exit, a, s);
    PDomReaches(g, exit, b, s);
    if !PDom(g, exit, a, b) && !PDom(g, exit, b, a) {
      var qa := Avoiding(g, exit, b, a);
      var qb := Avoiding(g, exit, a, b);
      var p := g.PathOf(s, exit);
      Bypass(g, exit, a, b, s, p, qa, qb);
    }
  }

  lemma Bypass(g: Digraph, exit: Node, a: Node, b: Node, s: Node, p: seq<Node>, qa: seq<Node>, qb: seq<Node>)
    requires g.PathFromTo(p, s, exit) && a in p && b in p
    requires g.PathFromTo(qa, a, exit) && b !in qa && g.PathFromTo(qb, b, exit) && a !in qb
    ensures !(PDom(g, exit, a, s) && PDom(g, exit, b, s))
  {
    var i := FirstOf(p, a, b);
    var r := Splice(g, p, s, exit, i, if p[i] == a then qa else qb, exit);
    assert (if p[i] == a then b else a) !in r;
  }

  lemma FirstOf(p: seq<Node>, a: Node, b: Node) returns (i: nat)
    requires a in p
    ensures i < |p| && (p[i] == a || p[i] == b) && a !in p[..i] && b !in p[..i]
  {
    i := 0;
    while p[i] != a && p[i] != b
      invariant i < |p| && a !in p[..i] && b !in p[..i] && a in p[i..]
      decreases |p| - i
    {
      i := i + 1;
    }
  }

  /** A strict post-dominator of y post-dominates the successors of y. */
  lemma PDomSuccessor(g: Digraph, exit: Node, x: Node, y: Node, s: Node)
    requires g.Valid() && SPDom(g, exit, x, y) && g.Edge(y, s) && g.Reaches(s, exit)
    ensures PDom(g, exit, x, s)
  {
    forall p | g.PathFromTo(p, s, exit) ensures x in p {
      var q := [y] + p;
      forall k | 0 <= k < |q| - 1 ensures g.Edge(q[k], q[k + 1]) {
        if k > 0 { assert q[k] == p[k - 1] && q[k + 1] == p[k - 1 + 1]; }
      }
      assert g.PathFromTo(q, y, exit);
      assert x in q;
    }
  }

  // ---- frontiers

  /** x post-dominates a successor of y, but not strictly y. */
  ghost predicate Frontier(g: Digraph, exit: Node, x: Node, y: Node) {
    !SPDom(g, exit, x, y) && exists s :: g.Edge(y, s) && PDom(g, exit, x, s)
  }

  lemma Parent(g: Digraph, exit: Node, ipdom: map<Node, Node>, y: Node)
    requires CorrectTree(g, exit, ipdom) && y in ipdom
    ensures g.Valid() && y in g.succ && g.Reaches(y, exit) && SPDom(g, exit, ipdom[y], y)
    ensures forall z :: SPDom(g, exit, z, y) ==> PDom(g, exit, z, ipdom[y])
  {
    hide PDom, SPDom, Digraph.Reaches;
    g.ReachesIsNode(y, exit);
  }

  /** An edge to a node that reaches the exit starts in the tree. */
  lemma InTree(g: Digraph, exit: Node, ipdom: map<Node, Node>, y: Node, s: Node)
    requires CorrectTree(g, exit, ipdom) && g.Edge(y, s) && g.Reaches(s, exit)
    ensures y in ipdom
  {
    hide Digraph.Reaches;
    g.ReachesStep(y, s);
    g.ReachesTransitive(y, s, exit);
  }

  /** A predecessor of x. */
  lemma LocalFrontier(g: Digraph, exit: Node, ipdom: map<Node, Node>, x: Node, y: Node)
    requires CorrectTree(g, exit, ipdom) && g.Edge(y, x) && g.Reaches(x, exit) && y != x
    ensures y in ipdom && (ipdom[y] != x <==> Frontier(g, exit, x, y))
  {
    hide Digraph.Reaches, PDom, Digraph.Valid, CorrectTree;
    InTree(g, exit, ipdom, y, x);
    Parent(g, exit, ipdom, y);
    PDomReflexive(g, exit, x);
    var p := ipdom[y];
    PDomSuccessor(g, exit, p, y, x);
    if SPDom(g, exit, x, y) { PDomAntisymmetric(g, exit, p, x); }
  }

  /** What a child's frontier passes on to its parent x. */
  lemma UpIsFrontier(g: Digraph, exit: Node, ipdom: map<Node, Node>, x: Node, z: Node, y: Node, s: Node)
    requires CorrectTree(g, exit, ipdom) && z in ipdom && ipdom[z] == x && y != x
    requires g.Edge(y, s) && PDom(g, exit, z, s) && (y == z || !SPDom(g, exit, z, y))
    ensures y in ipdom && (ipdom[y] != x ==> Frontier(g, exit, x, y))
  {
    hide Digraph.Reaches, PDom, Digraph.Valid, CorrectTree;
    Parent(g, exit, ipdom, z);
    PDomReaches(g, exit, z, s);
    InTree(g, exit, ipdom, y, s);
    Parent(g, exit, ipdom, y);
    PDomTransitive(g, exit, x, z, s);
    var p := ipdom[y];
    PDomSuccessor(g, exit, p, y, s);
    PDomTotal(g, exit, p, z, s);
    if p != x && SPDom(g, exit, x, y) {
      NotAbove(g, exit, ipdom, x, z, y);
    }
  }

  lemma NotAbove(g: Digraph, exit: Node, ipdom: map<Node, Node>, x: Node, z: Node, y: Node)
    requires CorrectTree(g, exit, ipdom) && z in ipdom && ipdom[z] == x && y in ipdom && ipdom[y] != x
    requires SPDom(g, exit, x, y)
    requires PDom(g, exit, ipdom[y], z) || PDom(g, exit, z, ipdom[y])
    ensures y != z && SPDom(g, exit, z, y)
  {
    hide Digraph.Reaches, PDom, Digraph.Valid, CorrectTree;
    Parent(g, exit, ipdom, z);
    Parent(g, exit, ipdom, y);
    var p := ipdom[y];
    if PDom(g, exit, z, p) {
      PDomTransitive(g, exit, z, p, y);
      if z == y { PDomAntisymmetric(g, exit, p, y); }
    } else {
      assert SPDom(g, exit, p, z);
      PDomAntisymmetric(g, exit, p, x);
    }
  }

  /** The child of x through which x post-dominates s. */
  lemma {:induction false} ChildToward(g: Digraph, exit: Node, ipdom: map<Node, Node>, x: Node, s: Node)
    returns (z: Node)
    requires CorrectTree(g, exit, ipdom) && SPDom(g, exit, x, s)
    ensures z in ipdom && ipdom[z] == x && PDom(g, exit, z, s)
    decreases Above(g, exit, s)
  {
    hide Digraph.Reaches, PDom, Digraph.Valid;
    TreeFacts(g, exit, ipdom, x, s);
    Parent(g, exit, ipdom, s);
    hide CorrectTree;
    if ipdom[s] == x {
      PDomReflexive(g, exit, s);
      z := s;
    } else {
      FewerAbove(g, exit, ipdom, s);
      z := ChildToward(g, exit, ipdom, x, ipdom[s]);
      PDomTransitive(g, exit, z, ipdom[s], s);
    }
  }

  lemma TreeFacts(g: Digraph, exit: Node, ipdom: map<Node, Node>, x: Node, s: Node)
    requires CorrectTree(g, exit, ipdom) && SPDom(g, exit, x, s)
    ensures s in ipdom
  {
    if s == exit {
      assert g.PathFromTo([exit], exit, exit);
    }
  }

  ghost function Above(g: Digraph, exit: Node, s: Node): set<Node> { set z | z in g.succ && SPDom(g, exit, z, s) }

  lemma FewerAbove(g: Digraph, exit: Node, ipdom: map<Node, Node>, s: Node)
    requires CorrectTree(g, exit, ipdom) && s in ipdom
    ensures Above(g, exit, ipdom[s]) < Above(g, exit, s)
  {
    hide Digraph.Reaches, PDom, Digraph.Valid, CorrectTree;
    Parent(g, exit, ipdom, s);
    var p := ipdom[s];
    forall z | z in Above(g, exit, p) ensures z in Above(g, exit, s) {
      PDomTransitive(g, exit, z, p, s);
      if z == s { PDomAntisymmetric(g, exit, p, s); }
    }
    PDomReaches(g, exit, p, s);
    g.ReachesIsNode(p, exit);
    assert p in Above(g, exit, s) && p !in Above(g, exit, p);
  }

  /** A frontier node of x that is not a predecessor comes from a child's frontier. */
  lemma FrontierFromChild(g: Digraph, exit: Node, ipdom: map<Node, Node>, x: Node, y: Node)
    requires CorrectTree(g, exit, ipdom) && Frontier(g, exit, x, y) && x != y
    ensures y in ipdom && ipdom[y] != x
    ensures g.Edge(y, x) || exists z :: z in ipdom && ipdom[z] == x && z != y && Frontier(g, exit, z, y)
  {
    hide Digraph.Reaches, PDom, Digraph.Valid, CorrectTree;
    var s :| g.Edge(y, s) && PDom(g, exit, x, s);
    TreeIsValid(g, exit, ipdom);
    PDomReaches(g, exit, x, s);
    InTree(g, exit, ipdom, y, s);
    Parent(g, exit, ipdom, y);
    if s != x {
      var z := ChildToward(g, exit, ipdom, x, s);
      Parent(g, exit, ipdom, z);
      if SPDom(g, exit, z, y) {
        PDomTransitive(g, exit, x, z, y);
      }
      assert Frontier(g, exit, z, y);
    }
  }

  lemma TreeIsValid(g: Digraph, exit: Node, ipdom: map<Node, Node>)
    requires CorrectTree(g, exit, ipdom)
    ensures g.Valid() && exit in g.succ && forall z :: z in ipdom ==> z != ipdom[z]
  {
  }
}
