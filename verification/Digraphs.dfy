/** Directed graphs with ordered successor lists, paths and reachability. */
module Digraphs {

  type Node = nat

  datatype Digraph = Digraph(succ: map<Node, seq<Node>>)
  {
    /** Successors are nodes of the graph. */
    ghost predicate Valid() {
      forall u, i :: u in succ && 0 <= i < |succ[u]| ==> succ[u][i] in succ
    }

    ghost predicate Edge(u: Node, v: Node) { u in succ && v in succ[u] }

    ghost predicate Path(p: seq<Node>) {
      && p != [] && p[0] in succ
      && forall i :: 0 <= i < |p| - 1 ==> Edge(p[i], p[i + 1])
    }

    ghost predicate PathFromTo(p: seq<Node>, u: Node, v: Node) {
      Path(p) && p[0] == u && p[|p| - 1] == v
    }

    /** v can be reached from u in zero or more steps. */
    ghost predicate Reaches(u: Node, v: Node) { exists p :: PathFromTo(p, u, v) }

    lemma PathOf(u: Node, v: Node) returns (p: seq<Node>)
      requires Reaches(u, v)
      ensures PathFromTo(p, u, v)
    {
      p :| PathFromTo(p, u, v);
    }

    lemma PathTail(p: seq<Node>)
      requires Valid() && Path(p) && |p| > 1
      ensures Path(p[1..])
    {
      assert Edge(p[0], p[1]);
      var q := p[1..];
      forall i | 0 <= i < |q| - 1 ensures Edge(q[i], q[i + 1]) { assert Edge(p[i + 1], p[i + 1 + 1]); }
    }

    lemma ReachesSelf(u: Node)
      requires u in succ
      ensures Reaches(u, u)
    {
      assert PathFromTo([u], u, u);
    }

    lemma ReachesStep(u: Node, v: Node)
      requires Edge(u, v)
      ensures Reaches(u, v)
    {
      assert PathFromTo([u, v], u, v);
    }

    lemma ReachesTransitive(u: Node, v: Node, w: Node)
      requires Reaches(u, v) && Reaches(v, w)
      ensures Reaches(u, w)
    {
      var p :| PathFromTo(p, u, v);
      var q :| PathFromTo(q, v, w);
      var r := p + q[1..];
      forall i | 0 <= i < |r| - 1 ensures Edge(r[i], r[i + 1]) {
        if i < |p| - 1 {
          assert r[i] == p[i] && r[i + 1] == p[i + 1];
        } else {
          assert r[i] == q[i - (|p| - 1)] && r[i + 1] == q[i + 1 - (|p| - 1)];
        }
      }
      assert PathFromTo(r, u, w);
    }

    /** A set closed under edges is closed under reachability. */
    lemma {:induction false} ClosedUnderReaches(S: iset<Node>, u: Node, v: Node)
      requires u in S && Reaches(u, v)
      requires forall x, y :: x in S && Edge(x, y) ==> y in S
      ensures v in S
    {
      var p :| PathFromTo(p, u, v);
      var i := 0;
      while i < |p| - 1
        invariant i < |p| && p[i] in S
      {
        i := i + 1;
      }
    }

    lemma ReachesIsNode(u: Node, v: Node)
      requires Valid() && Reaches(u, v)
      ensures u in succ && v in succ
    {
      var p :| PathFromTo(p, u, v);
      if |p| > 1 { assert Edge(p[|p| - 2], p[|p| - 1]); }
    }
  }
}
