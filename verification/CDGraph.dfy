/** The graph on which control dependences are computed. Nodes are named by their
    numbers, which start at 1. */
module CDGraphs {
  import opened Digraphs

  ghost predicate NoDuplicates(s: seq<Node>) { forall i, j :: 0 <= i < j < |s| ==> s[i] != s[j] }

  /** The lists of successors and predecessors are inverse and hold no node twice. */
  ghost predicate Inverse(succ: map<Node, seq<Node>>, pred: map<Node, seq<Node>>) {
    && pred.Keys == succ.Keys && Digraph(succ).Valid()
    && (forall u, v :: v in succ ==> (Digraph(succ).Edge(u, v) <==> u in pred[v]))
    && (forall v :: v in succ ==> NoDuplicates(succ[v]) && NoDuplicates(pred[v]))
  }

  ghost predicate InOrder(succ: map<Node, seq<Node>>) { forall v :: v in succ <==> 1 <= v <= |succ| }

  ghost function Branching(succ: map<Node, seq<Node>>): set<Node> { set v | v in succ && |succ[v]| > 1 }

  class CDGraph {
    var succ: map<Node, seq<Node>>
    var pred: map<Node, seq<Node>>
    /** The nodes with more than one successor. */
    var predicates: set<Node>

    ghost function G(): Digraph
      reads this`succ
    {
      Digraph(succ)
    }

    ghost predicate Valid()
      reads this
    {
      InOrder(succ) && Inverse(succ, pred) && predicates == Branching(succ)
    }

    constructor ()
      ensures Valid() && succ == map[]
    {
      succ, pred, predicates := map[], map[], {};
    }

    method CreateNode() returns (n: Node)
      requires Valid()
      modifies this
      ensures Valid() && n == old(|succ|) + 1 && succ == old(succ)[n := []]
    {
      NodeCreated(succ, pred);
      n := |succ| + 1;
      succ := succ[n := []];
      pred := pred[n := []];
    }

    /** Add an edge unless it is there already. */
    method AddNodeSuccessor(n: Node, s: Node)
      requires Valid() && n in succ && s in succ
      modifies this
      ensures Valid() && succ.Keys == old(succ.Keys)
      ensures forall u, v :: G().Edge(u, v) <==> old(G().Edge(u, v)) || (u == n && v == s)
      ensures forall v :: v in succ ==> old(succ[v]) <= succ[v]
    {
      hide Inverse, Branching;
      ghost var was := succ;
      BranchingAdded(succ, n, s);
      AddSuccessor(n, s);
      SuccessorAdded(was, n, s);
      if |succ[n]| > 1 {
        predicates := predicates + {n};
      }
    }

    method AddSuccessor(n: Node, s: Node)
      requires Inverse(succ, pred) && n in succ && s in succ
      modifies this`succ, this`pred
      ensures Inverse(succ, pred) && succ == Added(old(succ), n, s)
    {
      var i := 0;
      while i < |succ[n]|
        invariant i <= |succ[n]| && s !in succ[n][..i]
      {
        if succ[n][i] == s {
          return;
        }
        i := i + 1;
      }
      assert s !in succ[n];
      EdgeAdded(succ, pred, n, s);
      succ := succ[n := succ[n] + [s]];
      i := 0;
      while i < |pred[s]|
        invariant i <= |pred[s]|
      {
        if pred[s][i] == n {
          return;
        }
        i := i + 1;
      }
      pred := pred[s := pred[s] + [n]];
    }
  }

  ghost function Added(succ: map<Node, seq<Node>>, n: Node, s: Node): map<Node, seq<Node>>
    requires n in succ
  {
    if s in succ[n] then succ else succ[n := succ[n] + [s]]
  }

  lemma NodeCreated(succ: map<Node, seq<Node>>, pred: map<Node, seq<Node>>)
    requires InOrder(succ) && Inverse(succ, pred)
    ensures var n := |succ| + 1; var next := succ[n := []];
      && n !in succ && n !in pred && InOrder(next) && Inverse(next, pred[n := []]) && Branching(next) == Branching(succ)
  {
    hide Inverse, InOrder, Branching;
    NextNumber(succ);
    IsolatedNode(succ, pred, |succ| + 1);
    IsolatedBranching(succ, |succ| + 1);
  }

  lemma NextNumber(succ: map<Node, seq<Node>>)
    requires InOrder(succ)
    ensures |succ| + 1 !in succ && InOrder(succ[|succ| + 1 := []])
  {
    var n := |succ| + 1;
    var next := succ[n := []];
    assert n !in succ;
    assert next.Keys == succ.Keys + {n};
    assert |next| == |next.Keys| == |succ| + 1;
    forall v ensures v in next <==> 1 <= v <= |next| { assert v in next <==> v in succ || v == n; }
  }

  lemma IsolatedBranching(succ: map<Node, seq<Node>>, n: Node)
    requires n !in succ
    ensures Branching(succ[n := []]) == Branching(succ)
  {
  }

  lemma IsolatedNode(succ: map<Node, seq<Node>>, pred: map<Node, seq<Node>>, n: Node)
    requires Inverse(succ, pred) && n !in succ
    ensures n !in pred && Inverse(succ[n := []], pred[n := []])
  {
    assert forall u, i :: u in succ && 0 <= i < |succ[u]| ==> succ[u][i] != n;
  }

  lemma EdgeAdded(succ: map<Node, seq<Node>>, pred: map<Node, seq<Node>>, n: Node, s: Node)
    requires Inverse(succ, pred) && n in succ && s in succ && s !in succ[n]
    ensures n !in pred[s] && Inverse(succ[n := succ[n] + [s]], pred[s := pred[s] + [n]])
  {
    assert !Digraph(succ).Edge(n, s);
  }

  lemma SuccessorAdded(succ: map<Node, seq<Node>>, n: Node, s: Node)
    requires n in succ
    ensures var now := Added(succ, n, s); now.Keys == succ.Keys && forall v :: v in now ==> succ[v] <= now[v]
    ensures var now := Added(succ, n, s); forall u, v :: Digraph(now).Edge(u, v) <==>
      Digraph(succ).Edge(u, v) || (u == n && v == s)
  {
  }

  lemma BranchingAdded(succ: map<Node, seq<Node>>, n: Node, s: Node)
    requires n in succ && InOrder(succ)
    ensures var now := Added(succ, n, s);
      InOrder(now) && Branching(now) == if |now[n]| > 1 then Branching(succ) + {n} else Branching(succ)
  {
    assert Added(succ, n, s).Keys == succ.Keys;
  }
}
