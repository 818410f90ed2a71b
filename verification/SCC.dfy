/** Tarjan's algorithm for strongly connected components, and the condensation
    of a graph. */
module SCC {
  import opened Digraphs

  datatype NodeInfo = NodeInfo(dfsId: nat, lowpt: nat, onStack: bool)

  datatype State = State(info: map<Node, NodeInfo>, index: nat, stack: seq<Node>, scc: seq<seq<Node>>,
                         id: map<Node, nat>)

  ghost predicate Visited(s: State, v: Node) { v in s.info && s.info[v].dfsId > 0 }

  ghost predicate Done(s: State, v: Node) { Visited(s, v) && !s.info[v].onStack }

  /** The nodes on the stack, in the order of their numbers. */
  ghost predicate StackOk(g: Digraph, s: State) {
    && (forall v :: v in s.info ==> v in g.succ && s.info[v].dfsId <= s.index)
    && (forall i :: 0 <= i < |s.stack| ==> Visited(s, s.stack[i]) && s.info[s.stack[i]].onStack)
    && (forall v :: Visited(s, v) && s.info[v].onStack ==> v in s.stack)
    && (forall i, j :: 0 <= i < j < |s.stack| ==> s.info[s.stack[i]].dfsId < s.info[s.stack[j]].dfsId)
  }

  /** A node on the stack reaches the later ones, and a grey node that is not
      later than itself. */
  ghost predicate StackReaches(g: Digraph, s: State, grey: set<Node>)
    requires StackOk(g, s)
  {
    && (forall v :: v in grey ==> v in s.stack)
    && (forall i, j :: 0 <= i < j < |s.stack| ==> g.Reaches(s.stack[i], s.stack[j]))
    && (forall i :: 0 <= i < |s.stack| ==> ReachesGrey(g, s, grey, s.stack[i]))
  }

  ghost predicate ReachesGrey(g: Digraph, s: State, grey: set<Node>, v: Node) {
    exists x :: x in grey && Visited(s, x) && Visited(s, v) && s.info[x].dfsId <= s.info[v].dfsId && g.Reaches(v, x)
  }

  /** Only grey nodes have successors that were not visited. */
  ghost predicate BlackClosed(g: Digraph, s: State, grey: set<Node>) {
    forall v, w :: Visited(s, v) && v !in grey && g.Edge(v, w) ==> Visited(s, w)
  }

  /** The components found so far. */
  ghost predicate ComponentsOk(g: Digraph, s: State) {
    && (forall v :: Done(s, v) ==> v in s.id && s.id[v] < |s.scc| && v in s.scc[s.id[v]])
    && (forall k, i :: 0 <= k < |s.scc| && 0 <= i < |s.scc[k]| ==>
          Done(s, s.scc[k][i]) && s.scc[k][i] in s.id && s.id[s.scc[k][i]] == k)
    && (forall k, i, j :: 0 <= k < |s.scc| && 0 <= i < j < |s.scc[k]| ==> s.scc[k][i] != s.scc[k][j])
    && (forall v, w :: Done(s, v) && g.Edge(v, w) ==> Done(s, w) && s.id[w] <= s.id[v])
    && (forall u, v :: Done(s, u) && Done(s, v) && s.id[u] == s.id[v] ==> g.Reaches(u, v))
  }

  ghost predicate Inv(g: Digraph, s: State, grey: set<Node>) {
    g.Valid() && StackOk(g, s) && StackReaches(g, s, grey) && BlackClosed(g, s, grey) && ComponentsOk(g, s)
  }

  ghost function White(g: Digraph, s: State): set<Node> {
    set v | v in g.succ.Keys && !Visited(s, v)
  }

  /** What a visit keeps: visited nodes and what is below on the stack. */
  ghost predicate Grows(s: State, t: State) {
    && s.index <= t.index
    && (forall v :: Visited(s, v) ==> v in t.info && t.info[v] == s.info[v])
    && (forall v :: Done(s, v) && v in s.id ==> v in t.id && t.id[v] == s.id[v])
    && s.stack <= t.stack && s.scc <= t.scc
  }

  // ---- starting a visit

  ghost function Pushed(s: State, n: Node): State {
    s.(index := s.index + 1, info := s.info[n := NodeInfo(s.index + 1, s.index + 1, true)], stack := s.stack + [n])
  }

  lemma PushKeepsInv(g: Digraph, s: State, n: Node, grey: set<Node>)
    requires Inv(g, s, grey) && n in g.succ && !Visited(s, n)
    requires forall x :: x in grey ==> g.Reaches(x, n)
    ensures Inv(g, Pushed(s, n), grey + {n}) && Grows(s, Pushed(s, n))
  {
    hide Digraph.Reaches, Digraph.Valid, StackReaches, ReachesGrey;
    var t := Pushed(s, n);
    PushStack(g, s, n);
    PushReaches(g, s, n, grey);
    PushDone(g, s, n, grey);
    hide Done, StackOk, BlackClosed, ComponentsOk;
    PushGrows(s, n);
  }

  lemma PushGrows(s: State, n: Node)
    requires !Visited(s, n)
    ensures Grows(s, Pushed(s, n))
  {
  }

  lemma PushDone(g: Digraph, s: State, n: Node, grey: set<Node>)
    requires StackOk(g, s) && BlackClosed(g, s, grey) && ComponentsOk(g, s) && !Visited(s, n)
    ensures BlackClosed(g, Pushed(s, n), grey + {n}) && ComponentsOk(g, Pushed(s, n))
  {
    hide Digraph.Reaches;
    assert forall v :: Done(Pushed(s, n), v) <==> Done(s, v);
    hide Done, StackOk;
  }

  lemma PushReaches(g: Digraph, s: State, n: Node, grey: set<Node>)
    requires StackOk(g, s) && StackReaches(g, s, grey) && StackOk(g, Pushed(s, n)) && n in g.succ && !Visited(s, n)
    requires forall x :: x in grey ==> g.Reaches(x, n)
    ensures StackReaches(g, Pushed(s, n), grey + {n})
  {
    hide Digraph.Reaches, ReachesGrey;
    var t := Pushed(s, n);
    assert t.stack[|s.stack|] == n;
    forall v | v in grey + {n} ensures v in t.stack {
      if v != n { assert v in s.stack; }
    }
    forall i, j | 0 <= i < j < |t.stack| ensures g.Reaches(t.stack[i], t.stack[j]) {
      if j == |s.stack| {
        assert ReachesGrey(g, s, grey, s.stack[i]);
        GreyReaches(g, s, grey, s.stack[i], n);
      } else {
        assert g.Reaches(s.stack[i], s.stack[j]);
      }
    }
    forall i | 0 <= i < |t.stack| ensures ReachesGrey(g, t, grey + {n}, t.stack[i]) {
      if i < |s.stack| {
        assert ReachesGrey(g, s, grey, s.stack[i]);
        ReachesGreyGrows(g, s, t, grey, grey + {n}, s.stack[i]);
      } else {
        GreyReachesItself(g, t, grey + {n}, n);
      }
    }
  }

  lemma GreyReaches(g: Digraph, s: State, grey: set<Node>, v: Node, n: Node)
    requires ReachesGrey(g, s, grey, v) && forall x :: x in grey ==> g.Reaches(x, n)
    ensures g.Reaches(v, n)
  {
    hide Digraph.Reaches;
    var x :| x in grey && Visited(s, x) && Visited(s, v) && s.info[x].dfsId <= s.info[v].dfsId && g.Reaches(v, x);
    g.ReachesTransitive(v, x, n);
  }

  lemma ReachesGreyGrows(g: Digraph, s: State, t: State, grey: set<Node>, grey': set<Node>, v: Node)
    requires ReachesGrey(g, s, grey, v) && grey <= grey'
    requires forall x :: Visited(s, x) ==> x in t.info && t.info[x].dfsId == s.info[x].dfsId
    ensures ReachesGrey(g, t, grey', v)
  {
    hide Digraph.Reaches;
    var x :| x in grey && Visited(s, x) && Visited(s, v) && s.info[x].dfsId <= s.info[v].dfsId && g.Reaches(v, x);
    assert x in grey' && Visited(t, x) && Visited(t, v);
  }

  lemma GreyReachesItself(g: Digraph, s: State, grey: set<Node>, v: Node)
    requires v in grey && Visited(s, v) && v in g.succ
    ensures ReachesGrey(g, s, grey, v)
  {
    g.ReachesSelf(v);
  }

  lemma PushStack(g: Digraph, s: State, n: Node)
    requires StackOk(g, s) && n in g.succ && !Visited(s, n)
    ensures StackOk(g, Pushed(s, n))
  {
    var t := Pushed(s, n);
    forall v | Visited(t, v) && t.info[v].onStack ensures v in t.stack {
      if v == n { assert t.stack[|s.stack|] == n; } else { assert v in s.stack; }
    }
  }

  // ---- visiting successors

  /** The invariant does not depend on low points. */
  lemma LowptIrrelevant(g: Digraph, s: State, t: State, n: Node, m: nat, grey: set<Node>)
    requires Inv(g, s, grey) && n in s.info && t == s.(info := s.info[n := s.info[n].(lowpt := m)])
    ensures Inv(g, t, grey)
  {
    hide Digraph.Reaches, Digraph.Valid, StackReaches, ReachesGrey;
    assert forall v :: Visited(t, v) <==> Visited(s, v);
    assert forall v :: Done(t, v) <==> Done(s, v);
    LowptReaches(g, s, t, n, m, grey);
    assert StackOk(g, t);
    hide Done, Visited, StackOk;
  }

  lemma LowptStack(g: Digraph, s: State, t: State, n: Node, m: nat)
    requires StackOk(g, s) && n in s.info && t == s.(info := s.info[n := s.info[n].(lowpt := m)])
    ensures StackOk(g, t)
  {
  }

  lemma LowptReaches(g: Digraph, s: State, t: State, n: Node, m: nat, grey: set<Node>)
    requires StackOk(g, s) && StackReaches(g, s, grey) && n in s.info
    requires t == s.(info := s.info[n := s.info[n].(lowpt := m)])
    ensures StackOk(g, t) && StackReaches(g, t, grey)
  {
    hide Digraph.Reaches, ReachesGrey, StackOk;
    LowptStack(g, s, t, n, m);
    forall i | 0 <= i < |t.stack| ensures ReachesGrey(g, t, grey, t.stack[i]) {
      assert ReachesGrey(g, s, grey, s.stack[i]);
      ReachesGreyGrows(g, s, t, grey, grey, s.stack[i]);
    }
  }

  /** What the low point of n says after its first k successors: s is the state
      before n was visited, t the current one. */
  ghost predicate Low(g: Digraph, s: State, t: State, n: Node, k: nat)
    requires n in g.succ && k <= |g.succ[n]|
  {
    && Visited(t, n) && t.info[n].onStack && t.info[n].dfsId == s.index + 1
    && s.stack + [n] <= t.stack
    && t.info[n].lowpt <= t.info[n].dfsId
    && (exists y :: LowTarget(g, t, n, y))
    && (forall i, y :: |s.stack| < i < |t.stack| && y in s.stack && y in t.info && g.Edge(t.stack[i], y) ==>
          t.info[n].lowpt <= t.info[y].dfsId)
    && (forall j :: 0 <= j < k ==> Visited(t, g.succ[n][j]))
    && (forall j :: 0 <= j < k && g.succ[n][j] in s.stack ==> t.info[n].lowpt <= t.info[g.succ[n][j]].dfsId)
  }

  ghost predicate LowTarget(g: Digraph, t: State, n: Node, y: Node) {
    n in t.info && y in t.stack && y in t.info && t.info[y].dfsId == t.info[n].lowpt && g.Reaches(n, y)
  }

  /** What a finished visit of n says: s is the state before it, t behind it. */
  ghost predicate Finished(g: Digraph, s: State, t: State, n: Node) {
    && Visited(t, n) && s.stack <= t.stack
    && (if |t.stack| == |s.stack| then Done(t, n) && t.info[n].lowpt > s.index
        else exists y :: y in s.stack && LowTarget(g, t, n, y))
    && (forall i, y :: |s.stack| <= i < |t.stack| && y in s.stack && y in t.info && g.Edge(t.stack[i], y) ==>
          t.info[n].lowpt <= t.info[y].dfsId)
  }

  function Min(a: nat, b: nat): nat { if a <= b then a else b }

  ghost function WithLow(t: State, n: Node, m: nat): State
    requires n in t.info
  {
    t.(info := t.info[n := t.info[n].(lowpt := Min(t.info[n].lowpt, m))])
  }

  /** A successor that is visited by the search. */
  lemma LowAfterVisit(g: Digraph, s: State, t: State, u: State, n: Node, k: nat)
    requires n in g.succ && k < |g.succ[n]| && Low(g, s, t, n, k) && StackOk(g, t) && StackOk(g, u)
    requires Grows(t, u) && !Visited(t, g.succ[n][k]) && Finished(g, t, u, g.succ[n][k])
    ensures n in u.info && Low(g, s, WithLow(u, n, u.info[g.succ[n][k]].lowpt), n, k + 1)
  {
    hide Digraph.Reaches;
    var w := g.succ[n][k];
    var r := WithLow(u, n, u.info[w].lowpt);
    assert u.info[n] == t.info[n];
    LowTargetAfter(g, t, u, n, w);
    LowEdgesAfter(g, s, t, u, n, k);
    LowSuccessorsAfter(g, s, t, u, n, k);
    hide LowTarget, StackOk;
  }

  lemma PrefixMember(a: seq<Node>, b: seq<Node>, y: Node)
    requires a <= b && y in a
    ensures y in b
  {
    var i :| 0 <= i < |a| && a[i] == y;
    assert b[i] == y;
  }

  lemma LowSuccessorsAfter(g: Digraph, s: State, t: State, u: State, n: Node, k: nat)
    requires n in g.succ && k < |g.succ[n]| && Low(g, s, t, n, k) && StackOk(g, t)
    requires Grows(t, u) && !Visited(t, g.succ[n][k]) && g.succ[n][k] in u.info && n in u.info && u.info[n] == t.info[n]
    ensures var r := WithLow(u, n, u.info[g.succ[n][k]].lowpt);
      forall j :: 0 <= j < k + 1 && g.succ[n][j] in s.stack ==>
        g.succ[n][j] in r.info && r.info[n].lowpt <= r.info[g.succ[n][j]].dfsId
    ensures var r := WithLow(u, n, u.info[g.succ[n][k]].lowpt);
      Visited(u, g.succ[n][k]) ==> forall j :: 0 <= j < k + 1 ==> Visited(r, g.succ[n][j])
  {
    hide Digraph.Reaches, LowTarget;
    var r := WithLow(u, n, u.info[g.succ[n][k]].lowpt);
    forall j | 0 <= j < k + 1 && g.succ[n][j] in s.stack
      ensures g.succ[n][j] in r.info && r.info[n].lowpt <= r.info[g.succ[n][j]].dfsId
    {
      PrefixMember(s.stack, t.stack, g.succ[n][j]);
      assert Visited(t, g.succ[n][j]);
    }
  }

  lemma LowTargetAfter(g: Digraph, t: State, u: State, n: Node, w: Node)
    requires n in t.info && w in u.info && n in u.info && u.info[n] == t.info[n] && g.Edge(n, w) && StackOk(g, t)
    requires Grows(t, u)
    requires exists y :: LowTarget(g, t, n, y)
    requires Visited(t, n) && t.info[n].dfsId <= t.index && t.info[n].lowpt <= t.info[n].dfsId && Finished(g, t, u, w)
    ensures exists y :: LowTarget(g, WithLow(u, n, u.info[w].lowpt), n, y)
  {
    hide Digraph.Reaches;
    var r := WithLow(u, n, u.info[w].lowpt);
    g.ReachesStep(n, w);
    var y :| LowTarget(g, t, n, y);
    if u.info[w].lowpt < t.info[n].lowpt {
      var z :| z in t.stack && LowTarget(g, u, w, z);
      g.ReachesTransitive(n, w, z);
      assert LowTarget(g, r, n, z);
    } else {
      assert Visited(t, y);
      assert LowTarget(g, r, n, y);
    }
  }

  lemma LowEdgesAfter(g: Digraph, s: State, t: State, u: State, n: Node, k: nat)
    requires n in g.succ && k < |g.succ[n]| && Low(g, s, t, n, k) && StackOk(g, t)
    requires Grows(t, u) && Finished(g, t, u, g.succ[n][k]) && n in u.info && u.info[n] == t.info[n]
    ensures var r := WithLow(u, n, u.info[g.succ[n][k]].lowpt);
      forall i, y :: |s.stack| < i < |r.stack| && y in s.stack && y in r.info && g.Edge(r.stack[i], y) ==>
        r.info[n].lowpt <= r.info[y].dfsId
  {
    hide Digraph.Reaches, LowTarget;
    var r := WithLow(u, n, u.info[g.succ[n][k]].lowpt);
    forall i, y | |s.stack| < i < |r.stack| && y in s.stack && y in r.info && g.Edge(r.stack[i], y)
      ensures r.info[n].lowpt <= r.info[y].dfsId
    {
      PrefixMember(s.stack, t.stack, y);
      assert Visited(t, y);
      if i < |t.stack| { assert r.stack[i] == t.stack[i]; }
    }
  }

  /** A successor that is on the stack already, or done. */
  lemma LowAfterVisited(g: Digraph, s: State, t: State, n: Node, k: nat, grey: set<Node>)
    requires n in g.succ && k < |g.succ[n]| && Low(g, s, t, n, k) && Inv(g, t, grey) && Visited(t, g.succ[n][k])
    ensures t.info[g.succ[n][k]].onStack ==> Low(g, s, WithLow(t, n, t.info[g.succ[n][k]].dfsId), n, k + 1)
    ensures !t.info[g.succ[n][k]].onStack ==> Low(g, s, t, n, k + 1)
  {
    hide Digraph.Reaches, Digraph.Valid, ComponentsOk, BlackClosed, StackReaches;
    hide Low, LowTarget;
    if t.info[g.succ[n][k]].onStack {
      LowAfterStacked(g, s, t, n, k);
    } else {
      LowAfterDone(g, s, t, n, k);
    }
  }

  lemma LowAfterStacked(g: Digraph, s: State, t: State, n: Node, k: nat)
    requires n in g.succ && k < |g.succ[n]| && Low(g, s, t, n, k) && StackOk(g, t)
    requires Visited(t, g.succ[n][k]) && t.info[g.succ[n][k]].onStack
    ensures Low(g, s, WithLow(t, n, t.info[g.succ[n][k]].dfsId), n, k + 1)
  {
    hide Digraph.Reaches;
    var w := g.succ[n][k];
    g.ReachesStep(n, w);
    var r := WithLow(t, n, t.info[w].dfsId);
    var y :| LowTarget(g, t, n, y);
    assert LowTarget(g, r, n, if t.info[w].dfsId < t.info[n].lowpt then w else y);
  }

  lemma LowAfterDone(g: Digraph, s: State, t: State, n: Node, k: nat)
    requires n in g.succ && k < |g.succ[n]| && Low(g, s, t, n, k) && StackOk(g, t)
    requires Visited(t, g.succ[n][k]) && !t.info[g.succ[n][k]].onStack
    ensures Low(g, s, t, n, k + 1)
  {
    hide LowTarget;
    forall i | 0 <= i < |s.stack| ensures s.stack[i] != g.succ[n][k] { assert s.stack[i] == t.stack[i]; }
  }

  // ---- finishing a visit

  /** All successors of n were visited and n is not the first of its component. */
  lemma FinishGrey(g: Digraph, s: State, t: State, n: Node, grey: set<Node>)
    requires Inv(g, t, grey + {n}) && n !in grey && n in g.succ && Low(g, s, t, n, |g.succ[n]|)
    requires t.info[n].lowpt < t.info[n].dfsId
    ensures Inv(g, t, grey) && Finished(g, s, t, n)
  {
    hide Digraph.Reaches, Digraph.Valid, ComponentsOk;
    GreyWithout(g, s, t, n, grey);
    BlackWith(g, s, t, n, grey);
    FinishedLow(g, s, t, n);
    hide StackOk, BlackClosed, Low, ReachesGrey;
  }

  lemma BlackWith(g: Digraph, s: State, t: State, n: Node, grey: set<Node>)
    requires BlackClosed(g, t, grey + {n}) && n in g.succ && Low(g, s, t, n, |g.succ[n]|)
    ensures BlackClosed(g, t, grey)
  {
    hide LowTarget;
    forall w | g.Edge(n, w) ensures Visited(t, w) {
      var j :| 0 <= j < |g.succ[n]| && g.succ[n][j] == w;
      assert Visited(t, g.succ[n][j]);
    }
  }

  lemma GreyWithout(g: Digraph, s: State, t: State, n: Node, grey: set<Node>)
    requires StackOk(g, t) && StackReaches(g, t, grey + {n}) && n !in grey && n in g.succ
    requires Low(g, s, t, n, |g.succ[n]|)
    requires t.info[n].lowpt < t.info[n].dfsId
    ensures StackReaches(g, t, grey)
  {
    hide Digraph.Reaches, ReachesGrey;
    var y :| LowTarget(g, t, n, y);
    var i :| 0 <= i < |t.stack| && t.stack[i] == y;
    assert ReachesGrey(g, t, grey + {n}, t.stack[i]);
    hide StackOk, Low;
    forall j | 0 <= j < |t.stack| ensures ReachesGrey(g, t, grey, t.stack[j]) {
      assert ReachesGrey(g, t, grey + {n}, t.stack[j]);
      OtherGrey(g, t, grey, n, y, t.stack[j]);
    }
  }

  /** A node that reaches grey nodes through n reaches others, too. */
  lemma OtherGrey(g: Digraph, t: State, grey: set<Node>, n: Node, y: Node, v: Node)
    requires ReachesGrey(g, t, grey + {n}, y) && ReachesGrey(g, t, grey + {n}, v)
    requires n in t.info && y in t.info && t.info[y].dfsId < t.info[n].dfsId && g.Reaches(n, y)
    ensures ReachesGrey(g, t, grey, v)
  {
    hide Digraph.Reaches;
    var x :| x in grey + {n} && Visited(t, x) && Visited(t, v) && t.info[x].dfsId <= t.info[v].dfsId && g.Reaches(v, x);
    if x == n {
      var z :| z in grey + {n} && Visited(t, z) && Visited(t, y) && t.info[z].dfsId <= t.info[y].dfsId
        && g.Reaches(y, z);
      g.ReachesTransitive(v, n, y);
      g.ReachesTransitive(v, y, z);
      assert z in grey;
    } else {
      assert x in grey;
    }
  }

  lemma FinishedLow(g: Digraph, s: State, t: State, n: Node)
    requires StackOk(g, t) && n in g.succ && Low(g, s, t, n, |g.succ[n]|) && t.info[n].lowpt < t.info[n].dfsId
    ensures Finished(g, s, t, n)
  {
    hide Digraph.Reaches;
    var b := |s.stack|;
    assert t.stack[b] == (s.stack + [n])[b] == n;
    var y :| LowTarget(g, t, n, y);
    var i :| 0 <= i < |t.stack| && t.stack[i] == y;
    assert i < b;
    assert s.stack[i] == (s.stack + [n])[i] == t.stack[i];
    forall i, y | b <= i < |t.stack| && y in s.stack && y in t.info && g.Edge(t.stack[i], y)
      ensures t.info[n].lowpt <= t.info[y].dfsId
    {
      EdgeLow(g, s, t, n, i, y);
    }
    assert s.stack <= t.stack;
  }

  /** Edges from n and the nodes above it to those below bound the low point. */
  lemma EdgeLow(g: Digraph, s: State, t: State, n: Node, i: nat, y: Node)
    requires n in g.succ && Low(g, s, t, n, |g.succ[n]|) && |s.stack| <= i < |t.stack| && g.Edge(t.stack[i], y)
    requires y in s.stack && y in t.info
    ensures t.info[n].lowpt <= t.info[y].dfsId
  {
    hide LowTarget;
    if i == |s.stack| {
      assert t.stack[i] == (s.stack + [n])[i] == n;
      var j :| 0 <= j < |g.succ[n]| && g.succ[n][j] == y;
    }
  }

  /** t with the nodes above s popped as the component c. */
  ghost predicate Popped(s: State, t: State, r: State, c: seq<Node>) {
    && r.index == t.index && r.stack == s.stack && r.scc == t.scc + [c]
    && r.info.Keys == t.info.Keys && r.id.Keys == t.id.Keys + (set v | v in c)
    && (forall v :: v in t.info ==> r.info[v] == if v in c then t.info[v].(onStack := false) else t.info[v])
    && (forall v :: v in r.id ==> r.id[v] == if v in c then |t.scc| else t.id[v])
    && (forall v :: v in c <==> exists i :: |s.stack| <= i < |t.stack| && t.stack[i] == v)
    && (forall i, j :: 0 <= i < j < |c| ==> c[i] != c[j])
  }

  lemma PopKeepsInv(g: Digraph, s: State, t: State, r: State, n: Node, c: seq<Node>, grey: set<Node>)
    requires Inv(g, t, grey + {n}) && n !in grey && n in g.succ && Low(g, s, t, n, |g.succ[n]|)
    requires t.info[n].lowpt == t.info[n].dfsId && (forall v :: v in grey ==> v in s.stack) && Popped(s, t, r, c)
    ensures Inv(g, r, grey) && Finished(g, s, r, n)
  {
    hide Digraph.Reaches, Digraph.Valid, LowTarget, StackOk, StackReaches, BlackClosed, ComponentsOk, Popped, Finished;
    PopStack(g, s, t, r, n, c);
    PopReaches(g, s, t, r, n, c, grey);
    BlackWith(g, s, t, n, grey);
    PopComponents(g, s, t, r, n, c, grey);
    PopFinished(s, t, r, n, c, g);
    PopBlack(g, s, t, r, c, grey);
  }

  lemma PopBlack(g: Digraph, s: State, t: State, r: State, c: seq<Node>, grey: set<Node>)
    requires BlackClosed(g, t, grey) && Popped(s, t, r, c)
    ensures BlackClosed(g, r, grey)
  {
    PoppedInfo(s, t, r, c);
    hide Popped;
    assert forall v :: Visited(r, v) <==> Visited(t, v);
  }

  lemma PopStack(g: Digraph, s: State, t: State, r: State, n: Node, c: seq<Node>)
    requires StackOk(g, t) && s.stack + [n] <= t.stack && Popped(s, t, r, c)
    ensures StackOk(g, r)
    ensures n in c && t.stack[|s.stack|] == n
    ensures forall i :: 0 <= i < |s.stack| ==> s.stack[i] !in c
  {
    hide Popped;
    PopKeepsBelow(g, s, t, r, n, c);
    PoppedInfo(s, t, r, c);
    StackBelow(s, t, n);
    forall v | Visited(r, v) && r.info[v].onStack ensures v in r.stack {
      var i :| 0 <= i < |t.stack| && t.stack[i] == v;
      assert i < |s.stack|;
    }
  }

  lemma PopKeepsBelow(g: Digraph, s: State, t: State, r: State, n: Node, c: seq<Node>)
    requires StackOk(g, t) && s.stack + [n] <= t.stack && Popped(s, t, r, c)
    ensures forall i :: 0 <= i < |s.stack| ==> s.stack[i] !in c
  {
    StackBelow(s, t, n);
    var b := |s.stack|;
    forall i | 0 <= i < b ensures s.stack[i] !in c {
      assert forall j :: b <= j < |t.stack| ==> t.info[t.stack[i]].dfsId < t.info[t.stack[j]].dfsId;
    }
  }

  lemma PoppedInfo(s: State, t: State, r: State, c: seq<Node>)
    requires Popped(s, t, r, c)
    ensures r.index == t.index && r.stack == s.stack && r.info.Keys == t.info.Keys
    ensures forall v :: v in t.info ==> r.info[v] == if v in c then t.info[v].(onStack := false) else t.info[v]
    ensures forall i :: |s.stack| <= i < |t.stack| ==> t.stack[i] in c
  {
  }

  lemma StackBelow(s: State, t: State, n: Node)
    requires s.stack + [n] <= t.stack
    ensures t.stack[|s.stack|] == n
    ensures forall i :: 0 <= i < |s.stack| ==> s.stack[i] == t.stack[i]
  {
    assert t.stack[|s.stack|] == (s.stack + [n])[|s.stack|];
    forall i | 0 <= i < |s.stack| ensures s.stack[i] == t.stack[i] { assert s.stack[i] == (s.stack + [n])[i]; }
  }

  lemma PopReaches(g: Digraph, s: State, t: State, r: State, n: Node, c: seq<Node>, grey: set<Node>)
    requires s.stack + [n] <= t.stack && (forall v :: v in grey ==> v in s.stack)
    requires StackOk(g, t) && StackOk(g, r) && StackReaches(g, t, grey + {n}) && Popped(s, t, r, c)
    ensures StackReaches(g, r, grey)
  {
    hide Digraph.Reaches, ReachesGrey, Popped;
    StackBelow(s, t, n);
    PoppedInfo(s, t, r, c);
    forall i, j | 0 <= i < j < |r.stack| ensures g.Reaches(r.stack[i], r.stack[j]) {
      assert g.Reaches(t.stack[i], t.stack[j]);
    }
    forall i | 0 <= i < |r.stack| ensures ReachesGrey(g, r, grey, r.stack[i]) {
      assert ReachesGrey(g, t, grey + {n}, t.stack[i]);
      assert t.info[t.stack[i]].dfsId < t.info[t.stack[|s.stack|]].dfsId;
      EarlierGrey(g, t, r, grey, n, r.stack[i]);
    }
  }

  lemma EarlierGrey(g: Digraph, t: State, r: State, grey: set<Node>, n: Node, v: Node)
    requires ReachesGrey(g, t, grey + {n}, v) && n in t.info && t.info[v].dfsId < t.info[n].dfsId
    requires forall w :: w in t.info ==> w in r.info && r.info[w].dfsId == t.info[w].dfsId
    ensures ReachesGrey(g, r, grey, v)
  {
    hide Digraph.Reaches;
    var x :| x in grey + {n} && Visited(t, x) && Visited(t, v) && t.info[x].dfsId <= t.info[v].dfsId && g.Reaches(v, x);
    assert x in grey && Visited(r, x) && Visited(r, v);
  }

  lemma PopFinished(s: State, t: State, r: State, n: Node, c: seq<Node>, g: Digraph)
    requires Popped(s, t, r, c) && n in c && Visited(t, n) && t.info[n].dfsId == s.index + 1
    requires t.info[n].lowpt == t.info[n].dfsId
    ensures Finished(g, s, r, n)
  {
  }

  /** The nodes of a component reach each other. */
  lemma ComponentReaches(g: Digraph, s: State, t: State, n: Node, grey: set<Node>, i: nat, j: nat)
    requires s.stack + [n] <= t.stack && n in g.succ && (forall v :: v in grey ==> v in s.stack)
    requires |s.stack| <= i < |t.stack| && |s.stack| <= j < |t.stack|
    requires StackOk(g, t) && StackReaches(g, t, grey + {n})
    ensures g.Reaches(t.stack[i], t.stack[j])
  {
    hide Digraph.Reaches, ReachesGrey, StackOk;
    StackBelow(s, t, n);
    var b := |s.stack|;
    g.ReachesSelf(n);
    assert j > b ==> g.Reaches(t.stack[b], t.stack[j]);
    forall x | x in grey + {n} ensures g.Reaches(x, n) {
      if x != n {
        var k :| 0 <= k < b && s.stack[k] == x;
        assert g.Reaches(t.stack[k], t.stack[b]);
      }
    }
    assert ReachesGrey(g, t, grey + {n}, t.stack[i]);
    hide StackReaches;
    GreyReaches(g, t, grey + {n}, t.stack[i], n);
    g.ReachesTransitive(t.stack[i], n, t.stack[j]);
  }

  /** An edge out of a component leads to it or to what is done. */
  lemma ComponentEdges(g: Digraph, s: State, t: State, n: Node, grey: set<Node>, i: nat, w: Node)
    requires StackOk(g, t) && BlackClosed(g, t, grey) && n in g.succ && Low(g, s, t, n, |g.succ[n]|)
    requires t.info[n].lowpt == t.info[n].dfsId
    requires |s.stack| <= i < |t.stack| && g.Edge(t.stack[i], w) && (forall v :: v in grey ==> v in s.stack)
    ensures Visited(t, w) && (t.info[w].onStack ==> exists j :: |s.stack| <= j < |t.stack| && t.stack[j] == w)
  {
    hide LowTarget;
    StackBelow(s, t, n);
    var b := |s.stack|;
    forall k | 0 <= k < b ensures t.info[s.stack[k]].dfsId < t.info[n].dfsId {}
    assert t.stack[i] !in s.stack;
    forall k | 0 <= k < b && s.stack[k] == w ensures t.info[n].lowpt <= t.info[w].dfsId {
      EdgeLow(g, s, t, n, i, w);
    }
    if t.info[w].onStack {
      var j :| 0 <= j < |t.stack| && t.stack[j] == w;
    }
  }

  lemma PopComponents(g: Digraph, s: State, t: State, r: State, n: Node, c: seq<Node>, grey: set<Node>)
    requires StackOk(g, t) && StackReaches(g, t, grey + {n}) && BlackClosed(g, t, grey) && ComponentsOk(g, t)
    requires n in g.succ
    requires Low(g, s, t, n, |g.succ[n]|) && t.info[n].lowpt == t.info[n].dfsId
    requires (forall v :: v in grey ==> v in s.stack) && Popped(s, t, r, c)
    ensures ComponentsOk(g, r)
  {
    hide Digraph.Reaches, StackReaches, LowTarget;
    PopDone(g, s, t, r, c);
    forall v, w | v in c && g.Edge(v, w) ensures Visited(t, w) && (Done(t, w) || w in c) {
      var i :| |s.stack| <= i < |t.stack| && t.stack[i] == v;
      ComponentEdges(g, s, t, n, grey, i, w);
    }
    forall u, v | u in c && v in c ensures g.Reaches(u, v) {
      var i :| |s.stack| <= i < |t.stack| && t.stack[i] == u;
      var j :| |s.stack| <= j < |t.stack| && t.stack[j] == v;
      ComponentReaches(g, s, t, n, grey, i, j);
    }
    hide StackOk, BlackClosed, Low;
    AddComponent(g, s, t, r, c);
  }

  lemma PopDone(g: Digraph, s: State, t: State, r: State, c: seq<Node>)
    requires StackOk(g, t) && Popped(s, t, r, c)
    ensures forall v :: v in c ==> Visited(t, v) && !Done(t, v)
    ensures forall v :: Done(r, v) <==> Done(t, v) || v in c
  {
    forall v | v in c ensures Visited(t, v) && !Done(t, v) {
      var i :| |s.stack| <= i < |t.stack| && t.stack[i] == v;
    }
    PoppedInfo(s, t, r, c);
    hide Popped;
  }

  lemma AddComponent(g: Digraph, s: State, t: State, r: State, c: seq<Node>)
    requires ComponentsOk(g, t) && Popped(s, t, r, c)
    requires forall v :: v in c ==> Visited(t, v) && !Done(t, v)
    requires forall v :: Done(r, v) <==> Done(t, v) || v in c
    requires forall v, w :: v in c && g.Edge(v, w) ==> Done(t, w) || w in c
    requires forall u, v :: u in c && v in c ==> g.Reaches(u, v)
    ensures ComponentsOk(g, r)
  {
    hide Digraph.Reaches, Done, Visited;
  }

  // ---- the algorithm

  class Tarjan {
    const g: Digraph
    var info: map<Node, NodeInfo>
    var index: nat
    var stack: seq<Node>
    var scc: seq<seq<Node>>
    var id: map<Node, nat>

    ghost function S(): State
      reads this
    {
      State(info, index, stack, scc, id)
    }

    constructor (graph: Digraph)
      requires graph.Valid()
      ensures g == graph && S() == State(map[], 0, [], [], map[]) && Inv(g, S(), {})
    {
      g := graph;
      info, index, stack, scc, id := map[], 0, [], [], map[];
    }

    /** Pop the nodes from the top of the stack down to n as one component. */
    method PopComponent(n: Node, ghost s: State) returns (c: seq<Node>)
      requires StackOk(g, S()) && s.stack + [n] <= stack
      modifies this
      ensures Popped(s, old(S()), S(), c)
    {
      hide StackOk, Popping, Popped;
      ghost var t := S();
      PopNone(g, s, t, n);
      var num, d := |scc|, info[n].dfsId;
      c := [];
      while info[stack[|stack| - 1]].dfsId >= d
        invariant Popping(s, t, S(), c) && stack != [] && scc == t.scc && stack[|stack| - 1] in info && n in info
        invariant info[n].dfsId == d
        decreases |stack|
      {
        ghost var now := S();
        var w := stack[|stack| - 1];
        PopOne(g, s, t, now, n, c);
        stack := stack[..|stack| - 1];
        info := info[w := info[w].(onStack := false)];
        c := c + [w];
        id := id[w := num];
        assert S() == TopPopped(now);
        if stack == [] {
          break;
        }
      }
      scc := scc + [c];
      PoppedAll(g, s, t, S(), n, c);
    }

    /** Visit n and, recursively, its unvisited successors. `grey` are the nodes
        whose visits are not finished. */
    method Visit(n: Node, ghost grey: set<Node>)
      requires Inv(g, S(), grey) && n in g.succ && !Visited(S(), n)
      requires forall x :: x in grey ==> g.Reaches(x, n)
      modifies this
      ensures Inv(g, S(), grey) && Grows(old(S()), S()) && Finished(g, old(S()), S(), n)
      ensures NewlyReached(g, old(S()), S(), n) && n in info
      decreases White(g, S())
    {
      hide Inv, Grows, Finished, Low, NewlyReached, Digraph.Reaches;
      ghost var s := S();
      InvGrey(g, s, grey, n);
      PushKeepsInv(g, s, n, grey);
      index := index + 1;
      info := info[n := NodeInfo(index, index, true)];
      stack := stack + [n];
      assert S() == Pushed(s, n);
      PushLow(g, s, n);
      var k := 0;
      while k < |g.succ[n]|
        invariant k <= |g.succ[n]| && Inv(g, S(), grey + {n}) && Low(g, s, S(), n, k) && Grows(s, S())
        invariant n in info && White(g, S()) < White(g, s) && NewlyReached(g, s, S(), n)
      {
        var w := g.succ[n][k];
        ghost var t := S();
        SuccessorFacts(g, t, n, k, grey);
        if w !in info || info[w].dfsId == 0 {
          Visit(w, grey + {n});
          ghost var u := S();
          StackOfInv(g, t, grey + {n});
          StackOfInv(g, u, grey + {n});
          LowAfterVisit(g, s, t, u, n, k);
          GrowsTransitive(g, s, t, u);
          ReachedThrough(g, s, t, u, n, w);
          WithLowKeeps(g, s, u, n, u.info[w].lowpt, grey + {n});
          info := info[n := info[n].(lowpt := Min(info[n].lowpt, info[w].lowpt))];
          assert S() == WithLow(u, n, u.info[w].lowpt);
        } else {
          LowAfterVisited(g, s, t, n, k, grey + {n});
          if info[w].onStack {
            WithLowKeeps(g, s, t, n, t.info[w].dfsId, grey + {n});
            info := info[n := info[n].(lowpt := Min(info[n].lowpt, info[w].dfsId))];
            assert S() == WithLow(t, n, t.info[w].dfsId);
          }
        }
        k := k + 1;
      }
      ghost var t := S();
      LowBound(g, s, t, n, k);
      if info[n].lowpt == info[n].dfsId {
        StackOfInv(g, t, grey + {n});
        StackOfInv(g, s, grey);
        var c := PopComponent(n, s);
        PopKeepsInv(g, s, t, S(), n, c, grey);
        PopGrows(g, s, t, S(), n, c);
      } else {
        FinishGrey(g, s, t, n, grey);
      }
    }

    /** The strongly connected components of the nodes that start reaches. */
    method Compute(start: Node) returns (components: seq<seq<Node>>)
      requires start in g.succ && S() == State(map[], 0, [], [], map[]) && Inv(g, S(), {})
      modifies this
      ensures components == scc && stack == [] && Components(g, start, scc, id)
    {
      ghost var s := S();
      Visit(start, {});
      components := scc;
      AllFound(g, s, S(), start);
    }
  }

  /** scc are the strongly connected components of what start reaches, numbered
      by id in reverse topological order. */
  ghost predicate Components(g: Digraph, start: Node, scc: seq<seq<Node>>, id: map<Node, nat>) {
    && (forall v :: g.Reaches(start, v) ==> v in id && id[v] < |scc| && v in scc[id[v]])
    && (forall k, i :: 0 <= k < |scc| && 0 <= i < |scc[k]| ==>
          g.Reaches(start, scc[k][i]) && scc[k][i] in id && id[scc[k][i]] == k)
    && (forall k, i, j :: 0 <= k < |scc| && 0 <= i < j < |scc[k]| ==> scc[k][i] != scc[k][j])
    && (forall u, v :: g.Reaches(start, u) && g.Reaches(start, v) && u in id && v in id ==>
          (id[u] == id[v] <==> g.Reaches(u, v) && g.Reaches(v, u)))
    && (forall v, w :: g.Reaches(start, v) && g.Edge(v, w) && v in id && w in id ==> id[w] <= id[v])
  }

  /** What is visited in t but was not in s can be reached from n. */
  ghost predicate NewlyReached(g: Digraph, s: State, t: State, n: Node) {
    forall v :: Visited(t, v) ==> Visited(s, v) || g.Reaches(n, v)
  }

  lemma InvGrey(g: Digraph, s: State, grey: set<Node>, n: Node)
    requires Inv(g, s, grey) && !Visited(s, n)
    ensures n !in grey && forall v :: v in grey ==> v in s.stack
  {
    hide Digraph.Reaches, ReachesGrey, BlackClosed, ComponentsOk;
  }

  lemma StackOfInv(g: Digraph, s: State, grey: set<Node>)
    requires Inv(g, s, grey)
    ensures StackOk(g, s)
  {
    hide StackOk, StackReaches, BlackClosed, ComponentsOk;
  }

  lemma PushLow(g: Digraph, s: State, n: Node)
    requires n in g.succ && !Visited(s, n)
    ensures var p := Pushed(s, n); Low(g, s, p, n, 0) && White(g, p) < White(g, s) && NewlyReached(g, s, p, n)
  {
    var p := Pushed(s, n);
    g.ReachesSelf(n);
    hide Digraph.Reaches;
    assert p.stack[|s.stack|] == n;
    assert LowTarget(g, p, n, n);
    assert n in White(g, s) && n !in White(g, p);
  }

  lemma SuccessorFacts(g: Digraph, t: State, n: Node, k: nat, grey: set<Node>)
    requires Inv(g, t, grey + {n}) && n in g.succ && k < |g.succ[n]| && forall x :: x in grey ==> g.Reaches(x, n)
    ensures g.succ[n][k] in g.succ && g.Edge(n, g.succ[n][k])
    ensures forall x :: x in grey + {n} ==> g.Reaches(x, g.succ[n][k])
  {
    var w := g.succ[n][k];
    hide StackOk, StackReaches, BlackClosed, ComponentsOk;
    g.ReachesStep(n, w);
    forall x | x in grey ensures g.Reaches(x, w) { g.ReachesTransitive(x, n, w); }
  }

  lemma GrowsTransitive(g: Digraph, s: State, t: State, u: State)
    requires Grows(s, t) && Grows(t, u)
    ensures Grows(s, u) && White(g, u) <= White(g, t)
    ensures forall v :: Visited(t, v) ==> v in u.info && u.info[v] == t.info[v]
  {
  }

  lemma ReachedThrough(g: Digraph, s: State, t: State, u: State, n: Node, w: Node)
    requires NewlyReached(g, s, t, n) && NewlyReached(g, t, u, w) && g.Edge(n, w)
    ensures NewlyReached(g, s, u, n)
  {
    hide Digraph.Reaches;
    g.ReachesStep(n, w);
    forall v | Visited(u, v) ensures Visited(s, v) || g.Reaches(n, v) {
      if !Visited(t, v) { g.ReachesTransitive(n, w, v); }
    }
  }

  lemma WithLowKeeps(g: Digraph, s: State, u: State, n: Node, m: nat, grey: set<Node>)
    requires Inv(g, u, grey) && Grows(s, u) && n in u.info && !Visited(s, n)
    ensures var r := WithLow(u, n, m);
      && Inv(g, r, grey) && Grows(s, r) && White(g, r) == White(g, u)
      && forall n' :: NewlyReached(g, s, u, n') ==> NewlyReached(g, s, r, n')
  {
    var r := WithLow(u, n, m);
    hide Inv, Digraph.Reaches;
    LowptIrrelevant(g, u, r, n, r.info[n].lowpt, grey);
    WithLowGrows(g, s, u, n, m);
  }

  lemma WithLowGrows(g: Digraph, s: State, u: State, n: Node, m: nat)
    requires Grows(s, u) && n in u.info && !Visited(s, n)
    ensures var r := WithLow(u, n, m);
      Grows(s, r) && White(g, r) == White(g, u) && forall n' :: NewlyReached(g, s, u, n') ==> NewlyReached(g, s, r, n')
  {
    hide Digraph.Reaches;
    var r := WithLow(u, n, m);
    assert forall v :: Visited(r, v) <==> Visited(u, v);
  }

  lemma LowBound(g: Digraph, s: State, t: State, n: Node, k: nat)
    requires n in g.succ && k <= |g.succ[n]| && Low(g, s, t, n, k)
    ensures n in t.info && t.info[n].lowpt <= t.info[n].dfsId && s.stack + [n] <= t.stack
  {
    hide LowTarget;
  }

  lemma PopGrows(g: Digraph, s: State, t: State, r: State, n: Node, c: seq<Node>)
    requires StackOk(g, t) && StackOk(g, s) && s.stack + [n] <= t.stack && Grows(s, t) && Popped(s, t, r, c)
    requires NewlyReached(g, s, t, n)
    ensures Grows(s, r) && NewlyReached(g, s, r, n)
  {
    hide Digraph.Reaches, StackOk;
    PopDone(g, s, t, r, c);
    NotVisitedBefore(g, s, t, r, n, c);
  }

  /** The nodes of a new component were first visited by the visit that ends. */
  lemma NotVisitedBefore(g: Digraph, s: State, t: State, r: State, n: Node, c: seq<Node>)
    requires StackOk(g, t) && StackOk(g, s) && s.stack + [n] <= t.stack && Grows(s, t) && Popped(s, t, r, c)
    ensures forall v :: v in c ==> !Visited(s, v) && v !in s.stack
  {
    PopDone(g, s, t, r, c);
    PopStack(g, s, t, r, n, c);
    hide Popped;
    assert forall v :: v in c ==> v !in s.stack;
  }

  // ---- popping, one node at a time

  /** c holds the nodes popped from t so far, top first. */
  ghost predicate Popping(s: State, t: State, r: State, c: seq<Node>) {
    && |s.stack| <= |r.stack| <= |t.stack| && r.stack == t.stack[..|r.stack|] && r.index == t.index
    && |c| == |t.stack| - |r.stack| && (forall i :: 0 <= i < |c| ==> c[i] == t.stack[|t.stack| - 1 - i])
    && r.info.Keys == t.info.Keys && r.id.Keys == t.id.Keys + (set v | v in c)
    && (forall v :: v in t.info ==> r.info[v] == if v in c then t.info[v].(onStack := false) else t.info[v])
    && (forall v :: v in r.id ==> r.id[v] == if v in c then |t.scc| else t.id[v])
  }

  ghost function TopPopped(r: State): State
    requires r.stack != [] && r.stack[|r.stack| - 1] in r.info
  {
    var w := r.stack[|r.stack| - 1];
    r.(stack := r.stack[..|r.stack| - 1], info := r.info[w := r.info[w].(onStack := false)], id := r.id[w := |r.scc|])
  }

  lemma PopNone(g: Digraph, s: State, t: State, n: Node)
    requires StackOk(g, t) && s.stack + [n] <= t.stack
    ensures Popping(s, t, t, []) && t.stack != [] && t.stack[|t.stack| - 1] in t.info && n in t.info
  {
    StackBelow(s, t, n);
  }

  lemma PopOne(g: Digraph, s: State, t: State, now: State, n: Node, c: seq<Node>)
    requires StackOk(g, t) && s.stack + [n] <= t.stack && Popping(s, t, now, c) && now.stack != [] && now.scc == t.scc
    requires now.stack[|now.stack| - 1] in now.info && n in now.info
    requires now.info[now.stack[|now.stack| - 1]].dfsId >= now.info[n].dfsId
    ensures var w := now.stack[|now.stack| - 1]; var r := TopPopped(now);
      && Popping(s, t, r, c + [w]) && n in r.info && r.info[n].dfsId == now.info[n].dfsId
      && (r.stack != [] ==> r.stack[|r.stack| - 1] in r.info)
  {
    hide Popping, StackOk;
    PopAbove(g, s, t, now, n, c);
    PopPopping(s, t, now, c);
  }

  lemma PopPopping(s: State, t: State, now: State, c: seq<Node>)
    requires Popping(s, t, now, c) && now.scc == t.scc && |s.stack| < |now.stack|
    requires forall i :: 0 <= i < |now.stack| ==> now.stack[i] in now.info
    ensures Popping(s, t, TopPopped(now), c + [now.stack[|now.stack| - 1]])
  {
    var w := now.stack[|now.stack| - 1];
    PopCount(t, now, TopPopped(now), c, w);
    PopInfo(t, now, TopPopped(now), c, w);
  }

  lemma PopAbove(g: Digraph, s: State, t: State, now: State, n: Node, c: seq<Node>)
    requires StackOk(g, t) && s.stack + [n] <= t.stack && Popping(s, t, now, c) && now.stack != []
    requires now.stack[|now.stack| - 1] in now.info && n in now.info
    requires now.info[now.stack[|now.stack| - 1]].dfsId >= now.info[n].dfsId
    ensures |s.stack| < |now.stack| && forall i :: 0 <= i < |now.stack| ==> now.stack[i] in now.info
  {
    StackBelow(s, t, n);
    assert forall i :: 0 <= i < |now.stack| ==> now.stack[i] == t.stack[i];
    assert now.info[n].dfsId == t.info[n].dfsId;
  }

  lemma PopCount(t: State, now: State, r: State, c: seq<Node>, w: Node)
    requires now.stack != [] && now.stack[|now.stack| - 1] == w && w in now.info && r == TopPopped(now)
    requires |now.stack| <= |t.stack| && now.stack == t.stack[..|now.stack|]
    requires |c| == |t.stack| - |now.stack| && (forall i :: 0 <= i < |c| ==> c[i] == t.stack[|t.stack| - 1 - i])
    ensures |c + [w]| == |t.stack| - |r.stack|
    ensures forall i :: 0 <= i < |c + [w]| ==> (c + [w])[i] == t.stack[|t.stack| - 1 - i]
  {
  }

  lemma PopInfo(t: State, now: State, r: State, c: seq<Node>, w: Node)
    requires now.stack != [] && now.stack[|now.stack| - 1] == w && w in now.info && r == TopPopped(now)
    requires now.scc == t.scc
    requires now.info.Keys == t.info.Keys && now.id.Keys == t.id.Keys + (set v | v in c)
    requires forall v :: v in t.info ==> now.info[v] == if v in c then t.info[v].(onStack := false) else t.info[v]
    requires forall v :: v in now.id ==> now.id[v] == if v in c then |t.scc| else t.id[v]
    ensures r.info.Keys == t.info.Keys && r.id.Keys == t.id.Keys + (set v | v in c + [w])
    ensures forall v :: v in t.info ==> r.info[v] == if v in c + [w] then t.info[v].(onStack := false) else t.info[v]
    ensures forall v :: v in r.id ==> r.id[v] == if v in c + [w] then |t.scc| else t.id[v]
  {
    assert forall v :: v in c + [w] <==> v in c || v == w;
  }

  lemma PoppedAll(g: Digraph, s: State, t: State, r: State, n: Node, c: seq<Node>)
    requires StackOk(g, t) && s.stack + [n] <= t.stack && r.scc == t.scc + [c] && Popping(s, t, r.(scc := t.scc), c)
    requires r.stack == []
      || (r.stack[|r.stack| - 1] in r.info && n in r.info && r.info[r.stack[|r.stack| - 1]].dfsId < r.info[n].dfsId)
    ensures Popped(s, t, r, c)
  {
    StackBelow(s, t, n);
    if r.stack != [] { assert r.stack[|r.stack| - 1] == t.stack[|r.stack| - 1]; }
    assert |r.stack| == |s.stack|;
    assert r.stack == s.stack;
    forall i | |s.stack| <= i < |t.stack| ensures t.stack[i] in c { assert c[|t.stack| - 1 - i] == t.stack[i]; }
  }

  // ---- the result

  lemma {:induction false} IdsDecrease(g: Digraph, t: State, p: seq<Node>)
    requires ComponentsOk(g, t) && g.Path(p) && Done(t, p[0])
    ensures Done(t, p[|p| - 1]) && p[0] in t.id && p[|p| - 1] in t.id && t.id[p[|p| - 1]] <= t.id[p[0]]
    decreases |p|
  {
    if |p| > 1 {
      var q := p[..|p| - 1];
      assert g.Path(q);
      IdsDecrease(g, t, q);
      assert g.Edge(p[|p| - 2], p[|p| - 1]);
    }
  }

  lemma ReachDecreases(g: Digraph, t: State, u: Node, v: Node)
    requires ComponentsOk(g, t) && Done(t, u) && g.Reaches(u, v)
    ensures Done(t, v) && u in t.id && v in t.id && t.id[v] <= t.id[u]
  {
    var p :| g.PathFromTo(p, u, v);
    IdsDecrease(g, t, p);
  }

  lemma NoGrey(g: Digraph, t: State)
    requires StackOk(g, t) && StackReaches(g, t, {})
    ensures t.stack == []
  {
    hide Digraph.Reaches, StackOk;
    assert |t.stack| > 0 ==> ReachesGrey(g, t, {}, t.stack[0]);
  }

  lemma AllFound(g: Digraph, s: State, t: State, start: Node)
    requires Inv(g, t, {}) && s == State(map[], 0, [], [], map[]) && Finished(g, s, t, start)
    requires NewlyReached(g, s, t, start)
    ensures t.stack == [] && Components(g, start, t.scc, t.id)
  {
    hide Digraph.Reaches;
    NoGrey(g, t);
    assert forall v :: Visited(t, v) ==> Done(t, v);
    forall v | g.Reaches(start, v) ensures Done(t, v) { ReachDecreases(g, t, start, v); }
    hide StackOk, StackReaches, BlackClosed;
    forall u, v | Done(t, u) && Done(t, v) && t.id[u] == t.id[v] ensures g.Reaches(u, v) && g.Reaches(v, u) {}
    forall u, v | Done(t, u) && g.Reaches(u, v) ensures v in t.id && t.id[v] <= t.id[u] { ReachDecreases(g, t, u, v); }
  }
}
