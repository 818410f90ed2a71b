/** The backward search with counters that NTSCD and the strong control closure
    share: a node is coloured when its counter of uncoloured successors drops to 0. */
module CounterSearches {
  import opened Digraphs
  import opened MaximalPaths
  import opened CDGraphs
  import opened ControlDependences

  /** Counters are unsigned short. */
  const WRAP: nat := 65536

  ghost function Succs(g: Digraph, v: Node): set<Node> { if v in g.succ then set w | w in g.succ[v] else {} }

  /** The counter of v drops to 0 when every coloured successor decrements it, and
      once more every coloured successor that is a target and returned to the queue. */
  ghost predicate Fires(g: Digraph, T: set<Node>, B: set<Node>, v: Node) {
    Succs(g, v) != {} && |Succs(g, v) * (T + B)| + |Succs(g, v) * (T * B)| >= |Succs(g, v)|
  }

  ghost predicate RuleClosed(g: Digraph, T: set<Node>, B: set<Node>) { forall v :: Fires(g, T, B, v) ==> v in B }

  /** The least set that is closed under the rule: the nodes whose counters reach 0. */
  ghost function Returned(g: Digraph, T: set<Node>): set<Node> {
    set v | v in g.succ && InAll(g, T, v)
  }

  ghost predicate InAll(g: Digraph, T: set<Node>, v: Node) { forall B: set<Node> :: RuleClosed(g, T, B) ==> v in B }

  ghost function Colors(g: Digraph, T: set<Node>): set<Node> { T + Returned(g, T) }

  /** Every node has fewer successors than a counter can hold. */
  ghost predicate Narrow(g: Digraph) { forall v :: v in g.succ ==> |g.succ[v]| < WRAP }

  lemma FiresMonotone(g: Digraph, T: set<Node>, A: set<Node>, B: set<Node>, v: Node)
    requires A <= B && Fires(g, T, A, v)
    ensures Fires(g, T, B, v)
  {
    SubsetSize(Succs(g, v) * (T + A), Succs(g, v) * (T + B));
    SubsetSize(Succs(g, v) * (T * A), Succs(g, v) * (T * B));
  }

  lemma {:induction false} SubsetSize(a: set<Node>, b: set<Node>)
    requires a <= b
    ensures |a| <= |b|
  {
    assert b == a + (b - a);
  }

  lemma FiresIsNode(g: Digraph, T: set<Node>, B: set<Node>, v: Node)
    requires Fires(g, T, B, v)
    ensures v in g.succ
  {
  }

  lemma ReturnedIsClosed(g: Digraph, T: set<Node>)
    ensures RuleClosed(g, T, Returned(g, T))
    ensures forall B: set<Node> :: RuleClosed(g, T, B) ==> Returned(g, T) <= B
  {
    hide Fires;
    forall v | Fires(g, T, Returned(g, T), v) ensures v in Returned(g, T) {
      FiresIsNode(g, T, Returned(g, T), v);
      forall B: set<Node> | RuleClosed(g, T, B) ensures v in B {
        FiresMonotone(g, T, Returned(g, T), B, v);
      }
    }
  }

  /** The search colours at least the nodes that must reach a target. */
  lemma MustIsColored(g: Digraph, T: set<Node>)
    requires T <= g.succ.Keys
    ensures MustSet(g, T) <= Colors(g, T)
  {
    hide MustReach;
    var A := Returned(g, T);
    ReturnedIsClosed(g, T);
    forall v | v in MustSet(g, T) ensures v in T + A {
      var S := iset u | u in T + A;
      forall u | HasSuccessors(g, u) && (forall w :: g.Edge(u, w) ==> w in S) ensures u in S {
        assert g.succ[u][0] in Succs(g, u);
        assert forall w :: w in Succs(g, u) ==> g.Edge(u, w);
        assert Succs(g, u) * (T + A) == Succs(g, u);
        assert Fires(g, T, A, u);
      }
      MustReachIsLeast(g, T, S, v);
    }
  }

  /** R are the targets that return to the queue, and no other node is coloured early. */
  ghost predicate Exacting(g: Digraph, T: set<Node>, R: set<Node>) {
    R <= T && forall v :: Overtaken(g, T, R, v) ==> MustReach(g, T, v) && (v in T ==> v in R)
  }

  /** No more successors of v can avoid T than are counted twice. */
  ghost predicate Overtaken(g: Digraph, T: set<Node>, R: set<Node>, v: Node) {
    Succs(g, v) != {} && |Succs(g, v) - MustSet(g, T)| <= |Succs(g, v) * R|
  }

  lemma FiresIffOvertaken(g: Digraph, T: set<Node>, B: set<Node>, R: set<Node>, v: Node)
    requires T + B == MustSet(g, T) && T * B == R
    ensures Fires(g, T, B, v) <==> Overtaken(g, T, R, v)
  {
    var S, M := Succs(g, v), MustSet(g, T);
    assert S == S * M + (S - M);
  }

  /** The search is exact iff some set R of targets is exacting. */
  lemma ExactIff(g: Digraph, T: set<Node>)
    requires T <= g.succ.Keys
    ensures Colors(g, T) == MustSet(g, T) <==> exists R :: Exacting(g, T, R)
  {
    hide MustReach, Fires, Overtaken, Returned;
    var A, M := Returned(g, T), MustSet(g, T);
    ReturnedIsClosed(g, T);
    if Colors(g, T) == M {
      assert forall v :: Overtaken(g, T, T * A, v) <==> Fires(g, T, A, v) by {
        forall v ensures Overtaken(g, T, T * A, v) <==> Fires(g, T, A, v) { FiresIffOvertaken(g, T, A, T * A, v); }
      }
      assert Exacting(g, T, T * A);
    }
    forall R | Exacting(g, T, R) ensures Colors(g, T) == M {
      var B := (M - T) + R;
      TargetsMust(g, T);
      assert T + B == M && T * B == R;
      forall v | Fires(g, T, B, v) ensures v in B {
        FiresIffOvertaken(g, T, B, R, v);
        FiresIsNode(g, T, B, v);
      }
      assert RuleClosed(g, T, B);
      MustIsColored(g, T);
    }
  }

  lemma TargetsMust(g: Digraph, T: set<Node>)
    requires T <= g.succ.Keys
    ensures T <= MustSet(g, T)
  {
    forall t | t in T ensures MustReach(g, T, t) { MustReachHere(g, T, t); }
  }

  /** For one target: it cannot return to itself on all paths, or no predecessor that
      can avoid it has only one successor that can. */
  ghost predicate ExactTarget(g: Digraph, t: Node) {
    || (HasSuccessors(g, t) ==> !(Succs(g, t) <= MustSet(g, {t})))
    || (forall p :: g.Edge(p, t) && !MustReach(g, {t}, p) ==> |Succs(g, p) - MustSet(g, {t})| >= 2)
  }

  lemma SingleTarget(g: Digraph, t: Node)
    requires g.Valid() && t in g.succ
    ensures Colors(g, {t}) == MustSet(g, {t}) <==> ExactTarget(g, t)
  {
    hide MustReach, Exacting, Digraph.Valid, Returned;
    ExactIff(g, {t});
    NotReturning(g, t);
    Returning(g, t);
    forall R | Exacting(g, {t}, R) ensures R == {} || R == {t} { TargetSubset(g, t, R); }
  }

  lemma TargetSubset(g: Digraph, t: Node, R: set<Node>)
    requires Exacting(g, {t}, R)
    ensures R == {} || R == {t}
  {
  }

  lemma NotReturning(g: Digraph, t: Node)
    requires g.Valid() && t in g.succ
    ensures Exacting(g, {t}, {}) <==> (HasSuccessors(g, t) ==> !(Succs(g, t) <= MustSet(g, {t})))
  {
    hide MustReach, Digraph.Valid;
    AllSuccessors(g, {t});
    var M := MustSet(g, {t});
    forall v ensures Overtaken(g, {t}, {}, v) <==> Succs(g, v) != {} && Succs(g, v) <= M {
      assert Succs(g, v) * {} == {};
      EmptyDifference(Succs(g, v), M);
    }
    assert HasSuccessors(g, t) <==> Succs(g, t) != {} by { assert HasSuccessors(g, t) ==> g.succ[t][0] in Succs(g, t); }
  }

  lemma Returning(g: Digraph, t: Node)
    requires g.Valid() && t in g.succ
    ensures Exacting(g, {t}, {t}) <==>
      forall p :: g.Edge(p, t) && !MustReach(g, {t}, p) ==> |Succs(g, p) - MustSet(g, {t})| >= 2
  {
    hide MustReach, Digraph.Valid;
    AllSuccessors(g, {t});
    var M := MustSet(g, {t});
    forall v
      ensures Overtaken(g, {t}, {t}, v) <==>
        Succs(g, v) != {} && (Succs(g, v) <= M || (g.Edge(v, t) && |Succs(g, v) - M| <= 1))
    {
      assert t in Succs(g, v) <==> g.Edge(v, t);
      assert Succs(g, v) * {t} == if t in Succs(g, v) then {t} else {};
      EmptyDifference(Succs(g, v), M);
    }
    assert forall p :: g.Edge(p, t) ==> t in Succs(g, p);
  }

  lemma EmptyDifference(a: set<Node>, b: set<Node>)
    ensures a <= b <==> |a - b| == 0
  {
    if |a - b| == 0 {
      assert a - b == {};
      forall x | x in a ensures x in b { assert x !in a - b; }
    }
  }

  lemma AllSuccessors(g: Digraph, T: set<Node>)
    requires g.Valid()
    ensures forall v :: Succs(g, v) != {} && Succs(g, v) <= MustSet(g, T) ==> MustReach(g, T, v)
  {
    hide MustReach;
    forall v | Succs(g, v) != {} && Succs(g, v) <= MustSet(g, T) ensures MustReach(g, T, v) {
      assert forall w :: g.Edge(v, w) ==> w in Succs(g, v);
      MustReachStep(g, T, v);
    }
  }

  // ---- the nodes that are not coloured for one target

  /** All successors of t must reach t, so that t returns to the queue. */
  ghost predicate Returns(g: Digraph, t: Node) { Succs(g, t) != {} && Succs(g, t) <= MustSet(g, {t}) }

  /** A holds nodes other than t that can stay in A; when t returns, a predecessor of t needs
      two ways to do so. */
  ghost predicate Evades(g: Digraph, t: Node, A: set<Node>) {
    A <= g.succ.Keys && t !in A && forall a :: a in A ==> Evading(g, t, A, a)
  }

  ghost predicate Evading(g: Digraph, t: Node, A: set<Node>, a: Node) {
    Succs(g, a) != {} ==> |Succs(g, a) * A| >= if Returns(g, t) && t in Succs(g, a) then 2 else 1
  }

  ghost predicate CanEvade(g: Digraph, t: Node, v: Node) { exists A :: Evades(g, t, A) && v in A }

  /** A node is left uncoloured iff it can evade the target. */
  lemma UncoloredIff(g: Digraph, t: Node, v: Node)
    requires g.Valid() && t in g.succ && v in g.succ
    ensures v !in Colors(g, {t}) <==> CanEvade(g, t, v)
  {
    hide Evades, Returned, Digraph.Valid;
    UncoloredEvade(g, t);
    if A :| Evades(g, t, A) && v in A { EvadersUncolored(g, t, A); }
  }

  lemma SuccsAreNodes(g: Digraph, v: Node)
    requires g.Valid()
    ensures Succs(g, v) <= g.succ.Keys
  {
  }

  /** What the rule says of a node when the nodes outside of A are coloured. */
  lemma FiresOutside(g: Digraph, t: Node, A: set<Node>, B: set<Node>, v: Node)
    requires g.Valid() && t in g.succ && t !in A && {t} + B == g.succ.Keys - A
    ensures var S := Succs(g, v);
      Fires(g, {t}, B, v) <==> S != {} && |S * A| <= if t in B && t in S then 1 else 0
  {
    SuccsAreNodes(g, v);
    hide Digraph.Valid;
    var S := Succs(g, v);
    assert S == S * ({t} + B) + S * A && S * ({t} + B) !! S * A;
    assert S * ({t} * B) == if t in B && t in S then {t} else {};
  }

  lemma UncoloredEvade(g: Digraph, t: Node)
    requires g.Valid() && t in g.succ
    ensures Evades(g, t, g.succ.Keys - Colors(g, {t}))
  {
    hide MustReach, Fires, RuleClosed, Digraph.Valid;
    var B := Returned(g, {t});
    var A := g.succ.Keys - Colors(g, {t});
    ReturnedIsClosed(g, {t});
    MustIsColored(g, {t});
    if Returns(g, t) { TargetReturns(g, t); }
    hide Returned, Returns;
    forall a | a in A ensures Evading(g, t, A, a) {
      FiresOutside(g, t, A, B, a);
      NotFired(g, {t}, B, a);
    }
  }

  lemma NotFired(g: Digraph, T: set<Node>, B: set<Node>, v: Node)
    requires RuleClosed(g, T, B) && v !in B
    ensures !Fires(g, T, B, v)
  {
    hide Fires;
  }

  lemma TargetReturns(g: Digraph, t: Node)
    requires g.Valid() && t in g.succ && Returns(g, t)
    ensures t in Returned(g, {t})
  {
    hide MustReach, Digraph.Valid, InAll;
    var B, S := Returned(g, {t}), Succs(g, t);
    ReturnedIsClosed(g, {t});
    MustIsColored(g, {t});
    assert S * ({t} + B) == S;
    assert Fires(g, {t}, B, t);
  }

  lemma EvadersUncolored(g: Digraph, t: Node, A: set<Node>)
    requires g.Valid() && t in g.succ && Evades(g, t, A)
    ensures A !! Colors(g, {t})
  {
    hide MustReach, Returned, Digraph.Valid, Evades, MustSet;
    EvadersAvoid(g, t, A);
    NotEvading(g, t, A);
    if Returns(g, t) {
      EvadersStayOut(g, t, A);
      ReturnedIsClosed(g, {t});
      assert Returned(g, {t}) <= g.succ.Keys - A;
    } else {
      SingleTarget(g, t);
      assert HasSuccessors(g, t) ==> g.succ[t][0] in Succs(g, t);
    }
  }

  lemma NotEvading(g: Digraph, t: Node, A: set<Node>)
    requires Evades(g, t, A)
    ensures t !in A && A <= g.succ.Keys
  {
    hide Evading;
  }

  lemma EvadersStayOut(g: Digraph, t: Node, A: set<Node>)
    requires g.Valid() && t in g.succ && Evades(g, t, A) && Returns(g, t)
    ensures RuleClosed(g, {t}, g.succ.Keys - A)
  {
    hide MustReach, Digraph.Valid, Fires;
    var B := g.succ.Keys - A;
    forall v | Fires(g, {t}, B, v) ensures v in B {
      FiresOutside(g, t, A, B, v);
      FiresIsNode(g, {t}, B, v);
      assert v in A ==> Evading(g, t, A, v);
    }
  }

  lemma EvaderStays(g: Digraph, t: Node, A: set<Node>, u: Node)
    requires Evades(g, t, A) && HasSuccessors(g, u)
    ensures u in A ==> exists w :: g.Edge(u, w) && w in A
  {
    hide Returns;
    if u in A {
      assert Evading(g, t, A, u);
      assert g.succ[u][0] in Succs(g, u);
      assert Succs(g, u) * A != {};
      var w :| w in Succs(g, u) * A;
      assert g.Edge(u, w);
    }
  }

  /** Without a return, evading nodes stay away from t. */
  lemma EvadersAvoid(g: Digraph, t: Node, A: set<Node>)
    requires Evades(g, t, A)
    ensures A !! MustSet(g, {t})
  {
    hide MustReach, Returns;
    var S := iset u | u !in A;
    forall u | HasSuccessors(g, u) && (forall w :: g.Edge(u, w) ==> w in S) ensures u in S {
      EvaderStays(g, t, A, u);
    }
    forall v | v in MustSet(g, {t}) ensures v !in A { MustReachIsLeast(g, {t}, S, v); }
  }

  /** The target 1 is its own successor, and 2 can go to 1 or to 3 and stay there. */
  ghost const LOOPS: Digraph := Digraph(map[1 := [1], 2 := [1, 3], 3 := [3]])

  /** A node can be coloured although it can avoid the target. */
  lemma ColorsTooMuch()
    ensures LOOPS.Valid() && 2 in Colors(LOOPS, {1}) && !MustReach(LOOPS, {1}, 2)
  {
    hide MustReach, RuleClosed, Returned, Succs, Digraph.Valid;
    Loops(LOOPS);
    ReturnedIsClosed(LOOPS, {1});
    ColorsEarly(LOOPS, {1}, Returned(LOOPS, {1}));
    AvoidsForever(LOOPS);
  }

  lemma Loops(g: Digraph)
    requires g == LOOPS
    ensures g.Valid() && Succs(g, 1) == {1} && Succs(g, 2) == {1, 3} && g.Edge(2, 3) && g.Edge(3, 3)
  {
    assert g.succ[2][1] == 3;
  }

  lemma AvoidsForever(g: Digraph)
    requires g.Edge(2, 3) && g.Edge(3, 3)
    ensures !MustReach(g, {1}, 2)
  {
    StayingAvoids(g, {1}, iset{2, 3}, 2);
  }

  lemma ColorsEarly(g: Digraph, T: set<Node>, A: set<Node>)
    requires 1 in T && Succs(g, 1) == {1} && Succs(g, 2) == {1, 3} && RuleClosed(g, T, A)
    ensures 2 in A
  {
    hide Fires, Succs;
    FiresSelf(g, T, A);
    FiresEarly(g, T, A);
  }

  lemma FiresSelf(g: Digraph, T: set<Node>, A: set<Node>)
    requires 1 in T && Succs(g, 1) == {1}
    ensures Fires(g, T, A, 1)
  {
    assert {1} * (T + A) == {1};
  }

  lemma FiresEarly(g: Digraph, T: set<Node>, A: set<Node>)
    requires Succs(g, 2) == {1, 3} && 1 in T && 1 in A
    ensures Fires(g, T, A, 2)
  {
    SubsetSize({1}, {1, 3} * (T * A));
    SubsetSize({1}, {1, 3} * (T + A));
  }
}
