/** Control dependences and what the algorithms record about them. */
module ControlDependences {
  import opened Digraphs
  import opened MaximalPaths
  import opened CDGraphs

  type Dependences = map<Node, set<Node>>

  function Get(m: Dependences, n: Node): set<Node> { if n in m then m[n] else {} }

  function With(m: Dependences, n: Node, p: Node): Dependences { m[n := Get(m, n) + {p}] }

  lemma WithGet(m: Dependences, n: Node, p: Node)
    ensures forall a, b :: b in Get(With(m, n, p), a) <==> b in Get(m, a) || (a == n && b == p)
  {
  }

  /** One branch of p must reach n, another one can avoid it. */
  ghost predicate DependsOn(g: Digraph, n: Node, p: Node) {
    && (exists v :: g.Edge(p, v) && MustReach(g, {n}, v))
    && (exists v :: g.Edge(p, v) && !MustReach(g, {n}, v))
  }

  /** Some successors of p are in K and some are not. */
  ghost predicate Mixed(g: Digraph, K: set<Node>, p: Node) {
    (exists v :: g.Edge(p, v) && v in K) && exists v :: g.Edge(p, v) && v !in K
  }

  ghost predicate Holds(g: Digraph, colors: map<Node, set<Node>>, n: Node, p: Node) {
    n in colors && Mixed(g, colors[n], p)
  }

  /** The relations hold what the colours of the nodes in `done` say. */
  ghost predicate Records(g: Digraph, colors: map<Node, set<Node>>, done: set<Node>, cd: Dependences,
                          revCd: Dependences)
  {
    forall n, p :: Recorded(g, colors, done, cd, revCd, n, p)
  }

  ghost predicate Recorded(g: Digraph, colors: map<Node, set<Node>>, done: set<Node>, cd: Dependences,
                           revCd: Dependences, n: Node, p: Node)
  {
    && (p in Get(cd, n) <==> n in done && Holds(g, colors, n, p))
    && (n in Get(revCd, p) <==> n in done && Holds(g, colors, n, p))
  }

  /** The relations also hold what the predicates in `seen` say about the target. */
  ghost predicate RecordsFor(g: Digraph, colors: map<Node, set<Node>>, done: set<Node>, target: Node, seen: set<Node>,
                             cd: Dependences, revCd: Dependences)
  {
    forall n, p :: RecordedFor(g, colors, done, target, seen, cd, revCd, n, p)
  }

  ghost predicate RecordedFor(g: Digraph, colors: map<Node, set<Node>>, done: set<Node>, target: Node, seen: set<Node>,
                              cd: Dependences, revCd: Dependences, n: Node, p: Node)
  {
    && (p in Get(cd, n) <==> (n in done || (n == target && p in seen)) && Holds(g, colors, n, p))
    && (n in Get(revCd, p) <==> (n in done || (n == target && p in seen)) && Holds(g, colors, n, p))
  }

  lemma RecordNone(g: Digraph, colors: map<Node, set<Node>>)
    ensures Records(g, colors, {}, map[], map[])
  {
  }

  lemma RecordStart(g: Digraph, colors: map<Node, set<Node>>, done: set<Node>, target: Node, cd: Dependences,
                    revCd: Dependences)
    requires Records(g, colors, done, cd, revCd) && target !in done
    ensures RecordsFor(g, colors, done, target, {}, cd, revCd)
  {
    hide Holds, Get;
    forall n, p ensures RecordedFor(g, colors, done, target, {}, cd, revCd, n, p) {
      assert Recorded(g, colors, done, cd, revCd, n, p);
    }
  }

  lemma RecordOne(g: Digraph, colors: map<Node, set<Node>>, done: set<Node>, target: Node, seen: set<Node>,
                  cd: Dependences, revCd: Dependences, p: Node, mixed: bool)
    requires RecordsFor(g, colors, done, target, seen, cd, revCd)
    requires target in colors && (mixed <==> Mixed(g, colors[target], p))
    ensures RecordsFor(g, colors, done, target, seen + {p}, if mixed then With(cd, target, p) else cd,
                       if mixed then With(revCd, p, target) else revCd)
  {
    hide Mixed, Get, With;
    assert mixed <==> Holds(g, colors, target, p);
    hide Holds;
    WithGet(cd, target, p);
    WithGet(revCd, p, target);
    var cd', revCd' := if mixed then With(cd, target, p) else cd, if mixed then With(revCd, p, target) else revCd;
    var seen' := seen + {p};
    forall n, q ensures RecordedFor(g, colors, done, target, seen', cd', revCd', n, q) {
      assert RecordedFor(g, colors, done, target, seen, cd, revCd, n, q);
      assert q in Get(cd', n) <==> q in Get(cd, n) || (mixed && n == target && q == p);
      assert n in Get(revCd', q) <==> n in Get(revCd, q) || (mixed && q == p && n == target);
    }
  }

  lemma RecordTarget(g: Digraph, colors: map<Node, set<Node>>, done: set<Node>, target: Node, cd: Dependences,
                     revCd: Dependences)
    requires RecordsFor(g, colors, done, target, Branching(g.succ), cd, revCd)
    ensures Records(g, colors, done + {target}, cd, revCd)
  {
    hide Mixed, Branching, Get, Holds;
    forall n, p ensures Recorded(g, colors, done + {target}, cd, revCd, n, p) {
      assert RecordedFor(g, colors, done, target, Branching(g.succ), cd, revCd, n, p);
      if Holds(g, colors, n, p) { HoldsBranches(g, colors, n, p); }
    }
  }

  lemma HoldsBranches(g: Digraph, colors: map<Node, set<Node>>, n: Node, p: Node)
    requires Holds(g, colors, n, p)
    ensures p in Branching(g.succ)
  {
    hide Mixed, Branching;
    MixedBranches(g, colors[n], p);
  }

  lemma MixedBranches(g: Digraph, K: set<Node>, p: Node)
    requires Mixed(g, K, p)
    ensures p in Branching(g.succ)
  {
    var v :| g.Edge(p, v) && v in K;
    var w :| g.Edge(p, w) && w !in K;
  }

  lemma IsMixed(g: Digraph, K: set<Node>, p: Node)
    requires p in g.succ
    ensures Mixed(g, K, p) <==> (exists v :: v in g.succ[p] && v in K) && exists v :: v in g.succ[p] && v !in K
  {
    assert forall v :: g.Edge(p, v) <==> v in g.succ[p];
  }

  /** Whether the successors hold a coloured and an uncoloured node. */
  method HasMixedSuccessors(succ: seq<Node>, K: set<Node>) returns (mixed: bool)
    ensures mixed <==> (exists v :: v in succ && v in K) && exists v :: v in succ && v !in K
  {
    var hasColored, hasUncolored, i := false, false, 0;
    while i < |succ|
      invariant i <= |succ|
      invariant hasColored <==> exists v :: v in succ[..i] && v in K
      invariant hasUncolored <==> exists v :: v in succ[..i] && v !in K
    {
      assert succ[..i + 1] == succ[..i] + [succ[i]];
      if succ[i] in K {
        hasColored := true;
      }
      if succ[i] !in K {
        hasUncolored := true;
      }
      i := i + 1;
    }
    assert succ[..i] == succ;
    mixed := hasColored && hasUncolored;
  }

  /** What the graph's predicates say about one more target. */
  method AddDependences(graph: CDGraph, target: Node, K: set<Node>, cd0: Dependences, revCd0: Dependences,
                        ghost colors: map<Node, set<Node>>, ghost done: set<Node>)
      returns (cd: Dependences, revCd: Dependences)
    requires graph.Valid() && target in colors && colors[target] == K && target !in done
    requires Records(graph.G(), colors, done, cd0, revCd0)
    ensures Records(graph.G(), colors, done + {target}, cd, revCd)
  {
    hide Mixed, Records, RecordsFor, Inverse, InOrder;
    ghost var g := graph.G();
    RecordStart(g, colors, done, target, cd0, revCd0);
    cd, revCd := cd0, revCd0;
    var predicates := graph.predicates;
    assert graph.predicates - predicates == {};
    while predicates != {}
      invariant predicates <= graph.predicates
      invariant RecordsFor(g, colors, done, target, graph.predicates - predicates, cd, revCd)
    {
      var p :| p in predicates;
      var mixed := HasMixedSuccessors(graph.succ[p], K);
      IsMixed(g, K, p);
      RecordOne(g, colors, done, target, graph.predicates - predicates, cd, revCd, p, mixed);
      if mixed {
        cd := With(cd, target, p);
        revCd := With(revCd, p, target);
      }
      assert graph.predicates - (predicates - {p}) == graph.predicates - predicates + {p};
      predicates := predicates - {p};
    }
    assert graph.predicates - predicates == Branching(g.succ);
    RecordTarget(g, colors, done, target, cd, revCd);
  }

  /** The nodes that must reach T. */
  ghost function MustSet(g: Digraph, T: set<Node>): set<Node> { set v | v in g.succ && MustReach(g, T, v) }

  ghost function MustSets(g: Digraph): map<Node, set<Node>> { map n | n in g.succ :: MustSet(g, {n}) }

  /** The two relations are the graph's control dependences. */
  ghost predicate AllDependences(g: Digraph, cd: Dependences, revCd: Dependences) {
    forall n, p :: RightFor(g, cd, revCd, n, p)
  }

  ghost predicate RightFor(g: Digraph, cd: Dependences, revCd: Dependences, n: Node, p: Node) {
    && (p in Get(cd, n) <==> n in g.succ && DependsOn(g, n, p))
    && (n in Get(revCd, p) <==> n in g.succ && DependsOn(g, n, p))
  }

  lemma MixedIsDependent(g: Digraph, n: Node, p: Node)
    requires g.Valid()
    ensures Mixed(g, MustSet(g, {n}), p) <==> DependsOn(g, n, p)
  {
    hide MustReach;
    assert forall v :: g.Edge(p, v) ==> v in g.succ;
  }

  lemma RecordsAll(g: Digraph, cd: Dependences, revCd: Dependences)
    requires g.Valid() && Records(g, MustSets(g), g.succ.Keys, cd, revCd)
    ensures AllDependences(g, cd, revCd)
  {
    hide DependsOn, Mixed, MustSet, Get;
    forall n, p ensures RightFor(g, cd, revCd, n, p) {
      assert Recorded(g, MustSets(g), g.succ.Keys, cd, revCd, n, p);
      if n in g.succ { MixedIsDependent(g, n, p); }
    }
  }
}
