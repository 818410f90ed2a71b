/** Summary edges of a system dependence graph, by a worklist of path edges. */
module SummaryEdges {
  import opened Digraphs

  type Edge = (Node, Node)

  /** The dependence graphs of all procedures: the edges backwards, the parameter nodes, the
      graphs that they belong to, and for the formal parameters of each graph the actual
      ones at its call sites. */
  datatype SDG = SDG(nodes: set<Node>, revControl: map<Node, set<Node>>, revData: map<Node, set<Node>>,
                     users: map<Node, set<Node>>, formalOut: set<Node>, formalIn: set<Node>, actualOut: set<Node>,
                     graph: map<Node, nat>, formalToActual: map<nat, map<Node, map<nat, Node>>>)
  {
    /** A formal parameter is listed in the graph of a formal out. */
    predicate Listed(formal: Node, out: Node) {
      out in graph && graph[out] in formalToActual && formal in formalToActual[graph[out]]
    }

    /** The call sites at which it has an actual one there. */
    function Sites(formal: Node, out: Node): set<nat> {
      if Listed(formal, out) then formalToActual[graph[out]][formal].Keys else {}
    }

    function Actual(formal: Node, out: Node, site: nat): Node
      requires site in Sites(formal, out)
    {
      formalToActual[graph[out]][formal][site]
    }

    /** Edges join nodes of the graph, within a procedure or between procedures; the actual
        parameters that belong to formal outs are actual outs. */
    ghost predicate Valid() {
      && formalOut + formalIn <= nodes
      && (forall n, m :: n in nodes && m in Get(revControl, n) + Get(revData, n) + Get(users, n) ==> m in nodes)
      && (forall f, h, c :: f in formalOut + formalIn && h in formalOut && c in Sites(f, h) ==>
            Actual(f, h, c) in nodes)
      && (forall f, c :: f in formalOut && c in Sites(f, f) ==> Actual(f, f, c) in actualOut)
    }
  }

  function Get(m: map<Node, set<Node>>, n: Node): set<Node> { if n in m then m[n] else {} }

  // ---- the four rules

  /** The nodes from which a path to n is continued backwards, given summary edges S. */
  ghost predicate Before(g: SDG, S: set<Edge>, m: Node, n: Node) {
    if n in g.actualOut then m in Get(g.revControl, n) || (m, n) in S
    else n !in g.formalIn && m in Get(g.revControl, n) + Get(g.revData, n) + Get(g.users, n)
  }

  /** A path from a formal in to a formal out, mapped to a call site. */
  ghost predicate Maps(g: SDG, e: Edge, c: nat, s: Edge) {
    e.0 in g.formalIn && e.0 !in g.actualOut && c in g.Sites(e.1, e.1) && c in g.Sites(e.0, e.1)
      && s == (g.Actual(e.0, e.1, c), g.Actual(e.1, e.1, c))
  }

  /** a is the actual parameter of `formal` at call site c, by the lists of the graph of `out`. */
  ghost predicate BelongsTo(g: SDG, out: Node, formal: Node, c: nat, a: Node) {
    out in g.graph && IsListed(g.formalToActual, g.graph[out], formal, c, a)
  }

  ghost predicate IsListed(m: map<nat, map<Node, map<nat, Node>>>, k: nat, formal: Node, c: nat, a: Node) {
    k in m && formal in m[k] && c in m[k][formal] && m[k][formal][c] == a
  }

  /** A path is mapped to the actual parameters of its ends at one call site, both listed in the
      graph of the formal out; and the lookups succeed iff this graph lists the formal out, and
      the formal in has an actual parameter at each of its call sites. */
  lemma MapsMeans(g: SDG, e: Edge, c: nat, s: Edge)
    ensures Maps(g, e, c, s) <==>
      e.0 in g.formalIn && e.0 !in g.actualOut && BelongsTo(g, e.1, e.0, c, s.0) && BelongsTo(g, e.1, e.1, c, s.1)
    ensures Found(g, e) <==>
      && e.1 in g.graph && g.graph[e.1] in g.formalToActual && e.1 in g.formalToActual[g.graph[e.1]]
      && forall d: nat, a :: BelongsTo(g, e.1, e.1, d, a) ==> exists b :: BelongsTo(g, e.1, e.0, d, b)
  {
    forall n: Node, d: nat, a ensures BelongsTo(g, e.1, n, d, a) <==>
      d in g.Sites(n, e.1) && g.Actual(n, e.1, d) == a {}
    if Found(g, e) {
      forall d: nat, a | BelongsTo(g, e.1, e.1, d, a) ensures exists b :: BelongsTo(g, e.1, e.0, d, b) {
        assert BelongsTo(g, e.1, e.0, d, g.Actual(e.0, e.1, d));
      }
    }
    if forall d: nat, a :: BelongsTo(g, e.1, e.1, d, a) ==> exists b :: BelongsTo(g, e.1, e.0, d, b) {
      forall d | d in g.Sites(e.1, e.1) ensures d in g.Sites(e.0, e.1) {
        assert BelongsTo(g, e.1, e.1, d, g.Actual(e.1, e.1, d));
      }
    }
  }

  ghost predicate Seeded(g: SDG, P: set<Edge>) { forall f :: f in g.formalOut ==> (f, f) in P }

  ghost predicate Extended(g: SDG, P: set<Edge>, S: set<Edge>, e: Edge) {
    forall m: Node :: Before(g, S, m, e.0) ==> (m, e.1) in P
  }

  ghost predicate Mapped(g: SDG, S: set<Edge>, e: Edge) { forall c, s :: Maps(g, e, c, s) ==> s in S }

  /** The path edges P and the summary edges S are closed under the rules. */
  ghost predicate Closed(g: SDG, P: set<Edge>, S: set<Edge>) {
    Seeded(g, P) && forall e :: e in P ==> Extended(g, P, S, e) && Mapped(g, S, e)
  }

  /** They are part of every closed pair that holds the first summary edges S0. */
  ghost predicate Least(g: SDG, S0: set<Edge>, P: set<Edge>, S: set<Edge>) {
    forall P', S' :: Closed(g, P', S') && S0 <= S' ==> P <= P' && S <= S'
  }

  // ---- what path edges and summary edges mean

  /** A path to a formal out. Behind actual outs it follows control and summary edges only,
      and no edge leads into a formal in. */
  ghost predicate SameLevel(g: SDG, S: set<Edge>, p: seq<Node>) {
    p != [] && p[|p| - 1] in g.formalOut && forall i :: 0 <= i < |p| - 1 ==> Before(g, S, p[i], p[i + 1])
  }

  ghost predicate Path(g: SDG, S: set<Edge>, e: Edge) {
    exists p :: SameLevel(g, S, p) && p[0] == e.0 && p[|p| - 1] == e.1
  }

  lemma {:induction false} PathIsEdge(g: SDG, P: set<Edge>, S: set<Edge>, p: seq<Node>)
    requires Closed(g, P, S) && SameLevel(g, S, p)
    ensures (p[0], p[|p| - 1]) in P
    decreases |p|
  {
    if |p| > 1 {
      PathIsEdge(g, P, S, p[1..]);
      assert Extended(g, P, S, (p[1], p[|p| - 1]));
      assert Before(g, S, p[0], p[0 + 1]);
    }
  }

  lemma PathExtends(g: SDG, S: set<Edge>, e: Edge, m: Node)
    requires Path(g, S, e) && Before(g, S, m, e.0)
    ensures Path(g, S, (m, e.1))
  {
    hide Before;
    var p :| SameLevel(g, S, p) && p[0] == e.0 && p[|p| - 1] == e.1;
    var q := [m] + p;
    forall i | 0 <= i < |q| - 1 ensures Before(g, S, q[i], q[i + 1]) {
      if i > 0 { assert q[i] == p[i - 1] && q[i + 1] == p[i - 1 + 1]; }
    }
    assert SameLevel(g, S, q);
  }

  /** The path edges are the ends of these paths. */
  lemma PathEdgesArePaths(g: SDG, S0: set<Edge>, P: set<Edge>, S: set<Edge>, e: Edge)
    requires Closed(g, P, S) && Least(g, S0, P, S) && S0 <= S
    ensures e in P <==> Path(g, S, e)
  {
    hide Before, Maps;
    if Path(g, S, e) {
      var p :| SameLevel(g, S, p) && p[0] == e.0 && p[|p| - 1] == e.1;
      PathIsEdge(g, P, S, p);
    }
    if e in P {
      var Q := set d | d in P && Path(g, S, d);
      ClosedPaths(g, P, S, Q);
      assert P <= Q;
    }
  }

  lemma ClosedPaths(g: SDG, P: set<Edge>, S: set<Edge>, Q: set<Edge>)
    requires Closed(g, P, S) && Q == set d | d in P && Path(g, S, d)
    ensures Closed(g, Q, S)
  {
    hide Before, Maps, Path;
    forall f | f in g.formalOut ensures (f, f) in Q {
      SeedPath(g, S, f);
    }
    forall d | d in Q ensures Extended(g, Q, S, d) && Mapped(g, S, d) {
      assert Extended(g, P, S, d);
      forall m: Node | Before(g, S, m, d.0) ensures (m, d.1) in Q { PathExtends(g, S, d, m); }
    }
  }

  lemma SeedPath(g: SDG, S: set<Edge>, f: Node)
    requires f in g.formalOut
    ensures Path(g, S, (f, f))
  {
    assert SameLevel(g, S, [f]);
  }

  /** The new summary edges are the paths from formal ins, mapped to call sites. */
  lemma SummariesArePaths(g: SDG, S0: set<Edge>, P: set<Edge>, S: set<Edge>, s: Edge)
    requires Closed(g, P, S) && Least(g, S0, P, S) && S0 <= S
    ensures s in S <==> s in S0 || exists e, c :: Path(g, S, e) && Maps(g, e, c, s)
  {
    hide Before, Maps, Path;
    if exists e, c :: Path(g, S, e) && Maps(g, e, c, s) {
      var e, c :| Path(g, S, e) && Maps(g, e, c, s);
      PathEdgesArePaths(g, S0, P, S, e);
      assert Mapped(g, S, e);
    }
    if s in S && s !in S0 && !exists e, c :: Path(g, S, e) && Maps(g, e, c, s) {
      WithoutSummary(g, S0, P, S, s);
    }
  }

  lemma WithoutSummary(g: SDG, S0: set<Edge>, P: set<Edge>, S: set<Edge>, s: Edge)
    requires Closed(g, P, S) && Least(g, S0, P, S) && S0 <= S && !exists e, c :: Path(g, S, e) && Maps(g, e, c, s)
    ensures Closed(g, P, S - {s})
  {
    hide Before, Maps, Path, Least;
    var T := S - {s};
    forall e | e in P ensures Extended(g, P, T, e) && Mapped(g, T, e) {
      PathEdgesArePaths(g, S0, P, S, e);
      FewerBefore(g, P, S, T, e);
      assert Mapped(g, S, e);
    }
  }

  lemma FewerBefore(g: SDG, P: set<Edge>, S: set<Edge>, T: set<Edge>, e: Edge)
    requires Closed(g, P, S) && T <= S && e in P
    ensures Extended(g, P, T, e)
  {
    assert Extended(g, P, S, e);
  }

  // ---- the computation

  class SummaryEdgesComputation {
    const g: SDG
    var workList: seq<Edge>
    var pathEdge: set<Edge>
    var summary: set<Edge>

    constructor (g: SDG, summary: set<Edge>)
      ensures this.g == g && this.summary == summary && workList == [] && pathEdge == {}
    {
      this.g, this.summary, workList, pathEdge := g, summary, [], {};
    }

    method Propagate(e: Edge)
      modifies this`workList, this`pathEdge
      ensures pathEdge == old(pathEdge) + {e}
      ensures workList == if e in old(pathEdge) then old(workList) else old(workList) + [e]
    {
      if e !in pathEdge {
        pathEdge := pathEdge + {e};
        workList := workList + [e];
      }
    }

    method PropagateAll(ms: set<Node>, to: Node)
      modifies this`workList, this`pathEdge
      ensures pathEdge == old(pathEdge) + (set m | m in ms :: (m, to))
      ensures Queued(old(pathEdge), old(workList), pathEdge, workList)
    {
      var todo := ms;
      QueuedSame(pathEdge, workList);
      while todo != {}
        invariant todo <= ms && pathEdge == old(pathEdge) + (set m | m in ms - todo :: (m, to))
        invariant Queued(old(pathEdge), old(workList), pathEdge, workList)
      {
        var m :| m in todo;
        QueuedMore(old(pathEdge), old(workList), pathEdge, workList, (m, to));
        Propagate((m, to));
        assert ms - (todo - {m}) == ms - todo + {m};
        todo := todo - {m};
      }
      assert ms - todo == ms;
    }

    /** Seed the worklist with the formal outs. */
    method Initialize(ghost S0: set<Edge>)
      requires g.Valid() && InGraph(g, summary) && summary == S0 && pathEdge == {} && workList == []
      modifies this`workList, this`pathEdge
      ensures Inv(g, S0, pathEdge, summary, workList, {}) && Seeded(g, pathEdge)
      ensures forall e :: e in pathEdge ==> e in workList
    {
      var todo := g.formalOut;
      StartInv(g, S0);
      while todo != {}
        invariant todo <= g.formalOut && Inv(g, S0, pathEdge, summary, workList, {})
        invariant forall f :: f in g.formalOut && f !in todo ==> (f, f) in pathEdge
        invariant forall e :: e in pathEdge ==> e in workList
      {
        hide Inv, SDG.Valid;
        var f :| f in todo;
        QueuedSame(pathEdge, workList);
        QueuedMore(pathEdge, workList, pathEdge, workList, (f, f));
        SeedForced(g, S0, f);
        AddEdges(g, S0, pathEdge, summary, workList, {}, pathEdge + {(f, f)},
                 if (f, f) in pathEdge then workList else workList + [(f, f)]);
        Propagate((f, f));
        todo := todo - {f};
      }
    }

    method HandleActualOut(e: Edge, ghost S0: set<Edge>)
      requires g.Valid() && Inv(g, S0, pathEdge, summary, workList, {e}) && e in pathEdge && e.0 in g.actualOut
      modifies this`workList, this`pathEdge
      ensures Inv(g, S0, pathEdge, summary, workList, {}) && Queued(old(pathEdge), old(workList), pathEdge, workList)
    {
      hide Inv, SDG.Valid;
      Continue(g, S0, pathEdge, summary, workList, e, Get(g.revControl, e.0));
      ghost var P0, W0 := pathEdge, workList;
      PropagateAll(Get(g.revControl, e.0), e.1);
      AddEdges(g, S0, P0, summary, W0, {e}, pathEdge, workList);
      ghost var P1, W1 := pathEdge, workList;
      var ins := set s: Edge | s in summary && s.1 == e.0 :: s.0;
      Continue(g, S0, pathEdge, summary, workList, e, ins);
      PropagateAll(ins, e.1);
      AddEdges(g, S0, P1, summary, W1, {e}, pathEdge, workList);
      QueuedTwice(P0, W0, P1, W1, pathEdge, workList);
      ActualOutDone(g, S0, pathEdge, summary, workList, e);
    }

    method HandleGenericEdge(e: Edge, ghost S0: set<Edge>)
      requires g.Valid() && Inv(g, S0, pathEdge, summary, workList, {e}) && e in pathEdge && e.0 !in g.actualOut
      requires e.0 !in g.formalIn
      modifies this`workList, this`pathEdge
      ensures Inv(g, S0, pathEdge, summary, workList, {}) && Queued(old(pathEdge), old(workList), pathEdge, workList)
    {
      hide Inv, SDG.Valid;
      ghost var P0, W0 := pathEdge, workList;
      Continue(g, S0, pathEdge, summary, workList, e, Get(g.revControl, e.0));
      PropagateAll(Get(g.revControl, e.0), e.1);
      AddEdges(g, S0, P0, summary, W0, {e}, pathEdge, workList);
      ghost var P1, W1 := pathEdge, workList;
      Continue(g, S0, pathEdge, summary, workList, e, Get(g.revData, e.0));
      PropagateAll(Get(g.revData, e.0), e.1);
      AddEdges(g, S0, P1, summary, W1, {e}, pathEdge, workList);
      QueuedTwice(P0, W0, P1, W1, pathEdge, workList);
      ghost var P2, W2 := pathEdge, workList;
      Continue(g, S0, pathEdge, summary, workList, e, Get(g.users, e.0));
      PropagateAll(Get(g.users, e.0), e.1);
      AddEdges(g, S0, P2, summary, W2, {e}, pathEdge, workList);
      QueuedTwice(P0, W0, P2, W2, pathEdge, workList);
      GenericDone(g, S0, pathEdge, summary, workList, e);
    }

    /** Continue the paths that start at an actual out from its actual in. */
    method PropagateSummary(s: Edge, ghost S0: set<Edge>, ghost e: Edge, ghost S: set<Edge>)
      requires g.Valid() && Inv(g, S0, pathEdge, S, workList, {e}) && ForcedSummary(g, S0, s) && s.1 in g.actualOut
      requires s.0 in g.nodes && s.1 in g.nodes
      modifies this`workList, this`pathEdge
      ensures Inv(g, S0, pathEdge, S, workList, {e}) && Queued(old(pathEdge), old(workList), pathEdge, workList)
      ensures forall x: Node :: (s.1, x) in pathEdge ==> (s.0, x) in pathEdge
    {
      ghost var P0, W0 := pathEdge, workList;
      QueuedSame(P0, W0);
      var todo := set pe | pe in pathEdge && pe.0 == s.1;
      while todo != {}
        invariant todo <= P0 && Inv(g, S0, pathEdge, S, workList, {e}) && Queued(P0, W0, pathEdge, workList)
        invariant forall pe :: pe in todo ==> pe.0 == s.1
        invariant forall d :: d in pathEdge && d.0 == s.1 ==> d in P0
        invariant forall x: Node :: (s.1, x) in P0 && (s.1, x) !in todo ==> (s.0, x) in pathEdge
      {
        hide Inv, SDG.Valid;
        var pe :| pe in todo;
        ghost var d: Edge := (s.0, pe.1);
        ghost var P1, W1 := pathEdge, workList;
        QueuedSame(P1, W1);
        QueuedMore(P1, W1, P1, W1, d);
        assert pe == (s.1, pe.1);
        SummaryForces(g, S0, P1, S, W1, {e}, s, pe);
        AddEdges(g, S0, P1, S, W1, {e}, P1 + {d}, if d in P1 then W1 else W1 + [d]);
        Propagate((s.0, pe.1));
        QueuedTwice(P0, W0, P1, W1, pathEdge, workList);
        todo := todo - {pe};
      }
    }

    /** Map a path between formal parameters to the call sites of the formal out's graph.
        `found` tells whether that graph lists the formal out, and an actual in at every call
        site of it, as the source asserts; a site without one is passed over. */
    method HandleFormalIn(e: Edge, ghost S0: set<Edge>) returns (found: bool)
      requires g.Valid() && Inv(g, S0, pathEdge, summary, workList, {e}) && e in pathEdge && e.0 !in g.actualOut
      requires e.0 in g.formalIn
      modifies this
      ensures Inv(g, S0, pathEdge, summary, workList, {}) && Queued(old(pathEdge), old(workList), pathEdge, workList)
      ensures found <==> Found(g, e)
    {
      ghost var P0, W0 := pathEdge, workList;
      QueuedSame(P0, W0);
      EdgeEnds(g, S0, pathEdge, summary, workList, {e}, e);
      found := g.Listed(e.1, e.1);
      var todo := g.Sites(e.1, e.1);
      while todo != {}
        invariant todo <= g.Sites(e.1, e.1) && Inv(g, S0, pathEdge, summary, workList, {e})
        invariant Queued(P0, W0, pathEdge, workList)
        invariant forall c, s :: Maps(g, e, c, s) && c !in todo ==> s in summary
        invariant found <==>
          g.Listed(e.1, e.1) && forall c :: c in g.Sites(e.1, e.1) && c !in todo ==> c in g.Sites(e.0, e.1)
      {
        hide Inv, SDG.Valid;
        var c :| c in todo;
        if c in g.Sites(e.0, e.1) {
          ghost var P1, W1, S1 := pathEdge, workList, summary;
          MappedEnds(g, e, c);
          var s := (g.Actual(e.0, e.1, c), g.Actual(e.1, e.1, c));
          MapsForced(g, S0, P1, S1, W1, e, c, s);
          summary := summary + {s};
          PropagateSummary(s, S0, e, S1);
          AddSummary(g, S0, pathEdge, S1, workList, e, s);
          QueuedTwice(P0, W0, P1, W1, pathEdge, workList);
        } else {
          found := false;
        }
        todo := todo - {c};
      }
      FormalInDone(g, S0, pathEdge, summary, workList, e);
    }

    method HandleEdge(e: Edge, ghost S0: set<Edge>) returns (found: bool)
      requires g.Valid() && Inv(g, S0, pathEdge, summary, workList, {e}) && e in pathEdge
      modifies this
      ensures Inv(g, S0, pathEdge, summary, workList, {}) && Queued(old(pathEdge), old(workList), pathEdge, workList)
      ensures found <==> (LooksUp(g, e) ==> Found(g, e))
    {
      hide Inv, SDG.Valid, Queued, Found;
      found := true;
      if e.0 in g.actualOut {
        HandleActualOut(e, S0);
      } else if e.0 in g.formalIn {
        found := HandleFormalIn(e, S0);
      } else {
        HandleGenericEdge(e, S0);
      }
    }

    /** Compute the summary edges: the edge that was pushed last is popped first. `found`
        tells whether every lookup of actual parameters succeeded. */
    method ComputeSummaryEdges() returns (found: bool)
      requires g.Valid() && InGraph(g, summary) && pathEdge == {} && workList == []
      modifies this
      ensures Closed(g, pathEdge, summary) && Least(g, old(summary), pathEdge, summary) && old(summary) <= summary
      ensures found <==> AllFound(g, pathEdge)
    {
      ghost var S0 := summary;
      Initialize(S0);
      found := true;
      ghost var popped: set<Edge> := {};
      AllQueued(pathEdge, workList);
      while workList != []
        invariant Inv(g, S0, pathEdge, summary, workList, {}) && Seeded(g, pathEdge)
        invariant Tracked(pathEdge, popped, workList) && (found <==> AllFound(g, popped))
        decreases AllEdges(g) - pathEdge, |workList|
      {
        hide Inv, SDG.Valid, Seeded, Tracked, Found, LooksUp, Queued;
        var e := workList[|workList| - 1];
        ghost var P, W := pathEdge, workList;
        PopEdge(g, S0, pathEdge, summary, workList);
        workList := workList[..|workList| - 1];
        var here := HandleEdge(e, S0);
        OneEdgeHandled(g, S0, P, W, popped, pathEdge, summary, workList, e, found, here);
        popped := popped + {e};
        found := found && here;
      }
      AllPopped(pathEdge, popped);
      AllHandled(g, S0, pathEdge, summary);
    }
  }

  /** The formal out of a path edge is listed in its graph, and there the formal in has an
      actual one wherever the formal out has. */
  ghost predicate Found(g: SDG, e: Edge) { g.Listed(e.1, e.1) && g.Sites(e.1, e.1) <= g.Sites(e.0, e.1) }

  ghost predicate LooksUp(g: SDG, e: Edge) { e.0 in g.formalIn && e.0 !in g.actualOut }

  ghost predicate AllFound(g: SDG, P: set<Edge>) { forall e :: e in P && LooksUp(g, e) ==> Found(g, e) }

  /** Every path edge was popped or waits. */
  ghost predicate Tracked(P: set<Edge>, popped: set<Edge>, W: seq<Edge>) {
    popped <= P && forall e :: e in P ==> e in popped || e in W
  }

  lemma TrackOneMore(P: set<Edge>, popped: set<Edge>, W: seq<Edge>, P': set<Edge>, W': seq<Edge>)
    requires W != [] && W[|W| - 1] in P && Tracked(P, popped, W) && Queued(P, W[..|W| - 1], P', W')
    ensures Tracked(P', popped + {W[|W| - 1]}, W')
  {
    forall e | e in P' ensures e in popped + {W[|W| - 1]} || e in W' {
      if e in P && e !in popped {
        var i :| 0 <= i < |W| && W[i] == e;
        if i < |W| - 1 { assert W'[i] == W[..|W| - 1][i] == e; }
      }
    }
  }

  /** After the last edge of the worklist W was handled. */
  lemma OneEdgeHandled(g: SDG, S0: set<Edge>, P: set<Edge>, W: seq<Edge>, popped: set<Edge>, P': set<Edge>,
                       S': set<Edge>, W': seq<Edge>, e: Edge, found: bool, here: bool)
    requires W != [] && e == W[|W| - 1] && e in P && Inv(g, S0, P', S', W', {}) && Seeded(g, P)
    requires Tracked(P, popped, W) && Queued(P, W[..|W| - 1], P', W')
    requires (found <==> AllFound(g, popped)) && (here <==> (LooksUp(g, e) ==> Found(g, e)))
    ensures Seeded(g, P') && Tracked(P', popped + {e}, W') && (found && here <==> AllFound(g, popped + {e}))
    ensures P <= P' <= AllEdges(g) && (P' == P ==> |W'| < |W|)
  {
    hide *;
    EdgesBound(g, S0, P', S', W');
    QueuedShrinks(g, P, W[..|W| - 1], P', W');
    SeededMore(g, P, P');
    TrackOneMore(P, popped, W, P', W');
    FoundOneMore(g, popped, e);
  }

  lemma FoundOneMore(g: SDG, popped: set<Edge>, e: Edge)
    ensures AllFound(g, popped + {e}) <==> AllFound(g, popped) && (LooksUp(g, e) ==> Found(g, e))
  {
    hide Found, LooksUp;
  }

  /** Whatever is new was also put into the worklist. */
  ghost predicate Queued(P: set<Edge>, W: seq<Edge>, P': set<Edge>, W': seq<Edge>) {
    P <= P' && W <= W' && (forall e :: e in P' && e !in P ==> e in W')
      && (forall e :: e in W' ==> e in W || e in P') && (P' == P ==> W' == W)
  }

  lemma QueuedShrinks(g: SDG, P: set<Edge>, W: seq<Edge>, P': set<Edge>, W': seq<Edge>)
    requires Queued(P, W, P', W')
    ensures P <= P' && (P' == P ==> W' == W)
  {
  }

  lemma AllPopped(P: set<Edge>, popped: set<Edge>)
    requires Tracked(P, popped, [])
    ensures popped == P
  {
  }

  lemma QueuedSame(P: set<Edge>, W: seq<Edge>)
    ensures Queued(P, W, P, W)
  {
  }

  lemma QueuedMore(P: set<Edge>, W: seq<Edge>, P': set<Edge>, W': seq<Edge>, e: Edge)
    requires Queued(P, W, P', W')
    ensures Queued(P, W, P' + {e}, if e in P' then W' else W' + [e])
  {
    if e in P' { assert P' + {e} == P'; }
  }

  lemma QueuedTwice(P: set<Edge>, W: seq<Edge>, P1: set<Edge>, W1: seq<Edge>, P2: set<Edge>, W2: seq<Edge>)
    requires Queued(P, W, P1, W1) && Queued(P1, W1, P2, W2)
    ensures Queued(P, W, P2, W2)
  {
    forall e | e in P1 && e !in P ensures e in W2 {
      var i :| 0 <= i < |W1| && W1[i] == e;
      assert W2[i] == e;
    }
  }

  // ---- the invariant

  /** The edges join nodes of the graph. */
  ghost predicate InGraph(g: SDG, S: set<Edge>) { forall e :: e in S ==> e.0 in g.nodes && e.1 in g.nodes }

  /** Path edges that neither wait nor are in `current` were handled. Everything found
      so far is forced by the rules. */
  ghost predicate Inv(g: SDG, S0: set<Edge>, P: set<Edge>, S: set<Edge>, W: seq<Edge>, current: set<Edge>) {
    && S0 <= S && InGraph(g, P) && InGraph(g, S) && (forall e :: e in P ==> e.1 in g.formalOut)
    && (forall e :: e in W ==> e in P)
    && (forall e :: e in P && e !in W && e !in current ==> Extended(g, P, S, e) && Mapped(g, S, e))
    && Least(g, S0, P, S)
  }

  ghost function AllEdges(g: SDG): set<Edge> { set n, m | n in g.nodes && m in g.nodes :: (n, m) }

  /** The rules force a path edge, or a summary edge. */
  ghost predicate Forced(g: SDG, S0: set<Edge>, e: Edge) { forall P', S' :: Closed(g, P', S') && S0 <= S' ==> e in P' }

  ghost predicate ForcedSummary(g: SDG, S0: set<Edge>, s: Edge) {
    forall P', S' :: Closed(g, P', S') && S0 <= S' ==> s in S'
  }

  ghost predicate MayAdd(g: SDG, S0: set<Edge>, e: Edge) {
    Forced(g, S0, e) && InGraph(g, {e}) && e.1 in g.formalOut
  }

  lemma StartInv(g: SDG, S0: set<Edge>)
    requires InGraph(g, S0)
    ensures Inv(g, S0, {}, S0, [], {})
  {
  }

  lemma SeedForced(g: SDG, S0: set<Edge>, f: Node)
    requires g.Valid() && f in g.formalOut
    ensures MayAdd(g, S0, (f, f))
  {
    hide Extended, Mapped;
  }

  /** New path edges that are forced and queued keep the invariant. */
  lemma AddEdges(g: SDG, S0: set<Edge>, P: set<Edge>, S: set<Edge>, W: seq<Edge>, current: set<Edge>, P': set<Edge>,
                 W': seq<Edge>)
    requires Inv(g, S0, P, S, W, current) && Queued(P, W, P', W') && forall e :: e in P' && e !in P ==> MayAdd(g, S0, e)
    ensures Inv(g, S0, P', S, W', current)
  {
    hide Before, Mapped, Closed;
    forall e | e in P' ensures InGraph(g, {e}) && e.1 in g.formalOut {
      assert e in P || MayAdd(g, S0, e);
    }
    assert InGraph(g, P') by { forall e | e in P' ensures InGraph(g, {e}) {} assert forall e :: e in P' ==> e in {e}; }
    forall e | e in P' && e !in W' && e !in current ensures Extended(g, P', S, e) && Mapped(g, S, e) {
      assert e !in W;
      assert Extended(g, P, S, e);
    }
  }

  lemma BeforeInGraph(g: SDG, S: set<Edge>, m: Node, n: Node)
    requires g.Valid() && InGraph(g, S) && n in g.nodes && Before(g, S, m, n)
    ensures m in g.nodes
  {
    if n in g.actualOut && m !in Get(g.revControl, n) { assert (m, n) in S; }
  }

  /** A path edge and a node before it. */
  lemma StepForced(g: SDG, S0: set<Edge>, P: set<Edge>, S: set<Edge>, W: seq<Edge>, e: Edge, m: Node)
    requires g.Valid() && Inv(g, S0, P, S, W, {e}) && e in P && Before(g, S, m, e.0)
    ensures MayAdd(g, S0, (m, e.1))
  {
    BeforeInGraph(g, S, m, e.0);
    forall P', S' | Closed(g, P', S') && S0 <= S' ensures (m, e.1) in P' {
      assert P <= P' && S <= S';
      assert Extended(g, P', S', e);
      assert Before(g, S', m, e.0);
    }
  }

  lemma Continue(g: SDG, S0: set<Edge>, P: set<Edge>, S: set<Edge>, W: seq<Edge>, e: Edge, ms: set<Node>)
    requires g.Valid() && Inv(g, S0, P, S, W, {e}) && e in P && forall m :: m in ms ==> Before(g, S, m, e.0)
    ensures forall m :: m in ms ==> MayAdd(g, S0, (m, e.1))
  {
    hide Inv, SDG.Valid, Before, MayAdd;
    forall m | m in ms ensures MayAdd(g, S0, (m, e.1)) { StepForced(g, S0, P, S, W, e, m); }
  }

  lemma ActualOutDone(g: SDG, S0: set<Edge>, P: set<Edge>, S: set<Edge>, W: seq<Edge>, e: Edge)
    requires Inv(g, S0, P, S, W, {e}) && e.0 in g.actualOut
    requires forall m :: m in Get(g.revControl, e.0) ==> (m, e.1) in P
    requires forall m: Node :: (m, e.0) in S ==> (m, e.1) in P
    ensures Inv(g, S0, P, S, W, {})
  {
    assert Extended(g, P, S, e) && Mapped(g, S, e);
    hide Extended, Mapped, Least;
  }

  lemma GenericDone(g: SDG, S0: set<Edge>, P: set<Edge>, S: set<Edge>, W: seq<Edge>, e: Edge)
    requires Inv(g, S0, P, S, W, {e}) && e.0 !in g.actualOut && e.0 !in g.formalIn
    requires forall m :: m in Get(g.revControl, e.0) + Get(g.revData, e.0) + Get(g.users, e.0) ==> (m, e.1) in P
    ensures Inv(g, S0, P, S, W, {})
  {
    assert Extended(g, P, S, e) && Mapped(g, S, e);
    hide Extended, Mapped, Least;
  }

  lemma FormalInDone(g: SDG, S0: set<Edge>, P: set<Edge>, S: set<Edge>, W: seq<Edge>, e: Edge)
    requires Inv(g, S0, P, S, W, {e}) && e.0 !in g.actualOut && e.0 in g.formalIn && Mapped(g, S, e)
    ensures Inv(g, S0, P, S, W, {})
  {
    assert Extended(g, P, S, e);
    hide Extended, Mapped, Least;
  }

  /** A path that starts at the actual out of a forced summary edge. */
  lemma SummaryForces(g: SDG, S0: set<Edge>, P: set<Edge>, S: set<Edge>, W: seq<Edge>, current: set<Edge>, s: Edge,
                      pe: Edge)
    requires g.Valid() && Inv(g, S0, P, S, W, current) && ForcedSummary(g, S0, s) && s.1 in g.actualOut && pe in P
    requires pe.0 == s.1
    requires s.0 in g.nodes && s.1 in g.nodes
    ensures MayAdd(g, S0, (s.0, pe.1))
  {
    forall P', S' | Closed(g, P', S') && S0 <= S' ensures (s.0, pe.1) in P' {
      assert P <= P' && s in S';
      assert Extended(g, P', S', pe);
      assert Before(g, S', s.0, pe.0);
    }
  }

  lemma EdgeEnds(g: SDG, S0: set<Edge>, P: set<Edge>, S: set<Edge>, W: seq<Edge>, current: set<Edge>, e: Edge)
    requires Inv(g, S0, P, S, W, current) && e in P
    ensures e.1 in g.formalOut && InGraph(g, {e})
  {
  }

  lemma MappedEnds(g: SDG, e: Edge, c: nat)
    requires g.Valid() && e.0 in g.formalIn && e.1 in g.formalOut && c in g.Sites(e.1, e.1) && c in g.Sites(e.0, e.1)
    ensures var s := (g.Actual(e.0, e.1, c), g.Actual(e.1, e.1, c)); InGraph(g, {s}) && s.1 in g.actualOut
  {
  }

  lemma MapsForced(g: SDG, S0: set<Edge>, P: set<Edge>, S: set<Edge>, W: seq<Edge>, e: Edge, c: nat, s: Edge)
    requires Inv(g, S0, P, S, W, {e}) && e in P && Maps(g, e, c, s)
    ensures ForcedSummary(g, S0, s)
  {
    hide Maps;
    forall P', S' | Closed(g, P', S') && S0 <= S' ensures s in S' {
      assert P <= P';
      assert Mapped(g, S', e);
    }
  }

  /** A forced summary edge whose paths were continued joins the others. */
  lemma AddSummary(g: SDG, S0: set<Edge>, P: set<Edge>, S: set<Edge>, W: seq<Edge>, e: Edge, s: Edge)
    requires Inv(g, S0, P, S, W, {e}) && ForcedSummary(g, S0, s) && InGraph(g, {s})
    requires forall x: Node :: (s.1, x) in P ==> (s.0, x) in P
    ensures Inv(g, S0, P, S + {s}, W, {e})
  {
    assert s in {s};
    forall d | d in P && d !in W && d != e ensures Extended(g, P, S + {s}, d) && Mapped(g, S + {s}, d) {
      assert Extended(g, P, S, d) && Mapped(g, S, d);
      forall m: Node | Before(g, S + {s}, m, d.0) ensures (m, d.1) in P {
        if !Before(g, S, m, d.0) {
          assert (m, d.0) == s && d == (s.1, d.1);
        }
      }
    }
  }

  lemma PopEdge(g: SDG, S0: set<Edge>, P: set<Edge>, S: set<Edge>, W: seq<Edge>)
    requires Inv(g, S0, P, S, W, {}) && W != []
    ensures var e := W[|W| - 1]; e in P && Inv(g, S0, P, S, W[..|W| - 1], {e})
  {
    var e := W[|W| - 1];
    assert W == W[..|W| - 1] + [e];
    hide Extended, Mapped, Least;
  }

  lemma EdgesBound(g: SDG, S0: set<Edge>, P: set<Edge>, S: set<Edge>, W: seq<Edge>)
    requires Inv(g, S0, P, S, W, {})
    ensures P <= AllEdges(g)
  {
    forall e | e in P ensures e in AllEdges(g) { assert e == (e.0, e.1); }
  }

  /** At first all path edges wait. */
  lemma AllQueued(P: set<Edge>, W: seq<Edge>)
    requires forall e :: e in P ==> e in W
    ensures Tracked(P, {}, W)
  {
  }

  lemma SeededMore(g: SDG, P: set<Edge>, P': set<Edge>)
    requires Seeded(g, P) && P <= P'
    ensures Seeded(g, P')
  {
  }

  lemma AllHandled(g: SDG, S0: set<Edge>, P: set<Edge>, S: set<Edge>)
    requires Inv(g, S0, P, S, [], {}) && Seeded(g, P)
    ensures Closed(g, P, S) && Least(g, S0, P, S) && S0 <= S
  {
    hide Extended, Mapped, Least;
  }

  // ---- when the lookups succeed

  /** The lookups succeed iff every path from a formal in to a formal out joins parameters
      of one graph of which the first has actual ones at all call sites of the second. */
  lemma LookupsSucceedIff(g: SDG, S0: set<Edge>, P: set<Edge>, S: set<Edge>)
    requires Closed(g, P, S) && Least(g, S0, P, S) && S0 <= S
    ensures AllFound(g, P) <==> forall e :: Path(g, S, e) && LooksUp(g, e) ==> Found(g, e)
  {
    hide Closed, Least, Path, LooksUp, Found;
    forall e ensures e in P <==> Path(g, S, e) { PathEdgesArePaths(g, S0, P, S, e); }
  }

  /** Some relations that hold S0 and are closed under the rules pass all lookups. */
  ghost predicate Certified(g: SDG, S0: set<Edge>) { exists Q, T :: Certificate(g, S0, Q, T) }

  ghost predicate Certificate(g: SDG, S0: set<Edge>, Q: set<Edge>, T: set<Edge>) {
    Closed(g, Q, T) && S0 <= T && AllFound(g, Q)
  }

  /** Whether the lookups succeed is a matter of the graph: they do iff it can be certified. */
  lemma LookupsCertified(g: SDG, S0: set<Edge>, P: set<Edge>, S: set<Edge>)
    requires Closed(g, P, S) && Least(g, S0, P, S) && S0 <= S
    ensures AllFound(g, P) <==> Certified(g, S0)
  {
    hide Closed, LooksUp, Found;
    if AllFound(g, P) { assert Certificate(g, S0, P, S); }
    forall Q, T | Certificate(g, S0, Q, T) ensures AllFound(g, P) { assert P <= Q; }
  }

  /** Dependences stay in the procedures of their nodes, and the parameters of a procedure
      are listed with the same call sites, each of which lies in one procedure. */
  ghost predicate Intraprocedural(g: SDG, home: map<Node, nat>) {
    && home.Keys == g.nodes
    && (forall n, m :: n in g.nodes && m in Get(g.revControl, n) + Get(g.revData, n) + Get(g.users, n) ==>
          m in home && home[m] == home[n])
    && (forall h :: h in g.formalOut ==> g.Listed(h, h))
    && (forall f, h :: f in g.formalIn && h in g.formalOut && f in home && h in home && home[f] == home[h] ==>
          g.Sites(h, h) <= g.Sites(f, h))
    && (forall f, h, c :: f in g.formalIn && h in g.formalOut && c in g.Sites(f, h) && c in g.Sites(h, h) ==>
          AtHome(home, (g.Actual(f, h, c), g.Actual(h, h, c))))
  }

  ghost predicate AtHome(home: map<Node, nat>, e: Edge) { e.0 in home && e.1 in home && home[e.0] == home[e.1] }

  /** Then all lookups succeed. */
  lemma IntraproceduralFinds(g: SDG, home: map<Node, nat>, S0: set<Edge>, P: set<Edge>, S: set<Edge>)
    requires g.Valid() && Intraprocedural(g, home) && Closed(g, P, S) && Least(g, S0, P, S) && S0 <= S
    requires forall e :: e in S0 ==> AtHome(home, e)
    ensures AllFound(g, P)
  {
    var Q, T := set e | e in P && AtHome(home, e) && e.1 in g.formalOut, set s | s in S && AtHome(home, s);
    HomeIsClosed(g, home, P, S, Q, T);
    assert P <= Q;
  }

  lemma HomeIsClosed(g: SDG, home: map<Node, nat>, P: set<Edge>, S: set<Edge>, Q: set<Edge>, T: set<Edge>)
    requires g.Valid() && Intraprocedural(g, home) && Closed(g, P, S)
    requires Q == (set e | e in P && AtHome(home, e) && e.1 in g.formalOut) && T == set s | s in S && AtHome(home, s)
    ensures Closed(g, Q, T)
  {
    hide SDG.Listed, SDG.Sites, SDG.Actual;
    forall e | e in Q ensures Extended(g, Q, T, e) && Mapped(g, T, e) {
      assert Extended(g, P, S, e) && Mapped(g, S, e);
      forall m: Node | Before(g, T, m, e.0) ensures (m, e.1) in Q {
        assert Before(g, S, m, e.0);
        if (m, e.0) in T { assert AtHome(home, (m, e.0)); }
      }
    }
  }

  /** A caller with formal in 1 whose call node 2 controls the entry 3 of the callee; 4 is
      the callee's formal out, and 5 its actual one at call site 7. */
  ghost const CALL: SDG := SDG({1, 2, 3, 4, 5}, map[4 := {3}, 3 := {2}], map[2 := {1}], map[], {4}, {1}, {5},
                               map[1 := 0, 2 := 0, 3 := 1, 4 := 1, 5 := 0], map[1 := map[4 := map[7 := 5]]])

  /** There a path edge joins the caller's formal in to the callee's formal out, and the
      lookup of an actual in fails. */
  lemma LookupFails(P: set<Edge>, S: set<Edge>)
    requires Closed(CALL, P, S)
    ensures CALL.Valid() && !AllFound(CALL, P)
  {
    var g := CALL;
    assert (4, 4) in P;
    assert Extended(g, P, S, (4, 4)) && Before(g, S, 3, 4);
    assert Extended(g, P, S, (3, 4)) && Before(g, S, 2, 3);
    assert Extended(g, P, S, (2, 4)) && Before(g, S, 1, 2);
    assert 7 in g.Sites(4, 4) && 7 !in g.Sites(1, 4);
    assert LooksUp(g, (1, 4)) && !Found(g, (1, 4));
  }
}
