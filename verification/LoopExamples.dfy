/** Loops whose transactions do not do what they are placed for. */
module LoopExamples {
  import opened Digraphs
  import opened PostDominance
  import opened LoopTransactions
  import opened LoopMarks
  import opened LoopPlacement

  // ---- dominators by cuts

  /** Edges leave S only to x. */
  ghost predicate Cut(g: Digraph, S: set<Node>, x: Node) { forall u, v :: u in S && g.Edge(u, v) ==> v in S || v == x }

  lemma CutIsPassed(g: Digraph, S: set<Node>, x: Node, p: seq<Node>, u: Node, v: Node)
    requires Cut(g, S, x) && g.PathFromTo(p, u, v) && (u in S || u == x) && v !in S
    ensures x in p
  {
    var i := 0;
    while i < |p| - 1 && p[i] in S
      invariant i < |p| && (p[i] in S || p[i] == x)
    {
      assert g.Edge(p[i], p[i + 1]);
      i := i + 1;
    }
  }

  lemma DomByCut(g: Digraph, entry: Node, S: set<Node>, x: Node, y: Node)
    requires Cut(g, S, x) && g.Reaches(entry, y) && (entry in S || entry == x) && y !in S && x != y
    ensures SDom(g, entry, x, y)
  {
    hide Cut;
    forall p | g.PathFromTo(p, entry, y) ensures x in p { CutIsPassed(g, S, x, p, entry, y); }
  }

  lemma PDomByCut(g: Digraph, exit: Node, S: set<Node>, x: Node, y: Node)
    requires Cut(g, S, x) && g.Reaches(y, exit) && (y in S || y == x) && exit !in S && x != y
    ensures SPDom(g, exit, x, y)
  {
    hide Cut;
    forall p | g.PathFromTo(p, y, exit) ensures x in p { CutIsPassed(g, S, x, p, y, exit); }
  }

  lemma ReachesEdge(g: Digraph, u: Node, v: Node, w: Node)
    requires g.Reaches(u, v) && g.Edge(v, w)
    ensures g.Reaches(u, w)
  {
    hide Digraph.Reaches;
    g.ReachesStep(v, w);
    g.ReachesTransitive(u, v, w);
  }

  lemma EdgeReaches(g: Digraph, u: Node, v: Node, w: Node)
    requires g.Edge(u, v) && g.Reaches(v, w)
    ensures g.Reaches(u, w)
  {
    hide Digraph.Reaches;
    g.ReachesStep(u, v);
    g.ReachesTransitive(u, v, w);
  }

  ghost predicate DomEdge(g: Digraph, entry: Node, x: Node, y: Node) {
    g.Edge(x, y) && g.Reaches(entry, y) && SDom(g, entry, x, y)
  }

  /** A strict dominator that is a predecessor is the closest one. */
  lemma DomTree(g: Digraph, entry: Node, idom: map<Node, Node>)
    requires g.Valid() && entry in g.succ && idom.Keys == g.succ.Keys - {entry}
    requires forall y :: y in idom ==> DomEdge(g, entry, idom[y], y)
    ensures CorrectDomTree(g, entry, idom)
  {
    hide Digraph.Valid;
    forall y, z, p | y in idom && SDom(g, entry, z, y) && g.PathFromTo(p, entry, idom[y]) ensures z in p {
      var q := Join(g, p, entry, idom[y], [idom[y], y], y);
      assert z in q;
    }
    forall y | y in idom ensures g.Reaches(entry, idom[y]) { DomIsReached(g, entry, idom[y], y); }
    forall y | g.Reaches(entry, y) ensures y in g.succ { g.ReachesIsNode(entry, y); }
  }

  ghost predicate PDomEdge(g: Digraph, exit: Node, x: Node, y: Node) {
    g.Edge(y, x) && g.Reaches(y, exit) && SPDom(g, exit, x, y)
  }

  lemma PDomTree(g: Digraph, exit: Node, ipdom: map<Node, Node>)
    requires g.Valid() && exit in g.succ && g.succ[exit] == [] && ipdom.Keys == g.succ.Keys - {exit}
    requires forall y :: y in ipdom ==> PDomEdge(g, exit, ipdom[y], y)
    ensures CorrectTree(g, exit, ipdom)
  {
    hide Digraph.Valid;
    forall y, z, p | y in ipdom && SPDom(g, exit, z, y) && g.PathFromTo(p, ipdom[y], exit) ensures z in p {
      var q := Join(g, [y, ipdom[y]], y, ipdom[y], p, exit);
      assert z in q;
    }
    forall y | y in ipdom ensures g.Reaches(ipdom[y], exit) { PDomReaches(g, exit, ipdom[y], y); }
    forall y | g.Reaches(y, exit) ensures y in g.succ { g.ReachesIsNode(y, exit); }
  }

  lemma LastStep(g: Digraph, q: seq<Node>, v: Node, p: Node)
    requires g.PathFromTo(q, v, p)
    ensures v == p || exists u :: u in q && g.Edge(u, p)
  {
    if |q| > 1 { assert g.Edge(q[|q| - 2], q[|q| - 2 + 1]); }
  }

  /** A loop whose latch can only be reached from the header. */
  lemma TwoBlocks(g: Digraph, h: Node, p: Node)
    requires p in g.succ && h != p && forall u :: g.Edge(u, p) ==> u == h
    ensures forall v :: InLoop(g, h, p, v) <==> v == h || v == p
  {
    forall v, q | g.PathFromTo(q, v, p) && h !in q ensures v == p { LastStep(g, q, v, p); }
    assert g.PathFromTo([p], p, p);
  }

  // ---- an end that leads around the start

  /** 1 starts the transaction of the loop 2, 3; it ends before 4, which goes back to 2 or
      to the exit 5. */
  const REOPENED: Digraph := Digraph(map[1 := [2], 2 := [3, 4], 3 := [2], 4 := [2, 5], 5 := []])
  const REOPENED_IDOM: map<Node, Node> := map[2 := 1, 3 := 2, 4 := 2, 5 := 4]
  const REOPENED_IPDOM: map<Node, Node> := map[1 := 2, 2 := 4, 3 := 2, 4 := 5]
  const REOPENED_PRED: map<Node, seq<Node>> := map[1 := [], 2 := [1, 3, 4], 3 := [2], 4 := [2], 5 := [4]]

  ghost predicate IsReopened(g: Digraph) {
    && g.Valid() && g.succ.Keys == {1, 2, 3, 4, 5} && g.succ[5] == []
    && forall u, v :: g.Edge(u, v) <==> (u, v) in {(1, 2), (2, 3), (2, 4), (3, 2), (4, 2), (4, 5)}
  }

  lemma ReopenedEdges(g: Digraph)
    requires g == REOPENED
    ensures IsReopened(g) && forall u, v :: v in REOPENED_PRED ==> (u in REOPENED_PRED[v] <==> g.Edge(u, v))
  {
    assert g.succ[2][1] == 4 && g.succ[4][1] == 5;
    assert REOPENED_PRED[2][1] == 3 && REOPENED_PRED[2][2] == 4;
  }

  lemma ReopenedReaches(g: Digraph)
    requires IsReopened(g)
    ensures forall v :: v in g.succ ==> g.Reaches(1, v) && g.Reaches(v, 5)
  {
    hide Digraph.Reaches, Digraph.Valid;
    g.ReachesSelf(1);
    ReachesEdge(g, 1, 1, 2);
    ReachesEdge(g, 1, 2, 3);
    ReachesEdge(g, 1, 2, 4);
    ReachesEdge(g, 1, 4, 5);
    g.ReachesSelf(5);
    EdgeReaches(g, 4, 5, 5);
    EdgeReaches(g, 2, 4, 5);
    EdgeReaches(g, 3, 2, 5);
    EdgeReaches(g, 1, 2, 5);
  }

  lemma ReopenedTrees(g: Digraph)
    requires IsReopened(g)
    ensures CorrectDomTree(g, 1, REOPENED_IDOM) && CorrectTree(g, 5, REOPENED_IPDOM)
    ensures SPDom(g, 5, 4, 1) && SPDom(g, 5, 5, 4) && SDom(g, 1, 2, 3)
  {
    hide Digraph.Reaches, Digraph.Valid, Dom, PDom, CorrectDomTree, CorrectTree;
    ReopenedReaches(g);
    DomByCut(g, 1, {}, 1, 2);
    DomByCut(g, 1, {1}, 2, 3);
    DomByCut(g, 1, {1}, 2, 4);
    DomByCut(g, 1, {1, 2, 3}, 4, 5);
    DomTree(g, 1, REOPENED_IDOM);
    PDomByCut(g, 5, {1}, 2, 1);
    PDomByCut(g, 5, {2, 3}, 4, 2);
    PDomByCut(g, 5, {3}, 2, 3);
    PDomByCut(g, 5, {4, 1, 2, 3}, 5, 4);
    PDomByCut(g, 5, {1, 2, 3}, 4, 1);
    PDomTree(g, 5, REOPENED_IPDOM);
  }

  lemma ReopenedLoop(g: Digraph, loop: set<Node>)
    requires IsReopened(g) && forall v :: v in loop <==> v in g.succ && InLoop(g, 2, 3, v)
    ensures loop == {2, 3}
  {
    hide InLoop;
    TwoBlocks(g, 2, 3);
  }

  method NewReopened() returns (t: LoopTransformation)
    ensures fresh(t) && t.Valid() && t.g == REOPENED && t.entry == 1 && t.exit == 5 && t.idom == REOPENED_IDOM
    ensures t.starts == t.ends == [] && t.blockSlice == t.lastSlice == map[] && t.Loop(2, 3) == {2, 3}
  {
    hide CorrectDomTree, CorrectTree, Digraph.Reaches, Digraph.Valid, Dom, PDom, InLoop, LoopTransformation.Valid;
    ReopenedEdges(REOPENED);
    ReopenedReaches(REOPENED);
    ReopenedTrees(REOPENED);
    t := new LoopTransformation(REOPENED, 1, 5, REOPENED_PRED, REOPENED_IDOM, REOPENED_IPDOM);
    ReopenedLoop(REOPENED, t.Loop(2, 3));
  }

  /** The transaction is placed, and closed when the loop is entered again from 4. */
  method PlaceReopened() returns (placed: bool, starts: seq<Node>, ends: seq<Node>)
    ensures placed && starts == [1] && ends == [4]
    ensures !AlwaysOpen(REOPENED, 1, 2, 3, 1, 4)
  {
    hide CorrectDomTree, CorrectTree, Digraph.Reaches, Dom, PDom, InLoop, Placed, AlwaysOpen, LoopTransformation.Valid;
    ReopenedEdges(REOPENED);
    ReopenedTrees(REOPENED);
    var t := NewReopened();
    ghost var end;
    placed, end := t.PlaceTransForLoop(2, 3, {2, 3}, 1, false);
    FirstOutside(REOPENED, end);
    ReopenedAround(REOPENED);
    OpenIff(REOPENED, 1, 5, REOPENED_IDOM, 2, 3, 1, 4);
    starts, ends := t.starts, t.ends;
  }

  lemma FirstOutside(g: Digraph, end: Node)
    requires IsReopened(g) && SPDom(g, 5, 4, 1) && SPDom(g, 5, 5, 4)
    requires SPDom(g, 5, end, 1) && end !in {2, 3} && end in g.succ
    requires forall z :: SPDom(g, 5, z, 1) && z != end && PDom(g, 5, end, z) ==> z in {2, 3}
    ensures end == 4
  {
    hide PDom;
  }

  lemma ReopenedAround(g: Digraph)
    requires IsReopened(g)
    ensures Around(g, 1, 4, 2)
  {
    assert g.PathFromTo([4, 2], 4, 2);
  }

  /** The end is not inserted when its block already bears the slice number. */
  method PlaceWithoutEnd(sliceId: nat) returns (placed: bool, starts: seq<Node>, ends: seq<Node>)
    ensures placed && starts == [1] && ends == []
  {
    hide CorrectDomTree, CorrectTree, Digraph.Reaches, Dom, PDom, InLoop, Placed, LoopTransformation.Valid;
    ReopenedEdges(REOPENED);
    ReopenedTrees(REOPENED);
    var t := NewReopened();
    t.blockSlice := map[4 := sliceId];
    ghost var end;
    placed, end := t.PlaceTransForLoop(2, 3, {2, 3}, sliceId, false);
    FirstOutside(REOPENED, end);
    starts, ends := t.starts, t.ends;
  }

  // ---- two loops with one pre-header

  /** 1 goes to the loop 2, 3, which leads to the loop 4, 5, or to that at once. */
  const SHARED: Digraph := Digraph(map[1 := [2, 4], 2 := [3], 3 := [2, 4], 4 := [5], 5 := [4, 6], 6 := []])
  const SHARED_IDOM: map<Node, Node> := map[2 := 1, 3 := 2, 4 := 1, 5 := 4, 6 := 5]
  const SHARED_IPDOM: map<Node, Node> := map[1 := 4, 2 := 3, 3 := 4, 4 := 5, 5 := 6]
  const SHARED_PRED: map<Node, seq<Node>> := map[1 := [], 2 := [1, 3], 3 := [2], 4 := [1, 3, 5], 5 := [4], 6 := [5]]

  ghost predicate IsShared(g: Digraph) {
    && g.Valid() && g.succ.Keys == {1, 2, 3, 4, 5, 6} && g.succ[6] == []
    && forall u, v :: g.Edge(u, v) <==> (u, v) in {(1, 2), (1, 4), (2, 3), (3, 2), (3, 4), (4, 5), (5, 4), (5, 6)}
  }

  lemma SharedEdges(g: Digraph)
    requires g == SHARED
    ensures IsShared(g) && forall u, v :: v in SHARED_PRED ==> (u in SHARED_PRED[v] <==> g.Edge(u, v))
  {
    assert g.succ[1][1] == 4 && g.succ[3][1] == 4 && g.succ[5][1] == 6;
    assert SHARED_PRED[2][1] == 3 && SHARED_PRED[4][1] == 3 && SHARED_PRED[4][2] == 5;
  }

  lemma SharedReaches(g: Digraph)
    requires IsShared(g)
    ensures forall v :: v in g.succ ==> g.Reaches(1, v) && g.Reaches(v, 6)
  {
    hide Digraph.Reaches, Digraph.Valid;
    g.ReachesSelf(1);
    ReachesEdge(g, 1, 1, 2);
    ReachesEdge(g, 1, 2, 3);
    ReachesEdge(g, 1, 1, 4);
    ReachesEdge(g, 1, 4, 5);
    ReachesEdge(g, 1, 5, 6);
    g.ReachesSelf(6);
    EdgeReaches(g, 5, 6, 6);
    EdgeReaches(g, 4, 5, 6);
    EdgeReaches(g, 3, 4, 6);
    EdgeReaches(g, 2, 3, 6);
    EdgeReaches(g, 1, 4, 6);
  }

  lemma SharedDomTree(g: Digraph)
    requires IsShared(g)
    ensures CorrectDomTree(g, 1, SHARED_IDOM) && SDom(g, 1, 2, 3) && SDom(g, 1, 4, 5)
  {
    hide Digraph.Reaches, Digraph.Valid, Dom, CorrectDomTree;
    SharedReaches(g);
    DomByCut(g, 1, {}, 1, 2);
    DomByCut(g, 1, {1, 4, 5, 6}, 2, 3);
    DomByCut(g, 1, {}, 1, 4);
    DomByCut(g, 1, {1, 2, 3}, 4, 5);
    DomByCut(g, 1, {1, 2, 3, 4}, 5, 6);
    DomTree(g, 1, SHARED_IDOM);
  }

  lemma SharedPDomTree(g: Digraph)
    requires IsShared(g)
    ensures CorrectTree(g, 6, SHARED_IPDOM)
    ensures SPDom(g, 6, 4, 1) && SPDom(g, 6, 5, 4) && SPDom(g, 6, 6, 4)
  {
    hide Digraph.Reaches, Digraph.Valid, PDom, CorrectTree;
    SharedReaches(g);
    PDomByCut(g, 6, {1, 2, 3}, 4, 1);
    PDomByCut(g, 6, {2}, 3, 2);
    PDomByCut(g, 6, {2, 3}, 4, 3);
    PDomByCut(g, 6, {4}, 5, 4);
    PDomByCut(g, 6, {4, 5}, 6, 4);
    PDomByCut(g, 6, {4, 5}, 6, 5);
    PDomTree(g, 6, SHARED_IPDOM);
  }

  lemma SharedLoops(g: Digraph, first: set<Node>, second: set<Node>)
    requires IsShared(g) && forall v :: v in first <==> v in g.succ && InLoop(g, 2, 3, v)
    requires forall v :: v in second <==> v in g.succ && InLoop(g, 4, 5, v)
    ensures first == {2, 3} && second == {4, 5}
  {
    hide InLoop;
    TwoBlocks(g, 2, 3);
    TwoBlocks(g, 4, 5);
  }

  method NewShared() returns (t: LoopTransformation)
    ensures fresh(t) && t.Valid() && t.g == SHARED && t.entry == 1 && t.exit == 6 && t.idom == SHARED_IDOM
    ensures t.starts == t.ends == [] && t.blockSlice == t.lastSlice == map[]
    ensures t.Loop(2, 3) == {2, 3} && t.Loop(4, 5) == {4, 5}
  {
    hide CorrectDomTree, CorrectTree, Digraph.Reaches, Digraph.Valid, Dom, PDom, InLoop, LoopTransformation.Valid;
    SharedEdges(SHARED);
    SharedReaches(SHARED);
    SharedDomTree(SHARED);
    SharedPDomTree(SHARED);
    t := new LoopTransformation(SHARED, 1, 6, SHARED_PRED, SHARED_IDOM, SHARED_IPDOM);
    SharedLoops(SHARED, t.Loop(2, 3), t.Loop(4, 5));
  }

  /** The second loop is skipped, and the transaction of the first one ends at its header;
      the first loop is skipped when it is to be wrapped again. */
  method PlaceShared() returns (first: bool, second: bool, again: bool, starts: seq<Node>, ends: seq<Node>)
    ensures first && !second && !again && starts == [1] && ends == [4]
    ensures InLoop(SHARED, 4, 5, 4) && !AlwaysOpen(SHARED, 1, 4, 5, 1, 4)
  {
    hide CorrectDomTree, CorrectTree, Digraph.Reaches, Dom, PDom, Around, Placed, AlwaysOpen, LoopTransformation.Valid;
    SharedEdges(SHARED);
    SharedDomTree(SHARED);
    SharedPDomTree(SHARED);
    var t := NewShared();
    ghost var end, none;
    first, end := t.PlaceTransForLoop(2, 3, {2, 3}, 1, false);
    SharedFirstOutside(SHARED, end);
    second, none := t.PlaceTransForLoop(4, 5, {4, 5}, 2, false);
    again, none := t.PlaceTransForLoop(2, 3, {2, 3}, 1, false);
    SharedNotOpen(SHARED);
    starts, ends := t.starts, t.ends;
  }

  lemma SharedFirstOutside(g: Digraph, end: Node)
    requires IsShared(g) && SPDom(g, 6, 4, 1) && SPDom(g, 6, 5, 4) && SPDom(g, 6, 6, 4)
    requires SPDom(g, 6, end, 1) && end !in {2, 3} && end in g.succ
    requires forall z :: SPDom(g, 6, z, 1) && z != end && PDom(g, 6, end, z) ==> z in {2, 3}
    ensures end == 4
  {
    hide PDom;
  }

  lemma SharedNotOpen(g: Digraph)
    requires IsShared(g)
    ensures !AlwaysOpen(g, 1, 4, 5, 1, 4)
  {
    var q := [1, 4];
    assert g.Path(q) && q[1] == 4 && InLoop(g, 4, 5, q[1]);
    assert !Open(q, 1, 1, 4) by { assert q[1..2][0] == 4; }
  }
}
