/** Discovery of the loop around a branch, and placement of its transaction. */
module LoopPlacement {
  import opened Digraphs
  import opened PostDominance
  import opened LoopTransactions
  import opened LoopMarks

  ghost predicate BackEdge(g: Digraph, entry: Node, p: Node, h: Node) { g.Edge(p, h) && SDom(g, entry, h, p) }

  /** h dominates b, and no dominator of b that is closer to b has a back edge. */
  ghost predicate Closest(g: Digraph, entry: Node, h: Node, b: Node) {
    Dom(g, entry, h, b) && forall k, p :: SDom(g, entry, h, k) && Dom(g, entry, k, b) ==> !BackEdge(g, entry, p, k)
  }

  class LoopTransformation {
    ghost const g: Digraph
    ghost const entry: Node
    ghost const exit: Node
    const pred: map<Node, seq<Node>>
    const idom: map<Node, Node>
    const ipdom: map<Node, Node>
    /** The slice numbers of blocks and of their last nodes. */
    var blockSlice: map<Node, nat>
    var lastSlice: map<Node, nat>
    /** The blocks at whose end a start and at whose front an end was inserted. */
    var starts: seq<Node>
    var ends: seq<Node>

    ghost function M(): Marks
      reads this
    {
      Marks(blockSlice, lastSlice, starts, ends)
    }

    /** Correct trees, and every block can be reached and reaches the exit. */
    ghost predicate Valid() {
      && CorrectDomTree(g, entry, idom) && CorrectTree(g, exit, ipdom)
      && (forall v :: v in g.succ ==> g.Reaches(entry, v) && g.Reaches(v, exit))
      && pred.Keys == g.succ.Keys && forall u, v :: v in pred ==> (u in pred[v] <==> g.Edge(u, v))
    }

    constructor (ghost g: Digraph, ghost entry: Node, ghost exit: Node, pred: map<Node, seq<Node>>,
                 idom: map<Node, Node>, ipdom: map<Node, Node>)
      requires CorrectDomTree(g, entry, idom) && CorrectTree(g, exit, ipdom)
      requires forall v :: v in g.succ ==> g.Reaches(entry, v) && g.Reaches(v, exit)
      requires pred.Keys == g.succ.Keys && forall u, v :: v in pred ==> (u in pred[v] <==> g.Edge(u, v))
      ensures Valid() && this.g == g && this.entry == entry && this.exit == exit && starts == ends == []
      ensures this.pred == pred && this.idom == idom && this.ipdom == ipdom && blockSlice == lastSlice == map[]
    {
      this.g, this.entry, this.exit, this.pred, this.idom, this.ipdom := g, entry, exit, pred, idom, ipdom;
      blockSlice, lastSlice, starts, ends := map[], map[], [], [];
    }

    function BlockSlice(v: Node): nat
      reads this
    {
      if v in blockSlice then blockSlice[v] else 0
    }

    function LastSlice(v: Node): nat
      reads this
    {
      if v in lastSlice then lastSlice[v] else 0
    }

    ghost function Loop(h: Node, p: Node): set<Node> { set v | v in g.succ && InLoop(g, h, p, v) }

    /** The blocks of the loop of a back edge, collected backwards. */
    method CollectLoopBlks(header: Node, hpred: Node) returns (blks: set<Node>)
      requires Valid() && header != hpred && header in g.succ && hpred in g.succ
      ensures blks == Loop(header, hpred)
    {
      hide CorrectDomTree, CorrectTree, Digraph.Reaches;
      GraphIsValid();
      blks := {header, hpred};
      var stack := [hpred];
      CollectStarts(g, header, hpred);
      while stack != []
        invariant Collected(g, header, hpred, blks, stack)
        decreases g.succ.Keys - blks, |stack|
      {
        var cur := stack[|stack| - 1];
        ghost var blks0, stack0 := blks, stack;
        stack := stack[..|stack| - 1];
        var preds, i := pred[cur], 0;
        while i < |preds|
          invariant i <= |preds| && blks0 <= blks && blks == blks0 + (set v | v in preds[..i])
          invariant forall v :: v in stack <==> v in stack0[..|stack0| - 1] || (v in blks && v !in blks0)
          invariant blks == blks0 ==> stack == stack0[..|stack0| - 1]
        {
          assert preds[..i + 1] == preds[..i] + [preds[i]];
          if preds[i] !in blks {
            stack := stack + [preds[i]];
          }
          blks := blks + {preds[i]};
          i := i + 1;
        }
        assert preds[..i] == preds;
        CollectOn(g, header, hpred, blks0, stack0, blks, stack);
      }
      CollectedAll(g, header, hpred, blks);
    }

    lemma GraphIsValid()
      requires Valid()
      ensures g.Valid()
    {
    }

    /** Whether blk strictly dominates cur0, by climbing the dominator tree. */
    method Dominates(blk: Node, cur0: Node) returns (r: bool)
      requires Valid() && blk in g.succ && cur0 in g.succ
      ensures r <==> SDom(g, entry, blk, cur0)
    {
      hide Valid, Dom, Digraph.Reaches;
      var cur := cur0;
      while cur in idom
        invariant cur in g.succ && (SDom(g, entry, blk, cur0) <==> SDom(g, entry, blk, cur))
        decreases DomsAbove(g, entry, cur)
      {
        ClimbDom(blk, cur);
        if idom[cur] == blk {
          return true;
        }
        cur := idom[cur];
      }
      NothingAbove(blk, cur);
      return false;
    }

    lemma ClimbDom(blk: Node, cur: Node)
      requires Valid() && cur in idom && cur in g.succ
      ensures idom[cur] in g.succ && DomsAbove(g, entry, idom[cur]) < DomsAbove(g, entry, cur)
      ensures SDom(g, entry, idom[cur], cur)
      ensures idom[cur] != blk ==> (SDom(g, entry, blk, cur) <==> SDom(g, entry, blk, idom[cur]))
    {
      FewerDoms(g, entry, idom, cur);
      if SDom(g, entry, blk, idom[cur]) {
        DomTransitive(g, entry, blk, idom[cur], cur);
        if blk == cur { DomAntisymmetric(g, entry, blk, idom[cur]); }
      }
    }

    lemma NothingAbove(blk: Node, cur: Node)
      requires Valid() && cur in g.succ && cur !in idom
      ensures !SDom(g, entry, blk, cur)
    {
      assert cur == entry;
      assert g.PathFromTo([entry], entry, entry);
    }

    /** p is the first predecessor of h with a back edge. */
    ghost predicate FirstBackEdge(h: Node, p: Node)
      reads this
    {
      h in pred && exists i :: IsFirst(h, p, i)
    }

    ghost predicate IsFirst(h: Node, p: Node, i: nat)
      requires h in pred
      reads this
    {
      && i < |pred[h]| && pred[h][i] == p && BackEdge(g, entry, p, h)
      && forall j :: 0 <= j < i ==> !BackEdge(g, entry, pred[h][j], h)
    }

    /** The loop around a branch: the blocks of the first back edge to the closest
        dominator of the branch that has one, if the branch is among them. */
    method GetBrLoopBlocks(brBlk: Node) returns (found: bool, header: Node, blks: set<Node>, ghost latch: Node)
      requires Valid() && brBlk in g.succ
      ensures found ==> FirstBackEdge(header, latch) && Closest(g, entry, header, brBlk)
      ensures found ==> brBlk in blks && blks == Loop(header, latch)
      ensures !found ==> blks == {}
      ensures found || (forall h, p :: Dom(g, entry, h, brBlk) ==> !BackEdge(g, entry, p, h))
        || exists h, p :: Closest(g, entry, h, brBlk) && FirstBackEdge(h, p) && brBlk !in Loop(h, p)
    {
      hide Valid, Dom, Digraph.Reaches, BackEdge;
      found, header, blks, latch := false, 0, {}, 0;
      var blk := brBlk;
      SelfDominates(brBlk);
      while true
        invariant blk in g.succ && !found && blks == {}
        invariant Closest(g, entry, blk, brBlk)
        decreases DomsAbove(g, entry, blk)
      {
        PredsAreNodes(blk);
        var preds, i := pred[blk], 0;
        while i < |preds|
          invariant i <= |preds| && forall j :: 0 <= j < i ==> !BackEdge(g, entry, preds[j], blk)
        {
          var p := preds[i];
          var back := Dominates(blk, p);
          IsBackEdge(blk, i);
          if back {
            assert IsFirst(blk, p, i);
            var sset := CollectLoopBlks(blk, p);
            if brBlk in sset {
              found, header, blks, latch := true, blk, sset, p;
            }
            return;
          }
          i := i + 1;
        }
        NoBackEdge(blk);
        if blk !in idom {
          NoneAbove(brBlk, blk);
          break;
        }
        ClimbDom(blk, blk);
        NextAncestor(brBlk, blk);
        blk := idom[blk];
      }
    }

    lemma SelfDominates(b: Node)
      requires Valid() && b in g.succ
      ensures Dom(g, entry, b, b) && forall h :: SDom(g, entry, b, h) ==> !Dom(g, entry, h, b)
    {
      DomReflexive(g, entry, b);
      forall h | SDom(g, entry, b, h) ensures !Dom(g, entry, h, b) {
        if Dom(g, entry, h, b) { DomAntisymmetric(g, entry, h, b); }
      }
    }

    lemma PredsAreNodes(b: Node)
      requires Valid() && b in g.succ
      ensures b in pred && forall u :: u in pred[b] ==> u in g.succ
    {
      forall u | u in pred[b] ensures u in g.succ { assert g.Edge(u, b); }
    }

    lemma IsBackEdge(b: Node, i: nat)
      requires Valid() && b in pred && i < |pred[b]|
      ensures BackEdge(g, entry, pred[b][i], b) <==> SDom(g, entry, b, pred[b][i])
    {
      assert pred[b][i] in pred[b];
    }

    lemma NoBackEdge(b: Node)
      requires Valid() && b in pred && forall j :: 0 <= j < |pred[b]| ==> !BackEdge(g, entry, pred[b][j], b)
      ensures forall p :: !BackEdge(g, entry, p, b)
    {
      forall p ensures !BackEdge(g, entry, p, b) {
        if g.Edge(p, b) { var j :| 0 <= j < |pred[b]| && pred[b][j] == p; }
      }
    }

    /** A dominator of c that b strictly dominates is b or dominated by it. */
    lemma NextAncestor(c: Node, b: Node)
      requires Valid() && b in idom && b in g.succ && Dom(g, entry, b, c)
      ensures Dom(g, entry, idom[b], c)
      ensures forall h :: SDom(g, entry, idom[b], h) && Dom(g, entry, h, c) ==> h == b || SDom(g, entry, b, h)
    {
      var d := idom[b];
      DomTransitive(g, entry, d, b, c);
      forall h | SDom(g, entry, d, h) && Dom(g, entry, h, c) && h != b ensures SDom(g, entry, b, h) {
        DomTotal(g, entry, h, b, c);
        if Dom(g, entry, h, b) {
          assert Dom(g, entry, h, d);
          DomAntisymmetric(g, entry, h, d);
        }
      }
    }

    lemma NoneAbove(c: Node, b: Node)
      requires Valid() && b in g.succ && b !in idom && Dom(g, entry, b, c)
      ensures forall h :: Dom(g, entry, h, c) ==> h == b || SDom(g, entry, b, h)
    {
      forall h | Dom(g, entry, h, c) && h != b ensures SDom(g, entry, b, h) {
        assert b == entry;
        DomIsReached(g, entry, h, c);
        assert forall p :: g.PathFromTo(p, entry, h) ==> p[0] in p;
      }
    }

    /** End the transaction at the first post-dominator of the pre-header outside the loop. */
    method AddTransactionEndForLoop(preh: Node, loop: set<Node>, sliceId: nat) returns (end: Node)
      requires Valid() && preh in g.succ && preh != exit && exit !in loop
      modifies this`blockSlice, this`ends
      ensures SPDom(g, exit, end, preh) && end !in loop && end in g.succ
      ensures forall z :: SPDom(g, exit, z, preh) && z != end && PDom(g, exit, end, z) ==> z in loop
      ensures forall v :: BlockSlice(v) == if v == end then sliceId else old(BlockSlice(v))
      ensures ends == if old(BlockSlice(end)) != sliceId then old(ends) + [end] else old(ends)
    {
      hide Valid, PDom, Digraph.Reaches;
      PostClimbStarts(preh);
      end := ipdom[preh];
      while end in loop
        invariant blockSlice == old(blockSlice) && ends == old(ends) && (end != exit ==> end in ipdom)
        invariant end in g.succ && SPDom(g, exit, end, preh)
        invariant forall z :: SPDom(g, exit, z, preh) && z != end && PDom(g, exit, end, z) ==> z in loop
        decreases Above(g, exit, end)
      {
        ClimbPost(preh, end);
        end := ipdom[end];
      }
      if BlockSlice(end) != sliceId {
        blockSlice := blockSlice[end := sliceId];
        ends := ends + [end];
      }
    }

    lemma PostClimbStarts(v: Node)
      requires Valid() && v in g.succ && v != exit
      ensures v in ipdom && ipdom[v] in g.succ && SPDom(g, exit, ipdom[v], v)
      ensures ipdom[v] != exit ==> ipdom[v] in ipdom
      ensures forall z :: SPDom(g, exit, z, v) && z != ipdom[v] ==> !PDom(g, exit, ipdom[v], z)
    {
      Parent(g, exit, ipdom, v);
      PDomReaches(g, exit, ipdom[v], v);
      g.ReachesIsNode(ipdom[v], exit);
      forall z | SPDom(g, exit, z, v) && z != ipdom[v] ensures !PDom(g, exit, ipdom[v], z) {
        if PDom(g, exit, ipdom[v], z) { PDomAntisymmetric(g, exit, ipdom[v], z); }
      }
    }

    /** Post-dominators of v below the parent of end are below end, or end. */
    lemma ClimbPost(v: Node, end: Node)
      requires Valid() && v in g.succ && end in g.succ && end != exit && SPDom(g, exit, end, v)
      ensures end in ipdom && ipdom[end] in g.succ && SPDom(g, exit, ipdom[end], v)
      ensures ipdom[end] != exit ==> ipdom[end] in ipdom
      ensures Above(g, exit, ipdom[end]) < Above(g, exit, end)
      ensures forall z :: SPDom(g, exit, z, v) && z != ipdom[end] && PDom(g, exit, ipdom[end], z) ==>
        z == end || PDom(g, exit, end, z)
    {
      PostClimbStarts(end);
      FewerAbove(g, exit, ipdom, end);
      var d := ipdom[end];
      PDomTransitive(g, exit, d, end, v);
      if d == v { PDomAntisymmetric(g, exit, end, v); }
      forall z | SPDom(g, exit, z, v) && z != d && PDom(g, exit, d, z) && z != end ensures PDom(g, exit, end, z) {
        PDomTotal(g, exit, z, end, v);
      }
    }

    /** Wrap a loop into a transaction, unless one was started behind its pre-header. */
    method PlaceTransForLoop(header: Node, latch: Node, loop: set<Node>, sliceId: nat, nothingToLoad: bool)
      returns (placed: bool, ghost end: Node)
      requires Valid() && BackEdge(g, entry, latch, header) && loop == Loop(header, latch) && header in idom
      modifies this`lastSlice, this`blockSlice, this`starts, this`ends
      ensures placed <==> old(LastSlice(idom[header])) != STARTED && !nothingToLoad
      ensures placed ==> Placed(g, entry, exit, idom, header, latch, idom[header], end)
      ensures placed ==> SPDom(g, exit, end, idom[header]) && end !in loop && end in g.succ
      ensures placed ==> forall z :: SPDom(g, exit, z, idom[header]) && z != end && PDom(g, exit, end, z) ==> z in loop
      ensures Step(old(M()), Request(idom[header], sliceId, nothingToLoad), end, M())
    {
      hide Dom, Digraph.Reaches, PDom, InLoop;
      var start := idom[header];
      PreHeader(header, latch);
      placed, end := false, 0;
      ghost var m := M();
      assert forall v :: m.Last(v) == LastSlice(v) && m.Block(v) == BlockSlice(v);
      if LastSlice(start) != STARTED && !nothingToLoad {
        lastSlice := lastSlice[start := STARTED];
        starts := starts + [start];
        var e := AddTransactionEndForLoop(start, loop, sliceId);
        placed, end := true, e;
        assert forall v :: M().Last(v) == LastSlice(v) && M().Block(v) == BlockSlice(v);
      }
    }

    lemma PreHeader(header: Node, latch: Node)
      requires Valid() && BackEdge(g, entry, latch, header) && header in idom
      ensures idom[header] in g.succ && idom[header] != exit && exit !in Loop(header, latch)
    {
      hide CorrectTree;
      ExitIsLast();
      var start := idom[header];
      DomIsReached(g, entry, start, header);
      g.ReachesIsNode(entry, start);
      var t := g.PathOf(entry, header);
      var i :| 0 <= i < |t| && t[i] == start;
      assert g.Edge(t[i], t[i + 1]);
      HeaderGoesOn(header, latch);
      ExitOutside(header, latch);
    }

    /** The header dominates the latch, so that it has a successor. */
    lemma HeaderGoesOn(header: Node, latch: Node)
      requires Valid() && BackEdge(g, entry, latch, header)
      ensures header in g.succ && g.succ[header] != []
    {
      DomIsReached(g, entry, header, latch);
      g.ReachesIsNode(entry, header);
      var t := g.PathOf(entry, latch);
      var i :| 0 <= i < |t| && t[i] == header;
      assert g.Edge(t[i], t[i + 1]);
    }

    lemma ExitIsLast()
      requires Valid()
      ensures g.Valid() && exit in g.succ && g.succ[exit] == []
    {
    }

    lemma ExitOutside(header: Node, latch: Node)
      requires Valid() && g.Edge(latch, header) && header in g.succ && g.succ[header] != []
      ensures exit !in Loop(header, latch)
    {
      ExitIsLast();
      NotInLoop(g, header, latch, exit);
    }
  }

  /** A block without successors is in no loop. */
  lemma NotInLoop(g: Digraph, h: Node, p: Node, v: Node)
    requires g.Valid() && g.Edge(p, h) && v in g.succ && g.succ[v] == [] && g.succ[h] != []
    ensures !InLoop(g, h, p, v)
  {
    if Around(g, h, v, p) {
      var q :| g.PathFromTo(q, v, p) && h !in q;
      LeavesOnlyWithSuccessors(g, q);
    }
  }

  lemma LeavesOnlyWithSuccessors(g: Digraph, q: seq<Node>)
    requires g.Path(q)
    ensures forall i :: 0 <= i < |q| - 1 ==> q[i] in g.succ && g.succ[q[i]] != []
  {
    forall i | 0 <= i < |q| - 1 ensures q[i] in g.succ && g.succ[q[i]] != [] { assert g.Edge(q[i], q[i + 1]); }
  }

  // ---- the blocks of a loop, collected backwards

  ghost predicate Collected(g: Digraph, h: Node, p: Node, blks: set<Node>, stack: seq<Node>) {
    && h in blks && p in blks && (forall v :: v in blks ==> v in g.succ && InLoop(g, h, p, v))
    && (forall v :: v in stack ==> v in blks && v != h)
    && (forall u, v :: v in blks && v != h && v !in stack && g.Edge(u, v) ==> u in blks)
  }

  lemma CollectStarts(g: Digraph, h: Node, p: Node)
    requires h != p && h in g.succ && p in g.succ
    ensures Collected(g, h, p, {h, p}, [p])
  {
    assert g.PathFromTo([p], p, p);
  }

  lemma CollectOn(g: Digraph, h: Node, p: Node, blks: set<Node>, stack: seq<Node>, blks': set<Node>, stack': seq<Node>)
    requires Collected(g, h, p, blks, stack) && stack != [] && blks <= blks'
    requires forall u :: u in blks' <==> u in blks || g.Edge(u, stack[|stack| - 1])
    requires forall v :: v in stack' <==> v in stack[..|stack| - 1] || (v in blks' && v !in blks)
    ensures Collected(g, h, p, blks', stack')
  {
    var cur := stack[|stack| - 1];
    assert stack == stack[..|stack| - 1] + [cur];
    forall u | g.Edge(u, cur) && u !in blks ensures InLoop(g, h, p, u) { AroundStep(g, h, u, cur, p); }
    hide InLoop;
    forall v | v in stack' ensures v in blks' && v != h { assert v in stack[..|stack| - 1] ==> v in stack; }
    forall u, v | v in blks' && v != h && v !in stack' && g.Edge(u, v) ensures u in blks' {
      assert v in blks;
      assert v == cur || v !in stack;
    }
  }

  lemma {:induction false} CollectedPath(g: Digraph, h: Node, p: Node, blks: set<Node>, q: seq<Node>, v: Node)
    requires g.Valid() && Collected(g, h, p, blks, []) && g.PathFromTo(q, v, p) && h !in q
    ensures v in blks
    decreases |q|
  {
    if |q| > 1 {
      g.PathTail(q);
      CollectedPath(g, h, p, blks, q[1..], q[1]);
      assert g.Edge(q[0], q[0 + 1]);
    }
  }

  lemma CollectedAll(g: Digraph, h: Node, p: Node, blks: set<Node>)
    requires g.Valid() && Collected(g, h, p, blks, [])
    ensures forall v :: v in blks <==> v in g.succ && InLoop(g, h, p, v)
  {
    forall v | v in g.succ && InLoop(g, h, p, v) ensures v in blks {
      if v != h {
        var q :| g.PathFromTo(q, v, p) && h !in q;
        CollectedPath(g, h, p, blks, q, v);
      }
    }
  }

  // ---- the dominator tree

  ghost function DomsAbove(g: Digraph, entry: Node, s: Node): set<Node> { set z | z in g.succ && SDom(g, entry, z, s) }

  lemma DomIsReached(g: Digraph, entry: Node, x: Node, y: Node)
    requires Dom(g, entry, x, y)
    ensures g.Reaches(entry, x)
  {
    var p := g.PathOf(entry, y);
    var i :| 0 <= i < |p| && p[i] == x;
    Prefix(g, p, entry, y, i);
  }

  lemma FewerDoms(g: Digraph, entry: Node, idom: map<Node, Node>, s: Node)
    requires CorrectDomTree(g, entry, idom) && s in idom
    ensures idom[s] in g.succ && SDom(g, entry, idom[s], s) && DomsAbove(g, entry, idom[s]) < DomsAbove(g, entry, s)
  {
    var d := idom[s];
    assert SDom(g, entry, d, s);
    DomIsReached(g, entry, d, s);
    g.ReachesIsNode(entry, d);
    hide CorrectDomTree, Dom, Digraph.Reaches;
    forall z | z in DomsAbove(g, entry, d) ensures z in DomsAbove(g, entry, s) {
      DomTransitive(g, entry, z, d, s);
      if z == s { DomAntisymmetric(g, entry, z, d); }
    }
    assert d in DomsAbove(g, entry, s) && d !in DomsAbove(g, entry, d);
  }

  /** The dominators of a block form a chain. */
  lemma DomTotal(g: Digraph, entry: Node, a: Node, b: Node, s: Node)
    requires g.Valid() && Dom(g, entry, a, s) && Dom(g, entry, b, s)
    ensures Dom(g, entry, a, b) || Dom(g, entry, b, a)
  {
    DomIsReached(g, entry, a, s);
    DomIsReached(g, entry, b, s);
    if !Dom(g, entry, a, b) && !Dom(g, entry, b, a) {
      var pa :| g.PathFromTo(pa, entry, a) && b !in pa;
      var pb :| g.PathFromTo(pb, entry, b) && a !in pb;
      var p := g.PathOf(entry, s);
      DomBypass(g, entry, a, b, s, p, pa, pb);
    }
  }

  lemma DomBypass(g: Digraph, entry: Node, a: Node, b: Node, s: Node, p: seq<Node>, pa: seq<Node>, pb: seq<Node>)
    requires g.Valid() && g.PathFromTo(p, entry, s) && a in p && b in p && a != b
    requires g.PathFromTo(pa, entry, a) && b !in pa && g.PathFromTo(pb, entry, b) && a !in pb
    ensures !(Dom(g, entry, a, s) && Dom(g, entry, b, s))
  {
    var i := LastOf(p, a);
    var j := LastOf(p, b);
    var k := if i < j then j else i;
    Suffix(g, p, entry, s, k);
    var r := Join(g, if i < j then pb else pa, entry, p[k], p[k..], s);
    assert forall x :: x in p[k..] ==> x == p[k] || x in p[k + 1..];
    assert i < j ==> p[j + 1..] == p[i + 1..][j - i..];
    assert j < i ==> p[i + 1..] == p[j + 1..][i - j..];
    assert (if i < j then a else b) !in r;
  }
}
