/** The phi graph that the construction leaves behind, and why following it
    gives exactly the reaching definitions. */
module MemorySSACorrectness {
  import opened DisjunctiveIntervals
  import opened MemoryDefinitions
  import opened ReachingDefinitions
  import opened MemorySSAState
  import opened MemorySSALemmas
  import opened MemorySSAUses

  /** From c[0], over the operands of phi nodes, to the node n that is none. */
  ghost predicate Chain(s: State, c: seq<Node>, n: Node) {
    && c != [] && c[|c| - 1] == n && n in s.nodes && !s.nodes[n].IsPhi()
    && (forall i :: 0 <= i < |c| - 1 ==> IsPhiNode(s, c[i]) && c[i] in s.defuse && c[i + 1] in s.defuse[c[i]])
  }

  /** n is found from the nodes R by replacing phi nodes by their operands. */
  ghost predicate Gathers(s: State, R: set<Node>, n: Node) {
    exists c :: Chain(s, c, n) && c[0] in R
  }

  lemma GathersThrough(s: State, R: set<Node>, f: Node, n: Node)
    requires f in R && IsPhiNode(s, f) && f in s.defuse && Gathers(s, s.defuse[f], n)
    ensures Gathers(s, R, n)
  {
    var c :| Chain(s, c, n) && c[0] in s.defuse[f];
    assert Chain(s, [f] + c, n);
  }

  ghost predicate Complete(s: State) {
    && Shape(s) && s.prog.EqualOrDisjoint()
    && (forall f :: f in s.nodes && f !in s.prog.nodes ==> PhiClosed(s, f))
    && (forall b, i :: b in s.prog.code && 0 <= i < |s.prog.code[b]| && s.prog.code[b][i] in s.defuse ==>
          UseRight(s, s.defuse[s.prog.code[b][i]], s.prog.code[b][i], b, i))
  }

  lemma InvComplete(s: State)
    requires Inv(s, {}) && s.prog.EqualOrDisjoint()
    ensures Complete(s)
  {
    hide Shape, CellState, PhiClosed, UseRight, InfoNodes;
  }

  lemma CompleteIsMerged(s: State)
    requires Complete(s)
    ensures Merged(s)
  {
    hide BlockShape, UseRight, Covers, Justified, Static;
  }

  lemma PhiOperands(s: State, f: Node, b: Block, l: Loc, i: nat)
    requires Merged(s) && PhiAt(s, f, b, l) && b in s.prog.preds && i < |s.prog.preds[b]|
    ensures Static(s) && s.prog.preds[b][i] in s.prog.preds && f in s.defuse
    ensures Covers(s, s.defuse[f], s.prog.preds[b][i], l)
  {
    PhiIsNew(s, f);
    hide BlockShape, UseRight, Covers;
  }

  /** Whatever reaches the end of b along a path is found. */
  lemma {:induction false} PathsAreCovered(s: State, R: set<Node>, n: Node, p: seq<Block>, b: Block, l: Loc)
    requires Merged(s) && Static(s) && b in s.prog.preds && s.prog.ReachesEnd(n, p, l) && p[|p| - 1] == b
    requires Covers(s, R, b, l)
    ensures Gathers(s, R, n)
    decreases |p|, 0
  {
    if |p| == 1 {
      WritersAreCovered(s, R, n, b, l, s.prog.code[b]);
    } else {
      hide Merged, Static;
      var q := p[..|p| - 1];
      ReachesPrefix(s.prog, n, p, l);
      PathsReachEntry(s, R, n, q, b, l);
    }
  }

  lemma {:induction false} PathsReachEntry(s: State, R: set<Node>, n: Node, q: seq<Block>, b: Block, l: Loc)
    requires Merged(s) && Static(s) && b in s.prog.preds && s.prog.ReachesEnd(n, q, l)
    requires q[|q| - 1] in s.prog.preds[b]
    requires CoversEntry(s, R, b, l)
    ensures Gathers(s, R, n)
    decreases |q|, 1
  {
    hide Merged;
    var c := q[|q| - 1];
    var i :| 0 <= i < |s.prog.preds[b]| && s.prog.preds[b][i] == c;
    if |s.prog.preds[b]| == 1 {
      PathsAreCovered(s, R, n, q, c, l);
    } else {
      var f :| f in R && PhiAt(s, f, b, l);
      PhiOperands(s, f, b, l, i);
      PathsAreCovered(s, s.defuse[f], n, q, c, l);
      GathersThrough(s, R, f, n);
    }
  }

  lemma ReachesPrefix(prog: Program, n: Node, p: seq<Block>, l: Loc)
    requires prog.Valid() && prog.ReachesEnd(n, p, l) && |p| > 1
    ensures prog.ReachesEnd(n, p[..|p| - 1], l)
    ensures p[|p| - 2] in prog.preds[p[|p| - 1]] && !Kills(prog.nodes, prog.code[p[|p| - 1]], l)
  {
    hide Kills, LastWrite;
  }

  lemma WritersAreCovered(s: State, R: set<Node>, n: Node, b: Block, l: Loc, ns: seq<Node>)
    requires Shape(s) && DefsAfter(s.prog.nodes, ns, l) <= R
    requires exists i: nat :: LastWrite(s.prog.nodes, ns, i, l) && ns[i] == n
    ensures Gathers(s, R, n)
  {
    DefsAfterAreLastWrites(s.prog.nodes, ns, l, n);
    hide BlockShape, PhiShape, DefsAfter;
    assert n in s.prog.nodes;
    assert Chain(s, [n], n);
  }

  lemma ReachesExtend(prog: Program, n: Node, p: seq<Block>, b: Block, l: Loc)
    requires prog.Valid() && prog.ReachesEnd(n, p, l) && b in prog.preds && p[|p| - 1] in prog.preds[b]
    requires !Kills(prog.nodes, prog.code[b], l)
    ensures prog.ReachesEnd(n, p + [b], l) && (p + [b])[|p + [b]| - 1] == b
  {
    hide Kills, LastWrite;
    var q := p + [b];
    forall i | 0 <= i < |q| - 1 ensures q[i] in prog.preds[q[i + 1]] {
      if i < |p| - 1 { assert q[i] == p[i] && q[i + 1] == p[i + 1]; }
    }
    forall k | 1 <= k < |q| && q[k] in prog.code ensures !Kills(prog.nodes, prog.code[q[k]], l) {
      if k < |p| { assert q[k] == p[k]; }
    }
    assert q[0] == p[0];
  }

  lemma ReachesHere(s: State, n: Node, b: Block, l: Loc)
    requires Shape(s) && b in s.prog.preds && n in DefsAfter(s.prog.nodes, s.prog.code[b], l)
    ensures n in s.prog.nodes && s.prog.ReachesEnd(n, [b], l)
  {
    hide Shape, Static, DefsAfter, LastWrite, Kills;
    ShapeFacts(s);
    var code := s.prog.code[b];
    assert code[..|code|] == code;
    var i := FrontWrite(s, b, |code|, l, n);
    assert s.prog.Path([b]);
  }

  /** Whatever is gathered from a definition of l at the end of b does reach it. */
  lemma {:induction false} ChainsAreReal(s: State, c: seq<Node>, n: Node, b: Block, l: Loc)
    requires Complete(s) && Static(s) && Chain(s, c, n) && b in s.prog.preds && Justified(s, c[0], b, l)
    ensures exists p :: s.prog.ReachesEnd(n, p, l) && p[|p| - 1] == b
    decreases |c|, s.rank[b], 1
  {
    assert c != [];
    hide Complete, Chain, DefsAfter, Kills, LastWrite, PhiAt;
    CompleteShape(s);
    hide Shape, Static;
    if c[0] in DefsAfter(s.prog.nodes, s.prog.code[b], l) {
      ReachesHere(s, c[0], b, l);
      RegularEndsChain(s, c, n);
      assert s.prog.ReachesEnd(n, [b], l) && [b][|[b]| - 1] == b;
    } else {
      EntryChainsAreReal(s, c, n, b, l);
      var p :| s.prog.ReachesEnd(n, p, l) && p[|p| - 1] in s.prog.preds[b];
      ReachesExtend(s.prog, n, p, b, l);
    }
  }

  lemma RegularEndsChain(s: State, c: seq<Node>, n: Node)
    requires Shape(s) && Chain(s, c, n) && c[0] in s.prog.nodes
    ensures c[0] == n
  {
    hide BlockShape, PhiShape;
  }

  lemma {:induction false} EntryChainsAreReal(s: State, c: seq<Node>, n: Node, b: Block, l: Loc)
    requires Complete(s) && Static(s) && Chain(s, c, n) && b in s.prog.preds && JustifiedEntry(s, c[0], b, l)
    ensures exists p :: s.prog.ReachesEnd(n, p, l) && p[|p| - 1] in s.prog.preds[b]
    decreases |c|, s.rank[b], 0
  {
    if |s.prog.preds[b]| == 1 {
      hide Complete, Chain;
      ChainsAreReal(s, c, n, s.prog.preds[b][0], l);
    } else {
      var i := OperandPlace(s, c, n, b, l);
      TailChain(s, c, n);
      hide Complete, Chain;
      ChainsAreReal(s, c[1..], n, s.prog.preds[b][i], l);
    }
  }

  lemma TailChain(s: State, c: seq<Node>, n: Node)
    requires Chain(s, c, n) && |c| > 1
    ensures Chain(s, c[1..], n) && c[1..][0] == c[1]
  {
  }

  /** The next node of a chain is justified at the end of some predecessor. */
  lemma OperandPlace(s: State, c: seq<Node>, n: Node, b: Block, l: Loc) returns (i: nat)
    requires Complete(s) && Static(s) && Chain(s, c, n) && b in s.prog.preds && PhiAt(s, c[0], b, l)
    ensures |c| > 1 && i < |s.prog.preds[b]| && s.prog.preds[b][i] in s.prog.preds
    ensures Justified(s, c[1], s.prog.preds[b][i], l)
  {
    hide Complete, Justified, PhiAt;
    PhiGoesOn(s, c, n, b, l);
    i := PhiOperandPlace(s, c[0], c[1], b, l);
  }

  lemma PhiGoesOn(s: State, c: seq<Node>, n: Node, b: Block, l: Loc)
    requires Chain(s, c, n) && c != [] && PhiAt(s, c[0], b, l)
    ensures |c| > 1 && c[0] in s.defuse && c[1] in s.defuse[c[0]]
  {
  }

  lemma ChainGoesOn(s: State, c: seq<Node>, n: Node)
    requires Chain(s, c, n) && c != [] && IsPhiNode(s, c[0])
    ensures |c| > 1 && c[0] in s.defuse && c[1] in s.defuse[c[0]]
  {
  }

  lemma PhiOperandPlace(s: State, f: Node, m: Node, b: Block, l: Loc) returns (i: nat)
    requires Complete(s) && Static(s) && b in s.prog.preds && PhiAt(s, f, b, l) && f in s.defuse && m in s.defuse[f]
    ensures i < |s.prog.preds[b]| && s.prog.preds[b][i] in s.prog.preds && Justified(s, m, s.prog.preds[b][i], l)
  {
    PhiIsNew(s, f);
    hide BlockShape, UseRight, Covers, Justified, Program.Ranked;
    i :| 0 <= i < |s.prog.preds[b]| && Justified(s, m, s.prog.preds[b][i], l);
  }

  /** What is gathered from the def-use edges of a use is exactly what reaches it. */
  lemma UsesAreExact(s: State, u: Node, b: Block, at: nat, n: Node)
    requires Inv(s, {}) && s.prog.EqualOrDisjoint() && u in s.defuse && u in s.prog.nodes
    requires b in s.prog.code && b in s.prog.preds && at < |s.prog.code[b]| && s.prog.code[b][at] == u
    ensures Gathers(s, s.defuse[u], n) <==> exists l: Loc :: Uses(s.prog.nodes[u], l) && s.prog.Reaches(n, b, at, l)
  {
    InvComplete(s);
    InvStatic(s, {});
    hide Inv;
    CompleteUse(s, u, b, at);
    CompleteIsMerged(s);
    hide Complete, Merged;
    if Gathers(s, s.defuse[u], n) {
      var c :| Chain(s, c, n) && c[0] in s.defuse[u];
      var l: Loc :| Uses(s.prog.nodes[u], l) && UseJustified(s, c[0], b, at, l);
      UseChainIsReal(s, c, n, b, at, l);
    }
    if l: Loc :| Uses(s.prog.nodes[u], l) && s.prog.Reaches(n, b, at, l) {
      UsePathIsCovered(s, s.defuse[u], n, b, at, l);
    }
  }

  lemma CompleteUse(s: State, u: Node, b: Block, at: nat)
    requires Complete(s) && Static(s) && u in s.defuse && u in s.prog.nodes
    requires b in s.prog.code && b in s.prog.preds && at < |s.prog.code[b]| && s.prog.code[b][at] == u
    ensures UseRight(s, s.defuse[u], u, b, at)
  {
    hide Shape, UseRight, PhiClosed, Static;
  }

  lemma UseChainIsReal(s: State, c: seq<Node>, n: Node, b: Block, at: nat, l: Loc)
    requires Complete(s) && Static(s) && Chain(s, c, n) && b in s.prog.code && b in s.prog.preds
    requires at <= |s.prog.code[b]|
    requires UseJustified(s, c[0], b, at, l)
    ensures s.prog.Reaches(n, b, at, l)
  {
    if c[0] in DefsAfter(s.prog.nodes, s.prog.code[b][..at], l) {
      FrontChainIsReal(s, c, n, b, at, l);
    } else {
      hide Complete, Chain, Kills;
      EntryChainsAreReal(s, c, n, b, l);
    }
  }

  lemma FrontChainIsReal(s: State, c: seq<Node>, n: Node, b: Block, at: nat, l: Loc)
    requires Complete(s) && Static(s) && Chain(s, c, n) && b in s.prog.code && b in s.prog.preds
    requires at <= |s.prog.code[b]|
    requires c[0] in DefsAfter(s.prog.nodes, s.prog.code[b][..at], l)
    ensures s.prog.Reaches(n, b, at, l)
  {
    hide Complete, Kills, DefsAfter, Static, LastWrite, Shape, Program.Reaches;
    var i := FrontWrite(s, b, at, l, c[0]);
    CompleteShape(s);
    RegularEndsChain(s, c, n);
    LastWriteReaches(s.prog, n, b, at, l, i);
  }

  lemma FrontWrite(s: State, b: Block, at: nat, l: Loc, m: Node) returns (i: nat)
    requires Static(s) && b in s.prog.code && at <= |s.prog.code[b]|
    requires m in DefsAfter(s.prog.nodes, s.prog.code[b][..at], l)
    ensures i < at && LastWrite(s.prog.nodes, s.prog.code[b][..at], i, l) && s.prog.code[b][i] == m && m in s.prog.nodes
  {
    hide Kills, DefsAfter;
    CodeIsNodes(s, b, at);
    hide Static;
    DefsAfterAreLastWrites(s.prog.nodes, s.prog.code[b][..at], l, m);
    i :| LastWrite(s.prog.nodes, s.prog.code[b][..at], i, l) && s.prog.code[b][..at][i] == m;
  }

  lemma LastWriteReaches(prog: Program, n: Node, b: Block, at: nat, l: Loc, i: nat)
    requires b in prog.code && b in prog.preds && at <= |prog.code[b]|
    requires LastWrite(prog.nodes, prog.code[b][..at], i, l) && prog.code[b][i] == n
    ensures prog.Reaches(n, b, at, l)
  {
    hide LastWrite, Kills;
  }

  lemma CodeIsNodes(s: State, b: Block, at: nat)
    requires Static(s) && b in s.prog.code && at <= |s.prog.code[b]|
    ensures forall m :: m in s.prog.code[b][..at] ==> m in s.prog.nodes
  {
  }

  lemma UsePathIsCovered(s: State, R: set<Node>, n: Node, b: Block, at: nat, l: Loc)
    requires Merged(s) && Static(s) && b in s.prog.code && b in s.prog.preds && at <= |s.prog.code[b]|
    requires UseCovered(s, R, b, at, l) && s.prog.Reaches(n, b, at, l)
    ensures Gathers(s, R, n)
  {
    hide Merged, Kills, Gathers;
    var before := s.prog.code[b][..at];
    if i: nat :| LastWrite(s.prog.nodes, before, i, l) && s.prog.code[b][i] == n {
      assert before[i] == n;
      MergedShape(s);
      WritersAreCovered(s, R, n, b, l, before);
    } else {
      var p :| s.prog.ReachesEnd(n, p, l) && p[|p| - 1] in s.prog.preds[b];
      PathsReachEntry(s, R, n, p, b, l);
    }
  }

  lemma MergedShape(s: State)
    requires Merged(s)
    ensures Shape(s)
  {
    hide Shape, PhiMerges;
  }

  lemma CompleteShape(s: State)
    requires Complete(s)
    ensures Shape(s)
  {
    hide Shape, UseRight, PhiClosed;
  }

  lemma ExactAnswer(s: State, u: Node, n: Node)
    requires Inv(s, {}) && s.prog.EqualOrDisjoint() && u in s.defuse && u in s.prog.nodes
    requires u !in s.prog.place ==> s.defuse[u] == {}
    ensures Gathers(s, s.defuse[u], n) <==> ReachingDef(s.prog, u, n)
  {
    if u in s.prog.place {
      InvShape(s, {});
      hide Inv, Shape, Gathers;
      UseInCode(s, u, s.prog.place[u].0, s.prog.place[u].1);
      UsesAreExact(s, u, s.prog.place[u].0, s.prog.place[u].1, n);
    }
  }

  // ---- gathering

  ghost function Operands(s: State, f: Node): set<Node> { if f in s.defuse then s.defuse[f] else {} }

  ghost predicate PhiGathered(s: State, f: Node, phis: set<Node>, ret: set<Node>) {
    forall n :: n in Operands(s, f) ==> if IsPhiNode(s, n) then n in phis else n in ret
  }

  lemma OperandNodes(s: State, f: Node)
    requires Shape(s)
    ensures Operands(s, f) <= s.nodes.Keys
  {
    hide BlockShape, PhiShape;
  }

  lemma GathersSelf(s: State, R: set<Node>, n: Node)
    requires n in R && n in s.nodes && !IsPhiNode(s, n)
    ensures Gathers(s, R, n)
  {
    assert Chain(s, [n], n);
  }

  lemma GathersOperand(s: State, f: Node, n: Node)
    requires IsPhiNode(s, f) && n in Operands(s, f) && n in s.nodes && !IsPhiNode(s, n)
    ensures Gathers(s, {f}, n)
  {
    GathersSelf(s, s.defuse[f], n);
    GathersThrough(s, {f}, f, n);
  }

  lemma GathersMore(s: State, R: set<Node>, R': set<Node>, n: Node)
    requires R <= R' && Gathers(s, R, n)
    ensures Gathers(s, R', n)
  {
  }

  lemma GathersOver(s: State, f: Node, g: Node, n: Node)
    requires IsPhiNode(s, f) && g in Operands(s, f) && Gathers(s, {g}, n)
    ensures Gathers(s, {f}, n)
  {
    GathersMore(s, {g}, s.defuse[f], n);
    GathersThrough(s, {f}, f, n);
  }

  lemma GatheredAll(s: State, R: set<Node>, phis: set<Node>, ret: set<Node>, n: Node)
    requires forall g :: g in phis ==> PhiGathered(s, g, phis, ret)
    requires forall m :: m in R ==> if IsPhiNode(s, m) then m in phis else m in ret
    requires Gathers(s, R, n)
    ensures n in ret
  {
    var c :| Chain(s, c, n) && c[0] in R;
    var k := 0;
    while k < |c| - 1
      invariant k < |c| && if IsPhiNode(s, c[k]) then c[k] in phis else c[k] in ret
    {
      assert c[k + 1] in Operands(s, c[k]);
      k := k + 1;
    }
  }
}
