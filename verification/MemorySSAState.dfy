/** The state of the on-demand memory SSA construction: cached definitions of
    blocks, the phi nodes placed so far, and the def-use edges found so far. */
module MemorySSAState {
  import opened DisjunctiveIntervals
  import opened MemoryDefinitions
  import opened ReachingDefinitions

  datatype State = State(
    prog: Program,
    rank: map<Block, nat>,              // orders the blocks with a single predecessor
    inputs: set<Node>,                  // objects that callers may have defined
    nodes: map<Node, RWNode>,           // the program's nodes and the phi nodes
    where_: map<Node, Block>,           // the block of a phi node
    blocks: map<Block, seq<Node>>,      // the phi nodes of a block and its code
    info: map<Block, Definitions>,      // cached definitions
    defuse: map<Node, set<Node>>,       // initialized def-use edges
    claimed: bool)                      // some phi node was given bytes behind its site

  ghost predicate IsPhiNode(s: State, f: Node) { f in s.nodes && s.nodes[f].IsPhi() }

  /** f is a phi node of the block b that merges definitions of l. */
  ghost predicate PhiAt(s: State, f: Node, b: Block, l: Loc) {
    && IsPhiNode(s, f) && f in s.where_ && s.where_[f] == b
    && |s.nodes[f].overwrites| == 1 && s.nodes[f].overwrites[0].Has(l)
  }

  /** The memory a block kills, and the definitions found at its end: what is
      cached or, before that, what its code does. */
  ghost predicate KillsAtEnd(s: State, b: Block, l: Loc) {
    if b in s.info && s.info[b].processed then NodesAt(s.info[b].kills, l) != {}
    else b in s.prog.code && Kills(s.prog.nodes, s.prog.code[b], l)
  }

  ghost function DefsAtEnd(s: State, b: Block, l: Loc): set<Node> {
    if b in s.info && s.info[b].processed then NodesAt(s.info[b].definitions, l)
    else if b in s.prog.code then DefsAfter(s.prog.nodes, s.prog.code[b], l) else {}
  }

  // ---- the shape of states

  ghost predicate PhiShape(s: State, f: Node)
    requires f in s.nodes
  {
    var a := s.nodes[f];
    && a.IsPhi() && a.defines == [] && a.uses == [] && |a.overwrites| == 1 && a.overwrites[0].Proper()
    && f in s.where_ && s.where_[f] in s.prog.preds
    && (a.kind == Phi ==> |s.prog.preds[s.where_[f]]| > 1)
    && (a.kind == InArg ==> s.prog.preds[s.where_[f]] == [] && a.overwrites[0].target in s.inputs)
  }

  ghost predicate BlockShape(s: State, b: Block)
    requires b in s.blocks && b in s.prog.code && b in s.info
  {
    var k := |s.blocks[b]| - |s.prog.code[b]|;
    && s.info[b].Valid()
    && k >= 0 && s.blocks[b][k..] == s.prog.code[b]
    && (k > 0 ==> s.info[b].processed)
    && (forall i :: 0 <= i < k ==>
          var f := s.blocks[b][i];
          f in s.nodes && s.nodes[f].kind == Phi && f in s.where_ && s.where_[f] == b)
  }

  /** Cached definitions are nodes of the graph. */
  ghost predicate InfoNodes(s: State) {
    forall b, l: Loc :: b in s.info ==> NodesAt(s.info[b].definitions, l) <= s.nodes.Keys
  }

  ghost predicate Static(s: State) { s.prog.Valid() && s.prog.Ranked(s.rank) }

  ghost predicate Shape(s: State) {
    && Static(s) && s.prog.code.Keys == s.prog.preds.Keys
    && s.info.Keys == s.prog.preds.Keys && s.blocks.Keys == s.prog.preds.Keys && s.where_.Keys <= s.nodes.Keys
    && (forall n :: n in s.prog.nodes ==> n in s.nodes && s.nodes[n] == s.prog.nodes[n])
    && (forall f :: f in s.nodes && f !in s.prog.nodes ==> PhiShape(s, f))
    && (forall b :: b in s.blocks ==> BlockShape(s, b))
    && (forall n :: n in s.defuse ==> n in s.nodes && s.defuse[n] <= s.nodes.Keys)
  }

  // ---- what a set of nodes says about the definitions of a byte

  /** R holds every definition of l at the end of b, given that its phi nodes
      merge what they should. */
  ghost predicate Covers(s: State, R: set<Node>, b: Block, l: Loc)
    requires Static(s) && b in s.prog.preds
    decreases s.rank[b], 1
  {
    && DefsAfter(s.prog.nodes, s.prog.code[b], l) <= R
    && (Kills(s.prog.nodes, s.prog.code[b], l) || CoversEntry(s, R, b, l))
  }

  ghost predicate CoversEntry(s: State, R: set<Node>, b: Block, l: Loc)
    requires Static(s) && b in s.prog.preds
    decreases s.rank[b], 0
  {
    if |s.prog.preds[b]| == 1 then
      Covers(s, R, s.prog.preds[b][0], l)
    else
      (s.prog.preds[b] == [] && l.target !in s.inputs) || exists f :: f in R && PhiAt(s, f, b, l)
  }

  /** n is a definition of l at the end of b. */
  ghost predicate Justified(s: State, n: Node, b: Block, l: Loc)
    requires Static(s) && b in s.prog.preds
    decreases s.rank[b], 1
  {
    || n in DefsAfter(s.prog.nodes, s.prog.code[b], l)
    || (!Kills(s.prog.nodes, s.prog.code[b], l) && JustifiedEntry(s, n, b, l))
  }

  ghost predicate JustifiedEntry(s: State, n: Node, b: Block, l: Loc)
    requires Static(s) && b in s.prog.preds
    decreases s.rank[b], 0
  {
    if |s.prog.preds[b]| == 1 then
      Justified(s, n, s.prog.preds[b][0], l)
    else
      PhiAt(s, n, b, l)
  }

  ghost predicate Right(s: State, R: set<Node>, b: Block, ds: DefSite)
    requires Static(s) && b in s.prog.preds
  {
    forall l: Loc :: ds.Has(l) ==> Covers(s, R, b, l) && forall n :: n in R ==> Justified(s, n, b, l)
  }

  ghost predicate RightEntry(s: State, R: set<Node>, b: Block, ds: DefSite)
    requires Static(s) && b in s.prog.preds
  {
    forall l: Loc :: ds.Has(l) ==> CoversEntry(s, R, b, l) && forall n :: n in R ==> JustifiedEntry(s, n, b, l)
  }

  /** The operands of a phi node are right for all predecessors of its block. */
  ghost predicate PhiClosed(s: State, f: Node)
    requires Shape(s) && f in s.nodes && f !in s.prog.nodes
  {
    var b, ds := s.where_[f], s.nodes[f].overwrites[0];
    if s.nodes[f].kind == InArg then f !in s.defuse
    else f in s.defuse && OperandsRight(s, s.prog.preds[b], ds, s.defuse[f])
  }

  /** The operands `ops` hold the definitions of ds at the ends of all the blocks ps. */
  ghost predicate OperandsCover(s: State, ps: seq<Block>, ds: DefSite, ops: set<Node>)
    requires Static(s) && forall i :: 0 <= i < |ps| ==> ps[i] in s.prog.preds
  {
    forall i, l: Loc :: 0 <= i < |ps| && ds.Has(l) ==> Covers(s, ops, ps[i], l)
  }

  /** The operands of a phi node hold the definitions from all predecessors of its block. */
  ghost predicate PhiMerges(s: State, f: Node)
    requires Shape(s) && f in s.nodes && f !in s.prog.nodes
  {
    var b, ds := s.where_[f], s.nodes[f].overwrites[0];
    s.nodes[f].kind == InArg || (f in s.defuse && OperandsCover(s, s.prog.preds[b], ds, s.defuse[f]))
  }

  ghost predicate Merged(s: State) {
    Shape(s) && forall f :: f in s.nodes && f !in s.prog.nodes ==> PhiMerges(s, f)
  }

  /** The definitions of the bytes that the node at place `at` of b uses. */
  ghost predicate UseCovered(s: State, R: set<Node>, b: Block, at: nat, l: Loc)
    requires Static(s) && b in s.prog.preds && at <= |s.prog.code[b]|
  {
    var before := s.prog.code[b][..at];
    DefsAfter(s.prog.nodes, before, l) <= R && (Kills(s.prog.nodes, before, l) || CoversEntry(s, R, b, l))
  }

  ghost predicate UseJustified(s: State, n: Node, b: Block, at: nat, l: Loc)
    requires Static(s) && b in s.prog.preds && at <= |s.prog.code[b]|
  {
    var before := s.prog.code[b][..at];
    n in DefsAfter(s.prog.nodes, before, l) || (!Kills(s.prog.nodes, before, l) && JustifiedEntry(s, n, b, l))
  }

  ghost predicate UseRight(s: State, R: set<Node>, u: Node, b: Block, at: nat)
    requires Static(s) && b in s.prog.preds && at <= |s.prog.code[b]| && u in s.prog.nodes
  {
    && (forall l: Loc :: Uses(s.prog.nodes[u], l) ==> UseCovered(s, R, b, at, l))
    && (forall n :: n in R ==> exists l: Loc :: Uses(s.prog.nodes[u], l) && UseJustified(s, n, b, at, l))
  }

  /** The cached definitions agree with the code of a block and its phi nodes. */
  ghost predicate CacheAgrees(s: State, b: Block, l: Loc)
    requires b in s.prog.code
  {
    var base, D := DefsAfter(s.prog.nodes, s.prog.code[b], l), DefsAtEnd(s, b, l);
    if Kills(s.prog.nodes, s.prog.code[b], l) then KillsAtEnd(s, b, l) && D == base
    else if KillsAtEnd(s, b, l) then
      base <= D && (forall n :: n in D ==> n in base || PhiAt(s, n, b, l)) && exists f :: f in D && PhiAt(s, f, b, l)
    else D == base
  }

  /** What holds when the accesses of the program are pairwise equal or disjoint. */
  ghost predicate CellState(s: State)
    requires Shape(s)
  {
    && (forall f :: f in s.nodes && f !in s.prog.nodes ==> s.prog.Cell(s.nodes[f].overwrites[0]))
    && (forall b, l: Loc :: b in s.prog.code ==> CacheAgrees(s, b, l))
    && (forall b, ds: DefSite, l: Loc, l': Loc :: s.prog.Cell(ds) && ds.Has(l) && ds.Has(l') ==>
          (KillsAtEnd(s, b, l) <==> KillsAtEnd(s, b, l')))
  }

  ghost predicate Inv(s: State, open: set<Node>) {
    && Shape(s) && InfoNodes(s) && open <= s.nodes.Keys
    && (forall f :: f in s.nodes && f !in s.prog.nodes && f in open ==> s.nodes[f].kind == Phi && f !in s.defuse)
    && (s.prog.EqualOrDisjoint() ==>
          && CellState(s)
          && (forall f :: f in s.nodes && f !in s.prog.nodes && f !in open ==> PhiClosed(s, f))
          && (forall b, i :: b in s.prog.code && 0 <= i < |s.prog.code[b]| && s.prog.code[b][i] in s.defuse ==>
                UseRight(s, s.defuse[s.prog.code[b][i]], s.prog.code[b][i], b, i)))
  }

  /** How the construction changes a state: it only adds. */
  ghost predicate Extends(s: State, t: State) {
    && t.prog == s.prog && t.rank == s.rank && t.inputs == s.inputs
    && (forall n :: n in s.nodes ==> n in t.nodes && t.nodes[n] == s.nodes[n])
    && (forall n :: n in s.where_ ==> n in t.where_ && t.where_[n] == s.where_[n])
    && (forall n :: n in s.defuse ==> n in t.defuse && t.defuse[n] == s.defuse[n])
    && t.info.Keys == s.info.Keys && (s.claimed ==> t.claimed)
    && (forall b, l: Loc :: KillsAtEnd(s, b, l) ==> KillsAtEnd(t, b, l))
  }

  // ---- judgements only depend on phi nodes, which never change

  lemma {:induction false} CoversExtends(s: State, t: State, R: set<Node>, R': set<Node>, b: Block, l: Loc)
    requires Static(s) && Extends(s, t) && R <= R' && b in s.prog.preds
    ensures Covers(s, R, b, l) ==> Covers(t, R', b, l)
    ensures CoversEntry(s, R, b, l) ==> CoversEntry(t, R', b, l)
    decreases s.rank[b]
  {
    if |s.prog.preds[b]| == 1 {
      CoversExtends(s, t, R, R', s.prog.preds[b][0], l);
    } else if f :| f in R && PhiAt(s, f, b, l) {
      assert f in R' && PhiAt(t, f, b, l);
    }
    assert CoversEntry(s, R, b, l) ==> CoversEntry(t, R', b, l);
  }

  lemma {:induction false} JustifiedExtends(s: State, t: State, n: Node, b: Block, l: Loc)
    requires Static(s) && Extends(s, t) && b in s.prog.preds
    ensures Justified(s, n, b, l) ==> Justified(t, n, b, l)
    ensures JustifiedEntry(s, n, b, l) ==> JustifiedEntry(t, n, b, l)
    decreases s.rank[b]
  {
    if |s.prog.preds[b]| == 1 {
      JustifiedExtends(s, t, n, s.prog.preds[b][0], l);
    }
    assert JustifiedEntry(s, n, b, l) ==> JustifiedEntry(t, n, b, l);
  }

  lemma RightExtends(s: State, t: State, R: set<Node>, b: Block, ds: DefSite)
    requires Static(s) && Extends(s, t) && b in s.prog.preds
    ensures Right(s, R, b, ds) ==> Right(t, R, b, ds)
    ensures RightEntry(s, R, b, ds) ==> RightEntry(t, R, b, ds)
  {
    forall l: Loc | ds.Has(l)
      ensures Covers(s, R, b, l) ==> Covers(t, R, b, l)
      ensures CoversEntry(s, R, b, l) ==> CoversEntry(t, R, b, l)
    {
      CoversExtends(s, t, R, R, b, l);
    }
    forall n, l: Loc | n in R && ds.Has(l)
      ensures Justified(s, n, b, l) ==> Justified(t, n, b, l)
      ensures JustifiedEntry(s, n, b, l) ==> JustifiedEntry(t, n, b, l)
    {
      JustifiedExtends(s, t, n, b, l);
    }
  }

  lemma PhiClosedExtends(s: State, t: State, f: Node)
    requires Shape(s) && Shape(t) && Extends(s, t) && f in s.nodes && f !in s.prog.nodes
    requires PhiClosed(s, f) && (s.nodes[f].kind == InArg ==> f !in t.defuse)
    ensures PhiClosed(t, f)
  {
    if s.nodes[f].kind != InArg {
      OperandsExtend(s, t, s.prog.preds[s.where_[f]], s.nodes[f].overwrites[0], s.defuse[f]);
    }
  }

  /** The operands `ops` are right for the ends of all the blocks ps. */
  ghost predicate OperandsRight(s: State, ps: seq<Block>, ds: DefSite, ops: set<Node>)
    requires Static(s) && forall i :: 0 <= i < |ps| ==> ps[i] in s.prog.preds
  {
    && OperandsCover(s, ps, ds, ops)
    && (forall n, l: Loc :: n in ops && ds.Has(l) ==> exists i :: 0 <= i < |ps| && Justified(s, n, ps[i], l))
  }

  lemma OperandsExtend(s: State, t: State, ps: seq<Block>, ds: DefSite, ops: set<Node>)
    requires Static(s) && Extends(s, t) && forall i :: 0 <= i < |ps| ==> ps[i] in s.prog.preds
    requires OperandsRight(s, ps, ds, ops)
    ensures OperandsRight(t, ps, ds, ops)
  {
    forall i, l: Loc | 0 <= i < |ps| && ds.Has(l) ensures Covers(t, ops, ps[i], l) {
      CoversExtends(s, t, ops, ops, ps[i], l);
    }
    forall n, l: Loc | n in ops && ds.Has(l) ensures exists i :: 0 <= i < |ps| && Justified(t, n, ps[i], l) {
      var i :| 0 <= i < |ps| && Justified(s, n, ps[i], l);
      JustifiedExtends(s, t, n, ps[i], l);
    }
  }

  lemma UseRightExtends(s: State, t: State, R: set<Node>, u: Node, b: Block, at: nat)
    requires Static(s) && Extends(s, t) && b in s.prog.preds && at <= |s.prog.code[b]| && u in s.prog.nodes
    requires UseRight(s, R, u, b, at)
    ensures UseRight(t, R, u, b, at)
  {
    forall l: Loc | Uses(s.prog.nodes[u], l) ensures UseCovered(t, R, b, at, l) {
      CoversExtends(s, t, R, R, b, l);
    }
    forall n | n in R ensures exists l: Loc :: Uses(s.prog.nodes[u], l) && UseJustified(t, n, b, at, l) {
      var l: Loc :| Uses(s.prog.nodes[u], l) && UseJustified(s, n, b, at, l);
      JustifiedExtends(s, t, n, b, l);
      assert UseJustified(t, n, b, at, l);
    }
  }

  /** A step that keeps the cache right and opens no phi keeps the invariant. */
  lemma InvExtends(s: State, t: State, open: set<Node>, open': set<Node>)
    requires Inv(s, open) && Extends(s, t) && Shape(t) && InfoNodes(t) && t.defuse == s.defuse && open' <= t.nodes.Keys
    requires t.prog.EqualOrDisjoint() ==> CellState(t)
    requires forall f :: f in t.nodes && f !in t.prog.nodes && f in open' ==> t.nodes[f].kind == Phi && f !in t.defuse
    requires forall f :: f in t.nodes && f !in t.prog.nodes && f !in open' ==>
      (f in s.nodes && f !in open) || (t.nodes[f].kind == InArg && f !in t.defuse)
    ensures Inv(t, open')
  {
    if t.prog.EqualOrDisjoint() {
      forall f | f in t.nodes && f !in t.prog.nodes && f !in open' ensures PhiClosed(t, f) {
        if f in s.nodes && f !in open { PhiClosedExtends(s, t, f); }
      }
      forall b, i | b in t.prog.code && 0 <= i < |t.prog.code[b]| && t.prog.code[b][i] in t.defuse
        ensures UseRight(t, t.defuse[t.prog.code[b][i]], t.prog.code[b][i], b, i)
      {
        UseRightExtends(s, t, s.defuse[s.prog.code[b][i]], s.prog.code[b][i], b, i);
      }
    }
  }
}
