/** Termination measure and preservation lemmas of the memory SSA construction. */
module MemorySSALemmas {
  import opened Offsets
  import opened DisjunctiveIntervals
  import opened MemoryDefinitions
  import opened ReachingDefinitions
  import opened MemorySSAState

  // ---- termination: bytes of an object that blocks do not kill yet

  ghost function Unkilled(s: State, t: Node): set<(Block, Offset)> {
    set b, x: Offset | b in s.info.Keys && 0 <= x <= UNKNOWN && !KillsAtEnd(s, b, Loc(t, x)) :: (b, x)
  }

  ghost predicate Fresh(s: State, b: Block, ds: DefSite) {
    exists l: Loc :: ds.Has(l) && !KillsAtEnd(s, b, l)
  }

  /** 1 iff a search from the entry of b may place a phi node without killing anything new. */
  ghost function Again(s: State, b: Block, ds: DefSite): nat
    requires b in s.prog.preds
  {
    if |s.prog.preds[b]| == 1 || Fresh(s, b, ds) then 0 else 1
  }

  lemma UnkilledShrinks(s: State, t: State, target: Node)
    requires Extends(s, t)
    ensures Unkilled(t, target) <= Unkilled(s, target)
  {
  }

  lemma UnkilledStrictly(s: State, t: State, b: Block, ds: DefSite)
    requires Extends(s, t) && b in s.info && Fresh(s, b, ds)
    requires forall l: Loc :: ds.Has(l) ==> KillsAtEnd(t, b, l)
    ensures Unkilled(t, ds.target) < Unkilled(s, ds.target)
  {
    UnkilledShrinks(s, t, ds.target);
    var l: Loc :| ds.Has(l) && !KillsAtEnd(s, b, l);
    assert l == Loc(ds.target, l.byte);
    assert (b, l.byte) in Unkilled(s, ds.target);
    assert (b, l.byte) !in Unkilled(t, ds.target);
  }

  // ---- caching the definitions of a block

  /** t differs from s in cached definitions that say the same. */
  ghost predicate SameView(s: State, t: State) {
    && t == s.(info := t.info) && t.info.Keys == s.info.Keys
    && forall b, l: Loc :: (KillsAtEnd(t, b, l) <==> KillsAtEnd(s, b, l)) && DefsAtEnd(t, b, l) == DefsAtEnd(s, b, l)
  }

  /** D is what local value numbering of ns computes. */
  ghost predicate Lvn(nodes: map<Node, RWNode>, ns: seq<Node>, D: Definitions) {
    && (forall l: Loc :: NodesAt(D.definitions, l) == DefsAfter(nodes, ns, l))
    && (forall l: Loc :: NodesAt(D.kills, l) != {} <==> Kills(nodes, ns, l))
  }

  lemma LvnNone(nodes: map<Node, RWNode>)
    ensures Lvn(nodes, [], NoDefinitions)
  {
  }

  lemma NotLast(ns: seq<Node>, to: Node, i: nat)
    requires i <= |ns| && to in ns && forall j :: 0 <= j < i ==> ns[j] != to
    ensures i < |ns|
  {
  }

  lemma LvnStep(nodes: map<Node, RWNode>, ns: seq<Node>, k: nat, D: Definitions, D': Definitions)
    requires k < |ns| && ns[k] in nodes && Lvn(nodes, ns[..k], D)
    requires forall l: Loc :: NodesAt(D'.definitions, l) == AfterNode(NodesAt(D.definitions, l), ns[k], nodes[ns[k]], l)
    requires forall l: Loc ::
      NodesAt(D'.kills, l) == if nodes[ns[k]].Strong(l) then NodesAt(D.kills, l) + {ns[k]} else NodesAt(D.kills, l)
    ensures Lvn(nodes, ns[..k + 1], D')
  {
    hide NodesAt;
    assert ns[..k + 1] == ns[..k] + [ns[k]];
    forall l: Loc
      ensures DefsAfter(nodes, ns[..k + 1], l) == AfterNode(DefsAfter(nodes, ns[..k], l), ns[k], nodes[ns[k]], l)
      ensures Kills(nodes, ns[..k + 1], l) <==> Kills(nodes, ns[..k], l) || nodes[ns[k]].Strong(l)
    {
      assert ns[..k + 1][..k] == ns[..k];
      KillsAppend(nodes, ns[..k], [ns[k]], l);
      assert [ns[k]][0] == ns[k];
    }
  }

  /** The nodes of a block are declared and access concrete memory. */
  ghost predicate Runnable(nodes: map<Node, RWNode>, ns: seq<Node>) {
    forall i :: 0 <= i < |ns| ==> ns[i] in nodes && nodes[ns[i]].Proper()
  }

  lemma BlockNodes(s: State, b: Block)
    requires Shape(s) && b in s.blocks
    ensures Runnable(s.nodes, s.blocks[b])
  {
    hide *;
    forall i | 0 <= i < |s.blocks[b]| ensures s.blocks[b][i] in s.nodes && s.nodes[s.blocks[b][i]].Proper() {
      BlockNode(s, b, i);
    }
    RunnableNodes(s.nodes, s.blocks[b]);
  }

  lemma RunnableNodes(nodes: map<Node, RWNode>, ns: seq<Node>)
    requires forall i :: 0 <= i < |ns| ==> ns[i] in nodes && nodes[ns[i]].Proper()
    ensures Runnable(nodes, ns)
  {
    hide RWNode.Proper;
  }

  lemma BlockNode(s: State, b: Block, i: nat)
    requires Shape(s) && b in s.blocks && i < |s.blocks[b]|
    ensures s.blocks[b][i] in s.nodes && s.nodes[s.blocks[b][i]].Proper()
  {
    hide *;
    ShapeOfBlock(s, b);
    var k := PhisInFront(s, b);
    if i >= k { CodeNode(s, b, i - k); } else { PhiNode(s, s.blocks[b][i]); }
  }

  /** A block begins with phi nodes and goes on with its code. */
  lemma PhisInFront(s: State, b: Block) returns (k: nat)
    requires b in s.blocks && b in s.prog.code && b in s.info && BlockShape(s, b)
    ensures |s.blocks[b]| == k + |s.prog.code[b]|
    ensures forall i :: 0 <= i < k ==> s.blocks[b][i] in s.nodes && s.nodes[s.blocks[b][i]].kind == Phi
    ensures forall i :: k <= i < |s.blocks[b]| ==> s.blocks[b][i] == s.prog.code[b][i - k]
  {
    k := |s.blocks[b]| - |s.prog.code[b]|;
    forall i | k <= i < |s.blocks[b]| ensures s.blocks[b][i] == s.prog.code[b][i - k] {
      assert s.blocks[b][k..][i - k] == s.blocks[b][i];
    }
  }

  lemma CodeNode(s: State, b: Block, i: nat)
    requires Shape(s) && b in s.prog.code && i < |s.prog.code[b]|
    ensures s.prog.code[b][i] in s.nodes && s.nodes[s.prog.code[b][i]].Proper()
  {
    hide BlockShape, PhiShape;
  }

  lemma PhiNode(s: State, f: Node)
    requires Shape(s) && f in s.nodes && s.nodes[f].kind == Phi
    ensures s.nodes[f].Proper()
  {
    hide Shape, Static;
    ShapeFacts(s);
    ProgramNodes(s);
    ShapeOfPhi(s, f);
  }

  lemma ProgramNodes(s: State)
    requires Static(s)
    ensures forall n :: n in s.prog.nodes ==> s.prog.nodes[n].kind == Regular
  {
    hide Program.Ranked;
  }

  lemma InvOpen(s: State, open: set<Node>)
    requires Inv(s, open)
    ensures open <= s.nodes.Keys
  {
    hide Shape, CellState, PhiClosed, UseRight;
  }

  lemma SomeSiteNone(sites: seq<DefSite>)
    ensures forall l: Loc :: !SomeSite(sites[..0], l)
  {
  }

  lemma SomeSitePrefix(sites: seq<DefSite>, k: nat)
    requires k < |sites|
    ensures forall l: Loc :: SomeSite(sites[..k + 1], l) <==> SomeSite(sites[..k], l) || sites[k].Has(l)
  {
    forall l: Loc ensures SomeSite(sites[..k + 1], l) <==> SomeSite(sites[..k], l) || sites[k].Has(l) {
      if i :| 0 <= i < |sites[..k]| && sites[..k][i].Has(l) { assert sites[..k + 1][i].Has(l); }
      if sites[k].Has(l) { assert sites[..k + 1][k].Has(l); }
    }
  }

  lemma SameViewReflexive(s: State)
    ensures SameView(s, s) && Extends(s, s)
  {
  }

  lemma CachedBlock(s: State, t: State, b: Block, D: Definitions, open: set<Node>)
    requires Inv(s, open) && b in s.info && !s.info[b].processed
    requires b in s.blocks && D.Valid() && t == s.(info := s.info[b := D.(processed := true)])
    requires Lvn(s.nodes, s.blocks[b], D)
    ensures Inv(t, open) && SameView(s, t) && Extends(s, t)
  {
    hide *;
    InvShape(s, open);
    assert forall b :: b in t.info ==> t.info[b].Valid() by { ValidInfo(s.info, b, D); }
    CachedView(s, t, b, D);
    CachedNodes(s, t, b, D);
    SameViewKeepsInv(s, t, open);
  }

  lemma CachedNodes(s: State, t: State, b: Block, D: Definitions)
    requires InfoNodes(s) && b in s.info && b in s.blocks
    requires t == s.(info := s.info[b := D.(processed := true)]) && Lvn(s.nodes, s.blocks[b], D)
    ensures InfoNodes(t)
  {
    hide DefsAfter, NodesAt;
    forall l: Loc ensures NodesAt(D.definitions, l) <= s.nodes.Keys { DefsAfterAreNodes(s.nodes, s.blocks[b], l); }
  }

  lemma {:induction false} DefsAfterAreNodes(nodes: map<Node, RWNode>, ns: seq<Node>, l: Loc)
    ensures DefsAfter(nodes, ns, l) <= nodes.Keys
  {
    if ns != [] { DefsAfterAreNodes(nodes, ns[..|ns| - 1], l); }
  }

  lemma ValidInfo(info: map<Block, Definitions>, b: Block, D: Definitions)
    requires D.Valid() && forall c :: c in info ==> info[c].Valid()
    ensures var info' := info[b := D.(processed := true)]; forall c :: c in info' ==> info'[c].Valid()
  {
  }

  lemma CachedView(s: State, t: State, b: Block, D: Definitions)
    requires Shape(s) && b in s.info && !s.info[b].processed
    requires t == s.(info := s.info[b := D.(processed := true)]) && b in s.blocks && Lvn(s.nodes, s.blocks[b], D)
    ensures SameView(s, t)
  {
    hide Shape, NodesAt, DefsAfter, Kills;
    forall c, l: Loc
      ensures KillsAtEnd(t, c, l) <==> KillsAtEnd(s, c, l)
      ensures DefsAtEnd(t, c, l) == DefsAtEnd(s, c, l)
    {
      if c == b {
        UncachedCode(s, b);
        DefsAfterFrame(s.nodes, s.prog.nodes, s.prog.code[b], l);
      }
    }
  }

  lemma UncachedCode(s: State, b: Block)
    requires Shape(s) && b in s.info && !s.info[b].processed
    ensures b in s.prog.code && s.blocks[b] == s.prog.code[b]
    ensures forall i :: 0 <= i < |s.blocks[b]| ==>
      var n := s.blocks[b][i]; n in s.nodes && n in s.prog.nodes && s.nodes[n] == s.prog.nodes[n]
  {
    assert BlockShape(s, b);
  }

  lemma InvShape(s: State, open: set<Node>)
    requires Inv(s, open)
    ensures Shape(s) && InfoNodes(s)
    ensures s.blocks.Keys == s.info.Keys == s.prog.preds.Keys == s.prog.code.Keys
    ensures forall b :: b in s.info ==> s.info[b].Valid()
  {
    hide CellState, PhiClosed, UseRight;
    forall b | b in s.info ensures s.info[b].Valid() { assert BlockShape(s, b); }
  }

  lemma SameViewKeepsInv(s: State, t: State, open: set<Node>)
    requires Inv(s, open) && SameView(s, t)
    requires forall b :: b in t.info ==> t.info[b].Valid() && (s.info[b].processed ==> t.info[b].processed)
    requires InfoNodes(t)
    ensures Inv(t, open) && Extends(s, t)
  {
    hide Shape, CellState, PhiClosed, UseRight, InfoNodes;
    SameViewKeepsShape(s, t);
    if s.prog.EqualOrDisjoint() {
      SameViewKeepsCells(s, t);
    }
    InvExtends(s, t, open, open);
  }

  lemma SameViewKeepsShape(s: State, t: State)
    requires Shape(s) && SameView(s, t)
    requires forall b :: b in t.info ==> t.info[b].Valid() && (s.info[b].processed ==> t.info[b].processed)
    ensures Shape(t)
  {
    hide Shape, BlockShape, PhiShape, Static, KillsAtEnd, DefsAtEnd;
    ShapeFacts(s);
    StaticSame(s, t);
    forall b | b in t.blocks ensures b in t.prog.code && b in t.info && BlockShape(t, b) {
      ShapeOfBlock(s, b);
      SameViewBlock(s, t, b);
    }
    forall f | f in t.nodes && f !in t.prog.nodes ensures PhiShape(t, f) {
      ShapeOfPhi(s, f);
      SameViewPhi(s, t, f);
    }
    ShapeFrom(t);
  }

  lemma SameViewBlock(s: State, t: State, b: Block)
    requires SameView(s, t) && b in s.blocks && b in s.prog.code && b in s.info && BlockShape(s, b)
    requires t.info[b].Valid() && (s.info[b].processed ==> t.info[b].processed)
    ensures BlockShape(t, b)
  {
    hide KillsAtEnd, DefsAtEnd;
  }

  lemma SameViewPhi(s: State, t: State, f: Node)
    requires SameView(s, t) && f in s.nodes && PhiShape(s, f)
    ensures PhiShape(t, f)
  {
    hide KillsAtEnd, DefsAtEnd;
  }

  lemma SameViewKeepsCells(s: State, t: State)
    requires Shape(s) && CellState(s) && SameView(s, t) && Shape(t)
    ensures CellState(t)
  {
    forall b, l: Loc | b in t.prog.code ensures CacheAgrees(t, b, l) {
      assert CacheAgrees(s, b, l);
      assert forall f :: PhiAt(s, f, b, l) <==> PhiAt(t, f, b, l);
    }
  }

  // ---- placing a phi node

  /** t is s with a new phi node f for ds in b; `sites` are the parts of ds that
      the block did not kill. */
  ghost predicate PhiAdded(s: State, t: State, b: Block, ds: DefSite, f: Node, kind: Kind, sites: seq<DefSite>)
    requires b in s.info && b in s.blocks
  {
    && t == s.(nodes := s.nodes[f := RWNode([], [ds], [], kind)], where_ := s.where_[f := b],
               blocks := if kind == Phi then s.blocks[b := [f] + s.blocks[b]] else s.blocks, info := t.info,
               claimed := t.claimed)
    && (t.claimed <==> s.claimed || Oversteps(ds, sites))
    && b in t.info && t.info == s.info[b := t.info[b]] && t.info[b].processed && t.info[b].Valid()
    && (forall l: Loc :: NodesAt(t.info[b].definitions, l) ==
          NodesAt(s.info[b].definitions, l) + (if SomeSite(sites, l) then {f} else {}))
    && (forall l: Loc :: NodesAt(t.info[b].kills, l) ==
          NodesAt(s.info[b].kills, l) + (if SomeSite(sites, l) then {f} else {}))
  }

  ghost predicate SomeSite(sites: seq<DefSite>, l: Loc) {
    exists i :: 0 <= i < |sites| && sites[i].Has(l)
  }

  ghost predicate PhiAllowed(s: State, b: Block, ds: DefSite, f: Node, kind: Kind) {
    && b in s.prog.preds && f !in s.nodes && ds.Proper()
    && ((kind == Phi && |s.prog.preds[b]| > 1) || (kind == InArg && s.prog.preds[b] == [] && ds.target in s.inputs))
    && (s.prog.EqualOrDisjoint() ==> s.prog.Cell(ds))
  }

  lemma CreatedPhi(s: State, t: State, b: Block, ds: DefSite, f: Node, kind: Kind, sites: seq<DefSite>, open: set<Node>)
    requires Inv(s, open) && b in s.info && b in s.blocks && s.info[b].processed && PhiAllowed(s, b, ds, f, kind)
    requires UndefinedIn(s.info[b].kills, ds, sites) && PhiAdded(s, t, b, ds, f, kind, sites)
    ensures Inv(t, if kind == Phi then open + {f} else open)
    ensures Extends(s, t)
    ensures forall l: Loc :: ds.Has(l) ==> KillsAtEnd(t, b, l) && PhiAt(t, f, b, l)
  {
    hide *;
    InvShape(s, open);
    PhiAddedShape(s, t, b, ds, f, kind, sites);
    PhiAddedKills(s, t, b, ds, f, kind, sites);
    InvCells(s, open);
    if s.prog.EqualOrDisjoint() {
      PhiAddedCells(s, t, b, ds, f, kind, sites);
    }
    PhiAddedInfo(s, t, b, ds, f, kind, sites);
    PhiAddedOpen(s, t, b, ds, f, kind, sites, open);
    InvExtends(s, t, open, if kind == Phi then open + {f} else open);
  }

  ghost function WithPhi(s: State, b: Block, ds: DefSite, f: Node, kind: Kind, D: Definitions, claims: bool): State
    requires b in s.blocks
  {
    s.(nodes := s.nodes[f := RWNode([], [ds], [], kind)], where_ := s.where_[f := b],
       blocks := if kind == Phi then s.blocks[b := [f] + s.blocks[b]] else s.blocks, info := s.info[b := D],
       claimed := s.claimed || claims)
  }

  /** D is the cache D0 of a block in which f covers what was uncovered of ds. */
  lemma WithPhiFields(s: State, b: Block, ds: DefSite, f: Node, kind: Kind, D: Definitions, claims: bool)
    requires b in s.blocks
    ensures var t := WithPhi(s, b, ds, f, kind, D, claims);
      && t.nodes == s.nodes[f := RWNode([], [ds], [], kind)] && t.where_ == s.where_[f := b]
      && t.defuse == s.defuse && t.prog == s.prog && t.rank == s.rank && t.inputs == s.inputs
  {
  }

  ghost predicate Covered(D0: Definitions, D: Definitions, ds: DefSite, f: Node, sites: seq<DefSite>) {
    && D.Valid() && D.processed && UndefinedIn(D0.kills, ds, sites)
    && (forall l: Loc ::
          NodesAt(D.definitions, l) == NodesAt(D0.definitions, l) + (if SomeSite(sites, l) then {f} else {}))
    && (forall l: Loc :: NodesAt(D.kills, l) == NodesAt(D0.kills, l) + (if SomeSite(sites, l) then {f} else {}))
  }

  /** What placing a phi node f for ds in b makes of a state. */
  ghost predicate PlacedAt(s: State, t: State, b: Block, ds: DefSite, f: Node, kind: Kind, sites: seq<DefSite>) {
    && b in s.info && b in s.blocks && PhiAdded(s, t, b, ds, f, kind, sites)
    && UndefinedIn(s.info[b].kills, ds, sites) && (Oversteps(ds, sites) <==> WillOverstep(s.info[b].kills, ds))
  }

  lemma PlacedIntro(s: State, t: State, b: Block, ds: DefSite, f: Node, kind: Kind, sites: seq<DefSite>)
    requires b in s.info && b in s.blocks && PhiAdded(s, t, b, ds, f, kind, sites)
    requires UndefinedIn(s.info[b].kills, ds, sites) && (Oversteps(ds, sites) <==> WillOverstep(s.info[b].kills, ds))
    ensures PlacedAt(s, t, b, ds, f, kind, sites)
  {
    hide PhiAdded, UndefinedIn, Oversteps, WillOverstep;
  }

  lemma PlacedFacts(s: State, t: State, b: Block, ds: DefSite, f: Node, kind: Kind, sites: seq<DefSite>)
    requires PlacedAt(s, t, b, ds, f, kind, sites)
    ensures b in s.info && b in s.blocks && PhiAdded(s, t, b, ds, f, kind, sites)
    ensures UndefinedIn(s.info[b].kills, ds, sites) && (Oversteps(ds, sites) <==> WillOverstep(s.info[b].kills, ds))
  {
    hide PhiAdded, UndefinedIn, Oversteps, WillOverstep;
  }

  /** The new phi node, beside the cached definitions. */
  ghost predicate PlacedFields(s: State, t: State, b: Block, ds: DefSite, f: Node, kind: Kind) {
    && t.nodes == s.nodes[f := RWNode([], [ds], [], kind)] && t.where_ == s.where_[f := b] && t.defuse == s.defuse
    && forall l: Loc :: ds.Has(l) ==> KillsAtEnd(t, b, l) && PhiAt(t, f, b, l)
  }

  lemma FieldsIntro(s: State, t: State, b: Block, ds: DefSite, f: Node, kind: Kind)
    requires t.nodes == s.nodes[f := RWNode([], [ds], [], kind)] && t.where_ == s.where_[f := b] && t.defuse == s.defuse
    requires forall l: Loc :: ds.Has(l) ==> KillsAtEnd(t, b, l) && PhiAt(t, f, b, l)
    ensures PlacedFields(s, t, b, ds, f, kind)
  {
    hide KillsAtEnd, PhiAt;
  }

  lemma WithPhiIsAdded(s: State, b: Block, ds: DefSite, f: Node, kind: Kind, D: Definitions, sites: seq<DefSite>)
    requires b in s.info && b in s.blocks && Covered(s.info[b], D, ds, f, sites)
    ensures PhiAdded(s, WithPhi(s, b, ds, f, kind, D, Oversteps(ds, sites)), b, ds, f, kind, sites)
  {
    hide NodesAt, SomeSite, UndefinedIn, Oversteps;
  }

  lemma PhiAddedClaims(s: State, t: State, b: Block, ds: DefSite, f: Node, kind: Kind, sites: seq<DefSite>)
    requires b in s.info && b in s.blocks && PhiAdded(s, t, b, ds, f, kind, sites)
    ensures t.claimed <==> s.claimed || Oversteps(ds, sites)
    ensures t.prog == s.prog && t.inputs == s.inputs
  {
    hide NodesAt, SomeSite, Oversteps;
  }

  lemma PlacedPhi(s: State, b: Block, ds: DefSite, f: Node, kind: Kind, D: Definitions, sites: seq<DefSite>,
                  open: set<Node>)
    requires Inv(s, open) && b in s.info && b in s.blocks && s.info[b].processed && PhiAllowed(s, b, ds, f, kind)
    requires Covered(s.info[b], D, ds, f, sites)
    ensures var t := WithPhi(s, b, ds, f, kind, D, Oversteps(ds, sites));
      && Inv(t, if kind == Phi then open + {f} else open) && Extends(s, t)
      && forall l: Loc :: ds.Has(l) ==> KillsAtEnd(t, b, l) && PhiAt(t, f, b, l)
  {
    hide Inv, Extends, KillsAtEnd, PhiAt, NodesAt, SomeSite, UndefinedIn, PhiAllowed, Oversteps;
    CreatedPhi(s, WithPhi(s, b, ds, f, kind, D, Oversteps(ds, sites)), b, ds, f, kind, sites, open);
  }

  lemma InvCells(s: State, open: set<Node>)
    requires Inv(s, open)
    ensures Shape(s)
    ensures s.prog.EqualOrDisjoint() ==> CellState(s)
  {
    hide Shape, CellState, PhiClosed, UseRight;
  }

  lemma PhiAddedOpen(s: State, t: State, b: Block, ds: DefSite, f: Node, kind: Kind, sites: seq<DefSite>,
                     open: set<Node>)
    requires Inv(s, open) && b in s.info && b in s.blocks && PhiAllowed(s, b, ds, f, kind)
    requires PhiAdded(s, t, b, ds, f, kind, sites)
    ensures t.prog == s.prog && t.defuse == s.defuse && (if kind == Phi then open + {f} else open) <= t.nodes.Keys
    ensures var open' := if kind == Phi then open + {f} else open;
      && (forall g :: g in t.nodes && g !in t.prog.nodes && g in open' ==> t.nodes[g].kind == Phi && g !in t.defuse)
      && (forall g :: g in t.nodes && g !in t.prog.nodes && g !in open' ==>
            (g in s.nodes && g !in open) || (t.nodes[g].kind == InArg && g !in t.defuse))
  {
    hide BlockShape, PhiShape, Static, CellState, PhiClosed, UseRight, SomeSite;
  }

  lemma PhiAddedShape(s: State, t: State, b: Block, ds: DefSite, f: Node, kind: Kind, sites: seq<DefSite>)
    requires Shape(s) && b in s.info && b in s.blocks && s.info[b].processed && PhiAllowed(s, b, ds, f, kind)
    requires PhiAdded(s, t, b, ds, f, kind, sites)
    ensures Shape(t)
  {
    PhiAddedKeys(s, t, b, ds, f, kind, sites);
    hide Shape, SomeSite, BlockShape, PhiShape, NodesAt, PhiAdded, PhiAllowed;
    ShapeFacts(s);
    forall c | c in t.blocks ensures c in t.prog.code && c in t.info && BlockShape(t, c) {
      ShapeOfBlock(s, c);
      PhiAddedBlock(s, t, b, ds, f, kind, sites, c);
    }
    forall g | g in t.nodes && g !in t.prog.nodes ensures PhiShape(t, g) {
      if g != f { ShapeOfPhi(s, g); }
      PhiAddedNode(s, t, b, ds, f, kind, sites, g);
    }
    ShapeFrom(t);
  }

  /** What the shape of a state says beside the shapes of its blocks and phi nodes. */
  lemma ShapeFacts(s: State)
    requires Shape(s)
    ensures Static(s) && s.blocks.Keys == s.prog.code.Keys == s.info.Keys == s.prog.preds.Keys
    ensures s.where_.Keys <= s.nodes.Keys
    ensures forall n :: n in s.prog.nodes ==> n in s.nodes && s.nodes[n] == s.prog.nodes[n]
    ensures forall n :: n in s.defuse ==> n in s.nodes && s.defuse[n] <= s.nodes.Keys
  {
    hide Static, BlockShape, PhiShape;
  }

  lemma StaticSame(s: State, t: State)
    requires Static(s) && t.prog == s.prog && t.rank == s.rank
    ensures Static(t)
  {
  }

  lemma ShapeOfBlock(s: State, b: Block)
    requires Shape(s) && b in s.blocks
    ensures b in s.prog.code && b in s.info && BlockShape(s, b)
  {
    hide Static, BlockShape, PhiShape;
  }

  lemma ShapeOfPhi(s: State, f: Node)
    requires Shape(s) && f in s.nodes && f !in s.prog.nodes
    ensures PhiShape(s, f)
  {
    hide Static, BlockShape, PhiShape;
  }

  lemma ShapeFrom(t: State)
    requires Static(t) && t.blocks.Keys == t.prog.code.Keys == t.info.Keys == t.prog.preds.Keys
    requires t.where_.Keys <= t.nodes.Keys
    requires forall n :: n in t.prog.nodes ==> n in t.nodes && t.nodes[n] == t.prog.nodes[n]
    requires forall n :: n in t.defuse ==> n in t.nodes && t.defuse[n] <= t.nodes.Keys
    requires forall b :: b in t.blocks ==> b in t.prog.code && b in t.info && BlockShape(t, b)
    requires forall g :: g in t.nodes && g !in t.prog.nodes ==> PhiShape(t, g)
    ensures Shape(t)
  {
    hide Static, BlockShape, PhiShape;
  }

  lemma PhiAddedKeys(s: State, t: State, b: Block, ds: DefSite, f: Node, kind: Kind, sites: seq<DefSite>)
    requires Shape(s) && b in s.info && b in s.blocks && PhiAllowed(s, b, ds, f, kind)
    requires PhiAdded(s, t, b, ds, f, kind, sites)
    ensures t.prog == s.prog && t.rank == s.rank && Static(t)
    ensures t.info.Keys == s.info.Keys && t.blocks.Keys == s.blocks.Keys && t.where_.Keys <= t.nodes.Keys
    ensures t.defuse == s.defuse && t.nodes.Keys == s.nodes.Keys + {f}
    ensures forall n :: n in s.nodes ==> t.nodes[n] == s.nodes[n]
    ensures forall n :: n in s.where_ ==> n in t.where_ && t.where_[n] == s.where_[n]
  {
    hide Shape, SomeSite, NodesAt, Static;
    ShapeFacts(s);
    NewPhi(s, b, ds, f, kind);
    StaticSame(s, t);
  }

  lemma NewPhi(s: State, b: Block, ds: DefSite, f: Node, kind: Kind)
    requires PhiAllowed(s, b, ds, f, kind)
    ensures f !in s.nodes
  {
  }

  lemma PhiAddedInfo(s: State, t: State, b: Block, ds: DefSite, f: Node, kind: Kind, sites: seq<DefSite>)
    requires InfoNodes(s) && b in s.info && b in s.blocks && PhiAdded(s, t, b, ds, f, kind, sites)
    ensures InfoNodes(t)
  {
    hide SomeSite, NodesAt;
  }

  lemma PhiAddedBlock(s: State, t: State, b: Block, ds: DefSite, f: Node, kind: Kind, sites: seq<DefSite>, c: Block)
    requires b in s.info && b in s.blocks && s.info[b].processed && PhiAllowed(s, b, ds, f, kind)
    requires PhiAdded(s, t, b, ds, f, kind, sites)
    requires c in s.blocks && c in s.prog.code && c in s.info && BlockShape(s, c)
    ensures c in t.blocks && c in t.info && BlockShape(t, c)
  {
    hide SomeSite, NodesAt, Definitions.Valid, PhiAllowed;
    NewPhi(s, b, ds, f, kind);
    if c == b && kind == Phi {
      PhiPrepended(s, t, b, ds, f, kind, sites);
    }
  }

  lemma PhiPrepended(s: State, t: State, b: Block, ds: DefSite, f: Node, kind: Kind, sites: seq<DefSite>)
    requires b in s.info && b in s.blocks && b in s.prog.code && s.info[b].processed && f !in s.nodes && kind == Phi
    requires PhiAdded(s, t, b, ds, f, kind, sites) && BlockShape(s, b)
    ensures b in t.blocks && b in t.info && BlockShape(t, b)
  {
    hide SomeSite, NodesAt, Definitions.Valid;
    var k := |s.blocks[b]| - |s.prog.code[b]|;
    assert t.blocks[b][k + 1..] == s.blocks[b][k..];
    forall i | 0 <= i < k + 1
      ensures t.blocks[b][i] in t.nodes && t.nodes[t.blocks[b][i]].kind == Phi && t.blocks[b][i] in t.where_
      ensures t.where_[t.blocks[b][i]] == b
    {
      assert i > 0 ==> t.blocks[b][i] == s.blocks[b][i - 1];
    }
  }

  lemma PhiAddedNode(s: State, t: State, b: Block, ds: DefSite, f: Node, kind: Kind, sites: seq<DefSite>, g: Node)
    requires b in s.info && b in s.blocks && PhiAllowed(s, b, ds, f, kind)
    requires PhiAdded(s, t, b, ds, f, kind, sites)
    requires g == f || (g in s.nodes && PhiShape(s, g))
    ensures g in t.nodes && PhiShape(t, g)
  {
    hide SomeSite;
  }

  lemma PhiAddedKills(s: State, t: State, b: Block, ds: DefSite, f: Node, kind: Kind, sites: seq<DefSite>)
    requires b in s.info && b in s.blocks && s.info[b].processed && PhiAllowed(s, b, ds, f, kind)
    requires Shape(s) && UndefinedIn(s.info[b].kills, ds, sites) && PhiAdded(s, t, b, ds, f, kind, sites)
    ensures Extends(s, t)
    ensures forall c, l: Loc :: KillsAtEnd(t, c, l) <==> KillsAtEnd(s, c, l) || (c == b && SomeSite(sites, l))
    ensures forall c, l: Loc ::
      DefsAtEnd(t, c, l) == DefsAtEnd(s, c, l) + (if c == b && SomeSite(sites, l) then {f} else {})
    ensures forall l: Loc :: ds.Has(l) ==> KillsAtEnd(t, b, l) && PhiAt(t, f, b, l)
  {
    hide *;
    forall c, l: Loc
      ensures KillsAtEnd(t, c, l) <==> KillsAtEnd(s, c, l) || (c == b && SomeSite(sites, l))
      ensures DefsAtEnd(t, c, l) == DefsAtEnd(s, c, l) + (if c == b && SomeSite(sites, l) then {f} else {})
    {
      AddedView(s, t, b, ds, f, kind, sites, c, l);
    }
    forall l: Loc | ds.Has(l) ensures KillsAtEnd(s, b, l) || SomeSite(sites, l) {
      AllKilled(s, b, ds, sites, l);
    }
    AddedExtends(s, t, b, ds, f, kind, sites);
  }

  lemma AddedExtends(s: State, t: State, b: Block, ds: DefSite, f: Node, kind: Kind, sites: seq<DefSite>)
    requires b in s.info && b in s.blocks && PhiAllowed(s, b, ds, f, kind)
    requires Shape(s) && PhiAdded(s, t, b, ds, f, kind, sites)
    requires forall c, l: Loc :: KillsAtEnd(s, c, l) ==> KillsAtEnd(t, c, l)
    ensures Extends(s, t)
    ensures forall l: Loc :: ds.Has(l) ==> PhiAt(t, f, b, l)
  {
    hide Shape, KillsAtEnd, SomeSite, NodesAt;
    PhiAddedKeys(s, t, b, ds, f, kind, sites);
    assert t.nodes[f] == RWNode([], [ds], [], kind) && t.where_[f] == b && t.inputs == s.inputs;
    hide PhiAdded, PhiAllowed;
  }

  lemma AddedView(s: State, t: State, b: Block, ds: DefSite, f: Node, kind: Kind, sites: seq<DefSite>, c: Block, l: Loc)
    requires b in s.info && b in s.blocks && s.info[b].processed
    requires PhiAdded(s, t, b, ds, f, kind, sites)
    ensures KillsAtEnd(t, c, l) <==> KillsAtEnd(s, c, l) || (c == b && SomeSite(sites, l))
    ensures DefsAtEnd(t, c, l) == DefsAtEnd(s, c, l) + (if c == b && SomeSite(sites, l) then {f} else {})
  {
    hide SomeSite, NodesAt, DefsAfter, Kills;
  }

  lemma AllKilled(s: State, b: Block, ds: DefSite, sites: seq<DefSite>, l: Loc)
    requires b in s.info && s.info[b].processed && UndefinedIn(s.info[b].kills, ds, sites) && ds.Has(l)
    ensures KillsAtEnd(s, b, l) || SomeSite(sites, l)
  {
    hide NodesAt;
  }

  /** Under the hypothesis on accesses, the sites are nothing or the cell itself. */
  lemma CellSites(s: State, b: Block, ds: DefSite, sites: seq<DefSite>, l: Loc)
    requires Shape(s) && CellState(s) && b in s.info && s.info[b].processed
    requires s.prog.Cell(ds) && UndefinedIn(s.info[b].kills, ds, sites)
    ensures SomeSite(sites, l) <==> ds.Has(l) && !KillsAtEnd(s, b, l)
    ensures ds.Has(l) ==> if KillsAtEnd(s, b, l) then sites == []
                          else |sites| == 1 && sites[0].target == ds.target && sites[0].Bytes() == ds.Bytes()
  {
    hide *;
    UniformCell(s, b, ds);
    ProcessedKills(s, b);
    UniformSites(s.info[b].kills, ds, sites);
  }

  lemma ProcessedKills(s: State, b: Block)
    requires b in s.info && s.info[b].processed
    ensures forall l: Loc :: KillsAtEnd(s, b, l) <==> NodesAt(s.info[b].kills, l) != {}
  {
    hide NodesAt;
  }

  lemma UniformCell(s: State, b: Block, ds: DefSite)
    requires Shape(s) && CellState(s) && s.prog.Cell(ds)
    ensures forall k: Loc, k': Loc :: ds.Has(k) && ds.Has(k') ==> (KillsAtEnd(s, b, k) <==> KillsAtEnd(s, b, k'))
  {
    hide Shape, CacheAgrees, KillsAtEnd;
  }

  lemma UniformSites(m: DefinitionsMap, ds: DefSite, sites: seq<DefSite>)
    requires UndefinedIn(m, ds, sites)
    requires forall k: Loc, k': Loc :: ds.Has(k) && ds.Has(k') ==> (NodesAt(m, k) != {} <==> NodesAt(m, k') != {})
    ensures forall l: Loc :: SomeSite(sites, l) <==> ds.Has(l) && NodesAt(m, l) == {}
    ensures forall l: Loc :: ds.Has(l) ==>
      if NodesAt(m, l) != {} then sites == []
      else |sites| == 1 && sites[0].target == ds.target && sites[0].Bytes() == ds.Bytes()
  {
    hide NodesAt, UndefinedIn, SomeSite;
    if exists l: Loc :: ds.Has(l) && NodesAt(m, l) != {} {
      AllDefined(m, ds, sites);
    } else {
      NoneDefined(m, ds, sites);
    }
  }

  lemma AllDefined(m: DefinitionsMap, ds: DefSite, sites: seq<DefSite>)
    requires UndefinedIn(m, ds, sites) && forall l: Loc :: ds.Has(l) ==> NodesAt(m, l) != {}
    ensures sites == [] && forall l: Loc :: !SomeSite(sites, l)
  {
    hide NodesAt;
    assert |sites| > 0 ==> sites[0].Has(Loc(ds.target, sites[0].offset));
  }

  lemma NoneDefined(m: DefinitionsMap, ds: DefSite, sites: seq<DefSite>)
    requires UndefinedIn(m, ds, sites) && forall l: Loc :: ds.Has(l) ==> NodesAt(m, l) == {}
    ensures |sites| == 1 && sites[0].target == ds.target && sites[0].Bytes() == ds.Bytes()
    ensures forall l: Loc :: SomeSite(sites, l) <==> ds.Has(l)
  {
    hide NodesAt, UndefinedIn, DefSite.Bytes;
    OneSite(m, ds, sites);
    forall l: Loc ensures SomeSite(sites, l) <==> sites[0].Has(l) {}
  }

  lemma OneSite(m: DefinitionsMap, ds: DefSite, sites: seq<DefSite>)
    requires UndefinedIn(m, ds, sites) && forall l: Loc :: ds.Has(l) ==> NodesAt(m, l) == {}
    ensures |sites| == 1 && sites[0].target == ds.target && sites[0].Bytes() == ds.Bytes()
  {
    hide NodesAt, DefSite.Bytes;
  }

  lemma PhiAddedCells(s: State, t: State, b: Block, ds: DefSite, f: Node, kind: Kind, sites: seq<DefSite>)
    requires Shape(s) && s.prog.EqualOrDisjoint() && CellState(s)
    requires b in s.info && b in s.blocks && s.info[b].processed && PhiAllowed(s, b, ds, f, kind)
    requires UndefinedIn(s.info[b].kills, ds, sites) && PhiAdded(s, t, b, ds, f, kind, sites)
    requires Shape(t)
    ensures CellState(t)
  {
    hide Shape, PhiAdded, PhiAllowed, KillsAtEnd, DefsAtEnd, SomeSite, CacheAgrees, UndefinedIn, PhiAt, Program.Cell;
    hide Program.EqualOrDisjoint;
    PhiAddedKills(s, t, b, ds, f, kind, sites);
    AllowedCell(s, b, ds, f, kind);
    PhiAddedSites(s, t, b, ds, f, kind, sites);
    forall l: Loc ensures SomeSite(sites, l) <==> ds.Has(l) && !KillsAtEnd(s, b, l) { CellSites(s, b, ds, sites, l); }
    forall c, l: Loc | c in t.prog.code ensures CacheAgrees(t, c, l) {
      PhiAddedCache(s, t, b, ds, f, sites, c, l);
    }
    forall c, d: DefSite, l: Loc, l': Loc | t.prog.Cell(d) && d.Has(l) && d.Has(l')
      ensures KillsAtEnd(t, c, l) <==> KillsAtEnd(t, c, l')
    {
      assert KillsAtEnd(s, c, l) <==> KillsAtEnd(s, c, l');
      if ds.Has(l) { s.prog.CellsOverlap(d, ds, l, l'); }
      if ds.Has(l') { s.prog.CellsOverlap(d, ds, l', l); }
    }
  }

  lemma PhiAddedSites(s: State, t: State, b: Block, ds: DefSite, f: Node, kind: Kind, sites: seq<DefSite>)
    requires Shape(s) && Shape(t) && CellState(s) && s.prog.Cell(ds)
    requires b in s.info && b in s.blocks && PhiAllowed(s, b, ds, f, kind) && PhiAdded(s, t, b, ds, f, kind, sites)
    ensures forall g :: g in t.nodes && g !in t.prog.nodes ==>
      |t.nodes[g].overwrites| == 1 && t.prog.Cell(t.nodes[g].overwrites[0])
  {
    hide Static, BlockShape, SomeSite, Program.Cell, CacheAgrees, KillsAtEnd;
  }

  lemma AllowedCell(s: State, b: Block, ds: DefSite, f: Node, kind: Kind)
    requires PhiAllowed(s, b, ds, f, kind) && s.prog.EqualOrDisjoint()
    ensures s.prog.Cell(ds)
  {
  }

  lemma PhiAddedCache(s: State, t: State, b: Block, ds: DefSite, f: Node, sites: seq<DefSite>, c: Block, l: Loc)
    requires Extends(s, t) && c in s.prog.code && CacheAgrees(s, c, l)
    requires KillsAtEnd(t, c, l) <==> KillsAtEnd(s, c, l) || (c == b && SomeSite(sites, l))
    requires DefsAtEnd(t, c, l) == DefsAtEnd(s, c, l) + (if c == b && SomeSite(sites, l) then {f} else {})
    requires SomeSite(sites, l) ==> ds.Has(l) && !KillsAtEnd(s, b, l) && PhiAt(t, f, b, l)
    ensures CacheAgrees(t, c, l)
  {
    hide KillsAtEnd, DefsAtEnd, DefsAfter, Kills, SomeSite;
    forall g | PhiAt(s, g, c, l) ensures PhiAt(t, g, c, l) {}
  }

  // ---- what is found in one block

  lemma {:induction false} UniformCode(prog: Program, ns: seq<Node>, ds: DefSite, l: Loc, l': Loc)
    requires prog.EqualOrDisjoint() && prog.Cell(ds) && ds.Has(l) && ds.Has(l')
    ensures DefsAfter(prog.nodes, ns, l) == DefsAfter(prog.nodes, ns, l')
    ensures Kills(prog.nodes, ns, l) <==> Kills(prog.nodes, ns, l')
  {
    hide *;
    forall n | n in prog.nodes
      ensures prog.nodes[n].Strong(l) <==> prog.nodes[n].Strong(l')
      ensures prog.nodes[n].Weak(l) <==> prog.nodes[n].Weak(l')
    {
      prog.CellIsUniform(ds, l, l', n);
    }
    SameAccesses(prog.nodes, ns, l, l');
  }

  lemma {:induction false} SameAccesses(nodes: map<Node, RWNode>, ns: seq<Node>, l: Loc, l': Loc)
    requires forall n :: n in nodes ==>
      (nodes[n].Strong(l) <==> nodes[n].Strong(l')) && (nodes[n].Weak(l) <==> nodes[n].Weak(l'))
    ensures DefsAfter(nodes, ns, l) == DefsAfter(nodes, ns, l')
    ensures Kills(nodes, ns, l) <==> Kills(nodes, ns, l')
  {
    if ns != [] {
      SameAccesses(nodes, ns[..|ns| - 1], l, l');
    }
  }

  /** A phi node of a cell is one for all its bytes. */
  lemma PhiOfCell(s: State, f: Node, b: Block, ds: DefSite, l: Loc, l': Loc)
    requires Shape(s) && s.prog.EqualOrDisjoint() && CellState(s) && s.prog.Cell(ds) && ds.Has(l) && ds.Has(l')
    requires PhiAt(s, f, b, l)
    ensures PhiAt(s, f, b, l') && b in s.prog.preds && |s.prog.preds[b]| != 1
  {
    PhiIsNew(s, f);
    hide Shape, CacheAgrees, KillsAtEnd;
    s.prog.CellsOverlap(ds, s.nodes[f].overwrites[0], l, l');
  }

  lemma PhiIsNew(s: State, f: Node)
    requires Shape(s) && IsPhiNode(s, f)
    ensures f !in s.prog.nodes && PhiShape(s, f)
  {
    hide BlockShape;
  }

  /** What a block's cache and, for the rest, the search from its entry give. */
  ghost predicate FoundInBlock(s: State, t: State, b: Block, ds: DefSite, G: set<Node>, sites: seq<DefSite>,
                               Rs: set<Node>)
  {
    && Shape(s) && s.prog.EqualOrDisjoint() && CellState(s) && s.prog.Cell(ds)
    && b in s.info && s.info[b].processed && Extends(s, t)
    && (forall n :: n in G <==> exists l: Loc :: ds.Has(l) && n in NodesAt(s.info[b].definitions, l))
    && UndefinedIn(s.info[b].kills, ds, sites)
    && (sites == [] ==> Rs == {})
    && (|sites| == 1 ==> RightEntry(t, Rs, b, sites[0]))
  }

  lemma BlockLookup(s: State, t: State, b: Block, ds: DefSite, G: set<Node>, sites: seq<DefSite>, Rs: set<Node>)
    requires FoundInBlock(s, t, b, ds, G, sites, Rs)
    ensures Right(t, G + Rs, b, ds)
  {
    hide FoundInBlock, Covers, Justified, Static;
    FoundIsStatic(s, t, b, ds, G, sites, Rs);
    forall l: Loc | ds.Has(l)
      ensures Covers(t, G + Rs, b, l) && forall n :: n in G + Rs ==> Justified(t, n, b, l)
    {
      LookupBytes(s, t, b, ds, G, sites, Rs, l);
    }
  }

  lemma FoundIsStatic(s: State, t: State, b: Block, ds: DefSite, G: set<Node>, sites: seq<DefSite>, Rs: set<Node>)
    requires FoundInBlock(s, t, b, ds, G, sites, Rs)
    ensures Static(t) && b in t.prog.preds
  {
    hide CellState, BlockShape, PhiShape, UndefinedIn;
  }

  lemma LookupBytes(s: State, t: State, b: Block, ds: DefSite, G: set<Node>, sites: seq<DefSite>, Rs: set<Node>, l: Loc)
    requires FoundInBlock(s, t, b, ds, G, sites, Rs) && ds.Has(l)
    ensures Covers(t, G + Rs, b, l) && forall n :: n in G + Rs ==> Justified(t, n, b, l)
  {
    hide Shape, CellState, UndefinedIn, NodesAt, CacheAgrees;
    CellSites(s, b, ds, sites, l);
    CacheOf(s, b, l);
    if KillsAtEnd(s, b, l) {
      assert G + Rs == G;
      LookupKilled(s, t, b, ds, G, l);
    } else {
      LookupThrough(s, t, b, ds, G, Rs, sites[0], l);
    }
  }

  ghost predicate Gathered(s: State, b: Block, ds: DefSite, G: set<Node>) {
    && Shape(s) && s.prog.EqualOrDisjoint() && CellState(s) && s.prog.Cell(ds)
    && b in s.info && s.info[b].processed
    && (forall n :: n in G <==> exists l: Loc :: ds.Has(l) && n in NodesAt(s.info[b].definitions, l))
  }

  lemma LookupKilled(s: State, t: State, b: Block, ds: DefSite, G: set<Node>, l: Loc)
    requires Gathered(s, b, ds, G) && Extends(s, t) && ds.Has(l) && KillsAtEnd(s, b, l)
    ensures Covers(t, G, b, l) && forall n :: n in G ==> Justified(t, n, b, l)
  {
    hide Shape, CellState, NodesAt, KillsAtEnd, DefsAfter, Kills;
    CacheOf(s, b, l);
    assert DefsAtEnd(s, b, l) <= G;
    forall n | n in G ensures Justified(t, n, b, l) {
      var l': Loc :| ds.Has(l') && n in NodesAt(s.info[b].definitions, l');
      CacheOf(s, b, l');
      UniformCode(s.prog, s.prog.code[b], ds, l, l');
      if n !in DefsAfter(s.prog.nodes, s.prog.code[b], l) {
        PhiOfCell(s, n, b, ds, l', l);
        assert PhiAt(t, n, b, l);
      }
    }
    if !Kills(s.prog.nodes, s.prog.code[b], l) {
      var f :| f in DefsAtEnd(s, b, l) && PhiAt(s, f, b, l);
      PhiOfCell(s, f, b, ds, l, l);
      assert f in G && PhiAt(t, f, b, l);
    }
  }

  lemma CacheOf(s: State, b: Block, l: Loc)
    requires Shape(s) && CellState(s) && b in s.info
    ensures b in s.prog.preds && b in s.prog.code && CacheAgrees(s, b, l)
    ensures Static(s)
  {
    hide CacheAgrees, KillsAtEnd, BlockShape, PhiShape;
  }

  lemma LookupThrough(s: State, t: State, b: Block, ds: DefSite, G: set<Node>, Rs: set<Node>, site: DefSite, l: Loc)
    requires Gathered(s, b, ds, G) && Extends(s, t) && ds.Has(l) && !KillsAtEnd(s, b, l)
    requires site.target == ds.target && site.Bytes() == ds.Bytes()
    requires b in t.prog.preds && Static(t) && RightEntry(t, Rs, b, site)
    ensures Covers(t, G + Rs, b, l) && forall n :: n in G + Rs ==> Justified(t, n, b, l)
  {
    hide Shape, CellState, NodesAt, KillsAtEnd, DefsAfter, Kills, Program.Cell, DefSite.Bytes;
    UniformCell(s, b, ds);
    CacheOf(s, b, l);
    assert site.Has(l);
    assert DefsAtEnd(s, b, l) <= G;
    forall n | n in G ensures n in DefsAfter(s.prog.nodes, s.prog.code[b], l) {
      var l': Loc :| ds.Has(l') && n in NodesAt(s.info[b].definitions, l');
      CacheOf(s, b, l');
      UniformCode(s.prog, s.prog.code[b], ds, l, l');
    }
    CoversExtends(t, t, Rs, G + Rs, b, l);
  }

  // ---- phi operands

  /** With the operands of f found, f is not open any more. */
  lemma ClosePhi(s: State, t: State, f: Node, ops: set<Node>, open: set<Node>)
    requires Inv(s, open + {f}) && f !in open && f in s.nodes && s.nodes[f].kind == Phi && ops <= s.nodes.Keys
    requires t == s.(defuse := s.defuse[f := ops])
    requires ClosesPhi(s, f, ops)
    ensures Inv(t, open) && Extends(s, t)
  {
    hide *;
    InvShape(s, open + {f});
    InvCells(s, open + {f});
    InvOpen(s, open + {f});
    CloseExtends(s, t, f, ops, open);
    CloseShape(s, t, f, ops);
    CloseOpen(s, t, f, ops, open);
    CloseInfo(s, t, f, ops);
    if s.prog.EqualOrDisjoint() {
      CloseCells(s, t, f, ops);
      ClosedOthers(s, t, f, ops, open);
    }
    InvParts(t, open);
  }

  ghost predicate ClosesPhi(s: State, f: Node, ops: set<Node>) {
    && Static(s) && f in s.where_ && s.where_[f] in s.prog.preds && f in s.nodes && |s.nodes[f].overwrites| == 1
    && (forall i :: 0 <= i < |s.prog.preds[s.where_[f]]| ==> s.prog.preds[s.where_[f]][i] in s.prog.preds)
    && (s.prog.EqualOrDisjoint() ==> OperandsRight(s, s.prog.preds[s.where_[f]], s.nodes[f].overwrites[0], ops))
  }

  lemma CloseExtends(s: State, t: State, f: Node, ops: set<Node>, open: set<Node>)
    requires Inv(s, open + {f}) && f in s.nodes && s.nodes[f].kind == Phi && t == s.(defuse := s.defuse[f := ops])
    ensures Extends(s, t)
  {
    hide *;
    PhiOpen(s, f, open + {f});
    CloseKills(s, t, f, ops);
    CloseFields(s, t, f, ops);
  }

  lemma PhiOpen(s: State, f: Node, open: set<Node>)
    requires Inv(s, open) && f in open && f in s.nodes && s.nodes[f].kind == Phi
    ensures f !in s.prog.nodes && f !in s.defuse
  {
    hide CellState, PhiClosed, UseRight, BlockShape, InfoNodes, NodesAt, DefsAfter, Kills;
  }

  lemma CloseKills(s: State, t: State, f: Node, ops: set<Node>)
    requires t == s.(defuse := s.defuse[f := ops])
    ensures forall b, l: Loc :: KillsAtEnd(s, b, l) <==> KillsAtEnd(t, b, l)
    ensures forall b, l: Loc :: DefsAtEnd(s, b, l) == DefsAtEnd(t, b, l)
  {
    hide NodesAt, DefsAfter, Kills;
  }

  lemma CloseFields(s: State, t: State, f: Node, ops: set<Node>)
    requires t == s.(defuse := s.defuse[f := ops]) && f !in s.defuse
    requires forall b, l: Loc :: KillsAtEnd(s, b, l) <==> KillsAtEnd(t, b, l)
    ensures Extends(s, t)
  {
    hide KillsAtEnd;
  }

  lemma CloseShape(s: State, t: State, f: Node, ops: set<Node>)
    requires Shape(s) && f in s.nodes && ops <= s.nodes.Keys && t == s.(defuse := s.defuse[f := ops])
    ensures Shape(t)
  {
    hide Shape, BlockShape, PhiShape, Static;
    ShapeFacts(s);
    StaticSame(s, t);
    forall b | b in t.blocks ensures b in t.prog.code && b in t.info && BlockShape(t, b) {
      ShapeOfBlock(s, b);
      CloseBlock(s, t, b, f, ops);
    }
    forall g | g in t.nodes && g !in t.prog.nodes ensures PhiShape(t, g) {
      ShapeOfPhi(s, g);
      ClosePhiShape(s, t, g, f, ops);
    }
    ShapeFrom(t);
  }

  lemma CloseBlock(s: State, t: State, b: Block, f: Node, ops: set<Node>)
    requires t == s.(defuse := s.defuse[f := ops])
    requires b in s.blocks && b in s.prog.code && b in s.info && BlockShape(s, b)
    ensures BlockShape(t, b)
  {
  }

  lemma ClosePhiShape(s: State, t: State, g: Node, f: Node, ops: set<Node>)
    requires t == s.(defuse := s.defuse[f := ops]) && g in s.nodes && PhiShape(s, g)
    ensures PhiShape(t, g)
  {
  }

  lemma CloseInfo(s: State, t: State, f: Node, ops: set<Node>)
    requires InfoNodes(s) && t == s.(defuse := s.defuse[f := ops])
    ensures InfoNodes(t)
  {
    hide NodesAt;
  }

  lemma CloseCells(s: State, t: State, f: Node, ops: set<Node>)
    requires Shape(s) && Shape(t) && CellState(s) && t == s.(defuse := s.defuse[f := ops])
    ensures CellState(t)
  {
    hide Shape, KillsAtEnd, DefsAtEnd, DefsAfter, Kills;
    CloseKills(s, t, f, ops);
    forall b, l: Loc | b in t.prog.code ensures CacheAgrees(t, b, l) {
      assert CacheAgrees(s, b, l);
      assert forall g :: PhiAt(s, g, b, l) <==> PhiAt(t, g, b, l);
    }
  }

  lemma CloseOpen(s: State, t: State, f: Node, ops: set<Node>, open: set<Node>)
    requires Inv(s, open + {f}) && f !in open && t == s.(defuse := s.defuse[f := ops])
    ensures forall g :: g in t.nodes && g !in t.prog.nodes && g in open ==> t.nodes[g].kind == Phi && g !in t.defuse
  {
    hide Shape, CellState, PhiClosed, UseRight, InfoNodes;
  }

  lemma ClosedOthers(s: State, t: State, f: Node, ops: set<Node>, open: set<Node>)
    requires Inv(s, open + {f}) && f in s.nodes && s.nodes[f].kind == Phi && t == s.(defuse := s.defuse[f := ops])
    requires Shape(t) && Extends(s, t) && s.prog.EqualOrDisjoint() && ClosesPhi(s, f, ops)
    ensures forall g :: g in t.nodes && g !in t.prog.nodes && g !in open ==> PhiClosed(t, g)
    ensures forall b, i :: b in t.prog.code && 0 <= i < |t.prog.code[b]| && t.prog.code[b][i] in t.defuse ==>
      UseRight(t, t.defuse[t.prog.code[b][i]], t.prog.code[b][i], b, i)
  {
    hide Covers, CoversEntry, Justified, JustifiedEntry, CellState, Extends, Shape;
    InvShape(s, open + {f});
    ClosedPhis(s, t, f, ops, open);
    ClosedUses(s, t, f, ops, open);
  }

  lemma ClosedPhis(s: State, t: State, f: Node, ops: set<Node>, open: set<Node>)
    requires Inv(s, open + {f}) && f in s.nodes && s.nodes[f].kind == Phi && t == s.(defuse := s.defuse[f := ops])
    requires Shape(t) && Extends(s, t) && s.prog.EqualOrDisjoint() && ClosesPhi(s, f, ops)
    ensures forall g :: g in t.nodes && g !in t.prog.nodes && g !in open ==> PhiClosed(t, g)
  {
    hide Covers, CoversEntry, Justified, JustifiedEntry, CellState, Extends, UseRight, BlockShape, PhiShape;
    forall g | g in t.nodes && g !in t.prog.nodes && g !in open ensures PhiClosed(t, g) {
      if g == f {
        OperandsExtend(s, t, s.prog.preds[s.where_[f]], s.nodes[f].overwrites[0], ops);
      } else {
        PhiClosedExtends(s, t, g);
      }
    }
  }

  lemma ClosedUses(s: State, t: State, f: Node, ops: set<Node>, open: set<Node>)
    requires Inv(s, open + {f}) && f in s.nodes && s.nodes[f].kind == Phi && t == s.(defuse := s.defuse[f := ops])
    requires Shape(t) && Extends(s, t) && s.prog.EqualOrDisjoint()
    ensures forall b, i :: b in t.prog.code && 0 <= i < |t.prog.code[b]| && t.prog.code[b][i] in t.defuse ==>
      UseRight(t, t.defuse[t.prog.code[b][i]], t.prog.code[b][i], b, i)
  {
    hide Covers, CoversEntry, Justified, JustifiedEntry, CellState, Extends, PhiClosed, BlockShape, PhiShape;
    forall b, i | b in t.prog.code && 0 <= i < |t.prog.code[b]| && t.prog.code[b][i] in t.defuse
      ensures UseRight(t, t.defuse[t.prog.code[b][i]], t.prog.code[b][i], b, i)
    {
      assert t.prog.code[b][i] != f;
      UseRightExtends(s, t, s.defuse[s.prog.code[b][i]], s.prog.code[b][i], b, i);
    }
  }

  lemma InvParts(t: State, open: set<Node>)
    requires Shape(t) && InfoNodes(t) && open <= t.nodes.Keys
    requires forall g :: g in t.nodes && g !in t.prog.nodes && g in open ==> t.nodes[g].kind == Phi && g !in t.defuse
    requires t.prog.EqualOrDisjoint() ==>
      && CellState(t)
      && (forall g :: g in t.nodes && g !in t.prog.nodes && g !in open ==> PhiClosed(t, g))
      && (forall b, i :: b in t.prog.code && 0 <= i < |t.prog.code[b]| && t.prog.code[b][i] in t.defuse ==>
            UseRight(t, t.defuse[t.prog.code[b][i]], t.prog.code[b][i], b, i))
    ensures Inv(t, open)
  {
    hide CellState, PhiClosed, UseRight, InfoNodes;
  }

  /** Adding what is right for the end of one more predecessor. */
  lemma OperandsStep(s: State, t: State, ps: seq<Block>, k: nat, ds: DefSite, ops: set<Node>, R: set<Node>)
    requires Static(s) && Extends(s, t) && k < |ps| && forall i :: 0 <= i < |ps| ==> ps[i] in s.prog.preds
    requires OperandsRight(s, ps[..k], ds, ops) && Right(t, R, ps[k], ds)
    ensures OperandsRight(t, ps[..k + 1], ds, ops + R)
  {
    OperandsExtend(s, t, ps[..k], ds, ops);
    hide Covers, CoversEntry, Justified, JustifiedEntry, Static, KillsAtEnd;
    var qs := ps[..k + 1];
    OperandsCovered(s, t, ps, k, ds, ops, R);
    forall n, l: Loc | n in ops + R && ds.Has(l) ensures exists i :: 0 <= i < |qs| && Justified(t, n, qs[i], l) {
      if n in ops {
        var i :| 0 <= i < |ps[..k]| && Justified(t, n, ps[..k][i], l);
        assert qs[i] == ps[..k][i];
      } else {
        assert qs[k] == ps[k];
      }
    }
  }

  lemma OperandsCovered(s: State, t: State, ps: seq<Block>, k: nat, ds: DefSite, ops: set<Node>, R: set<Node>)
    requires Static(s) && Static(t) && Extends(s, t) && k < |ps| && forall i :: 0 <= i < |ps| ==> ps[i] in s.prog.preds
    requires t.prog == s.prog && OperandsCover(t, ps[..k], ds, ops)
    requires forall l: Loc :: ds.Has(l) ==> Covers(t, R, ps[k], l)
    ensures OperandsCover(t, ps[..k + 1], ds, ops + R)
  {
    hide Covers, Static, Extends;
    var qs := ps[..k + 1];
    ExtendsReflexive(t);
    forall i, l: Loc | 0 <= i < |qs| && ds.Has(l) ensures Covers(t, ops + R, qs[i], l) {
      if i < k {
        assert ps[..k][i] == qs[i];
        CoversExtends(t, t, ops, ops + R, qs[i], l);
      } else {
        CoversExtends(t, t, R, ops + R, qs[i], l);
      }
    }
  }

  /** For programs whose accesses are equal or disjoint. */
  ghost predicate OperandsExact(s: State, ps: seq<Block>, ds: DefSite, ops: set<Node>) {
    s.prog.EqualOrDisjoint() ==>
      Static(s) && (forall i :: 0 <= i < |ps| ==> ps[i] in s.prog.preds) && OperandsRight(s, ps, ds, ops)
  }

  ghost predicate RightAtEnd(s: State, R: set<Node>, b: Block, ds: DefSite) {
    s.prog.EqualOrDisjoint() ==> Static(s) && b in s.prog.preds && Right(s, R, b, ds)
  }

  ghost predicate RightAtEntry(s: State, R: set<Node>, b: Block, ds: DefSite) {
    s.prog.EqualOrDisjoint() ==> Static(s) && b in s.prog.preds && RightEntry(s, R, b, ds)
  }

  /** The only site of a cell that is uncovered. */
  ghost predicate SitesRight(s: State, R: set<Node>, b: Block, sites: seq<DefSite>) {
    s.prog.EqualOrDisjoint() ==> Static(s) && b in s.prog.preds && (|sites| == 1 ==> RightEntry(s, R, b, sites[0]))
  }

  lemma RightSites(s: State, R: set<Node>, b: Block, sites: seq<DefSite>)
    requires SitesRight(s, R, b, sites)
    ensures s.prog.EqualOrDisjoint() ==>
      Static(s) && b in s.prog.preds && (|sites| == 1 ==> RightEntry(s, R, b, sites[0]))
  {
    hide RightEntry, Static, Program.EqualOrDisjoint;
  }

  lemma OperandsNone(s: State, ds: DefSite)
    requires Static(s)
    ensures OperandsExact(s, [], ds, {})
  {
  }

  lemma OperandsExactStep(s: State, t: State, ps: seq<Block>, k: nat, ds: DefSite, ops: set<Node>, R: set<Node>)
    requires Static(s) && Static(t) && Extends(s, t) && k < |ps| && t.prog == s.prog
    requires forall i :: 0 <= i < |ps| ==> ps[i] in s.prog.preds
    requires OperandsExact(s, ps[..k], ds, ops) && RightAtEnd(t, R, ps[k], ds)
    ensures OperandsExact(t, ps[..k + 1], ds, ops + R)
  {
    hide OperandsRight, Right, Static, Extends, Program.EqualOrDisjoint;
    if s.prog.EqualOrDisjoint() { OperandsStep(s, t, ps, k, ds, ops, R); }
  }

  lemma RightAtJoin(s: State, R: set<Node>, b: Block, ds: DefSite)
    requires Static(s) && b in s.prog.preds && |s.prog.preds[b]| != 1
    requires (s.prog.preds[b] == [] && ds.target !in s.inputs) || R != {}
    requires forall f, l: Loc :: f in R && ds.Has(l) ==> PhiAt(s, f, b, l)
    ensures RightAtEntry(s, R, b, ds)
  {
  }

  lemma RightThrough(s: State, R: set<Node>, b: Block, ds: DefSite)
    requires Static(s) && b in s.prog.preds && |s.prog.preds[b]| == 1 && s.prog.preds[b][0] in s.prog.preds
    requires RightAtEnd(s, R, s.prog.preds[b][0], ds)
    ensures RightAtEntry(s, R, b, ds)
  {
  }

  // ---- the measure

  lemma AgainSame(s: State, t: State, b: Block, ds: DefSite)
    requires Extends(s, t) && b in s.info && b in s.prog.preds
    requires Unkilled(s, ds.target) <= Unkilled(t, ds.target)
    ensures Again(s, b, ds) == Again(t, b, ds)
  {
    if l: Loc :| ds.Has(l) && !KillsAtEnd(s, b, l) {
      assert l == Loc(ds.target, l.byte);
      assert (b, l.byte) in Unkilled(s, ds.target);
      assert (b, l.byte) in Unkilled(t, ds.target);
    }
  }

  lemma SitesAreFresh(s: State, b: Block, ds: DefSite, sites: seq<DefSite>)
    requires b in s.info && s.info[b].processed && b in s.prog.preds && UndefinedIn(s.info[b].kills, ds, sites)
    ensures forall i :: 0 <= i < |sites| ==> Again(s, b, sites[i]) == 0
  {
    forall i | 0 <= i < |sites| ensures Again(s, b, sites[i]) == 0 {
      var l := Loc(ds.target, sites[i].offset);
      assert sites[i].Has(l) && !KillsAtEnd(s, b, l);
    }
  }

  /** The parts of a cell that a block leaves uncovered are cells. */
  lemma SitesAreCells(s: State, b: Block, ds: DefSite, sites: seq<DefSite>, open: set<Node>)
    requires Inv(s, open) && b in s.info && s.info[b].processed && ds.Proper()
    requires UndefinedIn(s.info[b].kills, ds, sites)
    requires s.prog.EqualOrDisjoint() && s.prog.Cell(ds)
    ensures |sites| <= 1
    ensures forall i :: 0 <= i < |sites| ==> s.prog.Cell(sites[i])
  {
    hide *;
    InvCells(s, open);
    var l := FirstByte(ds);
    CellSites(s, b, ds, sites, l);
    if |sites| == 1 { SameCell(s.prog, ds, sites[0]); }
  }

  lemma FirstByte(ds: DefSite) returns (l: Loc)
    requires ds.Proper()
    ensures ds.Has(l)
  {
    l := Loc(ds.target, ds.Bytes().start);
  }

  lemma SameCell(prog: Program, c: DefSite, d: DefSite)
    requires prog.Cell(c) && c.target == d.target && c.Bytes() == d.Bytes()
    ensures prog.Cell(d)
  {
  }

  // ---- facts the search uses

  lemma ExtendsReflexive(s: State)
    ensures Extends(s, s)
  {
  }

  lemma ExtendsTransitive(s: State, t: State, u: State)
    requires Extends(s, t) && Extends(t, u)
    ensures Extends(s, u)
  {
    hide KillsAtEnd;
  }

  lemma ExtendsKeys(s: State, t: State)
    requires Extends(s, t)
    ensures s.nodes.Keys <= t.nodes.Keys && s.info.Keys == t.info.Keys
    ensures forall n :: n in s.nodes ==> t.nodes[n] == s.nodes[n]
    ensures forall n :: n in s.where_ ==> n in t.where_ && t.where_[n] == s.where_[n]
  {
    hide KillsAtEnd;
  }

  lemma SameUnkilled(s: State, t: State, target: Node)
    requires SameView(s, t)
    ensures Unkilled(t, target) == Unkilled(s, target)
  {
    hide KillsAtEnd, DefsAtEnd;
  }

  lemma AgainBound(s: State, b: Block, ds: DefSite)
    requires b in s.prog.preds
    ensures Again(s, b, ds) <= 1
  {
    hide Fresh;
  }

  lemma SameAgain(s: State, t: State, b: Block, ds: DefSite)
    requires SameView(s, t) && b in s.prog.preds
    ensures Again(s, b, ds) == Again(t, b, ds)
  {
    hide KillsAtEnd, DefsAtEnd;
    if Fresh(s, b, ds) {
      var l: Loc :| ds.Has(l) && !KillsAtEnd(s, b, l);
      assert !KillsAtEnd(t, b, l);
    }
  }

  /** A new phi node kills something new, unless there was nothing new to kill. */
  lemma PhiKills(s: State, t: State, b: Block, ds: DefSite)
    requires Extends(s, t) && b in s.info && b in s.prog.preds && |s.prog.preds[b]| != 1
    requires forall l: Loc :: ds.Has(l) ==> KillsAtEnd(t, b, l)
    ensures Unkilled(t, ds.target) <= Unkilled(s, ds.target)
    ensures Again(s, b, ds) == 0 ==> Unkilled(t, ds.target) < Unkilled(s, ds.target)
  {
    hide KillsAtEnd, Extends;
    UnkilledShrinks(s, t, ds.target);
    if Fresh(s, b, ds) { UnkilledStrictly(s, t, b, ds); }
  }

  lemma InvStatic(s: State, open: set<Node>)
    requires Inv(s, open)
    ensures Static(s) && s.info.Keys == s.prog.preds.Keys == s.blocks.Keys
  {
    InvShape(s, open);
    hide Inv, BlockShape, PhiShape;
  }

  lemma InvRanks(s: State, b: Block, open: set<Node>)
    requires Inv(s, open) && b in s.prog.preds
    ensures Static(s) && b in s.rank
    ensures |s.prog.preds[b]| == 1 ==>
      var q := s.prog.preds[b][0]; q in s.prog.preds && q in s.rank && s.rank[q] < s.rank[b]
  {
    InvStatic(s, open);
    hide Inv;
  }

  lemma StaticPreds(s: State, b: Block)
    requires Static(s) && b in s.prog.preds
    ensures forall i :: 0 <= i < |s.prog.preds[b]| ==>
      s.prog.preds[b][i] in s.prog.preds && s.prog.preds[b][i] in s.rank
  {
  }

  lemma GatheredNodes(s: State, b: Block, ds: DefSite, G: set<Node>, open: set<Node>)
    requires Inv(s, open) && b in s.info
    requires forall n :: n in G <==> exists l: Loc :: ds.Has(l) && n in NodesAt(s.info[b].definitions, l)
    ensures G <= s.nodes.Keys
  {
    InvShape(s, open);
    hide Inv, Shape, NodesAt;
  }

  lemma SitesSearchable(s: State, b: Block, ds: DefSite, sites: seq<DefSite>, open: set<Node>)
    requires Inv(s, open) && b in s.info && s.info[b].processed && b in s.prog.preds && ds.Proper()
    requires UndefinedIn(s.info[b].kills, ds, sites)
    requires s.prog.EqualOrDisjoint() ==> s.prog.Cell(ds)
    ensures forall i :: 0 <= i < |sites| ==>
      sites[i].Proper() && sites[i].target == ds.target && Again(s, b, sites[i]) == 0
    ensures s.prog.EqualOrDisjoint() ==> |sites| <= 1 && forall i :: 0 <= i < |sites| ==> s.prog.Cell(sites[i])
  {
    SitesAreFresh(s, b, ds, sites);
    hide Inv, Again, NodesAt;
    if s.prog.EqualOrDisjoint() { SitesAreCells(s, b, ds, sites, open); }
  }

  lemma FoundAtEnd(s: State, t: State, b: Block, ds: DefSite, G: set<Node>, sites: seq<DefSite>, Rs: set<Node>,
                   open: set<Node>)
    requires Inv(s, open) && Extends(s, t) && b in s.info && s.info[b].processed && b in t.prog.preds
    requires s.prog.EqualOrDisjoint() ==> s.prog.Cell(ds)
    requires forall n :: n in G <==> exists l: Loc :: ds.Has(l) && n in NodesAt(s.info[b].definitions, l)
    requires UndefinedIn(s.info[b].kills, ds, sites) && (sites == [] ==> Rs == {})
    requires t.prog == s.prog && SitesRight(t, Rs, b, sites)
    ensures RightAtEnd(t, G + Rs, b, ds)
  {
    hide Inv, Shape, CellState, Extends, NodesAt, UndefinedIn, RightEntry, Right, Static, SitesRight;
    RightSites(t, Rs, b, sites);
    if s.prog.EqualOrDisjoint() {
      InvCells(s, open);
      BlockLookup(s, t, b, ds, G, sites, Rs);
    }
  }

  lemma ClosesIntro(s: State, f: Node, b: Block, ds: DefSite, ops: set<Node>)
    requires Static(s) && b in s.prog.preds && f in s.nodes && s.nodes[f] == RWNode([], [ds], [], Phi) && f in s.where_
    requires s.where_[f] == b
    requires forall i :: 0 <= i < |s.prog.preds[b]| ==> s.prog.preds[b][i] in s.prog.preds
    requires OperandsExact(s, s.prog.preds[b], ds, ops)
    ensures ClosesPhi(s, f, ops)
  {
    hide OperandsRight, Static;
  }

  // ---- the state to start from

  ghost predicate Initial(s: State) {
    && Static(s) && s.nodes == s.prog.nodes && s.where_ == map[] && s.blocks == s.prog.code && s.defuse == map[]
    && !s.claimed
    && s.info == map b | b in s.prog.preds :: NoDefinitions
  }

  lemma InitialState(s: State)
    requires Initial(s)
    ensures Inv(s, {})
  {
    InitialShape(s);
    if s.prog.EqualOrDisjoint() { InitialCells(s); }
    hide Shape, CellState, InfoNodes;
    assert s.defuse == map[];
    InvParts(s, {});
  }

  lemma InitialShape(s: State)
    requires Initial(s)
    ensures Shape(s) && InfoNodes(s)
  {
    InitialKeys(s);
    InitialInfo(s);
    hide BlockShape, Static, InfoNodes, Initial;
    forall b | b in s.blocks ensures BlockShape(s, b) { InitialBlock(s, b); }
  }

  lemma InitialKeys(s: State)
    requires Initial(s)
    ensures Static(s) && s.prog.code.Keys == s.prog.preds.Keys == s.info.Keys == s.blocks.Keys
    ensures s.nodes == s.prog.nodes && s.where_ == map[] && s.defuse == map[]
  {
    assert s.prog.code.Keys == s.prog.preds.Keys;
    hide Static;
  }

  lemma InitialInfo(s: State)
    requires Initial(s)
    ensures InfoNodes(s)
  {
    hide NodesAt, Static;
    forall b, l: Loc | b in s.info ensures NodesAt(s.info[b].definitions, l) == {} { NothingDefined(l); }
  }

  lemma NothingDefined(l: Loc)
    ensures NodesAt(NoDefinitions.definitions, l) == {}
  {
  }

  lemma InitialBlock(s: State, b: Block)
    requires Initial(s) && b in s.blocks
    ensures b in s.prog.code && b in s.info && BlockShape(s, b)
  {
  }

  lemma InitialCells(s: State)
    requires Initial(s) && Shape(s) && s.prog.EqualOrDisjoint()
    ensures CellState(s)
  {
    hide Shape, Static, DefsAfter, Kills, NodesAt;
    forall b, l: Loc
      ensures KillsAtEnd(s, b, l) <==> b in s.prog.code && Kills(s.prog.nodes, s.prog.code[b], l)
      ensures b in s.prog.code ==> CacheAgrees(s, b, l)
    {
    }
    hide KillsAtEnd, CacheAgrees;
    forall b, ds: DefSite, l: Loc, l': Loc | s.prog.Cell(ds) && ds.Has(l) && ds.Has(l')
      ensures KillsAtEnd(s, b, l) <==> KillsAtEnd(s, b, l')
    {
      if b in s.prog.code { UniformCode(s.prog, s.prog.code[b], ds, l, l'); }
    }
  }
}
