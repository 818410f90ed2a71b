/** On-demand memory SSA for one procedure without calls: phi nodes are placed
    while the definitions of a use are searched backwards through the blocks. */
module MemorySSA {
  import opened DisjunctiveIntervals
  import opened MemoryDefinitions
  import opened ReachingDefinitions
  import opened MemorySSAState
  import opened MemorySSALemmas
  import opened MemorySSAUses
  import opened MemorySSACorrectness
  import opened MemorySSACoverage
  import opened MemorySSAPrecision
  import opened MemorySSASettled

  /** Local value numbering of a sequence of nodes. */
  method RunLvn(nodes: map<Node, RWNode>, ns: seq<Node>) returns (D: Definitions)
    requires Runnable(nodes, ns)
    ensures D.Valid() && Lvn(nodes, ns, D)
  {
    D := NoDefinitions;
    var k := 0;
    while k < |ns|
      invariant k <= |ns| && D.Valid() && Lvn(nodes, ns[..k], D)
    {
      ghost var was := D;
      D := Update(D, ns[k], nodes[ns[k]]);
      LvnStep(nodes, ns, k, was, D);
      k := k + 1;
    }
    assert ns[..k] == ns;
  }

  /** Let f define and kill the sites. */
  method DefineSites(D: Definitions, sites: seq<DefSite>, f: Node) returns (r: Definitions)
    requires D.Valid() && forall i :: 0 <= i < |sites| ==> sites[i].Proper()
    ensures r.Valid() && r.processed == D.processed
    ensures forall l: Loc ::
      NodesAt(r.definitions, l) == NodesAt(D.definitions, l) + (if SomeSite(sites, l) then {f} else {})
    ensures forall l: Loc :: NodesAt(r.kills, l) == NodesAt(D.kills, l) + (if SomeSite(sites, l) then {f} else {})
  {
    hide NodesAt, WellFormed, SomeSite;
    SomeSiteNone(sites);
    r := D;
    var k := 0;
    while k < |sites|
      invariant k <= |sites| && r.Valid() && r.processed == D.processed
      invariant forall l: Loc ::
        NodesAt(r.definitions, l) == NodesAt(D.definitions, l) + (if SomeSite(sites[..k], l) then {f} else {})
      invariant forall l: Loc ::
        NodesAt(r.kills, l) == NodesAt(D.kills, l) + (if SomeSite(sites[..k], l) then {f} else {})
    {
      SomeSitePrefix(sites, k);
      var m := Put(r.definitions, sites[k], f, false);
      var m' := Put(r.kills, sites[k], f, false);
      r := r.(definitions := m, kills := m');
      k := k + 1;
    }
    assert sites[..k] == sites;
  }

  /** Let f define the bytes of ds that D does not kill. */
  method CoverUncovered(D0: Definitions, ds: DefSite, f: Node) returns (D: Definitions, ghost sites: seq<DefSite>)
    requires D0.Valid() && D0.processed && ds.Proper()
    ensures Covered(D0, D, ds, f, sites) && (Oversteps(ds, sites) <==> WillOverstep(D0.kills, ds))
  {
    var s := UndefinedIntervals(D0.kills, ds);
    D := DefineSites(D0, s, f);
    sites := s;
  }

  class MemorySSATransformation {
    const prog: Program
    const inputs: set<Node>
    ghost const rank: map<Block, nat>
    var nodes: map<Node, RWNode>
    var where_: map<Node, Block>
    var blocks: map<Block, seq<Node>>
    var info: map<Block, Definitions>
    var defuse: map<Node, set<Node>>
    var nextId: nat
    ghost var answered: set<Node>     // the uses whose definitions were searched
    ghost var claimed: bool           // some phi node was given bytes behind its site
    ghost var overstepped: bool       // some report of uncovered bytes passed the end of its site

    constructor (p: Program, ins: set<Node>, firstId: nat)
      requires p.Valid() && p.Connected() && forall n :: n in p.nodes ==> n < firstId
      ensures prog == p && inputs == ins && Ready({}) && answered == {} && !claimed && !overstepped
      ensures Initial(S()) && S().inputs == ins
    {
      hide Inv, Coverage, Precise, Shape, Program.Valid, Program.Connected, Program.Ranked;
      ghost var r := p.RankExists();
      prog, inputs, rank := p, ins, r;
      nodes, where_, blocks, defuse := p.nodes, map[], p.code, map[];
      info := map b | b in p.preds :: NoDefinitions;
      nextId, answered, claimed, overstepped := firstId, {}, false, false;
      new;
      InitialState(S());
      InvShape(S(), {});
      InitialCoverage(S());
      InitialPrecise(S());
    }

    ghost function S(): State
      reads this
    {
      State(prog, rank, inputs, nodes, where_, blocks, info, defuse, claimed)
    }

    /** The invariant while the operands of the phi nodes `open` are searched. */
    ghost predicate Ready(open: set<Node>)
      reads this
    {
      && Inv(S(), open) && Coverage(S(), open) && Precise(S(), overstepped, open)
      && (forall n :: n in nodes ==> n < nextId)
      && (forall n :: n in prog.nodes ==> (n in defuse <==> n in answered))
      && (forall n :: n in prog.nodes && n in defuse && n !in prog.place ==> defuse[n] == {})
    }

    ghost predicate Searchable(ds: DefSite) { ds.Proper() && (prog.EqualOrDisjoint() ==> prog.Cell(ds)) }

    /** The cached definitions of a block; they are computed when they are asked
        for the first time. */
    method GetBBlockDefinitions(b: Block, ghost open: set<Node>)
      requires Ready(open) && b in prog.preds
      modifies this`info
      ensures Ready(open) && SameView(old(S()), S()) && Extends(old(S()), S())
      ensures b in info && info[b].processed && info[b].Valid()
    {
      hide Inv, SameView, Extends, NodesAt, DefsAfter, Kills, Shape, InfoNodes, WellFormed, Sorted, Lvn, Runnable;
      hide Coverage, Precise;
      InvShape(S(), open);
      if info[b].processed {
        SameViewReflexive(S());
        return;
      }
      BlockNodes(S(), b);
      var D := RunLvn(nodes, blocks[b]);
      ghost var t := S().(info := info[b := D.(processed := true)]);
      CachedBlock(S(), t, b, D, open);
      InvShape(t, open);
      SameViewKeepsCoverage(S(), t, open);
      SameViewKeepsPrecise(S(), overstepped, t, open);
      info := info[b := D.(processed := true)];
      assert S() == t;
    }

    /** Create a phi node for ds and let it define, in the cached definitions of
        the block, the bytes that were not covered. A node of kind Phi is also
        prepended to the block. */
    method CreatePhi(b: Block, ds: DefSite, kind: Kind, ghost open: set<Node>)
      returns (f: Node, ghost now: set<Node>, ghost sites: seq<DefSite>)
      requires Ready(open) && b in info && info[b].processed && Searchable(ds) && b in prog.preds
      requires (kind == Phi && |prog.preds[b]| > 1) || (kind == InArg && prog.preds[b] == [] && ds.target in inputs)
      modifies this`nodes, this`where_, this`blocks, this`info, this`defuse, this`nextId, this`claimed,
        this`overstepped
      ensures Ready(now) && now == (if kind == Phi then open + {f} else open)
      ensures Extends(old(S()), S()) && f !in open && f !in old(nodes)
      ensures PhiAllowed(old(S()), b, ds, f, kind) && PlacedAt(old(S()), S(), b, ds, f, kind, sites)
      ensures PlacedFields(old(S()), S(), b, ds, f, kind)
      ensures overstepped <==> old(overstepped) || Oversteps(ds, sites)
    {
      hide Inv, Precise, Extends, NodesAt, Shape, InfoNodes, WellFormed, Sorted, UndefinedIn, SomeSite, Coverage;
      hide Covered;
      hide Oversteps, WillOverstep, PlacedAt, PlacedFields, Program.Cell, Program.EqualOrDisjoint;
      ghost var s := S();
      InvShape(s, open);
      InvOpen(s, open);
      f := nextId;
      now := if kind == Phi then open + {f} else open;
      assert PhiAllowed(s, b, ds, f, kind);
      var D;
      D, sites := CoverUncovered(info[b], ds, f);
      Place(b, ds, f, kind, D, sites, open, now);
    }

    method Place(b: Block, ds: DefSite, f: Node, kind: Kind, D: Definitions, ghost sites: seq<DefSite>,
                 ghost open: set<Node>, ghost now: set<Node>)
      requires Ready(open) && b in blocks && b in info && info[b].processed && f == nextId
      requires PhiAllowed(S(), b, ds, f, kind) && Covered(info[b], D, ds, f, sites)
      requires Oversteps(ds, sites) <==> WillOverstep(info[b].kills, ds)
      requires now == if kind == Phi then open + {f} else open
      modifies this`nodes, this`where_, this`blocks, this`info, this`defuse, this`nextId, this`claimed,
        this`overstepped
      ensures Ready(now) && Extends(old(S()), S())
      ensures PlacedAt(old(S()), S(), b, ds, f, kind, sites) && PlacedFields(old(S()), S(), b, ds, f, kind)
      ensures overstepped <==> old(overstepped) || Oversteps(ds, sites)
    {
      hide Inv, Coverage, Precise, Extends, PlacedAt, PlacedFields, PhiAllowed, Covered, Oversteps, WillOverstep;
      hide WithPhi;
      PhiPlacedPrecisely(S(), overstepped, b, ds, f, kind, D, sites, open);
      WithPhiFields(S(), b, ds, f, kind, D, Oversteps(ds, sites));
      Install(b, ds, f, kind, D, Oversteps(ds, sites));
    }

    method Install(b: Block, ds: DefSite, f: Node, kind: Kind, D: Definitions, ghost claims: bool)
      requires b in blocks
      modifies this`nodes, this`where_, this`blocks, this`info, this`defuse, this`nextId, this`claimed,
        this`overstepped
      ensures S() == WithPhi(old(S()), b, ds, f, kind, D, claims) && nextId == f + 1
      ensures overstepped == (old(overstepped) || claims)
    {
      nodes := nodes[f := RWNode([], [ds], [], kind)];
      where_ := where_[f := b];
      info := info[b := D];
      if kind == Phi {
        blocks := blocks[b := [f] + blocks[b]];
      }
      nextId := f + 1;
      claimed, overstepped := claimed || claims, overstepped || claims;
    }

    /** Remember whether the report of the sites passes the end of ds. */
    ghost method Note(ds: DefSite, sites: seq<DefSite>, open: set<Node>)
      requires Ready(open) && Precise(S(), overstepped || Oversteps(ds, sites), open)
      modifies this`overstepped
      ensures Ready(open) && S() == old(S()) && overstepped == (old(overstepped) || Oversteps(ds, sites))
    {
      hide Inv, Coverage, Precise, Oversteps;
      overstepped := overstepped || Oversteps(ds, sites);
    }

    // ---- the backward search

    /** The definitions of ds at the end of the block b: known definitions, and
        what reaches the entry of b for the bytes that b does not kill. */
    method FindDefinitionsAtEnd(b: Block, ds: DefSite, ghost open: set<Node>) returns (R: set<Node>)
      requires Ready(open) && b in prog.preds && b in rank && Searchable(ds)
      modifies this`nodes, this`where_, this`blocks, this`info, this`defuse, this`nextId, this`claimed,
        this`overstepped
      ensures Ready(open) && Extends(old(S()), S()) && R <= nodes.Keys
      ensures RightAtEnd(S(), R, b, ds) && Covering(S(), R, b, ds) && Settles(old(S()), S(), R, b, ds)
      ensures Justifying(S(), overstepped, R, b, ds) && (old(overstepped) ==> overstepped)
      decreases Unkilled(S(), ds.target), 0, rank[b], 4
    {
      hide Coverage, Covering, EntryCovering, Settles, EntrySettles, SitesRight, Precise, Justifying, SitesJustifying;
      hide Inv, Extends, SameView, Shape, Static, InfoNodes, WellFormed, NodesAt, UndefinedIn, RightAtEnd;
      hide Unkilled, KillsAtEnd, Oversteps, WillOverstep;
      ghost var start := S();
      GetBBlockDefinitions(b, open);
      ghost var s := S();
      SameUnkilled(start, s, ds.target);
      var G := Get(info[b].definitions, ds);
      GatheredNodes(s, b, ds, G, open);
      var sites := UndefinedIntervals(info[b].kills, ds);
      SitesSearchable(s, b, ds, sites, open);
      EndPasses(s, overstepped, b, ds, sites, open);
      Note(ds, sites, open);
      ghost var over := overstepped;
      var Rs := AddUncovered(b, sites, ds.target, open);
      R := G + Rs;
      SearchedAtEnd(start, s, over, S(), overstepped, b, ds, G, sites, Rs, open);
    }

    /** The definitions of the uncovered sites at the entry of b. */
    method AddUncovered(b: Block, sites: seq<DefSite>, ghost target: Node, ghost open: set<Node>)
      returns (Rs: set<Node>)
      requires Ready(open) && b in prog.preds && b in rank && b in info
      requires forall i :: 0 <= i < |sites| ==> Searchable(sites[i]) && sites[i].target == target
      modifies this`nodes, this`where_, this`blocks, this`info, this`defuse, this`nextId, this`claimed,
        this`overstepped
      ensures Ready(open) && Extends(old(S()), S()) && Rs <= nodes.Keys
      ensures (sites == [] ==> Rs == {} && S() == old(S())) && SitesCovering(S(), Rs, b, sites)
      ensures |sites| == 1 ==> EntrySettles(old(S()), S(), Rs, b, sites[0])
      ensures SitesRight(S(), Rs, b, sites)
      ensures SitesJustifying(S(), overstepped, Rs, b, sites) && (old(overstepped) ==> overstepped)
      decreases Unkilled(S(), target),
                if forall i :: 0 <= i < |sites| ==> Again(S(), b, sites[i]) == 0 then 0 else 1, rank[b], 3
    {
      hide Inv, Extends, Shape, Static, RightAtEntry, Unkilled, KillsAtEnd, Again, Coverage, EntryCovering;
      hide EntrySettles, SitesCovering, SitesRight, Searchable, Precise, EntryJustifying, SitesJustifying;
      ghost var start := S();
      NoSitesCovering(start, b);
      NoSitesRight(start, b, open);
      Rs := {};
      var k := 0;
      ExtendsReflexive(start);
      InvStatic(start, open);
      SitesJustifyingNone(start, overstepped, b);
      assert sites[..0] == [];
      while k < |sites|
        invariant k <= |sites| && Ready(open) && Extends(start, S()) && Static(S()) && Rs <= nodes.Keys
        invariant b in info
        invariant k == 0 ==> Rs == {} && S() == start
        invariant |sites| == 1 && k == 1 ==> EntrySettles(start, S(), Rs, b, sites[0])
        invariant k == |sites| ==> SitesRight(S(), Rs, b, sites)
        invariant SitesCovering(S(), Rs, b, sites[..k])
        invariant SitesJustifying(S(), overstepped, Rs, b, sites[..k]) && (old(overstepped) ==> overstepped)
      {
        ghost var s, over := S(), overstepped;
        SearchNext(start, s, b, sites[k], target);
        var R := FindDefinitionsInPredecessors(b, sites[k], open);
        SiteFound(start, s, S(), Rs, R, b, sites, k, open);
        SitesJustifyingStep(s, over, S(), overstepped, Rs, R, b, sites, k);
        Rs := Rs + R;
        k := k + 1;
      }
      assert sites[..k] == sites;
    }

    /** The definitions of ds at the entry of b. */
    method FindDefinitionsInPredecessors(b: Block, ds: DefSite, ghost open: set<Node>) returns (R: set<Node>)
      requires Ready(open) && b in prog.preds && b in rank && Searchable(ds)
      modifies this`nodes, this`where_, this`blocks, this`info, this`defuse, this`nextId, this`claimed,
        this`overstepped
      ensures Ready(open) && Extends(old(S()), S()) && R <= nodes.Keys
      ensures RightAtEntry(S(), R, b, ds) && EntryCovering(S(), R, b, ds) && EntrySettles(old(S()), S(), R, b, ds)
      ensures EntryJustifying(S(), overstepped, R, b, ds) && (old(overstepped) ==> overstepped)
      decreases Unkilled(S(), ds.target), Again(S(), b, ds), rank[b], 2
    {
      hide Inv, Extends, Shape, Static, Unkilled, KillsAtEnd, Coverage, Covering, EntryCovering;
      hide Settles, EntrySettles, RightAtEnd, RightAtEntry, Precise, Justifying, EntryJustifying;
      ghost var start := S();
      InvRanks(S(), b, open);
      if |prog.preds[b]| == 1 {
        R := FindDefinitionsAtEnd(prog.preds[b][0], ds, open);
        InvStatic(S(), open);
        RightThrough(S(), R, b, ds);
        CoveringThrough(S(), R, b, ds);
        SettledThrough(start, S(), R, b, ds);
        JustifyingThrough(S(), overstepped, R, b, ds);
      } else {
        R := FindDefinitionsInMultiplePredecessors(b, ds, open);
      }
    }

    /** A block with several predecessors gets a phi node; the entry gets a node
        for the input, if callers can have defined the memory. */
    method FindDefinitionsInMultiplePredecessors(b: Block, ds: DefSite, ghost open: set<Node>) returns (R: set<Node>)
      requires Ready(open) && b in prog.preds && b in rank && Searchable(ds) && |prog.preds[b]| != 1
      modifies this`nodes, this`where_, this`blocks, this`info, this`defuse, this`nextId, this`claimed,
        this`overstepped
      ensures Ready(open) && Extends(old(S()), S()) && R <= nodes.Keys
      ensures RightAtEntry(S(), R, b, ds) && EntryCovering(S(), R, b, ds) && EntrySettles(old(S()), S(), R, b, ds)
      ensures EntryJustifying(S(), overstepped, R, b, ds) && (old(overstepped) ==> overstepped)
      decreases Unkilled(S(), ds.target), Again(S(), b, ds), rank[b], 1
    {
      hide Inv, Extends, SameView, Shape, Static, RightAtEntry, Unkilled, KillsAtEnd, PhiAt, Fresh, Coverage;
      hide EntryCovering, EntrySettles, PlacedAt, PhiAllowed, OperandsSettle, Again, Precise, EntryJustifying;
      ghost var start := S();
      InvStatic(start, open);
      if prog.preds[b] == [] && ds.target !in inputs {
        ExtendsReflexive(start);
        RightAtJoin(start, {}, b, ds);
        CoveringAtJoin(start, {}, b, ds);
        SettledEntry(start, start, {}, b, ds);
        JustifyingAtJoin(start, overstepped, {}, b, ds);
        return {};
      }
      GetBBlockDefinitions(b, open);
      ghost var s := S();
      var kind := if prog.preds[b] == [] then InArg else Phi;
      var f;
      ghost var now, sites;
      f, now, sites := CreatePhi(b, ds, kind, open);
      R := {f};
      ghost var t, over := S(), overstepped;
      PhiSearched(start, s, t, b, ds, f, kind, sites, now);
      PhiJustifies(s, t, over, b, ds, f, kind);
      if prog.preds[b] != [] {
        FindPhiDefinitions(f, b, ds, open);
        OperandsSearched(start, s, t, S(), b, ds, f, sites, open);
        EntryJustifyingExtends(t, over, S(), overstepped, R, b, ds);
      } else {
        SettledEntry(start, t, R, b, ds);
      }
    }

    /** The operands of a phi node: the definitions at the ends of all
        predecessors of its block. */
    method FindPhiDefinitions(f: Node, b: Block, ds: DefSite, ghost open: set<Node>)
      requires Ready(open + {f}) && f !in open && b in prog.preds && b in rank && Searchable(ds)
      requires f in nodes && nodes[f] == RWNode([], [ds], [], Phi) && f in where_ && where_[f] == b
      modifies this`nodes, this`where_, this`blocks, this`info, this`defuse, this`nextId, this`claimed,
        this`overstepped
      ensures Ready(open) && Extends(old(S()), S()) && OperandsSettle(old(S()), S(), f, b, ds)
      ensures old(overstepped) ==> overstepped
      decreases Unkilled(S(), ds.target), 1, rank[b], 0
    {
      hide Inv, Extends, Shape, Static, RightAtEnd, Unkilled, KillsAtEnd, OperandsExact, ClosesPhi, Again;
      hide Coverage, Covering, OperandsCovering, Settles, SomeOperandsSettle, OperandsSettle;
      hide Precise, Justifying, OperandsJustifying;
      hide Program.EqualOrDisjoint, Program.Cell, DefSite.Proper, Searchable;
      ghost var start := S();
      ExtendsReflexive(start);
      InvStatic(start, open + {f});
      OperandsNone(start, ds);
      OperandsCoveringNone(start, ds);
      StaticPreds(start, b);
      var ps := prog.preds[b];
      NoOperands(start, ps, ds);
      OperandsJustifyingNone(start, overstepped, ds);
      var defs := {};
      var k := 0;
      while k < |ps|
        invariant k <= |ps| && Ready(open + {f}) && Extends(start, S()) && Static(S()) && defs <= nodes.Keys
        invariant f in nodes && nodes[f] == RWNode([], [ds], [], Phi) && f in where_ && where_[f] == b
        invariant OperandsExact(S(), ps[..k], ds, defs) && OperandsCovering(S(), ps[..k], ds, defs)
        invariant SomeOperandsSettle(start, S(), ps, k, ds, defs)
        invariant OperandsJustifying(S(), overstepped, ps[..k], ds, defs) && (old(overstepped) ==> overstepped)
      {
        ghost var s, over := S(), overstepped;
        UnkilledShrinks(start, s, ds.target);
        StaticPreds(s, b);
        var R := FindDefinitionsAtEnd(ps[k], ds, open + {f});
        OperandFound(start, s, over, S(), overstepped, ps, k, ds, defs, R, open + {f});
        defs := defs + R;
        k := k + 1;
      }
      assert ps[..k] == ps;
      AddOperands(f, b, ds, defs, start, open);
    }

    /** Record the operands that were found in all predecessors. */
    method AddOperands(f: Node, b: Block, ds: DefSite, defs: set<Node>, ghost start: State, ghost open: set<Node>)
      requires Ready(open + {f}) && f !in open && b in prog.preds && defs <= nodes.Keys && Static(start)
      requires f in nodes && nodes[f] == RWNode([], [ds], [], Phi) && f in where_ && where_[f] == b
      requires Extends(start, S()) && Static(S()) && start.prog == prog
      requires OperandsExact(S(), prog.preds[b], ds, defs) && OperandsCovering(S(), prog.preds[b], ds, defs)
      requires SomeOperandsSettle(start, S(), prog.preds[b], |prog.preds[b]|, ds, defs)
      requires OperandsJustifying(S(), overstepped, prog.preds[b], ds, defs)
      modifies this`defuse
      ensures Ready(open) && Extends(start, S()) && OperandsSettle(start, S(), f, b, ds)
    {
      hide Inv, Coverage, Precise, Extends, Static, OperandsExact, OperandsCovering, SomeOperandsSettle;
      hide OperandsSettle, OperandsJustifying;
      StaticPreds(S(), b);
      OperandsFound(start, S(), overstepped, f, b, ds, defs, open);
      AddDefUse(f, defs);
    }

    method AddDefUse(n: Node, R: set<Node>)
      modifies this`defuse
      ensures defuse == old(defuse)[n := R] && S() == old(S()).(defuse := old(defuse)[n := R])
    {
      defuse := defuse[n := R];
    }

    // ---- the definitions of a use

    /** Local value numbering of the nodes in front of a node. */
    method FindDefinitionsInBlock(to: Node, b: Block) returns (D: Definitions, ghost k: nat)
      requires b in blocks && Runnable(nodes, blocks[b]) && to in blocks[b]
      ensures D.Valid() && k < |blocks[b]| && blocks[b][k] == to && (forall j :: 0 <= j < k ==> blocks[b][j] != to)
      ensures Lvn(nodes, blocks[b][..k], D)
    {
      hide Lvn, AfterNode, NodesAt;
      var ns := blocks[b];
      D := NoDefinitions;
      LvnNone(nodes);
      var i := 0;
      while ns[i] != to
        invariant i < |ns| && D.Valid() && (forall j :: 0 <= j < i ==> ns[j] != to) && Lvn(nodes, ns[..i], D)
        decreases |ns| - i
      {
        ghost var was := D;
        D := Update(D, ns[i], nodes[ns[i]]);
        LvnStep(nodes, ns, i, was, D);
        i := i + 1;
        NotLast(ns, to, i);
      }
      k := i;
    }

    /** The definitions found for a use; a node without a block has none. */
    method FindDefinitions(u: Node) returns (R: set<Node>)
      requires Ready({}) && u in prog.nodes
      modifies this`nodes, this`where_, this`blocks, this`info, this`defuse, this`nextId, this`claimed,
        this`overstepped
      ensures Ready({}) && Extends(old(S()), S()) && R <= nodes.Keys
      ensures u !in prog.place ==> R == {}
      ensures UseFound(S(), R, u) && UseReached(S(), R, u) && UseSettles(old(S()), S(), R, u)
      ensures UseJustifying(S(), overstepped, R, u) && (old(overstepped) ==> overstepped)
    {
      hide Coverage, SitesCovering, UseReached, UseReachedSoFar, UseSettles, UseSettlesSoFar, EntrySettles;
      hide SitesRight, SearchedInFront, DefSite.Has, DefSite.Proper, UseAt, Precise, SitesJustifying;
      hide UseJustifying, UseJustifiesSoFar;
      hide Inv, Extends, Shape, Static, NodesAt, Lvn, WellFormed, Runnable, UndefinedIn, UseFound, UseSoFar, Unkilled;
      hide KillsAtEnd, Oversteps, WillOverstep, Prefix, Again, DefsAfter, Kills, Program.EqualOrDisjoint, Program.Cell;
      ghost var start := S();
      InvStatic(start, {});
      ExtendsReflexive(start);
      if u !in prog.place {
        NoPlace(start, u);
        NoPlaceReached(start, u);
        NoPlaceSettles(start, u);
        NoPlaceJustifies(start, overstepped, u);
        return {};
      }
      var b := prog.place[u].0;
      ghost var phis := UsePrepared(start, u, b, prog.place[u].1);
      var D;
      ghost var k;
      D, k := FindDefinitionsInBlock(u, b);
      UsePlaced(start, u, b, prog.place[u].1, phis, k);
      ghost var ns := blocks[b][..k];
      var uses := prog.nodes[u].uses;
      R := {};
      NothingSearched(start, overstepped, u);
      var j := 0;
      while j < |uses|
        invariant j <= |uses| && Ready({}) && Extends(start, S()) && Static(S()) && R <= nodes.Keys && b in info
        invariant b in rank
        invariant UseSoFar(S(), R, u, j) && UseReachedSoFar(S(), R, u, j)
        invariant UseSettlesSoFar(start, S(), R, u, j)
        invariant UseJustifiesSoFar(S(), overstepped, R, u, j) && (old(overstepped) ==> overstepped)
      {
        ghost var s, before := S(), overstepped;
        UseSites(start, u, j);
        var G := Get(D.definitions, uses[j]);
        FrontNodes(start, s, ns, uses[j], D, G);
        var sites := UndefinedIntervals(D.kills, uses[j]);
        UseFrontSites(start, u, b, prog.place[u].1, phis, ns, k, uses[j], D, G, sites);
        UsePasses(start, s, overstepped, u, b, prog.place[u].1, phis, ns, k, uses[j], D, G, sites);
        Note(uses[j], sites, {});
        var Rs := AddUncovered(b, sites, uses[j].target, {});
        AccessSearched(start, s, before, S(), overstepped, u, b, prog.place[u].1, phis, ns, j, k, uses[j], D, G, sites,
                       R, Rs);
        R := R + (G + Rs);
        j := j + 1;
      }
      UseSearched(start, S(), overstepped, u, R);
    }

    /** Search the definitions of a use for the first time, and record them. */
    method InitializeDefUse(u: Node)
      requires Ready({}) && u in prog.nodes && u !in defuse
      modifies this`nodes, this`where_, this`blocks, this`info, this`defuse, this`nextId, this`answered,
        this`claimed, this`overstepped
      ensures Ready({}) && Extends(old(S()), S()) && answered == old(answered) + {u} && u in defuse
      ensures AnswerSettles(old(S()), S(), u)
    {
      hide Inv, Extends, Shape, UseFound, Coverage, UseReached, UseSettles, AnswerSettles, Precise, UseJustifying;
      ghost var start := S();
      var R := FindDefinitions(u);
      RecordAnswer(u, R, start);
    }

    method RecordAnswer(u: Node, R: set<Node>, ghost start: State)
      requires Ready({}) && Extends(start, S()) && u in prog.nodes && u !in defuse && R <= nodes.Keys
      requires UseFound(S(), R, u) && UseReached(S(), R, u) && UseSettles(start, S(), R, u)
      requires UseJustifying(S(), overstepped, R, u) && (u !in prog.place ==> R == {})
      modifies this`defuse, this`answered
      ensures Ready({}) && Extends(start, S()) && answered == old(answered) + {u} && u in defuse
      ensures AnswerSettles(start, S(), u)
    {
      hide Inv, Extends, Shape, UseFound, Coverage, UseReached, UseSettles, AnswerSettles, Precise, UseJustifying;
      ghost var t := S().(defuse := S().defuse[u := R]);
      UseRecorded(start, S(), overstepped, u, R);
      AddDefUse(u, R);
      answered := answered + {u};
      assert S() == t;
    }

    /** The nodes that define the memory which the node u uses. */
    method GetDefinitions(u: Node) returns (ret: set<Node>)
      requires Ready({}) && u in prog.nodes && prog.nodes[u].uses != []
      modifies this`nodes, this`where_, this`blocks, this`info, this`defuse, this`nextId, this`answered,
        this`claimed, this`overstepped
      ensures Ready({}) && Extends(old(S()), S()) && answered == old(answered) + {u}
      ensures prog.EqualOrDisjoint() ==> !claimed && forall n :: n in ret <==> ReachingDef(prog, u, n)
      ensures !claimed ==> forall n :: ReachingDef(prog, u, n) ==> n in ret
      ensures !overstepped && (u in prog.place ==> prog.JoinFree(prog.place[u].0)) ==>
        forall n :: n in ret <==> ReachingDef(prog, u, n)
      ensures prog.EqualOrDisjoint() ==> !overstepped
      ensures prog.Tree() && prog.Gapless() && inputs == {} ==> forall n :: n in ret <==> ReachingDef(prog, u, n)
      ensures u in defuse && forall n :: n in ret <==> Gathers(S(), defuse[u], n)
      ensures u !in old(defuse) ==> AnswerSettles(old(S()), S(), u)
    {
      hide Inv, Extends, Shape, Gathers, ReachingDef, Coverage, AnswerSettles, Precise;
      hide Program.EqualOrDisjoint, Program.Cell, Program.JoinFree, Program.Tree, Program.Gapless;
      if u !in defuse {
        InitializeDefUse(u);
      } else {
        ExtendsReflexive(S());
      }
      InvShape(S(), {});
      OperandNodes(S(), u);
      ret := GatherNonPhisDefs(defuse[u]);
      GatheredAnswer(S(), overstepped, u, ret);
    }

    // ---- replacing phi nodes by their definitions

    method RecGatherNonPhisDefs(phi: Node, phis: set<Node>, ret: set<Node>) returns (phis': set<Node>, ret': set<Node>)
      requires Shape(S()) && IsPhiNode(S(), phi) && forall g :: g in phis ==> IsPhiNode(S(), g)
      ensures phis <= phis' && ret <= ret' && phi in phis' && forall g :: g in phis' ==> IsPhiNode(S(), g)
      ensures forall g :: g in phis' && g !in phis ==> PhiGathered(S(), g, phis', ret')
      ensures forall n :: n in ret' && n !in ret ==> Gathers(S(), {phi}, n)
      decreases nodes.Keys - phis
    {
      hide Shape, Gathers;
      if phi in phis {
        return phis, ret;
      }
      phis', ret' := phis + {phi}, ret;
      var ops := if phi in defuse then defuse[phi] else {};
      OperandNodes(S(), phi);
      var todo := ops;
      while todo != {}
        invariant todo <= ops && phis + {phi} <= phis' && ret <= ret'
        invariant forall g :: g in phis' ==> IsPhiNode(S(), g)
        invariant forall g :: g in phis' && g !in phis && g != phi ==> PhiGathered(S(), g, phis', ret')
        invariant forall n :: n in ops && n !in todo ==> if IsPhiNode(S(), n) then n in phis' else n in ret'
        invariant forall n :: n in ret' && n !in ret ==> Gathers(S(), {phi}, n)
        decreases todo
      {
        var n :| n in todo;
        todo := todo - {n};
        if !nodes[n].IsPhi() {
          ret' := ret' + {n};
          GathersOperand(S(), phi, n);
        } else {
          ghost var before := ret';
          phis', ret' := RecGatherNonPhisDefs(n, phis', ret');
          forall m | m in ret' && m !in before ensures Gathers(S(), {phi}, m) { GathersOver(S(), phi, n, m); }
        }
      }
    }

    method GatherNonPhisDefs(R: set<Node>) returns (ret: set<Node>)
      requires Ready({}) && R <= nodes.Keys
      ensures forall n :: n in ret <==> Gathers(S(), R, n)
    {
      hide Inv, Shape, Gathers, InfoNodes, Coverage;
      InvShape(S(), {});
      hide Ready, PhiGathered;
      ret := {};
      var phis := {};
      var todo := R;
      while todo != {}
        invariant todo <= R
        invariant forall g :: g in phis ==> IsPhiNode(S(), g) && PhiGathered(S(), g, phis, ret)
        invariant forall n :: n in R && n !in todo ==> if IsPhiNode(S(), n) then n in phis else n in ret
        invariant forall n :: n in ret ==> Gathers(S(), R, n)
        decreases todo
      {
        var n :| n in todo;
        todo := todo - {n};
        if !nodes[n].IsPhi() {
          ret := ret + {n};
          GathersSelf(S(), R, n);
        } else {
          ghost var before := ret;
          phis, ret := RecGatherNonPhisDefs(n, phis, ret);
          forall m | m in ret && m !in before ensures Gathers(S(), R, m) { GathersMore(S(), {n}, R, m); }
        }
      }
      forall n | Gathers(S(), R, n) ensures n in ret { GatheredAll(S(), R, phis, ret, n); }
    }
  }
}
