/** Searching the definitions of one use: what the nodes in front of it in its
    block define, and what reaches the entry of the block. */
module MemorySSAUses {
  import opened DisjunctiveIntervals
  import opened MemoryDefinitions
  import opened ReachingDefinitions
  import opened MemorySSAState
  import opened MemorySSALemmas

  /** The nodes in front of the k-th code node of b: phi nodes, then code. */
  ghost predicate Prefix(s: State, b: Block, at: nat, phis: seq<Node>, ns: seq<Node>)
    requires b in s.prog.code && at <= |s.prog.code[b]|
  {
    && ns == phis + s.prog.code[b][..at]
    && (forall i :: 0 <= i < |phis| ==>
          phis[i] in s.nodes && s.nodes[phis[i]].kind == Phi && phis[i] in s.where_ && s.where_[phis[i]] == b)
  }

  lemma UsePosition(s: State, u: Node, b: Block, at: nat) returns (phis: seq<Node>)
    requires Shape(s) && u in s.prog.place && s.prog.place[u] == (b, at)
    ensures b in s.prog.code && b in s.prog.preds && b in s.blocks && at < |s.prog.code[b]| && s.prog.code[b][at] == u
    ensures u in s.prog.nodes
    ensures var ns := s.blocks[b];
      |phis| + at < |ns| && ns[|phis| + at] == u && (forall j :: 0 <= j < |phis| + at ==> ns[j] != u)
    ensures Prefix(s, b, at, phis, s.blocks[b][..|phis| + at])
  {
    hide *;
    UseInCode(s, u, b, at);
    BlockSplit(s, b);
    phis := s.blocks[b][..|s.blocks[b]| - |s.prog.code[b]|];
    UseInBlock(s, u, b, at, phis);
  }

  lemma UseInCode(s: State, u: Node, b: Block, at: nat)
    requires Shape(s) && u in s.prog.place && s.prog.place[u] == (b, at)
    ensures b in s.prog.code && b in s.prog.preds && b in s.blocks && at < |s.prog.code[b]| && s.prog.code[b][at] == u
    ensures u in s.prog.nodes
    ensures forall j :: 0 <= j < at ==> s.prog.code[b][j] != u
  {
    hide BlockShape, PhiShape;
    forall j | 0 <= j < at ensures s.prog.code[b][j] != u {
      assert s.prog.place[s.prog.code[b][j]] == (b, j);
    }
  }

  lemma BlockSplit(s: State, b: Block)
    requires Shape(s) && b in s.prog.code && b in s.blocks
    ensures |s.blocks[b]| >= |s.prog.code[b]|
    ensures var phis := s.blocks[b][..|s.blocks[b]| - |s.prog.code[b]|];
      && s.blocks[b] == phis + s.prog.code[b]
      && (forall i :: 0 <= i < |phis| ==>
            phis[i] in s.nodes && s.nodes[phis[i]].kind == Phi && phis[i] in s.where_ && s.where_[phis[i]] == b)
      && (forall i :: 0 <= i < |phis| ==> phis[i] !in s.prog.nodes)
  {
    hide Shape, BlockShape, Static;
    ShapeOfBlock(s, b);
    PhisOfBlock(s, b);
    var k := |s.blocks[b]| - |s.prog.code[b]|;
    forall i | 0 <= i < k ensures s.blocks[b][i] !in s.prog.nodes { PhiIsNew(s, s.blocks[b][i]); }
  }

  lemma PhisOfBlock(s: State, b: Block)
    requires b in s.prog.code && b in s.blocks && b in s.info && BlockShape(s, b)
    ensures |s.blocks[b]| >= |s.prog.code[b]|
    ensures var k := |s.blocks[b]| - |s.prog.code[b]|;
      && s.blocks[b] == s.blocks[b][..k] + s.prog.code[b]
      && forall i :: 0 <= i < k ==>
        var f := s.blocks[b][i]; f in s.nodes && s.nodes[f].kind == Phi && f in s.where_ && s.where_[f] == b
  {
    hide Definitions.Valid;
    var k := |s.blocks[b]| - |s.prog.code[b]|;
    assert s.blocks[b] == s.blocks[b][..k] + s.blocks[b][k..];
  }

  lemma UseInBlock(s: State, u: Node, b: Block, at: nat, phis: seq<Node>)
    requires b in s.blocks && b in s.prog.code && at < |s.prog.code[b]| && s.prog.code[b][at] == u && u in s.prog.nodes
    requires s.blocks[b] == phis + s.prog.code[b]
    requires forall i :: 0 <= i < |phis| ==>
      phis[i] in s.nodes && s.nodes[phis[i]].kind == Phi && phis[i] in s.where_ && s.where_[phis[i]] == b
    requires forall i :: 0 <= i < |phis| ==> phis[i] !in s.prog.nodes
    requires forall j :: 0 <= j < at ==> s.prog.code[b][j] != u
    ensures var ns := s.blocks[b];
      |phis| + at < |ns| && ns[|phis| + at] == u && (forall j :: 0 <= j < |phis| + at ==> ns[j] != u)
    ensures Prefix(s, b, at, phis, s.blocks[b][..|phis| + at])
  {
    var ns, code := s.blocks[b], s.prog.code[b];
    assert ns[..|phis| + at] == phis + code[..at];
    forall j | 0 <= j < |phis| + at ensures ns[j] != u {
      if j >= |phis| { assert ns[j] == code[j - |phis|]; }
    }
  }

  /** Among phi nodes of one block, the last one for l is what is left. */
  lemma {:induction false} PhisAfter(s: State, b: Block, phis: seq<Node>, l: Loc)
    requires Shape(s)
    requires forall i :: 0 <= i < |phis| ==>
      phis[i] in s.nodes && s.nodes[phis[i]].kind == Phi && phis[i] in s.where_ && s.where_[phis[i]] == b
    ensures Kills(s.nodes, phis, l) ==> exists f :: DefsAfter(s.nodes, phis, l) == {f} && PhiAt(s, f, b, l)
    ensures !Kills(s.nodes, phis, l) ==> DefsAfter(s.nodes, phis, l) == {}
  {
    hide Shape, PhiShape;
    if phis != [] {
      var k := |phis| - 1;
      var f := phis[k];
      PhisAfter(s, b, phis[..k], l);
      PhiIsNew(s, f);
      PhiAccesses(s, f, l);
      assert phis == phis[..k] + [f];
      KillsAppend(s.nodes, phis[..k], [f], l);
      assert Kills(s.nodes, [f], l) <==> s.nodes[f].Strong(l) by { assert [f][0] == f; }
      if s.nodes[f].Strong(l) {
        assert DefsAfter(s.nodes, phis, l) == {f} && PhiAt(s, f, b, l);
      } else {
        assert DefsAfter(s.nodes, phis, l) == DefsAfter(s.nodes, phis[..k], l);
      }
    }
  }

  lemma PhiAccesses(s: State, f: Node, l: Loc)
    requires f in s.nodes && PhiShape(s, f)
    ensures |s.nodes[f].overwrites| == 1 && (s.nodes[f].Strong(l) <==> s.nodes[f].overwrites[0].Has(l))
    ensures !s.nodes[f].Weak(l)
  {
  }

  /** The definitions in front of a use, byte by byte. */
  lemma DefsInFront(s: State, b: Block, at: nat, phis: seq<Node>, ns: seq<Node>, l: Loc)
    requires Shape(s) && b in s.prog.code && at <= |s.prog.code[b]| && Prefix(s, b, at, phis, ns)
    ensures var before := s.prog.code[b][..at];
      && (Kills(s.nodes, ns, l) <==> Kills(s.nodes, phis, l) || Kills(s.prog.nodes, before, l))
      && DefsAfter(s.nodes, ns, l) ==
           if Kills(s.prog.nodes, before, l) then DefsAfter(s.prog.nodes, before, l)
           else DefsAfter(s.nodes, phis, l) + DefsAfter(s.prog.nodes, before, l)
  {
    hide BlockShape, PhiShape, DefsAfter, Kills;
    var before := s.prog.code[b][..at];
    DefsAfterFrame(s.nodes, s.prog.nodes, before, l);
    DefsAfterAppend(s.nodes, phis, before, l);
    KillsAppend(s.nodes, phis, before, l);
  }

  /** What the nodes ns in front of a use and, for the rest, the search from the
      entry of the block give for the cell ds. */
  ghost predicate FoundInFront(s: State, b: Block, at: nat, phis: seq<Node>, ns: seq<Node>, ds: DefSite, G: set<Node>) {
    && Shape(s) && s.prog.EqualOrDisjoint() && CellState(s) && s.prog.Cell(ds)
    && b in s.prog.code && at <= |s.prog.code[b]| && Prefix(s, b, at, phis, ns)
    && (forall n :: n in G <==> exists l: Loc :: ds.Has(l) && n in DefsAfter(s.nodes, ns, l))
  }

  lemma KillsUniformly(s: State, b: Block, at: nat, phis: seq<Node>, ns: seq<Node>, ds: DefSite, l: Loc, l': Loc)
    requires Shape(s) && s.prog.EqualOrDisjoint() && CellState(s) && s.prog.Cell(ds)
    requires b in s.prog.code && at <= |s.prog.code[b]| && Prefix(s, b, at, phis, ns)
    requires ds.Has(l) && ds.Has(l')
    ensures Kills(s.nodes, ns, l) ==> Kills(s.nodes, ns, l')
    ensures Kills(s.nodes, phis, l) ==> Kills(s.nodes, phis, l')
  {
    hide Shape, CellState, DefsAfter;
    UniformCode(s.prog, s.prog.code[b][..at], ds, l, l');
    DefsInFront(s, b, at, phis, ns, l);
    DefsInFront(s, b, at, phis, ns, l');
    if Kills(s.nodes, phis, l) {
      var i :| 0 <= i < |phis| && phis[i] in s.nodes && s.nodes[phis[i]].Strong(l);
      PhiIsNew(s, phis[i]);
      PhiAccesses(s, phis[i], l);
      assert PhiAt(s, phis[i], b, l);
      PhiOfCell(s, phis[i], b, ds, l, l');
      assert s.nodes[phis[i]].Strong(l');
    }
  }

  lemma InFrontKilled(s: State, t: State, b: Block, at: nat, phis: seq<Node>, ns: seq<Node>, ds: DefSite, G: set<Node>,
                      l: Loc)
    requires FoundInFront(s, b, at, phis, ns, ds, G) && Extends(s, t) && Static(t) && b in t.prog.preds
    requires ds.Has(l) && Kills(s.nodes, ns, l)
    ensures UseCovered(t, G, b, at, l) && forall n :: n in G ==> UseJustified(t, n, b, at, l)
  {
    hide Shape, CellState, DefsAfter, Kills, UseCovered, UseJustified, KillsAtEnd, Static, Prefix;
    assert DefsAfter(s.nodes, ns, l) <= G;
    InFrontCovered(s, t, b, at, phis, ns, ds, G, l);
    forall n | n in G ensures UseJustified(t, n, b, at, l) {
      var l': Loc :| ds.Has(l') && n in DefsAfter(s.nodes, ns, l');
      InFrontJustified(s, t, b, at, phis, ns, ds, n, l', l);
    }
  }

  lemma InFrontCovered(s: State, t: State, b: Block, at: nat, phis: seq<Node>, ns: seq<Node>, ds: DefSite, G: set<Node>,
                       l: Loc)
    requires Shape(s) && s.prog.EqualOrDisjoint() && CellState(s) && s.prog.Cell(ds) && ds.Has(l)
    requires b in s.prog.code && at <= |s.prog.code[b]| && Prefix(s, b, at, phis, ns)
    requires Extends(s, t) && Static(t) && b in t.prog.preds && DefsAfter(s.nodes, ns, l) <= G && Kills(s.nodes, ns, l)
    ensures UseCovered(t, G, b, at, l)
  {
    hide Shape, CellState, DefsAfter, Kills, Static, Program.Cell, Program.EqualOrDisjoint;
    DefsInFront(s, b, at, phis, ns, l);
    PhisAfter(s, b, phis, l);
    if !Kills(s.prog.nodes, s.prog.code[b][..at], l) {
      var f :| DefsAfter(s.nodes, phis, l) == {f} && PhiAt(s, f, b, l);
      PhiOfCell(s, f, b, ds, l, l);
      assert f in G && PhiAt(t, f, b, l);
    }
  }

  lemma InFrontJustified(s: State, t: State, b: Block, at: nat, phis: seq<Node>, ns: seq<Node>, ds: DefSite, n: Node,
                         l': Loc, l: Loc)
    requires Shape(s) && s.prog.EqualOrDisjoint() && CellState(s) && s.prog.Cell(ds)
    requires b in s.prog.code && at <= |s.prog.code[b]| && Prefix(s, b, at, phis, ns) && Extends(s, t) && Static(t)
    requires b in t.prog.preds
    requires ds.Has(l') && ds.Has(l) && n in DefsAfter(s.nodes, ns, l')
    ensures UseJustified(t, n, b, at, l)
  {
    hide Shape, CellState, DefsAfter, Kills;
    DefsInFront(s, b, at, phis, ns, l');
    PhisAfter(s, b, phis, l');
    var before := s.prog.code[b][..at];
    UniformCode(s.prog, before, ds, l, l');
    if n !in DefsAfter(s.prog.nodes, before, l) {
      assert DefsAfter(s.nodes, phis, l') == {n} && PhiAt(s, n, b, l');
      PhiOfCell(s, n, b, ds, l', l);
      assert PhiAt(t, n, b, l);
    }
  }

  lemma InFrontThrough(s: State, t: State, b: Block, at: nat, phis: seq<Node>, ns: seq<Node>, ds: DefSite, G: set<Node>,
                       site: DefSite, Rs: set<Node>, l: Loc)
    requires FoundInFront(s, b, at, phis, ns, ds, G) && Extends(s, t) && Static(t) && b in t.prog.preds
    requires ds.Has(l) && !Kills(s.nodes, ns, l)
    requires site.target == ds.target && site.Bytes() == ds.Bytes() && RightEntry(t, Rs, b, site)
    ensures UseCovered(t, G + Rs, b, at, l) && forall n :: n in G + Rs ==> UseJustified(t, n, b, at, l)
  {
    hide Shape, CellState, DefsAfter, Kills;
    DefsInFront(s, b, at, phis, ns, l);
    PhisAfter(s, b, phis, l);
    assert site.Has(l);
    CoversExtends(t, t, Rs, G + Rs, b, l);
    assert DefsAfter(s.nodes, ns, l) <= G;
    forall n | n in G ensures UseJustified(t, n, b, at, l) {
      var l': Loc :| ds.Has(l') && n in DefsAfter(s.nodes, ns, l');
      InFrontJustified(s, t, b, at, phis, ns, ds, n, l', l);
    }
  }

  /** Both cases together. */
  lemma UseLookup(s: State, t: State, b: Block, at: nat, phis: seq<Node>, ns: seq<Node>, ds: DefSite, D: Definitions,
                  G: set<Node>, sites: seq<DefSite>, Rs: set<Node>)
    requires FoundInFront(s, b, at, phis, ns, ds, G) && Extends(s, t) && Static(t) && b in t.prog.preds
    requires t.prog == s.prog && b in s.prog.code && at <= |s.prog.code[b]| && Lvn(s.nodes, ns, D)
    requires UndefinedIn(D.kills, ds, sites)
    requires (sites == [] ==> Rs == {}) && (|sites| == 1 ==> RightEntry(t, Rs, b, sites[0]))
    ensures forall l: Loc :: ds.Has(l) ==> UseCovered(t, G + Rs, b, at, l) && forall n :: n in G + Rs ==>
      UseJustified(t, n, b, at, l)
  {
    hide FoundInFront, UndefinedIn, Extends, Static, Kills, UseCovered, UseJustified, RightEntry, SomeSite, NodesAt;
    hide DefsAfter, Shape, CellState;
    UniformFront(s, b, at, phis, ns, ds, D, G);
    UniformSites(D.kills, ds, sites);
    forall l: Loc | ds.Has(l)
      ensures UseCovered(t, G + Rs, b, at, l) && forall n :: n in G + Rs ==> UseJustified(t, n, b, at, l)
    {
      if Kills(s.nodes, ns, l) {
        assert G + Rs == G;
        InFrontKilled(s, t, b, at, phis, ns, ds, G, l);
      } else {
        InFrontThrough(s, t, b, at, phis, ns, ds, G, sites[0], Rs, l);
      }
    }
  }

  lemma UniformFront(s: State, b: Block, at: nat, phis: seq<Node>, ns: seq<Node>, ds: DefSite, D: Definitions,
                     G: set<Node>)
    requires FoundInFront(s, b, at, phis, ns, ds, G) && Lvn(s.nodes, ns, D)
    ensures forall k: Loc, k': Loc :: ds.Has(k) && ds.Has(k') ==>
      (NodesAt(D.kills, k) != {} <==> NodesAt(D.kills, k') != {})
  {
    hide Shape, CellState, Prefix, Kills, DefsAfter, NodesAt;
    forall k: Loc, k': Loc | ds.Has(k) && ds.Has(k') ensures NodesAt(D.kills, k) != {} <==> NodesAt(D.kills, k') != {} {
      KillsUniformly(s, b, at, phis, ns, ds, k, k');
      KillsUniformly(s, b, at, phis, ns, ds, k', k);
    }
  }

  // ---- all accesses of a use

  /** R is right for the use u, if it stands in a block. */
  ghost predicate UseFound(s: State, R: set<Node>, u: Node) {
    s.prog.EqualOrDisjoint() && u in s.prog.place ==>
      var (b, at) := s.prog.place[u];
      Static(s) && u in s.prog.nodes && b in s.prog.preds && b in s.prog.code && at <= |s.prog.code[b]|
        && UseRight(s, R, u, b, at)
  }

  /** R is right for the first j accesses of the use u. */
  ghost predicate UseSoFar(s: State, R: set<Node>, u: Node, j: nat) {
    s.prog.EqualOrDisjoint() && u in s.prog.place ==>
      var (b, at) := s.prog.place[u];
      && Static(s) && u in s.prog.nodes && b in s.prog.preds && b in s.prog.code && at <= |s.prog.code[b]|
      && AccessesRight(s, R, b, at, s.prog.nodes[u].uses, j)
  }

  ghost predicate AccessesRight(s: State, R: set<Node>, b: Block, at: nat, uses: seq<DefSite>, j: nat)
    requires Static(s) && b in s.prog.preds && b in s.prog.code && at <= |s.prog.code[b]|
  {
    && j <= |uses|
    && (forall i, l: Loc :: 0 <= i < j && uses[i].Has(l) ==> UseCovered(s, R, b, at, l))
    && (forall n :: n in R ==> exists i, l: Loc :: 0 <= i < j && uses[i].Has(l) && UseJustified(s, n, b, at, l))
  }

  lemma NoPlace(s: State, u: Node)
    requires u !in s.prog.place
    ensures UseFound(s, {}, u)
  {
  }

  lemma UseNone(s: State, u: Node)
    requires Inv(s, {}) && u in s.prog.place
    ensures UseSoFar(s, {}, u, 0)
  {
    InvShape(s, {});
    hide Inv;
    UseInCode(s, u, s.prog.place[u].0, s.prog.place[u].1);
  }

  lemma UseAll(s: State, R: set<Node>, u: Node)
    requires u in s.prog.nodes && UseSoFar(s, R, u, |s.prog.nodes[u].uses|)
    ensures UseFound(s, R, u)
  {
    hide UseCovered, UseJustified, Static;
    if s.prog.EqualOrDisjoint() && u in s.prog.place {
      var (b, at) := s.prog.place[u];
      forall n | n in R ensures exists l: Loc :: Uses(s.prog.nodes[u], l) && UseJustified(s, n, b, at, l) {
        var i, l: Loc :|
          0 <= i < |s.prog.nodes[u].uses| && s.prog.nodes[u].uses[i].Has(l) && UseJustified(s, n, b, at, l);
        assert Uses(s.prog.nodes[u], l);
      }
    }
  }

  lemma UseSites(s: State, u: Node, j: nat)
    requires Inv(s, {}) && u in s.prog.nodes && j < |s.prog.nodes[u].uses|
    ensures var ds := s.prog.nodes[u].uses[j]; ds.Proper() && s.prog.Cell(ds)
  {
    InvStatic(s, {});
    hide Inv;
    var ds := s.prog.nodes[u].uses[j];
    assert ds in s.prog.nodes[u].uses;
    assert s.prog.Accessed(ds);
  }

  lemma FrontNodes(s: State, t: State, ns: seq<Node>, ds: DefSite, D: Definitions, G: set<Node>)
    requires Lvn(s.nodes, ns, D) && Extends(s, t)
    requires forall n :: n in G <==> exists l: Loc :: ds.Has(l) && n in NodesAt(D.definitions, l)
    ensures G <= t.nodes.Keys
    ensures forall n :: n in G <==> exists l: Loc :: ds.Has(l) && n in DefsAfter(s.nodes, ns, l)
  {
    hide NodesAt, DefsAfter, KillsAtEnd;
    forall l: Loc ensures DefsAfter(s.nodes, ns, l) <= s.nodes.Keys { DefsAfterAreNodes(s.nodes, ns, l); }
  }

  /** What the nodes in front of a use give for its access ds. */
  ghost predicate SearchedInFront(s: State, b: Block, at: nat, phis: seq<Node>, ns: seq<Node>, ds: DefSite,
                                  D: Definitions, G: set<Node>, sites: seq<DefSite>)
  {
    && ds.Proper() && Lvn(s.nodes, ns, D) && UndefinedIn(D.kills, ds, sites)
    && (s.prog.EqualOrDisjoint() ==> FoundInFront(s, b, at, phis, ns, ds, G))
    && forall n :: n in G <==> exists l: Loc :: ds.Has(l) && n in DefsAfter(s.nodes, ns, l)
  }

  lemma FrontFacts(s: State, b: Block, at: nat, phis: seq<Node>, ns: seq<Node>, ds: DefSite, D: Definitions,
                   G: set<Node>, sites: seq<DefSite>)
    requires SearchedInFront(s, b, at, phis, ns, ds, D, G, sites)
    ensures ds.Proper() && Lvn(s.nodes, ns, D) && UndefinedIn(D.kills, ds, sites)
    ensures s.prog.EqualOrDisjoint() ==> FoundInFront(s, b, at, phis, ns, ds, G)
    ensures forall n :: n in G <==> exists l: Loc :: ds.Has(l) && n in DefsAfter(s.nodes, ns, l)
  {
    hide Lvn, UndefinedIn, FoundInFront, DefsAfter;
  }

  lemma FrontSites(s: State, b: Block, at: nat, phis: seq<Node>, ns: seq<Node>, ds: DefSite, D: Definitions,
                   G: set<Node>, sites: seq<DefSite>)
    requires Inv(s, {}) && ds.Proper() && s.prog.Cell(ds) && UndefinedIn(D.kills, ds, sites) && Lvn(s.nodes, ns, D)
    requires b in s.prog.code && at <= |s.prog.code[b]| && Prefix(s, b, at, phis, ns)
    requires forall n :: n in G <==> exists l: Loc :: ds.Has(l) && n in DefsAfter(s.nodes, ns, l)
    ensures forall i :: 0 <= i < |sites| ==> sites[i].Proper() && sites[i].target == ds.target
    ensures SearchedInFront(s, b, at, phis, ns, ds, D, G, sites) && (s.prog.EqualOrDisjoint() ==> |sites| <= 1)
    ensures s.prog.EqualOrDisjoint() ==> forall i :: 0 <= i < |sites| ==> s.prog.Cell(sites[i])
  {
    hide *;
    InvCells(s, {});
    SiteFacts(D.kills, ds, sites);
    if s.prog.EqualOrDisjoint() {
      FrontIntro(s, b, at, phis, ns, ds, G);
      UniformFront(s, b, at, phis, ns, ds, D, G);
      UniformSites(D.kills, ds, sites);
      var l := FirstByte(ds);
      if |sites| == 1 { SameCell(s.prog, ds, sites[0]); }
    }
    FrontFound(s, b, at, phis, ns, ds, D, G, sites);
  }

  lemma FrontFound(s: State, b: Block, at: nat, phis: seq<Node>, ns: seq<Node>, ds: DefSite, D: Definitions,
                   G: set<Node>, sites: seq<DefSite>)
    requires ds.Proper() && Lvn(s.nodes, ns, D) && UndefinedIn(D.kills, ds, sites)
    requires s.prog.EqualOrDisjoint() ==> FoundInFront(s, b, at, phis, ns, ds, G)
    requires forall n :: n in G <==> exists l: Loc :: ds.Has(l) && n in DefsAfter(s.nodes, ns, l)
    ensures SearchedInFront(s, b, at, phis, ns, ds, D, G, sites)
  {
    hide Lvn, UndefinedIn, FoundInFront, DefsAfter, DefSite.Has, Program.EqualOrDisjoint;
  }

  lemma SiteFacts(m: DefinitionsMap, ds: DefSite, sites: seq<DefSite>)
    requires UndefinedIn(m, ds, sites)
    ensures forall i :: 0 <= i < |sites| ==> sites[i].Proper() && sites[i].target == ds.target
  {
    hide NodesAt;
  }

  lemma FrontIntro(s: State, b: Block, at: nat, phis: seq<Node>, ns: seq<Node>, ds: DefSite, G: set<Node>)
    requires Shape(s) && s.prog.EqualOrDisjoint() && CellState(s) && s.prog.Cell(ds)
    requires b in s.prog.code && at <= |s.prog.code[b]| && Prefix(s, b, at, phis, ns)
    requires forall n :: n in G <==> exists l: Loc :: ds.Has(l) && n in DefsAfter(s.nodes, ns, l)
    ensures FoundInFront(s, b, at, phis, ns, ds, G)
  {
    hide Shape, CellState, Prefix, DefsAfter;
  }

  lemma UseStep(s: State, m: State, t: State, u: Node, b: Block, at: nat, phis: seq<Node>, ns: seq<Node>, j: nat,
                D: Definitions, G: set<Node>, sites: seq<DefSite>, R: set<Node>, Rs: set<Node>)
    requires Extends(s, m) && Extends(m, t) && Extends(s, t) && Static(s) && Static(t) && t.prog == s.prog == m.prog
    requires u in s.prog.place && s.prog.place[u] == (b, at) && u in s.prog.nodes && j < |s.prog.nodes[u].uses|
    requires b in s.prog.preds && b in s.prog.code && at <= |s.prog.code[b]|
    requires UseSoFar(m, R, u, j) && s.prog.nodes[u].uses[j].Proper()
    requires s.prog.EqualOrDisjoint() ==> FoundInFront(s, b, at, phis, ns, s.prog.nodes[u].uses[j], G)
    requires Lvn(s.nodes, ns, D) && UndefinedIn(D.kills, s.prog.nodes[u].uses[j], sites)
    requires (sites == [] ==> Rs == {}) && (s.prog.EqualOrDisjoint() && |sites| == 1 ==> RightEntry(t, Rs, b, sites[0]))
    ensures UseSoFar(t, R + (G + Rs), u, j + 1)
  {
    hide Lvn, UndefinedIn, FoundInFront, RightEntry, Extends, Static, AccessesRight, UseCovered, UseJustified;
    if s.prog.EqualOrDisjoint() {
      UseLookup(s, t, b, at, phis, ns, s.prog.nodes[u].uses[j], D, G, sites, Rs);
      AccessesStep(m, t, R, G + Rs, b, at, s.prog.nodes[u].uses, j);
    }
  }

  lemma AccessesStep(m: State, t: State, R: set<Node>, R': set<Node>, b: Block, at: nat, uses: seq<DefSite>, j: nat)
    requires Extends(m, t) && Static(m) && Static(t) && t.prog == m.prog && b in m.prog.preds && b in m.prog.code
    requires at <= |m.prog.code[b]|
    requires j < |uses| && uses[j].Proper() && AccessesRight(m, R, b, at, uses, j)
    requires forall l: Loc :: uses[j].Has(l) ==> UseCovered(t, R', b, at, l) && forall n :: n in R' ==>
      UseJustified(t, n, b, at, l)
    ensures AccessesRight(t, R + R', b, at, uses, j + 1)
  {
    hide CoversEntry, JustifiedEntry, DefsAfter, Kills, Static, Extends;
    forall i, l: Loc | 0 <= i < j + 1 && uses[i].Has(l) ensures UseCovered(t, R + R', b, at, l) {
      if i < j {
        assert UseCovered(m, R, b, at, l);
        CoversExtends(m, t, R, R + R', b, l);
      } else {
        assert UseCovered(t, R', b, at, l);
        ExtendsReflexive(t);
        CoversExtends(t, t, R', R + R', b, l);
      }
    }
    forall n | n in R + R'
      ensures exists i, l: Loc :: 0 <= i < j + 1 && uses[i].Has(l) && UseJustified(t, n, b, at, l)
    {
      if n in R {
        var i, l: Loc :| 0 <= i < j && uses[i].Has(l) && UseJustified(m, n, b, at, l);
        JustifiedExtends(m, t, n, b, l);
        assert UseJustified(t, n, b, at, l);
      } else {
        var l := FirstByte(uses[j]);
        assert UseJustified(t, n, b, at, l);
      }
    }
  }

  lemma SamePlace(ns: seq<Node>, u: Node, k: nat, k': nat)
    requires k < |ns| && k' < |ns| && ns[k] == u && ns[k'] == u
    requires forall j :: 0 <= j < k ==> ns[j] != u
    requires forall j :: 0 <= j < k' ==> ns[j] != u
    ensures k == k'
  {
  }

  // ---- recording the answer

  lemma AddUse(s: State, u: Node, R: set<Node>)
    requires Inv(s, {}) && u in s.prog.nodes && u !in s.defuse && R <= s.nodes.Keys && UseFound(s, R, u)
    ensures var t := s.(defuse := s.defuse[u := R]); Inv(t, {}) && Extends(s, t)
  {
    hide *;
    var t := s.(defuse := s.defuse[u := R]);
    InvShape(s, {});
    InvCells(s, {});
    UseIsNode(s, u);
    CloseKills(s, t, u, R);
    CloseFields(s, t, u, R);
    CloseShape(s, t, u, R);
    CloseInfo(s, t, u, R);
    if s.prog.EqualOrDisjoint() {
      CloseCells(s, t, u, R);
      AddedUseClosed(s, t, u, R);
    }
    InvParts(t, {});
  }

  lemma UseIsNode(s: State, u: Node)
    requires Shape(s) && u in s.prog.nodes
    ensures u in s.nodes
  {
    hide BlockShape, PhiShape;
  }

  lemma AddedUseClosed(s: State, t: State, u: Node, R: set<Node>)
    requires Inv(s, {}) && u in s.prog.nodes && u !in s.defuse && t == s.(defuse := s.defuse[u := R])
    requires Shape(t) && Extends(s, t) && s.prog.EqualOrDisjoint() && UseFound(s, R, u)
    ensures forall g :: g in t.nodes && g !in t.prog.nodes && g !in {} ==> PhiClosed(t, g)
    ensures forall b, i :: b in t.prog.code && 0 <= i < |t.prog.code[b]| && t.prog.code[b][i] in t.defuse ==>
      UseRight(t, t.defuse[t.prog.code[b][i]], t.prog.code[b][i], b, i)
  {
    hide Covers, CoversEntry, Justified, JustifiedEntry, CellState, Extends, BlockShape, PhiShape, InfoNodes, UseRight;
    forall g | g in t.nodes && g !in t.prog.nodes ensures PhiClosed(t, g) { PhiClosedExtends(s, t, g); }
    hide PhiClosed;
    forall b, i | b in t.prog.code && 0 <= i < |t.prog.code[b]| && t.prog.code[b][i] in t.defuse
      ensures UseRight(t, t.defuse[t.prog.code[b][i]], t.prog.code[b][i], b, i)
    {
      var v := t.prog.code[b][i];
      assert t.prog.place[v] == (b, i);
      UseRightExtends(s, t, if v == u then R else s.defuse[v], v, b, i);
    }
  }
}
