/** What the construction finds in any program, with overlapping accesses, too: as long as
    no phi node was given bytes behind its site, no definition is missed. */
module MemorySSACoverage {
  import opened DisjunctiveIntervals
  import opened MemoryDefinitions
  import opened ReachingDefinitions
  import opened MemorySSAState
  import opened MemorySSALemmas
  import opened MemorySSAUses
  import opened MemorySSACorrectness

  /** The cached definitions of b hold those of its code, and a phi node for what else it kills. */
  ghost predicate CacheCovers(s: State, b: Block, l: Loc)
    requires b in s.prog.code
  {
    && DefsAfter(s.prog.nodes, s.prog.code[b], l) <= DefsAtEnd(s, b, l)
    && (KillsAtEnd(s, b, l) && !Kills(s.prog.nodes, s.prog.code[b], l) ==>
          exists f :: f in DefsAtEnd(s, b, l) && PhiAt(s, f, b, l))
  }

  ghost predicate Caches(s: State) { forall b, l: Loc :: b in s.prog.code ==> CacheCovers(s, b, l) }

  ghost predicate Merges(s: State, open: set<Node>)
    requires Shape(s)
  {
    forall f :: f in s.nodes && f !in s.prog.nodes && f !in open ==> PhiMerges(s, f)
  }

  /** R holds the definitions of all bytes that the node u at place `at` of b uses. */
  ghost predicate UseCovers(s: State, R: set<Node>, u: Node, b: Block, at: nat)
    requires Static(s) && b in s.prog.preds && at <= |s.prog.code[b]| && u in s.prog.nodes
  {
    forall l: Loc :: Uses(s.prog.nodes[u], l) ==> UseCovered(s, R, b, at, l)
  }

  ghost predicate Answered(s: State)
    requires Shape(s)
  {
    forall b, i :: b in s.prog.code && 0 <= i < |s.prog.code[b]| && s.prog.code[b][i] in s.defuse ==>
      UseCovers(s, s.defuse[s.prog.code[b][i]], s.prog.code[b][i], b, i)
  }

  /** The invariant while the operands of the phi nodes `open` are searched. */
  ghost predicate Coverage(s: State, open: set<Node>) {
    && Shape(s) && (s.prog.EqualOrDisjoint() ==> !s.claimed)
    && (!s.claimed ==> Caches(s) && Merges(s, open) && Answered(s))
  }

  // ---- what a search promises

  ghost predicate Covering(s: State, R: set<Node>, b: Block, ds: DefSite) {
    !s.claimed ==> Static(s) && b in s.prog.preds && forall l: Loc :: ds.Has(l) ==> Covers(s, R, b, l)
  }

  ghost predicate EntryCovering(s: State, R: set<Node>, b: Block, ds: DefSite) {
    !s.claimed ==> Static(s) && b in s.prog.preds && forall l: Loc :: ds.Has(l) ==> CoversEntry(s, R, b, l)
  }

  ghost predicate SitesCovering(s: State, R: set<Node>, b: Block, sites: seq<DefSite>) {
    forall i :: 0 <= i < |sites| ==> EntryCovering(s, R, b, sites[i])
  }

  ghost predicate OperandsCovering(s: State, ps: seq<Block>, ds: DefSite, ops: set<Node>) {
    !s.claimed ==>
      Static(s) && (forall i :: 0 <= i < |ps| ==> ps[i] in s.prog.preds) && OperandsCover(s, ps, ds, ops)
  }

  lemma EntryCoveringExtends(s: State, t: State, R: set<Node>, R': set<Node>, b: Block, ds: DefSite)
    requires EntryCovering(s, R, b, ds) && Extends(s, t) && R <= R' && Static(t)
    ensures EntryCovering(t, R', b, ds)
  {
    hide Covers, CoversEntry, Static, Extends;
    ClaimedLater(s, t);
    if !t.claimed {
      forall l: Loc | ds.Has(l) ensures CoversEntry(t, R', b, l) { CoversExtends(s, t, R, R', b, l); }
    }
  }

  lemma NoSitesCovering(s: State, b: Block)
    ensures SitesCovering(s, {}, b, [])
  {
  }

  lemma SiteCovering(s: State, R: set<Node>, b: Block, sites: seq<DefSite>, i: nat)
    requires SitesCovering(s, R, b, sites) && i < |sites|
    ensures EntryCovering(s, R, b, sites[i])
  {
    hide EntryCovering;
  }

  lemma OneMoreSite(s: State, t: State, R: set<Node>, R': set<Node>, b: Block, sites: seq<DefSite>, k: nat)
    requires k < |sites| && SitesCovering(s, R, b, sites[..k]) && EntryCovering(t, R', b, sites[k])
    requires Extends(s, t) && Static(t)
    ensures SitesCovering(t, R + R', b, sites[..k + 1])
    ensures k + 1 == |sites| ==> SitesCovering(t, R + R', b, sites)
  {
    hide EntryCovering, Extends, Static;
    var now := sites[..k + 1];
    forall i | 0 <= i < |now| ensures EntryCovering(t, R + R', b, now[i]) {
      if i < k {
        assert sites[..k][i] == now[i];
        EntryCoveringExtends(s, t, R, R + R', b, now[i]);
      } else {
        ExtendsReflexive(t);
        EntryCoveringExtends(t, t, R', R + R', b, now[i]);
      }
    }
    assert k + 1 == |sites| ==> now == sites;
  }

  lemma ClaimedLater(s: State, t: State)
    requires Extends(s, t)
    ensures (s.claimed ==> t.claimed) && t.prog == s.prog
  {
    hide KillsAtEnd;
  }

  /** Through the only predecessor of a block. */
  lemma CoveringThrough(s: State, R: set<Node>, b: Block, ds: DefSite)
    requires Static(s) && b in s.prog.preds && |s.prog.preds[b]| == 1 && Covering(s, R, s.prog.preds[b][0], ds)
    ensures EntryCovering(s, R, b, ds)
  {
  }

  /** At a block with several predecessors, or none. */
  lemma CoveringAtJoin(s: State, R: set<Node>, b: Block, ds: DefSite)
    requires Static(s) && b in s.prog.preds && |s.prog.preds[b]| != 1
    requires (s.prog.preds[b] == [] && ds.target !in s.inputs) || R != {}
    requires forall f, l: Loc :: f in R && ds.Has(l) ==> PhiAt(s, f, b, l)
    ensures EntryCovering(s, R, b, ds)
  {
    hide Static, PhiAt;
    if R != {} {
      var f :| f in R;
      assert forall l: Loc :: ds.Has(l) ==> PhiAt(s, f, b, l);
    }
  }

  lemma OperandsCoveringNone(s: State, ds: DefSite)
    requires Static(s)
    ensures OperandsCovering(s, [], ds, {})
  {
  }

  /** What covers the end of one more predecessor is added. */
  lemma OperandsCoveringStep(s: State, t: State, ps: seq<Block>, k: nat, ds: DefSite, ops: set<Node>, R: set<Node>)
    requires Extends(s, t) && k < |ps| && OperandsCovering(s, ps[..k], ds, ops) && Covering(t, R, ps[k], ds)
    ensures OperandsCovering(t, ps[..k + 1], ds, ops + R)
  {
    hide Covers, Static, Extends;
    ClaimedLater(s, t);
    if !t.claimed {
      var qs := ps[..k + 1];
      ExtendsReflexive(t);
      forall i, l: Loc | 0 <= i < |qs| && ds.Has(l) ensures qs[i] in s.prog.preds && Covers(t, ops + R, qs[i], l) {
        if i < k {
          assert ps[..k][i] == qs[i];
          CoversExtends(s, t, ops, ops + R, qs[i], l);
        } else {
          CoversExtends(t, t, R, ops + R, qs[i], l);
        }
      }
      assert forall i :: 0 <= i < |qs| ==> if i < k then qs[i] == ps[..k][i] else qs[i] == ps[k];
    }
  }

  // ---- the end of one block

  lemma CoveringAtEnd(s: State, t: State, b: Block, ds: DefSite, G: set<Node>, sites: seq<DefSite>, Rs: set<Node>,
                      open: set<Node>)
    requires Coverage(s, open) && Extends(s, t) && Static(t) && b in s.info && s.info[b].processed
    requires forall n :: n in G <==> exists l: Loc :: ds.Has(l) && n in NodesAt(s.info[b].definitions, l)
    requires UndefinedIn(s.info[b].kills, ds, sites)
    requires SitesCovering(t, Rs, b, sites)
    ensures Covering(t, G + Rs, b, ds)
  {
    hide *;
    ClaimedLater(s, t);
    CoverageShape(s, open);
    if !t.claimed {
      CoverageCaches(s, open);
      CoveringIntro(t, G + Rs, b, ds) by {
        forall l: Loc | ds.Has(l) ensures Covers(t, G + Rs, b, l) {
          GatheredHere(s, b, ds, G, l);
          if KillsAtEnd(s, b, l) {
            KilledCovered(s, t, G, b, l);
            ExtendsReflexive(t);
            CoversExtends(t, t, G, G + Rs, b, l);
          } else {
            var i := SiteOfByte(s, b, ds, sites, l);
            SiteCovering(t, Rs, b, sites, i);
            SearchedCovered(s, t, G, Rs, b, sites[i], l);
          }
        }
      }
    } else {
      ClaimedCovering(t, G + Rs, b, ds);
    }
  }

  lemma ClaimedCovering(t: State, R: set<Node>, b: Block, ds: DefSite)
    requires t.claimed
    ensures Covering(t, R, b, ds)
  {
  }

  lemma CoveringIntro(t: State, R: set<Node>, b: Block, ds: DefSite)
    requires Static(t) && b in t.prog.preds && forall l: Loc :: ds.Has(l) ==> Covers(t, R, b, l)
    ensures Covering(t, R, b, ds)
  {
    hide Static, Covers;
  }

  lemma CoverageShape(s: State, open: set<Node>)
    requires Coverage(s, open)
    ensures Shape(s) && s.info.Keys == s.prog.preds.Keys == s.prog.code.Keys && Static(s)
  {
    hide BlockShape, PhiShape, Static, Caches, Merges, Answered;
  }

  lemma CoverageCaches(s: State, open: set<Node>)
    requires Coverage(s, open) && !s.claimed
    ensures forall b, l: Loc :: b in s.prog.code ==> CacheCovers(s, b, l)
  {
    hide CacheCovers, Merges, Answered, Shape;
  }

  lemma GatheredHere(s: State, b: Block, ds: DefSite, G: set<Node>, l: Loc)
    requires b in s.info && s.info[b].processed && ds.Has(l)
    requires forall n :: n in G <==> exists l: Loc :: ds.Has(l) && n in NodesAt(s.info[b].definitions, l)
    ensures DefsAtEnd(s, b, l) <= G
  {
    hide NodesAt;
  }

  lemma SiteOfByte(s: State, b: Block, ds: DefSite, sites: seq<DefSite>, l: Loc) returns (i: nat)
    requires b in s.info && s.info[b].processed && UndefinedIn(s.info[b].kills, ds, sites)
    requires ds.Has(l) && !KillsAtEnd(s, b, l)
    ensures i < |sites| && sites[i].Has(l)
  {
    hide NodesAt;
    i :| 0 <= i < |sites| && sites[i].Has(l);
  }

  lemma KilledCovered(s: State, t: State, G: set<Node>, b: Block, l: Loc)
    requires Shape(s) && Extends(s, t) && Static(t) && b in s.prog.code && b in t.prog.preds && CacheCovers(s, b, l)
    requires DefsAtEnd(s, b, l) <= G && KillsAtEnd(s, b, l)
    ensures Covers(t, G, b, l)
  {
    hide Shape, KillsAtEnd, DefsAtEnd, DefsAfter, Kills, Static;
    if !Kills(s.prog.nodes, s.prog.code[b], l) {
      var f :| f in DefsAtEnd(s, b, l) && PhiAt(s, f, b, l);
      PhiAtJoin(s, f, b, l);
      assert f in G && PhiAt(t, f, b, l);
    }
  }

  lemma PhiAtJoin(s: State, f: Node, b: Block, l: Loc)
    requires Shape(s) && PhiAt(s, f, b, l)
    ensures b in s.prog.preds && |s.prog.preds[b]| != 1
  {
    hide Shape;
    PhiIsNew(s, f);
  }

  lemma SearchedCovered(s: State, t: State, G: set<Node>, Rs: set<Node>, b: Block, site: DefSite, l: Loc)
    requires Extends(s, t) && Static(t) && b in s.prog.code && b in t.prog.preds && CacheCovers(s, b, l) && !t.claimed
    requires DefsAtEnd(s, b, l) <= G && site.Has(l) && EntryCovering(t, Rs, b, site)
    ensures Covers(t, G + Rs, b, l)
  {
    hide KillsAtEnd, DefsAtEnd, DefsAfter, Kills, Static, CoversEntry, Extends;
    ClaimedLater(s, t);
    ExtendsReflexive(t);
    CoversExtends(t, t, Rs, G + Rs, b, l);
  }

  // ---- the invariant is kept

  lemma SameViewKeepsCoverage(s: State, t: State, open: set<Node>)
    requires Coverage(s, open) && SameView(s, t) && Extends(s, t) && Shape(t)
    ensures Coverage(t, open)
  {
    hide *;
    SameViewFields(s, t);
    CoverageClaims(s, open);
    if !t.claimed {
      CoverageCaches(s, open);
      forall b, l: Loc | b in t.prog.code ensures CacheCovers(t, b, l) { SameViewCache(s, t, b, l); }
      CachesIntro(t);
    }
    CoverageExtends(s, t, open, open);
  }

  lemma CachesIntro(t: State)
    requires forall b, l: Loc :: b in t.prog.code ==> CacheCovers(t, b, l)
    ensures Caches(t)
  {
    hide CacheCovers;
  }

  lemma SameViewFields(s: State, t: State)
    requires SameView(s, t)
    ensures t.prog == s.prog && t.nodes == s.nodes && t.where_ == s.where_ && t.defuse == s.defuse
    ensures t.claimed == s.claimed && t.blocks == s.blocks
  {
    hide KillsAtEnd, DefsAtEnd;
  }

  lemma SameViewCache(s: State, t: State, b: Block, l: Loc)
    requires SameView(s, t) && b in s.prog.code && CacheCovers(s, b, l)
    ensures CacheCovers(t, b, l)
  {
    hide KillsAtEnd, DefsAtEnd, DefsAfter, Kills;
    SameViewFields(s, t);
    assert forall f :: PhiAt(s, f, b, l) ==> PhiAt(t, f, b, l);
  }

  lemma CoverageExtends(s: State, t: State, open: set<Node>, open': set<Node>)
    requires Coverage(s, open) && Extends(s, t) && Shape(t) && t.defuse == s.defuse
    requires t.prog.EqualOrDisjoint() ==> !t.claimed
    requires !t.claimed ==> Caches(t)
    requires forall f :: f in t.nodes && f !in t.prog.nodes && f !in open' ==>
      (f in s.nodes && f !in open) || t.nodes[f].kind == InArg
    ensures Coverage(t, open')
  {
    hide *;
    ClaimedLater(s, t);
    CoverageShape(s, open);
    if !t.claimed {
      CoverageParts(s, open);
      MergesExtends(s, t, open, open');
      AnsweredExtends(s, t);
    }
    CoverageIntro(t, open');
  }

  lemma CoverageParts(s: State, open: set<Node>)
    requires Coverage(s, open) && !s.claimed
    ensures Shape(s) && Caches(s) && Merges(s, open) && Answered(s)
  {
    hide Shape, Caches, Merges, Answered;
  }

  lemma CoverageIntro(t: State, open: set<Node>)
    requires Shape(t) && (t.prog.EqualOrDisjoint() ==> !t.claimed)
    requires !t.claimed ==> Caches(t) && Merges(t, open) && Answered(t)
    ensures Coverage(t, open)
  {
    hide Shape, Caches, Merges, Answered;
  }

  lemma MergesExtends(s: State, t: State, open: set<Node>, open': set<Node>)
    requires Shape(s) && Shape(t) && Extends(s, t) && Merges(s, open)
    requires forall f :: f in t.nodes && f !in t.prog.nodes && f !in open' ==>
      (f in s.nodes && f !in open) || t.nodes[f].kind == InArg
    ensures Merges(t, open')
  {
    hide Shape, PhiMerges, Extends;
    ClaimedLater(s, t);
    forall f | f in t.nodes && f !in t.prog.nodes && f !in open' ensures PhiMerges(t, f) {
      if f in s.nodes && f !in open { PhiMergesExtends(s, t, f); } else { InputMerges(t, f); }
    }
  }

  lemma InputMerges(t: State, f: Node)
    requires Shape(t) && f in t.nodes && f !in t.prog.nodes && t.nodes[f].kind == InArg
    ensures PhiMerges(t, f)
  {
    hide Covers;
    ShapeOfPhi(t, f);
    hide Shape;
  }

  lemma PhiMergesExtends(s: State, t: State, f: Node)
    requires Shape(s) && Shape(t) && Extends(s, t) && f in s.nodes && f !in s.prog.nodes && PhiMerges(s, f)
    ensures f in t.nodes && f !in t.prog.nodes && PhiMerges(t, f)
  {
    ShapeOfPhi(s, f);
    PredsOfPhi(s, f);
    hide Shape, Covers, Static;
    if s.nodes[f].kind != InArg {
      OperandsCoverExtend(s, t, s.prog.preds[s.where_[f]], s.nodes[f].overwrites[0], s.defuse[f]);
    }
  }

  lemma PredsOfPhi(s: State, f: Node)
    requires Shape(s) && f in s.nodes && f !in s.prog.nodes
    ensures f in s.where_ && s.where_[f] in s.prog.preds && |s.nodes[f].overwrites| == 1 && Static(s)
    ensures forall i :: 0 <= i < |s.prog.preds[s.where_[f]]| ==> s.prog.preds[s.where_[f]][i] in s.prog.preds
  {
    ShapeOfPhi(s, f);
    hide BlockShape;
  }

  lemma OperandsCoverExtend(s: State, t: State, ps: seq<Block>, ds: DefSite, ops: set<Node>)
    requires Static(s) && Static(t) && Extends(s, t) && forall i :: 0 <= i < |ps| ==> ps[i] in s.prog.preds
    requires OperandsCover(s, ps, ds, ops)
    ensures OperandsCover(t, ps, ds, ops)
  {
    hide Covers, Extends, Static;
    ClaimedLater(s, t);
    forall i, l: Loc | 0 <= i < |ps| && ds.Has(l) ensures Covers(t, ops, ps[i], l) {
      CoversExtends(s, t, ops, ops, ps[i], l);
    }
  }

  lemma AnsweredExtends(s: State, t: State)
    requires Shape(s) && Shape(t) && Extends(s, t) && t.defuse == s.defuse && Answered(s)
    ensures Answered(t)
  {
    hide BlockShape, PhiShape, UseCovers, Extends;
    ClaimedLater(s, t);
    forall b, i | b in t.prog.code && 0 <= i < |t.prog.code[b]| && t.prog.code[b][i] in t.defuse
      ensures UseCovers(t, t.defuse[t.prog.code[b][i]], t.prog.code[b][i], b, i)
    {
      UseCoversExtends(s, t, s.defuse[s.prog.code[b][i]], s.prog.code[b][i], b, i);
    }
  }

  lemma UseCoversExtends(s: State, t: State, R: set<Node>, u: Node, b: Block, at: nat)
    requires Static(s) && Static(t) && Extends(s, t) && b in s.prog.preds && at <= |s.prog.code[b]|
    requires u in s.prog.nodes && UseCovers(s, R, u, b, at)
    ensures t.prog == s.prog && UseCovers(t, R, u, b, at)
  {
    hide CoversEntry, DefsAfter, Kills, Extends, Static;
    ClaimedLater(s, t);
    forall l: Loc | Uses(s.prog.nodes[u], l) ensures UseCovered(t, R, b, at, l) { CoversExtends(s, t, R, R, b, l); }
  }

  // ---- a new phi node

  lemma PlacedPhiCovers(s: State, b: Block, ds: DefSite, f: Node, kind: Kind, D: Definitions, sites: seq<DefSite>,
                        open: set<Node>)
    requires Inv(s, open) && Coverage(s, open) && b in s.info && b in s.blocks && s.info[b].processed
    requires PhiAllowed(s, b, ds, f, kind) && Covered(s.info[b], D, ds, f, sites)
    requires var t := WithPhi(s, b, ds, f, kind, D, Oversteps(ds, sites)); Shape(t) && Extends(s, t)
    ensures Coverage(WithPhi(s, b, ds, f, kind, D, Oversteps(ds, sites)), if kind == Phi then open + {f} else open)
  {
    hide *;
    var t := WithPhi(s, b, ds, f, kind, D, Oversteps(ds, sites));
    WithPhiIsAdded(s, b, ds, f, kind, D, sites);
    NeverOversteps(s, b, ds, f, kind, D, sites, open);
    CoverageClaims(s, open);
    PhiAddedClaims(s, t, b, ds, f, kind, sites);
    if !t.claimed {
      CoverageShape(s, open);
      PhiAddedCaches(s, t, b, ds, f, kind, D, sites, open);
    }
    PhiAddedOpen(s, t, b, ds, f, kind, sites, open);
    CoverageExtends(s, t, open, if kind == Phi then open + {f} else open);
  }

  lemma CoverageClaims(s: State, open: set<Node>)
    requires Coverage(s, open)
    ensures s.prog.EqualOrDisjoint() ==> !s.claimed
  {
    hide Shape, Caches, Merges, Answered, Program.EqualOrDisjoint;
  }

  /** Where accesses are equal or disjoint, the search never leaves a site. */
  lemma NeverOversteps(s: State, b: Block, ds: DefSite, f: Node, kind: Kind, D: Definitions, sites: seq<DefSite>,
                       open: set<Node>)
    requires Inv(s, open) && b in s.info && s.info[b].processed
    requires PhiAllowed(s, b, ds, f, kind) && Covered(s.info[b], D, ds, f, sites)
    ensures s.prog.EqualOrDisjoint() ==> !Oversteps(ds, sites)
  {
    hide *;
    if s.prog.EqualOrDisjoint() {
      InvCells(s, open);
      AllowedCell(s, b, ds, f, kind);
      CoveredSites(s.info[b], D, ds, f, sites);
      var l := AllowedByte(s, b, ds, f, kind);
      CellSites(s, b, ds, sites, l);
      OnlyItself(ds, sites);
    }
  }

  lemma CoveredSites(D0: Definitions, D: Definitions, ds: DefSite, f: Node, sites: seq<DefSite>)
    requires Covered(D0, D, ds, f, sites)
    ensures UndefinedIn(D0.kills, ds, sites)
  {
    hide NodesAt, SomeSite, UndefinedIn;
  }

  lemma AllowedByte(s: State, b: Block, ds: DefSite, f: Node, kind: Kind) returns (l: Loc)
    requires PhiAllowed(s, b, ds, f, kind)
    ensures ds.Has(l)
  {
    l := FirstByte(ds);
  }

  lemma OnlyItself(ds: DefSite, sites: seq<DefSite>)
    requires sites == [] || (|sites| == 1 && sites[0].Bytes() == ds.Bytes())
    ensures !Oversteps(ds, sites)
  {
  }

  lemma PhiAddedCaches(s: State, t: State, b: Block, ds: DefSite, f: Node, kind: Kind, D: Definitions,
                       sites: seq<DefSite>, open: set<Node>)
    requires Coverage(s, open) && Extends(s, t) && !t.claimed && !s.claimed && !Oversteps(ds, sites)
    requires b in s.info && b in s.blocks && s.info[b].processed && PhiAllowed(s, b, ds, f, kind)
    requires Covered(s.info[b], D, ds, f, sites) && PhiAdded(s, t, b, ds, f, kind, sites)
    ensures Caches(t)
  {
    hide *;
    CoverageShape(s, open);
    CoverageCaches(s, open);
    CoveredSites(s.info[b], D, ds, f, sites);
    PhiAddedKills(s, t, b, ds, f, kind, sites);
    PhiAddedClaims(s, t, b, ds, f, kind, sites);
    forall c, l: Loc | c in t.prog.code ensures CacheCovers(t, c, l) {
      if SomeSite(sites, l) { InsideSite(s.info[b].kills, ds, sites, l); }
      PhiAddedCacheCovers(s, t, b, f, sites, c, l);
    }
    CachesIntro(t);
  }

  lemma InsideSite(m: DefinitionsMap, ds: DefSite, sites: seq<DefSite>, l: Loc)
    requires UndefinedIn(m, ds, sites) && !Oversteps(ds, sites) && SomeSite(sites, l)
    ensures ds.Has(l)
  {
    hide NodesAt;
    var i :| 0 <= i < |sites| && sites[i].Has(l);
    assert ds.Has(Loc(ds.target, sites[i].offset)) && sites[i].Bytes().end <= ds.Bytes().end;
  }

  lemma PhiAddedCacheCovers(s: State, t: State, b: Block, f: Node, sites: seq<DefSite>, c: Block, l: Loc)
    requires Extends(s, t) && c in s.prog.code && CacheCovers(s, c, l)
    requires KillsAtEnd(t, c, l) <==> KillsAtEnd(s, c, l) || (c == b && SomeSite(sites, l))
    requires DefsAtEnd(t, c, l) == DefsAtEnd(s, c, l) + (if c == b && SomeSite(sites, l) then {f} else {})
    requires SomeSite(sites, l) ==> PhiAt(t, f, b, l)
    ensures c in t.prog.code && CacheCovers(t, c, l)
  {
    hide KillsAtEnd, DefsAtEnd, DefsAfter, Kills, SomeSite;
    forall g | PhiAt(s, g, c, l) ensures PhiAt(t, g, c, l) {}
  }

  /** All that holds after a phi node was placed. */
  lemma PhiPlaced(s: State, b: Block, ds: DefSite, f: Node, kind: Kind, D: Definitions, sites: seq<DefSite>,
                  open: set<Node>)
    requires Inv(s, open) && Coverage(s, open) && b in s.info && b in s.blocks && s.info[b].processed
    requires PhiAllowed(s, b, ds, f, kind) && Covered(s.info[b], D, ds, f, sites)
    requires Oversteps(ds, sites) <==> WillOverstep(s.info[b].kills, ds)
    ensures var t, open' := WithPhi(s, b, ds, f, kind, D, Oversteps(ds, sites)),
      if kind == Phi then open + {f} else open;
      Inv(t, open') && Coverage(t, open') && Extends(s, t) && PlacedAt(s, t, b, ds, f, kind, sites)
    ensures PlacedFields(s, WithPhi(s, b, ds, f, kind, D, Oversteps(ds, sites)), b, ds, f, kind)
  {
    hide *;
    var t, open' := WithPhi(s, b, ds, f, kind, D, Oversteps(ds, sites)), if kind == Phi then open + {f} else open;
    PlacedPhi(s, b, ds, f, kind, D, sites, open);
    InvShape(t, open');
    PlacedPhiCovers(s, b, ds, f, kind, D, sites, open);
    WithPhiIsAdded(s, b, ds, f, kind, D, sites);
    CoveredSites(s.info[b], D, ds, f, sites);
    PlacedIntro(s, t, b, ds, f, kind, sites);
    WithPhiFields(s, b, ds, f, kind, D, Oversteps(ds, sites));
    FieldsIntro(s, t, b, ds, f, kind);
  }

  // ---- the operands of a phi node are known

  lemma CoverageCloses(s: State, t: State, f: Node, b: Block, ds: DefSite, ops: set<Node>, open: set<Node>)
    requires Coverage(s, open + {f}) && Shape(t) && Extends(s, t) && t == s.(defuse := s.defuse[f := ops])
    requires f in s.nodes && f !in s.prog.nodes && s.nodes[f] == RWNode([], [ds], [], Phi)
    requires f in s.where_ && s.where_[f] == b && b in s.prog.preds && OperandsCovering(s, s.prog.preds[b], ds, ops)
    ensures Coverage(t, open)
  {
    hide *;
    CoverageClaims(s, open + {f});
    CoverageShape(s, open + {f});
    if !t.claimed {
      CoverageParts(s, open + {f});
      ClosedCaches(s, t, f, ops);
      ClosedMerges(s, t, f, b, ds, ops, open);
      ClosedAnswers(s, t, f, ops);
    }
    CoverageIntro(t, open);
  }

  lemma ClosedCaches(s: State, t: State, f: Node, ops: set<Node>)
    requires t == s.(defuse := s.defuse[f := ops]) && Caches(s)
    ensures Caches(t)
  {
    hide KillsAtEnd, DefsAtEnd, DefsAfter, Kills;
    CloseKills(s, t, f, ops);
    forall b, l: Loc | b in t.prog.code ensures CacheCovers(t, b, l) {
      assert CacheCovers(s, b, l);
      assert forall g :: PhiAt(s, g, b, l) <==> PhiAt(t, g, b, l);
    }
  }

  lemma ClosedMerges(s: State, t: State, f: Node, b: Block, ds: DefSite, ops: set<Node>, open: set<Node>)
    requires Shape(s) && Shape(t) && Extends(s, t) && t == s.(defuse := s.defuse[f := ops]) && Merges(s, open + {f})
    requires !s.claimed && f in s.nodes && f !in s.prog.nodes && s.nodes[f] == RWNode([], [ds], [], Phi)
    requires f in s.where_ && s.where_[f] == b && b in s.prog.preds && OperandsCovering(s, s.prog.preds[b], ds, ops)
    ensures Merges(t, open)
  {
    hide Shape, Extends, PhiMerges, Static, OperandsCover;
    forall g | g in t.nodes && g !in t.prog.nodes && g !in open ensures PhiMerges(t, g) {
      if g == f { ClosedPhi(s, t, f, b, ds, ops); } else { PhiMergesExtends(s, t, g); }
    }
  }

  lemma ClosedPhi(s: State, t: State, f: Node, b: Block, ds: DefSite, ops: set<Node>)
    requires Shape(s) && Shape(t) && Extends(s, t) && t == s.(defuse := s.defuse[f := ops]) && !s.claimed
    requires f in s.nodes && f !in s.prog.nodes && s.nodes[f] == RWNode([], [ds], [], Phi)
    requires f in s.where_ && s.where_[f] == b && b in s.prog.preds && OperandsCovering(s, s.prog.preds[b], ds, ops)
    ensures PhiMerges(t, f)
  {
    PredsOfPhi(s, f);
    ShapeFacts(t);
    hide Shape, Covers, Static, Extends;
    OperandsCoverExtend(s, t, s.prog.preds[b], ds, ops);
    PredsOfPhi(t, f);
  }

  /** The operands of f are no answer to a use. */
  lemma ClosedAnswers(s: State, t: State, f: Node, ops: set<Node>)
    requires Shape(s) && Shape(t) && Extends(s, t) && t == s.(defuse := s.defuse[f := ops]) && Answered(s)
    requires f !in s.prog.nodes
    ensures Answered(t)
  {
    hide BlockShape, PhiShape, UseCovers, Extends;
    forall b, i | b in t.prog.code && 0 <= i < |t.prog.code[b]| && t.prog.code[b][i] in t.defuse
      ensures UseCovers(t, t.defuse[t.prog.code[b][i]], t.prog.code[b][i], b, i)
    {
      assert t.prog.code[b][i] != f;
      UseCoversExtends(s, t, s.defuse[s.prog.code[b][i]], s.prog.code[b][i], b, i);
    }
  }

  // ---- uses

  /** R covers the first j accesses of u. */
  ghost predicate UseReachedSoFar(s: State, R: set<Node>, u: Node, j: nat) {
    !s.claimed && u in s.prog.place && u in s.prog.nodes ==>
      var (b, at) := s.prog.place[u];
      && Static(s) && b in s.prog.preds && b in s.prog.code && at <= |s.prog.code[b]|
      && j <= |s.prog.nodes[u].uses|
      && AccessesCovered(s, R, b, at, s.prog.nodes[u].uses[..j])
  }

  ghost predicate AccessesCovered(s: State, R: set<Node>, b: Block, at: nat, uses: seq<DefSite>)
    requires Static(s) && b in s.prog.preds && at <= |s.prog.code[b]|
  {
    forall i :: 0 <= i < |uses| ==> AccessCovered(s, R, b, at, uses[i])
  }

  ghost predicate AccessCovered(s: State, R: set<Node>, b: Block, at: nat, ds: DefSite)
    requires Static(s) && b in s.prog.preds && at <= |s.prog.code[b]|
  {
    forall l: Loc :: ds.Has(l) ==> UseCovered(s, R, b, at, l)
  }

  ghost predicate UseReached(s: State, R: set<Node>, u: Node) {
    !s.claimed && u in s.prog.place && u in s.prog.nodes ==>
      var (b, at) := s.prog.place[u];
      Static(s) && b in s.prog.preds && b in s.prog.code && at <= |s.prog.code[b]| && UseCovers(s, R, u, b, at)
  }

  lemma NoPlaceReached(s: State, u: Node)
    requires u !in s.prog.place
    ensures UseReached(s, {}, u)
  {
  }

  lemma UseReachedNone(s: State, u: Node)
    requires Shape(s) && u in s.prog.place
    ensures UseReachedSoFar(s, {}, u, 0)
  {
    ShapeFacts(s);
    UseInCode(s, u, s.prog.place[u].0, s.prog.place[u].1);
    hide Shape, Static, AccessCovered;
  }

  lemma UseReachedAll(s: State, R: set<Node>, u: Node)
    requires u in s.prog.nodes && UseReachedSoFar(s, R, u, |s.prog.nodes[u].uses|)
    ensures UseReached(s, R, u)
  {
    hide UseCovered, Static;
    if !s.claimed && u in s.prog.place {
      var (b, at) := s.prog.place[u];
      forall l: Loc | Uses(s.prog.nodes[u], l) ensures UseCovered(s, R, b, at, l) {
        var i :| 0 <= i < |s.prog.nodes[u].uses| && s.prog.nodes[u].uses[i].Has(l);
        assert AccessCovered(s, R, b, at, s.prog.nodes[u].uses[..|s.prog.nodes[u].uses|][i]);
      }
    }
  }

  /** One access: the nodes in front of the use and, for the rest, the search from the entry. */
  lemma FrontCovered(s: State, t: State, b: Block, at: nat, phis: seq<Node>, ns: seq<Node>, ds: DefSite,
                     D: Definitions, G: set<Node>, sites: seq<DefSite>, Rs: set<Node>)
    requires Shape(s) && Extends(s, t) && Static(t) && !t.claimed && b in t.prog.preds
    requires t.prog == s.prog && b in s.prog.code && at <= |s.prog.code[b]| && Prefix(s, b, at, phis, ns)
    requires Lvn(s.nodes, ns, D) && UndefinedIn(D.kills, ds, sites)
    requires forall n :: n in G <==> exists l: Loc :: ds.Has(l) && n in DefsAfter(s.nodes, ns, l)
    requires SitesCovering(t, Rs, b, sites)
    ensures AccessCovered(t, G + Rs, b, at, ds)
  {
    hide *;
    AccessIntro(t, G + Rs, b, at, ds) by {
      forall l: Loc | ds.Has(l) ensures UseCovered(t, G + Rs, b, at, l) {
        assert DefsAfter(s.nodes, ns, l) <= G;
        if Kills(s.nodes, ns, l) {
          FrontKilled(s, t, b, at, phis, ns, G, Rs, l);
        } else {
          var i := SiteInFront(s, ns, D, ds, sites, l);
          SiteCovering(t, Rs, b, sites, i);
          FrontSearched(s, t, b, at, phis, ns, G, Rs, sites[i], l);
        }
      }
    }
  }

  lemma AccessIntro(t: State, R: set<Node>, b: Block, at: nat, ds: DefSite)
    requires Static(t) && b in t.prog.preds && at <= |t.prog.code[b]|
    requires forall l: Loc :: ds.Has(l) ==> UseCovered(t, R, b, at, l)
    ensures AccessCovered(t, R, b, at, ds)
  {
    hide UseCovered, Static;
  }

  lemma SiteInFront(s: State, ns: seq<Node>, D: Definitions, ds: DefSite, sites: seq<DefSite>, l: Loc) returns (i: nat)
    requires Lvn(s.nodes, ns, D) && UndefinedIn(D.kills, ds, sites) && ds.Has(l) && !Kills(s.nodes, ns, l)
    ensures i < |sites| && sites[i].Has(l)
  {
    hide NodesAt, Kills, DefsAfter;
    i :| 0 <= i < |sites| && sites[i].Has(l);
  }

  lemma FrontKilled(s: State, t: State, b: Block, at: nat, phis: seq<Node>, ns: seq<Node>, G: set<Node>, Rs: set<Node>,
                    l: Loc)
    requires Shape(s) && Extends(s, t) && Static(t) && b in t.prog.preds && t.prog == s.prog
    requires b in s.prog.code && at <= |s.prog.code[b]| && Prefix(s, b, at, phis, ns)
    requires DefsAfter(s.nodes, ns, l) <= G && Kills(s.nodes, ns, l)
    ensures UseCovered(t, G + Rs, b, at, l)
  {
    hide Shape, DefsAfter, Kills, Static;
    DefsInFront(s, b, at, phis, ns, l);
    PhisAfter(s, b, phis, l);
    if !Kills(s.prog.nodes, s.prog.code[b][..at], l) {
      var f :| DefsAfter(s.nodes, phis, l) == {f} && PhiAt(s, f, b, l);
      PhiAtJoin(s, f, b, l);
      assert f in G + Rs && PhiAt(t, f, b, l);
    }
  }

  lemma FrontSearched(s: State, t: State, b: Block, at: nat, phis: seq<Node>, ns: seq<Node>, G: set<Node>,
                      Rs: set<Node>, site: DefSite, l: Loc)
    requires Shape(s) && Static(t) && b in t.prog.preds && t.prog == s.prog && !t.claimed
    requires b in s.prog.code && at <= |s.prog.code[b]| && Prefix(s, b, at, phis, ns)
    requires DefsAfter(s.nodes, ns, l) <= G && !Kills(s.nodes, ns, l)
    requires site.Has(l) && EntryCovering(t, Rs, b, site)
    ensures UseCovered(t, G + Rs, b, at, l)
  {
    hide Shape, DefsAfter, Kills, Static, CoversEntry;
    DefsInFront(s, b, at, phis, ns, l);
    ExtendsReflexive(t);
    CoversExtends(t, t, Rs, G + Rs, b, l);
  }

  lemma UseReachedStep(s: State, m: State, t: State, u: Node, b: Block, at: nat, phis: seq<Node>, ns: seq<Node>, j: nat,
                       D: Definitions, G: set<Node>, sites: seq<DefSite>, R: set<Node>, Rs: set<Node>)
    requires Shape(s) && Extends(s, t) && Extends(m, t) && Static(m) && Static(t) && t.prog == s.prog == m.prog
    requires u in s.prog.place && s.prog.place[u] == (b, at) && u in s.prog.nodes && j < |s.prog.nodes[u].uses|
    requires b in s.prog.preds && b in s.prog.code && at <= |s.prog.code[b]| && Prefix(s, b, at, phis, ns)
    requires UseReachedSoFar(m, R, u, j)
    requires var ds := s.prog.nodes[u].uses[j];
      && Lvn(s.nodes, ns, D) && UndefinedIn(D.kills, ds, sites)
      && forall n :: n in G <==> exists l: Loc :: ds.Has(l) && n in DefsAfter(s.nodes, ns, l)
    requires SitesCovering(t, Rs, b, sites)
    ensures UseReachedSoFar(t, R + (G + Rs), u, j + 1)
  {
    hide Shape, Lvn, UndefinedIn, SitesCovering, Extends, Static, AccessCovered, Prefix, DefsAfter;
    ClaimedLater(m, t);
    if !t.claimed {
      var uses := s.prog.nodes[u].uses;
      FrontCovered(s, t, b, at, phis, ns, uses[j], D, G, sites, Rs);
      var now := uses[..j + 1];
      forall i | 0 <= i < |now| ensures AccessCovered(t, R + (G + Rs), b, at, now[i]) {
        if i < j {
          assert uses[..j][i] == now[i];
          AccessExtends(m, t, R, R + (G + Rs), b, at, uses[i]);
        } else {
          ExtendsReflexive(t);
          AccessExtends(t, t, G + Rs, R + (G + Rs), b, at, uses[j]);
        }
      }
    }
  }

  lemma AccessExtends(s: State, t: State, R: set<Node>, R': set<Node>, b: Block, at: nat, ds: DefSite)
    requires Static(s) && Static(t) && Extends(s, t) && t.prog == s.prog && R <= R'
    requires b in s.prog.preds && at <= |s.prog.code[b]| && AccessCovered(s, R, b, at, ds)
    ensures AccessCovered(t, R', b, at, ds)
  {
    hide CoversEntry, DefsAfter, Kills, Extends, Static;
    forall l: Loc | ds.Has(l) ensures UseCovered(t, R', b, at, l) {
      assert UseCovered(s, R, b, at, l);
      CoversExtends(s, t, R, R', b, l);
    }
  }

  /** The answer to u is recorded. */
  lemma CoverageAddsUse(s: State, t: State, u: Node, R: set<Node>)
    requires Coverage(s, {}) && u in s.prog.nodes && t == s.(defuse := s.defuse[u := R]) && Shape(t) && Extends(s, t)
    requires UseReached(s, R, u)
    ensures Coverage(t, {})
  {
    hide *;
    CoverageClaims(s, {});
    CoverageShape(s, {});
    if !t.claimed {
      CoverageParts(s, {});
      ClosedCaches(s, t, u, R);
      AddedMerges(s, t, u, R);
      AddedAnswers(s, t, u, R);
    }
    CoverageIntro(t, {});
  }

  lemma AddedMerges(s: State, t: State, u: Node, R: set<Node>)
    requires Shape(s) && Shape(t) && Extends(s, t) && t == s.(defuse := s.defuse[u := R]) && Merges(s, {})
    ensures Merges(t, {})
  {
    hide Shape, Extends, PhiMerges;
    forall g | g in t.nodes && g !in t.prog.nodes ensures PhiMerges(t, g) { PhiMergesExtends(s, t, g); }
  }

  lemma AddedAnswers(s: State, t: State, u: Node, R: set<Node>)
    requires Shape(s) && Shape(t) && Extends(s, t) && t == s.(defuse := s.defuse[u := R]) && Answered(s)
    requires u in s.prog.nodes && !s.claimed && UseReached(s, R, u)
    ensures Answered(t)
  {
    hide BlockShape, PhiShape, UseCovers, Extends;
    forall b, i | b in t.prog.code && 0 <= i < |t.prog.code[b]| && t.prog.code[b][i] in t.defuse
      ensures UseCovers(t, t.defuse[t.prog.code[b][i]], t.prog.code[b][i], b, i)
    {
      var v := t.prog.code[b][i];
      assert t.prog.place[v] == (b, i);
      UseCoversExtends(s, t, if v == u then R else s.defuse[v], v, b, i);
    }
  }

  // ---- the state to start from, and the result

  lemma InitialCoverage(s: State)
    requires Initial(s) && Shape(s)
    ensures Coverage(s, {})
  {
    hide Shape, Static, DefsAfter, Kills, NodesAt, KillsAtEnd, DefsAtEnd;
    forall b, l: Loc | b in s.prog.code ensures CacheCovers(s, b, l) { InitialCache(s, b, l); }
  }

  lemma InitialCache(s: State, b: Block, l: Loc)
    requires Initial(s) && b in s.prog.code
    ensures CacheCovers(s, b, l)
  {
    hide Static, DefsAfter, Kills, NodesAt;
  }

  /** Every definition that reaches u is gathered from its def-use edges. */
  lemma NothingIsMissed(s: State, u: Node, n: Node)
    requires Coverage(s, {}) && !s.claimed && u in s.defuse && ReachingDef(s.prog, u, n)
    ensures Gathers(s, s.defuse[u], n)
  {
    hide Gathers, UseCovered, Program.Reaches, BlockShape, PhiShape, PhiMerges, Caches;
    var (b, at) := s.prog.place[u];
    var l: Loc :| Uses(s.prog.nodes[u], l) && s.prog.Reaches(n, b, at, l);
    UseInCode(s, u, b, at);
    assert UseCovers(s, s.defuse[s.prog.code[b][at]], s.prog.code[b][at], b, at);
    UsePathIsCovered(s, s.defuse[u], n, b, at, l);
  }
}
