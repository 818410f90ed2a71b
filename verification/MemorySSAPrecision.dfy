/** What the construction finds is real in any program: as long as no report of uncovered
    bytes passed the end of its site, every node that is found is a definition of one of
    the bytes that were asked for. */
module MemorySSAPrecision {
  import opened Offsets
  import opened DisjunctiveIntervals
  import opened MemoryDefinitions
  import opened ReachingDefinitions
  import opened MemorySSAState
  import opened MemorySSALemmas
  import opened MemorySSAUses
  import opened MemorySSACorrectness
  import opened MemorySSACoverage

  /** n is a definition of some byte of ds at the end of b. */
  ghost predicate JustifiedAt(s: State, n: Node, b: Block, ds: DefSite)
    requires Static(s) && b in s.prog.preds
  {
    exists l: Loc :: ds.Has(l) && Justified(s, n, b, l)
  }

  ghost predicate JustifiedBefore(s: State, n: Node, b: Block, ds: DefSite)
    requires Static(s) && b in s.prog.preds
  {
    exists l: Loc :: ds.Has(l) && JustifiedEntry(s, n, b, l)
  }

  /** The cached definitions of b are those of its code, and phi nodes of bytes that the code does not kill. */
  ghost predicate CacheJustified(s: State, b: Block, l: Loc)
    requires b in s.prog.code
  {
    && (Kills(s.prog.nodes, s.prog.code[b], l) ==> KillsAtEnd(s, b, l))
    && (KillsAtEnd(s, b, l) ==> Kills(s.prog.nodes, s.prog.code[b], l) || SomePhiAt(s, b, l))
    && forall n :: n in DefsAtEnd(s, b, l) ==> FromCache(s, n, b, l)
  }

  ghost predicate SomePhiAt(s: State, b: Block, l: Loc) { exists f :: PhiAt(s, f, b, l) }

  ghost predicate FromCache(s: State, n: Node, b: Block, l: Loc)
    requires b in s.prog.code
  {
    || n in DefsAfter(s.prog.nodes, s.prog.code[b], l)
    || (!Kills(s.prog.nodes, s.prog.code[b], l) && PhiAt(s, n, b, l))
  }

  ghost predicate CachesJustified(s: State) { forall b, l: Loc :: b in s.prog.code ==> CacheJustified(s, b, l) }

  /** Every operand is a definition of some byte of ds at the end of some block of ps. */
  ghost predicate OperandsJustified(s: State, ps: seq<Block>, ds: DefSite, ops: set<Node>)
    requires Static(s) && forall i :: 0 <= i < |ps| ==> ps[i] in s.prog.preds
  {
    forall n :: n in ops ==> exists i :: 0 <= i < |ps| && JustifiedAt(s, n, ps[i], ds)
  }

  ghost predicate PhiJustified(s: State, f: Node)
    requires Shape(s) && f in s.nodes && f !in s.prog.nodes
  {
    var b, ds := s.where_[f], s.nodes[f].overwrites[0];
    s.nodes[f].kind == InArg || (f in s.defuse && OperandsJustified(s, s.prog.preds[b], ds, s.defuse[f]))
  }

  ghost predicate PhisJustified(s: State, open: set<Node>)
    requires Shape(s)
  {
    forall f :: f in s.nodes && f !in s.prog.nodes && f !in open ==> PhiJustified(s, f)
  }

  ghost predicate UseJustifies(s: State, R: set<Node>, u: Node, b: Block, at: nat)
    requires Static(s) && b in s.prog.preds && at <= |s.prog.code[b]| && u in s.prog.nodes
  {
    forall n :: n in R ==> exists l: Loc :: Uses(s.prog.nodes[u], l) && UseJustified(s, n, b, at, l)
  }

  ghost predicate UsesJustified(s: State)
    requires Shape(s)
  {
    forall b, i :: b in s.prog.code && 0 <= i < |s.prog.code[b]| && s.prog.code[b][i] in s.defuse ==>
      UseJustifies(s, s.defuse[s.prog.code[b][i]], s.prog.code[b][i], b, i)
  }

  // ---- when a report of uncovered bytes passes the end of its site

  /** A node in front of the place `at` of b, or a phi node of b, kills l. */
  ghost predicate KillsUpTo(s: State, b: Block, at: nat, l: Loc)
    requires b in s.prog.code && at <= |s.prog.code[b]|
  {
    Kills(s.prog.nodes, s.prog.code[b][..at], l) || SomePhiAt(s, b, l)
  }

  /** The code in front of `at` leaves the last byte of ds and the one behind it, but a byte
      of ds and one further behind are killed. */
  ghost predicate Passed(s: State, b: Block, at: nat, ds: DefSite) {
    && b in s.prog.code && at <= |s.prog.code[b]| && ds.Bytes().end < UNKNOWN
    && !Kills(s.prog.nodes, s.prog.code[b][..at], Loc(ds.target, ds.Bytes().end))
    && !Kills(s.prog.nodes, s.prog.code[b][..at], Loc(ds.target, ds.Bytes().end + 1))
    && (exists l: Loc :: ds.Has(l) && KillsUpTo(s, b, at, l))
    && (exists l: Loc :: l.target == ds.target && l.byte > ds.Bytes().end && KillsUpTo(s, b, at, l))
  }

  ghost predicate SomePassed(s: State) { exists b, at: nat, ds :: Passed(s, b, at, ds) }

  /** The invariant while the operands of the phi nodes `open` are searched; `over` tells
      whether some report passed the end of its site. */
  ghost predicate Precise(s: State, over: bool, open: set<Node>) {
    && Shape(s) && (s.claimed ==> over) && (s.prog.EqualOrDisjoint() ==> !over) && (over ==> SomePassed(s))
    && InputsOpen(s)
    && (!over ==> CachesJustified(s) && PhisJustified(s, open) && UsesJustified(s))
  }

  /** Nodes that stand for inputs have no operands. */
  ghost predicate InputsOpen(s: State) {
    forall f :: f in s.nodes && f !in s.prog.nodes && s.nodes[f].kind == InArg ==> f !in s.defuse
  }

  // ---- what a search promises

  ghost predicate Justifying(s: State, over: bool, R: set<Node>, b: Block, ds: DefSite) {
    !over ==> Static(s) && b in s.prog.preds && forall n :: n in R ==> JustifiedAt(s, n, b, ds)
  }

  ghost predicate EntryJustifying(s: State, over: bool, R: set<Node>, b: Block, ds: DefSite) {
    !over ==> Static(s) && b in s.prog.preds && forall n :: n in R ==> JustifiedBefore(s, n, b, ds)
  }

  ghost predicate SitesJustifying(s: State, over: bool, R: set<Node>, b: Block, sites: seq<DefSite>) {
    !over ==>
      Static(s) && b in s.prog.preds
        && forall n :: n in R ==> exists i :: 0 <= i < |sites| && JustifiedBefore(s, n, b, sites[i])
  }

  ghost predicate OperandsJustifying(s: State, over: bool, ps: seq<Block>, ds: DefSite, ops: set<Node>) {
    !over ==>
      Static(s) && (forall i :: 0 <= i < |ps| ==> ps[i] in s.prog.preds) && OperandsJustified(s, ps, ds, ops)
  }

  lemma JustifiedAtExtends(s: State, t: State, n: Node, b: Block, ds: DefSite)
    requires Static(s) && Static(t) && Extends(s, t) && b in s.prog.preds
    ensures t.prog == s.prog
    ensures JustifiedAt(s, n, b, ds) ==> JustifiedAt(t, n, b, ds)
    ensures JustifiedBefore(s, n, b, ds) ==> JustifiedBefore(t, n, b, ds)
  {
    hide Justified, JustifiedEntry, Static, Extends;
    ClaimedLater(s, t);
    forall l: Loc
      ensures Justified(s, n, b, l) ==> Justified(t, n, b, l)
      ensures JustifiedEntry(s, n, b, l) ==> JustifiedEntry(t, n, b, l)
    {
      JustifiedExtends(s, t, n, b, l);
    }
  }

  lemma EntryJustifyingExtends(s: State, over: bool, t: State, over': bool, R: set<Node>, b: Block, ds: DefSite)
    requires EntryJustifying(s, over, R, b, ds) && Extends(s, t) && Static(t) && (over ==> over')
    ensures EntryJustifying(t, over', R, b, ds)
  {
    hide JustifiedBefore, Static, Extends;
    if !over' {
      ClaimedLater(s, t);
      forall n | n in R ensures JustifiedBefore(t, n, b, ds) { JustifiedAtExtends(s, t, n, b, ds); }
    }
  }

  lemma JustifyingThrough(s: State, over: bool, R: set<Node>, b: Block, ds: DefSite)
    requires Static(s) && b in s.prog.preds && |s.prog.preds[b]| == 1
    requires Justifying(s, over, R, s.prog.preds[b][0], ds)
    ensures EntryJustifying(s, over, R, b, ds)
  {
    if !over {
      forall n | n in R ensures JustifiedBefore(s, n, b, ds) {
        var l: Loc :| ds.Has(l) && Justified(s, n, s.prog.preds[b][0], l);
        assert JustifiedEntry(s, n, b, l);
      }
    }
  }

  lemma JustifyingAtJoin(s: State, over: bool, R: set<Node>, b: Block, ds: DefSite)
    requires Static(s) && b in s.prog.preds && |s.prog.preds[b]| != 1 && ds.Proper()
    requires forall f, l: Loc :: f in R && ds.Has(l) ==> PhiAt(s, f, b, l)
    ensures EntryJustifying(s, over, R, b, ds)
  {
    hide Static, PhiAt;
    var l := FirstByte(ds);
    forall n | n in R ensures JustifiedBefore(s, n, b, ds) { assert JustifiedEntry(s, n, b, l); }
  }

  lemma SitesJustifyingNone(s: State, over: bool, b: Block)
    requires Static(s) && b in s.prog.preds
    ensures SitesJustifying(s, over, {}, b, [])
  {
  }

  lemma SitesJustifyingStep(s: State, over: bool, t: State, over': bool, R: set<Node>, R': set<Node>, b: Block,
                            sites: seq<DefSite>, k: nat)
    requires k < |sites| && SitesJustifying(s, over, R, b, sites[..k]) && EntryJustifying(t, over', R', b, sites[k])
    requires Extends(s, t) && Static(t) && (over ==> over')
    ensures SitesJustifying(t, over', R + R', b, sites[..k + 1])
  {
    hide JustifiedBefore, Static, Extends;
    if !over' {
      ClaimedLater(s, t);
      var now := sites[..k + 1];
      forall n | n in R + R' ensures exists i :: 0 <= i < |now| && JustifiedBefore(t, n, b, now[i]) {
        if n in R {
          var i :| 0 <= i < |sites[..k]| && JustifiedBefore(s, n, b, sites[..k][i]);
          JustifiedAtExtends(s, t, n, b, now[i]);
          assert JustifiedBefore(t, n, b, now[i]);
        } else {
          assert JustifiedBefore(t, n, b, now[k]);
        }
      }
    }
  }

  lemma OperandsJustifyingNone(s: State, over: bool, ds: DefSite)
    requires Static(s)
    ensures OperandsJustifying(s, over, [], ds, {})
  {
  }

  lemma OperandsJustifyingStep(s: State, over: bool, t: State, over': bool, ps: seq<Block>, k: nat, ds: DefSite,
                               ops: set<Node>, R: set<Node>)
    requires k < |ps| && OperandsJustifying(s, over, ps[..k], ds, ops) && Justifying(t, over', R, ps[k], ds)
    requires Extends(s, t) && Static(t) && (over ==> over')
    ensures OperandsJustifying(t, over', ps[..k + 1], ds, ops + R)
  {
    hide JustifiedAt, Static, Extends;
    if !over' {
      ClaimedLater(s, t);
      var now := ps[..k + 1];
      assert forall i :: 0 <= i < |now| ==> if i < k then now[i] == ps[..k][i] else now[i] == ps[k];
      forall n | n in ops + R ensures exists i :: 0 <= i < |now| && JustifiedAt(t, n, now[i], ds) {
        if n in ops {
          var i :| 0 <= i < |ps[..k]| && JustifiedAt(s, n, ps[..k][i], ds);
          JustifiedAtExtends(s, t, n, now[i], ds);
          assert JustifiedAt(t, n, now[i], ds);
        } else {
          assert JustifiedAt(t, n, now[k], ds);
        }
      }
    }
  }

  // ---- the end of one block

  lemma JustifyingAtEnd(s: State, over: bool, t: State, over': bool, b: Block, ds: DefSite, G: set<Node>,
                        sites: seq<DefSite>, Rs: set<Node>, open: set<Node>)
    requires Precise(s, over, open) && Extends(s, t) && Static(t) && b in s.info && s.info[b].processed
    requires forall n :: n in G <==> exists l: Loc :: ds.Has(l) && n in NodesAt(s.info[b].definitions, l)
    requires UndefinedIn(s.info[b].kills, ds, sites) && (over || Oversteps(ds, sites) ==> over')
    requires SitesJustifying(t, over', Rs, b, sites)
    ensures Justifying(t, over', G + Rs, b, ds)
  {
    hide *;
    PreciseShape(s, over, open);
    ClaimedLater(s, t);
    if !over' {
      PreciseCaches(s, over, open);
      forall n | n in G + Rs ensures JustifiedAt(t, n, b, ds) {
        if n in G {
          var l: Loc :| ds.Has(l) && n in NodesAt(s.info[b].definitions, l);
          FoundInCache(s, b, l, n);
          CachedIsJustified(s, n, b, l);
          JustifiedHere(s, n, b, ds, l);
          JustifiedAtExtends(s, t, n, b, ds);
        } else {
          var i := SomeSiteJustifies(t, over', Rs, b, sites, n);
          SearchedIsJustified(s, t, n, b, ds, sites, i);
        }
      }
      JustifyingIntro(t, over', G + Rs, b, ds);
    } else {
      OverJustifying(t, G + Rs, b, ds);
    }
  }

  lemma OverJustifying(t: State, R: set<Node>, b: Block, ds: DefSite)
    ensures Justifying(t, true, R, b, ds)
  {
  }

  lemma JustifyingIntro(t: State, over: bool, R: set<Node>, b: Block, ds: DefSite)
    requires Static(t) && b in t.prog.preds && forall n :: n in R ==> JustifiedAt(t, n, b, ds)
    ensures Justifying(t, over, R, b, ds)
  {
    hide Static, JustifiedAt;
  }

  lemma JustifiedHere(s: State, n: Node, b: Block, ds: DefSite, l: Loc)
    requires Static(s) && b in s.prog.preds && ds.Has(l) && Justified(s, n, b, l)
    ensures JustifiedAt(s, n, b, ds)
  {
    hide Static, Justified, DefSite.Has;
  }

  lemma PreciseShape(s: State, over: bool, open: set<Node>)
    requires Precise(s, over, open)
    ensures Shape(s) && s.info.Keys == s.prog.preds.Keys == s.prog.code.Keys && Static(s)
    ensures (s.claimed ==> over) && (s.prog.EqualOrDisjoint() ==> !over) && (over ==> SomePassed(s)) && InputsOpen(s)
  {
    hide BlockShape, PhiShape, Static, CachesJustified, PhisJustified, UsesJustified, SomePassed, InputsOpen;
    hide Program.EqualOrDisjoint;
  }

  lemma PreciseCaches(s: State, over: bool, open: set<Node>)
    requires Precise(s, over, open) && !over
    ensures forall b, l: Loc :: b in s.prog.code ==> CacheJustified(s, b, l)
  {
    hide CacheJustified, PhisJustified, UsesJustified, Shape, InputsOpen, SomePassed;
  }

  lemma FoundInCache(s: State, b: Block, l: Loc, n: Node)
    requires b in s.info && s.info[b].processed && n in NodesAt(s.info[b].definitions, l)
    ensures n in DefsAtEnd(s, b, l)
  {
    hide NodesAt;
  }

  lemma CachedIsJustified(s: State, n: Node, b: Block, l: Loc)
    requires Shape(s) && Static(s) && b in s.prog.preds && b in s.prog.code && CacheJustified(s, b, l)
    requires n in DefsAtEnd(s, b, l)
    ensures Justified(s, n, b, l)
  {
    hide Shape, Static, KillsAtEnd, DefsAtEnd, DefsAfter, Kills;
    assert FromCache(s, n, b, l);
    if n !in DefsAfter(s.prog.nodes, s.prog.code[b], l) { PhiAtJoin(s, n, b, l); }
  }

  lemma SomeSiteJustifies(t: State, over: bool, R: set<Node>, b: Block, sites: seq<DefSite>, n: Node) returns (i: nat)
    requires SitesJustifying(t, over, R, b, sites) && !over && n in R
    ensures Static(t) && b in t.prog.preds && i < |sites| && JustifiedBefore(t, n, b, sites[i])
  {
    hide Static, JustifiedBefore;
    i :| 0 <= i < |sites| && JustifiedBefore(t, n, b, sites[i]);
  }

  /** What reaches the entry for an uncovered byte is a definition of it at the end. */
  lemma SearchedIsJustified(s: State, t: State, n: Node, b: Block, ds: DefSite, sites: seq<DefSite>, i: nat)
    requires Static(t) && Extends(s, t) && b in t.prog.preds && b in s.prog.code && b in s.info && s.info[b].processed
    requires UndefinedIn(s.info[b].kills, ds, sites) && !Oversteps(ds, sites) && i < |sites|
    requires forall l: Loc :: CacheJustified(s, b, l)
    requires JustifiedBefore(t, n, b, sites[i])
    ensures JustifiedAt(t, n, b, ds)
  {
    hide Static, JustifiedEntry, DefsAfter, Kills, NodesAt, Extends, UndefinedIn, Oversteps;
    ClaimedLater(s, t);
    var l: Loc :| sites[i].Has(l) && JustifiedEntry(t, n, b, l);
    InsideSite(s.info[b].kills, ds, sites, l);
    UnkilledSite(s, b, ds, sites, i, l);
    assert CacheJustified(s, b, l);
    assert Justified(t, n, b, l);
  }

  lemma UnkilledSite(s: State, b: Block, ds: DefSite, sites: seq<DefSite>, i: nat, l: Loc)
    requires b in s.info && s.info[b].processed && UndefinedIn(s.info[b].kills, ds, sites)
    requires i < |sites| && sites[i].Has(l)
    ensures !KillsAtEnd(s, b, l)
  {
    hide NodesAt;
  }

  // ---- the invariant is kept

  lemma CachesJustifiedIntro(t: State)
    requires forall b, l: Loc :: b in t.prog.code ==> CacheJustified(t, b, l)
    ensures CachesJustified(t)
  {
    hide CacheJustified;
  }

  lemma PreciseParts(s: State, over: bool, open: set<Node>)
    requires Precise(s, over, open) && !over
    ensures Shape(s) && CachesJustified(s) && PhisJustified(s, open) && UsesJustified(s)
  {
    hide Shape, CachesJustified, PhisJustified, UsesJustified, InputsOpen, SomePassed, Program.EqualOrDisjoint;
  }

  lemma PreciseIntro(t: State, over: bool, open: set<Node>)
    requires Shape(t) && (t.claimed ==> over) && (t.prog.EqualOrDisjoint() ==> !over) && (over ==> SomePassed(t))
    requires InputsOpen(t) && (!over ==> CachesJustified(t) && PhisJustified(t, open) && UsesJustified(t))
    ensures Precise(t, over, open)
  {
    hide Shape, CachesJustified, PhisJustified, UsesJustified, InputsOpen, SomePassed, Program.EqualOrDisjoint;
  }

  lemma SomePassedExtends(s: State, t: State)
    requires Extends(s, t) && SomePassed(s)
    ensures SomePassed(t)
  {
    hide Kills, KillsAtEnd;
    var b, at: nat, ds :| Passed(s, b, at, ds);
    forall l: Loc | KillsUpTo(s, b, at, l) ensures KillsUpTo(t, b, at, l) { SomePhiExtends(s, t, b, l); }
    hide KillsUpTo;
    assert Passed(t, b, at, ds);
  }

  lemma SomePhiExtends(s: State, t: State, b: Block, l: Loc)
    requires Extends(s, t)
    ensures SomePhiAt(s, b, l) ==> SomePhiAt(t, b, l)
    ensures forall f :: PhiAt(s, f, b, l) ==> PhiAt(t, f, b, l)
  {
    hide KillsAtEnd;
    if f :| PhiAt(s, f, b, l) { assert PhiAt(t, f, b, l); }
  }

  lemma PreciseExtends(s: State, over: bool, t: State, over': bool, open: set<Node>, open': set<Node>)
    requires Precise(s, over, open) && Extends(s, t) && Shape(t) && t.defuse == s.defuse && (over ==> over')
    requires (t.claimed ==> over') && (t.prog.EqualOrDisjoint() ==> !over') && (over' && !over ==> SomePassed(t))
    requires !over' ==> CachesJustified(t)
    requires forall f :: f in t.nodes && f !in t.prog.nodes && f !in open' ==>
      (f in s.nodes && f !in open) || t.nodes[f].kind == InArg
    ensures Precise(t, over', open')
  {
    hide *;
    ClaimedLater(s, t);
    PreciseShape(s, over, open);
    if over { SomePassedExtends(s, t); }
    InputsExtend(s, t);
    if !over' {
      PreciseParts(s, over, open);
      PhisJustifiedExtend(s, t, open, open');
      UsesJustifiedExtend(s, t);
    }
    PreciseIntro(t, over', open');
  }

  lemma InputsExtend(s: State, t: State)
    requires Shape(s) && InputsOpen(s) && Extends(s, t) && t.defuse == s.defuse
    ensures InputsOpen(t)
  {
    ShapeFacts(s);
    hide Shape, KillsAtEnd;
  }

  lemma PhisJustifiedExtend(s: State, t: State, open: set<Node>, open': set<Node>)
    requires Shape(s) && Shape(t) && Extends(s, t) && PhisJustified(s, open)
    requires forall f :: f in t.nodes && f !in t.prog.nodes && f !in open' ==>
      (f in s.nodes && f !in open) || t.nodes[f].kind == InArg
    ensures PhisJustified(t, open')
  {
    hide Shape, PhiJustified, Extends;
    ClaimedLater(s, t);
    forall f | f in t.nodes && f !in t.prog.nodes && f !in open' ensures PhiJustified(t, f) {
      if f in s.nodes && f !in open { PhiJustifiedExtends(s, t, f); } else { InputJustified(t, f); }
    }
  }

  lemma InputJustified(t: State, f: Node)
    requires Shape(t) && f in t.nodes && f !in t.prog.nodes && t.nodes[f].kind == InArg
    ensures PhiJustified(t, f)
  {
    ShapeOfPhi(t, f);
    hide Shape, JustifiedAt;
  }

  lemma PhiJustifiedExtends(s: State, t: State, f: Node)
    requires Shape(s) && Shape(t) && Extends(s, t) && f in s.nodes && f !in s.prog.nodes && PhiJustified(s, f)
    ensures f in t.nodes && f !in t.prog.nodes && PhiJustified(t, f)
  {
    PredsOfPhi(s, f);
    ShapeFacts(t);
    ShapeOfPhi(s, f);
    hide Shape, JustifiedAt, Static;
    if s.nodes[f].kind != InArg {
      OperandsJustifiedExtend(s, t, s.prog.preds[s.where_[f]], s.nodes[f].overwrites[0], s.defuse[f]);
    }
  }

  lemma OperandsJustifiedExtend(s: State, t: State, ps: seq<Block>, ds: DefSite, ops: set<Node>)
    requires Static(s) && Static(t) && Extends(s, t) && forall i :: 0 <= i < |ps| ==> ps[i] in s.prog.preds
    requires OperandsJustified(s, ps, ds, ops)
    ensures OperandsJustified(t, ps, ds, ops)
  {
    hide JustifiedAt, Extends, Static;
    ClaimedLater(s, t);
    forall n | n in ops ensures exists i :: 0 <= i < |ps| && JustifiedAt(t, n, ps[i], ds) {
      var i :| 0 <= i < |ps| && JustifiedAt(s, n, ps[i], ds);
      JustifiedAtExtends(s, t, n, ps[i], ds);
      assert JustifiedAt(t, n, ps[i], ds);
    }
  }

  lemma UsesJustifiedExtend(s: State, t: State)
    requires Shape(s) && Shape(t) && Extends(s, t) && t.defuse == s.defuse && UsesJustified(s)
    ensures UsesJustified(t)
  {
    hide BlockShape, PhiShape, UseJustifies, Extends;
    ClaimedLater(s, t);
    forall b, i | b in t.prog.code && 0 <= i < |t.prog.code[b]| && t.prog.code[b][i] in t.defuse
      ensures UseJustifies(t, t.defuse[t.prog.code[b][i]], t.prog.code[b][i], b, i)
    {
      UseJustifiesExtends(s, t, s.defuse[s.prog.code[b][i]], s.prog.code[b][i], b, i);
    }
  }

  lemma UseJustifiesExtends(s: State, t: State, R: set<Node>, u: Node, b: Block, at: nat)
    requires Static(s) && Static(t) && Extends(s, t) && b in s.prog.preds && at <= |s.prog.code[b]|
    requires u in s.prog.nodes && UseJustifies(s, R, u, b, at)
    ensures t.prog == s.prog && UseJustifies(t, R, u, b, at)
  {
    hide JustifiedEntry, DefsAfter, Kills, Extends, Static, Uses;
    ClaimedLater(s, t);
    forall n | n in R ensures exists l: Loc :: Uses(t.prog.nodes[u], l) && UseJustified(t, n, b, at, l) {
      var l: Loc :| Uses(s.prog.nodes[u], l) && UseJustified(s, n, b, at, l);
      JustifiedExtends(s, t, n, b, l);
      assert UseJustified(t, n, b, at, l);
    }
  }

  lemma SameViewKeepsPrecise(s: State, over: bool, t: State, open: set<Node>)
    requires Precise(s, over, open) && SameView(s, t) && Extends(s, t) && Shape(t)
    ensures Precise(t, over, open)
  {
    hide *;
    SameViewFields(s, t);
    PreciseShape(s, over, open);
    if !over {
      PreciseCaches(s, over, open);
      forall b, l: Loc | b in t.prog.code ensures CacheJustified(t, b, l) { SameViewCacheJustified(s, t, b, l); }
      CachesJustifiedIntro(t);
    }
    PreciseExtends(s, over, t, over, open, open);
  }

  lemma SameViewCacheJustified(s: State, t: State, b: Block, l: Loc)
    requires SameView(s, t) && b in s.prog.code && CacheJustified(s, b, l)
    ensures b in t.prog.code && CacheJustified(t, b, l)
  {
    hide KillsAtEnd, DefsAtEnd, DefsAfter, Kills;
    SameViewFields(s, t);
    assert forall f :: PhiAt(s, f, b, l) <==> PhiAt(t, f, b, l);
    forall n | n in DefsAtEnd(t, b, l) ensures FromCache(t, n, b, l) { assert FromCache(s, n, b, l); }
  }

  // ---- a report passes the end of its site

  /** m says which bytes are killed up to a place, and the report for ds passes its end. */
  lemma ReportPasses(s: State, b: Block, at: nat, m: DefinitionsMap, ds: DefSite)
    requires b in s.prog.code && at <= |s.prog.code[b]| && WillOverstep(m, ds)
    requires forall l: Loc :: Kills(s.prog.nodes, s.prog.code[b][..at], l) ==> NodesAt(m, l) != {}
    requires forall l: Loc :: NodesAt(m, l) != {} ==> KillsUpTo(s, b, at, l)
    ensures SomePassed(s)
  {
    hide Kills, KillsUpTo, DefSite.Bytes, At;
    var t, I := ds.target, ds.Bytes();
    forall x: Offset ensures NodesAt(m, Loc(t, x)) == At(m[t], x) {}
    var x: Offset :| I.Has(x) && At(m[t], x) != {};
    var y: Offset :| y > I.end && At(m[t], y) != {};
    assert ds.Has(Loc(t, x)) && KillsUpTo(s, b, at, Loc(t, x)) && KillsUpTo(s, b, at, Loc(t, y));
    hide NodesAt, RunsPast;
    assert Passed(s, b, at, ds);
  }

  /** At the end of a block. */
  lemma EndPasses(s: State, over: bool, b: Block, ds: DefSite, sites: seq<DefSite>, open: set<Node>)
    requires Precise(s, over, open) && Inv(s, open) && b in s.info && s.info[b].processed && ds.Proper()
    requires s.prog.EqualOrDisjoint() ==> s.prog.Cell(ds)
    requires UndefinedIn(s.info[b].kills, ds, sites) && (Oversteps(ds, sites) <==> WillOverstep(s.info[b].kills, ds))
    ensures Precise(s, over || Oversteps(ds, sites), open)
    ensures s.prog.EqualOrDisjoint() ==> !Oversteps(ds, sites)
  {
    hide *;
    PreciseShape(s, over, open);
    if s.prog.EqualOrDisjoint() {
      InvCells(s, open);
      var l := FirstByte(ds);
      CellSites(s, b, ds, sites, l);
      OnlyItself(ds, sites);
    }
    if !over && Oversteps(ds, sites) {
      PreciseCaches(s, over, open);
      var at := |s.prog.code[b]|;
      forall l: Loc
        ensures Kills(s.prog.nodes, s.prog.code[b][..at], l) ==> NodesAt(s.info[b].kills, l) != {}
        ensures NodesAt(s.info[b].kills, l) != {} ==> KillsUpTo(s, b, at, l)
      {
        KilledUpToEnd(s, b, l);
      }
      ReportPasses(s, b, at, s.info[b].kills, ds);
      PreciseIntro(s, true, open);
    }
  }

  lemma KilledUpToEnd(s: State, b: Block, l: Loc)
    requires b in s.info && s.info[b].processed && b in s.prog.code && CacheJustified(s, b, l)
    ensures var at := |s.prog.code[b]|;
      && (Kills(s.prog.nodes, s.prog.code[b][..at], l) ==> NodesAt(s.info[b].kills, l) != {})
      && (NodesAt(s.info[b].kills, l) != {} ==> KillsUpTo(s, b, at, l))
  {
    hide NodesAt, Kills, DefsAfter, SomePhiAt;
    assert s.prog.code[b][..|s.prog.code[b]|] == s.prog.code[b];
  }

  /** In front of a use. */
  lemma FrontPasses(s: State, m: State, over: bool, b: Block, at: nat, phis: seq<Node>, ns: seq<Node>, ds: DefSite,
                    D: Definitions, G: set<Node>, sites: seq<DefSite>)
    requires Precise(m, over, {}) && Extends(s, m) && Shape(s) && b in s.prog.code && at <= |s.prog.code[b]|
    requires Prefix(s, b, at, phis, ns) && SearchedInFront(s, b, at, phis, ns, ds, D, G, sites)
    requires Oversteps(ds, sites) <==> WillOverstep(D.kills, ds)
    ensures Precise(m, over || Oversteps(ds, sites), {})
    ensures s.prog.EqualOrDisjoint() ==> !Oversteps(ds, sites)
  {
    hide *;
    ClaimedLater(s, m);
    PreciseShape(m, over, {});
    FrontFacts(s, b, at, phis, ns, ds, D, G, sites);
    if s.prog.EqualOrDisjoint() {
      UniformFront(s, b, at, phis, ns, ds, D, G);
      UniformSites(D.kills, ds, sites);
      var l := FirstByte(ds);
      OnlyItself(ds, sites);
    }
    if !over && Oversteps(ds, sites) {
      forall l: Loc
        ensures Kills(s.prog.nodes, s.prog.code[b][..at], l) ==> NodesAt(D.kills, l) != {}
        ensures NodesAt(D.kills, l) != {} ==> KillsUpTo(s, b, at, l)
      {
        KilledInFront(s, b, at, phis, ns, D, l);
      }
      ReportPasses(s, b, at, D.kills, ds);
      SomePassedExtends(s, m);
      PreciseIntro(m, true, {});
    }
  }

  lemma KilledInFront(s: State, b: Block, at: nat, phis: seq<Node>, ns: seq<Node>, D: Definitions, l: Loc)
    requires Shape(s) && b in s.prog.code && at <= |s.prog.code[b]| && Prefix(s, b, at, phis, ns) && Lvn(s.nodes, ns, D)
    ensures Kills(s.prog.nodes, s.prog.code[b][..at], l) ==> NodesAt(D.kills, l) != {}
    ensures NodesAt(D.kills, l) != {} ==> KillsUpTo(s, b, at, l)
  {
    hide Shape, Kills, DefsAfter, NodesAt;
    DefsInFront(s, b, at, phis, ns, l);
    PhisAfter(s, b, phis, l);
  }

  // ---- a new phi node

  lemma PlacedPhiIsPrecise(s: State, over: bool, b: Block, ds: DefSite, f: Node, kind: Kind, D: Definitions,
                           sites: seq<DefSite>, open: set<Node>)
    requires Precise(s, over, open) && Inv(s, open) && b in s.info && b in s.blocks && s.info[b].processed
    requires PhiAllowed(s, b, ds, f, kind) && Covered(s.info[b], D, ds, f, sites)
    requires Oversteps(ds, sites) <==> WillOverstep(s.info[b].kills, ds)
    requires var t := WithPhi(s, b, ds, f, kind, D, Oversteps(ds, sites)); Shape(t) && Extends(s, t)
    ensures Precise(WithPhi(s, b, ds, f, kind, D, Oversteps(ds, sites)), over || Oversteps(ds, sites),
                    if kind == Phi then open + {f} else open)
  {
    hide *;
    var t := WithPhi(s, b, ds, f, kind, D, Oversteps(ds, sites));
    var over' := over || Oversteps(ds, sites);
    WithPhiIsAdded(s, b, ds, f, kind, D, sites);
    CoveredSites(s.info[b], D, ds, f, sites);
    AllowedFacts(s, b, ds, f, kind);
    EndPasses(s, over, b, ds, sites, open);
    PreciseShape(s, over, open);
    PreciseShape(s, over', open);
    PhiAddedClaims(s, t, b, ds, f, kind, sites);
    if !over' { PhiAddedJustified(s, over, t, b, ds, f, kind, D, sites, open); }
    PhiAddedOpen(s, t, b, ds, f, kind, sites, open);
    PreciseExtends(s, over', t, over', open, if kind == Phi then open + {f} else open);
  }

  lemma AllowedFacts(s: State, b: Block, ds: DefSite, f: Node, kind: Kind)
    requires PhiAllowed(s, b, ds, f, kind)
    ensures ds.Proper() && (s.prog.EqualOrDisjoint() ==> s.prog.Cell(ds))
  {
  }

  lemma PhiAddedJustified(s: State, over: bool, t: State, b: Block, ds: DefSite, f: Node, kind: Kind, D: Definitions,
                          sites: seq<DefSite>, open: set<Node>)
    requires Precise(s, over, open) && !over && Extends(s, t) && !Oversteps(ds, sites)
    requires b in s.info && b in s.blocks && s.info[b].processed && PhiAllowed(s, b, ds, f, kind)
    requires Covered(s.info[b], D, ds, f, sites) && PhiAdded(s, t, b, ds, f, kind, sites)
    ensures CachesJustified(t)
  {
    hide *;
    PreciseShape(s, over, open);
    PreciseCaches(s, over, open);
    CoveredSites(s.info[b], D, ds, f, sites);
    PhiAddedKills(s, t, b, ds, f, kind, sites);
    PhiAddedClaims(s, t, b, ds, f, kind, sites);
    forall c, l: Loc | c in t.prog.code ensures CacheJustified(t, c, l) {
      if SomeSite(sites, l) {
        InsideSite(s.info[b].kills, ds, sites, l);
        SomeSiteUnkilled(s, b, ds, sites, l);
      }
      PhiAddedCacheJustified(s, t, b, f, sites, c, l);
    }
    CachesJustifiedIntro(t);
  }

  lemma SomeSiteUnkilled(s: State, b: Block, ds: DefSite, sites: seq<DefSite>, l: Loc)
    requires b in s.info && s.info[b].processed && UndefinedIn(s.info[b].kills, ds, sites) && SomeSite(sites, l)
    ensures !KillsAtEnd(s, b, l)
  {
    hide NodesAt;
  }

  lemma PhiAddedCacheJustified(s: State, t: State, b: Block, f: Node, sites: seq<DefSite>, c: Block, l: Loc)
    requires Extends(s, t) && c in s.prog.code && CacheJustified(s, c, l)
    requires KillsAtEnd(t, c, l) <==> KillsAtEnd(s, c, l) || (c == b && SomeSite(sites, l))
    requires DefsAtEnd(t, c, l) == DefsAtEnd(s, c, l) + (if c == b && SomeSite(sites, l) then {f} else {})
    requires SomeSite(sites, l) ==> PhiAt(t, f, b, l) && !KillsAtEnd(s, b, l)
    ensures c in t.prog.code && CacheJustified(t, c, l)
  {
    SomePhiExtends(s, t, c, l);
    hide KillsAtEnd, DefsAtEnd, DefsAfter, Kills, SomeSite, PhiAt;
    ClaimedLater(s, t);
    assert c == b && SomeSite(sites, l) ==> SomePhiAt(t, c, l);
    hide SomePhiAt, Extends;
    forall n | n in DefsAtEnd(t, c, l) ensures FromCache(t, n, c, l) {
      if n in DefsAtEnd(s, c, l) { assert FromCache(s, n, c, l); }
    }
  }

  // ---- the operands of a phi node are known

  lemma PreciseCloses(s: State, over: bool, t: State, f: Node, b: Block, ds: DefSite, ops: set<Node>, open: set<Node>)
    requires Precise(s, over, open + {f}) && Shape(t) && Extends(s, t) && t == s.(defuse := s.defuse[f := ops])
    requires f in s.nodes && f !in s.prog.nodes && s.nodes[f] == RWNode([], [ds], [], Phi)
    requires f in s.where_ && s.where_[f] == b && b in s.prog.preds
    requires OperandsJustifying(s, over, s.prog.preds[b], ds, ops)
    ensures Precise(t, over, open)
  {
    hide *;
    PreciseShape(s, over, open + {f});
    InputsClose(s, t, f, ops);
    if over { SomePassedExtends(s, t); }
    if !over {
      PreciseParts(s, over, open + {f});
      ClosedJustifiedCaches(s, t, f, ops);
      ClosedJustified(s, over, t, f, b, ds, ops, open);
      ClosedUsesJustified(s, t, f, ops);
    }
    PreciseIntro(t, over, open);
  }

  lemma InputsClose(s: State, t: State, f: Node, ops: set<Node>)
    requires InputsOpen(s) && t == s.(defuse := s.defuse[f := ops])
    requires f in s.prog.nodes || (f in s.nodes && s.nodes[f].kind == Phi)
    ensures InputsOpen(t)
  {
  }

  lemma ClosedJustifiedCaches(s: State, t: State, f: Node, ops: set<Node>)
    requires t == s.(defuse := s.defuse[f := ops]) && CachesJustified(s)
    ensures CachesJustified(t)
  {
    hide KillsAtEnd, DefsAtEnd, DefsAfter, Kills;
    CloseKills(s, t, f, ops);
    forall b, l: Loc | b in t.prog.code ensures CacheJustified(t, b, l) {
      assert CacheJustified(s, b, l);
      assert forall g :: PhiAt(s, g, b, l) <==> PhiAt(t, g, b, l);
      forall n | n in DefsAtEnd(t, b, l) ensures FromCache(t, n, b, l) { assert FromCache(s, n, b, l); }
    }
  }

  lemma ClosedJustified(s: State, over: bool, t: State, f: Node, b: Block, ds: DefSite, ops: set<Node>, open: set<Node>)
    requires Shape(s) && Shape(t) && Extends(s, t) && t == s.(defuse := s.defuse[f := ops])
    requires PhisJustified(s, open + {f}) && !over && f in s.nodes && f !in s.prog.nodes
    requires s.nodes[f] == RWNode([], [ds], [], Phi) && f in s.where_ && s.where_[f] == b && b in s.prog.preds
    requires OperandsJustifying(s, over, s.prog.preds[b], ds, ops)
    ensures PhisJustified(t, open)
  {
    hide Shape, Extends, PhiJustified, Static, OperandsJustified;
    forall g | g in t.nodes && g !in t.prog.nodes && g !in open ensures PhiJustified(t, g) {
      if g == f { ClosedPhiJustified(s, over, t, f, b, ds, ops); } else { PhiJustifiedExtends(s, t, g); }
    }
  }

  lemma ClosedPhiJustified(s: State, over: bool, t: State, f: Node, b: Block, ds: DefSite, ops: set<Node>)
    requires Shape(s) && Shape(t) && Extends(s, t) && t == s.(defuse := s.defuse[f := ops]) && !over
    requires f in s.nodes && f !in s.prog.nodes && s.nodes[f] == RWNode([], [ds], [], Phi)
    requires f in s.where_ && s.where_[f] == b && b in s.prog.preds
    requires OperandsJustifying(s, over, s.prog.preds[b], ds, ops)
    ensures PhiJustified(t, f)
  {
    PredsOfPhi(s, f);
    ShapeFacts(t);
    hide Shape, JustifiedAt, Static, Extends;
    OperandsJustifiedExtend(s, t, s.prog.preds[b], ds, ops);
    PredsOfPhi(t, f);
  }

  lemma ClosedUsesJustified(s: State, t: State, f: Node, ops: set<Node>)
    requires Shape(s) && Shape(t) && Extends(s, t) && t == s.(defuse := s.defuse[f := ops]) && UsesJustified(s)
    requires f !in s.prog.nodes
    ensures UsesJustified(t)
  {
    hide BlockShape, PhiShape, UseJustifies, Extends;
    forall b, i | b in t.prog.code && 0 <= i < |t.prog.code[b]| && t.prog.code[b][i] in t.defuse
      ensures UseJustifies(t, t.defuse[t.prog.code[b][i]], t.prog.code[b][i], b, i)
    {
      assert t.prog.code[b][i] != f;
      UseJustifiesExtends(s, t, s.defuse[s.prog.code[b][i]], s.prog.code[b][i], b, i);
    }
  }

  // ---- uses

  /** Every node of R is a definition of a byte of some of the given accesses. */
  ghost predicate AccessesJustify(s: State, R: set<Node>, b: Block, at: nat, uses: seq<DefSite>)
    requires Static(s) && b in s.prog.preds && at <= |s.prog.code[b]|
  {
    forall n :: n in R ==> exists i :: 0 <= i < |uses| && AccessJustifies(s, n, b, at, uses[i])
  }

  ghost predicate AccessJustifies(s: State, n: Node, b: Block, at: nat, ds: DefSite)
    requires Static(s) && b in s.prog.preds && at <= |s.prog.code[b]|
  {
    exists l: Loc :: ds.Has(l) && UseJustified(s, n, b, at, l)
  }

  ghost predicate UseJustifiesSoFar(s: State, over: bool, R: set<Node>, u: Node, j: nat) {
    !over && u in s.prog.place && u in s.prog.nodes ==>
      var (b, at) := s.prog.place[u];
      && Static(s) && b in s.prog.preds && b in s.prog.code && at <= |s.prog.code[b]|
      && j <= |s.prog.nodes[u].uses| && AccessesJustify(s, R, b, at, s.prog.nodes[u].uses[..j])
  }

  ghost predicate UseJustifying(s: State, over: bool, R: set<Node>, u: Node) {
    !over && u in s.prog.place && u in s.prog.nodes ==>
      var (b, at) := s.prog.place[u];
      Static(s) && b in s.prog.preds && b in s.prog.code && at <= |s.prog.code[b]| && UseJustifies(s, R, u, b, at)
  }

  lemma NoPlaceJustifies(s: State, over: bool, u: Node)
    requires u !in s.prog.place
    ensures UseJustifying(s, over, {}, u)
  {
  }

  lemma UseJustifiesNone(s: State, over: bool, u: Node)
    requires Shape(s) && u in s.prog.place
    ensures UseJustifiesSoFar(s, over, {}, u, 0)
  {
    ShapeFacts(s);
    UseInCode(s, u, s.prog.place[u].0, s.prog.place[u].1);
    hide Shape, Static, AccessJustifies;
  }

  lemma UseJustifiesAll(s: State, over: bool, R: set<Node>, u: Node)
    requires u in s.prog.nodes && UseJustifiesSoFar(s, over, R, u, |s.prog.nodes[u].uses|)
    ensures UseJustifying(s, over, R, u)
  {
    hide UseJustified, Static;
    if !over && u in s.prog.place {
      var (b, at) := s.prog.place[u];
      var uses := s.prog.nodes[u].uses;
      assert uses[..|uses|] == uses;
      forall n | n in R ensures exists l: Loc :: Uses(s.prog.nodes[u], l) && UseJustified(s, n, b, at, l) {
        var i :| 0 <= i < |uses| && AccessJustifies(s, n, b, at, uses[i]);
        var l: Loc :| uses[i].Has(l) && UseJustified(s, n, b, at, l);
        assert Uses(s.prog.nodes[u], l);
      }
    }
  }

  /** One access: what is in front of the use, and what a search from the entry gives for the rest. */
  lemma FrontJustified(s: State, t: State, over: bool, b: Block, at: nat, phis: seq<Node>, ns: seq<Node>, ds: DefSite,
                       D: Definitions, G: set<Node>, sites: seq<DefSite>, Rs: set<Node>)
    requires Shape(s) && Extends(s, t) && Static(t) && b in t.prog.preds && t.prog == s.prog && !over
    requires b in s.prog.code && at <= |s.prog.code[b]| && Prefix(s, b, at, phis, ns)
    requires SearchedInFront(s, b, at, phis, ns, ds, D, G, sites) && !Oversteps(ds, sites)
    requires SitesJustifying(t, over, Rs, b, sites)
    ensures forall n :: n in G + Rs ==> AccessJustifies(t, n, b, at, ds)
  {
    hide *;
    FrontFacts(s, b, at, phis, ns, ds, D, G, sites);
    forall n | n in G + Rs ensures AccessJustifies(t, n, b, at, ds) {
      if n in G {
        var l: Loc :| ds.Has(l) && n in DefsAfter(s.nodes, ns, l);
        FrontIsJustified(s, t, n, b, at, phis, ns, l);
        AccessJustified(t, n, b, at, ds, l);
      } else {
        var i := SomeSiteJustifies(t, over, Rs, b, sites, n);
        var l := ByteOfSite(t, n, b, sites[i]);
        SiteHas(sites, i, l);
        InsideSite(D.kills, ds, sites, l);
        FrontUnkilled(s, b, at, phis, ns, ds, D, sites, i, l);
        SearchedInFrontJustified(s, t, n, b, at, l);
        AccessJustified(t, n, b, at, ds, l);
      }
    }
  }

  lemma SiteHas(sites: seq<DefSite>, i: nat, l: Loc)
    requires i < |sites| && sites[i].Has(l)
    ensures SomeSite(sites, l)
  {
    hide DefSite.Has;
  }

  lemma ByteOfSite(t: State, n: Node, b: Block, site: DefSite) returns (l: Loc)
    requires Static(t) && b in t.prog.preds && JustifiedBefore(t, n, b, site)
    ensures site.Has(l) && JustifiedEntry(t, n, b, l)
  {
    hide Static, JustifiedEntry, DefSite.Has;
    l :| site.Has(l) && JustifiedEntry(t, n, b, l);
  }

  lemma AccessJustified(t: State, n: Node, b: Block, at: nat, ds: DefSite, l: Loc)
    requires Static(t) && b in t.prog.preds && at <= |t.prog.code[b]| && ds.Has(l) && UseJustified(t, n, b, at, l)
    ensures AccessJustifies(t, n, b, at, ds)
  {
    hide Static, UseJustified, DefSite.Has;
  }

  lemma FrontIsJustified(s: State, t: State, n: Node, b: Block, at: nat, phis: seq<Node>, ns: seq<Node>, l: Loc)
    requires Shape(s) && Extends(s, t) && Static(t) && b in t.prog.preds && t.prog == s.prog
    requires b in s.prog.code && at <= |s.prog.code[b]| && Prefix(s, b, at, phis, ns)
    requires n in DefsAfter(s.nodes, ns, l)
    ensures UseJustified(t, n, b, at, l)
  {
    hide Shape, DefsAfter, Kills, Static;
    DefsInFront(s, b, at, phis, ns, l);
    PhisAfter(s, b, phis, l);
    if n !in DefsAfter(s.prog.nodes, s.prog.code[b][..at], l) {
      assert PhiAt(s, n, b, l);
      PhiAtJoin(s, n, b, l);
      assert PhiAt(t, n, b, l);
    }
  }

  lemma FrontUnkilled(s: State, b: Block, at: nat, phis: seq<Node>, ns: seq<Node>, ds: DefSite, D: Definitions,
                      sites: seq<DefSite>, i: nat, l: Loc)
    requires Shape(s) && b in s.prog.code && at <= |s.prog.code[b]| && Prefix(s, b, at, phis, ns) && Lvn(s.nodes, ns, D)
    requires UndefinedIn(D.kills, ds, sites) && i < |sites| && sites[i].Has(l)
    ensures !Kills(s.prog.nodes, s.prog.code[b][..at], l)
  {
    hide Shape, Kills, DefsAfter, NodesAt;
    DefsInFront(s, b, at, phis, ns, l);
  }

  lemma SearchedInFrontJustified(s: State, t: State, n: Node, b: Block, at: nat, l: Loc)
    requires Static(t) && b in t.prog.preds && t.prog == s.prog && b in s.prog.code && at <= |s.prog.code[b]|
    requires !Kills(s.prog.nodes, s.prog.code[b][..at], l) && JustifiedEntry(t, n, b, l)
    ensures UseJustified(t, n, b, at, l)
  {
    hide Static, JustifiedEntry, Kills, DefsAfter;
  }

  lemma UseJustifiesStep(s: State, m: State, over: bool, t: State, over': bool, u: Node, b: Block, at: nat,
                         phis: seq<Node>, ns: seq<Node>, j: nat, D: Definitions, G: set<Node>, sites: seq<DefSite>,
                         R: set<Node>, Rs: set<Node>)
    requires Shape(s) && Extends(s, t) && Extends(m, t) && Static(m) && Static(t) && t.prog == s.prog == m.prog
    requires u in s.prog.place && s.prog.place[u] == (b, at) && u in s.prog.nodes && j < |s.prog.nodes[u].uses|
    requires b in s.prog.preds && b in s.prog.code && at <= |s.prog.code[b]| && Prefix(s, b, at, phis, ns)
    requires UseJustifiesSoFar(m, over, R, u, j) && (over || Oversteps(s.prog.nodes[u].uses[j], sites) ==> over')
    requires SearchedInFront(s, b, at, phis, ns, s.prog.nodes[u].uses[j], D, G, sites)
    requires SitesJustifying(t, over', Rs, b, sites)
    ensures UseJustifiesSoFar(t, over', R + (G + Rs), u, j + 1)
  {
    hide Shape, SearchedInFront, SitesJustifying, Extends, Static, AccessJustifies, Prefix, Oversteps;
    if !over' {
      var uses, R' := s.prog.nodes[u].uses, R + (G + Rs);
      FrontJustified(s, t, over', b, at, phis, ns, uses[j], D, G, sites, Rs);
      var now := uses[..j + 1];
      forall n | n in R' ensures exists i :: 0 <= i < |now| && AccessJustifies(t, n, b, at, now[i]) {
        if n in R {
          var i :| 0 <= i < |uses[..j]| && AccessJustifies(m, n, b, at, uses[..j][i]);
          AccessJustifiesExtends(m, t, n, b, at, now[i]);
          assert AccessJustifies(t, n, b, at, now[i]);
        } else {
          assert AccessJustifies(t, n, b, at, now[j]);
        }
      }
    }
  }

  lemma AccessJustifiesExtends(s: State, t: State, n: Node, b: Block, at: nat, ds: DefSite)
    requires Static(s) && Static(t) && Extends(s, t) && t.prog == s.prog
    requires b in s.prog.preds && at <= |s.prog.code[b]| && AccessJustifies(s, n, b, at, ds)
    ensures AccessJustifies(t, n, b, at, ds)
  {
    hide JustifiedEntry, DefsAfter, Kills, Extends, Static;
    var l: Loc :| ds.Has(l) && UseJustified(s, n, b, at, l);
    JustifiedExtends(s, t, n, b, l);
    assert UseJustified(t, n, b, at, l);
  }

  /** The answer to u is recorded. */
  lemma PreciseAddsUse(s: State, over: bool, t: State, u: Node, R: set<Node>)
    requires Precise(s, over, {}) && u in s.prog.nodes && t == s.(defuse := s.defuse[u := R]) && Shape(t)
    requires Extends(s, t) && UseJustifying(s, over, R, u)
    ensures Precise(t, over, {})
  {
    hide *;
    PreciseShape(s, over, {});
    InputsClose(s, t, u, R);
    if over { SomePassedExtends(s, t); }
    if !over {
      PreciseParts(s, over, {});
      ClosedJustifiedCaches(s, t, u, R);
      AddedPhisJustified(s, t, u, R);
      AddedUsesJustified(s, over, t, u, R);
    }
    PreciseIntro(t, over, {});
  }

  lemma AddedPhisJustified(s: State, t: State, u: Node, R: set<Node>)
    requires Shape(s) && Shape(t) && Extends(s, t) && t == s.(defuse := s.defuse[u := R]) && PhisJustified(s, {})
    ensures PhisJustified(t, {})
  {
    hide Shape, Extends, PhiJustified;
    forall g | g in t.nodes && g !in t.prog.nodes ensures PhiJustified(t, g) { PhiJustifiedExtends(s, t, g); }
  }

  lemma AddedUsesJustified(s: State, over: bool, t: State, u: Node, R: set<Node>)
    requires Shape(s) && Shape(t) && Extends(s, t) && t == s.(defuse := s.defuse[u := R]) && UsesJustified(s)
    requires u in s.prog.nodes && !over && UseJustifying(s, over, R, u)
    ensures UsesJustified(t)
  {
    hide BlockShape, PhiShape, UseJustifies, Extends;
    forall b, i | b in t.prog.code && 0 <= i < |t.prog.code[b]| && t.prog.code[b][i] in t.defuse
      ensures UseJustifies(t, t.defuse[t.prog.code[b][i]], t.prog.code[b][i], b, i)
    {
      var v := t.prog.code[b][i];
      assert t.prog.place[v] == (b, i);
      UseJustifiesExtends(s, t, if v == u then R else s.defuse[v], v, b, i);
    }
  }

  // ---- the state to start from

  lemma InitialPrecise(s: State)
    requires Initial(s) && Shape(s)
    ensures Precise(s, false, {})
  {
    hide *;
    InitialFacts(s);
    forall b, l: Loc | b in s.prog.code ensures CacheJustified(s, b, l) { InitialCacheJustified(s, b, l); }
    CachesJustifiedIntro(s);
    NothingToJustify(s);
    PreciseIntro(s, false, {});
  }

  lemma InitialFacts(s: State)
    requires Initial(s)
    ensures !s.claimed && s.nodes == s.prog.nodes && s.defuse == map[]
  {
    hide Static;
  }

  lemma InitialCacheJustified(s: State, b: Block, l: Loc)
    requires Initial(s) && b in s.prog.code
    ensures CacheJustified(s, b, l)
  {
    hide Static, DefsAfter, Kills, NodesAt;
  }

  lemma NothingToJustify(s: State)
    requires Shape(s) && s.nodes == s.prog.nodes && s.defuse == map[]
    ensures InputsOpen(s) && PhisJustified(s, {}) && UsesJustified(s)
  {
    hide BlockShape, PhiShape, UseJustifies, PhiJustified;
  }

  // ---- where no block on the way back has several predecessors

  lemma JoinFreePred(prog: Program, b: Block)
    requires prog.Valid() && b in prog.preds && prog.JoinFree(b)
    ensures |prog.preds[b]| <= 1 && forall c :: c in prog.preds[b] ==> prog.JoinFree(c)
  {
    assert prog.Path([b]);
    forall c, p | c in prog.preds[b] && prog.Path(p) && p[|p| - 1] == c ensures |prog.preds[p[0]]| <= 1 {
      var q := p + [b];
      assert forall i :: 0 <= i < |q| - 1 ==> if i < |p| - 1 then q[i] == p[i] && q[i + 1] == p[i + 1] else q[i] == c;
      assert prog.Path(q) && q[|q| - 1] == b && q[0] == p[0];
    }
  }

  lemma CodeIsRegular(s: State, n: Node, ns: seq<Node>, l: Loc)
    requires Shape(s) && n in DefsAfter(s.prog.nodes, ns, l)
    ensures n in s.prog.nodes && n in s.nodes && !IsPhiNode(s, n)
  {
    DefsAfterAreNodes(s.prog.nodes, ns, l);
    ShapeFacts(s);
    ProgramNodes(s);
    hide Shape, Static, DefsAfter;
  }

  /** There a definition is an ordinary node that reaches the place, or stands for an input. */
  lemma {:induction false} JustifiedReaches(s: State, n: Node, b: Block, l: Loc)
    requires Shape(s) && Static(s) && b in s.prog.preds && s.prog.JoinFree(b) && Justified(s, n, b, l)
    ensures IsPhiNode(s, n) ==> n !in s.prog.nodes && s.nodes[n].kind == InArg
    ensures !IsPhiNode(s, n) ==> exists p :: s.prog.ReachesEnd(n, p, l) && p[|p| - 1] == b
    decreases s.rank[b], 1
  {
    hide Shape, DefsAfter, Kills, LastWrite, PhiAt, IsPhiNode, Program.JoinFree;
    if n in DefsAfter(s.prog.nodes, s.prog.code[b], l) {
      CodeIsRegular(s, n, s.prog.code[b], l);
      ReachesHere(s, n, b, l);
      assert s.prog.ReachesEnd(n, [b], l) && [b][|[b]| - 1] == b;
    } else {
      EntryReaches(s, n, b, l);
      if !IsPhiNode(s, n) {
        var p :| s.prog.ReachesEnd(n, p, l) && p[|p| - 1] in s.prog.preds[b];
        ReachesExtend(s.prog, n, p, b, l);
      }
    }
  }

  lemma {:induction false} EntryReaches(s: State, n: Node, b: Block, l: Loc)
    requires Shape(s) && Static(s) && b in s.prog.preds && s.prog.JoinFree(b) && JustifiedEntry(s, n, b, l)
    ensures IsPhiNode(s, n) ==> n !in s.prog.nodes && s.nodes[n].kind == InArg
    ensures !IsPhiNode(s, n) ==> exists p :: s.prog.ReachesEnd(n, p, l) && p[|p| - 1] in s.prog.preds[b]
    decreases s.rank[b], 0
  {
    hide Shape, Program.JoinFree, Program.ReachesEnd;
    JoinFreePred(s.prog, b);
    if |s.prog.preds[b]| == 1 {
      JustifiedReaches(s, n, s.prog.preds[b][0], l);
    } else {
      PhiIsInput(s, n, b, l);
    }
  }

  lemma PhiIsInput(s: State, f: Node, b: Block, l: Loc)
    requires Shape(s) && PhiAt(s, f, b, l) && b in s.prog.preds && s.prog.preds[b] == []
    ensures IsPhiNode(s, f) && f !in s.prog.nodes && s.nodes[f].kind == InArg && l.target in s.inputs
  {
    PhiIsNew(s, f);
    hide Shape;
  }

  /** What is gathered for a use behind no such block is what reaches it. */
  lemma ExactBehindNoJoin(s: State, u: Node, n: Node)
    requires Precise(s, false, {}) && Coverage(s, {}) && u in s.defuse && u in s.prog.nodes && u in s.prog.place
    requires s.prog.JoinFree(s.prog.place[u].0)
    ensures Gathers(s, s.defuse[u], n) <==> ReachingDef(s.prog, u, n)
  {
    hide *;
    PreciseShape(s, false, {});
    if ReachingDef(s.prog, u, n) { NothingIsMissed(s, u, n); }
    if Gathers(s, s.defuse[u], n) {
      var (b, at) := s.prog.place[u];
      UseInCode(s, u, b, at);
      var c := ChainFrom(s, s.defuse[u], n);
      var l := JustifyingByte(s, u, b, at, c[0]);
      GatheredReaches(s, c, n, b, at, l);
      IntroReaching(s, u, n, b, at, l);
    }
  }

  lemma ChainFrom(s: State, R: set<Node>, n: Node) returns (c: seq<Node>)
    requires Gathers(s, R, n)
    ensures c != [] && Chain(s, c, n) && c[0] in R
  {
    hide IsPhiNode;
    c :| Chain(s, c, n) && c[0] in R;
  }

  lemma JustifyingByte(s: State, u: Node, b: Block, at: nat, m: Node) returns (l: Loc)
    requires Precise(s, false, {}) && u in s.defuse && u in s.prog.nodes && m in s.defuse[u]
    requires b in s.prog.code && at < |s.prog.code[b]| && s.prog.code[b][at] == u
    ensures Static(s) && b in s.prog.preds && Uses(s.prog.nodes[u], l) && UseJustified(s, m, b, at, l)
  {
    hide BlockShape, PhiShape, PhiJustified, CacheJustified, Static, Uses, UseJustified, SomePassed, InputsOpen;
    assert UseJustifies(s, s.defuse[s.prog.code[b][at]], s.prog.code[b][at], b, at);
    l :| Uses(s.prog.nodes[u], l) && UseJustified(s, m, b, at, l);
  }

  lemma GatheredReaches(s: State, c: seq<Node>, n: Node, b: Block, at: nat, l: Loc)
    requires Shape(s) && Static(s) && InputsOpen(s) && c != [] && Chain(s, c, n) && s.prog.JoinFree(b)
    requires b in s.prog.preds && b in s.prog.code && at <= |s.prog.code[b]| && UseJustified(s, c[0], b, at, l)
    ensures s.prog.Reaches(n, b, at, l)
  {
    hide Shape, Static, DefsAfter, Kills, LastWrite, IsPhiNode, Program.JoinFree, Program.ReachesEnd, Chain;
    if c[0] in DefsAfter(s.prog.nodes, s.prog.code[b][..at], l) {
      FrontIsGathered(s, c, n, b, at, l);
    } else {
      EntryReaches(s, c[0], b, l);
      EndsAtOnce(s, c, n);
    }
  }

  lemma FrontIsGathered(s: State, c: seq<Node>, n: Node, b: Block, at: nat, l: Loc)
    requires Shape(s) && Static(s) && c != [] && Chain(s, c, n) && b in s.prog.preds && b in s.prog.code
    requires at <= |s.prog.code[b]| && c[0] in DefsAfter(s.prog.nodes, s.prog.code[b][..at], l)
    ensures s.prog.Reaches(n, b, at, l)
  {
    hide Shape, Static, DefsAfter, Kills, LastWrite, Chain, Program.Reaches;
    var i := FrontWrite(s, b, at, l, c[0]);
    RegularEndsChain(s, c, n);
    LastWriteReaches(s.prog, n, b, at, l, i);
  }

  /** A chain does not go on from an ordinary node or from one that stands for an input. */
  lemma EndsAtOnce(s: State, c: seq<Node>, n: Node)
    requires c != [] && Chain(s, c, n) && InputsOpen(s)
    requires IsPhiNode(s, c[0]) ==> c[0] !in s.prog.nodes && s.nodes[c[0]].kind == InArg
    ensures c[0] == n && !IsPhiNode(s, n)
  {
    if IsPhiNode(s, c[0]) { ChainGoesOn(s, c, n); }
  }

  lemma IntroReaching(s: State, u: Node, n: Node, b: Block, at: nat, l: Loc)
    requires u in s.prog.place && s.prog.place[u] == (b, at) && u in s.prog.nodes && b in s.prog.code
    requires b in s.prog.preds && at <= |s.prog.code[b]| && Uses(s.prog.nodes[u], l) && s.prog.Reaches(n, b, at, l)
    ensures ReachingDef(s.prog, u, n)
  {
    hide Uses, Program.Reaches;
  }

  // ---- programs on which no report passes the end of its site

  lemma NeverPasses(s: State)
    requires Shape(s) && s.prog.Tree() && s.prog.Gapless() && s.inputs == {}
    ensures !SomePassed(s)
  {
    hide *;
    forall b, at: nat, ds ensures !Passed(s, b, at, ds) { NeverPassed(s, b, at, ds); }
    NonePassed(s);
  }

  lemma NonePassed(s: State)
    requires forall b, at: nat, ds :: !Passed(s, b, at, ds)
    ensures !SomePassed(s)
  {
    hide Passed;
  }

  lemma NeverPassed(s: State, b: Block, at: nat, ds: DefSite)
    requires Shape(s) && s.prog.Tree() && s.prog.Gapless() && s.inputs == {}
    ensures !Passed(s, b, at, ds)
  {
    hide *;
    if Passed(s, b, at, ds) {
      var x, y := PassedBytes(s, b, at, ds);
      NoPhiInTree(s, b, Loc(ds.target, x));
      NoPhiInTree(s, b, Loc(ds.target, y));
      NotPassed(s, b, at, ds, x, y);
    }
  }

  lemma PassedBytes(s: State, b: Block, at: nat, ds: DefSite) returns (x: Offset, y: Offset)
    requires Passed(s, b, at, ds)
    ensures b in s.prog.code && at <= |s.prog.code[b]| && x <= ds.Bytes().end < y
    ensures KillsUpTo(s, b, at, Loc(ds.target, x)) && KillsUpTo(s, b, at, Loc(ds.target, y))
  {
    hide KillsUpTo, Kills, DefSite.Bytes;
    var k: Loc :| ds.Has(k) && KillsUpTo(s, b, at, k);
    var l: Loc :| l.target == ds.target && l.byte > ds.Bytes().end && KillsUpTo(s, b, at, l);
    assert k == Loc(ds.target, k.byte) && l == Loc(ds.target, l.byte);
    x, y := k.byte, l.byte;
  }

  lemma NotPassed(s: State, b: Block, at: nat, ds: DefSite, x: Offset, y: Offset)
    requires b in s.prog.code && at <= |s.prog.code[b]| && x <= ds.Bytes().end < y && s.prog.Gapless()
    requires KillsUpTo(s, b, at, Loc(ds.target, x)) && !SomePhiAt(s, b, Loc(ds.target, x))
    requires KillsUpTo(s, b, at, Loc(ds.target, y)) && !SomePhiAt(s, b, Loc(ds.target, y))
    ensures !Passed(s, b, at, ds)
  {
    hide Kills, SomePhiAt, DefSite.Bytes;
    assert ds.Bytes().end < UNKNOWN ==> s.prog.NoGap(s.prog.code[b][..at], ds.target, ds.Bytes().end);
  }

  lemma NoPhiInTree(s: State, b: Block, l: Loc)
    requires Shape(s) && s.prog.Tree() && s.inputs == {}
    ensures !SomePhiAt(s, b, l)
  {
    if f :| PhiAt(s, f, b, l) { TreePhi(s, f, b, l); }
  }

  lemma TreePhi(s: State, f: Node, b: Block, l: Loc)
    requires Shape(s) && s.prog.Tree() && PhiAt(s, f, b, l)
    ensures l.target in s.inputs
  {
    hide Shape;
    PhiAtJoin(s, f, b, l);
    PhiIsInput(s, f, b, l);
  }

  lemma TreeIsJoinFree(prog: Program, b: Block)
    requires prog.Tree()
    ensures prog.JoinFree(b)
  {
    forall p | prog.Path(p) && p[|p| - 1] == b ensures |prog.preds[p[0]]| <= 1 { assert p[0] in prog.preds; }
  }
}
