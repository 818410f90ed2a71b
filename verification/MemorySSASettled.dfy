/** Searches that end in blocks whose definitions are known: what they find is known in
    advance, and at most one phi node is placed. */
module MemorySSASettled {
  import opened Offsets
  import opened DisjunctiveIntervals
  import opened MemoryDefinitions
  import opened ReachingDefinitions
  import opened MemorySSAState
  import opened MemorySSALemmas
  import opened MemorySSAUses
  import opened MemorySSACorrectness
  import opened MemorySSACoverage
  import opened MemorySSAPrecision

  ghost predicate KillsAll(s: State, b: Block, ds: DefSite) { forall l: Loc :: ds.Has(l) ==> KillsAtEnd(s, b, l) }

  ghost predicate KillsNone(s: State, b: Block, ds: DefSite) { forall l: Loc :: ds.Has(l) ==> !KillsAtEnd(s, b, l) }

  /** A search from the end of b goes back through single predecessors until a block kills
      all bytes of ds, or to the entry, which has no input for it. */
  ghost predicate Resolved(s: State, b: Block, ds: DefSite)
    requires Static(s) && b in s.prog.preds
    decreases s.rank[b], 1
  {
    KillsAll(s, b, ds) || (KillsNone(s, b, ds) && ResolvedEntry(s, b, ds))
  }

  ghost predicate ResolvedEntry(s: State, b: Block, ds: DefSite)
    requires Static(s) && b in s.prog.preds
    decreases s.rank[b], 0
  {
    if |s.prog.preds[b]| == 1 then Resolved(s, s.prog.preds[b][0], ds)
    else s.prog.preds[b] == [] && ds.target !in s.inputs
  }

  ghost predicate DefinedAtEnd(s: State, n: Node, b: Block, ds: DefSite) {
    exists l: Loc :: ds.Has(l) && n in DefsAtEnd(s, b, l)
  }

  /** n is among what the blocks on the way define. */
  ghost predicate InAnswer(s: State, n: Node, b: Block, ds: DefSite)
    requires Static(s) && b in s.prog.preds
    decreases s.rank[b], 1
  {
    DefinedAtEnd(s, n, b, ds) || (!KillsAll(s, b, ds) && InAnswerEntry(s, n, b, ds))
  }

  ghost predicate InAnswerEntry(s: State, n: Node, b: Block, ds: DefSite)
    requires Static(s) && b in s.prog.preds
    decreases s.rank[b], 0
  {
    |s.prog.preds[b]| == 1 && InAnswer(s, n, s.prog.preds[b][0], ds)
  }

  /** The end of ds and the byte behind it are not killed, but a byte of ds and one further behind are. */
  ghost predicate OverstepsAt(s: State, b: Block, ds: DefSite) {
    && ds.Bytes().end < UNKNOWN
    && !KillsAtEnd(s, b, Loc(ds.target, ds.Bytes().end)) && !KillsAtEnd(s, b, Loc(ds.target, ds.Bytes().end + 1))
    && (exists l: Loc :: ds.Has(l) && KillsAtEnd(s, b, l))
    && (exists l: Loc :: l.target == ds.target && l.byte > ds.Bytes().end && KillsAtEnd(s, b, l))
  }

  // ---- what searches promise

  /** The search from the end of b finds the answer and only caches definitions. */
  ghost predicate Settles(s: State, t: State, R: set<Node>, b: Block, ds: DefSite) {
    Static(s) && b in s.prog.preds && Resolved(s, b, ds) ==>
      SameView(s, t) && forall n :: n in R <==> InAnswer(s, n, b, ds)
  }

  ghost predicate EntrySettles(s: State, t: State, R: set<Node>, b: Block, ds: DefSite) {
    Static(s) && b in s.prog.preds ==>
      && (ResolvedEntry(s, b, ds) ==> SameView(s, t) && forall n :: n in R <==> InAnswerEntry(s, n, b, ds))
      && (|s.prog.preds[b]| > 1 && AllResolved(s, s.prog.preds[b], ds) ==> OnePhi(s, t, R, b, ds))
  }

  ghost predicate AllResolved(s: State, ps: seq<Block>, ds: DefSite)
    requires Static(s)
  {
    forall i :: 0 <= i < |ps| ==> ps[i] in s.prog.preds && Resolved(s, ps[i], ds)
  }

  /** n is among what some of the first k blocks of ps give. */
  ghost predicate InSomeAnswer(s: State, n: Node, ps: seq<Block>, k: nat, ds: DefSite)
    requires Static(s)
  {
    exists i :: 0 <= i < k && i < |ps| && ps[i] in s.prog.preds && InAnswer(s, n, ps[i], ds)
  }

  /** One phi node of b is new, its operands are the answers from the predecessors of b, and
      it is what defines the bytes that b kills only now. */
  ghost predicate OnePhi(s: State, t: State, R: set<Node>, b: Block, ds: DefSite)
    requires Static(s) && b in s.prog.preds
  {
    exists f, site :: NewPhiAt(s, t, R, b, ds, f, site)
  }

  ghost predicate NewPhiAt(s: State, t: State, R: set<Node>, b: Block, ds: DefSite, f: Node, site: DefSite)
    requires Static(s) && b in s.prog.preds
  {
    && R == {f} && f !in s.nodes && site.target == ds.target && site.Bytes() == ds.Bytes()
    && b in s.blocks && f in t.defuse && PhiFields(s, t, b, site, f, t.defuse[f])
    && (forall n :: n in t.defuse[f] <==> InSomeAnswer(s, n, s.prog.preds[b], |s.prog.preds[b]|, ds))
    && PhiView(s, t, b, ds, f)
  }

  ghost predicate PhiFields(s: State, t: State, b: Block, site: DefSite, f: Node, ops: set<Node>)
    requires b in s.blocks
  {
    t == s.(nodes := s.nodes[f := RWNode([], [site], [], Phi)], where_ := s.where_[f := b],
            blocks := s.blocks[b := [f] + s.blocks[b]], defuse := s.defuse[f := ops], info := t.info,
            claimed := t.claimed)
  }

  ghost predicate PhiView(s: State, t: State, b: Block, ds: DefSite, f: Node) {
    && (forall c, l: Loc :: c != b ==> (KillsAtEnd(t, c, l) <==> KillsAtEnd(s, c, l)))
    && (forall c, l: Loc :: DefsAtEnd(t, c, l) ==
          DefsAtEnd(s, c, l) + if c == b && KillsAtEnd(t, b, l) && !KillsAtEnd(s, b, l) then {f} else {})
    && (forall l: Loc :: KillsAtEnd(s, b, l) ==> KillsAtEnd(t, b, l)) && KillsAll(t, b, ds)
    && (OverstepsAt(s, b, ds) ==> KillsAtEnd(t, b, Loc(ds.target, ds.Bytes().end + 1)))
    && (t.claimed <==> s.claimed || OverstepsAt(s, b, ds))
  }

  /** The operands of f are found, and nothing else happens. */
  ghost predicate OperandsSettle(s: State, t: State, f: Node, b: Block, ds: DefSite) {
    Static(s) && b in s.prog.preds && AllResolved(s, s.prog.preds[b], ds) ==>
      && f in t.defuse && t.defuse == s.defuse[f := t.defuse[f]] && SameView(s, t.(defuse := s.defuse))
      && forall n :: n in t.defuse[f] <==> InSomeAnswer(s, n, s.prog.preds[b], |s.prog.preds[b]|, ds)
  }

  ghost predicate SomeOperandsSettle(s: State, t: State, ps: seq<Block>, k: nat, ds: DefSite, defs: set<Node>) {
    Static(s) && AllResolved(s, ps, ds) ==>
      SameView(s, t) && forall n :: n in defs <==> InSomeAnswer(s, n, ps, k, ds)
  }

  /** u is the first node of its block and has one access. */
  ghost predicate PlainUse(s: State, u: Node) {
    && u in s.prog.place && u in s.prog.nodes && |s.prog.nodes[u].uses| == 1 && s.prog.place[u].0 in s.blocks
    && s.blocks[s.prog.place[u].0] != [] && s.blocks[s.prog.place[u].0][0] == u
  }

  ghost predicate UseSettles(s: State, t: State, R: set<Node>, u: Node) {
    PlainUse(s, u) ==> EntrySettles(s, t, R, s.prog.place[u].0, s.prog.nodes[u].uses[0])
  }

  ghost predicate UseSettlesSoFar(s: State, t: State, R: set<Node>, u: Node, j: nat) {
    && (j == 0 ==> t == s && R == {})
    && (j == 1 ==> UseSettles(s, t, R, u))
  }

  /** The recorded answer to u is that of a search that turned s into some state. */
  ghost predicate AnswerSettles(s: State, t: State, u: Node) {
    exists m :: u in t.defuse && UseSettles(s, m, t.defuse[u], u) && t == m.(defuse := m.defuse[u := t.defuse[u]])
  }

  // ---- the answer depends on the bytes of ds and on the view of a state

  ghost predicate SameBytes(c: DefSite, d: DefSite) { c.target == d.target && c.Bytes() == d.Bytes() }

  lemma SameBytesHave(c: DefSite, d: DefSite)
    requires SameBytes(c, d)
    ensures forall l: Loc :: c.Has(l) <==> d.Has(l)
  {
    hide DefSite.Bytes;
  }

  lemma {:induction false} Congruent(s: State, b: Block, c: DefSite, d: DefSite)
    requires Static(s) && b in s.prog.preds && SameBytes(c, d)
    ensures Resolved(s, b, c) == Resolved(s, b, d) && ResolvedEntry(s, b, c) == ResolvedEntry(s, b, d)
    ensures KillsAll(s, b, c) == KillsAll(s, b, d) && KillsNone(s, b, c) == KillsNone(s, b, d)
    ensures forall n :: InAnswer(s, n, b, c) == InAnswer(s, n, b, d)
    ensures forall n :: InAnswerEntry(s, n, b, c) == InAnswerEntry(s, n, b, d)
    decreases s.rank[b]
  {
    CongruentHere(s, b, c, d);
    hide KillsAll, KillsNone, DefinedAtEnd, DefSite.Bytes;
    if |s.prog.preds[b]| == 1 { Congruent(s, s.prog.preds[b][0], c, d); }
    assert forall n :: InAnswerEntry(s, n, b, c) == InAnswerEntry(s, n, b, d);
  }

  lemma CongruentHere(s: State, b: Block, c: DefSite, d: DefSite)
    requires SameBytes(c, d)
    ensures KillsAll(s, b, c) == KillsAll(s, b, d) && KillsNone(s, b, c) == KillsNone(s, b, d)
    ensures forall n :: DefinedAtEnd(s, n, b, c) == DefinedAtEnd(s, n, b, d)
  {
    SameBytesHave(c, d);
    hide KillsAtEnd, DefsAtEnd, DefSite.Has;
    forall n ensures DefinedAtEnd(s, n, b, c) == DefinedAtEnd(s, n, b, d) {
      if l: Loc :| c.Has(l) && n in DefsAtEnd(s, b, l) { assert d.Has(l); }
      if l: Loc :| d.Has(l) && n in DefsAtEnd(s, b, l) { assert c.Has(l); }
    }
  }

  /** Blocks for which s and t say the same of the bytes of ds. */
  ghost predicate SameAt(s: State, t: State, b: Block, ds: DefSite) {
    forall l: Loc :: ds.Has(l) ==>
      (KillsAtEnd(t, b, l) <==> KillsAtEnd(s, b, l)) && DefsAtEnd(t, b, l) == DefsAtEnd(s, b, l)
  }

  lemma {:induction false} SameAnswer(s: State, t: State, b: Block, ds: DefSite)
    requires Static(s) && Static(t) && t.prog == s.prog && t.rank == s.rank && t.inputs == s.inputs && b in s.prog.preds
    requires Resolved(s, b, ds)
    requires forall c :: c in s.prog.preds && (|s.prog.preds[c]| <= 1 || KillsAll(s, c, ds)) ==> SameAt(s, t, c, ds)
    ensures Resolved(t, b, ds) && forall n :: InAnswer(s, n, b, ds) == InAnswer(t, n, b, ds)
    decreases s.rank[b]
  {
    hide KillsAtEnd, DefsAtEnd;
    assert SameAt(s, t, b, ds);
    SameHere(s, t, b, ds);
    hide KillsAll, KillsNone, DefinedAtEnd, SameAt;
    if !KillsAll(s, b, ds) && |s.prog.preds[b]| == 1 { SameAnswer(s, t, s.prog.preds[b][0], ds); }
    assert !KillsAll(s, b, ds) ==> forall n :: InAnswerEntry(s, n, b, ds) == InAnswerEntry(t, n, b, ds);
  }

  lemma SameHere(s: State, t: State, b: Block, ds: DefSite)
    requires SameAt(s, t, b, ds)
    ensures KillsAll(s, b, ds) == KillsAll(t, b, ds) && KillsNone(s, b, ds) == KillsNone(t, b, ds)
    ensures forall n :: DefinedAtEnd(s, n, b, ds) == DefinedAtEnd(t, n, b, ds)
  {
    hide KillsAtEnd, DefsAtEnd, DefSite.Has;
    forall n ensures DefinedAtEnd(s, n, b, ds) == DefinedAtEnd(t, n, b, ds) {
      if l: Loc :| ds.Has(l) && n in DefsAtEnd(s, b, l) { assert n in DefsAtEnd(t, b, l); }
      if l: Loc :| ds.Has(l) && n in DefsAtEnd(t, b, l) { assert n in DefsAtEnd(s, b, l); }
    }
  }

  lemma SameViewAnswer(s: State, t: State, b: Block, ds: DefSite)
    requires Static(s) && Static(t) && SameView(s, t) && b in s.prog.preds && Resolved(s, b, ds)
    ensures t.prog == s.prog && Resolved(t, b, ds) && forall n :: InAnswer(s, n, b, ds) == InAnswer(t, n, b, ds)
  {
    hide KillsAtEnd, DefsAtEnd, Resolved, InAnswer, Static;
    SameAnswer(s, t, b, ds);
  }

  lemma SameViewTransitive(s: State, t: State, u: State)
    requires SameView(s, t) && SameView(t, u)
    ensures SameView(s, u)
  {
    hide KillsAtEnd, DefsAtEnd;
  }

  lemma SameViewProgram(s: State, t: State)
    requires SameView(s, t)
    ensures t.prog == s.prog && t.rank == s.rank && t.inputs == s.inputs
  {
    hide KillsAtEnd, DefsAtEnd;
  }

  // ---- the end of one block

  lemma SettledAtEnd(start: State, s: State, t: State, b: Block, ds: DefSite, G: set<Node>, sites: seq<DefSite>,
                     Rs: set<Node>)
    requires Static(start) && Static(s) && SameView(start, s) && b in s.info && s.info[b].processed && ds.Proper()
    requires forall n :: n in G <==> exists l: Loc :: ds.Has(l) && n in NodesAt(s.info[b].definitions, l)
    requires UndefinedIn(s.info[b].kills, ds, sites) && (sites == [] ==> Rs == {} && t == s)
    requires |sites| == 1 ==> EntrySettles(s, t, Rs, b, sites[0])
    ensures Settles(start, t, G + Rs, b, ds)
  {
    hide *;
    SameViewProgram(start, s);
    if b in start.prog.preds && Resolved(start, b, ds) {
      SameViewAnswer(start, s, b, ds);
      ResolvedHere(s, b, ds);
      GatheredAtEnd(s, b, ds, G);
      if KillsAll(s, b, ds) {
        NoSites(s, b, ds, sites);
        AnswerKilled(s, b, ds);
      } else {
        WholeSites(s, b, ds, sites);
        Congruent(s, b, sites[0], ds);
        SettledSite(s, t, Rs, b, sites[0]);
        AnswerThrough(s, b, ds);
        SameViewTransitive(start, s, t);
      }
    }
    SettlesIntro(start, t, G + Rs, b, ds);
  }

  lemma SettlesIntro(s: State, t: State, R: set<Node>, b: Block, ds: DefSite)
    requires Static(s) && b in s.prog.preds && Resolved(s, b, ds) ==>
      SameView(s, t) && forall n :: n in R <==> InAnswer(s, n, b, ds)
    ensures Settles(s, t, R, b, ds)
  {
    hide Static, Resolved, InAnswer, SameView;
  }

  lemma ResolvedHere(s: State, b: Block, ds: DefSite)
    requires Static(s) && b in s.prog.preds && Resolved(s, b, ds)
    ensures KillsAll(s, b, ds) || (KillsNone(s, b, ds) && ResolvedEntry(s, b, ds))
  {
    hide KillsAll, KillsNone, ResolvedEntry, Static;
  }

  lemma AnswerKilled(s: State, b: Block, ds: DefSite)
    requires Static(s) && b in s.prog.preds && KillsAll(s, b, ds)
    ensures forall n :: InAnswer(s, n, b, ds) <==> DefinedAtEnd(s, n, b, ds)
  {
    hide KillsAll, DefinedAtEnd, InAnswerEntry, Static;
  }

  lemma AnswerThrough(s: State, b: Block, ds: DefSite)
    requires Static(s) && b in s.prog.preds && !KillsAll(s, b, ds)
    ensures forall n :: InAnswer(s, n, b, ds) <==> DefinedAtEnd(s, n, b, ds) || InAnswerEntry(s, n, b, ds)
  {
    hide KillsAll, DefinedAtEnd, InAnswerEntry, Static;
  }

  lemma GatheredAtEnd(s: State, b: Block, ds: DefSite, G: set<Node>)
    requires b in s.info && s.info[b].processed
    requires forall n :: n in G <==> exists l: Loc :: ds.Has(l) && n in NodesAt(s.info[b].definitions, l)
    ensures forall n :: n in G <==> DefinedAtEnd(s, n, b, ds)
  {
    hide NodesAt, DefSite.Has;
  }

  lemma NoSites(s: State, b: Block, ds: DefSite, sites: seq<DefSite>)
    requires b in s.info && s.info[b].processed && UndefinedIn(s.info[b].kills, ds, sites) && KillsAll(s, b, ds)
    ensures sites == []
  {
    hide NodesAt, UndefinedIn, DefSite.Has;
    AllDefined(s.info[b].kills, ds, sites);
  }

  lemma WholeSites(s: State, b: Block, ds: DefSite, sites: seq<DefSite>)
    requires b in s.info && s.info[b].processed && UndefinedIn(s.info[b].kills, ds, sites) && KillsNone(s, b, ds)
    ensures |sites| == 1 && SameBytes(sites[0], ds)
  {
    hide NodesAt, UndefinedIn, DefSite.Has;
    OneSite(s.info[b].kills, ds, sites);
  }

  lemma SettledSite(s: State, t: State, R: set<Node>, b: Block, ds: DefSite)
    requires Static(s) && b in s.prog.preds && EntrySettles(s, t, R, b, ds) && ResolvedEntry(s, b, ds)
    ensures SameView(s, t) && forall n :: n in R <==> InAnswerEntry(s, n, b, ds)
  {
    hide Static, ResolvedEntry, InAnswerEntry, SameView, OnePhi, AllResolved;
  }

  /** All that is known of a search from the end of b. */
  lemma SearchedAtEnd(start: State, s: State, over: bool, t: State, over': bool, b: Block, ds: DefSite, G: set<Node>,
                      sites: seq<DefSite>, Rs: set<Node>, open: set<Node>)
    requires Inv(start, open) && Inv(s, open) && Inv(t, open) && Coverage(s, open) && Precise(s, over, open)
    requires SameView(start, s) && Extends(start, s) && Extends(s, t) && b in s.info && s.info[b].processed
    requires ds.Proper() && b in t.prog.preds && t.prog == s.prog && (s.prog.EqualOrDisjoint() ==> s.prog.Cell(ds))
    requires forall n :: n in G <==> exists l: Loc :: ds.Has(l) && n in NodesAt(s.info[b].definitions, l)
    requires UndefinedIn(s.info[b].kills, ds, sites) && (over || Oversteps(ds, sites) ==> over')
    requires SitesRight(t, Rs, b, sites) && SitesCovering(t, Rs, b, sites) && SitesJustifying(t, over', Rs, b, sites)
    requires (sites == [] ==> Rs == {} && t == s) && (|sites| == 1 ==> EntrySettles(s, t, Rs, b, sites[0]))
    requires G <= s.nodes.Keys && Rs <= t.nodes.Keys
    ensures Extends(start, t) && G + Rs <= t.nodes.Keys
    ensures RightAtEnd(t, G + Rs, b, ds) && Covering(t, G + Rs, b, ds) && Settles(start, t, G + Rs, b, ds)
    ensures Justifying(t, over', G + Rs, b, ds)
  {
    hide *;
    ExtendsKeys(s, t);
    ExtendsTransitive(start, s, t);
    FoundAtEnd(s, t, b, ds, G, sites, Rs, open);
    InvStatic(start, open);
    InvStatic(s, open);
    InvStatic(t, open);
    CoveringAtEnd(s, t, b, ds, G, sites, Rs, open);
    SettledAtEnd(start, s, t, b, ds, G, sites, Rs);
    JustifyingAtEnd(s, over, t, over', b, ds, G, sites, Rs, open);
  }

  // ---- the entry of one block

  lemma SettledThrough(s: State, t: State, R: set<Node>, b: Block, ds: DefSite)
    requires Static(s) && b in s.prog.preds && |s.prog.preds[b]| == 1 && Settles(s, t, R, s.prog.preds[b][0], ds)
    ensures EntrySettles(s, t, R, b, ds)
  {
    hide Resolved, InAnswer, SameView, OnePhi;
  }

  lemma SettledEntry(s: State, t: State, R: set<Node>, b: Block, ds: DefSite)
    requires b in s.prog.preds && s.prog.preds[b] == [] && (ds.target !in s.inputs ==> t == s && R == {})
    ensures EntrySettles(s, t, R, b, ds)
  {
    hide Static, OnePhi;
    SameViewReflexive(s);
    hide SameView;
  }

  /** The next of the uncovered sites may be searched. */
  lemma SearchNext(start: State, s: State, b: Block, site: DefSite, target: Node)
    requires Extends(start, s) && b in s.prog.preds && b in start.prog.preds && b in start.info && site.target == target
    ensures Unkilled(s, target) <= Unkilled(start, target) && Again(s, b, site) <= 1
    ensures Unkilled(s, target) < Unkilled(start, target) || Again(s, b, site) == Again(start, b, site)
  {
    hide *;
    UnkilledShrinks(start, s, target);
    if Unkilled(start, target) <= Unkilled(s, target) { AgainSame(start, s, b, site); }
    AgainBound(s, b, site);
  }

  lemma SiteFound(start: State, s: State, t: State, Rs: set<Node>, R: set<Node>, b: Block, sites: seq<DefSite>, k: nat,
                  open: set<Node>)
    requires Extends(start, s) && Extends(s, t) && Inv(t, open) && k < |sites| && Rs <= s.nodes.Keys
    requires SitesCovering(s, Rs, b, sites[..k]) && EntryCovering(t, R, b, sites[k])
    requires (k == 0 ==> Rs == {} && s == start) && RightAtEntry(t, R, b, sites[k]) && b in t.prog.preds
    requires EntrySettles(s, t, R, b, sites[k])
    ensures Extends(start, t) && Static(t) && Rs <= t.nodes.Keys && t.info.Keys == s.info.Keys
    ensures SitesCovering(t, Rs + R, b, sites[..k + 1])
    ensures k + 1 == |sites| ==> SitesRight(t, Rs + R, b, sites)
    ensures |sites| == 1 ==> EntrySettles(start, t, Rs + R, b, sites[0])
  {
    hide *;
    assert k == 0 ==> Rs + R == R;
    ExtendsTransitive(start, s, t);
    ExtendsKeys(s, t);
    InvStatic(t, open);
    OneMoreSite(s, t, Rs, R, b, sites, k);
    LastSite(t, Rs + R, b, sites, k, R);
  }

  lemma LastSite(t: State, Rs: set<Node>, b: Block, sites: seq<DefSite>, k: nat, R: set<Node>)
    requires Static(t) && k < |sites| && (k == 0 ==> Rs == R) && RightAtEntry(t, R, b, sites[k]) && b in t.prog.preds
    ensures k + 1 == |sites| ==> SitesRight(t, Rs, b, sites)
  {
    hide Static, RightEntry, Program.EqualOrDisjoint;
  }

  lemma NoSitesRight(t: State, b: Block, open: set<Node>)
    requires Inv(t, open) && b in t.prog.preds
    ensures SitesRight(t, {}, b, []) && Static(t)
  {
    InvStatic(t, open);
    hide Inv, Static, RightEntry, Program.EqualOrDisjoint;
  }

  // ---- operands

  lemma NoOperands(s: State, ps: seq<Block>, ds: DefSite)
    ensures SomeOperandsSettle(s, s, ps, 0, ds, {})
  {
    hide Static, AllResolved, InAnswer;
    SameViewReflexive(s);
    hide SameView;
  }

  lemma OneMoreOperand(start: State, s: State, t: State, ps: seq<Block>, k: nat, ds: DefSite, defs: set<Node>,
                       R: set<Node>)
    requires Static(start) && Static(s) && k < |ps| && SomeOperandsSettle(start, s, ps, k, ds, defs)
    requires Settles(s, t, R, ps[k], ds)
    ensures SomeOperandsSettle(start, t, ps, k + 1, ds, defs + R)
  {
    hide Static, Resolved, InAnswer, SameView;
    if AllResolved(start, ps, ds) {
      SameViewProgram(start, s);
      SameViewAnswer(start, s, ps[k], ds);
      SameViewTransitive(start, s, t);
      forall n ensures InSomeAnswer(start, n, ps, k + 1, ds) <==>
                         InSomeAnswer(start, n, ps, k, ds) || InAnswer(start, n, ps[k], ds)
      {
      }
    }
  }

  lemma AllOperands(s: State, t: State, f: Node, b: Block, ds: DefSite, ops: set<Node>)
    requires b in s.prog.preds && SomeOperandsSettle(s, t, s.prog.preds[b], |s.prog.preds[b]|, ds, ops)
    ensures OperandsSettle(s, t.(defuse := t.defuse[f := ops]), f, b, ds)
  {
    hide Static, AllResolved, InSomeAnswer, KillsAtEnd, DefsAtEnd;
    var u := t.(defuse := t.defuse[f := ops]);
    if Static(s) && AllResolved(s, s.prog.preds[b], ds) {
      assert t.defuse == s.defuse && u.(defuse := s.defuse) == t;
    }
  }

  /** What is found at the end of one more predecessor. */
  lemma OperandFound(start: State, s: State, over: bool, t: State, over': bool, ps: seq<Block>, k: nat, ds: DefSite,
                     defs: set<Node>, R: set<Node>, open: set<Node>)
    requires Static(start) && Static(s) && Extends(start, s) && Extends(s, t) && Inv(t, open) && k < |ps|
    requires (forall i :: 0 <= i < |ps| ==> ps[i] in s.prog.preds) && t.prog == s.prog
    requires OperandsExact(s, ps[..k], ds, defs) && RightAtEnd(t, R, ps[k], ds)
    requires OperandsCovering(s, ps[..k], ds, defs) && Covering(t, R, ps[k], ds)
    requires SomeOperandsSettle(start, s, ps, k, ds, defs) && Settles(s, t, R, ps[k], ds)
    requires OperandsJustifying(s, over, ps[..k], ds, defs) && Justifying(t, over', R, ps[k], ds) && (over ==> over')
    ensures OperandsJustifying(t, over', ps[..k + 1], ds, defs + R)
    ensures Extends(start, t) && Static(t) && s.nodes.Keys <= t.nodes.Keys
    ensures forall n :: n in s.nodes ==> n in t.nodes && t.nodes[n] == s.nodes[n]
    ensures forall n :: n in s.where_ ==> n in t.where_ && t.where_[n] == s.where_[n]
    ensures OperandsExact(t, ps[..k + 1], ds, defs + R)
    ensures OperandsCovering(t, ps[..k + 1], ds, defs + R) && SomeOperandsSettle(start, t, ps, k + 1, ds, defs + R)
  {
    hide *;
    ExtendsTransitive(start, s, t);
    ExtendsKeys(s, t);
    InvStatic(t, open);
    OperandsExactStep(s, t, ps, k, ds, defs, R);
    OperandsCoveringStep(s, t, ps, k, ds, defs, R);
    OneMoreOperand(start, s, t, ps, k, ds, defs, R);
    OperandsJustifyingStep(s, over, t, over', ps, k, ds, defs, R);
  }

  /** The operands of f are known and recorded. */
  lemma OperandsFound(start: State, s: State, over: bool, f: Node, b: Block, ds: DefSite, defs: set<Node>,
                      open: set<Node>)
    requires Inv(s, open + {f}) && Coverage(s, open + {f}) && Extends(start, s) && Static(start) && Static(s)
    requires f !in open && f in s.nodes && s.nodes[f] == RWNode([], [ds], [], Phi) && f in s.where_ && s.where_[f] == b
    requires start.prog == s.prog && b in s.prog.preds && defs <= s.nodes.Keys
    requires forall i :: 0 <= i < |s.prog.preds[b]| ==> s.prog.preds[b][i] in s.prog.preds
    requires OperandsExact(s, s.prog.preds[b], ds, defs)
    requires OperandsCovering(s, s.prog.preds[b], ds, defs)
    requires SomeOperandsSettle(start, s, s.prog.preds[b], |s.prog.preds[b]|, ds, defs)
    requires Precise(s, over, open + {f}) && OperandsJustifying(s, over, s.prog.preds[b], ds, defs)
    ensures var t := s.(defuse := s.defuse[f := defs]);
      Inv(t, open) && Coverage(t, open) && Precise(t, over, open) && Extends(start, t)
        && OperandsSettle(start, t, f, b, ds)
    ensures f !in s.prog.nodes
  {
    hide *;
    PhiOpen(s, f, open + {f});
    ClosesIntro(s, f, b, ds, defs);
    var t := s.(defuse := s.defuse[f := defs]);
    ClosePhi(s, t, f, defs, open);
    InvShape(t, open);
    CoverageCloses(s, t, f, b, ds, defs, open);
    PreciseCloses(s, over, t, f, b, ds, defs, open);
    AllOperands(start, s, f, b, ds, defs);
    ExtendsTransitive(start, s, t);
  }

  // ---- a new phi node

  lemma SettledJoin(start: State, s: State, t: State, u: State, b: Block, ds: DefSite, f: Node, sites: seq<DefSite>)
    requires Shape(start) && Static(start) && Static(s) && Static(t) && SameView(start, s)
    requires b in s.info && b in s.blocks && s.info[b].processed && b in s.prog.preds && |s.prog.preds[b]| > 1
    requires PhiAllowed(s, b, ds, f, Phi) && PlacedAt(s, t, b, ds, f, Phi, sites)
    requires OperandsSettle(t, u, f, b, ds) && Shape(s)
    ensures EntrySettles(start, u, {f}, b, ds)
  {
    hide *;
    PlacedFacts(s, t, b, ds, f, Phi, sites);
    SameViewProgram(start, s);
    PhiAddedKeys(s, t, b, ds, f, Phi, sites);
    if AllResolved(start, start.prog.preds[b], ds) {
      JoinResolved(start, s, t, b, ds, f, sites);
      JoinOperands(start, t, u, f, b, ds);
      JoinFields(start, s, t, u, b, ds, f, sites);
      JoinView(start, s, t, u, b, ds, f, sites);
      NewPhiIntro(start, u, b, ds, f);
    }
    JoinIntro(start, u, {f}, b, ds);
  }

  /** After a phi node was placed for a search of ds from the entry of b. */
  lemma PhiSearched(start: State, s: State, t: State, b: Block, ds: DefSite, f: Node, kind: Kind, sites: seq<DefSite>,
                    now: set<Node>)
    requires Inv(t, now) && SameView(start, s) && Extends(start, s) && Extends(s, t) && b in s.info
    requires b in s.prog.preds && |s.prog.preds[b]| != 1
    requires PlacedFields(s, t, b, ds, f, kind)
    ensures Extends(start, t) && Static(t) && RightAtEntry(t, {f}, b, ds) && EntryCovering(t, {f}, b, ds)
    ensures b in start.prog.preds && Unkilled(t, ds.target) <= Unkilled(start, ds.target)
    ensures Again(start, b, ds) == 0 ==> Unkilled(t, ds.target) < Unkilled(start, ds.target)
  {
    hide *;
    SameViewProgram(start, s);
    SameUnkilled(start, s, ds.target);
    SameAgain(start, s, b, ds);
    ExtendsTransitive(start, s, t);
    ClaimedLater(s, t);
    FieldsFacts(s, t, b, ds, f, kind);
    PhiKills(s, t, b, ds);
    InvStatic(t, now);
    RightAtJoin(t, {f}, b, ds);
    CoveringAtJoin(t, {f}, b, ds);
  }

  lemma PhiPlacedPrecisely(s: State, over: bool, b: Block, ds: DefSite, f: Node, kind: Kind, D: Definitions,
                           sites: seq<DefSite>, open: set<Node>)
    requires Inv(s, open) && Coverage(s, open) && Precise(s, over, open) && b in s.info && b in s.blocks
    requires s.info[b].processed && PhiAllowed(s, b, ds, f, kind) && Covered(s.info[b], D, ds, f, sites)
    requires Oversteps(ds, sites) <==> WillOverstep(s.info[b].kills, ds)
    ensures var t, now := WithPhi(s, b, ds, f, kind, D, Oversteps(ds, sites)), if kind == Phi then open + {f} else open;
      Inv(t, now) && Coverage(t, now) && Precise(t, over || Oversteps(ds, sites), now) && Extends(s, t)
        && PlacedAt(s, t, b, ds, f, kind, sites) && PlacedFields(s, t, b, ds, f, kind)
  {
    hide *;
    PhiPlaced(s, b, ds, f, kind, D, sites, open);
    InvShape(WithPhi(s, b, ds, f, kind, D, Oversteps(ds, sites)), if kind == Phi then open + {f} else open);
    PlacedPhiIsPrecise(s, over, b, ds, f, kind, D, sites, open);
  }

  lemma PhiJustifies(s: State, t: State, over: bool, b: Block, ds: DefSite, f: Node, kind: Kind)
    requires Static(t) && b in t.prog.preds && |t.prog.preds[b]| != 1 && ds.Proper()
    requires PlacedFields(s, t, b, ds, f, kind)
    ensures EntryJustifying(t, over, {f}, b, ds)
  {
    hide *;
    FieldsFacts(s, t, b, ds, f, kind);
    JustifyingAtJoin(t, over, {f}, b, ds);
  }

  lemma FieldsFacts(s: State, t: State, b: Block, ds: DefSite, f: Node, kind: Kind)
    requires PlacedFields(s, t, b, ds, f, kind)
    ensures forall l: Loc :: ds.Has(l) ==> KillsAtEnd(t, b, l) && PhiAt(t, f, b, l)
  {
    hide KillsAtEnd, PhiAt;
  }

  lemma RightStays(s: State, t: State, R: set<Node>, b: Block, ds: DefSite)
    requires Extends(s, t) && Static(t) && t.prog == s.prog && RightAtEntry(s, R, b, ds)
    ensures RightAtEntry(t, R, b, ds)
  {
    hide Extends, Static, RightEntry, Right, Program.EqualOrDisjoint;
    if s.prog.EqualOrDisjoint() { RightExtends(s, t, R, b, ds); }
  }

  /** After the operands of the phi node were searched, too. */
  lemma OperandsSearched(start: State, s: State, t: State, u: State, b: Block, ds: DefSite, f: Node,
                         sites: seq<DefSite>, open: set<Node>)
    requires Inv(start, open) && Inv(s, open) && Inv(u, open) && Static(t) && SameView(start, s)
    requires Extends(start, t) && Extends(t, u) && b in s.info && s.info[b].processed && b in s.prog.preds
    requires |s.prog.preds[b]| > 1 && PhiAllowed(s, b, ds, f, Phi) && PlacedAt(s, t, b, ds, f, Phi, sites)
    requires OperandsSettle(t, u, f, b, ds) && RightAtEntry(t, {f}, b, ds) && EntryCovering(t, {f}, b, ds)
    requires b in t.prog.preds && f in t.nodes
    ensures Extends(start, u) && Static(u) && RightAtEntry(u, {f}, b, ds) && EntryCovering(u, {f}, b, ds)
    ensures f in u.nodes
    ensures EntrySettles(start, u, {f}, b, ds)
  {
    hide *;
    InvShape(start, open);
    InvShape(s, open);
    InvStatic(start, open);
    InvStatic(s, open);
    InvStatic(u, open);
    ExtendsTransitive(start, t, u);
    ExtendsKeys(t, u);
    ClaimedLater(t, u);
    RightStays(t, u, {f}, b, ds);
    EntryCoveringExtends(t, u, {f}, {f}, b, ds);
    SettledJoin(start, s, t, u, b, ds, f, sites);
  }

  lemma JoinIntro(s: State, t: State, R: set<Node>, b: Block, ds: DefSite)
    requires Static(s) && b in s.prog.preds && |s.prog.preds[b]| > 1
    requires AllResolved(s, s.prog.preds[b], ds) ==> OnePhi(s, t, R, b, ds)
    ensures EntrySettles(s, t, R, b, ds)
  {
    hide AllResolved, OnePhi, SameView, Static;
  }

  lemma NewPhiIntro(s: State, t: State, b: Block, ds: DefSite, f: Node)
    requires Static(s) && b in s.prog.preds && f !in s.nodes && b in s.blocks && f in t.defuse
    requires PhiFields(s, t, b, ds, f, t.defuse[f]) && PhiView(s, t, b, ds, f)
    requires forall n :: n in t.defuse[f] <==> InSomeAnswer(s, n, s.prog.preds[b], |s.prog.preds[b]|, ds)
    ensures OnePhi(s, t, {f}, b, ds)
  {
    hide PhiFields, PhiView, InSomeAnswer, Static;
    assert NewPhiAt(s, t, {f}, b, ds, f, ds);
  }

  /** A new phi node changes nothing on the way of a search that is resolved. */
  lemma PhiKeepsAnswer(s: State, t: State, b: Block, ds: DefSite, f: Node, sites: seq<DefSite>, c: Block)
    requires Static(s) && Static(t) && Shape(s) && b in s.info && b in s.blocks && s.info[b].processed
    requires b in s.prog.preds && |s.prog.preds[b]| > 1 && c in s.prog.preds
    requires PhiAllowed(s, b, ds, f, Phi) && PhiAdded(s, t, b, ds, f, Phi, sites)
    requires UndefinedIn(s.info[b].kills, ds, sites) && Resolved(s, c, ds)
    ensures t.prog == s.prog && Resolved(t, c, ds) && forall n :: InAnswer(s, n, c, ds) == InAnswer(t, n, c, ds)
  {
    hide *;
    PhiAddedKeys(s, t, b, ds, f, Phi, sites);
    PhiAddedClaims(s, t, b, ds, f, Phi, sites);
    PhiAddedKills(s, t, b, ds, f, Phi, sites);
    forall d | d in s.prog.preds && (|s.prog.preds[d]| <= 1 || KillsAll(s, d, ds)) ensures SameAt(s, t, d, ds) {
      if d == b { NoSites(s, b, ds, sites); }
      NothingAdded(s, t, b, ds, f, sites, d);
    }
    SameAnswer(s, t, c, ds);
  }

  lemma NothingAdded(s: State, t: State, b: Block, ds: DefSite, f: Node, sites: seq<DefSite>, d: Block)
    requires d == b ==> sites == []
    requires forall c, l: Loc :: KillsAtEnd(t, c, l) <==> KillsAtEnd(s, c, l) || (c == b && SomeSite(sites, l))
    requires forall c, l: Loc ::
      DefsAtEnd(t, c, l) == DefsAtEnd(s, c, l) + (if c == b && SomeSite(sites, l) then {f} else {})
    ensures SameAt(s, t, d, ds)
  {
    hide KillsAtEnd, DefsAtEnd, DefSite.Has;
  }

  lemma JoinResolved(start: State, s: State, t: State, b: Block, ds: DefSite, f: Node, sites: seq<DefSite>)
    requires Static(start) && Static(s) && Static(t) && SameView(start, s) && Shape(s)
    requires b in s.info && b in s.blocks && s.info[b].processed && b in s.prog.preds && |s.prog.preds[b]| > 1
    requires PhiAllowed(s, b, ds, f, Phi) && PhiAdded(s, t, b, ds, f, Phi, sites)
    requires UndefinedIn(s.info[b].kills, ds, sites) && AllResolved(start, s.prog.preds[b], ds)
    ensures t.prog == start.prog == s.prog && AllResolved(t, t.prog.preds[b], ds)
    ensures forall n :: InSomeAnswer(start, n, t.prog.preds[b], |t.prog.preds[b]|, ds) <==>
                          InSomeAnswer(t, n, t.prog.preds[b], |t.prog.preds[b]|, ds)
  {
    hide Static, Shape, Resolved, InAnswer, SameView, PhiAllowed, PhiAdded, UndefinedIn;
    SameViewProgram(start, s);
    var ps := s.prog.preds[b];
    PhiAddedKeys(s, t, b, ds, f, Phi, sites);
    forall i | 0 <= i < |ps|
      ensures Resolved(t, ps[i], ds) && forall n :: InAnswer(start, n, ps[i], ds) == InAnswer(t, n, ps[i], ds)
    {
      SameViewAnswer(start, s, ps[i], ds);
      PhiKeepsAnswer(s, t, b, ds, f, sites, ps[i]);
    }
  }

  lemma JoinOperands(start: State, t: State, u: State, f: Node, b: Block, ds: DefSite)
    requires Static(start) && Static(t) && t.prog == start.prog && b in t.prog.preds && OperandsSettle(t, u, f, b, ds)
    requires AllResolved(t, t.prog.preds[b], ds)
    requires forall n :: InSomeAnswer(start, n, t.prog.preds[b], |t.prog.preds[b]|, ds) <==>
                           InSomeAnswer(t, n, t.prog.preds[b], |t.prog.preds[b]|, ds)
    ensures f in u.defuse && u.defuse == t.defuse[f := u.defuse[f]] && SameView(t, u.(defuse := t.defuse))
    ensures forall n ::
      n in u.defuse[f] <==> InSomeAnswer(start, n, start.prog.preds[b], |start.prog.preds[b]|, ds)
  {
    hide Static, AllResolved, InSomeAnswer, SameView;
  }

  lemma JoinFields(start: State, s: State, t: State, u: State, b: Block, ds: DefSite, f: Node, sites: seq<DefSite>)
    requires SameView(start, s) && b in s.info && b in s.blocks && PhiAllowed(s, b, ds, f, Phi)
    requires PhiAdded(s, t, b, ds, f, Phi, sites)
    requires f in u.defuse && u.defuse == t.defuse[f := u.defuse[f]] && SameView(t, u.(defuse := t.defuse))
    ensures f !in start.nodes && b in start.blocks && PhiFields(start, u, b, ds, f, u.defuse[f])
  {
    hide KillsAtEnd, DefsAtEnd, NodesAt, SomeSite, Oversteps;
    assert s == start.(info := s.info);
    assert u == u.(defuse := t.defuse).(defuse := u.defuse);
  }

  lemma JoinView(start: State, s: State, t: State, u: State, b: Block, ds: DefSite, f: Node, sites: seq<DefSite>)
    requires Static(s) && Static(t) && Shape(s) && SameView(start, s) && b in s.info && b in s.blocks
    requires s.info[b].processed && PhiAllowed(s, b, ds, f, Phi) && PhiAdded(s, t, b, ds, f, Phi, sites)
    requires UndefinedIn(s.info[b].kills, ds, sites) && (Oversteps(ds, sites) <==> WillOverstep(s.info[b].kills, ds))
    requires SameView(t, u.(defuse := t.defuse))
    ensures PhiView(start, u, b, ds, f)
  {
    hide *;
    PhiAddedKills(s, t, b, ds, f, Phi, sites);
    PhiAddedClaims(s, t, b, ds, f, Phi, sites);
    OverstepsInView(s, b, ds);
    SitesAreUnkilled(s, b, ds, sites);
    BehindSite(ds, sites);
    ViewOfPhi(s, t, b, ds, f, sites);
    ViewFrame(start, s, t, u, b, ds, f);
  }

  lemma OverstepsInView(s: State, b: Block, ds: DefSite)
    requires b in s.info && s.info[b].processed
    ensures OverstepsAt(s, b, ds) <==> WillOverstep(s.info[b].kills, ds)
  {
    var m := s.info[b].kills;
    forall x: Offset ensures KillsAtEnd(s, b, Loc(ds.target, x)) <==> ds.target in m && At(m[ds.target], x) != {} {}
    hide KillsAtEnd, At, DefSite.Bytes;
    if OverstepsAt(s, b, ds) {
      var l: Loc :| ds.Has(l) && KillsAtEnd(s, b, l);
      var k: Loc :| k.target == ds.target && k.byte > ds.Bytes().end && KillsAtEnd(s, b, k);
      assert l == Loc(ds.target, l.byte) && k == Loc(ds.target, k.byte);
      assert ds.Bytes().Has(l.byte) && At(m[ds.target], l.byte) != {} && At(m[ds.target], k.byte) != {};
    }
    if WillOverstep(m, ds) {
      var x: Offset :| ds.Bytes().Has(x) && At(m[ds.target], x) != {};
      var y: Offset :| y > ds.Bytes().end && At(m[ds.target], y) != {};
      assert ds.Has(Loc(ds.target, x)) && KillsAtEnd(s, b, Loc(ds.target, x)) && KillsAtEnd(s, b, Loc(ds.target, y));
    }
  }

  lemma SitesAreUnkilled(s: State, b: Block, ds: DefSite, sites: seq<DefSite>)
    requires b in s.info && s.info[b].processed && UndefinedIn(s.info[b].kills, ds, sites)
    ensures forall l: Loc :: SomeSite(sites, l) ==> !KillsAtEnd(s, b, l)
    ensures forall i :: 0 <= i < |sites| ==> sites[i].target == ds.target && ds.Has(Loc(ds.target, sites[i].offset))
    ensures forall i :: 0 <= i < |sites| ==> sites[i].Proper()
  {
    hide NodesAt;
  }

  lemma BehindSite(ds: DefSite, sites: seq<DefSite>)
    requires forall i :: 0 <= i < |sites| ==> sites[i].target == ds.target && ds.Has(Loc(ds.target, sites[i].offset))
    requires forall i :: 0 <= i < |sites| ==> sites[i].Proper()
    ensures Oversteps(ds, sites) ==>
      ds.Bytes().end < UNKNOWN && SomeSite(sites, Loc(ds.target, ds.Bytes().end + 1))
  {
    if Oversteps(ds, sites) {
      var i :| 0 <= i < |sites| && sites[i].Bytes().end > ds.Bytes().end;
      assert sites[i].Has(Loc(ds.target, ds.Bytes().end + 1));
    }
  }

  lemma ViewOfPhi(s: State, t: State, b: Block, ds: DefSite, f: Node, sites: seq<DefSite>)
    requires forall c, l: Loc :: KillsAtEnd(t, c, l) <==> KillsAtEnd(s, c, l) || (c == b && SomeSite(sites, l))
    requires forall c, l: Loc ::
      DefsAtEnd(t, c, l) == DefsAtEnd(s, c, l) + (if c == b && SomeSite(sites, l) then {f} else {})
    requires forall l: Loc :: SomeSite(sites, l) ==> !KillsAtEnd(s, b, l)
    requires forall l: Loc :: ds.Has(l) ==> KillsAtEnd(t, b, l)
    requires t.claimed <==> s.claimed || OverstepsAt(s, b, ds)
    requires OverstepsAt(s, b, ds) ==> ds.Bytes().end < UNKNOWN && SomeSite(sites, Loc(ds.target, ds.Bytes().end + 1))
    ensures PhiView(s, t, b, ds, f)
  {
    hide KillsAtEnd, DefsAtEnd, SomeSite, OverstepsAt, DefSite.Has, DefSite.Bytes;
  }

  lemma ViewFrame(start: State, s: State, t: State, u: State, b: Block, ds: DefSite, f: Node)
    requires SameView(start, s) && SameView(t, u.(defuse := t.defuse)) && PhiView(s, t, b, ds, f)
    ensures PhiView(start, u, b, ds, f)
  {
    hide *;
    forall c, l: Loc
      ensures KillsAtEnd(u, c, l) <==> KillsAtEnd(t, c, l)
      ensures DefsAtEnd(u, c, l) == DefsAtEnd(t, c, l)
    {
      SameInfo(u, t, c, l);
    }
    SameViewClaims(start, s);
    SameViewClaims(t, u.(defuse := t.defuse));
    ViewBetween(start, s, t, u, b, ds, f);
  }

  lemma SameViewClaims(s: State, t: State)
    requires SameView(s, t)
    ensures t.claimed == s.claimed
    ensures forall b, l: Loc ::
      (KillsAtEnd(t, b, l) <==> KillsAtEnd(s, b, l)) && DefsAtEnd(t, b, l) == DefsAtEnd(s, b, l)
  {
    hide KillsAtEnd, DefsAtEnd;
  }

  lemma ViewBetween(start: State, s: State, t: State, u: State, b: Block, ds: DefSite, f: Node)
    requires forall c, l: Loc ::
      (KillsAtEnd(s, c, l) <==> KillsAtEnd(start, c, l)) && DefsAtEnd(s, c, l) == DefsAtEnd(start, c, l)
    requires forall c, l: Loc ::
      (KillsAtEnd(u, c, l) <==> KillsAtEnd(t, c, l)) && DefsAtEnd(u, c, l) == DefsAtEnd(t, c, l)
    requires start.claimed == s.claimed && u.claimed == t.claimed && PhiView(s, t, b, ds, f)
    ensures PhiView(start, u, b, ds, f)
  {
    hide KillsAtEnd, DefsAtEnd, DefSite.Has, DefSite.Bytes;
    assert OverstepsAt(start, b, ds) <==> OverstepsAt(s, b, ds);
  }

  lemma SameInfo(u: State, t: State, c: Block, l: Loc)
    requires SameView(t, u.(defuse := t.defuse))
    ensures KillsAtEnd(u, c, l) <==> KillsAtEnd(t, c, l)
    ensures DefsAtEnd(u, c, l) == DefsAtEnd(t, c, l)
  {
    hide NodesAt, DefsAfter, Kills;
    var v := u.(defuse := t.defuse);
    assert KillsAtEnd(v, c, l) <==> KillsAtEnd(t, c, l);
    assert DefsAtEnd(v, c, l) == DefsAtEnd(t, c, l);
  }

  // ---- uses

  lemma UseSettlesNone(s: State, u: Node)
    ensures UseSettlesSoFar(s, s, {}, u, 0)
  {
  }

  /** The first access of a plain use: nothing is in front of it. */
  lemma UseSettlesStep(start: State, s: State, t: State, u: Node, j: nat, k: nat, ns: seq<Node>, D: Definitions,
                       G: set<Node>, sites: seq<DefSite>, R: set<Node>, Rs: set<Node>)
    requires UseSettlesSoFar(start, s, R, u, j) && u in start.prog.place && u in start.prog.nodes
    requires j < |start.prog.nodes[u].uses| && Static(start)
    requires var b, ds := start.prog.place[u].0, start.prog.nodes[u].uses[j];
      && b in start.blocks && b in start.prog.preds && k < |start.blocks[b]| && ns == start.blocks[b][..k]
      && (forall i :: 0 <= i < k ==> start.blocks[b][i] != u)
      && UndefinedIn(D.kills, ds, sites) && (|sites| == 1 ==> EntrySettles(s, t, Rs, b, sites[0]))
      && (forall n :: n in G <==> exists l: Loc :: ds.Has(l) && n in DefsAfter(start.nodes, ns, l))
    requires Lvn(start.nodes, ns, D)
    ensures UseSettlesSoFar(start, t, R + (G + Rs), u, j + 1)
  {
    hide Lvn, UndefinedIn, EntrySettles, DefsAfter, Static, DefSite.Has;
    if j == 0 && PlainUse(start, u) {
      assert k == 0 && ns == [];
      var b, ds := start.prog.place[u].0, start.prog.nodes[u].uses[0];
      NothingInFront(start, D, ds, sites);
      forall n ensures n !in G { assert forall l: Loc :: DefsAfter(start.nodes, [], l) == {} by { NoDefs(start); } }
      assert R + (G + Rs) == Rs;
      EntryCongruent(start, t, Rs, b, sites[0], ds);
    }
  }

  lemma NoDefs(s: State)
    ensures forall l: Loc :: DefsAfter(s.nodes, [], l) == {}
  {
  }

  lemma NothingInFront(s: State, D: Definitions, ds: DefSite, sites: seq<DefSite>)
    requires Lvn(s.nodes, [], D) && UndefinedIn(D.kills, ds, sites)
    ensures |sites| == 1 && SameBytes(sites[0], ds)
  {
    hide NodesAt, UndefinedIn;
    OneSite(D.kills, ds, sites);
  }

  lemma EntryCongruent(s: State, t: State, R: set<Node>, b: Block, c: DefSite, d: DefSite)
    requires Static(s) && b in s.prog.preds && SameBytes(c, d) && EntrySettles(s, t, R, b, c)
    ensures EntrySettles(s, t, R, b, d)
  {
    hide Static, Resolved, ResolvedEntry, InAnswer, InAnswerEntry, SameView, OnePhi, DefSite.Bytes;
    Congruent(s, b, c, d);
    if |s.prog.preds[b]| > 1 && AllResolved(s, s.prog.preds[b], d) {
      var ps := s.prog.preds[b];
      forall i | 0 <= i < |ps| ensures ps[i] in s.prog.preds && Resolved(s, ps[i], c) { Congruent(s, ps[i], c, d); }
      OnePhiCongruent(s, t, R, b, c, d);
    }
  }

  lemma OnePhiCongruent(s: State, t: State, R: set<Node>, b: Block, c: DefSite, d: DefSite)
    requires Static(s) && b in s.prog.preds && SameBytes(c, d) && OnePhi(s, t, R, b, c)
    requires AllResolved(s, s.prog.preds[b], d)
    ensures OnePhi(s, t, R, b, d)
  {
    hide Static, Resolved, InAnswer, PhiFields, PhiView, DefSite.Bytes, InSomeAnswer;
    var f, site :| NewPhiAt(s, t, R, b, c, f, site);
    var ps := s.prog.preds[b];
    SomeAnswerCongruent(s, ps, c, d);
    ViewCongruent(s, t, b, c, d, f);
    assert NewPhiAt(s, t, R, b, d, f, site);
  }

  lemma SomeAnswerCongruent(s: State, ps: seq<Block>, c: DefSite, d: DefSite)
    requires Static(s) && SameBytes(c, d)
    ensures forall n :: InSomeAnswer(s, n, ps, |ps|, c) <==> InSomeAnswer(s, n, ps, |ps|, d)
  {
    hide Static, InAnswer, DefSite.Bytes;
    forall i | 0 <= i < |ps| && ps[i] in s.prog.preds
      ensures forall n :: InAnswer(s, n, ps[i], c) == InAnswer(s, n, ps[i], d)
    {
      Congruent(s, ps[i], c, d);
    }
  }

  lemma ViewCongruent(s: State, t: State, b: Block, c: DefSite, d: DefSite, f: Node)
    requires SameBytes(c, d) && PhiView(s, t, b, c, f)
    ensures PhiView(s, t, b, d, f)
  {
    SameBytesHave(c, d);
    hide KillsAtEnd, DefsAtEnd, DefSite.Has, DefSite.Bytes;
    assert KillsAll(t, b, d);
    assert OverstepsAt(s, b, c) <==> OverstepsAt(s, b, d);
  }

  lemma UseSettlesAll(s: State, t: State, R: set<Node>, u: Node)
    requires u in s.prog.nodes && UseSettlesSoFar(s, t, R, u, |s.prog.nodes[u].uses|)
    ensures UseSettles(s, t, R, u)
  {
    hide EntrySettles;
  }

  lemma NoPlaceSettles(s: State, u: Node)
    requires u !in s.prog.place
    ensures UseSettles(s, s, {}, u)
  {
  }

  lemma AnswerRecorded(s: State, m: State, u: Node, R: set<Node>)
    requires UseSettles(s, m, R, u)
    ensures AnswerSettles(s, m.(defuse := m.defuse[u := R]), u)
  {
    hide UseSettles;
    var t := m.(defuse := m.defuse[u := R]);
    assert UseSettles(s, m, t.defuse[u], u);
  }

  // ---- all that is known of a search for a use

  lemma NothingSearched(s: State, over: bool, u: Node)
    requires Inv(s, {}) && u in s.prog.place
    ensures UseSoFar(s, {}, u, 0) && UseReachedSoFar(s, {}, u, 0) && UseSettlesSoFar(s, s, {}, u, 0)
    ensures UseJustifiesSoFar(s, over, {}, u, 0)
  {
    hide *;
    InvShape(s, {});
    UseNone(s, u);
    UseReachedNone(s, u);
    UseSettlesNone(s, u);
    UseJustifiesNone(s, over, u);
  }

  /** u stands in b behind at nodes of its code, and behind the nodes ns of the block. */
  ghost predicate UseAt(s: State, u: Node, b: Block, at: nat, phis: seq<Node>, ns: seq<Node>, k: nat) {
    && u in s.prog.place && s.prog.place[u] == (b, at) && u in s.prog.nodes && b in s.prog.preds && b in s.blocks
    && b in s.prog.code && at <= |s.prog.code[b]| && Prefix(s, b, at, phis, ns)
    && k < |s.blocks[b]| && ns == s.blocks[b][..k] && forall i :: 0 <= i < k ==> s.blocks[b][i] != u
  }

  ghost predicate IsAccess(s: State, u: Node, j: nat, ds: DefSite) {
    u in s.prog.nodes && j < |s.prog.nodes[u].uses| && s.prog.nodes[u].uses[j] == ds
  }

  lemma AccessFacts(s: State, u: Node, j: nat, ds: DefSite)
    requires IsAccess(s, u, j, ds)
    ensures u in s.prog.nodes && j < |s.prog.nodes[u].uses| && s.prog.nodes[u].uses[j] == ds
  {
  }

  lemma UseAtFacts(s: State, u: Node, b: Block, at: nat, phis: seq<Node>, ns: seq<Node>, k: nat)
    requires UseAt(s, u, b, at, phis, ns, k)
    ensures u in s.prog.place && s.prog.place[u] == (b, at) && u in s.prog.nodes && b in s.prog.preds && b in s.blocks
    ensures b in s.prog.code && at <= |s.prog.code[b]| && Prefix(s, b, at, phis, ns)
    ensures k < |s.blocks[b]| && ns == s.blocks[b][..k] && forall i :: 0 <= i < k ==> s.blocks[b][i] != u
  {
    hide Prefix;
  }

  lemma UsePrepared(s: State, u: Node, b: Block, at: nat) returns (phis: seq<Node>)
    requires Inv(s, {}) && u in s.prog.place && s.prog.place[u] == (b, at)
    ensures b in s.prog.preds && b in s.rank && b in s.info && b in s.blocks && Runnable(s.nodes, s.blocks[b])
    ensures u in s.blocks[b] && Shape(s) && PhisInFrontOf(s, u, b, at, phis)
  {
    hide *;
    InvShape(s, {});
    phis := UsePosition(s, u, b, at);
    InvRanks(s, b, {});
    BlockNodes(s, b);
    assert s.blocks[b][|phis| + at] == u;
    PhisIntro(s, u, b, at, phis);
  }

  ghost predicate PhisInFrontOf(s: State, u: Node, b: Block, at: nat, phis: seq<Node>) {
    && b in s.prog.code && b in s.prog.preds && b in s.blocks && at < |s.prog.code[b]| && u in s.prog.nodes
    && |phis| + at < |s.blocks[b]| && s.blocks[b][|phis| + at] == u
    && (forall j :: 0 <= j < |phis| + at ==> s.blocks[b][j] != u)
    && Prefix(s, b, at, phis, s.blocks[b][..|phis| + at])
  }

  lemma PhisIntro(s: State, u: Node, b: Block, at: nat, phis: seq<Node>)
    requires b in s.prog.code && b in s.prog.preds && b in s.blocks && at < |s.prog.code[b]| && u in s.prog.nodes
    requires |phis| + at < |s.blocks[b]| && s.blocks[b][|phis| + at] == u
    requires forall j :: 0 <= j < |phis| + at ==> s.blocks[b][j] != u
    requires Prefix(s, b, at, phis, s.blocks[b][..|phis| + at])
    ensures PhisInFrontOf(s, u, b, at, phis)
  {
    hide Prefix;
  }

  lemma UsePlaced(s: State, u: Node, b: Block, at: nat, phis: seq<Node>, k: nat)
    requires u in s.prog.place && s.prog.place[u] == (b, at) && PhisInFrontOf(s, u, b, at, phis)
    requires b in s.blocks && k < |s.blocks[b]| && s.blocks[b][k] == u
    requires forall j :: 0 <= j < k ==> s.blocks[b][j] != u
    ensures UseAt(s, u, b, at, phis, s.blocks[b][..k], k)
  {
    hide Prefix;
    SamePlace(s.blocks[b], u, k, |phis| + at);
  }

  lemma UseFrontSites(s: State, u: Node, b: Block, at: nat, phis: seq<Node>, ns: seq<Node>, k: nat, ds: DefSite,
                      D: Definitions, G: set<Node>, sites: seq<DefSite>)
    requires Inv(s, {}) && UseAt(s, u, b, at, phis, ns, k) && ds.Proper() && s.prog.Cell(ds)
    requires UndefinedIn(D.kills, ds, sites) && Lvn(s.nodes, ns, D)
    requires forall n :: n in G <==> exists l: Loc :: ds.Has(l) && n in DefsAfter(s.nodes, ns, l)
    ensures forall i :: 0 <= i < |sites| ==> sites[i].Proper() && sites[i].target == ds.target
    ensures SearchedInFront(s, b, at, phis, ns, ds, D, G, sites)
    ensures s.prog.EqualOrDisjoint() ==> forall i :: 0 <= i < |sites| ==> s.prog.Cell(sites[i])
  {
    hide *;
    UseAtFacts(s, u, b, at, phis, ns, k);
    FrontSites(s, b, at, phis, ns, ds, D, G, sites);
  }

  /** The report for an access of a use may pass its end. */
  lemma UsePasses(start: State, s: State, over: bool, u: Node, b: Block, at: nat, phis: seq<Node>, ns: seq<Node>,
                  k: nat, ds: DefSite, D: Definitions, G: set<Node>, sites: seq<DefSite>)
    requires Precise(s, over, {}) && Extends(start, s) && Shape(start) && UseAt(start, u, b, at, phis, ns, k)
    requires SearchedInFront(start, b, at, phis, ns, ds, D, G, sites)
    requires Oversteps(ds, sites) <==> WillOverstep(D.kills, ds)
    ensures Precise(s, over || Oversteps(ds, sites), {})
  {
    hide *;
    UseAtFacts(start, u, b, at, phis, ns, k);
    FrontPasses(start, s, over, b, at, phis, ns, ds, D, G, sites);
  }

  lemma AccessIsJustified(start: State, s: State, over: bool, t: State, over': bool, u: Node, b: Block, at: nat,
                          phis: seq<Node>, ns: seq<Node>, j: nat, k: nat, ds: DefSite, D: Definitions, G: set<Node>,
                          sites: seq<DefSite>, R: set<Node>, Rs: set<Node>)
    requires Shape(start) && Static(s) && Extends(start, s) && Extends(s, t) && Inv(t, {})
    requires t.prog == start.prog == s.prog && UseAt(start, u, b, at, phis, ns, k) && IsAccess(start, u, j, ds)
    requires SearchedInFront(start, b, at, phis, ns, ds, D, G, sites) && (over || Oversteps(ds, sites) ==> over')
    requires UseJustifiesSoFar(s, over, R, u, j) && SitesJustifying(t, over', Rs, b, sites)
    ensures UseJustifiesSoFar(t, over', R + (G + Rs), u, j + 1)
  {
    hide *;
    UseAtFacts(start, u, b, at, phis, ns, k);
    AccessFacts(start, u, j, ds);
    InvStatic(t, {});
    ExtendsTransitive(start, s, t);
    UseJustifiesStep(start, s, over, t, over', u, b, at, phis, ns, j, D, G, sites, R, Rs);
  }

  lemma AccessSearched(start: State, s: State, over: bool, t: State, over': bool, u: Node, b: Block, at: nat,
                       phis: seq<Node>, ns: seq<Node>, j: nat, k: nat, ds: DefSite, D: Definitions, G: set<Node>,
                       sites: seq<DefSite>, R: set<Node>, Rs: set<Node>)
    requires Shape(start) && Static(start) && Static(s) && Extends(start, s) && Extends(s, t) && Inv(t, {})
    requires t.prog == start.prog == s.prog && UseAt(start, u, b, at, phis, ns, k)
    requires IsAccess(start, u, j, ds)
    requires UseSoFar(s, R, u, j) && UseReachedSoFar(s, R, u, j) && UseSettlesSoFar(start, s, R, u, j)
    requires SearchedInFront(start, b, at, phis, ns, ds, D, G, sites)
    requires (sites == [] ==> Rs == {}) && SitesCovering(t, Rs, b, sites) && SitesRight(t, Rs, b, sites)
    requires |sites| == 1 ==> EntrySettles(s, t, Rs, b, sites[0])
    requires UseJustifiesSoFar(s, over, R, u, j) && SitesJustifying(t, over', Rs, b, sites)
    requires over || Oversteps(ds, sites) ==> over'
    ensures UseJustifiesSoFar(t, over', R + (G + Rs), u, j + 1)
    ensures Extends(start, t) && Static(t) && s.nodes.Keys <= t.nodes.Keys && t.info.Keys == s.info.Keys
    ensures var R' := R + (G + Rs);
      UseSoFar(t, R', u, j + 1) && UseReachedSoFar(t, R', u, j + 1) && UseSettlesSoFar(start, t, R', u, j + 1)
  {
    hide *;
    UseAtFacts(start, u, b, at, phis, ns, k);
    InvStatic(t, {});
    ExtendsTransitive(start, s, t);
    ExtendsKeys(s, t);
    AccessFacts(start, u, j, ds);
    FrontFacts(start, b, at, phis, ns, ds, D, G, sites);
    RightSites(t, Rs, b, sites);
    UseStep(start, s, t, u, b, at, phis, ns, j, D, G, sites, R, Rs);
    UseReachedStep(start, s, t, u, b, at, phis, ns, j, D, G, sites, R, Rs);
    UseSettlesStep(start, s, t, u, j, k, ns, D, G, sites, R, Rs);
    AccessIsJustified(start, s, over, t, over', u, b, at, phis, ns, j, k, ds, D, G, sites, R, Rs);
  }

  lemma UseSearched(start: State, s: State, over: bool, u: Node, R: set<Node>)
    requires u in s.prog.nodes && s.prog == start.prog
    requires var j := |s.prog.nodes[u].uses|;
      UseSoFar(s, R, u, j) && UseReachedSoFar(s, R, u, j) && UseSettlesSoFar(start, s, R, u, j)
        && UseJustifiesSoFar(s, over, R, u, j)
    ensures UseJustifying(s, over, R, u)
    ensures UseFound(s, R, u) && UseReached(s, R, u) && UseSettles(start, s, R, u)
  {
    hide *;
    UseAll(s, R, u);
    UseReachedAll(s, R, u);
    UseSettlesAll(start, s, R, u);
    UseJustifiesAll(s, over, R, u);
  }

  lemma UseRecorded(start: State, s: State, over: bool, u: Node, R: set<Node>)
    requires Inv(s, {}) && Coverage(s, {}) && Extends(start, s) && u in s.prog.nodes && u !in s.defuse
    requires R <= s.nodes.Keys && UseFound(s, R, u) && UseReached(s, R, u) && UseSettles(start, s, R, u)
    requires Precise(s, over, {}) && UseJustifying(s, over, R, u)
    ensures var t := s.(defuse := s.defuse[u := R]);
      Inv(t, {}) && Coverage(t, {}) && Precise(t, over, {}) && Extends(start, t) && AnswerSettles(start, t, u)
  {
    hide *;
    var t := s.(defuse := s.defuse[u := R]);
    AddUse(s, u, R);
    InvShape(t, {});
    CoverageAddsUse(s, t, u, R);
    PreciseAddsUse(s, over, t, u, R);
    AnswerRecorded(start, s, u, R);
    ExtendsTransitive(start, s, t);
  }

  /** What is gathered for u, compared with the definitions that reach it. */
  lemma GatheredAnswer(s: State, over: bool, u: Node, ret: set<Node>)
    requires Inv(s, {}) && Coverage(s, {}) && Precise(s, over, {}) && u in s.defuse && u in s.prog.nodes
    requires u !in s.prog.place ==> s.defuse[u] == {}
    requires forall n :: n in ret <==> Gathers(s, s.defuse[u], n)
    ensures s.prog.EqualOrDisjoint() ==> !s.claimed && forall n :: n in ret <==> ReachingDef(s.prog, u, n)
    ensures !s.claimed ==> forall n :: ReachingDef(s.prog, u, n) ==> n in ret
    ensures !over && (u in s.prog.place ==> s.prog.JoinFree(s.prog.place[u].0)) ==>
      forall n :: n in ret <==> ReachingDef(s.prog, u, n)
    ensures s.prog.EqualOrDisjoint() ==> !over
    ensures s.prog.Tree() && s.prog.Gapless() && s.inputs == {} ==> forall n :: n in ret <==> ReachingDef(s.prog, u, n)
  {
    hide *;
    CoverageClaims(s, {});
    PreciseShape(s, over, {});
    if s.prog.Tree() && s.prog.Gapless() && s.inputs == {} {
      NeverPasses(s);
      if u in s.prog.place { TreeIsJoinFree(s.prog, s.prog.place[u].0); }
    }
    if !over && (u in s.prog.place ==> s.prog.JoinFree(s.prog.place[u].0)) {
      forall n ensures n in ret <==> ReachingDef(s.prog, u, n) { AnswerBehindNoJoin(s, u, n); }
    }
    if s.prog.EqualOrDisjoint() {
      forall n ensures n in ret <==> ReachingDef(s.prog, u, n) { ExactAnswer(s, u, n); }
    }
    if !s.claimed {
      forall n | ReachingDef(s.prog, u, n) ensures n in ret { NothingIsMissed(s, u, n); }
    }
  }

  lemma AnswerBehindNoJoin(s: State, u: Node, n: Node)
    requires Precise(s, false, {}) && Coverage(s, {}) && u in s.defuse && u in s.prog.nodes
    requires u in s.prog.place ==> s.prog.JoinFree(s.prog.place[u].0)
    requires u !in s.prog.place ==> s.defuse[u] == {}
    ensures Gathers(s, s.defuse[u], n) <==> ReachingDef(s.prog, u, n)
  {
    if u in s.prog.place {
      hide *;
      ExactBehindNoJoin(s, u, n);
    }
  }
}
