/** A program with overlapping accesses for which a definition is missed. */
module MemorySSAExamples {
  import opened Offsets
  import opened DisjunctiveIntervals
  import opened MemoryDefinitions
  import opened ReachingDefinitions
  import opened MemorySSAState
  import opened MemorySSALemmas
  import opened MemorySSACorrectness
  import opened MemorySSACoverage
  import opened MemorySSAPrecision
  import opened MemorySSASettled
  import opened MemorySSA

  const LOW: DefSite := DefSite(9, 0, 8)
  const BEHIND: DefSite := DefSite(9, 8, 1)

  /** 10 writes byte 8; 11 reads bytes 0 to 7, and 12 writes bytes 0, 1 and 12 to 15; 13
      reads byte 8. */
  const ACCESSES: map<Node, RWNode> := map[
    10 := RWNode([], [BEHIND], [], Regular), 11 := RWNode([], [], [LOW], Regular),
    12 := RWNode([], [DefSite(9, 0, 2), DefSite(9, 12, 4)], [], Regular), 13 := RWNode([], [], [BEHIND], Regular)]

  /** Block 0 leads to 1, at once or over 2, and 1 leads to 3. */
  const OVERLAPPING: Program := Program(0, map[0 := [], 1 := [0, 2], 2 := [0], 3 := [1]],
                                        map[0 := [10], 1 := [11, 12], 2 := [], 3 := [13]], ACCESSES,
                                        map[10 := (0, 0), 11 := (1, 0), 12 := (1, 1), 13 := (3, 0)])

  lemma WritesInBlock(l: Loc)
    ensures ACCESSES[11].Strong(l) == ACCESSES[11].Weak(l) == ACCESSES[12].Weak(l) == false
    ensures ACCESSES[12].Strong(l) <==> l.target == 9 && (l.byte <= 1 || 12 <= l.byte <= 15)
  {
    assert ACCESSES[12].overwrites[0] == DefSite(9, 0, 2) && ACCESSES[12].overwrites[1] == DefSite(9, 12, 4);
  }

  lemma BlockEffect(l: Loc)
    ensures Kills(ACCESSES, [11, 12], l) <==> ACCESSES[12].Strong(l)
    ensures DefsAfter(ACCESSES, [11, 12], l) == if ACCESSES[12].Strong(l) then {12} else {}
  {
    WritesInBlock(l);
    hide RWNode.Strong, RWNode.Weak;
    assert [11, 12][..1] == [11] && [11][..0] == [];
    assert DefsAfter(ACCESSES, [11], l) == {};
    assert [11, 12][1] == 12;
  }

  /** The write of 10 reaches 13 at byte 8, and no byte that 11 reads. */
  lemma WriteReaches()
    ensures ReachingDef(OVERLAPPING, 13, 10)
    ensures forall p, l: Loc :: OVERLAPPING.ReachesEnd(10, p, l) ==> !LOW.Has(l)
  {
    var prog, l := OVERLAPPING, Loc(9, 8);
    ReachesBlock(prog, l);
    assert ACCESSES[13].uses[0].Has(l);
    assert Uses(prog.nodes[13], l);
    hide Program.ReachesEnd, Uses;
    assert prog.code[3][..0] == [] && !Kills(prog.nodes, [], l);
    hide Kills;
    assert prog.ReachesEnd(10, [0, 1], l) && [0, 1][1] in prog.preds[3];
    assert prog.Reaches(10, 3, 0, l);
    hide Program.Reaches;
    OnlyThatByte();
  }

  lemma ReachesBlock(prog: Program, l: Loc)
    requires prog == OVERLAPPING && l == Loc(9, 8)
    ensures prog.ReachesEnd(10, [0, 1], l)
  {
    BlockEffect(l);
    WritesInBlock(l);
    hide RWNode.Weak;
    assert ACCESSES[10].overwrites[0].Has(l);
    assert prog.code[0][1..] == [] && !Kills(ACCESSES, [], l);
    assert LastWrite(ACCESSES, prog.code[0], 0, l);
    hide Kills, RWNode.Strong, LastWrite;
    var p := [0, 1];
    assert prog.Path(p) && LastWrite(prog.nodes, prog.code[p[0]], 0, l) && prog.code[p[0]][0] == 10;
    assert !Kills(prog.nodes, prog.code[p[1]], l);
  }

  lemma OnlyThatByte()
    ensures forall p, l: Loc :: OVERLAPPING.ReachesEnd(10, p, l) ==> !LOW.Has(l)
  {
    forall p, l: Loc | OVERLAPPING.ReachesEnd(10, p, l) ensures l == Loc(9, 8) {
      var i: nat :| LastWrite(OVERLAPPING.nodes, OVERLAPPING.code[p[0]], i, l) && OVERLAPPING.code[p[0]][i] == 10;
      WrittenByte(l);
    }
    LowBytes();
  }

  lemma WrittenByte(l: Loc)
    requires ACCESSES[10].Weak(l) || ACCESSES[10].Strong(l)
    ensures l == Loc(9, 8)
  {
    OnlyByte();
    assert ACCESSES[10].overwrites == [BEHIND] && ACCESSES[10].defines == [];
  }

  lemma AccessesOverlap(prog: Program)
    requires prog == OVERLAPPING
    ensures !prog.EqualOrDisjoint()
  {
    var c, d, l := LOW, DefSite(9, 0, 2), Loc(9, 0);
    assert prog.nodes[11].uses[0] == c && prog.nodes[12].overwrites[0] == d;
    assert prog.Accessed(c) && prog.Accessed(d) && c.Has(l) && d.Has(l) && c.Bytes() != d.Bytes();
  }

  /** What the search for 11 caches for block 1: the phi node of bytes 0 to 7 claims byte 8
      as well, so that the search for 13 finds it there and looks no further. */
  method PhiOversteps(phi: Node) returns (found: set<Node>, rest: seq<DefSite>)
    requires phi !in OVERLAPPING.nodes
    ensures found == {phi} && rest == []
  {
    hide DefSite.Bytes, RunsPast, Kills, DefsAfter, At, UndefinedIn, SomeSite, WellFormed, Oversteps, WillOverstep;
    BlockRuns();
    var D0 := RunLvn(ACCESSES, [11, 12]);
    D0 := D0.(processed := true);
    BlockDefinitions(D0);
    ghost var sites;
    var D;
    D, sites := CoverUncovered(D0, LOW, phi);
    StepsOver(D0.kills, sites);
    found := Get(D.definitions, BEHIND);
    rest := UndefinedIntervals(D.kills, BEHIND);
    OnlyByte();
    NothingLeft(D.kills, rest);
  }

  lemma BlockRuns()
    ensures Runnable(ACCESSES, [11, 12]) && LOW.Proper() && BEHIND.Proper()
  {
  }

  lemma BlockDefinitions(D: Definitions)
    requires Lvn(ACCESSES, [11, 12], D)
    ensures NodesAt(D.definitions, Loc(9, 8)) == {} && NodesAt(D.kills, Loc(9, 8)) == {}
    ensures NodesAt(D.kills, Loc(9, 7)) == {}
    ensures NodesAt(D.kills, Loc(9, 0)) != {} && NodesAt(D.kills, Loc(9, 12)) != {}
  {
    forall b: Offset | b == 0 || b == 7 || b == 8 || b == 12
      ensures NodesAt(D.kills, Loc(9, b)) != {} <==> b == 0 || b == 12
      ensures b == 8 ==> NodesAt(D.definitions, Loc(9, b)) == {}
    {
      BlockEffect(Loc(9, b));
      WritesInBlock(Loc(9, b));
    }
  }

  lemma StepsOver(m: DefinitionsMap, sites: seq<DefSite>)
    requires UndefinedIn(m, LOW, sites) && (Oversteps(LOW, sites) <==> WillOverstep(m, LOW))
    requires NodesAt(m, Loc(9, 8)) == {} && NodesAt(m, Loc(9, 7)) == {} && NodesAt(m, Loc(9, 0)) != {}
    requires NodesAt(m, Loc(9, 12)) != {}
    ensures SomeSite(sites, Loc(9, 8))
  {
    hide At;
    var e := m[9];
    assert LOW.Bytes() == Interval(0, 7);
    assert At(e, 7) == {} && At(e, 8) == {} && At(e, 0) != {} && At(e, 12) != {};
    assert RunsPast(e, LOW.Bytes());
    assert LOW.Bytes().Has(0);
    assert WillOverstep(m, LOW);
    var i :| 0 <= i < |sites| && sites[i].Bytes().end > 7;
    assert sites[i].Has(Loc(9, 8));
  }

  lemma OnlyByte()
    ensures forall l: Loc :: BEHIND.Has(l) <==> l == Loc(9, 8)
  {
  }

  lemma NothingLeft(m: DefinitionsMap, rest: seq<DefSite>)
    requires UndefinedIn(m, BEHIND, rest) && NodesAt(m, Loc(9, 8)) != {}
    ensures rest == []
  {
    hide NodesAt, UndefinedIn;
    OnlyByte();
    if rest != [] { StartUndefined(m, BEHIND, rest); }
  }

  lemma StartUndefined(m: DefinitionsMap, ds: DefSite, sites: seq<DefSite>)
    requires UndefinedIn(m, ds, sites) && sites != []
    ensures exists l: Loc :: ds.Has(l) && NodesAt(m, l) == {}
  {
    hide NodesAt;
    var l := Loc(ds.target, sites[0].offset);
    assert ds.Has(l) && sites[0].Proper();
    assert sites[0].Has(if sites[0].offset == UNKNOWN then Loc(ds.target, UNKNOWN) else l);
  }

  // ---- two queries, one after the other

  lemma ProgramIsValid(prog: Program)
    requires prog == OVERLAPPING
    ensures prog.Valid() && prog.Connected() && forall n :: n in prog.nodes ==> n < 14
  {
    hide *;
    AllDeclared(prog);
    BlocksReachable(prog);
  }

  lemma AllDeclared(prog: Program)
    requires prog == OVERLAPPING
    ensures prog.Valid() && forall n :: n in prog.nodes ==> n < 14
  {
    NodesDeclared();
    BlocksDeclared(prog);
    PlacesDeclared(prog);
    hide RWNode.Proper;
  }

  lemma BlocksDeclared(prog: Program)
    requires prog == OVERLAPPING
    ensures prog.code.Keys == {0, 1, 2, 3} == prog.preds.Keys && prog.entry == 0 && prog.preds[0] == []
    ensures forall b, i :: b in prog.preds && 0 <= i < |prog.preds[b]| ==> prog.preds[b][i] in prog.preds
    ensures forall b, i :: b in prog.code && 0 <= i < |prog.code[b]| ==> prog.code[b][i] in prog.nodes
    ensures prog.nodes == ACCESSES && forall n :: n in ACCESSES ==> n < 14
  {
  }

  lemma PlacesDeclared(prog: Program)
    requires prog == OVERLAPPING
    ensures forall b, i :: b in prog.code && 0 <= i < |prog.code[b]| ==>
      prog.code[b][i] in prog.place && prog.place[prog.code[b][i]] == (b, i)
    ensures forall n :: n in prog.place ==>
      prog.place[n].0 in prog.code && prog.place[n].1 < |prog.code[prog.place[n].0]|
        && prog.code[prog.place[n].0][prog.place[n].1] == n
  {
  }

  lemma NodesDeclared()
    ensures forall n :: n in ACCESSES ==> ACCESSES[n].Proper() && ACCESSES[n].kind == Regular
  {
  }

  lemma BlocksReachable(prog: Program)
    requires prog == OVERLAPPING
    ensures prog.Connected()
  {
    assert prog.Path([0]) && prog.Path([0, 1]) && prog.Path([0, 2]) && prog.Path([0, 1, 3]);
    assert prog.ReachableIn(0, 0) && prog.ReachableIn(1, 1) && prog.ReachableIn(2, 1) && prog.ReachableIn(3, 2);
  }

  /** What the code of the blocks does to the bytes that are read. */
  lemma CodeEffect(l: Loc)
    ensures Kills(ACCESSES, [10], l) <==> l == Loc(9, 8)
    ensures l != Loc(9, 8) ==> DefsAfter(ACCESSES, [10], l) == {}
    ensures !Kills(ACCESSES, [], l) && DefsAfter(ACCESSES, [], l) == {}
  {
    OnlyByte();
    assert ACCESSES[10].overwrites[0] == BEHIND && (ACCESSES[10].Strong(l) <==> BEHIND.Has(l));
    assert !ACCESSES[10].Weak(l);
    assert [10][0] == 10 && [10][..0] == [];
  }

  lemma InitialView(s: State, b: Block, l: Loc)
    requires Initial(s) && s.prog == OVERLAPPING && b in s.prog.preds
    ensures b in s.prog.code && (KillsAtEnd(s, b, l) <==> Kills(ACCESSES, s.prog.code[b], l))
    ensures DefsAtEnd(s, b, l) == DefsAfter(ACCESSES, s.prog.code[b], l)
  {
    hide Static, Kills, DefsAfter;
  }

  lemma LowBytes()
    ensures LOW.Bytes() == Interval(0, 7) && LOW.target == 9
    ensures forall l: Loc :: LOW.Has(l) <==> l.target == 9 && l.byte <= 7
  {
  }

  /** A search for LOW from the blocks 0 and 2 finds nothing. */
  lemma NothingThere(s: State, b: Block)
    requires Initial(s) && Static(s) && s.prog == OVERLAPPING && s.inputs == {} && (b == 0 || b == 2)
    ensures b in s.prog.preds && Resolved(s, b, LOW) && forall n :: !InAnswer(s, n, b, LOW)
  {
    hide Initial, Static, Kills, DefsAfter, KillsAtEnd, DefsAtEnd;
    LowBytes();
    forall l: Loc | LOW.Has(l) ensures !KillsAtEnd(s, b, l) && DefsAtEnd(s, b, l) == {} {
      InitialView(s, b, l);
      CodeEffect(l);
    }
    assert KillsNone(s, b, LOW) && LOW.Has(Loc(9, 0));
    forall n ensures !DefinedAtEnd(s, n, b, LOW) {}
    hide DefinedAtEnd, KillsAll, KillsNone;
    if b == 2 {
      NothingThere(s, 0);
      assert s.prog.preds[b] == [0];
    } else {
      assert s.prog.preds[b] == [];
    }
    assert forall n :: !InAnswerEntry(s, n, b, LOW);
  }

  /** In block 1, byte 8 is free, but bytes before and behind it are written. */
  lemma StepsOverByte(s: State)
    requires Initial(s) && s.prog == OVERLAPPING
    ensures OverstepsAt(s, 1, LOW) && !KillsAtEnd(s, 1, Loc(9, 8)) && DefsAtEnd(s, 1, Loc(9, 8)) == {}
  {
    hide Initial, Kills, DefsAfter, KillsAtEnd, DefsAtEnd, RWNode.Strong, RWNode.Weak;
    LowBytes();
    forall x: Offset | x == 0 || x == 7 || x == 8 || x == 12
      ensures KillsAtEnd(s, 1, Loc(9, x)) <==> x == 0 || x == 12
      ensures x == 8 ==> DefsAtEnd(s, 1, Loc(9, x)) == {}
    {
      InitialView(s, 1, Loc(9, x));
      BlockEffect(Loc(9, x));
      WritesInBlock(Loc(9, x));
    }
    assert LOW.Has(Loc(9, 0)) && Loc(9, 12).target == LOW.target;
  }

  /** The state after the search for 11: the phi node f has no operand and claims byte 8. */
  ghost predicate Claimed(s: State, f: Node) {
    && s.prog == OVERLAPPING && s.inputs == {} && IsPhiNode(s, f) && f in s.defuse && s.defuse[f] == {}
    && KillsAtEnd(s, 1, Loc(9, 8)) && DefsAtEnd(s, 1, Loc(9, 8)) == {f}
    && 3 in s.blocks && s.blocks[3] == [13] && 13 !in s.defuse && s.claimed
  }

  lemma FirstSearch(s: State, t: State) returns (f: Node)
    requires Initial(s) && s.prog == OVERLAPPING && s.inputs == {} && AnswerSettles(s, t, 11)
    ensures Claimed(t, f)
  {
    hide UseSettles, Claimed, Initial;
    var m :| 11 in t.defuse && UseSettles(s, m, t.defuse[11], 11) && t == m.(defuse := m.defuse[11 := t.defuse[11]]);
    f := PhiForLow(s, m, t.defuse[11]);
    ClaimedRecorded(m, t, f, t.defuse[11]);
  }

  lemma ClaimedRecorded(m: State, t: State, f: Node, R: set<Node>)
    requires Claimed(m, f) && f != 11 && t == m.(defuse := m.defuse[11 := R])
    ensures Claimed(t, f)
  {
    CloseKills(m, t, 11, R);
    hide KillsAtEnd, DefsAtEnd;
  }

  lemma PhiForLow(s: State, m: State, R: set<Node>) returns (f: Node)
    requires Initial(s) && s.prog == OVERLAPPING && s.inputs == {} && UseSettles(s, m, R, 11)
    ensures Claimed(m, f) && f != 11
  {
    hide Kills, DefsAfter, KillsAtEnd, DefsAtEnd, Static, PhiView, InSomeAnswer, Resolved, InAnswer;
    var ps := s.prog.preds[1];
    assert Static(s) && PlainUse(s, 11) && s.prog.place[11] == (1, 0) && s.prog.nodes[11].uses[0] == LOW;
    assert ps == [0, 2];
    NothingThere(s, 0);
    NothingThere(s, 2);
    assert AllResolved(s, ps, LOW) && OnePhi(s, m, R, 1, LOW);
    var g, site :| NewPhiAt(s, m, R, 1, LOW, g, site);
    f := g;
    forall n ensures n !in m.defuse[f] { NoAnswer(s, n); }
    PhiClaims(s, m, f);
  }

  lemma NoAnswer(s: State, n: Node)
    requires Initial(s) && Static(s) && s.prog == OVERLAPPING && s.inputs == {}
    ensures !InSomeAnswer(s, n, [0, 2], 2, LOW)
  {
    hide Initial, Static, InAnswer;
    NothingThere(s, 0);
    NothingThere(s, 2);
  }

  lemma PhiClaims(s: State, m: State, f: Node)
    requires Initial(s) && s.prog == OVERLAPPING && PhiView(s, m, 1, LOW, f)
    ensures KillsAtEnd(m, 1, Loc(9, 8)) && DefsAtEnd(m, 1, Loc(9, 8)) == {f} && m.claimed
  {
    hide Initial, KillsAtEnd, DefsAtEnd, OverstepsAt;
    LowBytes();
    StepsOverByte(s);
  }

  /** The search for 13 finds the phi node f alone. */
  lemma SecondSearch(s: State, t: State, f: Node)
    requires Static(s) && Claimed(s, f) && AnswerSettles(s, t, 13)
    ensures 13 in t.defuse && t.defuse[13] == {f} && IsPhiNode(t, f) && f in t.defuse && t.defuse[f] == {}
  {
    hide UseSettles, Static, Claimed;
    var m :| 13 in t.defuse && UseSettles(s, m, t.defuse[13], 13) && t == m.(defuse := m.defuse[13 := t.defuse[13]]);
    OnlyPhi(s, m, t.defuse[13], f);
    ClaimedPhi(s, f);
  }

  lemma ClaimedPhi(s: State, f: Node)
    requires Claimed(s, f)
    ensures IsPhiNode(s, f) && f in s.defuse && s.defuse[f] == {} && f != 13
  {
    hide KillsAtEnd, DefsAtEnd;
  }

  lemma OnlyPhi(s: State, m: State, R: set<Node>, f: Node)
    requires Static(s) && Claimed(s, f) && UseSettles(s, m, R, 13)
    ensures R == {f} && m.nodes == s.nodes && m.defuse == s.defuse
  {
    hide Static, KillsAtEnd, DefsAtEnd, OnePhi;
    OnlyByte();
    assert PlainUse(s, 13) && s.prog.place[13] == (3, 0) && s.prog.nodes[13].uses[0] == BEHIND;
    assert s.prog.preds[3] == [1] && 1 in s.prog.preds;
    assert KillsAll(s, 1, BEHIND) && Resolved(s, 1, BEHIND) && ResolvedEntry(s, 3, BEHIND);
    assert EntrySettles(s, m, R, 3, BEHIND);
    forall n ensures InAnswerEntry(s, n, 3, BEHIND) <==> n == f {
      if n == f { assert BEHIND.Has(Loc(9, 8)) && n in DefsAtEnd(s, 1, Loc(9, 8)); }
    }
  }

  lemma NothingGathered(s: State, f: Node)
    requires IsPhiNode(s, f) && f in s.defuse && s.defuse[f] == {}
    ensures forall n :: !Gathers(s, {f}, n)
  {
    forall n ensures !Gathers(s, {f}, n) {
      if c :| Chain(s, c, n) && c[0] in {f} { ChainGoesOn(s, c, n); }
    }
  }

  /** The write of 10 is what 13 reads, but when the definitions of 11 were asked for
      before, those of 13 are none. */
  method DefinitionIsMissed() returns (first: set<Node>, second: set<Node>)
    ensures second == {} && ReachingDef(OVERLAPPING, 13, 10) && !OVERLAPPING.EqualOrDisjoint()
  {
    hide Initial, Static, Inv, Coverage, AnswerSettles, Gathers, ReachingDef, Program.Valid, Program.Connected, Claimed;
    hide Extends, IsPhiNode, Program.EqualOrDisjoint;
    ProgramIsValid(OVERLAPPING);
    WriteReaches();
    AccessesOverlap(OVERLAPPING);
    var ssa := new MemorySSATransformation(OVERLAPPING, {}, 14);
    ghost var s := ssa.S();
    NotSearched(s, 11);
    first := ssa.GetDefinitions(11);
    ghost var t := ssa.S();
    ghost var f := FirstSearch(s, t);
    InvStatic(t, {});
    ClaimedUse(t, f);
    second := ssa.GetDefinitions(13);
    SecondSearch(t, ssa.S(), f);
    NothingGathered(ssa.S(), f);
  }

  lemma NotSearched(s: State, u: Node)
    requires Initial(s)
    ensures u !in s.defuse
  {
    hide Static;
  }

  lemma ClaimedUse(s: State, f: Node)
    requires Claimed(s, f)
    ensures 13 !in s.defuse && s.prog == OVERLAPPING
  {
    hide KillsAtEnd, DefsAtEnd;
  }

  // ---- gaps between the bytes that a block overwrites

  /** 1, 2 and 3 write bytes 0 and 1, 2 and 3, and 4 to 7; 4 writes bytes 2 and 3 again, and
      5 reads bytes 0 to 7. */
  const WRITES: map<Node, RWNode> := map[
    1 := RWNode([], [DefSite(9, 0, 2)], [], Regular), 2 := RWNode([], [DefSite(9, 2, 2)], [], Regular),
    3 := RWNode([], [DefSite(9, 4, 4)], [], Regular), 4 := RWNode([], [DefSite(9, 2, 2)], [], Regular),
    5 := RWNode([], [], [LOW], Regular)]

  const GAPS: Program := Program(0, map[0 := [], 1 := [0], 2 := [1]], map[0 := [1, 2, 3], 1 := [4], 2 := [5]], WRITES,
                                 map[1 := (0, 0), 2 := (0, 1), 3 := (0, 2), 4 := (1, 0), 5 := (2, 0)])

  /** The bytes that a node overwrites. */
  function Written(n: Node): (int, int) {
    if n == 1 then (0, 2) else if n == 2 || n == 4 then (2, 4) else if n == 3 then (4, 8) else (0, 0)
  }

  lemma WritesBytes(n: Node, l: Loc)
    requires n in WRITES
    ensures !WRITES[n].Weak(l)
    ensures WRITES[n].Strong(l) <==> l.target == 9 && Written(n).0 <= l.byte < Written(n).1
  {
    if n != 5 {
      var d := WRITES[n].overwrites[0];
      assert WRITES[n].Strong(l) <==> d.Has(l);
    }
  }

  /** The first nodes of each block overwrite bytes that lie together. */
  lemma PrefixKills(b: Block, at: nat, l: Loc) returns (lo: int, hi: int)
    requires b in GAPS.code && at <= |GAPS.code[b]|
    ensures lo == (if b == 1 then 2 else 0)
    ensures hi == (if b == 0 then Written(at).1 else if b == 1 && at == 1 then 4 else lo)
    ensures Kills(WRITES, GAPS.code[b][..at], l) <==> l.target == 9 && lo <= l.byte < hi
  {
    hide RWNode.Strong, RWNode.Weak;
    lo := if b == 1 then 2 else 0;
    hi := if b == 0 then Written(at).1 else if b == 1 && at == 1 then 4 else lo;
    var ns := GAPS.code[b][..at];
    assert forall i :: 0 <= i < |ns| ==> ns[i] == if b == 0 then i + 1 else b + 3;
    if b == 0 {
      FirstWrites(ns, at, l);
    } else {
      WritesBytes(b + 3, l);
      assert at == 1 ==> ns[0] == b + 3;
    }
  }

  lemma FirstWrites(ns: seq<Node>, at: nat, l: Loc)
    requires |ns| == at <= 3 && forall i :: 0 <= i < at ==> ns[i] == i + 1
    ensures Kills(WRITES, ns, l) <==> l.target == 9 && l.byte < Written(at).1
  {
    hide RWNode.Strong, RWNode.Weak;
    WritesBytes(1, l);
    WritesBytes(2, l);
    WritesBytes(3, l);
    forall i | 0 <= i < at ensures WRITES[ns[i]].Strong(l) ==> l.target == 9 && l.byte < Written(at).1 {
      assert ns[i] == 1 || ns[i] == 2 || ns[i] == 3;
    }
    if l.target == 9 && l.byte < Written(at).1 {
      var i := if l.byte < 2 then 0 else if l.byte < 4 then 1 else 2;
      assert ns[i] in WRITES && WRITES[ns[i]].Strong(l);
    }
  }

  lemma GapsIsValid(prog: Program)
    requires prog == GAPS
    ensures prog.Valid() && prog.Connected() && prog.Tree() && prog.Gapless() && forall n :: n in prog.nodes ==> n < 6
  {
    hide *;
    GapsDeclared(prog);
    GapsConnected(prog);
    GapsGapless(prog);
  }

  lemma GapsDeclared(prog: Program)
    requires prog == GAPS
    ensures prog.Valid() && prog.Tree() && forall n :: n in prog.nodes ==> n < 6
  {
    GapsNodes();
    GapsPlaces(prog);
    GapsGraph(prog);
    assert prog.nodes == WRITES;
    hide RWNode.Proper, GAPS;
  }

  lemma GapsGraph(prog: Program)
    requires prog == GAPS
    ensures prog.entry in prog.preds && prog.preds[prog.entry] == [] && prog.code.Keys == prog.preds.Keys && prog.Tree()
    ensures forall b, i :: b in prog.preds && 0 <= i < |prog.preds[b]| ==> prog.preds[b][i] in prog.preds
    ensures forall n :: n in prog.nodes ==> n < 6
  {
    hide RWNode.Proper;
  }

  lemma GapsNodes()
    ensures forall n :: n in WRITES ==> WRITES[n].Proper() && WRITES[n].kind == Regular
  {
  }

  lemma GapsPlaces(prog: Program)
    requires prog == GAPS
    ensures forall b, i :: b in prog.code && 0 <= i < |prog.code[b]| ==>
      prog.code[b][i] in prog.nodes && prog.code[b][i] in prog.place && prog.place[prog.code[b][i]] == (b, i)
    ensures forall n :: n in prog.place ==>
      prog.place[n].0 in prog.code && prog.place[n].1 < |prog.code[prog.place[n].0]|
        && prog.code[prog.place[n].0][prog.place[n].1] == n
  {
  }

  lemma GapsConnected(prog: Program)
    requires prog == GAPS
    ensures prog.Connected()
  {
    assert prog.Path([0]) && prog.Path([0, 1]) && prog.Path([0, 1, 2]);
    assert prog.ReachableIn(0, 0) && prog.ReachableIn(1, 1) && prog.ReachableIn(2, 2);
  }

  lemma GapsGapless(prog: Program)
    requires prog == GAPS
    ensures prog.Gapless()
  {
    hide Kills;
    forall b, at: nat, t, e: nat | b in prog.code && at <= |prog.code[b]| && e < UNKNOWN
      ensures prog.NoGap(prog.code[b][..at], t, e)
    {
      forall x: Offset, y: Offset | x < e && e + 1 < y && Kills(prog.nodes, prog.code[b][..at], Loc(t, x))
          && Kills(prog.nodes, prog.code[b][..at], Loc(t, y))
        ensures Kills(prog.nodes, prog.code[b][..at], Loc(t, e))
      {
        var lo, hi := PrefixKills(b, at, Loc(t, x));
        lo, hi := PrefixKills(b, at, Loc(t, y));
        lo, hi := PrefixKills(b, at, Loc(t, e));
      }
    }
  }

  lemma GapsReaching(n: Node)
    ensures ReachingDef(GAPS, 5, n) <==> n == 1 || n == 3 || n == 4
  {
    if n == 1 || n == 3 || n == 4 { GapsReach(n); }
    if ReachingDef(GAPS, 5, n) { GapsReachedBy(n); }
  }

  lemma GapsReach(n: Node)
    requires n == 1 || n == 3 || n == 4
    ensures ReachingDef(GAPS, 5, n)
  {
    var prog, l := GAPS, Loc(9, Written(n).0);
    hide RWNode.Strong, RWNode.Weak, Kills;
    WritesBytes(n, l);
    var p := if n == 4 then [1] else [0, 1];
    LastWriteOf(n, l);
    var lo, hi := PrefixKills(1, 1, l);
    assert prog.code[1][..1] == prog.code[1];
    assert prog.Path(p) && prog.ReachesEnd(n, p, l);
    lo, hi := PrefixKills(2, 0, l);
    assert prog.Reaches(n, 2, 0, l);
    UsesLow(l);
  }

  lemma UsesLow(l: Loc)
    requires l.target == 9 && l.byte < 8
    ensures Uses(GAPS.nodes[5], l)
  {
    LowBytes();
    assert GAPS.nodes[5].uses[0] == LOW && LOW.Has(l);
  }

  lemma LastWriteOf(n: Node, l: Loc)
    requires (n == 1 || n == 3 || n == 4) && l == Loc(9, Written(n).0)
    ensures var b, i := if n == 4 then 1 else 0, if n == 3 then 2 else 0;
      LastWrite(WRITES, GAPS.code[b], i, l) && GAPS.code[b][i] == n
  {
    hide RWNode.Strong, RWNode.Weak;
    WritesBytes(n, l);
    WritesBytes(2, l);
    WritesBytes(3, l);
    var rest := GAPS.code[if n == 4 then 1 else 0][(if n == 3 then 2 else 0) + 1..];
    assert forall i :: 0 <= i < |rest| ==> n == 1 && (rest[i] == 2 || rest[i] == 3);
  }

  lemma GapsReachedBy(n: Node)
    requires ReachingDef(GAPS, 5, n)
    ensures n == 1 || n == 3 || n == 4
  {
    var prog := GAPS;
    hide Kills, Uses, RWNode.Strong, RWNode.Weak;
    var l: Loc :| Uses(prog.nodes[5], l) && prog.Reaches(n, 2, 0, l);
    NoWriteBefore(l);
    var p :| prog.ReachesEnd(n, p, l) && p[|p| - 1] in prog.preds[2];
    var i: nat :| LastWrite(prog.nodes, prog.code[p[0]], i, l) && prog.code[p[0]][i] == n;
    assert p[|p| - 1] == 1 && prog.nodes == WRITES;
    if p[0] == 0 {
      assert !Kills(prog.nodes, prog.code[p[|p| - 1]], l);
      SecondIsKilled(n, i, l);
    } else {
      NotFromTwo(p);
    }
  }

  lemma NotFromTwo(p: seq<Block>)
    requires GAPS.Path(p) && p[|p| - 1] == 1
    ensures p[0] != 2
  {
    if |p| > 1 { assert p[0] in GAPS.preds[p[1]]; }
  }

  lemma NoWriteBefore(l: Loc)
    ensures forall i: nat :: !LastWrite(GAPS.nodes, GAPS.code[2][..0], i, l)
  {
  }

  /** The bytes that 2 writes are overwritten in block 1. */
  lemma SecondIsKilled(n: Node, i: nat, l: Loc)
    requires LastWrite(WRITES, GAPS.code[0], i, l) && GAPS.code[0][i] == n
    requires !Kills(WRITES, GAPS.code[1], l)
    ensures n != 2
  {
    hide RWNode.Strong, RWNode.Weak;
    WritesBytes(2, l);
    WritesBytes(4, l);
    assert GAPS.code[1][0] == 4;
  }

  /** The gaps of block 1 are searched, and not the bytes that it overwrites. */
  method GapsAreSearched() returns (ret: set<Node>)
    ensures ret == {1, 3, 4}
  {
    hide Initial, Inv, Coverage, Precise, AnswerSettles, Gathers, ReachingDef, Program.Valid, Program.Connected;
    hide Extends, Program.Tree, Program.Gapless, Program.JoinFree, Program.EqualOrDisjoint;
    GapsIsValid(GAPS);
    var ssa := new MemorySSATransformation(GAPS, {}, 6);
    ret := ssa.GetDefinitions(5);
    forall n ensures n in ret <==> n == 1 || n == 3 || n == 4 { GapsReaching(n); }
  }
}
