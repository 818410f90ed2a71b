/** A program whose runs the finished pointer analysis does not cover. */
module PointerMissed {
  import opened Offsets
  import opened Digraphs
  import opened PointerStates
  import opened PointerRules
  import opened PointerProgress
  import opened PointerSoundness
  import opened NodesWalks
  import opened PointerSchedules
  import PointerAnalyses

  /** c and p are allocated (1, 2); then either 4 stores p to c and the program ends, or
      the loop 5, 6, 7 loads from c and stores p to c. */
  const BRANCH: Graph := Graph(
    map[1 := Alloc(8, false, false), 2 := Alloc(8, false, false), 3 := Noop, 4 := Store(2, 1), 5 := Load(1), 6 := Noop,
        7 := Store(2, 1)], UNKNOWN, false)

  const EDGES: map<Node, Edges> := map[1 := Plain([2]), 2 := Plain([3]), 3 := Plain([5, 4]), 4 := Plain([]),
                                       5 := Plain([6]), 6 := Plain([7]), 7 := Plain([5])]

  const C: Pointer := Pointer(Object(1), 0)
  const P: Pointer := Pointer(Object(2), 0)

  const INITIAL: PointsTo := map[Var(1) := {C}, Var(2) := {P}]

  /** The initial state, and c pointing to p if it was stored. */
  ghost predicate Known(s: PointsTo, stored: bool) {
    forall l :: At(s, l) == KnownAt(l, stored)
  }

  ghost function KnownAt(l: Location, stored: bool): set<Pointer> {
    if l == Var(1) then {C} else if l == Var(2) then {P} else if l == Cell(1, 0) && stored then {P} else {}
  }

  /** No set holds a null pointer. */
  ghost predicate WithoutNull(s: PointsTo) { forall l, p :: p in At(s, l) ==> Real(p) }

  // ---- the steps

  /** A known state that is above stays above, set by set. */
  lemma KnownAbove(s: PointsTo, n: Node, t: PointsTo, u: PointsTo, stored: bool, l: Location, p: Pointer)
    requires Bounded(BRANCH, n, s, t) && Below(s, u) && Known(u, stored) && Closed(BRANCH, u, n) && WithoutNull(t)
    requires p in At(t, l)
    ensures p in KnownAt(l, stored)
  {
    hide Closed, KnownAt;
    assert Below(t, u);
    assert Covers(u, l, p);
    KnownExact(u, stored, l, p);
  }

  lemma KnownExact(u: PointsTo, stored: bool, l: Location, p: Pointer)
    requires Known(u, stored) && Covers(u, l, p)
    ensures p in KnownAt(l, stored)
  {
    assert At(u, l) == KnownAt(l, stored) && At(u, Wide(l)) == KnownAt(Wide(l), stored);
  }

  lemma SameBelow(s: PointsTo, stored: bool, u: PointsTo, later: bool)
    requires Known(s, stored) && Known(u, later) && (stored ==> later)
    ensures Below(s, u)
  {
    forall l, p | p in At(s, l) ensures p in At(u, l) {
      assert p in KnownAt(l, stored) && KnownAt(l, later) == At(u, l);
    }
  }

  /** A node that has nothing to add changes nothing. */
  lemma Unmoved(n: Node, s: PointsTo, t: PointsTo, flag: bool, stored: bool)
    requires Processed(BRANCH, n, s, t, flag) && Known(s, stored) && Closed(BRANCH, s, n) && WithoutNull(t)
    ensures t == s && !flag
  {
    hide Closed, KnownAt, Framed, Delivered, Known, WithoutNull;
    SameBelow(s, stored, s, stored);
    forall l ensures At(t, l) == At(s, l) {
      forall p | p in At(t, l) ensures p in At(s, l) {
        KnownAbove(s, n, t, s, stored, l, p);
        KnownMeans(s, stored, l);
      }
      forall p | p in At(s, l) ensures p in At(t, l) { KnownStays(s, n, t, stored, l, p); }
    }
    SameFacts(s, t);
  }

  lemma KnownMeans(s: PointsTo, stored: bool, l: Location)
    requires Known(s, stored)
    ensures At(s, l) == KnownAt(l, stored)
  {
  }

  lemma KnownStays(s: PointsTo, n: Node, t: PointsTo, stored: bool, l: Location, p: Pointer)
    requires Grows(s, t) && Bounded(BRANCH, n, s, t) && Known(s, stored) && Closed(BRANCH, s, n) && WithoutNull(t)
    requires p in At(s, l)
    ensures p in At(t, l)
  {
    hide Closed, Bounded;
    KnownMeans(s, stored, l);
    SameBelow(s, stored, s, stored);
    assert Holds(At(t, l), p);
    if p !in At(t, l) {
      KnownAbove(s, n, t, s, stored, l, Blur(p));
    }
  }

  lemma SameFacts(s: PointsTo, t: PointsTo)
    requires forall l :: At(t, l) == At(s, l)
    ensures !Advances(s, t)
  {
    forall f ensures f in Facts(t) <==> f in Facts(s) {
      FactIn(s, f.0, f.1);
      FactIn(t, f.0, f.1);
      assert f == (f.0, f.1);
    }
    assert Facts(t) == Facts(s);
    hide Facts;
  }

  /** A store adds p to c. */
  lemma Stored(n: Node, s: PointsTo, t: PointsTo, flag: bool)
    requires (n == 4 || n == 7) && Processed(BRANCH, n, s, t, flag) && Known(s, false) && WithoutNull(t)
    ensures Known(t, true) && flag
  {
    hide Closed, Framed;
    var u := INITIAL[Cell(1, 0) := {P}];
    assert Known(u, true);
    StoreClosed(n, u);
    SameBelow(s, false, u, true);
    assert C in At(s, Var(1)) && P in At(s, Var(2)) && StoreVia(BRANCH, s, 2, C, Cell(1, 0), P);
    assert Gives(BRANCH, s, n, Store(2, 1), Cell(1, 0), P);
    hide Gives, Known;
    forall l ensures At(t, l) == KnownAt(l, true) {
      forall p | p in At(t, l) ensures p in KnownAt(l, true) { KnownAbove(s, n, t, u, true, l, p); }
      forall p | p in KnownAt(l, true) ensures p in At(t, l) { StoredStays(s, n, t, u, l, p); }
    }
    assert Known(t, true);
    KnownMeans(s, false, Cell(1, 0));
    assert P in At(t, Cell(1, 0)) && t != s;
  }

  lemma StoredStays(s: PointsTo, n: Node, t: PointsTo, u: PointsTo, l: Location, p: Pointer)
    requires Grows(s, t) && Bounded(BRANCH, n, s, t) && Known(s, false) && Below(s, u) && Known(u, true)
    requires Closed(BRANCH, u, n)
    requires Covers(t, Cell(1, 0), P) && WithoutNull(t) && p in KnownAt(l, true)
    ensures p in At(t, l)
  {
    hide Closed, Bounded, Known;
    KnownMeans(s, false, l);
    if l != Cell(1, 0) {
      assert Holds(At(t, l), p);
      if p !in At(t, l) { KnownAbove(s, n, t, u, true, l, Blur(p)); }
    } else {
      var l', p' := CoversWitness(t, l, p);
      KnownAbove(s, n, t, u, true, l', p');
    }
  }

  lemma StoreClosed(n: Node, u: PointsTo)
    requires (n == 4 || n == 7) && Known(u, true)
    ensures Closed(BRANCH, u, n)
  {
    forall l, p | Gives(BRANCH, u, n, Store(2, 1), l, p) ensures Covers(u, l, p) {
      var ptr :| ptr in At(u, Var(1)) && StoreVia(BRANCH, u, 2, ptr, l, p);
      assert ptr == C && p == P && l == Cell(1, 0);
    }
  }

  lemma NothingLoaded(s: PointsTo)
    requires Known(s, false)
    ensures Closed(BRANCH, s, 5)
  {
    assert forall x: Offset :: At(s, Cell(1, x)) == {};
  }

  lemma NothingGiven(s: PointsTo, n: Node)
    requires n == 1 || n == 2 || n == 3 || n == 6
    ensures Closed(BRANCH, s, n)
  {
  }

  /** Nothing is read that holds a null pointer, so none turns up, and no memory is zeroed. */
  lemma NoNullAdded(n: Node, s: PointsTo, t: PointsTo, zero: set<Node>, stored: bool)
    requires Known(s, stored) && NullsRead(BRANCH, n, {}, s, t) && Zeroed(BRANCH, n, {}, s, zero)
    ensures WithoutNull(t) && zero == {}
  {
    NoNullKnown(s, stored);
    hide Known, Reads;
    assert forall l :: Clean(s, l);
    assert !ReadsNull(BRANCH, n, {}, s);
    forall l, p | p in At(t, l) ensures Real(p) { assert Clean(t, l); }
  }

  /** Nothing changes at the given place of a round. */
  lemma Idle(r: Round, i: nat, stored: bool)
    requires r.Shaped() && i < |r.queue| && Visit(BRANCH, r, i) && r.zeros[i] == {}
    requires Known(r.states[i], stored) && Closed(BRANCH, r.states[i], r.queue[i])
    ensures r.states[i + 1] == r.states[i] && r.zeros[i + 1] == {} && !r.flags[i]
  {
    hide Processed, NullsRead, Zeroed, Known, Closed, WithoutNull;
    NoNullAdded(r.queue[i], r.states[i], r.states[i + 1], r.zeros[i + 1], stored);
    Unmoved(r.queue[i], r.states[i], r.states[i + 1], r.flags[i], stored);
  }

  // ---- the rounds

  lemma Walks(D: Digraph)
    requires D == Walked(EDGES)
    ensures D.Valid() && 1 in D.succ && 4 in D.succ
    ensures WalkOrder(D, [1], {1}) == [1, 2, 3, 5, 4, 6, 7] && WalkOrder(D, [4], {4}) == [4]
  {
    hide WalkOrder, Fresh, Branches, Walked, Digraph.Valid;
    BranchTargets(D);
    WalkFirst(D);
    NothingWalked(D, {4});
    Target4(D);
    WalkStep(D, [4], {4}, [], [], {4}, []);
  }

  lemma WalkFirst(D: Digraph)
    requires Branches(D)
    ensures WalkOrder(D, [1], {1}) == [1, 2, 3, 5, 4, 6, 7]
  {
    hide WalkOrder, Digraph.Valid;
    WalkMiddle(D);
    WalkStep(D, [2], {1, 2}, [3], [3], {1, 2, 3}, [3, 5, 4, 6, 7]);
    WalkStep(D, [1], {1}, [2], [2], {1, 2}, [2, 3, 5, 4, 6, 7]);
  }

  lemma WalkMiddle(D: Digraph)
    requires Branches(D)
    ensures WalkOrder(D, [3], {1, 2, 3}) == [3, 5, 4, 6, 7]
  {
    hide WalkOrder, Digraph.Valid;
    WalkLast(D);
    WalkStep(D, [5, 4], {1, 2, 3, 5, 4}, [6], [4, 6], {1, 2, 3, 5, 4, 6}, [4, 6, 7]);
    WalkStep(D, [3], {1, 2, 3}, [5, 4], [5, 4], {1, 2, 3, 5, 4}, [5, 4, 6, 7]);
  }

  lemma WalkLast(D: Digraph)
    requires Branches(D)
    ensures WalkOrder(D, [4, 6], {1, 2, 3, 5, 4, 6}) == [4, 6, 7]
  {
    hide WalkOrder, Digraph.Valid;
    var all := {1, 2, 3, 5, 4, 6, 7};
    NothingWalked(D, all);
    WalkStep(D, [7], all, [], [], all, []);
    WalkStep(D, [6], {1, 2, 3, 5, 4, 6}, [7], [7], all, [7]);
    WalkStep(D, [4, 6], {1, 2, 3, 5, 4, 6}, [], [6], {1, 2, 3, 5, 4, 6}, [6, 7]);
  }

  ghost predicate Branches(D: Digraph) {
    && D.Valid() && D.succ.Keys == {1, 2, 3, 4, 5, 6, 7} && D.succ[1] == [2] && D.succ[2] == [3] && D.succ[3] == [5, 4]
    && D.succ[4] == [] && D.succ[5] == [6] && D.succ[6] == [7] && D.succ[7] == [5]
  }

  lemma Target4(D: Digraph)
    requires Branches(D)
    ensures D.Valid() && 1 in D.succ && 4 in D.succ && Fresh(D.succ[4], {4}) == []
  {
  }

  lemma BranchTargets(D: Digraph)
    requires D == Walked(EDGES)
    ensures Branches(D)
  {
    assert forall n :: n in D.succ ==> D.succ[n] == EDGES[n].Targets();
  }

  lemma WalkStep(D: Digraph, queue: seq<Node>, visited: set<Node>, added: seq<Node>, rest: seq<Node>, all: set<Node>,
                 walk: seq<Node>)
    requires D.Valid() && (forall m :: m in queue || m in rest ==> m in D.succ) && queue != []
    requires added == Fresh(D.succ[queue[0]], visited) && rest == queue[1..] + added && all == visited + ToSet(added)
    requires WalkOrder(D, rest, all) == walk
    ensures WalkOrder(D, queue, visited) == [queue[0]] + walk
  {
    hide Unvisited;
    FewTargets(D.succ[queue[0]], visited);
  }

  /** The unvisited ones of up to two targets. */
  ghost function Fresh(targets: seq<Node>, visited: set<Node>): seq<Node> {
    if |targets| == 2 && targets[0] != targets[1] && targets[0] !in visited && targets[1] !in visited then targets
    else if |targets| == 1 && targets[0] !in visited then targets
    else if |targets| < 2 then []
    else Unvisited(targets, visited)
  }

  lemma FewTargets(targets: seq<Node>, visited: set<Node>)
    ensures Unvisited(targets, visited) == Fresh(targets, visited)
  {
    if |targets| == 2 { assert targets[..1][..0] == []; }
  }

  lemma {:induction false} NoneFlagged(queue: seq<Node>, flags: seq<bool>)
    requires |flags| == |queue| && forall i :: 0 <= i < |flags| ==> !flags[i]
    ensures ChangedNodes(queue, flags) == []
  {
    if queue != [] { NoneFlagged(queue[..|queue| - 1], flags[..|queue| - 1]); }
  }

  lemma {:induction false} OneFlagged(queue: seq<Node>, flags: seq<bool>, k: nat)
    requires |flags| == |queue| && k < |queue| && forall i :: 0 <= i < |flags| ==> (flags[i] <==> i == k)
    ensures ChangedNodes(queue, flags) == [queue[k]]
  {
    var last := |queue| - 1;
    if k == last { NoneFlagged(queue[..last], flags[..last]); } else { OneFlagged(queue[..last], flags[..last], k); }
  }

  /** Node 5 is processed before 4, and only 4 changes something. */
  lemma FirstRound(r: Round)
    requires IsRound(BRANCH, r) && r.queue == [1, 2, 3, 5, 4, 6, 7] && Known(r.Before(), false)
    requires r.ZeroedBefore() == {}
    ensures Known(r.After(), true) && r.Changed() == [4] && r.ZeroedAfter() == {}
  {
    hide Processed, NullsRead, Zeroed, Closed, Known, WithoutNull, ChangedNodes;
    FirstNodes(r);
    assert Visit(BRANCH, r, 4);
    NoNullAdded(4, r.states[4], r.states[5], r.zeros[5], false);
    Stored(4, r.states[4], r.states[5], r.flags[4]);
    assert Visit(BRANCH, r, 5) && Visit(BRANCH, r, 6);
    NothingGiven(r.states[5], 6);
    Idle(r, 5, true);
    StoreClosed(7, r.states[6]);
    Idle(r, 6, true);
    OneFlagged(r.queue, r.flags, 4);
  }

  lemma FirstNodes(r: Round)
    requires IsRound(BRANCH, r) && r.queue == [1, 2, 3, 5, 4, 6, 7] && Known(r.Before(), false)
    requires r.ZeroedBefore() == {}
    ensures Known(r.states[4], false) && r.zeros[4] == {} && forall i :: 0 <= i < 4 ==> !r.flags[i]
  {
    hide Processed, Closed, Known, WithoutNull;
    var i := 0;
    while i < 3
      invariant i <= 3 && r.states[i] == r.states[0] && r.zeros[i] == {} && forall j :: 0 <= j < i ==> !r.flags[j]
    {
      assert Visit(BRANCH, r, i);
      NothingGiven(r.states[i], r.queue[i]);
      Idle(r, i, false);
      i := i + 1;
    }
    assert Visit(BRANCH, r, 3);
    NothingLoaded(r.states[3]);
    Idle(r, 3, false);
  }

  /** A later round processes node 4 or nothing, and changes nothing. */
  lemma LaterRound(r: Round)
    requires IsRound(BRANCH, r) && (r.queue == [4] || r.queue == []) && Known(r.Before(), true)
    requires r.ZeroedBefore() == {}
    ensures Known(r.After(), true) && r.Changed() == [] && r.ZeroedAfter() == {}
  {
    hide Processed, NullsRead, Zeroed, Closed, Known, WithoutNull, ChangedNodes;
    if r.queue == [4] {
      assert Visit(BRANCH, r, 0);
      StoreClosed(4, r.states[0]);
      Idle(r, 0, true);
    }
    NoneFlagged(r.queue, r.flags);
  }

  lemma {:induction false} Rounds(D: Digraph, rounds: seq<Round>, i: nat)
    requires D == Walked(EDGES) && Schedule(BRANCH, D, 1, INITIAL, {}, rounds) && i < |rounds|
    ensures rounds[i].Shaped() && Known(rounds[i].After(), true) && rounds[i].ZeroedAfter() == {}
    ensures rounds[i].Changed() == if i == 0 then [4] else []
  {
    hide IsRound, Known, WalkOrder, Digraph.Valid, Round.Changed;
    Walks(D);
    assert InTurn(BRANCH, D, 1, INITIAL, {}, rounds, i);
    var r := rounds[i];
    if i == 0 {
      assert ToSet([1]) == {1} && [1] == [1] + [] && r.queue + [] == r.queue;
      StartKnown();
      NothingWalked(D, ToSet(r.queue));
      FirstRound(r);
    } else {
      Rounds(D, rounds, i - 1);
      assert ToSet([4]) == {4} && r.queue + [] == r.queue;
      NothingWalked(D, ToSet(r.queue));
      NothingWalked(D, ToSet([]));
      LaterRound(r);
    }
  }

  lemma NothingWalked(D: Digraph, visited: set<Node>)
    requires D.Valid()
    ensures WalkOrder(D, [], visited) == []
  {
  }

  lemma StartKnown()
    ensures Known(INITIAL, false)
  {
  }

  // ---- there is such a schedule

  lemma Rests(n: Node, s: PointsTo, stored: bool)
    requires Closed(BRANCH, s, n) && Known(s, stored)
    ensures Processed(BRANCH, n, s, s, false)
  {
    NoNullKnown(s, stored);
    hide Partly, Covers, Gives, Known;
    NothingYet(BRANCH, n, s);
    ClosedCovers(BRANCH, s, n);
    forall l, p | Gives(BRANCH, s, n, BRANCH.nodes[n], l, p) ensures Real(p) { GivesReal(n, s, l, p); }
  }

  /** From sets without null pointers no null pointer is generated. */
  lemma GivesReal(n: Node, s: PointsTo, l: Location, p: Pointer)
    requires n in BRANCH.nodes && WithoutNull(s) && Gives(BRANCH, s, n, BRANCH.nodes[n], l, p)
    ensures Real(p)
  {
  }

  lemma Stores(s: PointsTo)
    requires s == INITIAL
    ensures var t := AddAt(s, Cell(1, 0), P); Processed(BRANCH, 4, s, t, true) && Known(t, true)
  {
    StoredKnown(s);
    assert C in At(s, Var(1)) && P in At(s, Var(2)) && StoreVia(BRANCH, s, 2, C, Cell(1, 0), P);
    assert Gives(BRANCH, s, 4, Store(2, 1), Cell(1, 0), P) && PointsInto(BRANCH, s, 1, 1);
    NothingYet(BRANCH, 4, s);
    hide Partly, Covers;
    AddOne(BRANCH, 4, s, s, false, Cell(1, 0), P);
    forall l, p | Gives(BRANCH, s, 4, Store(2, 1), l, p) ensures l == Cell(1, 0) && p == P {
      var ptr :| ptr in At(s, Var(1)) && StoreVia(BRANCH, s, 2, ptr, l, p);
      assert ptr == C;
    }
  }

  lemma StoredKnown(s: PointsTo)
    requires s == INITIAL
    ensures Known(AddAt(s, Cell(1, 0), P), true) && AddPointer(At(s, Cell(1, 0)), P) != At(s, Cell(1, 0))
  {
    assert AddPointer({}, P) == {P};
  }

  lemma NoNullKnown(s: PointsTo, stored: bool)
    requires Known(s, stored)
    ensures WithoutNull(s)
  {
    forall l, p | p in At(s, l) ensures Real(p) { assert p in KnownAt(l, stored); }
  }

  /** The schedule on that program: two rounds, and only 4 changes something. */
  lemma SomeSchedule(D: Digraph) returns (rounds: seq<Round>, t: PointsTo)
    requires D == Walked(EDGES)
    ensures rounds != [] && Reached(BRANCH, D, 1, INITIAL, {}, rounds, [], t, {})
  {
    hide Known, WithoutNull, Processed, Walked, AddAt, Visit, ChangedNodes, Reached;
    var s := INITIAL;
    t := AddAt(s, Cell(1, 0), P);
    Stores(s);
    StartKnown();
    var first := FirstSchedule(s, t);
    var second := SecondSchedule(t);
    OneFlagged(first.queue, first.flags, 4);
    NoneFlagged(second.queue, second.flags);
    TwoRounds(D, s, t, first, second);
    rounds := [first, second];
  }

  lemma SecondSchedule(t: PointsTo) returns (r: Round)
    requires Known(t, true)
    ensures IsRound(BRANCH, r) && r == Round([4], [t, t], [{}, {}], [false])
  {
    hide Known, Processed, Closed, NullsRead, Zeroed;
    r := Round([4], [t, t], [{}, {}], [false]);
    StoreClosed(4, t);
    Rests(4, t, true);
    NoNullsYet(BRANCH, 4, {}, t);
    NothingZeroed(BRANCH, 4, {}, t);
    assert Visit(BRANCH, r, 0);
  }

  lemma TwoRounds(D: Digraph, s: PointsTo, t: PointsTo, first: Round, second: Round)
    requires D == Walked(EDGES) && IsRound(BRANCH, first) && IsRound(BRANCH, second)
    requires first.queue == [1, 2, 3, 5, 4, 6, 7] && first.Before() == s && first.After() == t && first.Changed() == [4]
    requires second.queue == [4] && second.Before() == second.After() == t && second.Changed() == []
    requires first.ZeroedBefore() == first.ZeroedAfter() == second.ZeroedBefore() == second.ZeroedAfter() == {}
    ensures Reached(BRANCH, D, 1, s, {}, [first, second], [], t, {})
  {
    hide Visit, Ordered, Round.Before, Round.After, Round.Changed, Walked, Round.ZeroedBefore, Round.ZeroedAfter;
    WalksOrdered(D);
    NothingReached(D, s);
    OneMoreRound(BRANCH, D, 1, s, {}, [], [1], first);
    assert [] + [first] == [first];
    OneMoreRound(BRANCH, D, 1, s, {}, [first], [4], second);
    assert [first] + [second] == [first, second];
  }

  lemma NothingReached(D: Digraph, s: PointsTo)
    ensures Reached(BRANCH, D, 1, s, {}, [], [1], s, {})
  {
  }

  lemma WalksOrdered(D: Digraph)
    requires D == Walked(EDGES)
    ensures var q := [1, 2, 3, 5, 4, 6, 7]; Ordered(D, [1], q, [], ToSet(q)) && Ordered(D, [4], [4], [], ToSet([4]))
  {
    hide WalkOrder, Walked, Digraph.Valid;
    Walks(D);
    var q := [1, 2, 3, 5, 4, 6, 7];
    NothingWalked(D, ToSet(q));
    NothingWalked(D, ToSet([4]));
    assert ToSet([1]) == {1} && ToSet([4]) == {4};
    assert q + [] == q && [4] + [] == [4];
  }

  lemma FirstSchedule(s: PointsTo, t: PointsTo) returns (r: Round)
    requires Known(s, false) && Known(t, true) && Processed(BRANCH, 4, s, t, true)
    ensures IsRound(BRANCH, r) && r.queue == [1, 2, 3, 5, 4, 6, 7] && r.states == [s, s, s, s, s, t, t, t]
    ensures r.flags == [false, false, false, false, true, false, false] && r.zeros == seq(8, i => {})
  {
    hide Known, Processed, Closed, NullsRead, Zeroed;
    r := Round([1, 2, 3, 5, 4, 6, 7], [s, s, s, s, s, t, t, t], seq(8, i => {}),
               [false, false, false, false, true, false, false]);
    forall i | 0 <= i < 7 ensures Visit(BRANCH, r, i) {
      NoNullBetween(r.queue[i], r.states[i], r.states[i + 1], i > 4);
      NothingZeroed(BRANCH, r.queue[i], {}, r.states[i]);
      if i < 3 {
        NothingGiven(s, r.queue[i]);
        Rests(r.queue[i], s, false);
      } else if i == 3 {
        NothingLoaded(s);
        Rests(5, s, false);
      } else if i == 5 {
        NothingGiven(t, 6);
        Rests(6, t, true);
      } else if i == 6 {
        StoreClosed(7, t);
        Rests(7, t, true);
      }
    }
  }

  lemma NoNullBetween(n: Node, s: PointsTo, t: PointsTo, later: bool)
    requires Known(t, true) || (t == s && Known(s, later))
    ensures NullsRead(BRANCH, n, {}, s, t)
  {
    if Known(t, true) { NoNullKnown(t, true); } else { NoNullKnown(t, later); }
    assert forall l :: Clean(t, l);
  }

  // ---- the run

  /** Node 5 is executed again after node 7, along the edges. */
  const PATH: seq<Node> := [1, 2, 3, 5, 6, 7, 5]

  const M1: Machine := Machine(map[0 := 1], map[1 := Address(0, 0)], map[])
  const M2: Machine := Machine(map[0 := 1, 1 := 2], map[1 := Address(0, 0), 2 := Address(1, 0)], map[])
  const M6: Machine := M2.(mem := map[Address(0, 0) := Address(1, 0)])
  const M7: Machine := M6.(env := M2.env[5 := Address(1, 0)])
  const MACHINES: seq<Machine> := [Start, M1, M2, M2, M2, M2, M6, M7]

  lemma PathIsRun()
    ensures Run(BRANCH, PATH, MACHINES)
  {
    hide Step;
    FirstSteps(BRANCH);
    LastSteps(BRANCH);
  }

  lemma FirstSteps(g: Graph)
    requires g == BRANCH
    ensures Step(g, Start, 1, g.nodes[1], M1) && Step(g, M1, 2, g.nodes[2], M2)
  {
    assert Start.env[1 := Address(0, 0)] == M1.env && Start.site[0 := 1] == M1.site;
    assert M1.env[2 := Address(1, 0)] == M2.env && M1.site[1 := 2] == M2.site;
    assert 0 !in Start.site && 1 !in M1.site;
  }

  lemma LastSteps(g: Graph)
    requires g == BRANCH
    ensures Step(g, M2, 3, g.nodes[3], M2) && Step(g, M2, 5, g.nodes[5], M2) && Step(g, M2, 6, g.nodes[6], M2)
    ensures Step(g, M2, 7, g.nodes[7], M6) && Step(g, M6, 5, g.nodes[5], M7)
  {
    assert M2.env - {5} == M2.env;
    assert M2.mem[Address(0, 0) := Address(1, 0)] == M6.mem;
  }

  lemma PathFollowsEdges(D: Digraph)
    requires D == Walked(EDGES)
    ensures forall i :: 0 <= i < |PATH| - 1 ==> D.Edge(PATH[i], PATH[i + 1])
  {
    hide Walked;
    BranchTargets(D);
  }

  /** When the analysis has finished, node 5 points nowhere, but on that run it holds p. */
  lemma LoadIsMissed(D: Digraph, rounds: seq<Round>, t: PointsTo, zero: set<Node>)
    requires D == Walked(EDGES) && rounds != [] && Reached(BRANCH, D, 1, INITIAL, {}, rounds, [], t, zero)
    ensures Run(BRANCH, PATH, MACHINES) && !Covered(t, MACHINES[7])
    ensures forall i :: 0 <= i < |PATH| - 1 ==> D.Edge(PATH[i], PATH[i + 1])
  {
    hide Schedule, Known, Run;
    Rounds(D, rounds, |rounds| - 1);
    PathIsRun();
    PathFollowsEdges(D);
    NowhereKnown(t);
    assert 5 in M7.env && !VarCovered(t, M7, 5);
  }

  lemma NowhereKnown(t: PointsTo)
    requires Known(t, true)
    ensures !Covers(t, Var(5), P) && Abstract(M7, Address(1, 0)) == P
  {
    if Covers(t, Var(5), P) { KnownExact(t, true, Var(5), P); }
  }

  /** The analysis finishes on that program and has missed the load. */
  method RunOnBranch() returns (finished: bool, result: PointsTo)
    ensures finished && !Covered(result, MACHINES[7])
  {
    hide WellTyped, Reached, Covered, PointerAnalyses.Limit, PointerAnalyses.ClosedAfter;
    hide PointerAnalyses.BoundedAll, PointerAnalyses.BlurGeps, Processed, Walked, Branches, Digraph.Valid;
    BranchTargets(Walked(EDGES));
    BranchesValid(Walked(EDGES));
    InitialTyped();
    var pg := new PointerGraph(EDGES);
    var analysis := new PointerAnalyses.PointerAnalysisFI(BRANCH, pg, [], 1, [], false, 0, {}, INITIAL);
    ghost var settled, first, rounds;
    finished, settled, first, rounds := analysis.Run();
    result := analysis.pts;
    LoadIsMissed(Walked(EDGES), rounds, result, analysis.zeroInitialized);
  }

  lemma BranchesValid(D: Digraph)
    requires Branches(D)
    ensures D.Valid()
  {
  }

  lemma InitialTyped()
    ensures WellTyped(BRANCH, INITIAL)
  {
  }
}
