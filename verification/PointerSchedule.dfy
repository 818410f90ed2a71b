/** The order in which the pointer analysis processes nodes. */
module PointerSchedules {
  import opened Digraphs
  import opened PointerStates
  import opened PointerRules
  import opened PointerProgress
  import opened NodesWalks

  /** One pass over a queue: what is known and which memory is zeroed before each node and
      at the end, and whether the nodes changed something. */
  datatype Round = Round(queue: seq<Node>, states: seq<PointsTo>, zeros: seq<set<Node>>, flags: seq<bool>)
  {
    ghost predicate Shaped() { |states| == |zeros| == |queue| + 1 && |flags| == |queue| }

    ghost function ZeroedBefore(): set<Node>
      requires Shaped()
    {
      zeros[0]
    }

    ghost function ZeroedAfter(): set<Node>
      requires Shaped()
    {
      zeros[|queue|]
    }

    ghost function Before(): PointsTo
      requires Shaped()
    {
      states[0]
    }

    ghost function After(): PointsTo
      requires Shaped()
    {
      states[|queue|]
    }

    ghost function Changed(): seq<Node>
      requires Shaped()
    {
      ChangedNodes(queue, flags)
    }
  }

  ghost function ChangedNodes(queue: seq<Node>, flags: seq<bool>): seq<Node>
    requires |flags| == |queue|
  {
    if queue == [] then []
    else
      var k := |queue| - 1;
      ChangedNodes(queue[..k], flags[..k]) + if flags[k] then [queue[k]] else []
  }

  ghost predicate IsRound(g: Graph, r: Round) { r.Shaped() && forall i :: 0 <= i < |r.queue| ==> Visit(g, r, i) }

  ghost predicate Visit(g: Graph, r: Round, i: nat)
    requires r.Shaped() && i < |r.queue|
  {
    && Processed(g, r.queue[i], r.states[i], r.states[i + 1], r.flags[i])
    && NullsRead(g, r.queue[i], r.zeros[i], r.states[i], r.states[i + 1])
    && Zeroed(g, r.queue[i], r.zeros[i], r.states[i], r.zeros[i + 1])
  }

  ghost function NoNodes(s: PointsTo, zero: set<Node>): Round { Round([], [s], [zero], []) }

  ghost function Then(r: Round, n: Node, t: PointsTo, zero: set<Node>, changed: bool): Round {
    Round(r.queue + [n], r.states + [t], r.zeros + [zero], r.flags + [changed])
  }

  lemma OneMoreNode(g: Graph, r: Round, n: Node, t: PointsTo, zero: set<Node>, changed: bool)
    requires IsRound(g, r) && Processed(g, n, r.After(), t, changed)
    requires NullsRead(g, n, r.ZeroedAfter(), r.After(), t) && Zeroed(g, n, r.ZeroedAfter(), r.After(), zero)
    ensures var r' := Then(r, n, t, zero, changed);
      IsRound(g, r') && r'.Before() == r.Before() && r'.After() == t
        && r'.ZeroedBefore() == r.ZeroedBefore() && r'.ZeroedAfter() == zero
        && r'.Changed() == r.Changed() + if changed then [n] else []
  {
    hide Processed, NullsRead, Zeroed;
    var r' := Then(r, n, t, zero, changed);
    forall i | 0 <= i < |r'.queue| ensures Visit(g, r', i) {
      if i < |r.queue| { assert Visit(g, r, i); }
    }
    assert r'.queue[..|r.queue|] == r.queue && r'.flags[..|r.queue|] == r.flags;
  }

  /** Each round processes what can be reached from the nodes that changed something in
      the round before, in the order of the walk. */
  ghost predicate Schedule(g: Graph, D: Digraph, root: Node, s: PointsTo, zero: set<Node>, rounds: seq<Round>) {
    forall i :: 0 <= i < |rounds| ==> InTurn(g, D, root, s, zero, rounds, i)
  }

  ghost predicate InTurn(g: Graph, D: Digraph, root: Node, s: PointsTo, zero: set<Node>, rounds: seq<Round>,
                         i: nat)
    requires i < |rounds|
  {
    && IsRound(g, rounds[i])
    && if i == 0 then Follows(D, [root], s, zero, rounds[0])
       else
         rounds[i - 1].Shaped()
         && Follows(D, rounds[i - 1].Changed(), rounds[i - 1].After(), rounds[i - 1].ZeroedAfter(), rounds[i])
  }

  ghost predicate Follows(D: Digraph, start: seq<Node>, s: PointsTo, zero: set<Node>, r: Round) {
    r.Shaped() && r.Before() == s && r.ZeroedBefore() == zero && Ordered(D, start, r.queue, [], ToSet(r.queue))
  }

  /** What follows the given rounds: the nodes from which the next walk starts, what is
      known and which memory is zeroed. */
  ghost predicate Reached(g: Graph, D: Digraph, root: Node, s: PointsTo, zero: set<Node>, rounds: seq<Round>,
                          start: seq<Node>, t: PointsTo, zero': set<Node>)
  {
    && Schedule(g, D, root, s, zero, rounds)
    && if rounds == [] then start == [root] && t == s && zero' == zero
       else
         var r := rounds[|rounds| - 1];
         r.Shaped() && start == r.Changed() && t == r.After() && zero' == r.ZeroedAfter()
  }

  lemma OneMoreRound(g: Graph, D: Digraph, root: Node, s: PointsTo, zero: set<Node>, rounds: seq<Round>,
                     start: seq<Node>, r: Round)
    requires r.Shaped() && Reached(g, D, root, s, zero, rounds, start, r.Before(), r.ZeroedBefore())
    requires IsRound(g, r) && Ordered(D, start, r.queue, [], ToSet(r.queue))
    ensures Reached(g, D, root, s, zero, rounds + [r], r.Changed(), r.After(), r.ZeroedAfter())
  {
    hide IsRound, Ordered;
    var next := rounds + [r];
    forall i | 0 <= i < |next| ensures InTurn(g, D, root, s, zero, next, i) {
      if i < |rounds| { assert InTurn(g, D, root, s, zero, rounds, i); }
    }
  }
}
