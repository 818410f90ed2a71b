/** The run of the counter search. */
module CounterSearchRuns {
  import opened Digraphs
  import opened CDGraphs
  import opened CounterSearches

  /** dec counts how often a counter was decremented; `once` and `twice` are the
      nodes that were dequeued at least once and twice. */
  datatype Search = Search(dec: map<Node, nat>, once: set<Node>, twice: set<Node>)

  ghost function Zero(g: Digraph, dec: map<Node, nat>): set<Node> { set v | v in g.succ && Dropped(g, dec, v) }

  ghost predicate Dropped(g: Digraph, dec: map<Node, nat>, v: Node) {
    v in dec && Succs(g, v) != {} && dec[v] >= |Succs(g, v)|
  }

  function Bit(b: bool): nat { if b then 1 else 0 }

  /** The counters of the nodes in `part` were not yet decremented for the node that
      was dequeued last. */
  ghost predicate Accounts(g: Digraph, s: Search, part: set<Node>) {
    s.dec.Keys == g.succ.Keys && forall v :: v in g.succ ==> Account(g, s, part, v)
  }

  ghost predicate Account(g: Digraph, s: Search, part: set<Node>, v: Node)
    requires v in s.dec
  {
    s.dec[v] + Bit(v in part) == |Succs(g, v) * s.once| + |Succs(g, v) * s.twice|
  }

  ghost predicate Queued(g: Digraph, T: set<Node>, s: Search, queue: seq<Node>) {
    && s.twice <= s.once <= g.succ.Keys && (forall v :: v in queue ==> v in g.succ)
    && forall v :: v in g.succ ==> Pending(T, Zero(g, s.dec), s, queue, v)
  }

  ghost predicate Pending(T: set<Node>, Z: set<Node>, s: Search, queue: seq<Node>, v: Node) {
    multiset(queue)[v] + Bit(v in s.once) + Bit(v in s.twice) == Bit(v in T) + Bit(v in Z)
  }

  ghost predicate Counters(g: Digraph, dec: map<Node, nat>, counter: map<Node, nat>) {
    dec.Keys == counter.Keys == g.succ.Keys && forall v :: v in g.succ ==> counter[v] == (|g.succ[v]| - dec[v]) % WRAP
  }

  ghost predicate Justified(g: Digraph, T: set<Node>, Z: set<Node>) {
    forall B: set<Node> :: RuleClosed(g, T, B) ==> Z <= B
  }

  ghost predicate Searching(g: Digraph, T: set<Node>, counter: map<Node, nat>, colored: set<Node>, queue: seq<Node>,
                            s: Search, part: set<Node>)
  {
    && T <= g.succ.Keys && colored == T + Zero(g, s.dec) && Counters(g, s.dec, counter)
    && Accounts(g, s, part) && Queued(g, T, s, queue) && Justified(g, T, Zero(g, s.dec))
  }

  ghost function ToSet(s: seq<Node>): set<Node> { set x | x in s }

  lemma SameNodes(succ: map<Node, seq<Node>>, pred: map<Node, seq<Node>>)
    requires Inverse(succ, pred)
    ensures pred.Keys == succ.Keys
  {
  }

  lemma SuccsSize(succ: map<Node, seq<Node>>, pred: map<Node, seq<Node>>, v: Node)
    requires Inverse(succ, pred) && v in succ
    ensures |Succs(Digraph(succ), v)| == |succ[v]|
  {
    DistinctSize(succ[v]);
    assert Succs(Digraph(succ), v) == ToSet(succ[v]);
  }

  lemma {:induction false} DistinctSize(s: seq<Node>)
    requires NoDuplicates(s)
    ensures |ToSet(s)| == |s|
  {
    if s != [] {
      var t := s[..|s| - 1];
      assert s == t + [s[|s| - 1]];
      DistinctSize(t);
      assert ToSet(s) == ToSet(t) + {s[|s| - 1]};
    }
  }

  // ---- dequeuing

  ghost function Popped(s: Search, n: Node): Search {
    if n in s.once then s.(twice := s.twice + {n}) else s.(once := s.once + {n})
  }

  lemma PopNode(succ: map<Node, seq<Node>>, pred: map<Node, seq<Node>>, T: set<Node>, counter: map<Node, nat>,
                colored: set<Node>, queue: seq<Node>, s: Search)
    requires Inverse(succ, pred) && queue != [] && Searching(Digraph(succ), T, counter, colored, queue, s, {})
    ensures var n := queue[|queue| - 1];
      && n in succ && n in pred && n in colored && n !in s.twice && (n in s.once ==> n in T)
      && Searching(Digraph(succ), T, counter, colored, queue[..|queue| - 1], Popped(s, n), ToSet(pred[n]))
  {
    hide Justified, Counters, Zero, Queued, Accounts;
    var n := queue[|queue| - 1];
    PopQueued(Digraph(succ), T, queue, s);
    PopAccounts(succ, pred, s, n);
    SameNodes(succ, pred);
  }

  lemma PopQueued(g: Digraph, T: set<Node>, queue: seq<Node>, s: Search)
    requires queue != [] && Queued(g, T, s, queue)
    ensures var n := queue[|queue| - 1];
      && n in g.succ && n in T + Zero(g, s.dec) && n !in s.twice && (n in s.once ==> n in T)
      && Queued(g, T, Popped(s, n), queue[..|queue| - 1])
  {
    hide Zero;
    var n := queue[|queue| - 1];
    var rest := queue[..|queue| - 1];
    assert queue == rest + [n];
    assert Pending(T, Zero(g, s.dec), s, queue, n);
    forall v | v in g.succ ensures Pending(T, Zero(g, s.dec), Popped(s, n), rest, v) {
      assert Pending(T, Zero(g, s.dec), s, queue, v);
    }
  }

  lemma PopAccounts(succ: map<Node, seq<Node>>, pred: map<Node, seq<Node>>, s: Search, n: Node)
    requires Inverse(succ, pred) && n in succ && Accounts(Digraph(succ), s, {}) && n !in s.twice
    ensures Accounts(Digraph(succ), Popped(s, n), ToSet(pred[n]))
  {
    var g := Digraph(succ);
    var r := Popped(s, n);
    forall v | v in g.succ ensures Account(g, r, ToSet(pred[n]), v) {
      assert Account(g, s, {}, v);
      assert g.Edge(v, n) <==> n in Succs(g, v);
      CountOne(Succs(g, v), if n in s.once then s.twice else s.once, n);
    }
  }

  lemma CountOne(S: set<Node>, o: set<Node>, n: Node)
    requires n !in o
    ensures |S * (o + {n})| == |S * o| + Bit(n in S)
  {
    assert S * (o + {n}) == if n in S then S * o + {n} else S * o;
  }

  // ---- decrementing

  function Decrement(c: nat): nat { (c - 1) % WRAP }

  ghost function Decremented(s: Search, p: Node): Search
    requires p in s.dec
  {
    s.(dec := s.dec[p := s.dec[p] + 1])
  }

  lemma DecrementCounter(g: Digraph, T: set<Node>, counter: map<Node, nat>, colored: set<Node>, queue: seq<Node>,
                         s: Search, part: set<Node>, p: Node)
    requires Narrow(g) && p in g.succ && |Succs(g, p)| == |g.succ[p]|
    requires Searching(g, T, counter, colored, queue, s, part) && p in part
    ensures p in counter && p in s.dec
    ensures var c := Decrement(counter[p]);
      if c == 0 then Searching(g, T, counter[p := c], colored + {p}, queue + [p], Decremented(s, p), part - {p})
      else Searching(g, T, counter[p := c], colored, queue, Decremented(s, p), part - {p})
  {
    hide Justified, Accounts, Queued, Zero, Dropped, Narrow;
    var r := Decremented(s, p);
    var c := Decrement(counter[p]);
    DecrementWraps(g, s, part, p);
    DecrementAccounts(g, s, part, p);
    assert Counters(g, r.dec, counter[p := c]);
    if c == 0 {
      DecrementJustified(g, T, s, queue, part, p);
      DecrementQueued(g, T, s, queue, part, p);
    } else {
      assert Zero(g, r.dec) == Zero(g, s.dec);
      SameQueue(g, T, s, r, queue);
    }
  }

  lemma DecrementAccounts(g: Digraph, s: Search, part: set<Node>, p: Node)
    requires Accounts(g, s, part) && p in part && p in g.succ
    ensures Accounts(g, Decremented(s, p), part - {p})
  {
    forall v | v in g.succ ensures Account(g, Decremented(s, p), part - {p}, v) { assert Account(g, s, part, v); }
  }

  /** The counter of p reaches 0 exactly when p has been decremented once for each successor. */
  lemma DecrementWraps(g: Digraph, s: Search, part: set<Node>, p: Node)
    requires Narrow(g) && p in g.succ && |Succs(g, p)| == |g.succ[p]| && Accounts(g, s, part) && p in part
    ensures p in s.dec && Succs(g, p) != {}
    ensures Decrement((|g.succ[p]| - s.dec[p]) % WRAP) == (|g.succ[p]| - (s.dec[p] + 1)) % WRAP
    ensures (|g.succ[p]| - (s.dec[p] + 1)) % WRAP == 0 <==> s.dec[p] + 1 == |Succs(g, p)|
    ensures var r := Decremented(s, p);
      Zero(g, r.dec) == if s.dec[p] + 1 == |Succs(g, p)| then Zero(g, s.dec) + {p} else Zero(g, s.dec)
    ensures s.dec[p] + 1 == |Succs(g, p)| ==> p !in Zero(g, s.dec)
  {
    assert Account(g, s, part, p);
    SubsetSize(Succs(g, p) * s.once, Succs(g, p));
    SubsetSize(Succs(g, p) * s.twice, Succs(g, p));
    WrapAround(|g.succ[p]|, s.dec[p]);
    hide Succs, Account, Accounts, Narrow;
  }

  lemma WrapAround(k: nat, d: nat)
    requires k < WRAP && d + 1 <= 2 * k
    ensures Decrement((k - d) % WRAP) == (k - (d + 1)) % WRAP
    ensures (k - (d + 1)) % WRAP == 0 <==> d + 1 == k
  {
  }

  lemma DecrementQueued(g: Digraph, T: set<Node>, s: Search, queue: seq<Node>, part: set<Node>, p: Node)
    requires p in g.succ && p in s.dec && Queued(g, T, s, queue)
    requires p !in Zero(g, s.dec) && Zero(g, Decremented(s, p).dec) == Zero(g, s.dec) + {p}
    ensures Queued(g, T, Decremented(s, p), queue + [p])
  {
    hide Zero;
    forall v | v in g.succ ensures Pending(T, Zero(g, Decremented(s, p).dec), Decremented(s, p), queue + [p], v) {
      assert Pending(T, Zero(g, s.dec), s, queue, v);
    }
  }

  lemma SameQueue(g: Digraph, T: set<Node>, s: Search, r: Search, queue: seq<Node>)
    requires Queued(g, T, s, queue) && r.once == s.once && r.twice == s.twice && Zero(g, r.dec) == Zero(g, s.dec)
    ensures Queued(g, T, r, queue)
  {
    hide Zero;
    forall v | v in g.succ ensures Pending(T, Zero(g, r.dec), r, queue, v) {
      assert Pending(T, Zero(g, s.dec), s, queue, v);
    }
  }

  lemma DecrementJustified(g: Digraph, T: set<Node>, s: Search, queue: seq<Node>, part: set<Node>, p: Node)
    requires p in g.succ && Accounts(g, s, part) && Queued(g, T, s, queue) && p in part && Succs(g, p) != {}
    requires p in s.dec
    requires Justified(g, T, Zero(g, s.dec)) && s.dec[p] + 1 == |Succs(g, p)|
    ensures Justified(g, T, Zero(g, s.dec) + {p})
  {
    hide Zero;
    var Z := Zero(g, s.dec);
    assert Account(g, s, part, p);
    OnceAndTwice(g, T, s, queue);
    SubsetSize(Succs(g, p) * s.once, Succs(g, p) * (T + Z));
    SubsetSize(Succs(g, p) * s.twice, Succs(g, p) * (T * Z));
    assert Fires(g, T, Z, p);
    hide Fires;
    forall B: set<Node> | RuleClosed(g, T, B) ensures Z + {p} <= B { FiresMonotone(g, T, Z, B, p); }
  }

  lemma OnceAndTwice(g: Digraph, T: set<Node>, s: Search, queue: seq<Node>)
    requires Queued(g, T, s, queue)
    ensures s.once <= T + Zero(g, s.dec) && s.twice <= T * Zero(g, s.dec)
  {
    hide Zero;
    forall v | v in s.once ensures v in T + Zero(g, s.dec) && (v in s.twice ==> v in T * Zero(g, s.dec)) {
      assert Pending(T, Zero(g, s.dec), s, queue, v);
    }
  }

  // ---- the end

  lemma Finished(g: Digraph, T: set<Node>, counter: map<Node, nat>, colored: set<Node>, s: Search)
    requires Searching(g, T, counter, colored, [], s, {})
    ensures colored == Colors(g, T) && s.once == colored && s.twice == T * Returned(g, T)
  {
    hide Counters, Fires;
    var Z := Zero(g, s.dec);
    OnceAndTwice(g, T, s, []);
    forall v | v in g.succ ensures (v in T + Z ==> v in s.once) && (v in T * Z ==> v in s.twice) {
      assert Pending(T, Z, s, [], v);
    }
    assert s.once == T + Z && s.twice == T * Z;
    forall v | Fires(g, T, Z, v) ensures v in Z {
      FiresIsNode(g, T, Z, v);
      assert Account(g, s, {}, v);
      FiresBound(g, T, Z, v);
    }
    ReturnedIsClosed(g, T);
    assert Z == Returned(g, T);
  }

  lemma FiresBound(g: Digraph, T: set<Node>, Z: set<Node>, v: Node)
    requires Fires(g, T, Z, v)
    ensures Succs(g, v) != {} && |Succs(g, v) * (T + Z)| + |Succs(g, v) * (T * Z)| >= |Succs(g, v)|
  {
  }

  lemma Start(g: Digraph, T: set<Node>, counter: map<Node, nat>, queue: seq<Node>, s: Search)
    requires T <= g.succ.Keys && counter.Keys == s.dec.Keys == g.succ.Keys && s.once == s.twice == {}
    requires forall v :: v in g.succ ==> counter[v] == |g.succ[v]| % WRAP && s.dec[v] == 0
    requires forall v :: multiset(queue)[v] == Bit(v in T)
    ensures Searching(g, T, counter, T, queue, s, {})
  {
    hide RuleClosed, Zero, Queued, Succs, Accounts;
    NoneDropped(g, s.dec);
    StartQueued(g, T, queue, s);
    NothingCounted(g, s);
  }

  lemma NothingCounted(g: Digraph, s: Search)
    requires s.dec.Keys == g.succ.Keys && s.once == s.twice == {} && forall v :: v in g.succ ==> s.dec[v] == 0
    ensures Accounts(g, s, {})
  {
    hide Succs;
    forall v | v in g.succ ensures Account(g, s, {}, v) { assert Succs(g, v) * {} == {}; }
  }

  lemma NoneDropped(g: Digraph, dec: map<Node, nat>)
    requires forall v :: v in dec ==> dec[v] == 0
    ensures Zero(g, dec) == {}
  {
  }

  lemma StartQueued(g: Digraph, T: set<Node>, queue: seq<Node>, s: Search)
    requires T <= g.succ.Keys && s.once == s.twice == Zero(g, s.dec) == {}
    requires forall v :: multiset(queue)[v] == Bit(v in T)
    ensures Queued(g, T, s, queue)
  {
    hide Zero;
    forall v | v in queue ensures v in g.succ { assert multiset(queue)[v] > 0; }
  }

  ghost predicate Dequeued(pops: seq<Node>, once: set<Node>, twice: set<Node>, v: Node) {
    multiset(pops)[v] == Bit(v in once) + Bit(v in twice)
  }

  lemma NothingDequeued(s: Search)
    requires s.once == s.twice == {}
    ensures forall v :: Dequeued([], s.once, s.twice, v)
  {
  }

  lemma CountAll(pops: seq<Node>, s: Search)
    requires forall v :: Dequeued(pops, s.once, s.twice, v)
    ensures forall v :: multiset(pops)[v] == Bit(v in s.once) + Bit(v in s.twice)
  {
    forall v ensures multiset(pops)[v] == Bit(v in s.once) + Bit(v in s.twice) {
      assert Dequeued(pops, s.once, s.twice, v);
    }
  }

  lemma CountPop(pops: seq<Node>, s: Search, n: Node)
    requires (forall v :: Dequeued(pops, s.once, s.twice, v)) && n !in s.twice
    ensures forall v :: Dequeued(pops + [n], Popped(s, n).once, Popped(s, n).twice, v)
  {
    forall v ensures Dequeued(pops + [n], Popped(s, n).once, Popped(s, n).twice, v) {
      assert Dequeued(pops, s.once, s.twice, v);
    }
  }

  /** Colour the nodes whose counters drop to 0. `pops` are the nodes in the order in
      which they are dequeued. */
  method CounterSearch(graph: CDGraph, targets: set<Node>) returns (colored: set<Node>, ghost pops: seq<Node>)
    requires graph.Valid() && Narrow(graph.G()) && targets <= graph.succ.Keys
    ensures colored == Colors(graph.G(), targets)
    ensures forall v :: multiset(pops)[v] == Bit(v in colored) + Bit(v in targets * Returned(graph.G(), targets))
  {
    hide Searching, Colors, Inverse, InOrder, Branching, Narrow, Returned, Dequeued;
    ghost var g := graph.G();
    var counter: map<Node, nat> := map v | v in graph.succ :: |graph.succ[v]| % WRAP;
    var queue: seq<Node> := [];
    colored := {};
    var todo := targets;
    while todo != {}
      invariant todo <= targets && colored == targets - todo
      invariant forall v :: multiset(queue)[v] == Bit(v in colored)
    {
      var t :| t in todo;
      colored := colored + {t};
      queue := queue + [t];
      todo := todo - {t};
    }
    pops := [];
    ghost var s := Search(map v | v in g.succ :: 0, {}, {});
    NothingDequeued(s);
    assert colored == targets;
    Start(g, targets, counter, queue, s);
    while queue != []
      invariant Searching(g, targets, counter, colored, queue, s, {})
      invariant s.once <= g.succ.Keys && s.twice <= targets
      invariant forall v :: Dequeued(pops, s.once, s.twice, v)
      decreases g.succ.Keys - s.once, targets - s.twice
    {
      PopNode(graph.succ, graph.pred, targets, counter, colored, queue, s);
      var n := queue[|queue| - 1];
      queue := queue[..|queue| - 1];
      CountPop(pops, s, n);
      pops := pops + [n];
      s := Popped(s, n);
      ghost var now := s;
      var preds, i := graph.pred[n], 0;
      assert preds[0..] == preds;
      while i < |preds|
        invariant i <= |preds| && s == now.(dec := s.dec)
        invariant Searching(g, targets, counter, colored, queue, s, ToSet(preds[i..]))
      {
        var p := preds[i];
        Predecessor(graph.succ, graph.pred, n, i);
        DecrementCounter(g, targets, counter, colored, queue, s, ToSet(preds[i..]), p);
        counter := counter[p := Decrement(counter[p])];
        s := Decremented(s, p);
        if counter[p] == 0 {
          colored := colored + {p};
          queue := queue + [p];
        }
        i := i + 1;
      }
      assert ToSet(preds[i..]) == {};
    }
    Finished(g, targets, counter, colored, s);
    CountAll(pops, s);
  }

  lemma Predecessor(succ: map<Node, seq<Node>>, pred: map<Node, seq<Node>>, n: Node, i: nat)
    requires Inverse(succ, pred) && n in pred && i < |pred[n]|
    ensures var p := pred[n][i]; p in succ && |Succs(Digraph(succ), p)| == |succ[p]|
    ensures ToSet(pred[n][i + 1..]) == ToSet(pred[n][i..]) - {pred[n][i]}
  {
    var p := pred[n][i];
    assert Digraph(succ).Edge(p, n);
    SuccsSize(succ, pred, p);
    assert pred[n][i..] == [p] + pred[n][i + 1..];
  }
}
