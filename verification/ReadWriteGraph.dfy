/** The blocks of a read-write graph and the splitting around calls. */
module ReadWriteGraph {
  import opened BlockSplitting
  import opened BlockChains

  datatype Option<T> = None | Some(value: T)

  type Edges = map<Block, seq<Block>>

  ghost predicate Distinct(s: seq<Block>) { forall i, j :: 0 <= i < j < |s| ==> s[i] != s[j] }

  /** The predecessors are the successors read backwards, each listed once. */
  ghost predicate Inverse(succ: Edges, pred: Edges) {
    && pred.Keys == succ.Keys
    && (forall u, v :: v in pred ==> (u in pred[v] <==> u in succ && v in succ[u]))
    && (forall v :: v in pred ==> Distinct(pred[v]) && Distinct(succ[v]))
  }

  /** s with b replaced by t. */
  function Redirect(s: seq<Block>, b: Block, t: Block): seq<Block> {
    seq(|s|, i requires 0 <= i < |s| => if s[i] == b then t else s[i])
  }

  lemma RedirectElements(s: seq<Block>, b: Block, t: Block)
    requires b != t
    ensures forall u :: u in Redirect(s, b, t) <==> (u in s && u != b) || (u == t && b in s)
    ensures Distinct(s) && t !in s ==> Distinct(Redirect(s, b, t))
    ensures b !in s ==> Redirect(s, b, t) == s
  {
    var r := Redirect(s, b, t);
    forall u | u in s ensures (if u == b then t else u) in r {
      var i :| 0 <= i < |s| && s[i] == u;
      assert r[i] == if u == b then t else u;
    }
  }

  /** What becomes of the predecessors when b is split into b, w and a. */
  ghost function SplitPred(pred: Edges, b: Block, hasW: bool, hasA: bool, w: Block, a: Block): Edges
    requires hasW || hasA
  {
    var t := if hasA then a else w;
    var p := map v | v in pred :: Redirect(pred[v], b, t);
    if hasW && hasA then p[w := [b]][a := [w]] else if hasW then p[w := [b]] else p[a := [b]]
  }

  lemma SplitKeepsInverse(g: CFG, pred: Edges, b: Block, k: nat, w: Block, a: Block)
    requires Splits(g, b, k, w, a) && Inverse(g.succ, pred)
    ensures Inverse(Split(g, b, k, w, a).succ, SplitPred(pred, b, k > 0, k + 1 < |g.nodes[b]|, w, a))
  {
    hide Inverse;
    var h, q := Split(g, b, k, w, a), SplitPred(pred, b, k > 0, k + 1 < |g.nodes[b]|, w, a);
    SplitKeys(g, pred, b, k, w, a);
    forall v | v in q
      ensures Distinct(q[v]) && Distinct(h.succ[v]) && forall u :: u in q[v] <==> u in h.succ && v in h.succ[u]
    {
      if v in pred { SplitOldNode(g, pred, b, k, w, a, v); } else { SplitNewNode(g, pred, b, k, w, a, v); }
    }
    hide Split, SplitPred;
    InverseFrom(h.succ, q);
  }

  lemma InverseFrom(succ: Edges, pred: Edges)
    requires pred.Keys == succ.Keys
    requires forall v :: v in pred ==> Distinct(pred[v]) && Distinct(succ[v]) && forall u :: u in pred[v] <==>
      u in succ && v in succ[u]
    ensures Inverse(succ, pred)
  {
    hide Distinct;
  }

  lemma SplitKeys(g: CFG, pred: Edges, b: Block, k: nat, w: Block, a: Block)
    requires Splits(g, b, k, w, a) && Inverse(g.succ, pred)
    ensures pred.Keys == g.succ.Keys == g.nodes.Keys
    ensures SplitPred(pred, b, k > 0, k + 1 < |g.nodes[b]|, w, a).Keys == Split(g, b, k, w, a).succ.Keys
  {
  }

  /** The predecessors of an old block. */
  lemma SplitOldNode(g: CFG, pred: Edges, b: Block, k: nat, w: Block, a: Block, v: Block)
    requires Splits(g, b, k, w, a) && Inverse(g.succ, pred) && v in pred
    ensures var h, q := Split(g, b, k, w, a), SplitPred(pred, b, k > 0, k + 1 < |g.nodes[b]|, w, a);
      v in q && v in h.succ && Distinct(q[v]) && Distinct(h.succ[v]) && forall u :: u in q[v] <==>
        u in h.succ && v in h.succ[u]
  {
    hide Redirect, Split, SplitPred, Distinct, CFG.Valid;
    var t := if k + 1 < |g.nodes[b]| then a else w;
    OldNodePred(g, pred, b, k, w, a, v);
    OldNodeSucc(g, pred, b, k, w, a, v);
    RedirectElements(pred[v], b, t);
    assert forall u :: u in pred[v] <==> u in g.succ && v in g.succ[u];
  }

  lemma OldNodePred(g: CFG, pred: Edges, b: Block, k: nat, w: Block, a: Block, v: Block)
    requires Splits(g, b, k, w, a) && Inverse(g.succ, pred) && v in pred
    ensures var q, t := SplitPred(pred, b, k > 0, k + 1 < |g.nodes[b]|, w, a), if k + 1 < |g.nodes[b]| then a else w;
      v in q && q[v] == Redirect(pred[v], b, t) && t !in pred[v] && Distinct(pred[v])
  {
    hide Redirect, Distinct;
  }

  /** The edges to an old block: those of b now leave its last piece. */
  lemma OldNodeSucc(g: CFG, pred: Edges, b: Block, k: nat, w: Block, a: Block, v: Block)
    requires Splits(g, b, k, w, a) && Inverse(g.succ, pred) && v in pred
    ensures var h, t := Split(g, b, k, w, a), if k + 1 < |g.nodes[b]| then a else w;
      && v in h.succ && Distinct(h.succ[v]) && b in g.succ && b != t
      && forall u :: u in h.succ && v in h.succ[u] <==>
           (u in g.succ && v in g.succ[u] && u != b) || (u == t && v in g.succ[b])
  {
  }

  /** The predecessor of a new block. */
  lemma SplitNewNode(g: CFG, pred: Edges, b: Block, k: nat, w: Block, a: Block, v: Block)
    requires Splits(g, b, k, w, a) && Inverse(g.succ, pred) && v !in pred
    requires v in SplitPred(pred, b, k > 0, k + 1 < |g.nodes[b]|, w, a)
    ensures var h, q := Split(g, b, k, w, a), SplitPred(pred, b, k > 0, k + 1 < |g.nodes[b]|, w, a);
      v in h.succ && Distinct(q[v]) && Distinct(h.succ[v]) && forall u :: u in q[v] <==> u in h.succ && v in h.succ[u]
  {
    hide Redirect;
    assert forall u :: u in g.succ ==> v !in g.succ[u];
  }

  /** m with empty lists for the new blocks. */
  ghost function WithNew(m: Edges, hasW: bool, hasA: bool, w: Block, a: Block): Edges {
    var n := if hasA then m[a := []] else m;
    if hasW then n[w := []] else n
  }

  class RWSubgraph {
    var nodes: map<Block, seq<Instr>>
    var succ: Edges
    var pred: Edges
    var bblocks: seq<Block>
    var unused: Block
    /** The calls that are not calls of one undefined function. */
    const calls: set<Instr>

    ghost function G(): CFG
      reads this`nodes, this`succ
    {
      CFG(nodes, succ)
    }

    ghost predicate Valid()
      reads this
    {
      && G().Valid() && Inverse(succ, pred) && (forall b :: b in nodes ==> b < unused)
      && (forall b :: b in bblocks ==> b in nodes)
    }

    constructor (nodes: map<Block, seq<Instr>>, succ: Edges, pred: Edges, bblocks: seq<Block>, unused: Block,
                 calls: set<Instr>)
      requires CFG(nodes, succ).Valid() && Inverse(succ, pred) && (forall b :: b in nodes ==> b < unused)
      requires forall b :: b in bblocks ==> b in nodes
      ensures Valid() && this.nodes == nodes && this.succ == succ && this.bblocks == bblocks && this.calls == calls
    {
      this.nodes, this.succ, this.pred := nodes, succ, pred;
      this.bblocks, this.unused, this.calls := bblocks, unused, calls;
    }

    method NewBlock(ns: seq<Instr>) returns (b: Block)
      modifies this`nodes, this`succ, this`pred, this`unused
      ensures b == old(unused) && unused == b + 1
      ensures nodes == old(nodes)[b := ns] && succ == old(succ)[b := []] && pred == old(pred)[b := []]
    {
      b := unused;
      unused := unused + 1;
      nodes, succ, pred := nodes[b := ns], succ[b := []], pred[b := []];
    }

    method AddSuccessor(b: Block, s: Block)
      requires b in succ && s in pred
      modifies this`succ, this`pred
      ensures succ == if s in old(succ[b]) then old(succ) else old(succ)[b := old(succ[b]) + [s]]
      ensures pred == if s in old(succ[b]) || b in old(pred[s]) then old(pred) else old(pred)[s := old(pred[s]) + [b]]
      ensures old(succ[b]) == [] && old(pred[s]) == [] ==> succ == old(succ)[b := [s]] && pred == old(pred)[s := [b]]
    {
      if s in succ[b] {
        return;
      }
      assert [] + [s] == [s] && [] + [b] == [b];
      succ := succ[b := succ[b] + [s]];
      if b in pred[s] {
        return;
      }
      pred := pred[s := pred[s] + [b]];
    }

    /** Let the successors of b name t as their predecessor instead. */
    method RedirectPredecessors(b: Block, t: Block)
      requires b in succ && (forall i :: 0 <= i < |succ[b]| ==> succ[b][i] in pred) && b != t
      modifies this`pred
      ensures pred.Keys == old(pred.Keys)
      ensures forall v :: v in pred ==> pred[v] == if v in succ[b] then Redirect(old(pred)[v], b, t) else old(pred)[v]
    {
      ghost var was := pred;
      var i := 0;
      while i < |succ[b]|
        invariant i <= |succ[b]| && pred.Keys == was.Keys
        invariant forall v :: v in pred ==> pred[v] == if v in succ[b][..i] then Redirect(was[v], b, t) else was[v]
      {
        var s := succ[b][i];
        assert succ[b][..i + 1] == succ[b][..i] + [s];
        RedirectElements(was[s], b, t);
        RedirectElements(Redirect(was[s], b, t), b, t);
        pred := pred[s := Redirect(pred[s], b, t)];
        i := i + 1;
      }
      assert succ[b][..i] == succ[b];
    }

    /** Create the blocks behind the first piece of b, and truncate b. */
    method MakePieces(b: Block, num: nat) returns (withnode: Option<Block>, after: Option<Block>)
      requires b in nodes && b in succ && b < unused && num < |nodes[b]| && |nodes[b]| > 1
      modifies this`nodes, this`succ, this`pred, this`unused
      ensures var (w, a) := (old(unused) + 1, old(unused));
        && withnode == (if num > 0 then Some(w) else None)
          && after == (if num + 1 < |old(nodes[b])| then Some(a) else None)
        && succ == WithNew(old(succ), num > 0, num + 1 < |old(nodes[b])|, w, a)
        && pred == WithNew(old(pred), num > 0, num + 1 < |old(nodes[b])|, w, a)
        && nodes == Split(old(G()), b, num, w, a).nodes && unused == w + 1
    {
      withnode, after := None, None;
      var ns := nodes[b];
      ghost var was := nodes;
      if num + 1 < |ns| {
        var x := NewBlock(ns[num + 1..]);
        after := Some(x);
      } else {
        unused := unused + 1;
      }
      if num > 0 {
        var x := NewBlock([ns[num]]);
        withnode := Some(x);
        nodes := nodes[b := ns[..num]];
      } else {
        unused := unused + 1;
        nodes := nodes[b := [ns[num]]];
      }
    }

    /** The last piece takes over the successors of b, and the pieces are connected. */
    method Reconnect(b: Block, withnode: Option<Block>, after: Option<Block>, ghost succ0: Edges, ghost pred0: Edges,
                     ghost w: Block, ghost a: Block)
      requires withnode.Some? || after.Some?
      requires b in succ0 && succ0.Keys == pred0.Keys && w !in succ0 && a !in succ0 && w != a && Inverse(succ0, pred0)
      requires (withnode.Some? ==> withnode.value == w) && (after.Some? ==> after.value == a)
      requires forall u, i :: u in succ0 && 0 <= i < |succ0[u]| ==> succ0[u][i] in succ0
      requires succ == WithNew(succ0, withnode.Some?, after.Some?, w, a)
      requires pred == WithNew(pred0, withnode.Some?, after.Some?, w, a)
      modifies this`succ, this`pred
      ensures succ == if withnode.Some? && after.Some? then succ0[b := [w]][w := [a]][a := succ0[b]]
        else if withnode.Some? then succ0[b := [w]][w := succ0[b]] else succ0[b := [a]][a := succ0[b]]
      ensures pred == SplitPred(pred0, b, withnode.Some?, after.Some?, w, a)
    {
      hide Redirect, Distinct, Inverse, SplitPred;
      var last := if after.Some? then after.value else withnode.value;
      ghost var p := map v | v in pred0 :: Redirect(pred0[v], b, last);
      TakeOver(b, last, withnode.Some?, after.Some?, succ0, pred0, p, w, a);
      SplitPredIs(pred0, p, b, withnode.Some?, after.Some?, w, a);
      if withnode.Some? {
        AddSuccessor(b, withnode.value);
        if after.Some? {
          AddSuccessor(withnode.value, after.value);
        }
      } else {
        AddSuccessor(b, after.value);
      }
    }

    /** t takes over the successors of b. */
    method TakeOver(b: Block, t: Block, ghost hasW: bool, ghost hasA: bool, ghost succ0: Edges, ghost pred0: Edges,
                    ghost p: Edges, ghost w: Block, ghost a: Block)
      requires hasW || hasA
      requires b in succ0 && succ0.Keys == pred0.Keys && w !in succ0 && a !in succ0 && w != a && Inverse(succ0, pred0)
      requires forall u, i :: u in succ0 && 0 <= i < |succ0[u]| ==> succ0[u][i] in succ0
      requires t == (if hasA then a else w) && p == map v | v in pred0 :: Redirect(pred0[v], b, t)
      requires succ == WithNew(succ0, hasW, hasA, w, a) && pred == WithNew(pred0, hasW, hasA, w, a)
      modifies this`succ, this`pred
      ensures pred == WithNew(p, hasW, hasA, w, a) && b in succ && succ[b] == []
      ensures succ == if hasW && hasA then succ0[w := []][a := succ0[b]][b := []] else succ0[t := succ0[b]][b := []]
    {
      hide Redirect, Distinct, Inverse, WithNew;
      TakeOverStarts(succ0, pred0, b, hasW, hasA, w, a);
      ghost var pred1 := pred;
      RedirectPredecessors(b, t);
      RedirectedIs(succ0, pred0, pred1, pred, p, b, t, hasW, hasA, w, a);
      SuccTaken(succ0, b, t, hasW, hasA, w, a);
      succ := succ[t := succ[b]][b := []];
    }

    /** Split block b before and behind a node. Numbers for two new blocks are set aside. */
    method SplitAround(b: Block, node: Instr, ghost k: nat)
      returns (withnode: Option<Block>, after: Option<Block>, ghost w: Block, ghost a: Block)
      requires Valid() && b in nodes && k < |nodes[b]| && nodes[b][k] == node && node !in nodes[b][..k]
      modifies this`nodes, this`succ, this`pred, this`unused
      ensures Valid() && bblocks == old(bblocks)
      ensures |old(nodes[b])| == 1 ==> withnode == None && after == None && nodes == old(nodes) && succ == old(succ)
      ensures |old(nodes[b])| > 1 ==> Splits(old(G()), b, k, w, a) && G() == Split(old(G()), b, k, w, a)
      ensures |old(nodes[b])| > 1 ==>
        withnode == (if k > 0 then Some(w) else None) && after == (if k + 1 < |old(nodes[b])| then Some(a) else None)
    {
      hide Inverse, SplitPred, Split, CFG.Valid;
      withnode, after, w, a := None, None, unused + 1, unused;
      if |nodes[b]| == 1 {
        return;
      }
      ghost var g, pred0 := G(), pred;
      var num := 0;
      while nodes[b][num] != node
        invariant num <= k && node !in nodes[b][..num]
        decreases k - num
      {
        num := num + 1;
      }
      assert num == k;
      SplitFacts(g, pred, b, k, w, a, unused + 2);
      withnode, after := MakePieces(b, num);
      Reconnect(b, withnode, after, g.succ, pred0, w, a);
    }

    /** Every call in block b is alone in it. */
    ghost predicate Alone(b: Block)
      reads this`nodes
    {
      b in nodes ==> CallsAlone(nodes[b], calls)
    }

    /** Split block b around its first call; the block behind the call, if there is one,
        may hold more calls. */
    method SplitBlockOnFirstCall(b: Block, newblocks: seq<Block>)
      returns (rest: Option<Block>, newblocks': seq<Block>, ghost w: Block, ghost a: Block)
      requires Valid() && b in nodes
      modifies this`nodes, this`succ, this`pred, this`unused
      ensures SplitAtFirst(old(G()), calls, b, G(), rest, w, a)
      ensures newblocks' == newblocks + NewPieces(old(G()), calls, b, w, a)
      ensures Valid() && bblocks == old(bblocks) && SameExecution(old(G()), G())
      ensures old(nodes.Keys) <= nodes.Keys && newblocks <= newblocks'
      ensures Elements(newblocks') == Elements(newblocks) + (nodes.Keys - old(nodes.Keys))
      ensures forall v :: v in old(nodes) && v != b ==> nodes[v] == old(nodes)[v]
      ensures Alone(b) && forall v :: v in nodes && v !in old(nodes) ==> Alone(v) || rest == Some(v)
      ensures rest.Some? ==> rest.value in nodes && rest.value !in old(nodes) && |nodes[rest.value]| < |old(nodes[b])|
    {
      hide Split, Executes, Inverse, CFG.Valid, SameExecution, CallsAlone, Splits, FirstCall, Pieces;
      rest, newblocks', w, a := None, newblocks, 0, 0;
      SameAsBefore(G());
      NoCallsAlone(nodes[b], calls);
      var ns, i := nodes[b], 0;
      while i < |ns|
        invariant i <= |ns| && nodes == old(nodes) && succ == old(succ) && Valid()
        invariant forall j :: 0 <= j < i ==> ns[j] !in calls
      {
        if ns[i] in calls {
          ghost var g := G();
          IsFirstCall(ns, calls, i);
          var withnode, after;
          withnode, after, w, a := SplitAround(b, ns[i], i);
          if |ns| > 1 { SplitResult(g, b, i, w, a, calls); }
          TailOfPieces(g, b, i, w, a);
          if withnode.Some? {
            newblocks' := newblocks' + [withnode.value];
          }
          if after.Some? {
            newblocks' := newblocks' + [after.value];
            rest := after;
          }
          return;
        }
        i := i + 1;
      }
      IsFirstCall(ns, calls, i);
    }

    /** Split a block around all its calls. */
    method SplitBlockOnCalls(b: Block, newblocks: seq<Block>, ghost g: CFG, ghost chains: map<Block, seq<Block>>,
                             ghost done: seq<Block>)
      returns (newblocks': seq<Block>, ghost chains': map<Block, seq<Block>>)
      requires Valid() && b in nodes && b in g.nodes && AllCut(g, G(), chains, calls, done) && SameExecution(g, G())
      modifies this`nodes, this`succ, this`pred, this`unused
      ensures Valid() && bblocks == old(bblocks) && SameExecution(g, G())
      ensures Elements(newblocks') == Elements(newblocks) + (nodes.Keys - old(nodes.Keys))
      ensures old(nodes.Keys) <= nodes.Keys && |newblocks'| - |newblocks| == |nodes| - |old(nodes)|
      ensures forall v :: v in old(nodes) && v != b ==> nodes[v] == old(nodes)[v]
      ensures forall v :: v in nodes && (v == b || v !in old(nodes)) ==> Alone(v)
      ensures AllCut(g, G(), chains', calls, done + [b])
    {
      hide SameExecution, CallsAlone, Inverse, CFG.Valid, AllCut, Cutting, SplitAtFirst, NewPieces;
      StartCutting(g, G(), chains, calls, done, b);
      var cur := Some(b);
      ghost var j := 0;
      newblocks', chains' := newblocks, chains;
      while cur.Some?
        invariant Valid() && bblocks == old(bblocks) && SameExecution(g, G()) && old(nodes.Keys) <= nodes.Keys
        invariant Elements(newblocks') == Elements(newblocks) + (nodes.Keys - old(nodes.Keys))
        invariant |newblocks'| - |newblocks| == |nodes| - |old(nodes)|
        invariant cur.Some? ==> cur.value in nodes && (cur.value == b || cur.value !in old(nodes))
        invariant forall v :: v in old(nodes) && v != b ==> nodes[v] == old(nodes)[v]
        invariant forall v :: v in nodes && (v == b || v !in old(nodes)) ==> Alone(v) || cur == Some(v)
        invariant Cutting(g, G(), chains', calls, done, b, j, cur)
        decreases if cur.Some? then |nodes[cur.value]| + 1 else 0
      {
        ghost var g1, v := G(), cur.value;
        ghost var w, a;
        cur, newblocks', w, a := SplitBlockOnFirstCall(cur.value, newblocks');
        ExecutionTransitive(g, g1, G());
        CountPieces(g1, calls, v, G(), cur, w, a);
        chains', j := CutFirst(g, g1, chains', calls, done, b, j, v, G(), cur, w, a);
      }
      CutOff(g, G(), chains', calls, done, b, j);
    }

    /** Split all blocks around calls; the new blocks are put behind the others. Each block
        becomes the chain of its pieces. */
    method SplitBBlocksOnCalls() returns (ghost chains: map<Block, seq<Block>>)
      requires Valid() && Elements(bblocks) == nodes.Keys
      modifies this
      ensures Valid() && Elements(bblocks) == nodes.Keys && old(bblocks) <= bblocks
      ensures |bblocks| == |old(bblocks)| + |nodes| - |old(nodes)|
      ensures SameExecution(old(G()), G())
      ensures forall b :: b in nodes ==> Alone(b)
      ensures Chains(old(G()), G(), chains)
      ensures forall b :: b in old(nodes) ==> Done(old(G()), G(), chains, calls, b)
    {
      hide SameExecution, CallsAlone, Inverse, CFG.Valid, Chains, Done, AllCut, AloneBut, Elements;
      ghost var g := G();
      var newblocks;
      newblocks, chains := SplitEachBlock();
      AllElements(bblocks, g.nodes.Keys);
      EverythingCut(g, G(), chains, calls, bblocks);
      AloneButNone(nodes, calls);
      AppendBlocks(newblocks);
    }

    method SplitEachBlock() returns (newblocks: seq<Block>, ghost chains: map<Block, seq<Block>>)
      requires Valid() && Elements(bblocks) == nodes.Keys
      modifies this`nodes, this`succ, this`pred, this`unused
      ensures Valid() && bblocks == old(bblocks) && SameExecution(old(G()), G())
      ensures nodes.Keys == Elements(bblocks) + Elements(newblocks) && |newblocks| == |nodes| - |old(nodes)|
      ensures AloneBut(nodes, calls, []) && AllCut(old(G()), G(), chains, calls, bblocks)
    {
      hide RWSubgraph.Valid, SameExecution, RWSubgraph.FirstSplit, AloneBut, AllCut, Elements;
      ghost var g := G();
      chains := map b | b in nodes :: [b];
      NothingSplit();
      newblocks := [];
      var i := 0;
      while i < |bblocks|
        invariant i <= |bblocks| && bblocks == old(bblocks) && FirstSplit(g, newblocks, chains, i)
      {
        newblocks, chains := SplitNextBlock(g, newblocks, chains, i);
        i := i + 1;
      }
      AllSplit(g, newblocks, chains);
    }

    /** The first i blocks have been split. */
    ghost predicate FirstSplit(g: CFG, newblocks: seq<Block>, chains: map<Block, seq<Block>>, i: nat)
      reads this
    {
      && i <= |bblocks| && Valid() && SameExecution(g, G()) && Elements(bblocks) == g.nodes.Keys
      && nodes.Keys == Elements(bblocks) + Elements(newblocks) && |newblocks| == |nodes| - |g.nodes|
      && AloneBut(nodes, calls, bblocks[i..]) && AllCut(g, G(), chains, calls, bblocks[..i])
    }

    lemma NothingSplit()
      requires Valid() && Elements(bblocks) == nodes.Keys
      ensures FirstSplit(G(), [], map b | b in nodes :: [b], 0)
    {
      hide SameExecution, CallsAlone, Inverse, CFG.Valid, AllCut, AloneBut, Elements;
      SameAsBefore(G());
      NothingCut(G(), calls);
      AloneButAll(nodes, calls, bblocks);
      NoElements();
    }

    lemma AllSplit(g: CFG, newblocks: seq<Block>, chains: map<Block, seq<Block>>)
      requires FirstSplit(g, newblocks, chains, |bblocks|)
      ensures Valid() && SameExecution(g, G()) && AloneBut(nodes, calls, []) && AllCut(g, G(), chains, calls, bblocks)
      ensures nodes.Keys == Elements(bblocks) + Elements(newblocks) && |newblocks| == |nodes| - |g.nodes|
    {
      hide SameExecution, CallsAlone, Inverse, CFG.Valid, AllCut, AloneBut, Elements;
      AllPassed(bblocks, |bblocks|);
    }

    method SplitNextBlock(ghost g: CFG, newblocks: seq<Block>, ghost chains: map<Block, seq<Block>>, i: nat)
      returns (newblocks': seq<Block>, ghost chains': map<Block, seq<Block>>)
      requires FirstSplit(g, newblocks, chains, i) && i < |bblocks|
      modifies this`nodes, this`succ, this`pred, this`unused
      ensures bblocks == old(bblocks) && FirstSplit(g, newblocks', chains', i + 1)
    {
      hide SameExecution, CallsAlone, Inverse, CFG.Valid, AllCut, AloneBut, Elements;
      ghost var was := nodes;
      IsElement(bblocks, i);
      newblocks', chains' := SplitBlockOnCalls(bblocks[i], newblocks, g, chains, bblocks[..i]);
      AloneStep(was, nodes, calls, bblocks[i], bblocks[i + 1..]);
    }

    method AppendBlocks(newblocks: seq<Block>)
      requires Valid() && Elements(newblocks) <= nodes.Keys
      modifies this`bblocks
      ensures Valid() && bblocks == old(bblocks) + newblocks
      ensures Elements(bblocks) == old(Elements(bblocks)) + Elements(newblocks)
    {
      hide Inverse, CFG.Valid;
      assert forall b :: b in newblocks ==> b in Elements(newblocks);
      bblocks := bblocks + newblocks;
    }
  }

  // ---- calls that are alone in their blocks

  ghost predicate AloneBut(nodes: map<Block, seq<Instr>>, calls: set<Instr>, rest: seq<Block>) {
    forall b :: b in nodes ==> CallsAlone(nodes[b], calls) || b in rest
  }

  lemma AloneButAll(nodes: map<Block, seq<Instr>>, calls: set<Instr>, rest: seq<Block>)
    requires Elements(rest) == nodes.Keys
    ensures AloneBut(nodes, calls, rest)
  {
    hide CallsAlone;
    forall b | b in nodes ensures b in rest { assert b in Elements(rest); }
  }

  lemma AloneButNone(nodes: map<Block, seq<Instr>>, calls: set<Instr>)
    requires AloneBut(nodes, calls, [])
    ensures forall b :: b in nodes ==> CallsAlone(nodes[b], calls)
  {
    hide CallsAlone;
  }

  lemma AloneStep(was: map<Block, seq<Instr>>, nodes: map<Block, seq<Instr>>, calls: set<Instr>, b: Block,
                  rest: seq<Block>)
    requires AloneBut(was, calls, [b] + rest) && was.Keys <= nodes.Keys
    requires forall v :: v in was && v != b ==> nodes[v] == was[v]
    requires forall v :: v in nodes && (v == b || v !in was) ==> CallsAlone(nodes[v], calls)
    ensures AloneBut(nodes, calls, rest)
  {
    hide CallsAlone;
  }

  lemma NoElements()
    ensures Elements([]) == {}
  {
  }

  lemma IsElement(s: seq<Block>, i: nat)
    requires i < |s|
    ensures s[i] in Elements(s) && s[i..] == [s[i]] + s[i + 1..] && s[..i + 1] == s[..i] + [s[i]]
  {
  }

  lemma AllPassed(s: seq<Block>, i: nat)
    requires i == |s|
    ensures s[..i] == s && s[i..] == []
  {
  }

  lemma AllElements(s: seq<Block>, keys: set<Block>)
    requires Elements(s) == keys
    ensures forall b :: b in keys <==> b in s
  {
    assert forall b :: b in s <==> b in Elements(s);
  }

  // ---- one call of a block is isolated

  /** h is g with v split around its first call, unless it has none or is that call alone. */
  ghost predicate SplitAtFirst(g: CFG, calls: set<Instr>, v: Block, h: CFG, rest: Option<Block>, w: Block, a: Block) {
    v in g.nodes
    && var s := g.nodes[v];
       if Uncut(s, calls) then h == g && rest == None
       else
         var k := FirstCall(s, calls);
         Splits(g, v, k, w, a) && h == Split(g, v, k, w, a) && rest == if k + 1 < |s| then Some(a) else None
  }

  /** The blocks that are new then. */
  ghost function NewPieces(g: CFG, calls: set<Instr>, v: Block, w: Block, a: Block): seq<Block>
    requires v in g.nodes
  {
    var s := g.nodes[v];
    if Uncut(s, calls) then [] else Pieces(g, v, FirstCall(s, calls), w, a)[1..]
  }

  lemma IsFirstCall(s: seq<Instr>, calls: set<Instr>, i: nat)
    requires i <= |s| && (forall j :: 0 <= j < i ==> s[j] !in calls) && (i < |s| ==> s[i] in calls)
    ensures FirstCall(s, calls) == i
  {
    var k := FirstCall(s, calls);
  }

  lemma TailOfPieces(g: CFG, b: Block, k: nat, w: Block, a: Block)
    requires b in g.nodes
    ensures Pieces(g, b, k, w, a)[1..] == (if k > 0 then [w] else []) + if k + 1 < |g.nodes[b]| then [a] else []
  {
  }

  lemma CountPieces(g: CFG, calls: set<Instr>, v: Block, h: CFG, rest: Option<Block>, w: Block, a: Block)
    requires SplitAtFirst(g, calls, v, h, rest, w, a)
    ensures v in g.nodes && |h.nodes| == |g.nodes| + |NewPieces(g, calls, v, w, a)|
  {
    hide FirstCall;
    var s := g.nodes[v];
    if !Uncut(s, calls) {
      var k := FirstCall(s, calls);
      TailOfPieces(g, v, k, w, a);
    }
  }

  /** While the block b is cut: the chains of the others are finished or wait, and what is
      left of b is `cur`, at place j of its chain. */
  ghost predicate Cutting(g0: CFG, g: CFG, ch: map<Block, seq<Block>>, calls: set<Instr>, done: seq<Block>, b: Block,
                          j: nat, cur: Option<Block>)
  {
    && Chains(g0, g, ch) && b in ch
    && (forall c :: c in ch && c != b ==> Waiting(g0, g, ch, calls, c))
    && (forall c :: c in done && c != b ==> c in ch && Done(g0, g, ch, calls, c))
    && if cur.Some? then Pending(g0, g, ch, calls, b, j) && j < |ch[b]| && ch[b][j] == cur.value
       else Done(g0, g, ch, calls, b)
  }

  lemma ChainStarts(g0: CFG, g: CFG, ch: map<Block, seq<Block>>, b: Block)
    requires Chains(g0, g, ch)
    ensures b in ch <==> b in g0.nodes
    ensures b in ch ==> ch[b] != [] && ch[b][0] == b
  {
    hide ChainLink, Stands;
  }

  /** The chains of the blocks of `done` are finished. */
  ghost predicate AllCut(g0: CFG, g: CFG, ch: map<Block, seq<Block>>, calls: set<Instr>, done: seq<Block>) {
    && Chains(g0, g, ch) && (forall c :: c in g0.nodes ==> Waiting(g0, g, ch, calls, c))
    && forall c :: c in done ==> Done(g0, g, ch, calls, c)
  }

  lemma NothingCut(g: CFG, calls: set<Instr>)
    requires g.Valid()
    ensures AllCut(g, g, map b | b in g.nodes :: [b], calls, [])
  {
    hide Chains, Waiting, Done;
    NothingSplit(g);
    AllWait(g, calls);
  }

  lemma EverythingCut(g0: CFG, g: CFG, ch: map<Block, seq<Block>>, calls: set<Instr>, done: seq<Block>)
    requires AllCut(g0, g, ch, calls, done)
    ensures Chains(g0, g, ch) && forall b :: b in done ==> Done(g0, g, ch, calls, b)
  {
    hide Chains, Waiting, Done;
  }

  lemma StartCutting(g0: CFG, g: CFG, ch: map<Block, seq<Block>>, calls: set<Instr>, done: seq<Block>, b: Block)
    requires AllCut(g0, g, ch, calls, done) && b in g0.nodes
    ensures Cutting(g0, g, ch, calls, done, b, 0, Some(b))
  {
    hide Done, Waiting, Pending, Chains;
    forall c ensures c in ch <==> c in g0.nodes { ChainStarts(g0, g, ch, c); }
    forall c | c in done ensures c in ch { DoneIsChain(g0, g, ch, calls, c); }
    ChainStarts(g0, g, ch, b);
    WaitingIsPending(g0, g, ch, calls, b);
  }

  lemma DoneIsChain(g0: CFG, g: CFG, ch: map<Block, seq<Block>>, calls: set<Instr>, c: Block)
    requires Done(g0, g, ch, calls, c)
    ensures c in ch && Waiting(g0, g, ch, calls, c)
  {
  }

  /** One more call is isolated. */
  lemma CutFirst(g0: CFG, g: CFG, ch: map<Block, seq<Block>>, calls: set<Instr>, done: seq<Block>, b: Block, j: nat,
                 v: Block, h: CFG, rest: Option<Block>, w: Block, a: Block)
      returns (now: map<Block, seq<Block>>, j': nat)
    requires Cutting(g0, g, ch, calls, done, b, j, Some(v)) && SplitAtFirst(g, calls, v, h, rest, w, a)
    ensures Cutting(g0, h, now, calls, done, b, j', rest)
  {
    hide Done, Waiting, Pending, Chains, Split, Pieces, FirstCall, Splits, Uncut, Replaced;
    if Uncut(g.nodes[v], calls) {
      now, j' := ch, j;
      PendingUncut(g0, g, ch, calls, b, j);
    } else {
      var k := FirstCall(g.nodes[v], calls);
      var p := Pieces(g, v, k, w, a);
      now := ch[b := Replaced(ch[b], j, p)];
      SplitChains(g0, g, ch, b, j, k, w, a);
      PendingSplit(g0, g, ch, calls, b, j, w, a);
      forall c | c in ch && c != b
        ensures Done(g0, g, ch, calls, c) ==> Done(g0, h, now, calls, c)
        ensures Waiting(g0, g, ch, calls, c) ==> Waiting(g0, h, now, calls, c)
      {
        OthersStay(g0, g, ch, calls, b, j, k, w, a, c);
      }
      LastPiece(g, v, k, w, a);
      j' := j + |p| - 1;
    }
  }

  lemma CutOff(g0: CFG, g: CFG, ch: map<Block, seq<Block>>, calls: set<Instr>, done: seq<Block>, b: Block, j: nat)
    requires Cutting(g0, g, ch, calls, done, b, j, None)
    ensures AllCut(g0, g, ch, calls, done + [b])
  {
    hide Done, Waiting, Pending, Chains;
    forall c ensures c in ch <==> c in g0.nodes { ChainStarts(g0, g, ch, c); }
    DoneIsChain(g0, g, ch, calls, b);
  }

  ghost function Elements(s: seq<Block>): set<Block> { set b | b in s }

  ghost predicate CallsAlone(s: seq<Instr>, calls: set<Instr>) {
    forall i :: 0 <= i < |s| && s[i] in calls ==> |s| == 1
  }

  /** s is executed from b in both graphs, or in none; so it is to the end. */
  ghost predicate SameFrom(g: CFG, h: CFG, b: Block, s: seq<Instr>) {
    (Executes(h, b, s) <==> Executes(g, b, s)) && (Completes(h, b, s) <==> Completes(g, b, s))
  }

  /** h has the blocks of g and executes the same from each of them. */
  ghost predicate SameExecution(g: CFG, h: CFG) {
    g.nodes.Keys <= h.nodes.Keys && forall b, s :: b in g.nodes ==> SameFrom(g, h, b, s)
  }

  lemma NoCallsAlone(s: seq<Instr>, calls: set<Instr>)
    ensures |s| == 1 || (forall i :: 0 <= i < |s| ==> s[i] !in calls) ==> CallsAlone(s, calls)
  {
  }

  lemma SameAsBefore(g: CFG)
    ensures SameExecution(g, g)
  {
  }

  lemma ExecutionTransitive(g: CFG, h: CFG, k: CFG)
    requires SameExecution(g, h) && SameExecution(h, k)
    ensures SameExecution(g, k)
  {
    hide Executes, Completes;
    forall b, s | b in g.nodes ensures SameFrom(g, k, b, s) { assert SameFrom(g, h, b, s) && SameFrom(h, k, b, s); }
  }

  lemma SplitResult(g: CFG, b: Block, k: nat, w: Block, a: Block, calls: set<Instr>)
    requires Splits(g, b, k, w, a) && forall j :: 0 <= j < k ==> g.nodes[b][j] !in calls
    ensures w !in g.nodes && a !in g.nodes && w != a
    ensures var h := Split(g, b, k, w, a); b in h.nodes && SameExecution(g, h)
    ensures Split(g, b, k, w, a).nodes.Keys ==
      g.nodes.Keys + (if k > 0 then {w} else {}) + (if k + 1 < |g.nodes[b]| then {a} else {})
    ensures var h := Split(g, b, k, w, a);
      CallsAlone(h.nodes[b], calls) && (forall v :: v in g.nodes && v != b ==> h.nodes[v] == g.nodes[v])
    ensures var h := Split(g, b, k, w, a);
      (k > 0 ==> CallsAlone(h.nodes[w], calls)) && (k + 1 < |g.nodes[b]| ==> |h.nodes[a]| < |g.nodes[b]|)
  {
    var h := Split(g, b, k, w, a);
    forall v, s | v in g.nodes ensures SameFrom(g, h, v, s) {
      SplitExecutes(g, b, k, w, a, v, s);
      SplitCompletes(g, b, k, w, a, v, s);
    }
  }

  lemma SplitFacts(g: CFG, pred: Edges, b: Block, k: nat, w: Block, a: Block, bound: nat)
    requires g.Valid() && Inverse(g.succ, pred) && b in g.nodes && k < |g.nodes[b]| && |g.nodes[b]| > 1
    requires w == a + 1 && bound == a + 2 && forall v :: v in g.nodes ==> v < a
    ensures Splits(g, b, k, w, a) && g.succ.Keys == g.nodes.Keys == pred.Keys && Split(g, b, k, w, a).Valid()
    ensures forall u, i :: u in g.succ && 0 <= i < |g.succ[u]| ==> g.succ[u][i] in g.succ
    ensures Inverse(Split(g, b, k, w, a).succ, SplitPred(pred, b, k > 0, k + 1 < |g.nodes[b]|, w, a))
    ensures g.nodes.Keys <= Split(g, b, k, w, a).nodes.Keys
    ensures forall v :: v in Split(g, b, k, w, a).nodes ==> v < bound
    ensures Split(g, b, k, w, a).succ ==
      if k > 0 && k + 1 < |g.nodes[b]| then g.succ[b := [w]][w := [a]][a := g.succ[b]]
      else if k > 0 then g.succ[b := [w]][w := g.succ[b]]
      else g.succ[b := [a]][a := g.succ[b]]
  {
    hide Inverse, SplitPred, Split;
    SplitKeepsInverse(g, pred, b, k, w, a);
    SplitValid(g, b, k, w, a);
    SplitNodes(g, b, k, w, a, bound);
    SplitSucc(g, b, k, w, a);
    InverseKeys(g.succ, pred);
  }

  lemma SplitPredIs(pred0: Edges, p: Edges, b: Block, hasW: bool, hasA: bool, w: Block, a: Block)
    requires (hasW || hasA) && w != a && p == map v | v in pred0 :: Redirect(pred0[v], b, if hasA then a else w)
    ensures var q := WithNew(p, hasW, hasA, w, a);
      SplitPred(pred0, b, hasW, hasA, w, a) ==
        if hasW && hasA then q[w := [b]][a := [w]] else if hasW then q[w := [b]] else q[a := [b]]
  {
  }

  lemma SplitSucc(g: CFG, b: Block, k: nat, w: Block, a: Block)
    requires Splits(g, b, k, w, a)
    ensures Split(g, b, k, w, a).succ ==
      if k > 0 && k + 1 < |g.nodes[b]| then g.succ[b := [w]][w := [a]][a := g.succ[b]]
      else if k > 0 then g.succ[b := [w]][w := g.succ[b]]
      else g.succ[b := [a]][a := g.succ[b]]
  {
  }

  lemma WithNewAt(m: Edges, hasW: bool, hasA: bool, w: Block, a: Block)
    requires w !in m && a !in m
    ensures var n := WithNew(m, hasW, hasA, w, a);
      && n.Keys == m.Keys + (if hasW then {w} else {}) + (if hasA then {a} else {})
      && forall v :: v in n ==> n[v] == if v in m then m[v] else []
  {
  }

  lemma TakeOverStarts(succ0: Edges, pred0: Edges, b: Block, hasW: bool, hasA: bool, w: Block, a: Block)
    requires succ0.Keys == pred0.Keys && b in succ0 && w !in succ0 && a !in succ0
    requires forall u, i :: u in succ0 && 0 <= i < |succ0[u]| ==> succ0[u][i] in succ0
    ensures var n := WithNew(succ0, hasW, hasA, w, a);
      b in n && n[b] == succ0[b] && forall i :: 0 <= i < |succ0[b]| ==> succ0[b][i] in WithNew(pred0, hasW, hasA, w, a)
  {
    hide WithNew;
    WithNewAt(succ0, hasW, hasA, w, a);
    WithNewAt(pred0, hasW, hasA, w, a);
  }

  lemma RedirectedIs(succ0: Edges, pred0: Edges, pred1: Edges, pred2: Edges, p: Edges, b: Block, t: Block, hasW: bool,
                     hasA: bool, w: Block, a: Block)
    requires b in succ0 && succ0.Keys == pred0.Keys && w !in succ0 && a !in succ0 && Inverse(succ0, pred0) && b != t
    requires forall u, i :: u in succ0 && 0 <= i < |succ0[u]| ==> succ0[u][i] in succ0
    requires pred1 == WithNew(pred0, hasW, hasA, w, a) && pred2.Keys == pred1.Keys
    requires p == map v | v in pred0 :: Redirect(pred0[v], b, t)
    requires forall v :: v in pred2 ==> pred2[v] == if v in succ0[b] then Redirect(pred1[v], b, t) else pred1[v]
    ensures pred2 == WithNew(p, hasW, hasA, w, a)
  {
    hide Redirect, WithNew, Inverse;
    WithNewAt(pred0, hasW, hasA, w, a);
    WithNewAt(p, hasW, hasA, w, a);
    NewAreOutside(succ0, w, a);
    forall v | v in pred2 ensures pred2[v] == WithNew(p, hasW, hasA, w, a)[v] { RedirectedAll(succ0, pred0, b, t); }
  }

  lemma SuccTaken(succ0: Edges, b: Block, t: Block, hasW: bool, hasA: bool, w: Block, a: Block)
    requires (hasW || hasA) && t == (if hasA then a else w) && b in succ0 && w !in succ0 && a !in succ0 && w != a
    ensures WithNew(succ0, hasW, hasA, w, a)[t := succ0[b]][b := []] ==
      if hasW && hasA then succ0[w := []][a := succ0[b]][b := []] else succ0[t := succ0[b]][b := []]
  {
  }

  lemma NewAreOutside(succ: Edges, w: Block, a: Block)
    requires w !in succ && a !in succ && forall u, i :: u in succ && 0 <= i < |succ[u]| ==> succ[u][i] in succ
    ensures forall u :: u in succ ==> w !in succ[u] && a !in succ[u]
  {
  }

  lemma InverseKeys(succ: Edges, pred: Edges)
    requires Inverse(succ, pred)
    ensures succ.Keys == pred.Keys
  {
  }

  /** Redirecting the predecessors of b's successors redirects all of them. */
  lemma RedirectedAll(succ: Edges, pred: Edges, b: Block, t: Block)
    requires Inverse(succ, pred) && b in succ && b != t
    ensures forall v :: v in pred && v !in succ[b] ==> Redirect(pred[v], b, t) == pred[v]
  {
    forall v | v in pred && v !in succ[b] ensures Redirect(pred[v], b, t) == pred[v] {
      RedirectElements(pred[v], b, t);
    }
  }

  lemma SplitNodes(g: CFG, b: Block, k: nat, w: Block, a: Block, bound: nat)
    requires Splits(g, b, k, w, a) && w < bound && a < bound && forall v :: v in g.nodes ==> v < bound
    ensures var h := Split(g, b, k, w, a); forall v :: v in h.nodes ==> v < bound
    ensures g.nodes.Keys <= Split(g, b, k, w, a).nodes.Keys
  {
  }
}
