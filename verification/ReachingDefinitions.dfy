/** A call-free procedure and what it means, on the paths of its control flow
    graph, that a definition reaches a place. */
module ReachingDefinitions {
  import opened Offsets
  import opened DisjunctiveIntervals
  import opened MemoryDefinitions

  type Block = nat

  /** Does some node of the sequence overwrite l? */
  ghost predicate Kills(nodes: map<Node, RWNode>, ns: seq<Node>, l: Loc) {
    exists i :: 0 <= i < |ns| && ns[i] in nodes && nodes[ns[i]].Strong(l)
  }

  /** The node at i writes l and nothing behind it overwrites l. */
  ghost predicate LastWrite(nodes: map<Node, RWNode>, ns: seq<Node>, i: nat, l: Loc) {
    && i < |ns| && ns[i] in nodes
    && (nodes[ns[i]].Weak(l) || nodes[ns[i]].Strong(l))
    && !Kills(nodes, ns[i + 1..], l)
  }

  ghost predicate Uses(a: RWNode, l: Loc) { exists i :: 0 <= i < |a.uses| && a.uses[i].Has(l) }

  /** n defines some byte that u uses and reaches u with it. */
  ghost predicate ReachingDef(prog: Program, u: Node, n: Node) {
    && u in prog.place && u in prog.nodes
    && prog.place[u].0 in prog.code && prog.place[u].0 in prog.preds && prog.place[u].1 <= |prog.code[prog.place[u].0]|
    && exists l: Loc :: Uses(prog.nodes[u], l) && prog.Reaches(n, prog.place[u].0, prog.place[u].1, l)
  }

  datatype Program = Program(entry: Block, preds: map<Block, seq<Block>>, code: map<Block, seq<Node>>,
                             nodes: map<Node, RWNode>, place: map<Node, (Block, nat)>)
  {
    /** Blocks and nodes are declared, the entry has no predecessors, and each
        node stands at one place. */
    ghost predicate Valid() {
      && entry in preds && preds[entry] == [] && code.Keys == preds.Keys
      && (forall b, i :: b in preds && 0 <= i < |preds[b]| ==> preds[b][i] in preds)
      && (forall b, i :: b in code && 0 <= i < |code[b]| ==> code[b][i] in nodes)
      && (forall n :: n in nodes ==> nodes[n].Proper() && nodes[n].kind == Regular)
      && (forall b, i :: b in code && 0 <= i < |code[b]| ==> code[b][i] in place && place[code[b][i]] == (b, i))
      && (forall n :: n in place ==>
            place[n].0 in code && place[n].1 < |code[place[n].0]| && code[place[n].0][place[n].1] == n)
    }

    /** A path of the control flow graph, from p[0] to its last block. */
    ghost predicate Path(p: seq<Block>) {
      && p != []
      && (forall i :: 0 <= i < |p| ==> p[i] in preds)
      && (forall i :: 0 <= i < |p| - 1 ==> p[i] in preds[p[i + 1]])
    }

    ghost predicate Reachable(b: Block) { exists n: nat :: ReachableIn(b, n) }

    ghost predicate ReachableIn(b: Block, n: nat) {
      exists p :: Path(p) && |p| == n + 1 && p[0] == entry && p[n] == b
    }

    /** n writes l in the first block of p and no block of p overwrites it. */
    ghost predicate ReachesEnd(n: Node, p: seq<Block>, l: Loc) {
      && Path(p) && p[0] in code
      && (exists i: nat :: LastWrite(nodes, code[p[0]], i, l) && code[p[0]][i] == n)
      && (forall k :: 1 <= k < |p| && p[k] in code ==> !Kills(nodes, code[p[k]], l))
    }

    /** n reaches the place before the node `at` of b with its definition of l. */
    ghost predicate Reaches(n: Node, b: Block, at: nat, l: Loc)
      requires b in code && b in preds && at <= |code[b]|
    {
      || (exists i: nat :: LastWrite(nodes, code[b][..at], i, l) && code[b][i] == n)
      || (!Kills(nodes, code[b][..at], l) && exists p :: ReachesEnd(n, p, l) && p[|p| - 1] in preds[b])
    }

    /** Accesses to one object are pairwise equal or disjoint. */
    ghost predicate EqualOrDisjoint() {
      forall c, d: DefSite, l: Loc :: Accessed(c) && Accessed(d) && c.Has(l) && d.Has(l) ==> c.Bytes() == d.Bytes()
    }

    ghost predicate Accessed(ds: DefSite) {
      exists n :: n in nodes && (ds in nodes[n].defines || ds in nodes[n].overwrites || ds in nodes[n].uses)
    }

    /** The bytes of some access. */
    ghost predicate Cell(ds: DefSite) {
      exists c: DefSite :: Accessed(c) && c.target == ds.target && c.Bytes() == ds.Bytes()
    }

    /** The accesses of a program do not tell the bytes of a cell apart. */
    lemma CellIsUniform(ds: DefSite, l: Loc, l': Loc, n: Node)
      requires EqualOrDisjoint() && Cell(ds) && ds.Has(l) && ds.Has(l') && n in nodes
      ensures nodes[n].Strong(l) <==> nodes[n].Strong(l')
      ensures nodes[n].Weak(l) <==> nodes[n].Weak(l')
    {
      var c: DefSite :| Accessed(c) && c.target == ds.target && c.Bytes() == ds.Bytes();
      forall d: DefSite | Accessed(d) ensures d.Has(l) <==> d.Has(l') {
        assert c.Has(l) && c.Has(l');
      }
      forall i | 0 <= i < |nodes[n].overwrites|
        ensures nodes[n].overwrites[i].Has(l) <==> nodes[n].overwrites[i].Has(l')
      {
        assert nodes[n].overwrites[i] in nodes[n].overwrites;
        assert Accessed(nodes[n].overwrites[i]);
      }
      forall i | 0 <= i < |nodes[n].defines| ensures nodes[n].defines[i].Has(l) <==> nodes[n].defines[i].Has(l') {
        assert nodes[n].defines[i] in nodes[n].defines;
        assert Accessed(nodes[n].defines[i]);
      }
    }

    lemma CellsOverlap(c: DefSite, d: DefSite, l: Loc, l': Loc)
      requires EqualOrDisjoint() && Cell(c) && Cell(d) && c.Has(l) && d.Has(l) && c.Has(l')
      ensures d.Has(l')
    {
      var c': DefSite :| Accessed(c') && c'.target == c.target && c'.Bytes() == c.Bytes();
      var d': DefSite :| Accessed(d') && d'.target == d.target && d'.Bytes() == d.Bytes();
      assert c'.Has(l) && d'.Has(l);
    }

    /** Walking back from b one meets no block with several predecessors. */
    ghost predicate JoinFree(b: Block) { forall p :: Path(p) && p[|p| - 1] == b ==> |preds[p[0]]| <= 1 }

    /** No block has several predecessors. */
    ghost predicate Tree() { forall b :: b in preds ==> |preds[b]| <= 1 }

    /** The first nodes of a block never overwrite bytes in front of and behind two bytes of
        an object, one next to the other, that they leave. */
    ghost predicate Gapless() {
      forall b, at: nat, t, e: nat :: b in code && at <= |code[b]| && e < UNKNOWN ==> NoGap(code[b][..at], t, e)
    }

    ghost predicate NoGap(ns: seq<Node>, t: Node, e: nat)
      requires e < UNKNOWN
    {
      forall x: Offset, y: Offset ::
        x < e && e + 1 < y && Kills(nodes, ns, Loc(t, x)) && Kills(nodes, ns, Loc(t, y)) ==>
        Kills(nodes, ns, Loc(t, e)) || Kills(nodes, ns, Loc(t, e + 1))
    }

    /** Every block is reachable from the entry. */
    ghost predicate Connected() { forall b :: b in preds ==> Reachable(b) }

    /** A single predecessor is nearer to the entry than its block. */
    ghost predicate Ranked(rank: map<Block, nat>) {
      && rank.Keys == preds.Keys
      && forall b :: b in preds && |preds[b]| == 1 && preds[b][0] in rank ==> rank[preds[b][0]] < rank[b]
    }

    ghost predicate Distance(b: Block, r: nat) {
      ReachableIn(b, r) && forall m: nat :: m < r ==> !ReachableIn(b, m)
    }

    lemma {:induction false} HasDistance(b: Block, n: nat)
      requires ReachableIn(b, n)
      ensures exists r: nat :: Distance(b, r)
    {
      if m: nat :| m < n && ReachableIn(b, m) {
        HasDistance(b, m);
      } else {
        assert Distance(b, n);
      }
    }

    ghost function DistanceOf(b: Block): (r: nat)
      requires Connected() && b in preds
      ensures Distance(b, r)
    {
      var n: nat :| ReachableIn(b, n);
      HasDistance(b, n);
      var r: nat :| Distance(b, r);
      r
    }

    /** In a connected program, the blocks with a single predecessor form no cycle. */
    lemma RankExists() returns (rank: map<Block, nat>)
      requires Valid() && Connected()
      ensures Ranked(rank)
    {
      rank := map b | b in preds :: DistanceOf(b);
      forall b | b in preds && |preds[b]| == 1 ensures DistanceOf(preds[b][0]) < DistanceOf(b) {
        var r, q := DistanceOf(b), preds[b][0];
        var p :| Path(p) && |p| == r + 1 && p[0] == entry && p[r] == b;
        assert r > 0;
        assert p[r - 1] in preds[p[r]];
        assert Path(p[..r]) && p[..r][r - 1] == q;
        assert ReachableIn(q, r - 1);
      }
    }
  }

  // ---- what a sequence of nodes leaves behind

  ghost function DefsAfter(nodes: map<Node, RWNode>, ns: seq<Node>, l: Loc): set<Node> {
    if ns == [] then {}
    else
      var k := |ns| - 1;
      var before := DefsAfter(nodes, ns[..k], l);
      if ns[k] in nodes then AfterNode(before, ns[k], nodes[ns[k]], l) else before
  }

  lemma KillsAppend(nodes: map<Node, RWNode>, x: seq<Node>, y: seq<Node>, l: Loc)
    ensures Kills(nodes, x + y, l) <==> Kills(nodes, x, l) || Kills(nodes, y, l)
  {
    if i :| 0 <= i < |x| && x[i] in nodes && nodes[x[i]].Strong(l) {
      assert (x + y)[i] == x[i];
    }
    if i :| 0 <= i < |y| && y[i] in nodes && nodes[y[i]].Strong(l) {
      assert (x + y)[|x| + i] == y[i];
    }
  }

  /** The definitions left are the last writes of the sequence. */
  lemma {:induction false} DefsAfterAreLastWrites(nodes: map<Node, RWNode>, ns: seq<Node>, l: Loc, n: Node)
    ensures n in DefsAfter(nodes, ns, l) <==> exists i: nat :: LastWrite(nodes, ns, i, l) && ns[i] == n
  {
    if ns != [] {
      var k := |ns| - 1;
      DefsAfterAreLastWrites(nodes, ns[..k], l, n);
      assert ns[k + 1..] == [];
      assert Kills(nodes, [ns[k]], l) <==> ns[k] in nodes && nodes[ns[k]].Strong(l) by {
        assert [ns[k]][0] == ns[k];
      }
      forall i: nat | i < k
        ensures LastWrite(nodes, ns, i, l) <==> LastWrite(nodes, ns[..k], i, l) && !Kills(nodes, [ns[k]], l)
      {
        assert ns[i + 1..] == ns[..k][i + 1..] + [ns[k]];
        KillsAppend(nodes, ns[..k][i + 1..], [ns[k]], l);
      }
      if i: nat :| LastWrite(nodes, ns[..k], i, l) && ns[..k][i] == n {
        assert ns[i] == n && (!Kills(nodes, [ns[k]], l) ==> LastWrite(nodes, ns, i, l));
      }
      if i: nat :| LastWrite(nodes, ns, i, l) && ns[i] == n {
        if i < k { assert LastWrite(nodes, ns[..k], i, l) && ns[..k][i] == n; }
      }
      if ns[k] == n && n in nodes && (nodes[n].Weak(l) || nodes[n].Strong(l)) {
        assert LastWrite(nodes, ns, k, l);
      }
    }
  }

  lemma {:induction false} DefsAfterAppend(nodes: map<Node, RWNode>, x: seq<Node>, y: seq<Node>, l: Loc)
    ensures DefsAfter(nodes, x + y, l) ==
      if Kills(nodes, y, l) then DefsAfter(nodes, y, l) else DefsAfter(nodes, x, l) + DefsAfter(nodes, y, l)
  {
    if y == [] {
      assert x + y == x;
    } else {
      var k := |y| - 1;
      DefsAfterAppend(nodes, x, y[..k], l);
      assert (x + y)[..|x + y| - 1] == x + y[..k];
      KillsAppend(nodes, y[..k], [y[k]], l);
      assert y == y[..k] + [y[k]];
      assert Kills(nodes, [y[k]], l) <==> y[k] in nodes && nodes[y[k]].Strong(l) by {
        assert [y[k]][0] == y[k];
      }
    }
  }

  /** Only the annotations of the nodes of the sequence matter. */
  lemma {:induction false} DefsAfterFrame(a: map<Node, RWNode>, b: map<Node, RWNode>, ns: seq<Node>, l: Loc)
    requires forall i :: 0 <= i < |ns| ==> ns[i] in a && ns[i] in b && a[ns[i]] == b[ns[i]]
    ensures DefsAfter(a, ns, l) == DefsAfter(b, ns, l)
    ensures Kills(a, ns, l) <==> Kills(b, ns, l)
  {
    if ns != [] {
      DefsAfterFrame(a, b, ns[..|ns| - 1], l);
    }
  }
}
