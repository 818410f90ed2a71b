/** Splitting basic blocks around calls, and why it keeps what is executed. */
module BlockSplitting {

  type Block = nat
  type Instr = nat

  /** The nodes of each block, and its successors. */
  datatype CFG = CFG(nodes: map<Block, seq<Instr>>, succ: map<Block, seq<Block>>)
  {
    ghost predicate Valid() {
      succ.Keys == nodes.Keys && forall u, i :: u in succ && 0 <= i < |succ[u]| ==> succ[u][i] in nodes
    }

    ghost predicate Path(p: seq<Block>) {
      p != [] && (forall i :: 0 <= i < |p| ==> p[i] in nodes && p[i] in succ) && forall i :: 0 <= i < |p| - 1 ==>
        p[i + 1] in succ[p[i]]
    }
  }

  /** The nodes along a path of blocks. */
  ghost function Trace(g: CFG, p: seq<Block>): seq<Instr>
    requires forall i :: 0 <= i < |p| ==> p[i] in g.nodes
  {
    if p == [] then [] else g.nodes[p[0]] + Trace(g, p[1..])
  }

  /** s is executed at the beginning of some path from the entry. */
  ghost predicate Executes(g: CFG, entry: Block, s: seq<Instr>) {
    exists p :: g.Path(p) && p[0] == entry && s <= Trace(g, p)
  }

  /** s is executed on some path from the entry to a block without successors. */
  ghost predicate Completes(g: CFG, entry: Block, s: seq<Instr>) {
    exists p :: g.Path(p) && p[0] == entry && g.succ[p[|p| - 1]] == [] && s == Trace(g, p)
  }

  /** g with block b split around its k-th node: w gets the node unless it is the first,
      a gets what comes behind it, if anything. */
  ghost function Split(g: CFG, b: Block, k: nat, w: Block, a: Block): CFG
    requires b in g.nodes && b in g.succ && k < |g.nodes[b]| && |g.nodes[b]| > 1
  {
    var s := g.nodes[b];
    if k > 0 && k + 1 < |s| then
      CFG(g.nodes[b := s[..k]][w := [s[k]]][a := s[k + 1..]], g.succ[b := [w]][w := [a]][a := g.succ[b]])
    else if k > 0 then
      CFG(g.nodes[b := s[..k]][w := [s[k]]], g.succ[b := [w]][w := g.succ[b]])
    else
      CFG(g.nodes[b := [s[0]]][a := s[1..]], g.succ[b := [a]][a := g.succ[b]])
  }

  /** The blocks that b becomes. */
  ghost function Pieces(g: CFG, b: Block, k: nat, w: Block, a: Block): seq<Block>
    requires b in g.nodes
  {
    [b] + (if k > 0 then [w] else []) + (if k + 1 < |g.nodes[b]| then [a] else [])
  }

  ghost predicate Splits(g: CFG, b: Block, k: nat, w: Block, a: Block) {
    && g.Valid() && b in g.nodes && k < |g.nodes[b]| && |g.nodes[b]| > 1
    && w !in g.nodes && a !in g.nodes && w != a
  }

  lemma SplitValid(g: CFG, b: Block, k: nat, w: Block, a: Block)
    requires Splits(g, b, k, w, a)
    ensures Split(g, b, k, w, a).Valid()
  {
  }

  /** The pieces of b form a path that executes what b did and continues like b. */
  lemma PiecesPath(g: CFG, b: Block, k: nat, w: Block, a: Block)
    requires Splits(g, b, k, w, a)
    ensures var h, p := Split(g, b, k, w, a), Pieces(g, b, k, w, a);
      h.Path(p) && Trace(h, p) == g.nodes[b] && h.succ[p[|p| - 1]] == g.succ[b]
  {
    var h, p, s := Split(g, b, k, w, a), Pieces(g, b, k, w, a), g.nodes[b];
    if k > 0 && k + 1 < |s| {
      assert p == [b, w, a];
      TraceOfThree(h, b, w, a);
      assert s == s[..k] + ([s[k]] + s[k + 1..]);
    } else if k > 0 {
      assert p == [b, w];
      TraceOfTwo(h, b, w);
      assert s == s[..k] + [s[k]];
    } else {
      assert p == [b, a];
      TraceOfTwo(h, b, a);
      assert s == [s[0]] + s[1..];
    }
  }

  lemma TraceOfTwo(h: CFG, x: Block, y: Block)
    requires x in h.nodes && y in h.nodes
    ensures Trace(h, [x, y]) == h.nodes[x] + h.nodes[y]
  {
    var p, q: seq<Block> := [x, y], [y];
    assert p[1..] == q && q[1..] == [];
    assert Trace(h, q) == h.nodes[y] + Trace(h, []);
  }

  lemma TraceOfThree(h: CFG, x: Block, y: Block, z: Block)
    requires x in h.nodes && y in h.nodes && z in h.nodes
    ensures Trace(h, [x, y, z]) == h.nodes[x] + (h.nodes[y] + h.nodes[z])
  {
    TraceOfTwo(h, y, z);
    var p := [x, y, z];
    assert p[1..] == [y, z];
    assert Trace(h, p) == h.nodes[x] + Trace(h, p[1..]);
  }

  lemma {:induction false} TraceJoin(g: CFG, p: seq<Block>, q: seq<Block>)
    requires forall i :: 0 <= i < |p| ==> p[i] in g.nodes
    requires forall i :: 0 <= i < |q| ==> q[i] in g.nodes
    ensures Trace(g, p + q) == Trace(g, p) + Trace(g, q)
  {
    if p == [] {
      assert p + q == q;
    } else {
      TraceJoin(g, p[1..], q);
      assert (p + q)[1..] == p[1..] + q;
    }
  }

  lemma PathJoin(g: CFG, p: seq<Block>, q: seq<Block>)
    requires g.Path(p) && g.Path(q) && q[0] in g.succ[p[|p| - 1]]
    ensures g.Path(p + q) && Trace(g, p + q) == Trace(g, p) + Trace(g, q)
  {
    TraceJoin(g, p, q);
    var r := p + q;
    forall i | 0 <= i < |r| - 1 ensures r[i + 1] in g.succ[r[i]] {
      if i + 1 < |p| {
        assert r[i] == p[i] && r[i + 1] == p[i + 1];
      } else if i < |p| {
        assert r[i] == p[|p| - 1] && r[i + 1] == q[0];
      } else {
        assert r[i] == q[i - |p|] && r[i + 1] == q[i - |p| + 1];
      }
    }
  }

  lemma PathTail(g: CFG, p: seq<Block>)
    requires g.Path(p) && |p| > 1
    ensures g.Path(p[1..]) && p[1] in g.succ[p[0]] && Trace(g, p) == g.nodes[p[0]] + Trace(g, p[1..])
  {
    assert p[0 + 1] in g.succ[p[0]];
    var q := p[1..];
    forall i | 0 <= i < |q| - 1 ensures q[i + 1] in g.succ[q[i]] {
      assert q[i] == p[i + 1] && q[i + 1] == p[i + 1 + 1];
    }
  }

  /** A path of the old graph is a path of the new one, piece by piece. */
  lemma {:induction false} Expand(g: CFG, b: Block, k: nat, w: Block, a: Block, p: seq<Block>) returns (q: seq<Block>)
    requires Splits(g, b, k, w, a) && g.Path(p)
    ensures var h := Split(g, b, k, w, a);
      h.Path(q) && q[0] == p[0] && Trace(h, q) == Trace(g, p) && h.succ[q[|q| - 1]] == g.succ[p[|p| - 1]]
    decreases |p|
  {
    hide Split, Trace, Pieces;
    var h := Split(g, b, k, w, a);
    FirstOf(g, p);
    var x := p[0];
    var first := if x == b then Pieces(g, b, k, w, a) else [x];
    FirstPiece(g, b, k, w, a, x, first);
    if |p| == 1 {
      q := first;
    } else {
      PathTail(g, p);
      var rest := Expand(g, b, k, w, a, p[1..]);
      PathJoin(h, first, rest);
      q := first + rest;
      PathStarts(h, first);
    }
  }

  lemma FirstOf(g: CFG, p: seq<Block>)
    requires g.Path(p)
    ensures p != [] && p[0] in g.nodes && p[0] in g.succ && (|p| == 1 ==> Trace(g, p) == g.nodes[p[0]])
  {
    if |p| == 1 { assert p[1..] == []; }
  }

  lemma PathStarts(h: CFG, p: seq<Block>)
    requires h.Path(p)
    ensures p != []
  {
  }

  lemma FirstPiece(g: CFG, b: Block, k: nat, w: Block, a: Block, x: Block, first: seq<Block>)
    requires Splits(g, b, k, w, a) && x in g.nodes && first == if x == b then Pieces(g, b, k, w, a) else [x]
    ensures var h := Split(g, b, k, w, a);
      h.Path(first) && first[0] == x && Trace(h, first) == g.nodes[x] && h.succ[first[|first| - 1]] == g.succ[x]
  {
    if x == b { PiecesPath(g, b, k, w, a); } else { assert first[1..] == []; }
  }

  /** A path of the new graph from an old block executes the beginning of an old path, and
      the whole of one if it ends in a block without successors. */
  lemma {:induction false} Contract(g: CFG, b: Block, k: nat, w: Block, a: Block, q: seq<Block>) returns (p: seq<Block>)
    requires Splits(g, b, k, w, a) && Split(g, b, k, w, a).Path(q) && q[0] in g.nodes
    ensures g.Path(p) && p[0] == q[0] && Trace(Split(g, b, k, w, a), q) <= Trace(g, p)
    ensures Split(g, b, k, w, a).succ[q[|q| - 1]] == [] ==>
      Trace(Split(g, b, k, w, a), q) == Trace(g, p) && g.succ[p[|p| - 1]] == []
    decreases |q|
  {
    hide Split, Trace, Pieces;
    var h := Split(g, b, k, w, a);
    var x := q[0];
    SingleBlock(g, x);
    var n := Prefix(g, b, k, w, a, q);
    if n == |q| {
      p := [x];
    } else {
      var rest := Contract(g, b, k, w, a, q[n..]);
      PathJoin(g, [x], rest);
      p := [x] + rest;
      PrefixJoin(g.nodes[x], Trace(h, q[n..]), Trace(g, rest));
    }
  }

  lemma PrefixJoin(s: seq<Instr>, t: seq<Instr>, u: seq<Instr>)
    requires t <= u
    ensures s + t <= s + u
  {
  }

  lemma SingleBlock(g: CFG, x: Block)
    requires g.Valid() && x in g.nodes
    ensures g.Path([x]) && Trace(g, [x]) == g.nodes[x]
  {
    assert [x][1..] == [];
  }

  /** The path q leaves the pieces of its first block after n blocks, or ends in them. */
  lemma Prefix(g: CFG, b: Block, k: nat, w: Block, a: Block, q: seq<Block>) returns (n: nat)
    requires Splits(g, b, k, w, a) && Split(g, b, k, w, a).Path(q) && q[0] in g.nodes
    ensures 0 < n <= |q|
    ensures n == |q| ==> Trace(Split(g, b, k, w, a), q) <= g.nodes[q[0]]
    ensures n == |q| && Split(g, b, k, w, a).succ[q[n - 1]] == [] ==>
      Trace(Split(g, b, k, w, a), q) == g.nodes[q[0]] && g.succ[q[0]] == []
    ensures n < |q| ==>
      var h := Split(g, b, k, w, a);
      h.Path(q[n..]) && q[n] in g.succ[q[0]] && q[n] in g.nodes && Trace(h, q) == g.nodes[q[0]] + Trace(h, q[n..])
  {
    var h := Split(g, b, k, w, a);
    FirstOf(h, q);
    if q[0] != b {
      n := 1;
      if |q| > 1 { PathTail(h, q); }
    } else if |q| == 1 {
      n := 1;
    } else {
      n := PrefixOfPieces(g, b, k, w, a, q);
    }
  }

  lemma PrefixOfPieces(g: CFG, b: Block, k: nat, w: Block, a: Block, q: seq<Block>) returns (n: nat)
    requires Splits(g, b, k, w, a) && Split(g, b, k, w, a).Path(q) && q[0] == b && |q| > 1
    ensures 0 < n <= |q|
    ensures n == |q| ==> Trace(Split(g, b, k, w, a), q) <= g.nodes[b]
    ensures n == |q| && Split(g, b, k, w, a).succ[q[n - 1]] == [] ==>
      Trace(Split(g, b, k, w, a), q) == g.nodes[b] && g.succ[b] == []
    ensures n < |q| ==>
      var h := Split(g, b, k, w, a);
      h.Path(q[n..]) && q[n] in g.succ[b] && q[n] in g.nodes && Trace(h, q) == g.nodes[b] + Trace(h, q[n..])
  {
    var h, s := Split(g, b, k, w, a), g.nodes[b];
    FirstOf(h, q);
    PathTail(h, q);
    FirstOf(h, q[1..]);
    if |q| == 2 {
      n := 2;
    } else {
      PathTail(h, q[1..]);
      FirstOf(h, q[2..]);
      assert q[1..][1..] == q[2..];
      if k > 0 && k + 1 < |s| {
        n := 3;
        if |q| > 3 { PathTail(h, q[2..]); }
        assert q[2..][1..] == q[3..];
      } else {
        n := 2;
      }
    }
  }

  /** Splitting a block changes nothing that is executed from an old block. */
  lemma SplitExecutes(g: CFG, b: Block, k: nat, w: Block, a: Block, entry: Block, s: seq<Instr>)
    requires Splits(g, b, k, w, a) && entry in g.nodes
    ensures Executes(Split(g, b, k, w, a), entry, s) <==> Executes(g, entry, s)
  {
    hide Split, Trace;
    var h := Split(g, b, k, w, a);
    if Executes(g, entry, s) {
      var p :| g.Path(p) && p[0] == entry && s <= Trace(g, p);
      var q := Expand(g, b, k, w, a, p);
    }
    if Executes(h, entry, s) {
      var q :| h.Path(q) && q[0] == entry && s <= Trace(h, q);
      var p := Contract(g, b, k, w, a, q);
    }
  }

  /** Nor what is executed from it to the end. */
  lemma SplitCompletes(g: CFG, b: Block, k: nat, w: Block, a: Block, entry: Block, s: seq<Instr>)
    requires Splits(g, b, k, w, a) && entry in g.nodes
    ensures Completes(Split(g, b, k, w, a), entry, s) <==> Completes(g, entry, s)
  {
    hide Split, Trace;
    var h := Split(g, b, k, w, a);
    if Completes(g, entry, s) {
      var p :| g.Path(p) && p[0] == entry && g.succ[p[|p| - 1]] == [] && s == Trace(g, p);
      var q := Expand(g, b, k, w, a, p);
    }
    if Completes(h, entry, s) {
      var q :| h.Path(q) && q[0] == entry && h.succ[q[|q| - 1]] == [] && s == Trace(h, q);
      var p := Contract(g, b, k, w, a, q);
    }
  }
}
