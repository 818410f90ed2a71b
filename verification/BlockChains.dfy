/** What splitting all blocks around calls makes of them: each block becomes a chain. */
module BlockChains {
  import opened BlockSplitting

  /** The position of the first call, or |s| if there is none. */
  ghost function FirstCall(s: seq<Instr>, calls: set<Instr>): (k: nat)
    ensures k <= |s| && (forall i :: 0 <= i < k ==> s[i] !in calls) && (k < |s| ==> s[k] in calls)
  {
    if s == [] || s[0] in calls then 0 else FirstCall(s[1..], calls) + 1
  }

  /** The pieces of a block: its calls, and what is between them. */
  ghost function Cut(s: seq<Instr>, calls: set<Instr>): seq<seq<Instr>> {
    var k := FirstCall(s, calls);
    if k == |s| || |s| == 1 then [s]
    else
      (if k > 0 then [s[..k]] else []) + [[s[k]]] + if k + 1 < |s| then Cut(s[k + 1..], calls) else []
  }

  ghost predicate CallFree(s: seq<Instr>, calls: set<Instr>) { forall i :: 0 <= i < |s| ==> s[i] !in calls }

  ghost predicate SingleCall(s: seq<Instr>, calls: set<Instr>) { |s| == 1 && s[0] in calls }

  ghost function Flat(segs: seq<seq<Instr>>): seq<Instr> { if segs == [] then [] else segs[0] + Flat(segs[1..]) }

  lemma {:induction false} FlatJoin(a: seq<seq<Instr>>, b: seq<seq<Instr>>)
    ensures Flat(a + b) == Flat(a) + Flat(b)
  {
    if a == [] { assert a + b == b; } else {
      assert (a + b)[1..] == a[1..] + b;
      FlatJoin(a[1..], b);
    }
  }

  /** The pieces together are the block, which is not cut iff it is a single node or has no call. */
  lemma {:induction false} CutIsWhole(s: seq<Instr>, calls: set<Instr>)
    ensures Cut(s, calls) != [] && Flat(Cut(s, calls)) == s
    ensures |Cut(s, calls)| == 1 <==> |s| == 1 || CallFree(s, calls)
  {
    var k := FirstCall(s, calls);
    if Uncut(s, calls) {
      assert Flat([s]) == s + Flat([]);
    } else {
      CutUnfolds(s, calls, k);
      FlatFront(s, k);
      hide Cut, Flat, Front;
      if k + 1 < |s| {
        CutIsWhole(s[k + 1..], calls);
        FlatJoin(Front(s, k), Cut(s[k + 1..], calls));
      } else {
        assert Front(s, k) + [] == Front(s, k);
      }
    }
  }

  /** The block is one piece. */
  ghost predicate Uncut(s: seq<Instr>, calls: set<Instr>) { FirstCall(s, calls) == |s| || |s| == 1 }

  /** What stands in front of a call, and the call. */
  ghost function Front(s: seq<Instr>, k: nat): (r: seq<seq<Instr>>)
    requires k < |s|
    ensures |r| == if k > 0 then 2 else 1
  {
    (if k > 0 then [s[..k]] else []) + [[s[k]]]
  }

  lemma CutUnfolds(s: seq<Instr>, calls: set<Instr>, k: nat)
    requires !Uncut(s, calls) && k == FirstCall(s, calls)
    ensures k < |s| && Cut(s, calls) == Front(s, k) + if k + 1 < |s| then Cut(s[k + 1..], calls) else []
  {
  }

  lemma FlatFront(s: seq<Instr>, k: nat)
    requires k < |s|
    ensures Flat(Front(s, k)) == s[..k + 1]
  {
    var front, last: seq<seq<Instr>> := Front(s, k), [[s[k]]];
    assert last[1..] == [] && Flat(last) == [s[k]];
    if k > 0 { assert front[1..] == last; } else { assert front == last; }
  }

  /** Each piece is one call or has none, and of two pieces in a row one is a call. */
  ghost predicate Alternates(c: seq<seq<Instr>>, calls: set<Instr>) {
    && (forall i :: 0 <= i < |c| ==> SingleCall(c[i], calls) || CallFree(c[i], calls))
    && (forall i :: 0 <= i < |c| - 1 ==> SingleCall(c[i], calls) || SingleCall(c[i + 1], calls))
  }

  lemma {:induction false} CutAlternates(s: seq<Instr>, calls: set<Instr>)
    ensures Alternates(Cut(s, calls), calls)
  {
    var k := FirstCall(s, calls);
    if k < |s| && |s| != 1 {
      var front := (if k > 0 then [s[..k]] else []) + [[s[k]]];
      FrontAlternates(s, calls, k, front);
      if k + 1 < |s| {
        CutAlternates(s[k + 1..], calls);
        AlternatesJoin(front, Cut(s[k + 1..], calls), calls);
      } else {
        assert front + [] == front;
      }
    }
  }

  lemma AlternatesJoin(front: seq<seq<Instr>>, rest: seq<seq<Instr>>, calls: set<Instr>)
    requires Alternates(front, calls) && Alternates(rest, calls) && front != []
    requires SingleCall(front[|front| - 1], calls)
    ensures Alternates(front + rest, calls)
  {
    hide SingleCall, CallFree;
    var c := front + rest;
    forall i | 0 <= i < |c| ensures SingleCall(c[i], calls) || CallFree(c[i], calls) {
      if i >= |front| { assert c[i] == rest[i - |front|]; }
    }
    forall i | 0 <= i < |c| - 1 ensures SingleCall(c[i], calls) || SingleCall(c[i + 1], calls) {
      if i >= |front| { assert c[i] == rest[i - |front|] && c[i + 1] == rest[i + 1 - |front|]; }
    }
  }

  lemma FrontAlternates(s: seq<Instr>, calls: set<Instr>, k: nat, front: seq<seq<Instr>>)
    requires k < |s| && k == FirstCall(s, calls) && front == (if k > 0 then [s[..k]] else []) + [[s[k]]]
    ensures front != [] && Alternates(front, calls) && SingleCall(front[|front| - 1], calls)
  {
    assert k > 0 ==> front[0] == s[..k] && CallFree(s[..k], calls);
    assert front[|front| - 1] == [s[k]];
  }

  /** A piece is not cut any further, nor is a block without calls. */
  lemma CutOfPiece(s: seq<Instr>, calls: set<Instr>)
    requires SingleCall(s, calls) || CallFree(s, calls)
    ensures Cut(s, calls) == [s]
  {
    var k := FirstCall(s, calls);
    assert k < |s| ==> s[k] in calls;
  }

  // ---- the chains of a graph

  /** The blocks q of g, one behind the other, with the successors of the block b of g0 behind the last. */
  ghost predicate Chain(g0: CFG, g: CFG, b: Block, q: seq<Block>) {
    && q != [] && q[0] == b && b in g0.succ
    && forall i :: 0 <= i < |q| ==> ChainLink(g0, g, b, q, i)
  }

  ghost predicate ChainLink(g0: CFG, g: CFG, b: Block, q: seq<Block>, i: nat)
    requires i < |q| && b in g0.succ
  {
    q[i] in g.nodes && q[i] in g.succ && g.succ[q[i]] == if i + 1 < |q| then [q[i + 1]] else g0.succ[b]
  }

  /** What the blocks of a chain hold. */
  ghost function Held(g: CFG, q: seq<Block>): seq<seq<Instr>>
    requires forall i :: 0 <= i < |q| ==> q[i] in g.nodes
  {
    seq(|q|, i requires 0 <= i < |q| => g.nodes[q[i]])
  }

  /** Where a block of g stands: in the chain of b, at the place i. */
  ghost predicate StandsAt(ch: map<Block, seq<Block>>, v: Block, b: Block, i: nat) {
    b in ch && i < |ch[b]| && ch[b][i] == v
  }

  ghost predicate Stands(ch: map<Block, seq<Block>>, v: Block) { exists b, i: nat :: StandsAt(ch, v, b, i) }

  /** Every block of g0 has become a chain, and every block of g stands in one place of one chain. */
  ghost predicate Chains(g0: CFG, g: CFG, ch: map<Block, seq<Block>>) {
    && ch.Keys == g0.nodes.Keys
    && (forall b :: b in ch ==> Chain(g0, g, b, ch[b]))
    && (forall v :: v in g.nodes ==> Stands(ch, v))
    && forall v, b, i: nat, c, j: nat :: StandsAt(ch, v, b, i) && StandsAt(ch, v, c, j) ==> b == c && i == j
  }

  lemma NothingSplit(g: CFG)
    requires g.Valid()
    ensures Chains(g, g, map b | b in g.nodes :: [b])
  {
    var ch := map b | b in g.nodes :: [b];
    forall v | v in g.nodes ensures Stands(ch, v) { assert StandsAt(ch, v, v, 0); }
  }

  /** q with the block at place j replaced by the pieces p. */
  ghost function Replaced(q: seq<Block>, j: nat, p: seq<Block>): seq<Block>
    requires j < |q|
  {
    q[..j] + p + q[j + 1..]
  }

  lemma ChainNodes(g0: CFG, g: CFG, b: Block, q: seq<Block>)
    requires Chain(g0, g, b, q)
    ensures forall i :: 0 <= i < |q| ==> q[i] in g.nodes && q[i] in g.succ
  {
    forall i | 0 <= i < |q| ensures q[i] in g.nodes && q[i] in g.succ { assert ChainLink(g0, g, b, q, i); }
  }

  /** When a block of a chain is split, its pieces take its place. */
  lemma SplitChain(g0: CFG, g: CFG, b: Block, q: seq<Block>, j: nat, k: nat, w: Block, a: Block)
    requires Chain(g0, g, b, q) && j < |q| && Splits(g, q[j], k, w, a)
    requires forall i :: 0 <= i < |q| && i != j ==> q[i] != q[j]
    ensures var p := Pieces(g, q[j], k, w, a); Chain(g0, Split(g, q[j], k, w, a), b, Replaced(q, j, p))
  {
    var h, p := Split(g, q[j], k, w, a), Pieces(g, q[j], k, w, a);
    var r := Replaced(q, j, p);
    ChainNodes(g0, g, b, q);
    PiecesLinked(g, q[j], k, w, a);
    hide Split, Pieces, Splits;
    forall i | 0 <= i < |r| ensures ChainLink(g0, h, b, r, i) {
      if i < j {
        assert ChainLink(g0, g, b, q, i) && r[i] == q[i] && r[i + 1] == q[i + 1];
        KeptBlock(g, q[j], k, w, a, q[i]);
      } else if i >= j + |p| {
        var i' := i - |p| + 1;
        assert ChainLink(g0, g, b, q, i') && r[i] == q[i'];
        assert i + 1 < |r| ==> r[i + 1] == q[i' + 1];
        KeptBlock(g, q[j], k, w, a, q[i']);
      } else {
        assert ChainLink(g0, g, b, q, j) && r[i] == p[i - j];
        assert i + 1 < |r| && i + 1 == j + |p| ==> r[i + 1] == q[j + 1];
      }
    }
  }

  lemma KeptBlock(g: CFG, b: Block, k: nat, w: Block, a: Block, v: Block)
    requires Splits(g, b, k, w, a) && v in g.nodes && v != b
    ensures var h := Split(g, b, k, w, a);
      v in h.nodes && v in h.succ && v in g.succ && h.nodes[v] == g.nodes[v] && h.succ[v] == g.succ[v]
  {
  }

  /** The pieces of a block are linked, and the last one goes on like the block. */
  lemma PiecesLinked(g: CFG, b: Block, k: nat, w: Block, a: Block)
    requires Splits(g, b, k, w, a)
    ensures var h, p := Split(g, b, k, w, a), Pieces(g, b, k, w, a);
      && |p| > 1 && p[0] == b
      && forall i :: 0 <= i < |p| ==>
           p[i] in h.nodes && p[i] in h.succ && h.succ[p[i]] == if i + 1 < |p| then [p[i + 1]] else g.succ[b]
  {
  }

  /** The pieces hold what comes before the node, the node and what is behind it. */
  lemma PiecesHold(g: CFG, b: Block, k: nat, w: Block, a: Block)
    requires Splits(g, b, k, w, a)
    ensures var h, p, s := Split(g, b, k, w, a), Pieces(g, b, k, w, a), g.nodes[b];
      && (forall i :: 0 <= i < |p| ==> p[i] in h.nodes)
      && Held(h, p) == (if k > 0 then [s[..k]] else []) + [[s[k]]] + if k + 1 < |s| then [s[k + 1..]] else []
  {
  }

  /** Splitting a block of one chain keeps all chains. */
  lemma SplitChains(g0: CFG, g: CFG, ch: map<Block, seq<Block>>, b: Block, j: nat, k: nat, w: Block, a: Block)
    requires Chains(g0, g, ch) && b in ch && j < |ch[b]| && Splits(g, ch[b][j], k, w, a)
    ensures var v := ch[b][j];
      Chains(g0, Split(g, v, k, w, a), ch[b := Replaced(ch[b], j, Pieces(g, v, k, w, a))])
  {
    var q, v := ch[b], ch[b][j];
    var h, p := Split(g, v, k, w, a), Pieces(g, v, k, w, a);
    var r := Replaced(q, j, p);
    var now := ch[b := r];
    OncePerChain(g0, g, ch, b, j);
    SplitChain(g0, g, b, q, j, k, w, a);
    forall c | c in now ensures Chain(g0, h, c, now[c]) {
      if c != b { OtherChain(g0, g, ch, b, j, k, w, a, c); }
    }
    PlacesAfterSplit(g0, g, ch, b, j, k, w, a);
  }

  lemma OncePerChain(g0: CFG, g: CFG, ch: map<Block, seq<Block>>, b: Block, j: nat)
    requires Chains(g0, g, ch) && b in ch && j < |ch[b]|
    ensures forall i :: 0 <= i < |ch[b]| && i != j ==> ch[b][i] != ch[b][j]
    ensures forall c, i: nat :: c in ch && c != b && i < |ch[c]| ==> ch[c][i] != ch[b][j]
  {
    hide Chain;
    var v := ch[b][j];
    assert StandsAt(ch, v, b, j);
    forall i | 0 <= i < |ch[b]| && i != j ensures ch[b][i] != v { assert !StandsAt(ch, v, b, i); }
    forall c, i: nat | c in ch && c != b && i < |ch[c]| ensures ch[c][i] != v { assert !StandsAt(ch, v, c, i); }
  }

  lemma OtherChain(g0: CFG, g: CFG, ch: map<Block, seq<Block>>, b: Block, j: nat, k: nat, w: Block, a: Block, c: Block)
    requires Chains(g0, g, ch) && b in ch && j < |ch[b]| && Splits(g, ch[b][j], k, w, a) && c in ch && c != b
    ensures Chain(g0, Split(g, ch[b][j], k, w, a), c, ch[c])
  {
    OncePerChain(g0, g, ch, b, j);
    assert Chain(g0, g, c, ch[c]);
    hide Chains, Split, Splits;
    var q := ch[c];
    forall i | 0 <= i < |q| ensures ChainLink(g0, Split(g, ch[b][j], k, w, a), c, q, i) {
      assert ChainLink(g0, g, c, q, i);
      KeptBlock(g, ch[b][j], k, w, a, q[i]);
    }
  }

  /** The pieces are the only new blocks, and they stand where the block stood. */
  lemma PlacesAfterSplit(g0: CFG, g: CFG, ch: map<Block, seq<Block>>, b: Block, j: nat, k: nat, w: Block, a: Block)
    requires Chains(g0, g, ch) && b in ch && j < |ch[b]| && Splits(g, ch[b][j], k, w, a)
    ensures var v := ch[b][j];
      var h, now := Split(g, v, k, w, a), ch[b := Replaced(ch[b], j, Pieces(g, v, k, w, a))];
      && (forall x :: x in h.nodes ==> Stands(now, x))
      && forall x, c, i: nat, d, m: nat :: StandsAt(now, x, c, i) && StandsAt(now, x, d, m) ==> c == d && i == m
  {
    var q, v := ch[b], ch[b][j];
    var h, p := Split(g, v, k, w, a), Pieces(g, v, k, w, a);
    var now := ch[b := Replaced(q, j, p)];
    NewBlocks(g, v, k, w, a);
    forall x | x in h.nodes ensures Stands(now, x) {
      if x in p { PieceStands(ch, b, j, p, x); } else { OldStands(g0, g, ch, b, j, p, x); }
    }
    hide Split, Pieces;
    forall x, c, i: nat, d, m: nat | StandsAt(now, x, c, i) && StandsAt(now, x, d, m) ensures c == d && i == m {
      OnePlace(g0, g, ch, b, j, p, x, c, i, d, m);
    }
  }

  lemma NewBlocks(g: CFG, b: Block, k: nat, w: Block, a: Block)
    requires Splits(g, b, k, w, a)
    ensures var h, p := Split(g, b, k, w, a), Pieces(g, b, k, w, a);
      && (forall x :: x in h.nodes <==> x in g.nodes || x in p) && |p| > 1 && p[0] == b
      && (forall i :: 0 < i < |p| ==> p[i] !in g.nodes) && (forall i, m :: 0 <= i < m < |p| ==> p[i] != p[m])
  {
  }

  lemma PieceStands(ch: map<Block, seq<Block>>, b: Block, j: nat, p: seq<Block>, x: Block)
    requires b in ch && j < |ch[b]| && x in p
    ensures Stands(ch[b := Replaced(ch[b], j, p)], x)
  {
    var i :| 0 <= i < |p| && p[i] == x;
    assert StandsAt(ch[b := Replaced(ch[b], j, p)], x, b, j + i);
  }

  lemma OldStands(g0: CFG, g: CFG, ch: map<Block, seq<Block>>, b: Block, j: nat, p: seq<Block>, x: Block)
    requires Chains(g0, g, ch) && b in ch && j < |ch[b]| && p != [] && p[0] == ch[b][j] && x in g.nodes && x !in p
    ensures Stands(ch[b := Replaced(ch[b], j, p)], x)
  {
    hide Chain;
    var now := ch[b := Replaced(ch[b], j, p)];
    var c, i: nat :| StandsAt(ch, x, c, i);
    if c != b {
      assert StandsAt(now, x, c, i);
    } else if i < j {
      assert StandsAt(now, x, b, i);
    } else {
      assert i != j;
      assert StandsAt(now, x, b, i + |p| - 1);
    }
  }

  /** Where the block at a place of the new chains stood before, unless it is a new piece. */
  ghost function PlaceBefore(b: Block, j: nat, n: nat, c: Block, i: nat): (r: int) {
    if c != b || i <= j then i else if i < j + n then -1 else i - n + 1
  }

  lemma OnePlace(g0: CFG, g: CFG, ch: map<Block, seq<Block>>, b: Block, j: nat, p: seq<Block>, x: Block, c: Block,
                 i: nat, d: Block, m: nat)
    requires Chains(g0, g, ch) && b in ch && j < |ch[b]| && |p| > 1 && p[0] == ch[b][j]
    requires forall i :: 0 < i < |p| ==> p[i] !in g.nodes
    requires forall i, m :: 0 <= i < m < |p| ==> p[i] != p[m]
    requires var now := ch[b := Replaced(ch[b], j, p)]; StandsAt(now, x, c, i) && StandsAt(now, x, d, m)
    ensures c == d && i == m
  {
    StoodBefore(g0, g, ch, b, j, p, x, c, i);
    StoodBefore(g0, g, ch, b, j, p, x, d, m);
    hide Chain;
    if x in g.nodes {
      assert StandsAt(ch, x, c, PlaceBefore(b, j, |p|, c, i)) && StandsAt(ch, x, d, PlaceBefore(b, j, |p|, d, m));
    }
  }

  lemma StoodBefore(g0: CFG, g: CFG, ch: map<Block, seq<Block>>, b: Block, j: nat, p: seq<Block>, x: Block, c: Block,
                    i: nat)
    requires Chains(g0, g, ch) && b in ch && j < |ch[b]| && |p| > 1 && p[0] == ch[b][j]
    requires forall i :: 0 < i < |p| ==> p[i] !in g.nodes
    requires StandsAt(ch[b := Replaced(ch[b], j, p)], x, c, i)
    ensures var n := PlaceBefore(b, j, |p|, c, i);
      if n < 0 then x !in g.nodes && c == b && j < i < j + |p| && x == p[i - j]
      else x in g.nodes && StandsAt(ch, x, c, n)
  {
    var n := PlaceBefore(b, j, |p|, c, i);
    if n >= 0 {
      assert StandsAt(ch, x, c, n);
      assert Chain(g0, g, c, ch[c]);
      ChainNodes(g0, g, c, ch[c]);
    }
  }

  // ---- how far a block is cut

  ghost predicate Present(g: CFG, q: seq<Block>) { forall i :: 0 <= i < |q| ==> q[i] in g.nodes }

  /** The chain of b holds the pieces of b. */
  ghost predicate Done(g0: CFG, g: CFG, ch: map<Block, seq<Block>>, calls: set<Instr>, b: Block) {
    b in ch && b in g0.nodes && Present(g, ch[b]) && Held(g, ch[b]) == Cut(g0.nodes[b], calls)
  }

  /** It does when the block at place j of the chain is cut, too. */
  ghost predicate Pending(g0: CFG, g: CFG, ch: map<Block, seq<Block>>, calls: set<Instr>, b: Block, j: nat) {
    && b in ch && b in g0.nodes && Present(g, ch[b]) && j < |ch[b]|
    && Cut(g0.nodes[b], calls) == Held(g, ch[b])[..j] + Cut(g.nodes[ch[b][j]], calls) + Held(g, ch[b])[j + 1..]
  }

  ghost predicate Waiting(g0: CFG, g: CFG, ch: map<Block, seq<Block>>, calls: set<Instr>, b: Block) {
    Done(g0, g, ch, calls, b) || Pending(g0, g, ch, calls, b, 0)
  }

  lemma AllWait(g: CFG, calls: set<Instr>)
    requires g.Valid()
    ensures var ch := map b | b in g.nodes :: [b]; forall b :: b in g.nodes ==> Waiting(g, g, ch, calls, b)
  {
    var ch := map b | b in g.nodes :: [b];
    forall b | b in g.nodes ensures Pending(g, g, ch, calls, b, 0) {
      assert ch[b] == [b] && Held(g, [b])[..0] == [] && Held(g, [b])[1..] == [];
    }
  }

  lemma WaitingIsPending(g0: CFG, g: CFG, ch: map<Block, seq<Block>>, calls: set<Instr>, b: Block)
    requires Waiting(g0, g, ch, calls, b) && ch[b] != []
    ensures Pending(g0, g, ch, calls, b, 0)
  {
    if Done(g0, g, ch, calls, b) {
      var c := Cut(g0.nodes[b], calls);
      CutAlternates(g0.nodes[b], calls);
      CutOfPiece(c[0], calls);
      hide Cut;
      assert c == [] + [c[0]] + c[1..];
    }
  }

  lemma PendingUncut(g0: CFG, g: CFG, ch: map<Block, seq<Block>>, calls: set<Instr>, b: Block, j: nat)
    requires Pending(g0, g, ch, calls, b, j) && Uncut(g.nodes[ch[b][j]], calls)
    ensures Done(g0, g, ch, calls, b)
  {
    var q := ch[b];
    var h := Held(g, q);
    assert Cut(g.nodes[q[j]], calls) == [h[j]];
    hide Cut;
    assert h == h[..j] + [h[j]] + h[j + 1..];
  }

  lemma HeldReplaced(g: CFG, h: CFG, q: seq<Block>, j: nat, p: seq<Block>)
    requires Present(g, q) && j < |q| && Present(h, p)
    requires forall i :: 0 <= i < |q| && i != j ==> q[i] in h.nodes && h.nodes[q[i]] == g.nodes[q[i]]
    ensures Present(h, Replaced(q, j, p))
    ensures Held(h, Replaced(q, j, p)) == Held(g, q)[..j] + Held(h, p) + Held(g, q)[j + 1..]
  {
    var r := Replaced(q, j, p);
    forall i | 0 <= i < |r| ensures r[i] in h.nodes {
      if i >= j + |p| { assert r[i] == q[i - |p| + 1]; }
    }
    var left, right := Held(h, r), Held(g, q)[..j] + Held(h, p) + Held(g, q)[j + 1..];
    forall i | 0 <= i < |r| ensures left[i] == right[i] {
      if i >= j + |p| { assert r[i] == q[i - |p| + 1] && right[i] == Held(g, q)[i - |p| + 1]; }
    }
  }

  /** After the first call of the block at place j was isolated. */
  lemma PendingSplit(g0: CFG, g: CFG, ch: map<Block, seq<Block>>, calls: set<Instr>, b: Block, j: nat, w: Block,
                     a: Block)
    requires Chains(g0, g, ch) && Pending(g0, g, ch, calls, b, j)
    requires var v := ch[b][j]; !Uncut(g.nodes[v], calls) && Splits(g, v, FirstCall(g.nodes[v], calls), w, a)
    ensures var v := ch[b][j];
      var k := FirstCall(g.nodes[v], calls);
      var h, p := Split(g, v, k, w, a), Pieces(g, v, k, w, a);
      var now, last := ch[b := Replaced(ch[b], j, p)], j + |p| - 1;
      if k + 1 < |g.nodes[v]| then last < |now[b]| && now[b][last] == a && Pending(g0, h, now, calls, b, last)
      else Done(g0, h, now, calls, b)
  {
    hide Cut, Split, Pieces, Chains, FirstCall, Front, Done;
    var q, v := ch[b], ch[b][j];
    var s := g.nodes[v];
    var k := FirstCall(s, calls);
    var h, p := Split(g, v, k, w, a), Pieces(g, v, k, w, a);
    var now, last := ch[b := Replaced(q, j, p)], j + |p| - 1;
    var front, left, right := Front(s, k), Held(g, q)[..j], Held(g, q)[j + 1..];
    HeldAfterSplit(g0, g, ch, b, j, k, w, a);
    CutUnfolds(s, calls, k);
    LastPiece(g, v, k, w, a);
    if k + 1 < |s| {
      JoinPending(left, front, s[k + 1..], Cut(s[k + 1..], calls), right, Held(h, now[b]), last);
      StillPending(g0, h, now, calls, b, last, s[k + 1..]);
    } else {
      assert front + [] == front;
      NowDone(g0, h, now, calls, b);
    }
  }

  lemma StillPending(g0: CFG, h: CFG, now: map<Block, seq<Block>>, calls: set<Instr>, b: Block, last: nat,
                     rest: seq<Instr>)
    requires b in now && b in g0.nodes && Present(h, now[b]) && last < |now[b]| && h.nodes[now[b][last]] == rest
    requires Cut(g0.nodes[b], calls) == Held(h, now[b])[..last] + Cut(rest, calls) + Held(h, now[b])[last + 1..]
    ensures Pending(g0, h, now, calls, b, last)
  {
    hide Cut;
  }

  lemma NowDone(g0: CFG, h: CFG, now: map<Block, seq<Block>>, calls: set<Instr>, b: Block)
    requires b in now && b in g0.nodes && Present(h, now[b]) && Held(h, now[b]) == Cut(g0.nodes[b], calls)
    ensures Done(g0, h, now, calls, b)
  {
    hide Cut;
  }

  lemma HeldAfterSplit(g0: CFG, g: CFG, ch: map<Block, seq<Block>>, b: Block, j: nat, k: nat, w: Block, a: Block)
    requires Chains(g0, g, ch) && b in ch && Present(g, ch[b]) && j < |ch[b]| && Splits(g, ch[b][j], k, w, a)
    ensures var q, v := ch[b], ch[b][j];
      var h, r, s := Split(g, v, k, w, a), Replaced(q, j, Pieces(g, v, k, w, a)), g.nodes[v];
      Present(h, r) && Held(h, r) ==
        Held(g, q)[..j] + (Front(s, k) + if k + 1 < |s| then [s[k + 1..]] else []) + Held(g, q)[j + 1..]
  {
    var q, v := ch[b], ch[b][j];
    var h, p := Split(g, v, k, w, a), Pieces(g, v, k, w, a);
    OncePerChain(g0, g, ch, b, j);
    forall i | 0 <= i < |q| && i != j ensures q[i] in h.nodes && h.nodes[q[i]] == g.nodes[q[i]] {
      KeptBlock(g, v, k, w, a, q[i]);
    }
    PiecesHold(g, v, k, w, a);
    hide Split, Pieces, Chains;
    HeldReplaced(g, h, q, j, p);
  }

  lemma LastPiece(g: CFG, b: Block, k: nat, w: Block, a: Block)
    requires Splits(g, b, k, w, a)
    ensures var h, p, s := Split(g, b, k, w, a), Pieces(g, b, k, w, a), g.nodes[b];
      |p| > 0 && (k + 1 < |s| ==>
                    |p| == (if k > 0 then 3 else 2) && p[|p| - 1] == a && a in h.nodes && h.nodes[a] == s[k + 1..])
  {
  }

  lemma JoinPending(left: seq<seq<Instr>>, front: seq<seq<Instr>>, rest: seq<Instr>, cut: seq<seq<Instr>>,
                    right: seq<seq<Instr>>, held: seq<seq<Instr>>, last: nat)
    requires held == left + (front + [rest]) + right && last == |left| + |front|
    ensures last < |held| && held[..last] + cut + held[last + 1..] == left + (front + cut) + right
  {
    assert held[..last] == left + front && held[last + 1..] == right;
  }

  /** Other chains stay as they are. */
  lemma OthersStay(g0: CFG, g: CFG, ch: map<Block, seq<Block>>, calls: set<Instr>, b: Block, j: nat, k: nat, w: Block,
                   a: Block, c: Block)
    requires Chains(g0, g, ch) && b in ch && j < |ch[b]| && Splits(g, ch[b][j], k, w, a) && c in ch && c != b
    ensures var v := ch[b][j];
      var h, now := Split(g, v, k, w, a), ch[b := Replaced(ch[b], j, Pieces(g, v, k, w, a))];
      && (Done(g0, g, ch, calls, c) ==> Done(g0, h, now, calls, c))
      && (Waiting(g0, g, ch, calls, c) ==> Waiting(g0, h, now, calls, c))
  {
    var v := ch[b][j];
    var h, q := Split(g, v, k, w, a), ch[c];
    OncePerChain(g0, g, ch, b, j);
    assert Chain(g0, g, c, q);
    ChainNodes(g0, g, c, q);
    forall i | 0 <= i < |q| ensures q[i] in h.nodes && h.nodes[q[i]] == g.nodes[q[i]] {
      KeptBlock(g, v, k, w, a, q[i]);
    }
    hide Cut, Split, Pieces, Chains, Chain;
    assert Held(h, q) == Held(g, q);
  }
}
