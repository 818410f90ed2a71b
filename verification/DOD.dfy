/** Decisive order dependence on a cycle with blue and red nodes. */
module DecisiveOrder {
  import opened Digraphs
  import opened ControlDependences

  datatype Option<T> = None | Some(value: T)

  /** The next node on the cycle. */
  function Next(next: map<Node, Node>, v: Node): Node { if v in next then next[v] else v }

  ghost function Walk(next: map<Node, Node>, v: Node, k: nat): Node {
    if k == 0 then v else Next(next, Walk(next, v, k - 1))
  }

  /** Walking from v one meets x before y. */
  ghost predicate Precedes(next: map<Node, Node>, v: Node, x: Node, y: Node) {
    exists k: nat :: MeetsFirst(next, v, x, y, k)
  }

  ghost predicate MeetsFirst(next: map<Node, Node>, v: Node, x: Node, y: Node, k: nat) {
    Walk(next, v, k) == x && forall j: nat :: j <= k ==> Walk(next, v, j) != y
  }

  /** x comes before y from every blue node, and y before x from every red one. */
  ghost predicate Dod(next: map<Node, Node>, blues: set<Node>, reds: set<Node>, x: Node, y: Node) {
    && x in next && y in next
    && (forall b :: b in blues ==> Precedes(next, b, x, y))
    && (forall r :: r in reds ==> Precedes(next, r, y, x))
  }

  ghost predicate Distinct(s: seq<Node>) { forall i, j :: 0 <= i < j < |s| ==> s[i] != s[j] }

  /** c lists the nodes in the order of the walk; the last one leads back to the first. */
  ghost predicate Cycle(next: map<Node, Node>, c: seq<Node>) {
    && c != [] && Distinct(c) && (forall v :: v in next <==> v in c)
    && (forall k :: 0 <= k < |c| - 1 ==> Next(next, c[k]) == c[k + 1])
    && Next(next, c[|c| - 1]) == c[0]
  }

  lemma NextOnCycle(next: map<Node, Node>, c: seq<Node>, k: nat)
    requires Cycle(next, c) && k < |c|
    ensures c[k] in next && Next(next, c[k]) == if k + 1 < |c| then c[k + 1] else c[0]
  {
  }

  ghost predicate Colored(next: map<Node, Node>, blues: set<Node>, reds: set<Node>) {
    blues <= next.Keys && reds <= next.Keys && blues !! reds && blues != {} && reds != {}
  }

  lemma Rotate(next: map<Node, Node>, c: seq<Node>, v: Node) returns (r: seq<Node>)
    requires Cycle(next, c) && v in next
    ensures Cycle(next, r) && r[0] == v
  {
    var i :| 0 <= i < |c| && c[i] == v;
    r := c[i..] + c[..i];
    RotatedElements(c, i);
    RotatedDistinct(c, i);
    RotatedSteps(next, c, i);
  }

  ghost function Turned(c: seq<Node>, i: nat, k: nat): Node
    requires i < |c| && k < |c|
  {
    if i + k < |c| then c[i + k] else c[i + k - |c|]
  }

  lemma RotatedAt(c: seq<Node>, i: nat)
    requires i < |c|
    ensures var r := c[i..] + c[..i]; |r| == |c| && forall k :: 0 <= k < |c| ==> r[k] == Turned(c, i, k)
  {
  }

  lemma RotatedElements(c: seq<Node>, i: nat)
    requires i < |c|
    ensures var r := c[i..] + c[..i]; forall u :: u in r <==> u in c
  {
    assert c == c[..i] + c[i..];
  }

  lemma RotatedDistinct(c: seq<Node>, i: nat)
    requires Distinct(c) && i < |c|
    ensures Distinct(c[i..] + c[..i])
  {
    RotatedAt(c, i);
    var r := c[i..] + c[..i];
    forall j, k | 0 <= j < k < |r| ensures r[j] != r[k] { assert r[j] == Turned(c, i, j) && r[k] == Turned(c, i, k); }
  }

  lemma RotatedSteps(next: map<Node, Node>, c: seq<Node>, i: nat)
    requires Cycle(next, c) && i < |c|
    ensures var r := c[i..] + c[..i];
      (forall k :: 0 <= k < |r| - 1 ==> Next(next, r[k]) == r[k + 1]) && Next(next, r[|r| - 1]) == r[0]
  {
    hide Next, Distinct;
    RotatedAt(c, i);
    var r := c[i..] + c[..i];
    forall k | 0 <= k < |r| - 1 ensures Next(next, r[k]) == r[k + 1] {
      assert r[k] == Turned(c, i, k) && r[k + 1] == Turned(c, i, k + 1);
    }
    assert r[|r| - 1] == Turned(c, i, |c| - 1);
  }

  // ---- positions on the cycle

  /** Steps from position i to position a of n. */
  ghost function Steps(n: nat, i: int, a: int): int { if a >= i then a - i else a - i + n }

  lemma {:induction false} WalkPosition(next: map<Node, Node>, c: seq<Node>, i: nat, k: nat)
    requires Cycle(next, c) && i < |c| && k < |c|
    ensures Walk(next, c[i], k) == if i + k < |c| then c[i + k] else c[i + k - |c|]
  {
    if k > 0 { WalkPosition(next, c, i, k - 1); }
  }

  lemma PrecedesIff(next: map<Node, Node>, c: seq<Node>, i: nat, a: nat, e: nat)
    requires Cycle(next, c) && i < |c| && a < |c| && e < |c| && a != e
    ensures Precedes(next, c[i], c[a], c[e]) <==> Steps(|c|, i, a) < Steps(|c|, i, e)
  {
    var k := StepsTo(next, c, i, a);
    var m := StepsTo(next, c, i, e);
    hide Walk, Steps;
    if k < m {
      forall j: nat | j <= k ensures Walk(next, c[i], j) != c[e] { EarlierStep(next, c, i, e, j); }
      assert MeetsFirst(next, c[i], c[a], c[e], k);
    }
    if Precedes(next, c[i], c[a], c[e]) {
      var j: nat :| MeetsFirst(next, c[i], c[a], c[e], j);
      if j < |c| { EarlierStep(next, c, i, a, j); }
    }
  }

  /** So many steps lead from position i to a. */
  lemma StepsTo(next: map<Node, Node>, c: seq<Node>, i: nat, a: nat) returns (k: nat)
    requires Cycle(next, c) && i < |c| && a < |c|
    ensures k == Steps(|c|, i, a) < |c| && Walk(next, c[i], k) == c[a]
  {
    k := Steps(|c|, i, a);
    WalkPosition(next, c, i, k);
  }

  /** And no fewer. */
  lemma EarlierStep(next: map<Node, Node>, c: seq<Node>, i: nat, a: nat, j: nat)
    requires Cycle(next, c) && i < |c| && a < |c| && j < |c|
    ensures Walk(next, c[i], j) == c[a] <==> j == Steps(|c|, i, a)
  {
    WalkPosition(next, c, i, j);
    hide Walk;
  }

  lemma NeverBeforeItself(next: map<Node, Node>, v: Node, x: Node)
    ensures !Precedes(next, v, x, x)
  {
  }

  /** First and last colours in walking order from a blue node at position 0: b2 is the
      last blue before the first red r1, r2 the last red before the next blue b3. */
  ghost predicate Landmarks(c: seq<Node>, blues: set<Node>, reds: set<Node>, b2: nat, r1: nat, r2: nat, b3: nat) {
    && 0 <= b2 < r1 <= r2 < b3 <= |c|
    && c[0] in blues && c[b2] in blues && c[r1] in reds && c[r2] in reds && (b3 < |c| ==> c[b3] in blues)
    && (forall k :: 0 <= k < r1 ==> c[k] !in reds) && (forall k :: b2 < k < r1 ==> c[k] !in blues)
    && (forall k :: r1 <= k < b3 ==> c[k] !in blues) && (forall k :: r2 < k < b3 ==> c[k] !in reds)
  }

  /** From position i one comes to a before e if it is blue, and to e before a if it is red. */
  ghost predicate Arranged(c: seq<Node>, blues: set<Node>, reds: set<Node>, a: nat, e: nat, i: nat)
    requires i < |c|
  {
    && (c[i] in blues ==> Steps(|c|, i, a) < Steps(|c|, i, e))
    && (c[i] in reds ==> Steps(|c|, i, e) < Steps(|c|, i, a))
  }

  ghost predicate AllArranged(c: seq<Node>, blues: set<Node>, reds: set<Node>, a: nat, e: nat) {
    forall i :: 0 <= i < |c| ==> Arranged(c, blues, reds, a, e, i)
  }

  lemma DodArranged(next: map<Node, Node>, c: seq<Node>, blues: set<Node>, reds: set<Node>, a: nat, e: nat)
    requires Cycle(next, c) && Colored(next, blues, reds) && a < |c| && e < |c|
    ensures Dod(next, blues, reds, c[a], c[e]) <==> AllArranged(c, blues, reds, a, e)
  {
    hide Precedes, Walk, Next, Steps;
    if a == e {
      var b :| b in blues;
      var i :| 0 <= i < |c| && c[i] == b;
      NeverBeforeItself(next, b, c[a]);
      assert !Arranged(c, blues, reds, a, e, i);
    } else {
      forall i | 0 <= i < |c|
        ensures Precedes(next, c[i], c[a], c[e]) <==> Steps(|c|, i, a) < Steps(|c|, i, e)
        ensures Precedes(next, c[i], c[e], c[a]) <==> Steps(|c|, i, e) < Steps(|c|, i, a)
      {
        PrecedesIff(next, c, i, a, e);
        PrecedesIff(next, c, i, e, a);
      }
      hide Distinct;
      if AllArranged(c, blues, reds, a, e) { ArrangedDod(next, c, blues, reds, a, e); }
    }
  }

  lemma ArrangedDod(next: map<Node, Node>, c: seq<Node>, blues: set<Node>, reds: set<Node>, a: nat, e: nat)
    requires Cycle(next, c) && Colored(next, blues, reds) && a < |c| && e < |c| && AllArranged(c, blues, reds, a, e)
    requires forall i :: 0 <= i < |c| ==> (Precedes(next, c[i], c[a], c[e]) <==> Steps(|c|, i, a) < Steps(|c|, i, e))
    requires forall i :: 0 <= i < |c| ==> (Precedes(next, c[i], c[e], c[a]) <==> Steps(|c|, i, e) < Steps(|c|, i, a))
    ensures Dod(next, blues, reds, c[a], c[e])
  {
    hide Precedes, Next, Steps, Distinct;
    forall v | v in blues || v in reds
      ensures (v in blues ==> Precedes(next, v, c[a], c[e])) && (v in reds ==> Precedes(next, v, c[e], c[a]))
    {
      var i :| 0 <= i < |c| && c[i] == v;
      assert Arranged(c, blues, reds, a, e, i);
    }
  }

  /** Between the landmarks, with no other red, the pairs are those of the two arcs. */
  lemma DodIff(next: map<Node, Node>, c: seq<Node>, blues: set<Node>, reds: set<Node>, b2: nat, r1: nat, r2: nat,
               b3: nat, a: nat, e: nat)
    requires Cycle(next, c) && Colored(next, blues, reds) && Landmarks(c, blues, reds, b2, r1, r2, b3)
    requires forall k :: b3 <= k < |c| ==> c[k] !in reds
    requires a < |c| && e < |c|
    ensures Dod(next, blues, reds, c[a], c[e]) <==> b2 <= a < r1 && r2 <= e < b3
  {
    DodArranged(next, c, blues, reds, a, e);
    hide Dod, Cycle, Colored;
    if AllArranged(c, blues, reds, a, e) {
      assert Arranged(c, blues, reds, a, e, 0) && Arranged(c, blues, reds, a, e, b2);
      assert Arranged(c, blues, reds, a, e, r1) && Arranged(c, blues, reds, a, e, r2);
      if b3 < |c| { assert Arranged(c, blues, reds, a, e, b3); }
    }
  }

  /** Another red behind the next blue: the colours are not two arcs, and no pair is left. */
  lemma NoDod(next: map<Node, Node>, c: seq<Node>, blues: set<Node>, reds: set<Node>, b2: nat, r1: nat, r2: nat,
              b3: nat, k: nat, a: nat, e: nat)
    requires Cycle(next, c) && Colored(next, blues, reds) && Landmarks(c, blues, reds, b2, r1, r2, b3)
    requires b3 <= k < |c| && c[k] in reds && a < |c| && e < |c|
    ensures !Dod(next, blues, reds, c[a], c[e])
  {
    DodArranged(next, c, blues, reds, a, e);
    hide Dod, Cycle, Colored;
    assert AllArranged(c, blues, reds, a, e) ==>
      Arranged(c, blues, reds, a, e, 0) && Arranged(c, blues, reds, a, e, r1);
    assert AllArranged(c, blues, reds, a, e) ==>
      Arranged(c, blues, reds, a, e, b3) && Arranged(c, blues, reds, a, e, k);
  }

  // ---- the computation

  /** k is the first index from s on with a colour of P, or |c| if there is none. */
  ghost predicate FirstIn(c: seq<Node>, P: set<Node>, s: nat, k: nat) {
    s <= k <= |c| && (k < |c| ==> c[k] in P) && forall j :: s <= j < k ==> c[j] !in P
  }

  /** k is the last index in [s, e) with a colour of P. */
  ghost predicate LastIn(c: seq<Node>, P: set<Node>, s: nat, e: nat, k: nat) {
    s <= k < e <= |c| && c[k] in P && forall j :: k < j < e ==> c[j] !in P
  }

  /** Walk from start until a node of P2 or the end is met; also note the last node of P1. */
  method Find(next: map<Node, Node>, start: Node, end: Node, P1: set<Node>, P2: set<Node>, ghost c: seq<Node>,
              ghost s: nat)
      returns (n1: Option<Node>, n2: Option<Node>, ghost k: nat)
    requires Cycle(next, c) && s < |c| && start == c[s] && end == c[0]
    ensures FirstIn(c, P2, s, k) && (n2 == if k < |c| then Some(c[k]) else None)
    ensures var e := if k < |c| then k + 1 else |c|;
      if n1 == None then forall j :: s <= j < e ==> c[j] !in P1
      else exists j: nat :: LastIn(c, P1, s, e, j) && n1 == Some(c[j])
  {
    n1, n2 := None, None;
    var n := start;
    k := s;
    while true
      invariant s <= k < |c| && n == c[k] && n2 == None && forall j :: s <= j < k ==> c[j] !in P2
      invariant if n1 == None then forall j :: s <= j < k ==> c[j] !in P1
                else exists j: nat :: LastIn(c, P1, s, k, j) && n1 == Some(c[j])
      decreases |c| - k
    {
      if n in P1 {
        n1 := Some(n);
        assert LastIn(c, P1, s, k + 1, k);
      } else if n1 != None {
        ghost var j: nat :| LastIn(c, P1, s, k, j) && n1 == Some(c[j]);
        assert LastIn(c, P1, s, k + 1, j);
      }
      if n in P2 {
        n2 := Some(n);
        return;
      }
      n := Next(next, n);
      k := k + 1;
      if n == end {
        assert k < |c| ==> c[0] != c[k];
        return;
      }
    }
  }

  /** cd and revCd gain the dependences on p of the nodes of S, and nothing else. */
  ghost predicate Gains(cd0: Dependences, revCd0: Dependences, cd: Dependences, revCd: Dependences, p: Node,
                        S: set<Node>)
  {
    forall v, q :: Gain(cd0, cd, revCd0, revCd, p, S, v, q)
  }

  ghost predicate Gain(cd0: Dependences, cd: Dependences, revCd0: Dependences, revCd: Dependences, p: Node,
                       S: set<Node>, v: Node, q: Node)
  {
    (q in Get(cd, v) <==> q in Get(cd0, v) || (v in S && q == p))
      && (v in Get(revCd, q) <==> v in Get(revCd0, q) || (v in S && q == p))
  }

  lemma GainsMore(cd0: Dependences, revCd0: Dependences, cd: Dependences, revCd: Dependences, p: Node, S: set<Node>,
                  v: Node)
    requires Gains(cd0, revCd0, cd, revCd, p, S)
    ensures Gains(cd0, revCd0, With(cd, v, p), With(revCd, p, v), p, S + {v})
  {
    WithGet(cd, v, p);
    WithGet(revCd, p, v);
    hide Get, With;
    var cd', revCd', S' := With(cd, v, p), With(revCd, p, v), S + {v};
    forall u, q ensures Gain(cd0, cd', revCd0, revCd', p, S', u, q) {
      assert Gain(cd0, cd, revCd0, revCd, p, S, u, q);
      assert q in Get(cd', u) <==> q in Get(cd, u) || (u == v && q == p);
      assert u in Get(revCd', q) <==> u in Get(revCd, q) || (q == p && u == v);
    }
  }

  ghost function Rectangle(c: seq<Node>, s: nat, e: nat, t: nat, f: nat): set<(Node, Node)>
    requires e <= |c| && f <= |c|
  {
    set i, j | s <= i < e && t <= j < f :: (c[i], c[j])
  }

  ghost function Row(c: seq<Node>, i: nat, t: nat, f: nat): set<(Node, Node)>
    requires i < |c| && f <= |c|
  {
    set j | t <= j < f :: (c[i], c[j])
  }

  lemma NoRectangle(c: seq<Node>, s: nat, t: nat, f: nat)
    requires s <= |c| && f <= |c|
    ensures Rectangle(c, s, s, t, f) == {}
  {
  }

  lemma RectangleMore(c: seq<Node>, s: nat, k: nat, t: nat, f: nat)
    requires s <= k < |c| && f <= |c|
    ensures Rectangle(c, s, k + 1, t, f) == Rectangle(c, s, k, t, f) + Row(c, k, t, f)
  {
  }

  class DOD {
    /** The cycle of the graph that belongs to a predicate, with its colours, and the
        nodes of the original graph that its nodes stand for. */
    const next: map<Node, Node>
    const blues: set<Node>
    const reds: set<Node>
    const gnode: map<Node, Node>
    var CD: Dependences
    var revCD: Dependences

    ghost predicate Valid() { (exists c :: Cycle(next, c)) && Colored(next, blues, reds) && gnode.Keys == next.Keys }

    constructor (next: map<Node, Node>, blues: set<Node>, reds: set<Node>, gnode: map<Node, Node>)
      requires (exists c :: Cycle(next, c)) && Colored(next, blues, reds) && gnode.Keys == next.Keys
      ensures Valid() && this.next == next && this.blues == blues && this.reds == reds && this.gnode == gnode
      ensures CD == revCD == map[]
    {
      this.next, this.blues, this.reds, this.gnode, CD, revCD := next, blues, reds, gnode, map[], map[];
    }

    method Record(v: Node, p: Node, ghost cd0: Dependences, ghost revCd0: Dependences, ghost S: set<Node>)
      requires Gains(cd0, revCd0, CD, revCD, p, S)
      modifies this
      ensures Gains(cd0, revCd0, CD, revCD, p, S + {v})
    {
      GainsMore(cd0, revCd0, CD, revCD, p, S, v);
      CD := With(CD, v, p);
      revCD := With(revCD, p, v);
    }

    /** The nodes of the original graph that c[a..e] stand for. */
    ghost function Images(c: seq<Node>, a: nat, e: nat): set<Node>
      requires Valid() && Cycle(next, c) && a <= e <= |c|
    {
      set k | a <= k < e :: gnode[c[k]]
    }

    lemma NoImages(c: seq<Node>, a: nat)
      requires Valid() && Cycle(next, c) && a <= |c|
      ensures Images(c, a, a) == {}
    {
    }

    lemma ImagesMore(c: seq<Node>, a: nat, k: nat)
      requires Valid() && Cycle(next, c) && a <= k < |c|
      ensures Images(c, a, k + 1) == Images(c, a, k) + {gnode[c[k]]}
    {
    }

    /** Record the nodes from start up to the next coloured one. */
    method RecordArc(start: Node, p: Node, ghost c: seq<Node>, ghost s: nat, ghost e: nat,
                     ghost cd0: Dependences, ghost revCd0: Dependences, ghost S: set<Node>)
      requires Valid() && Cycle(next, c) && s < e <= |c| && c[s] == start && Gains(cd0, revCd0, CD, revCD, p, S)
      requires (forall k :: s < k < e ==> c[k] !in blues + reds) && (if e < |c| then c[e] else c[0]) in blues + reds
      modifies this
      ensures Gains(cd0, revCd0, CD, revCD, p, S + Images(c, s, e))
    {
      hide Gains, Cycle, Images, Colored;
      NoImages(c, s);
      var cur := start;
      ghost var k := s;
      assert S + Images(c, s, s) == S;
      while true
        invariant s <= k < e && cur == c[k] && Gains(cd0, revCd0, CD, revCD, p, S + Images(c, s, k))
        decreases e - k
      {
        NextOnCycle(next, c, k);
        Record(gnode[cur], p, cd0, revCd0, S + Images(c, s, k));
        ImagesMore(c, s, k);
        assert S + Images(c, s, k) + {gnode[cur]} == S + Images(c, s, k + 1);
        cur := Next(next, cur);
        k := k + 1;
        if cur in blues || cur in reds {
          assert k == e;
          break;
        }
      }
    }

    /** All pairs of a node of the first and one of the second arc; `pairs` collects them. */
    method ConstructTernaryRelation(p: Node, b2: Node, r2: Node, ghost c: seq<Node>, ghost s: nat, ghost e: nat,
                                    ghost t: nat, ghost f: nat)
        returns (ghost pairs: set<(Node, Node)>)
      requires Valid() && Cycle(next, c) && s < e <= |c| && t < f <= |c| && c[s] == b2 && c[t] == r2
      requires (forall k :: s < k < e ==> c[k] !in blues + reds) && (if e < |c| then c[e] else c[0]) in blues + reds
      requires (forall k :: t < k < f ==> c[k] !in blues + reds) && (if f < |c| then c[f] else c[0]) in blues + reds
      modifies this
      ensures pairs == Rectangle(c, s, e, t, f)
      ensures Gains(old(CD), old(revCD), CD, revCD, p, Images(c, s, e) + Images(c, t, f))
    {
      hide Gains, Cycle, Images, Rectangle, Row, Colored;
      NoImages(c, s);
      NoRectangle(c, s, t, f);
      ghost var cd0, revCd0 := CD, revCD;
      pairs := {};
      var cur := b2;
      ghost var k := s;
      NothingGained(cd0, revCd0, p);
      ghost var S: set<Node> := {};
      while true
        invariant s <= k < e && cur == c[k] && Gains(cd0, revCd0, CD, revCD, p, S)
        invariant S == Images(c, s, k) + if k > s then Images(c, t, f) else {}
        invariant pairs == Rectangle(c, s, k, t, f)
        decreases e - k
      {
        NextOnCycle(next, c, k);
        Record(gnode[cur], p, cd0, revCd0, S);
        S := S + {gnode[cur]};
        RecordArc(r2, p, c, t, f, cd0, revCd0, S);
        S := S + Images(c, t, f);
        pairs := pairs + Row(c, k, t, f);
        RectangleMore(c, s, k, t, f);
        ImagesMore(c, s, k);
        assert S == Images(c, s, k + 1) + Images(c, t, f);
        cur := Next(next, cur);
        k := k + 1;
        if cur in blues || cur in reds {
          assert k == e;
          break;
        }
      }
    }

    /** The same nodes without forming pairs. */
    method ConstructBinaryRelation(p: Node, b2: Node, r2: Node, ghost c: seq<Node>, ghost s: nat, ghost e: nat,
                                   ghost t: nat, ghost f: nat)
      requires Valid() && Cycle(next, c) && s < e <= |c| && t < f <= |c| && c[s] == b2 && c[t] == r2
      requires (forall k :: s < k < e ==> c[k] !in blues + reds) && (if e < |c| then c[e] else c[0]) in blues + reds
      requires (forall k :: t < k < f ==> c[k] !in blues + reds) && (if f < |c| then c[f] else c[0]) in blues + reds
      modifies this
      ensures Gains(old(CD), old(revCD), CD, revCD, p, Images(c, s, e) + Images(c, t, f))
    {
      hide Gains, Distinct;
      ghost var cd0, revCd0 := CD, revCD;
      NothingGained(cd0, revCd0, p);
      RecordArc(b2, p, c, s, e, cd0, revCd0, {});
      RecordArc(r2, p, c, t, f, cd0, revCd0, {} + Images(c, s, e));
      assert {} + Images(c, s, e) + Images(c, t, f) == Images(c, s, e) + Images(c, t, f);
    }

    /** The pairs of nodes that are decisive order dependent on p. */
    ghost function Pairs(): set<(Node, Node)> {
      set x, y | x in next && y in next && Dod(next, blues, reds, x, y) :: (x, y)
    }

    /** The original nodes that occur in pairs. */
    ghost function Members(): set<Node>
      requires Valid()
    {
      (set x, y | x in next && y in next && Dod(next, blues, reds, x, y) :: gnode[x]) +
      (set x, y | x in next && y in next && Dod(next, blues, reds, x, y) :: gnode[y])
    }

    /** Compute what depends on p; with asTernary pair by pair. */
    method ComputeDOD(p: Node, asTernary: bool) returns (ghost pairs: set<(Node, Node)>)
      requires Valid()
      modifies this
      ensures asTernary ==> pairs == Pairs()
      ensures Gains(old(CD), old(revCD), CD, revCD, p, Members())
    {
      hide Gains, Distinct, Dod, Cycle, Landmarks, Images, Pairs, Members, Rectangle;
      var b1 :| b1 in blues;
      ghost var c0 :| Cycle(next, c0);
      ghost var c := Rotate(next, c0, b1);
      pairs := {};
      var n1, n2;
      ghost var k1;
      CycleIsPositive(next, c);
      n1, n2, k1 := Find(next, b1, b1, blues, reds, c, 0);
      SomeRed(next, c, blues, reds, k1);
      ghost var i2: nat :| LastIn(c, blues, 0, k1 + 1, i2) && n1 == Some(c[i2]);
      var b2, r1 := n1.value, n2.value;
      var m1, m2;
      ghost var k3;
      m1, m2, k3 := Find(next, r1, b1, reds, blues, c, k1);
      ghost var e3 := if k3 < |c| then k3 + 1 else |c|;
      ghost var j2: nat :| LastIn(c, reds, k1, e3, j2) && m1 == Some(c[j2]);
      var r2 := m1.value;
      AreLandmarks(c, blues, reds, i2, k1, j2, k3);
      if m2 != None {
        var b3 := m2.value;
        var o1, o2;
        ghost var k4;
        o1, o2, k4 := Find(next, b3, b1, reds, reds, c, k3);
        if o1 != None {
          SomeOtherRed(c, reds, k3, k4, if k4 < |c| then k4 + 1 else |c|);
          NoPairs(c, i2, k1, j2, k3, k4);
          NothingGained(CD, revCD, p);
          return;
        }
        NoOtherRed(c, reds, k3, k4);
      }
      AllPairs(c, i2, k1, j2, k3);
      ArcEnds(c, i2, k1, j2, k3);
      if asTernary {
        pairs := ConstructTernaryRelation(p, b2, r2, c, i2, k1, j2, k3);
      } else {
        ConstructBinaryRelation(p, b2, r2, c, i2, k1, j2, k3);
      }
    }

    /** The colours do not separate: nothing depends on p. */
    lemma NoPairs(c: seq<Node>, b2: nat, r1: nat, r2: nat, b3: nat, k: nat)
      requires Valid() && Cycle(next, c) && Landmarks(c, blues, reds, b2, r1, r2, b3)
      requires b3 <= k < |c| && c[k] in reds
      ensures Pairs() == {} && Members() == {}
    {
      hide Dod, Landmarks, Distinct;
      forall x, y | x in next && y in next ensures !Dod(next, blues, reds, x, y) {
        var a :| 0 <= a < |c| && c[a] == x;
        var e :| 0 <= e < |c| && c[e] == y;
        NoDod(next, c, blues, reds, b2, r1, r2, b3, k, a, e);
      }
    }

    /** The pairs lie on the two arcs between the landmarks. */
    lemma AllPairs(c: seq<Node>, b2: nat, r1: nat, r2: nat, b3: nat)
      requires Valid() && Cycle(next, c) && Landmarks(c, blues, reds, b2, r1, r2, b3)
      requires forall k :: b3 <= k < |c| ==> c[k] !in reds
      ensures b2 < r1 < |c| && r2 < b3 <= |c|
      ensures Pairs() == Rectangle(c, b2, r1, r2, b3)
      ensures Members() == Images(c, b2, r1) + Images(c, r2, b3)
    {
      assert b2 < r1 < |c| && r2 < b3 <= |c|;
      hide Dod, Landmarks, Distinct;
      BetweenLandmarks(c, b2, r1, r2, b3);
      hide Cycle, OnArcs, Pairs, Members, Rectangle, Images;
      PairsOnArcs(c, b2, r1, r2, b3);
      MembersOnArcs(c, b2, r1, r2, b3);
    }

    lemma BetweenLandmarks(c: seq<Node>, b2: nat, r1: nat, r2: nat, b3: nat)
      requires Valid() && Cycle(next, c) && Landmarks(c, blues, reds, b2, r1, r2, b3)
      requires forall k :: b3 <= k < |c| ==> c[k] !in reds
      ensures OnArcs(c, b2, r1, r2, b3)
    {
      hide Dod, Landmarks, Cycle;
      forall a, e | 0 <= a < |c| && 0 <= e < |c|
        ensures Dod(next, blues, reds, c[a], c[e]) <==> b2 <= a < r1 && r2 <= e < b3
      {
        DodIff(next, c, blues, reds, b2, r1, r2, b3, a, e);
      }
    }

    ghost predicate OnArcs(c: seq<Node>, b2: nat, r1: nat, r2: nat, b3: nat) {
      forall a, e :: 0 <= a < |c| && 0 <= e < |c| ==>
        (Dod(next, blues, reds, c[a], c[e]) <==> b2 <= a < r1 && r2 <= e < b3)
    }

    lemma PairsOnArcs(c: seq<Node>, b2: nat, r1: nat, r2: nat, b3: nat)
      requires Valid() && Cycle(next, c) && OnArcs(c, b2, r1, r2, b3) && r1 < |c| && b3 <= |c|
      ensures Pairs() == Rectangle(c, b2, r1, r2, b3)
    {
      hide Dod, Distinct;
      forall x, y | x in next && y in next && Dod(next, blues, reds, x, y)
        ensures exists i, j :: b2 <= i < r1 && r2 <= j < b3 && (c[i], c[j]) == (x, y)
      {
        var a :| 0 <= a < |c| && c[a] == x;
        var e :| 0 <= e < |c| && c[e] == y;
        assert b2 <= a < r1 && r2 <= e < b3;
      }
    }

    lemma MembersOnArcs(c: seq<Node>, b2: nat, r1: nat, r2: nat, b3: nat)
      requires Valid() && Cycle(next, c) && OnArcs(c, b2, r1, r2, b3) && b2 < r1 < |c| && r2 < b3 <= |c|
      ensures Members() == Images(c, b2, r1) + Images(c, r2, b3)
    {
      hide Dod, Cycle, Members, Images;
      OnCycle(next, c);
      forall g | g in Members() ensures g in Images(c, b2, r1) + Images(c, r2, b3) {
        MemberOnArc(c, b2, r1, r2, b3, g);
      }
      forall g | g in Images(c, b2, r1) + Images(c, r2, b3) ensures g in Members() { ArcMember(c, b2, r1, r2, b3, g); }
    }

    lemma MemberOnArc(c: seq<Node>, b2: nat, r1: nat, r2: nat, b3: nat, g: Node)
      requires Valid() && Cycle(next, c) && OnArcs(c, b2, r1, r2, b3) && b2 < r1 < |c| && r2 < b3 <= |c|
      requires g in Members()
      ensures g in Images(c, b2, r1) + Images(c, r2, b3)
    {
      hide Dod, Cycle;
      OnCycle(next, c);
      var x, y :| x in next && y in next && Dod(next, blues, reds, x, y) && (g == gnode[x] || g == gnode[y]);
      var a :| 0 <= a < |c| && c[a] == x;
      var e :| 0 <= e < |c| && c[e] == y;
      assert b2 <= a < r1 && r2 <= e < b3;
    }

    lemma ArcMember(c: seq<Node>, b2: nat, r1: nat, r2: nat, b3: nat, g: Node)
      requires Valid() && Cycle(next, c) && OnArcs(c, b2, r1, r2, b3) && b2 < r1 < |c| && r2 < b3 <= |c|
      requires g in Images(c, b2, r1) + Images(c, r2, b3)
      ensures g in Members()
    {
      hide Dod, Cycle;
      OnCycle(next, c);
      if g in Images(c, b2, r1) {
        var k :| b2 <= k < r1 && g == gnode[c[k]];
        assert Dod(next, blues, reds, c[k], c[r2]);
      } else {
        var k :| r2 <= k < b3 && g == gnode[c[k]];
        assert Dod(next, blues, reds, c[b2], c[k]);
      }
    }

    lemma ArcEnds(c: seq<Node>, b2: nat, r1: nat, r2: nat, b3: nat)
      requires Landmarks(c, blues, reds, b2, r1, r2, b3)
      ensures b2 < r1 < |c| && r2 < b3 <= |c| && c[r1] in blues + reds
      ensures (if b3 < |c| then c[b3] else c[0]) in blues + reds
      ensures forall k :: b2 < k < r1 || r2 < k < b3 ==> c[k] !in blues + reds
    {
    }
  }

  lemma NothingGained(cd0: Dependences, revCd0: Dependences, p: Node)
    ensures Gains(cd0, revCd0, cd0, revCd0, p, {})
  {
  }

  lemma OnCycle(next: map<Node, Node>, c: seq<Node>)
    requires Cycle(next, c)
    ensures forall v :: v in next <==> v in c
  {
  }

  lemma CycleIsPositive(next: map<Node, Node>, c: seq<Node>)
    requires Cycle(next, c)
    ensures |c| > 0 && (forall v :: v in next <==> v in c)
  {
  }

  lemma SomeRed(next: map<Node, Node>, c: seq<Node>, blues: set<Node>, reds: set<Node>, k1: nat)
    requires Colored(next, blues, reds) && (forall v :: v in next <==> v in c) && |c| > 0 && c[0] in blues
    requires FirstIn(c, reds, 0, k1)
    ensures 0 < k1 < |c| && c[k1] in reds && !(forall j :: 0 <= j < k1 + 1 ==> c[j] !in blues)
  {
    var r :| r in reds;
    assert r in c;
  }

  lemma AreLandmarks(c: seq<Node>, blues: set<Node>, reds: set<Node>, b2: nat, r1: nat, r2: nat, b3: nat)
    requires blues !! reds && r1 < |c| && c[0] in blues && c[r1] in reds
    requires FirstIn(c, reds, 0, r1) && LastIn(c, blues, 0, r1 + 1, b2)
    requires FirstIn(c, blues, r1, b3) && LastIn(c, reds, r1, if b3 < |c| then b3 + 1 else |c|, r2)
    ensures Landmarks(c, blues, reds, b2, r1, r2, b3)
  {
  }

  lemma SomeOtherRed(c: seq<Node>, reds: set<Node>, s: nat, k: nat, e: nat)
    requires FirstIn(c, reds, s, k) && e == (if k < |c| then k + 1 else |c|)
    requires exists j: nat :: LastIn(c, reds, s, e, j)
    ensures k < |c| && c[k] in reds
  {
  }

  lemma NoOtherRed(c: seq<Node>, reds: set<Node>, s: nat, k: nat)
    requires s < |c| && FirstIn(c, reds, s, k)
    requires forall j :: s <= j < (if k < |c| then k + 1 else |c|) ==> c[j] !in reds
    ensures forall j :: s <= j < |c| ==> c[j] !in reds
  {
  }
}
