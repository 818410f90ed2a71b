/** Post-dominance frontiers, computed bottom-up along the post-dominator tree. */
module PostDominanceFrontiersComputation {
  import opened Digraphs
  import opened PostDominance

  type Sets = map<Node, set<Node>>

  function Get(m: Sets, n: Node): set<Node> { if n in m then m[n] else {} }

  function With(m: Sets, n: Node, x: Node): Sets { m[n := Get(m, n) + {x}] }

  /** What the computation finds: frontier nodes other than x, and x if it is its own
      successor. */
  ghost predicate Found(g: Digraph, exit: Node, x: Node, y: Node) {
    if y == x then g.Edge(x, x) else Frontier(g, exit, x, y)
  }

  ghost predicate Exact(g: Digraph, exit: Node, x: Node, S: set<Node>) { forall y :: y in S <==> Found(g, exit, x, y) }

  /** The blocks with their predecessors, parents and children in the tree. */
  ghost predicate Blocks(g: Digraph, exit: Node, pred: Sets, ipdom: map<Node, Node>, children: Sets) {
    && CorrectTree(g, exit, ipdom)
    && (forall x, y :: y in Get(pred, x) <==> g.Edge(y, x))
    && (forall x, z :: z in Get(children, x) <==> z in ipdom && ipdom[z] == x)
  }

  /** y comes from a predecessor of x, or from the frontier of a child. */
  ghost predicate Local(g: Digraph, ipdom: map<Node, Node>, x: Node, y: Node) {
    g.Edge(y, x) && y in ipdom && ipdom[y] != x
  }

  ghost predicate Up(g: Digraph, exit: Node, ipdom: map<Node, Node>, x: Node, z: Node, y: Node) {
    Found(g, exit, z, y) && y in ipdom && ipdom[y] != x && y != x
  }

  lemma FoundIff(g: Digraph, exit: Node, pred: Sets, ipdom: map<Node, Node>, children: Sets, x: Node, y: Node)
    requires Blocks(g, exit, pred, ipdom, children) && g.Reaches(x, exit)
    ensures Found(g, exit, x, y) <==>
      Local(g, ipdom, x, y) || exists z :: z in Get(children, x) && Up(g, exit, ipdom, x, z, y)
  {
    hide Digraph.Reaches, PDom, SPDom, CorrectTree;
    if Found(g, exit, x, y) {
      FoundHasSource(g, exit, ipdom, x, y);
    }
    if Local(g, ipdom, x, y) && y != x {
      LocalFrontier(g, exit, ipdom, x, y);
    }
    forall z | z in Get(children, x) && Up(g, exit, ipdom, x, z, y) ensures Found(g, exit, x, y) {
      SourceIsFound(g, exit, ipdom, x, z, y);
    }
  }

  lemma FoundHasSource(g: Digraph, exit: Node, ipdom: map<Node, Node>, x: Node, y: Node)
    requires CorrectTree(g, exit, ipdom) && g.Reaches(x, exit) && Found(g, exit, x, y)
    ensures Local(g, ipdom, x, y) || exists z :: z in ipdom && ipdom[z] == x && Up(g, exit, ipdom, x, z, y)
  {
    hide Digraph.Reaches, PDom, SPDom, CorrectTree;
    TreeIsValid(g, exit, ipdom);
    if y == x {
      InTree(g, exit, ipdom, x, x);
    } else {
      FrontierFromChild(g, exit, ipdom, x, y);
      if !g.Edge(y, x) {
        var z :| z in ipdom && ipdom[z] == x && z != y && Frontier(g, exit, z, y);
        assert Up(g, exit, ipdom, x, z, y);
      }
    }
  }

  lemma SourceIsFound(g: Digraph, exit: Node, ipdom: map<Node, Node>, x: Node, z: Node, y: Node)
    requires CorrectTree(g, exit, ipdom) && z in ipdom && ipdom[z] == x && Up(g, exit, ipdom, x, z, y)
    ensures Found(g, exit, x, y)
  {
    hide Digraph.Reaches, PDom, CorrectTree;
    TreeIsValid(g, exit, ipdom);
    Parent(g, exit, ipdom, z);
    PDomReflexive(g, exit, z);
    var s :| g.Edge(y, s) && PDom(g, exit, z, s);
    UpIsFrontier(g, exit, ipdom, x, z, y, s);
  }

  /** The control dependences are the frontiers read backwards, or there are none. */
  ghost predicate Mirrored(addCd: bool, frontiers: Sets, controlDeps: Sets, revControlDeps: Sets) {
    forall x, y :: Mirror(addCd, frontiers, controlDeps, revControlDeps, x, y)
  }

  ghost predicate Mirror(addCd: bool, frontiers: Sets, controlDeps: Sets, revControlDeps: Sets, x: Node, y: Node) {
    (y in Get(revControlDeps, x) <==> addCd && y in Get(frontiers, x))
      && (x in Get(controlDeps, y) <==> addCd && y in Get(frontiers, x))
  }

  lemma MirrorsOneMore(addCd: bool, f: Sets, c: Sets, r: Sets, x: Node, y: Node)
    requires Mirrored(addCd, f, c, r)
    ensures if addCd then Mirrored(addCd, With(f, x, y), With(c, y, x), With(r, x, y))
            else Mirrored(addCd, With(f, x, y), c, r)
  {
    hide With, Get;
    WithOne(f, x, y);
    WithOne(c, y, x);
    WithOne(r, x, y);
    var c', r' := if addCd then With(c, y, x) else c, if addCd then With(r, x, y) else r;
    forall a, b ensures Mirror(addCd, With(f, x, y), c', r', a, b) {
      assert Mirror(addCd, f, c, r, a, b);
    }
  }

  lemma WithOne(m: Sets, n: Node, x: Node)
    ensures forall a, b :: b in Get(With(m, n, x), a) <==> b in Get(m, a) || (a == n && b == x)
  {
  }

  class PostDominanceFrontiers {
    ghost const g: Digraph
    ghost const exit: Node
    const pred: Sets
    const ipdom: map<Node, Node>
    const children: Sets
    var frontiers: Sets
    var controlDeps: Sets
    var revControlDeps: Sets

    ghost predicate Valid() { Blocks(g, exit, pred, ipdom, children) }

    constructor (ghost g: Digraph, ghost exit: Node, pred: Sets, ipdom: map<Node, Node>, children: Sets)
      requires Blocks(g, exit, pred, ipdom, children)
      ensures Valid() && this.g == g && this.exit == exit && frontiers == controlDeps == revControlDeps == map[]
    {
      this.g, this.exit, this.pred, this.ipdom, this.children := g, exit, pred, ipdom, children;
      frontiers, controlDeps, revControlDeps := map[], map[], map[];
    }

    /** Add y to the frontier of x; with addCd x depends on y, too. */
    method AddFrontier(x: Node, y: Node, addCd: bool)
      requires Mirrored(addCd, frontiers, controlDeps, revControlDeps)
      modifies this`frontiers, this`controlDeps, this`revControlDeps
      ensures Mirrored(addCd, frontiers, controlDeps, revControlDeps) && frontiers == With(old(frontiers), x, y)
      ensures addCd ==> controlDeps == With(old(controlDeps), y, x) && revControlDeps == With(old(revControlDeps), x, y)
      ensures !addCd ==> controlDeps == old(controlDeps) && revControlDeps == old(revControlDeps)
    {
      MirrorsOneMore(addCd, frontiers, controlDeps, revControlDeps, x, y);
      frontiers := With(frontiers, x, y);
      if addCd {
        controlDeps := With(controlDeps, y, x);
        revControlDeps := With(revControlDeps, x, y);
      }
    }

    method ComputePDFrontiers(x: Node, addCd: bool)
      requires Valid() && g.Reaches(x, exit) && Get(frontiers, x) == {}
      requires Mirrored(addCd, frontiers, controlDeps, revControlDeps)
      requires forall z :: z in Get(children, x) ==> Exact(g, exit, z, Get(frontiers, z))
      modifies this`frontiers, this`controlDeps, this`revControlDeps
      ensures Exact(g, exit, x, Get(frontiers, x)) && Mirrored(addCd, frontiers, controlDeps, revControlDeps)
      ensures forall n :: n != x ==> Get(frontiers, n) == Get(old(frontiers), n)
    {
      hide CorrectTree, Found, Frontier, Digraph.Reaches, Mirrored;
      ghost var was := frontiers;
      var preds := Get(pred, x);
      while preds != {}
        invariant preds <= Get(pred, x) && Mirrored(addCd, frontiers, controlDeps, revControlDeps)
        invariant forall n :: n != x ==> Get(frontiers, n) == Get(was, n)
        invariant forall y :: y in Get(frontiers, x) <==> Local(g, ipdom, x, y) && y !in preds
      {
        var y :| y in preds;
        if y in ipdom && ipdom[y] != x {
          AddFrontier(x, y, addCd);
        }
        preds := preds - {y};
      }
      NotOwnChild(g, exit, pred, ipdom, children, x);
      var todo := Get(children, x);
      while todo != {}
        invariant todo <= Get(children, x) && Mirrored(addCd, frontiers, controlDeps, revControlDeps)
        invariant forall n :: n != x ==> Get(frontiers, n) == Get(was, n)
        invariant forall y :: y in Get(frontiers, x) <==>
          Local(g, ipdom, x, y) || FromChildren(Get(children, x) - todo, x, y)
      {
        var z :| z in todo;
        ghost var now := Get(frontiers, x);
        var dfs := Get(frontiers, z);
        while dfs != {}
          invariant dfs <= Get(was, z) && Mirrored(addCd, frontiers, controlDeps, revControlDeps)
          invariant forall n :: n != x ==> Get(frontiers, n) == Get(was, n)
          invariant forall y :: y in Get(frontiers, x) <==> y in now || (Up(g, exit, ipdom, x, z, y) && y !in dfs)
        {
          var df :| df in dfs;
          if df in ipdom && ipdom[df] != x && df != x {
            AddFrontier(x, df, addCd);
          }
          dfs := dfs - {df};
        }
        OneMoreChild(Get(children, x), todo, x, z);
        todo := todo - {z};
      }
      AllFound(x);
    }

    ghost predicate FromChildren(Z: set<Node>, x: Node, y: Node) { exists z :: z in Z && Up(g, exit, ipdom, x, z, y) }

    lemma OneMoreChild(Z: set<Node>, todo: set<Node>, x: Node, z: Node)
      requires todo <= Z && z in todo
      ensures forall y :: FromChildren(Z - (todo - {z}), x, y) <==>
        FromChildren(Z - todo, x, y) || Up(g, exit, ipdom, x, z, y)
    {
      hide Up;
      forall y | FromChildren(Z - (todo - {z}), x, y)
        ensures FromChildren(Z - todo, x, y) || Up(g, exit, ipdom, x, z, y)
      {
        var z' :| z' in Z - (todo - {z}) && Up(g, exit, ipdom, x, z', y);
        assert z' == z || z' in Z - todo;
      }
    }

    lemma AllFound(x: Node)
      requires Valid() && g.Reaches(x, exit)
      ensures forall y :: Found(g, exit, x, y) <==> Local(g, ipdom, x, y) || FromChildren(Get(children, x) - {}, x, y)
    {
      hide CorrectTree, Found, Up, Local, Digraph.Reaches;
      forall y ensures Found(g, exit, x, y) <==> Local(g, ipdom, x, y) || FromChildren(Get(children, x) - {}, x, y) {
        FoundIff(g, exit, pred, ipdom, children, x, y);
        assert Get(children, x) - {} == Get(children, x);
      }
    }

    /** Put the children of the k-th block behind the queue. */
    method Expand(b: Node, queue: seq<Node>, visited: set<Node>, ghost order: seq<Node>, ghost k: nat)
      returns (queue': seq<Node>, visited': set<Node>, ghost more: seq<Node>)
      requires Valid() && Walked(g, exit, ipdom, order, k) && k < |order| && order[k] == b
      requires visited == (set n | n in order)
      ensures queue' == queue + more && visited' == (set n | n in order + more)
      ensures Walked(g, exit, ipdom, order + more, k + 1)
      ensures visited <= visited' && (visited' == visited ==> more == [])
    {
      hide CorrectTree, Digraph.Reaches, Walking, Walked;
      queue', visited', more := queue, visited, [];
      var todo := Get(children, b);
      WalkedNext(g, exit, pred, ipdom, children, order, k);
      assert order + more == order && Get(children, b) - todo == {};
      while todo != {}
        invariant todo <= Get(children, b) && queue' == queue + more && visited' == (set n | n in order + more)
        invariant Walking(g, exit, ipdom, order + more, k, Get(children, b) - todo)
        invariant (order + more)[k] == b && forall z :: z in todo ==> z !in order + more
        invariant visited <= visited' && (visited' == visited ==> more == [])
        decreases todo
      {
        var z :| z in todo;
        assert z !in visited';
        WalkOn(g, exit, pred, ipdom, children, order + more, k, Get(children, b) - todo, z);
        assert order + more + [z] == order + (more + [z]);
        assert Get(children, b) - (todo - {z}) == Get(children, b) - todo + {z};
        if z !in visited' {
          queue' := queue' + [z];
          visited' := visited' + {z};
          more := more + [z];
        }
        todo := todo - {z};
      }
      assert Get(children, b) - todo == Get(children, b);
      WalkDone(g, exit, pred, ipdom, children, order + more, k);
    }

    /** The blocks in the order of a walk down the tree. */
    method WalkTree(root: Node) returns (blocks: seq<Node>)
      requires Valid() && root == exit
      ensures InTreeOrder(g, exit, ipdom, blocks)
    {
      hide CorrectTree, Digraph.Reaches, Walked;
      blocks := [];
      var queue, visited := [root], {root};
      ghost var order := [root];
      WalkStarts(g, exit, ipdom);
      WalkedNodes(g, exit, ipdom, order, 0);
      while queue != []
        invariant order == blocks + queue && visited == (set n | n in order)
        invariant Walked(g, exit, ipdom, order, |blocks|) && visited <= g.succ.Keys
        decreases g.succ.Keys - visited, |queue|
      {
        var b := queue[0];
        ghost var k := |blocks|;
        assert order[k] == b;
        queue := queue[1..];
        blocks := blocks + [b];
        ghost var more;
        queue, visited, more := Expand(b, queue, visited, order, k);
        order := order + more;
        WalkedNodes(g, exit, ipdom, order, |blocks|);
      }
      assert order == blocks;
      WholeTree(g, exit, ipdom, blocks);
    }

    /** Compute all frontiers, from the leaves of the tree to its root. */
    method Compute(root: Node, addCd: bool)
      requires Valid() && root == exit && frontiers == controlDeps == revControlDeps == map[]
      modifies this`frontiers, this`controlDeps, this`revControlDeps
      ensures forall x :: if g.Reaches(x, exit) then Exact(g, exit, x, Get(frontiers, x)) else Get(frontiers, x) == {}
      ensures Mirrored(addCd, frontiers, controlDeps, revControlDeps)
    {
      hide CorrectTree, Found, Digraph.Reaches;
      var blocks := WalkTree(root);
      TreeNodes(g, exit, ipdom, blocks);
      var i := |blocks|;
      while i > 0
        invariant 0 <= i <= |blocks| && Mirrored(addCd, frontiers, controlDeps, revControlDeps)
        invariant forall k :: i <= k < |blocks| ==> Exact(g, exit, blocks[k], Get(frontiers, blocks[k]))
        invariant forall x :: Get(frontiers, x) != {} ==> exists k :: i <= k < |blocks| && blocks[k] == x
      {
        i := i - 1;
        ChildrenLater(g, exit, pred, ipdom, children, blocks, i);
        ComputePDFrontiers(blocks[i], addCd);
      }
    }
  }

  lemma NotOwnChild(g: Digraph, exit: Node, pred: Sets, ipdom: map<Node, Node>, children: Sets, x: Node)
    requires Blocks(g, exit, pred, ipdom, children)
    ensures x !in Get(children, x)
  {
    hide CorrectTree;
    TreeIsValid(g, exit, ipdom);
    assert x in Get(children, x) <==> x in ipdom && ipdom[x] == x;
  }

  // ---- the walk down the tree

  ghost predicate Distinct(s: seq<Node>) { forall i, j :: 0 <= i < j < |s| ==> s[i] != s[j] }

  /** The parent of order[i] comes before it, among the first k. */
  ghost predicate ParentBefore(ipdom: map<Node, Node>, order: seq<Node>, i: nat, k: nat)
    requires i < |order|
  {
    order[i] in ipdom ==> exists j: nat :: j < i && j < k && order[j] == ipdom[order[i]]
  }

  ghost predicate ParentsBefore(ipdom: map<Node, Node>, order: seq<Node>, k: nat) {
    forall i :: 0 <= i < |order| ==> ParentBefore(ipdom, order, i, k)
  }

  /** All nodes of the tree, parents before children. */
  ghost predicate InTreeOrder(g: Digraph, exit: Node, ipdom: map<Node, Node>, order: seq<Node>) {
    Distinct(order) && (forall n :: n in order <==> g.Reaches(n, exit)) && ParentsBefore(ipdom, order, |order|)
  }

  /** The first k nodes were expanded. */
  ghost predicate Walked(g: Digraph, exit: Node, ipdom: map<Node, Node>, order: seq<Node>, k: nat) {
    && k <= |order| && Distinct(order) && exit in order
    && (forall n :: n in order ==> g.Reaches(n, exit))
    && ParentsBefore(ipdom, order, k)
    && (forall z :: z in ipdom && ipdom[z] in order[..k] ==> z in order)
  }

  /** The node at k is being expanded; its children `done` were added. */
  ghost predicate Walking(g: Digraph, exit: Node, ipdom: map<Node, Node>, order: seq<Node>, k: nat, done: set<Node>) {
    && k < |order| && Distinct(order) && exit in order
    && (forall n :: n in order ==> g.Reaches(n, exit))
    && ParentsBefore(ipdom, order, k + 1)
    && (forall z :: z in ipdom && ipdom[z] in order[..k] ==> z in order)
    && (forall z :: z in done ==> z in order)
  }

  lemma WalkStarts(g: Digraph, exit: Node, ipdom: map<Node, Node>)
    requires CorrectTree(g, exit, ipdom)
    ensures Walked(g, exit, ipdom, [exit], 0)
  {
    g.ReachesSelf(exit);
  }

  lemma WalkedNext(g: Digraph, exit: Node, pred: Sets, ipdom: map<Node, Node>, children: Sets, order: seq<Node>, k: nat)
    requires Blocks(g, exit, pred, ipdom, children) && Walked(g, exit, ipdom, order, k) && k < |order|
    ensures Walking(g, exit, ipdom, order, k, {}) && forall z :: z in Get(children, order[k]) ==> z !in order
  {
    hide CorrectTree, Digraph.Reaches;
    LaterBound(ipdom, order, k);
    forall i | 0 <= i < |order| ensures order[i] !in Get(children, order[k]) {
      assert ParentBefore(ipdom, order, i, k);
    }
  }

  lemma LaterBound(ipdom: map<Node, Node>, order: seq<Node>, k: nat)
    requires ParentsBefore(ipdom, order, k)
    ensures ParentsBefore(ipdom, order, k + 1)
  {
    var l := k + 1;
    forall i | 0 <= i < |order| ensures ParentBefore(ipdom, order, i, l) { assert ParentBefore(ipdom, order, i, k); }
  }

  lemma WalkOn(g: Digraph, exit: Node, pred: Sets, ipdom: map<Node, Node>, children: Sets, order: seq<Node>, k: nat,
               done: set<Node>, z: Node)
    requires Blocks(g, exit, pred, ipdom, children) && Walking(g, exit, ipdom, order, k, done)
    requires z in Get(children, order[k]) && z !in order
    ensures Walking(g, exit, ipdom, order + [z], k, done + {z})
  {
    TreeReaches(g, exit, ipdom, z);
    hide CorrectTree, Digraph.Reaches;
    var next := order + [z];
    assert next[..k] == order[..k];
    OneMoreParent(ipdom, order, k, z);
    assert forall n :: n in next <==> n in order || n == z;
  }

  lemma OneMoreParent(ipdom: map<Node, Node>, order: seq<Node>, k: nat, z: Node)
    requires ParentsBefore(ipdom, order, k + 1) && k < |order| && z in ipdom && ipdom[z] == order[k]
    ensures ParentsBefore(ipdom, order + [z], k + 1)
  {
    var next, l := order + [z], k + 1;
    forall i | 0 <= i < |next| ensures ParentBefore(ipdom, next, i, l) {
      if i < |order| {
        assert ParentBefore(ipdom, order, i, l);
        if order[i] in ipdom {
          var j: nat :| j < i && j < l && order[j] == ipdom[order[i]];
          assert next[j] == ipdom[next[i]];
        }
      } else {
        assert next[k] == order[k];
      }
    }
  }

  lemma TreeReaches(g: Digraph, exit: Node, ipdom: map<Node, Node>, z: Node)
    requires CorrectTree(g, exit, ipdom) && z in ipdom
    ensures g.Reaches(z, exit)
  {
  }

  lemma WalkDone(g: Digraph, exit: Node, pred: Sets, ipdom: map<Node, Node>, children: Sets, order: seq<Node>, k: nat)
    requires Blocks(g, exit, pred, ipdom, children) && k < |order|
    requires Walking(g, exit, ipdom, order, k, Get(children, order[k]))
    ensures Walked(g, exit, ipdom, order, k + 1)
  {
    hide CorrectTree, Digraph.Reaches;
    assert order[..k + 1] == order[..k] + [order[k]];
  }

  lemma {:induction false} InOrder(g: Digraph, exit: Node, ipdom: map<Node, Node>, order: seq<Node>, n: Node)
    requires CorrectTree(g, exit, ipdom) && Walked(g, exit, ipdom, order, |order|) && g.Reaches(n, exit)
    ensures n in order
    decreases Above(g, exit, n)
  {
    if n != exit {
      Parent(g, exit, ipdom, n);
      FewerAbove(g, exit, ipdom, n);
      hide CorrectTree, SPDom, PDom, Digraph.Reaches;
      ParentReaches(g, exit, ipdom, n);
      InOrder(g, exit, ipdom, order, ipdom[n]);
      assert order[..|order|] == order;
    }
  }

  lemma ParentReaches(g: Digraph, exit: Node, ipdom: map<Node, Node>, n: Node)
    requires CorrectTree(g, exit, ipdom) && n in ipdom
    ensures g.Reaches(ipdom[n], exit)
  {
    hide PDom;
    Parent(g, exit, ipdom, n);
    PDomReaches(g, exit, ipdom[n], n);
  }

  lemma WalkedNodes(g: Digraph, exit: Node, ipdom: map<Node, Node>, order: seq<Node>, k: nat)
    requires CorrectTree(g, exit, ipdom) && Walked(g, exit, ipdom, order, k)
    ensures forall n :: n in order ==> n in g.succ
  {
    hide Digraph.Reaches;
    forall n | n in order ensures n in g.succ { g.ReachesIsNode(n, exit); }
  }

  lemma TreeNodes(g: Digraph, exit: Node, ipdom: map<Node, Node>, order: seq<Node>)
    requires InTreeOrder(g, exit, ipdom, order)
    ensures forall n :: g.Reaches(n, exit) <==> exists k :: 0 <= k < |order| && order[k] == n
  {
    hide Digraph.Reaches;
  }

  lemma WholeTree(g: Digraph, exit: Node, ipdom: map<Node, Node>, order: seq<Node>)
    requires CorrectTree(g, exit, ipdom) && Walked(g, exit, ipdom, order, |order|)
    ensures InTreeOrder(g, exit, ipdom, order)
  {
    hide CorrectTree, Digraph.Reaches;
    forall n | g.Reaches(n, exit) ensures n in order { InOrder(g, exit, ipdom, order, n); }
  }

  /** The children of the i-th node come behind it. */
  lemma ChildrenLater(g: Digraph, exit: Node, pred: Sets, ipdom: map<Node, Node>, children: Sets, order: seq<Node>,
                      i: nat)
    requires Blocks(g, exit, pred, ipdom, children) && InTreeOrder(g, exit, ipdom, order) && i < |order|
    ensures g.Reaches(order[i], exit) && (forall j :: i < j < |order| ==> order[j] != order[i])
    ensures forall z :: z in Get(children, order[i]) ==> exists j :: i < j < |order| && order[j] == z
  {
    forall z | z in Get(children, order[i]) ensures exists j :: i < j < |order| && order[j] == z {
      TreeReaches(g, exit, ipdom, z);
      var j :| 0 <= j < |order| && order[j] == z;
      assert ParentBefore(ipdom, order, j, |order|);
    }
  }

  // ---- a block that controls itself

  /** 1 decides whether to run 2 and come back, or to leave to 3. */
  ghost const LOOP: Digraph := Digraph(map[1 := [2, 3], 2 := [1], 3 := []])

  /** By the definition of frontiers 1 is in its own one, but it is not found: a block
      is found in its own frontier only if it is its own successor. */
  lemma OwnFrontierIsMissed()
    ensures Frontier(LOOP, 3, 1, 1) && !Found(LOOP, 3, 1, 1)
  {
    var g := LOOP;
    Loop(g);
    g.ReachesStep(2, 1);
    g.ReachesStep(1, 3);
    g.ReachesTransitive(2, 1, 3);
    forall p | g.PathFromTo(p, 2, 3) ensures 1 in p {
      assert g.Edge(p[0], p[0 + 1]);
      assert p[1] == 1;
    }
  }

  lemma Loop(g: Digraph)
    requires g == LOOP
    ensures g.Edge(1, 2) && g.Edge(1, 3) && g.Edge(2, 1) && !g.Edge(1, 1) && g.succ[2] == [1]
  {
    assert g.succ[1][1] == 3;
  }
}
