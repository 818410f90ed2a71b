/** The exact effect of the nodes of a pointer graph on the points-to sets. */
module PointerEffects {
  import opened Offsets
  import opened Digraphs
  import opened PointerStates
  import opened PointerRules

  // ---- casts, phis and returns

  /** n has gained what the given operands hold, and nothing else has changed. */
  ghost predicate Gathered(s: PointsTo, t: PointsTo, n: Node, ops: seq<Node>) {
    && (forall p :: p in At(t, Var(n)) <==> p in At(s, Var(n)) || InSome(s, ops, p))
    && forall l :: l != Var(n) ==> At(t, l) == At(s, l) && (l in t <==> l in s)
  }

  lemma GatheredNone(s: PointsTo, n: Node)
    ensures Gathered(s, s, n, [])
  {
  }

  lemma GatheredStep(s: PointsTo, t: PointsTo, n: Node, ops: seq<Node>, i: nat)
    requires i < |ops| && Gathered(s, t, n, ops[..i])
    ensures Gathered(s, UnionAt(t, Var(n), At(t, Var(ops[i]))), n, ops[..i + 1])
  {
    var u, now := UnionAt(t, Var(n), At(t, Var(ops[i]))), ops[..i + 1];
    assert now == ops[..i] + [ops[i]];
    forall p ensures InSome(s, now, p) <==> InSome(s, ops[..i], p) || p in At(s, Var(ops[i])) {
      if p in At(s, Var(ops[i])) { assert now[i] == ops[i]; }
      if j :| 0 <= j < |ops[..i]| && p in At(s, Var(ops[..i][j])) { assert now[j] == ops[..i][j]; }
    }
    assert At(u, Var(n)) == At(t, Var(n)) + At(t, Var(ops[i]));
    hide InSome;
    assert forall l :: l != Var(n) ==> At(u, l) == At(t, l);
  }

  lemma GatheredOne(s: PointsTo, n: Node, op: Node)
    ensures Gathered(s, UnionAt(s, Var(n), At(s, Var(op))), n, [op])
  {
    GatheredNone(s, n);
    assert [op][..0] == [] && [op][..1] == [op];
    GatheredStep(s, s, n, [op], 0);
  }

  // ---- returns from calls

  const INVALID: Pointer := Pointer(Invalidated, 0)

  /** Memory of the called procedure: allocated there, and neither on the heap nor global. */
  ghost predicate OfCallee(g: Graph, p: Pointer) {
    p.target.Object? && p.target.node in g.nodes
    && match g.nodes[p.target.node]
       case Alloc(_, heap, global) => !heap && !global
       case _ => false
  }

  ghost predicate ReturnsLocal(g: Graph, s: PointsTo, ops: seq<Node>) {
    exists p :: InSome(s, ops, p) && OfCallee(g, p)
  }

  /** The operands are gathered, and the invalid pointer is added iff one of them holds memory
      of the callee and this is asked for. */
  ghost predicate Returned(g: Graph, s: PointsTo, t: PointsTo, n: Node, ops: seq<Node>) {
    && (forall p :: p != INVALID ==> (p in At(t, Var(n)) <==> p in At(s, Var(n)) || InSome(s, ops, p)))
    && (INVALID in At(t, Var(n)) ==>
          INVALID in At(s, Var(n)) || InSome(s, ops, INVALID) || (g.invalidateNodes && ReturnsLocal(g, s, ops)))
    && (INVALID in At(s, Var(n)) || InSome(s, ops, INVALID) || (g.invalidateNodes && ReturnsLocal(g, s, ops)) ==>
          Holds(At(t, Var(n)), INVALID))
    && forall l :: l != Var(n) ==> At(t, l) == At(s, l) && (l in t <==> l in s)
  }

  /** Before the operands are gathered: only the invalid pointer may be new. */
  ghost predicate Marked(g: Graph, s: PointsTo, t: PointsTo, n: Node, ops: seq<Node>) {
    && (forall p :: p in At(t, Var(n)) <==> p in At(s, Var(n)) || (p == INVALID && INVALID in At(t, Var(n))))
    && (INVALID in At(t, Var(n)) ==> INVALID in At(s, Var(n)) || (g.invalidateNodes && ReturnsLocal(g, s, ops)))
    && forall l :: l != Var(n) ==> At(t, l) == At(s, l) && (l in t <==> l in s)
  }

  lemma MarkedNone(g: Graph, s: PointsTo, n: Node, ops: seq<Node>)
    ensures Marked(g, s, s, n, ops)
  {
  }

  lemma LocalIsOfCallee(g: Graph, p: Pointer)
    ensures g.Local(p) <==> OfCallee(g, p)
  {
  }

  lemma MarkedStep(g: Graph, s: PointsTo, t: PointsTo, n: Node, ops: seq<Node>, i: nat, ptr: Pointer)
    requires Marked(g, s, t, n, ops) && g.invalidateNodes && i < |ops| && ptr in At(t, Var(ops[i])) && g.Local(ptr)
    ensures Marked(g, s, AddAt(t, Var(n), INVALID), n, ops)
  {
    LocalIsOfCallee(g, ptr);
    assert ptr in At(s, Var(ops[i]));
    assert InSome(s, ops, ptr);
    assert ReturnsLocal(g, s, ops);
    hide InSome, ReturnsLocal, Graph.Local;
    var u := AddAt(t, Var(n), INVALID);
    assert forall l :: l != Var(n) ==> At(u, l) == At(t, l);
    assert At(u, Var(n)) == AddPointer(At(t, Var(n)), INVALID);
  }

  lemma MarkedGathered(g: Graph, s: PointsTo, t: PointsTo, u: PointsTo, n: Node, ops: seq<Node>)
    requires Marked(g, s, t, n, ops) && Gathered(t, u, n, ops)
    requires g.invalidateNodes && ReturnsLocal(g, s, ops) ==> Holds(At(u, Var(n)), INVALID)
    ensures Returned(g, s, u, n, ops)
  {
    hide ReturnsLocal;
    forall p | InSome(t, ops, p) ensures InSome(s, ops, p) || p in At(t, Var(n)) {
      var i :| 0 <= i < |ops| && p in At(t, Var(ops[i]));
      assert ops[i] != n ==> p in At(s, Var(ops[i]));
    }
    forall p | InSome(s, ops, p) ensures InSome(t, ops, p) {
      var i :| 0 <= i < |ops| && p in At(s, Var(ops[i]));
      assert p in At(t, Var(ops[i]));
    }
  }

  // ---- stores

  /** l is memory to which one of the pointers points. */
  ghost predicate Hit(g: Graph, into: set<Pointer>, l: Location) {
    l.Cell? && Pointer(Object(l.base), l.offset) in into && l.base in g.nodes && !g.nodes[l.base].Function?
  }

  /** The cells that are hit have gained what is stored; where nothing is stored there is no new entry. */
  ghost predicate Written(g: Graph, s: PointsTo, t: PointsTo, into: set<Pointer>, P: set<Pointer>) {
    forall l :: At(t, l) == At(s, l) + (if Hit(g, into, l) then P else {})
      && (l in t <==> l in s || (Hit(g, into, l) && P != {}))
  }

  lemma WrittenNone(g: Graph, s: PointsTo, P: set<Pointer>)
    ensures Written(g, s, s, {}, P)
  {
  }

  lemma WrittenStep(g: Graph, s: PointsTo, t: PointsTo, into: set<Pointer>, P: set<Pointer>, ptr: Pointer)
    requires Written(g, s, t, into, P)
    ensures g.Dereferenceable(ptr) ==>
      Written(g, s, UnionAt(t, Cell(ptr.target.node, ptr.offset), P), into + {ptr}, P)
    ensures !g.Dereferenceable(ptr) ==> Written(g, s, t, into + {ptr}, P)
  {
    forall l ensures Hit(g, into + {ptr}, l) <==>
                       Hit(g, into, l) || (g.Dereferenceable(ptr) && l == Cell(ptr.target.node, ptr.offset)) {}
    hide Hit;
  }
}
