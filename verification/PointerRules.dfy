/** The nodes of the pointer graph and the pointers that each of them generates. */
module PointerRules {
  import opened Offsets
  import opened Digraphs
  import opened PointerStates

  datatype PSNode =
    | Alloc(size: Offset, heap: bool, global: bool)
    | Function
    | Constant(pointer: Pointer)
    | Load(operand: Node)
    | Store(value: Node, into: Node)
    | Gep(source: Node, offset: Offset)
    | Cast(operand: Node)
    | Phi(operands: seq<Node>)           // also the RETURN of a subprocedure
    | CallReturn(operands: seq<Node>)
    | FuncPtrCall(operand: Node)         // also FORK
    | Memcpy(source: Node, dest: Node, len: Offset)
    | Noop

  datatype Graph = Graph(nodes: map<Node, PSNode>, fieldSensitivity: Offset, invalidateNodes: bool)
  {
    predicate Dereferenceable(p: Pointer) {
      p.target.Object? && p.target.node in nodes && !nodes[p.target.node].Function?
    }

    predicate IsFunction(p: Pointer) {
      p.target.Object? && p.target.node in nodes && nodes[p.target.node].Function?
    }

    function SizeOf(t: Target): Offset {
      if t.Object? && t.node in nodes && nodes[t.node].Alloc? then nodes[t.node].size else 0
    }

    /** Memory that a return from a call may leave invalid. */
    predicate Local(p: Pointer) {
      Dereferenceable(p) && nodes[p.target.node].Alloc? && !nodes[p.target.node].heap && !nodes[p.target.node].global
    }

    /** The sum of two offsets wraps around like an unsigned 64-bit word. */
    function GepPointer(p: Pointer, k: Offset): Pointer {
      var o := if p.offset == UNKNOWN || k == UNKNOWN then UNKNOWN else (p.offset + k) % (UNKNOWN + 1);
      if (o == 0 || o < SizeOf(p.target)) && o < fieldSensitivity then Pointer(p.target, o) else Blur(p)
    }

    /** Where a pointer at offset x of the source goes when memory is copied from
        offset so to offset to. */
    function CopyOffset(x: Offset, so: Offset, to: Offset, t: Target): Offset {
      if x == UNKNOWN || so == UNKNOWN || to == UNKNOWN || UNKNOWN - to <= x - so || x < so then UNKNOWN
      else
        var o := x - so + to;
        if o >= SizeOf(t) || o >= fieldSensitivity then UNKNOWN else o
    }
  }

  predicate InRange(so: Offset, x: Offset, len: Offset) {
    x == UNKNOWN || so == UNKNOWN || (so <= x && (len == UNKNOWN || x - so < len))
  }

  /** A load at offset o may find what is kept at offset x. */
  predicate MayMeet(o: Offset, x: Offset) { o == UNKNOWN || x == UNKNOWN || x == o }

  // ---- what a node generates

  ghost predicate LoadVia(g: Graph, s: PointsTo, ptr: Pointer, p: Pointer) {
    if ptr.target == UnknownMemory then p == UnknownPointer
    else g.Dereferenceable(ptr) && exists x: Offset :: MayMeet(ptr.offset, x) && p in At(s, Cell(ptr.target.node, x))
  }

  ghost predicate StoreVia(g: Graph, s: PointsTo, value: Node, ptr: Pointer, l: Location, p: Pointer) {
    g.Dereferenceable(ptr) && l == Cell(ptr.target.node, ptr.offset) && p in At(s, Var(value))
  }

  ghost predicate MemcpyVia(g: Graph, s: PointsTo, len: Offset, ptr: Pointer, dptr: Pointer, x: Offset, l: Location,
                            p: Pointer)
  {
    && g.Dereferenceable(ptr) && g.Dereferenceable(dptr) && p in At(s, Cell(ptr.target.node, x))
      && InRange(ptr.offset, x, len)
    && l == Cell(dptr.target.node, g.CopyOffset(x, ptr.offset, dptr.offset, dptr.target))
  }

  /** Node n of kind k generates p at l when the points-to sets are s. */
  ghost predicate Gives(g: Graph, s: PointsTo, n: Node, k: PSNode, l: Location, p: Pointer) {
    match k
    case Load(op) => l == Var(n) && exists ptr :: ptr in At(s, Var(op)) && LoadVia(g, s, ptr, p)
    case Store(value, into) => exists ptr :: ptr in At(s, Var(into)) && StoreVia(g, s, value, ptr, l, p)
    case Gep(source, off) => l == Var(n) && exists ptr :: ptr in At(s, Var(source)) && p == g.GepPointer(ptr, off)
    case Cast(op) => l == Var(n) && p in At(s, Var(op))
    case Phi(ops) => l == Var(n) && InSome(s, ops, p)
    case CallReturn(ops) =>
      l == Var(n)
        && (InSome(s, ops, p)
            || (g.invalidateNodes && p == Pointer(Invalidated, 0) && exists q :: InSome(s, ops, q) && g.Local(q)))
    case FuncPtrCall(op) => l == Var(n) && p in At(s, Var(op)) && (g.invalidateNodes || g.IsFunction(p))
    case Memcpy(source, dest, len) =>
      exists ptr, dptr, x ::
        ptr in At(s, Var(source)) && dptr in At(s, Var(dest)) && MemcpyVia(g, s, len, ptr, dptr, x, l, p)
    case _ => false
  }

  ghost predicate InSome(s: PointsTo, ops: seq<Node>, p: Pointer) {
    exists i :: 0 <= i < |ops| && p in At(s, Var(ops[i]))
  }

  /** Everything that n generates is covered: processing n has nothing to add. */
  ghost predicate Closed(g: Graph, s: PointsTo, n: Node) {
    n in g.nodes && forall l, p :: Gives(g, s, n, g.nodes[n], l, p) && Real(p) ==> Covers(s, l, p)
  }

  // ---- what is generated grows with the points-to sets

  lemma ClosedCovers(g: Graph, L: PointsTo, n: Node)
    requires Closed(g, L, n)
    ensures n in g.nodes && forall l, p :: Gives(g, L, n, g.nodes[n], l, p) && Real(p) ==> Covers(L, l, p)
  {
  }

  lemma VarBelow(s: PointsTo, L: PointsTo, n: Node, p: Pointer) returns (p': Pointer)
    requires Below(s, L) && p in At(s, Var(n)) && Real(p)
    ensures (p' == p || p' == Blur(p)) && p' in At(L, Var(n))
  {
    var l;
    l, p' := CoversWitness(L, Var(n), p);
  }

  lemma CellBelow(s: PointsTo, L: PointsTo, t: Node, x: Offset, p: Pointer) returns (x': Offset, p': Pointer)
    requires Below(s, L) && p in At(s, Cell(t, x)) && Real(p)
    ensures (x' == x || x' == UNKNOWN) && (p' == p || p' == Blur(p)) && p' in At(L, Cell(t, x'))
  {
    var l;
    l, p' := CoversWitness(L, Cell(t, x), p);
    x' := l.offset;
  }

  lemma SomeBelow(s: PointsTo, L: PointsTo, ops: seq<Node>, p: Pointer) returns (p': Pointer)
    requires Below(s, L) && InSome(s, ops, p) && Real(p)
    ensures (p' == p || p' == Blur(p)) && InSome(L, ops, p')
  {
    var i :| 0 <= i < |ops| && p in At(s, Var(ops[i]));
    p' := VarBelow(s, L, ops[i], p);
  }

  /** What n generates from s is covered by every larger state that is closed under n. */
  lemma GivesBelow(g: Graph, s: PointsTo, L: PointsTo, n: Node, l: Location, p: Pointer)
    requires Below(s, L) && Closed(g, L, n) && Gives(g, s, n, g.nodes[n], l, p) && Real(p)
    ensures Covers(L, l, p)
  {
    hide Below, Covers, Closed;
    ClosedCovers(g, L, n);
    match g.nodes[n]
    case Load(op) => LoadBelow(g, s, L, n, op, p);
    case Store(value, into) => StoreBelow(g, s, L, n, value, into, l, p);
    case Gep(source, off) =>
      var ptr :| ptr in At(s, Var(source)) && p == g.GepPointer(ptr, off);
      var ptr' := VarBelow(s, L, source, ptr);
      CoversWider(L, l, p, l, g.GepPointer(ptr', off));
    case Cast(op) =>
      var p' := VarBelow(s, L, op, p);
      CoversWider(L, l, p, l, p');
    case Phi(ops) =>
      var p' := SomeBelow(s, L, ops, p);
      CoversWider(L, l, p, l, p');
    case CallReturn(ops) => CallReturnBelow(g, s, L, n, ops, l, p);
    case FuncPtrCall(op) =>
      var p' := VarBelow(s, L, op, p);
      CoversWider(L, l, p, l, p');
    case Memcpy(source, dest, len) => MemcpyBelow(g, s, L, n, source, dest, len, l, p);
    case _ =>
  }

  lemma LoadBelow(g: Graph, s: PointsTo, L: PointsTo, n: Node, op: Node, p: Pointer)
    requires Below(s, L) && Closed(g, L, n) && g.nodes[n] == Load(op) && Gives(g, s, n, Load(op), Var(n), p) && Real(p)
    ensures Covers(L, Var(n), p)
  {
    hide Below, Covers, Closed;
    ClosedCovers(g, L, n);
    var ptr :| ptr in At(s, Var(op)) && LoadVia(g, s, ptr, p);
    var ptr' := VarBelow(s, L, op, ptr);
    if ptr.target == UnknownMemory {
      assert LoadVia(g, L, ptr', p);
    } else {
      var x: Offset :| MayMeet(ptr.offset, x) && p in At(s, Cell(ptr.target.node, x));
      var x', p' := CellBelow(s, L, ptr.target.node, x, p);
      assert MayMeet(ptr'.offset, x');
      assert LoadVia(g, L, ptr', p');
      CoversWider(L, Var(n), p, Var(n), p');
    }
  }

  lemma StoreBelow(g: Graph, s: PointsTo, L: PointsTo, n: Node, value: Node, into: Node, l: Location, p: Pointer)
    requires Below(s, L) && Closed(g, L, n) && g.nodes[n] == Store(value, into) && Gives(g, s, n, g.nodes[n], l, p)
    requires Real(p)
    ensures Covers(L, l, p)
  {
    hide Below, Covers, Closed;
    ClosedCovers(g, L, n);
    var ptr :| ptr in At(s, Var(into)) && StoreVia(g, s, value, ptr, l, p);
    var ptr' := VarBelow(s, L, into, ptr);
    var p' := VarBelow(s, L, value, p);
    var l' := Cell(ptr.target.node, ptr'.offset);
    assert StoreVia(g, L, value, ptr', l', p');
    CoversWider(L, l, p, l', p');
  }

  lemma CallReturnBelow(g: Graph, s: PointsTo, L: PointsTo, n: Node, ops: seq<Node>, l: Location, p: Pointer)
    requires Below(s, L) && Closed(g, L, n) && g.nodes[n] == CallReturn(ops) && Gives(g, s, n, g.nodes[n], l, p)
    requires Real(p)
    ensures Covers(L, l, p)
  {
    hide Below, Covers, Closed, InSome;
    ClosedCovers(g, L, n);
    if InSome(s, ops, p) {
      var p' := SomeBelow(s, L, ops, p);
      CoversWider(L, l, p, l, p');
    } else {
      var q :| InSome(s, ops, q) && g.Local(q);
      var q' := SomeBelow(s, L, ops, q);
      assert g.Local(q');
    }
  }

  lemma MemcpyBelow(g: Graph, s: PointsTo, L: PointsTo, n: Node, source: Node, dest: Node, len: Offset, l: Location,
                    p: Pointer)
    requires Below(s, L) && Closed(g, L, n) && g.nodes[n] == Memcpy(source, dest, len)
    requires Gives(g, s, n, g.nodes[n], l, p) && Real(p)
    ensures Covers(L, l, p)
  {
    hide Below, Covers, Closed;
    ClosedCovers(g, L, n);
    var ptr, dptr, x :|
      ptr in At(s, Var(source)) && dptr in At(s, Var(dest)) && MemcpyVia(g, s, len, ptr, dptr, x, l, p);
    var ptr' := VarBelow(s, L, source, ptr);
    var dptr' := VarBelow(s, L, dest, dptr);
    var x', p' := CellBelow(s, L, ptr.target.node, x, p);
    var l' := Cell(dptr.target.node, g.CopyOffset(x', ptr'.offset, dptr'.offset, dptr'.target));
    assert MemcpyVia(g, L, len, ptr', dptr', x', l', p');
    CoversWider(L, l, p, l', p');
  }

  // ---- what a node reads and writes

  /** The nodes whose points-to sets n reads. */
  function Operands(k: PSNode): seq<Node> {
    match k
    case Load(op) => [op]
    case Store(value, into) => [value, into]
    case Gep(source, _) => [source]
    case Cast(op) => [op]
    case Phi(ops) => ops
    case CallReturn(ops) => ops
    case FuncPtrCall(op) => [op]
    case Memcpy(source, dest, _) => [source, dest]
    case _ => []
  }

  /** The memory of t is read through what its operand points to. */
  ghost predicate ReadsObject(g: Graph, s: PointsTo, k: PSNode, t: Node) {
    match k
    case Load(op) => PointsInto(g, s, op, t)
    case Memcpy(source, _, _) => PointsInto(g, s, source, t)
    case _ => false
  }

  ghost predicate WritesObject(g: Graph, s: PointsTo, k: PSNode, t: Node) {
    match k
    case Store(_, into) => PointsInto(g, s, into, t)
    case Memcpy(_, dest, _) => PointsInto(g, s, dest, t)
    case _ => false
  }

  ghost predicate PointsInto(g: Graph, s: PointsTo, n: Node, t: Node) {
    exists ptr :: ptr in At(s, Var(n)) && g.Dereferenceable(ptr) && ptr.target.node == t
  }

  /** Only stores and copies write memory; the other nodes write their own set. */
  ghost predicate Writes(g: Graph, s: PointsTo, n: Node, k: PSNode, l: Location) {
    match l
    case Var(v) => v == n && !k.Store? && !k.Memcpy?
    case Cell(t, _) => WritesObject(g, s, k, t)
  }

  /** n changed nothing but what it writes. */
  ghost predicate Framed(g: Graph, n: Node, s: PointsTo, t: PointsTo) {
    n in g.nodes && forall l :: !Writes(g, s, n, g.nodes[n], l) ==> At(t, l) == At(s, l) && (l in t <==> l in s)
  }

  /** Node w writes what m reads. */
  ghost predicate Influences(g: Graph, s: PointsTo, w: Node, m: Node) {
    w in g.nodes && m in g.nodes
      && (Feeds(g, w, m) || exists t :: WritesObject(g, s, g.nodes[w], t) && ReadsObject(g, s, g.nodes[m], t))
  }

  ghost predicate Feeds(g: Graph, w: Node, m: Node)
    requires w in g.nodes && m in g.nodes
  {
    w in Operands(g.nodes[m]) && !g.nodes[w].Store? && !g.nodes[w].Memcpy?
  }

  lemma InfluencesBelow(g: Graph, s: PointsTo, L: PointsTo, w: Node, m: Node)
    requires Below(s, L) && Influences(g, s, w, m)
    ensures Influences(g, L, w, m)
  {
    hide Below;
    if !Feeds(g, w, m) {
      var t :| WritesObject(g, s, g.nodes[w], t) && ReadsObject(g, s, g.nodes[m], t);
      ObjectBelow(g, s, L, g.nodes[w], t);
      ObjectBelow(g, s, L, g.nodes[m], t);
    }
  }

  lemma ObjectBelow(g: Graph, s: PointsTo, L: PointsTo, k: PSNode, t: Node)
    requires Below(s, L)
    ensures WritesObject(g, s, k, t) ==> WritesObject(g, L, k, t)
    ensures ReadsObject(g, s, k, t) ==> ReadsObject(g, L, k, t)
  {
    hide Below;
    forall n | PointsInto(g, s, n, t) ensures PointsInto(g, L, n, t) {
      var ptr :| ptr in At(s, Var(n)) && g.Dereferenceable(ptr) && ptr.target.node == t;
      var ptr' := VarBelow(s, L, n, ptr);
    }
  }

  /** A node stays closed when another one changes what it does not read. */
  lemma StaysClosed(g: Graph, w: Node, s: PointsTo, t: PointsTo, m: Node)
    requires Closed(g, s, m) && Grows(s, t) && Framed(g, w, s, t) && !Influences(g, s, w, m)
    ensures Closed(g, t, m)
  {
    hide Grows, Covers, Framed;
    forall l, p | Gives(g, t, m, g.nodes[m], l, p) && Real(p) ensures Covers(t, l, p) {
      SameGives(g, w, s, t, m, l, p);
      CoversGrows(s, t, l, p);
    }
  }

  lemma SameGives(g: Graph, w: Node, s: PointsTo, t: PointsTo, m: Node, l: Location, p: Pointer)
    requires m in g.nodes && Framed(g, w, s, t) && !Influences(g, s, w, m) && Gives(g, t, m, g.nodes[m], l, p)
    ensures Gives(g, s, m, g.nodes[m], l, p)
  {
    var k := g.nodes[m];
    forall op | op in Operands(k) ensures At(t, Var(op)) == At(s, Var(op)) {
      assert !Writes(g, s, w, g.nodes[w], Var(op));
    }
    forall o, x | ReadsObject(g, s, k, o) ensures At(t, Cell(o, x)) == At(s, Cell(o, x)) {
      assert !Writes(g, s, w, g.nodes[w], Cell(o, x));
    }
    hide Framed, Influences;
    match k
    case Load(op) =>
      var ptr :| ptr in At(t, Var(op)) && LoadVia(g, t, ptr, p);
      assert op in Operands(k);
      assert LoadVia(g, s, ptr, p) by {
        if ptr.target != UnknownMemory { assert ReadsObject(g, s, k, ptr.target.node); }
      }
    case Store(value, into) =>
      assert value in Operands(k) && into in Operands(k);
    case Memcpy(source, dest, len) =>
      var ptr, dptr, x :|
        ptr in At(t, Var(source)) && dptr in At(t, Var(dest)) && MemcpyVia(g, t, len, ptr, dptr, x, l, p);
      assert source in Operands(k) && dest in Operands(k) && ReadsObject(g, s, k, ptr.target.node);
      assert MemcpyVia(g, s, len, ptr, dptr, x, l, p);
    case Phi(ops) =>
    case CallReturn(ops) =>
    case Gep(source, _) => assert source in Operands(k);
    case Cast(op) => assert op in Operands(k);
    case FuncPtrCall(op) => assert op in Operands(k);
    case _ =>
  }
}
