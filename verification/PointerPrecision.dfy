/** What the rules of the analysis generate is not too much: offsets are kept where they can
    be, and every pointer that is generated arises in some step from a covered machine. */
module PointerPrecision {
  import opened Offsets
  import opened Digraphs
  import opened PointerStates
  import opened PointerRules
  import opened PointerOffsets
  import opened PointerSoundness

  // ---- offsets

  /** With a known start and a known distance a gep takes the exact pointer to the exact pointer
      if its offset is kept in the object, and forgets it if not. */
  lemma GepIsPrecise(g: Graph, c: Machine, d: Machine, n: Node, a: Address, off: Offset, i: Offset)
    requires a.obj in c.site && a.offset != UNKNOWN && off != UNKNOWN && Moved(c, d, n, a, off, i)
    ensures n in d.env && d.env[n].obj in d.site
    ensures var e := Abstract(d, d.env[n]);
      g.GepPointer(Abstract(c, a), off) == if InField(g, e.target, e.offset) then e else Blur(e)
  {
    assert i == off;
  }

  /** Between known offsets, the i-th byte is copied exactly if the length allows it, and to the
      exact offset if it fits there. */
  lemma CopyIsPrecise(g: Graph, c: Machine, from: Address, to: Address, len: Offset, i: nat)
    requires from.obj in c.site && to.obj in c.site && to.offset != UNKNOWN && from.offset + i < UNKNOWN
    ensures var so, dt := from.offset, Object(c.site[to.obj]);
      && (InRange(so, so + i, len) <==> len == UNKNOWN || i < len)
      && g.CopyOffset(so + i, so, to.offset, dt) == if Fits(g, dt, to.offset + i) then to.offset + i else UNKNOWN
  {
  }

  // ---- steps that generate a pointer

  /** The machine d holds p at l, at its exact offset if that is known. */
  ghost predicate HoldsAt(d: Machine, l: Location, p: Pointer) {
    match l
    case Var(n) => n in d.env && IsAt(d, d.env[n], p)
    case Cell(b, x) => exists e: Address :: CellIs(d, e, b, x) && IsAt(d, d.mem[e], p)
  }

  ghost predicate CellIs(d: Machine, e: Address, b: Node, x: Offset) {
    e in d.mem && e.obj in d.site && d.site[e.obj] == b && (e.offset == x || x == UNKNOWN)
  }

  /** Some step of n from a covered machine leads to p at l. */
  ghost predicate Arises(g: Graph, s: PointsTo, n: Node, l: Location, p: Pointer) {
    exists c, d :: ArisesIn(g, s, n, l, p, c, d)
  }

  ghost predicate ArisesIn(g: Graph, s: PointsTo, n: Node, l: Location, p: Pointer, c: Machine, d: Machine) {
    n in g.nodes && Covered(s, c) && Step(g, c, n, g.nodes[n], d) && HoldsAt(d, l, p)
  }

  /** The operands of n are different nodes, and it does not copy nothing. */
  ghost predicate Proper(k: PSNode) {
    match k
    case Store(value, into) => value != into
    case Memcpy(source, dest, len) => source != dest && len > 0
    case _ => true
  }

  /** A machine in which some nodes and cells hold what the analysis says. */
  lemma CoveredMachine(s: PointsTo, c: Machine)
    requires forall n :: n in c.env ==> c.env[n].obj in c.site && Covers(s, Var(n), Abstract(c, c.env[n]))
    requires forall a :: a in c.mem ==>
      a.obj in c.site && c.mem[a].obj in c.site
        && Covers(s, Cell(c.site[a.obj], a.offset), Abstract(c, c.mem[a]))
    ensures Covered(s, c)
  {
    hide Covers;
    forall n ensures VarCovered(s, c, n) {}
    forall a ensures CellCovered(s, c, a) {}
  }

  lemma CopyArises(g: Graph, s: PointsTo, n: Node, op: Node, p: Pointer)
    requires n in g.nodes && p in At(s, Var(op)) && p.target.Object?
    requires forall c, d :: d == SetVar(c, n, op) && op in c.env && Abstracts(c, c.env[op], p) ==>
      Step(g, c, n, g.nodes[n], d)
    ensures Arises(g, s, n, Var(n), p)
  {
    hide Step;
    var c := Machine(map[0 := p.target.node], map[op := Address(0, p.offset)], map[]);
    CoveredMachine(s, c);
    var d := SetVar(c, n, op);
    assert Abstracts(c, c.env[op], p);
    assert ArisesIn(g, s, n, Var(n), p, c, d);
  }

  /** a is the address that p stands for. */
  ghost predicate Abstracts(c: Machine, a: Address, p: Pointer) { a.obj in c.site && Abstract(c, a) == p }

  lemma LoadArises(g: Graph, s: PointsTo, n: Node, op: Node, ptr: Pointer, p: Pointer)
    requires n in g.nodes && g.nodes[n] == Load(op) && ptr in At(s, Var(op)) && LoadVia(g, s, ptr, p)
    requires p.target.Object?
    ensures Arises(g, s, n, Var(n), p)
  {
    var x: Offset :| MayMeet(ptr.offset, x) && p in At(s, Cell(ptr.target.node, x));
    var a, b := Address(0, if ptr.offset == UNKNOWN then x else ptr.offset), Address(1, p.offset);
    var c := Machine(map[0 := ptr.target.node, 1 := p.target.node], map[op := a], map[a := b]);
    assert Holds(At(s, Var(op)), Pointer(ptr.target, a.offset));
    assert Covers(s, Cell(ptr.target.node, a.offset), p);
    CoveredMachine(s, c);
    var d := c.(env := c.env[n := b]);
    assert Step(g, c, n, g.nodes[n], d);
    hide Step, Covered;
    assert ArisesIn(g, s, n, Var(n), p, c, d);
  }

  lemma StoreArises(g: Graph, s: PointsTo, n: Node, value: Node, into: Node, ptr: Pointer, l: Location, p: Pointer)
    requires n in g.nodes && g.nodes[n] == Store(value, into) && value != into && p.target.Object?
    requires ptr in At(s, Var(into)) && StoreVia(g, s, value, ptr, l, p)
    ensures Arises(g, s, n, l, p)
  {
    var a, b := Address(0, ptr.offset), Address(1, p.offset);
    var c := Machine(map[0 := ptr.target.node, 1 := p.target.node], map[into := a, value := b], map[]);
    CoveredMachine(s, c);
    var d := c.(mem := c.mem[a := b]);
    assert Step(g, c, n, g.nodes[n], d);
    hide Step, Covered;
    assert CellIs(d, a, l.base, l.offset);
    assert ArisesIn(g, s, n, l, p, c, d);
  }

  lemma GepArises(g: Graph, s: PointsTo, n: Node, source: Node, off: Offset, ptr: Pointer, p: Pointer)
    requires n in g.nodes && g.nodes[n] == Gep(source, off) && ptr in At(s, Var(source)) && p == g.GepPointer(ptr, off)
    requires p.target.Object?
    ensures Arises(g, s, n, Var(n), p)
  {
    var a, i: Offset := Address(0, ptr.offset), if off == UNKNOWN then 0 else off;
    var c := Machine(map[0 := ptr.target.node], map[source := a], map[]);
    CoveredMachine(s, c);
    var d := c.(env := c.env[n := Address(0, (a.offset + i) % (UNKNOWN + 1))]);
    assert Moved(c, d, n, a, off, i);
    assert Step(g, c, n, g.nodes[n], d);
    hide Step, Covered;
    assert ArisesIn(g, s, n, Var(n), p, c, d);
  }

  /** The byte that a copy through ptr takes to where x goes. */
  function CopiedFrom(ptr: Pointer, x: Offset): (int, int) {
    if ptr.offset != UNKNOWN && x != UNKNOWN then (ptr.offset, x - ptr.offset)
    else if ptr.offset != UNKNOWN then (ptr.offset, 0) else (x, 0)
  }

  lemma MemcpyArises(g: Graph, s: PointsTo, n: Node, source: Node, dest: Node, len: Offset, ptr: Pointer, dptr: Pointer,
                     x: Offset, l: Location, p: Pointer)
    requires n in g.nodes && g.nodes[n] == Memcpy(source, dest, len) && source != dest && len > 0 && p.target.Object?
    requires ptr in At(s, Var(source)) && dptr in At(s, Var(dest)) && MemcpyVia(g, s, len, ptr, dptr, x, l, p)
    ensures Arises(g, s, n, l, p)
  {
    var (fo, i) := CopiedFrom(ptr, x);
    var from, to, b := Address(0, fo), Address(1, dptr.offset), Address(2, p.offset);
    var at, e := Address(0, fo + i), Address(1, (dptr.offset + i) % (UNKNOWN + 1));
    var c := Machine(map[0 := ptr.target.node, 1 := dptr.target.node, 2 := p.target.node],
                     map[source := from, dest := to], map[at := b]);
    MemcpyMachine(s, source, dest, ptr, dptr, x, p, c);
    var d := c.(mem := c.mem[e := b]);
    CopiedOffset(g, x, ptr.offset, dptr.offset, dptr.target, fo, dptr.offset, i);
    hide Step, Covered, Graph.CopyOffset, Covers;
    MemcpySteps(g, c, n, source, dest, len, d, i);
    assert CellIs(d, e, l.base, l.offset);
    assert ArisesIn(g, s, n, l, p, c, d);
  }

  lemma MemcpyMachine(s: PointsTo, source: Node, dest: Node, ptr: Pointer, dptr: Pointer, x: Offset, p: Pointer,
                      c: Machine)
    requires ptr.target.Object? && dptr.target.Object? && p.target.Object? && source != dest
    requires ptr in At(s, Var(source)) && dptr in At(s, Var(dest)) && p in At(s, Cell(ptr.target.node, x))
    requires ptr.offset == UNKNOWN || x == UNKNOWN || ptr.offset <= x
    requires var (fo, i) := CopiedFrom(ptr, x);
      c == Machine(map[0 := ptr.target.node, 1 := dptr.target.node, 2 := p.target.node],
                   map[source := Address(0, fo), dest := Address(1, dptr.offset)],
                   map[Address(0, fo + i) := Address(2, p.offset)])
    ensures Covered(s, c)
  {
    var (fo, i) := CopiedFrom(ptr, x);
    assert Holds(At(s, Var(source)), Pointer(ptr.target, fo));
    assert Covers(s, Cell(ptr.target.node, fo + i), p);
    CoveredMachine(s, c);
  }

  lemma MemcpySteps(g: Graph, c: Machine, n: Node, source: Node, dest: Node, len: Offset, d: Machine, i: nat)
    requires n in g.nodes && g.nodes[n] == Memcpy(source, dest, len) && (len == UNKNOWN || i < len)
    requires source in c.env && dest in c.env && Memory(g, c, c.env[source]) && Memory(g, c, c.env[dest])
    requires var from, to := c.env[source], c.env[dest];
      && from.offset + i <= UNKNOWN && Address(from.obj, from.offset + i) in c.mem
      && d == c.(mem := c.mem[Address(to.obj,
                                      (to.offset + i) % (UNKNOWN + 1)) := c.mem[Address(from.obj, from.offset + i)]])
    ensures Step(g, c, n, g.nodes[n], d)
  {
    var from, to := c.env[source], c.env[dest];
    var length := if len == UNKNOWN then i + 1 else len;
    forall a | a in d.mem ensures Kept(c, d, a) || Copied(c, d, from, to, length, a) {
      if a == Address(to.obj, (to.offset + i) % (UNKNOWN + 1)) { assert CopiedByte(c, d, from, to, i, a); }
    }
    assert Copies(c, d, from, to, len, length);
  }

  /** Every pointer to an object that a node generates arises in some step of that node. */
  lemma RulesAreReal(g: Graph, s: PointsTo, n: Node, l: Location, p: Pointer)
    requires n in g.nodes && Gives(g, s, n, g.nodes[n], l, p) && p.target.Object? && Proper(g.nodes[n])
    requires g.nodes[n].FuncPtrCall? ==> p.target.node in g.nodes && g.nodes[p.target.node] == Function
    ensures Arises(g, s, n, l, p)
  {
    hide Arises, LoadVia, StoreVia, MemcpyVia, Graph.GepPointer, Step;
    match g.nodes[n]
    case Load(op) =>
      var ptr :| ptr in At(s, Var(op)) && LoadVia(g, s, ptr, p);
      LoadArises(g, s, n, op, ptr, p);
    case Store(value, into) =>
      var ptr :| ptr in At(s, Var(into)) && StoreVia(g, s, value, ptr, l, p);
      StoreArises(g, s, n, value, into, ptr, l, p);
    case Gep(source, off) =>
      var ptr :| ptr in At(s, Var(source)) && p == g.GepPointer(ptr, off);
      GepArises(g, s, n, source, off, ptr, p);
    case Cast(op) =>
      CopySteps(g, n, op, p);
      CopyArises(g, s, n, op, p);
    case Phi(ops) =>
      var i :| 0 <= i < |ops| && p in At(s, Var(ops[i]));
      CopySteps(g, n, ops[i], p);
      CopyArises(g, s, n, ops[i], p);
    case CallReturn(ops) =>
      var i :| 0 <= i < |ops| && p in At(s, Var(ops[i]));
      CopySteps(g, n, ops[i], p);
      CopyArises(g, s, n, ops[i], p);
    case FuncPtrCall(op) =>
      CopySteps(g, n, op, p);
      CopyArises(g, s, n, op, p);
    case Memcpy(source, dest, len) =>
      var ptr, dptr, x :|
        ptr in At(s, Var(source)) && dptr in At(s, Var(dest)) && MemcpyVia(g, s, len, ptr, dptr, x, l, p);
      MemcpyArises(g, s, n, source, dest, len, ptr, dptr, x, l, p);
    case _ =>
  }

  /** Casts, phis, returns and calls of functions copy one of their operands. */
  lemma CopySteps(g: Graph, n: Node, op: Node, p: Pointer)
    requires n in g.nodes
    requires match g.nodes[n]
      case Cast(o) => o == op
      case Phi(ops) => op in ops
      case CallReturn(ops) => op in ops
      case FuncPtrCall(o) => o == op && p.target.Object? && p.target.node in g.nodes
        && g.nodes[p.target.node] == Function
      case _ => false
    ensures forall c, d :: d == SetVar(c, n, op) && op in c.env && Abstracts(c, c.env[op], p) ==>
      Step(g, c, n, g.nodes[n], d)
  {
  }
}
