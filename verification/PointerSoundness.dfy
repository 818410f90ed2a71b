/** Concrete runs of a pointer program, and why a closed state covers them. */
module PointerSoundness {
  import opened Offsets
  import opened Digraphs
  import opened PointerStates
  import opened PointerRules

  /** An address: an object that was allocated, and an offset in it. */
  datatype Address = Address(obj: nat, offset: Offset)

  /** site: the node that allocated each object; env: the pointers that nodes hold;
      mem: the pointers in memory. What holds no valid pointer is absent. */
  datatype Machine = Machine(site: map<nat, Node>, env: map<Node, Address>, mem: map<Address, Address>)

  const Start: Machine := Machine(map[], map[], map[])

  function SetVar(c: Machine, n: Node, from: Node): Machine {
    c.(env := if from in c.env then c.env[n := c.env[from]] else c.env - {n})
  }

  /** The object of a is memory, so that it can be read and written. */
  ghost predicate Memory(g: Graph, c: Machine, a: Address) {
    a.obj in c.site && c.site[a.obj] in g.nodes && !g.nodes[c.site[a.obj]].Function?
  }

  /** The object of a is a function, so that it can be called. */
  ghost predicate IsCode(g: Graph, c: Machine, a: Address) {
    a.obj in c.site && c.site[a.obj] in g.nodes && g.nodes[c.site[a.obj]].Function?
  }

  /** Executing node n of kind k takes the machine from c to d. */
  ghost predicate Step(g: Graph, c: Machine, n: Node, k: PSNode, d: Machine) {
    match k
    case Alloc(_, _, _) => exists o :: o !in c.site && d == c.(site := c.site[o := n], env := c.env[n := Address(o, 0)])
    case Function => exists o ::
      (o in c.site ==> c.site[o] == n) && d == c.(site := c.site[o := n], env := c.env[n := Address(o, 0)])
    case Constant(p) =>
      exists a: Address ::
        a.obj in c.site && p.target == Object(c.site[a.obj]) && (p.offset == UNKNOWN || a.offset == p.offset)
        && d == c.(env := c.env[n := a])
    case Load(op) =>
      op in c.env && Memory(g, c, c.env[op])
      && d == c.(env := if c.env[op] in c.mem then c.env[n := c.mem[c.env[op]]] else c.env - {n})
    case Store(value, into) =>
      into in c.env && Memory(g, c, c.env[into])
      && d == c.(mem := if value in c.env then c.mem[c.env[into] := c.env[value]] else c.mem - {c.env[into]})
    case Gep(source, off) =>
      source in c.env && exists i: Offset :: Moved(c, d, n, c.env[source], off, i)
    case Cast(op) => d == SetVar(c, n, op)
    case Phi(ops) => exists i :: 0 <= i < |ops| && d == SetVar(c, n, ops[i])
    case CallReturn(ops) => exists i :: 0 <= i < |ops| && d == SetVar(c, n, ops[i])
    case FuncPtrCall(op) => d == c || (op in c.env && IsCode(g, c, c.env[op]) && d == SetVar(c, n, op))
    case Memcpy(source, dest, len) =>
      source in c.env && dest in c.env && Memory(g, c, c.env[source]) && Memory(g, c, c.env[dest])
      && d.site == c.site && d.env == c.env
      && exists length: nat :: Copies(c, d, c.env[source], c.env[dest], len, length)
    case Noop => d == c
  }

  /** n holds the address that is i bytes behind a. */
  ghost predicate Moved(c: Machine, d: Machine, n: Node, a: Address, off: Offset, i: Offset) {
    (off == UNKNOWN || i == off) && d == c.(env := c.env[n := Address(a.obj, (a.offset + i) % (UNKNOWN + 1))])
  }

  /** The new memory holds old cells, and cells that were copied. */
  ghost predicate Copies(c: Machine, d: Machine, from: Address, to: Address, len: Offset, length: nat) {
    (len == UNKNOWN || length == len) && forall a :: a in d.mem ==> Kept(c, d, a) || Copied(c, d, from, to, length, a)
  }

  ghost predicate Kept(c: Machine, d: Machine, a: Address)
    requires a in d.mem
  {
    a in c.mem && d.mem[a] == c.mem[a]
  }

  ghost predicate Copied(c: Machine, d: Machine, from: Address, to: Address, length: nat, a: Address)
    requires a in d.mem
  {
    exists i: nat :: i < length && CopiedByte(c, d, from, to, i, a)
  }

  ghost predicate CopiedByte(c: Machine, d: Machine, from: Address, to: Address, i: nat, a: Address)
    requires a in d.mem
  {
    from.offset + i <= UNKNOWN && Address(from.obj, from.offset + i) in c.mem
    && a == Address(to.obj, (to.offset + i) % (UNKNOWN + 1)) && d.mem[a] == c.mem[Address(from.obj, from.offset + i)]
  }

  // ---- coverage of a machine

  function Abstract(c: Machine, a: Address): Pointer
    requires a.obj in c.site
  {
    Pointer(Object(c.site[a.obj]), a.offset)
  }

  ghost predicate VarCovered(s: PointsTo, c: Machine, n: Node) {
    n in c.env ==> c.env[n].obj in c.site && Covers(s, Var(n), Abstract(c, c.env[n]))
  }

  ghost predicate CellCovered(s: PointsTo, c: Machine, a: Address) {
    a in c.mem ==>
      a.obj in c.site && c.mem[a].obj in c.site && Covers(s, Cell(c.site[a.obj], a.offset), Abstract(c, c.mem[a]))
  }

  /** Every pointer in the machine is covered at its exact or at the unknown offset. */
  ghost predicate Covered(s: PointsTo, c: Machine) {
    (forall n :: VarCovered(s, c, n)) && forall a :: CellCovered(s, c, a)
  }

  /** Allocations, functions and constants point to what they stand for. */
  ghost predicate Initialized(g: Graph, s: PointsTo) {
    forall n :: n in g.nodes ==>
      match g.nodes[n]
      case Alloc(_, _, _) => Covers(s, Var(n), Pointer(Object(n), 0))
      case Function => Covers(s, Var(n), Pointer(Object(n), 0))
      case Constant(p) => Covers(s, Var(n), p)
      case _ => true
  }

  lemma InitializedGrows(g: Graph, s: PointsTo, t: PointsTo)
    requires Initialized(g, s) && Grows(s, t)
    ensures Initialized(g, t)
  {
    hide Covers, Grows;
    forall n, l, p | n in g.nodes && Covers(s, l, p) ensures Covers(t, l, p) { CoversGrows(s, t, l, p); }
  }

  lemma MoreObjects(s: PointsTo, c: Machine, o: nat, n: Node, d: Machine)
    requires Covered(s, c) && (o in c.site ==> c.site[o] == n)
    requires d == c.(site := c.site[o := n], env := c.env[n := Address(o, 0)])
    requires Covers(s, Var(n), Pointer(Object(n), 0))
    ensures Covered(s, d)
  {
    hide Covers;
    forall v ensures VarCovered(s, d, v) { assert VarCovered(s, c, v); }
    forall a ensures CellCovered(s, d, a) { assert CellCovered(s, c, a); }
  }

  lemma MoreEnv(s: PointsTo, c: Machine, n: Node, a: Address, d: Machine)
    requires Covered(s, c) && d == c.(env := c.env[n := a]) && a.obj in c.site && Covers(s, Var(n), Abstract(c, a))
    ensures Covered(s, d)
  {
    hide Covers;
    forall v ensures VarCovered(s, d, v) { assert VarCovered(s, c, v); }
    forall b ensures CellCovered(s, d, b) { assert CellCovered(s, c, b); }
  }

  lemma LessEnv(s: PointsTo, c: Machine, n: Node, d: Machine)
    requires Covered(s, c) && d == c.(env := c.env - {n})
    ensures Covered(s, d)
  {
    hide Covers;
    forall v ensures VarCovered(s, d, v) { assert VarCovered(s, c, v); }
    forall b ensures CellCovered(s, d, b) { assert CellCovered(s, c, b); }
  }

  /** A covered variable: what the analysis holds for it. */
  lemma Held(s: PointsTo, c: Machine, n: Node) returns (p: Pointer)
    requires Covered(s, c) && n in c.env
    ensures c.env[n].obj in c.site && p in At(s, Var(n))
    ensures p == Abstract(c, c.env[n]) || p == Blur(Abstract(c, c.env[n]))
  {
    assert VarCovered(s, c, n);
    var l;
    l, p := CoversWitness(s, Var(n), Abstract(c, c.env[n]));
  }

  lemma CellHeld(s: PointsTo, c: Machine, a: Address) returns (x: Offset, p: Pointer)
    requires Covered(s, c) && a in c.mem
    ensures a.obj in c.site && c.mem[a].obj in c.site && (x == a.offset || x == UNKNOWN)
    ensures p in At(s, Cell(c.site[a.obj], x))
    ensures p == Abstract(c, c.mem[a]) || p == Blur(Abstract(c, c.mem[a]))
  {
    assert CellCovered(s, c, a);
    var l;
    l, p := CoversWitness(s, Cell(c.site[a.obj], a.offset), Abstract(c, c.mem[a]));
    x := l.offset;
  }

  lemma CopyStep(g: Graph, s: PointsTo, c: Machine, n: Node, from: Node, d: Machine)
    requires Covered(s, c) && d == SetVar(c, n, from)
    requires forall p :: p in At(s, Var(from)) && Real(p) ==> Covers(s, Var(n), p)
    ensures Covered(s, d)
  {
    hide Covers, Covered;
    if from in c.env {
      var p := Held(s, c, from);
      CoversWider(s, Var(n), Abstract(c, c.env[from]), Var(n), p);
      MoreEnv(s, c, n, c.env[from], d);
    } else {
      LessEnv(s, c, n, d);
    }
  }

  lemma LoadStep(g: Graph, s: PointsTo, c: Machine, n: Node, op: Node, d: Machine)
    requires Covered(s, c) && Closed(g, s, n) && g.nodes[n] == Load(op) && Step(g, c, n, Load(op), d)
    ensures Covered(s, d)
  {
    hide Covers, Covered, Closed;
    ClosedCovers(g, s, n);
    if c.env[op] in c.mem {
      var ptr := Held(s, c, op);
      var x, p := CellHeld(s, c, c.env[op]);
      assert MayMeet(ptr.offset, x);
      assert LoadVia(g, s, ptr, p);
      assert Gives(g, s, n, g.nodes[n], Var(n), p);
      CoversWider(s, Var(n), Abstract(c, c.mem[c.env[op]]), Var(n), p);
      MoreEnv(s, c, n, c.mem[c.env[op]], d);
    } else {
      LessEnv(s, c, n, d);
    }
  }

  lemma StoreStep(g: Graph, s: PointsTo, c: Machine, n: Node, value: Node, into: Node, d: Machine)
    requires Covered(s, c) && Closed(g, s, n) && g.nodes[n] == Store(value, into)
    requires Step(g, c, n, Store(value, into), d)
    ensures Covered(s, d)
  {
    hide Covers, Closed;
    ClosedCovers(g, s, n);
    if value in c.env {
      var ptr := Held(s, c, into);
      var p := Held(s, c, value);
      var l := Cell(ptr.target.node, ptr.offset);
      assert StoreVia(g, s, value, ptr, l, p);
      CoversWider(s, Cell(ptr.target.node, c.env[into].offset), Abstract(c, c.env[value]), l, p);
    }
    forall v ensures VarCovered(s, d, v) { assert VarCovered(s, c, v); }
    forall b ensures CellCovered(s, d, b) { assert CellCovered(s, c, b); }
  }

  lemma GepStep(g: Graph, s: PointsTo, c: Machine, n: Node, source: Node, off: Offset, d: Machine)
    requires Covered(s, c) && Closed(g, s, n) && g.nodes[n] == Gep(source, off) && Step(g, c, n, Gep(source, off), d)
    ensures Covered(s, d)
  {
    hide Covers, Covered, Closed;
    ClosedCovers(g, s, n);
    var i: Offset :| Moved(c, d, n, c.env[source], off, i);
    var ptr := Held(s, c, source);
    var p := g.GepPointer(ptr, off);
    assert Gives(g, s, n, g.nodes[n], Var(n), p);
    CoversWider(s, Var(n), Abstract(c, d.env[n]), Var(n), p);
    MoreEnv(s, c, n, d.env[n], d);
  }

  lemma CopiedCell(g: Graph, s: PointsTo, c: Machine, n: Node, source: Node, dest: Node, len: Offset, d: Machine,
                   length: nat, a: Address)
    requires Covered(s, c) && Closed(g, s, n) && g.nodes[n] == Memcpy(source, dest, len)
    requires len == UNKNOWN || length == len
    requires source in c.env && dest in c.env && Memory(g, c, c.env[source]) && Memory(g, c, c.env[dest])
    requires d.site == c.site
    requires a in d.mem && Copied(c, d, c.env[source], c.env[dest], length, a)
    ensures CellCovered(s, d, a)
  {
    hide Covers, Covered, Closed;
    ClosedCovers(g, s, n);
    var from, to := c.env[source], c.env[dest];
    var i: nat :| i < length && CopiedByte(c, d, from, to, i, a);
    var y, p := CopiedGiven(g, s, c, n, source, dest, len, i);
    CoversWider(s, Cell(c.site[a.obj], a.offset), Abstract(c, d.mem[a]), Cell(c.site[to.obj], y), p);
  }

  /** What a copy generates for the i-th byte. */
  lemma CopiedGiven(g: Graph, s: PointsTo, c: Machine, n: Node, source: Node, dest: Node, len: Offset, i: nat)
      returns (y: Offset, p: Pointer)
    requires Covered(s, c) && n in g.nodes && g.nodes[n] == Memcpy(source, dest, len) && (len == UNKNOWN || i < len)
    requires source in c.env && dest in c.env && Memory(g, c, c.env[source]) && Memory(g, c, c.env[dest])
    requires c.env[source].offset + i <= UNKNOWN && Address(c.env[source].obj, c.env[source].offset + i) in c.mem
    ensures var q := c.mem[Address(c.env[source].obj, c.env[source].offset + i)];
      q.obj in c.site && (p == Abstract(c, q) || p == Blur(Abstract(c, q)))
    ensures y == UNKNOWN || y == (c.env[dest].offset + i) % (UNKNOWN + 1)
    ensures Gives(g, s, n, g.nodes[n], Cell(c.site[c.env[dest].obj], y), p)
  {
    hide Covers, Covered, Graph.CopyOffset;
    var from, to := c.env[source], c.env[dest];
    var ptr := Held(s, c, source);
    var dptr := Held(s, c, dest);
    var x;
    x, p := CellHeld(s, c, Address(from.obj, from.offset + i));
    y := g.CopyOffset(x, ptr.offset, dptr.offset, dptr.target);
    CopiedOffset(g, x, ptr.offset, dptr.offset, dptr.target, from.offset, to.offset, i);
    assert MemcpyVia(g, s, len, ptr, dptr, x, Cell(dptr.target.node, y), p);
  }

  /** The shifted offset is the one that the copy hits, or unknown. */
  lemma CopiedOffset(g: Graph, x: Offset, so: Offset, to: Offset, t: Target, from: Offset, into: Offset, i: nat)
    requires from + i <= UNKNOWN && (x == from + i || x == UNKNOWN) && (so == from || so == UNKNOWN)
    requires to == into || to == UNKNOWN
    ensures g.CopyOffset(x, so, to, t) == UNKNOWN || g.CopyOffset(x, so, to, t) == (into + i) % (UNKNOWN + 1)
  {
  }

  lemma MemcpyStep(g: Graph, s: PointsTo, c: Machine, n: Node, source: Node, dest: Node, len: Offset, d: Machine)
    requires Covered(s, c) && Closed(g, s, n) && g.nodes[n] == Memcpy(source, dest, len)
    requires Step(g, c, n, Memcpy(source, dest, len), d)
    ensures Covered(s, d)
  {
    hide Covers, Closed, Copied;
    var length: nat :| Copies(c, d, c.env[source], c.env[dest], len, length);
    forall v ensures VarCovered(s, d, v) { assert VarCovered(s, c, v); }
    forall a ensures CellCovered(s, d, a) {
      if a in d.mem && Copied(c, d, c.env[source], c.env[dest], length, a) {
        CopiedCell(g, s, c, n, source, dest, len, d, length, a);
      } else {
        assert CellCovered(s, c, a);
      }
    }
  }

  lemma CallStep(g: Graph, s: PointsTo, c: Machine, n: Node, op: Node, d: Machine)
    requires Covered(s, c) && Closed(g, s, n) && g.nodes[n] == FuncPtrCall(op)
    requires op in c.env && IsCode(g, c, c.env[op]) && d == SetVar(c, n, op)
    ensures Covered(s, d)
  {
    hide Covers, Covered, Closed;
    ClosedCovers(g, s, n);
    var p := Held(s, c, op);
    assert Gives(g, s, n, g.nodes[n], Var(n), p);
    CoversWider(s, Var(n), Abstract(c, c.env[op]), Var(n), p);
    MoreEnv(s, c, n, c.env[op], d);
  }

  /** One step of a node under which the state is closed keeps the machine covered. */
  lemma StepIsCovered(g: Graph, s: PointsTo, c: Machine, n: Node, d: Machine)
    requires Covered(s, c) && Initialized(g, s) && Closed(g, s, n) && Step(g, c, n, g.nodes[n], d)
    ensures Covered(s, d)
  {
    hide Covers, Covered, Closed;
    ClosedCovers(g, s, n);
    match g.nodes[n]
    case Alloc(_, _, _) =>
      var o :| o !in c.site && d == c.(site := c.site[o := n], env := c.env[n := Address(o, 0)]);
      MoreObjects(s, c, o, n, d);
    case Function =>
      var o :| (o in c.site ==> c.site[o] == n) && d == c.(site := c.site[o := n], env := c.env[n := Address(o, 0)]);
      MoreObjects(s, c, o, n, d);
    case Constant(p) =>
      var a: Address :|
        a.obj in c.site && p.target == Object(c.site[a.obj]) && (p.offset == UNKNOWN || a.offset == p.offset)
        && d == c.(env := c.env[n := a]);
      CoversWider(s, Var(n), Abstract(c, a), Var(n), p);
      MoreEnv(s, c, n, a, d);
    case Load(op) => LoadStep(g, s, c, n, op, d);
    case Store(value, into) => StoreStep(g, s, c, n, value, into, d);
    case Gep(source, off) => GepStep(g, s, c, n, source, off, d);
    case Cast(op) => CopyStep(g, s, c, n, op, d);
    case Phi(ops) =>
      var i :| 0 <= i < |ops| && d == SetVar(c, n, ops[i]);
      CopyStep(g, s, c, n, ops[i], d);
    case CallReturn(ops) =>
      var i :| 0 <= i < |ops| && d == SetVar(c, n, ops[i]);
      CopyStep(g, s, c, n, ops[i], d);
    case FuncPtrCall(op) => if d != c { CallStep(g, s, c, n, op, d); }
    case Memcpy(source, dest, len) => MemcpyStep(g, s, c, n, source, dest, len, d);
    case Noop =>
  }

  /** A run executes the nodes one after the other, in any order. */
  ghost predicate Run(g: Graph, nodes: seq<Node>, run: seq<Machine>) {
    && |run| == |nodes| + 1 && run[0] == Start
    && forall i :: 0 <= i < |nodes| ==> nodes[i] in g.nodes && Step(g, run[i], nodes[i], g.nodes[nodes[i]], run[i + 1])
  }

  /** Every machine on every run of nodes under which the state is closed is covered. */
  lemma {:induction false} RunsAreCovered(g: Graph, s: PointsTo, nodes: seq<Node>, run: seq<Machine>, i: nat)
    requires Initialized(g, s) && Run(g, nodes, run) && i < |run| && forall n :: n in nodes ==> Closed(g, s, n)
    ensures Covered(s, run[i])
  {
    hide Covers, Closed, Initialized, Step;
    if i > 0 {
      RunsAreCovered(g, s, nodes, run, i - 1);
      assert Step(g, run[i - 1], nodes[i - 1], g.nodes[nodes[i - 1]], run[i - 1 + 1]);
      StepIsCovered(g, s, run[i - 1], nodes[i - 1], run[i]);
    }
  }

  /** What coverage says of a variable and of a memory cell. */
  lemma CoveredMeans(s: PointsTo, c: Machine, n: Node, a: Address)
    requires Covered(s, c)
    ensures n in c.env ==> exists p :: p in At(s, Var(n)) && IsAt(c, c.env[n], p)
    ensures a in c.mem ==>
      a.obj in c.site && exists p, x ::
        p in At(s, Cell(c.site[a.obj], x)) && (x == a.offset || x == UNKNOWN) && IsAt(c, c.mem[a], p)
  {
    if n in c.env { var p := Held(s, c, n); assert IsAt(c, c.env[n], p); }
    if a in c.mem { var x, p := CellHeld(s, c, a); assert IsAt(c, c.mem[a], p); }
  }

  /** p points to the object of a, at its offset or at the unknown one. */
  ghost predicate IsAt(c: Machine, a: Address, p: Pointer) {
    a.obj in c.site && p.target == Object(c.site[a.obj]) && (p.offset == a.offset || p.offset == UNKNOWN)
  }

  // ---- forgetting offsets of GEP nodes beforehand

  /** h is g with the offsets of some GEP nodes forgotten. */
  ghost predicate Preprocessed(g: Graph, h: Graph) {
    && h.nodes.Keys == g.nodes.Keys
    && forall n :: n in g.nodes ==>
      h.nodes[n] == g.nodes[n] || (g.nodes[n].Gep? && h.nodes[n] == g.nodes[n].(offset := UNKNOWN))
  }

  /** The runs of g are runs of h, so that what covers the runs of h covers those of g. */
  lemma PreprocessedRuns(g: Graph, h: Graph, nodes: seq<Node>, run: seq<Machine>)
    requires Preprocessed(g, h) && Run(g, nodes, run)
    ensures Run(h, nodes, run)
  {
    hide Step;
    forall i | 0 <= i < |nodes|
      ensures nodes[i] in h.nodes && Step(h, run[i], nodes[i], h.nodes[nodes[i]], run[i + 1])
    {
      assert Step(g, run[i], nodes[i], g.nodes[nodes[i]], run[i + 1]);
      PreprocessedStep(g, h, run[i], nodes[i], run[i + 1]);
    }
  }

  lemma PreprocessedStep(g: Graph, h: Graph, c: Machine, n: Node, d: Machine)
    requires Preprocessed(g, h) && n in g.nodes && Step(g, c, n, g.nodes[n], d)
    ensures Step(h, c, n, h.nodes[n], d)
  {
    forall a | Memory(g, c, a) ensures Memory(h, c, a) {}
    hide Memory, Copies;
    if g.nodes[n].Gep? && n in d.env {
      forall i: Offset | Moved(c, d, n, c.env[g.nodes[n].source], g.nodes[n].offset, i)
        ensures Moved(c, d, n, c.env[g.nodes[n].source], h.nodes[n].offset, i) {}
    }
  }
}
