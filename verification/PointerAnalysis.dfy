/** The flow-insensitive pointer analysis. */
module PointerAnalyses {
  import opened Offsets
  import opened Digraphs
  import opened PointerStates
  import opened PointerRules
  import opened PointerProgress
  import opened PointerOffsets
  import opened PointerEffects
  import opened NodesWalks
  import opened PointerSchedules

  /** The offsets at which an object holds pointers. */
  function OffsetsOf(s: PointsTo, b: Node): set<Offset> { set l | l in s && l.Cell? && l.base == b :: l.offset }

  /** Those of them that are larger than the last one. */
  function LaterOffsets(s: PointsTo, b: Node, last: int): set<Offset> { set x | x in OffsetsOf(s, b) && x > last }

  class PointerAnalysisFI {
    var graph: Graph
    const pg: PointerGraph
    const globals: seq<Node>
    const root: Node
    /** The loops of the graph's subgraphs. */
    const loops: seq<seq<Node>>
    const preprocessGeps: bool
    const maxIterations: nat
    var pts: PointsTo
    /** The allocations whose memory is zeroed. */
    var zeroInitialized: set<Node>
    var toProcess: seq<Node>
    var changedNodes: seq<Node>

    constructor (graph: Graph, pg: PointerGraph, globals: seq<Node>, root: Node, loops: seq<seq<Node>>,
                 preprocessGeps: bool, maxIterations: nat, zeroInitialized: set<Node>, pts: PointsTo)
      ensures this.graph == graph && this.pg == pg && this.globals == globals && this.root == root
      ensures this.loops == loops
      ensures this.preprocessGeps == preprocessGeps && this.maxIterations == maxIterations
      ensures this.pts == pts && this.zeroInitialized == zeroInitialized && toProcess == changedNodes == []
    {
      this.graph, this.pg, this.globals, this.root, this.loops := graph, pg, globals, root, loops;
      this.preprocessGeps, this.maxIterations := preprocessGeps, maxIterations;
      this.pts, this.zeroInitialized, toProcess, changedNodes := pts, zeroInitialized, [], [];
    }

    method AddPointsTo(l: Location, p: Pointer) returns (changed: bool)
      modifies this`pts
      ensures pts == AddAt(old(pts), l, p) && changed == (AddPointer(At(old(pts), l), p) != At(old(pts), l))
    {
      changed := AddPointer(At(pts, l), p) != At(pts, l);
      pts := AddAt(pts, l, p);
    }

    method AddAllPointsTo(l: Location, P: set<Pointer>) returns (changed: bool)
      modifies this`pts
      ensures pts == UnionAt(old(pts), l, P) && changed == !(P <= At(old(pts), l))
    {
      changed := !(P <= At(pts, l));
      pts := UnionAt(pts, l, P);
    }

    method ProcessGep(n: Node) returns (changed: bool)
      requires n in graph.nodes && graph.nodes[n].Gep?
      modifies this`pts
      ensures Processed(graph, n, old(pts), pts, changed)
      ensures NullsRead(graph, n, zeroInitialized, old(pts), pts)
      ensures Shifted(graph, At(old(pts), Var(n)), At(old(pts), Var(graph.nodes[n].source)), graph.nodes[n].offset,
                      At(pts, Var(n)))
    {
      hide Partly, ViaAll, Via, Grows, Graph.GepPointer, NullsRead, ReadsNull, Merged, AddPointer, Shifted;
      ghost var s, g := pts, graph;
      ghost var was, gen: set<Pointer> := At(s, Var(n)), {};
      MergedNone(was);
      var source, off := graph.nodes[n].source, graph.nodes[n].offset;
      var todo := At(pts, Var(source));
      changed := false;
      NothingYet(g, n, s);
      NoNullsYet(g, n, zeroInitialized, s);
      NoneVia(g, n, s, s);
      assert At(s, Var(source)) - todo == {};
      while todo != {}
        invariant todo <= At(s, Var(source)) && Partly(g, n, s, pts, changed)
        invariant ViaAll(g, n, s, pts, At(s, Var(source)) - todo) && NullsRead(g, n, zeroInitialized, s, pts)
        invariant Merged(was, gen, At(pts, Var(n)))
        invariant forall q :: q in gen <==> exists p :: p in At(s, Var(source)) - todo && q == g.GepPointer(p, off)
      {
        var ptr :| ptr in todo;
        ghost var t := pts;
        MergedStep(was, gen, At(t, Var(n)), g.GepPointer(ptr, off));
        gen := gen + {g.GepPointer(ptr, off)};
        GepGives(g, n, s, t, ptr);
        AddOne(g, n, s, t, changed, Var(n), g.GepPointer(ptr, off));
        AddAtGrows(t, Var(n), g.GepPointer(ptr, off));
        ReadIsClean(g, n, zeroInitialized, s, Var(source), ptr);
        GepTarget(g, ptr, off);
        AddOneNull(g, n, zeroInitialized, s, t, Var(n), g.GepPointer(ptr, off));
        var c := AddPointsTo(Var(n), graph.GepPointer(ptr, off));
        changed := changed || c;
        GepVia(g, n, s, pts, ptr);
        ViaOneMore(g, n, s, t, pts, At(s, Var(source)) - todo, ptr);
        assert At(s, Var(source)) - (todo - {ptr}) == At(s, Var(source)) - todo + {ptr};
        todo := todo - {ptr};
      }
      assert At(s, Var(source)) - todo == At(s, Var(source));
      ViaDelivers(g, n, s, pts);
      MergedShifts(g, was, At(s, Var(source)), off, gen, At(pts, Var(n)));
    }

    // ---- loads

    /** Load what an object holds at one offset. */
    method LoadCell(n: Node, b: Node, x: Offset, ptr: Pointer, ghost s: PointsTo, ghost before: bool)
      returns (changed: bool)
      requires IsLoad(graph, n) && Partly(graph, n, s, pts, before) && LoadsAt(graph, s, n, ptr, b, x)
      requires NullsRead(graph, n, zeroInitialized, s, pts) && LoadGains(graph, zeroInitialized, s, pts, n)
      modifies this`pts
      ensures Partly(graph, n, s, pts, before || changed) && Grows(old(pts), pts) && CellLoaded(s, pts, n, b, x)
      ensures NullsRead(graph, n, zeroInitialized, s, pts) && LoadGains(graph, zeroInitialized, s, pts, n)
    {
      hide Partly, Grows, MayAdd, Writes, Covers, WellTyped, NullsRead, LoadGains;
      CellGains(graph, zeroInitialized, s, pts, n, before, ptr, b, x);
      LoadGives(graph, n, s, pts, before, ptr, b, x);
      AddAll(graph, n, s, pts, before, Var(n), At(pts, Cell(b, x)));
      UnionAtGrows(pts, Var(n), At(pts, Cell(b, x)));
      CellIsRead(graph, s, n, ptr, b, x);
      AddAllNull(graph, n, zeroInitialized, s, pts, Var(n), Cell(b, x));
      changed := AddAllPointsTo(Var(n), At(pts, Cell(b, x)));
    }

    method LoadNull(n: Node, ghost ptr: Pointer, ghost s: PointsTo, ghost before: bool) returns (changed: bool)
      requires IsLoad(graph, n) && Partly(graph, n, s, pts, before) && ptr in At(s, Var(graph.nodes[n].operand))
      requires NullsRead(graph, n, zeroInitialized, s, pts) && ReadsNull(graph, n, zeroInitialized, s)
      requires LoadsNull(graph, zeroInitialized, s, ptr) && LoadGains(graph, zeroInitialized, s, pts, n)
      modifies this`pts
      ensures Partly(graph, n, s, pts, before || changed) && Grows(old(pts), pts) && Covers(pts, Var(n), NullPointer)
      ensures NullsRead(graph, n, zeroInitialized, s, pts) && LoadGains(graph, zeroInitialized, s, pts, n)
    {
      hide NullsRead, ReadsNull, LoadsNull, LoadGains;
      OneGain(graph, zeroInitialized, s, pts, n, ptr, NullPointer);
      AddOne(graph, n, s, pts, before, Var(n), NullPointer);
      AddAtGrows(pts, Var(n), NullPointer);
      AddOneNull(graph, n, zeroInitialized, s, pts, Var(n), NullPointer);
      changed := AddPointsTo(Var(n), NullPointer);
    }

    /** Load from memory at an unknown offset: everything that it holds. */
    method LoadObject(n: Node, b: Node, ptr: Pointer, ghost s: PointsTo, ghost before: bool) returns (changed: bool)
      requires IsLoad(graph, n) && Partly(graph, n, s, pts, before)
      requires NullsRead(graph, n, zeroInitialized, s, pts) && LoadGains(graph, zeroInitialized, s, pts, n)
      requires ptr.offset == UNKNOWN && forall x: Offset :: LoadsAt(graph, s, n, ptr, b, x)
      modifies this`pts
      ensures Partly(graph, n, s, pts, before || changed) && Grows(old(pts), pts)
      ensures forall x: Offset :: CellLoaded(s, pts, n, b, x)
      ensures NullsRead(graph, n, zeroInitialized, s, pts) && LoadGains(graph, zeroInitialized, s, pts, n)
      ensures OffsetsOf(s, b) == {} && b in zeroInitialized ==> Covers(pts, Var(n), NullPointer)
    {
      hide Partly, Grows, CellLoaded, LoadsAt, Covers, OffsetsOf, NullsRead, ReadsNull, LoadsNull, LoadGains;
      SameOffsets(graph, n, s, pts, before, b);
      ghost var start := pts;
      GrowsSelf(pts);
      changed := false;
      if OffsetsOf(pts, b) == {} && b in zeroInitialized {
        assert LoadsAt(graph, s, n, ptr, b, UNKNOWN);
        ObjectIsZeroed(graph, n, zeroInitialized, s, ptr, b, UNKNOWN);
        EmptyObject(graph, zeroInitialized, s, n, ptr, b);
        changed := LoadNull(n, ptr, s, before);
      }
      ghost var from, fromChanged := pts, before || changed;
      assert Partly(graph, n, s, from, fromChanged);
      var todo := OffsetsOf(pts, b);
      while todo != {}
        invariant todo <= OffsetsOf(from, b) && Partly(graph, n, s, pts, before || changed) && Grows(start, pts)
        invariant NullsRead(graph, n, zeroInitialized, s, pts) && LoadGains(graph, zeroInitialized, s, pts, n)
        invariant forall x :: x in OffsetsOf(from, b) && x !in todo ==> CellLoaded(s, pts, n, b, x)
        invariant Covers(from, Var(n), NullPointer) ==> Covers(pts, Var(n), NullPointer)
      {
        var x :| x in todo;
        ghost var t := pts;
        assert LoadsAt(graph, s, n, ptr, b, x);
        var c := LoadCell(n, b, x, ptr, s, before || changed);
        changed := changed || c;
        GrowsTransitive(start, t, pts);
        NullStays(t, pts, n);
        forall y | y in OffsetsOf(from, b) && y !in todo ensures CellLoaded(s, pts, n, b, y) {
          LoadedGrows(s, t, pts, n, b, y);
        }
        todo := todo - {x};
      }
      forall x: Offset ensures CellLoaded(s, pts, n, b, x) {
        if x !in OffsetsOf(from, b) { NothingAt(from, b, x); NothingThere(graph, n, s, from, fromChanged, pts, b, x); }
      }
    }

    /** What one pointer of the operand contributes to a load. */
    method LoadFrom(n: Node, ptr: Pointer, ghost s: PointsTo, ghost before: bool) returns (changed: bool)
      requires IsLoad(graph, n) && Partly(graph, n, s, pts, before) && ptr in At(s, Var(graph.nodes[n].operand))
      requires NullsRead(graph, n, zeroInitialized, s, pts) && LoadGains(graph, zeroInitialized, s, pts, n)
      modifies this`pts
      ensures NullsRead(graph, n, zeroInitialized, s, pts) && LoadGains(graph, zeroInitialized, s, pts, n)
      ensures Partly(graph, n, s, pts, before || changed) && Grows(old(pts), pts) && Via(graph, n, s, pts, ptr)
      ensures LoadsNull(graph, zeroInitialized, s, ptr) ==> Covers(pts, Var(n), NullPointer)
    {
      hide Partly, Grows, CellLoaded, LoadsAt, Via, Covers, OffsetsOf, NullsRead, ReadsNull, LoadGains;
      GrowsSelf(pts);
      ghost var start := pts;
      if ptr.target == UnknownMemory {
        LoadUnknown(graph, n, s, pts, ptr);
        AddOne(graph, n, s, pts, before, Var(n), UnknownPointer);
        AddAtGrows(pts, Var(n), UnknownPointer);
        AddOneNull(graph, n, zeroInitialized, s, pts, Var(n), UnknownPointer);
        OneGain(graph, zeroInitialized, s, pts, n, ptr, UnknownPointer);
        changed := AddPointsTo(Var(n), UnknownPointer);
        UnknownVia(graph, n, s, pts, ptr);
        return;
      }
      if !graph.Dereferenceable(ptr) {
        NoVia(graph, n, s, pts, ptr);
        return false;
      }
      var b := ptr.target.node;
      LoadsFrom(graph, s, n, ptr, b);
      if ptr.offset == UNKNOWN {
        changed := LoadObject(n, b, ptr, s, before);
      } else {
        changed := false;
        SameEntry(graph, n, s, pts, before, b, ptr.offset);
        if Cell(b, ptr.offset) !in pts {
          if b in zeroInitialized {
            ObjectIsZeroed(graph, n, zeroInitialized, s, ptr, b, ptr.offset);
            changed := LoadNull(n, ptr, s, before);
          }
          NothingThere(graph, n, s, start, before, pts, b, ptr.offset);
        } else {
          changed := LoadCell(n, b, ptr.offset, ptr, s, before);
        }
        ghost var t := pts;
        if Cell(b, UNKNOWN) in pts {
          var c := LoadCell(n, b, UNKNOWN, ptr, s, before || changed);
          changed := changed || c;
          LoadedGrows(s, t, pts, n, b, ptr.offset);
          GrowsTransitive(start, t, pts);
          NullStays(t, pts, n);
        } else {
          NothingThere(graph, n, s, pts, before || changed, pts, b, UNKNOWN);
        }
      }
      LoadVias(graph, n, s, pts, ptr, b);
    }

    method ProcessLoad(n: Node) returns (changed: bool)
      requires IsLoad(graph, n)
      modifies this`pts
      ensures Processed(graph, n, old(pts), pts, changed)
      ensures NullsRead(graph, n, zeroInitialized, old(pts), pts)
      ensures forall ptr ::
        ptr in At(old(pts), Var(graph.nodes[n].operand)) && LoadsNull(graph, zeroInitialized, old(pts), ptr) ==>
          Covers(pts, Var(n), NullPointer)
      ensures LoadGains(graph, zeroInitialized, old(pts), pts, n)
    {
      hide Partly, ViaAll, Via, Grows, Covers, LoadsNull, NullsRead, LoadGains;
      ghost var s, g := pts, graph;
      var op := graph.nodes[n].operand;
      var todo := At(pts, Var(op));
      changed := false;
      NothingYet(g, n, s);
      NoNullsYet(g, n, zeroInitialized, s);
      NoneVia(g, n, s, s);
      NoGains(g, zeroInitialized, s, n);
      assert At(s, Var(op)) - todo == {};
      while todo != {}
        invariant LoadGains(g, zeroInitialized, s, pts, n)
        invariant todo <= At(s, Var(op)) && Partly(g, n, s, pts, changed)
        invariant ViaAll(g, n, s, pts, At(s, Var(op)) - todo) && NullsRead(g, n, zeroInitialized, s, pts)
        invariant forall q :: q in At(s, Var(op)) - todo && LoadsNull(g, zeroInitialized, s, q) ==>
          Covers(pts, Var(n), NullPointer)
      {
        var ptr :| ptr in todo;
        ghost var t := pts;
        var c := LoadFrom(n, ptr, s, changed);
        changed := changed || c;
        NullStays(t, pts, n);
        ViaOneMore(g, n, s, t, pts, At(s, Var(op)) - todo, ptr);
        assert At(s, Var(op)) - (todo - {ptr}) == At(s, Var(op)) - todo + {ptr};
        todo := todo - {ptr};
      }
      assert At(s, Var(op)) - todo == At(s, Var(op));
      ViaDelivers(g, n, s, pts);
    }

    // ---- stores

    method StoreTo(n: Node, ptr: Pointer, ghost s: PointsTo, ghost before: bool) returns (changed: bool)
      requires IsStore(graph, n) && Partly(graph, n, s, pts, before) && ptr in At(s, Var(graph.nodes[n].into))
      requires NullsRead(graph, n, zeroInitialized, s, pts)
      modifies this`pts
      ensures NullsRead(graph, n, zeroInitialized, s, pts)
      ensures Partly(graph, n, s, pts, before || changed) && Grows(old(pts), pts) && Via(graph, n, s, pts, ptr)
      ensures pts == if graph.Dereferenceable(ptr)
        then UnionAt(old(pts), Cell(ptr.target.node, ptr.offset), At(old(pts), Var(graph.nodes[n].value))) else old(pts)
    {
      hide Partly, Grows, Via, Covers, MayAdd, Writes, GoodPointer, NullsRead;
      if !graph.Dereferenceable(ptr) {
        NoVia(graph, n, s, pts, ptr);
        GrowsSelf(pts);
        return false;
      }
      ghost var t := pts;
      var l, value := Cell(ptr.target.node, ptr.offset), graph.nodes[n].value;
      StoreGives(graph, n, s, pts, before, ptr);
      AddAll(graph, n, s, pts, before, l, At(pts, Var(value)));
      UnionAtGrows(pts, l, At(pts, Var(value)));
      AddAllNull(graph, n, zeroInitialized, s, pts, l, Var(value));
      changed := AddAllPointsTo(l, At(pts, Var(value)));
      StoreViaDone(graph, n, s, t, pts, ptr);
    }

    method ProcessStore(n: Node) returns (changed: bool)
      requires IsStore(graph, n)
      modifies this`pts
      ensures Processed(graph, n, old(pts), pts, changed)
      ensures NullsRead(graph, n, zeroInitialized, old(pts), pts)
      ensures Written(graph, old(pts), pts, At(old(pts), Var(graph.nodes[n].into)),
                      At(old(pts), Var(graph.nodes[n].value)))
    {
      hide Partly, ViaAll, Via, Grows, NullsRead, Written;
      ghost var s, g := pts, graph;
      var into := graph.nodes[n].into;
      var todo := At(pts, Var(into));
      changed := false;
      NothingYet(g, n, s);
      NoNullsYet(g, n, zeroInitialized, s);
      NoneVia(g, n, s, s);
      ghost var P := At(s, Var(g.nodes[n].value));
      WrittenNone(g, s, P);
      assert At(s, Var(into)) - todo == {};
      while todo != {}
        invariant Written(g, s, pts, At(s, Var(into)) - todo, P)
        invariant todo <= At(s, Var(into)) && Partly(g, n, s, pts, changed)
        invariant ViaAll(g, n, s, pts, At(s, Var(into)) - todo) && NullsRead(g, n, zeroInitialized, s, pts)
      {
        var ptr :| ptr in todo;
        ghost var t := pts;
        StoredSet(g, s, t, At(s, Var(into)) - todo, P, g.nodes[n].value);
        WrittenStep(g, s, t, At(s, Var(into)) - todo, P, ptr);
        var c := StoreTo(n, ptr, s, changed);
        changed := changed || c;
        ViaOneMore(g, n, s, t, pts, At(s, Var(into)) - todo, ptr);
        assert At(s, Var(into)) - (todo - {ptr}) == At(s, Var(into)) - todo + {ptr};
        todo := todo - {ptr};
      }
      assert At(s, Var(into)) - todo == At(s, Var(into));
      ViaDelivers(g, n, s, pts);
    }

    // ---- casts, phis and returns

    method CopyFrom(n: Node, op: Node, ghost s: PointsTo, ghost before: bool) returns (changed: bool)
      requires Copies(graph, n, op) && Partly(graph, n, s, pts, before)
      requires NullsRead(graph, n, zeroInitialized, s, pts)
      modifies this`pts
      ensures NullsRead(graph, n, zeroInitialized, s, pts)
      ensures Partly(graph, n, s, pts, before || changed) && Grows(old(pts), pts) && Copied(s, pts, n, op)
      ensures pts == UnionAt(old(pts), Var(n), At(old(pts), Var(op)))
    {
      hide Partly, Grows, Covers, MayAdd, Writes, GoodPointer, NullsRead;
      ghost var t := pts;
      CopyGives(graph, n, s, pts, before, op);
      AddAll(graph, n, s, pts, before, Var(n), At(pts, Var(op)));
      UnionAtGrows(pts, Var(n), At(pts, Var(op)));
      OperandIsRead(graph, s, n, op);
      AddAllNull(graph, n, zeroInitialized, s, pts, Var(n), Var(op));
      changed := AddAllPointsTo(Var(n), At(pts, Var(op)));
      CopyDone(graph, n, s, t, pts, before, op);
    }

    method ProcessCast(n: Node) returns (changed: bool)
      requires n in graph.nodes && graph.nodes[n].Cast?
      modifies this`pts
      ensures Processed(graph, n, old(pts), pts, changed)
      ensures Gathered(old(pts), pts, n, [graph.nodes[n].operand])
      ensures NullsRead(graph, n, zeroInitialized, old(pts), pts)
    {
      ghost var s := pts;
      NothingYet(graph, n, s);
      NoNullsYet(graph, n, zeroInitialized, s);
      hide Partly, NullsRead;
      changed := CopyFrom(n, graph.nodes[n].operand, s, false);
      GatheredOne(s, n, graph.nodes[n].operand);
    }

    method GatherOperands(n: Node, ops: seq<Node>, ghost s: PointsTo, ghost before: bool) returns (changed: bool)
      requires (forall op :: op in ops ==> Copies(graph, n, op)) && Partly(graph, n, s, pts, before)
      requires NullsRead(graph, n, zeroInitialized, s, pts)
      modifies this`pts
      ensures NullsRead(graph, n, zeroInitialized, s, pts)
      ensures Partly(graph, n, s, pts, before || changed) && Grows(old(pts), pts)
      ensures forall op :: op in ops ==> Copied(s, pts, n, op)
      ensures Gathered(old(pts), pts, n, ops)
    {
      hide Partly, Grows, Copied, Copies, NullsRead, Gathered;
      ghost var start := pts;
      GrowsSelf(pts);
      GatheredNone(start, n);
      assert ops[..0] == [];
      changed := false;
      var i := 0;
      while i < |ops|
        invariant i <= |ops| && Partly(graph, n, s, pts, before || changed) && Grows(start, pts)
        invariant NullsRead(graph, n, zeroInitialized, s, pts)
        invariant forall j :: 0 <= j < i ==> Copied(s, pts, n, ops[j])
        invariant Gathered(start, pts, n, ops[..i])
      {
        ghost var t := pts;
        GatheredStep(start, t, n, ops, i);
        var c := CopyFrom(n, ops[i], s, before || changed);
        changed := changed || c;
        GrowsTransitive(start, t, pts);
        forall j | 0 <= j < i ensures Copied(s, pts, n, ops[j]) { CopiedGrows(s, t, pts, n, ops[j]); }
        i := i + 1;
      }
      assert ops[..i] == ops;
    }

    method ProcessPhi(n: Node) returns (changed: bool)
      requires n in graph.nodes && graph.nodes[n].Phi?
      modifies this`pts
      ensures Processed(graph, n, old(pts), pts, changed)
      ensures Gathered(old(pts), pts, n, graph.nodes[n].operands)
      ensures NullsRead(graph, n, zeroInitialized, old(pts), pts)
    {
      ghost var s := pts;
      NothingYet(graph, n, s);
      NoNullsYet(graph, n, zeroInitialized, s);
      hide Partly, Covers, Grows, NullsRead;
      changed := GatherOperands(n, graph.nodes[n].operands, s, false);
      GatheredAll(graph, n, s, pts, graph.nodes[n].operands);
    }

    /** Operands that point to memory of the called procedure may be invalid. */
    method InvalidateLocals(n: Node, ghost s: PointsTo) returns (changed: bool)
      requires n in graph.nodes && graph.nodes[n].CallReturn? && graph.invalidateNodes && s == pts
      requires NullsRead(graph, n, zeroInitialized, s, pts)
      modifies this`pts
      ensures NullsRead(graph, n, zeroInitialized, s, pts)
      ensures Partly(graph, n, s, pts, changed) && Grows(old(pts), pts)
      ensures InvalidatedDone(graph, n, s, pts, graph.nodes[n].operands)
      ensures Marked(graph, s, pts, n, graph.nodes[n].operands)
    {
      hide Partly, Grows, Covers, Graph.Local, MayAdd, Writes, InvalidatedDone, NullsRead, ReadsNull, Marked;
      MarkedNone(graph, s, n, graph.nodes[n].operands);
      NoneInvalidated(graph, n, s);
      var ops, i := graph.nodes[n].operands, 0;
      changed := false;
      NothingYet(graph, n, s);
      GrowsSelf(s);
      while i < |ops|
        invariant i <= |ops| && Partly(graph, n, s, pts, changed) && Grows(s, pts) && Marked(graph, s, pts, n, ops)
        invariant InvalidatedDone(graph, n, s, pts, ops[..i]) && NullsRead(graph, n, zeroInitialized, s, pts)
      {
        ghost var start := pts;
        GrowsSelf(start);
        var todo := At(pts, Var(ops[i]));
        while todo != {}
          invariant Marked(graph, s, pts, n, ops) && todo <= At(start, Var(ops[i])) <= At(pts, Var(ops[i]))
          invariant InvalidatedDone(graph, n, s, pts, ops[..i]) && NullsRead(graph, n, zeroInitialized, s, pts)
          invariant Partly(graph, n, s, pts, changed) && Grows(s, pts) && Grows(start, pts)
          invariant forall ptr :: ptr in At(start, Var(ops[i])) && ptr !in todo && graph.Local(ptr) ==>
            Covers(pts, Var(n), Pointer(Invalidated, 0))
        {
          var ptr :| ptr in todo;
          if graph.Local(ptr) {
            ghost var t := pts;
            InvalidatedGives(graph, n, s, start, pts, i, ptr);
            MarkedStep(graph, s, pts, n, ops, i, ptr);
            NothingRemoved(pts, n, ops[i]);
            AddOne(graph, n, s, pts, changed, Var(n), Pointer(Invalidated, 0));
            AddAtGrows(pts, Var(n), Pointer(Invalidated, 0));
            AddOneNull(graph, n, zeroInitialized, s, pts, Var(n), Pointer(Invalidated, 0));
            var c := AddPointsTo(Var(n), Pointer(Invalidated, 0));
            changed := changed || c;
            GrowsTransitive(s, t, pts);
            GrowsTransitive(start, t, pts);
            InvalidatedGrows(graph, n, s, t, pts, ops[..i]);
          }
          todo := todo - {ptr};
        }
        MoreInvalidated(graph, n, s, start, pts, i);
        i := i + 1;
      }
      assert ops[..i] == ops;
    }

    method ProcessCallReturn(n: Node) returns (changed: bool)
      requires n in graph.nodes && graph.nodes[n].CallReturn?
      modifies this`pts
      ensures Processed(graph, n, old(pts), pts, changed)
      ensures Returned(graph, old(pts), pts, n, graph.nodes[n].operands)
      ensures NullsRead(graph, n, zeroInitialized, old(pts), pts)
    {
      ghost var s := pts;
      NothingYet(graph, n, s);
      GrowsSelf(s);
      NoNullsYet(graph, n, zeroInitialized, s);
      hide Partly, Covers, Grows, Graph.Local, InvalidatedDone, NullsRead, Marked, Gathered, Returned;
      MarkedNone(graph, s, n, graph.nodes[n].operands);
      changed := false;
      if graph.invalidateNodes {
        changed := InvalidateLocals(n, s);
      }
      ghost var t := pts;
      var c := GatherOperands(n, graph.nodes[n].operands, s, changed);
      changed := changed || c;
      if graph.invalidateNodes { InvalidatedGrows(graph, n, s, t, pts, graph.nodes[n].operands); }
      GatheredAll(graph, n, s, pts, graph.nodes[n].operands);
      CallReturnDelivers(graph, n, s, pts);
      LocalIsMarked(graph, n, s, pts);
      MarkedGathered(graph, s, t, pts, n, graph.nodes[n].operands);
    }

    // ---- calls through function pointers

    method ProcessFuncPtr(n: Node) returns (changed: bool)
      requires n in graph.nodes && graph.nodes[n].FuncPtrCall?
      modifies this`pts
      ensures Processed(graph, n, old(pts), pts, changed)
      ensures NullsRead(graph, n, zeroInitialized, old(pts), pts)
      ensures Merged(At(old(pts), Var(n)), Callable(graph, At(old(pts), Var(graph.nodes[n].operand))), At(pts, Var(n)))
    {
      ghost var s := pts;
      ghost var was, gen: set<Pointer> := At(s, Var(n)), {};
      MergedNone(was);
      NothingYet(graph, n, s);
      NoNullsYet(graph, n, zeroInitialized, s);
      hide Partly, Covers, Grows, Graph.IsFunction, MayAdd, Writes, GoodPointer, NullsRead, ReadsNull, Merged;
      hide AddPointer;
      hide Callable;
      var op := graph.nodes[n].operand;
      var todo := At(pts, Var(op));
      NoneCallable(graph);
      assert At(s, Var(op)) - todo == {};
      changed := false;
      while todo != {}
        invariant todo <= At(s, Var(op)) && Partly(graph, n, s, pts, changed)
        invariant NullsRead(graph, n, zeroInitialized, s, pts)
        invariant Merged(was, gen, At(pts, Var(n))) && gen == Callable(graph, At(s, Var(op)) - todo)
        invariant forall p :: p in At(s, Var(op)) && p !in todo && (graph.invalidateNodes || graph.IsFunction(p)) ==>
          Covers(pts, Var(n), p)
      {
        var ptr :| ptr in todo;
        OneCallable(graph, At(s, Var(op)) - todo, ptr);
        assert At(s, Var(op)) - (todo - {ptr}) == At(s, Var(op)) - todo + {ptr};
        if graph.invalidateNodes || graph.IsFunction(ptr) {
          ghost var t := pts;
          MergedStep(was, gen, At(t, Var(n)), ptr);
          gen := gen + {ptr};
          FuncPtrGives(graph, n, s, pts, ptr);
          AddOne(graph, n, s, pts, changed, Var(n), ptr);
          AddAtGrows(pts, Var(n), ptr);
          ReadIsClean(graph, n, zeroInitialized, s, Var(op), ptr);
          AddOneNull(graph, n, zeroInitialized, s, pts, Var(n), ptr);
          var c := AddPointsTo(Var(n), ptr);
          changed := changed || c;
          forall p | Covers(t, Var(n), p) ensures Covers(pts, Var(n), p) { CoversGrows(t, pts, Var(n), p); }
        }
        todo := todo - {ptr};
      }
      assert At(s, Var(op)) - todo == At(s, Var(op));
    }

    // ---- copies of memory

    /** Copy the pointers that one cell of the source holds. */
    method CopyCell(n: Node, x: Offset, ptr: Pointer, dptr: Pointer, ghost s: PointsTo, ghost before: bool,
                    ghost zero: set<Node>)
      returns (changed: bool)
      requires CopiesTo(graph, s, n, ptr, dptr) && Partly(graph, n, s, pts, before)
      requires NullsRead(graph, n, zero, s, pts)
      modifies this`pts
      ensures NullsRead(graph, n, zero, s, pts)
      ensures Partly(graph, n, s, pts, before || changed) && Grows(old(pts), pts)
      ensures CellCopied(graph, n, s, pts, ptr, dptr, x)
      ensures Adds(old(pts), pts) && OnlyCopied(graph, old(pts), pts, ptr, dptr, graph.nodes[n].len)
      ensures Arrived(graph, old(pts), pts, ptr, dptr, graph.nodes[n].len, x)
    {
      hide Partly, Grows, Covers, MayAdd, Writes, GoodPointer, Graph.CopyOffset, NullsRead, Adds, OnlyCopied, Arrived;
      var len := graph.nodes[n].len;
      if !InRange(ptr.offset, x, len) {
        OutOfRange(graph, n, s, pts, ptr, dptr, x);
        GrowsSelf(pts);
        AddsSelf(graph, pts, ptr, dptr, len);
        CellSkipped(graph, pts, pts, ptr, dptr, len, x);
        return false;
      }
      ghost var t := pts;
      var l := Cell(dptr.target.node, graph.CopyOffset(x, ptr.offset, dptr.offset, dptr.target));
      CellGives(graph, n, s, pts, before, ptr, dptr, x);
      AddAll(graph, n, s, pts, before, l, At(pts, Cell(ptr.target.node, x)));
      UnionAtGrows(pts, l, At(pts, Cell(ptr.target.node, x)));
      SourceIsRead(graph, s, n, ptr, dptr, x);
      AddAllNull(graph, n, zero, s, pts, l, Cell(ptr.target.node, x));
      CellShifted(graph, pts, ptr, dptr, len, x);
      changed := AddAllPointsTo(l, At(pts, Cell(ptr.target.node, x)));
      CellDone(graph, n, s, t, pts, before, ptr, dptr, x);
    }

    /** Copy between the objects that two pointers point to. */
    method CopyObject(n: Node, ptr: Pointer, dptr: Pointer, ghost s: PointsTo, ghost before: bool,
                      ghost zero: set<Node>)
      returns (changed: bool)
      requires CopiesTo(graph, s, n, ptr, dptr) && Partly(graph, n, s, pts, before)
      requires NullsRead(graph, n, zero, s, pts) && Zeroed(graph, n, zero, s, zeroInitialized)
      modifies this`pts, this`zeroInitialized
      ensures NullsRead(graph, n, zero, s, pts) && Zeroed(graph, n, zero, s, zeroInitialized)
      ensures Partly(graph, n, s, pts, before || changed) && Grows(old(pts), pts)
      ensures ObjectCopied(graph, n, s, pts, ptr, dptr)
      ensures zeroInitialized == old(zeroInitialized) +
        (if ptr.target.node in old(zeroInitialized) && WholeObject(graph, n, ptr, dptr) then {dptr.target.node} else {})
      ensures NullCopied(graph, n, old(zeroInitialized), zeroInitialized, pts, ptr, dptr)
      ensures Adds(old(pts), pts) && PairArrived(graph, old(pts), pts, ptr, dptr, graph.nodes[n].len)
      ensures AllCopied(graph, old(zeroInitialized), old(pts), pts, {ptr}, {dptr}, graph.nodes[n].len)
    {
      hide Adds, PairArrived, AllCopied, OnlyCopied, Arrived;
      hide Partly, Grows, Covers, Writes, CellCopied, WholeObject, NullsRead, ReadsNull;
      GrowsSelf(pts);
      ghost var start := pts;
      var a, b := ptr.target.node, dptr.target.node;
      var containsNull := false;
      if a in zeroInitialized {
        SourceIsRead(graph, s, n, ptr, dptr, UNKNOWN);
        if a in zero { ReadsZeroed(graph, n, zero, s, a); }
        if WholeObject(graph, n, ptr, dptr) {
          zeroInitialized := zeroInitialized + {b};
        } else {
          containsNull := true;
        }
      }
      changed := false;
      if containsNull {
        NullGives(graph, n, s, pts, ptr, dptr);
        AddOne(graph, n, s, pts, before, Cell(b, UNKNOWN), NullPointer);
        AddAtGrows(pts, Cell(b, UNKNOWN), NullPointer);
        AddOneNull(graph, n, zero, s, pts, Cell(b, UNKNOWN), NullPointer);
        changed := AddPointsTo(Cell(b, UNKNOWN), NullPointer);
      }
      ghost var from := pts;
      var c := CopyCells(n, ptr, dptr, s, before || changed, zero);
      changed := changed || c;
      GrowsTransitive(start, from, pts);
      if Covers(from, Cell(b, UNKNOWN), NullPointer) { CoversGrows(from, pts, Cell(b, UNKNOWN), NullPointer); }
      WholeMeans(graph, n, ptr, dptr);
      ObjectGains(graph, old(zeroInitialized), start, from, pts, ptr, dptr, graph.nodes[n].len);
      ObjectArrives(graph, start, from, pts, ptr, dptr, graph.nodes[n].len);
    }

    /** Copy every cell of the source, in ascending order. */
    method CopyCells(n: Node, ptr: Pointer, dptr: Pointer, ghost s: PointsTo, ghost before: bool, ghost zero: set<Node>)
      returns (changed: bool)
      requires CopiesTo(graph, s, n, ptr, dptr) && Partly(graph, n, s, pts, before)
      requires NullsRead(graph, n, zero, s, pts)
      modifies this`pts
      ensures NullsRead(graph, n, zero, s, pts)
      ensures Partly(graph, n, s, pts, before || changed) && Grows(old(pts), pts)
      ensures ObjectCopied(graph, n, s, pts, ptr, dptr)
      ensures Adds(old(pts), pts) && OnlyCopied(graph, old(pts), pts, ptr, dptr, graph.nodes[n].len)
      ensures forall x: Offset :: Arrived(graph, old(pts), pts, ptr, dptr, graph.nodes[n].len, x)
    {
      hide Partly, Grows, Covers, CellCopied, OffsetsOf, NullsRead, Adds, OnlyCopied, Arrived;
      GrowsSelf(pts);
      ghost var start, len := pts, graph.nodes[n].len;
      AddsSelf(graph, pts, ptr, dptr, len);
      var a := ptr.target.node;
      changed := false;
      // cells that are added behind the current one are visited, too
      var last, rest := -1, LaterOffsets(pts, a, -1);
      while rest != {}
        invariant -1 <= last <= UNKNOWN && rest == LaterOffsets(pts, a, last)
        invariant NullsRead(graph, n, zero, s, pts)
        invariant Partly(graph, n, s, pts, before || changed) && Grows(start, pts)
        invariant forall x: Offset :: x <= last ==> CellCopied(graph, n, s, pts, ptr, dptr, x)
        invariant Adds(start, pts) && OnlyCopied(graph, start, pts, ptr, dptr, len)
        invariant forall x: Offset :: x <= last ==> Arrived(graph, start, pts, ptr, dptr, len, x)
        decreases UNKNOWN - last
      {
        ghost var least := Least(rest);
        var x :| x in rest && forall y :: y in rest ==> x <= y;
        ghost var t := pts;
        SkippedCells(graph, n, s, pts, before || changed, ptr, dptr, last, x);
        SkippedArrive(graph, start, t, ptr, dptr, len, last, x);
        var c := CopyCell(n, x, ptr, dptr, s, before || changed, zero);
        changed := changed || c;
        GrowsTransitive(start, t, pts);
        forall y: Offset | y < x ensures CellCopied(graph, n, s, pts, ptr, dptr, y) {
          CellCopiedGrows(graph, n, s, t, pts, ptr, dptr, y);
        }
        AddsTransitive(start, t, pts);
        OnlyCopiedStep(graph, start, t, pts, ptr, dptr, len);
        forall y: Offset | y <= x ensures Arrived(graph, start, pts, ptr, dptr, len, y) {
          if y < x { ArrivedLater(graph, start, t, pts, ptr, dptr, len, y); }
          else { ArrivedEarlier(graph, start, t, pts, ptr, dptr, len, y); }
        }
        last, rest := x, LaterOffsets(pts, a, x);
      }
      SkippedCells(graph, n, s, pts, before || changed, ptr, dptr, last, UNKNOWN + 1);
      SkippedArrive(graph, start, pts, ptr, dptr, len, last, UNKNOWN + 1);
    }

    method CopyFromPointer(n: Node, ptr: Pointer, ghost s: PointsTo, ghost before: bool, ghost zero0: set<Node>)
      returns (changed: bool)
      requires IsMemcpy(graph, n) && Partly(graph, n, s, pts, before) && ptr in At(s, Var(graph.nodes[n].source))
      requires NullsRead(graph, n, zero0, s, pts) && Zeroed(graph, n, zero0, s, zeroInitialized)
      modifies this`pts, this`zeroInitialized
      ensures NullsRead(graph, n, zero0, s, pts) && Zeroed(graph, n, zero0, s, zeroInitialized)
      ensures Partly(graph, n, s, pts, before || changed) && Grows(old(pts), pts) && Via(graph, n, s, pts, ptr)
      ensures old(zeroInitialized) <= zeroInitialized
      ensures NullsCopied(graph, n, old(zeroInitialized), zeroInitialized, s, pts, ptr)
      ensures Adds(old(pts), pts)
      ensures forall d :: d in At(s, Var(graph.nodes[n].dest)) ==>
        PairArrived(graph, old(pts), pts, ptr, d, graph.nodes[n].len)
      ensures AllCopied(graph, zeroInitialized, old(pts), pts, {ptr}, At(s, Var(graph.nodes[n].dest)),
                        graph.nodes[n].len)
    {
      hide Partly, Grows, Covers, ObjectCopied, Via, NullCopied, NullsRead, Zeroed, Adds, PairArrived, AllCopied;
      GrowsSelf(pts);
      ghost var start, zero, len, dests := pts, zeroInitialized, graph.nodes[n].len, At(s, Var(graph.nodes[n].dest));
      AllCopiedNone(graph, zero, start, {ptr}, dests, len);
      if !graph.Dereferenceable(ptr) {
        NoPairs(graph, start, ptr, len);
        NoVia(graph, n, s, pts, ptr);
        NoNulls(graph, n, zero, zero, s, pts, ptr);
        return false;
      }
      changed := false;
      SameOperands(graph, n, s, pts, before);
      var todo := At(pts, Var(graph.nodes[n].dest));
      while todo != {}
        invariant todo <= At(s, Var(graph.nodes[n].dest)) && Partly(graph, n, s, pts, before || changed)
        invariant Grows(start, pts)
        invariant forall d :: d in At(s, Var(graph.nodes[n].dest)) && d !in todo ==>
          ObjectCopied(graph, n, s, pts, ptr, d)
        invariant zero <= zeroInitialized
        invariant NullsRead(graph, n, zero0, s, pts) && Zeroed(graph, n, zero0, s, zeroInitialized)
        invariant forall d :: d in At(s, Var(graph.nodes[n].dest)) && d !in todo ==>
          NullCopied(graph, n, zero, zeroInitialized, pts, ptr, d)
        invariant Adds(start, pts) && AllCopied(graph, zeroInitialized, start, pts, {ptr}, dests, len)
        invariant forall d :: d in dests && d !in todo ==> PairArrived(graph, start, pts, ptr, d, len)
      {
        var dptr :| dptr in todo;
        ghost var t, z := pts, zeroInitialized;
        if graph.Dereferenceable(dptr) {
          var c := CopyObject(n, ptr, dptr, s, before || changed, zero0);
          changed := changed || c;
          GrowsTransitive(start, t, pts);
          OnePair(graph, z, zeroInitialized, start, t, pts, ptr, dptr, dests, len);
        } else {
          NoPair(graph, start, pts, ptr, dptr, len);
          AddsSelf(graph, pts, ptr, dptr, len);
          NoObjectCopied(graph, n, s, pts, ptr, dptr);
          NoNull(graph, n, zero, zeroInitialized, pts, ptr, dptr);
          GrowsSelf(pts);
        }
        NullsStay(graph, n, zero, z, zeroInitialized, t, pts, ptr);
        forall d | d in dests && d !in todo ensures PairArrived(graph, start, pts, ptr, d, len) {
          PairLater(graph, start, t, pts, ptr, d, len);
        }
        forall d | d in At(s, Var(graph.nodes[n].dest)) && d !in todo ensures ObjectCopied(graph, n, s, pts, ptr, d) {
          ObjectCopiedGrows(graph, n, s, t, pts, ptr, d);
        }
        todo := todo - {dptr};
      }
      ObjectsVia(graph, n, s, pts, ptr);
    }

    method ProcessMemcpy(n: Node) returns (changed: bool)
      requires IsMemcpy(graph, n)
      modifies this`pts, this`zeroInitialized
      ensures Processed(graph, n, old(pts), pts, changed)
      ensures NullsRead(graph, n, old(zeroInitialized), old(pts), pts)
      ensures Zeroed(graph, n, old(zeroInitialized), old(pts), zeroInitialized)
      ensures old(zeroInitialized) <= zeroInitialized
      ensures forall ptr :: ptr in At(old(pts), Var(graph.nodes[n].source)) ==>
        NullsCopied(graph, n, old(zeroInitialized), zeroInitialized, old(pts), pts, ptr)
      ensures Adds(old(pts), pts) && forall ptr, d ::
        ptr in At(old(pts), Var(graph.nodes[n].source)) && d in At(old(pts), Var(graph.nodes[n].dest)) ==>
          PairArrived(graph, old(pts), pts, ptr, d, graph.nodes[n].len)
      ensures AllCopied(graph, zeroInitialized, old(pts), pts, At(old(pts), Var(graph.nodes[n].source)),
                        At(old(pts), Var(graph.nodes[n].dest)), graph.nodes[n].len)
    {
      hide Partly, ViaAll, Via, Grows, NullsCopied, NullsRead, Zeroed, Adds, PairArrived, AllCopied;
      ghost var zero := zeroInitialized;
      ghost var s, g := pts, graph;
      var source := graph.nodes[n].source;
      var todo := At(pts, Var(source));
      changed := false;
      NothingYet(g, n, s);
      NoNullsYet(g, n, zero, s);
      NothingZeroed(g, n, zero, s);
      NoneVia(g, n, s, s);
      ghost var len, dests := g.nodes[n].len, At(s, Var(g.nodes[n].dest));
      AllCopiedNone(g, zero, s, todo, dests, len);
      assert At(s, Var(source)) - todo == {};
      while todo != {}
        invariant todo <= At(s, Var(source)) && Partly(g, n, s, pts, changed)
        invariant ViaAll(g, n, s, pts, At(s, Var(source)) - todo) && zero <= zeroInitialized
        invariant NullsRead(g, n, zero, s, pts) && Zeroed(g, n, zero, s, zeroInitialized)
        invariant forall q :: q in At(s, Var(source)) - todo ==> NullsCopied(g, n, zero, zeroInitialized, s, pts, q)
        invariant Adds(s, pts) && AllCopied(g, zeroInitialized, s, pts, At(s, Var(source)), dests, len)
        invariant forall q, d :: q in At(s, Var(source)) - todo && d in dests ==> PairArrived(g, s, pts, q, d, len)
      {
        var ptr :| ptr in todo;
        ghost var t, z := pts, zeroInitialized;
        var c := CopyFromPointer(n, ptr, s, changed, zero);
        changed := changed || c;
        NullsLess(g, n, zero, z, zeroInitialized, s, pts, ptr);
        forall q | q in At(s, Var(source)) - todo ensures NullsCopied(g, n, zero, zeroInitialized, s, pts, q) {
          NullsKept(g, n, zero, z, zeroInitialized, s, t, pts, q);
        }
        PairsStep(g, z, zeroInitialized, s, t, pts, At(s, Var(source)), ptr, dests, len);
        forall q, d | q in At(s, Var(source)) - todo && d in dests ensures PairArrived(g, s, pts, q, d, len) {
          PairLater(g, s, t, pts, q, d, len);
        }
        ViaOneMore(g, n, s, t, pts, At(s, Var(source)) - todo, ptr);
        assert At(s, Var(source)) - (todo - {ptr}) == At(s, Var(source)) - todo + {ptr};
        todo := todo - {ptr};
      }
      assert At(s, Var(source)) - todo == At(s, Var(source));
      ViaDelivers(g, n, s, pts);
    }

    // ---- one node

    method ProcessNode(n: Node) returns (changed: bool)
      requires n in graph.nodes
      modifies this`pts, this`zeroInitialized
      ensures Processed(graph, n, old(pts), pts, changed)
      ensures NullsRead(graph, n, old(zeroInitialized), old(pts), pts)
      ensures Zeroed(graph, n, old(zeroInitialized), old(pts), zeroInitialized)
    {
      NothingZeroed(graph, n, zeroInitialized, pts);
      NoNullsYet(graph, n, zeroInitialized, pts);
      match graph.nodes[n]
      case Load(_) => changed := ProcessLoad(n);
      case Store(_, _) => changed := ProcessStore(n);
      case Gep(_, _) => changed := ProcessGep(n);
      case Cast(_) => changed := ProcessCast(n);
      case CallReturn(_) => changed := ProcessCallReturn(n);
      case Phi(_) => changed := ProcessPhi(n);
      case FuncPtrCall(_) => changed := ProcessFuncPtr(n);
      case Memcpy(_, _, _) => changed := ProcessMemcpy(n);
      case _ =>
        NothingYet(graph, n, pts);
        hide Partly, Covers, NullsRead, Zeroed;
        changed := false;
    }

    // ---- the fixpoint iteration

    ghost predicate Valid()
      reads this, pg
    {
      && pg.Valid() && pg.edges.Keys == graph.nodes.Keys && root in graph.nodes
      && (forall n :: n in globals ==> n in graph.nodes) && WellTyped(graph, pts)
    }

    /** Forget the offsets of the GEP nodes in loops. */
    method PreprocessGeps()
      modifies this`graph
      ensures graph == BlurGeps(old(graph), LoopNodes(loops))
    {
      ghost var g, done: set<Node> := graph, {};
      var i := 0;
      BlurNone(g);
      while i < |loops|
        invariant i <= |loops| && graph == BlurGeps(g, done) && done == LoopNodes(loops[..i])
      {
        var j := 0;
        while j < |loops[i]|
          invariant j <= |loops[i]| && graph == BlurGeps(g, done)
          invariant done == LoopNodes(loops[..i]) + Elements(loops[i][..j])
        {
          var n := loops[i][j];
          BlurOne(g, done, n);
          done := done + {n};
          assert loops[i][..j + 1] == loops[i][..j] + [n];
          if n in graph.nodes && graph.nodes[n].Gep? {
            graph := graph.(nodes := graph.nodes[n := graph.nodes[n].(offset := UNKNOWN)]);
          }
          j := j + 1;
        }
        LoopsUpTo(loops, i);
        assert loops[i][..j] == loops[i];
        i := i + 1;
      }
      assert loops[..i] == loops;
    }

    /** Process every node of the queue once; the nodes that changed something are kept. */
    method Iteration(ghost scope: set<Node>, ghost L: PointsTo, ghost good: bool) returns (ghost round: Round)
      requires Valid() && changedNodes == [] && forall n :: n in toProcess ==> n in graph.nodes
      requires good ==>
        Limited(graph, pg.G(), Elements(toProcess), scope, pts, L)
          && Accounted(graph, pg.G(), scope, pts, toProcess, [])
      modifies this`pts, this`zeroInitialized, this`changedNodes
      ensures Valid() && Grows(old(pts), pts) && Changed(old(pts), pts, changedNodes != [])
      ensures forall n :: n in changedNodes ==> n in toProcess
      ensures IsRound(graph, round) && round.Shaped() && round.queue == toProcess && round.Before() == old(pts)
      ensures round.ZeroedBefore() == old(zeroInitialized) && round.ZeroedAfter() == zeroInitialized
      ensures round.After() == pts
      ensures round.Changed() == changedNodes
      ensures BoundedAll(graph, Elements(toProcess), old(pts), pts)
      ensures good ==>
        Limited(graph, pg.G(), Elements(toProcess), scope, pts, L)
          && Accounted(graph, pg.G(), scope, pts, [], changedNodes)
    {
      hide Processed, Grows, Changed, Limited, Accounted, BoundedAll, PointerGraph.Valid, WellTyped, Visit;
      hide ChangedNodes, NullsRead, Zeroed;
      ghost var s := pts;
      round := NoNodes(s, zeroInitialized);
      NoneChanged(graph, s, zeroInitialized);
      IterationStarts(graph, Elements(toProcess), s);
      var i := 0;
      assert toProcess[0..] == toProcess;
      while i < |toProcess|
        invariant i <= |toProcess| && pg.Valid() && WellTyped(graph, pts) && Grows(s, pts)
        invariant Changed(s, pts, changedNodes != [])
        invariant forall n :: n in changedNodes ==> n in toProcess
        invariant BoundedAll(graph, Elements(toProcess), s, pts)
        invariant IsRound(graph, round) && round.queue == toProcess[..i] && round.Before() == s && round.After() == pts
        invariant round.ZeroedBefore() == old(zeroInitialized) && round.ZeroedAfter() == zeroInitialized
        invariant round.Changed() == changedNodes
        invariant good ==>
          Limited(graph, pg.G(), Elements(toProcess), scope, pts, L)
            && Accounted(graph, pg.G(), scope, pts, toProcess[i..], changedNodes)
      {
        ghost var t := pts;
        ghost var before := changedNodes;
        var cur := toProcess[i];
        var changed := ProcessNode(cur);
        IterationStep(graph, Elements(toProcess), s, t, pts, cur, before != [], changed);
        OneMoreNode(graph, round, cur, pts, zeroInitialized, changed);
        round := Then(round, cur, pts, zeroInitialized, changed);
        if good {
          assert toProcess[i..] == [cur] + toProcess[i + 1..];
          AccountStep(graph, pg.G(), Elements(toProcess), scope, t, pts, L, cur, toProcess[i + 1..], before, changed);
        }
        if changed {
          changedNodes := changedNodes + [cur];
        }
        i := i + 1;
      }
      assert toProcess[i..] == [] && toProcess[..i] == toProcess;
    }

    method QueueGlobals()
      modifies this`toProcess
      ensures toProcess == globals
    {
      toProcess := globals;
    }

    method InitializeQueue()
      requires Valid()
      modifies this`toProcess, pg`dfsnum, pg`dfsid
      ensures Valid() && forall v :: v in toProcess <==> pg.G().Reaches(root, v)
      ensures Ordered(pg.G(), [root], toProcess, [], ToSet(toProcess))
    {
      hide Digraph.Reaches, Ordered;
      toProcess := pg.GetNodes([root]);
      assert forall v :: ReachedFrom(pg.G(), [root], v) <==> pg.G().Reaches(root, v);
    }

    /** The nodes that can be reached from those that changed something. */
    method QueueChanged()
      requires Valid() && forall n :: n in changedNodes ==> n in graph.nodes
      modifies this`toProcess, this`changedNodes, pg`dfsnum, pg`dfsid
      ensures Valid() && changedNodes == []
      ensures forall v :: v in toProcess <==> ReachedFrom(pg.G(), old(changedNodes), v)
      ensures toProcess == [] <==> old(changedNodes) == []
      ensures Ordered(pg.G(), old(changedNodes), toProcess, [], ToSet(toProcess))
    {
      hide ReachedFrom, Digraph.Valid;
      toProcess := [];
      if changedNodes != [] {
        toProcess := pg.GetNodes(changedNodes);
        changedNodes := [];
      } else {
        NothingReached(pg.G());
      }
    }

    /** Forget what the given nodes point to. */
    method SetToEmpty(nodes: seq<Node>)
      modifies this`pts
      ensures pts == old(pts) - Emptied(graph, nodes)
    {
      var i := 0;
      assert pts == pts - Emptied(graph, nodes[..0]);
      while i < |nodes|
        invariant i <= |nodes| && pts == old(pts) - Emptied(graph, nodes[..i])
      {
        var n := nodes[i];
        assert nodes[..i + 1] == nodes[..i] + [n];
        if n !in graph.nodes || (!graph.nodes[n].Alloc? && !graph.nodes[n].Constant?) {
          assert Emptied(graph, nodes[..i + 1]) == Emptied(graph, nodes[..i]) + {Var(n)};
          pts := pts - {Var(n)};
        } else {
          assert Emptied(graph, nodes[..i + 1]) == Emptied(graph, nodes[..i]);
        }
        i := i + 1;
      }
      assert nodes[..i] == nodes;
    }

    /** Stop after too many rounds. */
    method GiveUp(ghost D: Digraph, ghost first: Round, ghost rounds: seq<Round>, ghost start: seq<Node>)
      requires maxIterations > 0 && |rounds| == maxIterations + 1 && first.Shaped()
      requires Reached(graph, D, root, first.After(), first.ZeroedAfter(), rounds, start, pts, zeroInitialized)
      requires Ordered(D, start, toProcess, [], ToSet(toProcess))
      modifies this`pts, this`toProcess
      ensures Stopped(graph, D, root, first, rounds, maxIterations, pts, zeroInitialized) && toProcess == []
    {
      hide Stopped, Emptied, Ordered, Reached;
      ghost var s := pts;
      SetToEmpty(toProcess);
      GivesUp(graph, D, root, first, rounds, start, maxIterations, toProcess, s, pts, zeroInitialized);
      toProcess := [];
    }

    /** Run the analysis. `settled` tells whether every global node was closed after
        the globals had been processed once. */
    method Run() returns (finished: bool, ghost settled: bool, ghost first: Round, ghost rounds: seq<Round>)
      requires Valid() && toProcess == changedNodes == []
      modifies this, pg
      ensures pg.Valid() && graph == if preprocessGeps then BlurGeps(old(graph), LoopNodes(loops)) else old(graph)
      ensures maxIterations == 0 ==> finished
      ensures finished ==> WellTyped(graph, pts) && Grows(old(pts), pts)
      ensures finished ==> BoundedAll(graph, RunNodes(graph, pg.G(), globals, root), old(pts), pts)
      ensures finished && (exists L :: Limit(graph, pg.G(), globals, root, old(pts), L)) ==>
          ClosedAfter(graph, pg.G(), globals, root, settled, pts)
      ensures finished ==>
        IsRound(graph, first) && first.Shaped() && first.queue == globals && first.Before() == old(pts)
          && first.ZeroedBefore() == old(zeroInitialized)
      ensures finished ==>
        rounds != []
          && Reached(graph, pg.G(), root, first.After(), first.ZeroedAfter(), rounds, [], pts, zeroInitialized)
      ensures finished <==> maxIterations == 0 || |rounds| <= maxIterations
      ensures Stopped(graph, pg.G(), root, first, rounds, maxIterations, pts, zeroInitialized)
    {
      hide Grows, Changed, Limited, Accounted, BoundedAll, Digraph.Valid, WellTyped, Limit, ClosedAfter;
      hide Digraph.Reaches;
      hide Stopped, ReachSet, RunNodes, BlurredLeft, FactsLeft, Advances, ReachedFrom, BlurGeps, LoopNodes;
      hide IsRound, Reached, Ordered, Round.Shaped, Round.Before, Round.After, Round.Changed;
      hide Round.ZeroedBefore, Round.ZeroedAfter;
      if preprocessGeps {
        BlurKeeps(graph, LoopNodes(loops), pts);
        PreprocessGeps();
      }
      ghost var s0, g, D := pts, graph, pg.G();
      ghost var nodes := RunNodes(g, D, globals, root);
      QueueGlobals();
      first := Iteration({}, map[], false);
      ghost var s1, z1 := pts, zeroInitialized;
      ghost var scope, good, L;
      settled, scope, good, L := StartRun(g, D, globals, root, s0, s1);
      toProcess, changedNodes := [], [];
      InitializeQueue();
      StartAccount(g, D, globals, root, s1, settled, scope, toProcess);
      finished := true;
      rounds := [];
      ghost var start := [root];
      NoRounds(g, D, root, s1, z1);
      var n := 0;
      var more := true;
      while more
        invariant graph == g && Valid() && changedNodes == [] && Grows(s0, pts) && BoundedAll(g, nodes, s0, pts)
        invariant Elements(toProcess) <= ReachSet(g, D, root)
        invariant good ==> Limited(g, D, nodes, scope, pts, L) && Accounted(g, D, scope, pts, toProcess, [])
        invariant !more ==> toProcess == [] && start == []
        invariant Reached(g, D, root, s1, z1, rounds, start, pts, zeroInitialized)
        invariant Ordered(D, start, toProcess, [], ToSet(toProcess))
        invariant n == |rounds| && (more || rounds != []) && (maxIterations > 0 ==> n <= maxIterations + 1)
        decreases BlurredLeft(g, pts), FactsLeft(g, pts), more
      {
        if maxIterations > 0 && n > maxIterations {
          GiveUp(D, first, rounds, start);
          finished := false;
          return;
        }
        n := n + 1;
        ghost var t := pts;
        ghost var N := Elements(toProcess);
        InNodes(g, D, globals, root, toProcess);
        if good { LimitedLess(g, D, nodes, N, scope, pts, L); }
        ghost var round := Iteration(scope, L, good);
        OneMoreRound(g, D, root, s1, z1, rounds, start, round);
        rounds, start := rounds + [round], changedNodes;
        RunStep(g, D, nodes, N, s0, t, pts, scope, L, good);
        LeftAfter(g, t, pts, changedNodes != []);
        ghost var changed := changedNodes;
        QueueChanged();
        Requeued(g, D, root, N, scope, pts, toProcess, changed, good);
        more := toProcess != [];
      }
      NotGivenUp(g, D, root, first, rounds, maxIterations, pts, zeroInitialized);
      if good { AllClosed(g, D, globals, root, settled, scope, pts); }
      finished := maxIterations == 0 || n <= maxIterations;
    }
  }

  /** What is stored stays the same while it is stored. */
  lemma StoredSet(g: Graph, s: PointsTo, t: PointsTo, into: set<Pointer>, P: set<Pointer>, value: Node)
    requires Written(g, s, t, into, P)
    ensures At(t, Var(value)) == At(s, Var(value))
  {
  }

  lemma NothingRemoved(t: PointsTo, n: Node, m: Node)
    ensures At(t, Var(m)) <= At(AddAt(t, Var(n), INVALID), Var(m))
  {
  }

  lemma LocalIsMarked(g: Graph, n: Node, s: PointsTo, t: PointsTo)
    requires n in g.nodes && g.nodes[n].CallReturn? && Delivered(g, n, s, t)
    ensures g.invalidateNodes && ReturnsLocal(g, s, g.nodes[n].operands) ==> Holds(At(t, Var(n)), INVALID)
  {
    var ops := g.nodes[n].operands;
    if g.invalidateNodes && ReturnsLocal(g, s, ops) {
      var q :| InSome(s, ops, q) && OfCallee(g, q);
      LocalIsOfCallee(g, q);
      hide InSome, Graph.Local;
      assert Gives(g, s, n, g.nodes[n], Var(n), INVALID);
    }
  }

  /** The pointers through which a call may be made. */
  ghost function Callable(g: Graph, from: set<Pointer>): set<Pointer> {
    set p | p in from
      && (g.invalidateNodes || (p.target.Object? && p.target.node in g.nodes && g.nodes[p.target.node].Function?))
  }

  lemma NoneCallable(g: Graph)
    ensures Callable(g, {}) == {}
  {
  }

  lemma OneCallable(g: Graph, from: set<Pointer>, p: Pointer)
    ensures Callable(g, from + {p}) == Callable(g, from) + if g.invalidateNodes || g.IsFunction(p) then {p} else {}
  {
  }

  lemma NoneVia(g: Graph, n: Node, s: PointsTo, t: PointsTo)
    ensures ViaAll(g, n, s, t, {})
  {
  }

  lemma GepGives(g: Graph, n: Node, s: PointsTo, t: PointsTo, ptr: Pointer)
    requires n in g.nodes && g.nodes[n].Gep? && ptr in At(s, Var(g.nodes[n].source))
    ensures var p := g.GepPointer(ptr, g.nodes[n].offset);
      MayAdd(g, n, s, t, Var(n), p) && Writes(g, s, n, g.nodes[n], Var(n))
        && (WellTyped(g, s) ==> GoodLocation(g, Var(n)) && GoodPointer(g, p))
  {
    var p := g.GepPointer(ptr, g.nodes[n].offset);
    assert WellTyped(g, s) ==> GoodPointer(g, ptr);
  }

  lemma GepVia(g: Graph, n: Node, s: PointsTo, t: PointsTo, ptr: Pointer)
    requires n in g.nodes && g.nodes[n].Gep? && Covers(t, Var(n), g.GepPointer(ptr, g.nodes[n].offset))
    ensures Via(g, n, s, t, ptr)
  {
  }

  // ---- loads

  ghost predicate IsLoad(g: Graph, n: Node) { n in g.nodes && g.nodes[n].Load? }

  /** ptr is a pointer of n's operand through which n may read object b at offset x. */
  ghost predicate LoadsAt(g: Graph, s: PointsTo, n: Node, ptr: Pointer, b: Node, x: Offset) {
    IsLoad(g, n) && ptr in At(s, Var(g.nodes[n].operand)) && g.Dereferenceable(ptr) && ptr.target.node == b
      && MayMeet(ptr.offset, x)
  }

  ghost predicate CellLoaded(s: PointsTo, t: PointsTo, n: Node, b: Node, x: Offset) {
    forall p :: p in At(s, Cell(b, x)) ==> Covers(t, Var(n), p)
  }

  lemma GrowsSelf(s: PointsTo)
    ensures Grows(s, s)
  {
  }

  lemma LoadedGrows(s: PointsTo, t: PointsTo, u: PointsTo, n: Node, b: Node, x: Offset)
    requires CellLoaded(s, t, n, b, x) && Grows(t, u)
    ensures CellLoaded(s, u, n, b, x)
  {
    hide Covers, Grows;
    forall p | p in At(s, Cell(b, x)) ensures Covers(u, Var(n), p) { CoversGrows(t, u, Var(n), p); }
  }

  /** A load leaves memory as it is. */
  lemma LoadKeepsMemory(g: Graph, n: Node, s: PointsTo, t: PointsTo, before: bool, b: Node, x: Offset)
    requires IsLoad(g, n) && Partly(g, n, s, t, before)
    ensures At(t, Cell(b, x)) == At(s, Cell(b, x))
  {
    assert !Writes(g, s, n, g.nodes[n], Cell(b, x));
  }

  lemma LoadGives(g: Graph, n: Node, s: PointsTo, t: PointsTo, before: bool, ptr: Pointer, b: Node, x: Offset)
    requires IsLoad(g, n) && Partly(g, n, s, t, before) && LoadsAt(g, s, n, ptr, b, x)
    ensures At(t, Cell(b, x)) == At(s, Cell(b, x)) && Writes(g, s, n, g.nodes[n], Var(n))
    ensures forall p :: p in At(t, Cell(b, x)) ==> MayAdd(g, n, s, t, Var(n), p)
    ensures WellTyped(g, s) ==> GoodLocation(g, Var(n)) && forall p :: p in At(t, Cell(b, x)) ==> GoodPointer(g, p)
  {
    LoadKeepsMemory(g, n, s, t, before, b, x);
    hide Partly;
    forall p | p in At(t, Cell(b, x)) ensures MayAdd(g, n, s, t, Var(n), p) {
      assert LoadVia(g, s, ptr, p);
    }
  }

  lemma NothingThere(g: Graph, n: Node, s: PointsTo, t: PointsTo, before: bool, u: PointsTo, b: Node, x: Offset)
    requires IsLoad(g, n) && Partly(g, n, s, t, before) && Cell(b, x) !in t
    ensures CellLoaded(s, u, n, b, x)
  {
    LoadKeepsMemory(g, n, s, t, before, b, x);
  }

  lemma LoadUnknown(g: Graph, n: Node, s: PointsTo, t: PointsTo, ptr: Pointer)
    requires IsLoad(g, n) && ptr in At(s, Var(g.nodes[n].operand)) && ptr.target == UnknownMemory
    ensures MayAdd(g, n, s, t, Var(n), UnknownPointer) && Writes(g, s, n, g.nodes[n], Var(n))
    ensures GoodLocation(g, Var(n)) && GoodPointer(g, UnknownPointer)
  {
    assert LoadVia(g, s, ptr, UnknownPointer);
  }

  lemma UnknownVia(g: Graph, n: Node, s: PointsTo, t: PointsTo, ptr: Pointer)
    requires IsLoad(g, n) && ptr.target == UnknownMemory && Covers(t, Var(n), UnknownPointer)
    ensures Via(g, n, s, t, ptr)
  {
  }

  lemma NoVia(g: Graph, n: Node, s: PointsTo, t: PointsTo, ptr: Pointer)
    requires n in g.nodes && (g.nodes[n].Load? || g.nodes[n].Store? || g.nodes[n].Memcpy?)
    requires ptr.target != UnknownMemory || !g.nodes[n].Load?
    requires !g.Dereferenceable(ptr)
    ensures Via(g, n, s, t, ptr)
  {
  }

  lemma LoadsFrom(g: Graph, s: PointsTo, n: Node, ptr: Pointer, b: Node)
    requires IsLoad(g, n) && ptr in At(s, Var(g.nodes[n].operand)) && g.Dereferenceable(ptr) && ptr.target.node == b
    ensures forall x: Offset :: MayMeet(ptr.offset, x) ==> LoadsAt(g, s, n, ptr, b, x)
  {
  }

  lemma LoadVias(g: Graph, n: Node, s: PointsTo, t: PointsTo, ptr: Pointer, b: Node)
    requires IsLoad(g, n) && g.Dereferenceable(ptr) && ptr.target.node == b
    requires forall x: Offset :: MayMeet(ptr.offset, x) ==> CellLoaded(s, t, n, b, x)
    ensures Via(g, n, s, t, ptr)
  {
    hide Covers;
    forall p | LoadVia(g, s, ptr, p) ensures Covers(t, Var(n), p) {
      var x: Offset :| MayMeet(ptr.offset, x) && p in At(s, Cell(b, x));
      assert CellLoaded(s, t, n, b, x);
    }
  }

  // ---- stores

  ghost predicate IsStore(g: Graph, n: Node) { n in g.nodes && g.nodes[n].Store? }

  lemma StoreGives(g: Graph, n: Node, s: PointsTo, t: PointsTo, before: bool, ptr: Pointer)
    requires IsStore(g, n) && Partly(g, n, s, t, before) && ptr in At(s, Var(g.nodes[n].into)) && g.Dereferenceable(ptr)
    ensures var l := Cell(ptr.target.node, ptr.offset); var value := Var(g.nodes[n].value);
      At(t, value) == At(s, value) && Writes(g, s, n, g.nodes[n], l)
      && (forall p :: p in At(t, value) ==> MayAdd(g, n, s, t, l, p))
      && (WellTyped(g, s) ==> GoodLocation(g, l) && forall p :: p in At(t, value) ==> GoodPointer(g, p))
  {
    var l, value := Cell(ptr.target.node, ptr.offset), Var(g.nodes[n].value);
    assert !Writes(g, s, n, g.nodes[n], value);
    hide Partly;
    forall p | p in At(t, value) ensures MayAdd(g, n, s, t, l, p) {
      assert StoreVia(g, s, g.nodes[n].value, ptr, l, p);
    }
  }

  lemma StoreViaDone(g: Graph, n: Node, s: PointsTo, t: PointsTo, u: PointsTo, ptr: Pointer)
    requires IsStore(g, n) && g.Dereferenceable(ptr) && At(t, Var(g.nodes[n].value)) == At(s, Var(g.nodes[n].value))
    requires forall p :: p in At(t, Var(g.nodes[n].value)) ==> Covers(u, Cell(ptr.target.node, ptr.offset), p)
    ensures Via(g, n, s, u, ptr)
  {
  }

  // ---- casts, phis and returns

  ghost predicate Copies(g: Graph, n: Node, op: Node) {
    n in g.nodes && match g.nodes[n]
      case Cast(o) => op == o
      case Phi(ops) => op in ops
      case CallReturn(ops) => op in ops
      case _ => false
  }

  ghost predicate Copied(s: PointsTo, t: PointsTo, n: Node, op: Node) {
    forall p :: p in At(s, Var(op)) ==> Covers(t, Var(n), p)
  }

  lemma CopiedGrows(s: PointsTo, t: PointsTo, u: PointsTo, n: Node, op: Node)
    requires Copied(s, t, n, op) && Grows(t, u)
    ensures Copied(s, u, n, op)
  {
    hide Covers, Grows;
    forall p | p in At(s, Var(op)) ensures Covers(u, Var(n), p) { CoversGrows(t, u, Var(n), p); }
  }

  lemma CopyGives(g: Graph, n: Node, s: PointsTo, t: PointsTo, before: bool, op: Node)
    requires Copies(g, n, op) && Partly(g, n, s, t, before)
    ensures Writes(g, s, n, g.nodes[n], Var(n)) && forall p :: p in At(t, Var(op)) ==> MayAdd(g, n, s, t, Var(n), p)
    ensures WellTyped(g, s) ==> GoodLocation(g, Var(n)) && forall p :: p in At(t, Var(op)) ==> GoodPointer(g, p)
  {
    if !g.nodes[n].Cast? {
      forall p | p in At(t, Var(op)) ensures InSome(t, g.nodes[n].operands, p) {
        var i :| 0 <= i < |g.nodes[n].operands| && g.nodes[n].operands[i] == op;
      }
    }
  }

  lemma CopyDone(g: Graph, n: Node, s: PointsTo, t: PointsTo, u: PointsTo, before: bool, op: Node)
    requires Partly(g, n, s, t, before) && forall p :: p in At(t, Var(op)) ==> Covers(u, Var(n), p)
    ensures Copied(s, u, n, op)
  {
    forall p | p in At(s, Var(op)) ensures Covers(u, Var(n), p) {
      assert Holds(At(t, Var(op)), p);
      CoversWider(u, Var(n), p, Var(n), if p in At(t, Var(op)) then p else Blur(p));
    }
  }

  lemma GatheredAll(g: Graph, n: Node, s: PointsTo, t: PointsTo, ops: seq<Node>)
    requires forall op :: op in ops ==> Copied(s, t, n, op)
    ensures forall p :: InSome(s, ops, p) ==> Covers(t, Var(n), p)
  {
    hide Covers;
    forall p | InSome(s, ops, p) ensures Covers(t, Var(n), p) {
      var i :| 0 <= i < |ops| && p in At(s, Var(ops[i]));
      assert Copied(s, t, n, ops[i]);
    }
  }

  ghost predicate InvalidatedDone(g: Graph, n: Node, s: PointsTo, t: PointsTo, ops: seq<Node>) {
    forall q :: InSome(s, ops, q) && g.Local(q) ==> Covers(t, Var(n), Pointer(Invalidated, 0))
  }

  lemma InvalidatedGives(g: Graph, n: Node, s: PointsTo, start: PointsTo, t: PointsTo, i: nat, ptr: Pointer)
    requires n in g.nodes && g.nodes[n].CallReturn? && g.invalidateNodes && i < |g.nodes[n].operands|
    requires Grows(start, t) && ptr in At(start, Var(g.nodes[n].operands[i])) && g.Local(ptr)
    ensures MayAdd(g, n, s, t, Var(n), Pointer(Invalidated, 0)) && Writes(g, s, n, g.nodes[n], Var(n))
    ensures GoodLocation(g, Var(n))
  {
    assert Holds(At(t, Var(g.nodes[n].operands[i])), ptr);
    var q := if ptr in At(t, Var(g.nodes[n].operands[i])) then ptr else Blur(ptr);
    assert InSome(t, g.nodes[n].operands, q) && g.Local(q);
  }

  lemma MoreInvalidated(g: Graph, n: Node, s: PointsTo, start: PointsTo, t: PointsTo, i: nat)
    requires n in g.nodes && g.nodes[n].CallReturn? && i < |g.nodes[n].operands| && Grows(s, start)
    requires InvalidatedDone(g, n, s, t, g.nodes[n].operands[..i])
    requires forall q :: q in At(start, Var(g.nodes[n].operands[i])) && g.Local(q) ==>
      Covers(t, Var(n), Pointer(Invalidated, 0))
    ensures InvalidatedDone(g, n, s, t, g.nodes[n].operands[..i + 1])
  {
    hide Covers;
    var ops := g.nodes[n].operands;
    forall q | InSome(s, ops[..i + 1], q) && g.Local(q) ensures Covers(t, Var(n), Pointer(Invalidated, 0)) {
      var j :| 0 <= j < i + 1 && q in At(s, Var(ops[..i + 1][j]));
      if j < i {
        assert q in At(s, Var(ops[..i][j]));
        assert InSome(s, ops[..i], q);
      } else {
        assert Holds(At(start, Var(ops[i])), q);
        var q' := if q in At(start, Var(ops[i])) then q else Blur(q);
        assert q' in At(start, Var(ops[i])) && g.Local(q');
      }
    }
  }

  lemma NoneInvalidated(g: Graph, n: Node, s: PointsTo)
    ensures InvalidatedDone(g, n, s, s, [])
  {
  }

  lemma InvalidatedGrows(g: Graph, n: Node, s: PointsTo, t: PointsTo, u: PointsTo, ops: seq<Node>)
    requires InvalidatedDone(g, n, s, t, ops) && Grows(t, u)
    ensures InvalidatedDone(g, n, s, u, ops)
  {
    hide Covers, Grows, Graph.Local;
    if Covers(t, Var(n), Pointer(Invalidated, 0)) { CoversGrows(t, u, Var(n), Pointer(Invalidated, 0)); }
  }

  lemma CallReturnDelivers(g: Graph, n: Node, s: PointsTo, t: PointsTo)
    requires n in g.nodes && g.nodes[n].CallReturn?
    requires forall p :: InSome(s, g.nodes[n].operands, p) ==> Covers(t, Var(n), p)
    requires g.invalidateNodes ==> InvalidatedDone(g, n, s, t, g.nodes[n].operands)
    ensures Delivered(g, n, s, t)
  {
    hide Covers, Graph.Local;
  }

  // ---- calls through function pointers

  lemma FuncPtrGives(g: Graph, n: Node, s: PointsTo, t: PointsTo, ptr: Pointer)
    requires n in g.nodes && g.nodes[n].FuncPtrCall? && ptr in At(s, Var(g.nodes[n].operand))
    requires g.invalidateNodes || g.IsFunction(ptr)
    ensures MayAdd(g, n, s, t, Var(n), ptr) && Writes(g, s, n, g.nodes[n], Var(n))
    ensures WellTyped(g, s) ==> GoodLocation(g, Var(n)) && GoodPointer(g, ptr)
  {
  }

  // ---- copies of memory

  ghost predicate IsMemcpy(g: Graph, n: Node) { n in g.nodes && g.nodes[n].Memcpy? }

  ghost predicate CopiesTo(g: Graph, s: PointsTo, n: Node, ptr: Pointer, dptr: Pointer) {
    IsMemcpy(g, n) && ptr in At(s, Var(g.nodes[n].source)) && dptr in At(s, Var(g.nodes[n].dest))
      && g.Dereferenceable(ptr) && g.Dereferenceable(dptr)
  }

  ghost predicate CellCopied(g: Graph, n: Node, s: PointsTo, t: PointsTo, ptr: Pointer, dptr: Pointer, x: Offset) {
    IsMemcpy(g, n) && forall l, p :: MemcpyVia(g, s, g.nodes[n].len, ptr, dptr, x, l, p) ==> Covers(t, l, p)
  }

  ghost predicate ObjectCopied(g: Graph, n: Node, s: PointsTo, t: PointsTo, ptr: Pointer, dptr: Pointer) {
    forall x :: CellCopied(g, n, s, t, ptr, dptr, x)
  }

  /** A copy changes no variable. */
  lemma SameOperands(g: Graph, n: Node, s: PointsTo, t: PointsTo, before: bool)
    requires IsMemcpy(g, n) && Partly(g, n, s, t, before)
    ensures forall v :: At(t, Var(v)) == At(s, Var(v))
  {
    forall v ensures At(t, Var(v)) == At(s, Var(v)) { assert !Writes(g, s, n, g.nodes[n], Var(v)); }
  }

  lemma OutOfRange(g: Graph, n: Node, s: PointsTo, t: PointsTo, ptr: Pointer, dptr: Pointer, x: Offset)
    requires IsMemcpy(g, n) && !InRange(ptr.offset, x, g.nodes[n].len)
    ensures CellCopied(g, n, s, t, ptr, dptr, x)
  {
  }

  lemma CellGives(g: Graph, n: Node, s: PointsTo, t: PointsTo, before: bool, ptr: Pointer, dptr: Pointer, x: Offset)
    requires CopiesTo(g, s, n, ptr, dptr) && Partly(g, n, s, t, before) && InRange(ptr.offset, x, g.nodes[n].len)
    ensures ptr.target.Object? && dptr.target.Object?
    ensures var l := Cell(dptr.target.node, g.CopyOffset(x, ptr.offset, dptr.offset, dptr.target));
      var c := Cell(ptr.target.node, x);
      Writes(g, s, n, g.nodes[n], l) && (forall p :: p in At(t, c) ==> MayAdd(g, n, s, t, l, p))
      && (WellTyped(g, s) ==> GoodLocation(g, l) && forall p :: p in At(t, c) ==> GoodPointer(g, p))
  {
    hide Graph.CopyOffset;
    var l := Cell(dptr.target.node, g.CopyOffset(x, ptr.offset, dptr.offset, dptr.target));
    SameOperands(g, n, s, t, before);
    forall p | p in At(t, Cell(ptr.target.node, x)) ensures MayAdd(g, n, s, t, l, p) {
      assert MemcpyVia(g, t, g.nodes[n].len, ptr, dptr, x, l, p);
    }
  }

  lemma CellDone(g: Graph, n: Node, s: PointsTo, t: PointsTo, u: PointsTo, before: bool, ptr: Pointer, dptr: Pointer,
                 x: Offset)
    requires CopiesTo(g, s, n, ptr, dptr) && Partly(g, n, s, t, before)
    requires forall p :: p in At(t, Cell(ptr.target.node, x)) ==>
      Covers(u, Cell(dptr.target.node, g.CopyOffset(x, ptr.offset, dptr.offset, dptr.target)), p)
    ensures CellCopied(g, n, s, u, ptr, dptr, x)
  {
    hide Graph.CopyOffset, Covers;
    var c, l := Cell(ptr.target.node, x), Cell(dptr.target.node, g.CopyOffset(x, ptr.offset, dptr.offset, dptr.target));
    forall p | p in At(s, c) ensures Covers(u, l, p) {
      assert Holds(At(t, c), p);
      CoversWider(u, l, p, l, if p in At(t, c) then p else Blur(p));
    }
  }

  lemma CellCopiedGrows(g: Graph, n: Node, s: PointsTo, t: PointsTo, u: PointsTo, ptr: Pointer, dptr: Pointer,
                        x: Offset)
    requires CellCopied(g, n, s, t, ptr, dptr, x) && Grows(t, u)
    ensures CellCopied(g, n, s, u, ptr, dptr, x)
  {
    hide Covers, Grows, MemcpyVia;
    forall l, p | MemcpyVia(g, s, g.nodes[n].len, ptr, dptr, x, l, p) ensures Covers(u, l, p) {
      CoversGrows(t, u, l, p);
    }
  }

  lemma ObjectCopiedGrows(g: Graph, n: Node, s: PointsTo, t: PointsTo, u: PointsTo, ptr: Pointer, dptr: Pointer)
    requires ObjectCopied(g, n, s, t, ptr, dptr) && Grows(t, u)
    ensures ObjectCopied(g, n, s, u, ptr, dptr)
  {
    hide CellCopied, Grows;
    forall x ensures CellCopied(g, n, s, u, ptr, dptr, x) { CellCopiedGrows(g, n, s, t, u, ptr, dptr, x); }
  }

  lemma NothingToCopy(g: Graph, n: Node, s: PointsTo, t: PointsTo, before: bool, u: PointsTo, ptr: Pointer,
                      dptr: Pointer, x: Offset)
    requires CopiesTo(g, s, n, ptr, dptr) && Partly(g, n, s, t, before) && x !in OffsetsOf(t, ptr.target.node)
    ensures CellCopied(g, n, s, u, ptr, dptr, x)
  {
    assert Cell(ptr.target.node, x) !in t;
    forall p ensures p !in At(s, Cell(ptr.target.node, x)) {
      assert !Holds(At(t, Cell(ptr.target.node, x)), p);
    }
  }

  /** The cells between the last one and the next one hold nothing. */
  lemma SkippedCells(g: Graph, n: Node, s: PointsTo, t: PointsTo, before: bool, ptr: Pointer, dptr: Pointer, last: int,
                     next: int)
    requires CopiesTo(g, s, n, ptr, dptr) && Partly(g, n, s, t, before)
    requires forall x: Offset :: x <= last ==> CellCopied(g, n, s, t, ptr, dptr, x)
    requires forall x: Offset :: last < x < next ==> x !in LaterOffsets(t, ptr.target.node, last)
    ensures forall x: Offset :: x < next ==> CellCopied(g, n, s, t, ptr, dptr, x)
  {
    hide Partly, CellCopied, OffsetsOf;
    forall x: Offset | last < x < next ensures CellCopied(g, n, s, t, ptr, dptr, x) {
      assert x !in LaterOffsets(t, ptr.target.node, last);
      NothingToCopy(g, n, s, t, before, t, ptr, dptr, x);
    }
  }

  lemma {:induction false} Least(s: set<Offset>) returns (x: Offset)
    requires s != {}
    ensures x in s && forall y :: y in s ==> x <= y
  {
    var some :| some in s;
    x := some;
    assert s == s - {some} + {some};
    if s - {some} != {} {
      var r := Least(s - {some});
      if r < some { x := r; }
    }
  }

  lemma NullGives(g: Graph, n: Node, s: PointsTo, t: PointsTo, ptr: Pointer, dptr: Pointer)
    requires CopiesTo(g, s, n, ptr, dptr)
    ensures MayAdd(g, n, s, t, Cell(dptr.target.node, UNKNOWN), NullPointer)
    ensures Writes(g, s, n, g.nodes[n], Cell(dptr.target.node, UNKNOWN))
    ensures GoodLocation(g, Cell(dptr.target.node, UNKNOWN)) && GoodPointer(g, NullPointer)
  {
  }

  lemma NoObjectCopied(g: Graph, n: Node, s: PointsTo, t: PointsTo, ptr: Pointer, dptr: Pointer)
    requires IsMemcpy(g, n) && !g.Dereferenceable(dptr)
    ensures ObjectCopied(g, n, s, t, ptr, dptr)
  {
  }

  lemma ObjectsVia(g: Graph, n: Node, s: PointsTo, t: PointsTo, ptr: Pointer)
    requires IsMemcpy(g, n) && forall d :: d in At(s, Var(g.nodes[n].dest)) ==> ObjectCopied(g, n, s, t, ptr, d)
    ensures Via(g, n, s, t, ptr)
  {
    hide MemcpyVia, Covers;
    forall l, p | GivesVia(g, s, n, g.nodes[n], ptr, l, p) ensures Covers(t, l, p) {
      var dptr, x :| dptr in At(s, Var(g.nodes[n].dest)) && MemcpyVia(g, s, g.nodes[n].len, ptr, dptr, x, l, p);
      assert ObjectCopied(g, n, s, t, ptr, dptr);
      assert CellCopied(g, n, s, t, ptr, dptr, x);
    }
  }

  // ---- the fixpoint iteration

  ghost function BlurGeps(g: Graph, N: set<Node>): Graph {
    g.(nodes := map n | n in g.nodes :: if n in N && g.nodes[n].Gep? then g.nodes[n].(offset := UNKNOWN)
                                        else g.nodes[n])
  }

  ghost function LoopNodes(loops: seq<seq<Node>>): set<Node> { set i, n | 0 <= i < |loops| && n in loops[i] :: n }

  ghost function Elements(s: seq<Node>): set<Node> { set n | n in s }

  lemma BlurNone(g: Graph)
    ensures BlurGeps(g, {}) == g
  {
  }

  lemma BlurOne(g: Graph, N: set<Node>, n: Node)
    ensures var h := BlurGeps(g, N);
      BlurGeps(g, N + {n}) ==
        if n in h.nodes && h.nodes[n].Gep? then h.(nodes := h.nodes[n := h.nodes[n].(offset := UNKNOWN)]) else h
  {
    var h := BlurGeps(g, N);
    var r := if n in h.nodes && h.nodes[n].Gep? then h.(nodes := h.nodes[n := h.nodes[n].(offset := UNKNOWN)]) else h;
    assert r.nodes == BlurGeps(g, N + {n}).nodes;
  }

  lemma LoopsUpTo(loops: seq<seq<Node>>, i: nat)
    requires i < |loops|
    ensures LoopNodes(loops[..i + 1]) == LoopNodes(loops[..i]) + Elements(loops[i])
  {
    var a, b := loops[..i], loops[..i + 1];
    assert b[i] == loops[i] && forall j :: 0 <= j < i ==> a[j] == b[j];
  }

  /** Forgetting offsets keeps the kinds of the nodes. */
  lemma BlurKeeps(g: Graph, N: set<Node>, s: PointsTo)
    ensures BlurGeps(g, N).nodes.Keys == g.nodes.Keys && (WellTyped(g, s) ==> WellTyped(BlurGeps(g, N), s))
  {
    var h := BlurGeps(g, N);
    if WellTyped(g, s) {
      forall l, p | p in At(s, l) ensures Good(h, l, p) {
        TypedAt(g, s, l, p);
        BlurGood(g, N, l, p);
      }
    }
  }

  lemma BlurGood(g: Graph, N: set<Node>, l: Location, p: Pointer)
    requires GoodLocation(g, l) && GoodPointer(g, p)
    ensures GoodLocation(BlurGeps(g, N), l) && GoodPointer(BlurGeps(g, N), p)
  {
  }

  ghost function Emptied(g: Graph, nodes: seq<Node>): set<Location> {
    set n | n in nodes && (n !in g.nodes || (!g.nodes[n].Alloc? && !g.nodes[n].Constant?)) :: Var(n)
  }

  /** After the rounds the nodes that wait are emptied: those that the last changes reach, if these
      were one round too many, and none if nothing changed. */
  ghost predicate Stopped(g: Graph, D: Digraph, root: Node, first: Round, rounds: seq<Round>, maxIterations: nat,
                          t: PointsTo, zero: set<Node>)
  {
    exists waiting: seq<Node> :: StoppedAt(g, D, root, first, rounds, maxIterations, waiting, t, zero)
  }

  ghost predicate StoppedAt(g: Graph, D: Digraph, root: Node, first: Round, rounds: seq<Round>, maxIterations: nat,
                            waiting: seq<Node>, t: PointsTo, zero: set<Node>)
  {
    && first.Shaped() && rounds != [] && Schedule(g, D, root, first.After(), first.ZeroedAfter(), rounds)
    && var r := rounds[|rounds| - 1];
      && r.Shaped() && t == r.After() - Emptied(g, waiting) && zero == r.ZeroedAfter()
      && Ordered(D, r.Changed(), waiting, [], ToSet(waiting))
      && (maxIterations > 0 ==> |rounds| <= maxIterations + 1)
      && (waiting != [] ==> maxIterations > 0 && |rounds| == maxIterations + 1)
  }

  lemma GivesUp(g: Graph, D: Digraph, root: Node, first: Round, rounds: seq<Round>, start: seq<Node>,
                maxIterations: nat, waiting: seq<Node>, s: PointsTo, t: PointsTo, zero: set<Node>)
    requires t == s - Emptied(g, waiting)
    requires first.Shaped() && rounds != []
    requires Reached(g, D, root, first.After(), first.ZeroedAfter(), rounds, start, s, zero)
    requires Ordered(D, start, waiting, [], ToSet(waiting))
    requires maxIterations > 0 ==> |rounds| <= maxIterations + 1
    requires waiting != [] ==> maxIterations > 0 && |rounds| == maxIterations + 1
    ensures Stopped(g, D, root, first, rounds, maxIterations, t, zero)
  {
    assert StoppedAt(g, D, root, first, rounds, maxIterations, waiting, t, zero);
  }

  lemma NotGivenUp(g: Graph, D: Digraph, root: Node, first: Round, rounds: seq<Round>, maxIterations: nat,
                   s: PointsTo, zero: set<Node>)
    requires first.Shaped() && rounds != []
    requires Reached(g, D, root, first.After(), first.ZeroedAfter(), rounds, [], s, zero)
    requires Ordered(D, [], [], [], ToSet([])) && (maxIterations > 0 ==> |rounds| <= maxIterations + 1)
    ensures Stopped(g, D, root, first, rounds, maxIterations, s, zero)
  {
    hide Stopped, Ordered, Reached;
    assert s - Emptied(g, []) == s;
    GivesUp(g, D, root, first, rounds, [], maxIterations, [], s, s, zero);
  }

  ghost function ReachSet(g: Graph, D: Digraph, root: Node): set<Node> { set n | n in g.nodes && D.Reaches(root, n) }

  /** The nodes that a run processes: what the root reaches, and the globals. */
  ghost function RunNodes(g: Graph, D: Digraph, globals: seq<Node>, root: Node): set<Node> {
    ReachSet(g, D, root) + Elements(globals)
  }

  ghost predicate BoundedAll(g: Graph, nodes: set<Node>, s: PointsTo, t: PointsTo) {
    forall L :: Below(s, L) && (forall n :: n in nodes ==> Closed(g, L, n)) ==> Below(t, L)
  }

  /** Every node that writes what another one reads reaches it. */
  ghost predicate Connected(g: Graph, D: Digraph, nodes: set<Node>, scope: set<Node>, L: PointsTo) {
    forall w, m :: w in nodes && m in scope && Influences(g, L, w, m) ==> D.Reaches(w, m)
  }

  ghost predicate Limited(g: Graph, D: Digraph, nodes: set<Node>, scope: set<Node>, s: PointsTo, L: PointsTo) {
    Below(s, L) && (forall n :: n in nodes ==> Closed(g, L, n)) && Connected(g, D, nodes, scope, L)
  }

  /** L is closed under all nodes of the run and above s, and in it writers reach readers. */
  ghost predicate Limit(g: Graph, D: Digraph, globals: seq<Node>, root: Node, s: PointsTo, L: PointsTo) {
    Limited(g, D, RunNodes(g, D, globals, root), RunNodes(g, D, globals, root), s, L)
  }

  /** Every node in scope is closed, or waits, or will be queued. */
  ghost predicate Accounted(g: Graph, D: Digraph, scope: set<Node>, s: PointsTo, rest: seq<Node>, changed: seq<Node>) {
    forall m :: m in scope ==> m in rest || Closed(g, s, m) || ReachedFrom(D, changed, m)
  }

  ghost predicate ClosedAfter(g: Graph, D: Digraph, globals: seq<Node>, root: Node, settled: bool, s: PointsTo) {
    && (forall m :: m in g.nodes && D.Reaches(root, m) ==> Closed(g, s, m))
    && (settled ==> forall m :: m in globals ==> Closed(g, s, m))
  }

  lemma NoneChanged(g: Graph, s: PointsTo, zero: set<Node>)
    ensures IsRound(g, NoNodes(s, zero)) && NoNodes(s, zero).Changed() == []
  {
  }

  lemma NoRounds(g: Graph, D: Digraph, root: Node, s: PointsTo, zero: set<Node>)
    ensures Reached(g, D, root, s, zero, [], [root], s, zero)
  {
  }

  lemma LeftAfter(g: Graph, t: PointsTo, u: PointsTo, changed: bool)
    requires WellTyped(g, t) && WellTyped(g, u) && Changed(t, u, changed)
    ensures if changed then BlurredLeft(g, u) < BlurredLeft(g, t)
      || (BlurredLeft(g, u) == BlurredLeft(g, t) && FactsLeft(g, u) < FactsLeft(g, t))
      else u == t
  {
    hide Advances, WellTyped;
    if changed { LessIsLeft(g, t, u); }
  }

  lemma IterationStarts(g: Graph, N: set<Node>, s: PointsTo)
    ensures Grows(s, s) && Changed(s, s, false) && BoundedAll(g, N, s, s)
  {
  }

  lemma IterationStep(g: Graph, N: set<Node>, s: PointsTo, t: PointsTo, u: PointsTo, cur: Node, before: bool,
                      changed: bool)
    requires cur in N && Processed(g, cur, t, u, changed)
    requires Grows(s, t) && Changed(s, t, before) && BoundedAll(g, N, s, t) && WellTyped(g, t)
    ensures Grows(s, u) && Changed(s, u, before || changed) && BoundedAll(g, N, s, u) && WellTyped(g, u)
  {
    hide Grows, Changed, Below, Closed, WellTyped, Framed, Delivered;
    GrowsTransitive(s, t, u);
    ChangedTransitive(s, t, u, before, changed);
  }

  /** After a node was processed it is closed or has changed something; others stay
      accounted for, because only nodes that it reaches read what it writes. */
  lemma AccountStep(g: Graph, D: Digraph, N: set<Node>, scope: set<Node>, t: PointsTo, u: PointsTo, L: PointsTo,
                    cur: Node, rest: seq<Node>, before: seq<Node>, changed: bool)
    requires cur in N && cur in D.succ && Processed(g, cur, t, u, changed) && Limited(g, D, N, scope, t, L)
    requires Accounted(g, D, scope, t, [cur] + rest, before)
    ensures Limited(g, D, N, scope, u, L)
    ensures Accounted(g, D, scope, u, rest, if changed then before + [cur] else before)
  {
    hide Grows, Below, Closed, WellTyped, Framed, Delivered, Influences, Digraph.Reaches, Changed, ReachedFrom;
    var after := if changed then before + [cur] else before;
    forall m | m in scope ensures m in rest || Closed(g, u, m) || ReachedFrom(D, after, m) {
      if ReachedFrom(D, before, m) {
        StillReached(D, before, cur, m);
      } else if changed {
        if m == cur {
          D.ReachesSelf(cur);
          LastReaches(D, before, cur, m);
        } else if Closed(g, t, m) {
          if Influences(g, t, cur, m) {
            InfluencesBelow(g, t, L, cur, m);
            LastReaches(D, before, cur, m);
          } else {
            StaysClosed(g, cur, t, u, m);
          }
        }
      } else {
        Unchanged(g, cur, t, u);
      }
    }
  }

  lemma Unchanged(g: Graph, cur: Node, t: PointsTo, u: PointsTo)
    requires Processed(g, cur, t, u, false)
    ensures u == t && Closed(g, u, cur)
  {
    hide Grows, Gives, Covers, Framed, Bounded;
  }

  lemma StillReached(D: Digraph, before: seq<Node>, cur: Node, m: Node)
    requires ReachedFrom(D, before, m)
    ensures ReachedFrom(D, before + [cur], m)
  {
    hide Digraph.Reaches;
    var u :| u in before && D.Reaches(u, m);
    assert u in before + [cur];
  }

  lemma LastReaches(D: Digraph, before: seq<Node>, cur: Node, m: Node)
    requires D.Reaches(cur, m)
    ensures ReachedFrom(D, before + [cur], m)
  {
    hide Digraph.Reaches;
    assert cur in before + [cur];
  }

  lemma NothingReached(D: Digraph)
    ensures forall v :: !ReachedFrom(D, [], v)
  {
  }

  /** The scope of a run, and a state that limits it if there is one. */
  lemma StartRun(g: Graph, D: Digraph, globals: seq<Node>, root: Node, s0: PointsTo, s1: PointsTo)
      returns (settled: bool, scope: set<Node>, good: bool, L: PointsTo)
    requires BoundedAll(g, Elements(globals), s0, s1)
    ensures settled <==> forall m :: m in globals ==> Closed(g, s1, m)
    ensures scope == if settled then RunNodes(g, D, globals, root) else ReachSet(g, D, root)
    ensures (exists M :: Limit(g, D, globals, root, s0, M)) ==> good
    ensures good ==> Limited(g, D, RunNodes(g, D, globals, root), scope, s1, L)
    ensures BoundedAll(g, RunNodes(g, D, globals, root), s0, s1)
  {
    hide Below, Closed, Influences, Digraph.Reaches, ReachSet;
    settled := forall m :: m in globals ==> Closed(g, s1, m);
    scope := if settled then RunNodes(g, D, globals, root) else ReachSet(g, D, root);
    good := exists M :: Limit(g, D, globals, root, s0, M);
    L := s0;
    if good {
      L :| Limit(g, D, globals, root, s0, L);
    }
  }

  lemma StartAccount(g: Graph, D: Digraph, globals: seq<Node>, root: Node, s: PointsTo, settled: bool, scope: set<Node>,
                     queue: seq<Node>)
    requires D.Valid() && D.succ.Keys == g.nodes.Keys && forall v :: v in queue <==> D.Reaches(root, v)
    requires settled <==> forall m :: m in globals ==> Closed(g, s, m)
    requires scope == if settled then RunNodes(g, D, globals, root) else ReachSet(g, D, root)
    ensures Elements(queue) <= ReachSet(g, D, root) && Accounted(g, D, scope, s, queue, [])
  {
    hide Closed, Digraph.Reaches, Digraph.Valid;
    forall v | v in queue ensures v in g.nodes { D.ReachesIsNode(root, v); }
  }

  lemma InNodes(g: Graph, D: Digraph, globals: seq<Node>, root: Node, queue: seq<Node>)
    requires Elements(queue) <= ReachSet(g, D, root)
    ensures Elements(queue) <= RunNodes(g, D, globals, root) && forall n :: n in queue ==> n in g.nodes
  {
    hide Digraph.Reaches;
    forall n | n in queue ensures n in g.nodes { assert n in Elements(queue); }
  }

  lemma LimitedLess(g: Graph, D: Digraph, nodes: set<Node>, N: set<Node>, scope: set<Node>, s: PointsTo, L: PointsTo)
    requires Limited(g, D, nodes, scope, s, L) && N <= nodes
    ensures Limited(g, D, N, scope, s, L)
  {
    hide Below, Closed, Influences, Digraph.Reaches;
  }

  lemma RunStep(g: Graph, D: Digraph, nodes: set<Node>, N: set<Node>, s0: PointsTo, t: PointsTo, u: PointsTo,
                scope: set<Node>, L: PointsTo, good: bool)
    requires N <= nodes && Grows(s0, t) && BoundedAll(g, nodes, s0, t) && Grows(t, u) && BoundedAll(g, N, t, u)
    requires good ==> Limited(g, D, nodes, scope, t, L)
    ensures Grows(s0, u) && BoundedAll(g, nodes, s0, u) && (good ==> Limited(g, D, nodes, scope, u, L))
  {
    hide Below, Closed, Influences, Digraph.Reaches, Grows;
    GrowsTransitive(s0, t, u);
  }

  lemma Requeued(g: Graph, D: Digraph, root: Node, N: set<Node>, scope: set<Node>, s: PointsTo, queue: seq<Node>,
                 changed: seq<Node>, good: bool)
    requires D.Valid() && D.succ.Keys == g.nodes.Keys && N <= ReachSet(g, D, root)
    requires forall n :: n in changed ==> n in N
    requires forall v :: v in queue <==> ReachedFrom(D, changed, v)
    requires good ==> Accounted(g, D, scope, s, [], changed)
    ensures Elements(queue) <= ReachSet(g, D, root) && (good ==> Accounted(g, D, scope, s, queue, []))
  {
    hide Closed, Digraph.Reaches, Digraph.Valid;
    forall v | v in queue ensures v in ReachSet(g, D, root) {
      var u :| u in changed && D.Reaches(u, v);
      D.ReachesTransitive(root, u, v);
      D.ReachesIsNode(root, v);
    }
  }

  lemma AllClosed(g: Graph, D: Digraph, globals: seq<Node>, root: Node, settled: bool, scope: set<Node>, s: PointsTo)
    requires scope == (if settled then RunNodes(g, D, globals, root) else ReachSet(g, D, root))
    requires Accounted(g, D, scope, s, [], [])
    ensures ClosedAfter(g, D, globals, root, settled, s)
  {
    hide Closed, Digraph.Reaches;
    NothingReached(D);
  }

  // ---- null pointers in zeroed memory

  lemma GepTarget(g: Graph, p: Pointer, k: Offset)
    ensures Real(g.GepPointer(p, k)) <==> Real(p)
  {
  }

  lemma CellIsRead(g: Graph, s: PointsTo, n: Node, ptr: Pointer, b: Node, x: Offset)
    requires IsLoad(g, n) && LoadsAt(g, s, n, ptr, b, x)
    ensures Reads(g, n, s, Cell(b, x)) && ReadsObject(g, s, g.nodes[n], b)
  {
  }

  lemma ObjectIsZeroed(g: Graph, n: Node, zero: set<Node>, s: PointsTo, ptr: Pointer, b: Node, x: Offset)
    requires IsLoad(g, n) && LoadsAt(g, s, n, ptr, b, x) && b in zero
    ensures ReadsNull(g, n, zero, s)
  {
    CellIsRead(g, s, n, ptr, b, x);
    ReadsZeroed(g, n, zero, s, b);
  }

  lemma OperandIsRead(g: Graph, s: PointsTo, n: Node, op: Node)
    requires Copies(g, n, op)
    ensures Reads(g, n, s, Var(op))
  {
  }

  lemma SourceIsRead(g: Graph, s: PointsTo, n: Node, ptr: Pointer, dptr: Pointer, x: Offset)
    requires CopiesTo(g, s, n, ptr, dptr)
    ensures Reads(g, n, s, Cell(ptr.target.node, x)) && ReadsObject(g, s, g.nodes[n], ptr.target.node)
  {
  }

  /** A load through ptr finds no entry in zeroed memory. */
  ghost predicate LoadsNull(g: Graph, zero: set<Node>, s: PointsTo, ptr: Pointer) {
    g.Dereferenceable(ptr) && ptr.target.node in zero
    && (if ptr.offset == UNKNOWN then OffsetsOf(s, ptr.target.node) == {} else Cell(ptr.target.node, ptr.offset) !in s)
  }

  /** What a load gains it has read through some pointer of its operand, or it is the null
      pointer that is found in zeroed memory without an entry. */
  ghost predicate LoadGains(g: Graph, zero: set<Node>, s: PointsTo, t: PointsTo, n: Node) {
    IsLoad(g, n) && forall p :: p in At(t, Var(n)) && p !in At(s, Var(n)) ==>
      exists ptr :: ptr in At(s, Var(g.nodes[n].operand)) && GainsVia(g, zero, s, ptr, p)
  }

  ghost predicate GainsVia(g: Graph, zero: set<Node>, s: PointsTo, ptr: Pointer, p: Pointer) {
    LoadVia(g, s, ptr, p) || (p == NullPointer && LoadsNull(g, zero, s, ptr))
  }

  lemma NoGains(g: Graph, zero: set<Node>, s: PointsTo, n: Node)
    requires IsLoad(g, n)
    ensures LoadGains(g, zero, s, s, n)
  {
  }

  lemma OneGain(g: Graph, zero: set<Node>, s: PointsTo, t: PointsTo, n: Node, ptr: Pointer, p: Pointer)
    requires LoadGains(g, zero, s, t, n) && ptr in At(s, Var(g.nodes[n].operand)) && GainsVia(g, zero, s, ptr, p)
    ensures LoadGains(g, zero, s, AddAt(t, Var(n), p), n)
  {
    hide GainsVia;
    assert At(AddAt(t, Var(n), p), Var(n)) <= At(t, Var(n)) + {p};
  }

  lemma CellGains(g: Graph, zero: set<Node>, s: PointsTo, t: PointsTo, n: Node, before: bool, ptr: Pointer, b: Node,
                  x: Offset)
    requires LoadGains(g, zero, s, t, n) && Partly(g, n, s, t, before) && LoadsAt(g, s, n, ptr, b, x)
    ensures LoadGains(g, zero, s, UnionAt(t, Var(n), At(t, Cell(b, x))), n)
  {
    LoadKeepsMemory(g, n, s, t, before, b, x);
    hide Partly, LoadsNull;
    var u := UnionAt(t, Var(n), At(t, Cell(b, x)));
    assert At(u, Var(n)) == At(t, Var(n)) + At(s, Cell(b, x));
    forall p | p in At(s, Cell(b, x)) ensures GainsVia(g, zero, s, ptr, p) { assert LoadVia(g, s, ptr, p); }
    hide GainsVia;
  }

  lemma EmptyObject(g: Graph, zero: set<Node>, s: PointsTo, n: Node, ptr: Pointer, b: Node)
    requires LoadsAt(g, s, n, ptr, b, UNKNOWN) && ptr.offset == UNKNOWN && OffsetsOf(s, b) == {} && b in zero
    ensures LoadsNull(g, zero, s, ptr) && ptr in At(s, Var(g.nodes[n].operand))
  {
    hide OffsetsOf;
  }

  lemma NullStays(s: PointsTo, t: PointsTo, n: Node)
    requires Grows(s, t)
    ensures Covers(s, Var(n), NullPointer) ==> Covers(t, Var(n), NullPointer)
  {
    hide Covers, Grows;
    if Covers(s, Var(n), NullPointer) { CoversGrows(s, t, Var(n), NullPointer); }
  }

  lemma SameEntry(g: Graph, n: Node, s: PointsTo, t: PointsTo, before: bool, b: Node, x: Offset)
    requires IsLoad(g, n) && Partly(g, n, s, t, before)
    ensures Cell(b, x) in t <==> Cell(b, x) in s
  {
    assert !Writes(g, s, n, g.nodes[n], Cell(b, x));
  }

  lemma SameOffsets(g: Graph, n: Node, s: PointsTo, t: PointsTo, before: bool, b: Node)
    requires IsLoad(g, n) && Partly(g, n, s, t, before)
    ensures OffsetsOf(t, b) == OffsetsOf(s, b)
  {
    forall x: Offset ensures x in OffsetsOf(t, b) <==> x in OffsetsOf(s, b) {
      SameEntry(g, n, s, t, before, b, x);
      OffsetOf(s, b, x);
      OffsetOf(t, b, x);
    }
  }

  lemma OffsetOf(s: PointsTo, b: Node, x: Offset)
    ensures x in OffsetsOf(s, b) <==> Cell(b, x) in s
  {
    if Cell(b, x) in s { assert Cell(b, x).offset in OffsetsOf(s, b); }
  }

  lemma NothingAt(s: PointsTo, b: Node, x: Offset)
    requires x !in OffsetsOf(s, b)
    ensures Cell(b, x) !in s
  {
    OffsetOf(s, b, x);
  }

  /** The copy covers the whole source and an object of the same size. */
  predicate WholeObject(g: Graph, n: Node, ptr: Pointer, dptr: Pointer)
    requires n in g.nodes && g.nodes[n].Memcpy?
  {
    var srcSize, destSize := g.SizeOf(ptr.target), g.SizeOf(dptr.target);
    srcSize != UNKNOWN && srcSize == destSize && g.nodes[n].len == srcSize && ptr.offset == 0
  }

  lemma WholeMeans(g: Graph, n: Node, ptr: Pointer, dptr: Pointer)
    requires IsMemcpy(g, n)
    ensures WholeObject(g, n, ptr, dptr) <==> Whole(g, ptr, dptr, g.nodes[n].len)
  {
  }

  /** The cells that were skipped hold nothing. */
  lemma SkippedArrive(g: Graph, s: PointsTo, t: PointsTo, ptr: Pointer, dptr: Pointer, len: Offset, last: int,
                      next: int)
    requires ptr.target.Object? && dptr.target.Object? && Adds(s, t)
    requires forall x: Offset :: x <= last ==> Arrived(g, s, t, ptr, dptr, len, x)
    requires forall x: Offset :: last < x < next ==> x !in LaterOffsets(t, ptr.target.node, last)
    ensures forall x: Offset :: x < next ==> Arrived(g, s, t, ptr, dptr, len, x)
  {
    hide Arrived, OffsetsOf;
    forall x: Offset | last < x < next ensures Arrived(g, s, t, ptr, dptr, len, x) {
      assert x !in LaterOffsets(t, ptr.target.node, last);
      NothingAt(t, ptr.target.node, x);
      assert At(s, Cell(ptr.target.node, x)) <= At(t, Cell(ptr.target.node, x));
      CellSkipped(g, s, t, ptr, dptr, len, x);
    }
  }

  lemma ArrivedLater(g: Graph, s: PointsTo, t: PointsTo, u: PointsTo, ptr: Pointer, dptr: Pointer, len: Offset,
                     x: Offset)
    requires Arrived(g, s, t, ptr, dptr, len, x) && Adds(t, u)
    ensures Arrived(g, s, u, ptr, dptr, len, x)
  {
    hide Arrived;
    AddsSelf(g, s, ptr, dptr, len);
    ArrivedStays(g, s, s, t, u, ptr, dptr, len, x);
  }

  lemma ArrivedEarlier(g: Graph, s: PointsTo, t: PointsTo, u: PointsTo, ptr: Pointer, dptr: Pointer, len: Offset,
                       x: Offset)
    requires Arrived(g, t, u, ptr, dptr, len, x) && Adds(s, t)
    ensures Arrived(g, s, u, ptr, dptr, len, x)
  {
    hide Arrived;
    AddsSelf(g, u, ptr, dptr, len);
    ArrivedStays(g, s, t, u, u, ptr, dptr, len, x);
  }

  lemma ObjectArrives(g: Graph, s: PointsTo, t: PointsTo, u: PointsTo, ptr: Pointer, dptr: Pointer, len: Offset)
    requires Adds(s, t) && forall x: Offset :: Arrived(g, t, u, ptr, dptr, len, x)
    ensures PairArrived(g, s, u, ptr, dptr, len)
  {
    hide Arrived, Adds;
    forall x: Offset ensures Arrived(g, s, u, ptr, dptr, len, x) { ArrivedEarlier(g, s, t, u, ptr, dptr, len, x); }
  }

  lemma NoPair(g: Graph, s: PointsTo, t: PointsTo, ptr: Pointer, dptr: Pointer, len: Offset)
    requires !g.Dereferenceable(ptr) || !g.Dereferenceable(dptr)
    ensures PairArrived(g, s, t, ptr, dptr, len)
  {
  }

  lemma NoPairs(g: Graph, s: PointsTo, ptr: Pointer, len: Offset)
    requires !g.Dereferenceable(ptr)
    ensures forall d :: PairArrived(g, s, s, ptr, d, len)
  {
  }

  lemma PairLater(g: Graph, s: PointsTo, t: PointsTo, u: PointsTo, ptr: Pointer, dptr: Pointer, len: Offset)
    requires Adds(t, u)
    ensures PairArrived(g, s, t, ptr, dptr, len) ==> PairArrived(g, s, u, ptr, dptr, len)
  {
    hide PairArrived;
    AddsSelf(g, s, ptr, dptr, len);
    if PairArrived(g, s, t, ptr, dptr, len) { PairStays(g, s, s, t, u, ptr, dptr, len); }
  }

  /** One more object was copied to. */
  lemma OnePair(g: Graph, z: set<Node>, z': set<Node>, s: PointsTo, t: PointsTo, u: PointsTo, ptr: Pointer,
                dptr: Pointer, dests: set<Pointer>, len: Offset)
    requires AllCopied(g, z, s, t, {ptr}, dests, len) && AllCopied(g, z, t, u, {ptr}, {dptr}, len) && z <= z'
    requires Adds(s, t) && Adds(t, u) && PairArrived(g, t, u, ptr, dptr, len) && dptr in dests
    ensures AllCopied(g, z', s, u, {ptr}, dests, len) && Adds(s, u) && PairArrived(g, s, u, ptr, dptr, len)
  {
    hide AllCopied, Adds, PairArrived;
    AllCopiedMore(g, z, z', t, u, {ptr}, {ptr}, {dptr}, dests, len);
    AllCopiedStep(g, z, z', s, t, u, {ptr}, {ptr}, dests, dests, len);
    AddsTransitive(s, t, u);
    AddsSelf(g, u, ptr, dptr, len);
    PairStays(g, s, t, u, u, ptr, dptr, len);
  }

  /** One more source was copied from. */
  lemma PairsStep(g: Graph, z: set<Node>, z': set<Node>, s: PointsTo, t: PointsTo, u: PointsTo, from: set<Pointer>,
                  ptr: Pointer, dests: set<Pointer>, len: Offset)
    requires AllCopied(g, z, s, t, from, dests, len) && AllCopied(g, z', t, u, {ptr}, dests, len) && z <= z'
    requires Adds(s, t) && Adds(t, u) && ptr in from && forall d :: d in dests ==> PairArrived(g, t, u, ptr, d, len)
    ensures AllCopied(g, z', s, u, from, dests, len) && Adds(s, u)
    ensures forall d :: d in dests ==> PairArrived(g, s, u, ptr, d, len)
  {
    hide AllCopied, Adds, PairArrived;
    AllCopiedMore(g, z', z', t, u, {ptr}, from, dests, dests, len);
    AllCopiedStep(g, z, z', s, t, u, from, from, dests, dests, len);
    AddsTransitive(s, t, u);
    AddsSelf(g, u, ptr, ptr, len);
    forall d | d in dests ensures PairArrived(g, s, u, ptr, d, len) { PairStays(g, s, t, u, u, ptr, d, len); }
  }

  /** What is copied from zeroed memory may be null. */
  ghost predicate NullCopied(g: Graph, n: Node, zero: set<Node>, zero': set<Node>, t: PointsTo, ptr: Pointer,
                             dptr: Pointer)
  {
    IsMemcpy(g, n) && g.Dereferenceable(ptr) && g.Dereferenceable(dptr) && ptr.target.node in zero ==>
      if WholeObject(g, n, ptr, dptr) then dptr.target.node in zero'
      else Covers(t, Cell(dptr.target.node, UNKNOWN), NullPointer)
  }

  ghost predicate NullsCopied(g: Graph, n: Node, zero: set<Node>, zero': set<Node>, s: PointsTo, t: PointsTo,
                              ptr: Pointer)
  {
    IsMemcpy(g, n) && forall d :: d in At(s, Var(g.nodes[n].dest)) ==> NullCopied(g, n, zero, zero', t, ptr, d)
  }

  lemma NoNull(g: Graph, n: Node, zero: set<Node>, zero': set<Node>, t: PointsTo, ptr: Pointer, dptr: Pointer)
    requires !g.Dereferenceable(ptr) || !g.Dereferenceable(dptr)
    ensures NullCopied(g, n, zero, zero', t, ptr, dptr)
  {
  }

  lemma NoNulls(g: Graph, n: Node, zero: set<Node>, zero': set<Node>, s: PointsTo, t: PointsTo, ptr: Pointer)
    requires IsMemcpy(g, n) && !g.Dereferenceable(ptr)
    ensures NullsCopied(g, n, zero, zero', s, t, ptr)
  {
  }

  /** Later additions keep what was said of nulls; `zero` may shrink. */
  lemma NullsStay(g: Graph, n: Node, zero: set<Node>, z: set<Node>, z': set<Node>, t: PointsTo, u: PointsTo,
                  ptr: Pointer)
    requires Grows(t, u) && zero <= z <= z'
    ensures forall d :: NullCopied(g, n, zero, z, t, ptr, d) ==> NullCopied(g, n, zero, z', u, ptr, d)
    ensures forall d :: NullCopied(g, n, z, z', u, ptr, d) ==> NullCopied(g, n, zero, z', u, ptr, d)
  {
    hide Covers, Grows, WholeObject;
    forall d | NullCopied(g, n, zero, z, t, ptr, d) ensures NullCopied(g, n, zero, z', u, ptr, d) {
      if d.target.Object? && Covers(t, Cell(d.target.node, UNKNOWN), NullPointer) {
        CoversGrows(t, u, Cell(d.target.node, UNKNOWN), NullPointer);
      }
    }
  }

  lemma NullsKept(g: Graph, n: Node, zero: set<Node>, z: set<Node>, z': set<Node>, s: PointsTo, t: PointsTo,
                  u: PointsTo, ptr: Pointer)
    requires Grows(t, u) && zero <= z <= z' && NullsCopied(g, n, zero, z, s, t, ptr)
    ensures NullsCopied(g, n, zero, z', s, u, ptr)
  {
    hide NullCopied, Grows;
    NullsStay(g, n, zero, z, z', t, u, ptr);
  }

  lemma NullsLess(g: Graph, n: Node, zero: set<Node>, z: set<Node>, z': set<Node>, s: PointsTo, u: PointsTo,
                  ptr: Pointer)
    requires zero <= z <= z' && NullsCopied(g, n, z, z', s, u, ptr)
    ensures NullsCopied(g, n, zero, z', s, u, ptr)
  {
    hide NullCopied;
    GrowsSelf(u);
    NullsStay(g, n, zero, z, z', u, u, ptr);
  }
}
