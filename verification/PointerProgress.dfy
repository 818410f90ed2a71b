/** What processing one node does to the state, one addition at a time. */
module PointerProgress {
  import opened Offsets
  import opened Digraphs
  import opened PointerStates
  import opened PointerRules

  // ---- the finite universe of facts

  ghost predicate GoodPointer(g: Graph, p: Pointer) {
    p.target.Object? ==> p.target.node in g.nodes && (g.nodes[p.target.node].Alloc? || g.nodes[p.target.node].Function?)
  }

  ghost predicate GoodLocation(g: Graph, l: Location) {
    match l
    case Var(n) => n in g.nodes
    case Cell(b, _) => b in g.nodes
  }

  /** Sets belong to nodes of the graph, and pointers point to its memory and functions. */
  ghost predicate WellTyped(g: Graph, s: PointsTo) {
    forall l, p :: p in At(s, l) ==> Good(g, l, p)
  }

  ghost predicate Good(g: Graph, l: Location, p: Pointer) { GoodLocation(g, l) && GoodPointer(g, p) }

  ghost function Universe(g: Graph): set<(Location, Pointer)> {
    set l, p | l in Locations(g) && p in Pointers(g) :: (l, p)
  }

  ghost function Locations(g: Graph): set<Location> {
    (set n | n in g.nodes :: Var(n)) + (set n, o: int | n in g.nodes && 0 <= o <= UNKNOWN :: Cell(n, o))
  }

  ghost function Targets(g: Graph): set<Target> {
    {Null, UnknownMemory, Invalidated} + (set n | n in g.nodes :: Object(n))
  }

  ghost function Pointers(g: Graph): set<Pointer> {
    set t, o: int | t in Targets(g) && 0 <= o <= UNKNOWN :: Pointer(t, o)
  }

  lemma WellTypedFacts(g: Graph, s: PointsTo)
    requires WellTyped(g, s)
    ensures Facts(s) <= Universe(g)
  {
    forall f | f in Facts(s) ensures f in Universe(g) {
      TypedAt(g, s, f.0, f.1);
      InUniverse(g, f.0, f.1);
    }
  }

  lemma TypedAt(g: Graph, s: PointsTo, l: Location, p: Pointer)
    requires WellTyped(g, s) && p in At(s, l)
    ensures GoodLocation(g, l) && GoodPointer(g, p)
  {
  }

  lemma TypedAddAt(g: Graph, s: PointsTo, l: Location, p: Pointer)
    requires WellTyped(g, s) && GoodLocation(g, l) && GoodPointer(g, p)
    ensures WellTyped(g, AddAt(s, l, p))
  {
    AddPointerKeeps(At(s, l), p);
    forall k, q | q in At(AddAt(s, l, p), k) ensures Good(g, k, q) {
      if k != l || q != p { assert q in At(s, k); }
    }
  }

  lemma TypedUnionAt(g: Graph, s: PointsTo, l: Location, P: set<Pointer>)
    requires WellTyped(g, s) && GoodLocation(g, l) && forall p :: p in P ==> GoodPointer(g, p)
    ensures WellTyped(g, UnionAt(s, l, P))
  {
    forall k, q | q in At(UnionAt(s, l, P), k) ensures Good(g, k, q) {
      if k != l || q !in P { assert q in At(s, k); }
    }
  }

  lemma InUniverse(g: Graph, l: Location, p: Pointer)
    requires GoodLocation(g, l) && GoodPointer(g, p)
    ensures (l, p) in Universe(g)
  {
    var t, o := p.target, p.offset;
    assert t in Targets(g);
    PointerIsListed(g, t, o);
    assert p == Pointer(t, o);
    LocationIsListed(g, l);
    hide Locations, Pointers;
  }

  lemma PointerIsListed(g: Graph, t: Target, o: Offset)
    requires t in Targets(g)
    ensures Pointer(t, o) in Pointers(g)
  {
    hide Targets;
    var q: int := o;
    assert 0 <= q <= UNKNOWN && Pointer(t, q) == Pointer(t, o);
  }

  lemma LocationIsListed(g: Graph, l: Location)
    requires GoodLocation(g, l)
    ensures l in Locations(g)
  {
  }

  /** What is left: facts at the unknown offset first, then the others. */
  ghost function BlurredLeft(g: Graph, s: PointsTo): set<(Location, Pointer)> { Universe(g) - Blurred(s) }

  ghost function FactsLeft(g: Graph, s: PointsTo): set<(Location, Pointer)> { Universe(g) - Facts(s) }

  /** Every change brings the state closer to the whole universe. */
  lemma LessIsLeft(g: Graph, s: PointsTo, t: PointsTo)
    requires WellTyped(g, s) && WellTyped(g, t) && Advances(s, t)
    ensures BlurredLeft(g, t) < BlurredLeft(g, s)
      || (BlurredLeft(g, t) == BlurredLeft(g, s) && FactsLeft(g, t) < FactsLeft(g, s))
  {
    WellTypedFacts(g, s);
    WellTypedFacts(g, t);
    assert Blurred(s) <= Facts(s) && Blurred(t) <= Facts(t);
    hide Facts, Universe, Blurred;
    if Blurred(s) < Blurred(t) {
      var f :| f in Blurred(t) && f !in Blurred(s);
      assert f in BlurredLeft(g, s) && f !in BlurredLeft(g, t);
    } else {
      var f :| f in Facts(t) && f !in Facts(s);
      assert f in FactsLeft(g, s) && f !in FactsLeft(g, t);
    }
  }

  // ---- processing node n from s has come to t

  ghost predicate Partly(g: Graph, n: Node, s: PointsTo, t: PointsTo, changed: bool) {
    && n in g.nodes && Grows(s, t) && Framed(g, n, s, t) && Changed(s, t, changed)
    && (WellTyped(g, s) ==> WellTyped(g, t)) && Bounded(g, n, s, t)
  }

  /** Every larger state that is closed under n stays larger. */
  ghost predicate Bounded(g: Graph, n: Node, s: PointsTo, t: PointsTo) {
    forall L :: Below(s, L) && Closed(g, L, n) ==> Below(t, L)
  }

  /** All that n generates from s is covered. */
  ghost predicate Delivered(g: Graph, n: Node, s: PointsTo, t: PointsTo) {
    n in g.nodes && forall l, p :: Gives(g, s, n, g.nodes[n], l, p) ==> Covers(t, l, p)
  }

  /** The contract of processing a node. */
  ghost predicate Processed(g: Graph, n: Node, s: PointsTo, t: PointsTo, changed: bool) {
    Partly(g, n, s, t, changed) && Delivered(g, n, s, t)
  }

  lemma NothingYet(g: Graph, n: Node, s: PointsTo)
    requires n in g.nodes
    ensures Partly(g, n, s, s, false)
  {
  }

  /** p may be added at l: the node generates it from the first or the current state. */
  ghost predicate MayAdd(g: Graph, n: Node, s: PointsTo, t: PointsTo, l: Location, p: Pointer) {
    n in g.nodes && (Real(p) ==> Gives(g, s, n, g.nodes[n], l, p) || Gives(g, t, n, g.nodes[n], l, p))
  }

  lemma AddOne(g: Graph, n: Node, s: PointsTo, t: PointsTo, changed: bool, l: Location, p: Pointer)
    requires Partly(g, n, s, t, changed) && MayAdd(g, n, s, t, l, p)
    requires Writes(g, s, n, g.nodes[n], l) && (WellTyped(g, s) ==> GoodLocation(g, l) && GoodPointer(g, p))
    ensures Partly(g, n, s, AddAt(t, l, p), changed || AddPointer(At(t, l), p) != At(t, l))
    ensures Covers(AddAt(t, l, p), l, p)
  {
    hide Gives, Writes, Grows, Below, Closed, Changed, Covers, AddPointer, GoodPointer, GoodLocation;
    var u := AddAt(t, l, p);
    AddAtGrows(t, l, p);
    GrowsTransitive(s, t, u);
    AddAtChanged(t, l, p);
    ChangedTransitive(s, t, u, changed, AddPointer(At(t, l), p) != At(t, l));
    assert forall k :: k != l ==> At(u, k) == At(t, k) && (k in u <==> k in t);
    if WellTyped(g, s) { TypedAddAt(g, t, l, p); }
    hide WellTyped;
    forall L | Below(s, L) && Closed(g, L, n) ensures Below(u, L) {
      AddedBelow(g, n, s, t, L, l, p);
      AddAtBelow(t, l, p, L);
    }
  }

  lemma AddAtChanged(t: PointsTo, l: Location, p: Pointer)
    ensures Changed(t, AddAt(t, l, p), AddPointer(At(t, l), p) != At(t, l))
  {
    hide AddAt, AddPointer, Advances, At;
    AddAtChanges(t, l, p);
  }

  lemma UnionAtChanged(t: PointsTo, l: Location, P: set<Pointer>)
    ensures Changed(t, UnionAt(t, l, P), !(P <= At(t, l)))
  {
    hide UnionAt, Advances, At;
    UnionAtChanges(t, l, P);
  }

  lemma AddedBelow(g: Graph, n: Node, s: PointsTo, t: PointsTo, L: PointsTo, l: Location, p: Pointer)
    requires Bounded(g, n, s, t) && MayAdd(g, n, s, t, l, p) && Below(s, L) && Closed(g, L, n)
    ensures Below(t, L) && (Real(p) ==> Covers(L, l, p))
  {
    hide Gives, Below, Closed, Covers;
    if Real(p) {
      if Gives(g, s, n, g.nodes[n], l, p) { GivesBelow(g, s, L, n, l, p); } else { GivesBelow(g, t, L, n, l, p); }
    }
  }

  lemma AddAll(g: Graph, n: Node, s: PointsTo, t: PointsTo, changed: bool, l: Location, P: set<Pointer>)
    requires Partly(g, n, s, t, changed) && forall p :: p in P ==> MayAdd(g, n, s, t, l, p)
    requires Writes(g, s, n, g.nodes[n], l)
    requires WellTyped(g, s) ==> GoodLocation(g, l) && forall p :: p in P ==> GoodPointer(g, p)
    ensures Partly(g, n, s, UnionAt(t, l, P), changed || !(P <= At(t, l)))
    ensures forall p :: p in P ==> Covers(UnionAt(t, l, P), l, p)
  {
    hide Gives, Writes, Grows, Below, Closed, Changed, Covers, MayAdd, GoodPointer, GoodLocation;
    var u := UnionAt(t, l, P);
    UnionAtGrows(t, l, P);
    GrowsTransitive(s, t, u);
    UnionAtChanged(t, l, P);
    ChangedTransitive(s, t, u, changed, !(P <= At(t, l)));
    assert forall k :: k != l ==> At(u, k) == At(t, k) && (k in u <==> k in t);
    assert At(u, l) == At(t, l) + P;
    if WellTyped(g, s) { TypedUnionAt(g, t, l, P); }
    hide WellTyped;
    forall L | Below(s, L) && Closed(g, L, n) ensures Below(u, L) {
      forall p | p in P && Real(p) ensures Covers(L, l, p) { AddedBelow(g, n, s, t, L, l, p); }
      UnionAtBelow(t, l, P, L);
    }
  }

  // ---- one pointer of the operand after the other

  /** What n generates because of one pointer that its operand may hold. */
  ghost predicate GivesVia(g: Graph, s: PointsTo, n: Node, k: PSNode, ptr: Pointer, l: Location, p: Pointer) {
    match k
    case Load(op) => l == Var(n) && LoadVia(g, s, ptr, p)
    case Store(value, into) => StoreVia(g, s, value, ptr, l, p)
    case Gep(source, off) => l == Var(n) && p == g.GepPointer(ptr, off)
    case Memcpy(source, dest, len) => exists dptr, x ::
      dptr in At(s, Var(dest)) && MemcpyVia(g, s, len, ptr, dptr, x, l, p)
    case _ => false
  }

  /** All of it is covered. */
  ghost predicate Via(g: Graph, n: Node, s: PointsTo, t: PointsTo, ptr: Pointer) {
    n in g.nodes && forall l, p :: GivesVia(g, s, n, g.nodes[n], ptr, l, p) ==> Covers(t, l, p)
  }

  ghost predicate ViaAll(g: Graph, n: Node, s: PointsTo, t: PointsTo, done: set<Pointer>) {
    forall ptr :: ptr in done ==> Via(g, n, s, t, ptr)
  }

  lemma ViaOneMore(g: Graph, n: Node, s: PointsTo, t: PointsTo, u: PointsTo, done: set<Pointer>, ptr: Pointer)
    requires ViaAll(g, n, s, t, done) && Grows(t, u) && Via(g, n, s, u, ptr)
    ensures ViaAll(g, n, s, u, done + {ptr})
  {
    hide GivesVia, Covers, Grows;
    forall q | q in done ensures Via(g, n, s, u, q) {
      assert Via(g, n, s, t, q);
      forall l, p | GivesVia(g, s, n, g.nodes[n], q, l, p) ensures Covers(u, l, p) {
        CoversGrows(t, u, l, p);
      }
    }
  }

  /** The operand whose pointers are looked at. */
  function Source(k: PSNode): Node
    requires k.Load? || k.Store? || k.Gep? || k.Memcpy?
  {
    match k
    case Load(op) => op
    case Store(_, into) => into
    case Gep(source, _) => source
    case Memcpy(source, _, _) => source
  }

  lemma ViaDelivers(g: Graph, n: Node, s: PointsTo, t: PointsTo)
    requires n in g.nodes && (g.nodes[n].Load? || g.nodes[n].Store? || g.nodes[n].Gep? || g.nodes[n].Memcpy?)
    requires ViaAll(g, n, s, t, At(s, Var(Source(g.nodes[n]))))
    ensures Delivered(g, n, s, t)
  {
    hide Covers, LoadVia, StoreVia, MemcpyVia;
    forall l, p | Gives(g, s, n, g.nodes[n], l, p) ensures Covers(t, l, p) {
      var ptr := ViaSome(g, s, n, l, p);
      assert Via(g, n, s, t, ptr);
    }
  }

  lemma ViaSome(g: Graph, s: PointsTo, n: Node, l: Location, p: Pointer) returns (ptr: Pointer)
    requires n in g.nodes && (g.nodes[n].Load? || g.nodes[n].Store? || g.nodes[n].Gep? || g.nodes[n].Memcpy?)
    requires Gives(g, s, n, g.nodes[n], l, p)
    ensures ptr in At(s, Var(Source(g.nodes[n]))) && GivesVia(g, s, n, g.nodes[n], ptr, l, p)
  {
    hide LoadVia, StoreVia, MemcpyVia;
    match g.nodes[n]
    case Load(op) => ptr :| ptr in At(s, Var(op)) && LoadVia(g, s, ptr, p);
    case Store(value, into) => ptr :| ptr in At(s, Var(into)) && StoreVia(g, s, value, ptr, l, p);
    case Gep(source, off) => ptr :| ptr in At(s, Var(source)) && p == g.GepPointer(ptr, off);
    case Memcpy(source, dest, len) =>
      var q, dptr, x :| q in At(s, Var(source)) && dptr in At(s, Var(dest)) && MemcpyVia(g, s, len, q, dptr, x, l, p);
      ptr := q;
  }

  // ---- where null pointers come from

  /** The set at l holds no null pointer. */
  ghost predicate Clean(s: PointsTo, l: Location) { forall p :: p in At(s, l) ==> Real(p) }

  /** n reads the set at l. */
  ghost predicate Reads(g: Graph, n: Node, s: PointsTo, l: Location) {
    n in g.nodes &&
      match l
      case Var(v) => v in Operands(g.nodes[n])
      case Cell(t, _) => ReadsObject(g, s, g.nodes[n], t)
  }

  /** n reads a null pointer, or zeroed memory. */
  ghost predicate ReadsNull(g: Graph, n: Node, zero: set<Node>, s: PointsTo) {
    (exists l :: Reads(g, n, s, l) && !Clean(s, l)) || exists t :: t in zero && Reads(g, n, s, Cell(t, UNKNOWN))
  }

  /** A set gains a null pointer only when n reads one, or zeroed memory. */
  ghost predicate NullsRead(g: Graph, n: Node, zero: set<Node>, s: PointsTo, t: PointsTo) {
    ReadsNull(g, n, zero, s) || forall l :: Clean(s, l) ==> Clean(t, l)
  }

  lemma NoNullsYet(g: Graph, n: Node, zero: set<Node>, s: PointsTo)
    ensures NullsRead(g, n, zero, s, s)
  {
  }

  lemma AddOneNull(g: Graph, n: Node, zero: set<Node>, s: PointsTo, t: PointsTo, l: Location, p: Pointer)
    requires NullsRead(g, n, zero, s, t) && (ReadsNull(g, n, zero, s) || Real(p))
    ensures NullsRead(g, n, zero, s, AddAt(t, l, p))
  {
    hide ReadsNull, AddPointer;
    AddPointerKeeps(At(t, l), p);
    assert At(AddAt(t, l, p), l) == AddPointer(At(t, l), p);
    assert forall k :: k != l ==> At(AddAt(t, l, p), k) == At(t, k);
  }

  /** What was read at k is added at l. */
  lemma AddAllNull(g: Graph, n: Node, zero: set<Node>, s: PointsTo, t: PointsTo, l: Location, k: Location)
    requires NullsRead(g, n, zero, s, t) && Reads(g, n, s, k)
    ensures NullsRead(g, n, zero, s, UnionAt(t, l, At(t, k)))
  {
    hide Reads;
    var u := UnionAt(t, l, At(t, k));
    assert At(u, l) == At(t, l) + At(t, k);
    assert forall j :: j != l ==> At(u, j) == At(t, j);
  }

  lemma ReadIsClean(g: Graph, n: Node, zero: set<Node>, s: PointsTo, l: Location, p: Pointer)
    requires Reads(g, n, s, l) && p in At(s, l)
    ensures ReadsNull(g, n, zero, s) || Real(p)
  {
    hide Reads;
  }

  lemma ReadsZeroed(g: Graph, n: Node, zero: set<Node>, s: PointsTo, t: Node)
    requires n in g.nodes && ReadsObject(g, s, g.nodes[n], t) && t in zero
    ensures ReadsNull(g, n, zero, s)
  {
    assert Reads(g, n, s, Cell(t, UNKNOWN));
  }

  /** More memory is zeroed only when zeroed memory is read. */
  ghost predicate Zeroed(g: Graph, n: Node, zero: set<Node>, s: PointsTo, zero': set<Node>) {
    zero <= zero' && (zero' != zero ==> ReadsNull(g, n, zero, s))
  }

  lemma NothingZeroed(g: Graph, n: Node, zero: set<Node>, s: PointsTo)
    ensures Zeroed(g, n, zero, s, zero)
  {
  }
}
