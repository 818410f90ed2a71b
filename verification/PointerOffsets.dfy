/** Where geps and copies of memory take pointers, in terms of offsets alone. */
module PointerOffsets {
  import opened Offsets
  import opened Digraphs
  import opened PointerStates
  import opened PointerRules

  /** The bytes of the object t: those that were allocated for it, and none if it was not allocated. */
  ghost function Extent(g: Graph, t: Target): Offset {
    match t
    case Object(n) =>
      if n !in g.nodes then 0
      else (match g.nodes[n]
            case Alloc(size, _, _) => size
            case _ => 0)
    case _ => 0
  }

  /** A pointer may be kept at offset y of t. */
  ghost predicate Fits(g: Graph, t: Target, y: int) { y < UNKNOWN && y < Extent(g, t) && y < g.fieldSensitivity }

  /** x is one of the `len` bytes from `so` on, or may be. */
  ghost predicate MayCopy(so: Offset, len: Offset, x: Offset) {
    x == UNKNOWN || so == UNKNOWN || (x >= so && (len == UNKNOWN || x < so + len))
  }

  /** Copying `len` bytes from ptr to dptr takes what is at offset x to offset y: i bytes
      behind dptr what is i bytes behind ptr, and to the unknown offset what has no such place. */
  ghost predicate Shifts(g: Graph, ptr: Pointer, dptr: Pointer, len: Offset, x: Offset, y: Offset) {
    var so, to := ptr.offset, dptr.offset;
    && MayCopy(so, len, x)
    && if x != UNKNOWN && so != UNKNOWN && to != UNKNOWN && Fits(g, dptr.target, to + x - so) then y == to + x - so
       else y == UNKNOWN
  }

  /** The offsets that a copy computes are these. */
  lemma CopiesShift(g: Graph, ptr: Pointer, dptr: Pointer, len: Offset, x: Offset)
    ensures InRange(ptr.offset, x, len) ==>
      Shifts(g, ptr, dptr, len, x, g.CopyOffset(x, ptr.offset, dptr.offset, dptr.target))
    ensures !InRange(ptr.offset, x, len) ==> forall y: Offset :: !Shifts(g, ptr, dptr, len, x, y)
    ensures forall y: Offset, z: Offset :: Shifts(g, ptr, dptr, len, x, y) && Shifts(g, ptr, dptr, len, x, z) ==> y == z
  {
  }

  /** With known offsets and a known length the cells in front of and behind the destination stay
      as they are, and what comes to one of its cells was as far behind the start of the source. */
  lemma ShiftsInside(g: Graph, ptr: Pointer, dptr: Pointer, len: Offset, x: Offset, y: Offset)
    requires Shifts(g, ptr, dptr, len, x, y) && y != UNKNOWN
    ensures ptr.offset != UNKNOWN && dptr.offset != UNKNOWN && dptr.offset <= y && x == ptr.offset + (y - dptr.offset)
    ensures len != UNKNOWN ==> y < dptr.offset + len
  {
  }

  // ---- geps

  /** An offset at which a pointer to t is kept; the start of an object always is, if offsets are
      kept at all. */
  ghost predicate InField(g: Graph, t: Target, o: int) { (o == 0 || o < Extent(g, t)) && o < g.fieldSensitivity }

  /** A gep of `off` bytes takes p to q: by so many bytes, as 64-bit words add up, or to the
      unknown offset if this cannot be known or is not kept. */
  ghost predicate Moves(g: Graph, p: Pointer, off: Offset, q: Pointer) {
    q.target == p.target
    && if p.offset != UNKNOWN && off != UNKNOWN && InField(g, p.target, (p.offset + off) % (UNKNOWN + 1))
       then q.offset == (p.offset + off) % (UNKNOWN + 1) else q.offset == UNKNOWN
  }

  /** The pointers to which a gep takes those of a set. */
  ghost predicate MovedTo(g: Graph, from: set<Pointer>, off: Offset, q: Pointer) {
    exists p :: p in from && Moves(g, p, off, q)
  }

  lemma GepMoves(g: Graph, p: Pointer, off: Offset, q: Pointer)
    ensures Moves(g, p, off, q) <==> q == g.GepPointer(p, off)
  {
  }

  /** `now` is what `was` becomes when the pointers of `gen` are added, in any order: one at the
      unknown offset stands for all to its target. */
  ghost predicate Merged(was: set<Pointer>, gen: set<Pointer>, now: set<Pointer>) {
    forall q :: q in now <==>
      if Blur(q) in was then q in was else if Blur(q) in gen then q == Blur(q) else q in was || q in gen
  }

  lemma MergedNone(was: set<Pointer>)
    ensures Merged(was, {}, was)
  {
  }

  lemma MergedStep(was: set<Pointer>, gen: set<Pointer>, now: set<Pointer>, p: Pointer)
    requires Merged(was, gen, now)
    ensures Merged(was, gen + {p}, AddPointer(now, p))
  {
    assert Blur(p) in now <==> Blur(p) in was || Blur(p) in gen;
  }

  /** The set of a gep after it was processed. */
  ghost predicate Shifted(g: Graph, was: set<Pointer>, from: set<Pointer>, off: Offset, now: set<Pointer>) {
    forall q :: q in now <==>
      if Blur(q) in was then q in was
      else if MovedTo(g, from, off, Blur(q)) then q == Blur(q) else q in was || MovedTo(g, from, off, q)
  }

  lemma MergedShifts(g: Graph, was: set<Pointer>, from: set<Pointer>, off: Offset, gen: set<Pointer>, now: set<Pointer>)
    requires Merged(was, gen, now) && forall q :: q in gen <==> exists p :: p in from && q == g.GepPointer(p, off)
    ensures Shifted(g, was, from, off, now)
  {
    forall q ensures MovedTo(g, from, off, q) <==> q in gen {
      forall p ensures Moves(g, p, off, q) <==> q == g.GepPointer(p, off) { GepMoves(g, p, off, q); }
    }
    hide MovedTo;
  }

  /** A pointer keeps its offset through a gep, unless one to the same target loses it. */
  lemma OffsetIsKept(g: Graph, was: set<Pointer>, from: set<Pointer>, off: Offset, now: set<Pointer>, p: Pointer)
    requires Shifted(g, was, from, off, now) && p in from && p.offset != UNKNOWN && off != UNKNOWN
    requires InField(g, p.target, (p.offset + off) % (UNKNOWN + 1)) && Blur(p) !in was
    requires forall q :: q in from && q.target == p.target ==>
      q.offset != UNKNOWN && InField(g, q.target, (q.offset + off) % (UNKNOWN + 1))
    ensures Pointer(p.target, (p.offset + off) % (UNKNOWN + 1)) in now && Blur(p) !in now
  {
    var q := Pointer(p.target, (p.offset + off) % (UNKNOWN + 1));
    assert Moves(g, p, off, q);
    forall r | r in from ensures !Moves(g, r, off, Blur(p)) {}
  }

  // ---- states that only gain pointers

  ghost predicate Adds(s: PointsTo, t: PointsTo) { forall l :: At(s, l) <= At(t, l) }

  /** All that the source holds at x has come to its place. */
  ghost predicate Arrived(g: Graph, s: PointsTo, t: PointsTo, ptr: Pointer, dptr: Pointer, len: Offset, x: Offset) {
    ptr.target.Object? && dptr.target.Object? && forall y: Offset :: Shifts(g, ptr, dptr, len, x, y) ==>
      At(s, Cell(ptr.target.node, x)) <= At(t, Cell(dptr.target.node, y))
  }

  /** p comes to the place l from some place of the source. */
  ghost predicate Comes(g: Graph, t: PointsTo, ptr: Pointer, dptr: Pointer, len: Offset, l: Location, p: Pointer) {
    && ptr.target.Object? && dptr.target.Object? && l.Cell? && l.base == dptr.target.node
    && exists x: Offset :: Shifts(g, ptr, dptr, len, x, l.offset) && p in At(t, Cell(ptr.target.node, x))
  }

  /** What is new has come from the source. */
  ghost predicate OnlyCopied(g: Graph, s: PointsTo, t: PointsTo, ptr: Pointer, dptr: Pointer, len: Offset) {
    forall l, p :: p in At(t, l) && p !in At(s, l) ==> Comes(g, t, ptr, dptr, len, l, p)
  }

  lemma AddsSelf(g: Graph, s: PointsTo, ptr: Pointer, dptr: Pointer, len: Offset)
    ensures Adds(s, s) && OnlyCopied(g, s, s, ptr, dptr, len)
  {
  }

  lemma AddsTransitive(s: PointsTo, t: PointsTo, u: PointsTo)
    requires Adds(s, t) && Adds(t, u)
    ensures Adds(s, u)
  {
  }

  /** One cell is copied. */
  lemma CellShifted(g: Graph, s: PointsTo, ptr: Pointer, dptr: Pointer, len: Offset, x: Offset)
    requires ptr.target.Object? && dptr.target.Object? && InRange(ptr.offset, x, len)
    ensures var l := Cell(dptr.target.node, g.CopyOffset(x, ptr.offset, dptr.offset, dptr.target));
      var t := UnionAt(s, l, At(s, Cell(ptr.target.node, x)));
      Adds(s, t) && Arrived(g, s, t, ptr, dptr, len, x) && OnlyCopied(g, s, t, ptr, dptr, len)
  {
    CopiesShift(g, ptr, dptr, len, x);
    hide Shifts, Graph.CopyOffset;
    var from, l := Cell(ptr.target.node, x), Cell(dptr.target.node,
                                                  g.CopyOffset(x, ptr.offset, dptr.offset, dptr.target));
    var t := UnionAt(s, l, At(s, from));
    assert At(t, l) == At(s, l) + At(s, from);
    assert forall k :: k != l ==> At(t, k) == At(s, k);
    forall k, p | p in At(t, k) && p !in At(s, k) ensures Comes(g, t, ptr, dptr, len, k, p) {
      assert k == l && p in At(t, from);
    }
  }

  lemma CellSkipped(g: Graph, s: PointsTo, t: PointsTo, ptr: Pointer, dptr: Pointer, len: Offset, x: Offset)
    requires ptr.target.Object? && dptr.target.Object?
    requires !InRange(ptr.offset, x, len) || At(s, Cell(ptr.target.node, x)) == {}
    ensures Arrived(g, s, t, ptr, dptr, len, x)
  {
    CopiesShift(g, ptr, dptr, len, x);
    hide Shifts;
  }

  lemma ArrivedStays(g: Graph, s: PointsTo, t: PointsTo, u: PointsTo, v: PointsTo, ptr: Pointer, dptr: Pointer,
                     len: Offset, x: Offset)
    requires Adds(s, t) && Arrived(g, t, u, ptr, dptr, len, x) && Adds(u, v)
    ensures Arrived(g, s, v, ptr, dptr, len, x)
  {
    hide Shifts;
  }

  lemma OnlyCopiedStep(g: Graph, s: PointsTo, t: PointsTo, u: PointsTo, ptr: Pointer, dptr: Pointer, len: Offset)
    requires OnlyCopied(g, s, t, ptr, dptr, len) && OnlyCopied(g, t, u, ptr, dptr, len) && Adds(t, u)
    ensures OnlyCopied(g, s, u, ptr, dptr, len)
  {
    hide Shifts;
    forall l, p | p in At(u, l) && p !in At(s, l) ensures Comes(g, u, ptr, dptr, len, l, p) {
      if p in At(t, l) {
        assert Comes(g, t, ptr, dptr, len, l, p);
        ComesStays(g, t, u, ptr, dptr, len, l, p);
      }
    }
  }

  lemma ComesStays(g: Graph, t: PointsTo, u: PointsTo, ptr: Pointer, dptr: Pointer, len: Offset, l: Location,
                   p: Pointer)
    requires Comes(g, t, ptr, dptr, len, l, p) && Adds(t, u)
    ensures Comes(g, u, ptr, dptr, len, l, p)
  {
    hide Shifts;
    var x: Offset :| Shifts(g, ptr, dptr, len, x, l.offset) && p in At(t, Cell(ptr.target.node, x));
    assert p in At(u, Cell(ptr.target.node, x));
  }

  // ---- all pairs of pointers

  /** The copy covers the whole source and an object of the same size. */
  ghost predicate Whole(g: Graph, ptr: Pointer, dptr: Pointer, len: Offset) {
    var size := Extent(g, ptr.target);
    size != UNKNOWN && Extent(g, dptr.target) == size && ptr.offset == 0 && len == size
  }

  /** p is new at l because of the pair: it was copied, or it is the null pointer that a copy
      of a part of zeroed memory may contain. */
  ghost predicate Gains(g: Graph, zero: set<Node>, t: PointsTo, ptr: Pointer, dptr: Pointer, len: Offset, l: Location,
                        p: Pointer)
  {
    && g.Dereferenceable(ptr) && g.Dereferenceable(dptr)
    && (|| Comes(g, t, ptr, dptr, len, l, p)
        || (p == NullPointer && ptr.target.node in zero && !Whole(g, ptr, dptr, len)
            && l == Cell(dptr.target.node, UNKNOWN)))
  }

  ghost predicate GainsSome(g: Graph, zero: set<Node>, t: PointsTo, from: set<Pointer>, to: set<Pointer>, len: Offset,
                            l: Location, p: Pointer)
  {
    exists ptr, dptr :: ptr in from && dptr in to && Gains(g, zero, t, ptr, dptr, len, l, p)
  }

  /** What is new has come from one of the pointers `from` to one of the pointers `to`. */
  ghost predicate AllCopied(g: Graph, zero: set<Node>, s: PointsTo, t: PointsTo, from: set<Pointer>, to: set<Pointer>,
                            len: Offset)
  {
    forall l, p :: p in At(t, l) && p !in At(s, l) ==> GainsSome(g, zero, t, from, to, len, l, p)
  }

  /** Everything in the range of every pair has arrived. */
  ghost predicate PairArrived(g: Graph, s: PointsTo, t: PointsTo, ptr: Pointer, dptr: Pointer, len: Offset) {
    g.Dereferenceable(ptr) && g.Dereferenceable(dptr) ==> forall x: Offset :: Arrived(g, s, t, ptr, dptr, len, x)
  }

  lemma GainsStay(g: Graph, zero: set<Node>, zero': set<Node>, t: PointsTo, u: PointsTo, from: set<Pointer>,
                  from': set<Pointer>, to: set<Pointer>, to': set<Pointer>, len: Offset, l: Location, p: Pointer)
    requires GainsSome(g, zero, t, from, to, len, l, p) && zero <= zero' && Adds(t, u) && from <= from' && to <= to'
    ensures GainsSome(g, zero', u, from', to', len, l, p)
  {
    hide Comes, Whole;
    var ptr, dptr :| ptr in from && dptr in to && Gains(g, zero, t, ptr, dptr, len, l, p);
    if Comes(g, t, ptr, dptr, len, l, p) { ComesStays(g, t, u, ptr, dptr, len, l, p); }
    assert Gains(g, zero', u, ptr, dptr, len, l, p);
  }

  lemma AllCopiedNone(g: Graph, zero: set<Node>, s: PointsTo, from: set<Pointer>, to: set<Pointer>, len: Offset)
    ensures AllCopied(g, zero, s, s, from, to, len) && Adds(s, s)
  {
  }

  lemma AllCopiedStep(g: Graph, zero: set<Node>, zero': set<Node>, s: PointsTo, t: PointsTo, u: PointsTo,
                      from: set<Pointer>, from': set<Pointer>, to: set<Pointer>, to': set<Pointer>, len: Offset)
    requires AllCopied(g, zero, s, t, from, to, len) && AllCopied(g, zero', t, u, from', to', len)
    requires zero <= zero' && Adds(t, u) && from <= from' && to <= to'
    ensures AllCopied(g, zero', s, u, from', to', len)
  {
    hide GainsSome;
    forall l, p | p in At(u, l) && p !in At(s, l) ensures GainsSome(g, zero', u, from', to', len, l, p) {
      if p in At(t, l) { GainsStay(g, zero, zero', t, u, from, from', to, to', len, l, p); }
    }
  }

  lemma AllCopiedMore(g: Graph, zero: set<Node>, zero': set<Node>, s: PointsTo, t: PointsTo, from: set<Pointer>,
                      from': set<Pointer>, to: set<Pointer>, to': set<Pointer>, len: Offset)
    requires AllCopied(g, zero, s, t, from, to, len) && zero <= zero' && from <= from' && to <= to'
    ensures AllCopied(g, zero', s, t, from', to', len)
  {
    hide GainsSome;
    AddsSelf(g, t, NullPointer, NullPointer, len);
    forall l, p | p in At(t, l) && p !in At(s, l) ensures GainsSome(g, zero', t, from', to', len, l, p) {
      GainsStay(g, zero, zero', t, t, from, from', to, to', len, l, p);
    }
  }

  lemma PairStays(g: Graph, s: PointsTo, t: PointsTo, u: PointsTo, v: PointsTo, ptr: Pointer, dptr: Pointer,
                  len: Offset)
    requires PairArrived(g, t, u, ptr, dptr, len) && Adds(s, t) && Adds(u, v)
    ensures PairArrived(g, s, v, ptr, dptr, len)
  {
    hide Arrived, Adds;
    if g.Dereferenceable(ptr) && g.Dereferenceable(dptr) {
      forall x: Offset ensures Arrived(g, s, v, ptr, dptr, len, x) { ArrivedStays(g, s, t, u, v, ptr, dptr, len, x); }
    }
  }

  /** A null pointer is added, and the cells are copied. */
  lemma ObjectGains(g: Graph, zero: set<Node>, s: PointsTo, t: PointsTo, u: PointsTo, ptr: Pointer, dptr: Pointer,
                    len: Offset)
    requires g.Dereferenceable(ptr) && g.Dereferenceable(dptr) && Adds(t, u)
    requires t == s || (ptr.target.node in zero && !Whole(g, ptr, dptr, len)
                        && t == AddAt(s, Cell(dptr.target.node, UNKNOWN), NullPointer))
    requires OnlyCopied(g, t, u, ptr, dptr, len)
    ensures Adds(s, t) && Adds(s, u) && AllCopied(g, zero, s, u, {ptr}, {dptr}, len)
  {
    hide Comes, Whole;
    NullAdds(s, t, dptr.target.node);
    forall l, p | p in At(u, l) && p !in At(s, l) ensures GainsSome(g, zero, u, {ptr}, {dptr}, len, l, p) {
      assert Gains(g, zero, u, ptr, dptr, len, l, p);
    }
  }

  lemma NullAdds(s: PointsTo, t: PointsTo, b: Node)
    requires t == s || t == AddAt(s, Cell(b, UNKNOWN), NullPointer)
    ensures Adds(s, t) && forall l, p :: p in At(t, l) && p !in At(s, l) ==> p == NullPointer && l == Cell(b, UNKNOWN)
  {
  }
}
