/** Points-to sets and the state of the flow-insensitive pointer analysis. */
module PointerStates {
  import opened Offsets
  import opened Digraphs

  /** What a pointer points to: memory or a function of the program, or a special target. */
  datatype Target = Null | UnknownMemory | Invalidated | Object(node: Node)

  datatype Pointer = Pointer(target: Target, offset: Offset)

  const UnknownPointer: Pointer := Pointer(UnknownMemory, UNKNOWN)
  const NullPointer: Pointer := Pointer(Null, 0)

  /** Where points-to sets are kept: the set of a node, and the set that a memory
      object holds at an offset. */
  datatype Location = Var(n: Node) | Cell(base: Node, offset: Offset)

  type PointsTo = map<Location, set<Pointer>>

  function At(s: PointsTo, l: Location): set<Pointer> { if l in s then s[l] else {} }

  /** The pointer with its offset forgotten. */
  function Blur(p: Pointer): Pointer { p.(offset := UNKNOWN) }

  /** Add one pointer: at the unknown offset it replaces the others to its target. */
  function AddPointer(S: set<Pointer>, p: Pointer): set<Pointer> {
    if Blur(p) in S then S
    else if p.offset == UNKNOWN then (set q | q in S && q.target != p.target) + {p}
    else S + {p}
  }

  function AddAt(s: PointsTo, l: Location, p: Pointer): PointsTo { s[l := AddPointer(At(s, l), p)] }

  /** Add a set: a plain union; an empty set does not create an entry. */
  function UnionAt(s: PointsTo, l: Location, P: set<Pointer>): PointsTo {
    if P == {} then s else s[l := At(s, l) + P]
  }

  // ---- coverage

  /** p or p at the unknown offset. */
  ghost predicate Holds(S: set<Pointer>, p: Pointer) { p in S || Blur(p) in S }

  /** A location, or the cell of the same object at the unknown offset. */
  function Wide(l: Location): Location { if l.Cell? then Cell(l.base, UNKNOWN) else l }

  ghost predicate Covers(s: PointsTo, l: Location, p: Pointer) { Holds(At(s, l), p) || Holds(At(s, Wide(l)), p) }

  /** Null pointers are not tracked. */
  ghost predicate Real(p: Pointer) { p.target != Null }

  ghost predicate Below(s: PointsTo, L: PointsTo) {
    forall l, p :: p in At(s, l) && Real(p) ==> Covers(L, l, p)
  }

  /** Nothing is lost, except that offsets may be forgotten. */
  ghost predicate Grows(s: PointsTo, t: PointsTo) {
    forall l, p :: p in At(s, l) ==> Holds(At(t, l), p)
  }

  lemma GrowsTransitive(s: PointsTo, t: PointsTo, u: PointsTo)
    requires Grows(s, t) && Grows(t, u)
    ensures Grows(s, u)
  {
    forall l, p | p in At(s, l) ensures Holds(At(u, l), p) { HoldsGrows(t, u, l, p); }
  }

  lemma HoldsGrows(s: PointsTo, t: PointsTo, l: Location, p: Pointer)
    requires Grows(s, t) && Holds(At(s, l), p)
    ensures Holds(At(t, l), p)
  {
    if p !in At(s, l) { assert Blur(p) in At(s, l); }
  }

  lemma CoversGrows(s: PointsTo, t: PointsTo, l: Location, p: Pointer)
    requires Grows(s, t) && Covers(s, l, p)
    ensures Covers(t, l, p)
  {
    hide Holds, Grows;
    if Holds(At(s, l), p) { HoldsGrows(s, t, l, p); } else { HoldsGrows(s, t, Wide(l), p); }
  }

  /** A witness for coverage. */
  lemma CoversWitness(s: PointsTo, l: Location, p: Pointer) returns (l': Location, p': Pointer)
    requires Covers(s, l, p)
    ensures (l' == l || l' == Wide(l)) && (p' == p || p' == Blur(p)) && p' in At(s, l')
  {
    l' := if Holds(At(s, l), p) then l else Wide(l);
    p' := if p in At(s, l') then p else Blur(p);
  }

  lemma CoversWider(s: PointsTo, l: Location, p: Pointer, l': Location, p': Pointer)
    requires (l' == l || l' == Wide(l)) && (p' == p || p' == Blur(p)) && Covers(s, l', p')
    ensures Covers(s, l, p)
  {
  }

  // ---- the two ways to add

  /** t is s with p, or pointers P, added at l. */
  lemma AddPointerKeeps(S: set<Pointer>, p: Pointer)
    ensures Holds(AddPointer(S, p), p) && forall q :: q in S ==> Holds(AddPointer(S, p), q)
    ensures forall q :: q in AddPointer(S, p) ==> q in S || q == p
  {
  }

  lemma AddAtGrows(s: PointsTo, l: Location, p: Pointer)
    ensures Grows(s, AddAt(s, l, p)) && Covers(AddAt(s, l, p), l, p)
  {
    hide AddPointer;
    AddPointerKeeps(At(s, l), p);
    assert At(AddAt(s, l, p), l) == AddPointer(At(s, l), p);
  }

  lemma UnionAtGrows(s: PointsTo, l: Location, P: set<Pointer>)
    ensures Grows(s, UnionAt(s, l, P)) && forall p :: p in P ==> Covers(UnionAt(s, l, P), l, p)
  {
    assert At(UnionAt(s, l, P), l) == At(s, l) + P;
  }

  lemma AddAtBelow(s: PointsTo, l: Location, p: Pointer, L: PointsTo)
    requires Below(s, L) && (Real(p) ==> Covers(L, l, p))
    ensures Below(AddAt(s, l, p), L)
  {
    hide AddPointer, Covers;
    AddPointerKeeps(At(s, l), p);
    assert At(AddAt(s, l, p), l) == AddPointer(At(s, l), p);
    assert forall k :: k != l ==> At(AddAt(s, l, p), k) == At(s, k);
  }

  lemma UnionAtBelow(s: PointsTo, l: Location, P: set<Pointer>, L: PointsTo)
    requires Below(s, L) && forall p :: p in P && Real(p) ==> Covers(L, l, p)
    ensures Below(UnionAt(s, l, P), L)
  {
    hide Covers;
    assert forall k :: k != l ==> At(UnionAt(s, l, P), k) == At(s, k);
    assert At(UnionAt(s, l, P), l) == At(s, l) + P;
  }

  // ---- progress

  ghost function Facts(s: PointsTo): set<(Location, Pointer)> { set l, p | l in s && p in s[l] :: (l, p) }

  ghost function Blurred(s: PointsTo): set<(Location, Pointer)> { set f | f in Facts(s) && f.1.offset == UNKNOWN }

  /** Facts at the unknown offset are never lost; others only when one of those is new. */
  ghost predicate Advances(s: PointsTo, t: PointsTo) {
    Blurred(s) < Blurred(t) || (Blurred(s) == Blurred(t) && Facts(s) < Facts(t))
  }

  ghost predicate Changed(s: PointsTo, t: PointsTo, changed: bool) { if changed then Advances(s, t) else t == s }

  lemma AdvancesTransitive(s: PointsTo, t: PointsTo, u: PointsTo)
    requires Advances(s, t) && Advances(t, u)
    ensures Advances(s, u)
  {
    hide Facts, Blurred;
  }

  lemma ChangedTransitive(s: PointsTo, t: PointsTo, u: PointsTo, a: bool, b: bool)
    requires Changed(s, t, a) && Changed(t, u, b)
    ensures Changed(s, u, a || b)
  {
    hide Advances;
    if a && b { AdvancesTransitive(s, t, u); }
  }

  lemma FactIn(s: PointsTo, l: Location, p: Pointer)
    ensures (l, p) in Facts(s) <==> p in At(s, l)
  {
  }

  lemma AddAtChanges(s: PointsTo, l: Location, p: Pointer)
    ensures var t := AddAt(s, l, p);
      if AddPointer(At(s, l), p) != At(s, l) then Advances(s, t) else t == s
  {
    var t := AddAt(s, l, p);
    if AddPointer(At(s, l), p) != At(s, l) {
      forall k, q ensures (k, q) in Facts(t) <==> q in At(t, k) { FactIn(t, k, q); }
      forall k, q ensures (k, q) in Facts(s) <==> q in At(s, k) { FactIn(s, k, q); }
      hide Facts;
      assert forall k :: k != l ==> At(t, k) == At(s, k);
      if p.offset == UNKNOWN {
        assert (l, p) in Blurred(t) && (l, p) !in Blurred(s);
        forall f | f in Blurred(s) ensures f in Blurred(t) { BlurStays(s, l, p, f.0, f.1); }
      } else {
        assert (l, p) in Facts(t) && (l, p) !in Facts(s);
        assert At(t, l) == At(s, l) + {p};
        forall f | f in Facts(s) ensures f in Facts(t) { assert f == (f.0, f.1); }
        forall f | f in Blurred(t) ensures f in Blurred(s) { assert f == (f.0, f.1); }
        forall f | f in Blurred(s) ensures f in Blurred(t) { assert f == (f.0, f.1); }
        assert Blurred(t) == Blurred(s);
      }
    }
  }

  lemma BlurStays(s: PointsTo, l: Location, p: Pointer, k: Location, q: Pointer)
    requires Blur(p) !in At(s, l) && q in At(s, k) && q.offset == UNKNOWN
    ensures q in At(AddAt(s, l, p), k)
  {
  }

  lemma UnionAtChanges(s: PointsTo, l: Location, P: set<Pointer>)
    ensures if P <= At(s, l) then UnionAt(s, l, P) == s else Advances(s, UnionAt(s, l, P))
  {
    var t := UnionAt(s, l, P);
    if P <= At(s, l) {
      if P != {} { assert At(s, l) + P == s[l]; }
    } else {
      forall k, q ensures (k, q) in Facts(t) <==> q in At(t, k) { FactIn(t, k, q); }
      forall k, q ensures (k, q) in Facts(s) <==> q in At(s, k) { FactIn(s, k, q); }
      hide Facts;
      var p :| p in P && p !in At(s, l);
      assert At(t, l) == At(s, l) + P;
      assert forall k :: k != l ==> At(t, k) == At(s, k);
      assert (l, p) in Facts(t) && (l, p) !in Facts(s);
      forall f | f in Facts(s) ensures f in Facts(t) { assert f == (f.0, f.1); }
    }
  }
}
