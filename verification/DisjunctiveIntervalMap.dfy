/** The map from disjunctive intervals of bytes to sets of values that the
    definitions of a basic block are stored in. */
module DisjunctiveIntervals {
  import opened Offsets

  datatype Interval = Interval(start: Offset, end: Offset)
  {
    predicate Has(b: Offset) { start <= b <= end }

    /** Saturating arithmetic cannot step over UNKNOWN: no interval starts
        there and none ends right below it. */
    predicate Valid() { start <= end && start != UNKNOWN && end != UNKNOWN - 1 }
  }

  /** Saturating arithmetic finds the byte in front of s, and comes back from it. */
  predicate SplitsBefore(s: Offset) { s > 0 ==> Sub(s, 1) == s - 1 && Add(Sub(s, 1), 1) == s }

  /** Saturating arithmetic finds the byte behind e, and comes back from it. */
  predicate SplitsBehind(e: Offset) { e < UNKNOWN ==> Add(e, 1) == e + 1 && Sub(Add(e, 1), 1) == e }

  /** Entries can be split at the borders of exactly the valid intervals. */
  lemma ValidIff(I: Interval)
    ensures I.Valid() <==> I.start <= I.end && SplitsBefore(I.start) && SplitsBehind(I.end)
  {
    assert I.start == UNKNOWN ==> Sub(I.start, 1) == UNKNOWN;
  }

  datatype Entry<V> = Entry(start: Offset, end: Offset, vals: set<V>)
  {
    predicate Has(b: Offset) { start <= b <= end }
  }

  /** Entries are non-empty, ascending and pairwise disjoint. */
  ghost predicate Sorted<V>(m: seq<Entry<V>>) {
    && (forall i :: 0 <= i < |m| ==>
          m[i].start <= m[i].end && m[i].start != UNKNOWN && m[i].end != UNKNOWN - 1 && m[i].vals != {})
    && (forall i, j :: 0 <= i < j < |m| ==> m[i].end < m[j].start)
  }

  /** The plain function from bytes to sets that the entries represent. */
  ghost function At<V>(m: seq<Entry<V>>, b: Offset): set<V> {
    if m == [] then {} else (if m[0].Has(b) then m[0].vals else {}) + At(m[1..], b)
  }

  /** What one insertion does to one byte of the interval. */
  ghost function Inserted<V>(old_: set<V>, val: V, update: bool): set<V> {
    if update then {val} else old_ + {val}
  }

  /** Splitting an entry in front of the unknown offset gives two that overlap. */
  lemma SplitBeforeUnknown<V>(start: Offset, vals: set<V>)
    requires start < UNKNOWN
    ensures var where_ := Sub(UNKNOWN, 1);
      !Sorted([Entry(start, where_, vals), Entry(Add(where_, 1), UNKNOWN, vals)])
  {
    var m := [Entry(start, UNKNOWN, vals), Entry(UNKNOWN, UNKNOWN, vals)];
    assert m[0].end == m[1].start;
  }

  lemma {:induction false} AtConcat<V>(x: seq<Entry<V>>, y: seq<Entry<V>>, b: Offset)
    ensures At(x + y, b) == At(x, b) + At(y, b)
  {
    if x == [] {
      assert x + y == y;
    } else {
      AtConcat(x[1..], y, b);
      assert (x + y)[1..] == x[1..] + y;
    }
  }

  lemma {:induction false} AtNone<V>(m: seq<Entry<V>>, b: Offset)
    requires forall i :: 0 <= i < |m| ==> !m[i].Has(b)
    ensures At(m, b) == {}
  {
    if m != [] {
      forall i | 0 <= i < |m[1..]| ensures !m[1..][i].Has(b) { assert m[1..][i] == m[i + 1]; }
      AtNone(m[1..], b);
    }
  }

  lemma AtEntry<V>(m: seq<Entry<V>>, i: nat, b: Offset)
    requires Sorted(m) && i < |m| && m[i].Has(b)
    ensures At(m, b) == m[i].vals
  {
    assert m == m[..i] + ([m[i]] + m[i + 1..]);
    AtConcat(m[..i], [m[i]] + m[i + 1..], b);
    AtConcat([m[i]], m[i + 1..], b);
    AtNone(m[..i], b);
    AtNone(m[i + 1..], b);
    assert At([m[i]], b) == m[i].vals + At([], b);
  }

  /** A byte has a value iff some entry holds it. */
  lemma {:induction false} AtMapped<V>(m: seq<Entry<V>>, b: Offset)
    requires Sorted(m)
    ensures At(m, b) != {} <==> exists i :: 0 <= i < |m| && m[i].Has(b)
  {
    if i :| 0 <= i < |m| && m[i].Has(b) {
      AtEntry(m, i, b);
    } else {
      AtNone(m, b);
    }
  }

  /** Replacing the entries lo..hi by others changes only the bytes they hold. */
  /** The two halves of an entry hold what the entry held. */
  lemma AtHalves<V>(m: seq<Entry<V>>, k: nat, lower: Entry<V>, upper: Entry<V>, b: Offset)
    requires k < |m| && lower.vals == upper.vals == m[k].vals && lower.start == m[k].start && upper.end == m[k].end
    requires lower.start <= lower.end < upper.end && upper.start == lower.end + 1
    ensures At(m[..k] + [lower, upper] + m[k + 1..], b) == At(m, b)
  {
    var e := m[k];
    assert m[k..k + 1] == [e] && [lower, upper][1..] == [upper];
    assert At([e], b) == (if e.Has(b) then e.vals else {}) + At([], b);
    assert At([upper], b) == (if upper.Has(b) then upper.vals else {}) + At([], b);
    assert At([lower, upper], b) == At([e], b);
    hide At;
    AtSplice(m, k, k + 1, [lower, upper], b);
  }

  lemma AtSplice<V>(m: seq<Entry<V>>, lo: nat, hi: nat, mid: seq<Entry<V>>, b: Offset)
    requires lo <= hi <= |m|
    requires At(m[lo..hi], b) == At(mid, b)
    ensures At(m[..lo] + mid + m[hi..], b) == At(m, b)
  {
    assert m == m[..lo] + m[lo..hi] + m[hi..];
    AtConcat(m[..lo] + m[lo..hi], m[hi..], b);
    AtConcat(m[..lo], m[lo..hi], b);
    AtConcat(m[..lo] + mid, m[hi..], b);
    AtConcat(m[..lo], mid, b);
  }

  lemma AtInsert<V>(m: seq<Entry<V>>, k: nat, e: Entry<V>, b: Offset)
    requires k <= |m|
    ensures At(m[..k] + [e] + m[k..], b) == At(m, b) + (if e.Has(b) then e.vals else {})
  {
    assert m == m[..k] + m[k..];
    AtConcat(m[..k] + [e], m[k..], b);
    AtConcat(m[..k], [e], b);
    AtConcat(m[..k], m[k..], b);
    assert At([e], b) == (if e.Has(b) then e.vals else {}) + At([], b);
  }

  lemma AtReplace<V>(m: seq<Entry<V>>, k: nat, e: Entry<V>, b: Offset)
    requires Sorted(m) && k < |m|
    requires e.start == m[k].start && e.end == m[k].end && e.vals != {}
    ensures Sorted(m[k := e])
    ensures At(m[k := e], b) == if e.Has(b) then e.vals else At(m, b)
  {
    if e.Has(b) {
      AtEntry(m[k := e], k, b);
    } else {
      AtElsewhere(m, k, e, b);
    }
  }

  lemma AtElsewhere<V>(m: seq<Entry<V>>, k: nat, e: Entry<V>, b: Offset)
    requires k < |m| && !e.Has(b) && !m[k].Has(b)
    ensures At(m[k := e], b) == At(m, b)
  {
    assert At([e], b) == {} + At([], b);
    assert At([m[k]], b) == {} + At([], b);
    assert m[k..k + 1] == [m[k]];
    AtSplice(m, k, k + 1, [e], b);
    assert m[k := e] == m[..k] + [e] + m[k + 1..];
  }

  class DisjunctiveIntervalMap<V(==)> {
    var mapping: seq<Entry<V>>

    constructor (m: seq<Entry<V>>)
      requires Sorted(m)
      ensures Sorted(mapping) && mapping == m
    {
      mapping := m;
    }

    /** The index of the first entry that starts at `s` or later. */
    method FindGe(s: Offset) returns (k: nat)
      requires Sorted(mapping)
      ensures k <= |mapping|
      ensures forall i :: 0 <= i < k ==> mapping[i].start < s
      ensures forall i :: k <= i < |mapping| ==> s <= mapping[i].start
    {
      k := 0;
      while k < |mapping| && mapping[k].start < s
        invariant k <= |mapping|
        invariant forall i :: 0 <= i < k ==> mapping[i].start < s
      {
        k := k + 1;
      }
      forall i | k <= i < |mapping| ensures s <= mapping[i].start {
        if i > k { assert mapping[k].end < mapping[i].start; }
      }
    }

    /** Split the entry k after the byte `at`; both halves keep its values. */
    method SplitInterval(k: nat, at: Offset)
      requires Sorted(mapping) && k < |mapping|
      requires mapping[k].start <= at < mapping[k].end && at != UNKNOWN - 1
      modifies this
      ensures |mapping| == |old(mapping)| + 1
      ensures forall i :: 0 <= i < k ==> mapping[i] == old(mapping)[i]
      ensures forall i :: k + 2 <= i < |mapping| ==> mapping[i] == old(mapping)[i - 1]
      ensures mapping[k] == old(Entry(mapping[k].start, at, mapping[k].vals))
      ensures mapping[k + 1] == old(Entry(at + 1, mapping[k].end, mapping[k].vals))
      ensures Sorted(mapping)
      ensures forall b: Offset :: At(mapping, b) == old(At(mapping, b))
    {
      var e := mapping[k];
      ghost var was := mapping;
      var lower, upper := Entry(e.start, at, e.vals), Entry(Add(at, 1), e.end, e.vals);
      mapping := mapping[..k] + [lower, upper] + mapping[k + 1..];
      hide At;
      forall b: Offset ensures At(mapping, b) == At(was, b) { AtHalves(was, k, lower, upper, b); }
    }

    /** Split the entries that cross a border of I, so that afterwards every
        entry lies inside I or outside of it. */
    method SplitExtBorders(I: Interval) returns (changed: bool)
      requires Sorted(mapping) && mapping != [] && I.Valid()
      modifies this
      ensures Sorted(mapping) && Aligned(mapping, I)
      ensures forall b: Offset :: At(mapping, b) == old(At(mapping, b))
      ensures if changed then |mapping| > |old(mapping)| else mapping == old(mapping)
    {
      var ge := FindGe(I.start);
      if ge == |mapping| {
        changed := SplitLast(I);
        return;
      }
      changed := SplitAtEnd(I, ge);
      // there may be an overlap with the previous entry, too
      if changed {
        ge := FindGe(I.start);
      }
      if ge != 0 {
        var c := SplitPrevious(I, ge);
        changed := changed || c;
      }
    }

    /** All entries start to the left of I: only the last one can cross its borders. */
    method SplitLast(I: Interval) returns (changed: bool)
      requires Sorted(mapping) && mapping != [] && I.Valid()
      requires forall i :: 0 <= i < |mapping| ==> mapping[i].start < I.start
      modifies this
      ensures Sorted(mapping) && Aligned(mapping, I)
      ensures forall b: Offset :: At(mapping, b) == old(At(mapping, b))
      ensures if changed then |mapping| > |old(mapping)| else mapping == old(mapping)
    {
      changed := false;
      var last := |mapping| - 1;
      assert forall i :: 0 <= i < last ==> mapping[i].end < mapping[last].start;
      if mapping[last].end > I.end {
        SplitInterval(last, I.end);
        changed := true;
      }
      if mapping[last].end >= I.start {
        SplitInterval(last, Sub(I.start, 1));
        changed := true;
      }
    }

    /** Split the entry, among those from ge on, that runs past the end of I. */
    method SplitAtEnd(I: Interval, ge: nat) returns (changed: bool)
      requires I.Valid() && Sorted(mapping) && ge < |mapping|
      requires forall i :: ge <= i < |mapping| ==> I.start <= mapping[i].start
      modifies this
      ensures Sorted(mapping) && ge < |mapping| && forall i :: 0 <= i < ge ==> mapping[i] == old(mapping)[i]
      ensures forall i :: ge <= i < |mapping| ==>
        I.start <= mapping[i].start && (mapping[i].end <= I.end || I.end < mapping[i].start)
      ensures forall b: Offset :: At(mapping, b) == old(At(mapping, b))
      ensures if changed then |mapping| > |old(mapping)| else mapping == old(mapping)
    {
      changed := false;
      var it := ge;
      while mapping[it].start <= I.end
        invariant ge <= it < |mapping| && mapping == old(mapping)
        invariant forall i :: ge <= i < it ==> mapping[i].end <= I.end
        decreases |mapping| - it
      {
        if mapping[it].end > I.end {
          SplitInterval(it, I.end);
          changed := true;
          assert forall i :: it + 1 < i < |mapping| ==> mapping[it + 1].end < mapping[i].start;
          return;
        }
        it := it + 1;
        if it == |mapping| {
          return;
        }
      }
      assert forall i :: it < i < |mapping| ==> mapping[it].end < mapping[i].start;
    }

    /** Split the entry before ge, which starts to the left of I. */
    method SplitPrevious(I: Interval, ge: nat) returns (changed: bool)
      requires Sorted(mapping) && 0 < ge <= |mapping|
      requires I.Valid()
      requires forall i :: 0 <= i < ge ==> mapping[i].start < I.start
      requires forall i :: ge <= i < |mapping| ==>
        I.start <= mapping[i].start && (mapping[i].end <= I.end || I.end < mapping[i].start)
      modifies this
      ensures Sorted(mapping) && Aligned(mapping, I)
      ensures forall b: Offset :: At(mapping, b) == old(At(mapping, b))
      ensures if changed then |mapping| > |old(mapping)| else mapping == old(mapping)
    {
      changed := false;
      var prevEnd := mapping[ge - 1].end;
      assert forall i :: 0 <= i < ge - 1 ==> mapping[i].end < mapping[ge - 1].start;
      if prevEnd >= I.start {
        SplitInterval(ge - 1, Sub(I.start, 1));
        changed := true;
      }
      // is I covered by the previous entry?
      if prevEnd > I.end {
        SplitInterval(ge, I.end);
      }
    }

    /** Put a value to one existing entry. */
    method AddValue(k: nat, val: V, update: bool) returns (changed: bool)
      requires Sorted(mapping) && k < |mapping|
      modifies this
      ensures Sorted(mapping)
      ensures mapping == old(mapping[k := Entry(mapping[k].start, mapping[k].end,
                                                Inserted(mapping[k].vals, val, update))])
      ensures changed <==> mapping != old(mapping)
      ensures forall b: Offset ::
        At(mapping, b) == (if old(mapping)[k].Has(b) then Inserted(old(At(mapping, b)), val, update)
                           else old(At(mapping, b)))
    {
      ghost var was := mapping;
      var e := mapping[k];
      var fresh_;
      if update {
        if |e.vals| == 1 && val in e.vals {
          Singleton(e.vals, val);
          fresh_ := e;
          changed := false;
        } else {
          fresh_ := Entry(e.start, e.end, {val});
          changed := true;
        }
      } else {
        fresh_ := Entry(e.start, e.end, e.vals + {val});
        changed := val !in e.vals;
        assert !changed ==> e.vals + {val} == e.vals;
      }
      mapping := mapping[k := fresh_];
      assert changed ==> mapping[k] != was[k];
      forall b: Offset
        ensures At(mapping, b) == if e.Has(b) then Inserted(At(was, b), val, update) else At(was, b)
      {
        AtReplace(was, k, fresh_, b);
        if e.Has(b) { AtEntry(was, k, b); }
      }
    }

    /** Insert an entry before the k-th one, into a gap. */
    method InsertGap(k: nat, I: Interval, val: V)
      requires Sorted(mapping) && k <= |mapping| && I.Valid()
      requires k > 0 ==> mapping[k - 1].end < I.start
      requires k < |mapping| ==> I.end < mapping[k].start
      modifies this
      ensures InsertedAt(old(mapping), k, Entry(I.start, I.end, {val}), mapping)
      ensures Sorted(mapping)
      ensures forall b: Offset :: I.Has(b) ==> old(At(mapping, b)) == {}
      ensures forall b: Offset :: At(mapping, b) == (if I.Has(b) then {val} else old(At(mapping, b)))
    {
      GapFilled(mapping, k, I, val);
      mapping := mapping[..k] + [Entry(I.start, I.end, {val})] + mapping[k..];
    }

    /** Give val to every byte of I: add it to what the byte already has or,
        if `update`, replace what the byte has. The result says whether the
        stored map changed. */
    method AddOrUpdate(I: Interval, val: V, update: bool) returns (changed: bool)
      requires Sorted(mapping)
      requires I.Valid()
      modifies this
      ensures Sorted(mapping) && mapping != []
      ensures forall b: Offset ::
        At(mapping, b) == (if I.Has(b) then Inserted(old(At(mapping, b)), val, update) else old(At(mapping, b)))
      ensures changed <==> mapping != old(mapping)
    {
      if |mapping| == 0 {
        InsertGap(0, I, val);
        return true;
      }
      changed := SplitExtBorders(I);
      var it: int := FindGe(I.start);
      if it == |mapping| || I.end < mapping[it].start {
        // nothing overlaps I
        assert it > 0 ==> mapping[it - 1].end < I.start;
        InsertGap(it, I, val);
        return true;
      }
      var c := FillFrom(I, val, update, it);
      changed := changed || c;
    }

    /** Walk over the entries inside I: gaps get new entries, existing entries
        get the value. */
    method FillFrom(I: Interval, val: V, update: bool, from: nat) returns (changed: bool)
      requires I.Valid() && Sorted(mapping) && Aligned(mapping, I) && from < |mapping|
      requires I.start <= mapping[from].start <= I.end
      requires forall i :: 0 <= i < from ==> mapping[i].start < I.start
      modifies this
      ensures Sorted(mapping) && |mapping| >= |old(mapping)|
      ensures BytesUpTo(mapping, old(mapping), I.start, I.end + 1, val, update)
      ensures changed <==> mapping != old(mapping)
    {
      ghost var was := mapping;
      changed := false;
      var it: nat, rest: Offset := from, I.start;
      while true
        invariant Filling(mapping, was, I, it, rest, val, update)
        invariant changed <==> mapping != was
        decreases |mapping| - it, mapping[it].start - rest
      {
        var c, done;
        c, done, it, rest := FillStep(was, I, it, rest, val, update);
        changed := changed || c;
        if done {
          return;
        }
      }
    }

    method FillStep(ghost was: seq<Entry<V>>, I: Interval, it: nat, rest: Offset, val: V, update: bool)
      returns (changed: bool, done: bool, it': nat, rest': Offset)
      requires I.Valid() && Filling(mapping, was, I, it, rest, val, update)
      modifies this
      ensures done ==> Sorted(mapping) && |mapping| >= |was| && BytesUpTo(mapping, was, I.start, I.end + 1, val, update)
      ensures !done ==> Filling(mapping, was, I, it', rest', val, update)
      ensures !done ==> (|mapping| - it' < old(|mapping|) - it ||
                         (|mapping| - it' == old(|mapping|) - it
                          && mapping[it'].start - rest' < old(mapping[it].start) - rest))
      ensures changed || old(mapping) != was <==> mapping != was
    {
      if rest < mapping[it].start {
        FillGap(was, I, it, rest, val, update);
        return true, false, it + 1, mapping[it + 1].start;
      }
      changed, done := FillEntry(was, I, it, val, update);
      it', rest' := it + 1, if done then rest else Add(mapping[it].end, 1);
    }

    /** Make a new entry of the bytes between `rest` and the entry `it`. */
    method FillGap(ghost was: seq<Entry<V>>, I: Interval, it: nat, rest: Offset, val: V, update: bool)
      requires Filling(mapping, was, I, it, rest, val, update) && rest < mapping[it].start
      modifies this
      ensures |mapping| == |old(mapping)| + 1 && mapping[it + 1] == old(mapping)[it] && mapping != was
      ensures Filling(mapping, was, I, it + 1, mapping[it + 1].start, val, update)
    {
      ghost var now := mapping;
      var gap := Interval(rest, Sub(mapping[it].start, 1));
      InsertGap(it, gap, val);
      FillingGap(now, mapping, was, I, it, gap, val, update);
    }

    /** Give the value to the entry `it` and, if no further entry inside I
        follows, to the rest of I. */
    method FillEntry(ghost was: seq<Entry<V>>, I: Interval, it: nat, val: V, update: bool)
      returns (changed: bool, done: bool)
      requires I.Valid() && it < |mapping|
      requires Filling(mapping, was, I, it, mapping[it].start, val, update)
      modifies this
      ensures |mapping| >= |old(mapping)| && mapping[it].end == old(mapping[it].end)
      ensures done ==> Sorted(mapping) && BytesUpTo(mapping, was, I.start, I.end + 1, val, update)
      ensures !done ==> |mapping| == |old(mapping)| && mapping[it].end < I.end
      ensures !done ==> Filling(mapping, was, I, it + 1, mapping[it].end + 1, val, update)
      ensures changed || old(mapping) != was <==> mapping != was
    {
      ghost var now := mapping;
      hide BytesUpTo, At;
      changed := AddValue(it, val, update);
      FilledEntry(now, mapping, was, I, it, val, update);
      if mapping[it].end == I.end {
        return changed, true;
      }
      if it + 1 == |mapping| || mapping[it + 1].start > I.end {
        FillTail(was, I, it, val, update);
        return true, true;
      }
      done := false;
    }

    /** Make a new entry of the bytes behind the last entry inside I. */
    method FillTail(ghost was: seq<Entry<V>>, I: Interval, it: nat, val: V, update: bool)
      requires I.Valid() && it < |mapping| && Sorted(mapping) && |mapping| >= |was|
      requires I.start <= mapping[it].start && mapping[it].end < I.end
      requires it + 1 < |mapping| ==> mapping[it + 1].start > I.end
      requires BytesUpTo(mapping, was, I.start, mapping[it].end + 1, val, update)
      modifies this
      ensures |mapping| == |old(mapping)| + 1 && mapping[it] == old(mapping)[it] && mapping != was
      ensures Sorted(mapping) && BytesUpTo(mapping, was, I.start, I.end + 1, val, update)
    {
      hide BytesUpTo, At;
      ghost var last := mapping;
      var rest := Interval(Add(mapping[it].end, 1), I.end);
      InsertGap(it + 1, rest, val);
      FilledTail(last, mapping, was, I, it, rest.start, val, update);
    }

    /** The index of the first entry that overlaps I, or |mapping| if there is none. */
    method Le(I: Interval) returns (k: nat)
      requires Sorted(mapping) && mapping != [] && I.start <= I.end
      ensures k <= |mapping|
      ensures forall i :: 0 <= i < k ==> mapping[i].end < I.start || I.end < mapping[i].start
      ensures k < |mapping| ==> mapping[k].start <= I.end && I.start <= mapping[k].end
      ensures k < |mapping| ==> forall i :: 0 <= i < k ==> mapping[i].end < I.start
    {
      var ge := FindGe(I.start);
      assert forall i :: 0 <= i < ge - 1 ==> mapping[i].end < mapping[ge - 1].start;
      if ge == |mapping| {
        var last := |mapping| - 1;
        return if mapping[last].end >= I.start then last else |mapping|;
      }
      if ge != 0 && mapping[ge - 1].end >= I.start {
        return ge - 1;
      }
      assert forall i :: ge < i < |mapping| ==> mapping[ge].end < mapping[i].start;
      return if mapping[ge].start > I.end then |mapping| else ge;
    }

    /** All values of the bytes of I. */
    method Gather(I: Interval) returns (ret: set<V>)
      requires Sorted(mapping) && mapping != [] && I.start <= I.end
      ensures forall v :: v in ret <==> exists b: Offset :: I.Has(b) && v in At(mapping, b)
    {
      ret := {};
      var from := Le(I);
      var it := from;
      while it < |mapping| && Overlaps(mapping[it], I)
        invariant from <= it <= |mapping|
        invariant forall i :: from <= i < it ==> Overlaps(mapping[i], I)
        invariant forall v :: v in ret <==> exists i :: from <= i < it && v in mapping[i].vals
      {
        ret := ret + mapping[it].vals;
        it := it + 1;
      }
      assert it < |mapping| ==> forall i :: it < i < |mapping| ==> mapping[it].end < mapping[i].start;
      GatherBytes(mapping, from, it, I, ret);
    }

    /** The parts of I that have no value. The last of them may run past the
        end of I, up to the next entry. */
    method Uncovered(I: Interval) returns (ret: seq<Interval>)
      requires Sorted(mapping) && I.Valid()
      ensures UncoveredBy(mapping, I, ret)
      ensures PastEnd(ret, I) <==> RunsPast(mapping, I) && exists b: Offset :: I.Has(b) && At(mapping, b) != {}
    {
      if mapping == [] {
        ret := [I];
        NothingMapped(mapping, I, ret);
        return;
      }
      var it := Le(I);
      if it == |mapping| {
        ret := [I];
        NothingMapped(mapping, I, ret);
        return;
      }
      hide Uncovering, PastEnd, RunsPast, At;
      MappedByte(mapping, I, it);
      ret := UncoveredBehind(I, it);
    }

    /** The uncovered parts when the entry it is the first one that overlaps I. */
    method UncoveredBehind(I: Interval, it: nat) returns (ret: seq<Interval>)
      requires Sorted(mapping) && I.Valid() && it < |mapping|
      requires mapping[it].start <= I.end && I.start <= mapping[it].end
      requires it > 0 ==> mapping[it - 1].end < I.start
      ensures Uncovering(mapping, I, I.end + 1, ret)
      ensures PastEnd(ret, I) <==> RunsPast(mapping, I)
    {
      hide At;
      if I.start <= mapping[it].start {
        NoneBefore(mapping, I);
        hide Uncovering;
        ret := UncoveredFrom(I, it, I.start);
        return;
      }
      UncoverFirst(mapping, I, it);
      // the first entry covers the whole of I?
      if mapping[it].end >= I.end {
        AtEntry(mapping, it, I.end);
        return [];
      }
      var cur := Add(mapping[it].end, 1);
      if it + 1 == |mapping| {
        UncoverTail(mapping, I, cur, []);
        NothingBehind(mapping, I);
        ret := [] + [Interval(cur, I.end)];
        return;
      }
      hide Uncovering, PastEnd, RunsPast;
      ret := UncoveredFrom(I, it + 1, cur);
    }

    /** The uncovered parts from the byte `from` on, which is not behind the entry k. */
    method UncoveredFrom(I: Interval, k: nat, from: Offset) returns (ret: seq<Interval>)
      requires Sorted(mapping) && I.Valid()
      requires k < |mapping| && I.start <= from <= mapping[k].start && from <= I.end
      requires k > 0 ==> mapping[k - 1].end < from
      requires Uncovering(mapping, I, from, []) && (from == I.start || Mapped(mapping, from - 1))
      ensures Uncovering(mapping, I, I.end + 1, ret)
      ensures PastEnd(ret, I) <==> RunsPast(mapping, I)
    {
      hide At, Uncovering, Mapped;
      ret := [];
      var it, cur := k, from;
      while true
        invariant 0 <= it < |mapping| && I.start <= cur <= mapping[it].start && cur <= I.end
        invariant it > 0 ==> mapping[it - 1].end < cur
        invariant Uncovering(mapping, I, cur, ret) && (cur == I.start || Mapped(mapping, cur - 1))
        decreases |mapping| - it
      {
        ghost var was := ret;
        if cur < mapping[it].start {
          ret := ret + [Interval(cur, Sub(mapping[it].start, 1))];
        }
        UncoverEntry(mapping, I, cur, it, was, ret);
        // does the entry cover all the rest?
        if mapping[it].end >= I.end {
          LastEntry(mapping, I, cur, it, was, ret);
          return;
        }
        cur := Add(mapping[it].end, 1);
        it := it + 1;
        if it == |mapping| {
          UncoverTail(mapping, I, cur, ret);
          NothingBehind(mapping, I);
          ret := ret + [Interval(cur, I.end)];
          return;
        }
      }
    }

    /** Add the value to all entries. */
    method AddAll(val: V) returns (changed: bool)
      requires Sorted(mapping)
      modifies this
      ensures Sorted(mapping)
      ensures forall b: Offset ::
        At(mapping, b) == (if old(At(mapping, b)) == {} then {} else old(At(mapping, b)) + {val})
      ensures changed <==> mapping != old(mapping)
    {
      ghost var was := mapping;
      changed := false;
      var k := 0;
      while k < |mapping|
        invariant Sorted(mapping) && k <= |mapping| == |was|
        invariant forall i :: 0 <= i < k ==> mapping[i] == Entry(was[i].start, was[i].end, was[i].vals + {val})
        invariant forall i :: k <= i < |mapping| ==> mapping[i] == was[i]
        invariant changed <==> mapping != was
      {
        var c := AddValue(k, val, false);
        changed := changed || c;
        k := k + 1;
      }
      forall b: Offset
        ensures At(mapping, b) == if At(was, b) == {} then {} else At(was, b) + {val}
      {
        if i :| 0 <= i < |was| && was[i].Has(b) {
          AtEntry(was, i, b);
          AtEntry(mapping, i, b);
        } else {
          AtNone(was, b);
          AtNone(mapping, b);
        }
      }
    }
  }

  lemma Singleton<V>(s: set<V>, v: V)
    requires |s| == 1 && v in s
    ensures s == {v}
  {
    assert |s - {v}| == 0;
    assert s - {v} == {};
  }

  /** Every entry lies inside I or outside of it. */
  ghost predicate Aligned<V>(m: seq<Entry<V>>, I: Interval) {
    forall i :: 0 <= i < |m| ==>
      (I.start <= m[i].start && m[i].end <= I.end) || m[i].end < I.start || I.end < m[i].start
  }

  /** `n` is `m` with `e` inserted before the k-th entry. */
  ghost predicate InsertedAt<V>(m: seq<Entry<V>>, k: nat, e: Entry<V>, n: seq<Entry<V>>) {
    && k <= |m| && |n| == |m| + 1 && n[k] == e
    && (forall i :: 0 <= i < k ==> n[i] == m[i])
    && (forall i :: k < i < |n| ==> n[i] == m[i - 1])
  }

  lemma InsertionIndices<V>(m: seq<Entry<V>>, k: nat, e: Entry<V>)
    requires k <= |m|
    ensures InsertedAt(m, k, e, m[..k] + [e] + m[k..])
  {
  }

  lemma InsertKeepsSorted<V>(m: seq<Entry<V>>, k: nat, e: Entry<V>, n: seq<Entry<V>>)
    requires Sorted(m) && InsertedAt(m, k, e, n)
    requires e.start <= e.end && e.start != UNKNOWN && e.end != UNKNOWN - 1 && e.vals != {}
    requires k > 0 ==> m[k - 1].end < e.start
    requires k < |m| ==> e.end < m[k].start
    ensures Sorted(n)
  {
    forall i, j | 0 <= i < j < |n| ensures n[i].end < n[j].start {
      if j == k {
        assert i < k - 1 ==> m[i].end < m[k - 1].start;
      } else if i == k {
        assert j - 1 > k ==> m[k].end < m[j - 1].start;
      } else {
        var i', j' := if i < k then i else i - 1, if j < k then j else j - 1;
        assert n[i] == m[i'] && n[j] == m[j'];
      }
    }
  }

  lemma GapIsEmpty<V>(m: seq<Entry<V>>, k: nat, I: Interval, b: Offset)
    requires Sorted(m) && k <= |m| && I.Has(b)
    requires k > 0 ==> m[k - 1].end < I.start
    requires k < |m| ==> I.end < m[k].start
    ensures At(m, b) == {}
  {
    forall i | 0 <= i < |m| ensures !m[i].Has(b) {
      if i < k - 1 { assert m[i].end < m[k - 1].start; }
      if i > k { assert m[k].end < m[i].start; }
    }
    AtNone(m, b);
  }

  lemma GapFilled<V>(m: seq<Entry<V>>, k: nat, I: Interval, val: V)
    requires Sorted(m) && k <= |m| && I.Valid()
    requires k > 0 ==> m[k - 1].end < I.start
    requires k < |m| ==> I.end < m[k].start
    ensures var e := Entry(I.start, I.end, {val});
            var n := m[..k] + [e] + m[k..];
            && InsertedAt(m, k, e, n) && Sorted(n)
            && (forall b: Offset :: I.Has(b) ==> At(m, b) == {})
            && (forall b: Offset :: At(n, b) == if I.Has(b) then {val} else At(m, b))
  {
    hide At;
    var e := Entry(I.start, I.end, {val});
    var n := m[..k] + [e] + m[k..];
    InsertionIndices(m, k, e);
    InsertKeepsSorted(m, k, e, n);
    GapBytes(m, k, I, val);
  }

  lemma GapBytes<V>(m: seq<Entry<V>>, k: nat, I: Interval, val: V)
    requires Sorted(m) && k <= |m| && I.Valid()
    requires k > 0 ==> m[k - 1].end < I.start
    requires k < |m| ==> I.end < m[k].start
    ensures var e := Entry(I.start, I.end, {val});
            var n := m[..k] + [e] + m[k..];
            && (forall b: Offset :: I.Has(b) ==> At(m, b) == {})
            && (forall b: Offset :: At(n, b) == if I.Has(b) then {val} else At(m, b))
  {
    hide At, Sorted;
    var e := Entry(I.start, I.end, {val});
    var n := m[..k] + [e] + m[k..];
    forall b: Offset
      ensures I.Has(b) ==> At(m, b) == {}
      ensures At(n, b) == if I.Has(b) then {val} else At(m, b)
    {
      AtInsert(m, k, e, b);
      if I.Has(b) { GapIsEmpty(m, k, I, b); }
    }
  }

  /** While an interval is being filled: `cur` is what `was` has become, the
      bytes below `rest` are done and the entry `it` is the next one inside I. */
  ghost predicate Filling<V>(cur: seq<Entry<V>>, was: seq<Entry<V>>, I: Interval, it: int, rest: int, val: V,
                             update: bool)
  {
    && Sorted(cur) && Aligned(cur, I) && 0 <= it < |cur|
    && I.start <= rest <= cur[it].start <= I.end
    && (forall i :: 0 <= i < it ==> cur[i].end < rest)
    && BytesUpTo(cur, was, I.start, rest, val, update)
    && |cur| >= |was|
    && (|cur| == |was| ==> cur[it..] == was[it..])
  }

  ghost predicate BytesUpTo<V>(cur: seq<Entry<V>>, was: seq<Entry<V>>, lo: Offset, hi: int, val: V, update: bool) {
    forall b: Offset :: At(cur, b) == if lo <= b < hi then Inserted(At(was, b), val, update) else At(was, b)
  }

  lemma FillingGap<V>(cur: seq<Entry<V>>, next: seq<Entry<V>>, was: seq<Entry<V>>, I: Interval, it: nat, gap: Interval,
                      val: V, update: bool)
    requires Filling(cur, was, I, it, gap.start, val, update)
    requires gap.start <= gap.end && gap.end + 1 == cur[it].start && gap.start != UNKNOWN
    requires InsertedAt(cur, it, Entry(gap.start, gap.end, {val}), next)
    requires Sorted(next)
    requires forall b: Offset :: At(next, b) == if gap.Has(b) then {val} else At(cur, b)
    ensures Filling(next, was, I, it + 1, gap.end + 1, val, update)
    ensures next != was
  {
    forall b: Offset
      ensures At(next, b) == if I.start <= b < gap.end + 1 then Inserted(At(was, b), val, update) else At(was, b)
    {
      if gap.Has(b) { GapIsEmpty(cur, it, gap, b); }
    }
    forall i | 0 <= i < |next|
      ensures (I.start <= next[i].start && next[i].end <= I.end) || next[i].end < I.start || I.end < next[i].start
    {
      if i != it { assert next[i] == cur[if i < it then i else i - 1]; }
    }
  }

  lemma FilledTail<V>(cur: seq<Entry<V>>, next: seq<Entry<V>>, was: seq<Entry<V>>, I: Interval, it: nat, rest: Offset,
                      val: V, update: bool)
    requires BytesUpTo(cur, was, I.start, rest, val, update)
    requires I.start <= rest <= I.end
    requires forall b: Offset :: rest <= b <= I.end ==> At(cur, b) == {}
    requires forall b: Offset :: At(next, b) == if rest <= b <= I.end then {val} else At(cur, b)
    ensures BytesUpTo(next, was, I.start, I.end + 1, val, update)
  {
    forall b: Offset
      ensures At(next, b) == if I.start <= b < I.end + 1 then Inserted(At(was, b), val, update) else At(was, b)
    {
      if rest <= b <= I.end { assert At(cur, b) == At(was, b); }
    }
  }

  lemma FilledEntry<V>(cur: seq<Entry<V>>, next: seq<Entry<V>>, was: seq<Entry<V>>, I: Interval, it: nat, val: V,
                       update: bool)
    requires it < |cur| && Filling(cur, was, I, it, cur[it].start, val, update)
    requires next == cur[it := Entry(cur[it].start, cur[it].end, Inserted(cur[it].vals, val, update))]
    ensures Sorted(next) && Aligned(next, I)
    ensures it + 1 < |next| && next[it + 1].start <= I.end ==>
      Filling(next, was, I, it + 1, cur[it].end + 1, val, update)
    ensures BytesUpTo(next, was, I.start, cur[it].end + 1, val, update)
    ensures |next| >= |was| && (|next| == |was| ==> next[it + 1..] == was[it + 1..])
    ensures next == was ==> cur == was
    ensures cur == was && next != cur ==> next != was
    ensures cur != was ==> next != was
  {
    forall b: Offset
      ensures At(next, b) == if I.start <= b < cur[it].end + 1 then Inserted(At(was, b), val, update) else At(was, b)
    {
      AtReplace(cur, it, next[it], b);
      if cur[it].Has(b) { AtEntry(cur, it, b); }
    }
    hide At, Aligned, Sorted, BytesUpTo;
    if |cur| == |was| { SameBehind(cur, next, was, it, next[it]); }
  }

  /** Two sequences that are equal from `it` on, after the entry there was replaced. */
  lemma SameBehind<V>(cur: seq<Entry<V>>, next: seq<Entry<V>>, was: seq<Entry<V>>, it: nat, e: Entry<V>)
    requires it < |cur| == |was| && cur[it..] == was[it..] && next == cur[it := e]
    ensures next[it + 1..] == was[it + 1..] && (next == was ==> cur == was)
    ensures cur == was && next != cur ==> next != was
  {
    assert cur[it] == cur[it..][0] == was[it..][0];
    assert next[it + 1..] == cur[it..][1..] && was[it + 1..] == was[it..][1..];
    forall j | it <= j < |cur| ensures cur[j] == was[j] { assert cur[j] == cur[it..][j - it]; }
    if cur != was {
      var i :| 0 <= i < |cur| && cur[i] != was[i];
      assert next[i] == cur[i];
    }
  }

  /** The comparison of DiscreteInterval::overlaps: its second disjunct alone
      says that the entry does not start behind the end of I. */
  predicate Overlaps<V>(e: Entry<V>, I: Interval) {
    (e.start <= I.start && e.end >= I.start) || I.end >= e.start
  }

  lemma GatherBytes<V>(m: seq<Entry<V>>, from: nat, to: nat, I: Interval, ret: set<V>)
    requires Sorted(m) && from <= to <= |m| && I.start <= I.end
    requires forall i :: 0 <= i < |m| && !(from <= i < to) ==> m[i].end < I.start || I.end < m[i].start
    requires forall i :: from <= i < to ==> m[i].start <= I.end && I.start <= m[i].end
    requires forall v :: v in ret <==> exists i :: from <= i < to && v in m[i].vals
    ensures forall v :: v in ret <==> exists b: Offset :: I.Has(b) && v in At(m, b)
  {
    forall v | v in ret ensures exists b: Offset :: I.Has(b) && v in At(m, b) {
      var i :| from <= i < to && v in m[i].vals;
      var b := if m[i].start <= I.start then I.start else m[i].start;
      AtEntry(m, i, b);
      assert I.Has(b) && v in At(m, b);
    }
    forall v, b: Offset | I.Has(b) && v in At(m, b) ensures v in ret {
      AtMapped(m, b);
      var i :| 0 <= i < |m| && m[i].Has(b);
      AtEntry(m, i, b);
    }
  }

  /** What Uncovered returns: ascending disjoint intervals without a mapped
      byte that start inside I and hold every byte of I that is not mapped. */
  ghost predicate UncoveredBy<V>(m: seq<Entry<V>>, I: Interval, ret: seq<Interval>) {
    && Uncovering(m, I, I.end + 1, ret)
    && ((forall b: Offset :: I.Has(b) ==> At(m, b) == {}) ==> ret == [I])
  }

  /** The same up to the byte `cur`. */
  ghost predicate Uncovering<V>(m: seq<Entry<V>>, I: Interval, cur: int, ret: seq<Interval>) {
    && (forall i :: 0 <= i < |ret| ==> ret[i].Valid() && I.start <= ret[i].start <= I.end)
    && (forall i, j :: 0 <= i < j < |ret| ==> ret[i].end < ret[j].start)
    && (forall i, b: Offset :: 0 <= i < |ret| && ret[i].Has(b) ==> At(m, b) == {})
    && (forall b: Offset :: I.start <= b < cur && At(m, b) == {} ==> InSome(ret, b))
    && (cur <= I.end ==> forall i :: 0 <= i < |ret| ==> ret[i].end < cur)
    && (forall i :: 0 <= i < |ret| ==> Snug(m, I, ret[i]))
  }

  /** r begins where I does or right behind a value, and ends where I does or right before one. */
  ghost predicate Snug<V>(m: seq<Entry<V>>, I: Interval, r: Interval) {
    && (r.start == I.start || Mapped(m, r.start - 1)) && (r.end == I.end || Mapped(m, r.end + 1))
  }

  ghost predicate Mapped<V>(m: seq<Entry<V>>, b: int) { 0 <= b <= UNKNOWN && At(m, b) != {} }

  /** Some interval runs past the end of I. */
  ghost predicate PastEnd(ret: seq<Interval>, I: Interval) {
    exists i :: 0 <= i < |ret| && ret[i].end > I.end
  }

  /** Neither the last byte of I nor its neighbour has a value, but some byte
      behind them has. */
  ghost predicate RunsPast<V>(m: seq<Entry<V>>, I: Interval) {
    I.end < UNKNOWN && At(m, I.end) == {} && At(m, I.end + 1) == {} && exists b: Offset :: b > I.end && At(m, b) != {}
  }

  lemma LastEntry<V>(m: seq<Entry<V>>, I: Interval, cur: int, it: nat, ret: seq<Interval>, next: seq<Interval>)
    requires Sorted(m) && it < |m| && I.start <= cur <= m[it].start && cur <= I.end <= m[it].end
    requires it > 0 ==> m[it - 1].end < cur
    requires Uncovering(m, I, cur, ret)
    requires next == if cur < m[it].start then ret + [Interval(cur, m[it].start - 1)] else ret
    ensures PastEnd(next, I) <==> RunsPast(m, I)
  {
    if m[it].start > I.end {
      var gap := Interval(cur, m[it].start - 1);
      GapIsEmpty(m, it, gap, I.end);
      AtEntry(m, it, m[it].start);
      if m[it].start > I.end + 1 {
        GapIsEmpty(m, it, gap, I.end + 1);
        assert next[|ret|].end > I.end;
      }
    } else {
      AtEntry(m, it, I.end);
    }
  }

  lemma NothingBehind<V>(m: seq<Entry<V>>, I: Interval)
    requires Sorted(m) && m != [] && m[|m| - 1].end < I.end
    ensures !RunsPast(m, I)
  {
    forall b: Offset | b > I.end ensures At(m, b) == {} {
      forall i | 0 <= i < |m| ensures !m[i].Has(b) { if i < |m| - 1 { assert m[i].end < m[|m| - 1].start; } }
      AtNone(m, b);
    }
  }

  ghost predicate InSome(ret: seq<Interval>, b: Offset) {
    exists i :: 0 <= i < |ret| && ret[i].Has(b)
  }

  lemma InSomeAppend(ret: seq<Interval>, r: Interval, b: Offset)
    ensures InSome(ret + [r], b) <==> InSome(ret, b) || r.Has(b)
  {
    assert (ret + [r])[|ret|] == r;
    if i :| 0 <= i < |ret| && ret[i].Has(b) { assert (ret + [r])[i] == ret[i]; }
  }

  lemma NothingMapped<V>(m: seq<Entry<V>>, I: Interval, ret: seq<Interval>)
    requires I.Valid() && ret == [I]
    requires forall i :: 0 <= i < |m| ==> m[i].end < I.start || I.end < m[i].start
    ensures UncoveredBy(m, I, ret)
  {
    forall b: Offset | I.Has(b) ensures At(m, b) == {} && InSome(ret, b) {
      AtNone(m, b);
      InSomeAppend([], I, b);
    }
  }

  /** From `cur` to the end of the interval there is no further entry. */
  lemma UncoverTail<V>(m: seq<Entry<V>>, I: Interval, cur: int, ret: seq<Interval>)
    requires Sorted(m) && I.Valid() && I.start <= cur <= I.end && cur < UNKNOWN
    requires m != [] && m[|m| - 1].end < cur
    requires Uncovering(m, I, cur, ret) && (cur == I.start || Mapped(m, cur - 1))
    ensures Uncovering(m, I, I.end + 1, ret + [Interval(cur, I.end)])
  {
    UncoverInterval(m, I, cur, |m|, ret, Interval(cur, I.end));
  }

  lemma UncoverInterval<V>(m: seq<Entry<V>>, I: Interval, cur: int, it: nat, ret: seq<Interval>, r: Interval)
    requires Sorted(m) && it <= |m| && I.start <= cur <= I.end && r.start == cur && r.Valid()
    requires it > 0 ==> m[it - 1].end < cur
    requires it < |m| ==> r.end < m[it].start
    requires Uncovering(m, I, cur, ret) && (cur == I.start || Mapped(m, cur - 1))
    requires r.end != I.end ==> it < |m| && m[it].start == r.end + 1
    ensures Uncovering(m, I, r.end + 1, ret + [r])
  {
    forall b: Offset | I.start <= b < r.end + 1 && At(m, b) == {} ensures InSome(ret + [r], b) {
      InSomeAppend(ret, r, b);
    }
    forall b: Offset | r.Has(b) ensures At(m, b) == {} { GapIsEmpty(m, it, r, b); }
    if r.end != I.end { AtEntry(m, it, m[it].start); }
    assert Snug(m, I, r);
    hide At, Snug, InSome, Mapped;
  }

  lemma MappedByte<V>(m: seq<Entry<V>>, I: Interval, it: nat)
    requires Sorted(m) && it < |m| && m[it].start <= I.end && I.start <= m[it].end && I.start <= I.end
    ensures exists b: Offset :: I.Has(b) && At(m, b) != {}
  {
    var b := if m[it].start <= I.start then I.start else m[it].start;
    AtEntry(m, it, b);
    assert I.Has(b);
  }

  lemma NoneBefore<V>(m: seq<Entry<V>>, I: Interval)
    ensures Uncovering(m, I, I.start, [])
  {
  }

  lemma UncoverFirst<V>(m: seq<Entry<V>>, I: Interval, it: nat)
    requires Sorted(m) && it < |m| && m[it].start <= I.start <= m[it].end
    ensures Uncovering(m, I, m[it].end + 1, [])
    ensures m[it].end >= I.end ==> Uncovering(m, I, I.end + 1, [])
    ensures Mapped(m, m[it].end)
  {
    forall b: Offset | m[it].Has(b) ensures At(m, b) != {} { AtEntry(m, it, b); }
  }

  lemma UncoverEntry<V>(m: seq<Entry<V>>, I: Interval, cur: int, it: nat, ret: seq<Interval>, next: seq<Interval>)
    requires Sorted(m) && it < |m| && I.start <= cur <= m[it].start && cur <= I.end
    requires it > 0 ==> m[it - 1].end < cur
    requires Uncovering(m, I, cur, ret) && (cur == I.start || Mapped(m, cur - 1))
    requires next == if cur < m[it].start then ret + [Interval(cur, m[it].start - 1)] else ret
    ensures Uncovering(m, I, m[it].end + 1, next) && Mapped(m, m[it].end)
    ensures m[it].end >= I.end ==> Uncovering(m, I, I.end + 1, next)
  {
    if cur < m[it].start { UncoverInterval(m, I, cur, it, ret, Interval(cur, m[it].start - 1)); }
    forall b: Offset | m[it].Has(b) ensures At(m, b) != {} { AtEntry(m, it, b); }
  }
}
