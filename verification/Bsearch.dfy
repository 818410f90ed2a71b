/** The binary search sample: its unusual sort, and the search that relies on it. */
module BinarySearch {

  const INT_MIN: int := -0x8000_0000
  const INT_MAX: int := 0x7FFF_FFFF

  datatype Option<T> = None | Some(value: T)

  ghost predicate Sorted(s: seq<int>) { forall i, j :: 0 <= i < j < |s| ==> s[i] <= s[j] }

  ghost predicate AtMost(s: seq<int>, m: int) { forall k :: 0 <= k < |s| ==> s[k] <= m }

  ghost function Swapped(s: seq<int>, i: nat, j: nat): seq<int>
    requires i < |s| && j < |s|
  {
    s[i := s[j]][j := s[i]]
  }

  lemma SwapKeepsElements(s: seq<int>, i: nat, j: nat)
    requires i < |s| && j < |s|
    ensures multiset(Swapped(s, i, j)) == multiset(s)
  {
  }

  /** After j comparisons of the i-th round: the first i elements are sorted, the last of
      them was a largest one, and those compared are not larger than the i-th. */
  ghost predicate Round(s: seq<int>, i: nat, j: nat)
  {
    && i < |s| && j <= |s| && Sorted(s[..i]) && AtMost(s[..j], s[i])
    && (0 < i && j < i ==> AtMost(s, s[i - 1])) && (0 < i <= j ==> AtMost(s, s[i]))
  }

  lemma RoundStarts(s: seq<int>, i: nat)
    requires i < |s| && Sorted(s[..i]) && (i > 0 ==> AtMost(s, s[i - 1]))
    ensures Round(s, i, 0)
  {
  }

  /** One comparison, with its swap, keeps the round going. */
  lemma RoundStep(s: seq<int>, i: nat, j: nat)
    requires Round(s, i, j) && j < |s|
    ensures Round(if s[j] > s[i] then Swapped(s, i, j) else s, i, j + 1)
  {
    if s[j] > s[i] {
      var t := Swapped(s, i, j);
      assert forall k :: 0 <= k < j && k != i ==> s[k] <= s[i] by {
        assert forall k :: 0 <= k < j ==> s[..j][k] == s[k];
      }
      if j < i {
        forall a, b | 0 <= a < b < i ensures t[a] <= t[b] { assert s[..i][a] <= s[..i][b]; }
      }
    } else {
      assert s[..j + 1] == s[..j] + [s[j]];
      if 0 < i && j + 1 == i { assert s[i - 1] == s[i]; }
    }
  }

  lemma RoundEnds(s: seq<int>, i: nat)
    requires Round(s, i, |s|)
    ensures Sorted(s[..i + 1]) && AtMost(s, s[i])
  {
    assert s[..|s|] == s && s[..i + 1] == s[..i] + [s[i]];
    forall a, b | 0 <= a < b < i + 1 ensures s[a] <= s[b] {
      if b < i { assert s[..i][a] <= s[..i][b]; }
    }
  }

  lemma SortedEmpty(s: seq<int>)
    ensures Sorted(s[..0])
  {
  }

  method Swap(a: array<int>, i: nat, j: nat)
    requires i < a.Length && j < a.Length
    modifies a
    ensures a[..] == Swapped(old(a[..]), i, j)
  {
    var tmp := a[i];
    a[i] := a[j];
    a[j] := tmp;
  }

  /** Sort in place: every element is compared with all others, and larger ones are
      swapped towards the one whose turn it is. */
  method SortArray(a: array<int>)
    modifies a
    ensures Sorted(a[..]) && multiset(a[..]) == multiset(old(a[..]))
  {
    hide Round, Sorted, AtMost, Swapped;
    var n, i := a.Length, 0;
    SortedEmpty(a[..]);
    ghost var was := a[..];
    while i < n
      invariant 0 <= i <= n && multiset(a[..]) == multiset(was)
      invariant Sorted(a[..][..i]) && (i > 0 ==> AtMost(a[..], a[i - 1]))
    {
      var j := 0;
      RoundStarts(a[..], i);
      while j < n
        invariant 0 <= j <= n && multiset(a[..]) == multiset(was) && Round(a[..], i, j)
      {
        RoundStep(a[..], i, j);
        ghost var s := a[..];
        if a[j] > a[i] {
          SwapKeepsElements(s, i, j);
          Swap(a, i, j);
        }
        j := j + 1;
      }
      RoundEnds(a[..], i);
      i := i + 1;
    }
    assert a[..][..i] == a[..];
  }

  /** The first elements are the ones to the left of the range, smaller than the key;
      the last ones are to the right of it, larger than the key. */
  ghost predicate Outside(s: seq<int>, key: int, base: nat, lim: nat) {
    && base + lim <= |s|
    && (forall k :: 0 <= k < base ==> s[k] < key) && (forall k :: base + lim <= k < |s| ==> key < s[k])
  }

  /** Search a sorted array; the difference of the key and an element fits into an int. */
  method Bsearch(key: int, a: array<int>) returns (r: Option<nat>)
    requires Sorted(a[..]) && a.Length <= INT_MAX
    requires forall k :: 0 <= k < a.Length ==> INT_MIN <= key - a[k] <= INT_MAX
    ensures match r
      case Some(i) => i < a.Length && a[i] == key
      case None => key !in a[..]
  {
    var base, lim, p := 0, a.Length, 0;
    while lim != 0
      invariant 0 <= base && 0 <= lim && Outside(a[..], key, base, lim)
      decreases lim
    {
      p := base + lim / 2;
      var cmp := key - a[p];
      if cmp == 0 {
        break;
      }
      MoveOn(a[..], key, base, lim);
      if cmp > 0 {
        base := p + 1;
        lim := lim - 1;
      }
      lim := lim / 2;
    }
    r := if lim != 0 then Some(p) else None;
  }

  lemma MoveOn(s: seq<int>, key: int, base: nat, lim: nat)
    requires Sorted(s) && Outside(s, key, base, lim) && lim != 0 && s[base + lim / 2] != key
    ensures var p := base + lim / 2;
      if key > s[p] then Outside(s, key, p + 1, (lim - 1) / 2) else Outside(s, key, base, lim / 2)
  {
  }
}
