/** Natural loops, and the blocks at which a transaction around a loop starts and ends. */
module LoopTransactions {
  import opened Digraphs
  import opened PostDominance

  /** Every path from the entry to y passes x, and there is one. */
  ghost predicate Dom(g: Digraph, entry: Node, x: Node, y: Node) {
    g.Reaches(entry, y) && forall p :: g.PathFromTo(p, entry, y) ==> x in p
  }

  ghost predicate SDom(g: Digraph, entry: Node, x: Node, y: Node) { x != y && Dom(g, entry, x, y) }

  /** idom names the closest strict dominator of every other block that can be reached. */
  ghost predicate CorrectDomTree(g: Digraph, entry: Node, idom: map<Node, Node>) {
    && g.Valid() && entry in g.succ
    && (forall y :: y in idom <==> y != entry && g.Reaches(entry, y))
    && (forall y :: y in idom ==> SDom(g, entry, idom[y], y))
    && (forall y, z :: y in idom && SDom(g, entry, z, y) ==> Dom(g, entry, z, idom[y]))
  }

  /** v reaches p on a path that does not pass h. */
  ghost predicate Around(g: Digraph, h: Node, v: Node, p: Node) { exists q :: g.PathFromTo(q, v, p) && h !in q }

  /** The loop of the back edge from p to h: what reaches p without passing h, and h. */
  ghost predicate InLoop(g: Digraph, h: Node, p: Node, v: Node) { v == h || Around(g, h, v, p) }

  lemma Prefix(g: Digraph, p: seq<Node>, u: Node, v: Node, i: nat)
    requires g.PathFromTo(p, u, v) && i < |p|
    ensures g.PathFromTo(p[..i + 1], u, p[i])
  {
    var q := p[..i + 1];
    forall k | 0 <= k < |q| - 1 ensures g.Edge(q[k], q[k + 1]) { assert g.Edge(p[k], p[k + 1]); }
  }

  /** One path after another. */
  lemma Join(g: Digraph, p: seq<Node>, u: Node, v: Node, q: seq<Node>, w: Node) returns (r: seq<Node>)
    requires g.PathFromTo(p, u, v) && g.PathFromTo(q, v, w)
    ensures g.PathFromTo(r, u, w) && r == p[..|p| - 1] + q && forall x :: x in r <==> x in p || x in q
  {
    var n := |p| - 1;
    r := p[..n] + q;
    forall k | 0 <= k < |r| - 1 ensures g.Edge(r[k], r[k + 1]) {
      if k + 1 < n {
        assert r[k] == p[k] && r[k + 1] == p[k + 1];
      } else if k < n {
        assert r[k] == p[k] && r[k + 1] == q[0] && g.Edge(p[k], p[k + 1]);
      } else {
        assert r[k] == q[k - n] && r[k + 1] == q[k - n + 1];
      }
    }
    assert p == p[..n] + [v];
  }

  lemma AroundStep(g: Digraph, h: Node, u: Node, v: Node, p: Node)
    requires Around(g, h, v, p) && g.Edge(u, v) && u != h
    ensures Around(g, h, u, p)
  {
    var q :| g.PathFromTo(q, v, p) && h !in q;
    var r := Join(g, [u, v], u, v, q, p);
  }

  /** The last occurrence of x on a path. */
  lemma LastOf(p: seq<Node>, x: Node) returns (i: nat)
    requires x in p
    ensures i < |p| && p[i] == x && x !in p[i + 1..]
  {
    i := |p| - 1;
    while p[i] != x
      invariant i < |p| && x !in p[i + 1..] && x in p[..i + 1]
      decreases i
    {
      i := i - 1;
    }
  }

  lemma LastInTail(r: seq<Node>)
    requires |r| > 1
    ensures r[|r| - 1] in r[1..]
  {
    assert r[1..][|r| - 2] == r[|r| - 1];
  }

  lemma DomReflexive(g: Digraph, entry: Node, y: Node)
    requires g.Reaches(entry, y)
    ensures Dom(g, entry, y, y)
  {
  }

  lemma DomTransitive(g: Digraph, entry: Node, x: Node, y: Node, z: Node)
    requires Dom(g, entry, x, y) && Dom(g, entry, y, z)
    ensures Dom(g, entry, x, z)
  {
    forall p | g.PathFromTo(p, entry, z) ensures x in p {
      var i :| 0 <= i < |p| && p[i] == y;
      Prefix(g, p, entry, z, i);
      assert x in p[..i + 1];
    }
  }

  lemma {:induction false} NoEntry(g: Digraph, entry: Node, a: Node, b: Node, p: seq<Node>)
    requires Dom(g, entry, a, b) && Dom(g, entry, b, a) && a != b && p != [] && (p[|p| - 1] == a || p[|p| - 1] == b)
    ensures !g.PathFromTo(p, entry, p[|p| - 1])
    decreases |p|
  {
    if g.PathFromTo(p, entry, p[|p| - 1]) {
      var other := if p[|p| - 1] == a then b else a;
      var i :| 0 <= i < |p| && p[i] == other;
      Prefix(g, p, entry, p[|p| - 1], i);
      NoEntry(g, entry, a, b, p[..i + 1]);
    }
  }

  lemma DomAntisymmetric(g: Digraph, entry: Node, a: Node, b: Node)
    requires Dom(g, entry, a, b) && Dom(g, entry, b, a)
    ensures a == b
  {
    var p := g.PathOf(entry, a);
    if a != b { NoEntry(g, entry, a, b, p); }
  }

  // ---- the blocks of a loop

  /** The header dominates the loop. */
  lemma HeaderDominates(g: Digraph, entry: Node, h: Node, p: Node, v: Node)
    requires Dom(g, entry, h, p) && InLoop(g, h, p, v) && g.Reaches(entry, v)
    ensures Dom(g, entry, h, v)
  {
    if v == h {
      DomReflexive(g, entry, h);
    } else {
      var q :| g.PathFromTo(q, v, p) && h !in q;
      forall t | g.PathFromTo(t, entry, v) ensures h in t {
        var r := Join(g, t, entry, v, q, p);
      }
    }
  }

  /** Any block of the loop can be reached from the header inside the loop. */
  lemma LoopPath(g: Digraph, entry: Node, h: Node, p: Node, v: Node) returns (r: seq<Node>)
    requires g.Valid() && Dom(g, entry, h, p) && InLoop(g, h, p, v) && g.Reaches(entry, v)
    ensures g.PathFromTo(r, h, v) && forall x :: x in r ==> InLoop(g, h, p, x)
  {
    HeaderDominates(g, entry, h, p, v);
    var t := g.PathOf(entry, v);
    var i := LastOf(t, h);
    Suffix(g, t, entry, v, i);
    r := t[i..];
    assert r[1..] == t[i + 1..];
    if v != h {
      var q :| g.PathFromTo(q, v, p) && h !in q;
      forall x | x in r ensures InLoop(g, h, p, x) {
        var k :| 0 <= k < |r| && r[k] == x;
        if k > 0 {
          Suffix(g, r, h, v, k);
          assert h !in r[k..] by { assert r[k..] == r[1..][k - 1..]; }
          var w := Join(g, r[k..], x, v, q, p);
        }
      }
    } else {
      if |r| > 1 { LastInTail(r); }
    }
  }

  /** Any block of the loop reaches the header inside the loop. */
  lemma BackToHeader(g: Digraph, h: Node, p: Node, v: Node) returns (r: seq<Node>)
    requires g.Valid() && g.Edge(p, h) && InLoop(g, h, p, v) && v in g.succ
    ensures g.PathFromTo(r, v, h) && forall x :: x in r ==> InLoop(g, h, p, x)
  {
    if v == h {
      r := [h];
    } else {
      var q :| g.PathFromTo(q, v, p) && h !in q;
      r := Join(g, q, v, p, [p, h], h);
      forall x | x in r ensures InLoop(g, h, p, x) {
        if x != h {
          var k :| 0 <= k < |q| && q[k] == x;
          Suffix(g, q, v, p, k);
        }
      }
    }
  }

  // ---- the transaction

  /** start is the immediate dominator of the header, and end a strict post-dominator
      of start outside the loop. */
  ghost predicate Placed(g: Digraph, entry: Node, exit: Node, idom: map<Node, Node>, h: Node, p: Node, start: Node,
                         end: Node)
  {
    && CorrectDomTree(g, entry, idom) && g.Edge(p, h) && SDom(g, entry, h, p) && h in idom && idom[h] == start
    && SPDom(g, exit, end, start) && !InLoop(g, h, p, end) && g.Reaches(entry, end)
  }

  lemma PlacedFacts(g: Digraph, entry: Node, exit: Node, idom: map<Node, Node>, h: Node, p: Node, start: Node,
                    end: Node)
    requires Placed(g, entry, exit, idom, h, p, start, end)
    ensures g.Valid() && g.Edge(p, h) && Dom(g, entry, h, p) && SDom(g, entry, start, h) && g.Reaches(entry, h)
    ensures end != h && end != start && PDom(g, exit, end, start) && !InLoop(g, h, p, end) && g.Reaches(entry, end)
    ensures SDom(g, entry, end, h) ==> Dom(g, entry, end, start)
  {
    hide Digraph.Reaches, PDom, Dom, Around;
  }

  lemma StartDominates(g: Digraph, entry: Node, exit: Node, idom: map<Node, Node>, h: Node, p: Node, start: Node,
                       end: Node, v: Node)
    requires Placed(g, entry, exit, idom, h, p, start, end) && InLoop(g, h, p, v) && g.Reaches(entry, v)
    ensures SDom(g, entry, start, v)
  {
    hide Digraph.Reaches, Dom, InLoop, Placed;
    PlacedFacts(g, entry, exit, idom, h, p, start, end);
    HeaderDominates(g, entry, h, p, v);
    DomTransitive(g, entry, start, h, v);
    if start == v { DomAntisymmetric(g, entry, start, h); }
  }

  lemma StartOutside(g: Digraph, entry: Node, exit: Node, idom: map<Node, Node>, h: Node, p: Node, start: Node,
                     end: Node)
    requires Placed(g, entry, exit, idom, h, p, start, end) && g.Reaches(entry, start)
    ensures !InLoop(g, h, p, start)
  {
    hide Digraph.Reaches, Dom, InLoop, Placed;
    if InLoop(g, h, p, start) { StartDominates(g, entry, exit, idom, h, p, start, end, start); }
  }

  /** The header can be reached from the start without passing the end. */
  lemma StartToHeader(g: Digraph, entry: Node, exit: Node, idom: map<Node, Node>, h: Node, p: Node, start: Node,
                      end: Node) returns (r: seq<Node>)
    requires Placed(g, entry, exit, idom, h, p, start, end)
    ensures g.PathFromTo(r, start, h) && end !in r
  {
    hide Placed, InLoop;
    PlacedFacts(g, entry, exit, idom, h, p, start, end);
    if !Dom(g, entry, end, h) {
      var t :| g.PathFromTo(t, entry, h) && end !in t;
      var i :| 0 <= i < |t| && t[i] == start;
      Suffix(g, t, entry, h, i);
      r := t[i..];
    } else {
      if Dom(g, entry, start, end) { DomAntisymmetric(g, entry, start, end); }
      var t :| g.PathFromTo(t, entry, end) && start !in t;
      var w := g.PathOf(entry, h);
      var j := LastOf(w, end);
      Suffix(g, w, entry, h, j);
      var q := Join(g, t, entry, end, w[j..], h);
      assert start in w[j..];
      var k :| j <= k < |w| && w[k] == start;
      Suffix(g, w, entry, h, k);
      assert w[k..] == w[j + 1..][k - j - 1..];
      r := w[k..];
    }
  }

  lemma EndPostDominates(g: Digraph, entry: Node, exit: Node, idom: map<Node, Node>, h: Node, p: Node, start: Node,
                         end: Node, v: Node)
    requires Placed(g, entry, exit, idom, h, p, start, end) && InLoop(g, h, p, v) && g.Reaches(entry, v)
    requires g.Reaches(v, exit)
    ensures SPDom(g, exit, end, v)
  {
    hide Placed;
    PlacedFacts(g, entry, exit, idom, h, p, start, end);
    var r := StartToHeader(g, entry, exit, idom, h, p, start, end);
    var w := LoopPath(g, entry, h, p, v);
    var t := Join(g, r, start, h, w, v);
    forall q | g.PathFromTo(q, v, exit) ensures end in q {
      var z := Join(g, t, start, v, q, exit);
    }
  }

  /** On a path from the entry to the exit every visit to the loop comes after the start
      and before the end. */
  lemma VisitsAreWrapped(g: Digraph, entry: Node, exit: Node, idom: map<Node, Node>, h: Node, p: Node, start: Node,
                         end: Node, q: seq<Node>, i: nat)
    requires Placed(g, entry, exit, idom, h, p, start, end) && g.PathFromTo(q, entry, exit) && i < |q|
    requires InLoop(g, h, p, q[i])
    ensures start in q[..i] && end in q[i + 1..]
  {
    hide Placed, InLoop;
    PlacedFacts(g, entry, exit, idom, h, p, start, end);
    Prefix(g, q, entry, exit, i);
    Suffix(g, q, entry, exit, i);
    StartDominates(g, entry, exit, idom, h, p, start, end, q[i]);
    EndPostDominates(g, entry, exit, idom, h, p, start, end, q[i]);
    assert q[..i + 1] == q[..i] + [q[i]] && q[i..] == [q[i]] + q[i + 1..];
  }

  /** The transaction is open when the path q comes to its i-th block: it was started
      and not ended since. It starts behind the start block and ends before the end block. */
  ghost predicate Open(q: seq<Node>, i: nat, start: Node, end: Node)
    requires i < |q|
  {
    exists j :: 0 <= j < i && q[j] == start && end !in q[j + 1..i + 1]
  }

  ghost predicate AlwaysOpen(g: Digraph, entry: Node, h: Node, p: Node, start: Node, end: Node) {
    forall q, i :: g.Path(q) && q[0] == entry && 0 <= i < |q| && InLoop(g, h, p, q[i]) ==> Open(q, i, start, end)
  }

  /** The transaction is open at every visit iff the end does not lead to the header
      around the start. */
  lemma OpenIff(g: Digraph, entry: Node, exit: Node, idom: map<Node, Node>, h: Node, p: Node, start: Node, end: Node)
    requires Placed(g, entry, exit, idom, h, p, start, end)
    ensures AlwaysOpen(g, entry, h, p, start, end) <==> !Around(g, start, end, h)
  {
    hide Placed, InLoop, Open;
    PlacedFacts(g, entry, exit, idom, h, p, start, end);
    if Around(g, start, end, h) {
      ReopensAround(g, entry, h, p, start, end);
    } else {
      forall q, i | g.Path(q) && q[0] == entry && 0 <= i < |q| && InLoop(g, h, p, q[i]) ensures Open(q, i, start, end) {
        StaysOpen(g, entry, exit, idom, h, p, start, end, q, i);
      }
    }
  }

  lemma ReopensAround(g: Digraph, entry: Node, h: Node, p: Node, start: Node, end: Node)
    requires Around(g, start, end, h) && g.Reaches(entry, end)
    ensures !AlwaysOpen(g, entry, h, p, start, end)
  {
    var r :| g.PathFromTo(r, end, h) && start !in r;
    var t := g.PathOf(entry, end);
    var q := Join(g, t, entry, end, r, h);
    var n, i := |t| - 1, |q| - 1;
    assert q[i] == h && InLoop(g, h, p, q[i]);
    assert forall j :: n <= j < |q| ==> q[j] == r[j - n];
    forall j | 0 <= j < n && q[j] == start ensures end in q[j + 1..i + 1] {
      assert q[n] == r[0] == end && q[j + 1..i + 1][n - j - 1] == q[n];
    }
    assert !Open(q, i, start, end);
  }

  lemma StaysOpen(g: Digraph, entry: Node, exit: Node, idom: map<Node, Node>, h: Node, p: Node, start: Node, end: Node,
                  q: seq<Node>, i: nat)
    requires Placed(g, entry, exit, idom, h, p, start, end) && !Around(g, start, end, h)
    requires g.Path(q) && q[0] == entry && i < |q| && InLoop(g, h, p, q[i])
    ensures Open(q, i, start, end)
  {
    hide Placed, InLoop, Dom;
    PlacedFacts(g, entry, exit, idom, h, p, start, end);
    assert g.PathFromTo(q, entry, q[|q| - 1]);
    Prefix(g, q, entry, q[|q| - 1], i);
    var t := q[..i + 1];
    StartDominates(g, entry, exit, idom, h, p, start, end, q[i]);
    StartOnPath(g, entry, start, q[i], t);
    var j := LastOf(t, start);
    assert t[j + 1..] == q[j + 1..i + 1];
    if end in q[j + 1..i + 1] {
      var k :| j + 1 <= k < |t| && t[k] == end;
      Suffix(g, t, entry, q[i], k);
      assert start !in t[k..] by { assert t[k..] == t[j + 1..][k - j - 1..]; }
      HeaderAround(g, entry, exit, idom, h, p, start, end, q[i], t[k..]);
    }
  }

  lemma StartOnPath(g: Digraph, entry: Node, start: Node, v: Node, t: seq<Node>)
    requires SDom(g, entry, start, v) && g.PathFromTo(t, entry, v)
    ensures start in t[..|t| - 1]
  {
    assert t == t[..|t| - 1] + [v];
  }

  lemma HeaderAround(g: Digraph, entry: Node, exit: Node, idom: map<Node, Node>, h: Node, p: Node, start: Node,
                     end: Node, v: Node, t: seq<Node>)
    requires Placed(g, entry, exit, idom, h, p, start, end) && InLoop(g, h, p, v) && g.PathFromTo(t, end, v)
    requires start !in t
    ensures Around(g, start, end, h)
  {
    PlacedFacts(g, entry, exit, idom, h, p, start, end);
    StartIsReached(g, entry, exit, idom, h, p, start, end);
    StartOutside(g, entry, exit, idom, h, p, start, end);
    hide Placed, InLoop;
    assert v in g.succ by { assert g.Reaches(end, v); g.ReachesIsNode(end, v); }
    var r := BackToHeader(g, h, p, v);
    var z := Join(g, t, end, v, r, h);
  }

  lemma StartIsReached(g: Digraph, entry: Node, exit: Node, idom: map<Node, Node>, h: Node, p: Node, start: Node,
                       end: Node)
    requires Placed(g, entry, exit, idom, h, p, start, end)
    ensures g.Reaches(entry, start)
  {
    PlacedFacts(g, entry, exit, idom, h, p, start, end);
    hide Placed;
    var t := g.PathOf(entry, h);
    var i :| 0 <= i < |t| && t[i] == start;
    Prefix(g, t, entry, h, i);
  }
}
