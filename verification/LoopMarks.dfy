/** The marks that placing transactions leaves behind, over any sequence of loops. */
module LoopMarks {
  import opened Digraphs

  /** Slice numbers that mark the nodes behind which a transaction starts. */
  const STARTED: nat := 888

  /** The slice numbers of blocks and of their last nodes, and the blocks at whose end a
      start and at whose front an end was inserted, in this order. */
  datatype Marks = Marks(blockSlice: map<Node, nat>, lastSlice: map<Node, nat>, starts: seq<Node>, ends: seq<Node>)
  {
    function Block(v: Node): nat { if v in blockSlice then blockSlice[v] else 0 }

    function Last(v: Node): nat { if v in lastSlice then lastSlice[v] else 0 }
  }

  /** A loop that is to be wrapped: its pre-header, and what its transaction is placed with. */
  datatype Request = Request(start: Node, sliceId: nat, nothingToLoad: bool)

  ghost predicate Refused(m: Marks, r: Request) { m.Last(r.start) == STARTED || r.nothingToLoad }

  /** Placing the transaction of r, which ends at `end`, turns m into t. */
  ghost predicate Step(m: Marks, r: Request, end: Node, t: Marks) {
    if Refused(m, r) then t == m
    else
      && t.starts == m.starts + [r.start] && t.ends == (if m.Block(end) != r.sliceId then m.ends + [end] else m.ends)
      && (forall v :: t.Last(v) == if v == r.start then STARTED else m.Last(v))
      && (forall v :: t.Block(v) == if v == end then r.sliceId else m.Block(v))
  }

  ghost predicate NoRepeats(s: seq<Node>) { forall i, j :: 0 <= i < j < |s| ==> s[i] != s[j] }

  /** The marks before and after each of the requests. */
  ghost predicate Steps(ms: seq<Marks>, rs: seq<Request>, ends: seq<Node>) {
    |ms| == |rs| + 1 && |ends| == |rs| && forall i :: 0 <= i < |rs| ==> Step(ms[i], rs[i], ends[i], ms[i + 1])
  }

  /** Some of the first k requests asks for a transaction behind v. */
  ghost predicate Wanted(rs: seq<Request>, k: nat, v: Node) {
    exists i :: 0 <= i < k && i < |rs| && rs[i].start == v && !rs[i].nothingToLoad
  }

  lemma AppendNoRepeats(s: seq<Node>, v: Node)
    requires NoRepeats(s) && v !in s
    ensures NoRepeats(s + [v])
  {
  }

  lemma WantedStep(rs: seq<Request>, k: nat, v: Node)
    requires k < |rs|
    ensures Wanted(rs, k + 1, v) <==> Wanted(rs, k, v) || (rs[k].start == v && !rs[k].nothingToLoad)
  {
  }

  /** Whatever loops are wrapped one after the other: a pre-header is given one start if some
      loop asks for it, unless it was marked before, and no other block is given one. */
  lemma {:induction false} StartsOnce(ms: seq<Marks>, rs: seq<Request>, ends: seq<Node>, k: nat)
    requires Steps(ms, rs, ends) && k < |ms| && ms[0].starts == []
    ensures NoRepeats(ms[k].starts)
    ensures forall v :: v in ms[k].starts <==> Wanted(rs, k, v) && ms[0].Last(v) != STARTED
    ensures forall v :: ms[k].Last(v) == if v in ms[k].starts then STARTED else ms[0].Last(v)
  {
    if k > 0 {
      StartsOnce(ms, rs, ends, k - 1);
      assert Step(ms[k - 1], rs[k - 1], ends[k - 1], ms[k - 1 + 1]);
      forall v
        ensures Wanted(rs, k, v) <==> Wanted(rs, k - 1, v) || (rs[k - 1].start == v && !rs[k - 1].nothingToLoad)
      {
        WantedStep(rs, k - 1, v);
      }
      hide Wanted;
      if !Refused(ms[k - 1], rs[k - 1]) { AppendNoRepeats(ms[k - 1].starts, rs[k - 1].start); }
    }
  }

  /** With one slice number for all loops no block is given two ends, and it bears the number. */
  lemma {:induction false} EndsOnce(ms: seq<Marks>, rs: seq<Request>, ends: seq<Node>, sliceId: nat, k: nat)
    requires Steps(ms, rs, ends) && k < |ms| && ms[0].ends == [] && forall r :: r in rs ==> r.sliceId == sliceId
    ensures NoRepeats(ms[k].ends) && forall v :: v in ms[k].ends ==> ms[k].Block(v) == sliceId
    ensures forall v :: ms[k].Block(v) == sliceId ==> v in ms[k].ends || ms[0].Block(v) == sliceId
  {
    if k > 0 {
      EndsOnce(ms, rs, ends, sliceId, k - 1);
      assert Step(ms[k - 1], rs[k - 1], ends[k - 1], ms[k - 1 + 1]) && rs[k - 1] in rs;
      if ms[k].ends != ms[k - 1].ends { AppendNoRepeats(ms[k - 1].ends, ends[k - 1]); }
    }
  }
}
