/** A queue that takes every element only once. */
module SetQueues {
  import opened Digraphs
  import opened CDGraphs

  datatype SetQueue = SetQueue(queued: set<Node>, queue: seq<Node>)
  {
    ghost predicate Valid() { NoDuplicates(queue) && forall v :: v in queue ==> v in queued }

    /** The elements that were popped. */
    ghost function Done(): set<Node> { set v | v in queued && v !in queue }

    function Push(v: Node): SetQueue {
      if v in queued then this else SetQueue(queued + {v}, queue + [v])
    }

    lemma PushKeeps(v: Node)
      requires Valid()
      ensures Push(v).Valid() && Push(v).queued == queued + {v} && Push(v).Done() == Done()
    {
    }

    function Pop(): SetQueue
      requires queue != []
    {
      SetQueue(queued, queue[..|queue| - 1])
    }

    lemma PopMoves()
      requires Valid() && queue != []
      ensures var v := queue[|queue| - 1];
        v in queued && v !in Done() && Pop().Valid() && Pop().queued == queued && Pop().Done() == Done() + {v}
    {
      var v := queue[|queue| - 1];
      assert queue == queue[..|queue| - 1] + [v];
    }

    /** The last element is popped first. */
    function Top(): Node
      requires queue != []
    {
      queue[|queue| - 1]
    }
  }

  method PushAll(q: SetQueue, vs: seq<Node>) returns (r: SetQueue)
    requires q.Valid()
    ensures r.Valid() && r.queued == q.queued + (set v | v in vs) && r.Done() == q.Done()
  {
    hide SetQueue.Valid, SetQueue.Done;
    r := q;
    var i := 0;
    while i < |vs|
      invariant i <= |vs| && r.Valid() && r.queued == q.queued + (set v | v in vs[..i]) && r.Done() == q.Done()
    {
      r.PushKeeps(vs[i]);
      assert vs[..i + 1] == vs[..i] + [vs[i]];
      r := r.Push(vs[i]);
      i := i + 1;
    }
    assert vs[..i] == vs;
  }
}
