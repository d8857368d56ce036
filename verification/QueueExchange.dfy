/** The heap in place of the list: whatever the operations, it returns the priorities that the
    sorted list returns, and the same contexts as long as queued priorities are distinct. */
module QueueExchange {
  import opened ContextValues
  import opened OrderedList
  import opened AbstractQueue
  import opened ListQueues
  import opened HeapQueues

  /** The sorted list after some operations on an empty one. */
  function ListAfter(k: Key, ops: seq<Op>): seq<Ctx> {
    if ops == [] then []
    else
      var s := ListAfter(k, ops[..|ops| - 1]);
      match ops[|ops| - 1]
      case Put(c) => Insert(k, s, c)
      case Take => if s == [] then [] else s[1..]
  }

  /** What the list returns for operation `i`. */
  function ListOut(k: Key, ops: seq<Op>, i: nat): Option<Ctx>
    requires i < |ops|
  {
    var s := ListAfter(k, ops[..i]);
    if ops[i].Take? && s != [] then Some(s[0]) else None
  }

  /** Nothing is taken from an empty queue. */
  ghost predicate Legal(k: Key, ops: seq<Op>) {
    forall i :: 0 <= i < |ops| && ops[i].Take? ==> ListAfter(k, ops[..i]) != []
  }

  lemma {:induction false} ListAfterSorted(k: Key, ops: seq<Op>)
    ensures Sorted(k, ListAfter(k, ops))
  {
    if ops != [] {
      var s := ListAfter(k, ops[..|ops| - 1]);
      ListAfterSorted(k, ops[..|ops| - 1]);
      if ops[|ops| - 1].Put? {
        InsertSorted(k, s, ops[|ops| - 1].c);
      }
    }
  }

  lemma ListAfterOne(k: Key, ops: seq<Op>, n: nat)
    requires n < |ops|
    ensures ListAfter(k, ops[..n + 1])
         == match ops[n]
            case Put(c) => Insert(k, ListAfter(k, ops[..n]), c)
            case Take => if ListAfter(k, ops[..n]) == [] then [] else ListAfter(k, ops[..n])[1..]
  {
    assert ops[..n + 1][..n] == ops[..n];
  }

  /** One operation of the list, as an operation of the abstract queue. */
  lemma ListStep(k: Key, ops: seq<Op>, n: nat)
    requires n < |ops| && Legal(k, ops)
    ensures OpOk(k, ops[n], ListAfter(k, ops[..n]), ListOut(k, ops, n), ListAfter(k, ops[..n + 1]))
  {
    ListAfterOne(k, ops, n);
    ListAfterSorted(k, ops[..n]);
    var s := ListAfter(k, ops[..n]);
    match ops[n]
    case Put(c) => ListRefines(k, s, c);
    case Take => ListRefines(k, s, s[0]);
  }

  /** The list serves every legal sequence of operations. */
  lemma ListServes(k: Key, ops: seq<Op>) returns (qs: seq<seq<Ctx>>, outs: seq<Option<Ctx>>)
    requires Legal(k, ops)
    ensures Serves(k, ops, qs, outs)
    ensures forall i :: 0 <= i <= |ops| ==> qs[i] == ListAfter(k, ops[..i])
    ensures forall i :: 0 <= i < |ops| ==> outs[i] == ListOut(k, ops, i)
  {
    qs := seq(|ops| + 1, i requires 0 <= i <= |ops| => ListAfter(k, ops[..i]));
    outs := seq(|ops|, i requires 0 <= i < |ops| => ListOut(k, ops, i));
    forall i | 0 <= i < |ops|
      ensures OpOk(k, ops[i], qs[i], outs[i], qs[i + 1])
    {
      ListStep(k, ops, i);
    }
  }

  /** Any queue that starts empty and serves the operations returns what the list returns: the
      same priorities, and the same elements if queued priorities are always distinct. */
  lemma ServesLikeList(k: Key, ops: seq<Op>, qs: seq<seq<Ctx>>, outs: seq<Option<Ctx>>)
    requires Legal(k, ops) && Serves(k, ops, qs, outs) && qs[0] == []
    ensures forall i :: 0 <= i < |ops| ==> SameRank(k, outs[i], ListOut(k, ops, i))
    ensures (forall n :: 0 <= n <= |ops| ==> DistinctPriorities(k, ListAfter(k, ops[..n]))) ==>
              forall i :: 0 <= i < |ops| ==> outs[i] == ListOut(k, ops, i)
  {
    var ls, us := ListServes(k, ops);
    assert ls[0] == ListAfter(k, ops[..0]) == [];
    Interchangeable(k, ops, qs, outs, ls, us, |ops|);
    if forall n :: 0 <= n <= |ops| ==> DistinctPriorities(k, ListAfter(k, ops[..n])) {
      forall i | 0 <= i < |ls|
        ensures DistinctPriorities(k, ls[i])
      {
        assert ls[i] == ListAfter(k, ops[..i]);
      }
      SameElements(k, ops, ls, us, qs, outs, |ops|);
    }
  }

  // ----- the heap at work

  /** A heap with room for all operations, as many of which are done as `n` says. */
  ghost predicate InStep(heap: HeapQueue, ops: seq<Op>, n: nat)
    reads heap, heap.elements, heap.elements[..]
  {
    && heap.Valid() && n <= |ops| == heap.elements.Length
    && heap.size == |ListAfter(heap.key, ops[..n])| <= n
  }

  /** Serves the operations with an array heap: it goes through the states `qs` of a priority
      queue and returns what the sorted list returns. */
  method ServeByHeap(k: Key, ops: seq<Op>) returns (outs: seq<Option<Ctx>>, ghost qs: seq<seq<Ctx>>)
    requires Legal(k, ops)
    ensures Serves(k, ops, qs, outs) && qs[0] == []
    ensures forall i :: 0 <= i < |ops| ==> SameRank(k, outs[i], ListOut(k, ops, i))
    ensures (forall n :: 0 <= n <= |ops| ==> DistinctPriorities(k, ListAfter(k, ops[..n]))) ==>
              forall i :: 0 <= i < |ops| ==> outs[i] == ListOut(k, ops, i)
  {
    var idle := new Context(Idle);
    var elements := new Context[|ops|](_ => idle);
    var heap := new HeapQueue(k, elements);
    outs, qs := [], [heap.Contents()];
    for n := 0 to |ops|
      invariant fresh(heap) && fresh(heap.elements) && heap.key == k && InStep(heap, ops, n)
      invariant Serves(k, ops[..n], qs, outs) && qs[0] == [] && qs[n] == heap.Contents()
    {
      var out := ServeOne(heap, ops, n);
      ServesOneMore(k, ops, n, qs, outs, out, heap.Contents());
      outs, qs := outs + [out], qs + [heap.Contents()];
    }
    assert ops[..|ops|] == ops;
    ServesLikeList(k, ops, qs, outs);
  }

  lemma ServesOneMore(k: Key, ops: seq<Op>, n: nat, qs: seq<seq<Ctx>>, outs: seq<Option<Ctx>>,
                      out: Option<Ctx>, q: seq<Ctx>)
    requires n < |ops| && Serves(k, ops[..n], qs, outs) && OpOk(k, ops[n], qs[n], out, q)
    ensures Serves(k, ops[..n + 1], qs + [q], outs + [out])
  {
    forall i | 0 <= i < n + 1
      ensures OpOk(k, ops[..n + 1][i], (qs + [q])[i], (outs + [out])[i], (qs + [q])[i + 1])
    {
      assert i < n ==> OpOk(k, ops[..n][i], qs[i], outs[i], qs[i + 1]);
    }
  }

  method ServeOne(heap: HeapQueue, ops: seq<Op>, n: nat) returns (out: Option<Ctx>)
    requires n < |ops| && InStep(heap, ops, n) && Legal(heap.key, ops)
    modifies heap, heap.elements
    ensures InStep(heap, ops, n + 1)
    ensures OpOk(heap.key, ops[n], old(heap.Contents()), out, heap.Contents())
  {
    ListLength(heap.key, ops, n);
    out := HeapDo(heap, ops[n]);
  }

  lemma ListLength(k: Key, ops: seq<Op>, n: nat)
    requires n < |ops| && Legal(k, ops)
    ensures |ListAfter(k, ops[..n + 1])| == |ListAfter(k, ops[..n])| + (if ops[n].Put? then 1 else -1)
  {
    ListAfterOne(k, ops, n);
    if ops[n].Put? {
      InsertMembers(k, ListAfter(k, ops[..n]), ops[n].c);
    }
  }

  /** One operation of the heap, as an operation of the abstract queue. */
  method HeapDo(heap: HeapQueue, op: Op) returns (out: Option<Ctx>)
    requires heap.Valid() && (if op.Put? then heap.size < heap.elements.Length else heap.size > 0)
    modifies heap, heap.elements
    ensures heap.Valid() && OpOk(heap.key, op, old(heap.Contents()), out, heap.Contents())
    ensures heap.size == old(heap.size) + (if op.Put? then 1 else -1)
  {
    ghost var q := heap.Queued();
    match op {
      case Put(c) =>
        var elt := NewContext(c);
        ValsSame(q);
        var ok := heap.Insert(elt);
        out := None;
      case Take =>
        var elt := heap.Remove();
        out := Some(elt.Val());
    }
  }

  /** A context object with the given value. */
  method NewContext(c: Ctx) returns (ctx: Context)
    ensures fresh(ctx) && ctx.Val() == c
  {
    ctx := new Context(c.id);
    ctx.wakeup, ctx.deadline, ctx.priority, ctx.range := c.wakeup, c.deadline, c.priority, c.range;
  }
}
