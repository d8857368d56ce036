/** The priority queue that both implementations refine, and why they are interchangeable. */
module AbstractQueue {
  import opened ContextValues
  import opened OrderedList

  /** `t` is `s` with `c` added. */
  ghost predicate Inserted(s: seq<Ctx>, c: Ctx, t: seq<Ctx>) {
    multiset(t) == multiset(s) + multiset{c}
  }

  /** `t` is `s` without `c`, and nobody in `s` outranked `c`. */
  ghost predicate Removed(k: Key, s: seq<Ctx>, c: Ctx, t: seq<Ctx>) {
    c in s && (forall d :: d in s ==> !Outranks(k, d, c)) && multiset(t) == multiset(s) - multiset{c}
  }

  /** The sorted list is such a queue. */
  lemma ListRefines(k: Key, s: seq<Ctx>, c: Ctx)
    requires Sorted(k, s)
    ensures Sorted(k, Insert(k, s, c)) && Inserted(s, c, Insert(k, s, c))
    ensures s != [] ==> Sorted(k, s[1..]) && Removed(k, s, s[0], s[1..])
  {
    InsertSorted(k, s, c);
    InsertMembers(k, s, c);
    if s != [] {
      assert s == [s[0]] + s[1..];
      forall d | d in s
        ensures !Outranks(k, d, s[0])
      {
        var i :| 0 <= i < |s| && s[i] == d;
        assert i > 0 ==> !Outranks(k, s[i], s[0]);
      }
    }
  }

  // ----- traces

  datatype Op = Put(c: Ctx) | Take

  /** One operation on a queue: what it returns and what the queue becomes. */
  ghost predicate OpOk(k: Key, op: Op, s: seq<Ctx>, out: Option<Ctx>, t: seq<Ctx>) {
    match op
    case Put(c) => out.None? && Inserted(s, c, t)
    case Take => out.Some? && Removed(k, s, out.value, t)
  }

  /** A queue that goes through `qs` and returns `outs` while it serves `ops`. */
  ghost predicate Serves(k: Key, ops: seq<Op>, qs: seq<seq<Ctx>>, outs: seq<Option<Ctx>>) {
    && |qs| == |ops| + 1 && |outs| == |ops|
    && forall i {:trigger ops[i]} :: 0 <= i < |ops| ==> OpOk(k, ops[i], qs[i], outs[i], qs[i + 1])
  }

  /** The two queues hold equally many elements of every priority. */
  ghost predicate SamePriorities(k: Key, s: seq<Ctx>, t: seq<Ctx>) {
    forall p: nat :: |WithPriority(k, s, p)| == |WithPriority(k, t, p)|
  }

  ghost predicate DistinctPriorities(k: Key, s: seq<Ctx>) {
    forall c, d :: c in s && d in s && GetPriority(k, c) == GetPriority(k, d) ==> c == d
  }

  ghost predicate SameRank(k: Key, a: Option<Ctx>, b: Option<Ctx>) {
    match a
    case None => b.None?
    case Some(c) => b.Some? && GetPriority(k, c) == GetPriority(k, b.value)
  }

  lemma WithPriorityLengths(k: Key, a: seq<Ctx>, c: Ctx, b: seq<Ctx>, p: nat)
    ensures |WithPriority(k, a + [c] + b, p)|
         == |WithPriority(k, a + b, p)| + (if GetPriority(k, c) == p then 1 else 0)
  {
    WithPriorityMiddle(k, a, c, b, p);
    WithPriorityConcat(k, a, b, p);
  }

  /** How many elements have a priority does not depend on their order. */
  lemma {:induction false} PermutationKeepsCount(k: Key, s: seq<Ctx>, t: seq<Ctx>, p: nat)
    requires multiset(s) == multiset(t)
    ensures |WithPriority(k, s, p)| == |WithPriority(k, t, p)|
  {
    if s == [] {
      assert |multiset(t)| == 0;
    } else {
      var c, rest := s[0], s[1..];
      var a, b := FirstOut(s, t);
      PermutationKeepsCount(k, rest, a + b, p);
      WithPriorityLengths(k, a, c, b, p);
      assert |WithPriority(k, s, p)| == |WithPriority(k, rest, p)| + (if GetPriority(k, c) == p then 1 else 0);
    }
  }

  /** The first element of a list can be taken out of any permutation of it. */
  lemma FirstOut<T>(s: seq<T>, t: seq<T>) returns (a: seq<T>, b: seq<T>)
    requires s != [] && multiset(s) == multiset(t)
    ensures t == a + [s[0]] + b && multiset(s[1..]) == multiset(a + b)
  {
    assert s == [s[0]] + s[1..];
    assert s[0] in multiset(t);
    var i :| 0 <= i < |t| && t[i] == s[0];
    a, b := t[..i], t[i + 1..];
    assert t == a + [s[0]] + b;
    Leftover(s[0], s[1..], a, b);
  }

  lemma Leftover<T>(c: T, s: seq<T>, a: seq<T>, b: seq<T>)
    requires multiset([c] + s) == multiset(a + [c] + b)
    ensures multiset(s) == multiset(a + b)
  {
    assert multiset(s) == multiset([c] + s) - multiset{c};
  }

  lemma CountAfterInsert(k: Key, s: seq<Ctx>, c: Ctx, t: seq<Ctx>, p: nat)
    requires Inserted(s, c, t)
    ensures |WithPriority(k, t, p)| == |WithPriority(k, s, p)| + (if GetPriority(k, c) == p then 1 else 0)
  {
    PermutationKeepsCount(k, t, s + [c], p);
    WithPriorityLengths(k, s, c, [], p);
    assert s + [] == s && s + [c] + [] == s + [c];
  }

  lemma CountAfterRemove(k: Key, s: seq<Ctx>, c: Ctx, t: seq<Ctx>, p: nat)
    requires Removed(k, s, c, t)
    ensures |WithPriority(k, s, p)| == |WithPriority(k, t, p)| + (if GetPriority(k, c) == p then 1 else 0)
  {
    CountAfterInsert(k, t, c, s, p);
  }

  /** Queues with the same priorities return elements of the same priority. */
  lemma SameTop(k: Key, s: seq<Ctx>, c: Ctx, s': seq<Ctx>, t: seq<Ctx>, d: Ctx, t': seq<Ctx>)
    requires SamePriorities(k, s, t) && Removed(k, s, c, s') && Removed(k, t, d, t')
    ensures GetPriority(k, c) == GetPriority(k, d)
  {
    var p, q := GetPriority(k, c), GetPriority(k, d);
    WithPriorityMembers(k, s, p);
    WithPriorityMembers(k, t, p);
    WithPriorityMembers(k, s, q);
    WithPriorityMembers(k, t, q);
    assert |WithPriority(k, t, p)| > 0 && |WithPriority(k, s, q)| > 0;
    var x, y := WithPriority(k, t, p)[0], WithPriority(k, s, q)[0];
    assert x in t && y in s;
  }

  lemma SameStep(k: Key, op: Op, s: seq<Ctx>, o: Option<Ctx>, s': seq<Ctx>,
                 t: seq<Ctx>, u: Option<Ctx>, t': seq<Ctx>)
    requires SamePriorities(k, s, t) && OpOk(k, op, s, o, s') && OpOk(k, op, t, u, t')
    ensures SameRank(k, o, u) && SamePriorities(k, s', t')
  {
    if op.Take? {
      SameTop(k, s, o.value, s', t, u.value, t');
    }
    forall p: nat
      ensures |WithPriority(k, s', p)| == |WithPriority(k, t', p)|
    {
      match op
      case Put(c) =>
        CountAfterInsert(k, s, c, s', p);
        CountAfterInsert(k, t, c, t', p);
      case Take =>
        CountAfterRemove(k, s, o.value, s', p);
        CountAfterRemove(k, t, u.value, t', p);
    }
  }

  /** Any two queues that start with the same priorities and serve the same operations return
      the same sequence of priorities. */
  lemma {:induction false} Interchangeable(k: Key, ops: seq<Op>, qs: seq<seq<Ctx>>, outs: seq<Option<Ctx>>,
                                           qs': seq<seq<Ctx>>, outs': seq<Option<Ctx>>, n: nat)
    requires Serves(k, ops, qs, outs) && Serves(k, ops, qs', outs') && SamePriorities(k, qs[0], qs'[0])
    requires n <= |ops|
    ensures SamePriorities(k, qs[n], qs'[n])
    ensures forall i :: 0 <= i < n ==> SameRank(k, outs[i], outs'[i])
  {
    if n > 0 {
      Interchangeable(k, ops, qs, outs, qs', outs', n - 1);
      var i := n - 1;
      assert OpOk(k, ops[i], qs[i], outs[i], qs[i + 1]) && OpOk(k, ops[i], qs'[i], outs'[i], qs'[i + 1]);
      SameStep(k, ops[i], qs[i], outs[i], qs[i + 1], qs'[i], outs'[i], qs'[i + 1]);
    }
  }

  /** If moreover no two queued elements ever have the same priority, they return the same elements. */
  lemma {:induction false} SameElements(k: Key, ops: seq<Op>, qs: seq<seq<Ctx>>, outs: seq<Option<Ctx>>,
                                        qs': seq<seq<Ctx>>, outs': seq<Option<Ctx>>, n: nat)
    requires Serves(k, ops, qs, outs) && Serves(k, ops, qs', outs') && multiset(qs[0]) == multiset(qs'[0])
    requires forall i :: 0 <= i < |qs| ==> DistinctPriorities(k, qs[i])
    requires n <= |ops|
    ensures multiset(qs[n]) == multiset(qs'[n])
    ensures forall i :: 0 <= i < n ==> outs[i] == outs'[i]
  {
    if n > 0 {
      SameElements(k, ops, qs, outs, qs', outs', n - 1);
      var i := n - 1;
      assert OpOk(k, ops[i], qs[i], outs[i], qs[i + 1]) && OpOk(k, ops[i], qs'[i], outs'[i], qs'[i + 1]);
      if ops[i].Take? {
        SameTaken(k, qs[i], outs[i].value, qs[i + 1], qs'[i], outs'[i].value, qs'[i + 1]);
      }
    }
  }

  lemma SameTaken(k: Key, s: seq<Ctx>, c: Ctx, s': seq<Ctx>, t: seq<Ctx>, d: Ctx, t': seq<Ctx>)
    requires multiset(s) == multiset(t) && DistinctPriorities(k, s)
    requires Removed(k, s, c, s') && Removed(k, t, d, t')
    ensures c == d
  {
    assert d in multiset(t) && c in multiset(s);
    assert d in s && c in t;
  }
}
