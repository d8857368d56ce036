/** The round-robin scheduler: one circular intrusive list through all the live contexts. */
module RoundRobin {
  import opened ContextValues
  import opened ListQueues
  import opened KernelSpec

  // ----- the ring as a value, listed from the current context on

  function Rotate<T>(s: seq<T>): seq<T>
    requires s != []
  {
    s[1..] + [s[0]]
  }

  /** A new member comes right after the current one. */
  function Spawn<T>(s: seq<T>, x: T): seq<T>
    requires s != []
  {
    [s[0], x] + s[1..]
  }

  datatype RingOp<T> = Choose | New(x: T)

  function After<T>(s: seq<T>, ops: seq<RingOp<T>>): (t: seq<T>)
    requires s != []
    ensures t != []
    decreases ops
  {
    if ops == [] then s
    else After(if ops[0].Choose? then Rotate(s) else Spawn(s, ops[0].x), ops[1..])
  }

  lemma {:induction false} AfterOne<T>(s: seq<T>, ops: seq<RingOp<T>>, op: RingOp<T>)
    requires s != []
    ensures After(s, ops + [op])
         == if op.Choose? then Rotate(After(s, ops)) else Spawn(After(s, ops), op.x)
    ensures Choices(ops + [op]) == Choices(ops) + (if op.Choose? then 1 else 0)
    decreases ops
  {
    if ops == [] {
      assert ops + [op] == [op];
    } else {
      assert (ops + [op])[1..] == ops[1..] + [op];
      AfterOne(if ops[0].Choose? then Rotate(s) else Spawn(s, ops[0].x), ops[1..], op);
    }
  }

  function Turns<T>(n: nat): seq<RingOp<T>> {
    seq(n, _ => Choose)
  }

  /** The k-th of consecutive choices is the member k places further round the ring. */
  lemma {:induction false} TurnsAt<T>(s: seq<T>, k: nat)
    requires s != [] && k <= |s|
    ensures After(s, Turns(k)) == Turned(s, k)
    decreases k
  {
    if k > 0 {
      TurnsAt(Rotate(s), k - 1);
      assert Turns<T>(k)[1..] == Turns<T>(k - 1);
      var r := Rotate(s);
      assert Turned(r, k - 1) == Turned(s, k);
    }
  }

  /** Who is chosen by the k-th of consecutive choices. */
  function Choice<T>(s: seq<T>, k: nat): T
    requires s != []
  {
    After(s, Turns(k))[0]
  }

  /** As many consecutive choices as there are members return every member exactly once, the
      current one last, and lead back to the same ring. */
  lemma FullRound<T>(s: seq<T>)
    requires s != [] && forall i, j :: 0 <= i < j < |s| ==> s[i] != s[j]
    ensures forall x :: x in s ==> exists k :: 1 <= k <= |s| && Choice(s, k) == x
    ensures forall k, l :: 1 <= k < l <= |s| ==> Choice(s, k) != Choice(s, l)
    ensures forall k :: 1 <= k <= |s| ==> Choice(s, k) in s
    ensures After(s, Turns(|s|)) == s
  {
    forall k | 1 <= k <= |s|
      ensures Choice(s, k) == s[if k == |s| then 0 else k]
    {
      TurnsAt(s, k);
    }
    TurnsAt(s, |s|);
    forall x | x in s
      ensures exists k :: 1 <= k <= |s| && Choice(s, k) == x
    {
      var i :| 0 <= i < |s| && s[i] == x;
      assert Choice(s, if i == 0 then |s| else i) == x;
    }
  }

  function Choices<T>(ops: seq<RingOp<T>>): nat {
    if ops == [] then 0 else (if ops[0].Choose? then 1 else 0) + Choices(ops[1..])
  }

  /** Nobody starves, even while contexts are created: a member i places away becomes current
      within i choices plus one more for every context created meanwhile. */
  lemma {:induction false} NobodyStarves<T>(s: seq<T>, ops: seq<RingOp<T>>, i: nat)
    requires i < |s| && Choices(ops) >= i + (|ops| - Choices(ops))
    ensures exists n: nat :: n <= |ops| && After(s, ops[..n])[0] == s[i]
    decreases ops
  {
    if i == 0 {
      assert ops[..0] == [];
      assert After(s, ops[..0])[0] == s[0];
    } else {
      ChoicesBound(ops[1..]);
      var choose := ops[0].Choose?;
      var t := if choose then Rotate(s) else Spawn(s, ops[0].x);
      var j := if choose then i - 1 else i + 1;
      assert t[j] == s[i];
      NobodyStarves(t, ops[1..], j);
      var n: nat :| n <= |ops[1..]| && After(t, ops[1..][..n])[0] == t[j];
      assert ops[..n + 1][1..] == ops[1..][..n];
      assert After(s, ops[..n + 1]) == After(t, ops[1..][..n]);
    }
  }

  lemma {:induction false} ChoicesBound<T>(ops: seq<RingOp<T>>)
    ensures Choices(ops) <= |ops|
  {
    if ops != [] {
      ChoicesBound(ops[1..]);
    }
  }

  /** The ring after `k` choices, at most once round. */
  function Turned<T>(s: seq<T>, k: nat): seq<T>
    requires k <= |s|
  {
    s[k..] + s[..k]
  }

  lemma TurnedOne<T>(s: seq<T>, k: nat)
    requires k < |s|
    ensures Turned(s, k) != [] && Rotate(Turned(s, k)) == Turned(s, k + 1)
    ensures Turned(s, k + 1)[0] == Rotate(s)[k] && Rotate(s)[..k + 1] == Rotate(s)[..k] + [Rotate(s)[k]]
  {
  }

  // ----- the objects

  /** The links of one cycle through `s` in order. */
  ghost predicate Cycle(s: seq<Context>)
    reads s
  {
    forall i {:trigger s[i].next} :: 0 <= i < |s| ==> s[i].next == if i + 1 < |s| then s[i + 1] else s[0]
  }

  class Scheduler {
    const tasks: seq<Context>
    const slots: seq<Context>
    var current: Context
    var idxReserve: nat
    var halted: Option<HaltReason>
    const dynamic: bool
    ghost var ring: seq<Context>
    /** The choices and creations so far. */
    ghost var ops: seq<RingOp<Context>>

    /** The sequence holds exactly the live contexts when the slots from `first` on are handed
        out, and each of them has the range it was booted with. */
    ghost predicate Members(s: seq<Context>, first: nat)
      reads s`range
    {
      && (forall c :: c in s ==> LiveContext(c, tasks, slots, first) && c.range == Range())
      && (forall i :: 0 <= i < |tasks| ==> tasks[i] in s)
      && (forall j :: first <= j < |slots| ==> slots[j] in s)
    }

    function Range(): nat {
      if dynamic then INITIAL_RANGE else 0
    }

    /** One cycle, starting at the current context, through exactly the live contexts. */
    ghost predicate Valid()
      reads this, ring
    {
      && Named(tasks, slots) && idxReserve <= RESERVE_SIZE == |slots|
      && tasks != [] && ring == After(tasks, ops) && ring[0] == current
      && |ops| == Choices(ops) + (RESERVE_SIZE - idxReserve)
      && Distinct(ring) && Cycle(ring) && Members(ring, idxReserve)
    }

    /** Links the initialised contexts. There is at least one task: the source reads the last one. */
    constructor (tasks: seq<Context>, slots: seq<Context>, dynamic: bool)
      requires forall i :: 0 <= i < |tasks| ==> tasks[i].range == if dynamic then INITIAL_RANGE else 0
      requires |tasks| > 0 && |slots| == RESERVE_SIZE
      requires Named(tasks, slots)
      modifies tasks
      ensures Valid() && ring == tasks && halted.None? && idxReserve == RESERVE_SIZE
      ensures this.tasks == tasks && this.slots == slots && this.dynamic == dynamic && ops == []
    {
      this.tasks, this.slots, this.dynamic, ops := tasks, slots, dynamic, [];
      idxReserve, halted := RESERVE_SIZE, None;
      current, ring := tasks[0], tasks;
      new;
      LinkTasks();
    }

    method LinkTasks()
      requires tasks != [] && Named(tasks, slots)
      modifies tasks`next
      ensures Cycle(tasks)
    {
      var prev := tasks[|tasks| - 1];
      for i := 0 to |tasks|
        invariant prev == tasks[if i == 0 then |tasks| - 1 else i - 1]
        invariant i > 0 ==> tasks[|tasks| - 1].next == tasks[0]
        invariant forall j :: 0 <= j < i - 1 ==> tasks[j].next == tasks[j + 1]
      {
        prev.next := tasks[i];
        prev := tasks[i];
      }
    }

    /** Yielding, like booting, moves on to the next context of the ring. */
    method ChooseNext() returns (c: Context)
      requires Valid()
      modifies this`current, this`ring, this`ops
      ensures Valid() && c == current == old(current).next && ops == old(ops) + [Choose]
      ensures ring == Rotate(old(ring)) == old(ring)[1..] + [old(ring)[0]]
    {
      assert ring[0].next == if 1 < |ring| then ring[1] else ring[0];
      current := current.next;
      RotateCycle(ring);
      ring := Rotate(ring);
      c := current;
      AfterOne(tasks, ops, Choose);
      ops := ops + [Choose];
    }

    /** As many yields in a row as there are live contexts: each of them is chosen once, the
        current one last, and the ring is as before. */
    method Round(n: nat) returns (chosen: seq<Context>)
      requires Valid() && n == |ring|
      modifies this`current, this`ring, this`ops
      ensures Valid() && current == old(current) && ring == old(ring) && idxReserve == old(idxReserve)
      ensures |chosen| == n && Distinct(chosen) && forall c :: c in chosen <==> c in ring
      ensures forall i :: 0 <= i < |tasks| ==> tasks[i] in chosen
      ensures forall j :: idxReserve <= j < |slots| ==> slots[j] in chosen
      ensures chosen[n - 1] == current
    {
      chosen := TurnAll(n);
      RotateCycle(ring);
    }

    method TurnAll(n: nat) returns (chosen: seq<Context>)
      requires Valid() && n == |ring|
      modifies this`current, this`ring, this`ops
      ensures Valid() && ring == old(ring) && chosen == Rotate(ring)
    {
      ghost var r := ring;
      chosen := [];
      for k := 0 to n
        invariant Valid() && ring == Turned(r, k) && chosen == Rotate(r)[..k]
      {
        TurnedOne(r, k);
        var c := ChooseNext();
        chosen := chosen + [c];
      }
    }

    /** The current context duplicates itself into the next reserve slot. It is refused only
        when creation is not compiled in or the reserve is empty; the assertion on the links,
        made after the copy, never fails. */
    method DupThread()
      requires Valid() && halted.None?
      modifies this, ring, slots
      ensures Valid() && current == old(current)
      ensures if !dynamic then halted == Some(NoDynamicCreation) && ring == old(ring) && idxReserve == old(idxReserve)
              else if old(idxReserve) == 0 then halted == Some(NoReserve) && ring == old(ring) && idxReserve == 0
              else
                && halted.None? && idxReserve == old(idxReserve) - 1
                && ring == Spawn(old(ring), slots[idxReserve]) && ops == old(ops) + [New(slots[idxReserve])]
                && current.next == slots[idxReserve] && slots[idxReserve].next == old(current.next)
                && slots[idxReserve].Val() == old(current.Val()).(id := Reserve(idxReserve))
                && current.Val() == old(current.Val())
    {
      assert current in ring;
      if !dynamic {
        halted := Some(NoDynamicCreation);
      } else if current.range == 0 {
        assert false;
      } else if idxReserve == 0 {
        halted := Some(NoReserve);
      } else {
        Duplicate(slots[idxReserve - 1]);
      }
    }

    method Duplicate(c: Context)
      requires Valid() && idxReserve > 0 && c == slots[idxReserve - 1]
      modifies current`next, this`ring, this`ops, this`idxReserve, c
      ensures Valid() && idxReserve == old(idxReserve) - 1
      ensures ring == Spawn(old(ring), c) && ops == old(ops) + [New(c)]
      ensures c.Val() == current.Val().(id := c.id) && current.Val() == old(current.Val())
      ensures current.next == c && c.next == old(current.next)
    {
      CopyToSlot(c);
      InsertDuplicated(current, c);
    }

    /** The slot becomes a copy of the current context, link included. */
    method CopyToSlot(c: Context)
      requires Valid() && idxReserve > 0 && c == slots[idxReserve - 1]
      modifies c
      ensures Valid() && c !in ring && c.next == current.next && c.Val() == current.Val().(id := c.id)
    {
      assert c !in ring;
      c.wakeup, c.deadline, c.priority := current.wakeup, current.deadline, current.priority;
      c.range, c.next := current.range, current.next;
      assert Cycle(ring) by {
        forall i | 0 <= i < |ring|
          ensures ring[i].next == if i + 1 < |ring| then ring[i + 1] else ring[0]
        {
          assert ring[i].next == old(ring[i].next);
        }
      }
    }

    lemma MembersSpawn(s: seq<Context>, c: Context, first: nat)
      requires s != [] && Named(tasks, slots) && first < |slots| && c == slots[first]
      requires Members(s, first + 1) && c.range == Range()
      ensures Members(Spawn(s, c), first)
    {
      SpawnMembers(s, c);
      var t := Spawn(s, c);
      forall j | first <= j < |slots|
        ensures slots[j] in t
      {
        if j > first {
          assert slots[j] in s;
        }
      }
    }

    method Splice(orig: Context, c: Context)
      requires ring != [] && orig == ring[0] && Distinct(ring) && Cycle(ring) && c !in ring && c.next == orig.next
      modifies orig`next
      ensures Distinct(Spawn(ring, c)) && Cycle(Spawn(ring, c)) && orig.next == c
    {
      assert ring[0].next == if 1 < |ring| then ring[1] else ring[0];
      orig.next := c;
      SpliceCycle(ring, c);
    }

    /** Splices the copy in after the original, and counts the slot as handed out. */
    method InsertDuplicated(orig: Context, c: Context)
      requires Valid() && orig == current && idxReserve > 0 && c == slots[idxReserve - 1]
      requires c !in ring && orig.next == c.next && c.range == orig.range
      modifies orig`next, this`ring, this`ops, this`idxReserve
      ensures Valid() && idxReserve == old(idxReserve) - 1
      ensures ring == Spawn(old(ring), c) && ops == old(ops) + [New(c)] && orig.next == c
    {
      ghost var r := Spawn(ring, c);
      Splice(orig, c);
      MembersSpawn(ring, c, idxReserve - 1);
      AfterOne(tasks, ops, New(c));
      ring, ops, idxReserve := r, ops + [New(c)], idxReserve - 1;
    }
  }

  lemma SpliceCycle(s: seq<Context>, c: Context)
    requires s != [] && Distinct(s) && c !in s
    requires s[0].next == c && c.next == if 1 < |s| then s[1] else s[0]
    requires forall i {:trigger s[i].next} :: 1 <= i < |s| ==> s[i].next == if i + 1 < |s| then s[i + 1] else s[0]
    ensures Distinct(Spawn(s, c)) && Cycle(Spawn(s, c))
  {
  }

  lemma SpawnMembers(s: seq<Context>, c: Context)
    requires s != []
    ensures forall x :: x in Spawn(s, c) <==> x == c || x in s
  {
  }

  lemma RotateCycle(s: seq<Context>)
    requires s != [] && Distinct(s) && Cycle(s)
    ensures Distinct(Rotate(s)) && Cycle(Rotate(s))
    ensures forall x :: x in Rotate(s) <==> x in s
  {
  }
}
