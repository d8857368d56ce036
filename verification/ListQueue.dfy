/** Contexts as objects, and the priority queue as an intrusive sorted list: the links are the
    `next` fields of the queued contexts. */
module ListQueues {
  import opened ContextValues
  import opened OrderedList

  class Context {
    const id: CtxId
    var wakeup: u64
    var deadline: u64
    var priority: nat
    var range: nat
    var next: Context?

    constructor (id: CtxId)
      ensures this.id == id && wakeup == 0 && deadline == 0 && next == null
    {
      this.id := id;
      wakeup, deadline, priority, range, next := 0, 0, 0, 0, null;
    }

    function Val(): Ctx
      reads this`wakeup, this`deadline, this`priority, this`range
    {
      Ctx(id, wakeup, deadline, priority, range)
    }
  }

  ghost function Vals(s: seq<Context>): (v: seq<Ctx>)
    reads s
    ensures |v| == |s| && forall i :: 0 <= i < |s| ==> v[i] == s[i].Val()
  {
    seq(|s|, i requires 0 <= i < |s| reads s => s[i].Val())
  }

  /** Links are not part of the value of a context. */
  twostate lemma ValsSame(s: seq<Context>)
    requires forall c :: c in s ==> old(allocated(c)) && c.Val() == old(c.Val())
    ensures Vals(s) == old(Vals(s))
  {
  }

  lemma ValsSplice(s: seq<Context>, c: Context, i: nat)
    requires i <= |s|
    ensures Vals(s[..i] + [c] + s[i..]) == Vals(s)[..i] + [c.Val()] + Vals(s)[i..]
  {
  }

  lemma SpliceMembers(s: seq<Context>, c: Context, i: nat)
    requires i <= |s|
    ensures forall x :: x in s[..i] + [c] + s[i..] <==> x == c || x in s
  {
  }

  ghost predicate Distinct(s: seq<Context>) {
    forall i, j :: 0 <= i < j < |s| ==> s[i] != s[j]
  }

  /** The links of a null-terminated list that goes through `s` in order. */
  ghost predicate Linked(s: seq<Context>)
    reads s
  {
    forall i {:trigger s[i].next} :: 0 <= i < |s| ==> s[i].next == if i + 1 < |s| then s[i + 1] else null
  }

  /** The static contexts carry their names: task by task, and slot by slot. */
  ghost predicate Named(tasks: seq<Context>, slots: seq<Context>) {
    && (forall i :: 0 <= i < |tasks| ==> tasks[i].id == Task(i))
    && (forall j :: 0 <= j < |slots| ==> slots[j].id == Reserve(j))
  }

  /** A task context, or a reserve slot from `first` on: those are the slots handed out. */
  ghost predicate LiveContext(c: Context, tasks: seq<Context>, slots: seq<Context>, first: nat) {
    match c.id
    case Task(i) => i < |tasks| && tasks[i] == c
    case Reserve(j) => first <= j < |slots| && slots[j] == c
    case Idle => false
  }

  class ListQueue {
    const key: Key
    var size: nat
    var head: Context?
    ghost var contents: seq<Context>

    ghost predicate Valid()
      reads this, contents
    {
      && size == |contents|
      && head == (if contents == [] then null else contents[0])
      && Distinct(contents) && Linked(contents)
    }

    constructor (key: Key)
      ensures Valid() && contents == [] && this.key == key
    {
      this.key := key;
      size, head, contents := 0, null, [];
    }

    /** A queue stays valid as long as nobody writes to it or to the links of its contexts. */
    twostate lemma Undisturbed()
      requires old(Valid()) && unchanged(this)
      requires forall c :: c in contents ==> c.next == old(c.next)
      ensures Valid()
    {
    }

    /** Inserts before the first context that `elt` strictly outranks. */
    method Insert(elt: Context)
      requires Valid() && elt !in contents
      modifies this, contents`next, elt`next
      ensures Valid()
      ensures var p := InsertPos(key, old(Vals(contents)), elt.Val());
              contents == old(contents)[..p] + [elt] + old(contents)[p..]
      ensures Vals(contents) == OrderedList.Insert(key, old(Vals(contents)), elt.Val())
      ensures forall x :: x in contents <==> x == elt || x in old(contents)
    {
      var cur, prev: Context? := head, null;
      ghost var i := 0;
      while cur != null && !IsGtPriority(key, GetPriority(key, elt.Val()), GetPriority(key, cur.Val()))
        invariant 0 <= i <= |contents|
        invariant cur == if i < |contents| then contents[i] else null
        invariant prev == if i > 0 then contents[i - 1] else null
        invariant forall j :: 0 <= j < i ==> !Outranks(key, elt.Val(), contents[j].Val())
        decreases |contents| - i
      {
        assert contents[i].next == if i + 1 < |contents| then contents[i + 1] else null;
        prev, cur, i := cur, cur.next, i + 1;
      }
      ghost var before := contents;
      ghost var vs := Vals(before);
      assert i == InsertPos(key, vs, elt.Val()) by {
        InsertPosUnique(key, vs, elt.Val(), i);
      }
      Link(prev, elt, cur, i);
      assert Vals(before) == vs;
      assert Vals(contents) == vs[..i] + [elt.Val()] + vs[i..] by {
        ValsSplice(before, elt, i);
      }
      SpliceMembers(before, elt, i);
    }

    /** Splices `elt` between two neighbours, either of which may be missing. */
    method Link(prev: Context?, elt: Context, cur: Context?, ghost i: nat)
      requires Valid() && elt !in contents && i <= |contents|
      requires cur == if i < |contents| then contents[i] else null
      requires prev == if i > 0 then contents[i - 1] else null
      modifies this, contents`next, elt`next
      ensures Valid()
      ensures contents == old(contents)[..i] + [elt] + old(contents)[i..]
    {
      if prev != null {
        prev.next := elt;
      } else {
        head := elt;
      }
      elt.next := cur;
      size := size + 1;
      contents := contents[..i] + [elt] + contents[i..];
      ghost var s, t := old(contents), contents;
      assert forall j :: 0 <= j < |t| ==> t[j] == if j < i then s[j] else if j == i then elt else s[j - 1];
      assert Linked(t) by {
        forall j | 0 <= j < |t|
          ensures t[j].next == if j + 1 < |t| then t[j + 1] else null
        {
          if j < i - 1 {
            assert s[j].next == old(s[j].next) == s[j + 1];
          } else if j > i {
            assert s[j - 1].next == old(s[j - 1].next);
          }
        }
      }
    }

    /** Takes the first context off; the caller has checked that there is one. */
    method Remove() returns (first: Context)
      requires Valid() && contents != []
      modifies this
      ensures Valid()
      ensures first == old(contents)[0] && contents == old(contents)[1..]
    {
      first := head;
      assert contents[0].next == if 1 < |contents| then contents[1] else null;
      head := first.next;
      size := size - 1;
      ghost var s := contents;
      contents := contents[1..];
      assert forall i :: 0 <= i < |contents| ==> contents[i] == s[i + 1];
    }

    method GetFirst() returns (first: Context)
      requires Valid() && contents != []
      ensures first == contents[0]
    {
      first := head;
    }
  }
}
