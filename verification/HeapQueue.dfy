/** The priority queue as a binary heap in an array of references to contexts, whose number is
    bounded by the length of the array. The order lemmas are about the values of the contexts. */
module HeapQueues {
  import opened ContextValues
  import opened AbstractQueue
  import opened ListQueues

  function Parent(j: nat): nat
    requires j > 0
  {
    (j - 1) / 2
  }

  ghost predicate InOrder(k: Key, g: seq<Ctx>, j: nat)
    requires 0 < j < |g|
  {
    !Outranks(k, g[j], g[Parent(j)])
  }

  ghost predicate Heap(k: Key, g: seq<Ctx>) {
    forall j :: 1 <= j < |g| ==> InOrder(k, g, j)
  }

  /** The children of `i` are in order with the parent of `i`. */
  ghost predicate Bridged(k: Key, g: seq<Ctx>, i: nat) {
    0 < i < |g| ==> forall j :: 1 <= j < |g| && Parent(j) == i ==> !Outranks(k, g[j], g[Parent(i)])
  }

  /** A heap but for the element at `i`, which may outrank its ancestors. */
  ghost predicate HeapUp(k: Key, g: seq<Ctx>, i: nat) {
    i < |g| && (forall j :: 1 <= j < |g| && j != i ==> InOrder(k, g, j)) && Bridged(k, g, i)
  }

  /** A heap but for the element at `i`, which may be outranked by its descendants. */
  ghost predicate HeapDown(k: Key, g: seq<Ctx>, i: nat) {
    (forall j :: 1 <= j < |g| && Parent(j) != i ==> InOrder(k, g, j)) && Bridged(k, g, i)
  }

  function Swapped<T>(g: seq<T>, i: nat, j: nat): seq<T>
    requires i < |g| && j < |g|
  {
    g[i := g[j]][j := g[i]]
  }

  lemma SwapKeeps(g: seq<Context>, i: nat, j: nat)
    requires i < |g| && j < |g|
    ensures multiset(Swapped(g, i, j)) == multiset(g)
    ensures Vals(Swapped(g, i, j)) == Swapped(Vals(g), i, j)
  {
  }

  lemma UpStep(k: Key, g: seq<Ctx>, i: nat)
    requires HeapUp(k, g, i) && i > 0 && Outranks(k, g[i], g[Parent(i)])
    ensures HeapUp(k, Swapped(g, i, Parent(i)), Parent(i))
  {
    var p := Parent(i);
    var h := Swapped(g, i, p);
    forall j | 1 <= j < |g| && j != p
      ensures InOrder(k, h, j)
    {
      if j != i {
        assert InOrder(k, g, j);
      }
    }
    if p > 0 {
      assert InOrder(k, g, p);
      forall j | 1 <= j < |g| && Parent(j) == p
        ensures !Outranks(k, h[j], h[Parent(p)])
      {
        if j != i {
          assert InOrder(k, g, j);
        }
      }
    }
  }

  lemma DownStep(k: Key, g: seq<Ctx>, i: nat, c: nat)
    requires HeapDown(k, g, i) && 0 < c < |g| && Parent(c) == i && Outranks(k, g[c], g[i])
    requires forall j :: 1 <= j < |g| && Parent(j) == i ==> !Outranks(k, g[j], g[c])
    ensures HeapDown(k, Swapped(g, i, c), c)
  {
  }

  /** The same step on references. */
  lemma SinkStep(k: Key, q: seq<Context>, i: nat, c: nat)
    requires HeapDown(k, Vals(q), i) && 0 < c < |q| && Parent(c) == i && Outranks(k, q[c].Val(), q[i].Val())
    requires var v := Vals(q); forall j :: 1 <= j < |v| && Parent(j) == i ==> !Outranks(k, v[j], v[c])
    ensures HeapDown(k, Vals(Swapped(q, i, c)), c) && multiset(Swapped(q, i, c)) == multiset(q)
  {
    DownStep(k, Vals(q), i, c);
    SwapKeeps(q, i, c);
  }

  lemma UpStart(k: Key, g: seq<Ctx>, c: Ctx)
    requires Heap(k, g)
    ensures HeapUp(k, g + [c], |g|)
  {
    forall j | 1 <= j < |g|
      ensures InOrder(k, g + [c], j)
    {
      assert InOrder(k, g, j);
    }
  }

  lemma UpDone(k: Key, g: seq<Ctx>, i: nat)
    requires HeapUp(k, g, i) && (i > 0 ==> !Outranks(k, g[i], g[Parent(i)]))
    ensures Heap(k, g)
  {
  }

  lemma DownStart(k: Key, g: seq<Ctx>, h: seq<Ctx>)
    requires Heap(k, g) && |g| > 0 && |h| == |g| - 1
    requires h != [] ==> h == g[..|h|][0 := g[|h|]]
    ensures HeapDown(k, h, 0)
  {
    forall j | 1 <= j < |h| && Parent(j) != 0
      ensures InOrder(k, h, j)
    {
      assert InOrder(k, g, j);
    }
  }

  /** The last element takes the place of the first. */
  lemma LastToRoot<T>(g: seq<T>, h: seq<T>)
    requires |g| > 0 && |h| == |g| - 1
    requires h != [] ==> h == g[..|h|][0 := g[|h|]]
    ensures multiset(h) == multiset(g) - multiset{g[0]}
  {
    var n := |h|;
    assert g == g[..n] + [g[n]];
    if n == 0 {
      assert g == [g[0]];
    } else {
      assert g[..n] == [g[0]] + g[1..n] && h == [g[n]] + g[1..n];
    }
  }

  lemma LastToRootOrder(k: Key, g: seq<Context>, h: seq<Context>)
    requires |g| > 0 && |h| == |g| - 1 && Heap(k, Vals(g))
    requires h != [] ==> h == g[..|h|][0 := g[|h|]]
    ensures HeapDown(k, Vals(h), 0)
  {
    DownStart(k, Vals(g), Vals(h));
  }

  lemma DownDone(k: Key, g: seq<Ctx>, i: nat)
    requires HeapDown(k, g, i)
    requires forall j :: 1 <= j < |g| && Parent(j) == i ==> !Outranks(k, g[j], g[i])
    ensures Heap(k, g)
  {
  }

  /** In a heap nobody outranks the root. */
  lemma {:induction false} RootIsTop(k: Key, g: seq<Ctx>, i: nat)
    requires Heap(k, g) && i < |g|
    ensures !Outranks(k, g[i], g[0])
  {
    if i > 0 {
      assert InOrder(k, g, i);
      RootIsTop(k, g, Parent(i));
    }
  }

  lemma RootOutranked(k: Key, g: seq<Ctx>)
    requires Heap(k, g) && g != []
    ensures forall d :: d in g ==> !Outranks(k, d, g[0])
  {
    forall d | d in g
      ensures !Outranks(k, d, g[0])
    {
      var i :| 0 <= i < |g| && g[i] == d;
      RootIsTop(k, g, i);
    }
  }

  // ----- permutations of references

  /** The same references have the same values. */
  lemma {:induction false} ValsPermuted(s: seq<Context>, t: seq<Context>)
    requires multiset(s) == multiset(t)
    ensures multiset(Vals(s)) == multiset(Vals(t))
  {
    if s == [] {
      assert |multiset(t)| == 0;
    } else {
      var a, b := FirstOut(s, t);
      ValsPermuted(s[1..], a + b);
      assert Vals(s) == [s[0].Val()] + Vals(s[1..]);
      assert Vals(t) == Vals(a) + [s[0].Val()] + Vals(b);
      assert Vals(a + b) == Vals(a) + Vals(b);
    }
  }

  lemma ValsAdded(s: seq<Context>, c: Context, t: seq<Context>)
    requires multiset(t) == multiset(s) + multiset{c}
    ensures Inserted(Vals(s), c.Val(), Vals(t))
  {
    ValsPermuted(t, s + [c]);
    assert Vals(s + [c]) == Vals(s) + [c.Val()];
  }

  lemma RootRemoved(k: Key, q: seq<Context>, r: seq<Context>)
    requires q != [] && Heap(k, Vals(q)) && multiset(r) == multiset(q) - multiset{q[0]}
    ensures Removed(k, Vals(q), q[0].Val(), Vals(r))
  {
    RootOutranked(k, Vals(q));
    assert q[0] in q && Vals(q)[0] in Vals(q);
    assert multiset(q) == multiset(r) + multiset{q[0]};
    ValsAdded(r, q[0], q);
  }

  class HeapQueue {
    const key: Key
    const elements: array<Context>
    var size: nat

    ghost predicate Valid()
      reads this, elements, elements[..]
    {
      size <= elements.Length && Heap(key, Contents())
    }

    /** The queued contexts, in the order of the array. */
    ghost function Queued(): seq<Context>
      reads this, elements
    {
      if size <= elements.Length then elements[..size] else []
    }

    /** Their values. */
    ghost function Contents(): seq<Ctx>
      reads this, elements, elements[..]
    {
      Vals(Queued())
    }

    constructor (key: Key, elements: array<Context>)
      ensures Valid() && Queued() == [] && this.key == key && this.elements == elements
    {
      this.key, this.elements, size := key, elements, 0;
    }

    /** Moves a hole up from the end to where `elt` belongs; a full heap is refused. */
    method Insert(elt: Context) returns (ok: bool)
      requires Valid()
      modifies this, elements
      ensures Valid()
      ensures ok == (old(size) < elements.Length) && size == old(size) + (if ok then 1 else 0)
      ensures multiset(Queued()) == old(multiset(Queued())) + (if ok then multiset{elt} else multiset{})
      ensures if ok then Inserted(old(Contents()), elt.Val(), Contents()) else Contents() == old(Contents())
    {
      if size >= elements.Length {
        return false;
      }
      ghost var q := Queued();
      size := size + 1;
      assert elements[..size - 1] == q;
      MoveHoleUp(elt);
      ValsAdded(q, elt, Queued());
      return true;
    }

    /** The array shows `g` everywhere but at `i`, where `g` has the element to be placed. */
    ghost predicate Hole(g: seq<Context>, i: nat, elt: Context)
      reads this, elements, g
    {
      && i < size == |g| <= elements.Length
      && HeapUp(key, Vals(g), i) && g[i] == elt
      && (forall j :: 0 <= j < size && j != i ==> elements[j] == g[j])
    }

    method MoveHoleUp(elt: Context)
      requires 0 < size <= elements.Length && Heap(key, Vals(elements[..size - 1]))
      modifies elements
      ensures Heap(key, Vals(elements[..size]))
      ensures multiset(elements[..size]) == old(multiset(elements[..size - 1])) + multiset{elt}
    {
      var i: nat := size - 1;
      ghost var g := elements[..i] + [elt];
      UpStart(key, Vals(elements[..i]), elt.Val());
      assert Vals(g) == Vals(elements[..i]) + [elt.Val()];
      while i > 0 && IsGtPriority(key, GetPriority(key, elt.Val()), GetPriority(key, elements[(i - 1) / 2].Val()))
        invariant Hole(g, i, elt)
        invariant multiset(g) == old(multiset(elements[..size - 1])) + multiset{elt}
      {
        i, g := LiftHole(g, i, elt);
      }
      elements[i] := elt;
      UpDone(key, Vals(g), i);
      assert elements[..size] == g;
    }

    /** Moves the parent of the hole into the hole. */
    method LiftHole(ghost g: seq<Context>, i: nat, elt: Context) returns (parent: nat, ghost h: seq<Context>)
      requires Hole(g, i, elt) && i > 0 && Outranks(key, elt.Val(), elements[Parent(i)].Val())
      modifies elements
      ensures parent == Parent(i) && Hole(h, parent, elt) && multiset(h) == multiset(g)
    {
      parent := (i - 1) / 2;
      UpStep(key, Vals(g), i);
      SwapKeeps(g, i, parent);
      h := Swapped(g, i, parent);
      elements[i] := elements[parent];
    }

    /** The first element: nobody outranks it. */
    method GetFirst() returns (first: Context)
      requires Valid() && size > 0
      ensures first in Queued() && forall d :: d in Contents() ==> !Outranks(key, d, first.Val())
    {
      RootOutranked(key, Contents());
      first := elements[0];
      assert first == Queued()[0];
    }

    /** Takes the root off: nobody outranked it. */
    method Remove() returns (res: Context)
      requires Valid() && size > 0
      modifies this, elements
      ensures Valid() && size == old(size) - 1
      ensures res in old(Queued()) && multiset(Queued()) == old(multiset(Queued())) - multiset{res}
      ensures Removed(key, old(Contents()), res.Val(), Contents())
    {
      ghost var q := Queued();
      res := TakeRoot();
      ValsSame(q);
      RootRemoved(key, q, Queued());
    }

    /** Puts the last element in the place of the root and sifts it down. */
    method TakeRoot() returns (res: Context)
      requires Valid() && size > 0
      modifies this`size, elements
      ensures size == old(size) - 1 <= elements.Length && Heap(key, Vals(elements[..size]))
      ensures res == old(Queued()[0])
      ensures multiset(elements[..size]) == old(multiset(Queued())) - multiset{res}
    {
      res := elements[0];
      MoveLastToRoot();
      SiftDown();
    }

    method MoveLastToRoot()
      requires Valid() && size > 0
      modifies this`size, elements
      ensures size == old(size) - 1 <= elements.Length && HeapDown(key, Vals(elements[..size]), 0)
      ensures multiset(elements[..size]) == old(multiset(elements[..size])) - multiset{old(elements[0])}
    {
      ghost var q, g := Queued(), Contents();
      size := size - 1;
      elements[0] := elements[size];
      ghost var h := elements[..size];
      assert h != [] ==> h == q[..|h|][0 := q[|h|]];
      assert Vals(q) == g;
      LastToRoot(q, h);
      LastToRootOrder(key, q, h);
    }

    /** Sifts the root down, each time swapping it with its highest-ranking child. */
    method SiftDown()
      requires size <= elements.Length && HeapDown(key, Vals(elements[..size]), 0)
      modifies elements
      ensures Heap(key, Vals(elements[..size])) && multiset(elements[..size]) == old(multiset(elements[..size]))
    {
      var i: nat := 0;
      var sinking := size > 0;
      if !sinking {
        DownDone(key, Vals(elements[..size]), 0);
      }
      while sinking
        invariant sinking ==> i < size && HeapDown(key, Vals(elements[..size]), i)
        invariant !sinking ==> Heap(key, Vals(elements[..size]))
        invariant multiset(elements[..size]) == old(multiset(elements[..size]))
        decreases sinking, size - i
      {
        var largest := SinkOne(i);
        sinking, i := largest != i, largest;
      }
    }

    /** One turn of the loop: `i` is in place, or it is swapped with its highest-ranking child. */
    method SinkOne(i: nat) returns (largest: nat)
      requires i < size <= elements.Length && HeapDown(key, Vals(elements[..size]), i)
      modifies elements
      ensures i <= largest < size && multiset(elements[..size]) == old(multiset(elements[..size]))
      ensures if largest == i then Heap(key, Vals(elements[..size])) else HeapDown(key, Vals(elements[..size]), largest)
    {
      largest := Largest(i);
      ghost var q := elements[..size];
      ghost var v := Vals(q);
      assert forall j :: 1 <= j < |v| && Parent(j) == i ==> !Outranks(key, v[j], v[largest]);
      if largest == i {
        DownDone(key, v, i);
      } else {
        Swap(i, largest);
        ValsSame(q);
        SinkStep(key, q, i, largest);
      }
    }

    /** Which of `i` and its children outranks the others: the right child is tried first. */
    method Largest(i: nat) returns (largest: nat)
      requires i < size <= elements.Length
      ensures largest == i
           || (0 < largest < size && Parent(largest) == i && Outranks(key, elements[largest].Val(), elements[i].Val()))
      ensures forall j :: 1 <= j < size && Parent(j) == i ==>
                !Outranks(key, elements[j].Val(), elements[largest].Val())
    {
      var left, right := 2 * i + 1, 2 * i + 2;
      largest := i;
      if right < size && Outranks(key, elements[right].Val(), elements[largest].Val()) {
        largest := right;
      }
      if left < size && Outranks(key, elements[left].Val(), elements[largest].Val()) {
        largest := left;
      }
      assert forall j :: 1 <= j < size && Parent(j) == i ==> j == left || j == right;
    }

    method Swap(i: nat, j: nat)
      requires i < size <= elements.Length && j < size
      modifies elements
      ensures elements[..size] == Swapped(old(elements[..size]), i, j)
    {
      elements[i], elements[j] := elements[j], elements[i];
    }
  }
}
