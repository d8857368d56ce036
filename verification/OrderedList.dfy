/** The sorted list as a value: where an element is inserted, and what that means. */
module OrderedList {
  import opened ContextValues

  /** No element is outranked by a later one. Ties are allowed. */
  ghost predicate Sorted(k: Key, s: seq<Ctx>) {
    forall i, j :: 0 <= i < j < |s| ==> !Outranks(k, s[j], s[i])
  }

  /** The index at which `c` goes: before the first element that it strictly outranks. */
  function InsertPos(k: Key, s: seq<Ctx>, c: Ctx): (p: nat)
    ensures p <= |s|
    ensures forall i :: 0 <= i < p ==> !Outranks(k, c, s[i])
    ensures p < |s| ==> Outranks(k, c, s[p])
  {
    if s == [] || Outranks(k, c, s[0]) then 0 else 1 + InsertPos(k, s[1..], c)
  }

  lemma InsertPosUnique(k: Key, s: seq<Ctx>, c: Ctx, p: nat)
    requires p <= |s|
    requires forall i :: 0 <= i < p ==> !Outranks(k, c, s[i])
    requires p < |s| ==> Outranks(k, c, s[p])
    ensures p == InsertPos(k, s, c)
  {
  }

  function Insert(k: Key, s: seq<Ctx>, c: Ctx): seq<Ctx> {
    var p := InsertPos(k, s, c);
    s[..p] + [c] + s[p..]
  }

  function InsertAll(k: Key, s: seq<Ctx>, cs: seq<Ctx>): seq<Ctx>
    decreases cs
  {
    if cs == [] then s else InsertAll(k, Insert(k, s, cs[0]), cs[1..])
  }

  /** The elements of `s` whose priority is `p`, in order. */
  ghost function WithPriority(k: Key, s: seq<Ctx>, p: nat): seq<Ctx> {
    if s == [] then []
    else (if GetPriority(k, s[0]) == p then [s[0]] else []) + WithPriority(k, s[1..], p)
  }

  /** How many elements of `s` are the context `id`. */
  ghost function Count(s: seq<Ctx>, id: CtxId): nat {
    if s == [] then 0 else (if s[0].id == id then 1 else 0) + Count(s[1..], id)
  }

  /** Insertion keeps the list sorted, and puts `c` after every element that is not lower and
      before every element that is strictly lower. */
  lemma InsertSorted(k: Key, s: seq<Ctx>, c: Ctx)
    requires Sorted(k, s)
    ensures Sorted(k, Insert(k, s, c))
    ensures forall i :: InsertPos(k, s, c) <= i < |s| ==> Outranks(k, c, s[i])
    ensures forall i :: 0 <= i < InsertPos(k, s, c) ==> !Outranks(k, c, s[i])
  {
    var p := InsertPos(k, s, c);
    forall i | p <= i < |s|
      ensures Outranks(k, c, s[i])
    {
      if i > p {
        assert !Outranks(k, s[i], s[p]);
      }
    }
    var t := Insert(k, s, c);
    forall i, j | 0 <= i < j < |t|
      ensures !Outranks(k, t[j], t[i])
    {
      assert t[i] == if i < p then s[i] else if i == p then c else s[i - 1];
      assert t[j] == if j < p then s[j] else if j == p then c else s[j - 1];
    }
  }

  lemma InsertMembers(k: Key, s: seq<Ctx>, c: Ctx)
    ensures multiset(Insert(k, s, c)) == multiset(s) + multiset{c}
    ensures forall x :: x in Insert(k, s, c) <==> x in s || x == c
    ensures |Insert(k, s, c)| == |s| + 1
  {
    var p := InsertPos(k, s, c);
    assert s == s[..p] + s[p..];
    assert multiset(s) == multiset(s[..p]) + multiset(s[p..]);
    forall x
      ensures x in Insert(k, s, c) <==> x in s || x == c
    {
      assert x in Insert(k, s, c) <==> x in multiset(Insert(k, s, c));
      assert x in s <==> x in multiset(s);
    }
  }

  lemma {:induction false} CountConcat(s: seq<Ctx>, t: seq<Ctx>, id: CtxId)
    ensures Count(s + t, id) == Count(s, id) + Count(t, id)
  {
    if s == [] {
      assert s + t == t;
    } else {
      assert (s + t)[1..] == s[1..] + t;
      CountConcat(s[1..], t, id);
    }
  }

  lemma InsertCount(k: Key, s: seq<Ctx>, c: Ctx, id: CtxId)
    ensures Count(Insert(k, s, c), id) == Count(s, id) + (if c.id == id then 1 else 0)
  {
    var p := InsertPos(k, s, c);
    assert s == s[..p] + s[p..];
    CountConcat(s[..p], s[p..], id);
    CountConcat(s[..p], [c], id);
    CountConcat(s[..p] + [c], s[p..], id);
  }

  lemma {:induction false} CountMember(s: seq<Ctx>, id: CtxId)
    ensures Count(s, id) > 0 <==> exists c :: c in s && c.id == id
  {
    if s != [] {
      CountMember(s[1..], id);
      if Count(s, id) > 0 {
        if s[0].id != id {
          var c :| c in s[1..] && c.id == id;
          assert c in s;
        } else {
          assert s[0] in s;
        }
      }
    }
  }

  // ----- stability

  lemma {:induction false} WithPriorityConcat(k: Key, s: seq<Ctx>, t: seq<Ctx>, p: nat)
    ensures WithPriority(k, s + t, p) == WithPriority(k, s, p) + WithPriority(k, t, p)
  {
    if s == [] {
      assert s + t == t;
    } else {
      var h := if GetPriority(k, s[0]) == p then [s[0]] else [];
      assert (s + t)[1..] == s[1..] + t;
      WithPriorityConcat(k, s[1..], t, p);
      assert WithPriority(k, s + t, p) == h + (WithPriority(k, s[1..], p) + WithPriority(k, t, p));
    }
  }

  lemma {:induction false} WithPriorityEmpty(k: Key, s: seq<Ctx>, p: nat)
    requires forall i :: 0 <= i < |s| ==> GetPriority(k, s[i]) != p
    ensures WithPriority(k, s, p) == []
  {
    if s != [] {
      WithPriorityEmpty(k, s[1..], p);
    }
  }

  lemma WithPriorityMiddle(k: Key, front: seq<Ctx>, c: Ctx, back: seq<Ctx>, p: nat)
    ensures WithPriority(k, front + [c] + back, p)
         == WithPriority(k, front, p) + (if GetPriority(k, c) == p then [c] else []) + WithPriority(k, back, p)
  {
    WithPriorityConcat(k, front + [c], back, p);
    WithPriorityConcat(k, front, [c], p);
    assert WithPriority(k, [c], p) == if GetPriority(k, c) == p then [c] else [];
  }

  /** First in, first out: among equals, the inserted element comes last, and nobody else moves. */
  lemma InsertStable(k: Key, s: seq<Ctx>, c: Ctx, p: nat)
    requires Sorted(k, s)
    ensures WithPriority(k, Insert(k, s, c), p)
         == WithPriority(k, s, p) + (if GetPriority(k, c) == p then [c] else [])
  {
    var n := InsertPos(k, s, c);
    var front, back := s[..n], s[n..];
    if GetPriority(k, c) == p {
      AfterIsLower(k, s, c);
    }
    SplitStable(k, s, front, c, back, p);
  }

  /** Fact used by InsertStable: between a front and a back, an element adds itself. */
  lemma SplitStable(k: Key, s: seq<Ctx>, front: seq<Ctx>, c: Ctx, back: seq<Ctx>, p: nat)
    requires s == front + back && (GetPriority(k, c) == p ==> WithPriority(k, back, p) == [])
    ensures WithPriority(k, front + [c] + back, p)
         == WithPriority(k, s, p) + (if GetPriority(k, c) == p then [c] else [])
  {
    WithPriorityMiddle(k, front, c, back, p);
    WithPriorityConcat(k, front, back, p);
  }

  lemma AfterIsLower(k: Key, s: seq<Ctx>, c: Ctx)
    requires Sorted(k, s)
    ensures WithPriority(k, s[InsertPos(k, s, c)..], GetPriority(k, c)) == []
  {
    InsertSorted(k, s, c);
    WithPriorityEmpty(k, s[InsertPos(k, s, c)..], GetPriority(k, c));
  }

  lemma OneByOne(k: Key, s: seq<Ctx>, s': seq<Ctx>, c: Ctx, cs: seq<Ctx>, p: nat)
    requires WithPriority(k, s', p) == WithPriority(k, s, p) + (if GetPriority(k, c) == p then [c] else [])
    ensures WithPriority(k, s' + cs, p) == WithPriority(k, s + [c] + cs, p)
  {
    WithPriorityConcat(k, s', cs, p);
    WithPriorityMiddle(k, s, c, cs, p);
  }

  /** `t` is the stable sort of `s`: sorted, and with the elements of each priority in the order of `s`. */
  ghost predicate IsStableSort(k: Key, s: seq<Ctx>, t: seq<Ctx>) {
    Sorted(k, t) && forall p: nat :: WithPriority(k, t, p) == WithPriority(k, s, p)
  }

  /** Inserting any elements one by one gives the stable sort of what was there followed by them. */
  lemma {:induction false} InsertAllIsStableSort(k: Key, s: seq<Ctx>, cs: seq<Ctx>)
    requires Sorted(k, s)
    ensures IsStableSort(k, s + cs, InsertAll(k, s, cs))
    decreases |cs|
  {
    if cs == [] {
      assert s + cs == s;
    } else {
      var s' := Insert(k, s, cs[0]);
      InsertSorted(k, s, cs[0]);
      InsertAllIsStableSort(k, s', cs[1..]);
      forall p: nat
        ensures WithPriority(k, InsertAll(k, s, cs), p) == WithPriority(k, s + cs, p)
      {
        InsertStable(k, s, cs[0], p);
        OneByOne(k, s, s', cs[0], cs[1..], p);
        assert s + [cs[0]] + cs[1..] == s + cs;
        assert WithPriority(k, InsertAll(k, s', cs[1..]), p) == WithPriority(k, s' + cs[1..], p);
      }
    }
  }

  lemma {:induction false} WithPriorityMembers(k: Key, s: seq<Ctx>, p: nat)
    ensures forall x :: x in WithPriority(k, s, p) <==> x in s && GetPriority(k, x) == p
  {
    if s != [] {
      WithPriorityMembers(k, s[1..], p);
      assert s == [s[0]] + s[1..];
    }
  }

  /** The first elements of two sorted lists agree when the lists agree priority by priority. */
  lemma SameHead(k: Key, a: seq<Ctx>, b: seq<Ctx>)
    requires Sorted(k, a) && Sorted(k, b) && a != []
    requires forall p: nat :: WithPriority(k, a, p) == WithPriority(k, b, p)
    ensures b != [] && a[0] == b[0]
  {
    var p := GetPriority(k, a[0]);
    assert WithPriority(k, a, p)[0] == a[0];
    assert b != [];
    var q := GetPriority(k, b[0]);
    assert WithPriority(k, b, q)[0] == b[0];
    WithPriorityMembers(k, a, q);
    WithPriorityMembers(k, b, p);
    assert WithPriority(k, a, q) == WithPriority(k, b, q);
    assert WithPriority(k, a, p) == WithPriority(k, b, p);
    assert b[0] in a && a[0] in b;
    var i :| 0 <= i < |a| && a[i] == b[0];
    var j :| 0 <= j < |b| && b[j] == a[0];
    assert p == q;
  }

  /** There is only one stable sort. */
  lemma {:induction false} StableSortUnique(k: Key, a: seq<Ctx>, b: seq<Ctx>)
    requires Sorted(k, a) && Sorted(k, b)
    requires forall p: nat :: WithPriority(k, a, p) == WithPriority(k, b, p)
    ensures a == b
  {
    if a != [] {
      SameHead(k, a, b);
      forall p: nat
        ensures WithPriority(k, a[1..], p) == WithPriority(k, b[1..], p)
      {
        var n := if GetPriority(k, a[0]) == p then 1 else 0;
        assert WithPriority(k, a[1..], p) == WithPriority(k, a, p)[n..];
        assert WithPriority(k, b[1..], p) == WithPriority(k, b, p)[n..];
      }
      StableSortUnique(k, a[1..], b[1..]);
    } else if b != [] {
      SameHead(k, b, a);
    }
  }
}
