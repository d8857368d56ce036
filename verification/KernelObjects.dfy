/** What the run theorems say about the objects of a kernel. */
module KernelObjects {
  import opened ContextValues
  import opened OrderedList
  import opened KernelSpec
  import opened KernelInvariants
  import opened KernelSafety
  import opened KernelHistory
  import opened KernelTiming
  import opened ListQueues
  import opened Kernels

  /** Live contexts with the same name are the same object. */
  lemma SameObject(k: Kernel, c: Context, d: Context)
    requires k.Live(c) && k.Live(d) && c.id == d.id
    ensures c == d
  {
  }

  lemma CountOfContents(k: Kernel, s: seq<Context>, c: Context)
    requires k.Live(c) && forall d :: d in s ==> k.Live(d)
    ensures Count(Vals(s), c.id) > 0 <==> c in s
  {
    var v := Vals(s);
    CountMember(v, c.id);
    if c in s {
      var i :| 0 <= i < |s| && s[i] == c;
      assert v[i] in v;
    }
    if Count(v, c.id) > 0 {
      var x :| x in v && x.id == c.id;
      var i :| 0 <= i < |v| && v[i] == x;
      SameObject(k, s[i], c);
    }
  }

  /** Every live context object is in exactly one of three places: it runs, or it is in one of
      the two lists. The lists end in null, repeat nobody, share nobody, and have the lengths
      recorded in them; the idle context and the slots not handed out are in neither. */
  lemma ObjectPlaced(k: Kernel, c: Context)
    requires k.Valid() && k.halted.None? && k.Live(c)
    ensures (c == k.running || c in k.ready.contents || c in k.waiting.contents)
    ensures !(c == k.running && c in k.ready.contents) && !(c == k.running && c in k.waiting.contents)
    ensures !(c in k.ready.contents && c in k.waiting.contents)
    ensures Distinct(k.ready.contents) && Linked(k.ready.contents) && |k.ready.contents| == k.ready.size
    ensures Distinct(k.waiting.contents) && Linked(k.waiting.contents) && |k.waiting.contents| == k.waiting.size
    ensures k.idle !in k.ready.contents && k.idle !in k.waiting.contents
    ensures k.idxReserve <= |k.slots| && forall j :: 0 <= j < k.idxReserve ==> k.Free(k.slots[j])
  {
    var s := k.View();
    ExactlyOnePlace(k.cfg, k.history, c.id);
    assert IsLive(k.cfg, s, c.id);
    CountOfContents(k, k.ready.contents, c);
    CountOfContents(k, k.waiting.contents, c);
    if Count(Running(s), c.id) > 0 {
      SameObject(k, k.running, c);
    }
  }

  /** Under fixed priorities every task object carries the priority that the task image gives it. */
  lemma ObjectPriority(k: Kernel, i: nat)
    requires k.Valid() && k.halted.None? && k.cfg.policy == FP && i < |k.tasks|
    ensures k.tasks[i].priority == k.cfg.priorities[i]
  {
    var c, s := k.tasks[i], k.View();
    ObjectPlaced(k, c);
    assert c.Val() in All(s) by {
      var r, w := k.ready.contents, k.waiting.contents;
      assert c in r ==> exists j :: 0 <= j < |r| && r[j] == c && Vals(r)[j] == c.Val();
      assert c in w ==> exists j :: 0 <= j < |w| && w[j] == c && Vals(w)[j] == c.Val();
      AllMembers(s, c.Val());
    }
    PrioritiesInherited(k.cfg, k.history, c.Val());
  }

  /** The object that runs is idle only if the ready list is empty, and otherwise no context of the
      ready list has an earlier deadline (a higher priority). */
  lemma ObjectTopRuns(k: Kernel)
    requires k.Valid() && k.halted.None?
    ensures k.running == k.idle ==> k.ready.contents == []
    ensures k.running != k.idle ==>
              forall d :: d in k.ready.contents ==>
                match k.cfg.policy
                case EDF => k.running.deadline <= d.deadline
                case FP => k.running.priority >= d.priority
    ensures k.running == k.idle && k.waiting.contents != [] ==> k.nextWake == k.waiting.contents[0].wakeup
  {
    TopPriorityRuns(k.cfg, k.history);
    var v := Vals(k.ready.contents);
    forall d | d in k.ready.contents && k.running != k.idle
      ensures k.cfg.policy == EDF ==> k.running.deadline <= d.deadline
      ensures k.cfg.policy == FP ==> k.running.priority >= d.priority
    {
      var i :| 0 <= i < |k.ready.contents| && k.ready.contents[i] == d;
      assert v[i] in v;
    }
    if k.running == k.idle && k.waiting.contents != [] {
      IdleIsArmed(k.cfg, k.history);
    }
  }
}
