/** What the wake-up loop of the scheduler does to the two queues. */
module Waking {
  import opened ContextValues
  import opened OrderedList
  import opened KernelSpec

  /** The length of the longest prefix of `s` that is due at time `now`. */
  ghost function Due(s: seq<Ctx>, now: nat): (n: nat)
    ensures n <= |s|
    ensures forall i :: 0 <= i < n ==> s[i].wakeup <= now
    ensures n < |s| ==> s[n].wakeup > now
  {
    if s == [] || s[0].wakeup > now then 0 else 1 + Due(s[1..], now)
  }

  /** Either the loop stops on a queue-size assertion, which happens exactly when the ready queue
      outgrows its bound on the way, or it moves the due prefix of the waiting queue, in order,
      into the ready queue. */
  lemma {:induction false} WakeTasksMoves(cfg: Config, s: State)
    requires s.Active?
    ensures var n := Due(s.waiting, s.clock);
            WakeTasks(cfg, s)
            == if n > 0 && |s.ready| + n - 1 > cfg.NbContexts() then Halted(QueueFull)
               else s.(waiting := s.waiting[n..],
                       ready := InsertAll(cfg.ReadyKey(), s.ready, s.waiting[..n]))
    decreases |s.waiting|
  {
    var n := Due(s.waiting, s.clock);
    if n == 0 {
      assert s.waiting[0..] == s.waiting;
    } else if |s.ready| <= cfg.NbContexts() {
      var c := s.waiting[0];
      var rest := s.waiting[1..];
      var t := s.(waiting := rest, ready := Insert(cfg.ReadyKey(), s.ready, c));
      WakeTasksMoves(cfg, t);
      assert Due(rest, s.clock) == n - 1;
      assert rest[n - 1..] == s.waiting[n..];
      assert s.waiting[..n][1..] == rest[..n - 1];
      assert |t.ready| == |s.ready| + 1;
    }
  }

  /** On a sorted waiting queue, exactly the tasks whose date has passed leave it, the others
      stay in their old order, and the ready queue becomes the stable sort of the old one
      followed by the woken tasks in the order of their dates. */
  lemma WakeTasksMeaning(cfg: Config, s: State)
    requires s.Active? && Sorted(ByWakeup, s.waiting) && Sorted(cfg.ReadyKey(), s.ready)
    requires WakeTasks(cfg, s).Active?
    ensures var t := WakeTasks(cfg, s);
            exists n: nat :: n <= |s.waiting|
              && (forall c :: c in s.waiting[..n] ==> c.wakeup <= s.clock)
              && (forall c :: c in s.waiting[n..] ==> c.wakeup > s.clock)
              && t == s.(waiting := s.waiting[n..], ready := t.ready)
              && IsStableSort(cfg.ReadyKey(), s.ready + s.waiting[..n], t.ready)
  {
    var n := Due(s.waiting, s.clock);
    WakeTasksMoves(cfg, s);
    DueExactly(s.waiting, s.clock);
    InsertAllIsStableSort(cfg.ReadyKey(), s.ready, s.waiting[..n]);
  }

  lemma DueExactly(s: seq<Ctx>, now: nat)
    requires Sorted(ByWakeup, s)
    ensures forall c :: c in s[..Due(s, now)] ==> c.wakeup <= now
    ensures forall c :: c in s[Due(s, now)..] ==> c.wakeup > now
  {
  }

  // ----- lifting the facts about one insertion to many

  lemma {:induction false} InsertAllCount(k: Key, s: seq<Ctx>, cs: seq<Ctx>, id: CtxId)
    ensures Count(InsertAll(k, s, cs), id) == Count(s, id) + Count(cs, id)
    decreases |cs|
  {
    if cs != [] {
      InsertCount(k, s, cs[0], id);
      InsertAllCount(k, Insert(k, s, cs[0]), cs[1..], id);
    }
  }

  lemma {:induction false} InsertAllMembers(k: Key, s: seq<Ctx>, cs: seq<Ctx>)
    ensures forall x :: x in InsertAll(k, s, cs) <==> x in s || x in cs
    ensures |InsertAll(k, s, cs)| == |s| + |cs|
    decreases |cs|
  {
    if cs != [] {
      InsertMembers(k, s, cs[0]);
      InsertAllMembers(k, Insert(k, s, cs[0]), cs[1..]);
      assert cs == [cs[0]] + cs[1..];
    }
  }
}
