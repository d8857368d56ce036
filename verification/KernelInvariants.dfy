/** What every step of the kernel keeps. */
module KernelInvariants {
  import opened ContextValues
  import opened OrderedList
  import opened KernelSpec
  import opened Waking

  /** Every live context is in exactly one place, and nothing else is anywhere. */
  ghost predicate Placed(cfg: Config, s: State)
    requires s.Active?
  {
    forall id :: Count(All(s), id) == if IsLive(cfg, s, id) then 1 else 0
  }

  ghost predicate Counted(cfg: Config, s: State)
    requires s.Active?
  {
    && s.reserve <= RESERVE_SIZE
    && (!cfg.dynamic ==> s.reserve == RESERVE_SIZE)
    && |All(s)| == cfg.NbTasks() + RESERVE_SIZE - s.reserve
  }

  ghost predicate Ordered(cfg: Config, s: State)
    requires s.Active?
  {
    Sorted(cfg.ReadyKey(), s.ready) && Sorted(ByWakeup, s.waiting)
  }

  /** Nobody in the ready queue should run instead of who runs. */
  ghost predicate TopRuns(cfg: Config, s: State)
    requires s.Active?
  {
    match s.running
    case None => s.ready == []
    case Some(c) => forall d :: d in s.ready ==> !Outranks(cfg.ReadyKey(), d, c)
  }

  /** The timer is armed at the first date of the waiting queue; or it is disarmed, and then
      nobody waits or a task runs. */
  ghost predicate TimerOk(s: State)
    requires s.Active?
  {
    || (s.waiting != [] && s.nextWake == s.waiting[0].wakeup)
    || (s.nextWake == DATE_FAR_AWAY && (s.waiting == [] || s.running.Some?))
  }

  /** What the boot wrote into a context and nothing changes: its range, and its fixed priority. */
  ghost predicate Initialised(cfg: Config, s: State)
    requires s.Active?
  {
    forall c :: c in All(s) ==>
      && c.range == (if cfg.dynamic then INITIAL_RANGE else 0)
      && (c.id.Task? && c.id.i < cfg.NbTasks() ==> c.priority == if cfg.policy == FP then cfg.priorities[c.id.i] else 0)
  }

  ghost predicate Inv(cfg: Config, s: State) {
    s.Active? ==>
      && Placed(cfg, s) && Counted(cfg, s) && Ordered(cfg, s)
      && TopRuns(cfg, s) && TimerOk(s) && Initialised(cfg, s)
  }

  // ----- how the pieces move contexts around

  lemma AllCount(s: State, id: CtxId)
    requires s.Active?
    ensures Count(All(s), id) == Count(Running(s), id) + Count(s.ready, id) + Count(s.waiting, id)
  {
    CountConcat(Running(s), s.ready, id);
    CountConcat(Running(s) + s.ready, s.waiting, id);
  }

  lemma AllMembers(s: State, c: Ctx)
    requires s.Active?
    ensures c in All(s) <==> c in Running(s) || c in s.ready || c in s.waiting
  {
  }

  /** Choosing the next context moves the head of a sorted ready queue and loses nobody. */
  lemma ChooseNextKeeps(cfg: Config, s: State)
    requires s.Active? && s.running.None? && Sorted(cfg.ReadyKey(), s.ready)
    ensures All(ChooseNext(s)) == All(s)
    ensures TopRuns(cfg, ChooseNext(s)) && Sorted(cfg.ReadyKey(), ChooseNext(s).ready)
  {
  }

  /** Preemption swaps the running context with the head of the ready queue or does nothing. */
  lemma MaybePreemptKeeps(cfg: Config, s: State, c: Ctx)
    requires s.Active? && s.running == Some(c) && Sorted(cfg.ReadyKey(), s.ready)
    ensures var t := MaybePreempt(cfg, s, c);
            && TopRuns(cfg, t) && Sorted(cfg.ReadyKey(), t.ready) && t.running.Some?
            && (forall id :: Count(Running(t), id) + Count(t.ready, id)
                          == Count(Running(s), id) + Count(s.ready, id))
            && (forall x :: x in Running(t) || x in t.ready <==> x in Running(s) || x in s.ready)
            && |t.ready| == |s.ready|
  {
    var k := cfg.ReadyKey();
    if s.ready != [] && Outranks(k, s.ready[0], c) {
      var r := Insert(k, s.ready, c);
      InsertSorted(k, s.ready, c);
      InsertMembers(k, s.ready, c);
      assert r == [r[0]] + r[1..];
      assert forall x :: x in r <==> x in [r[0]] || x in r[1..];
      forall id
        ensures Count([r[0]], id) + Count(r[1..], id) == Count([c], id) + Count(s.ready, id)
      {
        InsertCount(k, s.ready, c, id);
        CountConcat([r[0]], r[1..], id);
      }
    } else {
      forall d | d in s.ready
        ensures !Outranks(k, d, c)
      {
        var i :| 0 <= i < |s.ready| && s.ready[i] == d;
        assert i > 0 ==> !Outranks(k, s.ready[i], s.ready[0]);
      }
    }
  }

  /** The preempting context is the old head of the ready queue. */
  lemma PreemptedByHead(cfg: Config, s: State, c: Ctx)
    requires s.Active? && s.ready != [] && Outranks(cfg.ReadyKey(), s.ready[0], c)
    ensures MaybePreempt(cfg, s, c).running == Some(s.ready[0])
    ensures MaybePreempt(cfg, s, c).ready == Insert(cfg.ReadyKey(), s.ready[1..], c)
  {
  }

  /** The wake-up loop keeps both queues sorted, and loses and duplicates nobody. */
  lemma WakeTasksKeeps(cfg: Config, s: State)
    requires s.Active? && Ordered(cfg, s)
    requires WakeTasks(cfg, s).Active?
    ensures var t := WakeTasks(cfg, s);
            && Ordered(cfg, t)
            && t == s.(ready := t.ready, waiting := t.waiting)
            && (forall id :: Count(t.ready, id) + Count(t.waiting, id)
                          == Count(s.ready, id) + Count(s.waiting, id))
            && |t.ready| + |t.waiting| == |s.ready| + |s.waiting|
            && (s.waiting != [] && s.waiting[0].wakeup <= s.clock ==> t.ready != [])
  {
    var k := cfg.ReadyKey();
    var n := Due(s.waiting, s.clock);
    WakeTasksMoves(cfg, s);
    InsertAllSorted(k, s.ready, s.waiting[..n]);
    InsertAllMembers(k, s.ready, s.waiting[..n]);
    WakeTasksCount(k, s, n);
  }

  lemma WakeTasksMembers(cfg: Config, s: State)
    requires s.Active? && Sorted(ByWakeup, s.waiting)
    requires WakeTasks(cfg, s).Active?
    ensures var t := WakeTasks(cfg, s);
            && (forall x :: x in t.ready || x in t.waiting <==> x in s.ready || x in s.waiting)
            && (forall x :: x in t.waiting ==> x.wakeup > s.clock)
            && (forall x :: x in t.ready ==> x in s.ready || x.wakeup <= s.clock)
  {
    var n := Due(s.waiting, s.clock);
    WakeTasksMoves(cfg, s);
    var due, rest := s.waiting[..n], s.waiting[n..];
    assert s.waiting == due + rest;
    assert forall x :: x in s.waiting <==> x in due || x in rest;
    InsertAllMembers(cfg.ReadyKey(), s.ready, due);
    DueExactly(s.waiting, s.clock);
  }

  lemma InsertAllSorted(k: Key, s: seq<Ctx>, cs: seq<Ctx>)
    requires Sorted(k, s)
    ensures Sorted(k, InsertAll(k, s, cs))
  {
    InsertAllIsStableSort(k, s, cs);
  }

  lemma WakeTasksCount(k: Key, s: State, n: nat)
    requires s.Active? && n <= |s.waiting|
    ensures forall id :: Count(InsertAll(k, s.ready, s.waiting[..n]), id) + Count(s.waiting[n..], id)
                      == Count(s.ready, id) + Count(s.waiting, id)
  {
    var due, rest := s.waiting[..n], s.waiting[n..];
    assert s.waiting == due + rest;
    forall id
      ensures Count(InsertAll(k, s.ready, due), id) + Count(rest, id)
           == Count(s.ready, id) + Count(s.waiting, id)
    {
      InsertAllCount(k, s.ready, due, id);
      CountConcat(due, rest, id);
    }
  }

  // ----- one lemma per step

  /** Moving the running context to the waiting queue keeps the accounts. */
  lemma YieldMoves(cfg: Config, s: State, c': Ctx, m: State)
    requires s.Active? && s.running.Some? && c' == s.running.value.(wakeup := c'.wakeup, deadline := c'.deadline)
    requires m.Active? && m.running.None? && m.ready == s.ready && m.reserve == s.reserve
    requires m.waiting == Insert(ByWakeup, s.waiting, c')
    requires Placed(cfg, s) && Counted(cfg, s) && Initialised(cfg, s)
    ensures Placed(cfg, m) && Counted(cfg, m) && Initialised(cfg, m)
  {
    InsertMembers(ByWakeup, s.waiting, c');
    forall id
      ensures Count(All(m), id) == Count(All(s), id)
    {
      InsertCount(ByWakeup, s.waiting, c', id);
      AllCount(m, id);
      AllCount(s, id);
    }
    assert s.running.value in All(s);
    forall x | x in All(m)
      ensures x == c' || x in All(s)
    {
      AllMembers(m, x);
      AllMembers(s, x);
    }
  }

  lemma YieldKeeps(cfg: Config, s: State, w: u64, d: u64)
    requires s.Active? && s.running.Some? && Inv(cfg, s)
    ensures Inv(cfg, Step(cfg, s, Yield(w, d)))
  {
    var t := Step(cfg, s, Yield(w, d));
    if t.Active? {
      var c' := Released(cfg, s.running.value, w, d);
      var q := Insert(ByWakeup, s.waiting, c');
      var m := s.(running := None, waiting := q, nextWake := q[0].wakeup);
      InsertSorted(ByWakeup, s.waiting, c');
      YieldMoves(cfg, s, c', m);
      ChooseNextKeeps(cfg, m);
      assert t == ChooseNext(m);
      assert All(t) == All(m);
      assert forall id :: IsLive(cfg, t, id) == IsLive(cfg, m, id);
    }
  }

  /** Handing out a reserve slot makes one more context live, and places it. */
  lemma DupMoves(cfg: Config, s: State, t: State)
    requires s.Active? && s.running.Some? && s.reserve > 0 && cfg.dynamic
    requires t == DupStep(cfg, s, s.running.value) && t.Active?
    requires Placed(cfg, s) && Counted(cfg, s) && Initialised(cfg, s)
    ensures Placed(cfg, t) && Counted(cfg, t) && Initialised(cfg, t)
  {
    var k := cfg.ReadyKey();
    var c' := s.running.value.(id := Reserve(s.reserve - 1));
    InsertMembers(k, s.ready, c');
    forall id
      ensures Count(All(t), id) == if IsLive(cfg, t, id) then 1 else 0
    {
      InsertCount(k, s.ready, c', id);
      AllCount(t, id);
      AllCount(s, id);
      assert Count(All(s), id) == if IsLive(cfg, s, id) then 1 else 0;
    }
    assert s.running.value in All(s);
    forall x | x in All(t)
      ensures x == c' || x in All(s)
    {
      AllMembers(t, x);
      AllMembers(s, x);
    }
  }

  /** The copy has the key of the running context, so it does not outrank it. */
  lemma DupOrder(cfg: Config, ready: seq<Ctx>, c: Ctx, id: CtxId)
    requires Sorted(cfg.ReadyKey(), ready)
    requires forall d :: d in ready ==> !Outranks(cfg.ReadyKey(), d, c)
    ensures var r := Insert(cfg.ReadyKey(), ready, c.(id := id));
            Sorted(cfg.ReadyKey(), r) && forall d :: d in r ==> !Outranks(cfg.ReadyKey(), d, c)
  {
  }

  lemma DupKeeps(cfg: Config, s: State)
    requires s.Active? && s.running.Some? && Inv(cfg, s)
    ensures Inv(cfg, Step(cfg, s, Dup))
  {
    var c := s.running.value;
    var t := DupStep(cfg, s, c);
    if t.Active? {
      DupMoves(cfg, s, t);
      DupOrder(cfg, s.ready, c, Reserve(s.reserve - 1));
    }
  }

  /** A firing tick that finds the idle context running and a task waiting switches to a task. */
  lemma FireKeeps(cfg: Config, s: State)
    requires s.Active? && Inv(cfg, s) && s.clock >= s.nextWake
    ensures Inv(cfg, FireStep(cfg, s))
    ensures var t := FireStep(cfg, s);
            t.Active? && s.waiting != [] ==> t.running.Some? && forall x :: x in t.waiting ==> x.wakeup > t.clock
  {
    var m := s.(nextWake := DATE_FAR_AWAY);
    var u := WakeTasks(cfg, m);
    if u.Active? {
      WakeTasksKeeps(cfg, m);
      WakeTasksMembers(cfg, m);
      var t := FireStep(cfg, s);
      if s.running.None? {
        ChooseNextKeeps(cfg, u);
      } else {
        MaybePreemptKeeps(cfg, u, s.running.value);
      }
      FireMoves(cfg, s, u, t);
    }
  }

  /** The accounting half of FireKeeps. */
  lemma FireMoves(cfg: Config, s: State, u: State, t: State)
    requires s.Active? && u.Active? && t.Active?
    requires Placed(cfg, s) && Counted(cfg, s) && Initialised(cfg, s)
    requires u.running == s.running && u.reserve == s.reserve == t.reserve && t.waiting == u.waiting
    requires forall id :: Count(u.ready, id) + Count(u.waiting, id) == Count(s.ready, id) + Count(s.waiting, id)
    requires forall x :: x in u.ready || x in u.waiting <==> x in s.ready || x in s.waiting
    requires |u.ready| + |u.waiting| == |s.ready| + |s.waiting|
    requires || All(t) == All(u)
             || (&& (forall id :: Count(Running(t), id) + Count(t.ready, id)
                               == Count(Running(u), id) + Count(u.ready, id))
                 && (forall x :: x in Running(t) || x in t.ready <==> x in Running(u) || x in u.ready)
                 && |Running(t)| + |t.ready| == |Running(u)| + |u.ready|)
    ensures Placed(cfg, t) && Counted(cfg, t) && Initialised(cfg, t)
  {
    forall id
      ensures Count(All(t), id) == Count(All(s), id)
    {
      AllCount(t, id);
      AllCount(u, id);
      AllCount(s, id);
    }
    forall x | x in All(t)
      ensures x in All(s)
    {
      AllMembers(t, x);
      AllMembers(u, x);
      AllMembers(s, x);
    }
  }

  lemma TickKeeps(cfg: Config, s: State)
    requires s.Active? && Inv(cfg, s)
    ensures Inv(cfg, Step(cfg, s, Tick))
  {
    var t := Ticked(s);
    assert All(t) == All(s);
    assert Inv(cfg, t);
    if Fires(s) {
      FireKeeps(cfg, t);
    }
  }

  lemma {:induction false} BootReadyKeeps(cfg: Config, n: nat)
    requires n <= cfg.NbTasks()
    ensures var r := BootReady(cfg, n);
            && Sorted(cfg.ReadyKey(), r) && |r| == n
            && (forall id :: Count(r, id) == if id.Task? && id.i < n then 1 else 0)
            && (forall c :: c in r ==> exists i: nat :: i < n && c == TaskContext(cfg, i))
  {
    if n > 0 {
      BootReadyKeeps(cfg, n - 1);
      var r, c := BootReady(cfg, n - 1), TaskContext(cfg, n - 1);
      InsertSorted(cfg.ReadyKey(), r, c);
      InsertMembers(cfg.ReadyKey(), r, c);
      forall id
        ensures Count(BootReady(cfg, n), id) == if id.Task? && id.i < n then 1 else 0
      {
        InsertCount(cfg.ReadyKey(), r, c, id);
      }
    }
  }

  lemma BootKeeps(cfg: Config)
    ensures Inv(cfg, Boot(cfg))
  {
    var r := BootReady(cfg, cfg.NbTasks());
    BootReadyKeeps(cfg, cfg.NbTasks());
    var s := Active(None, r, [], 0, DATE_FAR_AWAY, RESERVE_SIZE);
    assert All(s) == r;
    ChooseNextKeeps(cfg, s);
  }

  lemma StepKeeps(cfg: Config, s: State, e: Event)
    requires Inv(cfg, s)
    ensures Inv(cfg, Step(cfg, s, e))
  {
    if s.Active? {
      match e
      case Yield(w, d) => if s.running.Some? { YieldKeeps(cfg, s, w, d); }
      case Dup => if s.running.Some? { DupKeeps(cfg, s); }
      case Tick => TickKeeps(cfg, s);
    }
  }

  /** Every reachable state satisfies the invariant. */
  lemma {:induction false} RunKeeps(cfg: Config, es: seq<Event>)
    ensures Inv(cfg, Run(cfg, es))
  {
    if es == [] {
      BootKeeps(cfg);
    } else {
      RunKeeps(cfg, es[..|es| - 1]);
      StepKeeps(cfg, Run(cfg, es[..|es| - 1]), es[|es| - 1]);
    }
  }
}
