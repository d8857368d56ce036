/** What a run says about each context: its release dates are the sums of what it asked for,
    its keys do not change while it is queued, and two claims that hold only up to a point. */
module KernelHistory {
  import opened ContextValues
  import opened OrderedList
  import opened KernelSpec
  import opened KernelInvariants
  import opened KernelSafety
  import opened KernelTiming
  import opened PitClock
  import opened Waking

  // ----- who is where after a step

  lemma {:induction false} CountUnique(s: seq<Ctx>, x: Ctx, y: Ctx)
    requires x in s && y in s && x.id == y.id && Count(s, x.id) <= 1
    ensures x == y
  {
    if s[0].id == x.id {
      CountMember(s[1..], x.id);
      assert s == [s[0]] + s[1..];
    } else {
      CountUnique(s[1..], x, y);
    }
  }

  lemma UniqueId(cfg: Config, s: State, x: Ctx, y: Ctx)
    requires s.Active? && Placed(cfg, s) && x in All(s) && y in All(s) && x.id == y.id
    ensures x == y
  {
    CountUnique(All(s), x, y);
  }

  /** The queues hold nobody with the name of the running context. */
  lemma OthersDiffer(cfg: Config, s: State, x: Ctx)
    requires s.Active? && s.running.Some? && Placed(cfg, s) && (x in s.ready || x in s.waiting)
    ensures x.id != s.running.value.id
  {
    var id := s.running.value.id;
    AllCount(s, id);
    CountMember(s.ready, id);
    CountMember(s.waiting, id);
    assert Count(Running(s), id) == 1;
  }

  lemma FreshDiffers(cfg: Config, s: State, x: Ctx)
    requires s.Active? && Placed(cfg, s) && s.reserve > 0 && x in All(s)
    ensures x.id != Reserve(s.reserve - 1)
  {
    CountMember(All(s), x.id);
    assert Count(All(s), x.id) == if IsLive(cfg, s, x.id) then 1 else 0;
  }

  lemma YieldMembers(cfg: Config, s: State, w: u64, d: u64, x: Ctx)
    requires s.Active? && s.running.Some? && YieldStep(cfg, s, s.running.value, w, d).Active?
    requires x in All(YieldStep(cfg, s, s.running.value, w, d))
    ensures x == Released(cfg, s.running.value, w, d) || x in s.ready || x in s.waiting
  {
  }

  lemma DupMembers(cfg: Config, s: State, x: Ctx)
    requires s.Active? && s.running.Some? && DupStep(cfg, s, s.running.value).Active?
    requires x in All(DupStep(cfg, s, s.running.value))
    ensures x == s.running.value.(id := Reserve(s.reserve - 1)) || x in All(s)
  {
  }

  lemma FireMembers(cfg: Config, s: State, x: Ctx)
    requires s.Active? && Ordered(cfg, s) && FireStep(cfg, s).Active?
    requires x in All(FireStep(cfg, s))
    ensures x in All(s)
  {
    var m := s.(nextWake := DATE_FAR_AWAY);
    var u := WakeTasks(cfg, m);
    WakeTasksKeeps(cfg, m);
    WakeTasksMembers(cfg, m);
    if s.running.None? {
      ChooseNextKeeps(cfg, u);
    } else {
      MaybePreemptKeeps(cfg, u, s.running.value);
    }
    AllMembers(FireStep(cfg, s), x);
    AllMembers(u, x);
    AllMembers(s, x);
  }

  // ----- release dates do not drift

  /** What a context has asked for: the sum of all the durations, and the last relative deadline. */
  datatype Account = Account(asked: nat, deadline: Option<u64>)

  /** The account of context `id` after a run. A copy starts with the account of its parent. */
  ghost function AccountOf(cfg: Config, es: seq<Event>, id: CtxId): Account
    decreases |es|
  {
    if es == [] then Account(0, None)
    else
      var es' := es[..|es| - 1];
      Posted(cfg, Run(cfg, es'), es[|es| - 1], id,
             AccountOf(cfg, es', id),
             if Run(cfg, es').Active? && Run(cfg, es').running.Some?
             then AccountOf(cfg, es', Run(cfg, es').running.value.id) else Account(0, None))
  }

  /** The account of `id` after event `e`, given its own account and that of the running context. */
  ghost function Posted(cfg: Config, s: State, e: Event, id: CtxId, own: Account, running: Account): Account {
    if s.Halted? || s.running.None? then own
    else
      match e
      case Yield(w, d) => if id == s.running.value.id then Account(own.asked + w, Some(d)) else own
      case Dup => if s.reserve > 0 && id == Reserve(s.reserve - 1) then running else own
      case Tick => own
  }

  /** A context agrees with an account. */
  ghost predicate Agrees(cfg: Config, c: Ctx, a: Account) {
    && c.wakeup == a.asked % TWO64
    && (cfg.policy == EDF ==>
          c.deadline == if a.deadline.None? then 0 else AddDate(c.wakeup, a.deadline.value))
  }

  lemma PostedAgrees(cfg: Config, s: State, e: Event, x: Ctx, own: Account, running: Account)
    requires s.Active? && Inv(cfg, s) && Step(cfg, s, e).Active? && x in All(Step(cfg, s, e))
    requires s.running.Some? ==> Agrees(cfg, s.running.value, running)
    requires s.running.Some? && x.id == s.running.value.id ==> own == running
    requires forall y :: y in All(s) && y.id == x.id ==> Agrees(cfg, y, own)
    ensures Agrees(cfg, x, Posted(cfg, s, e, x.id, own, running))
  {
    match e
    case Yield(w, d) =>
      if s.running.Some? {
        YieldMembers(cfg, s, w, d, x);
        if x in s.ready || x in s.waiting {
          OthersDiffer(cfg, s, x);
          AllMembers(s, x);
        } else {
          WrapAdd(own.asked, w);
        }
      }
    case Dup =>
      if s.running.Some? {
        DupMembers(cfg, s, x);
        if x in All(s) {
          FreshDiffers(cfg, s, x);
        }
      }
    case Tick =>
      if Fires(s) {
        FireMembers(cfg, Ticked(s), x);
      }
      assert All(Ticked(s)) == All(s);
  }

  /** Along any run, whatever ticks and preemptions intervene, the wake-up date of every context
      is the sum, modulo 2^64, of the durations it passed to yield, and under EDF its deadline is
      that date plus the relative deadline of its last yield. */
  lemma {:induction false} DatesDoNotDrift(cfg: Config, es: seq<Event>, x: Ctx)
    requires Run(cfg, es).Active? && x in All(Run(cfg, es))
    ensures Agrees(cfg, x, AccountOf(cfg, es, x.id))
    decreases |es|
  {
    if es == [] {
      BootMembers(cfg, x);
    } else {
      var es' := es[..|es| - 1];
      var s := Run(cfg, es');
      RunKeeps(cfg, es');
      var running := Account(0, None);
      if s.running.Some? {
        assert s.running.value in All(s);
        DatesDoNotDrift(cfg, es', s.running.value);
        running := AccountOf(cfg, es', s.running.value.id);
      }
      forall y | y in All(s) && y.id == x.id
        ensures Agrees(cfg, y, AccountOf(cfg, es', x.id))
      {
        DatesDoNotDrift(cfg, es', y);
      }
      PostedAgrees(cfg, s, es[|es| - 1], x, AccountOf(cfg, es', x.id), running);
    }
  }

  lemma BootMembers(cfg: Config, x: Ctx)
    requires x in All(Boot(cfg))
    ensures x.id.Task? && x.id.i < cfg.NbTasks() && x == TaskContext(cfg, x.id.i)
  {
    var s := Active(None, BootReady(cfg, cfg.NbTasks()), [], 0, DATE_FAR_AWAY, RESERVE_SIZE);
    assert All(s) == s.ready;
    assert x in s.ready by {
      BootReadyKeeps(cfg, cfg.NbTasks());
      ChooseNextKeeps(cfg, s);
    }
    BootReadyKeeps(cfg, cfg.NbTasks());
  }

  // ----- fixed priorities

  /** The task that a context descends from: a task itself, and a copy from whom its parent does. */
  ghost function Ancestor(cfg: Config, es: seq<Event>, id: CtxId): CtxId
    decreases |es|
  {
    if es == [] then id
    else
      var es' := es[..|es| - 1];
      var s := Run(cfg, es');
      if es[|es| - 1] == Dup && s.Active? && s.running.Some? && s.reserve > 0 && id == Reserve(s.reserve - 1)
      then Ancestor(cfg, es', s.running.value.id) else Ancestor(cfg, es', id)
  }

  /** The priority that the task image gives to the task `id`. */
  ghost predicate HasPriorityOf(cfg: Config, x: Ctx, id: CtxId) {
    && id.Task? && id.i < |cfg.priorities|
    && x.priority == (if cfg.policy == FP then cfg.priorities[id.i] else 0)
    && (x.id.Task? ==> x.id == id)
  }

  lemma BootPriorities(cfg: Config, x: Ctx)
    requires x in All(Boot(cfg))
    ensures HasPriorityOf(cfg, x, x.id)
  {
    BootMembers(cfg, x);
  }

  /** A step changes no priority, and a copy starts with that of its parent. */
  lemma StepPriority(cfg: Config, s: State, e: Event, x: Ctx) returns (y: Ctx)
    requires s.Active? && Inv(cfg, s) && Step(cfg, s, e).Active? && x in All(Step(cfg, s, e))
    ensures y in All(s) && x.priority == y.priority
    ensures if e == Dup && s.running.Some? && s.reserve > 0 && x.id == Reserve(s.reserve - 1)
            then s.running == Some(y) else x.id == y.id
  {
    y := x;
    match e
    case Yield(w, d) =>
      if s.running.Some? {
        YieldMembers(cfg, s, w, d, x);
        AllMembers(s, x);
        if x !in s.ready && x !in s.waiting {
          y := s.running.value;
          AllMembers(s, y);
        }
      }
    case Dup =>
      if s.running.Some? {
        DupMembers(cfg, s, x);
        if x in All(s) {
          FreshDiffers(cfg, s, x);
        } else {
          y := s.running.value;
          AllMembers(s, y);
        }
      }
    case Tick =>
      assert All(Ticked(s)) == All(s);
      if Fires(s) {
        FireMembers(cfg, Ticked(s), x);
      }
  }

  /** Along any run every task has the priority that the task image gives it, and every copy the
      priority of the task it descends from. */
  lemma {:induction false} PrioritiesInherited(cfg: Config, es: seq<Event>, x: Ctx)
    requires Run(cfg, es).Active? && x in All(Run(cfg, es))
    ensures HasPriorityOf(cfg, x, Ancestor(cfg, es, x.id))
    ensures cfg.policy == FP && x.id.Task? ==> x.id.i < |cfg.priorities| && x.priority == cfg.priorities[x.id.i]
    decreases |es|
  {
    if es == [] {
      BootPriorities(cfg, x);
    } else {
      var es' := es[..|es| - 1];
      RunKeeps(cfg, es');
      var y := StepPriority(cfg, Run(cfg, es'), es[|es| - 1], x);
      PrioritiesInherited(cfg, es', y);
    }
  }

  // ----- keys of queued contexts

  /** A context that is queued before and after a step is the same: no key changes in a queue. */
  lemma QueuedUnchanged(cfg: Config, es: seq<Event>, e: Event, x: Ctx, y: Ctx)
    requires Run(cfg, es).Active? && Run(cfg, es + [e]).Active?
    requires x in Run(cfg, es).ready + Run(cfg, es).waiting
    requires y in Run(cfg, es + [e]).ready + Run(cfg, es + [e]).waiting && x.id == y.id
    ensures x == y
  {
    RunKeeps(cfg, es);
    RunExtend(cfg, es, e);
    var s := Run(cfg, es);
    AllMembers(s, x);
    StepUnchanged(cfg, s, e, x, y);
  }

  lemma StepUnchanged(cfg: Config, s: State, e: Event, x: Ctx, y: Ctx)
    requires s.Active? && Inv(cfg, s) && Step(cfg, s, e).Active?
    requires x in All(s) && (x in s.ready || x in s.waiting)
    requires y in All(Step(cfg, s, e)) && x.id == y.id
    ensures x == y
  {
    assert y in All(s) by {
      StillThere(cfg, s, e, x, y);
    }
    UniqueId(cfg, s, x, y);
  }

  lemma StillThere(cfg: Config, s: State, e: Event, x: Ctx, y: Ctx)
    requires s.Active? && Inv(cfg, s) && Step(cfg, s, e).Active?
    requires x in All(s) && (x in s.ready || x in s.waiting)
    requires y in All(Step(cfg, s, e)) && x.id == y.id
    ensures y in All(s)
  {
    match e
    case Yield(w, d) =>
      if s.running.Some? {
        OthersDiffer(cfg, s, x);
        YieldMembers(cfg, s, w, d, y);
        AllMembers(s, y);
      }
    case Dup =>
      if s.running.Some? {
        DupMembers(cfg, s, y);
        FreshDiffers(cfg, s, x);
      }
    case Tick =>
      assert All(Ticked(s)) == All(s);
      if Fires(s) {
        FireMembers(cfg, Ticked(s), y);
      }
  }

  // ----- two claims that hold only up to a point

  /** Two tasks, the second due one tick after the first. */
  const TWO_TASKS := Config(EDF, false, [0, 0])
  const TWO_YIELDS := [Yield(ACTUAL_TICK, 0), Yield(2 * ACTUAL_TICK, 0)]

  /** A firing tick disarms the timer and nothing re-arms it, so "the timer is armed at the first
      waiting date" is false, and a task can be left waiting past its date. */
  lemma TimerLeftDisarmed()
    ensures var s := Run(TWO_TASKS, TWO_YIELDS + [Tick]);
            s.Active? && s.waiting != [] && s.nextWake == DATE_FAR_AWAY != s.waiting[0].wakeup
    ensures var s := Run(TWO_TASKS, TWO_YIELDS + [Tick] + [Tick]);
            s.Active? && SomeoneLate(s)
  {
    var t0, t1 := Ctx(Task(0), 0, 0, 0, 0), Ctx(Task(1), 0, 0, 0, 0);
    assert TaskContext(TWO_TASKS, 0) == t0 && TaskContext(TWO_TASKS, 1) == t1;
    assert BootReady(TWO_TASKS, 0) == [];
    assert BootReady(TWO_TASKS, 1) == [t0];
    assert InsertPos(ByDeadline, [t0], t1) == 1;
    assert BootReady(TWO_TASKS, 2) == [t0, t1];
    var w0 := t0.(wakeup := ACTUAL_TICK, deadline := ACTUAL_TICK);
    var w1 := t1.(wakeup := 2 * ACTUAL_TICK, deadline := 2 * ACTUAL_TICK);
    var a := Active(Some(t0), [t1], [], 0, DATE_FAR_AWAY, RESERVE_SIZE);
    var b := Active(Some(t1), [], [w0], 0, ACTUAL_TICK, RESERVE_SIZE);
    var c := Active(None, [], [w0, w1], 0, ACTUAL_TICK, RESERVE_SIZE);
    var d := Active(Some(w0), [], [w1], ACTUAL_TICK, DATE_FAR_AWAY, RESERVE_SIZE);
    var e := d.(clock := 2 * ACTUAL_TICK);
    assert Boot(TWO_TASKS) == a;
    assert Step(TWO_TASKS, a, TWO_YIELDS[0]) == b;
    TwoTasksStep(b, w0, t1, w1, c);
    TwoTasksFire(c, w0, w1, d);
    assert Step(TWO_TASKS, d, Tick) == e;
    assert TWO_YIELDS[..1] == [TWO_YIELDS[0]] && TWO_YIELDS[..1][..0] == [];
    assert Run(TWO_TASKS, []) == a;
    assert Run(TWO_TASKS, TWO_YIELDS[..1]) == b;
    assert Run(TWO_TASKS, TWO_YIELDS) == c;
    RunExtend(TWO_TASKS, TWO_YIELDS, Tick);
    RunExtend(TWO_TASKS, TWO_YIELDS + [Tick], Tick);
    assert w1 in e.waiting;
  }

  lemma TwoTasksStep(b: State, w0: Ctx, t1: Ctx, w1: Ctx, c: State)
    requires w0.wakeup == ACTUAL_TICK && t1 == Ctx(Task(1), 0, 0, 0, 0)
    requires w1 == t1.(wakeup := 2 * ACTUAL_TICK, deadline := 2 * ACTUAL_TICK)
    requires b == Active(Some(t1), [], [w0], 0, ACTUAL_TICK, RESERVE_SIZE)
    requires c == Active(None, [], [w0, w1], 0, ACTUAL_TICK, RESERVE_SIZE)
    ensures Step(TWO_TASKS, b, Yield(2 * ACTUAL_TICK, 0)) == c
  {
  }

  lemma TwoTasksFire(c: State, w0: Ctx, w1: Ctx, d: State)
    requires w0.wakeup == ACTUAL_TICK && w1.wakeup == 2 * ACTUAL_TICK
    requires c == Active(None, [], [w0, w1], 0, ACTUAL_TICK, RESERVE_SIZE)
    requires d == Active(Some(w0), [], [w1], ACTUAL_TICK, DATE_FAR_AWAY, RESERVE_SIZE)
    ensures Step(TWO_TASKS, c, Tick) == d
  {
    var m := c.(clock := ACTUAL_TICK, nextWake := DATE_FAR_AWAY);
    assert Insert(ByDeadline, [], w0) == [w0];
    assert [w0, w1][1..] == [w1];
    var n := m.(ready := [w0], waiting := [w1]);
    assert WakeTasks(TWO_TASKS, n) == n;
    assert WakeTasks(TWO_TASKS, m) == n;
  }

  /** Along a run without dup_thread, a tick halts nothing and keeps released tasks released. */
  lemma TickKeepsReleased(cfg: Config, s: State, x: Ctx)
    requires s.Active? && Inv(cfg, s) && s.reserve == RESERVE_SIZE
    ensures var t := Step(cfg, s, Tick);
            && t.Active? && t.reserve == RESERVE_SIZE
            && (x in Running(s) || x in s.ready ==> x in Running(t) || x in t.ready)
            && (Fires(s) && x in s.waiting && x.wakeup <= Ticked(s).clock ==> x in Running(t) || x in t.ready)
  {
    StepNotFull(cfg, s, Tick);
    DupAlone(cfg, s, Tick);
    var t := Ticked(s);
    if Fires(s) && (x in Running(t) || x in t.ready || (x in t.waiting && x.wakeup <= t.clock)) {
      FireKeepsReleased(cfg, Ticked(s), x);
    }
  }

  lemma FireKeepsReleased(cfg: Config, s: State, x: Ctx)
    requires s.Active? && Ordered(cfg, s) && FireStep(cfg, s).Active?
    requires x in Running(s) || x in s.ready || (x in s.waiting && x.wakeup <= s.clock)
    ensures x in Running(FireStep(cfg, s)) || x in FireStep(cfg, s).ready
  {
    var m := s.(nextWake := DATE_FAR_AWAY);
    var u := WakeTasks(cfg, m);
    WakeTasksKeeps(cfg, m);
    WakeTasksMembers(cfg, m);
    if x in s.ready {
      WakeTasksReady(cfg, m, x);
    }
    if s.running.None? {
      if u.ready != [] {
        assert u.ready == [u.ready[0]] + u.ready[1..];
      }
    } else {
      MaybePreemptKeeps(cfg, u, s.running.value);
    }
  }

  lemma WakeTasksReady(cfg: Config, s: State, x: Ctx)
    requires s.Active? && WakeTasks(cfg, s).Active? && x in s.ready
    ensures x in WakeTasks(cfg, s).ready
  {
    WakeTasksMoves(cfg, s);
    InsertAllMembers(cfg.ReadyKey(), s.ready, s.waiting[..Due(s.waiting, s.clock)]);
  }

  /** After boot, the running task asks to be released one tick later. */
  ghost function OneYield(): seq<Event> {
    [Yield(ACTUAL_TICK, 0)]
  }

  lemma BootRunsATask(cfg: Config)
    requires cfg.NbTasks() > 0
    ensures var s := Boot(cfg);
            s.running.Some? && s.running.value.wakeup == 0 && s.waiting == [] && s.reserve == RESERVE_SIZE
  {
    BootReadyKeeps(cfg, cfg.NbTasks());
    BootOnTime(cfg);
  }

  /** From the first tick on, that task is ready or running, with a wake-up date of one tick. */
  lemma {:induction false} ReleasedAtFirstTick(cfg: Config, n: nat) returns (x: Ctx)
    requires cfg.NbTasks() > 0 && n > 0
    ensures x.wakeup == ACTUAL_TICK
    ensures var s := Run(cfg, OneYield() + Repeat(n, Tick));
            s.Active? && s.reserve == RESERVE_SIZE && (x in Running(s) || x in s.ready)
  {
    var es := OneYield() + Repeat(n - 1, Tick);
    RunKeeps(cfg, es);
    RunRepeat(cfg, OneYield(), n, Tick);
    if n == 1 {
      assert es == OneYield();
      x := AfterOneYield(cfg);
    } else {
      x := ReleasedAtFirstTick(cfg, n - 1);
    }
    TickKeepsReleased(cfg, Run(cfg, es), x);
  }

  lemma AfterOneYield(cfg: Config) returns (x: Ctx)
    requires cfg.NbTasks() > 0
    ensures var s := Run(cfg, OneYield());
            && s.Active? && s.reserve == RESERVE_SIZE && s.waiting == [x] && x.wakeup == ACTUAL_TICK
            && s.nextWake == ACTUAL_TICK && s.clock == 0
  {
    BootRunsATask(cfg);
    assert OneYield()[..0] == [];
    x := Released(cfg, Boot(cfg).running.value, ACTUAL_TICK, 0);
    assert Insert(ByWakeup, [], x) == [x];
  }

  lemma {:induction false} TicksOfRepeat(es: seq<Event>, n: nat)
    ensures NbTicks(es + Repeat(n, Tick)) == NbTicks(es) + n
  {
    if n == 0 {
      assert es + Repeat(0, Tick) == es;
    } else {
      TicksOfRepeat(es, n - 1);
      assert (es + Repeat(n, Tick))[..|es| + n - 1] == es + Repeat(n - 1, Tick);
    }
  }

  /** The tick that wraps the clock puts it behind the date of a task that is released. */
  lemma WrapBreaksOnTime(cfg: Config, k: nat)
    requires cfg.NbTasks() > 0 && k > 0 && TWO64 <= k * ACTUAL_TICK < TWO64 + ACTUAL_TICK
    ensures var es := OneYield() + Repeat(k, Tick);
            NbTicks(es) == k && Run(cfg, es).Active? && !OnTime(Run(cfg, es))
  {
    var es := OneYield() + Repeat(k, Tick);
    var x := ReleasedAtFirstTick(cfg, k);
    TicksOfRepeat(OneYield(), k);
    assert OneYield()[..0] == [];
    assert NbTicks(OneYield()) == 0;
    ClockValue(cfg, es);
    assert (k * ACTUAL_TICK) % TWO64 == k * ACTUAL_TICK - TWO64;
  }

  /** "Nobody is released early" holds in all the runs of at most n ticks exactly as long as n
      ticks do not wrap the 64-bit clock. */
  lemma NoEarlyReleaseExactly(cfg: Config, n: nat)
    requires cfg.NbTasks() > 0
    ensures (forall es :: NbTicks(es) <= n && Run(cfg, es).Active? ==> OnTime(Run(cfg, es)))
            <==> n * ACTUAL_TICK < TWO64
  {
    if n * ACTUAL_TICK < TWO64 {
      forall es | NbTicks(es) <= n && Run(cfg, es).Active?
        ensures OnTime(Run(cfg, es))
      {
        assert NbTicks(es) * ACTUAL_TICK <= n * ACTUAL_TICK;
        NoEarlyRelease(cfg, es);
      }
    } else {
      var k := (TWO64 - 1) / ACTUAL_TICK + 1;
      assert TWO64 <= k * ACTUAL_TICK < TWO64 + ACTUAL_TICK;
      assert k <= n;
      WrapBreaksOnTime(cfg, k);
      assert NbTicks(OneYield() + Repeat(k, Tick)) <= n;
    }
  }
}
