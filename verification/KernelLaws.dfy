/** What boot and every event do, said without saying how: in dates, deadlines and priorities,
    and by who comes before whom. The laws leave no choice, so the state machine is the only
    machine that obeys them. */
module KernelLaws {
  import opened ContextValues
  import opened OrderedList
  import opened KernelSpec
  import opened KernelInvariants
  import opened Waking

  /** `c` is to run rather than `d`. */
  predicate Precedes(policy: Policy, c: Ctx, d: Ctx) {
    match policy
    case EDF => c.deadline < d.deadline
    case FP => c.priority > d.priority
  }

  function Order(policy: Policy): Key {
    match policy
    case EDF => ByDeadline
    case FP => ByPriority
  }

  /** How many contexts a queue is meant for. */
  function Capacity(cfg: Config): nat {
    if cfg.dynamic then 8 * |cfg.priorities| else |cfg.priorities|
  }

  /** The tasks as the boot makes them, in the order of the task image. */
  function Tasks(cfg: Config): seq<Ctx> {
    seq(|cfg.priorities|, i requires 0 <= i < |cfg.priorities| =>
      Ctx(Task(i), 0, 0, if cfg.policy == FP then cfg.priorities[i] else 0, if cfg.dynamic then 8 else 0))
  }

  // ----- the laws

  /** The processor and the ready queue hold the arrivals in the order of service, first come
      first served among equals; idle runs only if there are none. */
  ghost predicate Served(cfg: Config, arrivals: seq<Ctx>, t: State)
    requires t.Active?
  {
    IsStableSort(Order(cfg.policy), arrivals, Running(t) + t.ready) && (t.running.None? ==> t.ready == [])
  }

  ghost predicate BootLaw(cfg: Config, t: State) {
    && t.Active? && Served(cfg, Tasks(cfg), t) && t.waiting == []
    && t.clock == 0 && t.nextWake == 0xFFFF_FFFF_FFFF_FFFF && t.reserve == 10
  }

  /** A task that asks to be released `w` after its last release, with a deadline `d` later. */
  function Asking(cfg: Config, c: Ctx, w: u64, d: u64): Ctx {
    var date: u64 := (c.wakeup + w) % 0x1_0000_0000_0000_0000;
    Ctx(c.id, date, if cfg.policy == EDF then (date + d) % 0x1_0000_0000_0000_0000 else c.deadline,
        c.priority, c.range)
  }

  /** The running task waits behind those with the same or an earlier date, and the timer is set
      to the first date; the ready queue gives the processor to its head. */
  ghost predicate YieldLaw(cfg: Config, s: State, c: Ctx, w: u64, d: u64, t: State)
    requires s.Active?
  {
    if |s.waiting| > Capacity(cfg) then t == Halted(QueueFull)
    else
      && t.Active? && Running(t) + t.ready == s.ready && (t.running.None? ==> t.ready == [])
      && IsStableSort(ByWakeup, s.waiting + [Asking(cfg, c, w, d)], t.waiting)
      && t.waiting != [] && t.nextWake == t.waiting[0].wakeup
      && t.clock == s.clock && t.reserve == s.reserve
  }

  /** The copy differs from the original in name only, and queues behind its equals. */
  ghost predicate DupLaw(cfg: Config, s: State, c: Ctx, t: State)
    requires s.Active?
  {
    if !cfg.dynamic then t == Halted(NoDynamicCreation)
    else if c.range == 0 then t == Halted(NoRange)
    else if s.reserve == 0 then t == Halted(NoReserve)
    else
      var copy := Ctx(Reserve(s.reserve - 1), c.wakeup, c.deadline, c.priority, c.range);
      && t.Active? && t == s.(reserve := s.reserve - 1, ready := t.ready)
      && IsStableSort(Order(cfg.policy), s.ready + [copy], t.ready)
  }

  /** The first `n` contexts are those whose date has come. */
  ghost predicate DueSplit(s: seq<Ctx>, now: nat, n: nat) {
    && n <= |s|
    && (forall i :: 0 <= i < n ==> s[i].wakeup <= now) && (forall i :: n <= i < |s| ==> s[i].wakeup > now)
  }

  /** Who runs when the given contexts, in the order of their arrival, are ready: a running task
      gives way to a strictly preceding one only, and then comes last among its equals. */
  ghost predicate DispatchLaw(cfg: Config, running: Option<Ctx>, arrivals: seq<Ctx>, t: State)
    requires t.Active?
  {
    if running.None? then Served(cfg, arrivals, t)
    else if exists x :: x in arrivals && Precedes(cfg.policy, x, running.value) then
      t.running.Some? && Served(cfg, arrivals + [running.value], t)
    else t.running == running && IsStableSort(Order(cfg.policy), arrivals, t.ready)
  }

  /** A firing tick with `n` due contexts: they arrive in the ready queue in the order of their dates. */
  ghost predicate FireLaw(cfg: Config, s: State, now: u64, n: nat, t: State)
    requires s.Active? && n <= |s.waiting|
  {
    if n > 0 && |s.ready| + n - 1 > Capacity(cfg) then t == Halted(QueueFull)
    else
      && t.Active? && t.clock == now && t.nextWake == 0xFFFF_FFFF_FFFF_FFFF && t.reserve == s.reserve
      && t.waiting == s.waiting[n..] && DispatchLaw(cfg, s.running, s.ready + s.waiting[..n], t)
  }

  ghost predicate TickLaw(cfg: Config, s: State, t: State)
    requires s.Active?
  {
    var now: u64 := (s.clock + 999_847) % 0x1_0000_0000_0000_0000;
    if now < s.nextWake then t == s.(clock := now)
    else exists n: nat :: DueSplit(s.waiting, now, n) && FireLaw(cfg, s, now, n, t)
  }

  ghost predicate Law(cfg: Config, s: State, e: Event, t: State) {
    if s.Halted? then t == s
    else
      match e
      case Yield(w, d) => if s.running.None? then t == s else YieldLaw(cfg, s, s.running.value, w, d, t)
      case Dup => if s.running.None? then t == s else DupLaw(cfg, s, s.running.value, t)
      case Tick => TickLaw(cfg, s, t)
  }

  // ----- the state machine obeys them

  /** The order of service is that of the deadlines or of the fixed priorities. */
  lemma OrderMeaning(cfg: Config, c: Ctx, d: Ctx)
    ensures cfg.ReadyKey() == Order(cfg.policy)
    ensures Outranks(Order(cfg.policy), c, d) <==> Precedes(cfg.policy, c, d)
    ensures Outranks(ByWakeup, c, d) <==> c.wakeup < d.wakeup
    ensures forall k: Key :: GetPriority(k, c) == GetPriority(k, d) <==> !Outranks(k, c, d) && !Outranks(k, d, c)
  {
  }

  /** One more arrival, inserted, comes last among its equals. */
  lemma InsertArrival(k: Key, arrivals: seq<Ctx>, q: seq<Ctx>, c: Ctx)
    requires IsStableSort(k, arrivals, q)
    ensures IsStableSort(k, arrivals + [c], Insert(k, q, c))
  {
    InsertSorted(k, q, c);
    forall p: nat
      ensures WithPriority(k, Insert(k, q, c), p) == WithPriority(k, arrivals + [c], p)
    {
      InsertStable(k, q, c, p);
      WithPriorityConcat(k, arrivals, [c], p);
      assert WithPriority(k, [c], p) == if GetPriority(k, c) == p then [c] else [];
    }
  }

  lemma {:induction false} BootReadyObeys(cfg: Config, n: nat)
    requires n <= cfg.NbTasks()
    ensures IsStableSort(cfg.ReadyKey(), Tasks(cfg)[..n], BootReady(cfg, n))
  {
    if n > 0 {
      BootReadyObeys(cfg, n - 1);
      NextTask(cfg, n);
      InsertArrival(cfg.ReadyKey(), Tasks(cfg)[..n - 1], BootReady(cfg, n - 1), TaskContext(cfg, n - 1));
    }
  }

  lemma NextTask(cfg: Config, n: nat)
    requires 0 < n <= cfg.NbTasks()
    ensures Tasks(cfg)[..n] == Tasks(cfg)[..n - 1] + [TaskContext(cfg, n - 1)]
  {
  }

  /** Boot: the tasks are served in the order of the image among equals. */
  lemma BootObeys(cfg: Config)
    ensures BootLaw(cfg, Boot(cfg))
  {
    var r, t := BootReady(cfg, cfg.NbTasks()), Boot(cfg);
    BootReadyObeys(cfg, cfg.NbTasks());
    assert Tasks(cfg)[..cfg.NbTasks()] == Tasks(cfg);
    assert Running(t) + t.ready == r;
  }

  lemma YieldObeys(cfg: Config, s: State, w: u64, d: u64)
    requires s.Active? && s.running.Some? && Ordered(cfg, s)
    ensures YieldLaw(cfg, s, s.running.value, w, d, YieldStep(cfg, s, s.running.value, w, d))
  {
    var c', t := Asking(cfg, s.running.value, w, d), YieldStep(cfg, s, s.running.value, w, d);
    assert c' == Released(cfg, s.running.value, w, d);
    if t.Active? {
      var q := Insert(ByWakeup, s.waiting, c');
      assert q != [] && t == ChooseNext(s.(waiting := q, nextWake := q[0].wakeup));
      InsertArrival(ByWakeup, s.waiting, s.waiting, c');
      assert Running(t) + t.ready == s.ready;
    }
  }

  lemma DupObeys(cfg: Config, s: State)
    requires s.Active? && s.running.Some? && Ordered(cfg, s)
    ensures DupLaw(cfg, s, s.running.value, DupStep(cfg, s, s.running.value))
  {
    var c := s.running.value;
    if s.reserve > 0 {
      InsertArrival(cfg.ReadyKey(), s.ready, s.ready, c.(id := Reserve(s.reserve - 1)));
    }
  }

  lemma DispatchObeys(cfg: Config, running: Option<Ctx>, arrivals: seq<Ctx>, u: State, t: State)
    requires u.Active? && IsStableSort(cfg.ReadyKey(), arrivals, u.ready)
    requires t == if running.None? then ChooseNext(u) else MaybePreempt(cfg, u, running.value)
    ensures DispatchLaw(cfg, running, arrivals, t)
  {
    if running.Some? {
      var c := running.value;
      SomeonePrecedes(cfg, arrivals, u.ready, c);
      if u.ready != [] && Outranks(cfg.ReadyKey(), u.ready[0], c) {
        InsertArrival(cfg.ReadyKey(), arrivals, u.ready, c);
        InsertMembers(cfg.ReadyKey(), u.ready, c);
        assert Running(t) + t.ready == Insert(cfg.ReadyKey(), u.ready, c);
      }
    } else {
      assert Running(t) + t.ready == u.ready;
    }
  }

  lemma SomeonePrecedes(cfg: Config, arrivals: seq<Ctx>, q: seq<Ctx>, c: Ctx)
    requires IsStableSort(cfg.ReadyKey(), arrivals, q)
    ensures (exists x :: x in arrivals && Precedes(cfg.policy, x, c))
            <==> q != [] && Outranks(cfg.ReadyKey(), q[0], c)
  {
    SortedMembers(cfg.ReadyKey(), arrivals, q);
    if x :| x in arrivals && Precedes(cfg.policy, x, c) {
      assert x in q;
      var i :| 0 <= i < |q| && q[i] == x;
      assert i > 0 ==> !Outranks(cfg.ReadyKey(), q[i], q[0]);
    }
    if q != [] && Outranks(cfg.ReadyKey(), q[0], c) {
      assert q[0] in arrivals && Precedes(cfg.policy, q[0], c);
    }
  }

  lemma SortedMembers(k: Key, arrivals: seq<Ctx>, q: seq<Ctx>)
    requires IsStableSort(k, arrivals, q)
    ensures forall x :: x in q <==> x in arrivals
  {
    forall x
      ensures x in q <==> x in arrivals
    {
      WithPriorityMembers(k, q, GetPriority(k, x));
      WithPriorityMembers(k, arrivals, GetPriority(k, x));
    }
  }

  lemma FireObeys(cfg: Config, s: State)
    requires s.Active? && Ordered(cfg, s)
    ensures var n := Due(s.waiting, s.clock);
            DueSplit(s.waiting, s.clock, n) && FireLaw(cfg, s, s.clock, n, FireStep(cfg, s))
  {
    var n := Due(s.waiting, s.clock);
    var m := s.(nextWake := DATE_FAR_AWAY);
    WakeTasksMoves(cfg, m);
    InsertAllIsStableSort(cfg.ReadyKey(), s.ready, s.waiting[..n]);
    SplitAtDue(s.waiting, s.clock);
    var u := WakeTasks(cfg, m);
    if u.Active? {
      DispatchObeys(cfg, s.running, s.ready + s.waiting[..n], u, FireStep(cfg, s));
    }
  }

  lemma SplitAtDue(s: seq<Ctx>, now: nat)
    requires Sorted(ByWakeup, s)
    ensures DueSplit(s, now, Due(s, now))
  {
    var n := Due(s, now);
    forall i | n <= i < |s|
      ensures s[i].wakeup > now
    {
      assert i > n ==> !Outranks(ByWakeup, s[i], s[n]);
    }
  }

  /** Every step from a state with sorted queues obeys the law of its event. */
  lemma StepObeys(cfg: Config, s: State, e: Event)
    requires s.Active? ==> Ordered(cfg, s)
    ensures Law(cfg, s, e, Step(cfg, s, e))
  {
    if s.Active? {
      match e
      case Yield(w, d) => if s.running.Some? { YieldObeys(cfg, s, w, d); }
      case Dup => if s.running.Some? { DupObeys(cfg, s); }
      case Tick => if Fires(s) { FireObeys(cfg, Ticked(s)); }
    }
  }

  // ----- the laws leave no choice

  lemma OneQueue(k: Key, arrivals: seq<Ctx>, q: seq<Ctx>, r: seq<Ctx>)
    requires IsStableSort(k, arrivals, q) && IsStableSort(k, arrivals, r)
    ensures q == r
  {
    StableSortUnique(k, q, r);
  }

  lemma OneServed(t: State, u: State)
    requires t.Active? && u.Active? && Running(t) + t.ready == Running(u) + u.ready
    requires (t.running.None? ==> t.ready == []) && (u.running.None? ==> u.ready == [])
    ensures t.running == u.running && t.ready == u.ready
  {
    var q, r := Running(t) + t.ready, Running(u) + u.ready;
    assert t.running.Some? ==> q[0] == t.running.value && q[1..] == t.ready;
    assert u.running.Some? ==> r[0] == u.running.value && r[1..] == u.ready;
  }

  lemma OneDispatch(cfg: Config, running: Option<Ctx>, arrivals: seq<Ctx>, t: State, u: State)
    requires t.Active? && u.Active?
    requires DispatchLaw(cfg, running, arrivals, t) && DispatchLaw(cfg, running, arrivals, u)
    ensures t.running == u.running && t.ready == u.ready
  {
    var k := Order(cfg.policy);
    if running.None? {
      OneQueue(k, arrivals, Running(t) + t.ready, Running(u) + u.ready);
      OneServed(t, u);
    } else if exists x :: x in arrivals && Precedes(cfg.policy, x, running.value) {
      OneQueue(k, arrivals + [running.value], Running(t) + t.ready, Running(u) + u.ready);
      OneServed(t, u);
    } else {
      OneQueue(k, arrivals, t.ready, u.ready);
    }
  }

  lemma OneTick(cfg: Config, s: State, t: State, u: State)
    requires s.Active? && TickLaw(cfg, s, t) && TickLaw(cfg, s, u)
    ensures t == u
  {
    var now: u64 := (s.clock + 999_847) % 0x1_0000_0000_0000_0000;
    if now >= s.nextWake {
      var n: nat :| DueSplit(s.waiting, now, n) && FireLaw(cfg, s, now, n, t);
      var m: nat :| DueSplit(s.waiting, now, m) && FireLaw(cfg, s, now, m, u);
      OneSplit(s.waiting, now, n, m);
      if t.Active? {
        OneDispatch(cfg, s.running, s.ready + s.waiting[..n], t, u);
      }
    }
  }

  lemma OneSplit(s: seq<Ctx>, now: nat, n: nat, m: nat)
    requires DueSplit(s, now, n) && DueSplit(s, now, m)
    ensures n == m
  {
    assert m < |s| ==> s[m].wakeup > now;
    assert n < |s| ==> s[n].wakeup > now;
  }

  lemma OneStep(cfg: Config, s: State, e: Event, t: State, u: State)
    requires Law(cfg, s, e, t) && Law(cfg, s, e, u)
    ensures t == u
  {
    if s.Active? {
      match e
      case Yield(w, d) =>
        if s.running.Some? && t.Active? {
          OneYield(cfg, s, s.running.value, w, d, t, u);
        }
      case Dup =>
        if s.running.Some? && t.Active? && u.Active? {
          var copy := s.running.value.(id := Reserve(s.reserve - 1));
          OneQueue(Order(cfg.policy), s.ready + [copy], t.ready, u.ready);
        }
      case Tick => OneTick(cfg, s, t, u);
    }
  }

  lemma OneYield(cfg: Config, s: State, c: Ctx, w: u64, d: u64, t: State, u: State)
    requires s.Active? && YieldLaw(cfg, s, c, w, d, t) && YieldLaw(cfg, s, c, w, d, u)
    ensures t == u
  {
    if t.Active? {
      OneServed(t, u);
      StableSortUnique(ByWakeup, t.waiting, u.waiting);
    }
  }

  lemma OneBoot(cfg: Config, t: State, u: State)
    requires BootLaw(cfg, t) && BootLaw(cfg, u)
    ensures t == u
  {
    OneQueue(Order(cfg.policy), Tasks(cfg), Running(t) + t.ready, Running(u) + u.ready);
    OneServed(t, u);
  }

  // ----- whole runs

  /** A run of some machine through the states `ts`, every step of which obeys the laws. */
  ghost predicate Lawful(cfg: Config, es: seq<Event>, ts: seq<State>) {
    && |ts| == |es| + 1 && BootLaw(cfg, ts[0])
    && forall i {:trigger es[i]} :: 0 <= i < |es| ==> Law(cfg, ts[i], es[i], ts[i + 1])
  }

  lemma RunStep(cfg: Config, es: seq<Event>, i: nat)
    requires i < |es|
    ensures Run(cfg, es[..i + 1]) == Step(cfg, Run(cfg, es[..i]), es[i])
  {
    assert es[..i + 1][..i] == es[..i];
  }

  /** The states of a lawful run are those of the state machine. */
  lemma {:induction false} LawfulIsRun(cfg: Config, es: seq<Event>, ts: seq<State>, n: nat)
    requires Lawful(cfg, es, ts) && n <= |es|
    ensures ts[n] == Run(cfg, es[..n])
  {
    if n == 0 {
      BootObeys(cfg);
      OneBoot(cfg, ts[0], Boot(cfg));
    } else {
      var s, e := Run(cfg, es[..n - 1]), es[n - 1];
      LawfulIsRun(cfg, es, ts, n - 1);
      RunStep(cfg, es, n - 1);
      RunKeeps(cfg, es[..n - 1]);
      StepObeys(cfg, s, e);
      OneStep(cfg, s, e, ts[n], Step(cfg, s, e));
    }
  }

  /** The laws are complete: for every configuration and all events, a sequence of states obeys
      them if and only if it is the run of the state machine. */
  lemma LawfulExactly(cfg: Config, es: seq<Event>, ts: seq<State>)
    requires |ts| == |es| + 1
    ensures Lawful(cfg, es, ts) <==> forall i :: 0 <= i < |ts| ==> ts[i] == Run(cfg, es[..i])
  {
    if Lawful(cfg, es, ts) {
      forall i | 0 <= i < |ts|
        ensures ts[i] == Run(cfg, es[..i])
      {
        LawfulIsRun(cfg, es, ts, i);
      }
    } else if forall i :: 0 <= i < |ts| ==> ts[i] == Run(cfg, es[..i]) {
      BootObeys(cfg);
      assert ts[0] == Boot(cfg);
      forall i | 0 <= i < |es|
        ensures Law(cfg, ts[i], es[i], ts[i + 1])
      {
        RunStep(cfg, es, i);
        RunKeeps(cfg, es[..i]);
        StepObeys(cfg, ts[i], es[i]);
      }
    }
  }

  // ----- what follows for single events of a run

  /** What the stability of a queue says of the last to arrive. */
  lemma LastArrival(k: Key, s: seq<Ctx>, c: Ctx, t: seq<Ctx>, p: nat)
    requires IsStableSort(k, s + [c], t)
    ensures WithPriority(k, t, p) == WithPriority(k, s, p) + (if GetPriority(k, c) == p then [c] else [])
  {
    WithPriorityConcat(k, s, [c], p);
    assert WithPriority(k, [c], p) == if GetPriority(k, c) == p then [c] else [];
  }

  /** A copy comes after everybody of its priority, and nobody else moves. */
  lemma CopyQueuesLast(cfg: Config, es: seq<Event>, p: nat)
    requires Run(cfg, es).Active? && Run(cfg, es).running.Some? && Run(cfg, es + [Dup]).Active?
    ensures var s, t := Run(cfg, es), Run(cfg, es + [Dup]);
            var k, copy := Order(cfg.policy), s.running.value.(id := Reserve(t.reserve));
            && t == s.(reserve := t.reserve, ready := t.ready) && t.reserve == s.reserve - 1
            && WithPriority(k, t.ready, p)
               == WithPriority(k, s.ready, p) + (if GetPriority(k, copy) == p then [copy] else [])
  {
    var s, t := Run(cfg, es), Run(cfg, es + [Dup]);
    assert Law(cfg, s, Dup, t) by {
      RunObeys(cfg, es, Dup);
    }
    LastArrival(Order(cfg.policy), s.ready, s.running.value.(id := Reserve(t.reserve)), t.ready, p);
  }

  /** A task that yields waits after everybody of its date, and nobody else moves. */
  lemma YieldQueuesLast(cfg: Config, es: seq<Event>, w: u64, d: u64, p: nat)
    requires Run(cfg, es).Active? && Run(cfg, es).running.Some? && Run(cfg, es + [Yield(w, d)]).Active?
    ensures var s, t := Run(cfg, es), Run(cfg, es + [Yield(w, d)]);
            var c' := Asking(cfg, s.running.value, w, d);
            && Running(t) + t.ready == s.ready
            && WithPriority(ByWakeup, t.waiting, p)
               == WithPriority(ByWakeup, s.waiting, p) + (if c'.wakeup == p then [c'] else [])
  {
    var s, t := Run(cfg, es), Run(cfg, es + [Yield(w, d)]);
    assert Law(cfg, s, Yield(w, d), t) by {
      RunObeys(cfg, es, Yield(w, d));
    }
    LastArrival(ByWakeup, s.waiting, Asking(cfg, s.running.value, w, d), t.waiting, p);
  }

  lemma RunObeys(cfg: Config, es: seq<Event>, e: Event)
    ensures Law(cfg, Run(cfg, es), e, Run(cfg, es + [e]))
  {
    RunKeeps(cfg, es);
    RunExtend(cfg, es, e);
    StepObeys(cfg, Run(cfg, es), e);
  }

  /** Exactly when a tick takes the processor from a task: it fires, and a waiting task whose date
      has come strictly precedes the running one. So equals do not preempt each other, and the
      task that takes over strictly precedes. */
  lemma PreemptsExactly(cfg: Config, es: seq<Event>)
    requires Run(cfg, es).Active? && Run(cfg, es).running.Some? && Run(cfg, es + [Tick]).Active?
    ensures var s, t := Run(cfg, es), Run(cfg, es + [Tick]);
            && t.running.Some?
            && (t.running != s.running <==>
                  Fires(s) && exists x :: x in s.waiting && x.wakeup <= t.clock
                                       && Precedes(cfg.policy, x, s.running.value))
            && (t.running != s.running ==>
                  match cfg.policy
                  case EDF => t.running.value.deadline < s.running.value.deadline
                  case FP => t.running.value.priority > s.running.value.priority)
  {
    var s, t := Run(cfg, es), Run(cfg, es + [Tick]);
    RunKeeps(cfg, es);
    RunExtend(cfg, es, Tick);
    if Fires(s) {
      FirePreempts(cfg, Ticked(s));
    }
  }

  lemma FirePreempts(cfg: Config, s: State)
    requires s.Active? && s.running.Some? && Ordered(cfg, s) && TopRuns(cfg, s) && FireStep(cfg, s).Active?
    ensures var t := FireStep(cfg, s);
            && t.running.Some? && t.clock == s.clock
            && (t.running != s.running <==>
                  exists x :: x in s.waiting && x.wakeup <= s.clock && Precedes(cfg.policy, x, s.running.value))
            && (t.running != s.running ==> Precedes(cfg.policy, t.running.value, s.running.value))
  {
    var m := s.(nextWake := DATE_FAR_AWAY);
    var c, u, t := s.running.value, WakeTasks(cfg, m), FireStep(cfg, s);
    WakeTasksKeeps(cfg, m);
    WakeTasksMembers(cfg, m);
    if u.ready != [] && Outranks(cfg.ReadyKey(), u.ready[0], c) {
      PreemptedByHead(cfg, u, c);
      assert u.ready[0] in u.ready && Precedes(cfg.policy, u.ready[0], c);
      assert u.ready[0] in s.waiting;
    } else {
      KeepsProcessor(cfg, u, c);
      forall x | x in s.waiting && x.wakeup <= s.clock
        ensures !Precedes(cfg.policy, x, c)
      {
        assert x in u.ready;
        var i :| 0 <= i < |u.ready| && u.ready[i] == x;
        assert i > 0 ==> !Outranks(cfg.ReadyKey(), u.ready[i], u.ready[0]);
      }
    }
  }

  /** A running task that the head of the ready queue does not strictly precede goes on. */
  lemma KeepsProcessor(cfg: Config, s: State, c: Ctx)
    requires s.Active?
    requires s.ready != [] ==>
               match cfg.policy
               case EDF => c.deadline <= s.ready[0].deadline
               case FP => c.priority >= s.ready[0].priority
    ensures MaybePreempt(cfg, s, c) == s.(running := Some(c))
  {
  }
}
