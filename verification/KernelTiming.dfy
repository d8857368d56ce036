/** Wake-ups over whole runs: the idle context is left in time, nobody is released early, and
    exactly when a task can be released late. */
module KernelTiming {
  import opened ContextValues
  import opened OrderedList
  import opened KernelSpec
  import opened KernelInvariants
  import opened KernelSafety
  import opened PitClock
  import opened Waking

  // ----- the timer

  /** When the idle context runs and somebody waits, the timer is armed at the earliest date. */
  lemma IdleIsArmed(cfg: Config, es: seq<Event>)
    requires var s := Run(cfg, es); s.Active? && s.running.None? && s.waiting != []
    ensures var s := Run(cfg, es);
            s.nextWake == s.waiting[0].wakeup && forall c :: c in s.waiting ==> s.nextWake <= c.wakeup
  {
    RunKeeps(cfg, es);
    HeadIsTop(ByWakeup, Run(cfg, es).waiting);
  }

  /** A firing tick in an idle state, on the state itself. */
  lemma IdleFires(cfg: Config, s: State)
    requires s.Active? && s.running.None? && s.ready == [] && Ordered(cfg, s)
    requires s.waiting != [] && s.waiting[0].wakeup <= s.clock && FireStep(cfg, s).Active?
    ensures var t := FireStep(cfg, s);
            && t.clock == s.clock && t.running.Some?
            && t.running.value in s.waiting && t.running.value.wakeup <= t.clock
            && (forall c :: c in s.waiting && c.wakeup <= t.clock ==>
                  !Outranks(cfg.ReadyKey(), c, t.running.value))
            && (forall c :: c in t.waiting ==> c.wakeup > t.clock)
  {
    var m := s.(nextWake := DATE_FAR_AWAY);
    var u := WakeTasks(cfg, m);
    WakeTasksKeeps(cfg, m);
    WakeTasksMembers(cfg, m);
    assert FireStep(cfg, s) == ChooseNext(u);
    HeadIsTop(cfg.ReadyKey(), u.ready);
  }

  lemma HeadIsTop(k: Key, s: seq<Ctx>)
    requires Sorted(k, s) && s != []
    ensures s[0] in s && forall c :: c in s ==> !Outranks(k, c, s[0])
  {
  }

  /** The waiting queue never outgrows its bound by more than one. */
  lemma {:induction false} WaitingBound(cfg: Config, es: seq<Event>)
    requires Run(cfg, es).Active?
    ensures |Run(cfg, es).waiting| <= cfg.NbContexts() + 1
  {
    if es != [] {
      var es', e := es[..|es| - 1], es[|es| - 1];
      var s := Run(cfg, es');
      WaitingBound(cfg, es');
      StepWaiting(cfg, s, e);
    }
  }

  lemma StepWaiting(cfg: Config, s: State, e: Event)
    requires s.Active? && Step(cfg, s, e).Active?
    ensures |Step(cfg, s, e).waiting| <= |s.waiting| || |Step(cfg, s, e).waiting| <= cfg.NbContexts() + 1
  {
    match e
    case Yield(w, d) =>
      if s.running.Some? {
        InsertMembers(ByWakeup, s.waiting, Released(cfg, s.running.value, w, d));
      }
    case Dup =>
    case Tick =>
      if Fires(s) {
        WakeTasksMoves(cfg, Ticked(s).(nextWake := DATE_FAR_AWAY));
      }
  }

  /** No tick halts an idle machine, whatever the configuration. */
  lemma IdleTickNeverHalts(cfg: Config, es: seq<Event>)
    requires Run(cfg, es).Active? && Run(cfg, es).running.None?
    ensures Run(cfg, es + [Tick]).Active?
  {
    var s := Run(cfg, es);
    assert s.ready == [] by {
      RunKeeps(cfg, es);
    }
    WaitingBound(cfg, es);
    RunExtend(cfg, es, Tick);
    if Fires(s) {
      IdleWakesAll(cfg, Ticked(s).(nextWake := DATE_FAR_AWAY));
    }
  }

  lemma IdleWakesAll(cfg: Config, s: State)
    requires s.Active? && s.ready == [] && |s.waiting| <= cfg.NbContexts() + 1
    ensures WakeTasks(cfg, s).Active?
  {
    WakeTasksMoves(cfg, s);
  }

  /** The tick that reaches that date switches from the idle context to a task whose date has
      come, of the earliest deadline or the highest priority among those, and leaves no task waiting past its date. */
  lemma FirstDueTickSwitches(cfg: Config, es: seq<Event>)
    requires var s := Run(cfg, es); s.Active? && s.running.None? && s.waiting != [] && Fires(s)
    ensures var s, t := Run(cfg, es), Run(cfg, es + [Tick]);
            && t.Active? && t.clock == Ticked(s).clock && t.running.Some?
            && t.running.value in s.waiting && t.running.value.wakeup <= t.clock
            && (forall c :: c in s.waiting && c.wakeup <= t.clock ==>
                  match cfg.policy
                  case EDF => t.running.value.deadline <= c.deadline
                  case FP => t.running.value.priority >= c.priority)
            && (forall c :: c in t.waiting ==> c.wakeup > t.clock)
  {
    RunKeeps(cfg, es);
    RunExtend(cfg, es, Tick);
    IdleIsArmed(cfg, es);
    IdleTickNeverHalts(cfg, es);
    IdleFires(cfg, Ticked(Run(cfg, es)));
  }

  lemma QuietTick(cfg: Config, s: State)
    requires s.Active? && s.clock + ACTUAL_TICK < TWO64 && s.clock + ACTUAL_TICK < s.nextWake
    ensures Step(cfg, s, Tick) == s.(clock := s.clock + ACTUAL_TICK)
  {
  }

  /** Until the wake date, ticks only advance the clock. */
  lemma {:induction false} IdleTicks(cfg: Config, es: seq<Event>, n: nat, s: State)
    requires s == Run(cfg, es) && s.Active?
    requires s.clock + n * ACTUAL_TICK < TWO64 && (n > 0 ==> s.clock + n * ACTUAL_TICK < s.nextWake)
    ensures Run(cfg, es + Repeat(n, Tick)) == s.(clock := s.clock + n * ACTUAL_TICK)
  {
    if n == 0 {
      assert es + Repeat(0, Tick) == es;
    } else {
      var elapsed := (n - 1) * ACTUAL_TICK;
      assert n * ACTUAL_TICK == elapsed + ACTUAL_TICK;
      IdleTicks(cfg, es, n - 1, s);
      QuietTick(cfg, s.(clock := s.clock + elapsed));
      assert Run(cfg, es + Repeat(n, Tick)) == Step(cfg, s.(clock := s.clock + elapsed), Tick) by {
        RunRepeat(cfg, es, n, Tick);
      }
    }
  }

  /** The number of ticks from `now` to the first one at or after `date`; at least one. */
  function TicksTo(now: nat, date: nat): (n: nat)
    ensures n > 0
    ensures date <= now ==> n == 1
    ensures date > now ==> now + (n - 1) * ACTUAL_TICK < date <= now + n * ACTUAL_TICK
  {
    if date <= now then 1 else (date - now - 1) / ACTUAL_TICK + 1
  }

  /** The idle context is never stuck: as long as the clock does not wrap on the way, a task runs
      as soon as the clock has reached the first waiting date. */
  lemma IdleIsLeft(cfg: Config, es: seq<Event>)
    requires var s := Run(cfg, es); s.Active? && s.running.None? && s.waiting != []
    requires var s := Run(cfg, es);
             s.clock + TicksTo(s.clock, s.waiting[0].wakeup) * ACTUAL_TICK < TWO64
    ensures var s := Run(cfg, es);
            var n := TicksTo(s.clock, s.waiting[0].wakeup);
            var t := Run(cfg, es + Repeat(n, Tick));
            t.Active? && t.running.Some? && t.clock == s.clock + n * ACTUAL_TICK
  {
    var s := Run(cfg, es);
    IdleIsArmed(cfg, es);
    IdleLeaves(cfg, es, s, TicksTo(s.clock, s.waiting[0].wakeup));
  }

  lemma IdleLeaves(cfg: Config, es: seq<Event>, s: State, n: nat)
    requires s == Run(cfg, es) && s.Active? && s.running.None? && s.waiting != []
    requires n > 0 && s.clock + n * ACTUAL_TICK < TWO64
    requires s.nextWake <= s.clock + n * ACTUAL_TICK && (n > 1 ==> s.clock + (n - 1) * ACTUAL_TICK < s.nextWake)
    ensures var t := Run(cfg, es + Repeat(n, Tick));
            t.Active? && t.running.Some? && t.clock == s.clock + n * ACTUAL_TICK
  {
    var b := s.(clock := s.clock + (n - 1) * ACTUAL_TICK);
    var before := es + Repeat(n - 1, Tick);
    assert n * ACTUAL_TICK == (n - 1) * ACTUAL_TICK + ACTUAL_TICK;
    IdleTicks(cfg, es, n - 1, s);
    assert before + [Tick] == es + Repeat(n, Tick);
    DueTick(cfg, before, b);
  }

  lemma DueTick(cfg: Config, es: seq<Event>, s: State)
    requires s == Run(cfg, es) && s.Active? && s.running.None? && s.waiting != []
    requires s.nextWake <= s.clock + ACTUAL_TICK < TWO64
    ensures var t := Run(cfg, es + [Tick]);
            t.Active? && t.running.Some? && t.clock == s.clock + ACTUAL_TICK
  {
    NoWrap(s.clock, ACTUAL_TICK);
    assert Fires(s);
    FirstDueTickSwitches(cfg, es);
  }

  lemma NoWrap(a: u64, b: u64)
    requires a + b < TWO64
    ensures AddDate(a, b) == a + b
  {
  }

  /** The tick is odd, so it has an inverse modulo 2^64: sooner or later the clock, wrapping as
      often as it takes, shows every date. */
  const TICK_INVERSE: nat := 13068898280001590807

  /** A number of ticks after which a clock that shows `now` shows the last date of all. */
  function TicksToLastDate(now: u64): nat {
    (2 * TWO64 - 1 - now) * TICK_INVERSE
  }

  lemma LastDateReached(now: u64)
    ensures TicksToLastDate(now) > 0
    ensures ClockAfter(now, TicksToLastDate(now)) == TWO64 - 1
  {
    var d, n := 2 * TWO64 - 1 - now, TicksToLastDate(now);
    assert TICK_INVERSE * ACTUAL_TICK == 1 + 708358 * TWO64;
    assert n * ACTUAL_TICK == d * (TICK_INVERSE * ACTUAL_TICK);
    assert d * (1 + 708358 * TWO64) == d + d * 708358 * TWO64;
    WholeTurns(TWO64 - 1, 1 + d * 708358);
  }

  lemma WholeTurns(a: u64, q: nat)
    ensures (a + q * TWO64) % TWO64 == a
  {
  }

  function ClockAfter(now: u64, n: nat): u64 {
    (now + n * ACTUAL_TICK) % TWO64
  }

  lemma ClockAfterOne(now: u64, n: nat)
    requires n > 0
    ensures AddDate(ClockAfter(now, n - 1), ACTUAL_TICK) == ClockAfter(now, n)
  {
    assert n * ACTUAL_TICK == (n - 1) * ACTUAL_TICK + ACTUAL_TICK;
    WrapAdd(now + (n - 1) * ACTUAL_TICK, ACTUAL_TICK);
  }

  /** While idle runs, either some tick has switched to a task, or only the clock has moved and
      it has not reached the wake date. */
  ghost predicate StillIdle(cfg: Config, es: seq<Event>, s: State, n: nat)
    requires s.Active?
  {
    var t := s.(clock := ClockAfter(s.clock, n));
    Run(cfg, es + Repeat(n, Tick)) == t && (n > 0 ==> t.clock < s.nextWake)
  }

  ghost predicate TaskRunsAfter(cfg: Config, es: seq<Event>, n: nat) {
    var t := Run(cfg, es + Repeat(n, Tick));
    t.Active? && t.running.Some?
  }

  lemma {:induction false} IdleOrLeft(cfg: Config, es: seq<Event>, s: State, n: nat)
    requires s == Run(cfg, es) && s.Active? && s.running.None? && s.waiting != []
    ensures StillIdle(cfg, es, s, n) || exists j: nat :: j <= n && TaskRunsAfter(cfg, es, j)
  {
    if n == 0 {
      assert es + Repeat(0, Tick) == es;
    } else {
      IdleOrLeft(cfg, es, s, n - 1);
      if StillIdle(cfg, es, s, n - 1) {
        OneMoreTick(cfg, es, s, n);
      }
    }
  }

  lemma OneMoreTick(cfg: Config, es: seq<Event>, s: State, n: nat)
    requires s == Run(cfg, es) && s.Active? && s.running.None? && s.waiting != []
    requires n > 0 && StillIdle(cfg, es, s, n - 1)
    ensures StillIdle(cfg, es, s, n) || TaskRunsAfter(cfg, es, n)
  {
    var before := es + Repeat(n - 1, Tick);
    assert before + [Tick] == es + Repeat(n, Tick);
    ClockAfterOne(s.clock, n);
    IdleTick(cfg, before, s.(clock := ClockAfter(s.clock, n - 1)));
  }

  lemma IdleTick(cfg: Config, es: seq<Event>, s: State)
    requires s == Run(cfg, es) && s.Active? && s.running.None? && s.waiting != []
    ensures var t := Run(cfg, es + [Tick]);
            || (t == Ticked(s) && t.clock < s.nextWake)
            || (t.Active? && t.running.Some?)
  {
    if Fires(s) {
      FirstDueTickSwitches(cfg, es);
    } else {
      RunExtend(cfg, es, Tick);
    }
  }

  /** Idle is never stuck, even if the clock wraps: some number of ticks leads to a task. */
  lemma IdleNeverStuck(cfg: Config, es: seq<Event>)
    requires var s := Run(cfg, es); s.Active? && s.running.None? && s.waiting != []
    ensures exists n: nat :: TaskRunsAfter(cfg, es, n)
  {
    var s := Run(cfg, es);
    var n := TicksToLastDate(s.clock);
    LastDateReached(s.clock);
    IdleOrLeft(cfg, es, s, n);
  }

  lemma FireClock(cfg: Config, s: State)
    requires s.Active? && FireStep(cfg, s).Active?
    ensures FireStep(cfg, s).clock == s.clock
  {
    WakeTasksMoves(cfg, s.(nextWake := DATE_FAR_AWAY));
  }

  // ----- no early release

  function NbTicks(es: seq<Event>): nat {
    if es == [] then 0 else NbTicks(es[..|es| - 1]) + (if es[|es| - 1] == Tick then 1 else 0)
  }

  ghost predicate OnTime(s: State)
    requires s.Active?
  {
    forall c :: c in Running(s) || c in s.ready ==> c.wakeup <= s.clock
  }

  lemma StepClock(cfg: Config, s: State, e: Event)
    requires s.Active? && Step(cfg, s, e).Active?
    ensures Step(cfg, s, e).clock == if e == Tick then Ticked(s).clock else s.clock
  {
    if e == Tick && Fires(s) {
      FireClock(cfg, Ticked(s));
    }
  }

  lemma {:induction false} ClockValue(cfg: Config, es: seq<Event>)
    requires Run(cfg, es).Active?
    ensures Run(cfg, es).clock == (NbTicks(es) * ACTUAL_TICK) % TWO64
  {
    if es != [] {
      var es' := es[..|es| - 1];
      ClockValue(cfg, es');
      StepClock(cfg, Run(cfg, es'), es[|es| - 1]);
      WrapAdd(NbTicks(es') * ACTUAL_TICK, ACTUAL_TICK);
    }
  }

  lemma WrapAdd(a: nat, b: nat)
    ensures ((a % TWO64) + b) % TWO64 == (a + b) % TWO64
  {
  }

  lemma StepOnTime(cfg: Config, s: State, e: Event)
    requires s.Active? && Inv(cfg, s) && OnTime(s) && Step(cfg, s, e).Active?
    requires s.clock + ACTUAL_TICK < TWO64 || e != Tick
    ensures OnTime(Step(cfg, s, e))
  {
    match e
    case Yield(w, d) =>
      if s.running.Some? {
        YieldOnTime(cfg, s, w, d);
      }
    case Dup =>
      if s.running.Some? {
        DupOnTime(cfg, s);
      }
    case Tick =>
      NoWrap(s.clock, ACTUAL_TICK);
      assert OnTime(Ticked(s));
      if Fires(s) {
        FireOnTime(cfg, Ticked(s));
      }
  }

  lemma YieldOnTime(cfg: Config, s: State, w: u64, d: u64)
    requires s.Active? && s.running.Some? && OnTime(s) && YieldStep(cfg, s, s.running.value, w, d).Active?
    ensures OnTime(YieldStep(cfg, s, s.running.value, w, d))
  {
  }

  lemma DupOnTime(cfg: Config, s: State)
    requires s.Active? && s.running.Some? && OnTime(s) && DupStep(cfg, s, s.running.value).Active?
    ensures OnTime(DupStep(cfg, s, s.running.value))
  {
  }

  lemma BootOnTime(cfg: Config)
    ensures OnTime(Boot(cfg))
  {
    var r := BootReady(cfg, cfg.NbTasks());
    BootReadyKeeps(cfg, cfg.NbTasks());
    assert forall c :: c in r ==> c.wakeup == 0;
  }

  lemma FireOnTime(cfg: Config, s: State)
    requires s.Active? && Ordered(cfg, s) && OnTime(s) && FireStep(cfg, s).Active?
    ensures OnTime(FireStep(cfg, s))
  {
    var m := s.(nextWake := DATE_FAR_AWAY);
    WakeTasksKeeps(cfg, m);
    WakeTasksMembers(cfg, m);
    var u := WakeTasks(cfg, m);
    if s.running.Some? {
      MaybePreemptKeeps(cfg, u, s.running.value);
    }
  }

  lemma ClockBelow(cfg: Config, es: seq<Event>, s: State)
    requires es != [] && es[|es| - 1] == Tick && NbTicks(es) * ACTUAL_TICK < TWO64
    requires s == Run(cfg, es[..|es| - 1]) && s.Active?
    ensures s.clock + ACTUAL_TICK < TWO64
  {
    ClockValue(cfg, es[..|es| - 1]);
  }

  /** No early release: before the clock first wraps, every ready or running task has reached
      its wake-up date. */
  lemma {:induction false} NoEarlyRelease(cfg: Config, es: seq<Event>)
    requires NbTicks(es) * ACTUAL_TICK < TWO64 && Run(cfg, es).Active?
    ensures OnTime(Run(cfg, es))
  {
    if es == [] {
      BootOnTime(cfg);
    } else {
      var es', e := es[..|es| - 1], es[|es| - 1];
      var s := Run(cfg, es');
      assert Run(cfg, es) == Step(cfg, s, e);
      assert Inv(cfg, s) by {
        RunKeeps(cfg, es');
      }
      if e == Tick {
        ClockBelow(cfg, es, s);
      }
      NoEarlyRelease(cfg, es');
      StepOnTime(cfg, s, e);
    }
  }

  // ----- late release

  ghost predicate SomeoneLate(s: State)
    requires s.Active?
  {
    exists c :: c in s.waiting && c.wakeup <= s.clock
  }

  lemma LateTick(cfg: Config, s: State)
    requires s.Active? && Inv(cfg, s) && Step(cfg, s, Tick).Active?
    ensures SomeoneLate(Step(cfg, s, Tick)) <==>
              !Fires(s) && s.waiting != [] && s.waiting[0].wakeup <= Ticked(s).clock
    ensures SomeoneLate(Step(cfg, s, Tick)) ==> s.nextWake == DATE_FAR_AWAY && s.running.Some?
  {
    if Fires(s) {
      FireNoneLate(cfg, Ticked(s));
    } else if s.waiting != [] {
      HeadIsTop(ByWakeup, s.waiting);
    }
  }

  lemma FireNoneLate(cfg: Config, s: State)
    requires s.Active? && Ordered(cfg, s) && FireStep(cfg, s).Active?
    ensures !SomeoneLate(FireStep(cfg, s))
  {
    WakeTasksMembers(cfg, s.(nextWake := DATE_FAR_AWAY));
    FireClock(cfg, s);
  }

  /** Some tick of the run fired, and no task has called yield since. */
  ghost predicate NoYieldSinceFiring(cfg: Config, es: seq<Event>) {
    exists i :: 0 <= i < |es| && FiredAt(cfg, es, i) && forall j :: i < j < |es| ==> !es[j].Yield?
  }

  ghost predicate FiredAt(cfg: Config, es: seq<Event>, i: nat)
    requires i < |es|
  {
    es[i] == Tick && Fires(Run(cfg, es[..i]))
  }

  /** Fact used by the next lemma: what disarms the timer, and what arms it. */
  lemma StepArms(cfg: Config, s: State, e: Event)
    requires s.Active? && Inv(cfg, s) && Step(cfg, s, e).Active?
    ensures var t := Step(cfg, s, e);
            && (e.Yield? && t.waiting != [] ==> t.nextWake == t.waiting[0].wakeup)
            && (e == Dup || (e == Tick && !Fires(s)) ==> t.waiting == s.waiting && t.nextWake == s.nextWake)
  {
  }

  /** If the timer is not armed at the first waiting date, no task has yielded since it fired. */
  lemma {:induction false} DisarmedSinceFiring(cfg: Config, es: seq<Event>)
    requires var s := Run(cfg, es); s.Active? && s.waiting != [] && s.nextWake != s.waiting[0].wakeup
    ensures NoYieldSinceFiring(cfg, es)
  {
    if es != [] {
      var n := |es| - 1;
      var es' := es[..n];
      var s := Run(cfg, es');
      assert Run(cfg, es) == Step(cfg, s, es[n]);
      assert Inv(cfg, s) by {
        RunKeeps(cfg, es');
      }
      StepArms(cfg, s, es[n]);
      if es[n] == Tick && Fires(s) {
        assert FiredAt(cfg, es, n);
      } else {
        assert !es[n].Yield?;
        DisarmedSinceFiring(cfg, es');
        StillNoYield(cfg, es);
      }
    }
  }

  lemma StillNoYield(cfg: Config, es: seq<Event>)
    requires es != [] && !es[|es| - 1].Yield? && NoYieldSinceFiring(cfg, es[..|es| - 1])
    ensures NoYieldSinceFiring(cfg, es)
  {
    var es' := es[..|es| - 1];
    var i :| 0 <= i < |es'| && FiredAt(cfg, es', i) && forall j :: i < j < |es'| ==> !es'[j].Yield?;
    assert es'[..i] == es[..i];
    assert FiredAt(cfg, es, i);
    assert forall j :: i < j < |es'| ==> es[j] == es'[j];
  }

  lemma FireDisarms(cfg: Config, s: State)
    requires s.Active? && FireStep(cfg, s).Active?
    ensures FireStep(cfg, s).nextWake == DATE_FAR_AWAY
  {
    WakeTasksMoves(cfg, s.(nextWake := DATE_FAR_AWAY));
  }

  lemma StepKeepsDisarmed(cfg: Config, s: State, e: Event)
    requires s.Active? && Step(cfg, s, e).Active? && !e.Yield?
    requires s.nextWake == DATE_FAR_AWAY || (e == Tick && Fires(s))
    ensures Step(cfg, s, e).nextWake == DATE_FAR_AWAY
  {
    if e == Tick && Fires(s) {
      FireDisarms(cfg, Ticked(s));
    }
  }

  /** Once a tick has fired, the timer stays disarmed until a task calls yield. */
  lemma {:induction false} FiredMeansDisarmed(cfg: Config, es: seq<Event>)
    requires Run(cfg, es).Active? && NoYieldSinceFiring(cfg, es)
    ensures Run(cfg, es).nextWake == DATE_FAR_AWAY
  {
    var n := |es| - 1;
    var s := Run(cfg, es[..n]);
    LastSinceFiring(cfg, es);
    if !FiredAt(cfg, es, n) {
      FiredMeansDisarmed(cfg, es[..n]);
    }
    StepKeepsDisarmed(cfg, s, es[n]);
  }

  /** The last event was a firing tick, or it was no yield and none came since an earlier one. */
  lemma LastSinceFiring(cfg: Config, es: seq<Event>)
    requires NoYieldSinceFiring(cfg, es)
    ensures es != [] && !es[|es| - 1].Yield?
    ensures FiredAt(cfg, es, |es| - 1) || NoYieldSinceFiring(cfg, es[..|es| - 1])
  {
    var i :| 0 <= i < |es| && FiredAt(cfg, es, i) && forall j :: i < j < |es| ==> !es[j].Yield?;
    if i < |es| - 1 {
      var es' := es[..|es| - 1];
      assert es[..i] == es'[..i];
      assert FiredAt(cfg, es', i);
    }
  }

  /** Exactly when the timer is armed at the first waiting date: unless a tick has fired and no
      task has called yield since. The one exception is a date equal to the value that stands
      for a disarmed timer. */
  lemma ArmedExactly(cfg: Config, es: seq<Event>)
    requires Run(cfg, es).Active? && Run(cfg, es).waiting != []
    ensures var s := Run(cfg, es);
            s.nextWake == s.waiting[0].wakeup
            <==> !NoYieldSinceFiring(cfg, es) || s.waiting[0].wakeup == DATE_FAR_AWAY
  {
    var s := Run(cfg, es);
    if NoYieldSinceFiring(cfg, es) {
      FiredMeansDisarmed(cfg, es);
    } else if s.nextWake != s.waiting[0].wakeup {
      DisarmedSinceFiring(cfg, es);
    }
  }

  /** Exactly when a tick leaves somebody waiting past its date: a tick has fired before, no task
      has called yield since, and the clock reaches the first waiting date but not the value that
      stands for a disarmed timer. Then a task was running. */
  lemma LateExactly(cfg: Config, es: seq<Event>)
    requires Run(cfg, es).Active? && Run(cfg, es + [Tick]).Active?
    ensures var s := Run(cfg, es);
            SomeoneLate(Run(cfg, es + [Tick]))
            <==> && NoYieldSinceFiring(cfg, es) && s.waiting != []
                 && s.waiting[0].wakeup <= Ticked(s).clock != DATE_FAR_AWAY
    ensures SomeoneLate(Run(cfg, es + [Tick])) ==> Run(cfg, es).running.Some?
  {
    var s, t := Run(cfg, es), Run(cfg, es + [Tick]);
    assert t == Step(cfg, s, Tick) by {
      RunExtend(cfg, es, Tick);
    }
    assert Inv(cfg, s) by {
      RunKeeps(cfg, es);
    }
    LateTick(cfg, s);
    if s.waiting != [] {
      ArmedExactly(cfg, es);
    }
    if NoYieldSinceFiring(cfg, es) {
      FiredMeansDisarmed(cfg, es);
    }
  }
}
