/** Safety of the scheduler over whole runs: placement, priorities, capacity and halting. */
module KernelSafety {
  import opened ContextValues
  import opened OrderedList
  import opened KernelSpec
  import opened KernelInvariants
  import opened Waking

  /** In every reachable state each live context is in exactly one of running, ready and waiting;
      the idle context and the reserve slots not handed out are in none. */
  lemma ExactlyOnePlace(cfg: Config, es: seq<Event>, id: CtxId)
    requires Run(cfg, es).Active?
    ensures var s := Run(cfg, es);
            && Count(Running(s), id) + Count(s.ready, id) + Count(s.waiting, id)
               == (if IsLive(cfg, s, id) then 1 else 0)
            && |Running(s)| + |s.ready| + |s.waiting| == cfg.NbTasks() + RESERVE_SIZE - s.reserve
            && Count(All(s), Idle) == 0
  {
    RunKeeps(cfg, es);
    AllCount(Run(cfg, es), id);
  }

  /** At every return to user mode no ready task has an earlier deadline (under fixed priorities:
      a higher priority) than the running one, and idle runs only when no task is ready. */
  lemma TopPriorityRuns(cfg: Config, es: seq<Event>)
    requires Run(cfg, es).Active?
    ensures var s := Run(cfg, es);
            && (s.running.Some? ==> forall d :: d in s.ready ==> !Outranks(cfg.ReadyKey(), d, s.running.value))
            && (s.running.Some? && cfg.policy == EDF ==>
                  forall d :: d in s.ready ==> s.running.value.deadline <= d.deadline)
            && (s.running.Some? && cfg.policy == FP ==>
                  forall d :: d in s.ready ==> s.running.value.priority >= d.priority)
            && (s.running.None? ==> s.ready == [])
  {
    RunKeeps(cfg, es);
  }

  // ----- capacity

  /** The configurations whose context count is enough for the reserve. */
  predicate Roomy(cfg: Config) {
    !(cfg.dynamic && cfg.NbTasks() == 1)
  }

  /** In a roomy configuration all the live contexts fit into any one queue. */
  lemma AllFit(cfg: Config, s: State)
    requires s.Active? && Counted(cfg, s) && Roomy(cfg)
    requires cfg.NbTasks() == 0 ==> s.reserve == RESERVE_SIZE
    ensures |All(s)| <= cfg.NbContexts()
  {
  }

  lemma StepNotFull(cfg: Config, s: State, e: Event)
    requires s.Active? && Inv(cfg, s) && |All(s)| <= cfg.NbContexts()
    ensures Step(cfg, s, e) != Halted(QueueFull)
  {
    if e == Tick && Fires(s) {
      var m := Ticked(s).(nextWake := DATE_FAR_AWAY);
      assert |m.ready| + |m.waiting| <= |All(s)|;
      WakeTasksMoves(cfg, m);
    }
  }

  lemma {:induction false} NoTaskNoReserveUse(cfg: Config, es: seq<Event>)
    requires cfg.NbTasks() == 0
    ensures var s := Run(cfg, es);
            s.Active? && s.running.None? && s.ready == [] && s.waiting == [] && s.reserve == RESERVE_SIZE
  {
    if es != [] {
      NoTaskNoReserveUse(cfg, es[..|es| - 1]);
    }
  }

  /** Roomy configurations never overflow a queue: no size assertion of the scheduler fails, and
      in every reachable state a queue of the declared capacity has room for all the live
      contexts, which is the bound that an array of that length needs. */
  lemma {:induction false} NeverFull(cfg: Config, es: seq<Event>)
    requires Roomy(cfg)
    ensures Run(cfg, es) != Halted(QueueFull)
    ensures Run(cfg, es).Active? ==> |All(Run(cfg, es))| <= cfg.NbContexts()
  {
    RunKeeps(cfg, es);
    if es != [] {
      var es' := es[..|es| - 1];
      NeverFull(cfg, es');
      RunKeeps(cfg, es');
      var s := Run(cfg, es');
      if s.Active? {
        StepNotFull(cfg, s, es[|es| - 1]);
      }
    }
    if cfg.NbTasks() == 0 {
      NoTaskNoReserveUse(cfg, es);
    }
    if Run(cfg, es).Active? {
      AllFit(cfg, Run(cfg, es));
    }
  }

  ghost function Repeat(n: nat, e: Event): seq<Event> {
    seq(n, _ => e)
  }

  lemma RunRepeat(cfg: Config, es: seq<Event>, n: nat, e: Event)
    requires n > 0
    ensures Run(cfg, es + Repeat(n, e)) == Step(cfg, Run(cfg, es + Repeat(n - 1, e)), e)
  {
    assert (es + Repeat(n - 1, e)) + [e] == es + Repeat(n, e);
    RunExtend(cfg, es + Repeat(n - 1, e), e);
  }

  /** One task and dynamic creation: nine copies fill the ready queue... */
  lemma {:induction false} NineDups(cfg: Config, n: nat)
    requires cfg.dynamic && cfg.NbTasks() == 1 && n <= 9
    ensures var s := Run(cfg, [] + Repeat(n, Dup));
            && s.Active? && s.running.Some? && |s.ready| == n && s.waiting == []
            && s.reserve == RESERVE_SIZE - n
  {
    if n == 0 {
      assert [] + Repeat(0, Dup) == [];
      assert BootReady(cfg, 1) == [TaskContext(cfg, 0)] by {
        assert BootReady(cfg, 0) == [];
      }
    } else {
      NineDups(cfg, n - 1);
      var s := Run(cfg, [] + Repeat(n - 1, Dup));
      assert Inv(cfg, s) by {
        RunKeeps(cfg, [] + Repeat(n - 1, Dup));
      }
      DupAlone(cfg, s, Dup);
      assert Run(cfg, [] + Repeat(n, Dup)) == Step(cfg, s, Dup) by {
        RunRepeat(cfg, [], n, Dup);
      }
    }
  }

  /** ... and then each yield moves one context to the waiting queue. */
  lemma {:induction false} NineYields(cfg: Config, n: nat)
    requires cfg.dynamic && cfg.NbTasks() == 1 && n <= 9
    ensures var s := Run(cfg, [] + Repeat(9, Dup) + Repeat(n, Yield(0, 0)));
            && s.Active? && s.running.Some? && |s.ready| == 9 - n && |s.waiting| == n
  {
    var dups := [] + Repeat(9, Dup);
    if n == 0 {
      assert dups + Repeat(0, Yield(0, 0)) == dups;
      NineDups(cfg, 9);
    } else {
      NineYields(cfg, n - 1);
      var s := Run(cfg, dups + Repeat(n - 1, Yield(0, 0)));
      YieldSizes(cfg, s, 0, 0);
      assert Run(cfg, dups + Repeat(n, Yield(0, 0))) == Step(cfg, s, Yield(0, 0)) by {
        RunRepeat(cfg, dups, n, Yield(0, 0));
      }
    }
  }

  lemma YieldSizes(cfg: Config, s: State, w: u64, d: u64)
    requires s.Active? && s.running.Some? && s.ready != [] && |s.waiting| <= cfg.NbContexts()
    ensures var t := Step(cfg, s, Yield(w, d));
            t.Active? && t.running.Some? && |t.ready| == |s.ready| - 1 && |t.waiting| == |s.waiting| + 1
  {
  }

  /** The tenth yield of such a run fails the size assertion of the waiting queue. */
  lemma OneTaskOverflows(cfg: Config)
    requires !Roomy(cfg)
    ensures Run(cfg, [] + Repeat(9, Dup) + Repeat(10, Yield(0, 0))) == Halted(QueueFull)
  {
    NineYields(cfg, 9);
    RunRepeat(cfg, [] + Repeat(9, Dup), 10, Yield(0, 0));
  }

  /** The size assertions hold along every run exactly in the roomy configurations. */
  lemma CapacityExactly(cfg: Config)
    ensures (forall es :: Run(cfg, es) != Halted(QueueFull)) <==> Roomy(cfg)
  {
    if Roomy(cfg) {
      forall es
        ensures Run(cfg, es) != Halted(QueueFull)
      {
        NeverFull(cfg, es);
      }
    } else {
      OneTaskOverflows(cfg);
    }
  }

  // ----- dup_thread and halting

  /** How many times a task called dup_thread before the machine halted, if it did. */
  ghost function DupCalls(cfg: Config, es: seq<Event>): nat {
    if es == [] then 0
    else
      var es' := es[..|es| - 1];
      var s := Run(cfg, es');
      DupCalls(cfg, es') + (if es[|es| - 1] == Dup && s.Active? && s.running.Some? then 1 else 0)
  }

  /** While the machine runs, each call has taken one slot off the reserve; in a roomy
      configuration the machine halts exactly when the reserve is asked for an eleventh slot,
      or at the first call if dynamic creation is not compiled in. A refusal for lack of range
      never happens: copies keep the range of their parent. */
  lemma {:induction false} HaltsExactly(cfg: Config, es: seq<Event>)
    ensures var s := Run(cfg, es);
            && (s.Active? ==> s.reserve + DupCalls(cfg, es) == RESERVE_SIZE)
            && (s.Active? && !cfg.dynamic ==> DupCalls(cfg, es) == 0)
            && (s == Halted(NoReserve) <==> cfg.dynamic && DupCalls(cfg, es) == RESERVE_SIZE + 1)
            && (s == Halted(NoDynamicCreation) <==> !cfg.dynamic && DupCalls(cfg, es) > 0)
            && s != Halted(NoRange)
            && (Roomy(cfg) ==> (s.Halted? <==> DupCalls(cfg, es) > if cfg.dynamic then RESERVE_SIZE else 0))
  {
    if Roomy(cfg) {
      NeverFull(cfg, es);
    }
    if es != [] {
      var es' := es[..|es| - 1];
      var s, e := Run(cfg, es'), es[|es| - 1];
      HaltsExactly(cfg, es');
      RunKeeps(cfg, es');
      if s.Active? {
        DupAlone(cfg, s, e);
      }
    }
  }

  lemma DupCall(cfg: Config, s: State)
    requires s.Active? && s.running.Some? && Initialised(cfg, s)
    ensures var t := DupStep(cfg, s, s.running.value);
            if !cfg.dynamic then t == Halted(NoDynamicCreation)
            else if s.reserve == 0 then t == Halted(NoReserve)
            else t == s.(reserve := s.reserve - 1, ready := t.ready) && |t.ready| == |s.ready| + 1
  {
  }

  lemma FireCall(cfg: Config, s: State)
    requires s.Active?
    ensures var t := FireStep(cfg, s);
            (t.Active? && t.reserve == s.reserve) || t == Halted(QueueFull)
  {
    WakeTasksMoves(cfg, s.(nextWake := DATE_FAR_AWAY));
  }

  /** Only a call of dup_thread uses the reserve or halts the machine for lack of it. */
  lemma DupAlone(cfg: Config, s: State, e: Event)
    requires s.Active? && Inv(cfg, s)
    ensures var t := Step(cfg, s, e);
            if e == Dup && s.running.Some? then
              if !cfg.dynamic then t == Halted(NoDynamicCreation)
              else if s.reserve == 0 then t == Halted(NoReserve)
              else t == s.(reserve := s.reserve - 1, ready := t.ready) && |t.ready| == |s.ready| + 1
            else (t.Active? && t.reserve == s.reserve) || t == Halted(QueueFull)
  {
    match e
    case Yield(_, _) =>
    case Dup => if s.running.Some? { DupCall(cfg, s); }
    case Tick => if Fires(s) { FireCall(cfg, Ticked(s)); }
  }

  /** The n-th successful call hands out slot 10 - n, which was not live in any earlier state of
      the run; so the slots are pairwise distinct and no live context is ever overwritten. */
  lemma FreshSlot(cfg: Config, es: seq<Event>, earlier: nat)
    requires earlier <= |es|
    requires Run(cfg, es).Active? && Run(cfg, es).running.Some? && Run(cfg, es + [Dup]).Active?
    ensures Run(cfg, es[..earlier]).Active?
    ensures Run(cfg, es).reserve - 1 == RESERVE_SIZE - DupCalls(cfg, es + [Dup]) >= 0
    ensures var slot := Reserve(Run(cfg, es).reserve - 1);
            && IsLive(cfg, Run(cfg, es + [Dup]), slot)
            && !IsLive(cfg, Run(cfg, es[..earlier]), slot)
            && Run(cfg, es).running.value.(id := slot) in Run(cfg, es + [Dup]).ready
  {
    var s, t := Run(cfg, es), Run(cfg, es + [Dup]);
    assert t == DupStep(cfg, s, s.running.value) by {
      RunExtend(cfg, es, Dup);
    }
    DupTakes(cfg, s);
    assert s.reserve == RESERVE_SIZE - DupCalls(cfg, es) by {
      HaltsExactly(cfg, es);
    }
    assert DupCalls(cfg, es + [Dup]) == DupCalls(cfg, es) + 1 by {
      assert (es + [Dup])[..|es|] == es;
    }
    DupCallsMonotone(cfg, es, earlier);
    assert Run(cfg, es[..earlier]).reserve == RESERVE_SIZE - DupCalls(cfg, es[..earlier]) by {
      HaltsExactly(cfg, es[..earlier]);
    }
  }

  lemma DupTakes(cfg: Config, s: State)
    requires s.Active? && s.running.Some? && DupStep(cfg, s, s.running.value).Active?
    ensures var t := DupStep(cfg, s, s.running.value);
            s.reserve > 0 && t.reserve == s.reserve - 1 && s.running.value.(id := Reserve(t.reserve)) in t.ready
  {
  }

  lemma {:induction false} DupCallsMonotone(cfg: Config, es: seq<Event>, n: nat)
    requires n <= |es|
    ensures DupCalls(cfg, es[..n]) <= DupCalls(cfg, es)
    ensures Run(cfg, es).Active? ==> Run(cfg, es[..n]).Active?
  {
    if n == |es| {
      assert es[..n] == es;
    } else {
      var es' := es[..|es| - 1];
      assert es'[..n] == es[..n];
      DupCallsMonotone(cfg, es', n);
    }
  }
}
