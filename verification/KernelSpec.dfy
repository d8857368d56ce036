/** The kernel as a state machine on values: what every system call and every timer interrupt
    does to the running context, the two queues and the software timer. */
module KernelSpec {
  import opened ContextValues
  import opened OrderedList
  import opened PitClock

  datatype Policy = EDF | FP

  /** A build of the kernel with its task image; `priorities` has one entry per task. */
  datatype Config = Config(policy: Policy, dynamic: bool, priorities: seq<nat>) {
    function NbTasks(): nat { |priorities| }

    function NbContexts(): nat { if dynamic then 8 * NbTasks() else NbTasks() }

    function ReadyKey(): Key { if policy == EDF then ByDeadline else ByPriority }
  }

  const RESERVE_SIZE: nat := 10
  const INITIAL_RANGE: nat := 8

  datatype HaltReason = NoDynamicCreation | NoRange | NoReserve | QueueFull

  /** `running` is None when the idle context runs. A failed assertion or a fatal error halts
      the machine for ever. */
  datatype State =
    | Halted(reason: HaltReason)
    | Active(running: Option<Ctx>, ready: seq<Ctx>, waiting: seq<Ctx>,
             clock: u64, nextWake: u64, reserve: nat)

  datatype Event = Yield(wakeup: u64, deadline: u64) | Dup | Tick

  // ----- the scheduler

  function ChooseNext(s: State): State
    requires s.Active?
  {
    if s.ready == [] then s.(running := None)
    else s.(running := Some(s.ready[0]), ready := s.ready[1..])
  }

  function MaybePreempt(cfg: Config, s: State, c: Ctx): State
    requires s.Active?
  {
    if s.ready != [] && Outranks(cfg.ReadyKey(), s.ready[0], c) then
      var r := Insert(cfg.ReadyKey(), s.ready, c);
      s.(running := Some(r[0]), ready := r[1..])
    else s.(running := Some(c))
  }

  function WakeTasks(cfg: Config, s: State): State
    requires s.Active?
    ensures WakeTasks(cfg, s).Active? || WakeTasks(cfg, s) == Halted(QueueFull)
    decreases |s.waiting|
  {
    if s.waiting == [] || s.waiting[0].wakeup > s.clock then s
    else if |s.ready| > cfg.NbContexts() then Halted(QueueFull)
    else
      WakeTasks(cfg, s.(waiting := s.waiting[1..],
                        ready := Insert(cfg.ReadyKey(), s.ready, s.waiting[0])))
  }

  // ----- the steps

  function Released(cfg: Config, c: Ctx, w: u64, d: u64): Ctx {
    var date := AddDate(c.wakeup, w);
    c.(wakeup := date, deadline := if cfg.policy == EDF then AddDate(date, d) else c.deadline)
  }

  function YieldStep(cfg: Config, s: State, c: Ctx, w: u64, d: u64): State
    requires s.Active?
  {
    if |s.waiting| > cfg.NbContexts() then Halted(QueueFull)
    else
      var q := Insert(ByWakeup, s.waiting, Released(cfg, c, w, d));
      ChooseNext(s.(waiting := q, nextWake := q[0].wakeup))
  }

  function DupStep(cfg: Config, s: State, c: Ctx): State
    requires s.Active?
  {
    if !cfg.dynamic then Halted(NoDynamicCreation)
    else if c.range == 0 then Halted(NoRange)
    else if s.reserve == 0 then Halted(NoReserve)
    else
      s.(reserve := s.reserve - 1,
         ready := Insert(cfg.ReadyKey(), s.ready, c.(id := Reserve(s.reserve - 1))))
  }

  function FireStep(cfg: Config, s: State): State
    requires s.Active?
  {
    var t := WakeTasks(cfg, s.(nextWake := DATE_FAR_AWAY));
    if t.Halted? then t
    else if s.running.None? then ChooseNext(t)
    else MaybePreempt(cfg, t, s.running.value)
  }

  function Ticked(s: State): State
    requires s.Active?
  {
    s.(clock := AddDate(s.clock, ACTUAL_TICK))
  }

  /** Does the next timer interrupt reach the wake date? */
  predicate Fires(s: State) {
    s.Active? && Ticked(s).clock >= s.nextWake
  }

  /** The idle context issues no system call: such an event changes nothing. */
  function Step(cfg: Config, s: State, e: Event): State {
    if s.Halted? then s
    else
      match e
      case Yield(w, d) => if s.running.None? then s else YieldStep(cfg, s, s.running.value, w, d)
      case Dup => if s.running.None? then s else DupStep(cfg, s, s.running.value)
      case Tick => if Fires(s) then FireStep(cfg, Ticked(s)) else Ticked(s)
  }

  // ----- boot and runs

  function TaskContext(cfg: Config, i: nat): Ctx
    requires i < cfg.NbTasks()
  {
    Ctx(Task(i), 0, 0, if cfg.policy == FP then cfg.priorities[i] else 0,
        if cfg.dynamic then INITIAL_RANGE else 0)
  }

  /** The first `n` tasks, inserted in order. */
  function BootReady(cfg: Config, n: nat): seq<Ctx>
    requires n <= cfg.NbTasks()
  {
    if n == 0 then []
    else Insert(cfg.ReadyKey(), BootReady(cfg, n - 1), TaskContext(cfg, n - 1))
  }

  function Boot(cfg: Config): State {
    ChooseNext(Active(None, BootReady(cfg, cfg.NbTasks()), [], 0, DATE_FAR_AWAY, RESERVE_SIZE))
  }

  /** The state after boot and the given events. */
  function Run(cfg: Config, es: seq<Event>): State {
    if es == [] then Boot(cfg)
    else Step(cfg, Run(cfg, es[..|es| - 1]), es[|es| - 1])
  }

  lemma RunExtend(cfg: Config, es: seq<Event>, e: Event)
    ensures Run(cfg, es + [e]) == Step(cfg, Run(cfg, es), e)
  {
  }

  // ----- views of a state

  function Running(s: State): seq<Ctx>
    requires s.Active?
  {
    if s.running.None? then [] else [s.running.value]
  }

  /** Every context the kernel holds: the running one and those of the two queues. */
  function All(s: State): seq<Ctx>
    requires s.Active?
  {
    Running(s) + s.ready + s.waiting
  }

  predicate IsLive(cfg: Config, s: State, id: CtxId)
    requires s.Active?
  {
    match id
    case Task(i) => i < cfg.NbTasks()
    case Reserve(j) => s.reserve <= j < RESERVE_SIZE
    case Idle => false
  }
}
