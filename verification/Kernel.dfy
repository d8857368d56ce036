/** The kernel as it is: static contexts, two intrusive queues over them that share one link
    field, and the timer variables. Every operation is proved to take the step of the state
    machine in KernelSpec. */
module Kernels {
  import opened ContextValues
  import opened OrderedList
  import opened KernelSpec
  import opened KernelLaws
  import opened ListQueues
  import opened PitClock

  /** The two halves in which a 64-bit duration crosses the system-call boundary. */
  function High(x: u64): u32 { x / TWO32 }

  function Low(x: u64): u32 { x % TWO32 }

  function Join(high: u32, low: u32): u64 { high * TWO32 + low }

  lemma JoinSplit(x: u64)
    ensures Join(High(x), Low(x)) == x == High(x) * 0x1_0000_0000 + Low(x)
  {
  }

  class Kernel {
    const cfg: Config
    const tasks: seq<Context>
    const slots: seq<Context>
    const idle: Context
    ghost const pool: set<Context>
    const ready: ListQueue
    const waiting: ListQueue

    var running: Context
    var clock: u64
    var nextWake: u64
    var idxReserve: nat
    var halted: Option<HaltReason>

    /** The events so far. */
    ghost var history: seq<Event>

    /** The task image: distinct static contexts, all of them in `pool` but for the idle one. */
    ghost predicate Image() {
      && |tasks| == cfg.NbTasks() && |slots| == RESERVE_SIZE && Named(tasks, slots)
      && idle.id == Idle
      && (forall i :: 0 <= i < |tasks| ==> tasks[i] in pool) && (forall j :: 0 <= j < |slots| ==> slots[j] in pool)
      && ready != waiting && ready.key == cfg.ReadyKey() && waiting.key == ByWakeup
    }

    /** A task context, or a reserve slot that has been handed out. */
    ghost predicate Live(c: Context)
      reads this`idxReserve
    {
      LiveContext(c, tasks, slots, idxReserve)
    }

    /** The two lists are well formed and share no context. */
    ghost predicate Queues()
      reads this`idxReserve, ready, waiting, ready.contents, waiting.contents
    {
      && Image() && idxReserve <= RESERVE_SIZE
      && ready.Valid() && waiting.Valid()
      && (forall c :: c in ready.contents ==> Live(c) && c !in waiting.contents)
      && (forall c :: c in waiting.contents ==> Live(c))
    }

    ghost predicate Free(c: Context)
      reads ready, waiting
    {
      c !in ready.contents && c !in waiting.contents
    }

    /** The state, as far as the queues and the timer go. */
    ghost function Idling(): (s: State)
      reads this`clock, this`nextWake, this`idxReserve, ready, waiting, ready.contents, waiting.contents
      ensures s.Active?
    {
      Active(None, Vals(ready.contents), Vals(waiting.contents), clock, nextWake, idxReserve)
    }

    ghost function View(): State
      reads this`running, this`halted, this`clock, this`nextWake, this`idxReserve
      reads ready, waiting, ready.contents, waiting.contents, running
    {
      if halted.Some? then Halted(halted.value)
      else Active(if running == idle then None else Some(running.Val()),
                  Vals(ready.contents), Vals(waiting.contents), clock, nextWake, idxReserve)
    }

    /** The lists are well formed, and the running context is idle or a live one in no list. */
    ghost predicate Settled()
      reads this`running, this`idxReserve, ready, waiting, ready.contents, waiting.contents
    {
      Queues() && Free(running) && (running == idle || Live(running))
    }

    /** At every return to user mode the objects are in the state that the history leads to. */
    ghost predicate Valid()
      reads this, ready, waiting, ready.contents, waiting.contents, running
    {
      && Image()
      && (halted.None? ==> Settled())
      && View() == Run(cfg, history)
    }

    // ----- boot

    /** Boots on a task image whose contexts are still zero, as static objects are. */
    constructor (cfg: Config, tasks: seq<Context>, slots: seq<Context>, idle: Context)
      requires |tasks| == cfg.NbTasks() && |slots| == RESERVE_SIZE
      requires Named(tasks, slots) && idle.id == Idle
      requires forall i :: 0 <= i < |tasks| ==>
                 tasks[i].wakeup == 0 && tasks[i].deadline == 0 && tasks[i].priority == 0
      modifies tasks, slots, idle
      ensures Valid() && history == [] && BootLaw(cfg, View())
      ensures this.cfg == cfg && this.tasks == tasks && this.slots == slots && this.idle == idle
      ensures fresh(ready) && fresh(waiting)
    {
      this.cfg, this.tasks, this.slots, this.idle := cfg, tasks, slots, idle;
      pool := (set c | c in tasks) + (set c | c in slots);
      ready := new ListQueue(cfg.ReadyKey());
      waiting := new ListQueue(ByWakeup);
      running, clock, nextWake, idxReserve := idle, 0, DATE_FAR_AWAY, RESERVE_SIZE;
      halted, history := None, [];
      new;
      BootUp();
      BootObeys(cfg);
    }

    /** The static objects before boot. */
    ghost predicate Blank()
      reads this, ready, waiting, ready.contents, waiting.contents, tasks
    {
      && Queues() && ready.contents == [] && waiting.contents == []
      && running == idle && clock == 0 && nextWake == DATE_FAR_AWAY && idxReserve == RESERVE_SIZE
      && halted.None? && history == []
      && (forall i :: 0 <= i < |tasks| ==>
            tasks[i].wakeup == 0 && tasks[i].deadline == 0 && tasks[i].priority == 0)
    }

    method BootUp()
      requires Blank()
      modifies this`running, ready, tasks, slots, idle, pool`next
      ensures Valid() && history == []
    {
      InitContexts();
      InitScheduler();
      Dispatch();
    }

    /** A task context that the scheduler has not seen yet. */
    ghost predicate Unscheduled(c: Context)
      reads c
    {
      c.wakeup == 0 && c.deadline == 0 && c.priority == 0 && c.range == Range()
    }

    function Range(): nat {
      if cfg.dynamic then INITIAL_RANGE else 0
    }

    method InitContexts()
      requires Blank()
      modifies tasks`range, slots`range, slots`next, idle
      ensures Loaded(0)
      ensures forall j :: 0 <= j < |slots| ==> slots[j].range == Range() && slots[j].next == slots[0]
      ensures idle.range == Range() && idle.next == idle && idle.wakeup == 0 && idle.deadline == DATE_FAR_AWAY
    {
      InitTasks();
      InitReserve(Range());
      idle.range, idle.next, idle.wakeup, idle.deadline := Range(), idle, 0, DATE_FAR_AWAY;
      idle.priority := 0;
    }

    method InitTasks()
      requires Image()
      modifies tasks`range
      ensures forall i :: 0 <= i < |tasks| ==> tasks[i].range == Range()
    {
      for i := 0 to |tasks|
        invariant forall j :: 0 <= j < i ==> tasks[j].range == Range()
      {
        tasks[i].range := Range();
      }
    }

    method InitReserve(range: nat)
      requires Image()
      modifies slots`range, slots`next
      ensures forall j :: 0 <= j < |slots| ==> slots[j].range == range && slots[j].next == slots[0]
    {
      for i := 0 to |slots|
        invariant forall j :: 0 <= j < i ==> slots[j].range == range && slots[j].next == slots[0]
      {
        slots[i].range, slots[i].next := range, slots[0];
      }
    }

    /** The first `n` tasks are in the ready queue, and the others are still as they were. */
    ghost predicate Loaded(n: nat)
      reads this`idxReserve, ready, waiting, ready.contents, waiting.contents, tasks
    {
      && Queues() && waiting.contents == [] && n <= |tasks|
      && (forall x :: x in ready.contents ==> x.id.Task? && x.id.i < n)
      && (forall j :: n <= j < |tasks| ==> Unscheduled(tasks[j]))
      && Vals(ready.contents) == BootReady(cfg, n)
    }

    /** Initially, all the tasks are ready. */
    method InitScheduler()
      requires Loaded(0)
      modifies ready, pool`next, tasks`priority
      ensures Loaded(|tasks|)
    {
      for i := 0 to |tasks|
        invariant Loaded(i)
      {
        InitTask(i);
      }
    }

    method InitTask(i: nat)
      requires Loaded(i) && i < |tasks|
      modifies ready, pool`next, tasks`priority
      ensures Loaded(i + 1)
    {
      LoadTask(i, tasks[i]);
      assert forall j :: i < j < |tasks| ==> Unscheduled(tasks[j]);
      assert BootReady(cfg, i + 1) == Insert(cfg.ReadyKey(), BootReady(cfg, i), TaskContext(cfg, i));
    }

    method LoadTask(i: nat, c: Context)
      requires Queues() && waiting.contents == []
      requires i < |tasks| && c == tasks[i] && c !in ready.contents && Unscheduled(c)
      modifies ready, pool`next, c`priority
      ensures Queues() && waiting.contents == []
      ensures forall x :: x in ready.contents <==> x == c || x in old(ready.contents)
      ensures Vals(ready.contents) == Insert(cfg.ReadyKey(), old(Vals(ready.contents)), TaskContext(cfg, i))
    {
      if cfg.policy == FP {
        c.priority := cfg.priorities[i];
      }
      ready.Undisturbed();
      ValsSame(ready.contents);
      InsertReady(c);
    }

    // ----- the scheduler

    method InsertReady(c: Context)
      requires Queues() && Live(c) && Free(c)
      modifies ready, pool`next
      ensures Queues()
      ensures forall x :: x in ready.contents <==> x == c || x in old(ready.contents)
      ensures Vals(ready.contents) == Insert(cfg.ReadyKey(), old(Vals(ready.contents)), c.Val())
      ensures Vals(waiting.contents) == old(Vals(waiting.contents))
    {
      assert c in pool && forall x :: x in ready.contents ==> x in pool;
      ready.Insert(c);
      waiting.Undisturbed();
      ValsSame(waiting.contents);
    }

    method InsertWaiting(c: Context)
      requires Queues() && Live(c) && Free(c)
      modifies waiting, pool`next
      ensures Queues()
      ensures forall x :: x in waiting.contents <==> x == c || x in old(waiting.contents)
      ensures Vals(waiting.contents) == Insert(ByWakeup, old(Vals(waiting.contents)), c.Val())
      ensures Vals(ready.contents) == old(Vals(ready.contents))
    {
      assert c in pool && forall x :: x in waiting.contents ==> x in pool;
      waiting.Insert(c);
      ready.Undisturbed();
      ValsSame(ready.contents);
    }

    method TakeReady() returns (c: Context)
      requires Queues() && ready.contents != []
      modifies ready
      ensures Queues() && Live(c) && Free(c)
      ensures c.Val() == old(Vals(ready.contents))[0] && Vals(ready.contents) == old(Vals(ready.contents))[1..]
      ensures forall x :: x in ready.contents ==> x in old(ready.contents)
      ensures Vals(waiting.contents) == old(Vals(waiting.contents))
    {
      c := ready.Remove();
    }

    method TakeWaiting() returns (c: Context)
      requires Queues() && waiting.contents != []
      modifies waiting
      ensures Queues() && Live(c) && Free(c)
      ensures c.Val() == old(Vals(waiting.contents))[0] && Vals(waiting.contents) == old(Vals(waiting.contents))[1..]
      ensures forall x :: x in waiting.contents ==> x in old(waiting.contents)
      ensures c in old(waiting.contents)
      ensures Vals(ready.contents) == old(Vals(ready.contents))
    {
      c := waiting.Remove();
    }

    /** The highest-priority ready context, or idle, runs. */
    method Dispatch()
      requires Queues() && halted.None?
      modifies this`running, ready
      ensures Settled() && View() == ChooseNext(old(Idling()))
    {
      if ready.size == 0 {
        running := idle;
      } else {
        RunFirst();
      }
    }

    method RunFirst()
      requires Queues() && halted.None? && ready.contents != []
      modifies this`running, ready
      ensures Settled() && old(Idling()).ready != []
      ensures var s := old(Idling()); View() == s.(running := Some(s.ready[0]), ready := s.ready[1..])
    {
      running := TakeReady();
    }

    /** Blocks a context until its wake-up date, and arms the timer at the earliest such date. */
    method SetWaiting(c: Context)
      requires Queues() && Live(c) && Free(c) && halted.None?
      modifies this`nextWake, this`halted, waiting, pool`next
      ensures if |old(waiting.contents)| > cfg.NbContexts() then halted == Some(QueueFull)
              else
                && halted.None? && Queues()
                && var q := Insert(ByWakeup, old(Vals(waiting.contents)), c.Val());
                   Idling() == old(Idling()).(waiting := q, nextWake := q[0].wakeup)
    {
      if waiting.size > cfg.NbContexts() {
        halted := Some(QueueFull);
        return;
      }
      InsertWaiting(c);
      ArmAtFirst();
    }

    /** Arms the timer at the first waiting date. */
    method ArmAtFirst()
      requires Queues() && waiting.contents != []
      modifies this`nextWake
      ensures Queues() && nextWake == Vals(waiting.contents)[0].wakeup
    {
      var first := waiting.GetFirst();
      nextWake := first.wakeup;
    }

    /** Wakes every task whose date has come. */
    method WakeTasks()
      requires Settled() && halted.None?
      modifies this`halted, ready, waiting, pool`next
      ensures halted.None? ==> Settled()
      ensures View() == KernelSpec.WakeTasks(cfg, old(View()))
    {
      while halted.None? && waiting.size > 0 && waiting.head.wakeup <= clock
        invariant halted.None? ==> Settled()
        invariant Woken(old(View()))
        decreases halted.None?, waiting.size
      {
        WakeFirst();
      }
    }

    /** What is left to wake leads where the whole loop leads. */
    ghost predicate Woken(s: State)
      reads this, ready, waiting, ready.contents, waiting.contents, running
    {
      && s.Active?
      && KernelSpec.WakeTasks(cfg, s)
         == if View().Active? then KernelSpec.WakeTasks(cfg, View()) else View()
    }

    method WakeFirst()
      requires Settled() && halted.None? && waiting.contents != []
      modifies this`halted, ready, waiting, pool`next
      ensures if |old(ready.contents)| > cfg.NbContexts() then halted == Some(QueueFull)
              else
                && halted.None? && Settled() && waiting.size < old(waiting.size)
                && var s := old(View());
                   View() == s.(waiting := s.waiting[1..],
                                ready := Insert(cfg.ReadyKey(), s.ready, s.waiting[0]))
    {
      var c := TakeWaiting();
      if ready.size > cfg.NbContexts() {
        halted := Some(QueueFull);
        return;
      }
      InsertReady(c);
    }

    /** Switches to the first ready task if it has a strictly higher priority. */
    method MaybePreempt()
      requires Settled() && halted.None? && running != idle
      modifies this`running, ready, pool`next
      ensures Settled()
      ensures View() == KernelSpec.MaybePreempt(cfg, old(View()), old(running.Val()))
    {
      if ready.size > 0 {
        var first := ready.GetFirst();
        if IsGtPriority(ready.key, GetPriority(ready.key, first.Val()), GetPriority(ready.key, running.Val())) {
          Preempt();
        }
      }
    }

    method Preempt()
      requires Settled() && halted.None? && running != idle
      modifies this`running, ready, pool`next
      ensures Settled()
      ensures var r := Insert(cfg.ReadyKey(), old(Idling()).ready, old(running.Val()));
              View() == old(Idling()).(running := Some(r[0]), ready := r[1..])
    {
      PutBack();
      RunFirst();
    }

    /** Inserts the running context into the ready queue. */
    method PutBack()
      requires Settled() && running != idle
      modifies ready, pool`next
      ensures Queues() && ready.contents != [] && old(Idling()).Active?
      ensures Idling() == old(Idling()).(ready := Insert(cfg.ReadyKey(), old(Idling()).ready, old(running.Val())))
    {
      InsertReady(running);
    }

    /** Notes, in the ghost history, the event that the objects have just gone through. */
    ghost method Record(e: Event)
      requires Image() && (halted.None? ==> Settled()) && View() == Step(cfg, Run(cfg, history), e)
      modifies this`history
      ensures Valid() && history == old(history) + [e] && View() == old(View())
      ensures Law(cfg, Run(cfg, old(history)), e, View())
    {
      RunObeys(cfg, history, e);
      RunExtend(cfg, history, e);
      ghost var s := View();
      history := history + [e];
      assert View() == s;
    }

    // ----- system calls, made by the running task

    method Release(incrWakeup: u64, incrDeadline: u64)
      requires Settled() && halted.None? && running != idle
      modifies running`wakeup, running`deadline
      ensures Settled() && Idling() == old(Idling())
      ensures running.Val() == Released(cfg, old(running.Val()), incrWakeup, incrDeadline)
    {
      running.wakeup := AddDate(running.wakeup, incrWakeup);
      if cfg.policy == EDF {
        running.deadline := AddDate(running.wakeup, incrDeadline);
      }
      ready.Undisturbed();
      waiting.Undisturbed();
      ValsSame(ready.contents);
      ValsSame(waiting.contents);
    }

    method SyscallYield(wakeupHigh: u32, wakeupLow: u32, deadlineHigh: u32, deadlineLow: u32)
      requires Valid() && halted.None? && running != idle
      modifies this, ready, waiting, pool
      ensures Valid()
      ensures var e := Yield(wakeupHigh * 0x1_0000_0000 + wakeupLow, deadlineHigh * 0x1_0000_0000 + deadlineLow);
              && history == old(history) + [e] && View() == Step(cfg, old(View()), e)
              && Law(cfg, old(View()), e, View())
    {
      var w, d := Join(wakeupHigh, wakeupLow), Join(deadlineHigh, deadlineLow);
      YieldNow(w, d);
      Record(Yield(w, d));
    }

    method YieldNow(w: u64, d: u64)
      requires Settled() && halted.None? && running != idle
      modifies this`running, this`nextWake, this`halted, ready, waiting, pool
      ensures halted.None? ==> Settled()
      ensures View() == YieldStep(cfg, old(View()), old(running.Val()), w, d)
    {
      assert running in pool;
      Release(w, d);
      SetWaiting(running);
      if halted.None? {
        Dispatch();
      }
    }

    /** The library call in user space: splits both durations for the system call. */
    method UserYield(nextWakeup: u64, nextDeadline: u64)
      requires Valid() && halted.None? && running != idle
      modifies this, ready, waiting, pool
      ensures Valid() && history == old(history) + [Yield(nextWakeup, nextDeadline)]
      ensures Law(cfg, old(View()), Yield(nextWakeup, nextDeadline), View())
    {
      JoinSplit(nextWakeup);
      JoinSplit(nextDeadline);
      SyscallYield(High(nextWakeup), Low(nextWakeup), High(nextDeadline), Low(nextDeadline));
    }

    /** Copies the whole context, link included; the identity of an object is its address. */
    method CopyContext(dest: Context, src: Context)
      requires dest != src
      modifies dest
      ensures dest.Val() == src.Val().(id := dest.id) && dest.next == src.next
    {
      dest.wakeup, dest.deadline, dest.priority := src.wakeup, src.deadline, src.priority;
      dest.range, dest.next := src.range, src.next;
    }

    method SyscallDupThread()
      requires Valid() && halted.None? && running != idle
      modifies this, ready, waiting, pool
      ensures Valid() && history == old(history) + [Dup]
      ensures View() == Step(cfg, old(View()), Dup) && Law(cfg, old(View()), Dup, View())
    {
      DupNow();
      Record(Dup);
    }

    method DupNow()
      requires Settled() && halted.None? && running != idle
      modifies this`halted, this`idxReserve, ready, pool
      ensures halted.None? ==> Settled()
      ensures View() == DupStep(cfg, old(View()), old(running.Val()))
    {
      if !cfg.dynamic {
        halted := Some(NoDynamicCreation);
      } else if running.range == 0 {
        halted := Some(NoRange);
      } else if idxReserve == 0 {
        halted := Some(NoReserve);
      } else {
        Duplicate();
      }
    }

    method Duplicate()
      requires Settled() && halted.None? && running != idle && idxReserve > 0
      modifies this`idxReserve, ready, pool
      ensures Settled() && old(View()).Active? && old(View()).reserve > 0
      ensures var s := old(View());
              View() == s.(reserve := s.reserve - 1,
                           ready := Insert(cfg.ReadyKey(), s.ready, old(running.Val()).(id := Reserve(s.reserve - 1))))
    {
      TakeSlot(slots[idxReserve - 1]);
    }

    method TakeSlot(c: Context)
      requires Settled() && running != idle && idxReserve > 0 && c == slots[idxReserve - 1]
      modifies this`idxReserve, ready, pool
      ensures Settled() && running.Val() == old(running.Val()) && idxReserve == old(idxReserve) - 1
      ensures Vals(ready.contents) == Insert(cfg.ReadyKey(), old(Vals(ready.contents)),
                                             old(running.Val()).(id := Reserve(idxReserve)))
      ensures Vals(waiting.contents) == old(Vals(waiting.contents))
    {
      ghost var rs, ws := Vals(ready.contents), Vals(waiting.contents);
      ghost var copy := running.Val().(id := Reserve(idxReserve - 1));
      PrepareSlot(c);
      assert c.Val() == copy;
      InsertReady(c);
      assert Vals(ready.contents) == Insert(cfg.ReadyKey(), rs, copy);
      assert Vals(waiting.contents) == ws;
      assert copy == old(running.Val()).(id := Reserve(idxReserve));
    }

    method PrepareSlot(c: Context)
      requires Settled() && running != idle && idxReserve > 0 && c == slots[idxReserve - 1]
      modifies this`idxReserve, c
      ensures idxReserve == old(idxReserve) - 1
      ensures Settled() && Live(c) && Free(c) && c != running
      ensures c.Val() == running.Val().(id := c.id) && running.Val() == old(running.Val())
      ensures Vals(ready.contents) == old(Vals(ready.contents)) && Vals(waiting.contents) == old(Vals(waiting.contents))
    {
      idxReserve := idxReserve - 1;
      c.range := 0;
      CopyContext(c, running);
      ready.Undisturbed();
      waiting.Undisturbed();
      ValsSame(ready.contents);
      ValsSame(waiting.contents);
    }

    // ----- the timer interrupt

    method TimerInterrupt()
      requires Valid() && halted.None?
      modifies this, ready, waiting, pool
      ensures Valid() && history == old(history) + [Tick]
      ensures View() == Step(cfg, old(View()), Tick) && Law(cfg, old(View()), Tick, View())
    {
      TickNow();
      Record(Tick);
    }

    method TickNow()
      requires Settled() && halted.None?
      modifies this`clock, this`nextWake, this`running, this`halted, ready, waiting, pool`next
      ensures halted.None? ==> Settled()
      ensures View() == Step(cfg, old(View()), Tick)
    {
      Advance();
      if clock >= nextWake {
        Disarm();
        Wake();
      }
    }

    method Advance()
      requires Settled() && halted.None?
      modifies this`clock
      ensures Settled() && View() == Ticked(old(View()))
    {
      clock := AddDate(clock, ACTUAL_TICK);
    }

    method Disarm()
      requires Settled() && halted.None?
      modifies this`nextWake
      ensures Settled() && old(View()).Active? && View() == old(View()).(nextWake := DATE_FAR_AWAY)
    {
      nextWake := DATE_FAR_AWAY;
    }

    /** The high-level half of the handler. */
    method Wake()
      requires Settled() && halted.None? && nextWake == DATE_FAR_AWAY
      modifies this`running, this`halted, ready, waiting, pool`next
      ensures halted.None? ==> Settled()
      ensures View() == FireStep(cfg, old(View()))
    {
      WakeTasks();
      if halted.None? {
        if running == idle {
          Dispatch();
        } else {
          MaybePreempt();
        }
      }
    }
  }
}
