# EducRTOS: a verified model of the scheduler

EducRTOS is a small real-time kernel: a timer interrupt and a few system calls drive an EDF or
fixed-priority scheduler over statically allocated contexts, or a round-robin one. This project
models that kernel in Dafny and proves what it does over whole runs: boot, and then any sequence
of yields, thread duplications and timer ticks.

Check everything with `dafny verify dfyconfig.toml`.

## How it is built

| file | content |
|---|---|
| Context.dfy | dates with 64-bit wrap-around, the scheduling part of a context, the three priority keys |
| OrderedList.dfy, Waking.dfy | the sorted list as a value: insertion, stability, the wake-up loop |
| KernelSpec.dfy | the kernel as a state machine on values: `Boot`, `Step`, `Run` |
| KernelInvariants.dfy, KernelSafety.dfy, KernelTiming.dfy, KernelHistory.dfy | theorems about every run |
| KernelLaws.dfy | the laws of boot and of every event, without saying how; they admit exactly the runs of the state machine |
| ListQueue.dfy, Kernel.dfy | the contexts, the intrusive lists and the kernel as objects updated in place |
| KernelObjects.dfy | what the run theorems say about those objects |
| AbstractQueue.dfy, HeapQueue.dfy, QueueExchange.dfy | the array heap, and why it can replace the list |
| RoundRobin.dfy | the round-robin ring |
| PitClock.dfy, Terminal.dfy, Numbers.dfy | timer arithmetic, scrolling terminal, number printers |
| BinaryNumbers.dfy, FloatOrder.dfy | bit patterns as numbers, and the total order on doubles |

The main results are about `KernelSpec.Run`, for every configuration and every sequence of events.
Class `Kernels.Kernel` is the imperative kernel: two null-terminated lists that share the `next`
fields of the contexts, a running context, a clock and a wake date. Each of its entry points is
proved to take the corresponding `Step`, and its invariant `Valid()` says that the objects are in
the state `Run(cfg, history)`; so the run theorems hold of the objects at every return to user mode.

`KernelLaws` states what boot and each event do in terms of dates, deadlines, priorities and order of
arrival, independently of how the state machine does it. `LawfulExactly` proves that a sequence of
states obeys these laws if and only if it is the run of the state machine, and the entry points of
`Kernels.Kernel` promise the law of their event.

### Modelling decisions

* Interrupts are masked in the kernel, so a system call or an interrupt is one atomic step. The
  context handed to a system call is the running one. The idle context only loops, so a system call
  event while it runs changes nothing.
* A failed assertion or a fatal error is an absorbing halt that records its reason.
* The kernel is modelled with the list queues, which is the configured choice
  (educrtos/config.h:38). Dates wrap at 2^64 and so does the clock; statements about time say for
  how long the clock has not wrapped.
* The contexts are distinct static objects, named by task number or reserve slot. `CopyContext`
  copies field by field what the source copies word by word.
* An empty queue makes `remove` and `get_first` of the list fail an assertion; here their callers
  prove that the queue is not empty. The heap makes no such check, so this is its precondition too.
* Where the code and its comments disagree the code is followed: a duplicated context keeps the
  range of its parent, because `copy_context` overwrites the zero stored just before
  (educrtos/high_level.c:157-172), although educrtos/config.h:19-20 says that children cannot
  create threads.
* `Itoa` negates its argument (educrtos/lib/fprint.c:75-84). Negating the least 32-bit number is
  undefined in C; the model takes it as wrapping to the same number, so that no digit is printed.

### Claims that turn out false, and the exact truth

* "The timer is always armed at the first waiting date" is false: a firing tick disarms it and
  only the next yield re-arms it (`TimerLeftDisarmed`). `ArmedExactly`: along every run it is armed
  there if and only if no tick has fired since the last yield, or that date is the one that stands
  for a disarmed timer. `IdleIsArmed` says that idle never sees it disarmed, and `LateExactly` when
  a task is left waiting past its date.
* "The queue-size assertions never fail" is false for one task with dynamic creation, and true in
  every other configuration (`CapacityExactly`).
* "No task is ready or running before its wake-up date" holds in all the runs of at most n ticks
  exactly as long as n ticks do not wrap the clock (`NoEarlyReleaseExactly`).
* The signed decimal printer is right exactly for non-negative numbers (`ItoaRight`).

## Model

| member | source | states |
|---|---|---|
| `OrderedList.InsertPos` | educrtos/heap.c:116-128 | the insertion index: after everybody the element does not strictly outrank, right before the first one it does |
| `OrderedList.InsertSorted` | educrtos/heap.c:108-136 | insertion keeps a list sorted, ties allowed; the element goes after all not-lower and before all strictly lower entries |
| `OrderedList.InsertMembers` | educrtos/heap.c:108-136 | insertion adds exactly the element to the multiset of entries |
| `OrderedList.InsertStable` | educrtos/heap.c:116-133 | first in, first out: among entries of equal priority the new one comes last and nobody else moves |
| `OrderedList.InsertAllIsStableSort` | educrtos/heap.c:246-254 | inserting any entries one by one gives the stable sort of the old list followed by them |
| `OrderedList.StableSortUnique` | educrtos/heap.c:246-254 | a list sorted by priority with a given order inside each priority is unique, so the drain order is fully determined |
| `Waking.WakeTasksMoves` | educrtos/priority_scheduler.c:103-110 | the wake-up loop moves the due prefix of the waiting queue in order, or fails its size assertion exactly when the ready queue outgrows its bound on the way |
| `Waking.WakeTasksMeaning` | educrtos/priority_scheduler.c:103-110 | exactly the tasks whose date has come leave the waiting queue, the rest keeps its order, and the ready queue becomes the stable sort of itself followed by the woken tasks |
| `KernelInvariants.ChooseNextKeeps` | educrtos/priority_scheduler.c:125-130 | choosing the next context loses nobody, and idle runs only if no task is ready |
| `KernelInvariants.MaybePreemptKeeps` | educrtos/priority_scheduler.c:112-123 | preemption keeps the contexts and leaves no ready task that outranks the running one; who keeps the processor is `KernelLaws.KeepsProcessor` |
| `KernelInvariants.PreemptedByHead` | educrtos/priority_scheduler.c:114-121 | inserting the running context and removing the first one gives the processor to the old head, and the old running context its place in the queue |
| `KernelInvariants.YieldKeeps` | educrtos/high_level.c:52-71 | yield keeps the kernel invariant |
| `KernelInvariants.DupKeeps` | educrtos/high_level.c:142-178 | dup_thread keeps the kernel invariant; where the copy queues is `KernelLaws.CopyQueuesLast` |
| `KernelInvariants.FireKeeps` | educrtos/high_level.c:189-204 | a firing tick keeps the kernel invariant, leaves a task running if anybody waited, and nobody waiting past its date |
| `KernelInvariants.TickKeeps` | educrtos/pit_timer.c:127-154 | every tick keeps the kernel invariant |
| `KernelInvariants.BootKeeps` | educrtos/high_level.c:237-278 | boot establishes the kernel invariant, each task with the priority of the task image |
| `KernelInvariants.RunKeeps` | educrtos/high_level.c:182-204 | every reachable state satisfies the kernel invariant |
| `KernelSafety.ExactlyOnePlace` | educrtos/priority_scheduler.c:23-130 | in every reachable state each live context is in exactly one of running, ready and waiting; idle and unused reserve slots are in none; the live contexts are counted |
| `KernelSafety.TopPriorityRuns` | educrtos/priority_scheduler.c:112-130 | at every return to user mode the running task has the least deadline (under fixed priorities: the greatest priority) of all the ready ones, and idle runs only when the ready queue is empty |
| `KernelSafety.NeverFull` | educrtos/priority_scheduler.c:24-107 | in roomy configurations no queue-size assertion fires in any run, and all live contexts together never outnumber the capacity of a queue, which is the bound that the strict check of the heap (educrtos/heap.c:35) asks for |
| `KernelSafety.OneTaskOverflows` | educrtos/system_desc.c:86 | with one task and dynamic creation, nine duplications and ten yields fail the size assertion |
| `KernelSafety.CapacityExactly` | educrtos/high_level.h:50-54 | the size assertions hold along every run if and only if it is not the case that there is one task and dynamic creation |
| `KernelSafety.HaltsExactly` | educrtos/high_level.c:142-156 | the machine halts for lack of reserve exactly at the eleventh call of dup_thread, at the first call if creation is not compiled in, never for lack of range, and in roomy configurations for no other reason |
| `KernelSafety.FreshSlot` | educrtos/high_level.c:153-173 | the n-th successful duplication takes slot 10-n, which was live in no earlier state of the run, and the copy with that name is in the ready queue |
| `KernelTiming.IdleIsArmed` | educrtos/pit_timer.c:113-123 | when idle runs and somebody waits, the timer is armed at the minimum waiting date |
| `KernelTiming.FirstDueTickSwitches` | educrtos/high_level.c:190-204 | the first tick to reach that date switches to a due task of least deadline (greatest priority) among the due ones, and leaves nobody waiting past its date |
| `KernelTiming.IdleTicks` | educrtos/pit_timer.c:134-153 | before that date ticks change nothing but the clock |
| `KernelTiming.IdleTickNeverHalts` | educrtos/priority_scheduler.c:103-110 | no tick halts an idle machine, whatever the configuration |
| `KernelTiming.IdleIsLeft` | educrtos/pit_timer.c:127-154 | as long as the clock does not wrap on the way, a task runs after exactly the number of ticks to the first waiting date |
| `KernelTiming.IdleNeverStuck` | educrtos/pit_timer.c:127-154 | idle is never stuck: from every reachable idle state with a waiting task some number of ticks leads to a task, even if the clock wraps |
| `KernelTiming.ClockValue` | educrtos/pit_timer.c:134-136 | the clock is the number of ticks times the tick length, modulo 2^64 |
| `KernelTiming.NoEarlyRelease` | educrtos/priority_scheduler.c:103-110 | until the clock wraps, every ready or running task has reached its wake-up date, in every run |
| `KernelTiming.FiredMeansDisarmed` | educrtos/pit_timer.c:148-151 | in every run, once a tick has fired the timer stays disarmed until a task calls yield |
| `KernelTiming.DisarmedSinceFiring` | educrtos/priority_scheduler.c:23-30 | in every run, a timer not set to the first waiting date means that a tick has fired and no task has called yield since |
| `KernelTiming.ArmedExactly` | educrtos/pit_timer.c:113-151 | in every run the timer is armed at the first waiting date if and only if it is not the case that a tick has fired with no yield since, or that date is the disarmed value itself |
| `KernelTiming.LateExactly` | educrtos/pit_timer.c:148-151 | after a tick somebody waits past its date if and only if an earlier tick fired, no task has called yield since, and the clock has come to the first waiting date without being at the disarmed value; then a task was running |
| `KernelHistory.DatesDoNotDrift` | educrtos/high_level.c:59-63 | along any run a wake-up date is the sum modulo 2^64 of the durations asked for (a copy inherits the account of its parent), and an EDF deadline is that date plus the last relative deadline |
| `KernelHistory.PrioritiesInherited` | educrtos/priority_scheduler.c:81-90 | along any run every task has the priority that the task image gives it, and every copy that of the task it descends from |
| `KernelHistory.QueuedUnchanged` | educrtos/priority_scheduler.c:13-52 | a context that is queued before and after a step is unchanged, so no key changes inside a queue |
| `KernelHistory.TimerLeftDisarmed` | educrtos/pit_timer.c:148-150 | a concrete run of two tasks after which the timer is disarmed with a task waiting, which the next tick leaves waiting past its date |
| `KernelHistory.WrapBreaksOnTime` | educrtos/pit_timer.c:134-136 | a run in which the tick that wraps the clock puts it behind the date of a released task |
| `KernelHistory.NoEarlyReleaseExactly` | educrtos/pit_timer.c:134-151 | for every configuration with a task, nobody is released early in any run of at most n ticks if and only if n ticks do not wrap the clock |
| `KernelLaws.BootObeys` | educrtos/priority_scheduler.c:80-90 | boot serves the tasks in the order of deadlines or priorities, and in the order of the task image among equals |
| `KernelLaws.StepObeys` | educrtos/high_level.c:52-204 | every step from sorted queues obeys the law of its event: who runs, who queues behind whom, dates, timer, reserve, and the exact reasons to halt |
| `KernelLaws.OneStep` | educrtos/high_level.c:52-204 | the law of an event leaves no choice: two outcomes that obey it are equal |
| `KernelLaws.LawfulExactly` | educrtos/high_level.c:52-278 | for every configuration and all events, a sequence of states starts with a lawful boot and goes on by lawful steps if and only if it is the run of the state machine |
| `KernelLaws.CopyQueuesLast` | educrtos/priority_scheduler.c:93-97 | along any run a copy comes after everybody of its priority in the ready queue, and nothing else changes there |
| `KernelLaws.YieldQueuesLast` | educrtos/priority_scheduler.c:23-30 | along any run a task that yields comes after everybody of its date in the waiting queue, and the ready queue gives its head to the processor |
| `KernelLaws.KeepsProcessor` | educrtos/priority_scheduler.c:114-122 | a running task whose deadline is at most (whose priority is at least) that of the first ready one keeps the processor, and nothing else changes |
| `KernelLaws.PreemptsExactly` | educrtos/high_level.c:189-204 | along any run a tick replaces the running task if and only if it fires and a due waiting task has a strictly smaller deadline (greater priority); the one that takes over then does |
| `ListQueues.ListQueue.constructor` | educrtos/heap.c:151-154 | an empty list |
| `ListQueues.ListQueue.Insert` | educrtos/heap.c:108-136 | in-place insertion: the linked contexts become the old ones with the element at its sorted position; the list stays null-terminated and without repetition, and its size is right |
| `ListQueues.ListQueue.Link` | educrtos/heap.c:118-135 | splicing between two neighbours, either of which may be missing |
| `ListQueues.ListQueue.Remove` | educrtos/heap.c:138-144 | takes the first context off the list |
| `ListQueues.ListQueue.GetFirst` | educrtos/heap.c:146-149 | the first context of the list |
| `Kernels.JoinSplit` | educrtos/user_tasks.h:17-25 | the 32-bit halves of a 64-bit duration, high times 2^32 plus low, rejoin to it |
| `Kernels.Kernel.constructor` | educrtos/high_level.c:269-278 | boots the objects into the state `Boot`, which obeys the law of boot |
| `Kernels.Kernel.InitContexts` | educrtos/high_level.c:206-263 | the task, reserve and idle contexts hold their initial ranges, links and dates, and the ready queue is still empty |
| `Kernels.Kernel.InitReserve` | educrtos/high_level.c:221-235 | every reserve context has the initial range and links to the first of them |
| `Kernels.Kernel.InitScheduler` | educrtos/priority_scheduler.c:58-91 | inserts every task, in order and with its priority, into the ready list |
| `Kernels.Kernel.SetWaiting` | educrtos/priority_scheduler.c:23-30 | inserts into the waiting list and arms the timer at its first date, or fails the size assertion |
| `Kernels.Kernel.WakeTasks` | educrtos/priority_scheduler.c:103-110 | the loop on the two lists computes the wake-up function of the state machine |
| `Kernels.Kernel.MaybePreempt` | educrtos/priority_scheduler.c:112-123 | preempts as the state machine does, which is strictly (`KernelLaws.KeepsProcessor`) |
| `Kernels.Kernel.Dispatch` | educrtos/priority_scheduler.c:125-130 | the first ready context, or idle, becomes the running one |
| `Kernels.Kernel.SyscallYield` | educrtos/high_level.c:52-71 | takes the yield step with the joined durations, obeys its law and keeps the objects in the state of their history |
| `Kernels.Kernel.UserYield` | educrtos/user_tasks.h:16-25 | the user-side call with two 64-bit durations is the yield event with those durations, and obeys its law |
| `Kernels.Kernel.CopyContext` | educrtos/high_level.c:84-90 | the copy equals the original but for its identity |
| `Kernels.Kernel.SyscallDupThread` | educrtos/high_level.c:142-178 | takes the duplication step, obeys its law (the copy queues behind its equals) and keeps the objects in the state of their history |
| `Kernels.Kernel.TimerInterrupt` | educrtos/pit_timer.c:127-154 | takes the tick step, obeys its law and keeps the objects in the state of their history |
| `Kernels.Kernel.Wake` | educrtos/high_level.c:189-204 | the high-level half of the handler |
| `KernelObjects.ObjectPlaced` | educrtos/heap.c:103-144 | in every state of the objects each live context runs or is in exactly one list; the two lists over the shared links are null-terminated, acyclic and disjoint, of the recorded sizes, and without the idle context and the reserve slots not handed out |
| `KernelObjects.ObjectPriority` | educrtos/priority_scheduler.c:86-88 | under fixed priorities every task object carries the priority of the task image, in every state |
| `KernelObjects.ObjectTopRuns` | educrtos/priority_scheduler.c:112-130 | the running object has the least deadline (greatest priority) of all in the ready list; idle runs only when that list is empty, and then the timer is armed at the first waiting date |
| `AbstractQueue.ListRefines` | educrtos/heap.c:108-149 | the sorted list implements the abstract priority queue |
| `AbstractQueue.Interchangeable` | educrtos/heap.c:34-149 | any two implementations of the abstract queue that serve the same operations return the same sequence of priorities |
| `AbstractQueue.SameElements` | educrtos/heap.c:34-149 | and the same elements whenever the priorities queued at any one time are distinct |
| `QueueExchange.ListServes` | educrtos/heap.c:108-149 | every legal sequence of operations on the sorted list is a trace of the abstract queue |
| `QueueExchange.ServesLikeList` | educrtos/heap.c:34-149 | any queue that starts empty and serves the operations returns the priorities of the list, and its elements if queued priorities are distinct |
| `HeapQueues.RootIsTop` | educrtos/heap.c:28-30 | in a heap nobody outranks the root |
| `HeapQueues.UpStep` | educrtos/heap.c:40-44 | moving the parent into the hole keeps everything but the element at the hole in heap order |
| `HeapQueues.DownStep` | educrtos/heap.c:84-90 | swapping with the highest-ranking child keeps everything below the new position but that element in heap order |
| `HeapQueues.HeapQueue.Insert` | educrtos/heap.c:34-48 | in place on the array of pointers: keeps the heap order of the contexts pointed to, adds exactly the pointer and its value, refuses it exactly when the array is full |
| `HeapQueues.HeapQueue.MoveHoleUp` | educrtos/heap.c:36-47 | the loop that moves the hole up: heap order of the contexts pointed to, and the multiset of pointers |
| `HeapQueues.HeapQueue.GetFirst` | educrtos/heap.c:28-30 | an element that nobody outranks |
| `HeapQueues.HeapQueue.Remove` | educrtos/heap.c:50-92 | returns a queued context that no queued one outranks, keeps the heap order and exactly the remaining pointers and values |
| `HeapQueues.HeapQueue.TakeRoot` | educrtos/heap.c:50-91 | the root is replaced by the last element, which is sifted down to a heap of the remaining pointers |
| `HeapQueues.HeapQueue.SiftDown` | educrtos/heap.c:55-91 | the sift-down loop terminates in a heap with the same elements, with all indices in bounds |
| `HeapQueues.HeapQueue.Largest` | educrtos/heap.c:59-82 | right then left: the result outranks or equals the node and is outranked by neither child |
| `QueueExchange.ServeByHeap` | educrtos/heap.c:34-149 | served by the array heap, any legal operations go through the states of an abstract queue and return the priorities that the sorted list returns, and the very same contexts if the priorities queued in the list at any one time are distinct |
| `RoundRobin.FullRound` | educrtos/round_robin_scheduler.c:31-34 | as many consecutive choices as there are contexts return every context exactly once and lead back to the same ring |
| `RoundRobin.NobodyStarves` | educrtos/round_robin_scheduler.c:31-41 | a context i places away is chosen within i choices plus one for every context created meanwhile |
| `RoundRobin.Scheduler.constructor` | educrtos/round_robin_scheduler.c:16-29 | builds one cycle through exactly the task contexts, starting at the first |
| `RoundRobin.Scheduler.LinkTasks` | educrtos/round_robin_scheduler.c:19-27 | the linking loop |
| `RoundRobin.Scheduler.ChooseNext` | educrtos/round_robin_scheduler.c:31-34 | follows the link of the current context; the ring rotates by one and stays one cycle through exactly the live contexts |
| `RoundRobin.Scheduler.Round` | educrtos/round_robin_scheduler.c:31-34 | on the objects, as many choices in a row as there are live contexts return each live context exactly once, the current one last, and lead back to the same ring |
| `RoundRobin.Scheduler.DupThread` | educrtos/high_level.c:142-178 | a duplication copies the current context, inserts the copy after it and keeps a single cycle; only an empty reserve or a build without creation refuses it |
| `RoundRobin.Scheduler.InsertDuplicated` | educrtos/round_robin_scheduler.c:36-41 | the in-place insertion; its assertion holds at every call |
| `PitClock.Configured` | educrtos/pit_timer.c:14-21 | the configured divisor is 1193 and the tick 999847 ns |
| `PitClock.DivisorFits` | educrtos/pit_timer.c:14-29 | for every wanted tick the first static assertion implies the second, and the counted tick is at most the wanted one |
| `PitClock.ClockLag` | educrtos/pit_timer.c:14-29 | after n ticks the clock is never ahead of the PIT and lags it by less than n nanoseconds |
| `Terminals.LogKeepsText` | educrtos/terminal.c:89-103 | the lines of the log, end to end, are the printed characters in their colors and the newlines, in order; every line but the open one has exactly 80 cells or was ended by a newline, and the open one has fewer |
| `Terminals.BlankAfterCursor` | educrtos/terminal.c:73-103 | from the cursor on the screen is blank |
| `Terminals.Terminal.constructor` | educrtos/terminal.c:45-56 | every cell is a light grey space on black, the cursor is at the start, and the screen shows the empty log |
| `Terminals.Terminal.ChangeColor` | educrtos/terminal.c:58-61 | sets the color and changes nothing on the screen |
| `Terminals.Terminal.PutEntryAt` | educrtos/terminal.c:65-71 | writes one cell, character in the low byte and color in the high one, or refuses an index outside the buffer |
| `Terminals.Terminal.Scroll` | educrtos/terminal.c:76-83 | every row moves up and the last is cleared |
| `Terminals.Terminal.OpenLine` | educrtos/terminal.c:73-87 | opening a line moves the cursor or scrolls, and keeps the screen equal to the last 25 rows of the log |
| `Terminals.Terminal.PutCell` | educrtos/terminal.c:97-98 | writing at the cursor never fails the index check |
| `Terminals.Terminal.Put` | educrtos/terminal.c:89-103 | what one character does to all 2000 cells and the cursor, scrolling included; after any characters the buffer equals the last 25 rows of the unbounded log of them |
| `Terminals.EntryParts` | educrtos/terminal.c:31-34 | the low byte of a cell is its character and the high byte its color |
| `Numbers.NumeralReadsBack` | educrtos/lib/fprint.c:87-118 | a numeral reads back as its number |
| `Numbers.NumeralCanonical` | educrtos/lib/fprint.c:87-118 | a numeral consists of digits less than the base and has no leading zero, except "0" |
| `Numbers.EmitDigits` | educrtos/lib/fprint.c:94-99 | the digit loop leaves the numeral in the local buffer, last digit first |
| `Numbers.CopyBack` | educrtos/lib/fprint.c:100-101 | the copy loop reverses and terminates |
| `Numbers.Lltoa` | educrtos/lib/fprint.c:87-102 | on every 64-bit number the string in the buffer is its decimal numeral, and it fits the 22 bytes with its terminator |
| `Numbers.Itoa` | educrtos/lib/fprint.c:70-85 | what the signed printer leaves in the buffer, for every 32-bit number |
| `Numbers.ItoaRight` | educrtos/lib/fprint.c:75-84 | the string printed is the signed numeral if and only if the number is not negative |
| `Numbers.ItoaNegative` | educrtos/lib/fprint.c:75-84 | for a negative number it prints the digits of the magnitude without a sign and one character of junk, and for the least number the junk alone |
| `Numbers.Itox` | educrtos/lib/fprint.c:104-118 | on every 32-bit number the string in the buffer is its hexadecimal numeral, and it fits |
| `Numbers.TopDigit` | educrtos/lib/fprint.c:109 | the first loop stops at the greatest digit |
| `Numbers.EmitHex` | educrtos/lib/fprint.c:110-117 | the second loop prints the digits, greatest first, and terminates the string |
| `BinaryNumbers.NumberOrder` | libase/ext/framac_ival/c_bindings.c:224 | patterns compared from their greatest bit down compare as the numbers they write, for patterns of any width |
| `FloatOrder.NatOrder` | libase/ext/framac_ival/c_bindings.c:224 | so the comparison of 64-bit words is the comparison of the integers they write |
| `FloatOrder.CompareCases` | libase/ext/framac_ival/c_bindings.c:219-224 | with the shifts and the exclusive or of the source, positive patterns compare as they are, negative ones the other way round, and negative ones come first |
| `FloatOrder.ComparePlaces` | libase/ext/framac_ival/c_bindings.c:219-224 | the comparison is that of integers in which a negative pattern stands for minus one minus its low 63 bits |
| `FloatOrder.TotalOrder` | libase/ext/framac_ival/c_bindings.c:213-225 | the comparison is a strict total order on all 64-bit patterns |
| `FloatOrder.MagnitudeMonotone` | libase/ext/framac_ival/c_bindings.c:213-225 | greater patterns encode greater magnitudes, across subnormals and exponent boundaries |
| `FloatOrder.AgreesWithNumbers` | libase/ext/framac_ival/c_bindings.c:213-225 | on finite doubles the order is the numeric one, except that it puts -0 before +0 |
| `FloatOrder.SpecialValues` | libase/ext/framac_ival/c_bindings.c:213-225 | infinities lie beyond the finite doubles and NaNs beyond the infinities, on the side of their sign |

## Left out

- Inline assembly, port input and output, interrupt controller set-up, descriptor tables, segment packing and the register restore of a context switch: hardware effects; no claim about memory isolation is made.
- The hardware half of a context, its pid and the return values that dup_thread sets: no scheduling decision reads them.
- The kernel built with the array heap instead of the list: the heap is verified by itself and against the list, but `Kernels.Kernel` is the list build; with equal priorities the heap may pick another task.
- syscall_trigger_bug and the disabled allocation branches of dup_thread: deliberate faults and code that is not compiled.
- syscall_putchar as a kernel step: it changes no scheduling state.
- The timer and the dates under the round-robin scheduler: it ignores both; its ring is modelled with the operations that touch it.
- vfprint and its formats: variable arguments; `%llx` does not pad its low half.
- Numbers.Itox: shifts and masks are written as division by powers of sixteen and subtraction of a digit.
- The rest of the analyzer library, generated protocol code and analyzer scripts: no algorithm of their own.
