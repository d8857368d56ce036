/** Machine-level constants and the scheduling part of a context, as a value. */
module ContextValues {

  const TWO32: nat := 0x1_0000_0000
  const TWO64: nat := 0x1_0000_0000_0000_0000

  type u32 = x: int | 0 <= x < 0x1_0000_0000
  type u64 = x: int | 0 <= x < 0x1_0000_0000_0000_0000

  /** The wake date that stands for "the timer is disarmed". */
  const DATE_FAR_AWAY: u64 := 0xFFFF_FFFF_FFFF_FFFF

  /** Addition of two dates, with the wrap-around of the 64-bit registers. */
  function AddDate(a: u64, b: u64): u64 {
    (a + b) % TWO64
  }

  datatype Option<T> = None | Some(value: T)

  /** The contexts are static objects: one per task, ten in reserve, and the idle one. */
  datatype CtxId = Task(i: nat) | Reserve(j: nat) | Idle

  /** The part of a context that scheduling depends on. */
  datatype Ctx = Ctx(id: CtxId, wakeup: u64, deadline: u64, priority: nat, range: nat)

  /** What a priority queue is sorted by: the three instantiations of the queue functor. */
  datatype Key = ByWakeup | ByDeadline | ByPriority

  function GetPriority(k: Key, c: Ctx): nat {
    match k
    case ByWakeup => c.wakeup
    case ByDeadline => c.deadline
    case ByPriority => c.priority
  }

  /** Earlier dates come first; greater fixed priorities come first. */
  predicate IsGtPriority(k: Key, a: nat, b: nat) {
    match k
    case ByWakeup => a < b
    case ByDeadline => a < b
    case ByPriority => a > b
  }

  predicate Outranks(k: Key, c: Ctx, d: Ctx) {
    IsGtPriority(k, GetPriority(k, c), GetPriority(k, d))
  }
}
