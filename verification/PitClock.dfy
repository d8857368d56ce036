/** The tick arithmetic of the programmable interval timer, in 64-bit unsigned integers. */
module PitClock {
  import opened ContextValues

  const SECOND: nat := 1_000_000_000
  const PIT_HZ: nat := 1_193_182
  const MAX_DIVISOR: nat := 65_535
  const WANTED_TICK: u64 := 1_000_000

  function Divisor(wanted: u64): u64 {
    ((PIT_HZ * wanted) % TWO64) / SECOND
  }

  function ActualTick(wanted: u64): u64 {
    ((SECOND * Divisor(wanted)) % TWO64) / PIT_HZ
  }

  /** The duration that each timer interrupt adds to the clock. */
  const ACTUAL_TICK: u64 := 999_847

  /** The first static assertion of the source. */
  predicate WantedTickFits(wanted: u64) {
    wanted < (SECOND * MAX_DIVISOR) / PIT_HZ
  }

  lemma Configured()
    ensures WantedTickFits(WANTED_TICK)
    ensures Divisor(WANTED_TICK) == 1193 && ActualTick(WANTED_TICK) == ACTUAL_TICK
  {
  }

  /** The first static assertion implies the second, nothing wraps, and the tick that the clock
      counts is at most the wanted one, short of it by less than one period of the PIT. */
  lemma DivisorFits(wanted: u64)
    requires WantedTickFits(wanted)
    ensures Divisor(wanted) < MAX_DIVISOR
    ensures ActualTick(wanted) <= wanted
    ensures (wanted - ActualTick(wanted)) * PIT_HZ < SECOND + PIT_HZ
    ensures ActualTick(wanted) * PIT_HZ <= Divisor(wanted) * SECOND < ActualTick(wanted) * PIT_HZ + PIT_HZ
  {
  }

  lemma LagOfTicks(n: nat, a: nat, d: nat)
    requires a * PIT_HZ <= d * SECOND < a * PIT_HZ + PIT_HZ
    ensures n * a * PIT_HZ <= n * d * SECOND
    ensures n > 0 ==> n * d * SECOND < (n * a + n) * PIT_HZ
  {
  }

  /** After `n` interrupts the clock shows n*ActualTick nanoseconds while the PIT has run for
      n*Divisor/PIT_HZ seconds. The clock is never ahead, and it lags by less than n nanoseconds. */
  lemma ClockLag(wanted: u64, n: nat)
    requires WantedTickFits(wanted)
    ensures n * ActualTick(wanted) * PIT_HZ <= n * Divisor(wanted) * SECOND
    ensures n > 0 ==> n * Divisor(wanted) * SECOND < (n * ActualTick(wanted) + n) * PIT_HZ
  {
    DivisorFits(wanted);
    LagOfTicks(n, ActualTick(wanted), Divisor(wanted));
  }
}
