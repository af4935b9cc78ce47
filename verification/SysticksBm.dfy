/** The bare-metal timebase of PWR_systicks_bm.c: counts slept are carried over until they make whole ticks. */
module SysticksBm {
  import opened MachineWords
  import opened Arithmetic

  /** SysTick->LOAD, taken to be nonzero. */
  type Reload = r: nat | 1 <= r < UINT32_RANGE witness 1

  class Timebase {
    var accumulatedError: Uint64
    /** Ticks issued by wake-ups, and ticks issued for a SysTick interrupt pending at sleep entry. */
    var wakeTicks: nat
    var pendingTicks: nat

    constructor ()
      ensures accumulatedError == 0 && wakeTicks == 0 && pendingTicks == 0
    {
      accumulatedError, wakeTicks, pendingTicks := 0, 0, 0;
    }

    method PWR_SysticksPreProcess(sysTickPending: bool)
      modifies this
      ensures pendingTicks == old(pendingTicks) + if sysTickPending then 1 else 0
      ensures accumulatedError == old(accumulatedError) && wakeTicks == old(wakeTicks)
    {
      if sysTickPending {
        pendingTicks := pendingTicks + 1;
      }
    }

    method PWR_SysticksPostProcess(r: Reload, sleepCount: Uint64)
      modifies this
      ensures (accumulatedError, wakeTicks) == Wake(r, old(accumulatedError), old(wakeTicks), sleepCount)
      ensures pendingTicks == old(pendingTicks)
    {
      var sysTickVirtualInterrupts := (accumulatedError + sleepCount) % UINT64_RANGE / r;
      if sysTickVirtualInterrupts != 0 {
        wakeTicks := wakeTicks + sysTickVirtualInterrupts;
        accumulatedError :=
          ((accumulatedError + sleepCount) % UINT64_RANGE - sysTickVirtualInterrupts * r) % UINT64_RANGE;
      } else {
        accumulatedError := (accumulatedError + sleepCount) % UINT64_RANGE;
      }
    }
  }

  function Wake(r: Reload, error: Uint64, ticks: nat, sleepCount: Uint64): (Uint64, nat) {
    var sum := (error + sleepCount) % UINT64_RANGE;
    if sum / r != 0 then ((sum - sum / r * r) % UINT64_RANGE, ticks + sum / r) else (sum, ticks)
  }

  /** One sleep: the reload value read on waking, and the counts slept. */
  datatype Sleep = Sleep(reload: Reload, count: Uint64)

  function Sum(sleeps: seq<Sleep>): nat {
    if sleeps == [] then 0 else Sum(sleeps[..|sleeps| - 1]) + sleeps[|sleeps| - 1].count
  }

  /** The carried error, the ticks issued and the counts these stand for. */
  datatype Account = Account(error: Uint64, ticks: nat, counts: int)

  /** The account after a sequence of sleeps from power-up. */
  function AfterSleeps(sleeps: seq<Sleep>): Account {
    if sleeps == [] then Account(0, 0, 0)
    else
      var a, last := AfterSleeps(sleeps[..|sleeps| - 1]), sleeps[|sleeps| - 1];
      var (error, ticks) := Wake(last.reload, a.error, a.ticks, last.count);
      Account(error, ticks, a.counts + (ticks - a.ticks) * last.reload)
  }

  /** A wake-up divides by the reload value, after the sum has wrapped. */
  lemma WakeIs(r: Reload, error: Uint64, ticks: nat, sleepCount: Uint64)
    ensures var sum := (error + sleepCount) % UINT64_RANGE;
            Wake(r, error, ticks, sleepCount) == (sum % r, ticks + sum / r)
  {
    var sum := (error + sleepCount) % UINT64_RANGE;
    var q, m := sum / r, sum % r;
    assert sum == q * r + m;
    if q == 0 {
      assert q * r == 0;
    }
  }

  /** With a longer count the 64-bit sum wraps and ticks are lost. */
  lemma LongCountLosesTicks(r: Reload, error: Uint64, ticks: nat, sleepCount: Uint64)
    requires error + sleepCount >= UINT64_RANGE
    ensures Wake(r, error, ticks, sleepCount).1 < ticks + (error + sleepCount) / r
  {
    hide Wake;
    WakeIs(r, error, ticks, sleepCount);
    var sum := error + sleepCount - UINT64_RANGE;
    DivUnique(error + sleepCount, UINT64_RANGE, 1, sum);
    DivMonotone(sum + r, error + sleepCount, r);
    MulDistributes(sum / r, 1, r);
    DivUnique(sum + r, r, sum / r + 1, sum % r);
  }

  /** The i-th sleep of a sequence overflows the 64-bit sum. */
  predicate OverflowsAt(sleeps: seq<Sleep>, i: nat)
    requires i < |sleeps|
  {
    AfterSleeps(sleeps[..i]).error + sleeps[i].count >= UINT64_RANGE
  }

  lemma OverflowsAtPrefix(sleeps: seq<Sleep>, n: nat)
    requires n <= |sleeps|
    ensures forall i :: 0 <= i < n ==> OverflowsAt(sleeps[..n], i) == OverflowsAt(sleeps, i)
  {
    forall i | 0 <= i < n ensures OverflowsAt(sleeps[..n], i) == OverflowsAt(sleeps, i) {
      assert sleeps[..n][..i] == sleeps[..i];
    }
  }

  /** One wake-up accounts for the whole sleep, or loses 2^64 counts of it. */
  lemma WakeAccounts(r: Reload, error: Uint64, ticks: nat, sleepCount: Uint64)
    ensures var (error', ticks') := Wake(r, error, ticks, sleepCount);
            && ticks' >= ticks && error' < r
            && (ticks' - ticks) * r + error'
               == error + sleepCount - if error + sleepCount < UINT64_RANGE then 0 else UINT64_RANGE
  {
    hide Wake;
    WakeIs(r, error, ticks, sleepCount);
    WrappedSum(error + sleepCount);
    var sum := (error + sleepCount) % UINT64_RANGE;
    assert sum == sum / r * r + sum % r;
  }

  lemma WrappedSum(n: nat)
    requires n < 2 * UINT64_RANGE
    ensures n % UINT64_RANGE == n - if n < UINT64_RANGE then 0 else UINT64_RANGE
  {
    if n < UINT64_RANGE {
      DivUnique(n, UINT64_RANGE, 0, n);
    } else {
      DivUnique(n, UINT64_RANGE, 1, n - UINT64_RANGE);
    }
  }

  /** One more sleep in the account. */
  lemma AccountStep(sleeps: seq<Sleep>)
    requires sleeps != []
    ensures var a, b, last := AfterSleeps(sleeps[..|sleeps| - 1]), AfterSleeps(sleeps), sleeps[|sleeps| - 1];
            && b.error < last.reload
            && b.counts + b.error == a.counts + a.error + last.count
                                     - if a.error + last.count < UINT64_RANGE then 0 else UINT64_RANGE
  {
    hide Wake;
    var a, last := AfterSleeps(sleeps[..|sleeps| - 1]), sleeps[|sleeps| - 1];
    WakeAccounts(last.reload, a.error, a.ticks, last.count);
  }

  /**
   * Over every sequence of sleeps, whatever the reload values, the ticks and the carried error account for all counts
   * if and only if no sum of the carried error and the next count overflows.
   */
  lemma {:induction false} SleepsAccountExactly(sleeps: seq<Sleep>)
    ensures var a := AfterSleeps(sleeps);
            && a.counts + a.error <= Sum(sleeps)
            && (a.counts + a.error == Sum(sleeps)
                <==> forall i :: 0 <= i < |sleeps| ==> !OverflowsAt(sleeps, i))
  {
    if sleeps != [] {
      var n := |sleeps| - 1;
      OverflowsAtPrefix(sleeps, n);
      AccountStep(sleeps);
      assert OverflowsAt(sleeps, n) == (AfterSleeps(sleeps[..n]).error + sleeps[n].count >= UINT64_RANGE);
      SleepsAccountExactly(sleeps[..n]);
      hide OverflowsAt, AfterSleeps;
    }
  }

  ghost predicate ConstantReload(sleeps: seq<Sleep>, r: Reload) {
    forall i :: 0 <= i < |sleeps| ==> sleeps[i].reload == r
  }

  /** With one reload value the counts issued are ticks times it, and the carried error is less than a tick. */
  lemma {:induction false} ConstantAccount(sleeps: seq<Sleep>, r: Reload)
    requires ConstantReload(sleeps, r)
    ensures var a := AfterSleeps(sleeps); a.counts == a.ticks * r && a.error < r
  {
    if sleeps != [] {
      var n := |sleeps| - 1;
      ConstantAccount(sleeps[..n], r);
      AccountStep(sleeps);
      var a, b := AfterSleeps(sleeps[..n]), AfterSleeps(sleeps);
      hide Wake;
      WakeAccounts(r, a.error, a.ticks, sleeps[n].count);
      MulDistributes(a.ticks, b.ticks - a.ticks, r);
    }
  }

  /** Then incremental accounting equals one division of the total exactly when nothing overflows. */
  lemma DividesTotalExactly(sleeps: seq<Sleep>, r: Reload)
    requires ConstantReload(sleeps, r)
    ensures var a := AfterSleeps(sleeps);
            a.error == Sum(sleeps) % r && a.ticks == Sum(sleeps) / r
            <==> forall i :: 0 <= i < |sleeps| ==> !OverflowsAt(sleeps, i)
  {
    hide AfterSleeps, OverflowsAt, Sum;
    var a, total := AfterSleeps(sleeps), Sum(sleeps);
    ConstantAccount(sleeps, r);
    SleepsAccountExactly(sleeps);
    if a.ticks * r + a.error == total {
      DivUnique(total, r, a.ticks, a.error);
    } else {
      assert total == total / r * r + total % r;
    }
  }

  /** Which it never does as long as no count comes within one tick of 2^64. */
  lemma SleepsDivideTotal(sleeps: seq<Sleep>, r: Reload)
    requires ConstantReload(sleeps, r)
    requires forall i :: 0 <= i < |sleeps| ==> sleeps[i].count + r <= UINT64_RANGE
    ensures var a := AfterSleeps(sleeps); a.error == Sum(sleeps) % r && a.ticks == Sum(sleeps) / r
  {
    forall i | 0 <= i < |sleeps| ensures !OverflowsAt(sleeps, i) {
      ConstantAccount(sleeps[..i], r);
      hide AfterSleeps;
    }
    DividesTotalExactly(sleeps, r);
  }
}
