/** The FreeRTOS tickless timebase of PWR_systicks.c: sleep time becomes OS ticks plus a remembered error. */
module Systicks {
  import opened MachineWords
  import opened Arithmetic

  /** Microseconds per OS tick, portTICK_PERIOD_MS * 1000. */
  type TickPeriod = t: nat | 1 <= t <= UINT32_RANGE witness 1000

  function UsToTick(t: TickPeriod, us: nat): Uint32 { us / t % UINT32_RANGE }

  function TickToUs(t: TickPeriod, tick: nat): Uint64 { tick * t % UINT64_RANGE }

  datatype SleepStatus = AbortSleep | StandardSleep | NoTasksWaitingTimeout

  /** cumulatedErrorUs, the ticks stepped so far, and whether SysTick runs. */
  datatype State = State(error: Uint64, ticks: nat, sysTickOn: bool)

  datatype Outcome = Aborted | Sleep(expectedUs: Uint64)

  /** PWR_SysticksPreProcess. */
  function PreProcess(t: TickPeriod, s: State, idleTicks: Uint32, status: SleepStatus): (State, Outcome) {
    var errorTick := UsToTick(t, s.error);
    if errorTick > 0 then
      var step := if errorTick <= idleTicks then errorTick else idleTicks;
      (State((s.error - TickToUs(t, step)) % UINT64_RANGE, s.ticks + step, true), Aborted)
    else
      match status
      case AbortSleep => (s.(sysTickOn := true), Aborted)
      case NoTasksWaitingTimeout => (s.(sysTickOn := false), Sleep(0))
      case StandardSleep => (s.(sysTickOn := false), Sleep(TickToUs(t, idleTicks)))
  }

  /** The ticks PostProcess steps, and the microseconds it adds to the error. */
  function Stepped(t: TickPeriod, expectedUs: Uint64, actualUs: Uint64): Uint32 {
    UsToTick(t, if actualUs > expectedUs && expectedUs > 0 then expectedUs else actualUs)
  }

  function Lost(t: TickPeriod, expectedUs: Uint64, actualUs: Uint64): nat {
    var capped := actualUs > expectedUs && expectedUs > 0;
    if capped then actualUs - expectedUs
    else (actualUs - TickToUs(t, UsToTick(t, actualUs))) % UINT64_RANGE
  }

  /** PWR_SysticksPostProcess. */
  function PostProcess(t: TickPeriod, s: State, expectedUs: Uint64, actualUs: Uint64): State {
    State((s.error + Lost(t, expectedUs, actualUs)) % UINT64_RANGE, s.ticks + Stepped(t, expectedUs, actualUs), true)
  }

  class Timebase {
    const t: TickPeriod
    var cumulatedErrorUs: Uint64
    var tickCount: nat
    var sysTickOn: bool

    ghost function View(): State
      reads this
    {
      State(cumulatedErrorUs, tickCount, sysTickOn)
    }

    constructor (t: TickPeriod)
      ensures View() == State(0, 0, true) && this.t == t
    {
      this.t := t;
      cumulatedErrorUs, tickCount, sysTickOn := 0, 0, true;
    }

    method PWR_SysticksPreProcess(expectedIdleTime: Uint32, status: SleepStatus)
      returns (abortIdle: bool, expectedIdleTimeUs: Uint64)
      modifies this
      ensures (View(), if abortIdle then Aborted else Sleep(expectedIdleTimeUs))
           == PreProcess(t, old(View()), expectedIdleTime, status)
    {
      abortIdle, expectedIdleTimeUs := false, 0;
      var cumulatedErrorTick := UsToTick(t, cumulatedErrorUs);
      if cumulatedErrorTick > 0 {
        if cumulatedErrorTick <= expectedIdleTime {
          tickCount := tickCount + cumulatedErrorTick;
          cumulatedErrorUs := (cumulatedErrorUs - TickToUs(t, cumulatedErrorTick)) % UINT64_RANGE;
        } else {
          tickCount := tickCount + expectedIdleTime;
          cumulatedErrorUs := (cumulatedErrorUs - TickToUs(t, expectedIdleTime)) % UINT64_RANGE;
        }
        abortIdle := true;
      }
      if !abortIdle {
        sysTickOn := false;
        if status != AbortSleep {
          if status == NoTasksWaitingTimeout {
            expectedIdleTimeUs := 0;
          } else {
            expectedIdleTimeUs := TickToUs(t, expectedIdleTime);
          }
        } else {
          abortIdle := true;
        }
      }
      if abortIdle {
        sysTickOn := true;
      }
    }

    method PWR_SysticksPostProcess(expectedIdleTimeUs: Uint64, actualIdleTimeUs: Uint64)
      modifies this
      ensures View() == PostProcess(t, old(View()), expectedIdleTimeUs, actualIdleTimeUs)
    {
      var idleTimeTick: nat;
      if actualIdleTimeUs > expectedIdleTimeUs && expectedIdleTimeUs > 0 {
        cumulatedErrorUs := (cumulatedErrorUs + (actualIdleTimeUs - expectedIdleTimeUs)) % UINT64_RANGE;
        idleTimeTick := UsToTick(t, expectedIdleTimeUs);
      } else {
        idleTimeTick := UsToTick(t, actualIdleTimeUs);
        cumulatedErrorUs :=
          (cumulatedErrorUs + (actualIdleTimeUs - TickToUs(t, idleTimeTick)) % UINT64_RANGE) % UINT64_RANGE;
      }
      tickCount := tickCount + idleTimeTick;
      sysTickOn := true;
    }
  }

  // ----- arithmetic

  /** Converting at most the ticks contained in us never exceeds us, so no subtraction underflows. */
  lemma TicksFit(t: TickPeriod, us: Uint64, tick: nat)
    requires tick <= us / t
    ensures TickToUs(t, tick) == tick * t <= us
  {
    MulMonotone(tick, us / t, t);
  }

  lemma TickRoundTrip(t: TickPeriod, tick: Uint32)
    ensures TickToUs(t, tick) == tick * t && UsToTick(t, tick * t) == tick
    ensures tick > 0 ==> tick * t > 0
  {
    MulMonotone(tick, UINT32_RANGE - 1, t);
    MulMonotone(UINT32_RANGE - 1, UINT32_RANGE - 1, t);
    Square(t);
    DivUnique(tick * t, t, tick, 0);
    if tick > 0 {
      MulMonotone(1, tick, t);
    }
  }

  lemma Square(t: TickPeriod)
    ensures (UINT32_RANGE - 1) * t < UINT64_RANGE
  {
  }

  // ----- conservation of time

  /** PreProcess moves time from the error to the tick count and loses none. */
  lemma PreConserves(t: TickPeriod, s: State, idleTicks: Uint32, status: SleepStatus)
    ensures var (s', outcome) := PreProcess(t, s, idleTicks, status);
            && s'.error <= s.error && s.ticks <= s'.ticks <= s.ticks + idleTicks
            && s'.ticks * t + s'.error == s.ticks * t + s.error
            && (outcome == Aborted <==> s'.sysTickOn)
            && (outcome.Sleep? ==> s'.ticks == s.ticks && s'.error == s.error)
  {
    var errorTick := UsToTick(t, s.error);
    var step := if errorTick <= idleTicks then errorTick else idleTicks;
    if errorTick > 0 {
      ErrorTicksFit(t, s.error);
      TicksFit(t, s.error, step);
      MulDistributes(s.ticks, step, t);
    }
  }

  lemma ErrorTicksFit(t: TickPeriod, us: nat)
    ensures UsToTick(t, us) <= us / t
  {
  }

  /** What the 64-bit error counter drops when it wraps. */
  function Wrapped(t: TickPeriod, s: State, expectedUs: Uint64, actualUs: Uint64): nat {
    (s.error + Lost(t, expectedUs, actualUs)) / UINT64_RANGE
  }

  /**
   * After a sleep whose length PreProcess announced, every microsecond is a tick, error, or
   * wrapped away; so time is conserved exactly when the error counter does not overflow.
   */
  lemma PostConserves(t: TickPeriod, s: State, idleTicks: Uint32, standard: bool, actualUs: Uint64)
    ensures var expectedUs := if standard then TickToUs(t, idleTicks) else 0;
            var s' := PostProcess(t, s, expectedUs, actualUs);
            && s'.sysTickOn
            && s'.ticks * t + s'.error + UINT64_RANGE * Wrapped(t, s, expectedUs, actualUs)
               == s.ticks * t + s.error + actualUs
            && (s'.ticks * t + s'.error == s.ticks * t + s.error + actualUs
                <==> s.error + Lost(t, expectedUs, actualUs) < UINT64_RANGE)
  {
    var expectedUs := if standard then TickToUs(t, idleTicks) else 0;
    SleepAccounted(t, idleTicks, standard, actualUs);
    hide TickToUs, UsToTick;
    MulDistributes(s.ticks, Stepped(t, expectedUs, actualUs), t);
    WrapSplit(s.error + Lost(t, expectedUs, actualUs));
    hide Lost, Stepped;
  }

  lemma SleepAccounted(t: TickPeriod, idleTicks: Uint32, standard: bool, actualUs: Uint64)
    ensures var expectedUs := if standard then TickToUs(t, idleTicks) else 0;
            Stepped(t, expectedUs, actualUs) * t + Lost(t, expectedUs, actualUs) == actualUs
  {
    TickRoundTrip(t, idleTicks);
    ErrorTicksFit(t, actualUs);
    TicksFit(t, actualUs, UsToTick(t, actualUs));
    hide TickToUs, UsToTick;
  }

  lemma WrapSplit(n: nat)
    ensures n == n % UINT64_RANGE + UINT64_RANGE * (n / UINT64_RANGE)
    ensures n / UINT64_RANGE == 0 <==> n < UINT64_RANGE
  {
  }

  /** A finite sleep never steps the tick count past the announced idle time. */
  lemma PostWithinIdleTime(t: TickPeriod, s: State, idleTicks: Uint32, actualUs: Uint64)
    ensures PostProcess(t, s, TickToUs(t, idleTicks), actualUs).ticks - s.ticks <= idleTicks
            <==> idleTicks > 0 || UsToTick(t, actualUs) == 0
  {
    TickRoundTrip(t, idleTicks);
    ErrorTicksFit(t, actualUs);
    if actualUs <= idleTicks * t {
      DivMonotone(actualUs, idleTicks * t, t);
      DivUnique(idleTicks * t, t, idleTicks, 0);
    }
    hide TickToUs, UsToTick;
  }

  /** One pass of the idle loop: the caller sleeps and calls PostProcess unless PreProcess aborted. */
  datatype Pass = Pass(idleTicks: Uint32, status: SleepStatus, actualUs: Uint64)

  function Slept(t: TickPeriod, s: State, p: Pass): nat {
    if PreProcess(t, s, p.idleTicks, p.status).1.Sleep? then p.actualUs else 0
  }

  function RunPass(t: TickPeriod, s: State, p: Pass): State {
    var (s1, outcome) := PreProcess(t, s, p.idleTicks, p.status);
    match outcome
    case Aborted => s1
    case Sleep(expectedUs) => PostProcess(t, s1, expectedUs, p.actualUs)
  }

  function Run(t: TickPeriod, s: State, ps: seq<Pass>): State {
    if ps == [] then s else RunPass(t, Run(t, s, ps[..|ps| - 1]), ps[|ps| - 1])
  }

  /** The sleep time reported over a run. */
  function TotalSlept(t: TickPeriod, s: State, ps: seq<Pass>): nat {
    if ps == [] then 0
    else TotalSlept(t, s, ps[..|ps| - 1]) + Slept(t, Run(t, s, ps[..|ps| - 1]), ps[|ps| - 1])
  }

  /** One pass conserves time exactly as long as the error counter cannot wrap. */
  lemma PassConserves(t: TickPeriod, s: State, p: Pass)
    ensures var s' := RunPass(t, s, p);
            && s'.sysTickOn
            && (s'.ticks * t + s'.error - (s.ticks * t + s.error + Slept(t, s, p))) % UINT64_RANGE == 0
            && s'.ticks * t + s'.error <= s.ticks * t + s.error + Slept(t, s, p)
            && (s.error + Slept(t, s, p) < UINT64_RANGE ==>
                 s'.ticks * t + s'.error == s.ticks * t + s.error + Slept(t, s, p)
                 && s'.error <= s.error + Slept(t, s, p))
            && (p.idleTicks > 0 && p.status == StandardSleep ==> s'.ticks - s.ticks <= p.idleTicks)
  {
    PreConserves(t, s, p.idleTicks, p.status);
    var (s1, outcome) := PreProcess(t, s, p.idleTicks, p.status);
    if outcome.Sleep? {
      var standard := p.status == StandardSleep;
      PostConserves(t, s1, p.idleTicks, standard, p.actualUs);
      PostWithinIdleTime(t, s1, p.idleTicks, p.actualUs);
      var expectedUs := if standard then TickToUs(t, p.idleTicks) else 0;
      var k := Wrapped(t, s1, expectedUs, p.actualUs);
      LostBounded(t, expectedUs, p.actualUs);
      MultipleOf(k);
    }
  }

  lemma LostBounded(t: TickPeriod, expectedUs: Uint64, actualUs: Uint64)
    ensures Lost(t, expectedUs, actualUs) <= actualUs
  {
    ErrorTicksFit(t, actualUs);
    TicksFit(t, actualUs, UsToTick(t, actualUs));
  }

  lemma MultipleOf(k: int)
    ensures (-(UINT64_RANGE * k)) % UINT64_RANGE == 0
  {
    DivUnique(-(UINT64_RANGE * k), UINT64_RANGE, -k, 0);
  }

  /** The pass sleeps, and the error it adds overflows the 64-bit counter. */
  predicate PassWraps(t: TickPeriod, s: State, p: Pass) {
    var (s1, outcome) := PreProcess(t, s, p.idleTicks, p.status);
    outcome.Sleep? && s1.error + Lost(t, outcome.expectedUs, p.actualUs) >= UINT64_RANGE
  }

  /** Ticks and error together, in microseconds. */
  function Time(t: TickPeriod, s: State): nat { s.ticks * t + s.error }

  /** A pass never gains time, and loses some exactly when it wraps. */
  lemma PassAccounts(t: TickPeriod, s: State, p: Pass)
    ensures var s' := RunPass(t, s, p);
            && Time(t, s') <= Time(t, s) + Slept(t, s, p)
            && (Time(t, s') == Time(t, s) + Slept(t, s, p) <==> !PassWraps(t, s, p))
  {
    hide PostProcess, Lost;
    PassConserves(t, s, p);
    PreConserves(t, s, p.idleTicks, p.status);
    var (s1, outcome) := PreProcess(t, s, p.idleTicks, p.status);
    if outcome.Sleep? {
      PostConserves(t, s1, p.idleTicks, p.status == StandardSleep, p.actualUs);
    }
  }

  /** The i-th pass of a run wraps. */
  predicate WrapsAt(t: TickPeriod, s: State, ps: seq<Pass>, i: nat)
    requires i < |ps|
  {
    PassWraps(t, Run(t, s, ps[..i]), ps[i])
  }

  lemma WrapsAtPrefix(t: TickPeriod, s: State, ps: seq<Pass>, n: nat)
    requires n <= |ps|
    ensures forall i :: 0 <= i < n ==> WrapsAt(t, s, ps[..n], i) == WrapsAt(t, s, ps, i)
  {
    forall i | 0 <= i < n ensures WrapsAt(t, s, ps[..n], i) == WrapsAt(t, s, ps, i) {
      assert ps[..n][..i] == ps[..i];
    }
    hide PassWraps;
  }

  /** Over every run time is conserved if and only if no pass overflows the 64-bit error counter. */
  lemma {:induction false} RunConservesExactly(t: TickPeriod, s: State, ps: seq<Pass>)
    ensures Time(t, Run(t, s, ps)) <= Time(t, s) + TotalSlept(t, s, ps)
    ensures Time(t, Run(t, s, ps)) == Time(t, s) + TotalSlept(t, s, ps)
            <==> forall i :: 0 <= i < |ps| ==> !WrapsAt(t, s, ps, i)
  {
    if ps != [] {
      var n := |ps| - 1;
      WrapsAtPrefix(t, s, ps, n);
      PassAccounts(t, Run(t, s, ps[..n]), ps[n]);
      assert WrapsAt(t, s, ps, n) == PassWraps(t, Run(t, s, ps[..n]), ps[n]);
      hide PassWraps, Time, RunPass, Slept, WrapsAt;
      RunConservesExactly(t, s, ps[..n]);
    }
  }

  /** So over every run with less than 2^64 microseconds to account for. */
  lemma {:induction false} RunConserves(t: TickPeriod, s: State, ps: seq<Pass>)
    requires s.error + TotalSlept(t, s, ps) < UINT64_RANGE
    ensures var s' := Run(t, s, ps);
            && s'.ticks * t + s'.error == s.ticks * t + s.error + TotalSlept(t, s, ps)
            && s'.error <= s.error + TotalSlept(t, s, ps)
  {
    if ps != [] {
      var n := |ps| - 1;
      RunConserves(t, s, ps[..n]);
      PassConserves(t, Run(t, s, ps[..n]), ps[n]);
    }
  }

  // ----- what one pass does exactly

  /** The call aborts exactly on visible error ticks or on AbortSleep, and else announces the idle time or no limit. */
  lemma PreDecides(t: TickPeriod, s: State, idleTicks: Uint32, status: SleepStatus)
    ensures var outcome := PreProcess(t, s, idleTicks, status).1;
            && (outcome == Aborted <==> VisibleTicks(t, s) > 0 || status == AbortSleep)
            && (outcome == Sleep(0) <==>
                 VisibleTicks(t, s) == 0 && (status == NoTasksWaitingTimeout || (status == StandardSleep && idleTicks == 0)))
            && (outcome.Sleep? && status == StandardSleep ==> outcome.expectedUs == idleTicks * t)
            && (outcome.Sleep? ==> outcome.expectedUs / t == if status == StandardSleep then idleTicks else 0)
  {
    TickRoundTrip(t, idleTicks);
    DivUnique(idleTicks * t, t, idleTicks, 0);
    NoErrorNoTicks(t);
    hide TickToUs;
  }

  /** The whole ticks in us, but no more than idleTicks. */
  function AtMost(t: TickPeriod, us: nat, idleTicks: nat): nat { if us / t <= idleTicks then us / t else idleTicks }

  /** A timed sleep steps the whole ticks slept, but no more than announced, and leaves the rest as error. */
  lemma TimedSleep(t: TickPeriod, s: State, idleTicks: Uint32, actualUs: Uint64)
    requires VisibleTicks(t, s) == 0 && idleTicks > 0
    ensures var s' := RunPass(t, s, Pass(idleTicks, StandardSleep, actualUs));
            var stepped := AtMost(t, actualUs, idleTicks);
            && s'.ticks == s.ticks + stepped
            && s'.error == (s.error + (actualUs - stepped * t)) % UINT64_RANGE
  {
    TickRoundTrip(t, idleTicks);
    TimedSteps(t, idleTicks, actualUs);
    SleepAccounted(t, idleTicks, true, actualUs);
    LostBounded(t, idleTicks * t, actualUs);
    hide TickToUs, UsToTick, Lost, Stepped, AtMost;
    PreUntouched(t, s, idleTicks);
  }

  lemma PreUntouched(t: TickPeriod, s: State, idleTicks: Uint32)
    requires VisibleTicks(t, s) == 0
    ensures PreProcess(t, s, idleTicks, StandardSleep) == (s.(sysTickOn := false), Sleep(TickToUs(t, idleTicks)))
  {
    hide TickToUs;
  }

  lemma TimedSteps(t: TickPeriod, idleTicks: Uint32, actualUs: Uint64)
    requires idleTicks > 0
    ensures TickToUs(t, idleTicks) == idleTicks * t
    ensures Stepped(t, TickToUs(t, idleTicks), actualUs) == AtMost(t, actualUs, idleTicks)
  {
    TickRoundTrip(t, idleTicks);
    hide TickToUs;
    DivUnique(idleTicks * t, t, idleTicks, 0);
    if actualUs > idleTicks * t {
      DivMonotone(idleTicks * t, actualUs, t);
    } else {
      DivMonotone(actualUs, idleTicks * t, t);
    }
  }

  /** A sleep of exactly the announced length becomes that many ticks, and the error stays. */
  lemma PunctualSleep(t: TickPeriod, s: State, idleTicks: Uint32)
    requires s.error < t && idleTicks > 0
    ensures idleTicks * t < UINT64_RANGE
    ensures var s' := RunPass(t, s, Pass(idleTicks, StandardSleep, idleTicks * t));
            s'.ticks == s.ticks + idleTicks && s'.error == s.error
  {
    TickRoundTrip(t, idleTicks);
    DivUnique(idleTicks * t, t, idleTicks, 0);
    DivUnique(s.error, t, 0, s.error);
    hide RunPass;
    TimedSleep(t, s, idleTicks, idleTicks * t);
  }

  // ----- draining the error

  /** One entry into the idle loop, as PreProcess sees it. */
  datatype Entry = Entry(idleTicks: Uint32, status: SleepStatus)

  function PreProcessAll(t: TickPeriod, s: State, es: seq<Entry>): State
    decreases es
  {
    if es == [] then s else PreProcessAll(t, PreProcess(t, s, es[0].idleTicks, es[0].status).0, es[1..])
  }

  /** Whole ticks in the error, as far as a 32-bit tick count shows them, and the multiples of 2^32 ticks it hides. */
  function VisibleTicks(t: TickPeriod, s: State): nat { s.error / t % UINT32_RANGE }

  function HiddenTicks(t: TickPeriod, s: State): nat { s.error / t / UINT32_RANGE }

  /** One PreProcess works off as many visible ticks as the idle time allows, and never a hidden one. */
  lemma PreDrains(t: TickPeriod, s: State, e: Entry)
    ensures var s' := PreProcess(t, s, e.idleTicks, e.status).0;
            && HiddenTicks(t, s') == HiddenTicks(t, s)
            && VisibleTicks(t, s') == if VisibleTicks(t, s) <= e.idleTicks then 0 else VisibleTicks(t, s) - e.idleTicks
  {
    var ticks, seen := s.error / t, UsToTick(t, s.error);
    var step := if seen <= e.idleTicks then seen else e.idleTicks;
    ErrorTicksFit(t, s.error);
    TicksFit(t, s.error, step);
    TakeTicks(t, s.error, step);
    DivUnique(ticks - step, UINT32_RANGE, ticks / UINT32_RANGE, seen - step);
    hide TickToUs;
  }

  lemma TakeTicks(t: TickPeriod, us: nat, step: nat)
    requires step <= us / t
    ensures (us - step * t) / t == us / t - step
  {
    MulDistributes(us / t, step, t);
    DivUnique(us - step * t, t, us / t - step, us % t);
  }

  /** Calls with positive idle times, as many as there are visible ticks, leave none; the hidden ones stay. */
  lemma {:induction false} PreDrainsAll(t: TickPeriod, s: State, es: seq<Entry>)
    ensures HiddenTicks(t, PreProcessAll(t, s, es)) == HiddenTicks(t, s)
    ensures VisibleTicks(t, s) <= |es| && (forall i :: 0 <= i < |es| ==> 0 < es[i].idleTicks) ==>
              VisibleTicks(t, PreProcessAll(t, s, es)) == 0
    decreases es
  {
    hide PreProcess, HiddenTicks, VisibleTicks;
    if es != [] {
      PreDrains(t, s, es[0]);
      PreDrainsAll(t, PreProcess(t, s, es[0].idleTicks, es[0].status).0, es[1..]);
    }
  }

  /** Enough calls with positive idle times bring the error below one tick if and only if it is below 2^32 ticks. */
  lemma DrainsExactly(t: TickPeriod, s: State, es: seq<Entry>)
    requires VisibleTicks(t, s) <= |es| && forall i :: 0 <= i < |es| ==> 0 < es[i].idleTicks
    ensures PreProcessAll(t, s, es).error < t <==> s.error / t < UINT32_RANGE
  {
    var s' := PreProcessAll(t, s, es);
    PreDrainsAll(t, s, es);
    SmallError(t, s'.error);
    assert HiddenTicks(t, s) == 0 <==> s.error / t < UINT32_RANGE;
  }

  lemma SmallError(t: TickPeriod, us: nat)
    ensures us / t == 0 <==> us < t
  {
  }

  /** From 2^32 ticks on, no sequence of calls whatever drains the error. */
  lemma HugeErrorNeverDrains(t: TickPeriod, s: State, es: seq<Entry>)
    requires s.error / t >= UINT32_RANGE
    ensures PreProcessAll(t, s, es).error / t >= UINT32_RANGE
  {
    PreDrainsAll(t, s, es);
    hide PreProcessAll;
    var n := PreProcessAll(t, s, es).error / t;
    assert s.error / t / UINT32_RANGE > 0;
    assert n / UINT32_RANGE > 0;
  }

  /** One untimed sleep without prior error leaves exactly the ticks that 32 bits do not show, and the rest of a tick. */
  lemma UntimedSleep(t: TickPeriod, ticks: nat, idleTicks: Uint32, actualUs: Uint64)
    ensures var s := RunPass(t, State(0, ticks, true), Pass(idleTicks, NoTasksWaitingTimeout, actualUs));
            && VisibleTicks(t, s) == 0 && HiddenTicks(t, s) == actualUs / t / UINT32_RANGE
            && (s.error / t >= UINT32_RANGE <==> actualUs / t >= UINT32_RANGE)
  {
    hide RunPass, TickToUs;
    var whole, seen := actualUs / t, UsToTick(t, actualUs);
    UntimedSleepIs(t, ticks, idleTicks, actualUs);
    ErrorTicksFit(t, actualUs);
    TakeTicks(t, actualUs, seen);
    assert seen == whole % UINT32_RANGE;
    HiddenPart(whole);
  }

  lemma HiddenPart(n: nat)
    ensures var m := n - n % UINT32_RANGE;
            m % UINT32_RANGE == 0 && m / UINT32_RANGE == n / UINT32_RANGE && (m >= UINT32_RANGE <==> n >= UINT32_RANGE)
  {
    DivUnique(n - n % UINT32_RANGE, UINT32_RANGE, n / UINT32_RANGE, 0);
  }

  lemma UntimedSleepIs(t: TickPeriod, ticks: nat, idleTicks: Uint32, actualUs: Uint64)
    ensures var s := RunPass(t, State(0, ticks, true), Pass(idleTicks, NoTasksWaitingTimeout, actualUs));
            s.error == actualUs - UsToTick(t, actualUs) * t
  {
    NoErrorNoTicks(t);
    SleepAccounted(t, idleTicks, false, actualUs);
    LostBounded(t, 0, actualUs);
    hide TickToUs, UsToTick, Lost;
  }

  lemma NoErrorNoTicks(t: TickPeriod)
    ensures UsToTick(t, 0) == 0
  {
    DivUnique(0, t, 0, 0);
  }
}
