/** The 56-bit time stamp timer of fwk_platform.c and its conversion to microseconds. */
module Timestamp {
  import opened MachineWords
  import opened Arithmetic

  /** TSTMR_MAX_VAL + 1; masking with TSTMR_MAX_VAL keeps the remainder by it. */
  const COUNTER := 0x100_0000_0000_0000

  function Times(x: Uint64, k: nat): Uint64 { (x * k) % UINT64_RANGE }

  function Minus(x: Uint64, y: Uint64): Uint64 { (x - y) % UINT64_RANGE }

  function Plus(x: Uint64, y: Uint64): Uint64 { (x + y) % UINT64_RANGE }

  /** GetTimeStampDeltaTicks. */
  function DeltaTicks(timestamp0: Uint64, timestamp1: Uint64): Uint64 {
    var t0, t1 := timestamp0 % COUNTER, timestamp1 % COUNTER;
    if t1 >= t0 then Minus(t1, t0)
    else Plus(Plus(Minus(COUNTER - 1, t0), t1), 1)
  }

  /** The two multiplications and shifts of PLATFORM_Get32kTimeStampDeltaUs. */
  function Scale(ticks: Uint64): Uint64 {
    Times(Times(ticks, 125) / 64, 125) / 8
  }

  /** PLATFORM_Get32kTimeStampDeltaUs where the 32 kHz timer exists. */
  function DeltaUs(timestamp0: Uint64, timestamp1: Uint64): Uint64 {
    Scale(DeltaTicks(timestamp0, timestamp1) % COUNTER)
  }

  /** Microseconds in so many periods of the 32768 Hz clock, rounded down once. */
  function ExactUs(ticks: nat): nat { ticks * 1_000_000 / 32_768 }

  // ----- the tick delta

  lemma DeltaValue(t0: Uint64, t1: Uint64)
    ensures var a, b := t0 % COUNTER, t1 % COUNTER;
            DeltaTicks(t0, t1) == if b >= a then b - a else COUNTER - a + b
  {
  }

  lemma AddMod(t: nat, d: nat)
    requires d < COUNTER
    ensures (t + d) % COUNTER == if t % COUNTER + d < COUNTER then t % COUNTER + d else t % COUNTER + d - COUNTER
  {
    var q, r := t / COUNTER, t % COUNTER;
    if r + d < COUNTER {
      DivUnique(t + d, COUNTER, q, r + d);
    } else {
      DivUnique(t + d, COUNTER, q + 1, r + d - COUNTER);
    }
  }

  /** The one number of ticks below the counter's period that leads from the first count to the second. */
  lemma DeltaIsSubtraction(t0: Uint64, t1: Uint64, d: nat)
    requires d < COUNTER
    ensures DeltaTicks(t0, t1) < COUNTER
    ensures DeltaTicks(t0, t1) == d <==> (t0 + d) % COUNTER == t1 % COUNTER
  {
    hide DeltaTicks;
    DeltaValue(t0, t1);
    AddMod(t0, d);
  }

  /** Any delay shorter than the counter's period is recovered, however often the 56 or 64 bits wrap. */
  lemma DeltaRecovers(t: Uint64, d: nat)
    requires d < COUNTER
    ensures DeltaTicks(t, Plus(t, d)) == d
  {
    hide DeltaTicks;
    assert Plus(t, d) % COUNTER == (t + d) % COUNTER;
    DeltaIsSubtraction(t, Plus(t, d), d);
  }

  /** Consecutive delays add up as long as their sum is below the period. */
  lemma DeltasAdd(t0: Uint64, t1: Uint64, t2: Uint64)
    requires DeltaTicks(t0, t1) + DeltaTicks(t1, t2) < COUNTER
    ensures DeltaTicks(t0, t2) == DeltaTicks(t0, t1) + DeltaTicks(t1, t2)
  {
    hide DeltaTicks;
    DeltaValue(t0, t1);
    DeltaValue(t1, t2);
    DeltaValue(t0, t2);
  }

  // ----- the staged conversion

  /** No intermediate product reaches 2^64, so the stages compute over the integers. */
  lemma ScaleFits(ticks: Uint64)
    requires ticks < COUNTER
    ensures ticks * 125 < UINT64_RANGE && (ticks * 125 / 64) * 125 < UINT64_RANGE
    ensures Scale(ticks) == (ticks * 125 / 64) * 125 / 8
  {
    TimesFits(ticks, 125);
    TimesFits(ticks * 125 / 64, 125);
  }

  lemma TimesFits(x: Uint64, k: nat)
    requires x * k < UINT64_RANGE
    ensures Times(x, k) == x * k
  {
    DivUnique(x * k, UINT64_RANGE, 0, x * k);
  }

  lemma ScaleMonotone(a: Uint64, b: Uint64)
    requires a <= b < COUNTER
    ensures Scale(a) <= Scale(b)
  {
    hide Scale;
    ScaleFits(a);
    ScaleFits(b);
    DivMonotone(a * 125, b * 125, 64);
    DivMonotone((a * 125 / 64) * 125, (b * 125 / 64) * 125, 8);
  }

  /** What the two early shifts lose, exactly. */
  lemma ScaleLoss(ticks: Uint64)
    requires ticks < COUNTER
    ensures ExactUs(ticks) - Scale(ticks)
         == (64 * ((ticks * 125 / 64) * 125 % 8) + 125 * (ticks * 125 % 64)) / 512
  {
    hide Scale;
    ScaleFits(ticks);
    var q, r := ticks * 125 / 64, ticks * 125 % 64;
    var whole, rest := q * 125 / 8, q * 125 % 8;
    var lost := 64 * rest + 125 * r;
    assert ticks * 1_000_000 == 64 * (512 * whole + lost);
    DivUnique(ticks * 1_000_000, 32_768, whole + lost / 512, 64 * (lost % 512));
  }

  /** Never above the exact value, at most 16 microseconds below it, and exact on multiples of 64 ticks. */
  lemma ScaleBound(ticks: Uint64)
    requires ticks < COUNTER
    ensures ExactUs(ticks) - 16 <= Scale(ticks) <= ExactUs(ticks)
    ensures ticks % 64 == 0 ==> Scale(ticks) == ExactUs(ticks)
  {
    hide Scale;
    ScaleLoss(ticks);
    if ticks % 64 == 0 {
      DivUnique(ticks * 125, 64, ticks / 64 * 125, 0);
    }
  }

  /** Sixteen is attained, so the bound cannot be improved. */
  lemma ScaleBoundAttained()
    ensures Scale(43) == ExactUs(43) - 16
  {
  }

  /** End to end: the microseconds reported for a delay of d ticks, from any start. */
  lemma DelayInMicroseconds(t: Uint64, d: nat)
    requires d < COUNTER
    ensures ExactUs(d) - 16 <= DeltaUs(t, Plus(t, d)) <= ExactUs(d)
  {
    hide DeltaTicks, Scale;
    DeltaRecovers(t, d);
    ScaleBound(d);
  }
}
