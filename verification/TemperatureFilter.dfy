/** The modified moving average of fwk_platform_sensors.c and the decision to notify the other core. */
module TemperatureFilter {
  import opened Arithmetic

  const INT32_MAX := 0x7fff_ffff
  /** PLATFORM_TEMP_SENT_NBU_THRESHOLD, tenths of a degree. */
  const THRESHOLD := 10

  /** C division: truncation towards zero. */
  function CDiv(a: int, n: int): int
    requires n > 0
  {
    if a >= 0 then a / n else -((-a) / n)
  }

  /** One iteration after the first sample. */
  function Next(n: int, sum: int, temperature: int): int
    requires n > 0
  {
    sum - CDiv(sum, n) + temperature
  }

  /** All values of 32-bit signed arithmetic. */
  predicate Int32(x: int) { -INT32_MAX - 1 <= x <= INT32_MAX }

  /** The filter's sum after a first sample and any further ones. */
  function SumAfter(n: int, samples: seq<int>): int
    requires n > 0 && samples != []
    decreases |samples|
  {
    var last := |samples| - 1;
    if last == 0 then samples[0] * n else Next(n, SumAfter(n, samples[..last]), samples[last])
  }

  predicate AllWithin(samples: seq<int>, lo: int, hi: int) {
    forall i :: 0 <= i < |samples| ==> lo <= samples[i] <= hi
  }

  class Filter {
    /** 1 << shift, and PLATFORM_TEMPERATURE_FILTER_SIZE. */
    const factorNbr: int
    const filterSize: nat
    var sampleNumber: nat
    var sum: int
    var lastSent: int
    /** Every temperature filtered so far. */
    ghost var samples: seq<int>

    ghost predicate Valid()
      reads this
    {
      && factorNbr > 0 && filterSize > 1
      && sampleNumber == (if |samples| < filterSize then |samples| else filterSize)
      && (samples != [] ==> sum == SumAfter(factorNbr, samples))
    }

    constructor (factorNbr: int, filterSize: nat, unknownTemperature: int)
      requires factorNbr > 0 && filterSize > 1
      ensures Valid() && samples == [] && this.factorNbr == factorNbr && lastSent == unknownTemperature
    {
      this.factorNbr, this.filterSize := factorNbr, filterSize;
      sampleNumber, sum, lastSent, samples := 0, 0, unknownTemperature, [];
    }

    /** PLATFORM_ComputeMMAOnTemperature; lo and hi are any bounds of the samples for which factorNbr * lo and
        factorNbr * hi fit the 32-bit sum. */
    method ComputeMMA(temperature: int, ghost lo: int, ghost hi: int) returns (result: int)
      requires Valid() && AllWithin(samples, lo, hi) && lo <= temperature <= hi
      requires Int32(factorNbr * lo) && Int32(factorNbr * hi)
      modifies this`sum, this`sampleNumber, this`samples
      ensures Valid() && samples == old(samples) + [temperature] && AllWithin(samples, lo, hi)
      ensures result == CDiv(SumAfter(factorNbr, samples), factorNbr)
      ensures lo <= result <= hi && Int32(sum)
    {
      hide CDiv, Next;
      RunBounded(factorNbr, samples, lo, hi);
      RunBounded(factorNbr, samples + [temperature], lo, hi);
      SumAfterPush(factorNbr, samples, temperature);
      if sampleNumber == 0 {
        sum := temperature * factorNbr;
      } else {
        DifferenceFits(factorNbr, sum, temperature, lo, hi);
        NextIs(factorNbr, sum, temperature);
        var average := CDiv(sum, factorNbr);
        assert Int32(sum - average);
        sum := sum - average;
        sum := sum + temperature;
      }
      if sampleNumber < filterSize {
        sampleNumber := sampleNumber + 1;
      }
      samples := samples + [temperature];
      result := CDiv(sum, factorNbr);
    }

    /** PLATFORM_TemperatureReadyWorkHandler with the other core started. */
    method TemperatureReady(temperature: int, ghost lo: int, ghost hi: int) returns (sent: bool)
      requires Valid() && AllWithin(samples, lo, hi) && lo <= temperature <= hi
      requires Int32(factorNbr * lo) && Int32(factorNbr * hi)
      requires Int32(lastSent - THRESHOLD) && Int32(lastSent + THRESHOLD)
      modifies this
      ensures Valid() && samples == old(samples) + [temperature] && AllWithin(samples, lo, hi)
      ensures var filtered := CDiv(SumAfter(factorNbr, samples), factorNbr);
              && -THRESHOLD < filtered - lastSent < THRESHOLD
              && (sent <==> !(-THRESHOLD < filtered - old(lastSent) < THRESHOLD))
              && lastSent == if sent then filtered else old(lastSent)
    {
      var temperatureToSend := ComputeMMA(temperature, lo, hi);
      sent := temperatureToSend >= lastSent + THRESHOLD || temperatureToSend <= lastSent - THRESHOLD;
      if sent {
        lastSent := temperatureToSend;
      }
    }
  }

  // ----- truncating division

  /** The quotient is odd in the dividend, and the remainder has the sign of the dividend. */
  lemma CDivTruncates(a: int, n: int)
    requires n > 0
    ensures CDiv(-a, n) == -CDiv(a, n)
    ensures a >= 0 ==> 0 <= a - n * CDiv(a, n) < n
    ensures a <= 0 ==> -n < a - n * CDiv(a, n) <= 0
  {
    if a == 0 {
      DivUnique(0, n, 0, 0);
    } else if a > 0 {
      assert a == a / n * n + a % n;
    } else {
      assert -a == (-a) / n * n + (-a) % n;
    }
  }

  lemma CDivStep(a: int, n: int)
    requires n > 0
    ensures CDiv(a, n) <= CDiv(a + 1, n) <= CDiv(a, n) + 1
  {
    if a >= 0 {
      NextQuotient(a, n);
    } else if a + 1 < 0 {
      NextQuotient(-a - 1, n);
    } else {
      DivUnique(0, n, 0, 0);
      NextQuotient(0, n);
    }
  }

  lemma NextQuotient(a: nat, n: int)
    requires n > 0
    ensures a / n <= (a + 1) / n <= a / n + 1
  {
    DivMonotone(a, a + 1, n);
    DivMonotone(a + 1, a + n, n);
    MulDistributes(a / n, 1, n);
    DivUnique(a + n, n, a / n + 1, a % n);
  }

  lemma {:induction false} CDivMonotone(a: int, b: int, n: int)
    requires n > 0 && a <= b
    ensures 0 <= CDiv(b, n) - CDiv(a, n) <= b - a
    decreases b - a
  {
    if a < b {
      CDivStep(a, n);
      CDivMonotone(a + 1, b, n);
    }
  }

  lemma CDivMultiple(k: int, n: int)
    requires n > 0
    ensures CDiv(n * k, n) == k
  {
    if k >= 0 {
      MulMonotone(0, k, n);
      DivUnique(n * k, n, k, 0);
    } else {
      MulMonotone(k, -1, n);
      DivUnique(-(n * k), n, -k, 0);
    }
  }

  // ----- boundedness

  /** The sum stays between n*lo and n*hi, negative bounds included. */
  lemma NextBounded(n: int, sum: int, temperature: int, lo: int, hi: int)
    requires n > 0 && n * lo <= sum <= n * hi && lo <= temperature <= hi
    ensures n * lo <= Next(n, sum, temperature) <= n * hi
    ensures n * lo - lo <= sum - CDiv(sum, n) <= n * hi - hi
  {
    CDivMonotone(n * lo, sum, n);
    CDivMonotone(sum, n * hi, n);
    CDivMultiple(lo, n);
    CDivMultiple(hi, n);
  }

  lemma FirstBounded(n: int, temperature: int, lo: int, hi: int)
    requires n > 0 && lo <= temperature <= hi
    ensures n * lo <= temperature * n <= n * hi && temperature * n == n * temperature
  {
    MulMonotone(lo, temperature, n);
    MulMonotone(temperature, hi, n);
  }

  /** The value between the two updates of the sum is a 32-bit one as well. */
  lemma DifferenceFits(n: int, sum: int, temperature: int, lo: int, hi: int)
    requires n > 0 && n * lo <= sum <= n * hi && lo <= temperature <= hi
    requires Int32(n * lo) && Int32(n * hi)
    ensures Int32(sum - CDiv(sum, n))
  {
    hide CDiv;
    NextBounded(n, sum, temperature, lo, hi);
    if lo > 0 {
      MulMonotone(1, n, lo);
    }
    if hi < 0 {
      MulMonotone(1, n, -hi);
    }
  }

  lemma OutputBounded(n: int, sum: int, lo: int, hi: int)
    requires n > 0 && n * lo <= sum <= n * hi
    ensures lo <= CDiv(sum, n) <= hi
  {
    CDivMonotone(n * lo, sum, n);
    CDivMonotone(sum, n * hi, n);
    CDivMultiple(lo, n);
    CDivMultiple(hi, n);
  }

  lemma NextIs(n: int, sum: int, temperature: int)
    requires n > 0
    ensures Next(n, sum, temperature) == sum - CDiv(sum, n) + temperature
  {
  }

  lemma SumAfterPush(n: int, samples: seq<int>, temperature: int)
    requires n > 0
    ensures SumAfter(n, samples + [temperature])
         == if samples == [] then temperature * n else Next(n, SumAfter(n, samples), temperature)
  {
    assert (samples + [temperature])[..|samples|] == samples;
  }

  /** Over every run of samples in [lo, hi] the sum stays in [n*lo, n*hi] and the output in [lo, hi]. */
  lemma {:induction false} RunBounded(n: int, samples: seq<int>, lo: int, hi: int)
    requires n > 0 && AllWithin(samples, lo, hi)
    ensures samples != [] ==>
              && n * lo <= SumAfter(n, samples) <= n * hi
              && lo <= CDiv(SumAfter(n, samples), n) <= hi
    decreases |samples|
  {
    hide CDiv, Next;
    if samples != [] {
      var last := |samples| - 1;
      assert lo <= samples[last] <= hi;
      if last == 0 {
        FirstBounded(n, samples[0], lo, hi);
      } else {
        RunBounded(n, samples[..last], lo, hi);
        NextBounded(n, SumAfter(n, samples[..last]), samples[last], lo, hi);
      }
      OutputBounded(n, SumAfter(n, samples), lo, hi);
    }
  }

  // ----- convergence on a constant input

  function Distance(a: int, b: int): nat { if a <= b then b - a else a - b }

  /** One step towards a constant input: the output never moves away or past it, and stays once there. */
  lemma StepApproaches(n: int, sum: int, temperature: int)
    requires n > 0
    ensures var next := Next(n, sum, temperature);
            var out, out' := CDiv(sum, n), CDiv(next, n);
            && (out < temperature ==> sum < next && out <= out' <= temperature)
            && (out > temperature ==> next < sum && temperature <= out' <= out)
            && (out == temperature <==> next == sum)
            && (out != temperature ==> Distance(next, n * temperature) < Distance(sum, n * temperature))
  {
    var next, goal, out := Next(n, sum, temperature), n * temperature, CDiv(sum, n);
    CDivMultiple(temperature, n);
    if out < temperature {
      if sum > goal {
        CDivMonotone(goal, sum, n);
      }
      CDivMonotone(sum, goal, n);
      CDivMonotone(sum, next, n);
      CDivMonotone(next, goal, n);
    } else if out > temperature {
      if sum < goal {
        CDivMonotone(sum, goal, n);
      }
      CDivMonotone(goal, sum, n);
      CDivMonotone(next, sum, n);
      CDivMonotone(goal, next, n);
    }
  }

  /** A tail of equal samples has settled the output on their value, or brought the sum nearer by its length. */
  lemma {:induction false} Approaches(n: int, samples: seq<int>, tail: seq<int>, temperature: int)
    requires n > 0 && samples != [] && AllWithin(tail, temperature, temperature)
    ensures var goal, sum := n * temperature, SumAfter(n, samples + tail);
            CDiv(sum, n) == temperature || Distance(sum, goal) + |tail| <= Distance(SumAfter(n, samples), goal)
    decreases |tail|
  {
    hide CDiv, Next, Distance;
    if tail == [] {
      assert samples + tail == samples;
    } else {
      var before := tail[..|tail| - 1];
      assert tail == before + [temperature] && samples + tail == (samples + before) + [temperature];
      Approaches(n, samples, before, temperature);
      SumAfterPush(n, samples + before, temperature);
      StepApproaches(n, SumAfter(n, samples + before), temperature);
    }
  }

  /** A step takes off the n-th part of what is missing, within one unit of the sum. */
  lemma StepDecays(n: int, sum: int, temperature: int)
    requires n > 0
    ensures var missing, missing' := n * temperature - sum, n * temperature - Next(n, sum, temperature);
            -n < n * missing' - (n - 1) * missing < n
  {
    CDivTruncates(sum, n);
    NextIs(n, sum, temperature);
    hide CDiv, Next;
    var r, next, goal := sum - n * CDiv(sum, n), Next(n, sum, temperature), n * temperature;
    assert n * (goal - next) - (n - 1) * (goal - sum) == -r by {
      Expand(n, goal - sum, temperature - CDiv(sum, n));
      MulDistributes(temperature, CDiv(sum, n), n);
      assert goal - next == (goal - sum) - (temperature - CDiv(sum, n));
    }
  }

  lemma Expand(n: int, m: int, t: int)
    ensures n * (m - t) - (n - 1) * m == m - n * t
  {
  }

  /** ((n - 1) / n)^k. */
  function Ratio(n: int, k: nat): (q: real)
    requires n > 0
    ensures q >= 0.0
  {
    if k == 0 then 1.0 else (1.0 - 1.0 / n as real) * Ratio(n, k - 1)
  }

  function Missing(n: int, samples: seq<int>, temperature: int): real
    requires n > 0 && samples != []
  {
    Distance(SumAfter(n, samples), n * temperature) as real
  }

  lemma DecayStep(n: int, before: nat, after: nat)
    requires n > 0 && n * after < (n - 1) * before + n
    ensures after as real <= (1.0 - 1.0 / n as real) * before as real + 1.0
  {
    var x, y, m := after as real, before as real, n as real;
    assert m * x <= (m - 1.0) * y + m;
    var bound := (1.0 - 1.0 / m) * y + 1.0;
    assert m * bound == (m - 1.0) * y + m by {
      assert m * (1.0 / m) == 1.0;
      assert m * ((1.0 - 1.0 / m) * y) == (m * (1.0 - 1.0 / m)) * y;
    }
    if x > bound {
      Scaled(m, x, bound);
      assert false;
    }
  }

  lemma Scaled(m: real, x: real, y: real)
    requires m > 0.0 && x > y
    ensures m * x > m * y
  {
  }

  lemma DistanceDecays(n: int, sum: int, temperature: int)
    requires n > 0
    ensures var next, goal := Next(n, sum, temperature), n * temperature;
            n * Distance(next, goal) < (n - 1) * Distance(sum, goal) + n
  {
    StepDecays(n, sum, temperature);
    StepApproaches(n, sum, temperature);
    hide CDiv, Next;
    var next, goal := Next(n, sum, temperature), n * temperature;
    MulNegated(n, goal - next);
    MulNegated(n - 1, goal - sum);
  }

  lemma MulNegated(a: int, b: int)
    ensures a * -b == -(a * b)
  {
  }

  lemma MissingStep(n: int, samples: seq<int>, temperature: int)
    requires n > 0 && samples != []
    ensures Missing(n, samples + [temperature], temperature)
         <= (1.0 - 1.0 / n as real) * Missing(n, samples, temperature) + 1.0
  {
    hide CDiv, Next, Distance, SumAfter;
    var sum, goal := SumAfter(n, samples), n * temperature;
    SumAfterPush(n, samples, temperature);
    DistanceDecays(n, sum, temperature);
    DecayStep(n, Distance(sum, goal), Distance(Next(n, sum, temperature), goal));
  }

  /**
   * After any history, k equal samples leave of what the sum misses to n times their value no more than
   * ((n - 1) / n)^k, and n for rounding.
   */
  lemma {:induction false} Decays(n: int, samples: seq<int>, tail: seq<int>, temperature: int)
    requires n > 0 && samples != [] && AllWithin(tail, temperature, temperature)
    ensures Missing(n, samples + tail, temperature)
         <= Ratio(n, |tail|) * Missing(n, samples, temperature) + n as real
    decreases |tail|
  {
    hide Missing;
    if tail == [] {
      assert samples + tail == samples;
    } else {
      hide Ratio;
      var before := tail[..|tail| - 1];
      assert tail == before + [temperature] && samples + tail == (samples + before) + [temperature];
      Decays(n, samples, before, temperature);
      MissingStep(n, samples + before, temperature);
      DecayOn(n, |before|, Missing(n, samples, temperature), Missing(n, samples + before, temperature));
    }
  }

  lemma DecayOn(n: int, k: nat, first: real, before: real)
    requires n > 0 && before <= Ratio(n, k) * first + n as real
    ensures (1.0 - 1.0 / n as real) * before + 1.0 <= Ratio(n, k + 1) * first + n as real
  {
    Contracts(n as real, Ratio(n, k), first, before);
  }

  lemma Contracts(m: real, q: real, first: real, before: real)
    requires m >= 1.0 && before <= q * first + m
    ensures (1.0 - 1.0 / m) * before + 1.0 <= (1.0 - 1.0 / m) * q * first + m
  {
    var f := 1.0 - 1.0 / m;
    assert f * m == m - 1.0;
    assert f >= 0.0;
    RealMonotone(before, q * first + m, f);
    assert f * (q * first + m) == f * (q * first) + f * m;
    assert f * (q * first) == f * q * first;
  }

  lemma RealMonotone(x: real, y: real, f: real)
    requires x <= y && f >= 0.0
    ensures f * x <= f * y
  {
  }

  /** After any history, a tail of equal samples as long as the sum is away from n times their value
      brings the output exactly to that value; as this holds of every longer tail, it stays there. */
  lemma Settles(n: int, samples: seq<int>, tail: seq<int>, temperature: int)
    requires n > 0 && samples != [] && AllWithin(tail, temperature, temperature)
    requires |tail| >= Distance(SumAfter(n, samples), n * temperature)
    ensures CDiv(SumAfter(n, samples + tail), n) == temperature
  {
    Approaches(n, samples, tail, temperature);
    CDivMultiple(temperature, n);
  }
}
