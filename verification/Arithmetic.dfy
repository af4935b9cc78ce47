/** Multiplication and division facts used by several modules. */
module Arithmetic {
  lemma MulMonotone(a: int, b: int, t: nat)
    requires a <= b
    ensures a * t <= b * t
  {
  }

  lemma MulDistributes(a: int, b: int, t: int)
    ensures (a + b) * t == a * t + b * t && (a - b) * t == a * t - b * t
  {
  }

  lemma DivUnique(n: int, t: int, q: int, r: int)
    requires t > 0 && n == q * t + r && 0 <= r < t
    ensures n / t == q && n % t == r
  {
    var q' := n / t;
    if q' < q {
      MulMonotone(q' + 1, q, t);
      MulDistributes(q', 1, t);
    } else if q' > q {
      MulMonotone(q + 1, q', t);
      MulDistributes(q, 1, t);
    }
  }

  lemma DivMonotone(a: int, b: int, t: int)
    requires t > 0 && a <= b
    ensures a / t <= b / t
  {
    if a / t > b / t {
      MulMonotone(b / t + 1, a / t, t);
      MulDistributes(b / t, 1, t);
    }
  }
}
