/** Long division over GF(2), one message bit at a time: what a CRC register does, whatever its width. */
module Gf2Division {
  import opened Gf2

  /** The message polynomial: the last bit is the coefficient of x^0. */
  function PolyOf(bits: seq<bool>): Poly {
    seq(|bits|, i requires 0 <= i < |bits| => bits[|bits| - 1 - i])
  }

  /** A generator: leading and constant coefficient are 1. */
  predicate IsGenerator(p: Poly) { |p| >= 2 && p[0] && p[|p| - 1] }

  /** One step on a remainder below the generator: multiply by x, add the bit at the top, reduce. */
  function DivisionStep(c: Poly, b: bool, p: Poly): (c': Poly)
    requires IsGenerator(p) && |c| == |p| - 1
    ensures |c'| == |c|
  {
    var n := |c| - 1;
    Add([false] + c[..n], Scale(c[n] != b, p[..n + 1]))
  }

  function Divide(c: Poly, bits: seq<bool>, p: Poly): (c': Poly)
    requires IsGenerator(p) && |c| == |p| - 1
    ensures |c'| == |c|
    decreases bits
  {
    if bits == [] then c else Divide(DivisionStep(c, bits[0], p), bits[1..], p)
  }

  lemma {:induction false} DivideAppend(c: Poly, s: seq<bool>, b: bool, p: Poly)
    requires IsGenerator(p) && |c| == |p| - 1
    ensures Divide(c, s + [b], p) == DivisionStep(Divide(c, s, p), b, p)
    decreases s
  {
    hide DivisionStep;
    if s == [] {
      assert (s + [b])[1..] == [];
    } else {
      DivideAppend(DivisionStep(c, s[0], p), s[1..], b, p);
      assert (s + [b])[1..] == s[1..] + [b];
    }
  }

  function Quotient(bits: seq<bool>, p: Poly): (q: Poly)
    requires IsGenerator(p)
    ensures |q| == |bits|
  {
    if bits == [] then []
    else
      var n := |bits| - 1;
      [Divide(Zeros(|p| - 1), bits[..n], p)[|p| - 2] != bits[n]] + Quotient(bits[..n], p)
  }

  /** M(x) * x^d = Q(x) * P(x) + the result, for a generator P of degree d. */
  lemma {:induction false} DivideIsRemainder(bits: seq<bool>, p: Poly)
    requires IsGenerator(p)
    ensures var d := |p| - 1;
            Divides(Zeros(d) + PolyOf(bits), p, Quotient(bits, p), Divide(Zeros(d), bits, p))
  {
    hide DivisionStep, Divides, PolyOf;
    var d := |p| - 1;
    if bits == [] {
      NoMessage(p);
    } else {
      var n := |bits| - 1;
      var m, b := bits[..n], bits[n];
      DivideIsRemainder(m, p);
      DivideAppend(Zeros(d), m, b, p);
      assert m + [b] == bits;
      DivisionStepIs(PolyOf(m), Quotient(m, p), Divide(Zeros(d), m, p), b, p);
      PolyOfAppend(m, b, d);
    }
  }

  lemma NoMessage(p: Poly)
    requires IsGenerator(p)
    ensures Divides(Zeros(|p| - 1) + PolyOf([]), p, [], Zeros(|p| - 1))
  {
  }

  lemma PolyOfAppend(m: seq<bool>, b: bool, d: nat)
    ensures PolyOf(m + [b]) == [b] + PolyOf(m)
    ensures Zeros(d) + ([b] + PolyOf(m)) == Zeros(d) + [b] + PolyOf(m)
  {
  }

  /** One more message bit. */
  lemma DivisionStepIs(m: Poly, q: Poly, r: Poly, b: bool, p: Poly)
    requires IsGenerator(p) && |r| == |p| - 1 && Divides(Zeros(|r|) + m, p, q, r)
    ensures Divides(Zeros(|r|) + [b] + m, p, [r[|r| - 1] != b] + q, DivisionStep(r, b, p))
  {
    hide Mul, DivisionStep;
    var lhs', q', r' := Zeros(|r|) + [b] + m, [r[|r| - 1] != b] + q, DivisionStep(r, b, p);
    var rhs' := Add(Mul(q', p), Pad(r', |lhs'|));
    forall i | 0 <= i < |lhs'| ensures lhs'[i] == rhs'[i] {
      DivisionStepAt(m, q, r, b, p, i);
    }
  }

  lemma DivisionStepAt(m: Poly, q: Poly, r: Poly, b: bool, p: Poly, i: nat)
    requires IsGenerator(p) && |r| == |p| - 1 && Divides(Zeros(|r|) + m, p, q, r) && i < |r| + 1 + |m|
    ensures (Zeros(|r|) + [b] + m)[i]
         == (Mul([r[|r| - 1] != b] + q, p)[i] != (i < |r| && DivisionStep(r, b, p)[i]))
  {
    hide Mul;
    var lhs, q' := Zeros(|r|) + m, [r[|r| - 1] != b] + q;
    assert q'[1..] == q;
    MulAt(q', p, i);
    if i > 0 {
      SumAt(lhs, p, q, r, i - 1);
    }
  }

  /** A nonzero message that leaves no remainder has two set bits at least the generator's degree apart. */
  lemma NoRemainderIsWide(bits: seq<bool>, k: nat, p: Poly) returns (i: nat, j: nat)
    requires IsGenerator(p) && k < |bits| && bits[k] && Divide(Zeros(|p| - 1), bits, p) == Zeros(|p| - 1)
    ensures i + |p| - 1 <= j < |bits| && bits[i] && bits[j]
  {
    hide Divide, Quotient, Mul;
    var d := |p| - 1;
    var m, q := Zeros(d) + PolyOf(bits), Quotient(bits, p);
    var top := d + |bits| - 1;
    DivideIsRemainder(bits, p);
    assert m[top - k];
    SumAt(m, p, q, Zeros(d), top - k);
    if IsZero(q) {
      MulOfZero(q, p);
    }
    var lo, hi := MultipleIsWide(q, p);
    SumAt(m, p, q, Zeros(d), lo);
    SumAt(m, p, q, Zeros(d), hi);
    i, j := top - hi, top - lo;
  }

  /** Some bit is set, and every set bit lies in a window of the given width that starts at bit s. */
  ghost predicate IsBurstWithin(bits: seq<bool>, s: nat, width: nat) {
    && (exists i :: 0 <= i < |bits| && bits[i])
    && forall i :: 0 <= i < |bits| && bits[i] ==> s <= i < s + width
  }

  /** So no burst as wide as the degree leaves no remainder. */
  lemma BurstLeavesRemainder(bits: seq<bool>, s: nat, p: Poly)
    requires IsGenerator(p) && IsBurstWithin(bits, s, |p| - 1)
    ensures Divide(Zeros(|p| - 1), bits, p) != Zeros(|p| - 1)
  {
    hide Divide;
    if Divide(Zeros(|p| - 1), bits, p) == Zeros(|p| - 1) {
      var k :| 0 <= k < |bits| && bits[k];
      var i, j := NoRemainderIsWide(bits, k, p);
      assert false;
    }
  }
}
