/** Polynomials over GF(2), lowest degree first: p[i] is the coefficient of x^i. */
module Gf2 {
  type Poly = seq<bool>

  function Zeros(n: nat): Poly { seq(n, _ => false) }

  function Add(p: Poly, q: Poly): Poly
    requires |p| == |q|
  {
    seq(|p|, i requires 0 <= i < |p| => p[i] != q[i])
  }

  /** p with coefficients up to (not including) degree n. */
  function Pad(p: Poly, n: nat): Poly
    requires |p| <= n
  {
    p + Zeros(n - |p|)
  }

  lemma AddEmpty()
    ensures Add([], []) == []
  {
  }

  lemma AddAppend(p: Poly, q: Poly, r: Poly, s: Poly)
    requires |p| == |r| && |q| == |s|
    ensures Add(p + q, r + s) == Add(p, r) + Add(q, s)
  {
  }

  function Scale(c: bool, p: Poly): Poly { if c then p else Zeros(|p|) }

  /** Schoolbook product, one coefficient of q at a time. */
  function Mul(q: Poly, p: Poly): (r: Poly)
    requires p != []
    ensures |r| == |q| + |p| - 1
  {
    if q == [] then Zeros(|p| - 1)
    else Add(Pad(Scale(q[0], p), |q| + |p| - 1), [false] + Mul(q[1..], p))
  }

  ghost predicate IsZero(p: Poly) { forall i :: 0 <= i < |p| ==> !p[i] }

  /** The coefficient of q*p at degree i, one coefficient of q split off. */
  lemma MulAt(q: Poly, p: Poly, i: nat)
    requires p != [] && q != [] && i < |Mul(q, p)|
    ensures Mul(q, p)[i] == ((q[0] && i < |p| && p[i]) != (i > 0 && Mul(q[1..], p)[i - 1]))
  {
  }

  lemma {:induction false} MulDistributes(q1: Poly, q2: Poly, p: Poly)
    requires p != [] && |q1| == |q2|
    ensures Mul(Add(q1, q2), p) == Add(Mul(q1, p), Mul(q2, p))
  {
    if q1 != [] {
      var q := Add(q1, q2);
      assert q[1..] == Add(q1[1..], q2[1..]);
      MulDistributes(q1[1..], q2[1..], p);
      hide Mul;
      var left, right := Mul(q, p), Add(Mul(q1, p), Mul(q2, p));
      forall i | 0 <= i < |left| ensures left[i] == right[i] {
        MulDistributesAt(q1, q2, p, i);
      }
    }
  }

  lemma MulDistributesAt(q1: Poly, q2: Poly, p: Poly, i: nat)
    requires p != [] && |q1| == |q2| && q1 != [] && i < |Mul(q1, p)|
    requires Mul(Add(q1, q2)[1..], p) == Add(Mul(q1[1..], p), Mul(q2[1..], p))
    ensures Mul(Add(q1, q2), p)[i] == (Mul(q1, p)[i] != Mul(q2, p)[i])
  {
    hide Mul;
    MulAt(Add(q1, q2), p, i);
    MulAt(q1, p, i);
    MulAt(q2, p, i);
    assert Add(q1, q2)[0] == (q1[0] != q2[0]);
  }

  lemma {:induction false} MulOfZero(q: Poly, p: Poly)
    requires p != [] && IsZero(q)
    ensures IsZero(Mul(q, p))
  {
    if q != [] {
      MulOfZero(q[1..], p);
      forall i | 0 <= i < |Mul(q, p)| ensures !Mul(q, p)[i] {
        MulAt(q, p, i);
      }
    }
  }

  /**
   * A nonzero multiple of p, where p has degree d and a constant term, has two
   * nonzero coefficients that are at least d apart.
   */
  lemma {:induction false} MultipleIsWide(q: Poly, p: Poly) returns (lo: nat, hi: nat)
    requires p != [] && p[0] && p[|p| - 1] && !IsZero(q)
    ensures lo + |p| - 1 <= hi < |Mul(q, p)| && Mul(q, p)[lo] && Mul(q, p)[hi]
  {
    hide Mul;
    if IsZero(q[1..]) {
      MulOfZero(q[1..], p);
      lo, hi := 0, |p| - 1;
    } else {
      var lo', hi' := MultipleIsWide(q[1..], p);
      lo, hi := if q[0] then 0 else lo' + 1, hi' + 1;
    }
    MulAt(q, p, lo);
    MulAt(q, p, hi);
  }

  /** m = q*p + r, with r shorter than p. */
  ghost predicate Divides(m: Poly, p: Poly, q: Poly, r: Poly) {
    p != [] && |r| == |p| - 1 && |m| == |q| + |r| && m == Add(Mul(q, p), Pad(r, |m|))
  }

  /** Quotient and remainder are unique. */
  lemma RemainderUnique(m: Poly, p: Poly, q1: Poly, r1: Poly, q2: Poly, r2: Poly)
    requires p != [] && p[0] && p[|p| - 1]
    requires Divides(m, p, q1, r1) && Divides(m, p, q2, r2)
    ensures q1 == q2 && r1 == r2
  {
    var d := Add(q1, q2);
    MulDistributes(q1, q2, p);
    if !IsZero(d) {
      var _, hi := MultipleIsWide(d, p);
      SumAt(m, p, q1, r1, hi);
      SumAt(m, p, q2, r2, hi);
      assert false;
    }
    forall i | 0 <= i < |q1| ensures q1[i] == q2[i] {
      assert d[i] == (q1[i] != q2[i]);
    }
    assert q1 == q2;
    forall i | 0 <= i < |r1| ensures r1[i] == r2[i] {
      SumAt(m, p, q1, r1, i);
      SumAt(m, p, q2, r2, i);
    }
  }

  lemma SumAt(m: Poly, p: Poly, q: Poly, r: Poly, i: nat)
    requires Divides(m, p, q, r) && i < |m|
    ensures m[i] == (Mul(q, p)[i] != (i < |r| && r[i]))
  {
  }
}
