/**
  Polynomials over GF(2^8) as coefficient lists, constant term first, and their
  roots. A list of length n that vanishes at n different points is zero; this is
  the bound behind the Chien search and behind "sigma is the only locator".
 */
module Poly {
  import opened Bits
  import opened Gf

  type Poly = seq<byte>

  /** Coefficient k, zero outside the list. */
  function At(s: seq<byte>, k: int): byte {
    if 0 <= k < |s| then s[k] else 0
  }

  ghost predicate IsZero(p: Poly) {
    forall i | 0 <= i < |p| :: p[i] == 0
  }

  ghost function Eval(p: Poly, x: byte): byte {
    if p == [] then 0 else Add(p[0], Mul(x, Eval(p[1..], x)))
  }

  function Sum(p: Poly, q: Poly): (r: Poly)
    ensures |r| == if |p| >= |q| then |p| else |q|
    ensures forall i {:trigger At(r, i)} :: At(r, i) == Add(At(p, i), At(q, i))
    decreases p
  {
    AddZero(0);
    if p == [] then
      assert forall i :: Add(0, At(q, i)) == At(q, i) by {
        forall i ensures Add(0, At(q, i)) == At(q, i) { AddZero(At(q, i)); }
      }
      q
    else if q == [] then
      assert forall i :: Add(At(p, i), 0) == At(p, i) by {
        forall i ensures Add(At(p, i), 0) == At(p, i) { AddZero(At(p, i)); }
      }
      p
    else
      var t := Sum(p[1..], q[1..]);
      var r := [Add(p[0], q[0])] + t;
      assert forall i {:trigger At(r, i)} :: i > 0 ==> At(r, i) == At(t, i - 1);
      assert forall i {:trigger At(p, i)} :: i > 0 ==> At(p, i) == At(p[1..], i - 1);
      assert forall i {:trigger At(q, i)} :: i > 0 ==> At(q, i) == At(q[1..], i - 1);
      r
  }

  /** x^k * p */
  function Shift(k: nat, p: Poly): (r: Poly)
    ensures |r| == k + |p|
    ensures forall i {:trigger r[i]} | 0 <= i < |r| :: r[i] == if i < k then 0 else p[i - k]
  {
    if k == 0 then p else [0] + Shift(k - 1, p)
  }

  ghost function Scale(c: byte, p: Poly): (r: Poly)
    ensures |r| == |p|
    ensures forall i | 0 <= i < |r| :: r[i] == Mul(c, p[i])
  {
    if p == [] then [] else [Mul(c, p[0])] + Scale(c, p[1..])
  }

  lemma {:induction false} EvalSum(p: Poly, q: Poly, x: byte)
    ensures Eval(Sum(p, q), x) == Add(Eval(p, x), Eval(q, x))
    decreases p
  {
    if p == [] {
      AddZero(Eval(q, x));
    } else if q == [] {
      AddZero(Eval(p, x));
    } else {
      EvalSum(p[1..], q[1..], x);
      var u, v := Eval(p[1..], x), Eval(q[1..], x);
      Distributes(x, u, v);
      AddSwap(p[0], q[0], Mul(x, u), Mul(x, v));
    }
  }

  lemma {:induction false} EvalScale(c: byte, p: Poly, x: byte)
    ensures Eval(Scale(c, p), x) == Mul(c, Eval(p, x))
  {
    if p != [] {
      EvalScale(c, p[1..], x);
      var u := Eval(p[1..], x);
      Distributes(c, p[0], Mul(x, u));
      MulAssoc(x, c, u);
      MulAssoc(c, x, u);
      MulComm(x, c);
    }
  }

  /** Synthetic division: p(x) - p(r) = (x - r) * Quotient(p, r)(x). */
  ghost function Quotient(p: Poly, r: byte): (q: Poly)
    ensures |q| == if p == [] then 0 else |p| - 1
  {
    if |p| <= 1 then [] else [Eval(p[1..], r)] + Quotient(p[1..], r)
  }

  lemma {:induction false} QuotientEval(p: Poly, r: byte, x: byte)
    ensures Eval(p, x) == Add(Eval(p, r), Mul(Add(x, r), Eval(Quotient(p, r), x)))
  {
    if p == [] {
      AddZero(0);
    } else if |p| == 1 {
      AddZero(p[0]);
    } else {
      var t, q := p[1..], Eval(Quotient(p[1..], r), x);
      QuotientEval(t, r, x);
      var e, d := Eval(t, r), Add(x, r);
      // x * (e + d q) = r e + d (e + x q)
      Distributes(x, e, Mul(d, q));
      Distributes(d, e, Mul(x, q));
      DistributesRight(e, x, r);
      MulAssoc(x, d, q);
      MulAssoc(d, x, q);
      MulComm(x, d);
      var xe, re, dq := Mul(x, e), Mul(r, e), Mul(x, Mul(d, q));
      assert Mul(d, Add(e, Mul(x, q))) == Add(Add(xe, re), dq);
      AddComm(xe, re);
      AddAssoc(re, Add(re, xe), dq);
      AddCancel(xe, re);
      AddAssoc(p[0], re, Add(Add(re, xe), dq));
    }
  }

  lemma {:induction false} QuotientZero(p: Poly, r: byte)
    requires Eval(p, r) == 0 && IsZero(Quotient(p, r))
    ensures IsZero(p)
  {
    if |p| == 1 {
      AddZero(p[0]);
    } else if |p| > 1 {
      var q := Quotient(p, r);
      assert q[0] == 0;
      assert forall i | 0 <= i < |p| - 2 :: Quotient(p[1..], r)[i] == q[i + 1];
      QuotientZero(p[1..], r);
      AddZero(p[0]);
    }
  }

  ghost predicate Distinct<T>(xs: seq<T>) {
    forall i, j | 0 <= i < j < |xs| :: xs[i] != xs[j]
  }

  /** Root bound: as many different roots as coefficients force the zero polynomial. */
  lemma {:induction false} TooManyRoots(p: Poly, roots: seq<byte>)
    requires |roots| >= |p| && Distinct(roots)
    requires forall i | 0 <= i < |roots| :: Eval(p, roots[i]) == 0
    ensures IsZero(p)
    decreases |p|
  {
    if p != [] {
      var r := roots[0];
      var q := Quotient(p, r);
      forall i | 1 <= i < |roots|
        ensures Eval(q, roots[i]) == 0
      {
        QuotientEval(p, r, roots[i]);
        AddEqualsZero(roots[i], r);
        MulNonzero(Add(roots[i], r), Eval(q, roots[i]));
        AddZero(Mul(Add(roots[i], r), Eval(q, roots[i])));
      }
      TooManyRoots(q, roots[1..]);
      QuotientZero(p, r);
    }
  }
}
