/**
  Binary polynomials held in Python integers, bit i being the coefficient of x^i:
  carry-less product, remainder, and their values at field elements.
 */
module BinPoly {
  import opened Bits
  import opened Gf
  import opened Poly

  /** a(x) over GF(2^8). */
  ghost function Value(a: nat, x: byte): byte {
    if a == 0 then 0 else Add(a % 2, Mul(x, Value(a / 2, x)))
  }

  lemma {:induction false} ValueXor(a: nat, b: nat, x: byte)
    ensures Value(Xor(a, b), x) == Add(Value(a, x), Value(b, x))
    decreases a + b
  {
    if a == 0 && b == 0 {
      AddZero(0);
    } else {
      ValueXor(a / 2, b / 2, x);
      XorHalf(a, b);
      ValueUnfold(a, x);
      ValueUnfold(b, x);
      ValueUnfold(Xor(a, b), x);
      var u, v := Value(a / 2, x), Value(b / 2, x);
      Distributes(x, u, v);
      AddSwap(a % 2, Mul(x, u), b % 2, Mul(x, v));
      BitSum(a % 2, b % 2);
    }
  }

  lemma {:induction false} ValueUnfold(a: nat, x: byte)
    ensures Value(a, x) == Add(a % 2, Mul(x, Value(a / 2, x)))
  {
    AddZero(0);
  }

  lemma BitSum(p: nat, q: nat)
    requires p < 2 && q < 2
    ensures Add(p, q) == if p == q then 0 else 1
  {
    AddZero(p);
    AddZero(q);
  }

  lemma {:induction false} ValueDouble(a: nat, x: byte)
    ensures Value(2 * a, x) == Mul(x, Value(a, x))
  {
    ValueUnfold(2 * a, x);
    AddZero(Mul(x, Value(a, x)));
  }

  // ---------- product ----------

  /** Carry-less product, one bit of b at a time. */
  function Product(a: nat, b: nat): nat
    decreases b
  {
    if b == 0 then 0
    else if b % 2 == 1 then Xor(a, Product(2 * a, b / 2))
    else Product(2 * a, b / 2)
  }

  method PolyMul(a0: nat, b0: nat) returns (r: nat)
    ensures r == Product(a0, b0)
  {
    var a, b := a0, b0;
    r := 0;
    XorZero(Product(a, b));
    while b != 0
      invariant Xor(r, Product(a, b)) == Product(a0, b0)
      decreases b
    {
      if b % 2 == 1 {
        XorAssoc(r, a, Product(2 * a, b / 2));
        r := Xor(r, a);
      }
      a := 2 * a;
      b := b / 2;
    }
    XorZero(r);
  }

  /** The product of polynomials is the product of their values. */
  lemma {:induction false} ValueProduct(a: nat, b: nat, x: byte)
    ensures Value(Product(a, b), x) == Mul(Value(a, x), Value(b, x))
    decreases b
  {
    if b != 0 {
      ValueProduct(2 * a, b / 2, x);
      ValueXor(a, Product(2 * a, b / 2), x);
      ValueDouble(a, x);
      var u, v := Value(a, x), Value(b / 2, x);
      MulComm(x, u);
      MulAssoc(u, x, v);
      Distributes(u, b % 2, Mul(x, v));
      MulOne(u);
      AddZero(Mul(u, Mul(x, v)));
    }
  }

  /** Degrees add. */
  lemma {:induction false} ProductDegree(a: nat, m: nat, b: nat, n: nat)
    requires Pow2(m) <= a < 2 * Pow2(m) && Pow2(n) <= b < 2 * Pow2(n)
    ensures Pow2(m + n) <= Product(a, b) < 2 * Pow2(m + n)
    decreases n
  {
    if n == 0 {
      XorZero(a);
      assert Product(2 * a, 0) == 0;
    } else {
      ProductDegree(2 * a, m + 1, b / 2, n - 1);
      var p := Product(2 * a, b / 2);
      if b % 2 == 1 {
        Pow2Increases(m, m + n);
        XorKeepsTop(p, a, m + n);
        XorComm(p, a);
      }
    }
  }

  lemma {:induction false} XorKeepsTop(p: nat, a: nat, n: nat)
    requires Pow2(n) <= p < 2 * Pow2(n) && a < Pow2(n)
    ensures Pow2(n) <= Xor(p, a) < 2 * Pow2(n)
  {
    XorBound(p, a, n + 1);
    BitXor(p, a, n);
    BitTop(p, n);
    BitTop(a, n);
    BitTop(Xor(p, a), n);
  }

  lemma {:induction false} ProductXor(a: nat, b: nat, c: nat)
    ensures Product(a, Xor(b, c)) == Xor(Product(a, b), Product(a, c))
    decreases b + c
  {
    if b == 0 || c == 0 {
      XorZero(b);
      XorZero(c);
      XorZero(Product(a, b));
      XorZero(Product(a, c));
    } else {
      ProductXor(2 * a, b / 2, c / 2);
      XorHalf(b, c);
      var u, v := Product(2 * a, b / 2), Product(2 * a, c / 2);
      XorReduce(u, v, a);
      XorComm(a, u);
      XorComm(a, v);
      XorAssoc(u, v, a);
      XorComm(a, Xor(u, v));
      ProductUnfold(a, b);
      ProductUnfold(a, c);
      ProductUnfold(a, Xor(b, c));
    }
  }

  lemma {:induction false} ProductUnfold(a: nat, b: nat)
    ensures Product(a, b) == if b % 2 == 1 then Xor(a, Product(2 * a, b / 2)) else Product(2 * a, b / 2)
  {
  }

  lemma {:induction false} ProductPow2(a: nat, k: nat)
    ensures Product(a, Pow2(k)) == Shl(a, k)
    decreases k
  {
    if k == 0 {
      XorZero(a);
    } else {
      ProductPow2(2 * a, k - 1);
      assert Pow2(k) / 2 == Pow2(k - 1) && Pow2(k) % 2 == 0;
      ShlTwice(a, k - 1);
    }
  }

  lemma {:induction false} ShlTwice(a: nat, k: nat)
    ensures Shl(2 * a, k) == 2 * Shl(a, k)
  {
    if k > 0 {
      ShlTwice(a, k - 1);
    }
  }

  // ---------- remainder ----------

  /** Aligned leading bits cancel. */
  lemma TopsCancel(a: nat, m: nat, da: nat, dm: nat, k: nat)
    requires Pow2(da) <= a < Pow2(da + 1) && Pow2(dm) <= m < Pow2(dm + 1) && dm + k == da
    ensures Xor(a, Shl(m, k)) < Pow2(da)
  {
    ShlBounds(m, dm, k);
    ShlBounds(m, dm + 1, k);
    XorTopCancels(a, Shl(m, k), da);
  }

  /** One turn of the division loop lowers the number: the leading bits cancel. */
  lemma {:induction false} DivisionStep(a: nat, m: nat)
    requires 0 < m && BitLength(m) <= BitLength(a)
    ensures Xor(a, Shl(m, BitLength(a) - BitLength(m))) < Pow2(BitLength(a) - 1) <= a
  {
    var la, lm := BitLength(a), BitLength(m);
    BitLengthBounds(m);
    BitLengthBounds(a);
    TopsCancel(a, m, la - 1, lm - 1, la - lm);
  }

  /** Remainder of a divided by m. */
  function Mod(a: nat, m: nat): nat
    requires m > 0
    decreases a
  {
    if BitLength(a) < BitLength(m) then a
    else
      DivisionStep(a, m);
      Mod(Xor(a, Shl(m, BitLength(a) - BitLength(m))), m)
  }

  ghost function Quotient(a: nat, m: nat): nat
    requires m > 0
    decreases a
  {
    if BitLength(a) < BitLength(m) then 0
    else
      DivisionStep(a, m);
      var k := BitLength(a) - BitLength(m);
      Xor(Pow2(k), Quotient(Xor(a, Shl(m, k)), m))
  }

  method PolyMod(a0: nat, m: nat) returns (a: nat)
    requires m > 0
    ensures a == Mod(a0, m)
  {
    a := a0;
    var dm := BitLength(m) - 1;
    while BitLength(a) - 1 >= dm
      invariant Mod(a, m) == Mod(a0, m)
      decreases a
    {
      DivisionStep(a, m);
      a := Xor(a, Shl(m, BitLength(a) - 1 - dm));
    }
  }

  /** a = m * q + r with r of lower degree than m. */
  lemma {:induction false} DivisionLaw(a: nat, m: nat)
    requires m > 0
    ensures BitLength(Mod(a, m)) < BitLength(m)
    ensures a == Xor(Product(m, Quotient(a, m)), Mod(a, m))
    decreases a
  {
    if BitLength(a) < BitLength(m) {
      XorZero(a);
    } else {
      DivisionStep(a, m);
      var k := BitLength(a) - BitLength(m);
      var s := Shl(m, k);
      var b := Xor(a, s);
      DivisionLaw(b, m);
      var q, r := Quotient(b, m), Mod(b, m);
      ProductXor(m, Pow2(k), q);
      ProductPow2(m, k);
      XorAssoc(s, Product(m, q), r);
      XorComm(s, Xor(a, s));
      XorAssoc(a, s, s);
      XorSelf(s);
      XorZero(a);
    }
  }

  /** The remainder keeps the value at every root of the divisor. */
  lemma {:induction false} ModValue(a: nat, m: nat, x: byte)
    requires m > 0 && Value(m, x) == 0
    ensures Value(Mod(a, m), x) == Value(a, x)
  {
    DivisionLaw(a, m);
    ValueXor(Product(m, Quotient(a, m)), Mod(a, m), x);
    ValueProduct(m, Quotient(a, m), x);
    AddZero(Value(Mod(a, m), x));
  }

  // ---------- the field is the bytes modulo the primitive polynomial ----------

  /** x is alpha: multiplying by it is one turn of the table loop. */
  ghost predicate IsAlpha(x: byte) {
    forall v: byte :: Mul(x, v) == Double(v)
  }

  lemma AlphaIsTwo(x: byte)
    requires x == 2
    ensures IsAlpha(x)
  {
    IterNext(0, 1);
    LogOfExp(1);
    forall v: byte
      ensures Mul(x, v) == Double(v)
    {
      MulIter(x, v);
      IterNext(0, v);
    }
  }

  /** A byte, as a polynomial, has itself as its value at alpha. */
  lemma {:induction false} ValueAtAlpha(a: byte, x: byte)
    requires IsAlpha(x)
    ensures Value(a, x) == a
  {
    if a != 0 {
      ValueAtAlpha(a / 2, x);
      assert Mul(x, a / 2) == Double(a / 2);
      XorStep(0, a % 2, a / 2, 0);
      XorZero(a / 2);
    }
  }

  /** Doubling the upper bits of the primitive polynomial gives 1. */
  lemma UpperDoubles(h: byte)
    requires 2 * h + 1 == PRIM_POLY
    ensures Double(h) == 1
  {
    ReduceBits(h);
  }

  lemma VanishesAtAlpha(h: byte, x: byte)
    requires IsAlpha(x) && Double(h) == 1
    ensures Value(2 * h + 1, x) == 0
  {
    ValueAtAlpha(h, x);
    ValueUnfold(2 * h + 1, x);
    assert Mul(x, h) == 1;
    AddZero(1);
  }

  /** The remainder by a polynomial of degree 8 that vanishes at alpha is the value at alpha. */
  lemma RemainderIsValue(v: nat, m: nat, x: byte)
    requires IsAlpha(x) && Value(m, x) == 0 && BitLength(m) == 9
    ensures Mod(v, m) == Value(v, x)
  {
    ModValue(v, m, x);
    DivisionLaw(v, m);
    BitLengthBelow(Mod(v, m), 8);
    assert Pow2(8) == 256;
    ValueAtAlpha(Mod(v, m), x);
  }

  lemma ProductAtAlpha(a: byte, b: byte, m: nat, x: byte)
    requires IsAlpha(x) && Value(m, x) == 0 && BitLength(m) == 9
    ensures Mul(a, b) == Mod(Product(a, b), m)
  {
    RemainderIsValue(Product(a, b), m, x);
    ValueProduct(a, b, x);
    ValueAtAlpha(a, x);
    ValueAtAlpha(b, x);
  }

  /** Multiplication through logarithms is multiplication of polynomials modulo
      x^8 + x^4 + x^3 + x^2 + 1. */
  lemma MulIsProduct(a: byte, b: byte)
    ensures Mul(a, b) == Mod(Product(a, b), PRIM_POLY)
  {
    AlphaIsTwo(2);
    UpperDoubles(142);
    VanishesAtAlpha(142, 2);
    assert Pow2(8) == 256;
    BitLengthIs(PRIM_POLY, 8);
    ProductAtAlpha(a, b, PRIM_POLY, 2);
  }

  // ---------- integers and coefficient lists ----------

  /** sum(c << d), for a list of binary coefficients. */
  function FromCoeffs(p: Poly): nat {
    if p == [] then 0 else p[0] + 2 * FromCoeffs(p[1..])
  }

  ghost predicate Binary(p: Poly) {
    forall i | 0 <= i < |p| :: p[i] < 2
  }

  lemma {:induction false} ValueOfCoeffs(p: Poly, x: byte)
    requires Binary(p)
    ensures Value(FromCoeffs(p), x) == Eval(p, x)
  {
    if p != [] {
      ValueOfCoeffs(p[1..], x);
      assert p[0] < 2;
      ValueUnfold(FromCoeffs(p), x);
    }
  }

  lemma {:induction false} MonicDegree(p: Poly)
    requires Binary(p) && p != [] && p[|p| - 1] == 1
    ensures Pow2(|p| - 1) <= FromCoeffs(p) < 2 * Pow2(|p| - 1)
  {
    assert p[0] < 2;
    if |p| > 1 {
      MonicDegree(p[1..]);
    } else {
      assert FromCoeffs(p[1..]) == 0;
    }
  }

  /** The n low bits of a as coefficients. */
  ghost function Coeffs(a: nat, n: nat): (p: Poly)
    ensures |p| == n && Binary(p)
  {
    if n == 0 then [] else [a % 2] + Coeffs(a / 2, n - 1)
  }

  lemma {:induction false} CoeffsRoundTrip(a: nat, n: nat)
    requires a < Pow2(n)
    ensures FromCoeffs(Coeffs(a, n)) == a
    decreases n
  {
    if n > 0 {
      CoeffsRoundTrip(a / 2, n - 1);
    }
  }

  lemma {:induction false} ZeroCoeffs(p: Poly)
    requires IsZero(p)
    ensures FromCoeffs(p) == 0
  {
    if p != [] {
      ZeroCoeffs(p[1..]);
    }
  }

  /** A number below 2^n that vanishes at n different points is 0. */
  lemma FewRoots(a: nat, roots: seq<byte>)
    requires a < Pow2(|roots|) && Distinct(roots)
    requires forall i | 0 <= i < |roots| :: Value(a, roots[i]) == 0
    ensures a == 0
  {
    var p := Coeffs(a, |roots|);
    CoeffsRoundTrip(a, |roots|);
    forall i | 0 <= i < |roots|
      ensures Eval(p, roots[i]) == 0
    {
      ValueOfCoeffs(p, roots[i]);
    }
    TooManyRoots(p, roots);
    ZeroCoeffs(p);
  }
}
