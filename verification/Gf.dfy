/**
  GF(2^8) as the decoder uses it: bytes under exclusive or, multiplication
  through logarithms to the base alpha = x, reduced by
  x^8 + x^4 + x^3 + x^2 + 1. Every field law is derived from the order of alpha
  and from the linearity of "multiply by alpha".
 */
module Gf {
  import opened Bits

  const PRIM_POLY: nat := 0x11D

  function Add(a: byte, b: byte): byte {
    XorBound(a, b, 8);
    Xor(a, b)
  }

  // ---------- addition: an abelian group of exponent two ----------

  lemma AddComm(a: byte, b: byte)
    ensures Add(a, b) == Add(b, a)
  {
    XorComm(a, b);
  }

  lemma AddAssoc(a: byte, b: byte, c: byte)
    ensures Add(a, Add(b, c)) == Add(Add(a, b), c)
  {
    XorAssoc(a, b, c);
  }

  lemma AddZero(a: byte)
    ensures Add(a, 0) == a && Add(0, a) == a && Add(a, a) == 0
  {
    XorZero(a);
    XorSelf(a);
  }

  lemma AddCancel(a: byte, b: byte)
    ensures Add(Add(a, b), b) == a && Add(b, Add(b, a)) == a
  {
    AddAssoc(a, b, b);
    AddAssoc(b, b, a);
    AddZero(a);
    AddZero(b);
  }

  /** The middle terms of a sum of four change places. */
  lemma AddSwap(a: byte, b: byte, c: byte, d: byte)
    ensures Add(Add(a, b), Add(c, d)) == Add(Add(a, c), Add(b, d))
  {
    AddAssoc(a, b, Add(c, d));
    AddAssoc(b, c, d);
    AddComm(b, c);
    AddAssoc(c, b, d);
    AddAssoc(a, c, Add(b, d));
  }

  lemma AddEqualsZero(a: byte, b: byte)
    ensures Add(a, b) == 0 <==> a == b
  {
    AddZero(a);
    AddCancel(a, b);
    AddZero(b);
  }

  // ---------- multiplication by alpha ----------

  /** One turn of the table loop: shift left, reduce x^8. */
  function Double(v: byte): byte {
    if 2 * v >= 256 then
      assert Pow2(8) == 256;
      XorTopCancels(2 * v, PRIM_POLY, 8);
      Xor(2 * v, PRIM_POLY)
    else 2 * v
  }

  /** alpha^i * v */
  function Iter(i: nat, v: byte): byte
    decreases i
  {
    if i == 0 then v else Iter(i - 1, Double(v))
  }

  /** alpha^i */
  function Exp(i: nat): byte {
    Iter(i, 1)
  }

  lemma DoubleLinear(a: byte, b: byte)
    ensures Double(Add(a, b)) == Add(Double(a), Double(b))
  {
    TopBit(a, b, 7);
    assert Pow2(7) == 128;
    XorTwice(a, b);
    XorReduce(2 * a, 2 * b, PRIM_POLY);
  }

  lemma {:induction false} TopBit(a: nat, b: nat, n: nat)
    requires a < 2 * Pow2(n) && b < 2 * Pow2(n)
    ensures Xor(a, b) >= Pow2(n) <==> (a >= Pow2(n)) != (b >= Pow2(n))
  {
    XorBound(a, b, n + 1);
    BitXor(a, b, n);
    BitTop(a, n);
    BitTop(b, n);
    BitTop(Xor(a, b), n);
  }

  lemma {:induction false} XorTwice(a: nat, b: nat)
    ensures Xor(2 * a, 2 * b) == 2 * Xor(a, b)
  {
    XorStep(a, 0, b, 0);
  }

  lemma DoubleZero(c: byte)
    requires Double(c) == 0
    ensures c == 0
  {
    if 2 * c >= 256 {
      XorHalf(2 * c, PRIM_POLY);
    }
  }

  lemma DoubleInjective(a: byte, b: byte)
    requires Double(a) == Double(b)
    ensures a == b
  {
    DoubleLinear(a, b);
    AddZero(Double(a));
    DoubleZero(Add(a, b));
    AddEqualsZero(a, b);
  }

  lemma {:induction false} IterAdd(i: nat, j: nat, v: byte)
    ensures Iter(i + j, v) == Iter(i, Iter(j, v))
    decreases j
  {
    if j > 0 {
      IterAdd(i, j - 1, Double(v));
    }
  }

  lemma IterNext(i: nat, v: byte)
    ensures Iter(i + 1, v) == Double(Iter(i, v))
  {
    IterAdd(1, i, v);
  }

  lemma {:induction false} IterLinear(i: nat, a: byte, b: byte)
    ensures Iter(i, Add(a, b)) == Add(Iter(i, a), Iter(i, b))
    decreases i
  {
    if i > 0 {
      DoubleLinear(a, b);
      IterLinear(i - 1, Double(a), Double(b));
    }
  }

  lemma {:induction false} IterInjective(i: nat, a: byte, b: byte)
    requires Iter(i, a) == Iter(i, b)
    ensures a == b
    decreases i
  {
    if i > 0 {
      IterInjective(i - 1, Double(a), Double(b));
      DoubleInjective(a, b);
    }
  }

  lemma {:induction false} IterZero(i: nat)
    ensures Iter(i, 0) == 0
  {
    if i > 0 {
      IterZero(i - 1);
    }
  }

  lemma ExpNonzero(i: nat)
    ensures Exp(i) != 0
  {
    if Exp(i) == 0 {
      IterZero(i);
      IterInjective(i, 1, 0);
    }
  }

  // ---------- the order of alpha ----------

  /** Multiplication by alpha as plain arithmetic. */
  function Shifted(v: nat): int {
    if v < 128 then 2 * v else 2 * v - 227 - 4 * (v % 16) + 4 * (v % 2)
  }

  lemma {:induction false} ReduceBits(v: nat)
    requires 128 <= v < 256
    ensures Xor(2 * v, PRIM_POLY) == Shifted(v)
  {
    var h, x, y, z, b := Decompose(v);
    ReduceParts(h, x, y, z, b);
  }

  lemma Decompose(v: nat) returns (h: nat, x: nat, y: nat, z: nat, b: nat)
    requires 128 <= v < 256
    ensures h < 8 && x < 2 && y < 2 && z < 2 && b < 2
    ensures v == 128 + 16 * h + 8 * x + 4 * y + 2 * z + b
    ensures v % 16 == 8 * x + 4 * y + 2 * z + b && v % 2 == b
  {
    h := v / 16 - 8;
    var r := v % 16;
    x, y, z, b := r / 8, r / 4 % 2, r / 2 % 2, r % 2;
  }

  lemma ReduceParts(h: nat, x: nat, y: nat, z: nat, b: nat)
    requires h < 8 && x < 2 && y < 2 && z < 2 && b < 2
    ensures Xor(2 * (128 + 16 * h + 8 * x + 4 * y + 2 * z + b), 285) == 32 * h + 29 - 4 * (4 * x + 2 * y + z) + 2 * b
  {
    var p := 8 * (8 + h) + 4 * x + 2 * y + z;
    XorStep(2 * p + b, 0, 142, 1);
    XorStep(p, b, 71, 0);
    XorSeven(8 + h, x, y, z, 8);
    XorTop(h, 3);
    assert Pow2(3) == 8;
  }

  lemma XorSeven(a: nat, x: nat, y: nat, z: nat, b: nat)
    requires x < 2 && y < 2 && z < 2
    ensures Xor(8 * a + 4 * x + 2 * y + z, 8 * b + 7) == 8 * Xor(a, b) + 7 - (4 * x + 2 * y + z)
  {
    var a1, b1 := 2 * a + x, 2 * b + 1;
    XorStep(a, x, b, 1);
    XorFour(a1, y, z, b1);
  }

  lemma XorFour(a: nat, y: nat, z: nat, b: nat)
    requires y < 2 && z < 2
    ensures Xor(4 * a + 2 * y + z, 4 * b + 3) == 4 * Xor(a, b) + 3 - (2 * y + z)
  {
    XorStep(a, y, b, 1);
    XorStep(2 * a + y, z, 2 * b + 1, 1);
  }

  lemma {:induction false} XorTop(k: nat, n: nat)
    requires k < Pow2(n)
    ensures Xor(Pow2(n) + k, Pow2(n)) == k
  {
    FlipOne(Pow2(n) + k, n);
    BitTop(Pow2(n) + k, n);
  }

  lemma Hop(i: nat, a: byte, b: byte, c: byte, d: byte, e: byte, f: byte)
    requires Exp(i) == a && b == Shifted(a) && c == Shifted(b) && d == Shifted(c) && e == Shifted(d) && f == Shifted(e)
    ensures Exp(i + 1) == b && Exp(i + 2) == c && Exp(i + 3) == d && Exp(i + 4) == e && Exp(i + 5) == f
  {
    NextPower(i, a);
    NextPower(i + 1, b);
    NextPower(i + 2, c);
    NextPower(i + 3, d);
    NextPower(i + 4, e);
  }

  lemma NextPower(i: nat, v: byte)
    requires Exp(i) == v
    ensures Exp(i + 1) == Shifted(v)
  {
    IterNext(i, 1);
    if v >= 128 {
      ReduceBits(v);
    }
  }

  lemma Powers0(i: nat)
    requires Exp(i) == 1
    ensures Exp(i + 15) == 38 && Exp(i + 30) == 96 && Exp(i + 40) == 106
  {
    Hop(i + 0, 1, 2, 4, 8, 16, 32);
    Hop(i + 5, 32, 64, 128, 29, 58, 116);
    Hop(i + 10, 116, 232, 205, 135, 19, 38);
    Hop(i + 15, 38, 76, 152, 45, 90, 180);
    Hop(i + 20, 180, 117, 234, 201, 143, 3);
    Hop(i + 25, 3, 6, 12, 24, 48, 96);
    Hop(i + 30, 96, 192, 157, 39, 78, 156);
    Hop(i + 35, 156, 37, 74, 148, 53, 106);
  }

  lemma Powers1(i: nat)
    requires Exp(i) == 106
    ensures Exp(i + 5) == 193 && Exp(i + 11) == 10 && Exp(i + 20) == 185 && Exp(i + 35) == 15
  {
    Hop(i + 0, 106, 212, 181, 119, 238, 193);
    Hop(i + 5, 193, 159, 35, 70, 140, 5);
    Hop(i + 10, 5, 10, 20, 40, 80, 160);
    Hop(i + 15, 160, 93, 186, 105, 210, 185);
    Hop(i + 20, 185, 111, 222, 161, 95, 190);
    Hop(i + 25, 190, 97, 194, 153, 47, 94);
    Hop(i + 30, 94, 188, 101, 202, 137, 15);
  }

  lemma Powers2(i: nat)
    requires Exp(i) == 15
    ensures Exp(i + 10) == 214 && Exp(i + 15) == 223 && Exp(i + 27) == 68 && Exp(i + 30) == 26
  {
    Hop(i + 0, 15, 30, 60, 120, 240, 253);
    Hop(i + 5, 253, 231, 211, 187, 107, 214);
    Hop(i + 10, 214, 177, 127, 254, 225, 223);
    Hop(i + 15, 223, 163, 91, 182, 113, 226);
    Hop(i + 20, 226, 217, 175, 67, 134, 17);
    Hop(i + 25, 17, 34, 68, 136, 13, 26);
  }

  lemma Powers3(i: nat)
    requires Exp(i) == 26
    ensures Exp(i + 15) == 59 && Exp(i + 30) == 169
  {
    Hop(i + 0, 26, 52, 104, 208, 189, 103);
    Hop(i + 5, 103, 206, 129, 31, 62, 124);
    Hop(i + 10, 124, 248, 237, 199, 147, 59);
    Hop(i + 15, 59, 118, 236, 197, 151, 51);
    Hop(i + 20, 51, 102, 204, 133, 23, 46);
    Hop(i + 25, 46, 92, 184, 109, 218, 169);
  }

  lemma Powers4(i: nat)
    requires Exp(i) == 169
    ensures Exp(i + 15) == 85 && Exp(i + 18) == 146 && Exp(i + 30) == 145
  {
    Hop(i + 0, 169, 79, 158, 33, 66, 132);
    Hop(i + 5, 132, 21, 42, 84, 168, 77);
    Hop(i + 10, 77, 154, 41, 82, 164, 85);
    Hop(i + 15, 85, 170, 73, 146, 57, 114);
    Hop(i + 20, 114, 228, 213, 183, 115, 230);
    Hop(i + 25, 230, 209, 191, 99, 198, 145);
  }

  lemma Powers5(i: nat)
    requires Exp(i) == 145
    ensures Exp(i + 5) == 215 && Exp(i + 15) == 150 && Exp(i + 30) == 100
  {
    Hop(i + 0, 145, 63, 126, 252, 229, 215);
    Hop(i + 5, 215, 179, 123, 246, 241, 255);
    Hop(i + 10, 255, 227, 219, 171, 75, 150);
    Hop(i + 15, 150, 49, 98, 196, 149, 55);
    Hop(i + 20, 55, 110, 220, 165, 87, 174);
    Hop(i + 25, 174, 65, 130, 25, 50, 100);
  }

  lemma Powers6(i: nat)
    requires Exp(i) == 100
    ensures Exp(i + 9) == 221 && Exp(i + 15) == 89 && Exp(i + 30) == 36
  {
    Hop(i + 0, 100, 200, 141, 7, 14, 28);
    Hop(i + 5, 28, 56, 112, 224, 221, 167);
    Hop(i + 10, 167, 83, 166, 81, 162, 89);
    Hop(i + 15, 89, 178, 121, 242, 249, 239);
    Hop(i + 20, 239, 195, 155, 43, 86, 172);
    Hop(i + 25, 172, 69, 138, 9, 18, 36);
  }

  lemma Powers7(i: nat)
    requires Exp(i) == 36
    ensures Exp(i + 15) == 44 && Exp(i + 30) == 1
  {
    Hop(i + 0, 36, 72, 144, 61, 122, 244);
    Hop(i + 5, 244, 245, 247, 243, 251, 235);
    Hop(i + 10, 235, 203, 139, 11, 22, 44);
    Hop(i + 15, 44, 88, 176, 125, 250, 233);
    Hop(i + 20, 233, 207, 131, 27, 54, 108);
    Hop(i + 25, 108, 216, 173, 71, 142, 1);
  }

  lemma {:induction false} ExpAdd(i: nat, j: nat)
    ensures Exp(i + j) == Iter(i, Exp(j))
  {
    IterAdd(i, j, 1);
  }

  /** The powers of alpha that decide its order, counted from any i with alpha^i = 1. */
  lemma KeyPowers(i: nat, k: nat)
    requires Exp(i) == 1
    ensures k == 255 ==> Exp(i + k) == 1
    ensures 0 < k < 255 && (k % 85 == 0 || k % 51 == 0 || k % 15 == 0) ==> Exp(i + k) != 1
  {
    Powers0(i);
    Powers1(i + 40);
    Powers2(i + 75);
    Powers3(i + 105);
    Powers4(i + 135);
    Powers5(i + 165);
    Powers6(i + 195);
    Powers7(i + 225);
  }

  lemma ExpTurn(m: nat, k: nat)
    requires k == 255
    ensures Exp(m + k) == Exp(m)
  {
    KeyPowers(k - k, k);
    ExpAdd(m, k);
  }

  lemma {:induction false} ExpPeriod(q: nat, m: nat)
    ensures Exp(255 * q + m) == Exp(m)
  {
    if q > 0 {
      ExpTurn(255 * (q - 1) + m, 255);
      ExpPeriod(q - 1, m);
    }
  }

  lemma ExpMod(n: nat)
    ensures Exp(n) == Exp(n % 255)
  {
    ExpPeriod(n / 255, n % 255);
  }

  lemma {:induction false} ExpOneMultiple(k: nat, c: nat)
    requires Exp(k) == 1
    ensures Exp(c * k) == 1
  {
    if c > 0 {
      ExpOneMultiple(k, c - 1);
      ExpAdd((c - 1) * k, k);
      assert (c - 1) * k + k == c * k;
    }
  }

  /** If alpha^k = 1 then the prime p = 255 / c of 255 divides k. */
  lemma OrderMisses(k: nat, c: nat, p: nat)
    requires Exp(k) == 1 && (c, p) in {(85, 3), (51, 5), (15, 17)}
    ensures k % p == 0
  {
    var q, r := k / p, k % p;
    ExpOneMultiple(k, c);
    FullTurns(k, c, p, q, r);
    ExpPeriod(q, c * r);
    ExpAdd(c * r, k);
    KeyPowers(k, c * r);
  }

  lemma FullTurns(k: nat, c: nat, p: nat, q: nat, r: nat)
    requires (c, p) in {(85, 3), (51, 5), (15, 17)} && k == p * q + r && r < p
    ensures c * k == 255 * q + c * r
    ensures c * r < 255 && c * r % c == 0
  {
    if c == 85 {
    } else if c == 51 {
    } else {
    }
  }

  lemma CommonMultiple(k: nat, a: nat, b: nat, c: nat)
    requires k == 3 * a == 5 * b == 17 * c
    ensures k == 255 * (8 * c - 14 * b + 7 * a)
  {
  }

  /** alpha has order exactly 255 = 3 * 5 * 17. */
  lemma {:induction false} Order(k: nat)
    requires 0 < k <= 255
    ensures Exp(k) == 1 <==> k == 255
  {
    KeyPowers(k - k, k);
    if Exp(k) == 1 {
      OrderMisses(k, 85, 3);
      OrderMisses(k, 51, 5);
      OrderMisses(k, 15, 17);
      CommonMultiple(k, k / 3, k / 5, k / 17);
    }
  }

  // ---------- logarithms ----------

  lemma ExpInjective(i: nat, j: nat)
    requires i < 255 && j < 255 && Exp(i) == Exp(j)
    ensures i == j
  {
    if i < j {
      ExpAdd(i, j - i);
      IterInjective(i, 1, Exp(j - i));
      Order(j - i);
    } else if j < i {
      ExpAdd(j, i - j);
      IterInjective(j, 1, Exp(i - j));
      Order(i - j);
    }
  }

  ghost function Powers(n: nat): set<byte> {
    set i | 0 <= i < n :: Exp(i)
  }

  lemma {:induction false} PowersCount(n: nat)
    requires n <= 255
    ensures |Powers(n)| == n
  {
    if n > 0 {
      PowersCount(n - 1);
      if Exp(n - 1) in Powers(n - 1) {
        var i :| 0 <= i < n - 1 && Exp(i) == Exp(n - 1);
        ExpInjective(i, n - 1);
      }
      assert Powers(n) == Powers(n - 1) + {Exp(n - 1)};
    }
  }

  ghost function UpTo(n: nat): (s: set<nat>)
    ensures |s| == n
    ensures forall v: nat :: v in s <==> 1 <= v <= n
  {
    if n == 0 then {} else UpTo(n - 1) + {n}
  }

  lemma SubsetOfSameSize<T>(a: set<T>, b: set<T>)
    requires a <= b && |a| == |b|
    ensures a == b
  {
    if a != b {
      var x :| x in b && x !in a;
      assert a <= b - {x};
      SubsetSize(a, b - {x});
    }
  }

  lemma {:induction false} SubsetSize<T>(a: set<T>, b: set<T>)
    requires a <= b
    ensures |a| <= |b|
  {
    if a != {} {
      var x :| x in a;
      SubsetSize(a - {x}, b - {x});
    }
  }

  /** Pigeonhole: 255 different powers fill the 255 nonzero bytes. */
  lemma LogExists(v: byte)
    requires v != 0
    ensures exists i: nat :: i < 255 && Exp(i) == v
  {
    PowersCount(255);
    forall w | w in Powers(255)
      ensures w in UpTo(255)
    {
      var i :| 0 <= i < 255 && Exp(i) == w;
      ExpNonzero(i);
    }
    SubsetOfSameSize(Powers(255), UpTo(255));
    assert v in Powers(255);
  }

  /** The LOG table: the exponent below 255 that gives v. */
  ghost function Log(v: byte): (i: nat)
    requires v != 0
    ensures i < 255 && Exp(i) == v
  {
    LogExists(v);
    var i: nat :| i < 255 && Exp(i) == v;
    i
  }

  lemma LogOfExp(n: nat)
    ensures Exp(n) != 0 && Log(Exp(n)) == n % 255
  {
    ExpNonzero(n);
    ExpMod(n);
    ExpInjective(Log(Exp(n)), n % 255);
  }

  // ---------- multiplication and division ----------

  ghost function Mul(a: byte, b: byte): byte {
    if a == 0 || b == 0 then 0 else Exp(Log(a) + Log(b))
  }

  ghost function Div(a: byte, b: byte): byte
    requires b != 0
  {
    if a == 0 then 0 else Exp((Log(a) + 255 - Log(b)) % 255)
  }

  lemma MulExp(i: nat, j: nat)
    ensures Mul(Exp(i), Exp(j)) == Exp(i + j)
  {
    LogOfExp(i);
    LogOfExp(j);
    var k, l := i / 255, j / 255;
    ExpPeriod(k + l, i % 255 + j % 255);
    assert 255 * (k + l) + (i % 255 + j % 255) == i + j;
  }

  lemma {:induction false} MulIter(a: byte, b: byte)
    requires a != 0
    ensures Mul(a, b) == Iter(Log(a), b)
  {
    if b == 0 {
      IterZero(Log(a));
    } else {
      ExpAdd(Log(a), Log(b));
    }
  }

  lemma MulComm(a: byte, b: byte)
    ensures Mul(a, b) == Mul(b, a)
  {
  }

  lemma MulNonzero(a: byte, b: byte)
    ensures Mul(a, b) == 0 <==> a == 0 || b == 0
  {
    if a != 0 && b != 0 {
      ExpNonzero(Log(a) + Log(b));
    }
  }

  lemma MulAssoc(a: byte, b: byte, c: byte)
    ensures Mul(a, Mul(b, c)) == Mul(Mul(a, b), c)
  {
    if a != 0 && b != 0 && c != 0 {
      MulExp(Log(a), Log(b) + Log(c));
      MulExp(Log(a) + Log(b), Log(c));
    }
  }

  lemma Distributes(a: byte, b: byte, c: byte)
    ensures Mul(a, Add(b, c)) == Add(Mul(a, b), Mul(a, c))
  {
    if a == 0 {
      AddZero(0);
    } else {
      MulIter(a, b);
      MulIter(a, c);
      MulIter(a, Add(b, c));
      IterLinear(Log(a), b, c);
    }
  }

  lemma DistributesRight(a: byte, b: byte, c: byte)
    ensures Mul(Add(b, c), a) == Add(Mul(b, a), Mul(c, a))
  {
    MulComm(Add(b, c), a);
    MulComm(b, a);
    MulComm(c, a);
    Distributes(a, b, c);
  }

  lemma MulOne(a: byte)
    ensures Mul(1, a) == a && Mul(a, 1) == a
  {
    LogOfExp(0);
    MulIter(1, a);
    MulComm(a, 1);
  }

  lemma MulDiv(a: byte, b: byte)
    requires b != 0
    ensures Mul(Div(a, b), b) == a
  {
    if a != 0 {
      var e := Log(a) + 255 - Log(b);
      ExpMod(e);
      MulExp(e, Log(b));
      ExpPeriod(1, Log(a));
    }
  }

  ghost function Inv(a: byte): byte
    requires a != 0
  {
    Div(1, a)
  }

  lemma MulInv(a: byte)
    requires a != 0
    ensures Mul(a, Inv(a)) == 1 && Mul(Inv(a), a) == 1 && Inv(a) != 0
  {
    MulDiv(1, a);
    MulComm(a, Inv(a));
    MulNonzero(Inv(a), a);
  }

  lemma MulCancel(a: byte, b: byte, c: byte)
    requires a != 0 && Mul(a, b) == Mul(a, c)
    ensures b == c
  {
    MulInv(a);
    MulAssoc(Inv(a), a, b);
    MulAssoc(Inv(a), a, c);
    MulOne(b);
    MulOne(c);
  }

  // ---------- powers and the Frobenius map ----------

  ghost function Power(x: byte, j: nat): byte {
    if j == 0 then 1 else Mul(x, Power(x, j - 1))
  }

  ghost function Square(x: byte): byte {
    Mul(x, x)
  }

  lemma {:induction false} PowerOfExp(i: nat, j: nat)
    ensures Power(Exp(i), j) == Exp(i * j)
  {
    if j > 0 {
      PowerOfExp(i, j - 1);
      PowerNext(i, j, i * (j - 1));
      TimesNext(i, j);
    }
  }

  lemma {:induction false} PowerNext(i: nat, j: nat, k: nat)
    requires j > 0 && Power(Exp(i), j - 1) == Exp(k)
    ensures Power(Exp(i), j) == Exp(i + k)
  {
    MulExp(i, k);
  }

  lemma TimesNext(i: nat, j: nat)
    requires j > 0
    ensures i + i * (j - 1) == i * j
  {
  }

  /** (alpha^i)^j, read off the table at i j mod 255. */
  lemma {:induction false} PowerFromTable(i: nat, j: nat, n: nat)
    requires n == i * j
    ensures Power(Exp(i), j) == Exp(n % 255)
  {
    PowerOfExp(i, j);
    ExpMod(n);
  }

  lemma {:induction false} PowerIs(i: nat, j: nat, n: nat)
    requires n == i * j
    ensures Power(Exp(i), j) == Exp(n)
  {
    PowerOfExp(i, j);
  }

  /** (alpha^i)^j = (alpha^j)^i */
  lemma {:induction false} PowerSwap(i: nat, j: nat)
    ensures Power(Exp(i), j) == Power(Exp(j), i)
  {
    var n: nat := i * j;
    assert n == j * i;
    PowerIs(i, j, n);
    PowerIs(j, i, n);
  }

  lemma {:induction false} PowerNonzero(x: byte, j: nat)
    requires x != 0
    ensures Power(x, j) != 0
  {
    if j > 0 {
      PowerNonzero(x, j - 1);
      MulNonzero(x, Power(x, j - 1));
    }
  }

  lemma MulSwap(a: byte, b: byte, c: byte, d: byte)
    ensures Mul(Mul(a, b), Mul(c, d)) == Mul(Mul(a, c), Mul(b, d))
  {
    MulAssoc(a, b, Mul(c, d));
    MulAssoc(b, c, d);
    MulComm(b, c);
    MulAssoc(c, b, d);
    MulAssoc(a, c, Mul(b, d));
  }

  lemma SquareAdd(a: byte, b: byte)
    ensures Square(Add(a, b)) == Add(Square(a), Square(b))
  {
    Distributes(Add(a, b), a, b);
    DistributesRight(a, a, b);
    DistributesRight(b, a, b);
    MulComm(a, b);
    var m := Mul(a, b);
    AddAssoc(Square(a), m, Add(m, Square(b)));
    AddCancel(Square(b), m);
  }

  lemma SquareMul(a: byte, b: byte)
    ensures Square(Mul(a, b)) == Mul(Square(a), Square(b))
  {
    MulSwap(a, b, a, b);
  }

  lemma {:induction false} SquarePower(x: byte, j: nat)
    ensures Square(Power(x, j)) == Power(Square(x), j) == Power(x, 2 * j)
  {
    if j == 0 {
      MulOne(1);
    } else {
      SquarePower(x, j - 1);
      SquareMul(x, Power(x, j - 1));
      MulAssoc(x, x, Power(x, 2 * (j - 1)));
    }
  }

  lemma SquareFixed(c: byte)
    requires Square(c) == c
    ensures c == 0 || c == 1
  {
    if c != 0 {
      MulOne(c);
      MulCancel(c, c, 1);
    }
  }

  lemma SquareInjective(a: byte, b: byte)
    requires Square(a) == Square(b)
    ensures a == b
  {
    SquareAdd(a, b);
    AddEqualsZero(Square(a), Square(b));
    MulNonzero(Add(a, b), Add(a, b));
    AddEqualsZero(a, b);
  }
}
