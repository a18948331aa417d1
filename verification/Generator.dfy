/**
  Minimal polynomials over cyclotomic cosets and the generator of the code.
  A binary word passes the syndrome test exactly when the generator divides it.
 */
module Generator {
  import opened Bits
  import opened Gf
  import opened Poly
  import opened Locator
  import opened Bch
  import opened BinPoly

  // ---------- cyclotomic cosets modulo 255 ----------

  /** j, 2j, 4j, ... modulo 255: the k-th conjugate exponent. */
  function Conj(j: nat, k: nat): (e: nat)
    ensures e < 255
  {
    if k == 0 then j % 255 else 2 * Conj(j, k - 1) % 255
  }

  ghost function Conjugates(j: nat): set<nat> {
    set k | 0 <= k < 8 :: Conj(j, k)
  }

  lemma {:induction false} ConjAdd(j: nat, k: nat, l: nat)
    ensures Conj(j, k + l) == Conj(Conj(j, k), l)
    decreases l
  {
    if l > 0 {
      ConjAdd(j, k, l - 1);
    }
  }

  lemma {:induction false} ConjWraps(j: nat, k: nat) returns (w: int)
    ensures Conj(j, k) + 255 * w == Shl(j % 255, k)
  {
    if k == 0 {
      w := 0;
    } else {
      var v := ConjWraps(j, k - 1);
      w := 2 * v + (if 2 * Conj(j, k - 1) < 255 then 0 else 1);
      DoubleWraps(Conj(j, k - 1), v, Shl(j % 255, k - 1));
    }
  }

  lemma DoubleWraps(c: nat, v: int, s: nat)
    requires c < 255 && c + 255 * v == s
    ensures 2 * c % 255 + 255 * (2 * v + (if 2 * c < 255 then 0 else 1)) == 2 * s
  {
  }

  lemma ShlFour(x: nat, k: nat)
    ensures Shl(x, k + 4) == 16 * Shl(x, k)
  {
    assert Shl(x, k + 2) == 2 * Shl(x, k + 1) == 4 * Shl(x, k);
    assert Shl(x, k + 4) == 2 * Shl(x, k + 3) == 4 * Shl(x, k + 2);
  }

  lemma ShlEight(x: nat, k: nat)
    requires k == 8
    ensures Shl(x, k) == 256 * x
  {
    ShlFour(x, 0);
    ShlFour(x, 4);
  }

  lemma SameResidue(c: nat, x: nat, w: int)
    requires c < 255 && x < 255 && c + 255 * w == 256 * x
    ensures c == x
  {
    assert c - x == 255 * (x - w);
  }

  /** Eight doublings multiply by 256, which is 1 modulo 255. */
  lemma {:induction false} ConjEight(j: nat, k: nat)
    requires k == 8
    ensures Conj(j, k) == j % 255
  {
    var w := ConjWraps(j, k);
    ShlEight(j % 255, k);
    SameResidue(Conj(j, k), j % 255, w);
  }

  lemma DoublingInjective(x: nat, y: nat)
    requires x < 255 && y < 255 && 2 * x % 255 == 2 * y % 255
    ensures x == y
  {
    assert 2 * x % 255 == if 2 * x < 255 then 2 * x else 2 * x - 255;
    assert 2 * y % 255 == if 2 * y < 255 then 2 * y else 2 * y - 255;
  }

  lemma ConjugatesClosed(j: nat, e: nat)
    requires e in Conjugates(j)
    ensures 2 * e % 255 in Conjugates(j)
  {
    var k :| 0 <= k < 8 && Conj(j, k) == e;
    if k == 7 {
      ConjEight(j, 8);
      ConjIn(j, 0);
    } else {
      assert Conj(j, k + 1) == 2 * e % 255;
    }
  }

  lemma {:induction false} ConjugatesStay(j: nat, e: nat, k: nat)
    requires e in Conjugates(j)
    ensures Conj(e, k) in Conjugates(j)
  {
    if k > 0 {
      ConjugatesStay(j, e, k - 1);
      ConjugatesClosed(j, Conj(e, k - 1));
    }
  }

  lemma ConjugatesInclude(j: nat, e: nat)
    requires e in Conjugates(j)
    ensures Conjugates(e) <= Conjugates(j)
  {
    forall x | x in Conjugates(e)
      ensures x in Conjugates(j)
    {
      var l :| 0 <= l < 8 && Conj(e, l) == x;
      ConjugatesStay(j, e, l);
    }
  }

  lemma {:induction false} ConjBack(j: nat, k: nat)
    requires j < 255 && k < 8
    ensures j in Conjugates(Conj(j, k))
  {
    if k == 0 {
      assert Conj(j, 0) == j;
      ConjIn(j, 0);
    } else {
      ConjReturns(j, k, 8 - k, 8);
      ConjIn(Conj(j, k), 8 - k);
    }
  }

  lemma {:induction false} ConjReturns(j: nat, k: nat, l: nat, n: nat)
    requires k + l == n == 8
    ensures Conj(Conj(j, k), l) == j % 255
  {
    ConjAdd(j, k, l);
    ConjEight(j, n);
  }

  lemma {:induction false} ConjIn(j: nat, k: nat)
    requires k < 8
    ensures Conj(j, k) in Conjugates(j)
  {
  }

  /** Being conjugate is an equivalence: cosets that meet are equal. */
  lemma ConjugatesSymmetric(j: nat, e: nat)
    requires j < 255 && e in Conjugates(j)
    ensures j in Conjugates(e) && Conjugates(e) == Conjugates(j)
  {
    var k :| 0 <= k < 8 && Conj(j, k) == e;
    ConjBack(j, k);
    ConjugatesInclude(j, e);
    ConjugatesInclude(e, j);
  }

  // ---------- minimal polynomials ----------

  /** (x + r) * p(x) */
  ghost function TimesRoot(p: Poly, r: byte): (q: Poly)
    ensures |q| == |p| + 1
  {
    Sum([0] + p, Scale(r, p))
  }

  lemma TimesRootAt(p: Poly, r: byte, d: int)
    ensures At(TimesRoot(p, r), d) == Add(At(p, d - 1), Mul(r, At(p, d)))
  {
    assert At(TimesRoot(p, r), d) == Add(At([0] + p, d), At(Scale(r, p), d));
  }

  /** Product of (x + alpha^e) over the exponents. */
  ghost function RootProduct(es: seq<nat>): (p: Poly)
    ensures |p| == |es| + 1
  {
    if es == [] then [1] else TimesRoot(RootProduct(es[..|es| - 1]), Exp(es[|es| - 1]))
  }

  lemma EqualCoefficients(p: Poly, q: Poly)
    requires |p| == |q| && forall d :: At(p, d) == At(q, d)
    ensures p == q
  {
    forall d | 0 <= d < |p|
      ensures p[d] == q[d]
    {
      assert At(p, d) == At(q, d);
    }
  }

  lemma TimesRootCommutes(p: Poly, a: byte, b: byte)
    ensures TimesRoot(TimesRoot(p, a), b) == TimesRoot(TimesRoot(p, b), a)
  {
    forall d
      ensures At(TimesRoot(TimesRoot(p, a), b), d) == At(TimesRoot(TimesRoot(p, b), a), d)
    {
      var x, y, z := At(p, d - 2), At(p, d - 1), At(p, d);
      TimesRootAt(TimesRoot(p, a), b, d);
      TimesRootAt(TimesRoot(p, b), a, d);
      TimesRootAt(p, a, d - 1);
      TimesRootAt(p, b, d - 1);
      TimesRootAt(p, a, d);
      TimesRootAt(p, b, d);
      CommuteTerm(x, y, z, a, b);
    }
    EqualCoefficients(TimesRoot(TimesRoot(p, a), b), TimesRoot(TimesRoot(p, b), a));
  }

  /** (x + a y) + b (y + a z) is symmetric in a and b. */
  lemma CommuteTerm(x: byte, y: byte, z: byte, a: byte, b: byte)
    ensures Add(Add(x, Mul(a, y)), Mul(b, Add(y, Mul(a, z))))
         == Add(Add(x, Mul(b, y)), Mul(a, Add(y, Mul(b, z))))
  {
    Distributes(b, y, Mul(a, z));
    Distributes(a, y, Mul(b, z));
    MulAssoc(b, a, z);
    MulAssoc(a, b, z);
    MulComm(a, b);
    AddSwap(x, Mul(a, y), Mul(b, y), Mul(b, Mul(a, z)));
  }

  /** The first root can be moved to the end. */
  lemma {:induction false} RootProductRotate(e: nat, es: seq<nat>)
    ensures RootProduct([e] + es) == TimesRoot(RootProduct(es), Exp(e))
  {
    if es == [] {
      assert [e] + es == [e] && [e][..0] == [];
    } else {
      var init, last := es[..|es| - 1], es[|es| - 1];
      assert ([e] + es)[..|es|] == [e] + init;
      RootProductRotate(e, init);
      TimesRootCommutes(RootProduct(init), Exp(e), Exp(last));
    }
  }

  lemma {:induction false} SquareTimesRoot(p: Poly, r: byte)
    ensures Squares(TimesRoot(p, r)) == TimesRoot(Squares(p), Square(r))
  {
    var q, t := TimesRoot(p, r), TimesRoot(Squares(p), Square(r));
    forall d
      ensures At(Squares(q), d) == At(t, d)
    {
      TimesRootAt(p, r, d);
      TimesRootAt(Squares(p), Square(r), d);
      SquareAdd(At(p, d - 1), Mul(r, At(p, d)));
      SquareMul(r, At(p, d));
      AddZero(0);
    }
    EqualCoefficients(Squares(q), t);
  }

  lemma SquareExp(e: nat)
    ensures Square(Exp(e)) == Exp(2 * e % 255)
  {
    MulExp(e, e);
    ExpMod(e + e);
  }

  ghost function Doubled(es: seq<nat>): (r: seq<nat>)
    ensures |r| == |es| && forall i | 0 <= i < |es| :: r[i] == 2 * es[i] % 255
  {
    if es == [] then [] else Doubled(es[..|es| - 1]) + [2 * es[|es| - 1] % 255]
  }

  lemma {:induction false} SquareRootProduct(es: seq<nat>)
    ensures Squares(RootProduct(es)) == RootProduct(Doubled(es))
  {
    if es == [] {
      MulOne(1);
      assert Squares([1]) == [1];
    } else {
      var init, e := es[..|es| - 1], es[|es| - 1];
      SquareRootProduct(init);
      SquareTimesRoot(RootProduct(init), Exp(e));
      SquareExp(e);
      assert Doubled(es)[..|es| - 1] == Doubled(init);
    }
  }

  /** A list of exponents each the double of the one before, ending where it began. */
  ghost predicate Cycle(es: seq<nat>) {
    && es != []
    && (forall i | 0 <= i < |es| :: es[i] < 255)
    && (forall i | 0 <= i < |es| - 1 :: es[i + 1] == 2 * es[i] % 255)
    && es[0] == 2 * es[|es| - 1] % 255
  }

  /** The assertion in minimal_poly never fails: squaring permutes the roots, so it
      fixes every coefficient. */
  lemma {:induction false} CycleIsBinary(es: seq<nat>)
    requires Cycle(es)
    ensures Binary(RootProduct(es))
  {
    var rest := es[1..];
    assert es == [es[0]] + rest;
    RootProductRotate(es[0], rest);
    assert Doubled(es) == rest + [es[0]];
    assert Doubled(es)[..|rest|] == rest;
    SquareRootProduct(es);
    var p := RootProduct(es);
    assert Squares(p) == p;
    forall i | 0 <= i < |p|
      ensures p[i] < 2
    {
      assert Squares(p)[i] == Square(p[i]);
      SquareFixed(p[i]);
    }
  }

  ghost function Members(es: seq<nat>): set<nat> {
    set e | e in es
  }

  lemma {:induction false} DistinctCount(es: seq<nat>)
    requires Distinct(es)
    ensures |Members(es)| == |es|
  {
    if es != [] {
      var init, last := es[..|es| - 1], es[|es| - 1];
      DistinctCount(init);
      assert es == init + [last];
      assert Members(es) == Members(init) + {last};
    }
  }

  lemma {:induction false} CycleIsConj(es: seq<nat>, k: nat)
    requires Cycle(es) && k < |es|
    ensures Conj(es[0], k) == es[k]
  {
    if k > 0 {
      CycleIsConj(es, k - 1);
      assert es[k - 1 + 1] == 2 * es[k - 1] % 255;
    }
  }

  lemma {:induction false} CycleStays(es: seq<nat>, k: nat)
    requires Cycle(es)
    ensures Conj(es[0], k) in es
  {
    if k == 0 {
      assert es[0] < 255;
    } else {
      CycleStays(es, k - 1);
      var i :| 0 <= i < |es| && es[i] == Conj(es[0], k - 1);
      if i < |es| - 1 {
        assert es[i + 1] == 2 * es[i] % 255;
      }
    }
  }

  /** A cycle lists the coset of its first exponent. */
  lemma CycleIsCoset(es: seq<nat>)
    requires Cycle(es) && |es| <= 8
    ensures Members(es) == Conjugates(es[0])
  {
    forall e | e in es
      ensures e in Conjugates(es[0])
    {
      var k :| 0 <= k < |es| && es[k] == e;
      CycleIsConj(es, k);
    }
    forall e | e in Conjugates(es[0])
      ensures e in es
    {
      var k :| 0 <= k < 8 && Conj(es[0], k) == e;
      CycleStays(es, k);
    }
  }

  // ---------- the zeros of the code ----------

  /** The exponents whose powers are zeros: every conjugate of 1 ... t. */
  ghost function Zeros(t: nat): set<nat> {
    set j, k | 1 <= j <= t && 0 <= k < 8 :: Conj(j, k)
  }

  lemma ZerosMember(t: nat, e: nat)
    ensures e in Zeros(t) <==> exists j :: 1 <= j <= t && e in Conjugates(j)
  {
    if e in Zeros(t) {
      var j, k :| 1 <= j <= t && 0 <= k < 8 && Conj(j, k) == e;
      assert e in Conjugates(j);
    }
  }

  lemma ZerosNext(t: nat)
    requires t > 0
    ensures Zeros(t) == Zeros(t - 1) + Conjugates(t)
  {
    forall e: nat
      ensures e in Zeros(t) <==> e in Zeros(t - 1) + Conjugates(t)
    {
      ZerosMember(t, e);
      ZerosMember(t - 1, e);
    }
  }

  lemma ZerosEven(i: nat, h: nat)
    requires i == 2 * h && 0 < i < 255
    ensures Zeros(i) == Zeros(i - 1)
  {
    ZerosNext(i);
    assert Conj(h, 1) == i;
    ConjugatesInclude(h, i);
    forall e | e in Conjugates(i)
      ensures e in Zeros(i - 1)
    {
      ZerosMember(i - 1, e);
    }
  }

  /** A coset whose least member is i meets no earlier one. */
  lemma ZerosLeader(i: nat, es: seq<nat>)
    requires Cycle(es) && Distinct(es) && |es| <= 8 && es[0] == i && 0 < i < 255
    requires forall k | 0 <= k < |es| :: es[k] >= i
    ensures |Zeros(i)| == |Zeros(i - 1)| + |es|
  {
    ZerosNext(i);
    CycleIsCoset(es);
    DistinctCount(es);
    forall e | e in Zeros(i - 1) && e in Conjugates(i)
      ensures false
    {
      ZerosMember(i - 1, e);
      var j :| 1 <= j <= i - 1 && e in Conjugates(j);
      ConjugatesSymmetric(j, e);
      ConjugatesSymmetric(i, e);
    }
    assert Zeros(i - 1) !! Conjugates(i);
  }

  /** y is 2x reduced modulo 255. */
  predicate IsDouble(x: nat, y: nat) {
    y < 255 && (y == 2 * x || y + 255 == 2 * x)
  }

  lemma DoubleIs(x: nat, y: nat)
    requires IsDouble(x, y)
    ensures y == 2 * x % 255
  {
  }

  lemma Leader8(i: nat, b: nat, c: nat, d: nat, e: nat, f: nat, g: nat, h: nat)
    requires 0 < i < 255 && IsDouble(i, b) && IsDouble(b, c) && IsDouble(c, d) && IsDouble(d, e)
    requires IsDouble(e, f) && IsDouble(f, g) && IsDouble(g, h) && IsDouble(h, i)
    requires i < b && i < c && i < d && i < e && i < f && i < g && i < h
    ensures |Zeros(i)| == |Zeros(i - 1)| + 8
  {
    var es := [i, b, c, d, e, f, g, h];
    DoubleIs(i, b);
    DoubleIs(b, c);
    DoubleIs(c, d);
    DoubleIs(d, e);
    DoubleIs(e, f);
    DoubleIs(f, g);
    DoubleIs(g, h);
    DoubleIs(h, i);
    CycleDistinct(es);
    ZerosLeader(i, es);
  }

  /** A cycle whose first member occurs once has no repetition at all. */
  lemma CycleDistinct(es: seq<nat>)
    requires Cycle(es) && forall k | 1 <= k < |es| :: es[k] != es[0]
    ensures Distinct(es)
  {
    forall j, k | 0 <= j < k < |es|
      ensures es[j] != es[k]
    {
      if es[j] == es[k] {
        CycleSlide(es, j, k);
      }
    }
  }

  lemma {:induction false} CycleSlide(es: seq<nat>, j: nat, k: nat)
    requires Cycle(es) && j < k < |es| && es[j] == es[k]
    requires forall i | 1 <= i < |es| :: es[i] != es[0]
    ensures false
    decreases |es| - k
  {
    if k + 1 < |es| {
      assert es[j + 1] == 2 * es[j] % 255;
      assert es[k + 1] == 2 * es[k] % 255;
      CycleSlide(es, j + 1, k + 1);
    }
  }

  lemma Leader17()
    ensures |Zeros(17)| == |Zeros(16)| + 4
  {
    ZerosLeader(17, [17, 34, 68, 136]);
  }

  lemma ZerosHalf()
    ensures |Zeros(10)| == 40
  {
    assert Zeros(0) == {};
    Leader8(1, 2, 4, 8, 16, 32, 64, 128);
    ZerosEven(2, 1);
    Leader8(3, 6, 12, 24, 48, 96, 192, 129);
    ZerosEven(4, 2);
    Leader8(5, 10, 20, 40, 80, 160, 65, 130);
    ZerosEven(6, 3);
    Leader8(7, 14, 28, 56, 112, 224, 193, 131);
    ZerosEven(8, 4);
    Leader8(9, 18, 36, 72, 144, 33, 66, 132);
    ZerosEven(10, 5);
  }

  /** Ten cosets, nine of eight members and one of four: deg g = 76. */
  lemma ZerosCount()
    ensures |Zeros(2 * T)| == 76
  {
    ZerosHalf();
    Leader8(11, 22, 44, 88, 176, 97, 194, 133);
    ZerosEven(12, 6);
    Leader8(13, 26, 52, 104, 208, 161, 67, 134);
    ZerosEven(14, 7);
    Leader8(15, 30, 60, 120, 240, 225, 195, 135);
    ZerosEven(16, 8);
    Leader17();
    ZerosEven(18, 9);
    Leader8(19, 38, 76, 152, 49, 98, 196, 137);
    ZerosEven(20, 10);
  }

  // ---------- words as integers ----------

  /** bits_to_int over the first k bits: v |= b << i. */
  function ToIntUpTo(w: Word, k: nat): nat
    requires k <= |w|
  {
    if k == 0 then 0 else Or(Shl(if w[k - 1] then 1 else 0, k - 1), ToIntUpTo(w, k - 1))
  }

  function ToInt(w: Word): nat {
    ToIntUpTo(w, |w|)
  }

  lemma {:induction false} ToIntBound(w: Word, k: nat)
    requires k <= |w|
    ensures ToIntUpTo(w, k) < Pow2(k)
    ensures k > 0 ==> ToIntUpTo(w, k) == (if w[k - 1] then Pow2(k - 1) else 0) + ToIntUpTo(w, k - 1)
    ensures k > 0 ==> ToIntUpTo(w, k) == Xor(if w[k - 1] then Pow2(k - 1) else 0, ToIntUpTo(w, k - 1))
  {
    if k > 0 {
      ToIntBound(w, k - 1);
      ShlOne(k - 1);
      OrDisjoint(if w[k - 1] then 1 else 0, k - 1, ToIntUpTo(w, k - 1));
    }
  }

  lemma {:induction false} ToIntBit(w: Word, k: nat, i: nat)
    requires k <= |w|
    ensures Bit(ToIntUpTo(w, k), i) == (i < k && w[i])
    decreases k
  {
    if k == 0 {
      BitBound(0, 0, i);
    } else {
      ToIntBound(w, k);
      ToIntBit(w, k - 1, i);
      BitXor(if w[k - 1] then Pow2(k - 1) else 0, ToIntUpTo(w, k - 1), i);
      BitPow2(k - 1, i);
      BitBound(0, 0, i);
    }
  }

  /** int_to_bits: (v >> i) & 1 for i below n. */
  function ToBits(v: nat, n: nat): (w: Word)
    ensures |w| == n && forall i | 0 <= i < n :: w[i] == Bit(v, i)
  {
    seq(n, i requires 0 <= i < n => Bit(v, i))
  }

  lemma {:induction false} IntRoundTrip(w: Word)
    ensures ToBits(ToInt(w), |w|) == w
    ensures BitLength(ToInt(w)) <= |w|
  {
    ToIntBound(w, |w|);
    BitLengthBelow(ToInt(w), |w|);
    forall i | 0 <= i < |w|
      ensures Bit(ToInt(w), i) == w[i]
    {
      ToIntBit(w, |w|, i);
    }
  }

  lemma {:induction false} BitsRoundTrip(v: nat, n: nat)
    requires BitLength(v) <= n
    ensures ToInt(ToBits(v, n)) == v
  {
    var w := ToBits(v, n);
    BitLengthBelow(v, n);
    forall i: nat
      ensures Bit(ToInt(w), i) == Bit(v, i)
    {
      ToIntBit(w, n, i);
      if i >= n {
        BitBound(v, n, i);
      }
    }
    BitsDetermine(ToInt(w), v);
  }

  // ---------- the syndrome test is divisibility ----------

  lemma {:induction false} ValuePow2(k: nat, x: byte)
    ensures Value(Pow2(k), x) == Power(x, k)
  {
    if k == 0 {
      MulNonzero(x, 0);
      AddZero(1);
    } else {
      ValuePow2(k - 1, x);
      ValueDouble(Pow2(k - 1), x);
    }
  }

  /** A syndrome is the value of the word's polynomial at alpha^j. */
  lemma {:induction false} SyndromeIsValue(w: Word, j: nat, k: nat)
    requires k <= |w|
    ensures SyndromeUpTo(w, j, k) == Value(ToIntUpTo(w, k), Exp(j))
  {
    if k > 0 {
      var i := k - 1;
      SyndromeIsValue(w, j, i);
      ToIntBound(w, k);
      ValueXor(if w[i] then Pow2(i) else 0, ToIntUpTo(w, i), Exp(j));
      ValuePow2(i, Exp(j));
      AddComm(SyndromeUpTo(w, j, i), Term(w[i], i, j));
    }
  }

  lemma {:induction false} ValueSquare(a: nat, x: byte)
    ensures Value(a, Square(x)) == Square(Value(a, x))
  {
    if a != 0 {
      ValueSquare(a / 2, x);
      var v := Value(a / 2, x);
      SquareMul(x, v);
      SquareAdd(a % 2, Mul(x, v));
      MulOne(1);
    }
  }

  /** A binary polynomial that vanishes at alpha^j vanishes at every conjugate. */
  lemma {:induction false} ConjugateRoots(a: nat, j: nat, k: nat)
    requires Value(a, Exp(j)) == 0
    ensures Value(a, Exp(Conj(j, k))) == 0
  {
    if k == 0 {
      ExpMod(j);
    } else {
      ConjugateRoots(a, j, k - 1);
      var e := Conj(j, k - 1);
      SquareExp(e);
      ValueSquare(a, Exp(e));
    }
  }

  /** Number of parity bits: the zeros of the code, 76 of them. */
  ghost function Degree(): nat {
    |Zeros(2 * T)|
  }

  /** What generator_poly delivers: monic, zero exactly often enough, at every
      conjugate of alpha^1 ... alpha^2t. */
  ghost predicate IsGenerator(g: nat) {
    && Pow2(Degree()) <= g < 2 * Pow2(Degree())
    && forall e | e in Zeros(2 * T) :: Value(g, Exp(e)) == 0
  }

  lemma {:induction false} Enumerate(s: set<nat>) returns (es: seq<nat>)
    ensures Distinct(es) && |es| == |s| && forall e :: e in es <==> e in s
  {
    if s == {} {
      es := [];
    } else {
      var e :| e in s;
      var rest := Enumerate(s - {e});
      es := rest + [e];
      assert |s - {e}| == |s| - 1;
      forall x: nat
        ensures x in es <==> x in s
      {
        assert x in es <==> x in rest || x == e;
      }
    }
  }

  /** Two numbers of lower degree that agree at every zero of the code are equal. */
  lemma ZerosDetermine(a: nat, b: nat)
    requires a < Pow2(Degree()) && b < Pow2(Degree())
    requires forall e | e in Zeros(2 * T) :: Value(a, Exp(e)) == Value(b, Exp(e))
    ensures a == b
  {
    var es := Enumerate(Zeros(2 * T));
    var roots := LocatorsOf(es);
    forall i, j | 0 <= i < j < |roots|
      ensures roots[i] != roots[j]
    {
      ZerosBelow(es[i]);
      ZerosBelow(es[j]);
      if Exp(es[i]) == Exp(es[j]) {
        ExpInjective(es[i], es[j]);
      }
    }
    forall i | 0 <= i < |roots|
      ensures Value(Xor(a, b), roots[i]) == 0
    {
      assert es[i] in es;
      ValueXor(a, b, roots[i]);
      AddZero(Value(a, roots[i]));
    }
    XorBound(a, b, Degree());
    FewRoots(Xor(a, b), roots);
    XorAssoc(a, b, b);
    XorSelf(b);
    XorZero(a);
    XorZero(b);
  }

  lemma ZerosBelow(e: nat)
    requires e in Zeros(2 * T)
    ensures e < 255
  {
  }

  /** The generator is determined by its degree and zeros. */
  lemma GeneratorUnique(g: nat, h: nat)
    requires IsGenerator(g) && IsGenerator(h)
    ensures g == h
  {
    XorTopCancels(g, h, Degree());
    forall e | e in Zeros(2 * T)
      ensures Value(Xor(g, h), Exp(e)) == Value(0, Exp(e))
    {
      ValueXor(g, h, Exp(e));
      AddZero(0);
    }
    ZerosDetermine(Xor(g, h), 0);
    XorAssoc(g, h, h);
    XorSelf(h);
    XorZero(g);
    XorZero(h);
  }

  lemma {:induction false} ModBelow(v: nat, g: nat)
    requires IsGenerator(g)
    ensures BitLength(g) == Degree() + 1 && Mod(v, g) < Pow2(Degree())
  {
    DivisionLaw(v, g);
    BitLengthIs(g, Degree());
    BitLengthBelow(Mod(v, g), Degree());
  }

  lemma {:induction false} CodewordDivisible(w: Word, g: nat)
    requires IsCodeword(w) && IsGenerator(g)
    ensures Mod(ToInt(w), g) == 0
  {
    var v := ToInt(w);
    var r := Mod(v, g);
    ModBelow(v, g);
    forall e | e in Zeros(2 * T)
      ensures Value(r, Exp(e)) == Value(0, Exp(e))
    {
      ModValue(v, g, Exp(e));
      var j, k :| 1 <= j <= 2 * T && 0 <= k < 8 && Conj(j, k) == e;
      assert Syndromes(w)[j - 1] == 0;
      SyndromeIsValue(w, j, N);
      ConjugateRoots(v, j, k);
    }
    ZerosDetermine(r, 0);
  }

  lemma {:induction false} DivisibleSyndrome(w: Word, g: nat, j: nat)
    requires |w| == N && IsGenerator(g) && Mod(ToInt(w), g) == 0 && 1 <= j <= 2 * T
    ensures SyndromeUpTo(w, j, N) == 0
  {
    ZeroIn(j);
    ModValue(ToInt(w), g, Exp(j));
    SyndromeIsValue(w, j, N);
  }

  lemma ZeroIn(j: nat)
    requires 1 <= j <= 2 * T
    ensures j in Zeros(2 * T)
  {
    assert Conj(j, 0) == j;
  }

  /** All 2t syndromes of a word are zero exactly when the generator divides it. */
  lemma {:induction false} SyndromeTest(w: Word, g: nat)
    requires |w| == N && IsGenerator(g)
    ensures IsCodeword(w) <==> Mod(ToInt(w), g) == 0
  {
    if IsCodeword(w) {
      CodewordDivisible(w, g);
    }
    if Mod(ToInt(w), g) == 0 {
      forall n | 0 <= n < NSYND
        ensures Syndromes(w)[n] == 0
      {
        DivisibleSyndrome(w, g, n + 1);
      }
    }
  }

  // ---------- systematic encoding ----------

  /** The constant both programs expect K to be. */
  const FUZZY_K: nat := 179

  /** K: the message bits a block has room for. */
  function MessageBits(g: nat): int {
    N - (BitLength(g) - 1)
  }

  /** The assertion K == 179. */
  lemma MessageBitsIs179(g: nat)
    requires IsGenerator(g)
    ensures MessageBits(g) == FUZZY_K
  {
    BitLengthIs(g, Degree());
    ZerosCount();
  }

  /** bch_encode: the message above, the remainder in the low parity bits. */
  function Encode(msg: nat, g: nat): nat
    requires g > 0
  {
    var shifted := Shl(msg, BitLength(g) - 1);
    Or(shifted, Mod(shifted, g))
  }

  lemma {:induction false} EncodeShape(msg: nat, g: nat)
    requires IsGenerator(g)
    ensures var s := Shl(msg, Degree());
            && Encode(msg, g) == Xor(s, Mod(s, g))
            && Mod(s, g) < Pow2(Degree())
            && BitLength(g) == Degree() + 1
  {
    ModBelow(Shl(msg, Degree()), g);
    OrDisjoint(msg, Degree(), Mod(Shl(msg, Degree()), g));
  }

  /** A word shifted up by p, with r in the low p bits. */
  lemma ShiftedTop(m: nat, p: nat, r: nat, i: nat)
    requires r < Pow2(p)
    ensures Bit(Xor(Shl(m, p), r), p + i) == Bit(m, i)
  {
    BitXor(Shl(m, p), r, p + i);
    BitShl(m, p, p + i);
    BitBound(r, p, p + i);
  }

  lemma {:induction false} ShiftedLength(m: nat, k: nat, p: nat, r: nat)
    requires BitLength(m) <= k && r < Pow2(p)
    ensures BitLength(Xor(Shl(m, p), r)) <= k + p
  {
    BitLengthBelow(m, k);
    ShlBounds(m, k, p);
    if k > 0 {
      Pow2Increases(p, p + k);
    }
    XorBound(Shl(m, p), r, k + p);
    BitLengthBelow(Xor(Shl(m, p), r), k + p);
  }

  lemma {:induction false} EncodeDivisible(msg: nat, g: nat)
    requires IsGenerator(g)
    ensures Mod(Encode(msg, g), g) == 0
  {
    EncodeShape(msg, g);
    SumDivisible(Shl(msg, Degree()), g);
  }

  lemma {:induction false} SumDivisible(s: nat, g: nat)
    requires IsGenerator(g)
    ensures Mod(Xor(s, Mod(s, g)), g) == 0
  {
    var c := Xor(s, Mod(s, g));
    forall e | e in Zeros(2 * T)
      ensures Value(Mod(c, g), Exp(e)) == Value(0, Exp(e))
    {
      ModValue(c, g, Exp(e));
      ModValue(s, g, Exp(e));
      ValueXor(s, Mod(s, g), Exp(e));
      AddZero(Value(s, Exp(e)));
    }
    ModBelow(c, g);
    ZerosDetermine(Mod(c, g), 0);
  }

  lemma ShapeShr(m: nat, p: nat, r: nat, c: nat, q: nat)
    requires r < Pow2(p) && c == Xor(Shl(m, p), r) && q == p
    ensures Shr(c, q) == m
  {
    forall i: nat
      ensures Bit(Shr(c, q), i) == Bit(m, i)
    {
      BitShr(c, q, i);
      ShiftedTop(m, p, r, i);
    }
    BitsDetermine(Shr(c, q), m);
  }

  /** Shifting the parity out gives the message back. */
  lemma EncodeShr(msg: nat, g: nat)
    requires IsGenerator(g)
    ensures Shr(Encode(msg, g), BitLength(g) - 1) == msg
  {
    EncodeShape(msg, g);
    ShapeShr(msg, Degree(), Mod(Shl(msg, Degree()), g), Encode(msg, g), BitLength(g) - 1);
  }

  /** The message sits above the parity bits. */
  lemma EncodeTop(msg: nat, g: nat, i: nat)
    requires IsGenerator(g)
    ensures Bit(Encode(msg, g), BitLength(g) - 1 + i) == Bit(msg, i)
  {
    EncodeShr(msg, g);
    BitShr(Encode(msg, g), BitLength(g) - 1, i);
  }

  lemma EncodeLength(msg: nat, g: nat, k: nat)
    requires IsGenerator(g) && BitLength(msg) <= k
    ensures BitLength(Encode(msg, g)) <= k + Degree() && BitLength(g) == Degree() + 1
  {
    EncodeShape(msg, g);
    ShiftedLength(msg, k, Degree(), Mod(Shl(msg, Degree()), g));
  }

  /** Every message of at most K bits gives a codeword of at most N bits. */
  lemma {:induction false} EncodeCodeword(msg: nat, g: nat)
    requires IsGenerator(g) && BitLength(msg) <= MessageBits(g)
    ensures BitLength(Encode(msg, g)) <= N
    ensures Mod(Encode(msg, g), g) == 0
    ensures IsCodeword(ToBits(Encode(msg, g), N))
  {
    var c := Encode(msg, g);
    EncodeLength(msg, g, MessageBits(g));
    EncodeDivisible(msg, g);
    BitsRoundTrip(c, N);
    SyndromeTest(ToBits(c, N), g);
  }

  /** Below the generator's degree nothing but 0 is divisible. */
  lemma LowDivisible(v: nat, g: nat)
    requires IsGenerator(g) && v < Pow2(Degree()) && Mod(v, g) == 0
    ensures v == 0
  {
    BitLengthIs(g, Degree());
    BitLengthBelow(v, Degree());
  }

  lemma DivisibleSum(a: nat, b: nat, g: nat)
    requires IsGenerator(g) && Mod(a, g) == 0 && Mod(b, g) == 0
    ensures Mod(Xor(a, b), g) == 0
  {
    ModLinear(a, b, g);
    XorSelf(0);
  }

  /** Every multiple of the generator is the encoding of its bits above the parity. */
  lemma MultipleIsEncoding(v: nat, g: nat)
    requires IsGenerator(g) && Mod(v, g) == 0
    ensures v == Encode(Shr(v, Degree()), g)
  {
    var m := Shr(v, Degree());
    var s, c := Shl(m, Degree()), Encode(m, g);
    EncodeShape(m, g);
    EncodeDivisible(m, g);
    LowBits(v, Degree());
    SameTop(v, s, Mod(s, g), Degree());
    DivisibleSum(v, c, g);
    LowDivisible(Xor(v, c), g);
    XorToZero(v, c);
  }

  lemma SameTop(v: nat, s: nat, r: nat, k: nat)
    requires Xor(v, s) < Pow2(k) && r < Pow2(k)
    ensures Xor(v, Xor(s, r)) < Pow2(k)
  {
    XorAssoc(v, s, r);
    XorBound(Xor(v, s), r, k);
  }

  lemma XorToZero(a: nat, b: nat)
    requires Xor(a, b) == 0
    ensures a == b
  {
    XorAssoc(a, b, b);
    XorSelf(b);
    XorZero(a);
    XorZero(b);
  }

  /** The words the decoder accepts are exactly the encoder's outputs. */
  lemma CodewordsAreEncodings(w: Word, g: nat)
    requires |w| == N && IsGenerator(g)
    ensures IsCodeword(w) <==> exists msg :: BitLength(msg) <= MessageBits(g) && w == ToBits(Encode(msg, g), N)
  {
    if IsCodeword(w) {
      var m := Shr(ToInt(w), Degree());
      CodewordDivisible(w, g);
      MultipleIsEncoding(ToInt(w), g);
      IntRoundTrip(w);
      BitLengthIs(g, Degree());
      MessageBitsIs179(g);
      ShrLength(ToInt(w), Degree(), MessageBits(g));
      assert BitLength(m) <= MessageBits(g) && w == ToBits(Encode(m, g), N);
    }
    forall msg | BitLength(msg) <= MessageBits(g) && w == ToBits(Encode(msg, g), N)
      ensures IsCodeword(w)
    {
      EncodeCodeword(msg, g);
    }
  }

  /** Different messages give different codewords. */
  lemma EncodeInjective(a: nat, b: nat, g: nat)
    requires IsGenerator(g) && Encode(a, g) == Encode(b, g)
    ensures a == b
  {
    forall i: nat
      ensures Bit(a, i) == Bit(b, i)
    {
      EncodeTop(a, g, i);
      EncodeTop(b, g, i);
    }
    BitsDetermine(a, b);
  }

  lemma {:induction false} ShiftXor(a: nat, b: nat, k: nat)
    ensures Xor(Shl(a, k), Shl(b, k)) == Shl(Xor(a, b), k)
  {
    var s, t := Xor(Shl(a, k), Shl(b, k)), Shl(Xor(a, b), k);
    forall i: nat
      ensures Bit(s, i) == Bit(t, i)
    {
      BitXor(Shl(a, k), Shl(b, k), i);
      BitShl(a, k, i);
      BitShl(b, k, i);
      BitShl(Xor(a, b), k, i);
      if i >= k {
        BitXor(a, b, i - k);
      }
    }
    BitsDetermine(s, t);
  }

  /** The code is linear: messages and codewords add bit by bit. */
  lemma {:induction false} EncodeLinear(a: nat, b: nat, g: nat)
    requires IsGenerator(g)
    ensures Encode(Xor(a, b), g) == Xor(Encode(a, g), Encode(b, g))
  {
    var s, t := Shl(a, Degree()), Shl(b, Degree());
    ShiftXor(a, b, Degree());
    EncodeShape(a, g);
    EncodeShape(b, g);
    EncodeShape(Xor(a, b), g);
    ModLinear(s, t, g);
    XorReorder(s, Mod(s, g), t, Mod(t, g));
  }

  lemma {:induction false} ModLinear(s: nat, t: nat, g: nat)
    requires IsGenerator(g)
    ensures Mod(Xor(s, t), g) == Xor(Mod(s, g), Mod(t, g))
  {
    ModBelow(s, g);
    ModBelow(t, g);
    ModBelow(Xor(s, t), g);
    XorBound(Mod(s, g), Mod(t, g), Degree());
    forall e | e in Zeros(2 * T)
      ensures Value(Mod(Xor(s, t), g), Exp(e)) == Value(Xor(Mod(s, g), Mod(t, g)), Exp(e))
    {
      var x := Exp(e);
      ModValue(s, g, x);
      ModValue(t, g, x);
      ModValue(Xor(s, t), g, x);
      ValueXor(s, t, x);
      ValueXor(Mod(s, g), Mod(t, g), x);
    }
    ZerosDetermine(Mod(Xor(s, t), g), Xor(Mod(s, g), Mod(t, g)));
  }

  lemma {:induction false} XorReorder(a: nat, b: nat, c: nat, d: nat)
    ensures Xor(Xor(a, b), Xor(c, d)) == Xor(Xor(a, c), Xor(b, d))
  {
    XorAssoc(a, b, Xor(c, d));
    XorAssoc(b, c, d);
    XorComm(b, c);
    XorAssoc(c, b, d);
    XorAssoc(a, c, Xor(b, d));
  }
}
