/**
  Non-negative machine words and Python integers as bit vectors of any length:
  exclusive or, single bits, powers of two and bit length, all on `nat`.
 */
module Bits {

  type byte = x: nat | x < 256

  /** Bitwise exclusive or, the operator ^ of both programs. */
  function Xor(a: nat, b: nat): nat
    decreases a + b
  {
    if a == 0 && b == 0 then 0
    else if a % 2 == b % 2 then 2 * Xor(a / 2, b / 2)
    else 2 * Xor(a / 2, b / 2) + 1
  }

  /** Bit i of a, bit 0 being the least significant: (a >> i) & 1 */
  function Bit(a: nat, i: nat): bool
    decreases i
  {
    if i == 0 then a % 2 == 1 else Bit(a / 2, i - 1)
  }

  /** 1 << k */
  function Pow2(k: nat): (p: nat)
    ensures p > 0
  {
    if k == 0 then 1 else 2 * Pow2(k - 1)
  }

  /** a << k */
  function Shl(a: nat, k: nat): nat {
    if k == 0 then a else 2 * Shl(a, k - 1)
  }

  /** a >> k */
  function Shr(a: nat, k: nat): nat {
    if k == 0 then a else Shr(a / 2, k - 1)
  }

  /** Python's int.bit_length() */
  function BitLength(a: nat): nat {
    if a == 0 then 0 else 1 + BitLength(a / 2)
  }

  lemma {:induction false} XorHalf(a: nat, b: nat)
    ensures Xor(a, b) / 2 == Xor(a / 2, b / 2)
    ensures Xor(a, b) % 2 == if a % 2 == b % 2 then 0 else 1
  {
  }

  lemma {:induction false} XorComm(a: nat, b: nat)
    ensures Xor(a, b) == Xor(b, a)
    decreases a + b
  {
    if a > 0 || b > 0 {
      XorComm(a / 2, b / 2);
    }
  }

  lemma {:induction false} XorAssoc(a: nat, b: nat, c: nat)
    ensures Xor(a, Xor(b, c)) == Xor(Xor(a, b), c)
    decreases a + b + c
  {
    if a > 0 || b > 0 || c > 0 {
      XorAssoc(a / 2, b / 2, c / 2);
      XorHalf(a, b);
      XorHalf(b, c);
      XorHalf(a, Xor(b, c));
      XorHalf(Xor(a, b), c);
    }
  }

  lemma {:induction false} XorZero(a: nat)
    ensures Xor(a, 0) == a && Xor(0, a) == a
  {
    if a > 0 {
      XorZero(a / 2);
    }
  }

  lemma {:induction false} XorSelf(a: nat)
    ensures Xor(a, a) == 0
  {
    if a > 0 {
      XorSelf(a / 2);
    }
  }

  lemma {:induction false} XorBound(a: nat, b: nat, k: nat)
    requires a < Pow2(k) && b < Pow2(k)
    ensures Xor(a, b) < Pow2(k)
  {
    if k > 0 {
      XorBound(a / 2, b / 2, k - 1);
    }
  }

  lemma {:induction false} BitXor(a: nat, b: nat, i: nat)
    ensures Bit(Xor(a, b), i) == (Bit(a, i) != Bit(b, i))
    decreases i
  {
    XorHalf(a, b);
    if i > 0 {
      BitXor(a / 2, b / 2, i - 1);
    }
  }

  /** Two numbers with the same bits are the same number. */
  lemma {:induction false} BitsDetermine(a: nat, b: nat)
    requires forall i: nat :: Bit(a, i) == Bit(b, i)
    ensures a == b
    decreases a + b
  {
    if a > 0 || b > 0 {
      assert Bit(a, 0) == Bit(b, 0);
      forall i: nat
        ensures Bit(a / 2, i) == Bit(b / 2, i)
      {
        assert Bit(a, i + 1) == Bit(b, i + 1);
      }
      BitsDetermine(a / 2, b / 2);
    }
  }

  lemma {:induction false} BitBound(a: nat, k: nat, i: nat)
    requires a < Pow2(k) && i >= k
    ensures !Bit(a, i)
  {
    if k > 0 {
      BitBound(a / 2, k - 1, i - 1);
    } else if i > 0 {
      BitBound(0, 0, i - 1);
    }
  }

  lemma {:induction false} BitShl(a: nat, k: nat, i: nat)
    ensures Bit(Shl(a, k), i) == (i >= k && Bit(a, i - k))
    decreases k
  {
    if k > 0 && i > 0 {
      BitShl(a, k - 1, i - 1);
    }
  }

  lemma {:induction false} ShlBounds(m: nat, n: nat, k: nat)
    ensures m < Pow2(n) ==> Shl(m, k) < Pow2(n + k)
    ensures m >= Pow2(n) ==> Shl(m, k) >= Pow2(n + k)
    decreases k
  {
    if k > 0 {
      ShlBounds(m, n, k - 1);
    }
  }

  lemma {:induction false} ShlOne(k: nat)
    ensures Shl(1, k) == Pow2(k) && Shl(0, k) == 0
  {
    if k > 0 {
      ShlOne(k - 1);
    }
  }

  lemma XorStep(a: nat, x: nat, b: nat, y: nat)
    requires x < 2 && y < 2
    ensures Xor(2 * a + x, 2 * b + y) == 2 * Xor(a, b) + (if x == y then 0 else 1)
  {
    assert (2 * a + x) / 2 == a && (2 * b + y) / 2 == b;
  }

  /** x ^ (1 << i) adds or removes the power of two. */
  lemma {:induction false} FlipOne(a: nat, i: nat)
    ensures Xor(a, Pow2(i)) == if Bit(a, i) then a - Pow2(i) else a + Pow2(i)
    decreases i
  {
    if i == 0 {
      XorZero(a / 2);
    } else {
      FlipOne(a / 2, i - 1);
      assert Pow2(i) / 2 == Pow2(i - 1);
    }
  }

  lemma {:induction false} Pow2Increases(i: nat, j: nat)
    requires i < j
    ensures 2 * Pow2(i) <= Pow2(j)
  {
    if i + 1 < j {
      Pow2Increases(i, j - 1);
    }
  }

  lemma {:induction false} BitTop(a: nat, n: nat)
    requires a < 2 * Pow2(n)
    ensures Bit(a, n) <==> a >= Pow2(n)
    decreases n
  {
    if n > 0 {
      BitTop(a / 2, n - 1);
    }
  }

  /** A leading bit the two numbers share cancels. */
  lemma {:induction false} XorTopCancels(a: nat, b: nat, n: nat)
    requires Pow2(n) <= a < 2 * Pow2(n) && Pow2(n) <= b < 2 * Pow2(n)
    ensures Xor(a, b) < Pow2(n)
  {
    XorHalf(a, b);
    if n == 0 {
      XorSelf(1);
    } else {
      XorTopCancels(a / 2, b / 2, n - 1);
    }
  }

  /** Flipping the same bits twice changes nothing. */
  lemma {:induction false} XorReduce(p: nat, q: nat, r: nat)
    ensures Xor(Xor(p, r), Xor(q, r)) == Xor(p, q)
    ensures Xor(Xor(p, r), q) == Xor(Xor(p, q), r) == Xor(p, Xor(q, r))
  {
    XorAssoc(p, r, q);
    XorAssoc(p, q, r);
    XorComm(q, r);
    XorAssoc(p, r, Xor(q, r));
    XorAssoc(r, r, q);
    XorSelf(r);
    XorZero(q);
  }

  /** Bitwise or, the operator | of both programs. */
  function Or(a: nat, b: nat): nat
    decreases a + b
  {
    if a == 0 && b == 0 then 0
    else if a % 2 == 0 && b % 2 == 0 then 2 * Or(a / 2, b / 2)
    else 2 * Or(a / 2, b / 2) + 1
  }

  /** Below the shift there is nothing to carry. */
  lemma {:induction false} OrDisjoint(a: nat, k: nat, b: nat)
    requires b < Pow2(k)
    ensures Or(Shl(a, k), b) == Xor(Shl(a, k), b) == Shl(a, k) + b
    decreases k
  {
    if k == 0 {
      OrZero(a);
      XorZero(a);
    } else {
      OrDisjoint(a, k - 1, b / 2);
      XorHalf(Shl(a, k), b);
    }
  }

  lemma {:induction false} OrZero(a: nat)
    ensures Or(a, 0) == a && Or(0, a) == a
  {
    if a > 0 {
      OrZero(a / 2);
    }
  }

  lemma {:induction false} BitLengthBounds(a: nat)
    requires a > 0
    ensures BitLength(a) >= 1 && Pow2(BitLength(a) - 1) <= a < Pow2(BitLength(a))
  {
    if a > 1 {
      BitLengthBounds(a / 2);
    }
  }

  lemma {:induction false} BitLengthIs(a: nat, n: nat)
    requires Pow2(n) <= a < 2 * Pow2(n)
    ensures BitLength(a) == n + 1
  {
    if n > 0 {
      BitLengthIs(a / 2, n - 1);
    }
  }

  lemma {:induction false} BitLengthBelow(a: nat, n: nat)
    ensures BitLength(a) <= n <==> a < Pow2(n)
    decreases n
  {
    if n > 0 && a > 0 {
      BitLengthBelow(a / 2, n - 1);
    }
  }

  /** Clearing everything from bit k up leaves the low k bits. */
  lemma {:induction false} LowBits(v: nat, k: nat)
    ensures Xor(v, Shl(Shr(v, k), k)) < Pow2(k)
    decreases k
  {
    if k == 0 {
      XorSelf(v);
    } else {
      LowBits(v / 2, k - 1);
      XorHalf(v, Shl(Shr(v, k), k));
    }
  }

  lemma {:induction false} BitShr(v: nat, k: nat, i: nat)
    ensures Bit(Shr(v, k), i) == Bit(v, k + i)
    decreases k
  {
    if k > 0 {
      BitShr(v / 2, k - 1, i);
    }
  }

  lemma {:induction false} ShrLength(v: nat, k: nat, n: nat)
    requires BitLength(v) <= n + k
    ensures BitLength(Shr(v, k)) <= n
    decreases k
  {
    if k > 0 {
      ShrLength(v / 2, k - 1, n);
    }
  }

  lemma {:induction false} ShrPow2(n: nat, k: nat)
    requires k <= n
    ensures Shr(Pow2(n), k) == Pow2(n - k)
    decreases k
  {
    if k > 0 {
      assert Pow2(n) / 2 == Pow2(n - 1);
      ShrPow2(n - 1, k - 1);
    }
  }

  lemma {:induction false} BitPow2(k: nat, i: nat)
    ensures Bit(Pow2(k), i) == (i == k)
    decreases k
  {
    if k == 0 {
      if i > 0 {
        BitBound(0, 0, i - 1);
      }
    } else {
      assert Pow2(k) / 2 == Pow2(k - 1) && Pow2(k) % 2 == 0;
      if i > 0 {
        BitPow2(k - 1, i - 1);
      }
    }
  }

  lemma {:induction false} BitOr(a: nat, b: nat, i: nat)
    ensures Bit(Or(a, b), i) == (Bit(a, i) || Bit(b, i))
    decreases i
  {
    OrHalf(a, b);
    if i > 0 {
      BitOr(a / 2, b / 2, i - 1);
    }
  }

  lemma {:induction false} OrHalf(a: nat, b: nat)
    ensures Or(a, b) / 2 == Or(a / 2, b / 2)
    ensures Or(a, b) % 2 == if a % 2 == 0 && b % 2 == 0 then 0 else 1
  {
  }

  lemma {:induction false} OrBound(a: nat, b: nat, k: nat)
    requires a < Pow2(k) && b < Pow2(k)
    ensures Or(a, b) < Pow2(k)
  {
    if k > 0 {
      OrBound(a / 2, b / 2, k - 1);
    }
  }
}
