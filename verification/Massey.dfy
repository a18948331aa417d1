/**
  Berlekamp-Massey as a state machine, one step a syndrome, for a sequence of any
  length: what every step keeps, and why no shorter register exists.
 */
module Massey {
  import opened Bits
  import opened Gf
  import opened Poly

  // ---------- feedback registers ----------

  /** Sum of p[i] * s[n - i]: how far p is from predicting s[n]. */
  ghost function Disc(p: Poly, s: seq<byte>, n: int): byte
    decreases p
  {
    if p == [] then 0 else Add(Mul(p[0], At(s, n)), Disc(p[1..], s, n - 1))
  }

  /** p, of length at most the given length, generates the first n terms of s. */
  ghost predicate Register(p: Poly, length: nat, s: seq<byte>, n: nat) {
    && 1 <= |p| <= length + 1
    && p[0] == 1
    && forall j | length <= j < n :: Disc(p, s, j) == 0
  }

  lemma {:induction false} DiscSum(p: Poly, q: Poly, s: seq<byte>, n: int)
    ensures Disc(Sum(p, q), s, n) == Add(Disc(p, s, n), Disc(q, s, n))
    decreases p
  {
    if p == [] {
      AddZero(Disc(q, s, n));
    } else if q == [] {
      AddZero(Disc(p, s, n));
    } else {
      DiscSum(p[1..], q[1..], s, n - 1);
      DistributesRight(At(s, n), p[0], q[0]);
      AddSwap(Mul(p[0], At(s, n)), Mul(q[0], At(s, n)), Disc(p[1..], s, n - 1), Disc(q[1..], s, n - 1));
    }
  }

  lemma {:induction false} DiscShift(k: nat, p: Poly, s: seq<byte>, n: int)
    ensures Disc(Shift(k, p), s, n) == Disc(p, s, n - k)
    decreases k
  {
    if k > 0 {
      DiscShift(k - 1, p, s, n - 1);
      AddZero(Disc(p, s, n - k));
    }
  }

  lemma {:induction false} DiscScale(c: byte, p: Poly, s: seq<byte>, n: int)
    ensures Disc(Scale(c, p), s, n) == Mul(c, Disc(p, s, n))
    decreases p
  {
    if p != [] {
      DiscScale(c, p[1..], s, n - 1);
      MulAssoc(c, p[0], At(s, n));
      Distributes(c, Mul(p[0], At(s, n)), Disc(p[1..], s, n - 1));
    }
  }

  /** The update lam + c * x^k * prev, as a discrepancy. */
  lemma DiscUpdate(lam: Poly, c: byte, k: nat, prev: Poly, s: seq<byte>, n: int)
    ensures Disc(Sum(lam, Shift(k, Scale(c, prev))), s, n) == Add(Disc(lam, s, n), Mul(c, Disc(prev, s, n - k)))
  {
    DiscSum(lam, Shift(k, Scale(c, prev)), s, n);
    DiscShift(k, Scale(c, prev), s, n);
    DiscScale(c, prev, s, n - k);
  }

  // ---------- Massey's length-change bound ----------

  /** Sum of p[i] * q[k] * s[n - i - k]. */
  ghost function DoubleDisc(p: Poly, q: Poly, s: seq<byte>, n: int): byte
    decreases p
  {
    if p == [] then 0 else Add(Mul(p[0], Disc(q, s, n)), DoubleDisc(p[1..], q, s, n - 1))
  }

  lemma {:induction false} DoubleDiscPeel(p: Poly, q: Poly, s: seq<byte>, n: int)
    requires q != []
    ensures DoubleDisc(p, q, s, n) == Add(Mul(q[0], Disc(p, s, n)), DoubleDisc(p, q[1..], s, n - 1))
    decreases p
  {
    if p == [] {
      AddZero(0);
    } else {
      DoubleDiscPeel(p[1..], q, s, n - 1);
      var a, b, sn := p[0], q[0], At(s, n);
      var t, r, d := Disc(q[1..], s, n - 1), Disc(p[1..], s, n - 1), DoubleDisc(p[1..], q[1..], s, n - 2);
      Distributes(a, Mul(b, sn), t);
      Distributes(b, Mul(a, sn), r);
      MulAssoc(a, b, sn);
      MulComm(a, b);
      MulAssoc(b, a, sn);
      AddSwap(Mul(a, Mul(b, sn)), Mul(a, t), Mul(b, r), d);
    }
  }

  /** The two orders of summation agree. */
  lemma {:induction false} DoubleDiscSymmetric(p: Poly, q: Poly, s: seq<byte>, n: int)
    ensures DoubleDisc(p, q, s, n) == DoubleDisc(q, p, s, n)
    decreases p
  {
    if p == [] {
      DoubleDiscEmpty(q, s, n);
    } else {
      DoubleDiscPeel(q, p, s, n);
      DoubleDiscSymmetric(p[1..], q, s, n - 1);
    }
  }

  lemma {:induction false} DoubleDiscEmpty(q: Poly, s: seq<byte>, n: int)
    ensures DoubleDisc(q, [], s, n) == 0
    decreases q
  {
    if q != [] {
      DoubleDiscEmpty(q[1..], s, n - 1);
      AddZero(0);
    }
  }

  lemma {:induction false} DoubleDiscZero(p: Poly, q: Poly, s: seq<byte>, n: int)
    requires forall j | n - |p| < j <= n :: Disc(q, s, j) == 0
    ensures DoubleDisc(p, q, s, n) == 0
    decreases p
  {
    if p != [] {
      DoubleDiscZero(p[1..], q, s, n - 1);
      AddZero(0);
    }
  }

  /** If lam fails at n, every register that succeeds there has length at least n + 1 - length. */
  lemma {:induction false} LengthChange(lam: Poly, length: nat, q: Poly, other: nat, s: seq<byte>, n: nat)
    requires Register(lam, length, s, n) && Disc(lam, s, n) != 0
    requires Register(q, other, s, n + 1)
    ensures other >= n + 1 - length
  {
    if other + length <= n {
      DoubleDiscZero(lam, q, s, n);
      DoubleDiscSymmetric(lam, q, s, n);
      DoubleDiscZero(q[1..], lam, s, n - 1);
      MulOne(Disc(lam, s, n));
      AddZero(Disc(lam, s, n));
    }
  }

  // ---------- the algorithm ----------

  /** The variables of the loop; prev is the register before the last length change. */
  datatype State = State(lam: Poly, prev: Poly, length: nat, shift: nat, lastD: byte)

  const START := State([1], [1], 0, 1, 1)

  ghost function Step(b: State, s: seq<byte>, n: nat): State
    requires b.lastD != 0
  {
    var d := Disc(b.lam, s, n);
    if d == 0 then b.(shift := b.shift + 1)
    else
      var lam := Sum(b.lam, Shift(b.shift, Scale(Div(d, b.lastD), b.prev)));
      if 2 * b.length <= n then State(lam, b.lam, n + 1 - b.length, 1, d)
      else b.(lam := lam, shift := b.shift + 1)
  }

  /** The state after the first n syndromes. */
  ghost function Run(s: seq<byte>, n: nat): (b: State)
    ensures b.lastD != 0
  {
    if n == 0 then START else Step(Run(s, n - 1), s, n - 1)
  }

  /** What every step keeps, n syndromes in: the current register is right on them,
      and the previous one, of length m + 1 - length, first failed at m = n - shift. */
  ghost predicate Invariant(b: State, s: seq<byte>, n: nat) {
    && Register(b.lam, b.length, s, n)
    && b.length <= n
    && 1 <= b.shift <= n + 1
    && b.lastD != 0
    && |b.prev| >= 1
    && |b.prev| + b.shift + b.length <= n + 2
    && (b.shift == n + 1 ==> b.length == 0)
    && (b.shift <= n ==> Disc(b.prev, s, n - b.shift) == b.lastD)
    && forall j | n - b.shift + 1 - b.length <= j < n - b.shift :: Disc(b.prev, s, j) == 0
  }

  ghost predicate Minimal(length: nat, s: seq<byte>, n: nat) {
    forall q, other: nat | Register(q, other, s, n) :: other >= length
  }

  /** The correction removes the new discrepancy and brings back no earlier one. */
  lemma {:induction false} UpdateCancels(b: State, s: seq<byte>, n: nat, j: nat)
    requires Invariant(b, s, n) && Disc(b.lam, s, n) != 0 && Step(b, s, n).length <= j <= n
    ensures Disc(Step(b, s, n).lam, s, j) == 0
  {
    var d := Disc(b.lam, s, n);
    var c := Div(d, b.lastD);
    DiscUpdate(b.lam, c, b.shift, b.prev, s, j);
    if j < n {
      PrevStill(b, s, n, j);
      MulNonzero(c, 0);
      AddZero(0);
    } else {
      assert b.shift <= n;
      MulDiv(d, b.lastD);
      AddZero(d);
    }
  }

  /** Below the new discrepancy neither register fails where the update adds them. */
  lemma {:induction false} PrevStill(b: State, s: seq<byte>, n: nat, j: nat)
    requires Invariant(b, s, n) && Disc(b.lam, s, n) != 0 && Step(b, s, n).length <= j < n
    ensures Disc(b.lam, s, j) == 0 && Disc(b.prev, s, j - b.shift) == 0
  {
  }

  lemma {:induction false} UpdateKeeps(b: State, s: seq<byte>, n: nat)
    requires Invariant(b, s, n) && Disc(b.lam, s, n) != 0
    ensures Invariant(Step(b, s, n), s, n + 1)
  {
    var c := Div(Disc(b.lam, s, n), b.lastD);
    var t := Step(b, s, n);
    forall j | t.length <= j < n + 1
      ensures Disc(t.lam, s, j) == 0
    {
      UpdateCancels(b, s, n, j);
    }
    AddZero(1);
    assert At(t.lam, 0) == Add(At(b.lam, 0), At(Shift(b.shift, Scale(c, b.prev)), 0));
  }

  lemma StepKeeps(b: State, s: seq<byte>, n: nat)
    requires Invariant(b, s, n) && Minimal(b.length, s, n)
    ensures Invariant(Step(b, s, n), s, n + 1)
    ensures Minimal(Step(b, s, n).length, s, n + 1)
  {
    if Disc(b.lam, s, n) != 0 {
      UpdateKeeps(b, s, n);
    }
    var n1, length := n + 1, Step(b, s, n).length;
    forall q, other: nat | Register(q, other, s, n1)
      ensures other >= length
    {
      assert Register(q, other, s, n);
      if Disc(b.lam, s, n) != 0 {
        LengthChange(b.lam, b.length, q, other, s, n);
      }
    }
  }

  ghost predicate Kept(b: State, s: seq<byte>, n: nat) {
    Invariant(b, s, n) && Minimal(b.length, s, n)
  }

  ghost predicate RunKept(s: seq<byte>, n: nat) {
    Kept(Run(s, n), s, n)
  }

  lemma {:induction false} RunKeeps(s: seq<byte>, m: nat, n: nat)
    requires n == m + 1 && RunKept(s, m)
    ensures RunKept(s, n)
  {
    StepKeeps(Run(s, m), s, m);
  }

  lemma {:induction false} StartKeeps(s: seq<byte>, n: nat)
    requires n == 0
    ensures RunKept(s, n)
  {
  }

  lemma {:induction false} AlwaysKept(s: seq<byte>, n: nat)
    ensures RunKept(s, n)
  {
    if n == 0 {
      StartKeeps(s, n);
    } else {
      AlwaysKept(s, n - 1);
      RunKeeps(s, n - 1, n);
    }
  }

  /** Berlekamp-Massey is correct and minimal after every prefix of every sequence. */
  lemma RunCorrect(s: seq<byte>, n: nat)
    ensures Invariant(Run(s, n), s, n)
    ensures Register(Run(s, n).lam, Run(s, n).length, s, n)
    ensures Minimal(Run(s, n).length, s, n)
  {
    AlwaysKept(s, n);
  }
}
