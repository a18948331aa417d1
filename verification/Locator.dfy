/**
  Syndromes as power sums over error locators. Two facts carry everything:
  consecutive power sums determine their weights (Vandermonde, by elimination),
  and a register acts on a power sum by its value at the inverse locators.
 */
module Locator {
  import opened Bits
  import opened Gf
  import opened Poly
  import opened Massey

  /** Sum of cs[i] * xs[i]^j. */
  ghost function PowerSum(cs: seq<byte>, xs: seq<byte>, j: nat): byte
    requires |cs| == |xs|
    decreases xs
  {
    if xs == [] then 0 else Add(Mul(cs[0], Power(xs[0], j)), PowerSum(cs[1..], xs[1..], j))
  }

  ghost predicate Locators(xs: seq<byte>) {
    Distinct(xs) && forall i | 0 <= i < |xs| :: xs[i] != 0
  }

  /** s[n] is the power sum of order n + 1, as the decoder numbers its syndromes. */
  ghost predicate IsPowerSum(s: seq<byte>, cs: seq<byte>, xs: seq<byte>) {
    |cs| == |xs| && forall n | 0 <= n < |s| :: s[n] == PowerSum(cs, xs, n + 1)
  }

  function Ones(n: nat): (cs: seq<byte>)
    ensures |cs| == n && forall i | 0 <= i < n :: cs[i] == 1
  {
    if n == 0 then [] else [1] + Ones(n - 1)
  }

  // ---------- consecutive power sums determine the weights ----------

  /** cs[i] * (xs[i] + y): the weights left when y is eliminated. */
  ghost function Eliminate(cs: seq<byte>, xs: seq<byte>, y: byte): (r: seq<byte>)
    requires |cs| == |xs|
    ensures |r| == |xs| && forall i | 0 <= i < |xs| :: r[i] == Mul(cs[i], Add(xs[i], y))
  {
    if xs == [] then [] else [Mul(cs[0], Add(xs[0], y))] + Eliminate(cs[1..], xs[1..], y)
  }

  lemma {:induction false} EliminateSum(cs: seq<byte>, xs: seq<byte>, y: byte, j: nat)
    requires |cs| == |xs|
    ensures PowerSum(Eliminate(cs, xs, y), xs, j) == Add(PowerSum(cs, xs, j + 1), Mul(y, PowerSum(cs, xs, j)))
    decreases xs
  {
    if xs == [] {
      AddZero(0);
    } else {
      EliminateSum(cs[1..], xs[1..], y, j);
      var c, x, p := cs[0], xs[0], Power(xs[0], j);
      var u, v := PowerSum(cs[1..], xs[1..], j + 1), PowerSum(cs[1..], xs[1..], j);
      MulAssoc(c, Add(x, y), p);
      DistributesRight(p, x, y);
      Distributes(c, Mul(x, p), Mul(y, p));
      MulAssoc(c, y, p);
      MulComm(c, y);
      MulAssoc(y, c, p);
      Distributes(y, Mul(c, p), v);
      AddSwap(Mul(c, Mul(x, p)), Mul(y, Mul(c, p)), u, Mul(y, v));
    }
  }

  /** Power sums that vanish at as many consecutive orders as there are locators have zero weights. */
  lemma {:induction false} Vandermonde(cs: seq<byte>, xs: seq<byte>, b: nat)
    requires |cs| == |xs| && Locators(xs)
    requires forall j | b <= j < b + |xs| :: PowerSum(cs, xs, j) == 0
    ensures IsZero(cs)
    decreases xs
  {
    if xs != [] {
      var x, c1, x1 := xs[0], cs[1..], xs[1..];
      var es := Eliminate(cs, xs, x);
      assert es[1..] == Eliminate(c1, x1, x);
      forall j | b <= j < b + |x1|
        ensures PowerSum(es[1..], x1, j) == 0
      {
        EliminateSum(cs, xs, x, j);
        AddZero(x);
        AddZero(PowerSum(es[1..], x1, j));
        AddZero(0);
      }
      Vandermonde(es[1..], x1, b);
      forall i | 0 <= i < |c1|
        ensures c1[i] == 0
      {
        assert es[i + 1] == es[1..][i] == 0;
        AddEqualsZero(xs[i + 1], x);
        MulNonzero(cs[i + 1], Add(xs[i + 1], x));
      }
      ZeroWeights(c1, x1, b);
      PowerNonzero(x, b);
      MulNonzero(cs[0], Power(x, b));
      AddZero(Mul(cs[0], Power(x, b)));
      assert PowerSum(cs, xs, b) == 0;
    }
  }

  lemma {:induction false} ZeroWeights(cs: seq<byte>, xs: seq<byte>, j: nat)
    requires |cs| == |xs| && IsZero(cs)
    ensures PowerSum(cs, xs, j) == 0
    decreases xs
  {
    if xs != [] {
      ZeroWeights(cs[1..], xs[1..], j);
      AddZero(0);
    }
  }

  // ---------- registers acting on power sums ----------

  /** cs[i] * p(1 / xs[i]) */
  ghost function Weighted(p: Poly, cs: seq<byte>, xs: seq<byte>): (r: seq<byte>)
    requires |cs| == |xs| && forall i | 0 <= i < |xs| :: xs[i] != 0
    ensures |r| == |xs| && forall i | 0 <= i < |xs| :: r[i] == Mul(cs[i], Eval(p, Inv(xs[i])))
    decreases xs
  {
    if xs == [] then [] else [Mul(cs[0], Eval(p, Inv(xs[0])))] + Weighted(p, cs[1..], xs[1..])
  }

  lemma {:induction false} WeightedPeel(p: Poly, cs: seq<byte>, xs: seq<byte>, j: nat)
    requires |cs| == |xs| && forall i | 0 <= i < |xs| :: xs[i] != 0
    requires p != []
    ensures PowerSum(Weighted(p, cs, xs), xs, j + 1)
         == Add(Mul(p[0], PowerSum(cs, xs, j + 1)), PowerSum(Weighted(p[1..], cs, xs), xs, j))
    decreases xs
  {
    if xs == [] {
      AddZero(0);
    } else {
      WeightedPeel(p, cs[1..], xs[1..], j);
      var a, c, x, y, e := p[0], cs[0], xs[0], Inv(xs[0]), Eval(p[1..], Inv(xs[0]));
      var u, v := PowerSum(cs[1..], xs[1..], j + 1), PowerSum(Weighted(p[1..], cs[1..], xs[1..]), xs[1..], j);
      PeelTerm(a, c, x, e, j);
      Distributes(a, Mul(c, Power(x, j + 1)), u);
      AddSwap(Mul(a, Mul(c, Power(x, j + 1))), Mul(Mul(c, e), Power(x, j)), Mul(a, u), v);
    }
  }

  /** c (a + e / x) x^(j+1) = a c x^(j+1) + c e x^j */
  lemma PeelTerm(a: byte, c: byte, x: byte, e: byte, j: nat)
    requires x != 0
    ensures Mul(Mul(c, Add(a, Mul(Inv(x), e))), Power(x, j + 1))
         == Add(Mul(a, Mul(c, Power(x, j + 1))), Mul(Mul(c, e), Power(x, j)))
  {
    var y, p, q := Inv(x), Power(x, j), Power(x, j + 1);
    Distributes(c, a, Mul(y, e));
    DistributesRight(q, Mul(c, a), Mul(c, Mul(y, e)));
    MulComm(c, a);
    MulAssoc(a, c, q);
    // y * q = p
    MulInv(x);
    MulAssoc(y, x, p);
    MulOne(p);
    MulComm(y, e);
    MulAssoc(c, e, y);
    MulAssoc(Mul(c, e), y, q);
  }

  lemma {:induction false} EmptyWeights(cs: seq<byte>, xs: seq<byte>, j: nat)
    requires |cs| == |xs| && forall i | 0 <= i < |xs| :: xs[i] != 0
    ensures PowerSum(Weighted([], cs, xs), xs, j) == 0
  {
    VanishingWeights([], cs, xs);
    ZeroWeights(Weighted([], cs, xs), xs, j);
  }

  lemma {:induction false} DiscOfPowerSum(p: Poly, s: seq<byte>, cs: seq<byte>, xs: seq<byte>, j: int)
    requires IsPowerSum(s, cs, xs) && forall i | 0 <= i < |xs| :: xs[i] != 0
    requires |p| - 1 <= j < |s|
    ensures Disc(p, s, j) == PowerSum(Weighted(p, cs, xs), xs, j + 1)
    decreases p
  {
    if p == [] {
      EmptyWeights(cs, xs, j + 1);
    } else {
      WeightedPeel(p, cs, xs, j);
      DiscOfPowerSum(p[1..], s, cs, xs, j - 1);
    }
  }

  // ---------- the locator polynomial ----------

  /** Product of (1 - xs[i] * x). */
  ghost function Sigma(xs: seq<byte>): (p: Poly)
    ensures |p| == |xs| + 1 && p[0] == 1
  {
    if xs == [] then [1]
    else
      var q := Sigma(xs[1..]);
      var r := Sum(q, Shift(1, Scale(xs[0], q)));
      assert At(r, 0) == Add(At(q, 0), At(Shift(1, Scale(xs[0], q)), 0));
      AddZero(1);
      r
  }

  lemma {:induction false} SigmaEval(xs: seq<byte>, y: byte)
    requires xs != []
    ensures Eval(Sigma(xs), y) == Mul(Add(1, Mul(xs[0], y)), Eval(Sigma(xs[1..]), y))
  {
    var q := Sigma(xs[1..]);
    var e := Eval(q, y);
    var sc := Scale(xs[0], q);
    EvalSum(q, Shift(1, sc), y);
    EvalScale(xs[0], q, y);
    assert Shift(1, sc) == [0] + sc;
    assert Shift(1, sc)[1..] == sc;
    AddZero(Mul(y, Eval(sc, y)));
    MulComm(xs[0], y);
    MulAssoc(y, xs[0], e);
    DistributesRight(e, 1, Mul(xs[0], y));
    MulOne(e);
  }

  lemma {:induction false} SigmaRoot(xs: seq<byte>, i: nat)
    requires i < |xs| && xs[i] != 0
    ensures Eval(Sigma(xs), Inv(xs[i])) == 0
  {
    var y := Inv(xs[i]);
    SigmaEval(xs, y);
    if i == 0 {
      MulInv(xs[0]);
      AddZero(1);
    } else {
      SigmaRoot(xs[1..], i - 1);
    }
    MulNonzero(Add(1, Mul(xs[0], y)), Eval(Sigma(xs[1..]), y));
  }

  /** The locator polynomial generates its power sums, whatever the weights. */
  lemma {:induction false} SigmaGenerates(s: seq<byte>, cs: seq<byte>, xs: seq<byte>)
    requires IsPowerSum(s, cs, xs) && forall i | 0 <= i < |xs| :: xs[i] != 0
    ensures Register(Sigma(xs), |xs|, s, |s|)
  {
    forall i | 0 <= i < |xs|
      ensures Eval(Sigma(xs), Inv(xs[i])) == 0
    {
      SigmaRoot(xs, i);
    }
    VanishingGenerates(Sigma(xs), s, cs, xs);
  }

  /** A polynomial that vanishes at every inverse locator predicts the power sums. */
  lemma {:induction false} VanishingGenerates(p: Poly, s: seq<byte>, cs: seq<byte>, xs: seq<byte>)
    requires IsPowerSum(s, cs, xs) && VanishesAt(p, xs) && p != []
    ensures forall j | |p| - 1 <= j < |s| :: Disc(p, s, j) == 0
  {
    forall j | |p| - 1 <= j < |s|
      ensures Disc(p, s, j) == 0
    {
      DiscOfPowerSum(p, s, cs, xs, j);
      VanishingWeights(p, cs, xs);
      ZeroWeights(Weighted(p, cs, xs), xs, j + 1);
    }
  }

  lemma {:induction false} VanishingWeights(p: Poly, cs: seq<byte>, xs: seq<byte>)
    requires |cs| == |xs| && VanishesAt(p, xs)
    ensures IsZero(Weighted(p, cs, xs))
  {
    forall i | 0 <= i < |xs|
      ensures Weighted(p, cs, xs)[i] == 0
    {
      MulNonzero(cs[i], 0);
    }
  }

  ghost function Inverses(xs: seq<byte>): (ys: seq<byte>)
    requires forall i | 0 <= i < |xs| :: xs[i] != 0
    ensures |ys| == |xs| && forall i | 0 <= i < |xs| :: ys[i] == Inv(xs[i])
  {
    if xs == [] then [] else [Inv(xs[0])] + Inverses(xs[1..])
  }

  lemma InverseInjective(x: byte, y: byte)
    requires x != 0 && y != 0 && Inv(x) == Inv(y)
    ensures x == y
  {
    MulInv(x);
    MulInv(y);
    MulCancel(Inv(x), x, y);
  }

  lemma {:induction false} InversesDistinct(xs: seq<byte>)
    requires Locators(xs)
    ensures Distinct([0] + Inverses(xs)) && Distinct(Inverses(xs))
  {
    forall i, j | 0 <= i < j < |xs|
      ensures Inv(xs[i]) != Inv(xs[j])
    {
      if Inv(xs[i]) == Inv(xs[j]) {
        InverseInjective(xs[i], xs[j]);
      }
    }
    forall i | 0 <= i < |xs|
      ensures Inv(xs[i]) != 0
    {
      MulInv(xs[i]);
    }
  }

  /** p(1 / xs[i]) = 0 for every locator. */
  ghost predicate VanishesAt(p: Poly, xs: seq<byte>) {
    forall i | 0 <= i < |xs| :: xs[i] != 0 && Eval(p, Inv(xs[i])) == 0
  }

  lemma TooManyLocators(p: Poly, xs: seq<byte>)
    requires Locators(xs) && VanishesAt(p, xs) && |xs| >= |p|
    ensures IsZero(p)
  {
    InversesDistinct(xs);
    TooManyRoots(p, Inverses(xs));
  }

  /** A shortest register for v power sums with nonzero weights, over 2v syndromes
      or more, is their locator polynomial. */
  lemma {:induction false} ShortestIsSigma(lam: Poly, length: nat, s: seq<byte>, cs: seq<byte>, xs: seq<byte>)
    requires IsPowerSum(s, cs, xs) && Locators(xs) && 2 * |xs| <= |s|
    requires forall i | 0 <= i < |cs| :: cs[i] != 0
    requires Register(lam, length, s, |s|) && Minimal(length, s, |s|)
    ensures length == |xs| && lam == Sigma(xs)
  {
    SigmaGenerates(s, cs, xs);
    var ws := Weighted(lam, cs, xs);
    forall j | length + 1 <= j < length + 1 + |xs|
      ensures PowerSum(ws, xs, j) == 0
    {
      DiscOfPowerSum(lam, s, cs, xs, j - 1);
    }
    Vandermonde(ws, xs, length + 1);
    forall i | 0 <= i < |xs|
      ensures Eval(lam, Inv(xs[i])) == 0
    {
      assert ws[i] == 0;
      MulNonzero(cs[i], Eval(lam, Inv(xs[i])));
    }
    if |lam| <= |xs| {
      TooManyLocators(lam, xs);
    }
    SameRootsSameLocator(lam, xs);
  }

  /** Two locators of degree v with constant term 1 and the same v roots agree. */
  lemma {:induction false} SameRootsSameLocator(lam: Poly, xs: seq<byte>)
    requires |lam| == |xs| + 1 && lam[0] == 1 && Locators(xs) && VanishesAt(lam, xs)
    ensures lam == Sigma(xs)
  {
    var sg := Sigma(xs);
    var d := Sum(lam, sg);
    var roots := [0] + Inverses(xs);
    InversesDistinct(xs);
    forall i | 0 <= i < |roots|
      ensures Eval(d, roots[i]) == 0
    {
      EvalSum(lam, sg, roots[i]);
      if i == 0 {
        AddZero(1);
      } else {
        SigmaRoot(xs, i - 1);
      }
      AddZero(Eval(sg, roots[i]));
    }
    TooManyRoots(d, roots);
    forall i | 0 <= i < |lam|
      ensures lam[i] == sg[i]
    {
      assert At(d, i) == Add(At(lam, i), At(sg, i));
      AddEqualsZero(lam[i], sg[i]);
    }
  }

  // ---------- the converse: a splitting register gives the weights back ----------

  /** The weight of x that makes the first power sum come out as v. */
  ghost function SolveFirst(c1: seq<byte>, x1: seq<byte>, x: byte, v: byte): (c: byte)
    requires |c1| == |x1| && x != 0
    ensures PowerSum([c] + c1, [x] + x1, 1) == v
  {
    var rest := Add(v, PowerSum(c1, x1, 1));
    var c := Div(rest, x);
    MulDiv(rest, x);
    MulOne(x);
    AddCancel(v, PowerSum(c1, x1, 1));
    assert ([c] + c1)[1..] == c1 && ([x] + x1)[1..] == x1;
    assert Power(x, 1) == Mul(x, Power(x, 0)) == x;
    c
  }

  /** s[n + 1] + x * s[n] */
  ghost function Difference(s: seq<byte>, x: byte, n: nat): byte
    requires n + 1 < |s|
  {
    Add(s[n + 1], Mul(x, s[n]))
  }

  ghost function Differences(s: seq<byte>, x: byte): (t: seq<byte>)
    requires |s| > 0
    ensures |t| == |s| - 1 && forall n | 0 <= n < |t| :: t[n] == Difference(s, x, n)
  {
    seq(|s| - 1, n requires 0 <= n < |s| - 1 => Difference(s, x, n))
  }

  /** Eliminating the first locator leaves the others. */
  lemma {:induction false} FirstEliminated(cs: seq<byte>, xs: seq<byte>, j: nat)
    requires |cs| == |xs| > 0
    ensures PowerSum(Eliminate(cs[1..], xs[1..], xs[0]), xs[1..], j)
         == Add(PowerSum(cs, xs, j + 1), Mul(xs[0], PowerSum(cs, xs, j)))
  {
    var x := xs[0];
    EliminateSum(cs, xs, x, j);
    AddZero(x);
    assert Eliminate(cs, xs, x)[1..] == Eliminate(cs[1..], xs[1..], x);
    AddZero(PowerSum(Eliminate(cs[1..], xs[1..], x), xs[1..], j));
  }

  /** Term n is produced by the weights. */
  ghost predicate Produces(cs: seq<byte>, xs: seq<byte>, s: seq<byte>, n: nat)
    requires |cs| == |xs| && n < |s|
  {
    s[n] == PowerSum(cs, xs, n + 1)
  }

  /** The weights left after eliminating xs[0] produce the difference at n. */
  ghost predicate ProducesNext(cs: seq<byte>, xs: seq<byte>, s: seq<byte>, n: nat)
    requires |cs| == |xs| > 0 && n + 1 < |s|
  {
    Difference(s, xs[0], n) == PowerSum(Eliminate(cs[1..], xs[1..], xs[0]), xs[1..], n + 1)
  }

  lemma {:induction false} AgreeNext(cs: seq<byte>, xs: seq<byte>, s: seq<byte>, n: nat)
    requires |cs| == |xs| > 0 && n + 1 < |s| && Produces(cs, xs, s, n) && ProducesNext(cs, xs, s, n)
    ensures Produces(cs, xs, s, n + 1)
  {
    FirstEliminated(cs, xs, n + 1);
    var m := Mul(xs[0], s[n]);
    AddCancel(s[n + 1], m);
    AddCancel(PowerSum(cs, xs, n + 2), m);
  }

  lemma {:induction false} AgreeStepwise(cs: seq<byte>, xs: seq<byte>, s: seq<byte>, n: nat)
    requires |cs| == |xs| && n < |xs| <= |s| && Produces(cs, xs, s, 0)
    requires forall i: nat | i + 1 < |xs| :: ProducesNext(cs, xs, s, i)
    ensures Produces(cs, xs, s, n)
  {
    if n > 0 {
      AgreeStepwise(cs, xs, s, n - 1);
      assert ProducesNext(cs, xs, s, n - 1);
      AgreeNext(cs, xs, s, n - 1);
    }
  }

  /** Weights that produce given first values, found by eliminating xs[0]. */
  lemma {:induction false} Interpolate(xs: seq<byte>, s: seq<byte>) returns (cs: seq<byte>)
    requires Locators(xs) && |s| >= |xs|
    ensures |cs| == |xs| && forall n | 0 <= n < |xs| :: s[n] == PowerSum(cs, xs, n + 1)
    decreases xs
  {
    if xs == [] {
      return [];
    }
    var es := Interpolate(xs[1..], Differences(s, xs[0]));
    cs := Lift(es, xs, s);
  }

  lemma {:induction false} Lift(es: seq<byte>, xs: seq<byte>, s: seq<byte>) returns (cs: seq<byte>)
    requires Locators(xs) && |s| >= |xs| > 0 && |es| == |xs| - 1
    requires forall n | 0 <= n < |es| :: Differences(s, xs[0])[n] == PowerSum(es, xs[1..], n + 1)
    ensures |cs| == |xs| && forall n | 0 <= n < |xs| :: s[n] == PowerSum(cs, xs, n + 1)
  {
    var x, x1 := xs[0], xs[1..];
    var c1 := Divided(es, x1, x);
    cs := [SolveFirst(c1, x1, x, s[0])] + c1;
    assert cs[1..] == c1 && xs == [x] + x1;
    forall n: nat | n + 1 < |xs|
      ensures ProducesNext(cs, xs, s, n)
    {
      assert Differences(s, x)[n] == Difference(s, x, n);
    }
    forall n | 0 <= n < |xs|
      ensures s[n] == PowerSum(cs, xs, n + 1)
    {
      AgreeStepwise(cs, xs, s, n);
    }
  }

  ghost function Divided(es: seq<byte>, xs: seq<byte>, x: byte): (cs: seq<byte>)
    requires |es| == |xs| && forall i | 0 <= i < |xs| :: xs[i] != x
    ensures |cs| == |xs| && Eliminate(cs, xs, x) == es
  {
    if xs == [] then []
    else
      AddEqualsZero(xs[0], x);
      MulDiv(es[0], Add(xs[0], x));
      [Div(es[0], Add(xs[0], x))] + Divided(es[1..], xs[1..], x)
  }

  lemma {:induction false} DiscCongruent(p: Poly, s: seq<byte>, w: seq<byte>, n: int)
    requires forall k | k <= n :: At(s, k) == At(w, k)
    ensures Disc(p, s, n) == Disc(p, w, n)
    decreases p
  {
    if p != [] {
      DiscCongruent(p[1..], s, w, n - 1);
    }
  }

  /** Two sequences with a common register and as many equal first terms as its length are equal. */
  lemma {:induction false} SameStartSameSequence(lam: Poly, length: nat, s: seq<byte>, w: seq<byte>, n: nat)
    requires |s| == |w| && length <= n <= |s|
    requires Register(lam, length, s, |s|) && Register(lam, length, w, |s|)
    requires forall k | 0 <= k < length :: s[k] == w[k]
    ensures forall k | 0 <= k < n :: s[k] == w[k]
  {
    if n > length {
      SameStartSameSequence(lam, length, s, w, n - 1);
      assert Disc(lam, s, n - 1) == Disc(lam, w, n - 1) == 0;
      DiscCongruent(lam[1..], s, w, n - 2);
      MulOne(s[n - 1]);
      MulOne(w[n - 1]);
      var d := Disc(lam[1..], s, n - 2);
      AddCancel(s[n - 1], d);
      AddCancel(w[n - 1], d);
    }
  }

  ghost function Values(cs: seq<byte>, xs: seq<byte>, n: nat): (w: seq<byte>)
    requires |cs| == |xs|
    ensures |w| == n && IsPowerSum(w, cs, xs)
  {
    seq(n, k requires 0 <= k < n => PowerSum(cs, xs, k + 1))
  }

  /** A register with as many different inverse roots as its length explains the whole
      sequence as a power sum over them. */
  lemma SplittingRegister(lam: Poly, length: nat, s: seq<byte>, xs: seq<byte>) returns (cs: seq<byte>)
    requires Register(lam, length, s, |s|) && |xs| == length <= |s| && Locators(xs) && VanishesAt(lam, xs)
    ensures IsPowerSum(s, cs, xs)
  {
    cs := Interpolate(xs, s);
    var w := Values(cs, xs, |s|);
    VanishingGenerates(lam, w, cs, xs);
    SameStartSameSequence(lam, length, s, w, |s|);
  }

  lemma {:induction false} DropZeroWeight(cs: seq<byte>, xs: seq<byte>, i: nat, j: nat)
    requires |cs| == |xs| && i < |xs| && cs[i] == 0
    ensures PowerSum(cs, xs, j) == PowerSum(cs[..i] + cs[i + 1..], xs[..i] + xs[i + 1..], j)
    decreases xs
  {
    var c, x := cs[..i] + cs[i + 1..], xs[..i] + xs[i + 1..];
    if i == 0 {
      AddZero(PowerSum(cs[1..], xs[1..], j));
      assert c == cs[1..] && x == xs[1..];
    } else {
      DropZeroWeight(cs[1..], xs[1..], i - 1, j);
      assert c[1..] == cs[1..][..i - 1] + cs[1..][i..];
      assert x[1..] == xs[1..][..i - 1] + xs[1..][i..];
    }
  }

  /** In a minimal register no locator is idle. */
  lemma MinimalWeights(s: seq<byte>, cs: seq<byte>, xs: seq<byte>)
    requires IsPowerSum(s, cs, xs) && Locators(xs) && Minimal(|xs|, s, |s|)
    ensures forall i | 0 <= i < |cs| :: cs[i] != 0
  {
    forall i | 0 <= i < |cs|
      ensures cs[i] != 0
    {
      if cs[i] == 0 {
        var c, x := cs[..i] + cs[i + 1..], xs[..i] + xs[i + 1..];
        forall n | 0 <= n < |s|
          ensures s[n] == PowerSum(c, x, n + 1)
        {
          DropZeroWeight(cs, xs, i, n + 1);
        }
        SigmaGenerates(s, c, x);
      }
    }
  }

  ghost function Squares(xs: seq<byte>): (r: seq<byte>)
    ensures |r| == |xs| && forall i | 0 <= i < |xs| :: r[i] == Square(xs[i])
  {
    if xs == [] then [] else [Square(xs[0])] + Squares(xs[1..])
  }

  ghost function Idempotence(cs: seq<byte>): (r: seq<byte>)
    ensures |r| == |cs| && forall i | 0 <= i < |cs| :: r[i] == Add(cs[i], Square(cs[i]))
  {
    if cs == [] then [] else [Add(cs[0], Square(cs[0]))] + Idempotence(cs[1..])
  }

  lemma {:induction false} SquareOfSum(cs: seq<byte>, xs: seq<byte>, j: nat)
    requires |cs| == |xs|
    ensures PowerSum(Idempotence(cs), Squares(xs), j)
         == Add(PowerSum(cs, xs, 2 * j), Square(PowerSum(cs, xs, j)))
    decreases xs
  {
    if xs == [] {
      AddZero(0);
    } else {
      SquareOfSum(cs[1..], xs[1..], j);
      var c, x, u := cs[0], xs[0], PowerSum(cs[1..], xs[1..], j);
      SquarePower(x, j);
      var p := Power(x, 2 * j);
      DistributesRight(p, c, Square(c));
      SquareMul(c, Power(x, j));
      SquareAdd(Mul(c, Power(x, j)), u);
      AddSwap(Mul(c, p), Mul(Square(c), p), PowerSum(cs[1..], xs[1..], 2 * j), Square(u));
    }
  }

  /** Syndromes of a binary word: S_2j = S_j^2. */
  ghost predicate Frobenius(s: seq<byte>) {
    forall n: nat | 2 * n + 1 < |s| :: FrobeniusAt(s, n)
  }

  ghost predicate FrobeniusAt(s: seq<byte>, n: nat)
    requires 2 * n + 1 < |s|
  {
    s[2 * n + 1] == Square(s[n])
  }

  lemma {:induction false} SquaresAreLocators(xs: seq<byte>)
    requires Locators(xs)
    ensures Locators(Squares(xs))
  {
    var ys := Squares(xs);
    forall i, j | 0 <= i < j < |ys|
      ensures ys[i] != ys[j]
    {
      if ys[i] == ys[j] {
        SquareInjective(xs[i], xs[j]);
      }
    }
    forall i | 0 <= i < |ys|
      ensures ys[i] != 0
    {
      MulNonzero(xs[i], xs[i]);
    }
  }

  lemma IdempotenceVanishes(s: seq<byte>, cs: seq<byte>, xs: seq<byte>, n: nat)
    requires IsPowerSum(s, cs, xs) && Frobenius(s) && 2 * n + 1 < |s|
    ensures PowerSum(Idempotence(cs), Squares(xs), n + 1) == 0
  {
    SquareOfSum(cs, xs, n + 1);
    assert FrobeniusAt(s, n);
    AddEqualsZero(s[2 * n + 1], Square(s[n]));
  }

  /** For syndromes of a binary word the weights are all 1: the error values need no solving. */
  lemma {:induction false} BinaryWeights(s: seq<byte>, cs: seq<byte>, xs: seq<byte>)
    requires IsPowerSum(s, cs, xs) && Locators(xs) && 2 * |xs| <= |s| && Frobenius(s)
    requires forall i | 0 <= i < |cs| :: cs[i] != 0
    ensures cs == Ones(|xs|)
  {
    SquaresAreLocators(xs);
    forall j | 1 <= j < 1 + |xs|
      ensures PowerSum(Idempotence(cs), Squares(xs), j) == 0
    {
      IdempotenceVanishes(s, cs, xs, j - 1);
    }
    Vandermonde(Idempotence(cs), Squares(xs), 1);
    forall i | 0 <= i < |cs|
      ensures cs[i] == 1
    {
      assert Idempotence(cs)[i] == 0;
      AddEqualsZero(cs[i], Square(cs[i]));
      SquareFixed(cs[i]);
    }
  }
}
