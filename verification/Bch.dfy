/**
  The BCH(255, 179, t = 10) decoder on words of bits, bit i being the coefficient
  of x^i. Main result: decoding succeeds exactly on the words within t of a
  codeword, and returns that codeword.
 */
module Bch {
  import opened Bits
  import opened Gf
  import opened Poly
  import opened Massey
  import opened Locator

  const N: nat := 255
  const T: nat := 10
  const NSYND: nat := 2 * T

  type Word = seq<bool>

  // ---------- words ----------

  /** The indices below k that hold a one, ascending. */
  function Positions(w: Word, k: nat): (ps: seq<nat>)
    requires k <= |w|
    ensures |ps| <= k && forall i | 0 <= i < |ps| :: ps[i] < k
  {
    if k == 0 then [] else if w[k - 1] then Positions(w, k - 1) + [k - 1] else Positions(w, k - 1)
  }

  ghost predicate Ascending(ps: seq<nat>) {
    forall i, j | 0 <= i < j < |ps| :: ps[i] < ps[j]
  }

  lemma {:induction false} PositionsSpec(w: Word, k: nat)
    requires k <= |w|
    ensures Ascending(Positions(w, k)) && Distinct(Positions(w, k))
    ensures forall p | 0 <= p < k :: w[p] <==> p in Positions(w, k)
    ensures forall i | 0 <= i < |Positions(w, k)| :: w[Positions(w, k)[i]]
  {
    if k > 0 {
      PositionsSpec(w, k - 1);
      var qs := Positions(w, k - 1);
      var ps := qs + [k - 1];
      forall i, j | 0 <= i < j < |ps|
        ensures ps[i] < ps[j]
      {
        assert ps[i] == qs[i];
      }
      forall p: nat
        ensures p in ps <==> p in qs || p == k - 1
      {
      }
    }
  }

  function Support(w: Word): seq<nat> {
    Positions(w, |w|)
  }

  function XorWord(a: Word, b: Word): (c: Word)
    requires |a| == |b|
    ensures |c| == |a| && forall i | 0 <= i < |a| :: c[i] == (a[i] != b[i])
  {
    seq(|a|, i requires 0 <= i < |a| => a[i] != b[i])
  }

  /** Hamming distance over the first k bits. */
  function DistanceUpTo(a: Word, b: Word, k: nat): nat
    requires k <= |a| == |b|
  {
    if k == 0 then 0 else DistanceUpTo(a, b, k - 1) + (if a[k - 1] != b[k - 1] then 1 else 0)
  }

  function Distance(a: Word, b: Word): nat
    requires |a| == |b|
  {
    DistanceUpTo(a, b, |a|)
  }

  lemma {:induction false} DistanceIsSupport(a: Word, b: Word, k: nat)
    requires k <= |a| == |b|
    ensures DistanceUpTo(a, b, k) == |Positions(XorWord(a, b), k)|
  {
    if k > 0 {
      DistanceIsSupport(a, b, k - 1);
    }
  }

  lemma DistanceZero(a: Word, b: Word)
    requires |a| == |b| && Distance(a, b) == 0
    ensures a == b
  {
    var e := XorWord(a, b);
    DistanceIsSupport(a, b, |a|);
    PositionsSpec(e, |e|);
    assert forall i | 0 <= i < |a| :: e[i] == (a[i] != b[i]);
  }

  // ---------- syndromes ----------

  /** The inner loop of syndromes: r(alpha^j) over the first k bits. */
  ghost function SyndromeUpTo(w: Word, j: nat, k: nat): byte
    requires k <= |w|
  {
    if k == 0 then 0 else Add(SyndromeUpTo(w, j, k - 1), Term(w[k - 1], k - 1, j))
  }

  /** The contribution of bit i, (alpha^j)^i if it is set. */
  ghost function Term(bit: bool, i: nat, j: nat): byte {
    if bit then Power(Exp(j), i) else 0
  }

  ghost function Syndromes(w: Word): (s: seq<byte>)
    ensures |s| == NSYND
    ensures forall n | 0 <= n < NSYND :: s[n] == SyndromeUpTo(w, n + 1, |w|)
  {
    seq(NSYND, n requires 0 <= n < NSYND => SyndromeUpTo(w, n + 1, |w|))
  }

  ghost predicate IsCodeword(w: Word) {
    |w| == N && IsZero(Syndromes(w))
  }

  lemma {:induction false} SyndromeXor(a: Word, b: Word, j: nat, k: nat)
    requires k <= |a| == |b|
    ensures SyndromeUpTo(XorWord(a, b), j, k) == Add(SyndromeUpTo(a, j, k), SyndromeUpTo(b, j, k))
  {
    if k == 0 {
      AddZero(0);
    } else {
      SyndromeXor(a, b, j, k - 1);
      var i := k - 1;
      var s, t := Term(a[i], i, j), Term(b[i], i, j);
      AddZero(s);
      AddZero(t);
      AddSwap(SyndromeUpTo(a, j, i), s, SyndromeUpTo(b, j, i), t);
    }
  }

  lemma SyndromesOfSum(a: Word, b: Word)
    requires |a| == |b|
    ensures forall n | 0 <= n < NSYND ::
              Syndromes(XorWord(a, b))[n] == Add(Syndromes(a)[n], Syndromes(b)[n])
  {
    forall n | 0 <= n < NSYND
      ensures Syndromes(XorWord(a, b))[n] == Add(Syndromes(a)[n], Syndromes(b)[n])
    {
      SyndromeXor(a, b, n + 1, |a|);
    }
  }

  /** Adding a codeword changes no syndrome. */
  lemma SyndromesSeeErrorsOnly(r: Word, c: Word)
    requires |r| == |c| && IsCodeword(c)
    ensures Syndromes(XorWord(r, c)) == Syndromes(r)
  {
    SyndromesOfSum(r, c);
    forall n | 0 <= n < NSYND
      ensures Syndromes(XorWord(r, c))[n] == Syndromes(r)[n]
    {
      AddZero(Syndromes(r)[n]);
    }
  }

  ghost function LocatorsOf(ps: seq<nat>): (xs: seq<byte>)
    ensures |xs| == |ps| && forall i | 0 <= i < |ps| :: xs[i] == Exp(ps[i])
  {
    if ps == [] then [] else LocatorsOf(ps[..|ps| - 1]) + [Exp(ps[|ps| - 1])]
  }

  lemma LocatorsOfSupport(w: Word)
    requires |w| <= N
    ensures Locators(LocatorsOf(Support(w)))
  {
    var ps := Support(w);
    var xs := LocatorsOf(ps);
    PositionsSpec(w, |w|);
    forall i, j | 0 <= i < j < |xs|
      ensures xs[i] != xs[j]
    {
      assert ps[i] < ps[j];
      if Exp(ps[i]) == Exp(ps[j]) {
        ExpInjective(ps[i], ps[j]);
      }
    }
    forall i | 0 <= i < |xs|
      ensures xs[i] != 0
    {
      ExpNonzero(ps[i]);
    }
  }

  lemma {:induction false} PowerSumAppend(cs: seq<byte>, xs: seq<byte>, c: byte, x: byte, j: nat)
    requires |cs| == |xs|
    ensures PowerSum(cs + [c], xs + [x], j) == Add(PowerSum(cs, xs, j), Mul(c, Power(x, j)))
    decreases xs
  {
    var m := Mul(c, Power(x, j));
    AddZero(m);
    if xs != [] {
      PowerSumAppend(cs[1..], xs[1..], c, x, j);
      assert (cs + [c])[1..] == cs[1..] + [c] && (xs + [x])[1..] == xs[1..] + [x];
      AddAssoc(Mul(cs[0], Power(xs[0], j)), PowerSum(cs[1..], xs[1..], j), m);
    } else {
      assert cs + [c] == [c] && xs + [x] == [x];
    }
  }

  lemma {:induction false} LocatorsNext(ps: seq<nat>, p: nat)
    ensures LocatorsOf(ps + [p]) == LocatorsOf(ps) + [Exp(p)]
  {
    assert (ps + [p])[..|ps|] == ps;
  }

  lemma OnesNext(n: nat)
    ensures Ones(n + 1) == Ones(n) + [1]
  {
  }

  lemma {:induction false} PowerSumOfNext(ps: seq<nat>, p: nat, j: nat)
    ensures PowerSum(Ones(|ps| + 1), LocatorsOf(ps + [p]), j)
         == Add(PowerSum(Ones(|ps|), LocatorsOf(ps), j), Term(true, p, j))
  {
    var cs, xs, x := Ones(|ps|), LocatorsOf(ps), Exp(p);
    LocatorsNext(ps, p);
    OnesNext(|ps|);
    PowerSumAppend(cs, xs, 1, x, j);
    PowerSwap(p, j);
    MulOne(Power(x, j));
  }

  lemma {:induction false} SyndromeIsPowerSum(w: Word, j: nat, k: nat)
    requires k <= |w|
    ensures SyndromeUpTo(w, j, k) == PowerSum(Ones(|Positions(w, k)|), LocatorsOf(Positions(w, k)), j)
  {
    if k > 0 {
      var i := k - 1;
      SyndromeIsPowerSum(w, j, i);
      PowerSumOfNext(Positions(w, i), i, j);
      AddZero(SyndromeUpTo(w, j, i));
    }
  }

  lemma SyndromesArePowerSums(w: Word)
    ensures IsPowerSum(Syndromes(w), Ones(|Support(w)|), LocatorsOf(Support(w)))
  {
    forall n | 0 <= n < NSYND
      ensures Syndromes(w)[n] == PowerSum(Ones(|Support(w)|), LocatorsOf(Support(w)), n + 1)
    {
      SyndromeIsPowerSum(w, n + 1, |w|);
    }
  }

  lemma TermSquare(bit: bool, i: nat, j: nat)
    ensures Term(bit, i, 2 * j) == Square(Term(bit, i, j))
  {
    MulExp(j, j);
    SquarePower(Exp(j), i);
  }

  lemma {:induction false} SyndromeSquare(w: Word, j: nat, k: nat)
    requires k <= |w|
    ensures SyndromeUpTo(w, 2 * j, k) == Square(SyndromeUpTo(w, j, k))
  {
    if k > 0 {
      SyndromeSquare(w, j, k - 1);
      var i := k - 1;
      SquareAdd(SyndromeUpTo(w, j, i), Term(w[i], i, j));
      TermSquare(w[i], i, j);
    }
  }

  lemma SyndromesFrobenius(w: Word)
    ensures Frobenius(Syndromes(w))
  {
    forall n: nat | 2 * n + 1 < NSYND
      ensures FrobeniusAt(Syndromes(w), n)
    {
      SyndromeSquare(w, n + 1, |w|);
    }
  }

  // ---------- minimum distance ----------

  /** The BCH bound: different codewords differ in at least 2t + 1 positions. */
  lemma MinimumDistance(a: Word, b: Word)
    requires IsCodeword(a) && IsCodeword(b) && a != b
    ensures Distance(a, b) >= 2 * T + 1
  {
    var e := XorWord(a, b);
    DistanceIsSupport(a, b, N);
    if |Support(e)| <= 2 * T {
      SyndromesSeeErrorsOnly(a, b);
      SyndromesArePowerSums(e);
      LocatorsOfSupport(e);
      var cs, xs := Ones(|Support(e)|), LocatorsOf(Support(e));
      forall j | 1 <= j < 1 + |xs|
        ensures PowerSum(cs, xs, j) == 0
      {
        assert Syndromes(e)[j - 1] == 0;
      }
      assert |cs| == 0 || cs[0] == 1;
      Vandermonde(cs, xs, 1);
      DistanceZero(a, b);
    }
  }

  lemma {:induction false} Triangle(a: Word, b: Word, c: Word, k: nat)
    requires k <= |a| == |b| == |c|
    ensures DistanceUpTo(a, c, k) <= DistanceUpTo(a, b, k) + DistanceUpTo(b, c, k)
  {
    if k > 0 {
      Triangle(a, b, c, k - 1);
    }
  }

  lemma {:induction false} DistanceSymmetric(a: Word, b: Word, k: nat)
    requires k <= |a| == |b|
    ensures DistanceUpTo(a, b, k) == DistanceUpTo(b, a, k)
  {
    if k > 0 {
      DistanceSymmetric(a, b, k - 1);
    }
  }

  /** At most one codeword lies within t of any word. */
  lemma UniqueCodeword(r: Word, a: Word, b: Word)
    requires |r| == N && IsCodeword(a) && IsCodeword(b)
    requires Distance(r, a) <= T && Distance(r, b) <= T
    ensures a == b
  {
    if a != b {
      MinimumDistance(a, b);
      Triangle(a, r, b, N);
      DistanceSymmetric(a, r, N);
    }
  }

  // ---------- the decoder ----------

  /** The Chien search test at position i: does lam vanish at alpha^-i? */
  ghost predicate IsRoot(lam: Poly, i: nat)
    requires i < N
  {
    Eval(lam, Exp((255 - i) % 255)) == 0
  }

  ghost function RootMap(lam: Poly): (w: Word)
    ensures |w| == N && forall i | 0 <= i < N :: w[i] == IsRoot(lam, i)
  {
    seq(N, i requires 0 <= i < N => IsRoot(lam, i))
  }

  ghost function Chien(lam: Poly): seq<nat> {
    Support(RootMap(lam))
  }

  function FlipAll(w: Word, ps: seq<nat>): (r: Word)
    requires forall i | 0 <= i < |ps| :: ps[i] < |w|
    ensures |r| == |w|
    decreases ps
  {
    if ps == [] then w
    else
      var v := FlipAll(w, ps[..|ps| - 1]);
      var p := ps[|ps| - 1];
      v[p := !v[p]]
  }

  datatype Outcome = Corrected(word: Word, errors: seq<nat>) | Undecodable

  /** The flag of the syndrome loop: the first k are all zero. */
  ghost predicate AllZero(s: seq<byte>, k: nat)
    requires k <= |s|
  {
    k == 0 || (s[k - 1] == 0 && AllZero(s, k - 1))
  }

  lemma {:induction false} AllZeroPrefix(s: seq<byte>, k: nat)
    requires k <= |s|
    ensures AllZero(s, k) <==> forall i | 0 <= i < k :: s[i] == 0
  {
    if k > 0 {
      AllZeroPrefix(s, k - 1);
    }
  }

  lemma ZeroTest(w: Word)
    ensures AllZero(Syndromes(w), NSYND) <==> IsZero(Syndromes(w))
  {
    AllZeroPrefix(Syndromes(w), NSYND);
  }

  /** What bch_decode computes, step by step. */
  ghost function Decode(r: Word): Outcome
    requires |r| == N
  {
    var s := Syndromes(r);
    if AllZero(s, NSYND) then Corrected(r, [])
    else
      var b := Run(s, NSYND);
      if b.length > T then Undecodable
      else
        var ps := Chien(b.lam);
        if |ps| != b.length then Undecodable
        else
          var c := FlipAll(r, ps);
          if AllZero(Syndromes(c), NSYND) then Corrected(c, ps) else Undecodable
  }

  lemma {:induction false} FlipAllBits(w: Word, ps: seq<nat>)
    requires Distinct(ps) && forall i | 0 <= i < |ps| :: ps[i] < |w|
    ensures forall i | 0 <= i < |w| :: FlipAll(w, ps)[i] == (w[i] != (i in ps))
    decreases ps
  {
    if ps != [] {
      FlipAllBits(w, ps[..|ps| - 1]);
      assert ps == ps[..|ps| - 1] + [ps[|ps| - 1]];
    }
  }

  lemma {:induction false} FlipSupport(w: Word, e: Word)
    requires |w| == |e|
    ensures FlipAll(w, Support(e)) == XorWord(w, e)
  {
    PositionsSpec(e, |e|);
    FlipAllBits(w, Support(e));
  }

  lemma InverseOfExp(i: nat)
    requires i < N
    ensures Exp(i) != 0 && Inv(Exp(i)) == Exp((255 - i) % 255)
  {
    ExpMod(255 - i);
    ExpInverse(i, 255 - i, N);
  }

  lemma ExpInverse(i: nat, j: nat, n: nat)
    requires i + j == n && n == N
    ensures Exp(i) != 0 && Inv(Exp(i)) == Exp(j)
  {
    ExpNonzero(i);
    MulExp(i, j);
    Order(n);
    MulInv(Exp(i));
    MulCancel(Exp(i), Exp(j), Inv(Exp(i)));
  }

  /** The locator polynomial vanishes at the inverse locators only. */
  lemma {:induction false} SigmaNoOtherRoot(xs: seq<byte>, x: byte)
    requires Locators(xs) && x != 0 && x !in xs
    ensures Eval(Sigma(xs), Inv(x)) != 0
  {
    if Eval(Sigma(xs), Inv(x)) == 0 {
      assert Locators([x] + xs);
      var roots := Inverses([x] + xs);
      InversesDistinct([x] + xs);
      forall k | 0 <= k < |roots|
        ensures Eval(Sigma(xs), roots[k]) == 0
      {
        if k > 0 {
          SigmaRoot(xs, k - 1);
        }
      }
      TooManyRoots(Sigma(xs), roots);
    }
  }

  /** The positions where the true locator vanishes are the error positions. */
  lemma SigmaRoots(e: Word, i: nat)
    requires |e| == N && i < N
    ensures IsRoot(Sigma(LocatorsOf(Support(e))), i) == e[i]
  {
    var ps := Support(e);
    var xs := LocatorsOf(ps);
    InverseOfExp(i);
    LocatorsOfSupport(e);
    PositionsSpec(e, N);
    if e[i] {
      var k :| 0 <= k < |ps| && ps[k] == i;
      SigmaRoot(xs, k);
    } else {
      forall k | 0 <= k < |xs|
        ensures xs[k] != Exp(i)
      {
        if xs[k] == Exp(i) {
          ExpInjective(ps[k], i);
        }
      }
      SigmaNoOtherRoot(xs, Exp(i));
    }
  }

  lemma {:induction false} RegisterIsLocator(e: Word, s: seq<byte>)
    requires |e| == N && |Support(e)| <= T && s == Syndromes(e)
    ensures Run(s, NSYND).length == |Support(e)|
    ensures Run(s, NSYND).lam == Sigma(LocatorsOf(Support(e)))
  {
    var ps := Support(e);
    SyndromesArePowerSums(e);
    LocatorsOfSupport(e);
    RunCorrect(s, NSYND);
    var b := Run(s, NSYND);
    ShortestIsSigma(b.lam, b.length, s, Ones(|ps|), LocatorsOf(ps));
  }

  /** Every error pattern of weight at most t: the register has that length, its
      polynomial is the error locator, and the search finds exactly the errors. */
  lemma LocatesErrors(r: Word, c: Word)
    requires |r| == N && IsCodeword(c) && Distance(r, c) <= T
    ensures var ps := Support(XorWord(r, c));
            var b := Run(Syndromes(r), NSYND);
            && b.length == Distance(r, c) == |ps|
            && b.lam == Sigma(LocatorsOf(ps))
            && Chien(b.lam) == ps
  {
    var e := XorWord(r, c);
    DistanceIsSupport(r, c, N);
    SyndromesSeeErrorsOnly(r, c);
    RegisterIsLocator(e, Syndromes(r));
    var lam := Sigma(LocatorsOf(Support(e)));
    forall i | 0 <= i < N
      ensures RootMap(lam)[i] == e[i]
    {
      SigmaRoots(e, i);
    }
    assert RootMap(lam) == e;
  }

  /** A word within t of a codeword decodes to it, with its exact error positions. */
  lemma DecodeComplete(r: Word, c: Word)
    requires |r| == N && IsCodeword(c) && Distance(r, c) <= T
    ensures Decode(r) == Corrected(c, Support(XorWord(r, c)))
  {
    var e := XorWord(r, c);
    ZeroTest(r);
    ZeroTest(c);
    if IsZero(Syndromes(r)) {
      DistanceSelf(r, N);
      UniqueCodeword(r, r, c);
      EmptySupport(r, N);
    } else {
      LocatesErrors(r, c);
      FlipSupport(r, e);
      assert XorWord(r, e) == c;
    }
  }

  lemma {:induction false} EmptySupport(a: Word, k: nat)
    requires k <= |a|
    ensures Positions(XorWord(a, a), k) == []
  {
    if k > 0 {
      EmptySupport(a, k - 1);
    }
  }

  lemma {:induction false} DistanceSelf(a: Word, k: nat)
    requires k <= |a|
    ensures DistanceUpTo(a, a, k) == 0
  {
    if k > 0 {
      DistanceSelf(a, k - 1);
    }
  }

  /** Success means: a codeword, at the reported distance of at most t. */
  lemma DecodeSound(r: Word)
    requires |r| == N && Decode(r).Corrected?
    ensures IsCodeword(Decode(r).word)
    ensures Decode(r).errors == Support(XorWord(r, Decode(r).word))
    ensures Distance(r, Decode(r).word) == |Decode(r).errors| <= T
  {
    var c := Decode(r).word;
    DistanceIsSupport(r, c, N);
    ZeroTest(r);
    ZeroTest(c);
    if IsZero(Syndromes(r)) {
      DistanceSelf(r, N);
      EmptySupport(r, N);
    } else {
      var e := RootMap(Run(Syndromes(r), NSYND).lam);
      FlipSupport(r, e);
      assert XorWord(r, c) == e;
    }
  }

  /** No errors are found exactly in a codeword. */
  lemma CleanExactly(r: Word)
    requires |r| == N
    ensures Decode(r).Corrected? && Decode(r).errors == [] <==> IsCodeword(r)
  {
    if IsCodeword(r) {
      DistanceSelf(r, N);
      DecodeComplete(r, r);
      DecodeSound(r);
    }
    if Decode(r).Corrected? && Decode(r).errors == [] {
      DecodeSound(r);
      DistanceZero(r, Decode(r).word);
    }
  }

  /** Exact bounded-distance decoding. */
  lemma DecodeExact(r: Word)
    requires |r| == N
    ensures Decode(r).Corrected? <==> exists c :: IsCodeword(c) && Distance(r, c) <= T
    ensures forall c :: IsCodeword(c) && Distance(r, c) <= T <==> Decode(r).Corrected? && c == Decode(r).word
  {
    if Decode(r).Corrected? {
      DecodeSound(r);
      assert IsCodeword(Decode(r).word) && Distance(r, Decode(r).word) <= T;
    }
    forall c | IsCodeword(c) && Distance(r, c) <= T
      ensures Decode(r).Corrected? && c == Decode(r).word
    {
      DecodeComplete(r, c);
    }
  }

  lemma ChienLocators(lam: Poly)
    ensures Locators(LocatorsOf(Chien(lam)))
    ensures VanishesAt(lam, LocatorsOf(Chien(lam)))
  {
    var ps := Chien(lam);
    var xs := LocatorsOf(ps);
    LocatorsOfSupport(RootMap(lam));
    PositionsSpec(RootMap(lam), N);
    forall i | 0 <= i < |xs|
      ensures Eval(lam, Inv(xs[i])) == 0
    {
      InverseOfExp(ps[i]);
      assert RootMap(lam)[ps[i]];
    }
  }

  /** Chien search never finds more roots than the register is long. */
  lemma RootBound(lam: Poly, length: nat)
    requires 1 <= |lam| <= length + 1 && lam[0] == 1
    ensures |Chien(lam)| <= length
  {
    ChienLocators(lam);
    if |Chien(lam)| > length {
      TooManyLocators(lam, LocatorsOf(Chien(lam)));
    }
  }

  /** A minimal register that splits over positions says the word's syndromes are
      those of a word with ones exactly there. */
  lemma SplitMeansErrors(r: Word, e: Word, lam: Poly, length: nat)
    requires |e| == N && |Support(e)| == length <= T && Register(lam, length, Syndromes(r), NSYND)
    requires Minimal(length, Syndromes(r), NSYND)
    requires Locators(LocatorsOf(Support(e))) && VanishesAt(lam, LocatorsOf(Support(e)))
    ensures Syndromes(r) == Syndromes(e)
  {
    var s := Syndromes(r);
    var xs := LocatorsOf(Support(e));
    var cs := SplittingRegister(lam, length, s, xs);
    MinimalWeights(s, cs, xs);
    SyndromesFrobenius(r);
    BinaryWeights(s, cs, xs);
    SyndromesArePowerSums(e);
  }

  /** Once the search finds as many roots as the register is long, the corrected
      word has no nonzero syndrome: the final check never fails. */
  lemma {:induction false} RecheckPasses(r: Word)
    requires |r| == N
    requires var b := Run(Syndromes(r), NSYND); b.length <= T && |Chien(b.lam)| == b.length
    ensures var b := Run(Syndromes(r), NSYND); IsZero(Syndromes(FlipAll(r, Chien(b.lam))))
  {
    var s := Syndromes(r);
    var b := Run(s, NSYND);
    var e := RootMap(b.lam);
    RunCorrect(s, NSYND);
    ChienLocators(b.lam);
    SplitMeansErrors(r, e, b.lam, b.length);
    FlipSupport(r, e);
    SyndromesOfSum(r, e);
    forall n | 0 <= n < NSYND
      ensures Syndromes(XorWord(r, e))[n] == 0
    {
      AddZero(s[n]);
    }
  }
}
