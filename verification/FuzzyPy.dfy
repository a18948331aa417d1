/**
  The reference program: growing lists and big integers. Its generator
  construction, encoder and decoder, each proved against the same words, polynomials
  and outcomes as the firmware's.
 */
module FuzzyPy {
  import opened Bits
  import opened Gf
  import opened Poly
  import opened Massey
  import opened Bch
  import opened BinPoly
  import opened Generator
  import opened Tables
  import C = FuzzyC

  function Zeroes(n: nat): (s: seq<byte>)
    ensures |s| == n && forall i | 0 <= i < n :: s[i] == 0
  {
    seq(n, _ => 0)
  }

  /** s[:n], which stops at the end of the list. */
  function Slice<A>(s: seq<A>, n: nat): seq<A> {
    if n <= |s| then s[..n] else s
  }

  /** gf_mul is multiplication of polynomials modulo x^8 + x^4 + x^3 + x^2 + 1. */
  lemma LookupIsProduct(t: GfTables, a: byte, b: byte)
    requires t.Ready()
    ensures t.GfMul(a, b) == Mod(Product(a, b), PRIM_POLY)
  {
    MulIsProduct(a, b);
  }

  // ---------- generator construction ----------

  /** The first loop of minimal_poly: double until an exponent repeats. */
  method CosetOf(i: nat) returns (coset: seq<nat>)
    ensures Cycle(coset) && Distinct(coset) && |coset| <= 8 && Members(coset) == Conjugates(i)
  {
    coset := [];
    var j := i % 255;
    while j !in coset
      invariant Distinct(coset) && j == Conj(i, |coset|)
      invariant |coset| <= 8 && forall k | 0 <= k < |coset| :: coset[k] == Conj(i, k)
      decreases 8 - |coset|
    {
      CosetFits(i, coset);
      coset := coset + [j];
      j := 2 * j % 255;
    }
    CosetCloses(i, coset);
  }

  /** The eighth conjugate is the first one again. */
  lemma {:induction false} CosetFits(i: nat, coset: seq<nat>)
    requires |coset| <= 8 && forall k | 0 <= k < |coset| :: coset[k] == Conj(i, k)
    requires Conj(i, |coset|) !in coset
    ensures |coset| < 8
  {
    ConjEight(i, 8);
    assert |coset| > 0 ==> coset[0] == Conj(i, 0);
  }

  /** The first repeated exponent is the one the coset began with. */
  lemma {:induction false} CosetCloses(i: nat, coset: seq<nat>)
    requires |coset| <= 8 && Distinct(coset) && forall k | 0 <= k < |coset| :: coset[k] == Conj(i, k)
    requires Conj(i, |coset|) in coset
    ensures Cycle(coset) && Members(coset) == Conjugates(i)
  {
    var j, n := Conj(i, |coset|), |coset| - 1;
    var k :| 0 <= k < |coset| && coset[k] == j;
    assert j == 2 * coset[n] % 255;
    if k > 0 {
      assert coset[k] == 2 * coset[k - 1] % 255;
      DoublingInjective(coset[k - 1], coset[n]);
    }
    CycleIsCoset(coset);
    ConjugatesMod(i);
  }

  lemma {:induction false} ConjOfMod(i: nat, k: nat)
    ensures Conj(i, k) == Conj(i % 255, k)
  {
    if k > 0 {
      ConjOfMod(i, k - 1);
    }
  }

  lemma ConjugatesMod(i: nat)
    ensures Conjugates(i) == Conjugates(i % 255)
  {
    forall k | 0 <= k < 8
      ensures Conj(i, k) == Conj(i % 255, k)
    {
      ConjOfMod(i, k);
    }
  }

  /** Cell k of the new list after d old coefficients. */
  ghost function PartialRow(coeffs: seq<byte>, root: byte, d: nat, k: nat): byte {
    if k < d then Add(At(coeffs, k - 1), Mul(root, At(coeffs, k)))
    else if k == d then At(coeffs, k - 1)
    else 0
  }

  /** One factor: new[d + 1] ^= c, new[d] ^= c * root. */
  method TimesRootLoop(t: GfTables, coeffs: seq<byte>, root: byte) returns (row: seq<byte>)
    requires t.Ready()
    ensures row == TimesRoot(coeffs, root)
  {
    row := Zeroes(|coeffs| + 1);
    for d := 0 to |coeffs|
      invariant |row| == |coeffs| + 1
      invariant forall k | 0 <= k < |row| :: row[k] == PartialRow(coeffs, root, d, k)
    {
      var c := coeffs[d];
      AddZero(c);
      MulComm(c, root);
      row := row[d + 1 := Add(row[d + 1], c)];
      row := row[d := Add(row[d], t.GfMul(c, root))];
    }
    forall k | 0 <= k < |row|
      ensures row[k] == TimesRoot(coeffs, root)[k]
    {
      TimesRootAt(coeffs, root, k);
      MulNonzero(root, 0);
      AddZero(At(coeffs, k - 1));
      assert TimesRoot(coeffs, root)[k] == At(TimesRoot(coeffs, root), k);
    }
  }

  /** minimal_poly: its assertion holds for every i. */
  method MinimalPoly(t: GfTables, i: nat) returns (m: nat, coset: seq<nat>)
    requires t.Ready()
    ensures Cycle(coset) && Distinct(coset) && |coset| <= 8 && Members(coset) == Conjugates(i)
    ensures Binary(RootProduct(coset)) && m == FromCoeffs(RootProduct(coset))
  {
    coset := CosetOf(i);
    var coeffs: seq<byte> := [1];
    for k := 0 to |coset|
      invariant coeffs == RootProduct(coset[..k])
    {
      assert coset[..k + 1][..k] == coset[..k];
      assert t.EXP[coset[k]] == Exp(coset[k]);
      coeffs := TimesRootLoop(t, coeffs, t.EXP[coset[k]]);
    }
    assert coset[..|coset|] == coset;
    CycleIsBinary(coset);
    assert Binary(coeffs);
    m := FromCoeffs(coeffs);
  }

  /** A minimal polynomial is monic of the coset's size and vanishes on the coset. */
  lemma {:induction false} MinimalPolyValue(coset: seq<nat>)
    requires Cycle(coset)
    ensures var m := FromCoeffs(RootProduct(coset));
            && Pow2(|coset|) <= m < 2 * Pow2(|coset|)
            && forall e | e in coset :: Value(m, Exp(e)) == 0
  {
    var p := RootProduct(coset);
    CycleIsBinary(coset);
    RootProductMonic(coset);
    MonicDegree(p);
    forall e | e in coset
      ensures Value(FromCoeffs(p), Exp(e)) == 0
    {
      ValueOfCoeffs(p, Exp(e));
      RootProductRoot(coset, e);
    }
  }

  lemma {:induction false} RootProductMonic(es: seq<nat>)
    ensures RootProduct(es)[|es|] == 1
  {
    if es != [] {
      var init := es[..|es| - 1];
      RootProductMonic(init);
      var p, r := RootProduct(init), Exp(es[|es| - 1]);
      TimesRootAt(p, r, |es|);
      MulNonzero(r, 0);
      AddZero(1);
      assert At(TimesRoot(p, r), |es|) == TimesRoot(p, r)[|es|];
    }
  }

  lemma {:induction false} TimesRootEval(p: Poly, r: byte, x: byte)
    ensures Eval(TimesRoot(p, r), x) == Mul(Add(x, r), Eval(p, x))
  {
    EvalSum([0] + p, Scale(r, p), x);
    EvalScale(r, p, x);
    assert ([0] + p)[1..] == p;
    AddZero(Mul(x, Eval(p, x)));
    DistributesRight(Eval(p, x), x, r);
  }

  lemma {:induction false} RootProductRoot(es: seq<nat>, e: nat)
    requires e in es
    ensures Eval(RootProduct(es), Exp(e)) == 0
  {
    var init, last := es[..|es| - 1], es[|es| - 1];
    TimesRootEval(RootProduct(init), Exp(last), Exp(e));
    if e == last {
      AddZero(Exp(e));
    } else {
      assert es == init + [last];
      RootProductRoot(init, e);
    }
    MulNonzero(Add(Exp(e), Exp(last)), Eval(RootProduct(init), Exp(e)));
  }

  /** The running product of generator_poly after the syndromes 1 ... i. */
  ghost predicate Partial(g: nat, i: nat) {
    && Pow2(|Zeros(i)|) <= g < 2 * Pow2(|Zeros(i)|)
    && forall e | e in Zeros(i) :: Value(g, Exp(e)) == 0
  }

  lemma {:induction false} ProductRoot(g: nat, m: nat, x: byte)
    requires Value(g, x) == 0 || Value(m, x) == 0
    ensures Value(Product(g, m), x) == 0
  {
    ValueProduct(g, m, x);
    MulNonzero(Value(g, x), Value(m, x));
  }

  lemma SizeGrows(i: nat, coset: seq<nat>)
    requires i > 0 && Zeros(i - 1) !! Conjugates(i) && Distinct(coset) && Members(coset) == Conjugates(i)
    ensures |Zeros(i)| == |Zeros(i - 1)| + |coset|
  {
    ZerosNext(i);
    DistinctCount(coset);
  }

  lemma {:induction false} RootsGrow(g: nat, m: nat, i: nat, coset: seq<nat>, e: nat)
    requires i > 0 && Members(coset) == Conjugates(i) && e in Zeros(i)
    requires e in Zeros(i - 1) ==> Value(g, Exp(e)) == 0
    requires forall c | c in coset :: Value(m, Exp(c)) == 0
    ensures Value(Product(g, m), Exp(e)) == 0
  {
    ZerosNext(i);
    assert e in Zeros(i - 1) || e in Members(coset);
    ProductRoot(g, m, Exp(e));
  }

  lemma {:induction false} PartialGrows(g: nat, m: nat, i: nat, coset: seq<nat>)
    requires i > 0 && Partial(g, i - 1) && Zeros(i - 1) !! Conjugates(i)
    requires Cycle(coset) && Distinct(coset) && Members(coset) == Conjugates(i) && m == FromCoeffs(RootProduct(coset))
    ensures Partial(Product(g, m), i)
  {
    var n, k := |Zeros(i - 1)|, |coset|;
    SizeGrows(i, coset);
    MinimalPolyValue(coset);
    ProductDegree(g, n, m, k);
    forall e | e in Zeros(i)
      ensures Value(Product(g, m), Exp(e)) == 0
    {
      RootsGrow(g, m, i, coset, e);
    }
  }

  lemma SeenCoset(i: nat, j: nat)
    requires 1 <= j < i && Conjugates(i) == Conjugates(j)
    ensures Zeros(i) == Zeros(i - 1)
  {
    ZerosNext(i);
    forall e | e in Conjugates(i)
      ensures e in Zeros(i - 1)
    {
      ZerosMember(i - 1, e);
    }
  }

  lemma NewCoset(i: nat)
    requires 0 < i < 255 && forall j | 1 <= j < i :: Conjugates(j) != Conjugates(i)
    ensures Zeros(i - 1) !! Conjugates(i)
  {
    forall e | e in Zeros(i - 1)
      ensures e !in Conjugates(i)
    {
      ZerosMember(i - 1, e);
      var j :| 1 <= j <= i - 1 && e in Conjugates(j);
      ConjugatesSymmetric(j, e);
      if e in Conjugates(i) {
        ConjugatesSymmetric(i, e);
      }
    }
  }

  /** generator_poly: the product of the distinct minimal polynomials of alpha^1 ...
      alpha^2t has exactly the zeros of the code. */
  method GeneratorPoly(t: GfTables) returns (g: nat)
    requires t.Ready()
    ensures IsGenerator(g) && MessageBits(g) == FUZZY_K
  {
    g := 1;
    var seen: set<set<nat>> := {};
    assert Zeros(0) == {};
    for i := 1 to 2 * T + 1
      invariant Partial(g, i - 1)
      invariant forall j | 1 <= j < i :: Conjugates(j) in seen
      invariant forall s | s in seen :: exists j :: 1 <= j < i && s == Conjugates(j)
    {
      var m, coset := MinimalPoly(t, i);
      var members := set e | e in coset;
      assert members == Members(coset);
      if members !in seen {
        NewCoset(i);
        PartialGrows(g, m, i, coset);
        seen := seen + {members};
        g := PolyMul(g, m);
      } else {
        ghost var j :| 1 <= j < i && members == Conjugates(j);
        SeenCoset(i, j);
      }
    }
    MessageBitsIs179(g);
  }

  // ---------- encoder and decoder ----------

  /** bch_encode: a multiple of the generator with the message above the parity; a message
      that fits gives a codeword. */
  method BchEncode(g: nat, msg: nat) returns (c: nat)
    requires IsGenerator(g)
    ensures c == Encode(msg, g) && Mod(c, g) == 0
    ensures Shr(c, BitLength(g) - 1) == msg
    ensures BitLength(msg) <= MessageBits(g) ==> BitLength(c) <= N && IsCodeword(ToBits(c, N))
  {
    ModBelow(0, g);
    var shifted := Shl(msg, BitLength(g) - 1);
    var parity := PolyMod(shifted, g);
    c := Or(shifted, parity);
    EncodingMeans(msg, g);
  }

  lemma EncodingMeans(msg: nat, g: nat)
    requires IsGenerator(g)
    ensures Mod(Encode(msg, g), g) == 0
    ensures Shr(Encode(msg, g), BitLength(g) - 1) == msg
    ensures BitLength(msg) <= MessageBits(g) ==>
      BitLength(Encode(msg, g)) <= N && IsCodeword(ToBits(Encode(msg, g), N))
  {
    EncodeDivisible(msg, g);
    EncodeShr(msg, g);
    if BitLength(msg) <= MessageBits(g) {
      EncodeCodeword(msg, g);
    }
  }

  /** The inner loop: r(alpha^j). */
  method OneSyndromePy(t: GfTables, r: nat, j: nat) returns (s: byte)
    requires t.Ready()
    ensures s == SyndromeUpTo(ToBits(r, N), j, N)
  {
    s := 0;
    for i := 0 to N
      invariant s == SyndromeUpTo(ToBits(r, N), j, i)
    {
      AddZero(s);
      if Bit(r, i) {
        var x := t.PowerAt(j, i);
        s := Add(s, x);
      }
    }
  }

  /** syndromes, on the bits of an integer. */
  method SyndromesPy(t: GfTables, r: nat) returns (out: seq<byte>)
    requires t.Ready()
    ensures out == Syndromes(ToBits(r, N))
  {
    ghost var w := ToBits(r, N);
    out := [];
    for j := 1 to NSYND + 1
      invariant |out| == j - 1 && forall k | 0 <= k < j - 1 :: out[k] == SyndromeUpTo(w, k + 1, N)
    {
      var s := OneSyndromePy(t, r, j);
      out := out + [s];
    }
  }

  method DiscrepancyPy(t: GfTables, synd: seq<byte>, lam: seq<byte>, length: nat, n: nat) returns (d: byte)
    requires t.Ready() && n < |synd| && length <= n && Register(lam, length, synd, n)
    ensures d == Disc(lam, synd, n)
  {
    d := synd[n];
    MulOne(d);
    C.TailNext(lam, synd, n, 0);
    for i := 1 to length + 1
      invariant Add(d, C.Tail(lam, synd, n, i)) == Disc(lam, synd, n)
    {
      C.TailNext(lam, synd, n, i);
      var m := Mul(At(lam, i), At(synd, n - i));
      AddAssoc(d, m, C.Tail(lam, synd, n, i + 1));
      AddZero(d);
      if i < |lam| {
        d := Add(d, t.GfMul(lam[i], synd[n - i]));
      }
    }
    AddZero(d);
  }

  /** lam grown with zeros, then lam[i + shift] ^= coef * prev[i]. */
  method UpdatePy(t: GfTables, lam0: seq<byte>, prev: seq<byte>, shift: nat, coef: byte) returns (lam: seq<byte>)
    requires t.Ready()
    ensures lam == Sum(lam0, Shift(shift, Scale(coef, prev)))
  {
    ghost var u := Shift(shift, Scale(coef, prev));
    var grow := |prev| + shift - |lam0|;
    lam := lam0 + Zeroes(if grow > 0 then grow else 0);
    NoneAdded(lam0, shift, Scale(coef, prev), lam);
    for i := 0 to |prev|
      invariant |lam| == |Sum(lam0, u)|
      invariant forall k | 0 <= k < |lam| :: lam[k] == C.Added(lam0, u, shift + i, k)
    {
      assert At(u, shift + i) == Mul(coef, prev[i]);
      lam := lam[i + shift := Add(lam[i + shift], t.GfMul(coef, prev[i]))];
    }
    AllAdded(lam0, u, lam);
  }

  lemma NoneAdded(p: Poly, shift: nat, q: Poly, lam: Poly)
    requires |lam| >= |p| && forall k | 0 <= k < |lam| :: lam[k] == At(p, k)
    ensures forall k | 0 <= k < |lam| :: lam[k] == C.Added(p, Shift(shift, q), shift, k)
  {
    forall k | 0 <= k < |lam|
      ensures lam[k] == C.Added(p, Shift(shift, q), shift, k)
    {
      C.AddedNone(p, shift, q, k);
    }
  }

  lemma AllAdded(p: Poly, u: Poly, lam: Poly)
    requires |lam| == |Sum(p, u)| && forall k | 0 <= k < |lam| :: lam[k] == C.Added(p, u, |u|, k)
    ensures lam == Sum(p, u)
  {
    forall k | 0 <= k < |lam|
      ensures lam[k] == Sum(p, u)[k]
    {
      C.AddedAll(p, u, k);
    }
  }

  /** One turn of the loop over the lists lam and prev. */
  method MasseyStepPy(t: GfTables, synd: seq<byte>, b: State, n: nat) returns (u: State)
    requires t.Ready() && n < |synd| && Invariant(b, synd, n)
    ensures u == Step(b, synd, n)
  {
    var d := DiscrepancyPy(t, synd, b.lam, b.length, n);
    if d == 0 {
      return b.(shift := b.shift + 1);
    }
    var coef := t.PyDiv(d, b.lastD);
    var lam := UpdatePy(t, b.lam, b.prev, b.shift, coef);
    if 2 * b.length <= n {
      u := State(lam, b.lam, n + 1 - b.length, 1, d);
    } else {
      u := b.(lam := lam, shift := b.shift + 1);
    }
  }

  /** berlekamp_massey: slicing to length + 1 drops nothing. */
  method BerlekampMasseyPy(t: GfTables, synd: seq<byte>) returns (lam: seq<byte>, length: nat)
    requires t.Ready() && |synd| == NSYND
    ensures lam == Run(synd, NSYND).lam && length == Run(synd, NSYND).length
  {
    var b := START;
    for n := 0 to NSYND
      invariant b == Run(synd, n)
    {
      RunCorrect(synd, n);
      b := MasseyStepPy(t, synd, b, n);
    }
    RunCorrect(synd, NSYND);
    length := b.length;
    lam := Slice(b.lam, length + 1);
  }

  /** Lambda(alpha^-i), with the running power xp. */
  method EvalPy(t: GfTables, lam: seq<byte>, i: nat) returns (v: byte)
    requires t.Ready() && i < N
    ensures v == 0 <==> IsRoot(lam, i)
  {
    var x := t.EXP[(255 - i) % 255];
    v := 0;
    var xp: byte := 1;
    for k := 0 to |lam|
      invariant v == C.PartialEval(lam, x, k) && xp == Power(x, k)
    {
      v := Add(v, t.GfMul(lam[k], xp));
      MulComm(xp, x);
      xp := t.GfMul(xp, x);
    }
    C.PartialEvalFull(lam, x, |lam|);
  }

  method ChienPy(t: GfTables, lam: seq<byte>) returns (errors: seq<nat>)
    requires t.Ready()
    ensures errors == Chien(lam)
  {
    ghost var w := RootMap(lam);
    errors := [];
    for i := 0 to N
      invariant errors == Positions(w, i)
    {
      var v := EvalPy(t, lam, i);
      if v == 0 {
        errors := errors + [i];
      }
    }
  }

  lemma {:induction false} ToIntFlip(w: Word, p: nat)
    requires p < |w|
    ensures ToInt(w[p := !w[p]]) == Xor(ToInt(w), Shl(1, p))
  {
    var u := w[p := !w[p]];
    ShlOne(p);
    forall i: nat
      ensures Bit(ToInt(u), i) == Bit(Xor(ToInt(w), Shl(1, p)), i)
    {
      ToIntBit(u, |w|, i);
      ToIntBit(w, |w|, i);
      BitPow2(p, i);
      BitXor(ToInt(w), Shl(1, p), i);
    }
    BitsDetermine(ToInt(u), Xor(ToInt(w), Shl(1, p)));
  }

  /** What bch_decode returns: (word, count), or (None, None). */
  datatype Decoded = Decoded(word: nat, count: nat) | Failed

  ghost function AsInts(o: Outcome): Decoded {
    match o
    case Corrected(c, errors) => Decoded(ToInt(c), |errors|)
    case Undecodable => Failed
  }

  /** The bits of an integer from N up. */
  function High(r: nat): nat {
    Xor(r, ToInt(ToBits(r, N)))
  }

  lemma HighAndLow(r: nat)
    ensures Xor(High(r), ToInt(ToBits(r, N))) == r
    ensures BitLength(r) <= N ==> High(r) == 0
  {
    var low := ToInt(ToBits(r, N));
    XorAssoc(r, low, low);
    XorSelf(low);
    XorZero(r);
    if BitLength(r) <= N {
      BitsRoundTrip(r, N);
    }
  }

  /** What bch_decode computes on an integer of any length: bits beyond the block take no
      part in the syndromes and stay, but once there are errors the division sees them. */
  ghost function DecodeInt(g: nat, r: nat): Decoded
    requires g > 0
  {
    match Decode(ToBits(r, N))
    case Undecodable => Failed
    case Corrected(c, errors) =>
      if errors != [] && Mod(High(r), g) != 0 then Failed else Decoded(Xor(High(r), ToInt(c)), |errors|)
  }

  /** The bits of an integer whose low N bits are replaced. */
  lemma ReplacedBits(r: nat, c: Word, i: nat)
    requires |c| == N
    ensures Bit(High(r), i) == (i >= N && Bit(r, i))
    ensures Bit(Xor(High(r), ToInt(c)), i) == if i < N then c[i] else Bit(r, i)
  {
    var low := ToBits(r, N);
    ToIntBit(low, |low|, i);
    BitXor(r, ToInt(low), i);
    ToIntBit(c, |c|, i);
    BitXor(High(r), ToInt(c), i);
  }

  lemma Replaced(r: nat, c: Word)
    requires |c| == N
    ensures ToBits(Xor(High(r), ToInt(c)), N) == c
    ensures forall i: nat | i >= N :: Bit(Xor(High(r), ToInt(c)), i) == Bit(r, i)
  {
    forall i: nat
      ensures Bit(Xor(High(r), ToInt(c)), i) == if i < N then c[i] else Bit(r, i)
    {
      ReplacedBits(r, c, i);
    }
  }

  /** For every integer: decoded exactly when its low N bits are within t of a codeword and
      either are one already, or the generator divides the bits above; then the result has
      the same bits above, a codeword below, and the count is their distance. */
  lemma DecodeIntExactly(g: nat, r: nat)
    requires IsGenerator(g)
    ensures var w, out := ToBits(r, N), DecodeInt(g, r);
            && (out.Decoded? <==> (exists c :: IsCodeword(c) && Distance(w, c) <= T)
                                  && (IsCodeword(w) || Mod(High(r), g) == 0))
            && (out.Decoded? ==> IsCodeword(ToBits(out.word, N)) && Distance(w, ToBits(out.word, N)) == out.count <= T)
            && (out.Decoded? ==> forall i: nat | i >= N :: Bit(out.word, i) == Bit(r, i))
  {
    var w := ToBits(r, N);
    DecodeExact(w);
    CleanExactly(w);
    if Decode(w).Corrected? {
      DecodeSound(w);
      Replaced(r, Decode(w).word);
    }
  }

  /** On a block that is the outcome of the word decoder. */
  lemma DecodeIntOfBlock(g: nat, r: nat)
    requires IsGenerator(g) && BitLength(r) <= N
    ensures DecodeInt(g, r) == AsInts(Decode(ToBits(r, N)))
  {
    HighAndLow(r);
    ModZero(g);
    if Decode(ToBits(r, N)).Corrected? {
      XorZero(ToInt(Decode(ToBits(r, N)).word));
    }
  }

  lemma ModZero(g: nat)
    requires IsGenerator(g)
    ensures Mod(0, g) == 0
  {
    BitLengthIs(g, Degree());
  }

  /** Applies the errors, one bit of the integer at a time, and divides. */
  method CorrectPy(g: nat, r0: nat, errors: seq<nat>) returns (out: Decoded)
    requires IsGenerator(g) && forall k | 0 <= k < |errors| :: errors[k] < N
    ensures var c := FlipAll(ToBits(r0, N), errors);
            var r := Xor(High(r0), ToInt(c));
            && out == (if Mod(r, g) == 0 then Decoded(r, |errors|) else Failed)
            && (BitLength(r0) <= N ==> (out.Decoded? <==> IsCodeword(c)))
  {
    ghost var w, hi := ToBits(r0, N), High(r0);
    HighAndLow(r0);
    var r := r0;
    for k := 0 to |errors|
      invariant r == Xor(hi, ToInt(FlipAll(w, errors[..k])))
    {
      assert errors[..k + 1][..k] == errors[..k];
      ToIntFlip(FlipAll(w, errors[..k]), errors[k]);
      XorAssoc(hi, ToInt(FlipAll(w, errors[..k])), Shl(1, errors[k]));
      r := Xor(r, Shl(1, errors[k]));
    }
    assert errors[..|errors|] == errors;
    XorZero(ToInt(FlipAll(w, errors)));
    SyndromeTest(FlipAll(w, errors), g);
    var rem := PolyMod(r, g);
    if rem != 0 {
      return Failed;
    }
    out := Decoded(r, |errors|);
  }

  /** Nonzero syndromes need a register of positive length. */
  lemma NonzeroLength(s: seq<byte>)
    requires !IsZero(s)
    ensures Run(s, |s|).length > 0
  {
    var b := Run(s, |s|);
    RunCorrect(s, |s|);
    if b.length == 0 {
      EmptyRegister(b.lam, s);
    }
  }

  lemma {:induction false} EmptyRegister(p: Poly, s: seq<byte>)
    requires Register(p, 0, s, |s|)
    ensures IsZero(s)
  {
    forall j | 0 <= j < |s|
      ensures s[j] == 0
    {
      assert Disc(p, s, j) == Add(Mul(p[0], At(s, j)), Disc(p[1..], s, j - 1));
      assert p[1..] == [];
      MulOne(s[j]);
      AddZero(s[j]);
    }
  }

  /** Adding a multiple of the generator leaves the remainder. */
  lemma MultipleLeavesRemainder(h: nat, v: nat, g: nat)
    requires IsGenerator(g) && Mod(v, g) == 0
    ensures Mod(Xor(h, v), g) == Mod(h, g)
  {
    ModLinear(h, v, g);
    XorZero(Mod(h, g));
  }

  /** The last steps of bch_decode, once the search has found as many roots as the register
      is long: the division decides on the bits beyond the block alone. */
  lemma DivisionDecides(g: nat, r: nat)
    requires IsGenerator(g) && !IsZero(Syndromes(ToBits(r, N)))
    requires var b := Run(Syndromes(ToBits(r, N)), NSYND); b.length <= T && |Chien(b.lam)| == b.length
    ensures var w := ToBits(r, N); var ps := Chien(Run(Syndromes(w), NSYND).lam);
            && Decode(w) == Corrected(FlipAll(w, ps), ps) && ps != []
            && Mod(Xor(High(r), ToInt(FlipAll(w, ps))), g) == Mod(High(r), g)
  {
    var w := ToBits(r, N);
    var c := FlipAll(w, Chien(Run(Syndromes(w), NSYND).lam));
    ZeroTest(w);
    RecheckPasses(w);
    ZeroTest(c);
    NonzeroLength(Syndromes(w));
    CodewordDivisible(c, g);
    MultipleLeavesRemainder(High(r), ToInt(c), g);
  }

  /** bch_decode: the corrected integer and the number of errors, or None. On a block the
      final division by the generator is the syndrome test in another form. */
  method BchDecodePy(t: GfTables, g: nat, r: nat) returns (out: Decoded)
    requires t.Ready() && IsGenerator(g)
    ensures out == DecodeInt(g, r)
    ensures BitLength(r) <= N ==> out == AsInts(Decode(ToBits(r, N)))
  {
    var synd := SyndromesPy(t, r);
    HighAndLow(r);
    if BitLength(r) <= N {
      DecodeIntOfBlock(g, r);
    }
    ZeroTest(ToBits(r, N));
    if forall k | 0 <= k < NSYND :: synd[k] == 0 {
      return Decoded(r, 0);
    }
    var lam, length := BerlekampMasseyPy(t, synd);
    if length > T {
      return Failed;
    }
    var errors := ChienPy(t, lam);
    if |errors| != length {
      return Failed;
    }
    DivisionDecides(g, r);
    out := CorrectPy(g, r, errors);
  }

  /** The firmware refines the reference: on the same block, one as bytes and one as an
      integer, the two decoders agree on verdict, count and corrected word. */
  lemma SameVerdict(before: seq<byte>, after: seq<byte>, pos: seq<nat>, ret: int, out: Decoded)
    requires |before| == N
    requires C.Reports(Decode(C.WordOf(before)), before, after, pos, ret)
    requires out == AsInts(Decode(ToBits(ToInt(C.WordOf(before)), N)))
    ensures if ret < 0 then out.Failed? && after == before
            else out == Decoded(ToInt(C.WordOf(after)), ret)
  {
    IntRoundTrip(C.WordOf(before));
  }
}
