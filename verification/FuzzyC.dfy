/**
  The firmware's decoder: fixed work arrays, zero padding, correction in place.
  Each method is proved against the decoder on words in module Bch.
 */
module FuzzyC {
  import opened Bits
  import opened Gf
  import opened Poly
  import opened Massey
  import opened Bch
  import opened Tables

  const LAM_MAX: nat := 4 * T

  /** A block held one bit per byte. */
  function WordOf(s: seq<byte>): (w: Word)
    ensures |w| == |s| && forall i | 0 <= i < |s| :: w[i] == (s[i] != 0)
  {
    seq(|s|, i requires 0 <= i < |s| => s[i] != 0)
  }

  /** The cells of a zero-padded work array that holds p. */
  ghost predicate Holds(s: seq<byte>, p: Poly) {
    |p| <= |s| && forall i | 0 <= i < |s| :: s[i] == At(p, i)
  }

  /** The inner loop: r(alpha^j). */
  method OneSyndrome(t: GfTables, r: array<byte>, j: nat) returns (s: byte)
    requires t.Ready() && r.Length == N
    ensures s == SyndromeUpTo(WordOf(r[..]), j, N)
  {
    s := 0;
    for i := 0 to N
      invariant s == SyndromeUpTo(WordOf(r[..]), j, i)
    {
      AddZero(s);
      if r[i] != 0 {
        var x := t.PowerAt(j, i);
        s := Add(s, x);
      }
    }
  }

  /** syndromes: fills synd, tells whether all of it is zero. */
  method SyndromesC(t: GfTables, r: array<byte>, synd: array<byte>) returns (allZero: bool)
    requires t.Ready() && r.Length == N && synd.Length == NSYND
    requires synd != r && synd != t.EXP && synd != t.LOG
    modifies synd
    ensures synd[..] == Syndromes(WordOf(r[..]))
    ensures allZero == IsZero(Syndromes(WordOf(r[..])))
  {
    ghost var w := WordOf(r[..]);
    ghost var bad: nat := 0;
    allZero := true;
    for j := 1 to NSYND + 1
      invariant forall k | 0 <= k < j - 1 :: synd[k] == SyndromeUpTo(w, k + 1, N)
      invariant if allZero then forall k | 0 <= k < j - 1 :: synd[k] == 0 else bad < j - 1 && synd[bad] != 0
      invariant r[..] == old(r[..]) && t.Ready()
    {
      var s := OneSyndrome(t, r, j);
      synd[j - 1] := s;
      if s != 0 {
        allZero, bad := false, j - 1;
      }
    }
    assert synd[..] == Syndromes(w);
  }

  // ---------- Berlekamp-Massey ----------

  /** The part of the discrepancy that coefficients from i on contribute. */
  ghost function Tail(p: Poly, s: seq<byte>, n: int, i: nat): byte {
    if i >= |p| then 0 else Disc(p[i..], s, n - i)
  }

  lemma TailNext(p: Poly, s: seq<byte>, n: int, i: nat)
    ensures Tail(p, s, n, i) == Add(Mul(At(p, i), At(s, n - i)), Tail(p, s, n, i + 1))
  {
    if i < |p| {
      assert p[i..][1..] == p[i + 1..];
    } else {
      AddZero(0);
    }
  }

  method Discrepancy(t: GfTables, synd: array<byte>, lam: array<byte>, lamLen: nat, length: nat, n: nat,
                     ghost b: State)
    returns (d: byte)
    requires t.Ready() && synd.Length == NSYND && n < NSYND && length <= n
    requires Holds(lam[..], b.lam) && lamLen == |b.lam| && length == b.length && Register(b.lam, length, synd[..], n)
    ensures d == Disc(b.lam, synd[..], n)
  {
    ghost var s := synd[..];
    d := synd[n];
    MulOne(d);
    TailNext(b.lam, s, n, 0);
    for i := 1 to length + 1
      invariant Add(d, Tail(b.lam, s, n, i)) == Disc(b.lam, s, n)
    {
      TailNext(b.lam, s, n, i);
      var m := Mul(At(b.lam, i), At(s, n - i));
      AddAssoc(d, m, Tail(b.lam, s, n, i + 1));
      AddZero(d);
      if i < lamLen {
        d := Add(d, t.GfMul(lam[i], synd[n - i]));
      }
    }
    AddZero(d);
  }

  /** lam += coef * x^shift * prev, in place. */
  method AddShifted(t: GfTables, lam: array<byte>, prev: array<byte>, prevLen: nat, shift: nat, coef: byte,
                    ghost p: Poly, ghost q: Poly)
    requires t.Ready() && lam != prev && lam != t.EXP && lam != t.LOG
    requires Holds(lam[..], p) && Holds(prev[..], q) && prevLen == |q| && prevLen + shift <= lam.Length
    modifies lam
    ensures Holds(lam[..], Sum(p, Shift(shift, Scale(coef, q))))
  {
    ghost var u := Shift(shift, Scale(coef, q));
    forall k | 0 <= k < lam.Length
      ensures lam[k] == Added(p, u, shift, k)
    {
      AddedNone(p, shift, Scale(coef, q), k);
    }
    for i := 0 to prevLen
      invariant t.Ready() && prev[..] == old(prev[..])
      invariant forall k | 0 <= k < lam.Length :: lam[k] == Added(p, u, shift + i, k)
    {
      assert prev[i] == q[i] && At(u, shift + i) == Mul(coef, q[i]);
      lam[i + shift] := Add(lam[i + shift], t.GfMul(coef, prev[i]));
    }
    forall k | 0 <= k < lam.Length
      ensures lam[k] == At(Sum(p, u), k)
    {
      AddedAll(p, u, k);
    }
  }

  /** Cell k once the terms of u below the given index have been added to p. */
  ghost function Added(p: Poly, u: Poly, below: nat, k: nat): byte {
    if k < below then Add(At(p, k), At(u, k)) else At(p, k)
  }

  lemma AddedAll(p: Poly, u: Poly, k: nat)
    ensures Added(p, u, |u|, k) == At(Sum(p, u), k)
  {
    AddZero(At(p, k));
    assert At(Sum(p, u), k) == Add(At(p, k), At(u, k));
  }

  lemma AddedNone(p: Poly, shift: nat, q: Poly, k: nat)
    ensures Added(p, Shift(shift, q), shift, k) == At(p, k)
  {
    AddZero(At(p, k));
  }

  /** The scalar loop variables that go with the arrays lam and prev. */
  datatype Scalars = Scalars(lamLen: nat, prevLen: nat, length: nat, shift: nat, lastD: byte)

  /** The arrays and scalars hold the state b. */
  ghost predicate Represents(lam: seq<byte>, prev: seq<byte>, v: Scalars, b: State) {
    && Holds(lam, b.lam) && v.lamLen == |b.lam|
    && Holds(prev, b.prev) && v.prevLen == |b.prev|
    && v.length == b.length && v.shift == b.shift && v.lastD == b.lastD
  }

  /** One turn of the loop. The exit for a full work array is not taken: need <= n + 2. */
  method MasseyStep(t: GfTables, synd: array<byte>, lam: array<byte>, prev: array<byte>, saved: array<byte>,
                    v: Scalars, n: nat, ghost b: State)
    returns (overflow: bool, u: Scalars)
    requires t.Ready() && synd.Length == NSYND && lam.Length == prev.Length == saved.Length == LAM_MAX
    requires lam != prev && lam != saved && prev != saved && synd !in {lam, prev, saved}
    requires {t.EXP, t.LOG} !! {lam, prev, saved}
    requires n < NSYND && Represents(lam[..], prev[..], v, b) && Invariant(b, synd[..], n)
    modifies lam, prev, saved
    ensures !overflow && Represents(lam[..], prev[..], u, Step(b, synd[..], n))
  {
    var d := Discrepancy(t, synd, lam, v.lamLen, v.length, n, b);
    if d == 0 {
      return false, v.(shift := v.shift + 1);
    }
    CopyArray(lam, saved);
    var coef := t.GfDiv(d, v.lastD);
    var need := v.prevLen + v.shift;
    assert need <= n + 2 < LAM_MAX;
    if need > LAM_MAX {
      return true, v;
    }
    AddShifted(t, lam, prev, v.prevLen, v.shift, coef, b.lam, b.prev);
    var lamLen := if need > v.lamLen then need else v.lamLen;
    if 2 * v.length <= n {
      CopyArray(saved, prev);
      u := Scalars(lamLen, v.lamLen, n + 1 - v.length, 1, d);
    } else {
      u := v.(lamLen := lamLen, shift := v.shift + 1);
    }
    overflow := false;
  }

  /** memset(a, 0) followed by a[0] = 1. */
  method SetOne(a: array<byte>)
    requires a.Length > 0
    modifies a
    ensures Holds(a[..], [1])
  {
    for i := 0 to a.Length
      invariant forall k | 0 <= k < i :: a[k] == 0
    {
      a[i] := 0;
    }
    a[0] := 1;
  }

  /** berlekamp_massey: the register of every syndrome sequence, zero-padded. It never
      returns -1 and the final truncation drops nothing. */
  method BerlekampMasseyC(t: GfTables, synd: array<byte>, lam: array<byte>) returns (length: int)
    requires t.Ready() && synd.Length == NSYND && lam.Length == LAM_MAX
    requires lam != synd && lam != t.EXP && lam != t.LOG
    modifies lam
    ensures length == Run(synd[..], NSYND).length && Holds(lam[..], Run(synd[..], NSYND).lam)
  {
    ghost var s := synd[..];
    var prev := new byte[LAM_MAX](_ => 0);
    var saved := new byte[LAM_MAX](_ => 0);
    SetOne(lam);
    SetOne(prev);
    var v := Scalars(1, 1, 0, 1, 1);
    for n := 0 to NSYND
      invariant t.Ready() && synd[..] == s
      invariant Represents(lam[..], prev[..], v, Run(s, n))
    {
      RunCorrect(s, n);
      var overflow, u := MasseyStep(t, synd, lam, prev, saved, v, n, Run(s, n));
      if overflow {
        return -1;
      }
      v := u;
    }
    length := v.length;
    RunCorrect(s, NSYND);
    Truncate(lam, length, Run(s, NSYND).lam);
  }

  /** Zeroes everything above degree L; there was nothing to drop. */
  method Truncate(lam: array<byte>, length: nat, ghost p: Poly)
    requires Holds(lam[..], p) && |p| <= length + 1 <= lam.Length
    modifies lam
    ensures Holds(lam[..], p)
  {
    for i := length + 1 to lam.Length
      invariant Holds(lam[..], p)
    {
      lam[i] := 0;
    }
  }

  /** memcpy of a whole work array. */
  method CopyArray(a: array<byte>, b: array<byte>)
    requires a.Length == b.Length
    modifies b
    ensures b[..] == old(a[..])
  {
    for i := 0 to a.Length
      invariant a != b ==> a[..] == old(a[..])
      invariant forall k | 0 <= k < i :: b[k] == old(a[k])
      invariant forall k | i <= k < b.Length :: b[k] == old(b[k])
    {
      b[i] := a[i];
    }
  }

  // ---------- Chien search and correction ----------

  /** Sum of p[i] * x^i for i < k, the way the inner loop accumulates it. */
  ghost function PartialEval(p: Poly, x: byte, k: nat): byte {
    if k == 0 then 0 else Add(PartialEval(p, x, k - 1), Mul(At(p, k - 1), Power(x, k - 1)))
  }

  ghost function EvalFrom(p: Poly, x: byte, k: nat): byte {
    if k >= |p| then 0 else Eval(p[k..], x)
  }

  lemma {:induction false} PartialEvalRest(p: Poly, x: byte, k: nat)
    ensures Eval(p, x) == Add(PartialEval(p, x, k), Mul(Power(x, k), EvalFrom(p, x, k)))
  {
    if k == 0 {
      MulOne(Eval(p, x));
      AddZero(Eval(p, x));
      assert p[0..] == p;
    } else {
      var i := k - 1;
      PartialEvalRest(p, x, i);
      var a, e, y := At(p, i), EvalFrom(p, x, k), Power(x, i);
      assert EvalFrom(p, x, i) == Add(a, Mul(x, e)) by {
        if i < |p| {
          assert p[i..][1..] == p[k..];
        } else {
          AddZero(0);
        }
      }
      Distributes(y, a, Mul(x, e));
      MulComm(y, a);
      MulAssoc(y, x, e);
      MulComm(x, y);
      AddAssoc(PartialEval(p, x, i), Mul(a, y), Mul(Power(x, k), e));
    }
  }

  lemma {:induction false} PartialEvalFull(p: Poly, x: byte, k: nat)
    requires k >= |p|
    ensures PartialEval(p, x, k) == Eval(p, x)
  {
    PartialEvalRest(p, x, k);
    MulNonzero(Power(x, k), 0);
    AddZero(PartialEval(p, x, k));
  }

  /** Lambda(alpha^-i), from coefficients 0 ... L. */
  method EvalAt(t: GfTables, lam: array<byte>, length: nat, i: nat, ghost p: Poly) returns (v: byte)
    requires t.Ready() && i < N && length < lam.Length && Holds(lam[..], p) && |p| <= length + 1
    ensures v == 0 <==> IsRoot(p, i)
  {
    var e := (255 - i) % 255;
    v := 0;
    for k := 0 to length + 1
      invariant v == PartialEval(p, Exp(e), k)
    {
      var x := t.PowerAt(e, k);
      v := Add(v, t.GfMul(lam[k], x));
    }
    PartialEvalFull(p, Exp(e), length + 1);
  }

  /** Chien search, with the exit for more roots than fit. */
  method ChienC(t: GfTables, lam: array<byte>, length: nat, pos: array<nat>, ghost p: Poly) returns (found: int)
    requires t.Ready() && length < lam.Length && Holds(lam[..], p) && 1 <= |p| <= length + 1 && p[0] == 1
    requires length <= T && pos.Length == T
    modifies pos
    ensures found == |Chien(p)| <= length && pos[..found] == Chien(p)
  {
    ghost var w := RootMap(p);
    found := 0;
    RootBound(p, length);
    for i := 0 to N
      invariant 0 <= found <= T && pos[..found] == Positions(w, i)
      invariant t.Ready() && Holds(lam[..], p)
    {
      var v := EvalAt(t, lam, length, i, p);
      if v == 0 {
        RoomLeft(w, i);
        if found == T {
          assert false;
          return -1;
        }
        ghost var ps := pos[..found];
        pos[found] := i;
        found := found + 1;
        assert pos[..found] == ps + [i];
      }
    }
  }

  lemma RoomLeft(w: Word, i: nat)
    requires i < |w| && w[i]
    ensures |Positions(w, i)| < |Positions(w, |w|)|
  {
    PositionsGrow(w, i + 1, |w|);
  }

  lemma {:induction false} PositionsGrow(w: Word, j: nat, k: nat)
    requires j <= k <= |w|
    ensures |Positions(w, j)| <= |Positions(w, k)|
  {
    if j < k {
      PositionsGrow(w, j, k - 1);
    }
  }

  ghost predicate IsBits(s: seq<byte>) {
    forall i | 0 <= i < |s| :: s[i] < 2
  }

  /** r[pos[i]] ^= 1 for every error found. */
  method FlipErrors(r: array<byte>, pos: array<nat>, found: nat)
    requires IsBits(r[..]) && found <= pos.Length
    requires forall i | 0 <= i < found :: pos[i] < r.Length
    modifies r
    ensures IsBits(r[..])
    ensures WordOf(r[..]) == FlipAll(WordOf(old(r[..])), pos[..found])
  {
    for i := 0 to found
      invariant pos[..] == old(pos[..]) && IsBits(r[..])
      invariant WordOf(r[..]) == FlipAll(WordOf(old(r[..])), pos[..i])
    {
      ghost var w := WordOf(r[..]);
      var x := r[pos[i]];
      XorOne(x);
      r[pos[i]] := Add(x, 1);
      assert pos[..i + 1][..i] == pos[..i];
      assert WordOf(r[..]) == w[pos[i] := !w[pos[i]]];
    }
  }

  lemma XorOne(x: byte)
    requires x < 2
    ensures Add(x, 1) == 1 - x
  {
    AddZero(1);
  }

  /** The second half of bch_decode, from a register of at most t. */
  method LocateAndFlip(t: GfTables, r: array<byte>, pos: array<nat>, synd: array<byte>, lam: array<byte>, length: nat)
    returns (ret: int)
    requires t.Ready() && r.Length == N && IsBits(r[..]) && pos.Length == T && synd.Length == NSYND
    requires r !in {t.EXP, t.LOG, synd, lam} && synd !in {t.EXP, t.LOG, lam}
    requires var w := WordOf(r[..]); var b := Run(Syndromes(w), NSYND);
             && !IsZero(Syndromes(w))
             && length == b.length <= T && length < lam.Length && Holds(lam[..], b.lam)
    modifies r, pos, synd
    ensures IsBits(r[..])
    ensures Reports(Decode(WordOf(old(r[..]))), old(r[..]), r[..], pos[..], ret)
  {
    ghost var w := WordOf(r[..]);
    ghost var b := Run(Syndromes(w), NSYND);
    RunCorrect(Syndromes(w), NSYND);
    ret := -1;
    ZeroTest(w);
    var found := ChienC(t, lam, length, pos, b.lam);
    if found != length {
      return;
    }
    RecheckPasses(w);
    FlipErrors(r, pos, found);
    ZeroTest(WordOf(r[..]));
    var ok := SyndromesC(t, r, synd);
    if !ok {
      return;
    }
    ret := found;
  }

  /** bch_decode: corrects r in place and returns the number of errors, or leaves it
      alone and returns -1. The final check is made, and never fails. */
  method BchDecodeC(t: GfTables, r: array<byte>, pos: array<nat>) returns (ret: int)
    requires t.Ready() && r.Length == N && IsBits(r[..]) && pos.Length == T
    requires r != t.EXP && r != t.LOG
    modifies r, pos
    ensures IsBits(r[..])
    ensures Reports(Decode(WordOf(old(r[..]))), old(r[..]), r[..], pos[..], ret)
  {
    var synd := new byte[NSYND](_ => 0);
    var lam := new byte[LAM_MAX](_ => 0);
    ZeroTest(WordOf(r[..]));
    var zero := SyndromesC(t, r, synd);
    if zero {
      return 0;
    }
    var length := BerlekampMasseyC(t, synd, lam);
    if length < 0 || length > T {
      return -1;
    }
    ret := LocateAndFlip(t, r, pos, synd, lam, length);
  }

  /** What a call reports about an outcome: the corrected block, the count and the
      positions, or -1 and the block as it was. */
  ghost predicate Reports(o: Outcome, before: seq<byte>, after: seq<byte>, pos: seq<nat>, ret: int) {
    match o
    case Corrected(c, errors) => WordOf(after) == c && ret == |errors| <= |pos| && pos[..ret] == errors
    case Undecodable => ret == -1 && after == before
  }

  /** What the caller of bch_decode learns: success exactly within t of a codeword, and
      then that codeword, its distance and the flipped positions in ascending order. */
  lemma ReportMeaning(before: seq<byte>, after: seq<byte>, pos: seq<nat>, ret: int)
    requires |before| == N && Reports(Decode(WordOf(before)), before, after, pos, ret)
    ensures ret >= 0 <==> exists c :: IsCodeword(c) && Distance(WordOf(before), c) <= T
    ensures if ret < 0 then ret == -1 && after == before
            else var r, c := WordOf(before), WordOf(after);
              && IsCodeword(c) && ret == Distance(r, c) <= T
              && ret <= |pos| && pos[..ret] == Support(XorWord(r, c)) && Ascending(pos[..ret])
  {
    var r := WordOf(before);
    DecodeExact(r);
    if Decode(r).Corrected? {
      DecodeSound(r);
      PositionsSpec(XorWord(r, Decode(r).word), N);
    }
  }
}
