/**
  The code-offset fuzzy extractor: enrolment and reconstruction in the reference
  program, and the board's reconstruction on packed bytes. Whatever the messages,
  any response within t of the enrolled one in every block gives the enrolled key.
 */
module Extractor {
  import opened Wrappers
  import opened Bits
  import opened Bch
  import Gf
  import opened BinPoly
  import opened Generator
  import opened FuzzyPy
  import opened Tables
  import opened Packing
  import opened Response

  // ---------- blocks of a bit list ----------

  ghost predicate AllBlocks(bs: seq<Word>) {
    forall b | 0 <= b < |bs| :: |bs[b]| == N
  }

  /** The blocks one after another. */
  ghost function Join(bs: seq<Word>): (w: Word)
    requires AllBlocks(bs)
    ensures |w| == 255 * |bs|
  {
    if bs == [] then [] else Join(bs[..|bs| - 1]) + bs[|bs| - 1]
  }

  lemma {:induction false} JoinBlock(bs: seq<Word>, b: nat)
    requires AllBlocks(bs) && b < |bs|
    ensures Block(Join(bs), b) == bs[b]
  {
    var init, n := bs[..|bs| - 1], |bs| - 1;
    if b < n {
      JoinBlock(init, b);
    }
    forall i | 0 <= i < N
      ensures Block(Join(bs), b)[i] == bs[b][i]
    {
      if b < n {
        assert Join(bs)[255 * b + i] == Join(init)[255 * b + i] == Block(Join(init), b)[i];
      } else {
        assert Join(bs)[255 * n + i] == bs[n][i];
      }
    }
  }

  lemma {:induction false} JoinDetermined(w: Word, bs: seq<Word>)
    requires AllBlocks(bs) && |w| == 255 * |bs| && forall b | 0 <= b < |bs| :: Block(w, b) == bs[b]
    ensures w == Join(bs)
  {
    forall b | 0 <= b < |bs|
      ensures Block(w, b) == Block(Join(bs), b)
    {
      JoinBlock(bs, b);
    }
    SameBlocks(w, Join(bs), |bs|);
  }

  lemma JoinNext(bs: seq<Word>, x: Word)
    requires AllBlocks(bs) && |x| == N
    ensures AllBlocks(bs + [x]) && Join(bs + [x]) == Join(bs) + x
  {
    assert (bs + [x])[..|bs|] == bs;
  }

  /** The helper integers as blocks of bits. */
  ghost function HelperBlocks(hs: seq<nat>): (bs: seq<Word>)
    ensures |bs| == |hs| && AllBlocks(bs) && forall b | 0 <= b < |hs| :: bs[b] == ToBits(hs[b], N)
  {
    seq(|hs|, b requires 0 <= b < |hs| => ToBits(hs[b], N))
  }

  /** w[b * N:(b + 1) * N] */
  function SliceBlock(w: Word, b: nat): (x: Word)
    requires 255 * b + 255 <= |w|
    ensures x == Block(w, b)
  {
    assert w[255 * b..255 * b + 255] == Block(w, b);
    w[255 * b..255 * b + 255]
  }

  /** bits_to_int: bit i of the result is element i, and there are no others. */
  method BitsToInt(bits: Word) returns (v: nat)
    ensures v == ToInt(bits)
    ensures forall i: nat :: Bit(v, i) == (i < |bits| && bits[i])
  {
    v := 0;
    for i := 0 to |bits|
      invariant v == ToIntUpTo(bits, i)
    {
      OrComm(v, Shl(if bits[i] then 1 else 0, i));
      v := Or(v, Shl(if bits[i] then 1 else 0, i));
    }
    forall i: nat
      ensures Bit(v, i) == (i < |bits| && bits[i])
    {
      ToIntBit(bits, |bits|, i);
    }
  }

  lemma {:induction false} OrComm(a: nat, b: nat)
    ensures Or(a, b) == Or(b, a)
    decreases a + b
  {
    if a > 0 || b > 0 {
      OrComm(a / 2, b / 2);
    }
  }

  // ---------- enrolment ----------

  /** derive_key, for whatever the hash function is: the hash of the one buffer that is the
      packed form of w. */
  function DeriveKey<K>(hash: seq<byte> -> K, w: Word): (key: K)
    ensures KeyOf(hash, w, key)
  {
    forall buf | IsPacked(buf, w)
      ensures hash(buf) == hash(Pack(w))
    {
      PackedUnique(buf, Pack(w), w);
    }
    hash(Pack(w))
  }

  /** key is the hash of the bytes that hold the bits of w in order and then zeros. */
  ghost predicate KeyOf<K>(hash: seq<byte> -> K, w: Word, key: K) {
    forall buf | IsPacked(buf, w) :: key == hash(buf)
  }

  /** Every message fits a block. */
  ghost predicate Messages(g: nat, msgs: seq<nat>) {
    forall b | 0 <= b < |msgs| :: BitLength(msgs[b]) <= MessageBits(g)
  }

  ghost predicate HelperAt(g: nat, w: Word, msgs: seq<nat>, helper: seq<nat>, b: nat)
    requires g > 0 && b < |msgs| && b < |helper| && 255 * b + 255 <= |w|
  {
    helper[b] == Xor(ToInt(Block(w, b)), Encode(msgs[b], g))
  }

  /** The helper data hides each block of w behind the codeword of its message. */
  ghost predicate Enrolled(g: nat, w: Word, msgs: seq<nat>, helper: seq<nat>) {
    && IsGenerator(g) && Messages(g, msgs)
    && |helper| == |msgs| && |w| == 255 * |msgs|
    && forall b | 0 <= b < |msgs| :: HelperAt(g, w, msgs, helper, b)
  }

  /** generate; the random messages are a parameter. */
  method Generate<K>(g: nat, w: Word, msgs: seq<nat>, hash: seq<byte> -> K) returns (helper: seq<nat>, key: K)
    requires IsGenerator(g) && |w| == 255 * |msgs| && Messages(g, msgs)
    ensures Enrolled(g, w, msgs, helper) && KeyOf(hash, w, key)
    ensures forall b | 0 <= b < |msgs| :: HidesMessage(g, w, helper, b, msgs[b])
  {
    helper := [];
    for b := 0 to |msgs|
      invariant |helper| == b && forall k | 0 <= k < b :: HelperAt(g, w, msgs, helper, k)
    {
      ghost var before := helper;
      var wb := BitsToInt(SliceBlock(w, b));
      var c := BchEncode(g, msgs[b]);
      helper := helper + [Xor(wb, c)];
      forall k | 0 <= k < b + 1
        ensures HelperAt(g, w, msgs, helper, k)
      {
        assert k < b ==> HelperAt(g, w, msgs, before, k);
      }
    }
    forall b | 0 <= b < |msgs|
      ensures HidesMessage(g, w, helper, b, msgs[b])
    {
      OffsetHidesMessage(g, w, msgs, helper, b);
    }
    key := DeriveKey(hash, w);
  }

  /** Block XOR helper integer is a multiple of the generator with the message on top. */
  ghost predicate HidesMessage(g: nat, w: Word, helper: seq<nat>, b: nat, msg: nat)
    requires IsGenerator(g) && b < |helper| && 255 * b + 255 <= |w|
  {
    var c := Xor(ToInt(Block(w, b)), helper[b]);
    && BitLength(c) <= N && Mod(c, g) == 0 && Shr(c, BitLength(g) - 1) == msg
    && IsCodeword(XorWord(Block(w, b), ToBits(helper[b], N)))
  }

  /** Block and helper differ by a codeword. */
  lemma OffsetIsCodeword(g: nat, w: Word, msgs: seq<nat>, helper: seq<nat>, b: nat)
    requires Enrolled(g, w, msgs, helper) && b < |msgs|
    ensures IsCodeword(XorWord(Block(w, b), ToBits(helper[b], N)))
    ensures BitLength(helper[b]) <= N
  {
    assert HelperAt(g, w, msgs, helper, b);
    EncodeCodeword(msgs[b], g);
    HelperWord(Block(w, b), Encode(msgs[b], g));
  }

  lemma OffsetHidesMessage(g: nat, w: Word, msgs: seq<nat>, helper: seq<nat>, b: nat)
    requires Enrolled(g, w, msgs, helper) && b < |msgs|
    ensures HidesMessage(g, w, helper, b, msgs[b])
  {
    var x, c := ToInt(Block(w, b)), Encode(msgs[b], g);
    OffsetIsCodeword(g, w, msgs, helper, b);
    assert HelperAt(g, w, msgs, helper, b);
    EncodeCodeword(msgs[b], g);
    EncodeDivisible(msgs[b], g);
    EncodeShr(msgs[b], g);
    XorAssoc(x, x, c);
    XorSelf(x);
    XorZero(c);
  }

  lemma HelperWord(x: Word, c: nat)
    requires |x| == N && BitLength(c) <= N
    ensures XorWord(x, ToBits(Xor(ToInt(x), c), N)) == ToBits(c, N)
    ensures BitLength(Xor(ToInt(x), c)) <= N
  {
    var y := ToBits(Xor(ToInt(x), c), N);
    forall i | 0 <= i < N
      ensures XorWord(x, y)[i] == Bit(c, i)
    {
      ToIntBit(x, |x|, i);
      BitXor(ToInt(x), c, i);
    }
    IntRoundTrip(x);
    XorLength(ToInt(x), c, |x|);
  }

  lemma XorLength(a: nat, b: nat, n: nat)
    requires BitLength(a) <= n && BitLength(b) <= n
    ensures BitLength(Xor(a, b)) <= n
  {
    BitLengthBelow(a, n);
    BitLengthBelow(b, n);
    XorBound(a, b, n);
    BitLengthBelow(Xor(a, b), n);
  }

  // ---------- reconstruction ----------

  lemma XorAsWords(x: Word, h: nat)
    requires |x| == N
    ensures ToBits(Xor(ToInt(x), h), N) == XorWord(x, ToBits(h, N))
  {
    forall i | 0 <= i < N
      ensures ToBits(Xor(ToInt(x), h), N)[i] == XorWord(x, ToBits(h, N))[i]
    {
      ToIntBit(x, |x|, i);
      BitXor(ToInt(x), h, i);
    }
  }

  function Count(n: int): Option<nat> {
    if n < 0 then None else Some(n)
  }

  lemma ToIntXor(a: Word, b: Word)
    requires |a| == |b|
    ensures ToInt(XorWord(a, b)) == Xor(ToInt(a), ToInt(b))
  {
    forall i: nat
      ensures Bit(ToInt(XorWord(a, b)), i) == Bit(Xor(ToInt(a), ToInt(b)), i)
    {
      ToIntBit(XorWord(a, b), |a|, i);
      ToIntBit(a, |a|, i);
      ToIntBit(b, |a|, i);
      BitXor(ToInt(a), ToInt(b), i);
    }
    BitsDetermine(ToInt(XorWord(a, b)), Xor(ToInt(a), ToInt(b)));
  }

  /** The bits beyond the block are those of the helper integer. */
  lemma HighOfXor(x: Word, h: nat)
    requires |x| == N
    ensures High(Xor(ToInt(x), h)) == High(h)
  {
    var y := ToBits(h, N);
    XorAsWords(x, h);
    ToIntXor(x, y);
    XorComm(ToInt(x), h);
    XorComm(ToInt(x), ToInt(y));
    XorReduce(h, ToInt(y), ToInt(x));
  }

  /** They vanish when the corrected block is cut to N bits. */
  lemma LowOfCorrected(c: Word, h: nat)
    requires |c| == N
    ensures ToBits(Xor(Xor(High(h), ToInt(c)), h), N) == XorWord(c, ToBits(h, N))
  {
    var y := ToBits(h, N);
    forall i | 0 <= i < N
      ensures Bit(Xor(Xor(High(h), ToInt(c)), h), i) == (c[i] != y[i])
    {
      BitXor(Xor(High(h), ToInt(c)), h, i);
      BitXor(High(h), ToInt(c), i);
      BitXor(h, ToInt(y), i);
      ToIntBit(y, |y|, i);
      ToIntBit(c, |c|, i);
    }
  }

  lemma ToIntPadded(x: Word, n: nat)
    requires |x| <= n
    ensures ToInt(Padded(x, n)) == ToInt(x)
  {
    forall i: nat
      ensures Bit(ToInt(Padded(x, n)), i) == Bit(ToInt(x), i)
    {
      ToIntBit(Padded(x, n), n, i);
      ToIntBit(x, |x|, i);
    }
    BitsDetermine(ToInt(Padded(x, n)), ToInt(x));
  }

  /** The count for one block x and helper integer h: bits of h beyond the block make the
      division fail once there are errors. */
  ghost function CountInt(g: nat, x: Word, h: nat): Option<nat>
    requires g > 0 && |x| == N
  {
    var n := Report(x, ToBits(h, N));
    if n > 0 && Mod(High(h), g) != 0 then None else Count(n)
  }

  /** One turn of the loop of reproduce; a slice that runs off the end of the list counts
      as followed by zeros. */
  method ReproduceOne(t: GfTables, g: nat, x: Word, h: nat) returns (nerr: Option<nat>, bits: Word)
    requires t.Ready() && IsGenerator(g) && |x| <= N
    ensures nerr == CountInt(g, Padded(x, N), h)
    ensures nerr.Some? ==> bits == Repaired(Padded(x, N), ToBits(h, N))
  {
    ghost var y := Padded(x, N);
    var wb := BitsToInt(x);
    ToIntPadded(x, N);
    XorAsWords(y, h);
    HighOfXor(y, h);
    var out := BchDecodePy(t, g, Xor(wb, h));
    match out {
      case Decoded(c, n) =>
        LowOfCorrected(BlockOutcome(y, ToBits(h, N)).word, h);
        return Some(n), ToBits(Xor(c, h), N);
      case Failed =>
        return None, [];
    }
  }

  ghost predicate HelperFits(helper: seq<nat>) {
    forall b | 0 <= b < |helper| :: BitLength(helper[b]) <= N
  }

  /** The blocks of the response, each repaired on its own. */
  ghost function RepairedBlocks(noisy: Word, helper: seq<nat>): (bs: seq<Word>)
    requires 255 * |helper| <= |noisy|
    ensures |bs| == |helper| && AllBlocks(bs)
    ensures forall b | 0 <= b < |bs| :: bs[b] == Repaired(Block(noisy, b), ToBits(helper[b], N))
  {
    seq(|helper|, b requires 0 <= b < |helper| => Repaired(Block(noisy, b), ToBits(helper[b], N)))
  }

  ghost function Counts(noisy: Word, helper: seq<nat>): (errs: seq<Option<nat>>)
    requires 255 * |helper| <= |noisy|
    ensures |errs| == |helper|
    ensures forall b | 0 <= b < |errs| :: errs[b] == Count(Report(Block(noisy, b), ToBits(helper[b], N)))
  {
    seq(|helper|, b requires 0 <= b < |helper| => Count(Report(Block(noisy, b), ToBits(helper[b], N))))
  }

  /** The variables of the loop of reproduce after b blocks, es being the counts and bs
      the repaired blocks. */
  ghost predicate Collected(es: seq<Option<nat>>, bs: seq<Word>, b: nat, errs: seq<Option<nat>>, failed: bool, w: Word)
    requires b <= |es| == |bs| && AllBlocks(bs)
  {
    errs == es[..b] && failed == (None in errs) && (!failed ==> w == Join(bs[..b]))
  }

  lemma CollectNext(es: seq<Option<nat>>, bs: seq<Word>, b: nat, errs: seq<Option<nat>>, failed: bool, w: Word,
                    bits: Word)
    requires b < |es| == |bs| && AllBlocks(bs) && Collected(es, bs, b, errs, failed, w)
    requires es[b].Some? ==> bits == bs[b]
    ensures if es[b].Some? then Collected(es, bs, b + 1, errs + [es[b]], failed, w + bits)
            else Collected(es, bs, b + 1, errs + [es[b]], true, w)
  {
    assert es[..b + 1] == es[..b] + [es[b]] && bs[..b + 1] == bs[..b] + [bs[b]];
    JoinNext(bs[..b], bs[b]);
    assert None in errs + [es[b]] <==> None in errs || es[b] == None;
  }

  /** A response of any length as the slices see it. */
  ghost function Full(noisy: Word, n: nat): (w: Word)
    ensures 255 * n <= |w| && (255 * n <= |noisy| ==> w == noisy)
  {
    if 255 * n <= |noisy| then noisy else Padded(noisy, 255 * n)
  }

  lemma CutBlock(noisy: Word, n: nat, b: nat)
    requires b < n
    ensures |Cut(noisy, 255 * b, 255 * b + 255)| <= N
    ensures Padded(Cut(noisy, 255 * b, 255 * b + 255), N) == Block(Full(noisy, n), b)
  {
    var x, w := Cut(noisy, 255 * b, 255 * b + 255), Full(noisy, n);
    forall i | 0 <= i < N
      ensures Padded(x, N)[i] == Block(w, b)[i]
    {
      assert Block(w, b)[i] == w[255 * b + i];
    }
  }

  ghost function CountsInt(g: nat, noisy: Word, helper: seq<nat>): (errs: seq<Option<nat>>)
    requires g > 0 && 255 * |helper| <= |noisy|
    ensures |errs| == |helper|
    ensures forall b | 0 <= b < |errs| :: errs[b] == CountInt(g, Block(noisy, b), helper[b])
  {
    seq(|helper|, b requires 0 <= b < |helper| => CountInt(g, Block(noisy, b), helper[b]))
  }

  /** Helper integers that fit a block have no bits for the division to see. */
  lemma CountsOfFitting(g: nat, noisy: Word, helper: seq<nat>)
    requires IsGenerator(g) && 255 * |helper| <= |noisy| && HelperFits(helper)
    ensures CountsInt(g, noisy, helper) == Counts(noisy, helper)
  {
    ModZero(g);
    forall b | 0 <= b < |helper|
      ensures CountInt(g, Block(noisy, b), helper[b]) == Counts(noisy, helper)[b]
    {
      assert BitLength(helper[b]) <= N;
      HighAndLow(helper[b]);
    }
  }

  ghost predicate Reconstructing(g: nat, noisy: Word, helper: seq<nat>, b: nat, errs: seq<Option<nat>>,
                                 failed: bool, w: Word)
    requires g > 0 && 255 * |helper| <= |noisy| && b <= |helper|
  {
    Collected(CountsInt(g, noisy, helper), RepairedBlocks(noisy, helper), b, errs, failed, w)
  }

  lemma ReconstructNext(g: nat, noisy: Word, helper: seq<nat>, b: nat, errs: seq<Option<nat>>, failed: bool, w: Word,
                        nerr: Option<nat>, bits: Word)
    requires g > 0 && 255 * |helper| <= |noisy| && b < |helper|
    requires Reconstructing(g, noisy, helper, b, errs, failed, w) && nerr == CountInt(g, Block(noisy, b), helper[b])
    requires nerr.Some? ==> bits == Repaired(Block(noisy, b), ToBits(helper[b], N))
    ensures if nerr.Some? then Reconstructing(g, noisy, helper, b + 1, errs + [nerr], failed, w + bits)
            else Reconstructing(g, noisy, helper, b + 1, errs + [nerr], true, w)
  {
    CollectNext(CountsInt(g, noisy, helper), RepairedBlocks(noisy, helper), b, errs, failed, w, bits);
  }

  lemma Reconstructed(g: nat, noisy: Word, helper: seq<nat>, errs: seq<Option<nat>>, failed: bool, w: Word)
    requires g > 0 && 255 * |helper| <= |noisy| && Reconstructing(g, noisy, helper, |helper|, errs, failed, w)
    ensures errs == CountsInt(g, noisy, helper) && failed == (None in errs)
    ensures !failed ==> w == Join(RepairedBlocks(noisy, helper))
  {
    var es, bs := CountsInt(g, noisy, helper), RepairedBlocks(noisy, helper);
    assert es[..|helper|] == es && bs[..|helper|] == bs;
  }

  /** reproduce: the key of the repaired response, unless a block failed. */
  method Reproduce<K>(t: GfTables, g: nat, noisy: Word, helper: seq<nat>, hash: seq<byte> -> K)
    returns (key: Option<K>, errs: seq<Option<nat>>)
    requires t.Ready() && IsGenerator(g)
    ensures errs == CountsInt(g, Full(noisy, |helper|), helper)
    ensures HelperFits(helper) ==> errs == Counts(Full(noisy, |helper|), helper)
    ensures key == None <==> None in errs
    ensures key.Some? ==> KeyOf(hash, Join(RepairedBlocks(Full(noisy, |helper|), helper)), key.value)
    ensures forall w, msgs | Enrolled(g, w, msgs, helper) && |noisy| == |w| && WithinT(noisy, w, |msgs|) ::
      key.Some? && KeyOf(hash, w, key.value)
  {
    ghost var full := Full(noisy, |helper|);
    errs := [];
    var w: Word, failed := [], false;
    for b := 0 to |helper|
      invariant Reconstructing(g, full, helper, b, errs, failed, w)
    {
      CutBlock(noisy, |helper|, b);
      var nerr, bits := ReproduceOne(t, g, Cut(noisy, 255 * b, 255 * b + 255), helper[b]);
      ReconstructNext(g, full, helper, b, errs, failed, w, nerr, bits);
      errs := errs + [nerr];
      if nerr == None {
        failed := true;
        continue;
      }
      w := w + bits;
    }
    Reconstructed(g, full, helper, errs, failed, w);
    if HelperFits(helper) {
      CountsOfFitting(g, full, helper);
    }
    key := if failed then None else Some(DeriveKey(hash, w));
    forall w, msgs | Enrolled(g, w, msgs, helper) && |noisy| == |w| && WithinT(noisy, w, |msgs|)
      ensures key.Some? && KeyOf(hash, w, key.value)
    {
      ReproduceRecovers(g, w, msgs, helper, noisy);
    }
  }

  /** reproduce returns the enrolled key, with the exact error counts, for every choice
      of messages and every response within t in each block. */
  lemma ReproduceRecovers(g: nat, w: Word, msgs: seq<nat>, helper: seq<nat>, noisy: Word)
    requires Enrolled(g, w, msgs, helper) && |noisy| == |w| && WithinT(noisy, w, |msgs|)
    ensures HelperFits(helper) && None !in Counts(noisy, helper)
    ensures Join(RepairedBlocks(noisy, helper)) == w
    ensures forall b | 0 <= b < |msgs| :: Counts(noisy, helper)[b] == Some(BlockDistance(noisy, w, b))
  {
    var bs := RepairedBlocks(noisy, helper);
    forall b | 0 <= b < |msgs|
      ensures BitLength(helper[b]) <= N
      ensures Block(w, b) == bs[b]
      ensures Counts(noisy, helper)[b] == Some(BlockDistance(noisy, w, b))
    {
      assert BlockDistance(noisy, w, b) <= T;
      OffsetIsCodeword(g, w, msgs, helper, b);
      BlockRecovered(Block(w, b), Block(noisy, b), ToBits(helper[b], N));
    }
    JoinDetermined(w, bs);
  }

  /** Block b of the response, XOR the helper integer, lies within t of a codeword. */
  ghost predicate Decodable(noisy: Word, helper: seq<nat>, b: nat)
    requires b < |helper| && 255 * b + 255 <= |noisy|
  {
    exists c :: IsCodeword(c) && Distance(XorWord(Block(noisy, b), ToBits(helper[b], N)), c) <= T
  }

  /** A helper integer with bits beyond the block that the generator does not divide away,
      when the block is not already a codeword: then the final division fails. */
  ghost predicate Overlong(g: nat, noisy: Word, helper: seq<nat>, b: nat)
    requires g > 0 && b < |helper| && 255 * b + 255 <= |noisy|
  {
    Mod(High(helper[b]), g) != 0 && !IsCodeword(XorWord(Block(noisy, b), ToBits(helper[b], N)))
  }

  /** A block is reported without errors exactly when it is a codeword already. */
  lemma NoErrorExactly(x: Word, y: Word)
    requires |x| == |y| == N
    ensures Report(x, y) == 0 <==> IsCodeword(XorWord(x, y))
  {
    CleanExactly(XorWord(x, y));
  }

  lemma BlockFailsExactly(g: nat, noisy: Word, helper: seq<nat>, b: nat)
    requires g > 0 && b < |helper| && 255 * |helper| <= |noisy|
    ensures CountsInt(g, noisy, helper)[b] == None <==> !Decodable(noisy, helper, b) || Overlong(g, noisy, helper, b)
  {
    BlockFate(Block(noisy, b), ToBits(helper[b], N));
    NoErrorExactly(Block(noisy, b), ToBits(helper[b], N));
  }

  /** reproduce fails exactly when some block is not decodable, or its helper integer has
      bits beyond the block that the final division does not forgive. */
  lemma FailsExactly(g: nat, noisy: Word, helper: seq<nat>)
    requires g > 0 && 255 * |helper| <= |noisy|
    ensures None in CountsInt(g, noisy, helper)
       <==> exists b | 0 <= b < |helper| :: !Decodable(noisy, helper, b) || Overlong(g, noisy, helper, b)
  {
    forall b | 0 <= b < |helper|
      ensures CountsInt(g, noisy, helper)[b] == None <==>
              !Decodable(noisy, helper, b) || Overlong(g, noisy, helper, b)
    {
      BlockFailsExactly(g, noisy, helper, b);
    }
  }

  /** Helper integers as generate and helper_ints give them are never overlong. */
  lemma FittingFailsExactly(g: nat, noisy: Word, helper: seq<nat>)
    requires IsGenerator(g) && 255 * |helper| <= |noisy| && HelperFits(helper)
    ensures None in CountsInt(g, noisy, helper) <==> exists b | 0 <= b < |helper| :: !Decodable(noisy, helper, b)
  {
    FailsExactly(g, noisy, helper);
    ModZero(g);
    forall b | 0 <= b < |helper|
      ensures !Overlong(g, noisy, helper, b)
    {
      assert BitLength(helper[b]) <= N;
      HighAndLow(helper[b]);
    }
  }

  /** The word of n bits with only bit 0 set. */
  function FirstBit(n: nat): (w: Word)
    ensures |w| == n && forall i | 0 <= i < n :: w[i] == (i == 0)
  {
    seq(n, i requires 0 <= i < n => i == 0)
  }

  function NoBits(n: nat): (w: Word)
    ensures |w| == n && forall i | 0 <= i < n :: !w[i]
  {
    seq(n, _ => false)
  }

  lemma {:induction false} FirstBitDistance(n: nat, k: nat)
    requires k <= n
    ensures DistanceUpTo(FirstBit(n), NoBits(n), k) == if k == 0 then 0 else 1
  {
    if k > 0 {
      FirstBitDistance(n, k - 1);
    }
  }

  lemma {:induction false} NoBitsSyndrome(n: nat, j: nat, k: nat)
    requires k <= n
    ensures SyndromeUpTo(NoBits(n), j, k) == 0
  {
    if k > 0 {
      NoBitsSyndrome(n, j, k - 1);
      Gf.AddZero(0);
    }
  }

  lemma NoBitsIsCodeword(n: nat)
    requires n == N
    ensures IsCodeword(NoBits(n))
  {
    forall j | 0 <= j < NSYND
      ensures Syndromes(NoBits(n))[j] == 0
    {
      NoBitsSyndrome(n, j + 1, n);
    }
  }

  /** 1 << n has no bit below n. */
  lemma PowerIsHigh(n: nat)
    requires n == N
    ensures ToBits(Pow2(n), n) == NoBits(n) && High(Pow2(n)) == Pow2(n)
  {
    var h := Pow2(n);
    forall i | 0 <= i < n
      ensures !ToBits(h, n)[i]
    {
      BitPow2(n, i);
    }
    IntOfNoBits(n, n);
    XorZero(h);
  }

  /** x^255 has the value 1 at alpha, where the generator vanishes. */
  lemma PowerNotMultiple(g: nat, n: nat, x: byte)
    requires IsGenerator(g) && n == N && x == Gf.Exp(1)
    ensures Mod(Pow2(n), g) != 0
  {
    ZeroIn(1);
    ModValue(Pow2(n), g, x);
    ValuePow2(n, x);
    Gf.PowerIs(1, n, n);
    Gf.Order(n);
  }

  lemma {:induction false} IntOfNoBits(n: nat, k: nat)
    requires k <= n
    ensures ToIntUpTo(NoBits(n), k) == 0
  {
    if k > 0 {
      IntOfNoBits(n, k - 1);
      ToIntBound(NoBits(n), k);
    }
  }

  lemma OverlongBlock(g: nat, h: nat, n: nat)
    requires IsGenerator(g) && n == N && ToBits(h, n) == NoBits(n) && Mod(High(h), g) != 0
    ensures Report(FirstBit(n), ToBits(h, n)) == 1 && CountInt(g, FirstBit(n), h) == None
    ensures IsCodeword(NoBits(n)) && Distance(XorWord(FirstBit(n), ToBits(h, n)), NoBits(n)) == 1
  {
    var x, y := FirstBit(n), NoBits(n);
    NoBitsIsCodeword(n);
    FirstBitDistance(n, n);
    assert XorWord(y, y) == y && XorWord(x, y) == x;
    BlockRecovered(y, x, y);
  }

  /** For helper integers that do not fit, decodable blocks are not enough: one flipped bit
      and the helper integer 2^255 make reproduce fail. */
  lemma OverlongHelperFails(g: nat, n: nat, h: nat)
    requires IsGenerator(g) && n == N && h == Pow2(n)
    ensures Decodable(FirstBit(n), [h], 0) && !HelperFits([h])
    ensures Counts(FirstBit(n), [h])[0] == Some(1) && CountsInt(g, FirstBit(n), [h])[0] == None
  {
    PowerIsHigh(n);
    PowerNotMultiple(g, n, Gf.Exp(1));
    OverlongBlock(g, h, n);
    assert Block(FirstBit(n), 0) == FirstBit(n);
    HighAndLow(h);
    ModZero(g);
    assert BitLength([h][0]) > N;
  }

  /** The response is recovered exactly when it is within t of the enrolled one in every
      block: more noise may give another key, never this one. */
  lemma RecoversExactly(g: nat, w: Word, msgs: seq<nat>, helper: seq<nat>, noisy: Word)
    requires Enrolled(g, w, msgs, helper) && |noisy| == |w|
    ensures None !in Counts(noisy, helper) && Join(RepairedBlocks(noisy, helper)) == w
       <==> WithinT(noisy, w, |msgs|)
  {
    if WithinT(noisy, w, |msgs|) {
      ReproduceRecovers(g, w, msgs, helper, noisy);
    }
    if None !in Counts(noisy, helper) && Join(RepairedBlocks(noisy, helper)) == w {
      forall b | 0 <= b < |msgs|
        ensures BlockDistance(noisy, w, b) <= T
      {
        RecoveredIsClose(noisy, helper, b);
      }
    }
  }

  lemma RecoveredIsClose(noisy: Word, helper: seq<nat>, b: nat)
    requires b < |helper| && |noisy| == 255 * |helper| && Counts(noisy, helper)[b] != None
    ensures BlockDistance(noisy, Join(RepairedBlocks(noisy, helper)), b) <= T
  {
    BlockFate(Block(noisy, b), ToBits(helper[b], N));
    JoinBlock(RepairedBlocks(noisy, helper), b);
  }

  /** The codeword of the message 1. */
  ghost function OneWord(g: nat): (c: Word)
    requires g > 0
    ensures |c| == N
  {
    ToBits(Encode(1, g), N)
  }

  lemma OneWordIsCodeword(g: nat)
    requires IsGenerator(g)
    ensures IsCodeword(OneWord(g)) && OneWord(g)[76]
  {
    MessageBitsIs179(g);
    EncodeCodeword(1, g);
    EncodeTop(1, g, 0);
  }

  lemma CodewordSum(a: Word, c: Word)
    requires IsCodeword(a) && IsCodeword(c)
    ensures IsCodeword(XorWord(a, c))
  {
    SyndromesSeeErrorsOnly(a, c);
  }

  /** The first block moved by a codeword. */
  ghost function Moved(g: nat, w: Word): (v: Word)
    requires g > 0 && 255 <= |w|
    ensures |v| == |w|
  {
    Splice(w, 0, XorWord(Block(w, 0), OneWord(g)))
  }

  /** A result of 0 does not by itself mean that w was recovered: a response moved by a
      codeword is reported without any error, and hashed to another key. */
  lemma SilentMiscorrection(g: nat, w: Word, msgs: seq<nat>, helper: seq<nat>)
    requires Enrolled(g, w, msgs, helper) && msgs != []
    ensures Join(RepairedBlocks(Moved(g, w), helper)) == Moved(g, w) != w
    ensures forall b | 0 <= b < |msgs| :: Counts(Moved(g, w), helper)[b] == Some(0)
  {
    var v := Moved(g, w);
    forall b | 0 <= b < |msgs|
      ensures Block(v, b) == RepairedBlocks(v, helper)[b] && Counts(v, helper)[b] == Some(0)
    {
      MovedBlock(g, w, msgs, helper, b);
      DistanceSelf(Block(v, b), N);
      BlockRecovered(Block(v, b), Block(v, b), ToBits(helper[b], N));
    }
    JoinDetermined(v, RepairedBlocks(v, helper));
    OneWordIsCodeword(g);
    assert v[76] == XorWord(Block(w, 0), OneWord(g))[76] != Block(w, 0)[76] == w[76];
  }

  lemma MovedBlock(g: nat, w: Word, msgs: seq<nat>, helper: seq<nat>, b: nat)
    requires Enrolled(g, w, msgs, helper) && b < |msgs|
    ensures IsCodeword(XorWord(Block(Moved(g, w), b), ToBits(helper[b], N)))
  {
    var y, c := ToBits(helper[b], N), OneWord(g);
    SpliceBlocks(w, 0, XorWord(Block(w, 0), c));
    OffsetIsCodeword(g, w, msgs, helper, b);
    if b == 0 {
      OneWordIsCodeword(g);
      CodewordSum(XorWord(Block(w, 0), y), c);
      assert XorWord(Block(Moved(g, w), 0), y) == XorWord(XorWord(Block(w, 0), y), c);
    }
  }

  // ---------- the board on the same helper data ----------

  ghost predicate StoredAt(wHelper: seq<byte>, helper: seq<nat>, b: nat)
    requires b < |helper| && 255 * b + 255 <= 8 * |wHelper|
  {
    Block(Unpack(wHelper), b) == ToBits(helper[b], N)
  }

  /** Block b of the stored W is helper integer b. */
  ghost predicate StoredHelper(wHelper: seq<byte>, helper: seq<nat>) {
    255 * |helper| <= 8 * |wHelper| && forall b | 0 <= b < |helper| :: StoredAt(wHelper, helper, b)
  }

  lemma PackedHelperStored(wHelper: seq<byte>, helper: seq<nat>)
    requires IsPacked(wHelper, Join(HelperBlocks(helper)))
    ensures StoredHelper(wHelper, helper)
  {
    forall b | 0 <= b < |helper|
      ensures StoredAt(wHelper, helper, b)
    {
      PackedBlock(wHelper, Join(HelperBlocks(helper)), b);
      JoinBlock(HelperBlocks(helper), b);
    }
  }

  /** A response in a packed buffer with zero padding. */
  lemma PackedBlock(buf: seq<byte>, w: Word, b: nat)
    requires IsPacked(buf, w) && 255 * b + 255 <= |w|
    ensures |w| <= 8 * |buf| && Block(Unpack(buf), b) == Block(w, b)
  {
    forall i | 0 <= i < N
      ensures Block(Unpack(buf), b)[i] == Block(w, b)[i]
    {
      assert Padded(w, 8 * |buf|)[255 * b + i] == w[255 * b + i];
    }
  }

  /** The board refines the reference on every response and helper data: the buffer holds
      the bits the reference hashes, and the counts agree, except that the board, which has
      no bits beyond a block, does not fail where the reference's division does. */
  lemma BoardAgrees(g: nat, noisy: Word, helper: seq<nat>, wHelper: seq<byte>, before: seq<byte>, after: seq<byte>,
                    errs: seq<int>)
    requires IsGenerator(g) && |noisy| == 255 * |helper| && StoredHelper(wHelper, helper) && IsPacked(before, noisy)
    requires |after| == |before| && Rebuilt(Unpack(before), Unpack(wHelper), |helper|, Unpack(after), errs)
    ensures after == Pack(Join(RepairedBlocks(noisy, helper)))
    ensures forall b | 0 <= b < |helper| ::
      CountsInt(g, noisy, helper)[b] == if Overlong(g, noisy, helper, b) then None else Count(errs[b])
    ensures HelperFits(helper) ==> (NoFailure(errs, |helper|) <==> None !in CountsInt(g, noisy, helper))
    ensures HelperFits(helper) ==> forall b | 0 <= b < |helper| :: CountsInt(g, noisy, helper)[b] == Count(errs[b])
  {
    BoardCounts(noisy, helper, wHelper, before, after, errs);
    forall b | 0 <= b < |helper|
      ensures CountsInt(g, noisy, helper)[b] == if Overlong(g, noisy, helper, b) then None else Count(errs[b])
    {
      assert Counts(noisy, helper)[b] == Count(errs[b]);
      NoErrorExactly(Block(noisy, b), ToBits(helper[b], N));
    }
    if HelperFits(helper) {
      CountsOfFitting(g, noisy, helper);
    }
  }

  /** The same by the counts of the low bits, which is what the board can see. */
  lemma BoardCounts(noisy: Word, helper: seq<nat>, wHelper: seq<byte>, before: seq<byte>, after: seq<byte>,
                    errs: seq<int>)
    requires |noisy| == 255 * |helper| && StoredHelper(wHelper, helper) && IsPacked(before, noisy)
    requires |after| == |before| && Rebuilt(Unpack(before), Unpack(wHelper), |helper|, Unpack(after), errs)
    ensures forall b | 0 <= b < |helper| :: Counts(noisy, helper)[b] == Count(errs[b])
    ensures NoFailure(errs, |helper|) <==> None !in Counts(noisy, helper)
    ensures after == Pack(Join(RepairedBlocks(noisy, helper)))
  {
    forall b | 0 <= b < |helper|
      ensures Counts(noisy, helper)[b] == Count(errs[b])
    {
      BlockAgrees(noisy, helper, wHelper, before, after, errs, b);
    }
    SameFailures(Counts(noisy, helper), errs);
    BufferAgrees(noisy, helper, wHelper, before, after, errs);
  }

  lemma SameFailures(es: seq<Option<nat>>, errs: seq<int>)
    requires |es| <= |errs| && forall b | 0 <= b < |es| :: es[b] == Count(errs[b])
    ensures NoFailure(errs, |es|) <==> None !in es
  {
    assert forall b | 0 <= b < |es| :: errs[b] >= 0 <==> es[b] != None;
  }

  lemma BufferAgrees(noisy: Word, helper: seq<nat>, wHelper: seq<byte>, before: seq<byte>, after: seq<byte>,
                     errs: seq<int>)
    requires |noisy| == 255 * |helper| && StoredHelper(wHelper, helper) && IsPacked(before, noisy)
    requires |after| == |before| && Rebuilt(Unpack(before), Unpack(wHelper), |helper|, Unpack(after), errs)
    ensures after == Pack(Join(RepairedBlocks(noisy, helper)))
  {
    forall b | 0 <= b < |helper|
      ensures Block(Unpack(after), b) == RepairedBlocks(noisy, helper)[b]
    {
      BlockAgrees(noisy, helper, wHelper, before, after, errs, b);
    }
    PackedFrom(after, RepairedBlocks(noisy, helper));
  }

  lemma BlockAgrees(noisy: Word, helper: seq<nat>, wHelper: seq<byte>, before: seq<byte>, after: seq<byte>,
                    errs: seq<int>, b: nat)
    requires |noisy| == 255 * |helper| && StoredHelper(wHelper, helper) && IsPacked(before, noisy)
    requires |after| == |before| && Rebuilt(Unpack(before), Unpack(wHelper), |helper|, Unpack(after), errs)
    requires b < |helper|
    ensures errs[b] == Report(Block(noisy, b), ToBits(helper[b], N))
    ensures Block(Unpack(after), b) == Repaired(Block(noisy, b), ToBits(helper[b], N))
  {
    assert StoredAt(wHelper, helper, b);
    PackedBlock(before, noisy, b);
    assert Done(Unpack(before), Unpack(wHelper), Unpack(after), b);
    assert Reported(Unpack(before), Unpack(wHelper), errs, b);
  }

  /** A buffer with these blocks and zeros after them is their packed form. */
  lemma PackedFrom(buf: seq<byte>, bs: seq<Word>)
    requires AllBlocks(bs) && |buf| == PackedSize(255 * |bs|)
    requires forall b | 0 <= b < |bs| :: Block(Unpack(buf), b) == bs[b]
    requires forall i | 255 * |bs| <= i < 8 * |buf| :: !Unpack(buf)[i]
    ensures buf == Pack(Join(bs))
  {
    var w := Join(bs);
    forall b | 0 <= b < |bs|
      ensures Block(Unpack(buf), b) == Block(w, b)
    {
      JoinBlock(bs, b);
    }
    SameBlocks(Unpack(buf), w, |bs|);
    assert Unpack(buf) == Padded(w, 8 * |buf|);
    PackedUnique(buf, Pack(w), w);
  }

  /** fuzzy_reproduce turns packed w' into exactly packed w, padding included, returns 0
      and reports each block's Hamming distance. */
  lemma BoardRecovers(g: nat, w: Word, msgs: seq<nat>, helper: seq<nat>, noisy: Word,
                      wHelper: seq<byte>, before: seq<byte>, after: seq<byte>, errs: seq<int>)
    requires Enrolled(g, w, msgs, helper) && |noisy| == |w| && WithinT(noisy, w, |msgs|)
    requires StoredHelper(wHelper, helper) && IsPacked(before, noisy) && |after| == |before|
    requires Rebuilt(Unpack(before), Unpack(wHelper), |msgs|, Unpack(after), errs)
    ensures after == Pack(w) && NoFailure(errs, |msgs|)
    ensures forall b | 0 <= b < |msgs| :: errs[b] == BlockDistance(noisy, w, b)
  {
    var n := |msgs|;
    var target := Unpack(Pack(w));
    forall b | 0 <= b < n
      ensures OffsetAt(target, Unpack(wHelper), b)
      ensures BlockDistance(Unpack(before), target, b) == BlockDistance(noisy, w, b) <= T
    {
      OffsetIsCodeword(g, w, msgs, helper, b);
      assert StoredAt(wHelper, helper, b);
      PackedBlock(Pack(w), w, b);
      PackedBlock(before, noisy, b);
    }
    Recovers(target, Unpack(before), Unpack(wHelper), n, Unpack(after), errs);
    assert Unpack(after) == target;
    UnpackInjective(after, Pack(w));
  }

  /** On the board: 0 is returned, every entry of errs is 0 and the buffer stays as it was,
      for a response that is not w. */
  lemma BoardMiscorrects(g: nat, w: Word, msgs: seq<nat>, helper: seq<nat>, wHelper: seq<byte>,
                         before: seq<byte>, after: seq<byte>, errs: seq<int>)
    requires Enrolled(g, w, msgs, helper) && msgs != [] && StoredHelper(wHelper, helper)
    requires IsPacked(before, Moved(g, w)) && |after| == |before|
    requires Rebuilt(Unpack(before), Unpack(wHelper), |msgs|, Unpack(after), errs)
    ensures NoFailure(errs, |msgs|) && forall b | 0 <= b < |msgs| :: errs[b] == 0
    ensures after == before == Pack(Moved(g, w)) != Pack(w)
  {
    SilentMiscorrection(g, w, msgs, helper);
    BoardCounts(Moved(g, w), helper, wHelper, before, after, errs);
    forall b | 0 <= b < |msgs|
      ensures errs[b] == 0
    {
      assert Counts(Moved(g, w), helper)[b] == Count(errs[b]);
    }
    PackedUnique(before, Pack(Moved(g, w)), Moved(g, w));
    if Pack(Moved(g, w)) == Pack(w) {
      PackInjective(Moved(g, w), w);
    }
  }
}
