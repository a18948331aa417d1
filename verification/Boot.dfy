/**
  Power-up on the board: the checks on the helper data and the key reconstruction, and
  the path from the training dumps to the bytes the key is hashed from.
 */
module Boot {
  import opened Wrappers
  import opened Bits
  import opened Bch
  import opened Generator
  import opened Tables
  import opened Packing
  import opened Response
  import opened Extractor
  import opened HelperFormat
  import opened Mask

  const PUF_ADDR: nat := 0x3FFDFC00
  const PUF_SIZE: nat := 1024
  const HD_SIZE: nat := 1237
  const HD_PAYLOAD: nat := 1173
  const HD_MASK: nat := 21
  const HD_W: nat := 1045
  const HD_W_LEN: nat := 128
  const W_MAX_BYTES: nat := 128

  /** Why the firmware halts. */
  datatype Reason =
    | WrongSize | BadSignature | BadMagic | OtherChip | OtherRegion | WrongMask | UnsupportedCode
    | TooLarge | FewCells | TooNoisy

  /** Halted for a reason, or the bytes handed to SHA-256. */
  datatype BootResult = Halt(why: Reason) | KeyInput(w: seq<byte>)

  // ---------- little-endian reads ----------

  /** p[0] | (p[1] << 8) */
  function Le16(p: seq<byte>): nat
    requires |p| == 2
  {
    Or(p[0], Shl(p[1], 8))
  }

  /** p[0] | (p[1] << 8) | (p[2] << 16) | (p[3] << 24) */
  function Le32(p: seq<byte>): nat
    requires |p| == 4
  {
    Or(Or(Or(p[0], Shl(p[1], 8)), Shl(p[2], 16)), Shl(p[3], 24))
  }

  lemma {:induction false} ShlByte(x: nat, k: nat)
    ensures Shl(x, k + 8) == 256 * Shl(x, k)
  {
    ShlFour(x, k);
    ShlFour(x, k + 4);
  }

  lemma {:induction false} FromLeAppend(s: seq<byte>, p: byte)
    ensures FromLe(s + [p]) == FromLe(s) + Shl(p, 8 * |s|)
  {
    if s == [] {
      assert s + [p] == [p] && [p][1..] == [];
    } else {
      assert (s + [p])[1..] == s[1..] + [p];
      FromLeAppend(s[1..], p);
      ShlByte(p, 8 * |s[1..]|);
    }
  }

  lemma {:induction false} FromLeBound(s: seq<byte>)
    ensures FromLe(s) < Pow2(8 * |s|)
  {
    if s != [] {
      FromLeBound(s[1..]);
      var k := 8 * |s[1..]|;
      ShlByte(1, k);
      ShlOne(k);
      ShlOne(k + 8);
    }
  }

  /** One more byte above those already read. */
  lemma {:induction false} OrByte(s: seq<byte>, p: byte)
    ensures Or(FromLe(s), Shl(p, 8 * |s|)) == FromLe(s + [p])
  {
    FromLeAppend(s, p);
    FromLeBound(s);
    OrComm(FromLe(s), Shl(p, 8 * |s|));
    OrDisjoint(p, 8 * |s|, FromLe(s));
  }

  /** The firmware's shifts read what struct.unpack reads. */
  lemma {:induction false} Le16Reads(p: seq<byte>)
    requires |p| == 2
    ensures Le16(p) == FromLe(p)
  {
    OrByte([p[0]], p[1]);
    assert p == [p[0]] + [p[1]];
  }

  lemma {:induction false} Le32Reads(p: seq<byte>)
    requires |p| == 4
    ensures Le32(p) == FromLe(p)
  {
    Le16Reads(p[..2]);
    OrByte(p[..2], p[2]);
    OrByte(p[..3], p[3]);
    assert p[..3] == p[..2] + [p[2]] && p == p[..3] + [p[3]];
  }

  // ---------- counting the mask ----------

  /** __builtin_popcount */
  function Popcount(v: nat): nat {
    if v == 0 then 0 else v % 2 + Popcount(v / 2)
  }

  lemma {:induction false} ShrStep(v: nat, k: nat)
    ensures Shr(v, k) == 2 * Shr(v, k + 1) + (if Bit(v, k) then 1 else 0)
    decreases k
  {
    if k > 0 {
      ShrStep(v / 2, k - 1);
    }
  }

  lemma {:induction false} ShrZero(v: nat, k: nat)
    requires v < Pow2(k)
    ensures Shr(v, k) == 0
    decreases k
  {
    if k > 0 {
      ShrZero(v / 2, k - 1);
    }
  }

  /** The ones among the top j bits of byte i. */
  lemma {:induction false} OnesOfByte(buf: seq<byte>, i: nat, j: nat, k: nat)
    requires i < |buf| && j + k == 8
    ensures |Positions(Unpack(buf), 8 * i + j)| == |Positions(Unpack(buf), 8 * i)| + Popcount(Shr(buf[i], k))
    decreases j
  {
    if j == 0 {
      assert Pow2(8) == 256;
      ShrZero(buf[i], k);
    } else {
      OnesOfByte(buf, i, j - 1, k + 1);
      NextBit(buf, i, k, 8 * i + j - 1);
    }
  }

  /** Bit k of byte i is position p of the buffer. */
  lemma {:induction false} NextBit(buf: seq<byte>, i: nat, k: nat, p: nat)
    requires i < |buf| && p + k == 8 * i + 7 && k < 8
    ensures |Positions(Unpack(buf), p + 1)| - |Positions(Unpack(buf), p)|
         == Popcount(Shr(buf[i], k)) - Popcount(Shr(buf[i], k + 1))
  {
    BitOfByte(buf, i, k);
    ShrStep(buf[i], k);
    PopcountStep(Shr(buf[i], k + 1), Bit(buf[i], k));
  }

  lemma PopcountStep(v: nat, bit: bool)
    ensures Popcount(2 * v + (if bit then 1 else 0)) == Popcount(v) + (if bit then 1 else 0)
  {
  }

  /** The popcount loop over the mask. */
  method CountCells(mask: seq<byte>) returns (cells: nat)
    ensures cells == |Support(Unpack(mask))|
  {
    cells := 0;
    for i := 0 to |mask|
      invariant cells == |Positions(Unpack(mask), 8 * i)|
    {
      OnesOfByte(mask, i, 8, 0);
      cells := cells + Popcount(mask[i]);
    }
  }

  // ---------- rebuilding the key ----------

  /** The response read at this power-up: the snapshot in the cells of the mask. */
  function Reading(snapshot: seq<byte>, mask: seq<byte>): Word
    requires |mask| == |snapshot|
  {
    Select(Unpack(mask), Unpack(snapshot), 8 * |mask|)
  }

  lemma ReadingLength(snapshot: seq<byte>, mask: seq<byte>)
    requires |mask| == |snapshot|
    ensures |Reading(snapshot, mask)| == |Support(Unpack(mask))|
    ensures Reading(snapshot, mask) == Pick(Unpack(snapshot), Support(Unpack(mask)))
  {
    SelectIsRank(Unpack(mask), Unpack(snapshot), 8 * |mask|);
    SelectIsPick(Unpack(mask), Unpack(snapshot));
  }

  /** The stored W, one integer per block. */
  ghost function BoardHelper(wHelper: seq<byte>, blocks: nat): (helper: seq<nat>)
    requires 255 * blocks <= 8 * |wHelper|
    ensures |helper| == blocks && forall b | 0 <= b < blocks :: helper[b] == ToInt(Block(Unpack(wHelper), b))
  {
    seq(blocks, b requires 0 <= b < blocks => ToInt(Block(Unpack(wHelper), b)))
  }

  lemma BoardHelperStored(wHelper: seq<byte>, blocks: nat)
    requires 255 * blocks <= 8 * |wHelper|
    ensures StoredHelper(wHelper, BoardHelper(wHelper, blocks)) && HelperFits(BoardHelper(wHelper, blocks))
  {
    forall b | 0 <= b < blocks
      ensures StoredAt(wHelper, BoardHelper(wHelper, blocks), b) && BitLength(BoardHelper(wHelper, blocks)[b]) <= N
    {
      IntRoundTrip(Block(Unpack(wHelper), b));
    }
  }

  /** rebuild_key, said with the reference program's reconstruction of the first cells. */
  ghost function RebuildSpec(snapshot: seq<byte>, mask: seq<byte>, wHelper: seq<byte>, blocks: nat): BootResult
    requires |mask| == |snapshot| && |wHelper| == HD_W_LEN
  {
    if blocks > 4 then Halt(TooLarge)
    else if |Reading(snapshot, mask)| < 255 * blocks then Halt(FewCells)
    else
      var noisy, helper := Reading(snapshot, mask)[..255 * blocks], BoardHelper(wHelper, blocks);
      if None in Counts(noisy, helper) then Halt(TooNoisy)
      else KeyInput(Pack(Join(RepairedBlocks(noisy, helper))))
  }

  /** No codeword is within t of block b of the response XOR W. */
  ghost predicate TooFar(reading: Word, helperBits: Word, b: nat)
    requires 255 * b + 255 <= |reading| && 255 * b + 255 <= |helperBits|
  {
    forall c | IsCodeword(c) :: Distance(XorWord(Block(reading, b), Block(helperBits, b)), c) > T
  }

  /** w is within t of the response in every block, and W hides it behind codewords. */
  ghost predicate Behind(reading: Word, helperBits: Word, blocks: nat, w: Word)
    requires 255 * blocks <= |reading| && 255 * blocks <= |helperBits|
  {
    |w| == 255 * blocks && CodeOffset(w, helperBits, blocks) && WithinT(reading, w, blocks)
  }

  /** What a reconstruction should give, without saying how: the packed form of the word
      behind W that is near the response, or a halt because a block is too far. */
  ghost predicate Rebuilds(reading: Word, helperBits: Word, blocks: nat, r: BootResult)
    requires 255 * blocks <= |reading| && 255 * blocks <= |helperBits|
  {
    match r
    case KeyInput(x) => exists w :: Behind(reading, helperBits, blocks, w) && IsPacked(x, w)
    case Halt(why) => why == TooNoisy && exists b | 0 <= b < blocks :: TooFar(reading, helperBits, b)
  }

  /** At most one word is near the response. */
  lemma BehindIsUnique(reading: Word, helperBits: Word, blocks: nat, v: Word, w: Word)
    requires 255 * blocks <= |reading| && 255 * blocks <= |helperBits|
    requires Behind(reading, helperBits, blocks, v) && Behind(reading, helperBits, blocks, w)
    ensures v == w
  {
    forall b | 0 <= b < blocks
      ensures Block(v, b) == Block(w, b)
    {
      NearBlock(reading, helperBits, v, b);
      NearBlock(reading, helperBits, w, b);
      var y := Block(helperBits, b);
      UniqueCodeword(XorWord(Block(reading, b), y), XorWord(Block(v, b), y), XorWord(Block(w, b), y));
      assert Block(v, b) == XorWord(XorWord(Block(v, b), y), y);
      assert Block(w, b) == XorWord(XorWord(Block(w, b), y), y);
    }
    SameBlocks(v, w, blocks);
  }

  lemma NearBlock(reading: Word, helperBits: Word, w: Word, b: nat)
    requires 255 * b + 255 <= |reading| && 255 * b + 255 <= |helperBits| && 255 * b + 255 <= |w|
    requires OffsetAt(w, helperBits, b) && BlockDistance(reading, w, b) <= T
    ensures var y := Block(helperBits, b);
            IsCodeword(XorWord(Block(w, b), y)) && Distance(XorWord(Block(reading, b), y), XorWord(Block(w, b), y)) <= T
    ensures !TooFar(reading, helperBits, b)
  {
    DistanceShift(Block(reading, b), Block(w, b), Block(helperBits, b), N);
  }

  /** So the outcome is determined. */
  lemma RebuildsOneWay(reading: Word, helperBits: Word, blocks: nat, r: BootResult, other: BootResult)
    requires 255 * blocks <= |reading| && 255 * blocks <= |helperBits|
    requires Rebuilds(reading, helperBits, blocks, r) && Rebuilds(reading, helperBits, blocks, other)
    ensures r == other
  {
    if r.KeyInput? {
      var v :| Behind(reading, helperBits, blocks, v) && IsPacked(r.w, v);
      BehindExcludesFar(reading, helperBits, blocks, v);
      var w :| Behind(reading, helperBits, blocks, w) && IsPacked(other.w, w);
      BehindIsUnique(reading, helperBits, blocks, v, w);
      PackedUnique(r.w, other.w, w);
    } else if other.KeyInput? {
      var w :| Behind(reading, helperBits, blocks, w) && IsPacked(other.w, w);
      BehindExcludesFar(reading, helperBits, blocks, w);
    }
  }

  lemma BehindExcludesFar(reading: Word, helperBits: Word, blocks: nat, w: Word)
    requires 255 * blocks <= |reading| && 255 * blocks <= |helperBits| && Behind(reading, helperBits, blocks, w)
    ensures forall b | 0 <= b < blocks :: !TooFar(reading, helperBits, b)
  {
    forall b | 0 <= b < blocks
      ensures !TooFar(reading, helperBits, b)
    {
      assert OffsetAt(w, helperBits, b) && BlockDistance(reading, w, b) <= T;
      NearBlock(reading, helperBits, w, b);
    }
  }

  /** What rebuild_key gives, without the decoder. */
  ghost predicate KeyRebuilt(snapshot: seq<byte>, mask: seq<byte>, wHelper: seq<byte>, blocks: nat, r: BootResult)
    requires |mask| == |snapshot| && |wHelper| == HD_W_LEN
  {
    var cells := Support(Unpack(mask));
    PositionsSpec(Unpack(mask), |Unpack(mask)|);
    var reading := Pick(Unpack(snapshot), cells);
    if blocks > 4 then r == Halt(TooLarge)
    else if |cells| < 255 * blocks then r == Halt(FewCells)
    else Rebuilds(reading, Unpack(wHelper), blocks, r)
  }

  lemma RepairedIsBehind(reading: Word, wHelper: seq<byte>, blocks: nat)
    requires 255 * blocks <= |reading| && 255 * blocks <= 8 * |wHelper|
    requires None !in Counts(reading[..255 * blocks], BoardHelper(wHelper, blocks))
    ensures Behind(reading, Unpack(wHelper), blocks,
                   Join(RepairedBlocks(reading[..255 * blocks], BoardHelper(wHelper, blocks))))
  {
    var noisy, helper := reading[..255 * blocks], BoardHelper(wHelper, blocks);
    var bs := RepairedBlocks(noisy, helper);
    forall b | 0 <= b < blocks
      ensures OffsetAt(Join(bs), Unpack(wHelper), b) && BlockDistance(reading, Join(bs), b) <= T
    {
      assert Counts(noisy, helper)[b] != None;
      IntRoundTrip(Block(Unpack(wHelper), b));
      assert Block(noisy, b) == Block(reading, b);
      JoinBlock(bs, b);
      BlockFate(Block(noisy, b), ToBits(helper[b], N));
    }
  }

  lemma FailureIsFar(reading: Word, wHelper: seq<byte>, blocks: nat)
    requires 255 * blocks <= |reading| && 255 * blocks <= 8 * |wHelper|
    requires None in Counts(reading[..255 * blocks], BoardHelper(wHelper, blocks))
    ensures exists b | 0 <= b < blocks :: TooFar(reading, Unpack(wHelper), b)
  {
    var noisy, helper := reading[..255 * blocks], BoardHelper(wHelper, blocks);
    var b :| 0 <= b < blocks && Counts(noisy, helper)[b] == None;
    IntRoundTrip(Block(Unpack(wHelper), b));
    assert Block(noisy, b) == Block(reading, b);
    BlockFate(Block(noisy, b), ToBits(helper[b], N));
    assert TooFar(reading, Unpack(wHelper), b);
  }

  lemma RebuildMeaning(snapshot: seq<byte>, mask: seq<byte>, wHelper: seq<byte>, blocks: nat)
    requires |mask| == |snapshot| && |wHelper| == HD_W_LEN
    ensures KeyRebuilt(snapshot, mask, wHelper, blocks, RebuildSpec(snapshot, mask, wHelper, blocks))
  {
    ReadingLength(snapshot, mask);
    var reading := Reading(snapshot, mask);
    if blocks <= 4 && |reading| >= 255 * blocks {
      if None in Counts(reading[..255 * blocks], BoardHelper(wHelper, blocks)) {
        FailureIsFar(reading, wHelper, blocks);
      } else {
        RepairedIsBehind(reading, wHelper, blocks);
      }
    }
  }

  lemma RebuiltPrefix(a: seq<byte>, b: seq<byte>, helperBits: Word, n: nat, errs: seq<int>, k: nat)
    requires |a| == |b| && k <= |a| && 255 * n <= 8 * k && 255 * n <= |helperBits|
    requires Rebuilt(Unpack(a), helperBits, n, Unpack(b), errs)
    ensures Rebuilt(Unpack(a[..k]), helperBits, n, Unpack(b[..k]), errs)
  {
    var u, v := Unpack(a[..k]), Unpack(b[..k]);
    forall c | 0 <= c < n
      ensures Done(u, helperBits, v, c) && Reported(u, helperBits, errs, c)
    {
      assert Block(u, c) == Block(Unpack(a), c) && Block(v, c) == Block(Unpack(b), c);
      assert Done(Unpack(a), helperBits, Unpack(b), c) && Reported(Unpack(a), helperBits, errs, c);
    }
    assert forall i | 0 <= i < 8 * k :: u[i] == Unpack(a)[i] && v[i] == Unpack(b)[i];
  }

  /** What the buffer and errs say once fuzzy_reproduce has run on the selected cells. */
  lemma ReproducedKey(snapshot: seq<byte>, mask: seq<byte>, wHelper: seq<byte>, blocks: nat,
                      before: seq<byte>, after: seq<byte>, errs: seq<int>)
    requires |mask| == |snapshot| && |wHelper| == HD_W_LEN
    requires |Reading(snapshot, mask)| >= 255 * blocks && blocks <= 4
    requires var size := PackedSize(255 * blocks);
             && |before| == |after| >= size
             && IsPacked(before[..size], Reading(snapshot, mask)[..255 * blocks])
             && Rebuilt(Unpack(before), Unpack(wHelper), blocks, Unpack(after), errs)
    ensures RebuildSpec(snapshot, mask, wHelper, blocks)
         == if NoFailure(errs, blocks) then KeyInput(after[..PackedSize(255 * blocks)]) else Halt(TooNoisy)
  {
    var size, noisy := PackedSize(255 * blocks), Reading(snapshot, mask)[..255 * blocks];
    BoardHelperStored(wHelper, blocks);
    RebuiltPrefix(before, after, Unpack(wHelper), blocks, errs, size);
    BoardCounts(noisy, BoardHelper(wHelper, blocks), wHelper, before[..size], after[..size], errs);
  }

  /** rebuild_key, up to the hash. */
  method RebuildKey(t: GfTables, snapshot: seq<byte>, mask: seq<byte>, wHelper: seq<byte>, cells: nat, blocks: nat)
    returns (r: BootResult)
    requires t.Shaped() && |mask| == |snapshot| && |wHelper| == HD_W_LEN
    requires cells == 255 * blocks
    modifies t.EXP, t.LOG
    ensures r == RebuildSpec(snapshot, mask, wHelper, blocks)
    ensures KeyRebuilt(snapshot, mask, wHelper, blocks, r)
  {
    RebuildMeaning(snapshot, mask, wHelper, blocks);
    var w := new byte[W_MAX_BYTES](_ => 0);
    var errs := new int[HD_W_LEN * 8 / N](_ => 0);
    var wBytes := PackedSize(cells);
    if wBytes > W_MAX_BYTES || wBytes > HD_W_LEN || blocks > errs.Length {
      return Halt(TooLarge);
    }
    var ret := PufExtract(snapshot, mask, w, cells);
    if ret != 0 {
      return Halt(FewCells);
    }
    ghost var before := w[..];
    t.Init();
    ret := FuzzyReproduce(t, w, wHelper, blocks, errs);
    ReproducedKey(snapshot, mask, wHelper, blocks, before, w[..], errs[..]);
    if ret != 0 {
      return Halt(TooNoisy);
    }
    r := KeyInput(w[..wBytes]);
  }

  // ---------- power-up ----------

  /** The checks of app_main, in order: the first that fails. */
  function BootChecks(hd: seq<byte>, verify: Verifier, mac: seq<byte>): Option<Reason> {
    if |hd| != HD_SIZE then Some(WrongSize)
    else if !verify(hd[..HD_PAYLOAD], hd[HD_PAYLOAD..]) then Some(BadSignature)
    else if hd[..4] != MAGIC then Some(Reason.BadMagic)
    else if mac != hd[5..11] then Some(OtherChip)
    else if Le32(hd[11..15]) != PUF_ADDR || Le16(hd[15..17]) != PUF_SIZE then Some(OtherRegion)
    else
      var n: nat, k: nat, t: nat, blocks: nat := hd[17], hd[18], hd[19], hd[20];
      if |Support(Unpack(hd[HD_MASK..HD_MASK + PUF_SIZE]))| != n * blocks then Some(WrongMask)
      else if n != N || k != FUZZY_K || t != T then Some(UnsupportedCode)
      else None
  }

  /** The checks, then the reconstruction. */
  ghost function BootSpec(snapshot: seq<byte>, hd: seq<byte>, verify: Verifier, mac: seq<byte>): BootResult
    requires |snapshot| == PUF_SIZE
  {
    match BootChecks(hd, verify, mac)
    case Some(why) => Halt(why)
    case None => RebuildSpec(snapshot, hd[HD_MASK..HD_MASK + PUF_SIZE], hd[HD_W..HD_W + HD_W_LEN], hd[20])
  }

  /** The stored blob has the right size and signature. */
  predicate SignedBlob(hd: seq<byte>, verify: Verifier) {
    |hd| == HD_SIZE && verify(hd[..HD_PAYLOAD], hd[HD_PAYLOAD..])
  }

  /** It is helper data, and for this chip. */
  predicate ForThisChip(hd: seq<byte>, verify: Verifier, mac: seq<byte>) {
    SignedBlob(hd, verify) && hd[..4] == [0x50, 0x55, 0x46, 0x48] && hd[5..11] == mac
  }

  /** It describes the PUF region. */
  predicate ForThisRegion(hd: seq<byte>, verify: Verifier, mac: seq<byte>) {
    ForThisChip(hd, verify, mac) && FromLe(hd[11..15]) == 0x3FFDFC00 && FromLe(hd[15..17]) == 1024
  }

  /** Its mask selects n cells a block. */
  predicate MaskAgrees(hd: seq<byte>, verify: Verifier, mac: seq<byte>) {
    && ForThisRegion(hd, verify, mac)
    && |Support(Unpack(hd[21..1045]))| == (hd[17] as nat) * (hd[20] as nat)
  }

  predicate CodeSupported(hd: seq<byte>, verify: Verifier, mac: seq<byte>) {
    MaskAgrees(hd, verify, mac) && hd[17] == 255 && hd[18] == 179 && hd[19] == 10
  }

  /** Everything the board asks of the blob before it decodes. */
  predicate BoardAccepts(hd: seq<byte>, verify: Verifier, mac: seq<byte>) {
    CodeSupported(hd, verify, mac) && hd[20] <= 4
  }

  /** The exact condition of every halt but the last. */
  predicate Refuses(hd: seq<byte>, verify: Verifier, mac: seq<byte>, why: Reason) {
    match why
    case WrongSize => |hd| != 1237
    case BadSignature => |hd| == 1237 && !SignedBlob(hd, verify)
    case BadMagic => SignedBlob(hd, verify) && hd[..4] != [0x50, 0x55, 0x46, 0x48]
    case OtherChip => SignedBlob(hd, verify) && hd[..4] == [0x50, 0x55, 0x46, 0x48] && hd[5..11] != mac
    case OtherRegion => ForThisChip(hd, verify, mac) && !ForThisRegion(hd, verify, mac)
    case WrongMask => ForThisRegion(hd, verify, mac) && !MaskAgrees(hd, verify, mac)
    case UnsupportedCode => MaskAgrees(hd, verify, mac) && !CodeSupported(hd, verify, mac)
    case TooLarge => CodeSupported(hd, verify, mac) && hd[20] > 4
    case FewCells => false
    case TooNoisy => false
  }

  /** For every blob, verifier, chip and snapshot: each halt happens exactly on its
      condition; the response is decoded exactly when the blob is accepted, and then
      rebuilt from the cells of the mask and the stored W. */
  ghost predicate Booted(snapshot: seq<byte>, hd: seq<byte>, verify: Verifier, mac: seq<byte>, r: BootResult)
    requires |snapshot| == PUF_SIZE
  {
    && (forall why | why != TooNoisy :: r == Halt(why) <==> Refuses(hd, verify, mac, why))
    && (r.KeyInput? || r == Halt(TooNoisy) <==> BoardAccepts(hd, verify, mac))
    && (BoardAccepts(hd, verify, mac) ==> KeyRebuilt(snapshot, hd[21..1045], hd[1045..1173], hd[20], r))
  }

  lemma ChecksExactly(hd: seq<byte>, verify: Verifier, mac: seq<byte>)
    ensures BootChecks(hd, verify, mac) == None <==> CodeSupported(hd, verify, mac)
    ensures forall why | why != TooLarge :: BootChecks(hd, verify, mac) == Some(why) <==> Refuses(hd, verify, mac, why)
    ensures BootChecks(hd, verify, mac) != Some(TooLarge)
  {
    if |hd| == HD_SIZE {
      Le32Reads(hd[11..15]);
      Le16Reads(hd[15..17]);
    }
  }

  /** With exactly 255 cells a block only the number of blocks or noise can be the trouble. */
  lemma RebuildWithCells(snapshot: seq<byte>, mask: seq<byte>, wHelper: seq<byte>, blocks: nat)
    requires |mask| == |snapshot| && |wHelper| == HD_W_LEN && |Support(Unpack(mask))| == 255 * blocks
    ensures var r := RebuildSpec(snapshot, mask, wHelper, blocks);
            && KeyRebuilt(snapshot, mask, wHelper, blocks, r)
            && if blocks > 4 then r == Halt(TooLarge) else r.KeyInput? || r == Halt(TooNoisy)
  {
    RebuildMeaning(snapshot, mask, wHelper, blocks);
    ReadingLength(snapshot, mask);
  }

  lemma BootMeaning(snapshot: seq<byte>, hd: seq<byte>, verify: Verifier, mac: seq<byte>)
    requires |snapshot| == PUF_SIZE
    ensures Booted(snapshot, hd, verify, mac, BootSpec(snapshot, hd, verify, mac))
  {
    ChecksExactly(hd, verify, mac);
    if CodeSupported(hd, verify, mac) {
      RebuildWithCells(snapshot, hd[21..1045], hd[1045..1173], hd[20]);
    }
  }

  /** app_main up to the network; hd is the stored blob, verify the signature check under
      the provisioner's key, mac the address burnt into the chip. */
  method AppMain(t: GfTables, snapshot: seq<byte>, hd: seq<byte>, verify: Verifier, mac: seq<byte>)
    returns (r: BootResult)
    requires t.Shaped() && |snapshot| == PUF_SIZE
    modifies t.EXP, t.LOG
    ensures r == BootSpec(snapshot, hd, verify, mac)
    ensures Booted(snapshot, hd, verify, mac, r)
  {
    BootMeaning(snapshot, hd, verify, mac);
    if |hd| != HD_SIZE {
      return Halt(WrongSize);
    }
    if !verify(hd[..HD_PAYLOAD], hd[HD_PAYLOAD..]) {
      return Halt(BadSignature);
    }
    if hd[..4] != MAGIC {
      return Halt(Reason.BadMagic);
    }
    var hdMac, hdAddr, hdSize := hd[5..11], Le32(hd[11..15]), Le16(hd[15..17]);
    var n: nat, k: nat, tt: nat, blocks: nat := hd[17], hd[18], hd[19], hd[20];
    if mac != hdMac {
      return Halt(OtherChip);
    }
    if hdAddr != PUF_ADDR || hdSize != PUF_SIZE {
      return Halt(OtherRegion);
    }
    var mask := hd[HD_MASK..HD_MASK + hdSize];
    var cells := CountCells(mask);
    if cells != n * blocks {
      return Halt(WrongMask);
    }
    if n != N || k != FUZZY_K || tt != T {
      return Halt(UnsupportedCode);
    }
    r := RebuildKey(t, snapshot, mask, hd[HD_W..HD_W + HD_W_LEN], cells, blocks);
  }

  // ---------- from the training dumps to the key ----------

  /** For the 1024-byte region and a 128-byte W, the board's fixed offsets and shifts
      recover the serialized fields. */
  lemma BoardReadsFields(h: HelperData)
    requires Packable(h) && |h.mac| == 6 && |h.signature| == SIG_SIZE
    requires |h.mask| == h.regionBytes == PUF_SIZE && |h.wHelper| == HD_W_LEN
    ensures var d := ToBytes(h).value;
            && |d| == HD_SIZE && d[..4] == MAGIC && d[5..11] == h.mac
            && Le32(d[11..15]) == h.regionAddr && Le16(d[15..17]) == h.regionBytes
            && d[17] == h.n && d[18] == h.k && d[19] == h.t && d[20] == h.blocks
            && d[HD_MASK..HD_MASK + PUF_SIZE] == h.mask
            && d[HD_W..HD_W + HD_W_LEN] == h.wHelper
            && d[..HD_PAYLOAD] == Payload(h).value && d[HD_PAYLOAD..] == h.signature
  {
    Layout(h);
    PayloadIsAllButSignature(h);
    LeRoundTrip(h.regionAddr, 4);
    LeRoundTrip(h.regionBytes, 2);
    Le32Reads(ToBytes(h).value[11..15]);
    Le16Reads(ToBytes(h).value[15..17]);
  }

  /** What the board does with the serialized form of helper data made for it: the signature
      it checks is the one the provisioner checks, on the same payload. */
  lemma BootOfFields(h: HelperData, snapshot: seq<byte>, verify: Verifier)
    requires Packable(h) && |h.mac| == 6 && |h.signature| == SIG_SIZE && |snapshot| == PUF_SIZE
    requires h.regionAddr == PUF_ADDR && |h.mask| == h.regionBytes == PUF_SIZE && |h.wHelper| == HD_W_LEN
    requires h.n == N && h.k == FUZZY_K && h.t == T && |Support(Unpack(h.mask))| == 255 * h.blocks
    ensures BootSpec(snapshot, ToBytes(h).value, verify, h.mac)
         == if Verified(h, verify) then RebuildSpec(snapshot, h.mask, h.wHelper, h.blocks) else Halt(BadSignature)
  {
    BoardReadsFields(h);
  }

  /** The board reads neither the version nor the number of blocks as from_bytes does:
      of the data it decodes, from_bytes accepts exactly version 1 with four blocks. */
  lemma BoardVersusParser(snapshot: seq<byte>, hd: seq<byte>, verify: Verifier, mac: seq<byte>)
    requires |snapshot| == PUF_SIZE
    requires var r := BootSpec(snapshot, hd, verify, mac); r.KeyInput? || r == Halt(TooNoisy)
    ensures |hd| == HD_SIZE && (FromBytes(hd).Accepted? <==> hd[4] == VERSION && hd[20] == 4)
  {
    BootMeaning(snapshot, hd, verify, mac);
    ParseFailsExactly(hd);
  }

  /** The helper data written at enrolment, with whatever signature. */
  ghost function EnrolledData(cells: seq<nat>, helper: seq<nat>, mac: seq<byte>, sig: seq<byte>): HelperData {
    Built(mac, PUF_ADDR, 8 * PUF_SIZE, cells, helper).(signature := sig)
  }

  /** A list of 1020 cells of the region, as build_mask chooses it. */
  ghost predicate CellList(cells: seq<nat>) {
    |cells| == N_CELLS && Ascending(cells) && CellsBelow(cells, 8 * PUF_SIZE)
  }

  lemma EnrolledFields(cells: seq<nat>, helper: seq<nat>, mac: seq<byte>, sig: seq<byte>)
    requires |mac| == 6 && |sig| == SIG_SIZE && |helper| == 4
    ensures var h := EnrolledData(cells, helper, mac, sig);
            WellFormed(h) && h.regionBytes == PUF_SIZE && |h.wHelper| == HD_W_LEN
  {
    assert Limit(2) == 65536;
    assert Limit(4) == 65536 * Limit(2);
  }

  lemma EnrolledMask(cells: seq<nat>, snapshot: seq<byte>)
    requires CellList(cells) && |snapshot| == PUF_SIZE
    ensures var mask := Pack(MaskBits(8 * PUF_SIZE, cells));
            && |mask| == PUF_SIZE && Support(Unpack(mask)) == cells
            && Reading(snapshot, mask) == Pick(Unpack(snapshot), cells)
  {
    var mask := Pack(MaskBits(8 * PUF_SIZE, cells));
    CellsOfBuilt(mask, 8 * PUF_SIZE, cells);
    ReadingLength(snapshot, mask);
  }

  lemma EnrolledHelper(helper: seq<nat>)
    requires |helper| == 4 && HelperFits(helper)
    ensures BoardHelper(Pack(Join(HelperBlocks(helper))), 4) == helper
  {
    var wHelper := Pack(Join(HelperBlocks(helper)));
    PackedHelperStored(wHelper, helper);
    forall b | 0 <= b < 4
      ensures ToInt(Block(Unpack(wHelper), b)) == helper[b]
    {
      assert StoredAt(wHelper, helper, b) && BitLength(helper[b]) <= N;
      BitsRoundTrip(helper[b], N);
    }
  }

  lemma RebuildEnrolled(cells: seq<nat>, helper: seq<nat>, snapshot: seq<byte>)
    requires CellList(cells) && |helper| == 4 && HelperFits(helper) && |snapshot| == PUF_SIZE
    ensures var mask, wHelper := Pack(MaskBits(8 * PUF_SIZE, cells)), Pack(Join(HelperBlocks(helper)));
            var noisy := Pick(Unpack(snapshot), cells);
            && |mask| == PUF_SIZE && |wHelper| == HD_W_LEN
            && RebuildSpec(snapshot, mask, wHelper, 4)
            == if None in Counts(noisy, helper) then Halt(TooNoisy)
               else KeyInput(Pack(Join(RepairedBlocks(noisy, helper))))
  {
    EnrolledMask(cells, snapshot);
    EnrolledHelper(helper);
    var noisy := Pick(Unpack(snapshot), cells);
    assert noisy[..1020] == noisy;
  }

  /** The board, given helper data as enrolled, does with any snapshot what the reference
      program does with the same cells, once the signature is the provisioner's. */
  lemma BoardFollowsReference(cells: seq<nat>, helper: seq<nat>, mac: seq<byte>, sig: seq<byte>, snapshot: seq<byte>,
                              verify: Verifier)
    requires CellList(cells) && |helper| == 4 && HelperFits(helper)
    requires |mac| == 6 && |sig| == SIG_SIZE && |snapshot| == PUF_SIZE
    ensures var h := EnrolledData(cells, helper, mac, sig);
            var noisy := Pick(Unpack(snapshot), cells);
            && WellFormed(h)
            && BootSpec(snapshot, ToBytes(h).value, verify, mac)
            == if !Verified(h, verify) then Halt(BadSignature)
               else if None in Counts(noisy, helper) then Halt(TooNoisy)
               else KeyInput(Pack(Join(RepairedBlocks(noisy, helper))))
  {
    EnrolledFields(cells, helper, mac, sig);
    EnrolledMask(cells, snapshot);
    BootOfFields(EnrolledData(cells, helper, mac, sig), snapshot, verify);
    RebuildEnrolled(cells, helper, snapshot);
  }

  /** Data the board decodes and from_bytes rejects: enrolled data with the version
      changed from 1 to 2, and signed as such. */
  lemma BoardIgnoresVersion(cells: seq<nat>, helper: seq<nat>, mac: seq<byte>, sig: seq<byte>, sig2: seq<byte>,
                            snapshot: seq<byte>, verify: Verifier)
    requires CellList(cells) && |helper| == 4 && HelperFits(helper)
    requires |mac| == 6 && |snapshot| == PUF_SIZE && Verified(EnrolledData(cells, helper, mac, sig), verify)
    requires Verified(EnrolledData(cells, helper, mac, sig2).(version := 2), verify)
    ensures var h, h2 := EnrolledData(cells, helper, mac, sig), EnrolledData(cells, helper, mac, sig2).(version := 2);
            var r := BootSpec(snapshot, ToBytes(h2).value, verify, mac);
            && r == BootSpec(snapshot, ToBytes(h).value, verify, mac) && (r.KeyInput? || r == Halt(TooNoisy))
            && FromBytes(ToBytes(h2).value) == HelperFormat.Rejected(UnsupportedVersion(2))
  {
    var h2 := EnrolledData(cells, helper, mac, sig2).(version := 2);
    EnrolledFields(cells, helper, mac, sig2);
    EnrolledMask(cells, snapshot);
    BoardFollowsReference(cells, helper, mac, sig, snapshot, verify);
    BootOfFields(h2, snapshot, verify);
    RebuildEnrolled(cells, helper, snapshot);
    Layout(h2);
  }

  /** Data with three blocks, the code's cells in the mask and 128 bytes of W. */
  ghost function ThreeBlocks(cells: seq<nat>, wHelper: seq<byte>, mac: seq<byte>, sig: seq<byte>): HelperData {
    HelperData(mac, PUF_ADDR, PUF_SIZE, Pack(MaskBits(8 * PUF_SIZE, cells)), wHelper, VERSION, N, FUZZY_K, T, 3, sig)
  }

  lemma ThreeBlocksFields(cells: seq<nat>, wHelper: seq<byte>, mac: seq<byte>, sig: seq<byte>)
    requires |wHelper| == HD_W_LEN && |mac| == 6 && |sig| == SIG_SIZE
    ensures Packable(ThreeBlocks(cells, wHelper, mac, sig))
    ensures |ThreeBlocks(cells, wHelper, mac, sig).mask| == PUF_SIZE
  {
    assert Limit(2) == 65536;
    assert Limit(4) == 65536 * Limit(2);
  }

  /** The serialized form is longer than three blocks call for. */
  lemma ThreeBlocksRejected(cells: seq<nat>, wHelper: seq<byte>, mac: seq<byte>, sig: seq<byte>)
    requires |wHelper| == HD_W_LEN && |mac| == 6 && |sig| == SIG_SIZE
    ensures Packable(ThreeBlocks(cells, wHelper, mac, sig))
    ensures var d := ToBytes(ThreeBlocks(cells, wHelper, mac, sig)).value;
            FromBytes(d) == HelperFormat.Rejected(WrongLength(1205, HD_SIZE))
  {
    var h := ThreeBlocks(cells, wHelper, mac, sig);
    ThreeBlocksFields(cells, wHelper, mac, sig);
    BoardReadsFields(h);
    Layout(h);
    ThreeBlocksLength(ToBytes(h).value);
  }

  lemma ThreeBlocksLength(d: seq<byte>)
    requires |d| == HD_SIZE && d[..4] == MAGIC && d[4] == VERSION && Le16(d[15..17]) == PUF_SIZE
    requires d[17] == N && d[20] == 3
    ensures FromBytes(d) == HelperFormat.Rejected(WrongLength(1205, HD_SIZE))
  {
    Le16Reads(d[15..17]);
    ParseFailsExactly(d);
  }

  lemma ThreeBlocksBoot(cells: seq<nat>, wHelper: seq<byte>, mac: seq<byte>, sig: seq<byte>, snapshot: seq<byte>,
                        verify: Verifier)
    requires |cells| == 765 && Ascending(cells) && CellsBelow(cells, 8 * PUF_SIZE)
    requires |wHelper| == HD_W_LEN && |mac| == 6 && |snapshot| == PUF_SIZE
    requires Verified(ThreeBlocks(cells, wHelper, mac, sig), verify)
    ensures var h := ThreeBlocks(cells, wHelper, mac, sig);
            && |h.mask| == PUF_SIZE && |Reading(snapshot, h.mask)| == 765
            && BootSpec(snapshot, ToBytes(h).value, verify, mac) == RebuildSpec(snapshot, h.mask, wHelper, 3)
  {
    var h := ThreeBlocks(cells, wHelper, mac, sig);
    ThreeBlocksFields(cells, wHelper, mac, sig);
    CellsOfBuilt(h.mask, 8 * PUF_SIZE, cells);
    BootOfFields(h, snapshot, verify);
    ReadingLength(snapshot, h.mask);
  }

  /** Data the board decodes and from_bytes rejects for its length: three blocks, any 765
      cells. */
  lemma BoardIgnoresBlocks(cells: seq<nat>, wHelper: seq<byte>, mac: seq<byte>, sig: seq<byte>, snapshot: seq<byte>,
                           verify: Verifier)
    requires |cells| == 765 && Ascending(cells) && CellsBelow(cells, 8 * PUF_SIZE)
    requires |wHelper| == HD_W_LEN && |mac| == 6 && |snapshot| == PUF_SIZE
    requires Verified(ThreeBlocks(cells, wHelper, mac, sig), verify)
    ensures var d := ToBytes(ThreeBlocks(cells, wHelper, mac, sig)).value;
            var r := BootSpec(snapshot, d, verify, mac);
            && (r.KeyInput? || r == Halt(TooNoisy))
            && FromBytes(d) == HelperFormat.Rejected(WrongLength(1205, HD_SIZE))
  {
    ThreeBlocksBoot(cells, wHelper, mac, sig, snapshot, verify);
    ThreeBlocksRejected(cells, wHelper, mac, sig);
  }

  /** From the training dumps to the board: a snapshot gives the packed golden response
      exactly when it is within t flips of it in every block, and every training dump
      reads the golden response itself. */
  lemma EnrolToBoot(train: seq<Word>, g: nat, msgs: seq<nat>, helper: seq<nat>, mac: seq<byte>, sig: seq<byte>,
                    snapshot: seq<byte>, verify: Verifier)
    requires Training(train) && |train[0]| == 8 * PUF_SIZE && BuildMask(train).Chosen?
    requires Enrolled(g, BuildMask(train).golden, msgs, helper)
    requires |mac| == 6 && |snapshot| == PUF_SIZE
    requires Verified(EnrolledData(BuildMask(train).cells, helper, mac, sig), verify)
    ensures var golden, cells := BuildMask(train).golden, BuildMask(train).cells;
            var h := EnrolledData(cells, helper, mac, sig);
            && |helper| == 4 && CellList(cells) && WellFormed(h)
            && (WithinT(Pick(Unpack(snapshot), cells), golden, 4)
                <==> BootSpec(snapshot, ToBytes(h).value, verify, mac) == KeyInput(Pack(golden)))
            && (Unpack(snapshot) in train ==> Pick(Unpack(snapshot), cells) == golden)
  {
    var golden, cells := BuildMask(train).golden, BuildMask(train).cells;
    MaskCells(train);
    forall b | 0 <= b < |helper|
      ensures BitLength(helper[b]) <= N
    {
      OffsetIsCodeword(g, golden, msgs, helper, b);
    }
    BoardFollowsReference(cells, helper, mac, sig, snapshot, verify);
    var noisy := Pick(Unpack(snapshot), cells);
    RecoversExactly(g, golden, msgs, helper, noisy);
    var w := Join(RepairedBlocks(noisy, helper));
    if Pack(w) == Pack(golden) {
      PackInjective(w, golden);
    }
    if Unpack(snapshot) in train {
      TrainingReadsGolden(train, Unpack(snapshot));
    }
  }

  /** End to end: the board hashes its way to the key of the enrolment, for whatever the
      hash function is, whenever the snapshot is within t in every block; and only then, as
      far as the hash function tells different responses apart. */
  lemma EnrolledKeyBoots<K>(train: seq<Word>, g: nat, msgs: seq<nat>, helper: seq<nat>, mac: seq<byte>,
                            sig: seq<byte>, snapshot: seq<byte>, verify: Verifier, hash: seq<byte> -> K, key: K)
    requires Training(train) && |train[0]| == 8 * PUF_SIZE && BuildMask(train).Chosen?
    requires Enrolled(g, BuildMask(train).golden, msgs, helper) && KeyOf(hash, BuildMask(train).golden, key)
    requires |mac| == 6 && |snapshot| == PUF_SIZE
    requires Verified(EnrolledData(BuildMask(train).cells, helper, mac, sig), verify)
    ensures var golden, cells := BuildMask(train).golden, BuildMask(train).cells;
            var h := EnrolledData(cells, helper, mac, sig);
            && |helper| == 4 && CellList(cells) && WellFormed(h)
            && var r := BootSpec(snapshot, ToBytes(h).value, verify, mac);
               && (WithinT(Pick(Unpack(snapshot), cells), golden, 4) ==> r.KeyInput? && hash(r.w) == key)
               && (r.KeyInput? && hash(r.w) == key ==>
                     WithinT(Pick(Unpack(snapshot), cells), golden, 4)
                     || (hash(r.w) == hash(Pack(golden)) && r.w != Pack(golden)))
  {
    var golden := BuildMask(train).golden;
    EnrolToBoot(train, g, msgs, helper, mac, sig, snapshot, verify);
    assert IsPacked(Pack(golden), golden);
  }

  /** Every training dump boots to the golden response with no error in any block. */
  lemma TrainingDumpBoots(train: seq<Word>, g: nat, msgs: seq<nat>, helper: seq<nat>, mac: seq<byte>, sig: seq<byte>,
                          snapshot: seq<byte>, verify: Verifier)
    requires Training(train) && |train[0]| == 8 * PUF_SIZE && BuildMask(train).Chosen?
    requires Enrolled(g, BuildMask(train).golden, msgs, helper) && Unpack(snapshot) in train
    requires |mac| == 6 && |snapshot| == PUF_SIZE
    requires Verified(EnrolledData(BuildMask(train).cells, helper, mac, sig), verify)
    ensures |helper| == 4 && CellsBelow(BuildMask(train).cells, 8 * |snapshot|)
    ensures var golden, cells := BuildMask(train).golden, BuildMask(train).cells;
            var h := EnrolledData(cells, helper, mac, sig);
            && WellFormed(h)
            && BootSpec(snapshot, ToBytes(h).value, verify, mac) == KeyInput(Pack(golden))
            && Counts(Pick(Unpack(snapshot), cells), helper) == [Some(0), Some(0), Some(0), Some(0)]
  {
    var golden := BuildMask(train).golden;
    EnrolToBoot(train, g, msgs, helper, mac, sig, snapshot, verify);
    forall b | 0 <= b < 4
      ensures BlockDistance(golden, golden, b) == 0
    {
      DistanceSelf(Block(golden, b), N);
    }
    ReproduceRecovers(g, golden, msgs, helper, golden);
  }

  /** A snapshot that reads a given response in the given cells. */
  lemma SnapshotReading(cells: seq<nat>, w: Word) returns (snapshot: seq<byte>)
    requires CellList(cells) && |w| == N_CELLS
    ensures |snapshot| == PUF_SIZE && Pick(Unpack(snapshot), cells) == w
  {
    var bits := seq(8 * PUF_SIZE, i requires 0 <= i < 8 * PUF_SIZE =>
      exists j :: 0 <= j < N_CELLS && cells[j] == i && w[j]);
    snapshot := Pack(bits);
    forall j | 0 <= j < N_CELLS
      ensures Unpack(snapshot)[cells[j]] == w[j]
    {
      assert Padded(bits, 8 * PUF_SIZE)[cells[j]] == bits[cells[j]];
      assert w[j] ==> 0 <= j < N_CELLS && cells[j] == cells[j] && w[j];
    }
  }

  /** A snapshot can boot to another key without any sign of it: the golden response moved
      by a codeword is accepted with no error in any block. */
  lemma BoardBootsMiscorrected(train: seq<Word>, g: nat, msgs: seq<nat>, helper: seq<nat>, mac: seq<byte>,
                               sig: seq<byte>, verify: Verifier)
    returns (snapshot: seq<byte>)
    requires Training(train) && |train[0]| == 8 * PUF_SIZE && BuildMask(train).Chosen?
    requires Enrolled(g, BuildMask(train).golden, msgs, helper) && |mac| == 6
    requires Verified(EnrolledData(BuildMask(train).cells, helper, mac, sig), verify)
    ensures |snapshot| == PUF_SIZE && |helper| == 4 && CellList(BuildMask(train).cells)
    ensures var golden, cells := BuildMask(train).golden, BuildMask(train).cells;
            var h := EnrolledData(cells, helper, mac, sig);
            && WellFormed(h) && Pick(Unpack(snapshot), cells) == Moved(g, golden)
            && BootSpec(snapshot, ToBytes(h).value, verify, mac) == KeyInput(Pack(Moved(g, golden)))
            && Pack(Moved(g, golden)) != Pack(golden)
  {
    var golden, cells := BuildMask(train).golden, BuildMask(train).cells;
    MaskCells(train);
    snapshot := SnapshotReading(cells, Moved(g, golden));
    forall b | 0 <= b < |helper|
      ensures BitLength(helper[b]) <= N
    {
      OffsetIsCodeword(g, golden, msgs, helper, b);
    }
    BoardFollowsReference(cells, helper, mac, sig, snapshot, verify);
    SilentMiscorrection(g, golden, msgs, helper);
    if Pack(Moved(g, golden)) == Pack(golden) {
      PackInjective(Moved(g, golden), golden);
    }
  }
}
