/**
  The board's side of the fuzzy extractor: cells selected by the mask, packed, and
  corrected block by block in the packed buffer.
 */
module Response {
  import opened Bits
  import opened Bch
  import opened Tables
  import opened Packing
  import opened FuzzyC

  // ---------- puf_extract ----------

  /** The bits of s where m is set, among the first k. */
  function Select(m: Word, s: Word, k: nat): (r: Word)
    requires k <= |m| && k <= |s|
  {
    if k == 0 then [] else if m[k - 1] then Select(m, s, k - 1) + [s[k - 1]] else Select(m, s, k - 1)
  }

  /** Rank and select: output bit j is the snapshot bit at the j-th set mask bit. */
  lemma {:induction false} SelectIsRank(m: Word, s: Word, k: nat)
    requires k <= |m| && k <= |s|
    ensures |Select(m, s, k)| == |Positions(m, k)|
    ensures forall j | 0 <= j < |Positions(m, k)| :: Select(m, s, k)[j] == s[Positions(m, k)[j]]
  {
    if k > 0 {
      SelectIsRank(m, s, k - 1);
    }
  }

  lemma {:induction false} SelectPrefix(m: Word, s: Word, j: nat, k: nat)
    requires j <= k <= |m| && k <= |s|
    ensures Select(m, s, j) <= Select(m, s, k)
  {
    if j < k {
      SelectPrefix(m, s, j, k - 1);
    }
  }

  /** The first n of the selected bits, or all of them when there are fewer. */
  function Taken(sel: Word, n: nat): Word {
    if n <= |sel| then sel[..n] else sel
  }

  /** One turn of the loop: a selected cell is appended to the output. */
  method CopyCell(snapshot: seq<byte>, mask: seq<byte>, out: array<byte>, size: nat, i: nat, j: nat)
    returns (next: nat)
    requires |mask| <= |snapshot| && size <= out.Length && i < 8 * |mask| && j < 8 * size
    requires var sel := Select(Unpack(mask), Unpack(snapshot), i);
             j == |sel| && Unpack(out[..size]) == Padded(sel, 8 * size)
    modifies out
    ensures var sel := Select(Unpack(mask), Unpack(snapshot), i + 1);
            next == |sel| <= 8 * size && Unpack(out[..size]) == Padded(sel, 8 * size)
    ensures out[size..] == old(out[size..])
  {
    next := j;
    if GetBit(mask, i) {
      if GetBit(snapshot, i) {
        WriteBit(out, size, j);
      }
      next := j + 1;
    }
  }

  /** puf_extract: 0 exactly when the mask has enough ones; the buffer holds the
      selected bits in order, then zeros. */
  method PufExtract(snapshot: seq<byte>, mask: seq<byte>, out: array<byte>, nBits: nat) returns (ret: int)
    requires |mask| <= |snapshot| && PackedSize(nBits) <= out.Length
    modifies out
    ensures var sel := Select(Unpack(mask), Unpack(snapshot), 8 * |mask|);
            && ret == (if |sel| >= nBits then 0 else -1)
            && Unpack(out[..PackedSize(nBits)]) == Padded(Taken(sel, nBits), 8 * PackedSize(nBits))
    ensures out[PackedSize(nBits)..] == old(out[PackedSize(nBits)..])
  {
    var size := PackedSize(nBits);
    ghost var m, s := Unpack(mask), Unpack(snapshot);
    Clear(out, size);
    ZeroUnpack(out[..size]);
    var i, j: nat := 0, 0;
    while i < 8 * |mask| && j < nBits
      invariant i <= 8 * |mask| && j == |Select(m, s, i)| <= nBits
      invariant Unpack(out[..size]) == Padded(Select(m, s, i), 8 * size)
      invariant out[size..] == old(out[size..])
    {
      j := CopyCell(snapshot, mask, out, size, i, j);
      i := i + 1;
    }
    SelectPrefix(m, s, i, 8 * |mask|);
    ret := if j == nBits then 0 else -1;
  }

  /** memset(out, 0, size) */
  method Clear(out: array<byte>, size: nat)
    requires size <= out.Length
    modifies out
    ensures forall k | 0 <= k < size :: out[..size][k] == 0
    ensures out[size..] == old(out[size..])
  {
    for k := 0 to size
      invariant forall l | 0 <= l < k :: out[l] == 0
      invariant out[size..] == old(out[size..])
    {
      out[k] := 0;
    }
  }

  /** out[j / 8] |= 0x80 >> (j % 8) */
  method WriteBit(out: array<byte>, size: nat, j: nat)
    requires j < 8 * size && size <= out.Length
    modifies out
    ensures Unpack(out[..size]) == Unpack(old(out[..size]))[j := true]
    ensures out[size..] == old(out[size..])
  {
    ghost var was := out[..size];
    SetAt(was, j);
    assert was[j / 8] == out[j / 8];
    out[j / 8] := Or(out[j / 8], BitMask(j));
    assert out[..size] == was[j / 8 := Or(was[j / 8], BitMask(j))];
  }

  // ---------- fuzzy_reproduce ----------

  /** Block b: bits 255 b ... 255 b + 254. */
  function Block(w: Word, b: nat): (r: Word)
    requires 255 * b + 255 <= |w|
    ensures |r| == N && forall i | 0 <= i < N :: r[i] == w[255 * b + i]
  {
    seq(N, i requires 0 <= i < N => w[255 * b + i])
  }

  function Splice(w: Word, b: nat, x: Word): (r: Word)
    requires 255 * b + 255 <= |w| && |x| == N
    ensures |r| == |w|
    ensures forall i | 0 <= i < |w| ::
      r[i] == if 255 * b <= i < 255 * b + 255 then x[i - 255 * b] else w[i]
  {
    seq(|w|, i requires 0 <= i < |w| => if 255 * b <= i < 255 * b + 255 then x[i - 255 * b] else w[i])
  }

  /** Splicing block b in leaves every other block, and everything else, alone. */
  lemma SpliceBlocks(w: Word, b: nat, x: Word)
    requires 255 * b + 255 <= |w| && |x| == N
    ensures Block(Splice(w, b, x), b) == x
    ensures forall k: nat | 255 * k + 255 <= |w| && k != b :: Block(Splice(w, b, x), k) == Block(w, k)
  {
    forall k: nat | 255 * k + 255 <= |w| && k != b
      ensures Block(Splice(w, b, x), k) == Block(w, k)
    {
      OtherBlock(w, b, x, k);
    }
  }

  lemma OtherBlock(w: Word, b: nat, x: Word, k: nat)
    requires 255 * b + 255 <= |w| && |x| == N && 255 * k + 255 <= |w| && k != b
    ensures Block(Splice(w, b, x), k) == Block(w, k)
  {
    var p := 255 * k;
    assert p + 255 <= 255 * b || p >= 255 * b + 255;
    forall i | 0 <= i < N
      ensures Block(Splice(w, b, x), k)[i] == Block(w, k)[i]
    {
      assert Splice(w, b, x)[p + i] == w[p + i];
    }
  }

  /** The outcome of decoding a block x of w' under the block y of W. */
  ghost function BlockOutcome(x: Word, y: Word): (o: Outcome)
    requires |x| == |y| == N
    ensures o.Corrected? ==> |o.word| == N
  {
    Decode(XorWord(x, y))
  }

  /** What becomes of the block: c XOR y, or nothing changes. */
  ghost function Repaired(x: Word, y: Word): (r: Word)
    requires |x| == |y| == N
    ensures |r| == N
  {
    match BlockOutcome(x, y)
    case Corrected(c, _) => XorWord(c, y)
    case Undecodable => x
  }

  /** What errs reports for the block: the number of errors, or -1. */
  ghost function Report(x: Word, y: Word): int
    requires |x| == |y| == N
  {
    match BlockOutcome(x, y)
    case Corrected(_, errors) => |errors|
    case Undecodable => -1
  }

  /** Block b of v is what block b of u becomes. */
  ghost predicate Done(u: Word, helperBits: Word, v: Word, b: nat)
    requires 255 * b + 255 <= |u| == |v| && 255 * b + 255 <= |helperBits|
  {
    Block(v, b) == Repaired(Block(u, b), Block(helperBits, b))
  }

  ghost predicate Reported(u: Word, helperBits: Word, cs: seq<int>, b: nat)
    requires 255 * b + 255 <= |u| && 255 * b + 255 <= |helperBits| && b < |cs|
  {
    cs[b] == Report(Block(u, b), Block(helperBits, b))
  }

  /** v is u with each of its first n blocks repaired on its own, nothing beyond them
      changed, and cs the reports. */
  ghost predicate Rebuilt(u: Word, helperBits: Word, n: nat, v: Word, cs: seq<int>)
    requires 255 * n <= |u| && 255 * n <= |helperBits|
  {
    && |v| == |u| && |cs| >= n
    && (forall b | 0 <= b < n :: Done(u, helperBits, v, b))
    && (forall b | 0 <= b < n :: Reported(u, helperBits, cs, b))
    && (forall i | 255 * n <= i < |u| :: v[i] == u[i])
  }

  /** None of the first k blocks is reported as failed. */
  ghost predicate NoFailure(cs: seq<int>, k: nat)
    requires k <= |cs|
  {
    forall b | 0 <= b < k :: cs[b] >= 0
  }

  /** The flipped positions turn x into c XOR y. */
  lemma {:induction false} FlipsRepair(x: Word, y: Word)
    requires |x| == |y| == N && BlockOutcome(x, y).Corrected?
    ensures var errors := BlockOutcome(x, y).errors;
            && (forall i | 0 <= i < |errors| :: errors[i] < N)
            && FlipAll(x, errors) == Repaired(x, y)
  {
    var r := XorWord(x, y);
    DecodeSound(r);
    var c := Decode(r).word;
    var e := XorWord(r, c);
    FlipSupport(x, e);
    assert XorWord(x, e) == XorWord(c, y);
  }

  /** flip_bit */
  method FlipBit(buf: array<byte>, i: nat)
    requires i < 8 * buf.Length
    modifies buf
    ensures Unpack(buf[..]) == Unpack(old(buf[..]))[i := !Unpack(old(buf[..]))[i]]
  {
    ghost var was := buf[..];
    FlipAt(was, i);
    buf[i / 8] := Xor(buf[i / 8], BitMask(i));
    assert buf[..] == was[i / 8 := Xor(was[i / 8], BitMask(i))];
  }

  /** get_bit on the buffer being corrected. */
  function ReadBit(a: array<byte>, i: nat): (bit: bool)
    requires i < 8 * a.Length
    reads a
    ensures bit == Unpack(a[..])[i]
  {
    Bit(a[i / 8], 7 - i % 8)
  }

  /** Loads c' = w' XOR W of one block, one bit per byte. */
  method LoadBlock(w: array<byte>, wHelper: seq<byte>, b: nat, r: array<byte>)
    requires r.Length == N && r != w
    requires 255 * b + 255 <= 8 * w.Length && 255 * b + 255 <= 8 * |wHelper|
    modifies r
    ensures IsBits(r[..])
    ensures WordOf(r[..]) == XorWord(Block(Unpack(w[..]), b), Block(Unpack(wHelper), b))
  {
    ghost var x := XorWord(Block(Unpack(w[..]), b), Block(Unpack(wHelper), b));
    for i := 0 to N
      invariant forall k | 0 <= k < i :: r[k] == if x[k] then 1 else 0
    {
      r[i] := if ReadBit(w, 255 * b + i) != GetBit(wHelper, 255 * b + i) then 1 else 0;
    }
  }

  /** Flips the found positions of one block in the packed buffer. */
  method FlipBlock(w: array<byte>, b: nat, pos: array<nat>, n: nat)
    requires 255 * b + 255 <= 8 * w.Length && n <= pos.Length && forall i | 0 <= i < n :: pos[i] < N
    modifies w
    ensures Unpack(w[..]) == Splice(Unpack(old(w[..])), b, FlipAll(Block(Unpack(old(w[..])), b), pos[..n]))
  {
    ghost var u := Unpack(w[..]);
    assert u == Splice(u, b, Block(u, b));
    for i := 0 to n
      invariant pos[..] == old(pos[..])
      invariant Unpack(w[..]) == Splice(u, b, FlipAll(Block(u, b), pos[..i]))
    {
      assert pos[..i + 1][..i] == pos[..i];
      ghost var x := FlipAll(Block(u, b), pos[..i]);
      FlipBit(w, 255 * b + pos[i]);
      assert Splice(u, b, x)[255 * b + pos[i] := !Splice(u, b, x)[255 * b + pos[i]]]
          == Splice(u, b, x[pos[i] := !x[pos[i]]]);
    }
  }

  /** Loads and decodes one block; the positions found are those whose flipping repairs it. */
  method DecodeBlock(t: GfTables, w: array<byte>, wHelper: seq<byte>, b: nat, r: array<byte>, pos: array<nat>)
    returns (n: int)
    requires t.Ready() && r.Length == N && pos.Length == T && r !in {w, t.EXP, t.LOG}
    requires 255 * b + 255 <= 8 * w.Length && 255 * b + 255 <= 8 * |wHelper|
    modifies r, pos
    ensures var x, y := Block(Unpack(w[..]), b), Block(Unpack(wHelper), b);
            && n == Report(x, y) <= pos.Length
            && if n < 0 then Repaired(x, y) == x
               else (forall i | 0 <= i < n :: pos[i] < N) && FlipAll(x, pos[..n]) == Repaired(x, y)
  {
    ghost var x, y := Block(Unpack(w[..]), b), Block(Unpack(wHelper), b);
    LoadBlock(w, wHelper, b, r);
    ghost var before := r[..];
    n := BchDecodeC(t, r, pos);
    ReportedPositions(x, y, before, r[..], pos[..], n);
    assert n >= 0 ==> pos[..][..n] == pos[..n];
  }

  /** What the decoder reports about a loaded block, as the fate of the block. */
  lemma ReportedPositions(x: Word, y: Word, before: seq<byte>, after: seq<byte>, pos: seq<nat>, n: int)
    requires |x| == |y| == N && WordOf(before) == XorWord(x, y) && Reports(BlockOutcome(x, y), before, after, pos, n)
    ensures n == Report(x, y) <= |pos|
    ensures if n < 0 then Repaired(x, y) == x
            else (forall i | 0 <= i < n :: pos[i] < N) && FlipAll(x, pos[..n]) == Repaired(x, y)
  {
    if n >= 0 {
      FlipsRepair(x, y);
      assert forall i | 0 <= i < n :: pos[i] == pos[..n][i];
    }
  }

  /** One block: decode w' XOR W, flip the errors in w'. */
  method ReproduceBlock(t: GfTables, w: array<byte>, wHelper: seq<byte>, b: nat, r: array<byte>, pos: array<nat>)
    returns (n: int)
    requires t.Ready() && r.Length == N && pos.Length == T
    requires r !in {w, t.EXP, t.LOG} && w !in {t.EXP, t.LOG}
    requires 255 * b + 255 <= 8 * w.Length && 255 * b + 255 <= 8 * |wHelper|
    modifies w, r, pos
    ensures var u, helperBits := Unpack(old(w[..])), Unpack(wHelper);
            && n == Report(Block(u, b), Block(helperBits, b))
            && Unpack(w[..]) == Splice(u, b, Repaired(Block(u, b), Block(helperBits, b)))
  {
    ghost var u := Unpack(w[..]);
    n := DecodeBlock(t, w, wHelper, b, r, pos);
    if n < 0 {
      assert Splice(u, b, Block(u, b)) == u;
      return;
    }
    FlipBlock(w, b, pos, n);
  }

  /** The loop state after b of n blocks: those repaired, the rest as in u. */
  ghost predicate Progress(u: Word, helperBits: Word, n: nat, b: nat, v: Word)
    requires b <= n && 255 * n <= |u| == |v| && 255 * n <= |helperBits|
  {
    && (forall k | 0 <= k < b :: Done(u, helperBits, v, k))
    && (forall k | b <= k < n :: Block(v, k) == Block(u, k))
    && (forall i | 255 * n <= i < |u| :: v[i] == u[i])
  }

  lemma ProgressStep(u: Word, helperBits: Word, n: nat, b: nat, v: Word, v': Word)
    requires b < n && 255 * n <= |u| == |v| && 255 * n <= |helperBits| && Progress(u, helperBits, n, b, v)
    requires v' == Splice(v, b, Repaired(Block(v, b), Block(helperBits, b)))
    ensures Progress(u, helperBits, n, b + 1, v')
  {
    SpliceBlocks(v, b, Repaired(Block(v, b), Block(helperBits, b)));
    forall k | 0 <= k < b + 1
      ensures Done(u, helperBits, v', k)
    {
      assert k < b ==> Done(u, helperBits, v, k);
    }
  }

  /** The entries of errs written so far, and the verdict they give. */
  ghost predicate Tally(u: Word, helperBits: Word, b: nat, cs: seq<int>, ret: int)
    requires 255 * b <= |u| && 255 * b <= |helperBits| && b <= |cs|
  {
    && (forall k | 0 <= k < b :: Reported(u, helperBits, cs, k))
    && ret == if NoFailure(cs, b) then 0 else -1
  }

  lemma TallyStep(u: Word, helperBits: Word, b: nat, cs: seq<int>, ret: int, cs': seq<int>, ret': int)
    requires 255 * b + 255 <= |u| && 255 * b + 255 <= |helperBits| && b < |cs| && Tally(u, helperBits, b, cs, ret)
    requires cs' == cs[b := Report(Block(u, b), Block(helperBits, b))]
    requires ret' == if cs'[b] < 0 then -1 else ret
    ensures Tally(u, helperBits, b + 1, cs', ret')
  {
    forall k | 0 <= k < b
      ensures cs'[k] == cs[k] && Reported(u, helperBits, cs', k)
    {
      assert Reported(u, helperBits, cs, k);
    }
    assert Reported(u, helperBits, cs', b);
    assert NoFailure(cs', b + 1) <==> NoFailure(cs, b) && cs'[b] >= 0;
  }

  /** The body of the loop: one block, its entry of errs, and the verdict so far. */
  method Turn(t: GfTables, w: array<byte>, wHelper: seq<byte>, b: nat, errs: array<int>,
              r: array<byte>, pos: array<nat>, ret0: int)
    returns (ret: int)
    requires t.Ready() && r.Length == N && pos.Length == T
    requires r !in {w, t.EXP, t.LOG} && w !in {t.EXP, t.LOG} && errs as object !in {w as object, r, pos}
    requires 255 * b + 255 <= 8 * w.Length && 255 * b + 255 <= 8 * |wHelper| && b < errs.Length
    modifies w, errs, r, pos
    ensures var u, helperBits := Unpack(old(w[..])), Unpack(wHelper);
            && Unpack(w[..]) == Splice(u, b, Repaired(Block(u, b), Block(helperBits, b)))
            && errs[..] == old(errs[..])[b := Report(Block(u, b), Block(helperBits, b))]
    ensures ret == if errs[b] < 0 then -1 else ret0
  {
    ret := ret0;
    var n := ReproduceBlock(t, w, wHelper, b, r, pos);
    errs[b] := n;
    if n < 0 {
      ret := -1;
    }
  }

  /** fuzzy_reproduce: every decodable block corrected in place, the others and the
      padding untouched; -1 exactly when some block failed. */
  method FuzzyReproduce(t: GfTables, w: array<byte>, wHelper: seq<byte>, blocks: nat, errs: array<int>)
    returns (ret: int)
    requires t.Ready() && w !in {t.EXP, t.LOG} && errs as object != w
    requires 255 * blocks <= 8 * w.Length && 255 * blocks <= 8 * |wHelper| && blocks <= errs.Length
    modifies w, errs
    ensures Rebuilt(Unpack(old(w[..])), Unpack(wHelper), blocks, Unpack(w[..]), errs[..])
    ensures ret == if NoFailure(errs[..], blocks) then 0 else -1
  {
    ghost var u, helperBits := Unpack(w[..]), Unpack(wHelper);
    var r := new byte[N](_ => 0);
    var pos := new nat[T](_ => 0);
    ret := 0;
    for b := 0 to blocks
      invariant Progress(u, helperBits, blocks, b, Unpack(w[..]))
      invariant Tally(u, helperBits, b, errs[..], ret)
    {
      ghost var v, cs, ret0 := Unpack(w[..]), errs[..], ret;
      assert Block(v, b) == Block(u, b);
      ret := Turn(t, w, wHelper, b, errs, r, pos, ret);
      TallyStep(u, helperBits, b, cs, ret0, errs[..], ret);
      ProgressStep(u, helperBits, blocks, b, v, Unpack(w[..]));
    }
  }

  // ---------- what reconstruction achieves ----------

  /** A block within t of no codeword is reported -1 and keeps its bits; any other is
      changed in exactly the reported number of positions. */
  lemma BlockFate(x: Word, y: Word)
    requires |x| == |y| == N
    ensures if exists c :: IsCodeword(c) && Distance(XorWord(x, y), c) <= T
            then 0 <= Report(x, y) == Distance(x, Repaired(x, y)) <= T && IsCodeword(XorWord(Repaired(x, y), y))
            else Report(x, y) == -1 && Repaired(x, y) == x
  {
    var r := XorWord(x, y);
    DecodeExact(r);
    if Decode(r).Corrected? {
      DecodeSound(r);
      var c := Decode(r).word;
      DistanceShift(x, XorWord(c, y), y, N);
      assert XorWord(XorWord(c, y), y) == c;
    }
  }

  /** W hides w behind a codeword in block b. */
  ghost predicate OffsetAt(w: Word, wHelper: Word, b: nat)
    requires 255 * b + 255 <= |w| && 255 * b + 255 <= |wHelper|
  {
    IsCodeword(XorWord(Block(w, b), Block(wHelper, b)))
  }

  ghost predicate CodeOffset(w: Word, wHelper: Word, n: nat)
    requires 255 * n <= |w| && 255 * n <= |wHelper|
  {
    forall b | 0 <= b < n :: OffsetAt(w, wHelper, b)
  }

  /** The Hamming distance of two responses in block b. */
  function BlockDistance(v: Word, w: Word, b: nat): nat
    requires 255 * b + 255 <= |v| && 255 * b + 255 <= |w|
  {
    Distance(Block(v, b), Block(w, b))
  }

  ghost predicate WithinT(v: Word, w: Word, n: nat)
    requires 255 * n <= |w| && 255 * n <= |v|
  {
    forall b | 0 <= b < n :: BlockDistance(v, w, b) <= T
  }

  lemma {:induction false} DistanceShift(a: Word, b: Word, x: Word, k: nat)
    requires k <= |a| == |b| == |x|
    ensures DistanceUpTo(XorWord(a, x), XorWord(b, x), k) == DistanceUpTo(a, b, k)
  {
    if k > 0 {
      DistanceShift(a, b, x, k - 1);
    }
  }

  /** One block x of a response within t of the enrolled block g. */
  lemma BlockRecovered(g: Word, x: Word, y: Word)
    requires |g| == |x| == |y| == N && IsCodeword(XorWord(g, y)) && Distance(x, g) <= T
    ensures Repaired(x, y) == g && Report(x, y) == Distance(x, g)
  {
    var r, c := XorWord(x, y), XorWord(g, y);
    DistanceShift(x, g, y, N);
    DecodeComplete(r, c);
    DecodeSound(r);
    assert XorWord(c, y) == g;
  }

  lemma SameBlocks(v: Word, w: Word, n: nat)
    requires 255 * n <= |v| && 255 * n <= |w| && forall b | 0 <= b < n :: Block(v, b) == Block(w, b)
    ensures forall i | 0 <= i < 255 * n :: v[i] == w[i]
  {
    forall i | 0 <= i < 255 * n
      ensures v[i] == w[i]
    {
      var b, j := i / 255, i % 255;
      assert v[255 * b + j] == Block(v, b)[j] == Block(w, b)[j];
    }
  }

  /** Fuzzy-extractor correctness: any response within t of the enrolled one in every
      block is turned into the enrolled one, with the exact error counts. */
  lemma Recovers(w: Word, u: Word, wHelper: Word, n: nat, v: Word, cs: seq<int>)
    requires |w| == |u| && 255 * n <= |w| && 255 * n <= |wHelper|
    requires CodeOffset(w, wHelper, n) && WithinT(u, w, n) && Rebuilt(u, wHelper, n, v, cs)
    ensures forall i | 0 <= i < |u| :: v[i] == if i < 255 * n then w[i] else u[i]
    ensures NoFailure(cs, n)
    ensures forall b | 0 <= b < n :: cs[b] == BlockDistance(u, w, b)
  {
    forall b | 0 <= b < n
      ensures Block(v, b) == Block(w, b)
      ensures cs[b] == BlockDistance(u, w, b)
    {
      assert BlockDistance(u, w, b) <= T;
      assert Done(u, wHelper, v, b) && Reported(u, wHelper, cs, b) && OffsetAt(w, wHelper, b);
      BlockRecovered(Block(w, b), Block(u, b), Block(wHelper, b));
    }
    SameBlocks(v, w, n);
  }
}
