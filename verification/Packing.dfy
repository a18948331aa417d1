/**
  Bits of a packed buffer, most significant bit of each byte first: the order both
  programs use for the response, the mask and the helper data.
 */
module Packing {
  import opened Bits
  import opened Bch

  /** get_bit: (buf[i / 8] >> (7 - i % 8)) & 1 */
  function GetBit(buf: seq<byte>, i: nat): bool
    requires i < 8 * |buf|
  {
    Bit(buf[i / 8], 7 - i % 8)
  }

  /** 0x80 >> (i % 8) */
  function BitMask(i: nat): (m: byte)
    ensures m == Pow2(7 - i % 8)
  {
    ShrPow2(7, i % 8);
    MaskFits(7 - i % 8);
    assert Pow2(7) == 0x80;
    Shr(0x80, i % 8)
  }

  lemma {:induction false} MaskFits(k: nat)
    requires k < 8
    ensures Pow2(k) < 256
  {
    Pow2Increases(k, 8);
    assert Pow2(8) == 256;
  }

  /** All bits of a buffer, in order. */
  function Unpack(buf: seq<byte>): (w: Word)
    ensures |w| == 8 * |buf| && forall i | 0 <= i < 8 * |buf| :: w[i] == GetBit(buf, i)
  {
    seq(8 * |buf|, i requires 0 <= i < 8 * |buf| => GetBit(buf, i))
  }

  /** Two buffers with the same bits are the same buffer. */
  lemma UnpackInjective(a: seq<byte>, b: seq<byte>)
    requires Unpack(a) == Unpack(b)
    ensures a == b
  {
    assert 8 * |a| == |Unpack(a)| == 8 * |b|;
    forall k | 0 <= k < |a|
      ensures a[k] == b[k]
    {
      forall i: nat
        ensures Bit(a[k], i) == Bit(b[k], i)
      {
        if i < 8 {
          BitOfByte(a, k, i);
          BitOfByte(b, k, i);
        } else {
          assert Pow2(8) == 256;
          BitBound(a[k], 8, i);
          BitBound(b[k], 8, i);
        }
      }
      BitsDetermine(a[k], b[k]);
    }
  }

  lemma {:induction false} BitOfByte(a: seq<byte>, k: nat, i: nat)
    requires k < |a| && i < 8
    ensures 8 * k + 7 - i < 8 * |a| && Bit(a[k], i) == Unpack(a)[8 * k + 7 - i]
  {
    var p := 8 * k + 7 - i;
    assert p / 8 == k && p % 8 == 7 - i;
  }

  // ---------- writing single bits ----------

  lemma {:induction false} XorMask(v: byte, i: nat)
    ensures Xor(v, BitMask(i)) < 256
    ensures forall j: nat :: Bit(Xor(v, BitMask(i)), j) == if j == 7 - i % 8 then !Bit(v, j) else Bit(v, j)
  {
    XorBound(v, BitMask(i), 8);
    forall j: nat
      ensures Bit(Xor(v, BitMask(i)), j) == if j == 7 - i % 8 then !Bit(v, j) else Bit(v, j)
    {
      BitXor(v, BitMask(i), j);
      BitPow2(7 - i % 8, j);
    }
  }

  lemma {:induction false} OrMask(v: byte, i: nat)
    ensures Or(v, BitMask(i)) < 256
    ensures forall j: nat :: Bit(Or(v, BitMask(i)), j) == (j == 7 - i % 8 || Bit(v, j))
  {
    OrBound(v, BitMask(i), 8);
    forall j: nat
      ensures Bit(Or(v, BitMask(i)), j) == (j == 7 - i % 8 || Bit(v, j))
    {
      BitOr(v, BitMask(i), j);
      BitPow2(7 - i % 8, j);
    }
  }

  /** buf[i / 8] ^= 0x80 >> (i % 8), as a change of the bit list. */
  lemma FlipAt(buf: seq<byte>, i: nat)
    requires i < 8 * |buf|
    ensures Xor(buf[i / 8], BitMask(i)) < 256
    ensures Unpack(buf[i / 8 := Xor(buf[i / 8], BitMask(i))]) == Unpack(buf)[i := !Unpack(buf)[i]]
  {
    XorMask(buf[i / 8], i);
    var after := buf[i / 8 := Xor(buf[i / 8], BitMask(i))];
    forall k | 0 <= k < 8 * |buf|
      ensures Unpack(after)[k] == Unpack(buf)[i := !Unpack(buf)[i]][k]
    {
      SameBit(i, k);
    }
  }

  /** buf[i / 8] |= 0x80 >> (i % 8), as a change of the bit list. */
  lemma SetAt(buf: seq<byte>, i: nat)
    requires i < 8 * |buf|
    ensures Or(buf[i / 8], BitMask(i)) < 256
    ensures Unpack(buf[i / 8 := Or(buf[i / 8], BitMask(i))]) == Unpack(buf)[i := true]
  {
    OrMask(buf[i / 8], i);
    var after := buf[i / 8 := Or(buf[i / 8], BitMask(i))];
    forall k | 0 <= k < 8 * |buf|
      ensures Unpack(after)[k] == Unpack(buf)[i := true][k]
    {
      SameBit(i, k);
    }
  }

  lemma SameBit(i: nat, k: nat)
    ensures i == k <==> i / 8 == k / 8 && 7 - i % 8 == 7 - k % 8
  {
  }

  // ---------- packing ----------

  function Padded(bits: Word, n: nat): (w: Word)
    requires |bits| <= n
    ensures |w| == n && forall i | 0 <= i < n :: w[i] == (i < |bits| && bits[i])
  {
    seq(n, i requires 0 <= i < n => i < |bits| && bits[i])
  }

  /** s[lo:hi], which stops at the end of the list. */
  function Cut(s: Word, lo: nat, hi: nat): Word {
    if lo >= |s| || lo >= hi then [] else if hi >= |s| then s[lo..] else s[lo..hi]
  }

  function PackedSize(n: nat): nat {
    (n + 7) / 8
  }

  /** buf is the packed form of bits: the bits in order, then zeros to the last byte. */
  ghost predicate IsPacked(buf: seq<byte>, bits: Word) {
    |buf| == PackedSize(|bits|) && Unpack(buf) == Padded(bits, 8 * |buf|)
  }

  lemma PackedUnique(a: seq<byte>, b: seq<byte>, bits: Word)
    requires IsPacked(a, bits) && IsPacked(b, bits)
    ensures a == b
  {
    UnpackInjective(a, b);
  }

  /** Bit lists of one length with the same packed form are the same list. */
  lemma PackInjective(a: Word, b: Word)
    requires |a| == |b| && Pack(a) == Pack(b)
    ensures a == b
  {
    forall i | 0 <= i < |a|
      ensures a[i] == b[i]
    {
      assert Padded(a, 8 * |Pack(a)|)[i] == a[i];
      assert Padded(b, 8 * |Pack(b)|)[i] == b[i];
    }
  }

  /** if b: out[i // 8] |= 0x80 >> (i % 8) */
  function WithBit(buf: seq<byte>, i: nat, bit: bool): (r: seq<byte>)
    requires i < 8 * |buf|
    ensures |r| == |buf| && Unpack(r) == Unpack(buf)[i := Unpack(buf)[i] || bit]
  {
    SetAt(buf, i);
    if bit then buf[i / 8 := Or(buf[i / 8], BitMask(i))] else buf
  }

  lemma PaddedNext(bits: Word, k: nat, n: nat)
    requires k < |bits| <= n
    ensures Padded(bits[..k], n)[k := Padded(bits[..k], n)[k] || bits[k]] == Padded(bits[..k + 1], n)
  {
  }

  /** The packed bytes after the first k bits have been written. */
  function PackUpTo(bits: Word, k: nat): (buf: seq<byte>)
    requires k <= |bits|
    ensures |buf| == PackedSize(|bits|) && Unpack(buf) == Padded(bits[..k], 8 * |buf|)
  {
    if k == 0 then
      var zero := seq(PackedSize(|bits|), _ => 0);
      ZeroUnpack(zero);
      zero
    else
      var buf := PackUpTo(bits, k - 1);
      PaddedNext(bits, k - 1, 8 * |buf|);
      WithBit(buf, k - 1, bits[k - 1])
  }

  function Pack(bits: Word): (buf: seq<byte>)
    ensures IsPacked(buf, bits)
  {
    assert bits[..|bits|] == bits;
    PackUpTo(bits, |bits|)
  }

  /** pack_bits */
  method PackBits(bits: Word) returns (out: seq<byte>)
    ensures out == Pack(bits)
  {
    out := seq(PackedSize(|bits|), _ => 0);
    for i := 0 to |bits|
      invariant out == PackUpTo(bits, i)
    {
      ghost var before := out;
      if bits[i] {
        SetAt(out, i);
        out := out[i / 8 := Or(out[i / 8], BitMask(i))];
      }
      assert out == WithBit(before, i, bits[i]);
    }
  }

  lemma ZeroUnpack(buf: seq<byte>)
    requires forall k | 0 <= k < |buf| :: buf[k] == 0
    ensures Unpack(buf) == Padded([], 8 * |buf|)
  {
    forall i | 0 <= i < 8 * |buf|
      ensures !Unpack(buf)[i]
    {
      BitBound(0, 0, 7 - i % 8);
    }
  }
}
