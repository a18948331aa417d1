/**
  The helper data: what the provisioner builds and serializes, and what the board reads
  back at fixed offsets.
 */
module HelperFormat {
  import opened Wrappers
  import opened Bits
  import opened Bch
  import opened Generator
  import opened Packing
  import opened Response
  import opened Extractor

  const HEADER_SIZE: nat := 21
  const SIG_SIZE: nat := 64
  const VERSION: nat := 1

  /** b"PUFH" */
  const MAGIC: seq<byte> := [0x50, 0x55, 0x46, 0x48]

  datatype HelperData = HelperData(
    mac: seq<byte>,
    regionAddr: nat,
    regionBytes: nat,
    mask: seq<byte>,
    wHelper: seq<byte>,
    version: nat,
    n: nat,
    k: nat,
    t: nat,
    blocks: nat,
    signature: seq<byte>)

  // ---------- little-endian integers ----------

  function Le(v: nat, k: nat): (s: seq<byte>)
    ensures |s| == k
  {
    if k == 0 then [] else [v % 256] + Le(v / 256, k - 1)
  }

  function FromLe(s: seq<byte>): nat {
    if s == [] then 0 else s[0] + 256 * FromLe(s[1..])
  }

  function Limit(k: nat): nat {
    if k == 0 then 1 else 256 * Limit(k - 1)
  }

  lemma {:induction false} LeRoundTrip(v: nat, k: nat)
    requires v < Limit(k)
    ensures FromLe(Le(v, k)) == v
  {
    if k > 0 {
      LeRoundTrip(v / 256, k - 1);
    }
  }

  lemma {:induction false} FromLeRoundTrip(s: seq<byte>)
    ensures FromLe(s) < Limit(|s|) && Le(FromLe(s), |s|) == s
  {
    if s != [] {
      FromLeRoundTrip(s[1..]);
      assert FromLe(s) / 256 == FromLe(s[1..]) && FromLe(s) % 256 == s[0];
    }
  }

  // ---------- serialization ----------

  /** The format "6s": truncated or filled with zeros to six bytes. */
  function SixBytes(mac: seq<byte>): (s: seq<byte>)
    ensures |s| == 6 && forall i | 0 <= i < 6 :: s[i] == if i < |mac| then mac[i] else 0
  {
    if |mac| >= 6 then mac[..6] else mac + seq(6 - |mac|, _ => 0)
  }

  /** The integers fit the fields of "<4sB6sIHBBBB"; otherwise struct.pack raises. */
  predicate Packable(h: HelperData) {
    && h.regionAddr < Limit(4) && h.regionBytes < Limit(2)
    && h.version < 256 && h.n < 256 && h.k < 256 && h.t < 256 && h.blocks < 256
  }

  function Header(h: HelperData): (s: seq<byte>)
    requires Packable(h)
    ensures |s| == HEADER_SIZE
  {
    MAGIC + [h.version] + SixBytes(h.mac) + Le(h.regionAddr, 4) + Le(h.regionBytes, 2) + [h.n, h.k, h.t, h.blocks]
  }

  /** payload: every byte the signature covers. */
  function Payload(h: HelperData): Option<seq<byte>> {
    if Packable(h) then Some(Header(h) + h.mask + h.wHelper) else None
  }

  function ToBytes(h: HelperData): Option<seq<byte>> {
    match Payload(h)
    case Some(p) => Some(p + h.signature)
    case None => None
  }

  /** Whether a signature is the provisioner's, on the bytes given. */
  type Verifier = (seq<byte>, seq<byte>) -> bool

  /** verify, for helper data whose payload exists. */
  predicate Verified(h: HelperData, verify: Verifier) {
    Payload(h).Some? && |h.signature| == SIG_SIZE && verify(Payload(h).value, h.signature)
  }

  datatype Parsed = Accepted(h: HelperData) | Rejected(why: ParseError)

  datatype ParseError = TooShort | BadMagic | UnsupportedVersion(version: nat) | WrongLength(expected: nat, got: nat)

  function FromBytes(data: seq<byte>): Parsed {
    if |data| < HEADER_SIZE then Rejected(TooShort)
    else if data[..4] != MAGIC then Rejected(BadMagic)
    else if data[4] != VERSION then Rejected(UnsupportedVersion(data[4]))
    else
      var addr, regionBytes := FromLe(data[11..15]), FromLe(data[15..17]);
      var n, k, t, blocks := data[17] as nat, data[18] as nat, data[19] as nat, data[20] as nat;
      var wBytes := PackedSize(n * blocks);
      var expected := HEADER_SIZE + regionBytes + wBytes + SIG_SIZE;
      if |data| != expected then Rejected(WrongLength(expected, |data|))
      else
        var start := HEADER_SIZE;
        var mask := data[start..start + regionBytes];
        var start := start + regionBytes;
        var wHelper := data[start..start + wBytes];
        var start := start + wBytes;
        Accepted(HelperData(data[5..11], addr, regionBytes, mask, wHelper, data[4], n, k, t, blocks, data[start..]))
  }

  /** Helper data that survives the wire. */
  predicate WellFormed(h: HelperData) {
    && Packable(h) && h.version == VERSION && |h.mac| == 6
    && |h.mask| == h.regionBytes && |h.wHelper| == PackedSize(h.n * h.blocks) && |h.signature| == SIG_SIZE
  }

  lemma HeaderLayout(h: HelperData)
    requires Packable(h)
    ensures var s := Header(h);
            && s[..4] == MAGIC && s[4] == h.version && s[5..11] == SixBytes(h.mac)
            && s[11..15] == Le(h.regionAddr, 4) && s[15..17] == Le(h.regionBytes, 2)
            && s[17] == h.n && s[18] == h.k && s[19] == h.t && s[20] == h.blocks
  {
    var s := Header(h);
    var upToMac := MAGIC + [h.version] + SixBytes(h.mac);
    var addr, size, tail := Le(h.regionAddr, 4), Le(h.regionBytes, 2), [h.n, h.k, h.t, h.blocks];
    assert s[..11] == upToMac;
    assert s[..15] == upToMac + addr;
    assert s[11..15] == s[..15][11..] == addr;
    assert s[..17] == upToMac + addr + size;
    assert s[15..17] == s[..17][15..] == size;
    assert s[17..] == tail;
    assert s[..11][..4] == MAGIC && s[..11][4] == h.version && s[..11][5..] == SixBytes(h.mac);
    assert s[17] == tail[0] && s[18] == tail[1] && s[19] == tail[2] && s[20] == tail[3];
  }

  /** Where each field lies in the serialized form. */
  lemma Layout(h: HelperData)
    requires Packable(h) && |h.mac| == 6 && |h.signature| == SIG_SIZE
    ensures var d := ToBytes(h).value;
            && |d| == HEADER_SIZE + |h.mask| + |h.wHelper| + SIG_SIZE
            && d[..4] == MAGIC && d[4] == h.version && d[5..11] == h.mac
            && d[11..15] == Le(h.regionAddr, 4) && d[15..17] == Le(h.regionBytes, 2)
            && d[17] == h.n && d[18] == h.k && d[19] == h.t && d[20] == h.blocks
            && d[21..21 + |h.mask|] == h.mask
            && d[21 + |h.mask|..21 + |h.mask| + |h.wHelper|] == h.wHelper
            && d[21 + |h.mask| + |h.wHelper|..] == h.signature
  {
    HeaderLayout(h);
    var d, s := ToBytes(h).value, Header(h);
    assert d[..21] == s;
    assert d[..4] == s[..4] && d[5..11] == s[5..11] && d[11..15] == s[11..15] && d[15..17] == s[15..17];
    assert d[4] == s[4] && d[17] == s[17] && d[18] == s[18] && d[19] == s[19] && d[20] == s[20];
  }

  /** The signed bytes are all but the signature: header, mask and W. */
  lemma PayloadIsAllButSignature(h: HelperData)
    requires Packable(h)
    ensures var d, p := ToBytes(h).value, Payload(h).value;
            && |d| == |p| + |h.signature| && p == d[..|p|] && d[|p|..] == h.signature
            && |p| == HEADER_SIZE + |h.mask| + |h.wHelper|
            && p[HEADER_SIZE..] == h.mask + h.wHelper
            && p[..4] == MAGIC && p[4] == h.version && p[5..11] == SixBytes(h.mac)
            && p[11..15] == Le(h.regionAddr, 4) && p[15..17] == Le(h.regionBytes, 2)
            && p[17] == h.n && p[18] == h.k && p[19] == h.t && p[20] == h.blocks
  {
    HeaderLayout(h);
    var p, s := Payload(h).value, Header(h);
    assert p[..21] == s && p[21..] == h.mask + h.wHelper;
    assert p[..4] == s[..4] && p[5..11] == s[5..11] && p[11..15] == s[11..15] && p[15..17] == s[15..17];
    assert p[4] == s[4] && p[17] == s[17] && p[18] == s[18] && p[19] == s[19] && p[20] == s[20];
  }

  /** from_bytes undoes to_bytes. */
  lemma ParseSerialized(h: HelperData)
    requires WellFormed(h)
    ensures FromBytes(ToBytes(h).value) == Accepted(h)
  {
    Layout(h);
    LeRoundTrip(h.regionAddr, 4);
    LeRoundTrip(h.regionBytes, 2);
  }

  /** Everything from_bytes accepts is well formed, and to_bytes gives the input back. */
  lemma SerializeParsed(data: seq<byte>)
    requires FromBytes(data).Accepted?
    ensures WellFormed(FromBytes(data).h) && ToBytes(FromBytes(data).h) == Some(data)
  {
    var h := FromBytes(data).h;
    FromLeRoundTrip(data[11..15]);
    FromLeRoundTrip(data[15..17]);
    Layout(h);
    var d := ToBytes(h).value;
    SameHeader(d, data);
    SameParts(d, data, 21 + |h.mask|, 21 + |h.mask| + |h.wHelper|);
  }

  /** from_bytes accepts exactly the serialized forms of well-formed values. */
  lemma ParseAcceptsExactly(data: seq<byte>)
    ensures FromBytes(data).Accepted? <==> exists h | WellFormed(h) :: ToBytes(h) == Some(data)
  {
    if FromBytes(data).Accepted? {
      SerializeParsed(data);
    }
    forall h | WellFormed(h) && ToBytes(h) == Some(data)
      ensures FromBytes(data) == Accepted(h)
    {
      ParseSerialized(h);
    }
  }

  /** The number of bytes that a header calls for. */
  function Expected(data: seq<byte>): nat
    requires |data| >= HEADER_SIZE
  {
    HEADER_SIZE + FromLe(data[15..17]) + PackedSize((data[17] as nat) * (data[20] as nat)) + SIG_SIZE
  }

  /** When from_bytes fails, and how: the first of four tests that the bytes do not pass. */
  lemma ParseFailsExactly(data: seq<byte>)
    ensures FromBytes(data) == Rejected(TooShort) <==> |data| < HEADER_SIZE
    ensures FromBytes(data) == Rejected(BadMagic) <==> |data| >= HEADER_SIZE && !(MAGIC <= data)
    ensures |data| >= HEADER_SIZE && MAGIC <= data && data[4] != VERSION <==>
            FromBytes(data).Rejected? && FromBytes(data).why.UnsupportedVersion?
    ensures |data| >= HEADER_SIZE && MAGIC <= data && data[4] == VERSION && |data| != Expected(data) <==>
            FromBytes(data).Rejected? && FromBytes(data).why.WrongLength?
    ensures FromBytes(data).Rejected? && FromBytes(data).why.UnsupportedVersion? ==>
            FromBytes(data).why.version == data[4]
    ensures FromBytes(data).Rejected? && FromBytes(data).why.WrongLength? ==>
            FromBytes(data).why.expected == Expected(data) && FromBytes(data).why.got == |data|
  {
  }

  lemma SameHeader(d: seq<byte>, e: seq<byte>)
    requires |d| >= 21 && |e| >= 21 && d[..4] == e[..4] && d[4] == e[4] && d[5..11] == e[5..11]
    requires d[11..15] == e[11..15] && d[15..17] == e[15..17]
    requires d[17] == e[17] && d[18] == e[18] && d[19] == e[19] && d[20] == e[20]
    ensures d[..21] == e[..21]
  {
    assert d[..17] == d[..4] + [d[4]] + d[5..11] + d[11..15] + d[15..17];
    assert e[..17] == e[..4] + [e[4]] + e[5..11] + e[11..15] + e[15..17];
    assert d[..21] == d[..17] + [d[17], d[18], d[19], d[20]];
    assert e[..21] == e[..17] + [e[17], e[18], e[19], e[20]];
  }

  lemma SameParts(d: seq<byte>, e: seq<byte>, i: nat, j: nat)
    requires 21 <= i <= j <= |d| && j <= |e|
    requires d[..21] == e[..21] && d[21..i] == e[21..i] && d[i..j] == e[i..j] && d[j..] == e[j..]
    ensures d == e
  {
    assert d == d[..21] + d[21..i] + d[i..j] + d[j..];
    assert e == e[..21] + e[21..i] + e[i..j] + e[j..];
  }

  // ---------- build and use ----------

  /** One bit per cell, set where the cell is used. */
  function MaskBits(n: nat, cells: seq<nat>): (m: Word)
    ensures |m| == n && forall i | 0 <= i < n :: m[i] == (i in cells)
  {
    seq(n, i requires 0 <= i < n => i in cells)
  }

  ghost predicate CellsBelow(cells: seq<nat>, n: nat) {
    forall j | 0 <= j < |cells| :: cells[j] < n
  }

  /** What build makes of the enrolment output. */
  ghost function Built(mac: seq<byte>, regionAddr: nat, regionBits: nat, cells: seq<nat>, helperInts: seq<nat>)
    : HelperData
  {
    HelperData(mac, regionAddr, regionBits / 8, Pack(MaskBits(regionBits, cells)),
               Pack(Join(HelperBlocks(helperInts))), VERSION, N, FUZZY_K, T, 4, [])
  }

  /** mask[i] is in range: Python counts a negative index from the end. */
  predicate Indexes(i: int, n: nat) {
    0 <= i + n && i < n
  }

  function Wrapped(i: int, n: nat): nat
    requires Indexes(i, n)
  {
    if i < 0 then i + n else i
  }

  ghost predicate AllIndex(cells: seq<int>, n: nat) {
    forall j | 0 <= j < |cells| :: Indexes(cells[j], n)
  }

  /** The cells that a list of indices stands for. */
  ghost function WrappedCells(cells: seq<int>, n: nat): (ws: seq<nat>)
    requires AllIndex(cells, n)
    ensures |ws| == |cells| && CellsBelow(ws, n) && forall j | 0 <= j < |ws| :: ws[j] == Wrapped(cells[j], n)
  {
    seq(|cells|, j requires 0 <= j < |cells| => Wrapped(cells[j], n))
  }

  /** The first loop of build: None for the IndexError of a cell outside the region. */
  method FillMask(n: nat, cells: seq<int>) returns (mask: Option<Word>)
    ensures mask.Some? <==> AllIndex(cells, n)
    ensures mask.Some? ==> mask.value == MaskBits(n, WrappedCells(cells, n))
  {
    var m: Word := seq(n, _ => false);
    for j := 0 to |cells|
      invariant |m| == n && forall k | 0 <= k < j :: Indexes(cells[k], n)
      invariant forall i | 0 <= i < n :: m[i] <==> exists k | 0 <= k < j :: Wrapped(cells[k], n) == i
    {
      if !Indexes(cells[j], n) {
        return None;
      }
      m := m[Wrapped(cells[j], n) := true];
    }
    ghost var ws := WrappedCells(cells, n);
    assert forall i | 0 <= i < n :: m[i] <==> i in ws;
    mask := Some(m);
  }

  /** Bit i of the mask is set for the cell i, given as i or counted from the end; there
      are zeros after the last bit. */
  ghost predicate MaskSet(mask: seq<byte>, n: nat, cells: seq<int>) {
    && |mask| == PackedSize(n)
    && forall i | 0 <= i < 8 * |mask| :: Unpack(mask)[i] <==> i < n && (i in cells || i - n in cells)
  }

  lemma BuiltMask(mask: seq<byte>, n: nat, cells: seq<int>)
    requires AllIndex(cells, n) && IsPacked(mask, MaskBits(n, WrappedCells(cells, n)))
    ensures MaskSet(mask, n, cells)
  {
    var ws := WrappedCells(cells, n);
    forall i: int | 0 <= i < n
      ensures i in ws <==> i in cells || i - n in cells
    {
      if i in ws {
        var j :| 0 <= j < |ws| && ws[j] == i;
        assert cells[j] == i || cells[j] == i - n;
      }
      if i in cells {
        var j :| 0 <= j < |cells| && cells[j] == i;
        assert Indexes(cells[j], n) && ws[j] == i;
      }
      if i - n in cells {
        var j :| 0 <= j < |cells| && cells[j] == i - n;
        assert Indexes(cells[j], n) && ws[j] == i;
      }
    }
  }

  /** build; None for the IndexError of a cell outside the region. */
  method Build(mac: seq<byte>, regionAddr: nat, regionBits: nat, cells: seq<int>, helperInts: seq<nat>)
    returns (h: Option<HelperData>)
    ensures h.Some? <==> forall j | 0 <= j < |cells| :: 0 <= cells[j] + regionBits && cells[j] < regionBits
    ensures h.Some? ==> h.value == Built(mac, regionAddr, regionBits, WrappedCells(cells, regionBits), helperInts)
    ensures h.Some? ==> h.value.mac == mac && h.value.regionAddr == regionAddr && h.value.signature == []
    ensures h.Some? ==> MaskSet(h.value.mask, regionBits, cells)
    ensures h.Some? ==> 8 * h.value.regionBytes <= regionBits < 8 * h.value.regionBytes + 8
    ensures h.Some? ==> h.value.version == 1 && h.value.blocks == 4
    ensures h.Some? ==> h.value.n == 255 && h.value.k == 179 && h.value.t == 10
    ensures h.Some? ==> |h.value.wHelper| == PackedSize(255 * |helperInts|) && StoredHelper(h.value.wHelper, helperInts)
  {
    var mask := FillMask(regionBits, cells);
    if mask == None {
      return None;
    }
    var bits: Word := [];
    ghost var bs := HelperBlocks(helperInts);
    for b := 0 to |helperInts|
      invariant bits == Join(bs[..b])
    {
      JoinNext(bs[..b], bs[b]);
      assert bs[..b + 1] == bs[..b] + [bs[b]];
      bits := bits + ToBits(helperInts[b], N);
    }
    assert bs[..|bs|] == bs;
    var maskBytes := PackBits(mask.value);
    var wBytes := PackBits(bits);
    h := Some(HelperData(mac, regionAddr, regionBits / 8, maskBytes, wBytes, VERSION, N, FUZZY_K, T, 4, []));
    PackedHelperStored(wBytes, helperInts);
    BuiltMask(maskBytes, regionBits, cells);
  }

  /** bytes_to_bits(data, count), which stops at the end of the data. */
  function BytesToBits(data: seq<byte>, count: nat): Word {
    Cut(Unpack(data), 0, count)
  }

  /** cells: the indices the mask selects, in address order. */
  function Cells(h: HelperData): seq<nat> {
    Support(Unpack(h.mask))
  }

  /** helper_ints: W as one integer per block. */
  function HelperInts(h: HelperData): (ints: seq<nat>)
    ensures |ints| == h.blocks
  {
    var bits := BytesToBits(h.wHelper, h.n * h.blocks);
    seq(h.blocks, b requires 0 <= b < h.blocks => BlockInt(bits, h.n, b))
  }

  /** bits_to_int(bits[b * n:(b + 1) * n]) */
  function BlockInt(bits: Word, n: nat, b: nat): nat {
    ToInt(Cut(bits, b * n, (b + 1) * n))
  }

  /** cells lists the set bits of the mask, whatever the helper data. */
  lemma CellsExactly(h: HelperData)
    ensures Ascending(Cells(h))
    ensures forall x: nat :: x in Cells(h) <==> x < 8 * |h.mask| && Unpack(h.mask)[x]
  {
    var u := Unpack(h.mask);
    PositionsSpec(u, |u|);
  }

  /** helper_ints reads W block by block, whatever the helper data: bit i of integer b is
      bit b * n + i of W, if the bytes reach that far. */
  lemma HelperIntsExactly(h: HelperData, b: nat, i: nat, lo: nat)
    requires b < h.blocks && lo == b * h.n
    ensures Bit(HelperInts(h)[b], i) <==> i < h.n && lo + i < 8 * |h.wHelper| && Unpack(h.wHelper)[lo + i]
  {
    var n, count, hi := h.n, h.n * h.blocks, (b + 1) * h.n;
    BlockWithin(b, h.blocks, n, lo);
    assert hi == lo + n <= count;
    IntIs(h, b, count, lo, hi);
    CutBit(Unpack(h.wHelper), count, lo, hi, i);
  }

  lemma IntIs(h: HelperData, b: nat, count: nat, lo: nat, hi: nat)
    requires b < h.blocks && count == h.n * h.blocks && lo == b * h.n && hi == (b + 1) * h.n
    ensures HelperInts(h)[b] == ToInt(Cut(Cut(Unpack(h.wHelper), 0, count), lo, hi))
  {
  }

  lemma BlockWithin(b: nat, blocks: nat, n: nat, lo: nat)
    requires b < blocks && lo == b * n
    ensures (b + 1) * n == lo + n <= n * blocks
  {
    var rest: nat := blocks - b - 1;
    assert n * blocks == lo + n + rest * n;
  }

  lemma CutBit(w: Word, count: nat, lo: nat, hi: nat, i: nat)
    requires lo <= hi <= count
    ensures Bit(ToInt(Cut(Cut(w, 0, count), lo, hi)), i) <==> i < hi - lo && lo + i < |w| && w[lo + i]
  {
    var part := Cut(Cut(w, 0, count), lo, hi);
    ToIntBit(part, |part|, i);
  }

  /** Two ascending lists with the same members are the same list. */
  lemma {:induction false} AscendingDetermined(a: seq<nat>, b: seq<nat>)
    requires Ascending(a) && Ascending(b) && forall x :: x in a <==> x in b
    ensures a == b
  {
    SameEmpty(a, b);
    SameEmpty(b, a);
    if a != [] {
      var m, n := |a| - 1, |b| - 1;
      AtMostLast(a, b[n]);
      AtMostLast(b, a[m]);
      forall z: nat
        ensures z in a[..m] <==> z in b[..n]
      {
        LastRemoved(a, z);
        LastRemoved(b, z);
      }
      AscendingDetermined(a[..m], b[..n]);
      assert a == a[..m] + [a[m]] && b == b[..n] + [b[n]];
    }
  }

  lemma SameEmpty(a: seq<nat>, b: seq<nat>)
    requires forall x :: x in a ==> x in b
    ensures b == [] ==> a == []
  {
    if |a| > 0 {
      assert a[0] in b;
    }
  }

  lemma AtMostLast(a: seq<nat>, x: nat)
    requires Ascending(a) && x in a
    ensures x <= a[|a| - 1]
  {
    var i :| 0 <= i < |a| && a[i] == x;
  }

  lemma LastRemoved(a: seq<nat>, z: nat)
    requires Ascending(a) && a != []
    ensures z in a[..|a| - 1] <==> z in a && z != a[|a| - 1]
  {
    var m := |a| - 1;
    assert a == a[..m] + [a[m]];
    if z in a[..m] {
      var i :| 0 <= i < m && a[i] == z;
      assert a[i] < a[m];
    }
  }

  /** cells gives back what build was given exactly when that list ascends. */
  lemma CellsOfBuilt(mask: seq<byte>, n: nat, cells: seq<nat>)
    requires mask == Pack(MaskBits(n, cells)) && CellsBelow(cells, n)
    ensures Support(Unpack(mask)) == cells <==> Ascending(cells)
  {
    var u := Unpack(mask);
    PositionsSpec(u, |u|);
    if Ascending(cells) {
      forall x: nat
        ensures x in Support(u) <==> x in cells
      {
        MaskBitOfBuilt(mask, n, cells, x);
      }
      AscendingDetermined(Support(u), cells);
    }
  }

  lemma MaskBitOfBuilt(mask: seq<byte>, n: nat, cells: seq<nat>, x: nat)
    requires mask == Pack(MaskBits(n, cells)) && CellsBelow(cells, n)
    ensures x in Support(Unpack(mask)) <==> x in cells
  {
    var u := Unpack(mask);
    PositionsSpec(u, |u|);
    if x < |u| {
      assert u[x] == Padded(MaskBits(n, cells), |u|)[x];
    }
  }

  /** The b-th integer read from a packed W. */
  lemma IntOfPacked(wHelper: seq<byte>, ints: seq<nat>, b: nat)
    requires wHelper == Pack(Join(HelperBlocks(ints))) && b < |ints|
    ensures 255 * b + 255 <= 8 * |wHelper|
    ensures BlockInt(BytesToBits(wHelper, 255 * |ints|), N, b) == ToInt(ToBits(ints[b], N))
  {
    PackedHelperStored(wHelper, ints);
    assert StoredAt(wHelper, ints, b);
    var bits := BytesToBits(wHelper, 255 * |ints|);
    assert Cut(bits, 255 * b, 255 * b + 255) == Block(Unpack(wHelper), b);
  }

  lemma IntOfBuilt(h: HelperData, ints: seq<nat>, b: nat)
    requires h.wHelper == Pack(Join(HelperBlocks(ints))) && h.n == N && b < h.blocks == |ints|
    ensures HelperInts(h)[b] == ToInt(ToBits(ints[b], N))
    ensures HelperInts(h)[b] == ints[b] <==> BitLength(ints[b]) <= N
  {
    IntOfPacked(h.wHelper, ints, b);
    IntRoundTrip(ToBits(ints[b], N));
    if BitLength(ints[b]) <= N {
      BitsRoundTrip(ints[b], N);
    }
  }

  /** helper_ints gives back what build was given exactly when that is four integers of
      at most 255 bits. */
  lemma IntsOfBuilt(h: HelperData, ints: seq<nat>)
    requires h.wHelper == Pack(Join(HelperBlocks(ints))) && h.n == N
    ensures HelperInts(h) == ints <==> |ints| == h.blocks && HelperFits(ints)
  {
    if |ints| == h.blocks {
      forall b | 0 <= b < |ints|
        ensures HelperInts(h)[b] == ints[b] <==> BitLength(ints[b]) <= N
      {
        IntOfBuilt(h, ints, b);
      }
    }
  }

  /** Both accessors undo build: on ascending cells and four integers of at most 255 bits,
      and on nothing else. */
  lemma BuildRoundTrip(mac: seq<byte>, regionAddr: nat, regionBits: nat, cells: seq<nat>, ints: seq<nat>)
    requires CellsBelow(cells, regionBits)
    ensures var h := Built(mac, regionAddr, regionBits, cells, ints);
            && (Cells(h) == cells <==> Ascending(cells))
            && (HelperInts(h) == ints <==> |ints| == 4 && HelperFits(ints))
  {
    var h := Built(mac, regionAddr, regionBits, cells, ints);
    CellsOfBuilt(h.mask, regionBits, cells);
    IntsOfBuilt(h, ints);
  }
}
