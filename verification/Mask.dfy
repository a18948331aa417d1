/**
  Selection of the stable cells: those with the same value in every training dump. The
  first 1020 of them, in address order, and their values are the enrolled response.
 */
module Mask {
  import opened Bits
  import opened Bch
  import opened Packing
  import opened Response
  import opened HelperFormat

  const N_CELLS: nat := 1020

  /** Dumps of one size, at least one of them, as bit lists. */
  ghost predicate Training(train: seq<Word>) {
    |train| > 0 && forall d | d in train :: |d| == |train[0]|
  }

  /** Every training dump has the value v in cell i. */
  predicate Constant(train: seq<Word>, i: nat, v: bool)
    requires forall d | d in train :: i < |d|
  {
    forall d | d in train :: d[i] == v
  }

  function StableMap(train: seq<Word>): (m: Word)
    requires Training(train)
    ensures |m| == |train[0]| && forall i | 0 <= i < |m| :: m[i] == Constant(train, i, train[0][i])
  {
    seq(|train[0]|, i requires 0 <= i < |train[0]| => Constant(train, i, train[0][i]))
  }

  /** [bits[i] for i in cells] */
  function Pick(bits: Word, cells: seq<nat>): (w: Word)
    requires forall j | 0 <= j < |cells| :: cells[j] < |bits|
    ensures |w| == |cells| && forall j | 0 <= j < |cells| :: w[j] == bits[cells[j]]
  {
    seq(|cells|, j requires 0 <= j < |cells| => bits[cells[j]])
  }

  datatype MaskResult = Chosen(cells: seq<nat>, golden: Word, stable: nat) | TooFewStable(stable: nat)

  /** build_mask; its ValueError is the second outcome. */
  function BuildMask(train: seq<Word>): MaskResult
    requires Training(train)
  {
    var stable := Support(StableMap(train));
    if |stable| < N_CELLS then TooFewStable(|stable|)
    else
      var cells := stable[..N_CELLS];
      assert forall j | 0 <= j < N_CELLS :: cells[j] == stable[j];
      Chosen(cells, Pick(train[0], cells), |stable|)
  }

  /** Cell i never changes over the training dumps. */
  ghost predicate Stable(train: seq<Word>, i: nat)
    requires Training(train)
  {
    i < |train[0]| && forall d, e | d in train && e in train :: d[i] == e[i]
  }

  lemma StableIsConstant(train: seq<Word>, i: nat)
    requires Training(train) && i < |train[0]|
    ensures StableMap(train)[i] <==> Stable(train, i)
  {
    assert train[0] in train;
  }

  /** The chosen cells ascend, are stable, and no stable cell before the last is skipped. */
  lemma MaskCells(train: seq<Word>)
    requires Training(train) && BuildMask(train).Chosen?
    ensures var cells := BuildMask(train).cells;
            && |cells| == N_CELLS && Ascending(cells) && CellsBelow(cells, |train[0]|)
            && (forall i: nat | i <= cells[N_CELLS - 1] :: i in cells <==> Stable(train, i))
  {
    var m := StableMap(train);
    var stable := Support(m);
    var cells := BuildMask(train).cells;
    PositionsSpec(m, |m|);
    forall i: nat | i <= cells[N_CELLS - 1]
      ensures i in cells <==> Stable(train, i)
    {
      StableIsConstant(train, i);
      PrefixMember(stable, N_CELLS, i);
    }
  }

  lemma PrefixMember(s: seq<nat>, n: nat, x: nat)
    requires Ascending(s) && 0 < n <= |s| && x <= s[n - 1]
    ensures x in s[..n] <==> x in s
  {
    if x in s {
      var j :| 0 <= j < |s| && s[j] == x;
      assert s[..n][j] == x;
    }
  }

  /** Every training dump reads the golden response in the chosen cells. */
  lemma TrainingReadsGolden(train: seq<Word>, d: Word)
    requires Training(train) && BuildMask(train).Chosen? && d in train
    ensures |d| == |train[0]| && CellsBelow(BuildMask(train).cells, |d|)
    ensures Pick(d, BuildMask(train).cells) == BuildMask(train).golden
  {
    var cells := BuildMask(train).cells;
    MaskCells(train);
    forall j | 0 <= j < |cells|
      ensures d[cells[j]] == train[0][cells[j]]
    {
      assert cells[j] in cells;
      assert cells[j] <= cells[N_CELLS - 1];
      assert Stable(train, cells[j]);
      assert train[0] in train;
    }
  }

  /** build_mask reports the number of stable cells, and fails exactly when there are
      fewer than 1020. */
  lemma StableCount(train: seq<Word>)
    requires Training(train)
    ensures var s := set i: nat | i < |train[0]| && Stable(train, i);
            BuildMask(train).stable == |s| && (BuildMask(train).TooFewStable? <==> |s| < N_CELLS)
  {
    var m := StableMap(train);
    PositionsSpec(m, |m|);
    var s := set i: nat | i < |train[0]| && Stable(train, i);
    forall i: nat
      ensures i in s <==> i in Support(m)
    {
      if i < |m| {
        StableIsConstant(train, i);
      }
    }
    SetOfList(Support(m), s);
  }

  lemma {:induction false} SetOfList(a: seq<nat>, s: set<nat>)
    requires Ascending(a) && forall x :: x in s <==> x in a
    ensures |s| == |a|
  {
    if a == [] {
      assert s == {};
    } else {
      var m := |a| - 1;
      forall z: nat
        ensures z in s - {a[m]} <==> z in a[..m]
      {
        LastRemoved(a, z);
      }
      SetOfList(a[..m], s - {a[m]});
    }
  }

  /** The cells puf_extract copies are the mask's positions, in order. */
  lemma SelectIsPick(m: Word, s: Word)
    requires |m| <= |s|
    ensures Select(m, s, |m|) == Pick(s, Support(m))
  {
    SelectIsRank(m, s, |m|);
  }

  /** When the mask has enough ones, the buffer puf_extract fills is the packed form of
      the picked bits, cut to nBits. */
  lemma ExtractedIsPacked(snapshot: seq<byte>, mask: seq<byte>, out: seq<byte>, nBits: nat)
    requires |mask| <= |snapshot| && |out| == PackedSize(nBits)
    requires var sel := Select(Unpack(mask), Unpack(snapshot), 8 * |mask|);
             |sel| >= nBits && Unpack(out) == Padded(Taken(sel, nBits), 8 * |out|)
    ensures var cells := Support(Unpack(mask));
            |cells| >= nBits && out == Pack(Pick(Unpack(snapshot), cells)[..nBits])
  {
    SelectIsRank(Unpack(mask), Unpack(snapshot), 8 * |mask|);
    SelectIsPick(Unpack(mask), Unpack(snapshot));
    var bits := Pick(Unpack(snapshot), Support(Unpack(mask)))[..nBits];
    PackedUnique(out, Pack(bits), bits);
  }
}
