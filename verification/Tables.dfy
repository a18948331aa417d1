/**
  The antilog and log tables both programs fill with the same loop, and the field
  operations that read them.
 */
module Tables {
  import opened Bits
  import opened Gf

  class GfTables {
    const EXP: array<byte>
    const LOG: array<byte>

    /** Two zeroed tables, not yet filled. */
    constructor ()
      ensures fresh(EXP) && fresh(LOG) && Shaped()
    {
      EXP := new byte[510](_ => 0);
      LOG := new byte[256](_ => 0);
    }

    predicate Shaped() {
      EXP != LOG && EXP.Length == 510 && LOG.Length == 256
    }

    /** The tables hold the powers of alpha and their logarithms. */
    ghost predicate Ready()
      reads EXP, LOG
    {
      && Shaped()
      && (forall i {:trigger EXP[i]} | 0 <= i < 510 :: EXP[i] == Exp(i))
      && (forall v {:trigger LOG[v]} | 1 <= v < 256 :: LOG[v] == Log(v))
    }

    /** fuzzy_init: one pass along the powers of alpha, then the doubled half. */
    method Init()
      requires Shaped()
      modifies EXP, LOG
      ensures Ready()
    {
      var v: nat := 1;
      for i := 0 to 255
        invariant v == Exp(i)
        invariant forall k | 0 <= k < i :: EXP[k] == Exp(k) && LOG[Exp(k)] == k
      {
        EXP[i] := v;
        LOG[v] := i;
        forall k | 0 <= k < i
          ensures Exp(k) != Exp(i)
        {
          if Exp(k) == Exp(i) {
            ExpInjective(k, i);
          }
        }
        IterNext(i, 1);
        v := 2 * v;
        if v >= 256 {
          v := Xor(v, PRIM_POLY);
        }
      }
      for i := 255 to 510
        invariant forall k | 0 <= k < i :: EXP[k] == Exp(k)
        invariant forall k | 0 <= k < 255 :: LOG[Exp(k)] == k
      {
        EXP[i] := EXP[i - 255];
        ExpPeriod(1, i - 255);
      }
      forall w | 1 <= w < 256
        ensures LOG[w] == Log(w)
      {
        assert LOG[Exp(Log(w))] == Log(w);
      }
    }

    /** EXP[(i * j) % 255]: (alpha^i)^j */
    method PowerAt(i: nat, j: nat) returns (x: byte)
      requires Ready()
      ensures x == Power(Exp(i), j)
    {
      var n: nat := i * j;
      PowerFromTable(i, j, n);
      x := EXP[n % 255];
    }

    /** gf_mul */
    function GfMul(a: byte, b: byte): (r: byte)
      requires Ready()
      reads EXP, LOG
      ensures r == Mul(a, b)
    {
      if a == 0 || b == 0 then 0
      else
        assert LOG[a] == Log(a) && LOG[b] == Log(b);
        EXP[(LOG[a] as int) + LOG[b]]
    }

    /** gf_div; the caller never divides by zero. */
    function GfDiv(a: byte, b: byte): (r: byte)
      requires Ready() && b != 0
      reads EXP, LOG
      ensures r == Div(a, b)
    {
      if a == 0 then 0
      else
        assert LOG[a] == Log(a) && LOG[b] == Log(b);
        EXP[(LOG[a] as int + 255 - LOG[b]) % 255]
    }

    /** gf_div of the reference program, on a remainder that is never negative. */
    function PyDiv(a: byte, b: byte): (r: byte)
      requires Ready() && b != 0
      reads EXP, LOG
      ensures r == Div(a, b)
    {
      if a == 0 then 0
      else
        assert LOG[a] == Log(a) && LOG[b] == Log(b);
        EXP[(LOG[a] as int - LOG[b]) % 255]
    }
  }
}
