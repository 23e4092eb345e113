/** fpu_prem and fpu_compare of emu/fpu.c, clients of the soft float. */
module Fpu {
  import opened Rounding
  import opened Float80
  import opened Float80Arithmetic
  import opened Float80Compare
  import opened Float80Mod

  class Cpu {
    var fp: array<F80>
    var top: nat
    var c0: bool
    var c1: bool
    var c2: bool
    var c3: bool
    var mode: Mode

    ghost predicate Valid()
      reads this
    {
      fp.Length == 8 && top < 8
    }

    /** ST(i) */
    function St(i: nat): F80
      requires Valid()
      reads this, fp
    {
      fp[(top + i) % 8]
    }

    /** FPREM: the exact remainder replaces ST(0), and the low three bits of the
        truncated quotient are left in C0, C3 and C1, in that order. */
    method Prem()
      requires Valid()
      modifies this`c0, this`c1, this`c2, this`c3, fp
      ensures Valid() && !c2
      ensures forall i :: 0 < i < 8 ==> St(i) == old(St(i))
      ensures old(St(0)).Finite() && old(St(1)).Finite() && !old(St(1)).IsZero() ==>
                exists q: nat ::
                  && IsRemainder(old(St(0)), old(St(1)), q, St(0))
                  && q % 8 == (if c0 then 4 else 0) + (if c3 then 2 else 0) + (if c1 then 1 else 0)
      ensures Uncomparable(old(St(0)), old(St(1))) || old(St(0)).IsInf() || old(St(1)).IsZero() ==>
                St(0) == (if Uncomparable(old(St(0)), old(St(1))) then NanResult(old(St(0)), old(St(1))) else NAN)
                    && c0 == old(c0) && c1 == old(c1) && c3 == old(c3)
      ensures old(St(0)).Finite() && old(St(1)).Supported() && old(St(1)).IsInf() ==>
          St(0) == old(St(0)) && !c0 && !c1 && !c3
    {
      hide IsRemainder;
      var x, y := St(0), St(1);
      var result := Mod(x, y);
      fp[top % 8] := result.value;
      c2 := false;
      if result.quotientValid {
        c0 := result.quotientLow / 4 % 2 == 1;
        c3 := result.quotientLow / 2 % 2 == 1;
        c1 := result.quotientLow % 2 == 1;
        if x.Finite() && y.Finite() {
          ghost var q: nat :| IsRemainder(x, y, q, result.value) && result.quotientLow == q % 8;
          assert St(0) == result.value;
          assert q % 8 == (if c0 then 4 else 0) + (if c3 then 2 else 0) + (if c1 then 1 else 0);
        }
      }
    }

    /** FCOM: the order of what ST(0) and x denote, whatever the rounding mode. */
    method Compare(x: F80)
      requires Valid()
      modifies this`c0, this`c1, this`c2, this`c3
      ensures !c1
      ensures Uncomparable(St(0), x) ==> c0 && c2 && c3
      ensures !Uncomparable(St(0), x) ==> !c2 && (c0 <==> Less(St(0), x)) && (c3 <==> Same(St(0), x))
    {
      c2, c1 := false, false;
      c0 := Lt(mode, St(0), x);
      c3 := Eq(St(0), x);
      if Uncomparable(St(0), x) {
        c0, c2, c3 := true, true, true;
      } else {
        LtIsLess(mode, St(0), x);
        EqIsSame(St(0), x);
      }
    }
  }
}
