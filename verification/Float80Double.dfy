/** f80_to_double rounds correctly: 53 bits where binary64 is normal, fewer where it is not. */
module Float80Double {
  import opened NatArith
  import opened Powers
  import opened Rounding
  import opened Float80
  import opened Float80Rounding
  import opened Float80Subnormal
  import opened Float80Convert

  /** What a binary64 bit pattern that is no NaN denotes, infinity as the power of two that
      would come after the largest number. */
  ghost function Magnitude64(bits: u64): real {
    if Exponent64(bits) == 0 then Units(Fraction64(bits), -1074)
    else Units(P52 + Fraction64(bits), Exponent64(bits) as int - 1075)
  }

  /** The weight of the last place of binary64 at the magnitude of f. */
  function LastPlace(f: F80): int {
    if f.Exponent() < -1022 then -1074 else f.Exponent() - 52
  }

  function Dropped(f: F80): (k: nat)
    ensures LastPlace(f) == f.Exponent() - 63 + k && k >= 11
  {
    LastPlace(f) - f.Exponent() + 63
  }

  lemma Fields(sign: bool, exp: nat, fraction: nat)
    requires exp < 2048 && fraction < P52
    ensures var bits := (if sign then TOP else 0) + exp * P52 + fraction;
      bits < U64 && Sign64(bits) == sign && Exponent64(bits) == exp && Fraction64(bits) == fraction
  {
  }

  /** The magnitude, which is signif * 2^Exponent-63, is rounded once to a multiple of the last
      place of binary64, in the current mode; the carry out of 53 bits, the step from subnormal
      to normal and the step to infinity all land on the right pattern. */
  lemma ToDoubleRounds(mode: Mode, f: F80)
    requires f.Finite() && !f.IsZero() && f.Exponent() <= 1023
    ensures ToDouble(mode, f) < U64
    ensures var bits := ToDouble(mode, f);
      && Sign64(bits) == f.sign
      && Magnitude64(bits) == Units(RoundDiv(DirectionOf(mode, f.sign), f.signif, Pow2(Dropped(f))), LastPlace(f))
  {
    hide Pow2, Units, RoundDiv, ShiftRightRound;
    ShiftSignifFits(mode, f.signif, Dropped(f), f.sign);
    if f.Exponent() < -1022 {
      SubnormalCase(mode, f);
    } else {
      NormalCase(mode, f);
    }
  }

  lemma NormalRange(dir: Direction, signif: u64)
    requires signif >= TOP
    ensures P52 <= RoundDiv(dir, signif, Pow2(11)) <= P53
  {
    Pow2Of11();
    RoundDivBound(dir, signif, 0x800, P53);
  }

  lemma SubnormalRange(dir: Direction, signif: u64, k: nat)
    requires k >= 12
    ensures RoundDiv(dir, signif, Pow2(k)) <= P52
  {
    hide Pow2, RoundDiv;
    Pow2Of11();
    Pow2Strict(11, k);
    MulLe(0x1000, Pow2(k), P52);
    RoundDivBound(dir, signif, Pow2(k), P52);
  }

  lemma NormalCase(mode: Mode, f: F80)
    requires f.Finite() && !f.IsZero() && -1022 <= f.Exponent() <= 1023
    ensures ToDouble(mode, f) < U64
    ensures var bits := ToDouble(mode, f);
      && Sign64(bits) == f.sign
      && Magnitude64(bits) == Units(RoundDiv(DirectionOf(mode, f.sign), f.signif, Pow2(11)), f.Exponent() - 52)
  {
    hide Pow2, Units, RoundDiv, ShiftRightRound, Magnitude64, ToDouble;
    var r := RoundDiv(DirectionOf(mode, f.sign), f.signif, Pow2(11));
    ShiftSignifFits(mode, f.signif, 11, f.sign);
    NormalRange(DirectionOf(mode, f.sign), f.signif);
    NormalBits(mode, f);
    if r == P53 {
      Fields(f.sign, f.Exponent() + 1024, 0);
      Pattern(f.sign, f.Exponent() + 1024, 0);
      UnitsDouble(P52, f.Exponent() - 52);
    } else {
      Fields(f.sign, f.Exponent() + 1023, r - P52);
      Pattern(f.sign, f.Exponent() + 1023, r - P52);
    }
  }

  lemma NormalBits(mode: Mode, f: F80)
    requires f.Finite() && !f.IsZero() && -1022 <= f.Exponent() <= 1023
    requires P52 <= ShiftSignif(mode, f, 11) <= P53
    ensures var r := ShiftSignif(mode, f, 11);
      ToDouble(mode, f) == (if f.sign then TOP else 0)
        + (if r == P53 then (f.Exponent() + 1024) * P52 else (f.Exponent() + 1023) * P52 + (r - P52))
  {
    hide ShiftSignif;
  }

  lemma SubnormalCase(mode: Mode, f: F80)
    requires f.Finite() && !f.IsZero() && f.Exponent() < -1022
    ensures ToDouble(mode, f) < U64
    ensures var bits := ToDouble(mode, f);
      && Sign64(bits) == f.sign
      && Magnitude64(bits) == Units(RoundDiv(DirectionOf(mode, f.sign), f.signif, Pow2(Dropped(f))), -1074)
  {
    hide Pow2, Units, RoundDiv, ShiftRightRound, Magnitude64;
    var r := RoundDiv(DirectionOf(mode, f.sign), f.signif, Pow2(Dropped(f)));
    ShiftSignifFits(mode, f.signif, Dropped(f), f.sign);
    SubnormalRange(DirectionOf(mode, f.sign), f.signif, Dropped(f));
    assert Dropped(f) == 0 - f.Exponent() - 1011;
    if r == P52 {
      Fields(f.sign, 1, 0);
      Pattern(f.sign, 1, 0);
    } else {
      Fields(f.sign, 0, r);
      Pattern(f.sign, 0, r);
    }
  }

  lemma Pattern(sign: bool, exp: nat, fraction: nat)
    requires exp < 2048 && fraction < P52
    ensures (if sign then TOP else 0) + exp * P52 + fraction < U64
    ensures Magnitude64((if sign then TOP else 0) + exp * P52 + fraction)
      == if exp == 0 then Units(fraction, -1074) else Units(P52 + fraction, exp - 1075)
  {
    hide Units;
    Fields(sign, exp, fraction);
  }

  /** A number past the binary64 range becomes infinity, or the largest number when the mode
      rounds it toward zero; zeros and infinities keep their kind and their sign. */
  lemma ToDoubleEnds(mode: Mode, f: F80)
    requires f.Supported() && !f.IsNan() && (f.IsInf() || f.IsZero() || f.Exponent() > 1023)
    ensures ToDouble(mode, f) < U64
    ensures var bits := ToDouble(mode, f);
      && Sign64(bits) == f.sign
      && (f.IsZero() ==> Exponent64(bits) == 0 && Fraction64(bits) == 0)
      && (f.IsInf() ==> Exponent64(bits) == 0x7ff && Fraction64(bits) == 0)
      && (!f.IsZero() && !f.IsInf() ==>
            if DirectionOf(mode, f.sign) == TowardZero then Exponent64(bits) == 0x7fe && Fraction64(bits) == P52 - 1
            else Exponent64(bits) == 0x7ff && Fraction64(bits) == 0)
  {
    hide ShiftSignif;
    Fields(f.sign, 0, 0);
    Fields(f.sign, 0x7ff, 0);
    Fields(f.sign, 0x7fe, P52 - 1);
  }

  /** A NaN stays one, with the upper 52 bits of its payload unless they are all 0. */
  lemma ToDoubleNan(mode: Mode, f: F80)
    requires !f.Supported() || f.IsNan()
    ensures ToDouble(mode, f) < U64
    ensures var bits, payload := ToDouble(mode, f), f.signif % TOP / 0x800;
      if !f.Supported() then bits == 0x7ff8_0000_0000_0000
      else
        && Sign64(bits) == f.sign && Exponent64(bits) == 0x7ff
        && Fraction64(bits) == (if payload == 0 then 1 else payload) > 0
  {
    hide ShiftSignif;
    var payload := f.signif % TOP / 0x800;
    if f.Supported() {
      Fields(f.sign, 0x7ff, if payload == 0 then 1 else payload);
    }
  }

  /** An infinity or a NaN is widened as it is. */
  lemma FromDoubleSpecial(bits: u64)
    requires Exponent64(bits) == 0x7ff
    ensures FromDouble(bits) == F80(TOP + Fraction64(bits) * 0x800, 0x7fff, Sign64(bits))
    ensures if Fraction64(bits) == 0 then FromDouble(bits) == Infinity(Sign64(bits)) else FromDouble(bits).IsNan()
  {
  }
}
