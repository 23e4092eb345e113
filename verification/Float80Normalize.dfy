/** f80_normalize. */
module Float80Normalize {
  import opened NatArith
  import opened Powers
  import opened Rounding
  import opened Float80

  /** f80_normalize; the preconditions are its assertion, and that it does not shift a word
      by its width, as it would shift a zero significand from exponent field 65 on. */
  function Normalize(f: F80): (r: F80)
    requires f.exp == EXP_DENORMAL || f.exp == EXP_SPECIAL ==> f.Supported()
    requires f.exp < 65 || f.signif > 0
    ensures r.Supported() && r.sign == f.sign
    ensures r.Magnitude() == f.Magnitude()
    ensures f.exp != EXP_SPECIAL ==> r.Finite()
    ensures f.Supported() ==> r == f
  {
    if f.exp == EXP_DENORMAL then f
    else if f.signif == 0 then
      ZeroMagnitude(f);
      Zero(f.sign)
    else Shifted(f)
  }

  /** Shifted left until the integer bit is set, or the exponent field would fall to 0. */
  function Shifted(f: F80): (r: F80)
    requires f.exp == EXP_SPECIAL ==> f.Supported()
    requires f.exp != EXP_DENORMAL && f.signif > 0
    ensures r.Supported() && r.sign == f.sign
    ensures r.Magnitude() == f.Magnitude()
    ensures f.exp != EXP_SPECIAL ==> r.Finite()
    ensures f.Supported() ==> r == f
  {
    var shift := Clz64(f.signif);
    NormalizeMeaning(f, shift);
    if f.exp - shift < EXP_MIN then F80(f.signif * Pow2(f.exp - 1), 0, f.sign)
    else F80(f.signif * Pow2(shift), f.exp - shift, f.sign)
  }

  lemma ZeroMagnitude(f: F80)
    requires f.signif == 0
    ensures f.Magnitude() == 0.0 && Zero(f.sign).Magnitude() == 0.0
  {
    hide Units;
    UnitsOrder(0, 0, f.Exponent() - 63);
    UnitsOrder(0, 0, EMIN - 63);
  }

  lemma NormalizeMeaning(f: F80, shift: nat)
    requires f.exp != EXP_DENORMAL && f.signif > 0
    requires TOP <= f.signif * Pow2(shift) < U64
    ensures f.signif * Pow2(0) == f.signif
    ensures f.signif >= TOP ==> shift == 0
    ensures Units(f.signif, f.exp - BIAS - 63) == Units(f.signif * Pow2(shift), f.exp - shift - BIAS - 63)
    ensures f.exp - shift < EXP_MIN ==>
              && 0 <= f.signif * Pow2(f.exp - 1) < TOP
              && Units(f.signif, f.exp - BIAS - 63) == Units(f.signif * Pow2(f.exp - 1), EMIN - 63)
  {
    Pow2Zero();
    hide Pow2, Units;
    UnitsRescale(f.signif, shift, f.exp - shift - BIAS - 63);
    UnitsRescale(f.signif, f.exp - 1, EMIN - 63);
    if shift > 0 {
      Pow2Monotone(1, shift);
      MulLe(2, Pow2(shift), f.signif);
      MulAssoc(Pow2(shift), f.signif, 1);
    }
    if f.exp - shift < EXP_MIN {
      Pow2Strict(f.exp - 1, shift);
      HalfOrLess(f.signif, Pow2(f.exp - 1), Pow2(shift));
    }
  }

  lemma HalfOrLess(m: nat, p: nat, r: nat)
    requires 2 * p <= r && m * r < U64
    ensures 0 <= m * p < TOP
  {
    MulLe(2 * p, r, m);
    MulAssoc(2, p, m);
    MulAssoc(p, m, 1);
    MulAssoc(r, m, 1);
    MulLe(0, m, p);
  }
}
