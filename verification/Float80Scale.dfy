/** f80_scale, f80_scale_by_float and f80_xtract. */
module Float80Scale {
  import opened NatArith
  import opened Powers
  import opened Rounding
  import opened Float80
  import opened Float80Rounding
  import opened Float80Arithmetic
  import opened Float80Subnormal
  import opened Float80Convert

  const INT_MAX: int := 0x7fff_ffff
  const INT_MIN: int := -0x8000_0000

  type i32 = x: int | -0x8000_0000 <= x < 0x8000_0000

  /** f80_scale */
  function Scale(mode: Mode, x: F80, scale: i32): F80 {
    if !x.Supported() || x.IsNan() then NAN
    else if x.IsZero() || x.IsInf() then x
    else
      var scaled := x.Exponent() + scale;
      var normalized := scaled - Clz64(x.signif);
      if normalized > EMAX then Overflow(mode, x.sign)
      else if normalized < EMIN - 64 then F80(if RoundAway(mode, x.sign) then 1 else 0, 0, x.sign)
      else NormalizeRound(mode, x.signif * U64, scaled, x.sign)
  }

  function Clamp(i: i64, sign: bool): i32 {
    if i == INT64_MIN then (if sign then INT_MIN else INT_MAX)
    else if i > INT_MAX then INT_MAX
    else if i < INT_MIN then INT_MIN
    else i
  }

  /** f80_scale_by_float; the scale is converted toward zero whatever the mode. */
  function ScaleByFloat(mode: Mode, x: F80, scale: F80): F80 {
    if !x.Supported() || !scale.Supported() then NAN
    else if x.IsNan() then x
    else if scale.IsNan() then scale
    else if scale.IsInf() then
      if scale.sign then
        (if x.IsInf() then NAN else if x.IsZero() then x else Zero(x.sign))
      else if x.IsZero() then NAN
      else if x.IsInf() then x
      else Infinity(x.sign)
    else Scale(mode, x, Clamp(ToInt(Chop, scale), scale.sign))
  }

  datatype Extract = Extract(exponent: F80, significand: F80)

  /** f80_xtract; an exponent field of 0 with the integer bit set is let through. */
  function Xtract(f: F80): Extract {
    if !(f.exp == EXP_DENORMAL && f.signif >= TOP) && !f.Supported() then Extract(INDEFINITE, INDEFINITE)
    else if f.IsNan() then
      Extract(Quiet(f), Quiet(f))
    else if f.IsZero() then Extract(Infinity(true), f)
    else if f.IsInf() then Extract(Infinity(false), f)
    else
      var shift := Clz64(f.signif);
      Extract(FromInt(f.Exponent() - shift), F80(f.signif * Pow2(shift), BIAS, f.sign))
  }

  // ---- scaling ----

  lemma WideClz(m: u64)
    requires m > 0
    ensures 0 < m * U64 < U128 && Clz128(m * U64) == Clz64(m)
  {
    DivUnique(m * U64, U64, m, 0);
  }

  /** Both early exits of f80_scale return what u128_normalize_round would. */
  lemma ScaleIsNormalizeRound(mode: Mode, x: F80, scale: i32)
    requires x.Finite() && !x.IsZero()
    ensures x.signif * U64 < U128
    ensures Scale(mode, x, scale) == NormalizeRound(mode, x.signif * U64, x.Exponent() + scale, x.sign)
  {
    hide Clz64, Clz128, Pow2, ShiftRightRound;
    WideClz(x.signif);
    var scaled := x.Exponent() + scale;
    if scaled - Clz64(x.signif) < EMIN - 64 {
      TinyResult(mode, x.signif * U64, scaled, x.sign);
    }
  }

  /** Below half of the least subnormal only a mode that rounds away leaves anything. */
  lemma TinyResult(mode: Mode, s: u128, exp: int, sign: bool)
    requires s >= U64 && exp - Clz128(s) < EMIN - 64
    ensures NormalizeRound(mode, s, exp, sign) == F80(if RoundAway(mode, sign) then 1 else 0, 0, sign)
  {
    hide Pow2, ShiftRightRound, Clz64;
    var dir, k := DirectionOf(mode, sign), EMIN - exp;
    Pow2Of64();
    ShiftRightRoundExact(mode, s, k, sign);
    TinyOnce(dir, s, Clz128(s), k);
    if k == 128 {
      Pow2Of128();
    }
    var once := Subnormal(mode, s, exp, sign);
    ShiftRightRoundExact(mode, once, 64, sign);
    hide Clz128;
    LostShift(mode, s, sign);
    DivUnique(once, U64, 0, once);
  }

  lemma LostShift(mode: Mode, s: u128, sign: bool)
    ensures mode == Nearest ==> ShiftRightRound(mode, s, 128, sign) == 0
  {
  }

  lemma TinyOnce(dir: Direction, s: nat, shift: nat, k: nat)
    requires shift <= 63 && k + shift >= 65 && 0 < s && s * Pow2(shift) < U128
    ensures RoundDiv(dir, s, Pow2(k)) <= TOP
    ensures dir == AwayFromZero ==> RoundDiv(dir, s, Pow2(k)) > 0
  {
    hide Pow2;
    Pow2Of64();
    Pow2Of128();
    Pow2Add(63, k);
    Pow2Add(63 + k, shift);
    Pow2Monotone(128, 63 + k + shift);
    MulCancel(s, TOP * Pow2(k), Pow2(shift));
    RoundDivBound(dir, s, Pow2(k), TOP);
    DivDef(s, Pow2(k));
    if s / Pow2(k) == 0 {
      MulAssoc(0, Pow2(k), 1);
      assert s % Pow2(k) == s;
    }
  }

  /** Scaling by a whole power of two, clamped as the program clamps it, is correctly
      rounded exactly when the scaled magnitude does not slip. */
  lemma ScaleExactly(mode: Mode, x: F80, scale: i32)
    requires x.Finite() && !x.IsZero()
    ensures 0 <= x.signif * U64 < U128
    ensures Units(x.signif, x.Exponent() - 63 + scale) == x.Magnitude() * P2(scale)
    ensures Delivers(mode, x.sign, Number(x.Magnitude() * P2(scale)), Scale(mode, x, scale))
            <==> !Slips(mode, x.signif * U64, x.Exponent() + scale, x.sign)
  {
    var s, w := x.signif, x.Exponent() + scale - 127;
    ScaledUnits(s, x.Exponent() - 63, scale);
    hide Units, P2, Delivers, Slips, Scale, NormalizeRound;
    Pow2Of64();
    UnitsRescale(s, 64, w);
    ScaleIsNormalizeRound(mode, x, scale);
    NormalizeRoundExactly(mode, s * U64, x.Exponent() + scale, x.sign);
  }

  lemma ScaledUnits(m: int, q: int, n: int)
    ensures Units(m, q + n) == Units(m, q) * P2(n)
  {
    hide P2, Units;
    P2Add(q, n);
    UnitsIs(m, q + n);
    UnitsIs(m, q);
    RealAssoc(m as real, P2(q), P2(n));
  }

  lemma RealAssoc(x: real, y: real, z: real)
    ensures x * (y * z) == x * y * z
  {
  }

  /** n is the whole number v truncates to. */
  ghost predicate Truncates(v: real, n: int) {
    if v >= 0.0 then n as real <= v < (n + 1) as real else (n - 1) as real < v <= n as real
  }

  function Saturated(n: int): i32 {
    if n > INT_MAX then INT_MAX else if n < INT_MIN then INT_MIN else n
  }

  /** No scale outside 32 bits does anything that the saturated one does not. */
  lemma ScaleSaturates(mode: Mode, x: F80, n: int)
    requires x.Finite() && !x.IsZero()
    ensures x.signif * U64 < U128
    ensures Scale(mode, x, Saturated(n)) == NormalizeRound(mode, x.signif * U64, x.Exponent() + n, x.sign)
    ensures n > INT_MAX ==> Scale(mode, x, Saturated(n)) == Overflow(mode, x.sign)
    ensures n < INT_MIN ==> Scale(mode, x, Saturated(n)) == F80(if RoundAway(mode, x.sign) then 1 else 0, 0, x.sign)
  {
    hide Clz64, Clz128, Pow2, ShiftRightRound;
    WideClz(x.signif);
    ScaleIsNormalizeRound(mode, x, Saturated(n));
    if n < INT_MIN {
      TinyResult(mode, x.signif * U64, x.Exponent() + n, x.sign);
    }
  }

  lemma ClampSaturates(scale: F80, n: int)
    requires scale.Finite() && Truncates(scale.Value(), n)
    ensures Clamp(ToInt(Chop, scale), scale.sign) == Saturated(n)
  {
    hide Units, ToInt;
    var m := ToIntRounds(Chop, scale);
    UnitsOrder(0, scale.signif, scale.Exponent() - 63);
    UnitsOrder(0, 0, scale.Exponent() - 63);
  }

  /** f80_scale_by_float scales by the scale cut to a whole number, in every rounding mode, and
      is correctly rounded exactly when the scaled magnitude does not slip, however large the
      scale: the scales it saturates overflow or leave at most the least subnormal. */
  lemma ScaleByFloatExactly(mode: Mode, x: F80, scale: F80, n: int)
    requires x.Finite() && !x.IsZero() && scale.Finite() && Truncates(scale.Value(), n)
    ensures 0 <= x.signif * U64 < U128
    ensures Delivers(mode, x.sign, Number(x.Magnitude() * P2(n)), ScaleByFloat(mode, x, scale))
            <==> !Slips(mode, x.signif * U64, x.Exponent() + n, x.sign)
    ensures var f, dir := ScaleByFloat(mode, x, scale), DirectionOf(mode, x.sign);
      && (n > INT_MAX ==> f == if dir == TowardZero then F80(U64 - 1, EXP_MAX, x.sign) else Infinity(x.sign))
      && (n < INT_MIN ==> f == F80(if dir == AwayFromZero then 1 else 0, 0, x.sign))
  {
    hide Units, P2, Delivers, Slips, Scale, NormalizeRound, ToInt, Clamp, Saturated, Truncates;
    ClampSaturates(scale, n);
    ScaleSaturates(mode, x, n);
    ScaledUnits(x.signif, x.Exponent() - 63, n);
    Pow2Of64();
    UnitsRescale(x.signif, 64, x.Exponent() + n - 127);
    assert Units(x.signif * U64, x.Exponent() + n - 127) == x.Magnitude() * P2(n);
    NormalizeRoundExactly(mode, x.signif * U64, x.Exponent() + n, x.sign);
  }

  lemma ScaleSpecial(mode: Mode, x: F80, scale: i32)
    ensures !x.Supported() || x.IsNan() ==> Scale(mode, x, scale) == NAN
    ensures x.IsZero() || x == Infinity(x.sign) ==> Scale(mode, x, scale) == x
  {
  }

  /** Operands that are not finite, and zero. The first operand's NaN goes before the scale's,
      and neither is made quiet. */
  lemma ScaleByFloatSpecial(mode: Mode, x: F80, scale: F80)
    ensures var f := ScaleByFloat(mode, x, scale);
      && (!x.Supported() || !scale.Supported() ==> f == NAN)
      && (x.Supported() && scale.Supported() && (x.IsNan() || scale.IsNan()) ==> f == if x.IsNan() then x else scale)
      && (x.Supported() && !x.IsNan() && scale == Infinity(true) ==>
            f == if x.IsInf() then NAN else Zero(x.sign))
      && (x.Supported() && !x.IsNan() && scale == Infinity(false) ==>
            f == if x.IsZero() then NAN else Infinity(x.sign))
      && (x.Supported() && (x.IsZero() || x.IsInf()) && scale.Finite() ==> f == x)
  {
  }

  // ---- extraction ----

  /** The extracted exponent is a whole number, the significand is in [1, 2), and
      together they denote the operand. */
  lemma XtractMeaning(x: F80)
    requires x.exp != EXP_SPECIAL && (x.exp == EXP_DENORMAL || x.Supported()) && !x.IsZero()
    ensures var e := x.Exponent() - Clz64(x.signif);
      && Xtract(x).exponent == FromInt(e)
      && Xtract(x).significand.Finite() && Xtract(x).significand.exp as int == BIAS
      && Xtract(x).significand.sign == x.sign
      && x.Magnitude() == Units(Xtract(x).significand.signif, e - 63)
  {
    hide Units, Clz64, FromInt;
    var shift := Clz64(x.signif);
    UnitsRescale(x.signif, shift, x.Exponent() - shift - 63);
  }

  /** Zeros, infinities, NaNs and unsupported encodings; a NaN is made quiet and otherwise kept. */
  lemma XtractSpecial(f: F80)
    ensures !f.Supported() && !(f.exp == EXP_DENORMAL && f.signif >= TOP) ==>
              Xtract(f) == Extract(F80(0xc000_0000_0000_0000, 0x7fff, true), F80(0xc000_0000_0000_0000, 0x7fff, true))
    ensures f.IsZero() ==> Xtract(f) == Extract(F80(TOP, 0x7fff, true), f)
    ensures f == Infinity(f.sign) ==> Xtract(f) == Extract(F80(TOP, 0x7fff, false), f)
    ensures f.Supported() && f.IsNan() ==> Xtract(f) == Extract(Quiet(f), Quiet(f))
  {
  }

  /** An exact significand of full width, packed with any exponent of the format. */
  lemma PackExactly(mode: Mode, signif: u64, e: int, sign: bool, x: F80)
    requires x.exp != EXP_SPECIAL && x.signif > 0 && x.sign == sign
    requires e == x.Exponent() - Clz64(x.signif) && signif == x.signif * Pow2(Clz64(x.signif))
    requires x.Supported()
    ensures signif * U64 < U128 && NormalizeRound(mode, signif * U64, e, sign) == x
  {
    hide Pow2, ShiftRightRound, Clz64, Clz128;
    var shift := Clz64(x.signif);
    SupportedShift(x);
    Pow2Zero();
    FullWidth(signif * U64);
    FullShift(mode, signif, sign);
    FullShift(mode, x.signif, sign);
    if e < EMIN {
      Pow2Of64();
      MulSwap(x.signif, Pow2(shift), U64);
      ShiftRightRoundExact(mode, signif * U64, shift, sign);
      DivUnique(signif * U64, Pow2(shift), x.signif * U64, 0);
      if shift == 128 {
        assert false;
      }
    }
  }

  lemma SupportedShift(x: F80)
    requires x.exp != EXP_SPECIAL && x.signif > 0 && x.Supported()
    ensures x.exp != EXP_DENORMAL ==> Clz64(x.signif) == 0 && x.signif * Pow2(0) == x.signif
    ensures x.exp == EXP_DENORMAL ==> Clz64(x.signif) >= 1
  {
    hide Pow2;
    Pow2Zero();
    var n := Clz64(x.signif);
    MulAssoc(x.signif, 1, 1);
    if n > 0 {
      Pow2Monotone(1, n);
      MulLe(2, Pow2(n), x.signif);
      MulAssoc(Pow2(n), x.signif, 1);
    }
  }

  lemma FullShift(mode: Mode, m: u64, sign: bool)
    ensures m * U64 < U128 && ShiftRightRound(mode, m * U64, 64, sign) == m
  {
    hide Pow2, ShiftRightRound;
    Pow2Of64();
    ShiftRightRoundExact(mode, m * U64, 64, sign);
    DivUnique(m * U64, U64, m, 0);
  }

  /** f80_xtract followed by f80_scale_by_float rebuilds every finite number bit
      for bit, subnormals included, in every rounding mode. */
  lemma XtractScaleRoundTrip(mode: Mode, x: F80)
    requires x.Finite() && !x.IsZero()
    ensures ScaleByFloat(mode, Xtract(x).significand, Xtract(x).exponent) == x
  {
    hide Pow2, FromInt, ToInt, NormalizeRound, Clz64, Units;
    var e := x.Exponent() - Clz64(x.signif);
    var s := Xtract(x).significand;
    XtractMeaning(x);
    FromIntExact(e);
    IntRoundTrip(Chop, e);
    ScaleIsNormalizeRound(mode, s, e);
    PackExactly(mode, s.signif, e, x.sign, x);
  }
}
