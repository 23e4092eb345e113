/** Conversions between 80-bit floats, 64-bit integers and binary64 bit patterns. */
module Float80Convert {
  import opened NatArith
  import opened Powers
  import opened Rounding
  import opened Float80
  import opened Float80Rounding
  import opened Float80Normalize

  const INT64_MIN: int := -0x8000_0000_0000_0000
  const BIAS_63: int := 16446                      // bias(63)

  function Abs(i: int): nat {
    if i < 0 then -i else i
  }

  /** f80_from_int */
  function FromInt(i: i64): F80 {
    Normalize(F80(Abs(i), if i == 0 then 0 else BIAS_63, i < 0))
  }

  /** f80_shift_right, on the significand. */
  function ShiftSignif(mode: Mode, f: F80, shift: nat): (r: u64) {
    ShiftSignifFits(mode, f.signif, shift, f.sign);
    ShiftRightRound(mode, f.signif, shift, f.sign)
  }

  lemma ShiftSignifFits(mode: Mode, x: u64, shift: nat, sign: bool)
    ensures ShiftRightRound(mode, x, shift, sign) < U64
    ensures ShiftRightRound(mode, x, shift, sign) == RoundDiv(DirectionOf(mode, sign), x, Pow2(shift))
  {
    ShiftRightRoundExact(mode, x, shift, sign);
    DivDef(x, Pow2(shift));
    if shift > 0 {
      Pow2Monotone(1, shift);
      MulLe(2, Pow2(shift), x / Pow2(shift));
    } else {
      DivUnique(x, 1, x, 0);
    }
  }

  /** f80_to_int */
  function ToInt(mode: Mode, f: F80): i64 {
    if !f.Supported() then INT64_MIN
    else if f.exp > BIAS_63 then INT64_MIN
    else
      var n := ShiftSignif(mode, f, BIAS_63 - f.exp);
      if !f.sign then (if n < TOP then n else INT64_MIN)
      else if n >= TOP then INT64_MIN
      else 0 - n
  }

  lemma IntEncoding(i: i64)
    requires i != 0
    ensures FromInt(i) == F80(Abs(i) * Pow2(Clz64(Abs(i))), BIAS_63 - Clz64(Abs(i)), i < 0)
  {
    hide Pow2;
  }

  /** Integers convert to the number they are, without rounding. */
  lemma FromIntExact(i: i64)
    ensures FromInt(i).Finite() && FromInt(i).Value() == i as real
  {
    hide Units;
    UnitsOrder(0, 0, EMIN - 63);
    UnitsWhole(Abs(i));
  }

  lemma UnitsWhole(m: int)
    ensures Units(m, 0) == m as real
  {
  }

  /** Converting an integer and back returns it, in every rounding mode. */
  lemma IntRoundTrip(mode: Mode, i: i64)
    ensures ToInt(mode, FromInt(i)) == i
  {
    hide Pow2, ShiftRightRound, Clz64, FromInt;
    if i == 0 {
      ZeroEncoding();
      ShiftSignifFits(mode, 0, BIAS_63, false);
      DivUnique(0, Pow2(BIAS_63), 0, 0);
    } else {
      IntEncoding(i);
      var shift := Clz64(Abs(i));
      ShiftSignifFits(mode, Abs(i) * Pow2(shift), shift, i < 0);
      DivUnique(Abs(i) * Pow2(shift), Pow2(shift), Abs(i), 0);
    }
  }

  lemma ZeroEncoding()
    ensures FromInt(0) == Zero(false)
  {
  }

  /** n is the number x rounded to a whole number in the current mode. */
  ghost predicate RoundedTo(mode: Mode, x: real, n: int) {
    match mode
    case Down => n as real <= x < (n + 1) as real
    case Up => (n - 1) as real < x <= n as real
    case Chop => if x >= 0.0 then n as real <= x < (n + 1) as real else (n - 1) as real < x <= n as real
    case Nearest =>
      && -0.5 <= x - n as real <= 0.5
      && (x - n as real == 0.5 || x - n as real == -0.5 ==> n % 2 == 0)
  }

  lemma MagnitudeRounded(dir: Direction, x: u64, shift: nat)
    ensures var n, m := RoundDiv(dir, x, Pow2(shift)), Units(x, 0 - shift);
      && 0.0 <= m
      && (dir == TowardZero ==> n as real <= m < (n + 1) as real)
      && (dir == AwayFromZero ==> (n - 1) as real < m <= n as real)
      && (dir == ToEven ==> -0.5 <= m - n as real <= 0.5)
      && (dir == ToEven && (m - n as real == 0.5 || m - n as real == -0.5) ==> n % 2 == 0)
  {
    hide Pow2, Units;
    UnitsOrder(0, x, 0 - shift);
    if dir == ToEven {
      hide RoundDiv;
      MagnitudeNearest(x, shift);
    } else {
      MagnitudeDirected(dir, x, shift);
    }
  }

  lemma MagnitudeDirected(dir: Direction, x: u64, shift: nat)
    requires dir != ToEven
    ensures var n, m := RoundDiv(dir, x, Pow2(shift)), Units(x, 0 - shift);
      if dir == TowardZero then n as real <= m < (n + 1) as real else (n - 1) as real < m <= n as real
  {
    hide Pow2, Units;
    var d := Pow2(shift);
    var n: int := RoundDiv(dir, x, d);
    DivDef(x, d);
    Distribute(x / d, d);
    Distribute(x / d + 1, d);
    WholeMagnitude(n, shift);
    WholeMagnitude(n + 1, shift);
    WholeMagnitude(n - 1, shift);
    UnitsOrder(n * d, x, 0 - shift);
    UnitsOrder((n + 1) * d, x, 0 - shift);
    UnitsOrder((n - 1) * d, x, 0 - shift);
  }

  lemma MagnitudeNearest(x: u64, shift: nat)
    ensures var n, m := RoundDiv(ToEven, x, Pow2(shift)), Units(x, 0 - shift);
      && -0.5 <= m - n as real <= 0.5
      && (m - n as real == 0.5 || m - n as real == -0.5 ==> n % 2 == 0)
  {
    hide Pow2, Units, RoundDiv;
    var d := Pow2(shift);
    var n: int := RoundDiv(ToEven, x, d);
    NearestQuotient(x, d);
    var below, above, twice := (2 * n - 1) * d, (2 * n + 1) * d, 2 * x;
    HalfMagnitude(2 * n + 1, shift);
    HalfMagnitude(2 * n - 1, shift);
    UnitsOrder(above, twice, 0 - shift - 1);
    UnitsOrder(twice, above, 0 - shift - 1);
    UnitsOrder(below, twice, 0 - shift - 1);
    UnitsOrder(twice, below, 0 - shift - 1);
    UnitsDouble(x, 0 - shift - 1);
  }

  lemma NearestQuotient(x: nat, d: nat)
    requires d > 0
    ensures var n := RoundDiv(ToEven, x, d);
      && (2 * n - 1) * d <= 2 * x <= (2 * n + 1) * d
      && ((2 * n - 1) * d == 2 * x || 2 * x == (2 * n + 1) * d ==> n % 2 == 0)
  {
    DivDef(x, d);
    var q, rest := x / d, x % d;
    BesideEven(q, d);
    BesideEven(q + 1, d);
    Distribute(q, d);
  }

  lemma BesideEven(q: int, d: nat)
    ensures (2 * q + 1) * d == 2 * (q * d) + d && (2 * q - 1) * d == 2 * (q * d) - d
  {
    Distribute(2 * q, d);
    MulAssoc(2, q, d);
  }

  lemma WholeMagnitude(n: int, shift: nat)
    ensures Units(n * Pow2(shift), 0 - shift) == n as real
  {
    UnitsRescale(n, shift, 0 - shift);
    UnitsWhole(n);
  }

  lemma HalfMagnitude(n: int, shift: nat)
    ensures Units(n * Pow2(shift), 0 - shift - 1) == n as real / 2.0
  {
    UnitsRescale(n, shift, 0 - shift - 1);
    UnitsDouble(n, -1);
    UnitsWhole(n);
    assert Units(n, -1) == n as real / 2.0;
  }

  lemma TinyQuotient(dir: Direction, x: u64, shift: nat)
    requires shift >= 66
    ensures RoundDiv(dir, x, Pow2(shift)) == if dir == AwayFromZero && x > 0 then 1 else 0
  {
    Pow2Monotone(66, shift);
    Pow2Add(64, 2);
    Pow2Of64();
    Pow2Zero();
    assert Pow2(2) == 4;
    hide Pow2;
    DivUnique(x, Pow2(shift), 0, x);
  }

  /** Converting to an integer rounds the denoted value in the current mode; what
      does not fit 64 bits becomes the indefinite integer. */
  lemma ToIntRounds(mode: Mode, f: F80) returns (n: int)
    requires f.Finite()
    ensures RoundedTo(mode, f.Value(), n)
    ensures ToInt(mode, f) == if INT64_MIN <= n <= -INT64_MIN - 1 then n else INT64_MIN
  {
    hide Pow2, Units, ShiftRightRound, RoundDiv;
    if f.exp > BIAS_63 {
      n := ToIntTooLarge(mode, f);
      return;
    }
    var dir := DirectionOf(mode, f.sign);
    var shift := BIAS_63 - f.exp;
    ShiftSignifFits(mode, f.signif, shift, f.sign);
    if f.exp == 0 {
      shift := shift - 1;
      TinyQuotient(dir, f.signif, shift);
      TinyQuotient(dir, f.signif, shift + 1);
    }
    var m: int := RoundDiv(dir, f.signif, Pow2(shift));
    MagnitudeRounded(dir, f.signif, shift);
    n := if f.sign then 0 - m else m;
  }

  /** An infinity, a NaN or an unsupported encoding has no integer. */
  lemma ToIntIndefinite(mode: Mode, f: F80)
    requires !f.Finite()
    ensures ToInt(mode, f) == INT64_MIN
  {
  }

  /** From 2^64 on a number is whole and out of range. */
  lemma ToIntTooLarge(mode: Mode, f: F80) returns (n: int)
    requires f.Finite() && f.exp > BIAS_63
    ensures n as real == f.Value() && RoundedTo(mode, f.Value(), n) && (n >= U64 || n <= 0 - U64)
  {
    hide Pow2, Units, RoundedTo;
    var m: int := LargeMagnitude(f);
    n := if f.sign then 0 - m else m;
    WholeRoundsToItself(mode, n);
  }

  lemma LargeMagnitude(f: F80) returns (m: nat)
    requires f.Finite() && f.exp > BIAS_63
    ensures m as real == f.Magnitude() && m >= U64
  {
    hide Pow2, Units;
    var k := f.exp - BIAS_63;
    m := f.signif * Pow2(k);
    UnitsRescale(f.signif, k, 0);
    UnitsWhole(m);
    Pow2Zero();
    Pow2Strict(0, k);
    MulLe(2, Pow2(k), f.signif);
    MulAssoc(Pow2(k), f.signif, 1);
  }

  lemma WholeRoundsToItself(mode: Mode, n: int)
    ensures RoundedTo(mode, n as real, n)
  {
  }

  // ---- binary64 bit patterns ----

  const P52: nat := 0x10_0000_0000_0000            // 2^52
  const P53: nat := 0x20_0000_0000_0000            // 2^53

  function Fraction64(bits: u64): nat { bits % P52 }
  function Exponent64(bits: u64): nat { bits / P52 % 2048 }
  predicate Sign64(bits: u64) { bits >= TOP }

  /** f80_from_double, on the bit pattern of its argument. */
  function FromDouble(bits: u64): F80 {
    var signif, exp := Fraction64(bits), Exponent64(bits);
    var f := F80(signif * 0x800 + (if exp != 0 then TOP else 0),
                 if exp == 0x7ff then 0x7fff else if exp == 0 then (if signif == 0 then 0 else 15361) else exp + 15360,
                 Sign64(bits));
    Normalize(f)
  }

  /** f80_to_double, as a bit pattern. */
  function ToDouble(mode: Mode, f: F80): (bits: nat) {
    if !f.Supported() then 0x7ff8_0000_0000_0000
    else
      var (exp, fraction) :=
        if f.exp == EXP_SPECIAL then
          (0x7ff, if f.IsNan() && f.signif % TOP / 0x800 == 0 then 1 else f.signif % TOP / 0x800)
        else if f.IsZero() then (0, 0)
        else if f.Exponent() > 1023 then
          if mode == Nearest || (mode == Up && !f.sign) || (mode == Down && f.sign) then (0x7ff, 0)
            else (0x7fe, P52 - 1)
        else if f.Exponent() < -1022 then
          var rounded := ShiftSignif(mode, f, -f.Exponent() - 1011);
          if rounded / P52 % 2 == 1 then (1, 0) else (0, rounded)
        else
          var rounded := ShiftSignif(mode, f, 11);
          if rounded / P53 % 2 == 1 then (f.Exponent() + 1024, rounded / 2 % P52)
            else (f.Exponent() + 1023, rounded % P52);
      (if f.sign then TOP else 0) + exp * P52 + fraction
  }

  /** A binary64 number converts without rounding. */
  lemma FromDoubleExact(bits: u64)
    requires Exponent64(bits) != 0x7ff
    ensures FromDouble(bits).Finite() && FromDouble(bits).sign == Sign64(bits)
    ensures FromDouble(bits).Magnitude()
         == if Exponent64(bits) == 0 then Units(Fraction64(bits), -1074)
            else Units(P52 + Fraction64(bits), Exponent64(bits) as int - 1075)
  {
    hide Units, Normalize;
    var signif, exp, sign := Fraction64(bits), Exponent64(bits), Sign64(bits);
    if exp != 0 {
      NormalDoubleExact(signif, exp, sign);
    } else if signif != 0 {
      SubnormalDoubleExact(signif, sign);
    } else {
      ZeroDoubleExact(sign);
    }
  }

  lemma NormalDoubleExact(signif: nat, exp: nat, sign: bool)
    requires signif < P52 && 0 < exp < 0x7ff
    ensures var f := Normalize(F80(signif * 0x800 + TOP, exp + 15360, sign));
      f.Finite() && f.sign == sign && f.Magnitude() == Units(P52 + signif, exp - 1075)
  {
    hide Units, Normalize;
    Pow2Of11();
    UnitsRescale(P52 + signif, 11, exp - 1086);
  }

  lemma SubnormalDoubleExact(signif: nat, sign: bool)
    requires 0 < signif < P52
    ensures var f := Normalize(F80(signif * 0x800, 15361, sign));
      f.Finite() && f.sign == sign && f.Magnitude() == Units(signif, -1074)
  {
    hide Units, Normalize;
    Pow2Of11();
    UnitsRescale(signif, 11, -1085);
  }

  lemma ZeroDoubleExact(sign: bool)
    ensures Normalize(Zero(sign)) == Zero(sign)
    ensures Zero(sign).Finite() && Zero(sign).Magnitude() == Units(0, -1074)
  {
    hide Units;
    UnitsOrder(0, 0, EMIN - 63);
    UnitsOrder(0, 0, -1074);
  }

  lemma Pow2Of11()
    ensures Pow2(11) == 0x800
  {
  }

  /** Converting a binary64 bit pattern and back returns it: numbers, subnormals,
      signed zeros, infinities and NaNs, in every rounding mode. */
  lemma DoubleRoundTrip(mode: Mode, bits: u64)
    ensures ToDouble(mode, FromDouble(bits)) == bits
  {
    hide Clz64, Pow2, Normalize, ToDouble;
    var signif, exp, sign := Fraction64(bits), Exponent64(bits), Sign64(bits);
    BitFields(bits);
    if exp == 0x7ff {
      SpecialDouble(mode, signif, sign);
    } else if exp == 0 {
      if signif == 0 {
        ZeroDouble(mode, sign);
      } else {
        SubnormalDouble(mode, signif, sign);
      }
    } else {
      NormalDouble(mode, signif, exp, sign);
    }
  }

  lemma ZeroDouble(mode: Mode, sign: bool)
    ensures ToDouble(mode, Normalize(Zero(sign))) == if sign then TOP else 0
  {
  }

  lemma SpecialDouble(mode: Mode, signif: nat, sign: bool)
    requires signif < P52
    ensures ToDouble(mode, Normalize(F80(signif * 0x800 + TOP, 0x7fff, sign)))
        == (if sign then TOP else 0) + 0x7ff * P52 + signif
  {
    hide ShiftSignif;
    var f := F80(signif * 0x800 + TOP, 0x7fff, sign);
    assert f.signif % TOP == signif * 0x800;
  }

  lemma NormalDouble(mode: Mode, signif: nat, exp: nat, sign: bool)
    requires signif < P52 && 0 < exp < 0x7ff
    ensures ToDouble(mode, Normalize(F80(signif * 0x800 + TOP, exp + 15360, sign)))
        == (if sign then TOP else 0) + exp * P52 + signif
  {
    hide ShiftRightRound, Clz64, Pow2, RoundDiv, Normalize, ShiftSignif;
    var s: u64 := signif * 0x800 + TOP;
    var f := F80(s, exp + 15360, sign);
    NormalShift(mode, signif, f);
    assert Normalize(f) == f;
  }

  lemma NormalShift(mode: Mode, signif: nat, f: F80)
    requires signif < P52 && f.signif == signif * 0x800 + TOP
    ensures ShiftSignif(mode, f, 11) == signif + P52
  {
    hide ShiftRightRound, Pow2, RoundDiv;
    Pow2Of11();
    ShiftSignifFits(mode, f.signif, 11, f.sign);
    EvenQuotient(DirectionOf(mode, f.sign), signif + P52);
  }

  lemma EvenQuotient(dir: Direction, m: nat)
    ensures RoundDiv(dir, m * 0x800, 0x800) == m
  {
    DivUnique(m * 0x800, 0x800, m, 0);
  }

  lemma SubnormalDouble(mode: Mode, signif: nat, sign: bool)
    requires 0 < signif < P52
    ensures ToDouble(mode, Normalize(F80(signif * 0x800, 15361, sign))) == (if sign then TOP else 0) + signif
  {
    var c := Clz64(signif * 0x800);
    SubnormalDoubleNormal(signif, sign);
    hide Clz64, Pow2, Normalize, ToDouble, ShiftSignif;
    var f := F80(signif * 0x800 * Pow2(c), 15361 - c, sign);
    SubnormalDoubleShift(mode, signif, c, f);
    SubnormalDoubleBits(mode, signif, c, f);
  }

  lemma SubnormalDoubleNormal(signif: nat, sign: bool)
    requires 0 < signif < P52
    ensures var m, c := signif * 0x800, Clz64(signif * 0x800);
      && 1 <= c <= 63 && TOP <= m * Pow2(c) < U64
      && Normalize(F80(m, 15361, sign)) == F80(m * Pow2(c), 15361 - c, sign)
  {
    hide Clz64, Pow2;
    Pow2Zero();
    MulAssoc(signif * 0x800, 1, 1);
  }

  lemma SubnormalDoubleShift(mode: Mode, signif: nat, c: nat, f: F80)
    requires f.signif == signif * 0x800 * Pow2(c)
    ensures ShiftSignif(mode, f, 11 + c) == signif
  {
    hide Pow2, ShiftRightRound;
    Pow2Of11();
    Pow2Add(11, c);
    ShiftSignifFits(mode, f.signif, 11 + c, f.sign);
    MulAssoc(signif, 0x800, Pow2(c));
    DivUnique(f.signif, Pow2(11 + c), signif, 0);
  }

  lemma SubnormalDoubleBits(mode: Mode, signif: nat, c: nat, f: F80)
    requires signif < P52 && 1 <= c <= 63 && f.signif >= TOP && f.exp as int == 15361 - c
    requires ShiftSignif(mode, f, 11 + c) == signif
    ensures ToDouble(mode, f) == (if f.sign then TOP else 0) + signif
  {
    hide ShiftSignif;
    assert -f.Exponent() - 1011 == 11 + c;
  }

  lemma BitFields(bits: u64)
    ensures bits == (if Sign64(bits) then TOP else 0) + Exponent64(bits) * P52 + Fraction64(bits)
  {
  }
}
