/** The 80-bit soft float of emu/float80.c: the number format, its meaning, and
    the by-value functions. The rounding mode, a thread-local variable in the
    program, is a parameter here. */
module Float80 {
  import opened NatArith
  import opened Powers
  import opened Rounding

  const U64: nat := FULL                                            // 2^64
  const U128: nat := 0x1_0000_0000_0000_0000_0000_0000_0000_0000    // 2^128
  const U127: nat := 0x8000_0000_0000_0000_0000_0000_0000_0000      // 2^127

  type u64 = x: nat | x < 0x1_0000_0000_0000_0000
  type u128 = x: nat | x < 0x1_0000_0000_0000_0000_0000_0000_0000_0000
  type u15 = x: nat | x < 0x8000
  type i64 = x: int | -0x8000_0000_0000_0000 <= x < 0x8000_0000_0000_0000

  const BIAS: int := 0x3fff
  const EXP_MAX: int := 0x7ffe
  const EXP_MIN: int := 1
  const EXP_SPECIAL: int := 0x7fff
  const EXP_DENORMAL: int := 0

  const EMAX: int := 16383     // unbias(EXP_MAX)
  const EMIN: int := -16382    // unbias(EXP_MIN)

  datatype F80 = F80(signif: u64, exp: u15, sign: bool) {

    /** The integer bit must be 0 for denormals and 1 for everything else. */
    predicate Supported() {
      if exp == EXP_DENORMAL then signif < TOP else signif >= TOP
    }

    predicate IsNan() {
      exp == EXP_SPECIAL && signif % TOP != 0
    }

    predicate IsInf() {
      exp == EXP_SPECIAL && signif % TOP == 0
    }

    predicate IsZero() {
      exp == EXP_DENORMAL && signif == 0
    }

    predicate Finite() {
      Supported() && exp != EXP_SPECIAL
    }

    /** unbias_denormal: subnormals share the exponent of the smallest normals. */
    function Exponent(): int {
      if exp == EXP_DENORMAL then EMIN else exp - BIAS
    }

    /** What a finite number denotes. */
    ghost function Magnitude(): real {
      Units(signif, Exponent() - 63)
    }

    ghost function Value(): real {
      if sign then -Magnitude() else Magnitude()
    }

    function Neg(): F80 {
      F80(signif, exp, !sign)
    }
  }

  const NAN := F80(0xc000_0000_0000_0000, 0x7fff, false)
  const INDEFINITE := F80(0xc000_0000_0000_0000, 0x7fff, true)

  function Infinity(sign: bool): F80 {
    F80(TOP, 0x7fff, sign)
  }

  function Zero(sign: bool): F80 {
    F80(0, 0, sign)
  }

  /** A NaN with its quiet bit set. */
  function Quiet(f: F80): (q: F80)
    ensures q.exp == f.exp && q.sign == f.sign && q.signif / 0x4000_0000_0000_0000 % 2 == 1
    ensures q.signif == f.signif || q.signif == f.signif + 0x4000_0000_0000_0000
    ensures f.signif / 0x4000_0000_0000_0000 % 2 == 1 ==> q == f
  {
    if f.signif / 0x4000_0000_0000_0000 % 2 == 1 then f else f.(signif := f.signif + 0x4000_0000_0000_0000)
  }

  // ---- rounding ----

  predicate RoundAway(mode: Mode, sign: bool) {
    (mode == Up && !sign) || (mode == Down && sign)
  }

  function Overflow(mode: Mode, sign: bool): F80 {
    if mode == Chop || (mode == Down && !sign) || (mode == Up && sign)
    then F80(U64 - 1, EXP_MAX, sign)
    else Infinity(sign)
  }

  /** u128_shift_right_round */
  function ShiftRightRound(mode: Mode, i: u128, shift: nat, sign: bool): (r: u128) {
    if shift == 0 then i
    else if shift > 127 then
      if RoundAway(mode, sign) && i != 0 then 1 else 0
    else
      var guard := i / Pow2(shift - 1) % 2;
      var rest := i % Pow2(shift - 1);
      var kept := i / Pow2(shift);
      ShiftFits(i, shift);
      if guard == 0 && rest == 0 then kept
      else if RoundAway(mode, sign) then kept + 1
      else if mode == Nearest && guard == 1 && (rest != 0 || kept % 2 == 1) then kept + 1
      else kept
  }

  lemma ShiftFits(i: nat, shift: nat)
    requires i < U128 && shift > 0
    ensures 0 <= i / Pow2(shift) && i / Pow2(shift) + 1 < U128
  {
    DivDef(i, Pow2(shift));
    MulLe(2, Pow2(shift), i / Pow2(shift));
  }

  /** __builtin_clzll on a non-zero argument. */
  function Clz64(x: u64): (n: nat)
    requires x > 0
    ensures n <= 63
    ensures TOP <= x * Pow2(n) < U64
  {
    Clz64Fits(x);
    63 - TopBit(x)
  }

  lemma Clz64Fits(x: u64)
    requires x > 0
    ensures TopBit(x) <= 63
    ensures TOP <= x * Pow2(63 - TopBit(x)) < U64
  {
    hide Pow2;
    Pow2Of64();
    TopBitBelow(x, 64);
    ShiftedTop(x, TopBit(x), 63 - TopBit(x));
  }

  lemma ShiftedTop(x: nat, l: nat, n: nat)
    requires Pow2(l) <= x < 2 * Pow2(l)
    ensures Pow2(l + n) <= x * Pow2(n) < 2 * Pow2(l + n)
  {
    hide Pow2;
    Pow2Add(l, n);
    MulLe(Pow2(l), x, Pow2(n));
    MulLt(x, 2 * Pow2(l), Pow2(n));
    MulAssoc(2, Pow2(l), Pow2(n));
  }

  /** u128_clz on a non-zero argument, from the two 64-bit halves. */
  function Clz128(x: u128): (n: nat)
    requires x > 0
    ensures n <= 127
    ensures U127 <= x * Pow2(n) < U128
  {
    if x / U64 != 0 then
      ClzHigh(x, Clz64(x / U64));
      Clz64(x / U64)
    else
      ClzLow(x, Clz64(x));
      64 + Clz64(x)
  }

  lemma ClzLow(x: nat, n: nat)
    requires TOP <= x * Pow2(n) < U64
    ensures U127 <= x * Pow2(64 + n) < U128
  {
    hide Pow2;
    Pow2Of64();
    Pow2Add(n, 64);
    MulAssoc(x, Pow2(n), U64);
  }

  lemma ClzHigh(x: nat, n: nat)
    requires TOP <= x / U64 * Pow2(n) < U64 && n <= 63
    ensures U127 <= x * Pow2(n) < U128
  {
    hide Pow2;
    Pow2Of64();
    Pow2Of128();
    Pow2Add(64 - n, n);
    ClzHighParts(x / U64, x, Pow2(n), Pow2(64 - n));
  }

  lemma ClzHighParts(h: nat, x: nat, p: nat, r: nat)
    requires p > 0 && r * p == U64
    requires TOP <= h * p < U64
    requires h * U64 <= x < (h + 1) * U64
    ensures TOP * U64 <= x * p < U64 * U64
  {
    MulCancel(h, r, p);
    MulLe(h + 1, r, p);
    MulLe(h * U64, x, p);
    MulLt(x, (h + 1) * U64, p);
    MulSwap(h, U64, p);
    MulSwap(h + 1, U64, p);
    MulLe(TOP, h * p, U64);
    MulLe((h + 1) * p, U64, U64);
  }

  /** signif shifted left by n bits, which the leading zeros leave room for. */
  function ShiftLeft(signif: u128, n: nat): (r: u128)
    requires signif > 0 && n <= Clz128(signif)
    ensures r == signif * Pow2(n)
  {
    ShiftLeftFits(signif, n, Clz128(signif));
    signif * Pow2(n)
  }

  lemma ShiftLeftFits(x: nat, n: nat, shift: nat)
    requires n <= shift && x * Pow2(shift) < U128
    ensures 0 <= x * Pow2(n) < U128
  {
    hide Pow2;
    Pow2Monotone(n, shift);
    MulLe(Pow2(n), Pow2(shift), x);
    MulAssoc(x, Pow2(n), 1);
    MulAssoc(x, Pow2(shift), 1);
    MulLe(0, x, Pow2(n));
  }

  /** A significand whose magnitude is below the smallest normal, moved to the
      weight subnormals have: the first of two roundings when bits are lost. */
  function Subnormal(mode: Mode, signif: u128, exp: int, sign: bool): u128
    requires signif > 0 && exp - Clz128(signif) < EMIN
  {
    if exp > EMIN then ShiftLeft(signif, exp - EMIN)
    else ShiftRightRound(mode, signif, EMIN - exp, sign)
  }

  /** u128_normalize_round */
  function NormalizeRound(mode: Mode, signif: u128, exp: int, sign: bool): F80 {
    if signif == 0 then Zero(sign)
    else
      var shift := Clz128(signif);
      if exp - shift < EMIN then
        Pack(ShiftRightRound(mode, Subnormal(mode, signif, exp, sign), 64, sign), -BIAS, sign)
      else if exp - shift > EMAX then Overflow(mode, sign)
      else Pack(ShiftRightRound(mode, ShiftLeft(signif, shift), 64, sign), exp - shift, sign)
  }

  /** The last lines of u128_normalize_round: a carry out of 64 bits moves the
      exponent field up by one. The field is 15 bits wide. */
  function Pack(signif: u128, exp: int, sign: bool): F80 {
    if signif >= U64
    then F80(signif / 2 % U64, (exp + BIAS + 1) % 0x8000, sign)
    else F80(signif, (exp + BIAS) % 0x8000, sign)
  }

  // ---- what the functions are meant to deliver ----

  /** The encoding of a rounded magnitude g: the number itself when the exponent
      range holds it, otherwise what IEEE 754-2008 section 7.4 prescribes. */
  predicate Encodes(mode: Mode, sign: bool, g: Grid, f: F80) {
    && f.sign == sign
    && if g.q > GREATEST then
         f == if DirectionOf(mode, sign) == TowardZero then F80(U64 - 1, EXP_MAX, sign) else Infinity(sign)
       else
         f.signif == g.s && f.exp as int == (if g.s < TOP then EXP_DENORMAL else g.q + 63 + BIAS)
  }

  /** f is the correctly rounded result of sign sign and exact magnitude e. */
  ghost predicate Delivers(mode: Mode, sign: bool, e: Exact, f: F80) {
    exists g: Grid :: RoundsTo(DirectionOf(mode, sign), e, g) && Encodes(mode, sign, g, f)
  }

  /** There is one correctly rounded result. */
  lemma DeliveryUnique(mode: Mode, sign: bool, e: Exact, f: F80, h: F80)
    requires Delivers(mode, sign, e, f) && Delivers(mode, sign, e, h)
    ensures f == h
  {
    hide RoundsTo;
    var dir := DirectionOf(mode, sign);
    var g :| RoundsTo(dir, e, g) && Encodes(mode, sign, g, f);
    var k :| RoundsTo(dir, e, k) && Encodes(mode, sign, k, h);
    RoundingUnique(dir, e, g, k);
  }

  /** A finite delivery denotes the rounded magnitude, and is supported. */
  lemma EncodingDenotes(mode: Mode, sign: bool, g: Grid, f: F80)
    requires g.Canonical() && g.q <= GREATEST && Encodes(mode, sign, g, f)
    ensures f.Finite() && f.Magnitude() == g.Value()
  {
    hide Units;
  }
}
