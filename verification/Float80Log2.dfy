/** f80_log2: a fixed-point logarithm by repeated squaring. */
module Float80Log2 {
  import opened NatArith
  import opened Powers
  import opened Rounding
  import opened Float80
  import opened Float80Rounding
  import opened Float80Arithmetic
  import opened Float80Convert

  const FRACTION_BITS: nat := 80
  const P80: nat := 0x1_0000_0000_0000_0000_0000   // 2^80

  lemma ProductsFit(low: nat, high: nat)
    requires low < U64 && high < U64
    ensures 0 <= low * low < U128 && 0 <= low * high < U128 && 0 <= high * high < U128
  {
    MulFits(low, low);
    MulFits(low, high);
    MulFits(high, high);
  }

  /** The carries of the three products, which are added up in 64-bit columns. */
  lemma Columns(lowSquare: u128, cross: u128, highSquare: u128)
    ensures var middle := lowSquare / U64 + cross % U64 + cross % U64;
      var upper := cross / U64 + cross / U64 + highSquare % U64 + middle / U64;
      var top := highSquare / U64 + upper / U64;
      highSquare * U128 + 2 * cross * U64 + lowSquare
      == (top * U64 + upper % U64) * U128 + middle % U64 * U64 + lowSquare % U64
  {
  }

  lemma SquareOfSum(low: nat, high: nat)
    ensures (high * U64 + low) * (high * U64 + low) == high * high * U128 + 2 * (low * high) * U64 + low * low
  {
  }

  lemma MulFits2(value: u128)
    ensures value * value < U128 * U128
  {
    MulLe(value, U128 - 1, value);
    MulLe(value, U128 - 1, U128 - 1);
    MulAssoc(value, U128 - 1, 1);
  }

  /** u128_square_high: the square's high 128 bits from four 64-bit products, and
      the bit below them. */
  method SquareHigh(value: u128) returns (square: u128, lowTop: bool)
    ensures square == value * value / U128
    ensures lowTop <==> value * value % U128 >= U127
  {
    var low, high := value % U64, value / U64;
    ProductsFit(low, high);
    SquareOfSum(low, high);
    MulFits2(value);
    var lowSquare: u128, cross: u128, highSquare: u128 := low * low, low * high, high * high;
    var middle: u128 := lowSquare / U64 + cross % U64 + cross % U64;
    var upper: u128 := cross / U64 + cross / U64 + highSquare % U64 + middle / U64;
    var top := highSquare / U64 + upper / U64;
    ghost var whole := value * value;
    assert whole == highSquare * U128 + 2 * cross * U64 + lowSquare;
    Columns(lowSquare, cross, highSquare);
    lowTop := middle % U64 / TOP != 0;
    square := top * U64 + upper % U64;
    ghost var rest := middle % U64 * U64 + lowSquare % U64;
    DivUnique(value * value, U128, square, rest);
  }

  // ---- the logarithm, bit by bit ----

  datatype Step = Step(bit: nat, signif: nat)

  /** Squaring a number in [1, 2), and halving it if that left the interval. */
  function LogStep(s: nat): Step {
    if s * s >= U127 * U128 then Step(1, s * s / U128) else Step(0, s * s / U127)
  }

  /** The step keeps the interval, and cuts the square down to a whole number. */
  lemma LogStepExact(s: u128)
    requires s >= U127
    ensures var st := LogStep(s);
      && st.bit <= 1 && U127 <= st.signif < U128
      && (if st.bit == 1 then st.signif * U128 <= s * s < (st.signif + 1) * U128
          else st.signif * U127 <= s * s < (st.signif + 1) * U127)
      && (st.bit == 1 <==> s * s >= U127 * U128)
  {
    MulLe(U127, s, U127);
    MulLe(U127, s, s);
    MulAssoc(U127, s, 1);
    MulFits2(s);
  }

  lemma StepBounds(s: u128)
    requires s >= U127
    ensures LogStep(s).bit <= 1 && U127 <= LogStep(s).signif < U128
  {
    hide LogStep;
    LogStepExact(s);
  }

  /** The first n bits of the fraction, as the loop generates them. */
  function LogFraction(s: nat, n: nat): nat
    decreases n
  {
    if n == 0 then 0
    else
      var st := LogStep(s);
      (if st.bit == 1 then Pow2(n - 1) else 0) + LogFraction(st.signif, n - 1)
  }

  lemma {:induction false} LogFractionBound(s: u128, n: nat)
    requires s >= U127
    ensures LogFraction(s, n) < Pow2(n)
    decreases n
  {
    if n != 0 {
      hide LogStep;
      StepBounds(s);
      LogFractionBound(LogStep(s).signif, n - 1);
    }
  }

  /** A larger significand has a fraction at least as large. */
  lemma {:induction false} LogFractionMonotone(s: u128, t: u128, n: nat)
    requires U127 <= s <= t
    ensures LogFraction(s, n) <= LogFraction(t, n)
    decreases n
  {
    if n != 0 {
      hide LogStep;
      var a, b := LogStep(s), LogStep(t);
      StepsMonotone(s, t);
      StepBounds(s);
      StepBounds(t);
      if a.bit == b.bit {
        LogFractionMonotone(a.signif, b.signif, n - 1);
      } else {
        LogFractionBound(a.signif, n - 1);
      }
    }
  }

  lemma StepsMonotone(s: u128, t: u128)
    requires U127 <= s <= t
    ensures LogStep(s).bit <= LogStep(t).bit <= 1
    ensures LogStep(s).bit == LogStep(t).bit ==> LogStep(s).signif <= LogStep(t).signif
  {
    hide LogStep;
    LogStepExact(s);
    LogStepExact(t);
    MulLe(s, t, s);
    MulLe(s, t, t);
  }

  /** A power of two has no fraction. */
  lemma {:induction false} LogFractionOfOne(n: nat)
    ensures LogFraction(U127, n) == 0
    decreases n
  {
    if n != 0 {
      OneStep();
      LogFractionOfOne(n - 1);
    }
  }

  lemma OneStep()
    ensures LogStep(U127) == Step(0, U127)
  {
    hide LogStep;
    LogStepExact(U127);
  }

  // ---- the fraction against the true logarithm ----

  function Power(b: nat, n: nat): (r: nat) {
    if n == 0 then 1 else b * Power(b, n - 1)
  }

  lemma {:induction false} PowerSum(b: nat, m: nat, n: nat)
    ensures Power(b, m + n) == Power(b, m) * Power(b, n)
  {
    if m == 0 {
      MulAssoc(1, Power(b, n), 1);
    } else {
      PowerSum(b, m - 1, n);
      MulAssoc(b, Power(b, m - 1), Power(b, n));
    }
  }

  lemma {:induction false} PowerOfProduct(a: nat, b: nat, n: nat)
    ensures Power(a * b, n) == Power(a, n) * Power(b, n)
  {
    if n != 0 {
      PowerOfProduct(a, b, n - 1);
      Interchange(a, b, Power(a, n - 1), Power(b, n - 1));
    }
  }

  lemma Interchange(a: nat, b: nat, p: nat, q: nat)
    ensures (a * b) * (p * q) == (a * p) * (b * q)
  {
  }

  lemma {:induction false} PowerMonotone(a: nat, b: nat, n: nat)
    requires a <= b
    ensures Power(a, n) <= Power(b, n)
  {
    if n != 0 {
      PowerMonotone(a, b, n - 1);
      MulLe(a, b, Power(a, n - 1));
      MulLe(Power(a, n - 1), Power(b, n - 1), b);
      MulAssoc(b, Power(a, n - 1), 1);
      MulAssoc(b, Power(b, n - 1), 1);
    }
  }

  lemma {:induction false} Pow2IsPower(n: nat)
    ensures Pow2(n) == Power(2, n)
  {
    if n != 0 {
      Pow2IsPower(n - 1);
    }
  }

  /** The first n bits F of the fraction never exceed the logarithm of the
      significand m = s / 2^127: 2^F <= m^(2^n), over whole numbers. */
  lemma {:induction false} LogFractionBelow(s: u128, n: nat)
    requires s >= U127
    ensures Pow2(LogFraction(s, n)) * Power(U127, Pow2(n)) <= Power(s, Pow2(n))
    decreases n
  {
    if n == 0 {
      Pow2Zero();
      PowerOne(s);
      PowerOne(U127);
    } else {
      hide LogStep, Pow2, Power;
      var st, h := LogStep(s), Pow2(n - 1);
      LogStepExact(s);
      LogFractionBelow(st.signif, n - 1);
      BelowStep(s, st.signif, st.bit, LogFraction(st.signif, n - 1), h);
      Pow2Doubles(n);
    }
  }

  lemma PowerOne(b: nat)
    ensures Power(b, 1) == b
  {
    assert Power(b, 0) == 1;
  }

  lemma Pow2Doubles(n: nat)
    requires n > 0
    ensures Pow2(n) == Pow2(n - 1) + Pow2(n - 1)
  {
  }

  /** The induction step: squaring doubles the exponent, and the cut only loses. */
  lemma BelowStep(s: u128, t: u128, bit: nat, f: nat, h: nat)
    requires bit <= 1
    requires if bit == 1 then t * U128 <= s * s else t * U127 <= s * s
    requires Pow2(f) * Power(U127, h) <= Power(t, h)
    ensures Pow2((if bit == 1 then h else 0) + f) * Power(U127, h + h) <= Power(s, h + h)
  {
    hide Pow2, Power;
    var b := if bit == 1 then U128 else U127;
    PowerMonotone(t * b, s * s, h);
    PowerOfProduct(t, b, h);
    PowerOfProduct(s, s, h);
    PowerSum(s, h, h);
    PowerSum(U127, h, h);
    var p := Power(U127, h);
    MulLe(Pow2(f) * p, Power(t, h), Power(b, h));
    if bit == 1 {
      PowerOfProduct(2, U127, h);
      Pow2IsPower(h);
      Pow2Add(h, f);
      Rearranged(Pow2(h), Pow2(f), p);
    } else {
      MulAssoc(Pow2(f), p, p);
    }
  }

  lemma Rearranged(x: nat, y: nat, p: nat)
    ensures (x * y) * (p * p) == (y * p) * (x * p)
  {
  }

  /** Nor do they fall far short: m^(2^n) < 2^(F+1) * (1 + 2^-127)^(2^n). Each cut loses less
      than one part in 2^127, and later squarings magnify that as they do the fraction. */
  lemma {:induction false} LogFractionAbove(s: u128, n: nat)
    requires s >= U127
    ensures Power(s, Pow2(n)) < Pow2(LogFraction(s, n) + 1) * Power(U127 + 1, Pow2(n))
    decreases n
  {
    Pow2Zero();
    if n == 0 {
      PowerOne(s);
      PowerOne(U127 + 1);
    } else {
      hide LogStep, Pow2, Power;
      var st, h := LogStep(s), Pow2(n - 1);
      LogStepExact(s);
      LogFractionAbove(st.signif, n - 1);
      AboveStep(s, st.signif, st.bit, LogFraction(st.signif, n - 1), h);
      Pow2Doubles(n);
    }
  }

  /** What the cut loses: t + 1 is at most t scaled by (2^127 + 1) / 2^127. */
  lemma CutLoss(s: u128, t: u128, b: nat)
    requires U127 <= t && s * s < (t + 1) * b && (b == U127 || b == U128)
    ensures s * s <= (if b == U127 then 1 else 2) * (t * (U127 + 1))
  {
    var square := s * s;
    assert square < (t + 1) * b;
    assert (t + 1) * U127 <= t * (U127 + 1);
  }

  lemma AboveStep(s: u128, t: u128, bit: nat, f: nat, h: nat)
    requires bit <= 1 && U127 <= t
    requires if bit == 1 then s * s < (t + 1) * U128 else s * s < (t + 1) * U127
    requires Power(t, h) < Pow2(f + 1) * Power(U127 + 1, h)
    ensures Power(s, h + h) < Pow2((if bit == 1 then h else 0) + f + 1) * Power(U127 + 1, h + h)
  {
    hide Pow2, Power;
    var k: nat := if bit == 1 then 2 else 1;
    CutLoss(s, t, if bit == 1 then U128 else U127);
    PowerMonotone(s * s, k * (t * (U127 + 1)), h);
    PowerOfProduct(k, t * (U127 + 1), h);
    PowerOfProduct(t, U127 + 1, h);
    PowerOfProduct(s, s, h);
    PowerSum(s, h, h);
    PowerSum(U127 + 1, h, h);
    PowerOfOne(h);
    Pow2IsPower(h);
    Pow2Add(h, f + 1);
    AboveProduct(Power(t, h), Pow2(f + 1), Power(U127 + 1, h), Power(k, h));
  }

  lemma {:induction false} PowerOfOne(n: nat)
    ensures Power(1, n) == 1
  {
    if n != 0 {
      PowerOfOne(n - 1);
    }
  }

  lemma AboveProduct(x: nat, y: nat, p: nat, k: nat)
    requires x < y * p && k > 0 && p > 0
    ensures k * (x * p) < (k * y) * (p * p)
  {
    MulLt(x, y * p, p);
    MulAssoc(y, p, p);
    MulLt(x * p, y * (p * p), k);
    MulAssoc(k, x * p, 1);
    MulAssoc(k, y, p * p);
    MulAssoc(k, y * (p * p), 1);
  }

  /** Bernoulli's inequality, over whole numbers. */
  lemma {:induction false} Bernoulli(m: nat, n: nat)
    requires n <= m + 1
    ensures Power(m + 1, n) * (m + 1 - n) <= Power(m, n) * (m + 1)
  {
    if n != 0 {
      Bernoulli(m, n - 1);
      BernoulliStep(m, n - 1, Power(m + 1, n - 1), Power(m, n - 1));
    }
  }

  lemma BernoulliStep(m: nat, n: nat, p: nat, q: nat)
    requires n <= m && p * (m + 1 - n) <= q * (m + 1)
    ensures ((m + 1) * p) * (m - n) <= (m * q) * (m + 1)
  {
    MulLe(p * (m + 1 - n), q * (m + 1), m);
    assert (m + 1) * (m - n) + n == (m + 1 - n) * m;
    MulLe((m + 1) * (m - n), (m + 1 - n) * m, p);
    MulAssoc(m + 1, m - n, p);
    MulSwap(m + 1, p, m - n);
    MulAssoc(p, m + 1 - n, m);
    MulAssoc(m + 1 - n, m, p);
    MulAssoc(q, m + 1, m);
    MulSwap(q, m + 1, m);
    MulAssoc(m, q, m + 1);
    MulAssoc(p, (m + 1 - n) * m, 1);
  }

  /** Eighty squarings magnify what is lost to less than one unit of the fraction. */
  lemma LossBelowOne(n: nat)
    requires n <= FRACTION_BITS
    ensures Power(U127 + 1, Pow2(n)) <= 2 * Power(U127, Pow2(n))
  {
    hide Power, Pow2;
    Pow2Monotone(n, FRACTION_BITS);
    Pow2Of80();
    Bernoulli(U127, Pow2(n));
    HalfAgain(Power(U127 + 1, Pow2(n)), Power(U127, Pow2(n)), U127 + 1, Pow2(n));
  }

  lemma HalfAgain(p: nat, q: nat, m: nat, n: nat)
    requires p * (m - n) <= q * m && 2 * n <= m && m > 0
    ensures p <= 2 * q
  {
    MulLe(m, 2 * (m - n), p);
    MulAssoc(2, m - n, p);
    MulAssoc(m - n, p, 1);
    MulAssoc(m, p, 1);
    MulAssoc(2, q, m);
    MulCancel(p, 2 * q, m);
  }

  /** The fraction is within two units of the logarithm, for up to the 80 bits the loop makes. */
  lemma LogFractionClose(s: u128, n: nat)
    requires s >= U127 && n <= FRACTION_BITS
    ensures Pow2(LogFraction(s, n)) * Power(U127, Pow2(n))
        <= Power(s, Pow2(n))
        < Pow2(LogFraction(s, n) + 2) * Power(U127, Pow2(n))
  {
    hide Power, LogFraction;
    var f := LogFraction(s, n);
    LogFractionBelow(s, n);
    LogFractionAbove(s, n);
    LossBelowOne(n);
    Pow2Doubles(f + 2);
    hide Pow2;
    MulLe(Power(U127 + 1, Pow2(n)), 2 * Power(U127, Pow2(n)), Pow2(f + 1));
    MulAssoc(Power(U127 + 1, Pow2(n)), Pow2(f + 1), 1);
    MulSwap(2, Power(U127, Pow2(n)), Pow2(f + 1));
    assert Pow2(f + 2) == 2 * Pow2(f + 1);
  }

  // ---- f80_log2 of a positive finite number ----

  /** The operand as 2^WholePart times a significand in [1, 2). */
  function WholePart(x: F80): int
    requires x.signif > 0
  {
    x.Exponent() - Clz64(x.signif)
  }

  function LeadingSignif(x: F80): u64
    requires x.signif > 0
  {
    x.signif * Pow2(Clz64(x.signif))
  }

  /** The logarithm in units of 2^-80. */
  function FixedLog(x: F80): int
    requires x.signif > 0
  {
    WholePart(x) * P80 + LogFraction(LeadingSignif(x) * U64, FRACTION_BITS)
  }

  function Log2Positive(mode: Mode, x: F80): F80
    requires x.Finite() && x.signif > 0
  {
    FixedLogFits(x);
    if LeadingSignif(x) == TOP then FromInt(WholePart(x))
    else NormalizeRound(mode, Abs(FixedLog(x)), 127 - FRACTION_BITS, FixedLog(x) < 0)
  }

  lemma Pow2Of80()
    ensures Pow2(FRACTION_BITS) == P80
  {
    Pow2Of64();
    Pow2Of16();
    Pow2Add(64, 16);
  }

  lemma FixedLogFits(x: F80)
    requires x.Finite() && x.signif > 0
    ensures -16445 <= WholePart(x) <= 16383
    ensures 0 <= LogFraction(LeadingSignif(x) * U64, FRACTION_BITS) < P80
    ensures -16445 * P80 <= FixedLog(x) < 16384 * P80
  {
    Pow2Of80();
    LogFractionBound(LeadingSignif(x) * U64, FRACTION_BITS);
  }

  /** The loop of f80_log2: one bit of the fraction a round. */
  method FractionBits(start: u128) returns (fraction: u128)
    requires start >= U127
    ensures fraction == LogFraction(start, FRACTION_BITS) < P80
  {
    hide Pow2, LogStep;
    Pow2Of80();
    LogFractionBound(start, FRACTION_BITS);
    var signif: u128 := start;
    fraction := 0;
    ghost var above: nat := 0;
    var bit := 0;
    MulAssoc(0, Pow2(FRACTION_BITS), 1);
    while bit < FRACTION_BITS
      invariant 0 <= bit <= FRACTION_BITS
      invariant U127 <= signif
      invariant fraction + LogFraction(signif, FRACTION_BITS - bit) == LogFraction(start, FRACTION_BITS)
      invariant fraction == above * Pow2(FRACTION_BITS - bit)  // so that adding the next bit sets it
    {
      var high, lowTop := SquareHigh(signif);
      StepAsComputed(signif, high, lowTop);
      LogFractionStep(signif, FRACTION_BITS - bit);
      NextPlace(above, FRACTION_BITS - bit);
      if high >= U127 {
        fraction := fraction + Pow2(FRACTION_BITS - 1 - bit);
        above := 2 * above + 1;
        signif := high;
      } else {
        above := 2 * above;
        signif := 2 * high + (if lowTop then 1 else 0);
      }
      bit := bit + 1;
    }
    LogFractionEnd(signif);
  }

  lemma LogFractionEnd(s: nat)
    ensures LogFraction(s, 0) == 0
  {
  }

  /** f80_log2 */
  method Log2(mode: Mode, x: F80) returns (f: F80)
    ensures !x.Supported() ==> f == NAN
    ensures x.Supported() && x.IsNan() ==> f == Quiet(x)
    ensures x.Supported() && x.IsZero() ==> f == Infinity(true)
    ensures x.Supported() && !x.IsNan() && !x.IsZero() && x.sign ==> f == NAN
    ensures x.Supported() && x.IsInf() && !x.sign ==> f == x
    ensures x.Finite() && x.signif > 0 && !x.sign ==> f == Log2Positive(mode, x)
  {
    if !x.Supported() {
      return NAN;
    }
    if x.IsNan() {
      return Quiet(x);
    }
    if x.IsZero() {
      return Infinity(true);
    }
    if x.sign {
      return NAN;
    }
    if x.IsInf() {
      return x;
    }
    f := Log2Finite(mode, x);
  }

  method Log2Finite(mode: Mode, x: F80) returns (f: F80)
    requires x.Finite() && x.signif > 0
    ensures f == Log2Positive(mode, x)
  {
    hide Pow2, Clz64, LogFraction, NormalizeRound, FromInt;
    var shift := Clz64(x.signif);
    var normalized: u64 := x.signif * Pow2(shift);
    var integer := x.Exponent() - shift;
    FixedLogFits(x);
    if normalized == TOP {
      return FromInt(integer);
    }
    var fraction := FractionBits(normalized * U64);
    var fixed := integer * P80 + fraction;
    var magnitude: u128 := if fixed < 0 then 0 - (fixed + 1) + 1 else fixed;
    f := NormalizeRound(mode, magnitude, 127 - FRACTION_BITS, fixed < 0);
  }

  /** The two halves of the square that the loop looks at make the specified step. */
  lemma StepAsComputed(s: u128, high: u128, lowTop: bool)
    requires s >= U127
    requires high == s * s / U128 && (lowTop <==> s * s % U128 >= U127)
    ensures LogStep(s) == if high >= U127 then Step(1, high) else Step(0, 2 * high + (if lowTop then 1 else 0))
    ensures U127 <= LogStep(s).signif < U128
  {
    StepBounds(s);
    var sq := s * s;
    DivUnique(sq, U127, 2 * high + (if lowTop then 1 else 0), sq % U128 - (if lowTop then U127 else 0));
  }

  lemma LogFractionStep(s: u128, n: nat)
    requires n > 0
    ensures LogFraction(s, n)
        == (if LogStep(s).bit == 1 then Pow2(n - 1) else 0) + LogFraction(LogStep(s).signif, n - 1)
    ensures 0 <= LogFraction(LogStep(s).signif, n - 1)
  {
  }

  lemma NextPlace(above: nat, n: nat)
    requires n > 0
    ensures above * Pow2(n) == 2 * above * Pow2(n - 1)
    ensures (2 * above + 1) * Pow2(n - 1) == 2 * above * Pow2(n - 1) + Pow2(n - 1)
  {
    assert Pow2(n) == 2 * Pow2(n - 1);
    hide Pow2;
    MulSwap(above, 2, Pow2(n - 1));
    MulAssoc(above, 2, Pow2(n - 1));
    Distribute(2 * above, Pow2(n - 1));
  }

  /** The fraction never exceeds the base-two logarithm of the normalised significand m and
      is less than two units below it: 2^F <= m^(2^80) < 2^(F+2), F in units of 2^-80. */
  lemma FractionNearLog(x: F80)
    requires x.Finite() && x.signif > 0
    ensures Pow2(LogFraction(LeadingSignif(x) * U64, FRACTION_BITS)) * Power(U127, Pow2(FRACTION_BITS))
         <= Power(LeadingSignif(x) * U64, Pow2(FRACTION_BITS))
         < Pow2(LogFraction(LeadingSignif(x) * U64, FRACTION_BITS) + 2) * Power(U127, Pow2(FRACTION_BITS))
    ensures x.Magnitude() == Units(LeadingSignif(x) * U64, WholePart(x) - 127)
  {
    hide Pow2, Power, Units, LogFraction;
    LogFractionClose(LeadingSignif(x) * U64, FRACTION_BITS);
    Pow2Of64();
    UnitsRescale(x.signif, Clz64(x.signif), WholePart(x) - 63);
    UnitsRescale(LeadingSignif(x), 64, WholePart(x) - 127);
  }

  /** A larger operand has a fixed-point logarithm at least as large. */
  lemma FixedLogMonotone(x: F80, y: F80)
    requires x.Finite() && y.Finite() && x.signif > 0 && y.signif > 0
    requires x.Magnitude() <= y.Magnitude()
    ensures FixedLog(x) <= FixedLog(y)
  {
    hide Units, Pow2, LogFraction, Clz64;
    FixedLogFits(x);
    FixedLogFits(y);
    FractionNearLog(x);
    FractionNearLog(y);
    var s, t := LeadingSignif(x) * U64, LeadingSignif(y) * U64;
    if WholePart(x) > WholePart(y) {
      UnitsLess(t, WholePart(y) - 127, U128, WholePart(x) - 128);
      UnitsDouble(U127, WholePart(x) - 128);
      UnitsOrder(U127, s, WholePart(x) - 127);
      assert false;
    }
    if WholePart(x) == WholePart(y) {
      UnitsOrder(s, t, WholePart(x) - 127);
      LogFractionMonotone(s, t, FRACTION_BITS);
    }
  }

  /** Rounding a whole number of units of 2^-80. */
  lemma FixedRounds(mode: Mode, m: u128, sign: bool) returns (g: Grid)
    requires m > 0
    ensures RoundsTo(DirectionOf(mode, sign), Number(Units(m, -80)), g)
    ensures var f := NormalizeRound(mode, m, 47, sign);
      f.Finite() && f.sign == sign && f.Magnitude() == g.Value()
  {
    hide Units, Pow2, NormalizeRound, Encodes, RoundsTo, Clz64, Clz128, RoundDiv, Stands;
    var dir := DirectionOf(mode, sign);
    var shift: int := Clz128(m);
    g := Carry(RoundDiv(dir, m * Pow2(shift), U64), 47 - shift - 63);
    UnitsRescale(m, shift, -80 - shift);
    StandsForItself(m * Pow2(shift), -80 - shift);
    RoundsAt64(dir, Number(Units(m, -80)), m * Pow2(shift), -80 - shift);
    NormalizeRoundEncodes(mode, m, 47, sign);
    RoundedCanonical(dir, Number(Units(m, -80)), g);
    EncodingDenotes(mode, sign, g, NormalizeRound(mode, m, 47, sign));
    EncodingSign(mode, sign, g, NormalizeRound(mode, m, 47, sign));
  }

  /** f80_log2 rounds the fixed-point logarithm correctly. */
  lemma Log2Rounds(mode: Mode, x: F80) returns (g: Grid)
    requires x.Finite() && x.signif > 0 && FixedLog(x) != 0
    ensures RoundsTo(DirectionOf(mode, FixedLog(x) < 0), Number(Units(Abs(FixedLog(x)), -80)), g)
    ensures var f := Log2Positive(mode, x);
      f.Finite() && f.sign == (FixedLog(x) < 0) && f.Magnitude() == g.Value()
  {
    hide Units, NormalizeRound, FromInt, RoundsTo, FixedLog;
    FixedLogFits(x);
    if LeadingSignif(x) == TOP {
      g := WholeLogRounds(DirectionOf(mode, FixedLog(x) < 0), x);
    } else {
      g := FixedRounds(mode, Abs(FixedLog(x)), FixedLog(x) < 0);
    }
  }

  lemma EncodingSign(mode: Mode, sign: bool, g: Grid, f: F80)
    requires Encodes(mode, sign, g, f)
    ensures f.sign == sign
  {
  }

  lemma RoundedCanonical(dir: Direction, e: Exact, g: Grid)
    requires RoundsTo(dir, e, g)
    ensures g.Canonical()
  {
  }

  lemma WholeLogRounds(dir: Direction, x: F80) returns (g: Grid)
    requires x.Finite() && x.signif > 0 && LeadingSignif(x) == TOP && FixedLog(x) != 0
    ensures RoundsTo(dir, Number(Units(Abs(FixedLog(x)), -80)), g)
    ensures var f := FromInt(WholePart(x));
      f.Finite() && f.sign == (FixedLog(x) < 0) && f.Magnitude() == g.Value()
  {
    hide Units, Pow2, LogFraction, RoundsTo, FromInt, Clz64;
    var i := WholePart(x);
    FixedLogFits(x);
    LogFractionOfOne(FRACTION_BITS);
    FromIntExact(i);
    var f := FromInt(i);
    g := Grid(f.signif, f.Exponent() - 63);
    Pow2Of80();
    UnitsRescale(Abs(i), FRACTION_BITS, -80);
    UnitsWhole(Abs(i));
    UnitsOrder(0, f.signif, f.Exponent() - 63);
    ExactRounds(dir, g);
  }

  /** f80_log2 is monotone over all positive finite operands, in each rounding mode. */
  lemma Log2Monotone(mode: Mode, x: F80, y: F80)
    requires x.Finite() && y.Finite() && x.signif > 0 && y.signif > 0
    requires x.Magnitude() <= y.Magnitude()
    ensures Log2Positive(mode, x).Value() <= Log2Positive(mode, y).Value()
  {
    hide Units, RoundsTo, FixedLog, Log2Positive;
    FixedLogMonotone(x, y);
    Log2Signed(mode, x);
    Log2Signed(mode, y);
    if 0 < FixedLog(x) {
      MagnitudesOrdered(mode, x, y);
    } else if FixedLog(y) < 0 {
      MagnitudesOrdered(mode, y, x);
    }
  }

  lemma MagnitudesOrdered(mode: Mode, x: F80, y: F80)
    requires x.Finite() && y.Finite() && x.signif > 0 && y.signif > 0
    requires 0 < FixedLog(x) <= FixedLog(y) || 0 < -FixedLog(x) <= -FixedLog(y)
    ensures Log2Positive(mode, x).Magnitude() <= Log2Positive(mode, y).Magnitude()
    ensures Log2Positive(mode, x).sign == Log2Positive(mode, y).sign == (FixedLog(x) < 0)
  {
    hide Units, RoundsTo, FixedLog, Log2Positive;
    var g := Log2Rounds(mode, x);
    var h := Log2Rounds(mode, y);
    var a, b := Abs(FixedLog(x)), Abs(FixedLog(y));
    UnitsOrder(a, b, -80);
    RoundingMonotone(DirectionOf(mode, FixedLog(x) < 0), Units(a, -80), Units(b, -80), g, h);
  }

  lemma Log2Signed(mode: Mode, x: F80)
    requires x.Finite() && x.signif > 0
    ensures FixedLog(x) < 0 ==> Log2Positive(mode, x).Value() <= 0.0
    ensures FixedLog(x) > 0 ==> Log2Positive(mode, x).Value() >= 0.0
    ensures FixedLog(x) == 0 ==> Log2Positive(mode, x) == Zero(false) && Log2Positive(mode, x).Value() == 0.0
  {
    hide Units, RoundsTo;
    var f := Log2Positive(mode, x);
    UnitsOrder(0, f.signif, f.Exponent() - 63);
    if FixedLog(x) != 0 {
      hide FixedLog;
      var g := Log2Rounds(mode, x);
    } else {
      LogOfOne(mode, x);
    }
  }

  lemma LogOfOne(mode: Mode, x: F80)
    requires x.Finite() && x.signif > 0 && FixedLog(x) == 0
    ensures Log2Positive(mode, x) == Zero(false) && Log2Positive(mode, x).Value() == 0.0
  {
    hide Units, Pow2, LogFraction, FromInt, Clz64;
    FixedLogFits(x);
    ZeroEncoding();
    UnitsOrder(0, 0, EMIN - 63);
    if LeadingSignif(x) == TOP {
      LogFractionOfOne(FRACTION_BITS);
    }
  }
}
