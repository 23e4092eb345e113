/** NaN handling, multiplication and division of emu/float80.c. */
module Float80Arithmetic {
  import opened NatArith
  import opened Powers
  import opened Rounding
  import opened Float80
  import opened Float80Rounding

  predicate Uncomparable(a: F80, b: F80) {
    !a.Supported() || !b.Supported() || a.IsNan() || b.IsNan()
  }

  /** handle_nans: what a binary operation returns for operands with no value. */
  function NanResult(a: F80, b: F80): F80
    requires Uncomparable(a, b)
  {
    if !a.Supported() || !b.Supported() then NAN
    else if a.IsNan() && b.IsNan() && a.sign && !b.sign then b
    else if a.IsNan() then a
    else b
  }

  /** The smallest normal magnitude. */
  ghost function MinNormal(): real {
    Units(TOP, LEAST)
  }

  lemma NormalOrNot(signif: u128, exp: int)
    requires signif > 0
    ensures exp - Clz128(signif) >= EMIN <==> Units(signif, exp - 127) >= MinNormal()
    ensures Units(signif, exp - 127) == Units(signif * Pow2(Clz128(signif)), exp - Clz128(signif) - 127)
  {
    hide Units, Pow2;
    var shift := Clz128(signif);
    var s := signif * Pow2(shift);
    UnitsRescale(signif, shift, exp - shift - 127);
    Pow2Of64();
    Pow2Of128();
    UnitsRescale(TOP, 64, LEAST - 64);
    UnitsDouble(U127, LEAST - 65);
    if exp - shift < EMIN {
      UnitsLess(s, exp - shift - 127, U128, LEAST - 65);
    } else {
      UnitsOrder(U127, s, exp - shift - 127);
      UnitsRescale(U127, exp - shift - EMIN, LEAST - 64);
      MulLe(1, Pow2(exp - shift - EMIN), U127);
      MulAssoc(U127, Pow2(exp - shift - EMIN), 1);
      UnitsOrder(U127, U127 * Pow2(exp - shift - EMIN), LEAST - 64);
    }
  }

  lemma NormalizeExactDelivers(mode: Mode, signif: u128, exp: int, sign: bool)
    requires signif > 0 && Units(signif, exp - 127) >= MinNormal()
    ensures Delivers(mode, sign, Number(Units(signif, exp - 127)), NormalizeRound(mode, signif, exp, sign))
  {
    hide Units, Pow2, Delivers, NormalizeRound;
    NormalOrNot(signif, exp);
    var shift := Clz128(signif);
    StandsForItself(signif * Pow2(shift), exp - shift - 127);
    NormalizeRoundDelivers(mode, Number(Units(signif, exp - 127)), signif, exp, sign);
  }

  lemma NormalizeZero(mode: Mode, exp: int, sign: bool)
    ensures NormalizeRound(mode, 0, exp, sign) == Zero(sign)
  {
  }

  lemma ZeroDelivers(mode: Mode, sign: bool)
    ensures Delivers(mode, sign, Number(0.0), Zero(sign))
  {
    var g := Grid(0, LEAST);
    UnitsOrder(0, 0, LEAST);
    forall h: Grid
      ensures h.Value() >= 0.0
    {
      UnitsOrder(0, h.s, h.q);
    }
    hide Units;
    assert RoundsTo(DirectionOf(mode, sign), Number(0.0), g);
    assert Encodes(mode, sign, g, Zero(sign));
  }

  // ---- multiplication ----

  function Mul(mode: Mode, a: F80, b: F80): F80 {
    if Uncomparable(a, b) then NanResult(a, b)
    else if a.IsInf() || b.IsInf() then
      if a.IsZero() || b.IsZero() then NAN else Infinity(a.sign != b.sign)
    else
      MulFits(a.signif, b.signif);
      NormalizeRound(mode, a.signif * b.signif, a.Exponent() + b.Exponent() + 1, a.sign != b.sign)
  }

  /** An unsupported encoding gives the default NaN; else a NaN operand comes back as it is, the
      positive one of two with different signs, the first of two with the same. */
  lemma NanOperands(mode: Mode, a: F80, b: F80)
    requires Uncomparable(a, b)
    ensures Mul(mode, a, b) == NanResult(a, b)
    ensures var f := NanResult(a, b);
      && f.IsNan() && f.Supported()
      && (!a.Supported() || !b.Supported() ==> f == F80(0xc000_0000_0000_0000, 0x7fff, false))
      && (a.Supported() && b.Supported() && !b.IsNan() ==> f == a)
      && (a.Supported() && b.Supported() && !a.IsNan() ==> f == b)
      && (a.Supported() && b.Supported() && a.IsNan() && b.IsNan() ==> f == if a.sign && !b.sign then b else a)
  {
  }

  /** An infinite factor gives an infinity with the product's sign, but for zero times infinity. */
  lemma MulInfinite(mode: Mode, a: F80, b: F80)
    requires !Uncomparable(a, b) && (a.IsInf() || b.IsInf())
    ensures Mul(mode, a, b) ==
      if a.IsZero() || b.IsZero() then F80(0xc000_0000_0000_0000, 0x7fff, false) else F80(TOP, 0x7fff, a.sign != b.sign)
  {
  }

  lemma MulFits(x: nat, y: nat)
    requires x < U64 && y < U64
    ensures 0 <= x * y < U128
  {
    MulLe(x, U64 - 1, y);
    MulLe(0, x, y);
  }

  lemma MulExact(a: F80, b: F80)
    ensures a.Magnitude() * b.Magnitude()
         == Units(a.signif * b.signif, a.Exponent() + b.Exponent() + 1 - 127)
  {
    hide Units;
    UnitsProduct(a.signif, a.Exponent() - 63, b.signif, b.Exponent() - 63);
  }

  /** The product of finite numbers is the exact product, rounded once, whenever
      that is zero or not below the smallest normal number. */
  lemma MulCorrect(mode: Mode, a: F80, b: F80)
    requires a.Finite() && b.Finite()
    requires a.Magnitude() * b.Magnitude() == 0.0 || a.Magnitude() * b.Magnitude() >= MinNormal()
    ensures Delivers(mode, a.sign != b.sign, Number(a.Magnitude() * b.Magnitude()), Mul(mode, a, b))
  {
    hide Units, Delivers, Clz128, NormalizeRound;
    MulExact(a, b);
    MulFits(a.signif, b.signif);
    var p: u128 := a.signif * b.signif;
    var exp := a.Exponent() + b.Exponent() + 1;
    UnitsOrder(0, p, exp - 127);
    if p == 0 {
      NormalizeZero(mode, exp, a.sign != b.sign);
      ZeroDelivers(mode, a.sign != b.sign);
    } else {
      NormalizeExactDelivers(mode, p, exp, a.sign != b.sign);
    }
  }

  // ---- division ----

  /** __builtin_ctzll on a non-zero argument. */
  function Ctz64(x: nat): (n: nat)
    requires x > 0
    ensures x % Pow2(n) == 0 && x / Pow2(n) > 0
    ensures x == x / Pow2(n) * Pow2(n)
  {
    if x % 2 == 1 then 0
    else
      var n := Ctz64(x / 2);
      CtzStep(x, Pow2(n));
      1 + n
  }

  lemma CtzStep(x: nat, p: nat)
    requires x > 0 && x % 2 == 0 && p > 0
    requires x / 2 == x / 2 / p * p && x / 2 / p > 0
    ensures x % (2 * p) == 0 && x / (2 * p) == x / 2 / p
    ensures x == x / (2 * p) * (2 * p)
  {
    var q := x / 2 / p;
    MulSwap(2, p, q);
    MulAssoc(2, q, p);
    MulAssoc(q, 2 * p, 1);
    MulAssoc(p, q, 1);
    DivUnique(x, 2 * p, q, 0);
  }

  /** A quotient whose lowest bit is sticky: odd whenever the division leaves something over. */
  function StickyQuotient(n: nat, d: nat): nat
    requires d > 0
  {
    DivDef(n, d);
    if n % d != 0 && n / d % 2 == 0 then n / d + 1 else n / d
  }

  /** The sticky quotient stands for the exact one. */
  lemma StickyStands(e: Exact, n: nat, d: nat, w: int)
    requires d > 0
    requires forall t: int :: (AtMost(Units(t, w), e) <==> t * d <= n) && (AtLeast(Units(t, w), e) <==> n <= t * d)
    ensures Stands(e, StickyQuotient(n, d), w)
  {
    hide Units, AtMost, AtLeast;
    DivDef(n, d);
    var quotient, rest := n / d, n % d;
    forall t: int | t % 2 == 0
      ensures AtMost(Units(t, w), e) <==> t <= quotient
      ensures AtLeast(Units(t, w), e) <==> t > quotient || (t == quotient && rest == 0)
    {
      IntOrder(t, quotient, d);
      IntOrder(quotient + 1, t, d);
      Distribute(quotient, d);
    }
  }

  lemma IntOrder(a: int, b: int, d: int)
    requires d > 0
    ensures a <= b <==> a * d <= b * d
    ensures a < b <==> a * d < b * d
  {
    if a < b {
      IntStep(a, b, d);
    } else if b < a {
      IntStep(b, a, d);
    }
  }

  lemma IntStep(a: int, b: int, d: int)
    requires d > 0 && a < b
    ensures a * d < b * d
  {
    MulLe(1, b - a, d);
    assert (b - a) * d == b * d - a * d;
  }

  /** How t units compare with a quotient, in whole numbers. */
  lemma QuotientOrder(a: F80, b: F80, odd: nat, zeros: nat, extra: nat, t: int)
    requires b.signif > 0 && b.signif == odd * Pow2(zeros)
    ensures b.Magnitude() > 0.0
    ensures var w := a.Exponent() - b.Exponent() + 63 - zeros - extra - 127;
      && (Units(t, w) <= a.Magnitude() / b.Magnitude() <==> t * odd <= a.signif * U64 * Pow2(extra))
      && (a.Magnitude() / b.Magnitude() <= Units(t, w) <==> a.signif * U64 * Pow2(extra) <= t * odd)
  {
    var w := a.Exponent() - b.Exponent() + 63 - zeros - extra - 127;
    var n, d := a.signif * U64 * Pow2(extra), t * odd;
    var v := a.Exponent() - 127 - zeros - extra;
    hide Pow2, Units;
    UnitsOrder(0, b.signif, b.Exponent() - 63);
    QuotientWeights(a.signif, b.signif, odd, zeros, extra, t);
    UnitsProduct(t, w, b.signif, b.Exponent() - 63);
    UnitsRescale(a.signif, 64 + extra + zeros, v);
    IntOrder(d, n, Pow2(zeros));
    IntOrder(n, d, Pow2(zeros));
    UnitsOrder(d * Pow2(zeros), n * Pow2(zeros), v);
    UnitsOrder(n * Pow2(zeros), d * Pow2(zeros), v);
    QuotientBounds(Units(t, w), a.Magnitude(), b.Magnitude());
  }

  lemma QuotientWeights(sa: nat, sb: nat, odd: nat, zeros: nat, extra: nat, t: int)
    requires sb == odd * Pow2(zeros)
    ensures t * sb == (t * odd) * Pow2(zeros)
    ensures sa * Pow2(64 + extra + zeros) == (sa * U64 * Pow2(extra)) * Pow2(zeros)
  {
    hide Pow2;
    Pow2Of64();
    Pow2Add(64, extra);
    Pow2Add(64 + extra, zeros);
    MulAssoc(t, odd, Pow2(zeros));
    MulAssoc(sa, U64, Pow2(extra));
    MulAssoc(sa, U64 * Pow2(extra), Pow2(zeros));
  }

  lemma QuotientBounds(y: real, a: real, b: real)
    requires b > 0.0
    ensures y <= a / b <==> y * b <= a
    ensures a / b <= y <==> a <= y * b
  {
    ScaleOrder(y, a / b, b);
    ScaleOrder(a / b, y, b);
    DivideBack(a, b);
  }

  lemma DivideBack(a: real, b: real)
    requires b > 0.0
    ensures a / b * b == a
  {
  }

  lemma QuotientRoom(q: nat, extra: nat)
    requires q * Pow2(extra) < U128 && extra <= 128
    ensures (q + 1) * Pow2(extra) <= U128
  {
    hide Pow2;
    Pow2Of128();
    Pow2Add(128 - extra, extra);
    MulCancel(q, Pow2(128 - extra), Pow2(extra));
    MulLe(q + 1, Pow2(128 - extra), Pow2(extra));
  }

  lemma NextBit(n: nat, bit: nat, signif: nat, d: nat, rest: nat, q: nat, extra: nat)
    requires n * Pow2(bit) == signif * d + rest && rest < d
    requires q * Pow2(bit) <= signif < (q + 1) * Pow2(bit)
    requires bit < extra && (q + 1) * Pow2(extra) <= U128
    ensures n * Pow2(bit + 1) == 2 * signif * d + 2 * rest
    ensures (2 * signif + 1) * d == 2 * signif * d + d
    ensures q * Pow2(bit + 1) <= 2 * signif && 2 * signif + 1 < (q + 1) * Pow2(bit + 1)
    ensures 2 * signif + 1 < U128
  {
    assert Pow2(bit + 1) == 2 * Pow2(bit);
    Pow2Monotone(bit + 1, extra);
    var p, pp, r := Pow2(bit), Pow2(bit + 1), Pow2(extra);
    hide Pow2;
    MulSwap(2, p, n);
    MulAssoc(2, p, n);
    MulAssoc(2, p, q);
    MulAssoc(2, p, q + 1);
    MulAssoc(2, signif, d);
    Distribute(2 * signif, d);
    MulLe(pp, r, q + 1);
    MulAssoc(pp, n, 1);
    MulAssoc(p, n, 1);
    MulAssoc(p, q, 1);
    MulAssoc(p, q + 1, 1);
    MulAssoc(pp, q, 1);
    MulAssoc(pp, q + 1, 1);
    MulAssoc(r, q + 1, 1);
  }

  /** The quotient loop of f80_div: as many quotient bits as fill 128 bits, and a sticky one. */
  method QuotientBits(n: u128, d: u64) returns (signif: u128, extra: nat)
    requires d > 0
    ensures n == 0 ==> signif == 0 && extra == 0
    ensures n >= d ==> U127 <= signif && signif == StickyQuotient(n * Pow2(extra), d)
    ensures n >= d ==> n / d < U128 && extra == Clz128(n / d)
  {
    hide Clz128, Pow2, StickyQuotient;
    DivDef(n, d);
    signif := n / d;
    var remainder: u128 := n % d;
    extra := 0;
    if signif != 0 {
      extra := Clz128(signif);
      ghost var q := signif;
      QuotientRoom(q, extra);
      Pow2Zero();
      var bit := 0;
      while bit < extra
        invariant 0 <= bit <= extra
        invariant n * Pow2(bit) == signif * d + remainder && remainder < d
        invariant q * Pow2(bit) <= signif < (q + 1) * Pow2(bit)
      {
        NextBit(n, bit, signif, d, remainder, q, extra);
        signif := 2 * signif;
        remainder := 2 * remainder;
        if remainder >= d {
          remainder := remainder - d;
          signif := signif + 1;
        }
        bit := bit + 1;
      }
      StickyByParts(n * Pow2(extra), d, signif, remainder);
      if remainder != 0 && signif % 2 == 0 {
        signif := signif + 1;
      }
    }
  }

  lemma StickyByParts(n: nat, d: nat, quotient: nat, rest: nat)
    requires n == quotient * d + rest && rest < d
    ensures StickyQuotient(n, d) == if rest != 0 && quotient % 2 == 0 then quotient + 1 else quotient
  {
    DivUnique(n, d, quotient, rest);
  }

  /** The sticky quotient stands for the exact one. */
  lemma QuotientStands(a: F80, b: F80, zeros: nat, odd: nat, extra: nat)
    requires b.signif == odd * Pow2(zeros) && odd > 0 && b.signif > 0
    ensures b.Magnitude() > 0.0
    ensures Stands(Number(a.Magnitude() / b.Magnitude()), StickyQuotient(a.signif * U64 * Pow2(extra), odd),
                   a.Exponent() - b.Exponent() + 63 - zeros - extra - 127)
  {
    hide Units, Pow2, Stands, StickyQuotient;
    UnitsOrder(0, b.signif, b.Exponent() - 63);
    var w := a.Exponent() - b.Exponent() + 63 - zeros - extra - 127;
    var e := Number(a.Magnitude() / b.Magnitude());
    var n := a.signif * U64 * Pow2(extra);
    forall t: int
      ensures (AtMost(Units(t, w), e) <==> t * odd <= n) && (AtLeast(Units(t, w), e) <==> n <= t * odd)
    {
      QuotientOrder(a, b, odd, zeros, extra, t);
    }
    StickyStands(e, n, odd, w);
  }

  lemma QuotientDelivers(mode: Mode, a: F80, b: F80, zeros: nat, odd: nat, signif: u128, extra: nat)
    requires a.Finite() && b.Finite() && b.signif == odd * Pow2(zeros) && odd > 0 && b.signif > 0
    requires U127 <= signif == StickyQuotient(a.signif * U64 * Pow2(extra), odd)
    requires b.Magnitude() > 0.0 && a.Magnitude() / b.Magnitude() >= MinNormal()
    ensures Delivers(mode, a.sign != b.sign, Number(a.Magnitude() / b.Magnitude()),
                     NormalizeRound(mode, signif, a.Exponent() - b.Exponent() + 63 - zeros - extra, a.sign != b.sign))
  {
    hide Units, Pow2, Delivers, NormalizeRound, Stands;
    var exp := a.Exponent() - b.Exponent() + 63 - zeros - extra;
    var e := Number(a.Magnitude() / b.Magnitude());
    QuotientStands(a, b, zeros, odd, extra);
    FullWidth(signif);
    StickyNormal(e, signif, exp);
    NormalizeRoundDelivers(mode, e, signif, exp, a.sign != b.sign);
  }

  lemma FullWidth(signif: u128)
    requires U127 <= signif
    ensures Clz128(signif) == 0
    ensures signif * Pow2(0) == signif
  {
    if Clz128(signif) > 0 {
      Pow2Monotone(1, Clz128(signif));
      MulLe(2, Pow2(Clz128(signif)), signif);
    }
  }

  /** A full-width significand that stands for a normal magnitude has a normal exponent. */
  lemma StickyNormal(e: Exact, signif: u128, exp: int)
    requires e.Number? && e.x >= MinNormal() && U127 <= signif
    requires Stands(e, signif, exp - 127)
    ensures exp >= EMIN
  {
    hide Units, Pow2;
    if exp < EMIN {
      StandsAt(e, signif, exp - 127, U127);
      Pow2Of64();
      UnitsRescale(TOP, 64, LEAST - 64);
      UnitsDouble(U127, exp - 127);
      P2Order(U127, exp - 126, LEAST - 64);
    }
  }

  lemma P2Order(m: nat, p: int, q: int)
    requires p <= q
    ensures Units(m, p) <= Units(m, q)
  {
    UnitsRescale(m, q - p, p);
    hide Units, Pow2;
    MulLe(1, Pow2(q - p), m);
    MulAssoc(Pow2(q - p), m, 1);
    UnitsOrder(m, m * Pow2(q - p), p);
  }

  /** What the quotient loop of f80_div leaves for two finite operands: the divisor's
      trailing zeros are taken out first. */
  function OddPart(b: u64): (odd: nat)
    requires b > 0
    ensures 0 < odd <= b && b == odd * Pow2(Ctz64(b))
  {
    var zeros := Ctz64(b);
    DivDef(b, Pow2(zeros));
    MulLe(1, Pow2(zeros), b / Pow2(zeros));
    b / Pow2(zeros)
  }

  function QuotientExtra(a: u64, b: u64): nat
    requires a > 0 && b > 0
  {
    QuotientWide(a * U64, OddPart(b));
    Clz128(a * U64 / OddPart(b))
  }

  function QuotientSignif(a: u64, b: u64): (s: u128)
    requires a > 0 && b > 0
    ensures U127 <= s
  {
    QuotientWide(a * U64, OddPart(b));
    StickyQuotient(a * U64 * Pow2(QuotientExtra(a, b)), OddPart(b))
  }

  function QuotientExp(a: F80, b: F80): int
    requires a.signif > 0 && b.signif > 0
  {
    a.Exponent() - b.Exponent() + 63 - Ctz64(b.signif) - QuotientExtra(a.signif, b.signif)
  }

  lemma QuotientBetween(n: nat, d: nat, p: nat)
    requires d > 0 && p > 0
    ensures n / d * p <= n * p / d < (n / d + 1) * p
  {
    var q, big := n / d, n * p / d;
    DivDef(n, d);
    DivDef(n * p, d);
    Distribute(q, d);
    Distribute(big, d);
    MulSwap(q, p, d);
    MulLe(q * d, n, p);
    MulCancel(q * p, big + 1, d);
    MulSwap(q + 1, p, d);
    MulLt(n, (q + 1) * d, p);
    MulCancel(big, (q + 1) * p, d);
  }

  lemma QuotientPositive(n: nat, d: nat)
    requires 0 < d <= n
    ensures 0 < n / d <= n
  {
    DivDef(n, d);
  }

  lemma QuotientWide(n: u128, d: nat)
    requires 0 < d <= n
    ensures 0 < n / d < U128
    ensures U127 <= StickyQuotient(n * Pow2(Clz128(n / d)), d) < U128
  {
    hide Pow2, Clz128, StickyQuotient;
    QuotientPositive(n, d);
    var q := n / d;
    var p := Pow2(Clz128(q));
    QuotientRoom(q, Clz128(q));
    QuotientBetween(n, d, p);
    DivDef(n * p, d);
    StickyByParts(n * p, d, n * p / d, n * p % d);
  }

  lemma ZeroQuotient(a: F80, b: F80)
    requires a.Finite() && b.Finite() && a.signif == 0 && b.Magnitude() > 0.0
    ensures a.Magnitude() / b.Magnitude() < MinNormal()
  {
    hide Units;
    UnitsOrder(0, 0, a.Exponent() - 63);
    UnitsOrder(0, TOP, LEAST);
    QuotientBounds(MinNormal(), a.Magnitude(), b.Magnitude());
    ScaleOrder(0.0, MinNormal(), b.Magnitude());
  }

  /** f80_div */
  method Div(mode: Mode, a: F80, b: F80) returns (f: F80)
    ensures Uncomparable(a, b) ==> f == NanResult(a, b)
    ensures !Uncomparable(a, b) && a.IsInf() && !b.IsInf() ==> f == Infinity(a.sign != b.sign)
    ensures !Uncomparable(a, b) && !a.IsInf() && b.IsInf() ==> f == Zero(a.sign != b.sign)
    ensures !Uncomparable(a, b) && !a.IsInf() && !a.IsZero() && b.IsZero() ==> f == Infinity(a.sign != b.sign)
    ensures !Uncomparable(a, b) && a.IsInf() && b.IsInf() ==> f == NAN
    ensures !Uncomparable(a, b) && a.IsZero() && b.IsZero() ==> f == NAN.(sign := a.sign != b.sign)
    ensures a.Finite() && b.Finite() && !b.IsZero() ==> b.Magnitude() > 0.0
    ensures a.Finite() && b.Finite() && !b.IsZero() && a.IsZero() ==> f == Zero(a.sign != b.sign)
    ensures a.Finite() && b.Finite() && !b.IsZero() && a.Magnitude() / b.Magnitude() >= MinNormal() ==>
              Delivers(mode, a.sign != b.sign, Number(a.Magnitude() / b.Magnitude()), f)
    ensures a.Finite() && b.Finite() && !a.IsZero() && !b.IsZero() ==>
              f == NormalizeRound(mode, QuotientSignif(a.signif, b.signif), QuotientExp(a, b), a.sign != b.sign)
  {
    hide Units, Delivers, Pow2, Clz128, StickyQuotient;
    if Uncomparable(a, b) {
      return NanResult(a, b);
    }
    UnitsOrder(0, b.signif, b.Exponent() - 63);
    if a.IsInf() {
      f := Infinity(false);
      if b.IsInf() {
        return NAN;
      }
    } else if b.IsInf() {
      f := Zero(false);
    } else if b.IsZero() {
      f := Infinity(false);
      if a.IsZero() {
        f := NAN;
      }
    } else {
      var zeros := Ctz64(b.signif);
      var odd := b.signif / Pow2(zeros);
      DivDef(b.signif, Pow2(zeros));
      var signif, extra := QuotientBits(a.signif * U64, odd);
      var exp := a.Exponent() - b.Exponent() + 63 - zeros - extra;
      f := NormalizeRound(mode, signif, exp, a.sign != b.sign);
      if a.signif != 0 {
        if a.Magnitude() / b.Magnitude() >= MinNormal() {
          QuotientDelivers(mode, a, b, zeros, odd, signif, extra);
        }
      } else {
        ZeroQuotient(a, b);
      }
    }
    f := f.(sign := a.sign != b.sign);
  }
}
