/** u128_normalize_round over its whole range: exactly when it delivers the
    correctly rounded result, and what that means for multiplication. */
module Float80Subnormal {
  import opened NatArith
  import opened Powers
  import opened Rounding
  import opened Float80
  import opened Float80Rounding
  import opened Float80Arithmetic

  /** Half a least unit short of 2^63 least units, in 2^-64 of a least unit. */
  const CARRY: nat := U127 - TOP

  /** The two ways u128_normalize_round misses, both below the smallest normal number.
      The magnitude is n / c, in 2^-64 of a least unit. */
  predicate SlipsAt(dir: Direction, n: nat, c: nat)
    requires c > 0
  {
    n < U127 * c && (Carries(dir, n, c) || (dir == ToEven && TieSlips(n, c)))
  }

  /** The magnitude is close enough to the smallest normal number for the significand to
      reach 2^63 while the exponent field stays 0, which is no supported number. */
  predicate Carries(dir: Direction, n: nat, c: nat) {
    match dir
    case TowardZero => false
    case AwayFromZero => n > (TOP - 1) * U64 * c
    case ToEven => 2 * n >= (2 * CARRY - 1) * c
  }

  /** The point halfway between the least units around the magnitude. */
  function Halfway(n: nat, c: nat): nat
    requires c > 0
  {
    n / (U64 * c) * U64 + TOP
  }

  /** The magnitude misses that point by 2^-65 of a least unit at most, on the side away
      from the even unit: the first rounding moves it onto the point, and the second
      then takes the tie to the even unit. */
  predicate TieSlips(n: nat, c: nat)
    requires c > 0
  {
    var half := Halfway(n, c);
    if n / (U64 * c) % 2 == 0 then half * c < n && 2 * n <= (2 * half + 1) * c
    else n < half * c && (2 * half - 1) * c <= 2 * n
  }

  /** The condition on a significand and an exponent: signif * 2^(exp-127) is SlipsAt's
      fraction. */
  predicate Slips(mode: Mode, signif: nat, exp: int, sign: bool) {
    SlipsAt(DirectionOf(mode, sign), signif * Pow2(if exp > EMIN then exp - EMIN else 0),
        Pow2(if exp < EMIN then EMIN - exp else 0))
  }

  /** once is n / c rounded; it is halfway between two multiples of 2^64, n is
      not, and n lies on the side that ties do not go to. */
  predicate TieLost(n: nat, once: nat, c: nat) {
    once % U64 == TOP && if once / U64 % 2 == 0 then n > once * c else n < once * c
  }

  /** Rounding twice to nearest agrees with rounding once exactly when the tie does not slip. */
  lemma DoubleRoundingToEven(n: nat, c: nat)
    requires c > 0
    ensures c * U64 > 0
    ensures RoundDiv(ToEven, RoundDiv(ToEven, n, c), U64) == RoundDiv(ToEven, n, c * U64)
            <==> !TieLost(n, RoundDiv(ToEven, n, c), c)
  {
    DivTwice(n, c, U64);
    DivDef(n, c);
    var q, rest := n / c, n % c;
    DivDef(q, U64);
    TieCases(n, c, q, rest, q / U64, q % U64);
    DivDef(n, c * U64);
  }

  lemma TieCases(n: nat, c: nat, q: nat, rest: nat, high: nat, low: nat)
    requires c > 0 && q == high * U64 + low && low < U64 && rest < c && n == q * c + rest
    ensures q / U64 == high && q % U64 == low
    ensures (q + 1) / U64 == (if low + 1 == U64 then high + 1 else high)
    ensures (q + 1) % U64 == (if low + 1 == U64 then 0 else low + 1)
    ensures (q + 1) * c == q * c + c
    ensures 2 * (low * c + rest) < c * U64 <==> low < TOP
    ensures 2 * (low * c + rest) == c * U64 <==> low == TOP && rest == 0
  {
    Distribute(q, c);
    MulCancel(low, TOP, c);
    MulCancel(TOP, low, c);
    MulCancel(low + 1, TOP, c);
    Distribute(low, c);
    MulAssoc(c, U64, 1);
    MulAssoc(c, TOP, 1);
    MulAssoc(2, low, c);
  }

  /** Rounding twice in one direction is rounding once. */
  lemma DoubleRoundingDirected(dir: Direction, n: nat, c: nat)
    requires c > 0 && dir != ToEven
    ensures c * U64 > 0
    ensures RoundDiv(dir, RoundDiv(dir, n, c), U64) == RoundDiv(dir, n, c * U64)
  {
    DivTwice(n, c, U64);
    DivDef(n, c);
    var q, rest := n / c, n % c;
    DivDef(q, U64);
    TieCases(n, c, q, rest, q / U64, q % U64);
    if q % U64 > 0 {
      MulLe(1, q % U64, c);
    } else {
      MulAssoc(0, c, 1);
    }
  }

  /** The correctly rounded number of least units. */
  lemma LeastUnitsRounded(dir: Direction, n: nat, j: nat)
    requires j >= 1 && RoundDiv(dir, n, Pow2(j)) < U64
    ensures RoundsTo(dir, Number(Units(n, LEAST - j)), Grid(RoundDiv(dir, n, Pow2(j)), LEAST))
  {
    if dir == ToEven {
      LeastUnitsNearest(n, j);
    } else {
      LeastUnitsDirected(dir, n, j);
    }
  }

  lemma WholeLeastUnits(n: nat, m: int, j: nat)
    ensures var e := Number(Units(n, LEAST - j));
      && (AtMost(Units(m, LEAST), e) <==> m * Pow2(j) <= n)
      && (AtLeast(Units(m, LEAST), e) <==> n <= m * Pow2(j))
  {
    hide Units;
    UnitsRescale(m, j, LEAST - j);
    UnitsOrder(m * Pow2(j), n, LEAST - j);
  }

  lemma LeastUnitsDirected(dir: Direction, n: nat, j: nat)
    requires j >= 1 && RoundDiv(dir, n, Pow2(j)) < U64 && dir != ToEven
    ensures RoundsTo(dir, Number(Units(n, LEAST - j)), Grid(RoundDiv(dir, n, Pow2(j)), LEAST))
  {
    hide Pow2, Units, AtMost, AtLeast, RoundsTo;
    var e := Number(Units(n, LEAST - j));
    var d := Pow2(j);
    DivDef(n, d);
    Distribute(n / d, d);
    Distribute(n / d + 1, d);
    var r: int := RoundDiv(dir, n, d);
    WholeLeastUnits(n, r, j);
    WholeLeastUnits(n, r + 1, j);
    WholeLeastUnits(n, r - 1, j);
    if dir == TowardZero {
      DownByNeighbours(e, r, LEAST);
    } else {
      UpByNeighbours(e, r, LEAST);
    }
  }

  lemma LeastUnitsNearest(n: nat, j: nat)
    requires j >= 1 && RoundDiv(ToEven, n, Pow2(j)) < U64
    ensures RoundsTo(ToEven, Number(Units(n, LEAST - j)), Grid(RoundDiv(ToEven, n, Pow2(j)), LEAST))
  {
    assert Pow2(j) == 2 * Pow2(j - 1);
    hide Pow2, Units, AtMost, AtLeast, RoundsTo;
    var d, half := Pow2(j), Pow2(j - 1);
    var r: int := RoundDiv(ToEven, n, d);
    NearestMultiple(n, d, half);
    HalfUnits(n, LEAST - j, 2 * r - 1, j);
    HalfUnits(n, LEAST - j, 2 * r + 1, j);
    NearestByNeighbours(Number(Units(n, LEAST - j)), r, LEAST);
  }

  lemma HalfUnits(n: nat, w: int, m: int, j: nat)
    requires j >= 1
    ensures var e := Number(Units(n, w));
      && (AtMost(Units(m, w + j - 1), e) <==> m * Pow2(j - 1) <= n)
      && (AtLeast(Units(m, w + j - 1), e) <==> n <= m * Pow2(j - 1))
  {
    hide Units;
    UnitsRescale(m, j - 1, w);
    UnitsOrder(m * Pow2(j - 1), n, w);
  }

  /** The rounded quotient is within half a divisor, strictly when it is odd. */
  lemma NearestMultiple(n: nat, d: nat, half: nat)
    requires d == 2 * half && half > 0
    ensures var r := RoundDiv(ToEven, n, d);
      && (2 * r - 1) * half <= n <= (2 * r + 1) * half
      && (r % 2 == 1 ==> (2 * r - 1) * half < n < (2 * r + 1) * half)
  {
    DivDef(n, d);
    var q, rest := n / d, n % d;
    MulAssoc(q, 2, half);
    MulAssoc(q, d, 1);
    Distribute(2 * q, half);
    Distribute(2 * q + 1, half);
    Distribute(2 * q + 2, half);
  }

  lemma RoundDivBound(dir: Direction, n: nat, d: nat, m: nat)
    requires d > 0 && n <= m * d
    ensures RoundDiv(dir, n, d) <= m
  {
    DivDef(n, d);
    MulCancel(m, n / d, d);
    if n / d == m {
      assert n % d == 0;
    }
  }

  /** The subnormal branch with no bits shifted out first. */
  lemma SubnormalExact(mode: Mode, signif: u128, exp: int, sign: bool)
    requires signif > 0 && EMIN <= exp < EMIN + Clz128(signif)
    ensures var once := Subnormal(mode, signif, exp, sign);
      && Units(signif, exp - 127) == Units(once, LEAST - 64)
      && once <= U127 && once == signif * Pow2(exp - EMIN)
  {
    hide Units, Pow2, Clz128, ShiftRightRound;
    var shift, n := Clz128(signif), exp - EMIN;
    Pow2Zero();
    Pow2Strict(n, shift);
    UnitsRescale(signif, n, EMIN - 127);
    HalfOfRoom(signif, Pow2(n), Pow2(shift));
    UnshiftedSame(mode, signif, sign);
    assert Subnormal(mode, signif, exp, sign) == signif * Pow2(n);
  }

  lemma UnshiftedSame(mode: Mode, signif: u128, sign: bool)
    ensures ShiftRightRound(mode, signif, 0, sign) == signif == signif * 1
  {
  }

  lemma HalfOfRoom(m: nat, p: nat, r: nat)
    requires 2 * p <= r && m * r < U128
    ensures m * p < U127
  {
    MulLe(2 * p, r, m);
    MulAssoc(2, p, m);
    MulAssoc(p, m, 1);
    MulAssoc(r, m, 1);
  }

  /** The subnormal branch that rounds twice. */
  lemma SubnormalTwice(mode: Mode, signif: u128, exp: int, sign: bool)
    requires signif > 0 && exp < EMIN
    ensures var dir, once, c := DirectionOf(mode, sign), Subnormal(mode, signif, exp, sign), Pow2(EMIN - exp);
      && Pow2(EMIN - exp + 64) == c * U64
      && once <= U127
      && RoundDiv(dir, signif, c * U64) <= TOP
      && (RoundDiv(dir, once, U64) == RoundDiv(dir, signif, c * U64) <==>
          !(mode == Nearest && TieLost(signif, once, c)))
  {
    Pow2Monotone(1, EMIN - exp);
    assert Pow2(1) == 2;
    Pow2Of64();
    hide Pow2;
    var dir, k := DirectionOf(mode, sign), EMIN - exp;
    var c := Pow2(k);
    var once := Subnormal(mode, signif, exp, sign);
    Pow2Add(k, 64);
    MulLe(2, c, U127);
    MulAssoc(c, U127, 1);
    RoundDivBound(dir, signif, c, U127);
    MulLe(2, c, U64 * TOP);
    MulAssoc(c, U64, TOP);
    MulAssoc(c * U64, TOP, 1);
    RoundDivBound(dir, signif, c * U64, TOP);
    ShiftRightRoundExact(mode, signif, k, sign);
    if mode == Nearest {
      DoubleRoundingToEven(signif, c);
      DivUnique(1, U64, 0, 1);
      DivUnique(0, U64, 0, 0);
      if k == 128 && signif > U127 {
        Pow2Of128();
        DivUnique(signif, U128, 0, signif);
      }
    } else {
      DoubleRoundingDirected(dir, signif, c);
    }
  }

  /** Below the smallest normal the result is delivered exactly when its
      significand is the rounded number of least units and is not 2^63. */
  lemma SubnormalDelivery(mode: Mode, sign: bool, n: nat, j: nat, r: nat)
    requires j >= 1 && RoundDiv(DirectionOf(mode, sign), n, Pow2(j)) <= TOP && r <= TOP
    ensures Delivers(mode, sign, Number(Units(n, LEAST - j)), F80(r, 0, sign))
            <==> r == RoundDiv(DirectionOf(mode, sign), n, Pow2(j)) && r != TOP
  {
    hide Units, Pow2, RoundsTo;
    var dir, e, f := DirectionOf(mode, sign), Number(Units(n, LEAST - j)), F80(r, 0, sign);
    var g := Grid(RoundDiv(dir, n, Pow2(j)), LEAST);
    LeastUnitsRounded(dir, n, j);
    if Delivers(mode, sign, e, f) {
      var h :| RoundsTo(dir, e, h) && Encodes(mode, sign, h, f);
      RoundingUnique(dir, e, g, h);
    } else {
      assert !Encodes(mode, sign, g, f);
    }
  }

  // ---- the condition on the magnitude is the one on the two roundings ----

  /** A quotient rounded to nearest, against an even whole number. */
  lemma NearestAgainst(n: nat, c: nat, t: nat)
    requires c > 0 && t % 2 == 0
    ensures RoundDiv(ToEven, n, c) >= t <==> 2 * n >= (2 * t - 1) * c
    ensures RoundDiv(ToEven, n, c) <= t <==> 2 * n <= (2 * t + 1) * c
  {
    DivDef(n, c);
    Distribute(2 * t, c);
    MulAssoc(2, t, c);
    NearestParts(n, c, t, n / c, n % c);
  }

  lemma NearestParts(n: nat, c: nat, t: nat, q: nat, rest: nat)
    requires t % 2 == 0 && n == q * c + rest && rest < c
    ensures var r := if 2 * rest < c || (2 * rest == c && q % 2 == 0) then q else q + 1;
      && (r >= t <==> 2 * n >= 2 * (t * c) - c)
      && (r <= t <==> 2 * n <= 2 * (t * c) + c)
  {
    if q < t {
      Order(q + 1, t, c);
      Distribute(q, c);
      if q + 1 < t {
        Order(q + 2, t, c);
        Distribute(q + 1, c);
      }
    } else if q > t {
      Order(t + 1, q, c);
      Distribute(t, c);
    }
  }

  lemma Order(a: nat, b: nat, c: nat)
    ensures a <= b ==> a * c <= b * c
  {
    if a <= b {
      MulLe(a, b, c);
    }
  }

  lemma AwayAgainst(n: nat, c: nat, t: nat)
    requires c > 0
    ensures RoundDiv(AwayFromZero, n, c) > t <==> n > t * c
  {
    DivDef(n, c);
    var q, rest := n / c, n % c;
    Order(q + 1, t, c);
    Order(t + 1, q, c);
    Order(t, q, c);
    Order(q, t, c);
    Distribute(q, c);
    Distribute(t, c);
  }

  /** The second rounding carries to 2^63. */
  lemma SecondCarries(dir: Direction, once: nat)
    requires once <= U127
    ensures RoundDiv(dir, once, U64) == TOP <==>
            match dir
            case TowardZero => once == U127
            case AwayFromZero => once > (TOP - 1) * U64
            case ToEven => once >= CARRY
  {
  }

  lemma CarriesTwice(dir: Direction, n: nat, c: nat)
    requires c > 0 && n < U127 * c
    ensures RoundDiv(dir, n, c) <= U127
    ensures RoundDiv(dir, RoundDiv(dir, n, c), U64) == TOP <==> Carries(dir, n, c)
  {
    hide RoundDiv;
    RoundDivBound(dir, n, c, U127);
    SecondCarries(dir, RoundDiv(dir, n, c));
    match dir
    case TowardZero => ChopBelow(n, c);
    case AwayFromZero => AwayAgainst(n, c, (TOP - 1) * U64);
    case ToEven => NearestAgainst(n, c, CARRY);
  }

  lemma ChopBelow(n: nat, c: nat)
    requires c > 0 && n < U127 * c
    ensures RoundDiv(TowardZero, n, c) < U127
  {
    DivDef(n, c);
    Order(U127, n / c, c);
  }

  lemma TieTwice(n: nat, c: nat)
    requires c > 0
    ensures TieLost(n, RoundDiv(ToEven, n, c), c) <==> TieSlips(n, c)
  {
    hide RoundDiv;
    var once, h := RoundDiv(ToEven, n, c), n / (U64 * c);
    var half := Halfway(n, c);
    DivDef(n, U64 * c);
    MulAssoc(h, U64, c);
    NearestAgainst(n, c, half);
    TieHeight(n, c, once);
    DivUnique(half, U64, h, TOP);
  }

  /** Rounded onto a halfway point, the quotient was between the same two least units. */
  lemma TieHeight(n: nat, c: nat, once: nat)
    requires c > 0 && once == RoundDiv(ToEven, n, c)
    ensures once % U64 == TOP ==> once == Halfway(n, c)
  {
    hide RoundDiv;
    if once % U64 == TOP {
      var h := once / U64;
      NearestAgainst(n, c, once);
      TieInside(n, c, once, h);
      DivUnique(n, U64 * c, h, n - h * (U64 * c));
    }
  }

  lemma TieInside(n: nat, c: nat, t: nat, h: nat)
    requires c > 0 && t == h * U64 + TOP
    requires (2 * t - 1) * c <= 2 * n <= (2 * t + 1) * c
    ensures 0 <= n - h * (U64 * c) < U64 * c
  {
    Distribute(2 * t, c);
    MulAssoc(2, t, c);
    SplitProduct(h, U64, TOP, c);
    MulAssoc(c, U64, 1);
  }

  /** Nothing slips from the smallest normal number on. */
  lemma NormalNoSlip(mode: Mode, signif: u128, exp: int, sign: bool)
    requires signif > 0 && exp - Clz128(signif) >= EMIN
    ensures !Slips(mode, signif, exp, sign)
  {
    hide Pow2, Clz128;
    Pow2Monotone(Clz128(signif), exp - EMIN);
    Pow2Zero();
    MulLe(Pow2(Clz128(signif)), Pow2(exp - EMIN), signif);
    MulAssoc(signif, Pow2(exp - EMIN), 1);
    MulAssoc(signif, Pow2(Clz128(signif)), 1);
  }

  /** With no bits shifted out first there is one rounding, and only the carry can go wrong. */
  lemma SlipsUnshifted(mode: Mode, signif: u128, exp: int, sign: bool)
    requires signif > 0 && EMIN <= exp < EMIN + Clz128(signif)
    ensures var n := signif * Pow2(exp - EMIN);
      n < U127 && (Slips(mode, signif, exp, sign) <==> RoundDiv(DirectionOf(mode, sign), n, U64) == TOP)
  {
    hide Pow2, Clz128, RoundDiv;
    var shift, n := Clz128(signif), signif * Pow2(exp - EMIN);
    Pow2Zero();
    Pow2Strict(exp - EMIN, shift);
    HalfOfRoom(signif, Pow2(exp - EMIN), Pow2(shift));
    CarriesTwice(DirectionOf(mode, sign), n, 1);
    WholeRounds(DirectionOf(mode, sign), n);
    DivDef(n, U64);
  }

  lemma WholeRounds(dir: Direction, n: nat)
    ensures RoundDiv(dir, n, 1) == n
  {
    DivUnique(n, 1, n, 0);
  }

  lemma SlipsShifted(mode: Mode, signif: u128, exp: int, sign: bool)
    requires signif > 0 && exp < EMIN
    ensures var dir, once, c := DirectionOf(mode, sign), Subnormal(mode, signif, exp, sign), Pow2(EMIN - exp);
      Slips(mode, signif, exp, sign)
      <==> RoundDiv(dir, once, U64) == TOP || (mode == Nearest && TieLost(signif, once, c))
  {
    hide Pow2, RoundDiv, TieLost, TieSlips, Carries, ShiftRightRound, Slips, Clz128;
    var dir, k, c := DirectionOf(mode, sign), EMIN - exp, Pow2(EMIN - exp);
    SlipsBelow(mode, signif, exp, sign);
    ShiftRightRoundExact(mode, signif, k, sign);
    if k == 128 && mode == Nearest && signif > U127 {
      Pow2Of128();
      SlipsFarBelow(mode, signif, sign);
    } else {
      CarriesTwice(dir, signif, c);
      TieTwice(signif, c);
    }
  }

  lemma SlipsBelow(mode: Mode, signif: u128, exp: int, sign: bool)
    requires exp < EMIN
    ensures var dir, c := DirectionOf(mode, sign), Pow2(EMIN - exp);
      && signif < U127 * c
      && (Slips(mode, signif, exp, sign) <==> Carries(dir, signif, c) || (dir == ToEven && TieSlips(signif, c)))
  {
    Pow2Monotone(1, EMIN - exp);
    Pow2Zero();
    hide Pow2, TieSlips, Carries;
    var c := Pow2(EMIN - exp);
    MulLe(2, c, U127);
    MulAssoc(c, U127, 1);
    assert signif * 1 == signif;
  }

  /** Shifting by exactly 128 loses everything, and no slip is that small. */
  lemma SlipsFarBelow(mode: Mode, signif: u128, sign: bool)
    requires mode == Nearest && signif > U127
    ensures !Carries(ToEven, signif, U128) && !TieSlips(signif, U128)
    ensures ShiftRightRound(mode, signif, 128, sign) == 0
    ensures RoundDiv(ToEven, 0, U64) != TOP && !TieLost(signif, 0, U128)
  {
    DivUnique(signif, U64 * U128, 0, signif);
  }

  /** u128_normalize_round delivers the correctly rounded result exactly when the
      magnitude it is given does not slip. */
  lemma NormalizeRoundExactly(mode: Mode, signif: u128, exp: int, sign: bool)
    ensures Delivers(mode, sign, Number(Units(signif, exp - 127)), NormalizeRound(mode, signif, exp, sign))
            <==> !Slips(mode, signif, exp, sign)
  {
    hide Units, Pow2, Delivers, Slips, TieLost;
    if signif == 0 {
      UnitsOrder(0, 0, exp - 127);
      ZeroDelivers(mode, sign);
      ZeroNoSlip(mode, exp, sign);
    } else if exp - Clz128(signif) >= EMIN {
      NormalOrNot(signif, exp);
      NormalizeExactDelivers(mode, signif, exp, sign);
      NormalNoSlip(mode, signif, exp, sign);
    } else {
      var dir, once := DirectionOf(mode, sign), Subnormal(mode, signif, exp, sign);
      Pow2Of64();
      ShiftRightRoundExact(mode, once, 64, sign);
      if exp >= EMIN {
        SubnormalExact(mode, signif, exp, sign);
        SlipsUnshifted(mode, signif, exp, sign);
        RoundDivBound(dir, once, U64, TOP);
        SubnormalDelivery(mode, sign, once, 64, RoundDiv(dir, once, U64));
      } else {
        SubnormalTwice(mode, signif, exp, sign);
        SlipsShifted(mode, signif, exp, sign);
        RoundDivBound(dir, once, U64, TOP);
        SubnormalDelivery(mode, sign, signif, EMIN - exp + 64, RoundDiv(dir, once, U64));
      }
    }
  }

  lemma ZeroNoSlip(mode: Mode, exp: int, sign: bool)
    ensures !Slips(mode, 0, exp, sign)
  {
    hide Pow2;
    var c := Pow2(if exp < EMIN then EMIN - exp else 0);
    DivUnique(0, U64 * c, 0, 0);
    MulLe(1, c, CARRY);
  }

  /** The product of finite numbers is correctly rounded exactly when its exact
      magnitude does not slip. */
  lemma MulExactly(mode: Mode, a: F80, b: F80)
    requires a.Finite() && b.Finite()
    ensures 0 <= a.signif * b.signif < U128
    ensures Delivers(mode, a.sign != b.sign, Number(a.Magnitude() * b.Magnitude()), Mul(mode, a, b))
            <==> !Slips(mode, a.signif * b.signif, a.Exponent() + b.Exponent() + 1, a.sign != b.sign)
  {
    hide Units, Delivers, NormalizeRound, Slips;
    MulExact(a, b);
    MulFits(a.signif, b.signif);
    NormalizeRoundExactly(mode, a.signif * b.signif, a.Exponent() + b.Exponent() + 1, a.sign != b.sign);
  }

  /** An input on which multiplication slips: just under 1 times the smallest
      normal gives a significand of 2^63 with exponent field 0. */
  lemma MulUnsupported()
    ensures var a, b := F80(U64 - 1, 0x3ffe, false), F80(TOP, 1, false);
      && a.Finite() && b.Finite()
      && Mul(Nearest, a, b) == F80(TOP, 0, false)
      && !Mul(Nearest, a, b).Supported()
  {
    var p: u128 := (U64 - 1) * TOP;
    assert Clz128(p) == 1 by {
      Pow2Of64();
      assert p / U64 == TOP - 1;
      TopBitUnique(TOP - 1, 62);
    }
    assert Subnormal(Nearest, p, EMIN, false) == p;
    Pow2Of64();
    ShiftRightRoundExact(Nearest, p, 64, false);
    DivUnique(p, U64, TOP - 1, TOP);
  }

  /** And one on which the tie slips: the exact product is just past a halfway point, the
      first rounding drops that, and the result is the even number below. */
  lemma MulTieSlips(a: F80, b: F80)
    requires a == F80(0xe167_37a2_7ed4_d57b, 0x1fff, false) && b == F80(0xfeab_8014_fba7_c1b3, 0x1fff, false)
    ensures a.Finite() && b.Finite()
    ensures Mul(Nearest, a, b) == F80(0x701d_b4f5_bc6b_b242, 0, false)
    ensures Delivers(Nearest, false, Number(a.Magnitude() * b.Magnitude()), F80(0x701d_b4f5_bc6b_b243, 0, false))
  {
    hide Units, Delivers, NormalizeRound;
    MulExact(a, b);
    assert a.signif * b.signif == TIE && a.Exponent() + b.Exponent() + 1 == EMIN - 1;
    assert a.Magnitude() * b.Magnitude() == Units(TIE, LEAST - 65);
    TieRounded();
    TieDelivered();
  }

  const TIE: u128 := 0xe03b69eb78d764850000000000000001

  lemma TieRounded()
    ensures NormalizeRound(Nearest, TIE, EMIN - 1, false) == F80(0x701d_b4f5_bc6b_b242, 0, false)
  {
    hide Pow2, ShiftRightRound, Clz128;
    FullWidth(TIE);
    Pow2Of64();
    Pow2Zero();
    ShiftRightRoundExact(Nearest, TIE, 1, false);
    DivUnique(TIE, 2, TIE / 2, 1);
    ShiftRightRoundExact(Nearest, TIE / 2, 64, false);
    DivUnique(TIE / 2, U64, 0x701d_b4f5_bc6b_b242, TOP);
  }

  lemma TieDelivered()
    ensures Delivers(Nearest, false, Number(Units(TIE, LEAST - 65)), F80(0x701d_b4f5_bc6b_b243, 0, false))
  {
    Pow2Of64();
    assert Pow2(65) == 2 * Pow2(64);
    hide Pow2, Units, Delivers;
    DivUnique(TIE, 2 * U64, 0x701d_b4f5_bc6b_b242, U64 + 1);
    SubnormalDelivery(Nearest, false, TIE, 65, 0x701d_b4f5_bc6b_b243);
  }
}
