/** Addition of emu/float80.c, and exactly when it is correctly rounded. */
module Float80Add {
  import opened NatArith
  import opened Powers
  import opened Rounding
  import opened Float80
  import opened Float80Rounding
  import opened Float80Arithmetic
  import opened Float80Subnormal

  /** Setting the bit an addition carried out of 128 bits. */
  function OrTopBit(x: u128): u128 {
    if x < U127 then x + U127 else x
  }

  /** y's significand at x's weight, with 64 extra bits. */
  function AlignSmaller(mode: Mode, x: F80, y: F80): u128
    requires x.Exponent() >= y.Exponent()
  {
    ShiftRightRound(mode, y.signif * U64, x.Exponent() - y.Exponent(), y.sign)
  }

  /** f80_add after its operands are ordered by exponent. */
  function AddOrdered(mode: Mode, x: F80, y: F80): F80
    requires x.Exponent() >= y.Exponent()
  {
    var large: u128 := x.signif * U64;
    var small := AlignSmaller(mode, x, y);
    if x.sign == y.sign then
      if x.IsInf() then NormalizeRound(mode, large, x.Exponent(), x.sign)
      else if large + small >= U128 then
        NormalizeRound(mode, OrTopBit(ShiftRightRound(mode, large + small - U128, 1, false)), x.Exponent() + 1, x.sign)
      else NormalizeRound(mode, large + small, x.Exponent(), x.sign)
    else if x.IsInf() && y.IsInf() then NAN
    else
      var small := if mode == Chop && small == 0 && y.signif != 0 then 1 else small;
      var small := if x.IsInf() then 0 else small;
      if large == small then Zero(mode == Down)
      else if large > small then NormalizeRound(mode, large - small, x.Exponent(), x.sign)
      else NormalizeRound(mode, small - large, x.Exponent(), !x.sign)
  }

  /** f80_add */
  function Add(mode: Mode, a: F80, b: F80): F80 {
    if Uncomparable(a, b) then NanResult(a, b)
    else if a.Exponent() < b.Exponent() then AddOrdered(mode, b, a)
    else AddOrdered(mode, a, b)
  }

  /** f80_sub */
  function Sub(mode: Mode, a: F80, b: F80): F80 {
    Add(mode, a, b.Neg())
  }

  // ---- operands whose exponents are at most 64 apart: nothing is lost ----

  lemma AlignedExactly(mode: Mode, x: F80, y: F80)
    requires 0 <= x.Exponent() - y.Exponent() <= 64
    ensures var gap := x.Exponent() - y.Exponent();
      && AlignSmaller(mode, x, y) == y.signif * Pow2(64 - gap)
      && y.Magnitude() == Units(y.signif * Pow2(64 - gap), x.Exponent() - 127)
  {
    hide Units, Pow2;
    var gap := x.Exponent() - y.Exponent();
    UnitsRescale(y.signif, 64 - gap, x.Exponent() - 127);
    Pow2Of64();
    Pow2Add(64 - gap, gap);
    MulAssoc(y.signif, Pow2(64 - gap), Pow2(gap));
    ShiftRightRoundExact(mode, y.signif * U64, gap, y.sign);
    DivUnique(y.signif * U64, Pow2(gap), y.signif * Pow2(64 - gap), 0);
  }

  lemma LargeExactly(x: F80)
    ensures x.Magnitude() == Units(x.signif * U64, x.Exponent() - 127)
  {
    Pow2Of64();
    UnitsRescale(x.signif, 64, x.Exponent() - 127);
  }

  /** A sum of multiples of the least unit is delivered as it is. */
  lemma ExactSumDelivers(mode: Mode, s: u128, m: nat, gap: nat, exp: int, sign: bool)
    requires gap <= 64 && s == m * Pow2(64 - gap) && exp - gap >= EMIN
    ensures Delivers(mode, sign, Number(Units(s, exp - 127)), NormalizeRound(mode, s, exp, sign))
    ensures s > 0 ==> NormalizeRound(mode, s, exp, sign).signif > 0
  {
    hide Units, Delivers, NormalizeRound, ShiftRightRound, RoundDiv, Subnormal, Clz128, Slips, Pow2;
    if s > 0 && exp - Clz128(s) < EMIN {
      SubnormalExact(mode, s, exp, sign);
      WholeSubnormal(mode, s, m, gap, exp, sign);
      SlipsUnshifted(mode, s, exp, sign);
      Pow2Of64();
      ShiftRightRoundExact(mode, s * Pow2(exp - EMIN), 64, sign);
    } else if s > 0 {
      NormalNonzero(mode, s, exp, sign);
      NormalNoSlip(mode, s, exp, sign);
    } else {
      ZeroNoSlip(mode, exp, sign);
    }
    NormalizeRoundExactly(mode, s, exp, sign);
  }

  lemma NormalNonzero(mode: Mode, s: u128, exp: int, sign: bool)
    requires s > 0 && exp - Clz128(s) >= EMIN
    ensures NormalizeRound(mode, s, exp, sign).signif >= TOP
    ensures NormalizeRound(mode, s, exp, sign).Supported()
    ensures NormalizeRound(mode, s, exp, sign).sign == sign
  {
    NormalizeRoundEncodes(mode, s, exp, sign);
  }

  lemma WholeSubnormal(mode: Mode, s: u128, m: nat, gap: nat, exp: int, sign: bool)
    requires gap <= 64 && s == m * Pow2(64 - gap) && exp - gap >= EMIN
    requires s > 0 && exp - Clz128(s) < EMIN
    ensures 0 < ShiftRightRound(mode, Subnormal(mode, s, exp, sign), 64, sign) < TOP
    ensures NormalizeRound(mode, s, exp, sign)
         == F80(ShiftRightRound(mode, Subnormal(mode, s, exp, sign), 64, sign), 0, sign)
  {
    hide Units, Pow2;
    var once := Subnormal(mode, s, exp, sign);
    var k := exp - EMIN;
    SubnormalShift(mode, s, exp, sign);
    Pow2Add(64 - gap, k);
    Pow2Add(k - gap, 64);
    MulAssoc(m, Pow2(64 - gap), Pow2(k));
    MulAssoc(m, Pow2(k - gap), Pow2(64));
    Pow2Of64();
    var c := m * Pow2(k - gap);
    ShiftRightRoundExact(mode, once, 64, sign);
    DivUnique(once, U64, c, 0);
    MulCancel(c, TOP, U64);
    MulLe(1, Pow2(k), s);
    MulAssoc(Pow2(k), s, 1);
  }

  lemma SubnormalShift(mode: Mode, s: u128, exp: int, sign: bool)
    requires s > 0 && EMIN <= exp < EMIN + Clz128(s)
    ensures Subnormal(mode, s, exp, sign) == s * Pow2(exp - EMIN) < U127
  {
    hide Pow2, ShiftRightRound, Clz128;
    Pow2Zero();
    UnshiftedSame(mode, s, sign);
    Pow2Strict(exp - EMIN, Clz128(s));
    HalfOfRoom(s, Pow2(exp - EMIN), Pow2(Clz128(s)));
  }

  /** What a sum must be: the correctly rounded one, unless it is zero; then +0,
      or -0 when rounding down, except that like-signed zeros keep their sign. */
  ghost predicate SumDelivered(mode: Mode, a: F80, b: F80, f: F80) {
    var sum := a.Value() + b.Value();
    if sum == 0.0 then f == Zero(if a.sign == b.sign then a.sign else mode == Down)
    else Delivers(mode, sum < 0.0, Number(if sum < 0.0 then -sum else sum), f)
  }

  /** The sign and the zeros of a sum are right, whatever else rounding does. */
  ghost predicate SumSigned(a: F80, b: F80, f: F80) {
    var sum := a.Value() + b.Value();
    && f.Supported()
    && (sum < 0.0 ==> f.sign && !f.IsZero())
    && (sum == 0.0 ==> f.IsZero())
    && (sum > 0.0 ==> !f.sign && !f.IsZero())
  }

  lemma ExactSupported(mode: Mode, s: u128, m: nat, gap: nat, exp: int, sign: bool)
    requires gap <= 64 && s == m * Pow2(64 - gap) && exp - gap >= EMIN && s > 0
    ensures var f := NormalizeRound(mode, s, exp, sign);
      f.Supported() && f.sign == sign && !f.IsZero()
  {
    hide Units, NormalizeRound, ShiftRightRound, Subnormal, Clz128;
    if exp - Clz128(s) < EMIN {
      WholeSubnormal(mode, s, m, gap, exp, sign);
    } else {
      NormalNonzero(mode, s, exp, sign);
    }
  }

  /** A sum that carried out of 128 bits lost nothing: the bit shifted out was 0. */
  lemma CarriedSum(mode: Mode, s: nat, exp: int, sign: bool)
    requires U128 <= s < 2 * U128 && s % 2 == 0 && exp >= EMIN
    ensures OrTopBit(ShiftRightRound(mode, s - U128, 1, false)) == s / 2
    ensures Delivers(mode, sign, Number(Units(s, exp - 127)), NormalizeRound(mode, s / 2, exp + 1, sign))
    ensures var f := NormalizeRound(mode, s / 2, exp + 1, sign); f.Supported() && f.sign == sign && !f.IsZero()
  {
    Pow2Zero();
    hide Units, Pow2, Delivers, NormalizeRound, Clz128;
    UnitsDouble(s / 2, exp - 127);
    FullWidth(s / 2);
    NormalOrNot(s / 2, exp + 1);
    NormalizeExactDelivers(mode, s / 2, exp + 1, sign);
    NormalNonzero(mode, s / 2, exp + 1, sign);
  }

  /** Operands at most 64 exponents apart are added exactly and rounded once. */
  lemma AddNear(mode: Mode, x: F80, y: F80)
    requires x.Finite() && y.Finite() && 0 <= x.Exponent() - y.Exponent() <= 64
    ensures SumDelivered(mode, x, y, AddOrdered(mode, x, y))
    ensures SumSigned(x, y, AddOrdered(mode, x, y))
  {
    hide SumDelivered, SumSigned;
    if x.sign == y.sign {
      AddNearLike(mode, x, y);
    } else {
      AddNearUnlike(mode, x, y);
    }
  }

  lemma AddNearLike(mode: Mode, x: F80, y: F80)
    requires x.Finite() && y.Finite() && 0 <= x.Exponent() - y.Exponent() <= 64 && x.sign == y.sign
    ensures SumDelivered(mode, x, y, AddOrdered(mode, x, y))
    ensures SumSigned(x, y, AddOrdered(mode, x, y))
  {
    hide *;
    if x.signif * U64 + y.signif * Pow2(64 - (x.Exponent() - y.Exponent())) >= U128 {
      AddNearCarries(mode, x, y);
    } else {
      AddNearFits(mode, x, y);
    }
  }

  lemma AddNearCarries(mode: Mode, x: F80, y: F80)
    requires x.Finite() && y.Finite() && 0 <= x.Exponent() - y.Exponent() <= 64 && x.sign == y.sign
    requires x.signif * U64 + y.signif * Pow2(64 - (x.Exponent() - y.Exponent())) >= U128
    ensures SumDelivered(mode, x, y, AddOrdered(mode, x, y))
    ensures SumSigned(x, y, AddOrdered(mode, x, y))
  {
    hide Units, Pow2, Delivers, NormalizeRound, ShiftRightRound;
    var gap, w := x.Exponent() - y.Exponent(), x.Exponent() - 127;
    var large, small := x.signif * U64, y.signif * Pow2(64 - gap);
    LargeExactly(x);
    AlignedExactly(mode, x, y);
    UnitsSum(large, small, w);
    NearCarry(x.signif, y.signif, gap);
    CarriedSum(mode, large + small, x.Exponent(), x.sign);
    UnitsOrder(0, large + small, w);
  }

  lemma AddNearFits(mode: Mode, x: F80, y: F80)
    requires x.Finite() && y.Finite() && 0 <= x.Exponent() - y.Exponent() <= 64 && x.sign == y.sign
    requires x.signif * U64 + y.signif * Pow2(64 - (x.Exponent() - y.Exponent())) < U128
    ensures SumDelivered(mode, x, y, AddOrdered(mode, x, y))
    ensures SumSigned(x, y, AddOrdered(mode, x, y))
  {
    hide Units, Pow2, Delivers, NormalizeRound, ShiftRightRound;
    var gap, w := x.Exponent() - y.Exponent(), x.Exponent() - 127;
    var large, small := x.signif * U64, y.signif * Pow2(64 - gap);
    LargeExactly(x);
    AlignedExactly(mode, x, y);
    NearMultiples(x.signif, y.signif, gap);
    UnitsSum(large, small, w);
    NearSum(mode, large + small, x.signif * Pow2(gap) + y.signif, gap, x.Exponent(), x.sign);
  }

  lemma AddNearUnlike(mode: Mode, x: F80, y: F80)
    requires x.Finite() && y.Finite() && 0 <= x.Exponent() - y.Exponent() <= 64 && x.sign != y.sign
    ensures SumDelivered(mode, x, y, AddOrdered(mode, x, y))
    ensures SumSigned(x, y, AddOrdered(mode, x, y))
  {
    hide Units, Pow2, Delivers, NormalizeRound, ShiftRightRound;
    var gap, w := x.Exponent() - y.Exponent(), x.Exponent() - 127;
    var large, small := x.signif * U64, y.signif * Pow2(64 - gap);
    LargeExactly(x);
    AlignedExactly(mode, x, y);
    NearMultiples(x.signif, y.signif, gap);
    UnitsSum(large, small, w);
    UnitsSum(small, large, w);
    if large > small {
      NearSum(mode, large - small, x.signif * Pow2(gap) - y.signif, gap, x.Exponent(), x.sign);
    } else if large < small {
      NearSum(mode, small - large, y.signif - x.signif * Pow2(gap), gap, x.Exponent(), !x.sign);
    }
  }

  lemma NearSum(mode: Mode, s: u128, m: nat, gap: nat, exp: int, sign: bool)
    requires gap <= 64 && s == m * Pow2(64 - gap) && exp - gap >= EMIN
    ensures s == 0 ==> NormalizeRound(mode, s, exp, sign) == Zero(sign) && Units(s, exp - 127) == 0.0
    ensures s > 0 ==> Delivers(mode, sign, Number(Units(s, exp - 127)), NormalizeRound(mode, s, exp, sign))
    ensures s > 0 ==> Units(s, exp - 127) > 0.0
    ensures s > 0 ==> var f := NormalizeRound(mode, s, exp, sign); f.Supported() && f.sign == sign && !f.IsZero()
  {
    UnitsOrder(0, s, exp - 127);
    hide Units, Pow2, Delivers;
    if s > 0 {
      ExactSumDelivers(mode, s, m, gap, exp, sign);
      ExactSupported(mode, s, m, gap, exp, sign);
    }
  }

  /** Sums and differences of aligned significands, as multiples of 2^(64 - gap). */
  lemma NearMultiples(a: nat, b: nat, gap: nat)
    requires gap <= 64 && b < U64
    ensures 0 <= a * Pow2(gap)
    ensures var p := Pow2(64 - gap);
      && a * U64 + b * p == (a * Pow2(gap) + b) * p
      && a * U64 - b * p == (a * Pow2(gap) - b) * p
      && b * p - a * U64 == (b - a * Pow2(gap)) * p
      && 0 <= b * p < U128
      && (b <= a * Pow2(gap) <==> b * p <= a * U64)
      && (b >= a * Pow2(gap) <==> b * p >= a * U64)
      && (b > 0 ==> b * p > 0)
  {
    hide Pow2;
    var p, r := Pow2(64 - gap), Pow2(gap);
    Pow2Of64();
    Pow2Add(gap, 64 - gap);
    MulAssoc(a, r, p);
    MulLe(0, r, a);
    MulAssoc(r, a, 1);
    Distribution(a * r, b, p);
    MulCancel(b, a * r, p);
    MulCancel(a * r, b, p);
    NearFits(b, p, 64 - gap);
  }

  lemma NearFits(b: nat, p: nat, n: nat)
    requires b < U64 && n <= 64 && p == Pow2(n)
    ensures 0 <= b * p < U128
    ensures b > 0 ==> b * p > 0
  {
    Pow2Monotone(n, 64);
    hide Pow2;
    Pow2Of64();
    MulLe(b, U64 - 1, p);
    MulLe(p, U64, U64 - 1);
    MulAssoc(p, U64 - 1, 1);
    if b > 0 {
      MulLe(1, b, p);
    }
  }

  /** When the sum carries, y was shifted by less than 64: the sum is even. */
  lemma NearCarry(a: nat, b: nat, gap: nat)
    requires gap <= 64 && b < U64 && a < U64
    requires a * U64 + b * Pow2(64 - gap) >= U128
    ensures (a * U64 + b * Pow2(64 - gap)) % 2 == 0
    ensures a * U64 + b * Pow2(64 - gap) < 2 * U128
  {
    Pow2Zero();
    NearFits(b, Pow2(64 - gap), 64 - gap);
    if gap < 64 {
      assert Pow2(64 - gap) == 2 * Pow2(63 - gap);
      hide Pow2;
      MulAssoc(b, 2, Pow2(63 - gap));
      MulSwap(b, 2, Pow2(63 - gap));
    }
  }

  lemma Distribution(m: int, b: int, p: int)
    ensures (m + b) * p == m * p + b * p
    ensures (m - b) * p == m * p - b * p
    ensures (b - m) * p == b * p - m * p
  {
  }

  // ---- operands more than 64 exponents apart: y is less than half of x's last place ----

  /** The correct rounding of a units of weight 2^q plus or minus y, y less than half a unit. */
  ghost function FarGrid(dir: Direction, a: nat, q: int, y: real, subtract: bool): Grid {
    if !subtract then Carry(if dir == AwayFromZero && y > 0.0 then a + 1 else a, q)
    else if a > TOP then Carry(if dir == TowardZero && y > 0.0 then a - 1 else a, q)
    else
      Carry(if (dir == TowardZero && y > 0.0) || (dir == ToEven && y > Units(1, q - 2)) then FULL - 1 else FULL, q - 1)
  }

  lemma FarRounded(dir: Direction, a: nat, q: int, y: real, subtract: bool)
    requires TOP <= a < FULL && q - 1 > LEAST && 0.0 <= y < Units(1, q - 1)
    ensures RoundsTo(dir, Number(if subtract then Units(a, q) - y else Units(a, q) + y),
        FarGrid(dir, a, q, y, subtract))
  {
    hide Units, RoundsTo;
    if !subtract {
      FarRoundedAbove(dir, a, q, y);
    } else if a > TOP {
      FarRoundedBelow(dir, a, q, y);
    } else {
      FarRoundedBelowTop(dir, q, y);
    }
  }

  /** The halves and quarters of the last place that the comparisons below use. */
  lemma FarUnits(a: int, q: int)
    ensures Units(a + 1, q) == Units(a, q) + Units(1, q)
    ensures Units(a - 1, q) == Units(a, q) - Units(1, q)
    ensures Units(2 * a, q - 1) == Units(a, q) && Units(2, q - 1) == Units(1, q)
    ensures Units(2 * a + 1, q - 1) == Units(a, q) + Units(1, q - 1)
    ensures Units(2 * a - 1, q - 1) == Units(a, q) - Units(1, q - 1)
    ensures Units(1, q) == Units(1, q - 1) + Units(1, q - 1)
    ensures Units(1, q - 1) > 0.0
  {
    hide Units;
    UnitsSum(a, 1, q);
    UnitsDouble(a, q - 1);
    UnitsDouble(1, q - 1);
    UnitsSum(2 * a, 1, q - 1);
    UnitsSum(1, 1, q - 1);
    UnitsOrder(0, 1, q - 1);
  }

  lemma FarRoundedAbove(dir: Direction, a: nat, q: int, y: real)
    requires TOP <= a < FULL && q - 1 > LEAST && 0.0 <= y < Units(1, q - 1)
    ensures RoundsTo(dir, Number(Units(a, q) + y), FarGrid(dir, a, q, y, false))
  {
    hide Units, RoundsTo;
    FarUnits(a, q);
    UnitsOrder(TOP, a, q);
    var e := Number(Units(a, q) + y);
    match dir
    case TowardZero => DownByNeighbours(e, a, q);
    case AwayFromZero => UpByNeighbours(e, if y > 0.0 then a + 1 else a, q);
    case ToEven => NearestByNeighbours(e, a, q);
  }

  lemma FarRoundedBelow(dir: Direction, a: nat, q: int, y: real)
    requires TOP < a < FULL && q - 1 > LEAST && 0.0 <= y < Units(1, q - 1)
    ensures RoundsTo(dir, Number(Units(a, q) - y), FarGrid(dir, a, q, y, true))
  {
    hide Units, RoundsTo;
    FarUnits(a, q);
    UnitsOrder(TOP, a - 1, q);
    var e := Number(Units(a, q) - y);
    match dir
    case TowardZero => DownByNeighbours(e, if y > 0.0 then a - 1 else a, q);
    case AwayFromZero => UpByNeighbours(e, a, q);
    case ToEven => NearestByNeighbours(e, a, q);
  }

  lemma FarRoundedBelowTop(dir: Direction, q: int, y: real)
    requires q - 1 > LEAST && 0.0 <= y < Units(1, q - 1)
    ensures RoundsTo(dir, Number(Units(TOP, q) - y), FarGrid(dir, TOP, q, y, true))
  {
    hide Units, RoundsTo;
    FarUnits(TOP, q);
    FarUnits(FULL, q - 1);
    FarUnits(FULL - 1, q - 1);
    UnitsOrder(TOP, FULL - 1, q - 1);
    var e := Number(Units(TOP, q) - y);
    match dir
    case TowardZero =>
      if y > 0.0 {
        DownByNeighbours(e, FULL - 1, q - 1);
      } else {
        CarryDown(q);
        DownByNeighbours(e, TOP, q);
      }
    case AwayFromZero => UpByNeighbours(e, FULL, q - 1);
    case ToEven => NearestByNeighbours(e, if y > Units(1, q - 2) then FULL - 1 else FULL, q - 1);
  }

  lemma CarryDown(q: int)
    ensures Carry(FULL, q - 1) == Grid(TOP, q)
  {
  }

  /** The one family of operands f80_add rounds wrongly, to nearest only: y is cut
      to 64 bits below x's last place, one bit too many is dropped, and the cut
      value lands on a halfway point the exact sum is not on. */
  predicate AddSlips(mode: Mode, x: F80, y: F80) {
    && mode == Nearest
    && x.Exponent() - y.Exponent() == 65
    && ((y.signif == U64 - 1 && x.signif % 2 == 1)
        || (x.sign != y.sign && x.signif == TOP && y.signif == TOP + 1))
  }

  const QUARTER: nat := 0x4000_0000_0000_0000      // 2^62

  /** What the aligned significand k tells about y, in a given direction. */
  ghost predicate FarCut(dir: Direction, k: nat, b: nat, gap: nat) {
    && k <= TOP
    && (b == 0 ==> k == 0)
    && (dir == TowardZero ==> k < TOP)
    && (dir == AwayFromZero && b > 0 ==> k > 0)
    && (dir == ToEven ==>
          && (k == TOP <==> gap == 65 && b == U64 - 1)
          && (k > QUARTER <==> gap == 65 && b > TOP + 1))
  }

  /** The aligned significand, as a rounded quotient; the shift by exactly 128 may lose it. */
  lemma FarValue(mode: Mode, x: F80, y: F80)
    requires x.Exponent() - y.Exponent() > 64
    ensures var gap, k := x.Exponent() - y.Exponent(), AlignSmaller(mode, x, y);
      || k == RoundDiv(DirectionOf(mode, y.sign), y.signif, Pow2(gap - 64))
      || (gap == 128 && mode == Nearest && k == 0)
  {
    hide Pow2, ShiftRightRound;
    var gap, n := x.Exponent() - y.Exponent(), y.signif * U64;
    Pow2Of64();
    Pow2Add(64, gap - 64);
    MulAssoc(Pow2(gap - 64), U64, 1);
    ShiftRightRoundExact(mode, n, gap, y.sign);
    FarQuotient(DirectionOf(mode, y.sign), y.signif, Pow2(gap - 64), Pow2(gap));
    if gap == 128 && mode == Nearest && n > U127 {
      FarLost(mode, n, y.sign);
    }
  }

  lemma FarAligned(mode: Mode, x: F80, y: F80)
    requires x.Exponent() - y.Exponent() > 64
    ensures FarCut(DirectionOf(mode, y.sign), AlignSmaller(mode, x, y), y.signif, x.Exponent() - y.Exponent())
  {
    var gap, dir := x.Exponent() - y.Exponent(), DirectionOf(mode, y.sign);
    FarValue(mode, x, y);
    Pow2Monotone(1, gap - 64);
    Pow2Two();
    if gap > 65 {
      Pow2Monotone(2, gap - 64);
    }
    hide Pow2, AlignSmaller;
    FarBounds(dir, y.signif, Pow2(gap - 64));
  }

  lemma FarLost(mode: Mode, n: u128, sign: bool)
    requires mode == Nearest
    ensures ShiftRightRound(mode, n, 128, sign) == 0
  {
  }

  lemma Pow2Two()
    ensures Pow2(1) == 2 && Pow2(2) == 4
  {
  }

  lemma FarQuotient(dir: Direction, b: u64, c: nat, d: nat)
    requires c > 0 && d == c * U64
    ensures RoundDiv(dir, b * U64, d) == RoundDiv(dir, b, c)
  {
    DivDef(b, c);
    var q, rest := b / c, b % c;
    SplitProduct(q, c, rest, U64);
    MulLt(rest, c, U64);
    DivUnique(b * U64, d, q, rest * U64);
  }

  lemma FarBounds(dir: Direction, b: u64, c: nat)
    requires c == 2 || c >= 4
    ensures RoundDiv(dir, b, c) <= TOP
    ensures dir == TowardZero ==> RoundDiv(dir, b, c) < TOP
    ensures dir == AwayFromZero && b > 0 ==> RoundDiv(dir, b, c) > 0
    ensures b == 0 ==> RoundDiv(dir, b, c) == 0
    ensures c >= 4 ==> RoundDiv(dir, b, c) <= QUARTER
    ensures c == 2 && dir == ToEven ==> (RoundDiv(dir, b, c) == TOP <==> b == U64 - 1)
    ensures c == 2 && dir == ToEven ==> (RoundDiv(dir, b, c) > QUARTER <==> b > TOP + 1)
  {
    DivDef(b, c);
    if c >= 4 {
      MulLe(4, c, QUARTER);
      MulAssoc(c, QUARTER, 1);
      RoundDivBound(dir, b, c, QUARTER);
      if b / c == 0 {
        assert b % c == b;
      }
      if b == 0 {
        DivUnique(0, c, 0, 0);
      }
    }
  }

  /** The result of f80_add for far operands, as a member of the format. */
  function FarResult(dir: Direction, a: nat, q: int, k: nat, subtract: bool): Grid
    requires TOP <= a < U64 && k <= TOP
  {
    if !subtract then Carry(RoundDiv(dir, a * U64 + k, U64), q)
    else if a > TOP || k == 0 then Carry(RoundDiv(dir, a * U64 - k, U64), q)
    else Carry(RoundDiv(dir, U128 - 2 * k, U64), q - 1)
  }

  /** It is the correct rounding unless a tie was made up. */
  lemma FarAgrees(dir: Direction, a: nat, q: int, k: nat, y: real, subtract: bool)
    requires TOP <= a < U64 && k <= TOP && 0.0 <= y
    requires dir == TowardZero ==> (y > 0.0 <==> k > 0) || !subtract
    requires dir == TowardZero && !subtract ==> k < TOP
    requires dir == AwayFromZero ==> (y > 0.0 <==> k > 0) || subtract
    requires dir == AwayFromZero && subtract ==> k < TOP
    requires y == 0.0 ==> k == 0
    ensures dir != ToEven ==> FarResult(dir, a, q, k, subtract) == FarGrid(dir, a, q, y, subtract)
    ensures dir == ToEven && (!subtract || a > TOP) ==>
              (FarResult(dir, a, q, k, subtract) == FarGrid(dir, a, q, y, subtract) <==> !(k == TOP && a % 2 == 1))
    ensures dir == ToEven && subtract && a == TOP ==>
              (FarResult(dir, a, q, k, subtract) == FarGrid(dir, a, q, y, subtract) <==>
                  (k > QUARTER <==> y > Units(1, q - 2)))
  {
    hide Units, FarResult, FarGrid;
    if subtract && a == TOP {
      FarAgreesAtTop(dir, q, k, y);
    } else {
      FarAgreesInside(dir, a, q, k, y, subtract);
    }
  }

  lemma FarAgreesInside(dir: Direction, a: nat, q: int, k: nat, y: real, subtract: bool)
    requires TOP <= a < U64 && k <= TOP && 0.0 <= y && (subtract ==> a > TOP)
    requires dir == TowardZero ==> (y > 0.0 <==> k > 0) || !subtract
    requires dir == TowardZero && !subtract ==> k < TOP
    requires dir == AwayFromZero ==> (y > 0.0 <==> k > 0) || subtract
    requires dir == AwayFromZero && subtract ==> k < TOP
    requires y == 0.0 ==> k == 0
    ensures FarResult(dir, a, q, k, subtract) == FarGrid(dir, a, q, y, subtract)
            <==> !(dir == ToEven && k == TOP && a % 2 == 1)
  {
    hide Units;
  }

  lemma FarAgreesAtTop(dir: Direction, q: int, k: nat, y: real)
    requires k <= TOP && 0.0 <= y
    requires dir == TowardZero ==> (y > 0.0 <==> k > 0)
    requires dir == AwayFromZero ==> k < TOP
    requires y == 0.0 ==> k == 0
    ensures dir != ToEven ==> FarResult(dir, TOP, q, k, true) == FarGrid(dir, TOP, q, y, true)
    ensures dir == ToEven ==>
              (FarResult(dir, TOP, q, k, true) == FarGrid(dir, TOP, q, y, true) <==>
                  (k > QUARTER <==> y > Units(1, q - 2)))
  {
    hide Units;
    if k > 0 {
      DivUnique(U128 - 2 * k, U64, U64 - 1, U64 - 2 * k);
    }
  }

  /** y against the quarter of x's last place. */
  lemma FarQuarter(x: F80, y: F80)
    requires x.Exponent() - y.Exponent() > 64
    ensures 0.0 <= y.Magnitude() < Units(1, x.Exponent() - 64)
    ensures y.Magnitude() > 0.0 <==> y.signif > 0
    ensures y.Magnitude() > Units(1, x.Exponent() - 65) <==> x.Exponent() - y.Exponent() == 65 && y.signif > TOP
  {
    hide Units, Pow2;
    Pow2Of64();
    UnitsOrder(0, y.signif, y.Exponent() - 63);
    UnitsRescale(1, 64, x.Exponent() - 128);
    UnitsLess(y.signif, y.Exponent() - 63, FULL, x.Exponent() - 128);
    if x.Exponent() - y.Exponent() == 65 {
      UnitsRescale(1, 63, y.Exponent() - 63);
      UnitsOrder(TOP, y.signif, y.Exponent() - 63);
    } else {
      UnitsRescale(1, 64, x.Exponent() - 129);
      UnitsLess(y.signif, y.Exponent() - 63, FULL, x.Exponent() - 129);
    }
  }

  /** AddOrdered on far operands returns the encoding of FarResult. */
  lemma FarComputed(mode: Mode, x: F80, y: F80)
    requires x.Finite() && y.Finite() && x.Exponent() - y.Exponent() > 64
    ensures x.signif >= TOP && AlignSmaller(mode, x, y) <= TOP
    ensures var k := AlignSmaller(mode, x, y);
      var k' := if mode == Chop && k == 0 && y.signif != 0 && x.sign != y.sign then 1 else k;
      Encodes(mode, x.sign, FarResult(DirectionOf(mode, x.sign), x.signif, x.Exponent() - 63, k', x.sign != y.sign),
              AddOrdered(mode, x, y))
  {
    FarAligned(mode, x, y);
    hide NormalizeRound, Encodes, AlignSmaller, RoundDiv, Pow2, Clz128, FarResult, AddOrdered;
    if x.sign == y.sign {
      FarLike(mode, x, y);
    } else {
      FarUnlike(mode, x, y);
    }
  }

  lemma FarLike(mode: Mode, x: F80, y: F80)
    requires x.Finite() && x.Exponent() - y.Exponent() > 64 && x.sign == y.sign
    requires x.signif >= TOP && AlignSmaller(mode, x, y) <= TOP
    ensures Encodes(mode, x.sign,
        FarResult(DirectionOf(mode, x.sign), x.signif, x.Exponent() - 63, AlignSmaller(mode, x, y), false),
                    AddOrdered(mode, x, y))
  {
    hide NormalizeRound, Encodes, AlignSmaller, RoundDiv;
    FullEncodes(mode, x.signif * U64 + AlignSmaller(mode, x, y), x.Exponent(), x.sign);
  }

  lemma FarUnlike(mode: Mode, x: F80, y: F80)
    requires x.Finite() && y.Finite() && x.Exponent() - y.Exponent() > 64 && x.sign != y.sign
    requires x.signif >= TOP && AlignSmaller(mode, x, y) <= TOP
    ensures var k := AlignSmaller(mode, x, y);
      var k' := if mode == Chop && k == 0 && y.signif != 0 then 1 else k;
      Encodes(mode, x.sign, FarResult(DirectionOf(mode, x.sign), x.signif, x.Exponent() - 63, k', true),
          AddOrdered(mode, x, y))
  {
    hide NormalizeRound, Encodes, AlignSmaller, RoundDiv;
    var k := AlignSmaller(mode, x, y);
    var k' := if mode == Chop && k == 0 && y.signif != 0 then 1 else k;
    if x.signif > TOP || k' == 0 {
      FullEncodes(mode, x.signif * U64 - k', x.Exponent(), x.sign);
    } else {
      HalfEncodes(mode, U127 - k', x.Exponent(), x.sign);
    }
  }

  lemma FullEncodes(mode: Mode, s: u128, exp: int, sign: bool)
    requires s >= U127 && exp >= EMIN
    ensures Encodes(mode, sign, Carry(RoundDiv(DirectionOf(mode, sign), s, U64), exp - 63),
        NormalizeRound(mode, s, exp, sign))
  {
    hide NormalizeRound, Encodes, RoundDiv, Pow2, Clz128;
    FullWidth(s);
    NormalizeRoundEncodes(mode, s, exp, sign);
  }

  lemma HalfEncodes(mode: Mode, s: u128, exp: int, sign: bool)
    requires U127 <= 2 * s < U128 && exp > EMIN
    ensures Encodes(mode, sign, Carry(RoundDiv(DirectionOf(mode, sign), 2 * s, U64), exp - 64),
        NormalizeRound(mode, s, exp, sign))
  {
    hide NormalizeRound, Encodes, RoundDiv;
    HalfWidth(s);
    hide Pow2, Clz128;
    NormalizeRoundEncodes(mode, s, exp, sign);
  }

  lemma HalfWidth(s: u128)
    requires U127 <= 2 * s < U128
    ensures Clz128(s) == 1 && s * Pow2(1) == 2 * s
  {
    Pow2Zero();
    hide Pow2;
    var n := Clz128(s);
    if n > 1 {
      Pow2Monotone(2, n);
      Pow2Two();
      MulLe(4, Pow2(n), s);
      MulAssoc(Pow2(n), s, 1);
    }
    MulAssoc(Pow2(n), s, 1);
  }

  /** Unless overflow is cut to the largest number, a finite encoding names one member of the format. */
  lemma EncodingInjective(mode: Mode, sign: bool, g: Grid, h: Grid, f: F80)
    requires DirectionOf(mode, sign) != TowardZero
    requires g.Canonical() && h.Canonical() && g.q <= GREATEST
    requires Encodes(mode, sign, g, f) && Encodes(mode, sign, h, f)
    ensures g == h
  {
  }

  /** A result encoding a member other than the correct one is not delivered. */
  lemma NotDelivered(mode: Mode, sign: bool, e: Exact, g: Grid, h: Grid, f: F80)
    requires RoundsTo(DirectionOf(mode, sign), e, g) && g.q <= GREATEST
    requires DirectionOf(mode, sign) != TowardZero && h.Canonical() && Encodes(mode, sign, h, f) && g != h
    ensures !Delivers(mode, sign, e, f)
  {
    assert g.Canonical();
    hide RoundsTo;
    if Delivers(mode, sign, e, f) {
      var k :| RoundsTo(DirectionOf(mode, sign), e, k) && Encodes(mode, sign, k, f);
      RoundingUnique(DirectionOf(mode, sign), e, g, k);
      EncodingInjective(mode, sign, g, h, f);
    }
  }

  /** x dominates the sum of far operands. */
  lemma FarSum(x: F80, y: F80)
    requires x.Finite() && y.Finite() && x.Exponent() - y.Exponent() > 64
    ensures var sum, mx, my := x.Value() + y.Value(), x.Magnitude(), y.Magnitude();
      var e := if x.sign != y.sign then mx - my else mx + my;
      sum != 0.0 && (sum < 0.0 <==> x.sign) && e == if sum < 0.0 then -sum else sum
  {
    hide Units;
    FarQuarter(x, y);
    FarUnits(1, x.Exponent() - 63);
    UnitsOrder(1, x.signif, x.Exponent() - 63);
  }

  lemma FarResultCanonical(dir: Direction, a: nat, q: int, k: nat, subtract: bool)
    requires TOP <= a < U64 && k <= TOP && q - 1 > LEAST
    ensures FarResult(dir, a, q, k, subtract).Canonical() && FarResult(dir, a, q, k, subtract).s >= TOP
  {
    if subtract && a == TOP && k > 0 {
      DivUnique(U128 - 2 * k, U64, U64 - 1, U64 - 2 * k);
    }
  }

  /** Far operands: the sign is right, and the rounding is right unless it slips. */
  lemma AddFar(mode: Mode, x: F80, y: F80)
    requires x.Finite() && y.Finite() && x.Exponent() - y.Exponent() > 64
    ensures SumSigned(x, y, AddOrdered(mode, x, y))
    ensures SumDelivered(mode, x, y, AddOrdered(mode, x, y)) <==> !AddSlips(mode, x, y)
  {
    hide Units, RoundsTo, AddOrdered, AlignSmaller, FarResult, FarGrid;
    var dir, q, subtract := DirectionOf(mode, x.sign), x.Exponent() - 63, x.sign != y.sign;
    var k0 := AlignSmaller(mode, x, y);
    var k := if mode == Chop && k0 == 0 && y.signif != 0 && subtract then 1 else k0;
    var mx, my := x.Magnitude(), y.Magnitude();
    var e := Number(if subtract then mx - my else mx + my);
    FarQuarter(x, y);
    FarAligned(mode, x, y);
    FarComputed(mode, x, y);
    FarRounded(dir, x.signif, q, my, subtract);
    FarAgrees(dir, x.signif, q, k, my, subtract);
    FarSum(x, y);
    FarResultCanonical(dir, x.signif, q, k, subtract);
    var g, h := FarGrid(dir, x.signif, q, my, subtract), FarResult(dir, x.signif, q, k, subtract);
    if g != h {
      FarGridFinite(x.signif, q, my, subtract);
      NotDelivered(mode, x.sign, e, g, h, AddOrdered(mode, x, y));
    }
  }

  lemma FarGridFinite(a: nat, q: int, y: real, subtract: bool)
    requires TOP <= a < FULL && q <= GREATEST
    ensures FarGrid(ToEven, a, q, y, subtract).q <= GREATEST
  {
  }

  // ---- all finite operands ----

  /** a and b in the order f80_add works on them: the larger exponent first. */
  function Larger(a: F80, b: F80): F80 {
    if a.Exponent() < b.Exponent() then b else a
  }

  function Smaller(a: F80, b: F80): F80 {
    if a.Exponent() < b.Exponent() then a else b
  }

  lemma SumSymmetric(mode: Mode, a: F80, b: F80, f: F80)
    ensures SumDelivered(mode, a, b, f) <==> SumDelivered(mode, b, a, f)
    ensures SumSigned(a, b, f) <==> SumSigned(b, a, f)
  {
    hide Units, Delivers;
    if a.Value() + b.Value() == 0.0 && a.sign == b.sign {
      assert b.Value() + a.Value() == 0.0;
    }
  }

  /** The sum of finite numbers is the exact sum, correctly rounded, in every mode
      and for every pair of operands except the family AddSlips names. */
  lemma AddExactly(mode: Mode, a: F80, b: F80)
    requires a.Finite() && b.Finite()
    ensures SumDelivered(mode, a, b, Add(mode, a, b)) <==> !AddSlips(mode, Larger(a, b), Smaller(a, b))
  {
    var x, y := Larger(a, b), Smaller(a, b);
    hide SumDelivered, AddOrdered, SumSigned;
    SumSymmetric(mode, a, b, Add(mode, a, b));
    if x.Exponent() - y.Exponent() <= 64 {
      AddNear(mode, x, y);
    } else {
      AddFar(mode, x, y);
    }
  }

  /** The sign and the zeros of a sum are right for every pair, and the result is
      always a supported number: the assertion at the end of f80_add holds. */
  lemma AddSigned(mode: Mode, a: F80, b: F80)
    requires a.Finite() && b.Finite()
    ensures SumSigned(a, b, Add(mode, a, b))
  {
    var x, y := Larger(a, b), Smaller(a, b);
    hide SumDelivered, AddOrdered, SumSigned;
    SumSymmetric(mode, a, b, Add(mode, a, b));
    if x.Exponent() - y.Exponent() <= 64 {
      AddNear(mode, x, y);
    } else {
      AddFar(mode, x, y);
    }
  }

  /** Infinities of different signs have no sum. Otherwise an infinite operand overflows like a
      number out of range: the sum is that infinity only where the mode does not round it toward
      zero, and the largest finite number elsewhere. */
  lemma AddInfinite(mode: Mode, a: F80, b: F80)
    requires !Uncomparable(a, b) && (a.IsInf() || b.IsInf())
    ensures Add(mode, a, b) ==
      if a.IsInf() && b.IsInf() && a.sign != b.sign then NAN
      else
        var sign := if a.IsInf() then a.sign else b.sign;
        if DirectionOf(mode, sign) == TowardZero then F80(U64 - 1, EXP_MAX, sign) else Infinity(sign)
  {
    hide AddOrdered, Infinity;
    if a.Exponent() < b.Exponent() {
      OrderedInfinite(mode, b, a);
    } else {
      OrderedInfinite(mode, a, b);
    }
  }

  lemma OrderedInfinite(mode: Mode, x: F80, y: F80)
    requires !Uncomparable(x, y) && x.IsInf() && x.Exponent() >= y.Exponent()
    ensures AddOrdered(mode, x, y) ==
      if y.IsInf() && x.sign != y.sign then NAN
      else if DirectionOf(mode, x.sign) == TowardZero then F80(U64 - 1, EXP_MAX, x.sign) else Infinity(x.sign)
  {
    hide NormalizeRound, AlignSmaller;
    InfinityOverflows(mode, x.sign);
  }

  lemma InfinityOverflows(mode: Mode, sign: bool)
    ensures NormalizeRound(mode, TOP * U64, 16384, sign)
         == if DirectionOf(mode, sign) == TowardZero then F80(U64 - 1, EXP_MAX, sign) else Infinity(sign)
  {
    hide ShiftRightRound, Pow2, Clz128;
    Clz128Top();
  }

  lemma Clz128Top()
    ensures Clz128(TOP * U64) == 0
  {
    hide Pow2, Clz128;
    var n := Clz128(TOP * U64);
    Pow2Zero();
    if n > 0 {
      Pow2Monotone(1, n);
      assert false;
    }
  }

  /** So an infinity is not kept by adding one to it. */
  lemma InfinityLost()
    ensures Add(Chop, Infinity(false), F80(TOP, 0x3fff, false)) == F80(U64 - 1, EXP_MAX, false)
  {
    AddInfinite(Chop, Infinity(false), F80(TOP, 0x3fff, false));
  }

  /** A sum that slips: the addend is below half of the last place, yet is rounded up to it. */
  lemma AddSlipsExample()
    ensures var a, b := F80(TOP + 1, 0x4040, false), F80(U64 - 1, 0x3fff, false);
      a.Finite() && b.Finite() && !SumDelivered(Nearest, a, b, Add(Nearest, a, b))
  {
    hide SumDelivered, Add;
    AddExactly(Nearest, F80(TOP + 1, 0x4040, false), F80(U64 - 1, 0x3fff, false));
  }
}
