/** Square roots of emu/float80.c. */
module Float80Sqrt {
  import opened NatArith
  import opened Powers
  import opened Rounding
  import opened Float80

  /** u128_sqrt_floor: bisection for the whole square root. Every intermediate
      value fits its machine word, which the types below check. */
  method SqrtFloor(value: u128) returns (root: u64, remainder: u128)
    ensures value == root * root + remainder
    ensures value < (root + 1) * (root + 1)
    ensures remainder <= 2 * root
  {
    var low: u64, high: u64 := 0, U64 - 1;
    while low < high
      invariant low <= high
      invariant low * low <= value < (high + 1) * (high + 1)
      decreases high - low
    {
      var middle: u64 := low + (high - low) / 2 + 1;
      SquareFits(middle);
      var square: u128 := middle * middle;
      if square <= value {
        low := middle;
      } else {
        high := middle - 1;
      }
    }
    root, remainder := low, value - low * low;
    NextSquare(root);
  }

  lemma SquareFits(x: nat)
    requires x < U64
    ensures 0 <= x * x < U128
  {
    MulLe(x, U64 - 1, x);
    MulLe(x, U64 - 1, U64 - 1);
    MulAssoc(x, U64 - 1, 1);
  }

  lemma NextSquare(x: int)
    ensures (x + 1) * (x + 1) == x * x + 2 * x + 1
  {
  }

  lemma OddSquares(x: int)
    ensures (2 * x + 1) * (2 * x + 1) == 4 * (x * x) + 4 * x + 1
    ensures (2 * x - 1) * (2 * x - 1) == 4 * (x * x) - 4 * x + 1
    ensures (2 * x + 3) * (2 * x + 3) == 4 * (x * x) + 12 * x + 9
  {
  }

  lemma IntSquares(a: nat, b: nat)
    ensures a <= b <==> a * a <= b * b
  {
    if a <= b {
      MulLe(a, b, a);
      MulLe(a, b, b);
    } else {
      MulLt(b, a, a);
      MulLe(b, a, b);
    }
  }

  /** Whole and half units compare with a root as their squares do with the radicand. */
  lemma RootOrder(m: nat, radicand: nat, q: int)
    ensures var e := SquareRoot(Units(radicand, 2 * q));
      && (AtMost(Units(m, q), e) <==> m * m <= radicand)
      && (AtLeast(Units(m, q), e) <==> radicand <= m * m)
  {
    hide Units;
    UnitsProduct(m, q, m, q);
    UnitsOrder(m * m, radicand, 2 * q);
    UnitsOrder(0, m, q);
    UnitsOrder(0, radicand, 2 * q);
  }

  /** Which whole number the rounding step of f80_sqrt settles on. */
  function RoundedRoot(mode: Mode, root: u64, remainder: nat): nat {
    if (mode == Nearest && remainder > root) || (mode == Up && remainder != 0) then root + 1 else root
  }

  /** root is the floor of the square root of radicand, which has at least 127 bits. */
  ghost predicate FloorRoot(radicand: nat, root: nat, remainder: nat) {
    && TOP <= root < U64
    && radicand == root * root + remainder
    && remainder <= 2 * root
  }

  lemma RootNearest(radicand: nat, root: u64, remainder: nat, q: int)
    requires FloorRoot(radicand, root, remainder)
    ensures var e := SquareRoot(Units(radicand, 2 * q));
      WithinHalfUnit(e, if remainder > root then root + 1 else root, q)
  {
    hide Units, AtMost, AtLeast;
    OddSquares(root);
    UnitsDouble(radicand, 2 * q - 1);
    UnitsDouble(2 * radicand, 2 * q - 2);
    RootOrder(2 * root - 1, 4 * radicand, q - 1);
    RootOrder(2 * root + 1, 4 * radicand, q - 1);
    RootOrder(2 * root + 3, 4 * radicand, q - 1);
  }

  lemma RoundedRootDelivers(mode: Mode, radicand: nat, root: u64, remainder: nat, q: int)
    requires FloorRoot(radicand, root, remainder)
    requires LEAST < q < GREATEST
    ensures RoundsTo(DirectionOf(mode, false), SquareRoot(Units(radicand, 2 * q)),
        Carry(RoundedRoot(mode, root, remainder), q))
  {
    hide Units, AtMost, AtLeast, RoundsTo, WithinHalfUnit;
    var e := SquareRoot(Units(radicand, 2 * q));
    NextSquare(root);
    IntSquares(TOP, root);
    RootOrder(TOP, radicand, q);
    RootOrder(root, radicand, q);
    RootOrder(root + 1, radicand, q);
    match DirectionOf(mode, false)
    case TowardZero => DownByNeighbours(e, root, q);
    case AwayFromZero =>
      if remainder == 0 && root > TOP {
        RootOrder(root - 1, radicand, q);
        IntSquares(root, root - 1);
      }
      UpByNeighbours(e, RoundedRoot(mode, root, remainder), q);
    case ToEven =>
      RootNearest(radicand, root, remainder, q);
      NearestByNeighbours(e, RoundedRoot(mode, root, remainder), q);
  }

  /** The operand as a radicand of even weight. */
  lemma RadicandMeaning(x: F80, shift: nat, half: int, odd: nat)
    requires x.Exponent() - shift - 2 * half == odd
    ensures x.Magnitude() == Units(x.signif * Pow2(shift) * Pow2(63 + odd), 2 * (half - 63))
  {
    hide Units, Pow2;
    UnitsRescale(x.signif, shift, x.Exponent() - shift - 63);
    UnitsRescale(x.signif * Pow2(shift), 63 + odd, 2 * half - 126);
  }

  lemma RadicandFits(s: nat, odd: nat)
    requires TOP <= s < U64 && odd <= 1
    ensures TOP * TOP <= s * Pow2(63 + odd) < U128
  {
    Pow2Of64();
    MulLe(TOP, s, Pow2(63 + odd));
    MulLt(s, U64, Pow2(63 + odd));
  }

  /** Division by two as C does it, toward zero. */
  function HalfTowardZero(x: int): int {
    if x >= 0 then x / 2 else -(-x / 2)
  }

  /** f80_sqrt: for every positive finite operand, in every rounding mode, the
      correctly rounded square root. */
  method Sqrt(mode: Mode, x: F80) returns (f: F80)
    ensures !x.Supported() || x.IsNan() ==> f == NAN
    ensures x.Supported() && x.IsZero() ==> f == x
    ensures x.Supported() && !x.IsNan() && !x.IsZero() && x.sign ==> f == NAN
    ensures x.Supported() && x.IsInf() && !x.sign ==> f == x
    ensures x.Finite() && !x.IsZero() && !x.sign ==> Delivers(mode, false, SquareRoot(x.Value()), f)
  {
    if !x.Supported() || x.IsNan() {
      return NAN;
    }
    if x.IsZero() {
      return x;
    }
    if x.sign {
      return NAN;
    }
    if x.IsInf() {
      return x;
    }
    f := SqrtPositive(mode, x);
  }

  method SqrtPositive(mode: Mode, x: F80) returns (f: F80)
    requires x.Finite() && !x.IsZero() && !x.sign
    ensures Delivers(mode, false, SquareRoot(x.Value()), f)
  {
    hide Units, RoundsTo, Pow2;
    var shift := Clz64(x.signif);
    var signif := x.signif * Pow2(shift);
    var exp := x.Exponent() - shift;
    var resultExp := HalfTowardZero(exp);
    if exp < 0 && exp % 2 != 0 {
      resultExp := resultExp - 1;
    }
    var odd := exp - 2 * resultExp;
    RadicandFits(signif, odd);
    var radicand: u128 := signif * Pow2(63 + odd);
    var root, remainder := SqrtFloor(radicand);
    IntSquares(root + 1, TOP);
    RadicandMeaning(x, shift, resultExp, odd);
    RoundedRootDelivers(mode, radicand, root, remainder, resultExp - 63);
    ghost var g := Carry(RoundedRoot(mode, root, remainder), resultExp - 63);
    var increment := (mode == Nearest && remainder > root) || (mode == Up && remainder != 0);
    if increment {
      if root == U64 - 1 {
        root := TOP;
        resultExp := resultExp + 1;
      } else {
        root := root + 1;
      }
    }
    f := F80(root, (resultExp + BIAS) % 0x8000, false);
    assert Encodes(mode, false, g, f);
  }
}
