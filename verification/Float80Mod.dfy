/** f80_mod, and FPREM on top of it. */
module Float80Mod {
  import opened NatArith
  import opened Powers
  import opened Rounding
  import opened Float80
  import opened Float80Normalize
  import opened Float80Arithmetic

  datatype ModResult = ModResult(value: F80, quotientLow: nat, quotientValid: bool)

  /** r is what x leaves after q whole steps of y toward zero. */
  ghost predicate IsRemainder(x: F80, y: F80, q: nat, r: F80) {
    && r.Finite() && r.sign == x.sign
    && x.Magnitude() == q as real * y.Magnitude() + r.Magnitude()
    && 0.0 <= r.Magnitude() < y.Magnitude()
  }

  /** The quotient and the remainder are determined by the operands. */
  lemma RemainderUnique(x: F80, y: F80, q: nat, r: F80, p: nat, s: F80)
    requires IsRemainder(x, y, q, r) && IsRemainder(x, y, p, s)
    ensures q == p && r == s
  {
    hide Units;
    SameSteps(q, p, x.Magnitude(), y.Magnitude(), r.Magnitude(), s.Magnitude());
    SameSteps(p, q, x.Magnitude(), y.Magnitude(), s.Magnitude(), r.Magnitude());
    SameMagnitude(r, s);
  }

  lemma SameSteps(q: nat, p: nat, x: real, y: real, r: real, s: real)
    requires x == q as real * y + r == p as real * y + s
    requires 0.0 <= r < y && 0.0 <= s < y
    ensures q >= p
  {
    if q < p {
      ScaleOrder(q as real + 1.0, p as real, y);
      OneMore(q as real, y);
    }
  }

  lemma TimesZero(y: real)
    ensures 0 as real * y == 0.0
  {
  }

  lemma OneMore(q: real, y: real)
    ensures (q + 1.0) * y == q * y + y
  {
  }

  lemma SameMagnitude(r: F80, s: F80)
    requires r.Finite() && s.Finite() && r.sign == s.sign && r.Magnitude() == s.Magnitude()
    ensures r == s
  {
    hide Units;
    CanonicalUnique(Grid(r.signif, r.Exponent() - 63), Grid(s.signif, s.Exponent() - 63));
  }

  /** One quotient bit of the loop of f80_mod. */
  lemma ModStep(x: nat, bit: nat, q: nat, y: nat, rest: nat)
    requires x * Pow2(bit) == q * y + rest
    ensures x * Pow2(bit + 1) == 2 * q * y + 2 * rest
    ensures (2 * q + 1) * y == 2 * q * y + y
  {
    assert Pow2(bit + 1) == 2 * Pow2(bit);
    hide Pow2;
    MulSwap(2, Pow2(bit), x);
    MulAssoc(2, Pow2(bit), x);
    MulAssoc(Pow2(bit), x, 1);
    MulAssoc(Pow2(bit + 1), x, 1);
    MulAssoc(2, q, y);
    Distribute(2 * q, y);
  }

  lemma LowBits(q: nat, bit: nat)
    ensures (q % 8 * 2 + bit) % 8 == (2 * q + bit) % 8
  {
  }

  /** The quotient loop of f80_mod: long division of x * 2^delta by y, keeping
      only the remainder and the low three quotient bits. */
  method LongDivision(x: u64, y: u64, delta: nat) returns (remainder: u64, low: nat)
    requires y > 0
    ensures remainder == x * Pow2(delta) % y
    ensures low == x * Pow2(delta) / y % 8
  {
    hide Pow2;
    DivDef(x, y);
    remainder := x % y;
    low := x / y % 8;
    ghost var q: nat := x / y;
    Pow2Zero();
    var bit := 0;
    while bit < delta
      invariant 0 <= bit <= delta
      invariant x * Pow2(bit) == q * y + remainder && remainder < y
      invariant low == q % 8
    {
      ModStep(x, bit, q, y, remainder);
      var doubled: u128 := 2 * remainder;
      var quotientBit := if doubled >= y then 1 else 0;
      if quotientBit != 0 {
        doubled := doubled - y;
      }
      remainder := doubled;
      LowBits(q, quotientBit);
      low := (low * 2 + quotientBit) % 8;
      q := 2 * q + quotientBit;
      bit := bit + 1;
    }
    DivUnique(x * Pow2(delta), y, q, remainder);
  }

  /** The long division, read as a division of what x and y denote. */
  lemma DivisionMeaning(x: F80, y: F80, delta: nat)
    requires y.signif > 0 && delta == x.Exponent() - y.Exponent()
    ensures var q, rest := x.signif * Pow2(delta) / y.signif, x.signif * Pow2(delta) % y.signif;
      && q >= 0
      && x.Magnitude() == q as real * y.Magnitude() + Units(rest, y.Exponent() - 63)
      && 0.0 <= Units(rest, y.Exponent() - 63) < y.Magnitude()
  {
    hide Units, Pow2;
    var n := x.signif * Pow2(delta);
    var u := y.Exponent() - 63;
    DivDef(n, y.signif);
    var q, rest := n / y.signif, n % y.signif;
    UnitsRescale(x.signif, delta, u);
    UnitsSum(q * y.signif, rest, u);
    UnitsTimes(q, y.signif, u);
    UnitsOrder(0, rest, u);
    UnitsOrder(rest, y.signif, u);
  }

  lemma UnitsTimes(q: int, m: int, u: int)
    ensures Units(q * m, u) == q as real * Units(m, u)
  {
    UnitsProduct(q, 0, m, u);
  }

  /** A finite number with a smaller exponent than a finite y is smaller. */
  lemma SmallerExponent(x: F80, y: F80)
    requires x.Finite() && y.Finite() && x.Exponent() < y.Exponent()
    ensures 0.0 <= x.Magnitude() < y.Magnitude()
    ensures x.Magnitude() == 0 as real * y.Magnitude() + x.Magnitude()
  {
    hide Units;
    var u := y.Exponent() - 63;
    UnitsLess(x.signif, x.Exponent() - 63, FULL, u - 1);
    UnitsDouble(TOP, u - 1);
    UnitsOrder(TOP, y.signif, u);
    UnitsOrder(0, x.signif, x.Exponent() - 63);
    TimesZero(y.Magnitude());
  }

  /** f80_mod */
  method Mod(x: F80, y: F80) returns (result: ModResult)
    ensures result.quotientValid <==>
              x.Supported() && y.Supported() && !x.IsNan() && !y.IsNan() && !x.IsInf() && !y.IsZero()
    ensures !result.quotientValid ==>
        result.quotientLow == 0 && result.value == if Uncomparable(x, y) then NanResult(x, y) else NAN
    ensures result.quotientValid && y.IsInf() ==> result.value == x && result.quotientLow == 0
    ensures x.Finite() && y.Finite() && !y.IsZero() ==>
              exists q: nat :: IsRemainder(x, y, q, result.value) && result.quotientLow == q % 8
  {
    hide Units, Pow2;
    result := ModResult(NAN, 0, false);
    if !x.Supported() || !y.Supported() {
      return;
    }
    if x.IsNan() && y.IsNan() && x.sign && !y.sign {
      result := result.(value := y);
    } else if x.IsNan() {
      result := result.(value := x);
    } else if y.IsNan() {
      result := result.(value := y);
    }
    if x.IsNan() || y.IsNan() {
      return;
    }
    if x.IsInf() || y.IsZero() {
      return;
    }
    result := result.(quotientValid := true);
    if y.IsInf() {
      result := result.(value := x);
    } else {
      var value, low := ModFinite(x, y);
      result := result.(value := value, quotientLow := low);
    }
  }

  lemma ZeroRemainder(x: F80, y: F80)
    requires x.Finite() && x.IsZero() && y.Finite() && !y.IsZero()
    ensures IsRemainder(x, y, 0, x)
  {
    hide Units;
    UnitsOrder(0, y.signif, y.Exponent() - 63);
    UnitsOrder(0, 0, x.Exponent() - 63);
    TimesZero(y.Magnitude());
  }

  /** The part of f80_mod for finite operands. */
  method ModFinite(x: F80, y: F80) returns (value: F80, low: nat)
    requires x.Finite() && y.Finite() && !y.IsZero()
    ensures exists q: nat :: IsRemainder(x, y, q, value) && low == q % 8
  {
    hide Units, Pow2;
    UnitsOrder(0, y.signif, y.Exponent() - 63);
    if x.IsZero() {
      ZeroRemainder(x, y);
      return x, 0;
    }
    var delta := x.Exponent() - y.Exponent();
    if delta < 0 {
      SmallerExponent(x, y);
      assert IsRemainder(x, y, 0, x);
      return x, 0;
    }
    var remainder;
    remainder, low := LongDivision(x.signif, y.signif, delta);
    DivisionMeaning(x, y, delta);
    ghost var q: nat := x.signif * Pow2(delta) / y.signif;
    if remainder == 0 {
      UnitsOrder(0, 0, y.Exponent() - 63);
      UnitsOrder(0, 0, EMIN - 63);
      value := Zero(x.sign);
    } else {
      RemainderEncodes(remainder, y);
      value := Normalize(F80(remainder, y.exp, x.sign));
    }
    assert IsRemainder(x, y, q, value);
  }

  lemma RemainderEncodes(remainder: u64, y: F80)
    requires y.Finite() && 0.0 <= Units(remainder, y.Exponent() - 63) < y.Magnitude()
    ensures remainder < y.signif
  {
    UnitsOrder(remainder, y.signif, y.Exponent() - 63);
  }
}
