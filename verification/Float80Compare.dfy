/** Comparison of emu/float80.c, which goes through the rounding subtraction. */
module Float80Compare {
  import opened Powers
  import opened Rounding
  import opened Float80
  import opened Float80Arithmetic
  import opened Float80Add

  /** f80_lt */
  predicate Lt(mode: Mode, a: F80, b: F80) {
    if Uncomparable(a, b) then false
    else if a.IsInf() && b.IsInf() && a.sign == b.sign then false
    else if a.IsZero() && b.IsZero() then false
    else
      var diff := Sub(mode, a, b);
      diff.sign && !diff.IsZero()
  }

  /** f80_eq; the program tests its first operand twice where it clears the signs of zeros. */
  predicate Eq(a: F80, b: F80) {
    if Uncomparable(a, b) then false
    else
      var a' := if a.IsZero() then a.(sign := false) else a;
      var b' := if a'.IsZero() then b.(sign := false) else b;
      a'.sign == b'.sign && a'.exp == b'.exp && a'.signif == b'.signif
  }

  /** The order of what two comparable numbers denote, infinities at the ends. */
  ghost predicate Less(a: F80, b: F80)
    requires !Uncomparable(a, b)
  {
    if a.IsInf() then a.sign && !(b.IsInf() && b.sign)
    else if b.IsInf() then !b.sign
    else a.Value() < b.Value()
  }

  ghost predicate Same(a: F80, b: F80)
    requires !Uncomparable(a, b)
  {
    if a.IsInf() || b.IsInf() then a.IsInf() && b.IsInf() && a.sign == b.sign
    else a.Value() == b.Value()
  }

  lemma InfiniteSum(mode: Mode, x: F80, y: F80)
    requires !Uncomparable(x, y) && x.IsInf() && (y.IsInf() ==> x.sign == y.sign)
    requires x.Exponent() >= y.Exponent()
    ensures AddOrdered(mode, x, y).sign == x.sign && !AddOrdered(mode, x, y).IsZero()
  {
    hide Pow2, AlignSmaller, NormalizeRound, Clz128;
    InfiniteOverflows(mode, x.sign);
    assert x.signif * U64 == U127 && x.Exponent() == EMAX + 1;
  }

  /** The significand of an infinity, one exponent past the largest, overflows. */
  lemma InfiniteOverflows(mode: Mode, sign: bool)
    ensures NormalizeRound(mode, U127, EMAX + 1, sign) == Overflow(mode, sign)
    ensures Overflow(mode, sign).sign == sign && !Overflow(mode, sign).IsZero()
  {
    hide Pow2, Clz128;
    FullWidth(U127);
  }

  /** f80_lt is the order of the denoted values, in every rounding mode. */
  lemma LtIsLess(mode: Mode, a: F80, b: F80)
    requires !Uncomparable(a, b)
    ensures Lt(mode, a, b) <==> Less(a, b)
  {
    hide Units, AddOrdered;
    if a.IsInf() && b.IsInf() {
      if a.sign != b.sign {
        InfiniteSum(mode, a, b.Neg());
      }
    } else if a.IsInf() {
      InfiniteSum(mode, a, b.Neg());
    } else if b.IsInf() {
      InfiniteSum(mode, b.Neg(), a);
    } else {
      UnitsOrder(0, 0, EMIN - 63);
      AddSigned(mode, a, b.Neg());
    }
  }

  lemma EqIsSame(a: F80, b: F80)
    requires !Uncomparable(a, b)
    ensures Eq(a, b) <==> Same(a, b)
  {
    if !a.IsInf() && !b.IsInf() {
      hide Units;
      UnitsOrder(0, a.signif, a.Exponent() - 63);
      UnitsOrder(0, b.signif, b.Exponent() - 63);
      UnitsOrder(0, 0, EMIN - 63);
      if a.Magnitude() == b.Magnitude() {
        CanonicalUnique(Grid(a.signif, a.Exponent() - 63), Grid(b.signif, b.Exponent() - 63));
      }
    }
  }

  /** Exactly one of a < b, a == b, b < a, whatever the rounding modes in force. */
  lemma Trichotomy(m: Mode, n: Mode, a: F80, b: F80)
    requires !Uncomparable(a, b)
    ensures Lt(m, a, b) || Eq(a, b) || Lt(n, b, a)
    ensures !(Lt(m, a, b) && Eq(a, b)) && !(Lt(m, a, b) && Lt(n, b, a)) && !(Eq(a, b) && Lt(n, b, a))
  {
    hide Lt, Eq, Units;
    LtIsLess(m, a, b);
    LtIsLess(n, b, a);
    EqIsSame(a, b);
  }

  /** A NaN or an unsupported encoding is neither less than nor equal to anything, itself
      included. */
  lemma Unordered(mode: Mode, a: F80, b: F80)
    requires Uncomparable(a, b)
    ensures !Lt(mode, a, b) && !Lt(mode, b, a) && !Eq(a, b) && !Eq(b, a)
  {
  }
}
