/** Division, whose significand is not the exact quotient but a sticky one: exactly when
    f80_div delivers the correctly rounded quotient. */
module Float80Quotient {
  import opened NatArith
  import opened Powers
  import opened Rounding
  import opened Float80
  import opened Float80Rounding
  import opened Float80Arithmetic
  import opened Float80Subnormal

  // ---- what stands for an exact result rounds as it does ----

  /** Below the least unit of the format, what stands for an exact result compares with every
      member and every halfway point as the exact result does. */
  lemma AlikeAtMember(e: Exact, s: int, w: int, h: Grid)
    requires Stands(e, s, w) && w < LEAST && h.Canonical()
    ensures AtMost(h.Value(), e) <==> AtMost(h.Value(), Number(Units(s, w)))
    ensures AtLeast(h.Value(), e) <==> AtLeast(h.Value(), Number(Units(s, w)))
  {
    hide Units, AtMost, AtLeast, Stands, Pow2;
    StandsForItself(s, w);
    StandsAtMultiple(e, s, w, h.s, h.q - w);
    StandsAtMultiple(Number(Units(s, w)), s, w, h.s, h.q - w);
  }

  lemma AlikeAtMiddle(e: Exact, s: int, w: int, g: Grid, h: Grid)
    requires Stands(e, s, w) && w < LEAST - 1 && g.Canonical() && h.Canonical()
    ensures var middle := (g.Value() + h.Value()) / 2.0;
      && (AtMost(middle, e) <==> AtMost(middle, Number(Units(s, w))))
      && (AtLeast(middle, e) <==> AtLeast(middle, Number(Units(s, w))))
  {
    hide Units, AtMost, AtLeast, Stands, Pow2;
    var m := WholeUnits(g, LEAST);
    var k := WholeUnits(h, LEAST);
    UnitsMiddle(m, k, LEAST);
    StandsForItself(s, w);
    StandsAtMultiple(e, s, w, m + k, LEAST - 1 - w);
    StandsAtMultiple(Number(Units(s, w)), s, w, m + k, LEAST - 1 - w);
  }

  lemma RoundsAlike(dir: Direction, e: Exact, s: int, w: int, g: Grid)
    requires Stands(e, s, w) && w < LEAST - 1
    ensures RoundsTo(dir, e, g) <==> RoundsTo(dir, Number(Units(s, w)), g)
  {
    hide Units, AtMost, AtLeast, Stands;
    if g.Canonical() {
      AlikeAtMember(e, s, w, g);
      forall h: Grid | h.Canonical()
        ensures AtMost(h.Value(), e) <==> AtMost(h.Value(), Number(Units(s, w)))
        ensures AtLeast(h.Value(), e) <==> AtLeast(h.Value(), Number(Units(s, w)))
        ensures Nearer(e, g, h) <==> Nearer(Number(Units(s, w)), g, h)
      {
        AlikeAtMember(e, s, w, h);
        AlikeAtMiddle(e, s, w, g, h);
      }
    }
  }

  lemma DeliversAlike(mode: Mode, sign: bool, e: Exact, s: int, w: int, f: F80)
    requires Stands(e, s, w) && w < LEAST - 1
    ensures Delivers(mode, sign, e, f) <==> Delivers(mode, sign, Number(Units(s, w)), f)
  {
    hide Units, Stands, RoundsTo, Encodes;
    forall g: Grid
      ensures RoundsTo(DirectionOf(mode, sign), e, g) <==> RoundsTo(DirectionOf(mode, sign), Number(Units(s, w)), g)
    {
      RoundsAlike(DirectionOf(mode, sign), e, s, w, g);
    }
  }

  lemma StandsExactly(mode: Mode, sign: bool, e: Exact, signif: u128, exp: int)
    requires U127 <= signif && Stands(e, signif, exp - 127)
    ensures Delivers(mode, sign, e, NormalizeRound(mode, signif, exp, sign)) <==> !Slips(mode, signif, exp, sign)
  {
    hide Units, Pow2, Delivers, Stands, NormalizeRound, Slips, Clz128;
    FullWidth(signif);
    if exp >= EMIN {
      NormalizeRoundDelivers(mode, e, signif, exp, sign);
      NormalNoSlip(mode, signif, exp, sign);
    } else {
      NormalizeRoundExactly(mode, signif, exp, sign);
      DeliversAlike(mode, sign, e, signif, exp - 127, NormalizeRound(mode, signif, exp, sign));
    }
  }

  // ---- the condition on the operands ----

  /** The exact quotient, in 2^-64 of a least unit, is Top / Bottom. */
  function Gap(a: F80, b: F80): int {
    a.Exponent() - b.Exponent() - (LEAST - 64)
  }

  function Top(a: F80, b: F80): nat {
    a.signif * Pow2(if Gap(a, b) > 0 then Gap(a, b) else 0)
  }

  function Bottom(a: F80, b: F80): (c: nat)
    requires b.signif > 0
    ensures c > 0
  {
    MulLe(1, Pow2(if Gap(a, b) < 0 then 0 - Gap(a, b) else 0), b.signif);
    MulAssoc(b.signif, Pow2(if Gap(a, b) < 0 then 0 - Gap(a, b) else 0), 1);
    b.signif * Pow2(if Gap(a, b) < 0 then 0 - Gap(a, b) else 0)
  }

  /** As for an exact significand, but from half the smallest normal number on the sticky
      bit is the first one shifted out and counts as a half, so whatever is less than a
      whole step away is moved onto a halfway point. */
  predicate QuotientSlips(dir: Direction, n: nat, c: nat)
    requires c > 0
  {
    n < U127 * c &&
    match dir
    case TowardZero => false
    case AwayFromZero => n > (TOP - 1) * U64 * c
    case ToEven => n > (CARRY - 1) * c || (if 2 * n >= U127 * c then WideTie(n, c) else TieSlips(n, c))
  }

  predicate WideTie(n: nat, c: nat)
    requires c > 0
  {
    var half := Halfway(n, c);
    if n / (U64 * c) % 2 == 0 then half * c < n < (half + 1) * c else (half - 1) * c < n < half * c
  }

  // ---- the exact quotient and the sticky one compare alike with whole steps ----

  /** t steps of weight 2^v against the exact quotient, in whole numbers. */
  lemma RatioOrder(a: F80, b: F80, t: nat, v: int)
    requires b.signif > 0
    ensures b.Magnitude() > 0.0
    ensures var d := a.Exponent() - b.Exponent() - v;
      var n, c := a.signif * Pow2(if d > 0 then d else 0), b.signif * Pow2(if d < 0 then 0 - d else 0);
      && (Units(t, v) <= a.Magnitude() / b.Magnitude() <==> t * c <= n)
      && (a.Magnitude() / b.Magnitude() <= Units(t, v) <==> n <= t * c)
  {
    hide Pow2, Units;
    RatioProduct(a, b, t, v);
    var d := a.Exponent() - b.Exponent() - v;
    Steps(a.signif, v + b.Exponent() - 63, d, b.signif, t);
  }

  /** m steps of weight 2^q against x of no smaller weight, and of no greater weight. */
  lemma StepsUp(x: nat, d: nat, q: int, m: nat)
    ensures Units(m, q) <= Units(x, q + d) <==> m <= x * Pow2(d)
    ensures Units(x, q + d) <= Units(m, q) <==> x * Pow2(d) <= m
  {
    hide Pow2, Units;
    UnitsRescale(x, d, q);
    var n := x * Pow2(d);
    UnitsOrder(m, n, q);
    UnitsOrder(n, m, q);
  }

  lemma StepsDown(x: nat, p: int, d: nat, y: nat, t: nat)
    ensures Units(t * y, p + d) <= Units(x, p) <==> t * (y * Pow2(d)) <= x
    ensures Units(x, p) <= Units(t * y, p + d) <==> x <= t * (y * Pow2(d))
  {
    hide Pow2, Units;
    var m := t * y;
    UnitsRescale(m, d, p);
    MulAssoc(t, y, Pow2(d));
    var n := m * Pow2(d);
    UnitsOrder(n, x, p);
    UnitsOrder(x, n, p);
  }

  /** s stands for the exact quotient k bits below the weight of the steps. */
  ghost predicate Sticky(a: F80, b: F80, s: u128, k: nat)
    requires b.signif > 0
  {
    b.Magnitude() > 0.0 && k > 0 && U127 <= s && Stands(Number(a.Magnitude() / b.Magnitude()), s, LEAST - 64 - k)
  }

  lemma RatioProduct(a: F80, b: F80, t: nat, v: int)
    requires b.signif > 0
    ensures b.Magnitude() > 0.0
    ensures var x, y := Units(a.signif, a.Exponent() - 63), Units(t * b.signif, v + b.Exponent() - 63);
      && (Units(t, v) <= a.Magnitude() / b.Magnitude() <==> y <= x)
      && (a.Magnitude() / b.Magnitude() <= Units(t, v) <==> x <= y)
  {
    hide Units;
    UnitsOrder(0, b.signif, b.Exponent() - 63);
    QuotientBounds(Units(t, v), a.Magnitude(), b.Magnitude());
    UnitsProduct(t, v, b.signif, b.Exponent() - 63);
  }

  lemma Steps(x: nat, q: int, d: int, y: nat, t: nat)
    ensures var n, c := x * Pow2(if d > 0 then d else 0), y * Pow2(if d < 0 then 0 - d else 0);
      && (Units(t * y, q) <= Units(x, q + d) <==> t * c <= n)
      && (Units(x, q + d) <= Units(t * y, q) <==> n <= t * c)
  {
    hide Pow2, Units;
    Pow2Zero();
    assert x * 1 == x && y * 1 == y;
    if d >= 0 {
      StepsUp(x, d, q, t * y);
    } else {
      StepsDown(x, q + d, 0 - d, y, t);
    }
  }

  lemma AlikeAt(a: F80, b: F80, s: u128, k: nat, t: nat)
    requires b.signif > 0 && Sticky(a, b, s, k)
    ensures t * Bottom(a, b) <= Top(a, b) <==> t * Pow2(k) <= s
    ensures Top(a, b) <= t * Bottom(a, b) <==> s <= t * Pow2(k)
  {
    hide Pow2, Units, Stands;
    var e := Number(a.Magnitude() / b.Magnitude());
    RatioOrder(a, b, t, LEAST - 64);
    StandsAtMultiple(e, s, LEAST - 64 - k, t, k);
  }

  lemma AlikeAtHalf(a: F80, b: F80, s: u128, k: nat, t: nat)
    requires b.signif > 0 && Sticky(a, b, s, k) && k > 1
    ensures t * Bottom(a, b) <= 2 * Top(a, b) <==> t * Pow2(k) <= 2 * s
    ensures 2 * Top(a, b) <= t * Bottom(a, b) <==> 2 * s <= t * Pow2(k)
  {
    Doubling(a, b, t);
    assert Pow2(k) == 2 * Pow2(k - 1);
    hide Pow2, Units, Stands, Top, Bottom;
    var e := Number(a.Magnitude() / b.Magnitude());
    RatioOrder(a, b, t, LEAST - 65);
    StandsAtMultiple(e, s, LEAST - 64 - k, t, k - 1);
    MulAssoc(t, 2, Pow2(k - 1));
    MulAssoc(2, t, Pow2(k - 1));
  }

  lemma Doubling(a: F80, b: F80, t: nat)
    requires b.signif > 0
    ensures var d := Gap(a, b) + 1;
      var n, c := a.signif * Pow2(if d > 0 then d else 0), b.signif * Pow2(if d < 0 then 0 - d else 0);
      && (t * c <= n <==> t * Bottom(a, b) <= 2 * Top(a, b))
      && (n <= t * c <==> 2 * Top(a, b) <= t * Bottom(a, b))
  {
    var d := Gap(a, b);
    if d >= 0 {
      assert Pow2(d + 1) == 2 * Pow2(d);
      hide Pow2;
      Pow2Zero();
      MulSwap(a.signif, 2, Pow2(d));
      MulAssoc(2, a.signif, Pow2(d));
      MulAssoc(a.signif, 2, Pow2(d));
    } else {
      var c := b.signif * Pow2(0 - d - 1);
      assert Pow2(0 - d) == 2 * Pow2(0 - d - 1);
      hide Pow2;
      Pow2Zero();
      MulAssoc(2, b.signif, Pow2(0 - d - 1));
      MulAssoc(b.signif, 2, Pow2(0 - d - 1));
      MulAssoc(t, 2, c);
      MulAssoc(2, t, c);
    }
  }

  lemma SameHeight(a: F80, b: F80, s: u128, k: nat)
    requires b.signif > 0 && Sticky(a, b, s, k)
    ensures Top(a, b) / (U64 * Bottom(a, b)) == s / (U64 * Pow2(k))
  {
    hide Pow2, Sticky, Top, Bottom;
    var n, c, d := Top(a, b), Bottom(a, b), Pow2(k);
    var h := s / (U64 * d);
    DivDef(s, U64 * d);
    Distribute(h, U64 * d);
    MulAssoc(h, U64, d);
    MulAssoc(h + 1, U64, d);
    AlikeAt(a, b, s, k, h * U64);
    AlikeAt(a, b, s, k, (h + 1) * U64);
    MulAssoc(h, U64, c);
    MulAssoc(h + 1, U64, c);
    Distribute(h, U64 * c);
    DivUnique(n, U64 * c, h, n - h * (U64 * c));
  }

  lemma StickyTie(a: F80, b: F80, s: u128, k: nat)
    requires b.signif > 0 && Sticky(a, b, s, k)
    ensures var n, c := Top(a, b), Bottom(a, b);
      TieSlips(s, Pow2(k)) <==> if 2 * n >= U127 * c then WideTie(n, c) else TieSlips(n, c)
  {
    SameHeight(a, b, s, k);
    var half := Halfway(s, Pow2(k));
    HalfNormal(a, b, s, k);
    AlikeAt(a, b, s, k, half);
    AlikeAt(a, b, s, k, half + 1);
    AlikeAt(a, b, s, k, half - 1);
    if k > 1 {
      AlikeAtHalf(a, b, s, k, 2 * half + 1);
      AlikeAtHalf(a, b, s, k, 2 * half - 1);
    } else {
      Pow2Zero();
    }
    hide Pow2, Sticky, Top, Bottom;
  }

  /** One bit is shifted out exactly when the quotient is at least half the smallest normal number. */
  lemma HalfNormal(a: F80, b: F80, s: u128, k: nat)
    requires b.signif > 0 && Sticky(a, b, s, k)
    ensures 2 * Top(a, b) >= U127 * Bottom(a, b) <==> k == 1
    ensures k == 1 ==> Pow2(k) == 2
    ensures Top(a, b) < U127 * Bottom(a, b) && s < U127 * Pow2(k)
  {
    Pow2Zero();
    Pow2Monotone(1, k);
    if k > 1 {
      Pow2Strict(1, k);
    }
    hide Pow2, Top, Bottom;
    AlikeAt(a, b, s, k, U127 / 2);
    AlikeAt(a, b, s, k, U127);
    MulLe(2, Pow2(k), U127);
    if k > 1 {
      MulLe(4, Pow2(k), U127 / 2);
    }
    MulAssoc(U127, Pow2(k), 1);
    MulAssoc(U127 / 2, Pow2(k), 1);
  }

  lemma StickyCarries(dir: Direction, a: F80, b: F80, s: u128, k: nat)
    requires b.signif > 0 && Sticky(a, b, s, k)
    ensures var n, c := Top(a, b), Bottom(a, b);
      Carries(dir, s, Pow2(k)) <==>
        match dir
        case TowardZero => false
        case AwayFromZero => n > (TOP - 1) * U64 * c
        case ToEven => n > (CARRY - 1) * c
  {
    HalfNormal(a, b, s, k);
    AlikeAt(a, b, s, k, (TOP - 1) * U64);
    AlikeAt(a, b, s, k, CARRY - 1);
    if k > 1 {
      Pow2Zero();
      Pow2Strict(1, k);
      hide Pow2;
      MulLe(4, Pow2(k), CARRY - 1);
      MulAssoc(CARRY - 1, Pow2(k), 1);
    }
  }

  lemma QuotientSlipsExactly(dir: Direction, a: F80, b: F80, s: u128, k: nat)
    requires b.signif > 0 && Sticky(a, b, s, k)
    ensures SlipsAt(dir, s, Pow2(k)) <==> QuotientSlips(dir, Top(a, b), Bottom(a, b))
  {
    hide Pow2, Top, Bottom, Sticky, Carries, TieSlips, WideTie;
    HalfNormal(a, b, s, k);
    StickyCarries(dir, a, b, s, k);
    StickyTie(a, b, s, k);
  }

  /** What f80_div returns for finite operands other than zero is the correctly rounded
      quotient exactly when the exact quotient does not slip. */
  lemma DivExactly(mode: Mode, a: F80, b: F80)
    requires a.Finite() && b.Finite() && !a.IsZero() && !b.IsZero()
    ensures b.Magnitude() > 0.0
    ensures var sign := a.sign != b.sign;
      Delivers(mode, sign, Number(a.Magnitude() / b.Magnitude()),
               NormalizeRound(mode, QuotientSignif(a.signif, b.signif), QuotientExp(a, b), sign))
      <==> !QuotientSlips(DirectionOf(mode, sign), Top(a, b), Bottom(a, b))
  {
    hide Units, Pow2, Delivers, Stands, NormalizeRound, Slips, SlipsAt, QuotientSlips, StickyQuotient, Clz128;
    var signif, exp, sign := QuotientSignif(a.signif, b.signif), QuotientExp(a, b), a.sign != b.sign;
    QuotientStands(a, b, Ctz64(b.signif), OddPart(b.signif), QuotientExtra(a.signif, b.signif));
    StandsExactly(mode, sign, Number(a.Magnitude() / b.Magnitude()), signif, exp);
    if exp < EMIN {
      QuotientSlipsExactly(DirectionOf(mode, sign), a, b, signif, EMIN - exp);
      SlipsShiftedAt(mode, signif, exp, sign);
    } else {
      NormalNotBelow(a, b, signif, exp);
      FullWidth(signif);
      NormalNoSlip(mode, signif, exp, sign);
      NotBelow(DirectionOf(mode, sign), a, b);
    }
  }

  lemma SlipsShiftedAt(mode: Mode, signif: u128, exp: int, sign: bool)
    requires exp < EMIN
    ensures Slips(mode, signif, exp, sign) <==> SlipsAt(DirectionOf(mode, sign), signif, Pow2(EMIN - exp))
  {
    hide SlipsAt;
    assert signif * Pow2(0) == signif;
  }

  lemma NormalNotBelow(a: F80, b: F80, s: u128, exp: int)
    requires b.signif > 0 && b.Magnitude() > 0.0 && exp >= EMIN && U127 <= s
    requires Stands(Number(a.Magnitude() / b.Magnitude()), s, exp - 127)
    ensures Top(a, b) >= U127 * Bottom(a, b)
  {
    hide Units, Pow2, Stands;
    var e := Number(a.Magnitude() / b.Magnitude());
    StandsAt(e, s, exp - 127, U127 / 2);
    P2Order(U127, EMIN - 127, exp - 127);
    RatioOrder(a, b, U127, LEAST - 64);
  }

  lemma NotBelow(dir: Direction, a: F80, b: F80)
    requires b.signif > 0 && Top(a, b) >= U127 * Bottom(a, b)
    ensures !QuotientSlips(dir, Top(a, b), Bottom(a, b))
  {
  }

  /** A quotient that slips: it is past a halfway point by more than half a step, but the
      sticky bit is all that is left of that when one bit is shifted out. */
  lemma DivTieSlips()
    ensures var a, b := F80(0x87ce_bc3e_2a82_40b0, 0x2000, false), F80(0xa6d0_b944_a286_3a7f, 0x5ffe, false);
      && a.Finite() && b.Finite() && b.Magnitude() > 0.0
      && !Delivers(Nearest, false, Number(a.Magnitude() / b.Magnitude()),
                   NormalizeRound(Nearest, QuotientSignif(a.signif, b.signif), QuotientExp(a, b), false))
  {
    hide *;
    var a, b := F80(0x87ce_bc3e_2a82_40b0, 0x2000, false), F80(0xa6d0_b944_a286_3a7f, 0x5ffe, false);
    TieOperands(a, b);
    TieQuotient();
    DivExactly(Nearest, a, b);
  }

  lemma TieOperands(a: F80, b: F80)
    requires a == F80(0x87ce_bc3e_2a82_40b0, 0x2000, false) && b == F80(0xa6d0_b944_a286_3a7f, 0x5ffe, false)
    ensures a.Finite() && b.Finite() && !a.IsZero() && !b.IsZero() && DirectionOf(Nearest, a.sign != b.sign) == ToEven
    ensures Top(a, b) == 0x87ce_bc3e_2a82_40b0 * U127 && Bottom(a, b) == 0xa6d0_b944_a286_3a7f
  {
    hide Pow2;
    Pow2Zero();
    Pow2Of128();
  }

  lemma TieQuotient()
    ensures QuotientSlips(ToEven, 0x87ce_bc3e_2a82_40b0 * U127, 0xa6d0_b944_a286_3a7f)
  {
    DivUnique(0x87ce_bc3e_2a82_40b0 * U127, U64 * 0xa6d0_b944_a286_3a7f, 0x68350eccc3c23d40,
        0x53685ca251431d400000000000000000);
  }
}
