/** The shift-and-round functions of emu/float80.c meet the reference rounding. */
module Float80Rounding {
  import opened NatArith
  import opened Powers
  import opened Rounding
  import opened Float80

  /** Division rounded to a whole number in a direction. */
  function RoundDiv(dir: Direction, i: nat, d: nat): (r: nat)
    requires d > 0
  {
    DivDef(i, d);
    var q, rest := i / d, i % d;
    match dir
    case TowardZero => q
    case AwayFromZero => if rest == 0 then q else q + 1
    case ToEven => if 2 * rest < d || (2 * rest == d && q % 2 == 0) then q else q + 1
  }

  /** u128_shift_right_round divides by a power of two and rounds correctly,
      except when it shifts by exactly 128 to nearest: then anything above one
      half becomes 0 instead of 1. */
  lemma ShiftRightRoundExact(mode: Mode, i: u128, shift: nat, sign: bool)
    ensures ShiftRightRound(mode, i, shift, sign) == RoundDiv(DirectionOf(mode, sign), i, Pow2(shift))
            <==> !(shift == 128 && mode == Nearest && i > U127)
  {
    if shift == 0 {
      DivUnique(i, 1, i, 0);
    } else if shift > 127 {
      ShiftOutExact(mode, i, shift, sign);
    } else {
      ShiftInExact(mode, i, shift, sign);
    }
  }

  lemma ShiftOutExact(mode: Mode, i: u128, shift: nat, sign: bool)
    requires shift > 127
    ensures ShiftRightRound(mode, i, shift, sign) == RoundDiv(DirectionOf(mode, sign), i, Pow2(shift))
            <==> !(shift == 128 && mode == Nearest && i > U127)
  {
    hide Pow2;
    Pow2Of128();
    Pow2Monotone(128, shift);
    DivUnique(i, Pow2(shift), 0, i);
    if shift > 128 {
      Pow2Strict(128, shift);
    }
  }

  lemma ShiftInExact(mode: Mode, i: u128, shift: nat, sign: bool)
    requires 1 <= shift <= 127
    ensures ShiftRightRound(mode, i, shift, sign) == RoundDiv(DirectionOf(mode, sign), i, Pow2(shift))
  {
    var half, d := Pow2(shift - 1), Pow2(shift);
    assert d == 2 * half;
    hide Pow2;
    GuardAndRest(i, half, d);
  }

  /** The guard bit and the bits below it, against the whole remainder. */
  lemma GuardAndRest(i: nat, half: nat, d: nat)
    requires half > 0 && d == 2 * half
    ensures i / d == i / half / 2
    ensures i % d == (if i / half % 2 == 1 then half else 0) + i % half
    ensures 0 <= i % half < half && 0 <= i / half
  {
    DivTwice(i, half, 2);
    MulAssoc(half, 2, 1);
    DivDef(i, half);
    var guard := i / half % 2;
    if guard == 0 {
      MulLe(0, 0, half);
    } else {
      assert guard == 1;
    }
  }

  /** S stands for the exact magnitude e, in units of weight 2^w: the two
      compare alike with every even number of units. */
  ghost predicate Stands(e: Exact, s: int, w: int) {
    forall t: int :: t % 2 == 0 ==>
      && (AtMost(Units(t, w), e) <==> t <= s)
      && (AtLeast(Units(t, w), e) <==> s <= t)
  }

  lemma StandsForItself(s: int, w: int)
    ensures Stands(Number(Units(s, w)), s, w)
  {
    hide Units;
    forall t: int | t % 2 == 0
      ensures AtMost(Units(t, w), Number(Units(s, w))) <==> t <= s
      ensures AtLeast(Units(t, w), Number(Units(s, w))) <==> s <= t
    {
      UnitsOrder(t, s, w);
    }
  }

  lemma StandsAt(e: Exact, s: int, w: int, t: int)
    requires Stands(e, s, w)
    ensures AtMost(Units(2 * t, w), e) <==> 2 * t <= s
    ensures AtLeast(Units(2 * t, w), e) <==> s <= 2 * t
  {
    assert (2 * t) % 2 == 0;
  }

  /** What stands at weight 2^w also compares alike with whole numbers of 2^(w+k), k > 0. */
  lemma StandsAtMultiple(e: Exact, s: int, w: int, m: int, k: nat)
    requires Stands(e, s, w) && k > 0
    ensures AtMost(Units(m, w + k), e) <==> m * Pow2(k) <= s
    ensures AtLeast(Units(m, w + k), e) <==> s <= m * Pow2(k)
  {
    UnitsRescale(m, k, w);
    assert Pow2(k) == 2 * Pow2(k - 1);
    hide Pow2, Units, AtMost, AtLeast;
    MulSwap(2, Pow2(k - 1), m);
    MulAssoc(2, m, Pow2(k - 1));
    MulAssoc(m, Pow2(k), 1);
    MulAssoc(m, Pow2(k - 1), 1);
    StandsAt(e, s, w, m * Pow2(k - 1));
  }

  /** The 64 leading bits of a 128-bit significand, rounded. */
  lemma RoundsAt64(dir: Direction, e: Exact, s: u128, w: int)
    requires s >= U127 && w + 64 >= LEAST
    requires Stands(e, s, w)
    ensures TOP <= RoundDiv(dir, s, U64) <= U64
    ensures RoundsTo(dir, e, Carry(RoundDiv(dir, s, U64), w + 64))
  {
    hide Units, AtMost, AtLeast, Stands, RoundsTo;
    Pow2Of64();
    var r := RoundDiv(dir, s, U64);
    StandsAtMultiple(e, s, w, r, 64);
    StandsAtMultiple(e, s, w, r + 1, 64);
    StandsAtMultiple(e, s, w, r - 1, 64);
    StandsAtMultiple(e, s, w, TOP, 64);
    match dir
    case TowardZero => DownByNeighbours(e, r, w + 64);
    case AwayFromZero => UpByNeighbours(e, r, w + 64);
    case ToEven =>
      StandsAtMultiple(e, s, w, 2 * r - 1, 63);
      StandsAtMultiple(e, s, w, 2 * r + 1, 63);
      NearestByNeighbours(e, r, w + 64);
  }

  /** What u128_normalize_round computes when the magnitude is not below the smallest normal. */
  lemma NormalizeRoundEncodes(mode: Mode, signif: u128, exp: int, sign: bool)
    requires signif > 0 && exp - Clz128(signif) >= EMIN
    ensures var shift := Clz128(signif);
      TOP <= RoundDiv(DirectionOf(mode, sign), signif * Pow2(shift), U64) <= U64
      && Encodes(mode, sign, Carry(RoundDiv(DirectionOf(mode, sign), signif * Pow2(shift), U64), exp - shift - 63),
                 NormalizeRound(mode, signif, exp, sign))
  {
    hide Pow2;
    var shift := Clz128(signif);
    Pow2Of64();
    ShiftRightRoundExact(mode, signif * Pow2(shift), 64, sign);
  }

  /** u128_normalize_round, whenever the magnitude is not below the smallest
      normal number: one rounding, of the exact result, overflow included. */
  lemma NormalizeRoundDelivers(mode: Mode, e: Exact, signif: u128, exp: int, sign: bool)
    requires signif > 0 && exp - Clz128(signif) >= EMIN
    requires Stands(e, signif * Pow2(Clz128(signif)), exp - Clz128(signif) - 127)
    ensures Delivers(mode, sign, e, NormalizeRound(mode, signif, exp, sign))
  {
    hide Pow2, Units, Stands, RoundsTo, NormalizeRound, Encodes, RoundDiv;
    var shift := Clz128(signif);
    RoundsAt64(DirectionOf(mode, sign), e, signif * Pow2(shift), exp - shift - 127);
    NormalizeRoundEncodes(mode, signif, exp, sign);
  }
}
