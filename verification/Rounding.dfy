/** Rounding as IEEE 754-2008 section 4.3 defines it: the result is a member of
    the number format chosen by comparing the exact result with every member.
    Nothing here mentions an algorithm, a shift or a guard bit. */
module Rounding {
  import opened Powers

  datatype Mode = Nearest | Down | Up | Chop

  /** What a rounding mode means for the magnitude of a result of known sign. */
  datatype Direction = TowardZero | AwayFromZero | ToEven

  function DirectionOf(mode: Mode, negative: bool): Direction {
    match mode
    case Nearest => ToEven
    case Chop => TowardZero
    case Down => if negative then AwayFromZero else TowardZero
    case Up => if negative then TowardZero else AwayFromZero
  }

  /** A magnitude, or the numbers that are at most it and those that are at least it. */
  datatype Section = Number(x: real) | Cut(below: iset<real>, above: iset<real>)

  ghost predicate AtMost(y: real, e: Section) {
    match e
    case Number(x) => y <= x
    case Cut(below, _) => y in below
  }

  ghost predicate AtLeast(y: real, e: Section) {
    match e
    case Number(x) => x <= y
    case Cut(_, above) => y in above
  }

  ghost predicate IsCut(e: Section) {
    match e
    case Number(_) => true
    case Cut(below, above) =>
      && (forall y, z :: y in below && z in above ==> y <= z)
      && (forall y, z :: y <= z && z in below ==> y in below)
      && (forall y, z :: y <= z && y in above ==> z in above)
  }

  ghost const ZERO: Section := Number(0.0)

  /** The magnitude of an exact result. A square root need not be rational, so
      a magnitude is known by how it compares with every number. */
  type Exact = e: Section | IsCut(e) ghost witness ZERO

  lemma CutOrder(y: real, z: real, e: Exact)
    ensures AtMost(y, e) && AtLeast(z, e) ==> y <= z
    ensures AtMost(z, e) && y <= z ==> AtMost(y, e)
    ensures AtLeast(y, e) && y <= z ==> AtLeast(z, e)
  {
  }

  predicate SquareAtMost(y: real, square: real) {
    y <= 0.0 || y * y <= square
  }

  predicate SquareAtLeast(y: real, square: real) {
    0.0 <= y && square <= y * y
  }

  ghost function SquareRoot(square: real): Exact {
    var e := Cut(iset y: real | SquareAtMost(y, square), iset y: real | SquareAtLeast(y, square));
    SquareRootIsCut(square, e);
    e
  }

  lemma SquareRootIsCut(square: real, e: Section)
    requires e == Cut(iset y: real | SquareAtMost(y, square), iset y: real | SquareAtLeast(y, square))
    ensures IsCut(e)
  {
    forall y: real, z: real
      ensures y in e.below && z in e.above ==> y <= z
      ensures y <= z && z in e.below ==> y in e.below
      ensures y <= z && y in e.above ==> z in e.above
    {
      if 0.0 <= y <= z {
        Squares(y, z);
      } else if 0.0 <= z < y {
        Squares(z, y);
      }
    }
  }

  lemma Squares(y: real, z: real)
    requires 0.0 <= y <= z
    ensures y * y <= z * z
    ensures y < z ==> y * y < z * z
  {
    DifferenceOfSquares(y, z);
    if y < z {
      ScaleOrder(0.0, z - y, z + y);
    }
  }

  lemma DifferenceOfSquares(y: real, z: real)
    ensures z * z - y * y == (z - y) * (z + y)
  {
  }

  // ---- the format: 64-bit significands, the exponent bounded below only ----

  const TOP: nat := 0x8000_0000_0000_0000          // 2^63
  const FULL: nat := 0x1_0000_0000_0000_0000       // 2^64
  const LEAST: int := -16445                       // weight of the last place of a subnormal
  const GREATEST: int := 16320                     // weight of the last place of the largest numbers

  datatype Grid = Grid(s: nat, q: int) {
    predicate Canonical() {
      s < FULL && q >= LEAST && (s >= TOP || q == LEAST)
    }

    ghost function Value(): real {
      Units(s, q)
    }
  }

  /** g is what the exact magnitude e rounds to, exponent range unbounded above. */
  ghost predicate RoundsTo(dir: Direction, e: Exact, g: Grid) {
    && g.Canonical()
    && match dir
       case TowardZero =>
         AtMost(g.Value(), e) && forall h: Grid :: h.Canonical() && AtMost(h.Value(), e) ==> h.Value() <= g.Value()
       case AwayFromZero =>
         AtLeast(g.Value(), e) && forall h: Grid :: h.Canonical() && AtLeast(h.Value(), e) ==> g.Value() <= h.Value()
       case ToEven =>
         forall h: Grid :: h.Canonical() ==> Nearer(e, g, h)
  }

  /** No other member is nearer to e than g, and a tie has left g even. */
  ghost predicate Nearer(e: Exact, g: Grid, h: Grid) {
    var middle := (g.Value() + h.Value()) / 2.0;
    && (h.Value() < g.Value() ==> AtMost(middle, e))
    && (g.Value() < h.Value() ==> AtLeast(middle, e))
    && (h.Value() != g.Value() && g.s % 2 == 1 ==> !(AtMost(middle, e) && AtLeast(middle, e)))
  }

  /** A significand that rounding may have carried out of 64 bits. */
  function Carry(r: nat, q: int): Grid {
    if r == FULL then Grid(TOP, q + 1) else Grid(r, q)
  }

  lemma CarryValue(r: nat, q: int)
    ensures Carry(r, q).Value() == Units(r, q)
  {
    UnitsDouble(TOP, q);
  }

  /** Members of the format are whole numbers of the least unit, and at or above
      2^63 units of weight q, whole numbers of those. */
  lemma WholeUnits(h: Grid, q: int) returns (k: nat)
    requires h.Canonical() && (q == LEAST || h.Value() >= Units(TOP, q))
    ensures h.q >= q
    ensures h.Value() == Units(k, q)
  {
    hide Units;
    if h.q < q {
      UnitsLess(h.s, h.q, FULL, q - 1);
      UnitsDouble(TOP, q - 1);
      assert false;
    }
    k := h.s * Pow2(h.q - q);
    UnitsRescale(h.s, h.q - q, q);
  }

  // ---- a member is recognised by its neighbours alone ----

  /** Around r units of weight q the format has that spacing. */
  predicate Spacing(r: nat, q: int) {
    r <= FULL && (q == LEAST || (q > LEAST && TOP <= r))
  }

  /** e is not below the part of the format with that spacing. */
  ghost predicate Reaches(e: Exact, q: int) {
    q == LEAST || AtMost(Units(TOP, q), e)
  }

  lemma DownByNeighbours(e: Exact, r: nat, q: int)
    requires Spacing(r, q) && r < FULL
    requires AtMost(Units(r, q), e)
    requires !AtMost(Units(r + 1, q), e)
    ensures RoundsTo(TowardZero, e, Grid(r, q))
  {
    hide Units, AtMost, AtLeast;
    var g := Grid(r, q);
    forall h: Grid | h.Canonical() && AtMost(h.Value(), e)
      ensures h.Value() <= g.Value()
    {
      if h.Value() > g.Value() {
        UnitsOrder(TOP, r, q);
        var k := WholeUnits(h, q);
        UnitsOrder(r, k, q);
        UnitsOrder(r + 1, k, q);
        CutOrder(Units(r + 1, q), h.Value(), e);
      }
    }
  }

  lemma UpByNeighbours(e: Exact, r: nat, q: int)
    requires Spacing(r, q) && Reaches(e, q)
    requires AtLeast(Units(r, q), e)
    requires (r == TOP && q != LEAST) || !AtLeast(Units(r - 1, q), e)
    ensures RoundsTo(AwayFromZero, e, Carry(r, q))
  {
    hide Units, AtMost, AtLeast;
    var g := Carry(r, q);
    CarryValue(r, q);
    forall h: Grid | h.Canonical() && AtLeast(h.Value(), e)
      ensures g.Value() <= h.Value()
    {
      CutOrder(Units(TOP, q), h.Value(), e);
      var k := WholeUnits(h, q);
      UnitsOrder(TOP, k, q);
      if k < r {
        UnitsOrder(k, r - 1, q);
        CutOrder(h.Value(), Units(r - 1, q), e);
        assert false;
      }
      UnitsOrder(r, k, q);
    }
  }

  /** The halfway points either side of r units bracket e; an odd r is not on one of them. */
  ghost predicate WithinHalfUnit(e: Exact, r: nat, q: int) {
    && ((r == TOP && q != LEAST) || AtMost(Units(2 * r - 1, q - 1), e))
    && AtLeast(Units(2 * r + 1, q - 1), e)
    && (r % 2 == 1 ==> !AtLeast(Units(2 * r - 1, q - 1), e) && !AtMost(Units(2 * r + 1, q - 1), e))
  }

  lemma NearestByNeighbours(e: Exact, r: nat, q: int)
    requires Spacing(r, q) && Reaches(e, q)
    requires WithinHalfUnit(e, r, q)
    ensures RoundsTo(ToEven, e, Carry(r, q))
  {
    hide Units, AtMost, AtLeast, WithinHalfUnit;
    CarryValue(r, q);
    forall h: Grid | h.Canonical()
      ensures Nearer(e, Carry(r, q), h)
    {
      if q == LEAST || h.Value() >= Units(TOP, q) {
        NearerThanWhole(e, r, q, h);
      } else {
        NearerThanFine(e, r, q, h);
      }
    }
  }

  lemma NearerThanWhole(e: Exact, r: nat, q: int, h: Grid)
    requires Spacing(r, q) && h.Canonical()
    requires q == LEAST || h.Value() >= Units(TOP, q)
    requires WithinHalfUnit(e, r, q)
    ensures Nearer(e, Carry(r, q), h)
  {
    hide Units, AtMost, AtLeast;
    CarryValue(r, q);
    var k := WholeUnits(h, q);
    UnitsMiddle(r, k, q);
    UnitsOrder(TOP, k, q);
    UnitsOrder(r, k, q);
    UnitsOrder(r + k, 2 * r - 1, q - 1);
    UnitsOrder(2 * r + 1, r + k, q - 1);
    CutOrder(Units(r + k, q - 1), Units(2 * r - 1, q - 1), e);
    CutOrder(Units(2 * r - 1, q - 1), Units(r + k, q - 1), e);
    CutOrder(Units(2 * r + 1, q - 1), Units(r + k, q - 1), e);
    CutOrder(Units(r + k, q - 1), Units(2 * r + 1, q - 1), e);
  }

  lemma NearerThanFine(e: Exact, r: nat, q: int, h: Grid)
    requires Spacing(r, q) && q != LEAST && h.Canonical()
    requires h.Value() < Units(TOP, q) && AtMost(Units(TOP, q), e)
    requires WithinHalfUnit(e, r, q)
    ensures Nearer(e, Carry(r, q), h)
  {
    hide Units, AtMost, AtLeast;
    CarryValue(r, q);
    var middle := (Units(r, q) + h.Value()) / 2.0;
    UnitsOrder(TOP, r, q);
    if r == TOP {
      CutOrder(middle, Units(TOP, q), e);
    } else {
      UnitsMiddle(r, TOP, q);
      UnitsOrder(r + TOP, 2 * r - 1, q - 1);
      CutOrder(middle, Units(2 * r - 1, q - 1), e);
      CutOrder(Units(2 * r - 1, q - 1), middle, e);
    }
  }

  // ---- the reference is a function of the exact result, and monotone ----

  lemma CanonicalUnique(g: Grid, h: Grid)
    requires g.Canonical() && h.Canonical() && g.Value() == h.Value()
    ensures g == h
  {
    hide Units, AtMost, AtLeast;
    if g.q < h.q {
      CanonicalOrder(g, h);
    } else if h.q < g.q {
      CanonicalOrder(h, g);
    } else {
      UnitsOrder(g.s, h.s, g.q);
    }
  }

  lemma CanonicalOrder(g: Grid, h: Grid)
    requires g.Canonical() && h.Canonical() && g.q < h.q
    ensures g.Value() < h.Value()
  {
    hide Units;
    UnitsLess(g.s, g.q, FULL, h.q - 1);
    UnitsDouble(TOP, h.q - 1);
    UnitsOrder(TOP, h.s, h.q);
  }

  /** Nothing lies strictly between a member and the next one. */
  lemma NextMember(g: Grid, h: Grid)
    requires g.Canonical() && h.Canonical() && g.Value() < h.Value()
    ensures Units(g.s + 1, g.q) <= h.Value()
  {
    hide Units;
    if h.q < g.q {
      CanonicalOrder(h, g);
      assert false;
    }
    UnitsRescale(h.s, h.q - g.q, g.q);
    var k := h.s * Pow2(h.q - g.q);
    UnitsOrder(g.s, k, g.q);
    UnitsOrder(g.s + 1, k, g.q);
  }

  lemma NoTwoNearest(e: Exact, g: Grid, h: Grid)
    requires RoundsTo(ToEven, e, g) && RoundsTo(ToEven, e, h)
    ensures g.Value() >= h.Value()
  {
    hide Units, AtMost, AtLeast;
    if g.Value() < h.Value() {
      assert Nearer(e, g, h) && Nearer(e, h, g);
      var next := Carry(g.s + 1, g.q);
      CarryValue(g.s + 1, g.q);
      UnitsOrder(g.s, g.s + 1, g.q);
      NextMember(g, h);
      assert Nearer(e, g, next);
      CutOrder((g.Value() + h.Value()) / 2.0, (g.Value() + next.Value()) / 2.0, e);
      CanonicalUnique(next, h);
    }
  }

  /** Every exact result has at most one correct rounding. */
  lemma RoundingUnique(dir: Direction, e: Exact, g: Grid, h: Grid)
    requires RoundsTo(dir, e, g) && RoundsTo(dir, e, h)
    ensures g == h
  {
    hide Units, AtMost, AtLeast;
    if dir == ToEven {
      NoTwoNearest(e, g, h);
      NoTwoNearest(e, h, g);
    }
    CanonicalUnique(g, h);
  }

  /** A member of the format rounds to itself. */
  lemma ExactRounds(dir: Direction, g: Grid)
    requires g.Canonical()
    ensures RoundsTo(dir, Number(g.Value()), g)
  {
    hide Units;
  }

  /** Rounding keeps order. */
  lemma RoundingMonotone(dir: Direction, x: real, y: real, g: Grid, h: Grid)
    requires x <= y
    requires RoundsTo(dir, Number(x), g) && RoundsTo(dir, Number(y), h)
    ensures g.Value() <= h.Value()
  {
    hide Units;
    if dir == ToEven && h.Value() < g.Value() {
      assert Nearer(Number(x), g, h) && Nearer(Number(y), h, g);
      assert x == y;
      RoundingUnique(dir, Number(x), g, h);
    }
  }
}
