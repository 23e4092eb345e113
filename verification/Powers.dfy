/** Powers of two, as naturals (bit positions of a machine word) and as reals
    (the weight of a floating-point exponent). */
module Powers {

  function Pow2(n: nat): (r: nat)
    ensures r >= 1
  {
    if n == 0 then 1 else 2 * Pow2(n - 1)
  }

  lemma Pow2Zero()
    ensures Pow2(0) == 1 && Pow2(1) == 2
  {
  }

  lemma {:induction false} Pow2Add(a: nat, b: nat)
    ensures Pow2(a + b) == Pow2(a) * Pow2(b)
  {
    if b != 0 {
      Pow2Add(a, b - 1);
    }
  }

  lemma {:induction false} Pow2Monotone(a: nat, b: nat)
    requires a <= b
    ensures Pow2(a) <= Pow2(b)
  {
    if a < b {
      Pow2Monotone(a, b - 1);
    }
  }

  lemma Pow2Strict(a: nat, b: nat)
    requires a < b
    ensures 2 * Pow2(a) <= Pow2(b)
  {
    Pow2Monotone(a + 1, b);
  }

  lemma Pow2Of16()
    ensures Pow2(16) == 0x1_0000
  {
    assert Pow2(4) == 16;
    Pow2Add(4, 4);
    Pow2Add(8, 8);
  }

  lemma Pow2Of32()
    ensures Pow2(32) == 0x1_0000_0000
  {
    Pow2Of16();
    Pow2Add(16, 16);
  }

  lemma Pow2Of64()
    ensures Pow2(62) == 0x4000_0000_0000_0000
    ensures Pow2(63) == 0x8000_0000_0000_0000
    ensures Pow2(64) == 0x1_0000_0000_0000_0000
  {
    Pow2Of32();
    Pow2Add(32, 32);
    assert Pow2(64) == 2 * Pow2(63);
  }

  lemma Pow2Of128()
    ensures Pow2(126) == 0x4000_0000_0000_0000_0000_0000_0000_0000
    ensures Pow2(127) == 0x8000_0000_0000_0000_0000_0000_0000_0000
    ensures Pow2(128) == 0x1_0000_0000_0000_0000_0000_0000_0000_0000
  {
    Pow2Of64();
    Pow2Add(64, 64);
    assert Pow2(128) == 2 * Pow2(127);
  }

  /** The index of the highest set bit. */
  function TopBit(x: nat): (l: nat)
    requires x > 0
    ensures Pow2(l) <= x < 2 * Pow2(l)
  {
    if x == 1 then 0 else 1 + TopBit(x / 2)
  }

  lemma TopBitUnique(x: nat, l: nat)
    requires Pow2(l) <= x < 2 * Pow2(l)
    ensures TopBit(x) == l
  {
    var t := TopBit(x);
    if t < l {
      Pow2Strict(t, l);
    } else if l < t {
      Pow2Strict(l, t);
    }
  }

  lemma TopBitBelow(x: nat, n: nat)
    requires 0 < x < Pow2(n)
    ensures TopBit(x) < n
  {
    if TopBit(x) >= n {
      Pow2Monotone(n, TopBit(x));
    }
  }

  /** 2 to any integer power. */
  ghost function P2(e: int): (r: real)
    ensures r > 0.0
    decreases if e >= 0 then e else -e
  {
    if e == 0 then 1.0 else if e > 0 then 2.0 * P2(e - 1) else P2(e + 1) / 2.0
  }

  lemma P2Step(e: int)
    ensures P2(0) == 1.0
    ensures P2(e + 1) == 2.0 * P2(e)
  {
  }

  lemma Doubled(z: real, zz: real, x: real, y: real, yy: real)
    requires zz == 2.0 * z && yy == 2.0 * y
    ensures z == x * y <==> zz == x * yy
  {
    assert x * yy == 2.0 * (x * y);
  }

  lemma {:induction false} P2AddUp(a: int, b: nat)
    ensures P2(a + b) == P2(a) * P2(b)
  {
    hide P2;
    P2Step(b - 1);
    if b != 0 {
      P2AddUp(a, b - 1);
      P2Step(a + b - 1);
      Doubled(P2(a + b - 1), P2(a + b), P2(a), P2(b - 1), P2(b));
    }
  }

  lemma P2Add(a: int, b: int)
    ensures P2(a + b) == P2(a) * P2(b)
  {
    hide P2;
    if b >= 0 {
      P2AddUp(a, b);
    } else {
      P2Inverse(b);
      P2AddUp(a + b, -b);
      Cancel(P2(a), P2(a + b), P2(-b), P2(b));
    }
  }

  lemma P2Inverse(e: int)
    ensures P2(e) * P2(-e) == 1.0
  {
    hide P2;
    P2Step(0);
    if e >= 0 {
      P2AddUp(-e, e);
    } else {
      P2AddUp(e, -e);
    }
  }

  lemma Cancel(a: real, c: real, p: real, q: real)
    requires a == c * p && q * p == 1.0
    ensures c == a * q
  {
    assert a * q == c * (p * q);
  }

  lemma {:induction false} P2OfNat(n: nat)
    ensures P2(n) == Pow2(n) as real
  {
    if n != 0 {
      P2OfNat(n - 1);
    }
  }

  lemma P2Monotone(a: int, b: int)
    requires a <= b
    ensures P2(a) <= P2(b)
    decreases b - a
  {
    if a < b {
      P2Monotone(a, b - 1);
      P2Step(b - 1);
    }
  }

  // ---- whole numbers of units of weight 2^q ----

  /** k doubled q times, or halved -q times. */
  ghost function Units(k: int, q: int): real
    decreases if q >= 0 then q else -q
  {
    if q == 0 then k as real else if q > 0 then 2.0 * Units(k, q - 1) else Units(k, q + 1) / 2.0
  }

  lemma {:induction false} UnitsIs(k: int, q: int)
    ensures Units(k, q) == k as real * P2(q)
    decreases if q >= 0 then q else -q
  {
    if q > 0 {
      UnitsIs(k, q - 1);
      Doubled(Units(k, q - 1), Units(k, q), k as real, P2(q - 1), P2(q));
    } else if q < 0 {
      UnitsIs(k, q + 1);
      Doubled(Units(k, q), Units(k, q + 1), k as real, P2(q), P2(q + 1));
    }
  }

  /** Scaling by a positive weight keeps order, in both directions. */
  lemma ScaleOrder(x: real, y: real, w: real)
    requires w > 0.0
    ensures x <= y <==> x * w <= y * w
    ensures x < y <==> x * w < y * w
  {
    if x < y {
      assert (y - x) * w > 0.0;
    } else if y < x {
      assert (x - y) * w > 0.0;
    }
  }

  lemma UnitsOrder(a: int, b: int, q: int)
    ensures a <= b <==> Units(a, q) <= Units(b, q)
    ensures a < b <==> Units(a, q) < Units(b, q)
    ensures a == b <==> Units(a, q) == Units(b, q)
    ensures Units(0, q) == 0.0
  {
    hide P2, Units;
    UnitsIs(a, q);
    UnitsIs(b, q);
    UnitsIs(0, q);
    ScaleOrder(a as real, b as real, P2(q));
  }

  lemma Reassociate(x: real, y: real, z: real)
    ensures x * (y * z) == (x * z) * y
  {
  }

  /** A number of units of one weight, counted in units of a smaller weight. */
  lemma UnitsRescale(m: int, k: nat, q: int)
    ensures Units(m, q + k) == Units(m * Pow2(k), q)
  {
    hide P2, Units;
    UnitsIs(m, q + k);
    UnitsIs(m * Pow2(k), q);
    P2Add(q, k);
    P2OfNat(k);
    Reassociate(m as real, P2(q), Pow2(k) as real);
  }

  lemma UnitsDouble(m: int, q: int)
    ensures Units(m, q + 1) == Units(2 * m, q)
  {
    UnitsRescale(m, 1, q);
  }

  /** The mean of m units and k units is m + k units of half the weight. */
  lemma UnitsMiddle(m: int, k: int, q: int)
    ensures (Units(m, q) + Units(k, q)) / 2.0 == Units(m + k, q - 1)
  {
    hide P2, Units;
    UnitsIs(m, q);
    UnitsIs(k, q);
    UnitsIs(m + k, q - 1);
    P2Step(q - 1);
    MiddleOf(m as real, k as real, P2(q - 1));
  }

  lemma MiddleOf(m: real, k: real, u: real)
    ensures (m * (2.0 * u) + k * (2.0 * u)) / 2.0 == (m + k) * u
  {
  }

  /** Fewer units of no greater weight are less. */
  lemma UnitsLess(a: nat, p: int, b: nat, q: int)
    requires a < b && p <= q
    ensures Units(a, p) < Units(b, q)
  {
    hide P2, Units;
    UnitsIs(a, p);
    UnitsIs(b, q);
    P2Monotone(p, q);
    SmallProduct(a as real, P2(p), b as real, P2(q));
  }

  lemma SmallProduct(a: real, p: real, b: real, r: real)
    requires 0.0 <= a < b && 0.0 < p <= r
    ensures a * p < b * r
  {
    assert a * p <= a * r;
    assert (b - a) * r > 0.0;
  }

  lemma UnitsSum(a: int, b: int, q: int)
    ensures Units(a, q) + Units(b, q) == Units(a + b, q)
    ensures Units(a, q) - Units(b, q) == Units(a - b, q)
    ensures Units(-a, q) == -Units(a, q)
  {
    hide P2, Units;
    UnitsIs(a, q);
    UnitsIs(b, q);
    UnitsIs(a + b, q);
    UnitsIs(a - b, q);
    UnitsIs(-a, q);
    SumOf(a as real, b as real, P2(q));
    SumOf(0.0, a as real, P2(q));
  }

  lemma SumOf(a: real, b: real, w: real)
    ensures a * w + b * w == (a + b) * w
    ensures a * w - b * w == (a - b) * w
  {
  }

  lemma UnitsProduct(a: int, p: int, b: int, q: int)
    ensures Units(a, p) * Units(b, q) == Units(a * b, p + q)
  {
    hide P2, Units;
    UnitsIs(a, p);
    UnitsIs(b, q);
    UnitsIs(a * b, p + q);
    P2Add(p, q);
    ProductOf(a as real, P2(p), b as real, P2(q));
  }

  lemma ProductOf(a: real, p: real, b: real, q: real)
    ensures (a * p) * (b * q) == (a * b) * (p * q)
  {
  }
}
