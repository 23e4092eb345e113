/** Products, quotients and remainders of naturals, one fact per lemma. */
module NatArith {

  lemma MulLe(a: nat, b: nat, c: nat)
    requires a <= b
    ensures a * c <= b * c
  {
  }

  lemma MulLt(a: nat, b: nat, c: nat)
    requires a < b && c > 0
    ensures a * c < b * c
    ensures (a + 1) * c <= b * c
  {
    MulLe(a + 1, b, c);
  }

  lemma MulCancel(a: nat, b: nat, c: nat)
    requires c > 0
    ensures a * c < b * c <==> a < b
    ensures a * c <= b * c <==> a <= b
  {
    if a < b {
      MulLt(a, b, c);
    } else {
      MulLe(b, a, c);
      if b < a {
        MulLt(b, a, c);
      }
    }
  }

  lemma MulAssoc(a: int, b: int, c: int)
    ensures (a * b) * c == a * (b * c)
    ensures a * b == b * a
  {
  }

  lemma MulSwap(a: int, b: int, c: int)
    ensures (a * b) * c == (a * c) * b
  {
  }

  lemma DivDef(x: nat, d: nat)
    requires d > 0
    ensures x == x / d * d + x % d
    ensures 0 <= x % d < d
    ensures 0 <= x / d <= x
  {
    DivBasic(x, d);
    var q := x / d;
    MulLe(1, d, q);
    MulAssoc(d, q, 1);
  }

  lemma DivBasic(x: nat, d: nat)
    requires d > 0
    ensures x == x / d * d + x % d
    ensures 0 <= x % d < d
  {
  }

  lemma DivUnique(x: nat, d: nat, q: nat, r: nat)
    requires r < d && x == q * d + r
    ensures x / d == q && x % d == r
  {
    DivDef(x, d);
    var y := x / d;
    if y < q {
      MulLt(y, q, d);
      Distribute(y, d);
    } else if q < y {
      MulLt(q, y, d);
      Distribute(q, d);
    }
  }

  lemma Distribute(y: int, d: int)
    ensures (y + 1) * d == y * d + d
    ensures (y - 1) * d == y * d - d
  {
  }

  /** Dividing by a product is dividing twice. */
  lemma DivTwice(x: nat, c: nat, d: nat)
    requires c > 0 && d > 0
    ensures c * d > 0
    ensures x / (c * d) == x / c / d
    ensures x % (c * d) == x / c % d * c + x % c
  {
    MulLe(1, c, d);
    var q, r := x / c, x % c;
    DivDef(x, c);
    DivDef(q, d);
    var qq, rr := q / d, q % d;
    SplitProduct(qq, d, rr, c);
    MulLe(rr + 1, d, c);
    Distribute(rr, c);
    MulAssoc(c, d, 1);
    DivUnique(x, c * d, qq, rr * c + r);
  }

  lemma SplitProduct(a: int, d: int, r: int, c: int)
    ensures (a * d + r) * c == a * (c * d) + r * c
  {
  }
}
