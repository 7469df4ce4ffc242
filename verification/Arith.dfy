/** Facts about division that the nibble, hexadecimal and key arithmetic share. */
module Arith {

  /** The largest multiple of m that is at most x. */
  function FloorTo(x: nat, m: nat): (r: nat)
    requires m > 0
    ensures r <= x < r + m
  {
    x - x % m
  }

  lemma DivModUnique(x: nat, m: nat, q: nat, r: nat)
    requires m > 0 && r < m && x == m * q + r
    ensures x / m == q && x % m == r
  {
    var d := x / m - q;
    assert m * d == r - x % m;
    assert d >= 1 ==> m * d >= m;
    assert d <= -1 ==> m * (d + 1) <= 0;
  }

  lemma MultipleMod(k: nat, m: nat)
    requires m > 0
    ensures (m * k) % m == 0 && (m * k) / m == k
  {
    DivModUnique(m * k, m, k, 0);
  }

  lemma FloorIsMultiple(x: nat, m: nat)
    requires m > 0
    ensures FloorTo(x, m) % m == 0 && FloorTo(x, m) == m * (x / m)
    ensures FloorTo(x, m) / m == x / m
  {
    MultipleMod(x / m, m);
  }

  /** Distinct multiples of m are at least m apart. */
  lemma MultiplesApart(x: nat, y: nat, m: nat)
    requires m > 0 && x % m == 0 && y % m == 0 && x < y
    ensures x + m <= y
  {
    assert x == m * (x / m) && y == m * (y / m);
    assert x / m < y / m;
    assert m * (x / m + 1) <= m * (y / m);
  }

  lemma MultipleBelowFloor(x: nat, y: nat, m: nat)
    requires m > 0 && y % m == 0 && y <= x
    ensures y <= FloorTo(x, m)
  {
    FloorIsMultiple(x, m);
    if FloorTo(x, m) < y {
      MultiplesApart(FloorTo(x, m), y, m);
    }
  }

  lemma SumOfMultiples(x: nat, y: nat, m: nat)
    requires m > 0 && x % m == 0 && y % m == 0
    ensures (x + y) % m == 0
    ensures x <= y ==> (y - x) % m == 0
  {
    assert x + y == m * (x / m + y / m);
    MultipleMod(x / m + y / m, m);
    if x <= y {
      DivMonotone(x, y, m);
      assert y - x == m * (y / m - x / m);
      MultipleMod(y / m - x / m, m);
    }
  }

  lemma MultipleOfProduct(x: nat, m: nat, k: nat)
    requires m > 0 && k > 0 && x % (m * k) == 0
    ensures x % m == 0
  {
    assert x == m * (k * (x / (m * k)));
    MultipleMod(k * (x / (m * k)), m);
  }

  lemma QuotientIsNat(x: nat, m: nat)
    requires m > 0
    ensures x / m >= 0
  {
    var q := x / m;
    assert q <= -1 ==> m * (q + 1) <= 0;
  }

  lemma DivMonotone(x: nat, y: nat, m: nat)
    requires m > 0 && x <= y
    ensures x / m <= y / m
  {
    var p, q := x / m, y / m;
    assert p >= q + 1 ==> m * p >= m * (q + 1);
  }

  lemma ProductBound(m: nat, k: nat, r: nat, low: nat)
    requires r < k && low < m
    ensures m * r + low < m * k
  {
    assert m * (r + 1) <= m * k;
  }

  lemma Regroup(m: nat, k: nat, q: nat, r: nat)
    ensures m * (k * q + r) == (m * k) * q + m * r
  {
  }

  /** x in mixed radix: its quotient by m * k, its digit of weight m, and the rest. */
  lemma MixedRadix(x: nat, m: nat, k: nat)
    requires m > 0 && k > 0
    ensures m * k > 0
    ensures x / (m * k) == (x / m) / k && x % (m * k) == m * ((x / m) % k) + x % m
  {
    var y := x / m;
    var q, r, low := y / k, y % k, x % m;
    ProductBound(m, k, r, low);
    assert x == m * y + low;
    assert y == k * q + r;
    Regroup(m, k, q, r);
    DivModUnique(x, m * k, q, m * r + low);
  }

  lemma DivDiv(x: nat, m: nat, k: nat)
    requires m > 0 && k > 0
    ensures m * k > 0 && (x / m) / k == x / (m * k)
    ensures x / m == k * (x / (m * k)) + (x / m) % k
  {
    MixedRadix(x, m, k);
  }

  lemma Assoc(i: nat, j: nat, k: nat)
    ensures i * (j * k) == (i * j) * k
  {
  }

  /** When u divides x + 1, x is one less than a multiple of u. */
  lemma Predecessor(x: nat, u: nat)
    requires u > 0 && (x + 1) % u == 0
    ensures (x + 1) / u >= 1 && x / u == (x + 1) / u - 1
    ensures x == u * (x / u) + (u - 1)
  {
    var k := (x + 1) / u;
    assert x + 1 == u * k;
    assert k == 0 ==> u * k == 0;
    assert u * (k - 1) == u * k - u;
    DivModUnique(x, u, k - 1, u - 1);
  }

  lemma OrderByQuotient(lo: nat, v: nat, hi: nat, u: nat)
    requires u > 0 && lo % u == 0 && (hi + 1) % u == 0
    requires lo / u <= v / u <= hi / u
    ensures lo <= v <= hi
  {
    Predecessor(hi, u);
    assert u * (lo / u) <= u * (v / u) <= u * (hi / u);
  }

  // The next four lemmas speak of the digit of x of weight u in base p.

  lemma ZeroDigit(x: nat, u: nat, p: nat)
    requires u > 0 && p > 0 && x % (u * p) == 0
    ensures (x / u) % p == 0
  {
    var q := x / (u * p);
    assert x == (u * p) * q;
    Assoc(u, p, q);
    MultipleMod(p * q, u);
    MultipleMod(q, p);
  }

  lemma FullDigit(x: nat, u: nat, p: nat)
    requires u > 0 && p > 0 && (x + 1) % (u * p) == 0
    ensures (x / u) % p == p - 1
  {
    var q := (x + 1) / (u * p);
    assert x + 1 == (u * p) * q;
    Assoc(u, p, q);
    MultipleMod(p * q, u);
    Predecessor(x, u);
    var d := x / u;
    assert d + 1 == p * q;
    MultipleMod(q, p);
    Predecessor(d, p);
    DivModUnique(d, p, d / p, p - 1);
  }

  lemma ZeroDigitAligns(x: nat, u: nat, p: nat)
    requires u > 0 && p > 0 && x % u == 0 && (x / u) % p == 0
    ensures x % (u * p) == 0
  {
    var d := x / u;
    var q := d / p;
    assert x == u * d && d == p * q;
    Assoc(u, p, q);
    MultipleMod(q, u * p);
  }

  lemma FullDigitAligns(x: nat, u: nat, p: nat)
    requires u > 0 && p > 0 && (x + 1) % u == 0 && (x / u) % p == p - 1
    ensures (x + 1) % (u * p) == 0
  {
    Predecessor(x, u);
    var d := x / u;
    var q := d / p;
    assert d + 1 == p * q + p == p * (q + 1);
    assert x + 1 == u * d + u == u * (d + 1);
    Assoc(u, p, q + 1);
    MultipleMod(q + 1, u * p);
  }

  lemma ProductAtMost(m: nat, j: nat, c: nat)
    requires m > 0
    ensures m * j <= c <==> j <= c / m
  {
    var q := c / m;
    assert j <= q ==> m * j <= m * q;
    assert j >= q + 1 ==> m * j >= m * (q + 1);
  }

  /** Between values with different quotients by u lies a multiple of u: one just after
      the lower, one just up to the upper. */
  lemma MultiplesBetween(lo: nat, hi: nat, u: nat)
    requires u > 0 && lo / u < hi / u
    ensures var v := u * (lo / u + 1); lo < v <= hi && v % u == 0
    ensures var v := u * (hi / u); lo < v <= hi && v % u == 0
  {
    var p, q := lo / u, hi / u;
    MultipleMod(p + 1, u);
    MultipleMod(q, u);
    QuotientsApart(p, q, u);
  }

  lemma QuotientsApart(p: nat, q: nat, u: nat)
    requires p < q
    ensures u * p + u == u * (p + 1) <= u * q
  {
  }
}
