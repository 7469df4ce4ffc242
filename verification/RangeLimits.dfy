/**
 Where the two bounds on the expansion stop: 2n - 1 rows are really needed, and
 rows that do not match intervals can do with fewer rows than the expansion.
 */
module RangeLimits {
  import opened Arith
  import opened Bits
  import opened Nibbles
  import opened RangeRows

  /** Everything but the first and the last value. */
  ghost function Inner(b: nat, n: nat): (e: int)
  {
    Unit(b, n) - 2
  }

  lemma UnitGap(b: nat, i: nat, n: nat)
    requires b >= 1 && i < n
    ensures 2 * Unit(b, i) <= Unit(b, n)
    ensures b >= 2 || i + 1 < n ==> 4 * Unit(b, i) <= Unit(b, n)
  {
    UnitSplit(b, i, n);
    WideUnit(b, n - i);
    ScaledBound(Unit(b, i), Unit(b, n - i));
  }

  lemma WideUnit(b: nat, d: nat)
    requires b >= 1 && d >= 1
    ensures Unit(b, d) >= 2 && (b >= 2 || d >= 2 ==> Unit(b, d) >= 4)
  {
    SizedProduct(b, d);
    WidePower(b * d);
  }

  lemma SizedProduct(b: nat, d: nat)
    requires b >= 1 && d >= 1
    ensures b * d >= 1 && (b >= 2 || d >= 2 ==> b * d >= 2)
  {
    assert b * d >= b && b * d >= d;
  }

  lemma WidePower(k: nat)
    requires k >= 1
    ensures Pow2(k) >= 2 && (k >= 2 ==> Pow2(k) >= 4)
  {
    if k >= 2 {
      assert Pow2(k) == 2 * Pow2(k - 1) == 4 * Pow2(k - 2);
    }
  }

  lemma ScaledBound(u: nat, p: nat)
    ensures p >= 2 ==> 2 * u <= u * p
    ensures p >= 4 ==> 4 * u <= u * p
  {
  }

  lemma UnitsDivide(b: nat, i: nat, j: nat)
    requires i <= j
    ensures Unit(b, j) % Unit(b, i) == 0
    ensures (Unit(b, j) - Unit(b, i)) % Unit(b, i) == 0
  {
    UnitMonotone(b, i, j);
    MultipleMod(1, Unit(b, j));
    AlignedBelow(b, Unit(b, j), i, j);
    MultipleMod(1, Unit(b, i));
    SumOfMultiples(Unit(b, i), Unit(b, j), Unit(b, i));
  }

  /** The last complete unit of a nibble in the inner interval. */
  lemma InnerUnitEnd(b: nat, n: nat, i: nat)
    requires b >= 1 && i < n
    ensures UnitEnd(b, i, Inner(b, n)) == if i == 0 then Inner(b, n) else Unit(b, n) - Unit(b, i) - 1
  {
    UnitGap(b, i, n);
    UnitsDivide(b, i, n);
    var u, top := Unit(b, i), Unit(b, n);
    if i == 0 {
      assert Unit(b, 0) == Pow2(b * 0) == 1;
    } else {
      UnitGap(b, 0, i);
      FloorBelowMultiple(top, u);
    }
  }

  /** One below a multiple of u the last multiple is one unit lower. */
  lemma FloorBelowMultiple(top: nat, u: nat)
    requires u <= top && 1 <= u && (top - u) % u == 0
    ensures FloorTo(top - 1, u) == top - u
  {
    var q := (top - u) / u;
    assert top - 1 == u * q + (u - 1);
    DivModUnique(top - 1, u, q, u - 1);
  }

  /** Level i is the highest that fits at s, and its row ends at h. */
  ghost predicate RowHere(b: nat, n: nat, s: nat, e: nat, i: nat, h: nat)
  {
    && i < n && Fits(b, i, s, e) && h == RowEnd(b, i, s, e)
    && forall j | i < j < n :: !Fits(b, j, s, e)
  }

  lemma LastRow(b: nat, n: nat, s: nat, e: nat, i: nat)
    requires b >= 1 && n >= 1 && s <= e < Unit(b, n) && RowHere(b, n, s, e, i, e)
    ensures |Rows(b, n, s, e)| == 1
  {
    RowsAtLevel(b, n, s, e, i, e);
  }

  lemma NextRow(b: nat, n: nat, s: nat, e: nat, i: nat, h: nat)
    requires b >= 1 && n >= 1 && s <= h < e < Unit(b, n) && RowHere(b, n, s, e, i, h)
    ensures |Rows(b, n, s, e)| == 1 + |Rows(b, n, h + 1, e)|
  {
    RowsAtLevel(b, n, s, e, i, h);
  }

  /** Where the last unit of level l starts. */
  ghost function LastUnit(b: nat, n: nat, l: nat): (s: int)
  {
    Unit(b, n) - Unit(b, l)
  }

  lemma LastUnitInside(b: nat, n: nat, l: nat)
    requires b >= 1 && 1 <= l < n
    ensures 0 <= LastUnit(b, n, l) <= Inner(b, n) < Unit(b, n)
    ensures LastUnit(b, n, l) < LastUnit(b, n, l - 1)
  {
    UnitGap(b, l, n);
    UnitGap(b, l - 1, l);
  }

  /** From the last unit of level l on, every level below it gives one row. */
  lemma {:induction false} InnerFalls(b: nat, n: nat, l: nat)
    requires b >= 1 && 1 <= l < n
    ensures 0 <= LastUnit(b, n, l) <= Inner(b, n) && |Rows(b, n, LastUnit(b, n, l), Inner(b, n))| == l
  {
    LastUnitInside(b, n, l);
    FallingRowHere(b, n, l);
    var s, e := LastUnit(b, n, l), Inner(b, n);
    if l > 1 {
      InnerFalls(b, n, l - 1);
      NextRow(b, n, s, e, l - 1, LastUnit(b, n, l - 1) - 1);
    } else {
      LastRow(b, n, s, e, l - 1);
    }
  }

  lemma FallingRowHere(b: nat, n: nat, l: nat)
    requires b >= 1 && 1 <= l < n
    ensures 0 <= LastUnit(b, n, l) && 0 <= Inner(b, n) && 0 < LastUnit(b, n, l - 1)
    ensures RowHere(b, n, LastUnit(b, n, l), Inner(b, n), l - 1, if l == 1 then Inner(b, n) else LastUnit(b, n, l - 1) - 1)
  {
    LastUnitInside(b, n, l);
    InnerFallRow(b, n, l);
    InnerUnitEnd(b, n, l - 1);
  }

  /** There the level below l is the highest that fits, and its row ends with its last unit. */
  lemma InnerFallRow(b: nat, n: nat, l: nat)
    requires b >= 1 && 1 <= l < n
    ensures 0 <= LastUnit(b, n, l) && 0 <= Inner(b, n)
    ensures var s, e := LastUnit(b, n, l), Inner(b, n);
      UnitEnd(b, l - 1, e) >= 0 && RowHere(b, n, s, e, l - 1, UnitEnd(b, l - 1, e))
  {
    UnitGap(b, l, n);
    UnitGap(b, l - 1, l);
    var s, e := LastUnit(b, n, l), Inner(b, n);
    UnitsDivide(b, l, n);
    AlignedBelow(b, s, l - 1, l);
    assert Fits(b, l - 1, s, e);
    forall j | l <= j < n
      ensures !Fits(b, j, s, e)
    {
      UnitMonotone(b, l, j);
    }
    InnerFallEnd(b, n, l);
    RowEndIsBlock(b, l - 1, s, e);
  }

  lemma InnerFallEnd(b: nat, n: nat, l: nat)
    requires b >= 1 && 1 <= l < n
    ensures 0 <= Inner(b, n) && Unit(b, l) <= Unit(b, n)
    ensures UnitEnd(b, l - 1, Inner(b, n)) <= BlockEnd(b, l, Unit(b, n) - Unit(b, l))
  {
    UnitGap(b, l, n);
    UnitsDivide(b, l, n);
    MultipleMod(1, Unit(b, l));
  }

  /** From the first unit of level l on, every level up to the top gives one row,
      and every level below the top one more. */
  lemma {:induction false} InnerRises(b: nat, n: nat, l: nat)
    requires b >= 1 && l < n && (b >= 2 || n >= 2)
    ensures Unit(b, l) <= Inner(b, n)
    ensures |Rows(b, n, Unit(b, l), Inner(b, n))| == MaxRows(b, n) - l
    decreases n - l
  {
    UnitGap(b, l, n);
    if l + 1 < n {
      InnerRises(b, n, l + 1);
      InnerNext(b, n, l);
    } else if b == 1 {
      InnerTopBit(n);
    } else {
      InnerTop(b, n);
    }
  }

  /** With nibbles of one bit no whole unit of the top bit is left. */
  lemma InnerTopBit(n: nat)
    requires n >= 2
    ensures Unit(1, n - 1) <= Inner(1, n)
    ensures |Rows(1, n, Unit(1, n - 1), Inner(1, n))| == n - 1
  {
    InnerFalls(1, n, n - 1);
    UnitStep(1, n - 1);
    assert Pow2(1) == 2;
  }

  /** Below the top level the row from the first unit of level l ends before the first
      unit of the next level. */
  lemma InnerNext(b: nat, n: nat, l: nat)
    requires b >= 1 && l + 1 < n && Unit(b, l) <= Inner(b, n) && Unit(b, l + 1) <= Inner(b, n)
    ensures |Rows(b, n, Unit(b, l), Inner(b, n))| == 1 + |Rows(b, n, Unit(b, l + 1), Inner(b, n))|
  {
    InnerRow(b, n, l);
    InnerUnitEnd(b, n, l);
    UnitGap(b, l, l + 1);
    UnitGap(b, l + 1, n);
    NextRow(b, n, Unit(b, l), Inner(b, n), l, Unit(b, l + 1) - 1);
  }

  /** The top level gives one row, and the levels below it one each. */
  lemma InnerTop(b: nat, n: nat)
    requires b >= 2 && n >= 1
    ensures Unit(b, n - 1) <= Inner(b, n)
    ensures |Rows(b, n, Unit(b, n - 1), Inner(b, n))| == n
  {
    UnitGap(b, n - 1, n);
    InnerRow(b, n, n - 1);
    InnerUnitEnd(b, n, n - 1);
    RowsAtLevel(b, n, Unit(b, n - 1), Inner(b, n), n - 1, UnitEnd(b, n - 1, Inner(b, n)));
    if n > 1 {
      InnerFalls(b, n, n - 1);
    }
  }

  /** At the first unit of level l, level l is the highest that fits and its block
      ends before the first unit of the next level. */
  lemma InnerRow(b: nat, n: nat, l: nat)
    requires b >= 1 && l < n && (b >= 2 || l + 1 < n)
    ensures 0 <= Inner(b, n) && Fits(b, l, Unit(b, l), Inner(b, n))
    ensures forall j | l < j < n :: !Fits(b, j, Unit(b, l), Inner(b, n))
    ensures BlockEnd(b, l + 1, Unit(b, l)) == Unit(b, l + 1) - 1
  {
    UnitGap(b, l, n);
    UnitsDivide(b, l, l);
    forall j | l < j <= n
      ensures Unit(b, l) % Unit(b, j) == Unit(b, l)
    {
      UnitGap(b, l, j);
      DivModUnique(Unit(b, l), Unit(b, j), 0, Unit(b, l));
    }
  }

  /** For every nibble size and number of nibbles some interval needs as many rows as the
      bound allows: all values but the first and the last, where there are others. */
  lemma RowBoundIsReached(b: nat, n: nat) returns (s: nat, e: nat)
    requires b >= 1 && n >= 1
    ensures s <= e < Unit(b, n) && |Rows(b, n, s, e)| == MaxRows(b, n)
    ensures b >= 2 || n >= 2 ==> s == 1 && e == Inner(b, n)
  {
    assert Unit(b, 0) == Pow2(b * 0) == 1;
    if b >= 2 || n >= 2 {
      InnerRises(b, n, 0);
      s, e := 1, Inner(b, n);
    } else {
      s, e := 0, 0;
      RowBound(b, n, s, e);
    }
  }

  lemma TwoBitUnits()
    ensures Unit(2, 0) == 1 && Unit(2, 1) == 4 && Unit(2, 2) == 16 && Unit(2, 3) == 64 && Unit(2, 4) == 256
  {
    assert Pow2(2) == 4 && Pow2(4) == 16;
    Pow2Add(4, 2);
    Pow2Add(4, 4);
  }

  /** Two rows without a common value, neither of which matches an interval, match exactly
      [2, 13]. */
  lemma TwoRowsMatch(v: nat)
    requires v < Unit(2, 4)
    ensures Matches(2, 4, 4, 13, v) || Matches(2, 4, 2, 11, v) <==> 2 <= v <= 13
    ensures !(Matches(2, 4, 4, 13, v) && Matches(2, 4, 2, 11, v))
  {
    TwoBitUnits();
    TwoBitMatches(4, 13, v);
    TwoBitMatches(2, 11, v);
  }

  /** An interval each of whose values is matched by exactly one of two rows, where the
      expansion takes three. */
  lemma SmallerCoverWithoutIntervals() returns (s: nat, e: nat, cover: seq<Row>)
    ensures s <= e < Unit(2, 4) && |cover| < |Rows(2, 4, s, e)|
    ensures forall v: nat | v < Unit(2, 4) :: MatchCount(2, 4, cover, v) == if s <= v <= e then 1 else 0
  {
    s, e, cover := 2, 13, [Row(4, 13), Row(2, 11)];
    ThreeRows(s, e);
    forall v: nat | v < Unit(2, 4)
      ensures MatchCount(2, 4, cover, v) == if s <= v <= e then 1 else 0
    {
      TwoRowsCount(cover, v);
    }
  }

  lemma TwoRowsCount(cover: seq<Row>, v: nat)
    requires cover == [Row(4, 13), Row(2, 11)] && v < Unit(2, 4)
    ensures MatchCount(2, 4, cover, v) == if 2 <= v <= 13 then 1 else 0
  {
    TwoRowsMatch(v);
    MatchCountCons(2, 4, Row(4, 13), [Row(2, 11)], v);
    MatchCountCons(2, 4, Row(2, 11), [], v);
    assert cover == [Row(4, 13)] + [Row(2, 11)] && [Row(2, 11)] == [Row(2, 11)] + [];
  }

  lemma ThreeRows(s: nat, e: nat)
    requires s == 2 && e == 13
    ensures e < Unit(2, 4) && |Rows(2, 4, s, e)| == 3
  {
    TwoBitUnits();
    assert |Rows(2, 4, s, e)| == 1 + |Rows(2, 4, 4, e)| by {
      TwoBitRow(2, 0, 3);
      NextRow(2, 4, s, e, 0, 3);
    }
    assert |Rows(2, 4, 4, e)| == 1 + |Rows(2, 4, 12, e)| by {
      TwoBitRow(4, 1, 11);
      NextRow(2, 4, 4, e, 1, 11);
    }
    assert |Rows(2, 4, 12, e)| == 1 by {
      TwoBitRow(12, 0, 13);
      LastRow(2, 4, 12, e, 0);
    }
  }

  lemma TwoBitMatches(lo: nat, hi: nat, v: nat)
    requires lo < 16 && hi < 16 && v < 256
    ensures Matches(2, 4, lo, hi, v) <==> v < 16 && lo % 4 <= v % 4 <= hi % 4 && lo / 4 <= v / 4 <= hi / 4
  {
    TwoBitUnits();
    assert Pow2(2) == 4;
    forall x: nat | x < 256
      ensures Nibble(2, x, 0) == x % 4 && Nibble(2, x, 1) == x / 4 % 4
      ensures Nibble(2, x, 2) == x / 16 % 4 && Nibble(2, x, 3) == x / 64
    {
    }
    if v < 16 && lo % 4 <= v % 4 <= hi % 4 && lo / 4 <= v / 4 <= hi / 4 {
      forall i: nat | i < 4
        ensures Nibble(2, lo, i) <= Nibble(2, v, i) <= Nibble(2, hi, i)
      {
        assert i == 0 || i == 1 || i == 2 || i == 3;
      }
    }
    if Matches(2, 4, lo, hi, v) {
      assert Nibble(2, lo, 0) <= Nibble(2, v, 0) <= Nibble(2, hi, 0);
      assert Nibble(2, lo, 1) <= Nibble(2, v, 1) <= Nibble(2, hi, 1);
      assert Nibble(2, v, 2) <= Nibble(2, hi, 2);
      assert Nibble(2, v, 3) <= Nibble(2, hi, 3);
    }
  }

  lemma TwoBitRow(s: nat, i: nat, h: nat)
    requires (s, i, h) == (2, 0, 3) || (s, i, h) == (4, 1, 11) || (s, i, h) == (12, 0, 13)
    ensures RowHere(2, 4, s, 13, i, h)
  {
    TwoBitUnits();
    forall j | i < j < 4
      ensures !Fits(2, j, s, 13)
    {
      assert j == 1 || j == 2 || j == 3;
    }
  }
}
