/**
 The rows into which an interval [s, e] is split, and what they are worth: they
 mean the interval, there are at most 2n - 1 of them, and no other rows that
 match intervals do with fewer.
 */
module RangeRows {
  import opened Arith
  import opened Bits
  import opened Nibbles

  datatype Row = Row(lo: nat, hi: nat)

  /** A whole unit of nibble i starts at s and ends by e. */
  predicate Fits(b: nat, i: nat, s: nat, e: nat)
  {
    s % Unit(b, i) == 0 && s + Unit(b, i) - 1 <= e
  }

  /** The highest nibble up to i that fits. */
  function Level(b: nat, i: nat, s: nat, e: nat): (r: nat)
    ensures r <= i
  {
    if i == 0 || Fits(b, i, s, e) then i else Level(b, i - 1, s, e)
  }

  lemma {:induction false} LevelFits(b: nat, i: nat, s: nat, e: nat)
    requires s <= e
    ensures Fits(b, Level(b, i, s, e), s, e)
    ensures forall j | Level(b, i, s, e) < j <= i :: !Fits(b, j, s, e)
  {
    if i == 0 {
      assert Unit(b, 0) == Pow2(b * 0) == 1;
    } else if !Fits(b, i, s, e) {
      LevelFits(b, i - 1, s, e);
    }
  }

  /** The last value that agrees with s above the low i nibbles. */
  function BlockEnd(b: nat, i: nat, s: nat): (r: nat)
    ensures s <= r
  {
    FloorTo(s, Unit(b, i)) + Unit(b, i) - 1
  }

  /** The last value up to e that completes a unit of nibble i, or -1. */
  function UnitEnd(b: nat, i: nat, e: nat): (r: int)
    ensures -1 <= r <= e
  {
    FloorTo(e + 1, Unit(b, i)) - 1
  }

  /** The widest row of level i from s that stays inside [s, e]. */
  function RowEnd(b: nat, i: nat, s: nat, e: nat): (h: int)
  {
    if BlockEnd(b, i + 1, s) <= UnitEnd(b, i, e) then BlockEnd(b, i + 1, s) else UnitEnd(b, i, e)
  }

  lemma RowEndIsBlock(b: nat, i: nat, s: nat, e: nat)
    requires Fits(b, i, s, e)
    ensures s <= RowEnd(b, i, s, e) <= e && s <= UnitEnd(b, i, e)
    ensures IsBlock(b, i, s, RowEnd(b, i, s, e))
  {
    var u, w := Unit(b, i), Unit(b, i + 1);
    MultipleMod(1, u);
    SumOfMultiples(s, u, u);
    MultipleBelowFloor(e + 1, s + u, u);
    FloorIsMultiple(e + 1, u);
    FloorIsMultiple(s, w);
    MultipleMod(1, w);
    SumOfMultiples(FloorTo(s, w), w, w);
    AlignedBelow(b, BlockEnd(b, i + 1, s) + 1, i, i + 1);
    var h := RowEnd(b, i, s, e);
    DivModUnique(h, w, s / w, h - FloorTo(s, w));
  }

  /** Where the first row of [s, e] ends. */
  function FirstEnd(b: nat, n: nat, s: nat, e: nat): (h: nat)
    requires n >= 1 && s <= e
    ensures s <= h <= e
  {
    LevelFits(b, n - 1, s, e);
    RowEndIsBlock(b, Level(b, n - 1, s, e), s, e);
    RowEnd(b, Level(b, n - 1, s, e), s, e)
  }

  lemma FirstRow(b: nat, n: nat, s: nat, e: nat) returns (i: nat)
    requires n >= 1 && s <= e
    ensures i < n && i == Level(b, n - 1, s, e) && Fits(b, i, s, e) && forall j | i < j < n :: !Fits(b, j, s, e)
    ensures FirstEnd(b, n, s, e) == RowEnd(b, i, s, e) && IsBlock(b, i, s, FirstEnd(b, n, s, e))
  {
    i := Level(b, n - 1, s, e);
    LevelFits(b, n - 1, s, e);
    RowEndIsBlock(b, i, s, e);
  }

  /** The expansion of [s, e] into rows. */
  function Rows(b: nat, n: nat, s: nat, e: nat): (r: seq<Row>)
    requires b >= 1 && n >= 1 && s <= e < Unit(b, n)
    ensures |r| >= 1
    decreases e - s
  {
    var h := FirstEnd(b, n, s, e);
    [Row(s, h)] + (if h < e then Rows(b, n, h + 1, e) else [])
  }

  /** The first row when level i is known to be the highest that fits. */
  lemma RowsAtLevel(b: nat, n: nat, s: nat, e: nat, i: nat, h: nat)
    requires b >= 1 && i < n && s <= e < Unit(b, n)
    requires Fits(b, i, s, e) && h == RowEnd(b, i, s, e)
    requires forall j | i < j < n :: !Fits(b, j, s, e)
    ensures Rows(b, n, s, e) == [Row(s, h)] + (if h < e then Rows(b, n, h + 1, e) else [])
  {
    LevelFits(b, n - 1, s, e);
    assert Level(b, n - 1, s, e) == i;
  }

  // ---------- meaning ----------

  /** How many rows match v. */
  ghost function MatchCount(b: nat, n: nat, rows: seq<Row>, v: nat): (k: nat)
  {
    if rows == [] then 0
    else (if Matches(b, n, rows[0].lo, rows[0].hi, v) then 1 else 0) + MatchCount(b, n, rows[1..], v)
  }

  /** A value of the interval is matched by exactly one row, any other value by none. */
  lemma {:induction false} RowsMeanInterval(b: nat, n: nat, s: nat, e: nat, v: nat)
    requires b >= 1 && n >= 1 && s <= e < Unit(b, n) && v < Unit(b, n)
    ensures MatchCount(b, n, Rows(b, n, s, e), v) == if s <= v <= e then 1 else 0
    decreases e - s
  {
    var h := FirstEnd(b, n, s, e);
    var rest := if h < e then Rows(b, n, h + 1, e) else [];
    assert Rows(b, n, s, e) == [Row(s, h)] + rest;
    FirstRowMatches(b, n, s, e, v);
    MatchCountCons(b, n, Row(s, h), rest, v);
    if h < e {
      RowsMeanInterval(b, n, h + 1, e, v);
    }
  }

  lemma FirstRowMatches(b: nat, n: nat, s: nat, e: nat, v: nat)
    requires n >= 1 && s <= e < Unit(b, n) && v < Unit(b, n)
    ensures Contiguous(b, n, s, FirstEnd(b, n, s, e))
    ensures Matches(b, n, s, FirstEnd(b, n, s, e), v) <==> s <= v <= FirstEnd(b, n, s, e)
  {
    var i := FirstRow(b, n, s, e);
    BlockIsContiguous(b, n, i, s, FirstEnd(b, n, s, e));
  }

  lemma MatchCountCons(b: nat, n: nat, row: Row, rest: seq<Row>, v: nat)
    ensures MatchCount(b, n, [row] + rest, v)
         == (if Matches(b, n, row.lo, row.hi, v) then 1 else 0) + MatchCount(b, n, rest, v)
  {
    assert ([row] + rest)[1..] == rest;
  }

  lemma {:induction false} MatchCountDecides(b: nat, n: nat, rows: seq<Row>, v: nat)
    ensures MatchCount(b, n, rows, v) >= 1 <==>
      exists j :: 0 <= j < |rows| && Matches(b, n, rows[j].lo, rows[j].hi, v)
    ensures MatchCount(b, n, rows, v) <= 1 ==>
      forall j, k | 0 <= j < k < |rows| ::
        !(Matches(b, n, rows[j].lo, rows[j].hi, v) && Matches(b, n, rows[k].lo, rows[k].hi, v))
  {
    if rows != [] {
      var rest := rows[1..];
      MatchCountDecides(b, n, rest, v);
      assert forall k | 1 <= k < |rows| :: rows[k] == rest[k - 1];
      assert forall k | 0 <= k < |rest| :: rest[k] == rows[k + 1];
    }
  }

  /** Consecutive rows abut, from s to e, and each matches its interval. */
  ghost predicate Tiles(b: nat, n: nat, rows: seq<Row>, s: nat, e: nat)
  {
    && |rows| >= 1 && rows[0].lo == s && rows[|rows| - 1].hi == e
    && (forall k | 0 <= k < |rows| :: s <= rows[k].lo <= rows[k].hi <= e)
    && (forall k | 0 <= k < |rows| :: Contiguous(b, n, rows[k].lo, rows[k].hi))
    && (forall k | 0 <= k < |rows| - 1 :: rows[k + 1].lo == rows[k].hi + 1)
  }

  lemma {:induction false} RowsTile(b: nat, n: nat, s: nat, e: nat)
    requires b >= 1 && n >= 1 && s <= e < Unit(b, n)
    ensures Tiles(b, n, Rows(b, n, s, e), s, e)
    decreases e - s
  {
    var h := FirstEnd(b, n, s, e);
    FirstRowMatches(b, n, s, e, s);
    if h < e {
      RowsTile(b, n, h + 1, e);
      TilesCons(b, n, Row(s, h), Rows(b, n, h + 1, e), e);
      assert Rows(b, n, s, e) == [Row(s, h)] + Rows(b, n, h + 1, e);
    } else {
      assert Rows(b, n, s, e) == [Row(s, h)];
    }
  }

  lemma TilesCons(b: nat, n: nat, row: Row, rest: seq<Row>, e: nat)
    requires Contiguous(b, n, row.lo, row.hi) && row.hi < e && Tiles(b, n, rest, row.hi + 1, e)
    ensures Tiles(b, n, [row] + rest, row.lo, e)
  {
    var rows := [row] + rest;
    assert forall k | 1 <= k < |rows| :: rows[k] == rest[k - 1];
  }

  // ---------- how many rows ----------

  /** The rows are blocks of strictly falling levels, all below l. */
  ghost predicate LevelsFall(b: nat, rows: seq<Row>, l: nat)
  {
    rows == [] || exists i: nat :: i < l && IsBlock(b, i, rows[0].lo, rows[0].hi) && LevelsFall(b, rows[1..], i)
  }

  /** The rows are blocks of strictly rising levels, from l on and below n, and from some row
      on of strictly falling levels. */
  ghost predicate LevelsRiseAndFall(b: nat, n: nat, rows: seq<Row>, l: nat)
  {
    || LevelsFall(b, rows, l)
    || (rows != [] && exists i: nat ::
          l <= i < n && IsBlock(b, i, rows[0].lo, rows[0].hi)
          && (LevelsFall(b, rows[1..], i) || (i + 1 < n && LevelsRiseAndFall(b, n, rows[1..], i + 1))))
  }

  lemma FallCons(b: nat, row: Row, rest: seq<Row>, i: nat, l: nat)
    requires i < l && IsBlock(b, i, row.lo, row.hi) && LevelsFall(b, rest, i)
    ensures LevelsFall(b, [row] + rest, l)
  {
    assert ([row] + rest)[1..] == rest && ([row] + rest)[0] == row;
  }

  lemma RiseCons(b: nat, n: nat, row: Row, rest: seq<Row>, i: nat, l: nat)
    requires l <= i < n && IsBlock(b, i, row.lo, row.hi)
    requires LevelsFall(b, rest, i) || (i + 1 < n && LevelsRiseAndFall(b, n, rest, i + 1))
    ensures LevelsRiseAndFall(b, n, [row] + rest, l)
  {
    assert ([row] + rest)[1..] == rest && ([row] + rest)[0] == row;
  }

  lemma {:induction false} FallBound(b: nat, rows: seq<Row>, l: nat)
    requires LevelsFall(b, rows, l)
    ensures |rows| <= l
  {
    if rows != [] {
      var i: nat :| i < l && IsBlock(b, i, rows[0].lo, rows[0].hi) && LevelsFall(b, rows[1..], i);
      FallBound(b, rows[1..], i);
    }
  }

  lemma {:induction false} RiseBound(b: nat, n: nat, rows: seq<Row>, l: nat)
    requires LevelsRiseAndFall(b, n, rows, l) && l < n
    ensures |rows| <= 2 * n - 1 - l
  {
    if LevelsFall(b, rows, l) {
      FallBound(b, rows, l);
    } else {
      var i: nat :| l <= i < n && IsBlock(b, i, rows[0].lo, rows[0].hi)
        && (LevelsFall(b, rows[1..], i) || (i + 1 < n && LevelsRiseAndFall(b, n, rows[1..], i + 1)));
      if LevelsFall(b, rows[1..], i) {
        FallBound(b, rows[1..], i);
      } else {
        RiseBound(b, n, rows[1..], i + 1);
      }
    }
  }

  lemma {:induction false} FallingLevels(b: nat, n: nat, l: nat, s: nat, e: nat)
    requires b >= 1 && n >= 1 && s <= e < Unit(b, n) && l <= n
    requires s % Unit(b, l) == 0 && e < s + Unit(b, l) - 1
    ensures LevelsFall(b, Rows(b, n, s, e), l)
    decreases e - s
  {
    var h := FirstEnd(b, n, s, e);
    var i := FirstRow(b, n, s, e);
    assert i < l by {
      if l <= i {
        UnitMonotone(b, l, i);
      }
    }
    if h < e {
      CutOff(b, n, l, i, s, e);
      FallingLevels(b, n, i, h + 1, e);
      FallCons(b, Row(s, h), Rows(b, n, h + 1, e), i, l);
    } else {
      FallCons(b, Row(s, h), [], i, l);
    }
  }

  /** Once a whole unit of level l no longer fits, the levels fall strictly. */
  lemma FallingRows(b: nat, n: nat, l: nat, s: nat, e: nat)
    requires b >= 1 && n >= 1 && s <= e < Unit(b, n) && l <= n
    requires s % Unit(b, l) == 0 && e < s + Unit(b, l) - 1
    ensures LevelsFall(b, Rows(b, n, s, e), l) && |Rows(b, n, s, e)| <= l
  {
    FallingLevels(b, n, l, s, e);
    FallBound(b, Rows(b, n, s, e), l);
  }

  lemma FallingCount(b: nat, n: nat, l: nat, s: nat, e: nat)
    requires b >= 1 && n >= 1 && s <= e < Unit(b, n) && l <= n
    requires s % Unit(b, l) == 0 && e < s + Unit(b, l) - 1
    ensures |Rows(b, n, s, e)| <= l
  {
    FallingRows(b, n, l, s, e);
  }

  lemma RowsCount(b: nat, n: nat, s: nat, e: nat)
    requires b >= 1 && n >= 1 && s <= e < Unit(b, n)
    ensures var h := FirstEnd(b, n, s, e);
      |Rows(b, n, s, e)| == 1 + if h < e then |Rows(b, n, h + 1, e)| else 0
  {
  }

  /** At a multiple of a unit that does not fit, the chosen row is cut off by e, and less
      than one of its units is left. */
  lemma CutOff(b: nat, n: nat, l: nat, i: nat, s: nat, e: nat)
    requires n >= 1 && s <= e && i < l <= n
    requires s % Unit(b, l) == 0 && e < s + Unit(b, l) - 1
    requires Fits(b, i, s, e) && forall j | i < j < n :: !Fits(b, j, s, e)
    ensures RowEnd(b, i, s, e) == UnitEnd(b, i, e)
    ensures (RowEnd(b, i, s, e) + 1) % Unit(b, i) == 0 && e < RowEnd(b, i, s, e) + Unit(b, i)
  {
    AlignedBelow(b, s, i + 1, l);
    assert i + 1 < n ==> !Fits(b, i + 1, s, e);
    FloorIsMultiple(e + 1, Unit(b, i));
  }

  /** Behind the last complete unit of level i the levels fall below i. */
  lemma CutOffLevels(b: nat, n: nat, i: nat, e: nat, h: nat)
    requires b >= 1 && i < n && h == UnitEnd(b, i, e) && h < e < Unit(b, n)
    ensures LevelsFall(b, Rows(b, n, h + 1, e), i)
  {
    FloorIsMultiple(e + 1, Unit(b, i));
    FallingLevels(b, n, i, h + 1, e);
  }

  /** The first row of [s, e] where level l fits leaves either less than one of its units or
      a multiple of the next level. */
  lemma FirstRowLeaves(b: nat, n: nat, l: nat, s: nat, e: nat) returns (i: nat)
    requires b >= 1 && n >= 1 && s <= e < Unit(b, n) && l < n && Fits(b, l, s, e)
    ensures l <= i < n && Fits(b, i, s, e) && IsBlock(b, i, s, FirstEnd(b, n, s, e))
    ensures var h := FirstEnd(b, n, s, e);
      h < e ==>
        || (h == UnitEnd(b, i, e) && LevelsFall(b, Rows(b, n, h + 1, e), i))
        || (i + 1 < n && (h + 1) % Unit(b, i + 1) == 0)
  {
    i := FirstRow(b, n, s, e);
    var h := FirstEnd(b, n, s, e);
    if h < e {
      if h == UnitEnd(b, i, e) {
        CutOffLevels(b, n, i, e, h);
      } else {
        FullRow(b, n, i, s, e);
      }
    }
  }

  lemma {:induction false} RisingLevels(b: nat, n: nat, l: nat, s: nat, e: nat)
    requires b >= 1 && n >= 1 && s <= e < Unit(b, n) && l < n
    requires s % Unit(b, l) == 0
    ensures LevelsRiseAndFall(b, n, Rows(b, n, s, e), l)
    decreases e - s
  {
    if !Fits(b, l, s, e) {
      FallingLevels(b, n, l, s, e);
    } else {
      var h := FirstEnd(b, n, s, e);
      var i := FirstRowLeaves(b, n, l, s, e);
      var rest := if h < e then Rows(b, n, h + 1, e) else [];
      assert Rows(b, n, s, e) == [Row(s, h)] + rest;
      if h < e && !LevelsFall(b, rest, i) {
        RisingLevels(b, n, i + 1, h + 1, e);
      }
      RiseCons(b, n, Row(s, h), rest, i, l);
    }
  }

  /** From a multiple of level l the levels rise strictly until a row is cut off. */
  lemma RisingRows(b: nat, n: nat, l: nat, s: nat, e: nat)
    requires b >= 1 && n >= 1 && s <= e < Unit(b, n) && l < n
    requires s % Unit(b, l) == 0
    ensures LevelsRiseAndFall(b, n, Rows(b, n, s, e), l) && |Rows(b, n, s, e)| <= 2 * n - 1 - l
  {
    RisingLevels(b, n, l, s, e);
    RiseBound(b, n, Rows(b, n, s, e), l);
  }

  /** A row that ends its block before e leaves a multiple of the next level. */
  lemma FullRow(b: nat, n: nat, i: nat, s: nat, e: nat)
    requires i < n && s <= e < Unit(b, n)
    requires RowEnd(b, i, s, e) != UnitEnd(b, i, e) && RowEnd(b, i, s, e) < e
    ensures i + 1 < n && (RowEnd(b, i, s, e) + 1) % Unit(b, i + 1) == 0
  {
    BlockEndAligned(b, i + 1, s);
    TopBlockEnd(b, n, s);
  }

  lemma BlockEndAligned(b: nat, i: nat, s: nat)
    ensures (BlockEnd(b, i, s) + 1) % Unit(b, i) == 0
  {
    FloorIsMultiple(s, Unit(b, i));
    MultipleMod(1, Unit(b, i));
    SumOfMultiples(FloorTo(s, Unit(b, i)), Unit(b, i), Unit(b, i));
  }

  lemma TopBlockEnd(b: nat, n: nat, s: nat)
    requires s < Unit(b, n)
    ensures BlockEnd(b, n, s) == Unit(b, n) - 1
  {
    DivModUnique(s, Unit(b, n), 0, s);
  }

  /** The most rows that an interval can need: with nibbles of a single bit one less than
      with wider ones. */
  function MaxRows(b: nat, n: nat): (r: nat)
    requires n >= 1
    ensures r <= 2 * n - 1
  {
    if b == 1 && n >= 2 then 2 * n - 2 else 2 * n - 1
  }

  /** With nibbles of one bit and a start above zero the top level never gives a row that
      is cut off. */
  lemma {:induction false} RisingBits(b: nat, n: nat, l: nat, s: nat, e: nat)
    requires b == 1 && n >= 2 && 0 < s <= e < Unit(b, n) && l < n
    requires s % Unit(b, l) == 0
    ensures |Rows(b, n, s, e)| <= 2 * n - 2 - l
    decreases e - s
  {
    if !Fits(b, l, s, e) {
      FallingCount(b, n, l, s, e);
    } else {
      var h := FirstEnd(b, n, s, e);
      var i := FirstRowLeaves(b, n, l, s, e);
      RowsCount(b, n, s, e);
      if h < e {
        if h == UnitEnd(b, i, e) && LevelsFall(b, Rows(b, n, h + 1, e), i) {
          TopBitIsLast(b, n, i, s, e);
          FallBound(b, Rows(b, n, h + 1, e), i);
        } else {
          RisingBits(b, n, i + 1, h + 1, e);
        }
      }
    }
  }

  /** From a multiple of the top bit's unit above zero, that unit reaches the last value. */
  lemma TopBitIsLast(b: nat, n: nat, i: nat, s: nat, e: nat)
    requires b == 1 && n >= 2 && i < n && 0 < s <= e < Unit(b, n)
    requires Fits(b, i, s, e) && UnitEnd(b, i, e) < e
    ensures i + 1 < n
  {
    if i == n - 1 {
      UnitStep(b, i);
      assert Pow2(b) == 2;
      MultipleMod(0, Unit(b, i));
      MultiplesApart(0, s, Unit(b, i));
      assert e + 1 == 2 * Unit(b, i);
      MultipleMod(2, Unit(b, i));
    }
  }

  /** From zero on the rows only fall. */
  lemma RowsFromZero(b: nat, n: nat, e: nat)
    requires b >= 1 && n >= 1 && e < Unit(b, n)
    ensures |Rows(b, n, 0, e)| <= n
  {
    MultipleMod(0, Unit(b, n - 1));
    RisingRows(b, n, n - 1, 0, e);
  }

  /** No interval of n-nibble values needs more rows than that. */
  lemma RowBound(b: nat, n: nat, s: nat, e: nat)
    requires b >= 1 && n >= 1 && s <= e < Unit(b, n)
    ensures |Rows(b, n, s, e)| <= MaxRows(b, n)
  {
    if b == 1 && n >= 2 {
      if s == 0 {
        RowsFromZero(b, n, e);
      } else {
        RisingBits(b, n, 0, s, e);
      }
    } else {
      RisingRows(b, n, 0, s, e);
    }
  }

  // ---------- no fewer rows ----------

  /** No block inside [s, e] that starts in the first row reaches beyond it. */
  lemma NoBlockCrosses(b: nat, n: nat, s: nat, e: nat, j: nat, lo: nat, hi: nat)
    requires n >= 1 && s <= e && j < n
    requires IsBlock(b, j, lo, hi) && s <= lo && hi <= e
    requires lo <= FirstEnd(b, n, s, e)
    ensures hi <= FirstEnd(b, n, s, e)
  {
    var h := FirstEnd(b, n, s, e);
    var i := FirstRow(b, n, s, e);
    if j < i {
      BlockStaysInUnit(b, j, lo, hi);
      AlignedBelow(b, h + 1, j + 1, i);
      UnitEndsAt(lo, h, Unit(b, j + 1));
    } else if j == i {
      BlockOfSameLevel(b, i, s, e, lo, hi);
    } else {
      LargerBlockFits(b, s, e, i, j, lo, hi);
    }
  }

  lemma BlockOfSameLevel(b: nat, i: nat, s: nat, e: nat, lo: nat, hi: nat)
    requires IsBlock(b, i, lo, hi) && s <= lo <= BlockEnd(b, i + 1, s) && hi <= e
    ensures hi <= RowEnd(b, i, s, e)
  {
    BlockStaysInUnit(b, i, lo, hi);
    BlockEndAligned(b, i + 1, s);
    UnitEndsAt(lo, BlockEnd(b, i + 1, s), Unit(b, i + 1));
    MultipleBelowFloor(e + 1, hi + 1, Unit(b, i));
  }

  /** A block of level j does not leave the unit of level j + 1 it starts in. */
  lemma BlockStaysInUnit(b: nat, j: nat, lo: nat, hi: nat)
    requires IsBlock(b, j, lo, hi)
    ensures hi < FloorTo(lo, Unit(b, j + 1)) + Unit(b, j + 1)
  {
    FloorIsMultiple(lo, Unit(b, j + 1));
    FloorIsMultiple(hi, Unit(b, j + 1));
  }

  lemma UnitEndsAt(x: nat, h: nat, m: nat)
    requires m > 0 && (h + 1) % m == 0 && x <= h
    ensures FloorTo(x, m) + m <= h + 1
  {
    FloorIsMultiple(x, m);
    MultiplesApart(FloorTo(x, m), h + 1, m);
  }

  /** A block of a level above i that starts in reach of s makes level i + 1 fit at s. */
  lemma LargerBlockFits(b: nat, s: nat, e: nat, i: nat, j: nat, lo: nat, hi: nat)
    requires i < j && IsBlock(b, j, lo, hi) && hi <= e
    requires s <= lo <= BlockEnd(b, i + 1, s)
    ensures Fits(b, i + 1, s, e)
  {
    var w := Unit(b, i + 1);
    AlignedBelow(b, lo, i + 1, j);
    AlignedBelow(b, hi + 1, i + 1, j);
    MultiplesApart(lo, hi + 1, w);
    FloorIsMultiple(s, w);
    if lo > FloorTo(s, w) {
      MultiplesApart(FloorTo(s, w), lo, w);
    }
  }

  ghost predicate Inside(b: nat, n: nat, cover: seq<Row>, s: nat, e: nat)
  {
    forall k | 0 <= k < |cover| ::
      s <= cover[k].lo && cover[k].hi <= e && Contiguous(b, n, cover[k].lo, cover[k].hi)
  }

  /** [lo, hi] lies inside one of the rows. */
  ghost predicate InOneRow(rows: seq<Row>, lo: nat, hi: nat)
  {
    exists k :: 0 <= k < |rows| && rows[k].lo <= lo && hi <= rows[k].hi
  }

  lemma InLaterRow(row: Row, rest: seq<Row>, lo: nat, hi: nat)
    requires InOneRow(rest, lo, hi)
    ensures InOneRow([row] + rest, lo, hi)
  {
    var k :| 0 <= k < |rest| && rest[k].lo <= lo && hi <= rest[k].hi;
    assert ([row] + rest)[k + 1] == rest[k];
  }

  /** No block inside [s, e] crosses any boundary between rows of the expansion. */
  lemma {:induction false} BlockInOneRow(b: nat, n: nat, s: nat, e: nat, j: nat, lo: nat, hi: nat)
    requires b >= 1 && n >= 1 && s <= e < Unit(b, n) && j < n
    requires IsBlock(b, j, lo, hi) && s <= lo && hi <= e
    ensures InOneRow(Rows(b, n, s, e), lo, hi)
    decreases e - s
  {
    var h := FirstEnd(b, n, s, e);
    if lo <= h {
      NoBlockCrosses(b, n, s, e, j, lo, hi);
      assert Rows(b, n, s, e)[0] == Row(s, h);
    } else {
      BlockInOneRow(b, n, h + 1, e, j, lo, hi);
      InLaterRow(Row(s, h), Rows(b, n, h + 1, e), lo, hi);
    }
  }

  /** Whatever rows match intervals inside [s, e], each lies in one row of the expansion:
      every such cover refines it. */
  lemma CoverRefinesRows(b: nat, n: nat, s: nat, e: nat, cover: seq<Row>)
    requires b >= 1 && n >= 1 && s <= e < Unit(b, n) && Inside(b, n, cover, s, e)
    ensures forall k | 0 <= k < |cover| :: InOneRow(Rows(b, n, s, e), cover[k].lo, cover[k].hi)
  {
    forall k | 0 <= k < |cover|
      ensures InOneRow(Rows(b, n, s, e), cover[k].lo, cover[k].hi)
    {
      var lo, hi := cover[k].lo, cover[k].hi;
      ContiguousIffBlock(b, n, lo, hi);
      var j: nat :| j < n && IsBlock(b, j, lo, hi);
      BlockInOneRow(b, n, s, e, j, lo, hi);
    }
  }

  ghost predicate Matched(b: nat, n: nat, cover: seq<Row>, v: nat)
  {
    exists k :: 0 <= k < |cover| && Matches(b, n, cover[k].lo, cover[k].hi, v)
  }

  ghost predicate Covers(b: nat, n: nat, cover: seq<Row>, s: nat, e: nat)
  {
    forall v: nat | s <= v <= e :: Matched(b, n, cover, v)
  }

  /** The rows that start after h. */
  ghost function After(cover: seq<Row>, h: nat): (r: seq<Row>)
    ensures |r| <= |cover|
    ensures forall k | 0 <= k < |r| :: r[k] in cover && r[k].lo > h
    ensures forall k | 0 <= k < |cover| && cover[k].lo > h :: cover[k] in r
    ensures (exists k :: 0 <= k < |cover| && cover[k].lo <= h) ==> |r| < |cover|
  {
    if cover == [] then []
    else if cover[0].lo > h then [cover[0]] + After(cover[1..], h)
    else After(cover[1..], h)
  }

  /** Every cover of [s, e] by rows that match intervals inside it, overlapping or
      not and in any order, has at least as many rows as the expansion. */
  lemma {:induction false} RowsAreMinimal(b: nat, n: nat, s: nat, e: nat, cover: seq<Row>)
    requires b >= 1 && n >= 1 && s <= e < Unit(b, n)
    requires Inside(b, n, cover, s, e) && Covers(b, n, cover, s, e)
    ensures |Rows(b, n, s, e)| <= |cover|
    decreases e - s
  {
    var h := FirstEnd(b, n, s, e);
    if h < e {
      assert Matched(b, n, cover, s);
      CoverBeyond(b, n, s, e, cover);
      RowsAreMinimal(b, n, h + 1, e, After(cover, h));
    } else {
      assert Matched(b, n, cover, s);
    }
  }

  /** What remains of a cover beyond the first row covers the rest and is shorter. */
  lemma CoverBeyond(b: nat, n: nat, s: nat, e: nat, cover: seq<Row>)
    requires n >= 1 && s <= e < Unit(b, n)
    requires Inside(b, n, cover, s, e) && Covers(b, n, cover, s, e)
    requires FirstEnd(b, n, s, e) < e
    ensures var h := FirstEnd(b, n, s, e); var rest := After(cover, h);
      |rest| < |cover| && Inside(b, n, rest, h + 1, e) && Covers(b, n, rest, h + 1, e)
  {
    var h := FirstEnd(b, n, s, e);
    var rest := After(cover, h);
    assert Matched(b, n, cover, s);
    var first :| 0 <= first < |cover| && Matches(b, n, cover[first].lo, cover[first].hi, s);
    assert cover[first].lo <= h;
    forall v: nat | h + 1 <= v <= e
      ensures Matched(b, n, rest, v)
    {
      assert Matched(b, n, cover, v);
      var k :| 0 <= k < |cover| && Matches(b, n, cover[k].lo, cover[k].hi, v);
      StartsAfter(b, n, s, e, cover[k], v);
      assert cover[k] in rest;
      var j :| 0 <= j < |rest| && rest[j] == cover[k];
    }
  }

  /** A row of a cover that matches a value beyond the first row starts beyond it. */
  lemma StartsAfter(b: nat, n: nat, s: nat, e: nat, row: Row, v: nat)
    requires n >= 1 && s <= e < Unit(b, n)
    requires Contiguous(b, n, row.lo, row.hi) && s <= row.lo && row.hi <= e
    requires FirstEnd(b, n, s, e) < v <= e
    requires Matches(b, n, row.lo, row.hi, v)
    ensures row.lo > FirstEnd(b, n, s, e)
  {
    ContiguousIffBlock(b, n, row.lo, row.hi);
    var j: nat :| j < n && IsBlock(b, j, row.lo, row.hi);
    if row.lo <= FirstEnd(b, n, s, e) {
      NoBlockCrosses(b, n, s, e, j, row.lo, row.hi);
    }
  }
}
