/**
 The loops of tools/range.c: the search for one row, the split of rows into
 nibbles, and the check that marks every covered value.
 */
module RangeExpand {
  import opened Arith
  import opened Bits
  import opened Nibbles
  import opened RangeRows

  /** The nibbles of v, lowest first. */
  function Split(b: nat, n: nat, v: nat): (r: seq<nat>)
    ensures |r| == n && forall i | 0 <= i < n :: r[i] == Nibble(b, v, i)
  {
    seq(n, i requires 0 <= i => Nibble(b, v, i))
  }

  /** The value with these nibbles, lowest first. */
  function Compose(b: nat, nibbles: seq<nat>): (v: nat)
  {
    if nibbles == [] then 0 else nibbles[0] + Pow2(b) * Compose(b, nibbles[1..])
  }

  lemma {:induction false} ComposeFrom(b: nat, n: nat, v: nat, i: nat)
    requires v < Unit(b, n) && i <= n
    ensures Compose(b, Split(b, n, v)[i..]) == v / Unit(b, i)
    decreases n - i
  {
    if i == n {
      DivModUnique(v, Unit(b, n), 0, v);
    } else {
      ComposeFrom(b, n, v, i + 1);
      NibbleStep(b, v, i);
      assert Split(b, n, v)[i..][1..] == Split(b, n, v)[i + 1..];
    }
  }

  /** Splitting a value into nibbles and recomposing it gives it back. */
  lemma ComposeSplit(b: nat, n: nat, v: nat)
    requires v < Unit(b, n)
    ensures Compose(b, Split(b, n, v)) == v
  {
    ComposeFrom(b, n, v, 0);
    assert Split(b, n, v)[0..] == Split(b, n, v);
    assert Unit(b, 0) == Pow2(b * 0) == 1;
  }

  /** The recomposing loop's value of any 32-bit entries, lowest first: shifted in 32 bits
      and or-ed together, so that entries beyond a nibble run into each other. */
  function Recompose(b: nat, entries: seq<nat>): (v: nat)
  {
    if entries == [] then 0 else Or((Recompose(b, entries[1..]) * Pow2(b)) % U32, entries[0])
  }

  /** Whatever 32-bit entries there are, the value has 32 bits. */
  lemma {:induction false} RecomposeFits(b: nat, entries: seq<nat>)
    requires forall i | 0 <= i < |entries| :: entries[i] < U32
    ensures Recompose(b, entries) < U32
  {
    if entries != [] {
      RecomposeFits(b, entries[1..]);
      var k := WordBits();
      OrFits((Recompose(b, entries[1..]) * Pow2(b)) % U32, entries[0], k);
    }
  }

  lemma WordBits() returns (k: nat)
    ensures k > 0 && Pow2(k) == U32
  {
    assert Pow2(4) == 16;
    Pow2Add(4, 4);
    Pow2Add(8, 8);
    Pow2Add(16, 16);
    k := 32;
  }

  /** Of nibbles that fit into 32 bits it is their positional value. */
  lemma {:induction false} RecomposeNibbles(b: nat, nibbles: seq<nat>)
    requires forall i | 0 <= i < |nibbles| :: nibbles[i] < Pow2(b)
    requires Unit(b, |nibbles|) <= U32
    ensures Recompose(b, nibbles) == Compose(b, nibbles) < Unit(b, |nibbles|)
  {
    if nibbles != [] {
      var m, rest := |nibbles| - 1, nibbles[1..];
      UnitMonotone(b, m, m + 1);
      RecomposeNibbles(b, rest);
      UnitStep(b, m);
      ShiftIn(b, Compose(b, rest), nibbles[0], Unit(b, m));
    }
  }

  /** Shifting in one more nibble without overflow. */
  lemma ShiftIn(b: nat, high: nat, nibble: nat, u: nat)
    requires high < u && nibble < Pow2(b) && u * Pow2(b) <= U32
    ensures Or((high * Pow2(b)) % U32, nibble) == nibble + Pow2(b) * high < u * Pow2(b)
  {
    var p := Pow2(b);
    ProductBound(p, u, high, nibble);
    DivModUnique(high * p, U32, 0, high * p);
    OrAppends(high, b, nibble);
  }

  // ---------- searching one row ----------

  /** Counting trailing zero bits finds the highest nibble a value is aligned to. */
  lemma AlignedIffBelowStart(b: nat, s: nat, j: nat)
    requires b >= 1 && s > 0
    ensures s % Unit(b, j) == 0 <==> j <= Ctz(s) / b
  {
    CtzDivides(s, b * j);
    ProductAtMost(b, j, Ctz(s));
  }

  lemma StartNibble(b: nat, n: nat, s: nat)
    requires b >= 1 && n >= 1 && 0 < s < Unit(b, n)
    ensures Ctz(s) / b <= n - 1
    ensures forall j: nat :: s % Unit(b, j) == 0 <==> j <= Ctz(s) / b
  {
    forall j: nat
      ensures s % Unit(b, j) == 0 <==> j <= Ctz(s) / b
    {
      AlignedIffBelowStart(b, s, j);
    }
    DivModUnique(s, Unit(b, n), 0, s);
    AlignedIffBelowStart(b, s, n);
  }

  /** The inner loop at level i: from the end of the block down, unit by unit, until the
      end of the interval is reached or the row would be empty. */
  method StepDown(b: nat, n: nat, i: nat, rangeStart: nat, end: nat) returns (rangeEnd: nat)
    requires i < n && rangeStart <= end < Unit(b, n) && rangeStart % Unit(b, i) == 0
    ensures Fits(b, i, rangeStart, end) <==> rangeStart <= rangeEnd <= end
    ensures Fits(b, i, rangeStart, end) ==> rangeEnd == RowEnd(b, i, rangeStart, end)
  {
    rangeEnd := Or(rangeStart, Pow2(b * (i + 1)) - 1);
    OrIsBlockEnd(b, i, rangeStart);
    BlockEndFits(b, n, i, rangeStart);
    ghost var top := BlockEnd(b, i + 1, rangeStart);
    while rangeEnd >= rangeStart && rangeEnd > end && rangeEnd >= Pow2(b * i)
      invariant rangeEnd <= top < Unit(b, n)
      invariant (rangeEnd + 1) % Unit(b, i) == 0
      invariant rangeEnd == top || UnitEnd(b, i, end) <= rangeEnd
    {
      UnitEndBelow(b, i, end, rangeEnd);
      UnitBefore(b, i, rangeEnd);
      rangeEnd := rangeEnd - Pow2(b * i);
    }
    SearchEnds(b, i, rangeStart, end, rangeEnd);
  }

  lemma OrIsBlockEnd(b: nat, i: nat, s: nat)
    ensures Or(s, Pow2(b * (i + 1)) - 1) == BlockEnd(b, i + 1, s)
  {
    OrMask(s, b * (i + 1));
  }

  lemma BlockEndFits(b: nat, n: nat, i: nat, s: nat)
    requires i < n && s < Unit(b, n)
    ensures BlockEnd(b, i + 1, s) < Unit(b, n) && (BlockEnd(b, i + 1, s) + 1) % Unit(b, i) == 0
  {
    BlockEndBelow(b, n, i, s);
    BlockEndAligned(b, i + 1, s);
    AlignedBelow(b, BlockEnd(b, i + 1, s) + 1, i, i + 1);
  }

  lemma UnitBefore(b: nat, i: nat, r: nat)
    requires (r + 1) % Unit(b, i) == 0 && r >= Unit(b, i)
    ensures (r - Unit(b, i) + 1) % Unit(b, i) == 0
  {
    MultipleMod(1, Unit(b, i));
    SumOfMultiples(Unit(b, i), r + 1, Unit(b, i));
  }

  /** Where the search starts: the highest nibble that rangeStart is aligned to. */
  method FindStart(b: nat, n: nat, rangeStart: nat) returns (startNibble: nat)
    requires b >= 1 && n >= 1 && rangeStart < Unit(b, n)
    ensures startNibble <= n - 1
    ensures forall j: nat | j < n :: rangeStart % Unit(b, j) == 0 <==> j <= startNibble
  {
    if rangeStart == 0 {
      startNibble := n - 1;
      forall j: nat { MultipleMod(0, Unit(b, j)); }
    } else {
      startNibble := Ctz(rangeStart) / b;
      StartNibble(b, n, rangeStart);
    }
  }

  /** The level search of one iteration: the highest level that fits, and its widest row. */
  method FindRow(b: nat, n: nat, rangeStart: nat, end: nat) returns (rangeEnd: nat)
    requires b >= 1 && n >= 1 && rangeStart <= end < Unit(b, n)
    ensures rangeEnd == FirstEnd(b, n, rangeStart, end)
  {
    ghost var level := Level(b, n - 1, rangeStart, end);
    LevelFits(b, n - 1, rangeStart, end);
    var i: int := FindStart(b, n, rangeStart);
    rangeEnd := 0;
    while i >= 0
      invariant level <= i < n && rangeStart % Unit(b, i) == 0
    {
      rangeEnd := StepDown(b, n, i, rangeStart, end);
      if rangeEnd >= rangeStart && rangeEnd <= end {
        break;
      }
      i := i - 1;
      AlignedBelow(b, rangeStart, i, i + 1);
    }
  }

  lemma BlockEndBelow(b: nat, n: nat, i: nat, s: nat)
    requires s < Unit(b, n) && i < n
    ensures BlockEnd(b, i + 1, s) < Unit(b, n)
  {
    UnitSplit(b, i + 1, n);
    FloorIsMultiple(s, Unit(b, i + 1));
    MultipleMod(Unit(b, n - i - 1), Unit(b, i + 1));
    MultiplesApart(FloorTo(s, Unit(b, i + 1)), Unit(b, n), Unit(b, i + 1));
  }

  /** Above the end, one step down does not pass the last complete unit. */
  lemma UnitEndBelow(b: nat, i: nat, e: nat, r: nat)
    requires (r + 1) % Unit(b, i) == 0 && r > e
    ensures UnitEnd(b, i, e) <= r - Unit(b, i)
  {
    FloorIsMultiple(e + 1, Unit(b, i));
    MultiplesApart(FloorTo(e + 1, Unit(b, i)), r + 1, Unit(b, i));
  }

  /** Where the stepping down stops: at the row's end exactly when the level fits. */
  lemma SearchEnds(b: nat, i: nat, s: nat, e: nat, r: nat)
    requires s % Unit(b, i) == 0 && s <= e && (r + 1) % Unit(b, i) == 0
    requires r <= BlockEnd(b, i + 1, s)
    requires r == BlockEnd(b, i + 1, s) || UnitEnd(b, i, e) <= r
    requires r < s || r <= e || r < Unit(b, i)
    ensures Fits(b, i, s, e) <==> s <= r <= e
    ensures Fits(b, i, s, e) ==> r == RowEnd(b, i, s, e)
  {
    if s <= r <= e {
      MultiplesApart(s, r + 1, Unit(b, i));
      MultipleBelowFloor(e + 1, r + 1, Unit(b, i));
    }
    if Fits(b, i, s, e) {
      RowEndIsBlock(b, i, s, e);
      if r > e {
        UnitEndBelow(b, i, e, r);
      }
    }
  }

  // ---------- the check ----------

  /** How many of the intervals contain v. */
  function IntervalCount(rows: seq<Row>, v: nat): (k: nat)
  {
    if rows == [] then 0
    else IntervalCount(rows[..|rows| - 1], v)
         + (if rows[|rows| - 1].lo <= v <= rows[|rows| - 1].hi then 1 else 0)
  }

  /** The intervals are non-empty, lie in [s, e], and cover each of its values once. */
  ghost predicate Partition(rows: seq<Row>, s: nat, e: nat, maxValue: nat)
  {
    && (forall j | 0 <= j < |rows| :: s <= rows[j].lo <= rows[j].hi <= e)
    && (forall v: nat | v < maxValue :: IntervalCount(rows, v) == if s <= v <= e then 1 else 0)
  }

  lemma {:induction false} IntervalCountPrefix(rows: seq<Row>, j: nat, v: nat)
    requires j <= |rows|
    ensures IntervalCount(rows[..j], v) <= IntervalCount(rows, v)
  {
    if j == |rows| {
      assert rows[..j] == rows;
    } else {
      IntervalCountPrefix(rows[..|rows| - 1], j, v);
      assert rows[..|rows| - 1][..j] == rows[..j];
    }
  }

  function RowOf(a: array2<nat>, j: nat): (r: seq<nat>)
    requires j < a.Length0
    reads a
    ensures |r| == a.Length1 && forall i | 0 <= i < a.Length1 :: r[i] == a[j, i]
  {
    seq(a.Length1, i requires 0 <= i < a.Length1 reads a => a[j, i])
  }

  ghost function IntervalsOf(b: nat, starts: array2<nat>, ends: array2<nat>, count: nat): (r: seq<Row>)
    requires count <= starts.Length0 && count <= ends.Length0
    reads starts, ends
    ensures |r| == count
    ensures forall j | 0 <= j < count ::
      r[j] == Row(Recompose(b, RowOf(starts, j)), Recompose(b, RowOf(ends, j)))
  {
    seq(count, j requires 0 <= j < count reads starts, ends =>
      Row(Recompose(b, RowOf(starts, j)), Recompose(b, RowOf(ends, j))))
  }

  /** The recomposing loop: shift left by one nibble, or in the next one. */
  method ComposeRow(b: nat, a: array2<nat>, j: nat) returns (v: nat)
    requires j < a.Length0
    ensures v == Recompose(b, RowOf(a, j))
  {
    v := 0;
    var i := a.Length1 - 1;
    while i >= 0
      invariant -1 <= i < a.Length1
      invariant v == Recompose(b, RowOf(a, j)[i + 1..])
    {
      v := Or((v * Pow2(b)) % U32, a[j, i]);
      assert RowOf(a, j)[i..][1..] == RowOf(a, j)[i + 1..];
      i := i - 1;
    }
  }

  /** Marks the values from lo to hi; ok says that none was marked before. */
  method MarkRange(covered: array<bool>, lo: nat, hi: nat) returns (ok: bool)
    requires lo <= hi < covered.Length
    modifies covered
    ensures ok <==> forall v | lo <= v <= hi :: !old(covered[v])
    ensures ok ==> forall v | 0 <= v < covered.Length :: covered[v] == (lo <= v <= hi || old(covered[v]))
  {
    for i := lo to hi + 1
      invariant forall v | 0 <= v < covered.Length :: covered[v] == (lo <= v < i || old(covered[v]))
      invariant forall v | lo <= v < i :: !old(covered[v])
    {
      if covered[i] {
        return false;
      }
      covered[i] := true;
    }
    ok := true;
  }

  /** One round of the check: interval j is in range, and marking it meets no mark. */
  method CheckRow(covered: array<bool>, start: nat, end: nat, lo: nat, hi: nat, ghost rows: seq<Row>, ghost j: nat)
    returns (ok: bool)
    requires j < |rows| && rows[j] == Row(lo, hi) && end < covered.Length
    requires Marked(covered[..], rows[..j])
    modifies covered
    ensures ok ==> start <= lo <= hi <= end && Marked(covered[..], rows[..j + 1])
    ensures !ok ==> !Partition(rows, start, end, covered.Length)
  {
    if !(lo >= start && hi <= end && hi >= lo) {
      return false;
    }
    ghost var before := covered[..];
    ok := MarkRange(covered, lo, hi);
    if !ok {
      MarkedTwice(before, rows, j, start, end);
      return;
    }
    assert rows[..j + 1][..|rows[..j + 1]| - 1] == rows[..j];
    MarkedStep(before, covered[..], rows[..j + 1]);
  }

  /** The closing loop: exactly the values from start to end are marked. */
  method CheckCoverage(covered: array<bool>, start: nat, end: nat) returns (ok: bool)
    ensures ok <==> forall v | 0 <= v < covered.Length :: covered[v] <==> start <= v <= end
  {
    for j := 0 to covered.Length
      invariant forall v | 0 <= v < j :: covered[v] <==> start <= v <= end
    {
      if covered[j] != (start <= j <= end) {
        return false;
      }
    }
    ok := true;
  }

  /** ok says that no assertion of the check fails. */
  method CheckRange(b: nat, start: nat, end: nat, starts: array2<nat>, ends: array2<nat>, count: nat, maxValue: nat)
    returns (ok: bool)
    requires count <= starts.Length0 && count <= ends.Length0 && end < maxValue
    ensures ok <==> Partition(IntervalsOf(b, starts, ends, count), start, end, maxValue)
  {
    ghost var rows := IntervalsOf(b, starts, ends, count);
    var covered := new bool[maxValue](_ => false);
    for j := 0 to count
      invariant IntervalsOf(b, starts, ends, count) == rows
      invariant forall k | 0 <= k < j :: start <= rows[k].lo <= rows[k].hi <= end
      invariant Marked(covered[..], rows[..j])
    {
      var rangeStart := ComposeRow(b, starts, j);
      var rangeEnd := ComposeRow(b, ends, j);
      assert rows[j] == Row(rangeStart, rangeEnd);
      ok := CheckRow(covered, start, end, rangeStart, rangeEnd, rows, j);
      if !ok {
        return;
      }
    }
    assert rows[..count] == rows;
    ok := CheckCoverage(covered, start, end);
    MarkedDecides(covered[..], rows, start, end);
  }

  lemma MarkedDecides(covered: seq<bool>, rows: seq<Row>, s: nat, e: nat)
    requires Marked(covered, rows)
    requires forall k | 0 <= k < |rows| :: s <= rows[k].lo <= rows[k].hi <= e
    ensures Partition(rows, s, e, |covered|) <==> forall v | 0 <= v < |covered| :: covered[v] <==> s <= v <= e
  {
  }

  /** A value met twice while marking is in two intervals. */
  lemma MarkedTwice(before: seq<bool>, rows: seq<Row>, j: nat, s: nat, e: nat)
    requires j < |rows| && Marked(before, rows[..j])
    requires exists v: nat :: v < |before| && rows[j].lo <= v <= rows[j].hi && before[v]
    ensures !Partition(rows, s, e, |before|)
  {
    var v: nat :| v < |before| && rows[j].lo <= v <= rows[j].hi && before[v];
    assert rows[..j + 1][..|rows[..j + 1]| - 1] == rows[..j];
    assert IntervalCount(rows[..j + 1], v) == 2;
    IntervalCountPrefix(rows, j + 1, v);
  }

  /** A value is marked when exactly one interval contains it, and none contains it twice. */
  ghost predicate Marked(covered: seq<bool>, rows: seq<Row>)
  {
    forall v | 0 <= v < |covered| :: IntervalCount(rows, v) == if covered[v] then 1 else 0
  }

  lemma MarkedStep(before: seq<bool>, after: seq<bool>, rows: seq<Row>)
    requires |rows| >= 1 && |before| == |after|
    requires Marked(before, rows[..|rows| - 1])
    requires var row := rows[|rows| - 1];
      forall v | 0 <= v < |after| :: after[v] == if row.lo <= v <= row.hi then true else before[v]
    requires var row := rows[|rows| - 1];
      forall v | 0 <= v < |after| && row.lo <= v <= row.hi :: !before[v]
    ensures Marked(after, rows)
  {
    forall v | 0 <= v < |after|
      ensures IntervalCount(rows, v) == if after[v] then 1 else 0
    {
      assert IntervalCount(rows[..|rows| - 1], v) == if before[v] then 1 else 0;
    }
  }

  // ---------- the expansion ----------

  lemma {:induction false} IntervalCountCons(row: Row, rest: seq<Row>, v: nat)
    ensures IntervalCount([row] + rest, v) == (if row.lo <= v <= row.hi then 1 else 0) + IntervalCount(rest, v)
  {
    var rows := [row] + rest;
    if rest == [] {
      assert rows[..|rows| - 1] == [];
    } else {
      IntervalCountCons(row, rest[..|rest| - 1], v);
      assert rows[..|rows| - 1] == [row] + rest[..|rest| - 1];
    }
  }

  lemma {:induction false} RowsIntervalCount(b: nat, n: nat, s: nat, e: nat, v: nat)
    requires b >= 1 && n >= 1 && s <= e < Unit(b, n)
    ensures IntervalCount(Rows(b, n, s, e), v) == if s <= v <= e then 1 else 0
    decreases e - s
  {
    var h := FirstEnd(b, n, s, e);
    var rest := if h < e then Rows(b, n, h + 1, e) else [];
    assert Rows(b, n, s, e) == [Row(s, h)] + rest;
    IntervalCountCons(Row(s, h), rest, v);
    if h < e {
      RowsIntervalCount(b, n, h + 1, e, v);
    }
  }

  /** The expansion passes the check. */
  lemma RowsPartition(b: nat, n: nat, s: nat, e: nat)
    requires b >= 1 && n >= 1 && s <= e < Unit(b, n)
    ensures Partition(Rows(b, n, s, e), s, e, Unit(b, n))
  {
    RowsTile(b, n, s, e);
    forall v: nat | v < Unit(b, n)
      ensures IntervalCount(Rows(b, n, s, e), v) == if s <= v <= e then 1 else 0
    {
      RowsIntervalCount(b, n, s, e, v);
    }
  }

  /** One nibble, shifted down and masked. */
  function MaskedNibble(b: nat, v: nat, i: nat): (r: nat)
  {
    QuotientIsNat(v, Unit(b, i));
    And(v / Unit(b, i), Pow2(b) - 1)
  }

  lemma MaskedNibbleIs(b: nat, v: nat, i: nat)
    ensures MaskedNibble(b, v, i) == Nibble(b, v, i)
  {
    QuotientIsNat(v, Unit(b, i));
    AndMask(v / Unit(b, i), b);
  }

  /** The nibble-splitting loop: row j of a becomes the nibbles of v. */
  method SplitInto(b: nat, v: nat, a: array2<nat>, j: nat)
    requires j < a.Length0
    modifies a
    ensures RowOf(a, j) == Split(b, a.Length1, v)
    ensures forall k, i | 0 <= k < a.Length0 && 0 <= i < a.Length1 && k != j :: a[k, i] == old(a[k, i])
  {
    for i := 0 to a.Length1
      invariant forall d | 0 <= d < i :: a[j, d] == Nibble(b, v, d)
      invariant forall k, d | 0 <= k < a.Length0 && 0 <= d < a.Length1 && k != j :: a[k, d] == old(a[k, d])
    {
      var nibble := MaskedNibble(b, v, i);
      MaskedNibbleIs(b, v, i);
      a[j, i] := nibble;
    }
  }

  /** Row j of the arrays holds the nibbles of rows[j]. */
  ghost predicate Holds(b: nat, starts: array2<nat>, ends: array2<nat>, rows: seq<Row>)
    requires |rows| <= starts.Length0 && |rows| <= ends.Length0
    reads starts, ends
  {
    forall j | 0 <= j < |rows| ::
      RowOf(starts, j) == Split(b, starts.Length1, rows[j].lo)
      && RowOf(ends, j) == Split(b, ends.Length1, rows[j].hi)
  }

  /** Writes one row behind those already held. */
  method EmitRow(b: nat, starts: array2<nat>, ends: array2<nat>, ghost rows: seq<Row>, count: nat, lo: nat, hi: nat)
    requires starts != ends && |rows| == count && count < starts.Length0 && count < ends.Length0
    requires Holds(b, starts, ends, rows)
    modifies starts, ends
    ensures Holds(b, starts, ends, rows + [Row(lo, hi)])
  {
    SplitInto(b, lo, starts, count);
    SplitInto(b, hi, ends, count);
    assert forall j | 0 <= j < count :: RowOf(starts, j) == old(RowOf(starts, j));
    assert forall j | 0 <= j < count :: RowOf(ends, j) == old(RowOf(ends, j));
  }

  /** The main loop: row by row until the end is reached. */
  method ExpandInto(b: nat, n: nat, start: nat, end: nat, starts: array2<nat>, ends: array2<nat>)
    returns (count: nat)
    requires b >= 1 && n >= 1 && start <= end < Unit(b, n) && starts != ends
    requires |Rows(b, n, start, end)| <= starts.Length0 && |Rows(b, n, start, end)| <= ends.Length0
    modifies starts, ends
    ensures count == |Rows(b, n, start, end)|
    ensures Holds(b, starts, ends, Rows(b, n, start, end))
  {
    ghost var rows := Rows(b, n, start, end);
    count := 0;
    var rangeStart, rangeEnd := start, 0;
    var more := true;
    while more
      invariant count <= |rows|
      invariant more ==> rangeStart <= end && rows[count..] == Rows(b, n, rangeStart, end)
      invariant !more ==> count == |rows|
      invariant Holds(b, starts, ends, rows[..count])
      decreases more, end - rangeStart
    {
      RowsStep(b, n, rangeStart, end, rows, count);
      rangeEnd := FindRow(b, n, rangeStart, end);
      EmitRow(b, starts, ends, rows[..count], count, rangeStart, rangeEnd);
      rangeStart := rangeEnd + 1;
      count := count + 1;
      more := rangeEnd < end;
    }
    assert rows[..count] == rows;
  }

  /** Splits [start, end] into rows and writes their nibbles into arrays of 2n - 1
      rows; checked is the verdict of the closing check. */
  method Expand(b: nat, n: nat, start: nat, end: nat)
    returns (count: nat, starts: array2<nat>, ends: array2<nat>, checked: bool)
    requires b >= 1 && n >= 1 && start <= end < Unit(b, n) <= U32
    ensures starts.Length0 == ends.Length0 == 2 * n - 1 && starts.Length1 == ends.Length1 == n
    ensures count == |Rows(b, n, start, end)| && count <= 2 * n - 1
    ensures Holds(b, starts, ends, Rows(b, n, start, end))
    ensures checked
  {
    RowBound(b, n, start, end);
    starts := new nat[2 * n - 1, n];
    ends := new nat[2 * n - 1, n];
    count := ExpandInto(b, n, start, end, starts, ends);
    checked := CheckHeld(b, n, start, end, starts, ends, count);
  }

  /** The next row of an expansion whose rows from count on expand [s, e]. */
  lemma RowsStep(b: nat, n: nat, s: nat, e: nat, rows: seq<Row>, count: nat)
    requires b >= 1 && n >= 1 && s <= e < Unit(b, n)
    requires count <= |rows| && rows[count..] == Rows(b, n, s, e)
    ensures var h := FirstEnd(b, n, s, e);
      && count < |rows| && rows[..count + 1] == rows[..count] + [Row(s, h)]
      && (h < e ==> rows[count + 1..] == Rows(b, n, h + 1, e))
      && (h >= e ==> count + 1 == |rows|)
  {
    var h := FirstEnd(b, n, s, e);
    assert rows[count] == rows[count..][0] == Row(s, h);
    assert rows[count + 1..] == rows[count..][1..];
  }

  /** The closing check, on arrays that hold the expansion. */
  method CheckHeld(b: nat, n: nat, start: nat, end: nat, starts: array2<nat>, ends: array2<nat>, count: nat)
    returns (ok: bool)
    requires b >= 1 && n >= 1 && start <= end < Unit(b, n) <= U32
    requires starts.Length1 == ends.Length1 == n
    requires count == |Rows(b, n, start, end)| && count <= starts.Length0 && count <= ends.Length0
    requires Holds(b, starts, ends, Rows(b, n, start, end))
    ensures ok
  {
    RowsPartition(b, n, start, end);
    HeldIntervals(b, n, starts, ends, Rows(b, n, start, end));
    ok := CheckRange(b, start, end, starts, ends, count, Unit(b, n));
  }

  /** Recomposing held rows gives their intervals back. */
  lemma HeldIntervals(b: nat, n: nat, starts: array2<nat>, ends: array2<nat>, rows: seq<Row>)
    requires starts.Length1 == ends.Length1 == n && Unit(b, n) <= U32
    requires |rows| <= starts.Length0 && |rows| <= ends.Length0
    requires forall j | 0 <= j < |rows| :: rows[j].lo < Unit(b, n) && rows[j].hi < Unit(b, n)
    requires Holds(b, starts, ends, rows)
    ensures IntervalsOf(b, starts, ends, |rows|) == rows
  {
    forall j | 0 <= j < |rows|
      ensures IntervalsOf(b, starts, ends, |rows|)[j] == rows[j]
    {
      RecomposeSplit(b, n, rows[j].lo);
      RecomposeSplit(b, n, rows[j].hi);
    }
  }

  lemma RecomposeSplit(b: nat, n: nat, v: nat)
    requires v < Unit(b, n) <= U32
    ensures Recompose(b, Split(b, n, v)) == v
  {
    RecomposeNibbles(b, Split(b, n, v));
    ComposeSplit(b, n, v);
  }

  /** Row j of the arrays matches v nibble by nibble. */
  ghost predicate RowMatches(b: nat, starts: array2<nat>, ends: array2<nat>, j: nat, v: nat)
    requires j < starts.Length0 && j < ends.Length0 && starts.Length1 == ends.Length1
    reads starts, ends
  {
    forall i | 0 <= i < starts.Length1 :: starts[j, i] <= Nibble(b, v, i) <= ends[j, i]
  }

  /** Exactly one of the first count rows matches v if v lies in [s, e], and none otherwise. */
  ghost predicate MatchedOnceIn(b: nat, starts: array2<nat>, ends: array2<nat>, count: nat, s: nat, e: nat, v: nat)
    requires count <= starts.Length0 && count <= ends.Length0 && starts.Length1 == ends.Length1
    reads starts, ends
  {
    && (s <= v <= e <==> exists j :: 0 <= j < count && RowMatches(b, starts, ends, j, v))
    && forall j, k | 0 <= j < k < count :: !(RowMatches(b, starts, ends, j, v) && RowMatches(b, starts, ends, k, v))
  }

  lemma HeldRowMatches(b: nat, n: nat, starts: array2<nat>, ends: array2<nat>, rows: seq<Row>, j: nat, v: nat)
    requires starts.Length1 == ends.Length1 == n && j < |rows|
    requires |rows| <= starts.Length0 && |rows| <= ends.Length0 && Holds(b, starts, ends, rows)
    ensures RowMatches(b, starts, ends, j, v) <==> Matches(b, n, rows[j].lo, rows[j].hi, v)
  {
    forall i | 0 <= i < n
      ensures starts[j, i] == Nibble(b, rows[j].lo, i) && ends[j, i] == Nibble(b, rows[j].hi, i)
    {
      assert starts[j, i] == RowOf(starts, j)[i] && ends[j, i] == RowOf(ends, j)[i];
    }
  }

  /** Arrays that hold the expansion match, nibble by nibble, each value of the interval in
      exactly one row and no other value. */
  lemma HeldRowsMatch(b: nat, n: nat, s: nat, e: nat, starts: array2<nat>, ends: array2<nat>, count: nat, v: nat)
    requires b >= 1 && n >= 1 && s <= e < Unit(b, n) && v < Unit(b, n)
    requires starts.Length1 == ends.Length1 == n && count == |Rows(b, n, s, e)|
    requires count <= starts.Length0 && count <= ends.Length0 && Holds(b, starts, ends, Rows(b, n, s, e))
    ensures MatchedOnceIn(b, starts, ends, count, s, e, v)
  {
    var rows := Rows(b, n, s, e);
    RowsMeanInterval(b, n, s, e, v);
    MatchCountDecides(b, n, rows, v);
    forall j | 0 <= j < count
      ensures RowMatches(b, starts, ends, j, v) <==> Matches(b, n, rows[j].lo, rows[j].hi, v)
    {
      HeldRowMatches(b, n, starts, ends, rows, j, v);
    }
  }

  /** The two modes: nibble size, and the number of values four nibbles hold. */
  datatype Mode = TwoBit | FourBit {
    function NibbleSize(): nat { if TwoBit? then 2 else 4 }
    function MaxValue(): nat { if TwoBit? then 256 else 65536 }
  }

  lemma ModeHoldsFourNibbles(mode: Mode)
    ensures mode.MaxValue() == Unit(mode.NibbleSize(), 4)
    ensures mode.TwoBit? ==> mode.NibbleSize() == 2 && mode.MaxValue() == 256
    ensures mode.FourBit? ==> mode.NibbleSize() == 4 && mode.MaxValue() == 65536
  {
    assert Pow2(4) == 16;
    Pow2Add(4, 4);
    Pow2Add(8, 8);
  }

  /** The program's own instance: four nibbles, arrays of seven rows. Each value of the
      interval is matched nibble by nibble by exactly one row, and no other value by any. */
  method ExpandMode(mode: Mode, start: nat, end: nat)
    returns (count: nat, starts: array2<nat>, ends: array2<nat>, checked: bool)
    requires start <= end < mode.MaxValue()
    ensures starts.Length0 == ends.Length0 == 7 && starts.Length1 == ends.Length1 == 4
    ensures count <= 7 && checked
    ensures forall v: nat | v < mode.MaxValue() ::
      IntervalCount(IntervalsOf(mode.NibbleSize(), starts, ends, count), v) == if start <= v <= end then 1 else 0
    ensures forall v: nat | v < mode.MaxValue() ::
      MatchedOnceIn(mode.NibbleSize(), starts, ends, count, start, end, v)
  {
    ModeHoldsFourNibbles(mode);
    ghost var rows := Rows(mode.NibbleSize(), 4, start, end);
    count, starts, ends, checked := Expand(mode.NibbleSize(), 4, start, end);
    RowsPartition(mode.NibbleSize(), 4, start, end);
    HeldIntervals(mode.NibbleSize(), 4, starts, ends, rows);
    forall v: nat | v < mode.MaxValue()
      ensures MatchedOnceIn(mode.NibbleSize(), starts, ends, count, start, end, v)
    {
      HeldRowsMatch(mode.NibbleSize(), 4, start, end, starts, ends, count, v);
    }
  }
}
