/**
 Values read nibble by nibble, as a TCAM row holds them: b bits a nibble, n
 nibbles a value. A row is a pair of values lo and hi and matches v when every
 nibble of v lies between the same nibbles of lo and hi.
 */
module Nibbles {
  import opened Arith
  import opened Bits

  /** The weight of nibble i. */
  function Unit(b: nat, i: nat): (u: nat)
    ensures u >= 1
  {
    Pow2(b * i)
  }

  function Nibble(b: nat, v: nat, i: nat): (r: nat)
    ensures r < Pow2(b)
  {
    (v / Unit(b, i)) % Pow2(b)
  }

  ghost predicate Matches(b: nat, n: nat, lo: nat, hi: nat, v: nat)
  {
    forall i: nat | i < n :: Nibble(b, lo, i) <= Nibble(b, v, i) <= Nibble(b, hi, i)
  }

  /** The row matches exactly the values of the interval [lo, hi]. */
  ghost predicate Contiguous(b: nat, n: nat, lo: nat, hi: nat)
  {
    && lo <= hi < Unit(b, n)
    && forall v: nat | v < Unit(b, n) :: Matches(b, n, lo, hi, v) <==> lo <= v <= hi
  }

  /** Only nibble i varies partially: nibbles above it are fixed, nibbles below it are free. */
  predicate IsBlock(b: nat, i: nat, lo: nat, hi: nat)
  {
    && lo <= hi
    && lo % Unit(b, i) == 0
    && (hi + 1) % Unit(b, i) == 0
    && lo / Unit(b, i + 1) == hi / Unit(b, i + 1)
  }

  // ---------- weights ----------

  lemma UnitStep(b: nat, i: nat)
    ensures Unit(b, i + 1) == Unit(b, i) * Pow2(b)
  {
    Pow2Add(b * i, b);
    assert b * (i + 1) == b * i + b;
  }

  lemma UnitSplit(b: nat, i: nat, j: nat)
    requires i <= j
    ensures Unit(b, j) == Unit(b, i) * Unit(b, j - i)
  {
    Pow2Add(b * i, b * (j - i));
    assert b * j == b * i + b * (j - i);
  }

  lemma UnitMonotone(b: nat, i: nat, j: nat)
    requires i <= j
    ensures Unit(b, i) <= Unit(b, j)
  {
    UnitSplit(b, i, j);
    assert Unit(b, i) * 1 <= Unit(b, i) * Unit(b, j - i);
  }

  lemma AlignedBelow(b: nat, x: nat, i: nat, j: nat)
    requires i <= j && x % Unit(b, j) == 0
    ensures x % Unit(b, i) == 0
  {
    UnitSplit(b, i, j);
    MultipleOfProduct(x, Unit(b, i), Unit(b, j - i));
  }

  // ---------- single nibbles ----------

  lemma NibbleStep(b: nat, v: nat, i: nat)
    ensures v / Unit(b, i) == Pow2(b) * (v / Unit(b, i + 1)) + Nibble(b, v, i)
  {
    UnitStep(b, i);
    DivDiv(v, Unit(b, i), Pow2(b));
  }

  lemma ZeroNibble(b: nat, x: nat, i: nat, j: nat)
    requires j < i && x % Unit(b, i) == 0
    ensures Nibble(b, x, j) == 0
  {
    AlignedBelow(b, x, j + 1, i);
    UnitStep(b, j);
    ZeroDigit(x, Unit(b, j), Pow2(b));
  }

  lemma FullNibble(b: nat, x: nat, i: nat, j: nat)
    requires j < i && (x + 1) % Unit(b, i) == 0
    ensures Nibble(b, x, j) == Pow2(b) - 1
  {
    AlignedBelow(b, x + 1, j + 1, i);
    UnitStep(b, j);
    FullDigit(x, Unit(b, j), Pow2(b));
  }

  lemma {:induction false} ZeroNibblesAlign(b: nat, x: nat, i: nat)
    requires forall j: nat | j < i :: Nibble(b, x, j) == 0
    ensures x % Unit(b, i) == 0
  {
    if i > 0 {
      ZeroNibblesAlign(b, x, i - 1);
      UnitStep(b, i - 1);
      assert Nibble(b, x, i - 1) == 0;
      ZeroDigitAligns(x, Unit(b, i - 1), Pow2(b));
    }
  }

  lemma {:induction false} FullNibblesAlign(b: nat, x: nat, i: nat)
    requires forall j: nat | j < i :: Nibble(b, x, j) == Pow2(b) - 1
    ensures (x + 1) % Unit(b, i) == 0
  {
    if i > 0 {
      FullNibblesAlign(b, x, i - 1);
      UnitStep(b, i - 1);
      assert Nibble(b, x, i - 1) == Pow2(b) - 1;
      FullDigitAligns(x, Unit(b, i - 1), Pow2(b));
    }
  }

  lemma SameAbove(b: nat, x: nat, y: nat, i: nat, j: nat)
    requires i <= j && x / Unit(b, i) == y / Unit(b, i)
    ensures x / Unit(b, j) == y / Unit(b, j)
    ensures Nibble(b, x, j) == Nibble(b, y, j)
  {
    UnitSplit(b, i, j);
    DivDiv(x, Unit(b, i), Unit(b, j - i));
    DivDiv(y, Unit(b, i), Unit(b, j - i));
  }

  lemma {:induction false} HighNibblesDetermine(b: nat, n: nat, x: nat, y: nat, i: nat)
    requires x < Unit(b, n) && y < Unit(b, n) && i <= n
    requires forall j: nat | i <= j < n :: Nibble(b, x, j) == Nibble(b, y, j)
    ensures x / Unit(b, i) == y / Unit(b, i)
    decreases n - i
  {
    if i == n {
      DivModUnique(x, Unit(b, n), 0, x);
      DivModUnique(y, Unit(b, n), 0, y);
    } else {
      HighNibblesDetermine(b, n, x, y, i + 1);
      NibbleStep(b, x, i);
      NibbleStep(b, y, i);
    }
  }

  // ---------- blocks ----------

  lemma MatchInsideBlock(b: nat, i: nat, lo: nat, hi: nat, v: nat, j: nat)
    requires IsBlock(b, i, lo, hi) && lo <= v <= hi
    ensures Nibble(b, lo, j) <= Nibble(b, v, j) <= Nibble(b, hi, j)
  {
    DivMonotone(lo, v, Unit(b, i + 1));
    DivMonotone(v, hi, Unit(b, i + 1));
    if j > i {
      SameAbove(b, lo, v, i + 1, j);
      SameAbove(b, lo, hi, i + 1, j);
    } else if j < i {
      ZeroNibble(b, lo, i, j);
      FullNibble(b, hi, i, j);
    } else {
      DivMonotone(lo, v, Unit(b, i));
      DivMonotone(v, hi, Unit(b, i));
      NibbleStep(b, lo, i);
      NibbleStep(b, v, i);
      NibbleStep(b, hi, i);
    }
  }

  lemma MatchedIsInsideBlock(b: nat, n: nat, i: nat, lo: nat, hi: nat, v: nat)
    requires IsBlock(b, i, lo, hi) && i < n && hi < Unit(b, n) && v < Unit(b, n)
    requires Matches(b, n, lo, hi, v)
    ensures lo <= v <= hi
  {
    forall j: nat | i + 1 <= j < n
      ensures Nibble(b, v, j) == Nibble(b, lo, j)
    {
      SameAbove(b, lo, hi, i + 1, j);
      assert Nibble(b, lo, j) <= Nibble(b, v, j) <= Nibble(b, hi, j);
    }
    HighNibblesDetermine(b, n, v, lo, i + 1);
    assert Nibble(b, lo, i) <= Nibble(b, v, i) <= Nibble(b, hi, i);
    NibbleStep(b, lo, i);
    NibbleStep(b, v, i);
    NibbleStep(b, hi, i);
    OrderByQuotient(lo, v, hi, Unit(b, i));
  }

  lemma BlockIsContiguous(b: nat, n: nat, i: nat, lo: nat, hi: nat)
    requires IsBlock(b, i, lo, hi) && i < n && hi < Unit(b, n)
    ensures Contiguous(b, n, lo, hi)
  {
    forall v: nat | v < Unit(b, n)
      ensures Matches(b, n, lo, hi, v) <==> lo <= v <= hi
    {
      if lo <= v <= hi {
        forall j: nat | j < n
          ensures Nibble(b, lo, j) <= Nibble(b, v, j) <= Nibble(b, hi, j)
        {
          MatchInsideBlock(b, i, lo, hi, v, j);
        }
      }
      if Matches(b, n, lo, hi, v) {
        MatchedIsInsideBlock(b, n, i, lo, hi, v);
      }
    }
  }

  /** The lowest nibble above which lo and hi agree. */
  ghost function TopDifference(b: nat, lo: nat, hi: nat, i: nat): (r: nat)
    requires lo / Unit(b, i + 1) == hi / Unit(b, i + 1)
    ensures r <= i
    ensures lo / Unit(b, r + 1) == hi / Unit(b, r + 1)
    ensures r > 0 ==> lo / Unit(b, r) != hi / Unit(b, r)
  {
    if i == 0 || lo / Unit(b, i) != hi / Unit(b, i) then i
    else TopDifference(b, lo, hi, i - 1)
  }

  /** Below its top differing nibble a contiguous row starts at zero: the next
      multiple of the unit is in the interval and has only zero nibbles there. */
  lemma ContiguousStartsAligned(b: nat, n: nat, lo: nat, hi: nat, i: nat)
    requires Contiguous(b, n, lo, hi) && i < n
    requires lo / Unit(b, i) < hi / Unit(b, i)
    ensures lo % Unit(b, i) == 0
  {
    MultiplesBetween(lo, hi, Unit(b, i));
    var v := Unit(b, i) * (lo / Unit(b, i) + 1);
    assert Matches(b, n, lo, hi, v);
    forall j: nat | j < i
      ensures Nibble(b, lo, j) == 0
    {
      ZeroNibble(b, v, i, j);
      assert Nibble(b, lo, j) <= Nibble(b, v, j);
    }
    ZeroNibblesAlign(b, lo, i);
  }

  lemma ContiguousEndsAligned(b: nat, n: nat, lo: nat, hi: nat, i: nat)
    requires Contiguous(b, n, lo, hi) && i < n
    requires lo / Unit(b, i) < hi / Unit(b, i)
    ensures (hi + 1) % Unit(b, i) == 0
  {
    MultiplesBetween(lo, hi, Unit(b, i));
    var v := Unit(b, i) * (hi / Unit(b, i)) - 1;
    assert Matches(b, n, lo, hi, v);
    forall j: nat | j < i
      ensures Nibble(b, hi, j) == Pow2(b) - 1
    {
      FullNibble(b, v, i, j);
      assert Nibble(b, v, j) <= Nibble(b, hi, j);
    }
    FullNibblesAlign(b, hi, i);
  }

  /** The rows a TCAM can hold that match an interval are exactly the blocks. */
  lemma ContiguousIffBlock(b: nat, n: nat, lo: nat, hi: nat)
    requires n >= 1 && lo <= hi < Unit(b, n)
    ensures Contiguous(b, n, lo, hi) <==> exists i: nat :: i < n && IsBlock(b, i, lo, hi)
  {
    if Contiguous(b, n, lo, hi) {
      DivModUnique(lo, Unit(b, n), 0, lo);
      DivModUnique(hi, Unit(b, n), 0, hi);
      var i := TopDifference(b, lo, hi, n - 1);
      if i > 0 {
        DivMonotone(lo, hi, Unit(b, i));
        ContiguousStartsAligned(b, n, lo, hi, i);
        ContiguousEndsAligned(b, n, lo, hi, i);
      }
      assert IsBlock(b, i, lo, hi);
    }
    forall i: nat | i < n && IsBlock(b, i, lo, hi)
      ensures Contiguous(b, n, lo, hi)
    {
      BlockIsContiguous(b, n, i, lo, hi);
    }
  }
}
