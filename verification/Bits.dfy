/**
 C's bit operations on unsigned values, defined bit by bit, and the arithmetic
 they amount to for the masks and shifts that the sources use.
 */
module Bits {
  import opened Arith

  /** The values of a 32-bit unsigned integer lie below this. */
  const U32: nat := 0x1_0000_0000

  type Byte = x: nat | x < 256

  function Pow2(k: nat): (p: nat)
    ensures p >= 1
  {
    if k == 0 then 1 else 2 * Pow2(k - 1)
  }

  /** Bitwise or. */
  function Or(x: nat, y: nat): (r: nat)
    ensures x <= r && y <= r
    decreases x + y
  {
    if x == 0 && y == 0 then 0
    else 2 * Or(x / 2, y / 2) + (if x % 2 == 1 || y % 2 == 1 then 1 else 0)
  }

  /** Bitwise and. */
  function And(x: nat, y: nat): (r: nat)
    ensures r <= x && r <= y
    decreases x + y
  {
    if x == 0 || y == 0 then 0
    else 2 * And(x / 2, y / 2) + (if x % 2 == 1 && y % 2 == 1 then 1 else 0)
  }

  /** The number of trailing zero bits. */
  function Ctz(x: nat): (n: nat)
    requires x > 0
  {
    if x % 2 == 1 then 0 else 1 + Ctz(x / 2)
  }

  lemma {:induction false} Pow2Add(i: nat, j: nat)
    ensures Pow2(i + j) == Pow2(i) * Pow2(j)
  {
    if i > 0 {
      Pow2Add(i - 1, j);
      assert i + j - 1 == (i - 1) + j;
      assert Pow2(i + j) == 2 * (Pow2(i - 1) * Pow2(j)) == Pow2(i) * Pow2(j);
    }
  }

  /** Halving a value halves its remainder by a power of two. */
  lemma HalveMod(x: nat, k: nat)
    requires k > 0
    ensures x % Pow2(k) == 2 * ((x / 2) % Pow2(k - 1)) + x % 2
  {
    MixedRadix(x, 2, Pow2(k - 1));
  }

  lemma OrStep(x: nat, y: nat)
    ensures Or(x, y) == 2 * Or(x / 2, y / 2) + (if x % 2 == 1 || y % 2 == 1 then 1 else 0)
  {
  }

  /** Or-ing k ones into a value of which r is the low k bits fills those. */
  lemma {:induction false} OrOnes(q: nat, r: nat, k: nat)
    requires r < Pow2(k)
    ensures Or(Pow2(k) * q + r, Pow2(k) - 1) == Pow2(k) * q + Pow2(k) - 1
    decreases k
  {
    if k == 0 {
      OrZero(q);
    } else {
      var p := Pow2(k - 1);
      var z := p * q;
      assert Pow2(k) * q == 2 * z;
      OrOnes(q, r / 2, k - 1);
      OrOnesStep(z, r, p);
    }
  }

  lemma OrOnesStep(z: nat, r: nat, p: nat)
    requires p > 0
    ensures Or(2 * z + r, 2 * p - 1) == 2 * Or(z + r / 2, p - 1) + 1
  {
    OrStep(2 * z + r, 2 * p - 1);
    assert (2 * z + r) / 2 == z + r / 2 && (2 * p - 1) / 2 == p - 1;
  }

  /** x | (2^k - 1) fills the low k bits. */
  lemma {:induction false} OrMask(x: nat, k: nat)
    ensures Or(x, Pow2(k) - 1) == FloorTo(x, Pow2(k)) + Pow2(k) - 1
  {
    var m := Pow2(k);
    FloorIsMultiple(x, m);
    QuotientIsNat(x, m);
    OrOnes(x / m, x % m, k);
  }

  lemma {:induction false} OrZero(x: nat)
    ensures Or(x, 0) == x
  {
    if x > 0 {
      OrZero(x / 2);
    }
  }

  lemma {:induction false} OrZeroLeft(x: nat)
    ensures Or(0, x) == x
  {
    if x > 0 {
      OrZeroLeft(x / 2);
    }
  }

  /** x & (2^k - 1) keeps the low k bits. */
  lemma {:induction false} AndMask(x: nat, k: nat)
    ensures And(x, Pow2(k) - 1) == x % Pow2(k)
  {
    if k == 0 {
    } else {
      AndMask(x / 2, k - 1);
      HalveMod(x, k);
      assert (Pow2(k) - 1) / 2 == Pow2(k - 1) - 1;
    }
  }

  /** Or-ing two values bit by bit, the last bits apart. */
  lemma OrLastBits(y: nat, z: nat, bit: nat)
    requires bit < 2
    ensures Or(2 * y, 2 * z + bit) == 2 * Or(y, z) + bit
  {
    OrStep(2 * y, 2 * z + bit);
    assert (2 * z + bit) / 2 == z && (2 * z + bit) % 2 == bit;
  }

  lemma OrShiftTwo(x: nat, q: nat, r: nat)
    requires r < 4
    ensures Or(4 * x, 4 * q + r) == 4 * Or(x, q) + r
  {
    var h, bit := r / 2, r % 2;
    var y, z := 2 * x, 2 * q + h;
    assert Or(4 * x, 4 * q + r) == 2 * Or(y, z) + bit by {
      OrLastBits(y, z, bit);
      assert 2 * y == 4 * x && 2 * z + bit == 4 * q + r;
    }
    assert Or(y, z) == 2 * Or(x, q) + h by {
      OrLastBits(x, q, h);
    }
  }

  /** Or-ing a value into one shifted left by four bits appends its low four bits r; the rest
      q of it is or-ed into what was shifted. */
  lemma OrShiftFour(x: nat, q: nat, r: nat)
    requires r < 16
    ensures Or(16 * x, 16 * q + r) == 16 * Or(x, q) + r
  {
    var h, low := r / 4, r % 4;
    var y, z := 4 * x, 4 * q + h;
    assert Or(16 * x, 16 * q + r) == 4 * Or(y, z) + low by {
      OrShiftTwo(y, z, low);
      assert 4 * y == 16 * x && 4 * z + low == 16 * q + r;
    }
    assert Or(y, z) == 4 * Or(x, q) + h by {
      OrShiftTwo(x, q, h);
    }
  }

  /** Or-ing values of k bits gives k bits. */
  lemma {:induction false} OrFits(x: nat, y: nat, k: nat)
    requires k > 0 ==> x < Pow2(k) && y < Pow2(k)
    requires k == 0 ==> x == 0 && y == 0
    ensures Or(x, y) < Pow2(k)
  {
    if k > 0 {
      HalfFits(x, k);
      HalfFits(y, k);
      OrFits(x / 2, y / 2, k - 1);
      OrStep(x, y);
    }
  }

  lemma HalfFits(x: nat, k: nat)
    requires k > 0 && x < Pow2(k)
    ensures x / 2 < Pow2(k - 1)
  {
  }

  /** Or-ing a k-bit value into a value shifted left by k bits appends it. */
  lemma {:induction false} OrAppends(x: nat, k: nat, v: nat)
    requires v < Pow2(k)
    ensures Or(x * Pow2(k), v) == x * Pow2(k) + v
  {
    if k == 0 {
      OrZero(x);
    } else {
      var y := x * Pow2(k - 1);
      assert x * Pow2(k) == 2 * y;
      OrAppends(x, k - 1, v / 2);
      OrLastBits(y, v / 2, v % 2);
    }
  }

  /** Ctz is the largest power of two dividing x. */
  lemma {:induction false} CtzDivides(x: nat, k: nat)
    requires x > 0
    ensures x % Pow2(k) == 0 <==> k <= Ctz(x)
  {
    if k > 0 {
      HalveMod(x, k);
      if x % 2 == 0 {
        CtzDivides(x / 2, k - 1);
      }
    }
  }
}
