/**
 ctx_json_hex_to_stream: the bytes of a "0x" string, written from the back of a
 buffer, with the string changed on the way and restored.
 */
module HexStream {
  import opened Arith
  import opened Bits
  import opened Nibbles

  predicate IsHex(c: char)
  {
    '0' <= c <= '9' || 'a' <= c <= 'f' || 'A' <= c <= 'F'
  }

  function Digit(c: char): (d: nat)
    requires IsHex(c)
    ensures d < 16
  {
    if c <= '9' then c as int - '0' as int
    else if c <= 'F' then c as int - 'A' as int + 10
    else c as int - 'a' as int + 10
  }

  predicate AllHex(s: seq<char>)
  {
    forall i | 0 <= i < |s| :: IsHex(s[i])
  }

  /** The value of hexadecimal digits. */
  function Value(s: seq<char>): (v: nat)
    requires AllHex(s)
  {
    if s == [] then 0 else 16 * Value(s[..|s| - 1]) + Digit(s[|s| - 1])
  }

  /** What sscanf's %2hhx reads from two digits. */
  function Pair(hi: char, lo: char): (b: Byte)
    requires IsHex(hi) && IsHex(lo)
  {
    16 * Digit(hi) + Digit(lo)
  }

  /** A value below 16 as a digit, in either case. */
  function HexDigit(d: nat, upper: bool): (c: char)
    requires d < 16
  {
    if upper then "0123456789ABCDEF"[d] else "0123456789abcdef"[d]
  }

  /** n in hexadecimal. */
  function Hex(n: nat, upper: bool): (s: string)
    ensures s != ""
  {
    if n < 16 then [HexDigit(n, upper)] else Hex(n / 16, upper) + [HexDigit(n % 16, upper)]
  }

  lemma DigitOfHex(d: nat, upper: bool)
    requires d < 16
    ensures IsHex(HexDigit(d, upper)) && Digit(HexDigit(d, upper)) == d
  {
  }

  /** A number written in hexadecimal has that value. */
  lemma {:induction false} HexRoundTrip(n: nat, upper: bool)
    ensures AllHex(Hex(n, upper)) && Value(Hex(n, upper)) == n
  {
    var s := Hex(n, upper);
    DigitOfHex(n % 16, upper);
    if n < 16 {
      assert s[..0] == [];
    } else {
      HexRoundTrip(n / 16, upper);
      assert s[..|s| - 1] == Hex(n / 16, upper);
    }
  }

  // ---------- digits and bytes ----------

  lemma ByteUnit()
    ensures Pow2(8) == 256
  {
    assert Pow2(4) == 16;
    Pow2Add(4, 4);
  }

  lemma PairLast(s: seq<char>)
    requires AllHex(s) && |s| >= 2
    ensures AllHex(s[..|s| - 2])
    ensures Value(s) == 256 * Value(s[..|s| - 2]) + Pair(s[|s| - 2], s[|s| - 1])
  {
    var front := s[..|s| - 1];
    assert front[..|front| - 1] == s[..|s| - 2];
    assert front[|front| - 1] == s[|s| - 2];
  }

  /** Byte k + 1 of a value is byte k of the value without its last byte. */
  lemma ByteShift(v: nat, k: nat)
    ensures Nibble(8, v, k + 1) == Nibble(8, v / 256, k)
  {
    ByteUnit();
    UnitStep(8, k);
    DivDiv(v, 256, Unit(8, k));
    assert Unit(8, k + 1) == 256 * Unit(8, k);
  }

  lemma LowByte(v: nat)
    ensures Nibble(8, v, 0) == v % 256
  {
    ByteUnit();
    assert Unit(8, 0) == Pow2(8 * 0) == 1;
  }

  /** The k-th pair of digits from the back is byte k of the value. */
  lemma {:induction false} PairIsByte(s: seq<char>, k: nat)
    requires AllHex(s) && 2 * k + 2 <= |s|
    ensures Pair(s[|s| - 2 - 2 * k], s[|s| - 1 - 2 * k]) == Nibble(8, Value(s), k)
  {
    var front := s[..|s| - 2];
    PairLast(s);
    var b := Pair(s[|s| - 2], s[|s| - 1]);
    DivModUnique(Value(s), 256, Value(front), b);
    if k == 0 {
      LowByte(Value(s));
    } else {
      PairIsByte(front, k - 1);
      ByteShift(Value(s), k - 1);
      assert front[|front| - 2 - 2 * (k - 1)] == s[|s| - 2 - 2 * k];
      assert front[|front| - 1 - 2 * (k - 1)] == s[|s| - 1 - 2 * k];
    }
  }

  lemma {:induction false} ValueBound(s: seq<char>, m: nat)
    requires AllHex(s) && |s| <= 2 * m
    ensures Value(s) < Unit(8, m)
  {
    if |s| == 1 {
      ByteUnit();
      UnitMonotone(8, 1, m);
      UnitStep(8, 0);
      assert Unit(8, 0) == Pow2(8 * 0) == 1;
      assert s[..0] == [];
    } else if |s| >= 2 {
      PairLast(s);
      ValueBound(s[..|s| - 2], m - 1);
      ByteUnit();
      UnitStep(8, m - 1);
      assert Unit(8, m) == 256 * Unit(8, m - 1);
    }
  }

  lemma ValueLeadingZero(s: seq<char>)
    requires AllHex(s)
    ensures AllHex(['0'] + s) && Value(['0'] + s) == Value(s)
  {
    if s == [] {
      assert (['0'] + s)[..0] == [];
    } else {
      var front := s[..|s| - 1];
      ValueLeadingZero(front);
      assert (['0'] + s)[..|s|] == ['0'] + front;
    }
  }

  lemma NoHighByte(v: nat, m: nat, k: nat)
    requires v < Unit(8, m) && m <= k
    ensures Nibble(8, v, k) == 0
  {
    UnitMonotone(8, m, k);
    DivModUnique(v, Unit(8, k), 0, v);
  }

  // ---------- the conversion ----------

  /** The digits that are scanned in pairs: a zero in front makes their number even. */
  function Scanned(digits: seq<char>): (r: seq<char>)
    ensures |r| % 2 == 0
  {
    if |digits| % 2 == 0 then digits else ['0'] + digits
  }

  lemma ScannedValue(digits: seq<char>)
    requires AllHex(digits)
    ensures AllHex(Scanned(digits)) && Value(Scanned(digits)) == Value(digits)
  {
    ValueLeadingZero(digits);
  }

  /** Byte x of the stream after d digits of value v went to the end of the first len
      bytes: a low-order byte of v, counted from the back, or what was there. */
  function Written(v: nat, d: nat, len: nat, x: nat, before: Byte): (b: Byte)
  {
    ByteUnit();
    if x < len && 2 * (len - 1 - x) < d then Nibble(8, v, len - 1 - x) else before
  }

  /** The scanning loop over the string as it stands, pair by pair from the back. */
  method ScanPairs(hex: array<char>, stream: array<Byte>, len: nat, ghost digits: seq<char>)
    requires hex.Length >= 2 && len <= stream.Length
    requires AllHex(digits) && hex.Length == |digits| + 2
    requires hex[hex.Length - |Scanned(digits)|..] == Scanned(digits)
    modifies stream
    ensures forall x | 0 <= x < stream.Length :: stream[x] == Written(Value(digits), |digits|, len, x, old(stream[x]))
  {
    ghost var s := Scanned(digits);
    ScannedValue(digits);
    var n := hex.Length;
    var i, j := n - 2, len - 1;
    while i > 0 && j >= 0
      invariant -1 <= j < len && i == n - 2 - 2 * (len - 1 - j) && 2 * (len - 1 - j) <= |s|
      invariant j < len - 1 ==> 2 * (len - 2 - j) < |digits|
      invariant forall x | 0 <= x < stream.Length ::
        stream[x] == if j < x < len then Nibble(8, Value(digits), len - 1 - x) else old(stream[x])
    {
      ghost var k := len - 1 - j;
      assert hex[i] == s[|s| - 2 - 2 * k] && hex[i + 1] == s[|s| - 1 - 2 * k];
      PairIsByte(s, k);
      stream[j] := Pair(hex[i], hex[i + 1]);
      i, j := i - 2, j - 1;
    }
  }

  /** Writes the low-order bytes of the value, big-endian, to the end of the first len
      bytes, as many as there are digits for; the string ends as it began. */
  method HexToStream(hex: array<char>, stream: array<Byte>, len: nat)
    requires hex.Length >= 2 && hex[0] == '0' && hex[1] == 'x' && AllHex(hex[2..]) && len <= stream.Length
    modifies hex, stream
    ensures hex[..] == old(hex[..])
    ensures AllHex(hex[2..])
    ensures forall x | 0 <= x < stream.Length && x < len && 2 * (len - 1 - x) < hex.Length - 2 ::
      stream[x] == Nibble(8, Value(hex[2..]), len - 1 - x)
    ensures forall x | 0 <= x < stream.Length && (x >= len || 2 * (len - 1 - x) >= hex.Length - 2) ::
      stream[x] == old(stream[x])
  {
    ghost var digits := hex[2..];
    if hex.Length % 2 != 0 {
      hex[1] := '0';
    }
    assert hex[2..] == digits;
    assert hex.Length % 2 != 0 ==> hex[1..] == ['0'] + digits;
    ScanPairs(hex, stream, len, digits);
    if hex.Length % 2 != 0 {
      hex[1] := 'x';
    }
    assert hex[2..] == digits;
  }

  // ---------- the value of the stream ----------

  /** The big-endian value of bytes. */
  function BigEndian(bytes: seq<Byte>): (v: nat)
  {
    if bytes == [] then 0 else 256 * BigEndian(bytes[..|bytes| - 1]) + bytes[|bytes| - 1]
  }

  /** Bytes that are the low-order bytes of v hold v modulo 256 to their number. */
  lemma {:induction false} LowBytesHoldValue(bytes: seq<Byte>, v: nat)
    requires forall k | 0 <= k < |bytes| :: bytes[|bytes| - 1 - k] == Nibble(8, v, k)
    ensures BigEndian(bytes) == v % Unit(8, |bytes|)
  {
    var n := |bytes|;
    if n == 0 {
      assert Unit(8, 0) == Pow2(8 * 0) == 1;
    } else {
      var front := bytes[..n - 1];
      forall k | 0 <= k < n - 1
        ensures front[n - 2 - k] == Nibble(8, v / 256, k)
      {
        assert bytes[n - 1 - (k + 1)] == Nibble(8, v, k + 1);
        ByteShift(v, k);
      }
      LowBytesHoldValue(front, v / 256);
      assert bytes[n - 1 - 0] == Nibble(8, v, 0);
      LowByte(v);
      ModStep(v, n);
    }
  }

  lemma ModStep(v: nat, n: nat)
    requires n > 0
    ensures v % Unit(8, n) == 256 * ((v / 256) % Unit(8, n - 1)) + v % 256
  {
    ByteUnit();
    UnitStep(8, n - 1);
    MixedRadix(v, 256, Unit(8, n - 1));
  }

  /** On a zeroed buffer the conversion leaves the value modulo 256 to the length. */
  method HexToZeroedStream(hex: array<char>, stream: array<Byte>)
    requires hex.Length >= 2 && hex[0] == '0' && hex[1] == 'x' && AllHex(hex[2..])
    requires forall k | 0 <= k < stream.Length :: stream[k] == 0
    modifies hex, stream
    ensures hex[..] == old(hex[..]) && AllHex(hex[2..])
    ensures BigEndian(stream[..]) == Value(hex[2..]) % Unit(8, stream.Length)
  {
    HexToStream(hex, stream, stream.Length);
    ghost var v, m := Value(hex[2..]), (hex.Length - 1) / 2;
    ValueBound(hex[2..], m);
    forall k | 0 <= k < stream.Length
      ensures stream[..][stream.Length - 1 - k] == Nibble(8, v, k)
    {
      if 2 * k >= hex.Length - 2 {
        NoHighByte(v, m, k);
      }
    }
    LowBytesHoldValue(stream[..], v);
  }
}
