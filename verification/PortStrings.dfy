/** Port names "connection/channel" as src/bf_pal/bf_pal_port_intf.c reads them. */
module PortStrings {
  import opened Bits

  const ULONG_MAX: nat := 0xFFFF_FFFF_FFFF_FFFF

  predicate IsDigit(c: char)
  {
    '0' <= c <= '9'
  }

  predicate IsSpace(c: char)
  {
    c == ' ' || '\t' <= c <= '\r'
  }

  predicate AllDigits(s: string)
  {
    forall i | 0 <= i < |s| :: IsDigit(s[i])
  }

  function DecValue(s: string): (v: nat)
    requires AllDigits(s)
  {
    if s == "" then 0 else 10 * DecValue(s[..|s| - 1]) + (s[|s| - 1] as int - '0' as int)
  }

  function SkipSpace(s: string): (r: string)
  {
    if s != "" && IsSpace(s[0]) then SkipSpace(s[1..]) else s
  }

  /** The longest run of digits that s starts with. */
  function LeadingDigits(s: string): (r: string)
    ensures r <= s && AllDigits(r)
  {
    if s != "" && IsDigit(s[0]) then [s[0]] + LeadingDigits(s[1..]) else ""
  }

  /** The standard's strtoul in base ten, with a 64-bit unsigned long. */
  function Strtoul(s: string): (v: nat)
    ensures v <= ULONG_MAX
  {
    var t := SkipSpace(s);
    var negative := t != "" && t[0] == '-';
    var body := if t != "" && (t[0] == '-' || t[0] == '+') then t[1..] else t;
    var v := DecValue(LeadingDigits(body));
    if v > ULONG_MAX then ULONG_MAX
    else if negative && v > 0 then ULONG_MAX + 1 - v
    else v
  }

  /** One part of a port name: "-" in front stands for all ones. */
  function Part(s: string): (v: nat)
    ensures v < U32
  {
    if s != "" && s[0] == '-' then U32 - 1 else Strtoul(s) % U32
  }

  /** The place of the first slash, or the length. */
  function SlashAt(s: string): (i: nat)
    ensures i <= |s|
    ensures forall k | 0 <= k < i :: s[k] != '/'
    ensures i < |s| ==> s[i] == '/'
  {
    if s == "" || s[0] == '/' then 0 else 1 + SlashAt(s[1..])
  }

  lemma {:induction false} SlashAtIs(s: string, i: nat)
    requires i <= |s| && (forall k | 0 <= k < i :: s[k] != '/') && (i < |s| ==> s[i] == '/')
    ensures SlashAt(s) == i
  {
    if i > 0 {
      SlashAtIs(s[1..], i - 1);
    }
  }

  datatype Info = Info(ok: bool, conn: nat, chnl: nat)

  /** What a port name stands for; without a slash both parts stay zero. */
  function Parse(s: string): (r: Info)
    ensures r.conn < U32 && r.chnl < U32
  {
    var i := SlashAt(s);
    if i == |s| then Info(false, 0, 0) else Info(true, Part(s[..i]), Part(s[i + 1..]))
  }

  /** The scan with a moving index; memory for the copy may be lacking. */
  method StrToInfo(s: string, alloc: bool) returns (r: Info)
    ensures r == if alloc then Parse(s) else Info(false, 0, 0)
  {
    if !alloc {
      return Info(false, 0, 0);
    }
    var i := 0;
    while i < |s| && s[i] != '/'
      invariant 0 <= i <= |s| && forall k | 0 <= k < i :: s[k] != '/'
    {
      i := i + 1;
    }
    SlashAtIs(s, i);
    if i == |s| {
      return Info(false, 0, 0);
    }
    r := Info(true, Part(s[..i]), Part(s[i + 1..]));
  }

  // ---------- decimal numbers ----------

  function DigitChar(d: nat): (c: char)
    requires d < 10
    ensures IsDigit(c) && c as int - '0' as int == d
  {
    (d + '0' as int) as char
  }

  /** n in decimal. */
  function Dec(n: nat): (s: string)
    ensures s != "" && AllDigits(s)
  {
    if n < 10 then [DigitChar(n)] else Dec(n / 10) + [DigitChar(n % 10)]
  }

  lemma {:induction false} DecRoundTrip(n: nat)
    ensures DecValue(Dec(n)) == n
  {
    if n < 10 {
      assert [DigitChar(n)][..0] == "";
    } else {
      DecRoundTrip(n / 10);
      assert Dec(n)[..|Dec(n)| - 1] == Dec(n / 10);
    }
  }

  lemma {:induction false} LeadingDigitsAll(s: string)
    requires AllDigits(s)
    ensures LeadingDigits(s) == s
  {
    if s != "" {
      LeadingDigitsAll(s[1..]);
    }
  }

  /** A number written in decimal is read back. */
  lemma PartOfDec(n: nat)
    requires n < U32
    ensures Part(Dec(n)) == n
  {
    var s := Dec(n);
    assert IsDigit(s[0]);
    assert SkipSpace(s) == s;
    LeadingDigitsAll(s);
    DecRoundTrip(n);
  }

  lemma {:induction false} SkipsSpaces(spaces: string, rest: string)
    requires (forall i | 0 <= i < |spaces| :: IsSpace(spaces[i])) && (rest != "" ==> !IsSpace(rest[0]))
    ensures SkipSpace(spaces + rest) == rest
  {
    if spaces == "" {
      assert spaces + rest == rest;
    } else {
      SkipsSpaces(spaces[1..], rest);
      assert (spaces + rest)[1..] == spaces[1..] + rest;
    }
  }

  lemma {:induction false} TakesDigits(digits: string, rest: string)
    requires AllDigits(digits) && (rest != "" ==> !IsDigit(rest[0]))
    ensures LeadingDigits(digits + rest) == digits
  {
    if digits == "" {
      assert digits + rest == rest;
    } else {
      TakesDigits(digits[1..], rest);
      assert (digits + rest)[1..] == digits[1..] + rest;
      assert digits == [digits[0]] + digits[1..];
    }
  }

  /** A number in text: spaces, a sign, digits and whatever follows them. Beyond 64 bits it is
      the largest, and a minus takes it from 2^64. */
  lemma StrtoulReads(spaces: string, sign: string, digits: string, rest: string)
    requires forall i | 0 <= i < |spaces| :: IsSpace(spaces[i])
    requires sign == "" || sign == "+" || sign == "-"
    requires AllDigits(digits) && (rest != "" ==> !IsDigit(rest[0]))
    requires sign == "" && digits == "" && rest != "" ==> !IsSpace(rest[0]) && rest[0] != '+' && rest[0] != '-'
    ensures var v := DecValue(digits);
      Strtoul(spaces + (sign + (digits + rest))) ==
        if v >= 0x1_0000_0000_0000_0000 then 0xFFFF_FFFF_FFFF_FFFF
        else if sign == "-" && v > 0 then 0x1_0000_0000_0000_0000 - v
        else v
  {
    var body := digits + rest;
    var t := sign + body;
    SignAndBody(sign, digits, rest);
    SkipsSpaces(spaces, t);
    TakesDigits(digits, rest);
  }

  /** Which character comes first behind the spaces, and what follows the sign. */
  lemma SignAndBody(sign: string, digits: string, rest: string)
    requires sign == "" || sign == "+" || sign == "-"
    requires AllDigits(digits)
    requires sign == "" && digits == "" && rest != "" ==> !IsSpace(rest[0]) && rest[0] != '+' && rest[0] != '-'
    ensures var body := digits + rest; var t := sign + body;
      && (t != "" ==> !IsSpace(t[0]))
      && (t != "" && t[0] == '-' <==> sign == "-")
      && (if t != "" && (t[0] == '-' || t[0] == '+') then t[1..] == body else t == body)
  {
    var body := digits + rest;
    assert digits != "" ==> body[0] == digits[0] && IsDigit(digits[0]);
    assert digits == "" ==> body == rest;
    assert sign == "" ==> sign + body == body;
    assert sign != "" ==> (sign + body)[0] == sign[0] && (sign + body)[1..] == body;
  }

  /** Two numbers written as a port name are read back. */
  lemma ParseOfName(c: nat, n: nat)
    requires c < U32 && n < U32
    ensures Parse(Dec(c) + "/" + Dec(n)) == Info(true, c, n)
  {
    var s := Dec(c) + "/" + Dec(n);
    var i := |Dec(c)|;
    forall k | 0 <= k < i
      ensures s[k] != '/'
    {
      assert s[k] == Dec(c)[k] && IsDigit(Dec(c)[k]);
    }
    SlashAtIs(s, i);
    assert s[..i] == Dec(c) && s[i + 1..] == Dec(n);
    PartOfDec(c);
    PartOfDec(n);
  }
}
