/**
 The key and data buffers of src/fixed_function/fixed_function_init.c, into which
 fields are encoded and from which they are decoded, byte-wise.
 */
module FieldBuffer {
  import opened Status
  import opened Bits

  /** One encoded field: where it goes and its bytes. */
  datatype Write = Write(start: nat, bytes: seq<Byte>)

  predicate InRange(w: Write, size: nat)
  {
    w.start + |w.bytes| <= size
  }

  predicate Covers(w: Write, x: nat)
  {
    w.start <= x < w.start + |w.bytes|
  }

  /** The buffer after one field is encoded into it. */
  function Apply(buf: seq<Byte>, w: Write): (r: seq<Byte>)
    requires InRange(w, |buf|)
    ensures |r| == |buf|
    ensures forall x | 0 <= x < |r| :: r[x] == if Covers(w, x) then w.bytes[x - w.start] else buf[x]
  {
    buf[..w.start] + w.bytes + buf[w.start + |w.bytes|..]
  }

  ghost predicate AllInRange(ws: seq<Write>, size: nat)
  {
    forall i | 0 <= i < |ws| :: InRange(ws[i], size)
  }

  /** The buffer after fields are encoded into it one after the other. */
  ghost function ApplyAll(buf: seq<Byte>, ws: seq<Write>): (r: seq<Byte>)
    requires AllInRange(ws, |buf|)
    ensures |r| == |buf|
  {
    if ws == [] then buf else Apply(ApplyAll(buf, ws[..|ws| - 1]), ws[|ws| - 1])
  }

  /** Where two fields overlap they hold the same bytes; disjoint fields do trivially. */
  ghost predicate Agree(v: Write, w: Write)
  {
    forall x: nat | Covers(v, x) && Covers(w, x) :: v.bytes[x - v.start] == w.bytes[x - w.start]
  }

  ghost predicate AllAgree(ws: seq<Write>)
  {
    forall i, j | 0 <= i < |ws| && 0 <= j < |ws| :: Agree(ws[i], ws[j])
  }

  /** A byte in some field is that field's, whichever came last. */
  lemma {:induction false} CoveredByte(buf: seq<Byte>, ws: seq<Write>, i: nat, x: nat)
    requires AllInRange(ws, |buf|) && AllAgree(ws) && i < |ws| && Covers(ws[i], x)
    ensures x < |buf| && ApplyAll(buf, ws)[x] == ws[i].bytes[x - ws[i].start]
  {
    var n := |ws| - 1;
    assert InRange(ws[i], |buf|);
    assert Agree(ws[i], ws[n]);
    if !Covers(ws[n], x) {
      assert ws[..n][i] == ws[i];
      CoveredByte(buf, ws[..n], i, x);
    }
  }

  /** A byte in no field keeps its value. */
  lemma {:induction false} UncoveredByte(buf: seq<Byte>, ws: seq<Write>, x: nat)
    requires AllInRange(ws, |buf|) && x < |buf| && forall i | 0 <= i < |ws| :: !Covers(ws[i], x)
    ensures ApplyAll(buf, ws)[x] == buf[x]
  {
    if ws != [] {
      UncoveredByte(buf, ws[..|ws| - 1], x);
    }
  }

  /** Encoding the same fields in any other order, or some of them again, gives the
      same buffer. */
  lemma OrderIsIrrelevant(buf: seq<Byte>, ws: seq<Write>, ws': seq<Write>)
    requires AllInRange(ws, |buf|) && AllAgree(ws)
    requires forall w :: w in ws <==> w in ws'
    ensures AllInRange(ws', |buf|) && ApplyAll(buf, ws') == ApplyAll(buf, ws)
  {
    forall i | 0 <= i < |ws'|
      ensures InRange(ws'[i], |buf|)
    {
      assert ws'[i] in ws;
    }
    forall i, j | 0 <= i < |ws'| && 0 <= j < |ws'|
      ensures Agree(ws'[i], ws'[j])
    {
      assert ws'[i] in ws && ws'[j] in ws;
    }
    forall x: nat | x < |buf|
      ensures ApplyAll(buf, ws')[x] == ApplyAll(buf, ws)[x]
    {
      if i :| 0 <= i < |ws| && Covers(ws[i], x) {
        CoveredByte(buf, ws, i, x);
        assert ws[i] in ws';
        var j :| 0 <= j < |ws'| && ws'[j] == ws[i];
        CoveredByte(buf, ws', j, x);
      } else {
        UncoveredByte(buf, ws, x);
        forall j | 0 <= j < |ws'|
          ensures !Covers(ws'[j], x)
        {
          assert ws'[j] in ws;
        }
        UncoveredByte(buf, ws', x);
      }
    }
  }

  /** Two fields can be encoded in either order exactly when they agree. */
  lemma CommuteIffAgree(buf: seq<Byte>, v: Write, w: Write)
    requires InRange(v, |buf|) && InRange(w, |buf|)
    ensures Apply(Apply(buf, v), w) == Apply(Apply(buf, w), v) <==> Agree(v, w)
  {
    var vw, wv := Apply(Apply(buf, v), w), Apply(Apply(buf, w), v);
    if vw == wv {
      forall x: nat | Covers(v, x) && Covers(w, x)
        ensures v.bytes[x - v.start] == w.bytes[x - w.start]
      {
        assert vw[x] == wv[x];
      }
    }
    if Agree(v, w) {
      assert forall x | 0 <= x < |buf| :: vw[x] == wv[x];
    }
  }

  /** Every field decodes to the bytes that were encoded. */
  lemma DecodeReturnsField(buf: seq<Byte>, ws: seq<Write>, i: nat)
    requires AllInRange(ws, |buf|) && AllAgree(ws) && i < |ws|
    ensures InRange(ws[i], |buf|)
    ensures ApplyAll(buf, ws)[ws[i].start..ws[i].start + |ws[i].bytes|] == ws[i].bytes
  {
    var w, r := ws[i], ApplyAll(buf, ws);
    assert InRange(w, |buf|);
    var field := r[w.start..w.start + |w.bytes|];
    forall k | 0 <= k < |field|
      ensures field[k] == w.bytes[k]
    {
      CoveredByte(buf, ws, i, w.start + k);
    }
  }

  // ---------- starts that are bit offsets ----------

  /** In every buffer the bytes go where a start in bits would put them. */
  ghost predicate LandsOnBitOffset(start: nat, bytes: seq<Byte>)
  {
    forall buf: seq<Byte> | InRange(Write(start, bytes), |buf|) ::
      Apply(buf, Write(start, bytes)) == Apply(buf, Write(start / 8, bytes))
  }

  /** Taken as a byte index, a start in bits puts a field of at least one byte in its place
      only at the beginning of the buffer. */
  lemma LandsOnBitOffsetIff(start: nat, bytes: seq<Byte>)
    ensures LandsOnBitOffset(start, bytes) <==> start == 0 || bytes == []
  {
    if bytes == [] {
      forall buf: seq<Byte> | InRange(Write(start, bytes), |buf|)
        ensures Apply(buf, Write(start, bytes)) == Apply(buf, Write(start / 8, bytes))
      {
        assert Apply(buf, Write(start, bytes)) == buf == Apply(buf, Write(start / 8, bytes));
      }
    } else if start > 0 {
      var other: Byte := if bytes[0] == 0 then 1 else 0;
      var buf: seq<Byte> := seq(start + |bytes|, _ => other);
      assert Apply(buf, Write(start, bytes))[start / 8] == other;
      assert Apply(buf, Write(start / 8, bytes))[start / 8] == bytes[0];
      assert InRange(Write(start, bytes), |buf|);
    }
  }

  /** A field as the configuration describes it, in bits. */
  datatype Field = Field(startBit: nat, bitWidth: nat)

  predicate BitsApart(f: Field, g: Field)
  {
    f.startBit + f.bitWidth <= g.startBit || g.startBit + g.bitWidth <= f.startBit
  }

  /** Misplaced as they are, fields that share no bit share no byte either, so each of them
      decodes to the bytes that were encoded. */
  lemma BitFieldsStayApart(buf: seq<Byte>, fields: seq<Field>, ws: seq<Write>, i: nat)
    requires |ws| == |fields| && AllInRange(ws, |buf|) && i < |ws|
    requires forall k | 0 <= k < |ws| ::
      ws[k].start == fields[k].startBit && |ws[k].bytes| == fields[k].bitWidth / 8
    requires forall k, m | 0 <= k < m < |fields| :: BitsApart(fields[k], fields[m])
    ensures InRange(ws[i], |buf|)
    ensures ApplyAll(buf, ws)[ws[i].start..ws[i].start + |ws[i].bytes|] == ws[i].bytes
  {
    forall k, m | 0 <= k < |ws| && 0 <= m < |ws|
      ensures Agree(ws[k], ws[m])
    {
      assert k < m ==> BitsApart(fields[k], fields[m]);
      assert m < k ==> BitsApart(fields[m], fields[k]);
    }
    DecodeReturnsField(buf, ws, i);
  }

  // ---------- the buffer ----------

  /** The first n bytes of a are copied to b from start on. */
  method CopyBytes(a: array<Byte>, from: nat, b: array<Byte>, to: nat, n: nat)
    requires a != b && from + n <= a.Length && to + n <= b.Length
    modifies b
    ensures b[..] == Apply(old(b[..]), Write(to, a[from..from + n]))
  {
    for i := 0 to n
      invariant forall x | 0 <= x < b.Length :: b[x] == if to <= x < to + i then a[from + x - to] else old(b[x])
    {
      b[to + i] := a[from + i];
    }
    assert b[..] == Apply(old(b[..]), Write(to, a[from..from + n]));
  }

  /** A key or data buffer: its bytes and how many of them count. */
  class Spec {
    var numBytes: nat
    const bytes: array<Byte>

    constructor (n: nat)
      ensures numBytes == n == bytes.Length
    {
      numBytes := n;
      bytes := new Byte[n](_ => 0);
    }
  }

  /** fixed_function_encode_key_spec and fixed_function_encode_data_spec: the start is
      taken as a byte index and the width as bits, as coded. */
  method Encode(spec: Spec?, start: nat, bitWidth: nat, key: array?<Byte>) returns (status: Code)
    requires spec != null ==> spec.numBytes <= spec.bytes.Length && spec.bytes != key
    requires key != null ==> bitWidth / 8 <= key.Length
    modifies if spec != null then {spec.bytes} else {}
    ensures status == if spec == null || key == null || start + bitWidth / 8 > spec.numBytes
                      then BF_INVALID_ARG else BF_SUCCESS
    ensures spec != null ==>
      spec.bytes[..] == if status == BF_SUCCESS
                        then Apply(old(spec.bytes[..]), Write(start, key[..bitWidth / 8]))
                        else old(spec.bytes[..])
  {
    if spec == null || key == null {
      return BF_INVALID_ARG;
    }
    var numBytes := bitWidth / 8;
    if start + numBytes > spec.numBytes {
      return BF_INVALID_ARG;
    }
    CopyBytes(key, 0, spec.bytes, start, numBytes);
    status := BF_SUCCESS;
  }

  /** fixed_function_decode_key_spec and fixed_function_decode_data_spec. */
  method Decode(spec: Spec?, start: nat, bitWidth: nat, key: array?<Byte>) returns (status: Code)
    requires spec != null ==> spec.numBytes <= spec.bytes.Length && spec.bytes != key
    requires key != null ==> bitWidth / 8 <= key.Length
    modifies if key != null then {key} else {}
    ensures status == if spec == null || key == null || start + bitWidth / 8 > spec.numBytes
                      then BF_INVALID_ARG else BF_SUCCESS
    ensures key != null && spec != null ==>
      key[..] == if status == BF_SUCCESS
                 then Apply(old(key[..]), Write(0, spec.bytes[start..start + bitWidth / 8]))
                 else old(key[..])
  {
    if spec == null || key == null {
      return BF_INVALID_ARG;
    }
    var numBytes := bitWidth / 8;
    if start + numBytes > spec.numBytes {
      return BF_INVALID_ARG;
    }
    CopyBytes(spec.bytes, start, key, 0, numBytes);
    status := BF_SUCCESS;
  }
}
