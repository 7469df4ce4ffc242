/**
 Where the fields of a match key and the parameters of an action lie: each name
 gets a slot of whole bytes, repeated slices of a match field share the first one's.
 */
module KeyLayout {

  datatype Key = Key(name: string, width: nat)

  function PadToByte(width: nat): (r: nat)
    ensures width <= r < width + 8 && r % 8 == 0
  {
    8 * ((width + 7) / 8)
  }

  predicate Named(keys: seq<Key>, name: string)
  {
    exists i :: 0 <= i < |keys| && keys[i].name == name
  }

  /** The bits that these keys take, one after the other. */
  function Bits(keys: seq<Key>): (n: nat)
    ensures n % 8 == 0
  {
    if keys == [] then 0 else Bits(keys[..|keys| - 1]) + PadToByte(keys[|keys| - 1].width)
  }

  /** The keys that have a slot of their own: those not named before. */
  function Slots(keys: seq<Key>): (r: seq<Key>)
    ensures |r| <= |keys|
  {
    if keys == [] then []
    else
      var before, last := keys[..|keys| - 1], keys[|keys| - 1];
      if Named(before, last.name) then Slots(before) else Slots(before) + [last]
  }

  ghost predicate DistinctNames(keys: seq<Key>)
  {
    forall i, j | 0 <= i < j < |keys| :: keys[i].name != keys[j].name
  }

  /** The first place of a name. */
  function FirstAt(keys: seq<Key>, name: string): (i: nat)
    ensures i <= |keys|
    ensures i < |keys| <==> Named(keys, name)
    ensures i < |keys| ==> keys[i].name == name
    ensures forall k | 0 <= k < i :: keys[k].name != name
  {
    if keys == [] || keys[0].name == name then 0
    else
      assert Named(keys[1..], name) ==> Named(keys, name) by {
        if k :| 0 <= k < |keys[1..]| && keys[1..][k].name == name { assert keys[k + 1].name == name; }
      }
      assert Named(keys, name) ==> Named(keys[1..], name) by {
        if k :| 0 <= k < |keys| && keys[k].name == name { assert keys[1..][k - 1].name == name; }
      }
      1 + FirstAt(keys[1..], name)
  }

  // ---------- slots ----------

  lemma {:induction false} SlotsNames(keys: seq<Key>, name: string)
    ensures Named(Slots(keys), name) <==> Named(keys, name)
  {
    if keys != [] {
      var before, last := keys[..|keys| - 1], keys[|keys| - 1];
      SlotsNames(before, name);
      NamedLast(before, last, name);
      assert keys == before + [last];
      if !Named(before, last.name) {
        NamedLast(Slots(before), last, name);
      }
    }
  }

  lemma NamedLast(before: seq<Key>, last: Key, name: string)
    ensures Named(before + [last], name) <==> Named(before, name) || last.name == name
  {
    var keys := before + [last];
    assert keys[|before|] == last;
    if i :| 0 <= i < |before| && before[i].name == name {
      assert keys[i].name == name;
    }
    if i :| 0 <= i < |keys| && keys[i].name == name {
      assert i < |before| ==> before[i].name == name;
    }
  }

  lemma {:induction false} SlotsDistinct(keys: seq<Key>)
    ensures DistinctNames(Slots(keys))
  {
    if keys != [] {
      var before, last := keys[..|keys| - 1], keys[|keys| - 1];
      SlotsDistinct(before);
      SlotsNames(before, last.name);
    }
  }

  /** Slots are handed out in the order in which names first appear. */
  lemma {:induction false} SlotsPrefix(keys: seq<Key>, i: nat)
    requires i <= |keys|
    ensures Slots(keys[..i]) <= Slots(keys)
  {
    if i == |keys| {
      assert keys[..i] == keys;
    } else {
      var before := keys[..|keys| - 1];
      SlotsPrefix(before, i);
      assert before[..i] == keys[..i];
    }
  }

  /** The slot of a name follows the slots of the names before its first appearance. */
  lemma SlotOf(keys: seq<Key>, name: string)
    requires Named(keys, name)
    ensures var i := FirstAt(keys, name); var p := |Slots(keys[..i])|;
      && p < |Slots(keys)| && Slots(keys)[p] == keys[i] && Slots(keys)[..p] == Slots(keys[..i])
  {
    var i := FirstAt(keys, name);
    assert !Named(keys[..i], name);
    assert keys[..i + 1][..i] == keys[..i] && keys[..i + 1][i] == keys[i];
    assert Slots(keys[..i + 1]) == Slots(keys[..i]) + [keys[i]];
    SlotsPrefix(keys, i + 1);
  }

  // ---------- tiling ----------

  function SlotStart(slots: seq<Key>, p: nat): (r: nat)
    requires p <= |slots|
  {
    Bits(slots[..p])
  }

  /** Bit x lies in slot p. */
  predicate InSlot(slots: seq<Key>, p: nat, x: nat)
    requires p < |slots|
  {
    SlotStart(slots, p) <= x < SlotStart(slots, p + 1)
  }

  lemma SlotEnd(slots: seq<Key>, p: nat)
    requires p < |slots|
    ensures SlotStart(slots, p + 1) == SlotStart(slots, p) + PadToByte(slots[p].width)
  {
    assert slots[..p + 1][..p] == slots[..p];
  }

  lemma {:induction false} SlotsInOrder(slots: seq<Key>, p: nat, q: nat)
    requires p <= q <= |slots|
    ensures SlotStart(slots, p) <= SlotStart(slots, q) <= Bits(slots)
    decreases |slots| - p
  {
    if p < |slots| {
      SlotEnd(slots, p);
      if p < q {
        SlotsInOrder(slots, p + 1, q);
      } else {
        SlotsInOrder(slots, p + 1, p + 1);
      }
    } else {
      assert slots[..p] == slots;
    }
  }

  /** The slot that bit x lies in, among the first n. */
  ghost function SlotWith(slots: seq<Key>, n: nat, x: nat): (p: nat)
    requires n <= |slots| && x < SlotStart(slots, n)
    ensures p < n && InSlot(slots, p, x)
  {
    if SlotStart(slots, n - 1) <= x then n - 1 else SlotWith(slots, n - 1, x)
  }

  /** The slots tile the key: every bit of it, and no other, lies in a slot... */
  lemma SlotsCover(slots: seq<Key>, x: nat)
    ensures x < Bits(slots) <==> exists p: nat :: p < |slots| && InSlot(slots, p, x)
  {
    assert slots[..|slots|] == slots;
    if x < Bits(slots) {
      var p := SlotWith(slots, |slots|, x);
      assert p < |slots| && InSlot(slots, p, x);
    }
    if p: nat :| p < |slots| && InSlot(slots, p, x) {
      SlotsInOrder(slots, p + 1, |slots|);
    }
  }

  /** ...and in one slot only. */
  lemma SlotsDisjoint(slots: seq<Key>, x: nat, p: nat, q: nat)
    requires p < |slots| && q < |slots| && InSlot(slots, p, x) && InSlot(slots, q, x)
    ensures p == q
  {
    if p < q {
      SlotsInOrder(slots, p + 1, q);
    } else if q < p {
      SlotsInOrder(slots, q + 1, p);
    }
  }

  // ---------- ranges inside slots ----------

  datatype Range = Range(offset: nat, length: nat)

  /** The bits of a match field in the key: widths of up to a byte take the whole byte,
      wider fields are padded in front. */
  function MatchRange(start: nat, width: nat): (r: Range)
  {
    if width > 8 then Range(start + PadToByte(width) - width, width) else Range(start, PadToByte(width))
  }

  /** The bits of an action parameter, always padded in front. */
  function ActionRange(start: nat, width: nat): (r: Range)
  {
    Range(start + PadToByte(width) - width, width)
  }

  ghost predicate FillsSlotEnd(r: Range, slots: seq<Key>, p: nat)
    requires p < |slots|
  {
    SlotStart(slots, p) <= r.offset && r.offset + r.length == SlotStart(slots, p + 1)
  }

  /** Where a match field lies, in terms of the whole list. */
  function Place(keys: seq<Key>, name: string): (r: Range)
    requires Named(keys, name)
  {
    var i := FirstAt(keys, name);
    MatchRange(Bits(Slots(keys[..i])), keys[i].width)
  }

  /** A match field ends on the byte boundary of its slot, inside the key. Up to a byte
      it takes the slot, beyond that its own width. */
  lemma PlaceFillsSlot(keys: seq<Key>, name: string)
    requires Named(keys, name)
    ensures var p := |Slots(keys[..FirstAt(keys, name)])|; var slots := Slots(keys);
      && p < |slots| && slots[p].name == name && FillsSlotEnd(Place(keys, name), slots, p)
      && Place(keys, name).offset + Place(keys, name).length <= Bits(slots)
      && (if slots[p].width <= 8 then Place(keys, name).offset == SlotStart(slots, p)
          else Place(keys, name).length == slots[p].width)
  {
    SlotOf(keys, name);
    var p := |Slots(keys[..FirstAt(keys, name)])|;
    SlotEnd(Slots(keys), p);
    SlotsInOrder(Slots(keys), p + 1, p + 1);
  }

  /** Match fields of different names share no bit. */
  lemma PlacesDisjoint(keys: seq<Key>, n1: string, n2: string)
    requires Named(keys, n1) && Named(keys, n2) && n1 != n2
    ensures var r1, r2 := Place(keys, n1), Place(keys, n2);
      r1.offset + r1.length <= r2.offset || r2.offset + r2.length <= r1.offset
  {
    PlaceFillsSlot(keys, n1);
    PlaceFillsSlot(keys, n2);
    var p, q := |Slots(keys[..FirstAt(keys, n1)])|, |Slots(keys[..FirstAt(keys, n2)])|;
    RangesApart(Slots(keys), p, q, Place(keys, n1), Place(keys, n2));
  }

  lemma RangesApart(slots: seq<Key>, p: nat, q: nat, r1: Range, r2: Range)
    requires p < |slots| && q < |slots| && p != q
    requires FillsSlotEnd(r1, slots, p) && FillsSlotEnd(r2, slots, q)
    ensures r1.offset + r1.length <= r2.offset || r2.offset + r2.length <= r1.offset
  {
    if p < q {
      SlotsInOrder(slots, p + 1, q);
    } else {
      SlotsInOrder(slots, q + 1, p);
    }
  }

  // ---------- match keys and action parameters ----------

  /** Some key of the list repeats a name and takes bits. */
  ghost predicate RepeatsBits(keys: seq<Key>)
  {
    exists i :: 0 <= i < |keys| && keys[i].width > 0 && Named(keys[..i], keys[i].name)
  }

  lemma {:induction false} BitsOfSlots(keys: seq<Key>)
    ensures Bits(Slots(keys)) <= Bits(keys)
    ensures Bits(Slots(keys)) == Bits(keys) <==> !RepeatsBits(keys)
  {
    if keys != [] {
      var before, last := keys[..|keys| - 1], keys[|keys| - 1];
      BitsOfSlots(before);
      RepeatsLast(before, last);
      assert keys == before + [last];
      SlotsBits(before, last);
    }
  }

  lemma SlotsBits(before: seq<Key>, last: Key)
    ensures Bits(before + [last]) == Bits(before) + PadToByte(last.width)
    ensures Bits(Slots(before + [last]))
         == Bits(Slots(before)) + (if Named(before, last.name) then 0 else PadToByte(last.width))
  {
    assert (before + [last])[..|before|] == before;
    assert (Slots(before) + [last])[..|Slots(before)|] == Slots(before);
  }

  lemma RepeatsLast(before: seq<Key>, last: Key)
    ensures RepeatsBits(before + [last]) <==> RepeatsBits(before) || (last.width > 0 && Named(before, last.name))
  {
    var keys := before + [last];
    assert keys[..|before|] == before && keys[|before|] == last;
    assert forall i | 0 <= i < |before| :: keys[i] == before[i] && keys[..i] == before[..i];
  }

  /** Laid out as action parameters, a name starts where it does in a match key exactly
      when no repeated name before it takes bits. */
  lemma ActionStartsLikeKey(keys: seq<Key>, name: string)
    requires Named(keys, name)
    ensures var before := keys[..FirstAt(keys, name)];
      Bits(before) == Bits(Slots(before)) <==> !RepeatsBits(before)
  {
    BitsOfSlots(keys[..FirstAt(keys, name)]);
  }

  /** With distinct names both layouts use the same slot boundaries. */
  lemma DistinctLayoutsAgree(keys: seq<Key>, name: string)
    requires DistinctNames(keys) && Named(keys, name)
    ensures var i := FirstAt(keys, name); var action, place := ActionRange(Bits(keys[..i]), keys[i].width), Place(keys, name);
      action.offset + action.length == place.offset + place.length && place.offset <= action.offset
  {
    var i := FirstAt(keys, name);
    var before := keys[..i];
    assert !RepeatsBits(before) by {
      forall j | 0 <= j < |before|
        ensures !Named(before[..j], before[j].name)
      {
      }
    }
    BitsOfSlots(before);
  }
}
