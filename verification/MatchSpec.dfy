/**
 The lookups of src/ctx_json/ctx_json_utils.c over the match fields of a table and
 the parameters of an action. A property that the JSON lacks, or has with the wrong
 type, is None.
 */
module MatchSpec {
  import opened Status
  import opened KeyLayout

  datatype Field = Field(name: Option<string>, matchType: Option<string>, width: Option<nat>)

  datatype MatchType = Exact | Lpm | Ternary | RangeMatch | Invalid

  datatype Details = Details(range: Range, matchType: Option<MatchType>)

  /** Ok on status 0, Err on status -1. */
  datatype Result<+T> = Ok(value: T) | Err

  predicate HasKey(f: Field)
  {
    f.name.Some? && f.width.Some?
  }

  predicate Complete(f: Field)
  {
    HasKey(f) && f.matchType.Some?
  }

  predicate AllHaveKeys(fields: seq<Field>)
  {
    forall i | 0 <= i < |fields| :: HasKey(fields[i])
  }

  predicate AllComplete(fields: seq<Field>)
  {
    AllHaveKeys(fields) && forall i | 0 <= i < |fields| :: fields[i].matchType.Some?
  }

  function KeyOf(f: Field): (k: Key)
    requires HasKey(f)
  {
    Key(f.name.value, f.width.value)
  }

  function KeysOf(fields: seq<Field>): (r: seq<Key>)
    requires AllHaveKeys(fields)
    ensures |r| == |fields|
    ensures forall i | 0 <= i < |r| :: r[i] == KeyOf(fields[i])
  {
    seq(|fields|, i requires 0 <= i < |fields| && HasKey(fields[i]) => KeyOf(fields[i]))
  }

  /** Names that are not looked for: those the compiler makes up. */
  predicate Special(name: string)
  {
    "--" <= name || "$" <= name
  }

  // ---------- match types ----------

  function ParseType(s: string): (r: Option<MatchType>)
  {
    if s == "exact" then Some(Exact)
    else if s == "lpm" then Some(Lpm)
    else if s == "ternary" then Some(Ternary)
    else if s == "range" then Some(RangeMatch)
    else None
  }

  /** The match types of the slices of a field, in order. */
  function SliceTypes(fields: seq<Field>, name: string): (r: seq<string>)
  {
    if fields == [] then []
    else
      var last := fields[|fields| - 1];
      SliceTypes(fields[..|fields| - 1], name)
      + (if last.name == Some(name) && last.matchType.Some? then [last.matchType.value] else [])
  }

  /** The first type that is not exact, or exact; None if that first type is unknown. */
  function FieldType(types: seq<string>): (r: Option<MatchType>)
  {
    if types == [] then Some(Exact)
    else if types[0] == "exact" then FieldType(types[1..])
    else ParseType(types[0])
  }

  lemma {:induction false} FieldTypeAppend(types: seq<string>, t: string)
    ensures FieldType(types + [t]) == if FieldType(types) == Some(Exact) then ParseType(t) else FieldType(types)
  {
    if types == [] {
      assert types + [t] == [t];
    } else {
      FieldTypeAppend(types[1..], t);
      assert (types + [t])[1..] == types[1..] + [t];
    }
  }

  /** Once a type other than exact was met, it stays whatever slices follow. */
  lemma {:induction false} TypeStays(fields: seq<Field>, i: nat, name: string)
    requires i <= |fields| && FieldType(SliceTypes(fields[..i], name)) != Some(Exact)
    ensures FieldType(SliceTypes(fields, name)) == FieldType(SliceTypes(fields[..i], name))
  {
    if i == |fields| {
      assert fields[..i] == fields;
    } else {
      var before, last := fields[..|fields| - 1], fields[|fields| - 1];
      assert before[..i] == fields[..i];
      TypeStays(before, i, name);
      var types := SliceTypes(before, name);
      if last.name == Some(name) && last.matchType.Some? {
        FieldTypeAppend(types, last.matchType.value);
      } else {
        assert types + [] == types;
      }
    }
  }

  /** A slice of the name, with its type. */
  predicate IsSlice(f: Field, name: string)
  {
    f.name == Some(name) && f.matchType.Some?
  }

  lemma {:induction false} AllSlicesExact(fields: seq<Field>, name: string)
    requires forall k | 0 <= k < |fields| && IsSlice(fields[k], name) :: fields[k].matchType.value == "exact"
    ensures FieldType(SliceTypes(fields, name)) == Some(Exact)
  {
    if fields != [] {
      var before, last := fields[..|fields| - 1], fields[|fields| - 1];
      AllSlicesExact(before, name);
      var types := SliceTypes(before, name);
      if IsSlice(last, name) {
        FieldTypeAppend(types, last.matchType.value);
      } else {
        assert types + [] == types;
      }
    }
  }

  /** The first slice that is not exact decides the type, known or not. */
  lemma FirstOtherSlice(fields: seq<Field>, i: nat, name: string)
    requires i < |fields| && IsSlice(fields[i], name) && fields[i].matchType.value != "exact"
    requires forall k | 0 <= k < i && IsSlice(fields[k], name) :: fields[k].matchType.value == "exact"
    ensures FieldType(SliceTypes(fields, name)) == ParseType(fields[i].matchType.value) != Some(Exact)
  {
    var t := fields[i].matchType.value;
    assert FieldType(SliceTypes(fields[..i + 1], name)) == ParseType(t) by {
      assert fields[..i + 1] == fields[..i] + [fields[i]];
      SliceAppend(fields[..i], fields[i], name);
      AllSlicesExact(fields[..i], name);
      FieldTypeAppend(SliceTypes(fields[..i], name), t);
    }
    TypeStays(fields, i + 1, name);
  }

  lemma SliceAppend(fields: seq<Field>, f: Field, name: string)
    requires IsSlice(f, name)
    ensures SliceTypes(fields + [f], name) == SliceTypes(fields, name) + [f.matchType.value]
  {
    assert (fields + [f])[..|fields|] == fields;
  }

  /** The type of a field is that of its first slice which is not exact. */
  lemma {:induction false} FieldTypeIsFirstOther(types: seq<string>, i: nat)
    requires i <= |types| && forall k | 0 <= k < i :: types[k] == "exact"
    requires i < |types| ==> types[i] != "exact"
    ensures FieldType(types) == if i < |types| then ParseType(types[i]) else Some(Exact)
  {
    if i > 0 {
      FieldTypeIsFirstOther(types[1..], i - 1);
    }
  }

  // ---------- the key length ----------

  /** The scan of the names met so far. */
  method Seen(names: seq<string>, name: string) returns (seen: bool)
    ensures seen <==> name in names
  {
    for i := 0 to |names|
      invariant name !in names[..i]
    {
      if names[i] == name {
        return true;
      }
    }
    seen := false;
  }

  /** The names of the slots of some keys. */
  ghost function NamesOf(keys: seq<Key>): (r: seq<string>)
    ensures |r| == |keys| && forall i | 0 <= i < |r| :: r[i] == keys[i].name
  {
    seq(|keys|, i requires 0 <= i < |keys| => keys[i].name)
  }

  /** Notes a field's name unless it is known; isNew says that it was not. */
  method Note(names: seq<string>, name: string, ghost keys: seq<Key>, ghost key: Key)
    returns (names': seq<string>, isNew: bool)
    requires key.name == name && names == NamesOf(Slots(keys))
    ensures names' == NamesOf(Slots(keys + [key]))
    ensures Bits(Slots(keys + [key])) == Bits(Slots(keys)) + (if isNew then PadToByte(key.width) else 0)
  {
    SlotsAppend(keys, key);
    var seen := Seen(names, name);
    isNew := !seen;
    names' := if isNew then names + [name] else names;
  }

  lemma SlotsAppend(keys: seq<Key>, key: Key)
    ensures key.name in NamesOf(Slots(keys)) ==> Slots(keys + [key]) == Slots(keys)
    ensures key.name !in NamesOf(Slots(keys)) ==>
      && NamesOf(Slots(keys + [key])) == NamesOf(Slots(keys)) + [key.name]
      && Bits(Slots(keys + [key])) == Bits(Slots(keys)) + PadToByte(key.width)
  {
    SlotsNames(keys, key.name);
    NamedIffInNames(Slots(keys), key.name);
    assert (keys + [key])[..|keys|] == keys;
    BitsAppend(Slots(keys), key);
    assert NamesOf(Slots(keys) + [key]) == NamesOf(Slots(keys)) + [key.name];
  }

  lemma NamedIffInNames(keys: seq<Key>, name: string)
    ensures Named(keys, name) <==> name in NamesOf(keys)
  {
    if Named(keys, name) {
      var i :| 0 <= i < |keys| && keys[i].name == name;
      assert NamesOf(keys)[i] == name;
    }
  }

  lemma BitsAppend(keys: seq<Key>, key: Key)
    ensures Bits(keys + [key]) == Bits(keys) + PadToByte(key.width)
  {
    assert (keys + [key])[..|keys|] == keys;
  }

  method KeyLength(fields: seq<Field>) returns (r: Result<nat>)
    ensures r.Ok? <==> AllHaveKeys(fields)
    ensures r.Ok? ==> 8 * r.value == Bits(Slots(KeysOf(fields)))
  {
    var names: seq<string> := [];
    var byteCount := 0;
    for i := 0 to |fields|
      invariant AllHaveKeys(fields[..i]) && names == NamesOf(Slots(KeysOf(fields[..i])))
      invariant 8 * byteCount == Bits(Slots(KeysOf(fields[..i])))
    {
      var f := fields[i];
      if f.name.None? || f.width.None? {
        return Err;
      }
      KeysNext(fields, i);
      var isNew;
      names, isNew := Note(names, f.name.value, KeysOf(fields[..i]), KeyOf(f));
      if isNew {
        byteCount := byteCount + PadToByte(f.width.value) / 8;
      }
    }
    assert fields[..|fields|] == fields;
    r := Ok(byteCount);
  }

  lemma KeysNext(fields: seq<Field>, i: nat)
    requires i < |fields| && AllHaveKeys(fields[..i]) && HasKey(fields[i])
    ensures AllHaveKeys(fields[..i + 1]) && KeysOf(fields[..i + 1]) == KeysOf(fields[..i]) + [KeyOf(fields[i])]
  {
    assert fields[..i + 1] == fields[..i] + [fields[i]];
    assert forall k | 0 <= k < i + 1 :: HasKey((fields[..i] + [fields[i]])[k]);
    assert KeysOf(fields[..i + 1]) == KeysOf(fields[..i]) + [KeyOf(fields[i])];
  }

  // ---------- a field of the match key ----------

  /** What the lookup of a match field finds. */
  ghost function Lookup(fields: seq<Field>, name: string, wantType: bool): (r: Result<Details>)
  {
    if Special(name) then Ok(Details(Range(0, 0), if wantType then Some(Invalid) else None))
    else if !AllComplete(fields) then Err
    else if !Named(KeysOf(fields), name) then Err
    else if !wantType then Ok(Details(Place(KeysOf(fields), name), None))
    else
      match FieldType(SliceTypes(fields, name))
      case None => Err
      case Some(t) => Ok(Details(Place(KeysOf(fields), name), Some(t)))
  }

  /** Names that start with "$" or with "--" are not looked for. */
  ghost predicate MadeUp(name: string)
  {
    (|name| >= 1 && name[0] == '$') || (|name| >= 2 && name[0] == '-' && name[1] == '-')
  }

  lemma SpecialIffMadeUp(name: string)
    ensures Special(name) <==> MadeUp(name)
  {
    assert "--" == ['-', '-'] && "$" == ['$'];
    if "--" <= name {
      assert name[0] == "--"[0] && name[1] == "--"[1];
    }
    if "$" <= name {
      assert name[0] == "$"[0];
    }
    if MadeUp(name) && name[0] == '-' {
      assert name[..2] == "--";
    }
    if MadeUp(name) && name[0] == '$' {
      assert name[..1] == "$";
    }
  }

  /** The lookup apart from types: a made-up name gives no bits, whatever the fields; any other
      is found exactly when every field has name, type and width and one has the name. */
  lemma LookupOutcome(fields: seq<Field>, name: string)
    ensures var r := Lookup(fields, name, false);
      && (MadeUp(name) ==>
            && r == Ok(Details(Range(0, 0), None))
            && Lookup(fields, name, true) == Ok(Details(Range(0, 0), Some(Invalid))))
      && (!MadeUp(name) ==>
            && (r.Ok? <==>
                  && (forall i | 0 <= i < |fields| ::
                        fields[i].name.Some? && fields[i].matchType.Some? && fields[i].width.Some?)
                  && exists i :: 0 <= i < |fields| && fields[i].name == Some(name))
            && (r.Ok? ==>
                  && AllHaveKeys(fields) && Named(KeysOf(fields), name)
                  && r == Ok(Details(Place(KeysOf(fields), name), None)))
            && (r == Err ==> Lookup(fields, name, true) == Err))
  {
    SpecialIffMadeUp(name);
    if AllComplete(fields) {
      NamedInFields(fields, name);
    }
  }

  lemma NamedInFields(fields: seq<Field>, name: string)
    requires AllHaveKeys(fields)
    ensures Named(KeysOf(fields), name) <==> exists i :: 0 <= i < |fields| && fields[i].name == Some(name)
  {
    if i :| 0 <= i < |fields| && fields[i].name == Some(name) {
      assert KeysOf(fields)[i].name == name;
    }
  }

  /** The type that a lookup of complete fields gives is decided by the first slice that is not
      exact, whatever slices follow; the lookup fails exactly when that slice says something
      unknown. */
  lemma FirstOtherDecides(fields: seq<Field>, i: nat, name: string)
    requires !MadeUp(name) && AllComplete(fields)
    requires i < |fields| && IsSlice(fields[i], name) && fields[i].matchType.value != "exact"
    requires forall k | 0 <= k < i && IsSlice(fields[k], name) :: fields[k].matchType.value == "exact"
    ensures Named(KeysOf(fields), name)
    ensures var t := fields[i].matchType.value; var r := Lookup(fields, name, true);
      var place := Place(KeysOf(fields), name);
      && (t == "lpm" ==> r == Ok(Details(place, Some(Lpm))))
      && (t == "ternary" ==> r == Ok(Details(place, Some(Ternary))))
      && (t == "range" ==> r == Ok(Details(place, Some(RangeMatch))))
      && (t != "lpm" && t != "ternary" && t != "range" <==> r == Err)
  {
    SpecialIffMadeUp(name);
    FirstOtherSlice(fields, i, name);
    assert KeysOf(fields)[i].name == name;
  }

  /** A field all of whose slices are exact is exact. */
  lemma ExactSlicesAreExact(fields: seq<Field>, name: string)
    requires !MadeUp(name) && AllComplete(fields) && Named(KeysOf(fields), name)
    requires forall k | 0 <= k < |fields| && IsSlice(fields[k], name) :: fields[k].matchType.value == "exact"
    ensures Lookup(fields, name, true) == Ok(Details(Place(KeysOf(fields), name), Some(Exact)))
  {
    SpecialIffMadeUp(name);
    AllSlicesExact(fields, name);
  }

  lemma FirstAtAppend(keys: seq<Key>, key: Key, name: string)
    ensures Named(keys, name) ==> FirstAt(keys + [key], name) == FirstAt(keys, name)
    ensures !Named(keys, name) && key.name == name ==> FirstAt(keys + [key], name) == |keys|
  {
    var all := keys + [key];
    assert forall k | 0 <= k < |keys| :: all[k] == keys[k];
    assert all[|keys|] == key;
    NamedLast(keys, key, name);
    var i := FirstAt(all, name);
    if Named(keys, name) {
      var j := FirstAt(keys, name);
      assert all[j].name == name;
      assert i <= j;
    }
  }

  lemma PlaceAppend(keys: seq<Key>, key: Key, name: string)
    ensures Named(keys + [key], name) <==> Named(keys, name) || key.name == name
    ensures Named(keys, name) ==> Place(keys + [key], name) == Place(keys, name)
    ensures !Named(keys, name) && key.name == name ==>
      Place(keys + [key], name) == MatchRange(Bits(Slots(keys)), key.width)
  {
    NamedLast(keys, key, name);
    FirstAtAppend(keys, key, name);
    var all := keys + [key];
    assert all[..|keys|] == keys;
    if Named(keys, name) {
      var i := FirstAt(keys, name);
      assert all[..i] == keys[..i] && all[i] == keys[i];
    }
  }

  /** What the lookup knows after some of the fields. */
  ghost predicate Tracks(keys: seq<Key>, types: seq<string>, name: string, wantType: bool,
                         found: bool, range: Range, matchType: MatchType)
  {
    && (found <==> Named(keys, name))
    && (found ==> range == Place(keys, name))
    && (!found ==> types == [])
    && (found && wantType ==> FieldType(types) == Some(matchType))
  }

  /** One field: the first of the name fixes the bits, and the type counts while all were exact. */
  method TakeField(f: Field, name: string, wantType: bool, specOffset: nat, found: bool, range: Range,
                   matchType: MatchType, ghost keys: seq<Key>, ghost types: seq<string>)
    returns (ok: bool, found': bool, range': Range, matchType': MatchType)
    requires Complete(f) && specOffset == Bits(Slots(keys))
    requires Tracks(keys, types, name, wantType, found, range, matchType)
    ensures !ok ==> f.name.value == name && FieldType(types + [f.matchType.value]) == None && wantType
    ensures ok ==> Tracks(keys + [KeyOf(f)], if f.name.value == name then types + [f.matchType.value] else types,
                          name, wantType, found', range', matchType')
  {
    PlaceAppend(keys, KeyOf(f), name);
    ok, found', range', matchType' := true, found, range, matchType;
    if f.name.value == name {
      if !found {
        range' := if f.width.value > 8
                  then Range(specOffset + (PadToByte(f.width.value) - f.width.value), f.width.value)
                  else Range(specOffset, PadToByte(f.width.value));
      }
      if wantType && (!found || matchType == Exact) {
        FieldTypeAppend(types, f.matchType.value);
        if ParseType(f.matchType.value).None? {
          ok := false;
          return;
        }
        matchType' := ParseType(f.matchType.value).value;
      } else {
        FieldTypeAppend(types, f.matchType.value);
      }
      found' := true;
    }
  }

  lemma SliceTypesNext(fields: seq<Field>, i: nat, name: string)
    requires i < |fields| && Complete(fields[i])
    ensures SliceTypes(fields[..i + 1], name)
         == if fields[i].name.value == name then SliceTypes(fields[..i], name) + [fields[i].matchType.value]
            else SliceTypes(fields[..i], name)
  {
    assert fields[..i + 1][..i] == fields[..i];
  }

  /** The walk over the match fields. */
  method WalkFields(fields: seq<Field>, name: string, wantType: bool)
    returns (ok: bool, found: bool, range: Range, matchType: MatchType)
    ensures !ok ==> !AllComplete(fields) || (wantType && FieldType(SliceTypes(fields, name)) == None)
    ensures ok ==> AllComplete(fields)
    ensures ok ==> Tracks(KeysOf(fields), SliceTypes(fields, name), name, wantType, found, range, matchType)
  {
    var specOffset := 0;
    var names: seq<string> := [];
    ok, found, range, matchType := true, false, Range(0, 0), Invalid;
    for i := 0 to |fields|
      invariant AllComplete(fields[..i]) && names == NamesOf(Slots(KeysOf(fields[..i])))
      invariant specOffset == Bits(Slots(KeysOf(fields[..i])))
      invariant Tracks(KeysOf(fields[..i]), SliceTypes(fields[..i], name), name, wantType, found, range, matchType)
    {
      var f := fields[i];
      if f.name.None? || f.matchType.None? || f.width.None? {
        ok := false;
        return;
      }
      ghost var keys, types := KeysOf(fields[..i]), SliceTypes(fields[..i], name);
      CompleteNext(fields, i, name);
      ok, found, range, matchType :=
        TakeField(f, name, wantType, specOffset, found, range, matchType, keys, types);
      if !ok {
        TypeStays(fields, i + 1, name);
        return;
      }
      var isNew;
      names, isNew := Note(names, f.name.value, keys, KeyOf(f));
      if isNew {
        specOffset := specOffset + PadToByte(f.width.value);
      }
    }
    assert fields[..|fields|] == fields;
    ok := true;
  }

  lemma CompleteNext(fields: seq<Field>, i: nat, name: string)
    requires i < |fields| && AllComplete(fields[..i]) && Complete(fields[i])
    ensures AllComplete(fields[..i + 1]) && KeysOf(fields[..i + 1]) == KeysOf(fields[..i]) + [KeyOf(fields[i])]
    ensures SliceTypes(fields[..i + 1], name)
         == if fields[i].name.value == name then SliceTypes(fields[..i], name) + [fields[i].matchType.value]
            else SliceTypes(fields[..i], name)
  {
    assert AllComplete(fields[..i + 1]) by {
      assert fields[..i + 1] == fields[..i] + [fields[i]];
    }
    KeysNext(fields, i);
    SliceTypesNext(fields, i, name);
  }

  method SpecDetails(fields: seq<Field>, name: string, wantType: bool) returns (r: Result<Details>)
    ensures r == Lookup(fields, name, wantType)
  {
    if Special(name) {
      return Ok(Details(Range(0, 0), if wantType then Some(Invalid) else None));
    }
    var ok, found, range, matchType := WalkFields(fields, name, wantType);
    if !ok || !found {
      return Err;
    }
    r := Ok(Details(range, if wantType then Some(matchType) else None));
  }

  // ---------- a parameter of an action ----------

  /** What the lookup of an action parameter finds: it stops at the first of that name,
      and does not look at what follows. */
  ghost function LookupParameter(parameters: Option<seq<Field>>, name: string): (r: Result<Range>)
  {
    if Special(name) then Ok(Range(0, 0))
    else if parameters.None? then Err
    else LookupAmong(parameters.value, name, 0)
  }

  ghost function LookupAmong(fields: seq<Field>, name: string, start: nat): (r: Result<Range>)
  {
    if fields == [] || !HasKey(fields[0]) then Err
    else if fields[0].name.value == name then Ok(ActionRange(start, fields[0].width.value))
    else LookupAmong(fields[1..], name, start + PadToByte(fields[0].width.value))
  }

  method ActionSpecDetails(parameters: Option<seq<Field>>, name: string) returns (r: Result<Range>)
    ensures r == LookupParameter(parameters, name)
  {
    if Special(name) {
      return Ok(Range(0, 0));
    }
    if parameters.None? {
      return Err;
    }
    var fields := parameters.value;
    var specOffset: nat := 0;
    for i := 0 to |fields|
      invariant LookupAmong(fields, name, 0) == LookupAmong(fields[i..], name, specOffset)
    {
      var f := fields[i];
      assert fields[i..][0] == f && fields[i..][1..] == fields[i + 1..];
      if f.width.None? || f.name.None? {
        return Err;
      }
      if f.name.value == name {
        return Ok(Range(specOffset + (PadToByte(f.width.value) - f.width.value), f.width.value));
      }
      specOffset := specOffset + PadToByte(f.width.value);
    }
    r := Err;
  }

  lemma {:induction false} LookupAmongFrom(fields: seq<Field>, name: string, i: nat, start: nat)
    requires AllHaveKeys(fields) && i < |fields|
    requires KeyOf(fields[i]).name == name && forall k | 0 <= k < i :: KeyOf(fields[k]).name != name
    ensures LookupAmong(fields, name, start) == Ok(ActionRange(start + Bits(KeysOf(fields)[..i]), KeyOf(fields[i]).width))
  {
    assert HasKey(fields[0]) && HasKey(fields[i]);
    if i > 0 {
      assert KeyOf(fields[0]).name != name;
      LookupAmongFrom(fields[1..], name, i - 1, start + PadToByte(fields[0].width.value));
      var keys := KeysOf(fields);
      assert KeysOf(fields[1..])[..i - 1] == keys[..i][1..];
      BitsHead(keys[..i]);
    }
  }

  /** The walk over the parameters stops at place i: at the first of the name, at the first
      without name or width, or behind the last. */
  ghost predicate WalkStopsAt(fields: seq<Field>, name: string, i: nat)
  {
    && i <= |fields|
    && (forall k | 0 <= k < i :: HasKey(fields[k]) && fields[k].name != Some(name))
    && (i < |fields| ==> !HasKey(fields[i]) || fields[i].name == Some(name))
  }

  lemma {:induction false} LookupAmongStops(fields: seq<Field>, name: string, i: nat, start: nat)
    requires WalkStopsAt(fields, name, i) && AllHaveKeys(fields[..i])
    ensures LookupAmong(fields, name, start) ==
      if i == |fields| || !HasKey(fields[i]) then Err
      else Ok(ActionRange(start + Bits(KeysOf(fields[..i])), fields[i].width.value))
  {
    if i > 0 {
      assert HasKey(fields[0]) && fields[0].name != Some(name);
      var rest := fields[1..];
      assert forall k | 0 <= k < i - 1 :: rest[k] == fields[k + 1];
      assert rest[..i - 1] == fields[..i][1..];
      LookupAmongStops(rest, name, i - 1, start + PadToByte(fields[0].width.value));
      var keys := KeysOf(fields[..i]);
      assert KeysOf(rest[..i - 1]) == keys[1..];
      BitsHead(keys);
    }
  }

  /** The lookup of a parameter: none for a made-up name, failure without a parameter list, and
      otherwise as the walk stops: at a parameter of the name, its own width behind the padded
      widths of all before it and its own padding; anywhere else a failure. */
  lemma ParameterOutcome(parameters: Option<seq<Field>>, name: string, i: nat)
    requires parameters.Some? ==> WalkStopsAt(parameters.value, name, i)
    ensures var r := LookupParameter(parameters, name);
      && (MadeUp(name) ==> r == Ok(Range(0, 0)))
      && (!MadeUp(name) && parameters.None? ==> r == Err)
      && (!MadeUp(name) && parameters.Some? ==>
            var fields := parameters.value;
            && AllHaveKeys(fields[..i])
            && (r.Ok? <==> i < |fields| && HasKey(fields[i]))
            && (r.Ok? ==>
                  && r.value.length == fields[i].width.value
                  && r.value.offset + r.value.length == Bits(KeysOf(fields[..i])) + PadToByte(fields[i].width.value)))
  {
    SpecialIffMadeUp(name);
    if parameters.Some? {
      LookupAmongStops(parameters.value, name, i, 0);
    }
  }

  lemma {:induction false} BitsHead(keys: seq<Key>)
    requires keys != []
    ensures Bits(keys) == PadToByte(keys[0].width) + Bits(keys[1..])
  {
    if |keys| > 1 {
      var before := keys[..|keys| - 1];
      BitsHead(before);
      assert before[1..] == keys[1..][..|keys| - 2];
    }
  }

  /** A named parameter of a well-formed list lies behind all that precede it, and with
      distinct names it ends where the match field of the same name would. */
  lemma ParameterPlace(fields: seq<Field>, name: string)
    requires AllHaveKeys(fields) && !Special(name)
    requires Named(KeysOf(fields), name)
    ensures var keys := KeysOf(fields); var r := LookupParameter(Some(fields), name);
      && r == Ok(ActionRange(Bits(keys[..FirstAt(keys, name)]), keys[FirstAt(keys, name)].width))
      && r.value.length == keys[FirstAt(keys, name)].width && (r.value.offset + r.value.length) % 8 == 0
      && (DistinctNames(keys) ==>
            && r.value.offset + r.value.length == Place(keys, name).offset + Place(keys, name).length
            && Place(keys, name).offset <= r.value.offset)
  {
    var keys := KeysOf(fields);
    var i := FirstAt(keys, name);
    assert LookupParameter(Some(fields), name) == Ok(ActionRange(Bits(keys[..i]), keys[i].width)) by {
      LookupAmongFrom(fields, name, i, 0);
    }
    ActionRangeEnds(Bits(keys[..i]), keys[i].width);
    if DistinctNames(keys) {
      DistinctLayoutsAgree(keys, name);
    }
  }

  lemma ActionRangeEnds(start: nat, width: nat)
    requires start % 8 == 0
    ensures var r := ActionRange(start, width); r.length == width && (r.offset + r.length) % 8 == 0
  {
  }

  // ---------- the layout as a whole ----------

  lemma LookupIsPlace(fields: seq<Field>, name: string, wantType: bool)
    requires !Special(name) && Lookup(fields, name, wantType).Ok?
    ensures AllHaveKeys(fields) && Named(KeysOf(fields), name)
    ensures Lookup(fields, name, wantType).value.range == Place(KeysOf(fields), name)
  {
  }

  /** A looked-up match field ends on a byte boundary inside the key. */
  lemma LookupEndsInKey(fields: seq<Field>, name: string, wantType: bool)
    requires !Special(name) && Lookup(fields, name, wantType).Ok?
    ensures AllHaveKeys(fields)
    ensures var r := Lookup(fields, name, wantType).value.range;
      (r.offset + r.length) % 8 == 0 && r.offset + r.length <= Bits(Slots(KeysOf(fields)))
  {
    LookupIsPlace(fields, name, wantType);
    PlaceFillsSlot(KeysOf(fields), name);
  }

  /** Looked-up match fields of different names share no bit of the key. */
  lemma LookupsDisjoint(fields: seq<Field>, n1: string, n2: string, type1: bool, type2: bool)
    requires !Special(n1) && !Special(n2) && n1 != n2
    requires Lookup(fields, n1, type1).Ok? && Lookup(fields, n2, type2).Ok?
    ensures var r1, r2 := Lookup(fields, n1, type1).value.range, Lookup(fields, n2, type2).value.range;
      r1.offset + r1.length <= r2.offset || r2.offset + r2.length <= r1.offset
  {
    LookupIsPlace(fields, n1, type1);
    LookupIsPlace(fields, n2, type2);
    PlacesDisjoint(KeysOf(fields), n1, n2);
  }
}
