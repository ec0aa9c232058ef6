/** Whatever bytes decode, the result is a struct of the descriptor that can be encoded and decoded again
    (pb_decode.c, pb_encode.c). */
module PbDecoded {
  import opened Wrappers
  import opened Coding
  import opened PbWire
  import opened PbModel
  import opened PbCommon
  import opened PbRoundTrip

  // ---------- Values that fit their fields ----------

  /** The value can be held, encoded, and read back into a buffer of the same size. */
  predicate Fit(lt: LType, v: Value)
    decreases lt, 1
  {
    && Typed(lt, v)
    && match lt
       case SignedInt(size) => IsSize(size)
       case UnsignedInt(size) => IsSize(size)
       case ZigZagInt(size) => IsSize(size)
       case ByteArray(max) => |v.b| <= max
       case Text(max) => |CString(v.b)| < max
       case Submessage(fields) => FitAll(fields, v.slots)
       case _ => true
  }

  predicate FitSlot(f: Field, s: Slot)
    decreases f, 1
  {
    && TypedSlot(f, s) && (f.htype.Repeated? ==> |s.items| <= f.htype.max)
    && forall k :: 0 <= k < |s.items| ==> Fit(f.ltype, s.items[k])
  }

  predicate FitAll(fields: Fields, slots: seq<Slot>)
    decreases fields, 0
  {
    && |slots| == Len(fields)
    && (fields.More? ==> FitSlot(fields.field, slots[0]) && FitAll(fields.rest, slots[1..]))
  }

  /** The initial values of a descriptor, and of those of its submessages, fit. */
  predicate FitInits(fields: Fields)
    decreases fields, 0
  {
    fields.Last? || (FitInit(fields.field) && FitInits(fields.rest))
  }

  predicate FitInit(f: Field)
    decreases f, 1
  {
    if f.ltype.Submessage? then FitInits(f.ltype.fields)
    else f.htype.Required? || f.htype.Optional? ==> Fit(f.ltype, f.init)
  }

  lemma {:induction false} FitItem(lt: LType, v: Value)
    requires Fit(lt, v)
    ensures EncodableItem(lt, v) && EndsItem(lt, v)
    decreases lt, 1
  {
    if lt.Submessage? { FitStruct(lt.fields, v.slots); }
  }

  /** A struct all of whose values fit can be encoded, and its strings end. */
  lemma {:induction false} FitStruct(fields: Fields, slots: seq<Slot>)
    requires FitAll(fields, slots)
    ensures TypedAll(fields, slots) && Encodable(fields, slots) && Ends(fields, slots)
    decreases fields, 0
  {
    if fields.More? {
      var f, s := fields.field, slots[0];
      forall k | 0 <= k < |s.items|
        ensures EncodableItem(f.ltype, s.items[k]) && EndsItem(f.ltype, s.items[k])
      {
        FitItem(f.ltype, s.items[k]);
      }
      FitStruct(fields.rest, slots[1..]);
    }
  }

  lemma {:induction false} FitAt(fields: Fields, slots: seq<Slot>, i: nat)
    requires FitAll(fields, slots) && i < Len(fields)
    ensures |slots| == Len(fields) && FitSlot(At(fields, i), slots[i])
    decreases fields
  {
    if i > 0 { FitAt(fields.rest, slots[1..], i - 1); }
  }

  lemma {:induction false} FitByIndex(fields: Fields, slots: seq<Slot>)
    requires |slots| == Len(fields) && forall i :: 0 <= i < Len(fields) ==> FitSlot(At(fields, i), slots[i])
    ensures FitAll(fields, slots)
    decreases fields
  {
    if fields.More? {
      assert At(fields, 0) == fields.field;
      forall i | 0 <= i < Len(fields.rest)
        ensures FitSlot(At(fields.rest, i), slots[1..][i])
      {
        assert At(fields, i + 1) == At(fields.rest, i);
      }
      FitByIndex(fields.rest, slots[1..]);
    }
  }

  lemma {:induction false} InitAt(fields: Fields, i: nat)
    requires FitInits(fields) && i < Len(fields)
    ensures FitInit(At(fields, i))
    decreases fields
  {
    if i > 0 { InitAt(fields.rest, i - 1); }
  }

  // ---------- Defaults ----------

  lemma {:induction false} DefaultFits(f: Field)
    requires FitInit(f)
    ensures FitSlot(f, DefaultSlot(f)) && DefaultSlot(f).size == 0
    decreases f, 1
  {
    if f.ltype.Submessage? {
      DefaultsFit(f.ltype.fields);
      assert Fit(f.ltype, Message(Defaults(f.ltype.fields)));
    }
  }

  lemma {:induction false} DefaultsFit(fields: Fields)
    requires FitInits(fields)
    ensures FitAll(fields, Defaults(fields)) && OneOfEach(fields, Defaults(fields)) && TypedAll(fields, Defaults(fields))
    decreases fields, 0
  {
    if fields.More? {
      DefaultFits(fields.field);
      DefaultsFit(fields.rest);
      assert Defaults(fields)[1..] == Defaults(fields.rest);
    }
    FitStruct(fields, Defaults(fields));
    forall i | 0 <= i < Len(fields)
      ensures Defaults(fields)[i].size == 0
    {
      AtIndex(fields, Defaults(fields), i);
    }
  }

  // ---------- What is decoded fits ----------

  lemma NumberFits(lt: LType, b: Bytes)
    requires GetNumber(lt, b).Some?
    ensures Fit(lt, Int(GetNumber(lt, b).value.value))
  {
    match lt
    case Fixed32Bit =>
      DecodeFixedBound(b[..4]);
      Pow256Values();
    case Fixed64Bit =>
      DecodeFixedBound(b[..8]);
      Pow256Values();
    case _ =>
  }

  lemma BlobFits(lt: LType, b: Bytes)
    requires IsBlob(lt) && GetBlob(lt, b).Some?
    ensures Fit(lt, Blob(GetBlob(lt, b).value.value))
  {
  }

  lemma {:induction false} PackedFits(lt: LType, items: seq<Value>, max: nat, b: Bytes)
    requires GetPacked(lt, items, max, b).Some? && |items| <= max
    requires forall k :: 0 <= k < |items| ==> Fit(lt, items[k])
    ensures
      var r := GetPacked(lt, items, max, b).value;
      |r| <= max && forall k :: 0 <= k < |r| ==> Fit(lt, r[k])
    decreases |b|
  {
    if b != [] {
      NumberFits(lt, b);
      var d := GetNumber(lt, b).value;
      PackedFits(lt, items + [Int(d.value)], max, b[d.size..]);
    }
  }

  lemma {:induction false} ItemFits(lt: LType, entry: bool, before: Value, b: Bytes)
    requires GetItem(lt, entry, before, b).Some? && (lt.Submessage? ==> FitInits(lt.fields))
    requires lt.Submessage? && !entry && before.Message? && |before.slots| == Len(lt.fields) ==> Fit(lt, before)
    ensures Fit(lt, GetItem(lt, entry, before, b).value.value)
    decreases |b|, 0
  {
    if lt.Submessage? {
      var d := GetDelimited(b).value;
      var start := if entry || !before.Message? || |before.slots| != Len(lt.fields) then Defaults(lt.fields) else before.slots;
      DefaultsFit(lt.fields);
      assert start == Defaults(lt.fields) || IsStruct(lt.fields, start);
      MessageFits(lt.fields, start, d.value);
    } else if IsBlob(lt) {
      BlobFits(lt, b);
    } else {
      NumberFits(lt, b);
    }
  }

  lemma {:induction false} FieldFits(f: Field, wireType: nat, s: Slot, b: Bytes)
    requires GetField(f, wireType, s, b).Some? && FitSlot(f, s) && FitInit(f)
    ensures FitSlot(f, GetField(f, wireType, s, b).value.value)
    decreases |b|, 2
  {
    match f.htype
    case Repeated(max) =>
      if wireType == WT_STRING && Packable(f.ltype) {
        PackedFits(f.ltype, s.items, max, GetDelimited(b).value.value);
      } else {
        ItemFits(f.ltype, true, Int(0), b);
      }
    case Oneof(_) =>
      if f.ltype.Submessage? {
        DefaultsFit(f.ltype.fields);
        assert Fit(f.ltype, Message(Defaults(f.ltype.fields)));
        ItemFits(f.ltype, false, Message(Defaults(f.ltype.fields)), b);
      } else {
        ItemFits(f.ltype, false, FirstOf(s), b);
      }
    case _ =>
      ItemFits(f.ltype, false, FirstOf(s), b);
  }

  /** Storing a slot keeps a struct one: of a union, the other members are unset. */
  lemma StoredFits(fields: Fields, slots: seq<Slot>, i: nat, s: Slot)
    requires FitAll(fields, slots) && OneOfEach(fields, slots) && i < Len(fields) == |slots| && FitSlot(At(fields, i), s)
    ensures FitAll(fields, SetSlot(fields, slots, i, s)) && OneOfEach(fields, SetSlot(fields, slots, i, s))
  {
    var r := SetSlot(fields, slots, i, s);
    forall k | 0 <= k < Len(fields)
      ensures FitSlot(At(fields, k), r[k])
      ensures k != i ==> r[k].size == 0 || r[k] == slots[k]
      ensures k != i && At(fields, i).htype.Oneof? && At(fields, k).htype == At(fields, i).htype ==> r[k].size == 0
    {
      FitAt(fields, slots, k);
      if At(fields, i).htype.Oneof? { UnionAt(fields, slots, At(fields, i).htype.union, k); }
    }
    FitByIndex(fields, r);
  }

  lemma {:induction false} FieldsFit(fields: Fields, p: Progress, b: Bytes)
    requires FitAll(fields, p.slots) && OneOfEach(fields, p.slots) && FitInits(fields) && GetFields(fields, p, b).Some?
    ensures FitAll(fields, GetFields(fields, p, b).value.slots) && OneOfEach(fields, GetFields(fields, p, b).value.slots)
    decreases |b|, 3
  {
    if b != [] && GetTag(b).value.Key? {
      var key := GetTag(b).value;
      var rest := b[key.size..];
      match IndexOf(fields, key.number)
      case None =>
        if fields.Last? && key.number == 0 {
          var d := GetField(TERMINATOR, key.wireType, DefaultSlot(TERMINATOR), rest).value;
          FieldsFit(fields, p.(seen := p.seen + {0}), rest[d.size..]);
        } else {
          FieldsFit(fields, p, rest[SkipField(key.wireType, rest).value..]);
        }
      case Some(i) =>
        FitAt(fields, p.slots, i);
        InitAt(fields, i);
        FieldFits(At(fields, i), key.wireType, p.slots[i], rest);
        var d := GetField(At(fields, i), key.wireType, p.slots[i], rest).value;
        StoredFits(fields, p.slots, i, d.value);
        FieldsFit(fields, Advance(fields, p, i, d.value), rest[d.size..]);
    }
  }

  lemma {:induction false} MessageFits(fields: Fields, slots: seq<Slot>, b: Bytes)
    requires FitAll(fields, slots) && OneOfEach(fields, slots) && FitInits(fields) && GetMessage(fields, slots, b).Some?
    ensures FitAll(fields, GetMessage(fields, slots, b).value) && OneOfEach(fields, GetMessage(fields, slots, b).value)
    ensures TypedAll(fields, GetMessage(fields, slots, b).value)
    decreases |b|, 4
  {
    FieldsFit(fields, Progress(slots, {}), b);
    FitStruct(fields, GetMessage(fields, slots, b).value);
  }

  /** Whatever bytes decode to is a struct of the descriptor, with at most one member of each union set, that can be
      encoded and whose strings end. */
  lemma DecodedIsStruct(fields: Fields, b: Bytes)
    requires FitInits(fields) && Decode(fields, b).Some?
    ensures
      var slots := Decode(fields, b).value;
      IsStruct(fields, slots) && Encodable(fields, slots) && Ends(fields, slots)
  {
    DefaultsFit(fields);
    MessageFits(fields, Defaults(fields), b);
    FitStruct(fields, Decode(fields, b).value);
  }

  /** So what was decoded from any bytes can be encoded again, which decodes to the same up to what is not written, and
      from then on encoding and decoding change nothing. */
  lemma DecodedIsStable(fields: Fields, b: Bytes)
    requires GoodFields(fields) && FitInits(fields) && ZeroInits(fields) && Decode(fields, b).Some?
    requires |Wire(fields, Decode(fields, b).value)| < TWO_32
    ensures
      var slots := Decode(fields, b).value;
      var bytes := Wire(fields, slots);
      && Decode(fields, bytes) == Some(Restored(fields, slots))
      && Wire(fields, Restored(fields, slots)) == bytes
  {
    var slots := Decode(fields, b).value;
    DecodedIsStruct(fields, b);
    DecodeOfEncoded(fields, slots);
    EncodeDecodeEncode(fields, slots);
  }
}
