/** Which fields are written, said of their values and of the bytes alone, and the round trip of structs
    described without asking what is written (pb_encode.c pb_check_proto3_default_value, encode_basic_field). */
module PbPresence {
  import opened Wrappers
  import opened Coding
  import opened PbWire
  import opened PbModel
  import opened PbRoundTrip

  // ---------- What is written ----------

  /** A value that a field without a flag is not written for: the number zero, no bytes, a string that ends at
      once, a submessage that is encoded to nothing. */
  predicate HoldsNothing(lt: LType, v: Value) {
    match lt
    case ByteArray(_) => v == Blob([])
    case Text(_) => v.Blob? && (v.b == [] || v.b[0] == 0)
    case FixedBytes(length) => length == 0
    case Submessage(fields) => v.Message? && Wire(fields, v.slots) == []
    case _ => v == Int(0)
  }

  lemma TagIsWritten(wireType: nat, number: nat)
    ensures |Tag(wireType, number)| > 0
  {
  }

  lemma ArrayIsWritten(f: Field, items: seq<Value>)
    requires items != []
    ensures |WireArray(f, items)| > 0
  {
    TagIsWritten(WT_STRING, f.tag);
    TagIsWritten(WireType(f.ltype), f.tag);
    if !Packable(f.ltype) {
      var head, item, after := Tag(WireType(f.ltype), f.tag), WireItem(f.ltype, items[0]), WireTagged(f.ltype, f.tag, items[1..]);
      assert WireTagged(f.ltype, f.tag, items) == head + item + after;
    }
  }

  /** Exactly when nothing is written for a field. */
  lemma {:induction false} UnwrittenIff(f: Field, s: Slot)
    requires TypedSlot(f, s)
    ensures
      WireField(f, s) == [] <==>
        match f.htype
        case Required => false
        case Repeated(_) => s.items == []
        case Oneof(_) => s.size == 0
        case Optional(flag) => if flag then s.size == 0 else HoldsNothing(f.ltype, s.items[0])
    ensures IsZeroSlot(f, s) <==> WireField(f, s) == []
    decreases f, 0
  {
    TagIsWritten(WireType(f.ltype), f.tag);
    if f.htype.Repeated? {
      if s.items != [] { ArrayIsWritten(f, s.items); }
    } else {
      if Present(f, s) { assert |WireField(f, s)| > 0; }
      if f.htype == Optional(false) && f.ltype.Submessage? {
        assert Typed(f.ltype, s.items[0]) && IsStruct(f.ltype.fields, s.items[0].slots);
        EncodedToNothing(f.ltype.fields, s.items[0].slots);
      }
    }
  }

  /** A submessage is encoded to nothing exactly if nothing is written for any of its fields, and that is what the
      check of a submessage for zero comes to. */
  lemma {:induction false} EncodedToNothing(fields: Fields, slots: seq<Slot>)
    requires TypedAll(fields, slots)
    ensures AllZero(fields, slots) <==> Wire(fields, slots) == []
    ensures Wire(fields, slots) == [] <==> forall i :: 0 <= i < Len(fields) ==> WireField(At(fields, i), slots[i]) == []
    decreases fields, 1
  {
    if fields.More? {
      UnwrittenIff(fields.field, slots[0]);
      EncodedToNothing(fields.rest, slots[1..]);
      assert forall i :: 1 <= i < Len(fields) ==> At(fields, i) == At(fields.rest, i - 1) && slots[i] == slots[1..][i - 1];
      assert forall i :: 0 <= i < Len(fields.rest) ==> At(fields.rest, i) == At(fields, i + 1) && slots[1..][i] == slots[i + 1];
      assert At(fields, 0) == fields.field;
    }
  }

  // ---------- The round trip, without asking what is written ----------

  /** Bools are 0 or 1, strings end where their bytes do; a field that holds nothing has its default. */
  predicate PlainItem(lt: LType, v: Value)
    decreases lt, 1
  {
    match v
    case Int(n) => lt.Bool? ==> 0 <= n <= 1
    case Blob(b) => lt.Text? ==> forall i :: 0 <= i < |b| ==> b[i] != 0
    case Message(slots) => lt.Submessage? ==> Plain(lt.fields, slots)
  }

  predicate PlainSlot(f: Field, s: Slot)
    decreases f, 1
  {
    match f.htype
    case Repeated(_) => forall k :: 0 <= k < |s.items| ==> PlainItem(f.ltype, s.items[k])
    case Required => s.items != [] && PlainItem(f.ltype, s.items[0])
    case Oneof(_) => s.size == 0 || (s.items != [] && PlainItem(f.ltype, s.items[0]))
    case Optional(flag) =>
      s.items != [] &&
      if (if flag then s.size == 0 else HoldsNothing(f.ltype, s.items[0])) then s.items[0] == DefaultValue(f)
      else PlainItem(f.ltype, s.items[0])
  }

  predicate Plain(fields: Fields, slots: seq<Slot>)
    decreases fields, 0
  {
    && |slots| == Len(fields)
    && (fields.More? ==> PlainSlot(fields.field, slots[0]) && Plain(fields.rest, slots[1..]))
  }

  /** Strings leave room for their terminator, apart from fields that hold nothing. */
  predicate RoomItem(lt: LType, v: Value)
    decreases lt, 1
  {
    match lt
    case Text(max) => v.Blob? ==> |CString(v.b)| < max
    case Submessage(fields) => v.Message? ==> Room(fields, v.slots)
    case _ => true
  }

  predicate RoomSlot(f: Field, s: Slot)
    decreases f, 1
  {
    match f.htype
    case Repeated(_) => forall k :: 0 <= k < |s.items| ==> RoomItem(f.ltype, s.items[k])
    case Required => s.items != [] ==> RoomItem(f.ltype, s.items[0])
    case Oneof(_) => s.size == 0 || (s.items != [] ==> RoomItem(f.ltype, s.items[0]))
    case Optional(flag) =>
      s.items != [] ==>
      (if flag then s.size == 0 else HoldsNothing(f.ltype, s.items[0])) || RoomItem(f.ltype, s.items[0])
  }

  predicate Room(fields: Fields, slots: seq<Slot>)
    decreases fields, 0
  {
    fields.Last? || slots == [] || (RoomSlot(fields.field, slots[0]) && Room(fields.rest, slots[1..]))
  }

  lemma {:induction false} NoZeroByte(b: Bytes)
    ensures CString(b) == b <==> forall i :: 0 <= i < |b| ==> b[i] != 0
  {
    if b != [] {
      NoZeroByte(b[1..]);
      assert b == [b[0]] + b[1..];
      assert forall i :: 1 <= i < |b| ==> b[i] == b[1..][i - 1];
      assert forall i :: 0 <= i < |b[1..]| ==> b[1..][i] == b[i + 1];
    }
  }

  lemma {:induction false} PlainItemIff(lt: LType, v: Value)
    requires Typed(lt, v)
    ensures PlainItem(lt, v) <==> CanonicalItem(lt, v)
    ensures RoomItem(lt, v) <==> EndsItem(lt, v)
    decreases lt, 1
  {
    if v.Blob? { NoZeroByte(v.b); }
    if lt.Submessage? { PlainIff(lt.fields, v.slots); }
  }

  lemma {:induction false} PlainSlotIff(f: Field, s: Slot)
    requires TypedSlot(f, s)
    ensures PlainSlot(f, s) <==> CanonicalSlot(f, s)
    ensures RoomSlot(f, s) <==> EndsSlot(f, s)
    decreases f, 1
  {
    UnwrittenIff(f, s);
    forall k | 0 <= k < |s.items|
      ensures PlainItem(f.ltype, s.items[k]) <==> CanonicalItem(f.ltype, s.items[k])
      ensures RoomItem(f.ltype, s.items[k]) <==> EndsItem(f.ltype, s.items[k])
    {
      assert Typed(f.ltype, s.items[k]);
      PlainItemIff(f.ltype, s.items[k]);
    }
  }

  lemma {:induction false} PlainIff(fields: Fields, slots: seq<Slot>)
    requires TypedAll(fields, slots)
    ensures Plain(fields, slots) <==> Canonical(fields, slots)
    ensures Room(fields, slots) <==> Ends(fields, slots)
    decreases fields, 0
  {
    if fields.More? {
      PlainSlotIff(fields.field, slots[0]);
      PlainIff(fields.rest, slots[1..]);
    }
  }

  /** A struct whose bools are 0 or 1, whose strings end where their bytes do, and whose fields that hold nothing
      have their defaults comes back exactly if its strings leave room for their terminators. */
  lemma PlainRoundTrip(fields: Fields, slots: seq<Slot>)
    requires GoodFields(fields) && IsStruct(fields, slots) && Encodable(fields, slots) && |Wire(fields, slots)| < TWO_32
    requires Plain(fields, slots)
    ensures Decode(fields, Wire(fields, slots)) == Some(slots) <==> Room(fields, slots)
  {
    PlainIff(fields, slots);
    RoundTrip(fields, slots);
  }

  // ---------- Descriptors whose defaults are zero ----------

  /** As in proto3: a field without a flag has the zero of its type as its default. */
  predicate ZeroDefault(f: Field)
    decreases f, 0
  {
    if f.ltype.Submessage? then ZeroDefaults(f.ltype.fields)
    else f.htype == Optional(false) ==>
      match f.ltype
      case ByteArray(_) => f.init == Blob([])
      case Text(_) => f.init == Blob([])
      case FixedBytes(length) => length == 0 ==> f.init == Blob([])
      case _ => f.init == Int(0)
  }

  predicate ZeroDefaults(fields: Fields)
    decreases fields, 0
  {
    fields.Last? || (ZeroDefault(fields.field) && ZeroDefaults(fields.rest))
  }

  /** Bools are 0 or 1, strings end where their bytes do; fields whose flag is off have their defaults. */
  predicate TidyItem(lt: LType, v: Value)
    decreases lt, 1
  {
    match v
    case Int(n) => lt.Bool? ==> 0 <= n <= 1
    case Blob(b) => lt.Text? ==> forall i :: 0 <= i < |b| ==> b[i] != 0
    case Message(slots) => lt.Submessage? ==> Tidy(lt.fields, slots)
  }

  predicate TidySlot(f: Field, s: Slot)
    decreases f, 1
  {
    if f.htype == Optional(true) && s.size == 0 then s.items == [DefaultValue(f)]
    else forall k :: 0 <= k < |s.items| ==> TidyItem(f.ltype, s.items[k])
  }

  predicate Tidy(fields: Fields, slots: seq<Slot>)
    decreases fields, 0
  {
    fields.Last? || slots == [] || (TidySlot(fields.field, slots[0]) && Tidy(fields.rest, slots[1..]))
  }

  /** A tidy value that holds nothing is the default. */
  lemma {:induction false} NothingIsDefault(f: Field, v: Value)
    requires Typed(f.ltype, v) && TidyItem(f.ltype, v) && ZeroDefault(f) && f.htype == Optional(false)
    requires HoldsNothing(f.ltype, v)
    ensures v == DefaultValue(f)
    decreases f, 0
  {
    if f.ltype.Submessage? { UnwrittenIsDefault(f.ltype.fields, v.slots); }
  }

  lemma {:induction false} UnwrittenIsDefault(fields: Fields, slots: seq<Slot>)
    requires TypedAll(fields, slots) && Tidy(fields, slots) && ZeroDefaults(fields)
    requires Wire(fields, slots) == []
    ensures slots == Defaults(fields)
    decreases fields, 1
  {
    if fields.More? {
      UnwrittenSlotIsDefault(fields.field, slots[0]);
      UnwrittenIsDefault(fields.rest, slots[1..]);
      assert slots == [slots[0]] + slots[1..];
    }
  }

  lemma {:induction false} UnwrittenSlotIsDefault(f: Field, s: Slot)
    requires TypedSlot(f, s) && TidySlot(f, s) && ZeroDefault(f)
    requires WireField(f, s) == []
    ensures s == DefaultSlot(f)
    decreases f, 1
  {
    UnwrittenIff(f, s);
    if f.htype == Optional(false) {
      assert TidyItem(f.ltype, s.items[0]);
      NothingIsDefault(f, s.items[0]);
      assert s.items == [s.items[0]];
    }
  }

  lemma {:induction false} TidyItemIsPlain(lt: LType, v: Value)
    requires Typed(lt, v) && TidyItem(lt, v) && (lt.Submessage? ==> ZeroDefaults(lt.fields))
    ensures PlainItem(lt, v)
    decreases lt, 1
  {
    if lt.Submessage? { TidyIsPlain(lt.fields, v.slots); }
  }

  lemma {:induction false} TidySlotIsPlain(f: Field, s: Slot)
    requires TypedSlot(f, s) && TidySlot(f, s) && ZeroDefault(f)
    ensures PlainSlot(f, s)
    decreases f, 1
  {
    if !(f.htype == Optional(true) && s.size == 0) {
      forall k | 0 <= k < |s.items|
        ensures PlainItem(f.ltype, s.items[k])
      {
        TidyItemIsPlain(f.ltype, s.items[k]);
      }
      if f.htype == Optional(false) && HoldsNothing(f.ltype, s.items[0]) {
        NothingIsDefault(f, s.items[0]);
      }
    }
  }

  lemma {:induction false} TidyIsPlain(fields: Fields, slots: seq<Slot>)
    requires TypedAll(fields, slots) && Tidy(fields, slots) && ZeroDefaults(fields)
    ensures Plain(fields, slots)
    decreases fields, 0
  {
    if fields.More? {
      TidySlotIsPlain(fields.field, slots[0]);
      TidyIsPlain(fields.rest, slots[1..]);
    }
  }

  /** With zero for the defaults of fields without a flag, every struct whose bools are 0 or 1, whose strings end where
      their bytes do, and whose fields with the flag off have their defaults comes back, whatever its values. */
  lemma TidyRoundTrip(fields: Fields, slots: seq<Slot>)
    requires GoodFields(fields) && IsStruct(fields, slots) && Encodable(fields, slots) && |Wire(fields, slots)| < TWO_32
    requires ZeroDefaults(fields) && Tidy(fields, slots)
    ensures Decode(fields, Wire(fields, slots)) == Some(slots) <==> Room(fields, slots)
  {
    TidyIsPlain(fields, slots);
    PlainRoundTrip(fields, slots);
  }
}
