/** Descriptors and messages of nanopb with static fields (pb.h, pb_common.c), what the encoder writes
    for a message (pb_encode.c), and what the decoder makes of bytes (pb_decode.c). */
module PbModel {
  import opened Wrappers
  import opened Coding
  import opened PbWire

  /** The data types of a field. `max` is how many bytes fit its buffer, a string's terminator included. */
  datatype LType =
    | Bool
    | SignedInt(size: nat)
    | UnsignedInt(size: nat)
    | ZigZagInt(size: nat)
    | Fixed32Bit
    | Fixed64Bit
    | ByteArray(max: nat)
    | Text(max: nat)
    | FixedBytes(length: nat)
    | Submessage(fields: Fields)

  /** When a field is there. An optional field may have no flag of its own: then it is there if it is
      not zero. A union has at most one of its members. */
  datatype HType = Required | Optional(flag: bool) | Repeated(max: nat) | Oneof(union: nat)

  datatype Field = Field(tag: nat, ltype: LType, htype: HType, init: Value)

  /** A descriptor ends with a terminator. */
  datatype Fields = Last | More(field: Field, rest: Fields)

  datatype Value = Int(n: int) | Blob(b: Bytes) | Message(slots: seq<Slot>)

  /** What a message struct has for a field: `size` is the has_ flag, or whether the union holds this
      member; a repeated field has its entries, the others one value. */
  datatype Slot = Slot(size: nat, items: seq<Value>)

  // ---------- Descriptors ----------

  function Len(fields: Fields): nat {
    if fields.Last? then 0 else 1 + Len(fields.rest)
  }

  function At(fields: Fields, i: nat): Field
    requires i < Len(fields)
  {
    if i == 0 then fields.field else At(fields.rest, i - 1)
  }

  /** The index of the field with the tag, if there is one. */
  function IndexOf(fields: Fields, tag: nat): (r: Option<nat>)
    ensures r.Some? ==> r.value < Len(fields) && At(fields, r.value).tag == tag
    ensures r.None? ==> forall i :: 0 <= i < Len(fields) ==> At(fields, i).tag != tag
  {
    if fields.Last? then None
    else if fields.field.tag == tag then Some(0)
    else
      match IndexOf(fields.rest, tag)
      case None => None
      case Some(i) => Some(i + 1)
  }

  ghost predicate DistinctTags(fields: Fields) {
    forall i, j :: 0 <= i < j < Len(fields) ==> At(fields, i).tag != At(fields, j).tag
  }

  /** In each message, field numbers are distinct and fit a tag. */
  ghost predicate GoodFields(fields: Fields)
    decreases fields, 1
  {
    DistinctTags(fields) && EachGood(fields)
  }

  ghost predicate EachGood(fields: Fields)
    decreases fields, 0
  {
    fields.Last? || (0 < fields.field.tag < 0x2000_0000 && GoodType(fields.field.ltype) && EachGood(fields.rest))
  }

  ghost predicate GoodType(lt: LType)
    decreases lt, 0
  {
    lt.Submessage? ==> GoodFields(lt.fields)
  }

  /** How many of the first `i` fields are required: the iterator's required_field_index. */
  function RequiredBefore(fields: Fields, i: nat): nat
    requires i <= Len(fields)
  {
    if i == 0 then 0
    else (if fields.field.htype.Required? then 1 else 0) + RequiredBefore(fields.rest, i - 1)
  }

  /** How deeply submessages are nested. */
  ghost function Depth(fields: Fields): nat
    decreases fields
  {
    if fields.Last? then 1
    else
      var here, after := 1 + TypeDepth(fields.field.ltype), Depth(fields.rest);
      if here > after then here else after
  }

  ghost function TypeDepth(lt: LType): nat
    decreases lt
  {
    if lt.Submessage? then Depth(lt.fields) else 0
  }

  function Suffix(fields: Fields, i: nat): Fields
    requires i <= Len(fields)
  {
    if i == 0 then fields else Suffix(fields.rest, i - 1)
  }

  // ---------- Defaults ----------

  /** pb_message_set_to_defaults. */
  function Defaults(fields: Fields): (r: seq<Slot>)
    ensures |r| == Len(fields)
    decreases fields, 0
  {
    if fields.Last? then [] else [DefaultSlot(fields.field)] + Defaults(fields.rest)
  }

  function DefaultSlot(f: Field): Slot
    decreases f, 1
  {
    match f.htype
    case Repeated(_) => Slot(0, [])
    case Oneof(_) => Slot(0, [])
    case Required => Slot(0, [DefaultValue(f)])
    case Optional(_) => Slot(0, [DefaultValue(f)])
  }

  function DefaultValue(f: Field): Value
    decreases f, 0
  {
    if f.ltype.Submessage? then Message(Defaults(f.ltype.fields)) else f.init
  }

  // ---------- Presence ----------

  /** The string in a buffer ends at its first zero byte, or with the buffer. */
  function CString(b: Bytes): (r: Bytes)
    ensures |r| <= |b|
  {
    if b == [] || b[0] == 0 then [] else [b[0]] + CString(b[1..])
  }

  /** pb_check_proto3_default_value for the value of a field without a flag. */
  predicate IsZero(lt: LType, v: Value) {
    match lt
    case ByteArray(_) => v == Blob([])
    case Text(_) => v.Blob? && CString(v.b) == []
    case FixedBytes(length) => length == 0
    case Submessage(fields) => v.Message? && AllZero(fields, v.slots)
    case _ => v == Int(0)
  }

  /** The code's test of a union member asks if the whole union is unset; over all members that is the same. */
  predicate IsZeroSlot(f: Field, s: Slot) {
    match f.htype
    case Required => false
    case Repeated(_) => s.items == []
    case Oneof(_) => s.size == 0
    case Optional(flag) => if flag then s.size == 0 else s.items != [] && IsZero(f.ltype, s.items[0])
  }

  predicate AllZero(fields: Fields, slots: seq<Slot>) {
    fields.Last? || (slots != [] && IsZeroSlot(fields.field, slots[0]) && AllZero(fields.rest, slots[1..]))
  }

  /** Is a field that is not repeated written? */
  predicate Present(f: Field, s: Slot) {
    s.items != [] &&
    match f.htype
    case Required => true
    case Optional(flag) => if flag then s.size != 0 else !IsZero(f.ltype, s.items[0])
    case Oneof(_) => s.size != 0
    case Repeated(_) => false
  }

  // ---------- Structs ----------

  /** What the C type of a field can hold. */
  predicate Typed(lt: LType, v: Value)
    decreases lt, 1
  {
    match lt
    case Bool => v.Int?
    case SignedInt(size) => v.Int? && (IsSize(size) ==> FitsSigned(size, v.n))
    case UnsignedInt(size) => v.Int? && (IsSize(size) ==> FitsUnsigned(size, v.n))
    case ZigZagInt(size) => v.Int? && (IsSize(size) ==> FitsSigned(size, v.n))
    case Fixed32Bit => v.Int? && 0 <= v.n < TWO_32
    case Fixed64Bit => v.Int? && 0 <= v.n < TWO_64
    case ByteArray(_) => v.Blob?
    case Text(max) => v.Blob? && |v.b| <= max
    case FixedBytes(length) => v.Blob? && |v.b| == length
    case Submessage(fields) => v.Message? && IsStruct(fields, v.slots)
  }

  predicate TypedSlot(f: Field, s: Slot)
    decreases f, 1
  {
    match f.htype
    case Repeated(_) => s.size == 0 && forall k :: 0 <= k < |s.items| ==> Typed(f.ltype, s.items[k])
    case Oneof(_) => if s.size == 0 then s.items == [] else s.size == 1 && |s.items| == 1 && Typed(f.ltype, s.items[0])
    case Required => s.size == 0 && |s.items| == 1 && Typed(f.ltype, s.items[0])
    case Optional(flag) => (if flag then s.size <= 1 else s.size == 0) && |s.items| == 1 && Typed(f.ltype, s.items[0])
  }

  /** A message struct of the descriptor: a union holds at most one of its members. */
  predicate IsStruct(fields: Fields, slots: seq<Slot>)
    decreases fields, 1
  {
    TypedAll(fields, slots) && OneOfEach(fields, slots)
  }

  predicate TypedAll(fields: Fields, slots: seq<Slot>)
    decreases fields, 0
  {
    && |slots| == Len(fields)
    && (fields.More? ==> TypedSlot(fields.field, slots[0]) && TypedAll(fields.rest, slots[1..]))
  }

  predicate OneOfEach(fields: Fields, slots: seq<Slot>) {
    |slots| == Len(fields) &&
    forall i, j :: 0 <= i < j < Len(fields) && At(fields, i).htype.Oneof? && At(fields, i).htype == At(fields, j).htype ==>
      slots[i].size == 0 || slots[j].size == 0
  }

  // ---------- Encoding ----------

  /** The errors the encoder can find in a struct: a bad integer size, too many bytes, too many entries. */
  predicate EncodableItem(lt: LType, v: Value)
    decreases lt, 1
  {
    match lt
    case SignedInt(size) => IsSize(size)
    case UnsignedInt(size) => IsSize(size)
    case ZigZagInt(size) => IsSize(size)
    case ByteArray(max) => v.Blob? && |v.b| <= max
    case Submessage(fields) => v.Message? && Encodable(fields, v.slots)
    case _ => true
  }

  predicate EncodableSlot(f: Field, s: Slot)
    decreases f, 1
  {
    match f.htype
    case Repeated(max) => |s.items| <= max && forall k :: 0 <= k < |s.items| ==> EncodableItem(f.ltype, s.items[k])
    case _ => Present(f, s) ==> EncodableItem(f.ltype, s.items[0])
  }

  predicate Encodable(fields: Fields, slots: seq<Slot>)
    decreases fields, 0
  {
    fields.Last? || slots == [] || (EncodableSlot(fields.field, slots[0]) && Encodable(fields.rest, slots[1..]))
  }

  predicate Packable(lt: LType) {
    lt.Bool? || lt.SignedInt? || lt.UnsignedInt? || lt.ZigZagInt? || lt.Fixed32Bit? || lt.Fixed64Bit?
  }

  predicate IsBlob(lt: LType) { lt.ByteArray? || lt.Text? || lt.FixedBytes? }

  function WireType(lt: LType): (w: nat)
    ensures w < 8
  {
    match lt
    case Fixed32Bit => WT_32BIT
    case Fixed64Bit => WT_64BIT
    case ByteArray(_) => WT_STRING
    case Text(_) => WT_STRING
    case FixedBytes(_) => WT_STRING
    case Submessage(_) => WT_STRING
    case _ => WT_VARINT
  }

  /** What the field encoders write for a value of the type. */
  function WireNumber(lt: LType, n: int): Bytes {
    match lt
    case Bool => Varint(if n != 0 then 1 else 0)
    case SignedInt(_) => if -TWO_63 <= n < TWO_63 then Varint(AsUnsigned(n)) else []
    case UnsignedInt(_) => if n >= 0 then Varint(n) else []
    case ZigZagInt(_) => if -TWO_63 <= n < TWO_63 then Varint(ZigZag(n)) else []
    case Fixed32Bit => if n >= 0 then Fixed32(n) else []
    case Fixed64Bit => if n >= 0 then Fixed64(n) else []
    case _ => []
  }

  function WireItem(lt: LType, v: Value): Bytes
    decreases lt, 0
  {
    match v
    case Int(n) => WireNumber(lt, n)
    case Blob(b) => Delimited(if lt.Text? then CString(b) else b)
    case Message(slots) => if lt.Submessage? then Delimited(Wire(lt.fields, slots)) else []
  }

  function WireItems(lt: LType, items: seq<Value>): Bytes
    decreases lt, 1, |items|
  {
    if items == [] then [] else WireItem(lt, items[0]) + WireItems(lt, items[1..])
  }

  function WireTagged(lt: LType, tag: nat, items: seq<Value>): Bytes
    decreases lt, 1, |items|
  {
    if items == [] then [] else Tag(WireType(lt), tag) + WireItem(lt, items[0]) + WireTagged(lt, tag, items[1..])
  }

  /** encode_array: packed if the type allows it. */
  function WireArray(f: Field, items: seq<Value>): Bytes
    decreases f, 0
  {
    if items == [] then []
    else if Packable(f.ltype) then Tag(WT_STRING, f.tag) + Delimited(WireItems(f.ltype, items))
    else WireTagged(f.ltype, f.tag, items)
  }

  function WireField(f: Field, s: Slot): Bytes
    decreases f, 1
  {
    if f.htype.Repeated? then WireArray(f, s.items)
    else if Present(f, s) then Tag(WireType(f.ltype), f.tag) + WireItem(f.ltype, s.items[0])
    else []
  }

  /** pb_encode: the fields in the order of the descriptor. */
  function Wire(fields: Fields, slots: seq<Slot>): Bytes
    decreases fields, 0
  {
    if fields.Last? || slots == [] then [] else WireField(fields.field, slots[0]) + Wire(fields.rest, slots[1..])
  }

  // ---------- Decoding ----------

  /** The field decoders of numbers. */
  function GetNumber(lt: LType, b: Bytes): (r: Option<Decoded<int>>)
    ensures r.Some? ==> 0 < r.value.size <= |b|
  {
    match lt
    case Bool => MapNumber(Varint32(b), n => Some(if n != 0 then 1 else 0))
    case SignedInt(size) => MapNumber(GetVarint64(b), n => if 0 <= n < TWO_64 then NarrowSigned(size, n) else None)
    case UnsignedInt(size) => MapNumber(GetVarint64(b), n => if FitsUnsigned(size, n) then Some(n) else None)
    case ZigZagInt(size) =>
      MapNumber(GetVarint64(b), n => if 0 <= n < TWO_64 && FitsSigned(size, UnZigZag(n)) then Some(UnZigZag(n)) else None)
    case Fixed32Bit => if |b| >= 4 then Some(Decoded(DecodeFixed(b[..4]), 4)) else None
    case Fixed64Bit => if |b| >= 8 then Some(Decoded(DecodeFixed(b[..8]), 8)) else None
    case _ => None
  }

  function MapNumber(d: Option<Decoded<nat>>, f: int -> Option<int>): (r: Option<Decoded<int>>)
    ensures r.Some? ==> d.Some? && r.value.size == d.value.size && f(d.value.value) == Some(r.value.value)
  {
    match d
    case None => None
    case Some(x) =>
      match f(x.value)
      case None => None
      case Some(n) => Some(Decoded(n, x.size))
  }

  /** The field decoders of bytes and strings; an empty fixed-length array stands for zeros. */
  function GetBlob(lt: LType, b: Bytes): (r: Option<Decoded<Bytes>>)
    ensures r.Some? ==> 0 < r.value.size <= |b|
  {
    match GetDelimited(b)
    case None => None
    case Some(d) =>
      match lt
      case ByteArray(max) => if |d.value| <= max then Some(d) else None
      case Text(max) => if |d.value| + 1 <= max then Some(d) else None
      case FixedBytes(length) =>
        if |d.value| == 0 then Some(Decoded(seq(length, i => 0), d.size))
        else if |d.value| == length then Some(d) else None
      case _ => None
  }

  /** A value at the front of the input; `before` is what the field held before, and a submessage that is
      an entry of an array starts from its defaults instead. */
  function GetItem(lt: LType, entry: bool, before: Value, b: Bytes): (r: Option<Decoded<Value>>)
    ensures r.Some? ==> 0 < r.value.size <= |b|
    decreases |b|, 0
  {
    match lt
    case Submessage(fields) =>
      (match GetDelimited(b)
       case None => None
       case Some(d) =>
         var start := if entry || !before.Message? || |before.slots| != Len(fields) then Defaults(fields) else before.slots;
         match GetMessage(fields, start, d.value)
         case None => None
         case Some(slots) => Some(Decoded(Message(slots), d.size)))
    case ByteArray(_) => AsBlob(GetBlob(lt, b))
    case Text(_) => AsBlob(GetBlob(lt, b))
    case FixedBytes(_) => AsBlob(GetBlob(lt, b))
    case _ => AsInt(GetNumber(lt, b))
  }

  function AsBlob(d: Option<Decoded<Bytes>>): Option<Decoded<Value>> {
    match d
    case None => None
    case Some(x) => Some(Decoded(Blob(x.value), x.size))
  }

  function AsInt(d: Option<Decoded<int>>): Option<Decoded<Value>> {
    match d
    case None => None
    case Some(x) => Some(Decoded(Int(x.value), x.size))
  }

  /** The loop over a packed array: entries until the substream ends or the array is full, which is an
      error if bytes are left. */
  function GetPacked(lt: LType, items: seq<Value>, max: nat, b: Bytes): Option<seq<Value>>
    decreases |b|, 1
  {
    if b == [] then Some(items)
    else if |items| >= max then None
    else
      match GetNumber(lt, b)
      case None => None
      case Some(d) => GetPacked(lt, items + [Int(d.value)], max, b[d.size..])
  }

  /** decode_static_field: the field's new slot and the bytes it took. */
  function GetField(f: Field, wireType: nat, s: Slot, b: Bytes): (r: Option<Decoded<Slot>>)
    ensures r.Some? ==> 0 < r.value.size <= |b|
    decreases |b|, 2
  {
    match f.htype
    case Required => OneItem(GetItem(f.ltype, false, FirstOf(s), b), s.size)
    case Optional(flag) => OneItem(GetItem(f.ltype, false, FirstOf(s), b), if flag then 1 else s.size)
    case Oneof(_) =>
      OneItem(GetItem(f.ltype, false, if f.ltype.Submessage? then Message(Defaults(f.ltype.fields)) else FirstOf(s), b), 1)
    case Repeated(max) =>
      if wireType == WT_STRING && Packable(f.ltype) then
        match GetDelimited(b)
        case None => None
        case Some(d) =>
          (match GetPacked(f.ltype, s.items, max, d.value)
           case None => None
           case Some(items) => Some(Decoded(Slot(s.size, items), d.size)))
      else if |s.items| >= max then None
      else
        match GetItem(f.ltype, true, Int(0), b)
        case None => None
        case Some(d) => Some(Decoded(Slot(s.size, s.items + [d.value]), d.size))
  }

  function FirstOf(s: Slot): Value { if s.items == [] then Int(0) else s.items[0] }

  function OneItem(d: Option<Decoded<Value>>, size: nat): Option<Decoded<Slot>> {
    match d
    case None => None
    case Some(x) => Some(Decoded(Slot(size, [x.value]), x.size))
  }

  /** A member of a union replaces the others. */
  function SetSlot(fields: Fields, slots: seq<Slot>, i: nat, s: Slot): (r: seq<Slot>)
    requires i < Len(fields) == |slots|
    ensures |r| == |slots|
  {
    if At(fields, i).htype.Oneof? then ClearUnion(fields, slots, At(fields, i).htype.union)[i := s] else slots[i := s]
  }

  function ClearUnion(fields: Fields, slots: seq<Slot>, union: nat): (r: seq<Slot>)
    requires Len(fields) == |slots|
    ensures |r| == |slots|
  {
    if fields.Last? then []
    else [if fields.field.htype == Oneof(union) then Slot(0, []) else slots[0]] + ClearUnion(fields.rest, slots[1..], union)
  }

  datatype Progress = Progress(slots: seq<Slot>, seen: set<nat>)

  /** What a descriptor ends with looks like a required bool with field number zero. */
  const TERMINATOR := Field(0, Bool, Required, Int(0))

  /** The loop of pb_decode_noinit: one field after the other, unknown ones skipped. In a message without fields
      the search stands on the terminator, and finds it for field number zero: a bool is decoded there. */
  function GetFields(fields: Fields, p: Progress, b: Bytes): (r: Option<Progress>)
    requires |p.slots| == Len(fields)
    ensures r.Some? ==> |r.value.slots| == Len(fields)
    decreases |b|, 3
  {
    if b == [] then Some(p)
    else
      match GetTag(b)
      case None => None
      case Some(EndOfMessage) => Some(p)
      case Some(Key(wireType, number, size)) =>
        var rest := b[size..];
        match IndexOf(fields, number)
        case None =>
          if fields.Last? && number == 0 then
            match GetField(TERMINATOR, wireType, DefaultSlot(TERMINATOR), rest)
            case None => None
            case Some(d) => GetFields(fields, p.(seen := p.seen + {0}), rest[d.size..])
          else
            (match SkipField(wireType, rest)
             case None => None
             case Some(n) => GetFields(fields, p, rest[n..]))
        case Some(i) =>
          match GetField(At(fields, i), wireType, p.slots[i], rest)
          case None => None
          case Some(d) => GetFields(fields, Advance(fields, p, i, d.value), rest[d.size..])
  }

  function Advance(fields: Fields, p: Progress, i: nat, s: Slot): (r: Progress)
    requires i < Len(fields) == |p.slots|
    ensures |r.slots| == Len(fields)
  {
    Progress(SetSlot(fields, p.slots, i, s),
             if At(fields, i).htype.Required? then p.seen + {RequiredBefore(fields, i)} else p.seen)
  }

  const MAX_REQUIRED: nat := 64

  /** Only the first 64 required fields are checked. */
  predicate AllSeen(fields: Fields, seen: set<nat>) {
    var n := RequiredBefore(fields, Len(fields));
    forall k | 0 <= k < (if n < MAX_REQUIRED then n else MAX_REQUIRED) :: k in seen
  }

  /** pb_decode_noinit. */
  function GetMessage(fields: Fields, slots: seq<Slot>, b: Bytes): (r: Option<seq<Slot>>)
    requires |slots| == Len(fields)
    ensures r.Some? ==> |r.value| == Len(fields)
    decreases |b|, 4
  {
    match GetFields(fields, Progress(slots, {}), b)
    case None => None
    case Some(p) => if AllSeen(fields, p.seen) then Some(p.slots) else None
  }

  /** pb_decode. */
  function Decode(fields: Fields, b: Bytes): Option<seq<Slot>> {
    GetMessage(fields, Defaults(fields), b)
  }
}
