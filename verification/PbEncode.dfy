/** Encoding a message to a stream, or only counting its bytes (pb_encode.c). */
module PbEncode {
  import opened Wrappers
  import opened Coding
  import opened PbWire
  import opened PbModel
  import opened PbCommon

  /** The state of an output stream. */
  datatype Output = Output(sizing: bool, maxSize: nat, written: nat, buffer: Bytes)

  ghost predicate Room(before: Output, n: nat) {
    before.sizing || n == 0 || before.written + n <= before.maxSize
  }

  /** What an encoder does to a stream when it is to send the bytes, which it can if the value is in order. */
  ghost predicate Sent(before: Output, after: Output, ok: bool, inOrder: bool, bytes: Bytes) {
    && after.sizing == before.sizing && after.maxSize == before.maxSize
    && (ok <==> inOrder && Room(before, |bytes|))
    && (ok ==> after.written == before.written + |bytes|)
    && (ok ==> after.buffer == if before.sizing then before.buffer else before.buffer + bytes)
  }

  /** pb_ostream_t. A sizing stream has no callback. */
  class OStream {
    var sizing: bool
    var maxSize: nat
    var bytesWritten: nat
    var buffer: Bytes

    ghost function Now(): Output
      reads this
    {
      Output(sizing, maxSize, bytesWritten, buffer)
    }

    /** PB_OSTREAM_SIZING. */
    constructor Sizing()
      ensures Now() == Output(true, 0, 0, [])
    {
      sizing, maxSize, bytesWritten, buffer := true, 0, 0, [];
    }

    /** pb_ostream_from_buffer. */
    constructor FromBuffer(size: nat)
      ensures Now() == Output(false, size, 0, [])
    {
      sizing, maxSize, bytesWritten, buffer := false, size, 0, [];
    }

    /** pb_write. */
    method Write(bytes: Bytes) returns (ok: bool)
      modifies this
      ensures Sent(old(Now()), Now(), ok, true, bytes)
      ensures !ok ==> Now() == old(Now())
    {
      if |bytes| > 0 && !sizing {
        if bytesWritten + |bytes| > maxSize {
          return false;
        }
        buffer := buffer + bytes;
      }
      bytesWritten := bytesWritten + |bytes|;
      return true;
    }

    /** pb_write without data, for a sizing stream. */
    method Count(size: nat)
      requires sizing
      modifies this
      ensures Now() == old(Now()).(written := old(bytesWritten) + size)
    {
      bytesWritten := bytesWritten + size;
    }

    /** pb_encode_varint. */
    method EncodeVarint(value: nat) returns (ok: bool)
      modifies this
      ensures Sent(old(Now()), Now(), ok, true, Varint(value))
    {
      var bytes := PbWire.EncodeVarint(value);
      ok := Write(bytes);
    }

    /** pb_encode_tag. */
    method EncodeTag(wireType: nat, number: nat) returns (ok: bool)
      modifies this
      ensures Sent(old(Now()), Now(), ok, true, Tag(wireType, number))
    {
      ok := EncodeVarint(number * 8 + wireType);
    }

    /** pb_encode_string. */
    method EncodeString(bytes: Bytes) returns (ok: bool)
      requires InRange(Now())
      modifies this
      ensures Sent(old(Now()), Now(), ok, true, Delimited(bytes))
    {
      ok := EncodeVarint(|bytes|);
      if !ok {
        SentStops(old(Now()), Now(), true, true, Varint(|bytes|), bytes);
        return;
      }
      ghost var between := Now();
      ok := Write(bytes);
      SentOn(old(Now()), between, Now(), ok, true, Varint(|bytes|), bytes);
    }
  }

  /** A stream has not written more than it may. */
  ghost predicate InRange(now: Output) {
    now.sizing || now.written <= now.maxSize
  }

  /** Sending one thing after another sends both. */
  lemma SentOn(before: Output, between: Output, after: Output, ok: bool, inOrder: bool, one: Bytes, two: Bytes)
    requires InRange(before) && Sent(before, between, true, true, one) && Sent(between, after, ok, inOrder, two)
    ensures Sent(before, after, ok, inOrder, one + two) && InRange(between)
  {
    assert before.buffer + (one + two) == before.buffer + one + two;
  }

  /** If the first thing fails, so do both. */
  lemma SentStops(before: Output, after: Output, inOrder: bool, both: bool, one: Bytes, two: Bytes)
    requires InRange(before) && Sent(before, after, false, inOrder, one) && (both ==> inOrder)
    ensures Sent(before, after, false, both, one + two)
  {
  }

  /** If what comes after something fails, so do both together. */
  lemma SentFails(before: Output, between: Output, after: Output, inOrder: bool, one: Bytes, two: Bytes)
    requires InRange(before) && Sent(before, between, true, true, one) && Sent(between, after, false, inOrder, two)
    ensures Sent(before, after, false, inOrder, one + two)
  {
  }

  /** One more piece sent, or the whole fails with it. */
  lemma PieceSent(before: Output, between: Output, after: Output, ok: bool, good: bool, allGood: bool,
                  done: Bytes, piece: Bytes, rest: Bytes)
    requires InRange(before) && Sent(before, between, true, true, done) && Sent(between, after, ok, good, piece)
    requires allGood ==> good
    ensures !ok ==> Sent(before, after, false, allGood, done + (piece + rest))
    ensures ok ==> Sent(before, after, true, true, done + piece) && done + piece + rest == done + (piece + rest)
  {
    assert done + piece + rest == done + (piece + rest);
    if ok {
      SentOn(before, between, after, true, true, done, piece);
    } else {
      SentFails(before, between, after, good, done, piece);
      SentStops(before, after, good, allGood, done + piece, rest);
    }
  }

  lemma SentRange(before: Output, after: Output, bytes: Bytes)
    requires InRange(before) && Sent(before, after, true, true, bytes)
    ensures InRange(after)
  {
  }

  lemma NothingSent(now: Output)
    ensures Sent(now, now, true, true, [])
  {
    assert now.buffer + [] == now.buffer;
  }

  // ---------- Field encoders ----------

  /** pb_enc_bool, pb_enc_varint, pb_enc_uvarint, pb_enc_svarint, pb_enc_fixed32 and pb_enc_fixed64. */
  method EncodeNumber(stream: OStream, lt: LType, n: int) returns (ok: bool)
    requires Packable(lt) && Typed(lt, Int(n))
    modifies stream
    ensures Sent(old(stream.Now()), stream.Now(), ok, EncodableItem(lt, Int(n)), WireItem(lt, Int(n)))
    ensures !EncodableItem(lt, Int(n)) ==> !ok
  {
    match lt
    case Bool => ok := stream.EncodeVarint(if n != 0 then 1 else 0);
    case SignedInt(size) =>
      if !IsSize(size) { return false; }
      ok := stream.EncodeVarint(if n < 0 then n + TWO_64 else n);
    case UnsignedInt(size) =>
      if !IsSize(size) { return false; }
      ok := stream.EncodeVarint(n);
    case ZigZagInt(size) =>
      if !IsSize(size) { return false; }
      ok := stream.EncodeVarint(if n < 0 then -2 * n - 1 else 2 * n);
    case Fixed32Bit =>
      FixedBytesOf(n);
      ok := stream.Write([n % 256, n / 0x100 % 256, n / 0x1_0000 % 256, n / 0x100_0000 % 256]);
    case Fixed64Bit =>
      FixedBytesOf(n);
      ok := stream.Write([n % 256, n / 0x100 % 256, n / 0x1_0000 % 256, n / 0x100_0000 % 256,
                          n / 0x1_0000_0000 % 256, n / 0x100_0000_0000 % 256,
                          n / 0x1_0000_0000_0000 % 256, n / 0x100_0000_0000_0000 % 256]);
  }

  lemma FixedBytesOf(n: nat)
    ensures Fixed32(n) == [n % 256, n / 0x100 % 256, n / 0x1_0000 % 256, n / 0x100_0000 % 256]
    ensures
      Fixed64(n)
        == [n % 256, n / 0x100 % 256, n / 0x1_0000 % 256, n / 0x100_0000 % 256,
            n / 0x1_0000_0000 % 256, n / 0x100_0000_0000 % 256, n / 0x1_0000_0000_0000 % 256,
            n / 0x100_0000_0000_0000 % 256]
  {
    FourBytes(n, 0);
    FourBytes(n, 4);
    var high := n / 0x1_0000_0000;
    FourBytes(high, 0);
    Quotients(n);
  }

  lemma FourBytes(n: nat, more: nat)
    ensures
      Fixed(n, more + 4)
        == [n % 256, n / 0x100 % 256, n / 0x1_0000 % 256, n / 0x100_0000 % 256] + Fixed(n / 0x1_0000_0000, more)
  {
    assert n / 0x100 / 256 == n / 0x1_0000;
    assert n / 0x1_0000 / 256 == n / 0x100_0000;
    assert n / 0x100_0000 / 256 == n / 0x1_0000_0000;
    assert Fixed(n, more + 4) == [n % 256] + Fixed(n / 256, more + 3);
    assert Fixed(n / 0x100, more + 3) == [n / 0x100 % 256] + Fixed(n / 0x1_0000, more + 2);
    assert Fixed(n / 0x1_0000, more + 2) == [n / 0x1_0000 % 256] + Fixed(n / 0x100_0000, more + 1);
    assert Fixed(n / 0x100_0000, more + 1) == [n / 0x100_0000 % 256] + Fixed(n / 0x1_0000_0000, more);
  }

  lemma Quotients(n: nat)
    ensures n / 0x1_0000_0000 / 0x100 == n / 0x100_0000_0000
    ensures n / 0x1_0000_0000 / 0x1_0000 == n / 0x1_0000_0000_0000
    ensures n / 0x1_0000_0000 / 0x100_0000 == n / 0x100_0000_0000_0000
  {
  }

  /** pb_enc_string: the string ends at its terminator, or where the buffer does. */
  method EncodeText(stream: OStream, b: Bytes) returns (ok: bool)
    requires InRange(stream.Now())
    modifies stream
    ensures Sent(old(stream.Now()), stream.Now(), ok, true, Delimited(CString(b)))
  {
    var size: nat := 0;
    assert b[..0] + CString(b[0..]) == CString(b) by { assert b[0..] == b; }
    while size < |b| && b[size] != 0
      invariant size <= |b|
      invariant CString(b) == b[..size] + CString(b[size..])
      invariant stream.Now() == old(stream.Now())
    {
      assert b[size..][1..] == b[size + 1..];
      assert b[..size] + ([b[size]] + CString(b[size + 1..])) == b[..size + 1] + CString(b[size + 1..]);
      size := size + 1;
    }
    assert b[..size] == CString(b);
    ok := stream.EncodeString(b[..size]);
  }

  /** The field encoders, by type; pb_enc_bytes refuses what is larger than its buffer. */
  method EncodeItem(stream: OStream, lt: LType, v: Value) returns (ok: bool)
    requires Typed(lt, v) && InRange(stream.Now())
    modifies stream
    ensures Sent(old(stream.Now()), stream.Now(), ok, EncodableItem(lt, v), WireItem(lt, v))
    decreases TypeDepth(lt), 3
  {
    match lt
    case ByteArray(max) =>
      if |v.b| > max {
        return false;
      }
      ok := stream.EncodeString(v.b);
    case Text(_) => ok := EncodeText(stream, v.b);
    case FixedBytes(_) => ok := stream.EncodeString(v.b);
    case Submessage(fields) =>
      assert IsStruct(fields, v.slots);
      ok := EncodeSubmessage(stream, fields, v.slots);
    case _ => ok := EncodeNumber(stream, lt, v.n);
  }

  /** pb_encode_submessage: once to count, once to write. */
  method EncodeSubmessage(stream: OStream, fields: Fields, slots: seq<Slot>) returns (ok: bool)
    requires IsStruct(fields, slots) && InRange(stream.Now())
    modifies stream
    ensures Sent(old(stream.Now()), stream.Now(), ok, Encodable(fields, slots), Delimited(Wire(fields, slots)))
    decreases Depth(fields), 2
  {
    ghost var bytes := Wire(fields, slots);
    var substream := new OStream.Sizing();
    ok := Encode(substream, fields, slots);
    if !ok {
      return false;
    }
    var size := substream.bytesWritten;
    ok := stream.EncodeVarint(size);
    if !ok {
      SentStops(old(stream.Now()), stream.Now(), true, true, Varint(size), bytes);
      return false;
    }
    ghost var between := stream.Now();
    if stream.sizing {
      stream.Count(size);
      SentOn(old(stream.Now()), between, stream.Now(), true, true, Varint(size), bytes);
      return true;
    }
    if stream.bytesWritten + size > stream.maxSize {
      return false;
    }
    substream.sizing, substream.buffer := false, stream.buffer;
    substream.maxSize, substream.bytesWritten := size, 0;
    var status := Encode(substream, fields, slots);
    stream.bytesWritten := stream.bytesWritten + substream.bytesWritten;
    stream.buffer := substream.buffer;
    assert status;
    SentOn(old(stream.Now()), between, stream.Now(), true, true, Varint(size), bytes);
    if substream.bytesWritten != size {
      return false;
    }
    return status;
  }

  /** pb_encode: every field in turn. */
  method Encode(stream: OStream, fields: Fields, slots: seq<Slot>) returns (ok: bool)
    requires IsStruct(fields, slots) && InRange(stream.Now())
    modifies stream
    ensures Sent(old(stream.Now()), stream.Now(), ok, Encodable(fields, slots), Wire(fields, slots))
    decreases Depth(fields), 1
  {
    hide WireField, EncodableSlot;
    ghost var before := stream.Now();
    var iter := new FieldIter(fields);
    NothingSent(before);
    if fields.Last? {
      return true;
    }
    var more := true;
    ghost var i: nat := 0;
    ghost var done: Bytes := [];
    assert slots[0..] == slots;
    while more
      invariant iter.Valid() && iter.start == fields && fresh(iter) && i <= Len(fields)
      invariant if more then iter.pos == i < Len(fields) else i == Len(fields)
      invariant Sent(before, stream.Now(), true, true, done)
      invariant Wire(fields, slots) == done + Wire(Suffix(fields, i), slots[i..])
      invariant Encodable(fields, slots) <==> Encodable(Suffix(fields, i), slots[i..])
      decreases Len(fields) - i
    {
      FieldAt(fields, slots, i);
      ghost var between := stream.Now();
      SentRange(before, between, done);
      var f := At(fields, iter.pos);
      ok := EncodeField(stream, f, slots[iter.pos]);
      WireAt(fields, slots, i);
      PieceSent(before, between, stream.Now(), ok, EncodableSlot(f, slots[i]), Encodable(fields, slots),
                done, WireField(f, slots[i]), Wire(Suffix(fields, i + 1), slots[i + 1..]));
      if !ok {
        return false;
      }
      done := done + WireField(f, slots[i]);
      i := i + 1;
      more := iter.Next();
    }
    SuffixEnd(fields);
    assert done == Wire(fields, slots);
    return true;
  }

  /** encode_basic_field. */
  method EncodeField(stream: OStream, f: Field, s: Slot) returns (ok: bool)
    requires TypedSlot(f, s) && InRange(stream.Now())
    modifies stream
    ensures Sent(old(stream.Now()), stream.Now(), ok, EncodableSlot(f, s), WireField(f, s))
    decreases TypeDepth(f.ltype), 5
  {
    ghost var before := stream.Now();
    NothingSent(before);
    match f.htype
    case Repeated(max) => ok := EncodeArray(stream, f, s.items, max);
    case Required => ok := EncodeTagged(stream, f.ltype, f.tag, s.items[0]);
    case Optional(flag) =>
      var has := if flag then s.size != 0 else !IsZero(f.ltype, s.items[0]);
      if !has { return true; }
      ok := EncodeTagged(stream, f.ltype, f.tag, s.items[0]);
    case Oneof(_) =>
      if s.size == 0 { return true; }
      ok := EncodeTagged(stream, f.ltype, f.tag, s.items[0]);
  }

  /** A tag and a value. */
  method EncodeTagged(stream: OStream, lt: LType, tag: nat, v: Value) returns (ok: bool)
    requires Typed(lt, v) && InRange(stream.Now())
    modifies stream
    ensures Sent(old(stream.Now()), stream.Now(), ok, EncodableItem(lt, v), Tag(WireType(lt), tag) + WireItem(lt, v))
    decreases TypeDepth(lt), 4, 0
  {
    ghost var before := stream.Now();
    ok := stream.EncodeTag(WireType(lt), tag);
    if !ok {
      SentStops(before, stream.Now(), true, EncodableItem(lt, v), Tag(WireType(lt), tag), WireItem(lt, v));
      return;
    }
    ghost var between := stream.Now();
    NothingSent(before);
    ok := EncodeItem(stream, lt, v);
    SentOn(before, between, stream.Now(), ok, EncodableItem(lt, v), Tag(WireType(lt), tag), WireItem(lt, v));
  }

  /** encode_array: packed if the type allows it, which takes the size of all entries first. */
  method EncodeArray(stream: OStream, f: Field, items: seq<Value>, max: nat) returns (ok: bool)
    requires f.htype == Repeated(max) && TypedSlot(f, Slot(0, items)) && InRange(stream.Now())
    modifies stream
    ensures Sent(old(stream.Now()), stream.Now(), ok, EncodableSlot(f, Slot(0, items)), WireArray(f, items))
    decreases TypeDepth(f.ltype), 5, 0
  {
    NothingSent(stream.Now());
    if |items| == 0 {
      return true;
    }
    if |items| > max {
      return false;
    }
    if Packable(f.ltype) {
      ok := EncodePacked(stream, f.ltype, f.tag, items);
    } else {
      ok := EncodeUnpacked(stream, f.ltype, f.tag, items);
    }
  }

  predicate AllEncodable(lt: LType, items: seq<Value>) {
    forall k :: 0 <= k < |items| ==> EncodableItem(lt, items[k])
  }

  lemma ItemsAt(lt: LType, tag: nat, items: seq<Value>, i: nat)
    requires i < |items|
    ensures WireItems(lt, items[i..]) == WireItem(lt, items[i]) + WireItems(lt, items[i + 1..])
    ensures
      WireTagged(lt, tag, items[i..]) == Tag(WireType(lt), tag) + WireItem(lt, items[i]) + WireTagged(lt, tag, items[i + 1..])
  {
    assert items[i..][1..] == items[i + 1..];
  }

  /** Each entry with its own tag. */
  method EncodeUnpacked(stream: OStream, lt: LType, tag: nat, items: seq<Value>) returns (ok: bool)
    requires InRange(stream.Now()) && forall k :: 0 <= k < |items| ==> Typed(lt, items[k])
    modifies stream
    ensures Sent(old(stream.Now()), stream.Now(), ok, AllEncodable(lt, items), WireTagged(lt, tag, items))
    decreases TypeDepth(lt), 4, 1
  {
    hide WireItem, Varint;
    ghost var before := stream.Now();
    ghost var done: Bytes := [];
    NothingSent(before);
    var i := 0;
    assert items[0..] == items;
    while i < |items|
      invariant i <= |items|
      invariant Sent(before, stream.Now(), true, true, done)
      invariant WireTagged(lt, tag, items) == done + WireTagged(lt, tag, items[i..])
      invariant forall k :: 0 <= k < i ==> EncodableItem(lt, items[k])
    {
      ghost var between := stream.Now();
      SentRange(before, between, done);
      ok := EncodeTagged(stream, lt, tag, items[i]);
      ghost var bytes := Tag(WireType(lt), tag) + WireItem(lt, items[i]);
      ItemsAt(lt, tag, items, i);
      PieceSent(before, between, stream.Now(), ok, EncodableItem(lt, items[i]), AllEncodable(lt, items),
                done, bytes, WireTagged(lt, tag, items[i + 1..]));
      if !ok {
        return false;
      }
      done := done + bytes;
      i := i + 1;
    }
    assert done == WireTagged(lt, tag, items);
    return true;
  }

  /** The entries one after the other. */
  method EncodeEntries(stream: OStream, lt: LType, items: seq<Value>) returns (ok: bool)
    requires Packable(lt) && InRange(stream.Now()) && forall k :: 0 <= k < |items| ==> Typed(lt, items[k])
    modifies stream
    ensures Sent(old(stream.Now()), stream.Now(), ok, AllEncodable(lt, items), WireItems(lt, items))
  {
    ghost var before := stream.Now();
    ghost var done: Bytes := [];
    NothingSent(before);
    var i := 0;
    assert items[0..] == items;
    while i < |items|
      invariant i <= |items|
      invariant Sent(before, stream.Now(), true, true, done)
      invariant WireItems(lt, items) == done + WireItems(lt, items[i..])
      invariant forall k :: 0 <= k < i ==> EncodableItem(lt, items[k])
    {
      ghost var between := stream.Now();
      SentRange(before, between, done);
      ok := EncodeNumber(stream, lt, items[i].n);
      ghost var bytes := WireItem(lt, items[i]);
      ItemsAt(lt, 0, items, i);
      PieceSent(before, between, stream.Now(), ok, EncodableItem(lt, items[i]), AllEncodable(lt, items),
                done, bytes, WireItems(lt, items[i + 1..]));
      if !ok {
        return false;
      }
      done := done + bytes;
      i := i + 1;
    }
    assert done == WireItems(lt, items);
    return true;
  }

  /** A tag, the size of all entries and the entries. */
  method EncodePacked(stream: OStream, lt: LType, tag: nat, items: seq<Value>) returns (ok: bool)
    requires Packable(lt) && InRange(stream.Now()) && forall k :: 0 <= k < |items| ==> Typed(lt, items[k])
    modifies stream
    ensures
      Sent(old(stream.Now()), stream.Now(), ok, AllEncodable(lt, items), Tag(WT_STRING, tag) + Delimited(WireItems(lt, items)))
  {
    ghost var before := stream.Now();
    ghost var good, body := AllEncodable(lt, items), WireItems(lt, items);
    ghost var head := Tag(WT_STRING, tag) + Varint(|body|);
    assert Tag(WT_STRING, tag) + Delimited(body) == head + body;
    ok := stream.EncodeTag(WT_STRING, tag);
    if !ok {
      SentStops(before, stream.Now(), true, good, Tag(WT_STRING, tag), Delimited(body));
      return;
    }
    ghost var between := stream.Now();
    var size;
    if lt.Fixed32Bit? {
      FixedSizes(lt, items);
      size := 4 * |items|;
    } else if lt.Fixed64Bit? {
      FixedSizes(lt, items);
      size := 8 * |items|;
    } else {
      var sizeStream := new OStream.Sizing();
      ok := EncodeEntries(sizeStream, lt, items);
      if !ok {
        return false;
      }
      size := sizeStream.bytesWritten;
    }
    ok := stream.EncodeVarint(size);
    if !ok {
      SentFails(before, between, stream.Now(), true, Tag(WT_STRING, tag), Varint(size));
      SentStops(before, stream.Now(), true, good, head, body);
      return;
    }
    SentOn(before, between, stream.Now(), true, true, Tag(WT_STRING, tag), Varint(size));
    between := stream.Now();
    if stream.sizing {
      stream.Count(size);
      SentOn(before, between, stream.Now(), true, true, head, body);
      return true;
    }
    ok := EncodeEntries(stream, lt, items);
    SentOn(before, between, stream.Now(), ok, good, head, body);
  }

  lemma {:induction false} FixedSizes(lt: LType, items: seq<Value>)
    requires (lt.Fixed32Bit? || lt.Fixed64Bit?) && forall k :: 0 <= k < |items| ==> Typed(lt, items[k])
    ensures |WireItems(lt, items)| == (if lt.Fixed32Bit? then 4 else 8) * |items| && AllEncodable(lt, items)
  {
    if items != [] {
      FixedSizes(lt, items[1..]);
    }
  }

  /** pb_get_encoded_size: the number of bytes that encoding would write. */
  method GetEncodedSize(fields: Fields, slots: seq<Slot>) returns (size: Option<nat>)
    requires IsStruct(fields, slots)
    ensures size == if Encodable(fields, slots) then Some(|Wire(fields, slots)|) else None
  {
    var stream := new OStream.Sizing();
    var ok := Encode(stream, fields, slots);
    size := if ok then Some(stream.bytesWritten) else None;
  }
}
