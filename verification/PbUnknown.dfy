/** Fields that a descriptor does not have: whatever is written for one is skipped to its end, so a message of a
    larger descriptor decodes as the message of its known fields (pb_decode.c pb_skip_field, pb_decode_noinit). */
module PbUnknown {
  import opened Wrappers
  import opened Coding
  import opened PbWire
  import opened PbModel
  import opened PbCommon
  import opened PbRoundTrip

  // ---------- One field ----------

  lemma {:induction false} SkipVarintRoundTrip(v: nat, rest: Bytes)
    ensures SkipVarint(Varint(v) + rest) == Some(|Varint(v)|)
  {
    if v >= 128 {
      SkipVarintRoundTrip(v / 128, rest);
      assert (Varint(v) + rest)[1..] == Varint(v / 128) + rest;
    }
  }

  /** A value is skipped to its end by the wire type it is written with. */
  lemma ItemIsSkipped(lt: LType, v: Value, rest: Bytes)
    requires Typed(lt, v) && EncodableItem(lt, v) && |WireItem(lt, v)| < TWO_32
    ensures SkipField(WireType(lt), WireItem(lt, v) + rest) == Some(|WireItem(lt, v)|)
  {
    match lt
    case Bool => SkipVarintRoundTrip(if v.n != 0 then 1 else 0, rest);
    case SignedInt(_) => SkipVarintRoundTrip(AsUnsigned(v.n), rest);
    case UnsignedInt(_) => SkipVarintRoundTrip(v.n, rest);
    case ZigZagInt(_) => SkipVarintRoundTrip(ZigZag(v.n), rest);
    case Fixed32Bit =>
    case Fixed64Bit =>
    case Submessage(fields) => DelimitedRoundTrip(Wire(fields, v.slots), rest);
    case ByteArray(_) => DelimitedRoundTrip(v.b, rest);
    case Text(_) => DelimitedRoundTrip(CString(v.b), rest);
    case FixedBytes(_) => DelimitedRoundTrip(v.b, rest);
  }

  /** A field that the descriptor does not have. */
  ghost predicate IsUnknown(fields: Fields, f: Field) {
    0 < f.tag < 0x2000_0000 && forall i :: 0 <= i < Len(fields) ==> At(fields, i).tag != f.tag
  }

  /** A tag that is unknown, in front of a body that is skipped to its end. */
  lemma BodyIsSkipped(fields: Fields, p: Progress, f: Field, wireType: nat, body: Bytes, rest: Bytes)
    requires |p.slots| == Len(fields) && IsUnknown(fields, f) && wireType < 8
    requires SkipField(wireType, body + rest) == Some(|body|)
    ensures GetFields(fields, p, Tag(wireType, f.tag) + (body + rest)) == GetFields(fields, p, rest)
  {
    var tag := Tag(wireType, f.tag);
    TagRoundTrip(wireType, f.tag, body + rest);
    assert IndexOf(fields, f.tag).None?;
    assert (tag + (body + rest))[|tag|..] == body + rest;
    assert (body + rest)[|body|..] == rest;
    assert tag + (body + rest) != [];
  }

  lemma {:induction false} TaggedAreSkipped(fields: Fields, p: Progress, f: Field, items: seq<Value>, rest: Bytes)
    requires |p.slots| == Len(fields) && IsUnknown(fields, f)
    requires GoodItems(f.ltype, items) && |WireTagged(f.ltype, f.tag, items)| < TWO_32
    ensures GetFields(fields, p, WireTagged(f.ltype, f.tag, items) + rest) == GetFields(fields, p, rest)
    decreases |items|
  {
    if items == [] {
      assert WireTagged(f.ltype, f.tag, items) + rest == rest;
    } else {
      var after := WireTagged(f.ltype, f.tag, items[1..]) + rest;
      TaggedSplit(f.ltype, f.tag, items, rest);
      TaggedShrinks(f.ltype, f.tag, items);
      GoodRest(f.ltype, items);
      ItemIsSkipped(f.ltype, items[0], after);
      BodyIsSkipped(fields, p, f, WireType(f.ltype), WireItem(f.ltype, items[0]), after);
      TaggedAreSkipped(fields, p, f, items[1..], rest);
    }
  }

  lemma TaggedShrinks(lt: LType, tag: nat, items: seq<Value>)
    requires items != []
    ensures |WireTagged(lt, tag, items[1..])| <= |WireTagged(lt, tag, items)|
  {
    var head, item, after := Tag(WireType(lt), tag), WireItem(lt, items[0]), WireTagged(lt, tag, items[1..]);
    assert WireTagged(lt, tag, items) == head + item + after;
  }

  /** Whatever is written for a field that the descriptor does not have, single, packed or repeated, the decoder goes on
      behind it as if it were not there. */
  lemma UnknownFieldIsSkipped(fields: Fields, p: Progress, f: Field, s: Slot, rest: Bytes)
    requires |p.slots| == Len(fields) && IsUnknown(fields, f)
    requires TypedSlot(f, s) && EncodableSlot(f, s) && |WireField(f, s)| < TWO_32
    ensures GetFields(fields, p, WireField(f, s) + rest) == GetFields(fields, p, rest)
  {
    if WireField(f, s) == [] {
      assert WireField(f, s) + rest == rest;
    } else if !f.htype.Repeated? {
      var item := WireItem(f.ltype, s.items[0]);
      assert WireField(f, s) + rest == Tag(WireType(f.ltype), f.tag) + (item + rest);
      ItemIsSkipped(f.ltype, s.items[0], rest);
      BodyIsSkipped(fields, p, f, WireType(f.ltype), item, rest);
    } else if Packable(f.ltype) {
      var body := WireItems(f.ltype, s.items);
      assert WireField(f, s) + rest == Tag(WT_STRING, f.tag) + (Delimited(body) + rest);
      DelimitedRoundTrip(body, rest);
      BodyIsSkipped(fields, p, f, WT_STRING, Delimited(body), rest);
    } else {
      TaggedAreSkipped(fields, p, f, s.items, rest);
    }
  }

  // ---------- One that is cut off ----------

  lemma {:induction false} UnendedVarint(b: Bytes, k: nat, result: nat)
    requires AllContinue(b) && k > 0
    ensures SkipVarint(b) == None && Varint32Tail(b, k, result) == None
  {
    if b != [] {
      UnendedVarint(b[1..], k + 1, (result + b[0] % 128 * Pow128(k)) % TWO_32);
      UnendedVarint(b[1..], k + 1, result);
    }
  }

  lemma CutDelimited(s: Bytes, n: nat)
    requires |s| < TWO_32 && n < |Delimited(s)|
    ensures GetDelimited(Delimited(s)[..n]) == None
  {
    var size := Varint(|s|);
    if n < |size| {
      assert Delimited(s)[..n] == size[..n];
      CutVarint(|s|, n);
      if n > 0 {
        UnendedVarint(size[..n][1..], 1, size[..n][0] % 128);
      }
    } else {
      assert Delimited(s)[..n] == size + s[..n - |size|];
      Varint32RoundTrip(|s|, s[..n - |size|]);
    }
  }

  /** A value that is cut off is not skipped, and neither is one of an unknown wire type. */
  lemma CutItemIsNotSkipped(lt: LType, v: Value, n: nat)
    requires Typed(lt, v) && EncodableItem(lt, v) && n < |WireItem(lt, v)| < TWO_32
    ensures SkipField(WireType(lt), WireItem(lt, v)[..n]) == None
  {
    var cut := WireItem(lt, v)[..n];
    match lt
    case Bool => CutVarint(if v.n != 0 then 1 else 0, n); UnendedVarint(cut, 1, 0);
    case SignedInt(_) => CutVarint(AsUnsigned(v.n), n); UnendedVarint(cut, 1, 0);
    case UnsignedInt(_) => CutVarint(v.n, n); UnendedVarint(cut, 1, 0);
    case ZigZagInt(_) => CutVarint(ZigZag(v.n), n); UnendedVarint(cut, 1, 0);
    case Fixed32Bit =>
    case Fixed64Bit =>
    case Submessage(fields) => CutDelimited(Wire(fields, v.slots), n);
    case ByteArray(_) => CutDelimited(v.b, n);
    case Text(_) => CutDelimited(CString(v.b), n);
    case FixedBytes(_) => CutDelimited(v.b, n);
  }

  /** A message that ends inside a field that the descriptor does not have is refused, and so is a field of a wire type
      that does not exist. */
  lemma CutUnknownIsRefused(fields: Fields, p: Progress, f: Field, v: Value, n: nat)
    requires |p.slots| == Len(fields) && IsUnknown(fields, f)
    requires Typed(f.ltype, v) && EncodableItem(f.ltype, v) && n < |WireItem(f.ltype, v)| < TWO_32
    ensures GetFields(fields, p, Tag(WireType(f.ltype), f.tag) + WireItem(f.ltype, v)[..n]) == None
    ensures forall w, rest :: w in {3, 4, 6, 7} ==> GetFields(fields, p, Tag(w, f.tag) + rest) == None
  {
    CutItemIsNotSkipped(f.ltype, v, n);
    BodyIsRefused(fields, p, f, WireType(f.ltype), WireItem(f.ltype, v)[..n]);
    forall w: nat, rest | w in {3, 4, 6, 7}
      ensures GetFields(fields, p, Tag(w, f.tag) + rest) == None
    {
      BodyIsRefused(fields, p, f, w, rest);
    }
  }

  lemma BodyIsRefused(fields: Fields, p: Progress, f: Field, wireType: nat, body: Bytes)
    requires |p.slots| == Len(fields) && IsUnknown(fields, f) && wireType < 8
    requires SkipField(wireType, body) == None
    ensures GetFields(fields, p, Tag(wireType, f.tag) + body) == None
  {
    var tag := Tag(wireType, f.tag);
    TagRoundTrip(wireType, f.tag, body);
    assert IndexOf(fields, f.tag).None?;
    assert (tag + body)[|tag|..] == body;
    assert tag + body != [];
  }

  // ---------- Whole messages ----------

  /** The fields of a descriptor with the given tags, and what a struct has for them. */
  function Known(fields: Fields, tags: set<nat>): Fields {
    if fields.Last? then Last
    else if fields.field.tag in tags then More(fields.field, Known(fields.rest, tags))
    else Known(fields.rest, tags)
  }

  function KnownSlots(fields: Fields, slots: seq<Slot>, tags: set<nat>): seq<Slot> {
    if fields.Last? || slots == [] then []
    else if fields.field.tag in tags then [slots[0]] + KnownSlots(fields.rest, slots[1..], tags)
    else KnownSlots(fields.rest, slots[1..], tags)
  }

  /** Each known field is a field of the whole descriptor. */
  lemma {:induction false} KnownAt(fields: Fields, slots: seq<Slot>, tags: set<nat>, i: nat) returns (j: nat)
    requires |slots| == Len(fields) && i < Len(Known(fields, tags))
    ensures |KnownSlots(fields, slots, tags)| == Len(Known(fields, tags))
    ensures j < Len(fields) && At(Known(fields, tags), i) == At(fields, j) && At(fields, j).tag in tags
    ensures KnownSlots(fields, slots, tags)[i] == slots[j]
    decreases fields
  {
    KnownLength(fields, slots, tags);
    if fields.field.tag !in tags {
      j := KnownAt(fields.rest, slots[1..], tags, i);
      j := j + 1;
    } else if i == 0 {
      j := 0;
    } else {
      j := KnownAt(fields.rest, slots[1..], tags, i - 1);
      j := j + 1;
    }
  }

  lemma {:induction false} KnownLength(fields: Fields, slots: seq<Slot>, tags: set<nat>)
    requires |slots| == Len(fields)
    ensures |KnownSlots(fields, slots, tags)| == Len(Known(fields, tags))
    decreases fields
  {
    if fields.More? { KnownLength(fields.rest, slots[1..], tags); }
  }

  ghost predicate Apart(fields: Fields, slots: seq<Slot>)
    requires |slots| == Len(fields)
  {
    DistinctTags(fields) && OneOfEach(fields, slots)
  }

  lemma ApartRest(fields: Fields, slots: seq<Slot>)
    requires |slots| == Len(fields) && fields.More? && Apart(fields, slots)
    ensures Apart(fields.rest, slots[1..])
  {
    forall i, j | 0 <= i < j < Len(fields.rest)
      ensures At(fields.rest, i).tag != At(fields.rest, j).tag
      ensures At(fields.rest, i).htype.Oneof? && At(fields.rest, i).htype == At(fields.rest, j).htype ==>
        slots[1..][i].size == 0 || slots[1..][j].size == 0
    {
      assert At(fields.rest, i) == At(fields, i + 1) && At(fields.rest, j) == At(fields, j + 1);
    }
  }

  /** The known fields make a good descriptor, and what a struct has for them is a struct of it. */
  lemma {:induction false} KnownIsApart(fields: Fields, slots: seq<Slot>, tags: set<nat>)
    requires |slots| == Len(fields) && Apart(fields, slots)
    ensures |KnownSlots(fields, slots, tags)| == Len(Known(fields, tags))
    ensures Apart(Known(fields, tags), KnownSlots(fields, slots, tags))
    decreases fields
  {
    KnownLength(fields, slots, tags);
    if fields.More? {
      ApartRest(fields, slots);
      KnownIsApart(fields.rest, slots[1..], tags);
      if fields.field.tag in tags { FirstIsApart(fields, slots, tags); }
    }
  }

  lemma FirstIsApart(fields: Fields, slots: seq<Slot>, tags: set<nat>)
    requires |slots| == Len(fields) && fields.More? && Apart(fields, slots) && fields.field.tag in tags
    requires |KnownSlots(fields.rest, slots[1..], tags)| == Len(Known(fields.rest, tags))
    requires Apart(Known(fields.rest, tags), KnownSlots(fields.rest, slots[1..], tags))
    ensures |KnownSlots(fields, slots, tags)| == Len(Known(fields, tags))
    ensures Apart(Known(fields, tags), KnownSlots(fields, slots, tags))
  {
    var k, ks := Known(fields, tags), KnownSlots(fields, slots, tags);
    forall i, j | 0 <= i < j < Len(k)
      ensures At(k, i).tag != At(k, j).tag
      ensures At(k, i).htype.Oneof? && At(k, i).htype == At(k, j).htype ==> ks[i].size == 0 || ks[j].size == 0
    {
      assert At(k, j) == At(k.rest, j - 1) && ks[j] == ks[1..][j - 1];
      if i > 0 {
        assert At(k, i) == At(k.rest, i - 1) && ks[i] == ks[1..][i - 1];
      } else {
        var m := KnownAt(fields.rest, slots[1..], tags, j - 1);
        assert At(fields.rest, m) == At(fields, m + 1) && slots[1..][m] == slots[m + 1];
        assert At(fields, 0) == fields.field && At(k, 0) == fields.field;
      }
    }
  }

  lemma {:induction false} KnownIsTyped(fields: Fields, slots: seq<Slot>, tags: set<nat>)
    requires EachGood(fields) && TypedAll(fields, slots) && Encodable(fields, slots)
    ensures EachGood(Known(fields, tags))
    ensures TypedAll(Known(fields, tags), KnownSlots(fields, slots, tags))
    ensures Encodable(Known(fields, tags), KnownSlots(fields, slots, tags))
    decreases fields
  {
    if fields.More? {
      KnownIsTyped(fields.rest, slots[1..], tags);
      if fields.field.tag in tags {
        assert KnownSlots(fields, slots, tags)[1..] == KnownSlots(fields.rest, slots[1..], tags);
      }
    }
  }

  /** What is written for the known fields is no longer than the whole. */
  lemma {:induction false} KnownIsShorter(fields: Fields, slots: seq<Slot>, tags: set<nat>)
    requires |slots| == Len(fields)
    ensures |Wire(Known(fields, tags), KnownSlots(fields, slots, tags))| <= |Wire(fields, slots)|
    decreases fields
  {
    if fields.More? {
      KnownIsShorter(fields.rest, slots[1..], tags);
      if fields.field.tag in tags {
        assert KnownSlots(fields, slots, tags)[1..] == KnownSlots(fields.rest, slots[1..], tags);
      }
    }
  }

  lemma KnownHasTags(fields: Fields, slots: seq<Slot>, tags: set<nat>)
    requires |slots| == Len(fields)
    ensures forall i :: 0 <= i < Len(Known(fields, tags)) ==> At(Known(fields, tags), i).tag in tags
  {
    forall i | 0 <= i < Len(Known(fields, tags))
      ensures At(Known(fields, tags), i).tag in tags
    {
      var j := KnownAt(fields, slots, tags, i);
    }
  }

  /** From here on, `i` fields of `known` are restored, and `fields` and `slots` are what is left of the whole. */
  lemma {:induction false} KnownFrom(known: Fields, held: seq<Slot>, i: nat, fields: Fields, slots: seq<Slot>, tags: set<nat>)
    requires GoodFields(known) && IsStruct(known, held) && Encodable(known, held) && i <= Len(known)
    requires forall k :: 0 <= k < Len(known) ==> At(known, k).tag in tags
    requires EachGood(fields) && TypedAll(fields, slots) && Encodable(fields, slots) && |Wire(fields, slots)| < TWO_32
    requires Suffix(known, i) == Known(fields, tags) && held[i..] == KnownSlots(fields, slots, tags)
    ensures
      GetFields(known, Progress(Partly(known, held, i), SeenBefore(known, i)), Wire(fields, slots))
        == if Ends(Suffix(known, i), held[i..])
           then Some(Progress(Partly(known, held, Len(known)), SeenBefore(known, Len(known)))) else None
    decreases fields
  {
    hide WireField, RestoredSlot, ClearUnion, TypedSlot;
    var p := Progress(Partly(known, held, i), SeenBefore(known, i));
    if fields.Last? {
      NothingLeft(known, i);
    } else if fields.field.tag !in tags {
      assert IsUnknown(known, fields.field);
      UnknownFieldIsSkipped(known, p, fields.field, slots[0], Wire(fields.rest, slots[1..]));
      KnownFrom(known, held, i, fields.rest, slots[1..], tags);
    } else {
      SuffixIsMore(known, i);
      AtIndex(known, held, i);
      FieldAt(known, held, i);
      EndsFrom(known, held, i);
      PartlyStep(known, held, i);
      SeenStep(known, i);
      assert held[i..][0] == held[i] == slots[0] && held[i..][1..] == held[i + 1..];
      if At(known, i).htype.Oneof? && Present(At(known, i), held[i]) {
        UnionStaysClear(known, held, i);
      }
      FieldRoundTrip(known, p, i, held[i], Wire(fields.rest, slots[1..]));
      KnownFrom(known, held, i + 1, fields.rest, slots[1..], tags);
    }
  }

  lemma {:induction false} NothingLeft(fields: Fields, i: nat)
    requires i <= Len(fields) && Suffix(fields, i) == Last
    ensures i == Len(fields)
    decreases fields
  {
    if i > 0 { NothingLeft(fields.rest, i - 1); }
  }

  lemma {:induction false} SuffixIsMore(fields: Fields, i: nat)
    requires i <= Len(fields) && Suffix(fields, i).More?
    ensures i < Len(fields)
    decreases fields
  {
    if i > 0 { SuffixIsMore(fields.rest, i - 1); }
  }

  /** A message of a larger descriptor decodes, with a descriptor of some of its fields, to what the message of those
      fields alone decodes to. */
  lemma LargerMessageDecodes(fields: Fields, slots: seq<Slot>, tags: set<nat>)
    requires GoodFields(fields) && IsStruct(fields, slots) && Encodable(fields, slots) && |Wire(fields, slots)| < TWO_32
    ensures
      var known, held := Known(fields, tags), KnownSlots(fields, slots, tags);
      Decode(known, Wire(fields, slots)) == Decode(known, Wire(known, held))
    ensures
      var known, held := Known(fields, tags), KnownSlots(fields, slots, tags);
      Decode(known, Wire(fields, slots)) == if Ends(known, held) then Some(Restored(known, held)) else None
  {
    var known, held := Known(fields, tags), KnownSlots(fields, slots, tags);
    KnownIsApart(fields, slots, tags);
    KnownIsTyped(fields, slots, tags);
    KnownIsShorter(fields, slots, tags);
    KnownHasTags(fields, slots, tags);
    RestoredLength(known, held);
    assert held[0..] == held && Suffix(known, 0) == known;
    assert Partly(known, held, 0) == Defaults(known) && Partly(known, held, Len(known)) == Restored(known, held);
    assert SeenBefore(known, 0) == {};
    KnownFrom(known, held, 0, fields, slots, tags);
    DecodeOfEncoded(known, held);
  }
}
