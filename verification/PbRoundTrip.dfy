/** Decoding what was encoded restores every value that is present, or fails if some string fills its
    buffer (pb_encode.c, pb_decode.c). */
module PbRoundTrip {
  import opened Wrappers
  import opened Coding
  import opened PbWire
  import opened PbModel
  import opened PbCommon

  // ---------- What is restored ----------

  /** Strings that are written leave room for the terminator in their buffers. */
  predicate EndsItem(lt: LType, v: Value)
    decreases lt, 1
  {
    match lt
    case Text(max) => v.Blob? ==> |CString(v.b)| < max
    case Submessage(fields) => v.Message? ==> Ends(fields, v.slots)
    case _ => true
  }

  predicate EndsSlot(f: Field, s: Slot)
    decreases f, 1
  {
    if f.htype.Repeated? then forall k :: 0 <= k < |s.items| ==> EndsItem(f.ltype, s.items[k])
    else Present(f, s) ==> EndsItem(f.ltype, s.items[0])
  }

  predicate Ends(fields: Fields, slots: seq<Slot>)
    decreases fields, 0
  {
    fields.Last? || slots == [] || (EndsSlot(fields.field, slots[0]) && Ends(fields.rest, slots[1..]))
  }

  /** A message with everything that is not written replaced by its default. */
  function Restored(fields: Fields, slots: seq<Slot>): (r: seq<Slot>)
    ensures |slots| == Len(fields) ==> |r| == |slots|
    decreases fields, 0
  {
    if fields.Last? || slots == [] then [] else [RestoredSlot(fields.field, slots[0])] + Restored(fields.rest, slots[1..])
  }

  function RestoredSlot(f: Field, s: Slot): Slot
    decreases f, 1
  {
    if f.htype.Repeated? then Slot(0, RestoredItems(f.ltype, s.items))
    else if Present(f, s) then Slot(s.size, [RestoredValue(f.ltype, s.items[0])])
    else DefaultSlot(f)
  }

  function RestoredItems(lt: LType, items: seq<Value>): (r: seq<Value>)
    ensures |r| == |items|
    decreases lt, 1, |items|
  {
    if items == [] then [] else [RestoredValue(lt, items[0])] + RestoredItems(lt, items[1..])
  }

  function RestoredValue(lt: LType, v: Value): Value
    decreases lt, 0
  {
    match v
    case Int(n) => if lt.Bool? then Int(if n != 0 then 1 else 0) else v
    case Blob(b) => if lt.Text? then Blob(CString(b)) else v
    case Message(slots) => if lt.Submessage? then Message(Restored(lt.fields, slots)) else v
  }

  // ---------- Numbers and strings ----------

  lemma NumberRoundTrip(lt: LType, n: int, rest: Bytes)
    requires Packable(lt) && Typed(lt, Int(n)) && EncodableItem(lt, Int(n))
    ensures
      GetNumber(lt, WireNumber(lt, n) + rest)
        == Some(Decoded(if lt.Bool? then (if n != 0 then 1 else 0) else n, |WireNumber(lt, n)|))
  {
    match lt
    case Bool => Varint32RoundTrip(if n != 0 then 1 else 0, rest);
    case SignedInt(size) =>
      NarrowRoundTrip(size, n);
      GetVarint64RoundTrip(AsUnsigned(n), rest);
    case UnsignedInt(size) => GetVarint64RoundTrip(n, rest);
    case ZigZagInt(size) =>
      ZigZagRoundTrip(n);
      GetVarint64RoundTrip(ZigZag(n), rest);
    case Fixed32Bit =>
      Fixed32RoundTrip(n);
      assert (Fixed32(n) + rest)[..4] == Fixed32(n);
    case Fixed64Bit =>
      Fixed64RoundTrip(n);
      assert (Fixed64(n) + rest)[..8] == Fixed64(n);
  }

  lemma BlobRoundTrip(lt: LType, b: Bytes, rest: Bytes)
    requires IsBlob(lt) && |b| < TWO_32
    requires lt.ByteArray? ==> |b| <= lt.max
    requires lt.FixedBytes? ==> |b| == lt.length
    ensures
      GetBlob(lt, Delimited(b) + rest) == if lt.Text? && |b| >= lt.max then None else Some(Decoded(b, |Delimited(b)|))
  {
    DelimitedRoundTrip(b, rest);
    if lt.FixedBytes? && |b| == 0 {
      assert b == [] && seq(lt.length, i => 0) == b;
    }
  }

  // ---------- Descriptors by index ----------

  lemma {:induction false} AtIndex(fields: Fields, slots: seq<Slot>, i: nat)
    requires i < Len(fields) == |slots|
    ensures Defaults(fields)[i] == DefaultSlot(At(fields, i))
    ensures |Restored(fields, slots)| == |slots| && Restored(fields, slots)[i] == RestoredSlot(At(fields, i), slots[i])
    ensures EachGood(fields) ==> 0 < At(fields, i).tag < 0x2000_0000 && GoodType(At(fields, i).ltype)
    decreases fields
  {
    RestoredLength(fields, slots);
    if i > 0 {
      AtIndex(fields.rest, slots[1..], i - 1);
    }
  }

  lemma {:induction false} RestoredLength(fields: Fields, slots: seq<Slot>)
    requires |slots| == Len(fields)
    ensures |Restored(fields, slots)| == |slots|
    decreases fields
  {
    if fields.More? { RestoredLength(fields.rest, slots[1..]); }
  }

  lemma {:induction false} UnionAt(fields: Fields, slots: seq<Slot>, union: nat, k: nat)
    requires k < Len(fields) == |slots|
    ensures ClearUnion(fields, slots, union)[k] == if At(fields, k).htype == Oneof(union) then Slot(0, []) else slots[k]
    decreases fields
  {
    if k > 0 { UnionAt(fields.rest, slots[1..], union, k - 1); }
  }

  lemma OwnIndex(fields: Fields, i: nat)
    requires DistinctTags(fields) && i < Len(fields)
    ensures IndexOf(fields, At(fields, i).tag) == Some(i)
  {
    assert forall j :: 0 <= j < Len(fields) && At(fields, j).tag == At(fields, i).tag ==> j == i;
  }

  // ---------- One field ----------

  /** A tag in front of a body: the decoder takes the body as the field's decoder does. */
  lemma OneStep(fields: Fields, p: Progress, i: nat, wireType: nat, body: Bytes)
    requires DistinctTags(fields) && i < Len(fields) == |p.slots| && wireType < 8 && 0 < At(fields, i).tag < 0x2000_0000
    ensures
      GetFields(fields, p, Tag(wireType, At(fields, i).tag) + body)
        == match GetField(At(fields, i), wireType, p.slots[i], body)
           case None => None
           case Some(d) => GetFields(fields, Advance(fields, p, i, d.value), body[d.size..])
  {
    var tag := Tag(wireType, At(fields, i).tag);
    TagRoundTrip(wireType, At(fields, i).tag, body);
    OwnIndex(fields, i);
    assert (tag + body)[|tag|..] == body;
    assert tag + body != [];
  }

  // ---------- Items ----------

  lemma ItemRoundTrip(lt: LType, entry: bool, before: Value, v: Value, rest: Bytes)
    requires GoodType(lt) && Typed(lt, v) && EncodableItem(lt, v) && |WireItem(lt, v)| < TWO_32
    requires lt.Submessage? && !entry ==> before == Message(Defaults(lt.fields))
    ensures
      GetItem(lt, entry, before, WireItem(lt, v) + rest)
        == if EndsItem(lt, v) then Some(Decoded(RestoredValue(lt, v), |WireItem(lt, v)|)) else None
    decreases TypeDepth(lt), 5, 0
  {
    if lt.Submessage? {
      var body := Wire(lt.fields, v.slots);
      DelimitedRoundTrip(body, rest);
      MessageRoundTrip(lt.fields, v.slots);
    } else if Packable(lt) {
      NumberRoundTrip(lt, v.n, rest);
    } else {
      BlobRoundTrip(lt, if lt.Text? then CString(v.b) else v.b, rest);
    }
  }

  // ---------- Arrays ----------

  predicate GoodItems(lt: LType, items: seq<Value>) {
    forall k :: 0 <= k < |items| ==> Typed(lt, items[k]) && EncodableItem(lt, items[k])
  }

  predicate EndsItems(lt: LType, items: seq<Value>) {
    forall k :: 0 <= k < |items| ==> EndsItem(lt, items[k])
  }

  lemma {:induction false} PackedRoundTrip(lt: LType, before: seq<Value>, max: nat, items: seq<Value>)
    requires Packable(lt) && GoodItems(lt, items) && |before| + |items| <= max
    ensures GetPacked(lt, before, max, WireItems(lt, items)) == Some(before + RestoredItems(lt, items))
    decreases |items|
  {
    if items == [] {
      assert before + RestoredItems(lt, items) == before;
    } else {
      var one := RestoredValue(lt, items[0]);
      PackedStep(lt, before, max, items[0], WireItems(lt, items[1..]));
      PackedRoundTrip(lt, before + [one], max, items[1..]);
      assert before + [one] + RestoredItems(lt, items[1..]) == before + RestoredItems(lt, items);
    }
  }

  lemma PackedStep(lt: LType, before: seq<Value>, max: nat, v: Value, rest: Bytes)
    requires Packable(lt) && Typed(lt, v) && EncodableItem(lt, v) && |before| < max
    ensures GetPacked(lt, before, max, WireItem(lt, v) + rest) == GetPacked(lt, before + [RestoredValue(lt, v)], max, rest)
  {
    NumberRoundTrip(lt, v.n, rest);
    assert (WireItem(lt, v) + rest)[|WireItem(lt, v)|..] == rest;
  }

  /** What the lemmas about an array with a tag before each entry need to know. */
  ghost predicate TaggedArray(fields: Fields, i: nat, slots: seq<Slot>, items: seq<Value>) {
    && DistinctTags(fields) && i < Len(fields) == |slots| && 0 < At(fields, i).tag < 0x2000_0000
    && var f := At(fields, i);
       && f.htype.Repeated? && !Packable(f.ltype) && GoodType(f.ltype) && GoodItems(f.ltype, items)
       && slots[i].size == 0 && |slots[i].items| + |items| <= f.htype.max
       && |WireTagged(f.ltype, f.tag, items)| < TWO_32
  }

  lemma TaggedStep(fields: Fields, p: Progress, i: nat, items: seq<Value>, rest: Bytes)
    requires TaggedArray(fields, i, p.slots, items) && items != []
    ensures
      var f := At(fields, i);
      GetFields(fields, p, WireTagged(f.ltype, f.tag, items) + rest)
        == if !EndsItem(f.ltype, items[0]) then None
           else
             var s := Slot(0, p.slots[i].items + [RestoredValue(f.ltype, items[0])]);
             GetFields(fields, Progress(p.slots[i := s], p.seen), WireTagged(f.ltype, f.tag, items[1..]) + rest)
    decreases TypeDepth(At(fields, i).ltype), 6, 0
  {
    var f := At(fields, i);
    var item, after := WireItem(f.ltype, items[0]), WireTagged(f.ltype, f.tag, items[1..]) + rest;
    TaggedSplit(f.ltype, f.tag, items, rest);
    OneStep(fields, p, i, WireType(f.ltype), item + after);
    EntryRoundTrip(f, p.slots[i], items[0], after);
    assert (item + after)[|item|..] == after;
  }

  lemma TaggedSplit(lt: LType, tag: nat, items: seq<Value>, rest: Bytes)
    requires items != []
    ensures
      WireTagged(lt, tag, items) + rest
        == Tag(WireType(lt), tag) + (WireItem(lt, items[0]) + (WireTagged(lt, tag, items[1..]) + rest))
    ensures |WireItem(lt, items[0])| <= |WireTagged(lt, tag, items)|
  {
    var head, item, after := Tag(WireType(lt), tag), WireItem(lt, items[0]), WireTagged(lt, tag, items[1..]);
    assert WireTagged(lt, tag, items) == head + item + after;
    Joined(head, item, after, rest);
  }

  lemma Joined(a: Bytes, b: Bytes, c: Bytes, d: Bytes)
    ensures a + b + c + d == a + (b + (c + d)) && |b| <= |a + b + c|
  {
  }

  lemma EntryRoundTrip(f: Field, s: Slot, v: Value, rest: Bytes)
    requires f.htype.Repeated? && !Packable(f.ltype) && s.size == 0 && |s.items| < f.htype.max
    requires GoodType(f.ltype) && Typed(f.ltype, v) && EncodableItem(f.ltype, v) && |WireItem(f.ltype, v)| < TWO_32
    ensures
      GetField(f, WireType(f.ltype), s, WireItem(f.ltype, v) + rest)
        == if EndsItem(f.ltype, v)
           then Some(Decoded(Slot(0, s.items + [RestoredValue(f.ltype, v)]), |WireItem(f.ltype, v)|)) else None
    decreases TypeDepth(f.ltype), 5, 1
  {
    ItemRoundTrip(f.ltype, true, Int(0), v, rest);
  }

  lemma {:induction false} TaggedRoundTrip(fields: Fields, p: Progress, i: nat, items: seq<Value>, rest: Bytes)
    requires TaggedArray(fields, i, p.slots, items)
    ensures
      var f := At(fields, i);
      GetFields(fields, p, WireTagged(f.ltype, f.tag, items) + rest)
        == if !EndsItems(f.ltype, items) then None
           else
             var s := Slot(0, p.slots[i].items + RestoredItems(f.ltype, items));
             GetFields(fields, Progress(p.slots[i := s], p.seen), rest)
    decreases TypeDepth(At(fields, i).ltype), 6, |items|
  {
    var lt, held := At(fields, i).ltype, p.slots[i].items;
    if items == [] {
      assert held + RestoredItems(lt, items) == held;
      assert p.slots[i := p.slots[i]] == p.slots;
      assert WireTagged(lt, At(fields, i).tag, items) + rest == rest;
    } else {
      TaggedStep(fields, p, i, items, rest);
      EndsItemsSplit(lt, items);
      if EndsItem(lt, items[0]) {
        var q := Progress(p.slots[i := Slot(0, held + [RestoredValue(lt, items[0])])], p.seen);
        TaggedRest(fields, i, p.slots, items);
        TaggedRoundTrip(fields, q, i, items[1..], rest);
      }
    }
  }

  lemma TaggedRest(fields: Fields, i: nat, slots: seq<Slot>, items: seq<Value>)
    requires TaggedArray(fields, i, slots, items) && items != []
    ensures
      var lt, held := At(fields, i).ltype, slots[i].items;
      var next := held + [RestoredValue(lt, items[0])];
      && TaggedArray(fields, i, slots[i := Slot(0, next)], items[1..])
      && next + RestoredItems(lt, items[1..]) == held + RestoredItems(lt, items)
      && slots[i := Slot(0, next)][i := Slot(0, held + RestoredItems(lt, items))]
           == slots[i := Slot(0, held + RestoredItems(lt, items))]
  {
    GoodRest(At(fields, i).ltype, items);
    RestJoins(At(fields, i).ltype, slots[i].items, items);
  }

  lemma GoodRest(lt: LType, items: seq<Value>)
    requires GoodItems(lt, items) && items != []
    ensures GoodItems(lt, items[1..])
  {
  }

  lemma RestJoins(lt: LType, held: seq<Value>, items: seq<Value>)
    requires items != []
    ensures held + [RestoredValue(lt, items[0])] + RestoredItems(lt, items[1..]) == held + RestoredItems(lt, items)
  {
  }

  lemma EndsItemsSplit(lt: LType, items: seq<Value>)
    requires items != []
    ensures EndsItems(lt, items) <==> EndsItem(lt, items[0]) && EndsItems(lt, items[1..])
  {
    assert forall k :: 1 <= k < |items| ==> items[k] == items[1..][k - 1];
  }

  // ---------- One field ----------

  function Seen(fields: Fields, i: nat, seen: set<nat>): set<nat>
    requires i < Len(fields)
  {
    if At(fields, i).htype.Required? then seen + {RequiredBefore(fields, i)} else seen
  }

  /** The decoder takes what is written for a field to the field's restored slot. */
  lemma FieldRoundTrip(fields: Fields, p: Progress, i: nat, s: Slot, rest: Bytes)
    requires DistinctTags(fields) && i < Len(fields) == |p.slots| && 0 < At(fields, i).tag < 0x2000_0000
    requires
      var f := At(fields, i);
      && GoodType(f.ltype) && TypedSlot(f, s) && EncodableSlot(f, s) && |WireField(f, s)| < TWO_32
      && p.slots[i] == DefaultSlot(f)
      && (f.htype.Oneof? && Present(f, s) ==> ClearUnion(fields, p.slots, f.htype.union) == p.slots)
    ensures
      var f := At(fields, i);
      GetFields(fields, p, WireField(f, s) + rest)
        == if !EndsSlot(f, s) then None
           else GetFields(fields, Progress(p.slots[i := RestoredSlot(f, s)], Seen(fields, i, p.seen)), rest)
    decreases TypeDepth(At(fields, i).ltype), 7
  {
    var f := At(fields, i);
    if f.htype.Repeated? {
      ArrayRoundTrip(fields, p, i, s, rest);
    } else if Present(f, s) {
      var item := WireItem(f.ltype, s.items[0]);
      assert WireField(f, s) + rest == Tag(WireType(f.ltype), f.tag) + (item + rest);
      OneStep(fields, p, i, WireType(f.ltype), item + rest);
      assert (item + rest)[|item|..] == rest;
      var before := if f.htype.Oneof? && f.ltype.Submessage? then Message(Defaults(f.ltype.fields)) else FirstOf(p.slots[i]);
      ItemRoundTrip(f.ltype, false, before, s.items[0], rest);
    } else {
      assert WireField(f, s) + rest == rest;
      assert p.slots[i := p.slots[i]] == p.slots;
    }
  }

  lemma ArrayRoundTrip(fields: Fields, p: Progress, i: nat, s: Slot, rest: Bytes)
    requires DistinctTags(fields) && i < Len(fields) == |p.slots| && 0 < At(fields, i).tag < 0x2000_0000
    requires
      var f := At(fields, i);
      && f.htype.Repeated? && GoodType(f.ltype) && TypedSlot(f, s) && EncodableSlot(f, s)
      && |WireField(f, s)| < TWO_32 && p.slots[i] == Slot(0, [])
    ensures
      var f := At(fields, i);
      GetFields(fields, p, WireField(f, s) + rest)
        == if !EndsSlot(f, s) then None
           else GetFields(fields, Progress(p.slots[i := RestoredSlot(f, s)], p.seen), rest)
    decreases TypeDepth(At(fields, i).ltype), 6, |s.items| + 1
  {
    var f := At(fields, i);
    if s.items == [] {
      assert WireField(f, s) + rest == rest;
      assert p.slots[i := p.slots[i]] == p.slots;
    } else if Packable(f.ltype) {
      var body := WireItems(f.ltype, s.items);
      assert WireField(f, s) + rest == Tag(WT_STRING, f.tag) + (Delimited(body) + rest);
      OneStep(fields, p, i, WT_STRING, Delimited(body) + rest);
      DelimitedRoundTrip(body, rest);
      PackedRoundTrip(f.ltype, [], f.htype.max, s.items);
      assert (Delimited(body) + rest)[|Delimited(body)|..] == rest;
      assert [] + RestoredItems(f.ltype, s.items) == RestoredItems(f.ltype, s.items);
    } else {
      TaggedRoundTrip(fields, p, i, s.items, rest);
      assert [] + RestoredItems(f.ltype, s.items) == RestoredItems(f.ltype, s.items);
    }
  }

  // ---------- Messages ----------

  /** The struct when the first `i` fields are restored and the others still have their defaults. */
  function Partly(fields: Fields, slots: seq<Slot>, i: nat): (r: seq<Slot>)
    requires i <= Len(fields) == |slots|
    ensures |r| == Len(fields)
  {
    RestoredLength(fields, slots);
    Restored(fields, slots)[..i] + Defaults(fields)[i..]
  }

  function SeenBefore(fields: Fields, i: nat): set<nat>
    requires i <= Len(fields)
  {
    Below(RequiredBefore(fields, i))
  }

  lemma SeenStep(fields: Fields, i: nat)
    requires i < Len(fields)
    ensures Seen(fields, i, SeenBefore(fields, i)) == SeenBefore(fields, i + 1)
  {
    NextRequired(fields, i);
  }

  lemma PartlyStep(fields: Fields, slots: seq<Slot>, i: nat)
    requires i < Len(fields) == |slots|
    ensures Partly(fields, slots, i)[i] == DefaultSlot(At(fields, i))
    ensures Partly(fields, slots, i)[i := RestoredSlot(At(fields, i), slots[i])] == Partly(fields, slots, i + 1)
  {
    AtIndex(fields, slots, i);
    var p, q, r := Partly(fields, slots, i), Partly(fields, slots, i + 1), RestoredSlot(At(fields, i), slots[i]);
    assert p[i] == Defaults(fields)[i];
    assert forall k :: 0 <= k < |p| ==> p[i := r][k] == q[k];
    assert p[i := r] == q;
  }

  /** If a member of a union is set, the others have their defaults all along. */
  lemma UnionStaysClear(fields: Fields, slots: seq<Slot>, i: nat)
    requires i < Len(fields) == |slots| && TypedAll(fields, slots) && OneOfEach(fields, slots)
    requires At(fields, i).htype.Oneof? && Present(At(fields, i), slots[i])
    ensures ClearUnion(fields, Partly(fields, slots, i), At(fields, i).htype.union) == Partly(fields, slots, i)
  {
    var p, u := Partly(fields, slots, i), At(fields, i).htype.union;
    forall k | 0 <= k < |p| ensures ClearUnion(fields, p, u)[k] == p[k] {
      UnionAt(fields, p, u, k);
      AtIndex(fields, slots, k);
      FieldAt(fields, slots, k);
    }
  }

  lemma EndsFrom(fields: Fields, slots: seq<Slot>, i: nat)
    requires i < Len(fields) == |slots|
    ensures
      Ends(Suffix(fields, i), slots[i..])
      <==> EndsSlot(At(fields, i), slots[i]) && Ends(Suffix(fields, i + 1), slots[i + 1..])
  {
    FieldAt(fields, slots, i);
    assert slots[i..][1..] == slots[i + 1..];
  }

  /** From any field on, and in front of anything else, the rest of the fields is restored. */
  lemma {:induction false} FieldsFrom(fields: Fields, slots: seq<Slot>, i: nat, rest: Bytes)
    requires GoodFields(fields) && IsStruct(fields, slots) && Encodable(fields, slots) && i <= Len(fields)
    requires |Wire(Suffix(fields, i), slots[i..])| < TWO_32
    ensures
      GetFields(fields, Progress(Partly(fields, slots, i), SeenBefore(fields, i)), Wire(Suffix(fields, i), slots[i..]) + rest)
        == if Ends(Suffix(fields, i), slots[i..])
           then GetFields(fields, Progress(Partly(fields, slots, Len(fields)), SeenBefore(fields, Len(fields))), rest) else None
    decreases Depth(fields), 3, Len(fields) - i
  {
    hide WireField, RestoredSlot, ClearUnion, TypedSlot;
    if i == Len(fields) {
      SuffixEnd(fields);
      assert Wire(Suffix(fields, i), slots[i..]) + rest == rest;
    } else {
      var p := Progress(Partly(fields, slots, i), SeenBefore(fields, i));
      var after := Wire(Suffix(fields, i + 1), slots[i + 1..]) + rest;
      AtIndex(fields, slots, i);
      FieldAt(fields, slots, i);
      WireAt(fields, slots, i);
      EndsFrom(fields, slots, i);
      PartlyStep(fields, slots, i);
      SeenStep(fields, i);
      if At(fields, i).htype.Oneof? && Present(At(fields, i), slots[i]) {
        UnionStaysClear(fields, slots, i);
      }
      assert Wire(Suffix(fields, i), slots[i..]) + rest == WireField(At(fields, i), slots[i]) + after;
      FieldRoundTrip(fields, p, i, slots[i], after);
      FieldsFrom(fields, slots, i + 1, rest);
    }
  }

  /** A whole message in front of anything else. */
  lemma MessageInFront(fields: Fields, slots: seq<Slot>, rest: Bytes)
    requires GoodFields(fields) && IsStruct(fields, slots) && Encodable(fields, slots) && |Wire(fields, slots)| < TWO_32
    ensures
      GetFields(fields, Progress(Defaults(fields), {}), Wire(fields, slots) + rest)
        == if Ends(fields, slots)
           then GetFields(fields, Progress(Restored(fields, slots), SeenBefore(fields, Len(fields))), rest) else None
    decreases Depth(fields), 4, 0
  {
    var n := Len(fields);
    RestoredLength(fields, slots);
    assert slots[0..] == slots && Suffix(fields, 0) == fields;
    assert Partly(fields, slots, 0) == Defaults(fields) && Partly(fields, slots, n) == Restored(fields, slots);
    assert SeenBefore(fields, 0) == {};
    FieldsFrom(fields, slots, 0, rest);
  }

  lemma MessageRoundTrip(fields: Fields, slots: seq<Slot>)
    requires GoodFields(fields) && IsStruct(fields, slots) && Encodable(fields, slots) && |Wire(fields, slots)| < TWO_32
    ensures
      GetMessage(fields, Defaults(fields), Wire(fields, slots))
        == if Ends(fields, slots) then Some(Restored(fields, slots)) else None
    decreases Depth(fields), 4, 1
  {
    RestoredLength(fields, slots);
    MessageInFront(fields, slots, []);
    assert Wire(fields, slots) + [] == Wire(fields, slots);
  }

  /** Every message that can be encoded decodes to the same message with defaults for what is not written,
      except that it does not decode at all if a string that is written fills its buffer. */
  lemma DecodeOfEncoded(fields: Fields, slots: seq<Slot>)
    requires GoodFields(fields) && IsStruct(fields, slots) && Encodable(fields, slots) && |Wire(fields, slots)| < TWO_32
    ensures Decode(fields, Wire(fields, slots)) == if Ends(fields, slots) then Some(Restored(fields, slots)) else None
  {
    MessageRoundTrip(fields, slots);
  }

  // ---------- What the restored message keeps ----------

  /** Fields whose presence is told by their value have zero as their default. */
  predicate ZeroInits(fields: Fields)
    decreases fields, 0
  {
    fields.Last? || (ZeroInit(fields.field) && ZeroInits(fields.rest))
  }

  predicate ZeroInit(f: Field)
    decreases f, 0
  {
    if f.ltype.Submessage? then ZeroInits(f.ltype.fields)
    else f.htype == Optional(false) ==> IsZero(f.ltype, f.init) || f.ltype.FixedBytes?
  }

  lemma {:induction false} CStringTwice(b: Bytes)
    ensures CString(CString(b)) == CString(b)
  {
    if b != [] && b[0] != 0 { CStringTwice(b[1..]); }
  }

  /** If a message can be all zero, its defaults are. */
  lemma {:induction false} DefaultsAreZero(fields: Fields, slots: seq<Slot>)
    requires ZeroInits(fields) && AllZero(fields, slots)
    ensures AllZero(fields, Defaults(fields))
    decreases fields
  {
    if fields.More? {
      DefaultsAreZero(fields.rest, slots[1..]);
      DefaultIsZero(fields.field, slots[0]);
      assert Defaults(fields)[1..] == Defaults(fields.rest);
    }
  }

  lemma {:induction false} DefaultIsZero(f: Field, s: Slot)
    requires ZeroInit(f) && IsZeroSlot(f, s)
    ensures IsZeroSlot(f, DefaultSlot(f))
    decreases f
  {
    if f.htype == Optional(false) {
      assert IsZero(f.ltype, s.items[0]);
      if f.ltype.Submessage? {
        DefaultsAreZero(f.ltype.fields, s.items[0].slots);
        assert AllZero(f.ltype.fields, Defaults(f.ltype.fields));
      }
      assert IsZero(f.ltype, DefaultValue(f));
    }
  }

  lemma {:induction false} ZeroKept(fields: Fields, slots: seq<Slot>)
    requires ZeroInits(fields) && TypedAll(fields, slots)
    ensures AllZero(fields, Restored(fields, slots)) == AllZero(fields, slots)
    decreases fields, 1
  {
    if fields.More? {
      ZeroSlotKept(fields.field, slots[0]);
      ZeroKept(fields.rest, slots[1..]);
    }
  }

  lemma {:induction false} ZeroSlotKept(f: Field, s: Slot)
    requires ZeroInit(f) && TypedSlot(f, s)
    ensures IsZeroSlot(f, RestoredSlot(f, s)) == IsZeroSlot(f, s)
    ensures Present(f, RestoredSlot(f, s)) == Present(f, s)
    decreases f, 0
  {
    if f.htype == Optional(false) {
      var v := s.items[0];
      assert Typed(f.ltype, v);
      if f.ltype.Submessage? {
        assert IsStruct(f.ltype.fields, v.slots);
        ZeroKept(f.ltype.fields, v.slots);
      } else if f.ltype.Text? {
        CStringTwice(v.b);
      }
      if IsZeroSlot(f, s) { DefaultIsZero(f, s); }
      assert IsZero(f.ltype, RestoredValue(f.ltype, v)) == IsZero(f.ltype, v);
    }
  }

  lemma {:induction false} ItemWireKept(lt: LType, v: Value)
    requires Typed(lt, v) && (lt.Submessage? ==> ZeroInits(lt.fields))
    ensures WireItem(lt, RestoredValue(lt, v)) == WireItem(lt, v)
    decreases lt, 0
  {
    if lt.Text? { CStringTwice(v.b); }
    if lt.Submessage? { WireKept(lt.fields, v.slots); }
  }

  lemma {:induction false} ItemsWireKept(lt: LType, tag: nat, items: seq<Value>)
    requires (lt.Submessage? ==> ZeroInits(lt.fields)) && forall k :: 0 <= k < |items| ==> Typed(lt, items[k])
    ensures WireItems(lt, RestoredItems(lt, items)) == WireItems(lt, items)
    ensures WireTagged(lt, tag, RestoredItems(lt, items)) == WireTagged(lt, tag, items)
    decreases lt, 1, |items|
  {
    if items != [] {
      ItemWireKept(lt, items[0]);
      ItemsWireKept(lt, tag, items[1..]);
      assert RestoredItems(lt, items)[1..] == RestoredItems(lt, items[1..]);
    }
  }

  lemma {:induction false} SlotWireKept(f: Field, s: Slot)
    requires ZeroInit(f) && TypedSlot(f, s)
    ensures WireField(f, RestoredSlot(f, s)) == WireField(f, s)
    decreases f, 0
  {
    ZeroSlotKept(f, s);
    if f.htype.Repeated? {
      ItemsWireKept(f.ltype, f.tag, s.items);
    } else if Present(f, s) {
      ItemWireKept(f.ltype, s.items[0]);
    }
  }

  lemma {:induction false} WireKept(fields: Fields, slots: seq<Slot>)
    requires ZeroInits(fields) && TypedAll(fields, slots)
    ensures Wire(fields, Restored(fields, slots)) == Wire(fields, slots)
    decreases fields, 1
  {
    if fields.More? {
      SlotWireKept(fields.field, slots[0]);
      WireKept(fields.rest, slots[1..]);
      assert Restored(fields, slots)[1..] == Restored(fields.rest, slots[1..]);
    }
  }

  /** Encoding the decoded message gives the same bytes: the same fields are present, with the same values. */
  lemma EncodeDecodeEncode(fields: Fields, slots: seq<Slot>)
    requires GoodFields(fields) && IsStruct(fields, slots) && Encodable(fields, slots) && |Wire(fields, slots)| < TWO_32
    requires ZeroInits(fields) && Ends(fields, slots)
    ensures
      var decoded := Decode(fields, Wire(fields, slots));
      decoded.Some? && Wire(fields, decoded.value) == Wire(fields, slots)
  {
    DecodeOfEncoded(fields, slots);
    WireKept(fields, slots);
  }

  /** Bools are 0 or 1, strings end where their bytes do, and what is absent has its default. */
  predicate CanonicalItem(lt: LType, v: Value)
    decreases lt, 1
  {
    match v
    case Int(n) => lt.Bool? ==> 0 <= n <= 1
    case Blob(b) => lt.Text? ==> CString(b) == b
    case Message(slots) => lt.Submessage? ==> Canonical(lt.fields, slots)
  }

  predicate CanonicalSlot(f: Field, s: Slot)
    decreases f, 1
  {
    if f.htype.Repeated? then s.size == 0 && forall k :: 0 <= k < |s.items| ==> CanonicalItem(f.ltype, s.items[k])
    else if Present(f, s) then |s.items| == 1 && CanonicalItem(f.ltype, s.items[0])
    else s == DefaultSlot(f)
  }

  predicate Canonical(fields: Fields, slots: seq<Slot>)
    decreases fields, 0
  {
    && |slots| == Len(fields)
    && (fields.More? ==> CanonicalSlot(fields.field, slots[0]) && Canonical(fields.rest, slots[1..]))
  }

  lemma {:induction false} CanonicalRestored(fields: Fields, slots: seq<Slot>)
    requires Canonical(fields, slots)
    ensures Restored(fields, slots) == slots
    decreases fields, 1
  {
    if fields.More? {
      CanonicalSlotRestored(fields.field, slots[0]);
      CanonicalRestored(fields.rest, slots[1..]);
      assert [slots[0]] + slots[1..] == slots;
    }
  }

  lemma {:induction false} CanonicalSlotRestored(f: Field, s: Slot)
    requires CanonicalSlot(f, s)
    ensures RestoredSlot(f, s) == s
    decreases f, 1
  {
    if f.htype.Repeated? {
      CanonicalItems(f.ltype, s.items);
    } else if Present(f, s) {
      CanonicalItems(f.ltype, s.items);
      assert RestoredItems(f.ltype, s.items) == [RestoredValue(f.ltype, s.items[0])];
    }
  }

  lemma {:induction false} CanonicalItems(lt: LType, items: seq<Value>)
    requires forall k :: 0 <= k < |items| ==> CanonicalItem(lt, items[k])
    ensures RestoredItems(lt, items) == items
    decreases lt, 1, |items|
  {
    if items != [] {
      if lt.Submessage? && items[0].Message? { CanonicalRestored(lt.fields, items[0].slots); }
      CanonicalItems(lt, items[1..]);
      assert [items[0]] + items[1..] == items;
    }
  }

  /** The round trip proper. */
  lemma RoundTrip(fields: Fields, slots: seq<Slot>)
    requires GoodFields(fields) && IsStruct(fields, slots) && Encodable(fields, slots) && |Wire(fields, slots)| < TWO_32
    requires Canonical(fields, slots)
    ensures Decode(fields, Wire(fields, slots)) == Some(slots) <==> Ends(fields, slots)
  {
    DecodeOfEncoded(fields, slots);
    CanonicalRestored(fields, slots);
  }

  /** A string that fills its buffer is written, and cannot be read back. */
  lemma FullStringIsLost()
    ensures
      var fields := More(Field(1, Text(1), Required, Blob([])), Last);
      var slots := [Slot(0, [Blob([65])])];
      && GoodFields(fields) && IsStruct(fields, slots) && Encodable(fields, slots) && Canonical(fields, slots)
      && Wire(fields, slots) == [10, 1, 65] && Decode(fields, Wire(fields, slots)) == None
  {
    var f := Field(1, Text(1), Required, Blob([]));
    var fields := More(f, Last);
    var slots := [Slot(0, [Blob([65])])];
    assert CString([65]) == [65] by { assert [65][1..] == []; }
    assert slots[1..] == [];
    assert Len(fields) == 1 && EachGood(Last);
    assert Tag(WT_STRING, 1) == [10] && Delimited([65]) == [1, 65];
    assert Wire(fields, slots) == WireField(f, slots[0]);
    DecodeOfEncoded(fields, slots);
  }

  // ---------- Field number zero ----------

  /** What the decoder should do with a field that its descriptor does not have. */
  function AfterSkipping(fields: Fields, p: Progress, wireType: nat, b: Bytes): Option<Progress>
    requires |p.slots| == Len(fields)
  {
    match SkipField(wireType, b)
    case None => None
    case Some(n) => GetFields(fields, p, b[n..])
  }

  ghost predicate AlwaysSkips(fields: Fields, wireType: nat, number: nat) {
    forall p: Progress, b: Bytes :: |p.slots| == Len(fields) ==>
      GetFields(fields, p, Tag(wireType, number) + b) == AfterSkipping(fields, p, wireType, b)
  }

  lemma KeyRoundTrip(wireType: nat, number: nat, rest: Bytes)
    requires wireType < 8 && number < 0x2000_0000 && (wireType > 0 || number > 0)
    ensures GetTag(Tag(wireType, number) + rest) == Some(Key(wireType, number, |Tag(wireType, number)|))
    ensures (Tag(wireType, number) + rest)[|Tag(wireType, number)|..] == rest
  {
    Varint32RoundTrip(number * 8 + wireType, rest);
  }

  /** A message without fields takes field number zero for its terminator: it decodes a bool, and fails where a
      skipped field would not, or the other way around. */
  lemma TerminatorIsDecoded(wireType: nat)
    requires 0 < wireType < 8
    ensures GetFields(Last, Progress([], {}), Tag(wireType, 0) + [5]) == Some(Progress([], {0}))
    ensures AfterSkipping(Last, Progress([], {}), wireType, [5]) == None
  {
    KeyRoundTrip(wireType, 0, [5]);
    assert Tag(wireType, 0) + [5] != [];
    assert IndexOf(Last, 0) == None;
    assert GetField(TERMINATOR, wireType, DefaultSlot(TERMINATOR), [5]) == Some(Decoded(Slot(0, [Int(1)]), 1));
    assert [5][1..] == [];
    assert {} + {0} == {0};
    assert GetFields(Last, Progress([], {0}), []) == Some(Progress([], {0}));
    assert SkipField(wireType, [5]) == None;
  }

  /** A field that the descriptor does not have is skipped by its wire type, whatever bytes follow, exactly if it
      is not field number zero of a message without fields. */
  lemma UnknownIsSkippedIff(fields: Fields, wireType: nat, number: nat)
    requires wireType < 8 && number < 0x2000_0000 && (wireType > 0 || number > 0) && IndexOf(fields, number).None?
    ensures AlwaysSkips(fields, wireType, number) <==> !(fields.Last? && number == 0)
  {
    if fields.Last? && number == 0 {
      TerminatorIsDecoded(wireType);
      var p, b := Progress([], {}), [5];
      assert GetFields(fields, p, Tag(wireType, number) + b) != AfterSkipping(fields, p, wireType, b);
    } else {
      forall p: Progress, b: Bytes | |p.slots| == Len(fields)
        ensures GetFields(fields, p, Tag(wireType, number) + b) == AfterSkipping(fields, p, wireType, b)
      {
        KeyRoundTrip(wireType, number, b);
        assert Tag(wireType, number) + b != [];
      }
    }
  }

  /** The bytes of a field of eight bytes that is cut off after one decode as a message without fields. */
  lemma CutFieldIsAccepted()
    ensures Decode(Last, [1, 5]) == Some([]) && SkipField(WT_64BIT, [5]) == None
  {
    TerminatorIsDecoded(WT_64BIT);
    assert Tag(WT_64BIT, 0) + [5] == [1, 5];
  }
}
