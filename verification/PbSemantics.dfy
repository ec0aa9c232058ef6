/** What the decoder makes of required fields that are missing, of unions and of fields that occur again
    (pb_decode.c decode_static_field, pb_decode_noinit). */
module PbSemantics {
  import opened Wrappers
  import opened Coding
  import opened PbWire
  import opened PbModel
  import opened PbCommon
  import opened PbRoundTrip

  // ---------- Required fields ----------

  /** Somewhere in the bytes a tag with the number can be read. */
  ghost predicate HasTag(b: Bytes, number: nat) {
    exists n, w, size :: 0 <= n < |b| && GetTag(b[n..]) == Some(Key(w, number, size))
  }

  lemma TagFurtherOn(b: Bytes, m: nat, number: nat)
    requires m <= |b| && HasTag(b[m..], number)
    ensures HasTag(b, number)
  {
    var n, w, size :| 0 <= n < |b[m..]| && GetTag(b[m..][n..]) == Some(Key(w, number, size));
    assert b[m..][n..] == b[m + n..];
  }

  /** No two required fields are counted alike. */
  lemma {:induction false} RanksDiffer(fields: Fields, i: nat, j: nat)
    requires i < j < Len(fields) && At(fields, i).htype.Required?
    ensures RequiredBefore(fields, i) < RequiredBefore(fields, j)
    decreases j
  {
    NextRequired(fields, j - 1);
    if i < j - 1 { RanksDiffer(fields, i, j - 1); } else { NextRequired(fields, i); }
  }

  /** One turn of the loop: it stops, or reads a tag and goes on behind its field. */
  lemma Next(fields: Fields, p: Progress, b: Bytes) returns (q: Progress, end: nat)
    requires |p.slots| == Len(fields) && fields.More? && GetFields(fields, p, b).Some?
    ensures |q.slots| == Len(fields) && end <= |b|
    ensures GetFields(fields, p, b) == if end == 0 then Some(q) else GetFields(fields, q, b[end..])
    ensures end == 0 ==> q == p
    ensures end > 0 ==>
      && GetTag(b).Some? && GetTag(b).value.Key?
      && var j := IndexOf(fields, GetTag(b).value.number);
         q.seen == if j.Some? && At(fields, j.value).htype.Required? then p.seen + {RequiredBefore(fields, j.value)} else p.seen
  {
    if b == [] || GetTag(b).value.EndOfMessage? {
      q, end := p, 0;
    } else {
      var key := GetTag(b).value;
      var rest := b[key.size..];
      match IndexOf(fields, key.number)
      case None =>
        q, end := p, key.size + SkipField(key.wireType, rest).value;
        assert rest[SkipField(key.wireType, rest).value..] == b[end..];
      case Some(j) =>
        var d := GetField(At(fields, j), key.wireType, p.slots[j], rest).value;
        q, end := Advance(fields, p, j, d.value), key.size + d.size;
        assert rest[d.size..] == b[end..];
    }
  }

  /** A required field that the loop has marked as seen has a tag in the bytes. */
  lemma {:induction false} SeenWasRead(fields: Fields, p: Progress, b: Bytes, i: nat)
    requires i < Len(fields) == |p.slots| && At(fields, i).htype.Required? && RequiredBefore(fields, i) !in p.seen
    requires GetFields(fields, p, b).Some? && RequiredBefore(fields, i) in GetFields(fields, p, b).value.seen
    ensures HasTag(b, At(fields, i).tag)
    decreases |b|
  {
    hide GetFields, GetTag, RequiredBefore;
    var q, end := Next(fields, p, b);
    var key := GetTag(b).value;
    assert end > 0;
    if key.number == At(fields, i).tag {
      assert b[0..] == b;
      assert HasTag(b, At(fields, i).tag);
    } else {
      if RequiredBefore(fields, i) in q.seen {
        var j := IndexOf(fields, key.number).value;
        if i < j { RanksDiffer(fields, i, j); } else { RanksDiffer(fields, j, i); }
      }
      SeenWasRead(fields, q, b[end..], i);
      TagFurtherOn(b, end, At(fields, i).tag);
    }
  }

  /** Bytes in which one of the first 64 required fields has no tag are refused. */
  lemma MissingRequiredIsRefused(fields: Fields, b: Bytes, i: nat)
    requires i < Len(fields) && At(fields, i).htype.Required? && RequiredBefore(fields, i) < 64
    requires !HasTag(b, At(fields, i).tag)
    ensures Decode(fields, b) == None
  {
    var p := Progress(Defaults(fields), {});
    if GetFields(fields, p, b).Some? {
      var q := GetFields(fields, p, b).value;
      if RequiredBefore(fields, i) in q.seen {
        SeenWasRead(fields, p, b, i);
      }
      RankBelowAll(fields, i);
      assert !AllSeen(fields, q.seen);
    }
  }

  lemma RankBelowAll(fields: Fields, i: nat)
    requires i < Len(fields) && At(fields, i).htype.Required?
    ensures RequiredBefore(fields, i) < RequiredBefore(fields, Len(fields))
  {
    NextRequired(fields, i);
    MoreRequired(fields, i + 1, Len(fields));
  }

  lemma {:induction false} MoreRequired(fields: Fields, i: nat, j: nat)
    requires i <= j <= Len(fields)
    ensures RequiredBefore(fields, i) <= RequiredBefore(fields, j)
    decreases j
  {
    if i < j {
      NextRequired(fields, j - 1);
      MoreRequired(fields, i, j - 1);
    }
  }

  // ---------- Unions ----------

  /** The slots once member `i` of a union holds `v`: the other members are unset, and no other field changes. */
  ghost predicate Holds(fields: Fields, before: seq<Slot>, after: seq<Slot>, i: nat, v: Value) {
    && i < Len(fields) == |before| == |after|
    && after[i] == Slot(1, [v])
    && forall k :: 0 <= k < Len(fields) && k != i ==>
         after[k] == if At(fields, k).htype == At(fields, i).htype then Slot(0, []) else before[k]
  }

  /** A written member of a union, whatever the union held before. */
  lemma MemberIsTaken(fields: Fields, p: Progress, i: nat, s: Slot, rest: Bytes) returns (q: Progress)
    requires DistinctTags(fields) && EachGood(fields) && i < Len(fields) == |p.slots|
    requires
      var f := At(fields, i);
      && f.htype.Oneof? && TypedSlot(f, s) && s.size == 1 && EncodableSlot(f, s) && |WireField(f, s)| < TWO_32
      && EndsItem(f.ltype, s.items[0])
    ensures |q.slots| == Len(fields) && q.seen == p.seen
    ensures Holds(fields, p.slots, q.slots, i, RestoredValue(At(fields, i).ltype, s.items[0]))
    ensures GetFields(fields, p, WireField(At(fields, i), s) + rest) == GetFields(fields, q, rest)
  {
    var f := At(fields, i);
    var item := WireItem(f.ltype, s.items[0]);
    assert p.slots[..] == p.slots;
    AtIndex(fields, p.slots, i);
    assert WireField(f, s) + rest == Tag(WireType(f.ltype), f.tag) + (item + rest);
    OneStep(fields, p, i, WireType(f.ltype), item + rest);
    assert (item + rest)[|item|..] == rest;
    ItemRoundTrip(f.ltype, false, if f.ltype.Submessage? then Message(Defaults(f.ltype.fields)) else FirstOf(p.slots[i]), s.items[0], rest);
    q := Advance(fields, p, i, Slot(1, [RestoredValue(f.ltype, s.items[0])]));
    forall k | 0 <= k < Len(fields) && k != i
      ensures q.slots[k] == if At(fields, k).htype == f.htype then Slot(0, []) else p.slots[k]
    {
      UnionAt(fields, p.slots, f.htype.union, k);
    }
  }

  /** Of two members of a union the last one stays, and the first is unset. */
  lemma LastMemberWins(fields: Fields, p: Progress, i: nat, j: nat, s: Slot, t: Slot, rest: Bytes) returns (q: Progress)
    requires DistinctTags(fields) && EachGood(fields) && i < Len(fields) == |p.slots| && j < Len(fields) && i != j
    requires At(fields, i).htype.Oneof? && At(fields, i).htype == At(fields, j).htype
    requires
      var f := At(fields, i);
      && TypedSlot(f, s) && s.size == 1 && EncodableSlot(f, s) && |WireField(f, s)| < TWO_32 && EndsItem(f.ltype, s.items[0])
    requires
      var g := At(fields, j);
      && TypedSlot(g, t) && t.size == 1 && EncodableSlot(g, t) && |WireField(g, t)| < TWO_32 && EndsItem(g.ltype, t.items[0])
    ensures |q.slots| == Len(fields) && q.seen == p.seen
    ensures q.slots[i] == Slot(0, []) && q.slots[j] == Slot(1, [RestoredValue(At(fields, j).ltype, t.items[0])])
    ensures forall k :: 0 <= k < Len(fields) && At(fields, k).htype != At(fields, i).htype ==> q.slots[k] == p.slots[k]
    ensures
      GetFields(fields, p, WireField(At(fields, i), s) + (WireField(At(fields, j), t) + rest)) == GetFields(fields, q, rest)
  {
    var between := MemberIsTaken(fields, p, i, s, WireField(At(fields, j), t) + rest);
    q := MemberIsTaken(fields, between, j, t, rest);
  }

  // ---------- Fields that occur again ----------

  /** An array that is packed when it is written takes entries with a tag of their own, too, as long as it has room. */
  lemma UnpackedEntryIsTaken(fields: Fields, p: Progress, i: nat, n: int, rest: Bytes)
    requires DistinctTags(fields) && EachGood(fields) && i < Len(fields) == |p.slots|
    requires
      var f := At(fields, i);
      f.htype.Repeated? && Packable(f.ltype) && Typed(f.ltype, Int(n)) && EncodableItem(f.ltype, Int(n))
    ensures
      var f := At(fields, i);
      var entry := RestoredValue(f.ltype, Int(n));
      GetFields(fields, p, Tag(WireType(f.ltype), f.tag) + (WireNumber(f.ltype, n) + rest))
        == if |p.slots[i].items| < f.htype.max
           then GetFields(fields, p.(slots := p.slots[i := Slot(p.slots[i].size, p.slots[i].items + [entry])]), rest)
           else None
  {
    var f := At(fields, i);
    var item := WireNumber(f.ltype, n);
    AtIndex(fields, p.slots, i);
    OneStep(fields, p, i, WireType(f.ltype), item + rest);
    NumberRoundTrip(f.ltype, n, rest);
    assert (item + rest)[|item|..] == rest;
  }

  /** A number, a string or bytes that occur again replace what was there. */
  lemma LastValueWins(fields: Fields, p: Progress, i: nat, s: Slot, t: Slot, rest: Bytes)
    requires DistinctTags(fields) && EachGood(fields) && i < Len(fields) == |p.slots|
    requires
      var f := At(fields, i);
      && (f.htype.Required? || f.htype.Optional?) && !f.ltype.Submessage?
      && TypedSlot(f, s) && EncodableSlot(f, s) && 0 < |WireField(f, s)| < TWO_32 && EndsItem(f.ltype, s.items[0])
      && TypedSlot(f, t) && EncodableSlot(f, t) && 0 < |WireField(f, t)| < TWO_32 && EndsItem(f.ltype, t.items[0])
    ensures
      var f := At(fields, i);
      GetFields(fields, p, WireField(f, s) + (WireField(f, t) + rest)) == GetFields(fields, p, WireField(f, t) + rest)
  {
    var f := At(fields, i);
    var one := ValueIsTaken(fields, p, i, s, WireField(f, t) + rest);
    var two := ValueIsTaken(fields, one, i, t, rest);
    var direct := ValueIsTaken(fields, p, i, t, rest);
    assert two.slots == direct.slots;
  }

  lemma ValueIsTaken(fields: Fields, p: Progress, i: nat, s: Slot, rest: Bytes) returns (q: Progress)
    requires DistinctTags(fields) && EachGood(fields) && i < Len(fields) == |p.slots|
    requires
      var f := At(fields, i);
      && (f.htype.Required? || f.htype.Optional?) && !f.ltype.Submessage?
      && TypedSlot(f, s) && EncodableSlot(f, s) && 0 < |WireField(f, s)| < TWO_32 && EndsItem(f.ltype, s.items[0])
    ensures
      var f := At(fields, i);
      var size := if f.htype == Optional(true) then 1 else p.slots[i].size;
      q == Progress(p.slots[i := Slot(size, [RestoredValue(f.ltype, s.items[0])])],
                    if f.htype.Required? then p.seen + {RequiredBefore(fields, i)} else p.seen)
    ensures GetFields(fields, p, WireField(At(fields, i), s) + rest) == GetFields(fields, q, rest)
  {
    var f := At(fields, i);
    var item := WireItem(f.ltype, s.items[0]);
    AtIndex(fields, p.slots, i);
    assert WireField(f, s) + rest == Tag(WireType(f.ltype), f.tag) + (item + rest);
    OneStep(fields, p, i, WireType(f.ltype), item + rest);
    assert (item + rest)[|item|..] == rest;
    ItemRoundTrip(f.ltype, false, FirstOf(p.slots[i]), s.items[0], rest);
    q := Advance(fields, p, i, Slot(if f.htype == Optional(true) then 1 else p.slots[i].size, [RestoredValue(f.ltype, s.items[0])]));
  }

  /** A single submessage field, unset so far, of a message without required fields. */
  ghost predicate MayMerge(fields: Fields, p: Progress, i: nat) {
    && DistinctTags(fields) && EachGood(fields) && i < Len(fields) == |p.slots|
    && var f := At(fields, i);
       && (f.htype.Required? || f.htype.Optional?) && f.ltype.Submessage?
       && RequiredBefore(f.ltype.fields, Len(f.ltype.fields)) == 0
       && p.slots[i].items == [Message(Defaults(f.ltype.fields))]
  }

  /** A submessage that occurs again is merged: both occurrences decode as one with the bytes of both. */
  lemma OccurrencesMerge(fields: Fields, p: Progress, i: nat, slots: seq<Slot>, more: Bytes, rest: Bytes)
    requires MayMerge(fields, p, i)
    requires
      var sub := At(fields, i).ltype.fields;
      && IsStruct(sub, slots) && Encodable(sub, slots) && Ends(sub, slots)
      && |Wire(sub, slots)| + |more| < TWO_32
    ensures
      var f := At(fields, i);
      var tag, bytes := Tag(WT_STRING, f.tag), Wire(f.ltype.fields, slots);
      GetFields(fields, p, tag + (Delimited(bytes) + (tag + (Delimited(more) + rest))))
        == GetFields(fields, p, tag + (Delimited(bytes + more) + rest))
  {
    var f := At(fields, i);
    var sub := f.ltype.fields;
    var bytes := Wire(sub, slots);
    AtIndex(fields, p.slots, i);
    MessageRoundTrip(sub, slots);
    BothAreOne(sub, slots, more);
    var again := Tag(WT_STRING, f.tag) + (Delimited(more) + rest);
    SubmessageIsTaken(fields, p, i, bytes, again);
    SubmessageIsTaken(fields, p, i, bytes + more, rest);
    var q := Advance(fields, p, i, Slot(if f.htype == Optional(true) then 1 else p.slots[i].size, [Message(Restored(sub, slots))]));
    RestoredLength(sub, slots);
    SubmessageIsTaken(fields, q, i, more, rest);
    match GetMessage(sub, Restored(sub, slots), more)
    case None =>
    case Some(m) =>
      var s := Slot(if f.htype == Optional(true) then 1 else p.slots[i].size, [Message(m)]);
      assert p.slots[i := q.slots[i]][i := s] == p.slots[i := s];
      assert Advance(fields, q, i, s) == Advance(fields, p, i, s);
  }

  /** Decoding on top of what was decoded is decoding both one after the other, if nothing is required. */
  lemma BothAreOne(sub: Fields, slots: seq<Slot>, more: Bytes)
    requires GoodFields(sub) && IsStruct(sub, slots) && Encodable(sub, slots) && Ends(sub, slots)
    requires |Wire(sub, slots)| < TWO_32 && RequiredBefore(sub, Len(sub)) == 0
    ensures |Restored(sub, slots)| == Len(sub)
    ensures GetMessage(sub, Defaults(sub), Wire(sub, slots) + more) == GetMessage(sub, Restored(sub, slots), more)
  {
    MessageInFront(sub, slots, more);
    assert SeenBefore(sub, Len(sub)) == {};
  }

  /** One occurrence of a single submessage: it is decoded on top of what the field holds. */
  lemma SubmessageIsTaken(fields: Fields, p: Progress, i: nat, body: Bytes, rest: Bytes)
    requires DistinctTags(fields) && EachGood(fields) && i < Len(fields) == |p.slots| && |body| < TWO_32
    requires
      var f := At(fields, i);
      && (f.htype.Required? || f.htype.Optional?) && f.ltype.Submessage?
      && |p.slots[i].items| == 1 && p.slots[i].items[0].Message? && |p.slots[i].items[0].slots| == Len(f.ltype.fields)
    ensures
      var f := At(fields, i);
      GetFields(fields, p, Tag(WT_STRING, f.tag) + (Delimited(body) + rest))
        == match GetMessage(f.ltype.fields, p.slots[i].items[0].slots, body)
           case None => None
           case Some(m) =>
             GetFields(fields, Advance(fields, p, i, Slot(if f.htype == Optional(true) then 1 else p.slots[i].size, [Message(m)])), rest)
  {
    var f := At(fields, i);
    AtIndex(fields, p.slots, i);
    OneStep(fields, p, i, WT_STRING, Delimited(body) + rest);
    DelimitedRoundTrip(body, rest);
    assert (Delimited(body) + rest)[|Delimited(body)|..] == rest;
  }

  // ---------- Values that do not fit ----------

  /** How many values an integer field of the size can hold. */
  function Values(size: nat): int {
    if size == 1 then 0x100 else if size == 2 then 0x1_0000 else if size == 4 then 0x1_0000_0000 else 0x1_0000_0000_0000_0000
  }

  /** An unsigned varint that the field's type cannot hold is an error. */
  lemma UnfitUnsignedIsRefused(size: nat, v: nat, rest: Bytes)
    requires size in {1, 2, 4, 8} && v < TWO_64
    ensures GetNumber(UnsignedInt(size), Varint(v) + rest) == if v < Values(size) then Some(Decoded(v, |Varint(v)|)) else None
  {
    hide GetVarint64, Varint;
    GetVarint64RoundTrip(v, rest);
  }

  /** A signed one is read from its low 32 bits, or from all of them for a field of eight bytes. */
  lemma UnfitSignedIsRefused(size: nat, v: nat, rest: Bytes)
    requires size in {1, 2, 4, 8} && v < TWO_64
    ensures
      var low := if size == 8 then v else v % 0x1_0000_0000;
      var all := if size == 8 then Values(8) else Values(4);
      var n := if low < all / 2 then low else low - all;
      GetNumber(SignedInt(size), Varint(v) + rest)
        == if -Values(size) <= 2 * n < Values(size) then Some(Decoded(n, |Varint(v)|)) else None
  {
    hide GetVarint64, Varint;
    GetVarint64RoundTrip(v, rest);
  }

  lemma UnfitZigZagIsRefused(size: nat, v: nat, rest: Bytes)
    requires size in {1, 2, 4, 8} && v < TWO_64
    ensures
      var n := if v % 2 == 0 then v / 2 else -(v / 2) - 1;
      GetNumber(ZigZagInt(size), Varint(v) + rest)
        == if -Values(size) <= 2 * n < Values(size) then Some(Decoded(n, |Varint(v)|)) else None
  {
    hide GetVarint64, Varint;
    GetVarint64RoundTrip(v, rest);
  }

  /** What the field decoders of bytes and strings make of a delimited value. */
  lemma UnfitBytesAreRefused(b: Bytes, rest: Bytes, max: nat)
    requires |b| < TWO_32
    ensures GetBlob(ByteArray(max), Delimited(b) + rest) == if |b| <= max then Some(Decoded(b, |Delimited(b)|)) else None
    ensures GetBlob(Text(max), Delimited(b) + rest) == if |b| < max then Some(Decoded(b, |Delimited(b)|)) else None
    ensures GetBlob(FixedBytes(max), Delimited(b) + rest) ==
      if |b| == max then Some(Decoded(b, |Delimited(b)|))
      else if b == [] then Some(Decoded(seq(max, i => 0), |Delimited(b)|)) else None
  {
    DelimitedRoundTrip(b, rest);
    assert |b| == max == 0 ==> seq(max, i => 0) == b;
  }

  /** A packed array with more entries than there is room for is an error. */
  lemma {:induction false} PackedOverflow(lt: LType, before: seq<Value>, max: nat, items: seq<Value>)
    requires Packable(lt) && GoodItems(lt, items) && items != [] && |before| + |items| > max
    ensures GetPacked(lt, before, max, WireItems(lt, items)) == None
    decreases |items|
  {
    var rest := WireItems(lt, items[1..]);
    NumberRoundTrip(lt, items[0].n, rest);
    assert WireItems(lt, items) == WireItem(lt, items[0]) + rest != [];
    if |before| < max {
      PackedStep(lt, before, max, items[0], rest);
      PackedOverflow(lt, before + [RestoredValue(lt, items[0])], max, items[1..]);
    }
  }

  // ---------- The empty message ----------

  lemma {:induction false} NoneRequired(fields: Fields, n: nat)
    requires n <= Len(fields) && forall i :: 0 <= i < n ==> !At(fields, i).htype.Required?
    ensures RequiredBefore(fields, n) == 0
    decreases n
  {
    if n > 0 {
      NoneRequired(fields, n - 1);
      NextRequired(fields, n - 1);
    }
  }

  /** What a field starts with: its flag off and its initial value, an empty array, an unset union. */
  ghost predicate IsInitial(f: Field, s: Slot) {
    && s.size == 0
    && (f.htype.Repeated? || f.htype.Oneof? ==> s.items == [])
    && (f.htype.Required? || f.htype.Optional? ==>
          |s.items| == 1 && if f.ltype.Submessage? then s.items[0].Message? else s.items[0] == f.init)
  }

  /** No bytes decode exactly if no field is required, and then each field is what it starts with. */
  lemma EmptyMessage(fields: Fields)
    ensures Decode(fields, []).Some? <==> forall i :: 0 <= i < Len(fields) ==> !At(fields, i).htype.Required?
    ensures
      var d := Decode(fields, []);
      d.Some? ==> |d.value| == Len(fields) && forall i :: 0 <= i < Len(fields) ==> IsInitial(At(fields, i), d.value[i])
  {
    var seen: set<nat> := {};
    assert GetFields(fields, Progress(Defaults(fields), seen), []) == Some(Progress(Defaults(fields), seen));
    NoneSeenIff(fields, seen);
    assert Decode(fields, []) == if AllSeen(fields, seen) then Some(Defaults(fields)) else None;
    forall i | 0 <= i < Len(fields)
      ensures IsInitial(At(fields, i), Defaults(fields)[i])
    {
      AtIndex(fields, Defaults(fields), i);
    }
  }

  lemma NoneSeenIff(fields: Fields, seen: set<nat>)
    requires seen == {}
    ensures AllSeen(fields, seen) <==> forall i :: 0 <= i < Len(fields) ==> !At(fields, i).htype.Required?
  {
    if i :| 0 <= i < Len(fields) && At(fields, i).htype.Required? {
      RankBelowAll(fields, i);
      assert 0 !in seen;
    } else {
      NoneRequired(fields, Len(fields));
    }
  }

  // ---------- The end of a message, and known encodings ----------

  /** A zero in the place of a tag ends the message, whatever follows it. */
  lemma {:induction false} ZeroEndsMessage(fields: Fields, p: Progress, rest: Bytes)
    requires |p.slots| == Len(fields)
    ensures GetFields(fields, p, [0] + rest) == Some(p)
  {
    assert ([0] + rest)[0] == 0;
  }

  lemma ShortVarint(v: nat)
    requires v < 0x20_0000
    ensures Varint(v) ==
      if v < 0x80 then [v] else if v < 0x4000 then [v % 0x80 + 0x80, v / 0x80] else [v % 0x80 + 0x80, v / 0x80 % 0x80 + 0x80, v / 0x4000]
  {
    EncodeVarint32IsVarint(v);
  }

  lemma FixedOne()
    ensures Fixed32(1) == [1, 0, 0, 0] && Fixed64(1) == [1, 0, 0, 0, 0, 0, 0, 0]
  {
    FixedIsLittleEndian(1);
    FixedIsLittleEndian(0);
  }

  lemma RequiredField(f: Field, v: Value)
    requires f.htype.Required?
    ensures WireField(f, Slot(0, [v])) == Tag(WireType(f.ltype), f.tag) + WireItem(f.ltype, v)
  {
  }

  lemma KnownItems()
    ensures WireItem(SignedInt(4), Int(150)) == [0x96, 0x01] && WireItem(ZigZagInt(4), Int(-2)) == [0x03]
    ensures WireItem(Fixed32Bit, Int(1)) == [1, 0, 0, 0] && WireItem(Fixed64Bit, Int(1)) == [1, 0, 0, 0, 0, 0, 0, 0]
    ensures WireItem(ByteArray(9), Blob([0x74, 0x65])) == [2, 0x74, 0x65]
    ensures Tag(WT_VARINT, 1) == [0x08] && Tag(WT_32BIT, 1) == [0x0d] && Tag(WT_64BIT, 1) == [0x09] && Tag(WT_STRING, 2) == [0x12]
  {
    ShortVarint(150);
    FixedOne();
    hide Fixed;
  }

  /** The examples of the Protocol Buffers encoding guide: varints, fixed sizes, bytes, a packed array, a submessage. */
  lemma KnownFields()
    ensures WireField(Field(1, SignedInt(4), Required, Int(0)), Slot(0, [Int(150)])) == [0x08, 0x96, 0x01]
    ensures WireField(Field(1, ZigZagInt(4), Required, Int(0)), Slot(0, [Int(-2)])) == [0x08, 0x03]
    ensures WireField(Field(1, Fixed32Bit, Required, Int(0)), Slot(0, [Int(1)])) == [0x0d, 1, 0, 0, 0]
    ensures WireField(Field(1, Fixed64Bit, Required, Int(0)), Slot(0, [Int(1)])) == [0x09, 1, 0, 0, 0, 0, 0, 0, 0]
    ensures WireField(Field(2, ByteArray(9), Required, Blob([])), Slot(0, [Blob([0x74, 0x65])])) == [0x12, 2, 0x74, 0x65]
  {
    hide WireField, WireItem, Tag;
    KnownItems();
    RequiredField(Field(1, SignedInt(4), Required, Int(0)), Int(150));
    RequiredField(Field(1, ZigZagInt(4), Required, Int(0)), Int(-2));
    RequiredField(Field(1, Fixed32Bit, Required, Int(0)), Int(1));
    RequiredField(Field(1, Fixed64Bit, Required, Int(0)), Int(1));
    RequiredField(Field(2, ByteArray(9), Required, Blob([])), Blob([0x74, 0x65]));
  }

  lemma KnownPackedArray()
    ensures
      WireField(Field(4, SignedInt(4), Repeated(3), Int(0)), Slot(0, [Int(3), Int(270), Int(86942)]))
        == [0x22, 0x06, 0x03, 0x8e, 0x02, 0x9e, 0xa7, 0x05]
  {
    var lt := SignedInt(4);
    var items := [Int(3), Int(270), Int(86942)];
    ShortVarint(3);
    ShortVarint(270);
    ShortVarint(86942);
    assert items[1..] == [Int(270), Int(86942)] && items[1..][1..] == [Int(86942)] && items[1..][1..][1..] == [];
    assert WireItem(lt, Int(3)) == [0x03] && WireItem(lt, Int(270)) == [0x8e, 0x02] && WireItem(lt, Int(86942)) == [0x9e, 0xa7, 0x05];
    assert WireItems(lt, items[1..][1..]) == [0x9e, 0xa7, 0x05];
    assert WireItems(lt, items[1..]) == [0x8e, 0x02] + [0x9e, 0xa7, 0x05];
    assert WireItems(lt, items) == [0x03, 0x8e, 0x02, 0x9e, 0xa7, 0x05];
    assert Tag(WT_STRING, 4) == [0x22] && Varint(6) == [0x06];
  }

  lemma KnownSubmessage()
    ensures
      var inner := More(Field(1, SignedInt(4), Required, Int(0)), Last);
      var f := Field(3, Submessage(inner), Required, Message([]));
      WireField(f, Slot(0, [Message([Slot(0, [Int(150)])])])) == [0x1a, 0x03, 0x08, 0x96, 0x01]
  {
    var inner := More(Field(1, SignedInt(4), Required, Int(0)), Last);
    var slots := [Slot(0, [Int(150)])];
    KnownFields();
    assert slots[1..] == [];
    assert Wire(inner, slots) == [0x08, 0x96, 0x01];
    assert Tag(WT_STRING, 3) == [0x1a] && Delimited([0x08, 0x96, 0x01]) == [0x03, 0x08, 0x96, 0x01];
  }
}
