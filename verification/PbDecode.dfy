/** Decoding a message from a stream (pb_decode.c). */
module PbDecode {
  import opened Wrappers
  import opened Coding
  import opened PbWire
  import opened PbModel
  import opened PbCommon
  import opened PbStream

  // ---------- Structs in memory ----------

  /** The submessages that lie in a struct have the shape of their descriptors. */
  ghost predicate Shaped(fields: Fields, slots: seq<Slot>)
    decreases fields, 0
  {
    && |slots| == Len(fields)
    && (fields.More? ==> ShapedSlot(fields.field, slots[0]) && Shaped(fields.rest, slots[1..]))
  }

  ghost predicate ShapedSlot(f: Field, s: Slot)
    decreases f, 1
  {
    (f.htype.Required? || f.htype.Optional?) && f.ltype.Submessage? ==> |s.items| == 1 && ShapedValue(f.ltype, s.items[0])
  }

  ghost predicate ShapedValue(lt: LType, v: Value)
    decreases lt, 1
  {
    lt.Submessage? ==> v.Message? && Shaped(lt.fields, v.slots)
  }

  lemma {:induction false} DefaultsShaped(fields: Fields)
    ensures Shaped(fields, Defaults(fields))
    decreases fields
  {
    if fields.More? {
      DefaultsShaped(fields.rest);
      if fields.field.ltype.Submessage? {
        DefaultsShaped(fields.field.ltype.fields);
        assert ShapedValue(fields.field.ltype, DefaultValue(fields.field));
      }
      assert Defaults(fields)[1..] == Defaults(fields.rest);
    }
  }

  lemma {:induction false} ShapedAt(fields: Fields, slots: seq<Slot>, i: nat)
    requires Shaped(fields, slots) && i < Len(fields)
    ensures ShapedSlot(At(fields, i), slots[i])
    decreases fields
  {
    if i > 0 { ShapedAt(fields.rest, slots[1..], i - 1); }
  }

  lemma {:induction false} UpdateShaped(fields: Fields, slots: seq<Slot>, i: nat, s: Slot)
    requires Shaped(fields, slots) && i < Len(fields) && ShapedSlot(At(fields, i), s)
    ensures Shaped(fields, slots[i := s])
    decreases fields
  {
    if i > 0 {
      UpdateShaped(fields.rest, slots[1..], i - 1, s);
      assert slots[i := s][1..] == slots[1..][i - 1 := s];
    } else {
      assert slots[0 := s][1..] == slots[1..];
    }
  }

  lemma {:induction false} ClearShaped(fields: Fields, slots: seq<Slot>, union: nat)
    requires Shaped(fields, slots)
    ensures Shaped(fields, ClearUnion(fields, slots, union))
    decreases fields
  {
    if fields.More? {
      ClearShaped(fields.rest, slots[1..], union);
      assert ClearUnion(fields, slots, union)[1..] == ClearUnion(fields.rest, slots[1..], union);
    }
  }

  lemma SetSlotShaped(fields: Fields, slots: seq<Slot>, i: nat, s: Slot)
    requires Shaped(fields, slots) && i < Len(fields) && ShapedSlot(At(fields, i), s)
    ensures Shaped(fields, SetSlot(fields, slots, i, s))
  {
    var f := At(fields, i);
    if f.htype.Oneof? {
      ClearShaped(fields, slots, f.htype.union);
      UpdateShaped(fields, ClearUnion(fields, slots, f.htype.union), i, s);
    } else {
      UpdateShaped(fields, slots, i, s);
    }
  }

  /** pb_message_set_to_defaults and pb_field_set_to_default. */
  method SetToDefaults(fields: Fields) returns (slots: seq<Slot>)
    ensures slots == Defaults(fields) && Shaped(fields, slots)
    decreases Depth(fields)
  {
    DefaultsShaped(fields);
    var iter := new FieldIter(fields);
    slots := [];
    if fields.Last? {
      return;
    }
    var more := true;
    while more
      invariant iter.Valid() && iter.start == fields && fresh(iter) && |slots| <= Len(fields)
      invariant if more then iter.pos == |slots| < Len(fields) else |slots| == Len(fields)
      invariant slots == Defaults(fields)[..|slots|]
      decreases Len(fields) - |slots|
    {
      var f := At(fields, iter.pos);
      DefaultAt(fields, iter.pos);
      var s := Slot(0, []);
      if !f.htype.Repeated? && !f.htype.Oneof? {
        if f.ltype.Submessage? {
          var sub := SetToDefaults(f.ltype.fields);
          s := Slot(0, [Message(sub)]);
        } else {
          s := Slot(0, [f.init]);
        }
      }
      slots := slots + [s];
      more := iter.Next();
    }
  }

  lemma {:induction false} DefaultAt(fields: Fields, i: nat)
    requires i < Len(fields)
    ensures Defaults(fields)[i] == DefaultSlot(At(fields, i)) && TypeDepth(At(fields, i).ltype) < Depth(fields)
    decreases fields
  {
    if i > 0 { DefaultAt(fields.rest, i - 1); }
  }

  // ---------- Field decoders ----------

  /** pb_dec_bool, pb_dec_varint, pb_dec_uvarint, pb_dec_svarint, pb_dec_fixed32 and pb_dec_fixed64. */
  method DecodeNumber(stream: IStream, lt: LType) returns (ok: bool, n: int)
    requires Packable(lt) && InMemory(stream.Now())
    modifies stream
    ensures Got(old(stream.Now()), stream.Now(), ok, n, GetNumber(lt, Left(old(stream.Now()))))
  {
    n := 0;
    match lt
    case Bool =>
      var value, eof;
      ok, value, eof := stream.DecodeVarint32();
      n := if value != 0 then 1 else 0;
    case SignedInt(size) =>
      var value;
      ok, value := stream.DecodeVarint();
      if !ok { return; }
      if !IsSize(size) { return false, 0; }
      n := if size == 8 then AsSigned(value) else Low32(value);
      if !(-Bits(size) <= n < Bits(size)) { return false, n; }
    case UnsignedInt(size) =>
      var value;
      ok, value := stream.DecodeVarint();
      if !ok { return; }
      if !IsSize(size) || value >= 2 * Bits(size) { return false, value; }
      n := value;
    case ZigZagInt(size) =>
      var value;
      ok, value := stream.DecodeVarint();
      if !ok { return; }
      var half: int := value / 2;
      n := if value % 2 == 1 then -half - 1 else half;
      if !IsSize(size) || !(-Bits(size) <= n < Bits(size)) { return false, n; }
    case Fixed32Bit =>
      var bytes;
      ok, bytes := stream.Read(4);
      if !ok { return; }
      n := DecodeFixed(bytes);
    case Fixed64Bit =>
      var bytes;
      ok, bytes := stream.Read(8);
      if !ok { return; }
      n := DecodeFixed(bytes);
  }

  /** pb_dec_bytes, pb_dec_string and pb_dec_fixed_length_bytes. */
  method DecodeBlob(stream: IStream, lt: LType) returns (ok: bool, b: Bytes)
    requires IsBlob(lt) && InMemory(stream.Now())
    modifies stream
    ensures Got(old(stream.Now()), stream.Now(), ok, b, GetBlob(lt, Left(old(stream.Now()))))
  {
    ghost var before := stream.Now();
    b := [];
    var size, eof;
    ok, size, eof := stream.DecodeVarint32();
    if !ok {
      return;
    }
    if lt.ByteArray? && size > lt.max { return false, b; }
    if lt.Text? && size + 1 > lt.max { return false, b; }
    if lt.FixedBytes? && size == 0 {
      return true, seq(lt.length, i => 0);
    }
    if lt.FixedBytes? && size != lt.length { return false, b; }
    ghost var header := before.bytesLeft - stream.bytesLeft;
    LeftMoved(before, header);
    ok, b := stream.Read(size);
    if ok {
      MovedTwice(before, header, size);
      assert Left(before)[header..][..size] == Left(before)[header..header + size];
    }
  }

  /** The field decoders by type. A submessage is decoded from a substream; as an array entry it starts
      from defaults, otherwise from what the struct holds. */
  method DecodeItem(stream: IStream, lt: LType, entry: bool, before: Value) returns (ok: bool, v: Value)
    requires InMemory(stream.Now()) && GoodType(lt) && (entry || ShapedValue(lt, before))
    modifies stream
    ensures Got(old(stream.Now()), stream.Now(), ok, v, GetItem(lt, entry, before, Left(old(stream.Now()))))
    ensures ok ==> ShapedValue(lt, v)
    decreases TypeDepth(lt), 3
  {
    if lt.Submessage? {
      ok, v := DecodeSubmessage(stream, lt.fields, entry, before);
    } else if IsBlob(lt) {
      var b;
      ok, b := DecodeBlob(stream, lt);
      v := Blob(b);
    } else {
      var n;
      ok, n := DecodeNumber(stream, lt);
      v := Int(n);
    }
  }

  /** pb_dec_submessage. */
  method DecodeSubmessage(stream: IStream, fields: Fields, entry: bool, before: Value) returns (ok: bool, v: Value)
    requires InMemory(stream.Now()) && GoodFields(fields) && (entry || ShapedValue(Submessage(fields), before))
    modifies stream
    ensures Got(old(stream.Now()), stream.Now(), ok, v, GetItem(Submessage(fields), entry, before, Left(old(stream.Now()))))
    ensures ok ==> ShapedValue(Submessage(fields), v)
    decreases Depth(fields), 2
  {
    v := before;
    var sub, slots;
    ok, sub := stream.MakeSubstream();
    if !ok {
      return;
    }
    ghost var start, parent := sub.Now(), stream.Now();
    if entry {
      ok, slots := Decode(sub, fields);
    } else {
      ok, slots := DecodeNoInit(sub, fields, before.slots);
    }
    ClosedStays(old(stream.Now()), parent, start, sub.Now(), GetDelimited(Left(old(stream.Now()))).value.size, ok);
    stream.CloseSubstream(sub);
    v := Message(slots);
  }

  /** pb_decode. */
  method Decode(stream: IStream, fields: Fields) returns (ok: bool, slots: seq<Slot>)
    requires InMemory(stream.Now()) && GoodFields(fields)
    modifies stream
    ensures Consumed(old(stream.Now()), stream.Now(), ok)
    ensures ok <==> PbModel.Decode(fields, Left(old(stream.Now()))).Some?
    ensures ok ==> PbModel.Decode(fields, Left(old(stream.Now()))) == Some(slots) && Shaped(fields, slots)
    decreases Depth(fields), 1
  {
    slots := SetToDefaults(fields);
    ok, slots := DecodeNoInit(stream, fields, slots);
  }

  /** decode_static_field. */
  method DecodeField(stream: IStream, wireType: nat, f: Field, s: Slot) returns (ok: bool, t: Slot)
    requires InMemory(stream.Now()) && GoodType(f.ltype) && ShapedSlot(f, s)
    modifies stream
    ensures Got(old(stream.Now()), stream.Now(), ok, t, GetField(f, wireType, s, Left(old(stream.Now()))))
    ensures ok ==> ShapedSlot(f, t)
    decreases TypeDepth(f.ltype), 5
  {
    t := s;
    var v;
    match f.htype
    case Required =>
      ok, v := DecodeItem(stream, f.ltype, false, FirstOf(s));
      t := Slot(s.size, [v]);
    case Optional(flag) =>
      ok, v := DecodeItem(stream, f.ltype, false, FirstOf(s));
      t := Slot(if flag then 1 else s.size, [v]);
    case Oneof(_) =>
      var before := FirstOf(s);
      if f.ltype.Submessage? {
        var slots := SetToDefaults(f.ltype.fields);
        before := Message(slots);
      }
      ok, v := DecodeItem(stream, f.ltype, false, before);
      t := Slot(1, [v]);
    case Repeated(max) =>
      if wireType == WT_STRING && Packable(f.ltype) {
        var items;
        ok, items := DecodePacked(stream, f.ltype, s.items, max);
        t := Slot(s.size, items);
      } else {
        if |s.items| >= max {
          return false, s;
        }
        ok, v := DecodeItem(stream, f.ltype, true, Int(0));
        t := Slot(s.size, s.items + [v]);
      }
  }

  /** The packed array of a field, from a substream. */
  method DecodePacked(stream: IStream, lt: LType, before: seq<Value>, max: nat) returns (ok: bool, items: seq<Value>)
    requires InMemory(stream.Now()) && Packable(lt)
    modifies stream
    ensures Got(old(stream.Now()), stream.Now(), ok, items, PackedFrom(lt, before, max, Left(old(stream.Now()))))
  {
    items := before;
    var sub;
    ok, sub := stream.MakeSubstream();
    if !ok {
      return;
    }
    ghost var start, parent := sub.Now(), stream.Now();
    var status;
    status, items := DecodeEntries(sub, lt, before, max);
    if sub.bytesLeft != 0 {
      return false, items;
    }
    ClosedStays(old(stream.Now()), parent, start, sub.Now(), GetDelimited(Left(old(stream.Now()))).value.size, status);
    stream.CloseSubstream(sub);
    ok := status;
  }

  /** The loop of decode_static_field over a packed array. */
  method DecodeEntries(sub: IStream, lt: LType, before: seq<Value>, max: nat) returns (status: bool, items: seq<Value>)
    requires InMemory(sub.Now()) && Packable(lt)
    modifies sub
    ensures Consumed(old(sub.Now()), sub.Now(), status)
    ensures
      GetPacked(lt, before, max, Left(old(sub.Now()))) == if status && sub.bytesLeft == 0 then Some(items) else None
  {
    ghost var start := sub.Now();
    items := before;
    status := true;
    assert Left(start)[0..] == Left(start);
    while status && sub.bytesLeft > 0 && |items| < max
      invariant Consumed(start, sub.Now(), status)
      invariant
        GetPacked(lt, before, max, Left(start)) == if status then GetPacked(lt, items, max, Left(sub.Now())) else None
      decreases status, sub.bytesLeft
    {
      ghost var now := sub.Now();
      var n;
      status, n := DecodeNumber(sub, lt);
      if status {
        EntryRead(start, now, sub.Now());
        items := items + [Int(n)];
      }
    }
  }

  lemma EntryRead(start: Input, now: Input, after: Input)
    requires Consumed(start, now, true)
    requires after.bytesLeft <= now.bytesLeft && after == Moved(now, now.bytesLeft - after.bytesLeft)
    ensures Consumed(start, after, true) && Left(after) == Left(now)[now.bytesLeft - after.bytesLeft..]
  {
    LeftMoved(now, now.bytesLeft - after.bytesLeft);
    MovedTwice(start, start.bytesLeft - now.bytesLeft, now.bytesLeft - after.bytesLeft);
  }

  ghost function PackedFrom(lt: LType, before: seq<Value>, max: nat, b: Bytes): Option<Decoded<seq<Value>>> {
    match GetDelimited(b)
    case None => None
    case Some(d) =>
      match GetPacked(lt, before, max, d.value)
      case None => None
      case Some(items) => Some(Decoded(items, d.size))
  }
  // ---------- The required fields ----------

  /** The bits of `fields_seen`, 32 to a word; a word is the set of its bits that are one. */
  type Words = seq<set<nat>>

  /** The words have the bits of the required fields seen, those of the first 64. */
  ghost predicate Marks(words: Words, seen: set<nat>) {
    |words| == 2 && forall w: nat, b: nat :: w < 2 ==> (b in words[w] <==> b < 32 && 32 * w + b in seen)
  }

  method Mark(words: Words, index: nat, ghost seen: set<nat>) returns (marked: Words)
    requires Marks(words, seen)
    ensures Marks(marked, seen + {index})
  {
    marked := words;
    if index < MAX_REQUIRED {
      var w := index / 32;
      marked := words[w := words[w] + {index % 32}];
    }
  }

  lemma {:induction false} RequiredBelow(fields: Fields, i: nat)
    requires i < Len(fields)
    ensures RequiredBefore(fields, i) + (if At(fields, i).htype.Required? then 1 else 0) <= RequiredBefore(fields, Len(fields))
    decreases fields
  {
    if i > 0 { RequiredBelow(fields.rest, i - 1); }
  }

  /** The number of required fields, by going on to the end of the descriptor. The terminator looks like a
      required field, too, and is not counted. */
  method CountRequired(iter: FieldIter) returns (count: nat)
    requires iter.Valid() && EachGood(iter.start)
    modifies iter
    ensures count == RequiredBefore(old(iter.start), Len(old(iter.start)))
  {
    ghost var fields := iter.start;
    count := iter.requiredFieldIndex;
    var lastRequired := iter.Type().Required?;
    var more := iter.Next();
    while more
      invariant iter.Valid() && iter.start == fields
      invariant fields.Last? ==> !more && count == 0
      invariant
        fields.More? ==>
          var last := if more then iter.pos - 1 else Len(fields) - 1;
          last >= 0 && count == RequiredBefore(fields, last) && lastRequired == At(fields, last).htype.Required?
      invariant !more ==> iter.pos == 0
      decreases if more then Len(fields) - iter.pos else -1
    {
      count := iter.requiredFieldIndex;
      lastRequired := iter.Type().Required?;
      more := iter.Next();
    }
    if fields.More? { NextRequired(fields, Len(fields) - 1); }
    if lastRequired && iter.Tag() != 0 {
      count := count + 1;
    }
  }

  /** The end of pb_decode_noinit: compares the words with what they must be if all required fields were seen. */
  method CheckRequired(iter: FieldIter, words: Words, ghost seen: set<nat>) returns (ok: bool)
    requires iter.Valid() && EachGood(iter.start) && Marks(words, seen)
    requires iter.start.More? ==> seen <= Below(RequiredBefore(iter.start, Len(iter.start)))
    modifies iter
    ensures ok <==> AllSeen(old(iter.start), seen)
  {
    var count := CountRequired(iter);
    if count > MAX_REQUIRED {
      count := MAX_REQUIRED;
    }
    ok := CheckWords(words, count, seen);
  }

  method CheckWords(words: Words, count: nat, ghost seen: set<nat>) returns (ok: bool)
    requires Marks(words, seen) && count <= MAX_REQUIRED && (0 < count < MAX_REQUIRED ==> seen <= Below(count))
    ensures ok <==> forall k :: 0 <= k < count ==> k in seen
  {
    var i := 0;
    while i < count / 32
      invariant i <= count / 32 <= 2
      invariant forall k :: 0 <= k < 32 * i ==> k in seen
    {
      WholeWord(words[i], seen, 32 * i, 32);
      if words[i] != Below(32) {
        return false;
      }
      i := i + 1;
    }
    if count % 32 != 0 {
      WholeWord(words[count / 32], seen, 32 * (count / 32), count % 32);
      if words[count / 32] != Below(count % 32) {
        return false;
      }
    }
    return true;
  }

  /** A word with no bit beyond its first `n` is all ones exactly if all of these are seen. */
  lemma WholeWord(word: set<nat>, seen: set<nat>, base: nat, n: nat)
    requires n <= 32 && forall b: nat :: b in word <==> b < 32 && base + b in seen
    requires forall b: nat :: b in word ==> b < n
    ensures word == Below(n) <==> forall k :: base <= k < base + n ==> k in seen
  {
    var all := Below(n);
    if word == all {
      forall k | base <= k < base + n ensures k in seen {
        assert k - base in all;
      }
    }
    if forall k :: base <= k < base + n ==> k in seen {
      forall b: nat ensures b in word <==> b in all {
        assert b < n ==> base + b in seen;
      }
    }
  }

  // ---------- Messages ----------

  /** What comes after a tag: a field that is not known is skipped, one that is known decoded. */
  ghost function Body(fields: Fields, p: Progress, wireType: nat, number: nat, b: Bytes): (r: Option<Decoded<Progress>>)
    requires |p.slots| == Len(fields)
    ensures r.Some? ==> |r.value.value.slots| == Len(fields) && r.value.size <= |b|
  {
    match IndexOf(fields, number)
    case None =>
      if fields.Last? && number == 0 then
        match GetField(TERMINATOR, wireType, DefaultSlot(TERMINATOR), b)
        case None => None
        case Some(d) => Some(Decoded(p.(seen := p.seen + {0}), d.size))
      else
        (match PbWire.SkipField(wireType, b)
         case None => None
         case Some(n) => Some(Decoded(p, n)))
    case Some(i) =>
      match GetField(At(fields, i), wireType, p.slots[i], b)
      case None => None
      case Some(d) => Some(Decoded(Advance(fields, p, i, d.value), d.size))
  }

  lemma TagAndBody(fields: Fields, p: Progress, b: Bytes)
    requires |p.slots| == Len(fields) && b != [] && GetTag(b).Some? && GetTag(b).value.Key?
    ensures
      var key := GetTag(b).value;
      var rest := b[key.size..];
      var body := Body(fields, p, key.wireType, key.number, rest);
      GetFields(fields, p, b) == if body.None? then None else GetFields(fields, body.value.value, rest[body.value.size..])
  {
  }

  /** The state of the decoding loop. */
  ghost predicate Going(fields: Fields, p: Progress, words: Words) {
    && Shaped(fields, p.slots) && Marks(words, p.seen)
    && (fields.More? ==> p.seen <= Below(RequiredBefore(fields, Len(fields))))
  }

  /** The field that the iterator has found: it is marked as seen, and decoded into the struct. */
  method DecodeKnown(stream: IStream, iter: FieldIter, wireType: nat, slots: seq<Slot>, words: Words, ghost seen: set<nat>)
    returns (ok: bool, next: seq<Slot>, marked: Words, ghost nextSeen: set<nat>)
    requires InMemory(stream.Now()) && iter.Valid() && iter.start.More? && GoodFields(iter.start)
    requires Going(iter.start, Progress(slots, seen), words)
    modifies stream
    ensures InMemory(stream.Now()) && Stays(old(stream.Now()), stream.Now())
    ensures
      var d := GetField(At(iter.start, iter.pos), wireType, slots[iter.pos], Left(old(stream.Now())));
      && (ok <==> d.Some?)
      && (ok ==>
            && d.value.size <= old(stream.bytesLeft) && stream.Now() == Moved(old(stream.Now()), d.value.size)
            && Progress(next, nextSeen) == Advance(iter.start, Progress(slots, seen), iter.pos, d.value.value)
            && Going(iter.start, Progress(next, nextSeen), marked))
    decreases Depth(iter.start), 0, 0
  {
    ghost var fields := iter.start;
    var f := At(iter.start, iter.pos);
    next, marked, nextSeen := slots, words, seen;
    FieldAt(fields, slots, iter.pos);
    ShapedAt(fields, slots, iter.pos);
    GoodAt(fields, iter.pos);
    if f.htype.Required? {
      RequiredBelow(fields, iter.pos);
      marked := Mark(words, iter.requiredFieldIndex, seen);
      nextSeen := seen + {RequiredBefore(fields, iter.pos)};
    }
    var s;
    ok, s := DecodeField(stream, wireType, f, slots[iter.pos]);
    if !ok {
      return;
    }
    SetSlotShaped(fields, slots, iter.pos, s);
    next := SetSlot(iter.start, slots, iter.pos, s);
  }

  method DecodeBody(stream: IStream, iter: FieldIter, wireType: nat, number: nat, slots: seq<Slot>, words: Words,
                    ghost seen: set<nat>)
    returns (ok: bool, next: seq<Slot>, marked: Words, ghost nextSeen: set<nat>)
    requires InMemory(stream.Now()) && iter.Valid() && GoodFields(iter.start)
    requires Going(iter.start, Progress(slots, seen), words)
    modifies stream, iter
    ensures iter.Valid() && iter.start == old(iter.start)
    ensures
      Got(old(stream.Now()), stream.Now(), ok, Progress(next, nextSeen),
          Body(iter.start, Progress(slots, seen), wireType, number, Left(old(stream.Now()))))
    ensures Going(iter.start, Progress(next, nextSeen), marked)
    decreases Depth(iter.start), 0, 1
  {
    next, marked, nextSeen := slots, words, seen;
    var found := iter.Find(number);
    if !found {
      ok := stream.SkipField(wireType);
      return;
    }
    if iter.start.Last? {
      var s;
      marked := Mark(words, iter.requiredFieldIndex, seen);
      nextSeen := seen + {0};
      ok, s := DecodeField(stream, wireType, TERMINATOR, DefaultSlot(TERMINATOR));
      return;
    }
    ok, next, marked, nextSeen := DecodeKnown(stream, iter, wireType, slots, words, seen);
    if !ok {
      next, marked, nextSeen := slots, words, seen;
    }
  }

  /** One turn of the loop of pb_decode_noinit: a tag and its field. */
  method DecodeNext(stream: IStream, iter: FieldIter, slots: seq<Slot>, words: Words, ghost seen: set<nat>)
    returns (ok: bool, eof: bool, next: seq<Slot>, marked: Words, ghost nextSeen: set<nat>)
    requires InMemory(stream.Now()) && stream.bytesLeft > 0 && iter.Valid() && GoodFields(iter.start)
    requires Going(iter.start, Progress(slots, seen), words)
    modifies stream, iter
    ensures iter.Valid() && iter.start == old(iter.start)
    ensures Consumed(old(stream.Now()), stream.Now(), ok) && (ok && !eof ==> stream.bytesLeft < old(stream.bytesLeft))
    ensures Going(iter.start, Progress(next, nextSeen), marked)
    ensures
      GetFields(iter.start, Progress(slots, seen), Left(old(stream.Now())))
      == if !ok then None
         else if eof then Some(Progress(next, nextSeen))
         else GetFields(iter.start, Progress(next, nextSeen), Left(stream.Now()))
    decreases Depth(iter.start), 0, 2
  {
    ghost var now := stream.Now();
    next, marked, nextSeen := slots, words, seen;
    var wireType, number;
    ok, wireType, number, eof := stream.DecodeTag();
    if !ok {
      ok := eof;
      return;
    }
    ghost var p, tagged := Progress(slots, seen), stream.Now();
    LeftMoved(now, now.bytesLeft - tagged.bytesLeft);
    ok, next, marked, nextSeen := DecodeBody(stream, iter, wireType, number, slots, words, seen);
    TurnDone(iter.start, p, wireType, number, now, tagged, stream.Now(), ok, Progress(next, nextSeen));
  }

  /** A tag and what follows it, on the stream. */
  lemma TurnDone(fields: Fields, p: Progress, wireType: nat, number: nat, now: Input, tagged: Input, after: Input,
                 ok: bool, q: Progress)
    requires |p.slots| == Len(fields) == |q.slots| && InMemory(now) && now.bytesLeft > 0
    requires tagged.bytesLeft <= now.bytesLeft && tagged == Moved(now, now.bytesLeft - tagged.bytesLeft) && InMemory(tagged)
    requires GetTag(Left(now)) == Some(Key(wireType, number, now.bytesLeft - tagged.bytesLeft))
    requires Got(tagged, after, ok, q, Body(fields, p, wireType, number, Left(tagged)))
    ensures Consumed(now, after, ok) && (ok ==> after.bytesLeft < now.bytesLeft)
    ensures GetFields(fields, p, Left(now)) == if ok then GetFields(fields, q, Left(after)) else None
  {
    TagAndBody(fields, p, Left(now));
    LeftMoved(now, now.bytesLeft - tagged.bytesLeft);
    if ok {
      LeftMoved(tagged, tagged.bytesLeft - after.bytesLeft);
      EntryRead(now, tagged, after);
    }
  }

  /** pb_decode_noinit. */
  method DecodeNoInit(stream: IStream, fields: Fields, start: seq<Slot>) returns (ok: bool, slots: seq<Slot>)
    requires InMemory(stream.Now()) && GoodFields(fields) && Shaped(fields, start)
    modifies stream
    ensures Consumed(old(stream.Now()), stream.Now(), ok)
    ensures ok <==> GetMessage(fields, start, Left(old(stream.Now()))).Some?
    ensures ok ==> GetMessage(fields, start, Left(old(stream.Now()))) == Some(slots) && Shaped(fields, slots)
    decreases Depth(fields), 0, 3
  {
    ghost var before := stream.Now();
    ghost var seen: set<nat> := {};
    var words: Words := [{}, {}];
    var iter := new FieldIter(fields);
    slots := start;
    var eof := false;
    while !eof && stream.bytesLeft > 0
      invariant fresh(iter) && iter.Valid() && iter.start == fields
      invariant Consumed(before, stream.Now(), true) && Going(fields, Progress(slots, seen), words)
      invariant
        GetFields(fields, Progress(start, {}), Left(before))
        == if eof then Some(Progress(slots, seen)) else GetFields(fields, Progress(slots, seen), Left(stream.Now()))
      decreases !eof, stream.bytesLeft
    {
      ghost var now := stream.Now();
      ok, eof, slots, words, seen := DecodeNext(stream, iter, slots, words, seen);
      if !ok {
        return;
      }
      EntryRead(before, now, stream.Now());
    }
    ok := CheckRequired(iter, words, seen);
  }

  lemma {:induction false} GoodAt(fields: Fields, i: nat)
    requires EachGood(fields) && i < Len(fields)
    ensures GoodType(At(fields, i).ltype)
    decreases fields
  {
    if i > 0 { GoodAt(fields.rest, i - 1); }
  }
}
