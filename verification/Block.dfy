/** Blocks of prefix-compressed entries with restart points (table/block_builder.cc). */
module Block {
  import opened Wrappers
  import Coding
  import FilterBlock

  datatype Pair = Pair(key: Bytes, value: Bytes)

  // ---------- The encoding of a block ----------

  /** The length of the longest common prefix. */
  function Common(a: Bytes, b: Bytes): (n: nat)
    ensures n <= |a| && n <= |b| && a[..n] == b[..n]
    ensures n < |a| && n < |b| ==> a[n] != b[n]
  {
    if a == [] || b == [] || a[0] != b[0] then 0
    else
      var n := Common(a[1..], b[1..]);
      assert a[..n + 1] == [a[0]] + a[1..][..n] && b[..n + 1] == [b[0]] + b[1..][..n];
      n + 1
  }

  /** How an entry is written that shares some bytes with the key before it. */
  type Encoding = (nat, Pair) -> Bytes

  /** Three lengths, the key from the shared bytes on, the value. */
  function EncodeEntry(shared: nat, e: Pair): (r: Bytes)
    ensures r != []
  {
    var n := if shared <= |e.key| then shared else 0;
    Lengths(n, |e.key| - n, |e.value|) + (e.key[n..] + e.value)
  }

  function Lengths(shared: nat, nonShared: nat, valueLength: nat): (r: Bytes)
    ensures r != []
  {
    Coding.Varint(shared) + Coding.Varint(nonShared) + Coding.Varint(valueLength)
  }

  /** Restart points: entry 0 and any later entries, in order. */
  ghost predicate RestartsOk(n: nat, restarts: seq<nat>) {
    && restarts != [] && restarts[0] == 0
    && (forall i, j :: 0 <= i < j < |restarts| ==> restarts[i] < restarts[j])
    && (forall i :: 0 < i < |restarts| ==> restarts[i] < n)
  }

  /** What an entry shares with the one before it; a restart point shares nothing. */
  function SharedWithLast(es: seq<Pair>, restarts: seq<nat>, i: nat): (n: nat)
    requires i < |es|
    ensures n <= |es[i].key| && (n > 0 ==> i > 0 && n <= |es[i - 1].key| && es[i - 1].key[..n] == es[i].key[..n])
  {
    if i == 0 || i in restarts then 0 else Common(es[i - 1].key, es[i].key)
  }

  /** The i-th entry stands in `data` from its start to the next one's. */
  ghost predicate EntryAt(enc: Encoding, es: seq<Pair>, restarts: seq<nat>, data: Bytes, starts: seq<nat>, i: nat)
    requires i < |es| && |starts| == |es| + 1
  {
    && starts[i] < starts[i + 1] <= |data|
    && data[starts[i]..starts[i + 1]] == enc(SharedWithLast(es, restarts, i), es[i])
  }

  /** The entries stand in `data` one after the other. */
  ghost predicate Layout(enc: Encoding, es: seq<Pair>, restarts: seq<nat>, data: Bytes, starts: seq<nat>) {
    && |starts| == |es| + 1 && starts[0] == 0 && starts[|es|] == |data|
    && forall i :: 0 <= i < |es| ==> EntryAt(enc, es, restarts, data, starts, i)
  }

  /** The offsets of the restart points. */
  ghost predicate RestartOffsets(restarts: seq<nat>, starts: seq<nat>, offsets: seq<nat>) {
    |offsets| == |restarts| && forall k :: 0 <= k < |restarts| ==> restarts[k] < |starts| && offsets[k] == starts[restarts[k]]
  }

  /** A block: entries, offsets of the restart points, number of restart points. */
  ghost predicate IsBlock(enc: Encoding, es: seq<Pair>, restarts: seq<nat>, starts: seq<nat>, block: Bytes) {
    exists data, offsets ::
      && RestartsOk(|es|, restarts) && Layout(enc, es, restarts, data, starts) && RestartOffsets(restarts, starts, offsets)
      && block == data + FilterBlock.Words(offsets) + Coding.Fixed32(|offsets|)
  }

  /** The bytes of an entry that shares one byte. */
  lemma KnownEntry()
    ensures EncodeEntry(1, Pair([97, 98], [118])) == [1, 1, 1, 98, 118]
  {
    assert Coding.Varint(1) == [1];
    assert [97, 98][1..] == [98];
  }

  // ---------- DecodeEntry ----------

  datatype Header = Header(shared: nat, nonShared: nat, valueLength: nat, size: nat)

  /** Three varints at the front of the input, which must hold the key delta and value after them. */
  function DecodeEntry(input: Bytes): Option<Header> {
    if |input| < 3 then None
    else
      var h :=
        if input[0] < 128 && input[1] < 128 && input[2] < 128 then Some(Header(input[0], input[1], input[2], 3))
        else DecodeSlow(input);
      if h.Some? && |input| - h.value.size < (h.value.nonShared + h.value.valueLength) % Coding.TWO_32 then None else h
  }

  function DecodeSlow(input: Bytes): (h: Option<Header>)
    ensures h.Some? ==> h.value.size <= |input|
  {
    match Coding.GetVarint32(input)
    case None => None
    case Some(a) =>
      match Coding.GetVarint32(input[a.size..])
      case None => None
      case Some(b) =>
        match Coding.GetVarint32(input[a.size + b.size..])
        case None => None
        case Some(c) => Some(Header(a.value, b.value, c.value, a.size + b.size + c.size))
  }

  lemma SlowDecodes(a: Bytes, b: Bytes, c: Bytes, rest: Bytes, x: nat, y: nat, z: nat)
    requires Coding.GetVarint32(a + (b + (c + rest))) == Some(Coding.Decoded(x, |a|))
    requires Coding.GetVarint32(b + (c + rest)) == Some(Coding.Decoded(y, |b|))
    requires Coding.GetVarint32(c + rest) == Some(Coding.Decoded(z, |c|))
    ensures DecodeSlow(a + b + c + rest) == Some(Header(x, y, z, |a| + |b| + |c|))
  {
    DropTwo(a, b, c, rest);
    assert a + b + c + rest == a + (b + (c + rest));
  }

  /** `code` is how the varint encoding of `x` begins. */
  ghost predicate Begins(code: Bytes, x: nat) {
    |code| > 0 && (if x < 128 then code == [x] else code[0] >= 128)
  }

  lemma VarintBegins(x: nat)
    ensures Begins(Coding.Varint(x), x)
  {
  }

  lemma HeaderDecodes(a: Bytes, b: Bytes, c: Bytes, rest: Bytes, x: nat, y: nat, z: nat)
    requires DecodeSlow(a + b + c + rest) == Some(Header(x, y, z, |a| + |b| + |c|))
    requires Begins(a, x) && Begins(b, y) && Begins(c, z)
    requires y + z <= |rest| && y + z < Coding.TWO_32
    ensures DecodeEntry(a + b + c + rest) == Some(Header(x, y, z, |a| + |b| + |c|))
  {
    FirstBytes(a, b, c, rest);
  }

  lemma HeaderRoundTrip(x: nat, y: nat, z: nat, rest: Bytes)
    requires x < Coding.TWO_32 && y + z <= |rest| && y + z < Coding.TWO_32
    ensures DecodeEntry(Lengths(x, y, z) + rest) == Some(Header(x, y, z, |Lengths(x, y, z)|))
  {
    var a, b, c := Coding.Varint(x), Coding.Varint(y), Coding.Varint(z);
    Coding.GetVarint32RoundTrip(x, b + (c + rest));
    Coding.GetVarint32RoundTrip(y, c + rest);
    Coding.GetVarint32RoundTrip(z, rest);
    SlowDecodes(a, b, c, rest, x, y, z);
    VarintBegins(x);
    VarintBegins(y);
    VarintBegins(z);
    HeaderDecodes(a, b, c, rest, x, y, z);
  }

  lemma FirstBytes(a: Bytes, b: Bytes, c: Bytes, rest: Bytes)
    requires |a| > 0 && |b| > 0 && |c| > 0
    ensures (a + b + c + rest)[0] == a[0] && |a + b + c + rest| == |a| + |b| + |c| + |rest|
    ensures |a| == 1 ==> (a + b + c + rest)[1] == b[0]
    ensures |a| == 1 && |b| == 1 ==> (a + b + c + rest)[2] == c[0]
  {
  }

  /** The input begins with an entry of `size` bytes: its header, key delta and value are found. */
  ghost predicate Decodes(input: Bytes, shared: nat, e: Pair, size: nat)
    requires shared <= |e.key|
  {
    var h := DecodeEntry(input);
    && h.Some? && h.value.shared == shared && h.value.nonShared == |e.key| - shared && h.value.valueLength == |e.value|
    && h.value.size + h.value.nonShared + h.value.valueLength == size <= |input|
    && input[h.value.size..h.value.size + h.value.nonShared] == e.key[shared..]
    && input[h.value.size + h.value.nonShared..size] == e.value
  }

  lemma PartsDecode(head: Bytes, shared: nat, e: Pair, rest: Bytes)
    requires shared <= |e.key|
    requires DecodeEntry(head + (e.key[shared..] + e.value + rest)) == Some(Header(shared, |e.key| - shared, |e.value|, |head|))
    ensures Decodes(head + (e.key[shared..] + e.value) + rest, shared, e, |head| + |e.key| - shared + |e.value|)
  {
    EntryParts(head, e.key[shared..], e.value, rest);
  }

  /** An encoded entry decodes to itself. */
  lemma EntryRoundTrip(shared: nat, e: Pair, rest: Bytes)
    requires shared <= |e.key| && |e.key| + |e.value| < Coding.TWO_32
    ensures Decodes(EncodeEntry(shared, e) + rest, shared, e, |EncodeEntry(shared, e)|)
  {
    HeaderRoundTrip(shared, |e.key| - shared, |e.value|, e.key[shared..] + e.value + rest);
    PartsDecode(Lengths(shared, |e.key| - shared, |e.value|), shared, e, rest);
  }

  lemma EntryParts(h: Bytes, delta: Bytes, value: Bytes, rest: Bytes)
    ensures h + (delta + value) + rest == h + (delta + value + rest)
    ensures (h + (delta + value) + rest)[|h|..|h| + |delta|] == delta
    ensures (h + (delta + value) + rest)[|h| + |delta|..|h| + |delta| + |value|] == value
  {
  }
}
