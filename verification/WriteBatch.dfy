/** Batches of updates and their encoding (db/write_batch.cc). */
module WriteBatch {
  import opened Wrappers
  import opened Dbformat
  import Coding

  const HEADER: nat := 12

  datatype Op = Put(key: Bytes, value: Bytes) | Delete(key: Bytes) {
    predicate Fits() {
      |key| < Coding.TWO_32 && (Put? ==> |value| < Coding.TWO_32)
    }

    function Kind(): ValueType { if Put? then Value else Deletion }

    function Payload(): Bytes { if Put? then value else [] }
  }

  // ---------- The encoding ----------

  function EncodeOp(op: Op): (r: Bytes)
    ensures |r| > 0
  {
    match op
    case Put(key, value) => [1] + Coding.LengthPrefixed(key) + Coding.LengthPrefixed(value)
    case Delete(key) => [0] + Coding.LengthPrefixed(key)
  }

  function EncodeOps(ops: seq<Op>): Bytes {
    FlatMap(EncodeOp, ops)
  }

  /** The representation of a batch: sequence number, count, updates. */
  function Rep(seqno: nat, ops: seq<Op>): (r: Bytes)
    ensures |r| >= HEADER
  {
    Coding.Fixed64(seqno) + Coding.Fixed32(|ops|) + EncodeOps(ops)
  }

  /** The count is stored in 32 bits and read back as a signed int. */
  function Count(rep: Bytes): int
    requires |rep| >= HEADER
  {
    var n := Coding.DecodeFixed(rep[8..HEADER]);
    if n < 0x8000_0000 then n else n - Coding.TWO_32
  }

  function Sequence(rep: Bytes): nat
    requires |rep| >= HEADER
  {
    Coding.DecodeFixed(rep[..8])
  }

  datatype Status = Ok | TooSmall | BadPut | BadDelete | UnknownTag | WrongCount

  datatype NextOp = NextOp(op: Op, size: nat) | Malformed(status: Status)

  /** The update at the front of the input. */
  function ParseOp(input: Bytes): (r: NextOp)
    requires input != []
    ensures r.NextOp? ==> 0 < r.size <= |input|
    ensures r.Malformed? ==> !r.status.Ok?
  {
    if input[0] == 1 then
      match Coding.GetLengthPrefixed(input[1..])
      case None => Malformed(BadPut)
      case Some(key) =>
        match Coding.GetLengthPrefixed(input[1 + key.size..])
        case None => Malformed(BadPut)
        case Some(value) => NextOp(Put(key.value, value.value), 1 + key.size + value.size)
    else if input[0] == 0 then
      match Coding.GetLengthPrefixed(input[1..])
      case None => Malformed(BadDelete)
      case Some(key) => NextOp(Delete(key.value), 1 + key.size)
    else Malformed(UnknownTag)
  }

  /** The updates handed on before the input ends or turns out malformed. */
  function ParseOps(input: Bytes): (r: (seq<Op>, Status))
    decreases |input|
  {
    if input == [] then ([], Ok)
    else
      match ParseOp(input)
      case Malformed(status) => ([], status)
      case NextOp(op, size) =>
        var rest := ParseOps(input[size..]);
        ([op] + rest.0, rest.1)
  }

  /** WriteBatch::Iterate: the updates handed to the handler, and the status. */
  function Contents(rep: Bytes): (seq<Op>, Status) {
    if |rep| < HEADER then ([], TooSmall)
    else
      var parsed := ParseOps(rep[HEADER..]);
      (parsed.0, if parsed.1.Ok? && |parsed.0| != Count(rep) then WrongCount else parsed.1)
  }

  lemma OpRoundTrip(op: Op, rest: Bytes)
    requires op.Fits()
    ensures ParseOp(EncodeOp(op) + rest) == NextOp(op, |EncodeOp(op)|)
  {
    if op.Put? {
      PutRoundTrip(op.key, op.value, rest);
    } else {
      DeleteRoundTrip(op.key, rest);
    }
  }

  lemma PutRoundTrip(k: Bytes, v: Bytes, rest: Bytes)
    requires |k| < Coding.TWO_32 && |v| < Coding.TWO_32
    ensures ParseOp(EncodeOp(Put(k, v)) + rest) == NextOp(Put(k, v), |EncodeOp(Put(k, v))|)
  {
    var key, value := Coding.LengthPrefixed(k), Coding.LengthPrefixed(v);
    Coding.LengthPrefixedRoundTrip(k, value + rest);
    Coding.LengthPrefixedRoundTrip(v, rest);
    ParsePut(key, value, rest, k, v);
  }

  lemma ParsePut(key: Bytes, value: Bytes, rest: Bytes, k: Bytes, v: Bytes)
    requires Coding.GetLengthPrefixed(key + (value + rest)) == Some(Coding.Decoded(k, |key|))
    requires Coding.GetLengthPrefixed(value + rest) == Some(Coding.Decoded(v, |value|))
    ensures ParseOp([1] + key + value + rest) == NextOp(Put(k, v), |[1] + key + value|)
  {
    DropTwo([1], key, value, rest);
    assert ([1] + key + value + rest)[0] == 1;
  }

  lemma DeleteRoundTrip(k: Bytes, rest: Bytes)
    requires |k| < Coding.TWO_32
    ensures ParseOp(EncodeOp(Delete(k)) + rest) == NextOp(Delete(k), |EncodeOp(Delete(k))|)
  {
    var key := Coding.LengthPrefixed(k);
    DropTwo([0], key, [], rest);
    assert [0] + key + [] == [0] + key && [] + rest == rest;
    Coding.LengthPrefixedRoundTrip(k, rest);
  }

  ghost predicate AllFit(ops: seq<Op>) {
    forall op :: op in ops ==> op.Fits()
  }

  lemma {:induction false} OpsRoundTrip(ops: seq<Op>)
    requires AllFit(ops)
    ensures ParseOps(EncodeOps(ops)) == (ops, Ok)
  {
    if ops == [] {
    } else {
      var rest := EncodeOps(ops[1..]);
      assert EncodeOps(ops) == EncodeOp(ops[0]) + rest;
      OpRoundTrip(ops[0], rest);
      DropOne(EncodeOp(ops[0]), rest);
      OpsRoundTrip(ops[1..]);
      assert ops == [ops[0]] + ops[1..];
    }
  }

  lemma HeaderRoundTrip(seqno: nat, ops: seq<Op>)
    requires seqno < Coding.TWO_64 && |ops| < 0x8000_0000
    ensures Sequence(Rep(seqno, ops)) == seqno && Count(Rep(seqno, ops)) == |ops|
    ensures Rep(seqno, ops)[HEADER..] == EncodeOps(ops)
  {
    var rep := Rep(seqno, ops);
    assert rep[..8] == Coding.Fixed64(seqno) && rep[8..HEADER] == Coding.Fixed32(|ops|);
    Coding.Fixed64RoundTrip(seqno);
    Coding.Fixed32RoundTrip(|ops|);
  }

  /** Iterating over a batch hands on exactly the updates put into it. */
  lemma BatchRoundTrip(seqno: nat, ops: seq<Op>)
    requires seqno < Coding.TWO_64 && |ops| < 0x8000_0000 && AllFit(ops)
    ensures Contents(Rep(seqno, ops)) == (ops, Ok)
  {
    HeaderRoundTrip(seqno, ops);
    OpsRoundTrip(ops);
  }

  lemma KnownHeader()
    ensures Coding.Fixed64(7) + Coding.Fixed32(2) == [7, 0, 0, 0, 0, 0, 0, 0, 2, 0, 0, 0]
  {
    Coding.FixedIsLittleEndian(7);
    Coding.FixedIsLittleEndian(2);
    Coding.FixedIsLittleEndian(0);
  }

  /** The bytes of a batch with one update of each kind. */
  lemma KnownBatch()
    ensures Rep(7, [Op.Put([107], [118]), Op.Delete([107])])
         == [7, 0, 0, 0, 0, 0, 0, 0, 2, 0, 0, 0, 1, 1, 107, 1, 118, 0, 1, 107]
  {
    hide Coding.Fixed, Coding.Fixed32, Coding.Fixed64;
    var put, del := Op.Put([107], [118]), Op.Delete([107]);
    KnownHeader();
    assert Coding.LengthPrefixed([107]) == [1, 107] && Coding.LengthPrefixed([118]) == [1, 118];
    assert EncodeOp(put) == [1, 1, 107, 1, 118] && EncodeOp(del) == [0, 1, 107];
    FlatMapOne(EncodeOp, [], put);
    FlatMapOne(EncodeOp, [put], del);
    assert [] + [put] == [put] && [put] + [del] == [put, del];
    assert EncodeOps([put, del]) == [1, 1, 107, 1, 118] + [0, 1, 107];
  }

  // ---------- Malformed batches ----------

  /** An update that is cut off is malformed. */
  lemma CutOpIsMalformed(op: Op, n: nat)
    requires op.Fits() && 0 < n < |EncodeOp(op)|
    ensures ParseOp(EncodeOp(op)[..n]) == Malformed(if op.Put? then BadPut else BadDelete)
  {
    var key := Coding.LengthPrefixed(op.key);
    var cut := EncodeOp(op)[..n];
    if n - 1 < |key| {
      assert cut[1..] == key[..n - 1];
      Coding.CutStringIsRefused(op.key, n - 1);
    } else {
      var value := Coding.LengthPrefixed(op.value);
      assert cut[1..] == key + value[..n - 1 - |key|];
      Coding.LengthPrefixedRoundTrip(op.key, value[..n - 1 - |key|]);
      assert cut[1 + |key|..] == value[..n - 1 - |key|];
      Coding.CutStringIsRefused(op.value, n - 1 - |key|);
    }
  }

  /** The updates in front of a malformed one are handed on. */
  lemma {:induction false} MalformedTail(ops: seq<Op>, tail: Bytes, status: Status)
    requires AllFit(ops) && tail != [] && ParseOp(tail) == Malformed(status)
    ensures ParseOps(EncodeOps(ops) + tail) == (ops, status)
  {
    if ops == [] {
      assert EncodeOps(ops) + tail == tail;
    } else {
      var code, rest := EncodeOp(ops[0]), EncodeOps(ops[1..]) + tail;
      assert EncodeOps(ops) + tail == code + rest;
      OpRoundTrip(ops[0], rest);
      DropOne(code, rest);
      MalformedTail(ops[1..], tail, status);
      assert ops == [ops[0]] + ops[1..];
    }
  }

  /** Iterating over a batch that is cut inside an update, or goes on with a tag that does not exist, hands on the
      updates before that, and says what is wrong; so it does if the count is not that of the updates. */
  lemma MalformedBatch(header: Bytes, ops: seq<Op>, op: Op, n: nat, tag: byte, rest: Bytes)
    requires |header| == HEADER && AllFit(ops) && op.Fits() && 0 < n < |EncodeOp(op)| && tag > 1
    ensures Contents(header + (EncodeOps(ops) + EncodeOp(op)[..n])) == (ops, if op.Put? then BadPut else BadDelete)
    ensures Contents(header + (EncodeOps(ops) + ([tag] + rest))) == (ops, UnknownTag)
    ensures Contents(header + EncodeOps(ops)) == (ops, if Count(header) == |ops| then Ok else WrongCount)
    ensures forall k :: 0 <= k < HEADER ==> Contents(header[..k]) == ([], TooSmall)
  {
    CutOpIsMalformed(op, n);
    MalformedTail(ops, EncodeOp(op)[..n], if op.Put? then BadPut else BadDelete);
    MalformedTail(ops, [tag] + rest, UnknownTag);
    OpsRoundTrip(ops);
    HeaderAside(header, EncodeOps(ops) + EncodeOp(op)[..n]);
    HeaderAside(header, EncodeOps(ops) + ([tag] + rest));
    HeaderAside(header, EncodeOps(ops));
  }

  lemma HeaderAside(header: Bytes, body: Bytes)
    requires |header| == HEADER
    ensures (header + body)[HEADER..] == body && Count(header + body) == Count(header)
  {
    assert (header + body)[8..HEADER] == header[8..HEADER];
  }

  /** A counted-up header with more updates appended represents the longer batch. */
  lemma AppendRep(seqno: nat, ops: seq<Op>, more: seq<Op>, rep: Bytes)
    requires rep == Coding.Fixed64(seqno) + Coding.Fixed32(|ops| + |more|) + EncodeOps(ops)
    ensures rep + EncodeOps(more) == Rep(seqno, ops + more)
    ensures |more| == 1 ==> EncodeOps(more) == EncodeOp(more[0])
  {
    FlatMapAppend(EncodeOp, ops, more);
    if |more| == 1 {
      FlatMapOne(EncodeOp, [], more[0]);
      assert [] + more == more && [] + [more[0]] == more;
    }
  }

  // ---------- The methods ----------

  class Batch {
    var rep: Bytes

    ghost predicate Holds(seqno: nat, ops: seq<Op>)
      reads this
    {
      rep == Rep(seqno, ops) && seqno < Coding.TWO_64 && |ops| < 0x8000_0000
    }

    constructor ()
      ensures Holds(0, [])
    {
      rep := seq(HEADER, i => 0);
      ZeroHeader();
    }

    /** SetCount and SetSequence overwrite their part of the header. */
    method SetCount(n: nat, ghost seqno: nat, ghost ops: seq<Op>)
      requires Holds(seqno, ops)
      modifies this
      ensures rep == Coding.Fixed64(seqno) + Coding.Fixed32(n) + EncodeOps(ops)
    {
      rep := rep[..8] + Coding.Fixed32(n) + rep[HEADER..];
    }

    /** WriteBatchInternal::SetContents: a batch read back from the log. */
    method SetContents(contents: Bytes)
      requires |contents| >= HEADER
      modifies this
      ensures rep == contents
    {
      rep := contents;
    }

    method SetSequence(n: nat, ghost seqno: nat, ghost ops: seq<Op>)
      requires Holds(seqno, ops) && n < Coding.TWO_64
      modifies this
      ensures Holds(n, ops)
    {
      rep := Coding.Fixed64(n) + rep[8..];
    }

    method Put(key: Bytes, value: Bytes, ghost seqno: nat, ghost ops: seq<Op>)
      requires Holds(seqno, ops) && |ops| + 1 < 0x8000_0000
      modifies this
      ensures Holds(seqno, ops + [Op.Put(key, value)])
    {
      HeaderRoundTrip(seqno, ops);
      SetCount(Count(rep) + 1, seqno, ops);
      ghost var before := rep;
      rep := rep + [1];
      rep := rep + Coding.LengthPrefixed(key);
      rep := rep + Coding.LengthPrefixed(value);
      AppendThree(before, [1], Coding.LengthPrefixed(key), Coding.LengthPrefixed(value));
      AppendRep(seqno, ops, [Op.Put(key, value)], before);
    }

    method Delete(key: Bytes, ghost seqno: nat, ghost ops: seq<Op>)
      requires Holds(seqno, ops) && |ops| + 1 < 0x8000_0000
      modifies this
      ensures Holds(seqno, ops + [Op.Delete(key)])
    {
      HeaderRoundTrip(seqno, ops);
      SetCount(Count(rep) + 1, seqno, ops);
      ghost var before := rep;
      rep := rep + [0];
      rep := rep + Coding.LengthPrefixed(key);
      AppendThree(before, [0], Coding.LengthPrefixed(key), []);
      AppendRep(seqno, ops, [Op.Delete(key)], before);
    }

    /** WriteBatchInternal::Append: the updates of `src` after those of this batch. */
    method Append(src: Batch, ghost seqno: nat, ghost ops: seq<Op>, ghost seqno2: nat, ghost ops2: seq<Op>)
      requires src != this && Holds(seqno, ops) && src.Holds(seqno2, ops2) && |ops| + |ops2| < 0x8000_0000
      modifies this
      ensures Holds(seqno, ops + ops2)
    {
      HeaderRoundTrip(seqno, ops);
      HeaderRoundTrip(seqno2, ops2);
      SetCount(Count(rep) + Count(src.rep), seqno, ops);
      ghost var before := rep;
      rep := rep + src.rep[HEADER..];
      AppendRep(seqno, ops, ops2, before);
    }

    /** Hands every update on in order, until the input ends or is malformed. */
    method Iterate() returns (found: seq<Op>, status: Status)
      ensures (found, status) == Contents(rep)
    {
      hide ParseOp;
      if |rep| < HEADER {
        return [], TooSmall;
      }
      var input := rep[HEADER..];
      found := [];
      assert [] + ParseOps(input).0 == ParseOps(input).0;
      while input != []
        invariant (found + ParseOps(input).0, ParseOps(input).1) == ParseOps(rep[HEADER..])
        decreases |input|
      {
        match ParseOp(input) {
          case Malformed(bad) =>
            assert found + [] == found;
            return found, bad;
          case NextOp(op, size) =>
            assert found + ([op] + ParseOps(input[size..]).0) == found + [op] + ParseOps(input[size..]).0;
            found, input := found + [op], input[size..];
        }
      }
      assert found + [] == found;
      status := if |found| != Count(rep) then WrongCount else Ok;
    }
  }

  lemma ZeroHeader()
    ensures seq(HEADER, i => 0 as byte) == Rep(0, [])
  {
    var four, eight := Coding.Fixed32(0), Coding.Fixed64(0);
    FixedZero(4);
    FixedZero(8);
    assert EncodeOps([]) == [];
  }

  lemma {:induction false} FixedZero(width: nat)
    ensures Coding.Fixed(0, width) == seq(width, i => 0 as byte)
  {
    if width > 0 {
      FixedZero(width - 1);
    }
  }

  // ---------- Into the memtable ----------

  /** What MemTable::Add is called with. */
  datatype Row = Row(key: Bytes, seqno: nat, kind: ValueType, value: Bytes)

  /** MemTableInserter: consecutive sequence numbers, whatever the kind of update. */
  function Rows(seqno: nat, ops: seq<Op>): (r: seq<Row>)
    ensures |r| == |ops|
    ensures forall i :: 0 <= i < |ops| ==> r[i] == Row(ops[i].key, seqno + i, ops[i].Kind(), ops[i].Payload())
    decreases |ops|
  {
    if ops == [] then []
    else [Row(ops[0].key, seqno, ops[0].Kind(), ops[0].Payload())] + Rows(seqno + 1, ops[1..])
  }
}
