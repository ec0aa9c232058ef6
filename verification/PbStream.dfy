/** Input streams and the decoders of primitive values (pb_decode.c). */
module PbStream {
  import opened Wrappers
  import opened Coding
  import opened PbWire

  /** The state of an input stream: the memory from its position on, and how much of it the stream may read. */
  datatype Input = Input(memory: Bytes, bytesLeft: nat)

  ghost predicate InMemory(i: Input) { i.bytesLeft <= |i.memory| }

  ghost function Left(i: Input): Bytes
    requires InMemory(i)
  {
    i.memory[..i.bytesLeft]
  }

  ghost function Moved(i: Input, n: nat): Input
    requires InMemory(i) && n <= i.bytesLeft
  {
    Input(i.memory[n..], i.bytesLeft - n)
  }

  /** The bytes behind the end of a stream are never given up. */
  ghost predicate Stays(before: Input, after: Input) {
    |after.memory| - after.bytesLeft >= |before.memory| - before.bytesLeft
  }

  /** What a decoder does to a stream that it takes a value from. */
  ghost predicate Got<T(!new)>(before: Input, after: Input, ok: bool, value: T, wanted: Option<Decoded<T>>) {
    && InMemory(before) && Stays(before, after)
    && (ok <==> wanted.Some?)
    && (ok ==> value == wanted.value.value && wanted.value.size <= before.bytesLeft && after == Moved(before, wanted.value.size))
  }

  /** A decoder leaves the memory behind the stream alone. */
  ghost predicate Consumed(before: Input, after: Input, ok: bool) {
    && InMemory(before) && InMemory(after) && Stays(before, after)
    && (ok ==> after.bytesLeft <= before.bytesLeft && after == Moved(before, before.bytesLeft - after.bytesLeft))
  }

  /** The parent has given up the bytes of a substream and still stands before them. */
  ghost predicate Splits(before: Input, parent: Input, sub: Input, size: nat) {
    && InMemory(before) && size <= before.bytesLeft && parent.bytesLeft == before.bytesLeft - size
    && InMemory(sub) && |sub.memory| - sub.bytesLeft >= |before.memory| - before.bytesLeft + parent.bytesLeft
    && Moved(sub, sub.bytesLeft).memory == Moved(before, size).memory
  }

  /** The parent once the substream is closed. */
  ghost function Closed(parent: Input, sub: Input): Input
    requires InMemory(sub)
  {
    Input(Moved(sub, sub.bytesLeft).memory, parent.bytesLeft)
  }

  lemma ClosedStays(before: Input, parent: Input, start: Input, sub: Input, size: nat, ok: bool)
    requires Splits(before, parent, start, size) && Consumed(start, sub, ok)
    ensures Stays(before, Closed(parent, sub)) && (ok ==> Closed(parent, sub) == Moved(before, size))
  {
    if ok {
      MovedTwice(start, start.bytesLeft - sub.bytesLeft, sub.bytesLeft);
    }
  }

  lemma LeftMoved(i: Input, n: nat)
    requires InMemory(i) && n <= i.bytesLeft
    ensures InMemory(Moved(i, n)) && Left(Moved(i, n)) == Left(i)[n..]
  {
  }

  lemma MovedTwice(i: Input, m: nat, n: nat)
    requires InMemory(i) && m + n <= i.bytesLeft
    ensures Moved(Moved(i, m), n) == Moved(i, m + n)
  {
  }

  /** pb_istream_t over a buffer. */
  class IStream {
    var memory: Bytes
    var bytesLeft: nat

    ghost function Now(): Input
      reads this
    {
      Input(memory, bytesLeft)
    }

    /** pb_istream_from_buffer. */
    constructor FromBuffer(buf: Bytes)
      ensures Now() == Input(buf, |buf|)
    {
      memory, bytesLeft := buf, |buf|;
    }

    /** A copy of a stream that ends earlier. */
    constructor Substream(buf: Bytes, size: nat)
      ensures Now() == Input(buf, size)
    {
      memory, bytesLeft := buf, size;
    }

    /** pb_readbyte. */
    method ReadByte() returns (ok: bool, b: byte)
      requires InMemory(Now())
      modifies this
      ensures ok <==> old(bytesLeft) > 0
      ensures if ok then b == old(memory)[0] && Now() == Moved(old(Now()), 1) else Now() == old(Now())
    {
      if bytesLeft == 0 {
        return false, 0;
      }
      b := memory[0];
      memory := memory[1..];
      bytesLeft := bytesLeft - 1;
      return true, b;
    }

    /** pb_read. */
    method Read(count: nat) returns (ok: bool, bytes: Bytes)
      requires InMemory(Now())
      modifies this
      ensures ok <==> count <= old(bytesLeft)
      ensures
        if ok then bytes == Left(old(Now()))[..count] && Now() == Moved(old(Now()), count)
        else bytes == [] && Now() == old(Now())
    {
      if count == 0 {
        return true, [];
      }
      if bytesLeft < count {
        return false, [];
      }
      bytes := memory[..count];
      memory := memory[count..];
      bytesLeft := bytesLeft - count;
      return true, bytes;
    }

    /** pb_decode_varint32_eof. */
    method DecodeVarint32() returns (ok: bool, value: nat, eof: bool)
      requires InMemory(Now())
      modifies this
      ensures Got(old(Now()), Now(), ok, value, Varint32(Left(old(Now()))))
      ensures eof <==> old(bytesLeft) == 0
    {
      hide Varint32Tail;
      ghost var before := Now();
      ghost var all := Left(before);
      var b: byte;
      ok, b := ReadByte();
      if !ok {
        return false, 0, bytesLeft == 0;
      }
      if b < 128 {
        return true, b, false;
      }
      var k: nat := 1;
      value := b % 128;
      while b >= 128
        invariant 0 < k <= before.bytesLeft && Now() == Moved(before, k)
        invariant Varint32(all) == if b >= 128 then TailFrom(all, k, value) else Ended(k, b, value)
        decreases before.bytesLeft - k, b
      {
        Varint32Step(all, k, value);
        ok, b := ReadByte();
        if !ok {
          return false, 0, false;
        }
        MovedTwice(before, k, 1);
        if k >= 5 {
          var signExtension := if k < 9 then 0xff else 0x01;
          if b % 128 != 0 && (value < TWO_31 || b != signExtension) {
            return false, 0, false;
          }
        } else {
          value := (value + SevenBits(b, k)) % TWO_32;
        }
        k := k + 1;
      }
      if k == 5 && b % 128 >= 16 {
        return false, 0, false;
      }
      return true, value, false;
    }

    /** pb_decode_varint: ten bytes at most, and what does not fit is shifted out. */
    method DecodeVarint() returns (ok: bool, value: nat)
      requires InMemory(Now())
      modifies this
      ensures Got(old(Now()), Now(), ok, value, GetVarint64(Left(old(Now()))))
    {
      ghost var before := Now();
      ghost var all := Left(before);
      ghost var sum: nat := 0;
      var k: nat := 0;
      var b: byte := 0x80;
      value := 0;
      assert all[0..] == all;
      while b >= 128
        invariant k <= before.bytesLeft && k <= 10 && Now() == Moved(before, k)
        invariant value == sum % TWO_64
        invariant Coding.DecodeVarint(all, 10) == if b >= 128 then VarintFrom(all, k, sum) else Some(Decoded(sum, k))
        decreases 10 - k, b
      {
        if k >= 10 {
          return false, 0;
        }
        VarintStep(all, k, sum);
        ok, b := ReadByte();
        if !ok {
          return false, 0;
        }
        MovedTwice(before, k, 1);
        ghost var next := sum + SevenBits(b, k);
        ModAdd(sum, SevenBits(b, k));
        value := (value + SevenBits(b, k)) % TWO_64;
        sum := next;
        k := k + 1;
      }
      return true, value;
    }

    /** pb_decode_tag; a zero is the end of the message, like the end of the stream. */
    method DecodeTag() returns (ok: bool, wireType: nat, number: nat, eof: bool)
      requires InMemory(Now()) && bytesLeft > 0
      modifies this
      ensures Stays(old(Now()), Now())
      ensures ok || eof ==> bytesLeft <= old(bytesLeft) && Now() == Moved(old(Now()), old(bytesLeft) - bytesLeft)
      ensures
        match GetTag(Left(old(Now())))
        case None => !ok && !eof
        case Some(EndOfMessage) => !ok && eof
        case Some(Key(w, n, size)) => ok && !eof && wireType == w && number == n && bytesLeft == old(bytesLeft) - size
    {
      var temp;
      ok, temp, eof := DecodeVarint32();
      if !ok {
        return false, 0, 0, eof;
      }
      if temp == 0 {
        return false, 0, 0, true;
      }
      return true, temp % 8, temp / 8, false;
    }

    /** pb_skip_varint. */
    method SkipVarint() returns (ok: bool)
      requires InMemory(Now())
      modifies this
      ensures Skipped(old(Now()), Now(), ok, PbWire.SkipVarint(Left(old(Now()))))
    {
      ghost var before := Now();
      ghost var all := Left(before);
      ghost var k: nat := 0;
      var b: byte := 0x80;
      assert all[0..] == all;
      while b >= 128
        invariant k <= before.bytesLeft && Now() == Moved(before, k)
        invariant PbWire.SkipVarint(all) == if b >= 128 then More(PbWire.SkipVarint(all[k..]), k) else Some(k)
        decreases before.bytesLeft - k, b
      {
        if k < |all| { assert all[k..][1..] == all[k + 1..]; }
        MovedTwice(before, k, if bytesLeft > 0 then 1 else 0);
        LeftMoved(before, k);
        var bytes;
        ok, bytes := Read(1);
        if !ok {
          return false;
        }
        assert bytes == all[k..][..1];
        b := bytes[0];
        k := k + 1;
      }
      return true;
    }

    /** pb_skip_field. */
    method SkipField(wireType: nat) returns (ok: bool)
      requires InMemory(Now())
      modifies this
      ensures Skipped(old(Now()), Now(), ok, PbWire.SkipField(wireType, Left(old(Now()))))
    {
      ghost var before := Now();
      var bytes;
      if wireType == WT_VARINT {
        ok := SkipVarint();
      } else if wireType == WT_64BIT {
        ok, bytes := Read(8);
      } else if wireType == WT_STRING {
        var length, eof;
        ok, length, eof := DecodeVarint32();
        if !ok {
          return false;
        }
        MovedTwice(before, before.bytesLeft - bytesLeft, if length <= bytesLeft then length else 0);
        ok, bytes := Read(length);
      } else if wireType == WT_32BIT {
        ok, bytes := Read(4);
      } else {
        ok := false;
      }
    }

    /** pb_make_string_substream: the parent gives up the bytes at once, and moves when the substream is closed. */
    method MakeSubstream() returns (ok: bool, sub: IStream)
      requires InMemory(Now())
      modifies this
      ensures fresh(sub) && Stays(old(Now()), Now())
      ensures ok <==> GetDelimited(Left(old(Now()))).Some?
      ensures
        ok ==>
          var d := GetDelimited(Left(old(Now()))).value;
          Splits(old(Now()), Now(), sub.Now(), d.size) && Left(sub.Now()) == d.value
    {
      ghost var before := Now();
      var size, eof;
      ok, size, eof := DecodeVarint32();
      sub := new IStream.Substream(memory, size);
      if !ok || bytesLeft < size {
        return false, sub;
      }
      LeftMoved(before, before.bytesLeft - bytesLeft);
      bytesLeft := bytesLeft - size;
      return true, sub;
    }

    /** pb_close_string_substream: what the substream did not take is skipped. */
    method CloseSubstream(sub: IStream)
      requires InMemory(sub.Now()) && sub != this
      modifies this, sub
      ensures Now() == Closed(old(Now()), old(sub.Now()))
    {
      if sub.bytesLeft > 0 {
        var ok, bytes := sub.Read(sub.bytesLeft);
      }
      memory := sub.memory;
    }
  }

  ghost predicate Skipped(before: Input, after: Input, ok: bool, wanted: Option<nat>) {
    && InMemory(before) && Stays(before, after)
    && (ok <==> wanted.Some?)
    && (ok ==> wanted.value <= before.bytesLeft && after == Moved(before, wanted.value))
  }

  ghost function More(rest: Option<nat>, k: nat): Option<nat> {
    match rest
    case None => None
    case Some(n) => Some(n + k)
  }

  ghost function Added(rest: Option<Decoded<nat>>, k: nat, sum: nat): Option<Decoded<nat>> {
    match rest
    case None => None
    case Some(d) => Some(Decoded(sum + d.value * Pow128(k), d.size + k))
  }

  /** The seven bits that the k-th byte of a varint stands for. */
  function SevenBits(b: byte, k: nat): nat { b % 128 * Pow128(k) }

  /** What a varint comes to if its first `k` bytes made up `sum` and go on. */
  ghost function VarintFrom(all: Bytes, k: nat, sum: nat): Option<Decoded<nat>>
    requires k <= |all| && k <= 10
  {
    Added(Coding.DecodeVarint(all[k..], 10 - k), k, sum)
  }

  lemma VarintStep(all: Bytes, k: nat, sum: nat)
    requires k <= |all| && k < 10
    ensures k == |all| ==> VarintFrom(all, k, sum) == None
    ensures
      k < |all| ==>
        var next := sum + SevenBits(all[k], k);
        VarintFrom(all, k, sum) == if all[k] >= 128 then VarintFrom(all, k + 1, next) else Some(Decoded(next, k + 1))
  {
    if k < |all| {
      assert all[k..][1..] == all[k + 1..];
      var rest := Coding.DecodeVarint(all[k + 1..], 10 - k - 1);
      if all[k] >= 128 && rest.Some? {
        Scaled(all[k] % 128, rest.value.value, Pow128(k));
      }
    }
  }

  lemma Scaled(low: nat, high: nat, p: nat)
    ensures (low + 128 * high) * p == low * p + high * (128 * p)
  {
  }

  lemma ModAdd(sum: nat, more: nat)
    ensures (sum % TWO_64 + more) % TWO_64 == (sum + more) % TWO_64
  {
  }

  /** What a varint comes to if its first `k` bytes made up `value` and go on. */
  ghost function TailFrom(all: Bytes, k: nat, value: nat): Option<Decoded<nat>>
    requires 0 < k <= |all|
  {
    match Varint32Tail(all[k..], k, value)
    case None => None
    case Some(d) => Some(Decoded(d.value, d.size + k))
  }

  /** What a varint of `k` bytes, the last one being `b`, comes to. */
  ghost function Ended(k: nat, b: byte, value: nat): Option<Decoded<nat>> {
    if k == 5 && b % 128 >= 16 then None else Some(Decoded(value, k))
  }

  /** One turn of the loop. */
  lemma Varint32Step(all: Bytes, k: nat, value: nat)
    requires 0 < k <= |all|
    ensures k == |all| ==> TailFrom(all, k, value) == None
    ensures
      k < |all| ==>
        var b := all[k];
        var now := TailFrom(all, k, value);
        if k >= 5 && b % 128 != 0 && (value < TWO_31 || b != (if k < 9 then 0xff else 0x01)) then now == None
        else
          var next := if k >= 5 then value else (value + SevenBits(b, k)) % TWO_32;
          now == if b >= 128 then TailFrom(all, k + 1, next) else Ended(k + 1, b, next)
  {
    if k < |all| {
      assert all[k..][1..] == all[k + 1..];
    }
  }
}
