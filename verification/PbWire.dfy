/** Primitive values of the Protocol Buffers wire format, as nanopb writes and reads them
    (pb_encode.c, pb_decode.c). */
module PbWire {
  import opened Wrappers
  import opened Coding

  const TWO_31: int := 0x8000_0000
  const TWO_63: int := 0x8000_0000_0000_0000

  // ---------- Varints of 32 bits ----------

  /** The rest of pb_decode_varint32 after `k` bytes, each of seven bits, made up `result`. Bytes from
      the sixth on may only repeat the sign. */
  function Varint32Tail(b: Bytes, k: nat, result: nat): (r: Option<Decoded<nat>>)
    requires k > 0
    ensures r.Some? ==> 0 < r.value.size <= |b|
  {
    if b == [] then None
    else
      var bits := b[0] % 128;
      if k >= 5 && bits != 0 && (result < TWO_31 || b[0] != (if k < 9 then 0xff else 0x01)) then None
      else
        var next := if k >= 5 then result else (result + bits * Pow128(k)) % TWO_32;
        if b[0] >= 128 then
          match Varint32Tail(b[1..], k + 1, next)
          case None => None
          case Some(d) => Some(Decoded(d.value, d.size + 1))
        else if k == 4 && bits >= 16 then None
        else Some(Decoded(next, 1))
  }

  /** pb_decode_varint32: a quick case for one byte. */
  function Varint32(b: Bytes): (r: Option<Decoded<nat>>)
    ensures r.Some? ==> 0 < r.value.size <= |b|
  {
    if b == [] then None
    else if b[0] < 128 then Some(Decoded(b[0], 1))
    else
      match Varint32Tail(b[1..], 1, b[0] % 128)
      case None => None
      case Some(d) => Some(Decoded(d.value, d.size + 1))
  }

  lemma {:induction false} TailRoundTrip(v: nat, rest: Bytes, k: nat, result: nat)
    requires 0 < k < 5 && result < Pow128(k) && result + v * Pow128(k) < TWO_32 && v > 0
    ensures Varint32Tail(Varint(v) + rest, k, result) == Some(Decoded(result + v * Pow128(k), |Varint(v)|))
    decreases 5 - k
  {
    var b := Varint(v) + rest;
    PowersOf128();
    if v < 128 {
      assert b[0] == v && v % 128 == v;
      LastByteFits(v, k, result);
    } else {
      assert b[0] == v % 128 + 128 && b[0] % 128 == v % 128;
      SplitByte(v, k, result);
      assert (Varint(v) + rest)[1..] == Varint(v / 128) + rest;
      TailRoundTrip(v / 128, rest, k + 1, result + v % 128 * Pow128(k));
    }
  }

  lemma PowersOf128()
    ensures Pow128(1) == 128 && Pow128(2) == 16384 && Pow128(3) == 2097152 && Pow128(4) == 268435456
    ensures Pow128(5) == 34359738368
  {
    assert Pow128(1) == 128 * Pow128(0);
    assert Pow128(2) == 128 * Pow128(1);
    assert Pow128(3) == 128 * Pow128(2);
    assert Pow128(4) == 128 * Pow128(3);
    assert Pow128(5) == 128 * Pow128(4);
  }

  lemma LastByteFits(v: nat, k: nat, result: nat)
    requires 0 < k < 5 && v < 128 && result + v * Pow128(k) < TWO_32
    ensures (result + v * Pow128(k)) % TWO_32 == result + v * Pow128(k)
    ensures k == 4 ==> v < 16
  {
    PowersOf128();
  }

  /** Seven bits go to the result, the others are still to come; four bytes' worth of bits is all
      that the fifth byte may be left with. */
  lemma SplitByte(v: nat, k: nat, result: nat)
    requires 0 < k < 5 && v >= 128 && result < Pow128(k) && result + v * Pow128(k) < TWO_32
    ensures k < 4 && v / 128 > 0
    ensures (result + v % 128 * Pow128(k)) % TWO_32 == result + v % 128 * Pow128(k) < Pow128(k + 1)
    ensures result + v % 128 * Pow128(k) + v / 128 * Pow128(k + 1) == result + v * Pow128(k)
  {
    PowersOf128();
    var p := Pow128(k);
    assert Pow128(k + 1) == 128 * p;
    assert v == v / 128 * 128 + v % 128;
    assert v * p == v / 128 * (128 * p) + v % 128 * p;
  }

  lemma Varint32RoundTrip(v: nat, rest: Bytes)
    requires v < TWO_32
    ensures Varint32(Varint(v) + rest) == Some(Decoded(v, |Varint(v)|))
  {
    if v >= 128 {
      var b := Varint(v) + rest;
      assert b[0] == v % 128 + 128 && b[0] % 128 == v % 128;
      assert b[1..] == Varint(v / 128) + rest;
      PowersOf128();
      TailRoundTrip(v / 128, rest, 1, v % 128);
    }
  }

  // ---------- Signed integers ----------

  /** A signed 64-bit integer as the unsigned one with the same bits. */
  function AsUnsigned(n: int): nat
    requires -TWO_63 <= n < TWO_63
  {
    if n < 0 then n + TWO_64 else n
  }

  /** pb_encode_svarint: ZigZag. */
  function ZigZag(n: int): (z: nat)
    requires -TWO_63 <= n < TWO_63
    ensures z < TWO_64
  {
    if n < 0 then -2 * n - 1 else 2 * n
  }

  /** pb_decode_svarint. */
  function UnZigZag(z: nat): (n: int)
    requires z < TWO_64
    ensures -TWO_63 <= n < TWO_63
  {
    if z % 2 == 1 then -(z / 2) - 1 else z / 2
  }

  /** The sign goes to the lowest bit, so small values of either sign stay small. */
  lemma ZigZagIsSmall(n: int)
    requires -TWO_63 <= n < TWO_63
    ensures ZigZag(n) % 2 == (if n < 0 then 1 else 0) && ZigZag(n) / 2 == if n < 0 then -n - 1 else n
  {
  }

  lemma ZigZagRoundTrip(n: int)
    requires -TWO_63 <= n < TWO_63
    ensures UnZigZag(ZigZag(n)) == n
  {
  }

  function Bits(size: nat): (n: int)
    ensures n == TWO_63 || 0 < n <= TWO_31
  {
    if size == 1 then 0x80 else if size == 2 then 0x8000 else if size == 4 then TWO_31 else TWO_63
  }

  predicate IsSize(size: nat) { size == 1 || size == 2 || size == 4 || size == 8 }

  /** The value fits a signed integer of the size. */
  predicate FitsSigned(size: nat, n: int) { IsSize(size) && -Bits(size) <= n < Bits(size) }

  predicate FitsUnsigned(size: nat, n: int) { IsSize(size) && 0 <= n < 2 * Bits(size) }

  /** The low 32 bits, as a signed integer. */
  function Low32(value: nat): int {
    var low := value % TWO_32;
    if low < TWO_31 then low else low - TWO_32
  }

  function AsSigned(value: nat): int
    requires value < TWO_64
  {
    if value < TWO_63 then value else value - TWO_64
  }

  /** pb_dec_varint: fields of up to 32 bits look at the low half only, and what they cannot hold is
      an error. */
  function NarrowSigned(size: nat, value: nat): Option<int>
    requires value < TWO_64
  {
    if !IsSize(size) then None
    else
      var n := if size == 8 then AsSigned(value) else Low32(value);
      if FitsSigned(size, n) then Some(n) else None
  }

  lemma NarrowRoundTrip(size: nat, n: int)
    requires FitsSigned(size, n)
    ensures -TWO_63 <= n < TWO_63 && AsUnsigned(n) < TWO_64 && NarrowSigned(size, AsUnsigned(n)) == Some(n)
  {
    if size != 8 && n < 0 {
      LowHalf(n);
    }
  }

  lemma LowHalf(n: int)
    requires -TWO_31 <= n < 0
    ensures (n + TWO_64) % TWO_32 == n + TWO_32
  {
    assert n + TWO_64 == (n + TWO_32) + 0xffff_ffff * TWO_32;
  }

  // ---------- Tags ----------

  const WT_VARINT: nat := 0
  const WT_64BIT: nat := 1
  const WT_STRING: nat := 2
  const WT_32BIT: nat := 5

  /** pb_encode_tag. */
  function Tag(wireType: nat, number: nat): Bytes {
    Varint(number * 8 + wireType)
  }

  /** pb_decode_tag; a zero ends the message. */
  datatype Key = EndOfMessage | Key(wireType: nat, number: nat, size: nat)

  function GetTag(b: Bytes): (r: Option<Key>)
    ensures r.Some? && r.value.Key? ==> 0 < r.value.size <= |b|
  {
    match Varint32(b)
    case None => None
    case Some(d) => Some(if d.value == 0 then EndOfMessage else Key(d.value % 8, d.value / 8, d.size))
  }

  lemma TagRoundTrip(wireType: nat, number: nat, rest: Bytes)
    requires wireType < 8 && 0 < number < 0x2000_0000
    ensures GetTag(Tag(wireType, number) + rest) == Some(Key(wireType, number, |Tag(wireType, number)|))
  {
    Varint32RoundTrip(number * 8 + wireType, rest);
  }

  // ---------- Length-delimited values ----------

  /** pb_encode_string. */
  function Delimited(s: Bytes): Bytes {
    Varint(|s|) + s
  }

  /** pb_make_string_substream: the bytes of the substream, and how many the parent gives up. */
  function GetDelimited(b: Bytes): (r: Option<Decoded<Bytes>>)
    ensures r.Some? ==> 0 < r.value.size <= |b| && |r.value.value| < r.value.size
  {
    match Varint32(b)
    case None => None
    case Some(d) =>
      if d.value <= |b| - d.size then Some(Decoded(b[d.size..d.size + d.value], d.size + d.value)) else None
  }

  lemma DelimitedRoundTrip(s: Bytes, rest: Bytes)
    requires |s| < TWO_32
    ensures GetDelimited(Delimited(s) + rest) == Some(Decoded(s, |Delimited(s)|))
  {
    assert Delimited(s) + rest == Varint(|s|) + (s + rest);
    Varint32RoundTrip(|s|, s + rest);
    assert (Delimited(s) + rest)[|Varint(|s|)|..|Varint(|s|)| + |s|] == s;
  }

  /** pb_skip_varint. */
  function SkipVarint(b: Bytes): (r: Option<nat>)
    ensures r.Some? ==> 0 < r.value <= |b|
  {
    if b == [] then None
    else if b[0] < 128 then Some(1)
    else
      match SkipVarint(b[1..])
      case None => None
      case Some(n) => Some(n + 1)
  }

  /** pb_skip_field: how many bytes an unknown field takes. */
  function SkipField(wireType: nat, b: Bytes): (r: Option<nat>)
    ensures r.Some? ==> r.value <= |b|
  {
    if wireType == WT_VARINT then SkipVarint(b)
    else if wireType == WT_64BIT then (if |b| >= 8 then Some(8) else None)
    else if wireType == WT_32BIT then (if |b| >= 4 then Some(4) else None)
    else if wireType == WT_STRING then
      match GetDelimited(b)
      case None => None
      case Some(d) => Some(d.size)
    else None
  }

  // ---------- The methods ----------

  /** pb_encode_varint: the loop over seven bits at a time. */
  method EncodeVarint(value: nat) returns (buffer: Bytes)
    ensures buffer == Varint(value)
  {
    if value <= 0x7f {
      return [value];
    }
    buffer := [];
    var v: nat := value;
    ghost var last: nat := 0;
    while v != 0
      invariant v > 0 ==> Varint(value) == buffer + Varint(v)
      invariant v == 0 ==> buffer != [] && buffer[|buffer| - 1] == last + 128 && last < 128
                           && Varint(value) == buffer[..|buffer| - 1] + [last]
    {
      last := v % 128;
      EncodeStep(buffer, v, Varint(value));
      buffer := buffer + [v % 128 + 128];
      v := v / 128;
    }
    buffer := buffer[|buffer| - 1 := buffer[|buffer| - 1] % 128];
  }

  lemma EncodeStep(buffer: Bytes, v: nat, all: Bytes)
    requires v > 0 && all == buffer + Varint(v)
    ensures v / 128 > 0 ==> all == buffer + [v % 128 + 128] + Varint(v / 128)
    ensures v / 128 == 0 ==> all == buffer + [v % 128]
  {
  }
}
