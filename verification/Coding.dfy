/** Fixed-width integers, varints and length-prefixed slices (util/coding.cc). */
module Coding {
  import opened Wrappers

  const TWO_32: nat := 0x1_0000_0000
  const TWO_64: nat := 0x1_0000_0000_0000_0000

  // ---------- Little-endian fixed-width integers ----------

  function Fixed(v: nat, width: nat): (r: Bytes)
    ensures |r| == width
  {
    if width == 0 then [] else [v % 256] + Fixed(v / 256, width - 1)
  }

  function DecodeFixed(b: Bytes): nat {
    if b == [] then 0 else b[0] + 256 * DecodeFixed(b[1..])
  }

  function Pow256(n: nat): (r: nat)
    ensures r > 0
  {
    if n == 0 then 1 else 256 * Pow256(n - 1)
  }

  /** Decoding a fixed-width integer undoes encoding it, for every value that fits. */
  lemma {:induction false} FixedRoundTrip(v: nat, width: nat)
    requires v < Pow256(width)
    ensures DecodeFixed(Fixed(v, width)) == v
  {
    if width > 0 {
      FixedRoundTrip(v / 256, width - 1);
      assert Fixed(v, width)[1..] == Fixed(v / 256, width - 1);
    }
  }

  /** Encoding undoes decoding, so no two strings of a width decode alike. */
  lemma {:induction false} FixedDecoded(b: Bytes)
    ensures Fixed(DecodeFixed(b), |b|) == b
  {
    if b != [] {
      FixedDecoded(b[1..]);
      assert DecodeFixed(b) % 256 == b[0] && DecodeFixed(b) / 256 == DecodeFixed(b[1..]);
      assert b == [b[0]] + b[1..];
    }
  }

  lemma {:induction false} DecodeFixedBound(b: Bytes)
    ensures DecodeFixed(b) < Pow256(|b|)
  {
    if b != [] {
      DecodeFixedBound(b[1..]);
    }
  }

  lemma Pow256Values()
    ensures Pow256(4) == TWO_32 && Pow256(8) == TWO_64
  {
    assert Pow256(4) == 256 * (256 * (256 * (256 * Pow256(0))));
    assert Pow256(8) == 256 * (256 * (256 * (256 * Pow256(4))));
  }

  function Fixed32(v: nat): (r: Bytes)
    ensures |r| == 4
  {
    Fixed(v, 4)
  }

  function Fixed64(v: nat): (r: Bytes)
    ensures |r| == 8
  {
    Fixed(v, 8)
  }

  /** The bytes of a fixed-width integer, the least significant first. */
  lemma FixedIsLittleEndian(v: nat)
    ensures Fixed32(v) == [v % 0x100, v / 0x100 % 0x100, v / 0x1_0000 % 0x100, v / 0x100_0000 % 0x100]
    ensures Fixed64(v) == Fixed32(v) + Fixed32(v / 0x1_0000_0000)
  {
    var v1 := v / 0x100;
    var v2 := v1 / 0x100;
    var v3 := v2 / 0x100;
    var v4 := v3 / 0x100;
    assert v2 == v / 0x1_0000 && v3 == v / 0x100_0000 && v4 == v / 0x1_0000_0000;
    assert Fixed(v3, 1) == [v3 % 0x100] + Fixed(v4, 0);
    assert Fixed(v2, 2) == [v2 % 0x100] + Fixed(v3, 1);
    assert Fixed(v1, 3) == [v1 % 0x100] + Fixed(v2, 2);
    assert Fixed(v3, 5) == [v3 % 0x100] + Fixed(v4, 4);
    assert Fixed(v2, 6) == [v2 % 0x100] + Fixed(v3, 5);
    assert Fixed(v1, 7) == [v1 % 0x100] + Fixed(v2, 6);
  }

  lemma Fixed32RoundTrip(v: nat)
    requires v < TWO_32
    ensures DecodeFixed(Fixed32(v)) == v
  {
    Pow256Values();
    FixedRoundTrip(v, 4);
  }

  lemma Fixed64RoundTrip(v: nat)
    requires v < TWO_64
    ensures DecodeFixed(Fixed64(v)) == v
  {
    Pow256Values();
    FixedRoundTrip(v, 8);
  }

  // ---------- Varints ----------

  /** Seven bits to a byte, least significant first, the high bit set on all but the last. */
  function Varint(v: nat): (r: Bytes)
    ensures |r| > 0
  {
    if v < 128 then [v] else [v % 128 + 128] + Varint(v / 128)
  }

  /** What a decoder finds at the front of its input: a value and how many bytes it took. */
  datatype Decoded<+T> = Decoded(value: T, size: nat)

  /** The loop shared by GetVarint32Ptr and GetVarint64Ptr: at most `left` bytes, and the end
      of the input ends it, too. */
  function DecodeVarint(b: Bytes, left: nat): (r: Option<Decoded<nat>>)
    ensures r.Some? ==> 0 < r.value.size <= |b|
  {
    if left == 0 || b == [] then None
    else if b[0] < 128 then Some(Decoded(b[0], 1))
    else
      match DecodeVarint(b[1..], left - 1)
      case None => None
      case Some(d) => Some(Decoded(b[0] - 128 + 128 * d.value, d.size + 1))
  }

  function Pow128(n: nat): (r: nat)
    ensures r > 0
  {
    if n == 0 then 1 else 128 * Pow128(n - 1)
  }

  lemma {:induction false} VarintRoundTrip(v: nat, rest: Bytes, left: nat)
    requires left > 0 && v < Pow128(left)
    ensures |Varint(v)| <= left
    ensures DecodeVarint(Varint(v) + rest, left) == Some(Decoded(v, |Varint(v)|))
  {
    if v >= 128 {
      VarintRoundTrip(v / 128, rest, left - 1);
      assert (Varint(v) + rest)[1..] == Varint(v / 128) + rest;
    }
  }

  ghost predicate AllContinue(b: Bytes) {
    forall i :: 0 <= i < |b| ==> b[i] >= 128
  }

  /** Every byte of a varint but the last says that another follows. */
  lemma {:induction false} CutVarint(v: nat, n: nat)
    requires n < |Varint(v)|
    ensures AllContinue(Varint(v)[..n])
  {
    if v >= 128 && n > 0 {
      CutVarint(v / 128, n - 1);
      assert Varint(v)[..n] == [v % 128 + 128] + Varint(v / 128)[..n - 1];
    }
  }

  lemma {:induction false} UnendedIsRefused(b: Bytes, left: nat)
    requires AllContinue(b)
    ensures DecodeVarint(b, left) == None
  {
    if left > 0 && b != [] { UnendedIsRefused(b[1..], left - 1); }
  }

  /** A varint that is cut off does not decode. */
  lemma CutVarintIsRefused(v: nat, n: nat)
    requires n < |Varint(v)|
    ensures GetVarint32(Varint(v)[..n]) == None && GetVarint64(Varint(v)[..n]) == None
  {
    CutVarint(v, n);
    UnendedIsRefused(Varint(v)[..n], 5);
    UnendedIsRefused(Varint(v)[..n], 10);
  }

  /** GetVarint32: five bytes at most, shifted into 32 bits. */
  function GetVarint32(b: Bytes): (r: Option<Decoded<nat>>)
    ensures r.Some? ==> 0 < r.value.size <= |b| && r.value.value < TWO_32
  {
    match DecodeVarint(b, 5)
    case None => None
    case Some(d) => Some(Decoded(d.value % TWO_32, d.size))
  }

  /** GetVarint64: ten bytes at most, shifted into 64 bits. */
  function GetVarint64(b: Bytes): (r: Option<Decoded<nat>>)
    ensures r.Some? ==> 0 < r.value.size <= |b| && r.value.value < TWO_64
  {
    match DecodeVarint(b, 10)
    case None => None
    case Some(d) => Some(Decoded(d.value % TWO_64, d.size))
  }

  lemma Pow128Values()
    ensures Pow128(5) == 0x8_0000_0000
    ensures Pow128(10) == 0x40_0000_0000_0000_0000
  {
    assert Pow128(5) == 128 * (128 * (128 * (128 * (128 * Pow128(0)))));
    assert Pow128(10) == 128 * (128 * (128 * (128 * (128 * Pow128(5)))));
  }

  lemma GetVarint32RoundTrip(v: nat, rest: Bytes)
    requires v < TWO_32
    ensures GetVarint32(Varint(v) + rest) == Some(Decoded(v, |Varint(v)|))
  {
    Pow128Values();
    VarintRoundTrip(v, rest, 5);
  }

  lemma GetVarint64RoundTrip(v: nat, rest: Bytes)
    requires v < TWO_64
    ensures GetVarint64(Varint(v) + rest) == Some(Decoded(v, |Varint(v)|))
  {
    Pow128Values();
    VarintRoundTrip(v, rest, 10);
  }

  /** EncodeVarint32 writes its five cases out; they are the loop of EncodeVarint64, unrolled. */
  function EncodeVarint32(v: nat): Bytes
    requires v < TWO_32
  {
    if v < 0x80 then [v]
    else if v < 0x4000 then [v % 128 + 128, v / 0x80]
    else if v < 0x20_0000 then [v % 128 + 128, v / 0x80 % 128 + 128, v / 0x4000]
    else if v < 0x1000_0000 then [v % 128 + 128, v / 0x80 % 128 + 128, v / 0x4000 % 128 + 128, v / 0x20_0000]
    else [v % 128 + 128, v / 0x80 % 128 + 128, v / 0x4000 % 128 + 128, v / 0x20_0000 % 128 + 128, v / 0x1000_0000]
  }

  lemma EncodeVarint32IsVarint(v: nat)
    requires v < TWO_32
    ensures EncodeVarint32(v) == Varint(v)
  {
    if v >= 0x80 {
      var v1 := v / 0x80;
      assert Varint(v) == [v % 128 + 128] + Varint(v1);
      if v1 >= 0x80 {
        var v2 := v1 / 0x80;
        assert v2 == v / 0x4000;
        assert Varint(v1) == [v1 % 128 + 128] + Varint(v2);
        if v2 >= 0x80 {
          var v3 := v2 / 0x80;
          assert v3 == v / 0x20_0000;
          assert Varint(v2) == [v2 % 128 + 128] + Varint(v3);
          if v3 >= 0x80 {
            assert v3 / 0x80 == v / 0x1000_0000;
            assert Varint(v3) == [v3 % 128 + 128] + Varint(v3 / 0x80);
          }
        }
      }
    }
  }

  // ---------- Length-prefixed slices ----------

  function LengthPrefixed(s: Bytes): Bytes {
    Varint(|s|) + s
  }

  function GetLengthPrefixed(b: Bytes): (r: Option<Decoded<Bytes>>)
    ensures r.Some? ==> 0 < r.value.size <= |b|
  {
    match GetVarint32(b)
    case None => None
    case Some(d) =>
      if d.size + d.value <= |b| then Some(Decoded(b[d.size..d.size + d.value], d.size + d.value)) else None
  }

  lemma LengthPrefixedRoundTrip(s: Bytes, rest: Bytes)
    requires |s| < TWO_32
    ensures GetLengthPrefixed(LengthPrefixed(s) + rest) == Some(Decoded(s, |LengthPrefixed(s)|))
  {
    assert LengthPrefixed(s) + rest == Varint(|s|) + (s + rest);
    GetVarint32RoundTrip(|s|, s + rest);
    assert (LengthPrefixed(s) + rest)[|Varint(|s|)|..|Varint(|s|)| + |s|] == s;
  }

  /** A string that is cut off does not decode. */
  lemma CutStringIsRefused(s: Bytes, n: nat)
    requires |s| < TWO_32 && n < |LengthPrefixed(s)|
    ensures GetLengthPrefixed(LengthPrefixed(s)[..n]) == None
  {
    var size := Varint(|s|);
    if n < |size| {
      assert LengthPrefixed(s)[..n] == size[..n];
      CutVarintIsRefused(|s|, n);
    } else {
      assert LengthPrefixed(s)[..n] == size + s[..n - |size|];
      GetVarint32RoundTrip(|s|, s[..n - |size|]);
    }
  }
}
