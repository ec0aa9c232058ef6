/** Bloom filters (util/bloom.cc). The hash function is a parameter (util/hash.h). */
module Bloom {
  import opened Wrappers

  const TWO_32: nat := 0x1_0000_0000

  type Hash = h: Bytes -> nat | forall key :: h(key) < TWO_32 ghost witness (key => 0)

  // ---------- Bits of a byte string ----------

  function Pow2(n: nat): (r: nat)
    ensures r >= 1
  {
    if n == 0 then 1 else 2 * Pow2(n - 1)
  }

  /** Bit `i` of a number: (b >> i) & 1. */
  predicate Bit(b: nat, i: nat) {
    if i == 0 then b % 2 == 1 else Bit(b / 2, i - 1)
  }

  /** b | (1 << i). */
  function WithBit(b: nat, i: nat): nat {
    if i == 0 then b / 2 * 2 + 1 else b % 2 + 2 * WithBit(b / 2, i - 1)
  }

  lemma {:induction false} WithBitSets(b: nat, i: nat, j: nat)
    ensures Bit(WithBit(b, i), j) <==> i == j || Bit(b, j)
  {
    var r := WithBit(b, i);
    if i == 0 {
      assert r / 2 == b / 2 && r % 2 == 1;
    } else {
      assert r / 2 == WithBit(b / 2, i - 1) && r % 2 == b % 2;
      if j > 0 {
        WithBitSets(b / 2, i - 1, j - 1);
      }
    }
  }

  lemma {:induction false} WithBitFits(b: nat, i: nat, n: nat)
    requires b < Pow2(n) && i < n
    ensures WithBit(b, i) < Pow2(n)
  {
    var half := Pow2(n - 1);
    assert Pow2(n) == 2 * half && b / 2 < half;
    if i > 0 {
      WithBitFits(b / 2, i - 1, n - 1);
    }
  }

  function SetBit(b: byte, i: nat): (r: byte)
    requires i < 8
    ensures forall j: nat :: Bit(r, j) <==> i == j || Bit(b, j)
  {
    assert Pow2(8) == 256 by {
      assert Pow2(4) == 2 * (2 * (2 * (2 * Pow2(0))));
      assert Pow2(8) == 2 * (2 * (2 * (2 * Pow2(4))));
    }
    WithBitFits(b, i, 8);
    assert forall j: nat :: Bit(WithBit(b, i), j) <==> i == j || Bit(b, j) by {
      forall j: nat
        ensures Bit(WithBit(b, i), j) <==> i == j || Bit(b, j)
      {
        WithBitSets(b, i, j);
      }
    }
    WithBit(b, i)
  }

  predicate IsSet(bits: Bytes, pos: nat)
    requires pos < |bits| * 8
  {
    Bit(bits[pos / 8], pos % 8)
  }

  // ---------- Probes ----------

  /** Rotate right by 17 bits. */
  function Delta(h: nat): nat
    requires h < TWO_32
  {
    h / 0x2_0000 + h % 0x2_0000 * 0x8000
  }

  /** The hash value of the j-th probe: double hashing in 32-bit arithmetic. */
  function Probe(h: nat, j: nat): (r: nat)
    requires h < TWO_32
    ensures r < TWO_32
  {
    if j == 0 then h else (Probe(h, j - 1) + Delta(h)) % TWO_32
  }

  lemma DeltaIs(high: nat, low: nat)
    requires high < 0x8000 && low < 0x2_0000
    ensures high * 0x2_0000 + low < TWO_32 && Delta(high * 0x2_0000 + low) == low * 0x8000 + high
  {
    var h := high * 0x2_0000 + low;
    assert h / 0x2_0000 == high && h % 0x2_0000 == low;
  }

  lemma NextProbe(h: nat, j: nat, d: nat)
    requires j > 0
    ensures ((h + (j - 1) * d) % TWO_32 + d) % TWO_32 == (h + j * d) % TWO_32
  {
    AddModulo(h + (j - 1) * d, d);
    assert h + (j - 1) * d + d == h + j * d;
  }

  lemma {:induction false} ProbeSteps(h: nat, d: nat, j: nat)
    requires h < TWO_32 && Delta(h) == d
    ensures Probe(h, j) == (h + j * d) % TWO_32
  {
    hide Delta;
    if j > 0 {
      ProbeSteps(h, d, j - 1);
      NextProbe(h, j, d);
    }
  }

  /** The low 17 bits become the high ones, and the j-th probe is that many such steps on. */
  lemma ProbeIs(high: nat, low: nat, j: nat)
    requires high < 0x8000 && low < 0x2_0000
    ensures
      var h := high * 0x2_0000 + low;
      h < TWO_32 && Probe(h, j) == (h + j * (low * 0x8000 + high)) % TWO_32
  {
    hide Delta;
    DeltaIs(high, low);
    ProbeSteps(high * 0x2_0000 + low, low * 0x8000 + high, j);
  }

  lemma AddModulo(a: nat, d: nat)
    ensures (a % TWO_32 + d) % TWO_32 == (a + d) % TWO_32
  {
  }

  /** The first `k` probes of a hash value find their bits set. */
  predicate AllSet(bits: Bytes, h: nat, k: nat)
    requires h < TWO_32 && |bits| > 0
  {
    forall j | 0 <= j < k :: IsSet(bits, Probe(h, j) % (|bits| * 8))
  }

  /** KeyMayMatch: too short a filter matches nothing, an unknown encoding everything. */
  predicate KeyMayMatch(hash: Hash, key: Bytes, filter: Bytes) {
    |filter| >= 2 && (filter[|filter| - 1] > 30 || AllSet(filter[..|filter| - 1], hash(key), filter[|filter| - 1]))
  }

  method FindMatch(hash: Hash, key: Bytes, filter: Bytes) returns (match_: bool)
    ensures match_ == KeyMayMatch(hash, key, filter)
  {
    var len := |filter|;
    if len < 2 {
      return false;
    }
    var bits := (len - 1) * 8;
    var k := filter[len - 1];
    if k > 30 {
      return true;
    }
    var h := hash(key);
    var delta := Delta(h);
    for j := 0 to k
      invariant h == Probe(hash(key), j)
      invariant forall i :: 0 <= i < j ==> IsSet(filter[..len - 1], Probe(hash(key), i) % bits)
    {
      var bitpos := h % bits;
      if !Bit(filter[bitpos / 8], bitpos % 8) {
        assert !IsSet(filter[..len - 1], Probe(hash(key), j) % bits);
        return false;
      }
      h := (h + delta) % TWO_32;
    }
    return true;
  }

  // ---------- CreateFilter ----------

  /** How many probes a policy makes: rounded down, between 1 and 30. */
  function Probes(bitsPerKey: nat): (k: byte)
    ensures 1 <= k <= 30
  {
    var k := (bitsPerKey as real * 0.69).Floor;
    if k < 1 then 1 else if k > 30 then 30 else k
  }

  /** ln 2 bits of a key's bits, in whole numbers. */
  lemma ProbesAre(bitsPerKey: nat)
    ensures var k := bitsPerKey * 69 / 100; Probes(bitsPerKey) == if k < 1 then 1 else if k > 30 then 30 else k
  {
    var x, k := bitsPerKey as real * 0.69, bitsPerKey * 69 / 100;
    assert x == (bitsPerKey * 69) as real / 100.0;
    assert k as real <= x < (k + 1) as real;
    assert x.Floor == k;
  }

  /** Some of the first `k` probes of a hash value is for this bit. */
  ghost predicate Hit(h: nat, k: nat, bits: nat, pos: nat)
    requires h < TWO_32 && bits > 0
  {
    exists j :: 0 <= j < k && Probe(h, j) % bits == pos
  }

  /** Exactly the bits that a key's probes hit were set in addition. */
  ghost predicate Marks(before: Bytes, after: Bytes, h: nat, k: nat)
    requires h < TWO_32 && |before| > 0
  {
    && |before| == |after|
    && forall pos :: 0 <= pos < |before| * 8 ==> (IsSet(after, pos) <==> IsSet(before, pos) || Hit(h, k, |before| * 8, pos))
  }

  method SetAt(a: array<byte>, bitpos: nat)
    requires bitpos < a.Length * 8
    modifies a
    ensures forall pos :: 0 <= pos < a.Length * 8 ==> (IsSet(a[..], pos) <==> IsSet(old(a[..]), pos) || pos == bitpos)
  {
    a[bitpos / 8] := SetBit(a[bitpos / 8], bitpos % 8);
  }

  /** Sets the bits of one key. */
  method AddKey(a: array<byte>, h0: nat, k: nat)
    requires h0 < TWO_32 && a.Length > 0
    modifies a
    ensures Marks(old(a[..]), a[..], h0, k)
  {
    var h, bits := h0, a.Length * 8;
    var delta := Delta(h);
    for j := 0 to k
      invariant h == Probe(h0, j)
      invariant Marks(old(a[..]), a[..], h0, j)
    {
      ghost var before := a[..];
      SetAt(a, h % bits);
      MarkOneMore(old(a[..]), before, a[..], h0, j);
      h := (h + delta) % TWO_32;
    }
  }

  lemma MarkOneMore(first: Bytes, before: Bytes, after: Bytes, h: nat, j: nat)
    requires h < TWO_32 && |first| > 0 && Marks(first, before, h, j) && |after| == |before|
    requires forall pos :: 0 <= pos < |before| * 8 ==>
               (IsSet(after, pos) <==> IsSet(before, pos) || pos == Probe(h, j) % (|before| * 8))
    ensures Marks(first, after, h, j + 1)
  {
    var bits := |before| * 8;
    forall pos | 0 <= pos < bits
      ensures Hit(h, j + 1, bits, pos) <==> Hit(h, j, bits, pos) || pos == Probe(h, j) % bits
    {
      if Hit(h, j + 1, bits, pos) {
        var i :| 0 <= i < j + 1 && Probe(h, i) % bits == pos;
      }
    }
  }

  /** How many bytes a filter for `n` keys has, the number of probes aside. */
  function FilterBytes(n: nat, bitsPerKey: nat): (r: nat)
    ensures r >= 8
  {
    var bits := n * bitsPerKey;
    ((if bits < 64 then 64 else bits) + 7) / 8
  }

  ghost predicate SomeHit(hash: Hash, keys: seq<Bytes>, k: nat, bits: nat, pos: nat)
    requires bits > 0
  {
    exists i :: 0 <= i < |keys| && Hit(hash(keys[i]), k, bits, pos)
  }

  /** The filter of a list of keys: its size, the number of probes, and a bit set exactly where some
      key has a probe. */
  ghost predicate IsFilter(hash: Hash, bitsPerKey: nat, keys: seq<Bytes>, filter: Bytes) {
    var bytes := FilterBytes(|keys|, bitsPerKey);
    && |filter| == bytes + 1 && filter[bytes] == Probes(bitsPerKey)
    && SetWhereHit(hash, keys, Probes(bitsPerKey), filter[..bytes])
  }

  ghost predicate SetWhereHit(hash: Hash, keys: seq<Bytes>, k: nat, bits: Bytes) {
    |bits| > 0 && forall pos :: 0 <= pos < |bits| * 8 ==> (IsSet(bits, pos) <==> SomeHit(hash, keys, k, |bits| * 8, pos))
  }

  lemma HitOneMore(hash: Hash, keys: seq<Bytes>, i: nat, k: nat, before: Bytes, after: Bytes)
    requires i < |keys| && SetWhereHit(hash, keys[..i], k, before) && Marks(before, after, hash(keys[i]), k)
    ensures SetWhereHit(hash, keys[..i + 1], k, after)
  {
    var bits := |before| * 8;
    forall pos | 0 <= pos < bits
      ensures SomeHit(hash, keys[..i + 1], k, bits, pos) <==> SomeHit(hash, keys[..i], k, bits, pos) || Hit(hash(keys[i]), k, bits, pos)
    {
      if SomeHit(hash, keys[..i], k, bits, pos) {
        var j :| 0 <= j < i && Hit(hash(keys[..i][j]), k, bits, pos);
        assert keys[..i + 1][j] == keys[..i][j];
      }
      if SomeHit(hash, keys[..i + 1], k, bits, pos) {
        var j :| 0 <= j < i + 1 && Hit(hash(keys[..i + 1][j]), k, bits, pos);
        assert j < i ==> keys[..i][j] == keys[..i + 1][j];
      }
      assert keys[..i + 1][i] == keys[i];
    }
  }

  lemma ZerosUnset(bits: Bytes, pos: nat)
    requires pos < |bits| * 8 && bits[pos / 8] == 0
    ensures !IsSet(bits, pos)
  {
    ZeroHasNoBit(pos % 8);
  }

  lemma {:induction false} ZeroHasNoBit(i: nat)
    ensures !Bit(0, i)
  {
    if i > 0 { ZeroHasNoBit(i - 1); }
  }

  /** CreateFilter appends the filter of the keys. */
  method CreateFilter(hash: Hash, bitsPerKey: nat, keys: seq<Bytes>, dst: Bytes) returns (r: Bytes)
    ensures dst <= r && IsFilter(hash, bitsPerKey, keys, r[|dst|..])
  {
    var bits := |keys| * bitsPerKey;
    if bits < 64 {
      bits := 64;
    }
    var bytes := (bits + 7) / 8;
    var k := Probes(bitsPerKey);
    var a := new byte[bytes](i => 0);
    forall pos | 0 <= pos < |a[..]| * 8
      ensures !IsSet(a[..], pos)
    {
      ZerosUnset(a[..], pos);
    }
    for i := 0 to |keys|
      invariant SetWhereHit(hash, keys[..i], k, a[..])
    {
      ghost var before := a[..];
      AddKey(a, hash(keys[i]), k);
      HitOneMore(hash, keys, i, k, before, a[..]);
    }
    assert keys[..|keys|] == keys;
    r := dst + a[..];
    r := r + [k];
    assert r[|dst|..] == a[..] + [k];
    assert (a[..] + [k])[..bytes] == a[..];
  }

  /** Every key matches the filter it went into. */
  lemma FilterMatchesKeys(hash: Hash, bitsPerKey: nat, keys: seq<Bytes>, filter: Bytes, key: Bytes)
    requires IsFilter(hash, bitsPerKey, keys, filter) && key in keys
    ensures KeyMayMatch(hash, key, filter)
  {
    var i :| 0 <= i < |keys| && keys[i] == key;
    var set_, k := filter[..|filter| - 1], Probes(bitsPerKey);
    forall j | 0 <= j < k
      ensures IsSet(set_, Probe(hash(key), j) % (|set_| * 8))
    {
      assert Hit(hash(keys[i]), k, |set_| * 8, Probe(hash(key), j) % (|set_| * 8));
    }
  }

  /** One of the `k` probes of some key is at the place. */
  ghost predicate SomeProbe(hash: Hash, keys: seq<Bytes>, k: nat, bits: nat, pos: nat)
    requires bits > 0
  {
    exists i, m :: 0 <= i < |keys| && 0 <= m < k && Probe(hash(keys[i]), m) % bits == pos
  }

  /** Each of the first `k` probes of a hash value is at the place of a probe of some key. */
  ghost predicate Covered(hash: Hash, keys: seq<Bytes>, k: nat, bits: nat, h: nat)
    requires h < TWO_32 && bits > 0
  {
    forall j :: 0 <= j < k ==> SomeProbe(hash, keys, k, bits, Probe(h, j) % bits)
  }

  lemma AllSetIff(hash: Hash, keys: seq<Bytes>, k: nat, set_: Bytes, h: nat)
    requires h < TWO_32 && SetWhereHit(hash, keys, k, set_)
    ensures AllSet(set_, h, k) <==> Covered(hash, keys, k, |set_| * 8, h)
  {
    var bits := |set_| * 8;
    if AllSet(set_, h, k) {
      forall j | 0 <= j < k
        ensures SomeProbe(hash, keys, k, bits, Probe(h, j) % bits)
      {
        assert IsSet(set_, Probe(h, j) % bits);
        ProbeHit(hash, keys, k, bits, Probe(h, j) % bits);
      }
    }
    if Covered(hash, keys, k, bits, h) {
      forall j | 0 <= j < k
        ensures IsSet(set_, Probe(h, j) % bits)
      {
        assert SomeProbe(hash, keys, k, bits, Probe(h, j) % bits);
        ProbeHit(hash, keys, k, bits, Probe(h, j) % bits);
      }
    }
  }

  /** Exactly which keys match a filter: those each of whose probes is at the place of a probe of some key that went
      into it. A filter of no keys matches none. */
  lemma MatchesIffCovered(hash: Hash, bitsPerKey: nat, keys: seq<Bytes>, filter: Bytes, key: Bytes)
    requires IsFilter(hash, bitsPerKey, keys, filter)
    ensures
      var bits, k := FilterBytes(|keys|, bitsPerKey) * 8, Probes(bitsPerKey);
      KeyMayMatch(hash, key, filter) <==> Covered(hash, keys, k, bits, hash(key))
  {
    hide Covered, AllSet, SetWhereHit, FilterBytes, Probes;
    AllSetIff(hash, keys, Probes(bitsPerKey), filter[..|filter| - 1], hash(key));
  }

  lemma ProbeHit(hash: Hash, keys: seq<Bytes>, k: nat, bits: nat, pos: nat)
    requires bits > 0
    ensures SomeHit(hash, keys, k, bits, pos) <==> SomeProbe(hash, keys, k, bits, pos)
  {
    if SomeHit(hash, keys, k, bits, pos) {
      var i :| 0 <= i < |keys| && Hit(hash(keys[i]), k, bits, pos);
      var m :| 0 <= m < k && Probe(hash(keys[i]), m) % bits == pos;
      assert 0 <= i < |keys| && 0 <= m < k && Probe(hash(keys[i]), m) % bits == pos;
    }
    forall i, m | 0 <= i < |keys| && 0 <= m < k && Probe(hash(keys[i]), m) % bits == pos
      ensures SomeHit(hash, keys, k, bits, pos)
    {
      assert Hit(hash(keys[i]), k, bits, pos);
    }
  }
}
