/** The default order of user keys, and the short keys between two keys (util/comparator.cc). */
module Comparator {
  import opened Wrappers

  /** Slice::compare: bytewise, a proper prefix first. */
  function Compare(a: Bytes, b: Bytes): int {
    if a == [] then (if b == [] then 0 else -1)
    else if b == [] then 1
    else if a[0] < b[0] then -1
    else if a[0] > b[0] then 1
    else Compare(a[1..], b[1..])
  }

  // ---------- The order embeds into positions ----------

  /** The position of a byte string: its bytes are the digits of a number below one, each raised
      by one so that the end of a string is less than every byte. */
  function Rank(b: Bytes): (r: real)
    ensures 0.0 <= r < 1.0
  {
    if b == [] then 0.0 else (b[0] as real + 1.0 + Rank(b[1..])) / 257.0
  }

  /** Bytewise comparison is comparison of positions, and different strings have different ones:
      a user key may stand for its position. */
  lemma {:induction false} RankEmbeds(a: Bytes, b: Bytes)
    ensures Compare(a, b) < 0 <==> Rank(a) < Rank(b)
    ensures Compare(a, b) > 0 <==> Rank(a) > Rank(b)
    ensures Compare(a, b) == 0 <==> a == b
  {
    if a != [] && b != [] {
      RankEmbeds(a[1..], b[1..]);
      assert a == [a[0]] + a[1..] && b == [b[0]] + b[1..];
      var x, y := a[0] as real + 1.0, b[0] as real + 1.0;
      assert a[0] < b[0] ==> x + 1.0 <= y;
      assert b[0] < a[0] ==> y + 1.0 <= x;
    }
  }

  // ---------- FindShortestSeparator ----------

  lemma {:induction false} CompareAt(a: Bytes, b: Bytes, i: nat)
    requires i < |a| && i < |b| && a[..i] == b[..i] && a[i] != b[i]
    ensures Compare(a, b) < 0 <==> a[i] < b[i]
    ensures Compare(a, b) != 0
  {
    if i > 0 {
      assert a[0] == a[..i][0] && b[0] == b[..i][0];
      assert a[1..][..i - 1] == a[..i][1..] && b[1..][..i - 1] == b[..i][1..];
      CompareAt(a[1..], b[1..], i - 1);
    }
  }

  lemma {:induction false} ComparePrefix(a: Bytes, b: Bytes)
    requires a <= b
    ensures Compare(a, b) <= 0
  {
    if a != [] {
      ComparePrefix(a[1..], b[1..]);
    }
  }

  ghost predicate FirstDifference(a: Bytes, b: Bytes, n: nat) {
    n <= |a| && n <= |b| && a[..n] == b[..n] && (n < |a| && n < |b| ==> a[n] != b[n])
  }

  /** Cut after the first difference, the byte there raised, if that stays before the limit. */
  ghost predicate IsShortened(start: Bytes, limit: Bytes, n: nat, r: Bytes) {
    && FirstDifference(start, limit, n)
    && r == if n < |start| && n < |limit| && start[n] < 0xff && start[n] + 1 < limit[n] then start[..n] + [start[n] + 1] else start
  }

  /** A string in [start, limit), no longer than start; start itself if there is no limit after it. */
  method FindShortestSeparator(start: Bytes, limit: Bytes) returns (r: Bytes)
    ensures Compare(start, r) <= 0 && |r| <= |start|
    ensures Compare(start, limit) < 0 ==> Compare(r, limit) < 0
    ensures Compare(start, limit) >= 0 ==> r == start
    ensures exists n :: IsShortened(start, limit, n, r)
  {
    var minLength := if |start| < |limit| then |start| else |limit|;
    var diffIndex := 0;
    while diffIndex < minLength && start[diffIndex] == limit[diffIndex]
      invariant diffIndex <= minLength
      invariant start[..diffIndex] == limit[..diffIndex]
    {
      diffIndex := diffIndex + 1;
    }
    r := start;
    RankEmbeds(start, start);
    if diffIndex >= minLength {
    } else {
      CompareAt(start, limit, diffIndex);
      var diffByte := start[diffIndex];
      if diffByte < 0xff && diffByte + 1 < limit[diffIndex] {
        r := r[diffIndex := diffByte + 1];
        r := r[..diffIndex + 1];
        assert r[..diffIndex] == start[..diffIndex];
        CompareAt(start, r, diffIndex);
        CompareAt(r, limit, diffIndex);
      }
    }
    assert IsShortened(start, limit, diffIndex, r);
  }

  /** Cut after the first byte that can be raised, and that byte raised. */
  ghost predicate IsRaised(key: Bytes, n: nat, r: Bytes) {
    && n <= |key| && (forall j :: 0 <= j < n ==> key[j] == 0xff) && (n < |key| ==> key[n] != 0xff)
    && r == if n < |key| then key[..n] + [key[n] + 1] else key
  }

  /** A string at or after the key, no longer than it: the first byte that can be is incremented. */
  method FindShortSuccessor(key: Bytes) returns (r: Bytes)
    ensures Compare(key, r) <= 0 && |r| <= |key|
    ensures exists n :: IsRaised(key, n, r)
    ensures r != key ==> Compare(key, r) < 0
  {
    var n := |key|;
    for i := 0 to n
      invariant forall j :: 0 <= j < i ==> key[j] == 0xff
    {
      var b := key[i];
      if b != 0xff {
        r := key[i := b + 1];
        r := r[..i + 1];
        assert r[..i] == key[..i];
        CompareAt(key, r, i);
        assert IsRaised(key, i, r);
        return;
      }
    }
    r := key;
    RankEmbeds(key, key);
    assert IsRaised(key, n, r);
  }
}
