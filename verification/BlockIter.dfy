/** Reading a block: a cursor over its entries, with binary search over the restart points
    (table/block.cc). */
module BlockIter {
  import opened Wrappers
  import opened Block
  import Coding
  import FilterBlock
  import Comparator

  // ---------- What the cursor reads ----------

  function RestartPoint(block: Bytes, restarts: nat, k: nat): nat
    requires restarts + 4 * k + 4 <= |block|
  {
    FilterBlock.Word(block, restarts + 4 * k)
  }

  /** The i-th entry is found at its start. */
  ghost predicate EntryReads(block: Bytes, restarts: nat, es: seq<Pair>, at: seq<nat>, starts: seq<nat>, i: nat)
    requires i < |es| && |starts| == |es| + 1 && restarts <= |block|
  {
    starts[i] < starts[i + 1] <= restarts
    && Decodes(block[starts[i]..restarts], SharedWithLast(es, at, i), es[i], starts[i + 1] - starts[i])
  }

  ghost predicate Readable(block: Bytes, restarts: nat, es: seq<Pair>, at: seq<nat>, starts: seq<nat>) {
    && |starts| == |es| + 1 && starts[0] == 0 && starts[|es|] == restarts
    && restarts + 4 * |at| <= |block|
    && (forall i :: 0 <= i < |es| ==> EntryReads(block, restarts, es, at, starts, i))
    && RestartsOk(|es|, at)
    && (forall k :: 0 <= k < |at| ==> at[k] < |starts| && RestartPoint(block, restarts, k) == starts[at[k]])
  }

  ghost predicate AllFit(es: seq<Pair>) {
    forall e :: e in es ==> |e.key| + |e.value| < Coding.TWO_32
  }

  /** Block::Block: where the restart array begins and how many entries it has. */
  function OpenBlock(block: Bytes): Option<(nat, nat)> {
    if |block| < 4 then None
    else
      var n := FilterBlock.Word(block, |block| - 4);
      if n > (|block| - 4) / 4 then None else Some((|block| - (1 + n) * 4, n))
  }

  lemma EntryIsReadable(data: Bytes, es: seq<Pair>, at: seq<nat>, starts: seq<nat>, block: Bytes, i: nat)
    requires Layout(EncodeEntry, es, at, data, starts) && i < |es| && AllFit(es)
    requires |data| <= |block| && block[..|data|] == data
    ensures EntryReads(block, |data|, es, at, starts, i)
  {
    assert EntryAt(EncodeEntry, es, at, data, starts, i);
    var code := EncodeEntry(SharedWithLast(es, at, i), es[i]);
    assert es[i] in es;
    SliceSplits(data, block, starts[i], starts[i + 1], code);
    EntryRoundTrip(SharedWithLast(es, at, i), es[i], data[starts[i + 1]..]);
  }

  lemma SliceSplits(data: Bytes, block: Bytes, from: nat, to: nat, code: Bytes)
    requires from <= to <= |data| <= |block| && block[..|data|] == data && data[from..to] == code
    ensures block[from..|data|] == code + data[to..]
  {
    assert block[from..|data|] == block[..|data|][from..];
    assert data[from..] == data[from..to] + data[to..];
  }

  /** A finished block opens, and every entry and restart point can be read back. */
  lemma BlockIsReadable(es: seq<Pair>, at: seq<nat>, starts: seq<nat>, block: Bytes)
    requires IsBlock(EncodeEntry, es, at, starts, block) && |block| < Coding.TWO_32 && AllFit(es)
    ensures OpenBlock(block).Some? && OpenBlock(block).value.1 == |at|
    ensures Readable(block, OpenBlock(block).value.0, es, at, starts)
  {
    var data, offsets :|
      && RestartsOk(|es|, at) && Layout(EncodeEntry, es, at, data, starts) && RestartOffsets(at, starts, offsets)
      && block == data + FilterBlock.Words(offsets) + Coding.Fixed32(|offsets|);
    Coding.Fixed32RoundTrip(|offsets|);
    TailReads(data, FilterBlock.Words(offsets), Coding.Fixed32(|offsets|), |offsets|);
    forall i | 0 <= i < |es|
      ensures EntryReads(block, |data|, es, at, starts, i)
    {
      EntryIsReadable(data, es, at, starts, block, i);
    }
    StartsBounded(es, at, starts, data);
    forall k | 0 <= k < |at|
      ensures RestartPoint(block, |data|, k) == starts[at[k]]
    {
      RestartReads(data, offsets, Coding.Fixed32(|offsets|), k);
    }
  }

  lemma TailReads(data: Bytes, words: Bytes, tail: Bytes, n: nat)
    requires |words| == 4 * n && |tail| == 4 && Coding.DecodeFixed(tail) == n
    ensures (data + words + tail)[..|data|] == data && OpenBlock(data + words + tail) == Some((|data|, n))
  {
    ThreeParts(data, words, tail);
  }

  lemma ThreeParts(a: Bytes, b: Bytes, c: Bytes)
    ensures (a + b + c)[..|a|] == a && (a + b + c)[|a + b|..|a + b + c|] == c
  {
  }

  lemma SliceOf(block: Bytes, from: nat, to: nat, a: nat, b: nat)
    requires from <= to <= |block| && a <= b <= to - from
    ensures block[from..to][a..b] == block[from + a..from + b]
  {
    var whole, part := block[from..to][a..b], block[from + a..from + b];
    forall k | 0 <= k < b - a
      ensures whole[k] == part[k]
    {
      assert block[from..to][a + k] == block[from + a + k];
    }
  }

  lemma MiddleReads(a: Bytes, b: Bytes, c: Bytes)
    ensures (a + b + c)[|a|..|a + b|] == b
  {
  }

  lemma WordReads(data: Bytes, words: Bytes, tail: Bytes, k: nat, value: nat)
    requires 4 * k + 4 <= |words| && Coding.DecodeFixed(words[4 * k..4 * k + 4]) == value
    ensures RestartPoint(data + words + tail, |data|, k) == value
  {
    var block := data + words + tail;
    MiddleReads(data, words, tail);
    SliceOf(block, |data|, |data + words|, 4 * k, 4 * k + 4);
  }

  lemma RestartReads(data: Bytes, offsets: seq<nat>, tail: Bytes, k: nat)
    requires k < |offsets| && offsets[k] < Coding.TWO_32
    ensures RestartPoint(data + FilterBlock.Words(offsets) + tail, |data|, k) == offsets[k]
  {
    FilterBlock.WordAt(offsets, k);
    Coding.Fixed32RoundTrip(offsets[k]);
    WordReads(data, FilterBlock.Words(offsets), tail, k, offsets[k]);
  }

  lemma StartsBounded(es: seq<Pair>, at: seq<nat>, starts: seq<nat>, data: Bytes)
    requires Layout(EncodeEntry, es, at, data, starts)
    ensures forall i :: 0 <= i < |starts| ==> starts[i] <= |data|
  {
    forall i | 0 <= i < |starts|
      ensures starts[i] <= |data|
    {
      assert i < |es| ==> EntryAt(EncodeEntry, es, at, data, starts, i);
    }
  }

  lemma {:induction false} StartsIncrease(block: Bytes, restarts: nat, es: seq<Pair>, at: seq<nat>, starts: seq<nat>, i: nat, j: nat)
    requires Readable(block, restarts, es, at, starts) && i <= j <= |es|
    ensures starts[i] <= starts[j] && (i < j ==> starts[i] < starts[j])
    decreases j
  {
    if i < j {
      StartsIncrease(block, restarts, es, at, starts, i, j - 1);
      assert EntryReads(block, restarts, es, at, starts, j - 1);
    }
  }

  // ---------- Steps of the cursor, on values ----------

  /** ParseNextKey's decoding: the entry at an offset, given the key of the entry before it unless
      the entry is a restart point. */
  method ParseEntry(block: Bytes, restarts: nat, offset: nat, key: Bytes,
                    ghost es: seq<Pair>, ghost points: seq<nat>, ghost starts: seq<nat>, ghost j: nat)
    returns (key': Bytes, vstart: nat, vend: nat)
    requires Readable(block, restarts, es, points, starts) && j < |es| && offset == starts[j]
    requires j in points || (j > 0 && key == es[j - 1].key)
    ensures key' == es[j].key && vend == starts[j + 1]
    ensures vstart <= vend <= |block| && block[vstart..vend] == es[j].value
  {
    ParsedAt(block, restarts, key, es, points, starts, j);
    hide Readable, DecodeEntry;
    var input := block[offset..restarts];
    var h := DecodeEntry(input);
    key', vstart, vend := key, offset, offset;
    if h.None? || |key| < h.value.shared {
      // A corrupt entry: not in a readable block.
      assert false;
    } else {
      var p, n := h.value.size, h.value.nonShared;
      SliceOf(block, offset, restarts, p + n, p + n + h.value.valueLength);
      key' := key[..h.value.shared] + input[p..p + n];
      vstart, vend := offset + p + n, offset + p + n + h.value.valueLength;
    }
  }

  /** What the header of an entry leads to. */
  lemma ParsedAt(block: Bytes, restarts: nat, key: Bytes, es: seq<Pair>, points: seq<nat>, starts: seq<nat>, j: nat)
    requires Readable(block, restarts, es, points, starts) && j < |es|
    requires j in points || (j > 0 && key == es[j - 1].key)
    ensures starts[j] < starts[j + 1] <= restarts <= |block|
    ensures
      var input := block[starts[j]..restarts];
      var h := DecodeEntry(input);
      && h.Some? && h.value.shared <= |key|
      && h.value.size + h.value.nonShared + h.value.valueLength == starts[j + 1] - starts[j]
      && key[..h.value.shared] + input[h.value.size..h.value.size + h.value.nonShared] == es[j].key
      && input[h.value.size + h.value.nonShared..starts[j + 1] - starts[j]] == es[j].value
  {
    assert EntryReads(block, restarts, es, points, starts, j);
    hide Readable, DecodeEntry;
    SharedBytes(es, points, j, key);
    KeyIsWhole(es[j].key, SharedWithLast(es, points, j));
  }

  /** The key before an entry has the bytes that the entry leaves out. */
  lemma SharedBytes(es: seq<Pair>, points: seq<nat>, j: nat, key: Bytes)
    requires j < |es| && (j in points || (j > 0 && key == es[j - 1].key))
    ensures
      var shared := SharedWithLast(es, points, j);
      shared <= |key| && shared <= |es[j].key| && key[..shared] == es[j].key[..shared]
  {
  }

  lemma KeyIsWhole(key: Bytes, shared: nat)
    requires shared <= |key|
    ensures key[..shared] + key[shared..] == key
  {
  }

  /** `ri` is the index of a restart point at or before entry `j`, and of the last one before it. */
  ghost predicate InRestart(points: seq<nat>, ri: nat, j: nat) {
    ri < |points| && points[ri] <= j && (ri + 1 < |points| ==> j <= points[ri + 1])
  }

  lemma PointsCompare(block: Bytes, restarts: nat, es: seq<Pair>, points: seq<nat>, starts: seq<nat>, k: nat, j: nat)
    requires Readable(block, restarts, es, points, starts) && k < |points| && j <= |es|
    ensures RestartPoint(block, restarts, k) < starts[j] <==> points[k] < j
  {
    if points[k] <= j {
      StartsIncrease(block, restarts, es, points, starts, points[k], j);
    } else {
      StartsIncrease(block, restarts, es, points, starts, j, points[k]);
    }
  }

  /** The loop at the end of ParseNextKey. */
  method AdvanceRestart(block: Bytes, restarts: nat, numRestarts: nat, ri: nat, current: nat,
                        ghost es: seq<Pair>, ghost points: seq<nat>, ghost starts: seq<nat>, ghost j: nat)
    returns (r: nat)
    requires Readable(block, restarts, es, points, starts) && numRestarts == |points|
    requires j < |es| && current == starts[j] && ri < |points| && points[ri] <= j
    ensures InRestart(points, r, j)
  {
    r := ri;
    while r + 1 < numRestarts && RestartPoint(block, restarts, r + 1) < current
      invariant r < |points| && points[r] <= j
    {
      PointsCompare(block, restarts, es, points, starts, r + 1, j);
      r := r + 1;
    }
    if r + 1 < numRestarts {
      PointsCompare(block, restarts, es, points, starts, r + 1, j);
    }
  }

  /** The loop of Prev: back to a restart point before entry `i`, if there is one. */
  method RestartBefore(block: Bytes, restarts: nat, ri: nat, original: nat,
                       ghost es: seq<Pair>, ghost points: seq<nat>, ghost starts: seq<nat>, ghost i: nat)
    returns (found: bool, r: nat)
    requires Readable(block, restarts, es, points, starts)
    requires i < |es| && original == starts[i] && InRestart(points, ri, i)
    ensures found <==> i > 0
    ensures found ==> r < |points| && points[r] < i
  {
    r := ri;
    while RestartPoint(block, restarts, r) >= original
      invariant r < |points| && points[r] <= i
      decreases r
    {
      PointsCompare(block, restarts, es, points, starts, r, i);
      if r == 0 {
        return false, r;
      }
      r := r - 1;
    }
    PointsCompare(block, restarts, es, points, starts, r, i);
    found := true;
  }

  type Cmp = (Bytes, Bytes) -> int

  /** Keys before the target come before keys at or after it. */
  ghost predicate SortedFor(cmp: Cmp, es: seq<Pair>, target: Bytes) {
    forall i, j :: 0 <= i < j < |es| && cmp(es[j].key, target) < 0 ==> cmp(es[i].key, target) < 0
  }

  /** Keys that increase in the bytewise order are sorted for every target. */
  lemma BytewiseIsSorted(es: seq<Pair>, target: Bytes)
    requires forall i, j :: 0 <= i < j < |es| ==> Comparator.Compare(es[i].key, es[j].key) < 0
    ensures SortedFor(Comparator.Compare, es, target)
  {
    forall i, j | 0 <= i < j < |es| && Comparator.Compare(es[j].key, target) < 0
      ensures Comparator.Compare(es[i].key, target) < 0
    {
      Comparator.RankEmbeds(es[i].key, es[j].key);
      Comparator.RankEmbeds(es[j].key, target);
      Comparator.RankEmbeds(es[i].key, target);
    }
  }

  /** The binary search of Seek: the last restart point before the target, or the first one. */
  method FindRestart(cmp: Cmp, block: Bytes, restarts: nat, numRestarts: nat, target: Bytes,
                     ghost es: seq<Pair>, ghost points: seq<nat>, ghost starts: seq<nat>)
    returns (left: nat)
    requires Readable(block, restarts, es, points, starts) && numRestarts == |points| && SortedFor(cmp, es, target)
    ensures left < |points| && (left > 0 ==> cmp(es[points[left]].key, target) < 0)
  {
    left := 0;
    var right := numRestarts - 1;
    while left < right
      invariant 0 <= left <= right < |points|
      invariant left > 0 ==> cmp(es[points[left]].key, target) < 0
    {
      var mid := (left + right + 1) / 2;
      var offset := RestartPoint(block, restarts, mid);
      ghost var j := points[mid];
      assert EntryReads(block, restarts, es, points, starts, j);
      assert j in points && SharedWithLast(es, points, j) == 0;
      var input := block[offset..restarts];
      var h := DecodeEntry(input);
      if h.None? || h.value.shared != 0 {
        // A corrupt entry: not in a readable block.
        assert false;
      }
      var midKey := input[h.value.size..h.value.size + h.value.nonShared];
      assert midKey == es[j].key;
      if cmp(midKey, target) < 0 {
        left := mid;
      } else {
        right := mid - 1;
      }
    }
  }

  // ---------- Block::Iter ----------

  class Iter {
    const block: Bytes
    const restarts: nat
    const numRestarts: nat
    /** The entries of the block, its restart points, and where each entry begins. */
    ghost const es: seq<Pair>
    ghost const points: seq<nat>
    ghost const starts: seq<nat>

    var current: nat
    var restartIndex: nat
    var key: Bytes
    var vstart: nat
    var vend: nat
    /** The entry the cursor is on; the number of entries if it is on none. */
    ghost var pos: nat

    ghost predicate Intact()
      reads this
    {
      Readable(block, restarts, es, points, starts) && numRestarts == |points|
    }

    /** The cursor is on entry `pos`, or nowhere. */
    ghost predicate Valid()
      reads this
    {
      && Intact() && pos <= |es| && restarts <= |block|
      && if pos < |es| then
           && current == starts[pos] && key == es[pos].key && InRestart(points, restartIndex, pos)
           && vend == starts[pos + 1] && vstart <= vend <= |block| && block[vstart..vend] == es[pos].value
         else current >= restarts
    }

    /** ParseNextKey will find entry `j`. */
    ghost predicate Ready(j: nat)
      reads this
    {
      && Intact() && j <= |es| && vend == starts[j]
      && (j < |es| ==> j in points || (j > 0 && key == es[j - 1].key))
      && restartIndex < |points| && points[restartIndex] <= j
    }

    constructor (b: Bytes, ghost entries: seq<Pair>, ghost at: seq<nat>, ghost begins: seq<nat>)
      requires OpenBlock(b).Some?
      requires Readable(b, OpenBlock(b).value.0, entries, at, begins) && OpenBlock(b).value.1 == |at|
      ensures Valid() && pos == |es| && es == entries
    {
      var (r, n) := OpenBlock(b).value;
      block, restarts, numRestarts := b, r, n;
      es, points, starts := entries, at, begins;
      current, restartIndex, key, vstart, vend := r, n, [], 0, 0;
      pos := |entries|;
    }

    /** Iterator::Valid: the cursor is on a pair exactly if it says so. */
    predicate OnEntry(): (on: bool)
      requires Valid()
      reads this
      ensures on <==> pos < |es|
    {
      assert pos < |es| ==> EntryReads(block, restarts, es, points, starts, pos);
      current < restarts
    }

    /** key() and value() are those of the pair added at the position. */
    function Current(): (p: Pair)
      requires Valid() && OnEntry()
      reads this
      ensures p == es[pos]
    {
      Pair(key, block[vstart..vend])
    }

    method SeekToRestartPoint(k: nat)
      requires Intact() && k < |points|
      modifies this`key, this`restartIndex, this`vstart, this`vend
      ensures Ready(points[k])
    {
      key := [];
      restartIndex := k;
      var offset := RestartPoint(block, restarts, k);
      vstart, vend := offset, offset;
      assert points[k] in points;
    }

    method ParseNextKey(ghost j: nat) returns (ok: bool)
      requires Ready(j)
      modifies this`current, this`restartIndex, this`key, this`vstart, this`vend, this`pos
      ensures Valid() && pos == j && (ok <==> j < |es|)
    {
      current := vend;
      StartsIncrease(block, restarts, es, points, starts, j, |es|);
      pos := j;
      if current >= restarts {
        current := restarts;
        restartIndex := numRestarts;
        return false;
      }
      key, vstart, vend := ParseEntry(block, restarts, current, key, es, points, starts, j);
      restartIndex := AdvanceRestart(block, restarts, numRestarts, restartIndex, current, es, points, starts, j);
      ok := true;
    }

    method Next()
      requires Valid() && pos < |es|
      modifies this
      ensures Valid() && pos == old(pos) + 1
    {
      var ok := ParseNextKey(pos + 1);
    }

    /** One entry back; nowhere from the first. */
    method Prev()
      requires Valid() && pos < |es|
      modifies this
      ensures Valid() && pos == if old(pos) == 0 then |es| else old(pos) - 1
    {
      ghost var i := pos;
      var original := current;
      var found, r := RestartBefore(block, restarts, restartIndex, original, es, points, starts, i);
      if !found {
        current, restartIndex, pos := restarts, numRestarts, |es|;
        return;
      }
      SeekToRestartPoint(r);
      ScanUpTo(original, points[r], i);
    }

    /** Parses entries from `first` on until the next one would be the one that began at `original`. */
    method ScanUpTo(original: nat, ghost first: nat, ghost i: nat)
      requires Ready(first) && first < i < |es| && original == starts[i]
      modifies this`current, this`restartIndex, this`key, this`vstart, this`vend, this`pos
      ensures Valid() && pos == i - 1
    {
      ghost var j := first;
      var ok := ParseNextKey(j);
      NextStart(j, i);
      while ok && vend < original
        invariant Valid() && ok && pos == j < i
        invariant vend < original <==> j + 1 < i
        decreases i - j
      {
        j := j + 1;
        ok := ParseNextKey(j);
        NextStart(j, i);
      }
    }

    lemma NextStart(j: nat, i: nat)
      requires Intact() && j < i <= |es|
      ensures starts[j + 1] < starts[i] <==> j + 1 < i
    {
      StartsIncrease(block, restarts, es, points, starts, j + 1, i);
    }

    method SeekToFirst()
      requires Valid()
      modifies this
      ensures Valid() && pos == 0
    {
      SeekToRestartPoint(0);
      var ok := ParseNextKey(0);
    }

    method SeekToLast()
      requires Valid()
      modifies this
      ensures Valid() && pos == if es == [] then 0 else |es| - 1
    {
      hide EntryReads;
      SeekToRestartPoint(numRestarts - 1);
      ghost var j := points[|points| - 1];
      var ok := ParseNextKey(j);
      while ok && vend < restarts
        invariant Valid() && pos == j <= |es| && (ok <==> j < |es|)
        invariant es != [] ==> j < |es|
        decreases |es| - j
      {
        NextStart(j, |es|);
        j := j + 1;
        ok := ParseNextKey(j);
      }
      if j < |es| {
        NextStart(j, |es|);
      }
    }

    /** To the first entry at or after the target. */
    method Seek(cmp: Cmp, target: Bytes)
      requires Valid() && SortedFor(cmp, es, target)
      modifies this
      ensures Valid()
      ensures forall i :: 0 <= i < pos ==> cmp(es[i].key, target) < 0
      ensures pos < |es| ==> cmp(es[pos].key, target) >= 0
    {
      var left := FindRestart(cmp, block, restarts, numRestarts, target, es, points, starts);
      SeekToRestartPoint(left);
      ghost var j := points[left];
      while true
        invariant Ready(j)
        invariant forall i :: 0 <= i < j ==> cmp(es[i].key, target) < 0
        decreases |es| - j
      {
        var ok := ParseNextKey(j);
        if !ok {
          return;
        }
        if cmp(key, target) >= 0 {
          return;
        }
        j := j + 1;
      }
    }
  }
}
