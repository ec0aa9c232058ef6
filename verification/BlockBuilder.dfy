/** Building a block (table/block_builder.cc). */
module BlockBuilder {
  import opened Wrappers
  import opened Block
  import Coding
  import FilterBlock

  /** A restart point every `interval` entries, and none later than `interval` entries ago. */
  ghost predicate EveryInterval(restarts: seq<nat>, n: nat, interval: nat) {
    && RestartsOk(n, restarts)
    && (forall k :: 0 <= k < |restarts| - 1 ==> restarts[k + 1] == restarts[k] + interval)
    && restarts[|restarts| - 1] <= n <= restarts[|restarts| - 1] + interval
  }

  /** One more entry, as a restart point or not, is laid out after the others. */
  lemma LayoutGrows(enc: Encoding, es: seq<Pair>, restarts: seq<nat>, data: Bytes, starts: seq<nat>, e: Pair, more: seq<nat>, code: Bytes)
    requires Layout(enc, es, restarts, data, starts)
    requires forall i :: 0 <= i < |more| ==> more[i] == |es|
    requires code != [] && code == enc(SharedWithLast(es + [e], restarts + more, |es|), e)
    ensures Layout(enc, es + [e], restarts + more, data + code, starts + [|data + code|])
  {
    var es', data', starts' := es + [e], data + code, starts + [|data + code|];
    forall i | 0 <= i < |es'|
      ensures EntryAt(enc, es', restarts + more, data', starts', i)
    {
      if i < |es| {
        assert EntryAt(enc, es, restarts, data, starts, i);
        assert i in restarts + more <==> i in restarts;
        assert SharedWithLast(es', restarts + more, i) == SharedWithLast(es, restarts, i);
        assert data'[starts[i]..starts[i + 1]] == data[starts[i]..starts[i + 1]];
      } else {
        assert data'[|data|..] == code;
      }
    }
  }

  lemma RestartsGrow(restarts: seq<nat>, n: nat, interval: nat, restart: bool)
    requires interval >= 1 && EveryInterval(restarts, n, interval)
    requires restart <==> n - restarts[|restarts| - 1] >= interval
    ensures EveryInterval(restarts + (if restart then [n] else []), n + 1, interval)
    ensures n > 0 && !restart ==> n !in restarts
  {
  }

  /** What a builder that has added `es` looks like; `at` tells the restart points and `starts` where
      each entry begins. */
  ghost predicate Built(enc: Encoding, interval: nat, es: seq<Pair>, at: seq<nat>, starts: seq<nat>, buffer: Bytes,
                        restarts: seq<nat>, counter: nat, lastKey: Bytes) {
    && interval >= 1 && EveryInterval(at, |es|, interval)
    && Layout(enc, es, at, buffer, starts) && RestartOffsets(at, starts, restarts)
    && counter == |es| - at[|at| - 1]
    && lastKey == if es == [] then [] else es[|es| - 1].key
  }

  lemma AppendKeepsBuilt(enc: Encoding, interval: nat, es: seq<Pair>, at: seq<nat>, starts: seq<nat>, buffer: Bytes,
                         restarts: seq<nat>, counter: nat, lastKey: Bytes, shared: nat, e: Pair, code: Bytes)
    requires Built(enc, interval, es, at, starts, buffer, restarts, counter, lastKey)
    requires shared == if counter < interval then Common(lastKey, e.key) else 0
    requires code != [] && code == enc(shared, e)
    ensures
      var restart := counter >= interval;
      Built(enc, interval, es + [e], at + (if restart then [|es|] else []), starts + [|buffer + code|], buffer + code,
            restarts + (if restart then [|buffer|] else []), (if restart then 0 else counter) + 1, lastKey[..shared] + e.key[shared..])
  {
    var more := if counter >= interval then [|es|] else [];
    RestartsGrow(at, |es|, interval, counter >= interval);
    assert es != [] ==> (es + [e])[|es| - 1] == es[|es| - 1];
    LayoutGrows(enc, es, at, buffer, starts, e, more, code);
    assert lastKey[..shared] + e.key[shared..] == e.key;
  }

  /** The new contents of the builder's fields. */
  method Grow(ghost enc: Encoding, interval: nat, ghost es: seq<Pair>, ghost at: seq<nat>, ghost starts: seq<nat>, buffer: Bytes,
              restarts: seq<nat>, counter: nat, lastKey: Bytes, shared: nat, e: Pair, code: Bytes)
    returns (restarts': seq<nat>, counter': nat, buffer': Bytes, lastKey': Bytes, ghost at': seq<nat>, ghost starts': seq<nat>)
    requires Built(enc, interval, es, at, starts, buffer, restarts, counter, lastKey)
    requires shared == if counter < interval then Common(lastKey, e.key) else 0
    requires code != [] && code == enc(shared, e)
    ensures Built(enc, interval, es + [e], at', starts', buffer', restarts', counter', lastKey')
  {
    AppendKeepsBuilt(enc, interval, es, at, starts, buffer, restarts, counter, lastKey, shared, e, code);
    restarts', counter', at' := restarts, counter, at;
    if counter >= interval {
      restarts', counter', at' := restarts + [|buffer|], 0, at + [|es|];
    }
    assert restarts + [] == restarts && at + [] == at;
    buffer', starts' := buffer + code, starts + [|buffer + code|];
    lastKey' := lastKey[..shared] + e.key[shared..];
    counter' := counter' + 1;
  }

  class BlockBuilder {
    const interval: nat
    var buffer: Bytes
    var restarts: seq<nat>
    var counter: nat
    var lastKey: Bytes
    var finished: bool
    /** The pairs added, where each begins, and which of them are restart points. */
    ghost var es: seq<Pair>
    ghost var starts: seq<nat>
    ghost var at: seq<nat>

    ghost predicate Valid()
      reads this
    {
      ValidFor(EncodeEntry)
    }

    ghost predicate ValidFor(enc: Encoding)
      reads this
    {
      Built(enc, interval, es, at, starts, buffer, restarts, counter, lastKey)
    }

    constructor (restartInterval: nat)
      requires restartInterval >= 1
      ensures Valid() && !finished && es == [] && interval == restartInterval
    {
      interval, buffer, restarts, counter, lastKey, finished := restartInterval, [], [0], 0, [], false;
      es, starts, at := [], [0], [0];
    }

    method Add(key: Bytes, value: Bytes)
      requires Valid() && !finished
      modifies this
      ensures Valid() && !finished && es == old(es) + [Pair(key, value)]
    {
      var shared := SharedPrefix(key);
      var code := EncodeParts(shared, key, value);
      Append(EncodeEntry, shared, key, value, code);
    }

    /** How much of the last key the new one shares; nothing at a restart point. */
    method SharedPrefix(key: Bytes) returns (shared: nat)
      requires counter <= interval
      ensures shared == if counter < interval then Common(lastKey, key) else 0
    {
      shared := 0;
      if counter < interval {
        shared := CommonPrefix(lastKey, key);
      }
    }

    method Append(ghost enc: Encoding, shared: nat, key: Bytes, value: Bytes, code: Bytes)
      requires ValidFor(enc) && !finished
      requires shared == if counter < interval then Common(lastKey, key) else 0
      requires code != [] && code == enc(shared, Pair(key, value))
      modifies this
      ensures ValidFor(enc) && !finished && es == old(es) + [Pair(key, value)]
    {
      hide Built;
      ghost var moreAt, moreStarts;
      ghost var moreEs := es + [Pair(key, value)];
      restarts, counter, buffer, lastKey, moreAt, moreStarts :=
        Grow(enc, interval, es, at, starts, buffer, restarts, counter, lastKey, shared, Pair(key, value), code);
      es, starts, at := moreEs, moreStarts, moreAt;
    }

    /** Appends the restart array; the block is the encoding of all pairs added. */
    method Finish() returns (block: Bytes)
      requires Valid() && !finished
      modifies this`buffer, this`finished
      ensures IsBlock(EncodeEntry, es, at, starts, block) && EveryInterval(at, |es|, interval) && finished
    {
      block := FinishBlock(buffer, restarts);
      buffer, finished := block, true;
    }
  }

  method FinishBlock(data: Bytes, restarts: seq<nat>) returns (block: Bytes)
    ensures block == data + FilterBlock.Words(restarts) + Coding.Fixed32(|restarts|)
  {
    block := data;
    for i := 0 to |restarts|
      invariant block == data + FilterBlock.Words(restarts[..i])
    {
      WordsNext(restarts, i);
      block := block + Coding.Fixed32(restarts[i]);
    }
    assert restarts[..|restarts|] == restarts;
    block := block + Coding.Fixed32(|restarts|);
  }

  lemma WordsNext(offsets: seq<nat>, i: nat)
    requires i < |offsets|
    ensures FilterBlock.Words(offsets[..i + 1]) == FilterBlock.Words(offsets[..i]) + Coding.Fixed32(offsets[i])
  {
    assert offsets[..i + 1][..i] == offsets[..i];
  }

  method EncodeParts(shared: nat, key: Bytes, value: Bytes) returns (code: Bytes)
    requires shared <= |key|
    ensures code == EncodeEntry(shared, Pair(key, value)) && code != []
  {
    code := Coding.Varint(shared) + Coding.Varint(|key| - shared) + Coding.Varint(|value|);
    code := code + (key[shared..] + value);
  }

  /** The sharing loop of Add. */
  method CommonPrefix(last: Bytes, key: Bytes) returns (shared: nat)
    ensures shared == Common(last, key)
  {
    shared := 0;
    var minLength := if |last| < |key| then |last| else |key|;
    while shared < minLength && last[shared] == key[shared]
      invariant shared <= minLength && last[..shared] == key[..shared]
    {
      shared := shared + 1;
    }
    CommonIsLongest(last, key, shared);
  }

  lemma {:induction false} CommonIsLongest(a: Bytes, b: Bytes, n: nat)
    requires n <= |a| && n <= |b| && a[..n] == b[..n]
    requires n < |a| && n < |b| ==> a[n] != b[n]
    ensures Common(a, b) == n
  {
    if n > 0 {
      assert a[0] == a[..n][0] == b[..n][0] == b[0];
      assert a[1..][..n - 1] == a[..n][1..] && b[1..][..n - 1] == b[..n][1..];
      CommonIsLongest(a[1..], b[1..], n - 1);
    }
  }
}
