/** The hash table of the cache: buckets of handles chained through their next_hash links, resized
    as it grows (util/cache.cc). Handles are numbered as they are allocated; 0 is the null pointer. */
module HandleTable {
  import opened Wrappers
  import opened Circular

  /** What a handle keeps for the table and for the accounting of the cache. */
  datatype Handle = Handle(key: Bytes, hash: nat, charge: nat) {
    predicate Matches(k: Bytes, h: nat) { hash == h && key == k }
  }

  // ---------- Which bucket ----------

  /** a & b. */
  function And(a: nat, b: nat): (r: nat)
    ensures r <= b
  {
    if a == 0 || b == 0 then 0 else (if a % 2 == 1 && b % 2 == 1 then 1 else 0) + 2 * And(a / 2, b / 2)
  }

  /** The low bits of the hash value: the number of buckets is a power of two. */
  function BucketOf(hash: nat, n: nat): (i: nat)
    requires n > 0
    ensures i < n
  {
    And(hash, n - 1)
  }

  // ---------- Chains ----------

  /** `list` are the handles reached from `first`. */
  ghost predicate IsChain(next: map<nat, nat>, first: nat, list: seq<nat>)
    decreases |list|
  {
    if list == [] then first == 0
    else first == list[0] && first > 0 && first in next && IsChain(next, next[first], list[1..])
  }

  lemma {:induction false} ChainStays(next: map<nat, nat>, next': map<nat, nat>, first: nat, list: seq<nat>)
    requires IsChain(next, first, list)
    requires forall e :: e in list && e in next ==> e in next' && next'[e] == next[e]
    ensures IsChain(next', first, list)
    decreases |list|
  {
    if list != [] {
      ChainStays(next, next', next[first], list[1..]);
    }
  }

  /** Storing into the link of one handle leaves every chain without it as it is. */
  lemma StoreElsewhere(next: map<nat, nat>, first: nat, list: seq<nat>, x: nat, v: nat)
    requires IsChain(next, first, list) && x !in list
    ensures IsChain(next[x := v], first, list)
  {
    ChainStays(next, next[x := v], first, list);
  }

  lemma {:induction false} ChainAfter(next: map<nat, nat>, first: nat, a: seq<nat>, b: seq<nat>)
    requires IsChain(next, first, a + b) && a != []
    ensures a[|a| - 1] in next && IsChain(next, next[a[|a| - 1]], b)
    ensures b != [] ==> next[a[|a| - 1]] == b[0]
    decreases |a|
  {
    assert (a + b)[1..] == a[1..] + b;
    if |a| > 1 {
      ChainAfter(next, next[first], a[1..], b);
    } else {
      assert a[1..] + b == b;
    }
  }

  /** A store into the link of the last handle of `a` replaces what follows it. */
  lemma {:induction false} Splice(next: map<nat, nat>, first: nat, a: seq<nat>, b: seq<nat>, v: nat, c: seq<nat>)
    requires IsChain(next, first, a + b) && a != [] && NoRepeats(a)
    requires IsChain(next, v, c) && a[|a| - 1] !in c
    ensures IsChain(next[a[|a| - 1] := v], first, a + c)
    decreases |a|
  {
    var last := a[|a| - 1];
    assert (a + b)[1..] == a[1..] + b && (a + c)[1..] == a[1..] + c;
    if |a| > 1 {
      assert a[0] != last && a[1..][|a| - 2] == last;
      Splice(next, next[first], a[1..], b, v, c);
    } else {
      assert a[1..] + c == c;
      StoreElsewhere(next, v, c, last, v);
    }
  }

  // ---------- The table ----------

  /** One bucket: its chain holds distinct handles whose hash value leads here, with distinct keys. */
  ghost predicate BucketOk(handles: seq<Handle>, n: nat, next: map<nat, nat>, first: nat, list: seq<nat>, i: nat)
    requires n > 0
  {
    && IsChain(next, first, list) && NoRepeats(list)
    && (forall k :: 0 <= k < |list| ==> 0 < list[k] < |handles| && BucketOf(handles[list[k]].hash, n) == i)
  }

  ghost predicate BucketsOk(handles: seq<Handle>, next: map<nat, nat>, buckets: seq<nat>, chains: seq<seq<nat>>) {
    |buckets| > 0 && BucketsFit(handles, next, buckets, chains)
  }

  ghost predicate BucketsFit(handles: seq<Handle>, next: map<nat, nat>, buckets: seq<nat>, chains: seq<seq<nat>>) {
    && |buckets| == |chains|
    && forall i :: 0 <= i < |chains| ==> BucketOk(handles, |buckets|, next, buckets[i], chains[i], i)
  }

  ghost predicate InTable(chains: seq<seq<nat>>, e: nat) {
    exists i :: 0 <= i < |chains| && e in chains[i]
  }

  ghost predicate AreMembers(chains: seq<seq<nat>>, members: set<nat>) {
    forall e :: e in members <==> InTable(chains, e)
  }

  /** No two handles in the table have the same key and hash value. */
  ghost predicate KeysDiffer(handles: seq<Handle>, members: set<nat>) {
    forall e, f {:trigger handles[e].Matches(handles[f].key, handles[f].hash)} ::
      e in members && f in members && e < |handles| && f < |handles| && handles[e].Matches(handles[f].key, handles[f].hash) ==> e == f
  }

  /** A handle is in the bucket its hash value leads to. */
  lemma InItsBucket(handles: seq<Handle>, next: map<nat, nat>, buckets: seq<nat>, chains: seq<seq<nat>>, e: nat)
    requires BucketsOk(handles, next, buckets, chains) && InTable(chains, e)
    ensures 0 < e < |handles| && e in chains[BucketOf(handles[e].hash, |buckets|)]
    ensures forall i :: 0 <= i < |chains| && e in chains[i] ==> i == BucketOf(handles[e].hash, |buckets|)
  {
    var i :| 0 <= i < |chains| && e in chains[i];
    forall j | 0 <= j < |chains| && e in chains[j]
      ensures 0 < e < |handles| && j == BucketOf(handles[e].hash, |buckets|)
    {
      assert BucketOk(handles, |buckets|, next, buckets[j], chains[j], j);
      var k :| 0 <= k < |chains[j]| && chains[j][k] == e;
    }
  }

  /** A bucket is replaced, its handles' links changed only within it. */
  lemma ReplaceBucket(handles: seq<Handle>, next: map<nat, nat>, buckets: seq<nat>, chains: seq<seq<nat>>,
                      next': map<nat, nat>, i: nat, first: nat, list: seq<nat>)
    requires BucketsOk(handles, next, buckets, chains) && i < |buckets|
    requires BucketOk(handles, |buckets|, next', first, list, i)
    requires forall e :: e in next && e !in chains[i] && e !in list ==> e in next' && next'[e] == next[e]
    ensures BucketsOk(handles, next', buckets[i := first], chains[i := list])
  {
    var buckets', chains' := buckets[i := first], chains[i := list];
    forall j | 0 <= j < |chains|
      ensures BucketOk(handles, |buckets|, next', buckets'[j], chains'[j], j)
    {
      if j != i {
        assert BucketOk(handles, |buckets|, next, buckets[j], chains[j], j);
        assert BucketOk(handles, |buckets|, next, buckets[i], chains[i], i);
        ChainStays(next, next', buckets[j], chains[j]);
      }
    }
  }

  lemma ReplacedMembers(handles: seq<Handle>, next: map<nat, nat>, buckets: seq<nat>, chains: seq<seq<nat>>, members: set<nat>,
                        i: nat, list: seq<nat>, members': set<nat>)
    requires BucketsOk(handles, next, buckets, chains) && AreMembers(chains, members) && i < |chains|
    requires forall e :: e in members' <==> e in list || (e in members && e !in chains[i])
    ensures AreMembers(chains[i := list], members')
  {
    var chains' := chains[i := list];
    forall e
      ensures e in members' <==> InTable(chains', e)
    {
      if e in list {
        assert e in chains'[i];
      } else if e in members' {
        assert InTable(chains, e);
        var j :| 0 <= j < |chains| && e in chains[j];
        assert e in chains'[j];
      }
      if InTable(chains', e) && e !in list {
        var j :| 0 <= j < |chains'| && e in chains'[j];
        assert j != i && e in chains[j];
        InItsBucket(handles, next, buckets, chains, e);
      }
    }
  }

  // ---------- The operations ----------

  /** A place that holds a pointer to a handle. */
  datatype Slot = Bucket(i: nat) | NextOf(e: nat)

  ghost predicate TableOk(handles: seq<Handle>, next: map<nat, nat>, buckets: seq<nat>, chains: seq<seq<nat>>, members: set<nat>) {
    BucketsOk(handles, next, buckets, chains) && AreMembers(chains, members) && KeysDiffer(handles, members)
  }

  /** The slot that points to the p-th handle of a bucket's chain, or to null after the last. */
  ghost predicate IsSlotAt(buckets: seq<nat>, next: map<nat, nat>, chain: seq<nat>, i: nat, slot: Slot, p: nat) {
    && p <= |chain| && slot == (if p == 0 then Bucket(i) else NextOf(chain[p - 1]))
    && match slot
       case Bucket(j) => j < |buckets| && IsChain(next, buckets[j], chain[p..])
       case NextOf(e) => e in next && IsChain(next, next[e], chain[p..])
  }

  /** Only the p-th handle of the chain, if there is one, has the key. */
  ghost predicate FirstMatch(handles: seq<Handle>, chain: seq<nat>, key: Bytes, hash: nat, p: nat) {
    && p <= |chain|
    && (forall k :: 0 <= k < p ==> 0 < chain[k] < |handles| && !handles[chain[k]].Matches(key, hash))
    && (p < |chain| ==> 0 < chain[p] < |handles| && handles[chain[p]].Matches(key, hash))
  }

  function StoredNext(slot: Slot, next: map<nat, nat>, v: nat): map<nat, nat> {
    if slot.NextOf? then next[slot.e := v] else next
  }

  function StoredBuckets(slot: Slot, buckets: seq<nat>, v: nat): seq<nat>
    requires slot.Bucket? ==> slot.i < |buckets|
  {
    if slot.Bucket? then buckets[slot.i := v] else buckets
  }

  /** A store into the slot before the p-th handle replaces the chain from there on. */
  lemma StoreKeepsBuckets(handles: seq<Handle>, next: map<nat, nat>, buckets: seq<nat>, chains: seq<seq<nat>>,
                          i: nat, slot: Slot, p: nat, v: nat, c: seq<nat>)
    requires BucketsOk(handles, next, buckets, chains) && i < |buckets|
    requires IsSlotAt(buckets, next, chains[i], i, slot, p)
    requires IsChain(next, v, c) && NoRepeats(chains[i][..p] + c)
    requires forall k :: 0 <= k < |c| ==> 0 < c[k] < |handles| && BucketOf(handles[c[k]].hash, |buckets|) == i
    ensures BucketsOk(handles, StoredNext(slot, next, v), StoredBuckets(slot, buckets, v), chains[i := chains[i][..p] + c])
  {
    var a := chains[i][..p];
    assert BucketOk(handles, |buckets|, next, buckets[i], chains[i], i);
    if p == 0 {
      assert a + c == c;
      ReplaceBucket(handles, next, buckets, chains, next, i, v, a + c);
    } else {
      SplicedBucket(handles, |buckets|, next, buckets[i], chains[i], i, p, v, c);
      assert buckets[i := buckets[i]] == buckets;
      ReplaceBucket(handles, next, buckets, chains, next[chains[i][p - 1] := v], i, buckets[i], a + c);
    }
  }

  lemma SplicedBucket(handles: seq<Handle>, n: nat, next: map<nat, nat>, first: nat, chain: seq<nat>, i: nat, p: nat, v: nat, c: seq<nat>)
    requires n > 0 && BucketOk(handles, n, next, first, chain, i) && 0 < p <= |chain|
    requires IsChain(next, v, c) && NoRepeats(chain[..p] + c)
    requires forall k :: 0 <= k < |c| ==> 0 < c[k] < |handles| && BucketOf(handles[c[k]].hash, n) == i
    ensures BucketOk(handles, n, next[chain[p - 1] := v], first, chain[..p] + c, i)
  {
    var a, b := chain[..p], chain[p..];
    assert chain == a + b;
    assert (a + c)[p - 1] == chain[p - 1];
    assert forall k :: 0 <= k < |c| ==> (a + c)[p + k] == c[k];
    assert forall k, m :: 0 <= k < m < p ==> (a + c)[k] == a[k] && (a + c)[m] == a[m];
    Splice(next, first, a, b, v, c);
  }

  /** A handle that is in no chain may have its link set. */
  lemma SetFreshLink(handles: seq<Handle>, next: map<nat, nat>, buckets: seq<nat>, chains: seq<seq<nat>>, h: nat, v: nat)
    requires BucketsOk(handles, next, buckets, chains) && !InTable(chains, h)
    ensures BucketsOk(handles, next[h := v], buckets, chains)
  {
    forall i | 0 <= i < |chains|
      ensures BucketOk(handles, |buckets|, next[h := v], buckets[i], chains[i], i)
    {
      assert BucketOk(handles, |buckets|, next, buckets[i], chains[i], i);
      StoreElsewhere(next, buckets[i], chains[i], h, v);
    }
  }

  /** After the link of a fresh handle was set, a slot still points where it did. */
  lemma SlotStays(buckets: seq<nat>, next: map<nat, nat>, chain: seq<nat>, i: nat, slot: Slot, p: nat, h: nat, v: nat)
    requires IsSlotAt(buckets, next, chain, i, slot, p) && h !in chain
    ensures IsSlotAt(buckets, next[h := v], chain, i, slot, p)
  {
    var first := if slot.Bucket? then buckets[slot.i] else next[slot.e];
    StoreElsewhere(next, first, chain[p..], h, v);
  }

  // ---------- Resizing ----------

  /** The chains of the old table: distinct handles, each in the bucket its hash value leads to. */
  ghost predicate Sorted(handles: seq<Handle>, chains: seq<seq<nat>>) {
    forall j :: 0 <= j < |chains| ==> NoRepeats(chains[j]) && LeadTo(handles, |chains|, chains[j], j)
  }

  ghost predicate LeadTo(handles: seq<Handle>, n: nat, chain: seq<nat>, j: nat)
    requires n > 0
  {
    forall e :: e in chain ==> 0 < e < |handles| && BucketOf(handles[e].hash, n) == j
  }

  /** The handles passed when the first `i` chains and the first `k` handles of the next are done. */
  ghost predicate Passed(chains: seq<seq<nat>>, i: nat, k: nat, e: nat)
    requires i <= |chains| && (i < |chains| ==> k <= |chains[i]|)
  {
    (exists j :: 0 <= j < i && e in chains[j]) || (i < |chains| && e in chains[i][..k])
  }

  /** What is left of the old table can still be walked. */
  ghost predicate Remains(next: map<nat, nat>, buckets: seq<nat>, chains: seq<seq<nat>>, i: nat, k: nat, h: nat)
    requires |buckets| == |chains| && i < |chains| && k <= |chains[i]|
  {
    && IsChain(next, h, chains[i][k..])
    && forall j :: i < j < |chains| ==> IsChain(next, buckets[j], chains[j])
  }

  lemma PassOne(handles: seq<Handle>, chains: seq<seq<nat>>, i: nat, k: nat)
    requires Sorted(handles, chains) && i < |chains| && k < |chains[i]|
    ensures !Passed(chains, i, k, chains[i][k])
    ensures forall e :: Passed(chains, i, k + 1, e) <==> Passed(chains, i, k, e) || e == chains[i][k]
    ensures forall j :: i < j < |chains| ==> chains[i][k] !in chains[j]
    ensures chains[i][k] !in chains[i][k + 1..]
  {
    var x := chains[i][k];
    assert x in chains[i] && LeadTo(handles, |chains|, chains[i], i);
    forall j | 0 <= j < |chains| && x in chains[j]
      ensures j == i
    {
      assert LeadTo(handles, |chains|, chains[j], j);
    }
    assert chains[i][..k + 1] == chains[i][..k] + [x];
  }

  lemma PassBucket(chains: seq<seq<nat>>, i: nat)
    requires i < |chains|
    ensures forall e :: Passed(chains, i + 1, 0, e) <==> Passed(chains, i, |chains[i]|, e)
  {
    assert chains[i][..|chains[i]|] == chains[i];
    forall e
      ensures Passed(chains, i + 1, 0, e) <==> Passed(chains, i, |chains[i]|, e)
    {
      if Passed(chains, i + 1, 0, e) {
        var j :| 0 <= j < i + 1 && e in chains[j];
      }
    }
  }

  /** A handle goes from the front of an old chain to the front of its new one. */
  lemma MoveOne(handles: seq<Handle>, next: map<nat, nat>, buckets: seq<nat>, chains: seq<seq<nat>>, i: nat, k: nat,
                newList: seq<nat>, newChains: seq<seq<nat>>, moved: set<nat>)
    requires Sorted(handles, chains) && |buckets| == |chains| && i < |chains| && k < |chains[i]|
    requires Remains(next, buckets, chains, i, k, chains[i][k])
    requires BucketsOk(handles, next, newList, newChains) && AreMembers(newChains, moved)
    requires forall e :: e in moved <==> Passed(chains, i, k, e)
    ensures
      var x := chains[i][k];
      && 0 < x < |handles| && x in next && x !in moved
      && var b := BucketOf(handles[x].hash, |newList|);
         var next' := next[x := newList[b]];
         && Remains(next', buckets, chains, i, k + 1, next[x])
         && BucketsOk(handles, next', newList[b := x], newChains[b := [x] + newChains[b]])
         && AreMembers(newChains[b := [x] + newChains[b]], moved + {x})
         && forall e :: e in moved + {x} <==> Passed(chains, i, k + 1, e)
  {
    var x := chains[i][k];
    assert x in chains[i] && LeadTo(handles, |chains|, chains[i], i);
    PassOne(handles, chains, i, k);
    var b := BucketOf(handles[x].hash, |newList|);
    var next' := next[x := newList[b]];
    assert chains[i][k..][1..] == chains[i][k + 1..];
    StoreElsewhere(next, next[x], chains[i][k + 1..], x, newList[b]);
    forall j | i < j < |chains|
      ensures IsChain(next', buckets[j], chains[j])
    {
      StoreElsewhere(next, buckets[j], chains[j], x, newList[b]);
    }
    assert !InTable(newChains, x);
    SetFreshLink(handles, next, newList, newChains, x, newList[b]);
    Prepend(handles, next', newList, newChains, b, x);
    ReplacedMembers(handles, next', newList, newChains, moved, b, [x] + newChains[b], moved + {x});
  }

  lemma Prepend(handles: seq<Handle>, next: map<nat, nat>, buckets: seq<nat>, chains: seq<seq<nat>>, b: nat, x: nat)
    requires BucketsOk(handles, next, buckets, chains) && !InTable(chains, x) && 0 < x < |handles| && x in next
    requires b == BucketOf(handles[x].hash, |buckets|) && next[x] == buckets[b]
    ensures BucketsOk(handles, next, buckets[b := x], chains[b := [x] + chains[b]])
  {
    assert BucketOk(handles, |buckets|, next, buckets[b], chains[b], b);
    assert ([x] + chains[b])[1..] == chains[b];
    assert x !in chains[b];
    ReplaceBucket(handles, next, buckets, chains, next, b, x, [x] + chains[b]);
  }

  /** Moves all handles of one old chain. */
  method MoveChain(handles: seq<Handle>, next0: map<nat, nat>, first: nat, list0: seq<nat>,
                   ghost buckets: seq<nat>, ghost chains: seq<seq<nat>>, ghost i: nat, ghost chains0: seq<seq<nat>>, ghost moved0: set<nat>)
    returns (next: map<nat, nat>, newList: seq<nat>, count: nat, ghost newChains: seq<seq<nat>>, ghost moved: set<nat>)
    requires Sorted(handles, chains) && |buckets| == |chains| && i < |chains|
    requires Remains(next0, buckets, chains, i, 0, first)
    requires BucketsOk(handles, next0, list0, chains0) && AreMembers(chains0, moved0)
    requires forall e :: e in moved0 <==> Passed(chains, i, 0, e)
    ensures Remains(next, buckets, chains, i, |chains[i]|, 0)
    ensures BucketsOk(handles, next, newList, newChains) && AreMembers(newChains, moved) && |newList| == |list0|
    ensures (forall e :: e in moved <==> Passed(chains, i, |chains[i]|, e)) && |moved| == |moved0| + count
  {
    next, newList, count, newChains, moved := next0, list0, 0, chains0, moved0;
    var h := first;
    ghost var k := 0;
    while h != 0
      invariant k <= |chains[i]| && Remains(next, buckets, chains, i, k, h)
      invariant BucketsOk(handles, next, newList, newChains) && AreMembers(newChains, moved) && |newList| == |list0|
      invariant (forall e :: e in moved <==> Passed(chains, i, k, e)) && |moved| == |moved0| + count
      decreases |chains[i]| - k
    {
      assert h == chains[i][k];
      MoveOne(handles, next, buckets, chains, i, k, newList, newChains, moved);
      var b := BucketOf(handles[h].hash, |newList|);
      newChains, moved, k := newChains[b := [h] + newChains[b]], moved + {h}, k + 1;
      var after := next[h];
      next := next[h := newList[b]];
      newList := newList[b := h];
      h := after;
      count := count + 1;
    }
  }

  class HandleTable {
    var buckets: seq<nat>
    /** The next_hash fields of the handles in the table. */
    var nextHash: map<nat, nat>
    var elems: nat
    ghost var chains: seq<seq<nat>>
    ghost var members: set<nat>

    ghost predicate Valid(handles: seq<Handle>)
      reads this
    {
      TableOk(handles, nextHash, buckets, chains, members) && elems == |members|
    }

    constructor ()
      ensures forall handles :: Valid(handles)
      ensures members == {}
    {
      buckets, nextHash, elems, chains, members := [], map[], 0, [], {};
      new;
      Resize([]);
      forall handles: seq<Handle>
        ensures Valid(handles)
      {
        EmptyTable([], handles, nextHash, buckets, chains);
      }
    }

    predicate Has(slot: Slot)
      reads this
    {
      match slot
      case Bucket(i) => i < |buckets|
      case NextOf(e) => e in nextHash
    }

    function Load(slot: Slot): nat
      requires Has(slot)
      reads this
    {
      match slot
      case Bucket(i) => buckets[i]
      case NextOf(e) => nextHash[e]
    }

    method Store(slot: Slot, v: nat)
      requires Has(slot)
      modifies this`buckets, this`nextHash
      ensures slot.Bucket? ==> buckets == old(buckets)[slot.i := v] && nextHash == old(nextHash)
      ensures slot.NextOf? ==> buckets == old(buckets) && nextHash == old(nextHash)[slot.e := v]
    {
      match slot
      case Bucket(i) => buckets := buckets[i := v];
      case NextOf(e) => nextHash := nextHash[e := v];
    }

    /** The slot that points to the handle with the key, or the last slot of its bucket's chain: the
        slot before the p-th handle of the chain. */
    method FindPointer(handles: seq<Handle>, key: Bytes, hash: nat) returns (slot: Slot, ghost p: nat)
      requires Valid(handles)
      ensures Has(slot) && IsSlotAt(buckets, nextHash, chains[BucketOf(hash, |buckets|)], BucketOf(hash, |buckets|), slot, p)
      ensures FirstMatch(handles, chains[BucketOf(hash, |buckets|)], key, hash, p)
    {
      ghost var i := BucketOf(hash, |buckets|);
      ghost var chain := chains[i];
      assert BucketOk(handles, |buckets|, nextHash, buckets[i], chains[i], i);
      slot, p := Bucket(BucketOf(hash, |buckets|)), 0;
      assert chain[0..] == chain;
      while Load(slot) != 0 && !handles[Load(slot)].Matches(key, hash)
        invariant p <= |chain| && Has(slot)
        invariant IsSlotAt(buckets, nextHash, chain, i, slot, p)
        invariant forall k :: 0 <= k < p ==> !handles[chain[k]].Matches(key, hash)
        decreases |chain| - p
      {
        slot, p := NextOf(Load(slot)), p + 1;
        assert chain[p - 1..][1..] == chain[p..];
      }
    }

    /** The handle with the key, or null if the table has none. */
    method Lookup(handles: seq<Handle>, key: Bytes, hash: nat) returns (e: nat)
      requires Valid(handles)
      ensures e == 0 ==> forall m :: m in members && m < |handles| ==> !handles[m].Matches(key, hash)
      ensures e != 0 ==> e in members && e < |handles| && handles[e].Matches(key, hash)
    {
      var slot;
      ghost var p;
      slot, p := FindPointer(handles, key, hash);
      FoundIsMember(handles, nextHash, buckets, chains, members, key, hash, p);
      e := Load(slot);
    }

    /** Moves all handles to a list of at least as many buckets as there are handles. */
    method Resize(handles: seq<Handle>)
      requires BucketsFit(handles, nextHash, buckets, chains) && AreMembers(chains, members) && KeysDiffer(handles, members)
      requires elems == |members|
      modifies this
      ensures Valid(handles) && members == old(members) && elems == old(elems) && |buckets| >= 4 && elems <= |buckets|
    {
      var newLength := 4;
      while newLength < elems {
        newLength := newLength * 2;
      }
      var newList := seq(newLength, i => 0);
      ghost var newChains: seq<seq<nat>> := seq(newLength, i => []);
      ghost var moved: set<nat> := {};
      var count := 0;
      SortedChains(handles, nextHash, buckets, chains);
      for i := 0 to |buckets|
        invariant unchanged(`buckets) && unchanged(`chains) && unchanged(`members) && unchanged(`elems)
        invariant BucketsOk(handles, nextHash, newList, newChains) && AreMembers(newChains, moved) && |newList| == newLength
        invariant forall j :: i <= j < |chains| ==> IsChain(nextHash, buckets[j], chains[j])
        invariant forall e :: e in moved <==> Passed(chains, i, 0, e)
        invariant count == |moved|
      {
        var moves;
        nextHash, newList, moves, newChains, moved :=
          MoveChain(handles, nextHash, buckets[i], newList, buckets, chains, i, newChains, moved);
        count := count + moves;
        PassBucket(chains, i);
      }
      AllPassed(chains, members, moved);
      assert elems == count;
      buckets, chains := newList, newChains;
    }

    /** Puts a handle into the table, in the place of one with the same key if there is one. */
    method Insert(handles: seq<Handle>, h: nat) returns (replaced: nat)
      requires Valid(handles) && 0 < h < |handles| && h !in members
      modifies this
      ensures Valid(handles)
      ensures replaced == 0 ==> members == old(members) + {h}
      ensures replaced == 0 ==> forall m :: m in old(members) && m < |handles| ==> !handles[m].Matches(handles[h].key, handles[h].hash)
      ensures replaced != 0 ==> replaced in old(members) && members == old(members) - {replaced} + {h}
      ensures replaced != 0 ==> replaced < |handles| && handles[replaced].Matches(handles[h].key, handles[h].hash)
    {
      var slot;
      ghost var p;
      slot, p := FindPointer(handles, handles[h].key, handles[h].hash);
      FoundIsMember(handles, nextHash, buckets, chains, members, handles[h].key, handles[h].hash, p);
      replaced := Load(slot);
      PutAt(handles, slot, p, h, replaced);
      MembersCount(old(members), replaced, h);
      if replaced == 0 {
        elems := elems + 1;
        if elems > |buckets| {
          Resize(handles);
        }
      }
    }

    /** The new handle takes over the link of the one it replaces, and the slot. */
    method PutAt(handles: seq<Handle>, slot: Slot, ghost p: nat, h: nat, replaced: nat)
      requires TableOk(handles, nextHash, buckets, chains, members) && 0 < h < |handles| && h !in members && Has(slot)
      requires var i := BucketOf(handles[h].hash, |buckets|);
               && IsSlotAt(buckets, nextHash, chains[i], i, slot, p)
               && FirstMatch(handles, chains[i], handles[h].key, handles[h].hash, p)
               && replaced == if p < |chains[i]| then chains[i][p] else 0
      requires 0 !in members
      modifies this`nextHash, this`buckets, this`chains, this`members
      ensures TableOk(handles, nextHash, buckets, chains, members) && members == old(members) - {replaced} + {h}
    {
      ghost var i := BucketOf(handles[h].hash, |buckets|);
      InsertedAt(handles, nextHash, buckets, chains, members, i, slot, p, h);
      nextHash := nextHash[h := if replaced == 0 then 0 else nextHash[replaced]];
      Store(slot, h);
      chains := chains[i := WithHandle(chains[i], p, h)];
      members := members - (if replaced != 0 then {replaced} else {}) + {h};
    }

    /** Takes the handle with the key out of the table, if there is one. */
    method Remove(handles: seq<Handle>, key: Bytes, hash: nat) returns (result: nat)
      requires Valid(handles)
      modifies this
      ensures Valid(handles)
      ensures result == 0 ==> members == old(members) && forall m :: m in members && m < |handles| ==> !handles[m].Matches(key, hash)
      ensures result != 0 ==> result in old(members) && result < |handles| && handles[result].Matches(key, hash)
      ensures result != 0 ==> members == old(members) - {result}
    {
      ghost var i := BucketOf(hash, |buckets|);
      var slot;
      ghost var p;
      slot, p := FindPointer(handles, key, hash);
      FoundIsMember(handles, nextHash, buckets, chains, members, key, hash, p);
      result := Load(slot);
      if result != 0 {
        RemovedAt(handles, nextHash, buckets, chains, members, i, slot, p);
        Store(slot, nextHash[result]);
        elems := elems - 1;
        chains, members := chains[i := Without(chains[i], p)], members - {result};
      }
    }
  }

  lemma SortedChains(handles: seq<Handle>, next: map<nat, nat>, buckets: seq<nat>, chains: seq<seq<nat>>)
    requires BucketsFit(handles, next, buckets, chains)
    ensures Sorted(handles, chains)
    ensures forall j :: 0 <= j < |chains| ==> IsChain(next, buckets[j], chains[j])
  {
    forall j | 0 <= j < |chains|
      ensures NoRepeats(chains[j]) && LeadTo(handles, |chains|, chains[j], j) && IsChain(next, buckets[j], chains[j])
    {
      assert BucketOk(handles, |buckets|, next, buckets[j], chains[j], j);
    }
  }

  lemma AllPassed(chains: seq<seq<nat>>, members: set<nat>, moved: set<nat>)
    requires AreMembers(chains, members) && forall e :: e in moved <==> Passed(chains, |chains|, 0, e)
    ensures moved == members
  {
    forall e
      ensures e in moved <==> e in members
    {
      assert Passed(chains, |chains|, 0, e) <==> InTable(chains, e);
    }
  }

  lemma MembersCount(members: set<nat>, replaced: nat, h: nat)
    requires 0 !in members && h !in members && (replaced != 0 ==> replaced in members)
    ensures replaced == 0 ==> members - {replaced} + {h} == members + {h} && |members + {h}| == |members| + 1
    ensures replaced != 0 ==> |members - {replaced} + {h}| == |members|
  {
    if replaced != 0 {
      assert |members - {replaced}| == |members| - 1;
    }
  }

  /** A new handle in the place of the p-th, or after the last. */
  function WithHandle(chain: seq<nat>, p: nat, h: nat): seq<nat>
    requires p <= |chain|
  {
    chain[..p] + ([h] + (if p < |chain| then chain[p + 1..] else []))
  }

  lemma WithHandleNoRepeats(chain: seq<nat>, p: nat, h: nat)
    requires p <= |chain| && NoRepeats(chain) && h !in chain
    ensures NoRepeats(WithHandle(chain, p, h))
    ensures forall e :: e in WithHandle(chain, p, h) <==> e == h || (e in chain && (p < |chain| ==> e != chain[p]))
  {
    var r := WithHandle(chain, p, h);
    assert forall k :: 0 <= k < |r| ==> r[k] == if k == p then h else chain[k];
    forall e | e in chain && (p < |chain| ==> e != chain[p])
      ensures e in r
    {
      var k :| 0 <= k < |chain| && chain[k] == e;
      assert r[k] == e;
    }
    if p < |chain| {
      forall k | 0 <= k < |r| && k != p
        ensures r[k] != chain[p]
      {
      }
    }
    assert r[p] == h;
  }

  lemma InsertedAt(handles: seq<Handle>, next: map<nat, nat>, buckets: seq<nat>, chains: seq<seq<nat>>, members: set<nat>,
                   i: nat, slot: Slot, p: nat, h: nat)
    requires TableOk(handles, next, buckets, chains, members)
    requires 0 < h < |handles| && h !in members && i == BucketOf(handles[h].hash, |buckets|)
    requires IsSlotAt(buckets, next, chains[i], i, slot, p) && FirstMatch(handles, chains[i], handles[h].key, handles[h].hash, p)
    ensures p < |chains[i]| ==> chains[i][p] in next
    ensures
      var next' := next[h := if p < |chains[i]| then next[chains[i][p]] else 0];
      TableOk(handles, StoredNext(slot, next', h), StoredBuckets(slot, buckets, h), chains[i := WithHandle(chains[i], p, h)],
              members - (if p < |chains[i]| then {chains[i][p]} else {}) + {h})
  {
    var chain := chains[i];
    var rest := if p < |chain| then chain[p + 1..] else [];
    var members' := members - (if p < |chain| then {chain[p]} else {}) + {h};
    assert BucketOk(handles, |buckets|, next, buckets[i], chain, i);
    assert !InTable(chains, h);
    assert h !in chain;
    assert p < |chain| ==> chain[p..][1..] == rest && chain[p..][0] == chain[p];
    var v := if p < |chain| then next[chain[p]] else 0;
    var next' := next[h := v];
    StoreElsewhere(next, v, rest, h, v);
    assert ([h] + rest)[1..] == rest;
    SetFreshLink(handles, next, buckets, chains, h, v);
    SlotStays(buckets, next, chain, i, slot, p, h, v);
    WithHandleNoRepeats(chain, p, h);
    StoreKeepsBuckets(handles, next', buckets, chains, i, slot, p, h, [h] + rest);
    ReplacedMembers(handles, next', buckets, chains, members, i, WithHandle(chain, p, h), members');
    InsertedKeysDiffer(handles, next, buckets, chains, members, p, h, members');
  }

  lemma InsertedKeysDiffer(handles: seq<Handle>, next: map<nat, nat>, buckets: seq<nat>, chains: seq<seq<nat>>, members: set<nat>,
                           p: nat, h: nat, members': set<nat>)
    requires TableOk(handles, next, buckets, chains, members) && 0 < h < |handles|
    requires FirstMatch(handles, chains[BucketOf(handles[h].hash, |buckets|)], handles[h].key, handles[h].hash, p)
    requires var chain := chains[BucketOf(handles[h].hash, |buckets|)];
             members' == members - (if p < |chain| then {chain[p]} else {}) + {h}
    ensures KeysDiffer(handles, members')
  {
    FoundIsMember(handles, next, buckets, chains, members, handles[h].key, handles[h].hash, p);
    var chain := chains[BucketOf(handles[h].hash, |buckets|)];
    forall m | m in members' && m != h && m < |handles|
      ensures !handles[m].Matches(handles[h].key, handles[h].hash)
    {
      assert p < |chain| ==> !handles[m].Matches(handles[chain[p]].key, handles[chain[p]].hash);
    }
  }

  /** More handles may be allocated. */
  lemma TableGrows(handles: seq<Handle>, h: Handle, next: map<nat, nat>, buckets: seq<nat>, chains: seq<seq<nat>>, members: set<nat>)
    requires TableOk(handles, next, buckets, chains, members)
    ensures TableOk(handles + [h], next, buckets, chains, members) && |handles| !in members
  {
    forall i | 0 <= i < |chains|
      ensures BucketOk(handles + [h], |buckets|, next, buckets[i], chains[i], i)
    {
      assert BucketOk(handles, |buckets|, next, buckets[i], chains[i], i);
    }
    forall e | e in members
      ensures e < |handles|
    {
      assert InTable(chains, e);
      InItsBucket(handles, next, buckets, chains, e);
    }
  }

  /** An empty table is good for any handles. */
  lemma EmptyTable(h: seq<Handle>, handles: seq<Handle>, next: map<nat, nat>, buckets: seq<nat>, chains: seq<seq<nat>>)
    requires TableOk(h, next, buckets, chains, {})
    ensures TableOk(handles, next, buckets, chains, {})
  {
    forall i | 0 <= i < |chains|
      ensures BucketOk(handles, |buckets|, next, buckets[i], chains[i], i)
    {
      assert BucketOk(h, |buckets|, next, buckets[i], chains[i], i);
      if chains[i] != [] {
        assert chains[i][0] in chains[i];
        assert InTable(chains, chains[i][0]);
      }
    }
  }

  /** The chain without its p-th handle. */
  lemma RemovedAt(handles: seq<Handle>, next: map<nat, nat>, buckets: seq<nat>, chains: seq<seq<nat>>, members: set<nat>,
                  i: nat, slot: Slot, p: nat)
    requires TableOk(handles, next, buckets, chains, members) && i < |buckets|
    requires IsSlotAt(buckets, next, chains[i], i, slot, p) && p < |chains[i]|
    ensures chains[i][p] in next
    ensures TableOk(handles, StoredNext(slot, next, next[chains[i][p]]), StoredBuckets(slot, buckets, next[chains[i][p]]),
                    chains[i := Without(chains[i], p)], members - {chains[i][p]})
  {
    var chain := chains[i];
    assert BucketOk(handles, |buckets|, next, buckets[i], chain, i);
    assert chain[p..][1..] == chain[p + 1..] && chain[p..][0] == chain[p];
    WithoutNoRepeats(chain, p);
    StoreKeepsBuckets(handles, next, buckets, chains, i, slot, p, next[chain[p]], chain[p + 1..]);
    ReplacedMembers(handles, next, buckets, chains, members, i, Without(chain, p), members - {chain[p]});
  }

  /** What a search of the right bucket says about the whole table. */
  lemma FoundIsMember(handles: seq<Handle>, next: map<nat, nat>, buckets: seq<nat>, chains: seq<seq<nat>>, members: set<nat>,
                      key: Bytes, hash: nat, p: nat)
    requires TableOk(handles, next, buckets, chains, members)
    requires FirstMatch(handles, chains[BucketOf(hash, |buckets|)], key, hash, p)
    ensures p == |chains[BucketOf(hash, |buckets|)]| ==> forall m :: m in members && m < |handles| ==> !handles[m].Matches(key, hash)
    ensures p < |chains[BucketOf(hash, |buckets|)]| ==> chains[BucketOf(hash, |buckets|)][p] in members
    ensures 0 !in members
  {
    var i := BucketOf(hash, |buckets|);
    if p < |chains[i]| {
      assert chains[i][p] in chains[i];
      assert InTable(chains, chains[i][p]);
    }
    forall m | m in members
      ensures m != 0
      ensures p == |chains[i]| && m < |handles| ==> !handles[m].Matches(key, hash)
    {
      assert InTable(chains, m);
      InItsBucket(handles, next, buckets, chains, m);
    }
  }
}
