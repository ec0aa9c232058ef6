/** What the operations of the LRU cache do to its two lists and its reference counts, and what holds
    over every run of them (util/cache.cc). */
module LruModel {
  import opened Wrappers
  import opened Circular
  import opened HandleTable

  /** Handles 0 and 1 are the heads of the lists. */
  const FIRST: nat := 2

  /** `lru` and `inUse` are the cached handles, oldest first; `deleted` those whose deleter has run. */
  datatype State = State(capacity: nat, handles: seq<Handle>, refs: seq<nat>, lru: seq<nat>, inUse: seq<nat>, deleted: seq<nat>) {
    predicate Cached(e: nat) { e in lru || e in inUse }

    predicate Live(e: nat) { FIRST <= e < |handles| && e < |refs| && refs[e] > 0 }
  }

  // ---------- The operations ----------

  function Minus(list: seq<nat>, e: nat): (r: seq<nat>)
    ensures |r| <= |list| && e !in r
  {
    if list == [] then [] else if list[0] == e then Minus(list[1..], e) else [list[0]] + Minus(list[1..], e)
  }

  function Charge(handles: seq<Handle>, e: nat): nat {
    if e < |handles| then handles[e].charge else 0
  }

  function Charges(handles: seq<Handle>, list: seq<nat>): nat {
    if list == [] then 0 else Charge(handles, list[0]) + Charges(handles, list[1..])
  }

  function Usage(s: State): nat {
    Charges(s.handles, s.lru) + Charges(s.handles, s.inUse)
  }

  /** A handle no client holds goes to the list of those in use. */
  function Ref(s: State, e: nat): State
    requires s.Live(e)
  {
    var moved := if s.refs[e] == 1 && s.Cached(e) then s.(lru := Minus(s.lru, e), inUse := s.inUse + [e]) else s;
    moved.(refs := s.refs[e := s.refs[e] + 1])
  }

  /** The last reference gone, the deleter runs; the last client gone, the handle becomes the newest
      of the LRU list. */
  function Unref(s: State, e: nat): State
    requires s.Live(e)
  {
    var r := s.refs[e] - 1;
    var less := s.(refs := s.refs[e := r]);
    if r == 0 then less.(deleted := s.deleted + [e])
    else if s.Cached(e) && r == 1 then less.(inUse := Minus(s.inUse, e), lru := s.lru + [e])
    else less
  }

  /** The cache gives up its reference. */
  function FinishErase(s: State, e: nat): State
    requires s.Live(e)
  {
    Unref(s.(lru := Minus(s.lru, e), inUse := Minus(s.inUse, e)), e)
  }

  /** The handle in the list with the key, or 0. */
  function FindIn(handles: seq<Handle>, list: seq<nat>, key: Bytes, hash: nat): (e: nat)
    ensures e != 0 ==> e in list && e < |handles| && handles[e].Matches(key, hash)
    ensures e == 0 ==> forall m :: m in list && 0 < m < |handles| ==> !handles[m].Matches(key, hash)
  {
    if list == [] then 0
    else if 0 < list[0] < |handles| && handles[list[0]].Matches(key, hash) then list[0]
    else
      assert list == [list[0]] + list[1..];
      FindIn(handles, list[1..], key, hash)
  }

  /** The cached handle with the key, or 0. */
  function Find(s: State, key: Bytes, hash: nat): nat {
    FindIn(s.handles, s.lru + s.inUse, key, hash)
  }

  /** Erases the oldest handles no client holds, until the rest fits. */
  function Evict(s: State): State
    decreases |s.lru|
  {
    if Usage(s) > s.capacity && s.lru != [] && s.Live(s.lru[0]) then Evict(FinishErase(s, s.lru[0])) else s
  }

  /** The new handle has a reference for the client, and one for the cache if that caches anything. */
  function Added(s: State, h: Handle): State {
    s.(handles := s.handles + [h], refs := s.refs + [if s.capacity > 0 then 2 else 1],
       inUse := if s.capacity > 0 then s.inUse + [|s.handles|] else s.inUse)
  }

  /** Insert, up to the eviction: a handle with the same key gives way. */
  function Inserted(s: State, h: Handle): State {
    var old_ := Find(s, h.key, h.hash);
    if s.capacity > 0 && Added(s, h).Live(old_) then FinishErase(Added(s, h), old_) else Added(s, h)
  }

  function Insert(s: State, h: Handle): State {
    Evict(Inserted(s, h))
  }

  function Lookup(s: State, key: Bytes, hash: nat): State {
    var e := Find(s, key, hash);
    if s.Live(e) then Ref(s, e) else s
  }

  function Erase(s: State, key: Bytes, hash: nat): State {
    var e := Find(s, key, hash);
    if s.Live(e) then FinishErase(s, e) else s
  }

  function Prune(s: State): State
    decreases |s.lru|
  {
    if s.lru != [] && s.Live(s.lru[0]) then Prune(FinishErase(s, s.lru[0])) else s
  }

  // ---------- What holds between operations ----------

  ghost function CachedSet(s: State): set<nat> {
    (set e | e in s.lru) + set e | e in s.inUse
  }

  ghost predicate Shaped(s: State) {
    && |s.handles| == |s.refs| >= FIRST
    && NoRepeats(s.lru) && NoRepeats(s.inUse) && NoRepeats(s.deleted)
    && (forall e: nat :: s.Cached(e) ==> FIRST <= e < |s.handles|)
    && (forall e: nat :: e in s.deleted ==> FIRST <= e < |s.handles|)
  }

  /** A handle's references are those held by clients and one by the cache if it is cached; a cached
      handle is in one of the lists according to its references; the deleter has run exactly if there
      are none. */
  ghost predicate HandleOk(s: State, held: multiset<nat>, e: nat)
    requires e < |s.refs|
  {
    && s.refs[e] == held[e] + (if s.Cached(e) then 1 else 0)
    && (e in s.lru ==> e !in s.inUse && held[e] == 0)
    && (e in s.inUse ==> held[e] > 0)
    && (e in s.deleted <==> s.refs[e] == 0)
  }

  /** Two cached handles may share a key between adding one and erasing the one it replaces. */
  ghost predicate InvBut(s: State, held: multiset<nat>) {
    && Shaped(s)
    && (forall e :: FIRST <= e < |s.handles| ==> HandleOk(s, held, e))
    && (forall e: nat :: e in held ==> FIRST <= e < |s.handles|)
  }

  ghost predicate Inv(s: State, held: multiset<nat>) {
    InvBut(s, held) && KeysDiffer(s.handles, CachedSet(s))
  }

  // ---------- Removing from a list ----------

  lemma {:induction false} MinusMembers(list: seq<nat>, e: nat)
    requires NoRepeats(list)
    ensures NoRepeats(Minus(list, e)) && forall x :: x in Minus(list, e) <==> x in list && x != e
    ensures e !in list ==> Minus(list, e) == list
  {
    if list != [] {
      assert list == [list[0]] + list[1..];
      MinusMembers(list[1..], e);
      assert list[0] !in list[1..];
    }
  }

  lemma {:induction false} MinusIsWithout(list: seq<nat>, i: nat)
    requires NoRepeats(list) && i < |list|
    ensures Minus(list, list[i]) == Without(list, i)
  {
    assert list == [list[0]] + list[1..];
    if i == 0 {
      assert list[0] !in list[1..];
      MinusMembers(list[1..], list[0]);
    } else {
      MinusIsWithout(list[1..], i - 1);
      assert Without(list, i) == [list[0]] + Without(list[1..], i - 1);
    }
  }

  lemma {:induction false} ChargesMinus(handles: seq<Handle>, list: seq<nat>, e: nat)
    requires NoRepeats(list)
    ensures Charges(handles, list) == Charges(handles, Minus(list, e)) + if e in list then Charge(handles, e) else 0
  {
    if list != [] {
      assert list == [list[0]] + list[1..] && list[0] !in list[1..];
      ChargesMinus(handles, list[1..], e);
      MinusMembers(list[1..], e);
      if list[0] != e {
        assert ([list[0]] + Minus(list[1..], e))[1..] == Minus(list[1..], e);
      }
    }
  }

  lemma {:induction false} ChargesAppend(handles: seq<Handle>, list: seq<nat>, e: nat)
    ensures Charges(handles, list + [e]) == Charges(handles, list) + Charge(handles, e)
  {
    if list == [] {
      assert [] + [e] == [e] && [e][1..] == [];
    } else {
      assert (list + [e])[1..] == list[1..] + [e];
      ChargesAppend(handles, list[1..], e);
    }
  }

  lemma AppendNoRepeats(list: seq<nat>, e: nat)
    requires NoRepeats(list) && e !in list
    ensures NoRepeats(list + [e])
    ensures forall x :: x in list + [e] <==> x == e || x in list
  {
  }

  // ---------- The steps keep what holds ----------

  /** Nothing but this handle changes its place, its references or whether its deleter has run. */
  ghost predicate OnlyChanges(s: State, s': State, e: nat) {
    && s'.capacity == s.capacity && s'.handles == s.handles && |s'.refs| == |s.refs|
    && (forall x :: 0 <= x < |s.refs| && x != e ==> s'.refs[x] == s.refs[x])
    && (forall x: nat :: x != e ==> (x in s'.lru <==> x in s.lru) && (x in s'.inUse <==> x in s.inUse)
                                    && (x in s'.deleted <==> x in s.deleted))
  }

  lemma OneChangeKeepsInv(s: State, held: multiset<nat>, s': State, held': multiset<nat>, e: nat)
    requires InvBut(s, held) && OnlyChanges(s, s', e) && FIRST <= e < |s.handles|
    requires NoRepeats(s'.lru) && NoRepeats(s'.inUse) && NoRepeats(s'.deleted)
    requires HandleOk(s', held', e) && (s'.Cached(e) ==> s.Cached(e))
    requires forall x: nat :: x != e ==> held'[x] == held[x]
    ensures InvBut(s', held')
    ensures CachedSet(s') == if s'.Cached(e) then CachedSet(s) else CachedSet(s) - {e}
  {
    forall x | FIRST <= x < |s'.handles|
      ensures HandleOk(s', held', x)
    {
      assert HandleOk(s, held, x);
      assert x != e ==> (s'.Cached(x) <==> s.Cached(x));
    }
    forall x: nat | x in held'
      ensures FIRST <= x < |s'.handles|
    {
      assert x != e ==> x in held;
    }
    forall x: nat | s'.Cached(x)
      ensures s.Cached(x)
    {
    }
    assert Shaped(s');
  }

  lemma RefKeepsInv(s: State, held: multiset<nat>, e: nat)
    requires Inv(s, held) && s.Live(e) && s.Cached(e)
    ensures Inv(Ref(s, e), held + multiset{e}) && Usage(Ref(s, e)) == Usage(s)
    ensures e in Ref(s, e).inUse && CachedSet(Ref(s, e)) == CachedSet(s)
  {
    assert HandleOk(s, held, e);
    if s.refs[e] == 1 {
      MinusMembers(s.lru, e);
      AppendNoRepeats(s.inUse, e);
      ChargesMinus(s.handles, s.lru, e);
      ChargesAppend(s.handles, s.inUse, e);
    }
    OneChangeKeepsInv(s, held, Ref(s, e), held + multiset{e}, e);
  }

  lemma UnrefKeepsInv(s: State, held: multiset<nat>, e: nat)
    requires Inv(s, held) && e in held
    ensures s.Live(e) && Inv(Unref(s, e), held - multiset{e})
    ensures Usage(Unref(s, e)) == Usage(s) && CachedSet(Unref(s, e)) == CachedSet(s)
  {
    assert HandleOk(s, held, e);
    var r := s.refs[e] - 1;
    if r == 0 {
      AppendNoRepeats(s.deleted, e);
    } else if s.Cached(e) && r == 1 {
      MinusMembers(s.inUse, e);
      AppendNoRepeats(s.lru, e);
      ChargesMinus(s.handles, s.inUse, e);
      ChargesAppend(s.handles, s.lru, e);
    }
    OneChangeKeepsInv(s, held, Unref(s, e), held - multiset{e}, e);
  }

  /** Erasing takes exactly this handle out of the cache; clients keep theirs. */
  lemma FinishEraseKeepsInv(s: State, held: multiset<nat>, e: nat)
    requires InvBut(s, held) && s.Cached(e)
    ensures s.Live(e) && InvBut(FinishErase(s, e), held)
    ensures CachedSet(FinishErase(s, e)) == CachedSet(s) - {e}
    ensures Usage(s) == Usage(FinishErase(s, e)) + Charge(s.handles, e)
    ensures FinishErase(s, e).lru == Minus(s.lru, e) && FinishErase(s, e).inUse == Minus(s.inUse, e)
  {
    assert HandleOk(s, held, e);
    MinusMembers(s.lru, e);
    MinusMembers(s.inUse, e);
    ChargesMinus(s.handles, s.lru, e);
    ChargesMinus(s.handles, s.inUse, e);
    if s.refs[e] == 1 {
      AppendNoRepeats(s.deleted, e);
    }
    OneChangeKeepsInv(s, held, FinishErase(s, e), held, e);
  }

  // ---------- The operations keep what holds ----------

  lemma CachedIsLive(s: State, held: multiset<nat>, e: nat)
    requires Inv(s, held) && s.Cached(e)
    ensures s.Live(e)
  {
    assert HandleOk(s, held, e);
  }

  /** The handle found is the only cached one with the key. */
  lemma FoundIsCached(s: State, held: multiset<nat>, key: Bytes, hash: nat)
    requires Inv(s, held)
    ensures var e := Find(s, key, hash); e != 0 ==> s.Live(e) && s.Cached(e) && s.handles[e].Matches(key, hash)
    ensures forall m :: m in CachedSet(s) && m < |s.handles| && s.handles[m].Matches(key, hash) ==> m == Find(s, key, hash)
    ensures Find(s, key, hash) == 0 ==> !s.Live(0)
  {
    var e := Find(s, key, hash);
    if e != 0 {
      assert e in CachedSet(s);
      CachedIsLive(s, held, e);
    }
    forall m | m in CachedSet(s) && m < |s.handles| && s.handles[m].Matches(key, hash)
      ensures m == e
    {
      assert m in s.lru + s.inUse && s.Cached(m);
      assert e != 0;
      assert s.handles[m].Matches(s.handles[e].key, s.handles[e].hash);
    }
  }

  lemma ListsInRange(s: State)
    requires Shaped(s)
    ensures forall k :: 0 <= k < |s.lru| ==> FIRST <= s.lru[k] < |s.handles|
    ensures forall k :: 0 <= k < |s.inUse| ==> FIRST <= s.inUse[k] < |s.handles|
    ensures forall k :: 0 <= k < |s.deleted| ==> FIRST <= s.deleted[k] < |s.handles|
  {
    assert forall k :: 0 <= k < |s.lru| ==> s.Cached(s.lru[k]);
    assert forall k :: 0 <= k < |s.inUse| ==> s.Cached(s.inUse[k]);
    assert forall k :: 0 <= k < |s.deleted| ==> s.deleted[k] in s.deleted;
  }

  lemma {:induction false} ChargesStay(handles: seq<Handle>, h: Handle, list: seq<nat>)
    requires forall k :: 0 <= k < |list| ==> list[k] < |handles|
    ensures Charges(handles + [h], list) == Charges(handles, list)
  {
    if list != [] { ChargesStay(handles, h, list[1..]); }
  }

  lemma AddedHolds(s: State, held: multiset<nat>, h: Handle)
    requires Inv(s, held)
    ensures InvBut(Added(s, h), held + multiset{|s.handles|})
    ensures CachedSet(Added(s, h)) == CachedSet(s) + if s.capacity > 0 then {|s.handles|} else {}
    ensures Usage(Added(s, h)) == Usage(s) + if s.capacity > 0 then h.charge else 0
  {
    var n, s' := |s.handles|, Added(s, h);
    ListsInRange(s);
    assert held[n] == 0;
    AppendNoRepeats(s.inUse, n);
    ChargesStay(s.handles, h, s.lru);
    ChargesStay(s.handles, h, s.inUse);
    ChargesAppend(s.handles + [h], s.inUse, n);
    forall e | FIRST <= e < |s'.handles|
      ensures HandleOk(s', held + multiset{n}, e)
    {
      assert e < n ==> HandleOk(s, held, e);
    }
  }

  /** A handle with a new key, or one whose key's old handle is erased at once, keeps keys distinct. */
  lemma InsertedKeepsInv(s: State, held: multiset<nat>, h: Handle)
    requires Inv(s, held)
    ensures Inv(Inserted(s, h), held + multiset{|s.handles|})
    ensures Inserted(s, h).capacity == s.capacity && Inserted(s, h).handles == s.handles + [h]
    ensures s.capacity > 0 ==> |s.handles| in Inserted(s, h).inUse
    ensures CachedSet(Inserted(s, h)) == if s.capacity > 0 then CachedSet(s) - {Find(s, h.key, h.hash)} + {|s.handles|} else CachedSet(s)
  {
    var n, e, held' := |s.handles|, Find(s, h.key, h.hash), held + multiset{|s.handles|};
    var s1 := Added(s, h);
    AddedHolds(s, held, h);
    FoundIsCached(s, held, h.key, h.hash);
    ListsInRange(s);
    if s.capacity > 0 && e != 0 {
      assert s1.Cached(e);
      FinishEraseKeepsInv(s1, held', e);
      MinusMembers(s1.inUse, e);
    }
    assert e == 0 ==> !s1.Live(e) && 0 !in CachedSet(s);
    NewKeyDiffers(s, held, h, CachedSet(Inserted(s, h)));
  }

  lemma NewKeyDiffers(s: State, held: multiset<nat>, h: Handle, after: set<nat>)
    requires Inv(s, held)
    requires after <= CachedSet(s) || after <= CachedSet(s) - {Find(s, h.key, h.hash)} + {|s.handles|}
    ensures KeysDiffer(s.handles + [h], after)
  {
    var all, n := s.handles + [h], |s.handles|;
    FoundIsCached(s, held, h.key, h.hash);
    ListsInRange(s);
    assert forall m :: m in CachedSet(s) ==> s.Cached(m);
    forall x, y | x in after && y in after && x < |all| && y < |all| && all[x].Matches(all[y].key, all[y].hash)
      ensures x == y
    {
      if x < n && y < n {
        assert s.handles[x].Matches(s.handles[y].key, s.handles[y].hash);
      }
    }
  }

  /** Eviction takes the oldest handles, no more than it needs to, and leaves those in use alone. */
  lemma {:induction false} EvictKeepsInv(s: State, held: multiset<nat>) returns (n: nat)
    requires Inv(s, held)
    ensures Inv(Evict(s), held) && Evict(s).capacity == s.capacity && Evict(s).handles == s.handles
    ensures n <= |s.lru| && Evict(s).lru == s.lru[n..] && Evict(s).inUse == s.inUse
    ensures Usage(Evict(s)) <= s.capacity || Evict(s).lru == []
    ensures n > 0 ==> Charges(s.handles, s.lru[n - 1..]) + Charges(s.handles, s.inUse) > s.capacity
    decreases |s.lru|
  {
    n := 0;
    if s.lru != [] {
      EraseOldest(s, held);
      if Usage(s) > s.capacity {
        var s' := FinishErase(s, s.lru[0]);
        var m := EvictKeepsInv(s', held);
        n := m + 1;
        assert s.lru[1..][m..] == s.lru[n..];
        assert m > 0 ==> s.lru[1..][m - 1..] == s.lru[n - 1..];
        assert s.lru[0..] == s.lru;
      }
    }
  }

  lemma EraseOldest(s: State, held: multiset<nat>)
    requires Inv(s, held) && s.lru != []
    ensures s.Live(s.lru[0])
    ensures
      var s' := FinishErase(s, s.lru[0]);
      && Inv(s', held) && s'.lru == s.lru[1..] && s'.inUse == s.inUse
      && s'.capacity == s.capacity && s'.handles == s.handles && s'.deleted == s.deleted + [s.lru[0]]
  {
    var e := s.lru[0];
    assert s.Cached(e);
    FinishEraseKeepsInv(s, held, e);
    MinusIsWithout(s.lru, 0);
    assert HandleOk(s, held, e);
    MinusMembers(s.inUse, e);
    assert Without(s.lru, 0) == s.lru[1..];
  }

  /** After Insert the cache fits its capacity, or only handles in use are left; the new handle is the
      one cached for its key, unless nothing is cached at all. */
  lemma InsertKeepsInv(s: State, held: multiset<nat>, h: Handle)
    requires Inv(s, held)
    ensures Inv(Insert(s, h), held + multiset{|s.handles|})
    ensures Usage(Insert(s, h)) <= s.capacity || Insert(s, h).lru == []
    ensures s.capacity > 0 ==> Find(Insert(s, h), h.key, h.hash) == |s.handles|
    ensures s.capacity == 0 ==> Insert(s, h).Live(|s.handles|) && !Insert(s, h).Cached(|s.handles|)
  {
    var held', n := held + multiset{|s.handles|}, |s.handles|;
    InsertedKeepsInv(s, held, h);
    var k := EvictKeepsInv(Inserted(s, h), held');
    var s' := Insert(s, h);
    ListsInRange(s);
    assert HandleOk(s', held', n) && held'[n] >= 1;
    FoundIsCached(s', held', h.key, h.hash);
    if s.capacity > 0 {
      assert n in CachedSet(s');
    } else {
      assert forall i :: 0 <= i < |s'.lru| ==> s'.lru[i] == Inserted(s, h).lru[k + i];
      assert n !in CachedSet(s);
    }
  }

  lemma LookupKeepsInv(s: State, held: multiset<nat>, key: Bytes, hash: nat)
    requires Inv(s, held)
    ensures
      var e := Find(s, key, hash);
      Inv(Lookup(s, key, hash), if e == 0 then held else held + multiset{e})
    ensures Find(Lookup(s, key, hash), key, hash) == Find(s, key, hash)
  {
    FoundIsCached(s, held, key, hash);
    var e := Find(s, key, hash);
    if e != 0 {
      RefKeepsInv(s, held, e);
      FoundIsCached(Lookup(s, key, hash), held + multiset{e}, key, hash);
      assert e in CachedSet(s);
    }
  }

  /** After Erase the key is not found; a handle that clients hold lives on. */
  lemma EraseKeepsInv(s: State, held: multiset<nat>, key: Bytes, hash: nat)
    requires Inv(s, held)
    ensures Inv(Erase(s, key, hash), held)
    ensures Find(Erase(s, key, hash), key, hash) == 0
    ensures forall e :: e in held ==> Erase(s, key, hash).Live(e)
  {
    FoundIsCached(s, held, key, hash);
    var e, s' := Find(s, key, hash), Erase(s, key, hash);
    if e != 0 {
      FinishEraseKeepsInv(s, held, e);
    }
    forall x | x in CachedSet(s') && x < |s.handles|
      ensures !s.handles[x].Matches(key, hash)
    {
      assert x in CachedSet(s) && s.Cached(x) && x != e;
    }
    FoundIsCached(s', held, key, hash);
    HeldIsLive(s', held);
    assert s'.handles == s.handles;
    assert Find(s', key, hash) != 0 ==> Find(s', key, hash) in CachedSet(s');
  }

  lemma HeldIsLive(s: State, held: multiset<nat>)
    requires Inv(s, held)
    ensures forall e :: e in held ==> s.Live(e)
  {
    forall e | e in held
      ensures s.Live(e)
    {
      assert HandleOk(s, held, e);
    }
  }

  /** Prune erases every handle that no client holds, and nothing else. */
  lemma {:induction false} PruneKeepsInv(s: State, held: multiset<nat>)
    requires Inv(s, held)
    ensures Inv(Prune(s), held) && Prune(s).lru == [] && Prune(s).inUse == s.inUse
    ensures Prune(s).deleted == s.deleted + s.lru
    decreases |s.lru|
  {
    if s.lru != [] {
      EraseOldest(s, held);
      PruneKeepsInv(FinishErase(s, s.lru[0]), held);
      assert s.deleted + [s.lru[0]] + s.lru[1..] == s.deleted + s.lru;
    }
  }

  /** Once every client has released its handles, erasing what is left has run every deleter. */
  lemma NothingLeaks(s: State)
    requires Inv(s, multiset{})
    ensures s.inUse == []
    ensures forall e :: FIRST <= e < |s.handles| ==> e in Prune(s).deleted
  {
    assert s.inUse != [] ==> s.Cached(s.inUse[0]) && !HandleOk(s, multiset{}, s.inUse[0]);
    forall e | FIRST <= e < |s.handles|
      ensures e in Prune(s).deleted
    {
      assert HandleOk(s, multiset{}, e);
      PruneKeepsInv(s, multiset{});
    }
  }

  // ---------- Whole runs ----------

  datatype Op = InsertOp(h: Handle) | LookupOp(key: Bytes, hash: nat) | ReleaseOp(e: nat)
    | EraseOp(key: Bytes, hash: nat) | PruneOp

  /** `held` are the handles that clients have and have not released. */
  datatype World = World(s: State, held: multiset<nat>)

  ghost predicate NextStep(w: World, op: Op, w': World) {
    match op
    case InsertOp(h) => w' == World(Insert(w.s, h), w.held + multiset{|w.s.handles|})
    case LookupOp(key, hash) =>
      var e := Find(w.s, key, hash);
      w' == World(Lookup(w.s, key, hash), if e == 0 then w.held else w.held + multiset{e})
    case ReleaseOp(e) => e in w.held && w.s.Live(e) && w' == World(Unref(w.s, e), w.held - multiset{e})
    case EraseOp(key, hash) => w' == World(Erase(w.s, key, hash), w.held)
    case PruneOp => w' == World(Prune(w.s), w.held)
  }

  function Empty(capacity: nat, head: Handle): State {
    State(capacity, [head, head], [0, 0], [], [], [])
  }

  ghost predicate IsRun(run: seq<World>, ops: seq<Op>) {
    && |run| == |ops| + 1 && (exists capacity: nat, head :: run[0] == World(Empty(capacity, head), multiset{}))
    && forall i {:trigger ops[i]} :: 0 <= i < |ops| ==> NextStep(run[i], ops[i], run[i + 1])
  }

  lemma NextKeepsInv(w: World, op: Op, w': World)
    requires Inv(w.s, w.held) && NextStep(w, op, w')
    ensures Inv(w'.s, w'.held)
  {
    match op
    case InsertOp(h) => InsertKeepsInv(w.s, w.held, h);
    case LookupOp(key, hash) => LookupKeepsInv(w.s, w.held, key, hash);
    case ReleaseOp(e) => UnrefKeepsInv(w.s, w.held, e);
    case EraseOp(key, hash) => EraseKeepsInv(w.s, w.held, key, hash);
    case PruneOp => PruneKeepsInv(w.s, w.held);
  }

  /** Over every run: each handle has the references it should, is in the list it should be in, and
      its deleter has run once if it has none, and not otherwise. */
  lemma {:induction false} RunKeepsInv(run: seq<World>, ops: seq<Op>, n: nat)
    requires IsRun(run, ops) && n <= |ops|
    ensures Inv(run[n].s, run[n].held)
  {
    if n > 0 {
      RunKeepsInv(run, ops, n - 1);
      NextKeepsInv(run[n - 1], ops[n - 1], run[n]);
    }
  }

  // ---------- The order of the unused handles ----------

  /** The last of the first `n` operations by which a client gave the handle back, or -1. */
  function LastRelease(ops: seq<Op>, n: nat, e: nat): (i: int)
    requires n <= |ops|
    ensures -1 <= i < n
    ensures i >= 0 ==> ops[i] == ReleaseOp(e)
    ensures forall k :: i < k < n ==> ops[k] != ReleaseOp(e)
  {
    if n == 0 then -1 else if ops[n - 1] == ReleaseOp(e) then n - 1 else LastRelease(ops, n - 1, e)
  }

  ghost predicate InReleaseOrder(ops: seq<Op>, n: nat, list: seq<nat>)
    requires n <= |ops|
  {
    && (forall a :: 0 <= a < |list| ==> LastRelease(ops, n, list[a]) >= 0)
    && (forall a, b :: 0 <= a < b < |list| ==> LastRelease(ops, n, list[a]) < LastRelease(ops, n, list[b]))
  }

  lemma RestInReleaseOrder(ops: seq<Op>, n: nat, list: seq<nat>, x: nat, m: nat)
    requires n <= |ops| && NoRepeats(list) && InReleaseOrder(ops, n, list) && m <= |Minus(list, x)|
    ensures InReleaseOrder(ops, n, Minus(list, x)) && InReleaseOrder(ops, n, Minus(list, x)[m..])
  {
    hide InReleaseOrder, Minus;
    MinusMembers(list, x);
    if x in list {
      var i :| 0 <= i < |list| && list[i] == x;
      MinusIsWithout(list, i);
      WithoutInReleaseOrder(ops, n, list, i);
    }
    SuffixInReleaseOrder(ops, n, Minus(list, x), m);
  }

  lemma WithoutInReleaseOrder(ops: seq<Op>, n: nat, list: seq<nat>, i: nat)
    requires n <= |ops| && InReleaseOrder(ops, n, list) && i < |list|
    ensures InReleaseOrder(ops, n, Without(list, i))
  {
    hide LastRelease;
    var rest := Without(list, i);
    assert forall a :: 0 <= a < |rest| ==> rest[a] == list[if a < i then a else a + 1];
  }

  lemma SuffixInReleaseOrder(ops: seq<Op>, n: nat, list: seq<nat>, m: nat)
    requires n <= |ops| && InReleaseOrder(ops, n, list) && m <= |list|
    ensures InReleaseOrder(ops, n, list[m..])
  {
    hide LastRelease;
  }

  /** What an operation does to the list of unused handles: the handle given back by its last client goes to the
      end; the others take out at most one handle and, from the front, those that do not fit. */
  lemma LruAfter(w: World, op: Op, w': World) returns (x: nat, m: nat)
    requires Inv(w.s, w.held) && NextStep(w, op, w')
    ensures op.ReleaseOp? ==> op.e !in w.s.lru && (w'.s.lru == w.s.lru || w'.s.lru == w.s.lru + [op.e])
    ensures !op.ReleaseOp? ==> m <= |Minus(w.s.lru, x)| && w'.s.lru == Minus(w.s.lru, x)[m..]
    ensures op.InsertOp? && x in w.s.lru ==> x == Find(w.s, op.h.key, op.h.hash)
  {
    x, m := 0, 0;
    ListsInRange(w.s);
    assert 0 !in w.s.lru;
    MinusMembers(w.s.lru, 0);
    match op
    case InsertOp(h) => x, m := LruAfterInsert(w.s, w.held, h);
    case LookupOp(key, hash) =>
      FoundIsCached(w.s, w.held, key, hash);
      x := if w'.s.lru == w.s.lru then 0 else Find(w.s, key, hash);
    case ReleaseOp(e) => assert HandleOk(w.s, w.held, e);
    case EraseOp(key, hash) =>
      FoundIsCached(w.s, w.held, key, hash);
      var e := Find(w.s, key, hash);
      if e != 0 {
        FinishEraseKeepsInv(w.s, w.held, e);
        x := e;
      }
    case PruneOp =>
      PruneKeepsInv(w.s, w.held);
      m := |w.s.lru|;
  }

  lemma LruAfterInsert(s: State, held: multiset<nat>, h: Handle) returns (x: nat, m: nat)
    requires Inv(s, held)
    ensures m <= |Minus(s.lru, x)| && Insert(s, h).lru == Minus(s.lru, x)[m..]
    ensures x in s.lru ==> x == Find(s, h.key, h.hash)
  {
    var e, held' := Find(s, h.key, h.hash), held + multiset{|s.handles|};
    x := 0;
    ListsInRange(s);
    assert 0 !in s.lru;
    MinusMembers(s.lru, 0);
    FoundIsCached(s, held, h.key, h.hash);
    AddedHolds(s, held, h);
    InsertedKeepsInv(s, held, h);
    if s.capacity > 0 && e != 0 {
      FinishEraseKeepsInv(Added(s, h), held', e);
      x := e;
    }
    assert Inserted(s, h).lru == Minus(s.lru, x);
    m := EvictKeepsInv(Inserted(s, h), held');
  }

  /** Over every run: the unused handles are in the order in which their last clients gave them back. */
  lemma {:induction false} UnusedInReleaseOrder(run: seq<World>, ops: seq<Op>, n: nat)
    requires IsRun(run, ops) && n <= |ops|
    ensures InReleaseOrder(ops, n, run[n].s.lru)
  {
    hide Inv, NextStep, InReleaseOrder;
    if n == 0 {
      NoneUnusedAtFirst(run, ops);
    } else {
      UnusedInReleaseOrder(run, ops, n - 1);
      RunKeepsInv(run, ops, n - 1);
      OrderKept(run[n - 1], ops, n, run[n]);
    }
  }

  lemma NoneUnusedAtFirst(run: seq<World>, ops: seq<Op>)
    requires IsRun(run, ops)
    ensures run[0].s.lru == [] && InReleaseOrder(ops, 0, run[0].s.lru)
  {
  }

  lemma OrderKept(w: World, ops: seq<Op>, n: nat, w': World)
    requires 0 < n <= |ops| && Inv(w.s, w.held) && NextStep(w, ops[n - 1], w')
    requires InReleaseOrder(ops, n - 1, w.s.lru)
    ensures InReleaseOrder(ops, n, w'.s.lru)
  {
    hide NextStep, InReleaseOrder;
    var op, list := ops[n - 1], w.s.lru;
    var x, m := LruAfter(w, op, w');
    hide Inv;
    if op.ReleaseOp? {
      ReleasedInOrder(ops, n, list, op.e);
    } else {
      RestInReleaseOrder(ops, n - 1, list, x, m);
      StaysInReleaseOrder(ops, n, w'.s.lru);
    }
  }

  lemma ReleasedInOrder(ops: seq<Op>, n: nat, list: seq<nat>, e: nat)
    requires 0 < n <= |ops| && InReleaseOrder(ops, n - 1, list) && ops[n - 1] == ReleaseOp(e) && e !in list
    ensures InReleaseOrder(ops, n, list) && InReleaseOrder(ops, n, list + [e])
  {
    assert forall a :: 0 <= a < |list| ==> list[a] != e && LastRelease(ops, n, list[a]) == LastRelease(ops, n - 1, list[a]);
  }

  lemma StaysInReleaseOrder(ops: seq<Op>, n: nat, list: seq<nat>)
    requires 0 < n <= |ops| && InReleaseOrder(ops, n - 1, list) && !ops[n - 1].ReleaseOp?
    ensures InReleaseOrder(ops, n, list)
  {
  }

  /** No client has had an unused handle since it was last given back. */
  lemma {:induction false} UnusedSinceRelease(run: seq<World>, ops: seq<Op>, n: nat, e: nat, k: nat)
    requires IsRun(run, ops) && n <= |ops| && e in run[n].s.lru && LastRelease(ops, n, e) < k <= n
    ensures e !in run[k].held
  {
    if n == 0 {
      NoneUnusedAtFirst(run, ops);
    } else {
      hide Inv, NextStep;
      RunKeepsInv(run, ops, n - 1);
      RunKeepsInv(run, ops, n);
      NewcomerWasReleased(run[n - 1], ops[n - 1], run[n], e);
      if k < n { UnusedSinceRelease(run, ops, n - 1, e, k); }
    }
  }

  lemma NewcomerWasReleased(w: World, op: Op, w': World, e: nat)
    requires Inv(w.s, w.held) && NextStep(w, op, w') && Inv(w'.s, w'.held) && e in w'.s.lru
    ensures e !in w'.held && (e in w.s.lru || op == ReleaseOp(e))
  {
    var x, m := LruAfter(w, op, w');
    MinusMembers(w.s.lru, x);
    assert w'.s.Cached(e) && HandleOk(w'.s, w'.held, e);
  }

  /** An insertion evicts a handle only if every unused handle that it leaves was given back later. */
  lemma EvictedWereReleasedFirst(run: seq<World>, ops: seq<Op>, n: nat, e: nat, kept: nat)
    requires IsRun(run, ops) && n < |ops| && ops[n].InsertOp?
    requires e in run[n].s.lru && !run[n + 1].s.Cached(e) && e != Find(run[n].s, ops[n].h.key, ops[n].h.hash)
    requires kept in run[n + 1].s.lru
    ensures LastRelease(ops, n, e) < LastRelease(ops, n, kept)
  {
    RunKeepsInv(run, ops, n);
    UnusedInReleaseOrder(run, ops, n);
    var list := run[n].s.lru;
    var x, m := LruAfter(run[n], ops[n], run[n + 1]);
    RestInReleaseOrder(ops, n, list, x, 0);
    MinusMembers(list, x);
    assert e in Minus(list, x) && Minus(list, x)[0..] == Minus(list, x);
    var i, j := CutBetween(Minus(list, x), m, e, kept);
  }

  lemma CutBetween(list: seq<nat>, m: nat, e: nat, kept: nat) returns (i: nat, j: nat)
    requires m <= |list| && e in list && e !in list[m..] && kept in list[m..]
    ensures i < j < |list| && list[i] == e && list[j] == kept
  {
    assert list == list[..m] + list[m..];
    i :| i < m && list[..m][i] == e;
    var k: nat :| k < |list[m..]| && list[m..][k] == kept;
    j := m + k;
  }
}
