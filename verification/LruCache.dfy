/** One shard of the LRU cache: handles on two circular lists and in a hash table (util/cache.cc).
    What each operation does to the lists and the reference counts is in module LruModel. */
module LruCache {
  import opened Wrappers
  import opened Circular
  import opened HandleTable
  import opened LruModel

  const LRU: nat := 0
  const IN_USE: nat := 1

  // ---------- The links and flags of a state ----------

  ghost predicate Apart(s: State) {
    && Shaped(s) && (forall e :: e in s.lru ==> e !in s.inUse)
  }

  /** Walking round the two heads visits the two lists; `inCache` and `usage` are what they should be. */
  ghost predicate Represents(s: State, links: Links, inCache: seq<bool>, usage: nat) {
    && Apart(s) && |links.next| == |links.prev| == |inCache| == |s.handles|
    && IsCircle(links, LRU, s.lru) && IsCircle(links, IN_USE, s.inUse)
    && (forall e :: 0 <= e < |inCache| ==> (inCache[e] <==> s.Cached(e)))
    && usage == Usage(s)
  }

  lemma ListsSeparate(s: State)
    requires Apart(s)
    ensures Separate(LRU, s.lru, IN_USE, s.inUse) && Separate(IN_USE, s.inUse, LRU, s.lru)
  {
    ListsInRange(s);
  }

  /** LRU_Remove on a handle of either list. */
  lemma TakeOut(s: State, links: Links, e: nat)
    requires Apart(s) && IsCircle(links, LRU, s.lru) && IsCircle(links, IN_USE, s.inUse) && s.Cached(e)
    ensures links.Has(e) && links.Has(links.next[e]) && links.Has(links.prev[e])
    ensures IsCircle(Unlink(links, e), LRU, Minus(s.lru, e)) && IsCircle(Unlink(links, e), IN_USE, Minus(s.inUse, e))
  {
    ListsSeparate(s);
    MinusMembers(s.lru, e);
    MinusMembers(s.inUse, e);
    if e in s.lru {
      var i :| 0 <= i < |s.lru| && s.lru[i] == e;
      UnlinkKeepsCircle(links, LRU, s.lru, i);
      UnlinkKeepsOther(links, LRU, s.lru, i, IN_USE, s.inUse);
      MinusIsWithout(s.lru, i);
    } else {
      var i :| 0 <= i < |s.inUse| && s.inUse[i] == e;
      UnlinkKeepsCircle(links, IN_USE, s.inUse, i);
      UnlinkKeepsOther(links, IN_USE, s.inUse, i, LRU, s.lru);
      MinusIsWithout(s.inUse, i);
    }
  }

  /** LRU_Append of a handle that is on neither list. */
  lemma PutIn(s: State, links: Links, e: nat)
    requires Apart(s) && IsCircle(links, LRU, s.lru) && IsCircle(links, IN_USE, s.inUse)
    requires !s.Cached(e) && links.Has(e) && e >= FIRST
    ensures links.Has(LRU) && links.Has(links.prev[LRU]) && links.Has(IN_USE) && links.Has(links.prev[IN_USE])
    ensures IsCircle(LinkBefore(links, LRU, e), LRU, s.lru + [e]) && IsCircle(LinkBefore(links, LRU, e), IN_USE, s.inUse)
    ensures IsCircle(LinkBefore(links, IN_USE, e), LRU, s.lru) && IsCircle(LinkBefore(links, IN_USE, e), IN_USE, s.inUse + [e])
  {
    ListsSeparate(s);
    LinkKeepsCircle(links, LRU, s.lru, e);
    LinkKeepsOther(links, LRU, s.lru, e, IN_USE, s.inUse);
    LinkKeepsCircle(links, IN_USE, s.inUse, e);
    LinkKeepsOther(links, IN_USE, s.inUse, e, LRU, s.lru);
  }

  function TakenOut(s: State, e: nat): State {
    s.(lru := Minus(s.lru, e), inUse := Minus(s.inUse, e))
  }

  lemma TakenOutRepresents(s: State, links: Links, inCache: seq<bool>, usage: nat, e: nat)
    requires Represents(s, links, inCache, usage) && s.Cached(e)
    ensures links.Has(e) && links.Has(links.next[e]) && links.Has(links.prev[e]) && s.handles[e].charge <= usage
    ensures Represents(TakenOut(s, e), Unlink(links, e), inCache[e := false], usage - s.handles[e].charge)
  {
    TakeOut(s, links, e);
    MinusMembers(s.lru, e);
    MinusMembers(s.inUse, e);
    ChargesMinus(s.handles, s.lru, e);
    ChargesMinus(s.handles, s.inUse, e);
    forall x: nat
      ensures TakenOut(s, e).Cached(x) <==> s.Cached(x) && x != e
    {
    }
    assert Apart(TakenOut(s, e));
  }

  /** A handle moves from one list to the end of the other. */
  lemma MovedRepresents(s: State, links: Links, inCache: seq<bool>, usage: nat, e: nat, head: nat)
    requires Represents(s, links, inCache, usage) && s.Cached(e) && (head == LRU || head == IN_USE)
    ensures links.Has(e) && links.Has(links.next[e]) && links.Has(links.prev[e])
    ensures
      var l := Unlink(links, e);
      && l.Has(head) && l.Has(e) && l.Has(l.prev[head])
      && Represents(if head == LRU then s.(lru := Minus(s.lru, e) + [e], inUse := Minus(s.inUse, e))
                    else s.(lru := Minus(s.lru, e), inUse := Minus(s.inUse, e) + [e]),
                    LinkBefore(l, head, e), inCache, usage)
  {
    TakenOutRepresents(s, links, inCache, usage, e);
    var t := TakenOut(s, e);
    MinusMembers(s.lru, e);
    MinusMembers(s.inUse, e);
    PutIn(t, Unlink(links, e), e);
    AppendNoRepeats(t.lru, e);
    AppendNoRepeats(t.inUse, e);
    ChargesAppend(s.handles, t.lru, e);
    ChargesAppend(s.handles, t.inUse, e);
    var s' := if head == LRU then t.(lru := t.lru + [e]) else t.(inUse := t.inUse + [e]);
    forall x: nat
      ensures s'.Cached(x) <==> s.Cached(x)
    {
    }
    assert Apart(s');
  }

  /** Reference counts, and the record of deleters, are no concern of the links. */
  lemma CountsRepresent(s: State, links: Links, inCache: seq<bool>, usage: nat, refs: seq<nat>, deleted: seq<nat>)
    requires Represents(s, links, inCache, usage) && |refs| == |s.refs|
    requires NoRepeats(deleted) && forall e: nat :: e in deleted ==> FIRST <= e < |s.handles|
    ensures Represents(s.(refs := refs, deleted := deleted), links, inCache, usage)
  {
    var s' := s.(refs := refs, deleted := deleted);
    assert forall e: nat :: s'.Cached(e) <==> s.Cached(e);
    assert Apart(s');
  }

  /** What the table finds is what the specification finds. */
  lemma FoundInTable(s: State, held: multiset<nat>, key: Bytes, hash: nat, e: nat)
    requires Inv(s, held)
    requires e == 0 ==> forall m :: m in CachedSet(s) && m < |s.handles| ==> !s.handles[m].Matches(key, hash)
    requires e != 0 ==> e in CachedSet(s) && e < |s.handles| && s.handles[e].Matches(key, hash)
    ensures e == Find(s, key, hash) && !s.Live(0)
    ensures e != 0 ==> s.Live(e) && s.Cached(e) && e !in s.deleted && (s.refs[e] == 1 ==> e in s.lru)
    ensures LruModel.Lookup(s, key, hash) == if e == 0 then s else LruModel.Ref(s, e)
    ensures LruModel.Erase(s, key, hash) == if e == 0 then s else LruModel.FinishErase(s, e)
  {
    FoundIsCached(s, held, key, hash);
    if e != 0 {
      assert s.Cached(e);
      assert HandleOk(s, held, e);
    }
    assert Find(s, key, hash) != 0 ==> Find(s, key, hash) in CachedSet(s);
  }

  class LRUCache {
    const table: HandleTable
    var capacity: nat
    var usage: nat
    var handles: seq<Handle>
    var refs: seq<nat>
    var inCache: seq<bool>
    var links: Links
    ghost var lru: seq<nat>
    ghost var inUse: seq<nat>
    /** The handles whose deleter has run, in that order, and those that clients hold. */
    ghost var deleted: seq<nat>
    ghost var held: multiset<nat>

    ghost function State(): State
      reads this
    {
      LruModel.State(capacity, handles, refs, lru, inUse, deleted)
    }

    ghost predicate Linked()
      reads this
    {
      Represents(State(), links, inCache, usage)
    }

    ghost predicate Valid()
      reads this, table
    {
      && Linked() && Inv(State(), held)
      && table.Valid(handles) && table.members == CachedSet(State())
    }

    constructor (capacity: nat, head: Handle)
      ensures Valid() && fresh(table) && State() == Empty(capacity, head) && held == multiset{}
    {
      table := new HandleTable();
      this.capacity, usage, handles, refs, inCache := capacity, 0, [head, head], [0, 0], [false, false];
      links := Links([LRU, IN_USE], [LRU, IN_USE]);
      lru, inUse, deleted, held := [], [], [], multiset{};
      new;
      assert Circular.Linked(links, LRU, [], -1) && Circular.Linked(links, IN_USE, [], -1);
    }

    /** A handle no client holds moves to the list of those in use. */
    method Ref(e: nat)
      requires Linked() && State().Live(e) && (refs[e] == 1 && State().Cached(e) ==> e in lru)
      modifies this`links, this`refs, this`lru, this`inUse
      ensures Linked() && State() == LruModel.Ref(old(State()), e)
    {
      if refs[e] == 1 && inCache[e] {
        MinusMembers(inUse, e);
        MovedRepresents(State(), links, inCache, usage, e, IN_USE);
        links := Unlink(links, e);
        links := LinkBefore(links, IN_USE, e);
        lru, inUse := Minus(lru, e), inUse + [e];
      }
      CountsRepresent(State(), links, inCache, usage, refs[e := refs[e] + 1], deleted);
      refs := refs[e := refs[e] + 1];
    }

    /** Drops a reference: with the last one the deleter runs. */
    method Unref(e: nat)
      requires Linked() && State().Live(e) && e !in deleted && (refs[e] == 2 && State().Cached(e) ==> e in inUse)
      requires refs[e] == 1 ==> !State().Cached(e)
      modifies this`links, this`refs, this`lru, this`inUse, this`deleted
      ensures Linked() && State() == LruModel.Unref(old(State()), e)
    {
      CountsRepresent(State(), links, inCache, usage, refs[e := refs[e] - 1], deleted);
      refs := refs[e := refs[e] - 1];
      if refs[e] == 0 {
        AppendNoRepeats(deleted, e);
        CountsRepresent(State(), links, inCache, usage, refs, deleted + [e]);
        deleted := deleted + [e];
      } else if inCache[e] && refs[e] == 1 {
        MinusMembers(lru, e);
        MovedRepresents(State(), links, inCache, usage, e, LRU);
        links := Unlink(links, e);
        links := LinkBefore(links, LRU, e);
        lru, inUse := lru + [e], Minus(inUse, e);
      }
    }

    /** Takes a handle, already out of the table, from its list. */
    method FinishErase(e: nat)
      requires Linked() && State().Cached(e) && State().Live(e) && e !in deleted
      modifies this`links, this`refs, this`lru, this`inUse, this`deleted, this`inCache, this`usage
      ensures Linked() && State() == LruModel.FinishErase(old(State()), e)
      ensures CachedSet(State()) == old(CachedSet(State())) - {e}
    {
      MinusMembers(lru, e);
      MinusMembers(inUse, e);
      TakenOutRepresents(State(), links, inCache, usage, e);
      links := Unlink(links, e);
      inCache := inCache[e := false];
      usage := usage - handles[e].charge;
      lru, inUse := Minus(lru, e), Minus(inUse, e);
      Unref(e);
    }

    /** The same, when nothing else is left to do. */
    method EraseRemoved(e: nat)
      requires Linked() && State().Cached(e) && State().Live(e) && e !in deleted
      requires Inv(LruModel.FinishErase(State(), e), held)
      requires table.Valid(handles) && table.members == CachedSet(State()) - {e}
      modifies this`links, this`refs, this`lru, this`inUse, this`deleted, this`inCache, this`usage
      ensures Valid() && State() == LruModel.FinishErase(old(State()), e)
    {
      FinishErase(e);
    }

    method Lookup(key: Bytes, hash: nat) returns (e: nat)
      requires Valid()
      modifies this`links, this`refs, this`lru, this`inUse, this`held
      ensures Valid() && e == Find(old(State()), key, hash) && State() == LruModel.Lookup(old(State()), key, hash)
      ensures held == if e == 0 then old(held) else old(held) + multiset{e}
    {
      e := table.Lookup(handles, key, hash);
      FoundInTable(State(), held, key, hash, e);
      if e != 0 {
        TakeReference(e);
      }
    }

    /** A client gets a handle that is cached. */
    method TakeReference(e: nat)
      requires Valid() && State().Live(e) && State().Cached(e) && (refs[e] == 1 ==> e in lru)
      modifies this`links, this`refs, this`lru, this`inUse, this`held
      ensures Valid() && State() == LruModel.Ref(old(State()), e) && held == old(held) + multiset{e}
    {
      RefKeepsInv(State(), held, e);
      Ref(e);
      held := held + multiset{e};
    }

    /** A client gives a handle back. */
    method Release(e: nat)
      requires Valid() && e in held
      modifies this`links, this`refs, this`lru, this`inUse, this`deleted, this`held
      ensures old(State().Live(e)) && Valid() && State() == LruModel.Unref(old(State()), e) && held == old(held) - multiset{e}
    {
      assert HandleOk(State(), held, e);
      UnrefKeepsInv(State(), held, e);
      Unref(e);
      held := held - multiset{e};
    }

    method Erase(key: Bytes, hash: nat)
      requires Valid()
      modifies this`links, this`refs, this`lru, this`inUse, this`deleted, this`inCache, this`usage, table
      ensures Valid() && State() == LruModel.Erase(old(State()), key, hash) && held == old(held)
    {
      EraseKeepsInv(State(), held, key, hash);
      var e := table.Remove(handles, key, hash);
      FoundInTable(State(), held, key, hash, e);
      if e != 0 {
        EraseRemoved(e);
      }
    }

    /** A new handle, linked into the list of those in use if anything is cached. */
    method Allocate(h: Handle)
      requires Linked()
      modifies this`handles, this`refs, this`inCache, this`links, this`usage, this`inUse
      ensures Linked() && State() == Added(old(State()), h)
    {
      AddedRepresents(State(), links, inCache, usage, h);
      var e := |handles|;
      handles, refs := handles + [h], refs + [if capacity > 0 then 2 else 1];
      inCache, links := inCache + [capacity > 0], Allocated(links);
      if capacity > 0 {
        links := LinkBefore(links, IN_USE, e);
        inUse := inUse + [e];
        usage := usage + h.charge;
      }
    }

    /** Puts the new handle in the table; one with the same key gives way. */
    method PutInTable(h: Handle, ghost s: State, ghost held0: multiset<nat>) returns (replaced: nat)
      requires handles == s.handles + [h] && s.capacity > 0 && Inv(s, held0)
      requires table.Valid(handles) && table.members == CachedSet(s) && |s.handles| !in table.members
      modifies table
      ensures table.Valid(handles)
      ensures replaced != 0 ==> Added(s, h).Live(replaced) && Added(s, h).Cached(replaced) && replaced !in s.deleted
      ensures Inserted(s, h) == if replaced == 0 then Added(s, h) else LruModel.FinishErase(Added(s, h), replaced)
      ensures table.members == if replaced == 0 then CachedSet(Added(s, h)) else CachedSet(Added(s, h)) - {replaced}
    {
      var all := handles;
      ghost var before := table.members;
      replaced := table.Insert(all, |all| - 1);
      ReplacedIsFound(s, held0, h, all, before, replaced, table.members);
    }

    method Enter(h: Handle, ghost s: State, ghost held0: multiset<nat>)
      requires Linked() && State() == Added(s, h) && s.capacity > 0 && Inv(s, held0) && Inv(Inserted(s, h), held)
      requires table.Valid(handles) && table.members == CachedSet(s) && |s.handles| !in table.members
      modifies this`links, this`refs, this`lru, this`inUse, this`deleted, this`inCache, this`usage, table
      ensures Valid() && State() == Inserted(s, h)
    {
      var replaced := PutInTable(h, s, held0);
      if replaced != 0 {
        EraseRemoved(replaced);
      }
    }

    /** Insert, up to the eviction. */
    method Add(h: Handle) returns (e: nat)
      requires Valid()
      modifies this`handles, this`links, this`refs, this`lru, this`inUse, this`deleted, this`inCache, this`usage, this`held, table
      ensures Valid() && State() == Inserted(old(State()), h)
      ensures e == |old(handles)| && held == old(held) + multiset{e}
    {
      ghost var s := State();
      e := |handles|;
      TableGrows(handles, h, table.nextHash, table.buckets, table.chains, table.members);
      InsertedHolds(s, held, h);
      Allocate(h);
      held := held + multiset{e};
      if capacity > 0 {
        Enter(h, s, old(held));
      }
    }

    method Insert(h: Handle) returns (e: nat)
      requires Valid()
      modifies this`handles, this`links, this`refs, this`lru, this`inUse, this`deleted, this`inCache, this`usage, this`held, table
      ensures Valid() && State() == LruModel.Insert(old(State()), h)
      ensures e == |old(handles)| && held == old(held) + multiset{e}
    {
      e := Add(h);
      Evict();
    }

    /** Erases the oldest handle that no client holds. */
    method EraseOldest()
      requires Valid() && lru != []
      modifies this`links, this`refs, this`lru, this`inUse, this`deleted, this`inCache, this`usage, table
      ensures old(State().Live(lru[0])) && Valid() && State() == LruModel.FinishErase(old(State()), old(lru[0]))
      ensures lru == old(lru)[1..] && held == old(held)
    {
      ghost var s := State();
      EmptyCircle(links, LRU, lru);
      var e := links.next[LRU];
      OldestIsCached(s, held);
      var erased := table.Remove(handles, handles[e].key, handles[e].hash);
      OldestInTable(s, held, old(table.members), erased);
      EraseRemoved(erased);
      assert State() == LruModel.FinishErase(s, s.lru[0]);
    }

    method Prune()
      requires Valid()
      modifies this`links, this`refs, this`lru, this`inUse, this`deleted, this`inCache, this`usage, table
      ensures Valid() && State() == LruModel.Prune(old(State())) && held == old(held)
    {
      EmptyCircle(links, LRU, lru);
      while links.next[LRU] != LRU
        invariant Valid() && held == old(held) && LruModel.Prune(State()) == LruModel.Prune(old(State()))
        invariant links.Has(LRU) && (links.next[LRU] == LRU <==> lru == [])
        decreases |lru|
      {
        EraseOldest();
        EmptyCircle(links, LRU, lru);
      }
    }

    /** Erases the oldest handles until the rest fits. */
    method Evict()
      requires Valid()
      modifies this`links, this`refs, this`lru, this`inUse, this`deleted, this`inCache, this`usage, table
      ensures Valid() && State() == LruModel.Evict(old(State())) && held == old(held)
    {
      EmptyCircle(links, LRU, lru);
      while usage > capacity && links.next[LRU] != LRU
        invariant Valid() && held == old(held) && LruModel.Evict(State()) == LruModel.Evict(old(State()))
        invariant links.Has(LRU) && (links.next[LRU] == LRU <==> lru == [])
        decreases |lru|
      {
        EraseOldest();
        EmptyCircle(links, LRU, lru);
      }
    }
  }

  lemma InsertedHolds(s: State, held: multiset<nat>, h: Handle)
    requires Inv(s, held)
    ensures Inv(Inserted(s, h), held + multiset{|s.handles|})
    ensures s.capacity == 0 ==> Inserted(s, h) == Added(s, h) && CachedSet(Added(s, h)) == CachedSet(s)
  {
    InsertedKeepsInv(s, held, h);
  }

  /** The handle that the table gives back is the one the specification erases. */
  lemma ReplacedIsFound(s: State, held: multiset<nat>, h: Handle, all: seq<Handle>, before: set<nat>, e: nat, after: set<nat>)
    requires Inv(s, held) && s.capacity > 0 && all == s.handles + [h] && before == CachedSet(s)
    requires e == 0 ==> forall m :: m in before && m < |all| ==> !all[m].Matches(all[|s.handles|].key, all[|s.handles|].hash)
    requires e != 0 ==> e in before && e < |all| && all[e].Matches(all[|s.handles|].key, all[|s.handles|].hash)
    requires after == if e == 0 then before + {|s.handles|} else before - {e} + {|s.handles|}
    ensures e != 0 ==> Added(s, h).Live(e) && Added(s, h).Cached(e) && e !in s.deleted
    ensures Inserted(s, h) == if e == 0 then Added(s, h) else FinishErase(Added(s, h), e)
    ensures after == if e == 0 then CachedSet(Added(s, h)) else CachedSet(Added(s, h)) - {e}
  {
    ListsInRange(s);
    assert forall m :: m in before ==> s.Cached(m);
    assert forall m :: m in before ==> all[m] == s.handles[m];
    FoundInTable(s, held, h.key, h.hash, e);
    assert CachedSet(Added(s, h)) == before + {|s.handles|};
  }

  lemma AddedRepresents(s: State, links: Links, inCache: seq<bool>, usage: nat, h: Handle)
    requires Represents(s, links, inCache, usage)
    ensures s.capacity == 0 ==> Represents(Added(s, h), Allocated(links), inCache + [false], usage)
    ensures
      var l, n := Allocated(links), |s.handles|;
      && l.Has(IN_USE) && l.Has(n) && l.Has(l.prev[IN_USE])
      && (s.capacity > 0 ==> Represents(Added(s, h), LinkBefore(l, IN_USE, n), inCache + [true], usage + h.charge))
  {
    var n, s' := |s.handles|, Added(s, h);
    ListsInRange(s);
    AllocatedKeepsCircle(links, LRU, s.lru);
    AllocatedKeepsCircle(links, IN_USE, s.inUse);
    PutIn(s, Allocated(links), n);
    AppendNoRepeats(s.inUse, n);
    ChargesStay(s.handles, h, s.lru);
    ChargesStay(s.handles, h, s.inUse);
    ChargesAppend(s.handles + [h], s.inUse, n);
    forall e: nat
      ensures s'.Cached(e) <==> s.Cached(e) || (s.capacity > 0 && e == n)
    {
    }
    assert Apart(s');
  }

  lemma OldestIsCached(s: State, held: multiset<nat>)
    requires Inv(s, held) && s.lru != []
    ensures s.Live(s.lru[0]) && s.Cached(s.lru[0]) && s.lru[0] !in s.deleted && Inv(LruModel.FinishErase(s, s.lru[0]), held)
    ensures LruModel.FinishErase(s, s.lru[0]).lru == s.lru[1..]
  {
    LruModel.EraseOldest(s, held);
    assert HandleOk(s, held, s.lru[0]);
  }

  /** The table finds the oldest handle by its key. */
  lemma OldestInTable(s: State, held: multiset<nat>, members: set<nat>, e: nat)
    requires Inv(s, held) && members == CachedSet(s) && s.lru != [] && s.lru[0] < |s.handles|
    requires e == 0 ==> forall m :: m in members && m < |s.handles| ==> !s.handles[m].Matches(s.handles[s.lru[0]].key, s.handles[s.lru[0]].hash)
    requires e != 0 ==> e in members && e < |s.handles| && s.handles[e].Matches(s.handles[s.lru[0]].key, s.handles[s.lru[0]].hash)
    ensures e == s.lru[0]
  {
    assert s.lru[0] in CachedSet(s);
  }
}
