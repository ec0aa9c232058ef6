/** The memtable: a skip list whose keys are entries, in the order of internal keys (db/memtable.cc). */
module MemTable {
  import opened Wrappers
  import opened Dbformat
  import opened InternalKeys
  import opened SkipListNodes
  import opened SkipList
  import Comparator
  import Database
  import DbImpl

  // ---------- Internal keys as positions ----------

  /** Larger trailers come first. */
  function Part(tag: nat): (r: real)
    ensures 0.0 < r < 1.0
  {
    1.0 / (tag as real + 2.0)
  }

  function Within(low: real, gap: real, part: real): real { low + gap * part }

  /** How far the next string is: the same one with a zero byte after it. */
  function Gap(user: Bytes): real { Comparator.Rank(user + [0]) - Comparator.Rank(user) }

  /** The position of an internal key in the order of the list's comparator: within the gap between the position of
      its user key and that of the next string. */
  function PositionOf(names: Names, key: InternalKey): real {
    var user := names(key.user);
    Within(Comparator.Rank(user), Gap(user), Part(key.Tag()))
  }

  lemma Scaled(gap: real, x: real, y: real)
    requires gap > 0.0
    ensures x < y <==> gap * x < gap * y
  {
  }

  lemma WithinOrder(low: real, gap: real, x: real, y: real)
    requires gap > 0.0
    ensures x < y <==> Within(low, gap, x) < Within(low, gap, y)
  {
    Scaled(gap, x, y);
  }

  lemma WithinEnds(low: real, gap: real)
    ensures Within(low, gap, 0.0) == low && Within(low, gap, 1.0) == low + gap
  {
  }

  lemma {:induction false} NextString(a: Bytes, b: Bytes)
    ensures Comparator.Compare(a, a + [0]) < 0
    ensures Comparator.Compare(a, b) < 0 ==> Comparator.Compare(a + [0], b) <= 0
  {
    if a == [] {
      assert b != [] ==> Comparator.Compare([0], b) <= 0 by {
        if b != [] && b[0] == 0 {
          assert [0][1..] == [];
        }
      }
    } else {
      assert (a + [0])[1..] == a[1..] + [0];
      NextString(a[1..], if b == [] then [] else b[1..]);
    }
  }

  lemma GapAfter(user: Bytes)
    ensures Gap(user) > 0.0
  {
    NextString(user, user);
    Comparator.RankEmbeds(user, user + [0]);
  }

  lemma SmallerUserIsBefore(names: Names, a: InternalKey, b: InternalKey)
    requires KeyFits(names, a) && KeyFits(names, b) && a.user < b.user
    ensures PositionOf(names, a) < PositionOf(names, b)
  {
    hide Within, Part, Gap, Comparator.Rank, Comparator.Compare;
    PositionInGap(names, a);
    PositionInGap(names, b);
    var x, y := names(a.user), names(b.user);
    Comparator.RankEmbeds(x, y);
    NextString(x, y);
    Comparator.RankEmbeds(x + [0], y);
  }

  lemma PositionInGap(names: Names, key: InternalKey)
    ensures Comparator.Rank(names(key.user)) < PositionOf(names, key) < Comparator.Rank(names(key.user) + [0])
  {
    hide Within, Part, Comparator.Rank;
    var user := names(key.user);
    GapAfter(user);
    WithinOrder(Comparator.Rank(user), Gap(user), 0.0, Part(key.Tag()));
    WithinOrder(Comparator.Rank(user), Gap(user), Part(key.Tag()), 1.0);
    WithinEnds(Comparator.Rank(user), Gap(user));
  }

  lemma Quotients(x: real, y: real)
    requires x > y > 0.0
    ensures 1.0 / x < 1.0 / y
  {
    var p, d := x * y, 1.0 / y - 1.0 / x;
    assert p > 0.0 && d * p == x - y;
    if d <= 0.0 {
      Scaled(p, d, 0.0);
    }
  }

  lemma LargerPart(a: nat, b: nat)
    ensures Part(a) < Part(b) <==> a > b
  {
    var x, y := a as real + 2.0, b as real + 2.0;
    if a > b {
      Quotients(x, y);
    } else if a < b {
      Quotients(y, x);
    }
  }

  /** Positions are in the order of InternalKeyComparator. */
  lemma PlaceEmbeds(names: Names, a: InternalKey, b: InternalKey)
    requires KeyFits(names, a) && KeyFits(names, b)
    ensures PositionOf(names, a) < PositionOf(names, b) <==> a.Before(b)
    ensures PositionOf(names, a) == PositionOf(names, b) <==> a == b
  {
    hide Within, Part, Gap, Comparator.Rank;
    CompareIsTotalOrder(a, b);
    if a.user < b.user {
      SmallerUserIsBefore(names, a, b);
    } else if b.user < a.user {
      SmallerUserIsBefore(names, b, a);
    } else {
      var low, gap := Comparator.Rank(names(a.user)), Gap(names(a.user));
      GapAfter(names(a.user));
      LargerPart(a.Tag(), b.Tag());
      LargerPart(b.Tag(), a.Tag());
      WithinOrder(low, gap, Part(a.Tag()), Part(b.Tag()));
      WithinOrder(low, gap, Part(b.Tag()), Part(a.Tag()));
    }
  }

  // ---------- Entries in the order of the list ----------

  predicate InDomain(entries: map<Key, Entry>, keys: seq<Key>) {
    forall i :: 0 <= i < |keys| ==> keys[i] in entries
  }

  ghost predicate Held(names: Names, entries: map<Key, Entry>, keys: seq<Key>) {
    InDomain(entries, keys)
    && forall i :: 0 <= i < |keys| ==> KeyFits(names, entries[keys[i]].key) && PositionOf(names, entries[keys[i]].key) == keys[i]
  }

  function EntriesAt(entries: map<Key, Entry>, keys: seq<Key>): (r: seq<Entry>)
    requires InDomain(entries, keys)
    ensures |r| == |keys| && forall i :: 0 <= i < |keys| ==> r[i] == entries[keys[i]]
  {
    if keys == [] then [] else [entries[keys[0]]] + EntriesAt(entries, keys[1..])
  }

  /** Two sorted lists of the same entries are the same list. */
  lemma {:induction false} SortedSame(a: seq<Entry>, b: seq<Entry>)
    requires Sorted(a) && Sorted(b) && forall e :: e in a <==> e in b
    ensures a == b
    decreases |a|
  {
    assert b != [] ==> b[0] in b && b[0] in a;
    if a != [] {
      assert a[0] in a && a[0] in b && b[0] in b && b[0] in a;
      var i :| 0 <= i < |b| && b[i] == a[0];
      var j :| 0 <= j < |a| && a[j] == b[0];
      assert i == 0 && j == 0;
      SortedRest(a, b);
      SortedRest(b, a);
      SortedSame(a[1..], b[1..]);
      assert a == [a[0]] + a[1..] && b == [b[0]] + b[1..];
    }
  }

  lemma SortedRest(a: seq<Entry>, b: seq<Entry>)
    requires a != [] && b != [] && Sorted(a) && a[0] == b[0] && forall e :: e in a ==> e in b
    ensures Sorted(a[1..]) && forall e :: e in a[1..] ==> e in b[1..]
  {
    forall e | e in a[1..]
      ensures e in b[1..]
    {
      var i :| 1 <= i < |a| && a[i] == e;
      assert a[0].key.Precedes(a[i].key) && e in b;
      var j :| 0 <= j < |b| && b[j] == e;
      assert j > 0 && b[1..][j - 1] == e;
    }
  }

  /** Where the list's search ends is where the search in the entries does. */
  lemma RankIsLowerBound(names: Names, entries: map<Key, Entry>, keys: seq<Key>, key: InternalKey)
    requires Held(names, entries, keys) && Increasing(keys) && KeyFits(names, key) && Sorted(EntriesAt(entries, keys))
    ensures Rank(keys, PositionOf(names, key)) == LowerBound(EntriesAt(entries, keys), key)
  {
    var es := EntriesAt(entries, keys);
    var i, n := LowerBound(es, key), Rank(keys, PositionOf(names, key));
    hide PositionOf;
    if i < |keys| {
      assert keys[i] in keys;
      PlaceEmbeds(names, es[i].key, key);
    }
    if n < |keys| {
      assert keys[n] in keys;
      PlaceEmbeds(names, es[n].key, key);
    }
  }

  /** A new entry has a new position, and the entries are then the old ones with it in its place. */
  lemma EntriesGrow(names: Names, entries: map<Key, Entry>, keys: seq<Key>, e: Entry, keys': seq<Key>)
    requires Held(names, entries, keys) && Increasing(keys) && Sorted(EntriesAt(entries, keys)) && KeyFits(names, e.key)
    requires forall x :: x in EntriesAt(entries, keys) && x.key.user == e.key.user ==> x.key.seqno != e.key.seqno
    requires PositionOf(names, e.key) !in keys && Increasing(keys')
    requires forall k :: k in keys' <==> k == PositionOf(names, e.key) || k in keys
    ensures Held(names, entries[PositionOf(names, e.key) := e], keys')
    ensures EntriesAt(entries[PositionOf(names, e.key) := e], keys') == DbImpl.AddToMemTable(EntriesAt(entries, keys), e)
    ensures Sorted(DbImpl.AddToMemTable(EntriesAt(entries, keys), e))
  {
    hide PositionOf;
    var at, more := PositionOf(names, e.key), entries[PositionOf(names, e.key) := e];
    var es := EntriesAt(entries, keys);
    DbImpl.AddKeepsSorted(es, e);
    HeldGrows(names, entries, keys, e, keys');
    MembersGrow(entries, keys, at, e, keys');
    hide DbImpl.AddToMemTable;
    IncreasingIsSorted(names, more, keys', DbImpl.AddToMemTable(es, e));
    SortedSame(EntriesAt(more, keys'), DbImpl.AddToMemTable(es, e));
  }

  lemma HeldGrows(names: Names, entries: map<Key, Entry>, keys: seq<Key>, e: Entry, keys': seq<Key>)
    requires Held(names, entries, keys) && KeyFits(names, e.key)
    requires forall k :: k in keys' <==> k == PositionOf(names, e.key) || k in keys
    ensures Held(names, entries[PositionOf(names, e.key) := e], keys')
  {
    hide PositionOf;
    var at := PositionOf(names, e.key);
    forall i | 0 <= i < |keys'| && keys'[i] != at
      ensures keys'[i] in entries && KeyFits(names, entries[keys'[i]].key) && PositionOf(names, entries[keys'[i]].key) == keys'[i]
    {
      assert keys'[i] in keys' && keys'[i] in keys;
      var j :| 0 <= j < |keys| && keys[j] == keys'[i];
    }
  }

  lemma MembersGrow(entries: map<Key, Entry>, keys: seq<Key>, at: Key, e: Entry, keys': seq<Key>)
    requires InDomain(entries, keys) && InDomain(entries[at := e], keys') && at !in keys
    requires forall k :: k in keys' <==> k == at || k in keys
    ensures forall x :: x in EntriesAt(entries[at := e], keys') <==> x == e || x in EntriesAt(entries, keys)
  {
    var es, es' := EntriesAt(entries, keys), EntriesAt(entries[at := e], keys');
    forall x | x in es'
      ensures x == e || x in es
    {
      var i :| 0 <= i < |keys'| && es'[i] == x;
      if keys'[i] != at {
        assert keys'[i] in keys';
        var j :| 0 <= j < |keys| && keys[j] == keys'[i];
        assert es[j] == x;
      }
    }
    forall x | x == e || x in es
      ensures x in es'
    {
      var k := at;
      if x != e {
        var j :| 0 <= j < |es| && es[j] == x;
        k := keys[j];
      }
      assert k in keys';
      var i :| 0 <= i < |keys'| && keys'[i] == k;
      assert es'[i] == x;
    }
  }

  /** Entries at increasing positions are sorted if no two of them share user key and sequence number. */
  lemma IncreasingIsSorted(names: Names, entries: map<Key, Entry>, keys: seq<Key>, sorted: seq<Entry>)
    requires Held(names, entries, keys) && Increasing(keys) && Sorted(sorted)
    requires forall e :: e in EntriesAt(entries, keys) ==> e in sorted
    ensures Sorted(EntriesAt(entries, keys))
  {
    hide PositionOf;
    var es := EntriesAt(entries, keys);
    forall i, j | 0 <= i < j < |es|
      ensures es[i].key.Precedes(es[j].key)
    {
      assert keys[i] in keys && keys[j] in keys && keys[i] < keys[j];
      PlaceEmbeds(names, es[i].key, es[j].key);
      assert es[i] in sorted && es[j] in sorted;
      var a :| 0 <= a < |sorted| && sorted[a] == es[i];
      var b :| 0 <= b < |sorted| && sorted[b] == es[j];
      assert a != b;
    }
  }

  // ---------- The memtable ----------

  class MemTable {
    const names: Names
    const list: List
    /** The entry that each key of the list points to. */
    var entries: map<Key, Entry>

    ghost predicate Valid()
      reads this, list
    {
      && list.Valid() && Held(names, entries, list.Keys())
      && Sorted(EntriesAt(entries, list.Keys()))
    }

    /** The entries, in order: what the database keeps of its memtable. */
    ghost function Contents(): (r: seq<Entry>)
      requires Valid()
      reads this, list
      ensures Sorted(r)
    {
      EntriesAt(entries, list.Keys())
    }

    constructor (names: Names)
      ensures Valid() && Contents() == [] && this.names == names && fresh(list)
    {
      this.names, entries := names, map[];
      list := new List(0.0);
    }

    /** MemTable::Add: `height` is the one drawn for the new node. */
    method Add(e: Entry, height: nat)
      requires Valid() && KeyFits(names, e.key) && 1 <= height <= MAX_HEIGHT
      requires forall x :: x in Contents() && x.key.user == e.key.user ==> x.key.seqno != e.key.seqno
      modifies this, list
      ensures Valid() && Contents() == DbImpl.AddToMemTable(old(Contents()), e)
    {
      var at := PositionOf(names, e.key);
      ghost var keys := list.Keys();
      NotHeld(names, entries, keys, e);
      list.Insert(at, height);
      EntriesGrow(names, entries, keys, e, list.Keys());
      entries := entries[at := e];
    }

    /** MemTable::Get: the first entry at or after the lookup key decides, if it is of the user key. */
    method Get(user: UserKey, snapshot: nat) returns (r: Lookup)
      requires Valid() && KeyFits(names, SeekKey(user, snapshot))
      ensures r == SeekLookup(Contents(), user, snapshot)
    {
      var iter := new Iterator(list);
      iter.Seek(PositionOf(names, SeekKey(user, snapshot)));
      RankIsLowerBound(names, entries, list.Keys(), SeekKey(user, snapshot));
      r := Missing;
      if iter.Valid() {
        var k := list.nodes.keys[iter.node];
        assert k == list.Keys()[iter.Index()];
        var e := entries[k];
        if e.key.user == user {
          r := LookupOf(e);
        }
      }
    }

    /** MemTableInserter: the updates of a batch, with consecutive sequence numbers. */
    method InsertInto(batch: seq<Database.Update>, first: nat, heights: seq<nat>)
      requires Valid() && |heights| == |batch| && forall h :: h in heights ==> 1 <= h <= MAX_HEIGHT
      requires first + |batch| <= MAX_SEQUENCE && forall x :: x in Contents() ==> x.key.seqno < first
      requires forall u :: u in batch ==> Comparator.Rank(names(u.user)) == u.user
      modifies this, list
      ensures Valid() && Elements(Contents()) == old(Elements(Contents())) + Elements(Database.BatchEntries(batch, first))
    {
      hide Held, DbImpl.AddToMemTable, Increasing, Sorted, PositionOf;
      ghost var before := Contents();
      ghost var all := Database.BatchEntries(batch, first);
      for i := 0 to |batch|
        invariant Valid() && Elements(Contents()) == Elements(before) + Elements(all[..i])
        invariant forall x :: x in Contents() ==> x.key.seqno < first + i
      {
        assert all[..i + 1] == all[..i] + [all[i]];
        assert batch[i] in batch && heights[i] in heights;
        var e := Entry(InternalKey(batch[i].user, first + i, batch[i].kind), batch[i].value);
        assert all[i] == e;
        Add(e, heights[i]);
      }
      assert all[..|batch|] == all;
    }
  }

  lemma NotHeld(names: Names, entries: map<Key, Entry>, keys: seq<Key>, e: Entry)
    requires Held(names, entries, keys) && KeyFits(names, e.key)
    requires forall x :: x in EntriesAt(entries, keys) && x.key.user == e.key.user ==> x.key.seqno != e.key.seqno
    ensures PositionOf(names, e.key) !in keys
  {
    hide PositionOf;
    forall k | k in keys
      ensures k != PositionOf(names, e.key)
    {
      var i :| 0 <= i < |keys| && keys[i] == k;
      assert EntriesAt(entries, keys)[i] in EntriesAt(entries, keys);
      PlaceEmbeds(names, entries[k].key, e.key);
    }
  }
}
