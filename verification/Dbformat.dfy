/** Internal keys and the meaning of a read (db/dbformat.h, db/dbformat.cc).

  The engine looks at a user key only through the pluggable user comparator, so a
  user key is modelled by its position in that comparator's total order.  Module
  Comparator proves that the default bytewise order embeds into these positions. */
module Dbformat {
  import opened Wrappers

  type UserKey = real

  datatype ValueType = Deletion | Value {
    function Code(): nat { if Value? then 1 else 0 }
  }

  /** Sequence numbers fit in 56 bits; eight bits are left for the type. */
  const MAX_SEQUENCE: nat := 0xff_ffff_ffff_ffff

  datatype InternalKey = InternalKey(user: UserKey, seqno: nat, kind: ValueType) {
    /** The packed 64-bit trailer of the key: sequence number and type. */
    function Tag(): nat { seqno * 256 + kind.Code() }

    /** Strictly before, in the order of InternalKeyComparator. */
    predicate Before(that: InternalKey) {
      || user < that.user
      || (user == that.user && (seqno > that.seqno || (seqno == that.seqno && kind.Value? && that.kind.Deletion?)))
    }

    /** Before, and not merely by type: stored entries never share a key and a sequence number. */
    predicate Precedes(that: InternalKey) {
      user < that.user || (user == that.user && seqno > that.seqno)
    }

    predicate AtMost(that: InternalKey) {
      !that.Before(this)
    }
  }

  /** InternalKeyComparator::Compare: increasing user key, then decreasing packed trailer. */
  function Compare(a: InternalKey, b: InternalKey): int {
    if a.user < b.user then -1
    else if a.user > b.user then 1
    else if a.Tag() > b.Tag() then -1
    else if a.Tag() < b.Tag() then 1
    else 0
  }

  /** Comparing packed trailers is comparing sequence numbers first and types second,
      so the comparator is a total order whose equality is equality of keys. */
  lemma CompareIsTotalOrder(a: InternalKey, b: InternalKey)
    ensures Compare(a, b) < 0 <==> a.Before(b)
    ensures Compare(a, b) > 0 <==> b.Before(a)
    ensures Compare(a, b) == 0 <==> a == b
  {
  }

  datatype Entry = Entry(key: InternalKey, value: Bytes) {
    predicate IsFor(user: UserKey, snapshot: nat) {
      key.user == user && key.seqno <= snapshot
    }
  }

  /** The key a lookup of `user` at `snapshot` seeks to (LookupKey, kValueTypeForSeek). */
  function SeekKey(user: UserKey, snapshot: nat): InternalKey {
    InternalKey(user, snapshot, Value)
  }

  /** Within one user key, "at or after the seek key" is "visible at the snapshot". */
  lemma SeekKeySeparates(e: Entry, user: UserKey, snapshot: nat)
    ensures e.key.user == user ==> (e.IsFor(user, snapshot) <==> SeekKey(user, snapshot).AtMost(e.key))
  {
  }

  // ---------- The specification of a read ----------

  /** What a lookup says about a user key: nothing known, deleted, or a value. */
  datatype Lookup = Missing | Deleted | Found(value: Bytes) {
    /** What the caller of DBImpl::Get sees: a tombstone reads as NotFound. */
    function Answer(): Option<Bytes> {
      if Found? then Some(value) else None
    }
  }

  function LookupOf(e: Entry): Lookup {
    if e.key.kind.Value? then Found(e.value) else Deleted
  }

  /** `e` is the newest entry for `user` in `es` that `snapshot` can see. */
  ghost predicate IsNewest(es: set<Entry>, user: UserKey, snapshot: nat, e: Entry) {
    && e in es
    && e.IsFor(user, snapshot)
    && forall x :: x in es && x.IsFor(user, snapshot) ==> x.key.seqno <= e.key.seqno
  }

  ghost predicate NoneVisible(es: set<Entry>, user: UserKey, snapshot: nat) {
    forall x :: x in es ==> !x.IsFor(user, snapshot)
  }

  /** The specification of a read: the newest visible entry decides. */
  ghost predicate Reads(es: set<Entry>, user: UserKey, snapshot: nat, r: Lookup) {
    if r.Missing? then NoneVisible(es, user, snapshot)
    else exists e :: IsNewest(es, user, snapshot, e) && r == LookupOf(e)
  }

  /** No two entries carry the same user key and sequence number. */
  ghost predicate UniqueVersions(es: set<Entry>) {
    forall x, y :: x in es && y in es && x.key.user == y.key.user && x.key.seqno == y.key.seqno ==> x == y
  }

  /** Two reads of one set of entries agree. */
  lemma ReadsDeterministic(es: set<Entry>, user: UserKey, snapshot: nat, r1: Lookup, r2: Lookup)
    requires UniqueVersions(es)
    requires Reads(es, user, snapshot, r1) && Reads(es, user, snapshot, r2)
    ensures r1 == r2
  {
    if r1.Missing? || r2.Missing? {
    } else {
      var e1 :| IsNewest(es, user, snapshot, e1) && r1 == LookupOf(e1);
      var e2 :| IsNewest(es, user, snapshot, e2) && r2 == LookupOf(e2);
      assert e1.key.seqno == e2.key.seqno;
    }
  }

  /** Every set of entries answers every read. */
  lemma ReadsExists(es: set<Entry>, user: UserKey, snapshot: nat) returns (r: Lookup)
    ensures Reads(es, user, snapshot, r)
  {
    if e :| e in es && e.IsFor(user, snapshot) {
      var n := NewestExists(es, user, snapshot, e);
      r := LookupOf(n);
    } else {
      r := Missing;
    }
  }

  lemma NewestExists(es: set<Entry>, user: UserKey, snapshot: nat, e: Entry) returns (n: Entry)
    requires e in es && e.IsFor(user, snapshot)
    ensures IsNewest(es, user, snapshot, n)
    ensures e.key.seqno <= n.key.seqno
    decreases snapshot - e.key.seqno
  {
    if x :| x in es && x.IsFor(user, snapshot) && x.key.seqno > e.key.seqno {
      n := NewestExists(es, user, snapshot, x);
    } else {
      n := e;
    }
  }

  // ---------- Sorted runs of entries ----------

  /** Strictly increasing internal keys, no version twice: the content of a memtable or a table file. */
  ghost predicate Sorted(es: seq<Entry>) {
    forall i, j :: 0 <= i < j < |es| ==> es[i].key.Precedes(es[j].key)
  }

  /** Seek in an index block: the first block whose index key is at or after the key. */
  function SeekIndex(index: seq<InternalKey>, key: InternalKey): (i: nat)
    ensures i <= |index|
    ensures forall j :: 0 <= j < i ==> index[j].Before(key)
    ensures i < |index| ==> key.AtMost(index[i])
  {
    if index == [] || key.AtMost(index[0]) then 0
    else
      assert forall j :: 0 <= j < |index| - 1 ==> index[1..][j] == index[j + 1];
      1 + SeekIndex(index[1..], key)
  }

  /** Index of the first entry at or after `key`: the meaning of Iterator::Seek. */
  function LowerBound(es: seq<Entry>, key: InternalKey): (i: nat)
    requires Sorted(es)
    ensures i <= |es|
    ensures forall j :: 0 <= j < i ==> es[j].key.Before(key)
    ensures forall j :: i <= j < |es| ==> key.AtMost(es[j].key)
  {
    if es == [] then 0
    else if key.AtMost(es[0].key) then 0
    else
      assert forall j :: 0 <= j < |es| - 1 ==> es[1..][j] == es[j + 1];
      1 + LowerBound(es[1..], key)
  }

  /** Seek, then check the user key: Table lookup with SaveValue, and MemTable::Get. */
  function SeekLookup(es: seq<Entry>, user: UserKey, snapshot: nat): Lookup
    requires Sorted(es)
  {
    var i := LowerBound(es, SeekKey(user, snapshot));
    if i < |es| && es[i].key.user == user then LookupOf(es[i]) else Missing
  }

  ghost function Elements(es: seq<Entry>): set<Entry> {
    set e | e in es
  }

  /** One seek in a sorted run answers the read of that run. */
  lemma SeekLookupReads(es: seq<Entry>, user: UserKey, snapshot: nat)
    requires Sorted(es)
    ensures Reads(Elements(es), user, snapshot, SeekLookup(es, user, snapshot))
  {
    var i := LowerBound(es, SeekKey(user, snapshot));
    if i < |es| && es[i].key.user == user {
      assert es[i] in Elements(es);
      assert IsNewest(Elements(es), user, snapshot, es[i]);
    } else {
      forall x | x in Elements(es)
        ensures !x.IsFor(user, snapshot)
      {
        var j :| 0 <= j < |es| && es[j] == x;
        if j > i { assert es[i].key.Precedes(es[j].key); }
      }
    }
  }
}
