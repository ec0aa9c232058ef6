/** Tables: data blocks, an index of separators, and a filter block (table/table_builder.cc,
    table/table.cc). Blocks are lists of entries here; module Block has their encoding. */
module Table {
  import opened Wrappers
  import opened Dbformat
  import opened Bloom
  import opened FilterBlock

  datatype DataBlock = DataBlock(offset: nat, entries: seq<Entry>)

  /** A finished table: its data blocks, one index key for each, and the filter block if any. */
  datatype TableFile = TableFile(blocks: seq<DataBlock>, index: seq<InternalKey>, filter: Option<Bytes>)

  /** How a user key's position is written as a string, for the filter policy to hash. */
  type Naming = UserKey -> Bytes

  // ---------- What makes a table good ----------

  /** Entries in order within and across the blocks, none of them empty. */
  ghost predicate BlocksOk(blocks: seq<DataBlock>) {
    && (forall i :: 0 <= i < |blocks| ==> blocks[i].entries != [] && Sorted(blocks[i].entries))
    && (forall i, j, x, y :: 0 <= i < j < |blocks| && x in blocks[i].entries && y in blocks[j].entries ==> x.key.Precedes(y.key))
  }

  function LastKey(b: DataBlock): InternalKey
    requires b.entries != []
  {
    b.entries[|b.entries| - 1].key
  }

  /** An index key is the last key of its block, or the earliest key of a user key strictly
      between that block and the next key. */
  ghost predicate Separates(last: InternalKey, sep: InternalKey, next: Option<InternalKey>) {
    || sep == last
    || (last.user < sep.user && sep.seqno == MAX_SEQUENCE && sep.kind == Value && (next.Some? ==> sep.user < next.value.user))
  }

  /** The first key after a block. */
  function NextKey(blocks: seq<DataBlock>, i: nat): Option<InternalKey>
    requires i < |blocks| && (i + 1 < |blocks| ==> blocks[i + 1].entries != [])
  {
    if i + 1 < |blocks| then Some(blocks[i + 1].entries[0].key) else None
  }

  ghost predicate IndexOk(blocks: seq<DataBlock>, index: seq<InternalKey>) {
    && BlocksOk(blocks) && |index| <= |blocks|
    && forall i {:trigger index[i]} :: 0 <= i < |index| ==> Separates(LastKey(blocks[i]), index[i], NextKey(blocks, i))
  }

  ghost predicate FilterOk(hash: Hash, naming: Naming, blocks: seq<DataBlock>, filter: Option<Bytes>) {
    filter.Some? ==>
      forall i, e :: 0 <= i < |blocks| && e in blocks[i].entries ==>
        MayMatch(hash, filter.value, blocks[i].offset, naming(e.key.user))
  }

  ghost predicate TableOk(hash: Hash, naming: Naming, t: TableFile) {
    IndexOk(t.blocks, t.index) && |t.index| == |t.blocks| && FilterOk(hash, naming, t.blocks, t.filter)
  }

  ghost function TableEntries(blocks: seq<DataBlock>): set<Entry> {
    set b, e | b in blocks && e in b.entries :: e
  }

  // ---------- InternalGet ----------

  /** Table::InternalGet: the entry handed to the caller, if any. */
  method InternalGet(hash: Hash, naming: Naming, t: TableFile, key: InternalKey) returns (r: Option<Entry>)
    requires TableOk(hash, naming, t)
    ensures r == Reported(hash, naming, t, key)
    ensures r.Some? ==> r.value in TableEntries(t.blocks) && key.AtMost(r.value.key)
    ensures forall user, snapshot: nat :: snapshot <= MAX_SEQUENCE && key == SeekKey(user, snapshot) ==>
              Reads(TableEntries(t.blocks), user, snapshot, Saved(r, user))
  {
    forall user, snapshot: nat | snapshot <= MAX_SEQUENCE && key == SeekKey(user, snapshot)
      ensures Reads(TableEntries(t.blocks), user, snapshot, Saved(Reported(hash, naming, t, key), user))
    {
      InternalGetReads(hash, naming, t, user, snapshot);
    }
    ReportedIsHeld(hash, naming, t, key);
    var i := SeekIndex(t.index, key);
    r := None;
    if i < |t.index| {
      if t.filter.Some? && !MayMatch(hash, t.filter.value, t.blocks[i].offset, naming(key.user)) {
      } else {
        var j := LowerBound(t.blocks[i].entries, key);
        if j < |t.blocks[i].entries| {
          r := Some(t.blocks[i].entries[j]);
        }
      }
    }
  }

  ghost function Reported(hash: Hash, naming: Naming, t: TableFile, key: InternalKey): Option<Entry>
    requires TableOk(hash, naming, t)
  {
    var i := SeekIndex(t.index, key);
    if i == |t.index| || (t.filter.Some? && !MayMatch(hash, t.filter.value, t.blocks[i].offset, naming(key.user))) then None
    else
      var j := LowerBound(t.blocks[i].entries, key);
      if j < |t.blocks[i].entries| then Some(t.blocks[i].entries[j]) else None
  }

  /** SaveValue: an entry of another user key is not an answer. */
  function Saved(r: Option<Entry>, user: UserKey): Lookup {
    if r.Some? && r.value.key.user == user then LookupOf(r.value) else Missing
  }

  /** Nothing in a block before the one found is at or after the key sought. */
  lemma EarlierBlocksAreBefore(blocks: seq<DataBlock>, index: seq<InternalKey>, key: InternalKey, i: nat, e: Entry)
    requires IndexOk(blocks, index) && i < SeekIndex(index, key) && e in blocks[i].entries
    ensures e.key.Before(key)
  {
    assert index[i].Before(key);
    assert Separates(LastKey(blocks[i]), index[i], NextKey(blocks, i));
    AtMostLast(blocks[i].entries, e);
  }

  lemma AtMostLast(es: seq<Entry>, e: Entry)
    requires Sorted(es) && e in es
    ensures e.key == es[|es| - 1].key || e.key.Precedes(es[|es| - 1].key)
  {
  }

  /** If the found block ends before the key sought, no later block holds its user key, either. */
  lemma LaterBlocksHaveOtherKeys(blocks: seq<DataBlock>, index: seq<InternalKey>, user: UserKey, snapshot: nat, i: nat, j: nat, e: Entry)
    requires IndexOk(blocks, index) && snapshot <= MAX_SEQUENCE
    requires i < |index| && SeekKey(user, snapshot).AtMost(index[i])
    requires LastKey(blocks[i]).Before(SeekKey(user, snapshot))
    requires i < j < |blocks| && e in blocks[j].entries
    ensures e.key.user != user
  {
    var next := blocks[i + 1].entries[0];
    assert Separates(LastKey(blocks[i]), index[i], Some(next.key));
    assert next in blocks[i + 1].entries;
    if j == i + 1 {
      var k :| 0 <= k < |blocks[j].entries| && blocks[j].entries[k] == e;
      assert k > 0 ==> next.key.Precedes(e.key);
    }
  }

  /** A table lookup reports the newest visible entry of the user key whenever the table holds one,
      and nothing of that user key otherwise. */
  lemma InternalGetReads(hash: Hash, naming: Naming, t: TableFile, user: UserKey, snapshot: nat)
    requires TableOk(hash, naming, t) && snapshot <= MAX_SEQUENCE
    ensures Reads(TableEntries(t.blocks), user, snapshot, Saved(Reported(hash, naming, t, SeekKey(user, snapshot)), user))
  {
    var key := SeekKey(user, snapshot);
    var i := SeekIndex(t.index, key);
    var r := Reported(hash, naming, t, key);
    forall e | e in TableEntries(t.blocks) && e.IsFor(user, snapshot)
      ensures r.Some? && r.value.IsFor(user, snapshot) && e.key.seqno <= r.value.key.seqno
    {
      var b :| b in t.blocks && e in b.entries;
      var j :| 0 <= j < |t.blocks| && t.blocks[j] == b;
      VisibleIsReported(hash, naming, t, user, snapshot, j, e);
    }
    ReportedIsHeld(hash, naming, t, key);
    NewestFoundAnswers(TableEntries(t.blocks), user, snapshot, r);
  }

  lemma ReportedIsHeld(hash: Hash, naming: Naming, t: TableFile, key: InternalKey)
    requires TableOk(hash, naming, t)
    ensures
      var r := Reported(hash, naming, t, key);
      r.Some? ==> r.value in TableEntries(t.blocks) && key.AtMost(r.value.key)
  {
    var i := SeekIndex(t.index, key);
    var r := Reported(hash, naming, t, key);
    assert r.Some? ==> t.blocks[i] in t.blocks && r.value in t.blocks[i].entries;
  }

  lemma NewestFoundAnswers(es: set<Entry>, user: UserKey, snapshot: nat, r: Option<Entry>)
    requires forall e :: e in es && e.IsFor(user, snapshot) ==>
               r.Some? && r.value.IsFor(user, snapshot) && e.key.seqno <= r.value.key.seqno
    requires r.Some? ==> r.value in es && SeekKey(user, snapshot).AtMost(r.value.key)
    ensures Reads(es, user, snapshot, Saved(r, user))
  {
    if r.Some? && r.value.key.user == user {
      SeekKeySeparates(r.value, user, snapshot);
      assert IsNewest(es, user, snapshot, r.value);
    }
  }

  /** Any visible entry of the user key makes the lookup report one at least as new. */
  lemma VisibleIsReported(hash: Hash, naming: Naming, t: TableFile, user: UserKey, snapshot: nat, j: nat, e: Entry)
    requires TableOk(hash, naming, t) && snapshot <= MAX_SEQUENCE
    requires j < |t.blocks| && e in t.blocks[j].entries && e.IsFor(user, snapshot)
    ensures
      var r := Reported(hash, naming, t, SeekKey(user, snapshot));
      r.Some? && r.value.IsFor(user, snapshot) && e.key.seqno <= r.value.key.seqno
  {
    var key := SeekKey(user, snapshot);
    var i := SeekIndex(t.index, key);
    if j < i {
      EarlierBlocksAreBefore(t.blocks, t.index, key, j, e);
    }
    var es := t.blocks[i].entries;
    if LastKey(t.blocks[i]).Before(key) {
      InBlockBefore(t.blocks[i], key);
      if i < j {
        LaterBlocksHaveOtherKeys(t.blocks, t.index, user, snapshot, i, j, e);
      }
    }
    var k := LowerBound(es, key);
    assert k < |es|;
    FirstFoundIsFor(t, user, snapshot, i, k, j, e);
  }

  lemma InBlockBefore(b: DataBlock, key: InternalKey)
    requires b.entries != [] && Sorted(b.entries) && LastKey(b).Before(key)
    ensures forall e :: e in b.entries ==> e.key.Before(key)
  {
    forall e | e in b.entries
      ensures e.key.Before(key)
    {
      var j :| 0 <= j < |b.entries| && b.entries[j] == e;
      var last := |b.entries| - 1;
      assert j < last ==> e.key.Precedes(b.entries[last].key);
    }
  }

  /** The first entry at or after the seek key in the found block is not after `e`, so it is of the
      same user key and at least as new; and the filter cannot hide it. */
  lemma FirstFoundIsFor(t: TableFile, user: UserKey, snapshot: nat, i: nat, k: nat, j: nat, e: Entry)
    requires BlocksOk(t.blocks) && i <= j < |t.blocks| && k < |t.blocks[i].entries|
    requires k == LowerBound(t.blocks[i].entries, SeekKey(user, snapshot))
    requires e in t.blocks[j].entries && e.IsFor(user, snapshot)
    ensures t.blocks[i].entries[k].IsFor(user, snapshot) && e.key.seqno <= t.blocks[i].entries[k].key.seqno
  {
    var found := t.blocks[i].entries[k];
    assert found in t.blocks[i].entries;
    SeekKeySeparates(e, user, snapshot);
    SeekKeySeparates(found, user, snapshot);
    if i < j {
      assert found.key.Precedes(e.key);
    } else {
      var m :| 0 <= m < |t.blocks[i].entries| && t.blocks[i].entries[m] == e;
      assert m > k ==> found.key.Precedes(e.key);
    }
  }
}
