/** A table as it lies in its file: the footer leads to the index block, that to a handle, the handle to a data
    block, and each block is searched as bytes (table/table.cc). */
module TableBytes {
  import opened Wrappers
  import opened Dbformat
  import opened InternalKeys
  import opened Bloom
  import opened FilterBlock
  import opened Table
  import opened Block
  import opened BlockIter
  import opened TableFormat
  import BlockBuilder
  import Coding
  import Comparator

  // ---------- Blocks ----------

  /** The block's bytes open and read as the pairs. */
  ghost predicate HoldsPairs(block: Bytes, es: seq<Pair>) {
    OpenBlock(block).Some? && exists at, starts :: ReadsAs(block, es, at, starts)
  }

  ghost predicate ReadsAs(block: Bytes, es: seq<Pair>, at: seq<nat>, starts: seq<nat>)
    requires OpenBlock(block).Some?
  {
    Readable(block, OpenBlock(block).value.0, es, at, starts) && OpenBlock(block).value.1 == |at|
  }

  /** A block that the builder makes of pairs holds them. */
  method BuildBlock(es: seq<Pair>, interval: nat) returns (block: Bytes)
    requires interval >= 1
    ensures |block| < Coding.TWO_32 && AllFit(es) ==> HoldsPairs(block, es)
  {
    var builder := new BlockBuilder.BlockBuilder(interval);
    for i := 0 to |es|
      invariant builder.Valid() && !builder.finished && fresh(builder) && builder.es == es[..i]
    {
      builder.Add(es[i].key, es[i].value);
    }
    assert es[..|es|] == es;
    block := builder.Finish();
    if |block| < Coding.TWO_32 && AllFit(es) {
      BlockIsReadable(es, builder.at, builder.starts, block);
      assert ReadsAs(block, es, builder.at, builder.starts);
    }
  }

  /** The place where a seek in sorted pairs ends. */
  ghost predicate IsFirstAt(cmp: Cmp, es: seq<Pair>, target: Bytes, n: nat) {
    && n <= |es| && (forall i :: 0 <= i < n ==> cmp(es[i].key, target) < 0)
    && (n < |es| ==> cmp(es[n].key, target) >= 0)
  }

  /** A new iterator over a block, and one seek. */
  method SeekBlock(block: Bytes, ghost es: seq<Pair>, cmp: Cmp, target: Bytes) returns (r: Option<Pair>, ghost n: nat)
    requires HoldsPairs(block, es) && SortedFor(cmp, es, target)
    ensures IsFirstAt(cmp, es, target, n)
    ensures r == if n < |es| then Some(es[n]) else None
  {
    ghost var at, starts :| ReadsAs(block, es, at, starts);
    var iter := new Iter(block, es, at, starts);
    iter.Seek(cmp, target);
    n := iter.pos;
    r := if iter.OnEntry() then Some(iter.Current()) else None;
  }

  // ---------- Keys in blocks ----------

  /** Pairs whose keys are the encodings of internal keys. */
  ghost predicate HasKeys(names: Names, es: seq<Pair>, keys: seq<InternalKey>) {
    && |es| == |keys| && (forall i :: 0 <= i < |keys| ==> es[i].key == KeyBytes(names, keys[i]))
    && (forall i :: 0 <= i < |keys| ==> KeyFits(names, keys[i]))
    && (forall i, j :: 0 <= i < j < |keys| ==> keys[i].Before(keys[j]))
  }

  lemma KeysAreSorted(names: Names, es: seq<Pair>, keys: seq<InternalKey>, key: InternalKey)
    requires HasKeys(names, es, keys) && KeyFits(names, key)
    ensures SortedFor(KeyCompare, es, KeyBytes(names, key))
  {
    forall i, j | 0 <= i < j < |es| && KeyCompare(es[j].key, KeyBytes(names, key)) < 0
      ensures KeyCompare(es[i].key, KeyBytes(names, key)) < 0
    {
      CompareKeys(names, keys[i], key);
      CompareKeys(names, keys[j], key);
      assert keys[i].Before(keys[j]);
    }
  }

  /** The first pair at or after the encoded key is that of the first key at or after the key. */
  lemma FirstAtIsFirst(names: Names, es: seq<Pair>, keys: seq<InternalKey>, key: InternalKey, n: nat)
    requires HasKeys(names, es, keys) && KeyFits(names, key) && IsFirstAt(KeyCompare, es, KeyBytes(names, key), n)
    ensures forall i :: 0 <= i < n ==> keys[i].Before(key)
    ensures n < |keys| ==> key.AtMost(keys[n])
  {
    forall i | 0 <= i < n
      ensures keys[i].Before(key)
    {
      CompareKeys(names, keys[i], key);
    }
    if n < |keys| {
      CompareKeys(names, keys[n], key);
    }
  }

  // ---------- Tables ----------

  function PairOf(names: Names, e: Entry): Pair { Pair(KeyBytes(names, e.key), e.value) }

  function PairsOf(names: Names, es: seq<Entry>): seq<Pair> { Map(e => PairOf(names, e), es) }

  function IndexPairs(names: Names, index: seq<InternalKey>, handles: seq<Handle>): (r: seq<Pair>)
    requires |index| == |handles|
    ensures |r| == |index|
  {
    seq(|index|, i requires 0 <= i < |index| => Pair(KeyBytes(names, index[i]), EncodeHandle(handles[i])))
  }

  ghost predicate DataBlockIn(names: Names, file: Bytes, h: Handle, b: DataBlock) {
    && h.Fits() && h.offset == b.offset && (exists data :: BlockAt(file, h, data) && HoldsPairs(data, PairsOf(names, b.entries)))
    && forall e :: e in b.entries ==> KeyFits(names, e.key)
  }

  /** The file has the table's data blocks, with their trailers, where the handles say, and its index block has the
      handles. */
  ghost predicate IsImage(names: Names, file: Bytes, indexBlock: Bytes, handles: seq<Handle>, t: TableFile) {
    && |handles| == |t.index| == |t.blocks|
    && HoldsPairs(indexBlock, IndexPairs(names, t.index, handles))
    && (forall i :: 0 <= i < |t.index| ==> KeyFits(names, t.index[i]))
    && (forall i :: 0 <= i < |t.blocks| ==> DataBlockIn(names, file, handles[i], t.blocks[i]))
  }

  /** Index keys increase, shortened or not. */
  lemma IndexIncreases(blocks: seq<DataBlock>, index: seq<InternalKey>, i: nat, j: nat)
    requires IndexOk(blocks, index) && i < j < |index|
    ensures index[i].Before(index[j])
  {
    var last, first := LastKey(blocks[j]), blocks[i + 1].entries[0].key;
    assert Table.Separates(LastKey(blocks[i]), index[i], Some(first));
    assert Table.Separates(last, index[j], NextKey(blocks, j));
    assert blocks[i].entries[|blocks[i].entries| - 1] in blocks[i].entries;
    assert blocks[i + 1].entries[0] in blocks[i + 1].entries && blocks[j].entries[|blocks[j].entries| - 1] in blocks[j].entries;
    assert LastKey(blocks[i]).Precedes(first);
    assert first == last || first.Precedes(last) by {
      if i + 1 == j {
        AtMostLast(blocks[j].entries, blocks[j].entries[0]);
      }
    }
  }

  lemma IndexHasKeys(names: Names, file: Bytes, indexBlock: Bytes, handles: seq<Handle>, t: TableFile)
    requires IndexOk(t.blocks, t.index) && IsImage(names, file, indexBlock, handles, t)
    ensures HasKeys(names, IndexPairs(names, t.index, handles), t.index)
  {
    forall i, j | 0 <= i < j < |t.index|
      ensures t.index[i].Before(t.index[j])
    {
      IndexIncreases(t.blocks, t.index, i, j);
    }
  }

  function KeysOf(es: seq<Entry>): seq<InternalKey> { Map((e: Entry) => e.key, es) }

  lemma BlockHasKeys(names: Names, es: seq<Entry>)
    requires Sorted(es) && forall e :: e in es ==> KeyFits(names, e.key)
    ensures HasKeys(names, PairsOf(names, es), KeysOf(es))
  {
    forall i | 0 <= i < |es|
      ensures KeyFits(names, es[i].key)
    {
      assert es[i] in es;
    }
  }

  // ---------- The lookup ----------

  function PairOfFound(names: Names, r: Option<Entry>): Option<Pair> {
    match r
    case None => None
    case Some(e) => Some(PairOf(names, e))
  }

  /** SaveValue on the pair found: one of another user key is no answer. */
  function SavedPair(r: Option<Pair>, user: Bytes): Lookup {
    match r
    case None => Missing
    case Some(p) =>
      match Parse(p.key)
      case None => Missing
      case Some(k) =>
        if Comparator.Compare(k.user, user) != 0 then Missing else if k.kind.Value? then Found(p.value) else Deleted
  }

  lemma SavedPairIsSaved(names: Names, r: Option<Entry>, user: UserKey)
    requires r.Some? ==> KeyFits(names, r.value.key)
    requires Comparator.Rank(names(user)) == user
    ensures SavedPair(PairOfFound(names, r), names(user)) == Saved(r, user)
  {
    hide Comparator.Rank, Comparator.Compare, Parse, KeyBytes;
    if r.Some? {
      KeyRoundTrip(names, r.value.key);
      Comparator.RankEmbeds(names(r.value.key.user), names(user));
    }
  }

  /** The data block of the handle is read and searched for the key. */
  method SeekData(names: Names, file: Bytes, h: Handle, verify: bool, ghost b: DataBlock, ghost key: InternalKey, target: Bytes)
    returns (r: Option<Pair>)
    requires DataBlockIn(names, file, h, b) && Sorted(b.entries) && KeyFits(names, key) && target == KeyBytes(names, key)
    ensures
      var j := LowerBound(b.entries, key);
      r == if j < |b.entries| then Some(PairOf(names, b.entries[j])) else None
  {
    BlockHasKeys(names, b.entries);
    KeysAreSorted(names, PairsOf(names, b.entries), KeysOf(b.entries), key);
    ghost var data :| BlockAt(file, h, data) && HoldsPairs(data, PairsOf(names, b.entries));
    WrittenIsRead(file, h, data, verify);
    var block := ReadBlock(file, h, verify);
    ghost var n;
    r, n := SeekBlock(block.value, PairsOf(names, b.entries), KeyCompare, target);
    FirstAtIsFirst(names, PairsOf(names, b.entries), KeysOf(b.entries), key, n);
    LowerBoundIs(b.entries, key, n);
  }

  lemma LowerBoundIs(es: seq<Entry>, key: InternalKey, n: nat)
    requires Sorted(es) && n <= |es|
    requires forall i :: 0 <= i < n ==> KeysOf(es)[i].Before(key)
    requires n < |es| ==> key.AtMost(KeysOf(es)[n])
    ensures LowerBound(es, key) == n
  {
    var m := LowerBound(es, key);
    assert m < |es| ==> (KeysOf(es)[m].Before(key) <==> m < n);
    assert n < |es| ==> (es[n].key.Before(key) <==> n < m);
  }

  lemma HandlesFit(names: Names, file: Bytes, indexBlock: Bytes, handles: seq<Handle>, t: TableFile)
    requires IsImage(names, file, indexBlock, handles, t)
    ensures |handles| == |t.blocks| && forall i :: 0 <= i < |handles| ==> handles[i].Fits()
  {
    hide HoldsPairs;
    forall i | 0 <= i < |handles|
      ensures handles[i].Fits()
    {
      assert DataBlockIn(names, file, handles[i], t.blocks[i]);
    }
  }

  /** The index block is searched for the key: the handle of the first block whose index key is at or after it. */
  method SeekHandle(names: Names, ghost file: Bytes, indexBlock: Bytes, target: Bytes, ghost handles: seq<Handle>,
                    ghost t: TableFile, ghost key: InternalKey)
    returns (found: bool, h: Option<Handle>)
    requires IndexOk(t.blocks, t.index) && IsImage(names, file, indexBlock, handles, t)
    requires KeyFits(names, key) && target == KeyBytes(names, key)
    ensures found <==> SeekIndex(t.index, key) < |t.index|
    ensures found ==> h == Some(handles[SeekIndex(t.index, key)])
  {
    hide IndexOk, HoldsPairs, DataBlockIn;
    ghost var pairs := IndexPairs(names, t.index, handles);
    IndexHasKeys(names, file, indexBlock, handles, t);
    HandlesFit(names, file, indexBlock, handles, t);
    KeysAreSorted(names, pairs, t.index, key);
    var p;
    ghost var i;
    p, i := SeekBlock(indexBlock, pairs, KeyCompare, target);
    FirstAtIsFirst(names, pairs, t.index, key, i);
    SeekIndexIs(t.index, key, i);
    found, h := p.Some?, None;
    if found {
      HandleRoundTrip(handles[i], []);
      assert EncodeHandle(handles[i]) + [] == EncodeHandle(handles[i]);
      var decoded := GetHandle(p.value.value);
      h := if decoded.Some? then Some(decoded.value.value) else None;
    }
  }

  /** Table::InternalGet on the bytes of the file. */
  method InternalGet(hash: Hash, names: Names, file: Bytes, verify: bool, indexBlock: Bytes, filter: Option<Bytes>, target: Bytes,
                     ghost handles: seq<Handle>, ghost t: TableFile, ghost key: InternalKey)
    returns (r: Option<Pair>)
    requires TableOk(hash, names, t) && filter == t.filter && IsImage(names, file, indexBlock, handles, t)
    requires KeyFits(names, key) && target == KeyBytes(names, key)
    ensures r == PairOfFound(names, Reported(hash, names, t, key))
    ensures forall user, snapshot: nat ::
              snapshot <= MAX_SEQUENCE && key == SeekKey(user, snapshot) ==>
                Reads(TableEntries(t.blocks), user, snapshot, SavedPair(r, names(user)))
  {
    hide IsImage, IndexOk, DataBlockIn, SavedPair, TableEntries, MayMatch, FilterOk, KeyBytes, Reads;
    LookupReads(hash, names, file, indexBlock, handles, t, key);
    KeyRoundTrip(names, key);
    var found, handle := SeekHandle(names, file, indexBlock, target, handles, t, key);
    if !found {
      return None;
    }
    ghost var i := SeekIndex(t.index, key);
    BlockFound(hash, names, file, indexBlock, handles, t, i);
    if filter.Some? && handle.Some? && !MayMatch(hash, filter.value, handle.value.offset, ExtractUserKey(target)) {
      return None;
    }
    r := SeekData(names, file, handle.value, verify, t.blocks[i], key, target);
  }

  lemma BlockFound(hash: Hash, names: Names, file: Bytes, indexBlock: Bytes, handles: seq<Handle>, t: TableFile, i: nat)
    requires TableOk(hash, names, t) && IsImage(names, file, indexBlock, handles, t) && i < |t.index|
    ensures |handles| == |t.blocks| == |t.index| && DataBlockIn(names, file, handles[i], t.blocks[i])
    ensures handles[i].offset == t.blocks[i].offset && Sorted(t.blocks[i].entries)
  {
    hide HoldsPairs, BlockAt, FilterOk;
  }

  lemma SeekIndexIs(index: seq<InternalKey>, key: InternalKey, n: nat)
    requires n <= |index| && forall i :: 0 <= i < n ==> index[i].Before(key)
    requires n < |index| ==> key.AtMost(index[n])
    ensures SeekIndex(index, key) == n
  {
    var m := SeekIndex(index, key);
    assert m < |index| ==> (index[m].Before(key) <==> m < n);
    assert n < |index| ==> (index[n].Before(key) <==> n < m);
  }

  lemma ReportedFits(hash: Hash, names: Names, file: Bytes, indexBlock: Bytes, handles: seq<Handle>, t: TableFile, key: InternalKey)
    requires TableOk(hash, names, t) && IsImage(names, file, indexBlock, handles, t)
    ensures Reported(hash, names, t, key).Some? ==> KeyFits(names, Reported(hash, names, t, key).value.key)
  {
    hide HoldsPairs, IndexOk, FilterOk, Reported, BlockAt;
    var r := Reported(hash, names, t, key);
    ReportedIsHeld(hash, names, t, key);
    if r.Some? {
      var b :| b in t.blocks && r.value in b.entries;
      var i :| 0 <= i < |t.blocks| && t.blocks[i] == b;
      assert DataBlockIn(names, file, handles[i], t.blocks[i]);
    }
  }

  /** What is reported answers the read, told from the pair's bytes. */
  lemma LookupReads(hash: Hash, names: Names, file: Bytes, indexBlock: Bytes, handles: seq<Handle>, t: TableFile, key: InternalKey)
    requires TableOk(hash, names, t) && IsImage(names, file, indexBlock, handles, t) && KeyFits(names, key)
    ensures forall user, snapshot: nat ::
              snapshot <= MAX_SEQUENCE && key == SeekKey(user, snapshot) ==>
                Reads(TableEntries(t.blocks), user, snapshot, SavedPair(PairOfFound(names, Reported(hash, names, t, key)), names(user)))
  {
    ReportedFits(hash, names, file, indexBlock, handles, t, key);
    hide IsImage, TableOk, Reported, SavedPair, PairOfFound, TableEntries;
    forall user, snapshot: nat | snapshot <= MAX_SEQUENCE && key == SeekKey(user, snapshot)
      ensures Reads(TableEntries(t.blocks), user, snapshot, SavedPair(PairOfFound(names, Reported(hash, names, t, key)), names(user)))
    {
      InternalGetReads(hash, names, t, user, snapshot);
      SavedPairIsSaved(names, Reported(hash, names, t, key), user);
    }
  }

  // ---------- Whole files ----------

  /** The metaindex block names the filter block, if there is one. */
  function MetaPairs(filterKey: Bytes, filter: Option<Handle>): seq<Pair> {
    if filter.Some? then [Pair(filterKey, EncodeHandle(filter.value))] else []
  }

  /** Where the blocks of a file are. */
  datatype Layout = Layout(handles: seq<Handle>, index: Handle, indexBlock: Bytes, meta: Handle, metaBlock: Bytes, filter: Option<Handle>)

  /** The file ends with a footer that leads to the blocks of the table. */
  ghost predicate IsTableFile(names: Names, filterKey: Bytes, file: Bytes, t: TableFile, x: Layout) {
    && x.meta.Fits() && x.index.Fits() && |EncodeHandle(x.meta)| <= MAX_HANDLE && |EncodeHandle(x.index)| <= MAX_HANDLE
    && |file| >= FOOTER && file[|file| - FOOTER..] == EncodeFooter(x.meta, x.index)
    && BlockAt(file, x.index, x.indexBlock) && IsImage(names, file, x.indexBlock, x.handles, t)
    && BlockAt(file, x.meta, x.metaBlock) && HoldsPairs(x.metaBlock, MetaPairs(filterKey, x.filter))
    && (x.filter.Some? <==> t.filter.Some?)
    && (t.filter.Some? ==> x.filter.value.Fits() && BlockAt(file, x.filter.value, t.filter.value))
  }

  /** Table::ReadMeta: the filter block, if the metaindex block has one of the policy's name. */
  method ReadMeta(file: Bytes, verify: bool, key: Bytes, meta: Handle, ghost names: Names, ghost filterKey: Bytes,
                  ghost t: TableFile, ghost x: Layout)
    returns (filter: Option<Bytes>)
    requires IsTableFile(names, filterKey, file, t, x) && meta == x.meta
    ensures filter == if key == filterKey then t.filter else None
  {
    WrittenIsRead(file, x.meta, x.metaBlock, verify);
    var block := ReadBlock(file, meta, verify);
    ghost var n;
    var p;
    p, n := SeekBlock(block.value, MetaPairs(filterKey, x.filter), Comparator.Compare, key);
    filter := None;
    MetaFound(filterKey, x.filter, key, n);
    if p.Some? && p.value.key == key {
      HandleRoundTrip(x.filter.value, []);
      assert EncodeHandle(x.filter.value) + [] == EncodeHandle(x.filter.value);
      var decoded := GetHandle(p.value.value);
      WrittenIsRead(file, x.filter.value, t.filter.value, verify);
      filter := ReadBlock(file, decoded.value.value, verify);
    }
  }

  lemma MetaFound(filterKey: Bytes, filter: Option<Handle>, key: Bytes, n: nat)
    requires IsFirstAt(Comparator.Compare, MetaPairs(filterKey, filter), key, n)
    ensures filter.Some? && key == filterKey ==> n == 0
    ensures n < |MetaPairs(filterKey, filter)| ==> n == 0 && filter.Some?
  {
    SameKey(key);
    var es := MetaPairs(filterKey, filter);
    assert |es| <= 1 && (filter.Some? ==> es[0].key == filterKey);
    assert n > 0 ==> Comparator.Compare(es[0].key, key) < 0;
  }

  lemma {:induction false} SameKey(key: Bytes)
    ensures Comparator.Compare(key, key) == 0
  {
    if key != [] {
      SameKey(key[1..]);
    }
  }

  /** Table::Open: the index block that the footer leads to, and the filter. */
  method Open(file: Bytes, verify: bool, policy: Option<Bytes>, ghost names: Names, ghost filterKey: Bytes, ghost t: TableFile,
              ghost x: Layout)
    returns (indexBlock: Bytes, filter: Option<Bytes>)
    requires IsTableFile(names, filterKey, file, t, x)
    ensures indexBlock == x.indexBlock
    ensures filter == if policy == Some(filterKey) then t.filter else None
  {
    FooterRoundTrip(x.meta, x.index);
    var footer := DecodeFooter(file[|file| - FOOTER..]);
    WrittenIsRead(file, x.index, x.indexBlock, verify);
    indexBlock := ReadBlock(file, footer.value.1, verify).value;
    filter := None;
    if policy.Some? {
      filter := ReadMeta(file, verify, policy.value, footer.value.0, names, filterKey, t, x);
    }
  }

  /** A table without its filter is as good. */
  lemma WithoutFilter(hash: Hash, names: Names, filterKey: Bytes, file: Bytes, t: TableFile, x: Layout)
    requires TableOk(hash, names, t) && IsTableFile(names, filterKey, file, t, x)
    ensures TableOk(hash, names, t.(filter := None)) && IsImage(names, file, x.indexBlock, x.handles, t.(filter := None))
  {
  }

  /** Opening a table file and looking a key up in it answers the read of all entries of the table, with its filter or
      without, with checksums or without. */
  method Lookup(hash: Hash, names: Names, file: Bytes, verify: bool, policy: Option<Bytes>, user: UserKey, snapshot: nat,
                ghost filterKey: Bytes, ghost t: TableFile, ghost x: Layout)
    returns (r: Lookup)
    requires TableOk(hash, names, t) && IsTableFile(names, filterKey, file, t, x)
    requires KeyFits(names, SeekKey(user, snapshot))
    ensures Reads(TableEntries(t.blocks), user, snapshot, r)
  {
    hide Reads, TableEntries, IndexOk, FilterOk, HoldsPairs, BlockAt, DataBlockIn;
    var indexBlock, filter := Open(file, verify, policy, names, filterKey, t, x);
    WithoutFilter(hash, names, filterKey, file, t, x);
    hide TableOk, IsImage, IsTableFile;
    var key := SeekKey(user, snapshot);
    var found := InternalGet(hash, names, file, verify, indexBlock, filter, KeyBytes(names, key), x.handles, t.(filter := filter), key);
    r := SavedPair(found, names(user));
  }
}
