/** Building a table: every entry added ends up in it, the index separates its blocks, its filter hides no
    key, and the bytes written are a file of it (table/table_builder.cc). */
module TableBuilder {
  import opened Wrappers
  import opened Dbformat
  import opened Bloom
  import opened FilterBlock
  import opened Table
  import opened TableFormat
  import BlockFormat = Block
  import BlockIter
  import Coding
  import InternalKeys
  import TableBytes

  /** InternalKeyComparator::FindShortestSeparator with any user comparator: the key stays, or its
      user key moves strictly between the two (module InternalKeys has the bytewise case). */
  method FindShortestSeparator(start: InternalKey, limit: InternalKey) returns (sep: InternalKey)
    ensures Separates(start, sep, Some(limit))
  {
    var shorter: UserKey := *;
    sep := start;
    if start.user < shorter < limit.user {
      sep := InternalKey(shorter, MAX_SEQUENCE, Value);
    }
  }

  method FindShortSuccessor(key: InternalKey) returns (r: InternalKey)
    ensures Separates(key, r, None)
  {
    var shorter: UserKey := *;
    r := key;
    if key.user < shorter {
      r := InternalKey(shorter, MAX_SEQUENCE, Value);
    }
  }

  // ---------- What the builder knows ----------

  function Entries(b: DataBlock): seq<Entry> { b.entries }

  /** Everything added so far: the entries of the written blocks and of the open one. */
  ghost function Added(written: seq<DataBlock>, open: seq<Entry>): seq<Entry> {
    FlatMap(Entries, written) + open
  }

  /** The open block as it will be written. */
  ghost function WithOpen(written: seq<DataBlock>, open: seq<Entry>, offset: nat): seq<DataBlock> {
    if open == [] then written else written + [DataBlock(offset, open)]
  }

  /** The filter index and name of every entry. */
  ghost function Names(naming: Naming, blocks: seq<DataBlock>): set<(nat, Bytes)> {
    set b, e | b in blocks && e in b.entries :: (b.offset / BASE, naming(e.key.user))
  }

  ghost predicate BuilderOk(written: seq<DataBlock>, open: seq<Entry>, offset: nat, index: seq<InternalKey>, pending: bool) {
    && IndexOk(WithOpen(written, open, offset), index)
    && (pending ==> open == [] && written != [])
    && |index| + (if pending then 1 else 0) == |written|
  }

  lemma {:induction false} AddedMembers(written: seq<DataBlock>, open: seq<Entry>, offset: nat)
    ensures forall e :: e in Added(written, open) <==> e in TableEntries(WithOpen(written, open, offset))
  {
    forall e
      ensures e in Added(written, open) <==> e in TableEntries(WithOpen(written, open, offset))
    {
      FlatMembers(written, e);
      var blocks := WithOpen(written, open, offset);
      if e in FlatMap(Entries, written) {
        var b :| b in written && e in b.entries;
        assert b in blocks;
      }
      if e in open {
        assert DataBlock(offset, open) in blocks;
      }
      if e in TableEntries(blocks) {
        var b :| b in blocks && e in b.entries;
        assert b in written || b == DataBlock(offset, open);
      }
    }
  }

  /** With no open block, what was added is what the written blocks hold. */
  lemma AddedElements(written: seq<DataBlock>, open: seq<Entry>, offset: nat)
    requires open == []
    ensures Elements(Added(written, open)) == TableEntries(written)
  {
    AddedMembers(written, open, offset);
    hide Added, TableEntries;
    assert WithOpen(written, open, offset) == written;
  }

  lemma {:induction false} FlatMembers(blocks: seq<DataBlock>, e: Entry)
    ensures e in FlatMap(Entries, blocks) <==> exists b :: b in blocks && e in b.entries
  {
    if blocks != [] {
      FlatMembers(blocks[1..], e);
      assert blocks == [blocks[0]] + blocks[1..];
    }
  }

  /** One more entry after all others keeps the blocks in order. */
  lemma AddKeepsBlocks(written: seq<DataBlock>, open: seq<Entry>, offset: nat, e: Entry)
    requires BlocksOk(WithOpen(written, open, offset))
    requires forall x :: x in TableEntries(WithOpen(written, open, offset)) ==> x.key.Precedes(e.key)
    ensures BlocksOk(WithOpen(written, open + [e], offset))
  {
    var before, after := WithOpen(written, open, offset), WithOpen(written, open + [e], offset);
    forall b, x | b in before && x in b.entries
      ensures x.key.Precedes(e.key)
    {
      assert x in TableEntries(before);
    }
    BlocksGrow(written, open, offset, e);
  }

  lemma SortedWithLast(open: seq<Entry>, e: Entry)
    requires Sorted(open) && forall x :: x in open ==> x.key.Precedes(e.key)
    ensures Sorted(open + [e])
  {
  }

  lemma AppendBlock(written: seq<DataBlock>, last: DataBlock)
    requires BlocksOk(written) && last.entries != [] && Sorted(last.entries)
    requires forall b, x, y :: b in written && x in b.entries && y in last.entries ==> x.key.Precedes(y.key)
    ensures BlocksOk(written + [last])
  {
  }

  lemma WrittenIsOk(written: seq<DataBlock>, open: seq<Entry>, offset: nat)
    requires BlocksOk(WithOpen(written, open, offset))
    ensures BlocksOk(written) && Sorted(open)
    ensures forall b, x, y :: b in written && x in b.entries && y in open ==> x.key.Precedes(y.key)
    ensures forall b :: b in written ==> b in WithOpen(written, open, offset)
    ensures open != [] ==> DataBlock(offset, open) in WithOpen(written, open, offset)
  {
    var before := WithOpen(written, open, offset);
    assert forall i :: 0 <= i < |written| ==> before[i] == written[i];
    assert open != [] ==> before[|written|] == DataBlock(offset, open);
  }

  lemma BlocksGrow(written: seq<DataBlock>, open: seq<Entry>, offset: nat, e: Entry)
    requires BlocksOk(WithOpen(written, open, offset))
    requires forall b, x :: b in WithOpen(written, open, offset) && x in b.entries ==> x.key.Precedes(e.key)
    ensures BlocksOk(WithOpen(written, open + [e], offset))
  {
    WrittenIsOk(written, open, offset);
    hide BlocksOk;
    if open != [] {
      assert DataBlock(offset, open) in WithOpen(written, open, offset);
    }
    SortedWithLast(open, e);
    AppendBlock(written, DataBlock(offset, open + [e]));
    assert WithOpen(written, open + [e], offset) == written + [DataBlock(offset, open + [e])];
  }

  /** The separators of earlier blocks are not affected, and that of the block just before the open
      one separates it from the block's first entry. */
  lemma AddKeepsIndex(written: seq<DataBlock>, open: seq<Entry>, offset: nat, index: seq<InternalKey>, e: Entry)
    requires BuilderOk(written, open, offset, index, false)
    requires BlocksOk(WithOpen(written, open + [e], offset))
    requires open == [] && written != [] ==> Separates(LastKey(written[|written| - 1]), index[|written| - 1], Some(e.key))
    ensures BuilderOk(written, open + [e], offset, index, false)
  {
    var before, after := WithOpen(written, open, offset), WithOpen(written, open + [e], offset);
    forall i | 0 <= i < |index|
      ensures Separates(LastKey(after[i]), index[i], NextKey(after, i))
    {
      assert Separates(LastKey(before[i]), index[i], NextKey(before, i));
      assert after[i] == before[i];
    }
  }

  // ---------- What is in the file ----------

  /** The block holds the pairs if it is shorter than four gigabytes and so are they. */
  ghost predicate Built(block: Bytes, es: seq<BlockFormat.Pair>) {
    |block| < Coding.TWO_32 && BlockIter.AllFit(es) ==> TableBytes.HoldsPairs(block, es)
  }

  ghost predicate BlockWritten(naming: Naming, file: Bytes, h: Handle, b: DataBlock) {
    h.offset == b.offset && exists data :: BlockAt(file, h, data) && Built(data, TableBytes.PairsOf(naming, b.entries))
  }

  /** Every written block is in the file where its handle says. */
  ghost predicate BlocksWritten(naming: Naming, file: Bytes, handles: seq<Handle>, written: seq<DataBlock>) {
    |handles| == |written| && forall i :: 0 <= i < |written| ==> BlockWritten(naming, file, handles[i], written[i])
  }

  lemma BlocksStay(naming: Naming, file: Bytes, more: Bytes, handles: seq<Handle>, written: seq<DataBlock>)
    requires BlocksWritten(naming, file, handles, written)
    ensures BlocksWritten(naming, file + more, handles, written)
  {
    hide Built, BlockAt;
    forall i | 0 <= i < |written|
      ensures BlockWritten(naming, file + more, handles[i], written[i])
    {
      assert BlockWritten(naming, file, handles[i], written[i]);
      var data :| BlockAt(file, handles[i], data) && Built(data, TableBytes.PairsOf(naming, written[i].entries));
      AppendKeepsBlock(file, more, handles[i], data);
    }
  }

  lemma OneMoreBlock(naming: Naming, file: Bytes, handles: seq<Handle>, written: seq<DataBlock>, data: Bytes, b: DataBlock)
    requires BlocksWritten(naming, file, handles, written) && b.offset == |file| && Built(data, TableBytes.PairsOf(naming, b.entries))
    ensures BlocksWritten(naming, file + RawBlock(data), handles + [Handle(|file|, |data|)], written + [b])
  {
    hide BlockWritten;
    BlocksStay(naming, file, RawBlock(data), handles, written);
    AppendedIsThere(file, data);
    assert BlockWritten(naming, file + RawBlock(data), Handle(|file|, |data|), b) by {
      NewBlock(naming, file + RawBlock(data), Handle(|file|, |data|), data, b);
    }
  }

  lemma NewBlock(naming: Naming, file: Bytes, h: Handle, data: Bytes, b: DataBlock)
    requires BlockAt(file, h, data) && h.offset == b.offset && Built(data, TableBytes.PairsOf(naming, b.entries))
    ensures BlockWritten(naming, file, h, b)
  {
  }

  /** Everything fits where the format has a field of fixed width, and the strings that stand for user keys do. */
  ghost predicate Encodable(naming: Naming, filterKey: Bytes, file: Bytes, t: TableFile, x: TableBytes.Layout) {
    && |file| < Coding.TWO_64 && |x.handles| == |t.index| == |t.blocks|
    && (forall i :: 0 <= i < |x.handles| ==> x.handles[i].size < Coding.TWO_32)
    && x.index.size < Coding.TWO_32 && x.meta.size < Coding.TWO_32
    && (forall b :: b in t.blocks ==> BlockIter.AllFit(TableBytes.PairsOf(naming, b.entries)))
    && BlockIter.AllFit(TableBytes.IndexPairs(naming, t.index, x.handles)) && BlockIter.AllFit(TableBytes.MetaPairs(filterKey, x.filter))
    && (forall b, e :: b in t.blocks && e in b.entries ==> InternalKeys.KeyFits(naming, e.key))
    && (forall i :: 0 <= i < |t.index| ==> InternalKeys.KeyFits(naming, t.index[i]))
  }

  /** What the builder has written when it ends: the blocks, and a footer with the handles of the last two. */
  ghost predicate Ended(naming: Naming, filterKey: Bytes, file: Bytes, t: TableFile, x: TableBytes.Layout) {
    exists before :: EndedAfter(naming, filterKey, before, file, t, x)
  }

  ghost predicate EndedAfter(naming: Naming, filterKey: Bytes, before: Bytes, file: Bytes, t: TableFile, x: TableBytes.Layout) {
    && file == before + EncodeFooter(x.meta, x.index)
    && BlocksWritten(naming, before, x.handles, t.blocks) && |t.index| == |t.blocks|
    && BlockAt(before, x.index, x.indexBlock) && Built(x.indexBlock, TableBytes.IndexPairs(naming, t.index, x.handles))
    && BlockAt(before, x.meta, x.metaBlock) && Built(x.metaBlock, TableBytes.MetaPairs(filterKey, x.filter))
    && (x.filter.Some? <==> t.filter.Some?) && (t.filter.Some? ==> BlockAt(before, x.filter.value, t.filter.value))
  }

  /** That is a file of the table. */
  lemma EndedIsTableFile(naming: Naming, filterKey: Bytes, file: Bytes, t: TableFile, x: TableBytes.Layout)
    requires Ended(naming, filterKey, file, t, x)
    ensures Encodable(naming, filterKey, file, t, x) ==> TableBytes.IsTableFile(naming, filterKey, file, t, x)
  {
    if Encodable(naming, filterKey, file, t, x) {
      var before :| EndedAfter(naming, filterKey, before, file, t, x);
      EndedAfterIsTableFile(naming, filterKey, before, file, t, x);
    }
  }

  lemma EndedAfterIsTableFile(naming: Naming, filterKey: Bytes, before: Bytes, file: Bytes, t: TableFile, x: TableBytes.Layout)
    requires EndedAfter(naming, filterKey, before, file, t, x) && Encodable(naming, filterKey, file, t, x)
    ensures TableBytes.IsTableFile(naming, filterKey, file, t, x)
  {
    hide BlockAt, TableBytes.HoldsPairs, EncodeFooter, EncodeHandle, BlockIter.AllFit, TableBytes.PairsOf, TableBytes.IndexPairs,
      BlocksWritten, TableBytes.DataBlockIn;
    var footer := EncodeFooter(x.meta, x.index);
    PlaceFits(before, x.index, x.indexBlock);
    PlaceFits(before, x.meta, x.metaBlock);
    AppendKeepsBlock(before, footer, x.index, x.indexBlock);
    AppendKeepsBlock(before, footer, x.meta, x.metaBlock);
    if t.filter.Some? {
      PlaceFits(before, x.filter.value, t.filter.value);
      AppendKeepsBlock(before, footer, x.filter.value, t.filter.value);
    }
    HandleRoundTrip(x.meta, []);
    HandleRoundTrip(x.index, []);
    BlocksStay(naming, before, footer, x.handles, t.blocks);
    assert file[|file| - FOOTER..] == footer;
    WrittenAreIn(naming, filterKey, file, t, x);
  }

  lemma WrittenAreIn(naming: Naming, filterKey: Bytes, file: Bytes, t: TableFile, x: TableBytes.Layout)
    requires BlocksWritten(naming, file, x.handles, t.blocks) && Encodable(naming, filterKey, file, t, x)
    ensures forall i :: 0 <= i < |t.blocks| ==> TableBytes.DataBlockIn(naming, file, x.handles[i], t.blocks[i])
  {
    hide BlockAt, BlockIter.AllFit, TableBytes.PairsOf, TableBytes.IndexPairs, TableBytes.DataBlockIn, Built;
    forall i | 0 <= i < |t.blocks|
      ensures TableBytes.DataBlockIn(naming, file, x.handles[i], t.blocks[i])
    {
      assert BlockWritten(naming, file, x.handles[i], t.blocks[i]);
      WrittenIsIn(naming, file, x.handles[i], t.blocks[i]);
    }
  }

  lemma PlaceFits(file: Bytes, h: Handle, contents: Bytes)
    requires BlockAt(file, h, contents)
    ensures h.offset + h.size + TRAILER <= |file| && |contents| == h.size
  {
  }

  lemma WrittenIsIn(naming: Naming, file: Bytes, h: Handle, b: DataBlock)
    requires BlockWritten(naming, file, h, b) && |file| < Coding.TWO_64 && h.size < Coding.TWO_32
    requires BlockIter.AllFit(TableBytes.PairsOf(naming, b.entries)) && forall e :: e in b.entries ==> InternalKeys.KeyFits(naming, e.key)
    ensures TableBytes.DataBlockIn(naming, file, h, b)
  {
    hide TableBytes.HoldsPairs, BlockIter.AllFit, TableBytes.PairsOf;
    var data :| BlockAt(file, h, data) && Built(data, TableBytes.PairsOf(naming, b.entries));
    PlaceFits(file, h, data);
  }

  class TableBuilder {
    var offset: nat
    var written: seq<DataBlock>
    var dataBlock: seq<Entry>
    var index: seq<InternalKey>
    var lastKey: InternalKey
    var numEntries: nat
    var pendingIndexEntry: bool
    const filterBlock: FilterBlockBuilder?
    /** What has been written, where its blocks are, and how often a block has a restart point. */
    var file: Bytes
    var handles: seq<Handle>
    const interval: nat

    ghost predicate DataOk()
      reads this
    {
      && BuilderOk(written, dataBlock, offset, index, pendingIndexEntry)
      && numEntries == |Added(written, dataBlock)|
      && (numEntries > 0 ==> lastKey == Added(written, dataBlock)[numEntries - 1].key)
    }

    ghost predicate FileOk(naming: Naming)
      reads this`file, this`handles, this`written, this`offset
    {
      offset == |file| && BlocksWritten(naming, file, handles, written) && interval >= 1
    }

    ghost predicate Valid(hash: Hash, naming: Naming)
      reads this, filterBlock
    {
      DataOk() && FileOk(naming) && (filterBlock != null ==> FilterCovers(filterBlock, hash, naming, WithOpen(written, dataBlock, offset), offset))
    }

    constructor (hash: Hash, ghost naming: Naming, bitsPerKey: Option<nat>, interval: nat)
      requires interval >= 1
      ensures Valid(hash, naming) && Added(written, dataBlock) == []
      ensures filterBlock != null ==> fresh(filterBlock)
      ensures filterBlock == null <==> bitsPerKey.None?
    {
      offset, written, dataBlock, index, numEntries, pendingIndexEntry := 0, [], [], [], 0, false;
      lastKey := InternalKey(0.0, 0, Value);
      this.interval, file, handles := interval, [], [];
      var filter: FilterBlockBuilder? := null;
      if bitsPerKey.Some? {
        filter := new FilterBlockBuilder(bitsPerKey.value);
        filter.StartBlock(hash, 0);
      }
      filterBlock := filter;
    }

    /** The index entry of the last written block, once the next key is known. */
    method AddIndexEntry(e: Entry)
      requires DataOk() && pendingIndexEntry
      modifies this`index, this`pendingIndexEntry
      ensures DataOk() && !pendingIndexEntry && Separates(LastKey(written[|written| - 1]), index[|written| - 1], Some(e.key))
    {
      hide BuilderOk, FlatMap;
      PendingFacts(written, dataBlock, offset, index);
      var sep := FindShortestSeparator(lastKey, e.key);
      LastAdded(written, dataBlock);
      PendingSeparates(written, offset, index, sep, Some(e.key));
      index := index + [sep];
      pendingIndexEntry := false;
    }

    method AppendEntry(e: Entry)
      requires DataOk() && !pendingIndexEntry
      requires forall x :: x in TableEntries(WithOpen(written, dataBlock, offset)) ==> x.key.Precedes(e.key)
      requires dataBlock == [] && written != [] ==> Separates(LastKey(written[|written| - 1]), index[|written| - 1], Some(e.key))
      modifies this`lastKey, this`numEntries, this`dataBlock
      ensures DataOk() && dataBlock == old(dataBlock) + [e]
    {
      AddKeepsBlocks(written, dataBlock, offset, e);
      AddKeepsIndex(written, dataBlock, offset, index, e);
      AddedOne(written, dataBlock, e);
      lastKey := e.key;
      numEntries := numEntries + 1;
      dataBlock := dataBlock + [e];
    }

    /** The entry goes into the open block; `full` says that the block has reached its size. */
    method Add(hash: Hash, naming: Naming, e: Entry, full: bool)
      requires Valid(hash, naming)
      requires forall x :: x in Added(written, dataBlock) ==> x.key.Precedes(e.key)
      requires dataBlock == [] && written != [] ==> pendingIndexEntry
      modifies this, filterBlock
      ensures Valid(hash, naming) && Added(written, dataBlock) == old(Added(written, dataBlock)) + [e]
      ensures dataBlock == [] && written != [] ==> pendingIndexEntry
    {
      AddedMembers(written, dataBlock, offset);
      AddedOne(written, dataBlock, e);
      AddToOpenBlock(hash, naming, e);
      if full {
        Flush(hash, naming);
      }
    }

    method AddToOpenBlock(hash: Hash, naming: Naming, e: Entry)
      requires Valid(hash, naming)
      requires forall x :: x in TableEntries(WithOpen(written, dataBlock, offset)) ==> x.key.Precedes(e.key)
      requires dataBlock == [] && written != [] ==> pendingIndexEntry
      modifies this, filterBlock
      ensures Valid(hash, naming)
      ensures written == old(written) && dataBlock == old(dataBlock) + [e]
    {
      hide FilterCovers, WithOpen, BuilderOk, BlocksWritten, TableEntries;
      if filterBlock != null {
        AddToFilter(filterBlock, hash, naming, written, dataBlock, offset, e);
      }
      AddData(e);
    }

    /** The pending index entry, now that the next key is known, and then the entry itself. */
    method AddData(e: Entry)
      requires DataOk() && (dataBlock == [] && written != [] ==> pendingIndexEntry)
      requires forall x :: x in TableEntries(WithOpen(written, dataBlock, offset)) ==> x.key.Precedes(e.key)
      modifies this`index, this`pendingIndexEntry, this`lastKey, this`numEntries, this`dataBlock
      ensures DataOk() && dataBlock == old(dataBlock) + [e] && !pendingIndexEntry
    {
      if pendingIndexEntry {
        AddIndexEntry(e);
      }
      AppendEntry(e);
    }

    /** WriteRawBlock. */
    method WriteRaw(contents: Bytes) returns (h: Handle)
      requires offset == |file|
      modifies this`file, this`offset
      ensures file == old(file) + RawBlock(contents) && offset == |file| > old(offset)
      ensures h == Handle(old(offset), |contents|) && BlockAt(file, h, contents)
    {
      h := Handle(offset, |contents|);
      AppendedIsThere(file, contents);
      file := file + RawBlock(contents);
      offset := offset + |contents| + TRAILER;
    }

    /** WriteBlock on the open block. */
    method WriteData(naming: Naming)
      requires DataOk() && FileOk(naming) && dataBlock != []
      modifies this`written, this`dataBlock, this`offset, this`pendingIndexEntry, this`file, this`handles
      ensures DataOk() && FileOk(naming) && dataBlock == [] && pendingIndexEntry && offset > old(offset)
      ensures written == old(written + [DataBlock(offset, dataBlock)])
      ensures Added(written, dataBlock) == old(Added(written, dataBlock))
    {
      FlatMapOne(Entries, written, DataBlock(offset, dataBlock));
      ghost var before := Added(written, dataBlock);
      hide BlocksWritten, BlockAt, RawBlock, TableBytes.HoldsPairs, TableBytes.PairsOf, FlatMap, IndexOk, BlockIter.AllFit;
      var block := TableBytes.BuildBlock(TableBytes.PairsOf(naming, dataBlock), interval);
      OneMoreBlock(naming, file, handles, written, block, DataBlock(offset, dataBlock));
      written := written + [DataBlock(offset, dataBlock)];
      dataBlock := [];
      var handle := WriteRaw(block);
      handles := handles + [handle];
      pendingIndexEntry := true;
      assert Added(written, dataBlock) == before;
    }

    /** The open block is written; its index entry waits for the next key. */
    method Flush(hash: Hash, naming: Naming)
      requires Valid(hash, naming)
      requires dataBlock == [] && written != [] ==> pendingIndexEntry
      modifies this, filterBlock
      ensures Valid(hash, naming) && dataBlock == [] && Added(written, dataBlock) == old(Added(written, dataBlock))
      ensures written != [] ==> pendingIndexEntry
    {
      if dataBlock == [] {
        return;
      }
      WriteData(naming);
      if filterBlock != null {
        filterBlock.StartBlock(hash, offset);
      }
    }

    /** The last index entry. */
    method EndIndex()
      requires DataOk() && dataBlock == [] && (written != [] ==> pendingIndexEntry)
      modifies this`index, this`pendingIndexEntry
      ensures IndexOk(written, index) && |index| == |written|
    {
      hide BuilderOk, FlatMap, IndexOk;
      if pendingIndexEntry {
        PendingFacts(written, dataBlock, offset, index);
        var last := FindShortSuccessor(lastKey);
        LastAdded(written, dataBlock);
        PendingSeparates(written, offset, index, last, None);
        index := index + [last];
        pendingIndexEntry := false;
      }
      EndFacts(written, offset, index);
    }

    /** The finished table holds exactly the entries added, lookups in it are reads of them, and the file is one
        of that table, whose footer leads to its blocks. */
    method Finish(hash: Hash, naming: Naming, filterKey: Bytes) returns (t: TableFile, ghost x: TableBytes.Layout)
      requires Valid(hash, naming)
      requires dataBlock == [] && written != [] ==> pendingIndexEntry
      modifies this, filterBlock
      ensures t.filter.Some? <==> filterBlock != null
      ensures (t.filter.Some? ==> |t.filter.value| < FILTER_LIMIT) ==> TableOk(hash, naming, t)
      ensures TableEntries(t.blocks) == Elements(old(Added(written, dataBlock)))
      ensures Encodable(naming, filterKey, file, t, x) ==> TableBytes.IsTableFile(naming, filterKey, file, t, x)
    {
      hide FilterCovers, BlocksWritten, BuilderOk, Added, WithOpen, TableEntries, TableOk, Encodable, TableBytes.IsTableFile;
      Flush(hash, naming);
      AddedElements(written, dataBlock, offset);
      t, x := WriteRest(hash, naming, filterKey);
    }

    /** What follows the data blocks. */
    method WriteRest(hash: Hash, naming: Naming, filterKey: Bytes) returns (t: TableFile, ghost x: TableBytes.Layout)
      requires Valid(hash, naming) && dataBlock == [] && (written != [] ==> pendingIndexEntry)
      modifies this`index, this`pendingIndexEntry, this`file, this`offset, filterBlock
      ensures t.filter.Some? <==> filterBlock != null
      ensures (t.filter.Some? ==> |t.filter.value| < FILTER_LIMIT) ==> TableOk(hash, naming, t)
      ensures t.blocks == written
      ensures Encodable(naming, filterKey, file, t, x) ==> TableBytes.IsTableFile(naming, filterKey, file, t, x)
    {
      hide FilterCovers, BlocksWritten, BlockAt, BuilderOk, FilterOk, IndexOk, Added, WithOpen, Ended, Encodable, TableBytes.IsTableFile;
      var filter, handle := WriteFilter(hash, naming);
      EndIndex();
      t := TableFile(written, index, filter);
      x := WriteMeta(naming, filterKey, t, handle);
      EndedIsTableFile(naming, filterKey, file, t, x);
    }

    /** The filter block, after the last data block. */
    method WriteFilter(hash: Hash, naming: Naming) returns (filter: Option<Bytes>, handle: Option<Handle>)
      requires Valid(hash, naming) && dataBlock == []
      modifies this`file, this`offset, filterBlock
      ensures DataOk() && FileOk(naming) && (filter.Some? <==> filterBlock != null) && (handle.Some? <==> filter.Some?)
      ensures (filter.Some? ==> |filter.value| < FILTER_LIMIT) ==> FilterOk(hash, naming, written, filter)
      ensures filter.Some? ==> BlockAt(file, handle.value, filter.value)
    {
      hide BuilderOk, MayMatch, FilterCovers, BlocksWritten, BlockAt, RawBlock, Added;
      filter, handle := None, None;
      ghost var before := offset;
      if filterBlock != null {
        var contents := FinishFilter(filterBlock, hash, naming, written, offset);
        BlocksStay(naming, file, RawBlock(contents), handles, written);
        var h := WriteRaw(contents);
        filter, handle := Some(contents), Some(h);
        WithoutOpenBlock(written, before, offset, index, pendingIndexEntry);
      }
    }

    /** The metaindex block, the index block and the footer. */
    method WriteMeta(naming: Naming, filterKey: Bytes, t: TableFile, filter: Option<Handle>) returns (ghost x: TableBytes.Layout)
      requires FileOk(naming) && t.blocks == written && |t.index| == |t.blocks|
      requires (filter.Some? <==> t.filter.Some?) && (t.filter.Some? ==> BlockAt(file, filter.value, t.filter.value))
      modifies this`file, this`offset
      ensures Ended(naming, filterKey, file, t, x)
    {
      HandlesMatch(naming, file, handles, written);
      hide Built, BlockAt, BlocksWritten, RawBlock, TableBytes.MetaPairs, TableBytes.IndexPairs, TableBytes.HoldsPairs, EncodeFooter,
        BlockIter.AllFit;
      ghost var start := file;
      var metaBlock := TableBytes.BuildBlock(TableBytes.MetaPairs(filterKey, filter), interval);
      var meta := WriteRaw(metaBlock);
      ghost var middle := file;
      var indexBlock := TableBytes.BuildBlock(TableBytes.IndexPairs(naming, t.index, handles), 1);
      var index := WriteRaw(indexBlock);
      x := TableBytes.Layout(handles, index, indexBlock, meta, metaBlock, filter);
      ghost var before := file;
      BlocksStay(naming, start, RawBlock(metaBlock), handles, written);
      BlocksStay(naming, middle, RawBlock(indexBlock), handles, written);
      AppendKeepsBlock(middle, RawBlock(indexBlock), meta, metaBlock);
      if filter.Some? {
        AppendKeepsBlock(start, RawBlock(metaBlock), filter.value, t.filter.value);
        AppendKeepsBlock(middle, RawBlock(indexBlock), filter.value, t.filter.value);
      }
      file := file + EncodeFooter(meta, index);
      offset := |file|;
      EndedBy(naming, filterKey, before, file, t, x);
    }
  }

  lemma HandlesMatch(naming: Naming, file: Bytes, handles: seq<Handle>, written: seq<DataBlock>)
    requires BlocksWritten(naming, file, handles, written)
    ensures |handles| == |written|
  {
  }

  lemma EndedBy(naming: Naming, filterKey: Bytes, before: Bytes, file: Bytes, t: TableFile, x: TableBytes.Layout)
    requires file == before + EncodeFooter(x.meta, x.index)
    requires BlocksWritten(naming, before, x.handles, t.blocks) && |t.index| == |t.blocks|
    requires BlockAt(before, x.index, x.indexBlock) && BlockAt(before, x.meta, x.metaBlock)
    requires |x.handles| == |t.blocks| && Built(x.indexBlock, TableBytes.IndexPairs(naming, t.index, x.handles))
    requires Built(x.metaBlock, TableBytes.MetaPairs(filterKey, x.filter))
    requires (x.filter.Some? <==> t.filter.Some?) && (t.filter.Some? ==> BlockAt(before, x.filter.value, t.filter.value))
    ensures Ended(naming, filterKey, file, t, x)
  {
    assert EndedAfter(naming, filterKey, before, file, t, x);
  }

  /** Every entry is filed, or will be, under the filter of its block's offset. */
  ghost predicate FilterCovers(f: FilterBlockBuilder, hash: Hash, naming: Naming, blocks: seq<DataBlock>, offset: nat)
    reads f
  {
    f.Valid(hash) && |f.filterOffsets| == offset / BASE && Names(naming, blocks) <= Covered(f)
  }

  ghost function Covered(f: FilterBlockBuilder): set<(nat, Bytes)>
    reads f
  {
    f.filed + set k | k in f.pending :: (|f.filterOffsets|, k)
  }

  method AddToFilter(f: FilterBlockBuilder, hash: Hash, naming: Naming, ghost written: seq<DataBlock>, ghost open: seq<Entry>,
                     ghost offset: nat, e: Entry)
    requires FilterCovers(f, hash, naming, WithOpen(written, open, offset), offset)
    modifies f
    ensures FilterCovers(f, hash, naming, WithOpen(written, open + [e], offset), offset)
  {
    NamesGrow(naming, written, open, offset, e);
    f.AddKey(hash, naming(e.key.user));
    assert naming(e.key.user) in f.pending;
  }

  method FinishFilter(f: FilterBlockBuilder, hash: Hash, ghost naming: Naming, ghost blocks: seq<DataBlock>, ghost offset: nat)
    returns (contents: Bytes)
    requires FilterCovers(f, hash, naming, blocks, offset)
    modifies f
    ensures |contents| < FILTER_LIMIT ==> FilterOk(hash, naming, blocks, Some(contents))
  {
    contents := f.Finish(hash);
    FilterHoldsNames(hash, naming, blocks, contents, f.result, f.filterOffsets, f.filed);
  }

  const FILTER_LIMIT: nat := 0x1_0000_0000

  /** With the open block empty, the last entry added ends the last written block. */
  lemma LastAdded(written: seq<DataBlock>, open: seq<Entry>)
    requires open == [] && written != [] && forall b :: b in written ==> b.entries != []
    ensures Added(written, open) != []
    ensures Added(written, open)[|Added(written, open)| - 1].key == LastKey(written[|written| - 1])
  {
    var init, last := written[..|written| - 1], written[|written| - 1];
    assert written == init + [last];
    FlatMapOne(Entries, init, last);
  }

  lemma PendingSeparates(written: seq<DataBlock>, offset: nat, index: seq<InternalKey>, sep: InternalKey, next: Option<InternalKey>)
    requires BuilderOk(written, [], offset, index, true)
    requires Separates(LastKey(written[|written| - 1]), sep, next)
    ensures BuilderOk(written, [], offset, index + [sep], false)
  {
    assert WithOpen(written, [], offset) == written;
    var longer := index + [sep];
    forall i {:trigger longer[i]} | 0 <= i < |longer|
      ensures Separates(LastKey(written[i]), longer[i], NextKey(written, i))
    {
      assert i < |index| ==> longer[i] == index[i];
    }
  }

  /** Without an open block it does not matter where the next one will be. */
  lemma WithoutOpenBlock(written: seq<DataBlock>, offset: nat, offset': nat, index: seq<InternalKey>, pending: bool)
    requires BuilderOk(written, [], offset, index, pending)
    ensures BuilderOk(written, [], offset', index, pending)
  {
    hide IndexOk;
  }

  lemma PendingFacts(written: seq<DataBlock>, open: seq<Entry>, offset: nat, index: seq<InternalKey>)
    requires BuilderOk(written, open, offset, index, true)
    ensures open == [] && written != [] && |index| + 1 == |written| && forall b :: b in written ==> b.entries != []
  {
  }

  lemma EndFacts(written: seq<DataBlock>, offset: nat, index: seq<InternalKey>)
    requires BuilderOk(written, [], offset, index, false)
    ensures IndexOk(written, index) && |index| == |written|
  {
  }

  lemma AddedOne(written: seq<DataBlock>, open: seq<Entry>, e: Entry)
    ensures Added(written, open + [e]) == Added(written, open) + [e]
  {
  }

  lemma NamesGrow(naming: Naming, written: seq<DataBlock>, open: seq<Entry>, offset: nat, e: Entry)
    ensures Names(naming, WithOpen(written, open + [e], offset))
         <= Names(naming, WithOpen(written, open, offset)) + {(offset / BASE, naming(e.key.user))}
  {
    forall p | p in Names(naming, WithOpen(written, open + [e], offset))
      ensures p in Names(naming, WithOpen(written, open, offset)) + {(offset / BASE, naming(e.key.user))}
    {
      var b, x :| b in WithOpen(written, open + [e], offset) && x in b.entries && p == (b.offset / BASE, naming(x.key.user));
      if b in written {
        assert b in WithOpen(written, open, offset);
      } else {
        assert b == DataBlock(offset, open + [e]);
        assert x in open ==> DataBlock(offset, open) in WithOpen(written, open, offset);
      }
    }
  }

  lemma FilterHoldsNames(hash: Hash, naming: Naming, blocks: seq<DataBlock>, contents: Bytes, filters: Bytes, offsets: seq<nat>,
                         filed: set<(nat, Bytes)>)
    requires contents == Block(filters, offsets) && Filed(hash, filters, offsets, filed)
    requires Names(naming, blocks) <= filed
    ensures |contents| < FILTER_LIMIT ==> FilterOk(hash, naming, blocks, Some(contents))
  {
    if |contents| < FILTER_LIMIT {
      forall i, e | 0 <= i < |blocks| && e in blocks[i].entries
        ensures MayMatch(hash, contents, blocks[i].offset, naming(e.key.user))
      {
        assert blocks[i] in blocks;
        assert (blocks[i].offset / BASE, naming(e.key.user)) in Names(naming, blocks);
        FiledMayMatch(hash, filters, offsets, filed, blocks[i].offset / BASE, naming(e.key.user), blocks[i].offset);
      }
    }
  }
}
