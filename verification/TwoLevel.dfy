/** TwoLevelIterator: a cursor over the concatenation of blocks, found through an index
    (table/two_level_iterator.cc). */
module TwoLevel {
  import opened Wrappers
  import opened Dbformat
  import opened Cursors

  // ---------- The concatenation ----------

  function Flat(blocks: seq<seq<Entry>>): seq<Entry> {
    if blocks == [] then [] else Flat(blocks[..|blocks| - 1]) + blocks[|blocks| - 1]
  }

  /** How many entries stand before a block. */
  function Before(blocks: seq<seq<Entry>>, b: nat): nat
    requires b <= |blocks|
  {
    |Flat(blocks[..b])|
  }

  lemma BeforeNext(blocks: seq<seq<Entry>>, b: nat)
    requires b < |blocks|
    ensures Flat(blocks[..b + 1]) == Flat(blocks[..b]) + blocks[b]
    ensures Before(blocks, b + 1) == Before(blocks, b) + |blocks[b]|
  {
    assert blocks[..b + 1][..b] == blocks[..b];
  }

  lemma {:induction false} FlatPrefix(blocks: seq<seq<Entry>>, b: nat)
    requires b <= |blocks|
    ensures Before(blocks, b) <= |Flat(blocks)| && Flat(blocks)[..Before(blocks, b)] == Flat(blocks[..b])
    decreases |blocks| - b
  {
    if b < |blocks| {
      BeforeNext(blocks, b);
      FlatPrefix(blocks, b + 1);
      assert Flat(blocks)[..Before(blocks, b)] == Flat(blocks)[..Before(blocks, b + 1)][..Before(blocks, b)];
    } else {
      assert blocks[..b] == blocks;
    }
  }

  /** Where an entry of a block stands in the concatenation. */
  lemma FlatAt(blocks: seq<seq<Entry>>, b: nat, i: nat)
    requires b < |blocks| && i < |blocks[b]|
    ensures Before(blocks, b) + i < |Flat(blocks)| && Flat(blocks)[Before(blocks, b) + i] == blocks[b][i]
  {
    BeforeNext(blocks, b);
    FlatPrefix(blocks, b + 1);
    assert Flat(blocks)[..Before(blocks, b + 1)][Before(blocks, b) + i] == blocks[b][i];
  }

  lemma Ends(blocks: seq<seq<Entry>>)
    ensures Before(blocks, 0) == 0 && Before(blocks, |blocks|) == |Flat(blocks)|
  {
    assert blocks[..|blocks|] == blocks && blocks[..0] == [];
  }

  lemma {:induction false} BlockOf(blocks: seq<seq<Entry>>, k: nat) returns (b: nat, i: nat)
    requires k < |Flat(blocks)|
    ensures b < |blocks| && i < |blocks[b]| && k == Before(blocks, b) + i && Flat(blocks)[k] == blocks[b][i]
  {
    var init := blocks[..|blocks| - 1];
    if k < |Flat(init)| {
      b, i := BlockOf(init, k);
      assert blocks[..b] == init[..b];
      FlatAt(blocks, b, i);
    } else {
      b, i := |blocks| - 1, k - |Flat(init)|;
    }
  }

  // ---------- The index ----------

  /** Index keys in order, each at or after its block's entries and before all later ones. */
  ghost predicate IndexFits(index: seq<InternalKey>, blocks: seq<seq<Entry>>) {
    && |index| == |blocks|
    && (forall i, j :: 0 <= i < j < |index| ==> index[i].Before(index[j]))
    && (forall i, e :: 0 <= i < |blocks| && e in blocks[i] ==> e.key.AtMost(index[i]))
    && (forall i, j, e :: 0 <= i < j < |blocks| && e in blocks[j] ==> index[i].Before(e.key))
  }

  lemma LowerBoundUnique(es: seq<Entry>, key: InternalKey, n: nat)
    requires Sorted(es) && n <= |es|
    requires forall j :: 0 <= j < n ==> es[j].key.Before(key)
    requires n < |es| ==> key.AtMost(es[n].key)
    ensures LowerBound(es, key) == n
  {
    var m := LowerBound(es, key);
    assert m < |es| ==> (es[m].key.Before(key) <==> m < n);
    assert n < |es| ==> (es[n].key.Before(key) <==> n < m);
  }

  /** Seeking the index and then the block is seeking the concatenation. */
  lemma SeekIsSeek(index: seq<InternalKey>, blocks: seq<seq<Entry>>, key: InternalKey, b: nat)
    requires IndexFits(index, blocks) && Sorted(Flat(blocks)) && b == SeekIndex(index, key)
    requires b < |blocks| ==> Sorted(blocks[b])
    ensures LowerBound(Flat(blocks), key)
      == if b == |blocks| then |Flat(blocks)| else Before(blocks, b) + LowerBound(blocks[b], key)
  {
    var flat := Flat(blocks);
    var n := if b == |blocks| then |flat| else Before(blocks, b) + LowerBound(blocks[b], key);
    Ends(blocks);
    if b < |blocks| {
      BeforeNext(blocks, b);
      FlatPrefix(blocks, b + 1);
    }
    forall k | 0 <= k < |flat|
      ensures k < n ==> flat[k].key.Before(key)
      ensures k >= n ==> key.AtMost(flat[k].key)
    {
      var c, i := BlockOf(blocks, k);
      PlacedRight(index, blocks, key, b, c, i);
    }
    LowerBoundUnique(flat, key, n);
  }

  lemma {:induction false} BeforeMonotone(blocks: seq<seq<Entry>>, b: nat, c: nat)
    requires b <= c <= |blocks|
    ensures Before(blocks, b) <= Before(blocks, c)
    decreases c
  {
    if b < c {
      BeforeMonotone(blocks, b, c - 1);
      BeforeNext(blocks, c - 1);
    }
  }

  /** An entry stands before the place found exactly if its key is before the key sought. */
  lemma PlacedRight(index: seq<InternalKey>, blocks: seq<seq<Entry>>, key: InternalKey, b: nat, c: nat, i: nat)
    requires IndexFits(index, blocks) && b == SeekIndex(index, key) && c < |blocks| && i < |blocks[c]|
    requires b < |blocks| ==> Sorted(blocks[b])
    ensures
      var n := if b == |blocks| then |Flat(blocks)| else Before(blocks, b) + LowerBound(blocks[b], key);
      if Before(blocks, c) + i < n then blocks[c][i].key.Before(key) else key.AtMost(blocks[c][i].key)
  {
    var e := blocks[c][i];
    assert e in blocks[c];
    FlatAt(blocks, c, i);
    if c < b {
      assert index[c].Before(key);
      BeforeNext(blocks, c);
      if b < |blocks| { BeforeMonotone(blocks, c + 1, b); }
    } else if c > b {
      assert index[b].Before(e.key);
      BeforeNext(blocks, b);
      BeforeMonotone(blocks, b + 1, c);
    }
  }

  // ---------- The iterator ----------

  class TwoLevelIterator {
    const index: seq<InternalKey>
    const blocks: seq<seq<Entry>>
    /** The index iterator's position; `|index|` if it is not valid. */
    var indexPos: nat
    /** The data iterator, if any, and the block it was made for. */
    var data: Option<Cursor>
    var dataBlock: nat
    /** The position in the concatenation; its length if the iterator is not valid. */
    ghost var at: nat

    ghost predicate Fits()
      reads this
    {
      && IndexFits(index, blocks) && Sorted(Flat(blocks)) && (forall b :: 0 <= b < |blocks| ==> Sorted(blocks[b]))
      && indexPos <= |index|
      && (data.Some? ==> dataBlock < |blocks| && data.value.entries == blocks[dataBlock] && data.value.Ok())
    }

    /** The data iterator belongs to the index iterator's block. */
    ghost predicate Synced()
      reads this
    {
      if indexPos < |index| then data.Some? && dataBlock == indexPos else data.None?
    }

    ghost predicate Valid()
      reads this
    {
      && Fits() && Synced() && at <= |Flat(blocks)|
      && (at < |Flat(blocks)| <==> data.Some? && data.value.Valid())
      && (data.Some? && data.value.Valid() ==> at == Before(blocks, dataBlock) + data.value.pos)
    }

    constructor (keys: seq<InternalKey>, lists: seq<seq<Entry>>)
      requires IndexFits(keys, lists) && Sorted(Flat(lists)) && forall b :: 0 <= b < |lists| ==> Sorted(lists[b])
      ensures Valid() && index == keys && blocks == lists && at == |Flat(blocks)|
    {
      index, blocks, indexPos, data, dataBlock, at := keys, lists, |keys|, None, 0, |Flat(lists)|;
    }

    /** Iterator::Valid: the cursor is on an entry exactly if it says so. */
    predicate OnEntry(): (on: bool)
      requires Valid()
      reads this
      ensures on <==> at < |Flat(blocks)|
    {
      data.Some? && data.value.Valid()
    }

    /** key() and value() are those of the entry of the concatenation at the position. */
    function Current(): (e: Entry)
      requires Valid() && OnEntry()
      reads this
      ensures e == Flat(blocks)[at]
    {
      FlatAt(blocks, dataBlock, data.value.pos);
      data.value.entries[data.value.pos]
    }

    /** A data iterator for the index iterator's block; kept if it is for that block already. */
    method InitDataBlock()
      requires Fits()
      modifies this`data, this`dataBlock
      ensures Fits() && Synced()
    {
      if indexPos >= |index| {
        data := None;
      } else {
        if data.Some? && dataBlock == indexPos {
        } else {
          data := Some(Cursor(blocks[indexPos], |blocks[indexPos]|));
          dataBlock := indexPos;
        }
      }
    }

    /** On to the next block that has an entry; `n` is the position of the entry sought. */
    method SkipEmptyDataBlocksForward(ghost n: nat)
      requires Fits() && Synced() && n <= |Flat(blocks)|
      requires n == if indexPos < |index| then Before(blocks, indexPos) + data.value.pos else |Flat(blocks)|
      modifies this
      ensures Valid() && at == n
    {
      while data.None? || !data.value.Valid()
        invariant Fits() && Synced()
        invariant n == if indexPos < |index| then Before(blocks, indexPos) + data.value.pos else |Flat(blocks)|
        decreases |index| - indexPos, data.Some?
      {
        if indexPos >= |index| {
          data := None;
          at := n;
          return;
        }
        BeforeNext(blocks, indexPos);
        Ends(blocks);
        indexPos := indexPos + 1;
        InitDataBlock();
        if data.Some? {
          data := Some(data.value.SeekToFirst());
        }
      }
      FlatAt(blocks, dataBlock, data.value.pos);
      at := n;
    }

    /** Back to the last entry before position `n`. */
    method SkipEmptyDataBlocksBackward(ghost n: nat)
      requires Fits() && Synced() && n <= |Flat(blocks)|
      requires indexPos < |index| ==>
                 if data.value.Valid() then n == Before(blocks, indexPos) + data.value.pos + 1 else n == Before(blocks, indexPos)
      requires indexPos == |index| ==> n == 0
      modifies this
      ensures Valid() && at == if n == 0 then |Flat(blocks)| else n - 1
    {
      Ends(blocks);
      while data.None? || !data.value.Valid()
        invariant Fits() && Synced()
        invariant indexPos < |index| ==>
                    if data.value.Valid() then n == Before(blocks, indexPos) + data.value.pos + 1 else n == Before(blocks, indexPos)
        invariant indexPos == |index| ==> n == 0
        decreases if indexPos < |index| then indexPos + 1 else 0
      {
        if indexPos >= |index| {
          data := None;
          at := |Flat(blocks)|;
          return;
        }
        if indexPos > 0 {
          BeforeNext(blocks, indexPos - 1);
        }
        indexPos := if indexPos == 0 then |index| else indexPos - 1;
        InitDataBlock();
        if data.Some? {
          data := Some(data.value.SeekToLast());
        }
      }
      FlatAt(blocks, dataBlock, data.value.pos);
      at := n - 1;
    }

    method Seek(target: InternalKey)
      requires Valid()
      modifies this
      ensures Valid() && at == LowerBound(Flat(blocks), target)
    {
      indexPos := SeekIndex(index, target);
      SeekIsSeek(index, blocks, target, indexPos);
      InitDataBlock();
      if data.Some? {
        data := Some(data.value.SeekTo(target));
      }
      SkipEmptyDataBlocksForward(LowerBound(Flat(blocks), target));
    }

    method SeekToFirst()
      requires Valid()
      modifies this
      ensures Valid() && at == 0
    {
      Ends(blocks);
      indexPos := 0;
      InitDataBlock();
      if data.Some? {
        data := Some(data.value.SeekToFirst());
      }
      SkipEmptyDataBlocksForward(0);
    }

    method SeekToLast()
      requires Valid()
      modifies this
      ensures Valid() && at == if |Flat(blocks)| == 0 then 0 else |Flat(blocks)| - 1
    {
      Ends(blocks);
      indexPos := if |index| == 0 then 0 else |index| - 1;
      InitDataBlock();
      if data.Some? {
        BeforeNext(blocks, indexPos);
        data := Some(data.value.SeekToLast());
      }
      SkipEmptyDataBlocksBackward(|Flat(blocks)|);
    }

    method Next()
      requires Valid() && at < |Flat(blocks)|
      modifies this
      ensures Valid() && at == old(at) + 1
    {
      data := Some(data.value.Next());
      SkipEmptyDataBlocksForward(at + 1);
    }

    /** One entry back; not valid any more from the first. */
    method Prev()
      requires Valid() && at < |Flat(blocks)|
      modifies this
      ensures Valid() && at == if old(at) == 0 then |Flat(blocks)| else old(at) - 1
    {
      data := Some(data.value.Prev());
      SkipEmptyDataBlocksBackward(at);
    }
  }
}
