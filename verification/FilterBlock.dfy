/** Filter blocks: one filter for every two kilobytes of data blocks (table/filter_block.cc). */
module FilterBlock {
  import opened Wrappers
  import opened Bloom
  import Coding

  const BASE_LG: byte := 11
  const BASE: nat := 2048

  // ---------- FilterBlockReader ----------

  /** The four-byte number at an offset. */
  function Word(contents: Bytes, at: nat): nat
    requires at + 4 <= |contents|
  {
    Coding.DecodeFixed(contents[at..at + 4])
  }

  /** FilterBlockReader::KeyMayMatch on the contents of a filter block: anything unreadable is a
      possible match. */
  predicate MayMatch(hash: Hash, contents: Bytes, blockOffset: nat, key: Bytes) {
    var n := |contents|;
    if n < 5 || Word(contents, n - 5) > n - 5 then true
    else
      MatchAt(hash, contents, Word(contents, n - 5), FilterIndex(blockOffset, contents[n - 1]), key)
  }

  function ShiftRight(v: nat, n: nat): nat {
    if n == 0 then v else ShiftRight(v / 2, n - 1)
  }

  function FilterIndex(blockOffset: nat, baseLg: nat): nat {
    ShiftRight(blockOffset, baseLg)
  }

  /** Asks the filter with the given index; the offsets of the filters start at `array_`. */
  predicate MatchAt(hash: Hash, contents: Bytes, array_: nat, index: nat, key: Bytes)
    requires array_ + 5 <= |contents|
  {
    if index >= (|contents| - 5 - array_) / 4 then true
    else
      var start, limit := Word(contents, array_ + index * 4), Word(contents, array_ + index * 4 + 4);
      if start <= limit <= array_ then KeyMayMatch(hash, key, contents[start..limit]) else start != limit
  }

  // ---------- FilterBlockBuilder ----------

  /** Where the i-th piece of a flattened list ends. */
  function EndOf(starts: seq<nat>, total: nat, i: nat): nat
    requires i < |starts|
  {
    if i + 1 < |starts| then starts[i + 1] else total
  }

  ghost predicate IsPiece(data: Bytes, starts: seq<nat>, i: nat, piece: Bytes)
    requires i < |starts|
  {
    starts[i] <= EndOf(starts, |data|, i) <= |data| && data[starts[i]..EndOf(starts, |data|, i)] == piece
  }

  /** `keys`, cut at `starts`, are the keys of `list`. */
  ghost predicate Flattens(keys: Bytes, starts: seq<nat>, list: seq<Bytes>) {
    |starts| == |list| && forall i :: 0 <= i < |starts| ==> IsPiece(keys, starts, i, list[i])
  }

  /** Every key filed under a filter matches that filter. */
  ghost predicate Filed(hash: Hash, result: Bytes, offsets: seq<nat>, filed: set<(nat, Bytes)>) {
    && (forall i :: 0 <= i < |offsets| ==> offsets[i] <= EndOf(offsets, |result|, i) <= |result|)
    && (forall p :: p in filed ==>
          p.0 < |offsets| && KeyMayMatch(hash, p.1, result[offsets[p.0]..EndOf(offsets, |result|, p.0)]))
  }

  lemma AddPiece(keys: Bytes, starts: seq<nat>, list: seq<Bytes>, key: Bytes)
    requires Flattens(keys, starts, list)
    ensures Flattens(keys + key, starts + [|keys|], list + [key])
  {
    forall i | 0 <= i < |starts| + 1
      ensures IsPiece(keys + key, starts + [|keys|], i, (list + [key])[i])
    {
      if i < |starts| {
        assert IsPiece(keys, starts, i, list[i]);
        assert EndOf(starts + [|keys|], |keys + key|, i) == EndOf(starts, |keys|, i);
        assert (keys + key)[starts[i]..EndOf(starts, |keys|, i)] == keys[starts[i]..EndOf(starts, |keys|, i)];
      } else {
        assert (keys + key)[|keys|..] == key;
      }
    }
  }

  /** The keys, cut out of the flattened list. */
  method CutKeys(keys: Bytes, starts: seq<nat>, ghost list: seq<Bytes>) returns (tmp: seq<Bytes>)
    requires Flattens(keys, starts, list)
    ensures tmp == list
  {
    tmp := [];
    var ends := starts + [|keys|];
    for i := 0 to |starts|
      invariant tmp == list[..i]
    {
      assert IsPiece(keys, starts, i, list[i]);
      assert ends[i + 1] == EndOf(starts, |keys|, i);
      tmp := tmp + [keys[ends[i]..ends[i + 1]]];
    }
  }

  /** One more filter at the end keeps the others where they are. */
  lemma FileMore(hash: Hash, result: Bytes, offsets: seq<nat>, filed: set<(nat, Bytes)>, filter: Bytes, list: seq<Bytes>)
    requires Filed(hash, result, offsets, filed)
    requires forall key :: key in list ==> KeyMayMatch(hash, key, filter)
    ensures Filed(hash, result + filter, offsets + [|result|], filed + set k | k in list :: (|offsets|, k))
  {
    var after, starts := result + filter, offsets + [|result|];
    forall i | 0 <= i < |starts|
      ensures starts[i] <= EndOf(starts, |after|, i) <= |after|
      ensures i < |offsets| ==> after[starts[i]..EndOf(starts, |after|, i)] == result[offsets[i]..EndOf(offsets, |result|, i)]
      ensures i == |offsets| ==> after[starts[i]..EndOf(starts, |after|, i)] == filter
    {
      assert i < |offsets| ==> EndOf(starts, |after|, i) == EndOf(offsets, |result|, i);
    }
  }

  lemma FileFilter(hash: Hash, bitsPerKey: nat, before: Bytes, after: Bytes, offsets: seq<nat>, filed: set<(nat, Bytes)>, list: seq<Bytes>)
    requires Filed(hash, before, offsets, filed) && before <= after && IsFilter(hash, bitsPerKey, list, after[|before|..])
    ensures Filed(hash, after, offsets + [|before|], filed + set k | k in list :: (|offsets|, k))
  {
    forall key | key in list
      ensures KeyMayMatch(hash, key, after[|before|..])
    {
      FilterMatchesKeys(hash, bitsPerKey, list, after[|before|..], key);
    }
    FileMore(hash, before, offsets, filed, after[|before|..], list);
    assert before + after[|before|..] == after;
  }

  lemma FileNothing(hash: Hash, result: Bytes, offsets: seq<nat>, filed: set<(nat, Bytes)>)
    requires Filed(hash, result, offsets, filed)
    ensures Filed(hash, result, offsets + [|result|], filed)
  {
    FileMore(hash, result, offsets, filed, [], []);
    assert result + [] == result;
    assert filed + (set k | k in [] :: (|offsets|, k)) == filed;
  }

  // ---------- The finished block ----------

  function Words(offsets: seq<nat>): (r: Bytes)
    ensures |r| == 4 * |offsets|
  {
    if offsets == [] then [] else Words(offsets[..|offsets| - 1]) + Coding.Fixed32(offsets[|offsets| - 1])
  }

  lemma {:induction false} WordAt(offsets: seq<nat>, i: nat)
    requires i < |offsets|
    ensures Words(offsets)[4 * i..4 * i + 4] == Coding.Fixed32(offsets[i])
    decreases |offsets|
  {
    var init := offsets[..|offsets| - 1];
    if i < |init| {
      WordAt(init, i);
      assert Words(offsets)[4 * i..4 * i + 4] == Words(init)[4 * i..4 * i + 4];
    }
  }

  function Block(filters: Bytes, offsets: seq<nat>): Bytes {
    filters + Words(offsets) + Coding.Fixed32(|filters|) + [BASE_LG]
  }

  /** Appends the offsets, where they begin, and the base. */
  method FinishBlock(filters: Bytes, offsets: seq<nat>) returns (contents: Bytes)
    ensures contents == Block(filters, offsets)
  {
    var arrayOffset := |filters|;
    contents := filters;
    for i := 0 to |offsets|
      invariant contents == filters + Words(offsets[..i])
    {
      assert offsets[..i + 1][..i] == offsets[..i];
      contents := contents + Coding.Fixed32(offsets[i]);
    }
    assert offsets[..|offsets|] == offsets;
    contents := contents + Coding.Fixed32(arrayOffset);
    contents := contents + [BASE_LG];
  }

  /** The words of a finished block read back. */
  lemma BlockWords(filters: Bytes, offsets: seq<nat>, i: nat)
    requires |Block(filters, offsets)| < Coding.TWO_32
    requires i < |offsets| ==> offsets[i] < Coding.TWO_32
    ensures Word(Block(filters, offsets), |filters| + 4 * |offsets|) == |filters|
    ensures i < |offsets| ==> Word(Block(filters, offsets), |filters| + 4 * i) == offsets[i]
  {
    var block := Block(filters, offsets);
    assert block[|filters| + 4 * |offsets|..|filters| + 4 * |offsets| + 4] == Coding.Fixed32(|filters|);
    Coding.Fixed32RoundTrip(|filters|);
    if i < |offsets| {
      WordAt(offsets, i);
      assert block[|filters| + 4 * i..|filters| + 4 * i + 4] == Words(offsets)[4 * i..4 * i + 4];
      Coding.Fixed32RoundTrip(offsets[i]);
    }
  }

  lemma ShiftTwo(v: nat, n: nat)
    requires n >= 2
    ensures ShiftRight(v, n) == ShiftRight(v / 4, n - 2)
  {
    assert ShiftRight(v, n) == ShiftRight(v / 2, n - 1) == ShiftRight(v / 2 / 2, n - 2);
  }

  /** The base makes the index that of the two-kilobyte range the offset is in. */
  lemma IndexByBase(blockOffset: nat)
    ensures FilterIndex(blockOffset, BASE_LG) == blockOffset / BASE
  {
    ShiftTwo(blockOffset, 11);
    ShiftTwo(blockOffset / 4, 9);
    ShiftTwo(blockOffset / 4 / 4, 7);
    ShiftTwo(blockOffset / 4 / 4 / 4, 5);
    ShiftTwo(blockOffset / 4 / 4 / 4 / 4, 3);
    assert ShiftRight(blockOffset / 4 / 4 / 4 / 4 / 4, 1) == blockOffset / 4 / 4 / 4 / 4 / 4 / 2;
  }

  /** A key filed under a filter may match at every block offset that the filter covers: a filter
      block never hides a key. */
  lemma FiledMayMatch(hash: Hash, filters: Bytes, offsets: seq<nat>, filed: set<(nat, Bytes)>, i: nat, key: Bytes, blockOffset: nat)
    requires Filed(hash, filters, offsets, filed) && |Block(filters, offsets)| < Coding.TWO_32
    requires (i, key) in filed && blockOffset / BASE == i
    ensures MayMatch(hash, Block(filters, offsets), blockOffset, key)
  {
    IndexByBase(blockOffset);
    BlockWords(filters, offsets, i);
    MatchAtIff(hash, filters, offsets, i, key);
    var block := Block(filters, offsets);
    assert |block| == |filters| + 4 * |offsets| + 5 && block[|block| - 1] == BASE_LG;
  }

  /** Exactly what a finished block says: a key may match at a block offset if no filter covers the offset, and
      otherwise if it matches the filter of the two-kilobyte range. */
  lemma MayMatchIff(hash: Hash, filters: Bytes, offsets: seq<nat>, filed: set<(nat, Bytes)>, key: Bytes, blockOffset: nat)
    requires Filed(hash, filters, offsets, filed) && |Block(filters, offsets)| < Coding.TWO_32
    ensures
      var i := blockOffset / 2048;
      MayMatch(hash, Block(filters, offsets), blockOffset, key)
      <==> i >= |offsets| || KeyMayMatch(hash, key, filters[offsets[i]..EndOf(offsets, |filters|, i)])
  {
    hide KeyMayMatch, Word;
    var i, block := blockOffset / BASE, Block(filters, offsets);
    IndexByBase(blockOffset);
    if i < |offsets| {
      BlockWords(filters, offsets, i);
      MatchAtIff(hash, filters, offsets, i, key);
    } else {
      BlockWords(filters, offsets, |offsets|);
    }
    assert |block| == |filters| + 4 * |offsets| + 5 && block[|block| - 1] == BASE_LG;
  }

  lemma MatchAtIff(hash: Hash, filters: Bytes, offsets: seq<nat>, i: nat, key: Bytes)
    requires |Block(filters, offsets)| < Coding.TWO_32 && i < |offsets|
    requires offsets[i] <= EndOf(offsets, |filters|, i) <= |filters|
    ensures |filters| + 5 <= |Block(filters, offsets)|
    ensures MatchAt(hash, Block(filters, offsets), |filters|, i, key)
      <==> KeyMayMatch(hash, key, filters[offsets[i]..EndOf(offsets, |filters|, i)])
  {
    hide KeyMayMatch, Word;
    var block, limit := Block(filters, offsets), EndOf(offsets, |filters|, i);
    BlockWords(filters, offsets, i);
    if i + 1 < |offsets| {
      BlockWords(filters, offsets, i + 1);
    }
    assert block[offsets[i]..limit] == filters[offsets[i]..limit];
  }

  class FilterBlockBuilder {
    const bitsPerKey: nat
    var keys: Bytes
    var start: seq<nat>
    var result: Bytes
    var filterOffsets: seq<nat>
    /** The keys not yet in a filter, and the keys in filters with the filter's index. */
    ghost var pending: seq<Bytes>
    ghost var filed: set<(nat, Bytes)>

    ghost predicate Valid(hash: Hash)
      reads this
    {
      Flattens(keys, start, pending) && Filed(hash, result, filterOffsets, filed)
    }

    constructor (bits: nat)
      ensures forall hash :: Valid(hash)
      ensures bitsPerKey == bits && filterOffsets == [] && pending == [] && filed == {}
    {
      bitsPerKey, keys, start, result, filterOffsets := bits, [], [], [], [];
      pending, filed := [], {};
    }

    method AddKey(hash: Hash, key: Bytes)
      requires Valid(hash)
      modifies this`keys, this`start, this`pending
      ensures Valid(hash) && pending == old(pending) + [key]
    {
      AddPiece(keys, start, pending, key);
      start := start + [|keys|];
      keys := keys + key;
      pending := pending + [key];
    }

    /** The pending keys go into one more filter. */
    method GenerateFilter(hash: Hash)
      requires Valid(hash)
      modifies this
      ensures Valid(hash) && |filterOffsets| == |old(filterOffsets)| + 1 && pending == []
      ensures filed == old(filed) + old(set k | k in pending :: (|filterOffsets|, k))
    {
      ghost var index := |filterOffsets|;
      if |start| == 0 {
        filterOffsets := filterOffsets + [|result|];
        FileNothing(hash, result, old(filterOffsets), filed);
        return;
      }
      var tmpKeys := CutKeys(keys, start, pending);
      filterOffsets := filterOffsets + [|result|];
      result := CreateFilter(hash, bitsPerKey, tmpKeys, result);
      FileFilter(hash, bitsPerKey, old(result), result, old(filterOffsets), filed, pending);
      filed := filed + set k | k in pending :: (index, k);
      keys, start, pending := [], [], [];
    }

    method StartBlock(hash: Hash, blockOffset: nat)
      requires Valid(hash) && |filterOffsets| <= blockOffset / BASE
      modifies this
      ensures Valid(hash) && |filterOffsets| == blockOffset / BASE
      ensures filed + (set k | k in pending :: (|filterOffsets|, k))
           == old(filed + (set k | k in pending :: (|filterOffsets|, k)))
    {
      var filterIndex := blockOffset / BASE;
      while filterIndex > |filterOffsets|
        invariant Valid(hash) && |filterOffsets| <= filterIndex
        invariant filed + (set k | k in pending :: (|filterOffsets|, k))
               == old(filed + (set k | k in pending :: (|filterOffsets|, k)))
      {
        GenerateFilter(hash);
      }
    }

    /** The finished block: filters, their offsets, where those begin, and the base. */
    method Finish(hash: Hash) returns (contents: Bytes)
      requires Valid(hash)
      modifies this
      ensures Valid(hash) && pending == [] && contents == Block(result, filterOffsets)
      ensures filed == old(filed) + old(set k | k in pending :: (|filterOffsets|, k))
    {
      if |start| != 0 {
        GenerateFilter(hash);
      }
      contents := FinishBlock(result, filterOffsets);
    }
  }
}
