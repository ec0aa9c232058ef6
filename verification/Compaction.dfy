/** The compaction loop (db/db_impl.cc DoCompactionWork, db/version_set.cc IsBaseLevelForKey). */
module CompactionWork {
  import opened Wrappers
  import opened Dbformat
  import opened VersionFiles
  import opened CompactionInputs
  import opened DropRule

  predicate InFileRange(f: File, user: UserKey) {
    f.smallest.user <= user <= f.largest.user
  }

  /** No file two or more levels below `level` has a range containing the key. */
  predicate IsBase(levels: Levels, level: nat, user: UserKey) {
    forall l, i :: level + 2 <= l < |levels| && 0 <= i < |levels[l]| ==> !InFileRange(levels[l][i], user)
  }

  ghost function BaseOf(levels: Levels, level: nat): UserKey -> bool {
    u => IsBase(levels, level, u)
  }

  /** What a running compaction remembers of its input version. */
  class Compaction {
    const level: nat
    const levels: Levels

    /** For each level, how many files lie before every key asked about so far. */
    var levelPtrs: seq<nat>
    ghost var lastAsked: Option<UserKey>

    ghost predicate Valid()
      reads this
    {
      && |levels| == NUM_LEVELS && |levelPtrs| == NUM_LEVELS
      && (forall l :: 1 <= l < NUM_LEVELS ==> BoundsOk(levels[l]) && Disjoint(levels[l]))
      && (forall l :: 0 <= l < NUM_LEVELS ==> levelPtrs[l] <= |levels[l]|)
      && (forall l, i :: 0 <= l < NUM_LEVELS && 0 <= i < levelPtrs[l] ==>
            lastAsked.Some? && levels[l][i].largest.user < lastAsked.value)
    }

    constructor (levels: Levels, level: nat)
      requires |levels| == NUM_LEVELS
      requires forall l :: 1 <= l < NUM_LEVELS ==> BoundsOk(levels[l]) && Disjoint(levels[l])
      ensures Valid() && lastAsked == None && this.level == level && this.levels == levels
    {
      this.levels, this.level := levels, level;
      levelPtrs, lastAsked := seq(NUM_LEVELS, i => 0), None;
    }

    /** Asked about keys in nondecreasing order, the advancing pointers decide the same
        question as a scan of all deeper files. */
    method IsBaseLevelForKey(user: UserKey) returns (base: bool)
      requires Valid()
      requires lastAsked.Some? ==> lastAsked.value <= user
      modifies this
      ensures Valid() && lastAsked == Some(user)
      ensures base <==> IsBase(levels, level, user)
    {
      lastAsked := Some(user);
      var lvl := level + 2;
      while lvl < NUM_LEVELS
        invariant lvl >= level + 2
        invariant Valid() && lastAsked == Some(user)
        invariant forall l, i :: level + 2 <= l < lvl && l < NUM_LEVELS && 0 <= i < |levels[l]| ==> !InFileRange(levels[l][i], user)
      {
        var files := levels[lvl];
        while levelPtrs[lvl] < |files| && user > files[levelPtrs[lvl]].largest.user
          invariant Valid() && lastAsked == Some(user)
          decreases |files| - levelPtrs[lvl]
        {
          levelPtrs := levelPtrs[lvl := levelPtrs[lvl] + 1];
        }
        if levelPtrs[lvl] < |files| {
          var f := files[levelPtrs[lvl]];
          if user >= f.smallest.user {
            assert InFileRange(files[levelPtrs[lvl]], user);
            return false;
          }
        }
        DisjointIsUserSorted(files);
        lvl := lvl + 1;
      }
      return true;
    }
  }

  // ---------- The loop over the merged input ----------

  function Concat(runs: seq<seq<Entry>>): seq<Entry> {
    if runs == [] then [] else Concat(runs[..|runs| - 1]) + runs[|runs| - 1]
  }

  lemma ConcatSnoc(runs: seq<seq<Entry>>, last: seq<Entry>)
    ensures Concat(runs + [last]) == Concat(runs) + last
  {
    assert (runs + [last])[..|runs|] == runs;
  }

  /** In a sorted input, an entry is hidden exactly if the entry just before it has the same
      user key and is visible at the smallest snapshot. */
  lemma HiddenByPredecessor(input: seq<Entry>, i: nat, smallest: nat)
    requires Sorted(input) && i < |input|
    ensures Hidden(Elements(input), input[i], smallest) <==>
      i > 0 && input[i - 1].key.user == input[i].key.user && input[i - 1].key.seqno <= smallest
  {
    if Hidden(Elements(input), input[i], smallest) {
      var n :| n in Elements(input) && n.key.user == input[i].key.user && input[i].key.seqno < n.key.seqno <= smallest;
      var j :| 0 <= j < |input| && input[j] == n;
      assert j < i;
      assert j < i - 1 ==> input[j].key.Precedes(input[i - 1].key) && input[i - 1].key.Precedes(input[i].key);
    }
    if i > 0 && input[i - 1].key.user == input[i].key.user && input[i - 1].key.seqno <= smallest {
      assert input[i - 1].key.Precedes(input[i].key);
      assert input[i - 1] in Elements(input);
    }
  }

  /** What the drop rule leaves of the first `n` entries, in order. */
  ghost function KeptSeq(input: seq<Entry>, n: nat, smallest: nat, base: UserKey -> bool): seq<Entry>
    requires n <= |input|
  {
    if n == 0 then []
    else KeptSeq(input, n - 1, smallest, base)
         + if Dropped(Elements(input), input[n - 1], smallest, base) then [] else [input[n - 1]]
  }

  lemma {:induction false} KeptSeqIsKept(input: seq<Entry>, n: nat, smallest: nat, base: UserKey -> bool)
    requires Sorted(input) && n <= |input|
    ensures Sorted(KeptSeq(input, n, smallest, base))
    ensures forall e :: (e in KeptSeq(input, n, smallest, base)
                         <==> e in input[..n] && !Dropped(Elements(input), e, smallest, base))
  {
    if n > 0 {
      KeptSeqIsKept(input, n - 1, smallest, base);
      assert input[..n] == input[..n - 1] + [input[n - 1]];
      var before := KeptSeq(input, n - 1, smallest, base);
      forall k | 0 <= k < |before|
        ensures before[k].key.Precedes(input[n - 1].key)
      {
        assert before[k] in input[..n - 1];
      }
    }
  }

  /** A newer entry of the user key is visible at the smallest snapshot. */
  ghost predicate ReplacedIn(run: seq<Entry>, e: Entry, smallest: nat) {
    exists n :: n in run && n.key.user == e.key.user && e.key.seqno < n.key.seqno <= smallest
  }

  /** A tombstone that every snapshot sees, whose user key no file two or more levels below covers. */
  ghost predicate IsObsolete(e: Entry, smallest: nat, levels: Levels, level: nat) {
    && e.key.kind.Deletion? && e.key.seqno <= smallest
    && forall l, f :: level + 2 <= l < |levels| && f in levels[l] ==>
         e.key.user < f.smallest.user || f.largest.user < e.key.user
  }

  /** Of two entries of one user key, no snapshot but one below the newer sees the older. */
  ghost predicate NoneReplaced(run: seq<Entry>, smallest: nat) {
    forall x, y :: x in run && y in run && x.key.user == y.key.user && y.key.seqno < x.key.seqno ==> smallest < x.key.seqno
  }

  ghost predicate NoneObsolete(run: seq<Entry>, smallest: nat, levels: Levels, level: nat) {
    forall e :: e in run ==> !IsObsolete(e, smallest, levels, level)
  }

  lemma ObsoleteIff(e: Entry, smallest: nat, levels: Levels, level: nat)
    ensures IsObsolete(e, smallest, levels, level) <==> Obsolete(e, smallest, BaseOf(levels, level))
  {
    if IsBase(levels, level, e.key.user) {
      forall l, f | level + 2 <= l < |levels| && f in levels[l]
        ensures !InFileRange(f, e.key.user)
      {
        var i :| 0 <= i < |levels[l]| && levels[l][i] == f;
      }
    } else {
      var l, i :| level + 2 <= l < |levels| && 0 <= i < |levels[l]| && InFileRange(levels[l][i], e.key.user);
      assert levels[l][i] in levels[l];
    }
  }

  /** A run of what the drop rule leaves holds no replaced entry and no obsolete tombstone, and lacks nothing else. */
  lemma OutputsAreNeeded(input: seq<Entry>, run: seq<Entry>, smallest: nat, levels: Levels, level: nat)
    requires Elements(run) == Kept(Elements(input), smallest, BaseOf(levels, level))
    ensures NoneReplaced(run, smallest) && NoneObsolete(run, smallest, levels, level)
    ensures forall e :: e in input && e !in run ==> ReplacedIn(input, e, smallest) || IsObsolete(e, smallest, levels, level)
  {
    KeptIff(Elements(input), smallest, BaseOf(levels, level));
    assert forall e :: e in run <==> e in Elements(run);
    forall e | e in input
      ensures e in run ==> !IsObsolete(e, smallest, levels, level)
      ensures e !in run ==> ReplacedIn(input, e, smallest) || IsObsolete(e, smallest, levels, level)
    {
      ObsoleteIff(e, smallest, levels, level);
      assert e in Elements(input);
    }
    forall e | e in run
      ensures e in input
    {
      assert e in Elements(run);
    }
  }

  /** One decision of the loop, from the user key and sequence number of the entry before. */
  method ShouldDrop(c: Compaction, input: seq<Entry>, i: nat, lastSequenceForKey: nat, smallestSnapshot: nat) returns (drop: bool)
    requires c.Valid() && Sorted(input) && i < |input|
    requires c.lastAsked.Some? ==> c.lastAsked.value <= input[i].key.user
    requires lastSequenceForKey ==
      if i > 0 && input[i - 1].key.user == input[i].key.user then input[i - 1].key.seqno else MAX_SEQUENCE
    requires smallestSnapshot < MAX_SEQUENCE
    modifies c
    ensures c.Valid() && (c.lastAsked.Some? ==> c.lastAsked.value <= input[i].key.user)
    ensures drop <==> Dropped(Elements(input), input[i], smallestSnapshot, BaseOf(c.levels, c.level))
    ensures drop <==> ReplacedIn(input, input[i], smallestSnapshot) || IsObsolete(input[i], smallestSnapshot, c.levels, c.level)
  {
    HiddenByPredecessor(input, i, smallestSnapshot);
    ObsoleteIff(input[i], smallestSnapshot, c.levels, c.level);
    assert Hidden(Elements(input), input[i], smallestSnapshot) <==> ReplacedIn(input, input[i], smallestSnapshot);
    drop := false;
    if lastSequenceForKey <= smallestSnapshot {
      drop := true;
    } else if input[i].key.kind == Deletion && input[i].key.seqno <= smallestSnapshot {
      drop := c.IsBaseLevelForKey(input[i].key.user);
    }
  }

  /** The compaction loop.  When an output file is closed is left open: `stopBefore` stands for
      ShouldStopBefore and `full` for the output having reached its maximum size. */
  method DoCompactionWork(c: Compaction, input: seq<Entry>, smallestSnapshot: nat, stopBefore: seq<bool>, full: seq<bool>)
    returns (outputs: seq<seq<Entry>>)
    requires c.Valid() && c.lastAsked == None
    requires Sorted(input) && |stopBefore| == |input| && |full| == |input|
    requires smallestSnapshot < MAX_SEQUENCE
    modifies c
    ensures forall run :: run in outputs ==> run != []
    ensures Sorted(Concat(outputs))
    ensures Elements(Concat(outputs)) == Kept(Elements(input), smallestSnapshot, BaseOf(c.levels, c.level))
    ensures forall x, y :: x in Concat(outputs) && y in Concat(outputs) && x.key.user == y.key.user && y.key.seqno < x.key.seqno ==>
      smallestSnapshot < x.key.seqno
    ensures forall e :: e in Concat(outputs) && e.key.kind.Deletion? && e.key.seqno <= smallestSnapshot ==>
      exists l, f :: c.level + 2 <= l < |c.levels| && f in c.levels[l] && f.smallest.user <= e.key.user <= f.largest.user
    ensures forall e :: e in input && e !in Concat(outputs) ==>
      ReplacedIn(input, e, smallestSnapshot) || IsObsolete(e, smallestSnapshot, c.levels, c.level)
  {
    ghost var base := BaseOf(c.levels, c.level);
    outputs := [];
    var builder: seq<Entry> := [];
    var currentUserKey: Option<UserKey> := None;
    var lastSequenceForKey := MAX_SEQUENCE;
    for i := 0 to |input|
      invariant c.Valid()
      invariant c.lastAsked.Some? ==> i > 0 && c.lastAsked.value <= input[i - 1].key.user
      invariant if i == 0 then currentUserKey == None
                else currentUserKey == Some(input[i - 1].key.user) && lastSequenceForKey == input[i - 1].key.seqno
      invariant forall run :: run in outputs ==> run != []
      invariant Concat(outputs) + builder == KeptSeq(input, i, smallestSnapshot, base)
    {
      assert i > 0 ==> input[i - 1].key.Precedes(input[i].key);
      if stopBefore[i] {
        outputs, builder := CloseOutput(outputs, builder);
      }
      if currentUserKey != Some(input[i].key.user) {
        currentUserKey := Some(input[i].key.user);
        lastSequenceForKey := MAX_SEQUENCE;
      }
      var drop := ShouldDrop(c, input, i, lastSequenceForKey, smallestSnapshot);
      lastSequenceForKey := input[i].key.seqno;
      if !drop {
        outputs, builder := AddToOutput(outputs, builder, input[i], full[i]);
      }
    }
    outputs, builder := CloseOutput(outputs, builder);
    KeptSeqIsKept(input, |input|, smallestSnapshot, base);
    assert input[..|input|] == input;
    assert Concat(outputs) + builder == Concat(outputs);
    OutputsAreNeeded(input, Concat(outputs), smallestSnapshot, c.levels, c.level);
  }

  /** FinishCompactionOutputFile, if an output is open. */
  method CloseOutput(outputs: seq<seq<Entry>>, builder: seq<Entry>) returns (outputs': seq<seq<Entry>>, builder': seq<Entry>)
    requires forall run :: run in outputs ==> run != []
    ensures forall run :: run in outputs' ==> run != []
    ensures builder' == []
    ensures Concat(outputs') + builder' == Concat(outputs) + builder
  {
    outputs', builder' := outputs, [];
    if builder != [] {
      ConcatSnoc(outputs, builder);
      outputs' := outputs + [builder];
    }
  }

  /** Appends to the open output, opening one if needed, and closes it once it is full. */
  method AddToOutput(outputs: seq<seq<Entry>>, builder: seq<Entry>, e: Entry, full: bool)
    returns (outputs': seq<seq<Entry>>, builder': seq<Entry>)
    requires forall run :: run in outputs ==> run != []
    ensures forall run :: run in outputs' ==> run != []
    ensures Concat(outputs') + builder' == Concat(outputs) + builder + [e]
  {
    outputs', builder' := outputs, builder + [e];
    assert Concat(outputs) + builder' == Concat(outputs) + builder + [e];
    if full {
      outputs', builder' := CloseOutput(outputs', builder');
    }
  }
}
