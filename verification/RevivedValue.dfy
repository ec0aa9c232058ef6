/** A run from the empty database that ends in a compaction that brings a deleted value back:
    SetupOtherInputs adds boundary files to the first input list only (db/version_set.cc). */
module RevivedValue {
  import opened Wrappers
  import opened Dbformat
  import opened VersionFiles
  import opened CompactionInputs
  import opened VersionBuilder
  import opened LevelChange
  import opened DropRule
  import opened CompactionWork
  import opened Database
  import opened DatabaseSafety
  import opened SnapshotReads

  // ---------- The run ----------

  const OLD_VALUE := Entry(InternalKey(3.0, 1, Value), [1])
  const OVERWRITTEN := Entry(InternalKey(1.0, 2, Value), [2])
  const TOMBSTONE := Entry(InternalKey(3.0, 3, Deletion), [])
  const NEWER := Entry(InternalKey(1.0, 4, Value), [3])

  const FLUSHED_OLD := File(3, 0, OLD_VALUE.key, OLD_VALUE.key, [OLD_VALUE])
  const FLUSHED_TOMBSTONE := File(5, 0, OVERWRITTEN.key, TOMBSTONE.key, [OVERWRITTEN, TOMBSTONE])
  /** The outputs of the first compaction, cut within the key 3.0: its tombstone ends the first,
      its older value begins the second. */
  const FIRST := File(6, 0, OVERWRITTEN.key, TOMBSTONE.key, [OVERWRITTEN, TOMBSTONE])
  const SECOND := File(7, 0, OLD_VALUE.key, OLD_VALUE.key, [OLD_VALUE])
  const UPPER := File(9, 0, NEWER.key, NEWER.key, [NEWER])
  const MERGED := File(10, 0, NEWER.key, NEWER.key, [NEWER])

  const PUT_OLD := [Update(Value, 3.0, [1])]
  const PUT_AND_DELETE := [Update(Value, 1.0, [2]), Update(Deletion, 3.0, [])]
  const PUT_NEWER := [Update(Value, 1.0, [3])]

  /** Files in levels 1 and 2 only. */
  function Two(one: seq<File>, two: seq<File>): (levels: Levels)
    ensures |levels| == NUM_LEVELS
  {
    [[], one, two, [], [], [], []]
  }

  const EARLY_JOB := Job(1, [FLUSHED_TOMBSTONE], [FLUSHED_OLD], 1, Two([FLUSHED_TOMBSTONE], [FLUSHED_OLD]))
  const JOB := Job(1, [UPPER], [FIRST], 4, Two([UPPER], [FIRST, SECOND]))

  const PLACED: set<(nat, nat)> := {(2, 3), (1, 5), (2, 6), (2, 7)}

  const BEFORE := State([], None, Two([UPPER], [FIRST, SECOND]), 4, 10, [], Some(JOB), PLACED + {(1, 9)})
  const AFTER := State([], None, Two([], [MERGED, SECOND]), 4, 11, [], None, PLACED + {(1, 9)} + {(2, 10)})

  /** A value is written, a snapshot taken, the value deleted behind it and both flushed; a compaction
      keeps both for the snapshot, in two files. Without the snapshot, and with something newer for
      the first file alone, the next compaction takes just that file. */
  const RUN: seq<State> := [
    State([], None, EMPTY_LEVELS, 0, 2, [], None, {}),
    State([OLD_VALUE], None, Two([], []), 1, 2, [], None, {}),
    State([OLD_VALUE], None, Two([], []), 1, 2, [1], None, {}),
    State([], Some([OLD_VALUE]), Two([], []), 1, 3, [1], None, {}),
    State([], None, Two([], [FLUSHED_OLD]), 1, 4, [1], None, {(2, 3)}),
    State([OVERWRITTEN, TOMBSTONE], None, Two([], [FLUSHED_OLD]), 3, 4, [1], None, {(2, 3)}),
    State([], Some([OVERWRITTEN, TOMBSTONE]), Two([], [FLUSHED_OLD]), 3, 5, [1], None, {(2, 3)}),
    State([], None, Two([FLUSHED_TOMBSTONE], [FLUSHED_OLD]), 3, 6, [1], None, {(2, 3), (1, 5)}),
    State([], None, Two([FLUSHED_TOMBSTONE], [FLUSHED_OLD]), 3, 6, [1], Some(EARLY_JOB), {(2, 3), (1, 5)}),
    State([], None, Two([], [FIRST, SECOND]), 3, 8, [1], None, PLACED),
    State([], None, Two([], [FIRST, SECOND]), 3, 8, [], None, PLACED),
    State([NEWER], None, Two([], [FIRST, SECOND]), 4, 8, [], None, PLACED),
    State([], Some([NEWER]), Two([], [FIRST, SECOND]), 4, 9, [], None, PLACED),
    State([], None, Two([UPPER], [FIRST, SECOND]), 4, 10, [], None, PLACED + {(1, 9)}),
    BEFORE,
    AFTER]

  const STEPS: seq<Step> := [
    WriteStep(PUT_OLD), TakeSnapshotStep, SwitchStep, FlushStep(2, FLUSHED_OLD),
    WriteStep(PUT_AND_DELETE), SwitchStep, FlushStep(1, FLUSHED_TOMBSTONE),
    StartStep(1, [FLUSHED_TOMBSTONE], [FLUSHED_OLD]), FinishStep([FIRST, SECOND]), ReleaseSnapshotStep(0),
    WriteStep(PUT_NEWER), SwitchStep, FlushStep(1, UPPER),
    StartStep(1, [UPPER], [FIRST]), FinishStep([MERGED])]

  // ---------- Levels 1 and 2 ----------

  lemma TwoReplaced(one: seq<File>, two: seq<File>, inputs0: seq<File>, inputs1: seq<File>, outs: seq<File>,
                    one': seq<File>, two': seq<File>)
    requires SortedFiles(one') && SortedFiles(two')
    requires forall f :: f in one' <==> f in one && f !in inputs0
    requires forall f :: f in two' <==> (f in two && f !in inputs1) || f in outs
    ensures Replaced(Two(one, two), 1, inputs0, inputs1, outs, Two(one', two'))
  {
  }

  lemma TwoPlaced(one: seq<File>, two: seq<File>, level: nat, file: File, one': seq<File>, two': seq<File>)
    requires SortedFiles(one') && SortedFiles(two') && (level == 1 || level == 2)
    requires if level == 1 then two' == two else one' == one
    requires forall f :: f in Two(one', two')[level] <==> f in Two(one, two)[level] || f == file
    ensures Placed(Two(one, two), level, file, Two(one', two'))
  {
  }

  /** Nothing lies below level 2. */
  lemma TwoIsBase(one: seq<File>, two: seq<File>, user: UserKey)
    ensures IsBase(Two(one, two), 1, user)
  {
  }

  // ---------- The steps ----------

  lemma Writes()
    ensures forall i {:trigger STEPS[i]} :: i in {0, 4, 10} ==> NextStep(RUN[i], STEPS[i], RUN[i + 1])
  {
    assert BatchEntries(PUT_OLD, 1) == [OLD_VALUE];
    assert BatchEntries(PUT_AND_DELETE, 2) == [OVERWRITTEN, TOMBSTONE];
    assert BatchEntries(PUT_NEWER, 4) == [NEWER];
  }

  lemma SnapshotsAndSwitches()
    ensures forall i {:trigger STEPS[i]} :: i in {1, 2, 5, 9, 11} ==> NextStep(RUN[i], STEPS[i], RUN[i + 1])
  {
    assert [] + [1] == [1];
    assert [1][..0] + [1][1..] == [];
  }

  lemma Flushes()
    ensures forall i {:trigger STEPS[i]} :: i in {3, 6, 12} ==> NextStep(RUN[i], STEPS[i], RUN[i + 1])
  {
    TwoPlaced([], [], 2, FLUSHED_OLD, [], [FLUSHED_OLD]);
    TwoPlaced([], [FLUSHED_OLD], 1, FLUSHED_TOMBSTONE, [FLUSHED_TOMBSTONE], [FLUSHED_OLD]);
    TwoPlaced([], [FIRST, SECOND], 1, UPPER, [UPPER], [FIRST, SECOND]);
  }

  lemma Starts()
    ensures forall i {:trigger STEPS[i]} :: i in {7, 13} ==> NextStep(RUN[i], STEPS[i], RUN[i + 1])
  {
    assert FLUSHED_TOMBSTONE in [FLUSHED_TOMBSTONE] && UPPER in [UPPER];
    assert Touches(FLUSHED_OLD, [FLUSHED_TOMBSTONE]);
    assert Touches(FIRST, [UPPER]) && !Touches(SECOND, [UPPER]);
  }

  lemma EarlyEntries()
    ensures JobEntries(EARLY_JOB) == {OVERWRITTEN, TOMBSTONE, OLD_VALUE} == FileEntries([FIRST, SECOND])
    ensures Kept(JobEntries(EARLY_JOB), 1, BaseOf(EARLY_JOB.version, 1)) == JobEntries(EARLY_JOB)
  {
    assert FLUSHED_TOMBSTONE in EARLY_JOB.inputs0 && FLUSHED_OLD in EARLY_JOB.inputs1;
    assert FIRST in [FIRST, SECOND] && SECOND in [FIRST, SECOND];
    assert OVERWRITTEN in FIRST.entries && TOMBSTONE in FIRST.entries && OLD_VALUE in SECOND.entries;
    assert OVERWRITTEN in FLUSHED_TOMBSTONE.entries && TOMBSTONE in FLUSHED_TOMBSTONE.entries;
    assert OLD_VALUE in FLUSHED_OLD.entries;
  }

  lemma EarlyOutputs()
    ensures JobOutputs(RUN[8], EARLY_JOB, [FIRST, SECOND], 8)
    ensures PlacedIn(2, [FIRST, SECOND]) == {(2, 6), (2, 7)}
  {
    EarlyEntries();
    hide JobEntries, Kept, FileEntries;
    assert FIRST in [FIRST, SECOND] && SECOND in [FIRST, SECOND];
  }

  /** The snapshot protects the value under the tombstone. */
  lemma FirstFinishes()
    ensures NextStep(RUN[8], STEPS[8], RUN[9])
  {
    var s, t, outs := RUN[8], RUN[9], [FIRST, SECOND];
    EarlyOutputs();
    TwoReplaced([FLUSHED_TOMBSTONE], [FLUSHED_OLD], [FLUSHED_TOMBSTONE], [FLUSHED_OLD], outs, [], outs);
    assert s.placed + PlacedIn(2, outs) == t.placed;
    assert FinishCompaction(s, outs, t);
  }

  lemma KeptEntries()
    ensures JobEntries(JOB) == {NEWER, OVERWRITTEN, TOMBSTONE}
    ensures Kept(JobEntries(JOB), 4, BaseOf(JOB.version, 1)) == {NEWER}
  {
    var input, base := JobEntries(JOB), BaseOf(JOB.version, 1);
    assert UPPER in JOB.inputs0 && FIRST in JOB.inputs1;
    assert NEWER in UPPER.entries && OVERWRITTEN in FIRST.entries && TOMBSTONE in FIRST.entries;
    TwoIsBase([UPPER], [FIRST, SECOND], 3.0);
    assert Obsolete(TOMBSTONE, 4, base);
    assert Hidden(input, OVERWRITTEN, 4) by { assert NEWER in input; }
    assert !Hidden(input, NEWER, 4) && !Obsolete(NEWER, 4, base);
  }

  lemma FinishesThere()
    ensures FinishCompaction(BEFORE, [MERGED], AFTER)
  {
    KeptEntries();
    assert FileEntries([MERGED]) == {NEWER} by {
      assert MERGED in [MERGED] && NEWER in MERGED.entries;
    }
    assert PlacedIn(2, [MERGED]) == {(2, 10)} by { assert MERGED in [MERGED]; }
    TwoReplaced([UPPER], [FIRST, SECOND], [UPPER], [FIRST], [MERGED], [], [MERGED, SECOND]);
  }

  /** No memtable is flushed beside a compaction. */
  lemma RunIsOrderly()
    ensures OrderlyRun(RUN, STEPS, 15)
  {
  }

  /** The database gets there from nothing, by steps the code takes. */
  lemma RunFromNothing()
    ensures IsRun(RUN, STEPS) && Init(RUN[0])
    ensures |STEPS| == 15 && RUN[14] == BEFORE && RUN[15] == AFTER && Inv(BEFORE) && Inv(AFTER)
  {
    Writes();
    SnapshotsAndSwitches();
    Flushes();
    Starts();
    FirstFinishes();
    FinishesThere();
    RunIsOrderly();
    RunKeepsInv(RUN, STEPS, 14);
    RunKeepsInv(RUN, STEPS, 15);
  }

  // ---------- The answers ----------

  lemma BeforeData()
    ensures Data(BEFORE) == {NEWER, OVERWRITTEN, TOMBSTONE, OLD_VALUE}
  {
    var levels := BEFORE.levels;
    assert UPPER in levels[1] && FIRST in levels[2] && SECOND in levels[2];
    assert NEWER in UPPER.entries && OVERWRITTEN in FIRST.entries && TOMBSTONE in FIRST.entries && OLD_VALUE in SECOND.entries;
    assert Data(BEFORE) == AllEntries(levels);
  }

  lemma AfterData()
    ensures Data(AFTER) == {NEWER, OLD_VALUE}
  {
    var levels := AFTER.levels;
    assert MERGED in levels[2] && SECOND in levels[2];
    assert NEWER in MERGED.entries && OLD_VALUE in SECOND.entries;
    assert Data(AFTER) == AllEntries(levels);
  }

  lemma ReadBefore()
    ensures Reads(Data(BEFORE), 3.0, 4, Deleted)
  {
    BeforeData();
    assert IsNewest(Data(BEFORE), 3.0, 4, TOMBSTONE);
    assert Reads(Data(BEFORE), 3.0, 4, LookupOf(TOMBSTONE));
  }

  lemma ReadAfter()
    ensures Reads(Data(AFTER), 3.0, 4, Found([1]))
  {
    AfterData();
    assert IsNewest(Data(AFTER), 3.0, 4, OLD_VALUE);
    assert Reads(Data(AFTER), 3.0, 4, LookupOf(OLD_VALUE));
  }

  lemma ShadowsThere()
    ensures ShadowsLeftOut(BEFORE, JOB, 3.0)
  {
    BeforeData();
    KeptEntries();
    assert IsNewest(Data(BEFORE), 3.0, 4, TOMBSTONE);
    TwoIsBase([UPPER], [FIRST, SECOND], 3.0);
    assert FIRST in JOB.inputs1 && TOMBSTONE in FIRST.entries;
    assert Data(BEFORE) - JobEntries(JOB) == {OLD_VALUE};
    assert ShadowedBy(BEFORE, JOB, 3.0, TOMBSTONE, SECOND, OLD_VALUE);
  }

  /** A run from the empty database whose last step, a compaction, changes the answer for a user key at
      the latest sequence number from "not found" to an old value. */
  lemma CompactionRevivesValue()
    ensures IsRun(RUN, STEPS) && Init(RUN[0]) && |STEPS| == 15
    ensures STEPS[14] == FinishStep([MERGED]) && RUN[14].lastSequence == RUN[15].lastSequence == 4
    ensures ShadowsLeftOut(RUN[14], JOB, 3.0)
    ensures Reads(Data(RUN[14]), 3.0, 4, Deleted) && Reads(Data(RUN[15]), 3.0, 4, Found([1]))
  {
    RunFromNothing();
    ShadowsThere();
    ReadBefore();
    ReadAfter();
  }
}
