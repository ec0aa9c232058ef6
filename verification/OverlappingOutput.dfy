/** A run from the empty database after which a value that was written is not found: a memtable flushed
    while a manual compaction runs lands in a gap between its input files, and the output then spans the
    gap (db/db_impl.cc DoCompactionWork, db/version_set.cc). */
module OverlappingOutput {
  import opened Wrappers
  import opened Dbformat
  import opened VersionFiles
  import opened VersionGet
  import opened CompactionInputs
  import opened VersionBuilder
  import opened LevelChange
  import opened DropRule
  import opened CompactionWork
  import opened Database
  import opened DatabaseSafety
  import opened SnapshotReads
  import opened RevivedValue

  const LEFT_OLD := Entry(InternalKey(1.0, 1, Value), [1])
  const RIGHT_OLD := Entry(InternalKey(3.0, 2, Value), [2])
  const LEFT_NEW := Entry(InternalKey(1.0, 3, Value), [3])
  const RIGHT_NEW := Entry(InternalKey(3.0, 4, Value), [4])
  const MIDDLE := Entry(InternalKey(2.0, 5, Value), [5])

  function OneEntry(number: nat, e: Entry): File {
    File(number, 0, e.key, e.key, [e])
  }

  const LOW_LEFT := OneEntry(3, LEFT_OLD)
  const LOW_RIGHT := OneEntry(5, RIGHT_OLD)
  const HIGH_LEFT := OneEntry(7, LEFT_NEW)
  const HIGH_RIGHT := OneEntry(9, RIGHT_NEW)
  const BESIDE := OneEntry(11, MIDDLE)
  const OUTPUT := File(12, 0, LEFT_NEW.key, RIGHT_NEW.key, [LEFT_NEW, RIGHT_NEW])

  /** A database at rest, but for a compaction. */
  function Rest(one: seq<File>, two: seq<File>, last: nat, next: nat, job: Option<Job>, placed: set<(nat, nat)>): State {
    State([], None, Two(one, two), last, next, [], job, placed)
  }

  const EMPTY := Rest([], [], 0, 2, None, {})
  const HIGH := [HIGH_LEFT, HIGH_RIGHT]
  const LOW := [LOW_LEFT, LOW_RIGHT]
  const JOB := Job(1, HIGH, LOW, 4, Two(HIGH, LOW))

  const PLACED: set<(nat, nat)> := {(2, 3), (2, 5), (1, 7), (1, 9)}
  const BEFORE := Rest(HIGH, [LOW_LEFT, BESIDE, LOW_RIGHT], 5, 12, Some(JOB), PLACED + {(2, 11)})
  const AFTER := Rest([], [OUTPUT, BESIDE], 5, 13, None, PLACED + {(2, 11)} + {(2, 12)})

  // ---------- The run ----------

  /** A run from one state to another without the end of a compaction. */
  ghost predicate Leads(s: State, run: seq<State>, steps: seq<Step>, t: State) {
    && IsRun(run, steps) && run[0] == s && run[|steps|] == t
    && forall i :: 0 <= i < |steps| ==> !steps[i].FinishStep?
  }

  lemma LeadsOn(s: State, run1: seq<State>, steps1: seq<Step>, t: State, run2: seq<State>, steps2: seq<Step>, u: State)
    returns (run: seq<State>, steps: seq<Step>)
    requires Leads(s, run1, steps1, t) && Leads(t, run2, steps2, u)
    ensures Leads(s, run, steps, u) && |steps| == |steps1| + |steps2|
  {
    run, steps := run1 + run2[1..], steps1 + steps2;
    hide NextStep;
    forall i {:trigger steps[i]} | 0 <= i < |steps|
      ensures NextStep(run[i], steps[i], run[i + 1]) && !steps[i].FinishStep?
    {
      if i < |steps1| {
        assert NextStep(run1[i], steps1[i], run1[i + 1]);
      } else {
        assert NextStep(run2[i - |steps1|], steps2[i - |steps1|], run2[i - |steps1| + 1]);
      }
    }
  }

  /** A value is written, its memtable made immutable and flushed to a level. */
  lemma PutAndFlush(s: State, e: Entry, level: nat, levels: Levels) returns (run: seq<State>, steps: seq<Step>)
    requires s.mem == [] && s.imm.None? && s.lastSequence + 1 < MAX_SEQUENCE
    requires e.key.seqno == s.lastSequence + 1
    requires MayPlace(s.levels, level, e.key.user, e.key.user)
    requires Placed(s.levels, level, OneEntry(s.nextFile + 1, e), levels)
    ensures Leads(s, run, steps, s.(levels := levels, lastSequence := s.lastSequence + 1, nextFile := s.nextFile + 2,
                                    placed := s.placed + {(level, s.nextFile + 1)}))
    ensures |steps| == 3
  {
    var batch := [Update(e.key.kind, e.key.user, e.value)];
    var file := OneEntry(s.nextFile + 1, e);
    var s1 := s.(mem := [e], lastSequence := s.lastSequence + 1);
    var s2 := s1.(mem := [], imm := Some([e]), nextFile := s.nextFile + 1);
    var s3 := s2.(imm := None, levels := levels, nextFile := s.nextFile + 2, placed := s.placed + {(level, s.nextFile + 1)});
    assert BatchEntries(batch, s.lastSequence + 1) == [e];
    assert NextStep(s, WriteStep(batch), s1) by {
      assert Elements([e]) == Elements([]) + Elements([e]);
    }
    assert NextStep(s1, SwitchStep, s2);
    assert NextStep(s2, FlushStep(level, file), s3);
    run, steps := [s, s1, s2, s3], [WriteStep(batch), SwitchStep, FlushStep(level, file)];
  }

  lemma OneStep(s: State, step: Step, t: State) returns (run: seq<State>, steps: seq<Step>)
    requires NextStep(s, step, t) && !step.FinishStep?
    ensures Leads(s, run, steps, t) && |steps| == 1
  {
    run, steps := [s, t], [step];
  }

  lemma TwoPlaceable(one: seq<File>, two: seq<File>, level: nat, user: UserKey)
    requires level == 1 || level == 2
    requires !SomeOverlap(one, Some(user), Some(user)) && (level == 2 ==> !SomeOverlap(two, Some(user), Some(user)))
    ensures MayPlace(Two(one, two), level, user, user)
  {
  }

  /** The four files: values of the keys 1.0 and 3.0, old ones in level 2 and new ones in level 1. */
  lemma FourFiles() returns (run: seq<State>, steps: seq<Step>)
    ensures Leads(EMPTY, run, steps, Rest(HIGH, LOW, 4, 10, None, PLACED)) && |steps| == 12
  {
    var more, on;
    TwoPlaceable([], [], 2, 1.0);
    TwoPlaced([], [], 2, LOW_LEFT, [], [LOW_LEFT]);
    run, steps := PutAndFlush(EMPTY, LEFT_OLD, 2, Two([], [LOW_LEFT]));
    TwoPlaceable([], [LOW_LEFT], 2, 3.0);
    TwoPlaced([], [LOW_LEFT], 2, LOW_RIGHT, [], LOW);
    more, on := PutAndFlush(Rest([], [LOW_LEFT], 1, 4, None, {(2, 3)}), RIGHT_OLD, 2, Two([], LOW));
    run, steps := LeadsOn(EMPTY, run, steps, Rest([], [LOW_LEFT], 1, 4, None, {(2, 3)}),
                          more, on, Rest([], LOW, 2, 6, None, {(2, 3), (2, 5)}));
    TwoPlaceable([], LOW, 1, 1.0);
    TwoPlaced([], LOW, 1, HIGH_LEFT, [HIGH_LEFT], LOW);
    more, on := PutAndFlush(Rest([], LOW, 2, 6, None, {(2, 3), (2, 5)}), LEFT_NEW, 1, Two([HIGH_LEFT], LOW));
    run, steps := LeadsOn(EMPTY, run, steps, Rest([], LOW, 2, 6, None, {(2, 3), (2, 5)}),
                          more, on, Rest([HIGH_LEFT], LOW, 3, 8, None, {(2, 3), (2, 5), (1, 7)}));
    TwoPlaceable([HIGH_LEFT], LOW, 1, 3.0);
    TwoPlaced([HIGH_LEFT], LOW, 1, HIGH_RIGHT, HIGH, LOW);
    more, on := PutAndFlush(Rest([HIGH_LEFT], LOW, 3, 8, None, {(2, 3), (2, 5), (1, 7)}), RIGHT_NEW, 1, Two(HIGH, LOW));
    run, steps := LeadsOn(EMPTY, run, steps, Rest([HIGH_LEFT], LOW, 3, 8, None, {(2, 3), (2, 5), (1, 7)}),
                          more, on, Rest(HIGH, LOW, 4, 10, None, PLACED));
  }

  /** A manual compaction of level 1 takes all four files. */
  lemma Starts()
    ensures NextStep(Rest(HIGH, LOW, 4, 10, None, PLACED), StartStep(1, HIGH, LOW), Rest(HIGH, LOW, 4, 10, Some(JOB), PLACED))
  {
    assert HIGH_LEFT in HIGH && HIGH_RIGHT in HIGH;
    assert Touches(LOW_LEFT, HIGH) && Touches(LOW_RIGHT, HIGH);
  }

  /** The key 2.0 is in none of them, so its memtable goes down to level 2 while the compaction runs. */
  lemma FlushedBeside() returns (run: seq<State>, steps: seq<Step>)
    ensures Leads(Rest(HIGH, LOW, 4, 10, Some(JOB), PLACED), run, steps, BEFORE) && |steps| == 3
  {
    TwoPlaceable(HIGH, LOW, 2, 2.0);
    TwoPlaced(HIGH, LOW, 2, BESIDE, HIGH, [LOW_LEFT, BESIDE, LOW_RIGHT]);
    run, steps := PutAndFlush(Rest(HIGH, LOW, 4, 10, Some(JOB), PLACED), MIDDLE, 2, Two(HIGH, [LOW_LEFT, BESIDE, LOW_RIGHT]));
  }

  lemma KeptByJob()
    ensures JobEntries(JOB) == {LEFT_OLD, RIGHT_OLD, LEFT_NEW, RIGHT_NEW}
    ensures Kept(JobEntries(JOB), 4, BaseOf(JOB.version, 1)) == {LEFT_NEW, RIGHT_NEW}
  {
    var input := JobEntries(JOB);
    assert HIGH_LEFT in HIGH && HIGH_RIGHT in HIGH && LOW_LEFT in LOW && LOW_RIGHT in LOW;
    assert LEFT_NEW in HIGH_LEFT.entries && RIGHT_NEW in HIGH_RIGHT.entries;
    assert LEFT_OLD in LOW_LEFT.entries && RIGHT_OLD in LOW_RIGHT.entries;
    assert input == {LEFT_OLD, RIGHT_OLD, LEFT_NEW, RIGHT_NEW};
    assert Hidden(input, LEFT_OLD, 4) by { assert LEFT_NEW in input; }
    assert Hidden(input, RIGHT_OLD, 4) by { assert RIGHT_NEW in input; }
  }

  /** Nothing is cut between the two keys kept: one output spans the new file. */
  lemma OneOutput()
    ensures JobOutputs(BEFORE, JOB, [OUTPUT], 13)
  {
    KeptByJob();
    hide JobEntries, Kept;
    assert FileEntries([OUTPUT]) == {LEFT_NEW, RIGHT_NEW} by {
      assert OUTPUT in [OUTPUT] && LEFT_NEW in OUTPUT.entries && RIGHT_NEW in OUTPUT.entries;
    }
  }

  lemma Finishes()
    ensures NextStep(BEFORE, FinishStep([OUTPUT]), AFTER)
  {
    OneOutput();
    hide JobOutputs;
    assert PlacedIn(2, [OUTPUT]) == {(2, 12)} by { assert OUTPUT in [OUTPUT]; }
    OutputReplaces();
    hide Replaced;
    assert JobFinishes(BEFORE, JOB, [OUTPUT], AFTER);
  }

  lemma OutputReplaces()
    ensures Replaced(BEFORE.levels, 1, HIGH, LOW, [OUTPUT], AFTER.levels)
  {
    TwoReplaced(HIGH, [LOW_LEFT, BESIDE, LOW_RIGHT], HIGH, LOW, [OUTPUT], [], [OUTPUT, BESIDE]);
  }

  // ---------- What a lookup finds ----------

  /** The value is in the database at the end, and was found before. */
  lemma ValueIsThere()
    ensures Reads(Data(BEFORE), 2.0, 5, Found([5])) && Reads(Data(AFTER), 2.0, 5, Found([5]))
  {
    OnlyMiddle(BEFORE, HIGH, [LOW_LEFT, BESIDE, LOW_RIGHT]);
    OnlyMiddle(AFTER, [], [OUTPUT, BESIDE]);
  }

  lemma OnlyMiddle(s: State, one: seq<File>, two: seq<File>)
    requires s.levels == Two(one, two) && s.mem == [] && s.imm.None? && BESIDE in two
    requires forall g, e :: (g in one || g in two) && e in g.entries && e.key.user == 2.0 ==> e == MIDDLE
    ensures Reads(Data(s), 2.0, 5, Found([5]))
  {
    assert BESIDE in s.levels[2] && MIDDLE in BESIDE.entries && MIDDLE in AllEntries(s.levels);
    assert IsNewest(Data(s), 2.0, 5, MIDDLE);
    assert LookupOf(MIDDLE) == Found([5]);
  }

  /** The binary search stops at the output, which does not have the key. */
  lemma SearchMisses()
    ensures FilesOk(AFTER.levels[2]) && SearchedLevel(AFTER.levels[2], 2.0, 5) == Missing
    ensures forall l :: 0 <= l < NUM_LEVELS && l != 2 ==> AFTER.levels[l] == []
  {
    var files, key := [OUTPUT, BESIDE], SeekKey(2.0, 5);
    assert AFTER.levels[2] == files;
    assert Halved(files, key, 0, 1) == 0;
    assert Halved(files, key, 0, 2) == 0;
    assert FileOk(OUTPUT) && FileOk(BESIDE);
    SeekLookupReads(OUTPUT.entries, 2.0, 5);
  }

  /** A run from the empty database whose last step, a compaction, keeps the value of a user key in the
      files but no lookup finds it any more; up to there the invariant holds, and that step is not clear. */
  lemma CompactionHidesValue() returns (run: seq<State>, steps: seq<Step>)
    ensures IsRun(run, steps) && Init(run[0]) && |steps| == 17 && ClearRun(run, steps, 16)
    ensures run[16] == BEFORE && steps[16] == FinishStep([OUTPUT]) && run[17] == AFTER
    ensures Inv(BEFORE) && !FinishesClear(BEFORE, [OUTPUT]) && !Inv(AFTER)
    ensures Reads(Data(BEFORE), 2.0, 5, Found([5])) && Reads(Data(AFTER), 2.0, 5, Found([5]))
    ensures AFTER.mem == [] && AFTER.imm.None? && forall l :: 0 <= l < NUM_LEVELS && l != 2 ==> AFTER.levels[l] == []
    ensures FilesOk(AFTER.levels[2]) && SearchedLevel(AFTER.levels[2], 2.0, 5) == Missing
  {
    hide Inv, IsRun, ClearRun, Data, Reads, FilesOk, SearchedLevel, FinishesClear;
    run, steps := WholeRun();
    ValueIsThere();
    SearchMisses();
  }

  /** Everything up to the end of the compaction. */
  lemma LeadsThere() returns (run: seq<State>, steps: seq<Step>)
    ensures Leads(EMPTY, run, steps, BEFORE) && |steps| == 16
  {
    var resting, started := Rest(HIGH, LOW, 4, 10, None, PLACED), Rest(HIGH, LOW, 4, 10, Some(JOB), PLACED);
    run, steps := FourFiles();
    Starts();
    hide NextStep, Leads;
    var more, on := OneStep(resting, StartStep(1, HIGH, LOW), started);
    run, steps := LeadsOn(EMPTY, run, steps, resting, more, on, started);
    more, on := FlushedBeside();
    run, steps := LeadsOn(EMPTY, run, steps, started, more, on, BEFORE);
  }

  lemma WholeRun() returns (run: seq<State>, steps: seq<Step>)
    ensures IsRun(run, steps) && Init(run[0]) && |steps| == 17 && ClearRun(run, steps, 16)
    ensures run[16] == BEFORE && steps[16] == FinishStep([OUTPUT]) && run[17] == AFTER
    ensures Inv(BEFORE) && !FinishesClear(BEFORE, [OUTPUT]) && !Inv(AFTER)
  {
    hide Inv, NextStep, ClearRun, FinishesClear;
    var early, before := LeadsThere();
    Finishes();
    run, steps := early + [AFTER], before + [FinishStep([OUTPUT])];
    RunEnds(early, before, FinishStep([OUTPUT]), AFTER);
    assert run[0] == EMPTY && Init(EMPTY);
    ClearRunKeepsInv(run, steps, 16);
    NotClear();
    NextKeepsInv(BEFORE, FinishStep([OUTPUT]), AFTER);
  }

  lemma RunEnds(run: seq<State>, steps: seq<Step>, step: Step, t: State)
    requires |run| > 0 && Leads(run[0], run, steps, run[|run| - 1]) && NextStep(run[|run| - 1], step, t)
    ensures IsRun(run + [t], steps + [step]) && ClearRun(run + [t], steps + [step], |steps|)
  {
    hide NextStep;
    forall i {:trigger (steps + [step])[i]} | 0 <= i < |steps| + 1
      ensures NextStep((run + [t])[i], (steps + [step])[i], (run + [t])[i + 1])
    {
      if i < |steps| {
        assert NextStep(run[i], steps[i], run[i + 1]);
      }
    }
  }

  lemma NotClear()
    ensures !FinishesClear(BEFORE, [OUTPUT])
  {
    var next := BEFORE.levels[2];
    assert BESIDE in next && BESIDE !in LOW && OUTPUT in [OUTPUT] && !Separated(BESIDE, OUTPUT);
  }
}
