/** DBImpl: the mutable database object, each of whose methods is a step of module Database
    (db/db_impl.cc). */
module DbObject {
  import opened Wrappers
  import opened Dbformat
  import opened VersionFiles
  import opened CompactionInputs
  import opened VersionBuilder
  import opened VersionEdits
  import opened LevelChange
  import opened DropRule
  import opened CompactionWork
  import opened Database
  import opened DatabaseSafety
  import opened Manifest
  import opened StepEdits
  import opened DbImpl
  import Gapless
  import SnapshotReads

  /** The version set's fields agree with the state, except for numbers handed out since. */
  ghost predicate Agrees(s: State, now: Fields, logNumber: nat) {
    && now.levels == s.levels && now.lastSequence == s.lastSequence && s.nextFile <= now.nextFile
    && now.logNumber <= logNumber < now.nextFile && now.prevLogNumber < now.nextFile && |now.pointers| == NUM_LEVELS
  }

  function Singleton(file: Option<File>, level: nat): set<(nat, nat)> {
    if file.Some? then {(level, file.value.number)} else {}
  }

  /** The state once a flush has been installed. */
  ghost function Flushed(s: State, level: nat, file: Option<File>, now: Fields, edit: VersionEdit): State
    requires SortedLevels(now.levels)
  {
    s.(imm := None, levels := After(now, edit).levels, nextFile := now.nextFile, placed := s.placed + Singleton(file, level))
  }

  /** What installs a memtable: a new table for a memtable with entries, nothing otherwise. */
  ghost predicate FlushFits(s: State, level: nat, file: Option<File>) {
    && s.imm.Some? && level < NUM_LEVELS
    && if file.None? then s.imm.value == []
       else s.imm.value != [] && IsTable(file.value, s.nextFile, s.imm.value)
            && MayPlace(s.levels, level, file.value.smallest.user, file.value.largest.user)
  }

  lemma FlushApplies(s: State, level: nat, file: Option<File>, logNumber: nat, now: Fields,
                     manifest: Option<seq<VersionEdit>>, comparator: Bytes)
    requires Inv(s) && FlushFits(s, level, file) && Covers(s.placed, manifest)
    requires Agrees(s, now, logNumber) && now.nextFile == s.nextFile + 1
    ensures Applicable(comparator, now, manifest, FlushEdit(level, file, logNumber))
  {
    var edit := FlushEdit(level, file, logNumber);
    assert NewPairs(edit, s.placed) by {
      if file.Some? { FlushIsNew(s, level, file.value, logNumber); }
    }
    NewPairsAreFresh(s, edit, manifest);
  }

  lemma CompletedInstalls(levels: Levels, edit: VersionEdit, now: Fields)
    requires SortedLevels(levels)
    ensures Install(levels, Completed(edit, now)) == Install(levels, edit)
  {
    forall l | 0 <= l < NUM_LEVELS
      ensures Install(levels, Completed(edit, now))[l] == Install(levels, edit)[l]
    {
    }
  }

  lemma TableFlushIsStep(s: State, level: nat, file: File, logNumber: nat, now: Fields)
    requires SortedLevels(s.levels) && NumbersOk(s) && FlushFits(s, level, Some(file)) && Agrees(s, now, logNumber) && now.nextFile == s.nextFile + 1
    ensures Flush(s, level, file, Flushed(s, level, Some(file), now, FlushEdit(level, Some(file), logNumber)))
  {
    CompletedInstalls(s.levels, FlushEdit(level, Some(file), logNumber), now);
    assert forall g :: g in s.levels[level] ==> (level, g.number) in s.placed;
    FlushInstalls(s.levels, level, file, logNumber);
  }

  lemma EmptyFlushIsStep(s: State, level: nat, file: File, logNumber: nat, now: Fields)
    requires SortedLevels(s.levels) && NumbersOk(s) && FlushFits(s, level, None) && Agrees(s, now, logNumber) && now.nextFile == s.nextFile + 1
    ensures Flush(s, level, file, Flushed(s, level, None, now, FlushEdit(level, None, logNumber)))
  {
    CompletedInstalls(s.levels, FlushEdit(level, None, logNumber), now);
    EmptyFlushInstalls(s.levels, level, logNumber);
  }

  lemma FlushCovers(s: State, level: nat, file: Option<File>, logNumber: nat, now: Fields,
                    manifest: Option<seq<VersionEdit>>, comparator: Bytes)
    requires Inv(s) && FlushFits(s, level, file) && Covers(s.placed, manifest)
    requires Agrees(s, now, logNumber)
    ensures Covers(s.placed + Singleton(file, level), Some(Written(comparator, now, manifest, FlushEdit(level, file, logNumber))))
  {
    StillCovers(s, FlushEdit(level, file, logNumber), now, manifest, comparator, s.placed + Singleton(file, level));
  }

  /** WriteLevel0Table: the table of a memtable with entries, and the level it may go to. */
  method WriteLevel0Table(es: seq<Entry>, number: nat, levels: Levels, maxGrandParentOverlap: nat, ghost s: State)
    returns (level: nat, file: Option<File>)
    requires GoodLevels(levels) && s.levels == levels && s.imm == Some(es) && number == s.nextFile
    ensures FlushFits(s, level, file)
  {
    level, file := 0, None;
    if es != [] {
      var f := BuildTable(number, es);
      level := PickLevelForMemTableOutput(levels, f.smallest.user, f.largest.user, maxGrandParentOverlap);
      file := Some(f);
    }
  }

  /** A flush that fits may be logged, is a step, and keeps everything the database relies on. */
  lemma FlushWorks(s: State, level: nat, file: Option<File>, logNumber: nat, now: Fields,
                   manifest: Option<seq<VersionEdit>>, comparator: Bytes)
    returns (step: Step)
    requires Inv(s) && FlushFits(s, level, file) && Covers(s.placed, manifest)
    requires Agrees(s, now, logNumber) && now.nextFile == s.nextFile + 1
    ensures Applicable(comparator, now, manifest, FlushEdit(level, file, logNumber))
    ensures Covers(s.placed + Singleton(file, level), Some(Written(comparator, now, manifest, FlushEdit(level, file, logNumber))))
    ensures
      var s' := Flushed(s, level, file, now, FlushEdit(level, file, logNumber));
      Inv(s') && step.FlushStep? && NextStep(s, step, s')
  {
    FlushApplies(s, level, file, logNumber, now, manifest, comparator);
    FlushCovers(s, level, file, logNumber, now, manifest, comparator);
    var f := if file.Some? then file.value else File(0, 0, InternalKey(0.0, 0, Value), InternalKey(0.0, 0, Value), []);
    if file.Some? {
      TableFlushIsStep(s, level, f, logNumber, now);
    } else {
      EmptyFlushIsStep(s, level, f, logNumber, now);
    }
    step := FlushStep(level, f);
    FlushKeepsInv(s, level, f, Flushed(s, level, file, now, FlushEdit(level, file, logNumber)));
  }

  // ---------- Compactions ----------

  ghost predicate CompactionFits(s: State, level: nat, inputs0: seq<File>, inputs1: seq<File>, outs: seq<File>, nextFile: nat) {
    && level + 1 < NUM_LEVELS && |s.levels| == NUM_LEVELS
    && (forall h :: h in inputs0 ==> h in s.levels[level]) && (forall h :: h in inputs1 ==> h in s.levels[level + 1])
    && OutputNumbersOk(s, inputs0, outs, nextFile) && s.nextFile <= nextFile
  }

  lemma CompactionApplies(s: State, level: nat, inputs0: seq<File>, inputs1: seq<File>, outs: seq<File>, pointer: InternalKey,
                          now: Fields, manifest: Option<seq<VersionEdit>>, comparator: Bytes)
    requires NumbersOk(s) && CompactionFits(s, level, inputs0, inputs1, outs, now.nextFile) && Covers(s.placed, manifest)
    requires now.levels == s.levels
    ensures Applicable(comparator, now, manifest, CompactionEdit(level, inputs0, inputs1, outs, pointer))
  {
    CompactionIsNew(s, level, inputs0, inputs1, outs, pointer, now.nextFile);
    NewPairsAreFresh(s, CompactionEdit(level, inputs0, inputs1, outs, pointer), manifest);
    CompactionNumbersBelow(s, level, inputs0, inputs1, outs, pointer, now.nextFile);
  }

  lemma CompactionReplaces(s: State, level: nat, inputs0: seq<File>, inputs1: seq<File>, outs: seq<File>, pointer: InternalKey, now: Fields)
    requires NumbersOk(s) && SortedLevels(s.levels) && CompactionFits(s, level, inputs0, inputs1, outs, now.nextFile)
    requires now.levels == s.levels
    ensures Replaced(s.levels, level, inputs0, inputs1, outs,
                     After(now, CompactionEdit(level, inputs0, inputs1, outs, pointer)).levels)
  {
    var edit := CompactionEdit(level, inputs0, inputs1, outs, pointer);
    CompactionIsNew(s, level, inputs0, inputs1, outs, pointer, now.nextFile);
    NewPairsAreFresh(s, edit, None);
    CompactionInstalls(s.levels, level, inputs0, inputs1, outs, pointer);
    CompletedInstalls(s.levels, edit, now);
  }

  lemma CompactionCovers(s: State, level: nat, inputs0: seq<File>, inputs1: seq<File>, outs: seq<File>, pointer: InternalKey,
                         now: Fields, manifest: Option<seq<VersionEdit>>, comparator: Bytes)
    requires NumbersOk(s) && |s.levels| == |now.pointers| == NUM_LEVELS && Covers(s.placed, manifest) && now.levels == s.levels
    ensures Covers(s.placed + PlacedIn(level + 1, outs),
                   Some(Written(comparator, now, manifest, CompactionEdit(level, inputs0, inputs1, outs, pointer))))
  {
    CompactionAdds(level, inputs0, inputs1, outs, pointer);
    StillCovers(s, CompactionEdit(level, inputs0, inputs1, outs, pointer), now, manifest, comparator,
                s.placed + PlacedIn(level + 1, outs));
  }

  lemma CompactionNumbersBelow(s: State, level: nat, inputs0: seq<File>, inputs1: seq<File>, outs: seq<File>,
                               pointer: InternalKey, nextFile: nat)
    requires NumbersOk(s) && CompactionFits(s, level, inputs0, inputs1, outs, nextFile)
    ensures NumbersBelow(CompactionEdit(level, inputs0, inputs1, outs, pointer), nextFile)
  {
    forall p | p in CompactionEdit(level, inputs0, inputs1, outs, pointer).newFiles
      ensures p.1.number < nextFile
    {
      assert p.1 in outs;
      if p.1 in inputs0 {
        assert (level, p.1.number) in s.placed;
      }
    }
  }

  /** The state once a compaction or a trivial move has been installed. */
  ghost function Exchanged(s: State, level: nat, inputs0: seq<File>, inputs1: seq<File>, outs: seq<File>, pointer: InternalKey,
                           now: Fields): State
    requires SortedLevels(now.levels)
  {
    s.(levels := After(now, CompactionEdit(level, inputs0, inputs1, outs, pointer)).levels, nextFile := now.nextFile, job := None,
       placed := s.placed + PlacedIn(level + 1, outs))
  }

  lemma MoveIsStep(s: State, level: nat, file: File, pointer: InternalKey, now: Fields)
    requires Inv(s) && MayStart(s, level, [file], []) && now.levels == s.levels && now.nextFile == s.nextFile
    ensures Inv(Exchanged(s, level, [file], [], [file], pointer, now))
    ensures NextStep(s, MoveStep(level, file), Exchanged(s, level, [file], [], [file], pointer, now))
  {
    MoveFits(s, level, file, now.nextFile);
    CompactionReplaces(s, level, [file], [], [file], pointer, now);
    PlacedOne(level + 1, file);
    MoveKeepsInv(s, level, file, Exchanged(s, level, [file], [], [file], pointer, now));
  }

  lemma PlacedOne(level: nat, file: File)
    ensures PlacedIn(level, [file]) == {(level, file.number)}
  {
    assert file in [file];
  }

  lemma MoveFits(s: State, level: nat, file: File, nextFile: nat)
    requires MayStart(s, level, [file], []) && s.nextFile <= nextFile
    ensures CompactionFits(s, level, [file], [], [file], nextFile)
  {
    assert file in [file];
  }

  lemma FilesHaveBounds(s: State, level: nat)
    requires Inv(s) && level + 1 < NUM_LEVELS
    ensures BoundsOk(s.levels[level]) && BoundsOk(s.levels[level + 1]) && (level > 0 ==> Disjoint(s.levels[level]))
    ensures level + 2 < NUM_LEVELS ==> BoundsOk(s.levels[level + 2])
    ensures Distinct(s.levels[level]) && Distinct(s.levels[level + 1])
  {
    AllBoundsOrdered(s.levels[level]);
    AllBoundsOrdered(s.levels[level + 1]);
    if level + 2 < NUM_LEVELS { AllBoundsOrdered(s.levels[level + 2]); }
    DistinctIsNoDuplicates(s.levels[level]);
    DistinctIsNoDuplicates(s.levels[level + 1]);
  }

  /** `key` is the largest key of the files. */
  ghost predicate EndsAt(files: seq<File>, key: InternalKey) {
    (exists f :: f in files && f.largest == key) && forall f :: f in files ==> f.largest.AtMost(key)
  }

  /** `size` is how many bytes the files of the level after next have that lie in the range of `files`. */
  ghost predicate IsGrandParentOverlap(levels: Levels, level: nat, files: seq<File>, size: nat) {
    if level + 2 < |levels| then
      forall s, l :: IsRange(files, s, l) ==>
        size == TotalFileSize(OverlappingFiles(levels[level + 2], Some(s.user), Some(l.user)))
    else size == 0
  }

  /** Two ranges of the same files have the same ends. */
  lemma RangeIsUnique(files: seq<File>, s: InternalKey, l: InternalKey, s': InternalKey, l': InternalKey)
    requires IsRange(files, s, l) && IsRange(files, s', l')
    ensures s == s' && l == l'
  {
    CompareIsTotalOrder(s, s');
    CompareIsTotalOrder(l, l');
  }

  /** What a single file overlaps. */
  lemma OneFileOverlap(levels: Levels, level: nat, file: File, size: nat)
    requires IsGrandParentOverlap(levels, level, [file] + [], size) && level + 2 < |levels|
    ensures size == TotalFileSize(OverlappingFiles(levels[level + 2], Some(file.smallest.user), Some(file.largest.user)))
  {
    assert file in [file] + [];
    assert IsRange([file] + [], file.smallest, file.largest);
  }

  /** Compaction::IsTrivialMove: a single file, none of the next level, and not too much to merge with below that. */
  ghost predicate IsTrivialMove(levels: Levels, level: nat, inputs0: seq<File>, inputs1: seq<File>, maxGrandParentOverlap: nat) {
    && |inputs0| == 1 && inputs1 == []
    && (level + 2 < |levels| ==>
          TotalFileSize(OverlappingFiles(levels[level + 2], Some(inputs0[0].smallest.user), Some(inputs0[0].largest.user)))
          <= maxGrandParentOverlap)
  }

  lemma OverlapDecides(levels: Levels, level: nat, inputs0: seq<File>, inputs1: seq<File>, overlap: nat, maxGrandParentOverlap: nat)
    requires IsGrandParentOverlap(levels, level, inputs0 + inputs1, overlap)
    ensures IsTrivialMove(levels, level, inputs0, inputs1, maxGrandParentOverlap)
      <==> |inputs0| == 1 && |inputs1| == 0 && overlap <= maxGrandParentOverlap
  {
    if |inputs0| == 1 && |inputs1| == 0 && level + 2 < |levels| {
      assert inputs0 == [inputs0[0]] && inputs1 == [];
      OneFileOverlap(levels, level, inputs0[0], overlap);
    }
  }

  lemma SetupCompletes(files: seq<File>, next: seq<File>, level: nat, start: seq<File>, expandedLimit: nat,
                       inputs0: seq<File>, inputs1: seq<File>, base0: seq<File>, expanded0: seq<File>)
    requires WithBoundary(files, start, base0) && GoodInputs(files, next, level, base0, inputs1)
    requires inputs1 != [] ==> IsExpansion(files, level, base0, inputs1, expanded0)
    requires inputs0 == if inputs1 != [] && Acceptable(next, base0, inputs1, expanded0, expandedLimit) then expanded0 else base0
    ensures Completes(files, next, level, start, expandedLimit, inputs0, inputs1)
  {
    assert CompletesBy(files, next, level, start, expandedLimit, inputs0, inputs1, base0, expanded0);
  }

  lemma RangeEnds(files: seq<File>, smallest: InternalKey, largest: InternalKey)
    requires IsRange(files, smallest, largest)
    ensures EndsAt(files, largest)
  {
  }

  /** The edit of a compaction, or of a move, moves the pointer of its level and no other. */
  lemma PointerMoves(level: nat, inputs0: seq<File>, inputs1: seq<File>, outs: seq<File>, pointer: InternalKey, now: Fields)
    requires SortedLevels(now.levels) && level < |now.pointers|
    ensures
      var after := After(now, CompactionEdit(level, inputs0, inputs1, outs, pointer));
      after == now.(levels := after.levels, pointers := now.pointers[level := Some(pointer)])
  {
    hide Install;
    var changes := [(level, pointer)];
    assert changes[1..] == [];
    assert ApplyPointers(now.pointers, changes) == now.pointers[level := Some(pointer)];
  }

  /** The inputs of a compaction, and how much of the level after next they overlap. */
  method SetupInputs(levels: Levels, level: nat, start: seq<File>, expandedLimit: nat, ghost s: State)
    returns (inputs0: seq<File>, inputs1: seq<File>, largest: InternalKey, overlap: nat)
    requires Inv(s) && s.levels == levels && s.job.None? && level + 1 < NUM_LEVELS
    requires StartInputs(levels[level], level, start)
    ensures MayStart(s, level, inputs0, inputs1) && Distinct(inputs0) && Distinct(inputs1)
    ensures Gapless.IsGapless(start) ==> Gapless.IsGapless(inputs0 + inputs1)
    ensures Completes(levels[level], levels[level + 1], level, start, expandedLimit, inputs0, inputs1)
    ensures EndsAt(inputs0, largest) && IsGrandParentOverlap(levels, level, inputs0 + inputs1, overlap)
  {
    hide Completes, EndsAt, IsGrandParentOverlap, WithBoundary, IsExpansion, Acceptable;
    ghost var base0, expanded0;
    var smallest;
    FilesHaveBounds(s, level);
    inputs0, inputs1, smallest, largest, base0, expanded0 :=
      SetupOtherInputs(levels[level], levels[level + 1], level, start, expandedLimit);
    SetupCompletes(levels[level], levels[level + 1], level, start, expandedLimit, inputs0, inputs1, base0, expanded0);
    RangeEnds(inputs0, smallest, largest);
    if Gapless.IsGapless(start) {
      Gapless.SetupIsGapless(levels[level], levels[level + 1], level, start, inputs0, inputs1, base0, expanded0);
    }
    overlap := GrandParentOverlap(levels, level, inputs0, inputs1);
  }

  /** How many bytes of the level after next the whole compaction overlaps. */
  method GrandParentOverlap(levels: Levels, level: nat, inputs0: seq<File>, inputs1: seq<File>) returns (size: nat)
    requires |levels| == NUM_LEVELS && level + 1 < NUM_LEVELS && inputs0 != []
    requires level + 2 < NUM_LEVELS ==> BoundsOk(levels[level + 2])
    ensures IsGrandParentOverlap(levels, level, inputs0 + inputs1, size)
  {
    size := 0;
    if level + 2 < NUM_LEVELS {
      var allStart, allLimit := GetRange(inputs0 + inputs1);
      var grandparents := GetOverlappingInputs(levels[level + 2], false, Some(allStart.user), Some(allLimit.user));
      size := TotalFileSize(grandparents);
      forall s, l | IsRange(inputs0 + inputs1, s, l)
        ensures s == allStart && l == allLimit
      {
        RangeIsUnique(inputs0 + inputs1, s, l, allStart, allLimit);
      }
    }
  }

  /** The entries of a job's inputs, merged in order, go through the compaction loop, which asks the version
      that the compaction was started in about deeper levels. */
  method CompactRuns(j: Job, stopBefore: nat -> bool, full: nat -> bool, ghost s: State)
    returns (runs: seq<seq<Entry>>)
    requires Inv(s) && s.job == Some(j) && Distinct(j.inputs0) && Distinct(j.inputs1)
    ensures (forall run :: run in runs ==> run != []) && Sorted(Concat(runs))
    ensures Elements(Concat(runs)) == Kept(JobEntries(j), j.smallest, BaseOf(j.version, j.level))
  {
    JobMerges(s, j);
    var input := MergedRuns(RunsOf(j.inputs0 + j.inputs1));
    LevelsHaveBounds(j.version);
    var c := new Compaction(j.version, j.level);
    runs := DoCompactionWork(c, input, j.smallest, seq(|input|, stopBefore), seq(|input|, full));
  }

  lemma LevelsHaveBounds(levels: Levels)
    requires GoodLevels(levels)
    ensures forall l :: 1 <= l < NUM_LEVELS ==> BoundsOk(levels[l]) && Disjoint(levels[l])
  {
    forall l | 1 <= l < NUM_LEVELS
      ensures BoundsOk(levels[l])
    {
      AllBoundsOrdered(levels[l]);
    }
  }

  /** The inputs of a job are different files, so their entries merge into one sorted run. */
  lemma JobMerges(s: State, j: Job)
    requires Inv(s) && JobFits(s, j) && Distinct(j.inputs0) && Distinct(j.inputs1)
    ensures Mergeable(RunsOf(j.inputs0 + j.inputs1))
    ensures Elements(MergedRuns(RunsOf(j.inputs0 + j.inputs1))) == JobEntries(j)
  {
    GoodIsApart(s.levels);
    JobFilesApart(s, j);
    ApartIsMergeable(j.inputs0 + j.inputs1);
    MergedIsAll(j);
  }

  lemma MergedIsAll(j: Job)
    requires Mergeable(RunsOf(j.inputs0 + j.inputs1))
    ensures Elements(MergedRuns(RunsOf(j.inputs0 + j.inputs1))) == JobEntries(j)
  {
    var files := j.inputs0 + j.inputs1;
    forall x
      ensures x in MergedRuns(RunsOf(files)) <==> x in JobEntries(j)
    {
      assert x in JobEntries(j) <==> exists f :: f in files && x in f.entries;
    }
  }

  lemma JobFilesApart(s: State, j: Job)
    requires NumbersOk(s) && FilesApart(s.levels) && FilesSorted(s.levels)
    requires JobFits(s, j) && Distinct(j.inputs0) && Distinct(j.inputs1)
    ensures Distinct(j.inputs0 + j.inputs1)
    ensures forall f :: f in j.inputs0 + j.inputs1 ==> Sorted(f.entries)
    ensures forall f, g :: f in j.inputs0 + j.inputs1 && g in j.inputs0 + j.inputs1 && f != g ==> Apart(f, g)
  {
    forall f, g | f in j.inputs0 + j.inputs1 && g in j.inputs0 + j.inputs1
      ensures f != g ==> Apart(f, g)
      ensures f in j.inputs0 && g in j.inputs1 ==> f != g
    {
      assert f in s.levels[j.level] || f in s.levels[j.level + 1];
      assert g in s.levels[j.level] || g in s.levels[j.level + 1];
    }
    DistinctAppend(j.inputs0, j.inputs1);
    forall f | f in j.inputs0 + j.inputs1
      ensures Sorted(f.entries)
    {
      assert f in s.levels[j.level] || f in s.levels[j.level + 1];
    }
  }

  lemma {:induction false} DistinctAppend(a: seq<File>, b: seq<File>)
    requires Distinct(a) && Distinct(b) && forall f, g :: f in a && g in b ==> f != g
    ensures Distinct(a + b)
  {
    if a == [] {
      assert a + b == b;
    } else {
      assert a == [a[0]] + a[1..] && (a + b)[1..] == a[1..] + b;
      assert a[0] in a && forall f :: f in a[1..] ==> f in a;
      DistinctAppend(a[1..], b);
    }
  }

  /** The tables made of the runs are the outputs that the job may be finished with. */
  lemma OutputsFit(s: State, j: Job, runs: seq<seq<Entry>>, outs: seq<File>, nextFile: nat)
    requires Inv(s) && s.job == Some(j)
    requires Sorted(Concat(runs)) && Elements(Concat(runs)) == Kept(JobEntries(j), j.smallest, BaseOf(j.version, j.level))
    requires AreTables(outs, s.nextFile, runs) && nextFile == s.nextFile + |runs|
    ensures JobOutputs(s, j, outs, nextFile)
    ensures CompactionFits(s, j.level, j.inputs0, j.inputs1, outs, nextFile)
  {
    KeptInRange(s, j, Concat(runs));
    OutputsAreFiles(s, j, runs, outs, nextFile);
    InputsInLevels(s, j);
  }

  lemma OutputsAreFiles(s: State, j: Job, runs: seq<seq<Entry>>, outs: seq<File>, nextFile: nat)
    requires |s.levels| == NUM_LEVELS && j.level + 1 < NUM_LEVELS
    requires Sorted(Concat(runs)) && Elements(Concat(runs)) == Kept(JobEntries(j), j.smallest, BaseOf(j.version, j.level))
    requires forall x :: x in Concat(runs) ==> x.key.seqno <= MAX_SEQUENCE
    requires AreTables(outs, s.nextFile, runs) && nextFile == s.nextFile + |runs|
    ensures JobOutputs(s, j, outs, nextFile) && OutputNumbersOk(s, j.inputs0, outs, nextFile)
  {
    TablesAreFiles(outs, s.nextFile, runs);
    OutputNumbers(s, outs, runs, nextFile, j);
  }

  lemma InputsInLevels(s: State, j: Job)
    requires Inv(s) && s.job == Some(j)
    ensures j.level + 1 < NUM_LEVELS && |s.levels| == NUM_LEVELS
    ensures forall h :: h in j.inputs0 ==> h in s.levels[j.level]
    ensures forall h :: h in j.inputs1 ==> h in s.levels[j.level + 1]
  {
  }

  lemma KeptInRange(s: State, j: Job, kept: seq<Entry>)
    requires Inv(s) && s.job == Some(j) && Elements(kept) <= JobEntries(j)
    ensures forall x :: x in kept ==> x.key.seqno <= MAX_SEQUENCE
  {
    SnapshotReads.JobEntriesInFiles(s, j);
    forall x | x in kept
      ensures x.key.seqno <= MAX_SEQUENCE
    {
      assert x in Elements(kept) && x in Data(s);
    }
  }

  lemma FinishIsStep(s: State, j: Job, outs: seq<File>, pointer: InternalKey, now: Fields)
    requires NumbersOk(s) && SortedLevels(s.levels) && s.job == Some(j) && now.levels == s.levels
    requires JobOutputs(s, j, outs, now.nextFile) && CompactionFits(s, j.level, j.inputs0, j.inputs1, outs, now.nextFile)
    ensures Database.FinishCompaction(s, outs, Exchanged(s, j.level, j.inputs0, j.inputs1, outs, pointer, now))
  {
    CompactionReplaces(s, j.level, j.inputs0, j.inputs1, outs, pointer, now);
  }

  lemma FinishWorks(s: State, j: Job, runs: seq<seq<Entry>>, outs: seq<File>, pointer: InternalKey, now: Fields)
    requires Inv(s) && s.job == Some(j) && now.levels == s.levels
    requires Sorted(Concat(runs)) && Elements(Concat(runs)) == Kept(JobEntries(j), j.smallest, BaseOf(j.version, j.level))
    requires AreTables(outs, s.nextFile, runs) && now.nextFile == s.nextFile + |runs|
    ensures CompactionFits(s, j.level, j.inputs0, j.inputs1, outs, now.nextFile)
    ensures Inv(Exchanged(s, j.level, j.inputs0, j.inputs1, outs, pointer, now)) <==> FinishesClear(s, outs)
    ensures NextStep(s, FinishStep(outs), Exchanged(s, j.level, j.inputs0, j.inputs1, outs, pointer, now))
  {
    OutputsFit(s, j, runs, outs, now.nextFile);
    FinishInstalls(s, j, outs, pointer, now);
  }

  lemma FinishInstalls(s: State, j: Job, outs: seq<File>, pointer: InternalKey, now: Fields)
    requires Inv(s) && s.job == Some(j) && now.levels == s.levels
    requires JobOutputs(s, j, outs, now.nextFile) && CompactionFits(s, j.level, j.inputs0, j.inputs1, outs, now.nextFile)
    ensures Inv(Exchanged(s, j.level, j.inputs0, j.inputs1, outs, pointer, now)) <==> FinishesClear(s, outs)
    ensures NextStep(s, FinishStep(outs), Exchanged(s, j.level, j.inputs0, j.inputs1, outs, pointer, now))
  {
    FinishIsStep(s, j, outs, pointer, now);
    FinishKeepsInvIff(s, outs, Exchanged(s, j.level, j.inputs0, j.inputs1, outs, pointer, now));
  }

  lemma OutputNumbers(s: State, outs: seq<File>, runs: seq<seq<Entry>>, nextFile: nat, j: Job)
    requires AreTables(outs, s.nextFile, runs) && nextFile == s.nextFile + |runs|
    ensures forall i, k :: 0 <= i < k < |outs| ==> outs[i].number != outs[k].number
    ensures forall o :: o in outs ==> s.nextFile <= o.number < nextFile
    ensures OutputNumbersOk(s, j.inputs0, outs, nextFile)
  {
    forall i | 0 <= i < |outs|
      ensures outs[i].number == s.nextFile + i
    {
      assert IsTable(outs[i], s.nextFile + i, runs[i]);
    }
  }

  class DBImpl {
    const versions: VersionSet
    var mem: seq<Entry>
    var imm: Option<seq<Entry>>
    var logfileNumber: nat
    var snapshots: seq<nat>
    /** The compaction under way, with the key that its level's pointer moved to. */
    var job: Option<Job>
    var jobPointer: InternalKey
    ghost var placed: set<(nat, nat)>

    ghost function State(): State
      reads this, versions
    {
      Database.State(mem, imm, versions.current, versions.lastSequence, versions.nextFileNumber, snapshots, job, placed)
    }

    ghost predicate Valid()
      reads this, versions
    {
      && versions.Valid() && Inv(State())
      && Covers(placed, versions.manifest)
      && versions.logNumber <= logfileNumber < versions.nextFileNumber
      && (job.Some? ==> Distinct(job.value.inputs0) && Distinct(job.value.inputs1))
    }

    /** A new database: an empty version set and an empty log. */
    constructor (v: VersionSet, logNumber: nat)
      requires v.Valid() && v.manifest.None? && v.Now() == Fields(NO_FILES, NO_POINTERS, 0, 0, 0, 2) && logNumber < 2
      ensures Valid() && versions == v && Init(State())
    {
      versions, mem, imm, logfileNumber, snapshots, job, placed := v, [], None, logNumber, [], None, {};
      jobPointer := InternalKey(0.0, 0, Value);
      new;
      assert NO_FILES == EMPTY_LEVELS;
      InitInv(State());
    }

    /** DBImpl::Get answers with the newest entry visible at the snapshot, or at the last sequence
        number if none is given. */
    method Get(user: UserKey, snapshot: Option<nat>) returns (answer: Option<Bytes>)
      requires Valid()
      ensures exists r ::
        Reads(Data(State()), user, if snapshot.Some? then snapshot.value else versions.lastSequence, r) && answer == r.Answer()
    {
      var r := LookupAll(mem, imm, versions.current, user,
                      if snapshot.Some? then snapshot.value else versions.lastSequence, State());
      answer := r.Answer();
    }

    /** The memtable part of Write: the batch goes in and becomes visible at once. */
    method Write(batch: seq<Update>)
      requires Valid() && versions.lastSequence + |batch| < MAX_SEQUENCE
      modifies this`mem, versions`lastSequence
      ensures Valid() && NextStep(old(State()), WriteStep(batch), State())
    {
      ghost var s := State();
      MemIsOld(s);
      mem := InsertInto(mem, batch, versions.lastSequence + 1);
      versions.SetLastSequence(versions.lastSequence + |batch|);
      assert Database.Write(s, batch, State());
      WriteKeepsInv(s, batch, State());
    }

    /** The last branch of MakeRoomForWrite: a new log, and the full memtable becomes immutable. */
    method SwitchMemTable()
      requires Valid() && imm.None?
      modifies this`mem, this`imm, this`logfileNumber, versions`nextFileNumber
      ensures Valid() && NextStep(old(State()), SwitchStep, State())
    {
      ghost var s := State();
      logfileNumber := versions.NewFileNumber();
      imm := Some(mem);
      mem := [];
      SwitchKeepsInv(s, State());
    }

    /** CompactMemTable, also from within the compaction loop: the immutable memtable becomes a table in
        the level that PickLevelForMemTableOutput chooses. */
    method CompactMemTable(maxGrandParentOverlap: nat) returns (ghost step: Step)
      requires Valid() && imm.Some?
      modifies this`imm, this`placed, versions
      ensures Valid() && step.FlushStep? && NextStep(old(State()), step, State())
      ensures old(JobUntouched(State())) && !FlushesIntoGap(old(State()), step) ==> JobUntouched(State())
    {
      ghost var s := State();
      var number := versions.NewFileNumber();
      var level, file := WriteLevel0Table(imm.value, number, versions.current, maxGrandParentOverlap, s);
      step := InstallFlush(level, file, s);
      if JobUntouched(s) && !FlushesIntoGap(s, step) {
        StaysUntouched(s, step, State());
      }
    }

    /** The rest of CompactMemTable: `s` is the state before the table's number was handed out. */
    method InstallFlush(level: nat, file: Option<File>, ghost s: State) returns (ghost step: Step)
      requires versions.Valid() && State() == s.(nextFile := s.nextFile + 1)
      requires Inv(s) && FlushFits(s, level, file) && Covers(s.placed, versions.manifest)
      requires Agrees(s, versions.Now(), logfileNumber)
      modifies this`imm, this`placed, versions
      ensures versions.Valid() && Inv(State()) && Covers(placed, versions.manifest)
      ensures versions.logNumber <= logfileNumber < versions.nextFileNumber
      ensures step.FlushStep? && NextStep(s, step, State())
    {
      hide Inv, Restores, Accounts;
      ghost var now := versions.Now();
      step := FlushWorks(s, level, file, logfileNumber, now, versions.manifest, versions.comparator);
      versions.LogAndApply(FlushEdit(level, file, logfileNumber));
      imm := None;
      placed := placed + Singleton(file, level);
      assert State() == Flushed(s, level, file, now, FlushEdit(level, file, logfileNumber));
    }

    /** BackgroundCompaction once its first inputs have been picked: a single file without overlap
        below moves down, unless the compaction is manual; otherwise the compaction starts. */
    method BackgroundCompaction(level: nat, start: seq<File>, manual: bool, expandedLimit: nat, maxGrandParentOverlap: nat)
      returns (ghost step: Step, ghost inputs0: seq<File>, ghost inputs1: seq<File>)
      requires Valid() && imm.None? && job.None? && level + 1 < NUM_LEVELS
      requires StartInputs(versions.current[level], level, start)
      modifies this`job, this`jobPointer, this`placed, versions
      ensures Valid() && (step.MoveStep? || step.StartStep?) && NextStep(old(State()), step, State())
      ensures JobUntouched(State())
      ensures step.StartStep? && Gapless.IsGapless(start) ==> Gapless.IsGapless(step.inputs0 + step.inputs1)
      ensures old(Completes(versions.current[level], versions.current[level + 1], level, start, expandedLimit, inputs0, inputs1))
      ensures step.MoveStep? <==> !manual && IsTrivialMove(old(versions.current), level, inputs0, inputs1, maxGrandParentOverlap)
      ensures if step.MoveStep? then inputs0 == [step.file] && step.level == level else step == StartStep(level, inputs0, inputs1)
      ensures exists largest :: EndsAt(inputs0, largest) && versions.pointers == old(versions.pointers)[level := Some(largest)]
                                && (step.StartStep? ==> jobPointer == largest)
    {
      hide Inv, Restores, Accounts, GoodInputs, NextStep, Completes, EndsAt, IsGrandParentOverlap;
      ghost var s := State();
      var first, second, largest, overlap := SetupInputs(versions.current, level, start, expandedLimit, s);
      inputs0, inputs1 := first, second;
      if !manual && |first| == 1 && |second| == 0 && overlap <= maxGrandParentOverlap {
        assert first == [first[0]] && second == [];
        MoveFile(level, first[0], largest);
        step := MoveStep(level, first[0]);
      } else {
        StartCompaction(level, first, second, largest);
        step := StartStep(level, first, second);
      }
      OverlapDecides(s.levels, level, first, second, overlap, maxGrandParentOverlap);
      StaysUntouched(s, step, State());
    }

    /** BackgroundCompaction without a request: VersionSet picks the file to start from, the one with too many
        seeks if `sought` says which and otherwise the next one of the level, so that the inputs leave no gap
        that a memtable could be flushed into. */
    method AutomaticCompaction(level: nat, sought: Option<nat>, expandedLimit: nat, maxGrandParentOverlap: nat)
      returns (ghost step: Step, ghost i: nat, ghost start: seq<File>, ghost inputs0: seq<File>, ghost inputs1: seq<File>)
      requires Valid() && imm.None? && job.None? && level + 1 < NUM_LEVELS && versions.current[level] != []
      requires sought.Some? ==> sought.value < |versions.current[level]|
      modifies this`job, this`jobPointer, this`placed, versions
      ensures Valid() && (step.MoveStep? || step.StartStep?) && NextStep(old(State()), step, State())
      ensures step.StartStep? ==> Gapless.IsGapless(step.inputs0 + step.inputs1)
      ensures if sought.Some? then i == sought.value else old(IsNextToCompact(versions.current[level], versions.pointers[level], i))
      ensures i < |old(versions.current)[level]| && old(StartsFrom(versions.current[level], level, versions.current[level][i], start))
      ensures old(Completes(versions.current[level], versions.current[level + 1], level, start, expandedLimit, inputs0, inputs1))
      ensures step.MoveStep? <==> IsTrivialMove(old(versions.current), level, inputs0, inputs1, maxGrandParentOverlap)
      ensures if step.MoveStep? then inputs0 == [step.file] && step.level == level else step == StartStep(level, inputs0, inputs1)
      ensures exists largest :: EndsAt(inputs0, largest) && versions.pointers == old(versions.pointers)[level := Some(largest)]
                                && (step.StartStep? ==> jobPointer == largest)
    {
      hide Inv, NextStep, Restores, Accounts, Completes, EndsAt, IsTrivialMove;
      var files := versions.current[level];
      FilesHaveBounds(State(), level);
      var picked;
      if sought.Some? {
        i := sought.value;
        picked := PickFile(files, level, sought.value);
      } else {
        picked := PickCompaction(files, level, versions.pointers[level]);
        i :| IsNextToCompact(files, versions.pointers[level], i) && StartsFrom(files, level, files[i], picked);
      }
      start := picked;
      Gapless.PickedIsGapless(files, level, files[i], start);
      step, inputs0, inputs1 := BackgroundCompaction(level, picked, false, expandedLimit, maxGrandParentOverlap);
    }

    method MoveFile(level: nat, file: File, pointer: InternalKey)
      requires Valid() && MayStart(State(), level, [file], [])
      modifies this`job, this`placed, versions
      ensures Valid() && NextStep(old(State()), MoveStep(level, file), State())
      ensures versions.pointers == old(versions.pointers)[level := Some(pointer)]
    {
      hide NumbersOk, AgesOrdered, SnapshotsOk, Covers, GoodInputs, Exchanged, CompactionFits, GoodLevels, Restores, Accounts;
      ghost var s := State();
      versions.SetCompactPointer(level, pointer);
      MoveFits(s, level, file, versions.nextFileNumber);
      MoveIsStep(s, level, file, pointer, versions.Now());
      InstallCompactionResults(level, [file], [], [file], pointer, s);
    }

    method StartCompaction(level: nat, inputs0: seq<File>, inputs1: seq<File>, pointer: InternalKey)
      requires Valid() && MayStart(State(), level, inputs0, inputs1) && Distinct(inputs0) && Distinct(inputs1)
      modifies this`job, this`jobPointer, versions`pointers
      ensures Valid() && NextStep(old(State()), StartStep(level, inputs0, inputs1), State())
      ensures versions.pointers == old(versions.pointers)[level := Some(pointer)] && jobPointer == pointer
      ensures job.Some? && if snapshots == [] then job.value.smallest == versions.lastSequence
                           else job.value.smallest in snapshots && forall t :: t in snapshots ==> job.value.smallest <= t
    {
      ghost var s := State();
      versions.SetCompactPointer(level, pointer);
      var smallest := if snapshots == [] then versions.lastSequence else snapshots[0];
      job := Some(Job(level, inputs0, inputs1, smallest, versions.current));
      jobPointer := pointer;
      StartKeepsInv(s, level, inputs0, inputs1, State());
    }

    /** InstallCompactionResults: inputs deleted, outputs added; `s` is the state before the outputs'
        numbers were handed out. */
    method InstallCompactionResults(level: nat, inputs0: seq<File>, inputs1: seq<File>, outs: seq<File>, pointer: InternalKey,
                                    ghost s: State)
      requires versions.Valid() && State() == s.(nextFile := versions.nextFileNumber)
      requires NumbersOk(s) && CompactionFits(s, level, inputs0, inputs1, outs, versions.nextFileNumber)
      requires Covers(s.placed, versions.manifest) && versions.logNumber <= logfileNumber < versions.nextFileNumber
      modifies this`job, this`placed, versions
      ensures versions.Valid() && Covers(placed, versions.manifest)
      ensures versions.logNumber <= logfileNumber < versions.nextFileNumber
      ensures State() == old(Exchanged(s, level, inputs0, inputs1, outs, pointer, versions.Now())) && job.None?
      ensures versions.pointers == old(versions.pointers)[level := Some(pointer)]
    {
      hide After, Applicable, NumbersOk, Covers, CompactionEdit;
      ghost var now := versions.Now();
      PointerMoves(level, inputs0, inputs1, outs, pointer, now);
      CompactionApplies(s, level, inputs0, inputs1, outs, pointer, now, versions.manifest, versions.comparator);
      CompactionCovers(s, level, inputs0, inputs1, outs, pointer, now, versions.manifest, versions.comparator);
      versions.LogAndApply(CompactionEdit(level, inputs0, inputs1, outs, pointer));
      job := None;
      placed := placed + PlacedIn(level + 1, outs);
    }

    /** The compaction loop over the merged inputs, one new table per run, and their installation.
        Where outputs are cut is left open: `stopBefore` and `full` decide for each input entry.
        The outputs are installed whether or not they overlap a file flushed in the meantime. */
    method FinishCompaction(stopBefore: nat -> bool, full: nat -> bool) returns (ghost outs: seq<File>)
      requires Valid() && job.Some?
      modifies this`job, this`placed, versions
      ensures NextStep(old(State()), FinishStep(outs), State())
      ensures Valid() <==> FinishesClear(old(State()), outs)
      ensures old(JobUntouched(State())) ==> Valid()
      ensures old(job.value.level < |versions.pointers|)
      ensures versions.pointers == old(versions.pointers[job.value.level := Some(jobPointer)])
    {
      hide Restores, Accounts, Kept, JobFits, GoodLevels, NumbersOk, AgesOrdered, FinishesClear, JobUntouched;
      ghost var s := State();
      var j := job.value;
      var runs := CompactRuns(j, stopBefore, full, s);
      var files := MakeOutputs(runs);
      outs := files;
      ghost var now := versions.Now();
      FinishWorks(s, j, runs, outs, jobPointer, now);
      InstallCompactionResults(j.level, j.inputs0, j.inputs1, files, jobPointer, s);
      if JobUntouched(s) {
        UntouchedFinishesClear(s, outs, State());
      }
    }

    /** One output file per run, numbered in the order of the runs. */
    method MakeOutputs(runs: seq<seq<Entry>>) returns (outs: seq<File>)
      requires versions.Valid() && forall run :: run in runs ==> run != []
      modifies versions`nextFileNumber
      ensures versions.Valid() && versions.nextFileNumber == old(versions.nextFileNumber) + |runs|
      ensures AreTables(outs, old(versions.nextFileNumber), runs)
    {
      outs := [];
      for i := 0 to |runs|
        invariant versions.Valid() && versions.nextFileNumber == old(versions.nextFileNumber) + i
        invariant AreTables(outs, old(versions.nextFileNumber), runs[..i])
      {
        var number := versions.NewFileNumber();
        assert runs[i] in runs;
        var f := BuildTable(number, runs[i]);
        outs := outs + [f];
      }
      assert runs[..|runs|] == runs;
    }

    method GetSnapshot() returns (snapshot: nat)
      requires Valid()
      modifies this`snapshots
      ensures Valid() && snapshot == versions.lastSequence && NextStep(old(State()), TakeSnapshotStep, State())
    {
      ghost var s := State();
      snapshot := versions.lastSequence;
      snapshots := snapshots + [snapshot];
      SnapshotKeepsInv(s, State());
    }

    method ReleaseSnapshot(i: nat)
      requires Valid() && i < |snapshots|
      modifies this`snapshots
      ensures Valid() && NextStep(old(State()), ReleaseSnapshotStep(i), State())
    {
      ghost var s := State();
      snapshots := snapshots[..i] + snapshots[i + 1..];
      assert Database.ReleaseSnapshot(s, i, State());
      SnapshotKeepsInv(s, State());
    }
  }

  lemma MemIsOld(s: State)
    requires Inv(s)
    ensures forall x :: x in s.mem ==> x.key.seqno < s.lastSequence + 1
  {
    assert forall x :: x in s.mem ==> x in Data(s);
  }
}
