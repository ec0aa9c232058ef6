/** Safety, step by step: every step keeps the invariant, the end of a compaction exactly if its outputs are
    clear of the files left beside them. */
module DatabaseSafety {
  import opened Wrappers
  import opened Dbformat
  import opened VersionFiles
  import opened VersionGet
  import opened CompactionInputs
  import opened VersionBuilder
  import opened LevelChange
  import opened DropRule
  import opened CompactionWork
  import opened Database

  // ---------- Versions are unique ----------

  lemma SameLevelUnique(files: seq<File>, level: nat, f: File, g: File)
    requires FilesOk(files) && f in files && g in files && f != g
    requires if level == 0 then YoungFirst(files) else Disjoint(files)
    ensures NewerThan(f, g) || NewerThan(g, f)
  {
    var i :| 0 <= i < |files| && files[i] == f;
    var j :| 0 <= j < |files| && files[j] == g;
    if level == 0 {
      assert f.number > g.number || g.number > f.number;
    } else if i < j {
      EarlierFileIsNewer(f, g);
    } else {
      EarlierFileIsNewer(g, f);
    }
  }

  /** No version of a key is in both files. */
  ghost predicate Apart(f: File, g: File) {
    forall x, y :: x in f.entries && y in g.entries && x.key.user == y.key.user ==> x.key.seqno != y.key.seqno
  }

  ghost predicate FilesApart(levels: Levels) {
    forall l, m, f, g :: 0 <= l < |levels| && 0 <= m < |levels| && f in levels[l] && g in levels[m] && (l != m || f != g)
      ==> Apart(f, g)
  }

  ghost predicate FilesSorted(levels: Levels) {
    forall l, f :: 0 <= l < |levels| && f in levels[l] ==> Sorted(f.entries)
  }

  lemma GoodIsApart(levels: Levels)
    requires GoodLevels(levels)
    ensures FilesApart(levels) && FilesSorted(levels)
  {
    forall l, m, f, g | 0 <= l < |levels| && 0 <= m < |levels| && f in levels[l] && g in levels[m] && (l != m || f != g)
      ensures Apart(f, g)
    {
      if l == m {
        SameLevelUnique(levels[l], l, f, g);
      } else {
        assert NewerThan(f, g) || NewerThan(g, f);
      }
    }
  }

  lemma FilesUnique(levels: Levels)
    requires FilesApart(levels) && FilesSorted(levels)
    ensures UniqueVersions(AllEntries(levels))
  {
    forall x, y | x in AllEntries(levels) && y in AllEntries(levels) && x.key.user == y.key.user && x.key.seqno == y.key.seqno
      ensures x == y
    {
      var l, f :| 0 <= l < |levels| && f in levels[l] && x in f.entries;
      var m, g :| 0 <= m < |levels| && g in levels[m] && y in g.entries;
      assert l != m || f != g ==> Apart(f, g);
    }
  }

  lemma SortedUnique(es: seq<Entry>)
    requires Sorted(es)
    ensures UniqueVersions(Elements(es))
  {
  }

  lemma DataUnique(s: State)
    requires Inv(s)
    ensures UniqueVersions(Data(s))
  {
    GoodIsApart(s.levels);
    FilesUnique(s.levels);
    SortedUnique(s.mem);
    if s.imm.Some? { SortedUnique(s.imm.value); }
  }

  // ---------- Each step keeps the invariant ----------

  lemma InitInv(s: State)
    requires Init(s)
    ensures Inv(s)
  {
    NoFilesAreGood();
    hide GoodLevels, LevelsSorted;
    assert NumbersOk(s);
    assert Data(s) == {};
  }

  lemma NoFilesAreGood()
    ensures GoodLevels(EMPTY_LEVELS) && LevelsSorted(EMPTY_LEVELS) && AllEntries(EMPTY_LEVELS) == {}
    ensures forall l :: 0 <= l < NUM_LEVELS ==> EMPTY_LEVELS[l] == []
  {
    forall l | 0 <= l < NUM_LEVELS
      ensures EMPTY_LEVELS[l] == []
    {
    }
    EmptyIsGood(EMPTY_LEVELS);
  }

  lemma EmptyIsGood(levels: Levels)
    requires |levels| == NUM_LEVELS && forall l :: 0 <= l < NUM_LEVELS ==> levels[l] == []
    ensures GoodLevels(levels) && LevelsSorted(levels) && AllEntries(levels) == {}
  {
  }

  lemma WriteAges(s: State, batch: seq<Update>, s': State)
    requires AgesOrdered(s) && Write(s, batch, s')
    ensures AgesOrdered(s')
  {
    assert forall e :: e in Data(s') ==> e in Data(s) || e in BatchEntries(batch, s.lastSequence + 1);
  }

  lemma WriteKeepsInv(s: State, batch: seq<Update>, s': State)
    requires Inv(s) && Write(s, batch, s')
    ensures Inv(s')
  {
    WriteAges(s, batch, s');
  }

  lemma SwitchKeepsInv(s: State, s': State)
    requires Inv(s) && SwitchMemTable(s, s')
    ensures Inv(s')
  {
    assert forall e :: e in Data(s') ==> e in Data(s);
    assert AgesOrdered(s');
  }

  /** Adding a file adds exactly its entries. */
  lemma PlacedEntries(levels: Levels, level: nat, file: File, levels': Levels)
    requires Placed(levels, level, file, levels')
    ensures AllEntries(levels') == AllEntries(levels) + Elements(file.entries)
  {
    forall e | e in AllEntries(levels) + Elements(file.entries)
      ensures e in AllEntries(levels')
    {
      if e in Elements(file.entries) {
        assert file in levels'[level];
      } else {
        var l, f :| 0 <= l < |levels| && f in levels[l] && e in f.entries;
        assert f in levels'[l];
      }
    }
    forall e | e in AllEntries(levels')
      ensures e in AllEntries(levels) + Elements(file.entries)
    {
      var l, f :| 0 <= l < |levels'| && f in levels'[l] && e in f.entries;
      assert f in levels[l] || f == file;
    }
  }

  lemma TableIsFile(s: State, file: File)
    requires Inv(s) && s.imm.Some? && IsTable(file, s.nextFile, s.imm.value)
    ensures FileOk(file)
    ensures forall l, f :: 0 <= l < NUM_LEVELS && f in s.levels[l] ==> NewerThan(file, f) && f.number < file.number
  {
    forall e | e in file.entries
      ensures e.key.seqno <= MAX_SEQUENCE
    {
      assert e in ImmEntries(s) && e in Data(s);
    }
    forall l, f | 0 <= l < NUM_LEVELS && f in s.levels[l]
      ensures NewerThan(file, f) && f.number < file.number
    {
      assert (l, f.number) in s.placed;
      forall e, o | e in file.entries && o in f.entries
        ensures e.key.seqno > o.key.seqno
      {
        assert e in ImmEntries(s) && o in AllEntries(s.levels);
      }
    }
  }

  lemma FlushAges(s: State, s': State)
    requires AgesOrdered(s)
    requires AllEntries(s'.levels) == AllEntries(s.levels) + ImmEntries(s)
    requires s'.imm.None? && s'.mem == s.mem && s'.lastSequence == s.lastSequence
    ensures AgesOrdered(s') && Data(s') == Data(s)
  {
    assert Data(s') == Data(s);
  }

  lemma FlushKeepsInv(s: State, level: nat, file: File, s': State)
    requires Inv(s) && Flush(s, level, file, s')
    ensures Inv(s')
    ensures Data(s') == Data(s)
  {
    if s.imm.value == [] {
      FlushAges(s, s');
    } else {
      FlushFile(s, level, file, s');
      if s.job.Some? {
        FlushKeepsJob(s, s.job.value, level, file, s');
      }
    }
  }

  /** A memtable flushed beside a compaction leaves its inputs fit: in the level of the first inputs the
      new file is newer, and below it overlaps no input file. */
  lemma FlushKeepsJob(s: State, j: Job, level: nat, file: File, s': State)
    requires Inv(s) && s.job == Some(j) && Flush(s, level, file, s') && s.imm.value != []
    ensures JobFits(s', j)
  {
    TableIsFile(s, file);
    PlacedKeepsFit(s.levels, j.level, j.inputs0, j.inputs1, level, file, s'.levels);
    PlacedKeepsBase(s.levels, j.level, j.inputs0, j.inputs1, level, file, s'.levels);
  }

  lemma PlacedKeepsFit(levels: Levels, l: nat, inputs0: seq<File>, inputs1: seq<File>, level: nat, file: File, levels': Levels)
    requires |levels| == NUM_LEVELS && l + 1 < NUM_LEVELS && FitInputs(levels[l], levels[l + 1], inputs0, inputs1)
    requires Placed(levels, level, file, levels') && MayPlace(levels, level, file.smallest.user, file.largest.user)
    requires forall f :: f in levels[l] ==> NewerThan(file, f)
    ensures FitInputs(levels'[l], levels'[l + 1], inputs0, inputs1)
  {
    hide NewerThan;
    forall g | g in levels'[l + 1] && g !in inputs1
      ensures Aside(g, inputs0, inputs1)
    {
      if g !in levels[l + 1] {
        assert g == file && level == l + 1;
        assert !SomeOverlap(levels[l], Some(g.smallest.user), Some(g.largest.user));
        assert !SomeOverlap(levels[l + 1], Some(g.smallest.user), Some(g.largest.user));
      }
    }
  }

  lemma PlacedKeepsBase(levels: Levels, l: nat, inputs0: seq<File>, inputs1: seq<File>, level: nat, file: File, levels': Levels)
    requires |levels| == NUM_LEVELS && l + 1 < NUM_LEVELS && FitInputs(levels[l], levels[l + 1], inputs0, inputs1)
    requires Placed(levels, level, file, levels') && MayPlace(levels, level, file.smallest.user, file.largest.user)
    ensures SameBase(levels, levels', l, inputs0 + inputs1)
  {
    forall h, user | h in inputs0 + inputs1 && InFileRange(h, user)
      ensures IsBase(levels, l, user) <==> IsBase(levels', l, user)
    {
      if level >= l + 2 {
        assert h in levels[l] || h in levels[l + 1];
        assert !SomeOverlap(levels[l], Some(file.smallest.user), Some(file.largest.user));
        assert !SomeOverlap(levels[l + 1], Some(file.smallest.user), Some(file.largest.user));
        assert !InFileRange(file, user);
        PlacedSameBase(levels, l, level, file, levels', user);
      }
    }
  }

  /** A file without the key leaves it at base or not. */
  lemma PlacedSameBase(levels: Levels, l: nat, level: nat, file: File, levels': Levels, user: UserKey)
    requires Placed(levels, level, file, levels') && !InFileRange(file, user)
    ensures IsBase(levels, l, user) <==> IsBase(levels', l, user)
  {
    if IsBase(levels, l, user) {
      forall m, i | l + 2 <= m < |levels'| && 0 <= i < |levels'[m]|
        ensures !InFileRange(levels'[m][i], user)
      {
        var f := levels'[m][i];
        assert f in levels'[m];
        if f != file {
          var k :| 0 <= k < |levels[m]| && levels[m][k] == f;
        }
      }
    } else {
      var m, i :| l + 2 <= m < |levels| && 0 <= i < |levels[m]| && InFileRange(levels[m][i], user);
      var f := levels[m][i];
      assert f in levels'[m];
      var k :| 0 <= k < |levels'[m]| && levels'[m][k] == f;
    }
  }

  lemma FlushFile(s: State, level: nat, file: File, s': State)
    requires Inv(s) && Flush(s, level, file, s') && s.imm.value != []
    ensures GoodLevels(s'.levels) && AgesOrdered(s') && Data(s') == Data(s) && NumbersOk(s')
  {
    TableIsFile(s, file);
    PlaceKeepsGood(s.levels, level, file, s'.levels);
    PlacedEntries(s.levels, level, file, s'.levels);
    FlushAges(s, s');
    PlacedNumbers(s, level, file, s');
  }

  lemma PlacedNumbers(s: State, level: nat, file: File, s': State)
    requires NumbersOk(s) && |s.levels| == NUM_LEVELS
    requires Placed(s.levels, level, file, s'.levels) && file.number == s.nextFile
    requires s'.placed == s.placed + {(level, s.nextFile)} && s'.nextFile == s.nextFile + 1
    ensures NumbersOk(s')
  {
    forall l, f | 0 <= l < |s'.levels| && f in s'.levels[l]
      ensures (l, f.number) in s'.placed
      ensures f.number == s.nextFile ==> l == level && f == file
      ensures forall p :: p in s'.placed && p.1 == f.number ==> p.0 <= l
    {
      if !(l == level && f == file) {
        assert f in s.levels[l] && (l, f.number) in s.placed;
      }
    }
    forall l, m, f, g | 0 <= l < |s'.levels| && 0 <= m < |s'.levels| && f in s'.levels[l] && g in s'.levels[m]
      ensures f.number == g.number ==> l == m && f == g
    {
      if f.number != s.nextFile {
        assert f in s.levels[l];
      }
    }
  }

  // ---------- Replacing files by what was made of them ----------

  ghost predicate OutputNumbersOk(s: State, inputs0: seq<File>, outs: seq<File>, nextFile: nat) {
    && (forall o :: o in outs ==> s.nextFile <= o.number < nextFile || o in inputs0)
    && (forall o, p :: o in outs && p in outs ==> (o.number == p.number ==> o == p))
  }

  /** An output's number belongs to no file of the new version but itself. */
  lemma OutputNumberUnique(s: State, level: nat, inputs0: seq<File>, inputs1: seq<File>, outs: seq<File>, s': State, o: File, m: nat, g: File)
    requires NumbersOk(s) && level + 1 < NUM_LEVELS && |s.levels| == NUM_LEVELS
    requires Replaced(s.levels, level, inputs0, inputs1, outs, s'.levels)
    requires OutputNumbersOk(s, inputs0, outs, s'.nextFile)
    requires forall h :: h in inputs0 ==> h in s.levels[level]
    requires o in outs && m < NUM_LEVELS && g in s'.levels[m] && g.number == o.number
    ensures m == level + 1 && g == o
  {
    assert g in s.levels[m] || (m == level + 1 && g in outs);
    assert g in s.levels[m] ==> (m, g.number) in s.placed;
    assert o in inputs0 ==> o in s.levels[level];
  }

  /** New or moved-down numbers keep numbers unique, and no (level, number) pair is used twice. */
  lemma ReplacedNumbers(s: State, level: nat, inputs0: seq<File>, inputs1: seq<File>, outs: seq<File>, s': State)
    requires NumbersOk(s) && level + 1 < NUM_LEVELS && |s.levels| == NUM_LEVELS
    requires Replaced(s.levels, level, inputs0, inputs1, outs, s'.levels)
    requires s.nextFile <= s'.nextFile && OutputNumbersOk(s, inputs0, outs, s'.nextFile)
    requires forall h :: h in inputs0 ==> h in s.levels[level]
    requires s'.placed == s.placed + PlacedIn(level + 1, outs)
    ensures NumbersOk(s')
    ensures forall o :: o in outs ==> (level + 1, o.number) !in s.placed
  {
    forall l, m, f, g | 0 <= l < |s'.levels| && 0 <= m < |s'.levels| && f in s'.levels[l] && g in s'.levels[m]
      ensures f.number == g.number ==> l == m && f == g
    {
      if f.number == g.number {
        if l == level + 1 && f in outs {
          OutputNumberUnique(s, level, inputs0, inputs1, outs, s', f, m, g);
        } else if m == level + 1 && g in outs {
          OutputNumberUnique(s, level, inputs0, inputs1, outs, s', g, l, f);
        } else {
          assert f in s.levels[l] && g in s.levels[m];
        }
      }
    }
    forall l, f | 0 <= l < |s'.levels| && f in s'.levels[l]
      ensures (l, f.number) in s'.placed
      ensures forall p :: p in s'.placed && p.1 == f.number ==> p.0 <= l
    {
      ReplacedPlaces(s, level, inputs0, inputs1, outs, s', l, f);
    }
    forall o | o in outs
      ensures o.number < s'.nextFile && (level + 1, o.number) !in s.placed
    {
      if o in inputs0 { assert (level, o.number) in s.placed; }
    }
  }

  lemma ReplacedPlaces(s: State, level: nat, inputs0: seq<File>, inputs1: seq<File>, outs: seq<File>, s': State, l: nat, f: File)
    requires NumbersOk(s) && level + 1 < NUM_LEVELS && |s.levels| == NUM_LEVELS
    requires Replaced(s.levels, level, inputs0, inputs1, outs, s'.levels)
    requires OutputNumbersOk(s, inputs0, outs, s'.nextFile)
    requires forall h :: h in inputs0 ==> h in s.levels[level]
    requires s'.placed == s.placed + PlacedIn(level + 1, outs)
    requires l < NUM_LEVELS && f in s'.levels[l]
    ensures (l, f.number) in s'.placed
    ensures forall p :: p in s'.placed && p.1 == f.number ==> p.0 <= l
  {
    forall p | p in s'.placed && p.1 == f.number
      ensures p.0 <= l
    {
      if p !in s.placed {
        var o :| o in outs && p == (level + 1, o.number);
        OutputNumberUnique(s, level, inputs0, inputs1, outs, s', o, l, f);
      } else if l == level + 1 && f in outs {
        assert f in inputs0 && f in s.levels[level];
      } else {
        assert f in s.levels[l];
      }
    }
  }

  lemma LeftFileIsApart(levels: Levels, level: nat, inputs0: seq<File>, inputs1: seq<File>, l: nat, f: File)
    requires FilesApart(levels) && level + 1 < |levels|
    requires forall h :: h in inputs0 ==> h in levels[level]
    requires forall h :: h in inputs1 ==> h in levels[level + 1]
    requires l < |levels| && f in levels[l]
    requires l == level ==> f !in inputs0
    requires l == level + 1 ==> f !in inputs1
    ensures forall h :: h in inputs0 || h in inputs1 ==> Apart(f, h)
  {
    forall h | h in inputs0 || h in inputs1
      ensures Apart(f, h)
    {
      if h in inputs0 { assert l != level || f != h; } else { assert l != level + 1 || f != h; }
    }
  }

  /** The entries of the new levels: the inputs' are exchanged for the outputs'. */
  lemma ReplacedEntries(levels: Levels, level: nat, inputs0: seq<File>, inputs1: seq<File>, outs: seq<File>, levels': Levels)
    requires FilesApart(levels) && level + 1 < NUM_LEVELS
    requires Replaced(levels, level, inputs0, inputs1, outs, levels')
    requires forall h :: h in inputs0 ==> h in levels[level]
    requires forall h :: h in inputs1 ==> h in levels[level + 1]
    ensures AllEntries(levels') == (AllEntries(levels) - (FileEntries(inputs0) + FileEntries(inputs1))) + FileEntries(outs)
    ensures FileEntries(inputs0) + FileEntries(inputs1) <= AllEntries(levels)
  {
    var input := FileEntries(inputs0) + FileEntries(inputs1);
    forall e | e in AllEntries(levels) - input
      ensures e in AllEntries(levels')
    {
      var l, f :| 0 <= l < |levels| && f in levels[l] && e in f.entries;
      assert f !in inputs0 && f !in inputs1;
      assert f in levels'[l];
    }
    forall e | e in FileEntries(outs)
      ensures e in AllEntries(levels')
    {
      var o :| o in outs && e in o.entries;
      assert o in levels'[level + 1];
    }
    forall e | e in AllEntries(levels')
      ensures e in (AllEntries(levels) - input) + FileEntries(outs)
    {
      var l, f :| 0 <= l < |levels'| && f in levels'[l] && e in f.entries;
      if !(l == level + 1 && f in outs) {
        assert f in levels[l];
        assert forall h :: h in inputs0 || h in inputs1 ==> Apart(f, h) by {
          LeftFileIsApart(levels, level, inputs0, inputs1, l, f);
        }
      }
    }
    forall e | e in input
      ensures e in AllEntries(levels)
    {
      var h :| (h in inputs0 || h in inputs1) && e in h.entries;
      assert h in levels[level] || h in levels[level + 1];
    }
  }

  // ---------- Trivial moves, compactions and snapshots keep the invariant ----------

  lemma ReplaceAges(s: State, input: set<Entry>, output: set<Entry>, s': State)
    requires AgesOrdered(s) && output <= input <= AllEntries(s.levels)
    requires AllEntries(s'.levels) == (AllEntries(s.levels) - input) + output
    requires s'.imm == s.imm && s'.mem == s.mem && s'.lastSequence == s.lastSequence
    ensures AgesOrdered(s')
    ensures Data(s') == (Data(s) - input) + output
  {
    assert AllEntries(s'.levels) <= AllEntries(s.levels);
    assert Elements(s.mem) !! input && ImmEntries(s) !! input;
    assert Data(s') == (Data(s) - input) + output;
  }

  lemma MoveLevels(s: State, level: nat, file: File, s': State)
    requires GoodLevels(s.levels) && UniqueNumbers(s.levels) && TrivialMove(s, level, file, s')
    ensures GoodLevels(s'.levels)
  {
    assert file in [file];
    assert FilesOk([file]) && PairwiseSeparated([file]);
    assert [file] + [] == [file];
    GoodIsFit(s.levels, level, [file], []);
    UntouchedIsClear(s.levels, level, [file], [], [file]);
    ReplaceKeepsGood(s.levels, level, [file], [], [file], s'.levels);
  }

  lemma MoveData(s: State, level: nat, file: File, s': State)
    requires FilesApart(s.levels) && AgesOrdered(s) && TrivialMove(s, level, file, s')
    ensures AgesOrdered(s') && Data(s') == Data(s)
  {
    assert file in [file];
    ReplacedEntries(s.levels, level, [file], [], [file], s'.levels);
    assert FileEntries([]) == {};
    ReplaceAges(s, FileEntries([file]) + FileEntries([]), FileEntries([file]), s');
  }

  lemma MoveNumbers(s: State, level: nat, file: File, s': State)
    requires NumbersOk(s) && TrivialMove(s, level, file, s')
    ensures NumbersOk(s')
  {
    assert file in [file];
    assert PlacedIn(level + 1, [file]) == {(level + 1, file.number)};
    ReplacedNumbers(s, level, [file], [], [file], s');
  }

  lemma MoveKeepsInv(s: State, level: nat, file: File, s': State)
    requires Inv(s) && TrivialMove(s, level, file, s')
    ensures Inv(s')
    ensures Data(s') == Data(s)
  {
    hide NewerThan, FilesOk;
    MoveLevels(s, level, file, s');
    MoveNumbers(s, level, file, s');
    GoodIsApart(s.levels);
    MoveData(s, level, file, s');
  }

  lemma StartKeepsInv(s: State, level: nat, inputs0: seq<File>, inputs1: seq<File>, s': State)
    requires Inv(s) && StartCompaction(s, level, inputs0, inputs1, s')
    ensures Inv(s')
  {
    GoodIsFit(s.levels, level, inputs0, inputs1);
  }

  lemma OutputsAreGood(s: State, j: Job, outs: seq<File>, nextFile: nat)
    requires JobOutputs(s, j, outs, nextFile)
    ensures GoodOutputs(outs, j.inputs0 + j.inputs1)
  {
    DisjointIsSeparated(outs);
    forall o | o in outs
      ensures ComesFrom(o, j.inputs0 + j.inputs1)
    {
      forall e | e in o.entries
        ensures exists h :: h in j.inputs0 + j.inputs1 && e in h.entries
      {
        assert e in FileEntries(outs) && e in JobEntries(j);
        var h :| (h in j.inputs0 || h in j.inputs1) && e in h.entries;
        assert h in j.inputs0 + j.inputs1;
      }
    }
  }

  /** No output overlaps a file of the next level that the compaction leaves there. */
  ghost predicate FinishesClear(s: State, outs: seq<File>) {
    s.job.Some? && s.job.value.level + 1 < |s.levels| ==>
      OutputsClear(s.levels[s.job.value.level + 1], s.job.value.inputs1, outs)
  }

  lemma FinishLevels(s: State, j: Job, outs: seq<File>, s': State)
    requires GoodLevels(s.levels) && NumbersOk(s) && s.job == Some(j) && JobFits(s, j) && JobFinishes(s, j, outs, s')
    ensures GoodLevels(s'.levels) <==> FinishesClear(s, outs)
  {
    hide GoodLevels, NumbersOk, SameBase, JobOutputs;
    OutputsAreGood(s, j, outs, s'.nextFile);
    OutputsAreNew(s, j, outs, s'.nextFile);
    ReplaceKeepsGood(s.levels, j.level, j.inputs0, j.inputs1, outs, s'.levels);
  }

  lemma JobInLevels(s: State, j: Job)
    requires JobFits(s, j)
    ensures j.level + 1 < NUM_LEVELS && |s.levels| == NUM_LEVELS
    ensures (forall h :: h in j.inputs0 ==> h in s.levels[j.level]) && (forall h :: h in j.inputs1 ==> h in s.levels[j.level + 1])
  {
  }

  lemma OutputsAreNew(s: State, j: Job, outs: seq<File>, nextFile: nat)
    requires NumbersOk(s) && JobOutputs(s, j, outs, nextFile)
    ensures forall l, g :: 0 <= l < |s.levels| && g in s.levels[l] ==> g !in outs
  {
    assert forall l, g :: 0 <= l < |s.levels| && g in s.levels[l] ==> (l, g.number) in s.placed;
  }

  lemma FinishNumbers(s: State, j: Job, outs: seq<File>, s': State)
    requires NumbersOk(s) && JobFits(s, j) && JobFinishes(s, j, outs, s')
    ensures NumbersOk(s')
  {
    JobInLevels(s, j);
    hide JobFits, NumbersOk, FilesOk, Disjoint, Kept;
    forall o, p | o in outs && p in outs
      ensures o.number == p.number ==> o == p
    {
      var i :| 0 <= i < |outs| && outs[i] == o;
      var k :| 0 <= k < |outs| && outs[k] == p;
      assert i != k ==> outs[i].number != outs[k].number;
    }
    ReplacedNumbers(s, j.level, j.inputs0, j.inputs1, outs, s');
  }

  lemma FinishData(s: State, j: Job, outs: seq<File>, s': State)
    requires GoodLevels(s.levels) && AgesOrdered(s) && JobFits(s, j) && JobFinishes(s, j, outs, s')
    ensures AgesOrdered(s')
    ensures JobEntries(j) <= Data(s)
    ensures Data(s') == (Data(s) - JobEntries(j)) + Kept(JobEntries(j), j.smallest, BaseOf(j.version, j.level))
  {
    GoodIsApart(s.levels);
    ReplacedEntries(s.levels, j.level, j.inputs0, j.inputs1, outs, s'.levels);
    ReplaceAges(s, JobEntries(j), FileEntries(outs), s');
  }

  /** Finishing a compaction keeps the invariant exactly if no output overlaps a file that was put beside
      the inputs in the meantime. */
  lemma FinishKeepsInvIff(s: State, outs: seq<File>, s': State)
    requires Inv(s) && FinishCompaction(s, outs, s')
    ensures Inv(s') <==> FinishesClear(s, outs)
  {
    hide GoodLevels, NumbersOk, AgesOrdered, JobOutputs;
    FinishLevels(s, s.job.value, outs, s');
    FinishNumbers(s, s.job.value, outs, s');
    FinishData(s, s.job.value, outs, s');
  }

  lemma SnapshotKeepsInv(s: State, s': State)
    requires Inv(s) && (TakeSnapshot(s, s') || exists i :: ReleaseSnapshot(s, i, s'))
    ensures Inv(s')
  {
    assert Data(s') == Data(s);
    assert AgesOrdered(s');
  }

  /** The one step that may break the invariant is the end of a compaction whose outputs overlap a file
      flushed beside it. */
  ghost predicate ClearStep(s: State, step: Step) {
    step.FinishStep? ==> FinishesClear(s, step.outs)
  }

  /** A step of the database keeps the invariant exactly if it is clear. */
  lemma NextKeepsInv(s: State, step: Step, s': State)
    requires Inv(s) && NextStep(s, step, s')
    ensures Inv(s') <==> ClearStep(s, step)
  {
    match step
    case WriteStep(batch) => WriteKeepsInv(s, batch, s');
    case SwitchStep => SwitchKeepsInv(s, s');
    case FlushStep(level, file) => FlushKeepsInv(s, level, file, s');
    case MoveStep(level, file) => MoveKeepsInv(s, level, file, s');
    case StartStep(level, inputs0, inputs1) => StartKeepsInv(s, level, inputs0, inputs1, s');
    case FinishStep(outs) => FinishKeepsInvIff(s, outs, s');
    case TakeSnapshotStep => SnapshotKeepsInv(s, s');
    case ReleaseSnapshotStep(index) => SnapshotKeepsInv(s, s');
  }

  // ---------- Compactions that nothing gets into the way of ----------

  /** No file left in the next level lies in the range of the first inputs. */
  ghost predicate JobUntouched(s: State) {
    s.job.Some? && s.job.value.level + 1 < |s.levels| ==>
      forall g :: g in s.levels[s.job.value.level + 1] && g !in s.job.value.inputs1 ==> !Touches(g, s.job.value.inputs0)
  }

  /** A memtable becomes a file of the next level of the running compaction, between its inputs. */
  ghost predicate FlushesIntoGap(s: State, step: Step) {
    && step.FlushStep? && s.job.Some? && s.imm.Some? && s.imm.value != []
    && step.level == s.job.value.level + 1 && Touches(step.file, s.job.value.inputs0)
  }

  lemma UntouchedFinishesClear(s: State, outs: seq<File>, s': State)
    requires Inv(s) && JobUntouched(s) && FinishCompaction(s, outs, s')
    ensures FinishesClear(s, outs)
  {
    var j := s.job.value;
    OutputsAreGood(s, j, outs, s'.nextFile);
    UntouchedIsClear(s.levels, j.level, j.inputs0, j.inputs1, outs);
  }

  /** Whatever is done but flushing into a gap leaves the way free to the end of the compaction. */
  lemma OrderlyStepKeeps(s: State, step: Step, s': State)
    requires Inv(s) && JobUntouched(s) && NextStep(s, step, s') && !FlushesIntoGap(s, step)
    ensures Inv(s') && ClearStep(s, step) && JobUntouched(s')
  {
    hide Inv;
    if step.FinishStep? {
      UntouchedFinishesClear(s, step.outs, s');
    }
    NextKeepsInv(s, step, s');
    StaysUntouched(s, step, s');
  }

  lemma StaysUntouched(s: State, step: Step, s': State)
    requires JobUntouched(s) && NextStep(s, step, s') && !FlushesIntoGap(s, step)
    ensures JobUntouched(s')
  {
  }
}
