/** Background work keeps the level invariant (db/version_set.cc, db/db_impl.cc). */
module LevelChange {
  import opened Wrappers
  import opened Dbformat
  import opened VersionFiles
  import opened CompactionInputs
  import opened VersionBuilder

  /** Every entry of `o` comes from one of the source files. */
  ghost predicate ComesFrom(o: File, sources: seq<File>) {
    forall e :: e in o.entries ==> exists h :: h in sources && e in h.entries
  }

  /** One of the two files ends before the other begins. */
  predicate Separated(f: File, g: File) {
    f.largest.Precedes(g.smallest) || g.largest.Precedes(f.smallest)
  }

  ghost predicate PairwiseSeparated(files: seq<File>) {
    forall f, g :: f in files && g in files && f != g ==> Separated(f, g)
  }

  lemma DisjointIsSeparated(files: seq<File>)
    requires Disjoint(files)
    ensures PairwiseSeparated(files)
  {
  }

  /** In the order of BySmallestKey, separated files follow each other without overlap. */
  lemma SortedSeparatedIsDisjoint(files: seq<File>)
    requires BoundsOk(files) && SortedFiles(files) && PairwiseSeparated(files)
    ensures Disjoint(files)
  {
    forall i, j | 0 <= i < j < |files|
      ensures files[i].largest.Precedes(files[j].smallest)
    {
      assert FileLess(files[i], files[j]);
      assert files[i] in files && files[j] in files;
      assert Separated(files[i], files[j]);
    }
  }

  /** `outs` replaces `inputs0` of `level` and `inputs1` of the next level. */
  ghost predicate Replaced(levels: Levels, level: nat, inputs0: seq<File>, inputs1: seq<File>, outs: seq<File>, levels': Levels) {
    && |levels| == |levels'| == NUM_LEVELS && level + 1 < NUM_LEVELS
    && (forall l :: 0 <= l < NUM_LEVELS ==> SortedFiles(levels'[l]))
    && (forall l :: 0 <= l < NUM_LEVELS && l != level && l != level + 1 ==> levels'[l] == levels[l])
    && (forall f :: f in levels'[level] <==> f in levels[level] && f !in inputs0)
    && (forall f :: f in levels'[level + 1] <==> (f in levels[level + 1] && f !in inputs1) || f in outs)
  }

  ghost predicate GoodOutputs(outs: seq<File>, sources: seq<File>) {
    && FilesOk(outs) && PairwiseSeparated(outs)
    && forall o :: o in outs ==> ComesFrom(o, sources)
  }

  // ---------- What a compaction needs of its inputs until it ends ----------

  /** The file lies outside the range of the first inputs, or between input files that it does not overlap. */
  ghost predicate Aside(g: File, inputs0: seq<File>, inputs1: seq<File>) {
    || !Touches(g, inputs0)
    || forall h :: h in inputs0 || h in inputs1 ==> !Overlaps(h, Some(g.smallest.user), Some(g.largest.user))
  }

  /** What stays true of the inputs while memtables are flushed beside the compaction. */
  ghost predicate FitInputs(files: seq<File>, next: seq<File>, inputs0: seq<File>, inputs1: seq<File>) {
    && inputs0 != []
    && (forall h :: h in inputs0 ==> h in files)
    && (forall h :: h in inputs1 ==> h in next && Touches(h, inputs0))
    && (forall f, h :: f in files && f !in inputs0 && h in inputs0 ==> NewerThan(f, h))
    && (forall g :: g in next && g !in inputs1 ==> Aside(g, inputs0, inputs1))
  }

  /** Every output lies entirely before or entirely after every file left in the next level. */
  ghost predicate OutputsClear(next: seq<File>, inputs1: seq<File>, outs: seq<File>) {
    forall g, o :: g in next && g !in inputs1 && o in outs ==> Separated(g, o)
  }

  lemma GoodIsFit(levels: Levels, level: nat, inputs0: seq<File>, inputs1: seq<File>)
    requires GoodLevels(levels) && level + 1 < NUM_LEVELS
    requires GoodInputs(levels[level], levels[level + 1], level, inputs0, inputs1)
    ensures FitInputs(levels[level], levels[level + 1], inputs0, inputs1)
  {
    forall f, h | f in levels[level] && f !in inputs0 && h in inputs0
      ensures NewerThan(f, h)
    {
      LeftBehindIsNewer(levels[level], level, inputs0, f, h);
    }
  }

  /** If nothing left in the next level is in the range of the inputs, no output can overlap it. */
  lemma UntouchedIsClear(levels: Levels, level: nat, inputs0: seq<File>, inputs1: seq<File>, outs: seq<File>)
    requires GoodLevels(levels) && level + 1 < NUM_LEVELS
    requires FitInputs(levels[level], levels[level + 1], inputs0, inputs1)
    requires GoodOutputs(outs, inputs0 + inputs1)
    requires forall g :: g in levels[level + 1] && g !in inputs1 ==> !Touches(g, inputs0)
    ensures OutputsClear(levels[level + 1], inputs1, outs)
  {
    var next := levels[level + 1];
    FilesOkMembers(inputs0, levels[level]);
    FilesOkMembers(inputs1, next);
    AllBoundsOrdered(inputs0);
    AllBoundsOrdered(next);
    forall g, o | g in next && g !in inputs1 && o in outs
      ensures Separated(g, o)
    {
      UntouchedIsSeparated(next, inputs0, inputs1, g, o);
    }
  }

  /** A file of the next level that the inputs do not touch lies entirely before or entirely
      after everything the compaction reads. */
  lemma UntouchedIsSeparated(next: seq<File>, inputs0: seq<File>, inputs1: seq<File>, g: File, o: File)
    requires BoundsOk(inputs0) && BoundsOk(next) && Disjoint(next) && FilesOk(inputs0) && FilesOk(inputs1)
    requires inputs0 != []
    requires forall f :: f in inputs1 ==> f in next && Touches(f, inputs0)
    requires g in next && g !in inputs1 && !Touches(g, inputs0)
    requires FileOk(o) && ComesFrom(o, inputs0 + inputs1)
    ensures Separated(g, o)
  {
    assert o.entries[0] in o.entries && o.entries[|o.entries| - 1] in o.entries;
    var before := forall h :: h in inputs0 ==> g.largest.user < h.smallest.user;
    forall e | e in o.entries
      ensures if before then g.largest.Precedes(e.key) else e.key.Precedes(g.smallest)
    {
      UntouchedEntry(next, inputs0, inputs1, g, e);
    }
  }

  lemma UntouchedEntry(next: seq<File>, inputs0: seq<File>, inputs1: seq<File>, g: File, e: Entry)
    requires BoundsOk(inputs0) && BoundsOk(next) && Disjoint(next) && FilesOk(inputs0) && FilesOk(inputs1)
    requires inputs0 != []
    requires forall f :: f in inputs1 ==> f in next && Touches(f, inputs0)
    requires g in next && g !in inputs1 && !Touches(g, inputs0)
    requires exists h :: h in inputs0 + inputs1 && e in h.entries
    ensures if forall h :: h in inputs0 ==> g.largest.user < h.smallest.user
            then g.largest.Precedes(e.key) else e.key.Precedes(g.smallest)
  {
    var h :| h in inputs0 + inputs1 && e in h.entries;
    if h in inputs0 {
      EntryInBounds(h, e);
    } else {
      EntryInBounds(h, e);
      assert h != g && Touches(h, inputs0);
      assert Separated(h, g) by { DisjointIsSeparated(next); }
      var a :| a in inputs0 && a.smallest.user <= h.largest.user;
      var b :| b in inputs0 && h.smallest.user <= b.largest.user;
    }
  }

  /** What is left of `level` is newer than everything the compaction reads from it. */
  lemma LeftBehindIsNewer(files: seq<File>, level: nat, inputs0: seq<File>, f: File, h: File)
    requires FilesOk(files) && NothingOlderLeft(files, level, inputs0)
    requires forall g :: g in inputs0 ==> g in files
    requires f in files && f !in inputs0 && h in inputs0
    ensures NewerThan(f, h)
  {
    forall e, o | e in f.entries && o in h.entries && e.key.user == o.key.user
      ensures e.key.seqno > o.key.seqno
    {
      EntryInBounds(f, e);
      EntryInBounds(h, o);
      assert level == 0 ==> Touches(f, inputs0);
    }
  }

  lemma NewerThanOutput(f: File, o: File, sources: seq<File>)
    requires ComesFrom(o, sources)
    requires forall h :: h in sources ==> NewerThan(f, h)
    ensures NewerThan(f, o)
  {
  }

  lemma OutputNewerThan(o: File, g: File, sources: seq<File>)
    requires ComesFrom(o, sources)
    requires forall h :: h in sources ==> NewerThan(h, g)
    ensures NewerThan(o, g)
  {
  }

  /** The next level stays sorted and disjoint exactly if no output overlaps a file left in it. */
  lemma NextLevelDisjoint(levels: Levels, level: nat, inputs0: seq<File>, inputs1: seq<File>, outs: seq<File>, levels': Levels)
    requires GoodLevels(levels) && level + 1 < NUM_LEVELS
    requires GoodOutputs(outs, inputs0 + inputs1)
    requires forall g :: g in levels[level + 1] && g !in inputs1 ==> g !in outs
    requires Replaced(levels, level, inputs0, inputs1, outs, levels')
    ensures FilesOk(levels'[level + 1])
    ensures Disjoint(levels'[level + 1]) <==> OutputsClear(levels[level + 1], inputs1, outs)
  {
    var next, next' := levels[level + 1], levels'[level + 1];
    assert FilesOk(next) && Disjoint(next);
    FilesOkMembers(next', next + outs);
    AllBoundsOrdered(next');
    DisjointIsSeparated(next);
    if OutputsClear(next, inputs1, outs) {
      SortedSeparatedIsDisjoint(next');
    }
    if Disjoint(next') {
      DisjointIsSeparated(next');
    }
  }

  lemma FilesOkMembers(files: seq<File>, sources: seq<File>)
    requires FilesOk(sources)
    requires forall f :: f in files ==> f in sources
    ensures FilesOk(files)
  {
    assert forall i :: 0 <= i < |files| ==> files[i] in files;
  }

  /** Removing files keeps a level in order. */
  lemma SubsetOfLevel(files: seq<File>, level: nat, v: seq<File>)
    requires FilesOk(files) && SortedFiles(v)
    requires if level == 0 then YoungFirst(files) else Disjoint(files)
    requires forall f :: f in v ==> f in files
    ensures FilesOk(v)
    ensures if level == 0 then YoungFirst(v) else Disjoint(v)
  {
    FilesOkMembers(v, files);
    AllBoundsOrdered(v);
    if level == 0 {
      forall i, j | 0 <= i < j < |v|
        ensures v[i].number != v[j].number
      {
        assert v[i] in files && v[j] in files && FileLess(v[i], v[j]);
      }
    } else {
      DisjointIsSeparated(files);
      SortedSeparatedIsDisjoint(v);
    }
  }

  ghost predicate LevelsNewerThan(levels: Levels) {
    forall l, m, f, g :: 0 <= l < m < |levels| && f in levels[l] && g in levels[m] ==> NewerThan(f, g)
  }

  /** Shallower files stay newer than deeper ones when `outs` replaces the inputs. */
  lemma ReplaceKeepsNewer(levels: Levels, level: nat, inputs0: seq<File>, inputs1: seq<File>, outs: seq<File>, levels': Levels)
    requires GoodLevels(levels) && level + 1 < NUM_LEVELS
    requires FitInputs(levels[level], levels[level + 1], inputs0, inputs1)
    requires forall o :: o in outs ==> ComesFrom(o, inputs0 + inputs1)
    requires Replaced(levels, level, inputs0, inputs1, outs, levels')
    ensures LevelsNewerThan(levels')
  {
    forall l, m, f, g | 0 <= l < m < |levels'| && f in levels'[l] && g in levels'[m]
      ensures NewerThan(f, g)
    {
      if m == level + 1 && g in outs {
        forall h | h in inputs0 + inputs1
          ensures NewerThan(f, h)
        {
          assert h in inputs0 && l == level ==> f !in inputs0;
        }
        NewerThanOutput(f, g, inputs0 + inputs1);
      } else if l == level + 1 && f in outs {
        forall h | h in inputs0 + inputs1
          ensures NewerThan(h, g)
        {
          assert h in levels[level] || h in levels[level + 1];
        }
        OutputNewerThan(f, g, inputs0 + inputs1);
      } else {
        assert f in levels[l] && g in levels[m];
      }
    }
  }

  /** A trivial move or a compaction keeps the level invariant exactly if no output overlaps a file left
      in the next level. */
  lemma ReplaceKeepsGood(levels: Levels, level: nat, inputs0: seq<File>, inputs1: seq<File>, outs: seq<File>, levels': Levels)
    requires GoodLevels(levels) && level + 1 < NUM_LEVELS
    requires FitInputs(levels[level], levels[level + 1], inputs0, inputs1)
    requires GoodOutputs(outs, inputs0 + inputs1)
    requires forall g :: g in levels[level + 1] && g !in inputs1 ==> g !in outs
    requires Replaced(levels, level, inputs0, inputs1, outs, levels')
    ensures GoodLevels(levels') <==> OutputsClear(levels[level + 1], inputs1, outs)
  {
    SubsetOfLevel(levels[level], level, levels'[level]);
    NextLevelDisjoint(levels, level, inputs0, inputs1, outs, levels');
    ReplaceKeepsNewer(levels, level, inputs0, inputs1, outs, levels');
  }

  // ---------- Placing a flushed memtable ----------

  /** `file` is added to `level`. */
  ghost predicate Placed(levels: Levels, level: nat, file: File, levels': Levels) {
    && |levels| == |levels'| == NUM_LEVELS && level < NUM_LEVELS
    && (forall l :: 0 <= l < NUM_LEVELS ==> SortedFiles(levels'[l]))
    && (forall l :: 0 <= l < NUM_LEVELS && l != level ==> levels'[l] == levels[l])
    && (forall f :: f in levels'[level] <==> f in levels[level] || f == file)
  }

  /** A level below 0 may take a memtable only if no file above it or in it overlaps. */
  ghost predicate MayPlace(levels: Levels, level: nat, low: UserKey, high: UserKey) {
    && level < |levels|
    && (level > 0 ==> forall l :: 0 <= l <= level ==> !SomeOverlap(levels[l], Some(low), Some(high)))
  }

  lemma NoOverlapNoSharedKey(f: File, g: File)
    requires FileOk(f) && FileOk(g) && !Overlaps(f, Some(g.smallest.user), Some(g.largest.user))
    ensures NewerThan(f, g) && NewerThan(g, f) && Separated(f, g)
  {
    forall e, o | e in f.entries && o in g.entries
      ensures e.key.user != o.key.user
    {
      EntryInBounds(f, e);
      EntryInBounds(g, o);
    }
  }

  /** A flushed memtable, newer than every file, may go where PickLevelForMemTableOutput says. */
  lemma PlaceKeepsGood(levels: Levels, level: nat, file: File, levels': Levels)
    requires GoodLevels(levels) && FileOk(file)
    requires Placed(levels, level, file, levels') && MayPlace(levels, level, file.smallest.user, file.largest.user)
    requires forall l, f :: 0 <= l < NUM_LEVELS && f in levels[l] ==> NewerThan(file, f) && f.number < file.number
    ensures GoodLevels(levels')
  {
    PlacedInLevel(levels[level], level, file, levels'[level]);
    forall l, m, f, g | 0 <= l < m < |levels'| && f in levels'[l] && g in levels'[m]
      ensures NewerThan(f, g)
    {
      if m == level && g == file {
        assert f in levels[l];
        NoOverlapNoSharedKey(f, file);
      }
    }
  }

  lemma PlacedInLevel(files: seq<File>, level: nat, file: File, v: seq<File>)
    requires FilesOk(files) && FileOk(file) && SortedFiles(v)
    requires if level == 0 then YoungFirst(files) else Disjoint(files)
    requires forall f :: f in v <==> f in files || f == file
    requires level > 0 ==> !SomeOverlap(files, Some(file.smallest.user), Some(file.largest.user))
    requires forall f :: f in files ==> NewerThan(file, f) && f.number < file.number
    ensures FilesOk(v)
    ensures if level == 0 then YoungFirst(v) else Disjoint(v)
  {
    FilesOkMembers(v, files + [file]);
    AllBoundsOrdered(v);
    if level == 0 {
      forall i, j | 0 <= i < j < |v|
        ensures v[i].number != v[j].number
      {
        assert v[i] in v && v[j] in v && FileLess(v[i], v[j]);
      }
    } else {
      DisjointIsSeparated(files);
      forall f | f in files
        ensures Separated(f, file)
      {
        NoOverlapNoSharedKey(f, file);
      }
      SortedSeparatedIsDisjoint(v);
    }
  }

  /** Where a flushed memtable may go: as deep as level 2 while nothing overlaps and not too
      much of the level after it does. */
  method PickLevelForMemTableOutput(levels: Levels, low: UserKey, high: UserKey, maxGrandParentOverlap: nat) returns (level: nat)
    requires GoodLevels(levels)
    ensures level <= MAX_MEM_COMPACT_LEVEL && MayPlace(levels, level, low, high)
    ensures level < MAX_MEM_COMPACT_LEVEL ==>
      || (level == 0 && SomeOverlap(levels[0], Some(low), Some(high)))
      || SomeOverlap(levels[level + 1], Some(low), Some(high))
      || TotalFileSize(OverlappingFiles(levels[level + 2], Some(low), Some(high))) > maxGrandParentOverlap
  {
    level := 0;
    AllBoundsOrdered(levels[0]);
    var overlap := SomeFileOverlapsRange(false, levels[0], Some(low), Some(high));
    if !overlap {
      while level < MAX_MEM_COMPACT_LEVEL
        invariant level <= MAX_MEM_COMPACT_LEVEL
        invariant forall l :: 0 <= l <= level ==> !SomeOverlap(levels[l], Some(low), Some(high))
      {
        AllBoundsOrdered(levels[level + 1]);
        overlap := SomeFileOverlapsRange(true, levels[level + 1], Some(low), Some(high));
        if overlap { return; }
        if level + 2 < NUM_LEVELS {
          AllBoundsOrdered(levels[level + 2]);
          var overlaps := GetOverlappingInputs(levels[level + 2], false, Some(low), Some(high));
          if TotalFileSize(overlaps) > maxGrandParentOverlap { return; }
        }
        level := level + 1;
      }
    }
  }

  const MAX_MEM_COMPACT_LEVEL: nat := 2
}
