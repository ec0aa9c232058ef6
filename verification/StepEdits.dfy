/** The version edits of the database's steps: each step changes the levels exactly as the edit
    it logs does, and no step adds a (level, number) pair a second time (db/db_impl.cc). */
module StepEdits {
  import opened Wrappers
  import opened Dbformat
  import opened VersionFiles
  import opened VersionBuilder
  import opened VersionEdits
  import opened LevelChange
  import opened CompactionInputs
  import opened Manifest
  import opened Database
  import opened DatabaseSafety

  /** CompactMemTable's edit; an empty memtable adds no file. */
  function FlushEdit(level: nat, file: Option<File>, logNumber: nat): VersionEdit {
    EMPTY_EDIT.(prevLogNumber := Some(0), logNumber := Some(logNumber),
                newFiles := if file.Some? then [(level, file.value)] else [])
  }

  function DeletionsOf(level: nat, files: seq<File>): (r: set<(nat, nat)>)
    ensures forall d :: d in r <==> d.0 == level && exists f :: f in files && f.number == d.1
  {
    var r := set f | f in files :: (level, f.number);
    assert forall f :: f in files ==> (level, f.number) in r;
    r
  }

  /** The edit of a compaction: inputs deleted, outputs added one level down. A trivial move is the
      case where the one input is the one output. */
  function CompactionEdit(level: nat, inputs0: seq<File>, inputs1: seq<File>, outs: seq<File>, pointer: InternalKey): VersionEdit {
    EMPTY_EDIT.(compactPointers := [(level, pointer)],
                deletedFiles := DeletionsOf(level, inputs0) + DeletionsOf(level + 1, inputs1),
                newFiles := FilesOfLevel(level + 1, outs))
  }

  lemma CompactionAdds(level: nat, inputs0: seq<File>, inputs1: seq<File>, outs: seq<File>, pointer: InternalKey)
    ensures forall l, f :: Adds(CompactionEdit(level, inputs0, inputs1, outs, pointer), l, f) <==> l == level + 1 && f in outs
  {
    var edit := CompactionEdit(level, inputs0, inputs1, outs, pointer);
    forall f | f in outs
      ensures Adds(edit, level + 1, f)
    {
      var i :| 0 <= i < |outs| && outs[i] == f;
      assert edit.newFiles[i] == (level + 1, f);
    }
  }

  /** Installing the edit of a flush places the file. */
  lemma FlushInstalls(levels: Levels, level: nat, file: File, logNumber: nat)
    requires SortedLevels(levels) && level < NUM_LEVELS && file.number !in Numbers(levels[level])
    ensures Placed(levels, level, file, Install(levels, FlushEdit(level, Some(file), logNumber)))
  {
    var edit := FlushEdit(level, Some(file), logNumber);
    forall l | 0 <= l < NUM_LEVELS
      ensures InstalledLevel(levels[l], edit, l, Install(levels, edit)[l])
      ensures l != level ==> Install(levels, edit)[l] == levels[l]
    {
      assert forall f :: Adds(edit, l, f) <==> l == level && f == file;
      InstallLevelIsInstalled(levels[l], edit, l);
      if l != level {
        SortedFilesUnique(Install(levels, edit)[l], levels[l]);
      }
    }
  }

  lemma EmptyFlushInstalls(levels: Levels, level: nat, logNumber: nat)
    requires SortedLevels(levels)
    ensures Install(levels, FlushEdit(level, None, logNumber)) == levels
  {
    var edit := FlushEdit(level, None, logNumber);
    forall l | 0 <= l < NUM_LEVELS
      ensures Install(levels, edit)[l] == levels[l]
    {
      InstallLevelIsInstalled(levels[l], edit, l);
      SortedFilesUnique(Install(levels, edit)[l], levels[l]);
    }
  }

  /** Installing the edit of a compaction exchanges the inputs for the outputs. */
  lemma CompactionInstalls(levels: Levels, level: nat, inputs0: seq<File>, inputs1: seq<File>, outs: seq<File>, pointer: InternalKey)
    requires SortedLevels(levels) && UniqueNumbers(levels) && level + 1 < NUM_LEVELS
    requires (forall h :: h in inputs0 ==> h in levels[level]) && (forall h :: h in inputs1 ==> h in levels[level + 1])
    requires FreshIn(CompactionEdit(level, inputs0, inputs1, outs, pointer), level + 1, Numbers(levels[level + 1]))
    ensures Replaced(levels, level, inputs0, inputs1, outs,
                     Install(levels, CompactionEdit(level, inputs0, inputs1, outs, pointer)))
  {
    var edit := CompactionEdit(level, inputs0, inputs1, outs, pointer);
    var after := Install(levels, edit);
    CompactionAdds(level, inputs0, inputs1, outs, pointer);
    forall l, f | 0 <= l < NUM_LEVELS && f in levels[l]
      ensures (l, f.number) in edit.deletedFiles <==> (l == level && f in inputs0) || (l == level + 1 && f in inputs1)
    {
      if (l, f.number) in DeletionsOf(level, inputs0) {
        var g :| g in inputs0 && g.number == f.number;
        assert g in levels[level];
      }
      if (l, f.number) in DeletionsOf(level + 1, inputs1) {
        var g :| g in inputs1 && g.number == f.number;
        assert g in levels[level + 1];
      }
    }
    forall l | 0 <= l < NUM_LEVELS
      ensures InstalledLevel(levels[l], edit, l, after[l])
      ensures l != level && l != level + 1 ==> after[l] == levels[l]
    {
      assert l != level + 1 ==> FreshIn(edit, l, Numbers(levels[l]));
      InstallLevelIsInstalled(levels[l], edit, l);
      if l != level && l != level + 1 {
        SortedFilesUnique(after[l], levels[l]);
      }
    }
  }

  // ---------- No pair is added twice ----------

  /** Every pair the manifest has seen was recorded by the database, too. */
  ghost predicate Covers(placed: set<(nat, nat)>, manifest: Option<seq<VersionEdit>>) {
    manifest.Some? ==> forall l, n :: 0 <= l < NUM_LEVELS && n in NumbersAdded(manifest.value, l) ==> (l, n) in placed
  }

  /** An edit whose pairs the database has never recorded may be applied. */
  ghost predicate NewPairs(edit: VersionEdit, placed: set<(nat, nat)>) {
    && (forall l: nat, f :: Adds(edit, l, f) ==> (l, f.number) !in placed)
    && (forall l: nat, f, g :: Adds(edit, l, f) && Adds(edit, l, g) && f.number == g.number ==> f == g)
  }

  lemma NewPairsAreFresh(s: State, edit: VersionEdit, manifest: Option<seq<VersionEdit>>)
    requires NumbersOk(s) && |s.levels| == NUM_LEVELS && Covers(s.placed, manifest) && NewPairs(edit, s.placed)
    ensures forall l :: 0 <= l < NUM_LEVELS ==> FreshIn(edit, l, Numbers(s.levels[l]))
    ensures manifest.Some? && EditOk(edit) ==> NoReaddBy(edit, manifest.value)
  {
    forall l | 0 <= l < NUM_LEVELS
      ensures FreshIn(edit, l, Numbers(s.levels[l]))
      ensures manifest.Some? ==> FreshIn(edit, l, NumbersAdded(manifest.value, l))
    {
      assert forall g :: g in s.levels[l] ==> (l, g.number) in s.placed;
    }
  }

  lemma StillCovers(s: State, edit: VersionEdit, now: Fields, manifest: Option<seq<VersionEdit>>, comparator: Bytes, placed: set<(nat, nat)>)
    requires NumbersOk(s) && |s.levels| == |now.pointers| == NUM_LEVELS && s.levels == now.levels
    requires Covers(s.placed, manifest) && s.placed <= placed
    requires forall l: nat, f :: Adds(edit, l, f) ==> (l, f.number) in placed
    ensures Covers(placed, Some(Written(comparator, now, manifest, edit)))
  {
    var pointers, e := ApplyPointers(now.pointers, edit.compactPointers), Completed(edit, now);
    var before := if manifest.Some? then manifest.value else [SnapshotEdit(comparator, pointers, now.levels)];
    forall l, n | 0 <= l < NUM_LEVELS && n in NumbersAdded(before + [e], l)
      ensures (l, n) in placed
    {
      AddedNumbers(before, e, l);
      if n in NumbersAdded(before, l) {
        if manifest.None? {
          SnapshotNumbers(comparator, pointers, now.levels, l);
          var f :| f in s.levels[l] && f.number == n;
          assert (l, f.number) in s.placed;
        }
      } else {
        var f :| Adds(e, l, f) && f.number == n;
        assert Adds(edit, l, f);
      }
    }
  }

  lemma FlushIsNew(s: State, level: nat, file: File, logNumber: nat)
    requires NumbersOk(s) && file.number == s.nextFile
    ensures NewPairs(FlushEdit(level, Some(file), logNumber), s.placed)
  {
  }

  /** A file that moves down, or a new one, was never recorded at its new level. */
  lemma CompactionIsNew(s: State, level: nat, inputs0: seq<File>, inputs1: seq<File>, outs: seq<File>, pointer: InternalKey, nextFile: nat)
    requires NumbersOk(s) && level + 1 < |s.levels|
    requires forall h :: h in inputs0 ==> h in s.levels[level]
    requires OutputNumbersOk(s, inputs0, outs, nextFile)
    ensures NewPairs(CompactionEdit(level, inputs0, inputs1, outs, pointer), s.placed)
  {
    CompactionAdds(level, inputs0, inputs1, outs, pointer);
    forall o | o in outs
      ensures (level + 1, o.number) !in s.placed
    {
      if o in inputs0 {
        assert o in s.levels[level];
      }
    }
  }
}
