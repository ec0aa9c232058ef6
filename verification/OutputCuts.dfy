/** Where the outputs of a compaction may be cut: from the state before it ends alone, exactly when every
    way of cutting them keeps the levels in order (db/db_impl.cc DoCompactionWork). */
module OutputCuts {
  import opened Wrappers
  import opened Dbformat
  import opened VersionFiles
  import opened CompactionInputs
  import opened CompactionWork
  import opened VersionBuilder
  import opened LevelChange
  import opened DropRule
  import opened Database
  import opened DatabaseSafety
  import opened Manifest
  import DbImpl
  import DbObject
  import SnapshotReads

  ghost function KeptBy(j: Job): set<Entry> {
    Kept(JobEntries(j), j.smallest, BaseOf(j.version, j.level))
  }

  /** The file lies between two of the entries. */
  ghost predicate Between(g: File, es: set<Entry>) {
    exists a, b :: a in es && b in es && a.key.user < g.smallest.user && g.largest.user < b.key.user
  }

  /** A file left in the next level lies between two entries that the compaction keeps. */
  ghost predicate LeftBetween(s: State, j: Job)
    requires j.level + 1 < |s.levels|
  {
    exists g :: g in s.levels[j.level + 1] && g !in j.inputs1 && Between(g, KeptBy(j))
  }

  // ---------- No file between: every cut is clear ----------

  lemma NothingBetweenIsClear(s: State, outs: seq<File>, s': State)
    requires Inv(s) && FinishCompaction(s, outs, s') && !LeftBetween(s, s.job.value)
    ensures FinishesClear(s, outs)
  {
    var j := s.job.value;
    OutputsAreGood(s, j, outs, s'.nextFile);
    OutputsAreKept(s, j, outs, s'.nextFile);
    hide JobOutputs, KeptBy, Between, Aside, SameBase, NumbersOk, AgesOrdered;
    ClearOf(s.levels, j, outs, KeptBy(j));
  }

  lemma OutputsAreKept(s: State, j: Job, outs: seq<File>, nextFile: nat)
    requires JobOutputs(s, j, outs, nextFile)
    ensures forall o, e :: o in outs && e in o.entries ==> e in KeptBy(j)
  {
    assert forall o, e :: o in outs && e in o.entries ==> e in FileEntries(outs);
  }

  lemma ClearOf(levels: Levels, j: Job, outs: seq<File>, kept: set<Entry>)
    requires GoodLevels(levels) && j.level + 1 < NUM_LEVELS
    requires FitInputs(levels[j.level], levels[j.level + 1], j.inputs0, j.inputs1) && GoodOutputs(outs, j.inputs0 + j.inputs1)
    requires forall o, e :: o in outs && e in o.entries ==> e in kept
    requires forall g :: g in levels[j.level + 1] && g !in j.inputs1 ==> !Between(g, kept)
    ensures OutputsClear(levels[j.level + 1], j.inputs1, outs)
  {
    var next := levels[j.level + 1];
    LevelFilesOk(levels[j.level], j.inputs0);
    LevelFilesOk(next, j.inputs1);
    LevelFilesOk(next, next);
    LevelFilesOk(outs, outs);
    assert forall o :: o in outs ==> ComesFrom(o, j.inputs0 + j.inputs1);
    assert Disjoint(next);
    hide GoodLevels, Disjoint, FileOk, ComesFrom, Between, Separated, Touches, NewerThan, PairwiseSeparated;
    forall g, o | g in next && g !in j.inputs1 && o in outs
      ensures Separated(g, o)
    {
      if !Touches(g, j.inputs0) {
        UntouchedIsSeparated(next, j.inputs0, j.inputs1, g, o);
      } else {
        OutputAvoids(g, o, j.inputs0 + j.inputs1, kept);
      }
    }
  }

  lemma LevelFilesOk(files: seq<File>, some: seq<File>)
    requires FilesOk(files) && forall f :: f in some ==> f in files
    ensures FilesOk(some) && BoundsOk(some) && forall f :: f in some ==> FileOk(f) && f.smallest.user <= f.largest.user
  {
    FilesOkMembers(some, files);
    AllBoundsOrdered(some);
  }

  /** A file that overlaps no input has no key of an output in its range, so an output has all its keys on one
      side of it unless it lies between two of them. */
  lemma OutputAvoids(g: File, o: File, inputs: seq<File>, kept: set<Entry>)
    requires FileOk(o) && ComesFrom(o, inputs) && (forall e :: e in o.entries ==> e in kept)
    requires forall h :: h in inputs ==> FileOk(h) && !Overlaps(h, Some(g.smallest.user), Some(g.largest.user))
    requires !Between(g, kept)
    ensures Separated(g, o)
  {
    var first, last := o.entries[0], o.entries[|o.entries| - 1];
    assert first in o.entries && last in o.entries;
    KeyAvoids(g, o, inputs, first);
    KeyAvoids(g, o, inputs, last);
    EntryInBounds(o, first);
    EntryInBounds(o, last);
  }

  lemma KeyAvoids(g: File, o: File, inputs: seq<File>, e: Entry)
    requires ComesFrom(o, inputs) && e in o.entries
    requires forall h :: h in inputs ==> FileOk(h) && !Overlaps(h, Some(g.smallest.user), Some(g.largest.user))
    ensures e.key.user < g.smallest.user || g.largest.user < e.key.user
  {
    var h :| h in inputs && e in h.entries;
    EntryInBounds(h, e);
  }

  // ---------- A file between: one output of all that is kept spans it ----------

  lemma {:induction false} SortEntries(es: set<Entry>) returns (r: seq<Entry>)
    requires UniqueVersions(es)
    ensures Sorted(r) && Elements(r) == es
  {
    if es == {} {
      r := [];
    } else {
      var e :| e in es;
      var rest := SortEntries(es - {e});
      assert forall x :: x in rest <==> x in Elements(rest);
      DbImpl.AddKeepsSorted(rest, e);
      r := DbImpl.AddToMemTable(rest, e);
      assert forall x :: x in Elements(r) <==> x in es;
    }
  }

  /** The compaction may end with a single output. */
  lemma SingleOutput(s: State, j: Job) returns (out: File, s': State)
    requires Inv(s) && s.job == Some(j) && KeptBy(j) != {}
    ensures FinishCompaction(s, [out], s') && FileOk(out) && Elements(out.entries) == KeptBy(j)
  {
    KeptIsData(s, j);
    var es := SortEntries(KeptBy(j));
    assert es != [];
    out := File(s.nextFile, 0, es[0].key, es[|es| - 1].key, es);
    SingleIsOutput(s, j, out);
    DbObject.InputsInLevels(s, j);
    s' := FinishedWith(s, j, out);
  }

  lemma KeptIsData(s: State, j: Job)
    requires Inv(s) && s.job == Some(j)
    ensures UniqueVersions(KeptBy(j)) && forall e :: e in KeptBy(j) ==> e.key.seqno <= MAX_SEQUENCE
  {
    SnapshotReads.JobEntriesInFiles(s, j);
    DataUnique(s);
    assert KeptBy(j) <= JobEntries(j) <= Data(s);
  }

  lemma FinishedWith(s: State, j: Job, out: File) returns (s': State)
    requires Inv(s) && s.job == Some(j) && JobOutputs(s, j, [out], s.nextFile + 1)
    requires OutputNumbersOk(s, j.inputs0, [out], s.nextFile + 1)
    ensures FinishCompaction(s, [out], s')
  {
    hide JobOutputs, OutputNumbersOk;
    var now := Fields(s.levels, [], 0, 0, s.lastSequence, s.nextFile + 1);
    var pointer := InternalKey(0.0, 0, Value);
    DbObject.InputsInLevels(s, j);
    DbObject.FinishInstalls(s, j, [out], pointer, now);
    s' := DbObject.Exchanged(s, j.level, j.inputs0, j.inputs1, [out], pointer, now);
  }

  lemma SingleIsOutput(s: State, j: Job, out: File)
    requires out.entries != [] && Sorted(out.entries) && Elements(out.entries) == KeptBy(j)
    requires out.number == s.nextFile && forall e :: e in KeptBy(j) ==> e.key.seqno <= MAX_SEQUENCE
    requires out.smallest == out.entries[0].key && out.largest == out.entries[|out.entries| - 1].key
    ensures FileOk(out) && JobOutputs(s, j, [out], s.nextFile + 1) && OutputNumbersOk(s, j.inputs0, [out], s.nextFile + 1)
  {
    assert forall e :: e in out.entries <==> e in KeptBy(j) by {
      assert forall e :: e in Elements(out.entries) <==> e in out.entries;
    }
    assert FileEntries([out]) == KeptBy(j) by {
      OneFileEntries(out);
    }
    hide Kept, FileEntries;
  }

  lemma OneFileEntries(f: File)
    ensures FileEntries([f]) == Elements(f.entries)
  {
    assert f in [f];
  }

  lemma BetweenIsSpanned(g: File, out: File)
    requires FileOk(out) && Between(g, Elements(out.entries)) && g.smallest.user <= g.largest.user
    ensures !Separated(g, out)
  {
    var a, b :| a in Elements(out.entries) && b in Elements(out.entries) && a.key.user < g.smallest.user && g.largest.user < b.key.user;
    EntryInBounds(out, a);
    EntryInBounds(out, b);
  }

  /** Every way of cutting the outputs keeps the invariant if and only if no file left in the next level lies
      between two kept entries. */
  lemma EveryCutIsClearIff(s: State)
    requires Inv(s) && s.job.Some?
    ensures (forall outs, s' :: FinishCompaction(s, outs, s') ==> Inv(s')) <==> !LeftBetween(s, s.job.value)
  {
    var j := s.job.value;
    forall outs, s' | FinishCompaction(s, outs, s') && !LeftBetween(s, j)
      ensures Inv(s')
    {
      NothingBetweenIsClear(s, outs, s');
      FinishKeepsInvIff(s, outs, s');
    }
    if LeftBetween(s, j) {
      var outs, s' := SpanningCut(s, j);
    }
  }

  lemma SpanningCut(s: State, j: Job) returns (outs: seq<File>, s': State)
    requires Inv(s) && s.job == Some(j) && LeftBetween(s, j)
    ensures FinishCompaction(s, outs, s') && !Inv(s')
  {
    var g :| g in s.levels[j.level + 1] && g !in j.inputs1 && Between(g, KeptBy(j));
    assert KeptBy(j) != {};
    GoodFile(s.levels, j.level + 1, g);
    hide KeptBy, Inv, FinishCompaction, Between, FileOk, FinishesClear;
    var out;
    out, s' := SingleOutput(s, j);
    outs := [out];
    SpanningIsNotClear(s, j, g, out);
    FinishKeepsInvIff(s, outs, s');
  }

  lemma GoodFile(levels: Levels, l: nat, g: File)
    requires GoodLevels(levels) && l < NUM_LEVELS && g in levels[l]
    ensures g.smallest.user <= g.largest.user
  {
    LevelFilesOk(levels[l], levels[l]);
  }

  lemma SpanningIsNotClear(s: State, j: Job, g: File, out: File)
    requires s.job == Some(j) && j.level + 1 < |s.levels| && g in s.levels[j.level + 1] && g !in j.inputs1
    requires FileOk(out) && Between(g, Elements(out.entries)) && g.smallest.user <= g.largest.user
    ensures !FinishesClear(s, [out])
  {
    BetweenIsSpanned(g, out);
    assert out in [out];
  }
}
