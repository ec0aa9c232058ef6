/** Compactions that no file flushed beside them can get in the way of: the input files cover all user
    keys from the first to the last one, as those of every compaction that PickCompaction starts from a
    file do (db/version_set.cc). */
module Gapless {
  import opened Wrappers
  import opened Dbformat
  import opened VersionFiles
  import opened CompactionInputs
  import opened CompactionWork
  import opened LevelChange
  import opened Database
  import opened DatabaseSafety
  import opened SnapshotReads

  /** The user key lies between the first and the last key of the files. */
  ghost predicate Spanned(files: seq<File>, user: UserKey) {
    && (exists a :: a in files && a.smallest.user <= user)
    && (exists b :: b in files && user <= b.largest.user)
  }

  ghost predicate Covered(files: seq<File>, user: UserKey) {
    exists h :: h in files && InFileRange(h, user)
  }

  /** Every user key between the first and the last one is in the range of some file. */
  ghost predicate IsGapless(files: seq<File>) {
    forall user :: Spanned(files, user) ==> Covered(files, user)
  }

  ghost predicate Meets(f: File, files: seq<File>) {
    exists user :: Spanned(files, user) && InFileRange(f, user)
  }

  /** Files that meet a list without gaps leave it without gaps. */
  lemma GrowsGapless(files: seq<File>, more: seq<File>)
    requires IsGapless(files)
    requires forall f :: f in files ==> f in more
    requires forall f :: f in more ==> f in files || Meets(f, files)
    ensures IsGapless(more)
  {
    forall user | Spanned(more, user)
      ensures Covered(more, user)
    {
      if !Spanned(files, user) {
        var a :| a in more && a.smallest.user <= user;
        var b :| b in more && user <= b.largest.user;
        if forall h :: h in files ==> h.smallest.user > user {
          assert InFileRange(a, user);
        } else {
          assert InFileRange(b, user);
        }
      } else {
        assert Covered(files, user);
      }
    }
  }

  lemma SameMembers(files: seq<File>, more: seq<File>)
    requires IsGapless(files) && forall f :: f in files <==> f in more
    ensures IsGapless(more)
  {
    GrowsGapless(files, more);
  }

  lemma TouchingMeets(f: File, files: seq<File>)
    requires Touches(f, files) && f.smallest.user <= f.largest.user
    requires forall h :: h in files ==> h.smallest.user <= h.largest.user
    ensures Meets(f, files)
  {
    var a :| a in files && a.smallest.user <= f.largest.user;
    var user := if a.smallest.user <= f.smallest.user then f.smallest.user else a.smallest.user;
    assert Spanned(files, user) && InFileRange(f, user);
  }

  /** Boundary files start on the user key that a file before them ends on. */
  lemma {:induction false} BoundaryIsGapless(files: seq<File>, start: seq<File>, key: InternalKey, added: seq<File>)
    requires BoundsOk(files) && IsGapless(start) && BoundaryChain(files, key, added)
    requires exists f :: f in start && f.largest == key && f.smallest.user <= f.largest.user
    ensures IsGapless(start + added)
    decreases |added|
  {
    if added == [] {
      assert start + added == start;
    } else {
      var b := added[0];
      var more := start + [b];
      assert Spanned(start, key.user) && InFileRange(b, key.user);
      GrowsGapless(start, more);
      assert b in more;
      BoundaryIsGapless(files, more, b.largest, added[1..]);
      assert more + added[1..] == start + added;
    }
  }

  /** The files span just the user keys from `low` to `high`. */
  ghost predicate SpansExactly(files: seq<File>, low: UserKey, high: UserKey) {
    forall user :: Spanned(files, user) <==> low <= user <= high
  }

  /** A selection that is the least closed one around a range without gaps has no gaps: a gap above the
      request would end a smaller closed range. */
  lemma NoGapAbove(files: seq<File>, base: seq<File>, begin: UserKey, end: UserKey, low: UserKey, high: UserKey, user: UserKey)
    requires BoundsOk(files) && SpansExactly(base, begin, end) && end < user
    requires forall h :: h in base ==> h.largest.user <= end
    requires LeastClosed(files, Some(low), Some(high), Some(begin), Some(end))
    requires Spanned(base + OverlappingFiles(files, Some(low), Some(high)), user)
    ensures Covered(OverlappingFiles(files, Some(low), Some(high)), user)
  {
    var found := OverlappingFiles(files, Some(low), Some(high));
    OverlappingMembers(files, Some(low), Some(high));
    var b :| b in base + found && user <= b.largest.user;
    assert b in found && Within(b, Some(low), Some(high));
    assert Contains(Some(low), Some(user), Some(begin), Some(end));
    if !Covered(found, user) {
      assert !InFileRange(b, user);
      forall g | g in files && Overlaps(g, Some(low), Some(user))
        ensures Within(g, Some(low), Some(user))
      {
        assert g in found;
        assert !InFileRange(g, user);
      }
      assert Closed(files, Some(low), Some(user));
    }
  }

  lemma NoGapBelow(files: seq<File>, base: seq<File>, begin: UserKey, end: UserKey, low: UserKey, high: UserKey, user: UserKey)
    requires BoundsOk(files) && SpansExactly(base, begin, end) && user < begin
    requires forall h :: h in base ==> begin <= h.smallest.user
    requires LeastClosed(files, Some(low), Some(high), Some(begin), Some(end))
    requires Spanned(base + OverlappingFiles(files, Some(low), Some(high)), user)
    ensures Covered(OverlappingFiles(files, Some(low), Some(high)), user)
  {
    var found := OverlappingFiles(files, Some(low), Some(high));
    OverlappingMembers(files, Some(low), Some(high));
    var a :| a in base + found && a.smallest.user <= user;
    assert a in found && Within(a, Some(low), Some(high));
    assert Contains(Some(user), Some(high), Some(begin), Some(end));
    if !Covered(found, user) {
      assert !InFileRange(a, user);
      forall g | g in files && Overlaps(g, Some(user), Some(high))
        ensures Within(g, Some(user), Some(high))
      {
        assert g in found;
        assert !InFileRange(g, user);
      }
      assert Closed(files, Some(user), Some(high));
    }
  }

  /** What GetOverlappingInputs selects around the range of a list without gaps leaves none. */
  lemma SelectionIsGapless(files: seq<File>, level0: bool, base: seq<File>, s: InternalKey, l: InternalKey, found: seq<File>)
    requires BoundsOk(files) && IsGapless(base) && IsRange(base, s, l)
    requires forall h :: h in base ==> h.smallest.user <= h.largest.user
    requires IsSelection(files, level0, Some(s.user), Some(l.user), found)
    ensures IsGapless(base + found)
  {
    var low, high :| SelectsBy(files, level0, Some(s.user), Some(l.user), low, high) && found == OverlappingFiles(files, low, high);
    OverlappingMembers(files, low, high);
    RangeIsSpan(base, s, l);
    if level0 {
      forall user | Spanned(base + found, user)
        ensures Covered(base + found, user)
      {
        if user < s.user {
          NoGapBelow(files, base, s.user, l.user, low.value, high.value, user);
        } else if l.user < user {
          NoGapAbove(files, base, s.user, l.user, low.value, high.value, user);
        } else {
          assert Covered(base, user);
        }
      }
    } else {
      RangeFindsTouched(files, base, s, l);
      forall f | f in found
        ensures Meets(f, base)
      {
        TouchingMeets(f, base);
      }
      GrowsGapless(base, base + found);
    }
  }

  lemma RangeIsSpan(files: seq<File>, s: InternalKey, l: InternalKey)
    requires IsRange(files, s, l)
    ensures SpansExactly(files, s.user, l.user)
    ensures forall h :: h in files ==> s.user <= h.smallest.user && h.largest.user <= l.user
  {
  }

  /** What PickCompaction starts from has no gaps. */
  lemma PickedIsGapless(files: seq<File>, level: nat, f: File, start: seq<File>)
    requires BoundsOk(files) && f in files && StartsFrom(files, level, f, start)
    ensures IsGapless(start)
  {
    assert f in [f] && IsRange([f], f.smallest, f.largest);
    assert IsGapless([f]) by {
      forall user | Spanned([f], user)
        ensures Covered([f], user)
      {
        assert InFileRange(f, user);
      }
    }
    if level == 0 {
      SelectionIsGapless(files, true, [f], f.smallest, f.largest, start);
      var low, high :| SelectsBy(files, true, Some(f.smallest.user), Some(f.largest.user), low, high)
                       && start == OverlappingFiles(files, low, high);
      OverlappingMembers(files, low, high);
      assert f in start;
      SameMembers([f] + start, start);
    }
  }

  /** The boundary files and the files of the next level leave no gaps. */
  lemma ClosedIsGapless(files: seq<File>, next: seq<File>, level: nat, start: seq<File>, base0: seq<File>, inputs1: seq<File>)
    requires BoundsOk(files) && BoundsOk(next) && IsGapless(start)
    requires WithBoundary(files, start, base0) && GoodInputs(files, next, level, base0, inputs1)
    ensures IsGapless(base0 + inputs1)
  {
    assert forall f :: f in start ==> f in base0;
    var key :| IsLargest(start, key) && BoundaryChain(files, key, base0[|start|..]);
    BoundaryIsGapless(files, start, key, base0[|start|..]);
    assert base0 == start + base0[|start|..];
    forall f | f in inputs1
      ensures Meets(f, base0)
    {
      TouchingMeets(f, base0);
    }
    GrowsGapless(base0, base0 + inputs1);
  }

  /** The files added by expanding the first list leave no gaps. */
  lemma ExpandedIsGapless(files: seq<File>, next: seq<File>, level: nat, base0: seq<File>, inputs1: seq<File>, expanded0: seq<File>)
    requires BoundsOk(files) && BoundsOk(next) && IsGapless(base0 + inputs1)
    requires (forall f :: f in base0 ==> f in files && f in expanded0) && (forall f :: f in inputs1 ==> f in next)
    requires IsExpansion(files, level, base0, inputs1, expanded0)
    ensures IsGapless(expanded0 + inputs1)
  {
    var base := base0 + inputs1;
    var grown :| IsGrown(files, level, base0, inputs1, grown) && WithBoundary(files, grown, expanded0);
    var s, l :| IsRange(base, s, l) && IsSelection(files, level == 0, Some(s.user), Some(l.user), grown);
    assert forall f :: f in base ==> f.smallest.user <= f.largest.user;
    SelectionIsGapless(files, level == 0, base, s, l, grown);
    SelectedInFiles(files, level == 0, s, l, grown);
    GrownIsGapless(files, base, grown, expanded0);
    SameMembers(base + expanded0, expanded0 + inputs1);
  }

  lemma GrownIsGapless(files: seq<File>, base: seq<File>, grown: seq<File>, expanded0: seq<File>)
    requires BoundsOk(files) && IsGapless(base + grown) && (forall f :: f in grown ==> f in files)
    requires WithBoundary(files, grown, expanded0)
    ensures IsGapless(base + expanded0)
  {
    var key :| IsLargest(grown, key) && BoundaryChain(files, key, expanded0[|grown|..]);
    var f :| f in grown && f.largest == key;
    assert f in base + grown;
    BoundaryIsGapless(files, base + grown, key, expanded0[|grown|..]);
    assert expanded0 == grown + expanded0[|grown|..];
    assert base + grown + expanded0[|grown|..] == base + expanded0;
  }

  lemma SelectedInFiles(files: seq<File>, level0: bool, s: InternalKey, l: InternalKey, found: seq<File>)
    requires IsSelection(files, level0, Some(s.user), Some(l.user), found)
    ensures forall f :: f in found ==> f in files
  {
    var low, high :| SelectsBy(files, level0, Some(s.user), Some(l.user), low, high) && found == OverlappingFiles(files, low, high);
    OverlappingMembers(files, low, high);
  }

  /** SetupOtherInputs keeps a start without gaps free of them. */
  lemma SetupIsGapless(files: seq<File>, next: seq<File>, level: nat, start: seq<File>,
                       inputs0: seq<File>, inputs1: seq<File>, base0: seq<File>, expanded0: seq<File>)
    requires BoundsOk(files) && BoundsOk(next) && IsGapless(start)
    requires WithBoundary(files, start, base0) && GoodInputs(files, next, level, base0, inputs1)
    requires inputs0 == base0 || (inputs0 == expanded0 && IsExpansion(files, level, base0, inputs1, expanded0))
    requires forall f :: f in base0 ==> f in inputs0
    ensures IsGapless(inputs0 + inputs1)
  {
    ClosedIsGapless(files, next, level, start, base0, inputs1);
    if inputs0 != base0 {
      ExpandedIsGapless(files, next, level, base0, inputs1, expanded0);
    }
  }

  // ---------- Whole runs ----------

  /** A file in the range of a list without gaps overlaps some file of it. */
  lemma TouchingOverlaps(g: File, inputs0: seq<File>, inputs1: seq<File>) returns (h: File)
    requires Touches(g, inputs0) && IsGapless(inputs0 + inputs1)
    requires g.smallest.user <= g.largest.user
    requires forall h :: h in inputs0 + inputs1 ==> h.smallest.user <= h.largest.user
    ensures h in inputs0 + inputs1 && Overlaps(h, Some(g.smallest.user), Some(g.largest.user))
  {
    assert Touches(g, inputs0 + inputs1) by {
      assert forall h :: h in inputs0 ==> h in inputs0 + inputs1;
    }
    TouchingMeets(g, inputs0 + inputs1);
    var user :| Spanned(inputs0 + inputs1, user) && InFileRange(g, user);
    h :| h in inputs0 + inputs1 && InFileRange(h, user);
  }

  /** A file that overlaps no input of a list without gaps lies outside its range. */
  lemma AsideIsUntouched(g: File, inputs0: seq<File>, inputs1: seq<File>)
    requires Aside(g, inputs0, inputs1) && IsGapless(inputs0 + inputs1)
    requires g.smallest.user <= g.largest.user
    requires forall h :: h in inputs0 + inputs1 ==> h.smallest.user <= h.largest.user
    ensures !Touches(g, inputs0)
  {
    hide Touches, IsGapless;
    if Touches(g, inputs0) {
      var h := TouchingOverlaps(g, inputs0, inputs1);
    }
  }

  ghost function JobFiles(j: Job): seq<File> {
    j.inputs0 + j.inputs1
  }

  /** Whatever was flushed beside it, no file left in the next level is in the range of a compaction whose
      inputs have no gaps. */
  lemma GaplessIsUntouched(s: State)
    requires Inv(s) && (s.job.Some? ==> IsGapless(JobFiles(s.job.value)))
    ensures JobUntouched(s)
  {
    if s.job.Some? {
      var j := s.job.value;
      LevelBounds(s.levels[j.level]);
      LevelBounds(s.levels[j.level + 1]);
      forall g | g in s.levels[j.level + 1] && g !in j.inputs1
        ensures !Touches(g, j.inputs0)
      {
        AsideIsUntouched(g, j.inputs0, j.inputs1);
      }
    }
  }

  /** So it always ends clear. */
  lemma GaplessFinishesClear(s: State, outs: seq<File>, s': State)
    requires Inv(s) && FinishCompaction(s, outs, s') && IsGapless(JobFiles(s.job.value))
    ensures FinishesClear(s, outs)
  {
    GaplessIsUntouched(s);
    UntouchedFinishesClear(s, outs, s');
  }

  /** There is no gap to flush into. */
  lemma GaplessFlushIsOrderly(s: State, step: Step, s': State)
    requires Inv(s) && NextStep(s, step, s')
    requires step.FlushStep? && s.job.Some? ==> IsGapless(JobFiles(s.job.value))
    ensures !FlushesIntoGap(s, step)
  {
    if FlushesIntoGap(s, step) {
      FlushKeepsInv(s, step.level, step.file, s');
      FlushedIsNew(s, step.level, step.file, s');
      GaplessIsUntouched(s');
    }
  }

  /** The new file is none of the inputs. */
  lemma FlushedIsNew(s: State, level: nat, file: File, s': State)
    requires Inv(s) && Flush(s, level, file, s') && s.imm.Some? && s.imm.value != [] && s.job.Some?
    ensures file in s'.levels[level] && file !in s.job.value.inputs1
  {
    JobInLevels(s, s.job.value);
    var l := s.job.value.level + 1;
    assert forall f :: f in s.levels[l] ==> (l, f.number) in s.placed;
  }

  lemma LevelBounds(files: seq<File>)
    requires FilesOk(files)
    ensures forall h :: h in files ==> h.smallest.user <= h.largest.user
  {
    AllBoundsOrdered(files);
  }

  /** Of each compaction: its inputs have no gaps, or no memtable is flushed while it runs. */
  ghost predicate GaplessOrQuiet(run: seq<State>, steps: seq<Step>, n: nat)
    requires n <= |steps| < |run|
  {
    forall i {:trigger steps[i]} :: 0 <= i < n && steps[i].FlushStep? && run[i].job.Some? ==> IsGapless(JobFiles(run[i].job.value))
  }

  /** Such a run is orderly, and so the invariant holds all along. */
  lemma {:induction false} GaplessOrQuietIsOrderly(run: seq<State>, steps: seq<Step>, n: nat)
    requires IsRun(run, steps) && Init(run[0]) && n <= |steps| && GaplessOrQuiet(run, steps, n)
    ensures OrderlyRun(run, steps, n) && Inv(run[n]) && ClearRun(run, steps, n)
  {
    hide Inv, NextStep, ClearStep, IsGapless, JobFiles, FlushesIntoGap, Init;
    if n > 0 {
      GaplessOrQuietIsOrderly(run, steps, n - 1);
      GaplessFlushIsOrderly(run[n - 1], steps[n - 1], run[n]);
    }
    RunKeepsInv(run, steps, n);
  }

  /** The first `n` steps start only compactions whose inputs have no gaps. */
  ghost predicate StartsGapless(steps: seq<Step>, n: nat)
    requires n <= |steps|
  {
    forall i :: 0 <= i < n && steps[i].StartStep? ==> IsGapless(steps[i].inputs0 + steps[i].inputs1)
  }

  lemma {:induction false} JobsAreGapless(run: seq<State>, steps: seq<Step>, n: nat)
    requires IsRun(run, steps) && Init(run[0]) && n <= |steps| && StartsGapless(steps, n)
    ensures run[n].job.Some? ==> IsGapless(JobFiles(run[n].job.value))
  {
    hide NextStep, IsGapless, JobFiles;
    if n > 0 {
      hide Init;
      JobsAreGapless(run, steps, n - 1);
      JobStays(run[n - 1], steps[n - 1], run[n]);
    }
  }

  lemma JobStays(s: State, step: Step, s': State)
    requires NextStep(s, step, s')
    ensures s'.job == s.job || s'.job.None? || (step.StartStep? && JobFiles(s'.job.value) == step.inputs0 + step.inputs1)
  {
  }

  /** If all compactions of a run have inputs without gaps, as all that PickCompaction starts do, the
      invariant holds all along, with flushes beside compactions and without any further condition. */
  lemma GaplessRunKeepsInv(run: seq<State>, steps: seq<Step>, n: nat)
    requires IsRun(run, steps) && Init(run[0]) && n <= |steps| && StartsGapless(steps, n)
    ensures Inv(run[n]) && OrderlyRun(run, steps, n)
  {
    hide Inv, NextStep, IsGapless, JobFiles, Init;
    forall i {:trigger steps[i]} | 0 <= i < n && steps[i].FlushStep? && run[i].job.Some?
      ensures IsGapless(JobFiles(run[i].job.value))
    {
      JobsAreGapless(run, steps, i);
    }
    GaplessOrQuietIsOrderly(run, steps, n);
  }
}
