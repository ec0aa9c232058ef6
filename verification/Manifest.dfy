/** The version set: what is installed is what the manifest says (db/version_set.cc, db/version_set.h). */
module Manifest {
  import opened Wrappers
  import opened Dbformat
  import opened VersionFiles
  import opened VersionBuilder
  import opened VersionEdits

  /** Every number an edit records, for a file or a log, is below `n`. */
  ghost predicate NumbersBelow(edit: VersionEdit, n: nat) {
    && (forall p :: p in edit.newFiles ==> p.1.number < n)
    && (edit.logNumber.Some? ==> edit.logNumber.value < n)
    && (edit.prevLogNumber.Some? ==> edit.prevLogNumber.value < n)
  }

  /** The version set's fields that a manifest accounts for. */
  datatype Fields = Fields(levels: Levels, pointers: seq<Option<InternalKey>>, logNumber: nat, prevLogNumber: nat,
                           lastSequence: nat, nextFile: nat)

  /** The manifest restores what is installed; the sequence number and the next file number are
      those of the last edit written. (Compaction pointers may run ahead of the manifest.) */
  ghost predicate Accounts(edits: seq<VersionEdit>, comparator: Bytes, now: Fields) {
    && NoReadd(edits) && Recoverable(edits, comparator)
    && var r := RecoveredFrom(edits, comparator);
       && r.levels == now.levels
       && r.logNumber == now.logNumber && r.prevLogNumber == now.prevLogNumber
       && r.lastSequence <= now.lastSequence && r.nextFile <= now.nextFile + 1
       && forall e :: e in edits ==> NumbersBelow(e, r.nextFile)
  }

  /** Right after an edit is written, the manifest restores the counters exactly: the sequence number as
      it is, and as next file number the one after the number that Recover takes for its manifest. */
  ghost predicate Restores(edits: seq<VersionEdit>, comparator: Bytes, now: Fields) {
    && Accounts(edits, comparator, now)
    && RecoveredFrom(edits, comparator).lastSequence == now.lastSequence
    && RecoveredFrom(edits, comparator).nextFile == now.nextFile + 1
  }

  /** An edit as LogAndApply completes it. */
  function Completed(edit: VersionEdit, now: Fields): VersionEdit {
    edit.(logNumber := if edit.logNumber.Some? then edit.logNumber else Some(now.logNumber),
          prevLogNumber := if edit.prevLogNumber.Some? then edit.prevLogNumber else Some(now.prevLogNumber),
          nextFileNumber := Some(now.nextFile),
          lastSequence := Some(now.lastSequence))
  }

  ghost function After(now: Fields, edit: VersionEdit): Fields
    requires SortedLevels(now.levels)
  {
    var e := Completed(edit, now);
    now.(levels := Install(now.levels, e), pointers := ApplyPointers(now.pointers, e.compactPointers),
         logNumber := e.logNumber.value, prevLogNumber := e.prevLogNumber.value)
  }

  lemma AppendEdit(edits: seq<VersionEdit>, e: VersionEdit)
    ensures VersionAfter(edits + [e]) == Install(VersionAfter(edits), e)
    ensures PointersAfter(edits + [e]) == ApplyPointers(PointersAfter(edits), e.compactPointers)
    ensures NoReadd(edits + [e]) <==> NoReadd(edits) && NoReaddBy(e, edits)
  {
    assert (edits + [e])[..|edits + [e]| - 1] == edits;
  }

  lemma OneEdit(e: VersionEdit)
    ensures VersionAfter([e]) == Install(NO_FILES, e)
    ensures PointersAfter([e]) == ApplyPointers(NO_POINTERS, e.compactPointers)
    ensures NoReadd([e]) <==> NoReaddBy(e, [])
  {
    AppendEdit([], e);
    assert [] + [e] == [e];
  }

  /** Appending a completed edit keeps the account. */
  lemma AppendAccounts(edits: seq<VersionEdit>, comparator: Bytes, now: Fields, edit: VersionEdit)
    requires Accounts(edits, comparator, now) && NoReaddBy(edit, edits) && ComparatorOk(edit, comparator)
    requires NumbersBelow(edit, now.nextFile) && now.prevLogNumber < now.nextFile && now.logNumber < now.nextFile
    ensures Accounts(edits + [Completed(edit, now)], comparator, After(now, edit))
  {
    var e := Completed(edit, now);
    var all := edits + [e];
    assert all[..|all| - 1] == edits;
    assert forall l, f :: Adds(e, l, f) <==> Adds(edit, l, f);
    assert forall x :: x in all <==> x in edits || x == e;
  }

  lemma SnapshotNumbers(comparator: Bytes, pointers: seq<Option<InternalKey>>, levels: Levels, level: nat)
    requires |levels| == |pointers| == NUM_LEVELS && level < NUM_LEVELS
    ensures NumbersAdded([SnapshotEdit(comparator, pointers, levels)], level) == Numbers(levels[level])
  {
    var snap := SnapshotEdit(comparator, pointers, levels);
    assert [snap][..0] == [];
    forall n
      ensures n in NumbersAdded([snap], level) <==> n in Numbers(levels[level])
    {
      if n in Numbers(levels[level]) {
        var f :| f in levels[level] && f.number == n;
        assert (level, f) in snap.newFiles;
      }
    }
  }

  /** A new manifest, a snapshot and one edit, accounts for the version that the edit leads to. */
  lemma SnapshotAccounts(comparator: Bytes, now: Fields, edit: VersionEdit)
    requires SortedLevels(now.levels) && |now.pointers| == NUM_LEVELS
    requires forall l :: 0 <= l < NUM_LEVELS ==> DistinctNumbers(now.levels[l]) && FreshIn(edit, l, Numbers(now.levels[l]))
    requires forall l, f :: 0 <= l < NUM_LEVELS && f in now.levels[l] ==> f.number < now.nextFile
    requires EditOk(edit) && ComparatorOk(edit, comparator)
    requires NumbersBelow(edit, now.nextFile) && now.prevLogNumber < now.nextFile && now.logNumber < now.nextFile
    ensures Accounts([SnapshotEdit(comparator, ApplyPointers(now.pointers, edit.compactPointers), now.levels),
                      Completed(edit, now)], comparator, After(now, edit))
  {
    var pointers := ApplyPointers(now.pointers, edit.compactPointers);
    var snap, e := SnapshotEdit(comparator, pointers, now.levels), Completed(edit, now);
    SnapshotInstalls(comparator, pointers, now.levels);
    OneEdit(snap);
    AppendEdit([snap], e);
    assert [snap] + [e] == [snap, e];
    forall l | 0 <= l < NUM_LEVELS
      ensures FreshIn(e, l, NumbersAdded([snap], l))
    {
      SnapshotNumbers(comparator, pointers, now.levels, l);
      assert forall f :: Adds(e, l, f) <==> Adds(edit, l, f);
    }
    assert [snap, e][..1] == [snap];
    assert NumbersBelow(snap, now.nextFile);
  }

  /** Installing an edit keeps the numbers of each level distinct and below the next number. */
  lemma InstallKeepsNumbers(before: Levels, edit: VersionEdit, n: nat)
    requires SortedLevels(before) && NumbersBelow(edit, n)
    requires forall l :: 0 <= l < NUM_LEVELS ==> DistinctNumbers(before[l]) && FreshIn(edit, l, Numbers(before[l]))
    requires forall l, f :: 0 <= l < NUM_LEVELS && f in before[l] ==> f.number < n
    ensures forall l :: 0 <= l < NUM_LEVELS ==> DistinctNumbers(Install(before, edit)[l])
    ensures forall l, f :: 0 <= l < NUM_LEVELS && f in Install(before, edit)[l] ==> f.number < n
  {
    forall l | 0 <= l < NUM_LEVELS
      ensures DistinctNumbers(Install(before, edit)[l])
      ensures forall f :: f in Install(before, edit)[l] ==> f.number < n
    {
      InstallLevelIsInstalled(before[l], edit, l);
      assert forall f :: f in before[l] ==> f.number in Numbers(before[l]);
    }
  }

  /** Each prefix of the manifest leads to the version installed when its last edit was written. */
  ghost predicate History(edits: seq<VersionEdit>, installed: seq<Levels>) {
    |installed| == |edits| && forall k :: 0 <= k < |edits| ==> VersionAfter(edits[..k + 1]) == installed[k]
  }

  lemma HistoryAppend(edits: seq<VersionEdit>, installed: seq<Levels>, e: VersionEdit, v: Levels)
    requires History(edits, installed) && VersionAfter(edits + [e]) == v
    ensures History(edits + [e], installed + [v])
  {
    forall k | 0 <= k < |edits| + 1
      ensures VersionAfter((edits + [e])[..k + 1]) == (installed + [v])[k]
    {
      assert k < |edits| ==> (edits + [e])[..k + 1] == edits[..k + 1];
      assert k == |edits| ==> (edits + [e])[..k + 1] == edits + [e];
    }
  }

  lemma HistoryOfSnapshot(comparator: Bytes, pointers: seq<Option<InternalKey>>, levels: Levels)
    requires SortedLevels(levels) && |pointers| == NUM_LEVELS && forall l :: 0 <= l < NUM_LEVELS ==> DistinctNumbers(levels[l])
    ensures History([SnapshotEdit(comparator, pointers, levels)], [levels])
    ensures VersionAfter([SnapshotEdit(comparator, pointers, levels)]) == levels
  {
    SnapshotInstalls(comparator, pointers, levels);
    OneEdit(SnapshotEdit(comparator, pointers, levels));
    assert [SnapshotEdit(comparator, pointers, levels)][..1] == [SnapshotEdit(comparator, pointers, levels)];
  }

  // ---------- One LogAndApply ----------

  ghost predicate Consistent(comparator: Bytes, now: Fields, manifest: Option<seq<VersionEdit>>, installed: seq<Levels>) {
    && SortedLevels(now.levels) && |now.pointers| == NUM_LEVELS
    && (forall l :: 0 <= l < NUM_LEVELS ==> DistinctNumbers(now.levels[l]))
    && (forall l, f :: 0 <= l < NUM_LEVELS && f in now.levels[l] ==> f.number < now.nextFile)
    && now.logNumber < now.nextFile && now.prevLogNumber < now.nextFile
    && (manifest.Some? ==> Accounts(manifest.value, comparator, now) && History(manifest.value, installed))
  }

  /** What LogAndApply asks of an edit: known levels, numbers handed out before, and no (level,
      number) pair that the version or the manifest has seen. */
  ghost predicate Applicable(comparator: Bytes, now: Fields, manifest: Option<seq<VersionEdit>>, edit: VersionEdit)
    requires |now.levels| == NUM_LEVELS
  {
    && EditOk(edit) && ComparatorOk(edit, comparator) && NumbersBelow(edit, now.nextFile)
    && (edit.logNumber.Some? ==> edit.logNumber.value >= now.logNumber)
    && (forall l :: 0 <= l < NUM_LEVELS ==> FreshIn(edit, l, Numbers(now.levels[l])))
    && (manifest.Some? ==> NoReaddBy(edit, manifest.value))
  }

  /** The manifest after LogAndApply: a new one starts with a snapshot of the old version. */
  function Written(comparator: Bytes, now: Fields, manifest: Option<seq<VersionEdit>>, edit: VersionEdit): seq<VersionEdit> {
    (if manifest.Some? then manifest.value
     else [SnapshotEdit(comparator, ApplyPointers(now.pointers, edit.compactPointers), now.levels)])
    + [Completed(edit, now)]
  }

  lemma LogAndApplyAccounts(comparator: Bytes, now: Fields, manifest: Option<seq<VersionEdit>>, installed: seq<Levels>, edit: VersionEdit)
    requires Consistent(comparator, now, manifest, installed) && Applicable(comparator, now, manifest, edit)
    ensures Accounts(Written(comparator, now, manifest, edit), comparator, After(now, edit))
    ensures History(Written(comparator, now, manifest, edit),
                    (if manifest.Some? then installed else [now.levels]) + [After(now, edit).levels])
    ensures Restores(Written(comparator, now, manifest, edit), comparator, After(now, edit))
    ensures
      manifest.None? || ApplyPointers(PointersAfter(manifest.value), edit.compactPointers) == After(now, edit).pointers ==>
        RecoveredFrom(Written(comparator, now, manifest, edit), comparator).pointers == After(now, edit).pointers
  {
    var pointers, e := ApplyPointers(now.pointers, edit.compactPointers), Completed(edit, now);
    var snap := SnapshotEdit(comparator, pointers, now.levels);
    if manifest.Some? {
      AppendAccounts(manifest.value, comparator, now, edit);
      HistoryAppend(manifest.value, installed, e, After(now, edit).levels);
    } else {
      SnapshotAccounts(comparator, now, edit);
      assert [snap] + [e] == [snap, e];
      HistoryOfSnapshot(comparator, pointers, now.levels);
      HistoryAppend([snap], [now.levels], e, After(now, edit).levels);
      NewManifestPointers(comparator, now, edit);
    }
    AppendEdit(if manifest.Some? then manifest.value else [snap], e);
    AppendFields(if manifest.Some? then manifest.value else [snap], e);
  }

  lemma LogAndApplyKeeps(comparator: Bytes, now: Fields, manifest: Option<seq<VersionEdit>>, installed: seq<Levels>, edit: VersionEdit)
    requires Consistent(comparator, now, manifest, installed) && Applicable(comparator, now, manifest, edit)
    ensures Consistent(comparator, After(now, edit), Some(Written(comparator, now, manifest, edit)),
                       (if manifest.Some? then installed else [now.levels]) + [After(now, edit).levels])
    ensures Restores(Written(comparator, now, manifest, edit), comparator, After(now, edit))
  {
    LogAndApplyAccounts(comparator, now, manifest, installed, edit);
    assert forall l, f :: Adds(Completed(edit, now), l, f) <==> Adds(edit, l, f);
    InstallKeepsNumbers(now.levels, Completed(edit, now), now.nextFile);
  }

  /** The fields that LogAndApply sets in the edit it is given. */
  method CompleteEdit(edit: VersionEdit, now: Fields) returns (e: VersionEdit)
    ensures e == Completed(edit, now)
    ensures forall l, f :: Adds(e, l, f) <==> Adds(edit, l, f)
  {
    e := edit;
    if e.logNumber.None? {
      e := e.(logNumber := Some(now.logNumber));
    }
    if e.prevLogNumber.None? {
      e := e.(prevLogNumber := Some(now.prevLogNumber));
    }
    e := e.(nextFileNumber := Some(now.nextFile));
    e := e.(lastSequence := Some(now.lastSequence));
  }

  /** Builder, Apply and SaveTo for one edit on top of a version. */
  method BuildVersion(levels: Levels, pointers: seq<Option<InternalKey>>, e: VersionEdit)
    returns (v: Levels, p: seq<Option<InternalKey>>)
    requires SortedLevels(levels) && |pointers| == NUM_LEVELS && EditOk(e)
    requires forall l :: 0 <= l < NUM_LEVELS ==> FreshIn(e, l, Numbers(levels[l]))
    ensures v == Install(levels, e) && p == ApplyPointers(pointers, e.compactPointers)
  {
    var builder := new Builder(levels, pointers);
    builder.Apply(e);
    v := builder.SaveTo();
    p := builder.pointers;
  }

  // ---------- Recovery ----------

  ghost function RecoverStatus(edits: seq<VersionEdit>, comparator: Bytes): Status {
    if exists e :: e in edits && !ComparatorOk(e, comparator) then WrongComparator
    else if LastRecorded(edits, NextFileField).None? then NoNextFile
    else if LastRecorded(edits, LogField).None? then NoLogNumber
    else if LastRecorded(edits, SequenceField).None? then NoLastSequence
    else Ok
  }

  /** What the recovery loop has gathered from the edits it has read. */
  ghost predicate Replayed(edits: seq<VersionEdit>, version: Levels, pointers: seq<Option<InternalKey>>,
                           nextFile: Option<nat>, sequence: Option<nat>, log: Option<nat>, prevLog: Option<nat>) {
    && version == VersionAfter(edits) && pointers == PointersAfter(edits)
    && nextFile == LastRecorded(edits, NextFileField) && sequence == LastRecorded(edits, SequenceField)
    && log == LastRecorded(edits, LogField) && prevLog == LastRecorded(edits, PrevLogField)
  }

  lemma AppendField(edits: seq<VersionEdit>, e: VersionEdit, field: VersionEdit -> Option<nat>)
    ensures LastRecorded(edits + [e], field) == if field(e).Some? then field(e) else LastRecorded(edits, field)
  {
    assert (edits + [e])[..|edits + [e]| - 1] == edits;
  }

  lemma AppendFields(edits: seq<VersionEdit>, e: VersionEdit)
    ensures LastRecorded(edits + [e], NextFileField) == if e.nextFileNumber.Some? then e.nextFileNumber else LastRecorded(edits, NextFileField)
    ensures LastRecorded(edits + [e], SequenceField) == if e.lastSequence.Some? then e.lastSequence else LastRecorded(edits, SequenceField)
    ensures LastRecorded(edits + [e], LogField) == if e.logNumber.Some? then e.logNumber else LastRecorded(edits, LogField)
    ensures LastRecorded(edits + [e], PrevLogField) == if e.prevLogNumber.Some? then e.prevLogNumber else LastRecorded(edits, PrevLogField)
  {
    AppendField(edits, e, NextFileField);
    AppendField(edits, e, SequenceField);
    AppendField(edits, e, LogField);
    AppendField(edits, e, PrevLogField);
  }

  lemma AddedNumbers(edits: seq<VersionEdit>, e: VersionEdit, level: nat)
    ensures NumbersAdded(edits, level) <= NumbersAdded(edits + [e], level)
    ensures forall f :: Adds(e, level, f) ==> f.number in NumbersAdded(edits + [e], level)
    ensures forall n :: n in NumbersAdded(edits + [e], level) ==>
              n in NumbersAdded(edits, level) || exists f :: Adds(e, level, f) && f.number == n
  {
    assert (edits + [e])[..|edits + [e]| - 1] == edits;
    forall f | Adds(e, level, f)
      ensures f.number in NumbersAdded(edits + [e], level)
    {
      assert (level, f) in e.newFiles;
    }
    forall n | n in NumbersAdded(edits + [e], level) && n !in NumbersAdded(edits, level)
      ensures exists f :: Adds(e, level, f) && f.number == n
    {
      var p :| p in e.newFiles && p.0 == level && p.1.number == n;
      assert Adds(e, level, p.1);
    }
  }

  /** The levels of a recovered version hold distinct numbers, all of them added at that level. */
  lemma {:induction false} RecoveredNumbers(edits: seq<VersionEdit>)
    requires NoReadd(edits)
    ensures forall l :: 0 <= l < NUM_LEVELS ==>
              DistinctNumbers(VersionAfter(edits)[l]) && Numbers(VersionAfter(edits)[l]) <= NumbersAdded(edits, l)
  {
    if edits != [] {
      var before, e := edits[..|edits| - 1], edits[|edits| - 1];
      assert before + [e] == edits;
      RecoveredNumbers(before);
      forall l | 0 <= l < NUM_LEVELS
        ensures DistinctNumbers(VersionAfter(edits)[l]) && Numbers(VersionAfter(edits)[l]) <= NumbersAdded(edits, l)
      {
        var files := VersionAfter(before)[l];
        AddedNumbers(before, e, l);
        assert forall f :: f in files ==> f.number in Numbers(files);
        InstallLevelIsInstalled(files, e, l);
      }
    }
  }

  ghost function VersionsOf(edits: seq<VersionEdit>): (r: seq<Levels>)
    ensures History(edits, r)
  {
    seq(|edits|, k requires 0 <= k < |edits| => VersionAfter(edits[..k + 1]))
  }

  /** What recovery ends with is consistent, if all recorded numbers are below the recorded next one. */
  lemma RecoveredConsistent(edits: seq<VersionEdit>, comparator: Bytes)
    requires NoReadd(edits) && Recoverable(edits, comparator)
    ensures
      var r := RecoveredFrom(edits, comparator);
      var now := Fields(r.levels, r.pointers, r.logNumber, r.prevLogNumber, r.lastSequence, r.nextFile);
      (forall e :: e in edits ==> NumbersBelow(e, r.nextFile)) ==>
        Consistent(comparator, now, None, []) && Consistent(comparator, now, Some(edits), VersionsOf(edits))
  {
    var r := RecoveredFrom(edits, comparator);
    if forall e :: e in edits ==> NumbersBelow(e, r.nextFile) {
      RecoveredNumbers(edits);
      BelowAfterAll(edits, r.nextFile);
      LastIsOfOne(edits, LogField);
      LastIsOfOne(edits, PrevLogField);
      RecoveredFilesBelow(r.levels, edits, r.nextFile);
    }
  }

  lemma RecoveredFilesBelow(levels: Levels, edits: seq<VersionEdit>, n: nat)
    requires |levels| == NUM_LEVELS
    requires forall l :: 0 <= l < NUM_LEVELS ==> Numbers(levels[l]) <= NumbersAdded(edits, l)
    requires forall l, k :: 0 <= l < NUM_LEVELS && k in NumbersAdded(edits, l) ==> k < n
    ensures forall l, f :: 0 <= l < NUM_LEVELS && f in levels[l] ==> f.number < n
  {
    forall l, f | 0 <= l < NUM_LEVELS && f in levels[l]
      ensures f.number < n
    {
      assert f.number in Numbers(levels[l]);
    }
  }

  lemma {:induction false} BelowAfterAll(edits: seq<VersionEdit>, n: nat)
    requires forall e :: e in edits ==> NumbersBelow(e, n)
    ensures forall l, k :: 0 <= l < NUM_LEVELS && k in NumbersAdded(edits, l) ==> k < n
  {
    if edits != [] {
      var before, e := edits[..|edits| - 1], edits[|edits| - 1];
      assert e in edits;
      BelowAfterAll(before, n);
    }
  }

  lemma {:induction false} LastIsOfOne(edits: seq<VersionEdit>, field: VersionEdit -> Option<nat>)
    ensures LastRecorded(edits, field).Some? ==> exists e :: e in edits && field(e) == LastRecorded(edits, field)
  {
    if edits != [] {
      assert edits[|edits| - 1] in edits;
      LastIsOfOne(edits[..|edits| - 1], field);
    }
  }

  method ReplayManifest(comparator: Bytes, edits: seq<VersionEdit>)
    returns (status: Status, version: Levels, pointers: seq<Option<InternalKey>>,
             nextFile: Option<nat>, sequence: Option<nat>, log: Option<nat>, prevLog: Option<nat>)
    requires NoReadd(edits)
    ensures status == if exists e :: e in edits && !ComparatorOk(e, comparator) then WrongComparator else Ok
    ensures status.Ok? ==> Replayed(edits, version, pointers, nextFile, sequence, log, prevLog)
  {
    var builder := new Builder(NO_FILES, NO_POINTERS);
    nextFile, sequence, log, prevLog, version, pointers := None, None, None, None, NO_FILES, NO_POINTERS;
    status := Ok;
    for i := 0 to |edits|
      invariant builder.Valid() && fresh(builder) && builder.base == NO_FILES
      invariant status == Ok && forall e :: e in edits[..i] ==> ComparatorOk(e, comparator)
      invariant Replayed(edits[..i], builder.version, builder.pointers, nextFile, sequence, log, prevLog)
      invariant forall l :: 0 <= l < NUM_LEVELS ==> Known(NO_FILES[l], builder.levels[l]) <= NumbersAdded(edits[..i], l)
    {
      var edit := edits[i];
      assert edits[..i + 1] == edits[..i] + [edit];
      if !ComparatorOk(edit, comparator) {
        assert edit in edits;
        return WrongComparator, version, pointers, nextFile, sequence, log, prevLog;
      }
      NoReaddPrefix(edits, i + 1);
      AppendEdit(edits[..i], edit);
      AppendFields(edits[..i], edit);
      ghost var known := builder.levels;
      builder.Apply(edit);
      KnownGrows(edits[..i], edit, known, builder.levels);
      log := if edit.logNumber.Some? then edit.logNumber else log;
      prevLog := if edit.prevLogNumber.Some? then edit.prevLogNumber else prevLog;
      nextFile := if edit.nextFileNumber.Some? then edit.nextFileNumber else nextFile;
      sequence := if edit.lastSequence.Some? then edit.lastSequence else sequence;
    }
    assert edits[..|edits|] == edits;
    version := builder.SaveTo();
    pointers := builder.pointers;
  }

  lemma KnownGrows(edits: seq<VersionEdit>, e: VersionEdit, before: seq<LevelState>, after: seq<LevelState>)
    requires |before| == |after| == NUM_LEVELS
    requires forall l :: 0 <= l < NUM_LEVELS ==> Known(NO_FILES[l], before[l]) <= NumbersAdded(edits, l)
    requires forall l :: 0 <= l < NUM_LEVELS ==>
               forall n :: n in Known(NO_FILES[l], after[l]) ==>
                 n in Known(NO_FILES[l], before[l]) || exists f :: Adds(e, l, f) && f.number == n
    ensures forall l :: 0 <= l < NUM_LEVELS ==> Known(NO_FILES[l], after[l]) <= NumbersAdded(edits + [e], l)
  {
    forall l | 0 <= l < NUM_LEVELS
      ensures Known(NO_FILES[l], after[l]) <= NumbersAdded(edits + [e], l)
    {
      AddedNumbers(edits, e, l);
    }
  }

  /** LogAndApply on the fields it reads and writes: complete the edit, build the version, write
      the edit, after a snapshot of the old version if the manifest is new. */
  method LogEdit(comparator: Bytes, now: Fields, manifest: Option<seq<VersionEdit>>, edit: VersionEdit)
    returns (next: Fields, written: seq<VersionEdit>)
    requires SortedLevels(now.levels) && |now.pointers| == NUM_LEVELS && EditOk(edit)
    requires forall l :: 0 <= l < NUM_LEVELS ==> FreshIn(edit, l, Numbers(now.levels[l]))
    ensures next == After(now, edit) && written == Written(comparator, now, manifest, edit)
  {
    var e := CompleteEdit(edit, now);
    var v, p := BuildVersion(now.levels, now.pointers, e);
    written := if manifest.Some? then manifest.value else [SnapshotEdit(comparator, p, now.levels)];
    written := written + [e];
    next := now.(levels := v, pointers := p, logNumber := e.logNumber.value, prevLogNumber := e.prevLogNumber.value);
  }

  /** A new manifest restores the compaction pointers, too. */
  lemma NewManifestPointers(comparator: Bytes, now: Fields, edit: VersionEdit)
    requires |now.pointers| == |now.levels| == NUM_LEVELS
    ensures PointersAfter(Written(comparator, now, None, edit)) == ApplyPointers(now.pointers, edit.compactPointers)
  {
    var pointers, e := ApplyPointers(now.pointers, edit.compactPointers), Completed(edit, now);
    var snap := SnapshotEdit(comparator, pointers, now.levels);
    SnapshotPointers(comparator, pointers, now.levels);
    PointersTwice(now.pointers, edit.compactPointers);
    OneEdit(snap);
    AppendEdit([snap], e);
  }

  class VersionSet {
    const comparator: Bytes
    var nextFileNumber: nat
    var manifestFileNumber: nat
    var lastSequence: nat
    var logNumber: nat
    var prevLogNumber: nat
    var current: Levels
    var pointers: seq<Option<InternalKey>>
    /** The edits written to the open manifest, if one is open. */
    var manifest: Option<seq<VersionEdit>>
    /** The version that was installed when each of them had been written. */
    ghost var installed: seq<Levels>

    function Now(): Fields
      reads this
    {
      Fields(current, pointers, logNumber, prevLogNumber, lastSequence, nextFileNumber)
    }

    ghost predicate Valid()
      reads this
    {
      Consistent(comparator, Now(), manifest, installed)
    }

    constructor (name: Bytes)
      ensures Valid() && comparator == name && manifest.None?
      ensures Now() == Fields(NO_FILES, NO_POINTERS, 0, 0, 0, 2)
    {
      comparator := name;
      nextFileNumber, manifestFileNumber, lastSequence, logNumber, prevLogNumber := 2, 0, 0, 0, 0;
      current, pointers, manifest, installed := NO_FILES, NO_POINTERS, None, [];
    }

    method NewFileNumber() returns (n: nat)
      requires Valid()
      modifies this`nextFileNumber
      ensures Valid() && n == old(nextFileNumber) && nextFileNumber == n + 1
    {
      n := nextFileNumber;
      nextFileNumber := nextFileNumber + 1;
    }

    /** SetupOtherInputs moves the compaction pointer before the edit is applied. */
    method SetCompactPointer(level: nat, key: InternalKey)
      requires Valid() && level < NUM_LEVELS
      modifies this`pointers
      ensures Valid() && pointers == old(pointers)[level := Some(key)]
    {
      pointers := pointers[level := Some(key)];
    }

    method SetLastSequence(s: nat)
      requires Valid() && s >= lastSequence
      modifies this`lastSequence
      ensures Valid() && lastSequence == s
    {
      lastSequence := s;
    }

    /** LogAndApply, with every write succeeding: the edit is installed and written down. */
    method LogAndApply(edit: VersionEdit)
      requires Valid() && Applicable(comparator, Now(), manifest, edit)
      modifies this
      ensures Valid() && Now() == old(After(Now(), edit))
      ensures manifest == Some(old(Written(comparator, Now(), manifest, edit)))
      ensures installed == old((if manifest.Some? then installed else [current])) + [current]
      ensures Restores(manifest.value, comparator, Now())
    {
      LogAndApplyKeeps(comparator, Now(), manifest, installed, edit);
      var next, written := LogEdit(comparator, Now(), manifest, edit);
      installed := (if manifest.Some? then installed else [current]) + [next.levels];
      manifest := Some(written);
      current, pointers, logNumber, prevLogNumber := next.levels, next.pointers, next.logNumber, next.prevLogNumber;
      assert Now() == next;
    }

    /** A number in use is never handed out, nor is any number twice. */
    method MarkFileNumberUsed(n: nat)
      modifies this`nextFileNumber
      ensures nextFileNumber > n && nextFileNumber >= old(nextFileNumber)
      ensures n < old(nextFileNumber) ==> nextFileNumber == old(nextFileNumber)
      ensures nextFileNumber == old(nextFileNumber) || nextFileNumber == n + 1
      ensures old(Valid()) ==> Valid()
    {
      if nextFileNumber <= n {
        nextFileNumber := n + 1;
      }
    }

    /** Recover: one builder takes all edits of the manifest. The manifest may be written on if
        the options say so. */
    method Recover(edits: seq<VersionEdit>, reuse: Option<nat>) returns (status: Status)
      requires Valid() && manifest.None? && current == NO_FILES && pointers == NO_POINTERS
      requires NoReadd(edits)
      modifies this
      ensures status == RecoverStatus(edits, comparator)
      ensures status.Ok? ==>
        var r := RecoveredFrom(edits, comparator);
        Now() == Fields(r.levels, r.pointers, r.logNumber, r.prevLogNumber, r.lastSequence, r.nextFile)
      ensures status.Ok? && (forall e :: e in edits ==> NumbersBelow(e, nextFileNumber)) ==> Valid()
    {
      var log, prevLog, nextFile, sequence, version, p;
      status, version, p, nextFile, sequence, log, prevLog := ReplayManifest(comparator, edits);
      if !status.Ok? {
        return;
      }
      status := if nextFile.None? then NoNextFile else if log.None? then NoLogNumber
        else if sequence.None? then NoLastSequence else Ok;
      var prev := if prevLog.Some? then prevLog.value else 0;
      MarkFileNumberUsed(prev);
      MarkFileNumberUsed(if log.Some? then log.value else 0);
      if status.Ok? {
        InstallRecovered(edits, Recovered(version, p, log.value, prev, sequence.value, nextFile.value + 1), reuse);
      }
    }

    method InstallRecovered(edits: seq<VersionEdit>, r: Recovered, reuse: Option<nat>)
      requires NoReadd(edits) && Recoverable(edits, comparator) && r == RecoveredFrom(edits, comparator)
      requires r.nextFile > 0 && manifest.None?
      modifies this
      ensures Now() == Fields(r.levels, r.pointers, r.logNumber, r.prevLogNumber, r.lastSequence, r.nextFile)
      ensures (forall e :: e in edits ==> NumbersBelow(e, nextFileNumber)) ==> Valid()
      ensures manifest == (if reuse.Some? then Some(edits) else None)
    {
      RecoveredConsistent(edits, comparator);
      current, pointers := r.levels, r.pointers;
      manifestFileNumber := r.nextFile - 1;
      nextFileNumber := r.nextFile;
      lastSequence, logNumber, prevLogNumber := r.lastSequence, r.logNumber, r.prevLogNumber;
      installed := [];
      if reuse.Some? {
        manifest, manifestFileNumber := Some(edits), reuse.value;
        installed := VersionsOf(edits);
      }
    }
  }
}
