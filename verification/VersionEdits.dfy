/** Installing version edits, logging them to the manifest, and replaying the manifest
    (VersionSet in db/version_set.cc). */
module VersionEdits {
  import opened Wrappers
  import opened Dbformat
  import opened VersionFiles
  import opened VersionBuilder

  // ---------- The version an edit installs ----------

  ghost predicate SortedLevels(levels: Levels) {
    |levels| == NUM_LEVELS && forall l :: 0 <= l < NUM_LEVELS ==> SortedFiles(levels[l])
  }

  function Survivors(files: seq<File>, level: nat, deleted: set<(nat, nat)>): (r: seq<File>)
    ensures forall f :: f in r <==> f in files && (level, f.number) !in deleted
  {
    if files == [] then []
    else
      assert files == [files[0]] + files[1..];
      var rest := Survivors(files[1..], level, deleted);
      if (level, files[0].number) in deleted then rest else [files[0]] + rest
  }

  lemma {:induction false} SurvivorsSorted(files: seq<File>, level: nat, deleted: set<(nat, nat)>)
    requires SortedFiles(files)
    ensures SortedFiles(Survivors(files, level, deleted))
  {
    if files != [] {
      SurvivorsSorted(files[1..], level, deleted);
      assert forall f :: f in Survivors(files[1..], level, deleted) ==> FileLess(files[0], f);
    }
  }

  function InsertFiles(files: seq<File>, news: seq<(nat, File)>, level: nat): (r: seq<File>)
    requires SortedFiles(files)
    ensures SortedFiles(r)
    decreases |news|
  {
    if news == [] then files
    else InsertFiles(if news[0].0 == level then InsertFile(files, news[0].1) else files, news[1..], level)
  }

  ghost function InstallLevel(before: seq<File>, edit: VersionEdit, level: nat): (after: seq<File>)
    requires SortedFiles(before)
    ensures SortedFiles(after)
  {
    SurvivorsSorted(before, level, edit.deletedFiles);
    InsertFiles(Survivors(before, level, edit.deletedFiles), edit.newFiles, level)
  }

  /** The version after an edit: deleted files gone, added ones in their places. */
  ghost function Install(before: Levels, edit: VersionEdit): (after: Levels)
    requires SortedLevels(before)
    ensures SortedLevels(after)
  {
    seq(NUM_LEVELS, l requires 0 <= l < NUM_LEVELS => InstallLevel(before[l], edit, l))
  }

  /** Files with equal numbers are equal: no added file can be taken for another. */
  ghost predicate NumbersTell(files: seq<File>, news: seq<(nat, File)>, level: nat) {
    && (forall f, g :: f in files && (level, g) in news && f.number == g.number ==> f == g)
    && (forall f, g :: (level, f) in news && (level, g) in news && f.number == g.number ==> f == g)
  }

  lemma InsertOne(files: seq<File>, f: File)
    requires SortedFiles(files)
    requires forall x :: x in files && x.number == f.number ==> x == f
    ensures forall x :: x in InsertFile(files, f) <==> x == f || x in files
  {
    var x :| x in InsertFile(files, f) && x.number == f.number && (x == f || x in files);
    assert x == f;
  }

  lemma {:induction false} InsertFilesMembers(files: seq<File>, news: seq<(nat, File)>, level: nat)
    requires SortedFiles(files) && NumbersTell(files, news, level)
    ensures forall f :: f in InsertFiles(files, news, level) <==> f in files || (level, f) in news
    decreases |news|
  {
    if news != [] {
      var (l, f) := news[0];
      assert news == [(l, f)] + news[1..];
      if l == level {
        assert (level, f) in news;
        InsertOne(files, f);
        InsertFilesMembers(InsertFile(files, f), news[1..], level);
      } else {
        InsertFilesMembers(files, news[1..], level);
      }
    }
  }

  ghost function Numbers(files: seq<File>): set<nat> {
    set f | f in files :: f.number
  }

  lemma InstallLevelIsInstalled(before: seq<File>, edit: VersionEdit, level: nat)
    requires SortedFiles(before) && FreshIn(edit, level, Numbers(before))
    ensures InstalledLevel(before, edit, level, InstallLevel(before, edit, level))
  {
    SurvivorsSorted(before, level, edit.deletedFiles);
    var survivors := Survivors(before, level, edit.deletedFiles);
    forall f, g | f in survivors && (level, g) in edit.newFiles
      ensures f.number != g.number
    {
      assert Adds(edit, level, g) && f.number in Numbers(before);
    }
    assert NumbersTell(survivors, edit.newFiles, level) by {
      assert forall f :: (level, f) in edit.newFiles ==> Adds(edit, level, f);
    }
    InsertFilesMembers(survivors, edit.newFiles, level);
    assert forall f :: Adds(edit, level, f) <==> (level, f) in edit.newFiles;
  }

  /** VersionEdit's compaction pointers, the later ones overriding the earlier ones. */
  function ApplyPointers(pointers: seq<Option<InternalKey>>, changes: seq<(nat, InternalKey)>): (r: seq<Option<InternalKey>>)
    ensures |r| == |pointers|
    decreases |changes|
  {
    if changes == [] then pointers
    else ApplyPointers(
      if changes[0].0 < |pointers| then pointers[changes[0].0 := Some(changes[0].1)] else pointers, changes[1..])
  }

  // ---------- Builder ----------

  class Builder {
    const base: Levels
    var levels: seq<LevelState>
    var pointers: seq<Option<InternalKey>>
    /** The version that the edits applied so far lead to. */
    ghost var version: Levels

    ghost predicate Valid()
      reads this
    {
      && SortedLevels(base) && SortedLevels(version)
      && |levels| == |pointers| == NUM_LEVELS
      && forall l :: 0 <= l < NUM_LEVELS ==> Represents(base[l], levels[l], version[l])
    }

    constructor (b: Levels, p: seq<Option<InternalKey>>)
      requires SortedLevels(b) && |p| == NUM_LEVELS
      ensures Valid() && base == b && version == b && pointers == p
      ensures forall l :: 0 <= l < NUM_LEVELS ==> Known(base[l], levels[l]) == Numbers(base[l])
    {
      base, version, pointers := b, b, p;
      levels := seq(NUM_LEVELS, l => LevelState({}, []));
    }

    /** Builder::Apply, for an edit that adds no (level, number) pair a second time. */
    method Apply(edit: VersionEdit)
      requires Valid() && EditOk(edit)
      requires forall l :: 0 <= l < NUM_LEVELS ==> FreshIn(edit, l, Known(base[l], levels[l]))
      modifies this
      ensures Valid() && version == Install(old(version), edit)
      ensures pointers == ApplyPointers(old(pointers), edit.compactPointers)
      ensures forall l :: 0 <= l < NUM_LEVELS ==>
        forall n :: n in Known(base[l], levels[l]) ==>
          n in Known(base[l], old(levels)[l]) || exists f :: Adds(edit, l, f) && f.number == n
    {
      for i := 0 to |edit.compactPointers|
        invariant |pointers| == NUM_LEVELS && levels == old(levels) && version == old(version)
        invariant ApplyPointers(pointers, edit.compactPointers[i..]) == ApplyPointers(old(pointers), edit.compactPointers)
      {
        var (level, key) := edit.compactPointers[i];
        assert edit.compactPointers[i..][1..] == edit.compactPointers[i + 1..];
        pointers := pointers[level := Some(key)];
      }
      ghost var before, after, sts := version, Install(version, edit), levels;
      for l := 0 to NUM_LEVELS
        invariant |levels| == NUM_LEVELS && version == before
        invariant pointers == ApplyPointers(old(pointers), edit.compactPointers)
        invariant forall k :: l <= k < NUM_LEVELS ==> levels[k] == sts[k]
        invariant forall k :: 0 <= k < l ==> Represents(base[k], levels[k], after[k])
        invariant forall k :: 0 <= k < l ==>
          forall n :: n in Known(base[k], levels[k]) ==>
            n in Known(base[k], sts[k]) || exists f :: Adds(edit, k, f) && f.number == n
      {
        assert FreshIn(edit, l, Numbers(before[l]));
        InstallLevelIsInstalled(before[l], edit, l);
        var st := ApplyLevel(levels[l], edit, l, base[l], before[l], after[l]);
        levels := levels[l := st];
      }
      version := after;
    }

    /** Builder::SaveTo. */
    method SaveTo() returns (v: Levels)
      requires Valid()
      ensures v == version
    {
      v := [];
      for l := 0 to NUM_LEVELS
        invariant |v| == l && v == version[..l]
      {
        var files := SaveLevel(base[l], levels[l], version[l]);
        v := v + [files];
      }
    }
  }

  // ---------- A manifest as a list of edits ----------

  const NO_FILES: Levels := [[], [], [], [], [], [], []]
  const NO_POINTERS: seq<Option<InternalKey>> := [None, None, None, None, None, None, None]

  /** The version that the edits lead to, one after the other, from the empty version. */
  ghost function VersionAfter(edits: seq<VersionEdit>): (v: Levels)
    ensures SortedLevels(v)
  {
    if edits == [] then NO_FILES else Install(VersionAfter(edits[..|edits| - 1]), edits[|edits| - 1])
  }

  function PointersAfter(edits: seq<VersionEdit>): (r: seq<Option<InternalKey>>)
    ensures |r| == NUM_LEVELS
  {
    if edits == [] then NO_POINTERS
    else ApplyPointers(PointersAfter(edits[..|edits| - 1]), edits[|edits| - 1].compactPointers)
  }

  /** The last value that an edit records for a field. */
  function LastRecorded(edits: seq<VersionEdit>, field: VersionEdit -> Option<nat>): Option<nat> {
    if edits == [] then None
    else
      var last := field(edits[|edits| - 1]);
      if last.Some? then last else LastRecorded(edits[..|edits| - 1], field)
  }

  function LogField(e: VersionEdit): Option<nat> { e.logNumber }
  function PrevLogField(e: VersionEdit): Option<nat> { e.prevLogNumber }
  function NextFileField(e: VersionEdit): Option<nat> { e.nextFileNumber }
  function SequenceField(e: VersionEdit): Option<nat> { e.lastSequence }

  /** The numbers that edits have added to a level so far, deleted again or not. */
  ghost function NumbersAdded(edits: seq<VersionEdit>, level: nat): set<nat> {
    if edits == [] then {}
    else
      var last := edits[|edits| - 1];
      NumbersAdded(edits[..|edits| - 1], level) + set p | p in last.newFiles && p.0 == level :: p.1.number
  }

  ghost predicate NoReaddBy(edit: VersionEdit, edits: seq<VersionEdit>) {
    EditOk(edit) && forall l :: 0 <= l < NUM_LEVELS ==> FreshIn(edit, l, NumbersAdded(edits, l))
  }

  /** No (level, number) pair is added twice. */
  ghost predicate NoReadd(edits: seq<VersionEdit>) {
    edits != [] ==> NoReadd(edits[..|edits| - 1]) && NoReaddBy(edits[|edits| - 1], edits[..|edits| - 1])
  }

  lemma {:induction false} NoReaddPrefix(edits: seq<VersionEdit>, k: nat)
    requires NoReadd(edits) && k <= |edits|
    ensures NoReadd(edits[..k])
    decreases |edits|
  {
    if k < |edits| {
      assert edits[..|edits| - 1][..k] == edits[..k];
      NoReaddPrefix(edits[..|edits| - 1], k);
    } else {
      assert edits[..k] == edits;
    }
  }

  predicate ComparatorOk(edit: VersionEdit, comparator: Bytes) {
    edit.comparator.Some? ==> edit.comparator.value == comparator
  }

  datatype Status = Ok | WrongComparator | NoNextFile | NoLogNumber | NoLastSequence

  /** Everything that recovery restores. */
  datatype Recovered = Recovered(levels: Levels, pointers: seq<Option<InternalKey>>, logNumber: nat, prevLogNumber: nat,
                                 lastSequence: nat, nextFile: nat)

  /** The edits are all readable and together name all that recovery needs. */
  predicate Recoverable(edits: seq<VersionEdit>, comparator: Bytes) {
    && (forall e :: e in edits ==> ComparatorOk(e, comparator))
    && LastRecorded(edits, NextFileField).Some?
    && LastRecorded(edits, LogField).Some?
    && LastRecorded(edits, SequenceField).Some?
  }

  ghost function RecoveredFrom(edits: seq<VersionEdit>, comparator: Bytes): Recovered
    requires Recoverable(edits, comparator)
  {
    var prevLog := LastRecorded(edits, PrevLogField);
    Recovered(VersionAfter(edits), PointersAfter(edits), LastRecorded(edits, LogField).value,
              if prevLog.Some? then prevLog.value else 0, LastRecorded(edits, SequenceField).value,
              LastRecorded(edits, NextFileField).value + 1)
  }

  // ---------- WriteSnapshot ----------

  function PointerList(pointers: seq<Option<InternalKey>>, from: nat): (r: seq<(nat, InternalKey)>)
    requires from <= |pointers|
    ensures forall i :: 0 <= i < |r| ==> r[i].0 < |pointers|
    decreases |pointers| - from
  {
    if from == |pointers| then []
    else (if pointers[from].Some? then [(from, pointers[from].value)] else []) + PointerList(pointers, from + 1)
  }

  function FilesOfLevel(level: nat, files: seq<File>): (r: seq<(nat, File)>)
    ensures |r| == |files|
    ensures forall i :: 0 <= i < |files| ==> r[i] == (level, files[i])
  {
    seq(|files|, i requires 0 <= i < |files| => (level, files[i]))
  }

  function FileList(levels: Levels, from: nat): (r: seq<(nat, File)>)
    requires from <= |levels|
    ensures forall p :: p in r <==> from <= p.0 < |levels| && p.1 in levels[p.0]
    decreases |levels| - from
  {
    if from == |levels| then []
    else
      var here := FilesOfLevel(from, levels[from]);
      assert forall p :: p in here ==> p.0 == from && p.1 in levels[from];
      assert forall f :: f in levels[from] ==> (from, f) in here by {
        forall f | f in levels[from]
          ensures (from, f) in here
        {
          var i :| 0 <= i < |levels[from]| && levels[from][i] == f;
          assert here[i] == (from, f);
        }
      }
      here + FileList(levels, from + 1)
  }

  /** One edit that says everything about a version. */
  function SnapshotEdit(comparator: Bytes, pointers: seq<Option<InternalKey>>, levels: Levels): VersionEdit {
    EMPTY_EDIT.(comparator := Some(comparator), compactPointers := PointerList(pointers, 0), newFiles := FileList(levels, 0))
  }

  ghost predicate DistinctNumbers(files: seq<File>) {
    forall f, g :: f in files && g in files && f.number == g.number ==> f == g
  }

  lemma SnapshotInstalls(comparator: Bytes, pointers: seq<Option<InternalKey>>, levels: Levels)
    requires |pointers| == NUM_LEVELS
    requires SortedLevels(levels) && forall l :: 0 <= l < NUM_LEVELS ==> DistinctNumbers(levels[l])
    ensures Install(NO_FILES, SnapshotEdit(comparator, pointers, levels)) == levels
    ensures NoReaddBy(SnapshotEdit(comparator, pointers, levels), [])
  {
    var edit := SnapshotEdit(comparator, pointers, levels);
    var after := Install(NO_FILES, edit);
    forall l | 0 <= l < NUM_LEVELS
      ensures after[l] == levels[l] && FreshIn(edit, l, {})
    {
      assert FreshIn(edit, l, {}) by {
        assert forall f :: Adds(edit, l, f) <==> f in levels[l];
      }
      assert NO_FILES[l] == [] && Numbers(NO_FILES[l]) == {};
      InstallLevelIsInstalled(NO_FILES[l], edit, l);
      SortedFilesUnique(after[l], levels[l]);
    }
  }

  lemma {:induction false} SnapshotPointersFrom(pointers: seq<Option<InternalKey>>, from: nat, q: seq<Option<InternalKey>>)
    requires |q| == |pointers| && from <= |q|
    requires forall l :: from <= l < |q| ==> q[l] == None
    ensures ApplyPointers(q, PointerList(pointers, from)) == q[..from] + pointers[from..]
    decreases |pointers| - from
  {
    if from == |pointers| {
      assert q[..from] + pointers[from..] == q;
    } else {
      var next := if pointers[from].Some? then q[from := pointers[from]] else q;
      if pointers[from].Some? {
        assert PointerList(pointers, from)[1..] == PointerList(pointers, from + 1);
      } else {
        assert PointerList(pointers, from) == PointerList(pointers, from + 1);
      }
      SnapshotPointersFrom(pointers, from + 1, next);
      TakeOneMore(q, next, pointers, from);
    }
  }

  lemma TakeOneMore<T>(a: seq<T>, a': seq<T>, b: seq<T>, n: nat)
    requires n < |a| == |a'| == |b| && a'[..n] == a[..n] && a'[n] == b[n]
    ensures a'[..n + 1] + b[n + 1..] == a[..n] + b[n..]
  {
    assert a'[..n + 1] == a[..n] + [b[n]] && b[n..] == [b[n]] + b[n + 1..];
  }

  lemma SnapshotPointers(comparator: Bytes, pointers: seq<Option<InternalKey>>, levels: Levels)
    requires |pointers| == NUM_LEVELS
    ensures ApplyPointers(NO_POINTERS, SnapshotEdit(comparator, pointers, levels).compactPointers) == pointers
  {
    SnapshotPointersFrom(pointers, 0, NO_POINTERS);
    assert NO_POINTERS[..0] + pointers[0..] == pointers;
  }

  /** The last change to a level's pointer. */
  function LastPointer(changes: seq<(nat, InternalKey)>, level: nat): Option<InternalKey> {
    if changes == [] then None
    else
      var later := LastPointer(changes[1..], level);
      if later.Some? then later else if changes[0].0 == level then Some(changes[0].1) else None
  }

  lemma {:induction false} PointerAt(pointers: seq<Option<InternalKey>>, changes: seq<(nat, InternalKey)>, level: nat)
    requires level < |pointers|
    ensures ApplyPointers(pointers, changes)[level]
      == if LastPointer(changes, level).Some? then LastPointer(changes, level) else pointers[level]
    decreases |changes|
  {
    if changes != [] {
      PointerAt(if changes[0].0 < |pointers| then pointers[changes[0].0 := Some(changes[0].1)] else pointers, changes[1..], level);
    }
  }

  /** Changing pointers a second time in the same way changes nothing more. */
  lemma PointersTwice(pointers: seq<Option<InternalKey>>, changes: seq<(nat, InternalKey)>)
    ensures ApplyPointers(ApplyPointers(pointers, changes), changes) == ApplyPointers(pointers, changes)
  {
    forall l | 0 <= l < |pointers|
      ensures ApplyPointers(ApplyPointers(pointers, changes), changes)[l] == ApplyPointers(pointers, changes)[l]
    {
      PointerAt(pointers, changes, l);
      PointerAt(ApplyPointers(pointers, changes), changes, l);
    }
  }
}
