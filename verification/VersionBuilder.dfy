/** Applying version edits (VersionSet::Builder in db/version_set.cc, db/version_edit.h). */
module VersionBuilder {
  import opened Wrappers
  import opened Dbformat
  import opened VersionFiles

  datatype VersionEdit = VersionEdit(
    comparator: Option<Bytes>,
    logNumber: Option<nat>,
    prevLogNumber: Option<nat>,
    nextFileNumber: Option<nat>,
    lastSequence: Option<nat>,
    compactPointers: seq<(nat, InternalKey)>,
    deletedFiles: set<(nat, nat)>,
    newFiles: seq<(nat, File)>)

  const EMPTY_EDIT := VersionEdit(None, None, None, None, None, [], {}, [])

  ghost predicate EditOk(edit: VersionEdit) {
    && (forall d :: d in edit.deletedFiles ==> d.0 < NUM_LEVELS)
    && (forall i :: 0 <= i < |edit.newFiles| ==> edit.newFiles[i].0 < NUM_LEVELS)
    && (forall i :: 0 <= i < |edit.compactPointers| ==> edit.compactPointers[i].0 < NUM_LEVELS)
  }

  // ---------- The order of files within a level ----------

  /** BySmallestKey: by smallest key, ties by file number. */
  predicate FileLess(f: File, g: File) {
    f.smallest.Before(g.smallest) || (f.smallest == g.smallest && f.number < g.number)
  }

  ghost predicate SortedFiles(files: seq<File>) {
    forall i, j :: 0 <= i < j < |files| ==> FileLess(files[i], files[j])
  }

  /** A sorted list of files is determined by its members. */
  lemma {:induction false} SortedFilesUnique(a: seq<File>, b: seq<File>)
    requires SortedFiles(a) && SortedFiles(b)
    requires forall f :: f in a <==> f in b
    ensures a == b
  {
    assert b != [] ==> b[0] in b && b[0] in a;
    if a != [] {
      assert a[0] in a && a[0] in b;
      assert a[0] == b[0];
      assert a == [a[0]] + a[1..];
      assert b == [b[0]] + b[1..];
      forall f
        ensures f in a[1..] <==> f in b[1..]
      {
        assert f in a[1..] ==> f in b && f != b[0];
        assert f in b[1..] ==> f in a && f != a[0];
      }
      SortedFilesUnique(a[1..], b[1..]);
    }
  }

  // ---------- The state of a builder, level by level ----------

  datatype LevelState = LevelState(deleted: set<nat>, added: seq<File>)

  /** std::set::insert: an equivalent file already present wins. */
  function InsertFile(files: seq<File>, f: File): (r: seq<File>)
    requires SortedFiles(files)
    ensures SortedFiles(r)
    ensures forall x :: x in r ==> x == f || x in files
    ensures forall x :: x in files ==> x in r
    ensures exists x :: x in r && x.smallest == f.smallest && x.number == f.number && (x == f || x in files)
  {
    if files == [] then [f]
    else if FileLess(f, files[0]) then [f] + files
    else if FileLess(files[0], f) then
      assert files == [files[0]] + files[1..];
      var rest := InsertFile(files[1..], f);
      assert forall k :: 0 <= k < |rest| ==> rest[k] in rest;
      assert forall x :: x in files[1..] ==> FileLess(files[0], x);
      [files[0]] + rest
    else
      assert files[0] in files;
      files
  }

  /** The numbers of the files an edit deletes from, or adds to, a level. */
  function DeletedIn(edit: VersionEdit, level: nat): set<nat> {
    set d | d in edit.deletedFiles && d.0 == level :: d.1
  }

  predicate Adds(edit: VersionEdit, level: nat, f: File) {
    (level, f) in edit.newFiles
  }

  /** The files of a level once an edit is installed. */
  ghost predicate InstalledLevel(before: seq<File>, edit: VersionEdit, level: nat, after: seq<File>) {
    && SortedFiles(after)
    && forall f :: f in after <==> Adds(edit, level, f) || (f in before && (level, f.number) !in edit.deletedFiles)
  }

  /** The files an edit adds to a level carry numbers the level has never seen, all different. */
  ghost predicate FreshIn(edit: VersionEdit, level: nat, known: set<nat>) {
    && (forall f :: Adds(edit, level, f) ==> f.number !in known)
    && (forall f, g :: Adds(edit, level, f) && Adds(edit, level, g) && f.number == g.number ==> f == g)
  }

  /** The builder's state stands for the file list `v` on top of `base`. */
  ghost predicate Represents(base: seq<File>, st: LevelState, v: seq<File>) {
    && SortedFiles(st.added)
    && (forall f, g :: f in base && g in st.added ==> f.number != g.number)
    && forall f :: f in v <==> (f in base || f in st.added) && f.number !in st.deleted
  }

  ghost function Known(base: seq<File>, st: LevelState): set<nat> {
    (set f | f in base :: f.number) + (set f | f in st.added :: f.number)
  }

  // ---------- Builder::Apply on one level ----------

  method ApplyLevel(st: LevelState, edit: VersionEdit, level: nat, ghost base: seq<File>, ghost before: seq<File>, ghost after: seq<File>)
    returns (r: LevelState)
    requires Represents(base, st, before)
    requires FreshIn(edit, level, Known(base, st))
    requires InstalledLevel(before, edit, level, after)
    ensures Represents(base, r, after)
    ensures forall n :: n in Known(base, r) ==> n in Known(base, st) || exists f :: Adds(edit, level, f) && f.number == n
  {
    var deleted := st.deleted + DeletedIn(edit, level);
    ghost var allDeleted := deleted;
    var added := st.added;
    for i := 0 to |edit.newFiles|
      invariant SortedFiles(added)
      invariant forall f :: f in added <==> f in st.added || (level, f) in edit.newFiles[..i]
      invariant forall n :: n in deleted <==> n in allDeleted && !exists f :: (level, f) in edit.newFiles[..i] && f.number == n
    {
      assert edit.newFiles[..i + 1] == edit.newFiles[..i] + [edit.newFiles[i]];
      assert edit.newFiles[i] in edit.newFiles;
      var (l, f) := edit.newFiles[i];
      if l == level {
        assert Adds(edit, level, f);
        assert forall x :: x in added && x.number == f.number ==> x == f;
        added := InsertFile(added, f);
        deleted := deleted - {f.number};
        assert (level, f) in edit.newFiles[..i + 1];
      }
    }
    assert edit.newFiles[..|edit.newFiles|] == edit.newFiles;
    r := LevelState(deleted, added);
  }

  // ---------- Builder::SaveTo on one level ----------

  /** std::upper_bound from `start`: the first file after `start` that `f` sorts before. */
  method UpperBound(files: seq<File>, start: nat, f: File) returns (r: nat)
    requires SortedFiles(files) && start <= |files|
    ensures start <= r <= |files|
    ensures forall i :: start <= i < r ==> !FileLess(f, files[i])
    ensures forall i :: r <= i < |files| ==> FileLess(f, files[i])
  {
    r := start;
    while r < |files| && !FileLess(f, files[r])
      invariant start <= r <= |files|
      invariant forall i :: start <= i < r ==> !FileLess(f, files[i])
    {
      r := r + 1;
    }
  }

  method MaybeAddFile(v: seq<File>, deleted: set<nat>, f: File) returns (r: seq<File>)
    requires SortedFiles(v) && forall x :: x in v ==> FileLess(x, f)
    ensures SortedFiles(r)
    ensures forall x :: x in r <==> x in v || (x == f && f.number !in deleted)
  {
    r := if f.number in deleted then v else v + [f];
  }

  /** `v` is the merge of the first files of base and of the added ones, without the deleted. */
  ghost predicate Merged(base: seq<File>, b: nat, added: seq<File>, a: nat, deleted: set<nat>, v: seq<File>) {
    && b <= |base| && a <= |added|
    && SortedFiles(v)
    && forall x :: x in v <==> (x in base[..b] || x in added[..a]) && x.number !in deleted
  }

  /** Every file merged so far sorts before `f`. */
  ghost predicate AllLess(base: seq<File>, b: nat, added: seq<File>, a: nat, f: File)
    requires b <= |base| && a <= |added|
  {
    (forall i :: 0 <= i < b ==> FileLess(base[i], f)) && (forall i :: 0 <= i < a ==> FileLess(added[i], f))
  }

  method MergeBase(base: seq<File>, b: nat, added: seq<File>, a: nat, deleted: set<nat>, v: seq<File>) returns (r: seq<File>)
    requires Merged(base, b, added, a, deleted, v) && b < |base|
    requires AllLess(base, b, added, a, base[b])
    ensures Merged(base, b + 1, added, a, deleted, r)
  {
    assert base[..b + 1] == base[..b] + [base[b]];
    r := MaybeAddFile(v, deleted, base[b]);
  }

  method MergeAdded(base: seq<File>, b: nat, added: seq<File>, a: nat, deleted: set<nat>, v: seq<File>) returns (r: seq<File>)
    requires Merged(base, b, added, a, deleted, v) && a < |added|
    requires AllLess(base, b, added, a, added[a])
    ensures Merged(base, b, added, a + 1, deleted, r)
  {
    assert added[..a + 1] == added[..a] + [added[a]];
    r := MaybeAddFile(v, deleted, added[a]);
  }

  /** Merges base files up to `bpos`, all of them before the next added file. */
  method MergeBaseUntil(base: seq<File>, b: nat, bpos: nat, added: seq<File>, a: nat, deleted: set<nat>, v: seq<File>)
    returns (r: seq<File>)
    requires SortedFiles(base) && b <= bpos <= |base|
    requires Merged(base, b, added, a, deleted, v)
    requires a > 0 ==> forall i :: b <= i < bpos ==> FileLess(added[a - 1], base[i])
    requires SortedFiles(added)
    ensures Merged(base, bpos, added, a, deleted, r)
  {
    r := v;
    for k := b to bpos
      invariant Merged(base, k, added, a, deleted, r)
    {
      if a > 0 {
        assert forall i :: 0 <= i < a - 1 ==> FileLess(added[i], added[a - 1]);
        assert FileLess(added[a - 1], base[k]);
      }
      r := MergeBase(base, k, added, a, deleted, r);
    }
  }

  lemma LessTotal(f: File, g: File)
    requires f.number != g.number
    ensures FileLess(f, g) || FileLess(g, f)
  {
    CompareIsTotalOrder(f.smallest, g.smallest);
  }

  lemma LessTransitive(files: seq<File>, f: File, g: File)
    requires forall i :: 0 <= i < |files| ==> FileLess(files[i], f)
    requires FileLess(f, g)
    ensures forall i :: 0 <= i < |files| ==> FileLess(files[i], g)
  {
  }

  /** Merges the added files into the base files in order, dropping the deleted ones. */
  method MergeLevel(base: seq<File>, added: seq<File>, deleted: set<nat>) returns (r: seq<File>)
    requires SortedFiles(base) && SortedFiles(added)
    requires forall i, j :: 0 <= i < |base| && 0 <= j < |added| ==> base[i].number != added[j].number
    ensures Merged(base, |base|, added, |added|, deleted, r)
  {
    r := [];
    var b := 0;
    for a := 0 to |added|
      invariant Merged(base, b, added, a, deleted, r)
      invariant a == 0 ==> b == 0
      invariant a > 0 ==> forall i :: b <= i < |base| ==> FileLess(added[a - 1], base[i])
      invariant a > 0 ==> forall i :: 0 <= i < b ==> FileLess(base[i], added[a - 1])
    {
      if a > 0 {
        assert FileLess(added[a - 1], added[a]);
        LessTransitive(base[..b], added[a - 1], added[a]);
      }
      var bpos := UpperBound(base, b, added[a]);
      r := MergeBaseUntil(base, b, bpos, added, a, deleted, r);
      forall i | 0 <= i < bpos
        ensures FileLess(base[i], added[a])
      {
        if i < b { assert base[i] == base[..b][i]; } else { LessTotal(base[i], added[a]); }
      }
      b := bpos;
      r := MergeAdded(base, b, added, a, deleted, r);
    }
    r := MergeBaseUntil(base, b, |base|, added, |added|, deleted, r);
  }

  /** Builder::SaveTo on one level gives exactly the list the builder's state stands for. */
  method SaveLevel(base: seq<File>, st: LevelState, ghost v: seq<File>) returns (r: seq<File>)
    requires SortedFiles(base) && SortedFiles(v) && Represents(base, st, v)
    ensures r == v
  {
    assert forall i :: 0 <= i < |base| ==> base[i] in base;
    assert forall i :: 0 <= i < |st.added| ==> st.added[i] in st.added;
    r := MergeLevel(base, st.added, st.deleted);
    assert base[..|base|] == base && st.added[..|st.added|] == st.added;
    SortedFilesUnique(r, v);
  }
}
