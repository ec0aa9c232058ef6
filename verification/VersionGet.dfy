/** Point lookups: Version::Get and DBImpl::Get (db/version_set.cc, db/db_impl.cc). */
module VersionGet {
  import opened Wrappers
  import opened Dbformat
  import opened VersionFiles

  // ---------- Level 0 ----------

  /** Insert `f` into a list ordered by decreasing file number. */
  function InsertNewestFirst(f: File, files: seq<File>): (r: seq<File>)
    requires forall i, j :: 0 <= i < j < |files| ==> files[i].number >= files[j].number
    ensures forall i, j :: 0 <= i < j < |r| ==> r[i].number >= r[j].number
    ensures forall x :: x in r <==> x == f || x in files
  {
    if files == [] then [f]
    else if f.number >= files[0].number then [f] + files
    else
      var rest := InsertNewestFirst(f, files[1..]);
      assert forall x :: x in files <==> x == files[0] || x in files[1..];
      assert forall j :: 0 <= j < |rest| ==> rest[j] in rest;
      [files[0]] + rest
  }

  /** std::sort with NewestFirst. */
  function NewestFirst(files: seq<File>): (r: seq<File>)
    ensures forall i, j :: 0 <= i < j < |r| ==> r[i].number >= r[j].number
    ensures forall x :: x in r <==> x in files
  {
    if files == [] then []
    else
      assert forall x :: x in files <==> x == files[0] || x in files[1..];
      InsertNewestFirst(files[0], NewestFirst(files[1..]))
  }

  /** An entry for `user` can only be in a file whose range contains `user`. */
  lemma OutsideFileRange(f: File, user: UserKey, e: Entry)
    requires FileOk(f) && e in f.entries && e.key.user == user
    ensures Overlaps(f, Some(user), Some(user))
  {
    EntryInBounds(f, e);
  }

  /** If no file before `g` can answer, the newest entry of `g` is the newest of all of them. */
  lemma NewestOfFiles(files: seq<File>, g: File, user: UserKey, snapshot: nat, r: Lookup)
    requires FilesOk(files) && g in files && !r.Missing?
    requires Reads(Elements(g.entries), user, snapshot, r)
    requires forall f, e :: f in files && f != g && e in f.entries && e.IsFor(user, snapshot) ==> NewerThan(g, f)
    ensures Reads(FileEntries(files), user, snapshot, r)
  {
    var e :| IsNewest(Elements(g.entries), user, snapshot, e) && r == LookupOf(e);
    forall x | x in FileEntries(files) && x.IsFor(user, snapshot)
      ensures x.key.seqno <= e.key.seqno
    {
      var f :| f in files && x in f.entries;
      if f == g {
        assert x in Elements(g.entries);
      } else {
        assert NewerThan(g, f);
      }
    }
    assert IsNewest(FileEntries(files), user, snapshot, e);
  }

  /** Level-0 files may overlap: search those whose range contains the key, newest first. */
  method GetInLevel0(files: seq<File>, user: UserKey, snapshot: nat) returns (r: Lookup)
    requires FilesOk(files) && YoungFirst(files)
    ensures Reads(FileEntries(files), user, snapshot, r)
  {
    var tmp: seq<File> := [];
    for i := 0 to |files|
      invariant forall f :: f in tmp ==> f in files
      invariant forall j :: 0 <= j < i && Overlaps(files[j], Some(user), Some(user)) ==> files[j] in tmp
    {
      if user >= files[i].smallest.user && user <= files[i].largest.user {
        tmp := tmp + [files[i]];
      }
    }
    var sorted := NewestFirst(tmp);
    for i := 0 to |sorted|
      invariant forall j, e :: 0 <= j < i && e in sorted[j].entries ==> !e.IsFor(user, snapshot)
    {
      assert sorted[i] in files;
      r := SeekLookup(sorted[i].entries, user, snapshot);
      SeekLookupReads(sorted[i].entries, user, snapshot);
      if !r.Missing? {
        OthersAreOlder(files, sorted, i, user, snapshot);
        NewestOfFiles(files, sorted[i], user, snapshot, r);
        return;
      }
      assert forall e :: e in sorted[i].entries ==> e in Elements(sorted[i].entries);
    }
    r := Missing;
    forall e | e in FileEntries(files)
      ensures !e.IsFor(user, snapshot)
    {
      var f :| f in files && e in f.entries;
      if e.key.user == user { OutsideFileRange(f, user, e); assert f in sorted; }
    }
  }

  lemma OthersAreOlder(files: seq<File>, sorted: seq<File>, i: nat, user: UserKey, snapshot: nat)
    requires FilesOk(files) && YoungFirst(files) && i < |sorted|
    requires forall f :: f in sorted ==> f in files
    requires forall f :: f in files && Overlaps(f, Some(user), Some(user)) ==> f in sorted
    requires forall a, b :: 0 <= a < b < |sorted| ==> sorted[a].number >= sorted[b].number
    requires forall j, e :: 0 <= j < i && e in sorted[j].entries ==> !e.IsFor(user, snapshot)
    ensures forall f, e :: f in files && f != sorted[i] && e in f.entries && e.IsFor(user, snapshot) ==> NewerThan(sorted[i], f)
  {
    forall f, e | f in files && f != sorted[i] && e in f.entries && e.IsFor(user, snapshot)
      ensures NewerThan(sorted[i], f)
    {
      OutsideFileRange(f, user, e);
      var j :| 0 <= j < |sorted| && sorted[j] == f;
      assert sorted[i] in files;
      assert j > i;
      assert f.number < sorted[i].number;
    }
  }

  // ---------- Deeper levels ----------

  /** Only the earliest file ending at or after the seek key can hold the newest visible entry. */
  lemma OneFileDecides(files: seq<File>, index: nat, user: UserKey, snapshot: nat)
    requires FilesOk(files) && Disjoint(files) && index < |files|
    requires forall i :: 0 <= i < index ==> files[i].largest.Before(SeekKey(user, snapshot))
    requires SeekKey(user, snapshot).AtMost(files[index].largest)
    ensures forall i, e :: 0 <= i < index && e in files[i].entries ==> !e.IsFor(user, snapshot)
    ensures forall i, e, x :: index < i < |files| && e in files[i].entries && e.IsFor(user, snapshot) && x in files[index].entries && x.key.user == user ==> x.key.seqno > e.key.seqno
    ensures forall i, e :: index < i < |files| && e in files[i].entries && e.IsFor(user, snapshot) ==> user == files[index].largest.user
  {
    forall i, e | 0 <= i < index && e in files[i].entries
      ensures !e.IsFor(user, snapshot)
    {
      EntryInBounds(files[i], e);
      SeekKeySeparates(e, user, snapshot);
    }
    forall i, e | index < i < |files| && e in files[i].entries && e.IsFor(user, snapshot)
      ensures user == files[index].largest.user
      ensures forall x :: x in files[index].entries && x.key.user == user ==> x.key.seqno > e.key.seqno
    {
      EntryInBounds(files[i], e);
      forall x | x in files[index].entries && x.key.user == user
        ensures x.key.seqno > e.key.seqno
      {
        EntryInBounds(files[index], x);
      }
    }
  }

  /** What looking into the one file that the binary search finds gives, in order or not. */
  ghost function SearchedLevel(files: seq<File>, user: UserKey, snapshot: nat): Lookup
    requires FilesOk(files)
  {
    var index := Halved(files, SeekKey(user, snapshot), 0, |files|);
    if index < |files| && files[index].smallest.user <= user then SeekLookup(files[index].entries, user, snapshot) else Missing
  }

  /** Binary search in a sorted level, then one table lookup; if the files are in order, that is the read. */
  method GetInSortedLevel(files: seq<File>, user: UserKey, snapshot: nat) returns (r: Lookup)
    requires FilesOk(files)
    ensures r == SearchedLevel(files, user, snapshot)
    ensures Disjoint(files) ==> Reads(FileEntries(files), user, snapshot, r)
  {
    AllBoundsOrdered(files);
    var index := FindFile(files, SeekKey(user, snapshot));
    r := Missing;
    if index < |files| {
      if user < files[index].smallest.user {
      } else {
        r := SeekLookup(files[index].entries, user, snapshot);
      }
    }
    if Disjoint(files) {
      SearchedIsRead(files, index, user, snapshot, r);
    }
  }

  lemma SearchedIsRead(files: seq<File>, index: nat, user: UserKey, snapshot: nat, r: Lookup)
    requires FilesOk(files) && Disjoint(files) && index <= |files|
    requires forall i :: 0 <= i < index ==> files[i].largest.Before(SeekKey(user, snapshot))
    requires index < |files| ==> SeekKey(user, snapshot).AtMost(files[index].largest)
    requires r == if index < |files| && files[index].smallest.user <= user
                  then SeekLookup(files[index].entries, user, snapshot) else Missing
    ensures Reads(FileEntries(files), user, snapshot, r)
  {
    if index < |files| && !r.Missing? {
      OneFileDecides(files, index, user, snapshot);
      SeekLookupReads(files[index].entries, user, snapshot);
      NewestOfSortedLevel(files, index, user, snapshot);
      NewestOfFiles(files, files[index], user, snapshot, r);
    } else {
      NothingInSortedLevel(files, index, user, snapshot);
    }
  }

  lemma NewestOfSortedLevel(files: seq<File>, index: nat, user: UserKey, snapshot: nat)
    requires FilesOk(files) && Disjoint(files) && index < |files|
    requires forall i, e :: 0 <= i < index && e in files[i].entries ==> !e.IsFor(user, snapshot)
    ensures forall f, e :: f in files && f != files[index] && e in f.entries && e.IsFor(user, snapshot) ==> NewerThan(files[index], f)
  {
    forall f, e | f in files && f != files[index] && e in f.entries && e.IsFor(user, snapshot)
      ensures NewerThan(files[index], f)
    {
      var i :| 0 <= i < |files| && files[i] == f;
      EarlierFileIsNewer(files[index], f);
    }
  }

  lemma EarlierFileIsNewer(f: File, g: File)
    requires FileOk(f) && FileOk(g) && f.largest.Precedes(g.smallest)
    ensures NewerThan(f, g)
  {
    forall e, o | e in f.entries && o in g.entries && e.key.user == o.key.user
      ensures e.key.seqno > o.key.seqno
    {
      EntryInBounds(f, e);
      EntryInBounds(g, o);
    }
  }

  /** No file ends at the key, or the file that does cannot answer: the level has nothing. */
  lemma NothingInSortedLevel(files: seq<File>, index: nat, user: UserKey, snapshot: nat)
    requires FilesOk(files) && Disjoint(files) && index <= |files|
    requires forall i :: 0 <= i < index ==> files[i].largest.Before(SeekKey(user, snapshot))
    requires index < |files| ==> SeekKey(user, snapshot).AtMost(files[index].largest)
    requires index < |files| ==> user < files[index].smallest.user || SeekLookup(files[index].entries, user, snapshot).Missing?
    ensures NoneVisible(FileEntries(files), user, snapshot)
  {
    forall e | e in FileEntries(files)
      ensures !e.IsFor(user, snapshot)
    {
      var i :| 0 <= i < |files| && e in files[i].entries;
      EntryInBounds(files[i], e);
      if i == index {
        SeekLookupReads(files[i].entries, user, snapshot);
        assert e in Elements(files[i].entries);
      } else if i > index {
        var last := files[index].entries[|files[index].entries| - 1];
        BoundsOrdered(files[index]);
        SeekLookupReads(files[index].entries, user, snapshot);
        assert last in Elements(files[index].entries) && !last.IsFor(user, snapshot);
      }
    }
  }

  // ---------- All levels ----------

  /** The first level that can answer decides: deeper levels hold older entries only. */
  lemma FirstLevelDecides(levels: Levels, l: nat, user: UserKey, snapshot: nat, r: Lookup)
    requires GoodLevels(levels) && l < NUM_LEVELS && !r.Missing?
    requires forall m :: 0 <= m < l ==> NoneVisible(FileEntries(levels[m]), user, snapshot)
    requires Reads(FileEntries(levels[l]), user, snapshot, r)
    ensures Reads(AllEntries(levels), user, snapshot, r)
  {
    hide FileOk, FilesOk, Disjoint, YoungFirst, Sorted;
    var e :| IsNewest(FileEntries(levels[l]), user, snapshot, e) && r == LookupOf(e);
    var g :| g in levels[l] && e in g.entries;
    forall x | x in AllEntries(levels) && x.IsFor(user, snapshot)
      ensures x.key.seqno <= e.key.seqno
    {
      var m, f :| 0 <= m < |levels| && f in levels[m] && x in f.entries;
      assert x in FileEntries(levels[m]);
      if m > l { assert NewerThan(g, f); }
    }
    assert IsNewest(AllEntries(levels), user, snapshot, e);
  }

  /** Version::Get answers exactly the newest visible entry over all files of all levels. */
  method Get(levels: Levels, user: UserKey, snapshot: nat) returns (r: Lookup)
    requires GoodLevels(levels)
    ensures Reads(AllEntries(levels), user, snapshot, r)
  {
    for level := 0 to NUM_LEVELS
      invariant forall m :: 0 <= m < level ==> NoneVisible(FileEntries(levels[m]), user, snapshot)
    {
      if level == 0 {
        r := GetInLevel0(levels[level], user, snapshot);
      } else {
        r := GetInSortedLevel(levels[level], user, snapshot);
      }
      if !r.Missing? {
        FirstLevelDecides(levels, level, user, snapshot, r);
        return;
      }
    }
    r := Missing;
    forall e | e in AllEntries(levels)
      ensures !e.IsFor(user, snapshot)
    {
      var m, f :| 0 <= m < |levels| && f in levels[m] && e in f.entries;
      assert e in FileEntries(levels[m]);
    }
  }
}
