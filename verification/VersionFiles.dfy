/** Table files, levels and range tests (db/version_set.cc, db/version_set.h). */
module VersionFiles {
  import opened Wrappers
  import opened Dbformat

  /** FileMetaData, together with the entries of the table it numbers. */
  datatype File = File(number: nat, size: nat, smallest: InternalKey, largest: InternalKey, entries: seq<Entry>)

  ghost predicate FileOk(f: File) {
    && f.entries != []
    && Sorted(f.entries)
    && f.smallest == f.entries[0].key
    && f.largest == f.entries[|f.entries| - 1].key
    && forall e :: e in f.entries ==> e.key.seqno <= MAX_SEQUENCE
  }

  ghost predicate FilesOk(files: seq<File>) {
    forall i :: 0 <= i < |files| ==> FileOk(files[i])
  }

  /** The order of every level but level 0: files follow each other without overlap. */
  ghost predicate Disjoint(files: seq<File>) {
    forall i, j :: 0 <= i < j < |files| ==> files[i].largest.Precedes(files[j].smallest)
  }

  /** Every entry of a file lies between its two bounds. */
  lemma EntryInBounds(f: File, e: Entry)
    requires FileOk(f) && e in f.entries
    ensures f.smallest.AtMost(e.key) && e.key.AtMost(f.largest)
    ensures f.smallest.user <= e.key.user <= f.largest.user
  {
    var i :| 0 <= i < |f.entries| && f.entries[i] == e;
  }

  lemma BoundsOrdered(f: File)
    requires FileOk(f)
    ensures f.smallest.AtMost(f.largest) && f.smallest.user <= f.largest.user
    ensures f.smallest.seqno <= MAX_SEQUENCE && f.largest.seqno <= MAX_SEQUENCE
  {
    assert f.entries[0] in f.entries;
    assert f.entries[|f.entries| - 1] in f.entries;
    EntryInBounds(f, f.entries[0]);
  }

  /** All that range tests need of a file: its bounds are in order. */
  ghost predicate BoundsOk(files: seq<File>) {
    forall i :: 0 <= i < |files| ==>
      && files[i].smallest.AtMost(files[i].largest)
      && files[i].smallest.seqno <= MAX_SEQUENCE && files[i].largest.seqno <= MAX_SEQUENCE
  }

  lemma AllBoundsOrdered(files: seq<File>)
    requires FilesOk(files)
    ensures BoundsOk(files)
  {
    forall i | 0 <= i < |files|
      ensures files[i].smallest.AtMost(files[i].largest)
      ensures files[i].smallest.seqno <= MAX_SEQUENCE && files[i].largest.seqno <= MAX_SEQUENCE
    {
      BoundsOrdered(files[i]);
    }
  }

  // ---------- FindFile ----------

  /** Where halving the interval ends, in order or not. */
  ghost function Halved(files: seq<File>, key: InternalKey, left: nat, right: nat): (r: nat)
    requires left <= right <= |files|
    ensures left <= r <= right
    decreases right - left
  {
    if left == right then right
    else
      var mid := (left + right) / 2;
      if Compare(files[mid].largest, key) < 0 then Halved(files, key, mid + 1, right) else Halved(files, key, left, mid)
  }

  /** In files that are in order, it ends at the earliest file whose largest key is at or after `key`. */
  lemma {:induction false} HalvedFinds(files: seq<File>, key: InternalKey, left: nat, right: nat)
    requires BoundsOk(files) && Disjoint(files) && left <= right <= |files|
    requires forall i :: 0 <= i < left ==> files[i].largest.Before(key)
    requires forall i :: right <= i < |files| ==> key.AtMost(files[i].largest)
    ensures forall i :: 0 <= i < Halved(files, key, left, right) ==> files[i].largest.Before(key)
    ensures forall i :: Halved(files, key, left, right) <= i < |files| ==> key.AtMost(files[i].largest)
    decreases right - left
  {
    if left < right {
      var mid := (left + right) / 2;
      if Compare(files[mid].largest, key) < 0 {
        HalvedFinds(files, key, mid + 1, right);
      } else {
        HalvedFinds(files, key, left, mid);
      }
    }
  }

  /** Binary search, which finds the earliest file whose largest key is at or after `key` in files that
      are in order. */
  method FindFile(files: seq<File>, key: InternalKey) returns (right: nat)
    requires BoundsOk(files)
    ensures right == Halved(files, key, 0, |files|)
    ensures Disjoint(files) ==> forall i :: 0 <= i < right ==> files[i].largest.Before(key)
    ensures Disjoint(files) ==> forall i :: right <= i < |files| ==> key.AtMost(files[i].largest)
  {
    var left := 0;
    right := |files|;
    while left < right
      invariant 0 <= left <= right <= |files| && Halved(files, key, left, right) == Halved(files, key, 0, |files|)
    {
      var mid := (left + right) / 2;
      if Compare(files[mid].largest, key) < 0 {
        left := mid + 1;
      } else {
        right := mid;
      }
    }
    if Disjoint(files) {
      HalvedFinds(files, key, 0, |files|);
    }
  }

  // ---------- Overlap of a file with a range of user keys ----------

  /** A missing bound stands for a key before (low) or after (high) every key. */
  predicate AfterFile(low: Option<UserKey>, f: File) {
    low.Some? && low.value > f.largest.user
  }

  predicate BeforeFile(high: Option<UserKey>, f: File) {
    high.Some? && high.value < f.smallest.user
  }

  predicate Overlaps(f: File, low: Option<UserKey>, high: Option<UserKey>) {
    !AfterFile(low, f) && !BeforeFile(high, f)
  }

  ghost predicate SomeOverlap(files: seq<File>, low: Option<UserKey>, high: Option<UserKey>) {
    exists f :: f in files && Overlaps(f, low, high)
  }

  /** Both branches, the full scan and the binary search, decide the same question. */
  method SomeFileOverlapsRange(disjoint: bool, files: seq<File>, low: Option<UserKey>, high: Option<UserKey>)
    returns (overlap: bool)
    requires BoundsOk(files)
    requires disjoint ==> Disjoint(files)
    ensures overlap <==> SomeOverlap(files, low, high)
  {
    if !disjoint {
      for i := 0 to |files|
        invariant forall j :: 0 <= j < i ==> !Overlaps(files[j], low, high)
      {
        if AfterFile(low, files[i]) || BeforeFile(high, files[i]) {
        } else {
          assert files[i] in files;
          return true;
        }
      }
      return false;
    }
    var index := 0;
    if low.Some? {
      index := FindFile(files, SeekKey(low.value, MAX_SEQUENCE));
    }
    assert forall i :: 0 <= i < index ==> AfterFile(low, files[i]);
    if index >= |files| {
      return false;
    }
    assert files[index] in files;
    assert forall j :: index < j < |files| ==> files[index].smallest.user <= files[j].smallest.user;
    return !BeforeFile(high, files[index]);
  }

  // ---------- Levels ----------

  const NUM_LEVELS: nat := 7

  type Levels = seq<seq<File>>

  ghost function FileEntries(files: seq<File>): set<Entry> {
    set f, e | f in files && e in f.entries :: e
  }

  ghost function AllEntries(levels: Levels): set<Entry> {
    set l, f, e | 0 <= l < |levels| && f in levels[l] && e in f.entries :: e
  }

  /** Within one user key, everything in `newer` is newer than everything in `older`. */
  ghost predicate NewerThan(newer: File, older: File) {
    forall e, o :: e in newer.entries && o in older.entries && e.key.user == o.key.user ==> e.key.seqno > o.key.seqno
  }

  /** The invariant of a version: what searching level by level relies on. */
  ghost predicate GoodLevels(levels: Levels) {
    && |levels| == NUM_LEVELS
    && (forall l :: 0 <= l < NUM_LEVELS ==> FilesOk(levels[l]))
    && (forall l :: 1 <= l < NUM_LEVELS ==> Disjoint(levels[l]))
    && YoungFirst(levels[0])
    && (forall l, m, f, g :: 0 <= l < m < NUM_LEVELS && f in levels[l] && g in levels[m] ==> NewerThan(f, g))
  }

  /** Level 0: distinct files have distinct numbers, and a larger number means newer entries. */
  ghost predicate YoungFirst(files: seq<File>) {
    && (forall i, j :: 0 <= i < j < |files| ==> files[i].number != files[j].number)
    && (forall f, g :: f in files && g in files && f.number > g.number ==> NewerThan(f, g))
  }
}
