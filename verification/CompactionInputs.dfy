/** Which files a compaction reads (db/version_set.cc). */
module CompactionInputs {
  import opened Wrappers
  import opened Dbformat
  import opened VersionFiles

  // ---------- GetOverlappingInputs ----------

  /** The files of a level that overlap a range of user keys, in the level's order. */
  function OverlappingFiles(files: seq<File>, low: Option<UserKey>, high: Option<UserKey>): (r: seq<File>)
  {
    if files == [] then []
    else
      var last := files[|files| - 1];
      OverlappingFiles(files[..|files| - 1], low, high) + (if Overlaps(last, low, high) then [last] else [])
  }

  lemma {:induction false} OverlappingMembers(files: seq<File>, low: Option<UserKey>, high: Option<UserKey>)
    ensures forall f :: f in OverlappingFiles(files, low, high) <==> f in files && Overlaps(f, low, high)
  {
    if files != [] {
      var init, last := files[..|files| - 1], files[|files| - 1];
      OverlappingMembers(init, low, high);
      assert files == init + [last];
    }
  }

  /** The range [low, high] contains the range [low0, high0]. */
  predicate Contains(low: Option<UserKey>, high: Option<UserKey>, low0: Option<UserKey>, high0: Option<UserKey>) {
    && (low.Some? ==> low0.Some? && low.value <= low0.value)
    && (high.Some? ==> high0.Some? && high0.value <= high.value)
  }

  predicate Within(f: File, low: Option<UserKey>, high: Option<UserKey>) {
    && (low.Some? ==> low.value <= f.smallest.user)
    && (high.Some? ==> f.largest.user <= high.value)
  }

  /** Every file that overlaps the range lies inside it. */
  ghost predicate Closed(files: seq<File>, low: Option<UserKey>, high: Option<UserKey>) {
    forall f :: f in files && Overlaps(f, low, high) ==> Within(f, low, high)
  }

  /** [low, high] is the least overlap-closed range that contains [low0, high0]. */
  ghost predicate LeastClosed(files: seq<File>, low: Option<UserKey>, high: Option<UserKey>,
                              low0: Option<UserKey>, high0: Option<UserKey>)
  {
    && Contains(low, high, low0, high0)
    && Closed(files, low, high)
    && BelowEveryClosed(files, low0, high0, low, high)
  }

  /** How many files stick out of the range; each restart makes it smaller. */
  ghost function Outside(files: seq<File>, low: Option<UserKey>, high: Option<UserKey>): nat {
    if files == [] then 0
    else
      (if low.Some? && files[0].smallest.user < low.value then 1 else 0)
      + (if high.Some? && high.value < files[0].largest.user then 1 else 0)
      + Outside(files[1..], low, high)
  }

  lemma {:induction false} OutsideMonotone(files: seq<File>, low: Option<UserKey>, high: Option<UserKey>,
                                           low': Option<UserKey>, high': Option<UserKey>)
    requires low.Some? == low'.Some? && high.Some? == high'.Some?
    requires Contains(low', high', low, high)
    ensures Outside(files, low', high') <= Outside(files, low, high)
    ensures (low.Some? && exists f :: f in files && f.smallest.user < low.value && f.smallest.user == low'.value)
         || (high.Some? && exists f :: f in files && f.largest.user > high.value && f.largest.user == high'.value)
      ==> Outside(files, low', high') < Outside(files, low, high)
  {
    if files != [] {
      OutsideMonotone(files[1..], low, high, low', high');
      assert files == [files[0]] + files[1..];
    }
  }

  ghost predicate BelowEveryClosed(files: seq<File>, low0: Option<UserKey>, high0: Option<UserKey>,
                                   low: Option<UserKey>, high: Option<UserKey>)
  {
    forall l, h :: Contains(l, h, low0, high0) && Closed(files, l, h) ==> Contains(l, h, low, high)
  }

  /** Growing a range to cover a file that overlaps it keeps it below every closed range. */
  lemma GrowKeepsLeast(files: seq<File>, low0: Option<UserKey>, high0: Option<UserKey>,
                       low: Option<UserKey>, high: Option<UserKey>,
                       low': Option<UserKey>, high': Option<UserKey>, f: File)
    requires f in files && Overlaps(f, low, high)
    requires BelowEveryClosed(files, low0, high0, low, high)
    requires low' == low || (low.Some? && low' == Some(f.smallest.user))
    requires high' == high || (high.Some? && high' == Some(f.largest.user))
    ensures BelowEveryClosed(files, low0, high0, low', high')
  {
    forall l, h | Contains(l, h, low0, high0) && Closed(files, l, h)
      ensures Contains(l, h, low', high')
    {
      assert Contains(l, h, low, high);
      assert Overlaps(f, l, h);
    }
  }

  /** In level 0, a chosen file that sticks out of the range extends it and restarts the search. */
  method GrowRange(files: seq<File>, f: File, begin: Option<UserKey>, end: Option<UserKey>,
                   userBegin: Option<UserKey>, userEnd: Option<UserKey>)
    returns (low: Option<UserKey>, high: Option<UserKey>, restart: bool)
    requires f in files && Overlaps(f, userBegin, userEnd)
    requires userBegin.Some? == begin.Some? && userEnd.Some? == end.Some?
    requires Contains(userBegin, userEnd, begin, end) && BelowEveryClosed(files, begin, end, userBegin, userEnd)
    ensures low.Some? == begin.Some? && high.Some? == end.Some?
    ensures Contains(low, high, begin, end) && BelowEveryClosed(files, begin, end, low, high)
    ensures if restart then Outside(files, low, high) < Outside(files, userBegin, userEnd)
            else low == userBegin && high == userEnd && Within(f, low, high)
  {
    low, high, restart := userBegin, userEnd, false;
    if begin.Some? && f.smallest.user < userBegin.value {
      low, restart := Some(f.smallest.user), true;
      OutsideMonotone(files, userBegin, userEnd, low, high);
      GrowKeepsLeast(files, begin, end, userBegin, userEnd, low, high, f);
    } else if end.Some? && f.largest.user > userEnd.value {
      high, restart := Some(f.largest.user), true;
      OutsideMonotone(files, userBegin, userEnd, low, high);
      GrowKeepsLeast(files, begin, end, userBegin, userEnd, low, high, f);
    }
  }

  /** The range that decides which files a request selects: in level 0 the least overlap-closed
      range around it, and the request itself in the other levels. */
  ghost predicate SelectsBy(files: seq<File>, level0: bool, begin: Option<UserKey>, end: Option<UserKey>,
                            low: Option<UserKey>, high: Option<UserKey>)
  {
    && low.Some? == begin.Some? && high.Some? == end.Some?
    && if level0 then LeastClosed(files, low, high, begin, end) else low == begin && high == end
  }

  ghost predicate IsSelection(files: seq<File>, level0: bool, begin: Option<UserKey>, end: Option<UserKey>, inputs: seq<File>) {
    exists low, high :: SelectsBy(files, level0, begin, end, low, high) && inputs == OverlappingFiles(files, low, high)
  }

  /** The files of a level that overlap [begin, end]; in level 0, where files overlap each
      other, the range grows until no chosen file sticks out of it. */
  method GetOverlappingInputs(files: seq<File>, level0: bool, begin: Option<UserKey>, end: Option<UserKey>)
    returns (inputs: seq<File>)
    requires BoundsOk(files)
    ensures IsSelection(files, level0, begin, end, inputs)
  {
    inputs := [];
    var userBegin, userEnd := begin, end;
    var i := 0;
    while i < |files|
      invariant 0 <= i <= |files|
      invariant userBegin.Some? == begin.Some? && userEnd.Some? == end.Some?
      invariant !level0 ==> userBegin == begin && userEnd == end
      invariant Contains(userBegin, userEnd, begin, end)
      invariant inputs == OverlappingFiles(files[..i], userBegin, userEnd)
      invariant level0 ==> Closed(files[..i], userBegin, userEnd)
      invariant BelowEveryClosed(files, begin, end, userBegin, userEnd)
      decreases Outside(files, userBegin, userEnd), |files| - i
    {
      var f := files[i];
      assert files[..i + 1] == files[..i] + [f];
      assert files[..i + 1][..i] == files[..i];
      i := i + 1;
      if begin.Some? && f.largest.user < userBegin.value {
      } else if end.Some? && f.smallest.user > userEnd.value {
      } else {
        inputs := inputs + [f];
        if level0 {
          var restart;
          userBegin, userEnd, restart := GrowRange(files, f, begin, end, userBegin, userEnd);
          if restart {
            inputs, i := [], 0;
          }
        }
      }
    }
    assert files[..i] == files;
    assert SelectsBy(files, level0, begin, end, userBegin, userEnd);
  }

  // ---------- GetRange ----------

  ghost predicate IsRange(files: seq<File>, smallest: InternalKey, largest: InternalKey) {
    && (exists f :: f in files && f.smallest == smallest)
    && (exists f :: f in files && f.largest == largest)
    && forall f :: f in files ==> smallest.AtMost(f.smallest) && f.largest.AtMost(largest)
  }

  lemma RangeGrows(files: seq<File>, f: File, smallest: InternalKey, largest: InternalKey)
    requires IsRange(files, smallest, largest)
    ensures IsRange(files + [f], if Compare(f.smallest, smallest) < 0 then f.smallest else smallest,
                    if Compare(f.largest, largest) > 0 then f.largest else largest)
  {
    CompareIsTotalOrder(f.smallest, smallest);
    CompareIsTotalOrder(f.largest, largest);
    assert f in files + [f] && forall g :: g in files ==> g in files + [f];
  }

  method GetRange(files: seq<File>) returns (smallest: InternalKey, largest: InternalKey)
    requires files != []
    ensures IsRange(files, smallest, largest)
  {
    smallest, largest := files[0].smallest, files[0].largest;
    for i := 1 to |files|
      invariant IsRange(files[..i], smallest, largest)
    {
      var f := files[i];
      assert files[..i + 1] == files[..i] + [f];
      RangeGrows(files[..i], f, smallest, largest);
      if Compare(f.smallest, smallest) < 0 { smallest := f.smallest; }
      if Compare(f.largest, largest) > 0 { largest := f.largest; }
    }
    assert files[..|files|] == files;
  }

  // ---------- AddBoundaryInputs ----------

  /** `f` begins after `key`, on the same user key. */
  predicate StartsAfterOn(f: File, key: InternalKey) {
    key.Before(f.smallest) && f.smallest.user == key.user
  }

  ghost predicate IsSmallestBoundary(files: seq<File>, key: InternalKey, b: File) {
    && b in files && StartsAfterOn(b, key)
    && forall f :: f in files && StartsAfterOn(f, key) ==> b.smallest.AtMost(f.smallest)
  }

  ghost predicate NoBoundary(files: seq<File>, key: InternalKey) {
    forall f :: f in files ==> !StartsAfterOn(f, key)
  }

  method FindSmallestBoundaryFile(files: seq<File>, key: InternalKey) returns (b: Option<File>)
    ensures b.None? ==> NoBoundary(files, key)
    ensures b.Some? ==> IsSmallestBoundary(files, key, b.value)
  {
    b := None;
    for i := 0 to |files|
      invariant b.None? ==> NoBoundary(files[..i], key)
      invariant b.Some? ==> IsSmallestBoundary(files[..i], key, b.value)
    {
      var f := files[i];
      assert files[..i + 1] == files[..i] + [f];
      if Compare(f.smallest, key) > 0 && f.smallest.user == key.user {
        if b.None? || Compare(f.smallest, b.value.smallest) < 0 {
          b := Some(f);
        }
      }
    }
    assert files[..|files|] == files;
  }

  ghost predicate IsLargest(files: seq<File>, key: InternalKey) {
    && (exists f :: f in files && f.largest == key)
    && forall f :: f in files ==> f.largest.AtMost(key)
  }

  /** `added` are the boundary files found one after the other, starting from `key`. */
  ghost predicate BoundaryChain(files: seq<File>, key: InternalKey, added: seq<File>)
    decreases |added|
  {
    if added == [] then NoBoundary(files, key)
    else IsSmallestBoundary(files, key, added[0]) && BoundaryChain(files, added[0].largest, added[1..])
  }

  method FindLargestKey(files: seq<File>) returns (key: InternalKey)
    requires files != []
    ensures IsLargest(files, key)
  {
    key := files[0].largest;
    for i := 1 to |files|
      invariant IsLargest(files[..i], key)
    {
      assert files[..i + 1] == files[..i] + [files[i]];
      assert forall g :: g in files[..i] ==> g in files[..i + 1];
      if Compare(files[i].largest, key) > 0 {
        key := files[i].largest;
      }
      assert files[i] in files[..i + 1];
    }
    assert files[..|files|] == files;
  }

  /** A chain of boundary files found so far, not yet known to be complete. */
  ghost predicate PartialChain(files: seq<File>, key: InternalKey, added: seq<File>, last: InternalKey)
    decreases |added|
  {
    if added == [] then last == key
    else IsSmallestBoundary(files, key, added[0]) && PartialChain(files, added[0].largest, added[1..], last)
  }

  lemma {:induction false} ChainSnoc(files: seq<File>, key: InternalKey, added: seq<File>, last: InternalKey, b: File)
    requires PartialChain(files, key, added, last)
    requires IsSmallestBoundary(files, last, b)
    ensures PartialChain(files, key, added + [b], b.largest)
    decreases |added|
  {
    if added != [] {
      assert (added + [b])[1..] == added[1..] + [b];
      ChainSnoc(files, added[0].largest, added[1..], last, b);
    } else {
      assert added + [b] == [b];
      assert [b][1..] == [];
    }
  }

  lemma {:induction false} ChainComplete(files: seq<File>, key: InternalKey, added: seq<File>, last: InternalKey)
    requires PartialChain(files, key, added, last)
    requires NoBoundary(files, last)
    ensures BoundaryChain(files, key, added)
    decreases |added|
  {
    if added != [] {
      ChainComplete(files, added[0].largest, added[1..], last);
    }
  }

  /** Extends the inputs with every boundary file: no file of the level starts after the
      last added one on its largest user key. */
  method AddBoundaryInputs(files: seq<File>, compaction: seq<File>) returns (r: seq<File>)
    requires BoundsOk(files)
    ensures compaction <= r
    ensures compaction == [] ==> r == []
    ensures compaction != [] ==> exists key :: IsLargest(compaction, key) && BoundaryChain(files, key, r[|compaction|..])
  {
    r := compaction;
    ghost var added := [];
    if compaction == [] { return; }
    var first := FindLargestKey(compaction);
    var largest := first;
    var searching := true;
    while searching
      invariant r == compaction + added
      invariant PartialChain(files, first, added, largest)
      invariant !searching ==> NoBoundary(files, largest)
      decreases searching, set f | f in files && largest.Before(f.smallest)
    {
      var b := FindSmallestBoundaryFile(files, largest);
      if b.Some? {
        ChainSnoc(files, first, added, largest, b.value);
        r := r + [b.value];
        added := added + [b.value];
        ghost var wider := set f | f in files && largest.Before(f.smallest);
        largest := b.value.largest;
        assert b.value in wider;
      } else {
        searching := false;
      }
    }
    ChainComplete(files, first, added, largest);
    assert r[|compaction|..] == added;
  }

  /** Boundary files are new, pairwise different, and each starts after everything before it. */
  lemma {:induction false} ChainFresh(files: seq<File>, key: InternalKey, added: seq<File>)
    requires BoundsOk(files)
    requires BoundaryChain(files, key, added)
    ensures forall i :: 0 <= i < |added| ==> added[i] in files && key.Before(added[i].smallest)
    ensures forall i, j :: 0 <= i < j < |added| ==> added[i].largest.Before(added[j].smallest)
    decreases |added|
  {
    if added != [] {
      ChainFresh(files, added[0].largest, added[1..]);
      assert added == [added[0]] + added[1..];
      forall i | 0 <= i < |added|
        ensures added[i] in files && key.Before(added[i].smallest)
      {
        if i > 0 {
          assert added[i] == added[1..][i - 1];
        }
      }
      forall i, j | 0 <= i < j < |added|
        ensures added[i].largest.Before(added[j].smallest)
      {
        assert added[j] == added[1..][j - 1];
        if i > 0 { assert added[i] == added[1..][i - 1]; }
      }
    }
  }

  // ---------- SetupOtherInputs ----------

  /** The file's range of user keys meets the range spanned by the inputs. */
  ghost predicate Touches(f: File, inputs: seq<File>) {
    && (exists g :: g in inputs && g.smallest.user <= f.largest.user)
    && (exists g :: g in inputs && f.smallest.user <= g.largest.user)
  }

  /** Nothing left behind in the level is older than an input on a shared user key. */
  ghost predicate NothingOlderLeft(files: seq<File>, level: nat, inputs: seq<File>) {
    forall f :: f in files && f !in inputs ==>
      if level == 0 then !Touches(f, inputs)
      else forall g :: g in inputs ==> f.largest.Precedes(g.smallest) || g.largest.user < f.smallest.user
  }

  /** What the two input lists of a compaction satisfy, for the files of its level and of the next. */
  ghost predicate GoodInputs(files: seq<File>, next: seq<File>, level: nat, inputs0: seq<File>, inputs1: seq<File>) {
    && inputs0 != []
    && (forall f :: f in inputs0 ==> f in files)
    && NothingOlderLeft(files, level, inputs0)
    && (forall f :: f in inputs1 <==> f in next && Touches(f, inputs0))
  }

  /** What a compaction is started from: a run of files, or in level 0 an overlap-closed set. */
  ghost predicate StartInputs(files: seq<File>, level: nat, inputs: seq<File>) {
    && inputs != []
    && if level == 0 then exists low, high :: Closed(files, low, high) && inputs == OverlappingFiles(files, low, high)
       else exists i, j :: 0 <= i < j <= |files| && inputs == files[i..j]
  }

  /** What a sorted level means for user keys alone. */
  ghost predicate UserSorted(files: seq<File>) {
    forall i, j :: 0 <= i <= j < |files| ==>
      files[i].smallest.user <= files[j].smallest.user && files[i].largest.user <= files[j].largest.user
  }

  lemma DisjointIsUserSorted(files: seq<File>)
    requires BoundsOk(files) && Disjoint(files)
    ensures UserSorted(files)
  {
  }

  /** In a sorted level the files overlapping a range are consecutive. */
  lemma {:induction false} OverlappingIsRun(files: seq<File>, low: Option<UserKey>, high: Option<UserKey>) returns (i: nat, j: nat)
    requires UserSorted(files)
    ensures i <= j <= |files| && OverlappingFiles(files, low, high) == files[i..j]
    ensures i < j < |files| ==> BeforeFile(high, files[j])
    ensures i < j ==> Overlaps(files[i], low, high)
  {
    if files == [] {
      i, j := 0, 0;
    } else {
      var n := |files| - 1;
      UserSortedPrefix(files, n);
      i, j := OverlappingIsRun(files[..n], low, high);
      TakeSlice(files, n, i, j);
      if Overlaps(files[n], low, high) {
        if i == j {
          i, j := n, n;
        } else {
          OverlapsAreAdjacent(files, low, high, i, j, n);
        }
        SliceOneMore(files, i, n);
        j := n + 1;
      } else if i < j == n {
        OverlapsEnd(files[i], files[n], low, high);
      }
    }
  }

  lemma UserSortedPrefix(files: seq<File>, n: nat)
    requires UserSorted(files) && n <= |files|
    ensures UserSorted(files[..n])
  {
  }

  lemma TakeSlice<T>(s: seq<T>, n: nat, i: nat, j: nat)
    requires i <= j <= n <= |s|
    ensures s[..n][i..j] == s[i..j]
  {
  }

  lemma SliceOneMore<T>(s: seq<T>, i: nat, n: nat)
    requires i <= n < |s|
    ensures s[i..n] + [s[n]] == s[i..n + 1]
  {
  }

  lemma OverlapsAreAdjacent(files: seq<File>, low: Option<UserKey>, high: Option<UserKey>, i: nat, j: nat, n: nat)
    requires UserSorted(files) && i < j <= n < |files|
    requires j < n ==> BeforeFile(high, files[j])
    requires Overlaps(files[n], low, high)
    ensures j == n
  {
    assert files[j].smallest.user <= files[n].smallest.user;
  }

  lemma OverlapsEnd(f: File, g: File, low: Option<UserKey>, high: Option<UserKey>)
    requires f.largest.user <= g.largest.user && Overlaps(f, low, high) && !Overlaps(g, low, high)
    ensures BeforeFile(high, g)
  {
  }

  /** In a sorted level the boundary files are exactly the next files of the run, and the
      file after them begins on a later user key. */
  lemma RunGrows(files: seq<File>, i: nat, j: nat, added: seq<File>)
    requires i <= j < |files| && added != [] && added[0] == files[j]
    ensures files[i..j] + added == files[i..j + 1] + added[1..]
  {
  }

  lemma {:induction false} BoundaryExtendsRun(files: seq<File>, i: nat, j: nat, added: seq<File>) returns (k: nat)
    requires BoundsOk(files) && Disjoint(files) && i < j <= |files|
    requires BoundaryChain(files, files[j - 1].largest, added)
    ensures j <= k <= |files| && files[i..j] + added == files[i..k]
    ensures k < |files| ==> files[k - 1].largest.user < files[k].smallest.user
    decreases |added|
  {
    if added == [] {
      k := j;
      if k < |files| {
        assert files[k] in files;
      }
    } else {
      var m :| 0 <= m < |files| && files[m] == added[0];
      assert files[j] in files;
      assert m == j;
      k := BoundaryExtendsRun(files, i, j + 1, added[1..]);
      RunGrows(files, i, j, added);
    }
  }

  /** The largest key of a run in a sorted level is that of its last file. */
  lemma LargestOfRun(files: seq<File>, i: nat, j: nat, key: InternalKey)
    requires BoundsOk(files) && Disjoint(files) && i < j <= |files|
    requires IsLargest(files[i..j], key)
    ensures key == files[j - 1].largest
  {
    assert files[j - 1] in files[i..j];
    var f :| f in files[i..j] && f.largest == key;
    var m :| i <= m < j && files[m] == f;
    CompareIsTotalOrder(key, files[j - 1].largest);
    EarlierPrecedes(files, m, j - 1);
  }

  lemma EarlierPrecedes(files: seq<File>, m: nat, n: nat)
    requires Disjoint(files) && m <= n < |files|
    ensures m < n ==> files[m].largest.Precedes(files[n].smallest)
  {
  }

  /** An overlap-closed set in level 0 has no boundary file outside it, and touches no other file. */
  lemma ClosedLeavesNothing(files: seq<File>, low: Option<UserKey>, high: Option<UserKey>, key: InternalKey, added: seq<File>)
    requires BoundsOk(files) && Closed(files, low, high)
    requires IsLargest(OverlappingFiles(files, low, high), key) && BoundaryChain(files, key, added)
    ensures added == []
    ensures NothingOlderLeft(files, 0, OverlappingFiles(files, low, high))
  {
    OverlappingMembers(files, low, high);
    forall f | f in files
      ensures !StartsAfterOn(f, key)
    {
      var g :| g in OverlappingFiles(files, low, high) && g.largest == key;
    }
  }

  /** Boundary files leave nothing older of a sorted level behind a run. */
  lemma RunLeavesNothingOlder(files: seq<File>, level: nat, i: nat, k: nat, run: seq<File>)
    requires BoundsOk(files) && Disjoint(files) && i < k <= |files| && level > 0
    requires run == files[i..k]
    requires k < |files| ==> files[k - 1].largest.user < files[k].smallest.user
    ensures NothingOlderLeft(files, level, run)
    ensures forall f :: f in run ==> f in files
  {
    DisjointIsUserSorted(files);
    assert forall x :: i <= x < k ==> files[x] in run;
    forall f, g | f in files && f !in run && g in run
      ensures f.largest.Precedes(g.smallest) || g.largest.user < f.smallest.user
    {
      var m :| 0 <= m < |files| && files[m] == f;
      var n :| i <= n < k && files[n] == g;
      if m >= k {
        assert files[n].largest.user <= files[k - 1].largest.user;
        assert files[k].smallest.user <= files[m].smallest.user;
      }
    }
  }

  /** Adding boundary files to a run, or to an overlap-closed set, leaves nothing older behind. */
  lemma BoundaryLeavesNothingOlder(files: seq<File>, level: nat, start: seq<File>, key: InternalKey, added: seq<File>)
    requires BoundsOk(files) && (level > 0 ==> Disjoint(files))
    requires StartInputs(files, level, start)
    requires IsLargest(start, key) && BoundaryChain(files, key, added)
    ensures NothingOlderLeft(files, level, start + added)
    ensures forall f :: f in start + added ==> f in files
  {
    if level == 0 {
      var low, high :| Closed(files, low, high) && start == OverlappingFiles(files, low, high);
      ClosedLeavesNothing(files, low, high, key, added);
      OverlappingMembers(files, low, high);
      assert start + added == start;
    } else {
      var i, j :| 0 <= i < j <= |files| && start == files[i..j];
      LargestOfRun(files, i, j, key);
      var k := BoundaryExtendsRun(files, i, j, added);
      RunLeavesNothingOlder(files, level, i, k, start + added);
    }
  }

  ghost predicate NoDuplicates(files: seq<File>) {
    forall i, j :: 0 <= i < j < |files| ==> files[i] != files[j]
  }

  lemma {:induction false} OverlappingDistinct(files: seq<File>, low: Option<UserKey>, high: Option<UserKey>)
    requires NoDuplicates(files)
    ensures NoDuplicates(OverlappingFiles(files, low, high))
  {
    if files != [] {
      var init := files[..|files| - 1];
      OverlappingDistinct(init, low, high);
      OverlappingMembers(init, low, high);
      assert forall i :: 0 <= i < |OverlappingFiles(init, low, high)| ==> OverlappingFiles(init, low, high)[i] in init;
    }
  }

  lemma ClosedAddsNoDuplicate(files: seq<File>, start: seq<File>, key: InternalKey, added: seq<File>)
    requires BoundsOk(files) && NoDuplicates(files) && StartInputs(files, 0, start)
    requires IsLargest(start, key) && BoundaryChain(files, key, added)
    ensures NoDuplicates(start + added)
  {
    var low, high :| Closed(files, low, high) && start == OverlappingFiles(files, low, high);
    ClosedLeavesNothing(files, low, high, key, added);
    OverlappingDistinct(files, low, high);
    assert start + added == start;
  }

  lemma SliceDistinct(files: seq<File>, i: nat, k: nat, run: seq<File>)
    requires NoDuplicates(files) && i <= k <= |files| && run == files[i..k]
    ensures NoDuplicates(run)
  {
  }

  lemma RunAddsNoDuplicate(files: seq<File>, level: nat, start: seq<File>, key: InternalKey, added: seq<File>)
    requires BoundsOk(files) && Disjoint(files) && NoDuplicates(files)
    requires level > 0 && StartInputs(files, level, start)
    requires IsLargest(start, key) && BoundaryChain(files, key, added)
    ensures NoDuplicates(start + added)
  {
    var i, j :| 0 <= i < j <= |files| && start == files[i..j];
    LargestOfRun(files, i, j, key);
    var k := BoundaryExtendsRun(files, i, j, added);
    SliceDistinct(files, i, k, start + added);
  }

  /** No file is listed twice. */
  predicate Distinct(files: seq<File>) {
    files == [] || (files[0] !in files[1..] && Distinct(files[1..]))
  }

  lemma {:induction false} DistinctIsNoDuplicates(files: seq<File>)
    ensures Distinct(files) <==> NoDuplicates(files)
  {
    if files != [] {
      DistinctIsNoDuplicates(files[1..]);
      assert NoDuplicates(files) ==> forall k :: 0 <= k < |files| - 1 ==> files[1..][k] == files[k + 1] != files[0];
      assert Distinct(files) ==> forall k :: 0 < k < |files| ==> files[k] in files[1..];
      assert forall i, j :: 1 <= i < j < |files| ==> files[i] == files[1..][i - 1] && files[j] == files[1..][j - 1];
    }
  }

  /** Boundary files are never files that are inputs already, so no file is an input twice. */
  lemma InputsAreDistinct(files: seq<File>, next: seq<File>, level: nat, start: seq<File>, key: InternalKey, added: seq<File>,
                          low: Option<UserKey>, high: Option<UserKey>)
    requires BoundsOk(files) && (level > 0 ==> Disjoint(files)) && Distinct(files) && Distinct(next)
    requires StartInputs(files, level, start) && IsLargest(start, key) && BoundaryChain(files, key, added)
    ensures Distinct(start + added) && Distinct(OverlappingFiles(next, low, high))
  {
    DistinctIsNoDuplicates(files);
    DistinctIsNoDuplicates(next);
    if level == 0 {
      ClosedAddsNoDuplicate(files, start, key, added);
    } else {
      RunAddsNoDuplicate(files, level, start, key, added);
    }
    OverlappingDistinct(next, low, high);
    DistinctIsNoDuplicates(start + added);
    DistinctIsNoDuplicates(OverlappingFiles(next, low, high));
  }

  /** The files found by the range of the inputs are the files the inputs touch. */
  lemma RangeFindsTouched(files: seq<File>, inputs: seq<File>, smallest: InternalKey, largest: InternalKey)
    requires IsRange(inputs, smallest, largest)
    ensures forall f :: f in files ==> (Overlaps(f, Some(smallest.user), Some(largest.user)) <==> Touches(f, inputs))
  {
    var s :| s in inputs && s.smallest == smallest;
    var l :| l in inputs && l.largest == largest;
  }

  function TotalFileSize(files: seq<File>): nat {
    if files == [] then 0 else files[0].size + TotalFileSize(files[1..])
  }

  /** A file counts with its size, and the sizes of two lists add up. */
  lemma {:induction false} SizesAddUp(a: seq<File>, b: seq<File>)
    ensures TotalFileSize(a + b) == TotalFileSize(a) + TotalFileSize(b)
    ensures |a| == 1 ==> TotalFileSize(a) == a[0].size
    ensures a == [] ==> TotalFileSize(a) == 0
  {
    if a == [] {
      assert a + b == b;
    } else {
      assert (a + b)[1..] == a[1..] + b;
      SizesAddUp(a[1..], b);
    }
  }

  /** A wider range finds at least as many files, and just as many only if the same ones. */
  lemma {:induction false} WiderFindsMore(files: seq<File>, low: Option<UserKey>, high: Option<UserKey>,
                                          low': Option<UserKey>, high': Option<UserKey>)
    requires Contains(low', high', low, high)
    ensures |OverlappingFiles(files, low, high)| <= |OverlappingFiles(files, low', high')|
    ensures |OverlappingFiles(files, low, high)| == |OverlappingFiles(files, low', high')|
        ==> OverlappingFiles(files, low, high) == OverlappingFiles(files, low', high')
  {
    if files != [] {
      WiderFindsMore(files[..|files| - 1], low, high, low', high');
    }
  }

  /** The files with the boundary files that AddBoundaryInputs adds to them. */
  ghost predicate WithBoundary(files: seq<File>, start: seq<File>, r: seq<File>) {
    start <= r && exists key :: IsLargest(start, key) && BoundaryChain(files, key, r[|start|..])
  }

  /** Boundary files, then the files of the next level in the range of the inputs. */
  method CloseInputs(files: seq<File>, next: seq<File>, level: nat, start: seq<File>)
    returns (inputs0: seq<File>, inputs1: seq<File>, smallest: InternalKey, largest: InternalKey)
    requires BoundsOk(files) && BoundsOk(next) && (level > 0 ==> Disjoint(files))
    requires StartInputs(files, level, start)
    ensures GoodInputs(files, next, level, inputs0, inputs1)
    ensures WithBoundary(files, start, inputs0)
    ensures IsRange(inputs0, smallest, largest)
    ensures inputs1 == OverlappingFiles(next, Some(smallest.user), Some(largest.user))
    ensures Distinct(files) && Distinct(next) ==> Distinct(inputs0) && Distinct(inputs1)
  {
    inputs0 := AddBoundaryInputs(files, start);
    ghost var added := inputs0[|start|..];
    assert inputs0 == start + added;
    ghost var key :| IsLargest(start, key) && BoundaryChain(files, key, added);
    BoundaryLeavesNothingOlder(files, level, start, key, added);
    smallest, largest := GetRange(inputs0);
    inputs1 := GetOverlappingInputs(next, false, Some(smallest.user), Some(largest.user));
    OverlappingMembers(next, Some(smallest.user), Some(largest.user));
    RangeFindsTouched(next, inputs0, smallest, largest);
    if Distinct(files) && Distinct(next) {
      InputsAreDistinct(files, next, level, start, key, added, Some(smallest.user), Some(largest.user));
    }
  }

  /** The files of the level in the range of both lists. */
  ghost predicate IsGrown(files: seq<File>, level: nat, inputs0: seq<File>, inputs1: seq<File>, grown: seq<File>) {
    exists s, l :: IsRange(inputs0 + inputs1, s, l) && IsSelection(files, level == 0, Some(s.user), Some(l.user), grown)
  }

  /** The files of the level in the range of both input lists: a possible larger first list. */
  method GrowStart(files: seq<File>, level: nat, inputs0: seq<File>, inputs1: seq<File>) returns (grown: seq<File>)
    requires BoundsOk(files) && (level > 0 ==> Disjoint(files))
    requires inputs0 != [] && forall f :: f in inputs0 ==> f in files
    ensures StartInputs(files, level, grown)
    ensures forall f :: f in inputs0 ==> f in grown
    ensures IsGrown(files, level, inputs0, inputs1, grown)
  {
    var allStart, allLimit := GetRange(inputs0 + inputs1);
    grown := GetOverlappingInputs(files, level == 0, Some(allStart.user), Some(allLimit.user));
    ghost var low, high :| SelectsBy(files, level == 0, Some(allStart.user), Some(allLimit.user), low, high)
                           && grown == OverlappingFiles(files, low, high);
    ExpansionGrows(files, inputs0, inputs1, allStart, allLimit, low, high);
    assert inputs0[0] in inputs0;
    ExpansionStarts(files, level, inputs0[0], low, high);
  }

  /** The first list that SetupOtherInputs tries: all files of the level in the range of both lists, and
      their boundary files. */
  ghost predicate IsExpansion(files: seq<File>, level: nat, inputs0: seq<File>, inputs1: seq<File>, expanded0: seq<File>) {
    exists grown :: IsGrown(files, level, inputs0, inputs1, grown) && WithBoundary(files, grown, expanded0)
  }

  /** Its files, of which there must be more, stay below the size limit together with the second list,
      and their range finds as many files in the next level. */
  ghost predicate Acceptable(next: seq<File>, inputs0: seq<File>, inputs1: seq<File>, expanded0: seq<File>, expandedLimit: nat) {
    && |expanded0| > |inputs0|
    && TotalFileSize(inputs1) + TotalFileSize(expanded0) < expandedLimit
    && exists s, l :: IsRange(expanded0, s, l) && |OverlappingFiles(next, Some(s.user), Some(l.user))| == |inputs1|
  }

  /** What SetupOtherInputs makes of `start`: boundary files and the files of the next level that they touch, with
      the first list replaced by a larger one exactly if that is acceptable. */
  ghost predicate CompletesBy(files: seq<File>, next: seq<File>, level: nat, start: seq<File>, expandedLimit: nat,
                              inputs0: seq<File>, inputs1: seq<File>, base0: seq<File>, expanded0: seq<File>)
  {
    && WithBoundary(files, start, base0)
    && (forall f :: f in inputs1 <==> f in next && Touches(f, base0))
    && (inputs1 != [] ==> IsExpansion(files, level, base0, inputs1, expanded0))
    && inputs0 == if inputs1 != [] && Acceptable(next, base0, inputs1, expanded0, expandedLimit) then expanded0 else base0
  }

  ghost predicate Completes(files: seq<File>, next: seq<File>, level: nat, start: seq<File>, expandedLimit: nat,
                            inputs0: seq<File>, inputs1: seq<File>)
  {
    exists base0, expanded0 :: CompletesBy(files, next, level, start, expandedLimit, inputs0, inputs1, base0, expanded0)
  }

  /** Completes the inputs of a compaction.  `base0` is the first list before the attempt to
      expand it, `expanded0` the list tried: it is taken exactly if it is acceptable, and keeps the second
      list as it was. */
  method SetupOtherInputs(files: seq<File>, next: seq<File>, level: nat, start: seq<File>, expandedLimit: nat)
    returns (inputs0: seq<File>, inputs1: seq<File>, smallest: InternalKey, largest: InternalKey,
             ghost base0: seq<File>, ghost expanded0: seq<File>)
    requires BoundsOk(files) && BoundsOk(next) && (level > 0 ==> Disjoint(files))
    requires StartInputs(files, level, start)
    ensures GoodInputs(files, next, level, inputs0, inputs1)
    ensures WithBoundary(files, start, base0) && GoodInputs(files, next, level, base0, inputs1)
    ensures forall f :: f in base0 ==> f in inputs0
    ensures inputs1 != [] ==> IsExpansion(files, level, base0, inputs1, expanded0)
    ensures inputs0 == if inputs1 != [] && Acceptable(next, base0, inputs1, expanded0, expandedLimit) then expanded0 else base0
    ensures
      inputs0 == base0 || (|base0| < |inputs0| && TotalFileSize(inputs1) + TotalFileSize(inputs0) < expandedLimit)
    ensures IsRange(inputs0, smallest, largest)
    ensures Distinct(files) && Distinct(next) ==> Distinct(inputs0) && Distinct(inputs1)
  {
    inputs0, inputs1, smallest, largest := CloseInputs(files, next, level, start);
    base0, expanded0 := inputs0, [];
    if inputs1 != [] {
      var accept, tried, newStart, newLimit := TryExpand(files, next, level, inputs0, inputs1, smallest, largest, expandedLimit);
      expanded0 := tried;
      if accept {
        inputs0, smallest, largest := tried, newStart, newLimit;
      }
    }
  }

  /** A larger first list is accepted if it stays below the size limit and finds as many files in
      the next level, which are then the same files. */
  method TryExpand(files: seq<File>, next: seq<File>, level: nat, inputs0: seq<File>, inputs1: seq<File>,
                   smallest: InternalKey, largest: InternalKey, expandedLimit: nat)
    returns (accept: bool, expanded0: seq<File>, newStart: InternalKey, newLimit: InternalKey)
    requires BoundsOk(files) && BoundsOk(next) && (level > 0 ==> Disjoint(files))
    requires inputs0 != [] && forall f :: f in inputs0 ==> f in files
    requires IsRange(inputs0, smallest, largest)
    requires inputs1 == OverlappingFiles(next, Some(smallest.user), Some(largest.user))
    ensures IsExpansion(files, level, inputs0, inputs1, expanded0)
    ensures accept <==> Acceptable(next, inputs0, inputs1, expanded0, expandedLimit)
    ensures accept ==> |expanded0| > |inputs0| && TotalFileSize(inputs1) + TotalFileSize(expanded0) < expandedLimit
    ensures accept ==>
      && GoodInputs(files, next, level, expanded0, inputs1) && IsRange(expanded0, newStart, newLimit)
      && (forall f :: f in inputs0 ==> f in expanded0)
      && (Distinct(files) && Distinct(next) ==> Distinct(expanded0))
  {
    var grown := GrowStart(files, level, inputs0, inputs1);
    var expanded1;
    expanded0, expanded1, newStart, newLimit := CloseInputs(files, next, level, grown);
    accept := && |expanded0| > |inputs0|
              && TotalFileSize(inputs1) + TotalFileSize(expanded0) < expandedLimit
              && |expanded1| == |inputs1|;
    if accept {
      PrefixMembers(inputs0, grown, expanded0);
      SameSecondList(next, inputs0, expanded0, smallest, largest, newStart, newLimit);
      assert expanded1 == inputs1;
    }
    AcceptableBy(next, inputs0, inputs1, expanded0, newStart, newLimit, expandedLimit);
  }

  /** The range of the list tried decides. */
  lemma AcceptableBy(next: seq<File>, inputs0: seq<File>, inputs1: seq<File>, expanded0: seq<File>,
                     smallest: InternalKey, largest: InternalKey, expandedLimit: nat)
    requires IsRange(expanded0, smallest, largest)
    ensures
      Acceptable(next, inputs0, inputs1, expanded0, expandedLimit)
      <==> && |expanded0| > |inputs0| && TotalFileSize(inputs1) + TotalFileSize(expanded0) < expandedLimit
           && |OverlappingFiles(next, Some(smallest.user), Some(largest.user))| == |inputs1|
  {
    forall s, l | IsRange(expanded0, s, l)
      ensures s.user == smallest.user && l.user == largest.user
    {
    }
  }

  lemma PrefixMembers(a: seq<File>, b: seq<File>, c: seq<File>)
    requires (forall f :: f in a ==> f in b) && b <= c
    ensures forall f :: f in a ==> f in c
  {
    assert c == b + c[|b|..];
  }

  /** An expansion that finds as many files in the next level finds the same files. */
  lemma SameSecondList(next: seq<File>, inner: seq<File>, outer: seq<File>, smallest: InternalKey, largest: InternalKey,
                       smallest': InternalKey, largest': InternalKey)
    requires forall f :: f in inner ==> f in outer
    requires IsRange(inner, smallest, largest) && IsRange(outer, smallest', largest')
    requires |OverlappingFiles(next, Some(smallest.user), Some(largest.user))|
          == |OverlappingFiles(next, Some(smallest'.user), Some(largest'.user))|
    ensures OverlappingFiles(next, Some(smallest.user), Some(largest.user))
         == OverlappingFiles(next, Some(smallest'.user), Some(largest'.user))
  {
    RangesNest(inner, outer, smallest, largest, smallest', largest');
    WiderFindsMore(next, Some(smallest.user), Some(largest.user), Some(smallest'.user), Some(largest'.user));
  }

  lemma RangesNest(inner: seq<File>, outer: seq<File>, smallest: InternalKey, largest: InternalKey,
                   smallest': InternalKey, largest': InternalKey)
    requires forall f :: f in inner ==> f in outer
    requires IsRange(inner, smallest, largest) && IsRange(outer, smallest', largest')
    ensures Contains(Some(smallest'.user), Some(largest'.user), Some(smallest.user), Some(largest.user))
  {
    var s :| s in inner && s.smallest == smallest;
    var l :| l in inner && l.largest == largest;
  }

  lemma ExpansionGrows(files: seq<File>, inputs0: seq<File>, inputs1: seq<File>, allStart: InternalKey, allLimit: InternalKey,
                       low: Option<UserKey>, high: Option<UserKey>)
    requires BoundsOk(files)
    requires forall f :: f in inputs0 ==> f in files
    requires IsRange(inputs0 + inputs1, allStart, allLimit)
    requires Contains(low, high, Some(allStart.user), Some(allLimit.user))
    ensures forall f :: f in inputs0 ==> f in OverlappingFiles(files, low, high)
  {
    OverlappingMembers(files, low, high);
    forall f | f in inputs0
      ensures f in OverlappingFiles(files, low, high)
    {
      assert f in inputs0 + inputs1;
    }
  }

  lemma ExpansionStarts(files: seq<File>, level: nat, f: File, low: Option<UserKey>, high: Option<UserKey>)
    requires BoundsOk(files) && (level > 0 ==> Disjoint(files)) && (level == 0 ==> Closed(files, low, high))
    requires f in OverlappingFiles(files, low, high)
    ensures StartInputs(files, level, OverlappingFiles(files, low, high))
  {
    if level > 0 {
      DisjointIsUserSorted(files);
      var i, j := OverlappingIsRun(files, low, high);
    }
  }

  // ---------- The two ways a compaction starts ----------

  /** The first file whose largest key is after the compaction pointer, or else the first file of all. */
  ghost predicate IsNextToCompact(files: seq<File>, pointer: Option<InternalKey>, i: nat) {
    var after := (f: File) => pointer.None? || Compare(f.largest, pointer.value) > 0;
    && i < |files| && (forall k :: 0 <= k < i ==> !after(files[k]))
    && (after(files[i]) || (i == 0 && forall k :: 0 <= k < |files| ==> !after(files[k])))
  }

  /** Just the file, or in level 0 everything that overlaps it. */
  ghost predicate StartsFrom(files: seq<File>, level: nat, f: File, start: seq<File>) {
    if level > 0 then start == [f] else IsSelection(files, true, Some(f.smallest.user), Some(f.largest.user), start)
  }

  /** VersionSet::PickCompaction, size-triggered: the first file after the compaction pointer,
      wrapping around; in level 0, everything that overlaps it. */
  method PickCompaction(files: seq<File>, level: nat, pointer: Option<InternalKey>) returns (start: seq<File>)
    requires BoundsOk(files) && files != []
    ensures StartInputs(files, level, start)
    ensures exists i: nat :: IsNextToCompact(files, pointer, i) && StartsFrom(files, level, files[i], start)
  {
    var i := 0;
    while i < |files| && pointer.Some? && Compare(files[i].largest, pointer.value) <= 0
      invariant i <= |files|
      invariant forall k :: 0 <= k < i ==> pointer.Some? && Compare(files[k].largest, pointer.value) <= 0
    {
      i := i + 1;
    }
    var first := if i < |files| then i else 0;
    assert IsNextToCompact(files, pointer, first);
    start := PickFile(files, level, first);
  }

  /** VersionSet::PickCompaction from one chosen file, as for the seek-triggered case. */
  method PickFile(files: seq<File>, level: nat, i: nat) returns (start: seq<File>)
    requires BoundsOk(files) && i < |files|
    ensures StartInputs(files, level, start)
    ensures files[i] in start && StartsFrom(files, level, files[i], start)
  {
    start := files[i..i + 1];
    assert start[0] == files[i];
    if level == 0 {
      var smallest, largest := GetRange(start);
      start := GetOverlappingInputs(files, true, Some(smallest.user), Some(largest.user));
      ghost var low, high :| SelectsBy(files, true, Some(smallest.user), Some(largest.user), low, high)
                             && start == OverlappingFiles(files, low, high);
      OverlappingMembers(files, low, high);
      assert files[i] in start;
    }
  }

  /** VersionSet::CompactRange: the files overlapping the range, cut short below level 0 once
      they reach the size limit. */
  method CompactRange(files: seq<File>, level: nat, begin: Option<UserKey>, end: Option<UserKey>, limit: nat)
    returns (start: seq<File>)
    requires BoundsOk(files) && (level > 0 ==> Disjoint(files))
    ensures start != [] ==> StartInputs(files, level, start)
    ensures start == [] <==> !SomeOverlap(files, begin, end)
    ensures if level == 0 then IsSelection(files, true, begin, end, start)
            else IsCut(OverlappingFiles(files, begin, end), limit, start)
  {
    start := GetOverlappingInputs(files, level == 0, begin, end);
    ghost var low, high :| SelectsBy(files, level == 0, begin, end, low, high) && start == OverlappingFiles(files, low, high);
    RequestIsSelected(files, level, low, high, begin, end);
    if level > 0 && start != [] {
      DisjointIsUserSorted(files);
      ghost var i, j := OverlappingIsRun(files, low, high);
      start := CutAtLimit(start, limit);
      assert start == files[i..i + |start|];
    }
  }

  /** The shortest prefix, of one file at least, whose size reaches the limit, or all files if none does. */
  ghost predicate IsCut(files: seq<File>, limit: nat, r: seq<File>) {
    && r <= files && (files != [] ==> r != [])
    && (r == files || TotalFileSize(r) >= limit)
    && forall k :: 0 < k < |r| ==> TotalFileSize(files[..k]) < limit
  }

  method CutAtLimit(files: seq<File>, limit: nat) returns (r: seq<File>)
    requires files != []
    ensures IsCut(files, limit, r)
  {
    var total := 0;
    for k := 0 to |files|
      invariant total == TotalFileSize(files[..k])
      invariant forall m :: 0 < m <= k ==> TotalFileSize(files[..m]) < limit
    {
      SizeOfOneMore(files, k);
      total := total + files[k].size;
      if total >= limit {
        assert forall m :: 0 < m < k + 1 ==> files[..k + 1][..m] == files[..m];
        return files[..k + 1];
      }
    }
    return files;
  }

  lemma {:induction false} SizeOfOneMore(files: seq<File>, k: nat)
    requires k < |files|
    ensures TotalFileSize(files[..k + 1]) == TotalFileSize(files[..k]) + files[k].size
  {
    if k > 0 {
      SizeOfOneMore(files[1..], k - 1);
      assert files[..k + 1][1..] == files[1..][..k] && files[..k][1..] == files[1..][..k - 1];
    }
  }

  lemma RequestIsSelected(files: seq<File>, level: nat, low: Option<UserKey>, high: Option<UserKey>,
                          begin: Option<UserKey>, end: Option<UserKey>)
    requires if level == 0 then LeastClosed(files, low, high, begin, end) else low == begin && high == end
    ensures OverlappingFiles(files, low, high) == [] <==> !SomeOverlap(files, begin, end)
  {
    OverlappingMembers(files, low, high);
    if OverlappingFiles(files, low, high) != [] {
      assert OverlappingFiles(files, low, high)[0] in OverlappingFiles(files, low, high);
      if level == 0 { LevelZeroNonEmpty(files, low, high, begin, end); }
    }
  }

  /** Growing an empty selection finds nothing new: the closed range of a request that
      overlaps no file is the request itself. */
  lemma LevelZeroNonEmpty(files: seq<File>, low: Option<UserKey>, high: Option<UserKey>,
                          begin: Option<UserKey>, end: Option<UserKey>)
    requires LeastClosed(files, low, high, begin, end)
    requires OverlappingFiles(files, low, high) != []
    ensures SomeOverlap(files, begin, end)
  {
    if !SomeOverlap(files, begin, end) {
      assert Closed(files, begin, end);
      assert Contains(begin, end, low, high) by {
        assert Contains(begin, end, begin, end);
      }
      OverlappingMembers(files, low, high);
      assert OverlappingFiles(files, low, high)[0] in OverlappingFiles(files, low, high);
    }
  }
}
