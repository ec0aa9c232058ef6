/** DBIter: a cursor over the user pairs visible at a snapshot (db/db_iter.cc). */
module DbIter {
  import opened Wrappers
  import opened Dbformat
  import opened Cursors

  // ---------- The visible pairs ----------

  predicate Visible(es: seq<Entry>, snapshot: nat, i: nat)
    requires i < |es|
  {
    es[i].key.seqno <= snapshot
  }

  /** Entry `i` is what its user key reads as: the newest visible one, and a value. */
  ghost predicate IsHead(es: seq<Entry>, snapshot: nat, i: nat)
    requires i < |es|
  {
    && Visible(es, snapshot, i) && es[i].key.kind.Value?
    && forall j :: 0 <= j < i && Visible(es, snapshot, j) ==> es[j].key.user != es[i].key.user
  }

  /** The positions of the heads among the first `n` entries. */
  ghost function Heads(es: seq<Entry>, snapshot: nat, n: nat): (r: seq<nat>)
    requires n <= |es|
    ensures |r| <= n
  {
    if n == 0 then []
    else Heads(es, snapshot, n - 1) + (if IsHead(es, snapshot, n - 1) then [n - 1] else [])
  }

  ghost function AllHeads(es: seq<Entry>, snapshot: nat): seq<nat> {
    Heads(es, snapshot, |es|)
  }

  ghost function Rank(es: seq<Entry>, snapshot: nat, n: nat): nat
    requires n <= |es|
  {
    |Heads(es, snapshot, n)|
  }

  lemma {:induction false} HeadsPrefix(es: seq<Entry>, snapshot: nat, m: nat, n: nat)
    requires m <= n <= |es|
    ensures Heads(es, snapshot, m) <= Heads(es, snapshot, n)
  {
    if m < n {
      HeadsPrefix(es, snapshot, m, n - 1);
    }
  }

  /** A head sits in the list of heads at its own rank. */
  lemma HeadAtRank(es: seq<Entry>, snapshot: nat, h: nat)
    requires h < |es| && IsHead(es, snapshot, h)
    ensures Rank(es, snapshot, h) < |AllHeads(es, snapshot)|
    ensures AllHeads(es, snapshot)[Rank(es, snapshot, h)] == h
    ensures Rank(es, snapshot, h + 1) == Rank(es, snapshot, h) + 1
  {
    HeadsPrefix(es, snapshot, h + 1, |es|);
    assert Heads(es, snapshot, h + 1)[Rank(es, snapshot, h)] == h;
  }

  lemma {:induction false} HeadsAreHeads(es: seq<Entry>, snapshot: nat, n: nat)
    requires n <= |es|
    ensures forall k :: 0 <= k < Rank(es, snapshot, n) ==> Heads(es, snapshot, n)[k] < n && IsHead(es, snapshot, Heads(es, snapshot, n)[k])
    ensures forall k, l :: 0 <= k < l < Rank(es, snapshot, n) ==> Heads(es, snapshot, n)[k] < Heads(es, snapshot, n)[l]
  {
    if n > 0 {
      HeadsAreHeads(es, snapshot, n - 1);
    }
  }

  ghost predicate NoHeads(es: seq<Entry>, snapshot: nat, lo: nat, hi: nat) {
    forall i :: lo <= i < hi && i < |es| ==> !IsHead(es, snapshot, i)
  }

  lemma {:induction false} NoHeadsSameRank(es: seq<Entry>, snapshot: nat, lo: nat, hi: nat)
    requires lo <= hi <= |es| && NoHeads(es, snapshot, lo, hi)
    ensures Rank(es, snapshot, lo) == Rank(es, snapshot, hi)
  {
    if lo < hi {
      NoHeadsSameRank(es, snapshot, lo, hi - 1);
    }
  }

  /** The list of heads is exactly what reads find: one pair for each user key with a value,
      in increasing order of user keys. */
  lemma HeadsAreReads(es: seq<Entry>, snapshot: nat, user: UserKey, value: Bytes)
    requires Sorted(es)
    ensures Reads(Elements(es), user, snapshot, Found(value)) <==>
      exists k :: 0 <= k < |AllHeads(es, snapshot)| && AllHeads(es, snapshot)[k] < |es|
                  && es[AllHeads(es, snapshot)[k]].key.user == user && es[AllHeads(es, snapshot)[k]].value == value
  {
    HeadsAreHeads(es, snapshot, |es|);
    if Reads(Elements(es), user, snapshot, Found(value)) {
      var e :| IsNewest(Elements(es), user, snapshot, e) && Found(value) == LookupOf(e);
      var h :| 0 <= h < |es| && es[h] == e;
      forall j | 0 <= j < h && Visible(es, snapshot, j)
        ensures es[j].key.user != user
      {
        assert es[j] in Elements(es) && es[j].key.Precedes(es[h].key);
      }
      HeadAtRank(es, snapshot, h);
    }
    if k :| 0 <= k < |AllHeads(es, snapshot)| && es[AllHeads(es, snapshot)[k]].key.user == user
            && es[AllHeads(es, snapshot)[k]].value == value {
      var h := AllHeads(es, snapshot)[k];
      HeadIsNewest(es, snapshot, h);
    }
  }

  lemma HeadIsNewest(es: seq<Entry>, snapshot: nat, h: nat)
    requires Sorted(es) && h < |es| && IsHead(es, snapshot, h)
    ensures IsNewest(Elements(es), es[h].key.user, snapshot, es[h])
  {
    forall x | x in Elements(es) && x.IsFor(es[h].key.user, snapshot)
      ensures x.key.seqno <= es[h].key.seqno
    {
      var j :| 0 <= j < |es| && es[j] == x;
      assert j >= h;
    }
  }

  lemma HeadsIncrease(es: seq<Entry>, snapshot: nat, g: nat, h: nat)
    requires Sorted(es) && g < h < |es| && IsHead(es, snapshot, g) && IsHead(es, snapshot, h)
    ensures es[g].key.user < es[h].key.user
  {
    assert es[g].key.Precedes(es[h].key);
  }

  // ---------- The iterator ----------

  datatype Direction = Forward | Reverse

  class DBIter {
    const entries: seq<Entry>
    const sequence: nat

    var iter: Cursor
    var savedKey: UserKey
    var savedValue: Bytes
    var direction: Direction
    var valid: bool

    /** The position in the list of visible pairs, when the iterator is valid. */
    ghost var index: nat

    ghost predicate WellFormed()
      reads this
    {
      Sorted(entries) && iter.entries == entries && iter.Ok()
    }

    /** Standing in reverse before head `h`: everything between the internal iterator and the
        entries of that user key is invisible. */
    ghost predicate BeforeHead(h: nat)
      reads this
    {
      && h < |entries| && IsHead(entries, sequence, h)
      && savedKey == entries[h].key.user && savedValue == entries[h].value
      && (iter.Valid() ==> iter.pos < h && entries[iter.pos].key.user < savedKey)
      && forall j :: (iter.Valid() ==> iter.pos < j) && 0 <= j < h ==> !Visible(entries, sequence, j)
    }

    ghost predicate Valid()
      reads this
    {
      && WellFormed()
      && (valid ==> index < |AllHeads(entries, sequence)|)
      && (valid && direction.Forward? ==> iter.Valid() && iter.pos == AllHeads(entries, sequence)[index] && IsHead(entries, sequence, iter.pos))
      && (valid && direction.Reverse? ==> BeforeHead(AllHeads(entries, sequence)[index]))
    }

    constructor (entries: seq<Entry>, sequence: nat)
      requires Sorted(entries)
      ensures Valid() && !valid && this.entries == entries && this.sequence == sequence
    {
      this.entries, this.sequence := entries, sequence;
      iter := Cursor(entries, |entries|);
      savedKey, savedValue, direction, valid, index := 0.0, [], Forward, false, 0;
    }

    /** key() and value() are those of the visible pair at the current position. */
    function Current(): (r: (UserKey, Bytes))
      requires Valid() && valid
      reads this
      ensures index < |AllHeads(entries, sequence)| && AllHeads(entries, sequence)[index] < |entries|
      ensures r.0 == entries[AllHeads(entries, sequence)[index]].key.user
      ensures r.1 == entries[AllHeads(entries, sequence)[index]].value
    {
      if direction.Forward? then (iter.Key().user, iter.entries[iter.pos].value) else (savedKey, savedValue)
    }

    // ---------- Scanning forward ----------

    /** Stops at the first eligible head at or after the internal iterator. */
    method FindNextUserEntry(skip: Option<UserKey>)
      requires WellFormed() && iter.Valid() && direction.Forward? && ScanOk(entries, sequence, iter.pos, skip)
      modifies this
      ensures Valid() && direction.Forward?
      ensures valid ==> old(iter.pos) <= iter.pos && Eligible(entries, sequence, iter.pos, skip)
      ensures valid ==> NoneEligible(entries, sequence, old(iter.pos), iter.pos, skip)
      ensures valid ==> index == Rank(entries, sequence, iter.pos)
      ensures !valid ==> NoneEligible(entries, sequence, old(iter.pos), |entries|, skip)
    {
      var skipping := skip;
      while iter.Valid()
        invariant WellFormed() && direction.Forward? && old(iter.pos) <= iter.pos
        invariant Scanning(entries, sequence, old(iter.pos), iter.pos, skip, skipping)
        decreases |entries| - iter.pos
      {
        var e := entries[iter.pos];
        if e.key.seqno <= sequence && e.key.kind == Value && !(skipping.Some? && e.key.user <= skipping.value) {
          ScanStops(entries, sequence, old(iter.pos), iter.pos, skip, skipping);
          valid, index := true, Rank(entries, sequence, iter.pos);
          HeadAtRank(entries, sequence, iter.pos);
          return;
        }
        ScanStep(entries, sequence, old(iter.pos), iter.pos, skip, skipping);
        if e.key.seqno <= sequence && e.key.kind == Deletion {
          skipping := Some(e.key.user);
        }
        iter := iter.Next();
      }
      valid := false;
    }

    // ---------- Scanning backward ----------

    /** The scan backward: `saved` is the newest visible entry seen of its user key, if a value. */
    method FindPrevUserEntry(ghost p: int)
      requires WellFormed() && direction.Reverse? && -1 <= p < |entries|
      requires if p == -1 then !iter.Valid() else iter.pos == p
      requires BackOk(entries, sequence, p)
      modifies this
      ensures Valid()
      ensures valid ==> direction.Reverse? && index + 1 == Rank(entries, sequence, p + 1)
      ensures !valid ==> NoHeads(entries, sequence, 0, p + 1)
    {
      var valueType := Deletion;
      ghost var pos, m := p, p + 1;
      while iter.Valid()
        invariant WellFormed() && direction.Reverse? && -1 <= pos <= p
        invariant if pos == -1 then !iter.Valid() else iter.pos == pos
        invariant BackScan(entries, sequence, p, pos, m, valueType)
        invariant valueType.Value? ==> savedKey == entries[m].key.user && savedValue == entries[m].value
        decreases pos
      {
        var e := entries[iter.pos];
        if e.key.seqno <= sequence {
          if valueType != Deletion && e.key.user < savedKey {
            break;
          }
          valueType := e.key.kind;
          BackVisible(entries, sequence, p, pos, m);
          m := pos;
          if valueType == Value {
            savedKey, savedValue := e.key.user, e.value;
          }
        } else {
          BackInvisible(entries, sequence, p, pos, m, valueType);
        }
        iter := iter.Prev();
        pos := pos - 1;
      }
      if valueType == Deletion {
        valid, direction := false, Forward;
      } else {
        BackStops(entries, sequence, p, pos, m);
        valid, index := true, Rank(entries, sequence, m);
      }
    }

    // ---------- The iterator interface ----------

    method SeekToFirst()
      requires WellFormed()
      modifies this
      ensures Valid()
      ensures valid <==> |AllHeads(entries, sequence)| > 0
      ensures valid ==> index == 0
    {
      direction := Forward;
      iter := iter.SeekToFirst();
      if iter.Valid() {
        FindNextUserEntry(None);
        NoneToSkip(entries, sequence, 0, if valid then iter.pos else |entries|);
        if valid {
          NoHeadsSameRank(entries, sequence, 0, iter.pos);
        }
      } else {
        valid := false;
      }
      if !valid {
        NoHeadsSameRank(entries, sequence, 0, |entries|);
      }
    }

    /** Lands on the first visible pair whose user key is at or after the target. */
    method Seek(target: UserKey)
      requires WellFormed()
      modifies this
      ensures Valid()
      ensures valid <==> exists k :: 0 <= k < |AllHeads(entries, sequence)| && HeadKey(entries, sequence, k) >= target
      ensures valid ==> HeadKey(entries, sequence, index) >= target
      ensures valid ==> forall k :: 0 <= k < index ==> HeadKey(entries, sequence, k) < target
    {
      direction := Forward;
      iter := iter.SeekTo(SeekKey(target, sequence));
      ghost var start := iter.pos;
      HeadsAreHeads(entries, sequence, |entries|);
      SeekStart(entries, sequence, target);
      if iter.Valid() {
        FindNextUserEntry(None);
        NoneToSkip(entries, sequence, start, if valid then iter.pos else |entries|);
      } else {
        valid := false;
      }
      if valid {
        SeekLands(entries, sequence, target, start, iter.pos);
      } else {
        SeekFails(entries, sequence, target, start);
      }
    }

    method SeekToLast()
      requires WellFormed()
      modifies this
      ensures Valid()
      ensures valid <==> |AllHeads(entries, sequence)| > 0
      ensures valid ==> index == |AllHeads(entries, sequence)| - 1
    {
      direction := Reverse;
      iter := iter.SeekToLast();
      FindPrevUserEntry(|entries| - 1);
      if !valid {
        NoHeadsSameRank(entries, sequence, 0, |entries|);
      }
    }

    /** From a visible pair, the next one, also after a change of direction. */
    method Next()
      requires Valid() && valid
      modifies this
      ensures Valid()
      ensures valid <==> old(index) + 1 < |AllHeads(entries, sequence)|
      ensures valid ==> index == old(index) + 1
    {
      ghost var h := AllHeads(entries, sequence)[index];
      HeadsAreHeads(entries, sequence, |entries|);
      if direction == Reverse {
        direction := Forward;
        if !iter.Valid() {
          iter := iter.SeekToFirst();
        } else {
          iter := iter.Next();
        }
        if !iter.Valid() {
          // The entries of the current user key lie ahead.
          assert false;
        }
      } else {
        savedKey := entries[iter.pos].key.user;
      }
      ghost var start := iter.pos;
      NextScanOk(entries, sequence, h, start);
      FindNextUserEntry(Some(savedKey));
      NextLands(entries, sequence, h, start, old(index), if valid then iter.pos else |entries|);
    }

    /** From a visible pair, the previous one, also after a change of direction. */
    method Prev()
      requires Valid() && valid
      modifies this
      ensures Valid()
      ensures valid <==> old(index) > 0
      ensures valid ==> index == old(index) - 1
    {
      hide Heads, IsHead, Visible;
      ghost var h := AllHeads(entries, sequence)[index];
      HeadsAreHeads(entries, sequence, |entries|);
      HeadAtRank(entries, sequence, h);
      RankOfHead(entries, sequence, index);
      ghost var p: int := if iter.Valid() then iter.pos else -1;
      if direction == Forward {
        savedKey := entries[iter.pos].key.user;
        while true
          invariant WellFormed() && direction.Forward? && savedKey == entries[h].key.user
          invariant iter.Valid() && iter.pos <= h && entries[iter.pos].key.user == savedKey
          decreases iter.pos
        {
          iter := iter.Prev();
          if !iter.Valid() {
            valid := false;
            FirstKeyHasRankZero(entries, sequence, h);
            return;
          }
          SortedUsers(entries, iter.pos, h);
          if entries[iter.pos].key.user < savedKey {
            break;
          }
        }
        p := iter.pos;
        direction := Reverse;
        BackFromKey(entries, sequence, h, p);
      } else {
        BackFromHead(entries, sequence, h, p);
      }
      FindPrevUserEntry(p);
      if !valid {
        NoHeadsSameRank(entries, sequence, 0, p + 1);
      }
    }
  }

  /** A head the scan may stop at: beyond the key to skip. */
  ghost predicate Eligible(es: seq<Entry>, snapshot: nat, i: nat, skip: Option<UserKey>) {
    i < |es| && IsHead(es, snapshot, i) && (skip.Some? ==> es[i].key.user > skip.value)
  }

  /** With nothing to skip, every head is eligible. */
  lemma NoneToSkip(es: seq<Entry>, snapshot: nat, lo: nat, hi: nat)
    requires NoneEligible(es, snapshot, lo, hi, None)
    ensures NoHeads(es, snapshot, lo, hi)
  {
    forall i | lo <= i < hi && i < |es|
      ensures !IsHead(es, snapshot, i)
    {
      assert !Eligible(es, snapshot, i, None);
    }
  }

  ghost predicate NoneEligible(es: seq<Entry>, snapshot: nat, lo: nat, hi: nat, skip: Option<UserKey>) {
    forall i :: lo <= i < hi ==> !Eligible(es, snapshot, i, skip)
  }

  /** The scan has not entered a user key it should hide, unless it is already skipping it,
      and no visible entry lies behind the key to skip. */
  ghost predicate ScanOk(es: seq<Entry>, snapshot: nat, pos: nat, skip: Option<UserKey>) {
    && (forall j :: 0 <= j < pos < |es| && Visible(es, snapshot, j) && es[j].key.user == es[pos].key.user ==>
          skip.Some? && es[pos].key.user <= skip.value)
    && (skip.Some? ==> forall i :: pos <= i < |es| && Visible(es, snapshot, i) ==> skip.value <= es[i].key.user)
  }

  /** The state of the scan: what it started to skip and what it skips now. */
  ghost predicate Scanning(es: seq<Entry>, snapshot: nat, start: nat, pos: nat, skip: Option<UserKey>, skipping: Option<UserKey>) {
    && (skip.Some? ==> skipping.Some? && skip.value <= skipping.value)
    && ScanOk(es, snapshot, pos, skipping)
    && (skipping.Some? && skipping != skip ==> exists d :: 0 <= d < pos && d < |es| && Visible(es, snapshot, d) && es[d].key.user == skipping.value)
    && NoneEligible(es, snapshot, start, pos, skip)
  }

  lemma ScanStops(es: seq<Entry>, snapshot: nat, start: nat, pos: nat, skip: Option<UserKey>, skipping: Option<UserKey>)
    requires Sorted(es) && start <= pos < |es| && Scanning(es, snapshot, start, pos, skip, skipping)
    requires Visible(es, snapshot, pos) && es[pos].key.kind.Value?
    requires skipping.Some? ==> es[pos].key.user > skipping.value
    ensures Eligible(es, snapshot, pos, skip)
  {
  }

  lemma ScanStep(es: seq<Entry>, snapshot: nat, start: nat, pos: nat, skip: Option<UserKey>, skipping: Option<UserKey>)
    requires Sorted(es) && start <= pos < |es| && Scanning(es, snapshot, start, pos, skip, skipping)
    requires !(Visible(es, snapshot, pos) && es[pos].key.kind.Value? && !(skipping.Some? && es[pos].key.user <= skipping.value))
    ensures Scanning(es, snapshot, start, pos + 1, skip,
                     if Visible(es, snapshot, pos) && es[pos].key.kind.Deletion? then Some(es[pos].key.user) else skipping)
  {
    if skipping.Some? && skipping != skip {
      var d :| 0 <= d < pos && d < |es| && Visible(es, snapshot, d) && es[d].key.user == skipping.value;
      assert es[d].key.Precedes(es[pos].key);
    }
    forall j | 0 <= j < pos
      ensures es[j].key.user <= es[pos].key.user
    {
      assert es[j].key.Precedes(es[pos].key);
    }
    forall i | pos < i < |es|
      ensures es[pos].key.user <= es[i].key.user
    {
      assert es[pos].key.Precedes(es[i].key);
    }
  }

  // ---------- Facts about the backward scan ----------

  /** Every visible entry behind `p` belongs to a later user key. */
  ghost predicate BackOk(es: seq<Entry>, snapshot: nat, p: int) {
    0 <= p < |es| ==> forall i :: p < i < |es| && Visible(es, snapshot, i) ==> es[p].key.user < es[i].key.user
  }

  /** The backward scan from `p` has reached `pos`; `m` is the last visible entry it took. */
  ghost predicate BackScan(es: seq<Entry>, snapshot: nat, p: int, pos: int, m: int, valueType: ValueType) {
    && -1 <= pos <= p < |es| && pos < m <= p + 1
    && (forall j :: pos < j < m ==> !Visible(es, snapshot, j))
    && (m <= p ==> Visible(es, snapshot, m) && es[m].key.kind == valueType)
    && (m == p + 1 ==> valueType.Deletion?)
    && NoHeads(es, snapshot, m + 1, p + 1)
    && (valueType.Deletion? ==> NoHeads(es, snapshot, pos + 1, p + 1))
  }

  lemma BackInvisible(es: seq<Entry>, snapshot: nat, p: int, pos: int, m: int, valueType: ValueType)
    requires BackScan(es, snapshot, p, pos, m, valueType) && pos >= 0 && !Visible(es, snapshot, pos)
    ensures BackScan(es, snapshot, p, pos - 1, m, valueType)
  {
  }

  /** Taking a visible entry: it belongs to the same user key as the value taken before, or
      everything taken before is known not to be a head. */
  lemma BackVisible(es: seq<Entry>, snapshot: nat, p: int, pos: int, m: int)
    requires Sorted(es) && pos >= 0 && BackScanBefore(es, snapshot, p, pos, m)
    ensures BackScan(es, snapshot, p, pos - 1, pos, es[pos].key.kind)
  {
  }

  ghost predicate BackScanBefore(es: seq<Entry>, snapshot: nat, p: int, pos: int, m: int) {
    && 0 <= pos <= p < |es| && Visible(es, snapshot, pos)
    && (BackScan(es, snapshot, p, pos, m, Deletion)
        || (BackScan(es, snapshot, p, pos, m, Value) && es[m].key.user <= es[pos].key.user))
  }

  /** When the scan stops with a value, that value is the last head at or before `p`. */
  lemma BackStops(es: seq<Entry>, snapshot: nat, p: int, pos: int, m: int)
    requires Sorted(es) && BackScan(es, snapshot, p, pos, m, Value)
    requires pos >= 0 ==> es[pos].key.user < es[m].key.user
    ensures IsHead(es, snapshot, m)
    ensures Rank(es, snapshot, m) < |AllHeads(es, snapshot)| && AllHeads(es, snapshot)[Rank(es, snapshot, m)] == m
    ensures Rank(es, snapshot, m) + 1 == Rank(es, snapshot, p + 1)
  {
    forall j | 0 <= j < m && Visible(es, snapshot, j)
      ensures es[j].key.user != es[m].key.user
    {
      assert j <= pos;
      assert j < pos ==> es[j].key.Precedes(es[pos].key);
    }
    HeadAtRank(es, snapshot, m);
    NoHeadsSameRank(es, snapshot, m + 1, p + 1);
  }

  // ---------- Facts about Seek, Next and Prev ----------

  ghost function HeadKey(es: seq<Entry>, snapshot: nat, k: nat): UserKey
    requires k < |AllHeads(es, snapshot)|
  {
    HeadsAreHeads(es, snapshot, |es|);
    es[AllHeads(es, snapshot)[k]].key.user
  }

  lemma SortedUsers(es: seq<Entry>, i: nat, j: nat)
    requires Sorted(es) && i <= j < |es|
    ensures es[i].key.user <= es[j].key.user
  {
    if i < j { assert es[i].key.Precedes(es[j].key); }
  }

  lemma SeekStart(es: seq<Entry>, snapshot: nat, target: UserKey)
    requires Sorted(es)
    ensures ScanOk(es, snapshot, LowerBound(es, SeekKey(target, snapshot)), None)
    ensures forall i :: 0 <= i < |es| && IsHead(es, snapshot, i) ==>
      (i < LowerBound(es, SeekKey(target, snapshot)) <==> es[i].key.user < target)
  {
    var start := LowerBound(es, SeekKey(target, snapshot));
    forall i | 0 <= i < |es| && Visible(es, snapshot, i)
      ensures i < start <==> es[i].key.user < target
    {
    }
    if start < |es| {
      forall j | 0 <= j < start && Visible(es, snapshot, j)
        ensures es[j].key.user != es[start].key.user
      {
        assert es[j].key.user < target <= es[start].key.user;
      }
    }
  }

  lemma SeekLands(es: seq<Entry>, snapshot: nat, target: UserKey, start: nat, h: nat)
    requires Sorted(es) && start <= h < |es| && IsHead(es, snapshot, h) && start == LowerBound(es, SeekKey(target, snapshot))
    requires NoHeads(es, snapshot, start, h)
    ensures Rank(es, snapshot, h) < |AllHeads(es, snapshot)|
    ensures HeadKey(es, snapshot, Rank(es, snapshot, h)) >= target
    ensures forall k :: 0 <= k < Rank(es, snapshot, h) ==> HeadKey(es, snapshot, k) < target
  {
    HeadAtRank(es, snapshot, h);
    HeadsAreHeads(es, snapshot, |es|);
    SeekStart(es, snapshot, target);
  }

  lemma SeekFails(es: seq<Entry>, snapshot: nat, target: UserKey, start: nat)
    requires Sorted(es) && start == LowerBound(es, SeekKey(target, snapshot)) && NoHeads(es, snapshot, start, |es|)
    ensures forall k :: 0 <= k < |AllHeads(es, snapshot)| ==> HeadKey(es, snapshot, k) < target
  {
    HeadsAreHeads(es, snapshot, |es|);
    SeekStart(es, snapshot, target);
  }

  lemma RankOfHead(es: seq<Entry>, snapshot: nat, k: nat)
    requires k < |AllHeads(es, snapshot)|
    ensures AllHeads(es, snapshot)[k] < |es| && IsHead(es, snapshot, AllHeads(es, snapshot)[k])
    ensures Rank(es, snapshot, AllHeads(es, snapshot)[k]) == k
  {
    HeadsAreHeads(es, snapshot, |es|);
    var h := AllHeads(es, snapshot)[k];
    HeadAtRank(es, snapshot, h);
    var r := Rank(es, snapshot, h);
  }

  /** Where Next resumes its scan: not past the entries of the head, with nothing visible of
      earlier user keys ahead. */
  lemma NextScanOk(es: seq<Entry>, snapshot: nat, h: nat, start: nat)
    requires Sorted(es) && h < |es| && IsHead(es, snapshot, h) && start <= h
    requires forall j :: start <= j < h ==> !Visible(es, snapshot, j)
    requires forall j :: 0 <= j < start && Visible(es, snapshot, j) ==> es[j].key.user < es[h].key.user
    ensures ScanOk(es, snapshot, start, Some(es[h].key.user))
  {
    SortedUsers(es, start, h);
    forall i | start <= i < |es| && Visible(es, snapshot, i)
      ensures es[h].key.user <= es[i].key.user
    {
      SortedUsers(es, h, i);
    }
  }

  lemma NextLands(es: seq<Entry>, snapshot: nat, h: nat, start: nat, index: nat, stop: nat)
    requires Sorted(es) && h < |es| && start <= h && index < |AllHeads(es, snapshot)| && AllHeads(es, snapshot)[index] == h
    requires forall j :: start <= j < h ==> !Visible(es, snapshot, j)
    requires start <= stop <= |es| && NoneEligible(es, snapshot, start, stop, Some(es[h].key.user))
    requires stop < |es| ==> Eligible(es, snapshot, stop, Some(es[h].key.user))
    ensures stop < |es| ==> Rank(es, snapshot, stop) == index + 1
    ensures stop == |es| ==> |AllHeads(es, snapshot)| == index + 1
  {
    RankOfHead(es, snapshot, index);
    HeadAtRank(es, snapshot, h);
    if stop < |es| && stop <= h { SortedUsers(es, stop, h); }
    forall i | h < i < stop
      ensures !IsHead(es, snapshot, i)
    {
      assert !Eligible(es, snapshot, i, Some(es[h].key.user));
      if IsHead(es, snapshot, i) { HeadsIncrease(es, snapshot, h, i); }
    }
    NoHeadsSameRank(es, snapshot, h + 1, stop);
  }

  lemma FirstKeyHasRankZero(es: seq<Entry>, snapshot: nat, h: nat)
    requires Sorted(es) && h < |es| && IsHead(es, snapshot, h) && es[0].key.user == es[h].key.user
    ensures Rank(es, snapshot, h) == 0
  {
    forall i | 0 <= i < h
      ensures !IsHead(es, snapshot, i)
    {
      SortedUsers(es, 0, i);
      SortedUsers(es, i, h);
    }
    NoHeadsSameRank(es, snapshot, 0, h);
  }

  /** Scanning back past all entries of the head's user key keeps its rank. */
  lemma BackFromKey(es: seq<Entry>, snapshot: nat, h: nat, p: nat)
    requires Sorted(es) && p < h < |es| && IsHead(es, snapshot, h)
    requires es[p].key.user < es[h].key.user && es[p + 1].key.user == es[h].key.user
    ensures BackOk(es, snapshot, p) && Rank(es, snapshot, p + 1) == Rank(es, snapshot, h)
  {
    forall i | p < i < |es|
      ensures es[p].key.user < es[i].key.user
      ensures i < h ==> es[i].key.user == es[h].key.user
    {
      SortedUsers(es, p + 1, i);
      if i < h { SortedUsers(es, i, h); }
    }
    NoHeadsSameRank(es, snapshot, p + 1, h);
  }

  lemma BackFromHead(es: seq<Entry>, snapshot: nat, h: nat, p: int)
    requires Sorted(es) && -1 <= p < h < |es| && IsHead(es, snapshot, h)
    requires p >= 0 ==> es[p].key.user < es[h].key.user
    requires forall j :: p < j < h ==> !Visible(es, snapshot, j)
    ensures BackOk(es, snapshot, p) && Rank(es, snapshot, p + 1) == Rank(es, snapshot, h)
  {
    forall i | h <= i < |es|
      ensures es[h].key.user <= es[i].key.user
    {
      SortedUsers(es, h, i);
    }
    NoHeadsSameRank(es, snapshot, p + 1, h);
  }
}
