/** MergingIterator: a cursor over the sorted union of its children (table/merger.cc). */
module Merger {
  import opened Wrappers
  import opened Dbformat
  import opened Cursors

  // ---------- The sorted union ----------

  /** `merged` is the sorted union of the lists. */
  ghost predicate IsMerge(lists: seq<seq<Entry>>, merged: seq<Entry>) {
    && Sorted(merged)
    && (forall e :: e in merged ==> exists i :: 0 <= i < |lists| && e in lists[i])
    && (forall i, e :: 0 <= i < |lists| && e in lists[i] ==> e in merged)
  }

  /** Position `p` of a child cuts its list where position `n` cuts the merged list. */
  ghost predicate CutsAt(list: seq<Entry>, p: nat, merged: seq<Entry>, n: nat) {
    && p <= |list| && n <= |merged|
    && (n < |merged| ==> forall j :: 0 <= j < p ==> list[j].key.Precedes(merged[n].key))
    && (n > 0 ==> forall j :: p <= j < |list| ==> merged[n - 1].key.Precedes(list[j].key))
  }

  /** Every entry of the list has a place in the merged list. */
  ghost predicate Within(list: seq<Entry>, merged: seq<Entry>) {
    forall j :: 0 <= j < |list| ==> list[j] in merged
  }

  /** The position a child has when it stands on the last entry before the cut. */
  function LastBefore(p: nat, list: seq<Entry>): nat {
    if p == 0 then |list| else p - 1
  }

  ghost predicate StandsBefore(list: seq<Entry>, pos: nat, merged: seq<Entry>, n: nat) {
    exists p :: CutsAt(list, p, merged, n) && pos == LastBefore(p, list)
  }

  /** Seeking every child cuts all lists at the same place. */
  lemma SeekCuts(list: seq<Entry>, merged: seq<Entry>, target: InternalKey)
    requires Sorted(list) && Sorted(merged) && Within(list, merged)
    ensures CutsAt(list, LowerBound(list, target), merged, LowerBound(merged, target))
  {
    var p, n := LowerBound(list, target), LowerBound(merged, target);
    forall j | 0 <= j < |list|
      ensures j < p && n < |merged| ==> list[j].key.Precedes(merged[n].key)
      ensures j >= p && n > 0 ==> merged[n - 1].key.Precedes(list[j].key)
    {
      var m :| 0 <= m < |merged| && merged[m] == list[j];
    }
  }

  /** The list holding the entry after the cut stands on it; the other lists are cut after it, too. */
  lemma CutAfter(list: seq<Entry>, p: nat, merged: seq<Entry>, n: nat)
    requires Sorted(list) && Sorted(merged) && Within(list, merged)
    requires CutsAt(list, p, merged, n) && n < |merged|
    ensures merged[n] in list ==> p < |list| && list[p] == merged[n] && CutsAt(list, p + 1, merged, n + 1)
    ensures merged[n] !in list ==> CutsAt(list, p, merged, n + 1)
    ensures p < |list| ==> merged[n].key.AtMost(list[p].key)
  {
    if p < |list| {
      var m :| 0 <= m < |merged| && merged[m] == list[p];
      assert m >= n;
      if merged[n] in list {
        var j :| 0 <= j < |list| && list[j] == merged[n];
        assert p <= j;
      }
    }
  }

  /** Likewise on the other side of the cut. */
  lemma CutBefore(list: seq<Entry>, p: nat, merged: seq<Entry>, n: nat)
    requires Sorted(list) && Sorted(merged) && Within(list, merged)
    requires CutsAt(list, p, merged, n) && n > 0
    ensures merged[n - 1] in list ==> p > 0 && list[p - 1] == merged[n - 1] && CutsAt(list, p - 1, merged, n - 1)
    ensures merged[n - 1] !in list ==> CutsAt(list, p, merged, n - 1)
    ensures p > 0 ==> list[p - 1].key.AtMost(merged[n - 1].key)
  {
    if p > 0 {
      var m :| 0 <= m < |merged| && merged[m] == list[p - 1];
      assert m < n;
      if merged[n - 1] in list {
        var j :| 0 <= j < |list| && list[j] == merged[n - 1];
        assert j < p;
      }
    }
  }

  /** An entry of the list cuts it just before and just after itself. */
  lemma OwnCut(list: seq<Entry>, p: nat, merged: seq<Entry>, n: nat)
    requires Sorted(list) && Sorted(merged) && Within(list, merged)
    requires p < |list| && n < |merged| && list[p] == merged[n]
    ensures CutsAt(list, p, merged, n) && CutsAt(list, p + 1, merged, n + 1)
    ensures LowerBound(merged, merged[n].key) == n
  {
    OwnCutHere(list, p, merged, n);
    OwnCutNext(list, p, merged, n);
    assert forall b :: 0 <= b < n ==> merged[b].key.Precedes(merged[n].key);
  }

  lemma OwnCutHere(list: seq<Entry>, p: nat, merged: seq<Entry>, n: nat)
    requires Sorted(list) && Sorted(merged) && p < |list| && n < |merged| && list[p] == merged[n]
    ensures CutsAt(list, p, merged, n)
  {
    assert n > 0 ==> merged[n - 1].key.Precedes(merged[n].key);
  }

  lemma OwnCutNext(list: seq<Entry>, p: nat, merged: seq<Entry>, n: nat)
    requires Sorted(list) && Sorted(merged) && p < |list| && n < |merged| && list[p] == merged[n]
    ensures CutsAt(list, p + 1, merged, n + 1)
  {
    assert n + 1 < |merged| ==> merged[n].key.Precedes(merged[n + 1].key);
  }

  /** The lists are sorted and share no entry. */
  ghost predicate ListsFit(lists: seq<seq<Entry>>, merged: seq<Entry>) {
    && IsMerge(lists, merged)
    && (forall i :: 0 <= i < |lists| ==> Sorted(lists[i]) && Within(lists[i], merged))
    && (forall i, j, e :: 0 <= i < j < |lists| && e in lists[i] ==> e !in lists[j])
  }

  /** The children are cursors over the lists. */
  ghost predicate Fit(lists: seq<seq<Entry>>, children: seq<Cursor>) {
    && |children| == |lists|
    && forall i :: 0 <= i < |lists| ==> children[i].entries == lists[i] && children[i].Ok()
  }

  ghost predicate CutAll(lists: seq<seq<Entry>>, children: seq<Cursor>, merged: seq<Entry>, n: nat, skip: Option<nat>)
    requires Fit(lists, children)
  {
    forall i :: 0 <= i < |children| && Some(i) != skip ==> CutsAt(lists[i], children[i].pos, merged, n)
  }

  ghost predicate StandBefore(lists: seq<seq<Entry>>, children: seq<Cursor>, merged: seq<Entry>, n: nat, skip: Option<nat>)
    requires Fit(lists, children)
  {
    forall i :: 0 <= i < |children| && Some(i) != skip ==> StandsBefore(lists[i], children[i].pos, merged, n)
  }

  ghost predicate IsSmallest(children: seq<Cursor>, r: Option<nat>) {
    && (r.None? ==> forall k :: 0 <= k < |children| ==> !children[k].Valid())
    && (r.Some? ==> r.value < |children| && children[r.value].Valid())
    && (r.Some? ==> forall k :: 0 <= k < |children| && children[k].Valid() ==>
          children[r.value].Key().AtMost(children[k].Key()))
  }

  ghost predicate IsLargest(children: seq<Cursor>, r: Option<nat>) {
    && (r.None? ==> forall k :: 0 <= k < |children| ==> !children[k].Valid())
    && (r.Some? ==> r.value < |children| && children[r.value].Valid())
    && (r.Some? ==> forall k :: 0 <= k < |children| && children[k].Valid() ==>
          children[k].Key().AtMost(children[r.value].Key()))
  }

  /** The scan of FindSmallest. */
  method Smallest(children: seq<Cursor>) returns (smallest: Option<nat>)
    ensures IsSmallest(children, smallest)
  {
    smallest := None;
    for i := 0 to |children|
      invariant smallest.None? ==> forall k :: 0 <= k < i ==> !children[k].Valid()
      invariant smallest.Some? ==> smallest.value < i && children[smallest.value].Valid()
      invariant smallest.Some? ==> forall k :: 0 <= k < i && children[k].Valid() ==>
        children[smallest.value].Key().AtMost(children[k].Key())
    {
      if children[i].Valid() {
        if smallest.None? {
          smallest := Some(i);
        } else if Compare(children[i].Key(), children[smallest.value].Key()) < 0 {
          smallest := Some(i);
        }
      }
    }
  }

  /** The scan of FindLargest, from the last child down. */
  method Largest(children: seq<Cursor>) returns (largest: Option<nat>)
    ensures IsLargest(children, largest)
  {
    largest := None;
    for i := |children| downto 0
      invariant largest.None? ==> forall k :: i <= k < |children| ==> !children[k].Valid()
      invariant largest.Some? ==> i <= largest.value < |children| && children[largest.value].Valid()
      invariant largest.Some? ==> forall k :: i <= k < |children| && children[k].Valid() ==>
        children[k].Key().AtMost(children[largest.value].Key())
    {
      if children[i].Valid() {
        if largest.None? {
          largest := Some(i);
        } else if Compare(children[i].Key(), children[largest.value].Key()) > 0 {
          largest := Some(i);
        }
      }
    }
  }

  datatype Direction = Forward | Reverse

  class MergingIterator {
    ghost const lists: seq<seq<Entry>>
    ghost const merged: seq<Entry>

    var children: seq<Cursor>
    var current: Option<nat>
    var direction: Direction

    /** The position in the merged list; `|merged|` when the iterator is not valid. */
    ghost var index: nat

    /** What is said of the lists alone. */
    ghost predicate ListsOk() { ListsFit(lists, merged) }

    ghost predicate WellFormed()
      reads this
    {
      ListsOk() && Fit(lists, children)
    }

    /** Every child but `skip` cuts its list where the merged list is cut at `n`. */
    ghost predicate AllCut(n: nat, skip: Option<nat>)
      requires WellFormed()
      reads this
    {
      CutAll(lists, children, merged, n, skip)
    }

    /** Every child but `skip` stands on its last entry before the cut at `n`. */
    ghost predicate AllBefore(n: nat, skip: Option<nat>)
      requires WellFormed()
      reads this
    {
      StandBefore(lists, children, merged, n, skip)
    }

    ghost predicate Valid()
      reads this
    {
      && WellFormed()
      && match current
         case None => index == |merged|
         case Some(c) =>
           && c < |children| && children[c].Valid()
           && index < |merged| && children[c].entries[children[c].pos] == merged[index]
           && (direction.Forward? ==> AllCut(index + 1, current))
           && (direction.Reverse? ==> AllBefore(index, current))
    }

    constructor (lists: seq<seq<Entry>>, ghost merged: seq<Entry>)
      requires IsMerge(lists, merged) && forall i :: 0 <= i < |lists| ==> Sorted(lists[i])
      requires forall i, j, e :: 0 <= i < j < |lists| && e in lists[i] ==> e !in lists[j]
      ensures Valid() && current == None && this.lists == lists && this.merged == merged
    {
      this.lists, this.merged := lists, merged;
      children := seq(|lists|, i requires 0 <= i < |lists| => Cursor(lists[i], |lists[i]|));
      current, direction, index := None, Forward, |merged|;
    }

    /** Key and value of the iterator are those of the merged list at its position. */
    function Current(): Entry
      requires Valid() && current.Some?
      reads this
      ensures index < |merged| && Current() == merged[index]
    {
      children[current.value].entries[children[current.value].pos]
    }

    method FindSmallest(ghost n: nat)
      requires WellFormed() && n <= |merged| && AllCut(n, None) && direction.Forward?
      modifies this`current, this`index
      ensures Valid() && index == n
    {
      var smallest := Smallest(children);
      SmallestIsNext(n, smallest);
      current, index := smallest, n;
    }

    lemma SmallestIsNext(n: nat, smallest: Option<nat>)
      requires WellFormed() && n <= |merged| && AllCut(n, None)
      requires IsSmallest(children, smallest)
      ensures smallest.None? ==> n == |merged|
      ensures smallest.Some? ==> n < |merged| && children[smallest.value].entries[children[smallest.value].pos] == merged[n]
      ensures smallest.Some? ==> AllCut(n + 1, smallest)
    {
      if n < |merged| {
        assert merged[n] in merged;
        var h :| 0 <= h < |lists| && merged[n] in lists[h];
        forall i | 0 <= i < |children|
          ensures i == h ==> children[i].Valid() && children[i].entries[children[i].pos] == merged[n]
          ensures i != h ==> CutsAt(lists[i], children[i].pos, merged, n + 1)
          ensures children[i].Valid() ==> merged[n].key.AtMost(children[i].Key())
        {
          CutAfter(lists[i], children[i].pos, merged, n);
          assert i != h ==> merged[n] !in lists[i];
        }
        var s := smallest.value;
        if s != h {
          assert children[s].entries[children[s].pos] in merged;
          SameKeySameEntry(merged, children[s].entries[children[s].pos], merged[n]);
        }
      } else {
        forall i | 0 <= i < |children|
          ensures !children[i].Valid()
        {
          CutAtEnd(lists[i], children[i].pos, merged);
        }
      }
    }

    lemma CutAtEnd(list: seq<Entry>, p: nat, merged: seq<Entry>)
      requires Sorted(merged) && Within(list, merged) && CutsAt(list, p, merged, |merged|)
      ensures p == |list|
    {
      if p < |list| {
        var m :| 0 <= m < |merged| && merged[m] == list[p];
      }
    }

    method FindLargest(ghost n: nat)
      requires WellFormed() && n <= |merged| && AllBefore(n, None) && direction.Reverse?
      modifies this`current, this`index
      ensures Valid() && index == if n == 0 then |merged| else n - 1
    {
      var largest := Largest(children);
      LargestIsPrevious(n, largest);
      current, index := largest, if n == 0 then |merged| else n - 1;
    }

    lemma LargestIsPrevious(n: nat, largest: Option<nat>)
      requires WellFormed() && n <= |merged| && AllBefore(n, None)
      requires IsLargest(children, largest)
      ensures largest.None? ==> n == 0
      ensures largest.Some? ==> n > 0 && children[largest.value].entries[children[largest.value].pos] == merged[n - 1]
      ensures largest.Some? ==> AllBefore(n - 1, largest)
    {
      if n > 0 {
        assert merged[n - 1] in merged;
        var h :| 0 <= h < |lists| && merged[n - 1] in lists[h];
        forall i | 0 <= i < |children|
          ensures i == h ==> children[i].Valid() && children[i].entries[children[i].pos] == merged[n - 1]
          ensures i != h ==> StandsBefore(lists[i], children[i].pos, merged, n - 1)
          ensures children[i].Valid() ==> children[i].Key().AtMost(merged[n - 1].key)
        {
          var p :| CutsAt(lists[i], p, merged, n) && children[i].pos == LastBefore(p, lists[i]);
          CutBefore(lists[i], p, merged, n);
          assert i != h ==> merged[n - 1] !in lists[i];
        }
        var s := largest.value;
        if s != h {
          assert children[s].entries[children[s].pos] in merged;
          SameKeySameEntry(merged, children[s].entries[children[s].pos], merged[n - 1]);
        }
      } else {
        forall i | 0 <= i < |children|
          ensures !children[i].Valid()
        {
          var p :| CutsAt(lists[i], p, merged, 0) && children[i].pos == LastBefore(p, lists[i]);
          CutAtStart(lists[i], p, merged);
        }
      }
    }

    lemma CutAtStart(list: seq<Entry>, p: nat, merged: seq<Entry>)
      requires Sorted(merged) && Within(list, merged) && CutsAt(list, p, merged, 0)
      ensures p == 0
    {
      if list != [] {
        assert list[0] in merged;
      }
    }

    // ---------- The iterator interface ----------

    method SeekToFirst()
      requires Valid()
      modifies this
      ensures Valid() && index == 0
    {
      children := AllToFirst(children);
      direction := Forward;
      FindSmallest(0);
    }

    method SeekToLast()
      requires Valid()
      modifies this
      ensures Valid() && index == if |merged| == 0 then 0 else |merged| - 1
    {
      children := AllToLast(children);
      direction := Reverse;
      forall i | 0 <= i < |children|
        ensures StandsBefore(lists[i], children[i].pos, merged, |merged|)
      {
        assert CutsAt(lists[i], |lists[i]|, merged, |merged|);
      }
      FindLargest(|merged|);
    }

    method Seek(target: InternalKey)
      requires Valid()
      modifies this
      ensures Valid() && index == LowerBound(merged, target)
    {
      children := AllTo(children, target);
      direction := Forward;
      forall i | 0 <= i < |children|
        ensures CutsAt(lists[i], children[i].pos, merged, LowerBound(merged, target))
      {
        SeekCuts(lists[i], merged, target);
      }
      FindSmallest(LowerBound(merged, target));
    }

    /** Puts all other children after the current key. */
    method TurnForward()
      requires Valid() && current.Some?
      modifies this`children, this`direction
      ensures Valid() && direction.Forward?
    {
      hide Sorted, LowerBound;
      if direction != Forward {
        var c := current.value;
        var moved := AllAfter(children, children[c].Key(), c);
        SwitchForward(lists, merged, children, moved, index, c);
        children, direction := moved, Forward;
      }
    }

    /** Puts all other children before the current key. */
    method TurnReverse()
      requires Valid() && current.Some?
      modifies this`children, this`direction
      ensures Valid() && direction.Reverse?
    {
      if direction != Reverse {
        var c := current.value;
        var moved := AllBackFrom(children, children[c].Key(), c);
        SwitchReverse(lists, merged, children, moved, index, c);
        children, direction := moved, Reverse;
      }
    }

    /** From a valid position, the next one; the last one leads out of the list. */
    method Next()
      requires Valid() && current.Some?
      modifies this
      ensures Valid() && index == old(index) + 1
    {
      hide CutAll, IsMerge, Within;
      TurnForward();
      var c := current.value;
      StepForward(lists, merged, children, index, c);
      children := children[c := children[c].Next()];
      FindSmallest(index + 1);
    }

    /** From a valid position, the previous one; the first one leads out of the list. */
    method Prev()
      requires Valid() && current.Some?
      modifies this
      ensures Valid() && index == if old(index) == 0 then |merged| else old(index) - 1
    {
      TurnReverse();
      var c := current.value;
      OwnCut(lists[c], children[c].pos, merged, index);
      children := children[c := children[c].Prev()];
      FindLargest(index);
    }
  }

  // ---------- Positioning all children ----------

  ghost predicate AllSorted(children: seq<Cursor>) {
    forall i :: 0 <= i < |children| ==> Sorted(children[i].entries)
  }

  ghost predicate SameLists(children: seq<Cursor>, r: seq<Cursor>) {
    |r| == |children| && forall i :: 0 <= i < |children| ==> r[i].entries == children[i].entries
  }

  method AllToFirst(children: seq<Cursor>) returns (r: seq<Cursor>)
    ensures SameLists(children, r) && forall i :: 0 <= i < |r| ==> r[i].pos == 0
  {
    r := children;
    for i := 0 to |children|
      invariant SameLists(children, r) && forall k :: 0 <= k < i ==> r[k].pos == 0
    {
      r := r[i := r[i].SeekToFirst()];
    }
  }

  method AllToLast(children: seq<Cursor>) returns (r: seq<Cursor>)
    ensures SameLists(children, r)
    ensures forall i :: 0 <= i < |r| ==> r[i].pos == LastBefore(|r[i].entries|, r[i].entries)
  {
    r := children;
    for i := 0 to |children|
      invariant SameLists(children, r)
      invariant forall k :: 0 <= k < i ==> r[k].pos == LastBefore(|r[k].entries|, r[k].entries)
    {
      r := r[i := r[i].SeekToLast()];
    }
  }

  method AllTo(children: seq<Cursor>, target: InternalKey) returns (r: seq<Cursor>)
    requires AllSorted(children)
    ensures SameLists(children, r) && forall i :: 0 <= i < |r| ==> r[i].pos == LowerBound(r[i].entries, target)
  {
    r := children;
    for i := 0 to |children|
      invariant SameLists(children, r)
      invariant forall k :: 0 <= k < i ==> r[k].pos == LowerBound(r[k].entries, target)
    {
      r := r[i := r[i].SeekTo(target)];
    }
  }

  /** The position of the first entry strictly after `key`. */
  function After(list: seq<Entry>, key: InternalKey): nat
    requires Sorted(list)
  {
    var p := LowerBound(list, key);
    if p < |list| && list[p].key == key then p + 1 else p
  }

  /** The switch to forward: every other child is put after `key`. */
  method AllAfter(children: seq<Cursor>, key: InternalKey, c: nat) returns (r: seq<Cursor>)
    requires AllSorted(children) && c < |children|
    ensures SameLists(children, r) && r[c] == children[c]
    ensures forall i :: 0 <= i < |r| && i != c ==> r[i].pos == After(r[i].entries, key)
  {
    r := children;
    for i := 0 to |children|
      invariant SameLists(children, r)
      invariant forall k :: i <= k < |r| ==> r[k] == children[k]
      invariant c < i ==> r[c] == children[c]
      invariant forall k :: 0 <= k < i && k != c ==> r[k].pos == After(r[k].entries, key)
    {
      if i != c {
        r := r[i := r[i].SeekTo(key)];
        if r[i].Valid() && Compare(key, r[i].Key()) == 0 {
          CompareIsTotalOrder(key, r[i].Key());
          r := r[i := r[i].Next()];
        } else if r[i].Valid() {
          CompareIsTotalOrder(key, r[i].Key());
        }
      }
    }
  }

  /** The switch to reverse: every other child is put before `key`. */
  method AllBackFrom(children: seq<Cursor>, key: InternalKey, c: nat) returns (r: seq<Cursor>)
    requires AllSorted(children) && c < |children|
    ensures SameLists(children, r) && r[c] == children[c]
    ensures forall i :: 0 <= i < |r| && i != c ==> r[i].pos == LastBefore(LowerBound(r[i].entries, key), r[i].entries)
  {
    r := children;
    for i := 0 to |children|
      invariant SameLists(children, r)
      invariant forall k :: i <= k < |r| ==> r[k] == children[k]
      invariant c < i ==> r[c] == children[c]
      invariant forall k :: 0 <= k < i && k != c ==> r[k].pos == LastBefore(LowerBound(r[k].entries, key), r[k].entries)
    {
      if i != c {
        r := r[i := r[i].SeekTo(key)];
        r := r[i := if r[i].Valid() then r[i].Prev() else r[i].SeekToLast()];
      }
    }
  }

  // ---------- Switching direction ----------

  /** The child `c` stands on the current entry, and is left alone when the others are moved. */
  ghost predicate Switched(lists: seq<seq<Entry>>, merged: seq<Entry>, children: seq<Cursor>, moved: seq<Cursor>, index: nat, c: nat) {
    && ListsFit(lists, merged) && Fit(lists, children) && SameLists(children, moved)
    && c < |children| && children[c].Valid() && index < |merged| && moved[c] == children[c]
    && children[c].entries[children[c].pos] == merged[index]
  }

  /** Past the current entry, all children are cut at the next one. */
  lemma StepForward(lists: seq<seq<Entry>>, merged: seq<Entry>, children: seq<Cursor>, index: nat, c: nat)
    requires ListsFit(lists, merged) && Fit(lists, children) && c < |children| && children[c].Valid()
    requires index < |merged| && children[c].entries[children[c].pos] == merged[index]
    requires CutAll(lists, children, merged, index + 1, Some(c))
    ensures Fit(lists, children[c := children[c].Next()])
    ensures CutAll(lists, children[c := children[c].Next()], merged, index + 1, None)
  {
    OwnCut(lists[c], children[c].pos, merged, index);
  }

  /** After the switch to forward, all other children stand after the current key. */
  lemma SwitchForward(lists: seq<seq<Entry>>, merged: seq<Entry>, children: seq<Cursor>, moved: seq<Cursor>, index: nat, c: nat)
    requires Switched(lists, merged, children, moved, index, c)
    requires forall i :: 0 <= i < |moved| && i != c ==> moved[i].pos == After(lists[i], merged[index].key)
    ensures Fit(lists, moved) && CutAll(lists, moved, merged, index + 1, Some(c))
  {
    OwnCut(lists[c], moved[c].pos, merged, index);
    forall i | 0 <= i < |moved| && i != c
      ensures CutsAt(lists[i], moved[i].pos, merged, index + 1)
    {
      SeekCuts(lists[i], merged, merged[index].key);
      CutAfter(lists[i], LowerBound(lists[i], merged[index].key), merged, index);
      NotShared(lists, merged, index, c, i);
    }
  }

  lemma NotShared(lists: seq<seq<Entry>>, merged: seq<Entry>, index: nat, c: nat, i: nat)
    requires ListsFit(lists, merged) && index < |merged|
    requires c < |lists| && merged[index] in lists[c] && i < |lists| && i != c
    ensures merged[index] !in lists[i]
    ensures After(lists[i], merged[index].key) == LowerBound(lists[i], merged[index].key)
  {
    var p := LowerBound(lists[i], merged[index].key);
    if p < |lists[i]| && lists[i][p].key == merged[index].key {
      assert lists[i][p] in merged && lists[i][p] in lists[i];
      SameKeySameEntry(merged, lists[i][p], merged[index]);
    }
  }

  lemma SameKeySameEntry(es: seq<Entry>, a: Entry, b: Entry)
    requires Sorted(es) && a in es && b in es && a.key.AtMost(b.key) && b.key.AtMost(a.key)
    ensures a == b
  {
  }

  /** After the switch to reverse, all other children stand before the current key. */
  lemma SwitchReverse(lists: seq<seq<Entry>>, merged: seq<Entry>, children: seq<Cursor>, moved: seq<Cursor>, index: nat, c: nat)
    requires Switched(lists, merged, children, moved, index, c)
    requires forall i :: 0 <= i < |moved| && i != c ==>
      moved[i].pos == LastBefore(LowerBound(lists[i], merged[index].key), lists[i])
    ensures Fit(lists, moved) && StandBefore(lists, moved, merged, index, Some(c))
  {
    OwnCut(lists[c], moved[c].pos, merged, index);
    forall i | 0 <= i < |moved| && i != c
      ensures StandsBefore(lists[i], moved[i].pos, merged, index)
    {
      SeekCuts(lists[i], merged, merged[index].key);
    }
  }
}
