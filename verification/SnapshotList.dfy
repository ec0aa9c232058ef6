/** The list of live snapshots, oldest first (db/snapshot.h). The database's view of it is the
    sequence of its numbers (Database.State.snapshots). */
module SnapshotList {
  import opened Circular

  const HEAD: nat := 0

  /** The sequence numbers of the nodes of a list, in order. */
  ghost function NumbersOf(numbers: seq<nat>, list: seq<nat>): (r: seq<nat>)
    requires forall k :: 0 <= k < |list| ==> list[k] < |numbers|
    ensures |r| == |list| && forall k :: 0 <= k < |list| ==> r[k] == numbers[list[k]]
  {
    seq(|list|, k requires 0 <= k < |list| => numbers[list[k]])
  }

  ghost predicate Nondecreasing(s: seq<nat>) {
    forall i, j :: 0 <= i < j < |s| ==> s[i] <= s[j]
  }

  lemma AppendNondecreasing(s: seq<nat>, n: nat)
    requires Nondecreasing(s) && forall m :: m in s ==> m <= n
    ensures Nondecreasing(s + [n])
  {
    assert forall i :: 0 <= i < |s| ==> s[i] in s;
  }

  class SnapshotList {
    /** The node with index 0 is the dummy head. */
    var links: Links
    var sequenceNumbers: seq<nat>
    ghost var list: seq<nat>

    ghost predicate Valid()
      reads this
    {
      && IsCircle(links, HEAD, list) && |links.next| == |links.prev| == |sequenceNumbers|
      && (forall k :: 0 <= k < |list| ==> list[k] < |sequenceNumbers|)
      && Nondecreasing(Numbers())
    }

    /** What the database keeps of the snapshots. */
    ghost function Numbers(): (r: seq<nat>)
      requires forall k :: 0 <= k < |list| ==> list[k] < |sequenceNumbers|
      reads this
      ensures |r| == |list|
    {
      NumbersOf(sequenceNumbers, list)
    }

    constructor ()
      ensures Valid() && Numbers() == []
    {
      links, sequenceNumbers, list := Links([HEAD], [HEAD]), [0], [];
      new;
      assert Linked(links, HEAD, list, -1);
    }

    method IsEmpty() returns (empty: bool)
      requires Valid()
      ensures empty <==> Numbers() == []
    {
      EmptyCircle(links, HEAD, list);
      empty := links.next[HEAD] == HEAD;
    }

    /** The oldest snapshot has the smallest number of all. */
    method Oldest() returns (snapshot: nat)
      requires Valid() && Numbers() != []
      ensures snapshot in list && sequenceNumbers[snapshot] == Numbers()[0]
      ensures forall n :: n in Numbers() ==> sequenceNumbers[snapshot] <= n
    {
      EmptyCircle(links, HEAD, list);
      snapshot := links.next[HEAD];
    }

    method Newest() returns (snapshot: nat)
      requires Valid() && Numbers() != []
      ensures snapshot in list && sequenceNumbers[snapshot] == Numbers()[|Numbers()| - 1]
      ensures forall n :: n in Numbers() ==> n <= sequenceNumbers[snapshot]
    {
      EmptyCircle(links, HEAD, list);
      snapshot := links.prev[HEAD];
    }

    /** A new snapshot, no older than any other, goes to the end of the list. */
    method New(number: nat) returns (snapshot: nat)
      requires Valid() && forall n :: n in Numbers() ==> n <= number
      modifies this
      ensures Valid() && Numbers() == old(Numbers()) + [number]
      ensures list == old(list) + [snapshot] && snapshot !in old(list)
      ensures sequenceNumbers == old(sequenceNumbers) + [number]
    {
      snapshot := |sequenceNumbers|;
      CircleNodes(links, HEAD, list);
      AllocatedKeepsCircle(links, HEAD, list);
      LinkKeepsCircle(Allocated(links), HEAD, list, snapshot);
      links := LinkBefore(Allocated(links), HEAD, snapshot);
      sequenceNumbers := sequenceNumbers + [number];
      list := list + [snapshot];
      AppendNondecreasing(old(Numbers()), number);
      assert Numbers() == old(Numbers()) + [number];
    }

    /** The snapshot goes, wherever it is in the list; all others stay in order. */
    method Delete(snapshot: nat, ghost i: nat)
      requires Valid() && i < |list| && list[i] == snapshot
      modifies this`links, this`list
      ensures Valid() && list == Without(old(list), i) && Numbers() == Without(old(Numbers()), i)
    {
      UnlinkKeepsCircle(links, HEAD, list, i);
      links := Unlink(links, snapshot);
      WithoutNoRepeats(list, i);
      list := Without(list, i);
      assert Numbers() == Without(old(Numbers()), i);
    }
  }
}
