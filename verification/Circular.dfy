/** Circular doubly linked lists around a dummy head, as the cache and the list of snapshots keep
    them (util/cache.cc, db/snapshot.h). Nodes are numbered as they are allocated. */
module Circular {

  datatype Links = Links(next: seq<nat>, prev: seq<nat>) {
    predicate Has(e: nat) { e < |next| && e < |prev| }
  }

  /** The k-th node after the head; the head itself before the first and after the last. */
  function At(head: nat, list: seq<nat>, k: int): nat {
    if 0 <= k < |list| then list[k] else head
  }

  ghost predicate Linked(l: Links, head: nat, list: seq<nat>, k: int) {
    && l.Has(At(head, list, k)) && l.Has(At(head, list, k + 1))
    && l.next[At(head, list, k)] == At(head, list, k + 1)
    && l.prev[At(head, list, k + 1)] == At(head, list, k)
  }

  ghost predicate NoRepeats<T>(list: seq<T>) {
    forall i, j :: 0 <= i < j < |list| ==> list[i] != list[j]
  }

  /** Going round from the head visits exactly the nodes of the list, and back again in reverse. */
  ghost predicate IsCircle(l: Links, head: nat, list: seq<nat>) {
    && head !in list && NoRepeats(list)
    && forall k :: -1 <= k < |list| ==> Linked(l, head, list, k)
  }

  /** The two lists have no node in common. */
  ghost predicate Separate(head: nat, list: seq<nat>, head': nat, list': seq<nat>) {
    head != head' && head !in list' && head' !in list && forall x :: x in list ==> x !in list'
  }

  /** A node for each place, and places for nodes only. */
  lemma CircleNodes(l: Links, head: nat, list: seq<nat>)
    requires IsCircle(l, head, list)
    ensures l.Has(head) && forall x :: x in list ==> l.Has(x)
  {
    forall x | x in list
      ensures l.Has(x)
    {
      var k :| 0 <= k < |list| && list[k] == x;
      assert Linked(l, head, list, k);
    }
    assert Linked(l, head, list, -1);
  }

  lemma PlacesDiffer(head: nat, list: seq<nat>, i: int, k: int)
    requires head !in list && NoRepeats(list) && -1 <= i < |list| && -1 <= k < |list|
    ensures At(head, list, i) == At(head, list, k) <==> i == k
  {
  }

  // ---------- Unlinking ----------

  /** The node's neighbours are joined; its own links stay. */
  function Unlink(l: Links, e: nat): Links
    requires l.Has(e) && l.Has(l.next[e]) && l.Has(l.prev[e])
  {
    Links(l.next[l.prev[e] := l.next[e]], l.prev[l.next[e] := l.prev[e]])
  }

  function Without<T>(list: seq<T>, i: nat): seq<T>
    requires i < |list|
  {
    list[..i] + list[i + 1..]
  }

  lemma AtWithout(head: nat, list: seq<nat>, i: nat, k: int)
    requires i < |list| && -1 <= k < |list|
    ensures At(head, Without(list, i), k) == if k < i then At(head, list, k) else At(head, list, k + 1)
    ensures |Without(list, i)| == |list| - 1
  {
  }

  lemma WithoutNoRepeats<T>(list: seq<T>, i: nat)
    requires i < |list| && NoRepeats(list)
    ensures NoRepeats(Without(list, i))
    ensures forall x :: x in Without(list, i) <==> x in list && x != list[i]
  {
    var r := Without(list, i);
    assert forall k :: 0 <= k < |r| ==> r[k] == if k < i then list[k] else list[k + 1];
    forall x | x in list && x != list[i]
      ensures x in r
    {
      var k :| 0 <= k < |list| && list[k] == x;
      assert r[if k < i then k else k - 1] == x;
    }
  }

  lemma UnlinkKeepsCircle(l: Links, head: nat, list: seq<nat>, i: nat)
    requires IsCircle(l, head, list) && i < |list|
    ensures l.Has(list[i]) && l.Has(l.next[list[i]]) && l.Has(l.prev[list[i]])
    ensures IsCircle(Unlink(l, list[i]), head, Without(list, i))
  {
    assert Linked(l, head, list, i - 1) && Linked(l, head, list, i);
    var l', r := Unlink(l, list[i]), Without(list, i);
    WithoutNoRepeats(list, i);
    forall k | -1 <= k < |r|
      ensures Linked(l', head, r, k)
    {
      AtWithout(head, list, i, k);
      AtWithout(head, list, i, k + 1);
      var m := if k < i then k else k + 1;
      assert Linked(l, head, list, m);
      PlacesDiffer(head, list, m, i - 1);
      SuccessorsDiffer(head, list, m, i);
    }
  }

  /** Two places with the same successor are the same. */
  lemma SuccessorsDiffer(head: nat, list: seq<nat>, i: int, k: int)
    requires head !in list && NoRepeats(list) && -1 <= i < |list| && -1 <= k < |list|
    ensures At(head, list, i + 1) == At(head, list, k + 1) <==> i == k
  {
  }

  lemma UnlinkKeepsOther(l: Links, head: nat, list: seq<nat>, i: nat, head': nat, list': seq<nat>)
    requires IsCircle(l, head, list) && i < |list| && IsCircle(l, head', list') && Separate(head, list, head', list')
    ensures l.Has(list[i]) && l.Has(l.next[list[i]]) && l.Has(l.prev[list[i]])
    ensures IsCircle(Unlink(l, list[i]), head', list')
  {
    assert Linked(l, head, list, i - 1) && Linked(l, head, list, i);
    forall k | -1 <= k < |list'|
      ensures Linked(Unlink(l, list[i]), head', list', k)
    {
      assert Linked(l, head', list', k);
      NotInOther(head, list, i - 1, head', list', k);
      NotInOther(head, list, i + 1, head', list', k + 1);
    }
  }

  lemma NotInOther(head: nat, list: seq<nat>, i: int, head': nat, list': seq<nat>, k: int)
    requires Separate(head, list, head', list')
    ensures At(head, list, i) != At(head', list', k)
  {
    assert At(head, list, i) == head || At(head, list, i) in list;
    assert At(head', list', k) == head' || At(head', list', k) in list';
  }

  // ---------- Linking ----------

  /** The node is put in just before the head: it becomes the newest. */
  function LinkBefore(l: Links, head: nat, e: nat): Links
    requires l.Has(head) && l.Has(e) && l.Has(l.prev[head])
  {
    var last := l.prev[head];
    Links(l.next[e := head][last := e], l.prev[e := last][head := e])
  }

  lemma LinkKeepsCircle(l: Links, head: nat, list: seq<nat>, e: nat)
    requires IsCircle(l, head, list) && l.Has(e) && e != head && e !in list
    ensures l.Has(head) && l.Has(l.prev[head])
    ensures IsCircle(LinkBefore(l, head, e), head, list + [e])
  {
    var n := |list|;
    assert Linked(l, head, list, n - 1);
    var l', r := LinkBefore(l, head, e), list + [e];
    forall k | -1 <= k < |r|
      ensures Linked(l', head, r, k)
    {
      assert forall i :: -1 <= i < n ==> At(head, r, i) == At(head, list, i);
      if k < n {
        assert Linked(l, head, list, k);
        PlacesDiffer(head, list, k, n - 1);
        if k < n - 1 {
          assert At(head, list, k + 1) in list;
          assert k >= 0 ==> At(head, list, k) in list;
        }
      }
    }
  }

  lemma LinkKeepsOther(l: Links, head: nat, list: seq<nat>, e: nat, head': nat, list': seq<nat>)
    requires IsCircle(l, head, list) && l.Has(e) && e != head && e !in list
    requires IsCircle(l, head', list') && Separate(head, list, head', list') && e != head' && e !in list'
    ensures l.Has(head) && l.Has(l.prev[head])
    ensures IsCircle(LinkBefore(l, head, e), head', list')
  {
    var n := |list|;
    assert Linked(l, head, list, n - 1);
    forall k | -1 <= k < |list'|
      ensures Linked(LinkBefore(l, head, e), head', list', k)
    {
      assert Linked(l, head', list', k);
      NotInOther(head, list, n - 1, head', list', k);
      assert At(head', list', k) != e && At(head', list', k + 1) != e;
      assert At(head', list', k + 1) != head;
    }
  }

  // ---------- Allocating ----------

  /** A new node, its links not yet set. */
  function Allocated(l: Links): Links {
    Links(l.next + [0], l.prev + [0])
  }

  lemma AllocatedKeepsCircle(l: Links, head: nat, list: seq<nat>)
    requires IsCircle(l, head, list)
    ensures IsCircle(Allocated(l), head, list)
  {
    forall k | -1 <= k < |list|
      ensures Linked(Allocated(l), head, list, k)
    {
      assert Linked(l, head, list, k);
    }
  }

  /** A head that is its own neighbour is the head of the empty list, and of no other. */
  lemma EmptyCircle(l: Links, head: nat, list: seq<nat>)
    requires IsCircle(l, head, list)
    ensures l.Has(head) && (l.next[head] == head <==> list == [])
    ensures list != [] ==> l.next[head] == list[0] && l.prev[head] == list[|list| - 1]
  {
    assert Linked(l, head, list, -1) && Linked(l, head, list, |list| - 1);
  }
}
