/** The operations of the skip list, run by one thread at a time (db/skiplist.h). Every store that
    Insert makes is a step of the machine in module SkipListNodes. */
module SkipList {
  import opened Wrappers
  import opened SkipListNodes

  /** `x` is the last node of the list before the key, or the head. */
  ghost predicate IsLastBefore(s: Nodes, list: seq<nat>, key: Key, x: nat)
    requires forall k :: 0 <= k < |list| ==> 0 < list[k] < |s.keys|
  {
    && (x != 0 ==> x in list && s.keys[x] < key)
    && (forall y :: y in list && s.keys[y] < key ==> x != 0 && s.keys[y] <= s.keys[x])
  }

  /** A search stands on a node of its level, before the key, and what follows is not before it. */
  ghost predicate Stops(s: Nodes, order: seq<seq<nat>>, l: nat, x: nat, key: Key)
    requires s.Shaped() && |order| == MAX_HEIGHT && l < MAX_HEIGHT
  {
    && (x != 0 ==> x in order[l] && s.IsBefore(x, key))
    && s.Has(l, x) && !s.IsBefore(s.Next(l, x), key)
  }

  /** How far a search may still walk along its level. */
  ghost function Ahead(list: seq<nat>, x: nat): nat {
    if x == 0 then |list| + 1 else if exists k :: 0 <= k < |list| && list[k] == x then |list| - PlaceIn(list, x) else 0
  }

  ghost function PlaceIn(list: seq<nat>, x: nat): (k: nat)
    requires exists k :: 0 <= k < |list| && list[k] == x
    ensures k < |list| && list[k] == x
  {
    var k: nat :| k < |list| && list[k] == x;
    k
  }

  lemma NextIsAhead(s: Nodes, l: nat, list: seq<nat>, x: nat)
    requires s.Shaped() && l < MAX_HEIGHT && IsLevel(s, l, list) && (x == 0 || x in list) && s.Next(l, x) != 0
    ensures Ahead(list, s.Next(l, x)) < Ahead(list, x)
  {
    var k := PlaceOf(s, l, list, x);
    assert list[k + 1] == s.Next(l, x);
    PlaceIsUnique(s, list, k + 1, PlaceIn(list, list[k + 1]));
    if k >= 0 {
      PlaceIsUnique(s, list, k, PlaceIn(list, x));
    }
  }

  lemma PlaceIsUnique(s: Nodes, list: seq<nat>, i: nat, k: nat)
    requires forall m :: 0 <= m < |list| ==> 0 < list[m] < |s.keys|
    requires forall m, n :: 0 <= m < n < |list| ==> s.keys[list[m]] < s.keys[list[n]]
    requires i < |list| && k < |list| && list[i] == list[k]
    ensures i == k
  {
  }

  /** A node linked at a level is linked at all levels below. */
  lemma LinkedBelow(s: Nodes, order: seq<seq<nat>>, l: nat, x: nat)
    requires Inv(s, order) && 0 < l < MAX_HEIGHT && (x == 0 || x in order[l])
    ensures x == 0 || x in order[l - 1]
  {
    assert SubList(order[l], order[l - 1]);
  }

  lemma StopsIsLastBefore(s: Nodes, order: seq<seq<nat>>, l: nat, x: nat, key: Key)
    requires Inv(s, order) && l < MAX_HEIGHT && Stops(s, order, l, x, key)
    ensures IsLastBefore(s, order[l], key, x) && IsFirstFrom(s, order[l], key, s.Next(l, x))
  {
    assert IsLevel(s, l, order[l]);
    NextIsFirst(s, l, order[l], x, key);
    var k := PlaceOf(s, l, order[l], x);
    forall y | y in order[l] && s.keys[y] < key
      ensures x != 0 && s.keys[y] <= s.keys[x]
    {
      var i :| 0 <= i < |order[l]| && order[l][i] == y;
      assert i <= k;
    }
  }

  // ---------- What the list holds ----------

  ghost function KeysOf(s: Nodes, list: seq<nat>): (r: seq<Key>)
    requires forall k :: 0 <= k < |list| ==> list[k] < |s.keys|
    ensures |r| == |list|
  {
    seq(|list|, k requires 0 <= k < |list| => s.keys[list[k]])
  }

  ghost predicate Increasing(keys: seq<Key>) {
    forall i, j :: 0 <= i < j < |keys| ==> keys[i] < keys[j]
  }

  class List {
    var nodes: Nodes
    /** The lists of the levels. */
    ghost var order: seq<seq<nat>>

    ghost predicate Valid()
      reads this
    {
      Inv(nodes, order) && UnusedEmpty(nodes, order)
    }

    /** The keys, in order. */
    ghost function Keys(): (r: seq<Key>)
      requires Valid()
      reads this
      ensures Increasing(r)
    {
      assert IsLevel(nodes, 0, order[0]);
      KeysOf(nodes, order[0])
    }

    constructor (any: Key)
      ensures Valid() && Keys() == []
    {
      nodes, order := EmptyNodes(any), NoOrder();
      EmptyIsOk(any);
    }

    /** The earliest node at or after the key, and for every level in use the last node before it. */
    method FindGreaterOrEqual(key: Key) returns (n: nat, prev: seq<nat>)
      requires Valid()
      ensures |prev| == MAX_HEIGHT
      ensures forall l :: 0 <= l < nodes.maxHeight ==> Stops(nodes, order, l, prev[l], key)
      ensures nodes.Has(0, prev[0]) && n == nodes.Next(0, prev[0])
    {
      prev := seq(MAX_HEIGHT, l => 0);
      var x, level := 0, nodes.maxHeight - 1;
      while true
        invariant 0 <= level < nodes.maxHeight && |prev| == MAX_HEIGHT
        invariant SearchOk(nodes, order, Search(key, x, level))
        invariant forall l :: level < l < nodes.maxHeight ==> Stops(nodes, order, l, prev[l], key)
        decreases level, Ahead(order[level], x)
      {
        SearchHas(nodes, order, Search(key, x, level));
        var next := nodes.Next(level, x);
        NextIsLinked(nodes, level, order[level], x);
        if nodes.IsBefore(next, key) {
          NextIsAhead(nodes, level, order[level], x);
          x := next;
        } else {
          prev := prev[level := x];
          if level == 0 {
            return next, prev;
          }
          LinkedBelow(nodes, order, level, x);
          level := level - 1;
        }
      }
    }

    /** The latest node before the key, or the head. */
    method FindLessThan(key: Key) returns (x: nat)
      requires Valid()
      ensures Stops(nodes, order, 0, x, key)
    {
      x := 0;
      var level := nodes.maxHeight - 1;
      while true
        invariant 0 <= level < nodes.maxHeight
        invariant SearchOk(nodes, order, Search(key, x, level))
        decreases level, Ahead(order[level], x)
      {
        SearchHas(nodes, order, Search(key, x, level));
        var next := nodes.Next(level, x);
        NextIsLinked(nodes, level, order[level], x);
        if next == 0 || nodes.keys[next] >= key {
          if level == 0 {
            return x;
          }
          LinkedBelow(nodes, order, level, x);
          level := level - 1;
        } else {
          NextIsAhead(nodes, level, order[level], x);
          x := next;
        }
      }
    }

    /** The last node, or the head. */
    method FindLast() returns (x: nat)
      requires Valid()
      ensures x == Nth(order[0], |order[0]| - 1)
    {
      x := 0;
      var level := nodes.maxHeight - 1;
      while true
        invariant 0 <= level < nodes.maxHeight
        invariant x == 0 || x in order[level]
        decreases level, Ahead(order[level], x)
      {
        var k := PlaceOf(nodes, level, order[level], x);
        var next := nodes.Next(level, x);
        NextIsLinked(nodes, level, order[level], x);
        if next == 0 {
          if level == 0 {
            return x;
          }
          LinkedBelow(nodes, order, level, x);
          level := level - 1;
        } else {
          NextIsAhead(nodes, level, order[level], x);
          x := next;
        }
      }
    }

    /** The two stores that link the new node at its next level. */
    method LinkNode(x: nat, height: nat, prev: seq<nat>, i: nat)
      requires WorldInv(World(nodes, order, Inserting(x, height, prev, i, false), Resting)) && i < height
      modifies this
      ensures WorldInv(World(nodes, order, Inserting(x, height, prev, i + 1, false), Resting))
      ensures nodes.keys == old(nodes.keys)
      ensures i > 0 ==> order[0] == old(order[0])
      ensures i == 0 ==> forall y :: y in order[0] <==> y == x || y in old(order[0])
    {
      ghost var v := World(nodes, order, Inserting(x, height, prev, i, false), Resting);
      PrevIsNode(v);
      nodes := SetNext(nodes, i, x, nodes.Next(i, prev[i]));
      ghost var v1 := World(nodes, order, v.w.(own := true), Resting);
      assert NextStep(v, OwnLinkStep, v1);
      NextKeepsInv(v, OwnLinkStep, v1);
      PublishKeepsInv(nodes, order, v1.w);
      nodes := SetNext(nodes, i, prev[i], x);
      order := OrderWith(order, i, prev[i], x);
      ghost var v2 := World(nodes, order, v.w.(level := i + 1), Resting);
      assert NextStep(v1, PublishStep, v2);
      NextKeepsInv(v1, PublishStep, v2);
    }

    /** Links a new node with the key, at as many levels as were drawn for it. */
    method Insert(key: Key, height: nat)
      requires Valid() && key !in Keys() && 1 <= height <= MAX_HEIGHT
      modifies this
      ensures Valid() && forall k :: k in Keys() <==> k == key || k in old(Keys())
    {
      var n, prev := FindGreaterOrEqual(key);
      if height > nodes.maxHeight {
        for i := nodes.maxHeight to height
          invariant |prev| == MAX_HEIGHT
          invariant forall l :: 0 <= l < nodes.maxHeight ==> Stops(nodes, order, l, prev[l], key)
          invariant forall l :: nodes.maxHeight <= l < i ==> prev[l] == 0
        {
          prev := prev[i := 0];
        }
      }
      ghost var v := World(nodes, order, Idle, Resting);
      var x := |nodes.keys|;
      nodes := WithNode(nodes, key, height);
      KeyIsNew(v.s, v.order[0], key);
      BeginsInsert(v, key, height, prev);
      for i := 0 to height
        invariant WorldInv(World(nodes, order, Inserting(x, height, prev, i, false), Resting))
        invariant nodes.keys == v.s.keys + [key]
        invariant i == 0 ==> order[0] == v.order[0]
        invariant i > 0 ==> forall y :: y in order[0] <==> y == x || y in v.order[0]
      {
        LinkNode(x, height, prev, i);
      }
      KeysGrow(v.s, v.order[0], nodes, order[0], key);
    }

    method Contains(key: Key) returns (r: bool)
      requires Valid()
      ensures r <==> key in Keys()
    {
      var n, prev := FindGreaterOrEqual(key);
      StopsIsLastBefore(nodes, order, 0, prev[0], key);
      r := n != 0 && nodes.keys[n] == key;
      FirstFromFinds(nodes, order[0], key, n);
    }
  }

  lemma FirstFromFinds(s: Nodes, list: seq<nat>, key: Key, n: nat)
    requires forall k :: 0 <= k < |list| ==> 0 < list[k] < |s.keys|
    requires IsFirstFrom(s, list, key, n)
    ensures n != 0 && s.keys[n] == key <==> key in KeysOf(s, list)
  {
    if key in KeysOf(s, list) {
      var k :| 0 <= k < |list| && KeysOf(s, list)[k] == key;
      assert list[k] in list && s.keys[list[k]] == key;
    }
    if n != 0 {
      var k :| 0 <= k < |list| && list[k] == n;
      assert KeysOf(s, list)[k] == s.keys[n];
    }
  }

  lemma KeyIsNew(s: Nodes, list: seq<nat>, key: Key)
    requires forall k :: 0 <= k < |list| ==> list[k] < |s.keys|
    requires key !in KeysOf(s, list)
    ensures forall k :: 0 <= k < |list| ==> s.keys[list[k]] != key
  {
    assert forall k :: 0 <= k < |list| ==> KeysOf(s, list)[k] == s.keys[list[k]];
  }

  /** A node to link after is one of the nodes. */
  lemma PrevIsNode(v: World)
    requires WorldInv(v) && v.w.Inserting? && v.w.level < v.w.height
    ensures v.s.Has(v.w.level, v.w.prev[v.w.level]) && v.s.Has(v.w.level, v.w.x)
  {
    assert IsPrev(v.s, v.w.level, v.order[v.w.level], v.w.prev[v.w.level], v.w.x);
  }

  /** Where the search stopped is where the new node goes. */
  lemma BeginsInsert(v: World, key: Key, height: nat, prev: seq<nat>)
    requires WorldInv(v) && v.w.Idle? && v.reader.Resting? && 1 <= height <= MAX_HEIGHT == |prev|
    requires forall l :: 0 <= l < v.s.maxHeight ==> Stops(v.s, v.order, l, prev[l], key)
    requires forall l :: v.s.maxHeight <= l < height ==> prev[l] == 0
    requires forall k :: 0 <= k < |v.order[0]| ==> v.s.keys[v.order[0][k]] != key
    ensures WorldInv(World(WithNode(v.s, key, height), v.order, Inserting(|v.s.keys|, height, prev, 0, false), Resting))
  {
    var v' := World(WithNode(v.s, key, height), v.order, Inserting(|v.s.keys|, height, prev, 0, false), Resting);
    forall l | 0 <= l < height
      ensures IsPrev(v'.s, l, v.order[l], prev[l], |v.s.keys|)
    {
      GoesAfter(v.s, v.order, l, prev[l], key, height);
    }
    assert NextStep(v, BeginStep(key, height, prev), v');
    NextKeepsInv(v, BeginStep(key, height, prev), v');
  }

  lemma GoesAfter(s: Nodes, order: seq<seq<nat>>, l: nat, p: nat, key: Key, height: nat)
    requires Inv(s, order) && UnusedEmpty(s, order) && l < MAX_HEIGHT
    requires if l < s.maxHeight then Stops(s, order, l, p, key) else p == 0
    requires 1 <= height <= MAX_HEIGHT
    requires forall k :: 0 <= k < |order[0]| ==> s.keys[order[0][k]] != key
    ensures IsPrev(WithNode(s, key, height), l, order[l], p, |s.keys|)
  {
    assert IsLevel(s, l, order[l]);
    var k := PlaceOf(s, l, order[l], p);
    var n := s.Next(l, p);
    if n != 0 {
      assert n == order[l][k + 1];
      AllAtBottom(s, order, l, n);
      var i :| 0 <= i < |order[0]| && order[0][i] == n;
    }
  }

  lemma {:induction false} AllAtBottom(s: Nodes, order: seq<seq<nat>>, l: nat, x: nat)
    requires Inv(s, order) && l < MAX_HEIGHT && x in order[l]
    ensures x in order[0]
  {
    if l > 0 {
      assert SubList(order[l], order[l - 1]);
      AllAtBottom(s, order, l - 1, x);
    }
  }

  lemma KeysGrow(s: Nodes, list: seq<nat>, s': Nodes, list': seq<nat>, key: Key)
    requires forall k :: 0 <= k < |list| ==> list[k] < |s.keys|
    requires forall k :: 0 <= k < |list'| ==> list'[k] < |s'.keys|
    requires s'.keys == s.keys + [key] && forall y :: y in list' <==> y == |s.keys| || y in list
    ensures forall k :: k in KeysOf(s', list') <==> k == key || k in KeysOf(s, list)
  {
    forall k
      ensures k in KeysOf(s', list') <==> k == key || k in KeysOf(s, list)
    {
      if k in KeysOf(s', list') {
        var i :| 0 <= i < |list'| && KeysOf(s', list')[i] == k;
        assert list'[i] in list';
        if list'[i] != |s.keys| {
          var j :| 0 <= j < |list| && list[j] == list'[i];
          assert KeysOf(s, list)[j] == k;
        }
      }
      if k in KeysOf(s, list) {
        var j :| 0 <= j < |list| && KeysOf(s, list)[j] == k;
        assert list[j] in list';
        var i :| 0 <= i < |list'| && list'[i] == list[j];
        assert KeysOf(s', list')[i] == k;
      }
      if k == key {
        assert |s.keys| in list';
        var i :| 0 <= i < |list'| && list'[i] == |s.keys|;
        assert KeysOf(s', list')[i] == k;
      }
    }
  }

  // ---------- The iterator ----------

  /** The place of the first key at or after the target. */
  ghost function Rank(keys: seq<Key>, target: Key): (i: nat)
    requires Increasing(keys)
    ensures i <= |keys| && (forall j :: 0 <= j < i ==> keys[j] < target) && (forall j :: i <= j < |keys| ==> keys[j] >= target)
  {
    if keys == [] || keys[0] >= target then 0
    else
      var r := Rank(keys[1..], target);
      assert forall j :: 1 <= j < |keys| ==> keys[j] == keys[1..][j - 1];
      r + 1
  }

  class Iterator {
    const list: List
    var node: nat

    ghost predicate Ok()
      reads this, list
    {
      list.Valid() && (node == 0 || node in list.order[0])
    }

    /** The place among the keys; their number when the iterator is not valid. */
    ghost function Index(): (i: nat)
      requires Ok()
      reads this, list
      ensures i <= |list.Keys()| && (node == 0 <==> i == |list.Keys()|)
      ensures i < |list.Keys()| ==> list.order[0][i] == node && node < |list.nodes.keys| && list.nodes.keys[node] == list.Keys()[i]
    {
      assert IsLevel(list.nodes, 0, list.order[0]);
      if node == 0 then |list.order[0]| else PlaceIn(list.order[0], node)
    }

    /** Standing on the i-th node, or on none for an `i` outside. */
    lemma IndexIs(i: int)
      requires Ok() && -1 <= i <= |list.Keys()| && node == Nth(list.order[0], i)
      ensures Index() == if i == -1 then |list.Keys()| else i
    {
      assert IsLevel(list.nodes, 0, list.order[0]);
      if 0 <= i < |list.order[0]| {
        PlaceIsUnique(list.nodes, list.order[0], i, PlaceIn(list.order[0], node));
      }
    }

    constructor (l: List)
      requires l.Valid()
      ensures list == l && Ok() && Index() == |l.Keys()|
    {
      list, node := l, 0;
    }

    predicate Valid()
      reads this
    {
      node != 0
    }

    method Next()
      requires Ok() && Valid()
      modifies this
      ensures Ok() && Index() == old(Index()) + 1
    {
      ghost var k := PlaceOf(list.nodes, 0, list.order[0], node);
      IndexIs(k);
      NextIsLinked(list.nodes, 0, list.order[0], node);
      node := list.nodes.Next(0, node);
      IndexIs(k + 1);
    }

    method Prev()
      requires Ok() && Valid()
      modifies this
      ensures Ok() && Index() == if old(Index()) == 0 then |list.Keys()| else old(Index()) - 1
    {
      ghost var i: int := Index();
      var x := list.FindLessThan(list.nodes.keys[node]);
      StopsIsLastBefore(list.nodes, list.order, 0, x, list.nodes.keys[node]);
      LastBeforeIs(list.nodes, list.order[0], i, x);
      node := x;
      IndexIs(i - 1);
    }

    method Seek(target: Key)
      requires Ok()
      modifies this
      ensures Ok() && Index() == Rank(list.Keys(), target)
    {
      var n, prev := list.FindGreaterOrEqual(target);
      StopsIsLastBefore(list.nodes, list.order, 0, prev[0], target);
      FirstFromIs(list.nodes, list.order[0], list.Keys(), target, n);
      node := n;
      IndexIs(Rank(list.Keys(), target));
    }

    method SeekToFirst()
      requires Ok()
      modifies this
      ensures Ok() && Index() == 0
    {
      ghost var k := PlaceOf(list.nodes, 0, list.order[0], 0);
      node := list.nodes.Next(0, 0);
      IndexIs(0);
    }

    method SeekToLast()
      requires Ok()
      modifies this
      ensures Ok() && Index() == if |list.Keys()| == 0 then 0 else |list.Keys()| - 1
    {
      node := list.FindLast();
      IndexIs(|list.Keys()| - 1);
    }
  }

  lemma LastBeforeIs(s: Nodes, list: seq<nat>, i: nat, x: nat)
    requires forall k :: 0 <= k < |list| ==> 0 < list[k] < |s.keys|
    requires forall m, n :: 0 <= m < n < |list| ==> s.keys[list[m]] < s.keys[list[n]]
    requires i < |list| && IsLastBefore(s, list, s.keys[list[i]], x)
    ensures x == Nth(list, i - 1)
  {
    assert i > 0 ==> list[i - 1] in list && x != 0;
    if x != 0 {
      var j :| 0 <= j < |list| && list[j] == x;
      assert j < i;
      assert j == i - 1;
    }
  }

  lemma FirstFromIs(s: Nodes, list: seq<nat>, keys: seq<Key>, key: Key, n: nat)
    requires forall k :: 0 <= k < |list| ==> 0 < list[k] < |s.keys|
    requires Increasing(keys) && keys == KeysOf(s, list) && IsFirstFrom(s, list, key, n)
    ensures n == Nth(list, Rank(keys, key))
  {
    var r := Rank(keys, key);
    assert r < |list| ==> list[r] in list && keys[r] == s.keys[list[r]] >= key;
    if n != 0 {
      var j :| 0 <= j < |list| && list[j] == n;
      assert keys[j] == s.keys[n];
      assert r <= j;
    }
  }
}
