/** The skip list of a memtable: one inserting thread, and readers that look on between any two of
    its stores (db/skiplist.h). Loads and stores are sequentially consistent; a key stands for its
    position in the comparator's order. */
module SkipListNodes {
  import opened Wrappers

  const MAX_HEIGHT: nat := 12

  type Key = real

  /** The nodes, numbered as they are allocated; node 0 is the head. `next[l][x]` is the node that
      node `x` links to at level `l`; 0 stands for the null pointer. */
  datatype Nodes = Nodes(keys: seq<Key>, next: seq<seq<nat>>, maxHeight: nat) {
    ghost predicate Shaped() {
      && |keys| > 0 && |next| == MAX_HEIGHT && 1 <= maxHeight <= MAX_HEIGHT
      && forall l :: 0 <= l < MAX_HEIGHT ==> |next[l]| == |keys|
    }

    predicate Has(l: nat, x: nat) { l < |next| && x < |next[l]| }

    function Next(l: nat, x: nat): nat
      requires Has(l, x)
    {
      next[l][x]
    }

    /** KeyIsAfterNode: a null node is after every key. */
    predicate IsBefore(x: nat, key: Key) { 0 < x < |keys| && keys[x] < key }
  }

  // ---------- What the links mean ----------

  /** The k-th node of a level's list, the head before the first and null after the last. */
  function Nth(list: seq<nat>, k: int): nat {
    if 0 <= k < |list| then list[k] else 0
  }

  /** The k-th node of the list, or the head for -1, links to the next one. */
  ghost predicate Linked(s: Nodes, l: nat, list: seq<nat>, k: int) {
    s.Has(l, Nth(list, k)) && s.Next(l, Nth(list, k)) == Nth(list, k + 1)
  }

  /** `list` is the list of a level: increasing keys, each node linked to the next. */
  ghost predicate IsLevel(s: Nodes, l: nat, list: seq<nat>)
    requires s.Shaped() && l < MAX_HEIGHT
  {
    && (forall k :: 0 <= k < |list| ==> 0 < list[k] < |s.keys|)
    && (forall i, j :: 0 <= i < j < |list| ==> s.keys[list[i]] < s.keys[list[j]])
    && (forall k :: -1 <= k < |list| ==> Linked(s, l, list, k))
  }

  ghost predicate SubList(upper: seq<nat>, lower: seq<nat>) {
    forall x :: x in upper ==> x in lower
  }

  /** Every level is sorted, and each is a sublist of the one below. */
  ghost predicate Inv(s: Nodes, order: seq<seq<nat>>) {
    && s.Shaped() && |order| == MAX_HEIGHT
    && (forall l :: 0 <= l < MAX_HEIGHT ==> IsLevel(s, l, order[l]))
    && (forall l :: 0 < l < MAX_HEIGHT ==> SubList(order[l], order[l - 1]))
  }

  /** Levels not in use yet are empty. */
  ghost predicate UnusedEmpty(s: Nodes, order: seq<seq<nat>>)
    requires |order| == MAX_HEIGHT
  {
    forall l :: s.maxHeight <= l < MAX_HEIGHT ==> order[l] == []
  }

  /** Nodes stay, keep their keys, and stay linked at their levels. */
  ghost predicate Extends(s: Nodes, order: seq<seq<nat>>, s': Nodes, order': seq<seq<nat>>) {
    && s.keys <= s'.keys && |order| == |order'| == MAX_HEIGHT
    && forall l, x :: 0 <= l < MAX_HEIGHT && x in order[l] ==> x in order'[l]
  }

  // ---------- Searching ----------

  /** A search that has got to node `x` at `level`. */
  datatype Search = Search(target: Key, x: nat, level: nat)

  /** The node reached is linked at its level and before the target. */
  ghost predicate SearchOk(s: Nodes, order: seq<seq<nat>>, r: Search)
    requires |order| == MAX_HEIGHT
  {
    r.level < MAX_HEIGHT && (r.x != 0 ==> r.x in order[r.level] && s.IsBefore(r.x, r.target))
  }

  /** `n` is the first node of the list at or after the key, or null. */
  ghost predicate IsFirstFrom(s: Nodes, list: seq<nat>, key: Key, n: nat)
    requires forall k :: 0 <= k < |list| ==> 0 < list[k] < |s.keys|
  {
    && (n != 0 ==> n in list && s.keys[n] >= key)
    && (forall x :: x in list && s.keys[x] >= key ==> n != 0 && s.keys[n] <= s.keys[x])
  }

  /** The place of a linked node, or of the head, in its level. */
  lemma PlaceOf(s: Nodes, l: nat, list: seq<nat>, x: nat) returns (k: int)
    requires s.Shaped() && l < MAX_HEIGHT && IsLevel(s, l, list)
    requires x == 0 || x in list
    ensures -1 <= k < |list| && (x == 0 <==> k == -1) && (k >= 0 ==> list[k] == x)
    ensures s.Next(l, x) == Nth(list, k + 1)
  {
    if x == 0 {
      k := -1;
    } else {
      k :| 0 <= k < |list| && list[k] == x;
    }
    assert Linked(s, l, list, k);
  }

  /** The node after one before the key, if itself not before it, is the first at or after the key. */
  lemma NextIsFirst(s: Nodes, l: nat, list: seq<nat>, x: nat, key: Key)
    requires s.Shaped() && l < MAX_HEIGHT && IsLevel(s, l, list)
    requires x == 0 || (x in list && s.IsBefore(x, key))
    requires !s.IsBefore(s.Next(l, x), key)
    ensures IsFirstFrom(s, list, key, s.Next(l, x))
  {
    var k := PlaceOf(s, l, list, x);
    var n := s.Next(l, x);
    assert forall i :: 0 <= i <= k ==> s.keys[list[i]] < key;
    forall y | y in list && s.keys[y] >= key
      ensures n != 0 && s.keys[n] <= s.keys[y]
    {
      var j :| 0 <= j < |list| && list[j] == y;
      assert j > k;
    }
  }

  /** A loaded link leads to a node of the level. */
  lemma NextIsLinked(s: Nodes, l: nat, list: seq<nat>, x: nat)
    requires s.Shaped() && l < MAX_HEIGHT && IsLevel(s, l, list) && (x == 0 || x in list)
    ensures s.Next(l, x) != 0 ==> s.Next(l, x) in list
  {
    var k := PlaceOf(s, l, list, x);
  }

  /** One load of a search: on along the level, down to the next one, or the end. */
  function SearchStep(s: Nodes, r: Search): Search
    requires s.Has(r.level, r.x)
  {
    var n := s.Next(r.level, r.x);
    if s.IsBefore(n, r.target) then r.(x := n) else if r.level > 0 then r.(level := r.level - 1) else r
  }

  predicate SearchEnds(s: Nodes, r: Search)
    requires s.Has(r.level, r.x)
  {
    r.level == 0 && !s.IsBefore(s.Next(0, r.x), r.target)
  }

  lemma SearchHas(s: Nodes, order: seq<seq<nat>>, r: Search)
    requires Inv(s, order) && SearchOk(s, order, r)
    ensures s.Has(r.level, r.x)
  {
    if r.x != 0 {
      var k := PlaceOf(s, r.level, order[r.level], r.x);
    }
  }

  lemma SearchStepOk(s: Nodes, order: seq<seq<nat>>, r: Search)
    requires Inv(s, order) && SearchOk(s, order, r)
    ensures s.Has(r.level, r.x) && SearchOk(s, order, SearchStep(s, r))
    ensures SearchEnds(s, r) ==> IsFirstFrom(s, order[0], r.target, s.Next(0, r.x))
  {
    SearchHas(s, order, r);
    NextIsLinked(s, r.level, order[r.level], r.x);
    if r.level > 0 {
      assert SubList(order[r.level], order[r.level - 1]);
    } else if SearchEnds(s, r) {
      NextIsFirst(s, 0, order[0], r.x, r.target);
    }
  }

  /** Whatever the inserting thread does in between, a search stays where it was. */
  lemma SearchSurvives(s: Nodes, order: seq<seq<nat>>, s': Nodes, order': seq<seq<nat>>, r: Search)
    requires Extends(s, order, s', order') && SearchOk(s, order, r)
    ensures SearchOk(s', order', r)
  {
  }

  // ---------- Inserting ----------

  /** The inserting thread, between two stores: node `x` is linked at the levels below `level`, and
      `own` says whether it has its own link at `level`. */
  datatype Writer = Idle | Inserting(x: nat, height: nat, prev: seq<nat>, level: nat, own: bool)

  /** `p` is the last node of the level before the key of `x`. */
  ghost predicate IsPrev(s: Nodes, l: nat, list: seq<nat>, p: nat, x: nat)
    requires s.Shaped() && l < MAX_HEIGHT && 0 < x < |s.keys|
  {
    && (p != 0 ==> p in list && p < |s.keys| && s.keys[p] < s.keys[x])
    && (p < |s.keys| && 0 < s.Next(l, p) < |s.keys| ==> s.keys[x] < s.keys[s.Next(l, p)])
  }

  ghost predicate WriterOk(s: Nodes, order: seq<seq<nat>>, w: Writer)
    requires s.Shaped() && |order| == MAX_HEIGHT
  {
    w.Inserting? ==>
      && 0 < w.x < |s.keys| && 1 <= w.height <= s.maxHeight && w.level <= w.height <= |w.prev|
      && (forall l :: 0 <= l < w.level ==> w.x in order[l])
      && (forall l :: w.level <= l < MAX_HEIGHT ==> w.x !in order[l])
      && (forall l :: w.level <= l < w.height ==> IsPrev(s, l, order[l], w.prev[l], w.x))
      && (w.own ==> w.level < w.height && w.prev[w.level] < |s.keys|
                    && s.Next(w.level, w.x) == s.Next(w.level, w.prev[w.level]))
  }

  function WithNode(s: Nodes, key: Key, height: nat): Nodes
    requires |s.next| == MAX_HEIGHT
  {
    Nodes(s.keys + [key], seq(MAX_HEIGHT, l requires 0 <= l < MAX_HEIGHT => s.next[l] + [0]),
          if height > s.maxHeight then height else s.maxHeight)
  }

  function SetNext(s: Nodes, l: nat, x: nat, y: nat): Nodes
    requires s.Has(l, x)
  {
    var row: seq<nat> := s.next[l][x := y];
    s.(next := s.next[l := row])
  }

  /** A new node, and a greater height if need be: no list changes. */
  lemma WithNodeKeepsInv(s: Nodes, order: seq<seq<nat>>, key: Key, height: nat)
    requires Inv(s, order) && 1 <= height <= MAX_HEIGHT
    ensures Inv(WithNode(s, key, height), order)
    ensures forall l :: 0 <= l < MAX_HEIGHT ==> |s.keys| !in order[l]
  {
    forall l | 0 <= l < MAX_HEIGHT
      ensures IsLevel(WithNode(s, key, height), l, order[l]) && |s.keys| !in order[l]
    {
      assert IsLevel(s, l, order[l]);
      forall k | -1 <= k < |order[l]|
        ensures Linked(WithNode(s, key, height), l, order[l], k)
      {
        assert Linked(s, l, order[l], k);
      }
    }
  }

  /** The new node's own link is not part of any list yet. */
  lemma OwnLinkKeepsInv(s: Nodes, order: seq<seq<nat>>, l: nat, x: nat, y: nat)
    requires Inv(s, order) && l < MAX_HEIGHT && 0 < x < |s.keys| && x !in order[l]
    ensures Inv(SetNext(s, l, x, y), order)
  {
    forall m | 0 <= m < MAX_HEIGHT
      ensures IsLevel(SetNext(s, l, x, y), m, order[m])
    {
      assert IsLevel(s, m, order[m]);
      forall k | -1 <= k < |order[m]|
        ensures Linked(SetNext(s, l, x, y), m, order[m], k)
      {
        assert Linked(s, m, order[m], k);
      }
    }
  }

  function InsertAfter(list: seq<nat>, k: int, x: nat): seq<nat>
    requires -1 <= k < |list|
  {
    list[..k + 1] + [x] + list[k + 1..]
  }

  lemma NthInserted(list: seq<nat>, k: int, x: nat, i: int)
    requires -1 <= k < |list|
    ensures Nth(InsertAfter(list, k, x), i) == if i <= k then Nth(list, i) else if i == k + 1 then x else Nth(list, i - 1)
    ensures |InsertAfter(list, k, x)| == |list| + 1
  {
  }

  lemma InsertedSorted(s: Nodes, list: seq<nat>, k: int, x: nat)
    requires -1 <= k < |list| && 0 < x < |s.keys|
    requires forall i :: 0 <= i < |list| ==> 0 < list[i] < |s.keys|
    requires forall i, j :: 0 <= i < j < |list| ==> s.keys[list[i]] < s.keys[list[j]]
    requires k >= 0 ==> s.keys[list[k]] < s.keys[x]
    requires k + 1 < |list| ==> s.keys[x] < s.keys[list[k + 1]]
    ensures
      var longer := InsertAfter(list, k, x);
      && (forall i :: 0 <= i < |longer| ==> 0 < longer[i] < |s.keys|)
      && (forall i, j :: 0 <= i < j < |longer| ==> s.keys[longer[i]] < s.keys[longer[j]])
  {
    assert forall i :: 0 <= i <= k ==> s.keys[list[i]] < s.keys[x];
    assert forall i :: k < i < |list| ==> s.keys[x] < s.keys[list[i]];
  }

  lemma InsertedLinked(s: Nodes, l: nat, list: seq<nat>, k: int, x: nat)
    requires s.Shaped() && l < MAX_HEIGHT && IsLevel(s, l, list) && 0 < x < |s.keys| && x !in list && -1 <= k < |list|
    requires s.Next(l, x) == Nth(list, k + 1) && Nth(list, k) < |s.keys|
    ensures forall i :: -1 <= i < |list| + 1 ==> Linked(SetNext(s, l, Nth(list, k), x), l, InsertAfter(list, k, x), i)
  {
    forall i | -1 <= i < |list| + 1
      ensures Linked(SetNext(s, l, Nth(list, k), x), l, InsertAfter(list, k, x), i)
    {
      NthInserted(list, k, x, i);
      NthInserted(list, k, x, i + 1);
      if i < k {
        assert Linked(s, l, list, i);
        DifferentNodes(s, list, i, k);
        assert i >= 0 ==> Nth(list, i) in list;
      } else if i == k {
        assert Linked(s, l, list, i);
      } else if i > k + 1 {
        assert Linked(s, l, list, i - 1);
        DifferentNodes(s, list, i - 1, k);
        assert Nth(list, i - 1) in list;
      }
    }
  }

  lemma DifferentNodes(s: Nodes, list: seq<nat>, i: int, k: int)
    requires forall m :: 0 <= m < |list| ==> 0 < list[m] < |s.keys|
    requires forall m, n :: 0 <= m < n < |list| ==> s.keys[list[m]] < s.keys[list[n]]
    requires -1 <= i < |list| && -1 <= k < |list| && i != k
    ensures Nth(list, i) != Nth(list, k)
  {
  }

  /** The place of a node in a level's list, or that of the head, -1. */
  function Place(list: seq<nat>, x: nat): (k: int)
    ensures -1 <= k < |list| && (k >= 0 ==> list[k] == x) && (x in list ==> k >= 0)
  {
    if list == [] then -1
    else if list[|list| - 1] == x then |list| - 1
    else Place(list[..|list| - 1], x)
  }

  /** The store that links the new node at a level puts it in its place in that level's list. */
  lemma PublishLevel(s: Nodes, l: nat, list: seq<nat>, p: nat, x: nat)
    requires s.Shaped() && l < MAX_HEIGHT && IsLevel(s, l, list) && 0 < x < |s.keys| && x !in list
    requires IsPrev(s, l, list, p, x) && p < |s.keys| && s.Next(l, x) == s.Next(l, p)
    ensures IsLevel(SetNext(s, l, p, x), l, InsertAfter(list, Place(list, p), x))
    ensures forall y :: y in InsertAfter(list, Place(list, p), x) <==> y == x || y in list
  {
    var k := PlaceOf(s, l, list, p);
    assert k == Place(list, p);
    InsertedSorted(s, list, k, x);
    InsertedLinked(s, l, list, k, x);
    InsertedMembers(list, k, x);
  }

  lemma InsertedMembers(list: seq<nat>, k: int, x: nat)
    requires -1 <= k < |list|
    ensures forall y :: y in InsertAfter(list, k, x) <==> y == x || y in list
    ensures |InsertAfter(list, k, x)| == |list| + 1
  {
    assert list == list[..k + 1] + list[k + 1..];
  }

  /** The lists after the store that links the writer's node at its level, behind the node before it. */
  function OrderWith(order: seq<seq<nat>>, l: nat, p: nat, x: nat): seq<seq<nat>>
    requires l < |order|
  {
    order[l := InsertAfter(order[l], Place(order[l], p), x)]
  }

  lemma PublishKeepsInv(s: Nodes, order: seq<seq<nat>>, w: Writer)
    requires Inv(s, order) && WriterOk(s, order, w) && w.Inserting? && w.own
    ensures
      var order' := OrderWith(order, w.level, w.prev[w.level], w.x);
      && Inv(SetNext(s, w.level, w.prev[w.level], w.x), order')
      && forall y :: y in order'[w.level] <==> y == w.x || y in order[w.level]
  {
    var l, p := w.level, w.prev[w.level];
    var s' := SetNext(s, l, p, w.x);
    var order' := OrderWith(order, l, p, w.x);
    PublishLevel(s, l, order[l], p, w.x);
    forall m | 0 <= m < MAX_HEIGHT
      ensures IsLevel(s', m, order'[m])
      ensures m > 0 ==> SubList(order'[m], order'[m - 1])
    {
      assert IsLevel(s, m, order[m]);
      assert m > 0 ==> SubList(order[m], order[m - 1]);
      if m != l { OtherLevelStays(s, l, p, w.x, m, order[m]); }
    }
  }

  lemma OtherLevelStays(s: Nodes, l: nat, x: nat, y: nat, m: nat, list: seq<nat>)
    requires s.Shaped() && l < MAX_HEIGHT && m < MAX_HEIGHT && m != l && x < |s.keys| && IsLevel(s, m, list)
    ensures IsLevel(SetNext(s, l, x, y), m, list)
  {
    forall k | -1 <= k < |list|
      ensures Linked(SetNext(s, l, x, y), m, list, k)
    {
      assert Linked(s, m, list, k);
    }
  }

  // ---------- One inserting thread and one reader ----------

  /** `seen` are the nodes that were linked at level 0 when the search began. */
  datatype Reader = Resting | Searching(search: Search, seen: set<nat>) | Done(target: Key, n: nat, seen: set<nat>)

  datatype World = World(s: Nodes, order: seq<seq<nat>>, w: Writer, reader: Reader)

  ghost predicate ReaderOk(s: Nodes, order: seq<seq<nat>>, reader: Reader)
    requires Inv(s, order)
  {
    match reader
    case Resting => true
    case Searching(r, seen) => SearchOk(s, order, r) && forall x :: x in seen ==> x in order[0]
    case Done(target, n, seen) =>
      && (n != 0 ==> n in order[0] && s.keys[n] >= target)
      && forall x :: x in seen ==> x in order[0] && (s.keys[x] >= target ==> n != 0 && s.keys[n] <= s.keys[x])
  }

  ghost predicate WorldInv(v: World) {
    && Inv(v.s, v.order) && UnusedEmpty(v.s, v.order)
    && WriterOk(v.s, v.order, v.w) && ReaderOk(v.s, v.order, v.reader)
  }

  /** The constructor: a head whose links are all null, and height one. */
  function EmptyNodes(any: Key): Nodes {
    Nodes([any], [[0], [0], [0], [0], [0], [0], [0], [0], [0], [0], [0], [0]], 1)
  }

  function NoOrder(): seq<seq<nat>> {
    [[], [], [], [], [], [], [], [], [], [], [], []]
  }

  ghost predicate Init(v: World) {
    exists any: Key :: v == World(EmptyNodes(any), NoOrder(), Idle, Resting)
  }

  lemma EmptyIsOk(any: Key)
    ensures Inv(EmptyNodes(any), NoOrder()) && UnusedEmpty(EmptyNodes(any), NoOrder())
  {
    forall l | 0 <= l < MAX_HEIGHT
      ensures IsLevel(EmptyNodes(any), l, NoOrder()[l])
    {
      assert Linked(EmptyNodes(any), l, [], -1);
    }
  }

  /** Insert begins: the places for the new node are known, the node is made, the height raised. */
  ghost predicate Begin(v: World, key: Key, height: nat, prev: seq<nat>, v': World) {
    && v.s.Shaped() && |v.order| == MAX_HEIGHT
    && v.w.Idle? && 1 <= height <= MAX_HEIGHT && height <= |prev|
    && v' == v.(s := WithNode(v.s, key, height), w := Inserting(|v.s.keys|, height, prev, 0, false))
    && forall l :: 0 <= l < height ==> IsPrev(v'.s, l, v.order[l], prev[l], |v.s.keys|)
  }

  /** The node's own link at a level. */
  ghost predicate OwnLink(v: World, v': World) {
    && v.w.Inserting? && v.w.level < v.w.height <= |v.w.prev| && !v.w.own
    && v.s.Has(v.w.level, v.w.prev[v.w.level]) && v.s.Has(v.w.level, v.w.x)
    && v' == v.(s := SetNext(v.s, v.w.level, v.w.x, v.s.Next(v.w.level, v.w.prev[v.w.level])), w := v.w.(own := true))
  }

  /** The store that makes the node visible at a level. */
  ghost predicate Publish(v: World, v': World) {
    && v.w.Inserting? && v.w.own && v.w.level < v.w.height <= |v.w.prev| && v.w.level < |v.order|
    && v.s.Has(v.w.level, v.w.prev[v.w.level])
    && v' == v.(s := SetNext(v.s, v.w.level, v.w.prev[v.w.level], v.w.x),
                order := OrderWith(v.order, v.w.level, v.w.prev[v.w.level], v.w.x),
                w := v.w.(level := v.w.level + 1, own := false))
  }

  ghost predicate EndInsert(v: World, v': World) {
    v.w.Inserting? && v.w.level == v.w.height && v' == v.(w := Idle)
  }

  /** A search starts from the head, at the level of a maximum height it read, perhaps long ago. */
  ghost predicate StartSearch(v: World, target: Key, level: nat, v': World) {
    && level < v.s.maxHeight <= MAX_HEIGHT == |v.order|
    && v' == v.(reader := Searching(Search(target, 0, level), set x | x in v.order[0]))
  }

  /** One load by the reader. */
  ghost predicate Load(v: World, v': World) {
    && v.reader.Searching? && v.s.Has(v.reader.search.level, v.reader.search.x)
    && (v.reader.search.level == 0 ==> v.s.Has(0, v.reader.search.x))
    && var r := v.reader.search;
       v' == v.(reader :=
         if SearchEnds(v.s, r) then Done(r.target, v.s.Next(r.level, r.x), v.reader.seen)
         else Searching(SearchStep(v.s, r), v.reader.seen))
  }

  datatype Step = BeginStep(key: Key, height: nat, prev: seq<nat>) | OwnLinkStep | PublishStep | EndStep
    | StartSearchStep(target: Key, level: nat) | LoadStep

  ghost predicate NextStep(v: World, step: Step, v': World) {
    match step
    case BeginStep(key, height, prev) => Begin(v, key, height, prev, v')
    case OwnLinkStep => OwnLink(v, v')
    case PublishStep => Publish(v, v')
    case EndStep => EndInsert(v, v')
    case StartSearchStep(target, level) => StartSearch(v, target, level, v')
    case LoadStep => Load(v, v')
  }

  lemma ReaderSurvives(s: Nodes, order: seq<seq<nat>>, s': Nodes, order': seq<seq<nat>>, reader: Reader)
    requires Inv(s, order) && Inv(s', order') && Extends(s, order, s', order') && ReaderOk(s, order, reader)
    ensures ReaderOk(s', order', reader)
  {
    if reader.Searching? {
      SearchSurvives(s, order, s', order', reader.search);
    } else if reader.Done? {
      assert IsLevel(s, 0, order[0]);
    }
  }

  lemma BeginKeepsInv(v: World, key: Key, height: nat, prev: seq<nat>, v': World)
    requires WorldInv(v) && Begin(v, key, height, prev, v')
    ensures WorldInv(v')
  {
    WithNodeKeepsInv(v.s, v.order, key, height);
    ReaderSurvives(v.s, v.order, v'.s, v'.order, v.reader);
  }

  lemma OwnLinkKeepsWorld(v: World, v': World)
    requires WorldInv(v) && OwnLink(v, v')
    ensures WorldInv(v')
  {
    var l, p := v.w.level, v.w.prev[v.w.level];
    OwnLinkKeepsInv(v.s, v.order, l, v.w.x, v.s.Next(l, p));
    ReaderSurvives(v.s, v.order, v'.s, v'.order, v.reader);
    assert p != v.w.x;
  }

  /** With its node linked at one level more, the writer is ready for the next. */
  lemma WriterMovesOn(s: Nodes, order: seq<seq<nat>>, w: Writer, order': seq<seq<nat>>)
    requires Inv(s, order) && WriterOk(s, order, w) && w.Inserting? && w.own && |order'| == MAX_HEIGHT
    requires forall l :: 0 <= l < MAX_HEIGHT && l != w.level ==> order'[l] == order[l]
    requires w.x in order'[w.level]
    ensures
      var s' := SetNext(s, w.level, w.prev[w.level], w.x);
      s'.Shaped() && WriterOk(s', order', w.(level := w.level + 1, own := false))
  {
    var s' := SetNext(s, w.level, w.prev[w.level], w.x);
    forall l | w.level < l < w.height
      ensures IsPrev(s', l, order'[l], w.prev[l], w.x)
    {
      assert IsPrev(s, l, order[l], w.prev[l], w.x);
      assert s'.next[l] == s.next[l];
    }
  }

  /** One list longer: everything linked stays so, and levels not in use stay empty. */
  lemma OrderGrows(s: Nodes, order: seq<seq<nat>>, w: Writer, s': Nodes, order': seq<seq<nat>>)
    requires s.Shaped() && |order| == MAX_HEIGHT && WriterOk(s, order, w) && w.Inserting? && w.own && s'.keys == s.keys && s'.maxHeight == s.maxHeight && |order'| == MAX_HEIGHT
    requires forall l :: 0 <= l < MAX_HEIGHT && l != w.level ==> order'[l] == order[l]
    requires forall y :: y in order'[w.level] <==> y == w.x || y in order[w.level]
    ensures Extends(s, order, s', order') && (UnusedEmpty(s, order) ==> UnusedEmpty(s', order'))
  {
  }

  /** What the reader and the writer need carries over to the next state. */
  lemma WorldOf(s: Nodes, order: seq<seq<nat>>, s': Nodes, order': seq<seq<nat>>, w: Writer, reader: Reader)
    requires Inv(s, order) && ReaderOk(s, order, reader) && Inv(s', order') && Extends(s, order, s', order')
    requires UnusedEmpty(s', order') && WriterOk(s', order', w)
    ensures WorldInv(World(s', order', w, reader))
  {
    ReaderSurvives(s, order, s', order', reader);
  }

  lemma PublishKeepsWorld(v: World, v': World)
    requires WorldInv(v) && Publish(v, v')
    ensures WorldInv(v')
  {
    var s', order' := v'.s, v'.order;
    PublishKeepsInv(v.s, v.order, v.w);
    WriterMovesOn(v.s, v.order, v.w, order');
    OrderGrows(v.s, v.order, v.w, s', order');
    WorldOf(v.s, v.order, s', order', v'.w, v.reader);
    assert v' == World(s', order', v'.w, v.reader);
  }

  lemma LoadKeepsWorld(v: World, v': World)
    requires WorldInv(v) && Load(v, v')
    ensures WorldInv(v')
  {
    SearchStepOk(v.s, v.order, v.reader.search);
    NextIsLinked(v.s, v.reader.search.level, v.order[v.reader.search.level], v.reader.search.x);
  }

  /** Between any two stores and loads every level is sorted and a sublist of the one below, and the
      reader is where a search may be. */
  lemma NextKeepsInv(v: World, step: Step, v': World)
    requires WorldInv(v) && NextStep(v, step, v')
    ensures WorldInv(v')
  {
    match step
    case BeginStep(key, height, prev) => BeginKeepsInv(v, key, height, prev, v');
    case OwnLinkStep => OwnLinkKeepsWorld(v, v');
    case PublishStep => PublishKeepsWorld(v, v');
    case EndStep =>
    case StartSearchStep(target, level) =>
    case LoadStep => LoadKeepsWorld(v, v');
  }

  /** At the load that ends a search, its answer is the first node at or after the target in the
      list as it is at that moment. */
  lemma SearchIsAtomic(v: World, v': World)
    requires WorldInv(v) && Load(v, v') && v'.reader.Done?
    ensures IsFirstFrom(v.s, v.order[0], v.reader.search.target, v'.reader.n)
  {
    SearchStepOk(v.s, v.order, v.reader.search);
  }

  ghost predicate IsRun(run: seq<World>, steps: seq<Step>) {
    && |run| == |steps| + 1 && Init(run[0])
    && forall i {:trigger steps[i]} :: 0 <= i < |steps| ==> NextStep(run[i], steps[i], run[i + 1])
  }

  lemma {:induction false} RunKeepsInv(run: seq<World>, steps: seq<Step>, n: nat)
    requires IsRun(run, steps) && n <= |steps|
    ensures WorldInv(run[n])
  {
    if n == 0 {
      var any :| run[0] == World(EmptyNodes(any), NoOrder(), Idle, Resting);
      EmptyIsOk(any);
    } else {
      RunKeepsInv(run, steps, n - 1);
      NextKeepsInv(run[n - 1], steps[n - 1], run[n]);
    }
  }

  /** Over any run, a finished search has found any key whose insertion was complete, at level 0 at
      least, before the search began. */
  lemma SearchFindsInserted(run: seq<World>, steps: seq<Step>, n: nat, x: nat)
    requires IsRun(run, steps) && n <= |steps| && run[n].reader.Done? && x in run[n].reader.seen
    requires x < |run[n].s.keys| && run[n].s.keys[x] == run[n].reader.target
    ensures 0 < run[n].reader.n < |run[n].s.keys| && run[n].s.keys[run[n].reader.n] == run[n].reader.target
  {
    RunKeepsInv(run, steps, n);
    assert IsLevel(run[n].s, 0, run[n].order[0]);
  }
}
