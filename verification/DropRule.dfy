/** The drop rule of a compaction, on sets of entries (DBImpl::DoCompactionWork).

  `input` is what the compaction reads, `rest` is every other entry of the database,
  `base` says for which user keys no deeper level can hold data. */
module DropRule {
  import opened Dbformat

  /** Rule (A): a newer entry of the same key is already visible at the smallest snapshot. */
  ghost predicate Hidden(input: set<Entry>, e: Entry, smallest: nat) {
    exists n :: n in input && n.key.user == e.key.user && e.key.seqno < n.key.seqno <= smallest
  }

  /** The second rule: a tombstone every snapshot sees, with no data below it. */
  ghost predicate Obsolete(e: Entry, smallest: nat, base: UserKey -> bool) {
    e.key.kind.Deletion? && e.key.seqno <= smallest && base(e.key.user)
  }

  ghost predicate Dropped(input: set<Entry>, e: Entry, smallest: nat, base: UserKey -> bool) {
    Hidden(input, e, smallest) || Obsolete(e, smallest, base)
  }

  ghost function Kept(input: set<Entry>, smallest: nat, base: UserKey -> bool): set<Entry> {
    set e | e in input && !Dropped(input, e, smallest, base)
  }

  /** Every snapshot from `smallest` on gets the same answer for `user`. */
  ghost predicate SameAnswers(before: set<Entry>, after: set<Entry>, user: UserKey, smallest: nat) {
    forall s: nat, r1, r2 :: smallest <= s && Reads(before, user, s, r1) && Reads(after, user, s, r2)
      ==> r1.Answer() == r2.Answer()
  }

  /** `v` is the newest entry of `user` in `rest` older than `t`. */
  ghost predicate NextOlder(rest: set<Entry>, t: Entry, v: Entry) {
    && v in rest && v.key.user == t.key.user && v.key.seqno < t.key.seqno
    && forall x :: x in rest && x.key.user == t.key.user && x.key.seqno < t.key.seqno ==> x.key.seqno <= v.key.seqno
  }

  /** Dropping the tombstone `t` would bring the older value `v` back to life. */
  ghost predicate UncoversBy(rest: set<Entry>, input: set<Entry>, user: UserKey, smallest: nat,
                             base: UserKey -> bool, t: Entry, v: Entry)
  {
    && t in input && t.key.kind.Deletion? && base(user)
    && IsNewest(rest + input, user, smallest, t)
    && NextOlder(rest, t, v) && v.key.kind.Value?
  }

  ghost predicate Uncovers(rest: set<Entry>, input: set<Entry>, user: UserKey, smallest: nat, base: UserKey -> bool) {
    exists t, v :: UncoversBy(rest, input, user, smallest, base, t, v)
  }

  /** What is left of a compaction, entry by entry: what no newer entry of its user key visible at the smallest
      snapshot replaces, apart from the tombstones that every snapshot sees and that have no data below. */
  lemma KeptIff(input: set<Entry>, smallest: nat, base: UserKey -> bool)
    ensures forall e :: e in input ==>
      (e in Kept(input, smallest, base) <==>
       && (forall n :: n in input && n.key.user == e.key.user && e.key.seqno < n.key.seqno ==> smallest < n.key.seqno)
       && !(e.key.kind.Deletion? && e.key.seqno <= smallest && base(e.key.user)))
    ensures forall x, y ::
      x in Kept(input, smallest, base) && y in Kept(input, smallest, base) && x.key.user == y.key.user && y.key.seqno < x.key.seqno
      ==> smallest < x.key.seqno
  {
  }

  /** A dropped entry that was the newest visible one is an obsolete tombstone, and
      nothing of the input older than it survives. */
  lemma DroppedNewest(rest: set<Entry>, input: set<Entry>, user: UserKey, smallest: nat, s: nat,
                      base: UserKey -> bool, t: Entry)
    requires UniqueVersions(rest + input) && smallest <= s
    requires IsNewest(rest + input, user, s, t)
    requires t in input && t !in Kept(input, smallest, base)
    ensures t.key.kind.Deletion? && base(user) && t.key.seqno <= smallest
    ensures IsNewest(rest + input, user, smallest, t)
    ensures forall x :: x in Kept(input, smallest, base) ==> !x.IsFor(user, s)
  {
    assert forall n :: n in input ==> n in rest + input;
    assert !Hidden(input, t, smallest);
    assert forall x :: x in input && x.key.user == user && x.key.seqno < t.key.seqno ==> Hidden(input, x, smallest);
  }

  /** If no tombstone is uncovered, the read at `s` gives the same answer. */
  lemma ReadPreserved(rest: set<Entry>, input: set<Entry>, user: UserKey, smallest: nat, s: nat,
                      base: UserKey -> bool, r1: Lookup, r2: Lookup)
    requires UniqueVersions(rest + input)
    requires smallest <= s
    requires !Uncovers(rest, input, user, smallest, base)
    requires Reads(rest + input, user, s, r1)
    requires Reads(rest + Kept(input, smallest, base), user, s, r2)
    ensures r1.Answer() == r2.Answer()
  {
    var before, after := rest + input, rest + Kept(input, smallest, base);
    if r1.Missing? {
    } else {
      var t :| IsNewest(before, user, s, t) && r1 == LookupOf(t);
      if t in after {
        assert IsNewest(after, user, s, t);
        assert UniqueVersions(after);
        assert Reads(after, user, s, LookupOf(t));
        ReadsDeterministic(after, user, s, r1, r2);
      } else {
        DroppedNewest(rest, input, user, smallest, s, base, t);
        if r2.Found? {
          var v :| IsNewest(after, user, s, v) && r2 == LookupOf(v);
          assert v in rest;
          assert v.key.seqno < t.key.seqno by {
            assert v in before && t in before;
          }
          assert NextOlder(rest, t, v);
          assert UncoversBy(rest, input, user, smallest, base, t, v);
        }
      }
    }
  }

  /** An uncovered tombstone changes the answer at the smallest snapshot itself. */
  lemma UncoveredChangesAnswer(rest: set<Entry>, input: set<Entry>, user: UserKey, smallest: nat, base: UserKey -> bool)
    requires UniqueVersions(rest + input) && rest !! input
    requires Uncovers(rest, input, user, smallest, base)
    ensures !SameAnswers(rest + input, rest + Kept(input, smallest, base), user, smallest)
  {
    var t, v :| UncoversBy(rest, input, user, smallest, base, t, v);
    var before, after := rest + input, rest + Kept(input, smallest, base);
    assert Reads(before, user, smallest, LookupOf(t));
    assert Obsolete(t, smallest, base) && t !in Kept(input, smallest, base);
    DroppedNewest(rest, input, user, smallest, smallest, base, t);
    forall x | x in after && x.IsFor(user, smallest)
      ensures x.key.seqno <= v.key.seqno
    {
      assert x in rest && x in before;
      assert t in before;
      assert x.key.seqno != t.key.seqno;
    }
    assert IsNewest(after, user, smallest, v);
    assert Reads(after, user, smallest, LookupOf(v));
    assert LookupOf(t).Answer() != LookupOf(v).Answer();
  }

  /** Exactly when a compaction keeps every answer for `user`: unless it drops a tombstone
      whose next older entry, left out of the compaction, is a value. */
  lemma AnswersPreservedIff(rest: set<Entry>, input: set<Entry>, user: UserKey, smallest: nat, base: UserKey -> bool)
    requires UniqueVersions(rest + input) && rest !! input
    ensures SameAnswers(rest + input, rest + Kept(input, smallest, base), user, smallest)
      <==> !Uncovers(rest, input, user, smallest, base)
  {
    if Uncovers(rest, input, user, smallest, base) {
      UncoveredChangesAnswer(rest, input, user, smallest, base);
    } else {
      forall s: nat, r1, r2 | smallest <= s && Reads(rest + input, user, s, r1)
                              && Reads(rest + Kept(input, smallest, base), user, s, r2)
        ensures r1.Answer() == r2.Answer()
      {
        ReadPreserved(rest, input, user, smallest, s, base, r1, r2);
      }
    }
  }
}
