/** DBImpl over the version set: reads, writes into the memtable, flushes, compactions and
    snapshots, each proved to be a step of module Database (db/db_impl.cc). */
module DbImpl {
  import opened Wrappers
  import opened Dbformat
  import opened VersionFiles
  import VersionGet
  import opened CompactionInputs
  import opened VersionBuilder
  import opened VersionEdits
  import opened LevelChange
  import opened DropRule
  import opened CompactionWork
  import opened Database
  import opened DatabaseSafety
  import opened Manifest
  import opened StepEdits

  // ---------- Reads ----------

  /** Newer data that can answer decides; otherwise older data does. */
  lemma NewerDecides(newer: set<Entry>, older: set<Entry>, user: UserKey, snapshot: nat, r: Lookup)
    requires AllOlder(older, newer)
    requires Reads(newer, user, snapshot, r)
    ensures !r.Missing? ==> Reads(newer + older, user, snapshot, r)
  {
    if !r.Missing? {
      var e :| IsNewest(newer, user, snapshot, e) && r == LookupOf(e);
      assert IsNewest(newer + older, user, snapshot, e);
    }
  }

  lemma OlderDecides(newer: set<Entry>, older: set<Entry>, user: UserKey, snapshot: nat, r: Lookup)
    requires NoneVisible(newer, user, snapshot) && Reads(older, user, snapshot, r)
    ensures Reads(newer + older, user, snapshot, r)
  {
    if !r.Missing? {
      var e :| IsNewest(older, user, snapshot, e) && r == LookupOf(e);
      assert IsNewest(newer + older, user, snapshot, e);
    }
  }

  /** DBImpl::Get: memtable, then immutable memtable, then the files. */
  method LookupAll(mem: seq<Entry>, imm: Option<seq<Entry>>, levels: Levels, user: UserKey, snapshot: nat, ghost s: State)
    returns (r: Lookup)
    requires Inv(s) && s.mem == mem && s.imm == imm && s.levels == levels
    ensures Reads(Data(s), user, snapshot, r)
  {
    ghost var files, frozen, fresh_ := AllEntries(s.levels), ImmEntries(s), Elements(s.mem);
    assert Data(s) == fresh_ + (frozen + files);
    r := SeekLookup(mem, user, snapshot);
    SeekLookupReads(mem, user, snapshot);
    if !r.Missing? {
      NewerDecides(fresh_, frozen + files, user, snapshot, r);
      return;
    }
    if imm.Some? {
      r := SeekLookup(imm.value, user, snapshot);
      SeekLookupReads(imm.value, user, snapshot);
      if !r.Missing? {
        NewerDecides(frozen, files, user, snapshot, r);
        OlderDecides(fresh_, frozen + files, user, snapshot, r);
        return;
      }
    }
    r := VersionGet.Get(levels, user, snapshot);
    OlderDecides(frozen, files, user, snapshot, r);
    OlderDecides(fresh_, frozen + files, user, snapshot, r);
  }

  // ---------- Writes ----------

  /** MemTable::Add into the sorted list that the skip list stands for. */
  function AddToMemTable(mem: seq<Entry>, e: Entry): (r: seq<Entry>)
    requires Sorted(mem)
    ensures forall x :: x in r <==> x == e || x in mem
  {
    var i := LowerBound(mem, e.key);
    assert mem == mem[..i] + mem[i..];
    mem[..i] + [e] + mem[i..]
  }

  lemma AddKeepsSorted(mem: seq<Entry>, e: Entry)
    requires Sorted(mem)
    requires forall x :: x in mem && x.key.user == e.key.user ==> x.key.seqno != e.key.seqno
    ensures Sorted(AddToMemTable(mem, e))
  {
    var i := LowerBound(mem, e.key);
    forall j | 0 <= j < |mem|
      ensures j < i ==> mem[j].key.Precedes(e.key)
      ensures j >= i ==> e.key.Precedes(mem[j].key)
    {
      assert mem[j] in mem;
    }
  }

  /** WriteBatchInternal::InsertInto: consecutive sequence numbers from `first`. */
  method InsertInto(mem: seq<Entry>, batch: seq<Update>, first: nat) returns (r: seq<Entry>)
    requires Sorted(mem) && forall x :: x in mem ==> x.key.seqno < first
    ensures Sorted(r)
    ensures Elements(r) == Elements(mem) + Elements(BatchEntries(batch, first))
  {
    r := mem;
    ghost var all := BatchEntries(batch, first);
    for i := 0 to |batch|
      invariant Sorted(r)
      invariant forall x :: x in r <==> x in mem || x in all[..i]
    {
      assert all[..i + 1] == all[..i] + [all[i]];
      var e := Entry(InternalKey(batch[i].user, first + i, batch[i].kind), batch[i].value);
      AddKeepsSorted(r, e);
      r := AddToMemTable(r, e);
    }
    assert all[..|batch|] == all;
  }

  // ---------- Compaction inputs and outputs ----------

  function AddAll(run: seq<Entry>, es: seq<Entry>): (r: seq<Entry>)
    requires Sorted(run)
    requires forall x, y :: x in run && y in es && x.key.user == y.key.user ==> x.key.seqno != y.key.seqno
    requires Sorted(es)
    ensures Sorted(r)
    ensures forall x :: x in r <==> x in run || x in es
    decreases |es|
  {
    if es == [] then run
    else
      AddKeepsSorted(run, es[0]);
      assert es == [es[0]] + es[1..];
      assert forall y :: y in es[1..] ==> es[0].key.Precedes(y.key);
      AddAll(AddToMemTable(run, es[0]), es[1..])
  }

  ghost predicate InSome(x: Entry, runs: seq<seq<Entry>>) {
    exists run :: run in runs && x in run
  }

  lemma InSomeCons(x: Entry, runs: seq<seq<Entry>>)
    requires runs != []
    ensures InSome(x, runs) <==> x in runs[0] || InSome(x, runs[1..])
  {
    if InSome(x, runs) {
      var run :| run in runs && x in run;
      assert run == runs[0] || run in runs[1..];
    }
    if InSome(x, runs[1..]) {
      var run :| run in runs[1..] && x in run;
      assert run in runs;
    }
  }

  /** Each run is sorted, and no version of a key is in two of them. */
  ghost predicate Mergeable(runs: seq<seq<Entry>>) {
    runs != [] ==>
      && Sorted(runs[0]) && Mergeable(runs[1..])
      && forall x, y :: InSome(x, runs[1..]) && y in runs[0] && x.key.user == y.key.user ==> x.key.seqno != y.key.seqno
  }

  /** What the merging iterator over the input files delivers: all their entries, in order. */
  function MergedRuns(runs: seq<seq<Entry>>): (r: seq<Entry>)
    requires Mergeable(runs)
    ensures Sorted(r)
    ensures forall x :: x in r <==> InSome(x, runs)
  {
    if runs == [] then []
    else
      assert forall x :: InSome(x, runs) <==> x in runs[0] || InSome(x, runs[1..]) by {
        forall x
          ensures InSome(x, runs) <==> x in runs[0] || InSome(x, runs[1..])
        {
          InSomeCons(x, runs);
        }
      }
      AddAll(MergedRuns(runs[1..]), runs[0])
  }

  /** The entries of each file, one run per file. */
  function RunsOf(files: seq<File>): (r: seq<seq<Entry>>)
    ensures forall x :: InSome(x, r) <==> exists f :: f in files && x in f.entries
  {
    if files == [] then []
    else
      var rest := RunsOf(files[1..]);
      assert files == [files[0]] + files[1..];
      assert ([files[0].entries] + rest)[1..] == rest;
      assert forall x :: InSome(x, [files[0].entries] + rest) <==> x in files[0].entries || InSome(x, rest) by {
        forall x
          ensures InSome(x, [files[0].entries] + rest) <==> x in files[0].entries || InSome(x, rest)
        {
          InSomeCons(x, [files[0].entries] + rest);
        }
      }
      [files[0].entries] + rest
  }

  lemma {:induction false} ApartIsMergeable(files: seq<File>)
    requires forall f :: f in files ==> Sorted(f.entries)
    requires Distinct(files) && forall f, g :: f in files && g in files && f != g ==> Apart(f, g)
    ensures Mergeable(RunsOf(files))
  {
    if files != [] {
      var runs := RunsOf(files);
      assert runs[1..] == RunsOf(files[1..]);
      ApartIsMergeable(files[1..]);
      forall x: Entry, y: Entry | InSome(x, runs[1..]) && y in runs[0] && x.key.user == y.key.user
        ensures x.key.seqno != y.key.seqno
      {
        var f :| f in files[1..] && x in f.entries;
        assert Apart(f, files[0]);
      }
    }
  }

  /** BuildTable, or the table builder of a compaction output; its size is left open. */
  method BuildTable(number: nat, es: seq<Entry>) returns (f: File)
    requires es != []
    ensures IsTable(f, number, es)
  {
    var size: nat := *;
    f := File(number, size, es[0].key, es[|es| - 1].key, es);
  }

  ghost predicate AreTables(outs: seq<File>, first: nat, runs: seq<seq<Entry>>) {
    |outs| == |runs| && forall i :: 0 <= i < |outs| ==> IsTable(outs[i], first + i, runs[i])
  }

  lemma {:induction false} RunsInOrder(runs: seq<seq<Entry>>, i: nat, x: Entry)
    requires Sorted(Concat(runs)) && i < |runs| && x in runs[i]
    ensures Sorted(runs[i]) && x in Concat(runs)
    ensures forall j, y :: i < j < |runs| && y in runs[j] ==> x.key.Precedes(y.key)
    decreases |runs|
  {
    var init, last := runs[..|runs| - 1], runs[|runs| - 1];
    var all := Concat(runs);
    assert all == Concat(init) + last;
    assert all[..|Concat(init)|] == Concat(init) && all[|Concat(init)|..] == last;
    if i < |runs| - 1 {
      RunsInOrder(init, i, x);
      assert forall j :: i < j < |init| ==> runs[j] == init[j];
    }
  }

  lemma {:induction false} ConcatMembers(runs: seq<seq<Entry>>)
    ensures forall x :: x in Concat(runs) ==> InSome(x, runs)
  {
    if runs != [] {
      var init, last := runs[..|runs| - 1], runs[|runs| - 1];
      ConcatMembers(init);
      assert runs == init + [last];
    }
  }

  /** The outputs of a compaction, one table per run, are good and disjoint files. */
  lemma TablesAreFiles(outs: seq<File>, first: nat, runs: seq<seq<Entry>>)
    requires AreTables(outs, first, runs) && Sorted(Concat(runs))
    requires forall x :: x in Concat(runs) ==> x.key.seqno <= MAX_SEQUENCE
    ensures FilesOk(outs) && Disjoint(outs) && FileEntries(outs) == Elements(Concat(runs))
  {
    forall i | 0 <= i < |outs|
      ensures FileOk(outs[i])
      ensures forall x :: x in outs[i].entries ==> x in Concat(runs)
      ensures forall j :: i < j < |outs| ==> outs[i].largest.Precedes(outs[j].smallest)
    {
      assert IsTable(outs[i], first + i, runs[i]);
      RunsInOrder(runs, i, runs[i][|runs[i]| - 1]);
      forall x | x in outs[i].entries
        ensures x in Concat(runs)
      {
        RunsInOrder(runs, i, x);
      }
      forall j | i < j < |outs|
        ensures outs[i].largest.Precedes(outs[j].smallest)
      {
        assert IsTable(outs[j], first + j, runs[j]);
        assert runs[j][0] in runs[j];
      }
    }
    ConcatMembers(runs);
    forall x | x in Concat(runs)
      ensures x in FileEntries(outs)
    {
      var run :| run in runs && x in run;
      var i :| 0 <= i < |runs| && runs[i] == run;
      assert IsTable(outs[i], first + i, runs[i]);
      assert outs[i] in outs;
    }
  }
}
