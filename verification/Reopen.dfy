/** Opening a database again after a crash: recovery from what is left of the manifest and of the log
    (DBImpl::Recover in db/db_impl.cc). */
module Reopen {
  import opened Wrappers
  import opened Dbformat
  import opened VersionFiles
  import opened VersionBuilder
  import opened VersionEdits
  import opened Manifest
  import opened ManifestBytes
  import opened Database
  import opened LogSafety
  import opened Recovery
  import Comparator
  import InternalKeys
  import LogFormat
  import WriteBatch

  // ---------- Rows of a log as entries ----------

  function EntryOf(row: WriteBatch.Row): Entry {
    Entry(InternalKey(Comparator.Rank(row.key), row.seqno, row.kind), row.value)
  }

  ghost function RowEntries(rows: seq<WriteBatch.Row>): set<Entry> {
    set row | row in rows :: EntryOf(row)
  }

  lemma RowEntriesAppend(a: seq<WriteBatch.Row>, b: seq<WriteBatch.Row>)
    ensures RowEntries(a + b) == RowEntries(a) + RowEntries(b)
  {
    forall e
      ensures e in RowEntries(a + b) <==> e in RowEntries(a) + RowEntries(b)
    {
      if e in RowEntries(a) {
        var row :| row in a && EntryOf(row) == e;
        assert row in a + b;
      }
      if e in RowEntries(b) {
        var row :| row in b && EntryOf(row) == e;
        assert row in a + b;
      }
    }
  }

  /** The entries of commit groups. */
  ghost function GroupEntries(groups: seq<Group>): set<Entry> { RowEntries(FlatMap(GroupRows, groups)) }

  /** The sequence number after those of the groups. */
  function NextSequence(groups: seq<Group>, first: nat): (next: nat)
    ensures next >= first
  {
    if groups == [] then first else NextSequence(groups[1..], first + |groups[0].ops|)
  }

  ghost predicate SequencesIn(rows: seq<WriteBatch.Row>, from: nat, to: nat) {
    forall row :: row in rows ==> from <= row.seqno < to
  }

  lemma SequencesAppend(a: seq<WriteBatch.Row>, b: seq<WriteBatch.Row>, from: nat, between: nat, to: nat)
    requires SequencesIn(a, from, between) && SequencesIn(b, between, to) && from <= between <= to
    ensures SequencesIn(a + b, from, to)
  {
  }

  lemma SequencesOfGroup(g: Group)
    ensures SequencesIn(GroupRows(g), g.seqno, g.seqno + |g.ops|)
  {
  }

  lemma {:induction false} GroupSequences(groups: seq<Group>, first: nat)
    requires Consecutive(groups, first)
    ensures SequencesIn(FlatMap(GroupRows, groups), first, NextSequence(groups, first))
    decreases |groups|
  {
    if groups != [] {
      var rest := first + |groups[0].ops|;
      GroupSequences(groups[1..], rest);
      SequencesOfGroup(groups[0]);
      SequencesAppend(GroupRows(groups[0]), FlatMap(GroupRows, groups[1..]), first, rest, NextSequence(groups[1..], rest));
      hide SequencesIn;
    }
  }

  /** The last sequence number of the last group. */
  lemma {:induction false} LastOfGroups(groups: seq<Group>, first: nat)
    requires Consecutive(groups, first) && groups != []
    ensures groups[|groups| - 1].Last() == NextSequence(groups, first) - 1
    decreases |groups|
  {
    if |groups| > 1 {
      LastOfGroups(groups[1..], first + |groups[0].ops|);
    }
  }

  lemma {:induction false} GroupsSplit(groups: seq<Group>, first: nat, m: nat)
    requires Consecutive(groups, first) && m <= |groups|
    ensures Consecutive(groups[..m], first) && Consecutive(groups[m..], NextSequence(groups[..m], first))
    decreases m
  {
    if m > 0 {
      GroupsSplit(groups[1..], first + |groups[0].ops|, m - 1);
      assert groups[..m][1..] == groups[1..][..m - 1] && groups[m..] == groups[1..][m - 1..];
    } else {
      assert groups[0..] == groups;
    }
  }

  // ---------- A prefix of the history ----------

  /** The entries that were written up to a sequence number. */
  ghost function UpTo(es: set<Entry>, last: nat): set<Entry> {
    set e | e in es && e.key.seqno <= last
  }

  function Least(a: nat, b: nat): nat { if a < b then a else b }

  /** Reading a prefix of the history is reading the whole of it at a snapshot within the prefix. */
  lemma PrefixReads(es: set<Entry>, last: nat, user: UserKey, snapshot: nat, r: Lookup)
    ensures Reads(UpTo(es, last), user, snapshot, r) <==> Reads(es, user, Least(snapshot, last), r)
  {
    var sub, at := UpTo(es, last), Least(snapshot, last);
    assert forall e: Entry :: e in sub && e.IsFor(user, snapshot) <==> e in es && e.IsFor(user, at);
    assert forall e: Entry :: IsNewest(sub, user, snapshot, e) <==> IsNewest(es, user, at, e);
  }

  // ---------- Reopening ----------

  /** A database opened from the bytes of a manifest and of a log: the files of the recovered version, and the rows
      of the replayed log, wherever recovery puts them. */
  ghost predicate IsReopened(c: LogFormat.Scheme, tables: Tables, comparator: Bytes, paranoid: bool, manifest: Bytes,
                             log: Bytes, s: State)
  {
    && EditsIn(c, tables, manifest).Some? && Recoverable(EditsIn(c, tables, manifest).value, comparator)
    && var version := RecoveredFrom(EditsIn(c, tables, manifest).value, comparator);
       var replay := ReplayOf(c, log, paranoid);
       && replay.ok && Data(s) == AllEntries(version.levels) + RowEntries(replay.rows)
       && s.lastSequence == if version.lastSequence < replay.maxSequence then replay.maxSequence else version.lastSequence
  }

  /** The files of a version, and as many of the log's groups as are left, are the whole database up to the last
      sequence number of these groups. */
  lemma SurvivingData(files: set<Entry>, groups: seq<Group>, first: nat, m: nat)
    requires Consecutive(groups, first) && first > 0 && m <= |groups| && forall e :: e in files ==> e.key.seqno < first
    ensures files + GroupEntries(groups[..m]) == UpTo(files + GroupEntries(groups), NextSequence(groups[..m], first) - 1)
  {
    hide RowEntries, FlatMap, GroupRows, SequencesIn, UpTo;
    var kept, lost, next := groups[..m], groups[m..], NextSequence(groups[..m], first);
    GroupsSplit(groups, first, m);
    GroupSequences(kept, first);
    GroupSequences(lost, next);
    EntriesWithin(FlatMap(GroupRows, kept), first, next);
    EntriesWithin(FlatMap(GroupRows, lost), next, NextSequence(lost, next));
    assert groups == kept + lost;
    FlatMapAppend(GroupRows, kept, lost);
    RowEntriesAppend(FlatMap(GroupRows, kept), FlatMap(GroupRows, lost));
    OlderIsUpTo(files, GroupEntries(kept), GroupEntries(lost), next);
  }

  lemma OlderIsUpTo(files: set<Entry>, older: set<Entry>, newer: set<Entry>, next: nat)
    requires next > 0 && forall e :: e in files + older ==> e.key.seqno < next
    requires forall e :: e in newer ==> e.key.seqno >= next
    ensures files + older == UpTo(files + (older + newer), next - 1)
  {
  }

  lemma EntriesWithin(rows: seq<WriteBatch.Row>, from: nat, to: nat)
    requires SequencesIn(rows, from, to)
    ensures forall e :: e in RowEntries(rows) ==> from <= e.key.seqno < to
  {
  }

  /** What there was when the database crashed, and which bytes of its manifest and of its log are left. */
  datatype Crash = Crash(now: Fields, edits: seq<VersionEdit>, installed: seq<Levels>, records: seq<Bytes>, manifest: Bytes,
                         groups: seq<Group>, first: nat, log: Bytes)

  /** How many edits the manifest still holds in full. */
  function EditsLeft(c: LogFormat.Scheme, x: Crash): nat { Complete(c, 0, x.records, |x.manifest|) }

  /** The commit groups that the log still holds in full. */
  function GroupsLeft(c: LogFormat.Scheme, x: Crash): seq<Group> {
    x.groups[..Complete(c, 0, Map(GroupRep, x.groups), |x.log|)]
  }

  /** The last sequence number that survives. */
  function LastLeft(c: LogFormat.Scheme, x: Crash): nat
    requires x.first > 0
  {
    NextSequence(GroupsLeft(c, x), x.first) - 1
  }

  /** The manifest is a prefix of that of a consistent version set, and the last edit left in it is one that had
      installed the version that the database ran on. */
  ghost predicate ManifestLeft(c: LogFormat.Scheme, names: InternalKeys.Names, tables: Tables, comparator: Bytes, x: Crash, s: State) {
    && Consistent(comparator, x.now, Some(x.edits), x.installed)
    && AreRecords(names, tables, x.edits, x.records) && x.manifest <= EmitAll(c, 0, x.records)
    && 0 < EditsLeft(c, x) <= |x.installed| && s.levels == x.installed[EditsLeft(c, x) - 1]
  }

  /** There is no immutable memtable, and the log is a prefix of that of the memtable, which began after all that is
      in files. */
  ghost predicate LogLeft(c: LogFormat.Scheme, x: Crash, s: State) {
    && s.imm.None? && Elements(s.mem) == GroupEntries(x.groups)
    && Consecutive(x.groups, x.first) && x.first > 0 && (forall e :: e in AllEntries(s.levels) ==> e.key.seqno < x.first)
    && x.log <= EmitAll(c, 0, Map(GroupRep, x.groups))
  }

  /** After a crash that leaves any prefix of the log, and of the manifest one that still leads to the version the
      database ran on, the database opened from them holds, entry for entry, exactly what the one that crashed had written up to the last sequence number of the commit groups that
      the log still holds in full: no group is lost but the last ones, and none in part. (Module Durability has what is
      answered with other prefixes of the manifest and with more than one log.) */
  lemma ReopenedData(c: LogFormat.Scheme, names: InternalKeys.Names, tables: Tables, comparator: Bytes, paranoid: bool,
                     x: Crash, s: State, r: State)
    requires c.Sound() && ManifestLeft(c, names, tables, comparator, x, s) && LogLeft(c, x, s)
    requires IsReopened(c, tables, comparator, paranoid, x.manifest, x.log, r)
    ensures Data(r) == UpTo(Data(s), LastLeft(c, x))
    ensures GroupsLeft(c, x) != [] ==> r.lastSequence >= LastLeft(c, x)
  {
    var replay := ReplayOf(c, x.log, paranoid);
    RecoveredFiles(c, names, tables, comparator, paranoid, x, s, r);
    RestoredGroups(c, paranoid, x, s);
    hide Data, LogLeft, ManifestLeft, IsReopened, RestoredExactly, ReplayOf, LastLeft, GroupsLeft;
    WholeAndPart(c, x, s, r, replay);
  }

  /** So it answers every read as the one that crashed did at that sequence number. */
  lemma ReopenedReads(c: LogFormat.Scheme, names: InternalKeys.Names, tables: Tables, comparator: Bytes, paranoid: bool,
                      x: Crash, s: State, r: State, user: UserKey, snapshot: nat, a: Lookup)
    requires c.Sound() && ManifestLeft(c, names, tables, comparator, x, s) && LogLeft(c, x, s)
    requires IsReopened(c, tables, comparator, paranoid, x.manifest, x.log, r)
    ensures Reads(Data(r), user, snapshot, a) <==> Reads(Data(s), user, Least(snapshot, LastLeft(c, x)), a)
  {
    ReopenedData(c, names, tables, comparator, paranoid, x, s, r);
    PrefixReads(Data(s), LastLeft(c, x), user, snapshot, a);
  }

  function ReplayOf(c: LogFormat.Scheme, log: Bytes, paranoid: bool): Replayed {
    Replay(Items(c, log, LogFormat.Pos(0, 0)), paranoid, Replayed([], 0, true))
  }

  lemma RestoredGroups(c: LogFormat.Scheme, paranoid: bool, x: Crash, s: State)
    requires c.Sound() && LogLeft(c, x, s)
    ensures RestoredExactly(ReplayOf(c, x.log, paranoid), Replayed([], 0, true), GroupsLeft(c, x))
  {
    CrashAtomicRecovery(c, x.log, x.groups, x.first, paranoid, Replayed([], 0, true));
  }

  /** The files of the database opened are those of the version that the last edit left had installed. */
  lemma RecoveredFiles(c: LogFormat.Scheme, names: InternalKeys.Names, tables: Tables, comparator: Bytes, paranoid: bool,
                       x: Crash, s: State, r: State)
    requires c.Sound() && ManifestLeft(c, names, tables, comparator, x, s)
    requires IsReopened(c, tables, comparator, paranoid, x.manifest, x.log, r)
    ensures Data(r) == AllEntries(s.levels) + RowEntries(ReplayOf(c, x.log, paranoid).rows)
    ensures r.lastSequence >= ReplayOf(c, x.log, paranoid).maxSequence
  {
    hide Consistent, AreRecords, EmitAll, Complete, Items, Replay, VersionAfter, Data, RowEntries, AllEntries, EditsIn;
    CrashLeavesInstalledVersion(c, names, tables, comparator, x.now, x.edits, x.installed, x.records, x.manifest);
  }

  lemma WholeAndPart(c: LogFormat.Scheme, x: Crash, s: State, r: State, replay: Replayed)
    requires LogLeft(c, x, s) && RestoredExactly(replay, Replayed([], 0, true), GroupsLeft(c, x))
    requires Data(r) == AllEntries(s.levels) + RowEntries(replay.rows) && r.lastSequence >= replay.maxSequence
    ensures x.first > 0 && Data(r) == UpTo(Data(s), LastLeft(c, x))
    ensures GroupsLeft(c, x) != [] ==> r.lastSequence >= LastLeft(c, x)
  {
    hide EmitAll, Complete, FlatMap, RowEntries, AllEntries, NextSequence;
    var files, left := AllEntries(s.levels), GroupsLeft(c, x);
    var m := Complete(c, 0, Map(GroupRep, x.groups), |x.log|);
    GroupsSplit(x.groups, x.first, m);
    SurvivingData(files, x.groups, x.first, m);
    assert [] + FlatMap(GroupRows, left) == FlatMap(GroupRows, left);
    assert Data(s) == files + GroupEntries(x.groups);
    if left != [] {
      LastOfGroups(left, x.first);
    }
  }
}
