/** Durability over whole runs: what a database answers that is opened again after a crash, whichever of its
    versions the manifest still leads to and whatever is left of its logs (db/db_impl.cc DBImpl::Recover). */
module Durability {
  import opened Wrappers
  import opened Dbformat
  import opened VersionFiles
  import opened VersionBuilder
  import opened VersionEdits
  import opened LevelChange
  import opened DropRule
  import opened CompactionWork
  import opened ManifestBytes
  import opened Database
  import opened DatabaseSafety
  import opened SnapshotReads
  import opened LogSafety
  import opened Recovery
  import opened Reopen
  import Comparator
  import InternalKeys
  import LogFormat
  import opened Manifest
  import WriteBatch

  // ---------- The database with its logs and versions ----------

  /** A write-ahead log with the commit groups written to it. */
  datatype LogFile = LogFile(number: nat, groups: seq<Group>)

  /** A version as an edit of the manifest installed it: its files, the number of the first log that is not in them,
      how many logs come before that one, and the last sequence number at the time. */
  datatype Installed = Installed(levels: Levels, logNumber: nat, flushed: nat, lastSequence: nat)

  /** The database, all logs it ever began, and all versions it ever installed. */
  datatype World = World(db: State, logs: seq<LogFile>, versions: seq<Installed>)

  function Groups(log: LogFile): seq<Group> { log.groups }

  function GroupsOf(logs: seq<LogFile>): seq<Group> { FlatMap(Groups, logs) }

  function UpdateOf(op: WriteBatch.Op): Update {
    Update(op.Kind(), Comparator.Rank(op.key), op.Payload())
  }

  datatype WorldStep = GroupStep(group: Group) | DbStep(step: Step)

  predicate InstallsVersion(step: Step) { step.FlushStep? || step.MoveStep? || step.FinishStep? }

  function Logged(logs: seq<LogFile>, g: Group): seq<LogFile>
    requires logs != []
  {
    var last := logs[|logs| - 1];
    logs[..|logs| - 1] + [last.(groups := last.groups + [g])]
  }

  /** A flush records the current log as the first one needed; other edits leave the number as it is. */
  function NextInstalled(w: World, step: Step, db: State): Installed
    requires w.logs != [] && w.versions != []
  {
    var before := w.versions[|w.versions| - 1];
    if step.FlushStep? then Installed(db.levels, w.logs[|w.logs| - 1].number, |w.logs| - 1, db.lastSequence)
    else Installed(db.levels, before.logNumber, before.flushed, db.lastSequence)
  }

  /** A commit group is logged and then inserted; a memtable switch begins a log; flushes, moves and compactions
      install versions. */
  ghost predicate WorldNext(w: World, step: WorldStep, w': World) {
    && w.logs != [] && w.versions != []
    && match step
       case GroupStep(g) =>
         && g.Fits() && g.seqno == w.db.lastSequence + 1 && Write(w.db, Map(UpdateOf, g.ops), w'.db)
         && w'.logs == Logged(w.logs, g) && w'.versions == w.versions
       case DbStep(step) =>
         && !step.WriteStep? && NextStep(w.db, step, w'.db)
         && w'.logs == (if step.SwitchStep? then w.logs + [LogFile(w.db.nextFile, [])] else w.logs)
         && w'.versions == w.versions + (if InstallsVersion(step) then [NextInstalled(w, step, w'.db)] else [])
  }

  ghost predicate WorldInit(w: World) {
    Init(w.db) && w.logs == [LogFile(1, [])] && w.versions == [Installed(EMPTY_LEVELS, 0, 0, 0)]
  }

  // ---------- Answers at the latest sequence number ----------

  /** Both sets of entries answer alike when all entries are visible. */
  ghost predicate AnswersAs(a: set<Entry>, b: set<Entry>) {
    forall user :: Agree(a, b, user, MAX_SEQUENCE)
  }

  ghost predicate Before(es: set<Entry>, next: nat) {
    forall e :: e in es ==> e.key.seqno < next
  }

  ghost predicate From(es: set<Entry>, first: nat) {
    forall e :: e in es ==> first <= e.key.seqno
  }

  /** The same newer entries on both sides keep the answers alike. */
  lemma NewerKeepsAnswers(a: set<Entry>, b: set<Entry>, newer: set<Entry>, next: nat)
    requires AnswersAs(a, b) && Before(a, next) && Before(b, next) && From(newer, next)
    requires UniqueVersions(newer)
    ensures AnswersAs(a + newer, b + newer)
  {
    forall user
      ensures Agree(a + newer, b + newer, user, MAX_SEQUENCE)
    {
      NewerKeepsAnswer(a, b, newer, next, user, MAX_SEQUENCE);
    }
  }

  lemma NewerKeepsAnswer(a: set<Entry>, b: set<Entry>, newer: set<Entry>, next: nat, user: UserKey, snapshot: nat)
    requires Agree(a, b, user, snapshot) && Before(a, next) && Before(b, next) && From(newer, next)
    requires UniqueVersions(newer)
    ensures Agree(a + newer, b + newer, user, snapshot)
  {
    forall r1, r2 | Reads(a + newer, user, snapshot, r1) && Reads(b + newer, user, snapshot, r2)
      ensures r1.Answer() == r2.Answer()
    {
      if NoneVisible(newer, user, snapshot) {
        ReadOlder(a, newer, user, snapshot, r1);
        ReadOlder(b, newer, user, snapshot, r2);
      } else {
        ReadNewer(a, newer, next, user, snapshot, r1);
        ReadNewer(b, newer, next, user, snapshot, r2);
        ReadsDeterministic(newer, user, snapshot, r1, r2);
      }
    }
  }

  lemma ReadOlder(older: set<Entry>, newer: set<Entry>, user: UserKey, snapshot: nat, r: Lookup)
    requires NoneVisible(newer, user, snapshot) && Reads(older + newer, user, snapshot, r)
    ensures Reads(older, user, snapshot, r)
  {
    if !r.Missing? {
      var e :| IsNewest(older + newer, user, snapshot, e) && r == LookupOf(e);
      assert IsNewest(older, user, snapshot, e);
    }
  }

  lemma ReadNewer(older: set<Entry>, newer: set<Entry>, next: nat, user: UserKey, snapshot: nat, r: Lookup)
    requires Before(older, next) && From(newer, next)
    requires !NoneVisible(newer, user, snapshot) && Reads(older + newer, user, snapshot, r)
    ensures Reads(newer, user, snapshot, r)
  {
    var x :| x in newer && x.IsFor(user, snapshot);
    assert x in older + newer;
    var e :| IsNewest(older + newer, user, snapshot, e) && r == LookupOf(e);
    assert IsNewest(newer, user, snapshot, e);
  }

  // ---------- The files alone ----------

  /** The state as if the memtables were empty: what is in files. */
  ghost function OnDisk(s: State): State { s.(mem := [], imm := None) }

  /** No finished compaction drops a tombstone that hides a value in a file left out of it. */
  ghost predicate SafeOnDisk(s: State, step: Step) {
    SafeStep(OnDisk(s), step)
  }

  lemma OnDiskData(s: State)
    ensures Data(OnDisk(s)) == AllEntries(s.levels)
  {
  }

  lemma OnDiskInv(s: State)
    requires Inv(s)
    ensures Inv(OnDisk(s))
  {
    OnDiskData(s);
    hide GoodLevels;
    assert AllEntries(s.levels) <= Data(s);
    assert AgesOrdered(OnDisk(s));
  }

  /** Moves and compactions change no answer of the files. */
  lemma FilesKeepAnswers(s: State, step: Step, s': State)
    requires Inv(s) && NextStep(s, step, s') && (step.MoveStep? || step.FinishStep?) && SafeOnDisk(s, step)
    ensures AnswersAs(AllEntries(s.levels), AllEntries(s'.levels)) && AllEntries(s'.levels) <= AllEntries(s.levels)
  {
    OnDiskInv(s);
    OnDiskData(s);
    OnDiskData(s');
    OnDiskStep(s, step, s');
    hide Inv, NextStep, Data, AllEntries, OnDisk;
    if step.MoveStep? {
      MoveKeepsAnswers(OnDisk(s), step.level, step.file, OnDisk(s'));
    } else {
      FinishKeepsAnswers(OnDisk(s), step.outs, OnDisk(s'));
    }
  }

  lemma OnDiskStep(s: State, step: Step, s': State)
    requires NextStep(s, step, s') && (step.MoveStep? || step.FinishStep?)
    ensures NextStep(OnDisk(s), step, OnDisk(s'))
  {
  }

  lemma MoveKeepsAnswers(s: State, level: nat, file: File, s': State)
    requires Inv(s) && NextStep(s, MoveStep(level, file), s')
    ensures AnswersAs(Data(s), Data(s')) && Data(s') == Data(s)
  {
    MoveKeepsInv(s, level, file, s');
    DataUnique(s);
    forall user
      ensures Agree(Data(s), Data(s'), user, MAX_SEQUENCE)
    {
      AgreeSelf(Data(s), user, MAX_SEQUENCE);
    }
  }

  lemma FinishKeepsAnswers(s: State, outs: seq<File>, s': State)
    requires Inv(s) && NextStep(s, FinishStep(outs), s') && SafeStep(s, FinishStep(outs))
    ensures AnswersAs(Data(s), Data(s')) && Data(s') <= Data(s)
  {
    var j := s.job.value;
    FinishedData(s, j, outs, s');
    NoShadows(s, outs);
    hide Inv, JobFinishes, ShadowsLeftOut, SameAnswers, Agree, Data, SafeStep;
    forall user
      ensures Agree(Data(s), Data(s'), user, MAX_SEQUENCE)
    {
      CompactionPreservesAnswersIff(s, j, outs, s', user);
      SameIsAgree(Data(s), Data(s'), user, j.smallest, MAX_SEQUENCE);
    }
  }

  lemma FinishedData(s: State, j: Job, outs: seq<File>, s': State)
    requires Inv(s) && s.job == Some(j) && JobFinishes(s, j, outs, s')
    ensures JobOk(s) && j.smallest <= MAX_SEQUENCE && Data(s') <= Data(s)
  {
    FinishData(s, j, outs, s');
  }

  lemma NoShadows(s: State, outs: seq<File>)
    requires JobOk(s) && s.job.Some? && SafeStep(s, FinishStep(outs))
    ensures forall user :: !ShadowsLeftOut(s, s.job.value, user)
  {
    hide ShadowsLeftOut;
  }

  lemma SameIsAgree(a: set<Entry>, b: set<Entry>, user: UserKey, smallest: nat, snapshot: nat)
    requires SameAnswers(a, b, user, smallest) && smallest <= snapshot
    ensures Agree(a, b, user, snapshot)
  {
  }

  // ---------- Logs as history ----------

  /** The entries of all groups of some logs. */
  ghost function LogEntries(logs: seq<LogFile>): set<Entry> { GroupEntries(GroupsOf(logs)) }

  /** The sequence number after those of some logs that begin with the first one. */
  function NextOf(logs: seq<LogFile>): nat { NextSequence(GroupsOf(logs), 1) }

  lemma LogsSplit(logs: seq<LogFile>, p: nat)
    requires Consecutive(GroupsOf(logs), 1) && p <= |logs|
    ensures Consecutive(GroupsOf(logs[..p]), 1) && Consecutive(GroupsOf(logs[p..]), NextOf(logs[..p]))
    ensures Before(LogEntries(logs[..p]), NextOf(logs[..p])) && From(LogEntries(logs[p..]), NextOf(logs[..p]))
    ensures NextSequence(GroupsOf(logs[p..]), NextOf(logs[..p])) == NextOf(logs)
    ensures LogEntries(logs) == LogEntries(logs[..p]) + LogEntries(logs[p..])
  {
    hide RowEntries, FlatMap, SequencesIn;
    assert logs == logs[..p] + logs[p..];
    FlatMapAppend(Groups, logs[..p], logs[p..]);
    var a, b := GroupsOf(logs[..p]), GroupsOf(logs[p..]);
    ConsecutiveSplit(a, b, 1);
    GroupEntriesIn(a, 1);
    GroupEntriesIn(b, NextSequence(a, 1));
    GroupEntriesAppend(a, b);
  }

  lemma {:induction false} ConsecutiveSplit(a: seq<Group>, b: seq<Group>, first: nat)
    ensures Consecutive(a + b, first) <==> Consecutive(a, first) && Consecutive(b, NextSequence(a, first))
    ensures NextSequence(a + b, first) == NextSequence(b, NextSequence(a, first))
    decreases |a|
  {
    if a == [] {
      assert a + b == b;
    } else {
      assert (a + b)[1..] == a[1..] + b;
      ConsecutiveSplit(a[1..], b, first + |a[0].ops|);
    }
  }

  lemma GroupEntriesIn(groups: seq<Group>, first: nat)
    requires Consecutive(groups, first)
    ensures Before(GroupEntries(groups), NextSequence(groups, first)) && From(GroupEntries(groups), first)
  {
    GroupSequences(groups, first);
    EntriesWithin(FlatMap(GroupRows, groups), first, NextSequence(groups, first));
  }

  lemma GroupEntriesAppend(a: seq<Group>, b: seq<Group>)
    ensures GroupEntries(a + b) == GroupEntries(a) + GroupEntries(b)
  {
    FlatMapAppend(GroupRows, a, b);
    RowEntriesAppend(FlatMap(GroupRows, a), FlatMap(GroupRows, b));
  }

  /** What a group adds to the memtable is what its record adds when it is replayed. */
  lemma BatchIsRows(g: Group)
    ensures Elements(BatchEntries(Map(UpdateOf, g.ops), g.seqno)) == RowEntries(GroupRows(g))
  {
    var batch, rows := BatchEntries(Map(UpdateOf, g.ops), g.seqno), GroupRows(g);
    assert |batch| == |rows| == |g.ops|;
    forall i | 0 <= i < |rows|
      ensures batch[i] == EntryOf(rows[i])
    {
    }
    EntriesOfRows(batch, rows);
  }

  lemma EntriesOfRows(es: seq<Entry>, rows: seq<WriteBatch.Row>)
    requires |es| == |rows| && forall i :: 0 <= i < |rows| ==> es[i] == EntryOf(rows[i])
    ensures Elements(es) == RowEntries(rows)
  {
    hide EntryOf;
    forall i | 0 <= i < |rows|
      ensures es[i] in RowEntries(rows)
    {
      assert rows[i] in rows;
    }
    forall row | row in rows
      ensures EntryOf(row) in Elements(es)
    {
      var i :| 0 <= i < |rows| && rows[i] == row;
      assert es[i] in es;
    }
  }

  // ---------- The invariant ----------

  ghost predicate LogsOk(db: State, logs: seq<LogFile>) {
    && logs != []
    && (forall i, k :: 0 <= i < k < |logs| ==> logs[i].number < logs[k].number)
    && (forall i :: 0 <= i < |logs| ==> 0 < logs[i].number < db.nextFile)
    && Consecutive(GroupsOf(logs), 1) && NextOf(logs) == db.lastSequence + 1
  }

  /** The memtable holds what the last log does, and the immutable memtable what the one before does. */
  ghost predicate MemtablesLogged(db: State, logs: seq<LogFile>)
    requires logs != []
  {
    && Elements(db.mem) == GroupEntries(logs[|logs| - 1].groups)
    && (db.imm.Some? ==> |logs| >= 2 && Elements(db.imm.value) == GroupEntries(logs[|logs| - 2].groups))
  }

  /** A version answers as the logs before its log number, and the number tells the logs that are needed beside it. */
  ghost predicate VersionOk(logs: seq<LogFile>, v: Installed) {
    && v.flushed < |logs|
    && (forall i :: 0 <= i < |logs| ==> (v.logNumber <= logs[i].number <==> v.flushed <= i))
    && NextOf(logs[..v.flushed]) <= v.lastSequence + 1
    && Before(AllEntries(v.levels), NextOf(logs[..v.flushed]))
    && AnswersAs(LogEntries(logs[..v.flushed]), AllEntries(v.levels))
  }

  function Unflushed(db: State): nat { if db.imm.Some? then 2 else 1 }

  /** The last version is the current one; beside it, just the logs of the memtables are needed. */
  ghost predicate VersionsOk(w: World) {
    && w.versions != [] && (forall i :: 0 <= i < |w.versions| ==> VersionOk(w.logs, w.versions[i]))
    && w.versions[|w.versions| - 1].levels == w.db.levels
    && w.versions[|w.versions| - 1].flushed == |w.logs| - Unflushed(w.db)
  }

  ghost predicate WorldInv(w: World) {
    Inv(w.db) && JobUntouched(w.db) && LogsOk(w.db, w.logs) && MemtablesLogged(w.db, w.logs) && VersionsOk(w)
  }

  lemma InitWorldInv(w: World)
    requires WorldInit(w)
    ensures WorldInv(w)
  {
    hide Inv, LogsOk, MemtablesLogged, VersionsOk;
    InitInv(w.db);
    FirstLogOk(w.db);
    FirstVersionsOk(w);
  }

  lemma FirstVersionsOk(w: World)
    requires WorldInit(w)
    ensures VersionsOk(w)
  {
    hide VersionOk;
    FirstVersionOk();
  }

  lemma FirstLogOk(db: State)
    requires Init(db)
    ensures LogsOk(db, [LogFile(1, [])]) && MemtablesLogged(db, [LogFile(1, [])])
  {
    FirstLog();
    NoLogIsEmpty();
    assert Elements([]) == {};
  }

  lemma FirstVersionOk()
    ensures VersionOk([LogFile(1, [])], Installed(EMPTY_LEVELS, 0, 0, 0))
  {
    NoLogIsEmpty();
    NoFilesAreGood();
    hide AllEntries, AnswersAs, NextOf, LogEntries;
    assert [LogFile(1, [])][..0] == [];
  }

  lemma FirstLog()
    ensures GroupsOf([LogFile(1, [])]) == [] && NextOf([LogFile(1, [])]) == 1
  {
    var logs := [LogFile(1, [])];
    assert logs[1..] == [] && Groups(logs[0]) == [];
  }

  lemma NoLogIsEmpty()
    ensures LogEntries([]) == {} == GroupEntries([]) && AnswersAs({}, {}) && NextOf([]) == 1
  {
    assert FlatMap(GroupRows, []) == [];
    forall user
      ensures Agree({}, {}, user, MAX_SEQUENCE)
    {
      AgreeSelf({}, user, MAX_SEQUENCE);
    }
  }

  /** Longer logs, or more of them, leave versions as they are. */
  lemma VersionStays(logs: seq<LogFile>, v: Installed, logs': seq<LogFile>)
    requires VersionOk(logs, v) && |logs| <= |logs'|
    requires forall i :: 0 <= i < |logs| ==> logs'[i].number == logs[i].number
    requires forall i :: |logs| <= i < |logs'| ==> logs[|logs| - 1].number <= logs'[i].number
    requires logs'[..v.flushed] == logs[..v.flushed]
    ensures VersionOk(logs', v)
  {
    hide AnswersAs, Before, NextOf, LogEntries;
    assert v.logNumber <= logs[|logs| - 1].number;
  }

  // ---------- Every step keeps the invariant ----------

  lemma GroupsOfLogged(logs: seq<LogFile>, g: Group)
    requires logs != []
    ensures GroupsOf(Logged(logs, g)) == GroupsOf(logs) + [g]
  {
    var init, last := logs[..|logs| - 1], logs[|logs| - 1];
    assert logs == init + [last];
    FlatMapOne(Groups, init, last);
    FlatMapOne(Groups, init, last.(groups := last.groups + [g]));
    assert GroupsOf(init) + (last.groups + [g]) == GroupsOf(init) + last.groups + [g];
  }

  lemma OneGroupEntries(g: Group)
    ensures GroupEntries([g]) == RowEntries(GroupRows(g))
  {
    FlatMapOne(GroupRows, [], g);
    assert [] + [g] == [g] && FlatMap(GroupRows, []) == [];
    assert [] + GroupRows(g) == GroupRows(g);
  }

  lemma GroupKeepsLogs(db: State, logs: seq<LogFile>, g: Group, db': State)
    requires LogsOk(db, logs) && g.Fits() && g.seqno == db.lastSequence + 1
    requires db'.lastSequence == db.lastSequence + |g.ops| && db'.nextFile == db.nextFile
    ensures LogsOk(db', Logged(logs, g))
  {
    hide FlatMap;
    GroupsOfLogged(logs, g);
    ConsecutiveSplit(GroupsOf(logs), [g], 1);
    OneGroupFollows(g, NextOf(logs));
  }

  lemma OneGroupFollows(g: Group, first: nat)
    requires g.Fits() && g.seqno == first
    ensures Consecutive([g], first) && NextSequence([g], first) == first + |g.ops|
  {
    assert [g][1..] == [];
  }

  lemma GroupKeepsMemtables(db: State, logs: seq<LogFile>, g: Group, db': State)
    requires logs != [] && MemtablesLogged(db, logs) && db'.imm == db.imm
    requires Elements(db'.mem) == Elements(db.mem) + Elements(BatchEntries(Map(UpdateOf, g.ops), g.seqno))
    ensures MemtablesLogged(db', Logged(logs, g))
  {
    hide GroupEntries, RowEntries;
    BatchIsRows(g);
    OneGroupEntries(g);
    GroupEntriesAppend(logs[|logs| - 1].groups, [g]);
  }

  lemma GroupKeepsWorld(w: World, g: Group, w': World)
    requires WorldInv(w) && WorldNext(w, GroupStep(g), w')
    ensures WorldInv(w')
  {
    hide Inv, JobUntouched, LogsOk, MemtablesLogged, VersionsOk, Elements, BatchEntries;
    OrderlyStepKeeps(w.db, WriteStep(Map(UpdateOf, g.ops)), w'.db);
    GroupKeepsLogs(w.db, w.logs, g, w'.db);
    GroupKeepsMemtables(w.db, w.logs, g, w'.db);
    VersionsStay(w, w');
  }

  /** Versions stay as they are when the last log grows or another one begins. */
  lemma VersionsStay(w: World, w': World)
    requires w.logs != [] && VersionsOk(w) && w'.versions == w.versions && w'.db.levels == w.db.levels
    requires |w.logs| <= |w'.logs| && |w'.logs| - Unflushed(w'.db) == |w.logs| - Unflushed(w.db)
    requires w'.logs[..|w.logs| - 1] == w.logs[..|w.logs| - 1]
    requires forall i :: 0 <= i < |w.logs| ==> w'.logs[i].number == w.logs[i].number
    requires forall i :: |w.logs| <= i < |w'.logs| ==> w.logs[|w.logs| - 1].number <= w'.logs[i].number
    ensures VersionsOk(w')
  {
    forall i | 0 <= i < |w'.versions|
      ensures VersionOk(w'.logs, w'.versions[i])
    {
      var v := w.versions[i];
      assert VersionOk(w.logs, v);
      assert w'.logs[..v.flushed] == w'.logs[..|w.logs| - 1][..v.flushed];
      assert w.logs[..v.flushed] == w.logs[..|w.logs| - 1][..v.flushed];
      VersionStays(w.logs, v, w'.logs);
    }
  }

  lemma SwitchKeepsWorld(w: World, w': World)
    requires WorldInv(w) && WorldNext(w, DbStep(SwitchStep), w')
    ensures WorldInv(w')
  {
    hide Inv, LogsOk, VersionsOk, MemtablesLogged, JobUntouched;
    OrderlyStepKeeps(w.db, SwitchStep, w'.db);
    SwitchKeepsLogs(w.db, w.logs, w'.db);
    SwitchKeepsMemtables(w.db, w.logs, w'.db);
    LastNumberBelow(w.db, w.logs);
    VersionsStay(w, w');
  }

  lemma SwitchKeepsMemtables(db: State, logs: seq<LogFile>, db': State)
    requires logs != [] && MemtablesLogged(db, logs) && SwitchMemTable(db, db')
    ensures MemtablesLogged(db', logs + [LogFile(db.nextFile, [])])
  {
    NoLogIsEmpty();
    assert Elements([]) == {};
    hide GroupEntries;
  }

  lemma LastNumberBelow(db: State, logs: seq<LogFile>)
    requires LogsOk(db, logs)
    ensures logs[|logs| - 1].number < db.nextFile
  {
  }

  lemma SwitchKeepsLogs(db: State, logs: seq<LogFile>, db': State)
    requires LogsOk(db, logs) && db'.nextFile == db.nextFile + 1 && db'.lastSequence == db.lastSequence
    ensures LogsOk(db', logs + [LogFile(db.nextFile, [])])
  {
    hide FlatMap;
    FlatMapOne(Groups, logs, LogFile(db.nextFile, []));
    assert GroupsOf(logs) + [] == GroupsOf(logs);
    assert 0 < logs[0].number < db.nextFile;
  }

  // ---------- Steps that install versions ----------

  /** Nothing but the versions changes. */
  lemma InstallKeepsWorld(w: World, step: Step, w': World, v: Installed)
    requires LogsOk(w.db, w.logs) && VersionsOk(w) && w'.logs == w.logs && w'.versions == w.versions + [v]
    requires VersionOk(w.logs, v) && v.levels == w'.db.levels && v.flushed == |w.logs| - Unflushed(w'.db)
    ensures VersionsOk(w')
  {
    hide VersionOk;
  }

  lemma StepKeepsLogs(db: State, logs: seq<LogFile>, step: Step, db': State)
    requires LogsOk(db, logs) && NextStep(db, step, db') && !step.WriteStep?
    ensures LogsOk(db', logs)
  {
    hide Consecutive, NextOf;
    NumbersGrow(db, step, db');
  }

  lemma NumbersGrow(db: State, step: Step, db': State)
    requires NextStep(db, step, db') && !step.WriteStep?
    ensures db'.nextFile >= db.nextFile && db'.lastSequence == db.lastSequence
    ensures !step.SwitchStep? ==> db'.mem == db.mem
    ensures !step.SwitchStep? && !step.FlushStep? ==> db'.imm == db.imm
    ensures !InstallsVersion(step) ==> db'.levels == db.levels
    ensures step.FlushStep? ==> db.imm.Some? && db'.imm.None?
  {
  }

  /** What any step but a write keeps, whatever it does to the versions. */
  lemma StepKeepsRest(w: World, step: Step, w': World)
    requires WorldInv(w) && WorldNext(w, DbStep(step), w') && !FlushesIntoGap(w.db, step) && !step.SwitchStep?
    ensures Inv(w'.db) && JobUntouched(w'.db) && w'.logs == w.logs && LogsOk(w'.db, w.logs) && MemtablesLogged(w'.db, w.logs)
    ensures LogsOk(w.db, w.logs) && MemtablesLogged(w.db, w.logs) && VersionsOk(w)
    ensures w'.db.lastSequence == w.db.lastSequence && (step.FlushStep? ==> w.db.imm.Some? && w'.db.imm.None?)
    ensures !step.FlushStep? ==> w'.db.imm == w.db.imm
  {
    hide Inv, JobUntouched, LogsOk, VersionsOk, NextStep, FlushesIntoGap, Elements, GroupEntries;
    OrderlyStepKeeps(w.db, step, w'.db);
    StepKeepsLogs(w.db, w.logs, step, w'.db);
    NumbersGrow(w.db, step, w'.db);
  }

  lemma QuietKeepsWorld(w: World, step: Step, w': World)
    requires WorldInv(w) && WorldNext(w, DbStep(step), w') && !FlushesIntoGap(w.db, step)
    requires !step.SwitchStep? && !InstallsVersion(step)
    ensures WorldInv(w')
  {
    hide Inv, JobUntouched, LogsOk, MemtablesLogged, VersionOk, NextStep, FlushesIntoGap;
    StepKeepsRest(w, step, w');
    NumbersGrow(w.db, step, w'.db);
    assert w'.versions == w.versions;
    assert VersionsOk(w');
  }

  /** A version made of the same logs answers as they do. */
  lemma SameLogsVersion(w: World, db: State)
    requires LogsOk(w.db, w.logs) && VersionsOk(w) && w.db.lastSequence == db.lastSequence
    requires AnswersAs(AllEntries(w.db.levels), AllEntries(db.levels)) && AllEntries(db.levels) <= AllEntries(w.db.levels)
    ensures
      var v := w.versions[|w.versions| - 1];
      VersionOk(w.logs, Installed(db.levels, v.logNumber, v.flushed, db.lastSequence))
  {
    var v := w.versions[|w.versions| - 1];
    assert VersionOk(w.logs, v);
    LogsSplit(w.logs, v.flushed);
    NextGrows(GroupsOf(w.logs[v.flushed..]), NextOf(w.logs[..v.flushed]));
    hide NextOf, LogEntries, AllEntries;
    forall user
      ensures Agree(LogEntries(w.logs[..v.flushed]), AllEntries(db.levels), user, MAX_SEQUENCE)
    {
      AgreeTransitive(LogEntries(w.logs[..v.flushed]), AllEntries(v.levels), AllEntries(db.levels), user, MAX_SEQUENCE);
    }
  }

  lemma NextGrows(groups: seq<Group>, first: nat)
    ensures NextSequence(groups, first) >= first
  {
  }

  lemma ExchangeKeepsWorld(w: World, step: Step, w': World)
    requires WorldInv(w) && WorldNext(w, DbStep(step), w') && (step.MoveStep? || step.FinishStep?) && SafeOnDisk(w.db, step)
    ensures WorldInv(w')
  {
    hide Inv, JobUntouched, LogsOk, MemtablesLogged, VersionOk, NextStep, SafeOnDisk, AnswersAs, AllEntries;
    StepKeepsRest(w, step, w');
    FilesKeepAnswers(w.db, step, w'.db);
    SameLogsVersion(w, w'.db);
    InstallKeepsWorld(w, step, w', NextInstalled(w, step, w'.db));
  }

  /** The files after a flush hold the immutable memtable's entries besides. */
  lemma FlushAdds(s: State, level: nat, file: File, s': State)
    requires Inv(s) && Flush(s, level, file, s')
    ensures AllEntries(s'.levels) == AllEntries(s.levels) + Elements(s.imm.value)
  {
    if s.imm.value != [] {
      PlacedEntries(s.levels, level, file, s'.levels);
    } else {
      assert Elements(s.imm.value) == {};
    }
  }

  lemma FlushedVersion(w: World, levels: Levels, imm: seq<Entry>)
    requires LogsOk(w.db, w.logs) && VersionsOk(w) && w.db.imm == Some(imm) && Sorted(imm) && MemtablesLogged(w.db, w.logs)
    requires AllEntries(levels) == AllEntries(w.db.levels) + Elements(imm)
    ensures VersionOk(w.logs, Installed(levels, w.logs[|w.logs| - 1].number, |w.logs| - 1, w.db.lastSequence))
  {
    hide VersionOk, AllEntries, AnswersAs, NextOf, LogEntries, GroupEntries, UniqueVersions, Sorted, Consecutive, Before, From, GroupsOf;
    var n, v := |w.logs|, w.versions[|w.versions| - 1];
    assert VersionOk(w.logs, v) && v.flushed == n - 2;
    VersionFacts(w.db, w.logs, v);
    SortedUnique(imm);
    FlushedLogs(w.logs, n - 1);
    NewerKeepsAnswers(LogEntries(w.logs[..n - 2]), AllEntries(w.db.levels), Elements(imm), NextOf(w.logs[..n - 2]));
    FilesBefore(AllEntries(w.db.levels), Elements(imm), NextOf(w.logs[..n - 2]), NextOf(w.logs[..n - 1]));
    AnswersMakeVersion(w.db, w.logs, levels);
  }

  lemma FilesBefore(files: set<Entry>, more: set<Entry>, next: nat, end: nat)
    requires Before(files, next) && Before(more, end) && next <= end
    ensures Before(files + more, end)
  {
  }

  lemma AnswersMakeVersion(db: State, logs: seq<LogFile>, levels: Levels)
    requires LogsOk(db, logs) && NextOf(logs[..|logs| - 1]) <= NextOf(logs)
    requires AnswersAs(LogEntries(logs[..|logs| - 1]), AllEntries(levels)) && Before(AllEntries(levels), NextOf(logs[..|logs| - 1]))
    ensures VersionOk(logs, Installed(levels, logs[|logs| - 1].number, |logs| - 1, db.lastSequence))
  {
    hide AnswersAs, LogEntries, AllEntries, NextOf, Before;
  }

  /** One more log is in files. */
  lemma FlushedLogs(logs: seq<LogFile>, n: nat)
    requires 0 < n <= |logs| && Consecutive(GroupsOf(logs), 1)
    ensures Before(LogEntries(logs[..n - 1]), NextOf(logs[..n - 1])) && NextOf(logs[..n - 1]) <= NextOf(logs[..n]) <= NextOf(logs)
    ensures From(GroupEntries(logs[n - 1].groups), NextOf(logs[..n - 1])) && Before(GroupEntries(logs[n - 1].groups), NextOf(logs[..n]))
    ensures LogEntries(logs[..n]) == LogEntries(logs[..n - 1]) + GroupEntries(logs[n - 1].groups)
  {
    var flushed := logs[..n];
    LogsSplit(logs, n);
    NextGrows(GroupsOf(logs[n..]), NextOf(flushed));
    LogsSplit(flushed, n - 1);
    assert flushed[..n - 1] == logs[..n - 1] && flushed[n - 1..] == [logs[n - 1]];
    NextGrows(GroupsOf([logs[n - 1]]), NextOf(logs[..n - 1]));
    OneLogEntries(logs[n - 1]);
  }

  lemma OneLogEntries(log: LogFile)
    ensures LogEntries([log]) == GroupEntries(log.groups)
  {
    FlatMapOne(Groups, [], log);
    assert [] + [log] == [log] && FlatMap(Groups, []) == [];
    assert [] + log.groups == log.groups;
  }

  lemma FlushKeepsWorld(w: World, step: Step, w': World)
    requires WorldInv(w) && WorldNext(w, DbStep(step), w') && step.FlushStep? && !FlushesIntoGap(w.db, step)
    ensures WorldInv(w')
  {
    hide JobUntouched, LogsOk, MemtablesLogged, VersionsOk, FlushesIntoGap, Flush, AllEntries, GoodLevels, NumbersOk;
    StepKeepsRest(w, step, w');
    FlushAdds(w.db, step.level, step.file, w'.db);
    FlushedVersion(w, w'.db.levels, w.db.imm.value);
    InstallKeepsWorld(w, step, w', NextInstalled(w, step, w'.db));
  }

  /** What a step must not do: flush into a gap, or drop a tombstone that hides a value left out of the compaction. */
  ghost predicate GoodStep(w: World, step: WorldStep) {
    step.DbStep? ==> !FlushesIntoGap(w.db, step.step) && SafeOnDisk(w.db, step.step)
  }

  lemma WorldNextKeepsInv(w: World, step: WorldStep, w': World)
    requires WorldInv(w) && WorldNext(w, step, w') && GoodStep(w, step)
    ensures WorldInv(w')
  {
    hide WorldInv, WorldNext, FlushesIntoGap, SafeOnDisk;
    match step
    case GroupStep(g) => GroupKeepsWorld(w, g, w');
    case DbStep(step) =>
      if step.SwitchStep? {
        SwitchKeepsWorld(w, w');
      } else if step.FlushStep? {
        FlushKeepsWorld(w, step, w');
      } else if step.MoveStep? || step.FinishStep? {
        ExchangeKeepsWorld(w, step, w');
      } else {
        NoWrite(w, step, w');
        QuietKeepsWorld(w, step, w');
      }
  }

  lemma NoWrite(w: World, step: Step, w': World)
    requires WorldNext(w, DbStep(step), w')
    ensures !step.WriteStep?
  {
  }

  // ---------- Whole runs ----------

  ghost predicate IsWorldRun(run: seq<World>, steps: seq<WorldStep>) {
    && |run| == |steps| + 1 && WorldInit(run[0])
    && forall i {:trigger steps[i]} :: 0 <= i < |steps| ==> WorldNext(run[i], steps[i], run[i + 1]) && GoodStep(run[i], steps[i])
  }

  lemma {:induction false} WorldRunKeepsInv(run: seq<World>, steps: seq<WorldStep>, n: nat)
    requires IsWorldRun(run, steps) && n <= |steps|
    ensures WorldInv(run[n])
  {
    hide WorldInit, WorldNext, GoodStep, WorldInv;
    if n == 0 {
      InitWorldInv(run[0]);
    } else {
      WorldRunKeepsInv(run, steps, n - 1);
      WorldNextKeepsInv(run[n - 1], steps[n - 1], run[n]);
    }
  }

  // ---------- Replaying logs ----------

  function ReplayLog(c: LogFormat.Scheme, log: Bytes, paranoid: bool, sofar: Replayed): Replayed {
    Replay(Items(c, log, LogFormat.Pos(0, 0)), paranoid, sofar)
  }

  /** DBImpl::Recover: the logs from the recorded number on, and the previous one if there is such, in order. */
  function ReplayLogs(c: LogFormat.Scheme, logs: seq<(nat, Bytes)>, minLog: nat, prevLog: nat, paranoid: bool, sofar: Replayed): Replayed
    decreases |logs|
  {
    if logs == [] then sofar
    else ReplayLogs(c, logs[1..], minLog, prevLog, paranoid,
                    if logs[0].0 >= minLog || logs[0].0 == prevLog then ReplayLog(c, logs[0].1, paranoid, sofar) else sofar)
  }

  /** What a crash leaves of each log: some prefix of its bytes. */
  ghost predicate LogsLeft(c: LogFormat.Scheme, logs: seq<LogFile>, left: seq<(nat, Bytes)>) {
    && |left| == |logs|
    && forall i :: 0 <= i < |logs| ==>
         left[i].0 == logs[i].number && left[i].1 <= EmitAll(c, 0, Map(GroupRep, logs[i].groups))
  }

  /** The groups that a log still holds in full. */
  function Kept(c: LogFormat.Scheme, log: LogFile, left: Bytes): seq<Group> {
    log.groups[..Complete(c, 0, Map(GroupRep, log.groups), |left|)]
  }

  function KeptGroups(c: LogFormat.Scheme, logs: seq<LogFile>, left: seq<(nat, Bytes)>): seq<Group>
    requires |logs| == |left|
    decreases |logs|
  {
    if logs == [] then [] else Kept(c, logs[0], left[0].1) + KeptGroups(c, logs[1..], left[1..])
  }

  /** The replay has added just these groups, whose sequence numbers lie between `first` and the last one it saw. */
  ghost predicate Adds(r: Replayed, sofar: Replayed, groups: seq<Group>, first: nat) {
    && r.ok && r.rows == sofar.rows + FlatMap(GroupRows, groups) && sofar.maxSequence <= r.maxSequence
    && Before(GroupEntries(groups), r.maxSequence + 1) && From(GroupEntries(groups), first)
  }

  lemma AddsBoth(sofar: Replayed, next: Replayed, r: Replayed, a: seq<Group>, b: seq<Group>, first: nat, between: nat)
    requires Adds(next, sofar, a, first) && Adds(r, next, b, between) && first <= between
    ensures Adds(r, sofar, a + b, first)
  {
    hide GroupEntries, FlatMap;
    FlatMapAppend(GroupRows, a, b);
    AppendAssociates(sofar.rows, FlatMap(GroupRows, a), FlatMap(GroupRows, b));
    GroupEntriesAppend(a, b);
    BoundsJoin(GroupEntries(a), GroupEntries(b), first, between, next.maxSequence + 1, r.maxSequence + 1);
  }

  lemma AppendAssociates<T>(a: seq<T>, b: seq<T>, c: seq<T>)
    ensures a + b + c == a + (b + c)
  {
  }

  lemma BoundsJoin(a: set<Entry>, b: set<Entry>, first: nat, between: nat, next: nat, last: nat)
    requires From(a, first) && Before(a, next) && From(b, between) && Before(b, last) && first <= between && next <= last
    ensures From(a + b, first) && Before(a + b, last)
  {
  }

  /** Replaying what is left of a log adds the groups it holds in full, and no larger sequence number than the log had. */
  lemma LogIsReplayed(c: LogFormat.Scheme, log: LogFile, left: Bytes, first: nat, paranoid: bool, sofar: Replayed)
    requires c.Sound() && Consecutive(log.groups, first) && sofar.ok && sofar.maxSequence < first
    requires left <= EmitAll(c, 0, Map(GroupRep, log.groups))
    ensures Adds(ReplayLog(c, left, paranoid, sofar), sofar, Kept(c, log, left), first)
    ensures ReplayLog(c, left, paranoid, sofar).maxSequence < NextSequence(log.groups, first)
  {
    hide Replay, Items, EmitAll, Complete, FlatMap, RowEntries;
    var m := Complete(c, 0, Map(GroupRep, log.groups), |left|);
    CrashAtomicRecovery(c, left, log.groups, first, paranoid, sofar);
    GroupsSplit(log.groups, first, m);
    KeptBounds(log.groups, m, first);
  }

  lemma KeptBounds(groups: seq<Group>, m: nat, first: nat)
    requires Consecutive(groups, first) && m <= |groups| && Consecutive(groups[..m], first)
    ensures first <= NextSequence(groups[..m], first) <= NextSequence(groups, first)
    ensures Before(GroupEntries(groups[..m]), NextSequence(groups[..m], first)) && From(GroupEntries(groups[..m]), first)
    ensures m > 0 ==> groups[m - 1].Last() == NextSequence(groups[..m], first) - 1
    ensures m == 0 ==> GroupEntries(groups[..m]) == {}
  {
    GroupEntriesIn(groups[..m], first);
    assert groups == groups[..m] + groups[m..];
    ConsecutiveSplit(groups[..m], groups[m..], first);
    NextGrows(groups[m..], NextSequence(groups[..m], first));
    if m > 0 {
      LastOfGroups(groups[..m], first);
    } else {
      NoLogIsEmpty();
      assert groups[..0] == [];
    }
  }

  /** Replaying what is left of the logs from the recorded number on adds the groups that each holds in full. */
  lemma {:induction false} LogsAreReplayed(c: LogFormat.Scheme, logs: seq<LogFile>, left: seq<(nat, Bytes)>, first: nat,
                                           minLog: nat, prevLog: nat, paranoid: bool, sofar: Replayed)
    requires c.Sound() && LogsLeft(c, logs, left) && Consecutive(GroupsOf(logs), first) && sofar.ok && sofar.maxSequence < first
    requires forall i :: 0 <= i < |logs| ==> minLog <= logs[i].number
    ensures Adds(ReplayLogs(c, left, minLog, prevLog, paranoid, sofar), sofar, KeptGroups(c, logs, left), first)
    decreases |logs|
  {
    if logs == [] {
      NoLogIsEmpty();
      assert sofar.rows + [] == sofar.rows;
    } else {
      hide Adds, EmitAll, Complete, ReplayLog, ReplayLogs, Kept, Consecutive, NextSequence, LogsLeft, GroupsOf;
      FirstLogAndRest(logs, first);
      FirstLeftAndRest(c, logs, left);
      var next, between := ReplayLog(c, left[0].1, paranoid, sofar), NextSequence(logs[0].groups, first);
      LogIsReplayed(c, logs[0], left[0].1, first, paranoid, sofar);
      AddsIsOk(next, sofar, Kept(c, logs[0], left[0].1), first);
      ReplayFirst(c, left, minLog, prevLog, paranoid, sofar);
      LogsAreReplayed(c, logs[1..], left[1..], between, minLog, prevLog, paranoid, next);
      NextGrows(logs[0].groups, first);
      AddsBoth(sofar, next, ReplayLogs(c, left[1..], minLog, prevLog, paranoid, next),
               Kept(c, logs[0], left[0].1), KeptGroups(c, logs[1..], left[1..]), first, between);
    }
  }

  lemma FirstLeftAndRest(c: LogFormat.Scheme, logs: seq<LogFile>, left: seq<(nat, Bytes)>)
    requires logs != [] && LogsLeft(c, logs, left)
    ensures |left| == |logs| && left[0].0 == logs[0].number && left[0].1 <= EmitAll(c, 0, Map(GroupRep, logs[0].groups))
    ensures LogsLeft(c, logs[1..], left[1..])
  {
    hide EmitAll;
  }

  lemma AddsIsOk(r: Replayed, sofar: Replayed, groups: seq<Group>, first: nat)
    requires Adds(r, sofar, groups, first)
    ensures r.ok
  {
  }

  lemma ReplayFirst(c: LogFormat.Scheme, left: seq<(nat, Bytes)>, minLog: nat, prevLog: nat, paranoid: bool, sofar: Replayed)
    requires left != [] && left[0].0 >= minLog
    ensures ReplayLogs(c, left, minLog, prevLog, paranoid, sofar)
         == ReplayLogs(c, left[1..], minLog, prevLog, paranoid, ReplayLog(c, left[0].1, paranoid, sofar))
  {
    hide ReplayLog;
  }

  lemma FirstLogAndRest(logs: seq<LogFile>, first: nat)
    requires logs != [] && Consecutive(GroupsOf(logs), first)
    ensures Consecutive(logs[0].groups, first) && Consecutive(GroupsOf(logs[1..]), NextSequence(logs[0].groups, first))
  {
    ConsecutiveSplit(logs[0].groups, GroupsOf(logs[1..]), first);
  }

  /** Logs before the recorded number are not replayed. */
  lemma {:induction false} FlushedLogsAreSkipped(c: LogFormat.Scheme, left: seq<(nat, Bytes)>, n: nat, minLog: nat, prevLog: nat,
                                                 paranoid: bool, sofar: Replayed)
    requires n <= |left| && forall i :: 0 <= i < n ==> left[i].0 < minLog && left[i].0 != prevLog
    ensures ReplayLogs(c, left, minLog, prevLog, paranoid, sofar) == ReplayLogs(c, left[n..], minLog, prevLog, paranoid, sofar)
    decreases n
  {
    if n > 0 {
      FlushedLogsAreSkipped(c, left[1..], n - 1, minLog, prevLog, paranoid, sofar);
      assert left[n..] == left[1..][n - 1..];
    } else {
      assert left[0..] == left;
    }
  }

  // ---------- Opening the database again ----------

  /** What is on disk: the bytes of the manifest, and of the logs that have not been deleted. */
  datatype Disk = Disk(manifest: Bytes, logs: seq<(nat, Bytes)>)

  /** A database opened from a disk: the files of the recovered version and the rows of the replayed logs, wherever
      recovery puts them. */
  ghost predicate IsOpened(c: LogFormat.Scheme, tables: Tables, comparator: Bytes, paranoid: bool, disk: Disk, s: State) {
    && EditsIn(c, tables, disk.manifest).Some? && Recoverable(EditsIn(c, tables, disk.manifest).value, comparator)
    && var version := RecoveredFrom(EditsIn(c, tables, disk.manifest).value, comparator);
       var replay := ReplayLogs(c, disk.logs, version.logNumber, version.prevLogNumber, paranoid, Replayed([], 0, true));
       && Data(s) == AllEntries(version.levels) + RowEntries(replay.rows)
       && s.lastSequence == if version.lastSequence < replay.maxSequence then replay.maxSequence else version.lastSequence
  }

  /** The edits lead to the version. */
  ghost predicate Describes(edits: seq<VersionEdit>, comparator: Bytes, v: Installed) {
    && Recoverable(edits, comparator)
    && var r := RecoveredFrom(edits, comparator);
       r.levels == v.levels && r.logNumber == v.logNumber && r.prevLogNumber == 0 && r.lastSequence == v.lastSequence
  }

  /** Wherever the manifest ends after enough edits to be recovered from, they lead to a version that was installed. */
  ghost predicate EditsOf(edits: seq<VersionEdit>, comparator: Bytes, versions: seq<Installed>) {
    forall k :: 0 <= k <= |edits| && Recoverable(edits[..k], comparator) ==> LeadsTo(edits[..k], comparator, versions)
  }

  ghost predicate LeadsTo(edits: seq<VersionEdit>, comparator: Bytes, versions: seq<Installed>) {
    exists v :: v in versions && Describes(edits, comparator, v)
  }

  /** The edit that DBImpl::NewDB writes. */
  function NewDbEdit(comparator: Bytes): VersionEdit {
    EMPTY_EDIT.(comparator := Some(comparator), logNumber := Some(0), nextFileNumber := Some(2), lastSequence := Some(0))
  }

  lemma NewDbDescribes(comparator: Bytes)
    ensures EditsOf([NewDbEdit(comparator)], comparator, [Installed(EMPTY_LEVELS, 0, 0, 0)])
  {
    var edits, v := [NewDbEdit(comparator)], Installed(EMPTY_LEVELS, 0, 0, 0);
    assert edits[..0] == [] && edits[..1] == edits;
    assert VersionAfter(edits) == EMPTY_LEVELS by {
      OneEdit(NewDbEdit(comparator));
      forall l | 0 <= l < NUM_LEVELS
        ensures Install(NO_FILES, NewDbEdit(comparator))[l] == []
      {
      }
    }
    hide VersionAfter;
    assert edits[..|edits| - 1] == [];
    assert LastRecorded(edits, LogField) == Some(0) && LastRecorded(edits, NextFileField) == Some(2);
    assert LastRecorded(edits, SequenceField) == Some(0) && LastRecorded(edits, PrevLogField) == None;
    assert Describes(edits, comparator, v);
    forall k | 0 <= k <= 1 && Recoverable(edits[..k], comparator)
      ensures LeadsTo(edits[..k], comparator, [v])
    {
      assert v in [v];
    }
  }

  /** LogAndApply keeps that so: what it logs leads to the version that it installs. */
  lemma LoggedEditDescribes(edits: seq<VersionEdit>, comparator: Bytes, versions: seq<Installed>, e: VersionEdit, now: Fields, v: Installed)
    requires EditsOf(edits, comparator, versions) && Manifest.Restores(edits + [e], comparator, now)
    requires v.levels == now.levels && v.logNumber == now.logNumber && now.prevLogNumber == 0 && v.lastSequence == now.lastSequence
    ensures EditsOf(edits + [e], comparator, versions + [v])
  {
    forall k | 0 <= k <= |edits| + 1 && Recoverable((edits + [e])[..k], comparator)
      ensures LeadsTo((edits + [e])[..k], comparator, versions + [v])
    {
      if k <= |edits| {
        assert (edits + [e])[..k] == edits[..k];
        var u :| u in versions && Describes(edits[..k], comparator, u);
        assert u in versions + [v];
      } else {
        assert (edits + [e])[..k] == edits + [e];
        assert v in versions + [v];
      }
    }
  }

  /** What survives a crash if the manifest leads to a version: all groups of the logs that are in its files, and of
      the others those that are held in full. The first `gone` logs have been deleted. */
  ghost function Survivors(c: LogFormat.Scheme, logs: seq<LogFile>, v: Installed, gone: nat, disk: Disk): set<Entry>
    requires gone <= v.flushed <= |logs| && |disk.logs| == |logs| - gone
  {
    LogEntries(logs[..v.flushed]) + GroupEntries(KeptGroups(c, logs[v.flushed..], disk.logs[v.flushed - gone..]))
  }

  /** The database as it crashed, with the edits of its manifest and their records, and what is left on disk. */
  ghost predicate CrashLeaves(c: LogFormat.Scheme, names: InternalKeys.Names, tables: Tables, comparator: Bytes, w: World,
                              edits: seq<VersionEdit>, records: seq<Bytes>, gone: nat, disk: Disk)
  {
    && EditsOf(edits, comparator, w.versions) && AreRecords(names, tables, edits, records)
    && disk.manifest <= EmitAll(c, 0, records)
    && gone <= |w.logs| && LogsLeft(c, w.logs[gone..], disk.logs)
  }

  lemma OpenedIsRecoverable(c: LogFormat.Scheme, tables: Tables, comparator: Bytes, paranoid: bool, disk: Disk, r: State,
                            edits: seq<VersionEdit>, versions: seq<Installed>, k: nat)
    requires IsOpened(c, tables, comparator, paranoid, disk, r) && k <= |edits| && EditsIn(c, tables, disk.manifest) == Some(edits[..k])
    requires EditsOf(edits, comparator, versions)
    ensures LeadsTo(edits[..k], comparator, versions)
  {
  }

  /** The replay of the logs that a version needs beside it. */
  function ReplayFrom(c: LogFormat.Scheme, paranoid: bool, disk: Disk, v: Installed): Replayed {
    ReplayLogs(c, disk.logs, v.logNumber, 0, paranoid, Replayed([], 0, true))
  }

  ghost predicate OpenedFrom(c: LogFormat.Scheme, paranoid: bool, disk: Disk, v: Installed, r: State) {
    var replay := ReplayFrom(c, paranoid, disk, v);
    && Data(r) == AllEntries(v.levels) + RowEntries(replay.rows)
    && r.lastSequence >= v.lastSequence && r.lastSequence >= replay.maxSequence
  }

  lemma OpenedVersion(c: LogFormat.Scheme, tables: Tables, comparator: Bytes, paranoid: bool, disk: Disk, r: State,
                      edits: seq<VersionEdit>, v: Installed)
    requires IsOpened(c, tables, comparator, paranoid, disk, r) && EditsIn(c, tables, disk.manifest) == Some(edits)
    requires Describes(edits, comparator, v)
    ensures OpenedFrom(c, paranoid, disk, v, r)
  {
    hide Data, AllEntries, RowEntries, ReplayLogs, VersionAfter;
  }

  // ---------- What is replayed is part of the history ----------

  /** Sequence numbers tell entries apart. */
  ghost predicate OneEach(es: set<Entry>) {
    forall x, y :: x in es && y in es && x.key.seqno == y.key.seqno ==> x == y
  }

  lemma {:induction false} GroupsAreUnique(groups: seq<Group>, first: nat)
    requires Consecutive(groups, first)
    ensures OneEach(GroupEntries(groups))
    decreases |groups|
  {
    if groups == [] {
      NoLogIsEmpty();
    } else {
      var g, next := groups[0], first + |groups[0].ops|;
      GroupsAreUnique(groups[1..], next);
      assert groups == [g] + groups[1..];
      GroupEntriesAppend([g], groups[1..]);
      OneGroupEntries(g);
      GroupEntriesIn(groups[1..], next);
      OneGroupFollows(g, first);
      GroupEntriesIn([g], first);
      RowsAreUnique(g);
      hide RowEntries, GroupEntries;
      OneEachJoins(GroupEntries([g]), GroupEntries(groups[1..]), next);
    }
  }

  lemma RowsAreUnique(g: Group)
    ensures OneEach(RowEntries(GroupRows(g)))
  {
    var rows := GroupRows(g);
    assert forall i :: 0 <= i < |rows| ==> rows[i].seqno == g.seqno + i;
    hide GroupRows;
    RowsTell(rows, g.seqno);
  }

  lemma RowsTell(rows: seq<WriteBatch.Row>, first: nat)
    requires forall i :: 0 <= i < |rows| ==> rows[i].seqno == first + i
    ensures OneEach(RowEntries(rows))
  {
    forall x, y | x in RowEntries(rows) && y in RowEntries(rows) && x.key.seqno == y.key.seqno
      ensures x == y
    {
      var a :| a in rows && EntryOf(a) == x;
      var b :| b in rows && EntryOf(b) == y;
      var i :| 0 <= i < |rows| && rows[i] == a;
      var j :| 0 <= j < |rows| && rows[j] == b;
      assert i == j;
    }
  }

  lemma OneEachJoins(a: set<Entry>, b: set<Entry>, next: nat)
    requires OneEach(a) && OneEach(b) && Before(a, next) && From(b, next)
    ensures OneEach(a + b)
  {
  }

  lemma {:induction false} KeptIsLogged(c: LogFormat.Scheme, logs: seq<LogFile>, left: seq<(nat, Bytes)>)
    requires |logs| == |left|
    ensures GroupEntries(KeptGroups(c, logs, left)) <= LogEntries(logs)
    decreases |logs|
  {
    if logs == [] {
      NoLogIsEmpty();
    } else {
      hide Complete, RowEntries, FlatMap, GroupEntries;
      KeptIsLogged(c, logs[1..], left[1..]);
      var m := Complete(c, 0, Map(GroupRep, logs[0].groups), |left[0].1|);
      GroupEntriesAppend(Kept(c, logs[0], left[0].1), KeptGroups(c, logs[1..], left[1..]));
      assert logs[0].groups == logs[0].groups[..m] + logs[0].groups[m..];
      GroupEntriesAppend(logs[0].groups[..m], logs[0].groups[m..]);
      FirstLogEntries(logs);
    }
  }

  lemma FirstLogEntries(logs: seq<LogFile>)
    requires logs != []
    ensures LogEntries(logs) == GroupEntries(logs[0].groups) + LogEntries(logs[1..])
  {
    GroupEntriesAppend(logs[0].groups, GroupsOf(logs[1..]));
  }

  // ---------- The answers ----------

  /** What is read when everything is visible does not depend on the snapshot. */
  lemma AgreeAbove(a: set<Entry>, b: set<Entry>, user: UserKey, s1: nat, s2: nat)
    requires Before(a, s1 + 1) && Before(b, s1 + 1) && Before(a, s2 + 1) && Before(b, s2 + 1)
    requires Agree(a, b, user, s1)
    ensures Agree(a, b, user, s2)
  {
    forall r1, r2 | Reads(a, user, s2, r1) && Reads(b, user, s2, r2)
      ensures r1.Answer() == r2.Answer()
    {
      ReadAbove(a, user, s1, s2, r1);
      ReadAbove(b, user, s1, s2, r2);
    }
  }

  lemma ReadAbove(es: set<Entry>, user: UserKey, s1: nat, s2: nat, r: Lookup)
    requires Before(es, s1 + 1) && Before(es, s2 + 1) && Reads(es, user, s2, r)
    ensures Reads(es, user, s1, r)
  {
    if !r.Missing? {
      var e :| IsNewest(es, user, s2, e) && r == LookupOf(e);
      assert IsNewest(es, user, s1, e);
    }
  }

  /** The logs needed beside the version are replayed, each as far as it is left. */
  lemma NeededLogsAreReplayed(c: LogFormat.Scheme, paranoid: bool, db: State, logs: seq<LogFile>, v: Installed, gone: nat, disk: Disk)
    requires c.Sound() && LogsOk(db, logs) && VersionOk(logs, v) && gone <= v.flushed && LogsLeft(c, logs[gone..], disk.logs)
    ensures |disk.logs| == |logs| - gone
    ensures Adds(ReplayFrom(c, paranoid, disk, v), Replayed([], 0, true),
                 KeptGroups(c, logs[v.flushed..], disk.logs[v.flushed - gone..]), NextOf(logs[..v.flushed]))
  {
    hide LogsOk, VersionOk, LogsLeft, ReplayLogs, EmitAll, Complete, Adds, Consecutive, GroupsOf, KeptGroups, NextOf;
    FlushedBelow(logs, v);
    var n, needed, first := v.flushed - gone, logs[v.flushed..], NextOf(logs[..v.flushed]);
    FlushedNumbers(c, db, logs, v, gone, disk);
    FlushedLogsAreSkipped(c, disk.logs, n, v.logNumber, 0, paranoid, Replayed([], 0, true));
    NeededLogs(c, logs, v, gone, disk);
    NeededFollow(db, logs, v);
    var left := disk.logs[n..];
    LogsAreReplayed(c, needed, left, first, v.logNumber, 0, paranoid, Replayed([], 0, true));
  }

  lemma NeededFollow(db: State, logs: seq<LogFile>, v: Installed)
    requires LogsOk(db, logs) && VersionOk(logs, v)
    ensures Consecutive(GroupsOf(logs[v.flushed..]), NextOf(logs[..v.flushed])) && NextOf(logs[..v.flushed]) > 0
  {
    hide VersionOk, FlatMap;
    FlushedBelow(logs, v);
    LogsSplit(logs, v.flushed);
    NextOfPositive(logs[..v.flushed]);
  }

  lemma NextOfPositive(logs: seq<LogFile>)
    ensures NextOf(logs) > 0
  {
    NextGrows(GroupsOf(logs), 1);
  }

  lemma FlushedNumbers(c: LogFormat.Scheme, db: State, logs: seq<LogFile>, v: Installed, gone: nat, disk: Disk)
    requires LogsOk(db, logs) && VersionOk(logs, v) && gone <= v.flushed && LogsLeft(c, logs[gone..], disk.logs)
    ensures |disk.logs| == |logs| - gone
    ensures forall i :: 0 <= i < v.flushed - gone ==> disk.logs[i].0 < v.logNumber && disk.logs[i].0 != 0
  {
    hide EmitAll, AnswersAs, Before, LogEntries, NextOf;
    forall i | 0 <= i < v.flushed - gone
      ensures disk.logs[i].0 < v.logNumber && disk.logs[i].0 != 0
    {
      assert disk.logs[i].0 == logs[gone..][i].number == logs[gone + i].number;
    }
  }

  lemma NeededLogs(c: LogFormat.Scheme, logs: seq<LogFile>, v: Installed, gone: nat, disk: Disk)
    requires VersionOk(logs, v) && gone <= v.flushed && LogsLeft(c, logs[gone..], disk.logs)
    ensures LogsLeft(c, logs[v.flushed..], disk.logs[v.flushed - gone..])
    ensures forall i :: 0 <= i < |logs[v.flushed..]| ==> v.logNumber <= logs[v.flushed..][i].number
  {
    hide EmitAll;
    forall i | 0 <= i < |logs| - v.flushed
      ensures logs[v.flushed..][i] == logs[gone..][v.flushed - gone + i]
    {
    }
  }

  /** The opened database answers as what survives does. */
  ghost predicate AnswersSurvivors(c: LogFormat.Scheme, logs: seq<LogFile>, v: Installed, gone: nat, disk: Disk, r: State) {
    && gone <= v.flushed <= |logs| && |disk.logs| == |logs| - gone
    && forall user, snapshot :: snapshot >= r.lastSequence ==> Agree(Survivors(c, logs, v, gone, disk), Data(r), user, snapshot)
  }

  lemma OpenedAnswers(c: LogFormat.Scheme, paranoid: bool, db: State, logs: seq<LogFile>, v: Installed, gone: nat, disk: Disk, r: State)
    requires c.Sound() && LogsOk(db, logs) && VersionOk(logs, v) && db.lastSequence < MAX_SEQUENCE
    requires gone <= v.flushed && LogsLeft(c, logs[gone..], disk.logs) && OpenedFrom(c, paranoid, disk, v, r)
    ensures AnswersSurvivors(c, logs, v, gone, disk, r)
  {
    var p := v.flushed;
    hide LogsOk, VersionOk, LogsLeft, Adds, KeptGroups, LogEntries, GroupEntries, AllEntries, Data, RowEntries, ReplayFrom,
      Consecutive, NextOf, AnswersAs, From, OneEach, Agree;
    VersionFacts(db, logs, v);
    NeededLogsAreReplayed(c, paranoid, db, logs, v, gone, disk);
    var groups := KeptGroups(c, logs[p..], disk.logs[p - gone..]);
    KeptAdded(c, logs, p, disk.logs[p - gone..], ReplayFrom(c, paranoid, disk, v));
    SurvivorsAnswer(LogEntries(logs[..p]), AllEntries(v.levels), GroupEntries(groups), NextOf(logs[..p]), NextOf(logs), r.lastSequence);
  }

  lemma VersionFacts(db: State, logs: seq<LogFile>, v: Installed)
    requires LogsOk(db, logs) && VersionOk(logs, v)
    ensures Consecutive(GroupsOf(logs), 1) && v.flushed <= |logs| && NextOf(logs) == db.lastSequence + 1
    ensures NextOf(logs[..v.flushed]) <= v.lastSequence + 1 && Before(AllEntries(v.levels), NextOf(logs[..v.flushed]))
    ensures AnswersAs(LogEntries(logs[..v.flushed]), AllEntries(v.levels))
  {
  }

  /** What the replay added is part of the history after what is in files. */
  lemma KeptAdded(c: LogFormat.Scheme, logs: seq<LogFile>, p: nat, left: seq<(nat, Bytes)>, r: Replayed)
    requires Consecutive(GroupsOf(logs), 1) && p <= |logs| && |left| == |logs| - p
    requires Adds(r, Replayed([], 0, true), KeptGroups(c, logs[p..], left), NextOf(logs[..p]))
    ensures
      var kept := GroupEntries(KeptGroups(c, logs[p..], left));
      && RowEntries(r.rows) == kept && OneEach(kept) && Before(kept, NextOf(logs)) && Before(kept, r.maxSequence + 1)
      && From(kept, NextOf(logs[..p]))
    ensures Before(LogEntries(logs[..p]), NextOf(logs[..p])) && NextOf(logs[..p]) <= NextOf(logs)
  {
    var groups := KeptGroups(c, logs[p..], left);
    assert [] + FlatMap(GroupRows, groups) == FlatMap(GroupRows, groups);
    hide FlatMap, RowEntries, Complete;
    LogsSplit(logs, p);
    GroupsAreUnique(GroupsOf(logs), 1);
    GroupEntriesIn(GroupsOf(logs), 1);
    NextGrows(GroupsOf(logs[p..]), NextOf(logs[..p]));
    KeptIsLogged(c, logs[p..], left);
  }

  lemma SurvivorsAnswer(earlier: set<Entry>, files: set<Entry>, kept: set<Entry>, next: nat, end: nat, last: nat)
    requires AnswersAs(earlier, files) && Before(earlier, next) && Before(files, next) && From(kept, next)
    requires OneEach(kept) && Before(kept, end) && next <= end <= MAX_SEQUENCE && next <= last + 1 && Before(kept, last + 1)
    ensures forall user, snapshot :: snapshot >= last ==> Agree(earlier + kept, files + kept, user, snapshot)
  {
    NewerKeepsAnswers(earlier, files, kept, next);
    hide Agree;
    forall user, snapshot | snapshot >= last
      ensures Agree(earlier + kept, files + kept, user, snapshot)
    {
      AgreeAbove(earlier + kept, files + kept, user, MAX_SEQUENCE, snapshot);
    }
  }

  /** Of a world that a run from nothing reaches, a crash leaves any prefix of the manifest and of each log. The
      database opened from what is left answers every read at its last sequence number as the history of all writes
      without the commit groups that no longer are in full in their logs. */
  lemma ReopenedAnswers(c: LogFormat.Scheme, names: InternalKeys.Names, tables: Tables, comparator: Bytes, paranoid: bool,
                        w: World, edits: seq<VersionEdit>, records: seq<Bytes>, gone: nat, disk: Disk, r: State)
    returns (v: Installed)
    requires c.Sound() && WorldInv(w) && CrashLeaves(c, names, tables, comparator, w, edits, records, gone, disk)
    requires forall u :: u in w.versions ==> gone <= u.flushed
    requires IsOpened(c, tables, comparator, paranoid, disk, r)
    ensures v in w.versions && AnswersSurvivors(c, w.logs, v, gone, disk, r)
  {
    var k := Complete(c, 0, records, |disk.manifest|);
    assert EditsOf(edits, comparator, w.versions) && LogsLeft(c, w.logs[gone..], disk.logs);
    hide WorldInv, EmitAll, Complete, LogsLeft, Describes, IsOpened, OpenedFrom, LogsOk, VersionOk, EditsIn, AreRecords, EditsOf, AnswersSurvivors;
    CrashLeavesEdits(c, names, tables, edits, records, disk.manifest);
    OpenedIsRecoverable(c, tables, comparator, paranoid, disk, r, edits, w.versions, k);
    v :| v in w.versions && Describes(edits[..k], comparator, v);
    VersionIsOk(w, v);
    OpenedVersion(c, tables, comparator, paranoid, disk, r, edits[..k], v);
    OpenedAnswers(c, paranoid, w.db, w.logs, v, gone, disk, r);
  }

  lemma VersionIsOk(w: World, v: Installed)
    requires WorldInv(w) && v in w.versions
    ensures LogsOk(w.db, w.logs) && VersionOk(w.logs, v) && w.db.lastSequence < MAX_SEQUENCE && v.flushed <= |w.logs|
  {
    hide VersionOk;
    var i :| 0 <= i < |w.versions| && w.versions[i] == v;
    assert VersionOk(w.logs, w.versions[i]);
    FlushedBelow(w.logs, v);
  }

  lemma FlushedBelow(logs: seq<LogFile>, v: Installed)
    requires VersionOk(logs, v)
    ensures v.flushed <= |logs|
  {
  }

  /** So it is at every point of every run from nothing. */
  lemma EveryCrashIsSurvived(c: LogFormat.Scheme, names: InternalKeys.Names, tables: Tables, comparator: Bytes, paranoid: bool,
                             run: seq<World>, steps: seq<WorldStep>, n: nat, edits: seq<VersionEdit>, records: seq<Bytes>,
                             gone: nat, disk: Disk, r: State)
    returns (v: Installed)
    requires c.Sound() && IsWorldRun(run, steps) && n <= |steps|
    requires CrashLeaves(c, names, tables, comparator, run[n], edits, records, gone, disk)
    requires forall u :: u in run[n].versions ==> gone <= u.flushed
    requires IsOpened(c, tables, comparator, paranoid, disk, r)
    ensures v in run[n].versions && AnswersSurvivors(c, run[n].logs, v, gone, disk, r)
  {
    assert |run| == |steps| + 1;
    hide IsWorldRun, CrashLeaves, IsOpened, WorldInv, AnswersSurvivors;
    WorldRunKeepsInv(run, steps, n);
    v := ReopenedAnswers(c, names, tables, comparator, paranoid, run[n], edits, records, gone, disk, r);
  }

  // ---------- Logs that are whole ----------

  ghost predicate WholeBut(c: LogFormat.Scheme, logs: seq<LogFile>, left: seq<(nat, Bytes)>, n: nat)
    requires |left| == |logs|
  {
    forall i :: 0 <= i < |logs| && i < n ==> left[i].1 == EmitAll(c, 0, Map(GroupRep, logs[i].groups))
  }

  /** If all logs but the last are whole, what is kept is the first so many groups. */
  lemma {:induction false} KeptIsPrefix(c: LogFormat.Scheme, logs: seq<LogFile>, left: seq<(nat, Bytes)>)
    requires logs != [] && |left| == |logs| && WholeBut(c, logs, left, |logs| - 1)
    ensures KeptGroups(c, logs, left) <= GroupsOf(logs)
    decreases |logs|
  {
    hide Complete, EmitAll;
    if |logs| == 1 {
      assert logs[1..] == [] && KeptGroups(c, logs[1..], left[1..]) == [];
      assert Kept(c, logs[0], left[0].1) + [] == Kept(c, logs[0], left[0].1);
      assert logs[0].groups + [] == logs[0].groups;
    } else {
      WholeIsKept(c, logs[0]);
      assert WholeBut(c, logs[1..], left[1..], |logs| - 2);
      KeptIsPrefix(c, logs[1..], left[1..]);
    }
  }

  lemma WholeIsKept(c: LogFormat.Scheme, log: LogFile)
    ensures Kept(c, log, EmitAll(c, 0, Map(GroupRep, log.groups))) == log.groups
  {
    AllComplete(c, 0, Map(GroupRep, log.groups));
    assert log.groups[..|log.groups|] == log.groups;
  }

  /** Then what survives is the history up to some sequence number: no write is lost but the last ones. */
  lemma SurvivorsArePrefix(c: LogFormat.Scheme, logs: seq<LogFile>, v: Installed, gone: nat, disk: Disk) returns (last: nat)
    requires Consecutive(GroupsOf(logs), 1) && gone <= v.flushed < |logs| && |disk.logs| == |logs| - gone
    requires WholeBut(c, logs[v.flushed..], disk.logs[v.flushed - gone..], |logs| - v.flushed - 1)
    ensures Survivors(c, logs, v, gone, disk) == UpTo(LogEntries(logs), last)
    ensures NextOf(logs[..v.flushed]) <= last + 1
  {
    hide EmitAll, Complete, FlatMap, RowEntries, KeptGroups, GroupEntries, UpTo, Consecutive, NextOf, NextSequence, GroupsOf;
    var p, needed, left := v.flushed, logs[v.flushed..], disk.logs[v.flushed - gone..];
    KeptIsPrefix(c, needed, left);
    LogsSplit(logs, p);
    NextOfPositive(logs[..p]);
    last := PrefixSurvives(LogEntries(logs[..p]), KeptGroups(c, needed, left), GroupsOf(needed), NextOf(logs[..p]));
  }

  lemma PrefixSurvives(files: set<Entry>, kept: seq<Group>, groups: seq<Group>, first: nat) returns (last: nat)
    requires Consecutive(groups, first) && first > 0 && kept <= groups && Before(files, first)
    ensures files + GroupEntries(kept) == UpTo(files + GroupEntries(groups), last) && first <= last + 1
  {
    hide RowEntries, FlatMap, UpTo;
    assert kept == groups[..|kept|];
    last := NextSequence(kept, first) - 1;
    SurvivingData(files, groups, first, |kept|);
  }
}
