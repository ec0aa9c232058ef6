/** Replaying a write-ahead log after a crash (db/db_impl.cc, RecoverLogFile). */
module Recovery {
  import opened Wrappers
  import opened WriteBatch
  import opened LogSafety
  import Coding
  import LogFormat
  import LogReader

  /** What a replay has done: the rows added to memtables, the largest sequence number seen, and
      whether it may go on. */
  datatype Replayed = Replayed(rows: seq<Row>, maxSequence: nat, ok: bool)

  /** The last sequence number of a batch, as 64-bit arithmetic has it. */
  function LastSequence(record: Bytes): nat
    requires |record| >= WriteBatch.HEADER
  {
    (Sequence(record) + Count(record) - 1) % Coding.TWO_64
  }

  /** What one record does: a short one is reported and skipped, a malformed one stops the
      replay only under paranoid checks. */
  function ReplayRecord(record: Bytes, paranoid: bool, sofar: Replayed): Replayed {
    if |record| < WriteBatch.HEADER then sofar.(ok := !paranoid)
    else
      var contents := Contents(record);
      var added := sofar.(rows := sofar.rows + Rows(Sequence(record), contents.0));
      if !contents.1.Ok? && paranoid then added.(ok := false)
      else if LastSequence(record) > sofar.maxSequence then added.(maxSequence := LastSequence(record))
      else added
  }

  /** The replay of a whole log, record by record. Under paranoid checks a corruption report
      stops it. */
  function ReplayWith(step: (Bytes, Replayed) -> Replayed, items: seq<Item>, paranoid: bool, sofar: Replayed): Replayed
    decreases |items|
  {
    if !sofar.ok then sofar
    else
      var rec := ReadRecord(items, None);
      if paranoid && rec.reports > 0 then sofar.(ok := false)
      else if rec.record.None? then sofar
      else ReplayWith(step, rec.rest, paranoid, step(rec.record.value, sofar))
  }

  function Replay(items: seq<Item>, paranoid: bool, sofar: Replayed): Replayed {
    ReplayWith((record, r) => ReplayRecord(record, paranoid, r), items, paranoid, sofar)
  }

  function Flat(tables: seq<seq<Row>>): seq<Row> {
    FlatMap((table: seq<Row>) => table, tables)
  }

  /** InsertInto and what follows it, for one record. */
  method InsertRecord(record: Bytes, paranoid: bool, sofar: Replayed) returns (r: Replayed, rows: seq<Row>)
    requires sofar.ok
    ensures r == ReplayRecord(record, paranoid, sofar) && r.rows == sofar.rows + rows
  {
    if |record| < WriteBatch.HEADER {
      return sofar.(ok := !paranoid), [];
    }
    var batch := new Batch();
    batch.SetContents(record);
    var ops, status := batch.Iterate();
    rows := Rows(Sequence(record), ops);
    r := sofar.(rows := sofar.rows + rows);
    if !status.Ok? && paranoid {
      r := r.(ok := false);
    } else {
      var last := LastSequence(record);
      if last > r.maxSequence {
        r := r.(maxSequence := last);
      }
    }
  }

  /** One turn of RecoverLogFile's loop: read a record and insert it. */
  method RecoverRecord(reader: LogReader.Reader, paranoid: bool, ghost step: (Bytes, Replayed) -> Replayed, sofar: Replayed)
    returns (r: Replayed, rows: seq<Row>, done: bool)
    requires reader.Valid() && sofar.ok && step == ((record, r) => ReplayRecord(record, paranoid, r))
    modifies reader
    ensures reader.Valid() && r.rows == sofar.rows + rows
    ensures ReplayWith(step, old(reader.pending), paranoid, sofar)
         == if done then r else ReplayWith(step, reader.pending, paranoid, r)
    ensures !done ==> |reader.pending| < |old(reader.pending)|
  {
    r, rows, done := sofar, [], true;
    var reported := reader.reports;
    var record := reader.ReadRecord();
    if paranoid && reader.reports > reported {
      r := r.(ok := false);
    } else if record.Some? {
      r, rows := InsertRecord(record.value, paranoid, sofar);
      assert r == step(record.value, sofar);
      done := false;
    }
  }

  /** RecoverLogFile. Memtables that grow too large become level-0 tables; the last one does so
      too, unless the log is reused. */
  method RecoverLogFile(reader: LogReader.Reader, paranoid: bool, maxSequence: nat, reuse: bool)
    returns (r: Replayed, tables: seq<seq<Row>>, mem: seq<Row>)
    requires reader.Valid()
    modifies reader
    ensures r == Replay(old(reader.pending), paranoid, Replayed([], maxSequence, true))
    ensures r.ok ==> Flat(tables) + mem == r.rows
    ensures mem != [] ==> reuse && tables == []
  {
    hide ReadRecord, ReplayRecord;
    ghost var step := (record, sofar) => ReplayRecord(record, paranoid, sofar);
    r, tables, mem := Replayed([], maxSequence, true), [], [];
    var done := false;
    while r.ok && !done
      invariant reader.Valid()
      invariant ReplayWith(step, old(reader.pending), paranoid, Replayed([], maxSequence, true))
             == if done then r else ReplayWith(step, reader.pending, paranoid, r)
      invariant r.ok ==> Flat(tables) + mem == r.rows
      decreases r.ok, !done, |reader.pending|
    {
      var rows;
      r, rows, done := RecoverRecord(reader, paranoid, step, r);
      assert Flat(tables) + (mem + rows) == Flat(tables) + mem + rows;
      mem := mem + rows;
      var full: bool := *;
      if r.ok && full {
        tables, mem := WriteTable(tables, mem), [];
      }
    }
    if !r.ok {
      mem := [];
    } else if !(reuse && tables == []) && mem != [] {
      tables, mem := WriteTable(tables, mem), [];
    }
  }

  /** WriteLevel0Table: the memtable becomes one more table. */
  function WriteTable(tables: seq<seq<Row>>, mem: seq<Row>): (r: seq<seq<Row>>)
    ensures Flat(r) == Flat(tables) + mem && r != []
  {
    FlatMapOne((table: seq<Row>) => table, tables, mem);
    tables + [mem]
  }

  // ---------- What a crash leaves of the commit groups ----------

  /** A commit group: the merged batch that one leader logged. */
  datatype Group = Group(seqno: nat, ops: seq<Op>) {
    ghost predicate Fits() {
      seqno + |ops| < Coding.TWO_64 && |ops| < 0x8000_0000 && AllFit(ops)
    }

    function Last(): int { seqno + |ops| - 1 }
  }

  /** Groups that take consecutive sequence numbers from `first` on. */
  ghost predicate Consecutive(groups: seq<Group>, first: nat) {
    groups != [] ==> groups[0].Fits() && groups[0].seqno == first && Consecutive(groups[1..], first + |groups[0].ops|)
  }

  function GroupRep(g: Group): Bytes {
    Rep(g.seqno, g.ops)
  }

  function GroupRows(g: Group): seq<Row> {
    Rows(g.seqno, g.ops)
  }

  lemma MapPrefix<S, T>(f: S -> T, xs: seq<S>, k: nat)
    requires k <= |xs|
    ensures Map(f, xs)[..k] == Map(f, xs[..k])
  {
  }

  function ReplayRecords(step: (Bytes, Replayed) -> Replayed, records: seq<Bytes>, sofar: Replayed): Replayed {
    if records == [] || !sofar.ok then sofar
    else ReplayRecords(step, records[1..], step(records[0], sofar))
  }

  /** Without a corruption report, a replay is the replay of the records read. */
  lemma {:induction false} ReplayIsOfRecords(step: (Bytes, Replayed) -> Replayed, items: seq<Item>, paranoid: bool, sofar: Replayed)
    requires ReadAll(items).1 == 0
    ensures ReplayWith(step, items, paranoid, sofar) == ReplayRecords(step, ReadAll(items).0, sofar)
    decreases |items|
  {
    var rec := ReadRecord(items, None);
    if sofar.ok && rec.record.Some? {
      var records := ReadAll(items).0;
      assert records == [rec.record.value] + ReadAll(rec.rest).0;
      assert records[1..] == ReadAll(rec.rest).0;
      ReplayIsOfRecords(step, rec.rest, paranoid, step(rec.record.value, sofar));
    }
  }

  /** Without paranoid checks, damage does not stop a replay: it is that of the records that are read. */
  lemma {:induction false} ReplayPassesDamage(step: (Bytes, Replayed) -> Replayed, items: seq<Item>, sofar: Replayed)
    ensures ReplayWith(step, items, false, sofar) == ReplayRecords(step, ReadAll(items).0, sofar)
    decreases |items|
  {
    var rec := ReadRecord(items, None);
    if sofar.ok && rec.record.Some? {
      assert ReadAll(items).0 == [rec.record.value] + ReadAll(rec.rest).0;
      assert ReadAll(items).0[1..] == ReadAll(rec.rest).0;
      ReplayPassesDamage(step, rec.rest, step(rec.record.value, sofar));
    }
  }

  /** Under paranoid checks it makes the recovery fail. */
  lemma {:induction false} DamageFailsParanoid(step: (Bytes, Replayed) -> Replayed, items: seq<Item>, sofar: Replayed)
    requires ReadAll(items).1 > 0
    ensures !ReplayWith(step, items, true, sofar).ok
    decreases |items|
  {
    var rec := ReadRecord(items, None);
    if sofar.ok && rec.reports == 0 {
      DamageFailsParanoid(step, rec.rest, step(rec.record.value, sofar));
    }
  }

  /** A log with the groups `before`, a damaged header, and the groups `after` from the next block on: without paranoid
      checks exactly these groups are restored, and with them the recovery fails. */
  lemma RecoveryPassesDamage(c: LogFormat.Scheme, f: Bytes, before: seq<Group>, after: seq<Group>, base: nat, off: nat,
                             first: nat, sofar: Replayed)
    requires c.Sound() && Consecutive(before + after, first) && sofar.ok && sofar.maxSequence < first
    requires
      var e := EmitAll(c, 0, Map(GroupRep, before));
      && LogFormat.Holds(f, 0, e) && base % LogFormat.BLOCK == 0
      && base + off == |e| + LogFormat.Skip(|e| % LogFormat.BLOCK) && DamagedAt(c, f, base, off)
    requires EndsWithin(f, base + LogFormat.BLOCK, EmitAll(c, 0, Map(GroupRep, after)))
    ensures
      var items := Items(c, f, LogFormat.Pos(0, 0));
      var n := Complete(c, 0, Map(GroupRep, after), |f| - base - LogFormat.BLOCK);
      && RestoredExactly(Replay(items, false, sofar), sofar, before + after[..n])
      && !Replay(items, true, sofar).ok
  {
    assert base + LogFormat.BLOCK <= |f|;
    hide ReplayRecord, RestoredExactly, Items, ReadAll, DamagedAt, Complete, EndsWithin, EmitAll;
    var items := Items(c, f, LogFormat.Pos(0, 0));
    var n := Complete(c, 0, Map(GroupRep, after), |f| - base - LogFormat.BLOCK);
    DamageCostsOneBlock(c, f, Map(GroupRep, before), Map(GroupRep, after), base, off);
    GroupsLeft(GroupRep, before, after, n, first);
    hide Map, Consecutive;
    RecordsAreRestored(items, before + after[..n], first, sofar);
    DamageFailsParanoid((record, r) => ReplayRecord(record, true, r), items, sofar);
  }

  lemma GroupsLeft(rep: Group -> Bytes, before: seq<Group>, after: seq<Group>, n: nat, first: nat)
    requires Consecutive(before + after, first) && n <= |after|
    ensures Consecutive(before + after[..n], first)
    ensures Map(rep, before + after[..n]) == Map(rep, before) + Map(rep, after)[..n]
  {
    hide Map, Consecutive;
    assert (before + after)[..|before| + n] == before + after[..n];
    ConsecutivePrefix(before + after, first, |before| + n);
    MapPrefix(rep, after, n);
    MapAppend(rep, before, after[..n]);
  }

  lemma MapAppend<S, T>(f: S -> T, xs: seq<S>, ys: seq<S>)
    ensures Map(f, xs + ys) == Map(f, xs) + Map(f, ys)
  {
  }

  /** Whatever else is in the log, the groups that are read are restored. */
  lemma RecordsAreRestored(items: seq<Item>, groups: seq<Group>, first: nat, sofar: Replayed)
    requires Consecutive(groups, first) && sofar.ok && sofar.maxSequence < first
    requires ReadAll(items).0 == Map(GroupRep, groups)
    ensures RestoredExactly(Replay(items, false, sofar), sofar, groups)
  {
    hide RestoredExactly, ReadAll;
    var step := (record, r) => ReplayRecord(record, false, r);
    forall g | g in groups
      ensures Restores(step, GroupRep, g)
    {
      ConsecutiveFit(groups, first, g);
      GroupIsRestored(g, false);
    }
    ReplayPassesDamage(step, items, sofar);
    ReplayGroups(step, GroupRep, groups, first, sofar);
  }

  /** Replaying one group's record adds its rows and its last sequence number. */
  ghost predicate Restores(step: (Bytes, Replayed) -> Replayed, rep: Group -> Bytes, g: Group) {
    forall sofar: Replayed | sofar.ok && sofar.maxSequence < g.seqno ::
      step(rep(g), sofar) == Replayed(sofar.rows + GroupRows(g), g.Last(), true)
  }

  lemma WellFormedRecord(record: Bytes, seqno: nat, ops: seq<Op>, paranoid: bool, sofar: Replayed)
    requires |record| >= WriteBatch.HEADER && Contents(record) == (ops, Ok)
    requires Sequence(record) == seqno && Count(record) == |ops| && seqno + |ops| < Coding.TWO_64
    requires sofar.ok && sofar.maxSequence < seqno
    ensures ReplayRecord(record, paranoid, sofar) == Replayed(sofar.rows + Rows(seqno, ops), seqno + |ops| - 1, true)
  {
  }

  lemma GroupIsRestored(g: Group, paranoid: bool)
    requires g.Fits()
    ensures Restores((record, r) => ReplayRecord(record, paranoid, r), GroupRep, g)
  {
    forall sofar: Replayed | sofar.ok && sofar.maxSequence < g.seqno
      ensures ReplayRecord(GroupRep(g), paranoid, sofar) == Replayed(sofar.rows + GroupRows(g), g.Last(), true)
    {
      HeaderRoundTrip(g.seqno, g.ops);
      BatchRoundTrip(g.seqno, g.ops);
      WellFormedRecord(GroupRep(g), g.seqno, g.ops, paranoid, sofar);
    }
  }

  /** All of `groups`, and nothing else, has been restored. */
  ghost predicate RestoredExactly(r: Replayed, sofar: Replayed, groups: seq<Group>) {
    && r.rows == sofar.rows + FlatMap(GroupRows, groups)
    && r.maxSequence == (if groups == [] then sofar.maxSequence else groups[|groups| - 1].Last())
    && r.ok
  }

  lemma {:induction false} ReplayGroups(step: (Bytes, Replayed) -> Replayed, rep: Group -> Bytes,
                                        groups: seq<Group>, first: nat, sofar: Replayed)
    requires Consecutive(groups, first) && sofar.ok && sofar.maxSequence < first
    requires forall g :: g in groups ==> Restores(step, rep, g)
    ensures RestoredExactly(ReplayRecords(step, Map(rep, groups), sofar), sofar, groups)
    decreases |groups|
  {
    if groups == [] {
      assert sofar.rows + [] == sofar.rows;
    } else {
      hide RestoredExactly, GroupRows, ReplayRecords;
      var g := groups[0];
      var next := Replayed(sofar.rows + GroupRows(g), g.Last(), true);
      FirstIsRestored(step, rep, g, sofar);
      hide Restores;
      ReplayFirst(step, rep, groups, sofar);
      ReplayGroups(step, rep, groups[1..], first + |g.ops|, next);
      RestoredFirst(ReplayRecords(step, Map(rep, groups[1..]), next), sofar, groups);
    }
  }

  lemma FirstIsRestored(step: (Bytes, Replayed) -> Replayed, rep: Group -> Bytes, g: Group, sofar: Replayed)
    requires Restores(step, rep, g) && sofar.ok && sofar.maxSequence < g.seqno
    ensures step(rep(g), sofar) == Replayed(sofar.rows + GroupRows(g), g.Last(), true)
  {
    hide GroupRows;
  }

  lemma ReplayFirst(step: (Bytes, Replayed) -> Replayed, rep: Group -> Bytes, groups: seq<Group>, sofar: Replayed)
    requires groups != [] && sofar.ok
    ensures ReplayRecords(step, Map(rep, groups), sofar) == ReplayRecords(step, Map(rep, groups[1..]), step(rep(groups[0]), sofar))
  {
    assert Map(rep, groups)[1..] == Map(rep, groups[1..]);
  }

  /** The first group and then the rest are all groups. */
  lemma RestoredFirst(r: Replayed, sofar: Replayed, groups: seq<Group>)
    requires groups != [] && groups[0].Last() >= 0
    requires RestoredExactly(r, Replayed(sofar.rows + GroupRows(groups[0]), groups[0].Last(), true), groups[1..])
    ensures RestoredExactly(r, sofar, groups)
  {
    hide GroupRows;
    var rest := FlatMap(GroupRows, groups[1..]);
    assert sofar.rows + GroupRows(groups[0]) + rest == sofar.rows + (GroupRows(groups[0]) + rest);
  }

  lemma {:induction false} ConsecutivePrefix(groups: seq<Group>, first: nat, k: nat)
    requires Consecutive(groups, first) && k <= |groups|
    ensures Consecutive(groups[..k], first)
    decreases k
  {
    if k > 0 {
      ConsecutivePrefix(groups[1..], first + |groups[0].ops|, k - 1);
      assert groups[..k][1..] == groups[1..][..k - 1];
    }
  }

  lemma {:induction false} ConsecutiveFit(groups: seq<Group>, first: nat, g: Group)
    requires Consecutive(groups, first) && g in groups
    ensures g.Fits()
    decreases |groups|
  {
    if g != groups[0] {
      ConsecutiveFit(groups[1..], first + |groups[0].ops|, g);
    }
  }

  /** The replay of a prefix of a log, for any way of encoding and replaying groups that fit
      together. */
  lemma ReplayOfPrefix(c: LogFormat.Scheme, step: (Bytes, Replayed) -> Replayed, rep: Group -> Bytes, f: Bytes,
                       groups: seq<Group>, first: nat, paranoid: bool, sofar: Replayed)
    requires c.Sound() && Consecutive(groups, first) && sofar.ok && sofar.maxSequence < first
    requires forall g :: g in groups ==> Restores(step, rep, g)
    requires f <= EmitAll(c, 0, Map(rep, groups))
    ensures RestoredExactly(ReplayWith(step, Items(c, f, LogFormat.Pos(0, 0)), paranoid, sofar),
                            sofar, groups[..Complete(c, 0, Map(rep, groups), |f|)])
  {
    var k, items := Complete(c, 0, Map(rep, groups), |f|), Items(c, f, LogFormat.Pos(0, 0));
    assert ReadAll(items) == (Map(rep, groups[..k]), 0) by {
      LogCrashTolerance(c, f, Map(rep, groups));
      MapPrefix(rep, groups, k);
    }
    ReplayIsOfRecords(step, items, paranoid, sofar);
    ConsecutivePrefix(groups, first, k);
    ReplayGroups(step, rep, groups[..k], first, sofar);
  }

  /** Crash-atomic recovery: replaying any prefix of a write-ahead log restores exactly the
      commit groups wholly inside the prefix, each with its original sequence numbers, after what
      earlier logs gave, and ends with the last sequence number of the last one restored. */
  lemma CrashAtomicRecovery(c: LogFormat.Scheme, f: Bytes, groups: seq<Group>, first: nat, paranoid: bool, sofar: Replayed)
    requires c.Sound() && Consecutive(groups, first) && sofar.ok && sofar.maxSequence < first
    requires f <= EmitAll(c, 0, Map(GroupRep, groups))
    ensures RestoredExactly(Replay(Items(c, f, LogFormat.Pos(0, 0)), paranoid, sofar),
                            sofar, groups[..Complete(c, 0, Map(GroupRep, groups), |f|)])
  {
    var step := (record, r) => ReplayRecord(record, paranoid, r);
    forall g | g in groups
      ensures Restores(step, GroupRep, g)
    {
      ConsecutiveFit(groups, first, g);
      GroupIsRestored(g, paranoid);
    }
    ReplayOfPrefix(c, step, GroupRep, f, groups, first, paranoid, sofar);
  }
}
