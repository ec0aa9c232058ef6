/** Group commit: the queue of writers and the leader that commits for a prefix of it
    (DBImpl::Write and BuildBatchGroup in db/db_impl.cc). */
module GroupCommit {
  import opened Wrappers
  import opened WriteBatch
  import Recovery

  /** A writer waiting in the queue; one without a batch only forces a memtable switch. `repSize` is
      the size of its batch's representation. */
  datatype Writer = Writer(batch: Option<seq<Op>>, repSize: nat, sync: bool) {
    function Ops(): seq<Op> { if batch.Some? then batch.value else [] }

    /** WriteBatchInternal::ByteSize. */
    function ByteSize(): nat { if batch.Some? then repSize else 0 }
  }

  // ---------- BuildBatchGroup ----------

  function OpsOf(w: Writer): seq<Op> { w.Ops() }

  /** The updates of the writers, one batch after the other. */
  function Merged(writers: seq<Writer>): seq<Op> {
    FlatMap(OpsOf, writers)
  }

  function TotalSize(writers: seq<Writer>): nat {
    if writers == [] then 0 else TotalSize(writers[..|writers| - 1]) + writers[|writers| - 1].ByteSize()
  }

  /** A small first batch limits how far the group may grow. */
  function MaxSize(first: Writer): nat {
    if first.ByteSize() <= 0x2_0000 then first.ByteSize() + 0x2_0000 else 0x10_0000
  }

  /** May the writer at `i` join the group of all writers before it? */
  predicate Joins(queue: seq<Writer>, i: nat)
    requires 0 < i < |queue|
  {
    && (queue[i].sync ==> queue[0].sync)
    && (queue[i].batch.Some? ==> TotalSize(queue[..i + 1]) <= MaxSize(queue[0]))
  }

  /** The group is the longest prefix of the queue all of whose writers may join. */
  ghost predicate IsGroup(queue: seq<Writer>, n: nat) {
    && 0 < n <= |queue|
    && (forall i :: 0 < i < n ==> Joins(queue, i))
    && (n < |queue| ==> !Joins(queue, n))
  }

  lemma GroupIsUnique(queue: seq<Writer>, m: nat, n: nat)
    requires IsGroup(queue, m) && IsGroup(queue, n)
    ensures m == n
  {
  }

  /** How large a group gets: at most a megabyte, and at most 128 kilobytes more than a first batch that is no larger;
      and why it ends where it does. */
  lemma GroupSize(queue: seq<Writer>, n: nat)
    requires IsGroup(queue, n) && queue[0].batch.Some?
    ensures n > 1 && (exists i :: 0 < i < n && queue[i].batch.Some?) ==>
      TotalSize(queue[..n]) <= if queue[0].repSize <= 131072 then queue[0].repSize + 131072 else 1048576
    ensures !queue[0].sync ==> forall i :: 0 <= i < n ==> !queue[i].sync
    ensures n < |queue| ==>
      || (queue[n].sync && !queue[0].sync)
      || (&& queue[n].batch.Some?
          && TotalSize(queue[..n]) + queue[n].repSize
             > if queue[0].repSize <= 131072 then queue[0].repSize + 131072 else 1048576)
  {
    forall i | 0 < i < n
      ensures queue[i].sync ==> queue[0].sync
    {
      assert Joins(queue, i);
    }
    if n < |queue| {
      TakeNext(queue, n);
      assert !Joins(queue, n);
    }
    if i :| 0 < i < n && queue[i].batch.Some? {
      assert Joins(queue, i);
      SizeSettles(queue, i + 1, n);
    }
  }

  /** Writers without a batch add nothing, so the last one with a batch decides. */
  lemma {:induction false} SizeSettles(queue: seq<Writer>, i: nat, n: nat)
    requires 1 < i <= n <= |queue| && forall k :: 0 < k < n ==> Joins(queue, k)
    requires TotalSize(queue[..i]) <= MaxSize(queue[0])
    ensures TotalSize(queue[..n]) <= MaxSize(queue[0])
    decreases n - i
  {
    if i < n {
      TakeNext(queue, i);
      assert Joins(queue, i);
      SizeSettles(queue, i + 1, n);
    }
  }

  lemma TakeNext(queue: seq<Writer>, n: nat)
    requires n < |queue|
    ensures TotalSize(queue[..n + 1]) == TotalSize(queue[..n]) + queue[n].ByteSize()
    ensures Merged(queue[..n + 1]) == Merged(queue[..n]) + queue[n].Ops()
    ensures n == 0 ==> TotalSize(queue[..n]) == 0 && Merged(queue[..n]) == []
  {
    assert queue[..n + 1][..n] == queue[..n] && queue[..n + 1] == queue[..n] + [queue[n]];
    FlatMapOne(OpsOf, queue[..n], queue[n]);
  }

  method BuildBatchGroup(queue: seq<Writer>) returns (n: nat, result: seq<Op>)
    requires queue != [] && queue[0].batch.Some?
    ensures IsGroup(queue, n) && result == Merged(queue[..n])
  {
    var first := queue[0];
    result := first.batch.value;
    var size := first.ByteSize();
    var maxSize := 0x10_0000;
    if size <= 0x2_0000 {
      maxSize := size + 0x2_0000;
    }
    n := 1;
    TakeNext(queue, 0);
    assert [] + result == result;
    while n < |queue|
      invariant 0 < n <= |queue| && maxSize == MaxSize(first)
      invariant forall i :: 0 < i < n ==> Joins(queue, i)
      invariant size == TotalSize(queue[..n]) && result == Merged(queue[..n])
    {
      var w := queue[n];
      TakeNext(queue, n);
      if w.sync && !first.sync {
        break;
      }
      if w.batch.Some? {
        size := size + w.ByteSize();
        if size > maxSize {
          break;
        }
      }
      result := result + w.Ops();
      n := n + 1;
    }
  }

  // ---------- The state machine ----------

  /** How a writer's call ended. */
  datatype Outcome = Committed(first: nat) | Nothing | Failed

  datatype Finished = Finished(writer: Writer, outcome: Outcome)

  /** A record of the write-ahead log, with the writers whose batches it holds. */
  datatype Record = Record(seqno: nat, ops: seq<Op>, writers: seq<Writer>, synced: bool)

  /** The group a leader is committing: it covers the first `size` writers of the queue. */
  datatype Flight = Flight(size: nat, ops: seq<Op>, first: nat, logged: bool, inserted: nat)

  /** `arrived` and `finished` remember all calls; `base` is the last sequence number at the start. */
  datatype State = State(
    base: nat,
    arrived: seq<Writer>,
    queue: seq<Writer>,
    flight: Option<Flight>,
    lastSequence: nat,
    log: seq<Record>,
    mem: seq<Row>,
    finished: seq<Finished>)

  ghost predicate Init(s: State, base: nat) {
    s == State(base, [], [], None, base, [], [], [])
  }

  ghost predicate Arrive(s: State, w: Writer, s': State) {
    s' == s.(arrived := s.arrived + [w], queue := s.queue + [w])
  }

  /** MakeRoomForWrite failed: only the leader's call ends, with that error. */
  ghost predicate Fail(s: State, s': State) {
    && s.flight.None? && s.queue != []
    && s' == s.(queue := s.queue[1..], finished := s.finished + [Finished(s.queue[0], Failed)])
  }

  /** A leader without a batch is done once there is room. */
  ghost predicate Force(s: State, s': State) {
    && s.flight.None? && s.queue != [] && s.queue[0].batch.None?
    && s' == s.(queue := s.queue[1..], finished := s.finished + [Finished(s.queue[0], Nothing)])
  }

  /** The writer at the front builds its group and releases the mutex. */
  ghost predicate Lead(s: State, n: nat, s': State) {
    && s.flight.None? && s.queue != [] && s.queue[0].batch.Some? && IsGroup(s.queue, n)
    && s' == s.(flight := Some(Flight(n, Merged(s.queue[..n]), s.lastSequence + 1, false, 0)))
  }

  ghost predicate Log(s: State, s': State) {
    && s.flight.Some? && !s.flight.value.logged && s.flight.value.size <= |s.queue| && s.queue != []
    && var f := s.flight.value;
       s' == s.(log := s.log + [Record(f.first, f.ops, s.queue[..f.size], s.queue[0].sync)],
                flight := Some(f.(logged := true)))
  }

  /** One entry of the group goes into the memtable; readers may look at it at any time. */
  ghost predicate Insert(s: State, s': State) {
    && s.flight.Some? && s.flight.value.logged && s.flight.value.inserted < |s.flight.value.ops|
    && var f := s.flight.value;
       s' == s.(mem := s.mem + [Rows(f.first, f.ops)[f.inserted]], flight := Some(f.(inserted := f.inserted + 1)))
  }

  /** How the calls of a group end: each batch starts where the one before it ended. */
  function Outcomes(writers: seq<Writer>, first: nat): (r: seq<Finished>)
    ensures |r| == |writers| && forall i :: 0 <= i < |r| ==> r[i].writer == writers[i]
    decreases |writers|
  {
    if writers == [] then []
    else [Finished(writers[0], if writers[0].batch.Some? then Committed(first) else Nothing)]
         + Outcomes(writers[1..], first + |writers[0].Ops()|)
  }

  /** The leader publishes the last sequence number and wakes the writers of its group. */
  ghost predicate Finish(s: State, s': State) {
    && s.flight.Some? && s.flight.value.logged && s.flight.value.inserted == |s.flight.value.ops|
    && s.flight.value.size <= |s.queue|
    && var f := s.flight.value;
       s' == s.(lastSequence := s.lastSequence + |f.ops|, queue := s.queue[f.size..], flight := None,
                finished := s.finished + Outcomes(s.queue[..f.size], f.first))
  }

  datatype Step = ArriveStep(w: Writer) | FailStep | ForceStep | LeadStep(n: nat) | LogStep | InsertStep | FinishStep

  ghost predicate NextStep(s: State, step: Step, s': State) {
    match step
    case ArriveStep(w) => Arrive(s, w, s')
    case FailStep => Fail(s, s')
    case ForceStep => Force(s, s')
    case LeadStep(n) => Lead(s, n, s')
    case LogStep => Log(s, s')
    case InsertStep => Insert(s, s')
    case FinishStep => Finish(s, s')
  }

  // ---------- The invariant ----------

  function FinishedOps(f: Finished): seq<Op> {
    if f.outcome.Committed? then f.writer.Ops() else []
  }

  /** All updates whose calls have ended with success, in order. */
  function CommittedOps(finished: seq<Finished>): seq<Op> {
    FlatMap(FinishedOps, finished)
  }

  function RecordOps(r: Record): seq<Op> { r.ops }

  function LoggedOps(log: seq<Record>): seq<Op> {
    FlatMap(RecordOps, log)
  }

  function WriterOf(f: Finished): Writer { f.writer }

  /** Each committed batch starts right after all updates committed before it. */
  ghost predicate RangesContiguous(finished: seq<Finished>, base: nat) {
    forall i :: 0 <= i < |finished| && finished[i].outcome.Committed? ==>
      finished[i].outcome.first == base + 1 + |CommittedOps(finished[..i])|
  }

  ghost predicate RecordsContiguous(log: seq<Record>, base: nat) {
    forall i :: 0 <= i < |log| ==> log[i].seqno == base + 1 + |LoggedOps(log[..i])|
  }

  /** A write that asked for a sync is only ever in a record that was synced. */
  ghost predicate SyncHonoured(log: seq<Record>) {
    forall i, w :: 0 <= i < |log| && w in log[i].writers && w.sync ==> log[i].synced
  }

  ghost predicate RecordsAreGroups(log: seq<Record>) {
    forall i :: 0 <= i < |log| ==> log[i].ops == Merged(log[i].writers)
  }

  /** Only a failed call, or one without a batch, commits nothing. */
  ghost predicate OutcomesFit(finished: seq<Finished>) {
    forall i :: 0 <= i < |finished| ==>
      && (finished[i].outcome.Committed? ==> finished[i].writer.batch.Some?)
      && (finished[i].outcome.Nothing? ==> finished[i].writer.batch.None?)
  }

  ghost predicate FlightOk(s: State) {
    s.flight.Some? ==>
      var f := s.flight.value;
      && 0 < f.size <= |s.queue| && f.ops == Merged(s.queue[..f.size]) && f.first == s.lastSequence + 1
      && f.inserted <= |f.ops| && (!f.logged ==> f.inserted == 0)
      && (forall w :: w in s.queue[..f.size] && w.sync ==> s.queue[0].sync)
  }

  ghost function InFlight(s: State): seq<Op> {
    if s.flight.Some? && s.flight.value.logged then s.flight.value.ops else []
  }

  ghost function Pending(s: State): seq<Row> {
    if s.flight.Some? && s.flight.value.inserted <= |s.flight.value.ops|
    then Rows(s.flight.value.first, s.flight.value.ops)[..s.flight.value.inserted] else []
  }

  ghost predicate Inv(s: State) {
    && s.arrived == Map(WriterOf, s.finished) + s.queue
    && FlightOk(s)
    && s.lastSequence == s.base + |CommittedOps(s.finished)|
    && LoggedOps(s.log) == CommittedOps(s.finished) + InFlight(s)
    && RangesContiguous(s.finished, s.base) && OutcomesFit(s.finished)
    && RecordsContiguous(s.log, s.base) && SyncHonoured(s.log) && RecordsAreGroups(s.log)
    && s.mem == Rows(s.base + 1, CommittedOps(s.finished)) + Pending(s)
  }

  lemma {:induction false} RowsAppend(first: nat, a: seq<Op>, b: seq<Op>)
    ensures Rows(first, a + b) == Rows(first, a) + Rows(first + |a|, b)
  {
  }

  lemma {:induction false} MapAppend<S, T>(f: S -> T, a: seq<S>, b: seq<S>)
    ensures Map(f, a + b) == Map(f, a) + Map(f, b)
  {
  }

  lemma {:induction false} OutcomesCommit(writers: seq<Writer>, first: nat)
    ensures CommittedOps(Outcomes(writers, first)) == Merged(writers)
    ensures OutcomesFit(Outcomes(writers, first))
    ensures forall i :: 0 <= i < |writers| && Outcomes(writers, first)[i].outcome.Committed? ==>
              Outcomes(writers, first)[i].outcome.first == first + |CommittedOps(Outcomes(writers, first)[..i])|
    decreases |writers|
  {
    if writers != [] {
      var next := first + |writers[0].Ops()|;
      var all, rest := Outcomes(writers, first), Outcomes(writers[1..], next);
      OutcomesCommit(writers[1..], next);
      assert all[1..] == rest;
      forall i | 0 <= i < |all|
        ensures all[i].outcome.Committed? ==> all[i].outcome.first == first + |CommittedOps(all[..i])|
        ensures all[i].outcome.Committed? ==> all[i].writer.batch.Some?
        ensures all[i].outcome.Nothing? ==> all[i].writer.batch.None?
      {
        if i > 0 {
          assert all[i] == rest[i - 1];
          assert all[..i][1..] == rest[..i - 1];
        }
      }
    }
  }

  /** Calls that end after others keep the ranges contiguous. */
  lemma FinishMore(finished: seq<Finished>, more: seq<Finished>, base: nat)
    requires RangesContiguous(finished, base) && OutcomesFit(finished) && OutcomesFit(more)
    requires forall i :: 0 <= i < |more| && more[i].outcome.Committed? ==>
               more[i].outcome.first == base + 1 + |CommittedOps(finished)| + |CommittedOps(more[..i])|
    ensures RangesContiguous(finished + more, base) && OutcomesFit(finished + more)
    ensures CommittedOps(finished + more) == CommittedOps(finished) + CommittedOps(more)
    ensures Map(WriterOf, finished + more) == Map(WriterOf, finished) + Map(WriterOf, more)
  {
    FlatMapAppend(FinishedOps, finished, more);
    MapAppend(WriterOf, finished, more);
    forall i | 0 <= i < |finished + more| && (finished + more)[i].outcome.Committed?
      ensures (finished + more)[i].outcome.first == base + 1 + |CommittedOps((finished + more)[..i])|
    {
      if i < |finished| {
        assert (finished + more)[..i] == finished[..i];
      } else {
        assert (finished + more)[..i] == finished + more[..i - |finished|];
        FlatMapAppend(FinishedOps, finished, more[..i - |finished|]);
      }
    }
  }

  /** A call that commits nothing changes nothing but the lists of calls. */
  lemma FinishOne(finished: seq<Finished>, w: Writer, outcome: Outcome, base: nat)
    requires RangesContiguous(finished, base) && OutcomesFit(finished)
    requires outcome == Failed || (outcome == Nothing && w.batch.None?)
    ensures RangesContiguous(finished + [Finished(w, outcome)], base) && OutcomesFit(finished + [Finished(w, outcome)])
    ensures CommittedOps(finished + [Finished(w, outcome)]) == CommittedOps(finished)
    ensures Map(WriterOf, finished + [Finished(w, outcome)]) == Map(WriterOf, finished) + [w]
  {
    var more := [Finished(w, outcome)];
    assert more[1..] == [];
    assert FlatMap(FinishedOps, more[1..]) == [] && Map(WriterOf, more[1..]) == [];
    assert CommittedOps(more) == FinishedOps(more[0]) + [];
    FinishMore(finished, more, base);
  }

  lemma EndWithout(s: State, outcome: Outcome, s': State)
    requires Inv(s) && s.flight.None? && s.queue != [] && (outcome == Failed || (outcome == Nothing && s.queue[0].batch.None?))
    requires s' == s.(queue := s.queue[1..], finished := s.finished + [Finished(s.queue[0], outcome)])
    ensures Inv(s')
  {
    FinishOne(s.finished, s.queue[0], outcome, s.base);
    MoveFirst(Map(WriterOf, s.finished), s.queue);
    assert InFlight(s') == InFlight(s) && Pending(s') == Pending(s);
  }

  lemma MoveFirst<T>(a: seq<T>, b: seq<T>)
    requires b != []
    ensures a + b == a + [b[0]] + b[1..]
  {
  }

  lemma MoveSome<T>(a: seq<T>, b: seq<T>, n: nat)
    requires n <= |b|
    ensures a + b == a + b[..n] + b[n..]
  {
  }

  lemma LogKeepsInv(s: State, s': State)
    requires Inv(s) && Log(s, s')
    ensures Inv(s')
  {
    var f := s.flight.value;
    var r := Record(f.first, f.ops, s.queue[..f.size], s.queue[0].sync);
    FlatMapOne(RecordOps, s.log, r);
    assert CommittedOps(s.finished) + [] == CommittedOps(s.finished);
    forall i | 0 <= i < |s'.log|
      ensures s'.log[i].seqno == s.base + 1 + |LoggedOps(s'.log[..i])|
    {
      assert s'.log[..i] == s.log[..i];
      assert s.log[..|s.log|] == s.log;
    }
  }

  lemma InsertKeepsInv(s: State, s': State)
    requires Inv(s) && Insert(s, s')
    ensures Inv(s')
  {
    var f := s.flight.value;
    var rows := Rows(f.first, f.ops);
    assert rows[..f.inserted + 1] == rows[..f.inserted] + [rows[f.inserted]];
  }

  lemma FinishCalls(s: State, s': State)
    requires Inv(s) && Finish(s, s')
    ensures s'.arrived == Map(WriterOf, s'.finished) + s'.queue
    ensures RangesContiguous(s'.finished, s.base) && OutcomesFit(s'.finished)
    ensures CommittedOps(s'.finished) == CommittedOps(s.finished) + s.flight.value.ops
  {
    var f := s.flight.value;
    var members := s.queue[..f.size];
    var more := Outcomes(members, f.first);
    OutcomesCommit(members, f.first);
    FinishMore(s.finished, more, s.base);
    assert Map(WriterOf, more) == members;
    MoveSome(Map(WriterOf, s.finished), s.queue, f.size);
  }

  lemma FinishRows(first: nat, before: seq<Op>, ops: seq<Op>, next: nat, n: nat)
    requires n == |ops| && next == first + |before|
    ensures Rows(first, before) + Rows(next, ops)[..n] == Rows(first, before + ops)
  {
    RowsAppend(first, before, ops);
    SumTake(Rows(first, before), Rows(next, ops), Rows(first, before + ops), n);
  }

  lemma SumTake<T>(a: seq<T>, b: seq<T>, sum: seq<T>, n: nat)
    requires sum == a + b && n == |b|
    ensures a + b[..n] == sum
  {
    TakeAll(b, n);
  }

  lemma FinishKeepsInv(s: State, s': State)
    requires Inv(s) && Finish(s, s')
    ensures Inv(s')
  {
    FinishCalls(s, s');
    assert s'.mem == Rows(s.base + 1, CommittedOps(s'.finished)) by {
      FinishRows(s.base + 1, CommittedOps(s.finished), s.flight.value.ops, s.flight.value.first, s.flight.value.inserted);
    }
    AppendNothing(CommittedOps(s'.finished));
    AppendNothing(Rows(s.base + 1, CommittedOps(s'.finished)));
  }

  lemma TakeAll<T>(a: seq<T>, n: nat)
    requires n == |a|
    ensures a[..n] == a
  {
  }

  lemma AppendNothing<T>(a: seq<T>)
    ensures a + [] == a
  {
  }

  lemma LeadKeepsInv(s: State, n: nat, s': State)
    requires Inv(s) && Lead(s, n, s')
    ensures Inv(s')
  {
    forall w | w in s.queue[..n] && w.sync
      ensures s.queue[0].sync
    {
      var i :| 0 <= i < n && s.queue[i] == w;
      assert i > 0 ==> Joins(s.queue, i);
    }
  }

  lemma ArriveKeepsInv(s: State, w: Writer, s': State)
    requires Inv(s) && Arrive(s, w, s')
    ensures Inv(s')
  {
    if s.flight.Some? {
      var n := s.flight.value.size;
      assert s'.queue[..n] == s.queue[..n];
    }
  }

  /** Every step of the writers keeps the invariant. */
  lemma NextKeepsInv(s: State, step: Step, s': State)
    requires Inv(s) && NextStep(s, step, s')
    ensures Inv(s')
  {
    match step
    case ArriveStep(w) => ArriveKeepsInv(s, w, s');
    case FailStep => EndWithout(s, Failed, s');
    case ForceStep => EndWithout(s, Nothing, s');
    case LeadStep(n) => LeadKeepsInv(s, n, s');
    case LogStep => LogKeepsInv(s, s');
    case InsertStep => InsertKeepsInv(s, s');
    case FinishStep => FinishKeepsInv(s, s');
  }

  // ---------- What holds over every interleaving ----------

  ghost predicate IsRun(run: seq<State>, steps: seq<Step>, base: nat) {
    && |run| == |steps| + 1 && Init(run[0], base)
    && forall i {:trigger steps[i]} :: 0 <= i < |steps| ==> NextStep(run[i], steps[i], run[i + 1])
  }

  lemma {:induction false} RunKeepsInv(run: seq<State>, steps: seq<Step>, base: nat, n: nat)
    requires IsRun(run, steps, base) && n <= |steps|
    ensures Inv(run[n])
  {
    if n > 0 {
      RunKeepsInv(run, steps, base, n - 1);
      NextKeepsInv(run[n - 1], steps[n - 1], run[n]);
    }
  }

  /** What a reader that takes the last sequence number as its snapshot can see. */
  ghost function Visible(s: State): set<Row> {
    set r | r in s.mem && r.seqno <= s.lastSequence
  }

  /** At any moment such a reader sees exactly the rows of the committed batches: all of each
      batch whose call has ended with success, and nothing of any other. */
  lemma VisibleIsCommitted(s: State, r: Row)
    requires Inv(s)
    ensures r in Visible(s) <==> r in Rows(s.base + 1, CommittedOps(s.finished))
  {
    var committed, pending := Rows(s.base + 1, CommittedOps(s.finished)), Pending(s);
    assert s.mem == committed + pending;
    assert forall i :: 0 <= i < |committed| ==> committed[i].seqno <= s.lastSequence;
    assert forall i :: 0 <= i < |pending| ==> pending[i].seqno > s.lastSequence;
  }

  /** A committed batch owns the sequence numbers from its first on, and all its rows are visible. */
  lemma BatchIsWholeAndVisible(s: State, i: nat, k: nat)
    requires Inv(s) && i < |s.finished| && s.finished[i].outcome.Committed? && k < |s.finished[i].writer.Ops()|
    ensures Rows(s.finished[i].outcome.first, s.finished[i].writer.Ops())[k] in Visible(s)
  {
    CommittedRow(s.finished, s.base, i, k);
    VisibleIsCommitted(s, Rows(s.finished[i].outcome.first, s.finished[i].writer.Ops())[k]);
  }

  lemma CommittedRow(finished: seq<Finished>, base: nat, i: nat, k: nat)
    requires RangesContiguous(finished, base)
    requires i < |finished| && finished[i].outcome.Committed? && k < |finished[i].writer.Ops()|
    ensures Rows(finished[i].outcome.first, finished[i].writer.Ops())[k] in Rows(base + 1, CommittedOps(finished))
  {
    hide Rows;
    var before, after := CommittedOps(finished[..i]), CommittedOps(finished[i + 1..]);
    CommittedSplits(finished, i);
    RowInWhole(base + 1, before, finished[i].writer.Ops(), after, k);
  }

  lemma CommittedSplits(finished: seq<Finished>, i: nat)
    requires i < |finished| && finished[i].outcome.Committed?
    ensures CommittedOps(finished)
         == CommittedOps(finished[..i]) + finished[i].writer.Ops() + CommittedOps(finished[i + 1..])
  {
    var before, f, after := finished[..i], finished[i], finished[i + 1..];
    assert finished == before + [f] + after;
    FlatMapAppend(FinishedOps, before + [f], after);
    FlatMapOne(FinishedOps, before, f);
  }

  lemma RowInWhole(first: nat, before: seq<Op>, ops: seq<Op>, after: seq<Op>, k: nat)
    requires k < |ops|
    ensures Rows(first + |before|, ops)[k] in Rows(first, before + ops + after)
  {
    var n := |before| + k;
    assert (before + ops + after)[n] == ops[k];
    assert Rows(first, before + ops + after)[n] == Rows(first + |before|, ops)[k];
  }

  function AsGroup(r: Record): Recovery.Group {
    Recovery.Group(r.seqno, r.ops)
  }

  /** The log is one that recovery can restore group by group (Recovery.CrashAtomicRecovery). */
  lemma {:induction false} LogIsRecoverable(log: seq<Record>, base: nat)
    requires RecordsContiguous(log, base)
    requires forall i :: 0 <= i < |log| ==> AsGroup(log[i]).Fits()
    ensures Recovery.Consecutive(Map(AsGroup, log), base + 1)
    decreases |log|
  {
    if log != [] {
      var rest, base' := log[1..], base + |log[0].ops|;
      assert log[..0] == [] && log[0].seqno == base + 1;
      forall i | 0 <= i < |rest|
        ensures rest[i].seqno == base' + 1 + |LoggedOps(rest[..i])|
      {
        assert log[..i + 1][1..] == rest[..i];
      }
      LogIsRecoverable(rest, base');
      assert Map(AsGroup, log)[1..] == Map(AsGroup, rest);
    }
  }

  /** Over every interleaving: calls end in the order they came, each once; committed batches and
      log records take contiguous sequence numbers; a sync write is never left to an unsynced
      record; and the log holds exactly the committed updates, and possibly those of the group in
      flight. */
  lemma GroupCommitIsSafe(run: seq<State>, steps: seq<Step>, base: nat, n: nat)
    requires IsRun(run, steps, base) && n <= |steps|
    ensures
      var s := run[n];
      && s.arrived == Map(WriterOf, s.finished) + s.queue
      && RangesContiguous(s.finished, s.base) && OutcomesFit(s.finished)
      && RecordsContiguous(s.log, s.base) && SyncHonoured(s.log) && RecordsAreGroups(s.log)
      && CommittedOps(s.finished) <= LoggedOps(s.log) <= CommittedOps(s.finished) + InFlight(s)
      && s.lastSequence == s.base + |CommittedOps(s.finished)|
  {
    RunKeepsInv(run, steps, base, n);
  }
}
