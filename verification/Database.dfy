/** The database as a state machine over its background and foreground steps (db/db_impl.cc). */
module Database {
  import opened Wrappers
  import opened Dbformat
  import opened VersionFiles
  import opened CompactionInputs
  import opened VersionBuilder
  import opened LevelChange
  import opened DropRule
  import opened CompactionWork

  /** A compaction under way: its inputs, the smallest snapshot it must respect, and the version it
      was started in, which it keeps looking at. */
  datatype Job = Job(level: nat, inputs0: seq<File>, inputs1: seq<File>, smallest: nat, version: Levels)

  /** `placed` remembers every (level, number) pair ever recorded for a file. */
  datatype State = State(
    mem: seq<Entry>,
    imm: Option<seq<Entry>>,
    levels: Levels,
    lastSequence: nat,
    nextFile: nat,
    snapshots: seq<nat>,
    job: Option<Job>,
    placed: set<(nat, nat)>)

  ghost function ImmEntries(s: State): set<Entry> {
    if s.imm.Some? then Elements(s.imm.value) else {}
  }

  /** All entries the database holds, wherever they are. */
  ghost function Data(s: State): set<Entry> {
    Elements(s.mem) + ImmEntries(s) + AllEntries(s.levels)
  }

  // ---------- The invariant ----------

  ghost predicate AllOlder(a: set<Entry>, b: set<Entry>) {
    forall x, y :: x in a && y in b ==> x.key.seqno < y.key.seqno
  }

  /** Files hold older entries than the immutable memtable, and that older ones than the memtable. */
  ghost predicate AgesOrdered(s: State) {
    && AllOlder(AllEntries(s.levels), ImmEntries(s))
    && AllOlder(AllEntries(s.levels), Elements(s.mem))
    && AllOlder(ImmEntries(s), Elements(s.mem))
    && (forall e :: e in Data(s) ==> e.key.seqno <= s.lastSequence)
    && s.lastSequence < MAX_SEQUENCE
  }

  ghost predicate UniqueNumbers(levels: Levels) {
    forall l, m, f, g :: 0 <= l < |levels| && 0 <= m < |levels| && f in levels[l] && g in levels[m] ==>
      (f.number == g.number ==> l == m && f == g)
  }

  /** File numbers are unique, below the next number, and files only ever move down. */
  ghost predicate NumbersOk(s: State) {
    && UniqueNumbers(s.levels)
    && (forall l, f :: 0 <= l < |s.levels| && f in s.levels[l] ==> (l, f.number) in s.placed)
    && (forall p :: p in s.placed ==> p.1 < s.nextFile)
    && (forall l, f, p :: 0 <= l < |s.levels| && f in s.levels[l] && p in s.placed && p.1 == f.number ==> p.0 <= l)
  }

  ghost predicate SnapshotsOk(s: State) {
    && (forall i, j :: 0 <= i <= j < |s.snapshots| ==> s.snapshots[i] <= s.snapshots[j])
    && (forall i :: 0 <= i < |s.snapshots| ==> s.snapshots[i] <= s.lastSequence)
  }

  ghost predicate JobOk(s: State) {
    s.job.Some? ==> JobFits(s, s.job.value)
  }

  ghost predicate JobFits(s: State, j: Job) {
    && j.level + 1 < NUM_LEVELS && |s.levels| == NUM_LEVELS
    && FitInputs(s.levels[j.level], s.levels[j.level + 1], j.inputs0, j.inputs1)
    && GoodLevels(j.version) && SameBase(j.version, s.levels, j.level, j.inputs0 + j.inputs1)
    && j.smallest <= s.lastSequence
    && forall i :: 0 <= i < |s.snapshots| ==> j.smallest <= s.snapshots[i]
  }

  /** For the keys of the files, both versions agree on what lies two or more levels below. */
  ghost predicate SameBase(before: Levels, after: Levels, level: nat, files: seq<File>) {
    forall h, user :: h in files && InFileRange(h, user) ==> (IsBase(before, level, user) <==> IsBase(after, level, user))
  }

  ghost predicate LevelsSorted(levels: Levels) {
    forall l :: 0 <= l < |levels| ==> SortedFiles(levels[l])
  }

  ghost predicate Inv(s: State) {
    && GoodLevels(s.levels) && LevelsSorted(s.levels)
    && Sorted(s.mem) && (s.imm.Some? ==> Sorted(s.imm.value))
    && AgesOrdered(s) && NumbersOk(s) && SnapshotsOk(s) && JobOk(s)
  }

  // ---------- Steps ----------

  const EMPTY_LEVELS: Levels := [[], [], [], [], [], [], []]

  ghost predicate Init(s: State) {
    s == State([], None, EMPTY_LEVELS, 0, 2, [], None, {})
  }

  datatype Update = Update(kind: ValueType, user: UserKey, value: Bytes)

  /** The entries of a batch: consecutive sequence numbers from `first`. */
  function BatchEntries(batch: seq<Update>, first: nat): seq<Entry> {
    seq(|batch|, i requires 0 <= i < |batch| => Entry(InternalKey(batch[i].user, first + i, batch[i].kind), batch[i].value))
  }

  /** DBImpl::Write: the batch enters the memtable and becomes visible at once. */
  ghost predicate Write(s: State, batch: seq<Update>, s': State) {
    && s.lastSequence + |batch| < MAX_SEQUENCE
    && Sorted(s'.mem)
    && Elements(s'.mem) == Elements(s.mem) + Elements(BatchEntries(batch, s.lastSequence + 1))
    && s' == s.(mem := s'.mem, lastSequence := s.lastSequence + |batch|)
  }

  /** MakeRoomForWrite: the full memtable becomes immutable. */
  ghost predicate SwitchMemTable(s: State, s': State) {
    s.imm.None? && s' == s.(imm := Some(s.mem), mem := [], nextFile := s.nextFile + 1)
  }

  ghost predicate IsTable(f: File, number: nat, es: seq<Entry>) {
    && es != [] && f.number == number && f.entries == es
    && f.smallest == es[0].key && f.largest == es[|es| - 1].key
  }

  /** CompactMemTable, also in the middle of a compaction: the immutable memtable becomes a table file;
      an empty one just goes away. */
  ghost predicate Flush(s: State, level: nat, file: File, s': State) {
    && s.imm.Some?
    && if s.imm.value == [] then s' == s.(imm := None, nextFile := s.nextFile + 1)
       else
         && IsTable(file, s.nextFile, s.imm.value)
         && MayPlace(s.levels, level, file.smallest.user, file.largest.user)
         && Placed(s.levels, level, file, s'.levels)
         && s' == s.(imm := None, levels := s'.levels, nextFile := s.nextFile + 1, placed := s.placed + {(level, s.nextFile)})
  }

  ghost predicate MayStart(s: State, level: nat, inputs0: seq<File>, inputs1: seq<File>) {
    && s.job.None? && level + 1 < NUM_LEVELS && |s.levels| == NUM_LEVELS
    && GoodInputs(s.levels[level], s.levels[level + 1], level, inputs0, inputs1)
  }

  /** A single input file without overlap below it moves down unchanged. */
  ghost predicate TrivialMove(s: State, level: nat, file: File, s': State) {
    && MayStart(s, level, [file], [])
    && Replaced(s.levels, level, [file], [], [file], s'.levels)
    && s' == s.(levels := s'.levels, placed := s.placed + {(level + 1, file.number)})
  }

  function SmallestSnapshot(s: State): nat {
    if s.snapshots == [] then s.lastSequence else s.snapshots[0]
  }

  ghost predicate StartCompaction(s: State, level: nat, inputs0: seq<File>, inputs1: seq<File>, s': State) {
    && MayStart(s, level, inputs0, inputs1)
    && s' == s.(job := Some(Job(level, inputs0, inputs1, SmallestSnapshot(s), s.levels)))
  }

  ghost function JobEntries(j: Job): set<Entry> {
    FileEntries(j.inputs0) + FileEntries(j.inputs1)
  }

  /** The files a compaction produced: new numbers, in order, holding what the drop rule keeps. */
  ghost predicate JobOutputs(s: State, j: Job, outs: seq<File>, nextFile: nat) {
    && FilesOk(outs) && Disjoint(outs)
    && FileEntries(outs) == Kept(JobEntries(j), j.smallest, BaseOf(j.version, j.level))
    && s.nextFile <= nextFile
    && (forall o :: o in outs ==> s.nextFile <= o.number < nextFile)
    && (forall i, k :: 0 <= i < k < |outs| ==> outs[i].number != outs[k].number)
  }

  ghost function PlacedIn(level: nat, files: seq<File>): set<(nat, nat)> {
    set f | f in files :: (level, f.number)
  }

  /** DoCompactionWork and InstallCompactionResults. */
  ghost predicate FinishCompaction(s: State, outs: seq<File>, s': State) {
    s.job.Some? && JobFinishes(s, s.job.value, outs, s')
  }

  ghost predicate JobFinishes(s: State, j: Job, outs: seq<File>, s': State) {
    && j.level + 1 < NUM_LEVELS
    && JobOutputs(s, j, outs, s'.nextFile)
    && Replaced(s.levels, j.level, j.inputs0, j.inputs1, outs, s'.levels)
    && s' == s.(levels := s'.levels, nextFile := s'.nextFile, job := None, placed := s.placed + PlacedIn(j.level + 1, outs))
  }

  ghost predicate TakeSnapshot(s: State, s': State) {
    s' == s.(snapshots := s.snapshots + [s.lastSequence])
  }

  ghost predicate ReleaseSnapshot(s: State, i: nat, s': State) {
    i < |s.snapshots| && s' == s.(snapshots := s.snapshots[..i] + s.snapshots[i + 1..])
  }

  datatype Step =
    | WriteStep(batch: seq<Update>)
    | SwitchStep
    | FlushStep(level: nat, file: File)
    | MoveStep(level: nat, file: File)
    | StartStep(level: nat, inputs0: seq<File>, inputs1: seq<File>)
    | FinishStep(outs: seq<File>)
    | TakeSnapshotStep
    | ReleaseSnapshotStep(index: nat)

  ghost predicate NextStep(s: State, step: Step, s': State) {
    match step
    case WriteStep(batch) => Write(s, batch, s')
    case SwitchStep => SwitchMemTable(s, s')
    case FlushStep(level, file) => Flush(s, level, file, s')
    case MoveStep(level, file) => TrivialMove(s, level, file, s')
    case StartStep(level, inputs0, inputs1) => StartCompaction(s, level, inputs0, inputs1, s')
    case FinishStep(outs) => FinishCompaction(s, outs, s')
    case TakeSnapshotStep => TakeSnapshot(s, s')
    case ReleaseSnapshotStep(index) => ReleaseSnapshot(s, index, s')
  }
}
