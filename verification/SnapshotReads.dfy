/** No background step changes any answer a live snapshot can observe, and exactly when a
    compaction would. */
module SnapshotReads {
  import opened Wrappers
  import opened Dbformat
  import opened VersionFiles
  import opened VersionGet
  import opened CompactionInputs
  import opened LevelChange
  import opened DropRule
  import opened CompactionWork
  import opened Database
  import opened DatabaseSafety

  /** Both sets of entries give `user` the same answer at `snapshot`. */
  ghost predicate Agree(before: set<Entry>, after: set<Entry>, user: UserKey, snapshot: nat) {
    forall r1, r2 :: Reads(before, user, snapshot, r1) && Reads(after, user, snapshot, r2) ==> r1.Answer() == r2.Answer()
  }

  lemma AgreeSelf(es: set<Entry>, user: UserKey, snapshot: nat)
    requires UniqueVersions(es)
    ensures Agree(es, es, user, snapshot)
  {
    forall r1, r2 | Reads(es, user, snapshot, r1) && Reads(es, user, snapshot, r2)
      ensures r1.Answer() == r2.Answer()
    {
      ReadsDeterministic(es, user, snapshot, r1, r2);
    }
  }

  lemma AgreeTransitive(a: set<Entry>, b: set<Entry>, c: set<Entry>, user: UserKey, snapshot: nat)
    requires Agree(a, b, user, snapshot) && Agree(b, c, user, snapshot)
    ensures Agree(a, c, user, snapshot)
  {
    var r := ReadsExists(b, user, snapshot);
  }

  // ---------- Compactions ----------

  /** A tombstone the compaction drops hides an older value in a file of the next level that
      was left out of the compaction although it shares the tombstone's user key. */
  ghost predicate ShadowedBy(s: State, j: Job, user: UserKey, t: Entry, g: File, v: Entry)
    requires j.level + 1 < |s.levels|
  {
    && t in FileEntries(j.inputs1) && t.key.kind.Deletion? && IsBase(j.version, j.level, user)
    && IsNewest(Data(s), user, j.smallest, t)
    && g in s.levels[j.level + 1] && g !in j.inputs1 && v in g.entries && v.key.kind.Value?
    && NextOlder(Data(s) - JobEntries(j), t, v)
  }

  ghost predicate ShadowsLeftOut(s: State, j: Job, user: UserKey)
    requires j.level + 1 < |s.levels|
  {
    exists t, g, v :: ShadowedBy(s, j, user, t, g, v)
  }

  lemma OlderIsInFiles(s: State, t: Entry, v: Entry)
    requires AgesOrdered(s) && t in AllEntries(s.levels)
    requires v in Data(s) && v.key.seqno < t.key.seqno
    ensures v in AllEntries(s.levels)
  {
  }

  /** Where the next older entry of a dropped tombstone can be: only in a left-out file of
      the next level, and then the tombstone is from that level, too. */
  lemma OlderEntryIsLeftOut(levels: Levels, j: Job, user: UserKey, t: Entry, v: Entry)
    requires GoodLevels(levels) && j.level + 1 < NUM_LEVELS
    requires FitInputs(levels[j.level], levels[j.level + 1], j.inputs0, j.inputs1)
    requires t in JobEntries(j) && t.key.user == user && IsBase(levels, j.level, user)
    requires v in AllEntries(levels) - JobEntries(j) && v.key.user == user && v.key.seqno < t.key.seqno
    ensures exists g :: g in levels[j.level + 1] && g !in j.inputs1 && v in g.entries
    ensures t in FileEntries(j.inputs1)
  {
    var l, g :| 0 <= l < |levels| && g in levels[l] && v in g.entries;
    assert g !in j.inputs0 && g !in j.inputs1;
    if t in FileEntries(j.inputs0) {
      var h :| h in j.inputs0 && t in h.entries;
      OlderFileLevel(levels, j, user, l, g, v, j.level, h, t);
    } else {
      var h :| h in j.inputs1 && t in h.entries;
      OlderFileLevel(levels, j, user, l, g, v, j.level + 1, h, t);
    }
  }

  lemma OlderFileLevel(levels: Levels, j: Job, user: UserKey, l: nat, g: File, v: Entry, m: nat, h: File, t: Entry)
    requires GoodLevels(levels) && j.level + 1 < NUM_LEVELS
    requires FitInputs(levels[j.level], levels[j.level + 1], j.inputs0, j.inputs1)
    requires l < NUM_LEVELS && g in levels[l] && v in g.entries && v.key.user == user && g !in j.inputs0 && g !in j.inputs1
    requires (m == j.level && h in j.inputs0) || (m == j.level + 1 && h in j.inputs1)
    requires t in h.entries && t.key.user == user && v.key.seqno < t.key.seqno
    requires IsBase(levels, j.level, user)
    ensures l == j.level + 1 == m
  {
    assert h in levels[m];
    assert l < m ==> NewerThan(g, h);
    EntryInBounds(g, v);
    EntryInBounds(h, t);
    var i :| 0 <= i < |levels[l]| && levels[l][i] == g;
    assert InFileRange(levels[l][i], user);
    assert Overlaps(h, Some(g.smallest.user), Some(g.largest.user));
    assert m == j.level ==> Touches(g, j.inputs0);
    assert l == j.level == m ==> NewerThan(g, h);
  }

  /** Exactly when a finished compaction keeps every answer for a user key at every snapshot
      from the job's smallest one on. */
  lemma CompactionPreservesAnswersIff(s: State, j: Job, outs: seq<File>, s': State, user: UserKey)
    requires Inv(s) && s.job == Some(j) && JobFinishes(s, j, outs, s')
    ensures SameAnswers(Data(s), Data(s'), user, j.smallest) <==> !ShadowsLeftOut(s, j, user)
  {
    var base := BaseOf(j.version, j.level);
    var input := JobEntries(j);
    var rest := Data(s) - input;
    FinishData(s, j, outs, s');
    assert Data(s) == rest + input && Data(s') == rest + Kept(input, j.smallest, base);
    DataUnique(s);
    AnswersPreservedIff(rest, input, user, j.smallest, base);
    UncoversIffShadows(s, j, user);
  }

  lemma JobEntriesInFiles(s: State, j: Job)
    requires JobFits(s, j)
    ensures JobEntries(j) <= AllEntries(s.levels)
  {
    forall e | e in JobEntries(j)
      ensures e in AllEntries(s.levels)
    {
      var h :| (h in j.inputs0 || h in j.inputs1) && e in h.entries;
      assert h in s.levels[j.level] || h in s.levels[j.level + 1];
    }
  }

  /** Files placed since the compaction started lie below none of its keys. */
  lemma JobKeyKeepsBase(s: State, j: Job, e: Entry)
    requires GoodLevels(s.levels) && JobFits(s, j) && e in JobEntries(j)
    ensures IsBase(j.version, j.level, e.key.user) <==> IsBase(s.levels, j.level, e.key.user)
  {
    JobInLevels(s, j);
    assert SameBase(j.version, s.levels, j.level, j.inputs0 + j.inputs1);
    hide JobFits, IsBase;
    var h :| h in j.inputs0 + j.inputs1 && e in h.entries;
    assert h in s.levels[j.level] || h in s.levels[j.level + 1];
    EntryInBounds(h, e);
    assert InFileRange(h, e.key.user);
  }

  /** What a finished compaction has written: of two entries of one user key the newer is invisible at its smallest
      snapshot, and a tombstone that every snapshot sees has a file below that covers its user key. */
  lemma NothingSuperfluousStays(s: State, outs: seq<File>, s': State)
    requires Inv(s) && FinishCompaction(s, outs, s')
    ensures forall x, y ::
      x in FileEntries(outs) && y in FileEntries(outs) && x.key.user == y.key.user && y.key.seqno < x.key.seqno
      ==> s.job.value.smallest < x.key.seqno
    ensures forall e :: e in FileEntries(outs) && e.key.kind.Deletion? && e.key.seqno <= s.job.value.smallest ==>
      exists l, f :: s.job.value.level + 2 <= l < |s'.levels| && f in s'.levels[l] && f.smallest.user <= e.key.user <= f.largest.user
  {
    hide AgesOrdered, NumbersOk, SnapshotsOk, JobFits, Replaced, FileEntries, JobEntries, IsBase, GoodLevels, Disjoint, FilesOk;
    var j := s.job.value;
    KeptIff(JobEntries(j), j.smallest, BaseOf(j.version, j.level));
    assert JobFits(s, j) && Replaced(s.levels, j.level, j.inputs0, j.inputs1, outs, s'.levels);
    assert FileEntries(outs) == Kept(JobEntries(j), j.smallest, BaseOf(j.version, j.level));
    hide Inv, FinishCompaction;
    forall e | e in FileEntries(outs) && e.key.kind.Deletion? && e.key.seqno <= j.smallest
      ensures exists l, f :: j.level + 2 <= l < |s'.levels| && f in s'.levels[l] && f.smallest.user <= e.key.user <= f.largest.user
    {
      var l, f := KeptTombstoneIsCovered(s, j, e, s'.levels, outs);
    }
  }

  lemma KeptTombstoneIsCovered(s: State, j: Job, e: Entry, after: Levels, outs: seq<File>) returns (l: nat, f: File)
    requires GoodLevels(s.levels) && JobFits(s, j) && e in JobEntries(j) && !BaseOf(j.version, j.level)(e.key.user)
    requires Replaced(s.levels, j.level, j.inputs0, j.inputs1, outs, after)
    ensures j.level + 2 <= l < |after| && f in after[l] && f.smallest.user <= e.key.user <= f.largest.user
  {
    JobKeyKeepsBase(s, j, e);
    hide JobFits, JobEntries, FileEntries;
    var i;
    l, i :| j.level + 2 <= l < |s.levels| && 0 <= i < |s.levels[l]| && InFileRange(s.levels[l][i], e.key.user);
    f := s.levels[l][i];
    assert f in after[l];
  }

  lemma UncoversIffShadows(s: State, j: Job, user: UserKey)
    requires GoodLevels(s.levels) && AgesOrdered(s) && JobFits(s, j) && JobEntries(j) <= Data(s)
    ensures Uncovers(Data(s) - JobEntries(j), JobEntries(j), user, j.smallest, BaseOf(j.version, j.level))
      <==> ShadowsLeftOut(s, j, user)
  {
    var base := BaseOf(j.version, j.level);
    var input := JobEntries(j);
    var rest := Data(s) - input;
    assert rest + input == Data(s);
    if Uncovers(rest, input, user, j.smallest, base) {
      var t, v :| UncoversBy(rest, input, user, j.smallest, base, t, v);
      JobEntriesInFiles(s, j);
      OlderIsInFiles(s, t, v);
      JobKeyKeepsBase(s, j, t);
      OlderEntryIsLeftOut(s.levels, j, user, t, v);
      var g :| g in s.levels[j.level + 1] && g !in j.inputs1 && v in g.entries;
      assert ShadowedBy(s, j, user, t, g, v);
    }
    if ShadowsLeftOut(s, j, user) {
      var t, g, v :| ShadowedBy(s, j, user, t, g, v);
      assert UncoversBy(rest, input, user, j.smallest, base, t, v);
    }
  }

  ghost predicate ShareKey(g: File, h: File) {
    exists x, y :: x in g.entries && y in h.entries && x.key.user == y.key.user
  }

  /** If no left-out file of the next level shares a user key with the second input list, the
      compaction keeps every answer. */
  lemma UnsharedIsSafe(s: State, j: Job, user: UserKey)
    requires Inv(s) && s.job == Some(j)
    requires forall g, h :: g in s.levels[j.level + 1] && g !in j.inputs1 && h in j.inputs1 ==> !ShareKey(g, h)
    ensures !ShadowsLeftOut(s, j, user)
  {
    assert j.level + 1 < |s.levels|;
    hide ShareKey, Inv, ShadowedBy;
    forall t, g, v | g in s.levels[j.level + 1]
      ensures !ShadowedBy(s, j, user, t, g, v)
    {
      if ShadowedBy(s, j, user, t, g, v) {
        ShadowingShares(s, j, user, t, g, v);
      }
    }
  }

  lemma ShadowingShares(s: State, j: Job, user: UserKey, t: Entry, g: File, v: Entry)
    requires j.level + 1 < |s.levels| && ShadowedBy(s, j, user, t, g, v)
    ensures exists h :: h in j.inputs1 && ShareKey(g, h)
  {
    var h :| h in j.inputs1 && t in h.entries;
    assert v.key.user == t.key.user && ShareKey(g, h);
  }

  // ---------- Every step ----------

  /** The only step that could change an answer is finishing a compaction that shadows. */
  ghost predicate SafeStep(s: State, step: Step) {
    step.FinishStep? && JobOk(s) && s.job.Some? ==> forall user :: !ShadowsLeftOut(s, s.job.value, user)
  }

  /** New entries are newer than every snapshot taken before them. */
  lemma WriteInvisible(s: State, batch: seq<Update>, s': State, user: UserKey, snapshot: nat)
    requires Inv(s) && Write(s, batch, s') && snapshot <= s.lastSequence
    ensures Agree(Data(s), Data(s'), user, snapshot)
  {
    DataUnique(s);
    assert Data(s') == Data(s) + Elements(BatchEntries(batch, s.lastSequence + 1));
    forall r1, r2 | Reads(Data(s), user, snapshot, r1) && Reads(Data(s'), user, snapshot, r2)
      ensures r1.Answer() == r2.Answer()
    {
      if r2.Missing? {
        assert Reads(Data(s), user, snapshot, r2);
      } else {
        var e :| IsNewest(Data(s'), user, snapshot, e) && r2 == LookupOf(e);
        assert IsNewest(Data(s), user, snapshot, e);
        assert Reads(Data(s), user, snapshot, r2);
      }
      ReadsDeterministic(Data(s), user, snapshot, r1, r2);
    }
  }

  /** One step keeps the answer of every snapshot that is live, or at or above the smallest
      snapshot of a running compaction. */
  lemma StepKeepsAnswers(s: State, step: Step, s': State, user: UserKey, snapshot: nat)
    requires Inv(s) && NextStep(s, step, s') && SafeStep(s, step)
    requires snapshot <= s.lastSequence && (s.job.Some? ==> s.job.value.smallest <= snapshot)
    ensures Agree(Data(s), Data(s'), user, snapshot)
  {
    DataUnique(s);
    AgreeSelf(Data(s), user, snapshot);
    match step
    case WriteStep(batch) => WriteInvisible(s, batch, s', user, snapshot);
    case SwitchStep => assert Data(s') == Data(s);
    case FlushStep(level, file) => FlushKeepsInv(s, level, file, s');
    case MoveStep(level, file) => MoveKeepsInv(s, level, file, s');
    case StartStep(level, inputs0, inputs1) => assert Data(s') == Data(s);
    case FinishStep(outs) => CompactionPreservesAnswersIff(s, s.job.value, outs, s', user);
    case TakeSnapshotStep => assert Data(s') == Data(s);
    case ReleaseSnapshotStep(index) => assert Data(s') == Data(s);
  }

  // ---------- Whole runs ----------

  /** A run: consecutive states, each reached by one step. */
  ghost predicate IsRun(run: seq<State>, steps: seq<Step>) {
    && |run| == |steps| + 1
    && forall i {:trigger steps[i]} :: 0 <= i < |steps| ==> NextStep(run[i], steps[i], run[i + 1])
  }

  /** The first `n` steps of the run are clear. */
  ghost predicate ClearRun(run: seq<State>, steps: seq<Step>, n: nat)
    requires n <= |steps| < |run|
  {
    forall i {:trigger steps[i]} :: 0 <= i < n ==> ClearStep(run[i], steps[i])
  }

  lemma {:induction false} ClearRunKeepsInv(run: seq<State>, steps: seq<Step>, n: nat)
    requires IsRun(run, steps) && Init(run[0]) && n <= |steps| && ClearRun(run, steps, n)
    ensures Inv(run[n])
  {
    if n == 0 {
      InitInv(run[0]);
    } else {
      ClearRunKeepsInv(run, steps, n - 1);
      NextKeepsInv(run[n - 1], steps[n - 1], run[n]);
    }
  }

  /** None of the first `n` steps flushes a memtable into a gap between the inputs of a running compaction. */
  ghost predicate OrderlyRun(run: seq<State>, steps: seq<Step>, n: nat)
    requires n <= |steps| < |run|
  {
    forall i {:trigger steps[i]} :: 0 <= i < n ==> !FlushesIntoGap(run[i], steps[i])
  }

  /** Over any run from the empty database, whatever compactions are started, the invariant holds as long as
      no memtable is flushed into a gap between the inputs of a running compaction; so do ends of compactions
      stay clear. */
  lemma {:induction false} RunKeepsInv(run: seq<State>, steps: seq<Step>, n: nat)
    requires IsRun(run, steps) && Init(run[0]) && n <= |steps| && OrderlyRun(run, steps, n)
    ensures Inv(run[n]) && JobUntouched(run[n]) && ClearRun(run, steps, n)
  {
    hide Inv, NextStep, ClearStep;
    if n == 0 {
      InitInv(run[0]);
    } else {
      RunKeepsInv(run, steps, n - 1);
      hide Init, JobUntouched, FlushesIntoGap;
      OrderlyStepKeeps(run[n - 1], steps[n - 1], run[n]);
    }
  }

  /** One step of a run keeps the answer of a live snapshot. */
  lemma LiveAnswerKept(s: State, step: Step, s': State, user: UserKey, snapshot: nat)
    requires Inv(s) && NextStep(s, step, s') && SafeStep(s, step) && snapshot in s.snapshots
    ensures Agree(Data(s), Data(s'), user, snapshot)
  {
    StepKeepsAnswers(s, step, s', user, snapshot);
  }

  lemma SelfAgrees(s: State, user: UserKey, snapshot: nat)
    requires Inv(s)
    ensures Agree(Data(s), Data(s), user, snapshot)
  {
    DataUnique(s);
    AgreeSelf(Data(s), user, snapshot);
  }

  lemma KeptSoFar(before: set<Entry>, s: State, step: Step, s': State, user: UserKey, snapshot: nat)
    requires Inv(s) && NextStep(s, step, s') && SafeStep(s, step) && snapshot in s.snapshots
    requires Agree(before, Data(s), user, snapshot)
    ensures Agree(before, Data(s'), user, snapshot)
  {
    LiveAnswerKept(s, step, s', user, snapshot);
    AgreeTransitive(before, Data(s), Data(s'), user, snapshot);
  }

  /** While all ends of compactions are clear, a held snapshot sees the same answers. */
  lemma {:induction false} StableWhileClear(run: seq<State>, steps: seq<Step>, i: nat, k: nat, user: UserKey, snapshot: nat)
    requires IsRun(run, steps) && Init(run[0]) && i <= k <= |steps| && ClearRun(run, steps, k)
    requires forall n :: i <= n <= k ==> snapshot in run[n].snapshots
    requires forall n {:trigger steps[n]} :: i <= n < k ==> SafeStep(run[n], steps[n])
    ensures Agree(Data(run[i]), Data(run[k]), user, snapshot)
    decreases k
  {
    if i == k {
      ClearRunKeepsInv(run, steps, k);
      SelfAgrees(run[k], user, snapshot);
    } else {
      StableWhileClear(run, steps, i, k - 1, user, snapshot);
      ClearRunKeepsInv(run, steps, k - 1);
      KeptSoFar(Data(run[i]), run[k - 1], steps[k - 1], run[k], user, snapshot);
    }
  }

  /** Over any run from the empty database, a snapshot held from state `i` to state `k` sees the
      same answers all along, whatever flushes, moves, compactions and writes happen. */
  lemma SnapshotIsStable(run: seq<State>, steps: seq<Step>, i: nat, k: nat, user: UserKey, snapshot: nat)
    requires IsRun(run, steps) && Init(run[0]) && i <= k <= |steps| && OrderlyRun(run, steps, k)
    requires forall n :: i <= n <= k ==> snapshot in run[n].snapshots
    requires forall n {:trigger steps[n]} :: i <= n < k ==> SafeStep(run[n], steps[n])
    ensures Agree(Data(run[i]), Data(run[k]), user, snapshot)
  {
    RunKeepsInv(run, steps, k);
    StableWhileClear(run, steps, i, k, user, snapshot);
  }
}
