/** What survives a crash: any prefix of a log reads back as exactly the records it holds in
    full (db/log_writer.cc, db/log_reader.cc). */
module LogSafety {
  import opened Wrappers
  import opened LogFormat

  // ---------- Putting fragments together ----------

  /** What the reader makes of one stretch of the file. */
  datatype Item = Damage(reports: nat) | Piece(kind: nat, data: Bytes)

  /** Everything ReadPhysicalRecord will deliver from a position on. */
  function Items(c: Scheme, f: Bytes, p: Pos): seq<Item>
    requires p.In(f)
    decreases |f| - p.Abs()
  {
    match ReadPhysical(c, f, p)
    case Eof => []
    case Bad(next, reports) => [Damage(reports)] + Items(c, f, next)
    case Fragment(kind, data, next) => [Piece(kind, data)] + Items(c, f, next)
  }

  lemma NextBlock(c: Scheme, f: Bytes, p: Pos)
    requires p.In(f) && p.base + BLOCK <= |f| && BLOCK - p.off < HEADER
    ensures Items(c, f, Pos(p.base + BLOCK, 0)) == Items(c, f, p)
  {
  }

  lemma LastBlock(c: Scheme, f: Bytes, p: Pos)
    requires p.In(f) && |f| < p.base + BLOCK && |f| - p.Abs() < HEADER
    ensures Items(c, f, p) == []
  {
  }

  /** What one call of ReadRecord delivers: a record if any, what is left to read, and how many
      corruptions it reported. */
  datatype Rec = Rec(record: Option<Bytes>, rest: seq<Item>, reports: nat) {
    function Plus(n: nat): Rec { this.(reports := reports + n) }
  }

  /** A leftover of an unfinished record is reported unless it is empty. */
  function Unfinished(scratch: Option<Bytes>): nat {
    if scratch.Some? && scratch.value != [] then 1 else 0
  }

  /** ReadRecord; `scratch` holds the fragments of an unfinished record. */
  function ReadRecord(items: seq<Item>, scratch: Option<Bytes>): (r: Rec)
    ensures r.record.Some? ==> |r.rest| < |items|
  {
    if items == [] then Rec(None, [], 0)
    else
      var rest := items[1..];
      match items[0]
      case Damage(reports) => ReadRecord(rest, None).Plus(reports + if scratch.Some? then 1 else 0)
      case Piece(kind, data) =>
        if kind == FULL_TYPE then Rec(Some(data), rest, Unfinished(scratch))
        else if kind == FIRST_TYPE then ReadRecord(rest, Some(data)).Plus(Unfinished(scratch))
        else if kind == MIDDLE_TYPE && scratch.Some? then ReadRecord(rest, Some(scratch.value + data))
        else if kind == LAST_TYPE && scratch.Some? then Rec(Some(scratch.value + data), rest, 0)
        else if kind == EOF_TYPE then Rec(None, rest, 0)
        else if kind == BAD_TYPE then ReadRecord(rest, None).Plus(if scratch.Some? then 1 else 0)
        else ReadRecord(rest, None).Plus(1)
  }

  /** A fragment of a type that is never written is reported and skipped, exactly unless its type is the reader's
      own sign for the end of the file, which ends the read, or that for damage with no record begun. */
  lemma UnknownTypeIsReportedIff(kind: nat, data: Bytes, rest: seq<Item>, scratch: Option<Bytes>)
    requires kind < FULL_TYPE || kind > LAST_TYPE
    ensures
      ReadRecord([Piece(kind, data)] + rest, scratch) == ReadRecord(rest, None).Plus(1)
      <==> kind != EOF_TYPE && (kind == BAD_TYPE ==> scratch.Some?)
  {
    var items := [Piece(kind, data)] + rest;
    assert items[0] == Piece(kind, data) && items[1..] == rest;
  }

  /** All records, read one after the other until none is left, and all corruptions reported. */
  function ReadAll(items: seq<Item>): (seq<Bytes>, nat)
    decreases |items|
  {
    var rec := ReadRecord(items, None);
    if rec.record.None? then ([], rec.reports)
    else
      var rest := ReadAll(rec.rest);
      ([rec.record.value] + rest.0, rec.reports + rest.1)
  }

  /** The fragments a record is cut into. */
  function Cut(off: Offset, data: Bytes, begin: bool): (r: seq<Item>)
    ensures r != []
    decreases |data|, Stuck(off)
  {
    var n := Take(off, data);
    if n == |data| then [Piece(FragmentType(begin, true), data)]
    else [Piece(FragmentType(begin, false), data[..n])] + Cut(After(off, data), data[n..], false)
  }

  function Sofar(scratch: Option<Bytes>): Bytes {
    if scratch.Some? then scratch.value else []
  }

  /** The fragments of a record are put together again, without a corruption report. */
  lemma {:induction false} CutRecordIsRead(off: Offset, data: Bytes, scratch: Option<Bytes>, rest: seq<Item>)
    ensures ReadRecord(Cut(off, data, scratch.None?) + rest, scratch) == Rec(Some(Sofar(scratch) + data), rest, 0)
    decreases |data|, Stuck(off)
  {
    var n, items := Take(off, data), Cut(off, data, scratch.None?) + rest;
    assert items[0] == Cut(off, data, scratch.None?)[0];
    if n == |data| {
      assert items[1..] == rest;
      assert [] + data == data;
    } else {
      var sofar := Sofar(scratch) + data[..n];
      assert items[1..] == Cut(After(off, data), data[n..], false) + rest;
      CutRecordIsRead(After(off, data), data[n..], Some(sofar), rest);
      assert sofar + data[n..] == Sofar(scratch) + data;
      assert [] + data[..n] == data[..n];
    }
  }

  /** A record some of whose fragments are missing at the end is dropped without a report. */
  lemma {:induction false} TornRecordIsDropped(off: Offset, data: Bytes, scratch: Option<Bytes>, items: seq<Item>)
    requires items < Cut(off, data, scratch.None?)
    ensures ReadRecord(items, scratch) == Rec(None, [], 0)
    decreases |data|, Stuck(off)
  {
    var n := Take(off, data);
    if items != [] {
      assert n < |data|;
      TornRecordIsDropped(After(off, data), data[n..], Some(Sofar(scratch) + data[..n]), items[1..]);
      assert [] + data[..n] == data[..n];
    }
  }

  // ---------- The fragments found in a file ----------

  /** Where AddRecord's output ends, when it starts at an offset of the block at `base`. */
  function EndPos(base: nat, off: Offset, data: Bytes): (p: Pos)
    ensures p.off <= BLOCK
    decreases |data|, Stuck(off)
  {
    var next := HeaderPos(base, off).base;
    if Take(off, data) == |data| then Pos(next, After(off, data))
    else EndPos(next, After(off, data), data[Take(off, data)..])
  }

  lemma {:induction false} EndPosIsEnd(c: Scheme, base: nat, off: Offset, data: Bytes, begin: bool)
    ensures EndPos(base, off, data).off == EndOffset(off, data)
    ensures EndPos(base, off, data).Abs() == base + off + |Emit(c, off, data, begin)|
    decreases |data|, Stuck(off)
  {
    if Take(off, data) < |data| {
      EndPosIsEnd(c, HeaderPos(base, off).base, After(off, data), data[Take(off, data)..], false);
    }
  }

  lemma HeldFirst(c: Scheme, f: Bytes, base: nat, off: Offset, data: Bytes, begin: bool)
    requires Holds(f, base + off, Emit(c, off, data, begin))
    ensures Holds(f, base + off, FirstFragment(c, off, data, begin))
    ensures Take(off, data) < |data| ==>
      Holds(f, HeaderPos(base, off).base + After(off, data), Emit(c, After(off, data), data[Take(off, data)..], false))
  {
    if Take(off, data) < |data| {
      SubHolds(f, base + off, FirstFragment(c, off, data, begin), Emit(c, After(off, data), data[Take(off, data)..], false));
    }
  }

  /** A record held in full is found as the fragments it was cut into. */
  lemma {:induction false} HeldRecordIsCut(c: Scheme, f: Bytes, base: nat, off: Offset, data: Bytes, begin: bool)
    requires c.Sound()
    requires Holds(f, base + off, Emit(c, off, data, begin))
    ensures EndPos(base, off, data).In(f)
    ensures Items(c, f, Pos(base, off)) == Cut(off, data, begin) + Items(c, f, EndPos(base, off, data))
    decreases |data|, Stuck(off)
  {
    EndPosIsEnd(c, base, off, data, begin);
    HeldFirst(c, f, base, off, data, begin);
    FragmentReadsBack(c, f, base, off, data, begin);
    if Take(off, data) == |data| {
      TakeAll(data);
    } else {
      HeldRecordIsCut(c, f, HeaderPos(base, off).base, After(off, data), data[Take(off, data)..], false);
    }
  }

  lemma TornSplit(c: Scheme, f: Bytes, base: nat, off: Offset, data: Bytes, begin: bool)
    requires EndsIn(f, base + off, Emit(c, off, data, begin))
    ensures EndsIn(f, base + off, FirstFragment(c, off, data, begin))
      || (Take(off, data) < |data| && Holds(f, base + off, FirstFragment(c, off, data, begin))
          && EndsIn(f, HeaderPos(base, off).base + After(off, data), Emit(c, After(off, data), data[Take(off, data)..], false)))
  {
    var first := FirstFragment(c, off, data, begin);
    if Take(off, data) < |data| {
      var rest := Emit(c, After(off, data), data[Take(off, data)..], false);
      if base + off + |first| <= |f| {
        TornRest(f, base + off, first, rest);
      } else {
        TornFirst(f, base + off, first, rest);
      }
    }
  }

  /** Of a record cut off by the end of the file only some first fragments are found. */
  lemma {:induction false} TornRecordIsPrefix(c: Scheme, f: Bytes, base: nat, off: Offset, data: Bytes, begin: bool)
    requires c.Sound()
    requires EndsIn(f, base + off, Emit(c, off, data, begin))
    ensures Items(c, f, Pos(base, off)) < Cut(off, data, begin)
    decreases |data|, Stuck(off)
  {
    TornSplit(c, f, base, off, data, begin);
    if EndsIn(f, base + off, FirstFragment(c, off, data, begin)) {
      TornFragmentIsEof(c, f, base, off, data, begin);
    } else {
      FragmentReadsBack(c, f, base, off, data, begin);
      TornRecordIsPrefix(c, f, HeaderPos(base, off).base, After(off, data), data[Take(off, data)..], false);
    }
  }

  // ---------- Whole logs ----------

  /** The bytes of a list of records added one after the other. */
  function EmitAll(c: Scheme, off: Offset, records: seq<Bytes>): Bytes
    decreases |records|
  {
    if records == [] then [] else Emit(c, off, records[0], true) + EmitAll(c, EndOffset(off, records[0]), records[1..])
  }

  function EndOfAll(off: Offset, records: seq<Bytes>): Offset
    decreases |records|
  {
    if records == [] then off else EndOfAll(EndOffset(off, records[0]), records[1..])
  }

  /** How many of the records lie wholly within the first `n` bytes. */
  function Complete(c: Scheme, off: Offset, records: seq<Bytes>, n: nat): (k: nat)
    ensures k <= |records|
    decreases |records|
  {
    if records == [] || n < |Emit(c, off, records[0], true)| then 0
    else 1 + Complete(c, EndOffset(off, records[0]), records[1..], n - |Emit(c, off, records[0], true)|)
  }

  /** Complete is what its name says: the longest list of records that fits. */
  lemma {:induction false} CompleteIsLongest(c: Scheme, off: Offset, records: seq<Bytes>, n: nat, k: nat)
    requires k <= |records|
    ensures |EmitAll(c, off, records[..k])| <= n <==> k <= Complete(c, off, records, n)
    decreases |records|
  {
    if records != [] && k > 0 {
      var size := |Emit(c, off, records[0], true)|;
      assert records[..k][1..] == records[1..][..k - 1];
      if size <= n {
        CompleteIsLongest(c, EndOffset(off, records[0]), records[1..], n - size, k - 1);
      }
    }
  }

  /** The file ends with a prefix of what the writer emitted. */
  ghost predicate EndsWithin(f: Bytes, pos: nat, e: Bytes) {
    pos <= |f| <= pos + |e| && f[pos..] == e[..|f| - pos]
  }

  lemma EndOfFile(c: Scheme, f: Bytes, p: Pos)
    requires p.off <= BLOCK && p.Abs() == |f|
    ensures Items(c, f, p) == []
  {
    assert ReadPhysical(c, f, p) == Eof;
  }

  lemma SplitWithin(f: Bytes, pos: nat, a: Bytes, b: Bytes)
    requires EndsWithin(f, pos, a + b)
    ensures |f| < pos + |a| ==> EndsIn(f, pos, a)
    ensures pos + |a| <= |f| ==> Holds(f, pos, a) && EndsWithin(f, pos + |a|, b)
  {
    if |f| < pos + |a| {
      assert (a + b)[..|f| - pos] == a[..|f| - pos];
    } else {
      assert f[pos..pos + |a|] == f[pos..][..|a|];
      assert f[pos + |a|..] == f[pos..][|a|..];
      assert (a + b)[..|f| - pos][|a|..] == b[..|f| - pos - |a|];
    }
  }

  lemma ReadAllHeld(c: Scheme, f: Bytes, base: nat, off: Offset, data: Bytes)
    requires c.Sound() && Holds(f, base + off, Emit(c, off, data, true))
    ensures EndPos(base, off, data).In(f)
    ensures ReadAll(Items(c, f, Pos(base, off)))
      == ([data] + ReadAll(Items(c, f, EndPos(base, off, data))).0, ReadAll(Items(c, f, EndPos(base, off, data))).1)
  {
    HeldRecordIsCut(c, f, base, off, data, true);
    CutRecordIsRead(off, data, None, Items(c, f, EndPos(base, off, data)));
    assert [] + data == data;
  }

  lemma ReadAllTorn(c: Scheme, f: Bytes, base: nat, off: Offset, data: Bytes)
    requires c.Sound() && EndsIn(f, base + off, Emit(c, off, data, true))
    ensures ReadAll(Items(c, f, Pos(base, off))) == ([], 0)
  {
    TornRecordIsPrefix(c, f, base, off, data, true);
    TornRecordIsDropped(off, data, None, Items(c, f, Pos(base, off)));
  }

  lemma TakeOneMore<T>(s: seq<T>, n: nat)
    requires n < |s|
    ensures s[..1 + n] == [s[0]] + s[1..][..n]
  {
  }

  lemma {:induction false} PrefixReadsBack(c: Scheme, f: Bytes, base: nat, off: Offset, records: seq<Bytes>)
    requires c.Sound()
    requires EndsWithin(f, base + off, EmitAll(c, off, records))
    ensures ReadAll(Items(c, f, Pos(base, off))) == (records[..Complete(c, off, records, |f| - base - off)], 0)
    decreases |records|
  {
    hide Items, ReadAll, ReadPhysical, Emit, EndPos;
    if records == [] {
      NothingLeft(c, f, base, off);
    } else {
      var data := records[0];
      var first, end := Emit(c, off, data, true), EndOffset(off, data);
      SplitWithin(f, base + off, first, EmitAll(c, end, records[1..]));
      if |f| < base + off + |first| {
        ReadAllTorn(c, f, base, off, data);
      } else {
        var next := HeldEnd(c, f, base, off, data);
        PrefixReadsBack(c, f, next.base, end, records[1..]);
        ReadsOneMore(c, f, base, off, records, Complete(c, end, records[1..], |f| - next.base - end));
      }
    }
  }

  lemma NothingLeft(c: Scheme, f: Bytes, base: nat, off: Offset)
    requires EndsWithin(f, base + off, [])
    ensures Items(c, f, Pos(base, off)) == [] && ReadAll([]) == ([], 0)
  {
    EndOfFile(c, f, Pos(base, off));
  }

  lemma HeldEnd(c: Scheme, f: Bytes, base: nat, off: Offset, data: Bytes) returns (next: Pos)
    requires c.Sound() && Holds(f, base + off, Emit(c, off, data, true))
    ensures next == EndPos(base, off, data) == Pos(next.base, EndOffset(off, data)) && next.In(f)
    ensures next.base + EndOffset(off, data) == base + off + |Emit(c, off, data, true)|
  {
    next := EndPos(base, off, data);
    EndPosIsEnd(c, base, off, data, true);
    HeldRecordIsCut(c, f, base, off, data, true);
  }

  /** A record held in full comes before what is read from its end on. */
  lemma ReadsOneMore(c: Scheme, f: Bytes, base: nat, off: Offset, records: seq<Bytes>, n: nat)
    requires c.Sound() && n < |records| && Holds(f, base + off, Emit(c, off, records[0], true))
    requires EndPos(base, off, records[0]).In(f)
    requires ReadAll(Items(c, f, EndPos(base, off, records[0]))) == (records[1..][..n], 0)
    ensures ReadAll(Items(c, f, Pos(base, off))) == (records[..1 + n], 0)
  {
    ReadAllHeld(c, f, base, off, records[0]);
    TakeOneMore(records, n);
  }

  lemma AllComplete(c: Scheme, off: Offset, records: seq<Bytes>)
    ensures Complete(c, off, records, |EmitAll(c, off, records)|) == |records|
  {
    TakeAll(records);
    CompleteIsLongest(c, off, records, |EmitAll(c, off, records)|, |records|);
  }

  /** Crash tolerance: whatever prefix of a log a crash leaves, reading it gives back exactly
      the records it holds in full, in order, and reports no corruption. Read to its end, a log
      gives back every record. */
  lemma LogCrashTolerance(c: Scheme, f: Bytes, records: seq<Bytes>)
    requires c.Sound()
    requires f <= EmitAll(c, 0, records)
    ensures ReadAll(Items(c, f, Pos(0, 0))) == (records[..Complete(c, 0, records, |f|)], 0)
    ensures |f| == |EmitAll(c, 0, records)| ==> ReadAll(Items(c, f, Pos(0, 0))) == (records, 0)
  {
    hide Items, ReadAll, ReadPhysical, EmitAll, Complete;
    PrefixEndsWithin(f, EmitAll(c, 0, records));
    PrefixReadsBack(c, f, 0, 0, records);
    if |f| == |EmitAll(c, 0, records)| {
      AllComplete(c, 0, records);
      TakeAll(records);
    }
  }

  lemma PrefixEndsWithin(f: Bytes, e: Bytes)
    requires f <= e
    ensures EndsWithin(f, 0, e)
  {
  }

  lemma TakeAll<T>(s: seq<T>)
    ensures s[..|s|] == s
  {
  }

  // ---------- A writer reopened at the end of a log ----------

  lemma {:induction false} EmitAllAppend(c: Scheme, off: Offset, a: seq<Bytes>, b: seq<Bytes>)
    ensures EmitAll(c, off, a + b) == EmitAll(c, off, a) + EmitAll(c, EndOfAll(off, a), b)
    decreases |a|
  {
    if a == [] {
      assert a + b == b;
    } else {
      assert (a + b)[1..] == a[1..] + b;
      EmitAllAppend(c, EndOffset(off, a[0]), a[1..], b);
    }
  }

  /** Starting at the end of a block is starting at the beginning of the next. */
  lemma {:induction false} BlockEndIsBlockStart(c: Scheme, records: seq<Bytes>)
    ensures EmitAll(c, BLOCK, records) == EmitAll(c, 0, records)
  {
    if records != [] {
      assert Emit(c, BLOCK, records[0], true) == Emit(c, 0, records[0], true);
      assert EndOffset(BLOCK, records[0]) == EndOffset(0, records[0]);
    }
  }

  lemma {:induction false} EndOfAllPos(c: Scheme, base: nat, off: Offset, records: seq<Bytes>) returns (p: Pos)
    requires base % BLOCK == 0
    ensures p.base % BLOCK == 0 && p.off == EndOfAll(off, records)
    ensures p.Abs() == base + off + |EmitAll(c, off, records)|
    decreases |records|
  {
    if records == [] {
      p := Pos(base, off);
    } else {
      EndPosIsEnd(c, base, off, records[0], true);
      EndPosAligned(base, off, records[0]);
      p := EndOfAllPos(c, EndPos(base, off, records[0]).base, EndOffset(off, records[0]), records[1..]);
    }
  }

  lemma {:induction false} EndPosAligned(base: nat, off: Offset, data: Bytes)
    requires base % BLOCK == 0
    ensures EndPos(base, off, data).base % BLOCK == 0
    decreases |data|, Stuck(off)
  {
    var next := HeaderPos(base, off).base;
    assert next == base || next == base + BLOCK;
    if Take(off, data) < |data| {
      EndPosAligned(next, After(off, data), data[Take(off, data)..]);
    }
  }

  lemma OffsetOf(base: nat, off: Offset)
    requires base % BLOCK == 0
    ensures (base + off) % BLOCK == if off == BLOCK then 0 else off
  {
  }

  /** A writer that starts at the length of an existing log, modulo the block size, goes on as
      the first writer would have. */
  lemma ReopenedWriterContinues(c: Scheme, a: seq<Bytes>, b: seq<Bytes>)
    ensures EmitAll(c, 0, a + b) == EmitAll(c, 0, a) + EmitAll(c, |EmitAll(c, 0, a)| % BLOCK, b)
  {
    var p := EndOfAllPos(c, 0, 0, a);
    OffsetOf(p.base, p.off);
    BlockEndIsBlockStart(c, b);
    EmitAllAppend(c, 0, a, b);
  }

  // ---------- Damage ----------

  /** Fragments without a first one are dropped, each with a report. */
  lemma {:induction false} OrphansAreDropped(off: Offset, data: Bytes, rest: seq<Item>)
    ensures ReadRecord(Cut(off, data, false) + rest, None) == ReadRecord(rest, None).Plus(|Cut(off, data, false)|)
    decreases |data|, Stuck(off)
  {
    var n, items := Take(off, data), Cut(off, data, false) + rest;
    assert items[0] == Cut(off, data, false)[0];
    if n == |data| {
      assert items[1..] == rest;
    } else {
      assert items[1..] == Cut(After(off, data), data[n..], false) + rest;
      OrphansAreDropped(After(off, data), data[n..], rest);
    }
  }

  /** The fragments of a record with damage in the place of the one at `k`. */
  function CutDamaged(off: Offset, data: Bytes, begin: bool, k: nat, reports: nat): seq<Item>
    requires k < |Cut(off, data, begin)|
  {
    Cut(off, data, begin)[..k] + [Damage(reports)] + Cut(off, data, begin)[k + 1..]
  }

  /** A record with a damaged fragment is dropped as a whole, and reading goes on behind it: what was put together
      so far is reported once, and each fragment after the damage. */
  lemma {:induction false} DamagedRecordIsDropped(off: Offset, data: Bytes, scratch: Option<Bytes>, k: nat, reports: nat, rest: seq<Item>)
    requires k < |Cut(off, data, scratch.None?)|
    ensures
      ReadRecord(CutDamaged(off, data, scratch.None?, k, reports) + rest, scratch)
      == ReadRecord(rest, None).Plus(reports + (if k > 0 || scratch.Some? then 1 else 0) + (|Cut(off, data, scratch.None?)| - k - 1))
    decreases |data|, Stuck(off)
  {
    var cut := Cut(off, data, scratch.None?);
    var n, items := Take(off, data), CutDamaged(off, data, scratch.None?, k, reports) + rest;
    if k == 0 {
      assert items[0] == Damage(reports) && items[1..] == cut[1..] + rest;
      if n == |data| {
        assert cut[1..] + rest == rest;
      } else {
        assert cut[1..] == Cut(After(off, data), data[n..], false);
        OrphansAreDropped(After(off, data), data[n..], rest);
      }
    } else {
      var sofar := Sofar(scratch) + data[..n];
      assert items[0] == cut[0] && cut[1..] == Cut(After(off, data), data[n..], false);
      assert items[1..] == CutDamaged(After(off, data), data[n..], false, k - 1, reports) + rest;
      DamagedRecordIsDropped(After(off, data), data[n..], Some(sofar), k - 1, reports, rest);
      assert [] + data[..n] == data[..n];
    }
  }

  /** In a block that the file holds in full, a header whose payload does not fit the block or whose checksum is not
      the stored one. */
  ghost predicate DamagedAt(c: Scheme, f: Bytes, base: nat, off: nat) {
    && base + BLOCK <= |f| && off + HEADER <= BLOCK
    && var n, s := Length(f, base + off), base + off;
       if off + HEADER + n > BLOCK then true
       else !(f[s + 6] == 0 && n == 0) && !c.valid(f[s..s + 4], f[s + 6..s + HEADER + n])
  }

  /** Nothing in the block behind damage is read: the reader goes on with the next block. */
  lemma RestOfBlockIsDropped(c: Scheme, f: Bytes, base: nat, off: nat)
    requires DamagedAt(c, f, base, off)
    ensures Items(c, f, Pos(base, off)) == [Damage(1)] + Items(c, f, Pos(base + BLOCK, 0))
  {
    assert ReadPhysical(c, f, Pos(base, off)) == Bad(Pos(base, BLOCK), 1);
    NextBlock(c, f, Pos(base, BLOCK));
  }

  lemma DamageIsReported(items: seq<Item>, reports: nat)
    ensures ReadAll([Damage(reports)] + items) == (ReadAll(items).0, ReadAll(items).1 + reports)
  {
    assert ([Damage(reports)] + items)[1..] == items;
  }

  /** Records held in full are read before anything that follows them. */
  lemma {:induction false} HeldAreRead(c: Scheme, f: Bytes, base: nat, off: Offset, records: seq<Bytes>) returns (p: Pos)
    requires c.Sound() && base % BLOCK == 0 && base + off <= |f| && Holds(f, base + off, EmitAll(c, off, records))
    ensures p.In(f) && p.base % BLOCK == 0 && p.off == EndOfAll(off, records)
    ensures p.Abs() == base + off + |EmitAll(c, off, records)|
    ensures ReadAll(Items(c, f, Pos(base, off))) == (records + ReadAll(Items(c, f, p)).0, ReadAll(Items(c, f, p)).1)
    decreases |records|
  {
    hide Items, ReadAll, ReadPhysical, Emit, EndPos;
    if records == [] {
      p := Pos(base, off);
      assert records + ReadAll(Items(c, f, p)).0 == ReadAll(Items(c, f, p)).0;
    } else {
      var data, end := records[0], EndOffset(off, records[0]);
      SubHolds(f, base + off, Emit(c, off, data, true), EmitAll(c, end, records[1..]));
      var next := HeldEnd(c, f, base, off, data);
      EndPosAligned(base, off, data);
      p := HeldAreRead(c, f, next.base, end, records[1..]);
      ReadAllHeld(c, f, base, off, data);
      assert [data] + (records[1..] + ReadAll(Items(c, f, p)).0) == records + ReadAll(Items(c, f, p)).0;
    }
  }

  /** A log with records `before`, then damage where the next header is, and records `after` from the next block on
      reads as exactly these records, with one report, whatever the rest of the damaged block holds. */
  lemma DamageCostsOneBlock(c: Scheme, f: Bytes, before: seq<Bytes>, after: seq<Bytes>, base: nat, off: nat)
    requires c.Sound() && Holds(f, 0, EmitAll(c, 0, before))
    requires base % BLOCK == 0 && base + off == |EmitAll(c, 0, before)| + Skip(|EmitAll(c, 0, before)| % BLOCK)
    requires DamagedAt(c, f, base, off)
    requires EndsWithin(f, base + BLOCK, EmitAll(c, 0, after))
    ensures
      ReadAll(Items(c, f, Pos(0, 0))) == (before + after[..Complete(c, 0, after, |f| - base - BLOCK)], 1)
  {
    hide Items, ReadAll, ReadPhysical, EmitAll, Complete, Length, EndsWithin;
    assert off + HEADER <= BLOCK && base + BLOCK <= |f|;
    var p := HeldAreRead(c, f, 0, 0, before);
    HeaderIsAt(p, base, off);
    hide DamagedAt, Skip;
    SameItems(c, f, p);
    PrefixReadsBack(c, f, base + BLOCK, 0, after);
    DamageIsReported(Items(c, f, Pos(base + BLOCK, 0)), 1);
    RestOfBlockIsDropped(c, f, base, off);
  }

  lemma SameItems(c: Scheme, f: Bytes, p: Pos)
    requires p.off <= BLOCK && p.Abs() + Skip(p.off) <= |f|
    ensures Items(c, f, p) == Items(c, f, HeaderPos(p.base, p.off))
  {
    SkipsTail(c, f, p.base, p.off);
  }

  /** Where the next header is, whether the last record ended inside a block or with it. */
  lemma HeaderIsAt(p: Pos, base: nat, off: nat)
    requires p.base % BLOCK == 0 && p.off <= BLOCK && base % BLOCK == 0 && off + HEADER <= BLOCK
    requires base + off == p.Abs() + Skip(p.Abs() % BLOCK)
    ensures HeaderPos(p.base, p.off) == Pos(base, off) && p.Abs() + Skip(p.off) == base + off
  {
    OffsetOf(p.base, p.off);
    var q := HeaderPos(p.base, p.off);
    assert q.base == p.base || q.base == p.base + BLOCK;
    assert q.Abs() == base + off;
    SameBlock(q.base, q.off, base, off);
  }

  lemma SameBlock(a: nat, i: nat, b: nat, j: nat)
    requires a % BLOCK == 0 && b % BLOCK == 0 && i < BLOCK && j < BLOCK && a + i == b + j
    ensures a == b && i == j
  {
  }
}
