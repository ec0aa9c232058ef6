/** log::Reader with initial offset 0 and checksums on (db/log_reader.cc). */
module LogReader {
  import opened Wrappers
  import opened LogFormat
  import LogSafety

  datatype Physical = AtEof | BadRecord | Found(kind: nat, data: Bytes)

  lemma SubSlice<T>(f: seq<T>, a: nat, b: nat, i: nat, j: nat)
    requires a <= b <= |f| && i <= j <= b - a
    ensures f[a..b][i..j] == f[a + i..a + j]
  {
    var g := f[a..b];
    assert forall k :: 0 <= k < |g| ==> g[k] == f[a + k];
    forall k | 0 <= k < j - i
      ensures g[i..j][k] == f[a + i..a + j][k]
    {
      assert g[i..j][k] == g[i + k];
    }
  }

  /** The part of ReadPhysicalRecord that looks at a header: `buffer` is the rest of the block
      that `p` is in, `taken` how much of it is done with. */
  method ParseHeader(scheme: Scheme, buffer: Bytes, eof: bool, ghost f: Bytes, ghost p: Pos)
    returns (r: Physical, taken: nat, reports: nat)
    requires p.In(f) && |buffer| >= HEADER && buffer == f[p.Abs()..BlockLimit(f, p)]
    requires eof <==> |f| < p.base + BLOCK
    ensures taken <= |buffer|
    ensures r.AtEof? ==> ReadPhysical(scheme, f, p) == Eof && eof && taken == |buffer| && reports == 0
    ensures r.BadRecord? ==> ReadPhysical(scheme, f, p) == Bad(Pos(p.base, p.off + taken), reports)
    ensures r.Found? ==> ReadPhysical(scheme, f, p) == Fragment(r.kind, r.data, Pos(p.base, p.off + taken)) && reports == 0
  {
    ghost var s := p.Abs();
    var low: nat, high: nat := buffer[4], buffer[5];
    var kind, length := buffer[6], low + 256 * high;
    assert length == Length(f, s) && kind == f[s + 6];
    taken, reports := |buffer|, 0;
    if HEADER + length > |buffer| {
      if !eof {
        reports := 1;
        return BadRecord, taken, reports;
      }
      return AtEof, taken, reports;
    }
    if kind == ZERO_TYPE && length == 0 {
      return BadRecord, taken, reports;
    }
    SubSlice(f, s, BlockLimit(f, p), 0, 4);
    SubSlice(f, s, BlockLimit(f, p), 6, HEADER + length);
    SubSlice(f, s, BlockLimit(f, p), HEADER, HEADER + length);
    if !scheme.valid(buffer[..4], buffer[6..HEADER + length]) {
      reports := 1;
      return BadRecord, taken, reports;
    }
    taken := HEADER + length;
    r := Found(kind, buffer[HEADER..HEADER + length]);
  }

  /** The buffer holds the rest of the block at `at`, or nothing has been read yet. */
  ghost predicate Buffered(file: Bytes, consumed: nat, buffer: Bytes, eof: bool, at: Pos)
    requires at.In(file)
  {
    if eof then consumed == |file| < at.base + BLOCK && buffer == file[at.Abs()..]
    else if consumed == at.base then consumed <= |file| && at.off == 0 && buffer == []
    else consumed == at.base + BLOCK <= |file| && buffer == file[at.Abs()..consumed]
  }

  lemma StaysBuffered(file: Bytes, consumed: nat, buffer: Bytes, eof: bool, at: Pos, taken: nat)
    requires at.In(file) && Buffered(file, consumed, buffer, eof, at) && (eof || consumed != at.base)
    requires taken <= |buffer|
    ensures Pos(at.base, at.off + taken).In(file)
    ensures Buffered(file, consumed, buffer[taken..], eof, Pos(at.base, at.off + taken))
  {
  }

  /** Reads the next block; a short one is the last. */
  method ReadBlock(file: Bytes, consumed: nat) returns (buffer: Bytes, end: nat, eof: bool)
    requires consumed <= |file|
    ensures Buffered(file, end, buffer, eof, Pos(consumed, 0)) && (|buffer| < BLOCK ==> eof)
    ensures eof || end == consumed + BLOCK
  {
    end := if consumed + BLOCK <= |file| then consumed + BLOCK else |file|;
    buffer := file[consumed..end];
    eof := end - consumed < BLOCK;
  }

  /** Either the buffer still holds a header or the next block was read. */
  ghost predicate Reached(file: Bytes, before: Pos, here: Pos) {
    here == before || (before.base + BLOCK <= |file| && BLOCK - before.off < HEADER && here == Pos(before.base + BLOCK, 0))
  }

  lemma Delivers(c: Scheme, file: Bytes, before: Pos, here: Pos, after: Pos)
    requires before.In(file) && here.In(file) && after.In(file) && Reached(file, before, here)
    ensures ReadPhysical(c, file, here).Eof? && |file| < after.base + BLOCK && after.Abs() == |file| ==>
      LogSafety.Items(c, file, before) == [] && LogSafety.Items(c, file, after) == []
    ensures ReadPhysical(c, file, here).Bad? && after == ReadPhysical(c, file, here).next ==>
      LogSafety.Items(c, file, before)
        == [LogSafety.Damage(ReadPhysical(c, file, here).reports)] + LogSafety.Items(c, file, after)
    ensures ReadPhysical(c, file, here).Fragment? && after == ReadPhysical(c, file, here).next ==>
      LogSafety.Items(c, file, before)
        == [LogSafety.Piece(ReadPhysical(c, file, here).kind, ReadPhysical(c, file, here).data)]
           + LogSafety.Items(c, file, after)
  {
    if here != before {
      LogSafety.NextBlock(c, file, before);
    }
    if |file| < after.base + BLOCK && after.Abs() == |file| {
      LogSafety.LastBlock(c, file, after);
    }
  }

  /** What ReadPhysicalRecord delivers once the buffer is filled, told in terms of the fragments
      still pending before and after. */
  method NextPhysical(scheme: Scheme, buffer: Bytes, eof: bool, ghost file: Bytes, ghost consumed: nat,
                      ghost before: Pos, ghost here: Pos)
    returns (r: Physical, taken: nat, dropped: nat, ghost after: Pos)
    requires before.In(file) && here.In(file) && Reached(file, before, here)
    requires Buffered(file, consumed, buffer, eof, here) && (eof || consumed == here.base + BLOCK)
    requires |buffer| < HEADER ==> eof
    ensures taken <= |buffer| && after == Pos(here.base, here.off + taken) && after.In(file)
    ensures Buffered(file, consumed, buffer[taken..], eof, after)
    ensures r.AtEof? ==>
      LogSafety.Items(scheme, file, before) == [] && LogSafety.Items(scheme, file, after) == [] && dropped == 0
    ensures r.BadRecord? ==>
      LogSafety.Items(scheme, file, before) == [LogSafety.Damage(dropped)] + LogSafety.Items(scheme, file, after)
    ensures r.Found? ==> dropped == 0
    ensures r.Found? ==>
      LogSafety.Items(scheme, file, before) == [LogSafety.Piece(r.kind, r.data)] + LogSafety.Items(scheme, file, after)
  {
    taken, dropped := |buffer|, 0;
    if |buffer| < HEADER {
      r := AtEof;
    } else {
      r, taken, dropped := ParseHeader(scheme, buffer, eof, file, here);
    }
    after := Pos(here.base, here.off + taken);
    StaysBuffered(file, consumed, buffer, eof, here, taken);
    Delivers(scheme, file, before, here, after);
  }

  class Reader {
    const scheme: Scheme
    const file: Bytes
    /** How much of the file has been read. */
    var consumed: nat
    var buffer: Bytes
    var eof: bool
    /** How many corruptions were reported. */
    var reports: nat
    /** The block the buffer was read from, and the place in it that is read next. */
    ghost var at: Pos

    /** The fragments still to be delivered. */
    ghost var pending: seq<LogSafety.Item>

    ghost predicate Valid()
      reads this
    {
      && at.In(file)
      && pending == LogSafety.Items(scheme, file, at)
      && Buffered(file, consumed, buffer, eof, at)
    }

    constructor (s: Scheme, f: Bytes)
      ensures Valid() && scheme == s && file == f && reports == 0 && pending == LogSafety.Items(s, f, Pos(0, 0))
    {
      scheme, file := s, f;
      consumed, buffer, eof, reports, at := 0, [], false, 0, Pos(0, 0);
      new;
      assert file == f && Buffered(file, consumed, buffer, eof, at);
      pending := LogSafety.Items(s, f, Pos(0, 0));
    }

    /** Fills the buffer until it holds a header, if the file does. */
    method FillBuffer()
      requires at.In(file) && Buffered(file, consumed, buffer, eof, at)
      modifies this`consumed, this`buffer, this`eof, this`at
      ensures at.In(file) && Buffered(file, consumed, buffer, eof, at) && (|buffer| < HEADER ==> eof)
      ensures eof || consumed == at.base + BLOCK
      ensures Reached(file, old(at), at)
    {
      while |buffer| < HEADER && !eof
        invariant at.In(file) && Buffered(file, consumed, buffer, eof, at)
        invariant unchanged(this) || |buffer| >= HEADER || eof
        invariant unchanged(this) || eof || consumed == at.base + BLOCK
        invariant Reached(file, old(at), at)
        decreases !eof, |file| - consumed
      {
        if consumed != at.base {
          at := Pos(at.base + BLOCK, 0);
        }
        buffer, consumed, eof := ReadBlock(file, consumed);
      }
    }

    /** Delivers the next fragment of the file, damage, or the end of the file. */
    method ReadPhysicalRecord() returns (r: Physical)
      requires Valid()
      modifies this`consumed, this`buffer, this`eof, this`at, this`reports, this`pending
      ensures Valid() && reports >= old(reports)
      ensures r.AtEof? ==> old(pending) == [] && pending == [] && reports == old(reports)
      ensures r.BadRecord? ==> old(pending) == [LogSafety.Damage(reports - old(reports))] + pending
      ensures r.Found? ==> old(pending) == [LogSafety.Piece(r.kind, r.data)] + pending && reports == old(reports)
    {
      hide LogSafety.Items, ReadPhysical;
      ghost var before := at;
      FillBuffer();
      ghost var after;
      var taken, dropped;
      r, taken, dropped, after := NextPhysical(scheme, buffer, eof, file, consumed, before, at);
      buffer, at := buffer[taken..], after;
      reports := reports + dropped;
      pending := LogSafety.Items(scheme, file, after);
    }

    /** Delivers the next record, if there is one; see LogSafety.ReadRecord. */
    method ReadRecord() returns (record: Option<Bytes>)
      requires Valid()
      modifies this`consumed, this`buffer, this`eof, this`at, this`reports, this`pending
      ensures Valid() && reports >= old(reports)
      ensures LogSafety.ReadRecord(old(pending), None) == LogSafety.Rec(record, pending, reports - old(reports))
    {
      hide LogSafety.Items, ReadPhysical;
      var scratch, inFragmentedRecord := [], false;
      while true
        invariant Valid() && reports >= old(reports)
        invariant !inFragmentedRecord ==> scratch == []
        invariant LogSafety.ReadRecord(old(pending), None)
               == LogSafety.ReadRecord(pending, if inFragmentedRecord then Some(scratch) else None).Plus(reports - old(reports))
        decreases |pending|
      {
        var found := ReadPhysicalRecord();
        match found
        case AtEof => return None;
        case BadRecord =>
          if inFragmentedRecord {
            reports := reports + 1;
            inFragmentedRecord, scratch := false, [];
          }
        case Found(kind, data) =>
          if kind == FULL_TYPE {
            if inFragmentedRecord && scratch != [] {
              reports := reports + 1;
            }
            return Some(data);
          } else if kind == FIRST_TYPE {
            if inFragmentedRecord && scratch != [] {
              reports := reports + 1;
            }
            scratch, inFragmentedRecord := data, true;
          } else if kind == MIDDLE_TYPE {
            if inFragmentedRecord {
              scratch := scratch + data;
            } else {
              reports := reports + 1;
            }
          } else if kind == LAST_TYPE {
            if inFragmentedRecord {
              return Some(scratch + data);
            } else {
              reports := reports + 1;
            }
          } else if kind == EOF_TYPE {
            return None;
          } else if kind == BAD_TYPE {
            if inFragmentedRecord {
              reports := reports + 1;
              inFragmentedRecord, scratch := false, [];
            }
          } else {
            reports := reports + 1;
            inFragmentedRecord, scratch := false, [];
          }
      }
    }
  }
}
