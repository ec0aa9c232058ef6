/** The log format: records cut into fragments inside 32 KB blocks (db/log_format.h,
    db/log_writer.cc, db/log_reader.cc).

  A position in a log is the start of its block and an offset in that block; the offset may
  be a whole block, as the writer's block_offset_ may. */
module LogFormat {
  import opened Wrappers
  import Coding
  import Crc32c

  const BLOCK: nat := 32768
  const HEADER: nat := 7

  const ZERO_TYPE: nat := 0
  const FULL_TYPE: nat := 1
  const FIRST_TYPE: nat := 2
  const MIDDLE_TYPE: nat := 3
  const LAST_TYPE: nat := 4
  /** What the reader says for the end of the file and for damage; it shares the numbers with stored types. */
  const EOF_TYPE: nat := 5
  const BAD_TYPE: nat := 6

  type Offset = n: nat | n <= BLOCK

  type Header = b: Bytes | |b| == HEADER witness [0, 0, 0, 0, 0, 0, 0]

  /** How a fragment's header is made from its type and payload, and which stored checksums the
      reader accepts for a type byte and payload. */
  datatype Scheme = Scheme(header: (nat, Bytes) -> Header, valid: (Bytes, Bytes) -> bool) {
    /** A header tells its payload's length and type, and its checksum is accepted. */
    ghost predicate Sound() {
      forall t: nat, data: Bytes | t <= LAST_TYPE && |data| < 0x1_0000 :: Tells(header(t, data), t, data)
    }

    predicate Tells(h: Header, t: nat, data: Bytes) {
      var low: nat, high: nat := h[4], h[5];
      low + 256 * high == |data| && h[6] == t && valid(h[..4], [h[6]] + data)
    }
  }

  /** A header: masked checksum of type and payload, length in two bytes, type. */
  function CrcHeader(t: nat, data: Bytes): Header {
    Coding.Fixed32(Crc32c.Mask(Crc32c.Checksum([t % 256] + data))) + [|data| % 256, |data| / 256 % 256, t % 256]
  }

  predicate CrcMatches(stored: Bytes, payload: Bytes) {
    Coding.DecodeFixedBound(stored);
    Coding.Pow256Values();
    |stored| == 4 && Crc32c.Unmask(Coding.DecodeFixed(stored)) == Crc32c.Checksum(payload)
  }

  /** The scheme of the log files. */
  function CrcScheme(): Scheme {
    Scheme(CrcHeader, CrcMatches)
  }

  lemma CrcHeaderTells(t: nat, data: Bytes)
    requires t <= LAST_TYPE && |data| < 0x1_0000
    ensures CrcScheme().Tells(CrcHeader(t, data), t, data)
  {
    hide Crc32c.Checksum, Crc32c.Mask, Crc32c.Unmask, Coding.Fixed, Coding.DecodeFixed;
    var crc := Crc32c.Checksum([t] + data);
    Coding.Fixed32RoundTrip(Crc32c.Mask(crc));
    Crc32c.UnmaskMask(crc);
    assert CrcHeader(t, data)[..4] == Coding.Fixed32(Crc32c.Mask(crc));
  }

  /** Of all stored checksums, a single one is accepted for a type byte and payload. */
  lemma AcceptedIff(stored: Bytes, payload: Bytes)
    ensures CrcMatches(stored, payload) <==> stored == Coding.Fixed32(Crc32c.Mask(Crc32c.Checksum(payload)))
  {
    hide Crc32c.Checksum, Crc32c.Mask, Crc32c.Unmask, Coding.Fixed, Coding.DecodeFixed;
    var crc := Crc32c.Checksum(payload);
    Coding.Fixed32RoundTrip(Crc32c.Mask(crc));
    Crc32c.UnmaskMask(crc);
    if |stored| == 4 {
      Coding.DecodeFixedBound(stored);
      Coding.Pow256Values();
      Coding.FixedDecoded(stored);
      Crc32c.MaskUnmask(Coding.DecodeFixed(stored));
    }
  }

  /** The masked crc32c headers are sound. */
  lemma CrcSchemeIsSound()
    ensures CrcScheme().Sound()
  {
    forall t: nat, data: Bytes | t <= LAST_TYPE && |data| < 0x1_0000
      ensures CrcScheme().Tells(CrcScheme().header(t, data), t, data)
    {
      CrcHeaderTells(t, data);
    }
  }

  // ---------- What the writer emits ----------

  /** How many bytes of a block tail too short for a header are skipped. */
  function Skip(off: Offset): nat {
    if BLOCK - off < HEADER then BLOCK - off else 0
  }

  /** The block offset of the next header. */
  function HeaderAt(off: Offset): (o: Offset)
    ensures o + HEADER <= BLOCK
  {
    if BLOCK - off < HEADER then 0 else off
  }

  /** How much of the data goes into the next fragment. */
  function Take(off: Offset, data: Bytes): (n: nat)
    ensures n <= |data| && HeaderAt(off) + HEADER + n <= BLOCK
    ensures n < |data| ==> HeaderAt(off) + HEADER + n == BLOCK
  {
    var avail := BLOCK - HeaderAt(off) - HEADER;
    if |data| < avail then |data| else avail
  }

  /** The writer's block offset after the fragment. */
  function After(off: Offset, data: Bytes): Offset {
    HeaderAt(off) + HEADER + Take(off, data)
  }

  function Zeros(n: nat): (r: Bytes)
    ensures |r| == n
  {
    seq(n, i => 0)
  }

  function FragmentType(begin: bool, end: bool): (t: nat)
    ensures FULL_TYPE <= t <= LAST_TYPE
  {
    if begin && end then FULL_TYPE else if begin then FIRST_TYPE else if end then LAST_TYPE else MIDDLE_TYPE
  }

  /** EmitPhysicalRecord: header and payload. */
  function Physical(c: Scheme, t: nat, data: Bytes): (r: Bytes)
    ensures |r| == HEADER + |data|
  {
    c.header(t, data) + data
  }

  /** One turn of AddRecord's loop: the skipped tail and the fragment. */
  function FirstFragment(c: Scheme, off: Offset, data: Bytes, begin: bool): (r: Bytes)
    ensures |r| == Skip(off) + HEADER + Take(off, data)
  {
    var n := Take(off, data);
    Zeros(Skip(off)) + Physical(c, FragmentType(begin, n == |data|), data[..n])
  }

  /** A turn that takes no data ends its block, so the next one does. */
  function Stuck(off: Offset): nat {
    if HeaderAt(off) + HEADER == BLOCK then 1 else 0
  }

  /** The bytes AddRecord appends from block offset `off`. */
  function Emit(c: Scheme, off: Offset, data: Bytes, begin: bool): (r: Bytes)
    ensures |r| >= HEADER
    decreases |data|, Stuck(off)
  {
    if Take(off, data) == |data| then FirstFragment(c, off, data, begin)
    else FirstFragment(c, off, data, begin) + Emit(c, After(off, data), data[Take(off, data)..], false)
  }

  /** The block offset AddRecord ends at. */
  function EndOffset(off: Offset, data: Bytes): Offset
    decreases |data|, Stuck(off)
  {
    if Take(off, data) == |data| then After(off, data)
    else EndOffset(After(off, data), data[Take(off, data)..])
  }

  /** One turn of the loop, seen from what has been written before it. */
  lemma EmitStep(c: Scheme, before: Bytes, off: Offset, data: Bytes, begin: bool)
    ensures Take(off, data) == |data| ==>
      Emit(c, off, data, begin) == FirstFragment(c, off, data, begin) && EndOffset(off, data) == After(off, data)
    ensures Take(off, data) < |data| ==>
      && before + Emit(c, off, data, begin)
         == before + FirstFragment(c, off, data, begin) + Emit(c, After(off, data), data[Take(off, data)..], false)
      && EndOffset(off, data) == EndOffset(After(off, data), data[Take(off, data)..])
  {
  }

  // ---------- What the reader finds ----------

  /** Where a read goes on: the start of the block and the offset in it. */
  datatype Pos = Pos(base: nat, off: nat) {
    predicate In(f: Bytes) { off <= BLOCK && base + off <= |f| }

    function Abs(): nat { base + off }
  }

  datatype Phys = Eof | Bad(next: Pos, reports: nat) | Fragment(kind: nat, data: Bytes, next: Pos)

  function BlockLimit(f: Bytes, p: Pos): nat {
    if p.base + BLOCK < |f| then p.base + BLOCK else |f|
  }

  function Length(f: Bytes, s: nat): nat
    requires s + HEADER <= |f|
  {
    var low: nat, high: nat := f[s + 4], f[s + 5];
    low + 256 * high
  }

  predicate ChecksumOk(c: Scheme, f: Bytes, s: nat)
    requires s + HEADER <= |f| && s + HEADER + Length(f, s) <= |f|
  {
    c.valid(f[s..s + 4], f[s + 6..s + HEADER + Length(f, s)])
  }

  /** ReadPhysicalRecord: the block tail before the next header is skipped; a header or payload
      cut off by the end of the file is no corruption. */
  function ReadPhysical(c: Scheme, f: Bytes, p: Pos): (r: Phys)
    requires p.In(f)
    ensures !r.Eof? ==> r.next.In(f) && p.Abs() < r.next.Abs()
    decreases |f| - p.base
  {
    var s, end := p.Abs(), BlockLimit(f, p);
    var full := p.base + BLOCK <= |f|;
    if end - s < HEADER then
      if full then ReadPhysical(c, f, Pos(p.base + BLOCK, 0)) else Eof
    else if HEADER + Length(f, s) > end - s then
      if full then Bad(Pos(p.base, BLOCK), 1) else Eof
    else if f[s + 6] == ZERO_TYPE && Length(f, s) == 0 then Bad(Pos(p.base, end - p.base), 0)
    else if !ChecksumOk(c, f, s) then Bad(Pos(p.base, end - p.base), 1)
    else Fragment(f[s + 6], f[s + HEADER..s + HEADER + Length(f, s)], Pos(p.base, p.off + HEADER + Length(f, s)))
  }

  // ---------- Reading back one fragment ----------

  ghost predicate Holds(f: Bytes, p: nat, e: Bytes) {
    p + |e| <= |f| && f[p..p + |e|] == e
  }

  /** The file ends inside `e`, which starts at `p`. */
  ghost predicate EndsIn(f: Bytes, p: nat, e: Bytes) {
    p <= |f| < p + |e| && f[p..] == e[..|f| - p]
  }

  lemma SubHolds(f: Bytes, p: nat, a: Bytes, b: Bytes)
    requires Holds(f, p, a + b)
    ensures Holds(f, p, a) && Holds(f, p + |a|, b)
  {
    assert f[p..p + |a|] == f[p..p + |a + b|][..|a|];
    assert f[p + |a|..p + |a| + |b|] == f[p..p + |a + b|][|a|..];
  }

  lemma TornRest(f: Bytes, pos: nat, a: Bytes, b: Bytes)
    requires EndsIn(f, pos, a + b) && pos + |a| <= |f|
    ensures Holds(f, pos, a) && EndsIn(f, pos + |a|, b)
  {
    assert f[pos..pos + |a|] == f[pos..][..|a|];
    assert f[pos + |a|..] == f[pos..][|a|..];
    assert (a + b)[..|f| - pos][|a|..] == b[..|f| - pos - |a|];
  }

  lemma TornFirst(f: Bytes, pos: nat, a: Bytes, b: Bytes)
    requires EndsIn(f, pos, a + b) && |f| < pos + |a|
    ensures EndsIn(f, pos, a)
  {
    assert (a + b)[..|f| - pos] == a[..|f| - pos];
  }

  /** The header and payload of a complete fragment. */
  lemma HeaderReadsBack(c: Scheme, f: Bytes, s: nat, t: nat, data: Bytes)
    requires c.Sound() && t <= LAST_TYPE && |data| < 0x1_0000
    requires Holds(f, s, Physical(c, t, data))
    ensures Length(f, s) == |data| && f[s + 6] == t
    ensures f[s + HEADER..s + HEADER + |data|] == data
    ensures ChecksumOk(c, f, s)
  {
    var h, e := c.header(t, data), Physical(c, t, data);
    assert c.Tells(h, t, data);
    assert e == h + data;
    SubHolds(f, s, h, data);
    assert f[s..s + HEADER] == h;
    assert f[s..s + 4] == h[..4] && f[s + 4] == h[4] && f[s + 5] == h[5] && f[s + 6] == h[6];
    assert f[s + 6..s + HEADER + |data|] == [h[6]] + data;
  }

  /** A complete fragment inside one block reads back as itself. */
  lemma PhysicalReadsBack(c: Scheme, f: Bytes, p: Pos, t: nat, data: Bytes)
    requires c.Sound()
    requires p.off + HEADER + |data| <= BLOCK && FULL_TYPE <= t <= LAST_TYPE
    requires Holds(f, p.Abs(), Physical(c, t, data))
    ensures ReadPhysical(c, f, p) == Fragment(t, data, Pos(p.base, p.off + HEADER + |data|))
  {
    HeaderReadsBack(c, f, p.Abs(), t, data);
  }

  /** The position of the next header, the tail of a block skipped. */
  function HeaderPos(base: nat, off: Offset): Pos {
    Pos(base + off + Skip(off) - HeaderAt(off), HeaderAt(off))
  }

  /** The reader skips the tail of a block just as the writer does. */
  lemma SkipsTail(c: Scheme, f: Bytes, base: nat, off: Offset)
    requires base + off + Skip(off) <= |f|
    ensures ReadPhysical(c, f, Pos(base, off)) == ReadPhysical(c, f, HeaderPos(base, off))
  {
  }

  lemma FragmentReadsBack(c: Scheme, f: Bytes, base: nat, off: Offset, data: Bytes, begin: bool)
    requires c.Sound()
    requires Holds(f, base + off, FirstFragment(c, off, data, begin))
    ensures ReadPhysical(c, f, Pos(base, off))
      == Fragment(FragmentType(begin, Take(off, data) == |data|), data[..Take(off, data)],
                  Pos(HeaderPos(base, off).base, After(off, data)))
  {
    var n := Take(off, data);
    SubHolds(f, base + off, Zeros(Skip(off)), Physical(c, FragmentType(begin, n == |data|), data[..n]));
    SkipsTail(c, f, base, off);
    PhysicalReadsBack(c, f, HeaderPos(base, off), FragmentType(begin, n == |data|), data[..n]);
  }

  /** A header or payload that the file does not hold in full is the end of the file. */
  lemma TornPhysicalIsEof(c: Scheme, f: Bytes, p: Pos, t: nat, data: Bytes)
    requires p.off + HEADER + |data| <= BLOCK && FULL_TYPE <= t <= LAST_TYPE
    requires c.Sound() && EndsIn(f, p.Abs(), Physical(c, t, data))
    ensures ReadPhysical(c, f, p) == Eof
  {
    var s, e := p.Abs(), Physical(c, t, data);
    assert c.Tells(c.header(t, data), t, data);
    if |f| - s >= HEADER {
      assert f[s..][4] == e[4] && f[s..][5] == e[5];
      assert Length(f, s) == |data|;
    }
  }

  lemma TornFragmentIsEof(c: Scheme, f: Bytes, base: nat, off: Offset, data: Bytes, begin: bool)
    requires c.Sound() && EndsIn(f, base + off, FirstFragment(c, off, data, begin))
    ensures ReadPhysical(c, f, Pos(base, off)) == Eof
  {
    var n := Take(off, data);
    var physical := Physical(c, FragmentType(begin, n == |data|), data[..n]);
    if |f| < base + off + Skip(off) {
    } else {
      TornRest(f, base + off, Zeros(Skip(off)), physical);
      SkipsTail(c, f, base, off);
      TornPhysicalIsEof(c, f, HeaderPos(base, off), FragmentType(begin, n == |data|), data[..n]);
    }
  }
}
