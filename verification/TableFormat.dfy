/** Block handles, the trailers of blocks, and the footer of a table file (table/format.cc). */
module TableFormat {
  import opened Wrappers
  import Coding
  import Crc32c

  // ---------- Block handles ----------

  datatype Handle = Handle(offset: nat, size: nat) {
    predicate Fits() { offset < Coding.TWO_64 && size < Coding.TWO_64 }
  }

  /** BlockHandle::EncodeTo. */
  function EncodeHandle(h: Handle): Bytes { Coding.Varint(h.offset) + Coding.Varint(h.size) }

  /** BlockHandle::DecodeFrom, with how much of the input it takes. */
  function GetHandle(b: Bytes): (r: Option<Coding.Decoded<Handle>>)
    ensures r.Some? ==> r.value.size <= |b|
  {
    match Coding.GetVarint64(b)
    case None => None
    case Some(offset) =>
      match Coding.GetVarint64(b[offset.size..])
      case None => None
      case Some(size) => Some(Coding.Decoded(Handle(offset.value, size.value), offset.size + size.size))
  }

  /** The longest handle takes two varints of ten bytes. */
  const MAX_HANDLE: nat := 20

  lemma HandleRoundTrip(h: Handle, rest: Bytes)
    requires h.Fits()
    ensures GetHandle(EncodeHandle(h) + rest) == Some(Coding.Decoded(h, |EncodeHandle(h)|))
    ensures |EncodeHandle(h)| <= MAX_HANDLE
  {
    var a, b := Coding.Varint(h.offset), Coding.Varint(h.size);
    Coding.Pow128Values();
    Coding.VarintRoundTrip(h.offset, [], 10);
    Coding.VarintRoundTrip(h.size, [], 10);
    hide Coding.Varint, Coding.Pow128;
    Coding.GetVarint64RoundTrip(h.offset, b + rest);
    assert EncodeHandle(h) + rest == a + (b + rest);
    assert (a + (b + rest))[|a|..] == b + rest;
    Coding.GetVarint64RoundTrip(h.size, rest);
  }

  // ---------- Blocks with their trailers ----------

  const TRAILER: nat := 5
  const NO_COMPRESSION: byte := 0

  /** WriteRawBlock: the contents, the compression type, and the masked checksum of both. */
  function RawBlock(contents: Bytes): (r: Bytes)
    ensures |r| == |contents| + TRAILER
  {
    var typed := contents + [NO_COMPRESSION];
    typed + Coding.Fixed32(Crc32c.Mask(Crc32c.Checksum(typed)))
  }

  /** The checksum in the trailer is that of contents and type. */
  predicate ChecksumOk(raw: Bytes)
    requires |raw| >= TRAILER
  {
    var n := |raw| - 4;
    Coding.DecodeFixedBound(raw[n..]);
    Coding.Pow256Values();
    Crc32c.Unmask(Coding.DecodeFixed(raw[n..])) == Crc32c.Checksum(raw[..n])
  }

  /** ReadBlock of an uncompressed block: nothing if the file ends before it does, if its checksum is asked for
      and does not agree, or if it is of another type. */
  function ReadBlock(file: Bytes, h: Handle, verify: bool): Option<Bytes> {
    if h.offset + h.size + TRAILER > |file| then None
    else
      var raw := file[h.offset..h.offset + h.size + TRAILER];
      if verify && !ChecksumOk(raw) then None
      else if raw[h.size] != NO_COMPRESSION then None
      else Some(raw[..h.size])
  }

  /** Of all stored checksums, a single one is accepted for contents and type: a block with another is not read. */
  lemma WrongChecksumIsRefused(file: Bytes, h: Handle)
    requires h.offset + h.size + TRAILER <= |file|
    ensures
      var n := h.offset + h.size + 1;
      ReadBlock(file, h, true).Some?
      <==> && file[n..n + 4] == Coding.Fixed32(Crc32c.Mask(Crc32c.Checksum(file[h.offset..n])))
           && file[n - 1] == NO_COMPRESSION
  {
    hide Crc32c.Checksum, Crc32c.Mask, Crc32c.Unmask, Coding.Fixed, Coding.DecodeFixed;
    var raw := file[h.offset..h.offset + h.size + TRAILER];
    var n := h.offset + h.size + 1;
    var stored, crc := file[n..n + 4], Crc32c.Checksum(file[h.offset..n]);
    assert raw[..h.size + 1] == file[h.offset..n] && raw[h.size + 1..] == stored;
    Coding.Fixed32RoundTrip(Crc32c.Mask(crc));
    Crc32c.UnmaskMask(crc);
    Coding.DecodeFixedBound(stored);
    Coding.Pow256Values();
    Coding.FixedDecoded(stored);
    Crc32c.MaskUnmask(Coding.DecodeFixed(stored));
  }

  lemma RawIsOk(contents: Bytes)
    ensures ChecksumOk(RawBlock(contents))
    ensures RawBlock(contents)[|contents|] == NO_COMPRESSION && RawBlock(contents)[..|contents|] == contents
  {
    var typed := contents + [NO_COMPRESSION];
    var crc := Crc32c.Checksum(typed);
    var raw := RawBlock(contents);
    assert raw[..|typed|] == typed && raw[|typed|..] == Coding.Fixed32(Crc32c.Mask(crc));
    hide Crc32c.Checksum, Crc32c.Mask, Crc32c.Unmask;
    Coding.Fixed32RoundTrip(Crc32c.Mask(crc));
    Crc32c.UnmaskMask(crc);
  }

  /** The file has the contents, with their trailer, where the handle says. */
  ghost predicate BlockAt(file: Bytes, h: Handle, contents: Bytes) {
    && |contents| == h.size && h.offset + h.size + TRAILER <= |file|
    && file[h.offset..h.offset + h.size + TRAILER] == RawBlock(contents)
  }

  /** A block that was written is read back, checksum and all. */
  lemma WrittenIsRead(file: Bytes, h: Handle, contents: Bytes, verify: bool)
    requires BlockAt(file, h, contents)
    ensures ReadBlock(file, h, verify) == Some(contents)
  {
    hide RawBlock, ChecksumOk;
    RawIsOk(contents);
  }

  /** Appending to a file leaves its blocks where they are. */
  lemma AppendKeepsBlock(file: Bytes, more: Bytes, h: Handle, contents: Bytes)
    requires BlockAt(file, h, contents)
    ensures BlockAt(file + more, h, contents)
  {
    hide RawBlock;
    assert (file + more)[h.offset..h.offset + h.size + TRAILER] == file[h.offset..h.offset + h.size + TRAILER];
  }

  lemma AppendedIsThere(file: Bytes, contents: Bytes)
    ensures BlockAt(file + RawBlock(contents), Handle(|file|, |contents|), contents)
  {
    hide RawBlock;
    assert (file + RawBlock(contents))[|file|..|file| + |contents| + TRAILER] == RawBlock(contents);
  }

  // ---------- The footer ----------

  const MAGIC_LOW: nat := 0x8b80_fb57
  const MAGIC_HIGH: nat := 0xdb47_7524
  const FOOTER: nat := 2 * MAX_HANDLE + 8

  function Zeros(n: nat): (r: Bytes)
    ensures |r| == n
  {
    seq(n, i => 0)
  }

  function Magic(): (r: Bytes)
    ensures |r| == 8
  {
    Coding.Fixed32(MAGIC_LOW) + Coding.Fixed32(MAGIC_HIGH)
  }

  /** Footer::EncodeTo: the handles of metaindex and index, padded, and the magic number. */
  function EncodeFooter(meta: Handle, index: Handle): (r: Bytes)
    ensures |EncodeHandle(meta)| <= MAX_HANDLE && |EncodeHandle(index)| <= MAX_HANDLE ==> |r| == FOOTER
  {
    var handles := EncodeHandle(meta) + EncodeHandle(index);
    handles + Zeros(if |handles| < 2 * MAX_HANDLE then 2 * MAX_HANDLE - |handles| else 0) + Magic()
  }

  /** Footer::DecodeFrom. */
  function DecodeFooter(b: Bytes): Option<(Handle, Handle)>
    requires |b| == FOOTER
  {
    if b[FOOTER - 8..] != Magic() then None
    else
      match GetHandle(b)
      case None => None
      case Some(meta) =>
        match GetHandle(b[meta.size..])
        case None => None
        case Some(index) => Some((meta.value, index.value))
  }

  lemma FooterRoundTrip(meta: Handle, index: Handle)
    requires meta.Fits() && index.Fits()
    ensures |EncodeHandle(meta)| <= MAX_HANDLE && |EncodeHandle(index)| <= MAX_HANDLE
    ensures DecodeFooter(EncodeFooter(meta, index)) == Some((meta, index))
  {
    hide EncodeHandle, Magic, Zeros;
    HandleRoundTrip(meta, []);
    HandleRoundTrip(index, []);
    var a, b := EncodeHandle(meta), EncodeHandle(index);
    var rest := Zeros(2 * MAX_HANDLE - |a + b|) + Magic();
    var footer := EncodeFooter(meta, index);
    assert footer == a + (b + rest);
    assert footer[|a|..] == b + rest;
    assert footer[FOOTER - 8..] == Magic();
    HandleRoundTrip(meta, b + rest);
    HandleRoundTrip(index, rest);
  }
}
