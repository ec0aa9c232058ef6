/** log::Writer (db/log_writer.cc). The destination file is the sequence of bytes appended to it. */
module LogWriter {
  import opened Wrappers
  import opened LogFormat
  import Coding
  import Crc32c

  /** The checksum of a fragment is extended from that of its type byte, computed beforehand. */
  method HeaderFromTypeCrc(typeCrc: bv32, t: nat, data: Bytes) returns (header: Header)
    requires t <= LAST_TYPE && |data| < 0x1_0000 && typeCrc == Crc32c.Value([t])
    ensures header == CrcHeader(t, data)
  {
    hide Coding.Fixed, Crc32c.Fold, Crc32c.ExtendBy;
    Crc32c.ChecksumOfAppend([t], data);
    var crc := Crc32c.Extend(typeCrc, data) as int;
    assert [t % 256] == [t];
    header := Coding.Fixed32(Crc32c.Mask(crc)) + [|data| % 256, |data| / 256, t];
  }

  /** The writer works for any way of making headers; log files use CrcScheme. */
  class Writer {
    const scheme: Scheme
    var dest: Bytes
    var blockOffset: nat

    predicate Valid()
      reads this
    {
      blockOffset <= BLOCK
    }

    constructor (s: Scheme)
      ensures Valid() && scheme == s && dest == [] && blockOffset == 0
    {
      scheme, dest, blockOffset := s, [], 0;
    }

    /** A writer that appends to a file that already has contents. */
    constructor Reopen(s: Scheme, contents: Bytes)
      ensures Valid() && scheme == s && dest == contents && blockOffset == |contents| % BLOCK
    {
      scheme, dest, blockOffset := s, contents, |contents| % BLOCK;
    }

    method EmitPhysicalRecord(t: nat, data: Bytes)
      requires Valid() && FULL_TYPE <= t <= LAST_TYPE
      requires |data| < 0x1_0000 && blockOffset + HEADER + |data| <= BLOCK
      modifies this`dest, this`blockOffset
      ensures Valid() && dest == old(dest) + Physical(scheme, t, data)
      ensures blockOffset == old(blockOffset) + HEADER + |data|
    {
      dest := dest + scheme.header(t, data);
      dest := dest + data;
      blockOffset := blockOffset + HEADER + |data|;
    }

    /** One turn of AddRecord's loop: switch to a new block if need be, emit what fits. */
    method EmitNext(left: Bytes, begin: bool) returns (length: nat)
      requires Valid()
      modifies this`dest, this`blockOffset
      ensures Valid() && length == Take(old(blockOffset), left)
      ensures dest == old(dest) + FirstFragment(scheme, old(blockOffset), left, begin)
      ensures blockOffset == After(old(blockOffset), left)
    {
      var leftover := BLOCK - blockOffset;
      if leftover < HEADER {
        dest := dest + Zeros(leftover);
        blockOffset := 0;
      }
      var avail := BLOCK - blockOffset - HEADER;
      length := if |left| < avail then |left| else avail;
      var end := |left| == length;
      var kind := if begin && end then FULL_TYPE else if begin then FIRST_TYPE else if end then LAST_TYPE else MIDDLE_TYPE;
      EmitPhysicalRecord(kind, left[..length]);
    }

    /** AddRecord appends exactly the bytes of the log format. */
    method AddRecord(data: Bytes)
      requires Valid()
      modifies this`dest, this`blockOffset
      ensures Valid() && dest == old(dest) + Emit(scheme, old(blockOffset), data, true)
      ensures blockOffset == EndOffset(old(blockOffset), data)
    {
      ghost var all := dest + Emit(scheme, blockOffset, data, true);
      ghost var end := EndOffset(blockOffset, data);
      var left, begin, more := data, true, true;
      while more
        invariant Valid()
        invariant more ==> dest + Emit(scheme, blockOffset, left, begin) == all && EndOffset(blockOffset, left) == end
        invariant !more ==> dest == all && blockOffset == end
        decreases more, |left|, if more then Stuck(blockOffset) else 0
      {
        EmitStep(scheme, dest, blockOffset, left, begin);
        var length := EmitNext(left, begin);
        left, begin := left[length..], false;
        more := |left| > 0;
      }
    }
  }
}
