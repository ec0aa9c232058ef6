/** The checksum of log records and blocks (util/crc32c.h, util/crc32c.cc). */
module Crc32c {
  import opened Wrappers

  /** One bit of the reflected Castagnoli polynomial division. */
  function ShiftBit(l: bv32): bv32 {
    if l & 1 == 1 then (l >> 1) ^ 0x82f6_3b78 else l >> 1
  }

  function Shift8(x: bv32): bv32 {
    ShiftBit(ShiftBit(ShiftBit(ShiftBit(ShiftBit(ShiftBit(ShiftBit(ShiftBit(x))))))))
  }

  /** One byte: eight bits, as the byte extension table does in one step. */
  function ShiftByte(l: bv32, b: byte): bv32 {
    Shift8(l ^ (b as bv32))
  }

  /** The entries of the byte extension table at the powers of two. */
  lemma TableEntries()
    ensures Shift8(0x01) == 0xf26b_8303 && Shift8(0x02) == 0xe13b_70f7 && Shift8(0x04) == 0xc79a_971f
    ensures Shift8(0x08) == 0x8ad9_58cf && Shift8(0x10) == 0x105e_c76f && Shift8(0x20) == 0x20bd_8ede
    ensures Shift8(0x40) == 0x417b_1dbc && Shift8(0x80) == 0x82f6_3b78
  {
  }

  function Fold<T>(step: (T, byte) -> T, l: T, data: Bytes): T {
    if data == [] then l else Fold(step, step(l, data[0]), data[1..])
  }

  const CRC_XOR: bv32 := 0xffff_ffff

  function Flip(x: bv32): bv32 { x ^ CRC_XOR }

  function ExtendBy<T>(step: (T, byte) -> T, flip: T -> T, crc: T, data: Bytes): T {
    flip(Fold(step, flip(crc), data))
  }

  /** The crc of a string whose prefix has checksum `crc`, extended by `data`. */
  function Extend(crc: bv32, data: Bytes): bv32 {
    ExtendBy(ShiftByte, Flip, crc, data)
  }

  function Value(data: Bytes): bv32 {
    Extend(0, data)
  }

  lemma {:induction false} FoldAppend<T>(step: (T, byte) -> T, l: T, a: Bytes, b: Bytes)
    ensures Fold(step, l, a + b) == Fold(step, Fold(step, l, a), b)
  {
    if a == [] {
      assert a + b == b;
    } else {
      assert (a + b)[1..] == a[1..] + b;
      FoldAppend(step, step(l, a[0]), a[1..], b);
    }
  }

  lemma {:induction false} FoldThrough<T>(step: (T, byte) -> T, states: seq<T>, data: Bytes)
    requires |states| == |data| + 1 && forall i :: 0 <= i < |data| ==> step(states[i], data[i]) == states[i + 1]
    ensures Fold(step, states[0], data) == states[|data|]
  {
    if data != [] { FoldThrough(step, states[1..], data[1..]); }
  }

  lemma TestBytes()
    ensures 66 as bv32 == 0x42 && 67 as bv32 == 0x43 && 82 as bv32 == 0x52 && 84 as bv32 == 0x54 && 101 as bv32 == 0x65
    ensures 102 as bv32 == 0x66 && 114 as bv32 == 0x72 && 115 as bv32 == 0x73 && 116 as bv32 == 0x74 && 117 as bv32 == 0x75
  {
  }

  lemma TestShifts()
    ensures Shift8(0xffff_ffff ^ 0x54) == 0x3b3d_e162
    ensures Shift8(0x3b3d_e162 ^ 0x65) == 0xd4f1_590a
    ensures Shift8(0xd4f1_590a ^ 0x73) == 0x09fe_7e98
    ensures Shift8(0x09fe_7e98 ^ 0x74) == 0xae7a_99b4
    ensures Shift8(0xae7a_99b4 ^ 0x43) == 0x270a_7107
    ensures Shift8(0x270a_7107 ^ 0x52) == 0x64f3_c4be
    ensures Shift8(0x64f3_c4be ^ 0x43) == 0x4c22_d062
    ensures Shift8(0x4c22_d062 ^ 0x42) == 0x20f1_ac0e
    ensures Shift8(0x20f1_ac0e ^ 0x75) == 0xe831_0e9a
    ensures Shift8(0xe831_0e9a ^ 0x66) == 0xbec5_91ab
    ensures Shift8(0xbec5_91ab ^ 0x66) == 0x7c1b_af86
    ensures Shift8(0x7c1b_af86 ^ 0x65) == 0xf01c_4041
    ensures Shift8(0xf01c_4041 ^ 0x72) == 0x2343_a605
  {
  }

  lemma TestSteps()
    ensures ShiftByte(0xffff_ffff, 84) == 0x3b3d_e162
    ensures ShiftByte(0x3b3d_e162, 101) == 0xd4f1_590a
    ensures ShiftByte(0xd4f1_590a, 115) == 0x09fe_7e98
    ensures ShiftByte(0x09fe_7e98, 116) == 0xae7a_99b4
    ensures ShiftByte(0xae7a_99b4, 67) == 0x270a_7107
    ensures ShiftByte(0x270a_7107, 82) == 0x64f3_c4be
    ensures ShiftByte(0x64f3_c4be, 67) == 0x4c22_d062
    ensures ShiftByte(0x4c22_d062, 66) == 0x20f1_ac0e
    ensures ShiftByte(0x20f1_ac0e, 117) == 0xe831_0e9a
    ensures ShiftByte(0xe831_0e9a, 102) == 0xbec5_91ab
    ensures ShiftByte(0xbec5_91ab, 102) == 0x7c1b_af86
    ensures ShiftByte(0x7c1b_af86, 101) == 0xf01c_4041
    ensures ShiftByte(0xf01c_4041, 114) == 0x2343_a605
  {
    hide Shift8;
    TestBytes();
    TestShifts();
  }

  /** The code's own test of an accelerated checksum: the value of the string "TestCRCBuffer". */
  lemma TestValue()
    ensures Value([84, 101, 115, 116, 67, 82, 67, 66, 117, 102, 102, 101, 114]) == 0xdcbc_59fa
  {
    hide ShiftByte;
    var data: Bytes := [84, 101, 115, 116, 67, 82, 67, 66, 117, 102, 102, 101, 114];
    var states: seq<bv32> := [
      0xffff_ffff, 0x3b3d_e162, 0xd4f1_590a, 0x09fe_7e98, 0xae7a_99b4,
      0x270a_7107, 0x64f3_c4be, 0x4c22_d062, 0x20f1_ac0e, 0xe831_0e9a,
      0xbec5_91ab, 0x7c1b_af86, 0xf01c_4041, 0x2343_a605];
    TestSteps();
    FoldThrough(ShiftByte, states, data);
  }

  lemma FlipTwice(x: bv32)
    ensures Flip(Flip(x)) == x
  {
  }

  lemma ExtendByAppend<T>(step: (T, byte) -> T, flip: T -> T, crc: T, a: Bytes, b: Bytes)
    requires flip(flip(Fold(step, flip(crc), a))) == Fold(step, flip(crc), a)
    ensures ExtendBy(step, flip, ExtendBy(step, flip, crc, a), b) == ExtendBy(step, flip, crc, a + b)
  {
    FoldAppend(step, flip(crc), a, b);
  }

  /** Extending the checksum of a prefix gives the checksum of the whole: the writer's
      precomputed type checksum agrees with the reader's checksum of type and payload. */
  lemma ExtendIsValueOfAppend(a: Bytes, b: Bytes)
    ensures Extend(Value(a), b) == Value(a + b)
  {
    FlipTwice(Fold(ShiftByte, Flip(0), a));
    ExtendByAppend(ShiftByte, Flip, 0, a, b);
  }

  // ---------- The checksum as stored ----------

  /** crc32c::Value as the unsigned number it is. */
  function Checksum(data: Bytes): (r: nat)
    ensures r < 0x1_0000_0000
  {
    Value(data) as int
  }

  lemma ChecksumOfAppend(a: Bytes, b: Bytes)
    ensures Checksum(a + b) == Extend(Value(a), b) as int
  {
    ExtendIsValueOfAppend(a, b);
  }

  const MASK_DELTA: nat := 0xa282_ead8

  /** Rotate right by 15 bits and add a constant, modulo 2^32. */
  function Mask(crc: nat): (r: nat)
    requires crc < 0x1_0000_0000
    ensures r < 0x1_0000_0000
  {
    (crc / 0x8000 + (crc % 0x8000) * 0x2_0000 + MASK_DELTA) % 0x1_0000_0000
  }

  /** The low 15 bits become the high ones. */
  lemma MaskRotates(hi: nat, lo: nat)
    requires hi < 0x2_0000 && lo < 0x8000
    ensures Mask(hi * 0x8000 + lo) == (lo * 0x2_0000 + hi + 0xa282_ead8) % 0x1_0000_0000
  {
    assert (hi * 0x8000 + lo) / 0x8000 == hi && (hi * 0x8000 + lo) % 0x8000 == lo;
  }

  function Unmask(masked: nat): nat
    requires masked < 0x1_0000_0000
  {
    var rot := (masked + 0x1_0000_0000 - MASK_DELTA) % 0x1_0000_0000;
    rot / 0x2_0000 + (rot % 0x2_0000) * 0x8000
  }

  lemma MaskIsUndone(rot: nat)
    requires rot < 0x1_0000_0000
    ensures ((rot + MASK_DELTA) % 0x1_0000_0000 + 0x1_0000_0000 - MASK_DELTA) % 0x1_0000_0000 == rot
  {
  }

  lemma UnmaskMask(crc: nat)
    requires crc < 0x1_0000_0000
    ensures Unmask(Mask(crc)) == crc
  {
    var hi, lo := crc / 0x8000, crc % 0x8000;
    var rot := hi + lo * 0x2_0000;
    assert rot < 0x1_0000_0000;
    assert (Mask(crc) + 0x1_0000_0000 - MASK_DELTA) % 0x1_0000_0000 == rot by {
      MaskIsUndone(rot);
    }
    assert rot / 0x2_0000 == lo && rot % 0x2_0000 == hi;
  }

  lemma MaskUnmask(masked: nat)
    requires masked < 0x1_0000_0000
    ensures Unmask(masked) < 0x1_0000_0000 && Mask(Unmask(masked)) == masked
  {
    var rot := (masked + 0x1_0000_0000 - MASK_DELTA) % 0x1_0000_0000;
    var hi, lo := rot / 0x2_0000, rot % 0x2_0000;
    assert hi < 0x8000 && rot == hi * 0x2_0000 + lo;
    assert (hi + lo * 0x8000) / 0x8000 == lo && (hi + lo * 0x8000) % 0x8000 == hi;
    assert (rot + MASK_DELTA) % 0x1_0000_0000 == masked;
  }
}
