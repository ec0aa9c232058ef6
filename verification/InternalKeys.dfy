/** Internal keys as byte strings, and how they relate to module Dbformat (db/dbformat.cc, db/dbformat.h). */
module InternalKeys {
  import opened Wrappers
  import opened Dbformat
  import Coding
  import Comparator

  /** ParsedInternalKey. */
  datatype ParsedKey = ParsedKey(user: Bytes, seqno: nat, kind: ValueType) {
    predicate Valid() { seqno <= MAX_SEQUENCE }

    /** The key of module Dbformat: its user key is the position in the bytewise order. */
    function Abstract(): InternalKey { InternalKey(Comparator.Rank(user), seqno, kind) }
  }

  function PackSequenceAndType(seqno: nat, kind: ValueType): nat {
    seqno * 256 + kind.Code()
  }

  /** AppendInternalKey. */
  function Encode(k: ParsedKey): (r: Bytes)
    ensures |r| == |k.user| + 8
  {
    k.user + Coding.Fixed64(PackSequenceAndType(k.seqno, k.kind))
  }

  function ExtractUserKey(key: Bytes): Bytes
    requires |key| >= 8
  {
    key[..|key| - 8]
  }

  function Trailer(key: Bytes): nat
    requires |key| >= 8
  {
    Coding.DecodeFixed(key[|key| - 8..])
  }

  /** ParseInternalKey: too short, or of an unknown type, is no key. */
  function Parse(key: Bytes): Option<ParsedKey> {
    if |key| < 8 then None
    else
      var num := Trailer(key);
      var c := num % 256;
      if c <= 1 then Some(ParsedKey(ExtractUserKey(key), num / 256, if c == 1 then Value else Deletion)) else None
  }

  lemma EncodeParts(k: ParsedKey)
    requires k.Valid()
    ensures ExtractUserKey(Encode(k)) == k.user && Trailer(Encode(k)) == PackSequenceAndType(k.seqno, k.kind)
  {
    var key := Encode(k);
    assert key[|key| - 8..] == Coding.Fixed64(PackSequenceAndType(k.seqno, k.kind));
    Coding.Fixed64RoundTrip(PackSequenceAndType(k.seqno, k.kind));
  }

  lemma ParseEncode(k: ParsedKey)
    requires k.Valid()
    ensures Parse(Encode(k)) == Some(k)
  {
    EncodeParts(k);
  }

  /** InternalKeyComparator::Compare on byte strings. */
  function Compare(a: Bytes, b: Bytes): int
    requires |a| >= 8 && |b| >= 8
  {
    var r := Comparator.Compare(ExtractUserKey(a), ExtractUserKey(b));
    if r != 0 then r
    else if Trailer(a) > Trailer(b) then -1
    else if Trailer(a) < Trailer(b) then 1
    else 0
  }

  /** Comparing encoded keys is comparing the keys of module Dbformat. */
  lemma CompareIsAbstract(a: ParsedKey, b: ParsedKey)
    requires a.Valid() && b.Valid()
    ensures Compare(Encode(a), Encode(b)) < 0 <==> Dbformat.Compare(a.Abstract(), b.Abstract()) < 0
    ensures Compare(Encode(a), Encode(b)) > 0 <==> Dbformat.Compare(a.Abstract(), b.Abstract()) > 0
    ensures Compare(Encode(a), Encode(b)) == 0 <==> a == b
  {
    EncodeParts(a);
    EncodeParts(b);
    Comparator.RankEmbeds(a.user, b.user);
  }

  /** A key that may stand in the index for the last key of a block: that key itself, or the
      earliest key of a user key strictly between the neighbours. */
  ghost predicate Separates(start: ParsedKey, limit: ParsedKey, sep: ParsedKey) {
    || sep == start
    || (Comparator.Compare(start.user, sep.user) < 0 && Comparator.Compare(sep.user, limit.user) < 0
        && sep.seqno == MAX_SEQUENCE && sep.kind == Value)
  }

  /** A shorter and later user key takes over, with the earliest of its internal keys. */
  function Moved(key: ParsedKey, tmp: Bytes): ParsedKey {
    if |tmp| < |key.user| && Comparator.Compare(key.user, tmp) < 0 then ParsedKey(tmp, MAX_SEQUENCE, Value) else key
  }

  method FindShortestSeparator(start: ParsedKey, limit: ParsedKey) returns (sep: ParsedKey)
    requires start.Valid() && limit.Valid()
    requires Compare(Encode(start), Encode(limit)) < 0
    ensures sep.Valid() && Separates(start, limit, sep)
    ensures Compare(Encode(start), Encode(sep)) <= 0 && Compare(Encode(sep), Encode(limit)) < 0
    ensures |Encode(sep)| <= |Encode(start)|
    ensures exists tmp, n :: Comparator.IsShortened(start.user, limit.user, n, tmp) && sep == Moved(start, tmp)
  {
    EncodeParts(start);
    EncodeParts(limit);
    Comparator.RankEmbeds(start.user, limit.user);
    var tmp := Comparator.FindShortestSeparator(start.user, limit.user);
    sep := start;
    Comparator.RankEmbeds(start.user, start.user);
    if |tmp| < |start.user| && Comparator.Compare(start.user, tmp) < 0 {
      sep := ParsedKey(tmp, MAX_SEQUENCE, Value);
      EncodeParts(sep);
      Comparator.RankEmbeds(start.user, tmp);
      Comparator.RankEmbeds(tmp, limit.user);
    }
  }

  method FindShortSuccessor(key: ParsedKey) returns (r: ParsedKey)
    requires key.Valid()
    ensures r.Valid() && (r == key || (Comparator.Compare(key.user, r.user) < 0 && r.seqno == MAX_SEQUENCE && r.kind == Value))
    ensures Compare(Encode(key), Encode(r)) <= 0
    ensures exists tmp, n :: Comparator.IsRaised(key.user, n, tmp) && r == Moved(key, tmp)
  {
    EncodeParts(key);
    var tmp := Comparator.FindShortSuccessor(key.user);
    r := key;
    Comparator.RankEmbeds(key.user, key.user);
    if |tmp| < |key.user| && Comparator.Compare(key.user, tmp) < 0 {
      r := ParsedKey(tmp, MAX_SEQUENCE, Value);
      EncodeParts(r);
    }
  }

  // ---------- Keys of module Dbformat as byte strings ----------

  /** The byte string that each user key stands for. */
  type Names = UserKey -> Bytes

  function KeyBytes(names: Names, key: InternalKey): (b: Bytes)
    ensures |b| >= 8
  {
    Encode(ParsedKey(names(key.user), key.seqno, key.kind))
  }

  /** What decoding leads to; no key that was encoded is malformed. */
  function KeyOf(b: Bytes): InternalKey {
    match Parse(b)
    case Some(k) => k.Abstract()
    case None => InternalKey(0.0, 0, Deletion)
  }

  /** The key's user key has a name, and its sequence number fits. */
  ghost predicate KeyFits(names: Names, key: InternalKey) {
    Comparator.Rank(names(key.user)) == key.user && key.seqno <= MAX_SEQUENCE
  }

  lemma KeyRoundTrip(names: Names, key: InternalKey)
    requires KeyFits(names, key)
    ensures KeyOf(KeyBytes(names, key)) == key
    ensures Parse(KeyBytes(names, key)) == Some(ParsedKey(names(key.user), key.seqno, key.kind))
    ensures ExtractUserKey(KeyBytes(names, key)) == names(key.user)
  {
    ParseEncode(ParsedKey(names(key.user), key.seqno, key.kind));
    EncodeParts(ParsedKey(names(key.user), key.seqno, key.kind));
  }

  /** Compare for any two byte strings; shorter ones are no keys. */
  function KeyCompare(a: Bytes, b: Bytes): int {
    if |a| >= 8 && |b| >= 8 then Compare(a, b) else 0
  }

  lemma CompareKeys(names: Names, a: InternalKey, b: InternalKey)
    requires KeyFits(names, a) && KeyFits(names, b)
    ensures KeyCompare(KeyBytes(names, a), KeyBytes(names, b)) < 0 <==> a.Before(b)
  {
    CompareIsAbstract(ParsedKey(names(a.user), a.seqno, a.kind), ParsedKey(names(b.user), b.seqno, b.kind));
    CompareIsTotalOrder(a, b);
  }
}
