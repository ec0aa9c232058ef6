/** Version edits as the records of a manifest (db/version_edit.cc, db/version_edit.h). Keys are the
    byte strings they are encoded as. */
module EditCodec {
  import opened Wrappers
  import opened Coding

  const NUM_LEVELS: nat := 7

  datatype Meta = Meta(number: nat, size: nat, smallest: Bytes, largest: Bytes)

  /** One tagged field of an edit. */
  datatype Field =
    | Comparator(name: Bytes)
    | LogNumber(n: nat)
    | PrevLogNumber(n: nat)
    | NextFileNumber(n: nat)
    | LastSequence(n: nat)
    | CompactPointer(level: nat, key: Bytes)
    | DeletedFile(level: nat, number: nat)
    | NewFile(level: nat, file: Meta)
  {
    function Tag(): nat {
      match this
      case Comparator(_) => 1
      case LogNumber(_) => 2
      case PrevLogNumber(_) => 9
      case NextFileNumber(_) => 3
      case LastSequence(_) => 4
      case CompactPointer(_, _) => 5
      case DeletedFile(_, _) => 6
      case NewFile(_, _) => 7
    }

    /** The values that fit their C++ types, and levels that exist. */
    predicate Fits() {
      match this
      case Comparator(name) => |name| < TWO_32
      case LogNumber(n) => n < TWO_64
      case PrevLogNumber(n) => n < TWO_64
      case NextFileNumber(n) => n < TWO_64
      case LastSequence(n) => n < TWO_64
      case CompactPointer(level, key) => level < NUM_LEVELS && |key| < TWO_32
      case DeletedFile(level, number) => level < NUM_LEVELS && number < TWO_64
      case NewFile(level, f) =>
        level < NUM_LEVELS && f.number < TWO_64 && f.size < TWO_64 && |f.smallest| < TWO_32 && |f.largest| < TWO_32
    }
  }

  // ---------- Encoding ----------

  function Body(f: Field): Bytes {
    match f
    case Comparator(name) => LengthPrefixed(name)
    case LogNumber(n) => Varint(n)
    case PrevLogNumber(n) => Varint(n)
    case NextFileNumber(n) => Varint(n)
    case LastSequence(n) => Varint(n)
    case CompactPointer(level, key) => Varint(level) + LengthPrefixed(key)
    case DeletedFile(level, number) => Varint(level) + Varint(number)
    case NewFile(level, m) =>
      Varint(level) + (Varint(m.number) + (Varint(m.size) + (LengthPrefixed(m.smallest) + LengthPrefixed(m.largest))))
  }

  function EncodeField(f: Field): (r: Bytes)
    ensures r != []
  {
    Varint(f.Tag()) + Body(f)
  }

  // ---------- Decoding one field ----------

  type Parser<!T> = Bytes -> Option<Decoded<T>>

  /** One after the other, as the conditions of DecodeFrom are. */
  function Both<A, B>(p: Parser<A>, q: Parser<B>, b: Bytes): Option<Decoded<(A, B)>> {
    match p(b)
    case None => None
    case Some(x) =>
      if x.size > |b| then None
      else
        match q(b[x.size..])
        case None => None
        case Some(y) => Some(Decoded((x.value, y.value), x.size + y.size))
  }

  lemma BothRoundTrip<A, B>(p: Parser<A>, q: Parser<B>, s: Bytes, x: A, t: Bytes, y: B, rest: Bytes)
    requires p(s + (t + rest)) == Some(Decoded(x, |s|)) && q(t + rest) == Some(Decoded(y, |t|))
    ensures Both(p, q, (s + t) + rest) == Some(Decoded((x, y), |s + t|))
  {
    assert (s + t) + rest == s + (t + rest);
    assert (s + (t + rest))[|s|..] == t + rest;
  }

  function GetLevel(b: Bytes): (r: Option<Decoded<nat>>)
    ensures r.Some? ==> r.value.value < NUM_LEVELS
  {
    match GetVarint32(b)
    case None => None
    case Some(d) => if d.value < NUM_LEVELS then Some(d) else None
  }

  function GetPointer(b: Bytes): Option<Decoded<(nat, Bytes)>> { Both(GetLevel, GetLengthPrefixed, b) }

  function GetDeleted(b: Bytes): Option<Decoded<(nat, nat)>> { Both(GetLevel, GetVarint64, b) }

  function GetKeys(b: Bytes): Option<Decoded<(Bytes, Bytes)>> { Both(GetLengthPrefixed, GetLengthPrefixed, b) }

  function GetSizeAndKeys(b: Bytes): Option<Decoded<(nat, (Bytes, Bytes))>> { Both(GetVarint64, GetKeys, b) }

  function GetMeta(b: Bytes): Option<Decoded<(nat, (nat, (Bytes, Bytes)))>> { Both(GetVarint64, GetSizeAndKeys, b) }

  function GetNewFile(b: Bytes): Option<Decoded<(nat, (nat, (nat, (Bytes, Bytes))))>> { Both(GetLevel, GetMeta, b) }

  function MapDecoded<A, B>(f: A -> B, d: Option<Decoded<A>>): Option<Decoded<B>> {
    match d
    case None => None
    case Some(x) => Some(Decoded(f(x.value), x.size))
  }

  function AsNewFile(x: (nat, (nat, (nat, (Bytes, Bytes))))): Field {
    NewFile(x.0, Meta(x.1.0, x.1.1.0, x.1.1.1.0, x.1.1.1.1))
  }

  /** What follows a tag; unknown tags have no body. */
  function GetBody(tag: nat, b: Bytes): Option<Decoded<Field>> {
    if tag == 1 then MapDecoded((x: Bytes) => Comparator(x), GetLengthPrefixed(b))
    else if tag == 2 then MapDecoded((n: nat) => LogNumber(n), GetVarint64(b))
    else if tag == 9 then MapDecoded((n: nat) => PrevLogNumber(n), GetVarint64(b))
    else if tag == 3 then MapDecoded((n: nat) => NextFileNumber(n), GetVarint64(b))
    else if tag == 4 then MapDecoded((n: nat) => LastSequence(n), GetVarint64(b))
    else if tag == 5 then MapDecoded((x: (nat, Bytes)) => CompactPointer(x.0, x.1), GetPointer(b))
    else if tag == 6 then MapDecoded((x: (nat, nat)) => DeletedFile(x.0, x.1), GetDeleted(b))
    else if tag == 7 then MapDecoded(AsNewFile, GetNewFile(b))
    else None
  }

  function Complaint(tag: nat): string {
    if tag == 1 then "comparator name"
    else if tag == 2 then "log number"
    else if tag == 9 then "previous log number"
    else if tag == 3 then "next file number"
    else if tag == 4 then "last sequence number"
    else if tag == 5 then "compaction pointer"
    else if tag == 6 then "deleted file"
    else if tag == 7 then "new-file entry"
    else "unknown tag"
  }

  datatype Next = Got(field: Field, size: nat) | Bad(msg: string)

  function ParseField(b: Bytes): (r: Next)
    ensures r.Got? ==> r.size > 0
  {
    match GetVarint32(b)
    case None => Bad("invalid tag")
    case Some(tag) =>
      match GetBody(tag.value, b[tag.size..])
      case None => Bad(Complaint(tag.value))
      case Some(d) => Got(d.value, tag.size + d.size)
  }

  lemma LevelRoundTrip(level: nat, rest: Bytes)
    requires level < NUM_LEVELS
    ensures GetLevel(Varint(level) + rest) == Some(Decoded(level, |Varint(level)|))
  {
    GetVarint32RoundTrip(level, rest);
  }

  lemma MetaRoundTrip(m: Meta, rest: Bytes)
    requires m.number < TWO_64 && m.size < TWO_64 && |m.smallest| < TWO_32 && |m.largest| < TWO_32
    ensures
      var keys := LengthPrefixed(m.smallest) + LengthPrefixed(m.largest);
      var code := Varint(m.number) + (Varint(m.size) + keys);
      GetMeta(code + rest) == Some(Decoded((m.number, (m.size, (m.smallest, m.largest))), |code|))
  {
    var small, large := LengthPrefixed(m.smallest), LengthPrefixed(m.largest);
    LengthPrefixedRoundTrip(m.smallest, large + rest);
    LengthPrefixedRoundTrip(m.largest, rest);
    BothRoundTrip(GetLengthPrefixed, GetLengthPrefixed, small, m.smallest, large, m.largest, rest);
    GetVarint64RoundTrip(m.size, (small + large) + rest);
    BothRoundTrip(GetVarint64, GetKeys, Varint(m.size), m.size, small + large, (m.smallest, m.largest), rest);
    var sized := Varint(m.size) + (small + large);
    GetVarint64RoundTrip(m.number, sized + rest);
    BothRoundTrip(GetVarint64, GetSizeAndKeys, Varint(m.number), m.number, sized, (m.size, (m.smallest, m.largest)), rest);
  }

  lemma PointerRoundTrip(level: nat, key: Bytes, rest: Bytes)
    requires level < NUM_LEVELS && |key| < TWO_32
    ensures GetPointer((Varint(level) + LengthPrefixed(key)) + rest) == Some(Decoded((level, key), |Varint(level) + LengthPrefixed(key)|))
  {
    LevelRoundTrip(level, LengthPrefixed(key) + rest);
    LengthPrefixedRoundTrip(key, rest);
    BothRoundTrip(GetLevel, GetLengthPrefixed, Varint(level), level, LengthPrefixed(key), key, rest);
  }

  lemma DeletedRoundTrip(level: nat, number: nat, rest: Bytes)
    requires level < NUM_LEVELS && number < TWO_64
    ensures GetDeleted((Varint(level) + Varint(number)) + rest) == Some(Decoded((level, number), |Varint(level) + Varint(number)|))
  {
    LevelRoundTrip(level, Varint(number) + rest);
    GetVarint64RoundTrip(number, rest);
    BothRoundTrip(GetLevel, GetVarint64, Varint(level), level, Varint(number), number, rest);
  }

  lemma NewFileRoundTrip(level: nat, m: Meta, rest: Bytes)
    requires NewFile(level, m).Fits()
    ensures
      GetNewFile(Body(NewFile(level, m)) + rest)
        == Some(Decoded((level, (m.number, (m.size, (m.smallest, m.largest)))), |Body(NewFile(level, m))|))
  {
    var code := Varint(m.number) + (Varint(m.size) + (LengthPrefixed(m.smallest) + LengthPrefixed(m.largest)));
    LevelRoundTrip(level, code + rest);
    MetaRoundTrip(m, rest);
    BothRoundTrip(GetLevel, GetMeta, Varint(level), level, code, (m.number, (m.size, (m.smallest, m.largest))), rest);
  }

  lemma NumberRoundTrip(f: Field, rest: Bytes)
    requires f.Fits() && (f.LogNumber? || f.PrevLogNumber? || f.NextFileNumber? || f.LastSequence?)
    ensures GetBody(f.Tag(), Varint(f.n) + rest) == Some(Decoded(f, |Varint(f.n)|))
  {
    GetVarint64RoundTrip(f.n, rest);
  }

  lemma PlacedRoundTrip(f: Field, rest: Bytes)
    requires f.Fits() && (f.CompactPointer? || f.DeletedFile?)
    ensures GetBody(f.Tag(), Body(f) + rest) == Some(Decoded(f, |Body(f)|))
  {
    if f.CompactPointer? {
      PointerRoundTrip(f.level, f.key, rest);
    } else {
      DeletedRoundTrip(f.level, f.number, rest);
    }
  }

  lemma NewFileBodyRoundTrip(f: Field, rest: Bytes)
    requires f.Fits() && f.NewFile?
    ensures GetBody(f.Tag(), Body(f) + rest) == Some(Decoded(f, |Body(f)|))
  {
    NewFileRoundTrip(f.level, f.file, rest);
    NewFileBodyIs(Body(f) + rest, (f.level, (f.file.number, (f.file.size, (f.file.smallest, f.file.largest)))), |Body(f)|);
  }

  lemma NewFileBodyIs(b: Bytes, x: (nat, (nat, (nat, (Bytes, Bytes)))), size: nat)
    requires GetNewFile(b) == Some(Decoded(x, size))
    ensures GetBody(7, b) == Some(Decoded(AsNewFile(x), size))
  {
    hide GetNewFile, GetVarint64, GetLengthPrefixed, GetPointer, GetDeleted;
    MapIs(AsNewFile, GetNewFile(b), x, size);
    assert GetBody(7, b) == MapDecoded(AsNewFile, GetNewFile(b));
  }

  lemma MapIs<A, B>(f: A -> B, d: Option<Decoded<A>>, x: A, size: nat)
    requires d == Some(Decoded(x, size))
    ensures MapDecoded(f, d) == Some(Decoded(f(x), size))
  {
  }

  lemma ComparatorRoundTrip(f: Field, rest: Bytes)
    requires f.Fits() && f.Comparator?
    ensures GetBody(f.Tag(), Body(f) + rest) == Some(Decoded(f, |Body(f)|))
  {
    LengthPrefixedRoundTrip(f.name, rest);
  }

  lemma BodyRoundTrip(f: Field, rest: Bytes)
    requires f.Fits()
    ensures GetBody(f.Tag(), Body(f) + rest) == Some(Decoded(f, |Body(f)|))
  {
    match f
    case Comparator(_) => ComparatorRoundTrip(f, rest);
    case CompactPointer(_, _) => PlacedRoundTrip(f, rest);
    case DeletedFile(_, _) => PlacedRoundTrip(f, rest);
    case NewFile(_, _) => NewFileBodyRoundTrip(f, rest);
    case LogNumber(_) => NumberRoundTrip(f, rest);
    case PrevLogNumber(_) => NumberRoundTrip(f, rest);
    case NextFileNumber(_) => NumberRoundTrip(f, rest);
    case LastSequence(_) => NumberRoundTrip(f, rest);
  }

  lemma FieldRoundTrip(f: Field, rest: Bytes)
    requires f.Fits()
    ensures ParseField(EncodeField(f) + rest) == Got(f, |EncodeField(f)|)
  {
    var tag, body := Varint(f.Tag()), Body(f);
    assert EncodeField(f) + rest == tag + (body + rest);
    GetVarint32RoundTrip(f.Tag(), body + rest);
    assert (tag + (body + rest))[|tag|..] == body + rest;
    BodyRoundTrip(f, rest);
  }

  // ---------- Whole edits ----------

  datatype Edit = Edit(
    comparator: Option<Bytes>,
    logNumber: Option<nat>,
    prevLogNumber: Option<nat>,
    nextFileNumber: Option<nat>,
    lastSequence: Option<nat>,
    compactPointers: seq<(nat, Bytes)>,
    deletedFiles: set<(nat, nat)>,
    newFiles: seq<(nat, Meta)>)

  /** VersionEdit::Clear forgets everything but the compaction pointers. */
  function Cleared(e: Edit): Edit {
    Edit(None, None, None, None, None, e.compactPointers, {}, [])
  }

  function With(e: Edit, f: Field): Edit {
    match f
    case Comparator(name) => e.(comparator := Some(name))
    case LogNumber(n) => e.(logNumber := Some(n))
    case PrevLogNumber(n) => e.(prevLogNumber := Some(n))
    case NextFileNumber(n) => e.(nextFileNumber := Some(n))
    case LastSequence(n) => e.(lastSequence := Some(n))
    case CompactPointer(level, key) => e.(compactPointers := e.compactPointers + [(level, key)])
    case DeletedFile(level, number) => e.(deletedFiles := e.deletedFiles + {(level, number)})
    case NewFile(level, file) => e.(newFiles := e.newFiles + [(level, file)])
  }

  function WithAll(e: Edit, fields: seq<Field>): Edit
    decreases |fields|
  {
    if fields == [] then e else WithAll(With(e, fields[0]), fields[1..])
  }

  lemma {:induction false} WithAllAppend(e: Edit, a: seq<Field>, b: seq<Field>)
    ensures WithAll(e, a + b) == WithAll(WithAll(e, a), b)
    decreases |a|
  {
    if a == [] {
      assert a + b == b;
    } else {
      assert (a + b)[1..] == a[1..] + b;
      WithAllAppend(With(e, a[0]), a[1..], b);
    }
  }

  function AsLogNumber(n: nat): Field { LogNumber(n) }

  function AsPrevLogNumber(n: nat): Field { PrevLogNumber(n) }

  function AsNextFileNumber(n: nat): Field { NextFileNumber(n) }

  function AsLastSequence(n: nat): Field { LastSequence(n) }

  function NumberField(f: nat -> Field, n: Option<nat>): seq<Field> {
    if n.Some? then [f(n.value)] else []
  }

  function HeadFields(e: Edit): seq<Field> {
    (if e.comparator.Some? then [Comparator(e.comparator.value)] else [])
    + NumberField(AsLogNumber, e.logNumber) + NumberField(AsPrevLogNumber, e.prevLogNumber)
    + NumberField(AsNextFileNumber, e.nextFileNumber) + NumberField(AsLastSequence, e.lastSequence)
  }

  function PointerField(p: (nat, Bytes)): Field { CompactPointer(p.0, p.1) }

  function DeletedField(p: (nat, nat)): Field { DeletedFile(p.0, p.1) }

  function NewFileField(p: (nat, Meta)): Field { NewFile(p.0, p.1) }

  /** The fields of an edit in the order they are written; `order` is that of the set of deleted files. */
  function FieldsOf(e: Edit, order: seq<(nat, nat)>): seq<Field> {
    HeadFields(e) + Map(PointerField, e.compactPointers) + Map(DeletedField, order) + Map(NewFileField, e.newFiles)
  }

  function EncodeFields(fields: seq<Field>): Bytes {
    FlatMap(EncodeField, fields)
  }

  /** `order` lists the set. */
  ghost predicate Lists(order: seq<(nat, nat)>, deleted: set<(nat, nat)>) {
    forall p :: p in order <==> p in deleted
  }

  lemma {:induction false} AddPointers(e: Edit, ps: seq<(nat, Bytes)>)
    ensures WithAll(e, Map(PointerField, ps)) == e.(compactPointers := e.compactPointers + ps)
    decreases |ps|
  {
    if ps != [] {
      assert Map(PointerField, ps)[1..] == Map(PointerField, ps[1..]);
      AddPointers(With(e, PointerField(ps[0])), ps[1..]);
      AppendFirst(e.compactPointers, ps);
    } else {
      assert e.compactPointers + ps == e.compactPointers;
    }
  }

  lemma SetOfFirst<T>(s: set<T>, ps: seq<T>)
    requires ps != []
    ensures s + {ps[0]} + (set p | p in ps[1..]) == s + set p | p in ps
  {
    assert ps == [ps[0]] + ps[1..];
  }

  lemma AppendFirst<T>(a: seq<T>, ps: seq<T>)
    requires ps != []
    ensures a + [ps[0]] + ps[1..] == a + ps
  {
  }

  lemma {:induction false} AddDeleted(e: Edit, ps: seq<(nat, nat)>)
    ensures WithAll(e, Map(DeletedField, ps)) == e.(deletedFiles := e.deletedFiles + set p | p in ps)
    decreases |ps|
  {
    if ps != [] {
      assert Map(DeletedField, ps)[1..] == Map(DeletedField, ps[1..]);
      AddDeleted(With(e, DeletedField(ps[0])), ps[1..]);
      SetOfFirst(e.deletedFiles, ps);
    } else {
      assert e.deletedFiles + (set p | p in ps) == e.deletedFiles;
    }
  }

  lemma {:induction false} AddNewFiles(e: Edit, ps: seq<(nat, Meta)>)
    ensures WithAll(e, Map(NewFileField, ps)) == e.(newFiles := e.newFiles + ps)
    decreases |ps|
  {
    if ps != [] {
      assert Map(NewFileField, ps)[1..] == Map(NewFileField, ps[1..]);
      AddNewFiles(With(e, NewFileField(ps[0])), ps[1..]);
      AppendFirst(e.newFiles, ps);
    } else {
      assert e.newFiles + ps == e.newFiles;
    }
  }

  lemma AddNumber(e: Edit, f: nat -> Field, n: Option<nat>)
    ensures WithAll(e, NumberField(f, n)) == if n.Some? then With(e, f(n.value)) else e
  {
    if n.Some? {
      assert [f(n.value)][1..] == [];
    }
  }

  lemma AddHead(base: Edit, e: Edit)
    requires base == Cleared(base)
    ensures WithAll(base, HeadFields(e)) == Edit(e.comparator, e.logNumber, e.prevLogNumber, e.nextFileNumber, e.lastSequence,
                                                 base.compactPointers, {}, [])
  {
    var c := if e.comparator.Some? then [Comparator(e.comparator.value)] else [];
    var l, p := NumberField(AsLogNumber, e.logNumber), NumberField(AsPrevLogNumber, e.prevLogNumber);
    var x, q := NumberField(AsNextFileNumber, e.nextFileNumber), NumberField(AsLastSequence, e.lastSequence);
    assert e.comparator.Some? ==> c[1..] == [];
    var e1 := WithAll(base, c);
    AddNumber(e1, AsLogNumber, e.logNumber);
    var e2 := WithAll(e1, l);
    AddNumber(e2, AsPrevLogNumber, e.prevLogNumber);
    var e3 := WithAll(e2, p);
    AddNumber(e3, AsNextFileNumber, e.nextFileNumber);
    var e4 := WithAll(e3, x);
    AddNumber(e4, AsLastSequence, e.lastSequence);
    WithAllAppend(base, c, l);
    WithAllAppend(base, c + l, p);
    WithAllAppend(base, c + l + p, x);
    WithAllAppend(base, c + l + p + x, q);
  }

  /** The fields of an edit, added to a cleared one, make that edit again, after the compaction
      pointers that the cleared one kept. */
  lemma FieldsRebuild(base: Edit, e: Edit, order: seq<(nat, nat)>)
    requires base == Cleared(base) && Lists(order, e.deletedFiles)
    ensures WithAll(base, FieldsOf(e, order)) == e.(compactPointers := base.compactPointers + e.compactPointers)
  {
    var h, p := HeadFields(e), Map(PointerField, e.compactPointers);
    var d, n := Map(DeletedField, order), Map(NewFileField, e.newFiles);
    AddHead(base, e);
    WithAllAppend(base, h, p);
    WithAllAppend(base, h + p, d);
    WithAllAppend(base, h + p + d, n);
    AddPointers(WithAll(base, h), e.compactPointers);
    AddDeleted(WithAll(base, h + p), order);
    AddNewFiles(WithAll(base, h + p + d), e.newFiles);
    assert {} + (set x | x in order) == e.deletedFiles;
    assert [] + e.newFiles == e.newFiles;
  }

  // ---------- Decoding whole edits ----------

  datatype Status = Ok | Corruption(msg: string)

  /** DecodeFrom's loop: fields are added until the input ends or one cannot be read. */
  function DecodeAll(e: Edit, input: Bytes): (Edit, Status)
    decreases |input|
  {
    if input == [] then (e, Ok)
    else
      match ParseField(input)
      case Bad(msg) => (e, Corruption(msg))
      case Got(f, size) => if size <= |input| then DecodeAll(With(e, f), input[size..]) else (e, Corruption(""))
  }

  lemma {:induction false} FieldsRoundTrip(e: Edit, fields: seq<Field>)
    requires forall f :: f in fields ==> f.Fits()
    ensures DecodeAll(e, EncodeFields(fields)) == (WithAll(e, fields), Ok)
    decreases |fields|
  {
    if fields != [] {
      var code, rest := EncodeField(fields[0]), EncodeFields(fields[1..]);
      assert EncodeFields(fields) == code + rest;
      FieldRoundTrip(fields[0], rest);
      DropOne(code, rest);
      FieldsRoundTrip(With(e, fields[0]), fields[1..]);
    }
  }

  /** The bytes of one field of each kind. */
  lemma KnownFields()
    ensures EncodeField(Comparator([99])) == [1, 1, 99]
    ensures EncodeField(LogNumber(5)) == [2, 5] && EncodeField(PrevLogNumber(5)) == [9, 5]
    ensures EncodeField(NextFileNumber(5)) == [3, 5] && EncodeField(LastSequence(5)) == [4, 5]
    ensures EncodeField(CompactPointer(1, [99])) == [5, 1, 1, 99]
    ensures EncodeField(DeletedFile(2, 5)) == [6, 2, 5]
    ensures EncodeField(NewFile(2, Meta(5, 6, [97], [99]))) == [7, 2, 5, 6, 1, 97, 1, 99]
  {
    assert LengthPrefixed([97]) == [1, 97] && LengthPrefixed([99]) == [1, 99];
  }

  // ---------- Malformed edits ----------

  /** Two values one after the other, cut off in the first or in the second. */
  lemma CutBoth<A, B>(p: Parser<A>, q: Parser<B>, s: Bytes, x: A, t: Bytes, n: nat)
    requires n < |s + t|
    requires if n < |s| then p(s[..n]) == None
             else p(s + t[..n - |s|]) == Some(Decoded(x, |s|)) && q(t[..n - |s|]) == None
    ensures Both(p, q, (s + t)[..n]) == None
  {
    if n < |s| {
      assert (s + t)[..n] == s[..n];
    } else {
      assert (s + t)[..n] == s + t[..n - |s|];
      assert (s + t[..n - |s|])[|s|..] == t[..n - |s|];
    }
  }

  lemma CutLevel<B>(q: Parser<B>, level: nat, t: Bytes, n: nat)
    requires level < NUM_LEVELS && n < |Varint(level) + t|
    requires forall m :: 0 <= m < |t| ==> q(t[..m]) == None
    ensures Both(GetLevel, q, (Varint(level) + t)[..n]) == None
  {
    var s := Varint(level);
    if n < |s| {
      CutVarintIsRefused(level, n);
    } else {
      LevelRoundTrip(level, t[..n - |s|]);
    }
    CutBoth(GetLevel, q, s, level, t, n);
  }

  lemma CutNumber<B>(q: Parser<B>, v: nat, t: Bytes, n: nat)
    requires v < TWO_64 && n < |Varint(v) + t|
    requires forall m :: 0 <= m < |t| ==> q(t[..m]) == None
    ensures Both(GetVarint64, q, (Varint(v) + t)[..n]) == None
  {
    var s := Varint(v);
    if n < |s| {
      CutVarintIsRefused(v, n);
    } else {
      GetVarint64RoundTrip(v, t[..n - |s|]);
    }
    CutBoth(GetVarint64, q, s, v, t, n);
  }

  lemma CutString<B>(q: Parser<B>, b: Bytes, t: Bytes, n: nat)
    requires |b| < TWO_32 && n < |LengthPrefixed(b) + t|
    requires forall m :: 0 <= m < |t| ==> q(t[..m]) == None
    ensures Both(GetLengthPrefixed, q, (LengthPrefixed(b) + t)[..n]) == None
  {
    var s := LengthPrefixed(b);
    if n < |s| {
      CutStringIsRefused(b, n);
    } else {
      LengthPrefixedRoundTrip(b, t[..n - |s|]);
    }
    CutBoth(GetLengthPrefixed, q, s, b, t, n);
  }

  lemma CutMeta(m: Meta, n: nat)
    requires m.number < TWO_64 && m.size < TWO_64 && |m.smallest| < TWO_32 && |m.largest| < TWO_32
    requires n < |Varint(m.number) + (Varint(m.size) + (LengthPrefixed(m.smallest) + LengthPrefixed(m.largest)))|
    ensures GetMeta((Varint(m.number) + (Varint(m.size) + (LengthPrefixed(m.smallest) + LengthPrefixed(m.largest))))[..n]) == None
  {
    var large := LengthPrefixed(m.largest);
    var keys := LengthPrefixed(m.smallest) + large;
    var sized := Varint(m.size) + keys;
    forall k | 0 <= k < |large| ensures GetLengthPrefixed(large[..k]) == None { CutStringIsRefused(m.largest, k); }
    forall k | 0 <= k < |keys| ensures GetKeys(keys[..k]) == None { CutString(GetLengthPrefixed, m.smallest, large, k); }
    forall k | 0 <= k < |sized| ensures GetSizeAndKeys(sized[..k]) == None { CutNumber(GetKeys, m.size, keys, k); }
    CutNumber(GetSizeAndKeys, m.number, sized, n);
  }

  lemma CutBody(f: Field, n: nat)
    requires f.Fits() && n < |Body(f)|
    ensures GetBody(f.Tag(), Body(f)[..n]) == None
  {
    match f
    case Comparator(name) => CutStringIsRefused(name, n);
    case LogNumber(v) => CutVarintIsRefused(v, n);
    case PrevLogNumber(v) => CutVarintIsRefused(v, n);
    case NextFileNumber(v) => CutVarintIsRefused(v, n);
    case LastSequence(v) => CutVarintIsRefused(v, n);
    case CompactPointer(level, key) =>
      forall k | 0 <= k < |LengthPrefixed(key)| ensures GetLengthPrefixed(LengthPrefixed(key)[..k]) == None { CutStringIsRefused(key, k); }
      CutLevel(GetLengthPrefixed, level, LengthPrefixed(key), n);
    case DeletedFile(level, number) =>
      forall k | 0 <= k < |Varint(number)| ensures GetVarint64(Varint(number)[..k]) == None { CutVarintIsRefused(number, k); }
      CutLevel(GetVarint64, level, Varint(number), n);
    case NewFile(level, m) =>
      var meta := Varint(m.number) + (Varint(m.size) + (LengthPrefixed(m.smallest) + LengthPrefixed(m.largest)));
      forall k | 0 <= k < |meta| ensures GetMeta(meta[..k]) == None { CutMeta(m, k); }
      CutLevel(GetMeta, level, meta, n);
  }

  /** What is said of a field that is cut off, of a tag that does not exist, and of a level that does not. */
  lemma MalformedField(f: Field, n: nat, tag: nat, rest: Bytes, level: nat)
    requires f.Fits() && 0 < n < |EncodeField(f)|
    requires tag < TWO_32 && tag !in {1, 2, 3, 4, 5, 6, 7, 9} && NUM_LEVELS <= level < TWO_32
    ensures ParseField(EncodeField(f)[..n]) ==
      Bad(match f
          case Comparator(_) => "comparator name"
          case LogNumber(_) => "log number"
          case PrevLogNumber(_) => "previous log number"
          case NextFileNumber(_) => "next file number"
          case LastSequence(_) => "last sequence number"
          case CompactPointer(_, _) => "compaction pointer"
          case DeletedFile(_, _) => "deleted file"
          case NewFile(_, _) => "new-file entry")
    ensures ParseField(Varint(tag) + rest) == Bad("unknown tag")
    ensures ParseField(Varint(5) + (Varint(level) + rest)) == Bad("compaction pointer")
    ensures ParseField(Varint(6) + (Varint(level) + rest)) == Bad("deleted file")
    ensures ParseField(Varint(7) + (Varint(level) + rest)) == Bad("new-file entry")
  {
    CutFieldIsBad(f, n);
    GetVarint32RoundTrip(tag, rest);
    assert (Varint(tag) + rest)[|Varint(tag)|..] == rest;
    BadLevel(5, level, rest);
    BadLevel(6, level, rest);
    BadLevel(7, level, rest);
  }

  lemma CutFieldIsBad(f: Field, n: nat)
    requires f.Fits() && 0 < n < |EncodeField(f)|
    ensures ParseField(EncodeField(f)[..n]) == Bad(Complaint(f.Tag()))
  {
    hide GetBody, Complaint;
    var tag := Varint(f.Tag());
    var rest := Body(f)[..n - 1];
    assert tag == [f.Tag()];
    assert EncodeField(f)[..n] == tag + rest;
    GetVarint32RoundTrip(f.Tag(), rest);
    assert (tag + rest)[1..] == rest;
    CutBody(f, n - 1);
  }

  lemma BadLevel(tag: nat, level: nat, rest: Bytes)
    requires 5 <= tag <= 7 && NUM_LEVELS <= level < TWO_32
    ensures ParseField(Varint(tag) + (Varint(level) + rest)) == Bad(Complaint(tag))
  {
    GetVarint32RoundTrip(tag, Varint(level) + rest);
    GetVarint32RoundTrip(level, rest);
    assert (Varint(tag) + (Varint(level) + rest))[|Varint(tag)|..] == Varint(level) + rest;
    assert GetLevel(Varint(level) + rest) == None;
  }

  /** Decoding stops at the first field that cannot be read, with what it says of it, and keeps the fields before. */
  lemma {:induction false} StopsAtMalformed(e: Edit, fields: seq<Field>, tail: Bytes, msg: string)
    requires (forall f :: f in fields ==> f.Fits()) && tail != [] && ParseField(tail) == Bad(msg)
    ensures DecodeAll(e, EncodeFields(fields) + tail) == (WithAll(e, fields), Corruption(msg))
    decreases |fields|
  {
    hide ParseField, With, EncodeField;
    if fields == [] {
      assert EncodeFields(fields) + tail == tail;
    } else {
      var code, rest := EncodeField(fields[0]), EncodeFields(fields[1..]) + tail;
      assert EncodeFields(fields) + tail == code + rest;
      FieldRoundTrip(fields[0], rest);
      DropOne(code, rest);
      StopsAtMalformed(With(e, fields[0]), fields[1..], tail, msg);
    }
  }

  ghost predicate EditFits(e: Edit) {
    && (e.comparator.Some? ==> |e.comparator.value| < TWO_32)
    && (e.logNumber.Some? ==> e.logNumber.value < TWO_64) && (e.prevLogNumber.Some? ==> e.prevLogNumber.value < TWO_64)
    && (e.nextFileNumber.Some? ==> e.nextFileNumber.value < TWO_64) && (e.lastSequence.Some? ==> e.lastSequence.value < TWO_64)
    && (forall p :: p in e.compactPointers ==> PointerField(p).Fits())
    && (forall p :: p in e.deletedFiles ==> DeletedField(p).Fits())
    && (forall p :: p in e.newFiles ==> NewFileField(p).Fits())
  }

  lemma FieldsFit(e: Edit, order: seq<(nat, nat)>)
    requires EditFits(e) && Lists(order, e.deletedFiles)
    ensures forall f :: f in FieldsOf(e, order) ==> f.Fits()
  {
    forall f | f in Map(PointerField, e.compactPointers)
      ensures f.Fits()
    {
      var i :| 0 <= i < |e.compactPointers| && f == PointerField(e.compactPointers[i]);
    }
    forall f | f in Map(DeletedField, order)
      ensures f.Fits()
    {
      var i :| 0 <= i < |order| && f == DeletedField(order[i]);
      assert order[i] in order;
    }
    forall f | f in Map(NewFileField, e.newFiles)
      ensures f.Fits()
    {
      var i :| 0 <= i < |e.newFiles| && f == NewFileField(e.newFiles[i]);
    }
  }

  /** Decoding the encoding of an edit gives the edit back, if the edit decoded into had no compaction
      pointers, and only then: Clear keeps those. */
  lemma EditRoundTrip(into: Edit, e: Edit, order: seq<(nat, nat)>)
    requires EditFits(e) && Lists(order, e.deletedFiles)
    ensures
      DecodeAll(Cleared(into), EncodeFields(FieldsOf(e, order))) == (e.(compactPointers := into.compactPointers + e.compactPointers), Ok)
    ensures DecodeAll(Cleared(into), EncodeFields(FieldsOf(e, order))) == (e, Ok) <==> into.compactPointers == []
  {
    FieldsFit(e, order);
    FieldsRoundTrip(Cleared(into), FieldsOf(e, order));
    FieldsRebuild(Cleared(into), e, order);
    if into.compactPointers == [] {
      assert [] + e.compactPointers == e.compactPointers;
    } else {
      assert |into.compactPointers + e.compactPointers| > |e.compactPointers|;
    }
  }

  /** An empty edit decoded into one with a compaction pointer is not empty. */
  lemma ClearKeepsPointers()
    ensures
      var empty := Edit(None, None, None, None, None, [], {}, []);
      var used := empty.(compactPointers := [(1, [])]);
      DecodeAll(Cleared(used), EncodeFields(FieldsOf(empty, []))) == (used, Ok)
  {
    var empty := Edit(None, None, None, None, None, [], {}, []);
    EditRoundTrip(empty.(compactPointers := [(1, [])]), empty, []);
  }

  // ---------- The methods ----------

  lemma AppendThen<T>(a: seq<T>, b: seq<T>, c: seq<T>)
    ensures a + b + c == a + (b + c)
  {
  }

  /** Appends one field; `done` are those appended before. */
  method Put(dst: Bytes, ghost dst0: Bytes, ghost done: seq<Field>, f: Field) returns (r: Bytes)
    requires dst == dst0 + EncodeFields(done)
    ensures r == dst0 + EncodeFields(done + [f])
  {
    FlatMapOne(EncodeField, done, f);
    AppendThen(dst0, EncodeFields(done), EncodeField(f));
    r := dst + EncodeField(f);
  }

  method PutNumber(dst: Bytes, ghost dst0: Bytes, ghost done: seq<Field>, f: nat -> Field, n: Option<nat>) returns (r: Bytes)
    requires dst == dst0 + EncodeFields(done)
    ensures r == dst0 + EncodeFields(done + NumberField(f, n))
  {
    assert done + [] == done;
    r := dst;
    if n.Some? {
      r := Put(r, dst0, done, f(n.value));
    }
  }

  lemma StepThrough<T>(done: seq<T>, all: seq<T>)
    ensures done + all[..0] == done && all[..|all|] == all
    ensures forall i :: 0 <= i < |all| ==> done + all[..i] + [all[i]] == done + all[..i + 1]
  {
  }

  method PutEach<T>(dst: Bytes, ghost dst0: Bytes, ghost done: seq<Field>, f: T -> Field, xs: seq<T>) returns (r: Bytes)
    requires dst == dst0 + EncodeFields(done)
    ensures r == dst0 + EncodeFields(done + Map(f, xs))
  {
    r := dst;
    ghost var all := Map(f, xs);
    StepThrough(done, all);
    for i := 0 to |xs|
      invariant r == dst0 + EncodeFields(done + all[..i])
    {
      r := Put(r, dst0, done + all[..i], f(xs[i]));
    }
  }

  class VersionEdit {
    var comparator: Option<Bytes>
    var logNumber: Option<nat>
    var prevLogNumber: Option<nat>
    var nextFileNumber: Option<nat>
    var lastSequence: Option<nat>
    var compactPointers: seq<(nat, Bytes)>
    var deletedFiles: set<(nat, nat)>
    var newFiles: seq<(nat, Meta)>

    ghost function Value(): Edit
      reads this
    {
      Edit(comparator, logNumber, prevLogNumber, nextFileNumber, lastSequence, compactPointers, deletedFiles, newFiles)
    }

    constructor ()
      ensures Value() == Edit(None, None, None, None, None, [], {}, [])
    {
      comparator, logNumber, prevLogNumber, nextFileNumber, lastSequence := None, None, None, None, None;
      compactPointers, deletedFiles, newFiles := [], {}, [];
    }

    method Clear()
      modifies this
      ensures Value() == Cleared(old(Value()))
    {
      comparator, logNumber, prevLogNumber, nextFileNumber, lastSequence := None, None, None, None, None;
      deletedFiles, newFiles := {}, [];
    }

    /** The setters, AddFile and DeleteFile: each records one field. */
    method Record(f: Field)
      modifies this
      ensures Value() == With(old(Value()), f)
    {
      match f
      case Comparator(name) => comparator := Some(name);
      case LogNumber(n) => logNumber := Some(n);
      case PrevLogNumber(n) => prevLogNumber := Some(n);
      case NextFileNumber(n) => nextFileNumber := Some(n);
      case LastSequence(n) => lastSequence := Some(n);
      case CompactPointer(level, key) => compactPointers := compactPointers + [(level, key)];
      case DeletedFile(level, number) => deletedFiles := deletedFiles + {(level, number)};
      case NewFile(level, file) => newFiles := newFiles + [(level, file)];
    }

    /** Decodes the fields one by one, into a cleared edit. */
    method DecodeFrom(src: Bytes) returns (status: Status)
      modifies this
      ensures (Value(), status) == DecodeAll(Cleared(old(Value())), src)
    {
      Clear();
      var input := src;
      while input != []
        invariant DecodeAll(Value(), input) == DecodeAll(Cleared(old(Value())), src)
        decreases |input|
      {
        match ParseField(input)
        case Bad(msg) => return Corruption(msg);
        case Got(f, size) =>
          if size > |input| {
            return Corruption("");
          }
          Record(f);
          input := input[size..];
      }
      status := Ok;
    }

    /** Appends the fields of the edit; `order` is the order of the set of deleted files. */
    method EncodeTo(dst: Bytes, order: seq<(nat, nat)>) returns (r: Bytes)
      requires Lists(order, deletedFiles)
      ensures r == dst + EncodeFields(FieldsOf(Value(), order))
    {
      r := dst;
      ghost var name := if comparator.Some? then [Comparator(comparator.value)] else [];
      assert dst == dst + EncodeFields([]) && [] + name == name;
      if comparator.Some? {
        r := Put(r, dst, [], Comparator(comparator.value));
      }
      r := PutNumber(r, dst, name, AsLogNumber, logNumber);
      ghost var done := name + NumberField(AsLogNumber, logNumber);
      r := PutNumber(r, dst, done, AsPrevLogNumber, prevLogNumber);
      done := done + NumberField(AsPrevLogNumber, prevLogNumber);
      r := PutNumber(r, dst, done, AsNextFileNumber, nextFileNumber);
      done := done + NumberField(AsNextFileNumber, nextFileNumber);
      r := PutNumber(r, dst, done, AsLastSequence, lastSequence);
      done := done + NumberField(AsLastSequence, lastSequence);
      r := PutEach(r, dst, done, PointerField, compactPointers);
      done := done + Map(PointerField, compactPointers);
      r := PutEach(r, dst, done, DeletedField, order);
      done := done + Map(DeletedField, order);
      r := PutEach(r, dst, done, NewFileField, newFiles);
    }
  }
}
