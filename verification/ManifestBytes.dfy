/** From the bytes of a manifest to the version: the log of encoded edits, whole or cut off by a crash
    (db/version_set.cc, db/version_edit.cc). */
module ManifestBytes {
  import opened Wrappers
  import opened Dbformat
  import opened VersionFiles
  import opened VersionBuilder
  import opened VersionEdits
  import opened Manifest
  import opened LogSafety
  import EditCodec
  import opened InternalKeys
  import LogFormat

  // ---------- Edits and their encodings ----------

  /** The table files on disk, by number. */
  type Tables = nat -> seq<Entry>

  function PointerBytes(names: Names, p: (nat, InternalKey)): (nat, Bytes) { (p.0, KeyBytes(names, p.1)) }

  function PointerOf(p: (nat, Bytes)): (nat, InternalKey) { (p.0, KeyOf(p.1)) }

  /** A manifest records a file's number, size and bounds; its entries are in the file itself. */
  function FileBytes(names: Names, p: (nat, File)): (nat, EditCodec.Meta) {
    (p.0, EditCodec.Meta(p.1.number, p.1.size, KeyBytes(names, p.1.smallest), KeyBytes(names, p.1.largest)))
  }

  function FileOf(tables: Tables, p: (nat, EditCodec.Meta)): (nat, File) {
    (p.0, File(p.1.number, p.1.size, KeyOf(p.1.smallest), KeyOf(p.1.largest), tables(p.1.number)))
  }

  function AsCoded(names: Names, e: VersionEdit): EditCodec.Edit {
    EditCodec.Edit(e.comparator, e.logNumber, e.prevLogNumber, e.nextFileNumber, e.lastSequence,
                   Map(p => PointerBytes(names, p), e.compactPointers), e.deletedFiles,
                   Map(p => FileBytes(names, p), e.newFiles))
  }

  function FromCoded(tables: Tables, e: EditCodec.Edit): VersionEdit {
    VersionEdit(e.comparator, e.logNumber, e.prevLogNumber, e.nextFileNumber, e.lastSequence,
                Map(PointerOf, e.compactPointers), e.deletedFiles, Map(p => FileOf(tables, p), e.newFiles))
  }

  /** An edit that can be written down, and whose files are on disk. */
  ghost predicate Writable(names: Names, tables: Tables, e: VersionEdit) {
    && EditCodec.EditFits(AsCoded(names, e))
    && (forall p :: p in e.compactPointers ==> KeyFits(names, p.1))
    && (forall p :: p in e.newFiles ==>
          KeyFits(names, p.1.smallest) && KeyFits(names, p.1.largest) && tables(p.1.number) == p.1.entries)
  }

  lemma CodedRoundTrip(names: Names, tables: Tables, e: VersionEdit)
    requires Writable(names, tables, e)
    ensures FromCoded(tables, AsCoded(names, e)) == e
  {
    var coded := AsCoded(names, e);
    forall i | 0 <= i < |e.compactPointers|
      ensures PointerOf(coded.compactPointers[i]) == e.compactPointers[i]
    {
      assert e.compactPointers[i] in e.compactPointers;
      KeyRoundTrip(names, e.compactPointers[i].1);
    }
    forall i | 0 <= i < |e.newFiles|
      ensures FileOf(tables, coded.newFiles[i]) == e.newFiles[i]
    {
      assert e.newFiles[i] in e.newFiles;
      KeyRoundTrip(names, e.newFiles[i].1.smallest);
      KeyRoundTrip(names, e.newFiles[i].1.largest);
    }
    assert Map(PointerOf, coded.compactPointers) == e.compactPointers;
    assert Map(p => FileOf(tables, p), coded.newFiles) == e.newFiles;
  }

  // ---------- Records ----------

  /** EncodeTo writes the deleted files in some order. */
  ghost predicate IsRecord(names: Names, e: VersionEdit, record: Bytes) {
    exists order :: EditCodec.Lists(order, e.deletedFiles)
      && record == EditCodec.EncodeFields(EditCodec.FieldsOf(AsCoded(names, e), order))
  }

  const EMPTY_CODED := EditCodec.Edit(None, None, None, None, None, [], {}, [])

  /** The loop of VersionSet::Recover decodes each record into a new edit. */
  function DecodeRecord(tables: Tables, record: Bytes): Option<VersionEdit> {
    var (e, status) := EditCodec.DecodeAll(EMPTY_CODED, record);
    if status == EditCodec.Status.Ok then Some(FromCoded(tables, e)) else None
  }

  /** All records, unless one of them cannot be decoded. */
  function DecodeEach<T>(decode: Bytes -> Option<T>, records: seq<Bytes>): Option<seq<T>> {
    if records == [] then Some([])
    else
      match (decode(records[0]), DecodeEach(decode, records[1..]))
      case (Some(x), Some(xs)) => Some([x] + xs)
      case _ => None
  }

  lemma {:induction false} EachDecodes<T>(decode: Bytes -> Option<T>, xs: seq<T>, records: seq<Bytes>)
    requires |xs| == |records| && forall i :: 0 <= i < |xs| ==> decode(records[i]) == Some(xs[i])
    ensures DecodeEach(decode, records) == Some(xs)
    decreases |xs|
  {
    if xs != [] {
      EachDecodes(decode, xs[1..], records[1..]);
      assert [xs[0]] + xs[1..] == xs;
    }
  }

  lemma RecordRoundTrip(names: Names, tables: Tables, e: VersionEdit, record: Bytes)
    requires Writable(names, tables, e) && IsRecord(names, e, record)
    ensures DecodeRecord(tables, record) == Some(e)
  {
    var order :| EditCodec.Lists(order, e.deletedFiles)
      && record == EditCodec.EncodeFields(EditCodec.FieldsOf(AsCoded(names, e), order));
    EditCodec.EditRoundTrip(EMPTY_CODED, AsCoded(names, e), order);
    CodedRoundTrip(names, tables, e);
  }

  ghost predicate AreRecords(names: Names, tables: Tables, edits: seq<VersionEdit>, records: seq<Bytes>) {
    && |edits| == |records|
    && forall i :: 0 <= i < |edits| ==> Writable(names, tables, edits[i]) && IsRecord(names, edits[i], records[i])
  }

  lemma RecordsRoundTrip(names: Names, tables: Tables, edits: seq<VersionEdit>, records: seq<Bytes>)
    requires AreRecords(names, tables, edits, records)
    ensures DecodeEach(record => DecodeRecord(tables, record), records) == Some(edits)
  {
    forall i | 0 <= i < |edits|
      ensures DecodeRecord(tables, records[i]) == Some(edits[i])
    {
      RecordRoundTrip(names, tables, edits[i], records[i]);
    }
    EachDecodes(record => DecodeRecord(tables, record), edits, records);
  }

  // ---------- The manifest file ----------

  /** The edits that a manifest file holds. */
  function EditsIn(c: LogFormat.Scheme, tables: Tables, f: Bytes): Option<seq<VersionEdit>> {
    DecodeEach(record => DecodeRecord(tables, record), ReadAll(Items(c, f, LogFormat.Pos(0, 0))).0)
  }

  /** Recovery from the bytes of the manifest, right after LogAndApply, gives the version, the log numbers,
      the sequence number and the next file number that are installed. */
  lemma ManifestRestoresInstalled(c: LogFormat.Scheme, names: Names, tables: Tables, comparator: Bytes, now: Fields,
                                  manifest: Option<seq<VersionEdit>>, installed: seq<Levels>, edit: VersionEdit,
                                  records: seq<Bytes>)
    requires c.Sound() && Consistent(comparator, now, manifest, installed) && Applicable(comparator, now, manifest, edit)
    requires AreRecords(names, tables, Written(comparator, now, manifest, edit), records)
    ensures
      var edits := EditsIn(c, tables, EmitAll(c, 0, records));
      var next := After(now, edit);
      && edits.Some? && Recoverable(edits.value, comparator)
      && var r := RecoveredFrom(edits.value, comparator);
         && r.levels == next.levels && r.logNumber == next.logNumber && r.prevLogNumber == next.prevLogNumber
         && r.lastSequence == next.lastSequence && r.nextFile == next.nextFile + 1
  {
    LogCrashTolerance(c, EmitAll(c, 0, records), records);
    RecordsRoundTrip(names, tables, Written(comparator, now, manifest, edit), records);
    LogAndApplyAccounts(comparator, now, manifest, installed, edit);
  }

  /** Whatever prefix of the manifest a crash leaves, it holds the first edits, those held in full. */
  lemma CrashLeavesEdits(c: LogFormat.Scheme, names: Names, tables: Tables, edits: seq<VersionEdit>, records: seq<Bytes>, f: Bytes)
    requires c.Sound() && AreRecords(names, tables, edits, records) && f <= EmitAll(c, 0, records)
    ensures
      var k := Complete(c, 0, records, |f|);
      k <= |edits| && EditsIn(c, tables, f) == Some(edits[..k])
  {
    hide ReadAll, Items, EmitAll, Complete;
    var k := Complete(c, 0, records, |f|);
    LogCrashTolerance(c, f, records);
    assert AreRecords(names, tables, edits[..k], records[..k]);
    RecordsRoundTrip(names, tables, edits[..k], records[..k]);
  }

  /** Whatever prefix of the manifest a crash leaves, its edits lead to a version that was installed: that
      of the last edit held in full. */
  lemma CrashLeavesInstalledVersion(c: LogFormat.Scheme, names: Names, tables: Tables, comparator: Bytes, now: Fields,
                                    edits: seq<VersionEdit>, installed: seq<Levels>, records: seq<Bytes>, f: Bytes)
    requires c.Sound() && Consistent(comparator, now, Some(edits), installed)
    requires AreRecords(names, tables, edits, records) && f <= EmitAll(c, 0, records)
    ensures
      var k := Complete(c, 0, records, |f|);
      k <= |edits| && EditsIn(c, tables, f) == Some(edits[..k]) && (k > 0 ==> VersionAfter(edits[..k]) == installed[k - 1])
  {
    hide Accounts, EmitAll, Complete, VersionAfter, EditsIn;
    var k := Complete(c, 0, records, |f|);
    CrashLeavesEdits(c, names, tables, edits, records, f);
    assert k > 0 ==> edits[..(k - 1) + 1] == edits[..k];
  }
}
