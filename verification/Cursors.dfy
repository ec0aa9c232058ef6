/** A cursor over a sorted run: the contract of leveldb's Iterator, as its users rely on it. */
module Cursors {
  import opened Dbformat

  /** `pos == |entries|` means the cursor is not valid; stepping off either end gets there. */
  datatype Cursor = Cursor(entries: seq<Entry>, pos: nat) {
    predicate Ok() { pos <= |entries| }

    predicate Valid() { pos < |entries| }

    function Key(): InternalKey
      requires Valid()
    {
      entries[pos].key
    }

    function SeekTo(target: InternalKey): Cursor
      requires Sorted(entries)
    {
      this.(pos := LowerBound(entries, target))
    }

    function SeekToFirst(): Cursor { this.(pos := 0) }

    function SeekToLast(): Cursor { this.(pos := if |entries| == 0 then 0 else |entries| - 1) }

    function Next(): Cursor
      requires Valid()
    {
      this.(pos := pos + 1)
    }

    function Prev(): Cursor
      requires Valid()
    {
      this.(pos := if pos == 0 then |entries| else pos - 1)
    }
  }
}
