/** The iterator over the fields of a descriptor (pb_common.c). */
module PbCommon {
  import opened Wrappers
  import opened PbModel

  /** pb_field_iter_t. `pos` stands for the pointers into the descriptor and the struct; it never points
      to the terminator unless there is nothing else. */
  class FieldIter {
    var start: Fields
    var pos: nat
    var requiredFieldIndex: nat

    ghost predicate Valid()
      reads this
    {
      && (if start.Last? then pos == 0 else pos < Len(start))
      && requiredFieldIndex == RequiredBefore(start, pos)
    }

    /** pb_field_iter_begin. */
    constructor (fields: Fields)
      ensures Valid() && start == fields && pos == 0
    {
      start := fields;
      pos := 0;
      requiredFieldIndex := 0;
    }

    /** pb_field_iter_next: steps to the next field, or wraps to the first one and says so. */
    method Next() returns (more: bool)
      requires Valid()
      modifies this
      ensures Valid() && start == old(start)
      ensures more <==> old(pos) + 1 < Len(start)
      ensures pos == if more then old(pos) + 1 else 0
    {
      if start.Last? {
        return false;
      }
      var prev := At(start, pos);
      pos := pos + 1;
      if pos == Len(start) {
        pos := 0;
        requiredFieldIndex := 0;
        return false;
      }
      NextRequired(start, pos - 1);
      if prev.htype.Required? {
        requiredFieldIndex := requiredFieldIndex + 1;
      }
      return true;
    }

    /** The tag of the field it stands on, or of the terminator. */
    function Tag(): nat
      requires Valid()
      reads this
    {
      if start.Last? then TERMINATOR.tag else At(start, pos).tag
    }

    /** The kind of that field. */
    function Type(): HType
      requires Valid()
      reads this
    {
      if start.Last? then TERMINATOR.htype else At(start, pos).htype
    }

    /** pb_field_iter_find: from where it stands, once around. In a message with no fields the terminator
        passes for a field with number zero. */
    method Find(tag: nat) returns (found: bool)
      requires Valid()
      modifies this
      ensures Valid() && start == old(start)
      ensures found <==> IndexOf(start, tag).Some? || (start.Last? && tag == 0)
      ensures found ==> Tag() == tag
      ensures found && start.More? && DistinctTags(start) ==> IndexOf(start, tag) == Some(pos)
      ensures !found ==> pos == old(pos)
    {
      var begin := pos;
      var around := false;
      while !around
        invariant Valid() && start == old(start)
        invariant around ==> pos == begin && (start.More? || tag != 0)
        invariant forall k :: 0 <= k < Len(start) && (around || Passed(k, begin, pos)) ==> At(start, k).tag != tag
        decreases if around then 0 else Len(start) + 1 - (if pos >= begin then pos - begin else pos - begin + Len(start))
      {
        if Tag() == tag {
          if start.More? { FoundIsIndex(start, tag, pos); }
          return true;
        }
        var more := Next();
        around := pos == begin;
      }
      return false;
    }
  }

  /** The indices that an iterator started at `begin` has left behind when it stands at `pos`. */
  ghost predicate Passed(k: nat, begin: nat, pos: nat) {
    if pos >= begin then begin <= k < pos else k >= begin || k < pos
  }

  lemma FoundIsIndex(fields: Fields, tag: nat, i: nat)
    requires i < Len(fields) && At(fields, i).tag == tag
    ensures IndexOf(fields, tag).Some?
    ensures DistinctTags(fields) ==> IndexOf(fields, tag) == Some(i)
  {
    var r := IndexOf(fields, tag);
    assert DistinctTags(fields) ==> forall j :: 0 <= j < Len(fields) && At(fields, j).tag == tag ==> j == i;
  }

  lemma {:induction false} NextRequired(fields: Fields, i: nat)
    requires i < Len(fields)
    ensures RequiredBefore(fields, i + 1) == RequiredBefore(fields, i) + (if At(fields, i).htype.Required? then 1 else 0)
  {
    if i > 0 { NextRequired(fields.rest, i - 1); }
  }

  function Below(n: nat): (s: set<nat>)
    ensures forall k: nat :: k in s <==> k < n
  {
    if n == 0 then {} else Below(n - 1) + {n - 1}
  }

  // ---------- Descriptors by index ----------

  lemma {:induction false} FieldAt(fields: Fields, slots: seq<Slot>, i: nat)
    requires i < Len(fields) == |slots|
    ensures Suffix(fields, i) == More(At(fields, i), Suffix(fields, i + 1))
    ensures TypeDepth(At(fields, i).ltype) < Depth(fields)
    ensures TypedAll(fields, slots) ==> TypedSlot(At(fields, i), slots[i])
    ensures Encodable(fields, slots) ==> EncodableSlot(At(fields, i), slots[i])
    decreases fields
  {
    if i > 0 {
      FieldAt(fields.rest, slots[1..], i - 1);
    }
  }

  /** What is left of a message from an index on. */
  lemma WireAt(fields: Fields, slots: seq<Slot>, i: nat)
    requires i < Len(fields) == |slots|
    ensures
      Wire(Suffix(fields, i), slots[i..]) == WireField(At(fields, i), slots[i]) + Wire(Suffix(fields, i + 1), slots[i + 1..])
    ensures
      Encodable(Suffix(fields, i), slots[i..])
      <==> EncodableSlot(At(fields, i), slots[i]) && Encodable(Suffix(fields, i + 1), slots[i + 1..])
  {
    FieldAt(fields, slots, i);
    assert slots[i..][1..] == slots[i + 1..];
  }

  lemma {:induction false} SuffixEnd(fields: Fields)
    ensures Suffix(fields, Len(fields)) == Last
  {
    if fields.More? { SuffixEnd(fields.rest); }
  }
}
