/** `pb_field_iter_t` (pb_common.c): steps through a descriptor while tracking the addresses and the
    required-field number, which are proved to equal their closed forms. */
module FieldIterator {
  import opened Wrappers
  import opened Descriptor

  class FieldIter {
    const fields: seq<Field>
    const base: int
    var pos: nat
    var pData: int
    var pSize: int
    var requiredFieldIndex: nat

    /** `pos` never rests on the terminator unless the descriptor is empty. */
    ghost predicate Valid()
      reads this
    {
      && (fields != [] ==>
            && pos < |fields|
            && pData == base + Addr(fields, pos)
            && pSize == base + SizeAddr(fields, pos)
            && requiredFieldIndex == RequiredBefore(fields, pos))
      && (fields == [] ==> pos == 0 && requiredFieldIndex == 0)
    }

    /** `iter->pos->tag` */
    function Tag(): nat
      reads this
      requires Valid()
    {
      if pos < |fields| then fields[pos].tag else 0
    }

    constructor (fields: seq<Field>, destStruct: int)
      ensures Valid() && this.fields == fields && base == destStruct && pos == 0
    {
      this.fields := fields;
      base := destStruct;
      pos, requiredFieldIndex, pData, pSize := 0, 0, 0, 0;
      new;
      var nonempty := Begin();
    }

    /** `pb_field_iter_begin`: false for an empty message type. */
    method Begin() returns (nonempty: bool)
      modifies this
      ensures Valid() && pos == 0 && (nonempty <==> fields != [])
    {
      pos := 0;
      requiredFieldIndex := 0;
      if fields != [] {
        pData := base + fields[0].dataOffset;
        pSize := pData + fields[0].sizeOffset;
      }
      nonempty := fields != [];
    }

    /** `pb_field_iter_next`: false when it wrapped to the beginning. */
    method Next() returns (more: bool)
      requires Valid()
      modifies this
      ensures Valid()
      ensures more <==> old(pos) + 1 < |fields|
      ensures pos == if more then old(pos) + 1 else 0
    {
      if fields == [] { return false; }
      var prev := fields[pos];
      pos := pos + 1;
      if pos == |fields| {
        var nonempty := Begin();
        return false;
      }
      var f := fields[pos];
      var prevSize := prev.dataSize;
      if prev.htype == Oneof && f.htype == Oneof && f.dataOffset == PB_SIZE_MAX {
        return true;
      } else if prev.atype == Static && prev.htype == Repeated {
        prevSize := prevSize * prev.arraySize;
      } else if prev.atype == Pointer {
        prevSize := POINTER_SIZE;
      }
      if prev.htype == Required { requiredFieldIndex := requiredFieldIndex + 1; }
      pData := pData + prevSize + f.dataOffset;
      pSize := pData + f.sizeOffset;
      return true;
    }

    /** `pb_field_iter_find`: all the way round from wherever the iterator stands. An empty descriptor
        is its terminator, which has tag 0. */
    method Find(tag: nat) returns (found: bool)
      requires Valid()
      modifies this
      ensures Valid()
      ensures fields != [] ==>
                (found <==> exists i :: 0 <= i < |fields| && fields[i].tag == tag && !fields[i].ltype.Extension?)
      ensures fields == [] ==> (found <==> tag == 0)
      ensures found && fields != [] ==> fields[pos].tag == tag && !fields[pos].ltype.Extension?
      ensures !found ==> pos == old(pos)
    {
      var start := pos;
      ghost var turned := 0;
      while true
        invariant Valid()
        invariant fields != [] ==> turned < |fields|
        invariant fields == [] ==> turned == 0
        invariant pos == if start + turned < |fields| || fields == [] then start + turned else start + turned - |fields|
        invariant forall i :: 0 <= i < |fields| && (start <= i < start + turned || i < start + turned - |fields|) ==>
                    fields[i].tag != tag || fields[i].ltype.Extension?
        decreases |fields| - turned
      {
        if Tag() == tag && (fields == [] || !fields[pos].ltype.Extension?) { return true; }
        var more := Next();
        turned := turned + 1;
        if pos == start {
          assert fields != [] ==> turned == |fields|;
          return false;
        }
      }
    }
  }

  /** With distinct tags the search has one possible outcome. */
  lemma {:induction false} FindIsUnique(fields: seq<Field>, i: nat)
    requires WellFormed(fields) && i < |fields|
    ensures Descriptor.Find(fields, fields[i].tag) == Some(i)
  {
    assert WellFormedField(fields[i]);
  }
}
