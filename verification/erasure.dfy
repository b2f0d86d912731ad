/** What a struct holds, whatever blocks hold it: block numbers and unused heap entries are erased. */
module Erasure {
  import opened Descriptor
  import opened DecodeSpec

  function ErasedValue(v: Value): Value {
    match v
    case Msg(slots) => Msg(map a | a in slots :: ErasedSlot(slots[a]))
    case Ref(p) => Ref(ErasedPointer(p))
    case _ => v
  }

  function ErasedItems(items: seq<Value>): (r: seq<Value>)
    ensures |r| == |items| && forall k :: 0 <= k < |r| ==> r[k] == ErasedValue(items[k])
  {
    seq(|items|, k requires 0 <= k < |items| => ErasedValue(items[k]))
  }

  function ErasedPointer(p: Pointer): Pointer {
    match p
    case Null => Null
    case Block(_, items) => Block(0, ErasedItems(items))
  }

  /** The first `count` entries of a heap array. */
  function ErasedArray(count: nat, p: Pointer): Pointer
    decreases p
  {
    match p
    case Null => Null
    case Block(_, items) => Block(0, if count < |items| then ErasedItems(items)[..count] else ErasedItems(items))
  }

  function ErasedSlot(s: Slot): Slot
    decreases s
  {
    match s
    case Plain(v) => Plain(ErasedValue(v))
    case Has(has, v) => Has(has, ErasedValue(v))
    case Array(count, items) => Array(count, ErasedItems(items))
    case FixedArray(items) => FixedArray(ErasedItems(items))
    case Union(which, v) => Union(which, ErasedValue(v))
    case Ptr(p) => Ptr(ErasedPointer(p))
    case PtrArray(count, p) => PtrArray(count, ErasedArray(count, p))
  }

  function Erased(m: Message): Message {
    map a | a in m :: ErasedSlot(m[a])
  }

  lemma ErasedUpdate(m: Message, a: int, s: Slot)
    ensures Erased(m[a := s]) == Erased(m)[a := ErasedSlot(s)]
  {
  }

  lemma ErasedMessage(m: Message)
    ensures ErasedValue(Msg(m)) == Msg(Erased(m))
  {
  }

  /** Setting to defaults does not depend on what is erased. */
  lemma {:induction false} ErasedDefaults(fields: seq<Field>, m: Message, i: nat)
    requires WellFormed(fields) && i <= |fields|
    ensures Erased(DefaultsFrom(fields, m, i)) == DefaultsFrom(fields, Erased(m), i)
    decreases fields, |fields| - i
  {
    hide DefaultSlot, WellFormedField, Addr, ErasedSlot;
    if i < |fields| {
      var a := Addr(fields, i);
      assert WellFormedField(fields[i]);
      if a in m {
        ErasedDefaultSlot(fields[i], m[a]);
        ErasedUpdate(m, a, DefaultSlot(fields[i], m[a]));
        ErasedDefaults(fields, m[a := DefaultSlot(fields[i], m[a])], i + 1);
      } else {
        ErasedDefaults(fields, m, i + 1);
      }
    }
  }

  lemma {:induction false} ErasedDefaultSlot(f: Field, s: Slot)
    requires WellFormedField(f)
    ensures ErasedSlot(DefaultSlot(f, s)) == DefaultSlot(f, ErasedSlot(s))
    decreases f, 1
  {
    match s {
      case Plain(v) => ErasedDefaultValue(f, v);
      case Has(_, v) => ErasedDefaultValue(f, v);
      case _ =>
    }
  }

  lemma {:induction false} ErasedDefaultValue(f: Field, v: Value)
    requires WellFormedField(f)
    ensures ErasedValue(DefaultValue(f, v)) == DefaultValue(f, ErasedValue(v))
    decreases f, 0
  {
    if f.ltype.Submessage? {
      if v.Msg? {
        ErasedDefaults(f.ltype.fields, v.slots, 0);
        ErasedMessage(v.slots);
        ErasedMessage(SetDefaults(f.ltype.fields, v.slots));
      }
    } else {
      ErasedZeroValue(f);
    }
  }

  /** Zeroed memory holds no blocks. */
  lemma {:induction false} ErasedZeroValue(f: Field)
    ensures ErasedValue(ZeroValue(f)) == ZeroValue(f)
    decreases f, 0
  {
    if f.ltype.Submessage? {
      ErasedZero(f.ltype.fields, 0);
      ErasedMessage(ZeroFrom(f.ltype.fields, 0));
    }
  }

  lemma {:induction false} ErasedZero(fields: seq<Field>, i: nat)
    requires i <= |fields|
    ensures Erased(ZeroFrom(fields, i)) == ZeroFrom(fields, i)
    decreases fields, |fields| - i
  {
    if i < |fields| {
      var f := fields[i];
      ErasedZero(fields, i + 1);
      ErasedZeroValue(f);
      assert ErasedItems(Repeat(ZeroValue(f), f.arraySize)) == Repeat(ZeroValue(f), f.arraySize);
      ErasedUpdate(ZeroFrom(fields, i + 1), Addr(fields, i), ZeroSlot(f));
    }
  }
}
