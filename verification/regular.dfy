/** What decoding asks of the counts and union tags a struct starts with, and always leaves behind. */
module Regularity {
  import opened Descriptor
  import opened FieldIterator
  import opened Agreement
  import opened Ownership

  /** Counts lie within their arrays, and a union's tag names one of its own members or no field. */
  ghost predicate Regular(fields: seq<Field>, m: Message)
    decreases fields, 0
  {
    forall i :: 0 <= i < |fields| ==>
      && Addr(fields, i) in m
      && RegularSlot(fields[i], m[Addr(fields, i)])
      && OwnMember(fields, m, i)
  }

  ghost predicate RegularSlot(f: Field, s: Slot)
    decreases f, 1
  {
    match s
    case Plain(v) => RegularValue(f, v)
    case Has(_, v) => RegularValue(f, v)
    case Array(count, items) => count <= |items|
    case PtrArray(count, _) => count <= PB_SIZE_MAX
    case _ => true
  }

  ghost predicate RegularValue(f: Field, v: Value)
    decreases f, 0
  {
    match (f.ltype, v)
    case (Submessage(fields), Msg(m)) => Regular(fields, m)
    case _ => true
  }

  ghost predicate OwnMember(fields: seq<Field>, m: Message, i: nat)
    requires i < |fields| && Addr(fields, i) in m
  {
    var s := m[Addr(fields, i)];
    s.Union? ==>
      var j := Find(fields, s.which);
      j.Some? ==> Addr(fields, j.value) == Addr(fields, i)
  }

  /** Structs at their defaults are regular. */
  lemma {:induction false} DefaultIsRegular(fields: seq<Field>, m: Message)
    requires WellFormed(fields) && AtDefault(fields, m)
    ensures Regular(fields, m)
    decreases fields, 1
  {
    hide RegularSlot, AtDefaultSlot, ShapedSlot, Addr, WellFormedField;
    forall i | 0 <= i < |fields|
      ensures Addr(fields, i) in m && RegularSlot(fields[i], m[Addr(fields, i)]) && OwnMember(fields, m, i)
    {
      assert WellFormedField(fields[i]);
      DefaultSlotIsRegular(fields[i], m[Addr(fields, i)]);
      NoFieldIsZero(fields);
    }
  }

  lemma {:induction false} DefaultSlotIsRegular(f: Field, s: Slot)
    requires WellFormedField(f) && AtDefaultSlot(f, s)
    ensures RegularSlot(f, s) && (s.Union? ==> s.which == 0)
    decreases f, 1
  {
    if s.Plain? || s.Has? {
      if f.ltype.Submessage? { DefaultIsRegular(f.ltype.fields, s.v.slots); }
    }
  }

  lemma NoFieldIsZero(fields: seq<Field>)
    requires WellFormed(fields)
    ensures Find(fields, 0).None?
  {
    forall i | 0 <= i < |fields| ensures fields[i].tag >= 1 { TagIsPositive(fields, i); }
  }

  /** Writing a regular slot, and naming the member that wrote a union, keeps a struct regular. */
  lemma RegularWritten(fields: seq<Field>, m: Message, i: nat, s: Slot)
    requires WellFormed(fields) && Shaped(fields, m) && Regular(fields, m) && i < |fields|
    requires ShapedSlot(fields[i], s) && RegularSlot(fields[i], s)
    requires s.Union? ==> s.which == fields[i].tag
    ensures Regular(fields, m[Addr(fields, i) := s])
  {
    hide RegularSlot, ShapedSlot, Addr, WellFormedField;
    var a, m' := Addr(fields, i), m[Addr(fields, i) := s];
    FindIsUnique(fields, i);
    forall j | 0 <= j < |fields|
      ensures Addr(fields, j) in m' && RegularSlot(fields[j], m'[Addr(fields, j)]) && OwnMember(fields, m', j)
    {
      assert OwnMember(fields, m, j);
      if j != i && Addr(fields, j) == a {
        assert fields[i].htype == Oneof;
        UnionIsRegular(fields[i], fields[j], s);
      }
    }
  }

  lemma UnionIsRegular(f: Field, g: Field, s: Slot)
    requires f.htype == Oneof && ShapedSlot(f, s)
    ensures s.Union? && RegularSlot(g, s)
  {
  }

  /** `(*size)++` on a `pb_size_t`, which wraps. */
  function Incremented(count: nat): nat {
    if count >= PB_SIZE_MAX then 0 else count + 1
  }
}
