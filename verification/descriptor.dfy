/** Field descriptors (`pb_field_t`), the message structs they describe, and their layout. */
module Descriptor {
  import opened Wrappers
  import opened Wire

  /** `pb_size_t` has 8, 16 or 32 bits, chosen when nanopb is built; the model holds for each. */
  type SizeMax = n: nat | n == 0xFF || n == 0xFFFF || n == 0xFFFF_FFFF witness 0xFF
  const PB_SIZE_MAX: SizeMax

  /** `sizeof(void*)`, which is also `sizeof(size_t)`. */
  type PointerSize = n: nat | n == 4 || n == 8 witness 4
  const POINTER_SIZE: PointerSize

  /** The largest `size_t`. */
  const SIZE_MAX: nat := if POINTER_SIZE == 4 then WORD32 - 1 else WORD64 - 1

  const PB_MAX_REQUIRED_FIELDS: nat := 64

  /** `offsetof(pb_bytes_array_t, bytes)` */
  function BytesHeader(): nat {
    if PB_SIZE_MAX == 0xFF then 1 else if PB_SIZE_MAX == 0xFFFF then 2 else 4
  }

  datatype LType =
    | Bool | Varint | Uvarint | Svarint | Fixed32 | Fixed64
    | Bytes | String | Submessage(fields: seq<Field>) | Extension | FixedLengthBytes
  {
    /** `PB_LTYPE(type) <= PB_LTYPE_LAST_PACKABLE` */
    predicate Packable() {
      Bool? || Varint? || Uvarint? || Svarint? || Fixed32? || Fixed64?
    }
  }

  datatype HType = Required | Optional | Repeated | Oneof
  datatype AType = Static | Pointer

  /** One entry of a descriptor array. The array's terminator (tag 0) is not stored: it is the index
      one past the last entry. */
  datatype Field = Field(
    tag: uint32, ltype: LType, htype: HType, atype: AType,
    dataOffset: nat, sizeOffset: int, dataSize: nat, arraySize: nat,
    default: Option<Value>)
  {
    /** Optional without a `has_` member: the proto3 style. */
    predicate Singular() { htype == Optional && sizeOffset == 0 }

    /** A static array without a `_count` member. */
    predicate FixedCount() { htype == Repeated && atype == Static && sizeOffset == 0 }
  }

  // ---------------------------------------------------------------- Struct contents

  /** A struct: the slot found at each `pData` address, relative to the start of the struct. The
      members of a oneof have one address between them. */
  type Message = map<int, Slot>

  datatype Slot =
    | Plain(v: Value)
    | Has(has: bool, v: Value)
    | Array(count: nat, items: seq<Value>)
    | FixedArray(items: seq<Value>)
    | Union(which: nat, v: Value)
    | Ptr(p: Pointer)
    | PtrArray(count: nat, p: Pointer)

  /** `Ref` is an entry of a pointer array of strings or bytes; `Garbage` is memory nobody wrote. */
  datatype Value = Int(i: int) | Data(bytes: bytes) | Msg(slots: Message) | Ref(p: Pointer) | Garbage

  datatype Pointer = Null | Block(id: nat, items: seq<Value>)

  // ---------------------------------------------------------------- Layout

  /** Both are members of one union: PB_DATAOFFSET_UNION. */
  predicate Joined(prev: Field, f: Field) {
    prev.htype == Oneof && f.htype == Oneof && f.dataOffset == PB_SIZE_MAX
  }

  /** What a field takes up in the struct itself. */
  function StructSize(f: Field): nat {
    if f.atype == Static && f.htype == Repeated then f.dataSize * f.arraySize
    else if f.atype == Pointer then POINTER_SIZE
    else f.dataSize
  }

  /** Closed form of `pData` at position `i`, relative to the struct. */
  function Addr(fields: seq<Field>, i: nat): nat
    requires i < |fields|
  {
    if i == 0 then fields[0].dataOffset
    else if Joined(fields[i - 1], fields[i]) then Addr(fields, i - 1)
    else Addr(fields, i - 1) + StructSize(fields[i - 1]) + fields[i].dataOffset
  }

  /** Closed form of `pSize`. */
  function SizeAddr(fields: seq<Field>, i: nat): int
    requires i < |fields|
  {
    if i > 0 && Joined(fields[i - 1], fields[i]) then SizeAddr(fields, i - 1)
    else Addr(fields, i) + fields[i].sizeOffset
  }

  /** Closed form of `required_field_index`: the required fields before position `i`. */
  function RequiredBefore(fields: seq<Field>, i: nat): (n: nat)
    requires i <= |fields|
    ensures n <= i
  {
    if i == 0 then 0
    else RequiredBefore(fields, i - 1) + if fields[i - 1].htype == Required then 1 else 0
  }

  /** The field with a given tag, extensions aside. */
  function Find(fields: seq<Field>, tag: nat): (r: Option<nat>)
    ensures r.Some? ==> r.value < |fields| && fields[r.value].tag == tag && !fields[r.value].ltype.Extension?
    ensures r.None? ==> forall i :: 0 <= i < |fields| && fields[i].tag == tag ==> fields[i].ltype.Extension?
  {
    if fields == [] then None
    else
      var last := |fields| - 1;
      var r := Find(fields[..last], tag);
      if r.Some? then r
      else if fields[last].tag == tag && !fields[last].ltype.Extension? then Some(last)
      else None
  }

  // ---------------------------------------------------------------- Well-formed descriptors

  ghost predicate WellFormed(fields: seq<Field>)
    decreases fields
  {
    && (forall i :: 0 <= i < |fields| ==> WellFormedField(fields[i]))
    && (forall i, j :: 0 <= i < j < |fields| ==> fields[i].tag != fields[j].tag)
    && (forall i, j :: 0 <= i < j < |fields| && Addr(fields, i) == Addr(fields, j) ==>
          fields[i].htype == Oneof && fields[j].htype == Oneof)
  }

  /** What the generator's macros produce. Oneof members and the entries of fixed-count arrays hold
      no pointers; extension placeholders are left out. */
  ghost predicate WellFormedField(f: Field)
    decreases f
  {
    && 1 <= f.tag
    && f.dataSize <= PB_SIZE_MAX && f.arraySize <= PB_SIZE_MAX
    && !f.ltype.Extension?
    && (f.ltype.Varint? || f.ltype.Uvarint? || f.ltype.Svarint? ==> f.dataSize in {1, 2, 4, 8})
    && (f.ltype.Packable() ==> f.dataSize > 0)
    && (f.ltype.Submessage? ==> WellFormed(f.ltype.fields))
    && (f.htype == Oneof ==> f.sizeOffset != 0)
    && (f.htype == Oneof || f.FixedCount() ==> AllStaticField(f))
    && (f.atype == Pointer && f.htype == Repeated ==> f.sizeOffset != 0)
    && (f.atype == Pointer && f.htype != Repeated ==> f.sizeOffset == 0)
    && (f.default.Some? ==> f.atype == Static && !f.ltype.Submessage? && ShapedValue(f, f.default.value))
  }

  /** No pointer field at any depth. */
  ghost predicate AllStatic(fields: seq<Field>)
    decreases fields
  {
    forall i :: 0 <= i < |fields| ==> AllStaticField(fields[i])
  }

  ghost predicate AllStaticField(f: Field)
    decreases f
  {
    f.atype == Static && (f.ltype.Submessage? ==> AllStatic(f.ltype.fields))
  }

  // ---------------------------------------------------------------- Structs that match a descriptor

  ghost predicate Shaped(fields: seq<Field>, m: Message)
    decreases fields, 0
  {
    forall i :: 0 <= i < |fields| ==> Addr(fields, i) in m && ShapedSlot(fields[i], m[Addr(fields, i)])
  }

  ghost predicate ShapedSlot(f: Field, s: Slot)
    decreases f, 2
  {
    match (f.atype, f.htype)
    case (Static, Required) => s.Plain? && ShapedValue(f, s.v)
    case (Static, Optional) =>
      if f.sizeOffset == 0 then s.Plain? && ShapedValue(f, s.v) else s.Has? && ShapedValue(f, s.v)
    case (Static, Repeated) =>
      && (if f.sizeOffset == 0 then s.FixedArray? else s.Array?)
      && |s.items| == f.arraySize
      && forall k :: 0 <= k < |s.items| ==> ShapedValue(f, s.items[k])
    case (_, Oneof) => s.Union? && (s.which == f.tag ==> ShapedValue(f, s.v))
    case (Pointer, Repeated) =>
      && s.PtrArray?
      && (s.p.Null? ==> s.count == 0)
      && (s.p.Block? ==> s.count <= |s.p.items| && forall k :: 0 <= k < s.count ==> ShapedItem(f, s.p.items[k]))
    case (Pointer, _) => s.Ptr? && (s.p.Block? ==> |s.p.items| == 1 && ShapedItem(f, s.p.items[0]))
  }

  /** Contents of a static field or array entry, or of a submessage wherever it lies. */
  ghost predicate ShapedValue(f: Field, v: Value)
    decreases f, 0
  {
    match f.ltype
    case Bool | Varint | Uvarint | Svarint | Fixed32 | Fixed64 => v.Int?
    case Bytes | String => v.Data?
    case FixedLengthBytes => v.Data? && |v.bytes| == f.dataSize
    case Submessage(fields) => v.Msg? && Shaped(fields, v.slots)
    case Extension => false
  }

  /** An entry on the heap. Scalars may still be unwritten; strings and bytes of an array are
      pointers of their own. */
  ghost predicate ShapedItem(f: Field, v: Value)
    decreases f, 1
  {
    if f.ltype.Submessage? then ShapedValue(f, v)
    else if OwnPointer(f) && f.htype == Repeated then v.Ref? && (v.p.Block? ==> |v.p.items| == 1)
    else !v.Ref? && !v.Msg?
  }

  /** Strings and bytes on the heap are allocated by their own decoders. */
  predicate OwnPointer(f: Field) {
    f.atype == Pointer && (f.ltype.String? || f.ltype.Bytes?)
  }

  /** The entries of a heap array. */
  function HeapItems(p: Pointer): seq<Value> {
    if p.Block? then p.items else []
  }

  /** What an array entry shows: strings and bytes on the heap are pointers, null meaning empty. */
  function Content(f: Field, v: Value): Value {
    if OwnPointer(f) then
      match v
      case Ref(Null) => Data([])
      case Ref(Block(_, items)) => if |items| == 1 then items[0] else Garbage
      case _ => Garbage
    else v
  }
}
