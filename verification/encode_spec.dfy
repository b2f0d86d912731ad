/** The bytes `pb_encode` gives a message. `None` is a refusal: a value that does not fit its
    descriptor, or memory without the shape the descriptor tells. */
module EncodeSpec {
  import opened Wrappers
  import opened Wire
  import opened Descriptor

  /** `pb_encode_tag_for_field` */
  function WireTypeOf(t: LType): nat {
    match t
    case Bool | Varint | Uvarint | Svarint => WT_VARINT
    case Fixed32 => WT_32BIT
    case Fixed64 => WT_64BIT
    case _ => WT_STRING
  }

  function EncKey(f: Field): bytes {
    EncTag(WireTypeOf(f.ltype), f.tag)
  }

  predicate IntegerSize(n: nat) { n == 1 || n == 2 || n == 4 || n == 8 }

  /** A C string in memory of `max` bytes. */
  function CString(s: bytes, max: nat): (r: bytes)
    ensures |r| <= |s| && |r| <= max
  {
    if s == [] || s[0] == 0 || max == 0 then [] else [s[0]] + CString(s[1..], max - 1)
  }

  /** The string a field of this type holds; `strnlen` stops at the end of a static buffer. */
  function StringOf(f: Field, s: bytes): bytes {
    CString(s, if f.atype == Static then f.dataSize else |s|)
  }

  /** A number in memory; memory nobody wrote reads as zero. */
  function IntOf(v: Value): int {
    if v.Int? then v.i else 0
  }

  function EncValue(f: Field, v: Value): Option<bytes>
    decreases f, 0
  {
    match (f.ltype, v)
    case (Bool, _) => Some(EncVarint(if IntOf(v) != 0 then 1 else 0))
    case (Varint, _) => if IntegerSize(f.dataSize) then Some(EncVarint(ToUnsigned64(IntOf(v)))) else None
    case (Uvarint, _) => if IntegerSize(f.dataSize) then Some(EncVarint(ToUnsigned64(IntOf(v)))) else None
    case (Svarint, _) => if IntegerSize(f.dataSize) then Some(EncVarint(ZigZag(IntOf(v)))) else None
    case (Fixed32, _) => Some(EncFixed(IntOf(v) % WORD32, 4))
    case (Fixed64, _) => Some(EncFixed(IntOf(v) % WORD64, 8))
    case (Bytes, Data(s)) =>
      if f.atype == Static && |s| + BytesHeader() > f.dataSize then None else Prefixed(s)
    case (String, Data(s)) => Prefixed(StringOf(f, s))
    case (FixedLengthBytes, Data(s)) => if |s| == f.dataSize then Prefixed(s) else None
    case (Submessage(fields), Msg(m)) =>
      (match EncMessage(fields, m)
       case None => None
       case Some(payload) => Prefixed(payload))
    case _ => None
  }

  /** An array entry; those of a pointer array of strings or bytes are pointers, null meaning empty. */
  function EncItem(f: Field, v: Value): Option<bytes>
    decreases f, 1
  {
    if OwnPointer(f) then
      match v
      case Ref(Null) => Prefixed([])
      case Ref(Block(_, items)) => if |items| == 1 then EncValue(f, items[0]) else None
      case _ => None
    else EncValue(f, v)
  }

  /** An entry is encoded as what it shows. */
  lemma ItemEncodes(f: Field, v: Value)
    ensures EncItem(f, v) == EncValue(f, Content(f, v))
  {
    hide CString;
    assert StringOf(f, []) == [];
  }

  /** The entries one after the other, as in a packed array. */
  function EncPacked(f: Field, items: seq<Value>): Option<bytes>
    decreases f, 2, |items|
  {
    if items == [] then Some([]) else Cat(EncItem(f, items[0]), EncPacked(f, items[1..]))
  }

  /** The entries, each behind a key of its own. */
  function EncEach(f: Field, items: seq<Value>): Option<bytes>
    decreases f, 2, |items|
  {
    if items == [] then Some([])
    else Cat(Cat(Some(EncKey(f)), EncItem(f, items[0])), EncEach(f, items[1..]))
  }

  function EncArray(f: Field, count: nat, items: seq<Value>): Option<bytes>
    decreases f, 3
  {
    if count == 0 then Some([])
    else if f.atype == Static && count > f.arraySize then None
    else if count > |items| then None
    else if f.ltype.Packable() then
      match EncPacked(f, items[..count])
      case None => None
      case Some(body) => Cat(Some(EncTag(WT_STRING, f.tag)), Prefixed(body))
    else EncEach(f, items[..count])
  }

  function EncPresent(f: Field, v: Value): Option<bytes>
    decreases f, 3
  {
    Cat(Some(EncKey(f)), EncValue(f, v))
  }

  /** `encode_basic_field` */
  function EncSlot(f: Field, s: Slot): Option<bytes>
    decreases f, 4
  {
    match (f.htype, s)
    case (Required, Plain(v)) => EncPresent(f, v)
    case (Required, Ptr(p)) => if p.Block? && |p.items| == 1 then EncPresent(f, p.items[0]) else None
    case (Optional, Has(has, v)) => if has then EncPresent(f, v) else Some([])
    case (Optional, Plain(v)) => if IsDefaultValue(f, v) then Some([]) else EncPresent(f, v)
    case (Optional, Ptr(p)) =>
      if p.Null? then Some([]) else if |p.items| == 1 then EncPresent(f, p.items[0]) else None
    case (Repeated, Array(count, items)) => EncArray(f, count, items)
    case (Repeated, FixedArray(items)) => EncArray(f, f.arraySize, items)
    case (Repeated, PtrArray(count, p)) => EncArray(f, count, if p.Block? then p.items else [])
    case (Oneof, Union(which, v)) => if which == f.tag then EncPresent(f, v) else Some([])
    case _ => None
  }

  function EncFrom(fields: seq<Field>, m: Message, i: nat): Option<bytes>
    requires i <= |fields|
    decreases fields, |fields| - i
  {
    if i == |fields| then Some([])
    else if Addr(fields, i) !in m then None
    else Cat(EncSlot(fields[i], m[Addr(fields, i)]), EncFrom(fields, m, i + 1))
  }

  /** `pb_encode` */
  function EncMessage(fields: seq<Field>, m: Message): Option<bytes>
    decreases fields, |fields| + 1
  {
    EncFrom(fields, m, 0)
  }

  // ---------------------------------------------------------------- Omission of default values

  /** `pb_check_proto3_default_value` on the value of a static field. */
  predicate IsDefaultValue(f: Field, v: Value)
    decreases f, 0
  {
    match (f.ltype, v)
    case (Bytes, Data(s)) => s == []
    case (String, Data(s)) => s == [] || s[0] == 0
    case (FixedLengthBytes, _) => f.dataSize == 0
    case (Submessage(fields), Msg(m)) => IsDefaultFrom(fields, m, 0)
    case (_, Int(i)) => i == 0
    case _ => false
  }

  /** `behind` tells whether the memory behind a pointer, as far as it is compared, is zero. */
  predicate IsDefaultSlot(f: Field, s: Slot, behind: bool)
    decreases f, 1
  {
    match (f.htype, s)
    case (Repeated, Array(count, _)) => count == 0
    case (Repeated, PtrArray(count, _)) => count == 0
    case (Oneof, Union(which, _)) => which == 0
    case (Optional, Has(has, _)) => !has
    case (Optional, Plain(v)) => IsDefaultValue(f, v)
    case (Optional, Ptr(p)) => ZeroBytes(f, p, behind)
    case _ => false
  }

  /** A pointer in memory; the number of a block is its address. */
  function PointerBytes(p: Pointer): (s: bytes)
    ensures |s| == POINTER_SIZE
  {
    EncFixed(if p.Null? then 0 else p.id, POINTER_SIZE)
  }

  /** The catch-all comparison, which for pointers takes as many bytes as what they point to has: fewer than
      the pointer has, or also what follows it. */
  predicate ZeroBytes(f: Field, p: Pointer, behind: bool) {
    && (forall k :: 0 <= k < f.dataSize && k < POINTER_SIZE ==> PointerBytes(p)[k] == 0)
    && (f.dataSize > POINTER_SIZE ==> behind)
  }

  /** Slots do not say what memory follows them. A key that no field has stands for whether it is zero. */
  predicate ZeroBehind(m: Message, a: nat) {
    -1 - a in m
  }

  predicate IsDefaultFrom(fields: seq<Field>, m: Message, i: nat)
    requires i <= |fields|
    decreases fields, |fields| - i
  {
    i < |fields| ==>
      && Addr(fields, i) in m
      && IsDefaultSlot(fields[i], m[Addr(fields, i)], ZeroBehind(m, Addr(fields, i)))
      && IsDefaultFrom(fields, m, i + 1)
  }
}
