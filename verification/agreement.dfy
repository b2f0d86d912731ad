/** When two structs of related descriptors show the same message, and which messages survive the
    trip over the wire. */
module Agreement {
  import opened Wire
  import opened Descriptor
  import opened EncodeSpec
  import opened DecodeSpec

  // ---------------------------------------------------------------- Descriptors that evolved from one another

  /** `narrow` comes from `wide` by deleting fields, at any depth; positions and layout may differ. */
  ghost predicate Evolves(narrow: seq<Field>, wide: seq<Field>)
    decreases narrow
  {
    && (forall i :: 0 <= i < |narrow| ==>
          var j := Find(wide, narrow[i].tag);
          j.Some? && Compatible(narrow[i], wide[j.value]))
    && (forall i, j :: 0 <= i < j < |narrow| && Addr(narrow, i) == Addr(narrow, j) ==>
          Addr(wide, Partner(narrow, wide, i)) == Addr(wide, Partner(narrow, wide, j)))
  }

  /** The position of the same field in the other descriptor. */
  function Partner(narrow: seq<Field>, wide: seq<Field>, i: nat): (j: nat)
    requires i < |narrow| && Find(wide, narrow[i].tag).Some?
    ensures j < |wide|
  {
    Find(wide, narrow[i].tag).value
  }

  ghost predicate Compatible(g: Field, f: Field)
    decreases g
  {
    && g.tag == f.tag && g.htype == f.htype && g.atype == f.atype
    && (g.sizeOffset == 0 <==> f.sizeOffset == 0)
    && g.arraySize == f.arraySize
    && if g.ltype.Submessage? then f.ltype.Submessage? && Evolves(g.ltype.fields, f.ltype.fields)
       else g.ltype == f.ltype && g.dataSize == f.dataSize
  }

  // ---------------------------------------------------------------- The same observable contents

  /** The struct `m'` of `narrow` shows what the struct `m` of `wide` shows of the fields they share:
      same presence, same counts, same union member, same values where present. */
  ghost predicate Agrees(narrow: seq<Field>, m': Message, wide: seq<Field>, m: Message)
    decreases narrow, 0
  {
    forall i :: 0 <= i < |narrow| ==>
      && Find(wide, narrow[i].tag).Some?
      && AgreesAt(narrow, m', wide, m, i)
  }

  ghost predicate AgreesAt(narrow: seq<Field>, m': Message, wide: seq<Field>, m: Message, i: nat)
    requires i < |narrow| && Find(wide, narrow[i].tag).Some?
    decreases narrow[i], 2
  {
    var j := Partner(narrow, wide, i);
    && Addr(narrow, i) in m' && Addr(wide, j) in m
    && AgreeSlot(narrow[i], m'[Addr(narrow, i)], wide[j], m[Addr(wide, j)])
  }

  ghost predicate AgreeSlot(g: Field, s': Slot, f: Field, s: Slot)
    decreases g, 1
  {
    match (s', s)
    case (Plain(v'), Plain(v)) => AgreeValue(g, v', f, v)
    case (Has(has', v'), Has(has, v)) => has' == has && (has ==> AgreeValue(g, v', f, v))
    case (Array(count', items'), Array(count, items)) =>
      && count' == count && count <= |items| && count <= |items'|
      && forall k :: 0 <= k < count ==> AgreeValue(g, items'[k], f, items[k])
    case (FixedArray(items'), FixedArray(items)) =>
      && |items'| == |items|
      && forall k :: 0 <= k < |items| ==> AgreeValue(g, items'[k], f, items[k])
    case (Union(which', v'), Union(which, v)) =>
      && (which' == g.tag <==> which == f.tag)
      && (which == 0 ==> which' == 0)
      && (which == f.tag ==> AgreeValue(g, v', f, v))
    case (Ptr(p'), Ptr(p)) =>
      && (p'.Null? <==> p.Null?)
      && (p.Block? ==> |p.items| == |p'.items| == 1 && AgreeValue(g, p'.items[0], f, p.items[0]))
    case (PtrArray(count', p'), PtrArray(count, p)) =>
      && count' == count && count <= |HeapItems(p)| && count <= |HeapItems(p')|
      && forall k :: 0 <= k < count ==> AgreeItem(g, HeapItems(p')[k], f, HeapItems(p)[k])
    case _ => false
  }

  ghost predicate AgreeItem(g: Field, v': Value, f: Field, v: Value)
    decreases g, 0, 1
  {
    AgreeValue(g, Content(g, v'), f, Content(f, v))
  }

  /** Booleans agree as truth values and strings up to their terminator. */
  ghost predicate AgreeValue(g: Field, v': Value, f: Field, v: Value)
    decreases g, 0, 0
  {
    match (g.ltype, f.ltype)
    case (Submessage(n), Submessage(w)) => v'.Msg? && v.Msg? && Agrees(n, v'.slots, w, v.slots)
    case (Bool, _) => v'.Int? && v.Int? && (v'.i != 0 <==> v.i != 0)
    case (String, _) => v'.Data? && v.Data? && StringOf(g, v'.bytes) == StringOf(f, v.bytes)
    case _ => v' == v
  }

  // ---------------------------------------------------------------- Messages that can be sent

  /** Tags that fit a 32-bit key, at every depth. */
  ghost predicate SmallTags(fields: seq<Field>)
    decreases fields
  {
    forall i :: 0 <= i < |fields| ==> SmallTagsField(fields[i])
  }

  ghost predicate SmallTagsField(f: Field)
    decreases f
  {
    f.tag < 0x2000_0000 && (f.ltype.Submessage? ==> SmallTags(f.ltype.fields))
  }

  /** The field's own default, if it has one, is a value that the encoder would leave out. */
  predicate SilentDefault(f: Field) {
    f.default.None? || IsDefaultValue(f, f.default.value)
  }

  /** Nothing is left out that the receiver would fill in with something else: wherever a proto3-style
      scalar of `m` is omitted, the receiver's own default for it would be omitted too, and wherever a
      submessage is, its pointers are null. */
  ghost predicate Faithful(narrow: seq<Field>, wide: seq<Field>, m: Message)
    decreases narrow, 0
  {
    forall i :: 0 <= i < |narrow| && Find(wide, narrow[i].tag).Some? ==>
      var j := Partner(narrow, wide, i);
      Addr(wide, j) in m ==> FaithfulSlot(narrow[i], wide[j], m[Addr(wide, j)])
  }

  ghost predicate FaithfulSlot(g: Field, f: Field, s: Slot)
    decreases g, 1
  {
    match s
    case Plain(v) => FaithfulValue(g, f, v) && (f.htype == Optional && IsDefaultValue(f, v) ==> Recovered(g, f, v))
    case Has(has, v) => has ==> FaithfulValue(g, f, v)
    case Array(count, items) => forall k :: 0 <= k < count && k < |items| ==> FaithfulValue(g, f, items[k])
    case FixedArray(items) => forall k :: 0 <= k < |items| ==> FaithfulValue(g, f, items[k])
    case Union(which, v) => which == f.tag ==> FaithfulValue(g, f, v)
    case Ptr(p) => forall k :: 0 <= k < |HeapItems(p)| ==> FaithfulValue(g, f, HeapItems(p)[k])
    case PtrArray(count, p) => forall k :: 0 <= k < count && k < |HeapItems(p)| ==> FaithfulValue(g, f, HeapItems(p)[k])
  }

  /** What is left out comes back: the default of a scalar, and of a submessage that no pointer was in. */
  ghost predicate Recovered(g: Field, f: Field, v: Value)
    decreases g, 0
  {
    match (g.ltype, f.ltype, v)
    case (Submessage(n), Submessage(w), Msg(m)) => Bare(n, w, m)
    case _ => SilentDefault(g)
  }

  /** All pointers that are left out with a submessage are null. */
  ghost predicate Bare(narrow: seq<Field>, wide: seq<Field>, m: Message)
    decreases narrow, 0
  {
    forall i :: 0 <= i < |narrow| && Find(wide, narrow[i].tag).Some? ==>
      var j := Partner(narrow, wide, i);
      Addr(wide, j) in m ==> BareSlot(narrow[i], wide[j], m[Addr(wide, j)])
  }

  ghost predicate BareSlot(g: Field, f: Field, s: Slot)
    decreases g, 1
  {
    match s
    case Plain(v) => g.ltype.Submessage? ==> Recovered(g, f, v)
    case Ptr(p) => p.Null?
    case _ => true
  }

  ghost predicate FaithfulValue(g: Field, f: Field, v: Value)
    decreases g, 0
  {
    match (g.ltype, f.ltype, v)
    case (Submessage(n), Submessage(w), Msg(m)) => Faithful(n, w, m)
    case _ => true
  }

  /** Numbers within their C types, strings that leave room for the terminator, and on the heap, strings and
      bytes of a size that can be told and counts that `pb_size_t` can hold, wherever the message shows them. */
  ghost predicate Conforms(fields: seq<Field>, m: Message)
    decreases fields, 0
  {
    forall i :: 0 <= i < |fields| ==>
      Addr(fields, i) in m && ShapedSlot(fields[i], m[Addr(fields, i)]) && ConformsSlot(fields[i], m[Addr(fields, i)])
  }

  ghost predicate ConformsSlot(f: Field, s: Slot)
    decreases f, 1
  {
    match s
    case Plain(v) => ConformsValue(f, v)
    case Has(has, v) => has ==> ConformsValue(f, v)
    case Array(count, items) => forall k :: 0 <= k < count && k < |items| ==> ConformsValue(f, items[k])
    case FixedArray(items) => forall k :: 0 <= k < |items| ==> ConformsValue(f, items[k])
    case Union(which, v) => which == f.tag ==> ConformsValue(f, v)
    case Ptr(p) =>
      forall k :: 0 <= k < |HeapItems(p)| ==> ShapedValue(f, HeapItems(p)[k]) && ConformsValue(f, HeapItems(p)[k])
    case PtrArray(count, p) =>
      && count <= PB_SIZE_MAX
      && forall k :: 0 <= k < count && k < |HeapItems(p)| ==>
           ShapedValue(f, Content(f, HeapItems(p)[k])) && ConformsValue(f, Content(f, HeapItems(p)[k]))
  }

  ghost predicate ConformsValue(f: Field, v: Value)
    decreases f, 0
  {
    var half: int := SignBit(f.dataSize);
    match (f.ltype, v)
    case (Varint, Int(i)) => -half <= i < half
    case (Uvarint, Int(i)) => 0 <= i < 2 * half
    case (Svarint, Int(i)) => -half <= i < half
    case (Fixed32, Int(i)) => 0 <= i < WORD32
    case (Fixed64, Int(i)) => 0 <= i < WORD64
    case (String, Data(s)) => |StringOf(f, s)| < if f.atype == Static then f.dataSize else WORD32 - 1
    case (Bytes, Data(s)) => f.atype == Pointer ==> |s| <= PB_SIZE_MAX && |s| + BytesHeader() <= SIZE_MAX
    case (Submessage(fields), Msg(m)) => Conforms(fields, m)
    case _ => true
  }

  // ---------------------------------------------------------------- Structs at their defaults

  ghost predicate AtDefault(fields: seq<Field>, m: Message)
    decreases fields, 0
  {
    forall i :: 0 <= i < |fields| ==>
      && Addr(fields, i) in m
      && ShapedSlot(fields[i], m[Addr(fields, i)])
      && AtDefaultSlot(fields[i], m[Addr(fields, i)])
  }

  ghost predicate AtDefaultSlot(f: Field, s: Slot)
    decreases f, 1
  {
    match s
    case Plain(v) => AtDefaultValue(f, v)
    case Has(has, v) => !has && AtDefaultValue(f, v)
    case Array(count, _) => count == 0
    case FixedArray(_) => true
    case Union(which, _) => which == 0
    case Ptr(p) => p.Null?
    case PtrArray(count, p) => count == 0 && p.Null?
  }

  ghost predicate AtDefaultValue(f: Field, v: Value)
    decreases f, 0
  {
    match f.ltype
    case Submessage(fields) => v.Msg? && AtDefault(fields, v.slots)
    case _ => v == if f.default.Some? then f.default.value else ZeroValue(f)
  }

  /** `pb_message_set_to_defaults` brings a struct of the right shape to its defaults. */
  lemma {:induction false} DefaultsAtDefault(fields: seq<Field>, m: Message)
    requires WellFormed(fields) && Shaped(fields, m)
    ensures AtDefault(fields, SetDefaults(fields, m)) && Shaped(fields, SetDefaults(fields, m))
    decreases fields, |fields| + 1
  {
    DefaultsFromAtDefault(fields, m, 0);
  }

  lemma {:induction false} DefaultsFromAtDefault(fields: seq<Field>, m: Message, i: nat)
    requires WellFormed(fields) && Shaped(fields, m) && i <= |fields|
    requires forall j :: 0 <= j < i ==> AtDefaultSlot(fields[j], m[Addr(fields, j)])
    ensures AtDefault(fields, DefaultsFrom(fields, m, i)) && Shaped(fields, DefaultsFrom(fields, m, i))
    decreases fields, |fields| - i
  {
    hide ShapedSlot, AtDefaultSlot, DefaultSlot, WellFormedField, Addr;
    if i < |fields| {
      var f, a := fields[i], Addr(fields, i);
      assert WellFormedField(f);
      DefaultSlotAtDefault(f, m[a]);
      var m' := m[a := DefaultSlot(f, m[a])];
      forall j | 0 <= j < |fields|
        ensures Addr(fields, j) in m' && ShapedSlot(fields[j], m'[Addr(fields, j)])
        ensures j <= i ==> AtDefaultSlot(fields[j], m'[Addr(fields, j)])
      {
        assert WellFormedField(fields[j]);
        if j != i && Addr(fields, j) == a { SharedSlots(f, fields[j], m[a]); }
      }
      DefaultsFromAtDefault(fields, m', i + 1);
    }
  }

  /** Resetting a union serves all its members. */
  lemma SharedSlots(f: Field, g: Field, s: Slot)
    requires WellFormedField(f) && WellFormedField(g) && f.htype == g.htype == Oneof
    ensures ShapedSlot(f, s) ==> ShapedSlot(g, DefaultSlot(f, s)) && AtDefaultSlot(g, DefaultSlot(f, s))
    ensures ShapedSlot(g, ZeroSlot(f))
  {
  }

  lemma {:induction false} DefaultSlotAtDefault(f: Field, s: Slot)
    requires WellFormedField(f) && ShapedSlot(f, s)
    ensures AtDefaultSlot(f, DefaultSlot(f, s)) && ShapedSlot(f, DefaultSlot(f, s))
    decreases f, 1
  {
    match s {
      case Plain(v) => DefaultValueAtDefault(f, v);
      case Has(_, v) => DefaultValueAtDefault(f, v);
      case _ =>
    }
  }

  lemma {:induction false} DefaultValueAtDefault(f: Field, v: Value)
    requires WellFormedField(f) && ShapedValue(f, v)
    ensures AtDefaultValue(f, DefaultValue(f, v)) && ShapedValue(f, DefaultValue(f, v))
    decreases f, 0
  {
    if f.ltype.Submessage? { DefaultsAtDefault(f.ltype.fields, v.slots); }
  }

  lemma {:induction false} ZeroIsShaped(fields: seq<Field>)
    requires WellFormed(fields)
    ensures Shaped(fields, ZeroFrom(fields, 0))
    decreases fields, |fields| + 1
  {
    ZeroFromIsShaped(fields, 0);
  }

  lemma {:induction false} ZeroFromIsShaped(fields: seq<Field>, i: nat)
    requires WellFormed(fields) && i <= |fields|
    ensures forall j :: i <= j < |fields| ==>
              Addr(fields, j) in ZeroFrom(fields, i) && ShapedSlot(fields[j], ZeroFrom(fields, i)[Addr(fields, j)])
    decreases fields, |fields| - i
  {
    hide ShapedSlot, ZeroSlot, WellFormedField, Addr;
    if i < |fields| {
      var a, rest := Addr(fields, i), ZeroFrom(fields, i + 1);
      assert WellFormedField(fields[i]);
      ZeroFromIsShaped(fields, i + 1);
      ZeroSlotIsShaped(fields[i]);
      assert ZeroFrom(fields, i) == rest[a := ZeroSlot(fields[i])];
      forall j | i <= j < |fields|
        ensures Addr(fields, j) in ZeroFrom(fields, i) && ShapedSlot(fields[j], ZeroFrom(fields, i)[Addr(fields, j)])
      {
        if i < j && Addr(fields, j) == a {
          assert WellFormedField(fields[j]);
          SharedSlots(fields[i], fields[j], Union(0, Int(0)));
        }
      }
    }
  }

  lemma {:induction false} ZeroSlotIsShaped(f: Field)
    requires WellFormedField(f)
    ensures ShapedSlot(f, ZeroSlot(f))
    ensures f.atype == Static ==> ShapedValue(f, ZeroValue(f))
    decreases f
  {
    if f.ltype.Submessage? { ZeroIsShaped(f.ltype.fields); }
  }
}
