/** Which messages can be encoded: exactly those whose counts and byte arrays stay within what their
    descriptor declares, whose pointers lead to memory that was written, and whose parts have encodings of a
    size a `size_t` can hold. */
module Encodability {
  import opened Wire
  import opened WireFacts
  import opened Descriptor
  import opened EncodeSpec

  ghost predicate Fits(fields: seq<Field>, m: Message)
    decreases fields, 0
  {
    forall i :: 0 <= i < |fields| ==> Addr(fields, i) in m && FitsSlot(fields[i], m[Addr(fields, i)])
  }

  /** What is not going to be written need not fit. */
  ghost predicate FitsSlot(f: Field, s: Slot)
    decreases f, 1
  {
    match s
    case Plain(v) => (f.htype == Optional && IsDefaultValue(f, v)) || FitsValue(f, v)
    case Has(has, v) => has ==> FitsValue(f, v)
    case Array(count, items) => count <= |items| && forall k :: 0 <= k < count ==> FitsValue(f, items[k])
    case FixedArray(items) => forall k :: 0 <= k < |items| ==> FitsValue(f, items[k])
    case Union(which, v) => which == f.tag ==> FitsValue(f, v)
    case Ptr(p) => if p.Null? then f.htype != Required else |p.items| == 1 && FitsValue(f, p.items[0])
    case PtrArray(count, p) => count == 0 || (count <= |HeapItems(p)| && FitsArray(f, HeapItems(p)[..count]))
  }

  /** Entries on the heap: their number is not bounded by the descriptor. */
  ghost predicate FitsArray(f: Field, items: seq<Value>)
    decreases f, 0, 1
  {
    && (forall k :: 0 <= k < |items| ==> FitsValue(f, Content(f, items[k])))
    && (f.ltype.Packable() && EncPacked(f, items).Some? ==> |EncPacked(f, items).value| < WORD64)
  }

  ghost predicate FitsValue(f: Field, v: Value)
    decreases f, 0, 0
  {
    match (f.ltype, v)
    case (Bytes, Data(s)) => |s| < WORD64 && (f.atype == Static ==> |s| + BytesHeader() <= f.dataSize)
    case (String, Data(s)) => |StringOf(f, s)| < WORD64
    case (FixedLengthBytes, Data(s)) => |s| == f.dataSize
    case (Submessage(fields), Msg(m)) =>
      Fits(fields, m) && (EncMessage(fields, m).Some? ==> |EncMessage(fields, m).value| < WORD64)
    case _ => f.ltype.Packable()
  }

  /** What a submessage's encoding needs to be decided. */
  ghost predicate Decidable(f: Field, v: Value) {
    f.ltype.Submessage? ==> ShapedValue(f, v)
  }

  lemma {:induction false} ValueEncodes(f: Field, v: Value)
    requires WellFormedField(f) && Decidable(f, v)
    ensures EncValue(f, v).Some? <==> FitsValue(f, v)
    ensures f.ltype.Packable() ==> EncValue(f, v).Some? && |EncValue(f, v).value| <= 10
    decreases f, 0
  {
    hide EncVarint, EncFixed, EncFrom, Fits;
    if f.ltype.Submessage? {
      MessageEncodes(f.ltype.fields, v.slots);
    } else if f.ltype.Packable() {
      ScalarLength(f, IntOf(v));
    }
  }

  lemma ScalarLength(f: Field, i: int)
    requires f.ltype.Packable()
    ensures f.ltype.Bool? ==> |EncVarint(if i != 0 then 1 else 0)| <= 10
    ensures |EncVarint(ToUnsigned64(i))| <= 10 && |EncVarint(ZigZag(i))| <= 10
    ensures |EncFixed(i % WORD32, 4)| == 4 && |EncFixed(i % WORD64, 8)| == 8
  {
    hide EncVarint;
    VarintRoundTrip(if i != 0 then 1 else 0, []);
    VarintRoundTrip(ToUnsigned64(i), []);
    VarintRoundTrip(ZigZag(i), []);
  }

  ghost predicate AllFit(f: Field, items: seq<Value>) {
    forall k :: 0 <= k < |items| ==> FitsValue(f, Content(f, items[k]))
  }

  ghost predicate AllDecidable(f: Field, items: seq<Value>) {
    forall k :: 0 <= k < |items| ==> Decidable(f, Content(f, items[k]))
  }

  lemma {:induction false} PackedEncodes(f: Field, items: seq<Value>)
    requires WellFormedField(f) && f.ltype.Packable()
    ensures EncPacked(f, items).Some? && |EncPacked(f, items).value| <= 10 * |items|
    decreases f, 1, |items|
  {
    hide EncValue, FitsValue;
    if items != [] {
      ItemEncodes(f, items[0]);
      ValueEncodes(f, Content(f, items[0]));
      PackedEncodes(f, items[1..]);
    }
  }

  lemma {:induction false} EachEncodes(f: Field, items: seq<Value>)
    requires WellFormedField(f) && AllDecidable(f, items)
    ensures EncEach(f, items).Some? <==> AllFit(f, items)
    decreases f, 1, |items|
  {
    hide EncValue, FitsValue, WellFormedField, Content, Decidable;
    if items != [] {
      ItemEncodes(f, items[0]);
      ValueEncodes(f, Content(f, items[0]));
      EachEncodes(f, items[1..]);
      if AllFit(f, items[1..]) && FitsValue(f, Content(f, items[0])) {
        forall k | 0 <= k < |items| ensures FitsValue(f, Content(f, items[k])) {
          if k > 0 { assert items[1..][k - 1] == items[k]; }
        }
      }
    }
  }

  lemma {:induction false} ArrayEncodes(f: Field, count: nat, items: seq<Value>)
    requires WellFormedField(f) && (f.atype == Static ==> |items| == f.arraySize)
    requires count <= |items| ==> AllDecidable(f, items[..count])
    ensures EncArray(f, count, items).Some? <==> count == 0 || (count <= |items| && FitsArray(f, items[..count]))
    ensures f.atype == Static && 0 < count <= |items| ==> (FitsArray(f, items[..count]) <==> AllFit(f, items[..count]))
    decreases f, 2
  {
    hide EncValue, FitsValue, ShapedValue, EncPacked, EncEach, EncTag, Content, Decidable;
    if 0 < count <= |items| {
      var used := items[..count];
      if f.ltype.Packable() {
        PackedEncodes(f, used);
        ScalarsFit(f, used);
      } else {
        EachEncodes(f, used);
      }
    }
  }

  lemma ScalarsFit(f: Field, items: seq<Value>)
    requires f.ltype.Packable()
    ensures AllFit(f, items)
  {
  }

  lemma {:induction false} SlotEncodes(f: Field, s: Slot)
    requires WellFormedField(f) && ShapedSlot(f, s)
    ensures EncSlot(f, s).Some? <==> FitsSlot(f, s)
    decreases f, 3
  {
    hide EncValue, FitsValue, ShapedValue, ShapedItem, EncArray, EncKey, IsDefaultValue, Content, FitsArray;
    match s {
      case Plain(v) => ValueEncodes(f, v);
      case Has(_, v) => ValueEncodes(f, v);
      case Array(count, items) =>
        if count <= |items| { FitPrefix(f, items, count); }
        ArrayEncodes(f, count, items);
      case FixedArray(items) =>
        FitPrefix(f, items, |items|);
        ArrayEncodes(f, |items|, items);
      case Union(which, v) => if which == f.tag { ValueEncodes(f, v); }
      case Ptr(p) => if p.Block? { ItemIsDecidable(f, p.items[0]); ValueEncodes(f, p.items[0]); }
      case PtrArray(count, p) =>
        forall k | 0 <= k < count ensures Decidable(f, Content(f, HeapItems(p)[..count][k])) {
          ItemIsDecidable(f, p.items[k]);
        }
        ArrayEncodes(f, count, HeapItems(p));
    }
  }

  lemma ItemIsDecidable(f: Field, v: Value)
    requires ShapedItem(f, v)
    ensures Decidable(f, v) && Decidable(f, Content(f, v))
  {
  }

  lemma FitPrefix(f: Field, items: seq<Value>, count: nat)
    requires count <= |items| && f.atype == Static && forall k :: 0 <= k < |items| ==> ShapedValue(f, items[k])
    ensures AllDecidable(f, items[..count])
    ensures AllFit(f, items[..count]) <==> forall k :: 0 <= k < count ==> FitsValue(f, items[k])
  {
    hide ShapedValue, FitsValue;
    forall k | 0 <= k < count ensures Content(f, items[..count][k]) == items[k] {}
    if AllFit(f, items[..count]) {
      forall k | 0 <= k < count ensures FitsValue(f, items[k]) {
        assert FitsValue(f, Content(f, items[..count][k]));
      }
    }
  }

  lemma {:induction false} FromEncodes(fields: seq<Field>, m: Message, i: nat)
    requires WellFormed(fields) && Shaped(fields, m) && i <= |fields|
    ensures EncFrom(fields, m, i).Some? <==> forall j :: i <= j < |fields| ==> FitsSlot(fields[j], m[Addr(fields, j)])
    decreases fields, |fields| - i
  {
    hide EncSlot, FitsSlot, ShapedSlot, WellFormedField, Addr;
    if i < |fields| {
      assert WellFormedField(fields[i]);
      SlotEncodes(fields[i], m[Addr(fields, i)]);
      FromEncodes(fields, m, i + 1);
    }
  }

  /** `pb_encode` succeeds, given room, exactly when the message fits its descriptor. */
  lemma {:induction false} MessageEncodes(fields: seq<Field>, m: Message)
    requires WellFormed(fields) && Shaped(fields, m)
    ensures EncMessage(fields, m).Some? <==> Fits(fields, m)
    decreases fields, |fields| + 1
  {
    hide FitsSlot, ShapedSlot, Addr;
    FromEncodes(fields, m, 0);
  }
}
