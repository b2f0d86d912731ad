/** The two ways in which a failing decode upsets the books of the heap.

    An entry of a static array is counted before anything else is done with it. If then its length prefix
    cannot be read, the entry is counted but not initialised, and release takes whatever pointers its
    memory held for blocks of its own (`Stale`). And one entry too many in a full array of the greatest
    length that can be counted wraps the count to zero, so that release passes the entries over (`Lost`). */
module Upsets {
  import opened Wire
  import opened WireFacts
  import opened Descriptor
  import opened DecodeSpec
  import opened Ownership
  import opened Erasure

  datatype Upset = Kept | Stale | Lost

  /** An array as long as its count can tell, of entries that may own memory. */
  ghost predicate FullLength(f: Field) {
    f.htype == Repeated && f.atype == Static && f.arraySize >= PB_SIZE_MAX && !AllStaticField(f)
  }

  ghost function UpsetValue(f: Field, s: bytes, prior: Value): Upset
    decreases |s|, 1
  {
    StringUsed(s);
    match (f.ltype, prior)
    case (Submessage(fields), Msg(m)) =>
      (match DecString(s)
       case Fail => if f.htype == Repeated && Blocks(fields, m) != multiset{} then Stale else Kept
       case Ok(payload, n) =>
         UpsetLoop(fields, payload, Start(if f.htype == Repeated then SetDefaults(fields, m) else m)))
    case _ => Kept
  }

  ghost function UpsetEntries(f: Field, wireType: nat, s: bytes, e: Entries): Upset
    decreases |s|, 2
  {
    if wireType == WT_STRING && f.ltype.Packable() then Kept
    else if e.count >= f.arraySize || e.count >= |e.items| then
      if FullLength(f) && BlocksItems(f, e.items, Used(e.count, e.items)) != multiset{} then Lost else Kept
    else UpsetValue(f, s, e.items[e.count])
  }

  ghost function UpsetSlot(f: Field, wireType: nat, s: bytes, slot: Slot): Upset
    decreases |s|, 3
  {
    match (f.htype, slot)
    case (Oneof, _) => Kept
    case (Required, Plain(v)) => UpsetValue(f, s, v)
    case (Optional, Plain(v)) => UpsetValue(f, s, v)
    case (Optional, Has(_, v)) => UpsetValue(f, s, v)
    case (Repeated, Array(count, items)) => UpsetEntries(f, wireType, s, Entries(count, items))
    case (_, Ptr(_)) => UpsetValue(f, s, NewEntry(f))
    case (_, PtrArray(count, _)) => if count >= PB_SIZE_MAX then Kept else UpsetValue(f, s, NewEntry(f))
    case _ => Kept
  }

  ghost function UpsetField(fields: seq<Field>, i: nat, wireType: nat, s: bytes, st: State): Upset
    requires i < |fields|
    decreases |s|, 4
  {
    var a := Addr(fields, i);
    if fields[i].FixedCount() || a !in st.m then Kept else UpsetSlot(fields[i], wireType, s, st.m[a])
  }

  /** How the field at which the decode loop fails, if it does, upsets the books. */
  ghost function UpsetLoop(fields: seq<Field>, s: bytes, st: State): Upset
    decreases |s|, 5
  {
    Varint32Used(s);
    if s == [] then Kept
    else match DecTag(s)
      case Fail => Kept
      case Ok(Terminator, _) => Kept
      case Ok(Key(tag, wireType), n) =>
        var rest := s[n..];
        SkipUsed(rest, wireType);
        match Find(fields, tag)
        case None =>
          if fields == [] && tag == 0 then Kept
          else
            (match Skip(rest, wireType)
             case Fail => Kept
             case Ok(_, k) => UpsetLoop(fields, rest[k..], st))
        case Some(i) =>
          (match DecField(fields, i, wireType, rest, st)
           case Fail => UpsetField(fields, i, wireType, rest, st)
           case Ok(st', k) => UpsetLoop(fields, rest[k..], st'))
  }

  // ---------------------------------------------------------------- Owning something survives erasing

  lemma {:induction false} ItemsOwnNothingIff(f: Field, items: seq<Value>, n: nat)
    requires n <= |items|
    ensures BlocksItems(f, items, n) == multiset{} <==>
            forall k :: 0 <= k < n ==> BlocksValue(f, items[k]) == multiset{}
  {
    hide BlocksValue;
    if n > 0 {
      ItemsOwnNothingIff(f, items, n - 1);
      assert BlocksValue(f, items[n - 1]) <= BlocksItems(f, items, n);
      assert BlocksItems(f, items, n - 1) <= BlocksItems(f, items, n);
    }
  }

  lemma {:induction false} ErasedItemsOwn(f: Field, items: seq<Value>, n: nat)
    requires n <= |items|
    ensures BlocksItems(f, items, n) == multiset{} <==> BlocksItems(f, ErasedItems(items), n) == multiset{}
    decreases f, 1
  {
    hide BlocksValue, BlocksItems;
    ItemsOwnNothingIff(f, items, n);
    ItemsOwnNothingIff(f, ErasedItems(items), n);
    forall k | 0 <= k < n
      ensures BlocksValue(f, items[k]) == multiset{} <==> BlocksValue(f, ErasedItems(items)[k]) == multiset{}
    {
      ErasedValueOwns(f, items[k]);
    }
  }

  lemma {:induction false} ErasedValueOwns(f: Field, v: Value)
    ensures BlocksValue(f, v) == multiset{} <==> BlocksValue(f, ErasedValue(v)) == multiset{}
    decreases f, 0
  {
    if f.ltype.Submessage? && v.Msg? {
      ErasedMessage(v.slots);
      ErasedOwns(f.ltype.fields, v.slots, 0);
    }
  }

  lemma {:induction false} ErasedSlotOwns(f: Field, s: Slot)
    ensures BlocksSlot(f, s) == multiset{} <==> BlocksSlot(f, ErasedSlot(s)) == multiset{}
    decreases f, 2
  {
    hide BlocksValue, BlocksItems, ErasedItems, ErasedValue;
    match s {
      case Plain(v) => ErasedValueOwns(f, v);
      case Has(_, v) => ErasedValueOwns(f, v);
      case Array(count, items) => ErasedItemsOwn(f, items, Used(count, items));
      case FixedArray(items) => ErasedItemsOwn(f, items, |items|);
      case Union(_, _) =>
      case Ptr(p) => BlockIsSomething(p);
      case PtrArray(count, p) => BlockIsSomething(p);
    }
  }

  lemma BlockIsSomething(p: Pointer)
    ensures forall x: multiset<nat> :: BlockOf(p) + x == multiset{} ==> p.Null?
  {
    if p.Block? {
      forall x: multiset<nat> ensures BlockOf(p) + x != multiset{} { assert p.id in BlockOf(p) + x; }
    }
  }

  lemma {:induction false} ErasedOwns(fields: seq<Field>, m: Message, i: nat)
    requires i <= |fields|
    ensures BlocksFrom(fields, m, i) == multiset{} <==> BlocksFrom(fields, Erased(m), i) == multiset{}
    decreases fields, |fields| - i
  {
    hide BlocksSlot, ErasedSlot, Addr;
    if i < |fields| {
      var a := Addr(fields, i);
      if a in m { ErasedSlotOwns(fields[i], m[a]); }
      ErasedOwns(fields, m, i + 1);
      SumIsNothing(BlocksAt(fields[i], m, a), BlocksFrom(fields, m, i + 1));
      SumIsNothing(BlocksAt(fields[i], Erased(m), a), BlocksFrom(fields, Erased(m), i + 1));
    }
  }

  lemma SumIsNothing(a: multiset<nat>, b: multiset<nat>)
    ensures a + b == multiset{} <==> a == multiset{} && b == multiset{}
  {
    assert a <= a + b && b <= a + b;
  }
}
