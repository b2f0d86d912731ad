/** `pb_decode` (pb_decode.c) on streams and a heap. Each method is proved to refine the specification and
    to keep the books of the heap: what is live afterwards is `frame`, which the method does not touch, and
    what the decoded memory owns, but for the slip that an upset of the specification explains. */
module Decoder {
  import opened Wrappers
  import opened Bits
  import opened Wire
  import opened WireFacts
  import opened Descriptor
  import opened FieldIterator
  import opened DecodeSpec
  import opened Ownership
  import opened Erasure
  import opened Upsets
  import opened Regularity
  import opened RequiredFields
  import opened InputStream
  import opened Heap
  import opened Releaser
  import opened ScalarDecoder
  import opened Agreement
  import opened Refinement
  import opened OwnedDecoder

  // ---------------------------------------------------------------- Values

  /** What an array entry's memory holds before it is decoded is not its own yet. */
  function PriorBlocks(f: Field, prior: Value): multiset<nat> {
    if f.htype == Repeated then multiset{} else BlocksValue(f, prior)
  }

  /** `pb_dec_submessage`: new array entries are initialised, other submessages are merged into. */
  method DecodeSubmessage(s: IStream, h: Arena, f: Field, m: Message, ghost frame: multiset<nat>)
    returns (ok: bool, m': Message, ghost slip: Slip)
    requires s.Valid() && h.Valid() && WellFormedField(f) && f.ltype.Submessage? && Shaped(f.ltype.fields, m)
    requires f.htype != Repeated ==> Regular(f.ltype.fields, m)
    requires h.live == frame + PriorBlocks(f, Msg(m))
    modifies s, h
    ensures h.Valid() && Shaped(f.ltype.fields, m')
    ensures Refines(s, h, ok, DecValue(f, old(s.Rest()), Msg(Erased(m))))
    ensures ok ==> Regular(f.ltype.fields, m')
                   && DecValue(f, old(s.Rest()), Msg(Erased(m))).value == Msg(Erased(m'))
    ensures Balanced(h.live, h.wild, old(h.wild), frame + Blocks(f.ltype.fields, m'), slip)
    ensures Explained(ok, h.refusals == old(h.refusals), slip, UpsetValue(f, old(s.Rest()), Msg(Erased(m))))
    ensures AllStatic(f.ltype.fields) ==> h.refusals == old(h.refusals) && slip == NO_SLIP
    decreases s.bytesLeft, 0
  {
    hide Arena.Valid, WellFormed, WellFormedField, Shaped, Regular, AllStatic, DecString, DecMessage, DecValue, DecLoop,
      SetDefaults, BlocksFrom, Erased, UpsetLoop, UpsetValue, Balanced;
    var fields := f.ltype.fields;
    assert WellFormed(fields) by { SubmessageIsWellFormed(f); }
    m' := m;
    slip := NO_SLIP;
    ghost var rest := s.Rest();
    SubmessageSpec(f, rest, Erased(m));
    var sub;
    ok, sub := s.MakeSubstream();
    if !ok {
      slip := Slip(multiset{}, if f.htype == Repeated then Blocks(fields, m) else multiset{});
      PrefixSlip(fields, m, h.live, h.wild, frame, slip.stale);
      return;
    }
    if f.htype == Repeated {
      DefaultsReady(fields, m);
      ok, m', slip := Decode(sub, h, fields, m, frame);
    } else {
      ok, m', slip := DecodeNoinit(sub, h, fields, m, frame);
    }
    var closed := s.CloseSubstream(sub);
    if !closed { return false, m', slip; }
  }

  lemma SubmessageIsWellFormed(f: Field)
    requires WellFormedField(f) && f.ltype.Submessage?
    ensures WellFormed(f.ltype.fields)
  {
  }

  /** The specification of a submessage, from its payload on. */
  lemma SubmessageSpec(f: Field, s: bytes, m: Message)
    requires f.ltype.Submessage?
    ensures var p := DecString(s);
            var fields, base := f.ltype.fields, if f.htype == Repeated then SetDefaults(f.ltype.fields, m) else m;
            && (p.Fail? ==>
                  && DecValue(f, s, Msg(m)).Fail?
                  && UpsetValue(f, s, Msg(m)) ==
                     if f.htype == Repeated && Blocks(fields, m) != multiset{} then Stale else Kept)
            && (p.Ok? ==>
                  && (DecMessage(fields, p.value, base).None? ==> DecValue(f, s, Msg(m)).Fail?)
                  && (DecMessage(fields, p.value, base).Some? ==>
                        DecValue(f, s, Msg(m)) == Ok(Msg(DecMessage(fields, p.value, base).value), p.used))
                  && UpsetValue(f, s, Msg(m)) == UpsetLoop(fields, p.value, Start(base)))
  {
    hide DecString, DecMessage, UpsetLoop, SetDefaults, BlocksFrom;
    StringUsed(s);
  }

  /** A submessage without a readable length prefix keeps what its memory held. */
  lemma PrefixSlip(fields: seq<Field>, m: Message, live: multiset<nat>, wild: multiset<nat>, frame: multiset<nat>,
                   stale: multiset<nat>)
    requires (stale == Blocks(fields, m) && live == frame) || (stale == multiset{} && live == frame + Blocks(fields, m))
    ensures Balanced(live, wild, wild, frame + Blocks(fields, m), Slip(multiset{}, stale))
    ensures Blocks(fields, m) == multiset{} <==> Blocks(fields, Erased(m)) == multiset{}
    ensures AllStatic(fields) && Shaped(fields, m) ==> Blocks(fields, m) == multiset{}
  {
    hide BlocksFrom, Erased, Shaped, AllStatic;
    ErasedOwns(fields, m, 0);
    if AllStatic(fields) && Shaped(fields, m) { StaticOwnsNothing(fields, m, 0); }
    var b := Blocks(fields, m);
    assert frame + b + multiset{} - b == frame && b - (frame + b + multiset{}) == multiset{};
    Even(live, wild, wild, frame + b);
  }

  /** A value whose memory lies in place. */
  method DecodeValue(s: IStream, h: Arena, f: Field, prior: Value, ghost frame: multiset<nat>)
    returns (ok: bool, v: Value, ghost slip: Slip)
    requires s.Valid() && h.Valid() && WellFormedField(f) && ShapedValue(f, prior)
    requires f.htype != Repeated ==> RegularValue(f, prior)
    requires h.live == frame + PriorBlocks(f, prior)
    modifies s, h
    ensures h.Valid() && ShapedValue(f, v)
    ensures Refines(s, h, ok, DecValue(f, old(s.Rest()), ErasedValue(prior)))
    ensures ok ==> RegularValue(f, v) && DecValue(f, old(s.Rest()), ErasedValue(prior)).value == ErasedValue(v)
    ensures Balanced(h.live, h.wild, old(h.wild), frame + BlocksValue(f, v), slip)
    ensures Explained(ok, h.refusals == old(h.refusals), slip, UpsetValue(f, old(s.Rest()), ErasedValue(prior)))
    ensures AllStaticField(f) ==> h.refusals == old(h.refusals) && slip == NO_SLIP
    decreases s.bytesLeft, 1
  {
    hide Arena.Valid, Shaped, Regular, DecScalar, DecMessage, SetDefaults, BlocksFrom, Erased, UpsetLoop, Balanced;
    ghost var rest := s.Rest();
    if f.ltype.Submessage? {
      var m := prior.slots;
      ErasedMessage(m);
      var m';
      ok, m', slip := DecodeSubmessage(s, h, f, m, frame);
      v := Msg(m');
      ErasedMessage(m');
    } else {
      slip := NO_SLIP;
      ok, v := DecodeScalar(s, f, prior);
      if ok { ScalarFacts(f, rest); }
      Even(h.live, h.wild, h.wild, frame + BlocksValue(f, v));
    }
  }

  // ---------------------------------------------------------------- Static fields

  ghost predicate ShapedItems(f: Field, items: seq<Value>) {
    |items| == f.arraySize && forall k :: 0 <= k < |items| ==> ShapedValue(f, items[k])
  }

  lemma ShapedLength(f: Field, items: seq<Value>)
    requires ShapedItems(f, items)
    ensures |items| == f.arraySize && |ErasedItems(items)| == |items|
    ensures forall k :: 0 <= k < |items| ==> ShapedValue(f, items[k]) && ErasedItems(items)[k] == ErasedValue(items[k])
  {
  }

  /** Filling the entry behind those in use. */
  lemma EntryFilled(f: Field, items: seq<Value>, count: nat, v: Value)
    requires ShapedItems(f, items) && count < |items| && ShapedValue(f, v)
    ensures ShapedItems(f, items[count := v]) && Used(count + 1, items[count := v]) == count + 1
    ensures BlocksItems(f, items[count := v], count + 1) == BlocksItems(f, items, count) + BlocksValue(f, v)
    ensures ErasedItems(items[count := v]) == ErasedItems(items)[count := ErasedValue(v)]
  {
    hide ShapedValue, BlocksValue;
    EntryAdded(f, items, count, v);
    ErasedEntry(items, count, v);
  }

  /** A packed run into a static array. */
  method DecodePackedArray(s: IStream, h: Arena, f: Field, count: nat, items: seq<Value>)
    returns (ok: bool, count': nat, items': seq<Value>)
    requires s.Valid() && WellFormedField(f) && f.ltype.Packable()
    requires ShapedItems(f, items) && count <= f.arraySize
    modifies s
    ensures ShapedItems(f, items') && count' <= f.arraySize
    ensures Refines(s, h, ok, DecEntries(f, WT_STRING, old(s.Rest()), Entries(count, ErasedItems(items))))
    ensures ok ==> DecEntries(f, WT_STRING, old(s.Rest()), Entries(count, ErasedItems(items))).value
                   == Entries(count', ErasedItems(items'))
  {
    hide DecScalar, WellFormedField, DecString, ShapedValue, ErasedItems, ShapedItems, BlocksItems;
    ShapedLength(f, items);
    count', items' := count, items;
    ghost var rest := s.Rest();
    var sub;
    ok, sub := s.MakeSubstream();
    if !ok { return; }
    ghost var payload := DecString(rest).value;
    var status := true;
    while sub.bytesLeft > 0 && count' < f.arraySize
      invariant sub.Valid() && sub.pos + sub.bytesLeft == old(s.pos) + DecString(rest).used
      invariant ShapedItems(f, items') && count' <= f.arraySize == |items'|
      invariant DecPacked(f, payload, Entries(count, ErasedItems(items))) ==
                DecPacked(f, sub.Rest(), Entries(count', ErasedItems(items')))
      decreases sub.bytesLeft
      modifies sub
    {
      ghost var left := sub.Rest();
      var v;
      status, v := DecodeScalar(sub, f, items'[count']);
      if !status {
        assert DecPacked(f, payload, Entries(count, ErasedItems(items))) == None;
        break;
      }
      ScalarFacts(f, left);
      EntryFilled(f, items', count', v);
      items' := items'[count' := v];
      count' := count' + 1;
    }
    if sub.bytesLeft != 0 {
      assert DecPacked(f, payload, Entries(count, ErasedItems(items))) == None;
      return false, count', items';
    }
    var closed := s.CloseSubstream(sub);
    if !closed { return false, count', items'; }
    ok := status;
  }

  /** The repeated branch of `decode_static_field`. The count moves on before the room is checked, and before
      the entry is initialised. */
  method DecodeStaticArray(s: IStream, h: Arena, f: Field, wireType: nat, count: nat, items: seq<Value>,
                           ghost frame: multiset<nat>)
    returns (ok: bool, count': nat, items': seq<Value>, ghost slip: Slip)
    requires s.Valid() && h.Valid() && WellFormedField(f) && f.atype == Static && f.htype == Repeated
    requires ShapedItems(f, items) && count <= f.arraySize
    requires h.live == frame + BlocksItems(f, items, Used(count, items))
    modifies s, h
    ensures h.Valid() && ShapedItems(f, items')
    ensures Refines(s, h, ok, DecEntries(f, wireType, old(s.Rest()), Entries(count, ErasedItems(items))))
    ensures ok ==> count' <= f.arraySize
                   && DecEntries(f, wireType, old(s.Rest()), Entries(count, ErasedItems(items))).value
                      == Entries(count', ErasedItems(items'))
    ensures Balanced(h.live, h.wild, old(h.wild), frame + BlocksItems(f, items', Used(count', items')), slip)
    ensures Explained(ok, h.refusals == old(h.refusals), slip,
                      UpsetEntries(f, wireType, old(s.Rest()), Entries(count, ErasedItems(items))))
    ensures AllStaticField(f) ==> h.refusals == old(h.refusals) && slip == NO_SLIP
    decreases s.bytesLeft, 3
  {
    hide Arena.Valid, DecScalar, DecString, DecPacked, DecValue, ShapedValue, WellFormedField, AllStaticField,
      ErasedItems, ShapedItems, BlocksItems, BlocksValue, Balanced, UpsetValue, FullLength;
    ShapedLength(f, items);
    slip := NO_SLIP;
    if wireType == WT_STRING && f.ltype.Packable() {
      ok, count', items' := DecodePackedArray(s, h, f, count, items);
      ScalarsOwnNothing(f, items, Used(count, items));
      ScalarsOwnNothing(f, items', Used(count', items'));
      Even(h.live, h.wild, h.wild, frame + multiset{});
      return;
    }
    count', items' := Incremented(count), items;
    if count >= f.arraySize {
      slip := Overfull(f, items, count, h.live, h.wild, frame);
      return false, count', items', slip;
    }
    SizesFit(f);
    assert h.live == frame + BlocksItems(f, items, count) + multiset{};
    var v;
    ok, v, slip := DecodeValue(s, h, f, items[count], frame + BlocksItems(f, items, count));
    EntryFilled(f, items, count, v);
    items' := items[count := v];
    assert frame + BlocksItems(f, items, count) + BlocksValue(f, v) == frame + BlocksItems(f, items', count + 1);
  }

  lemma ScalarsOwnNothing(f: Field, items: seq<Value>, n: nat)
    requires f.ltype.Packable() && ShapedItems(f, items) && n <= |items|
    ensures BlocksItems(f, items, n) == multiset{}
  {
    ItemsOwnNothing(f, items, n);
  }

  /** With an entry too many the count leaves the array behind; but if it wraps, it leaves the entries
      behind. */
  lemma Overfull(f: Field, items: seq<Value>, count: nat, live: multiset<nat>, wild: multiset<nat>,
                 frame: multiset<nat>)
    returns (slip: Slip)
    requires WellFormedField(f) && f.atype == Static && f.htype == Repeated
    requires ShapedItems(f, items) && count == f.arraySize && live == frame + BlocksItems(f, items, Used(count, items))
    ensures var count' := Incremented(count);
            && Balanced(live, wild, wild, frame + BlocksItems(f, items, Used(count', items)), slip)
            && slip.stale == multiset{}
            && (slip.lost != multiset{} <==>
                  FullLength(f) && BlocksItems(f, ErasedItems(items), Used(count, items)) != multiset{})
            && (AllStaticField(f) ==> slip == NO_SLIP)
  {
    hide ShapedValue, BlocksValue, BlocksItems, Balanced;
    assert count <= PB_SIZE_MAX by { SizesFit(f); }
    var blocks := BlocksItems(f, items, |items|);
    if AllStaticField(f) {
      forall k | 0 <= k < |items| ensures BlocksValue(f, items[k]) == multiset{} {
        StaticValueOwnsNothing(f, items[k]);
      }
      ItemsOwnNothing(f, items, |items|);
    }
    ErasedItemsOwn(f, items, |items|);
    slip := if count == PB_SIZE_MAX then Slip(blocks, multiset{}) else NO_SLIP;
    Even(live, wild, wild, frame + blocks);
    ItemsOwnNothing(f, items, 0);
    LostSlip(live, wild, frame, blocks);
  }

  lemma LostSlip(live: multiset<nat>, wild: multiset<nat>, frame: multiset<nat>, blocks: multiset<nat>)
    requires live == frame + blocks
    ensures Balanced(live, wild, wild, frame + multiset{}, Slip(blocks, multiset{}))
  {
  }

  lemma SizesFit(f: Field)
    requires WellFormedField(f)
    ensures f.dataSize <= PB_SIZE_MAX <= SIZE_MAX && f.arraySize <= PB_SIZE_MAX
    ensures f.ltype.Packable() ==> f.dataSize > 0
  {
  }

  /** `decode_static_field`, fixed-count arrays aside. A oneof's old member has been released. */
  method DecodeStaticField(s: IStream, h: Arena, ghost fields: seq<Field>, f: Field, wireType: nat, slot: Slot,
                           ghost frame: multiset<nat>)
    returns (ok: bool, slot': Slot, ghost slip: Slip)
    requires s.Valid() && h.Valid() && WellFormedField(f) && f.atype == Static && !f.FixedCount()
    requires ShapedSlot(f, slot) && RegularSlot(f, slot)
    requires slot.Union? ==> slot.which == f.tag || ValidWhich(fields, slot.which)
    requires h.live == frame + BlocksSlot(f, slot)
    modifies s, h
    ensures h.Valid() && ShapedSlot(f, slot')
    ensures slot'.Union? ==> slot'.which == f.tag
    ensures Refines(s, h, ok, DecSlot(fields, f, wireType, old(s.Rest()), ErasedSlot(slot)))
    ensures ok ==> RegularSlot(f, slot')
                   && DecSlot(fields, f, wireType, old(s.Rest()), ErasedSlot(slot)).value == ErasedSlot(slot')
    ensures Balanced(h.live, h.wild, old(h.wild), frame + BlocksSlot(f, slot'), slip)
    ensures Explained(ok, h.refusals == old(h.refusals), slip, UpsetSlot(f, wireType, old(s.Rest()), ErasedSlot(slot)))
    ensures AllStaticField(f) ==> h.refusals == old(h.refusals) && slip == NO_SLIP
    decreases s.bytesLeft, 4
  {
    hide Arena.Valid, DecScalar, DecString, DecEntries, DecValue, DecPointer, WellFormedField, AllStaticField,
      ErasedItems, BlocksItems, ShapedValue, RegularValue, BlocksValue, Balanced, UpsetValue, UpsetEntries;
    ghost var rest := s.Rest();
    slot' := slot;
    match f.htype {
      case Required =>
        var v;
        ok, v, slip := DecodeValue(s, h, f, slot.v, frame);
        slot' := Plain(v);
      case Optional =>
        var v;
        ok, v, slip := DecodeValue(s, h, f, slot.v, frame);
        slot' := if f.sizeOffset != 0 then Has(true, v) else Plain(v);
      case Repeated =>
        var count, items;
        ok, count, items, slip := DecodeStaticArray(s, h, f, wireType, slot.count, slot.items, frame);
        slot' := Array(count, items);
      case Oneof =>
        UnionBaseFacts(f, slot, rest);
        var base := UnionBase(f, slot);
        var v;
        ok, v, slip := DecodeValue(s, h, f, base, frame);
        StaticOneof(f, v);
        slot' := Union(f.tag, v);
    }
  }

  /** What a oneof member is decoded over. The bytes another member left, read as the new one, are taken to
      be zero: they show only after a failure. */
  function UnionBase(f: Field, slot: Slot): Value
    requires slot.Union?
  {
    match f.ltype
    case Submessage(fields) => Msg(SetDefaults(fields, ZeroFrom(fields, 0)))
    case _ => if slot.which == f.tag then slot.v else ZeroValue(f)
  }

  lemma UnionBaseFacts(f: Field, slot: Slot, s: bytes)
    requires WellFormedField(f) && f.htype == Oneof && ShapedSlot(f, slot)
    ensures var base := UnionBase(f, slot);
            && ShapedValue(f, base) && RegularValue(f, base) && BlocksValue(f, base) == multiset{}
            && DecValue(f, s, ErasedValue(base)) == DecValue(f, s, OneofBase(f, ErasedValue(slot.v)))
  {
    hide DecScalar, DecMessage, DecString, SetDefaults, ZeroFrom, Erased, BlocksFrom, Shaped, Regular, AllStaticField;
    if f.ltype.Submessage? {
      FreshMessage(f.ltype.fields);
      ErasedMessage(SetDefaults(f.ltype.fields, ZeroFrom(f.ltype.fields, 0)));
    } else {
      ZeroSlotIsShaped(f);
      StaticOneof(f, UnionBase(f, slot));
    }
  }

  lemma StaticOneof(f: Field, v: Value)
    requires WellFormedField(f) && f.htype == Oneof && ShapedValue(f, v)
    ensures BlocksValue(f, v) == multiset{} && AllStaticField(f)
  {
    StaticValueOwnsNothing(f, v);
  }

  // ---------------------------------------------------------------- Pointer fields

  /** `initialize_pointer_field` */
  method InitialiseEntry(f: Field) returns (v: Value)
    ensures v == NewEntry(f)
  {
    match f.ltype {
      case String => v := Ref(Null);
      case Bytes => v := Ref(Null);
      case Submessage(fields) =>
        var m := SetMessageToDefaults(fields, ZeroFrom(fields, 0));
        v := Msg(m);
      case _ => v := Garbage;
    }
  }

  /** An entry of the heap. */
  ghost predicate HeapEntry(f: Field, v: Value) {
    if f.ltype.Submessage? then ShapedValue(f, v)
    else if f.ltype.String? || f.ltype.Bytes? then v.Ref? && Simple(v.p)
    else !v.Ref? && !v.Msg?
  }

  lemma ErasedSingle(p: Pointer)
    requires Simple(p)
    ensures p.Block? ==> ErasedPointer(p) == Single(p.items[0]) && ErasedValue(Ref(p)) == Ref(Single(p.items[0]))
  {
  }

  /** A submessage decoded over its defaults. */
  method DecodeNewMessage(s: IStream, h: Arena, f: Field, prior: Value, ghost frame: multiset<nat>)
    returns (ok: bool, v: Value, ghost slip: Slip)
    requires s.Valid() && h.Valid() && WellFormedField(f) && f.ltype.Submessage? && prior == NewEntry(f)
    requires h.live == frame
    modifies s, h
    ensures h.Valid() && ShapedValue(f, v)
    ensures Refines(s, h, ok, DecValue(f, old(s.Rest()), prior))
    ensures ok ==> DecValue(f, old(s.Rest()), prior).value == ErasedValue(v)
    ensures Balanced(h.live, h.wild, old(h.wild), frame + BlocksValue(f, v), slip)
    ensures Explained(ok, h.refusals == old(h.refusals), slip, UpsetValue(f, old(s.Rest()), prior))
    decreases s.bytesLeft, 1
  {
    hide Arena.Valid, DecScalar, DecString, DecMessage, SetDefaults, ZeroFrom, Erased, BlocksFrom, Shaped, Regular,
      WellFormed, Balanced, UpsetLoop;
    FreshMessage(f.ltype.fields);
    ErasedMessage(prior.slots);
    assert h.live == frame + multiset{};
    var m;
    ok, m, slip := DecodeSubmessage(s, h, f, prior.slots, frame);
    v := Msg(m);
    ErasedMessage(m);
  }

  method DecodeOwnedEntry(s: IStream, h: Arena, f: Field, ghost frame: multiset<nat>) returns (ok: bool, v: Value)
    requires s.Valid() && h.Valid() && (f.ltype.String? || f.ltype.Bytes?)
    requires h.live == frame
    modifies s, h`live, h`next, h`refusals
    ensures h.Valid() && HeapEntry(f, v) && h.live == frame + BlocksValue(f, v)
    ensures Refines(s, h, ok, DecEntry(f, old(s.Rest())))
    ensures ok ==> DecEntry(f, old(s.Rest())).value == ErasedValue(v)
  {
    hide Arena.Valid, DecOwned;
    var p;
    ok, p := DecodeOwned(s, h, f, Null, frame);
    ErasedSingle(p);
    v := Ref(p);
  }

  method DecodeScalarEntry(s: IStream, h: Arena, f: Field, prior: Value) returns (ok: bool, v: Value)
    requires s.Valid() && WellFormedField(f) && !f.ltype.Submessage? && !f.ltype.String? && !f.ltype.Bytes?
    requires prior == Garbage
    modifies s
    ensures HeapEntry(f, v) && BlocksValue(f, v) == multiset{}
    ensures Refines(s, h, ok, DecEntry(f, old(s.Rest())))
    ensures ok ==> DecEntry(f, old(s.Rest())).value == ErasedValue(v)
  {
    hide DecScalar, WellFormedField;
    ghost var rest := s.Rest();
    ok, v := DecodeScalar(s, f, prior);
    if ok { ScalarFacts(f, rest); }
    PlainValue(f, v);
  }

  /** Initialises an entry of the heap and decodes into it. */
  method DecodeEntry(s: IStream, h: Arena, f: Field, ghost frame: multiset<nat>)
    returns (ok: bool, v: Value, ghost slip: Slip)
    requires s.Valid() && h.Valid() && WellFormedField(f)
    requires h.live == frame
    modifies s, h
    ensures h.Valid() && HeapEntry(f, v)
    ensures Refines(s, h, ok, DecEntry(f, old(s.Rest())))
    ensures ok ==> DecEntry(f, old(s.Rest())).value == ErasedValue(v)
    ensures Balanced(h.live, h.wild, old(h.wild), frame + BlocksValue(f, v), slip)
    ensures Explained(ok, h.refusals == old(h.refusals), slip, UpsetValue(f, old(s.Rest()), NewEntry(f)))
    ensures !f.ltype.Submessage? ==> slip == NO_SLIP
    decreases s.bytesLeft, 2
  {
    hide Arena.Valid, DecScalar, DecString, DecOwned, DecMessage, SetDefaults, ZeroFrom, Erased, BlocksFrom,
      Shaped, Regular, WellFormed, ErasedItems, AllStaticField, BytesHeader, Balanced, UpsetLoop;
    ghost var rest := s.Rest();
    slip := NO_SLIP;
    v := InitialiseEntry(f);
    if f.ltype.Submessage? {
      ok, v, slip := DecodeNewMessage(s, h, f, v, frame);
      return;
    }
    if f.ltype.String? || f.ltype.Bytes? {
      ok, v := DecodeOwnedEntry(s, h, f, frame);
    } else {
      ok, v := DecodeScalarEntry(s, h, f, v);
    }
    Even(h.live, h.wild, h.wild, frame + BlocksValue(f, v));
  }

  /** An entry of a block of one. */
  lemma SingleEntry(f: Field, id: nat, v: Value)
    requires f.atype == Pointer && f.htype != Repeated && f.htype != Oneof
    requires if f.ltype.String? || f.ltype.Bytes? then !v.Ref? && !v.Msg? else HeapEntry(f, v)
    ensures var p := Block(id, [v]);
            && ShapedSlot(f, Ptr(p)) && BlocksSlot(f, Ptr(p)) == BlockOf(p) + BlocksValue(f, v)
            && ErasedSlot(Ptr(p)) == Ptr(Single(ErasedValue(v)))
  {
    hide BlocksValue;
    assert ErasedItems([v]) == [ErasedValue(v)];
    assert ShapedItem(f, v);
    assert ShapedSlot(f, Ptr(Block(id, [v])));
  }

  lemma OwnedSingle(f: Field, p: Pointer)
    requires f.atype == Pointer && f.htype != Repeated && f.htype != Oneof
    requires (f.ltype.String? || f.ltype.Bytes?) && Simple(p)
    ensures ShapedSlot(f, Ptr(p)) && BlocksSlot(f, Ptr(p)) == BlockOf(p)
    ensures p.Block? ==> ErasedSlot(Ptr(p)) == Ptr(Single(p.items[0]))
  {
    NullPointer(f);
    if p.Block? {
      assert p.items == [p.items[0]];
      SingleEntry(f, p.id, p.items[0]);
      PlainValue(f, p.items[0]);
    }
  }

  /** The contents of a block of one. */
  lemma SingleContents(f: Field, p: Pointer)
    requires f.atype == Pointer && f.htype != Repeated && ShapedSlot(f, Ptr(p))
    ensures !f.ltype.Submessage? ==> Simple(p) && BlocksSlot(f, Ptr(p)) == BlockOf(p)
    ensures ErasedSlot(Ptr(p)).Ptr?
  {
    if p.Block? { assert ShapedItem(f, p.items[0]); }
  }

  /** A submessage that came before is released, not merged into. */
  method ReleaseOld(h: Arena, f: Field, p: Pointer, ghost frame: multiset<nat>) returns (p': Pointer)
    requires h.Valid() && WellFormedField(f)
    requires f.atype == Pointer && f.htype != Repeated && f.htype != Oneof && ShapedSlot(f, Ptr(p))
    requires h.live == frame + BlocksSlot(f, Ptr(p))
    modifies h`live, h`wild
    ensures h.Valid() && h.live == frame + BlockOf(p') && h.wild == old(h.wild)
    ensures Simple(p') && ShapedSlot(f, Ptr(p')) && BlocksSlot(f, Ptr(p')) == BlockOf(p')
  {
    hide WellFormedField, BlocksValue, BlocksSlot, BlockOf, ShapedSlot, HeapEntry;
    p' := p;
    SingleContents(f, p);
    NullPointer(f);
    if f.ltype.Submessage? && p.Block? {
      OwnedFreed(frame, BlocksSlot(f, Ptr(p)));
      ReleasePointer(h, f, p);
      p' := Null;
    }
  }

  /** The required and optional branch of `decode_pointer_field`. */
  method DecodeSinglePointer(s: IStream, h: Arena, f: Field, ghost wireType: nat, p: Pointer,
                             ghost frame: multiset<nat>)
    returns (ok: bool, p': Pointer, ghost slip: Slip)
    requires s.Valid() && h.Valid() && WellFormedField(f)
    requires f.atype == Pointer && f.htype != Repeated && f.htype != Oneof && ShapedSlot(f, Ptr(p))
    requires h.live == frame + BlocksSlot(f, Ptr(p))
    modifies s, h
    ensures h.Valid() && ShapedSlot(f, Ptr(p'))
    ensures Refines(s, h, ok, DecPointer(f, wireType, old(s.Rest()), ErasedSlot(Ptr(p))))
    ensures ok ==> DecPointer(f, wireType, old(s.Rest()), ErasedSlot(Ptr(p))).value == ErasedSlot(Ptr(p'))
    ensures Balanced(h.live, h.wild, old(h.wild), frame + BlocksSlot(f, Ptr(p')), slip)
    ensures Explained(ok, h.refusals == old(h.refusals), slip, UpsetValue(f, old(s.Rest()), NewEntry(f)))
    decreases s.bytesLeft, 3
  {
    hide Arena.Valid, DecOwned, DecEntry, DecString, WellFormedField, BlocksValue, BlocksSlot, BlockOf, ShapedSlot,
      HeapEntry, ErasedSlot, DecGrow, ErasedValue, PB_SIZE_MAX, SIZE_MAX, Balanced, UpsetLoop, NewEntry;
    SingleContents(f, p);
    slip := NO_SLIP;
    p' := ReleaseOld(h, f, p, frame);
    if f.ltype.String? || f.ltype.Bytes? {
      ok, p' := DecodeOwned(s, h, f, p', frame);
      OwnedSingle(f, p');
      Even(h.live, h.wild, h.wild, frame + BlocksSlot(f, Ptr(p')));
      return;
    }
    SizesFit(f);
    ok, p' := AllocateField(h, p', f.dataSize, 1, frame);
    if !ok {
      Even(h.live, h.wild, h.wild, frame + BlocksSlot(f, Ptr(p')));
      return;
    }
    var v;
    ok, v, slip := DecodeEntry(s, h, f, frame + BlockOf(p'));
    SameBlock(p'.id, p'.items, [v]);
    ghost var blocks := frame + BlockOf(p') + BlocksValue(f, v);
    p' := Block(p'.id, [v]);
    SingleEntry(f, p'.id, v);
    assert blocks == frame + BlocksSlot(f, Ptr(p'));
  }

  lemma NullPointer(f: Field)
    requires f.atype == Pointer && f.htype != Oneof && f.htype != Repeated
    ensures ShapedSlot(f, Ptr(Null)) && BlocksSlot(f, Ptr(Null)) == BlockOf(Null) == multiset{}
  {
  }

  /** What the entries in use of a heap array own. */
  function EntryBlocks(f: Field, count: nat, p: Pointer): multiset<nat> {
    if p.Block? && count <= |p.items| then BlocksItems(f, p.items, count) else multiset{}
  }

  function ErasedInUse(count: nat, p: Pointer): seq<Value> {
    InUse(count, ErasedArray(count, p))
  }

  ghost predicate ShapedArray(f: Field, count: nat, p: Pointer) {
    ShapedSlot(f, PtrArray(count, p))
  }

  lemma HeapArray(f: Field, count: nat, p: Pointer)
    requires f.atype == Pointer && f.htype == Repeated && ShapedArray(f, count, p)
    ensures BlocksSlot(f, PtrArray(count, p)) == BlockOf(p) + EntryBlocks(f, count, p)
    ensures ErasedSlot(PtrArray(count, p)) == PtrArray(count, ErasedArray(count, p))
    ensures if p.Null? then count == 0
            else count <= |p.items| && ErasedArray(count, p) == Block(0, ErasedInUse(count, p))
    ensures |ErasedInUse(count, p)| == count
  {
  }

  /** A block that moved or grew. */
  lemma ArrayMoved(f: Field, count: nat, p: Pointer, r: Pointer)
    requires f.atype == Pointer && f.htype == Repeated && ShapedArray(f, count, p)
    requires r.Block? && count <= |r.items|
    requires p.Block? ==> forall k :: 0 <= k < count && k < |p.items| ==> r.items[k] == p.items[k]
    ensures ShapedArray(f, count, r) && EntryBlocks(f, count, r) == EntryBlocks(f, count, p)
    ensures ErasedInUse(count, r) == ErasedInUse(count, p)
  {
    hide ShapedItem, BlocksValue;
    if p.Block? {
      assert p.items[..count] == r.items[..count];
      ItemsPrefix(f, r.items, p.items, count);
      assert ErasedItems(r.items)[..count] == ErasedItems(p.items)[..count];
    }
  }

  /** Another entry in use. */
  lemma ArrayGrown(f: Field, count: nat, p: Pointer, v: Value)
    requires f.atype == Pointer && f.htype == Repeated && ShapedArray(f, count, p) && HeapEntry(f, v)
    requires p.Block? && count < |p.items|
    ensures var r := Block(p.id, p.items[count := v]);
            && ShapedArray(f, count + 1, r) && BlockOf(r) == BlockOf(p)
            && EntryBlocks(f, count + 1, r) == EntryBlocks(f, count, p) + BlocksValue(f, v)
            && ErasedInUse(count + 1, r) == ErasedInUse(count, p) + [ErasedValue(v)]
  {
    hide ShapedValue, BlocksValue;
    EntryAdded(f, p.items, count, v);
    ErasedAppend(p.items, count, v);
    assert ShapedItem(f, v);
  }

  /** One entry appended to a heap array. */
  method DecodeArrayEntry(s: IStream, h: Arena, f: Field, ghost wireType: nat, count: nat, p: Pointer,
                          ghost frame: multiset<nat>)
    returns (ok: bool, count': nat, p': Pointer, ghost slip: Slip)
    requires s.Valid() && h.Valid() && WellFormedField(f) && f.atype == Pointer && f.htype == Repeated
    requires ShapedArray(f, count, p) && count <= PB_SIZE_MAX
    requires wireType == WT_STRING ==> !f.ltype.Packable()
    requires h.live == frame + BlockOf(p) + EntryBlocks(f, count, p)
    modifies s, h
    ensures h.Valid() && ShapedArray(f, count', p')
    ensures Refines(s, h, ok, DecPointer(f, wireType, old(s.Rest()), ErasedSlot(PtrArray(count, p))))
    ensures ok ==> count' <= PB_SIZE_MAX
                   && DecPointer(f, wireType, old(s.Rest()), ErasedSlot(PtrArray(count, p))).value
                      == ErasedSlot(PtrArray(count', p'))
    ensures Balanced(h.live, h.wild, old(h.wild), frame + BlockOf(p') + EntryBlocks(f, count', p'), slip)
    ensures Explained(ok, h.refusals == old(h.refusals), slip,
                      if count == PB_SIZE_MAX then Kept else UpsetValue(f, old(s.Rest()), NewEntry(f)))
    decreases s.bytesLeft, 3
  {
    hide Arena.Valid, DecOwned, DecValue, DecString, DecEntry, WellFormedField, BlocksValue, BlocksItems, BlockOf,
      ShapedArray, HeapEntry, ErasedSlot, ErasedInUse, EntryBlocks, DecGrow, Balanced, UpsetValue, NewEntry;
    count', p', slip := count, p, NO_SLIP;
    Even(h.live, h.wild, h.wild, frame + BlockOf(p) + EntryBlocks(f, count, p));
    HeapArray(f, count, p);
    SizesFit(f);
    if count == PB_SIZE_MAX { return false, count', p', slip; }
    ghost var entries := EntryBlocks(f, count, p);
    assert h.live == frame + entries + BlockOf(p);
    ok, p' := AllocateField(h, p, f.dataSize, count + 1, frame + entries);
    assert h.live == frame + BlockOf(p') + entries;
    Even(h.live, h.wild, h.wild, frame + BlockOf(p') + entries);
    if !ok { return; }
    ArrayMoved(f, count, p, p');
    count' := count + 1;
    var v;
    ok, v, slip := DecodeEntry(s, h, f, frame + BlockOf(p') + entries);
    ArrayGrown(f, count, p', v);
    assert frame + BlockOf(p') + entries + BlocksValue(f, v) == frame + BlockOf(p') + (entries + BlocksValue(f, v));
    p' := Block(p'.id, p'.items[count := v]);
    HeapArray(f, count', p');
  }

  /** The least number of entries that take up `bytesLeft` bytes. */
  predicate Covers(n: nat, dataSize: nat, bytesLeft: nat) {
    (n - 1) * dataSize < bytesLeft <= n * dataSize
  }

  /** How far a packed run grows its array: by what the rest of the run would need if each entry took as
      many bytes as it does in memory, unless that is more than can be counted. */
  method NextAllocation(capacity: nat, bytesLeft: nat, dataSize: nat) returns (size: nat)
    requires capacity < PB_SIZE_MAX && bytesLeft > 0 && dataSize > 0
    ensures capacity < size <= PB_SIZE_MAX
    ensures exists n: nat ::
              && Covers(n, dataSize, bytesLeft)
              && size == if n < PB_SIZE_MAX - capacity then capacity + n else capacity + 1
  {
    var remain := (bytesLeft - 1) / dataSize + 1;
    size := if remain < PB_SIZE_MAX - capacity then capacity + remain else capacity + 1;
    QuotientBound(bytesLeft - 1, dataSize, remain);
    QuotientBound(bytesLeft - 1, dataSize, remain - 1);
    assert Covers(remain, dataSize, bytesLeft);
  }

  /** Room for an entry behind the ones in use. */
  method MakeRoom(h: Arena, f: Field, count: nat, p: Pointer, capacity: nat, bytesLeft: nat, ghost frame: multiset<nat>)
    returns (ok: bool, p': Pointer, capacity': nat)
    requires h.Valid() && WellFormedField(f) && f.atype == Pointer && f.htype == Repeated
    requires ShapedArray(f, count, p) && f.ltype.Packable() && bytesLeft > 0
    requires count <= capacity <= PB_SIZE_MAX && count < PB_SIZE_MAX
    requires if p.Block? then capacity <= |p.items| else capacity == 0
    requires h.live == frame + BlockOf(p)
    modifies h`live, h`next, h`refusals
    ensures h.Valid() && ShapedArray(f, count, p') && h.live == frame + BlockOf(p')
    ensures EntryBlocks(f, count, p') == EntryBlocks(f, count, p) && ErasedInUse(count, p') == ErasedInUse(count, p)
    ensures count <= capacity' <= PB_SIZE_MAX && (ok ==> p'.Block? && count < capacity' <= |p'.items|)
    ensures ok <==> h.refusals == old(h.refusals)
  {
    hide Arena.Valid, WellFormedField, BlocksItems, BlockOf, ShapedArray, ErasedInUse, EntryBlocks;
    ok, p', capacity' := true, p, capacity;
    SizesFit(f);
    HeapArray(f, count, p);
    if count + 1 > capacity {
      capacity' := NextAllocation(capacity, bytesLeft, f.dataSize);
      ok, p' := AllocateField(h, p, f.dataSize, capacity', frame);
      if ok { ArrayMoved(f, count, p, p'); }
    }
  }

  /** One turn of the packed loop: makes room, initialises and decodes an entry. */
  method DecodeNextEntry(s: IStream, h: Arena, f: Field, count: nat, p: Pointer, capacity: nat,
                         ghost frame: multiset<nat>)
    returns (ok: bool, count': nat, p': Pointer, capacity': nat)
    requires s.Valid() && h.Valid() && WellFormedField(f) && f.atype == Pointer && f.htype == Repeated
    requires ShapedArray(f, count, p) && f.ltype.Packable() && s.bytesLeft > 0
    requires count <= capacity <= PB_SIZE_MAX && if p.Block? then capacity <= |p.items| else capacity == 0
    requires h.live == frame + BlockOf(p)
    modifies s, h
    ensures h.Valid() && ShapedArray(f, count', p') && h.live == frame + BlockOf(p') && h.wild == old(h.wild)
    ensures EntryBlocks(f, count', p') == EntryBlocks(f, count, p)
    ensures count' <= capacity' <= PB_SIZE_MAX && (ok ==> p'.Block? && capacity' <= |p'.items|)
    ensures Within(s)
    ensures ok ==> s.SameEnd() && s.bytesLeft < old(s.bytesLeft) && h.refusals == old(h.refusals)
    ensures var spec := DecGrow(f, old(s.Rest()), ErasedInUse(count, p));
            && (ok ==> spec == DecGrow(f, s.Rest(), ErasedInUse(count', p')))
            && (!ok && h.refusals == old(h.refusals) ==> spec.None?)
    decreases s.bytesLeft, 3
  {
    hide Arena.Valid, DecOwned, DecEntry, WellFormedField, BlocksValue, BlocksItems, BlockOf, ShapedArray,
      HeapEntry, ErasedInUse, EntryBlocks, Balanced, UpsetValue;
    count' := count;
    assert |ErasedInUse(count, p)| == count by { HeapArray(f, count, p); }
    if count == PB_SIZE_MAX { return false, count, p, capacity; }
    ok, p', capacity' := MakeRoom(h, f, count, p, capacity, s.bytesLeft, frame);
    if !ok { return; }
    var v;
    ghost var slip;
    ok, v, slip := DecodeEntry(s, h, f, frame + BlockOf(p'));
    ScalarEntry(f, v);
    Even(h.live, h.wild, old(h.wild), frame + BlockOf(p') + BlocksValue(f, v));
    ghost var before := p';
    if ok { ArrayGrown(f, count, before, v); }
    p' := Block(p'.id, p'.items[count := v]);
    if ok {
      count' := count + 1;
    } else {
      SameBlock(p'.id, before.items, p'.items);
      ArrayMoved(f, count, before, p');
    }
  }

  /** A packed run appended to a heap array, which grows as the run is read. */
  method DecodeGrowingArray(s: IStream, h: Arena, f: Field, count: nat, p: Pointer, ghost frame: multiset<nat>)
    returns (ok: bool, count': nat, p': Pointer)
    requires s.Valid() && h.Valid() && WellFormedField(f) && f.atype == Pointer && f.htype == Repeated
    requires ShapedArray(f, count, p) && count <= PB_SIZE_MAX && f.ltype.Packable()
    requires h.live == frame + BlockOf(p) + EntryBlocks(f, count, p)
    modifies s, h
    ensures h.Valid() && ShapedArray(f, count', p')
    ensures h.live == frame + BlockOf(p') + EntryBlocks(f, count', p') && h.wild == old(h.wild)
    ensures Refines(s, h, ok, DecPointer(f, WT_STRING, old(s.Rest()), ErasedSlot(PtrArray(count, p))))
    ensures ok ==> count' <= PB_SIZE_MAX
                   && DecPointer(f, WT_STRING, old(s.Rest()), ErasedSlot(PtrArray(count, p))).value
                      == ErasedSlot(PtrArray(count', p'))
    decreases s.bytesLeft, 3
  {
    hide Arena.Valid, DecOwned, DecValue, DecString, DecEntry, WellFormedField, BlocksValue, BlocksItems, BlockOf,
      ShapedArray, HeapEntry, ErasedSlot, ErasedInUse, EntryBlocks, DecGrow, PB_SIZE_MAX;
    count', p' := count, p;
    HeapArray(f, count, p);
    ghost var rest := s.Rest();
    var sub;
    ok, sub := s.MakeSubstream();
    if !ok { return; }
    ghost var payload, entries := sub.Rest(), EntryBlocks(f, count, p);
    var status, capacity := true, count;
    while sub.bytesLeft > 0 && status
      invariant sub.Valid() && sub.pos + sub.bytesLeft <= old(s.pos) + DecString(rest).used
      invariant status ==> sub.pos + sub.bytesLeft == old(s.pos) + DecString(rest).used
      invariant h.Valid() && (status ==> h.refusals == old(h.refusals)) && h.wild == old(h.wild)
      invariant ShapedArray(f, count', p') && EntryBlocks(f, count', p') == entries
      invariant h.live == frame + entries + BlockOf(p')
      invariant count' <= capacity <= PB_SIZE_MAX
      invariant status ==> if p'.Block? then capacity <= |p'.items| else capacity == 0
      invariant status && sub.bytesLeft == |payload| ==> count' == count && p' == p
      invariant status && sub.bytesLeft < |payload| ==> p'.Block?
      invariant status ==>
                  DecGrow(f, payload, ErasedInUse(count, p)) == DecGrow(f, sub.Rest(), ErasedInUse(count', p'))
      invariant !status ==> payload != []
      invariant !status && h.refusals == old(h.refusals) ==> DecGrow(f, payload, ErasedInUse(count, p)) == None
      decreases status, sub.bytesLeft
      modifies sub, h
    {
      HeapArray(f, count', p');
      status, count', p', capacity := DecodeNextEntry(sub, h, f, count', p', capacity, frame + entries);
    }
    HeapArray(f, count', p');
    GrowEnds(f, ErasedInUse(count', p'));
    var closed := s.CloseSubstream(sub);
    if !closed { return false, count', p'; }
    ok := status;
  }

  lemma GrowEnds(f: Field, items: seq<Value>)
    ensures DecGrow(f, [], items) == Some(items)
  {
  }

  lemma ScalarEntry(f: Field, v: Value)
    requires f.ltype.Packable() && HeapEntry(f, v)
    ensures BlocksValue(f, v) == multiset{} && !f.ltype.Submessage?
  {
  }

  /** `decode_pointer_field`; the members of a oneof hold no pointers. */
  method DecodePointerField(s: IStream, h: Arena, ghost fields: seq<Field>, f: Field, wireType: nat, slot: Slot,
                            ghost frame: multiset<nat>)
    returns (ok: bool, slot': Slot, ghost slip: Slip)
    requires s.Valid() && h.Valid() && WellFormedField(f) && f.atype == Pointer
    requires ShapedSlot(f, slot) && RegularSlot(f, slot)
    requires h.live == frame + BlocksSlot(f, slot)
    modifies s, h
    ensures h.Valid() && ShapedSlot(f, slot') && !slot'.Union?
    ensures Refines(s, h, ok, DecSlot(fields, f, wireType, old(s.Rest()), ErasedSlot(slot)))
    ensures ok ==> RegularSlot(f, slot')
                   && DecSlot(fields, f, wireType, old(s.Rest()), ErasedSlot(slot)).value == ErasedSlot(slot')
    ensures Balanced(h.live, h.wild, old(h.wild), frame + BlocksSlot(f, slot'), slip)
    ensures Explained(ok, h.refusals == old(h.refusals), slip, UpsetSlot(f, wireType, old(s.Rest()), ErasedSlot(slot)))
    decreases s.bytesLeft, 4
  {
    hide Arena.Valid, DecPointer, DecEntries, DecValue, ShapedItem, BlocksValue, BlocksItems,
      ErasedItems, ErasedArray, ErasedPointer, EntryBlocks, BlockOf, Balanced, UpsetValue, NewEntry;
    NoPointerInOneof(f);
    match slot {
      case Ptr(p) =>
        var p';
        ok, p', slip := DecodeSinglePointer(s, h, f, wireType, p, frame);
        slot' := Ptr(p');
      case PtrArray(count, p) =>
        HeapArray(f, count, p);
        var count', p';
        assert h.live == frame + BlockOf(p) + EntryBlocks(f, count, p);
        if wireType == WT_STRING && f.ltype.Packable() {
          ok, count', p' := DecodeGrowingArray(s, h, f, count, p, frame);
          slip := NO_SLIP;
          Even(h.live, h.wild, h.wild, frame + BlockOf(p') + EntryBlocks(f, count', p'));
          PackableKept(f, old(s.Rest()));
        } else {
          ok, count', p', slip := DecodeArrayEntry(s, h, f, wireType, count, p, frame);
        }
        HeapArray(f, count', p');
        assert frame + BlockOf(p') + EntryBlocks(f, count', p') == frame + (BlockOf(p') + EntryBlocks(f, count', p'));
        slot' := PtrArray(count', p');
    }
  }

  lemma PackableKept(f: Field, s: bytes)
    requires f.ltype.Packable()
    ensures UpsetValue(f, s, NewEntry(f)) == Kept
  {
  }

  lemma NoPointerInOneof(f: Field)
    requires WellFormedField(f) && f.atype == Pointer
    ensures f.htype != Oneof
  {
  }

  // ---------------------------------------------------------------- Fields

  lemma SlotFacts(fields: seq<Field>, m: Message, i: nat)
    requires WellFormed(fields) && Shaped(fields, m) && i < |fields|
    ensures var f, a := fields[i], Addr(fields, i); a in m && WellFormedField(f) && ShapedSlot(f, m[a])
  {
  }

  lemma Cancelled(a: multiset<nat>, x: multiset<nat>, b: multiset<nat>)
    requires a + x == b + x
    ensures a == b
  {
    assert a == a + x - x && b == b + x - x;
  }

  /** Releasing the member a regular union holds. */
  lemma OldMember(fields: seq<Field>, m: Message, p: nat, i: nat)
    requires WellFormed(fields) && Shaped(fields, m) && Regular(fields, m)
    requires p < |fields| && fields[p].htype == Oneof && i < |fields| && i != p
    requires m[Addr(fields, p)].Union? && Find(fields, m[Addr(fields, p)].which) == Some(i)
    ensures var f, a := fields[i], Addr(fields, p);
            && Addr(fields, i) == a && WellFormedField(f) && ShapedSlot(f, m[a]) && BlocksSlot(f, m[a]) == multiset{}
            && var slot := ReleasedSlot(f, m[a]);
               && slot.Union? && slot.which == m[a].which
               && Shaped(fields, m[a := slot]) && Regular(fields, m[a := slot])
               && Blocks(fields, m[a := slot]) == Blocks(fields, m)
  {
    hide RegularSlot, ShapedSlot, Addr, WellFormedField, BlocksSlot, ReleasedSlot, BlocksFrom;
    var f, a := fields[i], Addr(fields, p);
    assert OwnMember(fields, m, p);
    assert WellFormedField(f) && f.htype == Oneof;
    var slot := ReleasedSlot(f, m[a]);
    ReleasedSlotOwnsNothing(f, m[a]);
    UnionReleased(f, m[a]);
    SlotWritten(fields, m, i, slot);
    RegularWritten(fields, m, i, slot);
    assert Blocks(fields, m[a := slot]) == Blocks(fields, m[a := slot]) + multiset{} == Blocks(fields, m) + multiset{};
  }

  lemma UnionReleased(f: Field, s: Slot)
    requires f.htype == Oneof && s.Union? && ShapedSlot(f, s)
    ensures BlocksSlot(f, s) == BlocksSlot(f, ReleasedSlot(f, s)) == multiset{}
    ensures ReleasedSlot(f, s).Union? && ReleasedSlot(f, s).which == s.which && RegularSlot(f, ReleasedSlot(f, s))
  {
  }

  /** `pb_release_union_field`; the members of a oneof own nothing that would be freed. */
  method ReleaseUnionField(h: Arena, it: FieldIter, m: Message) returns (ok: bool, m': Message)
    requires h.Valid() && it.Valid() && it.base == 0 && it.fields != [] && it.fields[it.pos].htype == Oneof
    requires WellFormed(it.fields) && Shaped(it.fields, m) && Regular(it.fields, m)
    modifies h`live, h`wild, it
    ensures h.Valid() && it.Valid() && it.pos == old(it.pos) && h.live == old(h.live) && h.wild == old(h.wild)
    ensures Shaped(it.fields, m') && Regular(it.fields, m') && Blocks(it.fields, m') == Blocks(it.fields, m)
    ensures var a := Addr(it.fields, it.pos);
            && a in m && m[a].Union? && a in m' && m'[a].Union? && m'[a].which == m[a].which && m' == m[a := m'[a]]
            && (ok <==> m[a].which == it.fields[it.pos].tag || ValidWhich(it.fields, m[a].which))
  {
    hide Arena.Valid, WellFormed, WellFormedField, Shaped, ShapedSlot, Regular, RegularSlot, BlocksFrom, BlocksSlot,
      ReleasedSlot, Addr, SizeAddr, RequiredBefore;
    m' := m;
    var a := it.pData;
    SlotFacts(it.fields, m, it.pos);
    SlotKind(it.fields[it.pos], m[a]);
    var oldTag, newTag := m[a].which, it.fields[it.pos].tag;
    if oldTag == 0 || oldTag == newTag { return true, m'; }
    FindIsUnique(it.fields, it.pos);
    ok := it.Find(oldTag);
    if !ok { return; }
    FindIsUnique(it.fields, it.pos);
    ghost var i := it.pos;
    OldMember(it.fields, m, old(it.pos), i);
    FreedNothing(h.live);
    var slot := ReleaseField(h, it.fields[it.pos], m[a]);
    m' := m[a := slot];
    ok := it.Find(newTag);
    assert ok;
    FindIsUnique(it.fields, it.pos);
  }

  /** What the struct owns apart from slot `i`. */
  lemma SlotFrame(fields: seq<Field>, m: Message, i: nat, frame: multiset<nat>) returns (others: multiset<nat>)
    requires WellFormed(fields) && Shaped(fields, m) && i < |fields|
    ensures Addr(fields, i) in m
    ensures Blocks(fields, m) == others + BlocksSlot(fields[i], m[Addr(fields, i)])
    ensures frame + Blocks(fields, m) == frame + others + BlocksSlot(fields[i], m[Addr(fields, i)])
  {
    hide Shaped, ShapedSlot, BlocksFrom, BlocksSlot, Addr, WellFormed, WellFormedField;
    SlotFacts(fields, m, i);
    SlotIsPart(fields, m, 0, i);
    others := Blocks(fields, m) - BlocksSlot(fields[i], m[Addr(fields, i)]);
    assert Blocks(fields, m) == others + BlocksSlot(fields[i], m[Addr(fields, i)]);
  }

  /** A slot rewritten by a method that keeps the books. */
  lemma SlotSettled(fields: seq<Field>, m: Message, i: nat, slot: Slot, others: multiset<nat>, frame: multiset<nat>)
    requires WellFormed(fields) && Shaped(fields, m) && i < |fields|
    requires ShapedSlot(fields[i], slot) && OneofStep(fields, m, i, slot)
    requires Blocks(fields, m) == others + BlocksSlot(fields[i], m[Addr(fields, i)])
    ensures var m' := m[Addr(fields, i) := slot];
            && Shaped(fields, m') && frame + Blocks(fields, m') == frame + others + BlocksSlot(fields[i], slot)
            && Erased(m') == Erased(m)[Addr(fields, i) := ErasedSlot(slot)]
  {
    hide BlocksSlot, BlocksFrom, Addr, ErasedSlot, Shaped, ShapedSlot, WellFormed;
    var a := Addr(fields, i);
    SlotWritten(fields, m, i, slot);
    ErasedUpdate(m, a, slot);
    var x := BlocksSlot(fields[i], m[a]);
    Exchange(others, x, others, x, BlocksSlot(fields[i], slot));
    assert Blocks(fields, m[a := slot]) + x == others + BlocksSlot(fields[i], slot) + x;
    Cancelled(Blocks(fields, m[a := slot]), x, others + BlocksSlot(fields[i], slot));
  }

  /** What a oneof member is decoded over does not depend on what another member left. */
  lemma UnionPrior(fields: seq<Field>, f: Field, wireType: nat, s: bytes, a: Slot, b: Slot)
    requires f.htype == Oneof && a.Union? && b.Union? && a.which == b.which
    ensures DecSlot(fields, f, wireType, s, ErasedSlot(a)) == DecSlot(fields, f, wireType, s, ErasedSlot(b))
    ensures a.which != f.tag && !ValidWhich(fields, a.which) ==> DecSlot(fields, f, wireType, s, ErasedSlot(a)).Fail?
    ensures UpsetSlot(f, wireType, s, ErasedSlot(a)) == UpsetSlot(f, wireType, s, ErasedSlot(b)) == Kept
  {
    hide DecScalar, DecMessage, DecString, ErasedValue;
  }

  lemma SlotKind(f: Field, s: Slot)
    requires ShapedSlot(f, s)
    ensures s.Union? <==> f.htype == Oneof
  {
  }

  lemma RegularMember(fields: seq<Field>, m: Message, i: nat)
    requires Regular(fields, m) && i < |fields|
    ensures Addr(fields, i) in m && RegularSlot(fields[i], m[Addr(fields, i)])
  {
  }

  lemma StaticMember(fields: seq<Field>, i: nat)
    requires AllStatic(fields) && i < |fields|
    ensures AllStaticField(fields[i]) && fields[i].atype == Static
  {
  }

  /** The part of `decode_field` behind the release of an old union member. */
  method DecodeInPlace(s: IStream, h: Arena, fields: seq<Field>, i: nat, wireType: nat, m: Message,
                       ghost frame: multiset<nat>)
    returns (ok: bool, m': Message, ghost slip: Slip)
    requires s.Valid() && h.Valid() && i < |fields| && !fields[i].FixedCount() && Addr(fields, i) in m
    requires WellFormed(fields) && Shaped(fields, m) && Regular(fields, m)
    requires var slot := m[Addr(fields, i)];
             slot.Union? ==> slot.which == fields[i].tag || ValidWhich(fields, slot.which)
    requires h.live == frame + Blocks(fields, m)
    modifies s, h
    ensures h.Valid() && Shaped(fields, m')
    ensures var a := Addr(fields, i);
            var spec := DecSlot(fields, fields[i], wireType, old(s.Rest()), ErasedSlot(m[a]));
            && Refines(s, h, ok, spec)
            && (ok ==> Regular(fields, m') && Erased(m') == Erased(m)[a := spec.value])
    ensures Balanced(h.live, h.wild, old(h.wild), frame + Blocks(fields, m'), slip)
    ensures Explained(ok, h.refusals == old(h.refusals), slip,
                      UpsetSlot(fields[i], wireType, old(s.Rest()), ErasedSlot(m[Addr(fields, i)])))
    ensures AllStatic(fields) ==> h.refusals == old(h.refusals) && slip == NO_SLIP
    decreases s.bytesLeft, 5
  {
    hide Arena.Valid, ShapedSlot, RegularSlot, BlocksSlot, BlocksFrom, DecSlot, ErasedSlot, WellFormed,
      WellFormedField, Addr, AllStaticField, Regular, Shaped, AllStatic, Erased, Refines, Balanced, Explained,
      UpsetSlot;
    var f, a := fields[i], Addr(fields, i);
    SlotFacts(fields, m, i);
    RegularMember(fields, m, i);
    SlotKind(f, m[a]);
    if AllStatic(fields) { StaticMember(fields, i); }
    ghost var others := SlotFrame(fields, m, i, frame);
    var slot;
    if f.atype == Static {
      ok, slot, slip := DecodeStaticField(s, h, fields, f, wireType, m[a], frame + others);
    } else {
      ok, slot, slip := DecodePointerField(s, h, fields, f, wireType, m[a], frame + others);
    }
    SlotKind(f, slot);
    m' := m[a := slot];
    SlotSettled(fields, m, i, slot, others, frame);
    if ok { RegularWritten(fields, m, i, slot); }
  }

  /** `decode_field`, fixed-count arrays aside. */
  method DecodeField(s: IStream, h: Arena, it: FieldIter, wireType: nat, m: Message, ghost frame: multiset<nat>)
    returns (ok: bool, m': Message, ghost slip: Slip)
    requires s.Valid() && h.Valid() && it.Valid() && it.base == 0 && it.fields != [] && !it.fields[it.pos].FixedCount()
    requires Addr(it.fields, it.pos) in m
    requires WellFormed(it.fields) && Shaped(it.fields, m) && Regular(it.fields, m)
    requires h.live == frame + Blocks(it.fields, m)
    modifies s, h, it
    ensures h.Valid() && it.Valid() && it.pos == old(it.pos)
    ensures Shaped(it.fields, m')
    ensures var a := Addr(it.fields, it.pos);
            var spec := DecSlot(it.fields, it.fields[it.pos], wireType, old(s.Rest()), ErasedSlot(m[a]));
            && Refines(s, h, ok, spec)
            && (ok ==> Regular(it.fields, m') && Erased(m') == Erased(m)[a := spec.value])
    ensures Balanced(h.live, h.wild, old(h.wild), frame + Blocks(it.fields, m'), slip)
    ensures Explained(ok, h.refusals == old(h.refusals), slip,
                      UpsetSlot(it.fields[it.pos], wireType, old(s.Rest()), ErasedSlot(m[Addr(it.fields, it.pos)])))
    ensures AllStatic(it.fields) ==> h.refusals == old(h.refusals) && slip == NO_SLIP
    decreases s.bytesLeft, 6
  {
    hide Arena.Valid, ShapedSlot, RegularSlot, BlocksSlot, BlocksFrom, DecSlot, ErasedSlot, WellFormed, Balanced,
      WellFormedField, AllStatic, Shaped, Regular, Erased, ValidWhich, Addr, SizeAddr, RequiredBefore, UpsetSlot;
    ghost var rest, i := s.Rest(), it.pos;
    var f, a := it.fields[it.pos], it.pData;
    m', slip := m, NO_SLIP;
    Even(h.live, h.wild, h.wild, frame + Blocks(it.fields, m));
    RegularMember(it.fields, m, i);
    SlotFacts(it.fields, m, i);
    SlotKind(f, m[a]);
    if f.htype == Oneof {
      ok, m' := ReleaseUnionField(h, it, m);
      UnionPrior(it.fields, f, wireType, rest, m[a], m'[a]);
      if !ok { return; }
      ErasedUpdate(m, a, m'[a]);
    }
    ok, m', slip := DecodeInPlace(s, h, it.fields, it.pos, wireType, m', frame);
  }

  lemma StaticItems(f: Field, items: seq<Value>)
    requires WellFormedField(f) && f.FixedCount() && ShapedItems(f, items)
    ensures ShapedSlot(f, FixedArray(items)) && BlocksSlot(f, FixedArray(items)) == multiset{}
    ensures forall n :: 0 <= n <= |items| ==> BlocksItems(f, items, n) == multiset{}
  {
    hide BlocksValue, ShapedValue;
    forall k | 0 <= k < |items| ensures BlocksValue(f, items[k]) == multiset{} { StaticValueOwnsNothing(f, items[k]); }
    forall n | 0 <= n <= |items| ensures BlocksItems(f, items, n) == multiset{} { ItemsOwnNothing(f, items, n); }
  }

  lemma FixedItems(f: Field, s: Slot)
    requires WellFormedField(f) && f.FixedCount() && ShapedSlot(f, s)
    ensures s.FixedArray? && ShapedItems(f, s.items) && AllStaticField(f)
  {
    hide ShapedValue;
  }

  lemma FixedIsRegular(f: Field, s: Slot)
    requires s.FixedArray?
    ensures RegularSlot(f, s)
    ensures ErasedSlot(s) == FixedArray(ErasedItems(s.items))
  {
  }

  /** `decode_field` on an array without a count of its own: the caller keeps it in `size`. */
  method DecodeFixedArray(s: IStream, h: Arena, fields: seq<Field>, i: nat, wireType: nat, size: nat, m: Message,
                          ghost frame: multiset<nat>)
    returns (ok: bool, size': nat, m': Message)
    requires s.Valid() && h.Valid() && i < |fields| && fields[i].FixedCount() && size <= fields[i].arraySize
    requires Addr(fields, i) in m && m[Addr(fields, i)].FixedArray?
    requires WellFormed(fields) && Shaped(fields, m) && Regular(fields, m)
    requires h.live == frame + Blocks(fields, m)
    modifies s, h
    ensures h.Valid() && Shaped(fields, m')
    ensures h.live == frame + Blocks(fields, m') && h.wild == old(h.wild)
    ensures var a := Addr(fields, i);
            var spec := DecEntries(fields[i], wireType, old(s.Rest()), Entries(size, ErasedItems(m[a].items)));
            && Refines(s, h, ok, spec)
            && (ok ==> Regular(fields, m') && size' == spec.value.count <= fields[i].arraySize
                       && Erased(m') == Erased(m)[a := FixedArray(spec.value.items)])
    ensures h.refusals == old(h.refusals)
    decreases s.bytesLeft, 6
  {
    hide Arena.Valid, ShapedSlot, RegularSlot, BlocksSlot, BlocksFrom, BlocksItems, ShapedItems, DecEntries, Balanced,
      ErasedSlot, ErasedItems, Erased, WellFormed, WellFormedField, AllStaticField, Shaped, Regular, Addr, UpsetEntries;
    var f, a := fields[i], Addr(fields, i);
    SlotFacts(fields, m, i);
    FixedItems(f, m[a]);
    StaticItems(f, m[a].items);
    ghost var others := SlotFrame(fields, m, i, frame);
    var items;
    ghost var slip;
    ok, size', items, slip := DecodeStaticArray(s, h, f, wireType, size, m[a].items, frame + others);
    StaticItems(f, items);
    Even(h.live, h.wild, old(h.wild), frame + others + BlocksItems(f, items, Used(size', items)));
    var slot := FixedArray(items);
    m' := m[a := slot];
    SlotSettled(fields, m, i, slot, others, frame);
    FixedIsRegular(f, slot);
    FixedIsRegular(f, m[a]);
    RegularWritten(fields, m, i, slot);
  }

  /** The fixed-count array being filled, if any. */
  predicate Filling(fields: seq<Field>, fixed: Option<nat>, size: nat) {
    fixed.Some? ==> fixed.value < |fields| && fields[fixed.value].FixedCount() && size <= fields[fixed.value].arraySize
  }

  /** What `pb_decode_noinit` does with a field its iterator has found. */
  method DecodeFound(s: IStream, h: Arena, it: FieldIter, wireType: nat, seenSet: SeenSet, fixed: Option<nat>,
                     size: nat, m: Message, ghost st: State, ghost frame: multiset<nat>)
    returns (ok: bool, fixed': Option<nat>, size': nat, m': Message, ghost slip: Slip)
    requires s.Valid() && h.Valid() && it.Valid() && it.base == 0 && it.fields != []
    requires WellFormed(it.fields) && Shaped(it.fields, m) && Regular(it.fields, m)
    requires seenSet.Represents(st.seen) && Filling(it.fields, fixed, size)
    requires st == State(Erased(m), st.seen, fixed, size)
    requires h.live == frame + Blocks(it.fields, m)
    modifies s, h, it, seenSet.words
    ensures h.Valid() && it.Valid() && it.pos == old(it.pos)
    ensures Shaped(it.fields, m')
    ensures var spec := DecField(it.fields, it.pos, wireType, old(s.Rest()), st);
            && Refines(s, h, ok, spec)
            && (ok ==> Regular(it.fields, m') && Filling(it.fields, fixed', size')
                       && seenSet.Represents(spec.value.seen)
                       && spec.value == State(Erased(m'), spec.value.seen, fixed', size'))
    ensures Balanced(h.live, h.wild, old(h.wild), frame + Blocks(it.fields, m'), slip)
    ensures Explained(ok, h.refusals == old(h.refusals), slip,
                      UpsetField(it.fields, it.pos, wireType, old(s.Rest()), st))
    ensures AllStatic(it.fields) ==> h.refusals == old(h.refusals) && slip == NO_SLIP
    decreases s.bytesLeft, 7
  {
    hide Arena.Valid, ShapedSlot, RegularSlot, BlocksSlot, BlocksFrom, DecSlot, DecEntries, WellFormed, Balanced,
      WellFormedField, AllStatic, Shaped, Regular, Addr, SizeAddr, RequiredBefore, ErasedItems, UpsetSlot;
    var i, f, a := it.pos, it.fields[it.pos], it.pData;
    fixed', size', m', slip := fixed, size, m, NO_SLIP;
    assert Addr(it.fields, i) in m && WellFormedField(f) && ShapedSlot(f, m[a]) by { SlotFacts(it.fields, m, i); }
    Even(h.live, h.wild, h.wild, frame + Blocks(it.fields, m));
    if f.FixedCount() {
      FixedItems(f, m[a]);
      if fixed != Some(i) {
        if fixed.Some? && size != it.fields[fixed.value].arraySize { return false, fixed', size', m', slip; }
        fixed', size' := Some(i), 0;
      }
      ok, size', m' := DecodeFixedArray(s, h, it.fields, i, wireType, size', m, frame);
      Even(h.live, h.wild, h.wild, frame + Blocks(it.fields, m'));
    } else {
      if f.htype == Required { seenSet.Mark(it.requiredFieldIndex, st.seen); }
      ok, m', slip := DecodeField(s, h, it, wireType, m, frame);
    }
  }

  lemma AfterTwice(o: Outcome, a: nat, b: nat)
    ensures o.After(a).After(b) == o.After(a + b)
  {
  }

  datatype Progress = Failed | Ended | Continues

  lemma MarksAreNumbered(fields: seq<Field>, i: nat, wireType: nat, s: bytes, st: State)
    requires i < |fields| && Numbered(fields, st.seen) && DecField(fields, i, wireType, s, st).Ok?
    ensures Numbered(fields, DecField(fields, i, wireType, s, st).value.seen)
  {
    hide DecSlot, DecEntries;
    RequiredGrows(fields, i + 1, |fields|);
  }

  /** The specification's loop, one key at a time. */
  lemma LoopTurn(fields: seq<Field>, s: bytes, st: State)
    requires s != []
    ensures var key, r := DecTag(s), DecLoop(fields, s, st);
            && (key.Fail? ==> r.Bad?)
            && (key.Ok? ==> 1 <= key.used <= |s|)
            && (key.Ok? && key.value.Terminator? ==> r == Done(st, key.used, true))
            && (key.Ok? && key.value.Key? ==>
                  var rest, i := s[key.used..], Find(fields, key.value.tag);
                  && (i.None? && fields == [] && key.value.tag == 0 ==> r.Bad?)
                  && (i.None? && (fields != [] || key.value.tag != 0) ==>
                        var skip := Skip(rest, key.value.wireType);
                        && (skip.Fail? ==> r.Bad?)
                        && (skip.Ok? ==>
                              && skip.used <= |rest|
                              && r == DecLoop(fields, rest[skip.used..], st).After(key.used + skip.used)))
                  && (i.Some? ==>
                        var field := DecField(fields, i.value, key.value.wireType, rest, st);
                        && (field.Fail? ==> r.Bad?)
                        && (field.Ok? ==>
                              r == DecLoop(fields, rest[field.used..], field.value).After(key.used + field.used))))
  {
    hide DecTag, Skip, DecField;
    KeyUsed(s);
    if DecTag(s).Ok? && DecTag(s).value.Key? { SkipUsed(s[DecTag(s).used..], DecTag(s).value.wireType); }
  }

  /** The upset of the loop, one key at a time. */
  lemma UpsetTurn(fields: seq<Field>, s: bytes, st: State)
    requires s != []
    ensures var key, u := DecTag(s), UpsetLoop(fields, s, st);
            && (key.Fail? || key.value.Terminator? ==> u == Kept)
            && (key.Ok? && key.value.Key? ==>
                  && key.used <= |s|
                  && var rest, i := s[key.used..], Find(fields, key.value.tag);
                  && (i.None? && fields == [] && key.value.tag == 0 ==> u == Kept)
                  && (i.None? && (fields != [] || key.value.tag != 0) ==>
                        var skip := Skip(rest, key.value.wireType);
                        && (skip.Fail? ==> u == Kept)
                        && (skip.Ok? ==> skip.used <= |rest| && u == UpsetLoop(fields, rest[skip.used..], st)))
                  && (i.Some? ==>
                        var field := DecField(fields, i.value, key.value.wireType, rest, st);
                        u == if field.Fail? then UpsetField(fields, i.value, key.value.wireType, rest, st)
                             else UpsetLoop(fields, rest[field.used..], field.value)))
  {
    hide DecTag, Skip, DecField, UpsetField;
    KeyUsed(s);
    if DecTag(s).Ok? && DecTag(s).value.Key? { SkipUsed(s[DecTag(s).used..], DecTag(s).value.wireType); }
  }

  /** One turn of the loop of `pb_decode_noinit`. */
  method DecodeNext(s: IStream, h: Arena, it: FieldIter, seenSet: SeenSet, fixed: Option<nat>, size: nat,
                    m: Message, ghost st: State, ghost frame: multiset<nat>)
    returns (progress: Progress, fixed': Option<nat>, size': nat, m': Message, ghost st': State, ghost slip: Slip)
    requires s.Valid() && h.Valid() && it.Valid() && it.base == 0 && s.bytesLeft > 0
    requires WellFormed(it.fields) && Shaped(it.fields, m) && Regular(it.fields, m)
    requires seenSet.Represents(st.seen) && Numbered(it.fields, st.seen)
    requires Filling(it.fields, fixed, size) && st == State(Erased(m), st.seen, fixed, size)
    requires h.live == frame + Blocks(it.fields, m)
    modifies s, h, it, seenSet.words
    ensures h.Valid() && it.Valid()
    ensures Shaped(it.fields, m')
    ensures !progress.Failed? ==>
              && Regular(it.fields, m') && seenSet.Represents(st'.seen) && Numbered(it.fields, st'.seen)
              && Filling(it.fields, fixed', size') && st' == State(Erased(m'), st'.seen, fixed', size')
    ensures Within(s)
    ensures !progress.Failed? ==> s.SameEnd() && s.bytesLeft < old(s.bytesLeft) && h.refusals == old(h.refusals)
    ensures var spec, used := DecLoop(it.fields, old(s.Rest()), st), s.pos - old(s.pos);
            match progress
            case Failed => h.refusals == old(h.refusals) ==> spec.Bad?
            case Ended => st' == st && used >= 0 && spec == Done(st, used, true)
            case Continues => used >= 0 && spec == DecLoop(it.fields, s.Rest(), st').After(used)
    ensures Balanced(h.live, h.wild, old(h.wild), frame + Blocks(it.fields, m'), slip)
    ensures !progress.Failed? ==> slip == NO_SLIP
    ensures var upset := UpsetLoop(it.fields, old(s.Rest()), st);
            match progress
            case Failed => Explained(false, h.refusals == old(h.refusals), slip, upset)
            case Ended => upset == Kept
            case Continues => upset == UpsetLoop(it.fields, s.Rest(), st')
    ensures AllStatic(it.fields) ==> h.refusals == old(h.refusals) && slip == NO_SLIP
    decreases s.bytesLeft, 8
  {
    hide Arena.Valid, WellFormed, WellFormedField, Shaped, Regular, BlocksFrom, DecTag, Skip, DecField, AllStatic,
      Filling, Numbered, SizeAddr, Addr, RequiredBefore, DecLoop, Find, Balanced, Explained,
      UpsetField, UpsetLoop;
    fixed', size', m', st', slip := fixed, size, m, st, NO_SLIP;
    Even(h.live, h.wild, h.wild, frame + Blocks(it.fields, m));
    ghost var start := s.Rest();
    LoopTurn(it.fields, start, st);
    UpsetTurn(it.fields, start, st);
    NothingUpset(false, true);
    var ok, tag, wireType, eof := s.DecodeTag();
    if !ok { return if eof then Ended else Failed, fixed', size', m', st', slip; }
    ghost var rest, n := s.Rest(), DecTag(start).used;
    var found := it.Find(tag);
    FoundField(it.fields, it.pos, tag, found);
    if !found {
      ok := s.SkipField(wireType);
      if !ok { return Failed, fixed', size', m', st', slip; }
      AfterTwice(DecLoop(it.fields, s.Rest(), st), Skip(rest, wireType).used, n);
      return Continues, fixed', size', m', st', slip;
    }
    if it.fields == [] { return Failed, fixed', size', m', st', slip; }
    ok, fixed', size', m', slip := DecodeFound(s, h, it, wireType, seenSet, fixed, size, m, st, frame);
    Unslipped(ok, h.refusals == old(h.refusals), slip, UpsetField(it.fields, it.pos, wireType, rest, st));
    if !ok { return Failed, fixed', size', m', st', slip; }
    MarksAreNumbered(it.fields, it.pos, wireType, rest, st);
    st' := DecField(it.fields, it.pos, wireType, rest, st).value;
    AfterTwice(DecLoop(it.fields, s.Rest(), st'), DecField(it.fields, it.pos, wireType, rest, st).used, n);
    progress := Continues;
  }

  /** What the iterator found is what the specification finds. */
  lemma FoundField(fields: seq<Field>, pos: nat, tag: nat, found: bool)
    requires WellFormed(fields)
    requires fields != [] ==>
               && (found <==> exists i :: 0 <= i < |fields| && fields[i].tag == tag && !fields[i].ltype.Extension?)
               && (found ==> pos < |fields| && fields[pos].tag == tag)
    ensures Find(fields, tag) == if found && fields != [] then Some(pos) else None
  {
    if found && fields != [] { FindIsUnique(fields, pos); }
  }

  // ---------------------------------------------------------------- Whole messages

  method DecodeNoinit(s: IStream, h: Arena, fields: seq<Field>, m: Message, ghost frame: multiset<nat>)
    returns (ok: bool, m': Message, ghost slip: Slip)
    requires s.Valid() && h.Valid() && WellFormed(fields) && Shaped(fields, m) && Regular(fields, m)
    requires h.live == frame + Blocks(fields, m)
    modifies s, h
    ensures h.Valid() && Shaped(fields, m')
    ensures Within(s)
    ensures ok ==> var run := DecLoop(fields, old(s.Rest()), Start(Erased(m))); run.Done? && s.Used(run.used)
    ensures var spec := DecMessage(fields, old(s.Rest()), Erased(m));
            && (ok <==> spec.Some? && h.refusals == old(h.refusals))
            && (ok ==> Regular(fields, m') && spec.value == Erased(m'))
    ensures Balanced(h.live, h.wild, old(h.wild), frame + Blocks(fields, m'), slip)
    ensures Explained(ok, h.refusals == old(h.refusals), slip, UpsetLoop(fields, old(s.Rest()), Start(Erased(m))))
    ensures AllStatic(fields) ==> h.refusals == old(h.refusals) && slip == NO_SLIP
    decreases s.bytesLeft, 9
  {
    hide Arena.Valid, WellFormed, WellFormedField, Shaped, Regular, BlocksFrom, DecLoop, AllStatic, SizeAddr, Addr,
      RequiredBefore, Numbered, RequiredMet, FixedComplete, Complete, Filling, Erased, UpsetLoop, Balanced, Explained;
    ghost var rest, st := s.Rest(), Start(Erased(m));
    var it := new FieldIter(fields, 0);
    var seenSet := new SeenSet();
    var fixed: Option<nat> := None;
    var size, progress := 0, Continues;
    m', slip := m, NO_SLIP;
    NothingNumbered(fields);
    Even(h.live, h.wild, old(h.wild), frame + Blocks(fields, m));
    while s.bytesLeft > 0 && progress.Continues?
      invariant it.Valid() && it.fields == fields && it.base == 0 && h.Valid() && fresh(seenSet) && fresh(seenSet.words)
      invariant Shaped(fields, m') && Balanced(h.live, h.wild, old(h.wild), frame + Blocks(fields, m'), slip)
      invariant !progress.Failed? ==>
                  && slip == NO_SLIP
                  && Regular(fields, m') && seenSet.Represents(st.seen) && Numbered(fields, st.seen)
                  && Filling(fields, fixed, size) && st == State(Erased(m'), st.seen, fixed, size)
      invariant Within(s) && (!progress.Failed? ==> s.SameEnd() && h.refusals == old(h.refusals))
      invariant AllStatic(fields) ==> h.refusals == old(h.refusals) && slip == NO_SLIP
      invariant progress.Failed? && h.refusals == old(h.refusals) ==> DecLoop(fields, rest, Start(Erased(m))).Bad?
      invariant progress.Failed? ==>
                  Explained(false, h.refusals == old(h.refusals), slip, UpsetLoop(fields, rest, Start(Erased(m))))
      invariant progress.Ended? ==>
                  && DecLoop(fields, rest, Start(Erased(m))) == Done(st, s.pos - old(s.pos), true)
                  && UpsetLoop(fields, rest, Start(Erased(m))) == Kept
      invariant progress.Continues? ==>
                  && s.pos >= old(s.pos)
                  && DecLoop(fields, rest, Start(Erased(m))) == DecLoop(fields, s.Rest(), st).After(s.pos - old(s.pos))
                  && UpsetLoop(fields, rest, Start(Erased(m))) == UpsetLoop(fields, s.Rest(), st)
      decreases progress.Continues?, s.bytesLeft
    {
      ghost var used, before := s.pos - old(s.pos), s.pos;
      Even(h.live, h.wild, old(h.wild), frame + Blocks(fields, m'));
      progress, fixed, size, m', st, slip := DecodeNext(s, h, it, seenSet, fixed, size, m', st, frame);
      if progress.Continues? { AfterTwice(DecLoop(fields, s.Rest(), st), s.pos - before, used); }
    }
    if progress.Failed? { return false, m', slip; }
    LoopEnds(fields, s.Rest(), st);
    NothingUpset(true, true);
    NothingUpset(false, true);
    ok := CheckComplete(it, seenSet, fixed, size, st);
  }

  /** The checks behind the loop: the last fixed-count array is full, and no required field is missing. */
  method CheckComplete(it: FieldIter, seenSet: SeenSet, fixed: Option<nat>, size: nat, ghost st: State)
    returns (ok: bool)
    requires it.Valid() && WellFormed(it.fields) && Filling(it.fields, fixed, size)
    requires st.fixed == fixed && st.fixedSize == size
    requires seenSet.Represents(st.seen) && Numbered(it.fields, st.seen)
    modifies it
    ensures ok <==> Complete(it.fields, st)
  {
    hide WellFormed, RequiredMet, Numbered, Addr, SizeAddr, RequiredBefore;
    if fixed.Some? && size != it.fields[fixed.value].arraySize { return false; }
    FirstTag(it.fields);
    ok := CheckRequired(it, seenSet, st.seen);
  }

  lemma NothingNumbered(fields: seq<Field>)
    ensures Numbered(fields, {}) && Filling(fields, None, 0)
  {
  }

  lemma LoopEnds(fields: seq<Field>, s: bytes, st: State)
    ensures s == [] ==> DecLoop(fields, s, st) == Done(st, 0, false) && UpsetLoop(fields, s, st) == Kept
  {
  }

  lemma FirstTag(fields: seq<Field>)
    requires WellFormed(fields)
    ensures fields != [] ==> fields[0].tag != 0
  {
    if fields != [] { TagIsPositive(fields, 0); }
  }

  /** `pb_decode`, into a struct that may hold anything. */
  method Decode(s: IStream, h: Arena, fields: seq<Field>, m: Message, ghost frame: multiset<nat>)
    returns (ok: bool, m': Message, ghost slip: Slip)
    requires s.Valid() && h.Valid() && WellFormed(fields) && Shaped(fields, m)
    requires h.live == frame
    modifies s, h
    ensures h.Valid() && Shaped(fields, m')
    ensures !ok ==> Blocks(fields, m') == multiset{} && Released(fields, m') == m'
    ensures Within(s)
    ensures ok ==>
              var run := DecLoop(fields, old(s.Rest()), Start(SetDefaults(fields, Erased(m))));
              run.Done? && s.Used(run.used)
    ensures var spec := DecodeSpec.Decode(fields, old(s.Rest()), Erased(m));
            && (ok <==> spec.Some? && h.refusals == old(h.refusals))
            && (ok ==> Regular(fields, m') && spec.value == Erased(m'))
    ensures Balanced(h.live, h.wild, old(h.wild), frame + Blocks(fields, m'), slip)
    ensures Explained(ok, h.refusals == old(h.refusals), slip,
                      UpsetLoop(fields, old(s.Rest()), Start(SetDefaults(fields, Erased(m)))))
    ensures AllStatic(fields) ==> h.refusals == old(h.refusals) && slip == NO_SLIP
    decreases s.bytesLeft, 10
  {
    hide Arena.Valid, WellFormed, Shaped, Regular, AllStatic, DecMessage, DecLoop, DefaultsFrom, BlocksFrom, UpsetLoop,
      Balanced, Explained;
    var m0 := SetMessageToDefaults(fields, m);
    DefaultsReady(fields, m);
    DefaultsOwnNothing(fields, m);
    ok, m', slip := DecodeNoinit(s, h, fields, m0, frame);
    if !ok { m' := ReleaseFailed(h, fields, m', frame, old(h.wild), slip); }
  }

  /** What a failed decode left is released; the books stay balanced but for the slip. */
  method ReleaseFailed(h: Arena, fields: seq<Field>, m: Message, ghost frame: multiset<nat>, ghost prior: multiset<nat>,
                       ghost slip: Slip)
    returns (m': Message)
    requires h.Valid() && WellFormed(fields) && Shaped(fields, m)
    requires Balanced(h.live, h.wild, prior, frame + Blocks(fields, m), slip)
    modifies h`live, h`wild
    ensures h.Valid() && Shaped(fields, m') && Blocks(fields, m') == multiset{} && Released(fields, m') == m'
    ensures Balanced(h.live, h.wild, prior, frame + Blocks(fields, m'), slip)
  {
    hide Arena.Valid, WellFormed, Shaped, BlocksFrom, ReleasedFrom, Balanced;
    SlipStays(h.live, h.wild, prior, frame, Blocks(fields, m), slip);
    ReleasedOwnsNothing(fields, m);
    ReleasedTwice(fields, m);
    m' := ReleaseMessage(h, fields, m);
    assert frame + Blocks(fields, m') == frame;
  }
}
