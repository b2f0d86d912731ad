/** Initialising structs and releasing what they own: `pb_message_set_to_defaults` and `pb_release`. */
module Releaser {
  import opened Descriptor
  import opened FieldIterator
  import opened DecodeSpec
  import opened Ownership
  import opened Heap

  // ---------------------------------------------------------------- Defaults

  /** `pb_message_set_to_defaults` */
  method SetMessageToDefaults(fields: seq<Field>, m: Message) returns (m': Message)
    ensures m' == SetDefaults(fields, m)
    decreases fields, |fields| + 1
  {
    m' := m;
    var it := new FieldIter(fields, 0);
    if fields == [] { return; }
    var more := true;
    while more
      invariant it.Valid() && it.fields == fields && it.base == 0
      invariant SetDefaults(fields, m) == DefaultsFrom(fields, m', if more then it.pos else |fields|)
      decreases more, |fields| - it.pos
    {
      if it.pData in m' {
        var s := SetFieldToDefault(fields[it.pos], m'[it.pData]);
        m' := m'[it.pData := s];
      }
      more := it.Next();
    }
  }

  /** `pb_field_set_to_default` */
  method SetFieldToDefault(f: Field, s: Slot) returns (s': Slot)
    ensures s' == DefaultSlot(f, s)
    decreases f, 1
  {
    match s {
      case Plain(v) =>
        var v' := SetValueToDefault(f, v);
        s' := Plain(v');
      case Has(_, v) =>
        var v' := SetValueToDefault(f, v);
        s' := Has(false, v');
      case Array(_, items) => s' := Array(0, items);
      case FixedArray(_) => s' := s;
      case Union(_, v) => s' := Union(0, v);
      case Ptr(_) => s' := Ptr(Null);
      case PtrArray(_, _) => s' := PtrArray(0, Null);
    }
  }

  method SetValueToDefault(f: Field, v: Value) returns (v': Value)
    ensures v' == DefaultValue(f, v)
    decreases f, 0
  {
    match (f.ltype, v) {
      case (Submessage(fields), Msg(m)) =>
        var m' := SetMessageToDefaults(fields, m);
        v' := Msg(m');
      case (Submessage(_), _) => v' := v;
      case _ => v' := if f.default.Some? then f.default.value else ZeroValue(f);
    }
  }

  // ---------------------------------------------------------------- Release

  /** `pb_release`: every block the struct owns is freed, once, and nothing else. */
  method ReleaseMessage(h: Arena, fields: seq<Field>, m: Message) returns (m': Message)
    requires h.Valid() && WellFormed(fields) && Shaped(fields, m)
    modifies h`live, h`wild
    ensures h.Valid() && Freed(h, Blocks(fields, m))
    ensures m' == Released(fields, m)
    decreases fields, |fields| + 1
  {
    hide Arena.Valid, BlocksSlot, BlocksFrom, ReleasedSlot, ReleasedFrom, WellFormed, WellFormedField, Shaped,
      ShapedSlot, Addr, SizeAddr, RequiredBefore, FreedSoFar;
    m' := m;
    ReleasedOwnsNothing(fields, m);
    ReleasedEnds(fields);
    ghost var live, wild, freed := h.live, h.wild, multiset{};
    NothingFreed(live, wild);
    var it := new FieldIter(fields, 0);
    if fields == [] { return; }
    var more := true;
    while more
      invariant it.Valid() && it.fields == fields && it.base == 0
      invariant Released(fields, m) == ReleasedFrom(fields, m', if more then it.pos else |fields|)
      invariant h.Valid() && Shaped(fields, m') && freed + Blocks(fields, m') == Blocks(fields, m)
      invariant FreedSoFar(live, wild, freed, h.live, h.wild)
      decreases more, |fields| - it.pos
    {
      ghost var before, live', wild' := m', h.live, h.wild;
      ReleaseTurn(fields, m', it.pos);
      var f, s := fields[it.pos], m'[it.pData];
      var s' := ReleaseField(h, f, s);
      FreedMore(live, wild, freed, live', wild', BlocksSlot(f, s));
      m' := m'[it.pData := s'];
      SlotReleased(fields, before, it.pos, s', freed);
      freed := freed + BlocksSlot(f, s);
      more := it.Next();
    }
    AllFreed(live, wild, freed, Blocks(fields, m), h.live, h.wild);
  }

  /** The heap `live` and `wild` tell after some blocks were freed. */
  ghost predicate FreedSoFar(live: multiset<nat>, wild: multiset<nat>, freed: multiset<nat>, live': multiset<nat>,
                             wild': multiset<nat>) {
    live' == live - freed && wild' == wild + (freed - live)
  }

  lemma NothingFreed(live: multiset<nat>, wild: multiset<nat>)
    ensures FreedSoFar(live, wild, multiset{}, live, wild)
  {
    FreedNothing(live);
  }

  lemma FreedMore(live: multiset<nat>, wild: multiset<nat>, freed: multiset<nat>, live': multiset<nat>,
                  wild': multiset<nat>, blocks: multiset<nat>)
    requires FreedSoFar(live, wild, freed, live', wild')
    ensures FreedSoFar(live, wild, freed + blocks, live' - blocks, wild' + (blocks - live'))
  {
    FreedInTwo(live, freed, blocks);
  }

  lemma AllFreed(live: multiset<nat>, wild: multiset<nat>, freed: multiset<nat>, blocks: multiset<nat>,
                 live': multiset<nat>, wild': multiset<nat>)
    requires FreedSoFar(live, wild, freed, live', wild') && freed + multiset{} == blocks
    ensures live' == live - blocks && wild' == wild + (blocks - live)
  {
  }

  /** The specification of release, one field at a time. */
  lemma ReleaseTurn(fields: seq<Field>, m: Message, i: nat)
    requires WellFormed(fields) && Shaped(fields, m) && i < |fields|
    ensures var f, a := fields[i], Addr(fields, i);
            && a in m && WellFormedField(f) && ShapedSlot(f, m[a])
            && ReleasedFrom(fields, m, i) == ReleasedFrom(fields, m[a := ReleasedSlot(f, m[a])], i + 1)
  {
  }

  lemma ReleasedEnds(fields: seq<Field>)
    ensures forall m :: ReleasedFrom(fields, m, |fields|) == m
    ensures fields == [] ==> forall m :: Blocks(fields, m) == multiset{} && Released(fields, m) == m
  {
  }

  /** What a slot owned goes from the struct to what has been freed. */
  lemma SlotReleased(fields: seq<Field>, m: Message, i: nat, s: Slot, freed: multiset<nat>)
    requires WellFormed(fields) && Shaped(fields, m) && i < |fields|
    requires s == ReleasedSlot(fields[i], m[Addr(fields, i)])
    ensures var a := Addr(fields, i);
            && Shaped(fields, m[a := s])
            && freed + BlocksSlot(fields[i], m[a]) + Blocks(fields, m[a := s]) == freed + Blocks(fields, m)
  {
    hide BlocksSlot, BlocksFrom, ReleasedSlot, WellFormedField, Addr, ShapedSlot;
    var f, a := fields[i], Addr(fields, i);
    assert WellFormedField(f) && ShapedSlot(f, m[a]);
    ReleasedSlotOwnsNothing(f, m[a]);
    SlotWritten(fields, m, i, s);
    assert Blocks(fields, m[a := s]) + BlocksSlot(f, m[a]) == Blocks(fields, m);
  }

  /** `pb_release_single_field` */
  method ReleaseField(h: Arena, f: Field, s: Slot) returns (s': Slot)
    requires h.Valid() && WellFormedField(f) && ShapedSlot(f, s)
    modifies h`live, h`wild
    ensures h.Valid() && Freed(h, BlocksSlot(f, s))
    ensures s' == ReleasedSlot(f, s)
    decreases f, 2
  {
    hide Arena.Valid, WellFormedField, ShapedValue, BlocksValue, BlocksItems, ReleasedValue, ReleasedItems, ShapedItem;
    match s {
      case Plain(v) =>
        var v' := ReleaseValue(h, f, v);
        s' := Plain(v');
      case Has(has, v) =>
        var v' := ReleaseValue(h, f, v);
        s' := Has(has, v');
      case Array(count, items) =>
        var n := if count < |items| then count else |items|;
        var items' := ReleaseItems(h, f, items, n);
        s' := Array(count, items');
      case FixedArray(items) =>
        var items' := ReleaseItems(h, f, items, |items|);
        s' := FixedArray(items');
      case Union(which, v) =>
        s' := s;
        FreedNothing(h.live);
        if which == f.tag {
          UnionContents(f, s);
          var v' := ReleaseValue(h, f, v);
          s' := Union(which, v');
        }
      case Ptr(p) =>
        ReleasePointer(h, f, p);
        s' := Ptr(Null);
      case PtrArray(count, p) =>
        ReleasePointerArray(h, f, count, p);
        s' := PtrArray(0, Null);
    }
  }

  lemma FreedNothing(live: multiset<nat>)
    ensures live - multiset{} == live && multiset{} - live == multiset{}
  {
  }

  lemma UnionContents(f: Field, s: Slot)
    requires WellFormedField(f) && ShapedSlot(f, s) && s.Union? && s.which == f.tag
    ensures ShapedValue(f, s.v) && BlocksValue(f, s.v) == multiset{}
  {
    StaticValueOwnsNothing(f, s.v);
  }

  /** A block of one owns itself and what its entry owns. */
  lemma PointerBlocks(f: Field, p: Pointer)
    requires p.Block? ==> |p.items| == 1
    ensures BlocksSlot(f, Ptr(p)) == if p.Block? then BlocksValue(f, p.items[0]) + BlockOf(p) else BlockOf(p)
  {
  }

  lemma PointerContents(f: Field, p: Pointer)
    requires ShapedSlot(f, Ptr(p)) && p.Block?
    ensures |p.items| == 1
    ensures if f.ltype.Submessage? then ShapedValue(f, p.items[0]) else BlocksValue(f, p.items[0]) == multiset{}
  {
    assert ShapedItem(f, p.items[0]);
  }

  method ReleasePointer(h: Arena, f: Field, p: Pointer)
    requires h.Valid() && WellFormedField(f) && ShapedSlot(f, Ptr(p))
    modifies h`live, h`wild
    ensures h.Valid() && Freed(h, BlocksSlot(f, Ptr(p)))
    decreases f, 1, 1
  {
    hide Arena.Valid, WellFormedField, BlocksValue, BlocksSlot, ShapedSlot, BlockOf;
    ghost var live := h.live;
    FreedNothing(live);
    if p.Block? {
      PointerContents(f, p);
      if f.ltype.Submessage? {
        var v' := ReleaseValue(h, f, p.items[0]);
      }
      FreedInTwo(live, BlocksValue(f, p.items[0]), BlockOf(p));
    } else {
      FreedInTwo(live, multiset{}, BlockOf(p));
    }
    PointerBlocks(f, p);
    h.Free(p);
  }

  method ReleasePointerArray(h: Arena, f: Field, count: nat, p: Pointer)
    requires h.Valid() && WellFormedField(f) && ShapedSlot(f, PtrArray(count, p))
    modifies h`live, h`wild
    ensures h.Valid() && Freed(h, BlocksSlot(f, PtrArray(count, p)))
    decreases f, 1, 1
  {
    hide Arena.Valid, WellFormedField, ShapedItem, BlocksItems, BlockOf;
    ghost var live := h.live;
    FreedNothing(live);
    if p.Block? {
      ReleaseEntries(h, f, p.items, count);
      FreedInTwo(live, BlocksItems(f, p.items, count), BlockOf(p));
      assert BlocksSlot(f, PtrArray(count, p)) == BlocksItems(f, p.items, count) + BlockOf(p);
    } else {
      FreedInTwo(live, multiset{}, BlockOf(p));
      assert BlocksSlot(f, PtrArray(count, p)) == BlockOf(p);
    }
    h.Free(p);
  }

  /** The contents of a static field or of a block. */
  method ReleaseValue(h: Arena, f: Field, v: Value) returns (v': Value)
    requires h.Valid() && WellFormedField(f) && ShapedValue(f, v)
    modifies h`live, h`wild
    ensures h.Valid() && Freed(h, BlocksValue(f, v))
    ensures v' == ReleasedValue(f, v)
    decreases f, 0, 0
  {
    hide Arena.Valid;
    FreedNothing(h.live);
    match (f.ltype, v) {
      case (Submessage(fields), Msg(m)) =>
        var m' := ReleaseMessage(h, fields, m);
        v' := Msg(m');
      case _ => v' := v;
    }
  }

  /** The first `n` entries of a static array. */
  method ReleaseItems(h: Arena, f: Field, items: seq<Value>, n: nat) returns (r: seq<Value>)
    requires h.Valid() && WellFormedField(f) && n <= |items|
    requires forall k :: 0 <= k < |items| ==> ShapedValue(f, items[k])
    modifies h`live, h`wild
    ensures h.Valid() && Freed(h, BlocksItems(f, items, n))
    ensures r == ReleasedItems(f, items, n)
    decreases f, 1, 0
  {
    hide Arena.Valid, BlocksValue, ReleasedValue, ShapedValue, WellFormedField, ReleasedItems, BlocksItems;
    r := items;
    ReleasedItemsGrow(f, items);
    BlocksGrow(f, items);
    ghost var live := h.live;
    FreedNothing(live);
    for i := 0 to n
      invariant h.Valid() && Freed(h, BlocksItems(f, items, i))
      invariant r == ReleasedItems(f, items, i)
    {
      var v' := ReleaseValue(h, f, items[i]);
      FreedInTwo(live, BlocksItems(f, items, i), BlocksValue(f, items[i]));
      r := r[i := v'];
    }
  }

  lemma BlocksGrow(f: Field, items: seq<Value>)
    ensures BlocksItems(f, items, 0) == multiset{}
    ensures forall i :: 0 <= i < |items| ==>
              BlocksItems(f, items, i + 1) == BlocksItems(f, items, i) + BlocksValue(f, items[i])
  {
  }

  lemma ReleasedItemsGrow(f: Field, items: seq<Value>)
    ensures ReleasedItems(f, items, 0) == items
    ensures forall i :: 0 <= i < |items| ==>
              ReleasedItems(f, items, i + 1) == ReleasedItems(f, items, i)[i := ReleasedValue(f, items[i])]
  {
  }

  /** The used entries of a pointer array: submessages are released, strings and bytes freed. */
  method ReleaseEntries(h: Arena, f: Field, items: seq<Value>, n: nat)
    requires h.Valid() && WellFormedField(f) && n <= |items|
    requires forall k :: 0 <= k < n ==> ShapedItem(f, items[k])
    modifies h`live, h`wild
    ensures h.Valid() && Freed(h, BlocksItems(f, items, n))
    decreases f, 1, 0
  {
    hide Arena.Valid, WellFormedField, BlocksItems, BlocksValue, ShapedItem;
    BlocksGrow(f, items);
    ghost var live := h.live;
    FreedNothing(live);
    for i := 0 to n
      invariant h.Valid() && Freed(h, BlocksItems(f, items, i))
    {
      ReleaseEntry(h, f, items[i]);
      FreedInTwo(live, BlocksItems(f, items, i), BlocksValue(f, items[i]));
    }
  }

  method ReleaseEntry(h: Arena, f: Field, v: Value)
    requires h.Valid() && WellFormedField(f) && ShapedItem(f, v)
    modifies h`live, h`wild
    ensures h.Valid() && Freed(h, BlocksValue(f, v))
    decreases f, 0, 1
  {
    hide Arena.Valid, WellFormedField;
    FreedNothing(h.live);
    if f.ltype.Submessage? {
      var v' := ReleaseValue(h, f, v);
    } else if v.Ref? {
      h.Free(v.p);
    }
  }

  /** Releasing what was released already frees nothing and changes nothing. */
  method ReleaseAgain(h: Arena, fields: seq<Field>, m: Message) returns (m1: Message, m2: Message)
    requires h.Valid() && WellFormed(fields) && Shaped(fields, m)
    modifies h`live, h`wild
    ensures h.Valid() && Freed(h, Blocks(fields, m)) && m2 == m1 == Released(fields, m)
  {
    hide Arena.Valid, ReleasedFrom, BlocksFrom;
    m1 := ReleaseMessage(h, fields, m);
    ReleasedOwnsNothing(fields, m);
    ReleasedTwice(fields, m);
    FreedNothing(h.live);
    m2 := ReleaseMessage(h, fields, m1);
  }
}
