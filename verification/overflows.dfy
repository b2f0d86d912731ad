/** Where a struct has no room for what a message adds, decoding fails: room is not only enough but needed. */
module Overflows {
  import opened Wrappers
  import opened Wire
  import opened WireFacts
  import opened Descriptor
  import opened EncodeSpec
  import opened DecodeSpec
  import opened Agreement
  import opened Overlay
  import opened Merge
  import opened RecordRuns

  lemma KeyFails(narrow: seq<Field>, i: nat, wireType: nat, tag: nat, payload: bytes, st: State)
    requires i < |narrow| && Find(narrow, tag) == Some(i) && wireType < 8 && 1 <= tag < 0x2000_0000
    requires DecField(narrow, i, wireType, payload, st).Fail?
    ensures DecLoop(narrow, EncTag(wireType, tag) + payload, st).Bad?
  {
    hide EncTag, DecField, DecTag;
    TagRoundTrip(wireType, tag, payload);
    var key := EncTag(wireType, tag);
    assert (key + payload)[|key|..] == payload;
    assert DecTag(key + payload) == Ok(Key(tag, wireType), |key|);
    NothingIsNoKey();
  }

  lemma NothingIsNoKey()
    ensures DecTag([]).Fail?
  {
  }

  lemma ThenFails(narrow: seq<Field>, xs: bytes, ys: bytes, a: State, b: State)
    requires Runs(narrow, xs, a, b) && DecLoop(narrow, ys, b).Bad?
    ensures DecLoop(narrow, xs + ys, a).Bad?
  {
    hide DecLoop;
    RunsCompose(narrow, xs, ys, a, b);
  }

  // ---------------------------------------------------------------- Static arrays

  ghost predicate Crowded(count: nat, more: nat, limit: nat) {
    more > 0 && count + more > limit
  }

  lemma {:induction false} PackedOverflows(g: Field, f: Field, items: seq<Value>, c: nat, e: Entries)
    requires SendableField(g, f) && f.atype == Static && f.ltype.Packable() && ItemsConform(f, items)
    requires c <= |items| && Crowded(e.count, |items| - c, g.arraySize)
    requires EncPacked(f, items[c..]).Some? && |EncPacked(f, items[c..]).value| < WORD32
    ensures DecPacked(g, EncPacked(f, items[c..]).value, e) == None
    decreases |items| - c
  {
    hide EncValue, EncItem, DecValue, ItemsConform, SendableField;
    var v := items[c];
    assert items[c..][1..] == items[c + 1..];
    assert EncItem(f, v) == EncValue(f, v) by { StaticItem(f, v); }
    var b, rest := EncValue(f, v).value, EncPacked(f, items[c + 1..]).value;
    if e.count < g.arraySize && e.count < |e.items| {
      NumberDecodes(g, f, items, c, e.items[e.count]);
      ValuePrefix(g, b, rest, e.items[e.count]);
      assert (b + rest)[|b|..] == rest;
      var v' := DecValue(g, b, e.items[e.count]).value;
      PackedOverflows(g, f, items, c + 1, Entries(e.count + 1, e.items[e.count := v']));
    } else {
      NumberDecodes(g, f, items, c, Garbage);
    }
  }

  lemma NumberDecodes(g: Field, f: Field, items: seq<Value>, c: nat, prior: Value)
    requires SendableField(g, f) && f.atype == Static && f.ltype.Packable() && ItemsConform(f, items) && c < |items|
    requires EncValue(f, items[c]).Some? && |EncValue(f, items[c]).value| < WORD32
    ensures var b := EncValue(f, items[c]).value;
            b != [] && DecValue(g, b, prior).Ok? && DecValue(g, b, prior).used == |b|
  {
    hide EncValue, DecScalar;
    assert Content(f, items[c]) == items[c];
    ScalarDecodes(f, items[c]);
    SameScalar(g, f, EncValue(f, items[c]).value);
  }

  lemma {:induction false} EachOverflows(narrow: seq<Field>, i: nat, f: Field, items: seq<Value>, c: nat, e: Entries,
                                         st: State, tail: bytes)
    requires Holds(narrow, i, st, e) && Find(narrow, f.tag) == Some(i) && SendableField(narrow[i], f)
    requires narrow[i].htype == Repeated && f.atype == Static && !f.ltype.Packable()
    requires |e.items| == narrow[i].arraySize && forall k :: 0 <= k < |e.items| ==> ShapedValue(narrow[i], e.items[k])
    requires ItemsConform(f, items) && c <= |items| && Crowded(e.count, |items| - c, narrow[i].arraySize)
    requires EncEach(f, items[c..]).Some? && |EncEach(f, items[c..]).value| < WORD32
    ensures DecLoop(narrow, EncEach(f, items[c..]).value + tail, st).Bad?
    decreases |items| - c
  {
    hide EncValue, EncItem, DecValue, DecField, Runs, ItemsConform, SendableField, EncTag, ShapedValue, DecLoop;
    var g := narrow[i];
    SameKind(g, f);
    assert items[c..][1..] == items[c + 1..];
    assert EncItem(f, items[c]) == EncValue(f, items[c]) by { StaticItem(f, items[c]); }
    var b, rest, wt := EncValue(f, items[c]).value, EncEach(f, items[c + 1..]).value, WireTypeOf(f.ltype);
    assert EncEach(f, items[c..]).value + tail == EncTag(wt, f.tag) + (b + (rest + tail));
    if e.count < g.arraySize {
      OneEntry(g, f, items, c, e);
      var e1 := Entries(e.count + 1, e.items[e.count := DecValue(g, b, e.items[e.count]).value]);
      assert DecEntries(g, wt, b, e) == Ok(e1, |b|);
      EntriesStep(narrow, i, wt, b, st, e);
      var mid := WithEntries(narrow, i, st, e1);
      KeyRuns(narrow, i, wt, f.tag, b, st, mid);
      EachOverflows(narrow, i, f, items, c + 1, e1, mid, tail);
      assert EncTag(wt, f.tag) + (b + (rest + tail)) == (EncTag(wt, f.tag) + b) + (rest + tail);
      ThenFails(narrow, EncTag(wt, f.tag) + b, rest + tail, st, mid);
    } else {
      FullFails(narrow, i, wt, b + (rest + tail), st, e);
      KeyFails(narrow, i, wt, f.tag, b + (rest + tail), st);
    }
  }

  lemma OneEntry(g: Field, f: Field, items: seq<Value>, c: nat, e: Entries)
    requires SendableField(g, f) && f.atype == Static && g.htype == Repeated && ItemsConform(f, items) && c < |items|
    requires e.count < g.arraySize == |e.items| && forall k :: 0 <= k < |e.items| ==> ShapedValue(g, e.items[k])
    requires EncValue(f, items[c]).Some? && |EncValue(f, items[c]).value| < WORD32
    ensures var b := EncValue(f, items[c]).value;
            var r := DecValue(g, b, e.items[e.count]);
            r.Ok? && r.used == |b| && ShapedValue(g, r.value)
  {
    hide EncValue, DecValue, ConformsValue, OverlayValue, SendableField, ShapedValue;
    assert Content(f, items[c]) == items[c];
    StaticRoom(g, e.items[e.count], f, items[c]);
    ValueDecodes(g, f, items[c], e.items[e.count]);
  }

  lemma FullFails(narrow: seq<Field>, i: nat, wireType: nat, s: bytes, st: State, e: Entries)
    requires Holds(narrow, i, st, e) && narrow[i].htype == Repeated && e.count >= narrow[i].arraySize
    requires narrow[i].ltype.Packable() ==> wireType != WT_STRING
    ensures DecField(narrow, i, wireType, s, st).Fail?
  {
    hide DecValue;
    assert DecEntries(narrow[i], wireType, s, e).Fail?;
  }

  // ---------------------------------------------------------------- Heap arrays

  lemma {:induction false} GrowOverflows(g: Field, f: Field, items: seq<Value>, c: nat, acc: seq<Value>)
    requires SendableField(g, f) && f.atype == Pointer && g.htype == Repeated && f.ltype.Packable()
    requires ItemsConform(f, items) && c <= |items| && Crowded(|acc|, |items| - c, PB_SIZE_MAX)
    requires EncPacked(f, items[c..]).Some? && |EncPacked(f, items[c..]).value| < WORD32
    ensures EncPacked(f, items[c..]).value != [] && DecGrow(g, EncPacked(f, items[c..]).value, acc) == None
    decreases |items| - c
  {
    hide EncItem, DecEntry, ItemsConform, SendableField, Content;
    assert items[c..][1..] == items[c + 1..];
    var b, rest := EncItem(f, items[c]).value, EncPacked(f, items[c + 1..]).value;
    OneItem(g, f, items, c);
    assert b != [];
    if |acc| < PB_SIZE_MAX {
      EntryPrefix(g, b, rest);
      assert (b + rest)[|b|..] == rest;
      GrowOverflows(g, f, items, c + 1, acc + [DecEntry(g, b).value]);
    }
  }

  lemma OneItem(g: Field, f: Field, items: seq<Value>, c: nat)
    requires SendableField(g, f) && f.atype == Pointer && g.htype == Repeated && ItemsConform(f, items) && c < |items|
    requires EncItem(f, items[c]).Some? && |EncItem(f, items[c]).value| < WORD32
    ensures var b := EncItem(f, items[c]).value;
            var r := DecEntry(g, b);
            r.Ok? && r.used == |b| && b != []
  {
    hide EncValue, DecEntry, ConformsValue, OverlayValue, SendableField, ShapedItem, ShapedValue, Content;
    ItemEncodes(f, items[c]);
    EntryDecodes(g, f, Content(f, items[c]));
  }

  lemma {:induction false} EachAppendOverflows(narrow: seq<Field>, i: nat, f: Field, items: seq<Value>, c: nat,
                                               acc: seq<Value>, st: State, tail: bytes)
    requires HoldsItems(narrow, i, st, acc) && Find(narrow, f.tag) == Some(i) && SendableField(narrow[i], f)
    requires f.htype == Repeated && f.atype == Pointer && !f.ltype.Packable()
    requires ItemsConform(f, items) && c <= |items| && Crowded(|acc|, |items| - c, PB_SIZE_MAX)
    requires EncEach(f, items[c..]).Some? && |EncEach(f, items[c..]).value| < WORD32
    ensures DecLoop(narrow, EncEach(f, items[c..]).value + tail, st).Bad?
    decreases |items| - c
  {
    hide EncItem, DecEntry, DecField, Runs, ItemsConform, SendableField, EncTag, DecLoop, Content;
    var g := narrow[i];
    SameKind(g, f);
    assert items[c..][1..] == items[c + 1..];
    var b, rest, wt := EncItem(f, items[c]).value, EncEach(f, items[c + 1..]).value, WireTypeOf(f.ltype);
    assert EncEach(f, items[c..]).value + tail == EncTag(wt, f.tag) + (b + (rest + tail));
    OneItem(g, f, items, c);
    if |acc| < PB_SIZE_MAX {
      var acc1 := acc + [DecEntry(g, b).value];
      var mid := WithItems(narrow, i, st, acc1);
      AppendStep(narrow, i, wt, b, st, acc);
      KeyRuns(narrow, i, wt, f.tag, b, st, mid);
      EachAppendOverflows(narrow, i, f, items, c + 1, acc1, mid, tail);
      assert EncTag(wt, f.tag) + (b + (rest + tail)) == (EncTag(wt, f.tag) + b) + (rest + tail);
      ThenFails(narrow, EncTag(wt, f.tag) + b, rest + tail, st, mid);
    } else {
      CountedFails(narrow, i, wt, b + (rest + tail), st, acc);
      KeyFails(narrow, i, wt, f.tag, b + (rest + tail), st);
    }
  }

  lemma CountedFails(narrow: seq<Field>, i: nat, wireType: nat, s: bytes, st: State, acc: seq<Value>)
    requires HoldsItems(narrow, i, st, acc) && narrow[i].htype == Repeated && narrow[i].atype == Pointer
    requires |acc| >= PB_SIZE_MAX && !narrow[i].ltype.Packable()
    ensures DecField(narrow, i, wireType, s, st).Fail?
  {
    hide DecEntry;
    assert DecPointer(narrow[i], wireType, s, st.m[Addr(narrow, i)]).Fail?;
  }

  // ---------------------------------------------------------------- Any field

  lemma RunFieldFails(narrow: seq<Field>, i: nat, s: bytes, body: bytes, st: State)
    requires i < |narrow| && narrow[i].htype == Repeated && narrow[i].ltype.Packable() && Addr(narrow, i) in st.m
    requires DecString(s).Ok? && DecString(s).value == body && body != []
    requires var slot := st.m[Addr(narrow, i)];
             || (slot.Array? && !narrow[i].FixedCount()
                 && DecPacked(narrow[i], body, Entries(slot.count, slot.items)) == None)
             || (slot.PtrArray? && narrow[i].atype == Pointer
                 && DecGrow(narrow[i], body, InUse(slot.count, slot.p)) == None)
    ensures DecField(narrow, i, WT_STRING, s, st).Fail?
  {
    hide DecString, DecGrow, DecPacked, InUse;
    var g, slot := narrow[i], st.m[Addr(narrow, i)];
    if slot.Array? {
      assert DecEntries(g, WT_STRING, s, Entries(slot.count, slot.items)).Fail?;
    } else {
      assert DecPointer(g, WT_STRING, s, slot).Fail?;
    }
    assert DecSlot(narrow, g, WT_STRING, s, slot).Fail?;
  }

  /** A packed run that does not fit. */
  lemma RunFails(narrow: seq<Field>, i: nat, f: Field, body: bytes, st: State, tail: bytes)
    requires i < |narrow| && Find(narrow, f.tag) == Some(i) && 1 <= f.tag < 0x2000_0000 && |body| < WORD32
    requires narrow[i].htype == Repeated && narrow[i].ltype.Packable() && body != [] && Addr(narrow, i) in st.m
    requires var s := st.m[Addr(narrow, i)];
             || (s.Array? && narrow[i].atype == Static && !narrow[i].FixedCount()
                 && DecPacked(narrow[i], body, Entries(s.count, s.items)) == None)
             || (s.PtrArray? && narrow[i].atype == Pointer && DecGrow(narrow[i], body, InUse(s.count, s.p)) == None)
    ensures DecLoop(narrow, EncTag(WT_STRING, f.tag) + EncString(body) + tail, st).Bad?
  {
    hide DecLoop, EncTag, EncString, DecString, DecGrow, DecPacked, DecField;
    var payload := EncString(body) + tail;
    StringRoundTrip(body, tail);
    RunFieldFails(narrow, i, payload, body, st);
    assert EncTag(WT_STRING, f.tag) + EncString(body) + tail == EncTag(WT_STRING, f.tag) + payload;
    KeyFails(narrow, i, WT_STRING, f.tag, payload, st);
  }

  /** A submessage without room. */
  lemma {:induction false} ValueFails(g: Field, f: Field, v: Value, prior: Value, tail: bytes)
    requires SendableField(g, f) && ShapedValue(f, v) && ConformsValue(f, v)
    requires Over(g, prior) && !RoomValue(g, prior, f, v)
    requires EncValue(f, v).Some? && |EncValue(f, v).value| < WORD32
    ensures DecValue(g, EncValue(f, v).value + tail, prior).Fail?
    decreases f, 0
  {
    hide EncFrom, DecMessage, Room, Shaped, Conforms, WellFormed, SmallTags, Evolves, EncVarint, DecVarint32;
    var n, w := g.ltype.fields, f.ltype.fields;
    var payload := EncMessage(w, v.slots).value;
    StringRoundTrip(payload, tail);
    NoRoomFails(n, w, v.slots, prior.slots);
  }

  lemma {:induction false} PresentFails(narrow: seq<Field>, i: nat, s0: Slot, f: Field, s: Slot, v: Value, st: State,
                                        tail: bytes)
    requires i < |narrow| && Find(narrow, f.tag) == Some(i) && SendableField(narrow[i], f)
    requires Addr(narrow, i) in st.m && st.m[Addr(narrow, i)] == s0
    requires ShapedSlot(narrow[i], s0) && !RoomSlot(narrow[i], s0, f, s)
    requires ShapedSlot(f, s) && (s == Plain(v) || s == Has(true, v)) && ConformsValue(f, v)
    requires EncPresent(f, v).Some? && |EncPresent(f, v).value| < WORD32
    ensures DecLoop(narrow, EncPresent(f, v).value + tail, st).Bad?
    decreases f, 1
  {
    hide EncValue, DecValue, ConformsValue, RoomValue, ShapedValue, EncTag, DecLoop, IsDefaultValue;
    var g, b, wt := narrow[i], EncValue(f, v).value, WireTypeOf(f.ltype);
    SameKind(g, f);
    assert Over(g, s0.v);
    ValueFails(g, f, v, s0.v, tail);
    assert DecSlot(narrow, g, wt, b + tail, s0).Fail?;
    assert EncPresent(f, v).value + tail == EncTag(wt, f.tag) + (b + tail);
    KeyFails(narrow, i, wt, f.tag, b + tail, st);
  }

  /** A union that holds a tag the message does not have cannot be released. */
  lemma UnionFails(narrow: seq<Field>, i: nat, s0: Slot, f: Field, v: Value, st: State, tail: bytes)
    requires i < |narrow| && Find(narrow, f.tag) == Some(i) && SendableField(narrow[i], f)
    requires Addr(narrow, i) in st.m && st.m[Addr(narrow, i)] == s0 && s0.Union? && narrow[i].htype == Oneof
    requires s0.which != f.tag && !ValidWhich(narrow, s0.which)
    requires EncPresent(f, v).Some?
    ensures DecLoop(narrow, EncPresent(f, v).value + tail, st).Bad?
  {
    hide EncValue, DecValue, EncTag, DecLoop, ValidWhich;
    var g, b, wt := narrow[i], EncValue(f, v).value, WireTypeOf(f.ltype);
    SameKind(g, f);
    assert DecSlot(narrow, g, wt, b + tail, s0).Fail?;
    assert EncPresent(f, v).value + tail == EncTag(wt, f.tag) + (b + tail);
    KeyFails(narrow, i, wt, f.tag, b + tail, st);
  }

  lemma {:induction false} ArrayFails(narrow: seq<Field>, i: nat, f: Field, count: nat, items: seq<Value>, st: State,
                                      tail: bytes)
    requires i < |narrow| && Find(narrow, f.tag) == Some(i) && SendableField(narrow[i], f)
    requires Addr(narrow, i) in st.m && ShapedSlot(narrow[i], st.m[Addr(narrow, i)])
    requires narrow[i].htype == Repeated && 0 < count <= |items| && ItemsConform(f, items[..count])
    requires var s := st.m[Addr(narrow, i)];
             || (s.Array? && f.atype == Static && s.count + count > narrow[i].arraySize)
             || (s.PtrArray? && f.atype == Pointer && s.count + count > PB_SIZE_MAX)
    requires var b := EncArray(f, count, items); b.Some? && |b.value| < WORD32
    ensures DecLoop(narrow, EncArray(f, count, items).value + tail, st).Bad?
  {
    hide EncPacked, EncEach, DecLoop, EncTag, ItemsConform, ShapedValue, ShapedItem, SendableField, DecGrow, DecPacked;
    var g, s, used := narrow[i], st.m[Addr(narrow, i)], items[..count];
    SameKind(g, f);
    assert used[0..] == used;
    if f.ltype.Packable() {
      var body := EncPacked(f, used).value;
      if s.Array? {
        PackedOverflows(g, f, used, 0, Entries(s.count, s.items));
        assert body != [] by { if body == [] { EmptyRunFits(g, Entries(s.count, s.items)); } }
      } else {
        GrowOverflows(g, f, used, 0, InUse(s.count, s.p));
      }
      RunFails(narrow, i, f, body, st, tail);
    } else if s.Array? {
      EachOverflows(narrow, i, f, used, 0, Entries(s.count, s.items), st, tail);
    } else {
      EachAppendOverflows(narrow, i, f, used, 0, InUse(s.count, s.p), st, tail);
    }
  }

  lemma EmptyRunFits(g: Field, e: Entries)
    ensures DecPacked(g, [], e) == Some(e)
  {
  }

  lemma {:induction false} SlotFails(narrow: seq<Field>, i: nat, s0: Slot, f: Field, s: Slot, st: State, tail: bytes)
    requires i < |narrow| && Find(narrow, f.tag) == Some(i) && SendableField(narrow[i], f)
    requires Addr(narrow, i) in st.m && st.m[Addr(narrow, i)] == s0
    requires ShapedSlot(narrow[i], s0) && (!RoomSlot(narrow[i], s0, f, s) || !RoomUnion(narrow, s0, f, s))
    requires ShapedSlot(f, s) && ConformsSlot(f, s)
    requires EncSlot(f, s).Some? && |EncSlot(f, s).value| < WORD32
    ensures DecLoop(narrow, EncSlot(f, s).value + tail, st).Bad?
    decreases f, 2
  {
    hide EncPresent, EncPacked, EncEach, ConformsValue, RoomValue, ShapedValue, IsDefaultValue, ShapedItem,
      Content, DecLoop, ItemsConform;
    SameKind(narrow[i], f);
    match s {
      case Plain(v) => PresentFails(narrow, i, s0, f, s, v, st, tail);
      case Has(_, v) => PresentFails(narrow, i, s0, f, s, v, st, tail);
      case Union(_, v) => UnionFails(narrow, i, s0, f, v, st, tail);
      case Array(count, items) =>
        StaticItemsConform(f, items, count);
        ArrayFails(narrow, i, f, count, items, st, tail);
      case PtrArray(count, p) =>
        HeapArrayConforms(f, count, p);
        ArrayFails(narrow, i, f, count, HeapItems(p), st, tail);
    }
  }

  // ---------------------------------------------------------------- Whole messages

  /** Field `k` of the sender or a later one has no room. */
  ghost predicate NoRoomFrom(narrow: seq<Field>, base: Message, wide: seq<Field>, m: Message, k: nat) {
    exists j :: k <= j < |wide| && !RoomFor(narrow, base, wide, m, j)
  }

  lemma {:induction false} FieldsFail(narrow: seq<Field>, base: Message, wide: seq<Field>, m: Message, k: nat,
                                      st: State)
    requires Sendable(narrow, wide, m) && Shaped(narrow, base)
    requires k < |wide| && NoRoomFrom(narrow, base, wide, m, k) && Progress(narrow, base, st, wide, m, k)
    requires EncFrom(wide, m, k).Some? && |EncFrom(wide, m, k).value| < WORD32
    ensures DecLoop(narrow, EncFrom(wide, m, k).value, st).Bad?
    decreases wide, |wide| - k
  {
    hide Runs, EncSlot, Progress, Sendable, SendableField, Shaped, RoomSlot, RoomUnion, RoomFor, DecLoop, Pending, Addr,
      Find;
    var here, rest := EncSlot(wide[k], m[Addr(wide, k)]).value, EncFrom(wide, m, k + 1).value;
    SentAt(narrow, wide, m, k);
    if RoomFor(narrow, base, wide, m, k) {
      var mid := FieldRuns(narrow, base, wide, m, k, st);
      FieldsFail(narrow, base, wide, m, k + 1, mid);
      ThenFails(narrow, here, rest, st, mid);
    } else {
      var i := NoRoomHere(narrow, base, wide, m, k);
      SameField(narrow, wide, m, k, i);
      PendingAt(narrow, base, st, wide, m, k, i);
      NoUnion(narrow, narrow[i], base[Addr(narrow, i)], st.m[Addr(narrow, i)], wide[k], m[Addr(wide, k)]);
      SlotFails(narrow, i, base[Addr(narrow, i)], wide[k], m[Addr(wide, k)], st, rest);
    }
  }

  lemma NoRoomHere(narrow: seq<Field>, base: Message, wide: seq<Field>, m: Message, k: nat) returns (i: nat)
    requires Sendable(narrow, wide, m) && Shaped(narrow, base)
    requires k < |wide| && Addr(wide, k) in m && !RoomFor(narrow, base, wide, m, k)
    ensures Find(narrow, wide[k].tag) == Some(i) && i < |narrow| && Addr(narrow, i) in base
    ensures !RoomSlot(narrow[i], base[Addr(narrow, i)], wide[k], m[Addr(wide, k)])
            || !RoomUnion(narrow, base[Addr(narrow, i)], wide[k], m[Addr(wide, k)])
  {
    hide RoomSlot, RoomUnion, ShapedSlot, Addr;
    i := Find(narrow, wide[k].tag).value;
  }

  lemma NoUnion(narrow: seq<Field>, g: Field, s0: Slot, s1: Slot, f: Field, s: Slot)
    requires Pending(g, s0, s1, f, s) && (!RoomSlot(g, s0, f, s) || !RoomUnion(narrow, s0, f, s))
    ensures s1 == s0
  {
  }

  lemma {:induction false} NoRoomFails(narrow: seq<Field>, wide: seq<Field>, m: Message, base: Message)
    requires Sendable(narrow, wide, m) && Shaped(narrow, base) && !Room(narrow, base, wide, m)
    requires EncMessage(wide, m).Some? && |EncMessage(wide, m).value| < WORD32
    ensures DecMessage(narrow, EncMessage(wide, m).value, base) == None
    decreases wide, |wide| + 1
  {
    hide Sendable, Shaped, Progress, DecLoop, RoomSlot, Addr;
    ProgressStarts(narrow, wide, m, base);
    var i :| 0 <= i < |narrow| && Find(wide, narrow[i].tag).Some? && Addr(narrow, i) in base
             && Addr(wide, Partner(narrow, wide, i)) in m
             && (!RoomSlot(narrow[i], base[Addr(narrow, i)], wide[Partner(narrow, wide, i)],
                           m[Addr(wide, Partner(narrow, wide, i))])
                 || !RoomUnion(narrow, base[Addr(narrow, i)], wide[Partner(narrow, wide, i)],
                               m[Addr(wide, Partner(narrow, wide, i))]));
    var j := Partner(narrow, wide, i);
    assert Find(narrow, wide[j].tag) == Some(i) by { SendableNarrow(narrow, wide, m); RegularField(narrow, i); }
    assert !RoomFor(narrow, base, wide, m, j);
    FieldsFail(narrow, base, wide, m, 0, Start(base));
  }

  lemma SendableNarrow(narrow: seq<Field>, wide: seq<Field>, m: Message)
    requires Sendable(narrow, wide, m)
    ensures WellFormed(narrow)
  {
  }

  /** A message is accepted over a struct, whatever it holds, if and only if there is room for what it adds. */
  lemma AcceptedIff(narrow: seq<Field>, wide: seq<Field>, m: Message, base: Message)
    requires Sendable(narrow, wide, m) && Shaped(narrow, base)
    requires EncMessage(wide, m).Some? && |EncMessage(wide, m).value| < WORD32
    ensures DecMessage(narrow, EncMessage(wide, m).value, base).Some? <==> Room(narrow, base, wide, m)
  {
    hide Sendable, Shaped, Room, EncFrom, DecMessage;
    if Room(narrow, base, wide, m) {
      var m' := MessageDecodes(narrow, wide, m, base);
    } else {
      NoRoomFails(narrow, wide, m, base);
    }
  }
}
