/** What the records of an encoded message do to a struct, whatever it holds, that the same descriptor or one
    with fewer fields describes: they overlay it. */
module RecordRuns {
  import opened Wrappers
  import opened Wire
  import opened WireFacts
  import opened Descriptor
  import opened EncodeSpec
  import opened DecodeSpec
  import opened Agreement
  import opened Overlay
  import opened Merge
  import opened FieldIterator

  // ---------------------------------------------------------------- Scalars and strings

  lemma {:induction false} CStringIsIdempotent(s: bytes, max: nat, max': nat)
    requires |CString(s, max)| <= max'
    ensures CString(CString(s, max), max') == CString(s, max)
  {
    if s != [] && s[0] != 0 && max > 0 {
      assert CString(s, max)[1..] == CString(s[1..], max - 1);
      CStringIsIdempotent(s[1..], max - 1, max' - 1);
    }
  }

  /** `pb_dec_varint` gets back what `pb_enc_varint` casts to an unsigned word. */
  lemma SignedOfUnsigned(f: Field, i: int)
    requires IntegerSize(f.dataSize)
    requires var half: int := SignBit(f.dataSize); -half <= i < half
    ensures ToUnsigned64(i) < WORD64 && SignedOfVarint(f, ToUnsigned64(i)) == i
  {
  }

  lemma IntegersDecode(f: Field, v: Value)
    requires f.ltype.Varint? || f.ltype.Uvarint? || f.ltype.Svarint? || f.ltype.Bool?
    requires v.Int? && ConformsValue(f, v) && EncValue(f, v).Some?
    ensures var b, r := EncValue(f, v).value, DecScalar(f, EncValue(f, v).value);
            r.Ok? && r.used == |b| && r.value.Int? && AgreeValue(f, r.value, f, v)
  {
    hide EncVarint, Groups, Varint32Tail;
    match f.ltype {
      case Bool =>
        Varint32RoundTrip(if v.i != 0 then 1 else 0, []);
        assert EncValue(f, v).value + [] == EncValue(f, v).value;
      case Varint =>
        SignedOfUnsigned(f, v.i);
        VarintRoundTrip(ToUnsigned64(v.i), []);
        assert EncValue(f, v).value + [] == EncValue(f, v).value;
      case Uvarint =>
        assert ToUnsigned64(v.i) == v.i;
        VarintRoundTrip(v.i, []);
        assert EncValue(f, v).value + [] == EncValue(f, v).value;
      case Svarint =>
        SvarintRoundTrip(v.i, []);
        assert EncValue(f, v).value + [] == EncValue(f, v).value;
    }
  }

  lemma FixedDecodes(f: Field, v: Value)
    requires f.ltype.Fixed32? || f.ltype.Fixed64?
    requires v.Int? && ConformsValue(f, v)
    ensures EncValue(f, v).Some?
    ensures var b := EncValue(f, v).value; DecScalar(f, b) == Ok(v, |b|)
  {
    hide EncFixed, FixedValue;
    var k := if f.ltype.Fixed32? then 4 else 8;
    PowersOfTwo();
    FixedRoundTrip(v.i, k);
    assert EncFixed(v.i, k)[..k] == EncFixed(v.i, k);
  }

  lemma PayloadDecodes(f: Field, v: Value)
    requires f.ltype.Bytes? || f.ltype.String? || f.ltype.FixedLengthBytes?
    requires !OwnPointer(f) && f.dataSize <= PB_SIZE_MAX
    requires v.Data? && ConformsValue(f, v) && EncValue(f, v).Some?
    ensures var b, r := EncValue(f, v).value, DecScalar(f, EncValue(f, v).value);
            r.Ok? && r.used == |b| && r.value.Data? && AgreeValue(f, r.value, f, v)
  {
    hide EncVarint, Varint32Tail, CString;
    var payload := if f.ltype.String? then StringOf(f, v.bytes) else v.bytes;
    assert EncValue(f, v).value == EncString(payload);
    StringRoundTrip(payload, []);
    assert EncString(payload) + [] == EncString(payload);
    if f.ltype.String? { CStringIsIdempotent(v.bytes, f.dataSize, f.dataSize); }
    if f.ltype.FixedLengthBytes? && payload == [] { assert Repeat(0, f.dataSize) == payload; }
  }

  lemma ScalarDecodes(f: Field, v: Value)
    requires !f.ltype.Submessage? && !f.ltype.Extension? && !OwnPointer(f) && f.dataSize <= PB_SIZE_MAX
    requires ShapedValue(f, v) && ConformsValue(f, v) && EncValue(f, v).Some?
    ensures var b, r := EncValue(f, v).value, DecScalar(f, EncValue(f, v).value);
            r.Ok? && r.used == |b| && ShapedValue(f, r.value) && AgreeValue(f, r.value, f, v)
  {
    hide EncValue, DecScalar;
    match f.ltype {
      case Bool | Varint | Uvarint | Svarint => IntegersDecode(f, v);
      case Fixed32 | Fixed64 => FixedDecodes(f, v);
      case Bytes | String | FixedLengthBytes => PayloadDecodes(f, v);
    }
  }

  /** Strings and bytes that their own decoders allocate. */
  lemma OwnedDecodes(f: Field, v: Value)
    requires OwnPointer(f) && ShapedValue(f, v) && ConformsValue(f, v) && EncValue(f, v).Some?
    ensures var b, r := EncValue(f, v).value, DecOwned(f, EncValue(f, v).value);
            r.Ok? && r.used == |b| && r.value.Data? && AgreeValue(f, r.value, f, v)
  {
    hide EncVarint, Varint32Tail, CString;
    var payload := if f.ltype.String? then StringOf(f, v.bytes) else v.bytes;
    assert EncValue(f, v).value == EncString(payload);
    StringRoundTrip(payload, []);
    assert EncString(payload) + [] == EncString(payload);
    if f.ltype.String? { CStringIsIdempotent(v.bytes, |v.bytes|, |payload|); }
  }

  /** A deleted field's payload is skipped to its last byte. */
  lemma ValueSkips(f: Field, v: Value)
    requires EncValue(f, v).Some? && |EncValue(f, v).value| < WORD32
    ensures var b := EncValue(f, v).value; Skip(b, WireTypeOf(f.ltype)) == Ok((), |b|)
  {
    hide EncVarint, Varint32Tail, EncFixed, CString;
    var b := EncValue(f, v).value;
    assert b + [] == b;
    match f.ltype {
      case Bool => VarintSkips(if IntOf(v) != 0 then 1 else 0);
      case Varint | Uvarint => VarintSkips(ToUnsigned64(IntOf(v)));
      case Svarint => VarintSkips(ZigZag(IntOf(v)));
      case Fixed32 | Fixed64 =>
      case Bytes => StringRoundTrip(v.bytes, []);
      case String => StringRoundTrip(StringOf(f, v.bytes), []);
      case FixedLengthBytes => StringRoundTrip(v.bytes, []);
      case Submessage(fields) => StringRoundTrip(EncMessage(fields, v.slots).value, []);
    }
  }

  lemma {:induction false} VarintSkips(w: nat)
    ensures SkipVarint(EncVarint(w)) == Ok((), |EncVarint(w)|)
  {
    if w >= 128 {
      assert EncVarint(w)[1..] == EncVarint(w / 128);
      VarintSkips(w / 128);
    }
  }

  // ---------------------------------------------------------------- Records of one field

  /** A key and its payload run as the field the key names. */
  lemma KeyRuns(narrow: seq<Field>, i: nat, wireType: nat, tag: nat, payload: bytes, st: State, st': State)
    requires i < |narrow| && Find(narrow, tag) == Some(i) && wireType < 8 && 1 <= tag < 0x2000_0000
    requires DecField(narrow, i, wireType, payload, st) == Ok(st', |payload|)
    ensures Runs(narrow, EncTag(wireType, tag) + payload, st, st')
  {
    hide EncTag, DecField, DecTag;
    TagRoundTrip(wireType, tag, payload);
    var key := EncTag(wireType, tag);
    assert (key + payload)[|key|..] == payload;
    assert payload[|payload|..] == [];
    assert DecLoop(narrow, [], st') == Done(st', 0, false);
  }

  /** A key of no field runs to nothing. */
  lemma RecordSkips(narrow: seq<Field>, wireType: nat, tag: nat, payload: bytes, st: State)
    requires Find(narrow, tag) == None && wireType < 8 && 1 <= tag < 0x2000_0000
    requires Skip(payload, wireType) == Ok((), |payload|)
    ensures Runs(narrow, EncTag(wireType, tag) + payload, st, st)
  {
    hide EncTag, DecTag;
    TagRoundTrip(wireType, tag, payload);
    var key := EncTag(wireType, tag);
    assert (key + payload)[|key|..] == payload;
    assert payload[|payload|..] == [];
    assert DecLoop(narrow, [], st) == Done(st, 0, false);
  }

  lemma RunsThen(narrow: seq<Field>, xs: bytes, ys: bytes, a: State, b: State, c: State)
    requires Runs(narrow, xs, a, b) && Runs(narrow, ys, b, c)
    ensures Runs(narrow, xs + ys, a, c)
  {
    RunsCompose(narrow, xs, ys, a, b);
  }

  lemma EmptyRuns(narrow: seq<Field>, st: State)
    ensures Runs(narrow, [], st, st)
  {
  }

  // ---------------------------------------------------------------- Deleted fields

  lemma SlotSkips(narrow: seq<Field>, f: Field, s: Slot, st: State)
    requires Find(narrow, f.tag) == None && 1 <= f.tag < 0x2000_0000
    requires EncSlot(f, s).Some? && |EncSlot(f, s).value| < WORD32 && ShapedSlot(f, s)
    ensures Runs(narrow, EncSlot(f, s).value, st, st)
  {
    EmptyRuns(narrow, st);
    match s {
      case Plain(v) => if EncSlot(f, s).value != [] { PresentSkips(narrow, f, v, st); }
      case Has(has, v) => if has { PresentSkips(narrow, f, v, st); }
      case Union(which, v) => if which == f.tag { PresentSkips(narrow, f, v, st); }
      case Array(count, items) =>
        if count > 0 {
          assert items[..count][..count] == items[..count];
          ArraySkips(narrow, f, items[..count], st);
        }
      case FixedArray(items) => if f.arraySize > 0 { ArraySkips(narrow, f, items, st); }
      case Ptr(p) => if p.Block? { PresentSkips(narrow, f, p.items[0], st); }
      case PtrArray(count, p) =>
        if count > 0 {
          assert p.items[..count][..count] == p.items[..count];
          ArraySkips(narrow, f, p.items[..count], st);
        }
    }
  }

  lemma PresentSkips(narrow: seq<Field>, f: Field, v: Value, st: State)
    requires Find(narrow, f.tag) == None && 1 <= f.tag < 0x2000_0000
    requires EncPresent(f, v).Some? && |EncPresent(f, v).value| < WORD32
    ensures Runs(narrow, EncPresent(f, v).value, st, st)
  {
    hide Runs, EncTag, EncValue, Skip;
    ValueSkips(f, v);
    RecordSkips(narrow, WireTypeOf(f.ltype), f.tag, EncValue(f, v).value, st);
  }

  lemma ArraySkips(narrow: seq<Field>, f: Field, items: seq<Value>, st: State)
    requires Find(narrow, f.tag) == None && 1 <= f.tag < 0x2000_0000
    requires var b := EncArray(f, |items|, items); b.Some? && |b.value| < WORD32
    ensures Runs(narrow, EncArray(f, |items|, items).value, st, st)
  {
    hide Runs, EncTag, EncVarint, Skip;
    EmptyRuns(narrow, st);
    assert items[..|items|] == items;
    if items != [] {
      if f.ltype.Packable() {
        var body := EncPacked(f, items).value;
        StringSkips(body);
        RecordSkips(narrow, WT_STRING, f.tag, EncString(body), st);
      } else {
        EachSkips(narrow, f, items, st);
      }
    }
  }

  lemma StringSkips(body: bytes)
    requires |body| < WORD32
    ensures Skip(EncString(body), WT_STRING) == Ok((), |EncString(body)|)
  {
    StringRoundTrip(body, []);
    assert EncString(body) + [] == EncString(body);
  }

  lemma {:induction false} EachSkips(narrow: seq<Field>, f: Field, items: seq<Value>, st: State)
    requires Find(narrow, f.tag) == None && 1 <= f.tag < 0x2000_0000
    requires EncEach(f, items).Some? && |EncEach(f, items).value| < WORD32
    ensures Runs(narrow, EncEach(f, items).value, st, st)
  {
    hide Runs, EncTag, EncValue, Skip;
    EmptyRuns(narrow, st);
    if items != [] {
      ItemEncodes(f, items[0]);
      var head := EncPresent(f, Content(f, items[0])).value;
      PresentSkips(narrow, f, Content(f, items[0]), st);
      EachSkips(narrow, f, items[1..], st);
      RunsThen(narrow, head, EncEach(f, items[1..]).value, st, st, st);
    }
  }

  // ---------------------------------------------------------------- Kept fields

  /** What the two descriptors and the message must satisfy. */
  ghost predicate Sendable(narrow: seq<Field>, wide: seq<Field>, m: Message) {
    && WellFormed(narrow)
    && WellFormed(wide) && SmallTags(wide)
    && Evolves(narrow, wide)
    && Conforms(wide, m)
  }

  ghost predicate SendableField(g: Field, f: Field) {
    && WellFormedField(g)
    && WellFormedField(f) && SmallTagsField(f)
    && Compatible(g, f)
  }

  /** What the field's values may be decoded over. */
  ghost predicate Over(g: Field, prior: Value) {
    g.ltype.Submessage? ==> ShapedValue(g, prior)
  }

  lemma {:induction false} ValueDecodes(g: Field, f: Field, v: Value, prior: Value)
    requires SendableField(g, f) && Over(g, prior) && !OwnPointer(f)
    requires ShapedValue(f, v) && ConformsValue(f, v) && RoomValue(g, prior, f, v)
    requires EncValue(f, v).Some? && |EncValue(f, v).value| < WORD32
    ensures var b := EncValue(f, v).value;
            var r := DecValue(g, b, prior);
            r.Ok? && r.used == |b| && ShapedValue(g, r.value) && OverlayValue(g, prior, r.value, f, v)
    decreases f, 1
  {
    hide EncFrom, SetDefaults, DecLoop, DecScalar, Shaped, Conforms, WellFormed, SmallTags, Evolves, Overlays, Room,
      AtDefault, SignBit, StringOf, Agrees;
    if f.ltype.Submessage? {
      var n, w := g.ltype.fields, f.ltype.fields;
      var payload := EncMessage(w, v.slots).value;
      StringRoundTrip(payload, []);
      assert EncString(payload) + [] == EncString(payload);
      var base := Base(g, prior.slots);
      if g.htype == Repeated {
        DefaultsAtDefault(n, prior.slots);
        DefaultHasRoom(n, base, w, v.slots);
      }
      var m' := MessageDecodes(n, w, v.slots, base);
    } else {
      ScalarDecodes(f, v);
      SameScalar(g, f, EncValue(f, v).value);
    }
  }

  lemma SameScalar(g: Field, f: Field, b: bytes)
    requires Compatible(g, f) && !f.ltype.Submessage?
    ensures DecScalar(g, b) == DecScalar(f, b)
    ensures forall v', v :: AgreeValue(g, v', f, v) <==> AgreeValue(f, v', f, v)
    ensures forall v', v0, v :: OverlayValue(g, v0, v', f, v) <==> AgreeValue(f, v', f, v)
  {
    hide DecVarint32, DecVarint, DecFixed, DecString;
  }

  lemma SameKind(g: Field, f: Field)
    requires SendableField(g, f)
    ensures 1 <= f.tag < 0x2000_0000 && f.atype == g.atype && g.htype == f.htype
    ensures (g.ltype.Packable() <==> f.ltype.Packable()) && g.arraySize == f.arraySize
    ensures (g.ltype.Submessage? <==> f.ltype.Submessage?) && (OwnPointer(g) <==> OwnPointer(f))
    ensures f.ltype.Packable() ==> !f.ltype.Submessage? && !OwnPointer(f) && WireTypeOf(f.ltype) != WT_STRING
  {
  }

  // ---------------------------------------------------------------- Static arrays

  ghost predicate ItemsConform(f: Field, items: seq<Value>) {
    forall k :: 0 <= k < |items| ==> ShapedValue(f, Content(f, items[k])) && ConformsValue(f, Content(f, items[k]))
  }

  /** `c` of the items are behind the entries that `e0` has; the memory of the others is as it was. */
  ghost predicate EntriesAfter(g: Field, e0: Entries, e: Entries, f: Field, items: seq<Value>, c: nat) {
    && c <= |items| && e.count == e0.count + c && e0.count + |items| <= |e0.items| == |e.items| == g.arraySize
    && (forall k :: 0 <= k < |e.items| ==> ShapedValue(g, e.items[k]))
    && (forall k :: 0 <= k < |e.items| && !(e0.count <= k < e.count) ==> e.items[k] == e0.items[k])
    && (forall k :: 0 <= k < c ==> OverlayValue(g, e0.items[e0.count + k], e.items[e0.count + k], f, items[k]))
  }

  lemma NoEntriesYet(g: Field, e0: Entries, f: Field, items: seq<Value>)
    requires e0.count + |items| <= |e0.items| == g.arraySize
    requires forall k :: 0 <= k < |e0.items| ==> ShapedValue(g, e0.items[k])
    ensures EntriesAfter(g, e0, e0, f, items, 0)
  {
  }

  /** One more entry. */
  lemma {:induction false} EntryDecoded(g: Field, e0: Entries, e: Entries, f: Field, items: seq<Value>, c: nat)
    requires SendableField(g, f) && f.atype == Static && g.htype == Repeated
    requires EntriesAfter(g, e0, e, f, items, c) && c < |items| && ItemsConform(f, items)
    requires EncValue(f, items[c]).Some? && |EncValue(f, items[c]).value| < WORD32
    ensures EncItem(f, items[c]) == EncValue(f, items[c])
    ensures var b := EncValue(f, items[c]).value;
            var r := DecValue(g, b, e.items[e.count]);
            && r.Ok? && r.used == |b|
            && EntriesAfter(g, e0, Entries(e.count + 1, e.items[e.count := r.value]), f, items, c + 1)
    decreases f, 2
  {
    hide EncValue, DecValue, ConformsValue, OverlayValue, SendableField, ShapedValue;
    assert Content(f, items[c]) == items[c];
    StaticRoom(g, e.items[e.count], f, items[c]);
    ValueDecodes(g, f, items[c], e.items[e.count]);
  }

  lemma StaticRoom(g: Field, prior: Value, f: Field, v: Value)
    requires g.htype == Repeated
    ensures RoomValue(g, prior, f, v) && (ShapedValue(g, prior) ==> Over(g, prior))
  {
  }

  lemma {:induction false} PackedDecodes(g: Field, f: Field, items: seq<Value>, c: nat, e0: Entries, e: Entries)
    returns (e': Entries)
    requires SendableField(g, f) && g.htype == Repeated && f.atype == Static && f.ltype.Packable()
    requires EntriesAfter(g, e0, e, f, items, c) && ItemsConform(f, items)
    requires EncPacked(f, items[c..]).Some? && |EncPacked(f, items[c..]).value| < WORD32
    ensures DecPacked(g, EncPacked(f, items[c..]).value, e) == Some(e')
    ensures EntriesAfter(g, e0, e', f, items, |items|)
    decreases f, 3, |items| - c
  {
    hide EncValue, EncItem, DecValue, ItemsConform, OverlayValue, SendableField, ShapedValue;
    if c == |items| {
      e' := e;
    } else {
      var prior := e.items[e.count];
      assert items[c..][1..] == items[c + 1..];
      assert EncItem(f, items[c]) == EncValue(f, items[c]) by { StaticItem(f, items[c]); }
      var b, rest := EncValue(f, items[c]).value, EncPacked(f, items[c + 1..]).value;
      EntryDecoded(g, e0, e, f, items, c);
      ValuePrefix(g, b, rest, prior);
      var v' := DecValue(g, b, prior).value;
      assert (b + rest)[|b|..] == rest;
      e' := PackedDecodes(g, f, items, c + 1, e0, Entries(e.count + 1, e.items[e.count := v']));
    }
  }

  lemma StaticItem(f: Field, v: Value)
    requires f.atype == Static
    ensures EncItem(f, v) == EncValue(f, v)
  {
  }

  /** The entries of array field `i` in a state of the loop, with its counter. */
  ghost predicate Holds(narrow: seq<Field>, i: nat, st: State, e: Entries) {
    && i < |narrow| && Addr(narrow, i) in st.m
    && if narrow[i].FixedCount() then
         && st.m[Addr(narrow, i)] == FixedArray(e.items)
         && (if st.fixed == Some(i) then st.fixedSize == e.count else e.count == 0 && FixedComplete(narrow, st))
       else st.m[Addr(narrow, i)] == Array(e.count, e.items)
  }

  function WithEntries(narrow: seq<Field>, i: nat, st: State, e: Entries): State
    requires i < |narrow|
  {
    if narrow[i].FixedCount() then
      State(st.m[Addr(narrow, i) := FixedArray(e.items)], st.seen, Some(i), e.count)
    else
      State(st.m[Addr(narrow, i) := Array(e.count, e.items)], st.seen, st.fixed, st.fixedSize)
  }

  lemma EntriesStep(narrow: seq<Field>, i: nat, wireType: nat, s: bytes, st: State, e: Entries)
    requires Holds(narrow, i, st, e) && narrow[i].htype == Repeated
    requires DecEntries(narrow[i], wireType, s, e).Ok?
    ensures var r := DecEntries(narrow[i], wireType, s, e);
            && DecField(narrow, i, wireType, s, st) == Ok(WithEntries(narrow, i, st, r.value), r.used)
            && Holds(narrow, i, WithEntries(narrow, i, st, r.value), r.value)
  {
    hide DecEntries;
    assert st.seen + {} == st.seen;
  }

  lemma LastEntriesCount(narrow: seq<Field>, i: nat, st: State, e: Entries, e': Entries)
    requires i < |narrow|
    ensures WithEntries(narrow, i, WithEntries(narrow, i, st, e), e') == WithEntries(narrow, i, st, e')
  {
  }

  /** Entries with a key each; numbers may come so too, whoever wrote them. */
  lemma {:induction false} EachRuns(narrow: seq<Field>, i: nat, f: Field, items: seq<Value>, c: nat, e0: Entries,
                                    e: Entries, st: State)
    returns (e': Entries, st': State)
    requires Holds(narrow, i, st, e) && Find(narrow, f.tag) == Some(i) && SendableField(narrow[i], f)
    requires narrow[i].htype == Repeated && f.atype == Static
    requires EntriesAfter(narrow[i], e0, e, f, items, c) && ItemsConform(f, items)
    requires EncEach(f, items[c..]).Some? && |EncEach(f, items[c..]).value| < WORD32
    ensures Runs(narrow, EncEach(f, items[c..]).value, st, st')
    ensures EntriesAfter(narrow[i], e0, e', f, items, |items|)
    ensures st' == if c == |items| then st else WithEntries(narrow, i, st, e')
    ensures c == |items| ==> e' == e
    decreases f, 3, |items| - c
  {
    hide EncValue, EncItem, DecValue, DecField, Runs, ItemsConform, OverlayValue, SendableField, EncTag, ShapedValue;
    var g := narrow[i];
    SameKind(g, f);
    if c == |items| {
      EmptyRuns(narrow, st);
      e', st' := e, st;
    } else {
      assert items[c..][1..] == items[c + 1..];
      assert EncItem(f, items[c]) == EncValue(f, items[c]) by { StaticItem(f, items[c]); }
      var b, rest := EncValue(f, items[c]).value, EncEach(f, items[c + 1..]).value;
      EntryDecoded(g, e0, e, f, items, c);
      var e1 := Entries(e.count + 1, e.items[e.count := DecValue(g, b, e.items[e.count]).value]);
      var wt := WireTypeOf(f.ltype);
      assert DecEntries(g, wt, b, e) == Ok(e1, |b|);
      EntriesStep(narrow, i, wt, b, st, e);
      var mid := WithEntries(narrow, i, st, e1);
      KeyRuns(narrow, i, wt, f.tag, b, st, mid);
      e', st' := EachRuns(narrow, i, f, items, c + 1, e0, e1, mid);
      RunsThen(narrow, EncTag(wt, f.tag) + b, rest, st, mid, st');
      if c + 1 < |items| { LastEntriesCount(narrow, i, st, e1, e'); }
    }
  }

  lemma {:induction false} ArrayRuns(narrow: seq<Field>, i: nat, f: Field, items: seq<Value>, e: Entries, st: State)
    returns (e': Entries, st': State)
    requires Holds(narrow, i, st, e) && Find(narrow, f.tag) == Some(i) && SendableField(narrow[i], f)
    requires narrow[i].htype == Repeated && f.atype == Static
    requires EntriesAfter(narrow[i], e, e, f, items, 0) && ItemsConform(f, items)
    requires var b := EncArray(f, |items|, items); b.Some? && |b.value| < WORD32
    ensures Runs(narrow, EncArray(f, |items|, items).value, st, st')
    ensures EntriesAfter(narrow[i], e, e', f, items, |items|)
    ensures st' == if items == [] then st else WithEntries(narrow, i, st, e')
    decreases f, 4
  {
    hide EntriesAfter, ItemsConform, SendableField, EncPacked, EncEach, DecPacked, Runs, Holds;
    var g := narrow[i];
    SameKind(g, f);
    assert items[..|items|] == items == items[0..];
    if items == [] {
      EmptyRuns(narrow, st);
      e', st' := e, st;
    } else if f.ltype.Packable() {
      var body := EncPacked(f, items).value;
      e' := PackedDecodes(g, f, items, 0, e, e);
      StringRoundTrip(body, []);
      var b := EncString(body);
      assert b + [] == b;
      assert DecEntries(g, WT_STRING, b, e) == Ok(e', |b|);
      EntriesStep(narrow, i, WT_STRING, b, st, e);
      st' := WithEntries(narrow, i, st, e');
      KeyRuns(narrow, i, WT_STRING, f.tag, b, st, st');
    } else {
      e', st' := EachRuns(narrow, i, f, items, 0, e, e, st);
    }
  }

  // ---------------------------------------------------------------- Single values

  /** Before its record is met, a field of the struct is as it was, or its union holds the member that the
      message does. */
  ghost predicate Pending(g: Field, s0: Slot, s1: Slot, f: Field, s: Slot) {
    if g.htype == Oneof then
      s0.Union? && s1.Union? && s.Union? && (s1 == s0 || (s1.which == s.which && s.which != f.tag && s.which != 0))
    else s1 == s0
  }

  /** What running the encoding of one field leaves behind. */
  ghost predicate FieldDone(narrow: seq<Field>, i: nat, s0: Slot, f: Field, s: Slot, st: State, st': State, s': Slot) {
    && i < |narrow| && Addr(narrow, i) in st.m
    && st'.m == st.m[Addr(narrow, i) := s']
    && ShapedSlot(narrow[i], s')
    && OverlaySlot(narrow[i], s0, s', f, s)
    && st.seen <= st'.seen && Marks(narrow, i) <= st'.seen
    && FixedComplete(narrow, st') && (st'.fixed == st.fixed || st'.fixed == Some(i))
    && (narrow[i].htype == Oneof ==>
          s'.Union? && s.Union? && (s' == st.m[Addr(narrow, i)] || s'.which == narrow[i].tag == s.which))
  }

  lemma {:induction false} PresentRuns(narrow: seq<Field>, i: nat, s0: Slot, f: Field, s: Slot, v: Value, st: State)
    returns (st': State, s': Slot)
    requires i < |narrow| && Find(narrow, f.tag) == Some(i) && SendableField(narrow[i], f)
    requires Addr(narrow, i) in st.m && Pending(narrow[i], s0, st.m[Addr(narrow, i)], f, s) && FixedComplete(narrow, st)
    requires ShapedSlot(narrow[i], s0) && RoomSlot(narrow[i], s0, f, s) && RoomUnion(narrow, s0, f, s)
    requires ShapedSlot(f, s) && f.htype != Repeated
    requires s == Plain(v) || s == Has(true, v) || s == Union(f.tag, v)
    requires s.Plain? && f.htype == Optional ==> !IsDefaultValue(f, v)
    requires ShapedValue(f, v) && ConformsValue(f, v)
    requires EncPresent(f, v).Some? && |EncPresent(f, v).value| < WORD32
    ensures Runs(narrow, EncPresent(f, v).value, st, st') && FieldDone(narrow, i, s0, f, s, st, st', s')
    decreases f, 3
  {
    hide EncValue, DecValue, Runs, ConformsValue, OverlayValue, AgreeValue, Shaped, Room, IsDefaultValue,
      AllStaticField;
    var g, a := narrow[i], Addr(narrow, i);
    SameKind(g, f);
    assert !OwnPointer(f) by { InPlace(f, s); }
    var prior := if g.htype == Oneof then OneofBase(g, st.m[a].v) else s0.v;
    if g.htype == Oneof {
      OneofIsFresh(g, f, v, st.m[a].v);
    }
    var wt, b := WireTypeOf(f.ltype), EncValue(f, v).value;
    ValueDecodes(g, f, v, prior);
    var v' := DecValue(g, b, prior).value;
    if g.htype == Oneof { SameOverlay(g, f, v', v, st.m[a].v); }
    s' := if g.htype == Oneof then Union(g.tag, v') else if s.Has? then Has(true, v') else Plain(v');
    st' := State(st.m[a := s'], st.seen + Marks(narrow, i), st.fixed, st.fixedSize);
    KeyRuns(narrow, i, wt, f.tag, b, st, st');
  }

  lemma InPlace(f: Field, s: Slot)
    requires WellFormedField(f) && ShapedSlot(f, s) && (s.Plain? || s.Has? || s.Union?)
    ensures !OwnPointer(f)
  {
  }

  /** A oneof's submessage is decoded over its defaults, whatever was there. */
  lemma OneofIsFresh(g: Field, f: Field, v: Value, old': Value)
    requires SendableField(g, f) && g.htype == Oneof
    requires ConformsValue(f, v) && EncValue(f, v).Some?
    ensures Over(g, OneofBase(g, old')) && RoomValue(g, OneofBase(g, old'), f, v)
  {
    if g.ltype.Submessage? {
      NewEntryIsOver(g);
      NewEntryHasRoom(g, f, v);
    }
  }

  lemma SameOverlay(g: Field, f: Field, v': Value, v: Value, old': Value)
    ensures OverlayValue(g, OneofBase(g, old'), v', f, v) ==> OverlayValue(g, NewEntry(g), v', f, v)
  {
  }

  // ---------------------------------------------------------------- Fields on the heap

  /** What `initialize_pointer_field` makes is memory a value may be decoded over. */
  lemma NewEntryIsOver(g: Field)
    requires WellFormedField(g)
    ensures Over(g, NewEntry(g)) && (g.ltype.Submessage? ==> AtDefaultValue(g, NewEntry(g)))
  {
    if g.ltype.Submessage? {
      var fields := g.ltype.fields;
      ZeroIsShaped(fields);
      DefaultsAtDefault(fields, ZeroFrom(fields, 0));
    }
  }

  lemma NewEntryHasRoom(g: Field, f: Field, v: Value)
    requires SendableField(g, f) && ConformsValue(f, v) && EncValue(f, v).Some?
    ensures RoomValue(g, NewEntry(g), f, v)
  {
    if g.ltype.Submessage? {
      NewEntryIsOver(g);
      DefaultValueHasRoom(g, NewEntry(g), f, v);
    }
  }

  /** An array entry's encoding is decoded into an entry that shows the same. */
  lemma {:induction false} EntryDecodes(g: Field, f: Field, v: Value)
    requires SendableField(g, f) && f.atype == Pointer
    requires ShapedValue(f, v) && ConformsValue(f, v)
    requires EncValue(f, v).Some? && |EncValue(f, v).value| < WORD32
    ensures var b := EncValue(f, v).value;
            var r := DecEntry(g, b);
            && r.Ok? && r.used == |b| && OverlayValue(g, NewEntry(g), Content(g, r.value), f, v)
            && (g.htype == Repeated ==> ShapedItem(g, r.value))
            && (OwnPointer(g) ==> DecOwned(g, b) == Ok(Content(g, r.value), |b|) && Content(g, r.value).Data?)
            && (!OwnPointer(g) ==> Content(g, r.value) == r.value && ShapedItem(g, r.value))
    decreases f, 2
  {
    hide EncValue, DecScalar, DecValue, DecOwned, Overlays, SetDefaults, ZeroFrom;
    var b := EncValue(f, v).value;
    if OwnPointer(f) {
      OwnedDecodes(f, v);
      SameOwned(g, f, b);
    } else {
      NewEntryIsOver(g);
      NewEntryHasRoom(g, f, v);
      ValueDecodes(g, f, v, NewEntry(g));
    }
  }

  lemma SameOwned(g: Field, f: Field, b: bytes)
    requires Compatible(g, f) && OwnPointer(f)
    ensures DecOwned(g, b) == DecOwned(f, b)
    ensures forall v', v :: AgreeValue(g, v', f, v) <==> AgreeValue(f, v', f, v)
  {
  }

  /** A field with a block of its own. */
  lemma {:induction false} PointerRuns(narrow: seq<Field>, i: nat, s0: Slot, f: Field, p: Pointer, st: State)
    returns (st': State, s': Slot)
    requires i < |narrow| && Find(narrow, f.tag) == Some(i) && SendableField(narrow[i], f)
    requires Addr(narrow, i) in st.m && st.m[Addr(narrow, i)] == s0 && s0.Ptr? && FixedComplete(narrow, st)
    requires ShapedSlot(f, Ptr(p)) && ConformsSlot(f, Ptr(p)) && p.Block?
    requires EncPresent(f, p.items[0]).Some? && |EncPresent(f, p.items[0]).value| < WORD32
    ensures Runs(narrow, EncPresent(f, p.items[0]).value, st, st') && FieldDone(narrow, i, s0, f, Ptr(p), st, st', s')
    decreases f, 3
  {
    hide EncValue, DecEntry, DecOwned, Runs, ConformsValue, OverlayValue;
    var g, a, v := narrow[i], Addr(narrow, i), p.items[0];
    SameKind(g, f);
    assert f.htype != Oneof;
    assert HeapItems(p)[0] == v;
    EntryDecodes(g, f, v);
    var wt, b := WireTypeOf(f.ltype), EncValue(f, v).value;
    var v' := Content(g, DecEntry(g, b).value);
    s' := Ptr(Single(v'));
    st' := State(st.m[a := s'], st.seen + Marks(narrow, i), st.fixed, st.fixedSize);
    assert DecPointer(g, wt, b, s0) == Ok(s', |b|);
    SingleIsShaped(g, v');
    KeyRuns(narrow, i, wt, f.tag, b, st, st');
  }

  lemma SingleIsShaped(g: Field, v': Value)
    requires g.atype == Pointer && g.htype != Repeated && g.htype != Oneof
    requires if OwnPointer(g) then !v'.Msg? && !v'.Ref? else ShapedItem(g, v')
    ensures ShapedSlot(g, Ptr(Single(v')))
  {
    assert ShapedItem(g, v');
  }

  /** `c` of the items are behind the entries `acc0`. */
  ghost predicate ItemsAfter(g: Field, acc0: seq<Value>, acc: seq<Value>, f: Field, items: seq<Value>, c: nat) {
    && c <= |items| && |acc| == |acc0| + c && |acc0| + |items| <= PB_SIZE_MAX
    && (forall k :: 0 <= k < |acc| ==> ShapedItem(g, acc[k]))
    && (forall k :: 0 <= k < |acc0| ==> acc[k] == acc0[k])
    && (forall k :: 0 <= k < c ==> OverlayItem(g, acc[|acc0| + k], f, items[k]))
  }

  lemma HeapArrayConforms(f: Field, count: nat, p: Pointer)
    requires ShapedSlot(f, PtrArray(count, p)) && ConformsSlot(f, PtrArray(count, p)) && count > 0
    ensures p.Block? && count <= |p.items| && ItemsConform(f, p.items[..count])
  {
    hide ShapedValue, ConformsValue, ShapedItem, Content;
    forall k | 0 <= k < count
      ensures var v := Content(f, p.items[..count][k]); ShapedValue(f, v) && ConformsValue(f, v)
    {
      assert p.items[..count][k] == HeapItems(p)[k];
    }
  }

  /** The next item appended. */
  lemma {:induction false} ItemDecoded(g: Field, acc0: seq<Value>, acc: seq<Value>, f: Field, items: seq<Value>, c: nat)
    requires SendableField(g, f) && f.atype == Pointer && g.htype == Repeated
    requires ItemsAfter(g, acc0, acc, f, items, c) && c < |items| && ItemsConform(f, items)
    requires EncItem(f, items[c]).Some? && |EncItem(f, items[c]).value| < WORD32
    ensures var b := EncItem(f, items[c]).value;
            var r := DecEntry(g, b);
            r.Ok? && r.used == |b| && ItemsAfter(g, acc0, acc + [r.value], f, items, c + 1)
    decreases f, 3
  {
    hide EncValue, DecEntry, ConformsValue, OverlayValue, SendableField, ShapedItem, ShapedValue, Content;
    ItemEncodes(f, items[c]);
    EntryDecodes(g, f, Content(f, items[c]));
  }

  /** A packed run appended to what was there. */
  lemma {:induction false} GrowDecodes(g: Field, f: Field, items: seq<Value>, c: nat, acc0: seq<Value>, acc: seq<Value>)
    returns (acc': seq<Value>)
    requires SendableField(g, f) && f.atype == Pointer && g.htype == Repeated && f.ltype.Packable()
    requires ItemsConform(f, items) && ItemsAfter(g, acc0, acc, f, items, c)
    requires EncPacked(f, items[c..]).Some? && |EncPacked(f, items[c..]).value| < WORD32
    ensures DecGrow(g, EncPacked(f, items[c..]).value, acc) == Some(acc')
    ensures c < |items| ==> EncPacked(f, items[c..]).value != []
    ensures ItemsAfter(g, acc0, acc', f, items, |items|)
    decreases f, 4, |items| - c
  {
    hide EncItem, DecEntry, ItemsConform, OverlayItem, SendableField, ShapedItem, Content;
    if c == |items| {
      acc' := acc;
    } else {
      assert items[c..][1..] == items[c + 1..];
      var b, rest := EncItem(f, items[c]).value, EncPacked(f, items[c + 1..]).value;
      ItemDecoded(g, acc0, acc, f, items, c);
      EntryPrefix(g, b, rest);
      var v' := DecEntry(g, b).value;
      assert (b + rest)[|b|..] == rest;
      acc' := GrowDecodes(g, f, items, c + 1, acc0, acc + [v']);
    }
  }

  /** The heap array at field `i` holds just these entries. */
  ghost predicate HoldsItems(narrow: seq<Field>, i: nat, st: State, acc: seq<Value>) {
    && i < |narrow| && Addr(narrow, i) in st.m
    && var s := st.m[Addr(narrow, i)];
       s.PtrArray? && s.count == |acc| && InUse(s.count, s.p) == acc
  }

  function WithItems(narrow: seq<Field>, i: nat, st: State, acc: seq<Value>): State
    requires i < |narrow|
  {
    State(st.m[Addr(narrow, i) := PtrArray(|acc|, Block(0, acc))], st.seen, st.fixed, st.fixedSize)
  }

  /** Entries appended one record at a time. */
  lemma {:induction false} EachAppends(narrow: seq<Field>, i: nat, f: Field, items: seq<Value>, c: nat,
                                       acc0: seq<Value>, acc: seq<Value>, st: State)
    returns (acc': seq<Value>, st': State)
    requires HoldsItems(narrow, i, st, acc) && Find(narrow, f.tag) == Some(i) && SendableField(narrow[i], f)
    requires f.htype == Repeated && f.atype == Pointer
    requires ItemsConform(f, items) && ItemsAfter(narrow[i], acc0, acc, f, items, c)
    requires EncEach(f, items[c..]).Some? && |EncEach(f, items[c..]).value| < WORD32
    ensures Runs(narrow, EncEach(f, items[c..]).value, st, st')
    ensures ItemsAfter(narrow[i], acc0, acc', f, items, |items|)
    ensures st' == if c == |items| then st else WithItems(narrow, i, st, acc')
    ensures c == |items| ==> acc' == acc
    decreases f, 4, |items| - c
  {
    hide EncItem, DecEntry, DecField, Runs, ItemsConform, OverlayItem, SendableField, EncTag, ShapedItem, Content;
    var g := narrow[i];
    SameKind(g, f);
    if c == |items| {
      EmptyRuns(narrow, st);
      acc', st' := acc, st;
    } else {
      assert items[c..][1..] == items[c + 1..];
      var b, rest := EncItem(f, items[c]).value, EncEach(f, items[c + 1..]).value;
      ItemDecoded(g, acc0, acc, f, items, c);
      var acc1 := acc + [DecEntry(g, b).value];
      var wt, mid := WireTypeOf(f.ltype), WithItems(narrow, i, st, acc1);
      AppendStep(narrow, i, wt, b, st, acc);
      KeyRuns(narrow, i, wt, f.tag, b, st, mid);
      acc', st' := EachAppends(narrow, i, f, items, c + 1, acc0, acc1, mid);
      RunsThen(narrow, EncTag(wt, f.tag) + b, rest, st, mid, st');
    }
  }

  lemma AppendStep(narrow: seq<Field>, i: nat, wireType: nat, b: bytes, st: State, acc: seq<Value>)
    requires HoldsItems(narrow, i, st, acc) && narrow[i].htype == Repeated && narrow[i].atype == Pointer
    requires narrow[i].ltype.Packable() ==> wireType != WT_STRING
    requires |acc| < PB_SIZE_MAX && DecEntry(narrow[i], b).Ok?
    ensures var r := DecEntry(narrow[i], b);
            && DecField(narrow, i, wireType, b, st) == Ok(WithItems(narrow, i, st, acc + [r.value]), r.used)
            && HoldsItems(narrow, i, WithItems(narrow, i, st, acc + [r.value]), acc + [r.value])
  {
    hide DecEntry;
    var g, s, r := narrow[i], st.m[Addr(narrow, i)], DecEntry(narrow[i], b);
    var s' := PtrArray(|acc| + 1, Block(0, acc + [r.value]));
    assert DecPointer(g, wireType, b, s) == Ok(s', r.used);
    assert DecSlot(narrow, g, wireType, b, s) == Ok(s', r.used);
    assert st.seen + Marks(narrow, i) == st.seen;
  }

  lemma {:induction false} HeapArrayRuns(narrow: seq<Field>, i: nat, f: Field, items: seq<Value>, acc0: seq<Value>,
                                         st: State)
    returns (acc: seq<Value>, st': State)
    requires HoldsItems(narrow, i, st, acc0) && Find(narrow, f.tag) == Some(i) && SendableField(narrow[i], f)
    requires f.htype == Repeated && f.atype == Pointer && items != [] && ItemsConform(f, items)
    requires ItemsAfter(narrow[i], acc0, acc0, f, items, 0)
    requires var b := EncArray(f, |items|, items); b.Some? && |b.value| < WORD32
    ensures Runs(narrow, EncArray(f, |items|, items).value, st, st')
    ensures ItemsAfter(narrow[i], acc0, acc, f, items, |items|)
    ensures st' == WithItems(narrow, i, st, acc)
    decreases f, 5
  {
    hide EncPacked, EncEach, ItemsConform, ItemsAfter, SendableField, Runs;
    var g := narrow[i];
    SameKind(g, f);
    assert items[..|items|] == items == items[0..];
    if f.ltype.Packable() {
      var body := EncPacked(f, items).value;
      acc := GrowDecodes(g, f, items, 0, acc0, acc0);
      StringRoundTrip(body, []);
      var b := EncString(body);
      assert b + [] == b;
      st' := WithItems(narrow, i, st, acc);
      PackedStep(narrow, i, b, body, st, acc0, acc);
      KeyRuns(narrow, i, WT_STRING, f.tag, b, st, st');
    } else {
      acc, st' := EachAppends(narrow, i, f, items, 0, acc0, acc0, st);
    }
  }

  lemma PackedStep(narrow: seq<Field>, i: nat, b: bytes, body: bytes, st: State, acc0: seq<Value>, acc: seq<Value>)
    requires HoldsItems(narrow, i, st, acc0) && narrow[i].htype == Repeated && narrow[i].atype == Pointer
    requires narrow[i].ltype.Packable() && DecString(b) == Ok(body, |b|) && body != []
    requires DecGrow(narrow[i], body, acc0) == Some(acc)
    ensures DecField(narrow, i, WT_STRING, b, st) == Ok(WithItems(narrow, i, st, acc), |b|)
  {
    hide DecGrow, DecString;
    var g, s := narrow[i], st.m[Addr(narrow, i)];
    var s' := PtrArray(|acc|, Block(0, acc));
    assert DecPointer(g, WT_STRING, b, s) == Ok(s', |b|);
    assert DecSlot(narrow, g, WT_STRING, b, s) == Ok(s', |b|);
    assert st.seen + Marks(narrow, i) == st.seen;
  }

  // ---------------------------------------------------------------- Any field

  lemma StaticItemsConform(f: Field, items: seq<Value>, count: nat)
    requires f.atype == Static && count <= |items|
    requires forall k :: 0 <= k < |items| ==> ShapedValue(f, items[k])
    requires forall k :: 0 <= k < count ==> ConformsValue(f, items[k])
    ensures ItemsConform(f, items[..count])
  {
    hide ShapedValue, ConformsValue;
    forall k | 0 <= k < count ensures Content(f, items[..count][k]) == items[k] { }
  }

  lemma {:induction false} StaticArrayRuns(narrow: seq<Field>, i: nat, f: Field, count: nat, items: seq<Value>,
                                           e: Entries, st: State)
    returns (e': Entries, st': State)
    requires Holds(narrow, i, st, e) && Find(narrow, f.tag) == Some(i) && SendableField(narrow[i], f)
    requires narrow[i].htype == Repeated && f.atype == Static && 0 < count <= |items|
    requires e.count + count <= |e.items| == narrow[i].arraySize
    requires forall k :: 0 <= k < |e.items| ==> ShapedValue(narrow[i], e.items[k])
    requires forall k :: 0 <= k < |items| ==> ShapedValue(f, items[k])
    requires forall k :: 0 <= k < count ==> ConformsValue(f, items[k])
    requires var b := EncArray(f, count, items); b.Some? && |b.value| < WORD32
    ensures Runs(narrow, EncArray(f, count, items).value, st, st') && st' == WithEntries(narrow, i, st, e')
    ensures |e'.items| == |e.items| && e'.count == e.count + count
    ensures forall k :: 0 <= k < |e'.items| ==> ShapedValue(narrow[i], e'.items[k])
    ensures forall k :: 0 <= k < e.count ==> e'.items[k] == e.items[k]
    ensures forall k :: 0 <= k < count ==>
              OverlayValue(narrow[i], e.items[e.count + k], e'.items[e.count + k], f, items[k])
    decreases f, 5
  {
    hide ShapedValue, ConformsValue, OverlayValue, Runs, EncPacked, EncEach, SendableField, Holds, ItemsConform;
    var used := items[..count];
    assert used[..count] == used;
    StaticItemsConform(f, items, count);
    NoEntriesYet(narrow[i], e, f, used);
    e', st' := ArrayRuns(narrow, i, f, used, e, st);
    forall k | 0 <= k < count
      ensures OverlayValue(narrow[i], e.items[e.count + k], e'.items[e.count + k], f, items[k])
    {
      assert used[k] == items[k];
    }
  }

  lemma {:induction false} HeapRuns(narrow: seq<Field>, i: nat, s0: Slot, f: Field, count: nat, p: Pointer, st: State)
    returns (st': State, s': Slot)
    requires i < |narrow| && Find(narrow, f.tag) == Some(i) && SendableField(narrow[i], f)
    requires Addr(narrow, i) in st.m && st.m[Addr(narrow, i)] == s0 && FixedComplete(narrow, st)
    requires ShapedSlot(narrow[i], s0) && s0.PtrArray? && s0.count + count <= PB_SIZE_MAX
    requires ShapedSlot(f, PtrArray(count, p)) && ConformsSlot(f, PtrArray(count, p)) && count > 0
    requires f.htype == Repeated && f.atype == Pointer
    requires var b := EncArray(f, count, HeapItems(p)); b.Some? && |b.value| < WORD32
    ensures Runs(narrow, EncArray(f, count, HeapItems(p)).value, st, st')
    ensures FieldDone(narrow, i, s0, f, PtrArray(count, p), st, st', s')
    decreases f, 6
  {
    hide ShapedSlot, ConformsSlot, OverlaySlot, Runs, EncPacked, EncEach, SendableField, ItemsConform, ItemsAfter,
      InUse;
    var g, items := narrow[i], p.items[..count];
    SameKind(g, f);
    HeapArrayConforms(f, count, p);
    assert items[..count] == items;
    var acc0 := InUse(s0.count, s0.p);
    NoItemsYet(g, s0, f, items);
    var acc;
    acc, st' := HeapArrayRuns(narrow, i, f, items, acc0, st);
    s' := PtrArray(|acc|, Block(0, acc));
    HeapDone(g, s0, f, count, p, acc);
    assert Marks(narrow, i) == {};
  }

  lemma NoItemsYet(g: Field, s0: Slot, f: Field, items: seq<Value>)
    requires ShapedSlot(g, s0) && s0.PtrArray? && s0.count + |items| <= PB_SIZE_MAX
    ensures var acc0 := InUse(s0.count, s0.p); |acc0| == s0.count && ItemsAfter(g, acc0, acc0, f, items, 0)
  {
    hide ShapedItem, OverlayItem;
  }

  lemma HeapDone(g: Field, s0: Slot, f: Field, count: nat, p: Pointer, acc: seq<Value>)
    requires g.atype == Pointer && g.htype == Repeated && ShapedSlot(g, s0) && s0.PtrArray?
    requires p.Block? && 0 < count <= |p.items|
    requires ItemsAfter(g, InUse(s0.count, s0.p), acc, f, p.items[..count], count)
    ensures var s' := PtrArray(|acc|, Block(0, acc));
            ShapedSlot(g, s') && OverlaySlot(g, s0, s', f, PtrArray(count, p))
  {
    hide ShapedItem, OverlayItem;
    forall k | 0 <= k < count ensures OverlayItem(g, acc[s0.count + k], f, HeapItems(p)[k]) {
      assert p.items[..count][k] == HeapItems(p)[k];
    }
  }

  lemma {:induction false} SlotRuns(narrow: seq<Field>, i: nat, s0: Slot, f: Field, s: Slot, st: State)
    returns (st': State, s': Slot)
    requires i < |narrow| && Find(narrow, f.tag) == Some(i) && SendableField(narrow[i], f)
    requires Addr(narrow, i) in st.m && Pending(narrow[i], s0, st.m[Addr(narrow, i)], f, s)
    requires ShapedSlot(narrow[i], s0) && RoomSlot(narrow[i], s0, f, s) && RoomUnion(narrow, s0, f, s)
    requires ShapedSlot(narrow[i], st.m[Addr(narrow, i)])
    requires FixedComplete(narrow, st) && st.fixed != Some(i)
    requires ShapedSlot(f, s) && ConformsSlot(f, s)
    requires EncSlot(f, s).Some? && |EncSlot(f, s).value| < WORD32
    ensures Runs(narrow, EncSlot(f, s).value, st, st')
    ensures FieldDone(narrow, i, s0, f, s, st, st', s')
    decreases f, 7
  {
    hide Runs, EncPresent, EncPacked, EncEach, ConformsValue, OverlayValue, OverlayItem, Find, RoomValue,
      IsDefaultValue, ShapedItem, Content;
    var g, a := narrow[i], Addr(narrow, i);
    SameKind(g, f);
    st', s' := st, st.m[a];
    EmptyRuns(narrow, st);
    assert st.m[a := st.m[a]] == st.m;
    match s {
      case Plain(v) =>
        if !(f.htype == Optional && IsDefaultValue(f, v)) { st', s' := PresentRuns(narrow, i, s0, f, s, v, st); }
      case Has(has, v) => if has { st', s' := PresentRuns(narrow, i, s0, f, s, v, st); }
      case Union(which, v) => if which == f.tag { st', s' := PresentRuns(narrow, i, s0, f, s, v, st); }
      case Array(count, items) =>
        if count > 0 {
          var e';
          e', st' := StaticArrayRuns(narrow, i, f, count, items, Entries(s0.count, s0.items), st);
          s' := Array(e'.count, e'.items);
        }
      case FixedArray(items) =>
        if f.arraySize > 0 {
          var e';
          e', st' := StaticArrayRuns(narrow, i, f, |items|, items, Entries(0, s0.items), st);
          s' := FixedArray(e'.items);
        }
      case Ptr(p) => if p.Block? { st', s' := PointerRuns(narrow, i, s0, f, p, st); }
      case PtrArray(count, p) => if count > 0 { st', s' := HeapRuns(narrow, i, s0, f, count, p, st); }
    }
  }

  // ---------------------------------------------------------------- Whole messages

  /** After the first `k` fields of the sender. */
  ghost predicate Progress(narrow: seq<Field>, base: Message, st: State, wide: seq<Field>, m: Message, k: nat) {
    && Shaped(narrow, st.m) && FixedComplete(narrow, st)
    && forall i :: 0 <= i < |narrow| ==> ProgressAt(narrow, base, st, wide, m, k, i)
  }

  ghost predicate ProgressAt(narrow: seq<Field>, base: Message, st: State, wide: seq<Field>, m: Message, k: nat,
                             i: nat) {
    && i < |narrow| && Find(wide, narrow[i].tag).Some?
    && var j, a := Partner(narrow, wide, i), Addr(narrow, i);
       && a in base && a in st.m && Addr(wide, j) in m
       && if j < k then
            OverlaySlot(narrow[i], base[a], st.m[a], wide[j], m[Addr(wide, j)]) && Marks(narrow, i) <= st.seen
          else Pending(narrow[i], base[a], st.m[a], wide[j], m[Addr(wide, j)]) && st.fixed != Some(i)
  }

  /** A field of the sender that the receiver does not have leaves everything as it was. */
  lemma DeletedStep(narrow: seq<Field>, base: Message, wide: seq<Field>, m: Message, k: nat, st: State)
    requires Progress(narrow, base, st, wide, m, k) && k < |wide| && Find(narrow, wide[k].tag) == None
    requires WellFormed(narrow)
    ensures Progress(narrow, base, st, wide, m, k + 1)
  {
    hide Pending, OverlaySlot, Marks, Addr, Shaped, WellFormedField;
    var k' := k + 1;
    forall i | 0 <= i < |narrow| ensures ProgressAt(narrow, base, st, wide, m, k', i) {
      assert ProgressAt(narrow, base, st, wide, m, k, i);
      RegularField(narrow, i);
    }
  }

  lemma RegularField(fields: seq<Field>, i: nat)
    requires WellFormed(fields) && i < |fields|
    ensures WellFormedField(fields[i]) && fields[i].tag >= 1 && !fields[i].ltype.Extension?
    ensures Find(fields, fields[i].tag) == Some(i)
  {
    FindIsUnique(fields, i);
  }

  lemma SameField(narrow: seq<Field>, wide: seq<Field>, m: Message, k: nat, i: nat)
    requires Sendable(narrow, wide, m) && k < |wide| && Find(narrow, wide[k].tag) == Some(i)
    ensures i < |narrow| && narrow[i].tag == wide[k].tag && Find(wide, narrow[i].tag) == Some(k)
    ensures SendableField(narrow[i], wide[k])
  {
    RegularField(wide, k);
    RegularField(narrow, i);
  }

  lemma KeptStep(narrow: seq<Field>, base: Message, wide: seq<Field>, m: Message, k: nat, i: nat, st: State, st': State,
                 s': Slot)
    requires Progress(narrow, base, st, wide, m, k) && k < |wide| && Find(narrow, wide[k].tag) == Some(i)
    requires Sendable(narrow, wide, m) && Shaped(narrow, base) && Addr(wide, k) in m
    requires FieldDone(narrow, i, base[Addr(narrow, i)], wide[k], m[Addr(wide, k)], st, st', s')
    ensures Progress(narrow, base, st', wide, m, k + 1)
  {
    hide ProgressAt, ShapedSlot, Sendable, Addr;
    assert FixedComplete(narrow, st');
    var k' := k + 1;
    forall l | 0 <= l < |narrow|
      ensures ProgressAt(narrow, base, st', wide, m, k', l)
      ensures Addr(narrow, l) in st'.m && ShapedSlot(narrow[l], st'.m[Addr(narrow, l)])
    {
      assert ProgressAt(narrow, base, st, wide, m, k, l);
      if l == i {
        KeptStepSame(narrow, base, wide, m, k, i, st, st', s');
      } else {
        KeptStepOther(narrow, base, wide, m, k, i, st, st', s', l);
      }
    }
  }

  lemma KeptStepSame(narrow: seq<Field>, base: Message, wide: seq<Field>, m: Message, k: nat, i: nat, st: State,
                     st': State, s': Slot)
    requires i < |narrow| && k < |wide| && Find(narrow, wide[k].tag) == Some(i)
    requires ProgressAt(narrow, base, st, wide, m, k, i)
    requires Sendable(narrow, wide, m) && Addr(wide, k) in m
    requires FieldDone(narrow, i, base[Addr(narrow, i)], wide[k], m[Addr(wide, k)], st, st', s')
    ensures ProgressAt(narrow, base, st', wide, m, k + 1, i)
    ensures Addr(narrow, i) in st'.m && ShapedSlot(narrow[i], st'.m[Addr(narrow, i)])
  {
    hide ShapedSlot, OverlaySlot, Addr, Find, Marks, Pending, SendableField;
    SameField(narrow, wide, m, k, i);
  }

  lemma KeptStepOther(narrow: seq<Field>, base: Message, wide: seq<Field>, m: Message, k: nat, i: nat, st: State,
                      st': State, s': Slot, l: nat)
    requires Progress(narrow, base, st, wide, m, k) && k < |wide| && Find(narrow, wide[k].tag) == Some(i)
    requires Sendable(narrow, wide, m) && Shaped(narrow, base) && Addr(wide, k) in m && l < |narrow| && l != i
    requires FieldDone(narrow, i, base[Addr(narrow, i)], wide[k], m[Addr(wide, k)], st, st', s')
    ensures ProgressAt(narrow, base, st', wide, m, k + 1, l)
    ensures Addr(narrow, l) in st'.m && ShapedSlot(narrow[l], st'.m[Addr(narrow, l)])
  {
    hide ShapedSlot, OverlaySlot, Pending, Addr, Find, Marks, Sendable, SendableField, FieldDone, Progress, Shaped;
    ProgressOf(narrow, base, st, wide, m, k, l);
    OtherTag(narrow, wide, m, k, i, l);
    SlotShape(narrow, base, i);
    AfterField(narrow, i, base[Addr(narrow, i)], wide[k], m[Addr(wide, k)], st, st', s');
    assert ShapedSlot(narrow[l], base[Addr(narrow, l)]) by { SlotShape(narrow, base, l); }
    if Addr(narrow, l) == Addr(narrow, i) && s' != st.m[Addr(narrow, i)] {
      UnionTaken(narrow, wide, m, k, i, base[Addr(narrow, l)], s', l);
    }
  }

  lemma ProgressOf(narrow: seq<Field>, base: Message, st: State, wide: seq<Field>, m: Message, k: nat, l: nat)
    requires Progress(narrow, base, st, wide, m, k) && l < |narrow|
    ensures ProgressAt(narrow, base, st, wide, m, k, l)
    ensures Addr(narrow, l) in st.m && ShapedSlot(narrow[l], st.m[Addr(narrow, l)])
  {
    hide ShapedSlot, ProgressAt, Addr;
  }

  lemma SlotShape(fields: seq<Field>, m: Message, l: nat)
    requires Shaped(fields, m) && l < |fields|
    ensures Addr(fields, l) in m && ShapedSlot(fields[l], m[Addr(fields, l)])
  {
  }

  lemma OtherTag(narrow: seq<Field>, wide: seq<Field>, m: Message, k: nat, i: nat, l: nat)
    requires Sendable(narrow, wide, m) && k < |wide| && Find(narrow, wide[k].tag) == Some(i)
    requires l < |narrow| && l != i && Find(wide, narrow[l].tag).Some?
    ensures i < |narrow| && Partner(narrow, wide, l) != k
  {
    hide Addr;
    SameField(narrow, wide, m, k, i);
    assert narrow[l].tag != narrow[i].tag;
  }

  /** What the record of one field does to the state. */
  lemma AfterField(narrow: seq<Field>, i: nat, s0: Slot, f: Field, s: Slot, st: State, st': State, s': Slot)
    requires FieldDone(narrow, i, s0, f, s, st, st', s')
    ensures i < |narrow| && Addr(narrow, i) in st.m && st'.m == st.m[Addr(narrow, i) := s']
    ensures st.seen <= st'.seen && (st'.fixed == st.fixed || st'.fixed == Some(i))
    ensures narrow[i].htype == Oneof ==>
              s'.Union? && s.Union? && (s' == st.m[Addr(narrow, i)] || s'.which == narrow[i].tag == s.which)
  {
    hide ShapedSlot, OverlaySlot, Addr, Marks;
  }

  /** Another member of the union that a field was sent for. */
  lemma UnionTaken(narrow: seq<Field>, wide: seq<Field>, m: Message, k: nat, i: nat, s0: Slot, s': Slot, l: nat)
    requires Sendable(narrow, wide, m) && k < |wide| && Find(narrow, wide[k].tag) == Some(i)
    requires i < |narrow| && l < |narrow| && l != i && Addr(narrow, l) == Addr(narrow, i) && Addr(wide, k) in m
    requires Find(wide, narrow[l].tag).Some? && ShapedSlot(narrow[l], s0)
    requires narrow[i].htype == Oneof ==>
               s'.Union? && m[Addr(wide, k)].Union? && s'.which == narrow[i].tag == m[Addr(wide, k)].which
    ensures var j := Partner(narrow, wide, l);
            && Addr(wide, j) in m && OverlaySlot(narrow[l], s0, s', wide[j], m[Addr(wide, j)])
            && Pending(narrow[l], s0, s', wide[j], m[Addr(wide, j)]) && ShapedSlot(narrow[l], s')
  {
    hide ShapedSlot, OverlaySlot, Pending, Addr, Find, SendableField;
    SameField(narrow, wide, m, k, i);
    var j := Partner(narrow, wide, l);
    assert narrow[l].htype == Oneof && narrow[i].htype == Oneof;
    assert Addr(wide, j) == Addr(wide, k);
    assert Compatible(narrow[l], wide[j]) && wide[k].tag >= 1 by { RegularField(wide, k); }
    assert s0.Union? by { UnionShape(narrow[l], s0); }
    OtherMember(narrow[l], s0, s', wide[j], m[Addr(wide, k)]);
  }

  lemma UnionShape(g: Field, s: Slot)
    requires g.htype == Oneof && ShapedSlot(g, s)
    ensures s.Union?
  {
  }

  /** What one member of a union shows of a message that holds another. */
  lemma OtherMember(g: Field, s0: Slot, s': Slot, f: Field, s: Slot)
    requires g.htype == Oneof && s0.Union? && s'.Union? && s.Union?
    requires s'.which == s.which && s.which != g.tag && s.which != f.tag && s.which != 0
    ensures OverlaySlot(g, s0, s', f, s) && Pending(g, s0, s', f, s) && ShapedSlot(g, s')
  {
  }

  lemma SentAt(narrow: seq<Field>, wide: seq<Field>, m: Message, k: nat)
    requires Sendable(narrow, wide, m) && k < |wide|
    ensures Addr(wide, k) in m && ShapedSlot(wide[k], m[Addr(wide, k)]) && ConformsSlot(wide[k], m[Addr(wide, k)])
    ensures 1 <= wide[k].tag < 0x2000_0000 && WellFormed(narrow)
  {
    RegularField(wide, k);
    assert SmallTagsField(wide[k]);
  }

  /** There is room for field `k` of the sender. */
  ghost predicate RoomFor(narrow: seq<Field>, base: Message, wide: seq<Field>, m: Message, k: nat) {
    k < |wide| && Addr(wide, k) in m && Find(narrow, wide[k].tag).Some? ==>
      var i := Find(narrow, wide[k].tag).value;
      && Addr(narrow, i) in base && RoomSlot(narrow[i], base[Addr(narrow, i)], wide[k], m[Addr(wide, k)])
      && RoomUnion(narrow, base[Addr(narrow, i)], wide[k], m[Addr(wide, k)])
  }

  lemma RoomForEach(narrow: seq<Field>, base: Message, wide: seq<Field>, m: Message, k: nat)
    requires Sendable(narrow, wide, m) && Shaped(narrow, base) && Room(narrow, base, wide, m)
    ensures RoomFor(narrow, base, wide, m, k)
  {
    hide RoomSlot, ShapedSlot, Addr;
    if k < |wide| && Find(narrow, wide[k].tag).Some? { SameField(narrow, wide, m, k, Find(narrow, wide[k].tag).value); }
  }

  lemma PendingAt(narrow: seq<Field>, base: Message, st: State, wide: seq<Field>, m: Message, k: nat, i: nat)
    requires Progress(narrow, base, st, wide, m, k) && Shaped(narrow, base)
    requires i < |narrow| && Find(wide, narrow[i].tag) == Some(k)
    ensures FixedComplete(narrow, st) && st.fixed != Some(i)
    ensures var a := Addr(narrow, i);
            && a in base && a in st.m && Addr(wide, k) in m
            && Pending(narrow[i], base[a], st.m[a], wide[k], m[Addr(wide, k)])
            && ShapedSlot(narrow[i], base[a]) && ShapedSlot(narrow[i], st.m[a])
  {
    hide ShapedSlot, Pending, Addr, Find;
    assert ProgressAt(narrow, base, st, wide, m, k, i);
  }

  /** One field of the sender, kept or deleted. */
  lemma {:induction false} FieldRuns(narrow: seq<Field>, base: Message, wide: seq<Field>, m: Message, k: nat, st: State)
    returns (st': State)
    requires Sendable(narrow, wide, m) && Shaped(narrow, base) && RoomFor(narrow, base, wide, m, k)
    requires k < |wide| && Progress(narrow, base, st, wide, m, k)
    requires Addr(wide, k) in m
    requires EncSlot(wide[k], m[Addr(wide, k)]).Some? && |EncSlot(wide[k], m[Addr(wide, k)]).value| < WORD32
    ensures Runs(narrow, EncSlot(wide[k], m[Addr(wide, k)]).value, st, st')
    ensures Progress(narrow, base, st', wide, m, k + 1)
    decreases wide, |wide| - k, 0
  {
    hide Runs, EncSlot, Progress, FieldDone, Sendable, SendableField, Shaped, Pending;
    SentAt(narrow, wide, m, k);
    var f, s := wide[k], m[Addr(wide, k)];
    if Find(narrow, f.tag).None? {
      st' := st;
      SlotSkips(narrow, f, s, st);
      DeletedStep(narrow, base, wide, m, k, st);
    } else {
      var i, s' := Find(narrow, f.tag).value, s;
      SameField(narrow, wide, m, k, i);
      PendingAt(narrow, base, st, wide, m, k, i);
      st', s' := SlotRuns(narrow, i, base[Addr(narrow, i)], f, s, st);
      KeptStep(narrow, base, wide, m, k, i, st, st', s');
    }
  }

  lemma {:induction false} FieldsRun(narrow: seq<Field>, base: Message, wide: seq<Field>, m: Message, k: nat, st: State)
    returns (st': State)
    requires Sendable(narrow, wide, m) && Shaped(narrow, base) && Room(narrow, base, wide, m)
    requires k <= |wide| && Progress(narrow, base, st, wide, m, k)
    requires EncFrom(wide, m, k).Some? && |EncFrom(wide, m, k).value| < WORD32
    ensures Runs(narrow, EncFrom(wide, m, k).value, st, st') && Progress(narrow, base, st', wide, m, |wide|)
    decreases wide, |wide| - k, 1
  {
    hide Runs, EncSlot, Progress, Sendable, Shaped, Room;
    RoomForEach(narrow, base, wide, m, k);
    if k == |wide| {
      EmptyRuns(narrow, st);
      st' := st;
    } else {
      var here, rest := EncSlot(wide[k], m[Addr(wide, k)]).value, EncFrom(wide, m, k + 1).value;
      var mid := FieldRuns(narrow, base, wide, m, k, st);
      st' := FieldsRun(narrow, base, wide, m, k + 1, mid);
      RunsThen(narrow, here, rest, st, mid, st');
    }
  }

  /** The last value wins: whatever the struct holds that a message is decoded over, afterwards what the
      message carries shows the message, and the rest shows what it showed before. */
  lemma {:induction false} MessageDecodes(narrow: seq<Field>, wide: seq<Field>, m: Message, base: Message)
    returns (m': Message)
    requires Sendable(narrow, wide, m) && Shaped(narrow, base) && Room(narrow, base, wide, m)
    requires EncMessage(wide, m).Some? && |EncMessage(wide, m).value| < WORD32
    ensures DecMessage(narrow, EncMessage(wide, m).value, base) == Some(m')
    ensures Shaped(narrow, m') && Overlays(narrow, base, m', wide, m)
    ensures exists st :: Runs(narrow, EncMessage(wide, m).value, Start(base), st)
    decreases wide, |wide| + 1
  {
    hide Sendable, Shaped, Room, Progress, Overlays, Complete;
    ProgressStarts(narrow, wide, m, base);
    var st := FieldsRun(narrow, base, wide, m, 0, Start(base));
    m' := st.m;
    ProgressEnds(narrow, base, wide, m, st);
  }

  lemma ProgressStarts(narrow: seq<Field>, wide: seq<Field>, m: Message, base: Message)
    requires Sendable(narrow, wide, m) && Shaped(narrow, base)
    ensures Progress(narrow, base, Start(base), wide, m, 0)
  {
    hide WellFormed, SmallTags, ShapedSlot, ConformsSlot, Pending, Compatible, Addr, Find;
    forall i | 0 <= i < |narrow| ensures ProgressAt(narrow, base, Start(base), wide, m, 0, i) {
      var j, a := Partner(narrow, wide, i), Addr(narrow, i);
      assert Compatible(narrow[i], wide[j]) && ShapedSlot(narrow[i], base[a]);
      assert ShapedSlot(wide[j], m[Addr(wide, j)]);
      NothingMet(narrow[i], base[a], wide[j], m[Addr(wide, j)]);
    }
  }

  lemma NothingMet(g: Field, s0: Slot, f: Field, s: Slot)
    requires Compatible(g, f) && ShapedSlot(g, s0) && ShapedSlot(f, s)
    ensures Pending(g, s0, s0, f, s)
  {
  }

  lemma ProgressEnds(narrow: seq<Field>, base: Message, wide: seq<Field>, m: Message, st: State)
    requires Progress(narrow, base, st, wide, m, |wide|)
    ensures Complete(narrow, st) && Shaped(narrow, st.m)
    ensures Overlays(narrow, base, st.m, wide, m)
  {
    hide OverlaySlot, Marks, Shaped, Addr, Find;
    forall i | 0 <= i < |narrow|
      ensures Find(wide, narrow[i].tag).Some? && OverlaysAt(narrow, base, st.m, wide, m, i)
      ensures Marks(narrow, i) <= st.seen
    {
      assert ProgressAt(narrow, base, st, wide, m, |wide|, i);
    }
  }
}
