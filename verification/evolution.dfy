/** Round trip and schema evolution: what a descriptor encodes, any descriptor obtained from it by
    deleting fields decodes to the projection of the message; with nothing deleted, to the message. */
module Evolution {
  import opened Wrappers
  import opened Wire
  import opened Descriptor
  import opened EncodeSpec
  import opened DecodeSpec
  import opened Agreement
  import opened Overlay
  import opened Merge
  import opened RecordRuns
  import opened Overflows

  // ---------------------------------------------------------------- What is left out

  ghost predicate SlotAgrees(g: Field, s': Slot, f: Field, s: Slot) {
    AgreeSlot(g, s', f, s) <==> FaithfulSlot(g, f, s)
  }

  /** What the encoder leaves out because it is at its default is observably what the decoder's
      initialisation puts there, exactly when the receiver's own default would be left out too; in a
      submessage, exactly when this holds of everything it leaves out. */
  lemma {:induction false} OmissionIff(g: Field, v': Value, f: Field, v: Value)
    requires Compatible(g, f) && WellFormedField(g) && WellFormedField(f) && f.atype == Static
    requires ShapedValue(f, v) && ConformsValue(f, v) && IsDefaultValue(f, v)
    requires ShapedValue(g, v') && AtDefaultValue(g, v')
    ensures AgreeValue(g, v', f, v) <==> FaithfulValue(g, f, v) && Recovered(g, f, v)
    decreases f, 0
  {
    hide AgreeSlot, FaithfulSlot, BareSlot, ShapedSlot, AtDefaultSlot, ConformsSlot, IsDefaultSlot, Addr;
    if f.ltype.Submessage? {
      var n, w := g.ltype.fields, f.ltype.fields;
      forall i | 0 <= i < |n|
        ensures Addr(n, i) in v'.slots && Addr(w, Partner(n, w, i)) in v.slots
        ensures OmittedAgrees(n[i], v'.slots[Addr(n, i)], w[Partner(n, w, i)], v.slots[Addr(w, Partner(n, w, i))])
      {
        var j := Partner(n, w, i);
        IsDefaultAt(w, v.slots, 0, j);
        assert WellFormedField(n[i]) && WellFormedField(w[j]) && Compatible(n[i], w[j]);
        OmittedSlotAgrees(n[i], v'.slots[Addr(n, i)], w[j], v.slots[Addr(w, j)]);
      }
      OmittedSlotsAgree(n, v'.slots, w, v.slots);
    } else {
      ScalarOmissionIff(f, v, v', g);
    }
  }

  /** A slot that is left out with the submessage it is in. */
  ghost predicate OmittedAgrees(g: Field, s': Slot, f: Field, s: Slot) {
    AgreeSlot(g, s', f, s) <==> FaithfulSlot(g, f, s) && BareSlot(g, f, s)
  }

  lemma OmittedSlotsAgree(n: seq<Field>, m': Message, w: seq<Field>, m: Message)
    requires forall i :: 0 <= i < |n| ==>
               && Find(w, n[i].tag).Some? && Addr(n, i) in m' && Addr(w, Partner(n, w, i)) in m
               && OmittedAgrees(n[i], m'[Addr(n, i)], w[Partner(n, w, i)], m[Addr(w, Partner(n, w, i))])
    ensures Agrees(n, m', w, m) <==> Faithful(n, w, m) && Bare(n, w, m)
  {
    hide AgreeSlot, FaithfulSlot, BareSlot, Addr, Find;
  }

  /** Slot by slot, and so for the whole. */
  lemma SlotsAgree(n: seq<Field>, m': Message, w: seq<Field>, m: Message)
    requires forall i :: 0 <= i < |n| ==>
               && Find(w, n[i].tag).Some? && Addr(n, i) in m' && Addr(w, Partner(n, w, i)) in m
               && SlotAgrees(n[i], m'[Addr(n, i)], w[Partner(n, w, i)], m[Addr(w, Partner(n, w, i))])
    ensures Agrees(n, m', w, m) <==> Faithful(n, w, m)
  {
    hide AgreeSlot, FaithfulSlot, Addr, Find;
  }

  lemma ScalarOmissionIff(f: Field, v: Value, v': Value, g: Field)
    requires WellFormedField(g) && !f.ltype.Submessage? && Compatible(g, f) && f.atype == Static
    requires ShapedValue(f, v) && ConformsValue(f, v) && IsDefaultValue(f, v)
    requires ShapedValue(g, v') && AtDefaultValue(g, v')
    ensures AgreeValue(g, v', f, v) <==> SilentDefault(g)
  {
  }

  /** A proto3-style number whose descriptor says 5 by default: zero is sent as nothing and comes back as 5. */
  const STUBBORN: Field := Field(1, Varint, Optional, Static, 0, 0, 4, 0, Some(Int(5)))

  lemma DefaultOverrides()
    ensures var m: Message := map[0 := Plain(Int(0))];
            && EncMessage([STUBBORN], m) == Some([])
            && Decode([STUBBORN], [], m) == Some(map[0 := Plain(Int(5))])
  {
    var m: Message := map[0 := Plain(Int(0))];
    assert Addr([STUBBORN], 0) == 0;
    assert EncSlot(STUBBORN, m[0]) == Some([]) && EncFrom([STUBBORN], m, 1) == Some([]);
    assert EncFrom([STUBBORN], m, 0) == Cat(EncSlot(STUBBORN, m[0]), EncFrom([STUBBORN], m, 1));
    var none: bytes := [];
    assert none + none == none;
    assert DefaultsFrom([STUBBORN], m[0 := DefaultSlot(STUBBORN, m[0])], 1) == m[0 := DefaultSlot(STUBBORN, m[0])];
    assert SetDefaults([STUBBORN], m) == map[0 := Plain(Int(5))];
  }

  /** A proto3-style submessage with one string on the heap. The comparison takes one byte of the pointer. */
  const LETTER: Field := Field(1, String, Optional, Pointer, 0, 0, 1, 0, None)
  const ENVELOPE: Field := Field(1, Submessage([LETTER]), Optional, Static, 0, 0, POINTER_SIZE, 0, None)

  /** A string at an address whose lowest byte is zero is left out with the submessage it is in. */
  lemma PointerOmitted(text: bytes)
    ensures var m: Message := map[0 := Plain(Msg(map[0 := Ptr(Block(0x100, [Data(text)]))]))];
            && EncMessage([ENVELOPE], m) == Some([])
            && Decode([ENVELOPE], [], m) == Some(map[0 := Plain(Msg(map[0 := Ptr(Null)]))])
  {
    var inner: Message := map[0 := Ptr(Block(0x100, [Data(text)]))];
    var empty: Message := map[0 := Ptr(Null)];
    var m: Message := map[0 := Plain(Msg(inner))];
    assert Addr([LETTER], 0) == 0 && Addr([ENVELOPE], 0) == 0;
    assert PointerBytes(inner[0].p)[0] == 0;
    assert IsDefaultFrom([LETTER], inner, 1) && IsDefaultFrom([LETTER], inner, 0);
    assert EncSlot(ENVELOPE, m[0]) == Some([]) && EncFrom([ENVELOPE], m, 1) == Some([]);
    assert EncFrom([ENVELOPE], m, 0) == Cat(EncSlot(ENVELOPE, m[0]), EncFrom([ENVELOPE], m, 1));
    var none: bytes := [];
    assert none + none == none;
    assert DefaultsFrom([LETTER], inner[0 := Ptr(Null)], 1) == inner[0 := Ptr(Null)] == empty;
    assert DefaultsFrom([LETTER], inner, 0) == empty;
    assert DefaultSlot(ENVELOPE, m[0]) == Plain(Msg(empty));
    assert DefaultsFrom([ENVELOPE], m[0 := Plain(Msg(empty))], 1) == m[0 := Plain(Msg(empty))];
    assert SetDefaults([ENVELOPE], m) == map[0 := Plain(Msg(empty))];
  }

  lemma {:induction false} OmittedSlotAgrees(g: Field, s': Slot, f: Field, s: Slot)
    requires Compatible(g, f) && WellFormedField(g) && WellFormedField(f)
    requires ShapedSlot(f, s) && ConformsSlot(f, s) && (IsDefaultSlot(f, s, true) || IsDefaultSlot(f, s, false))
    requires ShapedSlot(g, s') && AtDefaultSlot(g, s')
    ensures OmittedAgrees(g, s', f, s)
    decreases f, 1
  {
    if s.Plain? { OmissionIff(g, s'.v, f, s.v); }
  }

  lemma {:induction false} IsDefaultAt(fields: seq<Field>, m: Message, i: nat, j: nat)
    requires i <= j < |fields| && IsDefaultFrom(fields, m, i)
    ensures var a := Addr(fields, j);
            a in m && IsDefaultSlot(fields[j], m[a], ZeroBehind(m, a))
    decreases j - i
  {
    if i < j { IsDefaultAt(fields, m, i + 1, j); }
  }

  /** Only submessages can be unfaithful. */
  lemma ContentFaithful(g: Field, f: Field, v: Value)
    ensures FaithfulValue(g, f, Content(f, v)) <==> FaithfulValue(g, f, v)
  {
  }

  // ---------------------------------------------------------------- Over defaults

  /** A message decoded over an initialised struct shows itself, exactly when nothing was left out that
      initialisation fills in otherwise. */
  lemma {:induction false} OverDefaults(narrow: seq<Field>, base: Message, m': Message, wide: seq<Field>, m: Message)
    requires WellFormed(narrow) && WellFormed(wide) && Evolves(narrow, wide) && Conforms(wide, m)
    requires AtDefault(narrow, base) && Overlays(narrow, base, m', wide, m)
    ensures Agrees(narrow, m', wide, m) <==> Faithful(narrow, wide, m)
    decreases narrow, 1
  {
    hide SlotAgrees, OverlaySlot, AtDefaultSlot, ShapedSlot, ConformsSlot, WellFormedField, Compatible, Addr, Find,
      Agrees, Faithful;
    forall i | 0 <= i < |narrow|
      ensures var j := Partner(narrow, wide, i);
              && Addr(narrow, i) in m' && Addr(wide, j) in m
              && SlotAgrees(narrow[i], m'[Addr(narrow, i)], wide[j], m[Addr(wide, j)])
    {
      var j, a := Partner(narrow, wide, i), Addr(narrow, i);
      assert WellFormedField(narrow[i]) && WellFormedField(wide[j]) && OverlaysAt(narrow, base, m', wide, m, i);
      SlotOverDefault(narrow[i], base[a], m'[a], wide[j], m[Addr(wide, j)]);
    }
    SlotsAgree(narrow, m', wide, m);
  }

  lemma {:induction false} SlotOverDefault(g: Field, s0: Slot, s': Slot, f: Field, s: Slot)
    requires WellFormedField(g) && WellFormedField(f) && Compatible(g, f)
    requires ShapedSlot(g, s0) && AtDefaultSlot(g, s0) && ShapedSlot(f, s) && ConformsSlot(f, s)
    requires OverlaySlot(g, s0, s', f, s)
    ensures SlotAgrees(g, s', f, s)
    decreases g, 1
  {
    hide OverlayValue, AgreeValue, FaithfulValue, AtDefaultValue, ConformsValue, ShapedItem, Content, IsDefaultValue,
      Recovered, NewEntry, AllStaticField;
    match s {
      case Plain(v) =>
        if f.htype == Optional && IsDefaultValue(f, v) {
          OmissionIff(g, s0.v, f, v);
        } else {
          ValueOverDefault(g, s0.v, s'.v, f, v);
        }
      case Has(has, v) => if has { ValueOverDefault(g, s0.v, s'.v, f, v); }
      case Array(count, items) =>
        forall k | 0 <= k < count ensures AgreeValue(g, s'.items[k], f, items[k]) <==> FaithfulValue(g, f, items[k]) {
          assert 0 + k == k;
          ValueOverDefault(g, s0.items[k], s'.items[k], f, items[k]);
        }
      case FixedArray(items) =>
        forall k | 0 <= k < |items| ensures AgreeValue(g, s'.items[k], f, items[k]) <==> FaithfulValue(g, f, items[k]) {
          ValueOverDefault(g, s0.items[k], s'.items[k], f, items[k]);
        }
      case Union(which, v) => if which == f.tag { NewOverDefault(g, s'.v, f, v); }
      case Ptr(p) =>
        if p.Block? {
          assert HeapItems(p)[0] == p.items[0];
          NewOverDefault(g, s'.p.items[0], f, p.items[0]);
        }
      case PtrArray(count, p) =>
        forall k | 0 <= k < count
          ensures AgreeItem(g, HeapItems(s'.p)[k], f, HeapItems(p)[k]) <==> FaithfulValue(g, f, HeapItems(p)[k])
        {
          assert 0 + k == k;
          NewOverDefault(g, Content(g, HeapItems(s'.p)[k]), f, Content(f, HeapItems(p)[k]));
          ContentFaithful(g, f, HeapItems(p)[k]);
        }
    }
  }

  lemma {:induction false} ValueOverDefault(g: Field, v0: Value, v': Value, f: Field, v: Value)
    requires WellFormedField(g) && WellFormedField(f) && Compatible(g, f) && ConformsValue(f, v)
    requires g.ltype.Submessage? ==> ShapedValue(g, v0) && (g.htype == Repeated || AtDefaultValue(g, v0))
    requires OverlayValue(g, v0, v', f, v)
    ensures AgreeValue(g, v', f, v) <==> FaithfulValue(g, f, v)
    decreases g, 0, 0
  {
    hide SetDefaults, Overlays, Agrees, Faithful, AtDefault, Shaped;
    if g.ltype.Submessage? {
      var n := g.ltype.fields;
      if g.htype == Repeated { DefaultsAtDefault(n, v0.slots); }
      OverDefaults(n, Base(g, v0.slots), v'.slots, f.ltype.fields, v.slots);
    }
  }

  lemma {:induction false} NewOverDefault(g: Field, v': Value, f: Field, v: Value)
    requires WellFormedField(g) && WellFormedField(f) && Compatible(g, f) && ConformsValue(f, v)
    requires OverlayValue(g, NewEntry(g), v', f, v)
    ensures AgreeValue(g, v', f, v) <==> FaithfulValue(g, f, v)
    decreases g, 0, 1
  {
    hide OverlayValue, AgreeValue, FaithfulValue;
    NewEntryIsOver(g);
    ValueOverDefault(g, NewEntry(g), v', f, v);
  }

  // ---------------------------------------------------------------- Descriptors that lose nothing

  /** No proto3-style scalar has a default of its own that would be sent, and no proto3-style submessage has
      pointers; fixed-length bytes are never left out. */
  ghost predicate SilentDefaults(fields: seq<Field>)
    decreases fields
  {
    forall i :: 0 <= i < |fields| ==> SilentField(fields[i])
  }

  ghost predicate SilentField(f: Field)
    decreases f
  {
    && (f.Singular() && !(f.ltype.FixedLengthBytes? && f.dataSize > 0) ==>
          if f.ltype.Submessage? then f.atype == Pointer || AllStatic(f.ltype.fields) else SilentDefault(f))
    && (f.ltype.Submessage? ==> SilentDefaults(f.ltype.fields))
  }

  lemma {:induction false} SilentIsFaithful(narrow: seq<Field>, wide: seq<Field>, m: Message)
    requires SilentDefaults(narrow) && Evolves(narrow, wide) && Conforms(wide, m)
    ensures Faithful(narrow, wide, m)
    decreases narrow, 1
  {
    hide FaithfulSlot, Addr, Find, SilentField, Compatible, ConformsSlot, ShapedSlot;
    forall i | 0 <= i < |narrow|
      ensures FaithfulSlot(narrow[i], wide[Partner(narrow, wide, i)], m[Addr(wide, Partner(narrow, wide, i))])
    {
      var j := Partner(narrow, wide, i);
      SilentSlot(narrow[i], wide[j], m[Addr(wide, j)]);
    }
  }

  lemma {:induction false} SilentSlot(g: Field, f: Field, s: Slot)
    requires SilentField(g) && Compatible(g, f) && ShapedSlot(f, s) && ConformsSlot(f, s)
    ensures FaithfulSlot(g, f, s)
    decreases g, 1
  {
    hide ConformsValue, FaithfulValue, Shaped, Bare, AllStatic;
    match s {
      case Plain(v) =>
        SilentValue(g, f, v);
        if f.ltype.Submessage? && AllStatic(g.ltype.fields) { StaticIsBare(g.ltype.fields, f.ltype.fields, v.slots); }
      case Has(has, v) => if has { SilentValue(g, f, v); }
      case Array(count, items) =>
        forall k | 0 <= k < count && k < |items| ensures FaithfulValue(g, f, items[k]) { SilentValue(g, f, items[k]); }
      case FixedArray(items) =>
        forall k | 0 <= k < |items| ensures FaithfulValue(g, f, items[k]) { SilentValue(g, f, items[k]); }
      case Union(which, v) => if which == f.tag { SilentValue(g, f, v); }
      case Ptr(p) =>
        forall k | 0 <= k < |HeapItems(p)| ensures FaithfulValue(g, f, HeapItems(p)[k]) {
          SilentValue(g, f, HeapItems(p)[k]);
        }
      case PtrArray(count, p) =>
        forall k | 0 <= k < count && k < |HeapItems(p)| ensures FaithfulValue(g, f, HeapItems(p)[k]) {
          SilentValue(g, f, Content(f, HeapItems(p)[k]));
          ContentFaithful(g, f, HeapItems(p)[k]);
        }
    }
  }

  lemma {:induction false} StaticIsBare(narrow: seq<Field>, wide: seq<Field>, m: Message)
    requires AllStatic(narrow) && Evolves(narrow, wide) && Shaped(wide, m)
    ensures Bare(narrow, wide, m)
    decreases narrow, 1
  {
    hide Addr, Find, ShapedSlot, BareSlot, Compatible, AllStaticField;
    forall i | 0 <= i < |narrow|
      ensures BareSlot(narrow[i], wide[Partner(narrow, wide, i)], m[Addr(wide, Partner(narrow, wide, i))])
    {
      var j := Partner(narrow, wide, i);
      assert AllStaticField(narrow[i]);
      StaticSlotIsBare(narrow[i], wide[j], m[Addr(wide, j)]);
    }
  }

  lemma {:induction false} StaticSlotIsBare(g: Field, f: Field, s: Slot)
    requires AllStaticField(g) && Compatible(g, f) && ShapedSlot(f, s)
    ensures BareSlot(g, f, s)
    decreases g, 1
  {
    if s.Plain? && g.ltype.Submessage? { StaticIsBare(g.ltype.fields, f.ltype.fields, s.v.slots); }
  }

  lemma {:induction false} SilentValue(g: Field, f: Field, v: Value)
    requires SilentField(g) && Compatible(g, f) && ConformsValue(f, v)
    ensures FaithfulValue(g, f, v)
    decreases g, 0
  {
    if g.ltype.Submessage? && v.Msg? { SilentIsFaithful(g.ltype.fields, f.ltype.fields, v.slots); }
  }

  // ---------------------------------------------------------------- Main results

  /** Schema evolution: what `wide` encodes, `narrow` decodes, into any struct of the right shape, to
      exactly the fields it kept, if and only if nothing was left out that the receiver fills in with a
      default of its own. */
  lemma SchemaEvolution(narrow: seq<Field>, wide: seq<Field>, m: Message, dest: Message) returns (m': Message)
    requires Sendable(narrow, wide, m) && Shaped(narrow, dest)
    requires EncMessage(wide, m).Some? && |EncMessage(wide, m).value| < WORD32
    ensures Decode(narrow, EncMessage(wide, m).value, dest) == Some(m')
    ensures Shaped(narrow, m') && (Agrees(narrow, m', wide, m) <==> Faithful(narrow, wide, m))
  {
    var base := SetDefaults(narrow, dest);
    DefaultsAtDefault(narrow, dest);
    DefaultHasRoom(narrow, base, wide, m);
    m' := MessageDecodes(narrow, wide, m, base);
    OverDefaults(narrow, base, m', wide, m);
  }

  /** A descriptor is an evolution of itself. */
  lemma {:induction false} EvolvesFromItself(fields: seq<Field>)
    requires WellFormed(fields)
    ensures Evolves(fields, fields)
    decreases fields
  {
    forall i | 0 <= i < |fields|
      ensures Find(fields, fields[i].tag) == Some(i) && Compatible(fields[i], fields[i])
    {
      RegularField(fields, i);
      CompatibleWithItself(fields[i]);
    }
  }

  lemma {:induction false} CompatibleWithItself(f: Field)
    requires WellFormedField(f)
    ensures Compatible(f, f)
    decreases f
  {
    if f.ltype.Submessage? { EvolvesFromItself(f.ltype.fields); }
  }

  /** Round trip: `pb_decode` after `pb_encode` gives the message back, with the same presence flags,
      counts, union members and values, if and only if nothing was left out that has another default. */
  lemma MessageRoundTrip(fields: seq<Field>, m: Message, dest: Message) returns (m': Message)
    requires WellFormed(fields) && SmallTags(fields)
    requires Conforms(fields, m) && Shaped(fields, dest)
    requires EncMessage(fields, m).Some? && |EncMessage(fields, m).value| < WORD32
    ensures Decode(fields, EncMessage(fields, m).value, dest) == Some(m')
    ensures Shaped(fields, m') && (Agrees(fields, m', fields, m) <==> Faithful(fields, fields, m))
  {
    EvolvesFromItself(fields);
    m' := SchemaEvolution(fields, fields, m, dest);
  }

  /** Last one wins. A second message decoded into the struct of a first one, in a call of its own or behind it
      in one, is accepted if and only if there is room for what it adds; then the struct shows what it carries,
      and where it carries nothing, what the first one left. */
  lemma LastOneWins(narrow: seq<Field>, wide: seq<Field>, first: Message, second: Message, dest: Message, m1: Message)
    requires Sendable(narrow, wide, first) && Sendable(narrow, wide, second) && Shaped(narrow, dest)
    requires EncMessage(wide, first).Some? && |EncMessage(wide, first).value| < WORD32
    requires EncMessage(wide, second).Some? && |EncMessage(wide, second).value| < WORD32
    requires Decode(narrow, EncMessage(wide, first).value, dest) == Some(m1)
    ensures Agrees(narrow, m1, wide, first) <==> Faithful(narrow, wide, first)
    ensures var r := DecMessage(narrow, EncMessage(wide, second).value, m1);
            && (r.Some? <==> Room(narrow, m1, wide, second))
            && (r.Some? ==> Overlays(narrow, m1, r.value, wide, second))
            && (r.Some? && NoFixedCount(narrow) ==>
                  Decode(narrow, EncMessage(wide, first).value + EncMessage(wide, second).value, dest) == r)
  {
    hide Sendable, Shaped, Room, Overlays, EncFrom, SetDefaults, DecMessage, DecLoop, Agrees, Faithful, AtDefault;
    var xs, ys, base := EncMessage(wide, first).value, EncMessage(wide, second).value, SetDefaults(narrow, dest);
    assert WellFormed(narrow) && WellFormed(wide) && Evolves(narrow, wide) && Conforms(wide, first) by {
      SendableMeans(narrow, wide, first);
    }
    DefaultsAtDefault(narrow, dest);
    DefaultHasRoom(narrow, base, wide, first);
    var m1' := MessageDecodes(narrow, wide, first, base);
    OverDefaults(narrow, base, m1, wide, first);
    AcceptedIff(narrow, wide, second, m1);
    if Room(narrow, m1, wide, second) {
      var m2 := MessageDecodes(narrow, wide, second, m1);
      if NoFixedCount(narrow) {
        assert !DecLoop(narrow, xs, Start(base)).zero;
        ConcatenationIsMerge(narrow, xs, ys, base, m1, m2);
      }
    }
  }

  lemma SendableMeans(narrow: seq<Field>, wide: seq<Field>, m: Message)
    requires Sendable(narrow, wide, m)
    ensures WellFormed(narrow) && WellFormed(wide) && Evolves(narrow, wide) && Conforms(wide, m)
  {
  }
}
