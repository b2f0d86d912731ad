/** Which descriptors and which destinations keep the books balanced whatever bytes are decoded, and inputs
    that upset them where these conditions fail. */
module UpsetConditions {
  import opened Wire
  import opened WireFacts
  import opened Descriptor
  import opened DecodeSpec
  import opened Agreement
  import opened Ownership
  import opened Erasure
  import opened Upsets

  // ---------------------------------------------------------------- No array at the limit of its count

  /** No owning array, at any depth, is as long as its count can tell. */
  ghost predicate Countable(fields: seq<Field>)
    decreases fields
  {
    forall i :: 0 <= i < |fields| ==> CountableField(fields[i])
  }

  ghost predicate CountableField(f: Field)
    decreases f
  {
    !FullLength(f) && (f.ltype.Submessage? ==> Countable(f.ltype.fields))
  }

  lemma {:induction false} CountableLoop(fields: seq<Field>, s: bytes, st: State)
    requires Countable(fields)
    ensures UpsetLoop(fields, s, st) != Lost
    decreases |s|, 3
  {
    hide DecVarint32, Skip, DecField, UpsetField;
    Varint32Used(s);
    if s != [] && DecTag(s).Ok? && DecTag(s).value.Key? {
      assert 1 <= DecTag(s).used <= |s|;
      var Ok(Key(tag, wireType), n) := DecTag(s);
      var rest := s[n..];
      SkipUsed(rest, wireType);
      match Find(fields, tag) {
        case None =>
          if Skip(rest, wireType).Ok? { CountableLoop(fields, rest[Skip(rest, wireType).used..], st); }
        case Some(i) =>
          CountableInField(fields, i, wireType, rest, st);
          var r := DecField(fields, i, wireType, rest, st);
          if r.Ok? { CountableLoop(fields, rest[r.used..], r.value); }
      }
    }
  }

  lemma {:induction false} CountableInField(fields: seq<Field>, i: nat, wireType: nat, s: bytes, st: State)
    requires i < |fields| && Countable(fields)
    ensures UpsetField(fields, i, wireType, s, st) != Lost
    decreases |s|, 2
  {
    hide UpsetSlot;
    if Addr(fields, i) in st.m { CountableSlot(fields[i], wireType, s, st.m[Addr(fields, i)]); }
  }

  lemma {:induction false} CountableSlot(f: Field, wireType: nat, s: bytes, slot: Slot)
    requires CountableField(f)
    ensures UpsetSlot(f, wireType, s, slot) != Lost
    decreases |s|, 1
  {
    hide UpsetValue, FullLength;
    match slot {
      case Plain(v) => CountableValue(f, s, v);
      case Has(_, v) => CountableValue(f, s, v);
      case Array(count, items) => if count < |items| { CountableValue(f, s, items[count]); }
      case Ptr(_) => CountableValue(f, s, NewEntry(f));
      case PtrArray(_, _) => CountableValue(f, s, NewEntry(f));
      case _ =>
    }
  }

  lemma {:induction false} CountableValue(f: Field, s: bytes, prior: Value)
    requires CountableField(f)
    ensures UpsetValue(f, s, prior) != Lost
    decreases |s|, 0
  {
    StringUsed(s);
    if f.ltype.Submessage? && prior.Msg? && DecString(s).Ok? {
      var fields, m := f.ltype.fields, prior.slots;
      CountableLoop(fields, DecString(s).value, Start(if f.htype == Repeated then SetDefaults(fields, m) else m));
    }
  }

  // ---------------------------------------------------------------- No stale array entries

  /** Every entry of every static array, at any depth, owns nothing. */
  ghost predicate Vacant(fields: seq<Field>, m: Message)
    decreases fields, 0
  {
    forall i :: 0 <= i < |fields| && fields[i].htype != Oneof && Addr(fields, i) in m ==>
      VacantSlot(fields[i], m[Addr(fields, i)])
  }

  ghost predicate VacantSlot(f: Field, s: Slot)
    decreases f, 1
  {
    match s
    case Plain(v) => VacantValue(f, v)
    case Has(_, v) => VacantValue(f, v)
    case Array(_, items) =>
      forall k :: 0 <= k < |items| ==> BlocksValue(f, items[k]) == multiset{} && VacantValue(f, items[k])
    case _ => true
  }

  ghost predicate VacantValue(f: Field, v: Value)
    decreases f, 0
  {
    f.ltype.Submessage? && v.Msg? ==> Vacant(f.ltype.fields, v.slots)
  }

  /** The same of the entries that are not in use: what decoding keeps. */
  ghost predicate Tidy(fields: seq<Field>, m: Message)
    decreases fields, 0
  {
    forall i :: 0 <= i < |fields| && fields[i].htype != Oneof && Addr(fields, i) in m ==>
      TidySlot(fields[i], m[Addr(fields, i)])
  }

  ghost predicate TidySlot(f: Field, s: Slot)
    decreases f, 1
  {
    match s
    case Plain(v) => TidyValue(f, v)
    case Has(_, v) => TidyValue(f, v)
    case Array(count, items) => Spare(f, count, items)
    case _ => true
  }

  ghost predicate Spare(f: Field, count: nat, items: seq<Value>)
    decreases f, 0, 1
  {
    forall k :: count <= k < |items| ==> BlocksValue(f, items[k]) == multiset{} && VacantValue(f, items[k])
  }

  ghost predicate TidyValue(f: Field, v: Value)
    decreases f, 0
  {
    f.ltype.Submessage? && v.Msg? ==> Tidy(f.ltype.fields, v.slots)
  }

  lemma {:induction false} VacantIsTidy(fields: seq<Field>, m: Message)
    requires Vacant(fields, m)
    ensures Tidy(fields, m)
    decreases fields
  {
    hide Addr;
    forall i | 0 <= i < |fields| && fields[i].htype != Oneof && Addr(fields, i) in m
      ensures TidySlot(fields[i], m[Addr(fields, i)])
    {
      var f, s := fields[i], m[Addr(fields, i)];
      assert VacantSlot(f, s);
      VacantSlotIsTidy(f, s);
    }
  }

  lemma {:induction false} VacantSlotIsTidy(f: Field, s: Slot)
    requires VacantSlot(f, s)
    ensures TidySlot(f, s)
    decreases f
  {
    if (s.Plain? || s.Has?) && f.ltype.Submessage? && s.v.Msg? { VacantIsTidy(f.ltype.fields, s.v.slots); }
  }

  /** Setting to defaults leaves the array entries alone. */
  lemma {:induction false} VacantDefaults(fields: seq<Field>, m: Message, i: nat)
    requires WellFormed(fields) && Vacant(fields, m) && i <= |fields|
    ensures Vacant(fields, DefaultsFrom(fields, m, i))
    decreases fields, |fields| - i
  {
    hide VacantSlot, DefaultSlot, Addr, WellFormedField;
    if i < |fields| {
      var f, a := fields[i], Addr(fields, i);
      assert WellFormedField(f);
      if a in m {
        if f.htype != Oneof { VacantDefaultSlot(f, m[a]); }
        VacantWritten(fields, m, i, DefaultSlot(f, m[a]));
        VacantDefaults(fields, m[a := DefaultSlot(f, m[a])], i + 1);
      } else {
        VacantDefaults(fields, m, i + 1);
      }
    }
  }

  lemma VacantWritten(fields: seq<Field>, m: Message, i: nat, s: Slot)
    requires WellFormed(fields) && i < |fields| && Vacant(fields, m)
    requires fields[i].htype == Oneof || VacantSlot(fields[i], s)
    ensures Vacant(fields, m[Addr(fields, i) := s])
  {
    hide VacantSlot, Addr, WellFormedField;
  }

  lemma {:induction false} VacantDefaultSlot(f: Field, s: Slot)
    requires WellFormedField(f) && VacantSlot(f, s)
    ensures VacantSlot(f, DefaultSlot(f, s))
    decreases f
  {
    if (s.Plain? || s.Has?) && f.ltype.Submessage? && s.v.Msg? { VacantDefaults(f.ltype.fields, s.v.slots, 0); }
  }

  /** Zeroed memory is vacant. */
  lemma {:induction false} ZeroIsVacant(fields: seq<Field>, i: nat)
    requires WellFormed(fields) && i <= |fields|
    ensures Vacant(fields, ZeroFrom(fields, i))
    decreases fields, |fields| - i
  {
    hide VacantSlot, ZeroSlot, Addr, WellFormedField;
    if i < |fields| {
      assert WellFormedField(fields[i]);
      ZeroIsVacant(fields, i + 1);
      if fields[i].htype != Oneof { ZeroSlotIsVacant(fields[i]); }
      VacantWritten(fields, ZeroFrom(fields, i + 1), i, ZeroSlot(fields[i]));
    }
  }

  lemma {:induction false} ZeroSlotIsVacant(f: Field)
    requires WellFormedField(f)
    ensures VacantSlot(f, ZeroSlot(f))
    decreases f
  {
    hide ZeroFrom, BlocksFrom;
    if f.ltype.Submessage? {
      var fields := f.ltype.fields;
      ZeroIsVacant(fields, 0);
    }
    ZeroSlotOwnsNothing(f);
  }

  lemma {:induction false} ZeroOwnsNothing(fields: seq<Field>, i: nat)
    requires WellFormed(fields) && i <= |fields|
    ensures forall j :: i <= j < |fields| ==>
              && Addr(fields, j) in ZeroFrom(fields, i)
              && BlocksSlot(fields[j], ZeroFrom(fields, i)[Addr(fields, j)]) == multiset{}
    decreases fields, |fields| - i
  {
    hide BlocksSlot, ZeroSlot, WellFormedField, Addr;
    if i < |fields| {
      var a, rest := Addr(fields, i), ZeroFrom(fields, i + 1);
      assert WellFormedField(fields[i]);
      ZeroOwnsNothing(fields, i + 1);
      ZeroSlotOwnsNothing(fields[i]);
      assert ZeroFrom(fields, i) == rest[a := ZeroSlot(fields[i])];
      forall j | i < j < |fields| && Addr(fields, j) == a
        ensures BlocksSlot(fields[j], ZeroSlot(fields[i])) == multiset{}
      {
        ZeroUnion(fields[i], fields[j]);
      }
    }
  }

  lemma ZeroUnion(f: Field, g: Field)
    requires f.htype == Oneof
    ensures BlocksSlot(g, ZeroSlot(f)) == multiset{}
  {
  }

  lemma {:induction false} ZeroSlotOwnsNothing(f: Field)
    requires WellFormedField(f)
    ensures BlocksValue(f, ZeroValue(f)) == multiset{} && BlocksSlot(f, ZeroSlot(f)) == multiset{}
    decreases f
  {
    hide ZeroFrom, BlocksFrom;
    if f.ltype.Submessage? {
      var fields := f.ltype.fields;
      ZeroOwnsNothing(fields, 0);
      SlotsOwnNothing(fields, ZeroFrom(fields, 0), 0);
    }
    assert BlocksValue(f, ZeroValue(f)) == multiset{};
    if ZeroSlot(f).FixedArray? { ItemsOwnNothing(f, ZeroSlot(f).items, f.arraySize); }
  }

  // ---------------------------------------------------------------- Decoding from a vacant struct

  lemma TidyWritten(fields: seq<Field>, m: Message, i: nat, s: Slot)
    requires WellFormed(fields) && i < |fields| && Tidy(fields, m)
    requires fields[i].htype == Oneof || TidySlot(fields[i], s)
    ensures Tidy(fields, m[Addr(fields, i) := s])
  {
    hide TidySlot, Addr, WellFormedField;
  }

  lemma {:induction false} TidyLoop(fields: seq<Field>, s: bytes, st: State)
    requires WellFormed(fields) && Tidy(fields, st.m)
    ensures UpsetLoop(fields, s, st) != Stale
    ensures DecLoop(fields, s, st).Done? ==> Tidy(fields, DecLoop(fields, s, st).st.m)
    decreases |s|, 4
  {
    hide DecVarint32, Skip, DecField, UpsetField, Tidy, WellFormed;
    Varint32Used(s);
    if s != [] && DecTag(s).Ok? && DecTag(s).value.Key? {
      assert 1 <= DecTag(s).used <= |s|;
      var Ok(Key(tag, wireType), n) := DecTag(s);
      var rest := s[n..];
      SkipUsed(rest, wireType);
      match Find(fields, tag) {
        case None =>
          if Skip(rest, wireType).Ok? { TidyLoop(fields, rest[Skip(rest, wireType).used..], st); }
        case Some(i) =>
          TidyField(fields, i, wireType, rest, st);
          var r := DecField(fields, i, wireType, rest, st);
          if r.Ok? { TidyLoop(fields, rest[r.used..], r.value); }
      }
    }
  }

  lemma {:induction false} TidyField(fields: seq<Field>, i: nat, wireType: nat, s: bytes, st: State)
    requires WellFormed(fields) && i < |fields| && Tidy(fields, st.m)
    ensures UpsetField(fields, i, wireType, s, st) != Stale
    ensures var r := DecField(fields, i, wireType, s, st); r.Ok? ==> Tidy(fields, r.value.m)
    decreases |s|, 3
  {
    hide DecSlot, DecEntries, UpsetSlot, TidySlot, Addr, WellFormedField;
    var f, a := fields[i], Addr(fields, i);
    assert WellFormedField(f);
    if a in st.m {
      if f.htype != Oneof {
        assert TidySlot(f, st.m[a]);
        if !f.FixedCount() { TidyInSlot(fields, f, wireType, s, st.m[a]); }
      } else {
        OneofIsKept(f, wireType, s, st.m[a]);
      }
      var r := DecField(fields, i, wireType, s, st);
      if r.Ok? {
        FixedIsTidy(f, r.value.m[a]);
        TidyWritten(fields, st.m, i, r.value.m[a]);
      }
    }
  }

  lemma OneofIsKept(f: Field, wireType: nat, s: bytes, slot: Slot)
    requires f.htype == Oneof
    ensures UpsetSlot(f, wireType, s, slot) == Kept
  {
  }

  lemma FixedIsTidy(f: Field, s: Slot)
    ensures s.FixedArray? ==> TidySlot(f, s)
  {
  }

  lemma {:induction false} TidyInSlot(fields: seq<Field>, f: Field, wireType: nat, s: bytes, slot: Slot)
    requires WellFormedField(f) && f.htype != Oneof && TidySlot(f, slot)
    ensures UpsetSlot(f, wireType, s, slot) != Stale
    ensures var r := DecSlot(fields, f, wireType, s, slot); r.Ok? ==> TidySlot(f, r.value)
    decreases |s|, 2
  {
    hide UpsetValue, UpsetEntries, DecValue, DecEntries, DecPointer, NewEntry, TidyValue, Spare, WellFormedField;
    match slot {
      case Plain(v) => if f.htype != Repeated { TidyDecoded(f, s, v); }
      case Has(_, v) => if f.htype != Repeated { TidyDecoded(f, s, v); }
      case Array(count, items) => if f.htype == Repeated { TidyEntries(f, wireType, s, Entries(count, items)); }
      case Ptr(_) => NewEntryIsKept(f, s); PointerStays(f, wireType, s, slot);
      case PtrArray(_, _) => NewEntryIsKept(f, s); PointerStays(f, wireType, s, slot);
      case _ =>
    }
  }

  lemma PointerStays(f: Field, wireType: nat, s: bytes, slot: Slot)
    ensures var r := DecPointer(f, wireType, s, slot); r.Ok? ==> TidySlot(f, r.value)
  {
  }

  lemma {:induction false} TidyEntries(f: Field, wireType: nat, s: bytes, e: Entries)
    requires WellFormedField(f) && f.htype == Repeated && Spare(f, e.count, e.items)
    ensures UpsetEntries(f, wireType, s, e) != Stale
    ensures var r := DecEntries(f, wireType, s, e); r.Ok? ==> Spare(f, r.value.count, r.value.items)
    decreases |s|, 1, 0
  {
    hide DecValue, UpsetValue, VacantValue, BlocksValue;
    if wireType == WT_STRING && f.ltype.Packable() {
      if DecString(s).Ok? { TidyPacked(f, DecString(s).value, e); }
    } else if e.count < |e.items| {
      TidyNew(f, s, e.items[e.count]);
    }
  }

  lemma {:induction false} TidyPacked(f: Field, payload: bytes, e: Entries)
    requires Spare(f, e.count, e.items)
    ensures var r := DecPacked(f, payload, e); r.Some? ==> Spare(f, r.value.count, r.value.items)
    decreases |payload|
  {
    hide DecValue, VacantValue, BlocksValue;
    if payload != [] && e.count < f.arraySize && e.count < |e.items| {
      var r := DecValue(f, payload, e.items[e.count]);
      if r.Ok? { TidyPacked(f, payload[r.used..], Entries(e.count + 1, e.items[e.count := r.value])); }
    }
  }

  /** A value merged into what was there. */
  lemma {:induction false} TidyDecoded(f: Field, s: bytes, v: Value)
    requires WellFormedField(f) && f.htype != Repeated && TidyValue(f, v)
    ensures UpsetValue(f, s, v) != Stale
    ensures var r := DecValue(f, s, v); r.Ok? ==> TidyValue(f, r.value)
    decreases |s|, 1, 0
  {
    hide Tidy, DecLoop, UpsetLoop;
    StringUsed(s);
    if f.ltype.Submessage? && v.Msg? && DecString(s).Ok? {
      TidyLoop(f.ltype.fields, DecString(s).value, Start(v.slots));
    }
  }

  /** An array entry is set to its defaults first. */
  lemma {:induction false} TidyNew(f: Field, s: bytes, v: Value)
    requires WellFormedField(f) && f.htype == Repeated && BlocksValue(f, v) == multiset{} && VacantValue(f, v)
    ensures UpsetValue(f, s, v) != Stale
    decreases |s|, 0
  {
    hide Tidy, Vacant, UpsetLoop, SetDefaults, BlocksFrom;
    StringUsed(s);
    if f.ltype.Submessage? && v.Msg? && DecString(s).Ok? {
      var fields, m := f.ltype.fields, v.slots;
      VacantReset(fields, m);
      TidyLoop(fields, DecString(s).value, Start(SetDefaults(fields, m)));
    }
  }

  lemma VacantReset(fields: seq<Field>, m: Message)
    requires WellFormed(fields) && Vacant(fields, m)
    ensures Vacant(fields, SetDefaults(fields, m)) && Tidy(fields, SetDefaults(fields, m))
  {
    hide Tidy, Vacant;
    VacantDefaults(fields, m, 0);
    VacantIsTidy(fields, SetDefaults(fields, m));
  }

  /** Entries of the heap are made from zeroed memory. */
  lemma {:induction false} NewEntryIsKept(f: Field, s: bytes)
    requires WellFormedField(f)
    ensures UpsetValue(f, s, NewEntry(f)) != Stale
    decreases |s|, 1, 1
  {
    hide Tidy, Vacant, UpsetValue, SetDefaults, ZeroFrom, BlocksFrom;
    if f.ltype.Submessage? {
      var fields := f.ltype.fields;
      var m := SetDefaults(fields, ZeroFrom(fields, 0));
      ZeroIsVacant(fields, 0);
      VacantReset(fields, ZeroFrom(fields, 0));
      ZeroIsShaped(fields);
      DefaultsOwnNothing(fields, ZeroFrom(fields, 0));
      if f.htype == Repeated { TidyNew(f, s, Msg(m)); } else { TidyDecoded(f, s, Msg(m)); }
    } else {
      ScalarIsKept(f, s, NewEntry(f));
    }
  }

  lemma ScalarIsKept(f: Field, s: bytes, v: Value)
    requires !f.ltype.Submessage?
    ensures UpsetValue(f, s, v) == Kept
  {
  }

  // ---------------------------------------------------------------- Every input

  lemma {:induction false} ErasedVacant(fields: seq<Field>, m: Message)
    requires Vacant(fields, m)
    ensures Vacant(fields, Erased(m))
    decreases fields, 1
  {
    hide VacantSlot, ErasedSlot, Addr;
    forall i | 0 <= i < |fields| && fields[i].htype != Oneof && Addr(fields, i) in m
      ensures VacantSlot(fields[i], ErasedSlot(m[Addr(fields, i)]))
    {
      ErasedVacantSlot(fields[i], m[Addr(fields, i)]);
    }
  }

  lemma {:induction false} ErasedVacantSlot(f: Field, s: Slot)
    requires VacantSlot(f, s)
    ensures VacantSlot(f, ErasedSlot(s))
    decreases f, 1
  {
    hide VacantValue, ErasedValue, BlocksValue;
    match s {
      case Plain(v) => ErasedVacantValue(f, v);
      case Has(_, v) => ErasedVacantValue(f, v);
      case Array(_, items) =>
        forall k | 0 <= k < |items|
          ensures BlocksValue(f, ErasedItems(items)[k]) == multiset{} && VacantValue(f, ErasedItems(items)[k])
        {
          ErasedValueOwns(f, items[k]);
          ErasedVacantValue(f, items[k]);
        }
      case _ =>
    }
  }

  lemma {:induction false} ErasedVacantValue(f: Field, v: Value)
    requires VacantValue(f, v)
    ensures VacantValue(f, ErasedValue(v))
    decreases f, 0
  {
    if f.ltype.Submessage? && v.Msg? {
      ErasedMessage(v.slots);
      ErasedVacant(f.ltype.fields, v.slots);
    }
  }

  /** With arrays that can be counted and entries that own nothing, no byte sequence upsets the books. */
  lemma NothingUpsets(fields: seq<Field>, dest: Message, s: bytes)
    requires WellFormed(fields)
    ensures Countable(fields) ==> UpsetLoop(fields, s, Start(SetDefaults(fields, Erased(dest)))) != Lost
    ensures Vacant(fields, dest) ==> UpsetLoop(fields, s, Start(SetDefaults(fields, Erased(dest)))) != Stale
  {
    hide Countable, Vacant, Tidy, UpsetLoop, SetDefaults, Erased;
    var st := Start(SetDefaults(fields, Erased(dest)));
    if Countable(fields) { CountableLoop(fields, s, st); }
    if Vacant(fields, dest) {
      ErasedVacant(fields, dest);
      VacantReset(fields, Erased(dest));
      TidyLoop(fields, s, st);
    }
  }
}
