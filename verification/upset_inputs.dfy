/** Inputs that upset the books: an entry cut off behind its key, and one entry more than can be counted. */
module UpsetInputs {
  import opened Wrappers
  import opened Wire
  import opened WireFacts
  import opened Descriptor
  import opened FieldIterator
  import opened DecodeSpec
  import opened Agreement
  import opened Ownership
  import opened Upsets

  /** Field `i` is a counted array of submessages. */
  ghost predicate EntryField(fields: seq<Field>, i: nat) {
    && WellFormed(fields) && i < |fields| && fields[i].tag < 0x2000_0000
    && fields[i].htype == Repeated && fields[i].atype == Static && fields[i].ltype.Submessage?
  }

  /** Field `i` with `count` entries in use. */
  ghost predicate Holds(fields: seq<Field>, i: nat, m: Message, count: nat, items: seq<Value>)
    requires i < |fields|
  {
    && Addr(fields, i) in m && m[Addr(fields, i)] == Array(count, items)
    && !fields[i].FixedCount() && |items| == fields[i].arraySize && forall k :: 0 <= k < |items| ==> items[k].Msg?
  }

  function Entry(f: Field, payload: bytes): bytes {
    EncTag(WT_STRING, f.tag) + EncString(payload)
  }

  /** `n` times the same entry, and what follows. */
  function Run(f: Field, payload: bytes, n: nat, tail: bytes): bytes {
    if n == 0 then tail else Entry(f, payload) + Run(f, payload, n - 1, tail)
  }

  /** The payload decodes as an entry over what memory held. */
  predicate Fills(f: Field, payload: bytes, prior: Value)
    requires f.ltype.Submessage? && prior.Msg?
  {
    DecMessage(f.ltype.fields, payload, SetDefaults(f.ltype.fields, prior.slots)).Some?
  }

  function Filled(f: Field, payload: bytes, prior: Value): Value
    requires f.ltype.Submessage? && prior.Msg? && Fills(f, payload, prior)
  {
    Msg(DecMessage(f.ltype.fields, payload, SetDefaults(f.ltype.fields, prior.slots)).value)
  }

  // ---------------------------------------------------------------- One entry at a time

  /** The key of an entry, which the loop reads first. */
  lemma KeyTurn(fields: seq<Field>, i: nat, rest: bytes, st: State)
    requires EntryField(fields, i)
    ensures UpsetLoop(fields, EncTag(WT_STRING, fields[i].tag) + rest, st) ==
            var r := DecField(fields, i, WT_STRING, rest, st);
            if r.Ok? then UpsetLoop(fields, rest[r.used..], r.value) else UpsetField(fields, i, WT_STRING, rest, st)
  {
    hide DecVarint32, EncTag, DecField, UpsetField, Skip;
    var tag := fields[i].tag;
    assert WellFormedField(fields[i]);
    FindIsUnique(fields, i);
    TagRoundTrip(WT_STRING, tag, rest);
    var s := EncTag(WT_STRING, tag) + rest;
    Varint32Used(s);
    assert s[|EncTag(WT_STRING, tag)|..] == rest;
  }

  lemma EntryTurn(fields: seq<Field>, i: nat, payload: bytes, rest: bytes, st: State, count: nat, items: seq<Value>)
    requires EntryField(fields, i) && Holds(fields, i, st.m, count, items)
    requires |payload| < WORD32 && count < |items| && Fills(fields[i], payload, items[count])
    ensures UpsetLoop(fields, Entry(fields[i], payload) + rest, st) ==
            var entry := Filled(fields[i], payload, items[count]);
            UpsetLoop(fields, rest, st.(m := st.m[Addr(fields, i) := Array(count + 1, items[count := entry])]))
  {
    hide DecString, EncTag, EncString, DecMessage, UpsetLoop, SetDefaults, Addr, WellFormed, Fills;
    var f := fields[i];
    var tail := EncString(payload) + rest;
    assert Entry(f, payload) + rest == EncTag(WT_STRING, f.tag) + tail;
    StringRoundTrip(payload, rest);
    KeyTurn(fields, i, tail, st);
    assert tail[|EncString(payload)|..] == rest;
    assert st.seen + Marks(fields, i) == st.seen;
    FillsFacts(f, payload, items[count]);
    var v, n := Filled(f, payload, items[count]), |EncString(payload)|;
    assert DecValue(f, tail, items[count]) == Ok(v, n);
    assert !f.ltype.Packable();
    assert DecEntries(f, WT_STRING, tail, Entries(count, items)) == Ok(Entries(count + 1, items[count := v]), n);
    var slot := Array(count + 1, items[count := v]);
    assert DecSlot(fields, f, WT_STRING, tail, Array(count, items)) == Ok(slot, n);
    assert DecField(fields, i, WT_STRING, tail, st) == Ok(st.(m := st.m[Addr(fields, i) := slot]), n);
  }

  lemma FillsFacts(f: Field, payload: bytes, prior: Value)
    requires f.ltype.Submessage? && prior.Msg? && Fills(f, payload, prior)
    ensures DecMessage(f.ltype.fields, payload, SetDefaults(f.ltype.fields, prior.slots)).Some?
  {
  }

  // ---------------------------------------------------------------- A stale entry

  /** Empty entries up to the stale one, then a key with nothing behind it. */
  lemma {:induction false} StaleReached(fields: seq<Field>, i: nat, st: State, count: nat, items: seq<Value>, k: nat)
    requires EntryField(fields, i) && Holds(fields, i, st.m, count, items) && count <= k < |items|
    requires forall j :: count <= j < k ==> Fills(fields[i], [], items[j])
    requires BlocksValue(fields[i], items[k]) != multiset{}
    ensures UpsetLoop(fields, Run(fields[i], [], k - count, EncTag(WT_STRING, fields[i].tag)), st) == Stale
    decreases k - count
  {
    hide UpsetLoop, EncTag, Fills, Addr, WellFormed, BlocksValue, Filled;
    var f := fields[i];
    if count < k {
      var v := Filled(f, [], items[count]);
      var st' := st.(m := st.m[Addr(fields, i) := Array(count + 1, items[count := v])]);
      EntryTurn(fields, i, [], Run(f, [], k - count - 1, EncTag(WT_STRING, f.tag)), st, count, items);
      FilledIsMessage(f, [], items[count]);
      StaleReached(fields, i, st', count + 1, items[count := v], k);
    } else {
      assert EncTag(WT_STRING, f.tag) + [] == EncTag(WT_STRING, f.tag);
      KeyTurn(fields, i, [], st);
      CutOff(fields, i, st, count, items);
    }
  }

  lemma FilledIsMessage(f: Field, payload: bytes, prior: Value)
    requires f.ltype.Submessage? && prior.Msg? && Fills(f, payload, prior)
    ensures Filled(f, payload, prior).Msg?
  {
  }

  /** The entry is counted, but without a length prefix it is not initialised. */
  lemma CutOff(fields: seq<Field>, i: nat, st: State, count: nat, items: seq<Value>)
    requires EntryField(fields, i) && Holds(fields, i, st.m, count, items) && count < |items|
    requires BlocksValue(fields[i], items[count]) != multiset{}
    ensures DecField(fields, i, WT_STRING, [], st).Fail? && UpsetField(fields, i, WT_STRING, [], st) == Stale
  {
    hide Addr, WellFormed;
    var f := fields[i];
    assert !f.ltype.Packable() && DecString([]).Fail?;
    assert UpsetValue(f, [], items[count]) == Stale;
    assert UpsetEntries(f, WT_STRING, [], Entries(count, items)) == Stale;
  }

  // ---------------------------------------------------------------- One entry too many

  /** As many entries as can be counted, and one more; the first of them owns something. */
  lemma {:induction false} OverlongRun(fields: seq<Field>, i: nat, st: State, count: nat, items: seq<Value>,
                                       payload: bytes)
    requires EntryField(fields, i) && Holds(fields, i, st.m, count, items) && count <= |items|
    requires FullLength(fields[i]) && |payload| < WORD32
    requires forall j :: count <= j < |items| ==> Fills(fields[i], payload, items[j])
    requires |items| > 0
    requires BlocksValue(fields[i], if count == 0 then Filled(fields[i], payload, items[0]) else items[0]) != multiset{}
    ensures UpsetLoop(fields, Run(fields[i], payload, |items| - count + 1, []), st) == Lost
    decreases |items| - count
  {
    hide UpsetLoop, EncTag, EncString, Fills, Addr, WellFormed, BlocksValue, Filled, FullLength;
    var f := fields[i];
    var rest := Run(f, payload, |items| - count, []);
    if count < |items| {
      var v := Filled(f, payload, items[count]);
      EntryTurn(fields, i, payload, rest, st, count, items);
      FilledIsMessage(f, payload, items[count]);
      OverlongRun(fields, i, st.(m := st.m[Addr(fields, i) := Array(count + 1, items[count := v])]), count + 1,
                  items[count := v], payload);
    } else {
      assert Entry(f, payload) + [] == EncTag(WT_STRING, f.tag) + EncString(payload);
      KeyTurn(fields, i, EncString(payload), st);
      TooMany(fields, i, EncString(payload), st, items);
    }
  }

  lemma TooMany(fields: seq<Field>, i: nat, s: bytes, st: State, items: seq<Value>)
    requires EntryField(fields, i) && Holds(fields, i, st.m, |items|, items) && FullLength(fields[i])
    requires |items| > 0 && BlocksValue(fields[i], items[0]) != multiset{}
    ensures DecField(fields, i, WT_STRING, s, st).Fail? && UpsetField(fields, i, WT_STRING, s, st) == Lost
  {
    hide Addr, WellFormed, BlocksValue, FullLength;
    var f := fields[i];
    ItemsOwnNothingIff(f, items, |items|);
    assert !f.ltype.Packable();
    assert BlocksItems(f, items, |items|) != multiset{};
    assert FullLength(f) && |items| >= f.arraySize;
    assert UpsetEntries(f, WT_STRING, s, Entries(|items|, items)) == Lost;
    assert DecEntries(f, WT_STRING, s, Entries(|items|, items)).Fail?;
  }

  // ---------------------------------------------------------------- From a destination

  /** Setting to defaults empties an array and leaves its entries as they were. */
  lemma {:induction false} ArrayReset(fields: seq<Field>, m: Message, i: nat, from: nat)
    requires EntryField(fields, i) && from <= |fields| && Addr(fields, i) in m && m[Addr(fields, i)].Array?
    ensures var m', a := DefaultsFrom(fields, m, from), Addr(fields, i);
            && a in m' && m'[a].Array? && m'[a].items == m[a].items
            && (from <= i ==> m'[a].count == 0) && (from > i ==> m'[a] == m[a])
    decreases |fields| - from
  {
    hide Addr, WellFormedField;
    if from < |fields| {
      var b := Addr(fields, from);
      ArrayReset(fields, if b in m then m[b := DefaultSlot(fields[from], m[b])] else m, i, from + 1);
    }
  }

  lemma ReadyToFill(fields: seq<Field>, m: Message, i: nat)
    requires EntryField(fields, i) && !fields[i].FixedCount() && Shaped(fields, m)
    ensures Addr(fields, i) in m && m[Addr(fields, i)].Array?
    ensures Holds(fields, i, SetDefaults(fields, m), 0, m[Addr(fields, i)].items)
  {
    hide Addr, WellFormed, DefaultsFrom, ShapedValue;
    var f, a := fields[i], Addr(fields, i);
    assert ShapedSlot(f, m[a]);
    ArrayReset(fields, m, i, 0);
    EntriesAreMessages(f, m[a].items);
  }

  lemma EntriesAreMessages(f: Field, items: seq<Value>)
    requires f.ltype.Submessage? && forall k :: 0 <= k < |items| ==> ShapedValue(f, items[k])
    ensures forall k :: 0 <= k < |items| ==> items[k].Msg?
  {
  }

  lemma EmptyFills(f: Field, prior: Value)
    requires f.ltype.Submessage? && prior.Msg? && RequiredMet(f.ltype.fields, {})
    ensures Fills(f, [], prior)
  {
    hide SetDefaults;
    var fields, m := f.ltype.fields, SetDefaults(f.ltype.fields, prior.slots);
    assert DecLoop(fields, [], Start(m)) == Done(Start(m), 0, false);
  }

  /** Whatever entry of an array of the destination is stale, some input makes release take it: at once if
      it is the first, otherwise if the entries before it may be empty messages. */
  lemma StaleDestination(fields: seq<Field>, dest: Message, i: nat, k: nat) returns (input: bytes)
    requires EntryField(fields, i) && !fields[i].FixedCount() && Shaped(fields, dest)
    requires var a := Addr(fields, i);
             && a in dest && dest[a].Array? && k < |dest[a].items|
             && BlocksValue(fields[i], dest[a].items[k]) != multiset{}
    requires k > 0 ==> RequiredMet(fields[i].ltype.fields, {})
    ensures input == Run(fields[i], [], k, EncTag(WT_STRING, fields[i].tag))
    ensures UpsetLoop(fields, input, Start(SetDefaults(fields, dest))) == Stale
  {
    hide UpsetLoop, SetDefaults, Addr, WellFormed, Shaped, BlocksValue, Fills, RequiredMet;
    var items := dest[Addr(fields, i)].items;
    ReadyToFill(fields, dest, i);
    forall j | 0 <= j < k ensures Fills(fields[i], [], items[j]) { EmptyFills(fields[i], items[j]); }
    input := Run(fields[i], [], k, EncTag(WT_STRING, fields[i].tag));
    StaleReached(fields, i, Start(SetDefaults(fields, dest)), 0, items, k);
  }

  /** Whatever the destination, an array as long as its count can tell is lost if its entries can be filled
      with something that owns memory. */
  lemma LostDestination(fields: seq<Field>, dest: Message, i: nat, payload: bytes) returns (input: bytes)
    requires EntryField(fields, i) && !fields[i].FixedCount() && Shaped(fields, dest)
    requires FullLength(fields[i]) && |payload| < WORD32
    requires forall v :: ShapedValue(fields[i], v) ==>
               && v.Msg? && Fills(fields[i], payload, v)
               && BlocksValue(fields[i], Filled(fields[i], payload, v)) != multiset{}
    ensures input == Run(fields[i], payload, fields[i].arraySize + 1, [])
    ensures UpsetLoop(fields, input, Start(SetDefaults(fields, dest))) == Lost
  {
    hide UpsetLoop, SetDefaults, Addr, WellFormed, ShapedValue, BlocksValue, Fills, Filled;
    var f, items := fields[i], dest[Addr(fields, i)].items;
    ReadyToFill(fields, dest, i);
    assert forall k :: 0 <= k < |items| ==> ShapedValue(f, items[k]) by { assert ShapedSlot(f, dest[Addr(fields, i)]); }
    input := Run(f, payload, f.arraySize + 1, []);
    OverlongRun(fields, i, Start(SetDefaults(fields, dest)), 0, items, payload);
  }

  // ---------------------------------------------------------------- The smallest such array

  /** The smallest entry that owns something: a submessage with one string on the heap. */
  const NOTE: Field := Field(1, String, Optional, Pointer, 0, 0, 0, 0, None)
  const NOTES: Field := Field(1, Submessage([NOTE]), Repeated, Static, 2, -2, POINTER_SIZE, PB_SIZE_MAX, None)

  lemma NotesAreWellFormed()
    ensures WellFormed([NOTE]) && EntryField([NOTES], 0) && FullLength(NOTES) && !NOTES.FixedCount()
  {
    assert !AllStaticField(NOTE);
    assert [NOTE][0] == NOTE && [NOTES][0] == NOTES;
    assert NOTES.sizeOffset == -2 && !NOTES.FixedCount();
    assert WellFormedField(NOTE);
    assert WellFormed([NOTE]);
    assert WellFormedField(NOTES);
  }

  /** An empty string, which its decoder allocates all the same. */
  const EMPTY_NOTE: bytes := [0x0A, 0]

  lemma NoteDecodes(m: Message)
    requires 0 in m && m[0].Ptr?
    ensures DecMessage([NOTE], EMPTY_NOTE, m) == Some(m[0 := Ptr(Single(Data([])))])
  {
    hide DecVarint32, RequiredBefore;
    var st := Start(m);
    TagRoundTrip(WT_STRING, 1, [0]);
    assert EncTag(WT_STRING, 1) == [0x0A];
    assert EMPTY_NOTE == [0x0A] + [0];
    StringRoundTrip([], []);
    assert EncString([]) + [] == [0];
    assert Find([NOTE], 1) == Some(0) by { assert [NOTE][..0] == []; }
    assert Addr([NOTE], 0) == 0;
    var slot := Ptr(Single(Data([])));
    assert DecOwned(NOTE, [0]) == Ok(Data([]), 1);
    assert DecSlot([NOTE], NOTE, WT_STRING, [0], m[0]) == Ok(slot, 1);
    assert st.seen + Marks([NOTE], 0) == {};
    assert DecField([NOTE], 0, WT_STRING, [0], st) == Ok(State(m[0 := slot], {}, None, 0), 1);
  }

  lemma NoteFills(v: Value)
    requires ShapedValue(NOTES, v)
    ensures v.Msg? && Fills(NOTES, EMPTY_NOTE, v) && BlocksValue(NOTES, Filled(NOTES, EMPTY_NOTE, v)) != multiset{}
  {
    hide DecMessage, SetDefaults;
    NotesAreWellFormed();
    assert Addr([NOTE], 0) == 0 && [NOTE][0] == NOTE;
    var m := SetDefaults([NOTE], v.slots);
    DefaultsAtDefault([NOTE], v.slots);
    assert 0 in m && ShapedSlot(NOTE, m[0]);
    NoteDecodes(m);
    var slot := Ptr(Single(Data([])));
    assert BlocksSlot(NOTE, slot) == multiset{0};
    SlotIsPart([NOTE], m[0 := slot], 0, 0);
    assert 0 in Blocks([NOTE], m[0 := slot]);
  }

  /** One note more than `pb_size_t` can count. */
  function TooManyNotes(): bytes {
    Run(NOTES, EMPTY_NOTE, PB_SIZE_MAX + 1, [])
  }

  lemma NotesAreLost(dest: Message)
    requires Shaped([NOTES], dest)
    ensures UpsetLoop([NOTES], TooManyNotes(), Start(SetDefaults([NOTES], dest))) == Lost
  {
    hide UpsetLoop, SetDefaults, ShapedValue, Shaped, Fills, Filled, BlocksValue;
    NotesAreWellFormed();
    forall v | ShapedValue(NOTES, v)
      ensures v.Msg? && Fills(NOTES, EMPTY_NOTE, v) && BlocksValue(NOTES, Filled(NOTES, EMPTY_NOTE, v)) != multiset{}
    {
      NoteFills(v);
    }
    assert [NOTES][0] == NOTES;
    var input := LostDestination([NOTES], dest, 0, EMPTY_NOTE);
  }

  /** A note whose string is block `b`, wherever it came from. */
  function StaleNote(b: nat): Value {
    Msg(map[0 := Ptr(Block(b, [Data([])]))])
  }

  /** A destination with no notes, whose first entry's memory happens to look like one. */
  function StaleNotes(b: nat): Message {
    map[2 := Array(0, Repeat(StaleNote(b), PB_SIZE_MAX))]
  }

  lemma StaleNotesAreShaped(b: nat)
    ensures Shaped([NOTES], StaleNotes(b)) && BlocksValue(NOTES, StaleNote(b)) == multiset{b}
  {
    assert Addr([NOTES], 0) == 2 && [NOTES][0] == NOTES && Addr([NOTE], 0) == 0 && [NOTE][0] == NOTE;
    var note := Ptr(Block(b, [Data([])]));
    assert ShapedItem(NOTE, Data([]));
    assert ShapedSlot(NOTE, note) && BlocksSlot(NOTE, note) == multiset{b};
    var m: Message := map[0 := note];
    assert BlocksFrom([NOTE], m, 0) == BlocksAt(NOTE, m, 0) + BlocksFrom([NOTE], m, 1);
    assert ShapedValue(NOTES, StaleNote(b));
  }

  /** The key of an entry alone. */
  lemma NotesAreStale(b: nat)
    ensures UpsetLoop([NOTES], [0x0A], Start(SetDefaults([NOTES], StaleNotes(b)))) == Stale
  {
    hide UpsetLoop, SetDefaults, ShapedValue, Shaped, BlocksValue;
    NotesAreWellFormed();
    StaleNotesAreShaped(b);
    assert Addr([NOTES], 0) == 2 && [NOTES][0] == NOTES;
    assert EncTag(WT_STRING, 1) == [0x0A];
    var input := StaleDestination([NOTES], StaleNotes(b), 0, 0);
  }
}
