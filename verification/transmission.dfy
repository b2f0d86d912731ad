/** From one struct to another: encoding into a memory buffer, decoding from it, and releasing. */
module Transmission {
  import opened Wire
  import opened Descriptor
  import opened EncodeSpec
  import opened DecodeSpec
  import opened Agreement
  import opened RecordRuns
  import opened Evolution
  import opened Encodability
  import opened Ownership
  import opened Erasure
  import opened Upsets
  import opened UpsetConditions
  import opened UpsetInputs
  import opened Refinement
  import opened Regularity
  import opened OutputStream
  import opened InputStream
  import opened Heap
  import opened Releaser
  import Encoder
  import Decoder

  // ---------------------------------------------------------------- Shape is kept by erasing

  lemma {:induction false} ErasedIsShaped(fields: seq<Field>, m: Message)
    requires Shaped(fields, m)
    ensures Shaped(fields, Erased(m))
    decreases fields, 1
  {
    hide ShapedSlot, ErasedSlot, Addr;
    forall i | 0 <= i < |fields|
      ensures Addr(fields, i) in Erased(m) && ShapedSlot(fields[i], Erased(m)[Addr(fields, i)])
    {
      ErasedSlotIsShaped(fields[i], m[Addr(fields, i)]);
    }
  }

  lemma {:induction false} ErasedSlotIsShaped(f: Field, s: Slot)
    requires ShapedSlot(f, s)
    ensures ShapedSlot(f, ErasedSlot(s))
    decreases f, 2
  {
    hide ShapedValue, ShapedItem, ErasedValue;
    match s {
      case Plain(v) => ErasedValueIsShaped(f, v);
      case Has(_, v) => ErasedValueIsShaped(f, v);
      case Array(_, items) => forall k | 0 <= k < |items| { ErasedValueIsShaped(f, items[k]); }
      case FixedArray(items) => forall k | 0 <= k < |items| { ErasedValueIsShaped(f, items[k]); }
      case Union(which, v) => if which == f.tag { ErasedValueIsShaped(f, v); }
      case Ptr(p) => if p.Block? { ErasedItemIsShaped(f, p.items[0]); }
      case PtrArray(count, p) => if p.Block? { forall k | 0 <= k < count { ErasedItemIsShaped(f, p.items[k]); } }
    }
  }

  lemma {:induction false} ErasedItemIsShaped(f: Field, v: Value)
    requires ShapedItem(f, v)
    ensures ShapedItem(f, ErasedValue(v))
    decreases f, 1
  {
    if f.ltype.Submessage? { ErasedValueIsShaped(f, v); }
  }

  lemma {:induction false} ErasedValueIsShaped(f: Field, v: Value)
    requires ShapedValue(f, v)
    ensures ShapedValue(f, ErasedValue(v))
    decreases f, 0
  {
    if f.ltype.Submessage? {
      ErasedMessage(v.slots);
      ErasedIsShaped(f.ltype.fields, v.slots);
    }
  }

  // ---------------------------------------------------------------- Sending and receiving

  /** `pb_ostream_from_buffer` and `pb_encode`. */
  method Send(fields: seq<Field>, m: Message, buf: array<byte>) returns (ok: bool, n: nat)
    requires WellFormed(fields) && Shaped(fields, m)
    modifies buf
    ensures EncMessage(fields, m).Some? <==> Fits(fields, m)
    ensures ok <==> Fits(fields, m) && |EncMessage(fields, m).value| <= buf.Length
    ensures ok ==> n == |EncMessage(fields, m).value|
                   && buf[..] == EncMessage(fields, m).value + old(buf[..])[n..]
  {
    MessageEncodes(fields, m);
    var os := new OStream(false, buf, 0, buf.Length);
    ok := Encoder.EncodeMessage(os, fields, m);
    n := os.bytesWritten;
  }

  /** What one side encodes into a buffer, a side with an older or equal descriptor decodes, whatever its
      struct held, unless an allocation is refused. It shows the fields it knows as they were sent, if and
      only if nothing was left out that it fills in otherwise; and on its heap there is what it owns. */
  method Transmit(wide: seq<Field>, m: Message, buf: array<byte>, h: Arena, narrow: seq<Field>, dest: Message)
    returns (ok: bool, m': Message)
    requires Sendable(narrow, wide, m) && Shaped(narrow, dest) && h.Valid() && buf.Length < WORD32
    modifies buf, h
    ensures EncMessage(wide, m).Some? <==> Fits(wide, m)
    ensures ok <==> Fits(wide, m) && |EncMessage(wide, m).value| <= buf.Length && h.refusals == old(h.refusals)
    ensures ok ==> (Agrees(narrow, Erased(m'), wide, m) <==> Faithful(narrow, wide, m))
    ensures h.Valid() && h.wild == old(h.wild)
    ensures h.live == if ok then old(h.live) + Blocks(narrow, m') else old(h.live)
  {
    hide Arena.Valid, Sendable, WellFormed, Agrees, Faithful, Shaped, EncFrom, DecMessage, SetDefaults, Erased, Fits,
      BlocksFrom, Balanced, UpsetLoop;
    SenderReady(narrow, wide, m);
    var n;
    ok, n := Send(wide, m, buf);
    if !ok { return false, dest; }
    assert buf[..n] == EncMessage(wide, m).value;
    ErasedIsShaped(narrow, dest);
    ghost var expected := SchemaEvolution(narrow, wide, m, Erased(dest));
    var s := new IStream(buf[..n], 0, n);
    assert s.Rest() == EncMessage(wide, m).value;
    ghost var slip;
    ok, m', slip := Decoder.Decode(s, h, narrow, dest, h.live);
    assert slip == NO_SLIP;
    assert !ok ==> old(h.live) + Blocks(narrow, m') == old(h.live);
    Even(h.live, h.wild, old(h.wild), old(h.live) + Blocks(narrow, m'));
  }

  lemma SenderReady(narrow: seq<Field>, wide: seq<Field>, m: Message)
    requires Sendable(narrow, wide, m)
    ensures WellFormed(wide) && Shaped(wide, m) && WellFormed(narrow)
  {
  }

  // ---------------------------------------------------------------- Ownership over a whole life

  /** What the bytes do to the books of the heap when they are decoded into a destination. */
  ghost function UpsetOf(fields: seq<Field>, s: bytes, dest: Message): Upset {
    UpsetLoop(fields, s, Start(SetDefaults(fields, Erased(dest))))
  }

  /** How a slip shows once nothing of the struct is left. */
  lemma SlipShows(live: multiset<nat>, wild: multiset<nat>, prior: multiset<nat>, frame: multiset<nat>, slip: Slip)
    requires Balanced(live, wild, prior, frame, slip) && (slip.lost == multiset{} || slip.stale == multiset{})
    ensures slip == NO_SLIP <==> live == frame && wild == prior
    ensures slip.lost != multiset{} ==> frame < live && wild == prior
    ensures slip.stale != multiset{} ==> live < frame || prior < wild
  {
    if slip.lost != multiset{} {
      assert live == frame + slip.lost;
    } else if slip.stale != multiset{} {
      var b :| b in slip.stale;
      assert if b in frame then live[b] < frame[b] else prior[b] < wild[b];
    }
  }

  lemma UpsetShows(live: multiset<nat>, wild: multiset<nat>, prior: multiset<nat>, frame: multiset<nat>, slip: Slip,
                   ok: bool, granted: bool, upset: Upset)
    requires Balanced(live, wild, prior, frame, slip) && Explained(ok, granted, slip, upset)
    ensures live == frame && wild == prior <==> upset == Kept || !granted
    ensures upset == Lost && granted ==> frame < live && wild == prior
    ensures upset == Stale && granted ==> live < frame || prior < wild
  {
    hide Balanced;
    SlipShows(live, wild, prior, frame, slip);
  }

  /** Decoding into a struct that may hold anything, then releasing what was decoded. Blocks stay behind
      exactly if the bytes lose them, and foreign ones are freed exactly if the bytes take stale entries
      for their own; otherwise the heap is as it was, whether decoding succeeded or not. Releasing once
      more changes nothing. */
  method DecodeAndRelease(s: IStream, h: Arena, fields: seq<Field>, dest: Message)
    returns (ok: bool, m: Message, m': Message)
    requires s.Valid() && h.Valid() && WellFormed(fields) && Shaped(fields, dest)
    modifies s, h
    ensures h.Valid()
    ensures m == Released(fields, m) == m'
    ensures var upset, granted := UpsetOf(fields, old(s.Rest()), dest), h.refusals == old(h.refusals);
            && (h.live == old(h.live) && h.wild == old(h.wild) <==> upset == Kept || !granted)
            && (upset == Lost && granted ==> old(h.live) < h.live && h.wild == old(h.wild))
            && (upset == Stale && granted ==> h.live < old(h.live) || old(h.wild) < h.wild)
  {
    hide Arena.Valid, Shaped, WellFormed, SetDefaults, DecMessage, DecLoop, ReleasedFrom, BlocksFrom, Balanced,
      Explained, UpsetLoop, Regular;
    ghost var frame := h.live;
    ghost var slip;
    ok, m, slip := Decoder.Decode(s, h, fields, dest, frame);
    FreedNothing(h.live);
    if ok {
      Unslipped(ok, h.refusals == old(h.refusals), slip, UpsetOf(fields, old(s.Rest()), dest));
      Even(h.live, h.wild, old(h.wild), frame + Blocks(fields, m));
      OwnedFreed(frame, Blocks(fields, m));
      ReleasedOwnsNothing(fields, m);
      ReleasedTwice(fields, m);
      m := ReleaseMessage(h, fields, m);
      Even(h.live, h.wild, old(h.wild), frame);
    } else {
      assert frame + multiset{} == frame;
    }
    UpsetShows(h.live, h.wild, old(h.wild), frame, slip, ok, h.refusals == old(h.refusals),
               UpsetOf(fields, old(s.Rest()), dest));
    FreedNothing(h.live);
    m' := ReleaseMessage(h, fields, m);
  }

  /** With arrays that can be counted and a destination whose array entries own nothing, no input changes
      the heap. */
  method DecodeLeavesNothing(s: IStream, h: Arena, fields: seq<Field>, dest: Message) returns (ok: bool, m: Message)
    requires s.Valid() && h.Valid() && WellFormed(fields) && Shaped(fields, dest)
    requires Countable(fields) && Vacant(fields, dest)
    modifies s, h
    ensures h.Valid() && h.live == old(h.live) && h.wild == old(h.wild)
  {
    NothingUpsets(fields, dest, s.Rest());
    var m';
    ok, m, m' := DecodeAndRelease(s, h, fields, dest);
  }

  /** A zeroed struct is such a destination. */
  lemma ZeroedIsReady(fields: seq<Field>)
    requires WellFormed(fields)
    ensures Shaped(fields, ZeroFrom(fields, 0)) && Vacant(fields, ZeroFrom(fields, 0))
  {
    ZeroIsShaped(fields);
    ZeroIsVacant(fields, 0);
  }

  // ---------------------------------------------------------------- Where the conditions fail

  /** One note too many in an array as long as its count can tell: all the notes stay allocated, though the
      struct was zeroed first and released afterwards. */
  method NotesLeak(h: Arena)
    requires h.Valid()
    modifies h
    ensures h.Valid() && (h.refusals == old(h.refusals) ==> old(h.live) < h.live)
  {
    NotesAreWellFormed();
    ZeroedIsReady([NOTES]);
    var dest := ZeroFrom([NOTES], 0);
    ErasedZero([NOTES], 0);
    NotesAreLost(dest);
    var input := TooManyNotes();
    var s := new IStream(input, 0, |input|);
    assert s.Rest() == input;
    var ok, m, m' := DecodeAndRelease(s, h, [NOTES], dest);
  }

  /** A key without its entry: release takes the block that the unused memory of the array names. */
  method NotesTaken(h: Arena, b: nat)
    requires h.Valid()
    modifies h
    ensures h.Valid() && (h.refusals == old(h.refusals) ==> h.live < old(h.live) || old(h.wild) < h.wild)
  {
    NotesAreWellFormed();
    StaleNotesAreShaped(b);
    ErasedStaleNotes(b);
    NotesAreStale(0);
    var s := new IStream([0x0A], 0, 1);
    assert s.Rest() == [0x0A];
    var ok, m, m' := DecodeAndRelease(s, h, [NOTES], StaleNotes(b));
  }

  lemma ErasedStaleNotes(b: nat)
    ensures Erased(StaleNotes(b)) == StaleNotes(0)
  {
    var note := Ptr(Block(b, [Data([])]));
    assert ErasedItems([Data([])]) == [Data([])];
    assert ErasedSlot(note) == Ptr(Block(0, [Data([])]));
    assert ErasedValue(StaleNote(b)) == StaleNote(0);
    assert ErasedItems(Repeat(StaleNote(b), PB_SIZE_MAX)) == Repeat(StaleNote(0), PB_SIZE_MAX);
  }
}
