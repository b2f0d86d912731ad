/** What a struct shows after a message was decoded over what it held: fields that the message carries show
    the message, the others what they showed before. */
module Overlay {
  import opened Wire
  import opened Descriptor
  import opened EncodeSpec
  import opened DecodeSpec
  import opened Agreement

  /** `m'` is the struct `base` of descriptor `narrow` after the message that `m` shows of `wide`. */
  ghost predicate Overlays(narrow: seq<Field>, base: Message, m': Message, wide: seq<Field>, m: Message)
    decreases narrow, 0
  {
    forall i :: 0 <= i < |narrow| ==> Find(wide, narrow[i].tag).Some? && OverlaysAt(narrow, base, m', wide, m, i)
  }

  ghost predicate OverlaysAt(narrow: seq<Field>, base: Message, m': Message, wide: seq<Field>, m: Message, i: nat)
    requires i < |narrow| && Find(wide, narrow[i].tag).Some?
    decreases narrow[i], 2
  {
    var j, a := Partner(narrow, wide, i), Addr(narrow, i);
    && a in base && a in m' && Addr(wide, j) in m
    && OverlaySlot(narrow[i], base[a], m'[a], wide[j], m[Addr(wide, j)])
  }

  /** The slot `s` of the message over the slot `s0` of the struct. The last value wins; what is not present
      changes nothing; entries of counted arrays are appended, those of fixed-count arrays replaced; members of
      a oneof and blocks on the heap are decoded anew. */
  ghost predicate OverlaySlot(g: Field, s0: Slot, s': Slot, f: Field, s: Slot)
    decreases g, 1
  {
    match (s0, s', s)
    case (Plain(v0), Plain(v'), Plain(v)) =>
      if f.htype == Optional && IsDefaultValue(f, v) then v' == v0 else OverlayValue(g, v0, v', f, v)
    case (Has(_, v0), Has(has', v'), Has(has, v)) => if has then has' && OverlayValue(g, v0, v', f, v) else s' == s0
    case (Array(count0, items0), Array(count', items'), Array(count, items)) =>
      if count == 0 then s' == s0
      else
        && count' == count0 + count && count <= |items| && count' <= |items0| == |items'|
        && (forall k :: 0 <= k < count0 ==> items'[k] == items0[k])
        && (forall k :: 0 <= k < count ==> OverlayValue(g, items0[count0 + k], items'[count0 + k], f, items[k]))
    case (FixedArray(items0), FixedArray(items'), FixedArray(items)) =>
      && |items0| == |items'| == |items|
      && forall k :: 0 <= k < |items| ==> OverlayValue(g, items0[k], items'[k], f, items[k])
    case (Union(_, _), Union(which', v'), Union(which, v)) =>
      if which == f.tag then which' == g.tag && OverlayValue(g, NewEntry(g), v', f, v)
      else s' == s0 || (which' == which && which != 0)
    case (Ptr(_), Ptr(p'), Ptr(p)) =>
      if p.Null? then s' == s0
      else
        && p'.Block? && |p.items| == |p'.items| == 1
        && OverlayValue(g, NewEntry(g), p'.items[0], f, p.items[0])
    case (PtrArray(count0, p0), PtrArray(count', p'), PtrArray(count, p)) =>
      if count == 0 then s' == s0
      else
        && count' == count0 + count && count <= |HeapItems(p)| && count0 <= |HeapItems(p0)| && count' <= |HeapItems(p')|
        && (forall k :: 0 <= k < count0 ==> HeapItems(p')[k] == HeapItems(p0)[k])
        && (forall k :: 0 <= k < count ==> OverlayItem(g, HeapItems(p')[count0 + k], f, HeapItems(p)[k]))
    case _ => false
  }

  ghost predicate OverlayItem(g: Field, v': Value, f: Field, v: Value)
    decreases g, 0, 1
  {
    OverlayValue(g, NewEntry(g), Content(g, v'), f, Content(f, v))
  }

  /** Submessages are merged, those of arrays into their defaults. */
  ghost predicate OverlayValue(g: Field, v0: Value, v': Value, f: Field, v: Value)
    decreases g, 0, 0
  {
    match (g.ltype, f.ltype)
    case (Submessage(n), Submessage(w)) =>
      v0.Msg? && v'.Msg? && v.Msg? && Overlays(n, Base(g, v0.slots), v'.slots, w, v.slots)
    case _ => AgreeValue(g, v', f, v)
  }

  /** What a submessage is decoded over. */
  function Base(g: Field, m: Message): Message {
    if g.htype == Repeated && g.ltype.Submessage? then SetDefaults(g.ltype.fields, m) else m
  }

  // ---------------------------------------------------------------- What the struct must offer

  /** There is room for the entries that the message adds, and unions that it sets hold nothing or a field of
      their message. */
  ghost predicate Room(narrow: seq<Field>, base: Message, wide: seq<Field>, m: Message)
    decreases narrow, 0
  {
    forall i :: 0 <= i < |narrow| && Find(wide, narrow[i].tag).Some? ==>
      var j, a := Partner(narrow, wide, i), Addr(narrow, i);
      a in base && Addr(wide, j) in m ==>
        && RoomSlot(narrow[i], base[a], wide[j], m[Addr(wide, j)])
        && RoomUnion(narrow, base[a], wide[j], m[Addr(wide, j)])
  }

  predicate RoomUnion(narrow: seq<Field>, s0: Slot, f: Field, s: Slot) {
    s0.Union? && s.Union? && s.which == f.tag ==> s0.which == f.tag || ValidWhich(narrow, s0.which)
  }

  ghost predicate RoomSlot(g: Field, s0: Slot, f: Field, s: Slot)
    decreases g, 1
  {
    match (s0, s)
    case (Plain(v0), Plain(v)) => (f.htype == Optional && IsDefaultValue(f, v)) || RoomValue(g, v0, f, v)
    case (Has(_, v0), Has(has, v)) => has ==> RoomValue(g, v0, f, v)
    case (Array(count0, items0), Array(count, _)) => count == 0 || count0 + count <= g.arraySize
    case (PtrArray(count0, _), PtrArray(count, _)) => count == 0 || count0 + count <= PB_SIZE_MAX
    case _ => true
  }

  ghost predicate RoomValue(g: Field, v0: Value, f: Field, v: Value)
    decreases g, 0
  {
    match (g.ltype, f.ltype)
    case (Submessage(n), Submessage(w)) =>
      v0.Msg? && v.Msg? && g.htype != Repeated ==> Room(n, v0.slots, w, v.slots)
    case _ => true
  }

  /** Whatever can be encoded finds room in a struct at its defaults. */
  lemma {:induction false} DefaultHasRoom(narrow: seq<Field>, base: Message, wide: seq<Field>, m: Message)
    requires AtDefault(narrow, base) && Evolves(narrow, wide) && Conforms(wide, m) && EncMessage(wide, m).Some?
    ensures Room(narrow, base, wide, m)
    decreases narrow, 1
  {
    hide AtDefaultSlot, RoomSlot, ShapedSlot, ConformsSlot, EncSlot, Compatible, Addr, Find;
    forall i | 0 <= i < |narrow|
      ensures var j := Partner(narrow, wide, i);
              && RoomSlot(narrow[i], base[Addr(narrow, i)], wide[j], m[Addr(wide, j)])
              && RoomUnion(narrow, base[Addr(narrow, i)], wide[j], m[Addr(wide, j)])
    {
      var j := Partner(narrow, wide, i);
      EncodedAt(wide, m, 0, j);
      DefaultSlotHasRoom(narrow[i], base[Addr(narrow, i)], wide[j], m[Addr(wide, j)]);
    }
  }

  lemma {:induction false} EncodedAt(fields: seq<Field>, m: Message, i: nat, j: nat)
    requires i <= j < |fields| && EncFrom(fields, m, i).Some?
    ensures Addr(fields, j) in m && EncSlot(fields[j], m[Addr(fields, j)]).Some?
    decreases j - i
  {
    hide EncSlot;
    if i < j { EncodedAt(fields, m, i + 1, j); }
  }

  lemma {:induction false} DefaultSlotHasRoom(g: Field, s0: Slot, f: Field, s: Slot)
    requires AtDefaultSlot(g, s0) && ShapedSlot(g, s0) && Compatible(g, f)
    requires ShapedSlot(f, s) && ConformsSlot(f, s) && EncSlot(f, s).Some?
    ensures RoomSlot(g, s0, f, s) && (s0.Union? ==> s0.which == 0)
    decreases g, 1
  {
    hide EncPacked, EncEach, IsDefaultValue, EncTag, Shaped;
    match s {
      case Plain(v) => if !(f.htype == Optional && IsDefaultValue(f, v)) { DefaultValueHasRoom(g, s0.v, f, v); }
      case Has(has, v) => if has { DefaultValueHasRoom(g, s0.v, f, v); }
      case _ =>
    }
  }

  lemma {:induction false} DefaultValueHasRoom(g: Field, v0: Value, f: Field, v: Value)
    requires AtDefaultValue(g, v0) && Compatible(g, f) && ConformsValue(f, v) && EncValue(f, v).Some?
    ensures RoomValue(g, v0, f, v)
    decreases g, 0
  {
    if g.ltype.Submessage? && v.Msg? { DefaultHasRoom(g.ltype.fields, v0.slots, f.ltype.fields, v.slots); }
  }
}
