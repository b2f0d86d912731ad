/** Concatenating encoded messages merges them: pb_decode.h allows a second message to be decoded into
    the struct of a first one. The same composition law carries the round-trip proof. */
module Merge {
  import opened Wrappers
  import opened Wire
  import opened WireFacts
  import opened Descriptor
  import opened DecodeSpec

  // ---------------------------------------------------------------- A decoder does not look past what it uses

  lemma ScalarPrefix(f: Field, s: bytes, t: bytes)
    requires DecScalar(f, s).Ok?
    ensures DecScalar(f, s + t) == DecScalar(f, s)
  {
    hide DecVarint32, Groups, FixedValue;
    if DecVarint32(s).Ok? { Varint32Prefix(s, t); }
    if DecVarint(s).Ok? { GroupsPrefix(s, t, 10); }
    if DecString(s).Ok? { StringPrefix(s, t); }
    if |s| >= 4 { assert (s + t)[..4] == s[..4]; }
    if |s| >= 8 { assert (s + t)[..8] == s[..8]; }
  }

  lemma ValuePrefix(f: Field, s: bytes, t: bytes, prior: Value)
    requires DecValue(f, s, prior).Ok?
    ensures DecValue(f, s + t, prior) == DecValue(f, s, prior)
  {
    if f.ltype.Submessage? && prior.Msg? {
      StringPrefix(s, t);
    } else {
      ScalarPrefix(f, s, t);
    }
  }

  lemma EntriesPrefix(f: Field, wireType: nat, s: bytes, t: bytes, e: Entries)
    requires DecEntries(f, wireType, s, e).Ok?
    ensures DecEntries(f, wireType, s + t, e) == DecEntries(f, wireType, s, e)
  {
    if wireType == WT_STRING && f.ltype.Packable() {
      StringPrefix(s, t);
    } else {
      ValuePrefix(f, s, t, e.items[e.count]);
    }
  }

  lemma EntryPrefix(f: Field, s: bytes, t: bytes)
    requires DecEntry(f, s).Ok?
    ensures DecEntry(f, s + t) == DecEntry(f, s)
  {
    if f.ltype.String? || f.ltype.Bytes? { StringPrefix(s, t); } else { ValuePrefix(f, s, t, NewEntry(f)); }
  }

  lemma PointerPrefix(f: Field, wireType: nat, s: bytes, t: bytes, slot: Slot)
    requires DecPointer(f, wireType, s, slot).Ok?
    ensures DecPointer(f, wireType, s + t, slot) == DecPointer(f, wireType, s, slot)
  {
    hide DecString, DecGrow;
    if DecString(s).Ok? { StringPrefix(s, t); }
    if slot.Ptr? && !f.ltype.String? && !f.ltype.Bytes? { ValuePrefix(f, s, t, NewEntry(f)); }
    if DecEntry(f, s).Ok? { EntryPrefix(f, s, t); }
  }

  lemma SlotPrefix(fields: seq<Field>, f: Field, wireType: nat, s: bytes, t: bytes, slot: Slot)
    requires DecSlot(fields, f, wireType, s, slot).Ok?
    ensures DecSlot(fields, f, wireType, s + t, slot) == DecSlot(fields, f, wireType, s, slot)
  {
    match (f.htype, slot) {
      case (Repeated, Array(count, items)) => EntriesPrefix(f, wireType, s, t, Entries(count, items));
      case (Oneof, Union(_, v)) => ValuePrefix(f, s, t, OneofBase(f, v));
      case (Optional, Has(_, v)) => ValuePrefix(f, s, t, v);
      case (Required, Plain(v)) => ValuePrefix(f, s, t, v);
      case (Optional, Plain(v)) => ValuePrefix(f, s, t, v);
      case (_, Ptr(_)) => PointerPrefix(f, wireType, s, t, slot);
      case (_, PtrArray(_, _)) => PointerPrefix(f, wireType, s, t, slot);
    }
  }

  lemma FieldPrefix(fields: seq<Field>, i: nat, wireType: nat, s: bytes, t: bytes, st: State)
    requires i < |fields| && DecField(fields, i, wireType, s, st).Ok?
    ensures DecField(fields, i, wireType, s + t, st) == DecField(fields, i, wireType, s, st)
  {
    var f, a := fields[i], Addr(fields, i);
    if f.FixedCount() {
      EntriesPrefix(f, wireType, s, t, Entries(if st.fixed == Some(i) then st.fixedSize else 0, st.m[a].items));
    } else {
      SlotPrefix(fields, f, wireType, s, t, st.m[a]);
    }
  }

  lemma TagPrefix(s: bytes, t: bytes)
    requires DecTag(s).Ok?
    ensures DecTag(s + t) == DecTag(s) && 1 <= DecTag(s).used <= |s|
  {
    Varint32Used(s);
    Varint32Prefix(s, t);
  }

  // ---------------------------------------------------------------- Composition

  /** A run over `s` that no zero key cut short. */
  predicate Runs(fields: seq<Field>, s: bytes, st: State, st': State) {
    DecLoop(fields, s, st) == Done(st', |s|, false)
  }

  lemma {:induction false} RunUsesAll(fields: seq<Field>, s: bytes, st: State)
    ensures var r := DecLoop(fields, s, st); r.Done? ==> r.used <= |s| && (!r.zero ==> r.used == |s|)
    decreases |s|
  {
    Varint32Used(s);
    if s != [] && DecTag(s).Ok? && DecTag(s).value.Key? {
      var Ok(Key(tag, wireType), n) := DecTag(s);
      var rest := s[n..];
      SkipUsed(rest, wireType);
      match Find(fields, tag) {
        case None => if Skip(rest, wireType).Ok? { RunUsesAll(fields, rest[Skip(rest, wireType).used..], st); }
        case Some(i) =>
          var r := DecField(fields, i, wireType, rest, st);
          if r.Ok? { RunUsesAll(fields, rest[r.used..], r.value); }
      }
    }
  }

  /** Decoding `xs + ys` is decoding `xs`, then `ys` from the state reached. */
  lemma {:induction false} RunsCompose(fields: seq<Field>, xs: bytes, ys: bytes, st: State, mid: State)
    requires Runs(fields, xs, st, mid)
    ensures DecLoop(fields, xs + ys, st) == DecLoop(fields, ys, mid).After(|xs|)
    decreases |xs|
  {
    hide DecField, Skip, DecTag, Find;
    if xs == [] {
      assert xs + ys == ys;
    } else {
      TagPrefix(xs, ys);
      var Ok(Key(tag, wireType), n) := DecTag(xs);
      var rest := xs[n..];
      assert (xs + ys)[n..] == rest + ys;
      match Find(fields, tag) {
        case None =>
          SkipUsed(rest, wireType);
          SkipPrefix(rest, ys, wireType);
          var k := Skip(rest, wireType).used;
          assert (rest + ys)[k..] == rest[k..] + ys;
          RunsCompose(fields, rest[k..], ys, st, mid);
        case Some(i) =>
          FieldPrefix(fields, i, wireType, rest, ys, st);
          var Ok(st', k) := DecField(fields, i, wireType, rest, st);
          assert (rest + ys)[k..] == rest[k..] + ys;
          RunsCompose(fields, rest[k..], ys, st', mid);
      }
    }
  }

  /** A zero byte where a key is due ends the message; what follows it is left in the stream. */
  lemma ZeroEnds(fields: seq<Field>, xs: bytes, ys: bytes, st: State, mid: State)
    requires Runs(fields, xs, st, mid)
    ensures DecLoop(fields, xs + ([0] + ys), st) == Done(mid, |xs| + 1, true)
  {
    hide DecField, Skip, Find;
    RunsCompose(fields, xs, [0] + ys, st, mid);
    assert DecVarint32([0] + ys) == Ok(0, 1);
  }

  // ---------------------------------------------------------------- Merging two messages

  predicate NoFixedCount(fields: seq<Field>) {
    forall i :: 0 <= i < |fields| ==> !fields[i].FixedCount()
  }

  function AlsoSeen(st: State, more: set<nat>): State {
    State(st.m, st.seen + more, st.fixed, st.fixedSize)
  }

  /** The required fields already met have no influence on the run; they are only carried along. */
  lemma {:induction false} SeenIsCarried(fields: seq<Field>, s: bytes, st: State, more: set<nat>)
    requires NoFixedCount(fields)
    ensures var r, r' := DecLoop(fields, s, st), DecLoop(fields, s, AlsoSeen(st, more));
            && (r.Bad? <==> r'.Bad?)
            && (r.Done? ==>
                  && r' == Done(AlsoSeen(r.st, more), r.used, r.zero)
                  && r.st.fixed == st.fixed && r.st.fixedSize == st.fixedSize)
    decreases |s|
  {
    if s != [] && DecTag(s).Ok? && DecTag(s).value.Key? {
      Varint32Used(s);
      var Ok(Key(tag, wireType), n) := DecTag(s);
      var rest := s[n..];
      SkipUsed(rest, wireType);
      match Find(fields, tag) {
        case None =>
          if Skip(rest, wireType).Ok? { SeenIsCarried(fields, rest[Skip(rest, wireType).used..], st, more); }
        case Some(i) =>
          var r := DecField(fields, i, wireType, rest, st);
          if r.Ok? {
            SeenIsCarried(fields, rest[r.used..], r.value, more);
            assert st.seen + more + Marks(fields, i) == r.value.seen + more;
          }
      }
    }
  }

  /** What one call makes of `xs + ys`, whenever `xs` runs to its end: the struct that a second call on
      `ys` alone leaves behind, accepted if the two parts together held the required fields. */
  lemma MergeExactly(fields: seq<Field>, xs: bytes, ys: bytes, m: Message, mid: State)
    requires NoFixedCount(fields) && Runs(fields, xs, Start(m), mid)
    ensures DecMessage(fields, xs + ys, m) ==
            var r := DecLoop(fields, ys, Start(mid.m));
            if r.Done? && RequiredMet(fields, mid.seen + r.st.seen) then Some(r.st.m) else None
  {
    RunsCompose(fields, xs, ys, Start(m), mid);
    SeenIsCarried(fields, xs, Start(m), {});
    SeenIsCarried(fields, ys, Start(mid.m), mid.seen);
    assert AlsoSeen(Start(mid.m), mid.seen) == mid by { assert {} + mid.seen == mid.seen; }
    var r := DecLoop(fields, ys, Start(mid.m));
    if r.Done? { assert r.st.seen + mid.seen == mid.seen + r.st.seen; }
  }

  /** Two messages decoded one after the other into a struct are the message `xs + ys`. */
  lemma ConcatenationIsMerge(fields: seq<Field>, xs: bytes, ys: bytes, m: Message, m1: Message, m2: Message)
    requires NoFixedCount(fields)
    requires DecMessage(fields, xs, m) == Some(m1) && !DecLoop(fields, xs, Start(m)).zero
    requires DecMessage(fields, ys, m1) == Some(m2)
    ensures DecMessage(fields, xs + ys, m) == Some(m2)
  {
    RunUsesAll(fields, xs, Start(m));
    MergeExactly(fields, xs, ys, m, DecLoop(fields, xs, Start(m)).st);
  }
}
