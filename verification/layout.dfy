/** The struct behind a descriptor: what the macros of pb.h make of the members of a struct, and that the
    addresses the field iterator computes are those of the members. */
module Layout {
  import opened Wrappers
  import opened Bits
  import opened Wire
  import opened Descriptor

  /** A member that a field describes. `unit` is the size of what a pointer points to, of one array entry, or
      of the member itself; `counter` is where its count, its `has_` flag or its union's tag lies; `joins`
      tells that it lies in one union with the member before it. */
  datatype Member = Member(
    tag: uint32, ltype: LType, htype: HType, atype: AType, default: Option<Value>,
    offset: nat, size: nat, unit: nat, entries: nat, counter: Option<nat>, joins: bool)

  /** `sizeof` as the compiler tells it. */
  predicate Sized(m: Member) {
    if m.atype == Pointer then m.size == POINTER_SIZE
    else if m.htype == Repeated then m.unit > 0 && m.size == m.entries * m.unit
    else m.size == m.unit
  }

  /** The members in the order of the struct, none over another but for those of one union. */
  predicate Laid(ms: seq<Member>) {
    && (forall i :: 0 <= i < |ms| ==> Sized(ms[i]))
    && (ms != [] ==> !ms[0].joins)
    && forall i :: 0 < i < |ms| ==>
         var prev, m := ms[i - 1], ms[i];
         if m.joins then
           prev.htype == Oneof && m.htype == Oneof && m.offset == prev.offset && m.counter == prev.counter
         else
           && prev.offset + prev.size <= m.offset
           && (prev.htype == Oneof && m.htype == Oneof ==> m.offset - prev.offset - prev.size != PB_SIZE_MAX)
  }

  /** PB_DATAOFFSET_FIRST, PB_DATAOFFSET_OTHER and PB_DATAOFFSET_UNION */
  function DataOffset(ms: seq<Member>, i: nat): nat
    requires Laid(ms) && i < |ms|
  {
    if i == 0 then ms[0].offset
    else if ms[i].joins then PB_SIZE_MAX
    else ms[i].offset - ms[i - 1].offset - ms[i - 1].size
  }

  /** `pb_delta` from the counter, or zero where a field has none. */
  function SizeOffset(m: Member): int {
    if m.counter.Some? then m.counter.value - m.offset else 0
  }

  /** PB_FIELD, PB_REPEATED_FIXED_COUNT and PB_ONEOF_FIELD */
  function Described(ms: seq<Member>): (fields: seq<Field>)
    requires Laid(ms)
    ensures |fields| == |ms|
  {
    seq(|ms|, i requires 0 <= i < |ms| =>
      var m := ms[i];
      Field(m.tag, m.ltype, m.htype, m.atype, DataOffset(ms, i), SizeOffset(m), m.unit,
            if m.atype == Static && m.htype == Repeated then m.size / m.unit else 0, m.default))
  }

  /** The iterator's data and size pointers are where the members and their counters lie. */
  lemma {:induction false} AddressesAreOffsets(ms: seq<Member>, i: nat)
    requires Laid(ms) && i < |ms|
    ensures Addr(Described(ms), i) == ms[i].offset
    ensures SizeAddr(Described(ms), i) == if ms[i].counter.Some? then ms[i].counter.value else ms[i].offset
  {
    var fields := Described(ms);
    if i > 0 {
      AddressesAreOffsets(ms, i - 1);
      SizeInStruct(ms, i - 1);
    }
  }

  lemma SizeInStruct(ms: seq<Member>, i: nat)
    requires Laid(ms) && i < |ms|
    ensures StructSize(Described(ms)[i]) == ms[i].size
  {
    var m := ms[i];
    assert Sized(m);
    if m.atype == Static && m.htype == Repeated {
      assert m.size / m.unit == m.entries by { Quotient(m.entries, m.unit); }
      assert m.unit * m.entries == m.entries * m.unit;
    }
  }

  lemma Quotient(n: nat, d: nat)
    requires d > 0
    ensures n * d / d == n
  {
    var q := n * d / d;
    QuotientBound(n * d, d, n);
    QuotientBound(n * d, d, n + 1);
    assert (n + 1) * d == n * d + d;
  }

  /** Two members lie at one place only if they and all between them are in one union. */
  lemma {:induction false} OnlyUnionsShare(ms: seq<Member>, i: nat, j: nat)
    requires Laid(ms) && i < j < |ms| && forall k :: 0 <= k < |ms| ==> ms[k].size > 0
    ensures ms[i].offset <= ms[j].offset
    ensures Addr(Described(ms), i) == Addr(Described(ms), j) <==> forall k :: i < k <= j ==> ms[k].joins
    decreases j - i
  {
    hide Sized, Described, Addr;
    AddressesAreOffsets(ms, i);
    AddressesAreOffsets(ms, j);
    assert ms[j - 1].size > 0;
    assert if ms[j].joins then ms[j].offset == ms[j - 1].offset else ms[j - 1].offset < ms[j].offset;
    if i + 1 < j {
      AddressesAreOffsets(ms, j - 1);
      OnlyUnionsShare(ms, i, j - 1);
    }
  }

  /** So the descriptor that the macros make meets what decoding and encoding ask of addresses. */
  lemma LaidIsWellFormed(ms: seq<Member>)
    requires Laid(ms) && forall k :: 0 <= k < |ms| ==> ms[k].size > 0
    requires forall i :: 0 <= i < |ms| ==> WellFormedField(Described(ms)[i])
    requires forall i, j :: 0 <= i < j < |ms| ==> ms[i].tag != ms[j].tag
    ensures WellFormed(Described(ms))
  {
    hide WellFormedField, Addr;
    var fields := Described(ms);
    forall i, j | 0 <= i < j < |ms| && Addr(fields, i) == Addr(fields, j)
      ensures fields[i].htype == Oneof && fields[j].htype == Oneof
    {
      OnlyUnionsShare(ms, i, j);
      assert ms[i + 1].joins && ms[j].joins && ms[j - 1].htype == Oneof;
    }
  }
}
