/** What `pb_decode` makes of a byte sequence when every allocation is granted. Heap blocks all have
    number 0 here, and hold no more than the entries in use. Memory that does not have the shape its
    descriptor tells makes decoding fail. */
module DecodeSpec {
  import opened Wrappers
  import opened Wire
  import opened WireFacts
  import opened Descriptor

  // ---------------------------------------------------------------- Zeroed and default contents

  function Repeat<T>(v: T, n: nat): (s: seq<T>)
    ensures |s| == n && forall k :: 0 <= k < n ==> s[k] == v
  {
    seq(n, _ => v)
  }

  /** All-zero memory read as a field's value. */
  function ZeroValue(f: Field): Value
    decreases f, 0
  {
    match f.ltype
    case Bool | Varint | Uvarint | Svarint | Fixed32 | Fixed64 => Int(0)
    case Bytes | String => Data([])
    case FixedLengthBytes => Data(Repeat(0, f.dataSize))
    case Submessage(fields) => Msg(ZeroFrom(fields, 0))
    case Extension => Garbage
  }

  function ZeroSlot(f: Field): Slot
    decreases f, 1
  {
    match (f.atype, f.htype)
    case (_, Oneof) => Union(0, Int(0))
    case (Static, Required) => Plain(ZeroValue(f))
    case (Static, Optional) => if f.sizeOffset == 0 then Plain(ZeroValue(f)) else Has(false, ZeroValue(f))
    case (Static, Repeated) =>
      var items := Repeat(ZeroValue(f), f.arraySize);
      if f.sizeOffset == 0 then FixedArray(items) else Array(0, items)
    case (Pointer, Repeated) => PtrArray(0, Null)
    case (Pointer, _) => Ptr(Null)
  }

  function ZeroFrom(fields: seq<Field>, i: nat): Message
    requires i <= |fields|
    decreases fields, |fields| - i
  {
    if i == |fields| then map[] else ZeroFrom(fields, i + 1)[Addr(fields, i) := ZeroSlot(fields[i])]
  }

  /** `pb_field_set_to_default`: array contents and union members stay as they were. */
  function DefaultSlot(f: Field, s: Slot): Slot
    decreases f, 1
  {
    match s
    case Plain(v) => Plain(DefaultValue(f, v))
    case Has(_, v) => Has(false, DefaultValue(f, v))
    case Array(_, items) => Array(0, items)
    case FixedArray(_) => s
    case Union(_, v) => Union(0, v)
    case Ptr(_) => Ptr(Null)
    case PtrArray(_, _) => PtrArray(0, Null)
  }

  function DefaultValue(f: Field, prior: Value): Value
    decreases f, 0
  {
    match (f.ltype, prior)
    case (Submessage(fields), Msg(m)) => Msg(DefaultsFrom(fields, m, 0))
    case (Submessage(_), _) => prior
    case _ => if f.default.Some? then f.default.value else ZeroValue(f)
  }

  function DefaultsFrom(fields: seq<Field>, m: Message, i: nat): Message
    requires i <= |fields|
    decreases fields, |fields| - i
  {
    if i == |fields| then m
    else
      var a := Addr(fields, i);
      DefaultsFrom(fields, if a in m then m[a := DefaultSlot(fields[i], m[a])] else m, i + 1)
  }

  /** `pb_message_set_to_defaults` */
  function SetDefaults(fields: seq<Field>, m: Message): Message {
    DefaultsFrom(fields, m, 0)
  }

  // ---------------------------------------------------------------- Single values

  /** The sign bit of an integer of `n` bytes; 0 when there is no such integer type. */
  function SignBit(n: nat): nat {
    if n == 1 then 0x80
    else if n == 2 then 0x8000
    else if n == 4 then 0x8000_0000
    else if n == 8 then 0x8000_0000_0000_0000
    else 0
  }

  /** `pb_dec_varint`: fields of up to 32 bits take the low half of the word first. */
  function SignedOfVarint(f: Field, word: nat): int {
    Signed(word, if f.dataSize == 8 then 0x8000_0000_0000_0000 else 0x8000_0000)
  }

  function Guarded(ok: bool, v: Value, used: nat): Parse<Value> {
    if ok then Ok(v, used) else Fail
  }

  /** The decoders of PB_DECODERS, submessages aside. */
  function DecScalar(f: Field, s: bytes): (r: Parse<Value>)
    ensures r.Ok? ==> 1 <= r.used <= |s|
  {
    Varint32Used(s);
    GroupsUsed(s, 10);
    StringUsed(s);
    var half: int := SignBit(f.dataSize);
    match f.ltype
    case Bool =>
      (match DecVarint32(s)
       case Fail => Fail
       case Ok(w, n) => Ok(Int(if w != 0 then 1 else 0), n))
    case Varint =>
      (match DecVarint(s)
       case Fail => Fail
       case Ok(w, n) => Guarded(-half <= SignedOfVarint(f, w) < half, Int(SignedOfVarint(f, w)), n))
    case Uvarint =>
      (match DecVarint(s)
       case Fail => Fail
       case Ok(w, n) => Guarded(w < 2 * half, Int(w), n))
    case Svarint =>
      (match DecVarint(s)
       case Fail => Fail
       case Ok(w, n) => Guarded(-half <= UnZigZag(w) < half, Int(UnZigZag(w)), n))
    case Fixed32 =>
      (match DecFixed(s, 4)
       case Fail => Fail
       case Ok(w, n) => Ok(Int(w), n))
    case Fixed64 =>
      (match DecFixed(s, 8)
       case Fail => Fail
       case Ok(w, n) => Ok(Int(w), n))
    case Bytes =>
      (match DecString(s)
       case Fail => Fail
       case Ok(p, n) => Guarded(|p| <= PB_SIZE_MAX && |p| + BytesHeader() <= f.dataSize, Data(p), n))
    case String =>
      (match DecString(s)
       case Fail => Fail
       case Ok(p, n) => Guarded(|p| + 1 <= f.dataSize, Data(p), n))
    case FixedLengthBytes =>
      (match DecString(s)
       case Fail => Fail
       case Ok(p, n) =>
         if p == [] then Ok(Data(Repeat(0, f.dataSize)), n)
         else Guarded(|p| <= PB_SIZE_MAX && |p| == f.dataSize, Data(p), n))
    case _ => Fail
  }

  // ---------------------------------------------------------------- Fields and messages

  /** What the decode loop carries: the struct, the required fields met (by number), and the progress of
      the last fixed-count array. */
  datatype State = State(m: Message, seen: set<nat>, fixed: Option<nat>, fixedSize: nat)

  /** `zero` tells that a zero key ended the message before the bytes ran out. */
  datatype Outcome = Bad | Done(st: State, used: nat, zero: bool) {
    function After(n: nat): Outcome {
      match this
      case Bad => Bad
      case Done(st, used, zero) => Done(st, n + used, zero)
    }
  }

  datatype Entries = Entries(count: nat, items: seq<Value>)

  /** A value decoded over what its memory held: only submessages look at it. New array entries are set
      to their defaults first. */
  function DecValue(f: Field, s: bytes, prior: Value): (r: Parse<Value>)
    decreases |s|, 1
    ensures r.Ok? ==> 1 <= r.used <= |s|
  {
    StringUsed(s);
    match (f.ltype, prior)
    case (Submessage(fields), Msg(m)) =>
      (match DecString(s)
       case Fail => Fail
       case Ok(payload, n) =>
         var r := DecMessage(fields, payload, if f.htype == Repeated then SetDefaults(fields, m) else m);
         if r.Some? then Ok(Msg(r.value), n) else Fail)
    case _ => DecScalar(f, s)
  }

  function DecPacked(f: Field, payload: bytes, e: Entries): Option<Entries>
    decreases |payload|, 2
  {
    if payload == [] then Some(e)
    else if e.count >= f.arraySize || e.count >= |e.items| then None
    else match DecValue(f, payload, e.items[e.count])
      case Fail => None
      case Ok(v, n) => DecPacked(f, payload[n..], Entries(e.count + 1, e.items[e.count := v]))
  }

  /** One occurrence of a repeated field: a packed run or a single entry. */
  function DecEntries(f: Field, wireType: nat, s: bytes, e: Entries): (r: Parse<Entries>)
    decreases |s|, 3
    ensures r.Ok? ==> 1 <= r.used <= |s|
  {
    StringUsed(s);
    if wireType == WT_STRING && f.ltype.Packable() then
      match DecString(s)
      case Fail => Fail
      case Ok(payload, n) =>
        var r := DecPacked(f, payload, e);
        if r.Some? then Ok(r.value, n) else Fail
    else if e.count >= f.arraySize || e.count >= |e.items| then Fail
    else match DecValue(f, s, e.items[e.count])
      case Fail => Fail
      case Ok(v, n) => Ok(Entries(e.count + 1, e.items[e.count := v]), n)
  }

  /** The memory a oneof member is decoded over. */
  function OneofBase(f: Field, v: Value): Value {
    match f.ltype
    case Submessage(fields) => Msg(SetDefaults(fields, ZeroFrom(fields, 0)))
    case _ => v
  }

  /** Strings and bytes allocated by their own decoders. */
  function DecOwned(f: Field, s: bytes): (r: Parse<Value>)
    ensures r.Ok? ==> 1 <= r.used <= |s|
  {
    StringUsed(s);
    match DecString(s)
    case Fail => Fail
    case Ok(p, n) =>
      if f.ltype.String? then Guarded(|p| + 1 < WORD32, Data(p), n)
      else Guarded(|p| <= PB_SIZE_MAX && |p| + BytesHeader() <= SIZE_MAX, Data(p), n)
  }

  /** `initialize_pointer_field`; a scalar's memory stays unwritten. */
  function NewEntry(f: Field): Value {
    match f.ltype
    case String | Bytes => Ref(Null)
    case Submessage(fields) => Msg(SetDefaults(fields, ZeroFrom(fields, 0)))
    case _ => Garbage
  }

  function Single(v: Value): Pointer {
    Block(0, [v])
  }

  /** An entry of a heap array. */
  function DecEntry(f: Field, s: bytes): (r: Parse<Value>)
    decreases |s|, 2
    ensures r.Ok? ==> 1 <= r.used <= |s|
  {
    if f.ltype.String? || f.ltype.Bytes? then
      match DecOwned(f, s)
      case Fail => Fail
      case Ok(v, n) => Ok(Ref(Single(v)), n)
    else DecValue(f, s, NewEntry(f))
  }

  /** A packed run appended to a heap array. */
  function DecGrow(f: Field, payload: bytes, items: seq<Value>): Option<seq<Value>>
    decreases |payload|, 3
  {
    if payload == [] then Some(items)
    else if |items| >= PB_SIZE_MAX then None
    else match DecEntry(f, payload)
      case Fail => None
      case Ok(v, n) => DecGrow(f, payload[n..], items + [v])
  }

  /** The entries in use. */
  function InUse(count: nat, p: Pointer): seq<Value> {
    if p.Null? then [] else if count < |p.items| then p.items[..count] else p.items
  }

  /** `decode_pointer_field` */
  function DecPointer(f: Field, wireType: nat, s: bytes, slot: Slot): (r: Parse<Slot>)
    decreases |s|, 4
    ensures r.Ok? ==> 1 <= r.used <= |s|
  {
    StringUsed(s);
    match slot
    case Ptr(_) =>
      if f.ltype.String? || f.ltype.Bytes? then
        match DecOwned(f, s)
        case Fail => Fail
        case Ok(v, n) => Ok(Ptr(Single(v)), n)
      else
        (match DecEntry(f, s)
         case Fail => Fail
         case Ok(v, n) => Ok(Ptr(Single(v)), n))
    case PtrArray(count, p) =>
      var items := InUse(count, p);
      if wireType == WT_STRING && f.ltype.Packable() then
        match DecString(s)
        case Fail => Fail
        case Ok(payload, n) =>
          if payload == [] then Ok(slot, n)
          else
            var r := DecGrow(f, payload, items);
            if r.Some? then Ok(PtrArray(|r.value|, Block(0, r.value)), n) else Fail
      else if count >= PB_SIZE_MAX then Fail
      else
        (match DecEntry(f, s)
         case Fail => Fail
         case Ok(v, n) => Ok(PtrArray(count + 1, Block(0, items + [v])), n))
    case _ => Fail
  }

  /** A union may only hold nothing or a field of the message. */
  predicate ValidWhich(fields: seq<Field>, which: nat) {
    which == 0 || Find(fields, which).Some?
  }

  /** `decode_field`, fixed-count arrays aside. */
  function DecSlot(fields: seq<Field>, f: Field, wireType: nat, s: bytes, slot: Slot): (r: Parse<Slot>)
    decreases |s|, 5
    ensures r.Ok? ==> 1 <= r.used <= |s|
  {
    match (f.htype, slot)
    case (Repeated, Array(count, items)) =>
      (match DecEntries(f, wireType, s, Entries(count, items))
       case Fail => Fail
       case Ok(e, n) => Ok(Array(e.count, e.items), n))
    case (Oneof, Union(which, v)) =>
      if which != f.tag && !ValidWhich(fields, which) then Fail
      else
        (match DecValue(f, s, OneofBase(f, v))
         case Fail => Fail
         case Ok(v', n) => Ok(Union(f.tag, v'), n))
    case (Optional, Has(_, v)) =>
      (match DecValue(f, s, v)
       case Fail => Fail
       case Ok(v', n) => Ok(Has(true, v'), n))
    case (Required, Plain(v)) =>
      (match DecValue(f, s, v)
       case Fail => Fail
       case Ok(v', n) => Ok(Plain(v'), n))
    case (Optional, Plain(v)) =>
      (match DecValue(f, s, v)
       case Fail => Fail
       case Ok(v', n) => Ok(Plain(v'), n))
    case (_, Ptr(_)) => DecPointer(f, wireType, s, slot)
    case (Repeated, PtrArray(_, _)) => DecPointer(f, wireType, s, slot)
    case _ => Fail
  }

  /** The fixed-count array being filled is complete. */
  predicate FixedComplete(fields: seq<Field>, st: State) {
    st.fixed.Some? ==> st.fixed.value < |fields| && st.fixedSize == fields[st.fixed.value].arraySize
  }

  /** One field of the message, found at position `i`. */
  function DecField(fields: seq<Field>, i: nat, wireType: nat, s: bytes, st: State): (r: Parse<State>)
    requires i < |fields|
    decreases |s|, 6
    ensures r.Ok? ==> 1 <= r.used <= |s|
  {
    var f, a := fields[i], Addr(fields, i);
    if a !in st.m then Fail
    else if f.FixedCount() then
      if st.fixed != Some(i) && !FixedComplete(fields, st) then Fail
      else
        (match st.m[a]
         case FixedArray(items) =>
           (match DecEntries(f, wireType, s, Entries(if st.fixed == Some(i) then st.fixedSize else 0, items))
            case Fail => Fail
            case Ok(e, n) => Ok(State(st.m[a := FixedArray(e.items)], st.seen, Some(i), e.count), n))
         case _ => Fail)
    else
      match DecSlot(fields, f, wireType, s, st.m[a])
      case Fail => Fail
      case Ok(slot, n) => Ok(st.(m := st.m[a := slot], seen := st.seen + Marks(fields, i)), n)
  }

  /** The required-field number that meeting field `i` marks, if it is tracked. */
  function Marks(fields: seq<Field>, i: nat): set<nat>
    requires i < |fields|
  {
    if fields[i].htype == Required && RequiredBefore(fields, i) < PB_MAX_REQUIRED_FIELDS
    then {RequiredBefore(fields, i)} else {}
  }

  /** The loop of `pb_decode_noinit`. A key that no field has is skipped with its payload. */
  function DecLoop(fields: seq<Field>, s: bytes, st: State): Outcome
    decreases |s|, 7
  {
    Varint32Used(s);
    if s == [] then Done(st, 0, false)
    else match DecTag(s)
      case Fail => Bad
      case Ok(Terminator, n) => Done(st, n, true)
      case Ok(Key(tag, wireType), n) =>
        var rest := s[n..];
        SkipUsed(rest, wireType);
        match Find(fields, tag)
        case None =>
          if fields == [] && tag == 0 then Bad
          else
            (match Skip(rest, wireType)
             case Fail => Bad
             case Ok(_, k) => DecLoop(fields, rest[k..], st).After(n + k))
        case Some(i) =>
          (match DecField(fields, i, wireType, rest, st)
           case Fail => Bad
           case Ok(st', k) => DecLoop(fields, rest[k..], st').After(n + k))
  }

  function Start(m: Message): State {
    State(m, {}, None, 0)
  }

  /** Each of the first 64 required fields was met. */
  predicate RequiredMet(fields: seq<Field>, seen: set<nat>) {
    forall i :: 0 <= i < |fields| ==> Marks(fields, i) <= seen
  }

  predicate Complete(fields: seq<Field>, st: State) {
    FixedComplete(fields, st) && RequiredMet(fields, st.seen)
  }

  /** `pb_decode_noinit` */
  function DecMessage(fields: seq<Field>, s: bytes, m: Message): Option<Message>
    decreases |s|, 8
  {
    match DecLoop(fields, s, Start(m))
    case Bad => None
    case Done(st, _, _) => if Complete(fields, st) then Some(st.m) else None
  }

  /** `pb_decode` */
  function Decode(fields: seq<Field>, s: bytes, m: Message): Option<Message> {
    DecMessage(fields, s, SetDefaults(fields, m))
  }
}
