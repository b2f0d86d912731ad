/** pb_encode.c: the encoder that writes to a stream, proved to write the bytes of `EncodeSpec`. */
module Encoder {
  import opened Wrappers
  import opened Wire
  import opened Descriptor
  import opened FieldIterator
  import opened EncodeSpec
  import opened OutputStream

  /** The `strnlen` loop of `pb_enc_string`. */
  method StringLength(s: bytes, maxSize: nat) returns (size: nat)
    ensures size <= |s| && s[..size] == CString(s, maxSize)
  {
    size := 0;
    while size < maxSize && size < |s| && s[size] != 0
      invariant size <= |s| && size <= maxSize
      invariant CString(s, maxSize) == s[..size] + CString(s[size..], maxSize - size)
    {
      size := size + 1;
    }
  }

  /** The encoder PB_ENCODERS holds for the field's type, on one value. */
  method EncodeValue(os: OStream, f: Field, v: Value) returns (ok: bool)
    requires os.Valid()
    modifies os, os.buf
    ensures os.Did(ok, EncValue(f, v))
    decreases f, 0
  {
    hide Effect;
    Untouched(os.sizing, os.maxSize, os.Now());
    match (f.ltype, v) {
      case (Bool, _) => ok := os.EncodeVarint(if IntOf(v) != 0 then 1 else 0);
      case (Varint, _) =>
        if !IntegerSize(f.dataSize) { return false; }
        ok := os.EncodeVarint(ToUnsigned64(IntOf(v)));
      case (Uvarint, _) =>
        if !IntegerSize(f.dataSize) { return false; }
        ok := os.EncodeVarint(ToUnsigned64(IntOf(v)));
      case (Svarint, _) =>
        if !IntegerSize(f.dataSize) { return false; }
        ok := os.EncodeSvarint(IntOf(v));
      case (Fixed32, _) => ok := os.EncodeFixed(IntOf(v) % WORD32, 4);
      case (Fixed64, _) => ok := os.EncodeFixed(IntOf(v) % WORD64, 8);
      case (Bytes, Data(s)) =>
        if f.atype == Static && |s| + BytesHeader() > f.dataSize { return false; }
        ok := EncodePayload(os, s);
      case (String, Data(s)) =>
        var size := StringLength(s, if f.atype == Static then f.dataSize else |s|);
        ok := EncodePayload(os, s[..size]);
      case (FixedLengthBytes, Data(s)) =>
        if |s| != f.dataSize { return false; }
        ok := EncodePayload(os, s);
      case (Submessage(fields), Msg(m)) => ok := EncodeSubmessage(os, fields, m);
      case _ => ok := false;
    }
  }

  method EncodePayload(os: OStream, payload: bytes) returns (ok: bool)
    requires os.Valid()
    modifies os, os.buf
    ensures os.Did(ok, Prefixed(payload))
  {
    Untouched(os.sizing, os.maxSize, os.Now());
    if |payload| >= WORD64 { return false; }
    ok := os.EncodeString(payload);
  }

  function EncSubmessage(fields: seq<Field>, m: Message): Option<bytes> {
    match EncMessage(fields, m)
    case None => None
    case Some(payload) => Prefixed(payload)
  }

  /** `pb_encode_submessage`: a sizing pass for the length prefix, then the payload. */
  method EncodeSubmessage(os: OStream, fields: seq<Field>, m: Message) returns (ok: bool)
    requires os.Valid()
    modifies os, os.buf
    ensures os.Did(ok, EncSubmessage(fields, m))
    decreases fields, |fields| + 3
  {
    hide Effect;
    ghost var start := os.Now();
    Untouched(os.sizing, os.maxSize, start);
    var sizer := new OStream(true, os.buf, 0, 0);
    ghost var empty := sizer.Now();
    ok := EncodeMessage(sizer, fields, m);
    SizingResult(empty, sizer.Now(), ok, EncMessage(fields, m));
    if !ok { return; }
    var size := sizer.bytesWritten;
    ghost var payload := EncMessage(fields, m).value;
    if size >= WORD64 { return false; }
    assert os.Now() == start;
    ok := EncodeSized(os, fields, m, size, payload);
  }

  method EncodeSized(os: OStream, fields: seq<Field>, m: Message, size: nat, ghost payload: bytes) returns (ok: bool)
    requires os.Valid() && EncMessage(fields, m) == Some(payload) && size == |payload| < WORD64
    modifies os, os.buf
    ensures os.Did(ok, Some(EncString(payload)))
    decreases fields, |fields| + 2, 1
  {
    hide Effect;
    ghost var start := os.Now();
    ghost var prefix, body := Some(EncVarint(size)), Some(payload);
    ok := os.EncodeVarint(size);
    if !ok {
      EffectFails(os.sizing, os.maxSize, start, os.Now(), prefix, body);
      return;
    }
    ghost var mid := os.Now();
    ok := EncodeNested(os, fields, m, size, payload);
    EffectTwice(os.sizing, os.maxSize, start, mid, os.Now(), ok, prefix, body);
  }

  /** The second pass, into a stream that has exactly the room the first one asked for. It always fills
      it, so the size is never found changed. */
  method EncodeNested(os: OStream, fields: seq<Field>, m: Message, size: nat, ghost payload: bytes) returns (ok: bool)
    requires os.Valid() && EncMessage(fields, m) == Some(payload) && size == |payload|
    modifies os, os.buf
    ensures os.Did(ok, Some(payload))
    decreases fields, |fields| + 2, 0
  {
    hide Effect;
    ghost var start := os.Now();
    if os.sizing {
      Counted(os.maxSize, start, payload);
      os.Count(size);
      return true;
    }
    if os.bytesWritten + size > os.maxSize {
      NoRoom(os.maxSize, start, payload);
      return false;
    }
    var sub := new OStream(false, os.buf, os.state, size);
    var status := EncodeMessage(sub, fields, m);
    SubstreamFilled(os.maxSize, start, sub.Now(), status, payload);
    os.bytesWritten := os.bytesWritten + sub.bytesWritten;
    os.state := sub.state;
    assert sub.bytesWritten == size;
    if sub.bytesWritten != size { return false; }
    return status;
  }

  method EncodeItem(os: OStream, f: Field, v: Value) returns (ok: bool)
    requires os.Valid()
    modifies os, os.buf
    ensures os.Did(ok, EncItem(f, v))
    decreases f, 1
  {
    hide Effect;
    Untouched(os.sizing, os.maxSize, os.Now());
    if OwnPointer(f) {
      match v {
        case Ref(Null) => ok := EncodePayload(os, []);
        case Ref(Block(_, items)) =>
          if |items| != 1 { return false; }
          ok := EncodeValue(os, f, items[0]);
        case _ => ok := false;
      }
    } else {
      ok := EncodeValue(os, f, v);
    }
  }

  /** The payload size of a packed array, by a sizing stream unless the entries have a fixed size. */
  method PackedSize(f: Field, items: seq<Value>) returns (ok: bool, size: nat)
    requires f.ltype.Packable()
    ensures ok <==> EncPacked(f, items).Some?
    ensures ok ==> size == |EncPacked(f, items).value|
    decreases f, 2, 0
  {
    size := 0;
    if f.ltype.Fixed32? || f.ltype.Fixed64? {
      FixedPackedSize(f, items);
      return true, if f.ltype.Fixed32? then 4 * |items| else 8 * |items|;
    }
    var none := new byte[0];
    var sizer := new OStream(true, none, 0, 0);
    for i := 0 to |items|
      invariant sizer.Valid()
      invariant EncPacked(f, items).Some? <==> EncPacked(f, items[i..]).Some?
      invariant EncPacked(f, items).Some? ==>
                  |EncPacked(f, items).value| == sizer.bytesWritten + |EncPacked(f, items[i..]).value|
    {
      assert items[i..][1..] == items[i + 1..];
      ok := EncodeItem(sizer, f, items[i]);
      if !ok { return; }
    }
    return true, sizer.bytesWritten;
  }

  lemma {:induction false} FixedPackedSize(f: Field, items: seq<Value>)
    requires (f.ltype.Fixed32? || f.ltype.Fixed64?)
    ensures EncPacked(f, items).Some?
    ensures |EncPacked(f, items).value| == |items| * if f.ltype.Fixed32? then 4 else 8
  {
    if items != [] {
      assert EncItem(f, items[0]) == EncValue(f, items[0]);
      FixedPackedSize(f, items[1..]);
    }
  }

  /** `encode_array` */
  method EncodeArray(os: OStream, f: Field, count: nat, items: seq<Value>) returns (ok: bool)
    requires os.Valid()
    modifies os, os.buf
    ensures os.Did(ok, EncArray(f, count, items))
    decreases f, 3
  {
    hide Effect;
    Untouched(os.sizing, os.maxSize, os.Now());
    if count == 0 { return true; }
    if f.atype == Static && count > f.arraySize { return false; }
    if count > |items| { return false; }
    if f.ltype.Packable() {
      ok := EncodePackedArray(os, f, items[..count]);
    } else {
      ok := EncodeEach(os, f, items[..count]);
    }
  }

  function EncPackedArray(f: Field, items: seq<Value>): Option<bytes> {
    match EncPacked(f, items)
    case None => None
    case Some(body) => Cat(Some(EncTag(WT_STRING, f.tag)), Prefixed(body))
  }

  method EncodePackedArray(os: OStream, f: Field, items: seq<Value>) returns (ok: bool)
    requires os.Valid() && f.ltype.Packable()
    modifies os, os.buf
    ensures os.Did(ok, EncPackedArray(f, items))
    decreases f, 2, 1
  {
    hide Effect;
    ghost var start := os.Now();
    ghost var key, body := Some(EncTag(WT_STRING, f.tag)), EncPacked(f, items);
    ok := os.EncodeTag(WT_STRING, f.tag);
    if !ok {
      EffectFails(os.sizing, os.maxSize, start, os.Now(), key, if body.None? then None else Prefixed(body.value));
      return;
    }
    ghost var afterKey := os.Now();
    var size: nat;
    ok, size := PackedSize(f, items);
    if !ok || size >= WORD64 {
      Untouched(os.sizing, os.maxSize, afterKey);
      EffectTwice(os.sizing, os.maxSize, start, afterKey, afterKey, false, key, None);
      return false;
    }
    ghost var prefix := Some(EncVarint(size));
    assert Cat(Cat(key, prefix), body) == EncPackedArray(f, items) by { CatAssociates(key, prefix, body); }
    ok := os.EncodeVarint(size);
    ghost var afterPrefix := os.Now();
    EffectTwice(os.sizing, os.maxSize, start, afterKey, afterPrefix, ok, key, prefix);
    if !ok {
      EffectFails(os.sizing, os.maxSize, start, afterPrefix, Cat(key, prefix), body);
      return;
    }
    if os.sizing {
      Counted(os.maxSize, afterPrefix, body.value);
      os.Count(size);
    } else {
      ok := EncodeBodies(os, f, items);
    }
    EffectTwice(os.sizing, os.maxSize, start, afterPrefix, os.Now(), ok, Cat(key, prefix), body);
  }

  method EncodeBodies(os: OStream, f: Field, items: seq<Value>) returns (ok: bool)
    requires os.Valid()
    modifies os, os.buf
    ensures os.Did(ok, EncPacked(f, items))
    decreases f, 2, 0
  {
    ghost var start, done := os.Now(), [];
    hide Effect;
    CatUnits(EncPacked(f, items));
    Untouched(os.sizing, os.maxSize, os.Now());
    assert items[0..] == items;
    for i := 0 to |items|
      invariant os.Valid() && Effect(os.sizing, os.maxSize, start, os.Now(), true, Some(done))
      invariant EncPacked(f, items) == Cat(Some(done), EncPacked(f, items[i..]))
    {
      label Before:
      ghost var here, rest := EncItem(f, items[i]), EncPacked(f, items[i + 1..]);
      assert items[i..][1..] == items[i + 1..];
      CatAssociates(Some(done), here, rest);
      ok := EncodeItem(os, f, items[i]);
      EffectTwice(os.sizing, os.maxSize, start, old@Before(os.Now()), os.Now(), ok, Some(done), here);
      if !ok {
        EffectFails(os.sizing, os.maxSize, start, os.Now(), Cat(Some(done), here), rest);
        return;
      }
      done := done + here.value;
    }
    CatUnits(Some(done));
    return true;
  }

  method EncodeEach(os: OStream, f: Field, items: seq<Value>) returns (ok: bool)
    requires os.Valid()
    modifies os, os.buf
    ensures os.Did(ok, EncEach(f, items))
    decreases f, 2, 1
  {
    ghost var start, done := os.Now(), [];
    hide Effect;
    CatUnits(EncEach(f, items));
    Untouched(os.sizing, os.maxSize, os.Now());
    assert items[0..] == items;
    for i := 0 to |items|
      invariant os.Valid() && Effect(os.sizing, os.maxSize, start, os.Now(), true, Some(done))
      invariant EncEach(f, items) == Cat(Some(done), EncEach(f, items[i..]))
    {
      label Before:
      ghost var here, rest := Cat(Some(EncKey(f)), EncItem(f, items[i])), EncEach(f, items[i + 1..]);
      assert items[i..][1..] == items[i + 1..];
      CatAssociates(Some(done), here, rest);
      ok := EncodeKeyed(os, f, items[i]);
      EffectTwice(os.sizing, os.maxSize, start, old@Before(os.Now()), os.Now(), ok, Some(done), here);
      if !ok {
        EffectFails(os.sizing, os.maxSize, start, os.Now(), Cat(Some(done), here), rest);
        return;
      }
      done := done + here.value;
    }
    CatUnits(Some(done));
    return true;
  }

  lemma CatUnits(a: Option<bytes>)
    ensures Cat(Some([]), a) == a == Cat(a, Some([]))
  {
    if a.Some? { assert [] + a.value == a.value == a.value + []; }
  }

  lemma CatAssociates(a: Option<bytes>, b: Option<bytes>, c: Option<bytes>)
    ensures Cat(Cat(a, b), c) == Cat(a, Cat(b, c))
  {
    if a.Some? && b.Some? && c.Some? {
      assert a.value + b.value + c.value == a.value + (b.value + c.value);
    }
  }

  method EncodeKeyed(os: OStream, f: Field, v: Value) returns (ok: bool)
    requires os.Valid()
    modifies os, os.buf
    ensures os.Did(ok, Cat(Some(EncKey(f)), EncItem(f, v)))
    decreases f, 2, 0
  {
    hide Effect;
    ghost var start := os.Now();
    ok := os.EncodeTag(WireTypeOf(f.ltype), f.tag);
    if !ok {
      EffectFails(os.sizing, os.maxSize, start, os.Now(), Some(EncKey(f)), EncItem(f, v));
      return;
    }
    ghost var mid := os.Now();
    ok := EncodeItem(os, f, v);
    EffectTwice(os.sizing, os.maxSize, start, mid, os.Now(), ok, Some(EncKey(f)), EncItem(f, v));
  }

  method EncodePresent(os: OStream, f: Field, v: Value) returns (ok: bool)
    requires os.Valid()
    modifies os, os.buf
    ensures os.Did(ok, EncPresent(f, v))
    decreases f, 3
  {
    hide Effect;
    ghost var start := os.Now();
    ok := os.EncodeTag(WireTypeOf(f.ltype), f.tag);
    if !ok {
      EffectFails(os.sizing, os.maxSize, start, os.Now(), Some(EncKey(f)), EncValue(f, v));
      return;
    }
    ghost var mid := os.Now();
    ok := EncodeValue(os, f, v);
    EffectTwice(os.sizing, os.maxSize, start, mid, os.Now(), ok, Some(EncKey(f)), EncValue(f, v));
  }

  /** `pb_check_proto3_default_value` on the value of a static field. */
  method CheckDefaultValue(f: Field, v: Value) returns (isDefault: bool)
    ensures isDefault == IsDefaultValue(f, v)
    decreases f, 0
  {
    match (f.ltype, v) {
      case (Bytes, Data(s)) => isDefault := |s| == 0;
      case (String, Data(s)) => isDefault := |s| == 0 || s[0] == 0;
      case (FixedLengthBytes, _) => isDefault := f.dataSize == 0;
      case (Submessage(fields), Msg(m)) =>
        var it := new FieldIter(fields, 0);
        if fields == [] { return true; }
        var more := true;
        while more
          invariant it.Valid() && it.fields == fields && it.base == 0
          invariant IsDefaultFrom(fields, m, 0) == IsDefaultFrom(fields, m, if more then it.pos else |fields|)
          decreases more, |fields| - it.pos
        {
          if it.pData !in m { return false; }
          var fieldIsDefault := CheckDefaultSlot(fields[it.pos], m[it.pData], ZeroBehind(m, it.pData));
          if !fieldIsDefault { return false; }
          more := it.Next();
        }
        return true;
      case (_, Int(i)) => isDefault := i == 0;
      case _ => isDefault := false;
    }
  }

  method CheckDefaultSlot(f: Field, s: Slot, behind: bool) returns (isDefault: bool)
    ensures isDefault == IsDefaultSlot(f, s, behind)
    decreases f, 1
  {
    match (f.htype, s) {
      case (Repeated, Array(count, _)) => isDefault := count == 0;
      case (Repeated, PtrArray(count, _)) => isDefault := count == 0;
      case (Oneof, Union(which, _)) => isDefault := which == 0;
      case (Optional, Has(has, _)) => isDefault := !has;
      case (Optional, Plain(v)) => isDefault := CheckDefaultValue(f, v);
      case (Optional, Ptr(p)) => isDefault := CheckZeroBytes(f, p, behind);
      case _ => isDefault := false;
    }
  }

  /** The loop over `data_size` bytes from where the pointer lies. */
  method CheckZeroBytes(f: Field, p: Pointer, behind: bool) returns (isZero: bool)
    ensures isZero == ZeroBytes(f, p, behind)
  {
    var i, memory := 0, PointerBytes(p);
    while i < f.dataSize
      invariant i <= f.dataSize && forall k :: 0 <= k < i && k < POINTER_SIZE ==> memory[k] == 0
      invariant i > POINTER_SIZE ==> behind
    {
      if i < POINTER_SIZE && memory[i] != 0 { return false; }
      if i >= POINTER_SIZE && !behind { return false; }
      i := i + 1;
    }
    isZero := true;
  }

  /** `encode_basic_field` */
  method EncodeField(os: OStream, f: Field, s: Slot) returns (ok: bool)
    requires os.Valid()
    modifies os, os.buf
    ensures os.Did(ok, EncSlot(f, s))
    decreases f, 4
  {
    hide Effect;
    Untouched(os.sizing, os.maxSize, os.Now());
    match (f.htype, s) {
      case (Required, Plain(v)) => ok := EncodePresent(os, f, v);
      case (Required, Ptr(p)) =>
        if p.Null? || |p.items| != 1 { return false; }
        ok := EncodePresent(os, f, p.items[0]);
      case (Optional, Has(has, v)) =>
        if !has { return true; }
        ok := EncodePresent(os, f, v);
      case (Optional, Plain(v)) =>
        var isDefault := CheckDefaultValue(f, v);
        if isDefault { return true; }
        ok := EncodePresent(os, f, v);
      case (Optional, Ptr(p)) =>
        if p.Null? { return true; }
        if |p.items| != 1 { return false; }
        ok := EncodePresent(os, f, p.items[0]);
      case (Repeated, Array(count, items)) => ok := EncodeArray(os, f, count, items);
      case (Repeated, FixedArray(items)) => ok := EncodeArray(os, f, f.arraySize, items);
      case (Repeated, PtrArray(count, p)) => ok := EncodeArray(os, f, count, if p.Block? then p.items else []);
      case (Oneof, Union(which, v)) =>
        if which != f.tag { return true; }
        ok := EncodePresent(os, f, v);
      case _ => ok := false;
    }
  }

  lemma EncFromStep(fields: seq<Field>, m: Message, i: nat, done: bytes)
    requires i < |fields|
    ensures var a := Addr(fields, i);
            if a !in m then Cat(Some(done), EncFrom(fields, m, i)) == None
            else Cat(Some(done), EncFrom(fields, m, i)) ==
                 Cat(Cat(Some(done), EncSlot(fields[i], m[a])), EncFrom(fields, m, i + 1))
  {
    var a := Addr(fields, i);
    if a in m { CatAssociates(Some(done), EncSlot(fields[i], m[a]), EncFrom(fields, m, i + 1)); }
  }

  /** `pb_encode` */
  method EncodeMessage(os: OStream, fields: seq<Field>, m: Message) returns (ok: bool)
    requires os.Valid()
    modifies os, os.buf
    ensures os.Did(ok, EncMessage(fields, m))
    decreases fields, |fields| + 1
  {
    hide Effect, EncSlot, Addr;
    ghost var start, done := os.Now(), [];
    CatUnits(EncMessage(fields, m));
    Untouched(os.sizing, os.maxSize, os.Now());
    var it := new FieldIter(fields, 0);
    if fields == [] { return true; }
    var more := true;
    while more
      invariant it.Valid() && it.fields == fields && it.base == 0
      invariant os.Valid() && Effect(os.sizing, os.maxSize, start, os.Now(), true, Some(done))
      invariant EncMessage(fields, m) == Cat(Some(done), EncFrom(fields, m, if more then it.pos else |fields|))
      decreases more, |fields| - it.pos
    {
      EncFromStep(fields, m, it.pos, done);
      if it.pData !in m {
        Untouched(os.sizing, os.maxSize, os.Now());
        EffectTwice(os.sizing, os.maxSize, start, os.Now(), os.Now(), false, Some(done), None);
        return false;
      }
      ghost var before, here := os.Now(), EncSlot(fields[it.pos], m[it.pData]);
      ghost var rest := EncFrom(fields, m, it.pos + 1);
      ok := EncodeField(os, fields[it.pos], m[it.pData]);
      EffectTwice(os.sizing, os.maxSize, start, before, os.Now(), ok, Some(done), here);
      if !ok {
        EffectFails(os.sizing, os.maxSize, start, os.Now(), Cat(Some(done), here), rest);
        return;
      }
      SuccessWrites(os.sizing, os.maxSize, before, os.Now(), here);
      done := done + here.value;
      more := it.Next();
    }
    CatUnits(Some(done));
    return true;
  }

  /** `pb_get_encoded_size` */
  method GetEncodedSize(fields: seq<Field>, m: Message) returns (ok: bool, size: nat)
    ensures ok <==> EncMessage(fields, m).Some?
    ensures ok ==> size == |EncMessage(fields, m).value|
  {
    var none := new byte[0];
    var sizer := new OStream(true, none, 0, 0);
    ok := EncodeMessage(sizer, fields, m);
    size := sizer.bytesWritten;
  }
}
