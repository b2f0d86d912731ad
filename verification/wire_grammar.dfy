/** The wire format in its own numbers, whoever writes or reads it: keys, wire types and lengths as section
    "Message Structure" of the Protocol Buffers encoding guide tells them, and the records a message has. What
    the encoder writes is proved to be these records. */
module WireGrammar {
  import opened Bits
  import opened Wire
  import opened WireFacts
  import opened Descriptor
  import opened EncodeSpec
  import opened DecodeSpec
  import opened Agreement

  // ---------------------------------------------------------------- The grammar

  datatype Payload =
    | Word(v: nat)
    | Eight(v: nat)
    | Four(v: nat)
    | Text(text: bytes)
    | Nested(records: seq<Record>)
    | Packed(items: seq<Payload>)

  datatype Record = Record(tag: nat, payload: Payload)

  function WireType(p: Payload): nat {
    match p
    case Word(_) => 0
    case Eight(_) => 1
    case Four(_) => 5
    case _ => 2
  }

  /** Groups of seven bits, the lowest first. */
  function GroupsValue(b: bytes): nat {
    if b == [] then 0 else b[0] % 128 + 128 * GroupsValue(b[1..])
  }

  /** Bytes of eight bits, the lowest first. */
  function LittleEndian(b: bytes): nat {
    if b == [] then 0 else b[0] + 256 * LittleEndian(b[1..])
  }

  /** All groups but the last are marked by the high bit, and there is none too many. */
  predicate IsVarint(b: bytes, v: nat) {
    && b != [] && GroupsValue(b) == v
    && b[|b| - 1] < 128 && (forall i :: 0 <= i < |b| - 1 ==> b[i] >= 128)
    && (|b| > 1 ==> b[|b| - 1] != 0)
  }

  ghost predicate IsPayload(b: bytes, p: Payload)
    decreases p, 0
  {
    match p
    case Word(v) => IsVarint(b, v)
    case Eight(v) => |b| == 8 && LittleEndian(b) == v
    case Four(v) => |b| == 4 && LittleEndian(b) == v
    case Text(text) => exists n :: 0 <= n <= |b| && IsVarint(b[..n], |b| - n) && b[n..] == text
    case Nested(records) => exists n :: 0 <= n <= |b| && IsVarint(b[..n], |b| - n) && AreRecords(b[n..], records)
    case Packed(items) => exists n :: 0 <= n <= |b| && IsVarint(b[..n], |b| - n) && ArePayloads(b[n..], items)
  }

  ghost predicate ArePayloads(b: bytes, items: seq<Payload>)
    decreases items, |items|
  {
    if items == [] then b == []
    else exists n :: 0 <= n <= |b| && IsPayload(b[..n], items[0]) && ArePayloads(b[n..], items[1..])
  }

  ghost predicate IsRecord(b: bytes, r: Record)
    decreases r, 0
  {
    exists n :: 0 <= n <= |b| && IsVarint(b[..n], 8 * r.tag + WireType(r.payload)) && IsPayload(b[n..], r.payload)
  }

  ghost predicate AreRecords(b: bytes, records: seq<Record>)
    decreases records, |records|
  {
    if records == [] then b == []
    else exists n :: 0 <= n <= |b| && IsRecord(b[..n], records[0]) && AreRecords(b[n..], records[1..])
  }

  // ---------------------------------------------------------------- What a message consists of

  /** Numbers that a message may hold are never too small for this. */
  function AsNat(i: int): nat {
    if i >= 0 then i else 0
  }

  function SentValue(f: Field, v: Value): Payload
    decreases f, 0
  {
    match (f.ltype, v)
    case (Bool, Int(i)) => Word(if i == 0 then 0 else 1)
    case (Varint, Int(i)) => Word(AsNat(if i >= 0 then i else i + 0x1_0000_0000_0000_0000))
    case (Uvarint, Int(i)) => Word(AsNat(i))
    case (Svarint, Int(i)) => Word(if i >= 0 then 2 * i else -2 * i - 1)
    case (Fixed32, Int(i)) => Four(AsNat(i))
    case (Fixed64, Int(i)) => Eight(AsNat(i))
    case (String, Data(s)) => Text(StringOf(f, s))
    case (Submessage(fields), Msg(m)) => Nested(SentFrom(fields, m, 0))
    case (_, Data(s)) => Text(s)
    case _ => Text([])
  }

  function SentItems(f: Field, items: seq<Value>): (r: seq<Payload>)
    ensures |r| == |items|
    decreases f, 1
  {
    seq(|items|, k requires 0 <= k < |items| => SentValue(f, Content(f, items[k])))
  }

  function SentArray(f: Field, items: seq<Value>): seq<Record>
    decreases f, 2
  {
    if items == [] then []
    else if f.ltype.Packable() then [Record(f.tag, Packed(SentItems(f, items)))]
    else SentEach(f, items)
  }

  function SentEach(f: Field, items: seq<Value>): (r: seq<Record>)
    ensures |r| == |items|
    decreases f, 1
  {
    seq(|items|, k requires 0 <= k < |items| => Record(f.tag, SentValue(f, Content(f, items[k]))))
  }

  /** One record for what is present; for an array of numbers one for all, for other arrays one for each
      entry. */
  function SentSlot(f: Field, s: Slot): seq<Record>
    decreases f, 3
  {
    match s
    case Plain(v) => if f.htype == Optional && IsDefaultValue(f, v) then [] else [Record(f.tag, SentValue(f, v))]
    case Has(has, v) => if has then [Record(f.tag, SentValue(f, v))] else []
    case Array(count, items) => SentArray(f, if count <= |items| then items[..count] else items)
    case FixedArray(items) => SentArray(f, items)
    case Union(which, v) => if which == f.tag then [Record(f.tag, SentValue(f, v))] else []
    case Ptr(p) => if p.Block? && |p.items| == 1 then [Record(f.tag, SentValue(f, p.items[0]))] else []
    case PtrArray(count, p) => SentArray(f, if count <= |HeapItems(p)| then HeapItems(p)[..count] else HeapItems(p))
  }

  /** The records of the fields in the order of the descriptor. */
  function SentFrom(fields: seq<Field>, m: Message, i: nat): seq<Record>
    requires i <= |fields|
    decreases fields, |fields| - i
  {
    if i == |fields| || Addr(fields, i) !in m then []
    else SentSlot(fields[i], m[Addr(fields, i)]) + SentFrom(fields, m, i + 1)
  }

  // ---------------------------------------------------------------- Numbers

  lemma {:induction false} GroupsArePositive(b: bytes)
    requires b != [] && 0 < b[|b| - 1] < 128
    ensures GroupsValue(b) > 0
  {
    if |b| > 1 {
      assert b[1..][|b| - 2] == b[|b| - 1];
      GroupsArePositive(b[1..]);
    }
  }

  lemma {:induction false} EncodedIsVarint(v: nat)
    ensures IsVarint(EncVarint(v), v)
  {
    if v >= 128 {
      var e := EncVarint(v);
      EncodedIsVarint(v / 128);
      assert e[1..] == EncVarint(v / 128) && e[|e| - 1] == e[1..][|e| - 2];
      assert forall i :: 0 < i < |e| - 1 ==> e[i] == e[1..][i - 1];
      if v / 128 < 128 { assert e[1..] == [v / 128]; }
    }
  }

  /** The encoder's varints are those of the grammar, and there are no others. */
  lemma {:induction false} VarintIff(b: bytes, v: nat)
    ensures IsVarint(b, v) <==> b == EncVarint(v)
    decreases |b|
  {
    EncodedIsVarint(v);
    if IsVarint(b, v) {
      var t := b[1..];
      assert b == [b[0]] + t;
      if |b| == 1 { return; }
      assert b[0] == 128 + v % 128 && GroupsValue(t) == v / 128;
      assert t[|t| - 1] == b[|b| - 1] && b == [b[0]] + t;
      assert forall i :: 0 <= i < |t| - 1 ==> t[i] == b[i + 1];
      GroupsArePositive(t);
      VarintIff(t, v / 128);
    }
  }

  lemma {:induction false} FixedIsLittleEndian(v: nat, k: nat)
    requires v < Pow2(8 * k)
    ensures LittleEndian(EncFixed(v, k)) == v
  {
    if k > 0 {
      Pow2Bytes(k);
      FixedIsLittleEndian(v / 256, k - 1);
      assert EncFixed(v, k)[1..] == EncFixed(v / 256, k - 1);
    }
  }

  lemma Pow2Bytes(k: nat)
    requires k > 0
    ensures Pow2(8 * k) == 256 * Pow2(8 * (k - 1))
  {
    var n := 8 * (k - 1);
    assert Pow2(n + 1) == 2 * Pow2(n) && Pow2(n + 2) == 2 * Pow2(n + 1) && Pow2(n + 3) == 2 * Pow2(n + 2);
    assert Pow2(n + 4) == 2 * Pow2(n + 3) && Pow2(n + 5) == 2 * Pow2(n + 4) && Pow2(n + 6) == 2 * Pow2(n + 5);
    assert Pow2(n + 7) == 2 * Pow2(n + 6) && Pow2(n + 8) == 2 * Pow2(n + 7);
  }

  // ---------------------------------------------------------------- The encoder writes these records

  lemma {:induction false} ValueIsPayload(f: Field, v: Value)
    requires WellFormedField(f) && ShapedValue(f, v) && ConformsValue(f, v) && EncValue(f, v).Some?
    ensures IsPayload(EncValue(f, v).value, SentValue(f, v))
    decreases f, 0
  {
    hide IsVarint, EncVarint, EncFixed, CString, EncFrom, SentFrom, AreRecords, ArePayloads, Shaped, Conforms, SignBit,
      LittleEndian, StringOf;
    match f.ltype {
      case Bytes => PrefixedIsText(v.bytes);
      case FixedLengthBytes => PrefixedIsText(v.bytes);
      case String => PrefixedIsText(StringOf(f, v.bytes));
      case Submessage(fields) =>
        FieldsAreRecords(fields, v.slots, 0);
        var payload := EncMessage(fields, v.slots).value;
        Prefix(payload);
        assert IsPayload(EncString(payload), Nested(SentFrom(fields, v.slots, 0)));
      case _ => NumberIsPayload(f, v);
    }
  }

  lemma NumberIsPayload(f: Field, v: Value)
    requires WellFormedField(f) && f.ltype.Packable() && v.Int? && ConformsValue(f, v) && EncValue(f, v).Some?
    ensures IsPayload(EncValue(f, v).value, SentValue(f, v))
  {
    hide IsVarint, EncVarint, EncFixed, LittleEndian, AllStaticField;
    var b := EncValue(f, v).value;
    PowersOfTwo();
    match f.ltype {
      case Bool => VarintIff(b, if v.i == 0 then 0 else 1);
      case Varint => VarintIff(b, AsNat(if v.i >= 0 then v.i else v.i + 0x1_0000_0000_0000_0000));
      case Uvarint => VarintIff(b, v.i);
      case Svarint => VarintIff(b, if v.i >= 0 then 2 * v.i else -2 * v.i - 1);
      case Fixed32 => FixedIsLittleEndian(v.i, 4);
      case Fixed64 => FixedIsLittleEndian(v.i, 8);
    }
  }

  lemma Prefix(payload: bytes)
    ensures var b, n := EncString(payload), |EncVarint(|payload|)|;
            n <= |b| && IsVarint(b[..n], |b| - n) && b[n..] == payload
  {
    var b, n := EncString(payload), |EncVarint(|payload|)|;
    assert b[..n] == EncVarint(|payload|) && b[n..] == payload;
    VarintIff(b[..n], |payload|);
  }

  lemma PrefixedIsText(text: bytes)
    ensures IsPayload(EncString(text), Text(text))
  {
    Prefix(text);
  }

  lemma {:induction false} RecordsAppend(a: bytes, ra: seq<Record>, b: bytes, rb: seq<Record>)
    requires AreRecords(a, ra) && AreRecords(b, rb)
    ensures AreRecords(a + b, ra + rb)
    decreases |ra|
  {
    hide IsRecord;
    if ra == [] {
      assert a + b == b && ra + rb == rb;
    } else {
      var n :| 0 <= n <= |a| && IsRecord(a[..n], ra[0]) && AreRecords(a[n..], ra[1..]);
      RecordsAppend(a[n..], ra[1..], b, rb);
      assert (a + b)[..n] == a[..n] && (a + b)[n..] == a[n..] + b && (ra + rb)[1..] == ra[1..] + rb;
    }
  }

  lemma OneRecord(key: bytes, b: bytes, r: Record)
    requires IsVarint(key, 8 * r.tag + WireType(r.payload)) && IsPayload(b, r.payload)
    ensures AreRecords(key + b, [r])
  {
    hide IsVarint, IsPayload;
    var s, n := key + b, |key|;
    assert s[..n] == key && s[n..] == b;
    assert IsRecord(s, r);
    assert s[..|s|] == s && s[|s|..] == [] && [r][1..] == [];
  }

  /** The key in front of a value has the number of its wire type. */
  lemma KeyIsVarint(f: Field, v: Value)
    requires ShapedValue(f, v)
    ensures IsVarint(EncKey(f), 8 * f.tag + WireType(SentValue(f, v)))
    ensures f.ltype.Packable() ==> WireType(SentValue(f, v)) != 2
  {
    hide IsVarint, EncVarint;
    VarintIff(EncKey(f), 8 * f.tag + WireType(SentValue(f, v)));
  }

  lemma {:induction false} PresentIsRecord(f: Field, v: Value)
    requires WellFormedField(f) && ShapedValue(f, v) && ConformsValue(f, v) && EncPresent(f, v).Some?
    ensures AreRecords(EncPresent(f, v).value, [Record(f.tag, SentValue(f, v))])
    decreases f, 1
  {
    hide EncValue, EncKey, IsPayload, IsVarint, ShapedValue, ConformsValue, WellFormedField, SentValue;
    ValueIsPayload(f, v);
    KeyIsVarint(f, v);
    OneRecord(EncKey(f), EncValue(f, v).value, Record(f.tag, SentValue(f, v)));
  }

  ghost predicate Sendables(f: Field, items: seq<Value>) {
    forall k :: 0 <= k < |items| ==> ShapedValue(f, Content(f, items[k])) && ConformsValue(f, Content(f, items[k]))
  }

  lemma {:induction false} PackedArePayloads(f: Field, items: seq<Value>)
    requires WellFormedField(f) && Sendables(f, items) && EncPacked(f, items).Some?
    ensures ArePayloads(EncPacked(f, items).value, SentItems(f, items))
    decreases f, 2, |items|
  {
    hide EncValue, EncItem, IsPayload, ShapedValue, ConformsValue, WellFormedField, SentValue, Content;
    if items != [] {
      var v, sent := Content(f, items[0]), SentItems(f, items);
      ItemEncodes(f, items[0]);
      ValueIsPayload(f, v);
      PackedArePayloads(f, items[1..]);
      var here, rest := EncItem(f, items[0]).value, EncPacked(f, items[1..]).value;
      var b, n := here + rest, |here|;
      assert b[..n] == here && b[n..] == rest;
      assert sent[1..] == SentItems(f, items[1..]);
    }
  }

  lemma {:induction false} EachAreRecords(f: Field, items: seq<Value>)
    requires WellFormedField(f) && Sendables(f, items) && EncEach(f, items).Some?
    ensures AreRecords(EncEach(f, items).value, SentEach(f, items))
    decreases f, 2, |items|
  {
    hide EncValue, EncItem, AreRecords, ShapedValue, ConformsValue, WellFormedField, SentValue, Content, EncKey;
    if items == [] {
      NoRecords();
      assert SentEach(f, items) == [];
    } else {
      var v, sent := Content(f, items[0]), SentEach(f, items);
      ItemEncodes(f, items[0]);
      PresentIsRecord(f, v);
      EachAreRecords(f, items[1..]);
      assert sent == [Record(f.tag, SentValue(f, v))] + SentEach(f, items[1..]);
      RecordsAppend(EncPresent(f, v).value, [Record(f.tag, SentValue(f, v))],
                    EncEach(f, items[1..]).value, SentEach(f, items[1..]));
    }
  }

  lemma NoRecords()
    ensures AreRecords([], [])
  {
  }

  lemma {:induction false} ArrayIsRecords(f: Field, items: seq<Value>)
    requires WellFormedField(f) && Sendables(f, items) && EncArray(f, |items|, items).Some?
    ensures AreRecords(EncArray(f, |items|, items).value, SentArray(f, items))
    decreases f, 3
  {
    hide EncPacked, EncEach, AreRecords, Sendables, IsVarint, EncVarint, WellFormedField, SentItems, ArePayloads;
    assert items[..|items|] == items;
    NoRecords();
    if items != [] {
      if f.ltype.Packable() {
        var body := EncPacked(f, items).value;
        PackedArePayloads(f, items);
        Prefix(body);
        var r := Record(f.tag, Packed(SentItems(f, items)));
        assert IsPayload(EncString(body), r.payload);
        VarintIff(EncTag(WT_STRING, f.tag), 8 * f.tag + 2);
        OneRecord(EncTag(WT_STRING, f.tag), EncString(body), r);
      } else {
        EachAreRecords(f, items);
      }
    }
  }

  lemma {:induction false} SlotIsRecords(f: Field, s: Slot)
    requires WellFormedField(f) && ShapedSlot(f, s) && ConformsSlot(f, s) && EncSlot(f, s).Some?
    ensures AreRecords(EncSlot(f, s).value, SentSlot(f, s))
    decreases f, 5
  {
    hide EncPresent, EncArray, AreRecords, ShapedValue, ShapedItem, ConformsValue, SentValue, SentArray, Content,
      IsDefaultValue, AllStaticField;
    NoRecords();
    match s {
      case Plain(v) => if !(f.htype == Optional && IsDefaultValue(f, v)) { PresentIsRecord(f, v); }
      case Has(has, v) => if has { PresentIsRecord(f, v); }
      case Union(which, v) => if which == f.tag { PresentIsRecord(f, v); }
      case Array(count, items) =>
        ArrayFits(f, count, items);
        StaticArrayIsRecords(f, count, items);
      case FixedArray(items) =>
        StaticArrayIsRecords(f, |items|, items);
        assert items[..|items|] == items;
      case Ptr(p) =>
        if p.Block? {
          assert HeapItems(p)[0] == p.items[0];
          PresentIsRecord(f, p.items[0]);
        }
      case PtrArray(count, p) =>
        if count <= |HeapItems(p)| {
          var items := HeapItems(p)[..count];
          assert items[..count] == items;
          SameArray(f, count, HeapItems(p));
          ArrayIsRecords(f, items);
        }
    }
  }

  lemma ArrayFits(f: Field, count: nat, items: seq<Value>)
    requires EncArray(f, count, items).Some?
    ensures count <= |items|
  {
  }

  lemma SameArray(f: Field, count: nat, items: seq<Value>)
    requires count <= |items|
    ensures EncArray(f, count, items[..count]) == EncArray(f, count, items)
  {
    assert items[..count][..count] == items[..count];
  }

  lemma {:induction false} StaticArrayIsRecords(f: Field, count: nat, items: seq<Value>)
    requires WellFormedField(f) && f.atype == Static && EncArray(f, count, items).Some?
    requires forall k :: 0 <= k < |items| ==> ShapedValue(f, items[k])
    requires forall k :: 0 <= k < count && k < |items| ==> ConformsValue(f, items[k])
    requires count > 0 ==> count <= |items|
    ensures AreRecords(EncArray(f, count, items).value,
                       SentArray(f, if count <= |items| then items[..count] else items))
    decreases f, 4, 0
  {
    hide EncArray, AreRecords, ShapedValue, ConformsValue, SentArray;
    var used := items[..count];
    forall k | 0 <= k < |used| ensures Content(f, used[k]) == items[k] { }
    SameArray(f, count, items);
    ArrayIsRecords(f, used);
  }

  /** What `pb_encode` writes are the records of the message, in this format, and nothing else. */
  lemma {:induction false} FieldsAreRecords(fields: seq<Field>, m: Message, i: nat)
    requires WellFormed(fields) && Conforms(fields, m) && i <= |fields| && EncFrom(fields, m, i).Some?
    ensures AreRecords(EncFrom(fields, m, i).value, SentFrom(fields, m, i))
    decreases fields, |fields| - i
  {
    hide AreRecords, EncSlot, SentSlot, ShapedSlot, ConformsSlot, WellFormedField, Addr;
    if i == |fields| {
      NoRecords();
    } else {
      assert WellFormedField(fields[i]);
      SlotIsRecords(fields[i], m[Addr(fields, i)]);
      FieldsAreRecords(fields, m, i + 1);
      var a := Addr(fields, i);
      RecordsAppend(EncSlot(fields[i], m[a]).value, SentSlot(fields[i], m[a]),
                    EncFrom(fields, m, i + 1).value, SentFrom(fields, m, i + 1));
    }
  }
}
