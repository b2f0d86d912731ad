/** What the readers make of records in the wire format, whoever wrote them. */
module WireReading {
  import opened Wrappers
  import opened Bits
  import opened Wire
  import opened WireFacts
  import opened Descriptor
  import opened EncodeSpec
  import opened DecodeSpec
  import opened Merge
  import opened WireGrammar

  // ---------------------------------------------------------------- Skipping

  /** What is skipped for each wire type: a varint of any length, 8 bytes, a length and as many bytes, or
      4 bytes; nothing else is skipped. */
  lemma SkipIff(s: bytes, wireType: nat)
    ensures wireType == 0 ==> forall n :: Skip(s, 0) == Ok((), n) <==> EndsVarint(s, n)
    ensures wireType == 1 ==> Skip(s, 1) == if |s| >= 8 then Ok((), 8) else Fail
    ensures wireType == 5 ==> Skip(s, 5) == if |s| >= 4 then Ok((), 4) else Fail
    ensures wireType !in {0, 1, 2, 5} ==> Skip(s, wireType) == Fail
  {
    if wireType == 0 {
      forall n ensures SkipVarint(s) == Ok((), n) <==> EndsVarint(s, n) { SkipsVarint(s, n); }
    }
  }

  /** The first byte without the high bit is the `n`-th. */
  predicate EndsVarint(s: bytes, n: nat) {
    1 <= n <= |s| && s[n - 1] < 128 && forall i :: 0 <= i < n - 1 ==> s[i] >= 128
  }

  lemma {:induction false} SkipsVarint(s: bytes, n: nat)
    ensures SkipVarint(s) == Ok((), n) <==> EndsVarint(s, n)
    decreases |s|
  {
    if s != [] && s[0] >= 128 {
      if n > 0 {
        SkipsVarint(s[1..], n - 1);
        VarintContinues(s, n);
      } else {
        SkipVarintUsed(s);
      }
    }
  }

  lemma VarintContinues(s: bytes, n: nat)
    requires s != [] && s[0] >= 128 && n > 0
    ensures EndsVarint(s, n) <==> EndsVarint(s[1..], n - 1)
  {
    if EndsVarint(s[1..], n - 1) {
      assert forall i :: 0 < i < n - 1 ==> s[i] == s[1..][i - 1];
    }
  }

  /** Every payload of the grammar that is short enough is skipped to its last byte. */
  lemma PayloadIsSkipped(b: bytes, p: Payload, tail: bytes)
    requires IsPayload(b, p) && |b| < 0x1_0000_0000
    ensures Skip(b + tail, WireType(p)) == Ok((), |b|)
  {
    hide AreRecords, ArePayloads, IsVarint, LittleEndian;
    SkipIff(b + tail, WireType(p));
    match p {
      case Word(v) => assert EndsVarint(b + tail, |b|) by { VarintEnds(b, v, tail); }
      case Eight(_) =>
      case Four(_) =>
      case Text(_) => LengthIsRead(b, tail);
      case Nested(_) => LengthIsRead(b, tail);
      case Packed(_) => LengthIsRead(b, tail);
    }
  }

  lemma VarintEnds(b: bytes, v: nat, tail: bytes)
    requires IsVarint(b, v)
    ensures EndsVarint(b + tail, |b|)
  {
  }

  lemma LengthIsRead(b: bytes, tail: bytes)
    requires |b| < 0x1_0000_0000 && exists n :: 0 <= n <= |b| && IsVarint(b[..n], |b| - n)
    ensures Skip(b + tail, 2) == Ok((), |b|)
  {
    var n :| 0 <= n <= |b| && IsVarint(b[..n], |b| - n);
    VarintIff(b[..n], |b| - n);
    StringRoundTrip(b[n..], tail);
    assert EncString(b[n..]) == b;
  }

  /** Records of fields that a message does not have leave it as it is. */
  lemma {:induction false} UnknownRecords(fields: seq<Field>, b: bytes, records: seq<Record>, st: State)
    requires AreRecords(b, records) && |b| < 0x1_0000_0000
    requires forall k :: 0 <= k < |records| ==>
               1 <= records[k].tag < 0x2000_0000 && Find(fields, records[k].tag) == None
    ensures Runs(fields, b, st, st)
    decreases |records|
  {
    hide IsRecord, Find, DecField;
    if records == [] {
      assert DecLoop(fields, [], st) == Done(st, 0, false);
    } else {
      var n :| 0 <= n <= |b| && IsRecord(b[..n], records[0]) && AreRecords(b[n..], records[1..]);
      UnknownRecord(fields, b[..n], records[0], st);
      UnknownRecords(fields, b[n..], records[1..], st);
      RunsCompose(fields, b[..n], b[n..], st, st);
      assert b[..n] + b[n..] == b;
    }
  }

  lemma UnknownRecord(fields: seq<Field>, b: bytes, r: Record, st: State)
    requires IsRecord(b, r) && |b| < 0x1_0000_0000 && 1 <= r.tag < 0x2000_0000 && Find(fields, r.tag) == None
    ensures Runs(fields, b, st, st)
  {
    hide IsVarint, IsPayload, EncVarint, DecVarint32, Skip, Find, DecField;
    var n :| 0 <= n <= |b| && IsVarint(b[..n], 8 * r.tag + WireType(r.payload)) && IsPayload(b[n..], r.payload);
    var w := WireType(r.payload);
    VarintIff(b[..n], 8 * r.tag + w);
    TagRoundTrip(w, r.tag, b[n..]);
    assert EncTag(w, r.tag) + b[n..] == b;
    PayloadIsSkipped(b[n..], r.payload, []);
    assert b[n..] + [] == b[n..] && b[n..][|b| - n..] == [];
    assert DecLoop(fields, [], st) == Done(st, 0, false);
  }

  // ---------------------------------------------------------------- Reading numbers

  /** How many numbers an integer of so many bytes can hold. */
  function Range(size: nat): nat {
    if size == 1 then 0x100
    else if size == 2 then 0x1_0000
    else if size == 4 then 0x1_0000_0000
    else 0x1_0000_0000_0000_0000
  }

  /** The lowest bits read as a signed number. */
  function TwosComplement(w: nat, range: nat): int
    requires range > 0
  {
    if 2 * (w % range) < range then w % range else w % range - range
  }

  predicate InRange(i: int, size: nat) {
    -(Range(size) as int) <= 2 * i < Range(size)
  }

  /** The number a field of the type and size reads from a payload, if it takes it at all. Fields of up to
      four bytes take the low half of a word first, so that a negative number may come in five bytes or in
      ten. */
  function Meaning(t: LType, size: nat, p: Payload): Option<int> {
    match (t, p)
    case (Bool, Word(w)) => Some(if w == 0 then 0 else 1)
    case (Varint, Word(w)) =>
      var i := TwosComplement(w, if size == 8 then 0x1_0000_0000_0000_0000 else 0x1_0000_0000);
      if InRange(i, size) then Some(i) else None
    case (Uvarint, Word(w)) => if w < Range(size) then Some(w) else None
    case (Svarint, Word(w)) =>
      var i: int := if w % 2 == 0 then w / 2 else -(w / 2) - 1;
      if InRange(i, size) then Some(i) else None
    case (Fixed32, Four(v)) => Some(v)
    case (Fixed64, Eight(v)) => Some(v)
    case _ => None
  }

  predicate Fitting(t: LType, p: Payload) {
    match t
    case Bool => p.Word? && p.v < 0x1_0000_0000
    case Varint | Uvarint | Svarint => p.Word? && p.v < 0x1_0000_0000_0000_0000
    case Fixed32 => p.Four?
    case Fixed64 => p.Eight?
    case _ => false
  }

  /** Numbers are read from records as they are meant, whoever wrote them. */
  lemma NumberIsRead(f: Field, b: bytes, p: Payload, tail: bytes)
    requires WellFormedField(f) && Fitting(f.ltype, p) && IsPayload(b, p)
    ensures DecScalar(f, b + tail) ==
            match Meaning(f.ltype, f.dataSize, p)
            case Some(i) => Ok(Int(i), |b|)
            case None => Fail
  {
    hide IsVarint, DecVarint32, DecVarint, DecFixed, DecString, LittleEndian, WellFormedField, UnZigZag, SignedOfVarint,
      SignBit, InRange, Range, TwosComplement;
    if p.Word? && !f.ltype.Bool? { LimitsAre(f, p.v); }
    match f.ltype {
      case Bool => WordIsRead(b, p.v, tail);
      case Varint => WordIsRead(b, p.v, tail);
      case Uvarint => WordIsRead(b, p.v, tail);
      case Svarint =>
        WordIsRead(b, p.v, tail);
        UnZigZagIs(p.v);
      case Fixed32 => FixedIsRead(b, tail, 4);
      case Fixed64 => FixedIsRead(b, tail, 8);
    }
  }

  lemma LimitsAre(f: Field, w: nat)
    requires WellFormedField(f) && (f.ltype.Varint? || f.ltype.Uvarint? || f.ltype.Svarint?)
    requires w < 0x1_0000_0000_0000_0000
    ensures var half: int := SignBit(f.dataSize);
            (forall i: int :: -half <= i < half <==> InRange(i, f.dataSize)) && 2 * half == Range(f.dataSize)
    ensures SignedOfVarint(f, w) ==
            TwosComplement(w, if f.dataSize == 8 then 0x1_0000_0000_0000_0000 else 0x1_0000_0000)
  {
    hide AllStaticField, WellFormed;
  }

  lemma WordIsRead(b: bytes, w: nat, tail: bytes)
    requires IsVarint(b, w) && w < 0x1_0000_0000_0000_0000
    ensures DecVarint(b + tail) == Ok(w, |b|)
    ensures w < 0x1_0000_0000 ==> DecVarint32(b + tail) == Ok(w, |b|)
  {
    hide IsVarint, EncVarint, DecVarint, DecVarint32;
    VarintIff(b, w);
    VarintRoundTrip(w, tail);
    if w < WORD32 { Varint32RoundTrip(w, tail); }
  }

  lemma UnZigZagIs(w: nat)
    requires w < 0x1_0000_0000_0000_0000
    ensures UnZigZag(w) == if w % 2 == 0 then w / 2 else -((w / 2) as int) - 1
  {
  }

  lemma FixedIsRead(b: bytes, tail: bytes, k: nat)
    requires |b| == k
    ensures DecFixed(b + tail, k) == Ok(LittleEndian(b), k)
  {
    assert (b + tail)[..k] == b;
    SameLittleEndian(b);
  }

  lemma {:induction false} SameLittleEndian(b: bytes)
    ensures FixedValue(b) == LittleEndian(b)
  {
    if b != [] { SameLittleEndian(b[1..]); }
  }

  /** The bytes of the count in front of a byte array. */
  function CountSize(): nat {
    if PB_SIZE_MAX < 0x100 then 1 else if PB_SIZE_MAX < 0x1_0000 then 2 else 4
  }

  lemma TextIsPrefixed(b: bytes, text: bytes, tail: bytes)
    requires IsPayload(b, Text(text)) && |text| < 0x1_0000_0000
    ensures DecString(b + tail) == Ok(text, |b|)
  {
    hide IsVarint, EncVarint, DecString;
    var n :| 0 <= n <= |b| && IsVarint(b[..n], |b| - n) && b[n..] == text;
    VarintIff(b[..n], |b| - n);
    StringRoundTrip(text, tail);
    assert EncString(text) == b;
  }

  /** Strings and byte arrays are taken if they fit their member, a string with its terminator; fixed-length
      bytes only if they fill it, or as zeros if there are none. */
  lemma TextIsRead(f: Field, b: bytes, text: bytes, tail: bytes)
    requires IsPayload(b, Text(text)) && |text| < 0x1_0000_0000
    ensures f.ltype.Bytes? ==>
              DecScalar(f, b + tail) ==
              if |text| <= PB_SIZE_MAX && CountSize() + |text| <= f.dataSize then Ok(Data(text), |b|) else Fail
    ensures f.ltype.String? ==> DecScalar(f, b + tail) == if |text| < f.dataSize then Ok(Data(text), |b|) else Fail
    ensures f.ltype.FixedLengthBytes? && text != [] ==>
              DecScalar(f, b + tail) ==
              if |text| <= PB_SIZE_MAX && |text| == f.dataSize then Ok(Data(text), |b|) else Fail
    ensures f.ltype.FixedLengthBytes? && text == [] ==>
              var r := DecScalar(f, b + tail);
              && r.Ok? && r.used == |b| && r.value.Data? && |r.value.bytes| == f.dataSize
              && forall k :: 0 <= k < f.dataSize ==> r.value.bytes[k] == 0
  {
    hide DecString, IsPayload;
    TextIsPrefixed(b, text, tail);
  }

  /** The same of memory that is allocated for the text: only its size must be one that can be told. */
  lemma TextIsOwned(f: Field, b: bytes, text: bytes, tail: bytes)
    requires IsPayload(b, Text(text)) && |text| < 0x1_0000_0000 && (f.ltype.String? || f.ltype.Bytes?)
    ensures DecOwned(f, b + tail) ==
            if (if f.ltype.String? then |text| + 1 < 0x1_0000_0000
                else |text| <= PB_SIZE_MAX && CountSize() + |text| <= SIZE_MAX)
            then Ok(Data(text), |b|) else Fail
  {
    hide DecString, IsPayload;
    TextIsPrefixed(b, text, tail);
  }

  // ---------------------------------------------------------------- Strings and zeroed memory

  /** A C string ends before the first zero, or where its buffer ends. */
  lemma {:induction false} CStringEnds(s: bytes, max: nat)
    ensures var t := CString(s, max);
            && t <= s && |t| <= max && 0 !in t
            && (|t| == |s| || |t| == max || s[|t|] == 0)
  {
    if s != [] && s[0] != 0 && max > 0 {
      CStringEnds(s[1..], max - 1);
      assert s == [s[0]] + s[1..];
    }
  }

  /** Memory of zeros shows zeros in numbers, nothing in strings and byte arrays, and zeros all over in
      fixed-length bytes. */
  lemma ZeroedNumber(f: Field)
    ensures f.ltype.Packable() ==> ZeroValue(f) == Int(0)
    ensures f.ltype.Bytes? || f.ltype.String? ==> ZeroValue(f) == Data([])
    ensures f.ltype.FixedLengthBytes? ==>
              var v := ZeroValue(f);
              v.Data? && |v.bytes| == f.dataSize && forall k :: 0 <= k < f.dataSize ==> v.bytes[k] == 0
  {
  }

  lemma KeyIsNotEmpty(f: Field)
    ensures EncKey(f) != []
  {
    hide EncVarint;
    EncodedIsVarint(8 * f.tag + WireTypeOf(f.ltype));
  }

  /** A proto3-style scalar is left out exactly when it is zero, false or empty; fixed-length bytes only if
      they have no length. */
  lemma OmittedIff(f: Field, v: Value)
    requires f.htype == Optional && f.atype == Static && ShapedValue(f, v) && !f.ltype.Submessage?
    requires EncSlot(f, Plain(v)).Some?
    ensures EncSlot(f, Plain(v)).value == [] <==>
            match v
            case Int(i) => i == 0
            case Data(b) => if f.ltype.String? then b == [] || b[0] == 0 else b == []
            case _ => false
  {
    hide EncVarint, EncValue, IsVarint;
    assert EncKey(f) != [] by { KeyIsNotEmpty(f); }
  }

  /** Whatever bytes are read, what is stored fits its member: a string leaves room for its terminator, a byte
      array for its count, and a number is one that its C type can hold. */
  lemma StoredFits(f: Field, s: bytes)
    requires WellFormedField(f) && DecScalar(f, s).Ok?
    ensures var Ok(v, n) := DecScalar(f, s);
            && 1 <= n <= |s|
            && match f.ltype
               case Bool => v == Int(0) || v == Int(1)
               case Varint | Svarint => v.Int? && InRange(v.i, f.dataSize)
               case Uvarint => v.Int? && 0 <= v.i < Range(f.dataSize)
               case Fixed32 => v.Int? && 0 <= v.i < 0x1_0000_0000
               case Fixed64 => v.Int? && 0 <= v.i < 0x1_0000_0000_0000_0000
               case Bytes => v.Data? && CountSize() + |v.bytes| <= f.dataSize
               case String => v.Data? && |v.bytes| < f.dataSize
               case FixedLengthBytes => v.Data? && |v.bytes| == f.dataSize
               case _ => false
  {
    hide DecVarint32, DecString, Groups, FixedValue, UnZigZag, AllStaticField, WellFormed;
    if f.ltype.Fixed32? { FixedIsBounded(s[..4]); PowersOfBytes(); }
    if f.ltype.Fixed64? { FixedIsBounded(s[..8]); PowersOfBytes(); }
  }

  lemma PowersOfBytes()
    ensures Pow2(8 * 4) == 0x1_0000_0000 && Pow2(8 * 8) == 0x1_0000_0000_0000_0000
  {
    PowersOfTwo();
  }

  lemma {:induction false} FixedIsBounded(b: bytes)
    ensures FixedValue(b) < Pow2(8 * |b|)
  {
    if b != [] {
      FixedIsBounded(b[1..]);
      Pow2Bytes(|b|);
    }
  }
}
