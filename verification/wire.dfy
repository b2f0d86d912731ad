/** The Protocol Buffers wire format as functions on byte sequences.

    Encoders give the bytes of a value; decoders read a value from the front of a sequence and say
    how many bytes they used. The stream classes are proved against these functions. */
module Wire {
  import opened Wrappers
  import opened Bits

  type byte = b: int | 0 <= b < 256
  type bytes = seq<byte>

  type uint32 = n: nat | n < WORD32

  const WORD32: nat := 0x1_0000_0000
  const WORD64: nat := 0x1_0000_0000_0000_0000

  /** Wire types, pb.h. */
  const WT_VARINT: nat := 0
  const WT_64BIT: nat := 1
  const WT_STRING: nat := 2
  const WT_32BIT: nat := 5

  // ---------------------------------------------------------------- Base 128 varints

  /** Minimal base-128 form, least significant group first; all bytes but the last carry the top bit. */
  function EncVarint(v: nat): bytes {
    if v < 128 then [v] else [v % 128 + 128] + EncVarint(v / 128)
  }

  /** Reads at most `limit` groups and gives their unbounded base-128 value. */
  function Groups(s: bytes, limit: nat): Parse<nat> {
    if limit == 0 || s == [] then Fail
    else if s[0] < 128 then Ok(s[0], 1)
    else match Groups(s[1..], limit - 1)
      case Fail => Fail
      case Ok(v, n) => Ok(s[0] - 128 + 128 * v, n + 1)
  }

  /** A 64-bit varint: ten groups at most, bits above the 64th dropped. */
  function DecVarint(s: bytes): Parse<nat> {
    match Groups(s, 10)
    case Fail => Fail
    case Ok(v, n) => Ok(v % WORD64, n)
  }

  /** `(uint32)(b & 0x7F) << bitpos`. */
  function Shifted32(b: byte, bitpos: nat): (x: nat)
    ensures x < WORD32
  {
    Shl(b % 128, bitpos) % WORD32
  }

  /** The do-while of the 32-bit reader, entered with `bitpos` bits of `result` known. `bitpos` is an
      eight-bit counter and wraps; groups past bit 32 must be zero or a sign extension. */
  function Varint32Tail(s: bytes, bitpos: nat, result: nat): Parse<nat> {
    if s == [] then Fail
    else
      var b := s[0];
      var ext := if bitpos < 63 then 0xFF else 0x01;
      if bitpos >= 32 && b % 128 != 0 && (result < 0x8000_0000 || b != ext) then Fail
      else
        var result' := if bitpos >= 32 then result else BitOr(result, Shifted32(b, bitpos));
        var bitpos' := (bitpos + 7) % 256;
        if b >= 128 then
          Varint32Tail(s[1..], bitpos', result').After(1)
        else if bitpos' == 35 && b % 128 >= 16 then Fail
        else Ok(result', 1)
  }

  function DecVarint32(s: bytes): Parse<nat> {
    if s == [] then Fail
    else if s[0] < 128 then Ok(s[0], 1)
    else Varint32Tail(s[1..], 7, s[0] - 128).After(1)
  }

  function SkipVarint(s: bytes): Parse<()> {
    if s == [] then Fail
    else if s[0] < 128 then Ok((), 1)
    else SkipVarint(s[1..]).After(1)
  }

  // ---------------------------------------------------------------- Signed integers

  /** Two's complement reading of a word whose sign bit is worth `half`: the C cast to a signed type. */
  function Signed(v: int, half: nat): int
    requires half > 0
  {
    var w := v % (2 * half);
    if w < half then w else w - 2 * half
  }

  /** The unsigned word a signed 64-bit value is cast to. */
  function ToUnsigned64(i: int): nat { i % WORD64 }

  predicate IsInt64(i: int) { -0x8000_0000_0000_0000 <= i < 0x8000_0000_0000_0000 }

  /** `~((uint64)v << 1)` for negative values, `(uint64)v << 1` otherwise. */
  function ZigZag(i: int): nat {
    var shifted := 2 * ToUnsigned64(i) % WORD64;
    if i < 0 then WORD64 - 1 - shifted else shifted
  }

  /** `(int64)~(v >> 1)` for odd words, `(int64)(v >> 1)` otherwise. */
  function UnZigZag(v: nat): int
    requires v < WORD64
  {
    if v % 2 == 1 then WORD64 - 1 - v / 2 - WORD64 else v / 2
  }

  // ---------------------------------------------------------------- Fixed-width words, strings, tags

  /** The `k` low bytes of `v`, least significant first. */
  function EncFixed(v: nat, k: nat): (s: bytes)
    ensures |s| == k
  {
    if k == 0 then [] else [v % 256] + EncFixed(v / 256, k - 1)
  }

  function FixedValue(s: bytes): nat {
    if s == [] then 0 else s[0] + 256 * FixedValue(s[1..])
  }

  function DecFixed(s: bytes, k: nat): Parse<nat> {
    if |s| < k then Fail else Ok(FixedValue(s[..k]), k)
  }

  function EncString(payload: bytes): bytes {
    EncVarint(|payload|) + payload
  }

  /** A length prefix and the payload it announces. */
  function DecString(s: bytes): Parse<bytes> {
    match DecVarint32(s)
    case Fail => Fail
    case Ok(size, n) => if n + size <= |s| then Ok(s[n..n + size], n + size) else Fail
  }

  /** `pb_encode_string`; lengths are `size_t`, so no payload has 2^64 bytes. */
  function Prefixed(payload: bytes): Option<bytes> {
    if |payload| < WORD64 then Some(EncString(payload)) else None
  }

  /** One encoding behind the other. */
  function Cat(a: Option<bytes>, b: Option<bytes>): Option<bytes> {
    if a.Some? && b.Some? then Some(a.value + b.value) else None
  }

  function EncTag(wireType: nat, tag: nat): bytes {
    EncVarint(8 * tag + wireType)
  }

  datatype Key = Key(tag: nat, wireType: nat) | Terminator

  /** Reads a field key; a zero word ends the message. */
  function DecTag(s: bytes): Parse<Key> {
    match DecVarint32(s)
    case Fail => Fail
    case Ok(w, n) => if w == 0 then Ok(Terminator, n) else Ok(Key(w / 8, w % 8), n)
  }

  /** The payload of an unknown field. */
  function Skip(s: bytes, wireType: nat): Parse<()> {
    if wireType == WT_VARINT then SkipVarint(s)
    else if wireType == WT_64BIT then if |s| < 8 then Fail else Ok((), 8)
    else if wireType == WT_STRING then
      match DecString(s)
      case Fail => Fail
      case Ok(_, n) => Ok((), n)
    else if wireType == WT_32BIT then if |s| < 4 then Fail else Ok((), 4)
    else Fail
  }
}

/** Facts about the wire format: round trips, lengths, and independence of what follows. */
module WireFacts {
  import opened Wrappers
  import opened Bits
  import opened Wire

  lemma PowersOfTwo()
    ensures Pow2(7) == 128 && Pow2(28) == 0x1000_0000 && Pow2(32) == WORD32
    ensures Pow2(63) == 0x8000_0000_0000_0000 && Pow2(64) == WORD64
  {
    hide Shl;
    SmallPowers();
    PowersMultiply(7, 7);
    PowersMultiply(14, 14);
    PowersMultiply(28, 4);
    PowersMultiply(28, 28);
    PowersMultiply(56, 7);
    PowersMultiply(32, 32);
  }

  lemma SmallPowers()
    ensures Pow2(4) == 16 && Pow2(7) == 128
  {
  }

  lemma PowersMultiply(i: nat, j: nat)
    ensures Pow2(i + j) == Pow2(i) * Pow2(j)
  {
    ShlTwice(1, i, j);
    ShlIsMultiplication(Pow2(i), j);
  }

  // ---------------------------------------------------------------- Used lengths and prefix stability

  lemma {:induction false} GroupsUsed(s: bytes, limit: nat)
    ensures Groups(s, limit).Ok? ==> 1 <= Groups(s, limit).used <= |s| && Groups(s, limit).used <= limit
  {
    if limit > 0 && s != [] && s[0] >= 128 { GroupsUsed(s[1..], limit - 1); }
  }

  lemma {:induction false} GroupsPrefix(s: bytes, t: bytes, limit: nat)
    requires Groups(s, limit).Ok?
    ensures Groups(s + t, limit) == Groups(s, limit)
  {
    if s[0] >= 128 {
      assert (s + t)[1..] == s[1..] + t;
      GroupsPrefix(s[1..], t, limit - 1);
    }
  }

  lemma {:induction false} Varint32TailUsed(s: bytes, bitpos: nat, result: nat)
    requires result < WORD32
    ensures var p := Varint32Tail(s, bitpos, result); p.Ok? ==> 1 <= p.used <= |s| && p.value < WORD32
  {
    if s != [] {
      var r := if bitpos >= 32 then result else BitOr(result, Shifted32(s[0], bitpos));
      PowersOfTwo();
      BitOrBound(result, Shifted32(s[0], bitpos), 32);
      Varint32TailUsed(s[1..], (bitpos + 7) % 256, r);
    }
  }

  lemma {:induction false} BitOrBound(a: nat, b: nat, k: nat)
    requires a < Pow2(k) && b < Pow2(k)
    ensures BitOr(a, b) < Pow2(k)
    decreases a
  {
    if a != 0 { BitOrBound(a / 2, b / 2, k - 1); }
  }

  lemma {:induction false} Varint32TailPrefix(s: bytes, t: bytes, bitpos: nat, result: nat)
    requires Varint32Tail(s, bitpos, result).Ok?
    ensures Varint32Tail(s + t, bitpos, result) == Varint32Tail(s, bitpos, result)
  {
    var r := if bitpos >= 32 then result else BitOr(result, Shifted32(s[0], bitpos));
    if s[0] >= 128 {
      assert (s + t)[1..] == s[1..] + t;
      Varint32TailPrefix(s[1..], t, (bitpos + 7) % 256, r);
    }
  }

  lemma Varint32Used(s: bytes)
    ensures var p := DecVarint32(s); p.Ok? ==> 1 <= p.used <= |s| && p.value < WORD32
  {
    if s != [] && s[0] >= 128 { Varint32TailUsed(s[1..], 7, s[0] - 128); }
  }

  lemma Varint32Prefix(s: bytes, t: bytes)
    requires DecVarint32(s).Ok?
    ensures DecVarint32(s + t) == DecVarint32(s)
  {
    if s[0] >= 128 {
      assert (s + t)[1..] == s[1..] + t;
      Varint32TailPrefix(s[1..], t, 7, s[0] - 128);
    }
  }

  lemma {:induction false} SkipVarintUsed(s: bytes)
    ensures SkipVarint(s).Ok? ==> 1 <= SkipVarint(s).used <= |s|
  {
    if s != [] && s[0] >= 128 { SkipVarintUsed(s[1..]); }
  }

  lemma {:induction false} SkipVarintPrefix(s: bytes, t: bytes)
    requires SkipVarint(s).Ok?
    ensures SkipVarint(s + t) == SkipVarint(s)
  {
    if s[0] >= 128 {
      assert (s + t)[1..] == s[1..] + t;
      SkipVarintPrefix(s[1..], t);
    }
  }

  lemma StringUsed(s: bytes)
    ensures var p := DecString(s); p.Ok? ==> |p.value| < p.used <= |s|
  {
    Varint32Used(s);
  }

  lemma StringPrefix(s: bytes, t: bytes)
    requires DecString(s).Ok?
    ensures DecString(s + t) == DecString(s)
  {
    Varint32Used(s);
    Varint32Prefix(s, t);
    var Ok(size, n) := DecVarint32(s);
    assert (s + t)[n..n + size] == s[n..n + size];
  }

  lemma SkipUsed(s: bytes, wireType: nat)
    ensures var p := Skip(s, wireType); p.Ok? ==> 1 <= p.used <= |s|
  {
    SkipVarintUsed(s);
    StringUsed(s);
  }

  lemma SkipPrefix(s: bytes, t: bytes, wireType: nat)
    requires Skip(s, wireType).Ok?
    ensures Skip(s + t, wireType) == Skip(s, wireType)
  {
    if wireType == WT_VARINT { SkipVarintPrefix(s, t); }
    if wireType == WT_STRING { StringPrefix(s, t); }
  }

  // ---------------------------------------------------------------- Round trips

  /** The encoder's output is the minimal base-128 form: `n` bytes exactly when n groups are needed. */
  lemma {:induction false} VarintLength(v: nat, n: nat)
    requires 1 <= n
    ensures |EncVarint(v)| <= n <==> v < Pow2(7 * n)
  {
    if n == 1 {
      assert Pow2(7) == 128;
      if v >= 128 { assert |EncVarint(v)| >= 2; }
    } else {
      PowersOfTwo();
      ShlTwice(1, 7 * (n - 1), 7);
      ShlIsMultiplication(Pow2(7 * (n - 1)), 7);
      ShlMonotone(1, 1, 7, 7 * n);
      if v >= 128 { VarintLength(v / 128, n - 1); }
    }
  }

  lemma {:induction false} GroupsOfVarint(v: nat, limit: nat)
    requires |EncVarint(v)| <= limit
    ensures Groups(EncVarint(v), limit) == Ok(v, |EncVarint(v)|)
  {
    if v >= 128 {
      assert EncVarint(v)[1..] == EncVarint(v / 128);
      GroupsOfVarint(v / 128, limit - 1);
    }
  }

  /** `pb_decode_varint` undoes `pb_encode_varint` for every 64-bit word, whatever follows; the form
      has one to ten bytes. */
  lemma VarintRoundTrip(v: nat, tail: bytes)
    requires v < WORD64
    ensures 1 <= |EncVarint(v)| <= 10
    ensures DecVarint(EncVarint(v) + tail) == Ok(v, |EncVarint(v)|)
  {
    PowersOfTwo();
    ShlMonotone(1, 1, 64, 70);
    VarintLength(v, 10);
    GroupsOfVarint(v, 10);
    GroupsPrefix(EncVarint(v), tail, 10);
  }

  lemma ZigZagRoundTrip(i: int)
    requires IsInt64(i)
    ensures ZigZag(i) == (if i < 0 then -2 * i - 1 else 2 * i) < WORD64
    ensures UnZigZag(ZigZag(i)) == i
  {
  }

  /** The signed pair, for every 64-bit integer. */
  lemma SvarintRoundTrip(i: int, tail: bytes)
    requires IsInt64(i)
    ensures var p := DecVarint(EncVarint(ZigZag(i)) + tail);
            p.Ok? && p.used == |EncVarint(ZigZag(i))| && p.value < WORD64 && UnZigZag(p.value) == i
  {
    ZigZagRoundTrip(i);
    VarintRoundTrip(ZigZag(i), tail);
  }

  lemma {:induction false} FixedRoundTrip(v: nat, k: nat)
    requires v < Pow2(8 * k)
    ensures FixedValue(EncFixed(v, k)) == v
  {
    if k > 0 {
      assert Pow2(8) == 256;
      ShlTwice(1, 8 * (k - 1), 8);
      ShlIsMultiplication(Pow2(8 * (k - 1)), 8);
      assert EncFixed(v, k)[1..] == EncFixed(v / 256, k - 1);
      FixedRoundTrip(v / 256, k - 1);
    }
  }

  // ---------------------------------------------------------------- The 32-bit reader on encoder output

  /** Splitting off the lowest group of `v`, which goes above the bits of `result`. */
  lemma GroupStep(v: nat, bitpos: nat, result: nat)
    requires result < Pow2(bitpos)
    ensures Shl(v % 128, bitpos) + Shl(v / 128, bitpos + 7) == Shl(v, bitpos)
    ensures result + Shl(v % 128, bitpos) < Pow2(bitpos + 7)
    ensures v >= 128 ==> Shl(v / 128, bitpos + 7) >= Pow2(bitpos + 7)
  {
    var low, high := v % 128, v / 128;
    ShlIsMultiplication(high, 7);
    ShlTwice(high, 7, bitpos);
    ShlAdds(low, 128 * high, bitpos);
    ShlAdds(127, 1, bitpos);
    assert Shl(1, 7) == 128;
    ShlTwice(1, 7, bitpos);
    ShlMonotone(low, 127, bitpos, bitpos);
    if v >= 128 { ShlMonotone(1, high, bitpos + 7, bitpos + 7); }
  }

  /** One turn of the 32-bit reader's loop below bit 32, with `x` the group in its place. */
  lemma TailOfGroup(b: byte, rest: bytes, bitpos: nat, result: nat, x: nat)
    requires bitpos < 32 && result < Pow2(bitpos)
    requires x == Shl(b % 128, bitpos) < WORD32
    ensures Varint32Tail([b] + rest, bitpos, result) ==
            if b >= 128 then
              Varint32Tail(rest, bitpos + 7, result + x).After(1)
            else if bitpos == 28 && b >= 16 then Fail
            else Ok(result + x, 1)
  {
    hide Shl, BitOr;
    BitOrAboveIsAddition(result, b % 128, bitpos);
    assert Shifted32(b, bitpos) == x;
    assert (bitpos + 7) % 256 == bitpos + 7;
    assert ([b] + rest)[1..] == rest;
  }

  /** From the second group on: `result` holds the bits known so far. */
  lemma {:induction false} Varint32TailValue(v: nat, bitpos: nat, result: nat)
    requires bitpos in {7, 14, 21, 28} && result < Pow2(bitpos)
    requires v > 0 && result + Shl(v, bitpos) < WORD32
    ensures Varint32Tail(EncVarint(v), bitpos, result) == Ok(result + Shl(v, bitpos), |EncVarint(v)|)
    decreases 28 - bitpos
  {
    hide Varint32Tail, BitOr, Shifted32, Shl;
    GroupStep(v, bitpos, result);
    PlaceValues();
    if v >= 128 {
      NextGroup(v, bitpos, result, []);
      assert EncVarint(v) + [] == EncVarint(v) && EncVarint(v / 128) + [] == EncVarint(v / 128);
      Varint32TailValue(v / 128, bitpos + 7, result + Shl(v % 128, bitpos));
    } else {
      assert EncVarint(v) == [v as byte] + [];
      TailOfGroup(v, [], bitpos, result, Shl(v, bitpos));
    }
  }

  /** One continuation group. */
  lemma NextGroup(v: nat, bitpos: nat, result: nat, tail: bytes)
    requires bitpos in {7, 14, 21} && result < Pow2(bitpos) && v >= 128
    ensures Varint32Tail(EncVarint(v) + tail, bitpos, result) ==
            Varint32Tail(EncVarint(v / 128) + tail, bitpos + 7, result + Shl(v % 128, bitpos)).After(1)
  {
    hide Varint32Tail, BitOr, Shifted32, Shl;
    PlaceValues();
    GroupStep(v, bitpos, result);
    var b: byte := v % 128 + 128;
    TailOfGroup(b, EncVarint(v / 128) + tail, bitpos, result, Shl(v % 128, bitpos));
    assert EncVarint(v) + tail == [b] + (EncVarint(v / 128) + tail);
  }

  lemma PlaceValues()
    ensures forall v: nat :: Shl(v, 0) == v && Shl(v, 7) == 0x80 * v && Shl(v, 14) == 0x4000 * v
    ensures forall v: nat :: Shl(v, 21) == 0x20_0000 * v && Shl(v, 28) == 0x1000_0000 * v
  {
    forall v: nat
      ensures Shl(v, 7) == 0x80 * v && Shl(v, 14) == 0x4000 * v
      ensures Shl(v, 21) == 0x20_0000 * v && Shl(v, 28) == 0x1000_0000 * v
    {
      ShlIsMultiplication(v, 7);
      ShlIsMultiplication(v, 14);
      ShlIsMultiplication(v, 21);
      ShlIsMultiplication(v, 28);
    }
  }

  /** Every value below 2^32 is read back. */
  lemma Varint32RoundTrip(v: nat, tail: bytes)
    requires v < WORD32
    ensures DecVarint32(EncVarint(v) + tail) == Ok(v, |EncVarint(v)|)
  {
    if v >= 128 {
      assert Pow2(7) == 128;
      assert EncVarint(v)[1..] == EncVarint(v / 128);
      PlaceValues();
      Varint32TailValue(v / 128, 7, v % 128);
    }
    Varint32Prefix(EncVarint(v), tail);
  }

  /** The first four groups of a longer varint fill the low 28 bits. */
  lemma FourGroups(v: nat, tail: bytes)
    requires v >= 0x1000_0000
    ensures DecVarint32(EncVarint(v) + tail) ==
            Varint32Tail(EncVarint(v / 0x1000_0000) + tail, 28, v % 0x1000_0000).After(4)
  {
    hide Varint32Tail, Shl;
    var a, v1 := v % 128, v / 128;
    var b, v2 := v1 % 128, v1 / 128;
    var c, v3 := v2 % 128, v2 / 128;
    var d, w := v3 % 128, v3 / 128;
    var low := a + b * 128 + c * 0x4000 + d * 0x20_0000;
    assert v == low + 0x1000_0000 * w;
    assert low < 0x1000_0000;
    assert v / 0x1000_0000 == w && v % 0x1000_0000 == low;
    PlaceValues();
    assert (EncVarint(v) + tail)[1..] == EncVarint(v1) + tail;
    NextGroup(v1, 7, a, tail);
    NextGroup(v2, 14, a + b * 128, tail);
    NextGroup(v3, 21, a + b * 128 + c * 0x4000, tail);
  }

  /** A negative int32, sign-extended to ten bytes by the encoder, is read as its low 32 bits. */
  lemma Varint32OfNegative(i: int, tail: bytes)
    requires -0x8000_0000 <= i < 0
    ensures DecVarint32(EncVarint(ToUnsigned64(i)) + tail) == Ok(i + WORD32, 10)
  {
    hide Varint32Tail, EncVarint;
    var v := ToUnsigned64(i);
    assert v == WORD64 + i;
    var r := i + WORD32;
    var top, low := r / 0x1000_0000, r % 0x1000_0000;
    var w := top + 0xF_FFFF_FFF0;
    assert v == low + 0x1000_0000 * w;
    assert v / 0x1000_0000 == w && v % 0x1000_0000 == low;
    FourGroups(v, []);
    assert EncVarint(v) + [] == EncVarint(v) && EncVarint(w) + [] == EncVarint(w);
    FifthGroup(low, top);
    Varint32Prefix(EncVarint(v), tail);
  }

  /** The fifth group of a sign-extended value: four bits of it, then only sign bits. */
  lemma FifthGroup(low: nat, top: nat)
    requires low < 0x1000_0000 && 8 <= top < 16
    ensures Varint32Tail(EncVarint(top + 0xF_FFFF_FFF0), 28, low) == Ok(low + top * 0x1000_0000, 6)
  {
    hide EncVarint, BitOr, Shl, Shifted32;
    var ones: bytes := [0xFF, 0xFF, 0xFF, 0xFF, 0x01];
    var s := FifthByte(top);
    var r := low + top * 0x1000_0000;
    FifthShift(low, top);
    SignBytes(r);
    assert s[1..] == ones && s[0] == top + 240;
  }

  lemma FifthByte(top: nat) returns (s: bytes)
    requires 8 <= top < 16
    ensures s == [top + 240, 0xFF, 0xFF, 0xFF, 0xFF, 0x01] == EncVarint(top + 0xF_FFFF_FFF0)
  {
    SignGroups();
    var b: byte := top + 240;
    s := [b] + [0xFF, 0xFF, 0xFF, 0xFF, 0x01];
    assert EncVarint(top + 0xF_FFFF_FFF0) == [b] + EncVarint(0x1FFF_FFFF);
  }

  lemma FifthShift(low: nat, top: nat)
    requires low < 0x1000_0000 && 8 <= top < 16
    ensures BitOr(low, Shifted32(top + 240, 28)) == low + top * 0x1000_0000
  {
    hide BitOr, Shl;
    PlaceValues();
    assert Shifted32(top + 240, 28) == (top + 112) * 0x1000_0000 % WORD32 == top * 0x1000_0000;
    assert Pow2(28) == 0x1000_0000;
    BitOrAboveIsAddition(low, top, 28);
  }

  lemma SignGroups()
    ensures EncVarint(0x1FFF_FFFF) == [0xFF, 0xFF, 0xFF, 0xFF, 0x01]
  {
    assert EncVarint(0xFF) == [0x7F + 128, 0x01];
    assert EncVarint(0x7FFF) == [0xFF] + EncVarint(0xFF);
    assert EncVarint(0x3F_FFFF) == [0xFF] + EncVarint(0x7FFF);
    assert EncVarint(0x1FFF_FFFF) == [0xFF] + EncVarint(0x3F_FFFF);
  }

  /** The sign-extension bytes leave a value with its sign bit set as it is. */
  lemma SignBytes(r: nat)
    requires 0x8000_0000 <= r < WORD32
    ensures Varint32Tail([0xFF, 0xFF, 0xFF, 0xFF, 0x01], 35, r) == Ok(r, 5)
  {
    assert Varint32Tail([0x01], 63, r) == Ok(r, 1);
    assert [0xFF, 0x01][1..] == [0x01 as byte];
    assert Varint32Tail([0xFF, 0x01], 56, r) == Ok(r, 2);
    assert [0xFF, 0xFF, 0x01][1..] == [0xFF as byte, 0x01];
    assert Varint32Tail([0xFF, 0xFF, 0x01], 49, r) == Ok(r, 3);
    assert [0xFF, 0xFF, 0xFF, 0x01][1..] == [0xFF as byte, 0xFF, 0x01];
    assert Varint32Tail([0xFF, 0xFF, 0xFF, 0x01], 42, r) == Ok(r, 4);
    assert [0xFF, 0xFF, 0xFF, 0xFF, 0x01][1..] == [0xFF as byte, 0xFF, 0xFF, 0x01];
  }

  /** Five-byte varints that do not fit 32 bits are rejected. */
  lemma Varint32Rejects(v: nat, tail: bytes)
    requires WORD32 <= v < 0x8_0000_0000
    ensures DecVarint32(EncVarint(v) + tail) == Fail
  {
    hide Shifted32, BitOr;
    FourGroups(v, tail);
    var w := v / 0x1000_0000;
    assert 16 <= w < 128;
    assert EncVarint(w) == [w as byte];
  }

  lemma StringRoundTrip(payload: bytes, tail: bytes)
    requires |payload| < WORD32
    ensures DecString(EncString(payload) + tail) == Ok(payload, |EncString(payload)|)
  {
    Varint32RoundTrip(|payload|, payload);
    var s, n := EncString(payload), |EncVarint(|payload|)|;
    assert s[n..n + |payload|] == payload;
    StringPrefix(EncString(payload), tail);
  }

  lemma TagRoundTrip(wireType: nat, tag: nat, tail: bytes)
    requires wireType < 8 && 1 <= tag < 0x2000_0000
    ensures DecTag(EncTag(wireType, tag) + tail) == Ok(Key(tag, wireType), |EncTag(wireType, tag)|)
  {
    var w := 8 * tag + wireType;
    assert w / 8 == tag && w % 8 == wireType;
    Varint32RoundTrip(w, tail);
  }
}
