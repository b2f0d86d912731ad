/** `pb_istream_t` over a memory buffer, and the primitive readers of pb_decode.c. */
module InputStream {
  import opened Wrappers
  import opened Bits
  import opened Wire
  import opened WireFacts

  class IStream {
    const buf: bytes
    /** `state`: the next byte to read, and how many may still be read. */
    var pos: nat
    var bytesLeft: nat

    ghost predicate Valid()
      reads this
    {
      pos + bytesLeft <= |buf|
    }

    /** The bytes still to be read. */
    ghost function Rest(): (r: bytes)
      requires Valid()
      reads this
      ensures |r| == bytesLeft
    {
      buf[pos..pos + bytesLeft]
    }

    /** Exactly `n` bytes were taken from the front. */
    twostate predicate Used(n: nat)
      reads this
    {
      && old(Valid()) && Valid()
      && pos == old(pos) + n
      && n + bytesLeft == old(bytesLeft)
      && Rest() == old(Rest())[n..]
    }

    /** Some bytes may have been taken; the end of the readable part is where it was. */
    twostate predicate SameEnd()
      reads this
    {
      && Valid()
      && bytesLeft <= old(bytesLeft)
      && pos + bytesLeft == old(pos + bytesLeft)
    }

    /** What a reader with specification `spec` does to the stream. */
    twostate predicate Did<T>(ok: bool, spec: Parse<T>)
      reads this
    {
      && SameEnd()
      && (ok <==> spec.Ok?)
      && (ok ==> Used(spec.used))
    }

    constructor (buf: bytes, pos: nat, bytesLeft: nat)
      requires pos + bytesLeft <= |buf|
      ensures this.buf == buf && this.pos == pos && this.bytesLeft == bytesLeft && Valid()
    {
      this.buf := buf;
      this.pos := pos;
      this.bytesLeft := bytesLeft;
    }

    /** `pb_read`; without a destination the bytes are skipped. */
    method Read(dest: array?<byte>, count: nat) returns (ok: bool)
      requires Valid() && (dest != null ==> count <= dest.Length)
      modifies this, dest
      ensures SameEnd() && (ok <==> count <= old(bytesLeft))
      ensures ok ==> Used(count)
      ensures ok && dest != null ==> dest[..count] == old(Rest()[..count])
    {
      if count == 0 { return true; }
      if bytesLeft < count { return false; }
      BufRead(dest, count);
      bytesLeft := bytesLeft - count;
      return true;
    }

    /** `buf_read` */
    method BufRead(dest: array?<byte>, count: nat)
      requires pos + count <= |buf| && (dest != null ==> count <= dest.Length)
      modifies this`pos, dest
      ensures pos == old(pos) + count
      ensures dest != null ==> dest[..count] == buf[old(pos)..pos]
    {
      var source := pos;
      pos := pos + count;
      if dest != null {
        for i := 0 to count
          invariant pos == source + count && dest[..i] == buf[source..source + i]
        {
          dest[i] := buf[source + i];
        }
      }
    }

    method ReadByte() returns (ok: bool, b: byte)
      requires Valid()
      modifies this
      ensures SameEnd() && (ok <==> old(bytesLeft) > 0)
      ensures ok ==> Used(1) && b == old(Rest())[0]
      ensures !ok ==> bytesLeft == 0
    {
      b := 0;
      if bytesLeft == 0 { return false, b; }
      b := buf[pos];
      pos := pos + 1;
      bytesLeft := bytesLeft - 1;
      return true, b;
    }

    /** `pb_decode_varint32_eof`: `eof` tells an exhausted stream from a broken varint. */
    method DecodeVarint32() returns (ok: bool, value: nat, eof: bool)
      requires Valid()
      modifies this
      ensures Did(ok, DecVarint32(old(Rest())))
      ensures ok ==> value == DecVarint32(old(Rest())).value
      ensures eof <==> old(bytesLeft) == 0
    {
      ghost var s := Rest();
      value := 0;
      var first, b := ReadByte();
      if !first { return false, 0, true; }
      if b < 128 { return true, b, false; }
      var bitpos: nat, result: nat := 7, b - 128;
      while true
        invariant SameEnd() && pos == old(pos) + (|s| - bytesLeft)
        invariant Rest() == s[|s| - bytesLeft..]
        invariant 0 < |s| && bytesLeft < |s| && s[0] >= 128
        invariant DecVarint32(s) == Varint32Tail(Rest(), bitpos, result).After(|s| - bytesLeft)
        decreases bytesLeft
      {
        var more, c := ReadByte();
        if !more { return false, 0, false; }
        if bitpos >= 32 {
          var signExtension := if bitpos < 63 then 0xFF else 0x01;
          if c % 128 != 0 && (result < 0x8000_0000 || c != signExtension) {
            return false, 0, false;
          }
        } else {
          result := BitOr(result, Shifted32(c, bitpos));
        }
        bitpos := (bitpos + 7) % 256;
        if c < 128 {
          if bitpos == 35 && c % 128 >= 16 { return false, 0, false; }
          return true, result, false;
        }
      }
    }

    /** `pb_decode_varint` */
    method DecodeVarint() returns (ok: bool, value: nat)
      requires Valid()
      modifies this
      ensures Did(ok, DecVarint(old(Rest())))
      ensures ok ==> value == DecVarint(old(Rest())).value < WORD64
    {
      hide BitOr, Shifted64, Groups, Placed;
      ghost var s := Rest();
      ghost var k := 0;
      var bitpos := 0;
      var result: nat := 0;
      PlacedEnds(s);
      while true
        invariant SameEnd() && pos == old(pos) + k && bytesLeft == |s| - k && Rest() == s[k..]
        invariant k <= 10 && bitpos == 7 * k
        invariant k <= 9 ==> result < Pow2(bitpos)
        invariant Groups(s, 10) == Placed(Groups(Rest(), 10 - k), result, k)
        decreases bytesLeft
      {
        PlacedEnds(s[k..]);
        if bitpos >= 64 { return false, 0; }
        var more, b := ReadByte();
        if !more { return false, 0; }
        PlacedGroup(s[k..], result, k);
        result := BitOr(result, Shifted64(b, bitpos));
        bitpos := bitpos + 7;
        k := k + 1;
        if b < 128 { return true, result; }
      }
    }

    method SkipVarint() returns (ok: bool)
      requires Valid()
      modifies this
      ensures Did(ok, Wire.SkipVarint(old(Rest())))
    {
      ghost var s := Rest();
      while true
        invariant SameEnd() && pos == old(pos) + (|s| - bytesLeft)
        invariant Rest() == s[|s| - bytesLeft..]
        invariant Wire.SkipVarint(s) == Wire.SkipVarint(Rest()).After(|s| - bytesLeft)
        decreases bytesLeft
      {
        var b := new byte[1];
        ok := Read(b, 1);
        if !ok { return; }
        assert b[..1][0] == b[0];
        if b[0] < 128 { return; }
      }
    }

    method SkipString() returns (ok: bool)
      requires Valid()
      modifies this
      ensures Did(ok, DecString(old(Rest())))
    {
      var length, eof;
      ok, length, eof := DecodeVarint32();
      if ok { ok := Read(null, length); }
    }

    /** `pb_decode_tag`; `eof` is also set by a zero key, which ends the message. */
    method DecodeTag() returns (ok: bool, tag: nat, wireType: nat, eof: bool)
      requires Valid()
      modifies this
      ensures SameEnd()
      ensures var key := DecTag(old(Rest()));
              && (ok <==> key.Ok? && key.value.Key?)
              && (ok ==> key.value == Key(tag, wireType) && Used(key.used))
              && (!ok ==> (eof <==> old(bytesLeft) == 0 || key.Ok?))
              && (key.Ok? ==> Used(key.used))
    {
      var temp;
      tag, wireType := 0, 0;
      ok, temp, eof := DecodeVarint32();
      if !ok { return; }
      if temp == 0 { return false, 0, 0, true; }
      tag, wireType := temp / 8, temp % 8;
    }

    method SkipField(wireType: nat) returns (ok: bool)
      requires Valid()
      modifies this
      ensures Did(ok, Skip(old(Rest()), wireType))
    {
      if wireType == WT_VARINT { ok := SkipVarint(); }
      else if wireType == WT_64BIT { ok := Read(null, 8); }
      else if wireType == WT_STRING { ok := SkipString(); }
      else if wireType == WT_32BIT { ok := Read(null, 4); }
      else { ok := false; }
    }

    method DecodeSvarint() returns (ok: bool, value: int)
      requires Valid()
      modifies this
      ensures Did(ok, DecVarint(old(Rest())))
      ensures ok ==> value == UnZigZag(DecVarint(old(Rest())).value)
    {
      var v;
      value := 0;
      ok, v := DecodeVarint();
      if ok { value := UnZigZag(v); }
    }

    /** `pb_decode_fixed32` and `pb_decode_fixed64` for `k` of 4 and 8. */
    method DecodeFixed(k: nat) returns (ok: bool, value: nat)
      requires Valid()
      modifies this
      ensures Did(ok, DecFixed(old(Rest()), k))
      ensures ok ==> value == DecFixed(old(Rest()), k).value
    {
      var b := new byte[k];
      value := 0;
      ok := Read(b, k);
      if ok {
        assert b[..] == b[..k];
        value := FixedValue(b[..]);
      }
    }

    /** `pb_make_string_substream`: a stream over the payload; this stream keeps only what follows it,
        and stays put until the substream is closed. */
    method MakeSubstream() returns (ok: bool, sub: IStream)
      requires Valid()
      modifies this
      ensures fresh(sub) && sub.Valid() && sub.buf == buf
      ensures ok <==> DecString(old(Rest())).Ok?
      ensures ok ==> sub.Rest() == DecString(old(Rest())).value
                     && sub.pos == pos
                     && pos + sub.bytesLeft == old(pos) + DecString(old(Rest())).used
                     && bytesLeft + DecString(old(Rest())).used == old(bytesLeft)
                     && sub.bytesLeft < old(bytesLeft)
      ensures !ok ==> SameEnd()
    {
      ghost var s := Rest();
      var size, eof;
      ok, size, eof := DecodeVarint32();
      sub := new IStream(buf, pos, bytesLeft);
      if !ok { return; }
      if sub.bytesLeft < size { return false, sub; }
      Varint32Used(s);
      sub.bytesLeft := size;
      bytesLeft := bytesLeft - size;
      ghost var rest := s[DecVarint32(s).used..];
      assert rest[..size] == buf[pos..pos + size];
      assert rest[..size] == DecString(s).value;
    }

    /** `pb_close_string_substream`: reads off what the substream left over. */
    method CloseSubstream(sub: IStream) returns (ok: bool)
      requires sub != this && sub.Valid() && sub.buf == buf
      requires sub.pos + sub.bytesLeft + bytesLeft <= |buf|
      modifies this, sub
      ensures ok && Valid()
      ensures pos == old(sub.pos + sub.bytesLeft) && bytesLeft == old(bytesLeft)
    {
      ok := true;
      if sub.bytesLeft != 0 {
        ok := sub.Read(null, sub.bytesLeft);
        if !ok { return; }
      }
      pos := sub.pos;
    }
  }

  // ---------------------------------------------------------------- The 64-bit accumulator

  /** `(uint64)(b & 0x7F) << bitpos`. */
  function Shifted64(b: byte, bitpos: nat): (x: nat)
    ensures x < WORD64
  {
    Shl(b % 128, bitpos) % WORD64
  }

  /** A value whose `k` lowest groups are `low`. */
  function Placed(p: Parse<nat>, low: nat, k: nat): Parse<nat> {
    match p
    case Fail => Fail
    case Ok(v, n) => Ok(low + Shl(v, 7 * k), k + n)
  }

  lemma PlacedEnds(s: bytes)
    ensures Placed(Groups(s, 10), 0, 0) == Groups(s, 10)
    ensures forall limit: nat, low, k | limit == 0 || s == [] :: Placed(Groups(s, limit), low, k) == Fail
  {
  }

  /** Or-ing the next shifted group in keeps the assembled value, up to the bits that do not fit. */
  lemma PlacedGroup(s: bytes, low: nat, k: nat)
    requires k <= 9 && low < Pow2(7 * k) && s != []
    ensures var b, r := s[0], BitOr(low, Shifted64(s[0], 7 * k));
            var whole := Placed(Groups(s, 10 - k), low, k);
            && (k < 9 ==> r < Pow2(7 * (k + 1)))
            && (b >= 128 ==> whole == Placed(Groups(s[1..], 9 - k), r, k + 1))
            && (b < 128 ==> whole.Ok? && r == whole.value % WORD64 && whole.used == k + 1)
  {
    hide BitOr, Shifted64;
    if k < 9 { EarlyGroup(s, low, k); } else { TenthGroup(s, low); }
  }

  lemma EarlyGroup(s: bytes, low: nat, k: nat)
    requires k < 9 && low < Pow2(7 * k) && s != []
    ensures var b, r := s[0], BitOr(low, Shifted64(s[0], 7 * k));
            var whole := Placed(Groups(s, 10 - k), low, k);
            && r < Pow2(7 * (k + 1))
            && (b >= 128 ==> whole == Placed(Groups(s[1..], 9 - k), r, k + 1))
            && (b < 128 ==> whole == Ok(r, k + 1) && r < WORD64)
  {
    hide BitOr, Shl, Shifted64;
    EarlyShift(s[0], low, k);
    if s[0] >= 128 {
      var rest := Groups(s[1..], 9 - k);
      if rest.Ok? { GroupStep(s[0] - 128 + 128 * rest.value, 7 * k, low); }
    }
  }

  lemma EarlyShift(b: byte, low: nat, k: nat)
    requires k < 9 && low < Pow2(7 * k)
    ensures BitOr(low, Shifted64(b, 7 * k)) == low + Shl(b % 128, 7 * k) < Pow2(7 * (k + 1)) <= WORD64
  {
    hide BitOr, Shl;
    var g, n := b % 128, 7 * k;
    GroupStep(g, n, low);
    PowersOfTwo();
    ShlMonotone(1, 1, n + 7, 64);
    BitOrAboveIsAddition(low, g, n);
  }

  /** Of the tenth group only the lowest bit fits the word. */
  lemma TenthGroup(s: bytes, low: nat)
    requires low < Pow2(63) && s != []
    ensures var r, whole := BitOr(low, Shifted64(s[0], 63)), Placed(Groups(s, 1), low, 9);
            && (s[0] >= 128 ==> whole == Fail)
            && (s[0] < 128 ==> whole.Ok? && r == whole.value % WORD64 && whole.used == 10)
  {
    hide BitOr, Shl;
    var g := s[0] % 128;
    PowersOfTwo();
    ShlIsMultiplication(g, 63);
    ShlIsMultiplication(g % 2, 63);
    BitOrAboveIsAddition(low, g % 2, 63);
  }
}
