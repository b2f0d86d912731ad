/** The value decoders of pb_decode.c that read one scalar, string or byte array in place. */
module ScalarDecoder {
  import opened Wire
  import opened Descriptor
  import opened DecodeSpec
  import opened InputStream

  /** Casting to a signed type keeps exactly the values of that type. */
  lemma SignedIsIdentity(i: int, n: nat)
    requires SignBit(n) > 0
    ensures var half: int := SignBit(n); Signed(i, SignBit(n)) == i <==> -half <= i < half
  {
  }

  /** `pb_dec_varint`: cast to the field's size and compare. */
  method DecodeSignedVarint(s: IStream, f: Field) returns (ok: bool, v: Value)
    requires s.Valid() && f.ltype.Varint?
    modifies s
    ensures s.Did(ok, DecScalar(f, old(s.Rest())))
    ensures ok ==> v == DecScalar(f, old(s.Rest())).value
  {
    hide DecVarint;
    v := Garbage;
    var word;
    ok, word := s.DecodeVarint();
    if !ok { return; }
    var svalue := if f.dataSize == 8 then Signed(word, 0x8000_0000_0000_0000) else Signed(word, 0x8000_0000);
    if SignBit(f.dataSize) == 0 { return false, v; }
    var clamped := Signed(svalue, SignBit(f.dataSize));
    SignedIsIdentity(svalue, f.dataSize);
    if clamped != svalue { return false, v; }
    v := Int(clamped);
  }

  /** `pb_dec_uvarint` */
  method DecodeUnsignedVarint(s: IStream, f: Field) returns (ok: bool, v: Value)
    requires s.Valid() && f.ltype.Uvarint?
    modifies s
    ensures s.Did(ok, DecScalar(f, old(s.Rest())))
    ensures ok ==> v == DecScalar(f, old(s.Rest())).value
  {
    hide DecVarint;
    v := Garbage;
    var word;
    ok, word := s.DecodeVarint();
    if !ok { return; }
    if SignBit(f.dataSize) == 0 { return false, v; }
    var clamped := word % (2 * SignBit(f.dataSize));
    if clamped != word { return false, v; }
    v := Int(clamped);
  }

  /** `pb_dec_svarint` */
  method DecodeZigZagVarint(s: IStream, f: Field) returns (ok: bool, v: Value)
    requires s.Valid() && f.ltype.Svarint?
    modifies s
    ensures s.Did(ok, DecScalar(f, old(s.Rest())))
    ensures ok ==> v == DecScalar(f, old(s.Rest())).value
  {
    hide DecVarint;
    v := Garbage;
    var svalue;
    ok, svalue := s.DecodeSvarint();
    if !ok { return; }
    if SignBit(f.dataSize) == 0 { return false, v; }
    var clamped := Signed(svalue, SignBit(f.dataSize));
    SignedIsIdentity(svalue, f.dataSize);
    if clamped != svalue { return false, v; }
    v := Int(clamped);
  }

  /** `pb_read` into memory of the right size. */
  method ReadBytes(s: IStream, size: nat) returns (ok: bool, payload: bytes)
    requires s.Valid()
    modifies s
    ensures s.SameEnd() && (ok <==> size <= old(s.bytesLeft))
    ensures ok ==> s.Used(size) && payload == old(s.Rest())[..size]
  {
    var dest := new byte[size];
    ok := s.Read(dest, size);
    payload := dest[..];
    assert dest[..] == dest[..size];
  }

  /** A length prefix within `limit`, then the payload: the common part of `pb_dec_bytes`,
      `pb_dec_string` and `pb_dec_fixed_length_bytes` on static memory. */
  method DecodePayload(s: IStream, limit: int) returns (ok: bool, payload: bytes)
    requires s.Valid()
    modifies s
    ensures s.SameEnd()
    ensures var p := DecString(old(s.Rest()));
            && (ok <==> p.Ok? && |p.value| <= limit)
            && (ok ==> payload == p.value && s.Used(p.used))
  {
    payload := [];
    ghost var rest := s.Rest();
    var size, eof;
    ok, size, eof := s.DecodeVarint32();
    if !ok { return; }
    if size > limit { return false, payload; }
    ghost var n := DecVarint32(rest).used;
    ok, payload := ReadBytes(s, size);
    if ok { assert rest[n..][..size] == rest[n..n + size]; }
  }

  /** The decoder PB_DECODERS holds for a field that is no submessage, on memory in place. */
  method DecodeScalar(s: IStream, f: Field, prior: Value) returns (ok: bool, v: Value)
    requires s.Valid()
    modifies s
    ensures s.Did(ok, DecScalar(f, old(s.Rest())))
    ensures v == if ok then DecScalar(f, old(s.Rest())).value else prior
  {
    hide DecVarint, DecVarint32, FixedValue;
    ghost var rest := s.Rest();
    v := prior;
    match f.ltype {
      case Bool =>
        var w, eof;
        ok, w, eof := s.DecodeVarint32();
        if ok { v := Int(if w != 0 then 1 else 0); }
      case Varint =>
        var u;
        ok, u := DecodeSignedVarint(s, f);
        if ok { v := u; }
      case Uvarint =>
        var u;
        ok, u := DecodeUnsignedVarint(s, f);
        if ok { v := u; }
      case Svarint =>
        var u;
        ok, u := DecodeZigZagVarint(s, f);
        if ok { v := u; }
      case Fixed32 =>
        var w;
        ok, w := s.DecodeFixed(4);
        if ok { v := Int(w); }
      case Fixed64 =>
        var w;
        ok, w := s.DecodeFixed(8);
        if ok { v := Int(w); }
      case Bytes =>
        var limit: int := f.dataSize - BytesHeader();
        var p;
        ok, p := DecodePayload(s, if limit < PB_SIZE_MAX then limit else PB_SIZE_MAX);
        if ok { v := Data(p); }
      case String =>
        var p;
        ok, p := DecodePayload(s, f.dataSize - 1);
        if ok { v := Data(p); }
      case FixedLengthBytes => ok, v := DecodeFixedLengthBytes(s, f, prior);
      case _ => ok := false;
    }
  }

  /** `pb_dec_fixed_length_bytes`: an empty payload stands for all zeros. */
  method DecodeFixedLengthBytes(s: IStream, f: Field, prior: Value) returns (ok: bool, v: Value)
    requires s.Valid() && f.ltype.FixedLengthBytes?
    modifies s
    ensures s.Did(ok, DecScalar(f, old(s.Rest())))
    ensures v == if ok then DecScalar(f, old(s.Rest())).value else prior
  {
    hide DecVarint, DecVarint32;
    ghost var rest := s.Rest();
    v := prior;
    var size, eof;
    ok, size, eof := s.DecodeVarint32();
    if !ok { return; }
    ghost var n := DecVarint32(rest).used;
    assert rest[n..][..0] == [];
    if size == 0 { return true, Data(Repeat(0, f.dataSize)); }
    if size > PB_SIZE_MAX { return false, v; }
    if size != f.dataSize { return false, v; }
    var payload;
    ok, payload := ReadBytes(s, size);
    if ok {
      assert rest[n..][..size] == rest[n..n + size];
      v := Data(payload);
    }
  }
}
