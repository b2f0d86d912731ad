/** Strings and bytes on the heap: the pointer branches of `pb_dec_string` and `pb_dec_bytes`. */
module OwnedDecoder {
  import opened Wire
  import opened WireFacts
  import opened Descriptor
  import opened DecodeSpec
  import opened Ownership
  import opened InputStream
  import opened Heap
  import opened ScalarDecoder
  import opened Refinement

  /** Null, or one entry that owns nothing itself. */
  predicate Simple(p: Pointer) {
    p.Block? ==> |p.items| == 1 && !p.items[0].Ref? && !p.items[0].Msg?
  }

  /** The bytes to allocate for a payload; false when that does not fit. */
  method AllocationSize(f: Field, size: nat) returns (fits: bool, allocSize: nat)
    requires size < WORD32 && (f.ltype.String? || f.ltype.Bytes?)
    ensures fits <==> if f.ltype.String? then size + 1 < WORD32
                      else size <= PB_SIZE_MAX && size + BytesHeader() <= SIZE_MAX
    ensures fits ==> allocSize == if f.ltype.String? then size + 1 else size + BytesHeader()
  {
    if f.ltype.String? {
      allocSize := (size + 1) % WORD32;
      return allocSize >= size, allocSize;
    }
    if size > PB_SIZE_MAX { return false, 0; }
    allocSize := (size + BytesHeader()) % (SIZE_MAX + 1);
    return size <= allocSize, allocSize;
  }

  method DecodeOwned(s: IStream, h: Arena, f: Field, p: Pointer, ghost frame: multiset<nat>)
    returns (ok: bool, p': Pointer)
    requires s.Valid() && h.Valid() && (f.ltype.String? || f.ltype.Bytes?) && Simple(p)
    requires h.live == frame + BlockOf(p)
    modifies s, h`live, h`next, h`refusals
    ensures h.Valid() && h.live == frame + BlockOf(p') && Simple(p')
    ensures Refines(s, h, ok, DecOwned(f, old(s.Rest())))
    ensures ok ==> p'.Block? && p'.items == [DecOwned(f, old(s.Rest())).value]
  {
    hide DecVarint32, BytesHeader, BlockOf, Arena.Valid;
    ghost var rest := s.Rest();
    p' := p;
    var size, eof;
    ok, size, eof := s.DecodeVarint32();
    if !ok { return; }
    Varint32Used(rest);
    ghost var n := DecVarint32(rest).used;
    var fits, allocSize := AllocationSize(f, size);
    if !fits { return false, p'; }
    ok, p' := AllocateField(h, p, allocSize, 1, frame);
    if !ok { return; }
    var payload;
    ok, payload := ReadBytes(s, size);
    if ok {
      assert rest[n..][..size] == rest[n..n + size];
      SameBlock(p'.id, p'.items, [Data(payload)]);
      p' := Block(p'.id, [Data(payload)]);
    }
  }
}
