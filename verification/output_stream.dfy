/** `pb_ostream_t`: a stream into a memory buffer, or a sizing stream that only counts. */
module OutputStream {
  import opened Wrappers
  import opened Wire
  import opened WireFacts

  /** `after` is `before` with `data` at offset `at`. */
  ghost predicate Wrote(before: bytes, at: nat, data: bytes, after: bytes) {
    && at + |data| <= |before|
    && after == before[..at] + data + before[at + |data|..]
  }

  lemma WroteTwice(a: bytes, at: nat, d: bytes, b: bytes, e: bytes, c: bytes)
    requires Wrote(a, at, d, b) && Wrote(b, at + |d|, e, c)
    ensures Wrote(a, at, d + e, c)
  {
    assert b[..at + |d|] == a[..at] + d;
    assert b[at + |d| + |e|..] == a[at + |d + e|..];
  }

  /** Nothing outside `lo..hi` differs. */
  ghost predicate Confined(before: bytes, lo: nat, hi: nat, after: bytes) {
    && lo <= hi <= |before| == |after|
    && after[..lo] == before[..lo]
    && after[hi..] == before[hi..]
  }

  /** The loop of `pb_encode_varint`, which fills a ten-byte buffer. */
  method VarintGroups(value: nat) returns (buffer: array<byte>, n: nat)
    requires 0 < value < WORD64
    ensures fresh(buffer) && n <= buffer.Length == 10
    ensures buffer[..n] == EncVarint(value)
  {
    hide EncVarint;
    buffer := new byte[10];
    n := 0;
    var v: nat := value;
    VarintSize(value);
    while v != 0
      invariant n <= 10 && v < WORD64
      invariant v != 0 ==> EncVarint(value) == buffer[..n] + EncVarint(v)
      invariant v == 0 ==> n > 0 && buffer[n - 1] >= 128 && EncVarint(value) == buffer[..n - 1] + [buffer[n - 1] - 128]
      decreases v
    {
      VarintGroup(v, buffer[..n]);
      ghost var done := buffer[..n];
      buffer[n] := v % 128 + 128;
      assert buffer[..n] == done;
      v := v / 128;
      n := n + 1;
      assert buffer[..n] == done + [buffer[n - 1]];
    }
    ghost var done := buffer[..n - 1];
    buffer[n - 1] := buffer[n - 1] % 128;
    assert buffer[..n] == done + [buffer[n - 1]];
  }

  lemma VarintSize(value: nat)
    requires value < WORD64
    ensures |EncVarint(value)| <= 10
  {
    VarintRoundTrip(value, []);
  }

  lemma VarintGroup(v: nat, done: bytes)
    requires 0 < v < WORD64
    ensures |EncVarint(v)| >= 1
    ensures var b := v % 128 + 128;
            if v / 128 == 0 then done + EncVarint(v) == done + [b - 128]
            else done + EncVarint(v) == done + [b] + EncVarint(v / 128)
  {
  }

  /** What can be observed of a stream. */
  datatype Snapshot = Snapshot(state: nat, written: nat, content: bytes)

  /** What writing `spec` does to a stream: it succeeds exactly when there is something to write and,
      on a real stream, room for it; the bytes land behind those written before; whatever happens,
      nothing outside the space granted to the stream changes. */
  ghost predicate Effect(sizing: bool, maxSize: nat, a: Snapshot, b: Snapshot, ok: bool, spec: Option<bytes>) {
    if sizing then
      && (ok <==> spec.Some?)
      && (ok ==> b.written == a.written + |spec.value|)
      && a.content == b.content
    else
      && a.written <= maxSize && b.written <= maxSize
      && (ok <==> spec.Some? && a.written + |spec.value| <= maxSize)
      && (ok ==>
            && b.written == a.written + |spec.value|
            && b.state == a.state + |spec.value|
            && Wrote(a.content, a.state, spec.value, b.content))
      && a.state - a.written == b.state - b.written
      && Confined(a.content, a.state, a.state + maxSize - a.written, b.content)
  }

  lemma EffectTwice(sizing: bool, maxSize: nat, a: Snapshot, b: Snapshot, c: Snapshot,
                    ok: bool, s: Option<bytes>, t: Option<bytes>)
    requires Effect(sizing, maxSize, a, b, true, s)
    requires Effect(sizing, maxSize, b, c, ok, t)
    ensures Effect(sizing, maxSize, a, c, ok, Cat(s, t))
  {
    if !sizing {
      assert c.content[..a.state] == c.content[..b.state][..a.state] == a.content[..a.state];
      if ok { WroteTwice(a.content, a.state, s.value, b.content, t.value, c.content); }
    }
  }

  lemma SuccessWrites(sizing: bool, maxSize: nat, a: Snapshot, b: Snapshot, s: Option<bytes>)
    requires Effect(sizing, maxSize, a, b, true, s)
    ensures s.Some?
  {
  }

  /** A failure anywhere fails the whole. */
  lemma EffectFails(sizing: bool, maxSize: nat, a: Snapshot, b: Snapshot, s: Option<bytes>, t: Option<bytes>)
    requires Effect(sizing, maxSize, a, b, false, s)
    ensures Effect(sizing, maxSize, a, b, false, Cat(s, t))
  {
  }

  /** A real stream has its space inside the buffer. */
  ghost predicate Roomy(sizing: bool, maxSize: nat, a: Snapshot) {
    !sizing ==> a.written <= maxSize && a.state + maxSize - a.written <= |a.content|
  }

  lemma Untouched(sizing: bool, maxSize: nat, a: Snapshot)
    requires Roomy(sizing, maxSize, a)
    ensures Effect(sizing, maxSize, a, a, true, Some([]))
    ensures Effect(sizing, maxSize, a, a, false, None)
  {
  }

  /** A sizing stream's count, kept by adding a size found elsewhere. */
  lemma Counted(maxSize: nat, a: Snapshot, payload: bytes)
    ensures Effect(true, maxSize, a, a.(written := a.written + |payload|), true, Some(payload))
  {
  }

  lemma NoRoom(maxSize: nat, a: Snapshot, payload: bytes)
    requires Roomy(false, maxSize, a) && a.written + |payload| > maxSize
    ensures Effect(false, maxSize, a, a, false, Some(payload))
  {
  }

  lemma SizingResult(a: Snapshot, b: Snapshot, ok: bool, spec: Option<bytes>)
    requires Effect(true, 0, a, b, ok, spec)
    ensures a.content == b.content && (ok <==> spec.Some?)
    ensures ok ==> b.written == a.written + |spec.value|
  {
  }

  /** A substream with exactly the room its payload needs is always filled, and its effect is the
      parent's. */
  lemma SubstreamFilled(maxSize: nat, a: Snapshot, b: Snapshot, ok: bool, payload: bytes)
    requires Roomy(false, maxSize, a) && a.written + |payload| <= maxSize
    requires Effect(false, |payload|, a.(written := 0), b, ok, Some(payload))
    ensures ok && b.written == |payload|
    ensures Effect(false, maxSize, a, b.(written := a.written + b.written), true, Some(payload))
  {
    assert b.content[..a.state] == a.content[..a.state];
    var end := a.state + maxSize - a.written;
    assert b.content[end..] == a.content[end..];
  }

  class OStream {
    /** `callback == NULL` marks a sizing stream. */
    const sizing: bool
    const buf: array<byte>
    const maxSize: nat
    var state: nat
    var bytesWritten: nat

    /** The space granted to a real stream lies inside its buffer. */
    ghost predicate Valid()
      reads this
    {
      !sizing ==> bytesWritten <= maxSize && state + maxSize - bytesWritten <= buf.Length
    }

    ghost function Now(): Snapshot
      reads this, buf
    {
      Snapshot(state, bytesWritten, buf[..])
    }

    twostate predicate Did(ok: bool, new spec: Option<bytes>)
      reads this, buf
    {
      Valid() && Effect(sizing, maxSize, old(Now()), Now(), ok, spec)
    }

    constructor (sizing: bool, buf: array<byte>, state: nat, maxSize: nat)
      requires !sizing ==> state + maxSize <= buf.Length
      ensures this.sizing == sizing && this.buf == buf && this.state == state
      ensures this.maxSize == maxSize && bytesWritten == 0 && Valid()
    {
      this.sizing := sizing;
      this.buf := buf;
      this.state := state;
      this.maxSize := maxSize;
      bytesWritten := 0;
    }

    /** `pb_write` with its buffer callback. */
    method Write(data: bytes) returns (ok: bool)
      requires Valid()
      modifies this, buf
      ensures Did(ok, Some(data))
    {
      if |data| > 0 && !sizing {
        if bytesWritten + |data| > maxSize { return false; }
        BufWrite(data);
      }
      bytesWritten := bytesWritten + |data|;
      return true;
    }

    /** `buf_write` */
    method BufWrite(data: bytes)
      requires state + |data| <= buf.Length
      modifies this`state, buf
      ensures state == old(state) + |data|
      ensures Wrote(old(buf[..]), old(state), data, buf[..])
    {
      var dest := state;
      state := state + |data|;
      for i := 0 to |data|
        invariant state == dest + |data|
        invariant Wrote(old(buf[..]), dest, data[..i], buf[..])
      {
        buf[dest + i] := data[i];
      }
      assert data[..|data|] == data;
    }

    /** `pb_write(stream, NULL, count)`, which only sizing streams get. */
    method Count(count: nat)
      requires sizing
      modifies this`bytesWritten
      ensures bytesWritten == old(bytesWritten) + count
    {
      bytesWritten := bytesWritten + count;
    }

    /** `pb_encode_varint` */
    method EncodeVarint(value: nat) returns (ok: bool)
      requires Valid() && value < WORD64
      modifies this, buf
      ensures Did(ok, Some(EncVarint(value)))
    {
      if value <= 0x7F {
        ok := Write([value]);
        return;
      }
      var buffer, n := VarintGroups(value);
      ok := Write(buffer[..n]);
    }

    /** `pb_encode_svarint` */
    method EncodeSvarint(value: int) returns (ok: bool)
      requires Valid()
      modifies this, buf
      ensures Did(ok, Some(EncVarint(ZigZag(value))))
    {
      var zigzagged: nat;
      if value < 0 {
        zigzagged := WORD64 - 1 - 2 * ToUnsigned64(value) % WORD64;
      } else {
        zigzagged := 2 * ToUnsigned64(value) % WORD64;
      }
      ok := EncodeVarint(zigzagged);
    }

    /** `pb_encode_fixed32` and `pb_encode_fixed64` for `k` of 4 and 8. */
    method EncodeFixed(value: nat, k: nat) returns (ok: bool)
      requires Valid()
      modifies this, buf
      ensures Did(ok, Some(EncFixed(value, k)))
    {
      ok := Write(EncFixed(value, k));
    }

    /** `pb_encode_tag` */
    method EncodeTag(wireType: nat, tag: nat) returns (ok: bool)
      requires Valid() && wireType < 8 && tag < WORD32
      modifies this, buf
      ensures Did(ok, Some(EncTag(wireType, tag)))
    {
      ok := EncodeVarint(8 * tag + wireType);
    }

    /** `pb_encode_string` */
    method EncodeString(payload: bytes) returns (ok: bool)
      requires Valid() && |payload| < WORD64
      modifies this, buf
      ensures Did(ok, Some(EncString(payload)))
    {
      ok := EncodeVarint(|payload|);
      if !ok { return; }
      label Prefix:
      ok := Write(payload);
      EffectTwice(sizing, maxSize, old(Now()), old@Prefix(Now()), Now(), ok, Some(EncVarint(|payload|)), Some(payload));
    }
  }
}
