/** The C heap as `pb_realloc` and `pb_free` see it, and the allocation of fields. */
module Heap {
  import opened Bits
  import opened Wire
  import opened Descriptor
  import opened Ownership

  /** Block numbers are addresses that have not been handed out before. Whatever is freed while it is not
      live (freed already, or never allocated) goes on record in `wild`. */
  class Arena {
    var live: multiset<nat>
    var next: nat
    /** How many allocations were refused so far. */
    ghost var refusals: nat
    ghost var wild: multiset<nat>

    ghost predicate Valid()
      reads this
    {
      forall b :: b in live ==> live[b] == 1 && b < next
    }

    constructor ()
      ensures Valid() && live == multiset{} && refusals == 0 && wild == multiset{}
    {
      live, next := multiset{}, 0;
      refusals, wild := 0, multiset{};
    }

    /** `realloc`: may fail, leaving the block alone; may move it; keeps the common prefix. */
    method Realloc(p: Pointer, count: nat, ghost frame: multiset<nat>) returns (r: Pointer)
      requires Valid() && live == frame + BlockOf(p)
      modifies this`live, this`next, this`refusals
      ensures Valid()
      ensures r.Null? ==> live == old(live) && refusals == old(refusals) + 1
      ensures r.Block? ==>
                && refusals == old(refusals)
                && live == frame + BlockOf(r)
                && |r.items| == count
                && forall k :: 0 <= k < count ==>
                     r.items[k] == if p.Block? && k < |p.items| then p.items[k] else Garbage
    {
      var fails: bool := *;
      if fails {
        refusals := refusals + 1;
        return Null;
      }
      var items := seq(count, k requires 0 <= k < count => if p.Block? && k < |p.items| then p.items[k] else Garbage);
      var inPlace: bool := *;
      if inPlace && p.Block? { return Block(p.id, items); }
      if p.Block? { live := live - multiset{p.id}; }
      assert live == frame;
      r := Block(next, items);
      live := live + multiset{next};
      next := next + 1;
    }

    /** `free`; freeing null does nothing. */
    method Free(p: Pointer)
      requires Valid()
      modifies this`live, this`wild
      ensures Valid() && Freed(this, BlockOf(p))
    {
      if p.Block? {
        if p.id in live {
          assert multiset{p.id} - live == multiset{};
          live := live - multiset{p.id};
        } else {
          assert live - multiset{p.id} == live && multiset{p.id} - live == multiset{p.id};
          wild := wild + multiset{p.id};
        }
      }
    }
  }

  /** The blocks are no longer live; those that were not live before are on record. */
  twostate predicate Freed(h: Arena, blocks: multiset<nat>)
    reads h
  {
    && h.live == old(h.live) - blocks
    && h.wild == old(h.wild) + (blocks - old(h.live))
  }

  /** Freeing blocks in two goes. */
  lemma FreedInTwo(live: multiset<nat>, a: multiset<nat>, b: multiset<nat>)
    ensures live - a - b == live - (a + b)
    ensures (a - live) + (b - (live - a)) == (a + b) - live
  {
  }

  /** Blocks that are accounted for are freed as they should be. */
  lemma OwnedFreed(frame: multiset<nat>, blocks: multiset<nat>)
    ensures frame + blocks - blocks == frame && blocks - (frame + blocks) == multiset{}
  {
  }

  /** The first bit count with which only half of a `size_t` is used: products below it cannot overflow. */
  function CheckLimit(): nat {
    if POINTER_SIZE == 4 then 0x1_0000 else WORD32
  }

  /** The guard of `allocate_field` passes exactly the sizes whose product a `size_t` can hold. */
  method SizeGuard(dataSize: nat, arraySize: nat) returns (ok: bool)
    requires dataSize <= SIZE_MAX && arraySize <= SIZE_MAX
    ensures ok <==> dataSize != 0 && arraySize != 0 && dataSize * arraySize <= SIZE_MAX
  {
    if dataSize == 0 || arraySize == 0 { return false; }
    var limit := CheckLimit();
    if dataSize >= limit || arraySize >= limit {
      QuotientBound(SIZE_MAX, arraySize, dataSize);
      if SIZE_MAX / arraySize < dataSize { return false; }
    } else {
      SmallProduct(dataSize, arraySize, limit);
    }
    return true;
  }

  lemma SmallProduct(a: nat, b: nat, limit: nat)
    requires a < limit && b < limit
    ensures a * b <= (limit - 1) * (limit - 1)
  {
    WiderProduct(a, limit - 1, b);
    WiderProduct(b, limit - 1, limit - 1);
  }

  lemma WiderProduct(a: nat, b: nat, c: nat)
    requires a <= b
    ensures a * c <= b * c && c * a <= c * b
  {
    assert b * c == a * c + (b - a) * c;
  }

  /** `allocate_field`: storage for `arraySize` entries; on failure the old block stays in place. */
  method AllocateField(h: Arena, p: Pointer, dataSize: nat, arraySize: nat, ghost frame: multiset<nat>)
    returns (ok: bool, r: Pointer)
    requires h.Valid() && h.live == frame + BlockOf(p)
    requires dataSize <= SIZE_MAX && arraySize <= SIZE_MAX
    modifies h`live, h`next, h`refusals
    ensures h.Valid() && h.live == frame + BlockOf(r)
    ensures !ok ==> r == p && h.refusals == old(h.refusals) + 1
    ensures ok ==>
              && h.refusals == old(h.refusals)
              && r.Block? && |r.items| == arraySize && dataSize * arraySize <= SIZE_MAX
              && forall k :: 0 <= k < arraySize ==>
                   r.items[k] == if p.Block? && k < |p.items| then p.items[k] else Garbage
  {
    r := p;
    ok := SizeGuard(dataSize, arraySize);
    if !ok {
      h.refusals := h.refusals + 1;
      return;
    }
    var q := h.Realloc(p, arraySize, frame);
    if q.Null? { return false, p; }
    r := q;
  }
}
