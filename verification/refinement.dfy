/** How the decoder on streams and heap relates to the specification, and the facts its proof needs. */
module Refinement {
  import opened Wrappers
  import opened Wire
  import opened Descriptor
  import opened DecodeSpec
  import opened Agreement
  import opened Ownership
  import opened Erasure
  import opened Upsets
  import opened Regularity
  import opened InputStream
  import opened Heap

  /** No byte past the end of the readable part was taken. */
  twostate predicate Within(s: IStream)
    reads s
  {
    && s.Valid()
    && s.bytesLeft <= old(s.bytesLeft)
    && s.pos + s.bytesLeft <= old(s.pos + s.bytesLeft)
  }

  /** What a reader with specification `spec` does: it succeeds exactly when the specification does and
      every allocation was granted, and then takes exactly the bytes the specification takes. */
  twostate predicate Refines<T>(s: IStream, h: Arena, ok: bool, new spec: Parse<T>)
    reads s, h
  {
    && Within(s)
    && (ok <==> spec.Ok? && h.refusals == old(h.refusals))
    && (ok ==> s.Used(spec.used))
  }

  /** Blocks by which the books may be out: still live though the struct no longer counts them, or counted
      though they never were its own. */
  datatype Slip = Slip(lost: multiset<nat>, stale: multiset<nat>)
  const NO_SLIP: Slip := Slip(multiset{}, multiset{})

  /** The live blocks are those of `total`, but for the slip. Stale blocks that were live all the same were
      taken from their owners; the others were freed wildly, if they were freed. */
  ghost predicate Balanced(live: multiset<nat>, wild: multiset<nat>, prior: multiset<nat>, total: multiset<nat>,
                           slip: Slip) {
    && live == total + slip.lost - slip.stale
    && wild == prior + (slip.stale - (total + slip.lost))
  }

  /** A slip comes from the upset that the specification tells, unless a refused allocation came first. */
  ghost predicate Explained(ok: bool, granted: bool, slip: Slip, upset: Upset) {
    && (ok ==> slip == NO_SLIP)
    && (slip.lost != multiset{} <==> upset == Lost && granted)
    && (slip.stale != multiset{} <==> upset == Stale && granted)
  }

  /** Books without a slip. */
  lemma Even(live: multiset<nat>, wild: multiset<nat>, prior: multiset<nat>, total: multiset<nat>)
    ensures Balanced(live, wild, prior, total, NO_SLIP) <==> live == total && wild == prior
  {
  }

  lemma NothingUpset(ok: bool, granted: bool)
    ensures Explained(ok, granted, NO_SLIP, Kept)
  {
  }

  /** Success leaves no slip, and neither does a refused allocation, whatever the bytes tell. */
  lemma Unslipped(ok: bool, granted: bool, slip: Slip, upset: Upset)
    requires Explained(ok, granted, slip, upset)
    ensures ok ==> slip == NO_SLIP
    ensures !granted ==> forall u :: Explained(ok, granted, slip, u)
  {
  }

  /** Balanced books stay so, but for the slip, when a struct's blocks are released. */
  lemma SlipStays(live: multiset<nat>, wild: multiset<nat>, prior: multiset<nat>, frame: multiset<nat>,
                  blocks: multiset<nat>, slip: Slip)
    requires Balanced(live, wild, prior, frame + blocks, slip)
    ensures Balanced(live - blocks, wild + (blocks - live), prior, frame, slip)
  {
    var total := frame + slip.lost;
    assert frame + blocks + slip.lost == total + blocks;
    assert live - blocks == total - slip.stale;
    assert (slip.stale - (total + blocks)) + (blocks - live) == slip.stale - total;
  }

  // ---------------------------------------------------------------- Scalars

  lemma ScalarFacts(f: Field, s: bytes)
    requires WellFormedField(f) && DecScalar(f, s).Ok?
    ensures var v := DecScalar(f, s).value;
            && ShapedValue(f, v) && RegularValue(f, v) && BlocksValue(f, v) == multiset{}
            && ErasedValue(v) == v && !v.Ref? && !v.Msg?
  {
    hide DecVarint32, DecVarint, DecFixed, DecString, SignedOfVarint, UnZigZag, AllStaticField, ShapedValue;
    var v := DecScalar(f, s).value;
    assert !f.ltype.Submessage? && !f.ltype.Extension?;
    assert v.Int? || v.Data?;
    ScalarIsShaped(f, s);
  }

  lemma ScalarIsShaped(f: Field, s: bytes)
    requires WellFormedField(f) && DecScalar(f, s).Ok?
    ensures ShapedValue(f, DecScalar(f, s).value)
  {
    hide DecVarint32, DecVarint, DecFixed, DecString, SignedOfVarint, UnZigZag, AllStaticField, WellFormed;
  }

  /** Values that are no submessages own nothing unless they are references. */
  lemma PlainValue(f: Field, v: Value)
    requires !v.Ref? && !v.Msg?
    ensures BlocksValue(f, v) == multiset{} && RegularValue(f, v) && ErasedValue(v) == v
  {
  }

  // ---------------------------------------------------------------- New entries

  lemma SameBlock(id: nat, a: seq<Value>, b: seq<Value>)
    ensures BlockOf(Block(id, a)) == BlockOf(Block(id, b))
  {
  }

  /** A freshly initialised submessage. */
  lemma FreshMessage(fields: seq<Field>)
    requires WellFormed(fields)
    ensures var m := SetDefaults(fields, ZeroFrom(fields, 0));
            Shaped(fields, m) && Regular(fields, m) && Blocks(fields, m) == multiset{} && Erased(m) == m
  {
    ZeroIsShaped(fields);
    DefaultsOwnNothing(fields, ZeroFrom(fields, 0));
    DefaultsAtDefault(fields, ZeroFrom(fields, 0));
    DefaultIsRegular(fields, SetDefaults(fields, ZeroFrom(fields, 0)));
    ErasedZero(fields, 0);
    ErasedDefaults(fields, ZeroFrom(fields, 0), 0);
  }

  lemma DefaultsReady(fields: seq<Field>, m: Message)
    requires WellFormed(fields) && Shaped(fields, m)
    ensures Regular(fields, SetDefaults(fields, m))
    ensures Erased(SetDefaults(fields, m)) == SetDefaults(fields, Erased(m))
  {
    DefaultsAtDefault(fields, m);
    DefaultIsRegular(fields, SetDefaults(fields, m));
    ErasedDefaults(fields, m, 0);
  }

  // ---------------------------------------------------------------- Arrays

  lemma ErasedEntry(items: seq<Value>, k: nat, v: Value)
    requires k < |items|
    ensures ErasedItems(items[k := v]) == ErasedItems(items)[k := ErasedValue(v)]
  {
  }

  lemma ErasedAppend(items: seq<Value>, k: nat, v: Value)
    requires k < |items|
    ensures ErasedItems(items[k := v])[..k + 1] == ErasedItems(items)[..k] + [ErasedValue(v)]
  {
  }

  /** Writing the entry just behind the ones in use. */
  lemma EntryAdded(f: Field, items: seq<Value>, k: nat, v: Value)
    requires k < |items|
    ensures BlocksItems(f, items[k := v], k + 1) == BlocksItems(f, items, k) + BlocksValue(f, v)
  {
    ItemsUpdated(f, items, k, k, v);
  }
}
