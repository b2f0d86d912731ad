/** Which heap blocks a struct owns, and what `pb_release` leaves of it. */
module Ownership {
  import opened Descriptor
  import opened DecodeSpec
  import opened Agreement

  // ---------------------------------------------------------------- Owned blocks

  function BlockOf(p: Pointer): multiset<nat> {
    if p.Block? then multiset{p.id} else multiset{}
  }

  function BlocksValue(f: Field, v: Value): multiset<nat>
    decreases f, 0
  {
    match (f.ltype, v)
    case (Submessage(fields), Msg(m)) => BlocksFrom(fields, m, 0)
    case (_, Ref(p)) => BlockOf(p)
    case _ => multiset{}
  }

  /** The first `n` entries. */
  function BlocksItems(f: Field, items: seq<Value>, n: nat): multiset<nat>
    requires n <= |items|
    decreases f, 1, n
  {
    if n == 0 then multiset{} else BlocksItems(f, items, n - 1) + BlocksValue(f, items[n - 1])
  }

  /** How many entries of a static array are in use; a count beyond the array's end means all of them. */
  function Used(count: nat, items: seq<Value>): (n: nat)
    ensures n <= |items|
  {
    if count < |items| then count else |items|
  }

  /** Array entries that are not in use own nothing, whatever their memory holds. */
  function BlocksSlot(f: Field, s: Slot): multiset<nat>
    decreases f, 2
  {
    match s
    case Plain(v) => BlocksValue(f, v)
    case Has(_, v) => BlocksValue(f, v)
    case Array(count, items) => BlocksItems(f, items, Used(count, items))
    case FixedArray(items) => BlocksItems(f, items, |items|)
    case Union(_, _) => multiset{}
    case Ptr(p) => BlockOf(p) + if p.Block? && |p.items| == 1 then BlocksValue(f, p.items[0]) else multiset{}
    case PtrArray(count, p) =>
      BlockOf(p) + if p.Block? && count <= |p.items| then BlocksItems(f, p.items, count) else multiset{}
  }

  function BlocksFrom(fields: seq<Field>, m: Message, i: nat): multiset<nat>
    requires i <= |fields|
    decreases fields, |fields| - i
  {
    if i == |fields| then multiset{}
    else BlocksAt(fields[i], m, Addr(fields, i)) + BlocksFrom(fields, m, i + 1)
  }

  function BlocksAt(f: Field, m: Message, a: int): multiset<nat>
    decreases f, 3
  {
    if a in m then BlocksSlot(f, m[a]) else multiset{}
  }

  /** Every block the struct owns, with multiplicity. */
  function Blocks(fields: seq<Field>, m: Message): multiset<nat> {
    BlocksFrom(fields, m, 0)
  }

  // ---------------------------------------------------------------- Accounting

  /** Multisets are sums: a common part may be added anywhere. */
  lemma Exchange(a: multiset<nat>, x: multiset<nat>, b: multiset<nat>, y: multiset<nat>, c: multiset<nat>)
    ensures a + x == b + y ==> a + c + x == b + c + y && c + a + x == c + b + y
    ensures a + x + y == a + y + x
  {
    if a + x == b + y {
      assert a + c + x == (a + x) + c;
      assert b + c + y == (b + y) + c;
      assert c + a + x == c + (a + x);
      assert c + b + y == c + (b + y);
    }
  }

  lemma {:induction false} ItemsUpdated(f: Field, items: seq<Value>, n: nat, k: nat, v: Value)
    requires n <= |items| && k < |items|
    ensures k >= n ==> BlocksItems(f, items[k := v], n) == BlocksItems(f, items, n)
    ensures k < n ==>
              BlocksItems(f, items[k := v], n) + BlocksValue(f, items[k]) ==
              BlocksItems(f, items, n) + BlocksValue(f, v)
  {
    hide BlocksValue;
    if n > 0 {
      ItemsUpdated(f, items, n - 1, k, v);
      Exchange(BlocksItems(f, items[k := v], n - 1), BlocksValue(f, items[k]),
               BlocksItems(f, items, n - 1), BlocksValue(f, v), BlocksValue(f, items[n - 1]));
    }
  }

  lemma {:induction false} ItemsPrefix(f: Field, a: seq<Value>, b: seq<Value>, n: nat)
    requires n <= |a| && n <= |b| && a[..n] == b[..n]
    ensures BlocksItems(f, a, n) == BlocksItems(f, b, n)
  {
    if n > 0 {
      assert a[..n - 1] == a[..n][..n - 1] == b[..n][..n - 1] == b[..n - 1];
      assert a[n - 1] == a[..n][n - 1] == b[..n][n - 1] == b[n - 1];
      ItemsPrefix(f, a, b, n - 1);
    }
  }

  lemma {:induction false} ItemsOwnNothing(f: Field, items: seq<Value>, n: nat)
    requires n <= |items| && forall k :: 0 <= k < n ==> BlocksValue(f, items[k]) == multiset{}
    ensures BlocksItems(f, items, n) == multiset{}
  {
    if n > 0 { ItemsOwnNothing(f, items, n - 1); }
  }

  /** Writing one slot changes what the struct owns by what the slot owns. */
  lemma {:induction false} SlotUpdated(fields: seq<Field>, m: Message, i: nat, s: Slot, from: nat)
    requires WellFormed(fields) && Shaped(fields, m) && i < |fields| && from <= |fields|
    requires ShapedSlot(fields[i], s)
    ensures var a := Addr(fields, i);
            && (from > i ==> BlocksFrom(fields, m[a := s], from) == BlocksFrom(fields, m, from))
            && (from <= i ==>
                  BlocksFrom(fields, m[a := s], from) + BlocksSlot(fields[i], m[a]) ==
                  BlocksFrom(fields, m, from) + BlocksSlot(fields[i], s))
    decreases |fields| - from
  {
    hide BlocksSlot, ShapedSlot, Addr, WellFormedField;
    if from < |fields| {
      var a := Addr(fields, i);
      SlotUpdated(fields, m, i, s, from + 1);
      if from != i && Addr(fields, from) == a {
        assert fields[i].htype == Oneof && fields[from].htype == Oneof;
        UnionsOwnNothing(fields[i], fields[from], m[a], s);
      }
      if from < i {
        Exchange(BlocksFrom(fields, m[a := s], from + 1), BlocksSlot(fields[i], m[a]),
                 BlocksFrom(fields, m, from + 1), BlocksSlot(fields[i], s),
                 BlocksAt(fields[from], m, Addr(fields, from)));
      } else if from == i {
        Exchange(BlocksSlot(fields[i], s), BlocksFrom(fields, m, from + 1), multiset{}, multiset{}, multiset{});
      }
    }
  }

  lemma UnionsOwnNothing(f: Field, g: Field, s: Slot, s': Slot)
    requires f.htype == Oneof && ShapedSlot(f, s) && ShapedSlot(f, s')
    ensures BlocksSlot(f, s) == BlocksSlot(f, s') == BlocksSlot(g, s) == BlocksSlot(g, s') == multiset{}
  {
  }

  /** A union is left alone, emptied, or given to member `i`. */
  ghost predicate OneofStep(fields: seq<Field>, m: Message, i: nat, s: Slot) {
    && i < |fields| && Addr(fields, i) in m
    && (fields[i].htype == Oneof ==> s.Union? && (s == m[Addr(fields, i)] || s.which == 0 || s.which == fields[i].tag))
  }

  lemma OtherMemberShaped(f: Field, g: Field, s: Slot, s': Slot)
    requires f.htype == g.htype == Oneof && f.tag != g.tag && g.tag >= 1
    requires ShapedSlot(g, s)
    requires s'.Union? && (s' == s || s'.which == 0 || s'.which == f.tag)
    ensures ShapedSlot(g, s')
  {
  }

  /** What changes when slot `i` is written, for a struct whose blocks are part of `live`. */
  lemma SlotWritten(fields: seq<Field>, m: Message, i: nat, s: Slot)
    requires WellFormed(fields) && Shaped(fields, m) && i < |fields|
    requires ShapedSlot(fields[i], s) && OneofStep(fields, m, i, s)
    ensures var m' := m[Addr(fields, i) := s];
            && Shaped(fields, m')
            && Blocks(fields, m') + BlocksSlot(fields[i], m[Addr(fields, i)]) ==
               Blocks(fields, m) + BlocksSlot(fields[i], s)
  {
    hide ShapedSlot, BlocksSlot, Addr, WellFormedField;
    SlotUpdated(fields, m, i, s, 0);
    var a := Addr(fields, i);
    var m' := m[a := s];
    forall j | 0 <= j < |fields|
      ensures Addr(fields, j) in m' && ShapedSlot(fields[j], m'[Addr(fields, j)])
    {
      if j != i && Addr(fields, j) == a {
        assert fields[i].htype == Oneof && fields[j].htype == Oneof;
        TagIsPositive(fields, j);
        OtherMemberShaped(fields[i], fields[j], m[a], s);
      }
    }
  }

  lemma TagIsPositive(fields: seq<Field>, j: nat)
    requires WellFormed(fields) && j < |fields|
    ensures fields[j].tag >= 1
  {
    assert WellFormedField(fields[j]);
  }

  // ---------------------------------------------------------------- Static structs own nothing

  lemma {:induction false} StaticOwnsNothing(fields: seq<Field>, m: Message, i: nat)
    requires AllStatic(fields) && Shaped(fields, m) && i <= |fields|
    ensures BlocksFrom(fields, m, i) == multiset{}
    decreases fields, |fields| - i
  {
    hide BlocksSlot, ShapedSlot, Addr, AllStaticField;
    if i < |fields| {
      assert AllStaticField(fields[i]);
      StaticSlotOwnsNothing(fields[i], m[Addr(fields, i)]);
      StaticOwnsNothing(fields, m, i + 1);
    }
  }

  lemma {:induction false} StaticSlotOwnsNothing(f: Field, s: Slot)
    requires AllStaticField(f) && ShapedSlot(f, s)
    ensures BlocksSlot(f, s) == multiset{}
    decreases f, 1
  {
    match s {
      case Plain(v) => StaticValueOwnsNothing(f, v);
      case Has(_, v) => StaticValueOwnsNothing(f, v);
      case Array(count, items) =>
        forall k | 0 <= k < |items| ensures BlocksValue(f, items[k]) == multiset{} {
          StaticValueOwnsNothing(f, items[k]);
        }
        ItemsOwnNothing(f, items, Used(count, items));
      case FixedArray(items) =>
        forall k | 0 <= k < |items| ensures BlocksValue(f, items[k]) == multiset{} {
          StaticValueOwnsNothing(f, items[k]);
        }
        ItemsOwnNothing(f, items, |items|);
      case _ =>
    }
  }

  lemma {:induction false} StaticValueOwnsNothing(f: Field, v: Value)
    requires AllStaticField(f) && ShapedValue(f, v)
    ensures BlocksValue(f, v) == multiset{}
    decreases f, 0
  {
    if f.ltype.Submessage? { StaticOwnsNothing(f.ltype.fields, v.slots, 0); }
  }

  // ---------------------------------------------------------------- pb_release

  function ReleasedValue(f: Field, v: Value): Value
    decreases f, 0
  {
    match (f.ltype, v)
    case (Submessage(fields), Msg(m)) => Msg(ReleasedFrom(fields, m, 0))
    case _ => v
  }

  /** The first `n` entries released. */
  function ReleasedItems(f: Field, items: seq<Value>, n: nat): (r: seq<Value>)
    requires n <= |items|
    ensures |r| == |items|
    decreases f, 1
  {
    seq(|items|, k requires 0 <= k < |items| => if k < n then ReleasedValue(f, items[k]) else items[k])
  }

  /** `pb_release_single_field` */
  function ReleasedSlot(f: Field, s: Slot): Slot
    decreases f, 2
  {
    match s
    case Plain(v) => Plain(ReleasedValue(f, v))
    case Has(has, v) => Has(has, ReleasedValue(f, v))
    case Array(count, items) => Array(count, ReleasedItems(f, items, Used(count, items)))
    case FixedArray(items) => FixedArray(ReleasedItems(f, items, |items|))
    case Union(which, v) => if which == f.tag then Union(which, ReleasedValue(f, v)) else s
    case Ptr(_) => Ptr(Null)
    case PtrArray(_, _) => PtrArray(0, Null)
  }

  function ReleasedFrom(fields: seq<Field>, m: Message, i: nat): Message
    requires i <= |fields|
    decreases fields, |fields| - i
  {
    if i == |fields| then m
    else
      var a := Addr(fields, i);
      ReleasedFrom(fields, if a in m then m[a := ReleasedSlot(fields[i], m[a])] else m, i + 1)
  }

  /** `pb_release` */
  function Released(fields: seq<Field>, m: Message): Message {
    ReleasedFrom(fields, m, 0)
  }

  lemma {:induction false} SlotsOwnNothing(fields: seq<Field>, m: Message, i: nat)
    requires i <= |fields|
    requires forall j :: i <= j < |fields| && Addr(fields, j) in m ==>
               BlocksSlot(fields[j], m[Addr(fields, j)]) == multiset{}
    ensures BlocksFrom(fields, m, i) == multiset{}
    decreases |fields| - i
  {
    hide BlocksSlot, Addr;
    if i < |fields| { SlotsOwnNothing(fields, m, i + 1); }
  }

  lemma {:induction false} SlotIsPart(fields: seq<Field>, m: Message, i: nat, j: nat)
    requires i <= j < |fields| && Addr(fields, j) in m
    ensures BlocksSlot(fields[j], m[Addr(fields, j)]) <= BlocksFrom(fields, m, i)
    decreases j - i
  {
    hide BlocksSlot, Addr;
    if i < j { SlotIsPart(fields, m, i + 1, j); }
  }

  lemma {:induction false} ItemIsPart(f: Field, items: seq<Value>, n: nat, k: nat)
    requires k < n <= |items|
    ensures BlocksValue(f, items[k]) <= BlocksItems(f, items, n)
  {
    hide BlocksValue;
    if k < n - 1 { ItemIsPart(f, items, n - 1, k); }
  }

  // ---------------------------------------------------------------- Initialised structs own nothing

  /** Whatever a struct held, once it is set to its defaults it owns nothing. */
  lemma DefaultsOwnNothing(fields: seq<Field>, m: Message)
    requires WellFormed(fields) && Shaped(fields, m)
    ensures Shaped(fields, SetDefaults(fields, m)) && Blocks(fields, SetDefaults(fields, m)) == multiset{}
  {
    hide SetDefaults;
    DefaultsAtDefault(fields, m);
    DefaultOwnsNothing(fields, SetDefaults(fields, m), 0);
  }

  lemma {:induction false} DefaultOwnsNothing(fields: seq<Field>, m: Message, i: nat)
    requires WellFormed(fields) && AtDefault(fields, m) && i <= |fields|
    ensures BlocksFrom(fields, m, i) == multiset{}
    decreases fields, |fields| - i
  {
    hide BlocksSlot, ShapedSlot, AtDefaultSlot, Addr, WellFormedField;
    if i < |fields| {
      assert WellFormedField(fields[i]);
      DefaultSlotOwnsNothing(fields[i], m[Addr(fields, i)]);
      DefaultOwnsNothing(fields, m, i + 1);
    }
  }

  lemma {:induction false} DefaultSlotOwnsNothing(f: Field, s: Slot)
    requires WellFormedField(f) && ShapedSlot(f, s) && AtDefaultSlot(f, s)
    ensures BlocksSlot(f, s) == multiset{}
    decreases f
  {
    match s {
      case Plain(v) => if f.ltype.Submessage? { DefaultOwnsNothing(f.ltype.fields, v.slots, 0); }
      case Has(_, v) => if f.ltype.Submessage? { DefaultOwnsNothing(f.ltype.fields, v.slots, 0); }
      case FixedArray(_) => StaticSlotOwnsNothing(f, s);
      case _ =>
    }
  }

  // ---------------------------------------------------------------- Released structs own nothing

  lemma {:induction false} ReleasedOwnsNothing(fields: seq<Field>, m: Message)
    requires WellFormed(fields) && Shaped(fields, m)
    ensures Shaped(fields, Released(fields, m)) && Blocks(fields, Released(fields, m)) == multiset{}
    decreases fields, |fields| + 1
  {
    ReleasedFromOwnsNothing(fields, m, 0);
  }

  lemma {:induction false} ReleasedFromOwnsNothing(fields: seq<Field>, m: Message, i: nat)
    requires WellFormed(fields) && Shaped(fields, m) && i <= |fields|
    requires forall j :: 0 <= j < i ==> BlocksSlot(fields[j], m[Addr(fields, j)]) == multiset{}
    ensures Shaped(fields, ReleasedFrom(fields, m, i)) && Blocks(fields, ReleasedFrom(fields, m, i)) == multiset{}
    decreases fields, |fields| - i
  {
    hide ReleasedSlot, BlocksSlot, ShapedSlot, Addr, WellFormedField;
    if i == |fields| {
      SlotsOwnNothing(fields, m, 0);
    } else {
      var f, a := fields[i], Addr(fields, i);
      assert WellFormedField(f) && ShapedSlot(f, m[a]);
      ReleasedSlotOwnsNothing(f, m[a]);
      SlotWritten(fields, m, i, ReleasedSlot(f, m[a]));
      var m' := m[a := ReleasedSlot(f, m[a])];
      forall j | 0 <= j < i ensures BlocksSlot(fields[j], m'[Addr(fields, j)]) == multiset{} {
        if Addr(fields, j) == a {
          assert f.htype == Oneof;
          UnionsOwnNothing(f, fields[j], m[a], m'[a]);
        }
      }
      ReleasedFromOwnsNothing(fields, m', i + 1);
    }
  }

  lemma {:induction false} ReleasedSlotOwnsNothing(f: Field, s: Slot)
    requires WellFormedField(f) && ShapedSlot(f, s)
    ensures ShapedSlot(f, ReleasedSlot(f, s)) && BlocksSlot(f, ReleasedSlot(f, s)) == multiset{}
    ensures s.Union? ==>
              var s' := ReleasedSlot(f, s); s'.Union? && (s' == s || s'.which == f.tag)
    ensures f.htype == Oneof ==> s.Union?
    decreases f, 1
  {
    match s {
      case Plain(v) => ReleasedValueOwnsNothing(f, v);
      case Has(_, v) => ReleasedValueOwnsNothing(f, v);
      case Array(count, items) => ReleasedItemsOwnsNothing(f, items, Used(count, items));
      case FixedArray(items) => ReleasedItemsOwnsNothing(f, items, |items|);
      case Union(which, v) => if which == f.tag { ReleasedValueOwnsNothing(f, v); }
      case _ =>
    }
  }

  lemma {:induction false} ReleasedItemsOwnsNothing(f: Field, items: seq<Value>, n: nat)
    requires WellFormedField(f) && n <= |items|
    requires forall k :: 0 <= k < |items| ==> ShapedValue(f, items[k])
    ensures var r := ReleasedItems(f, items, n);
            (forall k :: 0 <= k < |items| ==> ShapedValue(f, r[k])) && BlocksItems(f, r, n) == multiset{}
    decreases f, 0, 1
  {
    var r := ReleasedItems(f, items, n);
    forall k | 0 <= k < |items| ensures ShapedValue(f, r[k]) && (k < n ==> BlocksValue(f, r[k]) == multiset{}) {
      if k < n { ReleasedValueOwnsNothing(f, items[k]); }
    }
    ItemsOwnNothing(f, r, n);
  }

  lemma {:induction false} ReleasedValueOwnsNothing(f: Field, v: Value)
    requires WellFormedField(f) && ShapedValue(f, v)
    ensures ShapedValue(f, ReleasedValue(f, v)) && BlocksValue(f, ReleasedValue(f, v)) == multiset{}
    decreases f, 0, 0
  {
    if f.ltype.Submessage? { ReleasedOwnsNothing(f.ltype.fields, v.slots); }
  }

  /** A second release finds nothing to change. */
  lemma {:induction false} ReleasedTwice(fields: seq<Field>, m: Message)
    requires WellFormed(fields) && Shaped(fields, m)
    ensures Released(fields, Released(fields, m)) == Released(fields, m)
    decreases fields, |fields| + 1
  {
    ReleasedFromSettles(fields, m, 0);
    SettledStays(fields, Released(fields, m), 0);
  }

  ghost predicate Settled(fields: seq<Field>, m: Message, i: nat) {
    i < |fields| && Addr(fields, i) in m && ReleasedSlot(fields[i], m[Addr(fields, i)]) == m[Addr(fields, i)]
  }

  lemma {:induction false} SettledStays(fields: seq<Field>, m: Message, i: nat)
    requires i <= |fields| && forall j :: 0 <= j < |fields| ==> Settled(fields, m, j)
    ensures ReleasedFrom(fields, m, i) == m
    decreases |fields| - i
  {
    hide ReleasedSlot, Addr;
    if i < |fields| {
      assert Settled(fields, m, i);
      var a := Addr(fields, i);
      assert m[a := m[a]] == m;
      SettledStays(fields, m, i + 1);
    }
  }

  lemma {:induction false} ReleasedFromSettles(fields: seq<Field>, m: Message, i: nat)
    requires WellFormed(fields) && i <= |fields|
    requires forall j :: 0 <= j < |fields| ==> Addr(fields, j) in m && ShapedSlot(fields[j], m[Addr(fields, j)])
    requires forall j :: 0 <= j < i ==> Settled(fields, m, j)
    ensures forall j :: 0 <= j < |fields| ==> Settled(fields, ReleasedFrom(fields, m, i), j)
    decreases fields, |fields| - i
  {
    hide ReleasedSlot, ShapedSlot, Addr, WellFormedField;
    if i < |fields| {
      var f, a := fields[i], Addr(fields, i);
      assert WellFormedField(f);
      ReleasedSlotTwice(f, m[a]);
      var m' := m[a := ReleasedSlot(f, m[a])];
      forall j | 0 <= j < |fields|
        ensures Addr(fields, j) in m' && ShapedSlot(fields[j], m'[Addr(fields, j)])
        ensures j <= i ==> Settled(fields, m', j)
      {
        if j < i { assert Settled(fields, m, j); }
        if j != i && Addr(fields, j) == a {
          TagIsPositive(fields, j);
          SharedRelease(f, fields[j], m[a]);
        }
      }
      ReleasedFromSettles(fields, m', i + 1);
    }
  }

  lemma SharedRelease(f: Field, g: Field, s: Slot)
    requires f.htype == g.htype == Oneof && f.tag != g.tag && ShapedSlot(g, s)
    ensures ShapedSlot(g, ReleasedSlot(f, s))
    ensures ReleasedSlot(g, s) == s ==> ReleasedSlot(g, ReleasedSlot(f, s)) == ReleasedSlot(f, s)
  {
  }

  lemma {:induction false} ReleasedSlotTwice(f: Field, s: Slot)
    requires WellFormedField(f) && ShapedSlot(f, s)
    ensures ShapedSlot(f, ReleasedSlot(f, s))
    ensures ReleasedSlot(f, ReleasedSlot(f, s)) == ReleasedSlot(f, s)
    decreases f, 1
  {
    match s {
      case Plain(v) => ReleasedValueTwice(f, v);
      case Has(_, v) => ReleasedValueTwice(f, v);
      case Array(count, items) => ReleasedItemsTwice(f, items, Used(count, items));
      case FixedArray(items) => ReleasedItemsTwice(f, items, |items|);
      case Union(which, v) => if which == f.tag { ReleasedValueTwice(f, v); }
      case _ =>
    }
  }

  lemma {:induction false} ReleasedItemsTwice(f: Field, items: seq<Value>, n: nat)
    requires WellFormedField(f) && n <= |items| && forall k :: 0 <= k < |items| ==> ShapedValue(f, items[k])
    ensures var r := ReleasedItems(f, items, n);
            ReleasedItems(f, r, n) == r && forall k :: 0 <= k < |r| ==> ShapedValue(f, r[k])
    decreases f, 0, 1
  {
    var r := ReleasedItems(f, items, n);
    forall k | 0 <= k < |items|
      ensures ShapedValue(f, r[k]) && (k < n ==> ReleasedValue(f, r[k]) == r[k])
    {
      if k < n { ReleasedValueTwice(f, items[k]); }
    }
    assert ReleasedItems(f, r, n) == r;
  }

  lemma {:induction false} ReleasedValueTwice(f: Field, v: Value)
    requires WellFormedField(f) && ShapedValue(f, v)
    ensures ShapedValue(f, ReleasedValue(f, v))
    ensures ReleasedValue(f, ReleasedValue(f, v)) == ReleasedValue(f, v)
    decreases f, 0, 0
  {
    if f.ltype.Submessage? {
      var fields, m := f.ltype.fields, v.slots;
      ReleasedTwice(fields, m);
      ReleasedIsShaped(fields, m, 0);
    }
  }

  lemma {:induction false} ReleasedIsShaped(fields: seq<Field>, m: Message, i: nat)
    requires WellFormed(fields) && Shaped(fields, m) && i <= |fields|
    ensures Shaped(fields, ReleasedFrom(fields, m, i))
    decreases fields, |fields| - i
  {
    hide ReleasedSlot, ShapedSlot, Addr, WellFormedField;
    if i < |fields| {
      var f, a := fields[i], Addr(fields, i);
      assert WellFormedField(f);
      ReleasedSlotTwice(f, m[a]);
      var m' := m[a := ReleasedSlot(f, m[a])];
      forall j | 0 <= j < |fields| ensures Addr(fields, j) in m' && ShapedSlot(fields[j], m'[Addr(fields, j)]) {
        if j != i && Addr(fields, j) == a { SharedRelease(f, fields[j], m[a]); }
      }
      ReleasedIsShaped(fields, m', i + 1);
    }
  }
}
