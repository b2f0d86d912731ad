/** The bitset with which `pb_decode_noinit` checks that the required fields were present. */
module RequiredFields {
  import opened Wrappers
  import opened Bits
  import opened Wire
  import opened WireFacts
  import opened Descriptor
  import opened FieldIterator
  import opened DecodeSpec

  const ALL_BITS: nat := WORD32 - 1

  predicate InPlace(seen: set<nat>, base: nat, k: nat) { base + k in seen }

  /** The word's bits are the members of `seen` from `base` on. */
  ghost predicate Shows(w: nat, base: nat, seen: set<nat>) {
    forall k: nat :: k < 32 ==> (Bit(w, k) <==> InPlace(seen, base, k))
  }

  /** `fields_seen`: two 32-bit words. */
  class SeenSet {
    var words: array<nat>

    /** The bits are exactly the members of `seen`. */
    ghost predicate Represents(seen: set<nat>)
      reads this, words
    {
      && words.Length == 2 && words[0] < WORD32 && words[1] < WORD32
      && (forall k :: k in seen ==> k < PB_MAX_REQUIRED_FIELDS)
      && Shows(words[0], 0, seen) && Shows(words[1], 32, seen)
    }

    constructor ()
      ensures Represents({}) && fresh(words)
    {
      words := new nat[2](_ => 0);
      new;
      forall k: nat ensures !Bit(0, k) { ZeroHasNoBits(k); }
    }

    /** Marks required field `index`, if it is one of those tracked. */
    method Mark(index: nat, ghost seen: set<nat>)
      requires Represents(seen)
      modifies words
      ensures Represents(if index < PB_MAX_REQUIRED_FIELDS then seen + {index} else seen)
    {
      if index < PB_MAX_REQUIRED_FIELDS {
        var w, b := index / 32, index % 32;
        var tmp := Pow2(b);
        PowersOfTwo();
        ShlMonotone(1, 1, b, 31);
        assert Pow2(32) == 2 * Pow2(31);
        BitOrBound(words[w], tmp, 32);
        ghost var before := words[w];
        words[w] := BitOr(words[w], tmp);
        BitSet(before, b, 32 * w, seen);
        OtherWord(words[1 - w], 32 * (1 - w), seen, index);
      }
    }

    /** The words and mask comparison: the first `count` required fields were all seen. */
    method HasFirst(count: nat, ghost seen: set<nat>) returns (all: bool)
      requires Represents(seen) && count <= PB_MAX_REQUIRED_FIELDS
      requires forall k :: k in seen ==> k < count
      ensures all <==> forall k :: 0 <= k < count ==> k in seen
    {
      for i := 0 to count / 32
        invariant forall k :: 0 <= k < 32 * i ==> k in seen
      {
        PowersOfTwo();
        WordIsMask(words[i], 32, seen, 32 * i);
        if words[i] != ALL_BITS { return false; }
      }
      var rest := count % 32;
      if rest != 0 {
        WordIsMask(words[count / 32], rest, seen, 32 * (count / 32));
        ShiftedMask(rest);
        if words[count / 32] != ALL_BITS / Pow2(32 - rest) { return false; }
      }
      return true;
    }
  }

  lemma BitSet(w: nat, b: nat, base: nat, seen: set<nat>)
    requires b < 32 && Shows(w, base, seen)
    ensures Shows(BitOr(w, Pow2(b)), base, seen + {base + b})
  {
    forall k: nat | k < 32 ensures Bit(BitOr(w, Pow2(b)), k) <==> InPlace(seen + {base + b}, base, k) {
      BitOrIsBitwise(w, Pow2(b), k);
      BitOfPow2(b, k);
      assert Bit(w, k) <==> InPlace(seen, base, k);
    }
  }

  lemma OtherWord(w: nat, base: nat, seen: set<nat>, index: nat)
    requires Shows(w, base, seen) && (index < base || base + 32 <= index)
    ensures Shows(w, base, seen + {index})
  {
    forall k: nat | k < 32 ensures Bit(w, k) <==> InPlace(seen + {index}, base, k) {
      assert Bit(w, k) <==> InPlace(seen, base, k);
    }
  }

  /** A word with nothing seen beyond its `n` lowest bits is the `n`-bit mask exactly when all of those
      are seen. */
  lemma WordIsMask(w: nat, n: nat, seen: set<nat>, base: nat)
    requires w < WORD32 && n <= 32 && Shows(w, base, seen)
    requires forall x :: x in seen ==> x < base + n || base + 32 <= x
    ensures w == Pow2(n) - 1 <==> forall x :: base <= x < base + n ==> x in seen
  {
    PowersOfTwo();
    if w == Pow2(n) - 1 {
      forall x | base <= x < base + n ensures x in seen {
        BitOfMask(n, x - base);
        assert InPlace(seen, base, x - base);
      }
    }
    if forall x :: base <= x < base + n ==> x in seen {
      forall k: nat ensures Bit(w, k) <==> Bit(Pow2(n) - 1, k) {
        BitOfMask(n, k);
        if k < 32 { assert Bit(w, k) <==> InPlace(seen, base, k); } else { NoBitsAbove(w, 32, k); }
      }
      EqualBits(w, Pow2(n) - 1);
    }
  }

  lemma {:induction false} NoBitsAbove(w: nat, n: nat, k: nat)
    requires w < Pow2(n) && n <= k
    ensures !Bit(w, k)
  {
    if n > 0 { NoBitsAbove(w / 2, n - 1, k - 1); } else { ZeroHasNoBits(k); }
  }

  /** `allbits >> (32 - n)` is the mask of the `n` lowest bits. */
  lemma ShiftedMask(n: nat)
    requires n <= 32
    ensures ALL_BITS / Pow2(32 - n) == Pow2(n) - 1
  {
    hide Shl;
    var a, b := Pow2(n), Pow2(32 - n);
    assert a >= 1 && b >= 1;
    assert a * b == WORD32 by {
      PowersOfTwo();
      ShlTwice(1, n, 32 - n);
      ShlIsMultiplication(a, 32 - n);
    }
    BelowMultiple(a, b);
  }

  lemma BelowMultiple(a: nat, b: nat)
    requires a >= 1 && b >= 1
    ensures a * b >= 1 && (a * b - 1) / b == a - 1
  {
    assert a * b == (a - 1) * b + b;
    QuotientBound(a * b - 1, b, a);
    QuotientBound(a * b - 1, b, a - 1);
  }

  // ---------------------------------------------------------------- Numbers and fields

  /** Every number below the count belongs to a required field. */
  lemma {:induction false} NumberedField(fields: seq<Field>, n: nat, k: nat) returns (i: nat)
    requires n <= |fields| && k < RequiredBefore(fields, n)
    ensures i < n && fields[i].htype == Required && RequiredBefore(fields, i) == k
  {
    if k < RequiredBefore(fields, n - 1) { i := NumberedField(fields, n - 1, k); } else { i := n - 1; }
  }

  lemma {:induction false} RequiredGrows(fields: seq<Field>, i: nat, n: nat)
    requires i <= n <= |fields|
    ensures RequiredBefore(fields, i) <= RequiredBefore(fields, n)
    decreases n - i
  {
    if i < n { RequiredGrows(fields, i, n - 1); }
  }

  /** The marks made so far are numbers of required fields. */
  predicate Numbered(fields: seq<Field>, seen: set<nat>) {
    forall k :: k in seen ==> k < RequiredBefore(fields, |fields|)
  }

  function TrackedCount(fields: seq<Field>): nat {
    var n := RequiredBefore(fields, |fields|);
    if n > PB_MAX_REQUIRED_FIELDS then PB_MAX_REQUIRED_FIELDS else n
  }

  /** Having seen the first numbers is having met each tracked required field. */
  lemma TrackedIsMet(fields: seq<Field>, seen: set<nat>)
    ensures (forall k :: 0 <= k < TrackedCount(fields) ==> k in seen) <==> RequiredMet(fields, seen)
  {
    if forall k :: 0 <= k < TrackedCount(fields) ==> k in seen {
      forall i | 0 <= i < |fields| ensures Marks(fields, i) <= seen {
        RequiredGrows(fields, i + 1, |fields|);
      }
    }
    if RequiredMet(fields, seen) {
      forall k | 0 <= k < TrackedCount(fields) ensures k in seen {
        var i := NumberedField(fields, |fields|, k);
        assert Marks(fields, i) <= seen;
      }
    }
  }

  // ---------------------------------------------------------------- What a successful decode met

  /** A field that was decoded, and how many entries came with it if it is a fixed-count array. */
  datatype Met = Met(field: nat, entries: int)

  function Fields(trace: seq<Met>): set<nat> {
    set t | t in trace :: t.field
  }

  /** The fields decoded, in the order they came. */
  function Trace(fields: seq<Field>, s: bytes, st: State): seq<Met>
    decreases |s|
  {
    if s == [] then []
    else match DecTag(s)
      case Fail => []
      case Ok(Terminator, _) => []
      case Ok(Key(tag, wireType), n) =>
        KeyUsed(s);
        var rest := s[n..];
        SkipUsed(rest, wireType);
        match Find(fields, tag)
        case None =>
          (match Skip(rest, wireType)
           case Fail => []
           case Ok(_, k) => Trace(fields, rest[k..], st))
        case Some(i) =>
          (match DecField(fields, i, wireType, rest, st)
           case Fail => []
           case Ok(st', k) =>
             [Met(i, st'.fixedSize - if st.fixed == Some(i) then st.fixedSize else 0)] + Trace(fields, rest[k..], st'))
  }

  lemma KeyUsed(s: bytes)
    ensures DecTag(s).Ok? ==> 1 <= DecTag(s).used <= |s|
  {
    hide DecVarint32;
    Varint32Used(s);
  }

  ghost predicate Traced(fields: seq<Field>, trace: seq<Met>, k: nat) {
    exists i :: i in Fields(trace) && i < |fields| && k in Marks(fields, i)
  }

  lemma {:induction false} SeenIsTraced(fields: seq<Field>, s: bytes, st: State)
    requires DecLoop(fields, s, st).Done?
    ensures forall k :: k in DecLoop(fields, s, st).st.seen <==> k in st.seen || Traced(fields, Trace(fields, s, st), k)
    ensures forall i :: i in Fields(Trace(fields, s, st)) ==> i < |fields|
    decreases |s|
  {
    hide DecTag, DecSlot, DecEntries, Skip, Find, Marks;
    KeyUsed(s);
    if s != [] && DecTag(s).value.Key? {
      var Ok(key, n) := DecTag(s);
      var rest := s[n..];
      SkipUsed(rest, key.wireType);
      var found := Find(fields, key.tag);
      if found.None? {
        SeenIsTraced(fields, rest[Skip(rest, key.wireType).used..], st);
      } else {
        var i := found.value;
        var Ok(st', k) := DecField(fields, i, key.wireType, rest, st);
        SeenIsTraced(fields, rest[k..], st');
        if fields[i].FixedCount() { FixedMarksNothing(fields, i); }
        var later := Trace(fields, rest[k..], st');
        var met := Trace(fields, s, st)[0];
        assert Trace(fields, s, st) == [met] + later && met.field == i;
        forall x ensures Traced(fields, [met] + later, x) <==> x in Marks(fields, i) || Traced(fields, later, x) {
          TracedFirst(fields, met, later, x);
        }
        FirstField(met, later);
      }
    }
  }

  lemma FixedMarksNothing(fields: seq<Field>, i: nat)
    requires i < |fields| && fields[i].FixedCount()
    ensures Marks(fields, i) == {}
  {
  }

  lemma FirstField(met: Met, later: seq<Met>)
    ensures Fields([met] + later) == {met.field} + Fields(later)
  {
    assert forall t :: t in [met] + later <==> t == met || t in later;
  }

  lemma TracedFirst(fields: seq<Field>, met: Met, later: seq<Met>, k: nat)
    requires met.field < |fields|
    ensures Traced(fields, [met] + later, k) <==> k in Marks(fields, met.field) || Traced(fields, later, k)
  {
    hide Marks, Fields;
    FirstField(met, later);
  }

  /** The required fields that have a bit: those with fewer than 64 before them. */
  predicate Tracked(fields: seq<Field>, i: nat)
    requires i < |fields|
  {
    fields[i].htype == Required && |RequiredAmong(fields, i)| < 64
  }

  function RequiredAmong(fields: seq<Field>, i: nat): set<nat>
    requires i <= |fields|
  {
    set j: nat | j < i && fields[j].htype == Required
  }

  lemma {:induction false} RequiredCount(fields: seq<Field>, i: nat)
    requires i <= |fields|
    ensures RequiredBefore(fields, i) == |RequiredAmong(fields, i)|
  {
    if i == 0 {
      assert RequiredAmong(fields, 0) == {};
    } else {
      RequiredCount(fields, i - 1);
      var before := RequiredAmong(fields, i - 1);
      assert RequiredAmong(fields, i) == if fields[i - 1].htype == Required then before + {i - 1} else before;
    }
  }

  lemma TrackedMarks(fields: seq<Field>, i: nat)
    requires i < |fields|
    ensures Marks(fields, i) == if Tracked(fields, i) then {RequiredBefore(fields, i)} else {}
  {
    RequiredCount(fields, i);
  }

  /** Every fixed-count array that the entries came to was filled before another one began, and before the
      end; `size` entries of array `current` came before. */
  predicate Filled(fields: seq<Field>, current: Option<nat>, size: int, trace: seq<Met>)
    decreases |trace|
  {
    if trace == [] then IsFull(fields, current, size)
    else
      var met := trace[0];
      if met.field >= |fields| || !fields[met.field].FixedCount() then Filled(fields, current, size, trace[1..])
      else if current == Some(met.field) then Filled(fields, current, size + met.entries, trace[1..])
      else IsFull(fields, current, size) && Filled(fields, Some(met.field), met.entries, trace[1..])
  }

  predicate IsFull(fields: seq<Field>, current: Option<nat>, size: int) {
    current.Some? ==> current.value < |fields| && size == fields[current.value].arraySize
  }

  lemma {:induction false} FilledIff(fields: seq<Field>, s: bytes, st: State)
    requires DecLoop(fields, s, st).Done?
    ensures Filled(fields, st.fixed, st.fixedSize, Trace(fields, s, st)) <==>
            FixedComplete(fields, DecLoop(fields, s, st).st)
    decreases |s|
  {
    hide DecTag, DecSlot, DecEntries, Skip, Find;
    KeyUsed(s);
    if s != [] && DecTag(s).value.Key? {
      var Ok(key, n) := DecTag(s);
      var rest := s[n..];
      SkipUsed(rest, key.wireType);
      var found := Find(fields, key.tag);
      if found.None? {
        FilledIff(fields, rest[Skip(rest, key.wireType).used..], st);
      } else {
        var i := found.value;
        var Ok(st', k) := DecField(fields, i, key.wireType, rest, st);
        FilledIff(fields, rest[k..], st');
        var trace := Trace(fields, s, st);
        assert trace[1..] == Trace(fields, rest[k..], st') && trace[0].field == i;
      }
    }
  }

  /** `pb_decode_noinit` succeeds on a stream that it can read exactly when each of the first 64 required
      fields came in it and every fixed-count array that came was filled. */
  lemma RequiredIff(fields: seq<Field>, s: bytes, m: Message)
    requires DecLoop(fields, s, Start(m)).Done?
    ensures var trace := Trace(fields, s, Start(m));
            DecMessage(fields, s, m).Some? <==>
            && (forall i :: 0 <= i < |fields| && Tracked(fields, i) ==> i in Fields(trace))
            && Filled(fields, None, 0, trace)
  {
    hide DecLoop, Trace, Marks, Tracked, Fields, Filled, FixedComplete;
    var st, trace := DecLoop(fields, s, Start(m)).st, Trace(fields, s, Start(m));
    SeenIsTraced(fields, s, Start(m));
    FilledIff(fields, s, Start(m));
    forall i | 0 <= i < |fields| ensures Marks(fields, i) <= st.seen <==> Tracked(fields, i) ==> i in Fields(trace) {
      TrackedMarks(fields, i);
      var n := RequiredBefore(fields, i);
      if Tracked(fields, i) && Traced(fields, trace, n) {
        var j :| j in Fields(trace) && j < |fields| && n in Marks(fields, j);
        MarkedIsRequired(fields, i, j);
      }
    }
  }

  lemma MarkedIsRequired(fields: seq<Field>, i: nat, j: nat)
    requires i < |fields| && j < |fields| && Tracked(fields, i) && RequiredBefore(fields, i) in Marks(fields, j)
    ensures i == j
  {
    TrackedMarks(fields, j);
    NumberIsUnique(fields, i, j);
  }

  lemma NumberIsUnique(fields: seq<Field>, i: nat, j: nat)
    requires i < |fields| && j < |fields| && fields[i].htype == fields[j].htype == Required
    requires RequiredBefore(fields, i) == RequiredBefore(fields, j)
    ensures i == j
  {
    if i < j { NumbersGrow(fields, i, j); }
    if j < i { NumbersGrow(fields, j, i); }
  }

  lemma NumbersGrow(fields: seq<Field>, i: nat, j: nat)
    requires i < j < |fields| && fields[i].htype == Required
    ensures RequiredBefore(fields, i) < RequiredBefore(fields, j)
  {
    RequiredGrows(fields, i + 1, j);
  }

  /** The check at the end of `pb_decode_noinit`, which walks the iterator to the end of the descriptor
      to learn the number of required fields. */
  method CheckRequired(it: FieldIter, seenSet: SeenSet, ghost seen: set<nat>) returns (ok: bool)
    requires it.Valid() && seenSet.Represents(seen)
    requires it.fields != [] ==> it.fields[0].tag != 0
    requires Numbered(it.fields, seen)
    modifies it
    ensures it.Valid() && (ok <==> RequiredMet(it.fields, seen))
  {
    var count, lastRequired := 0, false;
    var more := true;
    while more
      invariant it.Valid() && seenSet.Represents(seen)
      invariant !more && it.fields != [] ==>
                  && it.pos == 0
                  && count == RequiredBefore(it.fields, |it.fields| - 1)
                  && lastRequired == (it.fields[|it.fields| - 1].htype == Required)
      invariant it.fields == [] && !more ==> count == 0 && !lastRequired
      decreases more, |it.fields| - it.pos
    {
      count := it.requiredFieldIndex;
      lastRequired := it.pos < |it.fields| && it.fields[it.pos].htype == Required;
      more := it.Next();
    }
    if lastRequired && it.Tag() != 0 { count := count + 1; }
    if count > PB_MAX_REQUIRED_FIELDS { count := PB_MAX_REQUIRED_FIELDS; }
    ok := true;
    assert count == TrackedCount(it.fields);
    TrackedIsMet(it.fields, seen);
    if count > 0 { ok := seenSet.HasFirst(count, seen); }
  }
}
