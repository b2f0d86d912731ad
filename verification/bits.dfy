/** Unsigned machine words as natural numbers, with the bit operations the C code applies to them. */
module Bits {

  /** The C operator `<<`, without truncation. */
  function Shl(v: nat, n: nat): (r: nat)
    ensures v <= r
  {
    if n == 0 then v else 2 * Shl(v, n - 1)
  }

  function Pow2(n: nat): nat {
    Shl(1, n)
  }

  /** Bit `k` of the word `w`. */
  predicate Bit(w: nat, k: nat) {
    if k == 0 then w % 2 == 1 else Bit(w / 2, k - 1)
  }

  /** The C operator `|`. */
  function BitOr(a: nat, b: nat): (r: nat)
    decreases a
  {
    if a == 0 then b
    else (if a % 2 == 1 || b % 2 == 1 then 1 else 0) + 2 * BitOr(a / 2, b / 2)
  }

  lemma {:induction false} BitOrIsBitwise(a: nat, b: nat, k: nat)
    ensures Bit(BitOr(a, b), k) <==> Bit(a, k) || Bit(b, k)
    decreases a
  {
    if a == 0 {
      ZeroHasNoBits(k);
    } else if k > 0 {
      BitOrIsBitwise(a / 2, b / 2, k - 1);
    }
  }

  lemma {:induction false} ZeroHasNoBits(k: nat)
    ensures !Bit(0, k)
  {
    if k > 0 { ZeroHasNoBits(k - 1); }
  }

  /** Or-ing in a field above all bits of `a` is addition: how the varint loops assemble a value. */
  lemma {:induction false} BitOrAboveIsAddition(a: nat, x: nat, n: nat)
    requires a < Pow2(n)
    ensures BitOr(a, Shl(x, n)) == a + Shl(x, n)
    decreases a
  {
    if a != 0 {
      BitOrAboveIsAddition(a / 2, x, n - 1);
    }
  }

  lemma {:induction false} BitOfPow2(j: nat, k: nat)
    ensures Bit(Pow2(j), k) <==> j == k
  {
    if j == 0 {
      if k > 0 { ZeroHasNoBits(k - 1); }
    } else if k > 0 {
      BitOfPow2(j - 1, k - 1);
    }
  }

  lemma MaskStep(n: nat)
    ensures Pow2(0) == 1
    ensures n > 0 ==> (Pow2(n) - 1) / 2 == Pow2(n - 1) - 1 && (Pow2(n) - 1) % 2 == 1
  {
  }

  /** The mask of the `n` lowest bits. */
  lemma {:induction false} BitOfMask(n: nat, k: nat)
    ensures Bit(Pow2(n) - 1, k) <==> k < n
  {
    hide Shl;
    MaskStep(n);
    if n == 0 {
      ZeroHasNoBits(k);
    } else if k > 0 {
      BitOfMask(n - 1, k - 1);
    }
  }

  /** A word is determined by its bits. */
  lemma {:induction false} EqualBits(a: nat, b: nat)
    requires forall k: nat :: Bit(a, k) <==> Bit(b, k)
    ensures a == b
    decreases a + b
  {
    if a + b > 0 {
      assert Bit(a, 0) <==> Bit(b, 0);
      forall k: nat ensures Bit(a / 2, k) <==> Bit(b / 2, k) {
        assert Bit(a, k + 1) <==> Bit(b, k + 1);
      }
      EqualBits(a / 2, b / 2);
    }
  }

  lemma {:induction false} ShlAdds(v: nat, w: nat, n: nat)
    ensures Shl(v + w, n) == Shl(v, n) + Shl(w, n)
  {
    if n > 0 { ShlAdds(v, w, n - 1); }
  }

  lemma {:induction false} ShlTwice(v: nat, i: nat, j: nat)
    ensures Shl(Shl(v, i), j) == Shl(v, i + j)
    decreases j
  {
    if j > 0 { ShlTwice(v, i, j - 1); }
  }

  lemma {:induction false} ShlIsMultiplication(v: nat, n: nat)
    ensures Shl(v, n) == v * Pow2(n)
  {
    if n > 0 {
      ShlIsMultiplication(v, n - 1);
      assert 2 * (v * Pow2(n - 1)) == v * (2 * Pow2(n - 1));
    }
  }

  lemma {:induction false} ShlMonotone(v: nat, w: nat, i: nat, j: nat)
    requires v <= w && i <= j
    ensures Shl(v, i) <= Shl(w, j)
    decreases i + j
  {
    if i < j {
      ShlMonotone(v, w, i, j - 1);
    } else if i > 0 {
      ShlMonotone(v, w, i - 1, j - 1);
    }
  }

  /** How a quotient compares. */
  lemma QuotientBound(max: nat, n: nat, d: nat)
    requires n > 0
    ensures max / n < d <==> d * n > max
  {
    var q, r := max / n, max % n;
    assert max == q * n + r;
    if q < d {
      assert (q + 1) * n <= d * n;
    } else {
      assert d * n <= q * n;
    }
  }
}
