/**
 * Rounding a length up to a power-of-two boundary.
 *
 * The layout code writes this as the C bit-mask idiom `(n + mask) & ~mask`
 * with `mask = 2^s - 1` (511 for the CLM boundary, 63 for the NVRAM length).
 * AlignUp is the arithmetic it stands for; the lemmas here show that the
 * two agree whenever `n + mask` does not wrap around, and what the idiom
 * yields when it does.
 */
module Alignment {
  import opened Word32

  predicate IsMultiple(m: nat, k: nat)
    requires k > 0
  {
    m % k == 0
  }

  /** The smallest multiple of k that is not below n, in unbounded integers. */
  function AlignUp(n: nat, k: nat): (r: nat)
    requires k > 0
  {
    ((n + k - 1) / k) * k
  }

  /**
   * AlignUp(n, k) is a multiple of k, lies in [n, n + k), is no larger than
   * any multiple of k at or above n, and leaves an already aligned n alone.
   */
  lemma AlignUpIsLeastMultiple(n: nat, k: nat)
    requires k > 0
    ensures IsMultiple(AlignUp(n, k), k)
    ensures n <= AlignUp(n, k) < n + k
    ensures forall m: nat :: IsMultiple(m, k) && n <= m ==> AlignUp(n, k) <= m
    ensures IsMultiple(n, k) ==> AlignUp(n, k) == n
  {
    var b := n + k - 1;
    var q := b / k;
    var r := AlignUp(n, k);
    assert r == k * q;
    assert b == r + b % k;
    DivModUnique(r, k, q, 0);
    forall m: nat | IsMultiple(m, k) && n <= m
      ensures r <= m
    {
      var j := m / k;
      DivModUnique(m, k, j, 0);
      if j < q {
        MulMonotone(k, j, q - 1);
        MulPred(k, q);
      }
      MulMonotone(k, q, j);
    }
  }

  lemma DivMod(b: nat, k: nat)
    requires k > 0
    ensures (b / k) * k == b - b % k
  {
  }

  lemma MulPred(k: nat, q: nat)
    requires q > 0
    ensures k * (q - 1) == k * q - k
  {
  }

  lemma MulMonotone(k: nat, a: nat, b: nat)
    requires a <= b
    ensures k * a <= k * b
  {
  }

  /**
   * The C idiom `(n + mask) & ~mask` on 32-bit words. The result never
   * exceeds the wrapped sum nor `~mask`; what it means arithmetically is
   * RoundUpByMaskIsAlignUp and RoundUpByMaskWraps.
   */
  function RoundUpByMask(n: Word, mask: Word): (r: Word)
    ensures r <= Add(n, mask)
    ensures r <= Not(mask)
  {
    And(Add(n, mask), Not(mask))
  }

  /** Rounding down by clearing the low s bits of a word. */
  lemma ClearLowBits(b: Word, mask: Word, s: nat)
    requires s <= WORD_BITS && mask + 1 == Pow2(s)
    ensures And(b, Not(mask)) == b - b % (mask + 1)
  {
    Pow2Word();
    assert Not(mask) == Pow2(WORD_BITS) - Pow2(s);
    AndHighBits(b, WORD_BITS, s);
  }

  /**
   * When n + mask fits in a word, the mask idiom computes exactly the
   * least multiple of 2^s that is not below n.
   */
  lemma RoundUpByMaskIsAlignUp(n: Word, mask: Word, s: nat)
    requires s <= WORD_BITS && mask + 1 == Pow2(s)
    requires n + mask < WORD_MODULUS
    ensures RoundUpByMask(n, mask) == AlignUp(n, Pow2(s))
  {
    var k := mask + 1;
    var b := Add(n, mask);
    assert b == n + k - 1;
    ClearLowBits(b, mask, s);
    DivMod(b, k);
    assert AlignUp(n, k) == (b / k) * k;
  }

  /**
   * When n + mask wraps past 2^32, the sum left in the word is smaller than
   * 2^s and the idiom collapses to 0, which lies below n.
   */
  lemma RoundUpByMaskWraps(n: Word, mask: Word, s: nat)
    requires s <= WORD_BITS && mask + 1 == Pow2(s)
    requires n + mask >= WORD_MODULUS
    ensures RoundUpByMask(n, mask) == 0 < n
  {
    var b := Add(n, mask);
    ClearLowBits(b, mask, s);
    DivModUnique(b, mask + 1, 0, b);
  }
}
