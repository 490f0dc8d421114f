/**
 * Unsigned 32-bit machine words, the width of `size_t` on the driver's
 * 32-bit targets, with the three C operators the firmware layout uses:
 * wrapping `+`, bitwise complement `~` and bitwise `&`.
 *
 * Words are natural numbers below 2^32; `&` is defined bit by bit, so the
 * mask idiom `(n + m) & ~m` is computed exactly as the hardware does it and
 * its arithmetic meaning is a theorem, not an assumption.
 */
module Word32 {

  const WORD_BITS: nat := 32
  const WORD_MODULUS: nat := 0x1_0000_0000

  /** A value of type size_t / uint32_t. */
  type Word = x: nat | x < WORD_MODULUS

  /** 2 to the power s. */
  function Pow2(s: nat): (r: nat)
    ensures r >= 1
  {
    if s == 0 then 1 else 2 * Pow2(s - 1)
  }

  lemma Pow2Word()
    ensures Pow2(WORD_BITS) == WORD_MODULUS
  {
    assert Pow2(4) == 16;
    assert Pow2(8) == 256 by { Pow2Add(4, 4); }
    assert Pow2(16) == 0x1_0000 by { Pow2Add(8, 8); }
    assert Pow2(32) == 0x1_0000_0000 by { Pow2Add(16, 16); }
  }

  lemma {:induction false} Pow2Add(s: nat, t: nat)
    ensures Pow2(s + t) == Pow2(s) * Pow2(t)
  {
    if t > 0 {
      Pow2Add(s, t - 1);
    }
  }

  lemma {:induction false} Pow2Monotone(s: nat, t: nat)
    requires s <= t
    ensures Pow2(s) <= Pow2(t)
  {
    if s < t {
      Pow2Monotone(s, t - 1);
    }
  }

  /** C's unsigned `a + b`: the sum modulo 2^32. */
  function Add(a: Word, b: Word): (r: Word)
    ensures a + b < WORD_MODULUS ==> r == a + b
    ensures a + b >= WORD_MODULUS ==> r == a + b - WORD_MODULUS && r < a && r < b
  {
    (a + b) % WORD_MODULUS
  }

  /** C's `~a`: every one of the 32 bits flipped. */
  function Not(a: Word): (r: Word)
    ensures And(a, r) == 0
    ensures a + r == WORD_MODULUS - 1
  {
    Pow2Word();
    AndComplement(a, WORD_BITS);
    WORD_MODULUS - 1 - a
  }

  /** C's `a & b`, bit by bit from the least significant bit up. */
  function And(a: nat, b: nat): (r: nat)
    ensures r <= a && r <= b
    decreases a
  {
    if a == 0 || b == 0 then 0
    else 2 * And(a / 2, b / 2) + (if a % 2 == 1 && b % 2 == 1 then 1 else 0)
  }

  /** A word and its complement within w bits share no set bit. */
  lemma {:induction false} AndComplement(a: nat, w: nat)
    requires a < Pow2(w)
    ensures And(a, Pow2(w) - 1 - a) == 0
  {
    if a != 0 && Pow2(w) - 1 - a != 0 {
      var c := Pow2(w) - 1 - a;
      assert w > 0;
      assert c / 2 == Pow2(w - 1) - 1 - a / 2;
      AndComplement(a / 2, w - 1);
    }
  }

  /** And with a block of w one-bits keeps every number below 2^w. */
  lemma {:induction false} AndAllOnes(x: nat, w: nat)
    requires x < Pow2(w)
    ensures And(x, Pow2(w) - 1) == x
  {
    if x != 0 {
      assert w > 0;
      assert (Pow2(w) - 1) / 2 == Pow2(w - 1) - 1;
      AndAllOnes(x / 2, w - 1);
    }
  }

  /** Remainder by an even divisor 2q peeled one bit at a time. */
  lemma ModDoubleStep(x: nat, q: nat)
    requires q > 0
    ensures x % (2 * q) == x % 2 + 2 * ((x / 2) % q)
  {
    var t, u := (x / 2) / q, (x / 2) % q;
    assert x / 2 == q * t + u;
    assert x == (2 * q) * t + (x % 2 + 2 * u);
    DivModUnique(x, 2 * q, t, x % 2 + 2 * u);
  }

  lemma DivModUnique(x: nat, d: nat, q: nat, m: nat)
    requires d > 0 && m < d && x == d * q + m
    ensures x % d == m && x / d == q
  {
    var q', m' := x / d, x % d;
    assert d * q' + m' == d * q + m;
    if q' > q {
      MulAtLeast(d, q' - q);
    } else if q' < q {
      MulAtLeast(d, q - q');
    }
  }

  /** An even mask drops bit 0 and shifts the rest down. */
  lemma AndEven(x: nat, h: nat)
    requires x > 0 && h > 0
    ensures And(x, 2 * h) == 2 * And(x / 2, h)
  {
    var m := 2 * h;
    assert m / 2 == h && m % 2 == 0;
    assert And(x, m) == 2 * And(x / 2, m / 2) + 0;
  }

  lemma MulAtLeast(d: nat, k: nat)
    requires k >= 1
    ensures d * k >= d
  {
  }

  /**
   * The mask whose bits s..w-1 are set (all of a w-bit word above the low s
   * bits) keeps x except for its remainder by 2^s.
   */
  predicate HighBitsKeep(x: nat, w: nat, s: nat)
  {
    Pow2(s) <= Pow2(w) && And(x, Pow2(w) - Pow2(s)) + x % Pow2(s) == x
  }

  /**
   * And with the mask whose bits s..w-1 are set clears exactly the low s
   * bits of a w-bit number: it rounds down to a multiple of 2^s.
   */
  lemma {:induction false} AndHighBits(x: nat, w: nat, s: nat)
    requires s <= w && x < Pow2(w)
    ensures HighBitsKeep(x, w, s)
  {
    if s == 0 {
      AndAllOnes(x, w);
    } else if s == w || x == 0 {
      Pow2Monotone(s, w);
      AndNothing(x, Pow2(w) - Pow2(s), Pow2(s));
    } else {
      HalfBelow(x, Pow2(w - 1));
      AndHighBits(x / 2, w - 1, s - 1);
      AndHighBitsLift(x, w, s);
    }
  }

  /** The inductive case of AndHighBits. */
  lemma AndHighBitsLift(x: nat, w: nat, s: nat)
    requires 0 < s < w && x != 0
    requires HighBitsKeep(x / 2, w - 1, s - 1)
    ensures HighBitsKeep(x, w, s)
  {
    var p, q := Pow2(w - 1), Pow2(s - 1);
    assert Pow2(w) == 2 * p && Pow2(s) == 2 * q;
    assert Pow2(w) - Pow2(s) == 2 * (p - q);
    AndHighBitsStep(x, p - q, q);
  }

  /** Nothing survives an empty mask or an empty word. */
  lemma AndNothing(x: nat, m: nat, q: nat)
    requires x < q && (x == 0 || m == 0)
    ensures And(x, m) + x % q == x
  {
    DivModUnique(x, q, 0, x);
  }

  lemma HalfBelow(x: nat, p: nat)
    requires x < 2 * p
    ensures x / 2 < p
  {
  }

  /**
   * One step of AndHighBits, with m the mask shifted right by one bit and
   * q = 2^(s-1): from the word shifted right by one bit back to the word.
   */
  lemma AndHighBitsStep(x: nat, m: nat, q: nat)
    requires q > 0 && x != 0
    requires And(x / 2, m) + (x / 2) % q == x / 2
    ensures And(x, 2 * m) + x % (2 * q) == x
  {
    var a, r := And(x / 2, m), (x / 2) % q;
    if m == 0 {
      assert And(x, 0) == 0 && a == 0;
    } else {
      AndEven(x, m);
    }
    assert And(x, 2 * m) == 2 * a;
    ModDoubleStep(x, q);
    assert x % (2 * q) == x % 2 + 2 * r;
  }
}
