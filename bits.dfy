/**
 Machine-word bit arithmetic on natural numbers.

 The codec works on Rust's `usize`, taken here as a 64-bit unsigned word.
 Values are modelled as `nat` below `WORD`; the bitwise operators `&`, `|`,
 `!` and `1 << k` are defined exactly, digit by digit in base 2, and
 `Bit(n, i)` tells whether bit `i` of `n` is set.
 */
module Bits {

  /** `1 << k`, i.e. 2 to the power k. */
  function Pow2(k: nat): (r: nat)
    ensures r >= 1
  {
    if k == 0 then 1 else 2 * Pow2(k - 1)
  }

  /** Number of bits of the machine word. */
  const WORD_BITS: nat := 64

  /** One more than the largest `usize`. */
  const WORD: nat := Pow2(WORD_BITS)

  /** Whether bit `i` of `n` is set, i.e. `n & (1 << i) != 0`. */
  predicate Bit(n: nat, i: nat)
  {
    if i == 0 then n % 2 == 1 else Bit(n / 2, i - 1)
  }

  /** Bitwise and, `x & y`. */
  function And(x: nat, y: nat): nat
    decreases x
  {
    if x == 0 || y == 0 then 0
    else 2 * And(x / 2, y / 2) + (if x % 2 == 1 && y % 2 == 1 then 1 else 0)
  }

  /** Bitwise or, `x | y`. */
  function Or(x: nat, y: nat): nat
    decreases x + y
  {
    if x == 0 && y == 0 then 0
    else 2 * Or(x / 2, y / 2) + (if x % 2 == 1 || y % 2 == 1 then 1 else 0)
  }

  /** Bitwise complement of a machine word, `!x`. */
  function Not(x: nat): nat
    requires x < WORD
  {
    WORD - 1 - x
  }

  lemma {:induction false} BitOfZero(j: nat)
    ensures !Bit(0, j)
  {
    if j > 0 { BitOfZero(j - 1); }
  }

  lemma {:induction false} BitOfAnd(x: nat, y: nat, j: nat)
    ensures Bit(And(x, y), j) == (Bit(x, j) && Bit(y, j))
    decreases j
  {
    if x == 0 || y == 0 {
      BitOfZero(j);
    } else if j > 0 {
      BitOfAnd(x / 2, y / 2, j - 1);
    }
  }

  lemma {:induction false} BitOfOr(x: nat, y: nat, j: nat)
    ensures Bit(Or(x, y), j) == (Bit(x, j) || Bit(y, j))
    decreases j
  {
    if x == 0 && y == 0 {
      BitOfZero(j);
    } else if j > 0 {
      BitOfOr(x / 2, y / 2, j - 1);
    }
  }

  lemma {:induction false} BitOfPow2(k: nat, j: nat)
    ensures Bit(Pow2(k), j) == (j == k)
    decreases j
  {
    if j == 0 {
      if k > 0 { assert Pow2(k) == 2 * Pow2(k - 1); }
    } else if k == 0 {
      BitOfZero(j - 1);
    } else {
      BitOfPow2(k - 1, j - 1);
    }
  }

  /** The bits of `2^k - 1 - x` are the first `k` bits of `x`, flipped. */
  lemma {:induction false} BitOfComplement(k: nat, x: nat, j: nat)
    requires x < Pow2(k)
    ensures Bit(Pow2(k) - 1 - x, j) == (j < k && !Bit(x, j))
    decreases k
  {
    if k == 0 {
      BitOfZero(j);
    } else {
      var p := Pow2(k - 1);
      var y := Pow2(k) - 1 - x;
      assert y % 2 == 1 - x % 2 && y / 2 == p - 1 - x / 2;
      if j > 0 {
        BitOfComplement(k - 1, x / 2, j - 1);
      }
    }
  }

  /** The low mask `(1 << k) - 1` has exactly the bits below `k`. */
  lemma BitOfLowMask(k: nat, j: nat)
    ensures Bit(Pow2(k) - 1, j) == (j < k)
  {
    BitOfComplement(k, 0, j);
    BitOfZero(j);
  }

  lemma BitOfNot(x: nat, j: nat)
    requires x < WORD
    ensures Bit(Not(x), j) == (j < WORD_BITS && !Bit(x, j))
  {
    BitOfComplement(WORD_BITS, x, j);
  }

  /** A number below `2^k` has no bit at position `k` or above. */
  lemma {:induction false} BitAbove(x: nat, k: nat, j: nat)
    requires x < Pow2(k) && k <= j
    ensures !Bit(x, j)
    decreases k
  {
    if k == 0 {
      BitOfZero(j);
    } else {
      BitAbove(x / 2, k - 1, j - 1);
    }
  }

  /** Two numbers below `2^k` with the same first `k` bits are equal. */
  lemma {:induction false} BitsEqual(x: nat, y: nat, k: nat)
    requires x < Pow2(k) && y < Pow2(k)
    requires forall j: nat :: j < k ==> Bit(x, j) == Bit(y, j)
    ensures x == y
    decreases k
  {
    if k > 0 {
      forall j: nat | j < k - 1
        ensures Bit(x / 2, j) == Bit(y / 2, j)
      {
        assert Bit(x, j + 1) == Bit(y, j + 1);
      }
      BitsEqual(x / 2, y / 2, k - 1);
      assert Bit(x, 0) == Bit(y, 0);
    }
  }

  lemma {:induction false} Pow2Monotone(a: nat, b: nat)
    requires a <= b
    ensures Pow2(a) <= Pow2(b)
    decreases b
  {
    if a < b { Pow2Monotone(a, b - 1); }
  }

  lemma Pow2StrictlyMonotone(a: nat, b: nat)
    requires a < b
    ensures Pow2(a) < Pow2(b)
  {
    Pow2Monotone(a, b - 1);
  }

  lemma {:induction false} Pow2Add(a: nat, b: nat)
    ensures Pow2(a + b) == Pow2(a) * Pow2(b)
    decreases a
  {
    if a > 0 {
      Pow2Add(a - 1, b);
      assert Pow2(a + b) == 2 * Pow2(a - 1 + b);
    }
  }

  lemma {:induction false} OrBound(x: nat, y: nat, k: nat)
    requires x < Pow2(k) && y < Pow2(k)
    ensures Or(x, y) < Pow2(k)
    decreases k
  {
    if k > 0 && !(x == 0 && y == 0) {
      OrBound(x / 2, y / 2, k - 1);
    }
  }

  /** An or of two words is a word. */
  lemma OrInWord(x: nat, y: nat)
    ensures x < WORD && y < WORD ==> Or(x, y) < WORD
  {
    if x < WORD && y < WORD {
      OrBound(x, y, WORD_BITS);
    }
  }

  lemma {:induction false} AndBound(x: nat, y: nat)
    ensures And(x, y) <= x && And(x, y) <= y
    decreases x
  {
    if x != 0 && y != 0 {
      AndBound(x / 2, y / 2);
    }
  }

  /** `n & (1 << i) != 0` tests bit `i`. */
  lemma {:induction false} AndPow2(n: nat, i: nat)
    ensures (And(n, Pow2(i)) != 0) == Bit(n, i)
    ensures And(n, Pow2(i)) == if Bit(n, i) then Pow2(i) else 0
    decreases i
  {
    if n == 0 {
      BitOfZero(i);
    } else if i > 0 {
      AndPow2(n / 2, i - 1);
      assert Pow2(i) == 2 * Pow2(i - 1);
    }
  }

  lemma {:induction false} OrZero(y: nat)
    ensures Or(0, y) == y
    decreases y
  {
    if y != 0 { OrZero(y / 2); }
  }
}
