/**
 The `UrlEncoder` codec of src/lib.rs: a reversible map from machine words to
 short strings in two stages.

 1. A bit permutation of the low `block` bits, driven by a table of bit
    positions (`encode`, `_encode`, `decode`, `_decode`).
 2. A base-`n` numeral over a custom alphabet of `n` symbols, left-padded with
    the alphabet's first symbol (`enbase`, `_enbase`, `debase`).

 The block size is the length of the table. Rust's `usize` is a 64-bit word:
 a value of that type is a `nat` below `WORD`. Where the Rust code would
 overflow or panic, the member has a precondition instead.
 */
module ShortUrl {
  import opened Bits
  import opened ShortErrors

  datatype Option<T> = None | Some(value: T)

  /** The codec's immutable configuration (src/lib.rs:11-15). */
  datatype UrlEncoder = UrlEncoder(alphabet: string, mask: nat, mapping: seq<nat>)

  /** The default configuration (src/lib.rs:7-9). */
  const DEFAULT_ALPHABET: string := "mn6j2c4rv8bpygw95z7hsdaetxuk3fq"
  const DEFAULT_BLOCK_SIZE: nat := 24
  const MIN_LENGTH: nat := 5

  // ----------------------------------------------------------------------
  // Configurations
  // ----------------------------------------------------------------------

  /** The fields fit their machine types and no shift `1 << k` of the bit
      stage overflows: every table entry and every table index is below 64. */
  predicate WellFormed(e: UrlEncoder)
  {
    && e.mask < WORD
    && |e.mapping| <= WORD_BITS
    && forall k :: 0 <= k < |e.mapping| ==> e.mapping[k] < WORD_BITS
  }

  /** `m` lists each bit position `0 .. |m|-1` exactly once. */
  predicate IsPermutation(m: seq<nat>)
  {
    && (forall k :: 0 <= k < |m| ==> m[k] < |m|)
    && (forall j, k :: 0 <= j < k < |m| ==> m[j] != m[k])
    && (forall v: nat :: v < |m| ==> v in m)
  }

  /** The bit stage as `new` sets it up: the table is a permutation of the
      block's bit positions and the mask covers exactly those bits. */
  predicate ValidTable(e: UrlEncoder)
  {
    && WellFormed(e)
    && |e.mapping| < WORD_BITS
    && e.mask == Pow2(|e.mapping|) - 1
    && IsPermutation(e.mapping)
  }

  predicate Distinct(a: string)
  {
    forall j, k :: 0 <= j < k < |a| ==> a[j] != a[k]
  }

  /** Two strings without repeats and with no symbol in common concatenate
      to a string without repeats. */
  lemma DistinctConcat(x: string, y: string)
    requires Distinct(x) && Distinct(y)
    requires forall j, k :: 0 <= j < |x| && 0 <= k < |y| ==> x[j] != y[k]
    ensures Distinct(x + y)
  {
    var z := x + y;
    forall j, k | 0 <= j < k < |z|
      ensures z[j] != z[k]
    {
      if k < |x| {
        assert z[j] == x[j] && z[k] == x[k];
      } else if j < |x| {
        assert z[j] == x[j] && z[k] == y[k - |x|];
      } else {
        assert z[j] == y[j - |x|] && z[k] == y[k - |x|];
      }
    }
  }

  /** An alphabet usable as the digits of a base of at least 2. */
  predicate ValidAlphabet(a: string)
  {
    |a| >= 2 && Distinct(a)
  }

  predicate Valid(e: UrlEncoder)
  {
    ValidTable(e) && ValidAlphabet(e.alphabet)
  }

  /** `new` (src/lib.rs:26-32): mask `(1 << block) - 1` and table
      `[0, 1, ..., block-1]`. */
  function New(alphabet: string, block: nat): (e: UrlEncoder)
    requires block < WORD_BITS
    ensures e.alphabet == alphabet && |e.mapping| == block
    ensures IdentityTable(e)
  {
    Pow2Monotone(block, WORD_BITS);
    IdentityIsPermutation(block);
    UrlEncoder(alphabet, Pow2(block) - 1, Identity(block))
  }

  /** The list `[0, 1, ..., block-1]`. */
  function Identity(block: nat): (m: seq<nat>)
    ensures |m| == block && forall i :: 0 <= i < block ==> m[i] == i
  {
    seq(block, i requires 0 <= i => i)
  }

  lemma IdentityIsPermutation(block: nat)
    ensures IsPermutation(Identity(block))
  {
    var m := Identity(block);
    forall v: nat | v < block
      ensures v in m
    {
      assert m[v] == v;
    }
  }

  // ----------------------------------------------------------------------
  // Stage 1: the bit permutation
  // ----------------------------------------------------------------------

  /** The table entry that `mapping.iter().rev().enumerate()` pairs with
      index `i`. */
  function Target(m: seq<nat>, i: nat): nat
    requires i < |m|
  {
    m[|m| - 1 - i]
  }

  /** What `_encode` has accumulated after its first `k` steps on `n`: for
      each index `i < k` whose bit is set in `n`, bit `Target(m, i)` is set. */
  function Permuted(m: seq<nat>, n: nat, k: nat): (r: nat)
    requires k <= |m|
    ensures (forall j :: 0 <= j < |m| ==> m[j] < WORD_BITS) ==> r < WORD
  {
    if k == 0 then 0
    else
      var p := Permuted(m, n, k - 1);
      if Bit(n, k - 1) then
        TargetInWord(m, k - 1);
        OrInWord(p, Pow2(Target(m, k - 1)));
        Or(p, Pow2(Target(m, k - 1)))
      else p
  }

  /** `1 << b` is a word when every table entry is below 64. */
  lemma TargetInWord(m: seq<nat>, i: nat)
    requires i < |m|
    ensures (forall j :: 0 <= j < |m| ==> m[j] < WORD_BITS) ==> Pow2(Target(m, i)) < WORD
  {
    if forall j :: 0 <= j < |m| ==> m[j] < WORD_BITS {
      Pow2StrictlyMonotone(Target(m, i), WORD_BITS);
    }
  }

  /** What `_decode` has accumulated after its first `k` steps on `n`: for
      each index `i < k` such that bit `Target(m, i)` is set in `n`, bit `i`
      is set. */
  function Unpermuted(m: seq<nat>, n: nat, k: nat): (r: nat)
    requires k <= |m|
    ensures r < Pow2(k)
  {
    if k == 0 then 0
    else
      var p := Unpermuted(m, n, k - 1);
      Pow2StrictlyMonotone(k - 1, k);
      if Bit(n, Target(m, k - 1)) then
        OrBound(p, Pow2(k - 1), k);
        Or(p, Pow2(k - 1))
      else p
  }

  /** `_encode` (src/lib.rs:59-69). */
  method EncodeLow(e: UrlEncoder, n: nat) returns (result: nat)
    requires WellFormed(e) && n < WORD
    ensures result == Permuted(e.mapping, n, |e.mapping|)
    ensures result < WORD
  {
    result := 0;
    var i := 0;
    while i < |e.mapping|
      invariant i <= |e.mapping|
      invariant result == Permuted(e.mapping, n, i)
    {
      var b := e.mapping[|e.mapping| - 1 - i];
      AndPow2(n, i);
      if And(n, Pow2(i)) != 0 {
        result := Or(result, Pow2(b));
      }
      i := i + 1;
    }
  }

  /** `_decode` (src/lib.rs:73-83). */
  method DecodeLow(e: UrlEncoder, n: nat) returns (result: nat)
    requires WellFormed(e) && n < WORD
    ensures result == Unpermuted(e.mapping, n, |e.mapping|)
    ensures result < WORD
  {
    result := 0;
    var i := 0;
    while i < |e.mapping|
      invariant i <= |e.mapping|
      invariant result == Unpermuted(e.mapping, n, i)
    {
      var b := e.mapping[|e.mapping| - 1 - i];
      AndPow2(n, b);
      if And(n, Pow2(b)) != 0 {
        result := Or(result, Pow2(i));
      }
      i := i + 1;
    }
    Pow2Monotone(|e.mapping|, WORD_BITS);
  }

  /** `encode` (src/lib.rs:57): the bits outside the mask are kept, the bits
      inside it are permuted by `_encode`. */
  function Encode(e: UrlEncoder, n: nat): (r: nat)
    requires WellFormed(e) && n < WORD
    ensures r < WORD
  {
    var high := And(n, Not(e.mask));
    var low := Permuted(e.mapping, And(n, e.mask), |e.mapping|);
    AndBound(n, Not(e.mask));
    OrBound(high, low, WORD_BITS);
    Or(high, low)
  }

  /** `decode` (src/lib.rs:71). */
  function Decode(e: UrlEncoder, n: nat): (r: nat)
    requires WellFormed(e) && n < WORD
    ensures r < WORD
  {
    var high := And(n, Not(e.mask));
    var low := Unpermuted(e.mapping, And(n, e.mask), |e.mapping|);
    AndBound(n, Not(e.mask));
    Pow2Monotone(|e.mapping|, WORD_BITS);
    OrBound(high, low, WORD_BITS);
    Or(high, low)
  }

  lemma {:induction false} PermutedBound(m: seq<nat>, n: nat, k: nat, b: nat)
    requires k <= |m|
    requires forall j :: 0 <= j < |m| ==> m[j] < b
    ensures Permuted(m, n, k) < Pow2(b)
  {
    if k > 0 {
      PermutedBound(m, n, k - 1, b);
      if Bit(n, k - 1) {
        Pow2StrictlyMonotone(Target(m, k - 1), b);
        OrBound(Permuted(m, n, k - 1), Pow2(Target(m, k - 1)), b);
      }
    }
  }

  /** Bit `j` of `_encode`'s result is set exactly when some index `i` paired
      with position `j` has its bit set in the input. */
  lemma {:induction false} PermutedBit(m: seq<nat>, n: nat, k: nat, j: nat)
    requires k <= |m|
    ensures Bit(Permuted(m, n, k), j) <==> exists i: nat :: i < k && Target(m, i) == j && Bit(n, i)
  {
    if k == 0 {
      BitOfZero(j);
    } else {
      PermutedBit(m, n, k - 1, j);
      if Bit(n, k - 1) {
        BitOfOr(Permuted(m, n, k - 1), Pow2(Target(m, k - 1)), j);
        BitOfPow2(Target(m, k - 1), j);
      }
    }
  }

  /** Bit `j` of `_decode`'s result is bit `Target(m, j)` of the input. */
  lemma {:induction false} UnpermutedBit(m: seq<nat>, n: nat, k: nat, j: nat)
    requires k <= |m|
    ensures Bit(Unpermuted(m, n, k), j) == (j < k && Bit(n, Target(m, j)))
  {
    if k == 0 {
      BitOfZero(j);
    } else {
      UnpermutedBit(m, n, k - 1, j);
      if Bit(n, Target(m, k - 1)) {
        BitOfOr(Unpermuted(m, n, k - 1), Pow2(k - 1), j);
        BitOfPow2(k - 1, j);
      }
    }
  }

  /** With a permutation table, `_encode` moves bit `i` to bit `Target(m, i)`. */
  lemma PermutedAt(m: seq<nat>, n: nat, i: nat)
    requires IsPermutation(m) && i < |m|
    ensures Bit(Permuted(m, n, |m|), Target(m, i)) == Bit(n, i)
  {
    PermutedBit(m, n, |m|, Target(m, i));
    forall i': nat | i' < |m| && Target(m, i') == Target(m, i)
      ensures i' == i
    {
    }
  }

  /** `_decode(_encode(v)) == v` for every value of the block, and
      `_encode` keeps values of the block inside the block (src/lib.rs:59-83). */
  lemma LowRoundTrip(m: seq<nat>, v: nat)
    requires IsPermutation(m) && v < Pow2(|m|)
    ensures Permuted(m, v, |m|) < Pow2(|m|)
    ensures Unpermuted(m, Permuted(m, v, |m|), |m|) == v
  {
    var p := Permuted(m, v, |m|);
    PermutedBound(m, v, |m|, |m|);
    forall j: nat | j < |m|
      ensures Bit(Unpermuted(m, p, |m|), j) == Bit(v, j)
    {
      UnpermutedBit(m, p, |m|, j);
      PermutedAt(m, v, j);
    }
    BitsEqual(Unpermuted(m, p, |m|), v, |m|);
  }

  /** What the masks keep of `n`: `n & !mask` its bits from the block size
      up to the word size, `n & mask` those below the block size. */
  lemma SplitBits(e: UrlEncoder, n: nat, j: nat)
    requires ValidTable(e) && n < WORD
    ensures Bit(And(n, Not(e.mask)), j) == (|e.mapping| <= j < WORD_BITS && Bit(n, j))
    ensures Bit(And(n, e.mask), j) == (j < |e.mapping| && Bit(n, j))
  {
    BitOfAnd(n, Not(e.mask), j);
    BitOfNot(e.mask, j);
    BitOfLowMask(|e.mapping|, j);
    BitOfAnd(n, e.mask, j);
  }

  /** Bit `j` of `encode(n)`: from the high part or from `_encode`. */
  lemma EncodeBit(e: UrlEncoder, n: nat, j: nat)
    requires ValidTable(e) && n < WORD
    ensures Bit(Encode(e, n), j) ==
      ((|e.mapping| <= j < WORD_BITS && Bit(n, j)) || Bit(Permuted(e.mapping, And(n, e.mask), |e.mapping|), j))
  {
    BitOfOr(And(n, Not(e.mask)), Permuted(e.mapping, And(n, e.mask), |e.mapping|), j);
    SplitBits(e, n, j);
  }

  /** Bit `j` of `decode(n)`: from the high part or from `_decode`. */
  lemma DecodeBit(e: UrlEncoder, n: nat, j: nat)
    requires ValidTable(e) && n < WORD
    ensures Bit(Decode(e, n), j) ==
      ((|e.mapping| <= j < WORD_BITS && Bit(n, j)) || Bit(Unpermuted(e.mapping, And(n, e.mask), |e.mapping|), j))
  {
    BitOfOr(And(n, Not(e.mask)), Unpermuted(e.mapping, And(n, e.mask), |e.mapping|), j);
    SplitBits(e, n, j);
  }

  /** `encode` and `decode` pass every bit at or above the block through
      unchanged (src/lib.rs:57, src/lib.rs:71). */
  lemma HighBitsPassThrough(e: UrlEncoder, n: nat, j: nat)
    requires ValidTable(e) && n < WORD && |e.mapping| <= j
    ensures Bit(Encode(e, n), j) == Bit(n, j)
    ensures Bit(Decode(e, n), j) == Bit(n, j)
  {
    var m := e.mapping;
    var low := And(n, e.mask);
    EncodeBit(e, n, j);
    DecodeBit(e, n, j);
    PermutedBit(m, low, |m|, j);
    UnpermutedBit(m, low, |m|, j);
    if j >= WORD_BITS {
      BitAbove(n, WORD_BITS, j);
    }
  }

  /** `encode` sends bit `i` of the block to bit `Target(m, i)`. */
  lemma EncodeMovesBit(e: UrlEncoder, n: nat, i: nat)
    requires ValidTable(e) && n < WORD && i < |e.mapping|
    ensures Bit(Encode(e, n), Target(e.mapping, i)) == Bit(n, i)
  {
    var m := e.mapping;
    var t := Target(m, i);
    assert t < |m|;
    EncodeBit(e, n, t);
    PermutedAt(m, And(n, e.mask), i);
    SplitBits(e, n, i);
  }

  /** `decode` fills bit `i` of the block from bit `Target(m, i)`. */
  lemma DecodeMovesBit(e: UrlEncoder, n: nat, i: nat)
    requires ValidTable(e) && n < WORD && i < |e.mapping|
    ensures Bit(Decode(e, n), i) == Bit(n, Target(e.mapping, i))
  {
    var m := e.mapping;
    var t := Target(m, i);
    assert t < |m|;
    DecodeBit(e, n, i);
    UnpermutedBit(m, And(n, e.mask), |m|, i);
    SplitBits(e, n, t);
  }

  /** `decode(encode(n)) == n` for every word `n`. */
  lemma DecodeEncode(e: UrlEncoder, n: nat)
    requires ValidTable(e) && n < WORD
    ensures Decode(e, Encode(e, n)) == n
  {
    var y := Encode(e, n);
    forall j: nat | j < WORD_BITS
      ensures Bit(Decode(e, y), j) == Bit(n, j)
    {
      if j < |e.mapping| {
        DecodeMovesBit(e, y, j);
        EncodeMovesBit(e, n, j);
      } else {
        HighBitsPassThrough(e, y, j);
        HighBitsPassThrough(e, n, j);
      }
    }
    BitsEqual(Decode(e, y), n, WORD_BITS);
  }

  /** `encode(decode(n)) == n` for every word `n`: with a permutation table,
      `encode` is a bijection on words and `decode` is its inverse. */
  lemma EncodeDecode(e: UrlEncoder, n: nat)
    requires ValidTable(e) && n < WORD
    ensures Encode(e, Decode(e, n)) == n
  {
    var m := e.mapping;
    var y := Decode(e, n);
    forall j: nat | j < WORD_BITS
      ensures Bit(Encode(e, y), j) == Bit(n, j)
    {
      if j < |m| {
        assert j in m;
        var k :| 0 <= k < |m| && m[k] == j;
        var i := |m| - 1 - k;
        assert Target(m, i) == j;
        EncodeMovesBit(e, y, i);
        DecodeMovesBit(e, n, i);
      } else {
        HighBitsPassThrough(e, y, j);
        HighBitsPassThrough(e, n, j);
      }
    }
    BitsEqual(Encode(e, y), n, WORD_BITS);
  }

  /** A valid encoder whose table is the identity, as `new` builds it. */
  predicate IdentityTable(e: UrlEncoder)
  {
    ValidTable(e) && forall k :: 0 <= k < |e.mapping| ==> e.mapping[k] == k
  }

  /** An identity table makes `encode` reverse the order of the low bits:
      `Target(m, i) == |m| - 1 - i`. */
  lemma IdentityReversesBits(e: UrlEncoder, n: nat, i: nat)
    requires IdentityTable(e) && n < WORD && i < |e.mapping|
    ensures Bit(Encode(e, n), |e.mapping| - 1 - i) == Bit(n, i)
  {
    EncodeMovesBit(e, n, i);
  }

  lemma IdentityEncodesPow2(e: UrlEncoder, i: nat)
    requires IdentityTable(e) && i < |e.mapping|
    ensures Pow2(i) < WORD
    ensures Encode(e, Pow2(i)) == Pow2(|e.mapping| - 1 - i)
  {
    var b := |e.mapping|;
    var n, r := Pow2(i), Pow2(b - 1 - i);
    Pow2StrictlyMonotone(i, WORD_BITS);
    Pow2StrictlyMonotone(b - 1 - i, WORD_BITS);
    forall j: nat | j < WORD_BITS
      ensures Bit(Encode(e, n), j) == Bit(r, j)
    {
      BitOfPow2(b - 1 - i, j);
      IdentityEncodesPow2Bit(e, i, j);
    }
    BitsEqual(Encode(e, n), r, WORD_BITS);
  }

  /** Bit `j` of `encode(1 << i)` is set iff `j` is the reversed position. */
  lemma IdentityEncodesPow2Bit(e: UrlEncoder, i: nat, j: nat)
    requires IdentityTable(e) && i < |e.mapping| && Pow2(i) < WORD
    ensures Bit(Encode(e, Pow2(i)), j) == (j == |e.mapping| - 1 - i)
  {
    var b := |e.mapping|;
    if j < b {
      var t := b - 1 - j;
      assert Target(e.mapping, t) == j;
      EncodeMovesBit(e, Pow2(i), t);
      BitOfPow2(i, t);
    } else {
      HighBitsPassThrough(e, Pow2(i), j);
      BitOfPow2(i, j);
    }
  }

  lemma IdentityDecodeIsEncode(e: UrlEncoder, n: nat)
    requires IdentityTable(e) && n < WORD
    ensures Decode(e, n) == Encode(e, n)
  {
    var b := |e.mapping|;
    forall j: nat | j < WORD_BITS
      ensures Bit(Decode(e, n), j) == Bit(Encode(e, n), j)
    {
      if j < b {
        var t := b - 1 - j;
        assert Target(e.mapping, j) == t && Target(e.mapping, t) == j;
        DecodeMovesBit(e, n, j);
        EncodeMovesBit(e, n, t);
      } else {
        HighBitsPassThrough(e, n, j);
      }
    }
    BitsEqual(Decode(e, n), Encode(e, n), WORD_BITS);
  }

  /** The table built by `new` makes `encode` reverse the order of the low
      `block` bits: bit `i` goes to bit `block - 1 - i` (src/lib.rs:30,
      src/lib.rs:62-65). */
  lemma NewReversesBits(alphabet: string, block: nat, n: nat, i: nat)
    requires block < WORD_BITS && n < WORD && i < block
    ensures Bit(Encode(New(alphabet, block), n), block - 1 - i) == Bit(n, i)
  {
    IdentityReversesBits(New(alphabet, block), n, i);
  }

  /** Hence `encode(1 << i) == 1 << (block - 1 - i)` with that table. */
  lemma NewEncodesPow2(alphabet: string, block: nat, i: nat)
    requires block < WORD_BITS && i < block
    ensures Pow2(i) < WORD
    ensures Encode(New(alphabet, block), Pow2(i)) == Pow2(block - 1 - i)
  {
    IdentityEncodesPow2(New(alphabet, block), i);
  }

  /** In particular `encode(1) == 1 << (block - 1)`. */
  lemma NewEncodesOne(alphabet: string, block: nat)
    requires 1 <= block < WORD_BITS
    ensures Encode(New(alphabet, block), 1) == Pow2(block - 1)
  {
    NewEncodesPow2(alphabet, block, 0);
  }

  /** Bit reversal undoes itself: with the table built by `new`, `decode`
      computes the same function as `encode`. */
  lemma NewDecodeIsEncode(alphabet: string, block: nat, n: nat)
    requires block < WORD_BITS && n < WORD
    ensures Decode(New(alphabet, block), n) == Encode(New(alphabet, block), n)
  {
    IdentityDecodeIsEncode(New(alphabet, block), n);
  }

  lemma {:induction false} PermutedZero(m: seq<nat>, k: nat)
    requires k <= |m|
    ensures Permuted(m, 0, k) == 0
  {
    if k > 0 {
      PermutedZero(m, k - 1);
      BitOfZero(k - 1);
    }
  }

  /** Values inside the block stay inside it: there `encode` is `_encode`. */
  lemma EncodeBelowBlock(e: UrlEncoder, n: nat)
    requires ValidTable(e) && n < Pow2(|e.mapping|)
    ensures n < WORD
    ensures Encode(e, n) == Permuted(e.mapping, n, |e.mapping|)
    ensures Encode(e, n) < Pow2(|e.mapping|)
  {
    var b := |e.mapping|;
    Pow2Monotone(b, WORD_BITS);
    AndBound(n, e.mask);
    forall j: nat | j < b
      ensures Bit(And(n, e.mask), j) == Bit(n, j)
    {
      BitOfAnd(n, e.mask, j);
      BitOfLowMask(b, j);
    }
    BitsEqual(And(n, e.mask), n, b);
    AndBound(n, Not(e.mask));
    forall j: nat | j < WORD_BITS
      ensures Bit(And(n, Not(e.mask)), j) == Bit(0, j)
    {
      BitOfAnd(n, Not(e.mask), j);
      BitOfNot(e.mask, j);
      BitOfLowMask(b, j);
      BitOfZero(j);
      if j >= b { BitAbove(n, b, j); }
    }
    BitsEqual(And(n, Not(e.mask)), 0, WORD_BITS);
    OrZero(Permuted(e.mapping, n, b));
    PermutedBound(e.mapping, n, b, b);
  }

  // ----------------------------------------------------------------------
  // Stage 2: base-n numerals over the alphabet
  // ----------------------------------------------------------------------

  /** `alphabet.iter().position(|&x| x == c)`: the first index holding `c`. */
  function Position(a: string, c: char): (r: Option<nat>)
    ensures r.None? <==> c !in a
    ensures r.Some? ==> r.value < |a| && a[r.value] == c
    ensures r.Some? ==> forall k :: 0 <= k < r.value ==> a[k] != c
  {
    if a == [] then None
    else if a[0] == c then Some(0)
    else
      assert a == [a[0]] + a[1..];
      match Position(a[1..], c)
      case None => None
      case Some(k) => Some(k + 1)
  }

  /** True when every symbol of `s` is in the alphabet. */
  predicate AllIn(a: string, s: string)
  {
    forall k :: 0 <= k < |s| ==> s[k] in a
  }

  /** The digit value of an alphabet symbol. */
  function Digit(a: string, c: char): nat
    requires c in a
  {
    Position(a, c).value
  }

  /** `b.pow(e)`. */
  function Pow(b: nat, e: nat): nat
  {
    if e == 0 then 1 else b * Pow(b, e - 1)
  }

  /** The number `s` denotes: the sum of `Digit(c) * n^i` over its symbols
      `c`, with `i` counted from the right. */
  function Value(a: string, s: string): (v: nat)
    requires AllIn(a, s)
    ensures v < Pow(|a|, |s|)
  {
    if s == [] then 0
    else
      var u := s[1..];
      assert AllIn(a, u) by {
        forall k | 0 <= k < |u| ensures u[k] in a { assert u[k] == s[k + 1]; }
      }
      var d, p := Digit(a, s[0]), Pow(|a|, |u|);
      DigitStep(d, |a|, p, Value(a, u));
      assert Pow(|a|, |s|) == |a| * p;
      d * p + Value(a, u)
  }

  /** The base-`n` numeral of `x`, most significant symbol first; this is
      what `_enbase` returns. */
  function Numeral(a: string, x: nat): (s: string)
    requires |a| >= 2 || x < |a|
    ensures |s| >= 1
    ensures AllIn(a, s)
    decreases x
  {
    if x < |a| then [a[x]]
    else Numeral(a, x / |a|) + [a[x % |a|]]
  }

  function Repeat(c: char, k: nat): (s: string)
    ensures |s| == k && forall i :: 0 <= i < k ==> s[i] == c
  {
    seq(k, _ => c)
  }

  function Max(x: nat, y: nat): nat
  {
    if x < y then y else x
  }

  /** `_enbase` (src/lib.rs:99-116). */
  method EnbaseDigits(a: string, x: nat) returns (s: string)
    requires |a| >= 2 || x < |a|
    ensures s == Numeral(a, x)
  {
    var n := |a|;
    if x < n {
      return [a[x]];
    }
    var rt: string := [];
    var xx: nat := x;
    while xx >= n
      invariant Numeral(a, x) == Numeral(a, xx) + rt
      decreases xx
    {
      DivSmaller(xx, n);
      rt := [a[xx % n]] + rt;
      xx := xx / n;
    }
    rt := [a[xx]] + rt;
    s := rt;
  }

  /** `enbase` (src/lib.rs:85-97): the numeral of `x`, left-padded with the
      first symbol of the alphabet up to `minLength` symbols. */
  function Enbase(a: string, x: nat, minLength: nat): (s: string)
    requires |a| >= 2 || x < |a|
    ensures |s| == Max(minLength, |Numeral(a, x)|)
    ensures s[|s| - |Numeral(a, x)|..] == Numeral(a, x)
    ensures forall k :: 0 <= k < |s| - |Numeral(a, x)| ==> s[k] == a[0]
    ensures AllIn(a, s)
  {
    var body := Numeral(a, x);
    var padNum := if minLength < |body| then 0 else minLength - |body|;
    var s := Repeat(a[0], padNum) + body;
    assert AllIn(a, s) by {
      forall k | 0 <= k < |s| ensures s[k] in a {
        if k >= padNum { assert s[k] == body[k - padNum]; }
      }
    }
    s
  }

  /** What `debase` computes, without its machine-width limits. */
  function Debased(a: string, s: string): (r: Result<nat>)
    ensures r.Err? <==> exists k :: 0 <= k < |s| && s[k] !in a
    ensures r.Err? ==> r.error == InvalidString
  {
    if AllIn(a, s) then Ok(Value(a, s)) else Err(InvalidString)
  }

  /** The last `k` symbols of `s`: what `debase` has read after `k` steps. */
  function Tail(s: string, k: nat): (t: string)
    requires k <= |s|
    ensures |t| == k
  {
    s[|s| - k..]
  }

  /** No step of `debase` on `s` overflows a word: for each symbol it
      reaches (every symbol to its right being in the alphabet), `n^i` and
      the partial sum fit. */
  predicate DebaseFits(a: string, s: string)
  {
    forall k :: 1 <= k <= |s| && AllIn(a, Tail(s, k)) ==>
      Pow(|a|, k - 1) < WORD && Value(a, Tail(s, k)) < WORD
  }

  /** `debase` (src/lib.rs:119-133). */
  method Debase(a: string, s: string) returns (r: Result<nat>)
    requires DebaseFits(a, s)
    ensures r == Debased(a, s)
    ensures r.Err? <==> exists k :: 0 <= k < |s| && s[k] !in a
    ensures r.Err? ==> r.error == InvalidString
    ensures r.Ok? ==> r.value < WORD
  {
    var n := |a|;
    var result := 0;
    for i := 0 to |s|
      invariant AllIn(a, Tail(s, i))
      invariant result == Value(a, Tail(s, i))
    {
      var p := Position(a, s[|s| - 1 - i]);
      if p.None? {
        DebaseFails(a, s, |s| - 1 - i);
        return Err(InvalidString);
      }
      DebaseStep(a, s, i, result, p.value);
      result := result + p.value * Pow(n, i);
    }
    DebaseSucceeds(a, s);
    r := Ok(result);
  }

  /** `debase` reaching an unknown symbol returns `InvalidString`. */
  lemma DebaseFails(a: string, s: string, k: nat)
    requires k < |s| && s[k] !in a
    ensures Debased(a, s) == Err(InvalidString)
    ensures exists k :: 0 <= k < |s| && s[k] !in a
  {
  }

  /** `debase` reading every symbol returns their value, which fits a word. */
  lemma DebaseSucceeds(a: string, s: string)
    requires DebaseFits(a, s) && AllIn(a, Tail(s, |s|))
    ensures Debased(a, s) == Ok(Value(a, Tail(s, |s|)))
    ensures !exists k :: 0 <= k < |s| && s[k] !in a
    ensures Value(a, Tail(s, |s|)) < WORD
  {
    assert Tail(s, |s|) == s;
    DebasedFits(a, s);
  }

  /** One step of `debase`'s loop: the symbol `i` places from the right,
      at alphabet index `d`, adds `d * n^i` to the value read so far, and the
      step does not overflow. */
  lemma DebaseStep(a: string, s: string, i: nat, v: nat, d: nat)
    requires DebaseFits(a, s) && i < |s|
    requires Position(a, s[|s| - 1 - i]) == Some(d)
    requires AllIn(a, Tail(s, i)) && v == Value(a, Tail(s, i))
    ensures AllIn(a, Tail(s, i + 1)) && v + d * Pow(|a|, i) == Value(a, Tail(s, i + 1))
    ensures Pow(|a|, i) < WORD && v + d * Pow(|a|, i) < WORD
  {
    var done := Tail(s, i);
    assert Tail(s, i + 1) == [s[|s| - 1 - i]] + done;
    ValuePrepend(a, s[|s| - 1 - i], done);
  }

  // ----------------------------------------------------------------------
  // The public operations
  // ----------------------------------------------------------------------

  /** `encode_url` (src/lib.rs:42). */
  function EncodeUrl(e: UrlEncoder, n: nat, minLength: nat): (s: string)
    requires WellFormed(e) && n < WORD
    requires |e.alphabet| >= 2 || Encode(e, n) < |e.alphabet|
    ensures |s| >= minLength
    ensures AllIn(e.alphabet, s)
  {
    Enbase(e.alphabet, Encode(e, n), minLength)
  }

  /** `decode_url` (src/lib.rs:55). */
  function DecodeUrl(e: UrlEncoder, s: string): (r: Result<nat>)
    requires WellFormed(e) && DebaseFits(e.alphabet, s)
    ensures r.Err? <==> exists k :: 0 <= k < |s| && s[k] !in e.alphabet
    ensures r.Err? ==> r.error == InvalidString
    ensures r.Ok? ==> r.value < WORD
  {
    match Debased(e.alphabet, s)
    case Err(err) => Err(err)
    case Ok(v) =>
      DebasedFits(e.alphabet, s);
      Ok(Decode(e, v))
  }

  // ----------------------------------------------------------------------
  // Properties of the base-n stage
  // ----------------------------------------------------------------------

  /** With distinct symbols, the digit of `a[k]` is `k`. */
  lemma DigitOf(a: string, k: nat)
    requires Distinct(a) && k < |a|
    ensures Digit(a, a[k]) == k
  {
  }

  lemma {:induction false} PowPositive(b: nat, e: nat)
    requires b >= 1
    ensures Pow(b, e) >= 1
  {
    if e > 0 {
      PowPositive(b, e - 1);
      MulMonotone(1, b, Pow(b, e - 1));
    }
  }

  lemma {:induction false} PowMonotone(b: nat, i: nat, j: nat)
    requires b >= 1 && i <= j
    ensures Pow(b, i) <= Pow(b, j)
    decreases j
  {
    if i < j {
      PowMonotone(b, i, j - 1);
      MulMonotone(1, b, Pow(b, j - 1));
    }
  }

  lemma {:induction false} PowOne(e: nat)
    ensures Pow(1, e) == 1
  {
    if e > 0 { PowOne(e - 1); }
  }

  lemma MulMonotone(x: nat, y: nat, p: nat)
    requires x <= y
    ensures x * p <= y * p
  {
  }

  lemma DivMod(x: nat, n: nat)
    requires n > 0
    ensures x == n * (x / n) + x % n && x % n < n
  {
  }

  lemma DivSmaller(x: nat, n: nat)
    requires n >= 2 && x >= n
    ensures 1 <= x / n < x
  {
    var q := x / n;
    DivMod(x, n);
    MulMonotone(2, n, q);
    assert n * q > 0;
    MulPositive(n, q);
  }

  lemma MulPositive(n: nat, q: nat)
    requires n * q > 0
    ensures q > 0
  {
  }

  /** Prepending a symbol adds its digit times `n^len`. */
  lemma ValuePrepend(a: string, c: char, t: string)
    requires c in a && AllIn(a, t)
    ensures AllIn(a, [c] + t)
    ensures Value(a, [c] + t) == Digit(a, c) * Pow(|a|, |t|) + Value(a, t)
  {
    var s := [c] + t;
    assert s[0] == c && s[1..] == t && |s| - 1 == |t|;
    assert forall k :: 0 < k < |s| ==> s[k] == t[k - 1];
    assert AllIn(a, s);
    var d := Digit(a, c);
    var p := Pow(|a|, |t|);
    assert Value(a, s) == Digit(a, s[0]) * Pow(|a|, |s| - 1) + Value(a, s[1..]);
    assert Value(a, s) == d * p + Value(a, t);
  }

  lemma Rearrange(d: nat, n: nat, p: nat, v: nat, e: nat)
    ensures d * (n * p) + (n * v + e) == n * (d * p + v) + e
  {
    assert d * (n * p) == n * (d * p);
  }

  /** Appending a symbol multiplies by the base and adds its digit. */
  lemma {:induction false} ValueAppend(a: string, s: string, c: char)
    requires AllIn(a, s) && c in a
    ensures AllIn(a, s + [c])
    ensures Value(a, s + [c]) == |a| * Value(a, s) + Digit(a, c)
    decreases |s|
  {
    var t := s + [c];
    assert forall k :: 0 <= k < |s| ==> t[k] == s[k];
    if s == [] {
      assert t == [c] + [];
      ValuePrepend(a, c, []);
    } else {
      var u := s[1..];
      assert AllIn(a, u) by {
        forall k | 0 <= k < |u| ensures u[k] in a { assert u[k] == s[k + 1]; }
      }
      assert s == [s[0]] + u;
      assert t == [s[0]] + (u + [c]);
      ValueAppend(a, u, c);
      ValuePrepend(a, s[0], u);
      ValuePrepend(a, s[0], u + [c]);
      var n := |a|;
      var p := Pow(n, |u|);
      assert Pow(n, |u + [c]|) == n * p;
      Rearrange(Digit(a, s[0]), n, p, Value(a, u), Digit(a, c));
    }
  }

  /** `_enbase` is undone by reading its digits back: the numeral of `x`
      denotes `x`. */
  lemma {:induction false} NumeralValue(a: string, x: nat)
    requires Distinct(a) && (|a| >= 2 || x < |a|)
    ensures Value(a, Numeral(a, x)) == x
    decreases x
  {
    var n := |a|;
    if x < n {
      DigitOf(a, x);
      assert Numeral(a, x) == [a[x]] + [];
      ValuePrepend(a, a[x], []);
    } else {
      var q, r := x / n, x % n;
      var body := Numeral(a, q);
      assert Numeral(a, x) == body + [a[r]];
      DivSmaller(x, n);
      NumeralValue(a, q);
      AppendDigit(a, body, x);
    }
  }

  /** Appending the last digit of `x` to a string denoting `x / n` gives a
      string denoting `x`. */
  lemma AppendDigit(a: string, s: string, x: nat)
    requires Distinct(a) && |a| >= 1 && AllIn(a, s) && Value(a, s) == x / |a|
    ensures AllIn(a, s + [a[x % |a|]])
    ensures Value(a, s + [a[x % |a|]]) == x
  {
    ValueAppend(a, s, a[x % |a|]);
    DigitOf(a, x % |a|);
    DivMod(x, |a|);
  }

  /** The numeral starts with the zero symbol exactly when `x == 0`: it has
      no leading zeros. */
  lemma {:induction false} NumeralLeadingSymbol(a: string, x: nat)
    requires Distinct(a) && (|a| >= 2 || x < |a|)
    ensures Numeral(a, x)[0] == a[0] <==> x == 0
    decreases x
  {
    var n := |a|;
    if x < n {
      assert Numeral(a, x) == [a[x]];
      assert x != 0 ==> a[0] != a[x];
    } else {
      DivSmaller(x, n);
      var q := x / n;
      NumeralLeadingSymbol(a, q);
      var body := Numeral(a, q);
      assert Numeral(a, x) == body + [a[x % n]];
      assert Numeral(a, x)[0] == body[0];
    }
  }

  lemma LengthStep(x: nat, n: nat, q: nat, r: nat, p: nat, p0: nat)
    requires n >= 2 && x == n * q + r && r < n && q >= 1
    requires q < p && p0 <= q
    ensures x < n * p && n * p0 <= x
  {
    MulMonotone(q + 1, p, n);
    MulMonotone(p0, q, n);
  }

  /** The numeral has exactly as many symbols as `x` has base-`n` digits:
      `n^(len-1) <= x < n^len` (only the upper bound for `x == 0`). */
  lemma {:induction false} NumeralLength(a: string, x: nat)
    requires |a| >= 2 || x < |a|
    ensures x < Pow(|a|, |Numeral(a, x)|)
    ensures x == 0 || Pow(|a|, |Numeral(a, x)| - 1) <= x
    decreases x
  {
    var n := |a|;
    if x < n {
      assert |Numeral(a, x)| == 1;
      assert Pow(n, 1) == n * Pow(n, 0);
    } else {
      var q := x / n;
      DivSmaller(x, n);
      NumeralLength(a, q);
      var len := |Numeral(a, q)|;
      assert |Numeral(a, x)| == len + 1;
      DivMod(x, n);
      DivSmaller(x, n);
      LengthStep(x, n, q, x % n, Pow(n, len), Pow(n, len - 1));
    }
  }

  /** Leading copies of the zero symbol add nothing. */
  lemma {:induction false} ValueLeadingZeros(a: string, k: nat, s: string)
    requires |a| >= 1 && AllIn(a, s)
    ensures AllIn(a, Repeat(a[0], k) + s)
    ensures Value(a, Repeat(a[0], k) + s) == Value(a, s)
    decreases k
  {
    var t := Repeat(a[0], k) + s;
    if k == 0 {
      assert t == s;
    } else {
      var u := Repeat(a[0], k - 1) + s;
      assert t == [a[0]] + u;
      ValueLeadingZeros(a, k - 1, s);
      ValuePrepend(a, a[0], u);
      assert Digit(a, a[0]) == 0;
    }
  }

  /** Padding does not change what a numeral decodes to, for any alphabet. */
  lemma PaddingPreservesValue(a: string, x: nat, minLength: nat)
    requires |a| >= 2 || x < |a|
    ensures Debased(a, Enbase(a, x, minLength)) == Debased(a, Numeral(a, x))
  {
    var body := Numeral(a, x);
    var padNum := if minLength < |body| then 0 else minLength - |body|;
    ValueLeadingZeros(a, padNum, body);
  }

  /** `debase(enbase(x, m)) == Ok(x)` for a distinct alphabet
      (src/lib.rs:85-133). */
  lemma DebaseEnbase(a: string, x: nat, minLength: nat)
    requires Distinct(a) && (|a| >= 2 || x < |a|)
    ensures Debased(a, Enbase(a, x, minLength)) == Ok(x)
  {
    PaddingPreservesValue(a, x, minLength);
    NumeralValue(a, x);
  }

  lemma DigitStep(d: nat, n: nat, p: nat, v: nat)
    requires d < n && v < p
    ensures 0 <= d * p && d * p + v < n * p
  {
    MulMonotone(0, d, p);
    MulMonotone(d + 1, n, p);
  }

  lemma FitsAt(a: string, s: string, k: nat)
    requires Pow(|a|, |s|) <= WORD && 1 <= k <= |s| && AllIn(a, Tail(s, k))
    ensures Pow(|a|, k - 1) < WORD && Value(a, Tail(s, k)) < WORD
  {
    var n := |a|;
    var t := Tail(s, k);
    assert t[0] in a;
    PowMonotone(n, k, |s|);
    PowStep(n, k);
  }

  /** `n^(k-1) < n^k` for a base of at least 2; with base 1 both are 1. */
  lemma PowStep(n: nat, k: nat)
    requires n >= 1 && k >= 1
    ensures Pow(n, k - 1) < Pow(n, k) || Pow(n, k - 1) == 1
  {
    var p := Pow(n, k - 1);
    assert Pow(n, k) == n * p;
    if n == 1 {
      PowOne(k - 1);
    } else {
      PowPositive(n, k - 1);
      MulMonotone(2, n, p);
    }
  }

  /** Every string of `len` symbols with `n^len <= 2^64` is decoded without
      overflow. */
  lemma DebaseFitsShort(a: string, s: string)
    requires Pow(|a|, |s|) <= WORD
    ensures DebaseFits(a, s)
  {
    forall k | 1 <= k <= |s| && AllIn(a, Tail(s, k))
      ensures Pow(|a|, k - 1) < WORD && Value(a, Tail(s, k)) < WORD
    {
      FitsAt(a, s, k);
    }
  }

  /** Whatever `debase` accepts without overflow is a word. */
  lemma DebasedFits(a: string, s: string)
    requires DebaseFits(a, s) && AllIn(a, s)
    ensures Value(a, s) < WORD
  {
    if s != [] {
      assert Tail(s, |s|) == s;
      assert Pow(|a|, |s| - 1) < WORD;
    } else {
      Pow2StrictlyMonotone(0, WORD_BITS);
    }
  }

  /** Dropping the leading symbol does not increase the value. */
  lemma ValueDropFirst(a: string, s: string)
    requires AllIn(a, s) && s != []
    ensures AllIn(a, s[1..])
    ensures Value(a, s[1..]) <= Value(a, s)
  {
    var u := s[1..];
    assert AllIn(a, u) by {
      forall j | 0 <= j < |u| ensures u[j] in a { assert u[j] == s[j + 1]; }
    }
    MulMonotone(0, Digit(a, s[0]), Pow(|a|, |u|));
  }

  /** A suffix of a string denotes no more than the whole string. */
  lemma {:induction false} TailValueBound(a: string, s: string, k: nat)
    requires AllIn(a, s) && k <= |s|
    ensures AllIn(a, Tail(s, k))
    ensures Value(a, Tail(s, k)) <= Value(a, s)
    decreases |s|
  {
    if k == |s| {
      assert Tail(s, k) == s;
    } else {
      var u := s[1..];
      ValueDropFirst(a, s);
      assert Tail(u, k) == Tail(s, k);
      TailValueBound(a, u, k);
    }
  }

  /** `debase` does not overflow on a non-empty string of alphabet symbols
      exactly when its largest power `n^(len-1)` and its value fit a word:
      every earlier power and partial sum is smaller. */
  lemma DebaseFitsExactly(a: string, s: string)
    requires AllIn(a, s) && |s| >= 1
    ensures DebaseFits(a, s) <==> Pow(|a|, |s| - 1) < WORD && Value(a, s) < WORD
  {
    if DebaseFits(a, s) {
      assert Tail(s, |s|) == s;
      assert AllIn(a, Tail(s, |s|));
    }
    if Pow(|a|, |s| - 1) < WORD && Value(a, s) < WORD {
      forall k | 1 <= k <= |s| && AllIn(a, Tail(s, k))
        ensures Pow(|a|, k - 1) < WORD && Value(a, Tail(s, k)) < WORD
      {
        FitsBelow(a, s, k, WORD);
      }
    }
  }

  /** Every power and suffix value of `debase` is bounded by the last ones. */
  lemma FitsBelow(a: string, s: string, k: nat, w: nat)
    requires AllIn(a, s) && 1 <= k <= |s|
    requires Pow(|a|, |s| - 1) < w && Value(a, s) < w
    ensures Pow(|a|, k - 1) < w && Value(a, Tail(s, k)) < w
  {
    assert s[0] in a;
    PowBelow(|a|, k - 1, |s| - 1, w);
    TailValueBound(a, s, k);
  }

  /** A power below a bound keeps every smaller power below it. */
  lemma PowBelow(b: nat, i: nat, j: nat, w: nat)
    requires b >= 1 && i <= j && Pow(b, j) < w
    ensures Pow(b, i) < w
  {
    PowMonotone(b, i, j);
  }

  /** Zero encodes as the zero symbol repeated up to the padding length. */
  lemma EnbaseZero(a: string, minLength: nat)
    requires |a| >= 1
    ensures Enbase(a, 0, minLength) == Repeat(a[0], Max(minLength, 1))
  {
    var s := Enbase(a, 0, minLength);
    assert Numeral(a, 0) == [a[0]];
    forall k | 0 <= k < |s| ensures s[k] == a[0] {
      if k == |s| - 1 { assert s[k] == s[|s| - 1..][0]; }
    }
  }

  /** `enbase` of a word never makes `debase` overflow, unless the padding
      alone is too long: the output fits exactly when `minLength == 0` or
      `n^(minLength-1)` is a word. */
  lemma EnbaseFits(a: string, x: nat, minLength: nat)
    requires Distinct(a) && (|a| >= 2 || x < |a|) && x < WORD
    ensures DebaseFits(a, Enbase(a, x, minLength)) <==>
      minLength == 0 || Pow(|a|, minLength - 1) < WORD
  {
    var s := Enbase(a, x, minLength);
    var len := NumeralTopPower(a, x);
    DebaseEnbase(a, x, minLength);
    PaddedFits(a, s, minLength, len);
  }

  /** A padded string whose unpadded length `len` has a word as leading power
      fits `debase` exactly when the padding length `m` does. */
  lemma PaddedFits(a: string, s: string, m: nat, len: nat)
    requires AllIn(a, s) && Value(a, s) < WORD
    requires len >= 1 && |s| == Max(m, len) && Pow(|a|, len - 1) < WORD
    ensures DebaseFits(a, s) <==> m == 0 || Pow(|a|, m - 1) < WORD
  {
    assert |a| >= 1 by { assert s[0] in a; }
    PaddedPowFits(|a|, m, len);
    DebaseFitsExactly(a, s);
  }

  /** The leading power `n^(len-1)` of the numeral of a word is a word. */
  lemma NumeralTopPower(a: string, x: nat) returns (len: nat)
    requires (|a| >= 2 || x < |a|) && x < WORD
    ensures len == |Numeral(a, x)| && Pow(|a|, len - 1) < WORD
  {
    len := |Numeral(a, x)|;
    NumeralLength(a, x);
    if x == 0 {
      assert Numeral(a, x) == [a[0]];
      Pow2StrictlyMonotone(0, WORD_BITS);
    }
  }

  /** Padding to `m` symbols keeps the leading power a word exactly when
      `n^(m-1)` is one. */
  lemma PaddedPowFits(b: nat, m: nat, len: nat)
    requires b >= 1 && len >= 1 && Pow(b, len - 1) < WORD
    ensures Pow(b, Max(m, len) - 1) < WORD <==> m == 0 || Pow(b, m - 1) < WORD
  {
    if 1 <= m <= len {
      PowMonotone(b, m - 1, len - 1);
    }
  }

  // ----------------------------------------------------------------------
  // Properties of the public operations
  // ----------------------------------------------------------------------

  /** `decode_url(encode_url(n, m)) == Ok(n)` whenever decoding the string
      does not overflow (src/lib.rs:42, src/lib.rs:55). */
  lemma UrlRoundTrip(e: UrlEncoder, n: nat, minLength: nat)
    requires Valid(e) && n < WORD
    requires DebaseFits(e.alphabet, EncodeUrl(e, n, minLength))
    ensures DecodeUrl(e, EncodeUrl(e, n, minLength)) == Ok(n)
  {
    DebaseEnbase(e.alphabet, Encode(e, n), minLength);
    DecodeEncode(e, n);
  }

  /** The round trip holds for every word whenever the padding length is
      short enough for `debase`: at most 13 symbols with the default
      alphabet. */
  lemma UrlRoundTripFits(e: UrlEncoder, n: nat, minLength: nat)
    requires Valid(e) && n < WORD
    requires minLength == 0 || Pow(|e.alphabet|, minLength - 1) < WORD
    ensures DebaseFits(e.alphabet, EncodeUrl(e, n, minLength))
    ensures DecodeUrl(e, EncodeUrl(e, n, minLength)) == Ok(n)
  {
    EnbaseFits(e.alphabet, Encode(e, n), minLength);
    UrlRoundTrip(e, n, minLength);
  }

  /** Different words never share a URL string. */
  lemma EncodeUrlInjective(e: UrlEncoder, n1: nat, n2: nat, minLength: nat)
    requires Valid(e) && n1 < WORD && n2 < WORD
    requires EncodeUrl(e, n1, minLength) == EncodeUrl(e, n2, minLength)
    ensures n1 == n2
  {
    DebaseEnbase(e.alphabet, Encode(e, n1), minLength);
    DebaseEnbase(e.alphabet, Encode(e, n2), minLength);
    DecodeEncode(e, n1);
    DecodeEncode(e, n2);
  }
}
