# short_url in Dafny

A model of `UrlEncoder` from the `short_url` crate (src/lib.rs), which turns
a number into a short, non-sequential-looking string and back. Encoding has two
stages:

1. **Bit shuffle.** `encode` keeps every bit above the block of `block` low
   bits as it is. It moves bit `i` inside the block to bit
   `mapping[block-1-i]`, because `_encode` walks the mapping reversed. `decode`
   undoes this with `_decode`.
2. **Numeral.** `enbase` writes the shuffled number in base `|alphabet|`,
   most significant digit first. `_enbase` builds the body, and `enbase` pads
   it on the left with `alphabet[0]` up to `min_length`. `debase` reads a
   string back as Σ digit·n^i and fails with `InvalidString` on a symbol
   outside the alphabet.

`encode_url` is `enbase ∘ encode` and `decode_url` is `decode ∘ debase`.

## Files

- `errors.dfy` (module `ShortErrors`): the `ShortError` enum and the crate's
  `Result` alias.
- `bits.dfy` (module `Bits`): `usize` words as naturals below `2^64`.
  - `&`, `|`, `!` and `1 << k` are defined exactly.
  - `Bit(n, i)` reads bit `i`.
  - Lemmas relate bits to these operators, including extensionality
    (`BitsEqual`).
- `short_url.dfy` (module `ShortUrl`): the encoder record and the operations.
  - The loops of `_encode`, `_decode`, `_enbase` and `debase` are `method`s
    with loop invariants. Each is proved equal to a specification function:
    `Permuted`, `Unpermuted`, `Numeral` and `Debased`.
  - `encode`, `decode`, `enbase`, `encode_url` and `decode_url` are functions
    over those specification functions.
  - The lemmas state the round trips and the shape of the output.
- `scenarios.dfy` (module `ShortUrlTests`): the crate's own scenarios with the
  default alphabet and block size 24, worked out as lemmas.

How the model reads the code:

- The table built by `new` is the identity `0..block`. `_encode` pairs
  position `i` with the reversed sequence, so the shipped encoder **reverses**
  the low 24 bits rather than leaving them in place. That is why 1 encodes to
  `1 << 23` (`NewReversesBits`, `NewEncodesOne`). With this table, `decode`
  is the same function as `encode` (`NewDecodeIsEncode`).
- `DEFAULT_ALPHABET` has 31 symbols, not 32 (`DefaultAlphabetValid`). Every
  value below `2^24` needs at most five symbols (`DefaultLengthFive`), because
  `2^24 <= 31^5`.

## Model

| member | source | states |
|---|---|---|
| ShortUrl.New | src/lib.rs:26-32 | keeps the alphabet; builds the identity table `0..block` (a permutation of `0..block`), with mask `2^block - 1` |
| ShortUrl.Permuted | src/lib.rs:59-69 | what `_encode` computes; when every table entry is below 64, the result is a word |
| ShortUrl.Unpermuted | src/lib.rs:73-83 | what `_decode` computes; the result of a table of length `len` is below `2^len` |
| ShortUrl.EncodeLow | src/lib.rs:59-69 | the `_encode` loop yields `Permuted`: bit `i` of `n` set ⇒ bit `mapping[len-1-i]` of the result set |
| ShortUrl.DecodeLow | src/lib.rs:73-83 | the `_decode` loop yields `Unpermuted`: bit `i` of the result is bit `mapping[len-1-i]` of `n` |
| ShortUrl.PermutedBit | src/lib.rs:62-65 | a bit of `_encode`'s result is set iff some source position `i` mapped to it is set in `n` |
| ShortUrl.UnpermutedBit | src/lib.rs:76-79 | bit `j` of `_decode`'s result is set iff `j < len` and bit `mapping[len-1-j]` of `n` is set |
| ShortUrl.LowRoundTrip | src/lib.rs:59-83 | for a permutation table and `v < 2^len`: `_decode(_encode(v)) == v`, and `_encode(v)` stays below `2^len` |
| ShortUrl.Encode | src/lib.rs:57 | the high bits `n & !mask` or-ed with `_encode(n & mask)`; for a word it is a word; what happens to each bit is stated by `EncodeMovesBit` and `HighBitsPassThrough` |
| ShortUrl.Decode | src/lib.rs:71 | the high bits `n & !mask` or-ed with `_decode(n & mask)`; for a word it is a word; what happens to each bit is stated by `DecodeMovesBit` and `HighBitsPassThrough` |
| ShortUrl.SplitBits | src/lib.rs:57 | `n & !mask` holds the bits of `n` from the block size up to 64, and `n & mask` those below the block size |
| ShortUrl.EncodeBit | src/lib.rs:57 | a bit of `encode(n)` comes from the high part of `n` or from `_encode` of the low part |
| ShortUrl.DecodeBit | src/lib.rs:71 | a bit of `decode(n)` comes from the high part of `n` or from `_decode` of the low part |
| ShortUrl.HighBitsPassThrough | src/lib.rs:57 | `encode` and `decode` leave every bit at or above the block size unchanged |
| ShortUrl.EncodeMovesBit | src/lib.rs:57-69 | `encode` moves bit `i < block` of `n` to bit `mapping[block-1-i]` |
| ShortUrl.DecodeMovesBit | src/lib.rs:71-83 | `decode` moves bit `mapping[block-1-i]` of `n` back to bit `i` |
| ShortUrl.DecodeEncode | src/lib.rs:57-83 | `decode(encode(n)) == n` for every word `n` |
| ShortUrl.EncodeDecode | src/lib.rs:57-83 | `encode(decode(n)) == n`, so `encode` is a bijection on words |
| ShortUrl.IdentityReversesBits | src/lib.rs:57-69 | for an identity table of length `b`, `encode` sends bit `i` to bit `b-1-i` |
| ShortUrl.IdentityEncodesPow2 | src/lib.rs:57-69 | for an identity table of length `b`, `encode(1 << i) == 1 << (b-1-i)` |
| ShortUrl.IdentityDecodeIsEncode | src/lib.rs:57-83 | for an identity table, `decode` and `encode` agree on every word |
| ShortUrl.NewReversesBits | src/lib.rs:30-66 | with the table `new` builds, `encode` sends bit `i` to bit `block-1-i` |
| ShortUrl.NewEncodesPow2 | src/lib.rs:26-69 | with the table `new` builds, `encode(1 << i) == 1 << (block-1-i)` |
| ShortUrl.NewEncodesOne | src/lib.rs:26-69 | with that table, `encode(1) == 1 << (block-1)` |
| ShortUrl.NewDecodeIsEncode | src/lib.rs:26-83 | with that table, `decode` and `encode` agree on every word |
| ShortUrl.EncodeBelowBlock | src/lib.rs:57 | below `2^block`, `encode` is `_encode` and stays below `2^block` |
| ShortUrl.Position | src/lib.rs:124-128 | `None` iff the symbol is not in the alphabet; otherwise the first index holding it |
| ShortUrl.Numeral | src/lib.rs:99-116 | `_enbase`'s numeral is non-empty and uses only alphabet symbols |
| ShortUrl.EnbaseDigits | src/lib.rs:99-116 | the `_enbase` loop returns `Numeral(a, x)` |
| ShortUrl.NumeralValue | src/lib.rs:99-116 | the numeral read as base-`|a|` digits, most significant first, is `x` |
| ShortUrl.NumeralLeadingSymbol | src/lib.rs:101-113 | the numeral starts with `alphabet[0]` iff `x == 0` |
| ShortUrl.NumeralLength | src/lib.rs:108-113 | the numeral has the minimal length: `|a|^(len-1) <= x < |a|^len` for `x > 0` |
| ShortUrl.Enbase | src/lib.rs:85-97 | the result has length `max(min_length, |numeral|)`, ends with the numeral and is `alphabet[0]` before it |
| ShortUrl.PaddingPreservesValue | src/lib.rs:85-97 | left padding with `alphabet[0]` does not change what `debase` reads |
| ShortUrl.Debased | src/lib.rs:119-133 | what `debase` computes: `Err` iff some symbol is outside the alphabet, and the error is then `InvalidString` |
| ShortUrl.Debase | src/lib.rs:119-133 | the `debase` loop returns `Debased`: `Err(InvalidString)` iff a symbol is unknown, else the word Σ digit·n^i |
| ShortUrl.Value | src/lib.rs:123-130 | the sum Σ digit·n^i that `debase` accumulates; a string of `k` symbols reads as a value below `|a|^k` |
| ShortUrl.TailValueBound | src/lib.rs:123-130 | the suffix `debase` has read after any number of steps denotes no more than the whole string |
| ShortUrl.FitsBelow | src/lib.rs:123-130 | if the last power `n^(len-1)` and the final sum are below a bound, so is every earlier power and partial sum |
| ShortUrl.DebaseFitsExactly | src/lib.rs:123-130 | on a non-empty string of alphabet symbols, `debase` avoids overflow iff `n^(len-1)` and the value are both words |
| ShortUrl.DebaseFitsShort | src/lib.rs:129 | strings with `|a|^len <= 2^64` never overflow in `debase` |
| ShortUrl.EnbaseZero | src/lib.rs:85-103 | `enbase(0, m)` is `alphabet[0]` repeated `max(m, 1)` times |
| ShortUrl.PaddedFits | src/lib.rs:85-133 | a padded string whose unpadded part has a word as leading power fits `debase` iff `min_length == 0` or `n^(min_length-1)` is a word |
| ShortUrl.EnbaseFits | src/lib.rs:85-133 | for every word `x`, `debase` of `enbase(x, m)` avoids overflow iff `m == 0` or `n^(m-1)` is a word |
| ShortUrl.DebaseEnbase | src/lib.rs:85-133 | for a distinct alphabet, `debase(enbase(x, m)) == Ok(x)` |
| ShortUrl.UrlRoundTrip | src/lib.rs:42-55 | for a valid encoder, `decode_url(encode_url(n, m)) == Ok(n)` whenever `debase` does not overflow |
| ShortUrl.UrlRoundTripFits | src/lib.rs:42-133 | for a valid encoder, every word `n` and every `m` with `m == 0` or `n^(m-1)` a word: no overflow, and `decode_url(encode_url(n, m)) == Ok(n)` |
| ShortUrl.EncodeUrlInjective | src/lib.rs:42 | distinct numbers give distinct URL strings |
| ShortUrl.EncodeUrl | src/lib.rs:42 | `enbase(encode(n))`: the URL string has at least `min_length` symbols, all from the alphabet |
| ShortUrl.DecodeUrl | src/lib.rs:55 | `decode(debase(s)?)`: `Err(InvalidString)` exactly when a symbol is outside the alphabet, and otherwise a word |
| ShortUrlTests.DefaultEncoder | src/lib.rs:142 | the default encoder has the default alphabet and a valid table |
| ShortUrlTests.DefaultAlphabetValid | src/lib.rs:7 | the default alphabet has 31 distinct symbols |
| ShortUrlTests.EncodeUrlOne | src/lib.rs:144 | `encode_url(1, 5) == "867nv"` with the default encoder |
| ShortUrlTests.DecodeUrlOne | src/lib.rs:151 | `decode_url("867nv") == Ok(1)` with the default encoder, and this input does not overflow |
| ShortUrlTests.DecodeUrlForeignSymbol | src/lib.rs:128 | a string with a symbol outside the default alphabet is rejected with `InvalidString` |
| ShortUrlTests.DefaultLengthFive | src/lib.rs:7-9 | with the defaults, every value below `2^24` encodes to exactly five symbols |
| ShortUrlTests.ThirteenthPowerOverflows | src/lib.rs:129 | `31^12` is a word and `31^13` is not |
| ShortUrlTests.EncodeZero | src/lib.rs:57 | the default encoder maps 0 to 0 |
| ShortUrlTests.FourteenSymbolsOverflow | src/lib.rs:129 | with the default alphabet, the 14-symbol encoding of 0 is `"mmmmmmmmmmmmmm"`, and `n.pow(13)` exceeds a word on it, so `debase` overflows |
| ShortUrlTests.DefaultRoundTrip | src/lib.rs:42-55 | with the default encoder, `decode_url(encode_url(n, m)) == Ok(n)` for every word `n` and every `m <= 13`, including the default 5 |

## Left out

- `ShortError`'s `Display` messages (src/err.rs:9-16) are left out. They are text formatting only.
- `InvalidNumber` is declared but never produced, since no function returns it.
- New: requires `block < 64`. For larger blocks `1 << block` overflows `usize`, which panics in debug builds.
- EncodeLow, DecodeLow, Encode, Decode: `WellFormed` requires table entries below 64 and at most 64 of them. Otherwise `1 << b` or `1 << i` would overflow.
- Numeral, EnbaseDigits, Enbase, EncodeUrl: require an alphabet of at least two symbols, or a value that fits one symbol.
  - With one symbol the `_enbase` loop never ends.
  - With none, `xx % n` divides by zero (src/lib.rs:109).
- Debase, DecodeUrl, UrlRoundTrip: require `DebaseFits`. Every `n.pow(i)` and every partial sum must fit a word.
  - Rust panics on these overflows in debug builds.
  - Release builds wrap around instead, which is not modelled.
  - `DebaseFitsExactly` reduces `DebaseFits` to the last power and the value. `EnbaseFits` shows that it holds for every encoded word unless the padding alone is too long, so `UrlRoundTripFits` needs no `DebaseFits` hypothesis.
  - `FourteenSymbolsOverflow` shows that padded strings of 14 or more default symbols break this; `DefaultRoundTrip` covers every padding up to 13.
- Debase: the `i as u32` truncation never matters below the overflow bound, so it is not modelled.
- Encode, Decode, EncodeUrl, DecodeUrl are specified through the specification functions `Permuted`, `Unpermuted`, `Numeral` and `Debased`, rather than by calling the loop methods. Each loop method is proved equal to its function.
- `usize` is taken as 64 bits wide.
- Alphabet symbols are Dafny `char`s, standing for Rust's `char`s; there is no UTF-8 byte-level model.
- The clippy lint configuration (src/lib.rs:1) and the rustdoc examples' `use` lines are out of scope. The doc examples at src/lib.rs:39 and src/lib.rs:50 are the same scenarios as `EncodeUrlOne` and `DecodeUrlOne`.
