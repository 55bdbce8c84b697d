/**
 The scenarios of the doc comments and unit tests of src/lib.rs, with the
 default alphabet (31 symbols) and block size 24.
 */
module ShortUrlTests {
  import opened Bits
  import opened ShortErrors
  import opened ShortUrl

  function DefaultEncoder(): (e: UrlEncoder)
    ensures ValidTable(e) && e.alphabet == DEFAULT_ALPHABET
  {
    New(DEFAULT_ALPHABET, DEFAULT_BLOCK_SIZE)
  }

  lemma DefaultAlphabetValid()
    ensures |DEFAULT_ALPHABET| == 31 && ValidAlphabet(DEFAULT_ALPHABET)
  {
    var x, y := "mn6j2c4rv8bpygw95z7h", "sdaetxuk3fq";
    FirstTwentyDistinct();
    assert Distinct(y);
    assert forall j, k :: 0 <= j < |x| && 0 <= k < |y| ==> x[j] != y[k] by {
      forall k | 0 <= k < |y| ensures y[k] !in x {}
    }
    DistinctConcat(x, y);
    assert DEFAULT_ALPHABET == x + y;
  }

  lemma FirstTwentyDistinct()
    ensures Distinct("mn6j2c4rv8bpygw95z7h")
  {
    var x, y := "mn6j2c4rv8", "bpygw95z7h";
    assert Distinct(x);
    assert Distinct(y);
    assert forall j, k :: 0 <= j < |x| && 0 <= k < |y| ==> x[j] != y[k] by {
      forall k | 0 <= k < |y| ensures y[k] !in x {}
    }
    DistinctConcat(x, y);
    assert x + y == "mn6j2c4rv8bpygw95z7h";
  }

  lemma Pow2Of23()
    ensures Pow2(23) == 8388608
  {
    assert Pow2(8) == 256;
    assert Pow2(16) == 65536;
  }

  /** 8388608 is 9, 2, 18, 1, 8 in base 31, i.e. "867nv". */
  lemma NumeralOf8388608()
    ensures Numeral(DEFAULT_ALPHABET, 8388608) == "867nv"
  {
    var a := DEFAULT_ALPHABET;
    assert |a| == 31;
    assert a[9] == '8' && a[2] == '6' && a[18] == '7' && a[1] == 'n' && a[8] == 'v';
    assert Numeral(a, 9) == "8";
    assert Numeral(a, 281) == Numeral(a, 9) + [a[2]];
    assert Numeral(a, 8729) == Numeral(a, 281) + [a[18]];
    assert Numeral(a, 270600) == Numeral(a, 8729) + [a[1]];
    assert Numeral(a, 8388608) == Numeral(a, 270600) + [a[8]];
  }

  /** `encode_url(1, 5) == "867nv"` (src/lib.rs:39, src/lib.rs:144). */
  lemma EncodeUrlOne()
    ensures EncodeUrl(DefaultEncoder(), 1, MIN_LENGTH) == "867nv"
  {
    Pow2StrictlyMonotone(0, WORD_BITS);
    NewEncodesOne(DEFAULT_ALPHABET, DEFAULT_BLOCK_SIZE);
    Pow2Of23();
    NumeralOf8388608();
  }

  /** `decode_url("867nv") == Ok(1)` (src/lib.rs:50, src/lib.rs:151). */
  lemma DecodeUrlOne()
    ensures DebaseFits(DEFAULT_ALPHABET, "867nv")
    ensures DecodeUrl(DefaultEncoder(), "867nv") == Ok(1)
  {
    var e := DefaultEncoder();
    DefaultAlphabetValid();
    EncodeUrlOne();
    Pow2StrictlyMonotone(0, WORD_BITS);
    assert Pow(31, 5) == 28629151;
    Pow2Monotone(25, WORD_BITS);
    assert Pow2(25) == 33554432 by { Pow2Of23(); }
    DebaseFitsShort(DEFAULT_ALPHABET, "867nv");
    UrlRoundTrip(e, 1, MIN_LENGTH);
  }

  /** Six default symbols never overflow `debase`: `31^6 <= 2^30`. */
  lemma SixSymbolsFit(s: string)
    requires |s| == 6
    ensures DebaseFits(DEFAULT_ALPHABET, s)
  {
    assert Pow(31, 6) == 887503681;
    Pow2Monotone(30, WORD_BITS);
    assert Pow2(30) == 1073741824 by { Pow2Of23(); }
    DebaseFitsShort(DEFAULT_ALPHABET, s);
  }

  /** Decoding a string with a symbol outside the alphabet fails with
      `InvalidString` (src/lib.rs:52-55, src/lib.rs:128). */
  lemma DecodeUrlForeignSymbol()
    ensures DebaseFits(DEFAULT_ALPHABET, "867nv!")
    ensures DecodeUrl(DefaultEncoder(), "867nv!") == Err(InvalidString)
  {
    var s := "867nv!";
    SixSymbolsFit(s);
    BangIsForeign();
    assert s[5] !in DEFAULT_ALPHABET;
  }

  lemma BangIsForeign()
    ensures '!' !in DEFAULT_ALPHABET
  {
  }

  /** With block size 24 and the 31 default symbols, every value below
      `2^24` is encoded in exactly `MIN_LENGTH` symbols: its encoding stays
      below `2^24 < 31^5`, so padding brings it to five symbols. */
  lemma DefaultLengthFive(x: nat)
    requires x < Pow2(DEFAULT_BLOCK_SIZE)
    ensures x < WORD
    ensures |EncodeUrl(DefaultEncoder(), x, MIN_LENGTH)| == MIN_LENGTH
  {
    var e := DefaultEncoder();
    EncodeBelowBlock(e, x);
    var y := Encode(e, x);
    assert Pow2(24) == 16777216 by { Pow2Of23(); }
    assert Pow(31, 5) == 28629151;
    var len := |Numeral(DEFAULT_ALPHABET, y)|;
    NumeralLength(DEFAULT_ALPHABET, y);
    if len > 5 {
      PowMonotone(31, 5, len - 1);
    }
  }

  lemma WordValue()
    ensures WORD == 18446744073709551616
  {
    assert Pow2(8) == 256;
    Pow2Add(8, 8);
    assert Pow2(16) == 65536;
    Pow2Add(16, 16);
    assert Pow2(32) == 4294967296;
    Pow2Add(32, 32);
    assert Pow2(WORD_BITS) == 4294967296 * 4294967296;
  }

  /** `31^13` is more than a word holds, while `31^12` is not. */
  lemma ThirteenthPowerOverflows()
    ensures Pow(31, 12) < WORD <= Pow(31, 13)
  {
    WordValue();
    assert Pow(31, 1) == 31;
    assert Pow(31, 2) == 961;
    assert Pow(31, 3) == 29791;
    assert Pow(31, 4) == 923521;
    assert Pow(31, 5) == 28629151;
    assert Pow(31, 6) == 887503681;
    assert Pow(31, 7) == 27512614111;
    assert Pow(31, 8) == 852891037441;
    assert Pow(31, 9) == 26439622160671;
    assert Pow(31, 10) == 819628286980801;
    assert Pow(31, 11) == 25408476896404831;
    assert Pow(31, 12) == 787662783788549761;
    assert Pow(31, 13) == 24417546297445042591;
  }

  /** Where `debase` overflows: with the default alphabet, a string of 14
      symbols makes `n.pow(13)` exceed a word, since `31^13 > 2^64`, even for
      the padded encoding of 0 (src/lib.rs:129). */
  lemma FourteenSymbolsOverflow()
    ensures EncodeUrl(DefaultEncoder(), 0, 14) == Repeat('m', 14)
    ensures !DebaseFits(DEFAULT_ALPHABET, EncodeUrl(DefaultEncoder(), 0, 14))
  {
    var a := DEFAULT_ALPHABET;
    DefaultAlphabetValid();
    EncodeZero();
    EnbaseZero(a, 14);
    assert a[0] == 'm';
    ThirteenthPowerOverflows();
    EnbaseFits(a, 0, 14);
  }

  /** The default encoder maps 0 to 0. */
  lemma EncodeZero()
    ensures Encode(DefaultEncoder(), 0) == 0
  {
    var e := DefaultEncoder();
    Pow2StrictlyMonotone(0, DEFAULT_BLOCK_SIZE);
    EncodeBelowBlock(e, 0);
    PermutedZero(e.mapping, DEFAULT_BLOCK_SIZE);
  }

  /** With the default encoder, `decode_url(encode_url(n, m)) == Ok(n)` for
      every word `n` and every `min_length` up to 13, the default 5 among
      them. */
  lemma DefaultRoundTrip(n: nat, minLength: nat)
    requires n < WORD && minLength <= 13
    ensures DebaseFits(DEFAULT_ALPHABET, EncodeUrl(DefaultEncoder(), n, minLength))
    ensures DecodeUrl(DefaultEncoder(), EncodeUrl(DefaultEncoder(), n, minLength)) == Ok(n)
  {
    DefaultAlphabetValid();
    ThirteenthPowerOverflows();
    if minLength >= 1 {
      PowBelow(31, minLength - 1, 12, WORD);
    }
    UrlRoundTripFits(DefaultEncoder(), n, minLength);
  }
}
