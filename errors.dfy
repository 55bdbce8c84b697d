/** The codec's error kinds and its result type (src/err.rs, src/lib.rs:5). */
module ShortErrors {

  /** `InvalidString`: a decoded string holds a symbol outside the alphabet.
      `InvalidNumber`: a number does not fit a `usize`; the codec never produces it. */
  datatype ShortError = InvalidString | InvalidNumber

  datatype Result<+T> = Ok(value: T) | Err(error: ShortError)
}
