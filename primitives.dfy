/** The Rust primitive types the encoder relies on, as Dafny values. */
module Primitives {

  /** Rust's `u8`. */
  type u8 = v: int | 0 <= v < 256

  /**
   * Rust's growable `String`, reduced to what the encoder uses: a sequence of
   * characters that `push` extends at the end. It is a class so that a callee
   * can append to a buffer the caller owns (`&mut String`).
   */
  class StringBuffer {
    var chars: string

    constructor ()
      ensures chars == []
    {
      chars := [];
    }

    /** `String::push`. */
    method Push(c: char)
      modifies this
      ensures chars == old(chars) + [c]
    {
      chars := chars + [c];
    }
  }
}
