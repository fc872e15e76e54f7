/**
 Character classes used by the three components. Rust's `char::is_whitespace`
 is the Unicode `White_Space` property and `char::is_control` is the general
 category `Cc`; both are finite sets of code points and are written out here.
 The splitter reads raw bytes and converts each with `byte as char`, which maps
 each byte to the code point with the byte's value (U+0000 to U+00FF).
 */
module Chars {

  newtype byte = x: int | 0 <= x < 256

  /** `b as char` in Rust: the Latin-1 code point with the byte's value. */
  function ToChar(b: byte): (c: char)
    ensures c as int == b as int
  {
    (b as int) as char
  }

  /** Rust `char::is_whitespace` (Unicode White_Space). */
  predicate IsWhitespace(c: char) {
    || '\U{9}' <= c <= '\U{D}'
    || c == '\U{20}'
    || c == '\U{85}'
    || c == '\U{A0}'
    || c == '\U{1680}'
    || '\U{2000}' <= c <= '\U{200A}'
    || c == '\U{2028}'
    || c == '\U{2029}'
    || c == '\U{202F}'
    || c == '\U{205F}'
    || c == '\U{3000}'
  }

  /** Rust `char::is_control` (general category Cc). */
  predicate IsControl(c: char) {
    || c <= '\U{1F}'
    || '\U{7F}' <= c <= '\U{9F}'
  }
}
