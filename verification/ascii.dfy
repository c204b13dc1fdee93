/**
 * The ASCII character tests and case mapping of Rust's `char` that both
 * game front ends rely on: `is_ascii`, `is_ascii_alphabetic` and
 * `to_ascii_lowercase`.
 */
module Ascii {

  /** `char::is_ascii`: the code point is below 128. */
  predicate IsAscii(c: char) { c as int < 128 }

  predicate IsUpper(c: char) { 'A' <= c <= 'Z' }

  predicate IsLower(c: char) { 'a' <= c <= 'z' }

  /** `char::is_ascii_alphabetic`. */
  predicate IsAlphabetic(c: char) { IsUpper(c) || IsLower(c) }

  /**
   * `char::to_ascii_lowercase`: maps 'A'..'Z' to 'a'..'z' and leaves every
   * other character, ASCII or not, as it is.
   */
  function ToLower(c: char): (r: char)
    ensures !IsUpper(r)
    ensures IsAscii(c) <==> IsAscii(r)
    ensures IsAlphabetic(c) <==> IsLower(r)
    ensures !IsUpper(c) ==> r == c
    ensures IsUpper(c) ==> r as int == c as int + 32
  {
    if IsUpper(c) then (c as int + 32) as char else c
  }

  /** Every character of `s` is a lower-case ASCII letter. */
  predicate AllLower(s: string)
  {
    forall i :: 0 <= i < |s| ==> IsLower(s[i])
  }

  /** No character of `s` is an upper-case ASCII letter. */
  predicate NoUpper(s: string)
  {
    forall i :: 0 <= i < |s| ==> !IsUpper(s[i])
  }
}
