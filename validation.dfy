/**
 * The field rules that the controllers' request validation applies, as plain
 * predicates on already-typed values: `max:255`, `required` on a string, and
 * the `between` bounds of a coordinate.
 */
module Validation {

  /** The bound of every `max:255` rule on a string field. */
  const MaxLength: nat := 255

  const MinLatitude: real := -90.0
  const MaxLatitude: real := 90.0
  const MinLongitude: real := -180.0
  const MaxLongitude: real := 180.0

  /** `max:255` on a string counts characters. */
  predicate FitsColumn(s: string) {
    |s| <= MaxLength
  }

  /** The characters PHP's `trim` removes. */
  predicate Blank(c: char) {
    c == ' ' || c == '\t' || c == '\n' || c == '\r' || c == '\U{0000}' || c == '\U{000B}'
  }

  /** `required` on a string: some character survives trimming. */
  predicate Filled(s: string) {
    exists i :: 0 <= i < |s| && !Blank(s[i])
  }

  /** `between:-90,90`, both bounds included. */
  predicate IsLatitude(x: real) {
    MinLatitude <= x <= MaxLatitude
  }

  /** `between:-180,180`, both bounds included. */
  predicate IsLongitude(x: real) {
    MinLongitude <= x <= MaxLongitude
  }
}
