/** Small shared types. */
module Basics {

  datatype Option<+T> = None | Some(value: T)

  /** A stretch of addresses. */
  datatype Span = Span(lo: nat, len: nat) {
    predicate Has(k: int) { lo <= k < lo + len }
  }

  /** Empty, or one ends before the other starts. */
  predicate Apart(a: Span, b: Span) {
    a.len == 0 || b.len == 0 || a.lo + a.len <= b.lo || b.lo + b.len <= a.lo
  }
}
