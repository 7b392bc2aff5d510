/** Powers of two, the largest int64, and white space. */
module Basics {
  const MAX_INT64: int := 0x7fff_ffff_ffff_ffff

  function Pow2(k: nat): nat {
    if k == 0 then 1 else 2 * Pow2(k - 1)
  }

  /** ASCII white space. */
  predicate Blank(c: char) { c == ' ' || '\t' <= c <= '\r' }
}
