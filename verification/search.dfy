/**
 * Occurrences of a byte pattern, and the per-chunk search that bl.js takes
 * from Node's `Buffer#indexOf`.
 */
module Search {
  import opened Chunks
  import opened Wrappers

  /** `nd` occurs in `s` starting at position `p`. */
  predicate OccursAt(s: seq<byte>, nd: seq<byte>, p: int)
  {
    0 <= p && p + |nd| <= |s| && s[p..p + |nd|] == nd
  }

  /** `nd` occurs nowhere in `s` starting in `lo..hi`. */
  ghost predicate AbsentIn(s: seq<byte>, nd: seq<byte>, lo: int, hi: int)
  {
    forall p :: lo <= p < hi ==> !OccursAt(s, nd, p)
  }

  /** `nd` occurs nowhere in `s` starting at or after `lo`. */
  ghost predicate AbsentFrom(s: seq<byte>, nd: seq<byte>, lo: int)
  {
    forall p :: lo <= p ==> !OccursAt(s, nd, p)
  }

  /**
   * Node's `buf.indexOf(value, byteOffset)` on one chunk, for a
   * non-negative `byteOffset`: an empty pattern is found at the offset
   * clamped to the chunk; otherwise the leftmost occurrence at or after the
   * offset, or -1.
   */
  function ChunkIndexOf(c: Chunk, nd: seq<byte>, from: nat): (r: int)
    ensures nd == [] ==> r == Min(from, |c|)
    ensures nd != [] && r != -1 ==> from <= r && OccursAt(c, nd, r) && AbsentIn(c, nd, from, r)
    ensures nd != [] && r == -1 ==> AbsentFrom(c, nd, from)
    decreases |c| - from
  {
    if nd == [] then Min(from, |c|)
    else if from + |nd| > |c| then -1
    else if c[from..from + |nd|] == nd then from
    else ChunkIndexOf(c, nd, from + 1)
  }
}
