/**
 * The offset resolver of bl.js: `_offset` maps a logical offset to a chunk
 * position, `_index` maps a chunk position back to a logical offset.
 */
module Offsets {
  import opened Chunks

  /** A chunk position `[index, offset]` as `_offset` returns it. */
  datatype Pos = Pos(index: nat, offset: int)

  /**
   * What `_offset(offset)` returns. Offset 0 answers (0, 0) outright; any
   * other offset scans for the first chunk whose end lies past it, stopping
   * at the last chunk in any case. On an empty list a non-zero offset falls
   * off the scan (the code returns `undefined`), hence the precondition.
   */
  function Resolve(bufs: seq<Chunk>, offset: int): Pos
    requires offset == 0 || |bufs| > 0
  {
    if offset == 0 then Pos(0, 0) else ResolveFrom(bufs, offset, 0)
  }

  /** The scan of `Resolve`, from chunk `i` on. */
  function ResolveFrom(bufs: seq<Chunk>, offset: int, i: nat): Pos
    requires i < |bufs|
    decreases |bufs| - i
  {
    if offset < Start(bufs, i + 1) || i == |bufs| - 1 then Pos(i, offset - Start(bufs, i))
    else ResolveFrom(bufs, offset, i + 1)
  }

  lemma {:induction false} ResolveFromFacts(bufs: seq<Chunk>, offset: int, i: nat)
    requires i < |bufs| && Start(bufs, i) <= offset
    ensures var p := ResolveFrom(bufs, offset, i);
      i <= p.index < |bufs| && Start(bufs, p.index) + p.offset == offset &&
      (forall j :: i < j <= p.index ==> Start(bufs, j) <= offset) &&
      (p.index < |bufs| - 1 ==> offset < Start(bufs, p.index + 1))
    decreases |bufs| - i
  {
    if offset < Start(bufs, i + 1) || i == |bufs| - 1 {
    } else {
      ResolveFromFacts(bufs, offset, i + 1);
    }
  }

  /**
   * `_index(_offset(offset)) == offset`: the position names the offset it was
   * resolved from, and its chunk exists unless the list is empty.
   */
  lemma ResolveInverts(bufs: seq<Chunk>, offset: int)
    requires 0 <= offset && (offset == 0 || |bufs| > 0)
    ensures var p := Resolve(bufs, offset);
      (p.index < |bufs| || (|bufs| == 0 && p.index == 0)) &&
      Start(bufs, p.index) + p.offset == offset
  {
    if offset != 0 {
      ResolveFromFacts(bufs, offset, 0);
    }
  }

  /**
   * Strictly inside the list, the position lies in the first chunk whose
   * end is past the offset, at a local offset inside that chunk.
   */
  lemma ResolveInside(bufs: seq<Chunk>, offset: int)
    requires 0 < offset < |Flat(bufs)|
    ensures |bufs| > 0
    ensures var p := Resolve(bufs, offset);
      p.index < |bufs| && 0 <= p.offset < |bufs[p.index]| &&
      Start(bufs, p.index) <= offset < Start(bufs, p.index + 1) &&
      (forall j :: 0 < j <= p.index ==> Start(bufs, j) <= offset)
  {
    ResolveFromFacts(bufs, offset, 0);
    TotalIsStartOfEnd(bufs);
  }

  /** At or past the end of a non-empty list, the position lies in the last chunk, at or past its end. */
  lemma ResolvePastEnd(bufs: seq<Chunk>, offset: int)
    requires |bufs| > 0 && 0 < offset && |Flat(bufs)| <= offset
    ensures var p := Resolve(bufs, offset);
      p.index == |bufs| - 1 && p.offset >= |bufs[|bufs| - 1]|
  {
    ResolveFromFacts(bufs, offset, 0);
    TotalIsStartOfEnd(bufs);
    var p := Resolve(bufs, offset);
    if p.index < |bufs| - 1 {
      StartMonotone(bufs, p.index + 1, |bufs|);
    }
  }

  /** Every chunk after the resolved one begins at or after the offset. */
  lemma ResolveLater(bufs: seq<Chunk>, offset: int, j: nat)
    requires 0 <= offset && (offset == 0 || |bufs| > 0)
    requires Resolve(bufs, offset).index < j < |bufs|
    ensures offset <= Start(bufs, j)
  {
    if offset != 0 {
      var p := Resolve(bufs, offset);
      ResolveFromFacts(bufs, offset, 0);
      StartMonotone(bufs, p.index + 1, j);
    }
  }

  /** At offset 0, or strictly inside the list, the local offset lies inside its chunk (or the list is empty). */
  lemma ResolveWithinChunk(bufs: seq<Chunk>, offset: int)
    requires 0 <= offset < |Flat(bufs)| || offset == 0
    ensures var p := Resolve(bufs, offset);
      (p.index < |bufs| && 0 <= p.offset <= |bufs[p.index]|) || (|bufs| == 0 && p == Pos(0, 0))
  {
    if offset > 0 {
      ResolveInside(bufs, offset);
    }
  }
}
