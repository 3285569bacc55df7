/**
 * What the copy engine of bl.js (`copy`, and `slice` on top of it) reads
 * out of a list, stated on the list's logical byte string.
 */
module CopyEngine {
  import opened Wrappers
  import opened Chunks
  import opened Offsets

  /** A pair of logical bounds `lo..hi`. */
  datatype Range = Range(lo: int, hi: int)

  /**
   * What `copy` returns: a buffer when it had no destination (`slice`), the
   * destination itself, or (single-chunk path) the number of bytes copied.
   */
  datatype CopyResult = Bytes(bytes: seq<byte>) | Destination | CopiedCount(count: nat)

  /** A bound of Node's `Buffer#slice`: negative counts from the end, then clamped into the buffer. */
  function ClampBound(x: int, len: nat): (r: nat)
    ensures r <= len
    ensures 0 <= x <= len ==> r == x
  {
    if x < 0 then Max(x + len, 0) else Min(x, len)
  }

  /**
   * Node's `buf.slice(start, end)`: both bounds are clamped into the buffer
   * (a negative one counting from its end) and a reversed range is empty.
   */
  function NodeSlice(b: seq<byte>, start: int, end: int): (r: seq<byte>)
    ensures |r| <= |b|
    ensures 0 <= start <= end <= |b| ==> r == b[start..end]
  {
    var lo, hi := ClampBound(start, |b|), ClampBound(end, |b|);
    if hi <= lo then [] else b[lo..hi]
  }

  /** `slice`'s first step: a bound given as a negative number has the list length added. */
  function FromEnd(x: Option<int>, len: int): Option<int>
  {
    if x.Some? && x.value < 0 then Some(x.value + len) else x
  }

  /** `copy`'s clamping: a missing or negative start becomes 0, a missing or too large end the length. */
  function CopyBounds(len: int, srcStart: Option<int>, srcEnd: Option<int>): (r: Range)
    ensures 0 <= r.lo && r.hi <= len
  {
    Range(if srcStart.None? || srcStart.value < 0 then 0 else srcStart.value,
          if srcEnd.None? || srcEnd.value > len then len else srcEnd.value)
  }

  /**
   * The bytes `copy(dst, dstStart, srcStart, srcEnd)` transfers: the clamped
   * window of the logical string, empty when the start is at or past the end,
   * the end at or before 0, or the end at or before the start.
   */
  function Requested(flat: seq<byte>, srcStart: Option<int>, srcEnd: Option<int>): seq<byte>
  {
    var r := CopyBounds(|flat|, srcStart, srcEnd);
    if r.lo >= |flat| || r.hi <= 0 || r.hi <= r.lo then [] else flat[r.lo..r.hi]
  }

  /** What `slice(start, end)` returns: `copy`'s window after negative bounds are counted from the end. */
  function SliceOf(flat: seq<byte>, start: Option<int>, end: Option<int>): seq<byte>
  {
    Requested(flat, FromEnd(start, |flat|), FromEnd(end, |flat|))
  }

  /**
   * `copy` takes its single-chunk path: a non-empty range, not the whole
   * list, that fits in the chunk holding its start.
   */
  predicate OneChunkRange(bufs: seq<Chunk>, srcStart: Option<int>, srcEnd: Option<int>)
  {
    var len := |Flat(bufs)|;
    var r := CopyBounds(len, srcStart, srcEnd);
    r.lo < len && 0 < r.hi && r.lo < r.hi && !(r.lo == 0 && r.hi == len) &&
    (ResolveWithinChunk(bufs, r.lo);
     var p := Resolve(bufs, r.lo);
     r.hi - r.lo <= |bufs[p.index]| - p.offset)
  }

  /** For bounds already inside the list, the single-chunk path is taken when the range is not the whole list and fits the chunk holding its start. */
  lemma OneChunkRangeInside(bufs: seq<Chunk>, s: int, e: int)
    requires 0 <= s < e <= |Flat(bufs)|
    ensures var p := Resolve(bufs, s);
      p.index < |bufs| && 0 <= p.offset <= |bufs[p.index]| &&
      (OneChunkRange(bufs, Some(s), Some(e)) <==>
        !(s == 0 && e == |Flat(bufs)|) && e - s <= |bufs[p.index]| - p.offset)
  {
    ResolveWithinChunk(bufs, s);
  }

  /** Every slice is the window between its two bounds clamped into the list, and empty when they are reversed. */
  lemma SliceIsWindow(flat: seq<byte>, start: Option<int>, end: Option<int>)
    ensures var b := CopyBounds(|flat|, FromEnd(start, |flat|), FromEnd(end, |flat|));
      var lo := Min(b.lo, |flat|);
      var hi := Max(lo, Max(b.hi, 0));
      SliceOf(flat, start, end) == flat[lo..hi]
      && (b.hi <= b.lo ==> SliceOf(flat, start, end) == [])
  {
  }

  /** Bounds inside the list select exactly that range. */
  lemma SliceInRange(flat: seq<byte>, s: int, e: int)
    requires 0 <= s <= e <= |flat|
    ensures SliceOf(flat, Some(s), Some(e)) == flat[s..e]
  {
  }

  /** With no bounds, or bounds 0 and the length, a slice is the whole logical string. */
  lemma SliceWhole(flat: seq<byte>)
    ensures SliceOf(flat, None, None) == flat
    ensures SliceOf(flat, Some(0), Some(|flat|)) == flat
  {
  }

  /**
   * Negative bounds count from the end: `slice(-k, -j)` equals
   * `slice(length - k, length - j)`. An end of `-0` is 0, not the length,
   * hence `j >= 1`.
   */
  lemma SliceFromEnd(flat: seq<byte>, k: int, j: int)
    requires 1 <= j <= k <= |flat|
    ensures SliceOf(flat, Some(-k), Some(-j)) == SliceOf(flat, Some(|flat| - k), Some(|flat| - j))
    ensures SliceOf(flat, Some(-k), Some(-j)) == flat[|flat| - k .. |flat| - j]
  {
  }

  /**
   * `copy(null, 0, start, end)` as bl.js:140-181 writes it: the single-chunk
   * path hands `start + bytes` to `Buffer#slice` even when `bytes` is
   * negative, and Node then counts that end from the end of the chunk. The
   * cross-chunk path is the window (`BufferList.Copy` proves its loop).
   */
  function SliceAsWritten(bufs: seq<Chunk>, start: Option<int>, end: Option<int>): seq<byte>
  {
    var len := |Flat(bufs)|;
    var r := CopyBounds(len, FromEnd(start, len), FromEnd(end, len));
    if r.lo >= len || r.hi <= 0 then []
    else if r.lo == 0 && r.hi == len then Flat(bufs)
    else
      ResolveWithinChunk(bufs, r.lo);
      var p := Resolve(bufs, r.lo);
      var bytes := r.hi - r.lo;
      if bytes <= |bufs[p.index]| - p.offset then NodeSlice(bufs[p.index], p.offset, p.offset + bytes)
      else Flat(bufs)[r.lo..r.hi]
  }

  /**
   * A reversed range is not always empty as written: on chunks [0,1,2] and
   * [3,4,5,6,7], `slice(4, 1)` resolves offset 4 to chunk 1, local 1, and
   * asks that chunk for `slice(1, -2)`, which is [4, 5].
   */
  lemma ReversedSliceAsWritten()
    ensures var bufs: seq<Chunk> := [[0, 1, 2], [3, 4, 5, 6, 7]];
      SliceAsWritten(bufs, Some(4), Some(1)) == [4, 5] &&
      SliceOf(Flat(bufs), Some(4), Some(1)) == []
  {
    var bufs: seq<Chunk> := [[0, 1, 2], [3, 4, 5, 6, 7]];
    assert Flat(bufs) == [0, 1, 2, 3, 4, 5, 6, 7] by {
      assert bufs[1..][1..] == [];
    }
    assert Start(bufs, 1) == 3 && Start(bufs, 2) == 8;
    assert Resolve(bufs, 4) == Pos(1, 1);
  }

  /**
   * What `copy(dst, dstStart, srcStart, srcEnd)` returns, with a
   * destination, as bl.js:140-203 writes it. On the single-chunk path it
   * returns what Node's `Buffer#copy(dst, dstStart, start, start + bytes)`
   * returns, even when `bytes` is negative: a RangeError for a negative
   * source end, and 0 bytes for a source end at or before the source start.
   * Only the result is modelled here, not the bytes written.
   */
  function CopyIntoAsWritten(bufs: seq<Chunk>, srcStart: Option<int>, srcEnd: Option<int>): Outcome<CopyResult>
  {
    var len := |Flat(bufs)|;
    var r := CopyBounds(len, srcStart, srcEnd);
    if r.lo >= len || r.hi <= 0 then Ok(Destination)
    else if r.lo == 0 && r.hi == len then Ok(Destination)
    else
      ResolveWithinChunk(bufs, r.lo);
      var p := Resolve(bufs, r.lo);
      var bytes := r.hi - r.lo;
      if bytes <= |bufs[p.index]| - p.offset then
        var to := p.offset + bytes;
        if to < 0 then Throws(RangeError) else Ok(CopiedCount(Max(to - p.offset, 0)))
      else Ok(Destination)
  }

  /**
   * Outside reversed ranges the result as written is the corrected one:
   * the byte count exactly on the single-chunk path, the destination
   * otherwise.
   */
  lemma CopyIntoAgrees(bufs: seq<Chunk>, srcStart: Option<int>, srcEnd: Option<int>)
    requires var r := CopyBounds(|Flat(bufs)|, srcStart, srcEnd); r.lo < r.hi
    ensures CopyIntoAsWritten(bufs, srcStart, srcEnd) ==
      if OneChunkRange(bufs, srcStart, srcEnd) then Ok(CopiedCount(|Requested(Flat(bufs), srcStart, srcEnd)|))
      else Ok(Destination)
  {
    var len := |Flat(bufs)|;
    var r := CopyBounds(len, srcStart, srcEnd);
    if r.lo < len && 0 < r.hi && !(r.lo == 0 && r.hi == len) {
      ResolveWithinChunk(bufs, r.lo);
      assert |Requested(Flat(bufs), srcStart, srcEnd)| == r.hi - r.lo;
    }
  }

  /**
   * With a destination, a reversed or empty range inside the list does not
   * leave the destination returned as written: on chunks [0,1,2] and
   * [3,4,5,6,7], `copy(dst, 0, 4, 1)` asks chunk 1 to copy from 1 to -2, a
   * RangeError; `copy(dst, 0, 6, 5)` asks it to copy from 3 to 2 and
   * `copy(dst, 0, 4, 4)` from 1 to 1, both of which return 0. The window is
   * empty in all three.
   */
  lemma ReversedCopyAsWritten()
    ensures var bufs: seq<Chunk> := [[0, 1, 2], [3, 4, 5, 6, 7]];
      CopyIntoAsWritten(bufs, Some(4), Some(1)) == Throws(RangeError) &&
      CopyIntoAsWritten(bufs, Some(6), Some(5)) == Ok(CopiedCount(0)) &&
      CopyIntoAsWritten(bufs, Some(4), Some(4)) == Ok(CopiedCount(0)) &&
      Requested(Flat(bufs), Some(4), Some(1)) == [] &&
      Requested(Flat(bufs), Some(6), Some(5)) == [] &&
      Requested(Flat(bufs), Some(4), Some(4)) == []
  {
    var bufs: seq<Chunk> := [[0, 1, 2], [3, 4, 5, 6, 7]];
    assert Flat(bufs) == [0, 1, 2, 3, 4, 5, 6, 7] by {
      assert bufs[1..][1..] == [];
    }
    assert Start(bufs, 1) == 3 && Start(bufs, 2) == 8;
    assert Resolve(bufs, 4) == Pos(1, 1);
    assert Resolve(bufs, 6) == Pos(1, 3);
  }

  /** The destination of a copy after `w` is written at `at`. */
  function Overwrite(d: seq<byte>, at: nat, w: seq<byte>): (r: seq<byte>)
    requires at + |w| <= |d|
    ensures |r| == |d|
  {
    d[..at] + w + d[at + |w|..]
  }

  /** Two adjacent writes are one write of both. */
  lemma OverwriteTwice(d: seq<byte>, at: nat, w1: seq<byte>, w2: seq<byte>)
    requires at + |w1| + |w2| <= |d|
    ensures Overwrite(Overwrite(d, at, w1), at + |w1|, w2) == Overwrite(d, at, w1 + w2)
  {
    var once := Overwrite(d, at, w1);
    assert once[..at + |w1|] == d[..at] + w1;
    assert once[at + |w1| + |w2|..] == d[at + |w1| + |w2|..];
  }

  /** Writing window `a..b` of `src` and then `piece`, equal to window `b..c`, right after it is one write of window `a..c`. */
  lemma OverwriteJoin(d: seq<byte>, at: nat, src: seq<byte>, a: nat, b: nat, c: nat, piece: seq<byte>)
    requires a <= b <= c <= |src| && at + (c - a) <= |d| && piece == src[b..c]
    ensures Overwrite(Overwrite(d, at, src[a..b]), at + (b - a), piece) == Overwrite(d, at, src[a..c])
  {
    OverwriteTwice(d, at, src[a..b], piece);
    assert src[a..b] + piece == src[a..c];
  }
}
