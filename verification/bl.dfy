/**
 * The BufferList of bl.js: an ordered list of Buffer chunks with a cached
 * total length, read and written as the one byte string they concatenate to.
 */
module BufferLists {
  import opened Wrappers
  import opened Chunks
  import opened Offsets
  import opened Search
  import opened CopyEngine
  import opened Shallow
  import opened Consume
  import opened Decimal
  import opened Integers

  /** The integers a JavaScript number holds exactly; `append` writes them in decimal. */
  type SafeInteger = n: int | -0x1F_FFFF_FFFF_FFFF <= n <= 0x1F_FFFF_FFFF_FFFF

  /** The argument shapes `append` and the constructor accept. */
  datatype Input =
    | Buf(chunk: Chunk)            // a Buffer
    | Items(items: seq<Input>)     // an array, appended element by element
    | List(list: BufferList)       // another BufferList, unwrapped chunk by chunk
    | Number(n: SafeInteger)       // a number, appended as its decimal text
    | Text(bytes: seq<byte>)       // a string, taken as already encoded
    | Nothing                      // null or undefined

  /** The other lists an input refers to. */
  ghost function Lists(x: Input): set<BufferList>
    decreases x, 1
  {
    match x
    case List(l) => {l}
    case Items(xs) => ListsIn(xs)
    case _ => {}
  }

  ghost function ListsIn(xs: seq<Input>): set<BufferList>
    decreases xs, 0
  {
    set j, l | 0 <= j < |xs| && l in Lists(xs[j]) :: l
  }

  /** The chunks `append(x)` pushes, in order. */
  function Flatten(x: Input): seq<Chunk>
    reads Lists(x)
    decreases x, 1
  {
    match x
    case Buf(c) => [c]
    case Items(xs) => FlattenAll(xs)
    case List(l) => l.bufs
    case Number(n) => [DecimalText(n)]
    case Text(b) => [b]
    case Nothing => []
  }

  function FlattenAll(xs: seq<Input>): seq<Chunk>
    reads ListsIn(xs)
    decreases xs, 0
  {
    if xs == [] then [] else FlattenAll(xs[..|xs| - 1]) + Flatten(xs[|xs| - 1])
  }

  /** A list allocated by now is none of the lists an older input refers to. */
  twostate lemma {:induction false} FreshNotListed(x: Input, new l: BufferList)
    requires fresh(l)
    ensures l !in Lists(x)
    decreases x
  {
    match x {
      case Items(xs) =>
        forall j | 0 <= j < |xs|
          ensures l !in Lists(xs[j])
        {
          FreshNotListed(xs[j], l);
        }
      case _ =>
    }
  }

  /** Flattening one more element of an array appends that element's chunks. */
  lemma FlattenAllPush(xs: seq<Input>, i: nat)
    requires i < |xs|
    ensures ListsIn(xs[..i + 1]) == ListsIn(xs[..i]) + Lists(xs[i])
    ensures FlattenAll(xs[..i + 1]) == FlattenAll(xs[..i]) + Flatten(xs[i])
  {
    assert xs[..i + 1][..i] == xs[..i];
    forall l | l in ListsIn(xs[..i + 1])
      ensures l in ListsIn(xs[..i]) + Lists(xs[i])
    {
      var j :| 0 <= j < i + 1 && l in Lists(xs[..i + 1][j]);
      if j < i {
        assert xs[..i][j] == xs[..i + 1][j];
      }
    }
    forall l | l in ListsIn(xs[..i]) + Lists(xs[i])
      ensures l in ListsIn(xs[..i + 1])
    {
      if l in Lists(xs[i]) {
        assert xs[..i + 1][i] == xs[i];
      } else {
        var j :| 0 <= j < i && l in Lists(xs[..i][j]);
        assert xs[..i + 1][j] == xs[..i][j];
      }
    }
  }

  /** A prefix of an array, and each element of it, refers to no list the whole array does not. */
  lemma ListsInPrefix(xs: seq<Input>, i: nat)
    requires i < |xs|
    ensures ListsIn(xs[..i]) <= ListsIn(xs) && Lists(xs[i]) <= ListsIn(xs)
  {
    forall l | l in ListsIn(xs[..i])
      ensures l in ListsIn(xs)
    {
      var j :| 0 <= j < i && l in Lists(xs[..i][j]);
      assert xs[..i][j] == xs[j];
    }
  }

  /** The lists an input refers to are allocated wherever the input is. */
  lemma {:induction false} ListedAllocated(x: Input)
    ensures forall l :: l in Lists(x) ==> allocated(l)
    decreases x
  {
    match x {
      case Items(xs) =>
        forall l | l in ListsIn(xs)
          ensures allocated(l)
        {
          var j :| 0 <= j < |xs| && l in Lists(xs[j]);
          ListedAllocated(xs[j]);
        }
      case _ =>
    }
  }

  /** Each chunk wrapped as a Buffer argument, as `shallowSlice` passes its array to the constructor. */
  function AsBuffers(cs: seq<Chunk>): (r: seq<Input>)
    ensures |r| == |cs| && forall i :: 0 <= i < |cs| ==> r[i] == Buf(cs[i])
  {
    if cs == [] then [] else AsBuffers(cs[..|cs| - 1]) + [Buf(cs[|cs| - 1])]
  }

  lemma {:induction false} FlattenBuffers(cs: seq<Chunk>)
    ensures ListsIn(AsBuffers(cs)) == {}
    ensures FlattenAll(AsBuffers(cs)) == cs
  {
    if cs != [] {
      FlattenBuffers(cs[..|cs| - 1]);
      assert AsBuffers(cs)[..|cs| - 1] == AsBuffers(cs[..|cs| - 1]);
      assert cs[..|cs| - 1] + [cs[|cs| - 1]] == cs;
    }
  }

  /** `indexOf`'s needle: a number in 0..255 (one byte value), or a Buffer or string taken as its bytes. */
  datatype Needle = ByteValue(value: byte) | Pattern(bytes: seq<byte>)

  function NeedleBytes(v: Needle): seq<byte>
  {
    match v
    case ByteValue(b) => [b]
    case Pattern(s) => s
  }

  /**
   * `value.length > 1`, read on the needle's bytes: a Buffer of two or more bytes. A number has
   * no length. For a string the test is made here on its encoded bytes, not on the UTF-16 code
   * units that JavaScript's `.length` counts.
   */
  predicate IsMultiByte(v: Needle)
  {
    v.Pattern? && |v.bytes| > 1
  }

  /** Node's `src.copy(dst, at, from, to)` when `dst` has room: bytes `from..to` of `src` land at `at`. */
  method ChunkCopy(src: Chunk, dst: array<byte>, at: nat, from: nat, to: nat) returns (n: nat)
    requires from <= to <= |src| && at + (to - from) <= dst.Length
    modifies dst
    ensures n == to - from
    ensures dst[..] == Overwrite(old(dst[..]), at, src[from..to])
  {
    var j := 0;
    while j < to - from
      invariant 0 <= j <= to - from
      invariant forall q :: 0 <= q < dst.Length ==>
        dst[q] == if at <= q < at + j then src[from + q - at] else old(dst[q])
    {
      dst[at + j] := src[from + j];
      j := j + 1;
    }
    n := to - from;
    assert dst[..] == Overwrite(old(dst[..]), at, src[from..to]);
  }

  /** A one-byte needle missing from chunk `j` from local `from` up to `upto` is missing from those logical offsets. */
  lemma ChunkAbsence(bufs: seq<Chunk>, j: nat, nd: seq<byte>, from: nat, upto: nat, lo: int)
    requires |nd| == 1 && j < |bufs| && upto <= |bufs[j]|
    requires AbsentIn(Flat(bufs), nd, lo, Start(bufs, j))
    requires AbsentIn(bufs[j], nd, from, upto)
    requires from == 0 || Start(bufs, j) + from <= lo
    ensures AbsentIn(Flat(bufs), nd, lo, Start(bufs, j) + upto)
  {
    forall p | lo <= p < Start(bufs, j) + upto
      ensures !OccursAt(Flat(bufs), nd, p)
    {
      if Start(bufs, j) <= p {
        var x := p - Start(bufs, j);
        ChunkWindow(bufs, j, x, x + 1);
        assert !OccursAt(bufs[j], nd, x);
      }
    }
  }

  /** A needle starts with its first byte: where that byte is absent, so is the needle. */
  lemma FirstByteAbsence(s: seq<byte>, value: seq<byte>, lo: int, hi: int)
    requires |value| > 0 && AbsentIn(s, [value[0]], lo, hi)
    ensures AbsentIn(s, value, lo, hi)
  {
    forall p | lo <= p < hi
      ensures !OccursAt(s, value, p)
    {
      if OccursAt(s, value, p) {
        assert s[p..p + 1] == [value[0]];
        assert OccursAt(s, [value[0]], p);
      }
    }
  }

  lemma AbsenceJoin(s: seq<byte>, nd: seq<byte>, a: int, b: int, c: int)
    requires AbsentIn(s, nd, a, b) && AbsentIn(s, nd, b, c)
    ensures AbsentIn(s, nd, a, c)
  {
  }

  /** No needle fits at or after the end of the string. */
  lemma AbsentPastEnd(s: seq<byte>, nd: seq<byte>, lo: int)
    requires |nd| > 0 && AbsentIn(s, nd, lo, |s|)
    ensures AbsentFrom(s, nd, lo)
  {
  }

  /** One step of the candidate comparison: a matching piece extends the match, a differing one rules the candidate out. */
  lemma MatchStep(flat: seq<byte>, value: seq<byte>, index: nat, vo: nat, m: nat, piece: seq<byte>)
    requires vo + m <= |value| && index + vo + m <= |flat|
    requires flat[index + vo .. index + vo + m] == piece
    requires flat[index .. index + vo] == value[..vo]
    ensures piece == value[vo .. vo + m] ==> flat[index .. index + vo + m] == value[..vo + m]
    ensures OccursAt(flat, value, index) ==> piece == value[vo .. vo + m]
  {
    if piece == value[vo .. vo + m] {
      assert flat[index .. index + vo + m] == flat[index .. index + vo] + flat[index + vo .. index + vo + m];
      assert value[..vo + m] == value[..vo] + value[vo .. vo + m];
    }
    if OccursAt(flat, value, index) {
      SubWindow(flat, index, index + |value|, vo, vo + m);
    }
  }

  /**
   * One step of `copy`'s cross-chunk loop: bytes `start..stop` of chunk `c`,
   * which sit at `here` in the logical string `flat`, are written right
   * after the window `s..here` copied so far, which grows to end at the
   * same place in the logical string.
   */
  method CopyPiece(c: Chunk, dst: array<byte>, ghost d0: seq<byte>, ghost flat: seq<byte>, at: nat,
                   s: nat, here: nat, start: nat, stop: nat, bufoff: nat)
    requires start <= stop <= |c| && s <= here && here + (stop - start) <= |flat|
    requires flat[here .. here + (stop - start)] == c[start..stop]
    requires |d0| == dst.Length && at + (here + (stop - start) - s) <= |d0|
    requires bufoff == at + (here - s)
    requires dst[..] == Overwrite(d0, at, flat[s..here])
    modifies dst
    ensures dst[..] == Overwrite(d0, at, flat[s .. here + (stop - start)])
  {
    OverwriteJoin(d0, at, flat, s, here, here + (stop - start), c[start..stop]);
    var _ := ChunkCopy(c, dst, bufoff, start, stop);
  }

  /**
   * The positions in `copy`'s cross-chunk loop before chunk `i`: `bytes`
   * are still to come, starting at local offset `start`, the window from
   * `s` up to there is copied, and `bufoff` is where the next byte goes in
   * a destination of length `room` written from `at`.
   */
  ghost predicate SpanState(bufs: seq<Chunk>, room: int, at: nat, s: int, e: int,
                            i: nat, start: int, bytes: int, bufoff: int)
  {
    i < |bufs| && 0 <= start <= |bufs[i]| && 0 < bytes && Start(bufs, i) + start + bytes == e &&
    0 <= s <= Start(bufs, i) + start && e <= |Flat(bufs)| &&
    at + (e - s) <= room && bufoff == at + (Start(bufs, i) + start - s)
  }

  /** The loop state with the destination: what was `d0` now holds the window copied so far at `at`. */
  ghost predicate SpannedSoFar(bufs: seq<Chunk>, d0: seq<byte>, d: seq<byte>, at: nat, s: int, e: int,
                               i: nat, start: int, bytes: int, bufoff: int)
  {
    SpanState(bufs, |d0|, at, s, e, i, start, bytes, bufoff) && |d| == |d0| &&
    d == Overwrite(d0, at, Flat(bufs)[s .. Start(bufs, i) + start])
  }

  /** Before the first chunk, nothing is copied and all `e - s` bytes are still wanted, from the resolved start on. */
  lemma SpanInit(bufs: seq<Chunk>, d0: seq<byte>, at: nat, s: int, e: int, off: Pos)
    requires 0 <= s < e <= |Flat(bufs)| && at + (e - s) <= |d0|
    requires off == Resolve(bufs, s)
    ensures SpannedSoFar(bufs, d0, d0, at, s, e, off.index, off.offset, e - s, at)
  {
    ResolveWithinChunk(bufs, s);
    ResolveInverts(bufs, s);
    assert Flat(bufs)[s..s] == [];
  }

  /**
   * In the loop state, the piece of chunk `i` from `start` to `stop` sits
   * in the logical string right where the copied window ends, and the
   * destination has room for it.
   */
  lemma SpanPiece(bufs: seq<Chunk>, d0: seq<byte>, d: seq<byte>, at: nat, s: int, e: int,
                  i: nat, start: int, bytes: int, bufoff: int, stop: nat)
    requires SpannedSoFar(bufs, d0, d, at, s, e, i, start, bytes, bufoff)
    requires stop == if bytes > |bufs[i]| - start then |bufs[i]| else start + bytes
    ensures var here := Start(bufs, i) + start;
      start <= stop <= |bufs[i]| && s <= here && here + (stop - start) <= |Flat(bufs)| &&
      Flat(bufs)[here .. here + (stop - start)] == bufs[i][start..stop] &&
      at + (here + (stop - start) - s) <= |d0|
  {
    ChunkWindow(bufs, i, start, stop);
  }

  /** A chunk with fewer bytes than are still wanted is copied whole, and the walk moves to the start of the next chunk, which exists. */
  lemma SpanNext(bufs: seq<Chunk>, room: int, at: nat, s: int, e: int,
                 i: nat, start: int, bytes: int, bufoff: int)
    requires SpanState(bufs, room, at, s, e, i, start, bytes, bufoff)
    requires bytes > |bufs[i]| - start
    ensures i + 1 < |bufs| && Start(bufs, i + 1) == Start(bufs, i) + |bufs[i]|
    ensures SpanState(bufs, room, at, s, e, i + 1, 0, bytes - (|bufs[i]| - start), bufoff + (|bufs[i]| - start))
  {
    assert i + 1 < |bufs| by {
      TotalIsStartOfEnd(bufs);
    }
  }

  /** The last chunk gives the bytes still wanted, which completes the window `s..e`. */
  lemma SpanLast(bufs: seq<Chunk>, d0: seq<byte>, d: seq<byte>, at: nat, s: int, e: int,
                 i: nat, start: int, bytes: int, bufoff: int, d': seq<byte>)
    requires SpannedSoFar(bufs, d0, d, at, s, e, i, start, bytes, bufoff)
    requires d' == Overwrite(d0, at, Flat(bufs)[s .. Start(bufs, i) + start + bytes])
    ensures d' == Overwrite(d0, at, Flat(bufs)[s..e])
  {
  }

  /** A chunk with fewer bytes than are still wanted: the rest of it is copied and the walk moves on. */
  method CopyChunkRest(bufs: seq<Chunk>, dst: array<byte>, ghost d0: seq<byte>, at: nat, s: int, e: int,
                       i: nat, start: int, bytes: int, bufoff: int)
    requires SpannedSoFar(bufs, d0, dst[..], at, s, e, i, start, bytes, bufoff)
    requires bytes > |bufs[i]| - start
    modifies dst
    ensures SpannedSoFar(bufs, d0, dst[..], at, s, e, i + 1, 0, bytes - (|bufs[i]| - start),
                         bufoff + (|bufs[i]| - start))
  {
    ghost var before := dst[..];
    SpanPiece(bufs, d0, before, at, s, e, i, start, bytes, bufoff, |bufs[i]|);
    CopyPiece(bufs[i], dst, d0, Flat(bufs), at, s, Start(bufs, i) + start, start, |bufs[i]|, bufoff);
    SpanNext(bufs, |d0|, at, s, e, i, start, bytes, bufoff);
  }

  /** The chunk that holds the end of the window: the bytes still wanted are copied, which completes it. */
  method CopyChunkLast(bufs: seq<Chunk>, dst: array<byte>, ghost d0: seq<byte>, at: nat, s: int, e: int,
                       i: nat, start: int, bytes: int, bufoff: int)
    requires SpannedSoFar(bufs, d0, dst[..], at, s, e, i, start, bytes, bufoff)
    requires bytes <= |bufs[i]| - start
    modifies dst
    ensures dst[..] == Overwrite(d0, at, Flat(bufs)[s..e])
  {
    ghost var before := dst[..];
    SpanPiece(bufs, d0, before, at, s, e, i, start, bytes, bufoff, start + bytes);
    CopyPiece(bufs[i], dst, d0, Flat(bufs), at, s, Start(bufs, i) + start, start, start + bytes, bufoff);
    SpanLast(bufs, d0, before, at, s, e, i, start, bytes, bufoff, dst[..]);
  }

  /**
   * The cross-chunk loop of `copy` (bl.js:186-201): from the resolved
   * start chunk on, each chunk gives what it has until the requested
   * `e - s` bytes are written at `bufoff0`.
   */
  method CopySpanning(chunks: seq<Chunk>, dst: array<byte>, bufoff0: nat, s: int, e: int, off: Pos)
    requires 0 <= s < e <= |Flat(chunks)| && bufoff0 + (e - s) <= dst.Length
    requires off == Resolve(chunks, s)
    modifies dst
    ensures dst[..] == Overwrite(old(dst[..]), bufoff0, Flat(chunks)[s..e])
  {
    ghost var d0 := dst[..];
    SpanInit(chunks, d0, bufoff0, s, e, off);
    var bytes := e - s;
    var start := off.offset;
    var bufoff := bufoff0;
    var i := off.index;
    while i < |chunks|
      invariant SpannedSoFar(chunks, d0, dst[..], bufoff0, s, e, i, start, bytes, bufoff)
      decreases |chunks| - i
    {
      var l := |chunks[i]| - start;
      if bytes > l {
        CopyChunkRest(chunks, dst, d0, bufoff0, s, e, i, start, bytes, bufoff);
      } else {
        CopyChunkLast(chunks, dst, d0, bufoff0, s, e, i, start, bytes, bufoff);
        break;
      }
      bufoff := bufoff + l;
      bytes := bytes - l;
      if start != 0 {
        start := 0;
      }
      i := i + 1;
    }
  }

  /**
   * An empty needle is found where the search starts, clamped to the end:
   * in the chunk the start resolves to, at its local offset clamped to
   * that chunk.
   */
  lemma EmptyNeedleAt(bufs: seq<Chunk>, off: nat)
    requires |bufs| > 0
    ensures var p := Resolve(bufs, off);
      p.index < |bufs| && 0 <= p.offset &&
      Start(bufs, p.index) + Min(p.offset, |bufs[p.index]|) == Min(off, |Flat(bufs)|)
  {
    ResolveAtOrAfterStart(bufs, off);
    ResolveInverts(bufs, off);
    TotalIsStartOfEnd(bufs);
    if off == 0 || off < |Flat(bufs)| {
      ResolveWithinChunk(bufs, off);
    } else {
      ResolvePastEnd(bufs, off);
    }
  }

  /**
   * A needle found in chunk `j` by the per-chunk search of `indexOf`, at or
   * after the local offset `from` where that search began, is an
   * occurrence in the logical string at or after the search start `off`,
   * and for a one-byte needle the first one there.
   */
  lemma FoundInChunk(bufs: seq<Chunk>, nd: seq<byte>, off: int, j: nat, from: nat, result: int)
    requires j < |bufs| && nd != []
    requires off <= Start(bufs, j) + from && (from == 0 || Start(bufs, j) + from <= off)
    requires from <= result && OccursAt(bufs[j], nd, result) && AbsentIn(bufs[j], nd, from, result)
    requires |nd| == 1 ==> AbsentIn(Flat(bufs), nd, off, Start(bufs, j))
    ensures off <= Start(bufs, j) + result && OccursAt(Flat(bufs), nd, Start(bufs, j) + result)
    ensures |nd| == 1 ==> AbsentIn(Flat(bufs), nd, off, Start(bufs, j) + result)
  {
    OccursInChunk(bufs, j, nd, result);
    if |nd| == 1 {
      ChunkAbsence(bufs, j, nd, from, result, off);
    }
  }

  /** An occurrence inside chunk `j` is an occurrence in the logical string, shifted by where the chunk starts. */
  lemma OccursInChunk(bufs: seq<Chunk>, j: nat, nd: seq<byte>, p: int)
    requires j < |bufs| && OccursAt(bufs[j], nd, p)
    ensures OccursAt(Flat(bufs), nd, Start(bufs, j) + p)
  {
    ChunkWindow(bufs, j, p, p + |nd|);
  }

  /**
   * The two pieces `_indexOfMultiByte` compares, the chunk from `bo` for
   * the rest of the needle and the needle from `vo` for the rest of the
   * chunk, both have the length of the shorter remainder.
   */
  lemma ComparePieces(c: Chunk, bo: int, value: seq<byte>, vo: nat)
    requires 0 <= bo <= |c| && vo < |value|
    ensures var m := Min(|c| - bo, |value| - vo);
      NodeSlice(c, bo, bo + (|value| - vo)) == c[bo .. bo + m] &&
      NodeSlice(value, vo, vo + (|c| - bo)) == value[vo .. vo + m]
  {
  }

  /**
   * The state of the comparison loop of `_indexOfMultiByte` at candidate
   * `index`: while it still matches, chunk `bi` at local `bo` is needle
   * byte `vo`, and the first `vo` needle bytes (or all of them) match;
   * once it fails, the candidate is no occurrence.
   */
  ghost predicate ComparedSoFar(bufs: seq<Chunk>, value: seq<byte>, index: nat, bi: nat, bo: int, vo: nat, ok: bool)
  {
    bi <= |bufs| &&
    (ok && vo < |value| ==>
      Start(bufs, bi) + bo == index + vo &&
      (bi < |bufs| ==> 0 <= bo <= |bufs[bi]|) &&
      (bi == |bufs| ==> bo == 0)) &&
    (ok ==>
      index + Min(vo, |value|) <= |Flat(bufs)| &&
      Flat(bufs)[index .. index + Min(vo, |value|)] == value[..Min(vo, |value|)]) &&
    (!ok ==> !OccursAt(Flat(bufs), value, index))
  }

  /** Comparing the next chunk piece keeps the comparison state. */
  lemma CompareNext(bufs: seq<Chunk>, value: seq<byte>, index: nat, bi: nat, bo: int, vo: nat,
                    bufferSlice: seq<byte>, valueSlice: seq<byte>, ok: bool, vo': nat)
    requires ComparedSoFar(bufs, value, index, bi, bo, vo, true) && vo < |value| && bi < |bufs|
    requires bufferSlice == NodeSlice(bufs[bi], bo, bo + (|value| - vo))
    requires valueSlice == NodeSlice(value, vo, vo + (|bufs[bi]| - bo))
    requires ok == (bufferSlice == valueSlice) && vo' == vo + (|bufs[bi]| - bo)
    ensures ComparedSoFar(bufs, value, index, bi + 1, 0, vo', ok)
  {
    var c := bufs[bi];
    var m := Min(|c| - bo, |value| - vo);
    ComparePieces(c, bo, value, vo);
    if ok {
      CompareMatched(bufs, value, index, bi, bo, vo, m);
    } else {
      CompareMismatched(bufs, value, index, bi, bo, vo, m);
    }
  }

  /** The rest of chunk `bi` matches the needle: the matched prefix grows by it, and the comparison goes on at the next chunk. */
  lemma CompareMatched(bufs: seq<Chunk>, value: seq<byte>, index: nat, bi: nat, bo: int, vo: nat, m: nat)
    requires ComparedSoFar(bufs, value, index, bi, bo, vo, true) && vo < |value| && bi < |bufs|
    requires m == Min(|bufs[bi]| - bo, |value| - vo) && bufs[bi][bo .. bo + m] == value[vo .. vo + m]
    ensures ComparedSoFar(bufs, value, index, bi + 1, 0, vo + (|bufs[bi]| - bo), true)
  {
    var c := bufs[bi];
    var flat := Flat(bufs);
    ChunkWindow(bufs, bi, bo, bo + m);
    assert Min(vo, |value|) == vo;
    MatchStep(flat, value, index, vo, m, c[bo .. bo + m]);
    assert Min(vo + (|c| - bo), |value|) == vo + m;
    if vo + (|c| - bo) < |value| {
      assert Start(bufs, bi + 1) == Start(bufs, bi) + |c|;
    }
  }

  /** The rest of chunk `bi` differs from the needle: the candidate is no occurrence. */
  lemma CompareMismatched(bufs: seq<Chunk>, value: seq<byte>, index: nat, bi: nat, bo: int, vo: nat, m: nat)
    requires ComparedSoFar(bufs, value, index, bi, bo, vo, true) && vo < |value| && bi < |bufs|
    requires m == Min(|bufs[bi]| - bo, |value| - vo) && bufs[bi][bo .. bo + m] != value[vo .. vo + m]
    ensures ComparedSoFar(bufs, value, index, bi + 1, 0, vo + (|bufs[bi]| - bo), false)
  {
    var c := bufs[bi];
    ChunkWindow(bufs, bi, bo, bo + m);
    assert Min(vo, |value|) == vo;
    MatchStep(Flat(bufs), value, index, vo, m, c[bo .. bo + m]);
  }

  /**
   * One chunk of `_indexOfMultiByte`'s comparison (bl.js:317-326): the rest
   * of chunk `bi` from `bo` is compared with the rest of the needle from
   * `vo`, each cut to the other's length, and the needle offset moves on
   * by what the chunk had left.
   */
  method CompareChunk(bufs: seq<Chunk>, value: seq<byte>, index: nat, bi: nat, bo: int, vo: nat)
    returns (ok: bool, vo': nat)
    requires ComparedSoFar(bufs, value, index, bi, bo, vo, true) && vo < |value| && bi < |bufs|
    ensures vo' == vo + (|bufs[bi]| - bo)
    ensures ComparedSoFar(bufs, value, index, bi + 1, 0, vo', ok)
  {
    var remainingBufferLength := |bufs[bi]| - bo;
    var remainingValueLength := |value| - vo;
    var bufferSlice := NodeSlice(bufs[bi], bo, bo + remainingValueLength);
    var valueSlice := NodeSlice(value, vo, vo + remainingBufferLength);
    ok := bufferSlice == valueSlice;
    vo' := vo + remainingBufferLength;
    CompareNext(bufs, value, index, bi, bo, vo, bufferSlice, valueSlice, ok, vo');
  }

  /** A candidate inside the list starts the comparison at the chunk position it resolves to, with nothing compared yet. */
  lemma CompareInit(bufs: seq<Chunk>, value: seq<byte>, index: int)
    requires 0 <= index < |Flat(bufs)| && |value| > 0
    ensures var p := Resolve(bufs, index); ComparedSoFar(bufs, value, index, p.index, p.offset, 0, true)
  {
    ResolveWithinChunk(bufs, index);
    ResolveInverts(bufs, index);
    assert Flat(bufs)[index..index] == value[..0];
  }

  /** With needle bytes left and no chunk left, the candidate is no occurrence. */
  lemma CompareOffEnd(bufs: seq<Chunk>, value: seq<byte>, index: nat, vo: nat)
    requires ComparedSoFar(bufs, value, index, |bufs|, 0, vo, true) && vo < |value|
    ensures ComparedSoFar(bufs, value, index, |bufs|, 0, vo, false)
  {
    TotalIsStartOfEnd(bufs);
  }

  /** When the loop stops, its verdict is whether the needle occurs at the candidate. */
  lemma CompareDone(bufs: seq<Chunk>, value: seq<byte>, index: nat, bi: nat, bo: int, vo: nat, ok: bool)
    requires ComparedSoFar(bufs, value, index, bi, bo, vo, ok) && (!ok || |value| <= vo)
    ensures ok == OccursAt(Flat(bufs), value, index)
  {
  }

  /**
   * The state of `indexOf`'s per-chunk search, which started in chunk `i0`
   * at local offset `k` (logical offset `off`) and has searched the chunks
   * before `bi`: a result names its position in the last chunk searched
   * (an empty needle is found in the first), and a one-byte needle is
   * absent from `off` up to the chunk where the search stands.
   */
  ghost predicate ScannedSoFar(bufs: seq<Chunk>, nd: seq<byte>, off: nat, i0: nat, k: nat, bi: nat, result: int)
  {
    i0 <= bi <= |bufs| &&
    (result != -1 ==>
      i0 < bi && result == ChunkIndexOf(bufs[bi - 1], nd, if bi - 1 == i0 then k else 0)) &&
    (nd == [] ==> bi == (if result == -1 then i0 else i0 + 1)) &&
    (|nd| == 1 ==>
      AbsentIn(Flat(bufs), nd, off, Start(bufs, if result == -1 then bi else bi - 1)))
  }

  /** Searching the next chunk keeps the search state. */
  lemma ScanNext(bufs: seq<Chunk>, nd: seq<byte>, off: nat, i0: nat, k: nat, bi: nat, result': int)
    requires ScannedSoFar(bufs, nd, off, i0, k, bi, -1) && bi < |bufs|
    requires Start(bufs, i0) + k == off
    requires result' == ChunkIndexOf(bufs[bi], nd, if bi == i0 then k else 0)
    ensures ScannedSoFar(bufs, nd, off, i0, k, bi + 1, result')
  {
    if |nd| == 1 && result' == -1 {
      ChunkAbsence(bufs, bi, nd, if bi == i0 then k else 0, |bufs[bi]|, off);
    }
  }

  /**
   * The per-chunk search of `indexOf` found `result` in chunk `bi - 1`: the
   * logical result is where the search start clamps to for an empty
   * needle, and otherwise an occurrence at or after the start (the first
   * one there for a one-byte needle).
   */
  lemma ScanFound(bufs: seq<Chunk>, nd: seq<byte>, off: nat, i0: nat, k: nat, bi: nat, result: int, r: int)
    requires |bufs| > 0 && Resolve(bufs, off) == Pos(i0, k)
    requires ScannedSoFar(bufs, nd, off, i0, k, bi, result) && result != -1
    requires 0 < bi && r == |Flat(bufs[..bi - 1])| + result
    ensures nd == [] ==> r == (if |bufs| == 0 then -1 else Min(off, |Flat(bufs)|))
    ensures nd != [] && r != -1 ==> off <= r && OccursAt(Flat(bufs), nd, r)
    ensures nd != [] ==> (r == -1 <==> AbsentFrom(Flat(bufs), nd, off))
    ensures |nd| == 1 && r != -1 ==> AbsentIn(Flat(bufs), nd, off, r)
  {
    var j := bi - 1;
    StartIsPrefixLength(bufs, j);
    assert 0 <= r;
    if nd == [] {
      EmptyNeedleAt(bufs, off);
    } else {
      ResolveInverts(bufs, off);
      if j > i0 {
        ResolveLater(bufs, off, j);
      }
      FoundInChunk(bufs, nd, off, j, if j == i0 then k else 0, result);
    }
  }

  /** The per-chunk search found nothing: the list is empty for an empty needle, and a one-byte needle is absent from the search start on. */
  lemma ScanMissed(bufs: seq<Chunk>, nd: seq<byte>, off: nat, i0: nat, k: nat, bi: nat)
    requires ScannedSoFar(bufs, nd, off, i0, k, bi, -1) && |bufs| <= bi
    requires |bufs| > 0 ==> i0 < |bufs|
    ensures nd == [] ==> |bufs| == 0
    ensures |nd| == 1 ==> AbsentFrom(Flat(bufs), nd, off)
  {
    if |nd| == 1 {
      TotalIsStartOfEnd(bufs);
      AbsentPastEnd(Flat(bufs), nd, off);
    }
  }

  class BufferList {
    /** `_bufs`: the chunks, in order. */
    var bufs: seq<Chunk>
    /** `length`: the cached total of the chunk lengths. */
    var length: int

    ghost predicate Valid()
      reads this
    {
      length == |Flat(bufs)|
    }

    /** `new BufferList(init)` for a non-callback argument: an empty list, then `append(init)`. */
    constructor (init: Input)
      ensures Valid() && bufs == Flatten(init)
    {
      bufs := [];
      length := 0;
      new;
      FreshNotListed(init, this);
      var _ := Append(init);
    }

    /** `_appendBuffer`: push one chunk and add its length. */
    method AppendBuffer(c: Chunk)
      requires Valid()
      modifies this
      ensures Valid()
      ensures bufs == old(bufs) + [c] && length == old(length) + |c|
    {
      FlatPush(bufs, c);
      bufs := bufs + [c];
      length := length + |c|;
    }

    /**
     * `append(x)`: the chunks of `x`, flattened in order, follow the old
     * ones, and the length grows by their total. Returns the list itself.
     * Appending the list to itself never ends in bl.js, hence the precondition.
     */
    method Append(x: Input) returns (self: BufferList)
      requires Valid() && this !in Lists(x)
      modifies this
      ensures Valid() && self == this
      ensures bufs == old(bufs) + Flatten(x)
      ensures Flat(bufs) == old(Flat(bufs)) + Flat(Flatten(x))
      ensures length == old(length) + |Flat(Flatten(x))|
      decreases x, 2
    {
      match x {
        case Buf(c) =>
          AppendBuffer(c);
        case Items(xs) =>
          AppendEach(xs);
        case List(l) =>
          AppendChunks(l.bufs);
        case Number(n) =>
          AppendBuffer(DecimalText(n));
        case Text(b) =>
          AppendBuffer(b);
        case Nothing =>
      }
      FlatConcat(old(bufs), Flatten(x));
      self := this;
    }

    /** The array case of `append` (bl.js:71-73): each element is appended in turn. */
    method AppendEach(xs: seq<Input>)
      requires Valid() && this !in ListsIn(xs)
      modifies this
      ensures Valid()
      ensures bufs == old(bufs) + FlattenAll(xs)
      decreases xs, 1
    {
      var i := 0;
      while i < |xs|
        invariant 0 <= i <= |xs| && Valid()
        invariant bufs == old(bufs) + FlattenAll(xs[..i])
      {
        AppendItem(xs, i);
        i := i + 1;
      }
      assert xs[..i] == xs;
    }

    /** One element of the array case of `append`: its chunks follow those of the elements before it. */
    method AppendItem(xs: seq<Input>, i: nat)
      requires Valid() && i < |xs| && this !in ListsIn(xs)
      modifies this
      ensures Valid()
      ensures bufs == old(bufs) + Flatten(xs[i])
      ensures FlattenAll(xs[..i + 1]) == old(FlattenAll(xs[..i])) + Flatten(xs[i])
      decreases xs, 0
    {
      ListsInPrefix(xs, i);
      ListedAllocated(Items(xs[..i]));
      assert Lists(Items(xs[..i])) == ListsIn(xs[..i]);
      var _ := Append(xs[i]);
      FlattenAllPush(xs, i);
    }

    /** The BufferList case of `append` (bl.js:74-77): the other list's chunks are appended one by one. */
    method AppendChunks(cs: seq<Chunk>)
      requires Valid()
      modifies this
      ensures Valid()
      ensures bufs == old(bufs) + cs
    {
      var i := 0;
      while i < |cs|
        invariant 0 <= i <= |cs| && Valid()
        invariant bufs == old(bufs) + cs[..i]
      {
        AppendBuffer(cs[i]);
        assert cs[..i + 1] == cs[..i] + [cs[i]];
        i := i + 1;
      }
      assert cs[..i] == cs;
    }

    /** `_offset`: the chunk position of a logical offset. */
    method Offset(offset: int) returns (p: Pos)
      requires offset == 0 || |bufs| > 0
      ensures p == Resolve(bufs, offset)
    {
      if offset == 0 {
        return Pos(0, 0);
      }
      var tot := 0;
      var i := 0;
      while i < |bufs|
        invariant 0 <= i < |bufs|
        invariant tot == Start(bufs, i)
        invariant ResolveFrom(bufs, offset, i) == Resolve(bufs, offset)
        decreases |bufs| - i
      {
        var t := tot + |bufs[i]|;
        if offset < t || i == |bufs| - 1 {
          return Pos(i, offset - tot);
        }
        tot := t;
        i := i + 1;
      }
    }

    /** `_index`: the logical offset of a chunk position, the bytes of the chunks before it plus the local offset. */
    method Index(p: Pos) returns (r: int)
      requires p.index <= |bufs|
      ensures r == |Flat(bufs[..p.index])| + p.offset
    {
      var sum := 0;
      var i := 0;
      while i < p.index
        invariant 0 <= i <= p.index
        invariant sum == Start(bufs, i)
      {
        sum := sum + |bufs[i]|;
        i := i + 1;
      }
      StartIsPrefixLength(bufs, p.index);
      r := sum + p.offset;
    }

    /** The full-range loop of `copy` (bl.js:167-171): every chunk in turn, written from `bufoff` on. */
    method CopyWhole(dst: array<byte>, bufoff: nat)
      requires Valid() && bufoff + length <= dst.Length
      modifies dst
      ensures dst[..] == Overwrite(old(dst[..]), bufoff, Flat(bufs))
    {
      var chunks := bufs;
      ghost var d0 := dst[..];
      ghost var flat := Flat(chunks);
      var i := 0;
      var off := bufoff;
      while i < |chunks|
        invariant 0 <= i <= |chunks| && Start(chunks, i) <= |flat|
        invariant off == bufoff + Start(chunks, i)
        invariant dst[..] == Overwrite(d0, bufoff, flat[0..Start(chunks, i)])
      {
        ChunkWindow(chunks, i, 0, |chunks[i]|);
        CopyPiece(chunks[i], dst, d0, flat, bufoff, 0, Start(chunks, i), 0, |chunks[i]|, off);
        off := off + |chunks[i]|;
        i := i + 1;
      }
      TotalIsStartOfEnd(chunks);
      assert flat[0..Start(chunks, i)] == flat;
    }

    /**
     * `copy(dst, dstStart, srcStart, srcEnd)`: the requested window of the
     * logical string is returned as a new buffer when there is no
     * destination, or written into the destination at `dstStart`. The result
     * is the number of bytes copied exactly when the window lies inside one
     * chunk, and the destination otherwise.
     */
    method Copy(dst: array?<byte>, dstStart: nat, srcStart: Option<int>, srcEnd: Option<int>)
      returns (r: CopyResult)
      requires Valid()
      requires dst != null ==> dstStart + |Requested(Flat(bufs), srcStart, srcEnd)| <= dst.Length
      modifies dst
      ensures dst == null ==> r == Bytes(Requested(Flat(bufs), srcStart, srcEnd))
      ensures dst != null ==> dst[..] == Overwrite(old(dst[..]), dstStart, Requested(Flat(bufs), srcStart, srcEnd))
      ensures dst != null ==>
        (r.CopiedCount? <==> OneChunkRange(bufs, srcStart, srcEnd)) &&
        (r.CopiedCount? ==> r.count == |Requested(Flat(bufs), srcStart, srcEnd)|) &&
        (!r.CopiedCount? ==> r == Destination)
    {
      var b := CopyBounds(length, srcStart, srcEnd);
      var s, e := b.lo, b.hi;
      if s >= length || e <= 0 || e <= s {
        // `e <= s` is not tested in bl.js:145-148 (see ReversedSliceAsWritten)
        return if dst == null then Bytes([]) else Destination;
      }
      r := CopyRange(dst, dstStart, s, e);
    }

    /**
     * `copy` for a non-empty window `s..e` inside the list (bl.js:150-203):
     * the whole list, a piece of one chunk, or a walk across chunks.
     */
    method CopyRange(dst: array?<byte>, dstStart: nat, s: int, e: int) returns (r: CopyResult)
      requires Valid() && 0 <= s < e <= length
      requires dst != null ==> dstStart + (e - s) <= dst.Length
      modifies dst
      ensures dst == null ==> r == Bytes(Flat(bufs)[s..e])
      ensures dst != null ==> dst[..] == Overwrite(old(dst[..]), dstStart, Flat(bufs)[s..e])
      ensures dst != null ==>
        (r.CopiedCount? <==> OneChunkRange(bufs, Some(s), Some(e))) &&
        (r.CopiedCount? ==> r.count == e - s) &&
        (!r.CopiedCount? ==> r == Destination)
    {
      var off := Offset(s);
      OneChunkRangeInside(bufs, s, e);
      if s == 0 && e == length {
        r := CopyAll(dst, dstStart);
      } else if e - s <= |bufs[off.index]| - off.offset {
        r := CopyInChunk(dst, dstStart, s, e, off);
      } else {
        r := CopyAcross(dst, dstStart, s, e, off);
      }
    }

    /** `copy` of the whole list (bl.js:160-173): the only chunk itself, every chunk concatenated, or every chunk written out. */
    method CopyAll(dst: array?<byte>, dstStart: nat) returns (r: CopyResult)
      requires Valid() && (dst != null ==> dstStart + length <= dst.Length)
      modifies dst
      ensures dst == null ==> r == Bytes(Flat(bufs))
      ensures dst != null ==> dst[..] == Overwrite(old(dst[..]), dstStart, Flat(bufs)) && r == Destination
    {
      if dst == null {
        if |bufs| == 1 {
          FlatSingle(bufs[0]);
          return Bytes(bufs[0]);
        }
        return Bytes(Flat(bufs));
      }
      CopyWhole(dst, dstStart);
      return Destination;
    }

    /** `copy` of a window that fits in the chunk holding its start (bl.js:176-181): that piece of the chunk. */
    method CopyInChunk(dst: array?<byte>, dstStart: nat, s: int, e: int, off: Pos) returns (r: CopyResult)
      requires Valid() && 0 <= s < e <= length && off == Resolve(bufs, s)
      requires off.index < |bufs| && 0 <= off.offset && e - s <= |bufs[off.index]| - off.offset
      requires dst != null ==> dstStart + (e - s) <= dst.Length
      modifies dst
      ensures dst == null ==> r == Bytes(Flat(bufs)[s..e])
      ensures dst != null ==> dst[..] == Overwrite(old(dst[..]), dstStart, Flat(bufs)[s..e]) && r == CopiedCount(e - s)
    {
      ResolveInverts(bufs, s);
      var start := off.offset;
      ChunkWindow(bufs, off.index, start, start + (e - s));
      if dst != null {
        var n := ChunkCopy(bufs[off.index], dst, dstStart, start, start + (e - s));
        return CopiedCount(n);
      }
      return Bytes(NodeSlice(bufs[off.index], start, start + (e - s)));
    }

    /** `copy` of a window that runs past the chunk holding its start (bl.js:183-203), into a fresh buffer when there is no destination. */
    method CopyAcross(dst: array?<byte>, dstStart: nat, s: int, e: int, off: Pos) returns (r: CopyResult)
      requires Valid() && 0 <= s < e <= length && off == Resolve(bufs, s)
      requires dst != null ==> dstStart + (e - s) <= dst.Length
      modifies dst
      ensures dst == null ==> r == Bytes(Flat(bufs)[s..e])
      ensures dst != null ==> dst[..] == Overwrite(old(dst[..]), dstStart, Flat(bufs)[s..e]) && r == Destination
    {
      if dst == null {
        var scratch := new byte[e - s];
        CopySpanning(bufs, scratch, 0, s, e, off);
        return Bytes(scratch[..]);
      }
      CopySpanning(bufs, dst, dstStart, s, e, off);
      return Destination;
    }

    /** `slice(start, end)`: negative bounds count from the end, then `copy` with no destination. */
    method Slice(start: Option<int>, end: Option<int>) returns (r: seq<byte>)
      requires Valid()
      ensures r == SliceOf(Flat(bufs), start, end)
    {
      var c := Copy(null, 0, FromEnd(start, length), FromEnd(end, length));
      r := c.bytes;
    }

    /** `get(index)`: the byte at a logical offset, read through a one-byte scratch buffer. */
    method Get(index: int) returns (b: byte)
      requires Valid() && 0 <= index < length
      ensures b == Flat(bufs)[index]
    {
      var temp := new byte[1];
      var _ := Copy(temp, 0, Some(index), Some(index + 1));
      b := temp[0];
    }

    /**
     * `shallowSlice(start, end)`: a new list over the cut chunks. A non-zero
     * bound on an empty list makes bl.js read a missing chunk (a TypeError).
     */
    method ShallowSlice(start: Option<int>, end: Option<int>) returns (r: Outcome<BufferList>)
      requires Valid()
      ensures ShallowChunks(bufs, start, end).Throws? ==> r == Throws(ShallowChunks(bufs, start, end).error)
      ensures ShallowChunks(bufs, start, end).Ok? ==>
        r.Ok? && fresh(r.value) && r.value.Valid() && r.value.bufs == ShallowChunks(bufs, start, end).value
    {
      match ShallowChunks(bufs, start, end) {
        case Throws(err) =>
          r := Throws(err);
        case Ok(cs) =>
          FlattenBuffers(cs);
          var l := new BufferList(Items(AsBuffers(cs)));
          r := Ok(l);
      }
    }

    /** `duplicate()`: a new list holding the same chunks, appended one by one. */
    method Duplicate() returns (copy: BufferList)
      requires Valid()
      ensures fresh(copy) && copy.Valid()
      ensures copy.bufs == bufs && copy.length == length
    {
      copy := new BufferList(Nothing);
      var i := 0;
      while i < |bufs|
        invariant 0 <= i <= |bufs|
        invariant copy.Valid() && copy.bufs == bufs[..i]
      {
        var _ := copy.Append(Buf(bufs[i]));
        assert bufs[..i + 1] == bufs[..i] + [bufs[i]];
        i := i + 1;
      }
      assert bufs[..i] == bufs;
    }

    /**
     * `consume(bytes)`: whole chunks no longer than what is left are
     * dropped, and the next one loses its first bytes. The list now holds
     * the logical string without its first `bytes` bytes.
     */
    method Consume(bytes: int) returns (self: BufferList)
      requires Valid() && 0 <= bytes
      modifies this
      ensures Valid() && self == this
      ensures bufs == Consumed(old(bufs), bytes)
      ensures Flat(bufs) == old(Flat(bufs))[Min(bytes, old(length))..]
      ensures length == Max(old(length) - bytes, 0)
    {
      var n := bytes;
      while |bufs| > 0
        invariant Valid() && 0 <= n
        invariant Consumed(bufs, n) == Consumed(old(bufs), bytes)
        decreases |bufs|
      {
        if n >= |bufs[0]| {
          n := n - |bufs[0]|;
          length := length - |bufs[0]|;
          bufs := bufs[1..];
        } else {
          FlatDropFront(bufs[0], bufs[1..], n);
          assert [bufs[0]] + bufs[1..] == bufs;
          bufs := [bufs[0][n..]] + bufs[1..];
          length := length - n;
          break;
        }
      }
      ConsumedFlat(old(bufs), bytes);
      self := this;
    }

    /** `destroy()`: the chunks are dropped and the length reset; the stream end is not modelled. */
    method Destroy()
      modifies this
      ensures Valid() && bufs == [] && length == 0
    {
      bufs := [];
      length := 0;
    }

    /**
     * `indexOf(value, byteOffset)`: each chunk from the one holding
     * `byteOffset` is searched in turn (the first from its local offset);
     * a multi-byte needle found in no single chunk is looked for across
     * chunk boundaries. A result is an occurrence at or after `byteOffset`,
     * and -1 means there is none. An empty needle gives the offset clamped
     * to the length, except on an empty list.
     */
    method IndexOf(value: Needle, byteOffset: nat) returns (r: int)
      requires Valid() && (byteOffset == 0 || |bufs| > 0)
      ensures NeedleBytes(value) == [] ==>
        r == (if |bufs| == 0 then -1 else Min(byteOffset, length))
      ensures NeedleBytes(value) != [] && r != -1 ==>
        byteOffset <= r && OccursAt(Flat(bufs), NeedleBytes(value), r)
      ensures NeedleBytes(value) != [] ==>
        (r == -1 <==> AbsentFrom(Flat(bufs), NeedleBytes(value), byteOffset))
      ensures |NeedleBytes(value)| == 1 && r != -1 ==>
        AbsentIn(Flat(bufs), NeedleBytes(value), byteOffset, r)
      decreases if IsMultiByte(value) then 2 else 0
    {
      var nd := NeedleBytes(value);
      var i0, k, bufferIndex, result := ScanChunks(nd, byteOffset);
      if IsMultiByte(value) && result == -1 {
        r := IndexOfMultiByte(nd, byteOffset);
        return;
      }
      if result == -1 {
        ScanMissed(bufs, nd, byteOffset, i0, k, bufferIndex);
        return -1;
      }
      bufferIndex := bufferIndex - 1;
      r := Index(Pos(bufferIndex, result));
      ScanFound(bufs, nd, byteOffset, i0, k, bufferIndex + 1, result, r);
    }

    /**
     * The per-chunk search of `indexOf` (bl.js:263-274): from the chunk the
     * start resolves to, each chunk is searched in turn (the first from the
     * local start, the others from 0) until one holds the needle.
     */
    method ScanChunks(nd: seq<byte>, byteOffset: nat) returns (i0: nat, k: nat, bufferIndex: nat, result: int)
      requires Valid() && (byteOffset == 0 || |bufs| > 0)
      ensures |bufs| > 0 ==> Resolve(bufs, byteOffset) == Pos(i0, k) && i0 < |bufs|
      ensures ScannedSoFar(bufs, nd, byteOffset, i0, k, bufferIndex, result)
      ensures result == -1 ==> |bufs| <= bufferIndex
    {
      var begin := Offset(byteOffset);
      ResolveInverts(bufs, byteOffset);
      if |bufs| > 0 {
        ResolveAtOrAfterStart(bufs, byteOffset);
      }
      i0, k := begin.index, begin.offset;
      bufferIndex := begin.index;
      var searchOffset: nat := k;
      result := -1;
      while result == -1 && bufferIndex < |bufs|
        invariant searchOffset == if bufferIndex == i0 then k else 0
        invariant ScannedSoFar(bufs, nd, byteOffset, i0, k, bufferIndex, result)
        decreases |bufs| - bufferIndex
      {
        ghost var bi := bufferIndex;
        result := ChunkIndexOf(bufs[bufferIndex], nd, searchOffset);
        searchOffset := 0;
        bufferIndex := bufferIndex + 1;
        ScanNext(bufs, nd, byteOffset, i0, k, bi, result);
      }
    }

    /**
     * `_indexOfMultiByte(value, byteOffset)`: each place holding the
     * needle's first byte, from `byteOffset` on, is a candidate that is
     * compared across chunks; the first that matches is returned. The
     * result is therefore the first occurrence at or after `byteOffset`.
     */
    method IndexOfMultiByte(value: seq<byte>, byteOffset: nat) returns (r: int)
      requires Valid() && |value| > 1 && (byteOffset == 0 || |bufs| > 0)
      ensures r != -1 ==>
        byteOffset <= r && OccursAt(Flat(bufs), value, r) && AbsentIn(Flat(bufs), value, byteOffset, r)
      ensures r == -1 <==> AbsentFrom(Flat(bufs), value, byteOffset)
      decreases 1
    {
      var firstByte := value[0];
      var from := byteOffset;
      var index := IndexOf(ByteValue(firstByte), from);
      while index != -1
        invariant byteOffset <= from
        invariant AbsentIn(Flat(bufs), value, byteOffset, from)
        invariant index != -1 ==>
          from <= index && OccursAt(Flat(bufs), [firstByte], index) &&
          AbsentIn(Flat(bufs), [firstByte], from, index)
        invariant index == -1 ==> AbsentFrom(Flat(bufs), [firstByte], from)
        decreases length - from
      {
        var comparisonResult := MatchesAt(index, value);
        FirstByteAbsence(Flat(bufs), value, from, index);
        AbsenceJoin(Flat(bufs), value, byteOffset, from, index);
        if comparisonResult {
          return index;
        }
        assert AbsentIn(Flat(bufs), value, index, index + 1);
        AbsenceJoin(Flat(bufs), value, byteOffset, index, index + 1);
        from := index + 1;
        index := IndexOf(ByteValue(firstByte), from);
      }
      FirstByteAbsence(Flat(bufs), value, from, length + 1);
      AbsenceJoin(Flat(bufs), value, byteOffset, from, length + 1);
      AbsentPastEnd(Flat(bufs), value, byteOffset);
      return -1;
    }

    /**
     * The comparison loop of `_indexOfMultiByte` at candidate `index`
     * (bl.js:310-327): the needle is compared piece by piece against the
     * chunks from the one holding `index`. Running out of chunks, where
     * bl.js reads a missing chunk, counts as a mismatch.
     */
    method MatchesAt(index: int, value: seq<byte>) returns (comparisonResult: bool)
      requires Valid() && 0 <= index < length && |value| > 0
      ensures comparisonResult == OccursAt(Flat(bufs), value, index)
    {
      var chunks := bufs;
      var offset := Offset(index);
      CompareInit(chunks, value, index);
      var bufferIndex := offset.index;
      var bufferOffset := offset.offset;
      var valueOffset: nat := 0;
      comparisonResult := true;
      while comparisonResult && valueOffset < |value|
        invariant ComparedSoFar(chunks, value, index, bufferIndex, bufferOffset, valueOffset, comparisonResult)
        decreases |chunks| - bufferIndex, if comparisonResult then 1 else 0
      {
        if bufferIndex == |chunks| {
          // bl.js reads past the last chunk here
          CompareOffEnd(chunks, value, index, valueOffset);
          comparisonResult := false;
        } else {
          comparisonResult, valueOffset := CompareChunk(chunks, value, index, bufferIndex, bufferOffset, valueOffset);
          bufferIndex := bufferIndex + 1;
          bufferOffset := 0;
        }
      }
      CompareDone(chunks, value, index, bufferIndex, bufferOffset, valueOffset, comparisonResult);
    }

    /**
     * The integer readers (`readUInt8` … `readIntLE`): the bytes at
     * `offset .. offset + width` are sliced out of the list, then decoded as
     * Node does; too few bytes, or a variable width outside 1..6, is a
     * RangeError.
     */
    method Read(m: Reader, offset: int, byteLength: int) returns (r: Outcome<int>)
      requires Valid()
      ensures r == DecodeFront(m, SliceOf(Flat(bufs), Some(offset), Some(offset + Width(m, byteLength))),
                               Width(m, byteLength))
      ensures var w := Width(m, byteLength);
        1 <= w <= 6 && 0 <= offset && offset + w <= length ==> r == Ok(Value(m, Flat(bufs)[offset .. offset + w]))
      ensures var w := Width(m, byteLength);
        !(1 <= w <= 6) || (0 <= offset && length < offset + w) ==> r == Throws(RangeError)
    {
      var w := Width(m, byteLength);
      var bytes := Slice(Some(offset), Some(offset + w));
      if 0 <= offset && offset + w <= length && 1 <= w {
        SliceInRange(Flat(bufs), offset, offset + w);
        assert bytes[..w] == bytes;
      }
      r := DecodeFront(m, bytes, w);
    }
  }
}
