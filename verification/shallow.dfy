/** `shallowSlice`: the chunks of a new list over a sub-range, cut from the original chunks. */
module Shallow {
  import opened Wrappers
  import opened Chunks
  import opened Offsets
  import opened CopyEngine

  /**
   * `shallowSlice`'s bounds: `start || 0` and `end || length` (so an end of
   * 0 means the whole list), then a negative bound has the length added.
   */
  function ShallowBounds(len: int, start: Option<int>, end: Option<int>): Range
  {
    var s := if start.None? then 0 else start.value;
    var e := if end.None? || end.value == 0 then len else end.value;
    Range(if s < 0 then s + len else s, if e < 0 then e + len else e)
  }

  /** JavaScript's `array.slice(i, j)` for non-negative bounds. */
  function ArraySlice<T>(a: seq<T>, i: nat, j: nat): (r: seq<T>)
    ensures i <= j <= |a| ==> r == a[i..j]
  {
    if j <= i || |a| <= i then [] else a[i..Min(j, |a|)]
  }

  /** JavaScript's `array.pop()`, result discarded: an empty array stays empty. */
  function Pop<T>(a: seq<T>): seq<T>
  {
    if a == [] then [] else a[..|a| - 1]
  }

  /** Trimming the end: an end offset of 0 pops the last chunk, any other cuts it to that length. */
  function CutEnd(taken: seq<Chunk>, m: int): Outcome<seq<Chunk>>
  {
    if m == 0 then Ok(Pop(taken))
    else if taken == [] then Throws(TypeError)
    else Ok(taken[..|taken| - 1] + [NodeSlice(taken[|taken| - 1], 0, m)])
  }

  /** Trimming the start: a non-zero start offset drops that many bytes of the first chunk. */
  function CutStart(trimmed: seq<Chunk>, k: int): Outcome<seq<Chunk>>
  {
    if k == 0 then Ok(trimmed)
    else if trimmed == [] then Throws(TypeError)
    else Ok([NodeSlice(trimmed[0], k, |trimmed[0]|)] + trimmed[1..])
  }

  /**
   * The chunk array that `shallowSlice(start, end)` hands to the new list
   * as bl.js:206-228 writes it, or the TypeError it throws: `_offset` gives
   * `undefined` for a non-zero bound on an empty list, and trimming indexes
   * an empty array. A bound still negative after the length is added goes
   * to `_offset` as it is (see `ShallowBelowStartAsWritten`).
   */
  function ShallowChunksAsWritten(bufs: seq<Chunk>, start: Option<int>, end: Option<int>): Outcome<seq<Chunk>>
  {
    var b := ShallowBounds(|Flat(bufs)|, start, end);
    if !(b.lo == 0 || |bufs| > 0) || !(b.hi == 0 || |bufs| > 0) then Throws(TypeError)
    else CutBetween(bufs, b.lo, b.hi)
  }

  /**
   * The chunk array of `shallowSlice(start, end)` with each bound clamped at
   * 0 once the length is added, as `copy` clamps a negative start; in every
   * other respect it is the code as written.
   */
  function ShallowChunks(bufs: seq<Chunk>, start: Option<int>, end: Option<int>): Outcome<seq<Chunk>>
  {
    var b := ShallowBounds(|Flat(bufs)|, start, end);
    var lo, hi := Max(b.lo, 0), Max(b.hi, 0);
    if !(lo == 0 || |bufs| > 0) || !(hi == 0 || |bufs| > 0) then Throws(TypeError)
    else CutBetween(bufs, lo, hi)
  }

  /** Clamping changes nothing for bounds that are not below minus the length. */
  lemma ShallowClampAgrees(bufs: seq<Chunk>, start: Option<int>, end: Option<int>)
    requires var b := ShallowBounds(|Flat(bufs)|, start, end); 0 <= b.lo && 0 <= b.hi
    ensures ShallowChunks(bufs, start, end) == ShallowChunksAsWritten(bufs, start, end)
  {
  }

  /**
   * A start below minus the length is not clamped as written: on chunks
   * [1,2,3] and [4,5,6,7,8,9,10], `shallowSlice(-12)` resolves the start -2
   * to chunk 0, local -2, and `slice(-2)` of that chunk keeps [2,3], so the
   * new list holds 9 of the 10 bytes; clamped, it holds all of them. On an
   * empty list `shallowSlice(-5)` finds no chunk for the start -5, and
   * `startOffset[0]` of `undefined` is a TypeError; clamped, it is the empty
   * list.
   */
  lemma ShallowBelowStartAsWritten()
    ensures var bufs: seq<Chunk> := [[1, 2, 3], [4, 5, 6, 7, 8, 9, 10]];
      ShallowChunksAsWritten(bufs, Some(-12), None) == Ok([[2, 3], [4, 5, 6, 7, 8, 9, 10]]) &&
      Flat([[2, 3], [4, 5, 6, 7, 8, 9, 10]]) != Flat(bufs) &&
      ShallowChunks(bufs, Some(-12), None).Ok? &&
      Flat(ShallowChunks(bufs, Some(-12), None).value) == Flat(bufs) &&
      ShallowChunksAsWritten([], Some(-5), None) == Throws(TypeError) &&
      ShallowChunks([], Some(-5), None) == Ok([])
  {
    var bufs: seq<Chunk> := [[1, 2, 3], [4, 5, 6, 7, 8, 9, 10]];
    assert Flat(bufs) == [1, 2, 3, 4, 5, 6, 7, 8, 9, 10] by {
      assert bufs[1..][1..] == [];
    }
    var cut: seq<Chunk> := [[2, 3], [4, 5, 6, 7, 8, 9, 10]];
    assert |Flat(cut)| == 9 by {
      assert cut[1..][1..] == [];
    }
    assert Start(bufs, 1) == 3 && Start(bufs, 2) == 10;
    assert Resolve(bufs, -2) == Pos(0, -2);
    assert Resolve(bufs, 10) == Pos(1, 7);
    assert ArraySlice(bufs, 0, 2) == bufs;
    assert NodeSlice(bufs[1], 0, 7) == bufs[1] by {
      assert bufs[1][0..7] == bufs[1];
    }
    assert bufs[..1] + [bufs[1]] == bufs;
    assert CutEnd(bufs, 7) == Ok(bufs);
    assert NodeSlice(bufs[0], -2, 3) == [2, 3];
    assert [NodeSlice(bufs[0], -2, |bufs[0]|)] + bufs[1..] == cut;
    assert CutStart(bufs, -2) == Ok(cut);
    assert ShallowBounds(10, Some(-12), None) == Range(-2, 10);
    assert CutBetween(bufs, -2, 10) == Ok(cut);
    ShallowChunksWindow(bufs, Some(-12), None);
  }

  /** Both bounds resolved with `_offset`, the chunks they span are taken and trimmed at each end. */
  function CutBetween(bufs: seq<Chunk>, lo: int, hi: int): Outcome<seq<Chunk>>
    requires (lo == 0 || |bufs| > 0) && (hi == 0 || |bufs| > 0)
  {
    var so, eo := Resolve(bufs, lo), Resolve(bufs, hi);
    match CutEnd(ArraySlice(bufs, so.index, eo.index + 1), eo.offset)
    case Throws(err) => Throws(err)
    case Ok(trimmed) => CutStart(trimmed, so.offset)
  }

  lemma FlatDropFront(c: Chunk, rest: seq<Chunk>, k: nat)
    requires k <= |c|
    ensures Flat([c[k..]] + rest) == Flat([c] + rest)[k..]
  {
    assert ([c[k..]] + rest)[1..] == rest;
    assert ([c] + rest)[1..] == rest;
  }

  /** A resolved offset lies at or after the start of its chunk, and inside it unless it is the last one. */
  lemma ResolveAtOrAfterStart(bufs: seq<Chunk>, offset: int)
    requires 0 <= offset && |bufs| > 0
    ensures var p := Resolve(bufs, offset); p.index < |bufs| && 0 <= p.offset
    ensures var p := Resolve(bufs, offset);
      0 < offset && p.index < |bufs| - 1 ==> offset < Start(bufs, p.index + 1)
  {
    ResolveInverts(bufs, offset);
    if offset != 0 {
      ResolveFromFacts(bufs, offset, 0);
    }
  }

  /** Resolution keeps the order of offsets. */
  lemma ResolveMonotone(bufs: seq<Chunk>, s: int, e: int)
    requires 0 <= s <= e && |bufs| > 0
    ensures Resolve(bufs, s).index <= Resolve(bufs, e).index
  {
    if s != 0 {
      ResolveFromFacts(bufs, s, 0);
      ResolveFromFacts(bufs, e, 0);
    }
  }

  /** Cutting chunks `i..j` at local end `m` of chunk `j` keeps the logical bytes up to that point. */
  lemma CutEndWindow(bufs: seq<Chunk>, i: nat, j: nat, m: int)
    requires i <= j < |bufs| && 0 <= m
    ensures Start(bufs, i) <= Start(bufs, j) && Start(bufs, j) + |bufs[j]| <= |Flat(bufs)|
    ensures var r := CutEnd(bufs[i..j + 1], m);
      r.Ok? &&
      Flat(r.value) == Flat(bufs)[Start(bufs, i) .. Start(bufs, j) + Min(m, |bufs[j]|)] &&
      (r.value == [] ==> i == j && m == 0) &&
      (r.value != [] ==> r.value[0] == if i < j || m == 0 then bufs[i] else bufs[i][..Min(m, |bufs[i]|)])
  {
    StartMonotone(bufs, i, j);
    ChunkWindow(bufs, j, 0, |bufs[j]|);
    if m == 0 {
      PopLastChunk(bufs, i, j);
    } else {
      CutLastChunk(bufs, i, j, m);
    }
  }

  /** An end offset of 0 drops chunk `j` and keeps the bytes before it. */
  lemma PopLastChunk(bufs: seq<Chunk>, i: nat, j: nat)
    requires i <= j < |bufs|
    ensures CutEnd(bufs[i..j + 1], 0) == Ok(bufs[i..j])
    ensures Start(bufs, i) <= Start(bufs, j) <= |Flat(bufs)|
    ensures Flat(bufs[i..j]) == Flat(bufs)[Start(bufs, i) .. Start(bufs, j)]
  {
    ChunkRange(bufs, i, j);
    var taken := bufs[i..j + 1];
    assert |taken| == j + 1 - i;
    assert taken[..|taken| - 1] == bufs[i..j];
  }

  /** A non-zero end offset `m` keeps chunks `i..j` and the first `m` bytes of chunk `j`. */
  lemma CutLastChunk(bufs: seq<Chunk>, i: nat, j: nat, m: int)
    requires i <= j < |bufs| && 0 < m
    ensures Start(bufs, i) <= Start(bufs, j) && Start(bufs, j) + Min(m, |bufs[j]|) <= |Flat(bufs)|
    ensures CutEnd(bufs[i..j + 1], m) == Ok(bufs[i..j] + [bufs[j][..Min(m, |bufs[j]|)]])
    ensures Flat(bufs[i..j] + [bufs[j][..Min(m, |bufs[j]|)]])
      == Flat(bufs)[Start(bufs, i) .. Start(bufs, j) + Min(m, |bufs[j]|)]
  {
    var cj := bufs[j];
    var mm := Min(m, |cj|);
    assert bufs[i..j + 1][..j - i] == bufs[i..j];
    assert NodeSlice(cj, 0, m) == cj[..mm];
    ChunkRange(bufs, i, j);
    FlatPush(bufs[i..j], cj[..mm]);
    ChunkWindow(bufs, j, 0, mm);
    SliceJoin(Flat(bufs), Start(bufs, i), Start(bufs, j), Start(bufs, j) + mm);
  }

  /** Cutting `k` bytes off the first chunk drops the first `k` logical bytes, as far as that chunk reaches. */
  lemma CutStartWindow(trimmed: seq<Chunk>, k: int)
    requires 0 <= k && (trimmed != [] || k == 0)
    ensures var r := CutStart(trimmed, k);
      r.Ok? && Flat(r.value) == Flat(trimmed)[if k == 0 then 0 else Min(k, |trimmed[0]|)..]
  {
    if k != 0 {
      var c0 := trimmed[0];
      var kk := Min(k, |c0|);
      assert NodeSlice(c0, k, |c0|) == c0[kk..];
      assert trimmed == [c0] + trimmed[1..];
      FlatDropFront(c0, trimmed[1..], kk);
    }
  }

  /** The resolved end (j, m), cut to chunk `j`, is the end bound clamped to the length. */
  lemma EndBoundMeets(bufs: seq<Chunk>, e: int, j: nat, m: int)
    requires 0 <= e && j < |bufs| && 0 <= m && Start(bufs, j) + m == e
    requires 0 < e && j < |bufs| - 1 ==> e < Start(bufs, j + 1)
    ensures Start(bufs, j) + Min(m, |bufs[j]|) == Min(e, |Flat(bufs)|)
  {
    TotalIsStartOfEnd(bufs);
    if 0 < e && j < |bufs| - 1 {
      StartMonotone(bufs, j + 1, |bufs|);
    }
  }

  /**
   * The resolved start (i, k), cut to the first kept chunk (chunk `i`,
   * itself cut to `m` bytes when it is also the last), is the start bound
   * clamped to the length.
   */
  lemma StartBoundMeets(bufs: seq<Chunk>, s: int, e: int, i: nat, k: int, j: nat, m: int)
    requires 0 <= s <= e && i <= j < |bufs| && 0 <= k && 0 <= m
    requires Start(bufs, i) + k == s && Start(bufs, j) + m == e
    requires 0 < s && i < |bufs| - 1 ==> s < Start(bufs, i + 1)
    ensures var first := if i < j || m == 0 then |bufs[i]| else Min(m, |bufs[i]|);
      Start(bufs, i) + (if k == 0 then 0 else Min(k, first)) == Min(s, |Flat(bufs)|)
  {
    TotalIsStartOfEnd(bufs);
    StartMonotone(bufs, i, |bufs|);
    if k != 0 && i < |bufs| - 1 {
      StartMonotone(bufs, i + 1, |bufs|);
    }
  }

  /** Both cuts together, for resolved positions (i, k) of `s` and (j, m) of `e`, keep the window `s..e` clamped to the length. */
  lemma CutBothWindow(bufs: seq<Chunk>, s: int, e: int, i: nat, k: int, j: nat, m: int)
    requires 0 <= s <= e && i <= j < |bufs| && 0 <= k && 0 <= m
    requires Start(bufs, i) + k == s && Start(bufs, j) + m == e
    requires 0 < s && i < |bufs| - 1 ==> s < Start(bufs, i + 1)
    requires 0 < e && j < |bufs| - 1 ==> e < Start(bufs, j + 1)
    ensures var len := |Flat(bufs)|;
      var r := CutEnd(bufs[i..j + 1], m);
      r.Ok? && CutStart(r.value, k).Ok? &&
      Flat(CutStart(r.value, k).value) == Flat(bufs)[Min(s, len) .. Min(e, len)]
  {
    CutEndWindow(bufs, i, j, m);
    var trimmed := CutEnd(bufs[i..j + 1], m).value;
    var hi := Start(bufs, j) + Min(m, |bufs[j]|);
    EndBoundMeets(bufs, e, j, m);
    assert trimmed != [] || k == 0;
    CutStartWindow(trimmed, k);
    var d := if k == 0 then 0 else Min(k, |trimmed[0]|);
    StartBoundMeets(bufs, s, e, i, k, j, m);
    DropOfWindow(Flat(bufs), Start(bufs, i), hi, d);
  }

  /** Cutting between two in-order bounds yields the bytes between them, clamped to the length. */
  lemma CutBetweenWindow(bufs: seq<Chunk>, lo: int, hi: int)
    requires 0 <= lo <= hi && (|bufs| > 0 || hi == 0)
    ensures var len := |Flat(bufs)|;
      CutBetween(bufs, lo, hi).Ok? &&
      Flat(CutBetween(bufs, lo, hi).value) == Flat(bufs)[Min(lo, len) .. Min(hi, len)]
  {
    if |bufs| > 0 {
      var so, eo := Resolve(bufs, lo), Resolve(bufs, hi);
      ResolveAtOrAfterStart(bufs, lo);
      ResolveAtOrAfterStart(bufs, hi);
      ResolveInverts(bufs, lo);
      ResolveInverts(bufs, hi);
      ResolveMonotone(bufs, lo, hi);
      assert ArraySlice(bufs, so.index, eo.index + 1) == bufs[so.index..eo.index + 1];
      CutBothWindow(bufs, lo, hi, so.index, so.offset, eo.index, eo.offset);
    }
  }

  /**
   * For bounds in order once counted from the end (and clamped at 0), the
   * new list's chunks concatenate to the original bytes between the bounds,
   * each clamped to the length.
   */
  lemma ShallowChunksWindow(bufs: seq<Chunk>, start: Option<int>, end: Option<int>)
    requires var b := ShallowBounds(|Flat(bufs)|, start, end);
      Max(b.lo, 0) <= Max(b.hi, 0) && (|bufs| > 0 || Max(b.hi, 0) == 0)
    ensures var b := ShallowBounds(|Flat(bufs)|, start, end);
      var len := |Flat(bufs)|;
      ShallowChunks(bufs, start, end).Ok? &&
      Flat(ShallowChunks(bufs, start, end).value) == Flat(bufs)[Min(Max(b.lo, 0), len) .. Min(Max(b.hi, 0), len)]
  {
    var b := ShallowBounds(|Flat(bufs)|, start, end);
    CutBetweenWindow(bufs, Max(b.lo, 0), Max(b.hi, 0));
  }
}
