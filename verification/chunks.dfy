/**
 * The data of a BufferList: an ordered sequence of byte chunks, and the one
 * logical byte string they stand for, their concatenation.
 */
module Chunks {

  newtype byte = b: int | 0 <= b < 256

  /** One Buffer held by a list; only its bytes are modelled. */
  type Chunk = seq<byte>

  /** The logical byte string of a chunk sequence: the chunks concatenated in order. */
  function Flat(bufs: seq<Chunk>): seq<byte>
  {
    if bufs == [] then [] else bufs[0] + Flat(bufs[1..])
  }

  /** The logical offset at which chunk `i` begins: the sum of the lengths of the chunks before it. */
  function Start(bufs: seq<Chunk>, i: nat): nat
    requires i <= |bufs|
  {
    if i == 0 then 0 else Start(bufs, i - 1) + |bufs[i - 1]|
  }

  lemma {:induction false} FlatConcat(a: seq<Chunk>, b: seq<Chunk>)
    ensures Flat(a + b) == Flat(a) + Flat(b)
  {
    if a == [] {
      assert a + b == b;
    } else {
      assert (a + b)[1..] == a[1..] + b;
      FlatConcat(a[1..], b);
    }
  }

  lemma FlatSingle(c: Chunk)
    ensures Flat([c]) == c
  {
    assert [c][1..] == [];
  }

  /** Appending one chunk extends the logical string by exactly that chunk. */
  lemma FlatPush(bufs: seq<Chunk>, c: Chunk)
    ensures Flat(bufs + [c]) == Flat(bufs) + c
  {
    FlatConcat(bufs, [c]);
    FlatSingle(c);
  }

  /** `Start` measures the concatenation of the chunks before `i`. */
  lemma {:induction false} StartIsPrefixLength(bufs: seq<Chunk>, i: nat)
    requires i <= |bufs|
    ensures |Flat(bufs[..i])| == Start(bufs, i)
  {
    if i > 0 {
      StartIsPrefixLength(bufs, i - 1);
      assert bufs[..i] == bufs[..i - 1] + [bufs[i - 1]];
      FlatPush(bufs[..i - 1], bufs[i - 1]);
    }
  }

  lemma TotalIsStartOfEnd(bufs: seq<Chunk>)
    ensures |Flat(bufs)| == Start(bufs, |bufs|)
  {
    assert bufs[..|bufs|] == bufs;
    StartIsPrefixLength(bufs, |bufs|);
  }

  lemma {:induction false} StartMonotone(bufs: seq<Chunk>, i: nat, j: nat)
    requires i <= j <= |bufs|
    ensures Start(bufs, i) <= Start(bufs, j)
  {
    if i < j {
      StartMonotone(bufs, i, j - 1);
    }
  }

  /** The logical string splits around chunk `i`, which begins at `Start(bufs, i)`. */
  lemma FlatSplit(bufs: seq<Chunk>, i: nat)
    requires i < |bufs|
    ensures Flat(bufs) == Flat(bufs[..i]) + bufs[i] + Flat(bufs[i + 1..])
    ensures |Flat(bufs[..i])| == Start(bufs, i)
  {
    assert bufs == bufs[..i] + bufs[i..];
    FlatConcat(bufs[..i], bufs[i..]);
    assert bufs[i..][1..] == bufs[i + 1..];
    StartIsPrefixLength(bufs, i);
  }

  /** Bytes `a..b` of chunk `j` are the logical bytes `Start(j) + a .. Start(j) + b`. */
  lemma ChunkWindow(bufs: seq<Chunk>, j: nat, a: nat, b: nat)
    requires j < |bufs| && a <= b <= |bufs[j]|
    ensures Start(bufs, j) + b <= |Flat(bufs)|
    ensures Flat(bufs)[Start(bufs, j) + a .. Start(bufs, j) + b] == bufs[j][a..b]
  {
    var pre, post := Flat(bufs[..j]), Flat(bufs[j + 1..]);
    FlatSplit(bufs, j);
    MiddleWindow(pre, bufs[j], post, a, b);
    assert Flat(bufs) == pre + bufs[j] + post && |pre| == Start(bufs, j);
  }

  /** Two adjacent windows of a sequence join into one. */
  lemma SliceJoin(s: seq<byte>, a: nat, b: nat, c: nat)
    requires a <= b <= c <= |s|
    ensures s[a..b] + s[b..c] == s[a..c]
  {
  }

  /** Dropping the front of a window shortens the window. */
  lemma DropOfWindow(s: seq<byte>, a: nat, b: nat, d: nat)
    requires a + d <= b <= |s|
    ensures s[a..b][d..] == s[a + d..b]
  {
  }

  /** A window of a window is a window of the whole. */
  lemma SubWindow(s: seq<byte>, a: nat, b: nat, c: nat, d: nat)
    requires a <= b <= |s| && c <= d <= b - a
    ensures s[a..b][c..d] == s[a + c..a + d]
  {
    forall q | 0 <= q < d - c
      ensures s[a..b][c..d][q] == s[a + c..a + d][q]
    {
    }
  }

  /** A window inside the middle part of a concatenation is that window of the middle part. */
  lemma MiddleWindow(pre: seq<byte>, mid: seq<byte>, post: seq<byte>, a: nat, b: nat)
    requires a <= b <= |mid|
    ensures (pre + mid + post)[|pre| + a .. |pre| + b] == mid[a..b]
  {
    var w := (pre + mid + post)[|pre| + a .. |pre| + b];
    assert |w| == b - a;
    forall q | 0 <= q < b - a
      ensures w[q] == mid[a + q]
    {
    }
  }

  /** Chunks `i..j` make up the logical bytes `Start(i) .. Start(j)`. */
  lemma ChunkRange(bufs: seq<Chunk>, i: nat, j: nat)
    requires i <= j <= |bufs|
    ensures Start(bufs, i) <= Start(bufs, j) <= |Flat(bufs)|
    ensures Flat(bufs[i..j]) == Flat(bufs)[Start(bufs, i) .. Start(bufs, j)]
  {
    assert bufs == bufs[..i] + bufs[i..j] + bufs[j..];
    FlatConcat(bufs[..i] + bufs[i..j], bufs[j..]);
    FlatConcat(bufs[..i], bufs[i..j]);
    StartIsPrefixLength(bufs, i);
    assert bufs[..j] == bufs[..i] + bufs[i..j];
    StartIsPrefixLength(bufs, j);
    var a, m, z := Flat(bufs[..i]), Flat(bufs[i..j]), Flat(bufs[j..]);
    assert Flat(bufs) == a + m + z;
    assert (a + m + z)[|a| .. |a| + |m|] == m;
  }
}
