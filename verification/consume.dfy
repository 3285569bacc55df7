/** `consume(bytes)`: dropping bytes from the front of a chunk list. */
module Consume {
  import opened Wrappers
  import opened Chunks

  /**
   * The chunks left after consuming `n` bytes: every front chunk no longer
   * than what remains to drop goes (empty ones included), and the chunk
   * straddling the cut keeps its tail.
   */
  function Consumed(bufs: seq<Chunk>, n: nat): seq<Chunk>
    decreases |bufs|
  {
    if bufs == [] then []
    else if n >= |bufs[0]| then Consumed(bufs[1..], n - |bufs[0]|)
    else [bufs[0][n..]] + bufs[1..]
  }

  /**
   * Consuming `n` bytes leaves the logical string without its first
   * `min(n, length)` bytes; consuming at least the length leaves no chunk.
   */
  lemma {:induction false} ConsumedFlat(bufs: seq<Chunk>, n: nat)
    ensures Flat(Consumed(bufs, n)) == Flat(bufs)[Min(n, |Flat(bufs)|)..]
    ensures n >= |Flat(bufs)| ==> Consumed(bufs, n) == []
    decreases |bufs|
  {
    if bufs != [] {
      var c, rest := bufs[0], bufs[1..];
      assert Flat(bufs) == c + Flat(rest);
      if n >= |c| {
        ConsumedFlat(rest, n - |c|);
      } else {
        assert ([c[n..]] + rest)[1..] == rest;
      }
    }
  }
}
