/**
 * The integer readers bl.js generates (`readUInt8` ... `readIntLE`): each
 * slices `w` bytes off the list and decodes them with Node's Buffer reader.
 */
module Integers {
  import opened Wrappers
  import opened Chunks

  function Pow256(w: nat): nat
    ensures Pow256(w) > 0
  {
    if w == 0 then 1 else 256 * Pow256(w - 1)
  }

  /** The unsigned value of `s` read most significant byte first. */
  function BigEndian(s: seq<byte>): nat
  {
    if s == [] then 0 else s[0] as int * Pow256(|s| - 1) + BigEndian(s[1..])
  }

  /** The unsigned value of `s` read least significant byte first. */
  function LittleEndian(s: seq<byte>): nat
  {
    if s == [] then 0 else s[0] as int + 256 * LittleEndian(s[1..])
  }

  function Reverse(s: seq<byte>): (r: seq<byte>)
    ensures |r| == |s|
  {
    if s == [] then [] else Reverse(s[1..]) + [s[0]]
  }

  /** The two's-complement reading of the `w`-byte unsigned value `u`. */
  function Signed(u: int, w: nat): int
  {
    if u >= Pow256(w) / 2 then u - Pow256(w) else u
  }

  /** The `w`-byte big-endian encoding of `v`. */
  function EncodeBE(v: nat, w: nat): (r: seq<byte>)
    requires v < Pow256(w)
    ensures |r| == w
  {
    if w == 0 then []
    else
      var p := Pow256(w - 1);
      QuotientBelow(v, p);
      [(v / p) as byte] + EncodeBE(v % p, w - 1)
  }

  /** A value below `256 * p` has a leading digit below 256. */
  lemma QuotientBelow(v: nat, p: nat)
    requires 0 < p && v < 256 * p
    ensures v / p < 256
  {
    var q := v / p;
    assert q * p <= v;
    if q >= 256 {
      assert false;
    }
  }

  /** One more byte in front of a value below `p` stays below `256 * p`. */
  lemma DigitBelow(d: int, r: int, p: int)
    requires 0 <= d < 256 && 0 <= r < p
    ensures 0 <= d * p + r < 256 * p
  {
    assert (255 - d) * p >= 0;
    assert 256 * p == d * p + (255 - d) * p + p;
  }

  lemma MulAtLeast(a: int, p: int)
    requires 1 <= a && 1 <= p
    ensures a * p >= p
  {
    assert a * p == p + (a - 1) * p;
  }

  /** Division by `p` undoes a leading byte in front of a value below `p`. */
  lemma DigitDivMod(d: int, r: int, p: int)
    requires 0 <= d && 0 <= r < p
    ensures (d * p + r) / p == d && (d * p + r) % p == r
  {
    var v := d * p + r;
    var q, m := v / p, v % p;
    assert v == q * p + m && 0 <= m < p;
    assert (q - d) * p == r - m;
    if q > d {
      MulAtLeast(q - d, p);
    } else if q < d {
      MulAtLeast(d - q, p);
    }
  }

  /** A `w`-byte value is below 256^w. */
  lemma {:induction false} BigEndianBound(s: seq<byte>)
    ensures BigEndian(s) < Pow256(|s|)
  {
    if s != [] {
      BigEndianBound(s[1..]);
      DigitBelow(s[0] as int, BigEndian(s[1..]), Pow256(|s| - 1));
    }
  }

  /** Encoding a decoded value gives back the bytes: the big-endian reading is one-to-one. */
  lemma {:induction false} BigEndianRoundTrip(s: seq<byte>)
    ensures BigEndian(s) < Pow256(|s|)
    ensures EncodeBE(BigEndian(s), |s|) == s
  {
    BigEndianBound(s);
    if s != [] {
      var p := Pow256(|s| - 1);
      var rest := BigEndian(s[1..]);
      BigEndianRoundTrip(s[1..]);
      DigitDivMod(s[0] as int, rest, p);
    }
  }

  /** Decoding an encoded value gives back the value. */
  lemma {:induction false} EncodeRoundTrip(v: nat, w: nat)
    requires v < Pow256(w)
    ensures BigEndian(EncodeBE(v, w)) == v
  {
    if w > 0 {
      var p := Pow256(w - 1);
      var d, r := v / p, v % p;
      EncodeRoundTrip(r, w - 1);
      var e := EncodeBE(v, w);
      assert e[0] as int == d && e[1..] == EncodeBE(r, w - 1);
      assert BigEndian(e) == d * p + r;
      DivModParts(v, p);
    }
  }

  /** Euclidean division splits `v` into a quotient and a remainder. */
  lemma DivModParts(v: nat, p: nat)
    requires 0 < p
    ensures v == (v / p) * p + v % p
  {
  }

  /** Appending a byte shifts the big-endian value up by one byte. */
  lemma {:induction false} BigEndianPush(t: seq<byte>, b: byte)
    ensures BigEndian(t + [b]) == BigEndian(t) * 256 + b as int
  {
    if t != [] {
      assert (t + [b])[1..] == t[1..] + [b];
      BigEndianPush(t[1..], b);
      var p := Pow256(|t| - 1);
      calc {
        BigEndian(t + [b]);
        t[0] as int * (256 * p) + BigEndian(t[1..]) * 256 + b as int;
        { assert t[0] as int * (256 * p) == t[0] as int * p * 256; }
        (t[0] as int * p + BigEndian(t[1..])) * 256 + b as int;
      }
    }
  }

  /** The little-endian reading is the big-endian reading of the reversed bytes. */
  lemma {:induction false} LittleIsReversedBig(s: seq<byte>)
    ensures LittleEndian(s) == BigEndian(Reverse(s))
  {
    if s != [] {
      LittleIsReversedBig(s[1..]);
      BigEndianPush(Reverse(s[1..]), s[0]);
    }
  }

  /**
   * The signed reading of `w >= 1` big-endian bytes lies in the `w`-byte
   * two's-complement range, is negative exactly when the top bit of the
   * first byte is set, and is the unsigned reading or that less 256^w.
   */
  lemma SignedBigEndian(s: seq<byte>)
    requires |s| > 0
    ensures var v := Signed(BigEndian(s), |s|);
      -(Pow256(|s|) / 2) <= v < Pow256(|s|) / 2 &&
      (v < 0 <==> s[0] >= 128) &&
      (v == BigEndian(s) || v == BigEndian(s) - Pow256(|s|))
  {
    var p := Pow256(|s| - 1);
    var d, rest := s[0] as int, BigEndian(s[1..]);
    BigEndianBound(s[1..]);
    BigEndianBound(s);
    assert Pow256(|s|) / 2 == 128 * p;
    TopBit(d, rest, p);
  }

  /** A value with leading byte `d` reaches `128 * p` exactly when `d >= 128`. */
  lemma TopBit(d: int, r: int, p: int)
    requires 0 <= d < 256 && 0 <= r < p
    ensures d * p + r >= 128 * p <==> d >= 128
  {
    if d >= 128 {
      assert (d - 128) * p >= 0;
    } else {
      assert (127 - d) * p >= 0;
    }
  }

  /** The Buffer readers bl.js installs, in the order of its table. */
  datatype Reader =
    | ReadInt32BE | ReadInt32LE | ReadUInt32BE | ReadUInt32LE
    | ReadInt16BE | ReadInt16LE | ReadUInt16BE | ReadUInt16LE
    | ReadInt8 | ReadUInt8
    | ReadIntBE | ReadIntLE | ReadUIntBE | ReadUIntLE

  /** The table's byte width; `None` for the four readers that take the width as an argument. */
  function FixedWidth(m: Reader): Option<nat>
  {
    match m
    case ReadInt32BE | ReadInt32LE | ReadUInt32BE | ReadUInt32LE => Some(4)
    case ReadInt16BE | ReadInt16LE | ReadUInt16BE | ReadUInt16LE => Some(2)
    case ReadInt8 | ReadUInt8 => Some(1)
    case ReadIntBE | ReadIntLE | ReadUIntBE | ReadUIntLE => None
  }

  predicate IsSigned(m: Reader)
  {
    m.ReadInt32BE? || m.ReadInt32LE? || m.ReadInt16BE? || m.ReadInt16LE? ||
    m.ReadInt8? || m.ReadIntBE? || m.ReadIntLE?
  }

  predicate IsLittleEndian(m: Reader)
  {
    m.ReadInt32LE? || m.ReadUInt32LE? || m.ReadInt16LE? || m.ReadUInt16LE? ||
    m.ReadIntLE? || m.ReadUIntLE?
  }

  /** The number of bytes reader `m` slices: its table width, or the `byteLength` argument. */
  function Width(m: Reader, byteLength: int): int
  {
    if FixedWidth(m).Some? then FixedWidth(m).value else byteLength
  }

  /** The integer `m` decodes from exactly its bytes. */
  function Value(m: Reader, bytes: seq<byte>): int
  {
    var u := if IsLittleEndian(m) then LittleEndian(bytes) else BigEndian(bytes);
    if IsSigned(m) then Signed(u, |bytes|) else u
  }

  /**
   * Node's `buf[m](0)` or `buf[m](0, w)` on the slice bl.js made: a
   * RangeError when the width is outside 1..6 or the slice is shorter than
   * the width, the decoded value otherwise.
   */
  function DecodeFront(m: Reader, bytes: seq<byte>, w: int): Outcome<int>
  {
    if !(1 <= w <= 6) || |bytes| < w then Throws(RangeError) else Ok(Value(m, bytes[..w]))
  }
}
