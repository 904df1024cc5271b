/** Bytes and the fixed-width little-endian integers of Python's `struct`
    formats `<I` (4 bytes) and `<Q` (8 bytes). */
module Bytes {

  type byte = x: int | 0 <= x < 256
  type Bytes = seq<byte>

  const U32_LIMIT: nat := 0x1_0000_0000
  const U64_LIMIT: nat := 0x1_0000_0000_0000_0000

  /** 256 to the power w: the number of values a w-byte field can hold. */
  function Pow256(w: nat): (r: nat)
    ensures r > 0
  {
    if w == 0 then 1 else 256 * Pow256(w - 1)
  }

  lemma Pow256Widths()
    ensures Pow256(4) == U32_LIMIT
    ensures Pow256(8) == U64_LIMIT
  {
  }

  /** Unsigned little-endian value of a byte string (`struct.unpack`). */
  function FromLE(b: Bytes): (v: nat)
    ensures v < Pow256(|b|)
  {
    if |b| == 0 then 0 else b[0] + 256 * FromLE(b[1..])
  }

  /** The w-byte little-endian encoding of v (`struct.pack`); reading it back
      gives v. Values that do not fit make `struct.pack` raise, so they are
      excluded here. */
  function ToLE(v: nat, w: nat): (r: Bytes)
    requires v < Pow256(w)
    ensures |r| == w
    ensures FromLE(r) == v
  {
    if w == 0 then []
    else
      var rest := ToLE(v / 256, w - 1);
      assert ([v % 256] + rest)[1..] == rest;
      [v % 256] + rest
  }

  /** Packing what was unpacked gives the original bytes back. */
  lemma {:induction false} ToLEFromLE(b: Bytes)
    ensures ToLE(FromLE(b), |b|) == b
  {
    if |b| > 0 {
      var v := FromLE(b);
      assert v % 256 == b[0];
      assert v / 256 == FromLE(b[1..]);
      ToLEFromLE(b[1..]);
    }
  }

  /** Two values with the same w-byte encoding are equal, and vice versa. */
  lemma ToLEInjective(v: nat, u: nat, w: nat)
    requires v < Pow256(w) && u < Pow256(w)
    ensures ToLE(v, w) == ToLE(u, w) <==> v == u
  {
  }

  /** A slice of a three-part concatenation that lies inside the middle part. */
  lemma SliceOfConcat<T>(a: seq<T>, b: seq<T>, c: seq<T>, i: nat, j: nat)
    requires i <= j <= |b|
    ensures (a + b + c)[|a| + i .. |a| + j] == b[i..j]
  {
  }

  /** The middle and last parts of a three-part concatenation. */
  lemma Assoc<T>(a: seq<T>, b: seq<T>, c: seq<T>)
    ensures a + b + c == a + (b + c)
  {
  }

  /** A slice of a longer sequence, element by element. */
  lemma Window<T>(big: seq<T>, off: nat, es: seq<T>)
    requires off + |es| <= |big| && big[off..off + |es|] == es
    ensures forall k :: 0 <= k < |es| ==> big[off + k] == es[k]
  {
  }

  lemma ConcatParts<T>(a: seq<T>, b: seq<T>, c: seq<T>)
    ensures (a + (b + c))[|a|..|a| + |b|] == b
    ensures (a + (b + c))[|a| + |b|..] == c
  {
    assert a + (b + c) == a + b + c;
  }
}
