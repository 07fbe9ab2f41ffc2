/** Bytes and the little-endian integer encoding that `int.to_bytes` and
    `int.from_bytes` perform with `byteorder="little"`. */
module Bytes {

  type byte = x: int | 0 <= x < 256

  /** 256 to the power `n`: the number of distinct `n`-byte strings. */
  function Pow256(n: nat): (r: nat)
    ensures r >= 1
  {
    if n == 0 then 1 else 256 * Pow256(n - 1)
  }

  /** `int.from_bytes(b, byteorder="little")`; accepts any length, the empty
      string reads as 0. */
  function FromLE(b: seq<byte>): nat
  {
    if |b| == 0 then 0 else b[0] + 256 * FromLE(b[1..])
  }

  /** `n.to_bytes(width, byteorder="little")` for an `n` that fits. */
  function ToLE(n: nat, width: nat): (r: seq<byte>)
    requires n < Pow256(width)
    ensures |r| == width
    ensures FromLE(r) == n
  {
    if width == 0 then [] else [n % 256] + ToLE(n / 256, width - 1)
  }

  /** A `width`-byte string reads as a value below 256^width, so `ToLE`
      accepts everything `FromLE` produces. */
  lemma {:induction false} FromLEBound(b: seq<byte>)
    ensures FromLE(b) < Pow256(|b|)
  {
    if |b| > 0 {
      FromLEBound(b[1..]);
    }
  }

  /** Decoding then re-encoding at the same width gives the bytes back: the
      encoding is a bijection between `width`-byte strings and values below
      256^width. */
  lemma {:induction false} ToLEOfFromLE(b: seq<byte>)
    ensures FromLE(b) < Pow256(|b|)
    ensures ToLE(FromLE(b), |b|) == b
  {
    FromLEBound(b);
    if |b| > 0 {
      ToLEOfFromLE(b[1..]);
      assert FromLE(b) % 256 == b[0];
      assert FromLE(b) / 256 == FromLE(b[1..]);
    }
  }

  /** Two values that fit in `width` bytes have equal encodings only if they
      are equal. */
  lemma ToLEInjective(m: nat, n: nat, width: nat)
    requires m < Pow256(width) && n < Pow256(width)
    ensures ToLE(m, width) == ToLE(n, width) <==> m == n
  {
  }

  /** Python's `b[i:j]` on a byte string: the bounds are clamped to the length
      instead of failing. */
  function Slice<T>(s: seq<T>, i: nat, j: nat): (r: seq<T>)
    ensures |r| == if j <= i || i >= |s| then 0 else (if j <= |s| then j else |s|) - i
    ensures i <= j <= |s| ==> r == s[i..j]
  {
    var hi := if j <= |s| then j else |s|;
    if i >= hi then [] else s[i..hi]
  }

  /** Python's `b[i:]`. */
  function Drop<T>(s: seq<T>, i: nat): (r: seq<T>)
    ensures |r| == if i >= |s| then 0 else |s| - i
    ensures i <= |s| ==> r == s[i..]
  {
    if i >= |s| then [] else s[i..]
  }
}
