/** Bytes and fixed-width unsigned integer encodings, little- and big-endian.
    These stand in for the `struct` formats "<B", "<H", "<I" and ">I". */
module Bytes {

  type byte = x: int | 0 <= x < 256

  /** 256^n: one more than the largest value an n-byte field holds. */
  function Pow256(n: nat): (p: nat)
    ensures p >= 1
  {
    if n == 0 then 1 else 256 * Pow256(n - 1)
  }

  /** The n-byte little-endian encoding of x (least significant byte first). */
  function LE(x: nat, n: nat): (bs: seq<byte>)
    ensures |bs| == n
  {
    if n == 0 then [] else [x % 256] + LE(x / 256, n - 1)
  }

  /** `struct.pack("<H", x)`: two bytes, low byte first. `struct.pack` raises
      when x does not fit; this function wraps, and is only applied to values
      below 256^2. */
  function U16LE(x: nat): (bs: seq<byte>)
    ensures |bs| == 2
  {
    [x % 256, x / 256 % 256]
  }

  /** `struct.pack("<I", x)`: four bytes, low byte first. `struct.pack` raises
      when x does not fit; this function wraps, and is only applied to values
      below 256^4 (larger lengths and offsets are reported as errors first). */
  function U32LE(x: nat): (bs: seq<byte>)
    ensures |bs| == 4
  {
    [x % 256, x / 256 % 256, x / 256 / 256 % 256, x / 256 / 256 / 256 % 256]
  }

  /** The fixed-width encoders are the general one at widths 2 and 4. */
  lemma U16LEIsLE(x: nat)
    ensures U16LE(x) == LE(x, 2)
  {
    assert LE(x, 2) == [x % 256] + LE(x / 256, 1);
    assert LE(x / 256, 1) == [x / 256 % 256] + LE(x / 256 / 256, 0);
  }

  lemma U32LEIsLE(x: nat)
    ensures U32LE(x) == LE(x, 4)
  {
    var y := x / 256;
    U16LEIsLE(y / 256);
    assert LE(y, 3) == [y % 256] + LE(y / 256, 2);
    assert LE(x, 4) == [x % 256] + LE(y, 3);
  }

  /** The fixed-width fields decode to the value written, when it fits. */
  lemma DecodeU16LE(x: nat)
    requires x < Pow256(2)
    ensures DecodeLE(U16LE(x)) == x
  {
    U16LEIsLE(x);
    DecodeEncodeLE(x, 2);
  }

  lemma DecodeU32LE(x: nat)
    requires x < Pow256(4)
    ensures DecodeLE(U32LE(x)) == x
  {
    U32LEIsLE(x);
    DecodeEncodeLE(x, 4);
  }

  /** The value of a little-endian byte string. */
  function DecodeLE(bs: seq<byte>): nat
  {
    if bs == [] then 0 else bs[0] + 256 * DecodeLE(bs[1..])
  }

  /** The n-byte big-endian encoding of x (most significant byte first). */
  function BE(x: nat, n: nat): (bs: seq<byte>)
    ensures |bs| == n
  {
    if n == 0 then [] else BE(x / 256, n - 1) + [x % 256]
  }

  /** The value of a big-endian byte string. */
  function DecodeBE(bs: seq<byte>): nat
  {
    if bs == [] then 0 else 256 * DecodeBE(bs[..|bs| - 1]) + bs[|bs| - 1]
  }

  /** A little-endian field of n bytes holds exactly the values below 256^n. */
  lemma {:induction false} DecodeLEBound(bs: seq<byte>)
    ensures DecodeLE(bs) < Pow256(|bs|)
  {
    if bs != [] {
      DecodeLEBound(bs[1..]);
    }
  }

  lemma {:induction false} DecodeBEBound(bs: seq<byte>)
    ensures DecodeBE(bs) < Pow256(|bs|)
  {
    if bs != [] {
      DecodeBEBound(bs[..|bs| - 1]);
    }
  }

  /** Decoding an encoded value gives the value back, when it fits in n bytes. */
  lemma {:induction false} DecodeEncodeLE(x: nat, n: nat)
    requires x < Pow256(n)
    ensures DecodeLE(LE(x, n)) == x
  {
    if n > 0 {
      DecodeEncodeLE(x / 256, n - 1);
      assert LE(x, n)[1..] == LE(x / 256, n - 1);
    }
  }

  /** Encoding a decoded field gives the field back. */
  lemma {:induction false} EncodeDecodeLE(bs: seq<byte>)
    ensures LE(DecodeLE(bs), |bs|) == bs
  {
    if bs != [] {
      EncodeDecodeLE(bs[1..]);
      var x := DecodeLE(bs);
      assert x % 256 == bs[0];
      assert x / 256 == DecodeLE(bs[1..]);
    }
  }

  lemma {:induction false} DecodeEncodeBE(x: nat, n: nat)
    requires x < Pow256(n)
    ensures DecodeBE(BE(x, n)) == x
  {
    if n > 0 {
      DecodeEncodeBE(x / 256, n - 1);
      var bs := BE(x, n);
      assert bs[..|bs| - 1] == BE(x / 256, n - 1);
    }
  }

  lemma {:induction false} EncodeDecodeBE(bs: seq<byte>)
    ensures BE(DecodeBE(bs), |bs|) == bs
  {
    if bs != [] {
      var init := bs[..|bs| - 1];
      EncodeDecodeBE(init);
      var x := DecodeBE(bs);
      assert x % 256 == bs[|bs| - 1];
      assert x / 256 == DecodeBE(init);
      assert bs == init + [bs[|bs| - 1]];
    }
  }

  // ---------------------------------------------------------------------
  // Slices of concatenations, with the cut points given explicitly so that
  // callers can name them in their own terms

  /** A slice of the front part of a concatenation. */
  lemma SliceOfFront(front: seq<byte>, back: seq<byte>, lo: nat, hi: nat)
    requires lo <= hi <= |front|
    ensures (front + back)[lo..hi] == front[lo..hi]
  {
  }

  /** The start of the front part of a concatenation. */
  lemma PrefixOfFront(front: seq<byte>, back: seq<byte>, hi: nat)
    requires hi <= |front|
    ensures (front + back)[..hi] == front[..hi]
  {
  }

  /** A slice of a prefix is the same slice of the whole. */
  lemma SliceOfPrefix(whole: seq<byte>, upto: nat, lo: nat, hi: nat)
    requires lo <= hi <= upto <= |whole|
    ensures whole[..upto][lo..hi] == whole[lo..hi]
  {
  }

  /** A slice of the middle part of a concatenation, which in the whole
      runs from `a` to `b`. */
  lemma SliceOfMiddle(front: seq<byte>, middle: seq<byte>, back: seq<byte>, lo: nat, hi: nat, a: nat, b: nat)
    requires lo <= hi <= |middle|
    requires a == |front| + lo && b == |front| + hi
    ensures (front + middle + back)[a..b] == middle[lo..hi]
  {
    var whole := front + middle + back;
    assert forall k :: a <= k < b ==> whole[k] == middle[k - |front|];
  }

  /** The back part of a concatenation, which in the whole runs from `lo` to
      `hi`. */
  lemma SliceOfBack(front: seq<byte>, back: seq<byte>, lo: nat, hi: nat)
    requires lo == |front| && hi == |front| + |back|
    ensures (front + back)[lo..hi] == back
  {
  }

  /** The three parts of a concatenation, sliced back out at the seams
      `i` and `j`. */
  lemma SliceParts(whole: seq<byte>, front: seq<byte>, middle: seq<byte>, back: seq<byte>, i: nat, j: nat)
    requires whole == front + middle + back
    requires i == |front| && j == |front| + |middle|
    ensures whole[..i] == front && whole[i..j] == middle && whole[j..] == back
  {
  }

  /** A slice of a suffix is the slice of the whole from `a` to `b`. */
  lemma SliceOfSuffix(whole: seq<byte>, from: nat, lo: nat, hi: nat, a: nat, b: nat)
    requires from + hi <= |whole| && lo <= hi
    requires a == from + lo && b == from + hi
    ensures whole[from..][lo..hi] == whole[a..b]
  {
  }
}
