/**
 * Whole-value conversions between a byte buffer and its bit string, as numpy's
 * `unpackbits` and `packbits` perform them on a `uint8` buffer: most significant
 * bit first, eight bits per byte, a final partial group zero-padded on the right.
 */
module Bits {

  /** An unsigned 8-bit sample or byte. */
  type Byte = x: int | 0 <= x < 256

  /** One payload bit. */
  type Bit = x: int | 0 <= x < 2

  function Pow2(n: nat): (p: nat)
    ensures p >= 1
  {
    if n == 0 then 1 else 2 * Pow2(n - 1)
  }

  /** The number `bits` denotes read as a big-endian binary numeral (first bit most significant). */
  function MsbValue(bits: seq<Bit>): (v: nat)
    ensures v < Pow2(|bits|)
  {
    if bits == [] then 0 else 2 * MsbValue(bits[..|bits| - 1]) + bits[|bits| - 1]
  }

  /** The `n` low bits of `x`, most significant first. */
  function MsbBits(x: nat, n: nat): (bits: seq<Bit>)
    ensures |bits| == n
  {
    if n == 0 then [] else MsbBits(x / 2, n - 1) + [x % 2]
  }

  lemma {:induction false} MsbValueOfBits(x: nat, n: nat)
    requires x < Pow2(n)
    ensures MsbValue(MsbBits(x, n)) == x
  {
    if n > 0 {
      var bits := MsbBits(x, n);
      assert bits == MsbBits(x / 2, n - 1) + [x % 2];
      assert bits[..n - 1] == MsbBits(x / 2, n - 1) && bits[n - 1] == x % 2;
      assert x / 2 < Pow2(n - 1);
      MsbValueOfBits(x / 2, n - 1);
      assert MsbValue(bits) == 2 * (x / 2) + x % 2;
    }
  }

  lemma {:induction false} MsbBitsOfValue(bits: seq<Bit>)
    ensures MsbBits(MsbValue(bits), |bits|) == bits
  {
    if bits != [] {
      var n := |bits|;
      var v := MsbValue(bits);
      assert v / 2 == MsbValue(bits[..n - 1]) && v % 2 == bits[n - 1];
      MsbBitsOfValue(bits[..n - 1]);
    }
  }

  /** The eight bits of one byte, most significant first (one byte of `np.unpackbits`). */
  function ByteBits(x: Byte): (bits: seq<Bit>)
    ensures |bits| == 8
    ensures MsbValue(bits) == x
  {
    MsbValueOfBits(x, 8);
    MsbBits(x, 8)
  }

  /** The byte whose bits, most significant first, are `group` (one byte of `np.packbits`). */
  function PackByte(group: seq<Bit>): (x: Byte)
    requires |group| == 8
    ensures MsbBits(x, 8) == group
  {
    MsbBitsOfValue(group);
    MsbValue(group)
  }

  lemma PackByteBits(x: Byte)
    ensures PackByte(ByteBits(x)) == x
  {
    MsbValueOfBits(x, 8);
  }

  lemma ByteBitsPack(group: seq<Bit>)
    requires |group| == 8
    ensures ByteBits(PackByte(group)) == group
  {
    MsbBitsOfValue(group);
  }

  /** Bit 0 of a byte carries weight 128 and bit 7 weight 1: the expansion is big-endian. */
  lemma ByteBitsWeights(x: Byte)
    ensures var b: seq<int> := ByteBits(x);
      x == 128 * b[0] + 64 * b[1] + 32 * b[2] + 16 * b[3] + 8 * b[4] + 4 * b[5] + 2 * b[6] + b[7]
  {
    var b: seq<int> := ByteBits(x);
    PackByteBits(x);
    assert b[..8] == b;
    MsbValuePrefix(ByteBits(x), 8);
    MsbValuePrefix(ByteBits(x), 7);
    MsbValuePrefix(ByteBits(x), 6);
    MsbValuePrefix(ByteBits(x), 5);
    MsbValuePrefix(ByteBits(x), 4);
    MsbValuePrefix(ByteBits(x), 3);
    MsbValuePrefix(ByteBits(x), 2);
    MsbValuePrefix(ByteBits(x), 1);
  }

  lemma {:induction false} MsbValuePrefix(bits: seq<Bit>, n: nat)
    requires 0 < n <= |bits|
    ensures MsbValue(bits[..n]) == 2 * MsbValue(bits[..n - 1]) + bits[n - 1]
  {
    assert bits[..n][..n - 1] == bits[..n - 1];
  }

  function Zeros(n: nat): (z: seq<Bit>)
    ensures |z| == n && forall t :: 0 <= t < n ==> z[t] == 0
  {
    seq(n, _ => 0)
  }

  /** The number of zero bits `np.packbits` appends to `n` bits to complete the last byte. */
  function PadLength(n: nat): (p: nat)
    ensures p < 8 && (n + p) % 8 == 0
  {
    (8 - n % 8) % 8
  }

  lemma PadLengthSkipsByte(n: nat)
    requires n >= 8
    ensures PadLength(n - 8) == PadLength(n)
  {
    assert (n - 8) % 8 == n % 8;
  }

  /** `np.unpackbits`: every byte becomes eight bits, most significant first, in input order. */
  function BytesToBits(data: seq<Byte>): (bits: seq<Bit>)
    ensures |bits| == 8 * |data|
  {
    if data == [] then [] else ByteBits(data[0]) + BytesToBits(data[1..])
  }

  /** `np.packbits`: each group of eight bits becomes a byte; a final partial group is right-padded with zeros. */
  function BitsToBytes(bits: seq<Bit>): (data: seq<Byte>)
    ensures |data| == (|bits| + 7) / 8
  {
    if bits == [] then []
    else if |bits| < 8 then [PackByte(bits + Zeros(8 - |bits|))]
    else [PackByte(bits[..8])] + BitsToBytes(bits[8..])
  }

  /** Bits 8*i .. 8*i+7 of the expansion are the bits of byte i. */
  lemma {:induction false} BytesToBitsAt(data: seq<Byte>, i: nat, j: nat)
    requires i < |data| && j < 8
    ensures BytesToBits(data)[8 * i + j] == ByteBits(data[i])[j]
  {
    if i > 0 {
      BytesToBitsAt(data[1..], i - 1, j);
    }
  }

  /** Packing inverts expansion. */
  lemma {:induction false} PackAfterExpand(data: seq<Byte>)
    ensures BitsToBytes(BytesToBits(data)) == data
  {
    if data != [] {
      var bits := BytesToBits(data);
      assert bits[..8] == ByteBits(data[0]);
      assert bits[8..] == BytesToBits(data[1..]);
      PackByteBits(data[0]);
      PackAfterExpand(data[1..]);
    }
  }

  /** Expanding what was packed gives the bits back, right-padded with zeros to whole bytes. */
  lemma {:induction false} ExpandAfterPack(bits: seq<Bit>)
    ensures BytesToBits(BitsToBytes(bits)) == bits + Zeros(PadLength(|bits|))
    decreases |bits|, 1
  {
    if bits == [] {
    } else if |bits| < 8 {
      ExpandLastGroup(bits);
    } else {
      ExpandFullGroup(bits);
    }
  }

  lemma {:induction false} ExpandFullGroup(bits: seq<Bit>)
    requires |bits| >= 8
    ensures BytesToBits(BitsToBytes(bits)) == bits + Zeros(PadLength(|bits|))
    decreases |bits|, 0
  {
    var first, rest := bits[..8], bits[8..];
    var zeros := Zeros(PadLength(|bits|));
    calc {
      BytesToBits(BitsToBytes(bits));
    == { assert BitsToBytes(bits) == [PackByte(first)] + BitsToBytes(rest); }
      BytesToBits([PackByte(first)] + BitsToBytes(rest));
    == { BytesToBitsCons(PackByte(first), BitsToBytes(rest)); }
      ByteBits(PackByte(first)) + BytesToBits(BitsToBytes(rest));
    == { ByteBitsPack(first); ExpandAfterPack(rest); PadLengthSkipsByte(|bits|); }
      first + (rest + zeros);
    == { assert first + rest == bits; }
      bits + zeros;
    }
  }

  lemma {:induction false} BytesToBitsCons(x: Byte, rest: seq<Byte>)
    ensures BytesToBits([x] + rest) == ByteBits(x) + BytesToBits(rest)
  {
    assert ([x] + rest)[1..] == rest;
  }

  lemma {:induction false} ExpandLastGroup(bits: seq<Bit>)
    requires 0 < |bits| < 8
    ensures BytesToBits(BitsToBytes(bits)) == bits + Zeros(PadLength(|bits|))
  {
    var group := bits + Zeros(8 - |bits|);
    assert BitsToBytes(bits) == [PackByte(group)];
    ByteBitsPack(group);
    assert BytesToBits([PackByte(group)]) == ByteBits(PackByte(group)) + BytesToBits([]);
    assert PadLength(|bits|) == 8 - |bits|;
  }

  /** A bit string of whole bytes survives packing and expansion unchanged. */
  lemma {:induction false} WholeBytesRoundTrip(bits: seq<Bit>)
    requires |bits| % 8 == 0
    ensures BytesToBits(BitsToBytes(bits)) == bits
  {
    ExpandAfterPack(bits);
    assert Zeros(PadLength(|bits|)) == [];
  }
}
