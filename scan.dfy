/**
 * The scan order shared by embedding and extraction, and the codec on that order.
 *
 * Both loops of the GUI visit pixel rows, then columns, then channels 0, 1, 2, and
 * give each visited sample the next position ("slot") of a single cursor. Slot s of
 * a grid w pixels wide is channel s % 3 of pixel (s / 3 / w, s / 3 % w). Seen along
 * that order the RGB samples of a grid form one sequence; embedding and extraction
 * are then the sequence functions EmbedSeq and ExtractSeq below.
 */
module Scan {
  import opened Bits

  function Min(a: nat, b: nat): (m: nat)
    ensures m <= a && m <= b && (m == a || m == b)
  {
    if a <= b then a else b
  }

  /**
   * The sample `(v & ~1) | bit`: the mask `~1` clears bit 0, which subtracts the
   * parity of `v`, and or-ing `bit` into the now even value adds it.
   */
  function SetLsb(v: Byte, bit: Bit): (r: Byte)
    ensures r % 2 == bit
    ensures r / 2 == v / 2
    ensures -1 <= r - v <= 1
  {
    v - v % 2 + bit
  }

  /** The arithmetic form of SetLsb is the source's bitwise `(v & ~1) | bit` on an 8-bit sample `x` and a bit `b`. */
  lemma SetLsbBitwise(x: bv8, b: bv8)
    requires b < 2
    ensures ((x & 0xFE) | b) as int == SetLsb(x as int, b as int)
  {
    LowBit(x);
    ClearLowBit(x);
    OrLowBit(x & 0xFE, b);
  }

  /** Bit 0 of a sample is its parity. */
  lemma LowBit(x: bv8)
    ensures (x & 1) as int == x as int % 2
  {
  }

  /** Clearing bit 0 subtracts it. */
  lemma ClearLowBit(x: bv8)
    ensures (x & 0xFE) as int + (x & 1) as int == x as int && (x & 0xFE) & 1 == 0
  {
  }

  /** Or-ing a bit into an even value adds it. */
  lemma OrLowBit(y: bv8, b: bv8)
    requires y & 1 == 0 && b < 2
    ensures (y | b) as int == y as int + b as int && b as int < 2
  {
  }

  /** The sample's least-significant bit, `v & 1`. */
  function Lsb(v: Byte): (b: Bit)
    ensures b == v % 2
  {
    ((v as bv8) & 1) as int
  }

  /** The slot of channel k of pixel (i, j) in a grid w pixels wide. */
  function Slot(w: nat, i: nat, j: nat, k: nat): nat
  {
    (i * w + j) * 3 + k
  }

  function Row(w: nat, s: nat): nat
    requires w > 0
  {
    s / 3 / w
  }

  function Col(w: nat, s: nat): (j: nat)
    requires w > 0
    ensures j < w
  {
    s / 3 % w
  }

  function Channel(s: nat): (k: nat)
    ensures k < 3
  {
    s % 3
  }

  lemma MulMono(a: nat, b: nat, w: nat)
    requires a <= b
    ensures a * w <= b * w
  {
    assert b * w == a * w + (b - a) * w;
  }

  /** Euclidean division is determined by quotient and remainder. */
  lemma DivModUnique(a: nat, w: nat, q: nat, r: nat)
    requires 0 <= r < w && a == q * w + r
    ensures a / w == q && a % w == r
  {
    var q', r' := a / w, a % w;
    if q' < q {
      MulMono(q' + 1, q, w);
    } else if q' > q {
      MulMono(q + 1, q', w);
    }
  }

  /** Every slot below h*w*3 is the slot of exactly the cell Row/Col/Channel name. */
  lemma SlotOfCell(h: nat, w: nat, s: nat)
    requires s < h * w * 3
    ensures w > 0 && Row(w, s) < h
    ensures Slot(w, Row(w, s), Col(w, s), Channel(s)) == s
  {
    var p := s / 3;
    assert s == p * 3 + Channel(s);
    assert p == Row(w, s) * w + Col(w, s);
    if Row(w, s) >= h {
      MulMono(h, Row(w, s), w);
    }
  }

  /** The cell of the slot of (i, j, k) is (i, j, k) again. */
  lemma CellOfSlot(w: nat, i: nat, j: nat, k: nat)
    requires j < w && k < 3
    ensures Row(w, Slot(w, i, j, k)) == i && Col(w, Slot(w, i, j, k)) == j
    ensures Channel(Slot(w, i, j, k)) == k
  {
    var s := Slot(w, i, j, k);
    DivModUnique(s, 3, i * w + j, k);
    DivModUnique(i * w + j, w, i, j);
  }

  /** A cell of an h-by-w grid has a slot below h*w*3. */
  lemma SlotBelowCapacity(h: nat, w: nat, i: nat, j: nat, k: nat)
    requires i < h && j < w && k < 3
    ensures Slot(w, i, j, k) < h * w * 3
  {
    assert (i + 1) * w <= h * w;
  }

  /** The slot after the last channel of a row is the first slot of the next row. */
  lemma NextRowSlot(w: nat, i: nat)
    ensures Slot(w, i, w, 0) == Slot(w, i + 1, 0, 0)
  {
    assert (i + 1) * w == i * w + w;
  }

  /** The sample at slot t after embedding `bits`: its LSB replaced while bits remain. */
  function EmbedAt(v: Byte, t: nat, bits: seq<Bit>): Byte
  {
    if t < |bits| then SetLsb(v, bits[t]) else v
  }

  /** Embedding along the scan order: slot t takes bit t, and bits past the last slot are dropped. */
  function EmbedSeq(samples: seq<Byte>, bits: seq<Bit>): (stego: seq<Byte>)
    ensures |stego| == |samples|
    ensures forall t :: 0 <= t < |samples| ==> stego[t] / 2 == samples[t] / 2
    ensures forall t :: 0 <= t < |samples| && t < |bits| ==> stego[t] % 2 == bits[t]
    ensures forall t :: |bits| <= t < |samples| ==> stego[t] == samples[t]
  {
    seq(|samples|, t requires 0 <= t < |samples| => EmbedAt(samples[t], t, bits))
  }

  /** Extraction along the scan order: the LSBs of the first `bitlen` slots, or of all slots if fewer. */
  function ExtractSeq(samples: seq<Byte>, bitlen: nat): (bits: seq<Bit>)
    ensures |bits| == Min(bitlen, |samples|)
    ensures forall t :: 0 <= t < |bits| ==> bits[t] == samples[t] % 2
  {
    seq(Min(bitlen, |samples|), t requires 0 <= t < Min(bitlen, |samples|) => Lsb(samples[t]))
  }

  /** Reading one more slot appends that slot's least-significant bit. */
  lemma {:induction false} ExtractSeqStep(samples: seq<Byte>, n: nat)
    requires n < |samples|
    ensures ExtractSeq(samples, n + 1) == ExtractSeq(samples, n) + [Lsb(samples[n])]
  {
  }

  /** Asking for more bits than there are slots reads every slot once. */
  lemma {:induction false} ExtractSeqCapped(samples: seq<Byte>, bitlen: nat)
    ensures ExtractSeq(samples, bitlen) == ExtractSeq(samples, Min(bitlen, |samples|))
  {
  }

  /** Embedded bits read back: extraction recovers every bit that found a slot. */
  lemma {:induction false} EmbedExtract(samples: seq<Byte>, bits: seq<Bit>)
    ensures ExtractSeq(EmbedSeq(samples, bits), |bits|) == bits[..Min(|bits|, |samples|)]
  {
    var got := ExtractSeq(EmbedSeq(samples, bits), |bits|);
    forall t | 0 <= t < |got|
      ensures got[t] == bits[t]
    {
      assert EmbedSeq(samples, bits)[t] == SetLsb(samples[t], bits[t]);
    }
  }

  /** With enough slots the bitwise round trip is exact. */
  lemma {:induction false} EmbedExtractExact(samples: seq<Byte>, bits: seq<Bit>)
    requires |bits| <= |samples|
    ensures ExtractSeq(EmbedSeq(samples, bits), |bits|) == bits
  {
    EmbedExtract(samples, bits);
    assert bits[..|bits|] == bits;
  }

  /** Extraction ignores every slot from `bitlen` on: grids that agree on the first `bitlen` slots yield the same bits. */
  lemma {:induction false} ExtractIgnoresLaterSlots(samples: seq<Byte>, other: seq<Byte>, bitlen: nat)
    requires |samples| == |other|
    requires forall t :: 0 <= t < Min(bitlen, |samples|) ==> samples[t] == other[t]
    ensures ExtractSeq(samples, bitlen) == ExtractSeq(other, bitlen)
  {
    var a, b := ExtractSeq(samples, bitlen), ExtractSeq(other, bitlen);
    forall t | 0 <= t < |a|
      ensures a[t] == b[t]
    {
      assert samples[t] == other[t];
    }
  }
}
