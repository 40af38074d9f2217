/**
 * The pixel grid and the two loops of the GUI that walk it.
 *
 * A grid is the numpy `uint8` array of a decoded image: height x width x channels,
 * indexed [row, column, channel]. Only channels 0, 1 and 2 carry payload.
 */
module Stego {
  import opened Bits
  import opened Scan

  /** The number of embedding slots of a grid: three per pixel. */
  function Capacity(g: array3<Byte>): nat
  {
    g.Length0 * g.Length1 * 3
  }

  /** The RGB samples of `g` in scan order: slot s holds channel s % 3 of pixel (s / 3 / width, s / 3 % width). */
  function Samples(g: array3<Byte>): (samples: seq<Byte>)
    reads g
    requires g.Length2 >= 3
    ensures |samples| == Capacity(g)
  {
    var h, w := g.Length0, g.Length1;
    seq(h * w * 3, s requires 0 <= s < h * w * 3 reads g => SampleAt(g, s))
  }

  /** The sample in slot `s` of the scan order. */
  function SampleAt(g: array3<Byte>, s: nat): Byte
    reads g
    requires g.Length2 >= 3 && s < g.Length0 * g.Length1 * 3
  {
    SlotOfCell(g.Length0, g.Length1, s);
    g[Row(g.Length1, s), Col(g.Length1, s), Channel(s)]
  }

  /** Sample (i, j, k) of a grid sits at its slot in the scan-order view. */
  lemma SampleAtSlot(g: array3<Byte>, i: nat, j: nat, k: nat)
    requires g.Length2 >= 3
    requires i < g.Length0 && j < g.Length1 && k < 3
    ensures Slot(g.Length1, i, j, k) < Capacity(g)
    ensures Samples(g)[Slot(g.Length1, i, j, k)] == g[i, j, k]
  {
    SlotBelowCapacity(g.Length0, g.Length1, i, j, k);
    CellOfSlot(g.Length1, i, j, k);
  }

  /** Cell (a, b, c) comes before cell (i, j, k) in the visiting order of the loops and lies in channels 0..2. */
  predicate Visited(a: nat, b: nat, c: nat, i: nat, j: nat, k: nat)
  {
    c < 3 && (a < i || (a == i && (b < j || (b == j && c < k))))
  }

  /**
   * Embedding: copy the cover, then visit every pixel in row-major order and its
   * channels 0, 1, 2, writing payload bit `idx` into the least-significant bit of
   * the visited sample while bits remain. Bits beyond the capacity are dropped
   * without notice; `idx` ends at the number of bits written.
   */
  method Embed(cover: array3<Byte>, bits: seq<Bit>) returns (stego: array3<Byte>, idx: nat)
    requires cover.Length2 >= 3
    ensures fresh(stego)
    ensures stego.Length0 == cover.Length0 && stego.Length1 == cover.Length1 && stego.Length2 == cover.Length2
    ensures forall a, b, c :: 0 <= a < cover.Length0 && 0 <= b < cover.Length1 && 0 <= c < cover.Length2 ==>
      stego[a, b, c] == if c < 3 then EmbedAt(cover[a, b, c], Slot(cover.Length1, a, b, c), bits) else cover[a, b, c]
    ensures Samples(stego) == EmbedSeq(Samples(cover), bits)
    ensures idx == Min(|bits|, Capacity(cover))
  {
    var h, w, n := cover.Length0, cover.Length1, cover.Length2;
    stego := new Byte[h, w, n]((a: nat, b: nat, c: nat) reads cover =>
      if a < h && b < w && c < n then cover[a, b, c] else 0);
    idx := 0;
    for i := 0 to h
      invariant idx == Min(|bits|, Slot(w, i, 0, 0))
      invariant forall a, b, c :: 0 <= a < h && 0 <= b < w && 0 <= c < n ==>
        stego[a, b, c] == if Visited(a, b, c, i, 0, 0) then EmbedAt(cover[a, b, c], Slot(w, a, b, c), bits) else cover[a, b, c]
    {
      for j := 0 to w
        invariant idx == Min(|bits|, Slot(w, i, j, 0))
        invariant forall a, b, c :: 0 <= a < h && 0 <= b < w && 0 <= c < n ==>
          stego[a, b, c] == if Visited(a, b, c, i, j, 0) then EmbedAt(cover[a, b, c], Slot(w, a, b, c), bits) else cover[a, b, c]
      {
        for k := 0 to 3
          invariant idx == Min(|bits|, Slot(w, i, j, k))
          invariant forall a, b, c :: 0 <= a < h && 0 <= b < w && 0 <= c < n ==>
            stego[a, b, c] == if Visited(a, b, c, i, j, k) then EmbedAt(cover[a, b, c], Slot(w, a, b, c), bits) else cover[a, b, c]
        {
          if idx < |bits| {
            stego[i, j, k] := SetLsb(stego[i, j, k], bits[idx]);
            idx := idx + 1;
          }
        }
      }
      NextRowSlot(w, i);
    }
    forall s | 0 <= s < Capacity(cover)
      ensures Samples(stego)[s] == EmbedSeq(Samples(cover), bits)[s]
    {
      SlotOfCell(h, w, s);
    }
  }

  /**
   * Extraction: visit the grid in the same order and append the least-significant
   * bit of the visited sample for the first `bitlen` slots. A `bitlen` above the
   * capacity yields only as many bits as there are slots.
   */
  method Extract(stego: array3<Byte>, bitlen: nat) returns (bits: seq<Bit>)
    requires stego.Length2 >= 3
    ensures |bits| == Min(bitlen, Capacity(stego))
    ensures bits == ExtractSeq(Samples(stego), bitlen)
  {
    var h, w := stego.Length0, stego.Length1;
    ghost var samples := Samples(stego);
    bits := [];
    var idx := 0;
    for i := 0 to h
      invariant idx == |bits| == Min(bitlen, Slot(w, i, 0, 0))
      invariant bits == ExtractSeq(samples, idx)
    {
      for j := 0 to w
        invariant idx == |bits| == Min(bitlen, Slot(w, i, j, 0))
        invariant bits == ExtractSeq(samples, idx)
      {
        for k := 0 to 3
          invariant idx == |bits| == Min(bitlen, Slot(w, i, j, k))
          invariant bits == ExtractSeq(samples, idx)
        {
          if idx < bitlen {
            SampleAtSlot(stego, i, j, k);
            assert samples[idx] == stego[i, j, k];
            ExtractSeqStep(samples, idx);
            var bit := Lsb(stego[i, j, k]);
            bits := bits + [bit];
            idx := idx + 1;
          }
        }
      }
      NextRowSlot(w, i);
    }
    ExtractSeqCapped(samples, bitlen);
  }
}
