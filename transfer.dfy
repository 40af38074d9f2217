/**
 * The sender and receiver around the codec: the ciphertext is expanded to bits,
 * embedded, and the side record written; the receiver reads `bitlen` bits back and
 * packs them into the ciphertext handed to the decryptor.
 *
 * The cipher is outside the model: ciphertext, key, nonce and tag are opaque bytes.
 */
module Transfer {
  import opened Bits
  import opened Scan
  import opened Stego

  /** The side record saved next to the stego image: cipher parameters, (height, width) and the embedded bit count. */
  datatype KeyBundle = KeyBundle(key: seq<Byte>, nonce: seq<Byte>, tag: seq<Byte>, shape: (nat, nat), bitlen: nat)

  /**
   * Sender side: expand the ciphertext, embed it into a copy of the cover and
   * record `bitlen` as the length of the expansion. The cover has already been
   * resized to the secret image's size, so its (height, width) is the recorded
   * shape. Nothing checks that the bits fit.
   */
  method EmbedAndRecord(cover: array3<Byte>, ciphertext: seq<Byte>, key: seq<Byte>, nonce: seq<Byte>, tag: seq<Byte>)
    returns (stego: array3<Byte>, bundle: KeyBundle)
    requires cover.Length2 >= 3
    ensures fresh(stego)
    ensures stego.Length0 == cover.Length0 && stego.Length1 == cover.Length1 && stego.Length2 == cover.Length2
    ensures forall a, b, c :: 0 <= a < cover.Length0 && 0 <= b < cover.Length1 && 0 <= c < cover.Length2 ==>
      stego[a, b, c] == if c < 3 then EmbedAt(cover[a, b, c], Slot(cover.Length1, a, b, c), BytesToBits(ciphertext)) else cover[a, b, c]
    ensures Samples(stego) == EmbedSeq(Samples(cover), BytesToBits(ciphertext))
    ensures bundle == KeyBundle(key, nonce, tag, (cover.Length0, cover.Length1), 8 * |ciphertext|)
  {
    var dataBits := BytesToBits(ciphertext);
    var written;
    stego, written := Embed(cover, dataBits);
    bundle := KeyBundle(key, nonce, tag, (cover.Length0, cover.Length1), |dataBits|);
  }

  /**
   * Receiver side: read `bundle.bitlen` bits from the stego grid and pack them
   * into bytes. The recorded shape is not consulted.
   */
  method ExtractCiphertext(stego: array3<Byte>, bundle: KeyBundle) returns (ciphertext: seq<Byte>)
    requires stego.Length2 >= 3
    ensures |ciphertext| == (Min(bundle.bitlen, Capacity(stego)) + 7) / 8
    ensures ciphertext == BitsToBytes(ExtractSeq(Samples(stego), bundle.bitlen))
  {
    var bits := Extract(stego, bundle.bitlen);
    ciphertext := BitsToBytes(bits);
  }

  /**
   * The two sides back to back, with the stego grid and the record passed on
   * unchanged. The receiver gets the first `Capacity(cover)` bits of the
   * ciphertext, zero-padded to whole bytes; when they all fit it gets the
   * ciphertext itself.
   */
  method Transmit(cover: array3<Byte>, ciphertext: seq<Byte>, key: seq<Byte>, nonce: seq<Byte>, tag: seq<Byte>)
    returns (received: seq<Byte>)
    requires cover.Length2 >= 3
    ensures var sent := Min(8 * |ciphertext|, Capacity(cover));
      BytesToBits(received) == BytesToBits(ciphertext)[..sent] + Zeros(PadLength(sent))
    ensures 8 * |ciphertext| <= Capacity(cover) ==> received == ciphertext
    ensures var sent := Min(8 * |ciphertext|, Capacity(cover));
      received == ciphertext <==>
        8 * |ciphertext| - sent < 8 && forall t :: sent <= t < 8 * |ciphertext| ==> BytesToBits(ciphertext)[t] == 0
  {
    var stego, bundle := EmbedAndRecord(cover, ciphertext, key, nonce, tag);
    received := ExtractCiphertext(stego, bundle);
    var dataBits := BytesToBits(ciphertext);
    EmbedExtract(Samples(cover), dataBits);
    ExpandAfterPack(dataBits[..Min(|dataBits|, Capacity(cover))]);
    if |dataBits| <= Capacity(cover) {
      assert dataBits[..|dataBits|] == dataBits;
      PackAfterExpand(ciphertext);
    }
    DroppedBitsDecide(ciphertext, Min(|dataBits|, Capacity(cover)));
  }

  /**
   * Packing a prefix of the expansion gives the ciphertext back exactly when
   * fewer than eight bits were cut off and every one of them was 0: only then do
   * the padding zeros of `packbits` restore them.
   */
  lemma DroppedBitsDecide(ciphertext: seq<Byte>, sent: nat)
    requires sent <= 8 * |ciphertext|
    ensures var bits := BytesToBits(ciphertext);
      BitsToBytes(bits[..sent]) == ciphertext <==>
        8 * |ciphertext| - sent < 8 && forall t :: sent <= t < 8 * |ciphertext| ==> bits[t] == 0
  {
    var bits := BytesToBits(ciphertext);
    var received := BitsToBytes(bits[..sent]);
    ExpandAfterPack(bits[..sent]);
    if received == ciphertext {
      ZeroTailOf(bits, sent, PadLength(sent));
    } else if 8 * |ciphertext| - sent < 8 && forall t :: sent <= t < 8 * |ciphertext| ==> bits[t] == 0 {
      PadLengthToWhole(sent, |ciphertext|);
      ZeroTailIs(bits, sent, PadLength(sent));
      PackAfterExpand(ciphertext);
      PackAfterExpand(received);
      assert false;
    }
  }

  /** The padding that completes `sent` bits to `n` whole bytes is the gap, when the gap is under a byte. */
  lemma PadLengthToWhole(sent: nat, n: nat)
    requires sent <= 8 * n < sent + 8
    ensures PadLength(sent) == 8 * n - sent
  {
    var d := 8 * n - sent;
    if d > 0 {
      DivModUnique(sent, 8, n - 1, 8 - d);
    } else {
      DivModUnique(sent, 8, n, 0);
    }
  }

  lemma ZeroTailOf(bits: seq<Bit>, sent: nat, pad: nat)
    requires sent <= |bits| && bits == bits[..sent] + Zeros(pad)
    ensures forall t :: sent <= t < |bits| ==> bits[t] == 0
  {
    forall t | sent <= t < |bits|
      ensures bits[t] == 0
    {
      assert bits[t] == Zeros(pad)[t - sent];
    }
  }

  lemma ZeroTailIs(bits: seq<Bit>, sent: nat, pad: nat)
    requires sent + pad == |bits|
    requires forall t :: sent <= t < |bits| ==> bits[t] == 0
    ensures bits == bits[..sent] + Zeros(pad)
  {
  }

  /** The error the sender should raise when the payload does not fit. */
  datatype CodecError = CapacityError(needed: nat, capacity: nat)

  datatype SendOutcome = Sent(stego: array3<Byte>, bundle: KeyBundle) | Refused(error: CodecError)

  /**
   * Sender side with a capacity check: refuse, before any
   * copy is made, a ciphertext whose expansion needs more slots than the cover
   * has; otherwise embed and record as above.
   */
  method CheckedEmbedAndRecord(cover: array3<Byte>, ciphertext: seq<Byte>, key: seq<Byte>, nonce: seq<Byte>, tag: seq<Byte>)
    returns (outcome: SendOutcome)
    requires cover.Length2 >= 3
    ensures outcome.Refused? <==> 8 * |ciphertext| > Capacity(cover)
    ensures outcome.Refused? ==> outcome.error == CapacityError(8 * |ciphertext|, Capacity(cover))
    ensures outcome.Sent? ==> fresh(outcome.stego)
    ensures outcome.Sent? ==> outcome.bundle == KeyBundle(key, nonce, tag, (cover.Length0, cover.Length1), 8 * |ciphertext|)
    ensures outcome.Sent? ==>
      outcome.stego.Length0 == cover.Length0 && outcome.stego.Length1 == cover.Length1 && outcome.stego.Length2 == cover.Length2
    ensures outcome.Sent? ==> forall a, b, c :: 0 <= a < cover.Length0 && 0 <= b < cover.Length1 && 0 <= c < cover.Length2 ==>
      outcome.stego[a, b, c] ==
        if c < 3 then EmbedAt(cover[a, b, c], Slot(cover.Length1, a, b, c), BytesToBits(ciphertext)) else cover[a, b, c]
    ensures outcome.Sent? ==> Samples(outcome.stego) == EmbedSeq(Samples(cover), BytesToBits(ciphertext))
    ensures outcome.Sent? ==>
      BitsToBytes(ExtractSeq(Samples(outcome.stego), outcome.bundle.bitlen)) == ciphertext
  {
    if 8 * |ciphertext| > Capacity(cover) {
      return Refused(CapacityError(8 * |ciphertext|, Capacity(cover)));
    }
    var stego, bundle := EmbedAndRecord(cover, ciphertext, key, nonce, tag);
    EmbedExtractExact(Samples(cover), BytesToBits(ciphertext));
    PackAfterExpand(ciphertext);
    outcome := Sent(stego, bundle);
  }

  /**
   * The unchecked sender loses data: a one-pixel RGB cover has three slots, so
   * of the eight bits of ciphertext byte 0xAB (1010 1011) only 101 are embedded,
   * and the receiver packs 1010 0000 = 0xA0.
   */
  method TruncatedCiphertextIsCorrupted() returns (received: seq<Byte>)
    ensures received == [0xA0] && received != [0xAB]
  {
    var cover := new Byte[1, 1, 3]((a: nat, b: nat, c: nat) => 0);
    received := Transmit(cover, [0xAB], [], [], []);
    var bits := BytesToBits([0xAB]);
    ExpandOneByte();
    assert Capacity(cover) == 3;
    assert bits[..3] == [1, 0, 1];
    PackThreeBits();
    ExpandAfterPack([1, 0, 1]);
    assert BytesToBits(received) == BytesToBits([0xA0]);
    PackAfterExpand(received);
    PackAfterExpand([0xA0]);
  }

  lemma ExpandOneByte()
    ensures BytesToBits([0xAB]) == [1, 0, 1, 0, 1, 0, 1, 1]
  {
    assert BytesToBits([0xAB]) == ByteBits(0xAB) + BytesToBits([]);
    assert ByteBits(0xAB) == [1, 0, 1, 0, 1, 0, 1, 1];
  }

  lemma PackThreeBits()
    ensures BitsToBytes([1, 0, 1]) == [0xA0]
  {
    var group := [1, 0, 1] + Zeros(5);
    assert group == [1, 0, 1, 0, 0, 0, 0, 0];
    ByteBitsOfA0();
    assert BitsToBytes([1, 0, 1]) == [PackByte(group)];
  }

  lemma ByteBitsOfA0()
    ensures ByteBits(0xA0) == [1, 0, 1, 0, 0, 0, 0, 0]
  {
    assert ByteBits(0xA0) == MsbBits(0x50, 7) + [0];
  }
}
