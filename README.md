# LSB bit-plane codec of the secure medical image transmission tool

The tool hides an AES-EAX ciphertext in the least-significant bits of a cover
image. On the sender side (`embed_and_encrypt`) the ciphertext bytes are expanded
to bits with `np.unpackbits`, a copy of the cover's `uint8` pixel array is walked
row by row, column by column and over channels 0, 1, 2, and each visited sample
gets `(v & ~1) | bit` for the next payload bit until the bits run out. A side
record stores key, nonce, tag, the image shape as (height, width) and
`bitlen`, the number of bits. On the receiver side (`extract_and_decrypt`) the
same walk reads `sample & 1` for the first `bitlen` slots, and `np.packbits`
turns the bits back into the ciphertext given to the decryptor.

This project models that codec in Dafny:

- `bits.dfy` (module `Bits`): `BytesToBits` and `BitsToBytes`, the two numpy
  conversions, with big-endian bit order and right zero-padding of a final
  partial byte; packing inverts expansion and expansion after packing gives the
  bits back padded to whole bytes.
- `scan.dfy` (module `Scan`): the per-sample operations `SetLsb` and `Lsb`, the
  scan order (slot `(i * width + j) * 3 + k` for channel `k < 3` of pixel
  `(i, j)`, proved a bijection onto `0 .. height*width*3`), and the codec on the
  scan-order sequence of samples, `EmbedSeq` and `ExtractSeq`, with the bitwise
  round trip.
- `stego.dfy` (module `Stego`): the pixel grid as an `array3<Byte>`
  (height x width x channels, as numpy indexes it) and the two triple loops as
  methods `Embed` (on a fresh copy of the cover) and `Extract`, each proved
  against the sequence functions through `Samples`, the grid's scan-order view.
- `transfer.dfy` (module `Transfer`): the side record `KeyBundle`, the sender
  and receiver steps around the codec, the two of them back to back, and a
  sender with the missing capacity check (see Findings).

The code does not check capacity. A ciphertext longer than the cover can hold
is embedded as far as it fits and the rest is dropped; a `bitlen` larger than
the grid reads every slot once. The model keeps this behaviour (`Embed`,
`Extract`, `Transmit`) rather than raising capacity or truncation errors, and
adds a checked sender beside it (see Findings).

## Model

| member | source | states |
|---|---|---|
| `Bits.BytesToBits` | new_gui1.py:67 | the expansion has exactly 8 bits per ciphertext byte, each 0 or 1 |
| `Bits.BytesToBitsAt` | new_gui1.py:67 | bits 8i .. 8i+7 of the expansion are the bits of byte i: bytes are expanded in input order |
| `Bits.ByteBitsWeights` | new_gui1.py:67 | the eight bits of a byte are most significant first: the byte equals 128*b0 + 64*b1 + ... + b7 |
| `Bits.ByteBits` | new_gui1.py:67 | one byte expands to eight bits that, read most significant first, denote that byte |
| `Bits.PackByte` | new_gui1.py:114 | eight bits pack to the byte whose eight bits, most significant first, are those bits |
| `Bits.PackByteBits` | new_gui1.py:114 | packing the eight bits of a byte gives the byte back |
| `Bits.ByteBitsPack` | new_gui1.py:114 | expanding the byte packed from eight bits gives those bits back |
| `Bits.BitsToBytes` | new_gui1.py:114 | packing n bits yields ceil(n / 8) bytes |
| `Bits.PackAfterExpand` | new_gui1.py:114 | packing the expansion of a byte buffer returns that buffer |
| `Bits.ExpandAfterPack` | new_gui1.py:114 | expanding packed bits returns them followed by the zeros that complete the last byte (right padding) |
| `Bits.WholeBytesRoundTrip` | new_gui1.py:114 | a bit string of whole bytes survives packing and expansion unchanged |
| `Scan.SetLsb` | new_gui1.py:73 | `(v & ~1) \| bit` is a sample in 0..255 whose LSB is `bit`, whose upper seven bits are those of `v`, and which differs from `v` by at most 1 |
| `Scan.SetLsbBitwise` | new_gui1.py:73 | on every 8-bit sample x and bit b, the bitwise `(x & 0xFE) \| b` equals `SetLsb(x, b)` |
| `Scan.Lsb` | new_gui1.py:110 | `v & 1` is the parity of the sample |
| `Scan.SlotOfCell` | new_gui1.py:69-71 | every slot below height*width*3 is visited, at the pixel and channel Row/Col/Channel name |
| `Scan.CellOfSlot` | new_gui1.py:69-71 | distinct (row, column, channel < 3) cells get distinct slots: the visit order is row, then column, then channel |
| `Scan.SlotBelowCapacity` | new_gui1.py:69-71 | every visited cell of a height x width grid has a slot below height*width*3 |
| `Scan.EmbedSeq` | new_gui1.py:69-74 | embedding along the scan order keeps the number of samples and the upper seven bits of every sample, gives slot t the LSB bits[t] while t < len(bits), and leaves every later slot identical |
| `Scan.ExtractSeq` | new_gui1.py:104-112 | extraction along the scan order yields min(bitlen, slots) bits, bit t being the parity of sample t |
| `Scan.EmbedExtract` | new_gui1.py:104-112 | reading len(bits) slots of the embedded samples returns the bits that found a slot: the first min(len(bits), slots) of them |
| `Scan.EmbedExtractExact` | new_gui1.py:104-112 | when the bits fit, reading len(bits) slots of the embedded samples returns the bits exactly |
| `Scan.ExtractIgnoresLaterSlots` | new_gui1.py:109 | extraction depends only on the first `bitlen` slots |
| `Stego.SampleAtSlot` | new_gui1.py:69-71 | sample (i, j, k < 3) of the grid is entry `(i*W + j)*3 + k` of the scan-order view |
| `Stego.Embed` | new_gui1.py:66-74 | the result is a freshly allocated grid of the cover's shape; each channel-0..2 sample whose slot is below len(bits) has its LSB replaced by the bit of that slot, every other sample (later slots, channels 3 and up) equals the cover's; the cover itself is not modified; the final cursor is min(len(bits), H*W*3) |
| `Stego.Extract` | new_gui1.py:104-112 | returns exactly min(bitlen, H*W*3) bits, bit t being the LSB of slot t in the same scan order |
| `Transfer.EmbedAndRecord` | new_gui1.py:66-79 | the stego grid is a new grid of the cover's shape whose channel-0..2 samples carry the expansion of the ciphertext in scan order and whose other channels equal the cover's; the `KeyBundle` record holds key, nonce, tag, (height, width) and bitlen = 8 * len(ciphertext) |
| `Transfer.ExtractCiphertext` | new_gui1.py:96-114 | the receiver's ciphertext is the packing of the LSBs of the first bitlen slots, ceil(min(bitlen, H*W*3) / 8) bytes long |
| `Transfer.Transmit` | new_gui1.py:104-114 | after sending and receiving, the received bytes expand to the first sent = min(8 * len(ciphertext), H*W*3) ciphertext bits padded with zeros; when the ciphertext fits they are the ciphertext; and they equal the ciphertext exactly when fewer than 8 bits were dropped and every dropped bit is 0 |
| `Transfer.DroppedBitsDecide` | new_gui1.py:114 | packing the first `sent` bits of a ciphertext's expansion gives the ciphertext back if and only if fewer than 8 bits were cut off and all of them are 0 |
| `Transfer.TruncatedCiphertextIsCorrupted` | new_gui1.py:72 | sending ciphertext [0xAB] through a 1x1 RGB grid of zeros with the unchecked sender and receiver makes the receiver get [0xA0], not [0xAB] |
| `Transfer.CheckedEmbedAndRecord` | new_gui1.py:66-79 | refuses with a capacity error exactly when 8 * len(ciphertext) exceeds H*W*3; otherwise it returns a new grid of the cover's shape embedded exactly as `EmbedAndRecord` embeds (channels 3 and up untouched) with the same record, and the receiver recovers the ciphertext exactly |

## Left out

- AES-EAX encryption, decryption and tag verification, and the random key and nonce: the ciphertext, key, nonce and tag are opaque byte sequences passed in, and the model ends where `decrypt_and_verify` would start.
- The Tkinter window, buttons, file dialogs and message boxes.
- Reading the secret file, opening the secret and cover with PIL, resizing the cover to the secret's size, saving and reopening the stego PNG, `np.savez` / `np.load` of the key record and the ZIP export: the model takes the already resized cover grid and hands the stego grid and the `KeyBundle` value directly to the receiver, that is, it assumes the lossless PNG and npz round trips.
- The MSE, PSNR and entropy metrics: floating point with `log10` / `log2`.
- The `try` / `except Exception` around decryption: it covers `decrypt_and_verify`, writing `recovered_secret.png` and the success message box, and any failure among them, a failed file write included, is reported as "Decryption failed"; the model ends with the ciphertext handed to the decryptor and has none of these steps.
- Stego.Embed: requires at least three channels, because the source indexes channels 0..2 of every pixel and a grayscale or two-channel image raises an indexing error there.
- Stego.Extract: requires at least three channels, for the same reason.
- Stego.Embed: states that the cover is not modified through its frame (the method has no modifies clause) rather than with an explicit postcondition.
- Transfer.ExtractCiphertext: when no bit is read, numpy's `packbits` rejects the empty Python list with a type error; the model returns the empty buffer. A real image file is never empty, so the sender never records bitlen 0.
- Transfer.EmbedAndRecord: the recorded shape is the secret image's size reversed; the model records the cover's (height, width), which are equal because the cover was resized to the secret's size.

## Findings

| source | as written | input that shows it | evidently intended | confidence | as-written member | corrected member |
|---|---|---|---|---|---|---|
| new_gui1.py:72 | embedding writes while `idx < len(data_bits)` and no capacity is checked, so bits beyond height*width*3 are silently dropped and the receiver packs only the first height*width*3 ciphertext bits, zero-padded to whole bytes; this differs from the ciphertext, so tag verification fails, unless every dropped bit was 0, which is possible only when fewer than 8 bits are dropped | a 1x1 RGB cover and ciphertext [0xAB]: three of eight bits fit and the receiver gets [0xA0]; more generally any ciphertext with a dropped 1 bit or with 8 or more dropped bits, for instance every 24-bit BMP secret, since its file holds at least 3*H*W bytes while the cover resized to H x W has 3*H*W slots | refuse, before embedding, a ciphertext needing more than height*width*3 slots | high, not executed | `Transfer.TruncatedCiphertextIsCorrupted` | `Transfer.CheckedEmbedAndRecord` |
