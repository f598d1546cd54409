# NES pattern-table tile codec, modelled in Dafny

This project models `encoder.py`, which converts between NES sprite bitmaps and
the CHR (pattern table) format described on the nesdev wiki "PPU pattern tables"
page.

- A tile is an 8x8 grid of 2-bit colour indices. Colour 0 is the background and
  1..3 index the current palette.
- On the cartridge, each tile row is held in two bitplanes. Plane 0 holds the low
  bit of every pixel and plane 1 holds the high bit. The leftmost column is bit 7
  of each byte (MSB-first).
- A CHR bank is exactly 4096 bytes and holds 256 records of 16 bytes. Each record
  is plane-major: the 8 plane-0 bytes of rows 0..7, then the 8 plane-1 bytes.
  There is no header and no padding.
- The constants are `NesBitmapDimension` = 8, `ChrBankSize` = 4096,
  `SpritesInChrBank` = 256 and `SingleSpriteSize` = 16.

## Files

- `bits.dfy` (module `Bits`): the byte type, the byte width 8 and powers of two. It also holds the
  fixed-width MSB-first binary expansion `ToBinary`, which is what
  `'{0:08b}'.format(...)` followed by `int` on each digit computes. Its inverse
  `PackBits` turns a bit list back into a number. Both round trips between them
  are proved.
- `encoder.dfy` (module `Encoder`): the two operations of the source.
  - `Encode` is an imperative method. It allocates two zeroed 8-entry arrays per
    row, sets entries for colours 1, 2 and 3, and collects the pairs in row order.
    It is proved equal to the specification function `EncodeBitmap`.
  - `Decode` is an imperative method over the bytes of the bank. It moves a read
    position 16 bytes per record and builds each tile row by row. It is proved
    equal to `DecodeBank`.
  - The per-byte expansion and plane addition of the decoder is the function
    `DecodeRow`.
  - `Bitmap` is the unchecked input of `encode`. `Tile` is the type of exactly
    the 8x8 grids of colours 0..3, which is what `decode` produces.
- `roundtrip.dfy` (module `RoundTrip`): the "and vice versa" of the source.
  - `PackRecord` packs the rows `encode` returns into the 16-byte plane-major
    record, using `PackBits`.
  - Both directions of the round trip are proved for one record and for a whole
    bank. `AssembleBank` lays encoded tiles end to end for the bank-level
    statements.
- `fixtures.dfy` (module `Fixtures`): the worked ring-tile example written at the
  top of `encoder.py`, and concrete cases of what `encode` does and does not
  validate.

### Behaviour of `encode` as written

`encode` guards its input with
`len(bitmap) != 8 and all(lambda row: ..., bitmap)`.

- The `all(...)` part runs only when the row count is already wrong.
- That `all` call passes two arguments, so it raises a `TypeError` rather than
  `IncorrectBitmapSize`.
- So the guard at encoder.py:50 rejects exactly the bitmaps that do not have 8
  rows. Both exceptions are modelled as the single error `IncorrectBitmapSize`.
  The only other failure of `encode` is the `IndexError` of encoder.py:59-65,
  described below.
- Row lengths and pixel values are not checked:
  - a row shorter than 8 leaves its missing columns 0 in both planes;
  - a colour outside 1..3, including 0 and out-of-range values such as 4 or -1,
    leaves both plane bits 0.
- A row longer than 8 fails only if some pixel at column 8 or later is 1, 2 or 3.
  In that case the list assignment raises `IndexError`. The model keeps this path
  as the error `IndexOutOfRange` instead of excluding long rows by a precondition.
  As a result, `Encode` has no precondition at all.

### What `encoder.py` does not do

- `encode` checks neither row lengths nor pixel values, and it has no error for a
  bad pixel value.
- `IncorrectCHRBankSize` has no fields, so the error carries neither the expected
  nor the actual size.
- There is no bank writer. `RoundTrip.AssembleBank` exists only to state the
  bank-level round trips.

## Model

| member | source | states |
|---|---|---|
| `Bits.ToBinary` | encoder.py:82 | The 8-digit MSB-first expansion of a byte has exactly width entries, each 0 or 1, and entry j is bit width-1-j of the number. |
| `Bits.PackBits` | encoder.py:79-85 | Packing a bit list MSB-first gives a number below 2^length, so 8 bits fit in a byte. |
| `Bits.BitAt` | encoder.py:82 | The bit of a number at a position is 0 or 1, and bit 0 is the remainder modulo 2. |
| `Bits.ToBinaryOfPackBits` | encoder.py:82-85 | Expanding a packed bit list gives the same list back. |
| `Bits.PackBitsOfToBinary` | encoder.py:82-85 | Packing the expansion of a number below 2^width gives the number back. |
| `Bits.PackByteWeights` | encoder.py:82-85 | Packing 8 bits MSB-first weighs the bit in column j by 2^(7-j): 128, 64, ..., 2, 1. |
| `Encoder.LowBit` | encoder.py:59-65 | The plane-0 bit is 0 or 1. For colours 0..3 it is colour % 2. It is 0 for every colour other than 1 and 3. |
| `Encoder.HighBit` | encoder.py:59-65 | The plane-1 bit is 0 or 1. For colours 0..3 it is colour / 2. It is 0 for every colour other than 2 and 3. |
| `Encoder.EncodeRow` | encoder.py:55-66 | Both plane lists have exactly 8 entries, each 0 or 1. A colour c in 0..3 at column idx gives plane0[idx] = c % 2 and plane1[idx] = c / 2, so plane0 + 2*plane1 = c. A column the row does not reach, or whose colour is not 1..3, is 0 in both planes. |
| `Encoder.EncodeBitmap` | encoder.py:49-67 | Encoding fails exactly when the bitmap does not have 8 rows, or a row has 1..3 past column 7. With a wrong row count the error is IncorrectBitmapSize, otherwise IndexOutOfRange. On success there is one plane pair per input row, in row order. |
| `Encoder.EncodeFailsOnlyOnRowCount` | encoder.py:50-66 | For a bitmap whose rows have at most 8 pixels, encoding fails exactly when the row count is not 8, with IncorrectBitmapSize; row lengths and colours are never rejected. |
| `Encoder.Encode` | encoder.py:49-67 | The nested loop that fills zeroed arrays computes exactly EncodeBitmap, including both error paths. |
| `Encoder.DecodeRow` | encoder.py:81-86 | A decoded row has 8 pixels. Pixel j is bit 7-j of the plane-0 byte plus twice bit 7-j of the plane-1 byte (MSB-first), and lies in 0..3. |
| `Encoder.DecodeRecord` | encoder.py:77-87 | A 16-byte record decodes to a well-formed 8x8 tile with pixels 0..3. Row r is built from byte r (plane 0) and byte 8+r (plane 1). |
| `Encoder.DecodeBank` | encoder.py:70-88 | Decoding fails with IncorrectChrBankSize exactly when the input is not 4096 bytes. Otherwise it yields exactly 256 tiles, and tile k is the decode of bytes [16k, 16k+16). |
| `Encoder.DecodeBankPixel` | encoder.py:76-86 | In a decoded 4096-byte bank, pixel (r, j) of tile k is bit 7-j of byte 16k+r plus twice bit 7-j of byte 16k+8+r. |
| `Encoder.Decode` | encoder.py:70-88 | The size check, then the loop over 256 records and 8 rows with a read position advanced 16 bytes per record, computes exactly DecodeBank. |
| `RoundTrip.PackRecord` | encoder.py:79-80 | A tile's encoded rows pack into 16 bytes. Byte r is row r's plane 0 and byte 8+r is row r's plane 1 (plane-major order). |
| `RoundTrip.EncodeDecodedRow` | encoder.py:82-86 | Re-encoding a decoded row gives the MSB-first bits of the plane-0 and plane-1 bytes it came from. |
| `RoundTrip.PackDecodedRow` | encoder.py:82-86 | Re-encoding a decoded row and packing its two planes gives back the plane-0 byte and the plane-1 byte it was decoded from. |
| `RoundTrip.DecodeThenEncodeRecord` | encoder.py:28 | For every 16-byte record, encoding the decoded tile succeeds. Row r gives the MSB-first bits of bytes r and 8+r, and packing the result gives the record back. |
| `RoundTrip.DecodePackedPlanes` | encoder.py:82-86 | Packed 8-entry bit lists fit in a byte each, and decoding them gives, in column j, the plane-0 bit plus twice the plane-1 bit. |
| `RoundTrip.DecodePackedRow` | encoder.py:28 | Decoding the packed planes of an 8-pixel row with colours 0..3 gives the row back. |
| `RoundTrip.EncodeThenDecodeTile` | encoder.py:28 | Every 8x8 tile with colours 0..3 encodes without error, and decoding its packed record gives the tile back. |
| `RoundTrip.ConcatRecords` | encoder.py:76-78 | Laying out 16-byte records end to end puts record k at bytes [16k, 16k+16), and the total length is 16 times the record count. |
| `RoundTrip.ConcatOfSlices` | encoder.py:76-78 | Cutting bytes into consecutive 16-byte records and laying them out again gives the same bytes. |
| `RoundTrip.TileRecord` | encoder.py:79-80 | The record of a well-formed tile is 16 bytes long. |
| `RoundTrip.BankEncodeThenDecode` | encoder.py:72-88 | 256 well-formed tiles, encoded and laid out, form a 4096-byte bank that decodes to the same tiles in the same order. |
| `RoundTrip.BankDecodeThenEncode` | encoder.py:72-88 | Every 4096-byte bank decodes, and encoding and laying out its 256 tiles gives the bank back byte for byte. |
| `Fixtures.RingRowsEncode` | encoder.py:8-26 | Each distinct row of the worked example encodes to the planes listed beside it. |
| `Fixtures.RingTileEncodes` | encoder.py:8-26 | The worked ring tile encodes to exactly the 8 listed plane pairs. |
| `Fixtures.RingBytesPack` | encoder.py:19-26 | The listed plane rows pack MSB-first to 0xFF, 0xBB, 0xD7 and 0xEF. |
| `Fixtures.RingPlanesPack` | encoder.py:19-26 | The listed planes form the record of eight 0xFF bytes followed by FF BB D7 EF D7 BB FF FF. |
| `Fixtures.RingRecordDecodes` | encoder.py:28 | Decoding that record gives the ring tile back. |
| `Fixtures.MixedRowEncodes` | encoder.py:55-66 | The row 1 0 2 3 0 0 0 0 encodes to plane 0 = 1 0 0 1 0 0 0 0 and plane 1 = 0 0 1 1 0 0 0 0, which pack MSB-first to 0x90 and 0x30. |
| `Fixtures.EncodeGuardChecksOnlyRowCount` | encoder.py:50-65 | Seven or nine rows fail with IncorrectBitmapSize. Eight short or empty rows, or rows with colours 4, -1 and 7, encode without error, and those colours give 0 bits. A colour 2 at column 9 fails with IndexOutOfRange. |

## Left out

- File access in `decode` (`os.stat`, `open`, `read`) is left out. The decoder takes the bank's bytes as a sequence, and the length of that sequence stands in for the file size.
- Python 2 text-mode `str` and `ord` byte semantics are left out. Bytes are the values 0..255.
- Lazy `map` iterators are left out. Rows are materialised sequences.
- The difference between the `TypeError` from the malformed `all(...)` call and `IncorrectBitmapSize` is not modelled. Both are one error value. The `IndexError` is a separate error value.
- The exception classes are represented as the `Error` datatype.
- Pixels are modelled as integers. Python values of other types (floats, strings) passed as colours are not modelled.
- `Bits.ToBinary`: for numbers of 256 or more it keeps only the low `width` bits, whereas `'{0:08b}'` would print more digits. This never arises, because decoded bytes are below 256.
