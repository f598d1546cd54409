/** The "and vice versa" of encoder.py: the rows `encode` produces, packed
    MSB-first into bytes and laid out plane-major, are exactly the records
    `decode` reads, in both directions and for a whole 4096-byte bank. */
module RoundTrip {
  import opened Bits
  import opened Encoder

  /** Rows as `encode` returns them for a valid tile: 8 pairs of 8-entry bit lists. */
  predicate WellFormedRows(rows: seq<RowPlanes>)
  {
    |rows| == NesBitmapDimension &&
    forall r :: 0 <= r < |rows| ==>
      |rows[r].plane0| == NesBitmapDimension && IsBits(rows[r].plane0) &&
      |rows[r].plane1| == NesBitmapDimension && IsBits(rows[r].plane1)
  }

  /** The 16-byte record of a tile's encoded rows: the packed plane-0 bytes of
      rows 0..7, then the packed plane-1 bytes of rows 0..7. */
  function PackRecord(rows: seq<RowPlanes>): (record: seq<byte>)
    requires WellFormedRows(rows)
    ensures |record| == SingleSpriteSize
    ensures forall r :: 0 <= r < NesBitmapDimension ==>
              record[r] == PackBits(rows[r].plane0) &&
              record[NesBitmapDimension + r] == PackBits(rows[r].plane1)
  {
    assert Pow2(ByteWidth) == 256;
    seq(NesBitmapDimension, r requires 0 <= r < NesBitmapDimension => PackBits(rows[r].plane0) as byte) +
    seq(NesBitmapDimension, r requires 0 <= r < NesBitmapDimension => PackBits(rows[r].plane1) as byte)
  }

  /** Encoding a decoded row gives back the MSB-first bits of the two bytes it came from. */
  lemma EncodeDecodedRow(lo: byte, hi: byte)
    ensures EncodeRow(DecodeRow(lo, hi)) == RowPlanes(ToBinary(lo, ByteWidth), ToBinary(hi, ByteWidth))
  {
  }

  /** Packing a re-encoded decoded row gives back the two bytes it came from. */
  lemma PackDecodedRow(lo: byte, hi: byte)
    ensures PackBits(EncodeRow(DecodeRow(lo, hi)).plane0) == lo
    ensures PackBits(EncodeRow(DecodeRow(lo, hi)).plane1) == hi
  {
    EncodeDecodedRow(lo, hi);
    assert Pow2(ByteWidth) == 256;
    PackBitsOfToBinary(lo, ByteWidth);
    PackBitsOfToBinary(hi, ByteWidth);
  }

  /** Decode then encode, for one record: re-encoding every row of the decoded
      tile gives the MSB-first bits of the record's plane-0 and plane-1
      bytes, and packing those rows gives the record back. */
  lemma DecodeThenEncodeRecord(sprite: seq<byte>)
    requires |sprite| == SingleSpriteSize
    ensures EncodeBitmap(DecodeRecord(sprite)).Ok?
    ensures forall r :: 0 <= r < NesBitmapDimension ==>
              EncodeBitmap(DecodeRecord(sprite)).value[r] ==
              RowPlanes(ToBinary(sprite[r], ByteWidth), ToBinary(sprite[NesBitmapDimension + r], ByteWidth))
    ensures PackRecord(EncodeBitmap(DecodeRecord(sprite)).value) == sprite
  {
    var t := DecodeRecord(sprite);
    EncodeFailsOnlyOnRowCount(t);
    var rows := EncodeBitmap(t).value;
    forall r | 0 <= r < NesBitmapDimension
      ensures rows[r] == RowPlanes(ToBinary(sprite[r], ByteWidth), ToBinary(sprite[NesBitmapDimension + r], ByteWidth))
      ensures PackBits(rows[r].plane0) == sprite[r]
      ensures PackBits(rows[r].plane1) == sprite[NesBitmapDimension + r]
    {
      EncodeDecodedRow(sprite[r], sprite[NesBitmapDimension + r]);
      PackDecodedRow(sprite[r], sprite[NesBitmapDimension + r]);
    }
    var record := PackRecord(rows);
    forall i | 0 <= i < SingleSpriteSize
      ensures record[i] == sprite[i]
    {
      if i >= NesBitmapDimension {
        assert record[i] == PackBits(rows[i - NesBitmapDimension].plane1);
      }
    }
  }

  /** Decoding two packed 8-entry bit lists combines them column by column:
      column j gets the plane-0 bit plus twice the plane-1 bit. */
  lemma DecodePackedPlanes(p0: seq<int>, p1: seq<int>)
    requires |p0| == |p1| == ByteWidth && IsBits(p0) && IsBits(p1)
    ensures PackBits(p0) < 256 && PackBits(p1) < 256
    ensures forall j :: 0 <= j < NesBitmapDimension ==>
              DecodeRow(PackBits(p0), PackBits(p1))[j] == p0[j] + 2 * p1[j]
  {
    assert Pow2(ByteWidth) == 256;
    ToBinaryOfPackBits(p0);
    ToBinaryOfPackBits(p1);
  }

  /** Decoding the packed planes of a row of colours 0..3 gives the row back. */
  lemma DecodePackedRow(row: seq<int>)
    requires |row| == NesBitmapDimension
    requires forall j :: 0 <= j < |row| ==> 0 <= row[j] <= 3
    ensures PackBits(EncodeRow(row).plane0) < 256 && PackBits(EncodeRow(row).plane1) < 256
    ensures DecodeRow(PackBits(EncodeRow(row).plane0), PackBits(EncodeRow(row).plane1)) == row
  {
    var p := EncodeRow(row);
    DecodePackedPlanes(p.plane0, p.plane1);
  }

  /** Encode then decode, for one tile: a well-formed tile encodes without
      failure, and decoding the record its rows pack into gives the tile back. */
  lemma EncodeThenDecodeTile(t: Tile)
    ensures EncodeBitmap(t).Ok? && WellFormedRows(EncodeBitmap(t).value)
    ensures DecodeRecord(PackRecord(EncodeBitmap(t).value)) == t
  {
    assert forall i :: 0 <= i < |t| ==> RowFits(t[i]);
    var rows := EncodeBitmap(t).value;
    var record := PackRecord(rows);
    var d := DecodeRecord(record);
    forall r | 0 <= r < NesBitmapDimension
      ensures d[r] == t[r]
    {
      DecodePackedRow(t[r]);
    }
  }

  // ------------------------------------------------------------ bank level

  /** The records of a bank laid end to end, with no header or padding. */
  function Concat(records: seq<seq<byte>>): (bank: seq<byte>)
  {
    if records == [] then [] else Concat(records[..|records| - 1]) + records[|records| - 1]
  }

  /** Laying out 16-byte records end to end puts record k at bytes [16k, 16k + 16). */
  lemma {:induction false} ConcatRecords(records: seq<seq<byte>>)
    requires forall k :: 0 <= k < |records| ==> |records[k]| == SingleSpriteSize
    ensures |Concat(records)| == SingleSpriteSize * |records|
    ensures forall k :: 0 <= k < |records| ==>
              Concat(records)[SingleSpriteSize * k..SingleSpriteSize * k + SingleSpriteSize] == records[k]
  {
    if records != [] {
      var n := |records| - 1;
      var init := records[..n];
      ConcatRecords(init);
      var a := Concat(init);
      var s := Concat(records);
      assert s == a + records[n];
      forall k | 0 <= k < |records|
        ensures s[SingleSpriteSize * k..SingleSpriteSize * k + SingleSpriteSize] == records[k]
      {
        if k < n {
          assert s[SingleSpriteSize * k..SingleSpriteSize * k + SingleSpriteSize] ==
                 a[SingleSpriteSize * k..SingleSpriteSize * k + SingleSpriteSize];
        } else {
          assert s[SingleSpriteSize * k..SingleSpriteSize * k + SingleSpriteSize] == records[n];
        }
      }
    }
  }

  /** The first n consecutive 16-byte records of s. */
  function Records(s: seq<byte>, n: nat): (records: seq<seq<byte>>)
    requires SingleSpriteSize * n <= |s|
  {
    seq(n, k requires 0 <= k < n => s[SingleSpriteSize * k..SingleSpriteSize * k + SingleSpriteSize])
  }

  /** Cutting a byte string into consecutive 16-byte records and laying them
      out again gives back the bytes cut. */
  lemma {:induction false} ConcatOfSlices(s: seq<byte>, n: nat)
    requires SingleSpriteSize * n <= |s|
    ensures Concat(Records(s, n)) == s[..SingleSpriteSize * n]
  {
    if n > 0 {
      assert Records(s, n)[..n - 1] == Records(s, n - 1);
      ConcatOfSlices(s, n - 1);
      assert s[..SingleSpriteSize * n] ==
             s[..SingleSpriteSize * (n - 1)] + s[SingleSpriteSize * (n - 1)..SingleSpriteSize * n];
    }
  }

  /** The 16-byte record of one well-formed tile. */
  function TileRecord(t: Tile): (record: seq<byte>)
    ensures |record| == SingleSpriteSize
  {
    EncodeThenDecodeTile(t);
    PackRecord(EncodeBitmap(t).value)
  }

  /** The bank holding the records of `tiles`, in order. */
  function AssembleBank(tiles: seq<Tile>): (bank: seq<byte>)
  {
    Concat(seq(|tiles|, k requires 0 <= k < |tiles| => TileRecord(tiles[k])))
  }

  /** Encode then decode, for a bank: 256 well-formed tiles, encoded and laid
      out, make a 4096-byte bank that decodes to the same tiles in the same order. */
  lemma BankEncodeThenDecode(tiles: seq<Tile>)
    requires |tiles| == SpritesInChrBank
    ensures |AssembleBank(tiles)| == ChrBankSize
    ensures DecodeBank(AssembleBank(tiles)) == Ok(tiles)
  {
    var records := seq(|tiles|, k requires 0 <= k < |tiles| => TileRecord(tiles[k]));
    ConcatRecords(records);
    var bank := AssembleBank(tiles);
    var decoded := DecodeBank(bank).value;
    forall k | 0 <= k < SpritesInChrBank
      ensures decoded[k] == tiles[k]
    {
      assert bank[SingleSpriteSize * k..SingleSpriteSize * k + SingleSpriteSize] == records[k];
      EncodeThenDecodeTile(tiles[k]);
    }
    assert decoded == tiles;
  }

  /** Decode then encode, for a bank: every 4096-byte bank decodes, and
      encoding and laying out its 256 tiles gives the bank back byte for byte. */
  lemma BankDecodeThenEncode(bank: seq<byte>)
    requires |bank| == ChrBankSize
    ensures DecodeBank(bank).Ok?
    ensures AssembleBank(DecodeBank(bank).value) == bank
  {
    var tiles := DecodeBank(bank).value;
    var records := seq(|tiles|, k requires 0 <= k < |tiles| => TileRecord(tiles[k]));
    var slices := Records(bank, SpritesInChrBank);
    forall k | 0 <= k < SpritesInChrBank
      ensures records[k] == slices[k]
    {
      DecodeThenEncodeRecord(bank[SingleSpriteSize * k..SingleSpriteSize * k + SingleSpriteSize]);
    }
    assert records == slices;
    ConcatOfSlices(bank, SpritesInChrBank);
    assert bank[..ChrBankSize] == bank;
  }
}
