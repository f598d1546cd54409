/** The NES pattern-table (CHR) tile codec of encoder.py. A tile is an 8x8
    grid of 2-bit colour indices; on the cartridge each tile row is held in
    two bitplanes, plane 0 carrying the low bit and plane 1 the high bit of
    every pixel, with the leftmost column in bit 7. A CHR bank is 256 records
    of 16 bytes, each record being the 8 plane-0 bytes of a tile followed by
    its 8 plane-1 bytes. */
module Encoder {
  import opened Bits

  const NesBitmapDimension: nat := 8
  const ChrBankSize: nat := 4096
  const SpritesInChrBank: nat := 256
  const SingleSpriteSize: nat := 16

  /** A bitmap as `encode` receives it: a list of rows of colour indices.
      Nothing about its shape or its values is guaranteed by the type. */
  type Bitmap = seq<seq<int>>

  /** A well-formed tile: 8 rows of 8 pixels, each a colour index 0..3. */
  type Tile = t: seq<seq<int>> | IsTile(t)
    witness seq(NesBitmapDimension, _ => seq(NesBitmapDimension, _ => 0))

  /** One encoded row: the 8-entry bit lists of both planes, leftmost column first. */
  datatype RowPlanes = RowPlanes(plane0: seq<int>, plane1: seq<int>)

  datatype Error =
    | IncorrectBitmapSize   // the bitmap does not have exactly 8 rows
    | IndexOutOfRange       // a colour 1..3 sits at a column past the 8-entry planes
    | IncorrectChrBankSize  // the bank is not exactly 4096 bytes

  datatype Result<+T> = Ok(value: T) | Err(error: Error)

  /** The shape and value range of a tile. */
  predicate IsTile(t: seq<seq<int>>)
  {
    |t| == NesBitmapDimension &&
    (forall r :: 0 <= r < |t| ==> |t[r]| == NesBitmapDimension) &&
    (forall r, j :: 0 <= r < |t| && 0 <= j < |t[r]| ==> 0 <= t[r][j] <= 3)
  }

  // ---------------------------------------------------------------- encode

  /** The plane-0 bit `encode` stores for a colour. */
  function LowBit(colour: int): (b: int)
    ensures b == 0 || b == 1
    ensures 0 <= colour <= 3 ==> b == colour % 2
    ensures colour != 1 && colour != 3 ==> b == 0
  {
    if colour == 1 || colour == 3 then 1 else 0
  }

  /** The plane-1 bit `encode` stores for a colour. */
  function HighBit(colour: int): (b: int)
    ensures b == 0 || b == 1
    ensures 0 <= colour <= 3 ==> b == colour / 2
    ensures colour != 2 && colour != 3 ==> b == 0
  {
    if colour == 2 || colour == 3 then 1 else 0
  }

  /** Encoding the row writes no plane entry past column 7: every pixel from
      column 8 on has a colour other than 1, 2 and 3. */
  predicate RowFits(row: seq<int>)
  {
    forall idx :: NesBitmapDimension <= idx < |row| ==> row[idx] != 1 && row[idx] != 2 && row[idx] != 3
  }

  /** The two bit lists `encode` builds for one row. Columns the row does not
      reach stay 0. */
  function EncodeRow(row: seq<int>): (p: RowPlanes)
    ensures |p.plane0| == NesBitmapDimension && IsBits(p.plane0)
    ensures |p.plane1| == NesBitmapDimension && IsBits(p.plane1)
    ensures forall idx :: 0 <= idx < NesBitmapDimension && idx < |row| && 0 <= row[idx] <= 3 ==>
              p.plane0[idx] == row[idx] % 2 && p.plane1[idx] == row[idx] / 2 &&
              p.plane0[idx] + 2 * p.plane1[idx] == row[idx]
    ensures forall idx :: 0 <= idx < NesBitmapDimension && (idx >= |row| || row[idx] !in {1, 2, 3}) ==>
              p.plane0[idx] == 0 && p.plane1[idx] == 0
  {
    RowPlanes(
      seq(NesBitmapDimension, idx requires 0 <= idx < NesBitmapDimension => if idx < |row| then LowBit(row[idx]) else 0),
      seq(NesBitmapDimension, idx requires 0 <= idx < NesBitmapDimension => if idx < |row| then HighBit(row[idx]) else 0))
  }

  /** What `encode` returns for a bitmap: a failure when it does not have
      exactly 8 rows or when a row would write past the planes, otherwise
      one plane pair per row in row order. */
  function EncodeBitmap(bitmap: Bitmap): (r: Result<seq<RowPlanes>>)
    ensures r.Err? <==>
              |bitmap| != NesBitmapDimension || exists i :: 0 <= i < |bitmap| && !RowFits(bitmap[i])
    ensures r.Err? && |bitmap| != NesBitmapDimension ==> r.error == IncorrectBitmapSize
    ensures r.Err? && |bitmap| == NesBitmapDimension ==> r.error == IndexOutOfRange
    ensures r.Ok? ==> (|r.value| == |bitmap| &&
              forall i :: 0 <= i < |bitmap| ==> r.value[i] == EncodeRow(bitmap[i]))
  {
    if |bitmap| != NesBitmapDimension then Err(IncorrectBitmapSize)
    else if exists i :: 0 <= i < |bitmap| && !RowFits(bitmap[i]) then Err(IndexOutOfRange)
    else Ok(seq(|bitmap|, i requires 0 <= i < |bitmap| => EncodeRow(bitmap[i])))
  }

  /** For bitmaps whose rows have at most 8 pixels, the guard's row count is
      the only check `encode` makes: it fails exactly when there are not 8 rows,
      whatever the row lengths and colours. */
  lemma EncodeFailsOnlyOnRowCount(bitmap: Bitmap)
    requires forall i :: 0 <= i < |bitmap| ==> |bitmap[i]| <= NesBitmapDimension
    ensures EncodeBitmap(bitmap).Err? <==> |bitmap| != NesBitmapDimension
    ensures EncodeBitmap(bitmap).Err? ==> EncodeBitmap(bitmap).error == IncorrectBitmapSize
  {
  }

  /** encode(bitmap): allocate two zeroed 8-entry planes per row, set the
      entries of colours 1, 2 and 3, and collect the pairs in row order. */
  method Encode(bitmap: Bitmap) returns (r: Result<seq<RowPlanes>>)
    ensures r == EncodeBitmap(bitmap)
  {
    if |bitmap| != NesBitmapDimension {
      return Err(IncorrectBitmapSize);
    }
    var out: seq<RowPlanes> := [];
    for i := 0 to |bitmap|
      invariant |out| == i
      invariant forall k :: 0 <= k < i ==> RowFits(bitmap[k]) && out[k] == EncodeRow(bitmap[k])
    {
      var row := bitmap[i];
      var bitplane0 := new int[NesBitmapDimension](_ => 0);
      var bitplane1 := new int[NesBitmapDimension](_ => 0);
      for idx := 0 to |row|
        invariant forall k :: 0 <= k < NesBitmapDimension ==>
                    bitplane0[k] == (if k < idx then LowBit(row[k]) else 0) &&
                    bitplane1[k] == (if k < idx then HighBit(row[k]) else 0)
        invariant forall k :: NesBitmapDimension <= k < idx ==> row[k] != 1 && row[k] != 2 && row[k] != 3
      {
        var colour := row[idx];
        if colour == 1 || colour == 2 || colour == 3 {
          if idx >= NesBitmapDimension {
            assert !RowFits(bitmap[i]);
            return Err(IndexOutOfRange);
          }
        }
        if colour == 1 {
          bitplane0[idx] := 1;
        }
        if colour == 2 {
          bitplane1[idx] := 1;
        }
        if colour == 3 {
          bitplane0[idx] := 1;
          bitplane1[idx] := 1;
        }
      }
      assert bitplane0[..] == EncodeRow(row).plane0;
      assert bitplane1[..] == EncodeRow(row).plane1;
      out := out + [RowPlanes(bitplane0[..], bitplane1[..])];
    }
    assert out == EncodeBitmap(bitmap).value;
    return Ok(out);
  }

  // ---------------------------------------------------------------- decode

  /** One decoded tile row from its plane-0 byte and its plane-1 byte: each
      byte is read MSB-first and column j gets plane-0 bit plus twice the
      plane-1 bit. */
  function DecodeRow(lo: byte, hi: byte): (row: seq<int>)
    ensures |row| == NesBitmapDimension
    ensures forall j :: 0 <= j < NesBitmapDimension ==>
              row[j] == BitAt(lo, ByteWidth - 1 - j) + 2 * BitAt(hi, ByteWidth - 1 - j) && 0 <= row[j] <= 3
  {
    var bp0 := ToBinary(lo, ByteWidth);
    var bp1 := ToBinary(hi, ByteWidth);
    seq(NesBitmapDimension, j requires 0 <= j < NesBitmapDimension => bp0[j] + 2 * bp1[j])
  }

  /** The tile held in one 16-byte record: row r comes from byte r (plane 0)
      and byte 8 + r (plane 1). */
  function DecodeRecord(sprite: seq<byte>): (t: Tile)
    requires |sprite| == SingleSpriteSize
    ensures IsTile(t)
    ensures forall r :: 0 <= r < NesBitmapDimension ==>
              t[r] == DecodeRow(sprite[r], sprite[NesBitmapDimension + r])
  {
    var bitplane0 := sprite[0..NesBitmapDimension];
    var bitplane1 := sprite[NesBitmapDimension..];
    seq(NesBitmapDimension, r requires 0 <= r < NesBitmapDimension => DecodeRow(bitplane0[r], bitplane1[r]))
  }

  /** What `decode` returns for the bytes of a CHR bank: a failure unless it
      holds exactly 4096 bytes, otherwise the 256 tiles of its records in order. */
  function DecodeBank(bank: seq<byte>): (r: Result<seq<Tile>>)
    ensures r.Err? <==> |bank| != ChrBankSize
    ensures r.Err? ==> r.error == IncorrectChrBankSize
    ensures r.Ok? ==> (|r.value| == SpritesInChrBank &&
              forall k :: 0 <= k < SpritesInChrBank ==>
                r.value[k] == DecodeRecord(bank[SingleSpriteSize * k..SingleSpriteSize * k + SingleSpriteSize]))
  {
    if |bank| != ChrBankSize then Err(IncorrectChrBankSize)
    else Ok(seq(SpritesInChrBank, k requires 0 <= k < SpritesInChrBank =>
              DecodeRecord(bank[SingleSpriteSize * k..SingleSpriteSize * k + SingleSpriteSize])))
  }

  /** Every pixel of a decoded bank is read straight from the bank's bytes:
      pixel (r, j) of tile k combines bit 7 - j of byte 16k + r with bit
      7 - j of byte 16k + 8 + r. */
  lemma DecodeBankPixel(bank: seq<byte>, k: nat, r: nat, j: nat)
    requires |bank| == ChrBankSize
    requires k < SpritesInChrBank && r < NesBitmapDimension && j < NesBitmapDimension
    ensures DecodeBank(bank).Ok?
    ensures DecodeBank(bank).value[k][r][j] ==
              BitAt(bank[SingleSpriteSize * k + r], ByteWidth - 1 - j) +
              2 * BitAt(bank[SingleSpriteSize * k + NesBitmapDimension + r], ByteWidth - 1 - j)
  {
  }

  /** decode(filepath), on the file's bytes: check the size, then read the
      bank record by record and each record row by row. */
  method Decode(bank: seq<byte>) returns (r: Result<seq<Tile>>)
    ensures r == DecodeBank(bank)
  {
    if |bank| != ChrBankSize {
      return Err(IncorrectChrBankSize);
    }
    var out: seq<Tile> := [];
    var pos := 0;  // the read position in the file
    for x := 0 to SpritesInChrBank
      invariant pos == SingleSpriteSize * x
      invariant |out| == x
      invariant forall k :: 0 <= k < x ==>
                  out[k] == DecodeRecord(bank[SingleSpriteSize * k..SingleSpriteSize * k + SingleSpriteSize])
    {
      var encodedSprite: seq<seq<int>> := [];
      var sprite := bank[pos..pos + SingleSpriteSize];
      pos := pos + SingleSpriteSize;
      var bitplane0 := sprite[0..NesBitmapDimension];
      var bitplane1 := sprite[NesBitmapDimension..];
      for idx := 0 to NesBitmapDimension
        invariant |encodedSprite| == idx
        invariant forall i :: 0 <= i < idx ==> encodedSprite[i] == DecodeRow(bitplane0[i], bitplane1[i])
      {
        encodedSprite := encodedSprite + [DecodeRow(bitplane0[idx], bitplane1[idx])];
      }
      assert encodedSprite == DecodeRecord(sprite);
      out := out + [encodedSprite];
    }
    assert out == DecodeBank(bank).value;
    return Ok(out);
  }
}
