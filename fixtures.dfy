/** The worked example at the top of encoder.py and a few concrete rows. */
module Fixtures {
  import opened Bits
  import opened Encoder
  import opened RoundTrip

  /** The ring-shaped tile of colour 1 on background 3. */
  function RingTile(): Bitmap
  {
    [[3, 3, 3, 3, 3, 3, 3, 3],
     [3, 1, 3, 3, 3, 1, 3, 3],
     [3, 3, 1, 3, 1, 3, 3, 3],
     [3, 3, 3, 1, 3, 3, 3, 3],
     [3, 3, 1, 3, 1, 3, 3, 3],
     [3, 1, 3, 3, 3, 1, 3, 3],
     [3, 3, 3, 3, 3, 3, 3, 3],
     [3, 3, 3, 3, 3, 3, 3, 3]]
  }

  /** Its encoded form, as written out beside it. */
  function RingPlanes(): seq<RowPlanes>
  {
    var ones := [1, 1, 1, 1, 1, 1, 1, 1];
    [RowPlanes(ones, ones),
     RowPlanes(ones, [1, 0, 1, 1, 1, 0, 1, 1]),
     RowPlanes(ones, [1, 1, 0, 1, 0, 1, 1, 1]),
     RowPlanes(ones, [1, 1, 1, 0, 1, 1, 1, 1]),
     RowPlanes(ones, [1, 1, 0, 1, 0, 1, 1, 1]),
     RowPlanes(ones, [1, 0, 1, 1, 1, 0, 1, 1]),
     RowPlanes(ones, ones),
     RowPlanes(ones, ones)]
  }

  /** The record of the ring tile, written out in hexadecimal. */
  function RingRecord(): seq<byte>
  {
    [0xFF, 0xFF, 0xFF, 0xFF, 0xFF, 0xFF, 0xFF, 0xFF,
     0xFF, 0xBB, 0xD7, 0xEF, 0xD7, 0xBB, 0xFF, 0xFF]
  }

  /** Each distinct row of the ring tile encodes to the planes listed for it. */
  lemma RingRowsEncode()
    ensures EncodeRow([3, 3, 3, 3, 3, 3, 3, 3]) == RingPlanes()[0]
    ensures EncodeRow([3, 1, 3, 3, 3, 1, 3, 3]) == RingPlanes()[1]
    ensures EncodeRow([3, 3, 1, 3, 1, 3, 3, 3]) == RingPlanes()[2]
    ensures EncodeRow([3, 3, 3, 1, 3, 3, 3, 3]) == RingPlanes()[3]
  {
    assert EncodeRow([3, 3, 3, 3, 3, 3, 3, 3]).plane1 == [1, 1, 1, 1, 1, 1, 1, 1];
    assert EncodeRow([3, 1, 3, 3, 3, 1, 3, 3]).plane1 == [1, 0, 1, 1, 1, 0, 1, 1];
    assert EncodeRow([3, 3, 1, 3, 1, 3, 3, 3]).plane1 == [1, 1, 0, 1, 0, 1, 1, 1];
    assert EncodeRow([3, 3, 3, 1, 3, 3, 3, 3]).plane1 == [1, 1, 1, 0, 1, 1, 1, 1];
  }

  /** The worked example, first half: the ring tile encodes to the listed planes. */
  lemma RingTileEncodes()
    ensures EncodeBitmap(RingTile()) == Ok(RingPlanes())
  {
    var t := RingTile();
    assert forall i :: 0 <= i < |t| ==> RowFits(t[i]);
    RingRowsEncode();
    var rows := EncodeBitmap(t).value;
    var want := RingPlanes();
    assert rows[0] == want[0] && rows[1] == want[1] && rows[2] == want[2] && rows[3] == want[3];
    assert rows[4] == want[4] && rows[5] == want[5] && rows[6] == want[6] && rows[7] == want[7];
    assert rows == want;
  }

  /** The four distinct plane rows of the ring tile, packed MSB-first. */
  lemma RingBytesPack()
    ensures PackBits([1, 1, 1, 1, 1, 1, 1, 1]) == 0xFF
    ensures PackBits([1, 0, 1, 1, 1, 0, 1, 1]) == 0xBB
    ensures PackBits([1, 1, 0, 1, 0, 1, 1, 1]) == 0xD7
    ensures PackBits([1, 1, 1, 0, 1, 1, 1, 1]) == 0xEF
  {
    PackByteWeights([1, 1, 1, 1, 1, 1, 1, 1]);
    PackByteWeights([1, 0, 1, 1, 1, 0, 1, 1]);
    PackByteWeights([1, 1, 0, 1, 0, 1, 1, 1]);
    PackByteWeights([1, 1, 1, 0, 1, 1, 1, 1]);
  }

  /** The layout of the ring tile's planes: plane 0 is `ones` in every row,
      and plane 1 of rows 0..7 is ones, a, b, c, b, a, ones, ones. */
  function RingShape(ones: seq<int>, a: seq<int>, b: seq<int>, c: seq<int>): seq<RowPlanes>
  {
    [RowPlanes(ones, ones), RowPlanes(ones, a), RowPlanes(ones, b), RowPlanes(ones, c),
     RowPlanes(ones, b), RowPlanes(ones, a), RowPlanes(ones, ones), RowPlanes(ones, ones)]
  }

  /** Rows laid out as the ring tile's pack into x x x x x x x x, then
      x y z w z y x x, where x, y, z and w are the packed bit lists. */
  lemma RingShapePacks(ones: seq<int>, a: seq<int>, b: seq<int>, c: seq<int>, x: byte, y: byte, z: byte, w: byte)
    requires |ones| == |a| == |b| == |c| == NesBitmapDimension
    requires IsBits(ones) && IsBits(a) && IsBits(b) && IsBits(c)
    requires PackBits(ones) == x && PackBits(a) == y && PackBits(b) == z && PackBits(c) == w
    ensures WellFormedRows(RingShape(ones, a, b, c))
    ensures PackRecord(RingShape(ones, a, b, c)) == [x, x, x, x, x, x, x, x, x, y, z, w, z, y, x, x]
  {
    var rows := RingShape(ones, a, b, c);
    assert WellFormedRows(rows);
    var record := PackRecord(rows);
    assert record[..NesBitmapDimension] == [x, x, x, x, x, x, x, x];
    assert record[NesBitmapDimension..] == [x, y, z, w, z, y, x, x];
    assert record == record[..NesBitmapDimension] + record[NesBitmapDimension..];
  }

  /** Packed MSB-first, the listed planes make the record 0xFF x 8, then
      0xFF 0xBB 0xD7 0xEF 0xD7 0xBB 0xFF 0xFF. */
  lemma RingPlanesPack()
    ensures WellFormedRows(RingPlanes())
    ensures PackRecord(RingPlanes()) == RingRecord()
  {
    var ones, a, b, c := [1, 1, 1, 1, 1, 1, 1, 1], [1, 0, 1, 1, 1, 0, 1, 1], [1, 1, 0, 1, 0, 1, 1, 1], [1, 1, 1, 0, 1, 1, 1, 1];
    assert RingPlanes() == RingShape(ones, a, b, c);
    RingBytesPack();
    RingShapePacks(ones, a, b, c, 0xFF, 0xBB, 0xD7, 0xEF);
  }

  /** The worked example, "and vice versa": decoding the ring tile's record
      gives the ring tile back. */
  lemma RingRecordDecodes()
    ensures DecodeRecord(RingRecord()) == RingTile()
  {
    assert IsTile(RingTile());
    EncodeThenDecodeTile(RingTile());
    RingTileEncodes();
    RingPlanesPack();
  }

  /** One mixed row, 1 0 2 3 0 0 0 0: plane 0 takes the low bits and plane 1
      the high bits, leftmost column in bit 7, so the planes pack to 0x90 and 0x30. */
  lemma MixedRowEncodes()
    ensures EncodeRow([1, 0, 2, 3, 0, 0, 0, 0]) == RowPlanes([1, 0, 0, 1, 0, 0, 0, 0], [0, 0, 1, 1, 0, 0, 0, 0])
    ensures PackBits([1, 0, 0, 1, 0, 0, 0, 0]) == 0x90
    ensures PackBits([0, 0, 1, 1, 0, 0, 0, 0]) == 0x30
  {
    assert EncodeRow([1, 0, 2, 3, 0, 0, 0, 0]).plane0 == [1, 0, 0, 1, 0, 0, 0, 0];
    assert EncodeRow([1, 0, 2, 3, 0, 0, 0, 0]).plane1 == [0, 0, 1, 1, 0, 0, 0, 0];
    PackByteWeights([1, 0, 0, 1, 0, 0, 0, 0]);
    PackByteWeights([0, 0, 1, 1, 0, 0, 0, 0]);
  }

  /** The guard of `encode` rejects exactly the bitmaps that do not have 8
      rows: seven or nine rows fail, while eight rows that are short, empty or
      hold colours outside 0..3 are accepted, unlisted colours encoding as 0
      in both planes. The only other failure is the index error of a colour
      1..3 past column 7. */
  lemma EncodeGuardChecksOnlyRowCount()
    ensures EncodeBitmap(RingTile()[..7]) == Err(IncorrectBitmapSize)
    ensures EncodeBitmap(RingTile() + [[0]]) == Err(IncorrectBitmapSize)
    ensures EncodeBitmap([[4, -1, 7], [], [], [], [], [], [], []]).Ok?
    ensures EncodeRow([4, -1, 7]) == RowPlanes([0, 0, 0, 0, 0, 0, 0, 0], [0, 0, 0, 0, 0, 0, 0, 0])
    ensures EncodeBitmap([[0, 0, 0, 0, 0, 0, 0, 0, 0, 2], [], [], [], [], [], [], []]) == Err(IndexOutOfRange)
  {
    var b := [[0, 0, 0, 0, 0, 0, 0, 0, 0, 2], [], [], [], [], [], [], []];
    assert b[0][9] == 2;
    assert !RowFits(b[0]);
    var g := [[4, -1, 7], [], [], [], [], [], [], []];
    assert forall i :: 0 <= i < |g| ==> RowFits(g[i]);
    assert EncodeRow([4, -1, 7]).plane0 == [0, 0, 0, 0, 0, 0, 0, 0];
    assert EncodeRow([4, -1, 7]).plane1 == [0, 0, 0, 0, 0, 0, 0, 0];
  }
}
