/** The badge's native 12-row pixel layout (examples/test_image_upload.py):
    every 6 columns of a 12-row grid become one 9-byte segment. Rows 0-7 of a
    column fill one whole byte (bit 7 = row 0); rows 8-11 of two neighbouring
    columns share a byte, the even column in the upper nibble and the odd one
    in the lower nibble (bit 3 of the nibble = row 8). The model works on
    `bv8` because the source builds these bytes with shifts and `|`. */
module ImageSegments {

  /** pixels[row][col], as the source's list of lists of booleans. */
  type Grid = seq<seq<bool>>

  const ROWS: nat := 12
  const COLUMNS: nat := 48
  const SEGMENT_COLUMNS: nat := 6
  const SEGMENT_BYTES: nat := 9
  const SEGMENT_COUNT: nat := 8

  /** The grid has the 12 rows and at least `cols` columns in every row. */
  predicate Covers(p: Grid, cols: nat) {
    |p| >= ROWS && forall r :: 0 <= r < ROWS ==> |p[r]| >= cols
  }

  /** `byte_map`: which byte of a segment holds rows 0-7 of a local column. */
  function RowByteIndex(localCol: nat): (i: nat)
    requires localCol < 6
    ensures i < 9
  {
    [0, 2, 3, 5, 6, 8][localCol]
  }

  /** `nibble_byte_map`: which byte holds rows 8-11 of a local column. */
  function NibbleByteIndex(localCol: nat): (i: nat)
    requires localCol < 6
    ensures i < 9
  {
    [1, 1, 4, 4, 7, 7][localCol]
  }

  /** The byte with only bit k set, `1 << k`. */
  function Mask(k: nat): bv8
    requires k < 8
  {
    if k == 0 then 1 else if k == 1 then 2 else if k == 2 then 4 else if k == 3 then 8
    else if k == 4 then 16 else if k == 5 then 32 else if k == 6 then 64 else 128
  }

  function BitIf(on: bool, k: nat): bv8
    requires k < 8
  {
    if on then Mask(k) else 0
  }

  /** The byte for rows 0..rows-1 of column `col`: row r sets bit 7 - r. */
  function HighRows(p: Grid, col: nat, rows: nat): bv8
    requires rows <= 8 && Covers(p, col + 1)
  {
    if rows == 0 then 0 else HighRows(p, col, rows - 1) | BitIf(p[rows - 1][col], 8 - rows)
  }

  /** The nibble for rows 8..8+rows-1 of column `col`: row r sets bit 11 - r. */
  function LowRows(p: Grid, col: nat, rows: nat): bv8
    requires rows <= 4 && Covers(p, col + 1)
  {
    if rows == 0 then 0 else LowRows(p, col, rows - 1) | BitIf(p[8 + rows - 1][col], 4 - rows)
  }

  /** The row bytes (rows 0-7) of the six columns start..start+5. */
  function ColumnBytes(p: Grid, start: nat): (h: seq<bv8>)
    requires Covers(p, start + 6)
    ensures |h| == 6
    ensures forall j :: 0 <= j < 6 ==> h[j] == HighRows(p, start + j, 8)
  {
    seq(6, j requires 0 <= j < 6 => HighRows(p, start + j, 8))
  }

  /** The nibbles (rows 8-11) of the six columns start..start+5. */
  function ColumnNibbles(p: Grid, start: nat): (l: seq<bv8>)
    requires Covers(p, start + 6)
    ensures |l| == 6
    ensures forall j :: 0 <= j < 6 ==> l[j] == LowRows(p, start + j, 4)
  {
    seq(6, j requires 0 <= j < 6 => LowRows(p, start + j, 4))
  }

  /** Packing one column into a segment buffer, as `encode_segment`
      does: column n's row byte goes to RowByteIndex(n), and its nibble is
      or-ed into the upper half (even n) or lower half (odd n) of byte
      NibbleByteIndex(n), which it shares with its neighbour. */
  function PackColumn(buf: seq<bv8>, byteVal: bv8, nibbleVal: bv8, n: nat): (r: seq<bv8>)
    requires |buf| == 9 && n < 6
    ensures |r| == 9
    ensures r[RowByteIndex(n)] == byteVal
    ensures forall i :: 0 <= i < 9 && i != RowByteIndex(n) && i != NibbleByteIndex(n) ==> r[i] == buf[i]
  {
    var mid := buf[RowByteIndex(n) := byteVal];
    var k := NibbleByteIndex(n);
    mid[k := if n % 2 == 0 then mid[k] | (nibbleVal << 4) else mid[k] | nibbleVal]
  }

  /** A zeroed 9-byte buffer after its first n columns are packed. */
  function Pack(high: seq<bv8>, low: seq<bv8>, n: nat): (seg: seq<bv8>)
    requires |high| == 6 && |low| == 6 && n <= 6
    ensures |seg| == 9
  {
    if n == 0 then [0, 0, 0, 0, 0, 0, 0, 0, 0]
    else PackColumn(Pack(high, low, n - 1), high[n - 1], low[n - 1], n - 1)
  }

  lemma PackNext(high: seq<bv8>, low: seq<bv8>, n: nat)
    requires |high| == 6 && |low| == 6 && n < 6
    ensures Pack(high, low, n + 1) == PackColumn(Pack(high, low, n), high[n], low[n], n)
  {
  }

  /** The 9 bytes that encode columns start..start+5. */
  function Segment(p: Grid, start: nat): (seg: seq<bv8>)
    requires Covers(p, start + 6)
    ensures |seg| == 9
  {
    Pack(ColumnBytes(p, start), ColumnNibbles(p, start), 6)
  }

  /** Segments 0..n-1 of the grid, concatenated. */
  function Segments(p: Grid, n: nat): seq<bv8>
    requires Covers(p, 6 * n)
  {
    if n == 0 then [] else Segments(p, n - 1) + Segment(p, 6 * (n - 1))
  }

  /** The whole 48-column image: 8 segments, 72 bytes. */
  function Rasterized(p: Grid): seq<bv8>
    requires Covers(p, COLUMNS)
  {
    Segments(p, SEGMENT_COUNT)
  }

  /** `get_pixel`: reads pixel (row, 6 * segment + col) back out of encoded data. */
  function GetPixel(data: seq<bv8>, segment: nat, col: nat, row: nat): (bit: bv8)
    requires col < 6 && row < 12 && 9 * segment + 9 <= |data|
    ensures bit == 0 || bit == 1
  {
    var base := segment * 9;
    if row < 8 then
      (data[base + RowByteIndex(col)] >> (7 - row)) & 1
    else if col % 2 == 0 then
      (data[base + NibbleByteIndex(col)] >> (7 - (row - 8))) & 1
    else
      (data[base + NibbleByteIndex(col)] >> (3 - (row - 8))) & 1
  }

  // ---------------------------------------------------------------------
  // Bit-level facts about the column bytes

  /** Whether bit j of x is set. */
  predicate Bit(x: bv8, j: nat)
    requires j < 8
  {
    x & Mask(j) != 0
  }

  /** Shifting 1 left by k gives the mask of bit k. */
  lemma ShiftedOne(k: nat)
    requires k < 8
    ensures 1 << k == Mask(k)
  {
    if k == 0 {
    } else if k == 1 {
    } else if k == 2 {
    } else if k == 3 {
    } else if k == 4 {
    } else if k == 5 {
    } else if k == 6 {
    } else {
    }
  }

  /** `(x >> j) & 1`, the source's way of reading a bit, is bit j. */
  lemma ShiftedBit(x: bv8, j: nat)
    requires j < 8
    ensures (x >> j) & 1 == if Bit(x, j) then 1 else 0
  {
    if j == 0 {
    } else if j == 1 {
    } else if j == 2 {
    } else if j == 3 {
    } else if j == 4 {
    } else if j == 5 {
    } else if j == 6 {
    } else {
    }
  }

  /** Bit j of a byte holding at most bit k. */
  lemma BitIfBit(on: bool, k: nat, j: nat)
    requires k < 8 && j < 8
    ensures Bit(BitIf(on, k), j) <==> j == k && on
    ensures BitIf(on, k) < 16 <==> !on || k < 4
  {
  }

  /** A bit of an or is the or of the bits. */
  lemma OrBit(x: bv8, y: bv8, j: nat)
    requires j < 8
    ensures Bit(x | y, j) <==> Bit(x, j) || Bit(y, j)
  {
  }

  lemma OrBelow16(x: bv8, y: bv8)
    requires x < 16 && y < 16
    ensures x | y < 16
  {
  }

  /** Bit 7 - r of the partial row byte is pixel (r, col) for the rows already
      packed, and clear for the others. */
  lemma {:induction false} HighRowsBit(p: Grid, col: nat, rows: nat, r: nat)
    requires rows <= 8 && r < 8 && Covers(p, col + 1)
    ensures Bit(HighRows(p, col, rows), 7 - r) <==> r < rows && p[r][col]
  {
    if rows > 0 {
      HighRowsBit(p, col, rows - 1, r);
      var prev := HighRows(p, col, rows - 1);
      var b := BitIf(p[rows - 1][col], 8 - rows);
      assert HighRows(p, col, rows) == prev | b;
      BitIfBit(p[rows - 1][col], 8 - rows, 7 - r);
      OrBit(prev, b, 7 - r);
    }
  }

  /** The partial nibble never reaches bit 4, and its bit 11 - r is pixel
      (r, col) for the rows 8..8+rows-1 already packed. */
  lemma {:induction false} LowRowsBit(p: Grid, col: nat, rows: nat, r: nat)
    requires rows <= 4 && 8 <= r < 12 && Covers(p, col + 1)
    ensures LowRows(p, col, rows) < 16
    ensures Bit(LowRows(p, col, rows), 11 - r) <==> r < 8 + rows && p[r][col]
  {
    if rows > 0 {
      LowRowsBit(p, col, rows - 1, r);
      var prev := LowRows(p, col, rows - 1);
      var b := BitIf(p[8 + rows - 1][col], 4 - rows);
      assert LowRows(p, col, rows) == prev | b;
      BitIfBit(p[8 + rows - 1][col], 4 - rows, 11 - r);
      OrBit(prev, b, 11 - r);
      OrBelow16(prev, b);
    }
  }

  // ---------------------------------------------------------------------
  // Layout of the encoded image

  lemma {:induction false} SegmentsAt(p: Grid, n: nat, s: nat, j: nat)
    requires Covers(p, 6 * n) && s < n && j < 9
    ensures |Segments(p, n)| == 9 * n
    ensures Segments(p, n)[9 * s + j] == Segment(p, 6 * s)[j]
  {
    SegmentsLength(p, n - 1);
    if s < n - 1 {
      SegmentsAt(p, n - 1, s, j);
    }
  }

  lemma {:induction false} SegmentsLength(p: Grid, n: nat)
    requires Covers(p, 6 * n)
    ensures |Segments(p, n)| == 9 * n
  {
    if n > 0 {
      SegmentsLength(p, n - 1);
    }
  }

  // The buffer after each column, one lemma per column: the layout after
  // column n follows from the layout after column n - 1 and one PackColumn.

  lemma PackLayout1(high: seq<bv8>, low: seq<bv8>)
    requires |high| == 6 && |low| == 6
    ensures Pack(high, low, 1) ==
              [high[0], (low[0] << 4) | 0, 0,
              0, (0 << 4) | 0, 0,
              0, (0 << 4) | 0, 0]
  {
    assert RowByteIndex(0) == 0 && NibbleByteIndex(0) == 1;
  }

  lemma PackLayout2(high: seq<bv8>, low: seq<bv8>)
    requires |high| == 6 && |low| == 6
    ensures Pack(high, low, 2) ==
              [high[0], (low[0] << 4) | low[1], high[1],
              0, (0 << 4) | 0, 0,
              0, (0 << 4) | 0, 0]
  {
    PackLayout1(high, low);
    assert RowByteIndex(1) == 2 && NibbleByteIndex(1) == 1;
  }

  lemma PackLayout3(high: seq<bv8>, low: seq<bv8>)
    requires |high| == 6 && |low| == 6
    ensures Pack(high, low, 3) ==
              [high[0], (low[0] << 4) | low[1], high[1],
              high[2], (low[2] << 4) | 0, 0,
              0, (0 << 4) | 0, 0]
  {
    PackLayout2(high, low);
    assert RowByteIndex(2) == 3 && NibbleByteIndex(2) == 4;
  }

  lemma PackLayout4(high: seq<bv8>, low: seq<bv8>)
    requires |high| == 6 && |low| == 6
    ensures Pack(high, low, 4) ==
              [high[0], (low[0] << 4) | low[1], high[1],
              high[2], (low[2] << 4) | low[3], high[3],
              0, (0 << 4) | 0, 0]
  {
    PackLayout3(high, low);
    assert RowByteIndex(3) == 5 && NibbleByteIndex(3) == 4;
  }

  lemma PackLayout5(high: seq<bv8>, low: seq<bv8>)
    requires |high| == 6 && |low| == 6
    ensures Pack(high, low, 5) ==
              [high[0], (low[0] << 4) | low[1], high[1],
              high[2], (low[2] << 4) | low[3], high[3],
              high[4], (low[4] << 4) | 0, 0]
  {
    PackLayout4(high, low);
    assert RowByteIndex(4) == 6 && NibbleByteIndex(4) == 7;
  }

  lemma PackLayout6(high: seq<bv8>, low: seq<bv8>)
    requires |high| == 6 && |low| == 6
    ensures Pack(high, low, 6) ==
              [high[0], (low[0] << 4) | low[1], high[1],
              high[2], (low[2] << 4) | low[3], high[3],
              high[4], (low[4] << 4) | low[5], high[5]]
  {
    PackLayout5(high, low);
    assert RowByteIndex(5) == 8 && NibbleByteIndex(5) == 7;
  }

  lemma PackRowByte(high: seq<bv8>, low: seq<bv8>, col: nat)
    requires |high| == 6 && |low| == 6 && col < 6
    ensures Pack(high, low, 6)[RowByteIndex(col)] == high[col]
  {
    PackLayout6(high, low);
  }

  lemma PackNibbleByte(high: seq<bv8>, low: seq<bv8>, col: nat, even: nat)
    requires |high| == 6 && |low| == 6 && col < 6
    requires even == (if col < 2 then 0 else if col < 4 then 2 else 4)
    ensures Pack(high, low, 6)[NibbleByteIndex(col)] == (low[even] << 4) | low[even + 1]
  {
    PackLayout6(high, low);
    if col < 2 {
      assert NibbleByteIndex(col) == 1;
    } else if col < 4 {
      assert NibbleByteIndex(col) == 4;
    } else {
      assert NibbleByteIndex(col) == 7;
    }
  }

  lemma SegmentRowByte(p: Grid, start: nat, col: nat)
    requires Covers(p, start + 6) && col < 6
    ensures Segment(p, start)[RowByteIndex(col)] == HighRows(p, start + col, 8)
  {
    PackRowByte(ColumnBytes(p, start), ColumnNibbles(p, start), col);
  }

  lemma SegmentNibbleByte(p: Grid, start: nat, col: nat, even: nat)
    requires Covers(p, start + 6) && col < 6
    requires even == start + (if col < 2 then 0 else if col < 4 then 2 else 4)
    ensures Segment(p, start)[NibbleByteIndex(col)] == (LowRows(p, even, 4) << 4) | LowRows(p, even + 1, 4)
  {
    PackNibbleByte(ColumnBytes(p, start), ColumnNibbles(p, start), col, even - start);
  }

  /** Reading one nibble of a shared byte: the even column is the upper
      nibble, the odd column the lower one. */
  lemma NibbleBit(hi: bv8, lo: bv8, row: nat)
    requires hi < 16 && lo < 16 && 8 <= row < 12
    ensures (((hi << 4) | lo) >> (7 - (row - 8))) & 1 == if Bit(hi, 11 - row) then 1 else 0
    ensures (((hi << 4) | lo) >> (3 - (row - 8))) & 1 == if Bit(lo, 11 - row) then 1 else 0
  {
    if row == 8 {
    } else if row == 9 {
    } else if row == 10 {
    } else {
    }
  }

  /** Round trip: reading pixel (row, 6 * s + col) back out of the encoded
      image gives the pixel that was encoded, for every segment, local column
      and row. */
  lemma GetPixelRoundTrip(p: Grid, s: nat, col: nat, row: nat)
    requires Covers(p, COLUMNS) && s < SEGMENT_COUNT && col < 6 && row < ROWS
    ensures |Rasterized(p)| == SEGMENT_COUNT * SEGMENT_BYTES
    ensures GetPixel(Rasterized(p), s, col, row) == if p[row][6 * s + col] then 1 else 0
  {
    var data := Rasterized(p);
    SegmentSlice(p, s);
    GetPixelLocal(data, s, col, row);
    GetPixelInSegment(p, 6 * s, col, row);
  }

  /** Bytes 9s..9s+8 of the image are segment s. */
  lemma SegmentSlice(p: Grid, s: nat)
    requires Covers(p, COLUMNS) && s < SEGMENT_COUNT
    ensures |Rasterized(p)| == SEGMENT_COUNT * SEGMENT_BYTES
    ensures Rasterized(p)[9 * s .. 9 * s + 9] == Segment(p, 6 * s)
  {
    var data := Rasterized(p);
    SegmentsLength(p, SEGMENT_COUNT);
    forall j | 0 <= j < 9
      ensures data[9 * s + j] == Segment(p, 6 * s)[j]
    {
      SegmentsAt(p, SEGMENT_COUNT, s, j);
    }
  }

  /** `get_pixel` reads segment s from bytes 9s..9s+8 only. */
  lemma GetPixelLocal(data: seq<bv8>, s: nat, col: nat, row: nat)
    requires col < 6 && row < ROWS && 9 * s + 9 <= |data|
    ensures GetPixel(data, s, col, row) == GetPixel(data[9 * s .. 9 * s + 9], 0, col, row)
  {
  }

  /** The pixel read from a lone segment is the pixel that was encoded. */
  lemma GetPixelInSegment(p: Grid, start: nat, col: nat, row: nat)
    requires Covers(p, start + 6) && col < 6 && row < ROWS
    ensures GetPixel(Segment(p, start), 0, col, row) == if p[row][start + col] then 1 else 0
  {
    if row < 8 {
      RowPixelInSegment(p, start, col, row);
    } else {
      NibblePixelInSegment(p, start, col, row);
    }
  }

  lemma RowPixelInSegment(p: Grid, start: nat, col: nat, row: nat)
    requires Covers(p, start + 6) && col < 6 && row < 8
    ensures GetPixel(Segment(p, start), 0, col, row) == if p[row][start + col] then 1 else 0
  {
    var seg := Segment(p, start);
    SegmentRowByte(p, start, col);
    HighRowsBit(p, start + col, 8, row);
    ShiftedBit(seg[RowByteIndex(col)], 7 - row);
  }

  lemma NibblePixelInSegment(p: Grid, start: nat, col: nat, row: nat)
    requires Covers(p, start + 6) && col < 6 && 8 <= row < 12
    ensures GetPixel(Segment(p, start), 0, col, row) == if p[row][start + col] then 1 else 0
  {
    var seg := Segment(p, start);
    var even := start + (if col < 2 then 0 else if col < 4 then 2 else 4);
    SegmentNibbleByte(p, start, col, even);
    var hi, lo := LowRows(p, even, 4), LowRows(p, even + 1, 4);
    LowRowsBit(p, even, 4, row);
    LowRowsBit(p, even + 1, 4, row);
    NibbleRead(seg, col, row, hi, lo);
    PairStart(col);
  }

  /** The even column of the pair a local column belongs to. */
  lemma PairStart(col: nat)
    requires col < 6
    ensures col - col % 2 == if col < 2 then 0 else if col < 4 then 2 else 4
    ensures col % 2 == 0 || col % 2 == 1
  {
  }

  /** `get_pixel` on a nibble row of any segment whose shared byte holds
      nibbles hi and lo. */
  lemma NibbleRead(seg: seq<bv8>, col: nat, row: nat, hi: bv8, lo: bv8)
    requires |seg| == 9 && col < 6 && 8 <= row < 12 && hi < 16 && lo < 16
    requires seg[NibbleByteIndex(col)] == (hi << 4) | lo
    ensures GetPixel(seg, 0, col, row) == if Bit(if col % 2 == 0 then hi else lo, 11 - row) then 1 else 0
  {
    NibbleBit(hi, lo, row);
  }

  // ---------------------------------------------------------------------
  // The encoder, as the source runs it

  lemma HighRowsStep(p: Grid, col: nat, row: nat)
    requires row < 8 && Covers(p, col + 1)
    ensures HighRows(p, col, row + 1) == if p[row][col] then HighRows(p, col, row) | Mask(7 - row) else HighRows(p, col, row)
  {
  }

  lemma LowRowsStep(p: Grid, col: nat, row: nat)
    requires 8 <= row < 12 && Covers(p, col + 1)
    ensures LowRows(p, col, row - 7) == if p[row][col] then LowRows(p, col, row - 8) | Mask(11 - row) else LowRows(p, col, row - 8)
  {
  }

  /** The row byte of column col: bit 7 - row set for each lit pixel of
      rows 0-7, built with `|=` as `encode_segment` does. */
  method ColumnByte(pixels: Grid, col: nat) returns (byteVal: bv8)
    requires Covers(pixels, col + 1)
    ensures byteVal == HighRows(pixels, col, 8)
  {
    byteVal := 0;
    for row := 0 to 8
      invariant byteVal == HighRows(pixels, col, row)
    {
      HighRowsStep(pixels, col, row);
      ShiftedOne(7 - row);
      if pixels[row][col] {
        byteVal := byteVal | (1 << (7 - row));
      }
    }
  }

  /** The nibble of column col: bit 11 - row set for each lit pixel of
      rows 8-11. */
  method ColumnNibble(pixels: Grid, col: nat) returns (nibbleVal: bv8)
    requires Covers(pixels, col + 1)
    ensures nibbleVal == LowRows(pixels, col, 4)
  {
    nibbleVal := 0;
    for row := 8 to 12
      invariant nibbleVal == LowRows(pixels, col, row - 8)
    {
      LowRowsStep(pixels, col, row);
      ShiftedOne(11 - row);
      if pixels[row][col] {
        nibbleVal := nibbleVal | (1 << (11 - row));
      }
    }
  }

  /** One pass of the `encode_segment` loop: column `startCol + n`'s row
      byte is stored, then its nibble or-ed into the byte it shares. */
  method EncodeColumn(pixels: Grid, startCol: nat, n: nat, buf: array<bv8>)
    requires Covers(pixels, startCol + 6) && n < 6 && buf.Length == 9
    modifies buf
    ensures buf[..] == PackColumn(old(buf[..]), HighRows(pixels, startCol + n, 8), LowRows(pixels, startCol + n, 4), n)
  {
    var byteVal := ColumnByte(pixels, startCol + n);
    ghost var mid := buf[..][RowByteIndex(n) := byteVal];
    buf[RowByteIndex(n)] := byteVal;
    assert buf[..] == mid;
    var nibbleVal := ColumnNibble(pixels, startCol + n);
    var byteIdx := NibbleByteIndex(n);
    if n % 2 == 0 {
      buf[byteIdx] := buf[byteIdx] | (nibbleVal << 4);
    } else {
      buf[byteIdx] := buf[byteIdx] | nibbleVal;
    }
    assert buf[..] == mid[byteIdx := buf[byteIdx]];
  }

  /** `encode_segment`: packs columns startCol..startCol+5 into a zeroed
      9-byte buffer, one column at a time. */
  method EncodeSegment(pixels: Grid, startCol: nat) returns (segment: seq<bv8>)
    requires Covers(pixels, startCol + 6)
    ensures segment == Segment(pixels, startCol)
  {
    ghost var high, low := ColumnBytes(pixels, startCol), ColumnNibbles(pixels, startCol);
    var buf := new bv8[9](_ => 0);
    assert buf[..] == Pack(high, low, 0);
    for localCol := 0 to 6
      invariant buf[..] == Pack(high, low, localCol)
    {
      EncodeColumn(pixels, startCol, localCol, buf);
      PackNext(high, low, localCol);
    }
    segment := buf[..];
  }

  // ---------------------------------------------------------------------
  // Independence of segments and the blank segment

  lemma {:induction false} HighRowsSame(p: Grid, q: Grid, col: nat, rows: nat)
    requires rows <= 8 && Covers(p, col + 1) && Covers(q, col + 1)
    requires forall r :: 0 <= r < ROWS ==> p[r][col] == q[r][col]
    ensures HighRows(p, col, rows) == HighRows(q, col, rows)
  {
    if rows > 0 {
      HighRowsSame(p, q, col, rows - 1);
      assert p[rows - 1][col] == q[rows - 1][col];
      assert BitIf(p[rows - 1][col], 8 - rows) == BitIf(q[rows - 1][col], 8 - rows);
    }
  }

  lemma {:induction false} LowRowsSame(p: Grid, q: Grid, col: nat, rows: nat)
    requires rows <= 4 && Covers(p, col + 1) && Covers(q, col + 1)
    requires forall r :: 0 <= r < ROWS ==> p[r][col] == q[r][col]
    ensures LowRows(p, col, rows) == LowRows(q, col, rows)
  {
    if rows > 0 {
      LowRowsSame(p, q, col, rows - 1);
      assert p[8 + rows - 1][col] == q[8 + rows - 1][col];
      assert BitIf(p[8 + rows - 1][col], 4 - rows) == BitIf(q[8 + rows - 1][col], 4 - rows);
    }
  }

  /** A segment is a function of its own six columns only: two grids that
      agree on columns start..start+5 give the same 9 bytes. */
  lemma SegmentLocal(p: Grid, q: Grid, start: nat)
    requires Covers(p, start + 6) && Covers(q, start + 6)
    requires forall r, c :: 0 <= r < ROWS && start <= c < start + 6 ==> p[r][c] == q[r][c]
    ensures Segment(p, start) == Segment(q, start)
  {
    forall j | 0 <= j < 6
      ensures ColumnBytes(p, start)[j] == ColumnBytes(q, start)[j]
      ensures ColumnNibbles(p, start)[j] == ColumnNibbles(q, start)[j]
    {
      var c := start + j;
      assert forall r :: 0 <= r < ROWS ==> p[r][c] == q[r][c];
      HighRowsSame(p, q, c, 8);
      LowRowsSame(p, q, c, 4);
    }
    assert ColumnBytes(p, start) == ColumnBytes(q, start);
    assert ColumnNibbles(p, start) == ColumnNibbles(q, start);
  }

  /** Bytes 9s..9s+8 of the image are segment s, and segment s depends only
      on columns 6s..6s+5: changing any other column leaves them unchanged. */
  lemma RasterizedSegment(p: Grid, q: Grid, s: nat)
    requires Covers(p, COLUMNS) && Covers(q, COLUMNS) && s < SEGMENT_COUNT
    requires forall r, c :: 0 <= r < ROWS && 6 * s <= c < 6 * s + 6 ==> p[r][c] == q[r][c]
    ensures |Rasterized(p)| == |Rasterized(q)| == SEGMENT_COUNT * SEGMENT_BYTES
    ensures Rasterized(p)[9 * s .. 9 * s + 9] == Segment(p, 6 * s)
    ensures Rasterized(p)[9 * s .. 9 * s + 9] == Rasterized(q)[9 * s .. 9 * s + 9]
  {
    SegmentsLength(p, SEGMENT_COUNT);
    SegmentsLength(q, SEGMENT_COUNT);
    SegmentLocal(p, q, 6 * s);
    forall j | 0 <= j < 9
      ensures Rasterized(p)[9 * s + j] == Segment(p, 6 * s)[j]
      ensures Rasterized(q)[9 * s + j] == Segment(q, 6 * s)[j]
    {
      SegmentsAt(p, SEGMENT_COUNT, s, j);
      SegmentsAt(q, SEGMENT_COUNT, s, j);
    }
  }

  lemma {:induction false} HighRowsOff(p: Grid, col: nat, rows: nat)
    requires rows <= 8 && Covers(p, col + 1)
    requires forall r :: 0 <= r < ROWS ==> !p[r][col]
    ensures HighRows(p, col, rows) == 0
  {
    if rows > 0 {
      HighRowsOff(p, col, rows - 1);
    }
  }

  lemma {:induction false} LowRowsOff(p: Grid, col: nat, rows: nat)
    requires rows <= 4 && Covers(p, col + 1)
    requires forall r :: 0 <= r < ROWS ==> !p[r][col]
    ensures LowRows(p, col, rows) == 0
  {
    if rows > 0 {
      LowRowsOff(p, col, rows - 1);
    }
  }

  /** Six columns with no pixel lit encode to nine zero bytes. */
  lemma BlankSegment(p: Grid, start: nat)
    requires Covers(p, start + 6)
    requires forall r, c :: 0 <= r < ROWS && start <= c < start + 6 ==> !p[r][c]
    ensures Segment(p, start) == [0, 0, 0, 0, 0, 0, 0, 0, 0]
  {
    var high, low := ColumnBytes(p, start), ColumnNibbles(p, start);
    forall j | 0 <= j < 6
      ensures high[j] == 0 && low[j] == 0
    {
      HighRowsOff(p, start + j, 8);
      LowRowsOff(p, start + j, 4);
    }
    assert high == [0, 0, 0, 0, 0, 0] && low == [0, 0, 0, 0, 0, 0];
    PackLayout6(high, low);
  }

  // ---------------------------------------------------------------------
  // Building the image from text rows

  /** The image of `create_sunglasses_bitmap`, one string per row. */
  const SUNGLASSES: seq<string> := [
    "000000000000000000000000000000000000000000000000",
    "000000000000000000000000000000000000000000000000",
    "000111111111000000000000000000001111111110000000",
    "001111111111100000000000000000011111111111000000",
    "011111111111110000111111110000111111111111100000",
    "011111111111110000111111110000111111111111100000",
    "011111111111110000111111110000111111111111100000",
    "011111111111110000111111110000111111111111100000",
    "001111111111100000011111100000011111111111000000",
    "000111111111000000000000000000001111111110000000",
    "000000000000000000000000000000000000000000000000",
    "000000000000000000000000000000000000000000000000"
  ]

  /** A text row read as exactly 48 pixels: '1' is on, anything else (and
      every column past the end of the text) is off. */
  function Normalized(text: string): (row: seq<bool>)
    ensures |row| == COLUMNS
    ensures forall c :: 0 <= c < COLUMNS ==> (row[c] <==> c < |text| && text[c] == '1')
  {
    seq(COLUMNS, c requires 0 <= c < COLUMNS => c < |text| && text[c] == '1')
  }

  function NormalizedGrid(image: seq<string>): (p: Grid)
    ensures |p| == |image|
    ensures forall r :: 0 <= r < |image| ==> p[r] == Normalized(image[r])
  {
    seq(|image|, r requires 0 <= r < |image| => Normalized(image[r]))
  }

  /** The row normalisation of `create_sunglasses_bitmap`: one boolean per
      character, padded with off pixels up to 48 and cut to 48. */
  method NormalizeRow(text: string) returns (row: seq<bool>)
    ensures |row| == COLUMNS
    ensures forall c :: 0 <= c < COLUMNS ==> (row[c] <==> c < |text| && text[c] == '1')
    ensures row == Normalized(text)
  {
    var full := seq(|text|, i requires 0 <= i < |text| => text[i] == '1');
    while |full| < COLUMNS
      invariant forall c :: 0 <= c < |full| ==> (full[c] <==> c < |text| && text[c] == '1')
      decreases COLUMNS - |full|
    {
      full := full + [false];
    }
    row := full[..COLUMNS];
  }

  /** The first loop of `create_sunglasses_bitmap`: every row normalised. */
  method NormalizeRows(image: seq<string>) returns (pixels: Grid)
    ensures pixels == NormalizedGrid(image)
  {
    pixels := [];
    for r := 0 to |image|
      invariant |pixels| == r
      invariant forall i :: 0 <= i < r ==> pixels[i] == Normalized(image[i])
    {
      var row := NormalizeRow(image[r]);
      pixels := pixels + [row];
    }
  }

  /** The second loop: the 8 segments appended in order. */
  method EncodeSegments(pixels: Grid) returns (data: seq<bv8>)
    requires Covers(pixels, COLUMNS)
    ensures data == Rasterized(pixels)
    ensures |data| == SEGMENT_COUNT * SEGMENT_BYTES
  {
    data := [];
    for segIdx := 0 to SEGMENT_COUNT
      invariant data == Segments(pixels, segIdx)
    {
      var segmentBytes := EncodeSegment(pixels, segIdx * 6);
      data := data + segmentBytes;
    }
    SegmentsLength(pixels, SEGMENT_COUNT);
  }

  /** `create_sunglasses_bitmap` on any 12-row image: normalise the rows,
      then append the 8 encoded segments. */
  method CreateBitmap(image: seq<string>) returns (data: seq<bv8>)
    requires |image| == ROWS
    ensures Covers(NormalizedGrid(image), COLUMNS)
    ensures data == Rasterized(NormalizedGrid(image))
    ensures |data| == SEGMENT_COUNT * SEGMENT_BYTES
  {
    var pixels := NormalizeRows(image);
    data := EncodeSegments(pixels);
  }

  method CreateSunglassesBitmap() returns (data: seq<bv8>)
    ensures data == Rasterized(NormalizedGrid(SUNGLASSES))
    ensures |data| == 72
  {
    data := CreateBitmap(SUNGLASSES);
  }
}
