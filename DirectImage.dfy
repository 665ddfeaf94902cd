/** `build_wang_packets` of experiments/experiment_direct_image.py: a
    "wang" header packet, two zero packets, then the text's 12-row bitmap
    cut into 16-byte packets, the last one padded with zeros. */
module DirectImage {
  import opened Bytes
  import opened Protocol
  import opened Encryption
  import opened ExperimentBitmap

  /** The 12-row `FONT` of this experiment (fewer glyphs than
      `FONT_12ROW`). */
  const FONT: map<char, seq<byte>> := map[
    'H' := [0x00, 0x00, 0x42, 0x42, 0x42, 0x7E, 0x42, 0x42, 0x42, 0x42, 0x00, 0x00],
    'I' := [0x00, 0x00, 0x3E, 0x08, 0x08, 0x08, 0x08, 0x08, 0x08, 0x3E, 0x00, 0x00],
    'E' := [0x00, 0x00, 0x7E, 0x40, 0x40, 0x7C, 0x40, 0x40, 0x40, 0x7E, 0x00, 0x00],
    'L' := [0x00, 0x00, 0x40, 0x40, 0x40, 0x40, 0x40, 0x40, 0x40, 0x7E, 0x00, 0x00],
    'O' := [0x00, 0x00, 0x3C, 0x42, 0x42, 0x42, 0x42, 0x42, 0x42, 0x3C, 0x00, 0x00],
    ' ' := [0x00, 0x00, 0x00, 0x00, 0x00, 0x00, 0x00, 0x00, 0x00, 0x00, 0x00, 0x00]
  ]

  /** `b'wang'`. */
  const WANG: seq<byte> := [0x77, 0x61, 0x6E, 0x67]

  /** The header packet: "wang", flash, marquee, two speed bytes, and the
      text length as a high byte (always 0) and a low byte. */
  function WangHeader(length: byte): (h: Block)
    ensures h[..4] == WANG && h[9] == length
    ensures forall i :: 4 <= i < BLOCK_SIZE && i != 9 ==> h[i] == 0
  {
    WANG + [0, 0, 0, 0, 0, length] + Zeros(6)
  }

  /** The bitmap cut into 16-byte packets, the last one zero-padded. */
  function Chunks(bitmap: seq<byte>): (r: seq<Block>)
    decreases |bitmap|
  {
    if bitmap == [] then []
    else if |bitmap| <= BLOCK_SIZE then [PadToBlockSize(bitmap)]
    else [bitmap[..BLOCK_SIZE]] + Chunks(bitmap[BLOCK_SIZE..])
  }

  /** Zero bytes that round n up to a whole number of blocks. */
  function PadLength(n: nat): nat {
    (BLOCK_SIZE - n % BLOCK_SIZE) % BLOCK_SIZE
  }

  /** There are ceil(n / 16) packets. */
  lemma {:induction false} ChunksLength(bitmap: seq<byte>)
    ensures |Chunks(bitmap)| == (|bitmap| + BLOCK_SIZE - 1) / BLOCK_SIZE
    decreases |bitmap|
  {
    if |bitmap| > BLOCK_SIZE {
      ChunksLength(bitmap[BLOCK_SIZE..]);
    }
  }

  /** The packets hold the bitmap followed by zeros up to a block
      boundary. */
  lemma {:induction false} ChunksFlatten(bitmap: seq<byte>)
    ensures Flatten(Chunks(bitmap)) == bitmap + Zeros(PadLength(|bitmap|))
    decreases |bitmap|
  {
    if bitmap == [] {
    } else if |bitmap| <= BLOCK_SIZE {
      PadShape(bitmap);
      assert PadLength(|bitmap|) == BLOCK_SIZE - |bitmap|;
      assert Chunks(bitmap) == [PadToBlockSize(bitmap)];
      assert Flatten(Chunks(bitmap)) == PadToBlockSize(bitmap) + Flatten([]);
    } else {
      var head, tail := bitmap[..BLOCK_SIZE], bitmap[BLOCK_SIZE..];
      var zeros := Zeros(PadLength(|tail|));
      ChunksFlatten(tail);
      ChunksStep(bitmap);
      PadLengthStep(|tail|);
      assert Flatten(Chunks(bitmap)) == head + (tail + zeros);
      assert head + (tail + zeros) == (head + tail) + zeros;
      assert bitmap == head + tail;
    }
  }

  /** One more full block leaves the padding unchanged. */
  lemma PadLengthStep(n: nat)
    ensures PadLength(n + BLOCK_SIZE) == PadLength(n)
  {
    assert (n + BLOCK_SIZE) % BLOCK_SIZE == n % BLOCK_SIZE;
  }

  lemma ChunksStep(bitmap: seq<byte>)
    requires |bitmap| > BLOCK_SIZE
    ensures Flatten(Chunks(bitmap)) == bitmap[..BLOCK_SIZE] + Flatten(Chunks(bitmap[BLOCK_SIZE..]))
  {
    var r := Chunks(bitmap);
    assert r[0] == bitmap[..BLOCK_SIZE];
    assert r[1..] == Chunks(bitmap[BLOCK_SIZE..]);
  }

  /** What `build_wang_packets` returns; a text longer than 255 characters
      does not fit the length byte and `bytearray` raises. */
  function WangPackets(text: string): Result<seq<Block>> {
    if |text| > 255 then Err(ByteOutOfRange)
    else
      var blank: Block := Zeros(BLOCK_SIZE);
      var first: seq<Block> := [WangHeader(|text|), blank, blank];
      Ok(first + Chunks(ByChar(FONT, text)))
  }

  /** The packet layout: a header carrying "wang" and the length, two zero
      packets, and 3 + ceil(12n / 16) packets in all, whose bitmap part is
      the text's glyphs followed by zero padding. */
  lemma WangPacketsSpec(text: string)
    ensures WangPackets(text).Ok? <==> |text| <= 255
    ensures WangPackets(text).Err? ==> WangPackets(text).error == ByteOutOfRange
    ensures WangPackets(text).Ok? ==>
      var packets := WangPackets(text).value;
      var bitmap := ByChar(FONT, text);
      |packets| == 3 + (GLYPH_ROWS * |text| + BLOCK_SIZE - 1) / BLOCK_SIZE &&
      packets[0][..4] == WANG && packets[0][9] == |text| &&
      (forall i :: 4 <= i < BLOCK_SIZE && i != 9 ==> packets[0][i] == 0) &&
      packets[1] == Zeros(BLOCK_SIZE) && packets[2] == Zeros(BLOCK_SIZE) &&
      Flatten(packets[3..]) == bitmap + Zeros(PadLength(|bitmap|))
  {
    if |text| <= 255 {
      var packets := WangPackets(text).value;
      var bitmap := ByChar(FONT, text);
      assert packets[3..] == Chunks(bitmap);
      ChunksLength(bitmap);
      ChunksFlatten(bitmap);
    }
  }

  /** The packet cut at `i`, and the packets after it. */
  lemma ChunkAt(bitmap: seq<byte>, i: nat)
    requires i < |bitmap|
    ensures var chunk := bitmap[i .. Min(i + BLOCK_SIZE, |bitmap|)];
      Chunks(bitmap[i..]) ==
        [if |chunk| < BLOCK_SIZE then chunk + Zeros(BLOCK_SIZE - |chunk|) else chunk] +
        Chunks(if i + BLOCK_SIZE < |bitmap| then bitmap[i + BLOCK_SIZE..] else [])
  {
    var rest := bitmap[i..];
    var chunk := bitmap[i .. Min(i + BLOCK_SIZE, |bitmap|)];
    if i + BLOCK_SIZE < |bitmap| {
      assert chunk == rest[..BLOCK_SIZE];
      assert rest[BLOCK_SIZE..] == bitmap[i + BLOCK_SIZE..];
    } else {
      assert chunk == rest;
      PadShape(rest);
    }
  }

  /** The packet loop of `build_wang_packets`. */
  method ChunkPackets(bitmap: seq<byte>) returns (packets: seq<Block>)
    ensures packets == Chunks(bitmap)
  {
    packets := [];
    var i := 0;
    assert Slice(bitmap, 0, |bitmap|) == bitmap;
    while i < |bitmap|
      invariant packets + Chunks(Slice(bitmap, i, |bitmap|)) == Chunks(bitmap)
      decreases |bitmap| - i
    {
      assert Slice(bitmap, i, |bitmap|) == bitmap[i..];
      var chunk := bitmap[i .. Min(i + BLOCK_SIZE, |bitmap|)];
      if |chunk| < BLOCK_SIZE {
        chunk := chunk + Zeros(BLOCK_SIZE - |chunk|);
      }
      ChunkAt(bitmap, i);
      if i + BLOCK_SIZE < |bitmap| {
        assert Slice(bitmap, i + BLOCK_SIZE, |bitmap|) == bitmap[i + BLOCK_SIZE..];
      } else {
        assert Slice(bitmap, i + BLOCK_SIZE, |bitmap|) == [];
      }
      packets := packets + [chunk];
      i := i + BLOCK_SIZE;
    }
    assert Slice(bitmap, i, |bitmap|) == [];
  }

  /** The header `bytearray(16)` filled in place: the magic slice, the
      explicit zero bytes, then the text length. */
  method HeaderBytes(length: byte) returns (header: Block)
    ensures header == WangHeader(length)
  {
    var h := new byte[BLOCK_SIZE](_ => 0);
    forall i | 0 <= i < |WANG| {
      h[i] := WANG[i];
    }
    ghost var contents: seq<byte> := WANG + Zeros(BLOCK_SIZE - |WANG|);
    assert h[..] == contents;
    h[4] := 0;
    assert h[..] == contents;
    h[5] := 0;
    assert h[..] == contents;
    h[6] := 0;
    assert h[..] == contents;
    h[7] := 0;
    assert h[..] == contents;
    h[8] := 0;
    assert h[..] == contents;
    h[9] := length;
    contents := contents[9 := length];
    assert h[..] == contents;
    header := h[..];
    ghost var w := WangHeader(length);
    forall i | 0 <= i < BLOCK_SIZE
      ensures header[i] == w[i]
    {
      if i < 4 {
        assert w[i] == w[..4][i];
      }
    }
  }

  /** The header packet, byte by byte. */
  lemma WangHeaderBytes(length: byte)
    ensures WangHeader(length) == [0x77, 0x61, 0x6E, 0x67, 0, 0, 0, 0, 0, length, 0, 0, 0, 0, 0, 0]
  {
    assert Zeros(6) == [0, 0, 0, 0, 0, 0];
  }

  /** `build_wang_packets`. */
  method BuildWangPackets(text: string) returns (r: Result<seq<Block>>)
    ensures r == WangPackets(text)
  {
    if |text| > 255 {
      return Err(ByteOutOfRange);
    }
    var header := HeaderBytes(|text|);
    var blank: Block := Zeros(BLOCK_SIZE);
    var packets: seq<Block> := [header, blank, blank];
    var bitmap := TextToBitmapByChar(FONT, text);
    var chunks := ChunkPackets(bitmap);
    packets := packets + chunks;
    r := Ok(packets);
  }
}
