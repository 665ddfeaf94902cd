/** The un-framing of decrypted image blocks in experiments/analyze_bitmap.py:
    a block decrypts to `[length][data][zero padding]`, and the bitmap is the
    concatenation of the `data` parts of all blocks, in order. */
module AnalyzeBitmap {
  import opened Bytes
  import opened Protocol
  import opened Encryption

  /** `decrypted[1:1+decrypted[0]]`: the length byte names how many bytes
      follow; a length above 15 is clamped by the slice to the 15 there are. */
  function Unframe(dec: Block): (r: seq<byte>)
    ensures |r| == Min(dec[0], BLOCK_SIZE - 1)
    ensures forall k :: 0 <= k < |r| ==> r[k] == dec[1 + k]
  {
    Slice(dec, 1, 1 + dec[0] as int)
  }

  /** The `[len][data][pad]` block of at most 15 data bytes. */
  function Frame(data: seq<byte>): Block
    requires |data| < BLOCK_SIZE
  {
    PadToBlockSize([|data|] + data)
  }

  /** Un-framing inverts framing. */
  lemma UnframeFrame(data: seq<byte>)
    requires |data| < BLOCK_SIZE
    ensures Unframe(Frame(data)) == data
  {
    var block := Frame(data);
    assert block[0] == |data|;
    var r := Unframe(block);
    forall k | 0 <= k < |data|
      ensures r[k] == data[k]
    {
      assert block[1 + k] == ([|data|] + data)[1 + k];
    }
  }

  /** What `extract_bitmap_data` returns for a list of encrypted blocks. */
  function Extracted(c: Cipher, blocks: seq<Block>): (r: seq<byte>)
    ensures |r| == ExtractedLength(c, blocks)
  {
    if blocks == [] then [] else Extracted(c, blocks[..|blocks| - 1]) + Unframe(c.decrypt(blocks[|blocks| - 1]))
  }

  /** The sum of `min(length byte, 15)` over the decrypted blocks. */
  function ExtractedLength(c: Cipher, blocks: seq<Block>): nat {
    if blocks == [] then 0
    else ExtractedLength(c, blocks[..|blocks| - 1]) + Min(c.decrypt(blocks[|blocks| - 1])[0], BLOCK_SIZE - 1)
  }

  /** `extract_bitmap_data`: decrypt each block and append its data. */
  method ExtractBitmapData(c: Cipher, blocks: seq<Block>) returns (allData: seq<byte>)
    ensures allData == Extracted(c, blocks)
  {
    allData := [];
    for i := 0 to |blocks|
      invariant allData == Extracted(c, blocks[..i])
    {
      var decrypted := c.decrypt(blocks[i]);
      var data := Unframe(decrypted);
      assert blocks[..i + 1][..i] == blocks[..i];
      allData := allData + data;
    }
    assert blocks[..|blocks|] == blocks;
  }

  /** The blocks that a sender framed and encrypted one chunk at a time. */
  function Encrypted(c: Cipher, chunks: seq<seq<byte>>): (r: seq<Block>)
    requires forall i :: 0 <= i < |chunks| ==> |chunks[i]| < BLOCK_SIZE
    ensures |r| == |chunks|
    ensures forall i :: 0 <= i < |chunks| ==> r[i] == c.encrypt(Frame(chunks[i]))
  {
    if chunks == [] then []
    else Encrypted(c, chunks[..|chunks| - 1]) + [c.encrypt(Frame(chunks[|chunks| - 1]))]
  }

  /** One more framed chunk extracts to that chunk after the rest. */
  lemma ExtractStep(c: Cipher, init: seq<seq<byte>>, last: seq<byte>)
    requires Bijective(c)
    requires forall i :: 0 <= i < |init| ==> |init[i]| < BLOCK_SIZE
    requires |last| < BLOCK_SIZE
    ensures Extracted(c, Encrypted(c, init + [last])) == Extracted(c, Encrypted(c, init)) + last
  {
    var chunks := init + [last];
    var n := |init|;
    assert chunks[..n] == init && chunks[n] == last;
    var blocks := Encrypted(c, chunks);
    var frame := Frame(last);
    assert blocks[..n] == Encrypted(c, init);
    assert blocks[n] == c.encrypt(frame);
    assert c.decrypt(c.encrypt(frame)) == frame;
    UnframeFrame(last);
  }

  /** Extraction recovers exactly the chunks that were framed and
      encrypted, in order, when the cipher is bijective. */
  lemma {:induction false} ExtractEncrypted(c: Cipher, chunks: seq<seq<byte>>)
    requires Bijective(c)
    requires forall i :: 0 <= i < |chunks| ==> |chunks[i]| < BLOCK_SIZE
    ensures Extracted(c, Encrypted(c, chunks)) == Flatten(chunks)
    decreases |chunks|
  {
    if chunks != [] {
      var n := |chunks| - 1;
      var init, last := chunks[..n], chunks[n];
      assert init + [last] == chunks;
      ExtractEncrypted(c, init);
      ExtractStep(c, init, last);
      FlattenAppend(init, last);
    }
  }
}
