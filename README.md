# BLE LED badge protocol, modelled in Dafny

This project models the wire protocol of the ble-led-badge controller for
the "Shining Masks" style Bluetooth LED name badge. The model has five
parts.

- **Command codec** (`Encryption`, `Commands`). A command is framed as
  `[len(payload)] ++ ASCII opcode ++ argument bytes`. The frame is
  zero-padded, or silently cut, to one 16-byte block and encrypted with
  AES-128-ECB under a fixed key. Image data is cut into unencrypted
  `[len(chunk) + 1][counter] ++ chunk` upload packets of at most 98 data
  bytes each.
- **Native segment rasterizer** (`ImageSegments`). A 12 x 48 pixel grid
  becomes 8 segments of 9 bytes each. Rows 0-7 of a column fill one byte.
  Rows 8-11 of two neighbouring columns share a byte, one column per
  nibble. `get_pixel` reads a pixel back out.
- **The `Badge` controller** (`BadgeController`). The controller is a class
  whose state is:
  - the client;
  - the notification callback;
  - the FIFO notification queue;
  - the trace of GATT writes made;
  - the trace of callback deliveries.

  Upload sequencing (DATS, packets, DATCP, then MODE/LIGHT/SPEED) is
  stated over that write trace.
- **Trace decoders**:
  - `Btsnoop` parses btsnoop capture files: the file header, records, the
    HCI ACL header, the L2CAP basic header, ATT PDUs, and the record walk
    of `analyze_trace`.
  - `AnalyzeBitmap`, `BadgeTrace` and `AlphabetTrace` un-frame decrypted
    `[len][data][pad]` blocks and scan raw captures for ATT writes.
  - `AlphabetTrace` also models the font-extraction steps.
- **Experimental bitmap builders** (`ExperimentBitmap`, `DirectImage`).
  These cover text rendered with a 12-row font glyph by glyph or row by
  row, solid and striped test patterns, and the "wang" header plus 16-byte
  packets of `build_wang_packets`.

Shared definitions live in `Bytes` and `Protocol`:
- the byte type and 16-byte blocks;
- `Result`/`Option` for the exceptions the Python code raises;
- Python's clamping slice;
- the little- and big-endian integer readers;
- `BLOCK_SIZE`, `MAX_IMAGE_PAYLOAD` and the AES key.

AES is not modelled. A `Cipher` is any pair of functions on 16-byte
blocks. `Bijective(c)`, meaning decryption undoes encryption and the other
way round, is the only thing assumed of it. It is passed as a precondition
wherever a result depends on it.

Each Python exception becomes an `Err` of `Bytes.Error`:
- a `ValueError` from `bytes([...])` on a value outside 0..255 is
  `ByteOutOfRange`;
- a non-ASCII opcode is `NotAscii`;
- ECB input that is not a whole number of blocks is `NotBlockMultiple`;
- `RuntimeError("Not connected")` is `NotConnected`;
- a missing `handle` key is `MissingKey`;
- a `struct.error` on a short slice is `ShortUnpack`;
- the btsnoop parser's `ValueError`s are `HeaderTooShort`,
  `BadIdentification` and `ShortRecord`.

## Model

| member | source | states |
|---|---|---|
| Encryption.PadToBlockSize | badge_controller/encryption.py:12-16 | The result is exactly one 16-byte block. Byte i is input byte i where there is one and zero otherwise, so short input is zero-extended and long input keeps its first 16 bytes. A 16-byte input comes back unchanged. |
| Encryption.PadIdempotent | badge_controller/encryption.py:12-16 | Padding an already padded block changes nothing. |
| Encryption.PadShape | badge_controller/encryption.py:12-16 | Input of at most 16 bytes is followed by exactly 16 - n zeros. Input of at least 16 bytes is cut to its 16-byte prefix. |
| Encryption.EncryptCommand | badge_controller/encryption.py:19-31 | Under a bijective cipher, the block decrypts to the padded plaintext. |
| Encryption.DecryptBlocks | badge_controller/encryption.py:34-45 | ECB decryption of whole blocks keeps the length of the data. |
| Encryption.DecryptResponse | badge_controller/encryption.py:34-45 | Fails with NotBlockMultiple exactly when the length is not a multiple of 16. Otherwise the plaintext has the same length as the input. |
| Encryption.DecryptEncrypt | badge_controller/encryption.py:19-45 | Under a bijective cipher, decrypting what `encrypt_command(d)` produced succeeds and gives `pad_to_block_size(d)`. |
| Encryption.Ascii | badge_controller/encryption.py:61 | ASCII encoding keeps the length, and byte i is the code of character i. |
| Encryption.Plaintext | badge_controller/encryption.py:48-69 | Succeeds iff the opcode is ASCII, every argument is a byte and the payload is under 256 bytes. Otherwise it fails with NotAscii for an opcode that is not ASCII, and with ByteOutOfRange for a bad argument (checked after the opcode). On success, byte 0 is the payload length, then the opcode's character codes, then the arguments. |
| Encryption.BuildEncryptedPacket | badge_controller/encryption.py:48-69 | Fails exactly when the frame cannot be built, with the same error. Under a bijective cipher, the packet decrypts to the padded frame. |
| Encryption.ShortCommandFrame | badge_controller/encryption.py:61-69 | When `1 + len(payload) <= 16`, the packet decrypts to `[len] ++ ascii(cmd) ++ args` followed by zeros. |
| Encryption.LongCommandTruncated | badge_controller/encryption.py:61-69 | For a payload of 16..255 bytes, the length byte still counts the whole payload but only its first 15 bytes are sent. The packet is built without error. |
| Encryption.PacketInjective | badge_controller/encryption.py:29-31 | Under a bijective cipher, two commands that fit in one block give the same packet iff their payload bytes are equal. With no IV, equal commands give equal packets. |
| Encryption.LedOnBlock | badge_controller/encryption.py:48-69 | "LEDON" frames as `05 4C 45 44 4F 4E` followed by ten zeros. |
| Commands.ScrollModeValue | badge_controller/commands.py:24-28 | Each scroll mode's wire value is 1, 3 or 4. |
| Commands.ScrollModeValuesDistinct | badge_controller/commands.py:24-28 | The three modes have three different wire values (STATIC=1, LEFT=3, RIGHT=4). |
| Commands.OpcodePacket | badge_controller/encryption.py:48-69 | For an ASCII opcode, the packet is `[len(op) + len(args)] ++ op ++ args`, padded and encrypted, or ByteOutOfRange when an argument is not a byte or the payload is too long. |
| Commands.Simple | badge_controller/encryption.py:48-69 | An opcode with no argument always builds the packet `[len(op)] ++ op`. |
| Commands.OneArg | badge_controller/encryption.py:48-69 | An opcode with one argument builds `[len(op) + 1] ++ op ++ [arg]`, or fails with ByteOutOfRange for an argument outside 0..255. |
| Commands.LedOn | badge_controller/commands.py:35-43 | The packet is `05 'LEDON'` padded and encrypted. |
| Commands.LedOff | badge_controller/commands.py:45-53 | The packet is `06 'LEDOFF'` padded and encrypted. |
| Commands.Check | badge_controller/commands.py:149-159 | The packet is `04 'CHEC'` padded and encrypted. |
| Commands.Light | badge_controller/commands.py:55-66 | The packet is `06 'LIGHT' brightness`, or ByteOutOfRange for a brightness outside 0..255. |
| Commands.Mode | badge_controller/commands.py:68-80 | The packet is `05 'MODE' mode`, or ByteOutOfRange. |
| Commands.Image | badge_controller/commands.py:82-93 | The packet is `05 'IMAG' id`, or ByteOutOfRange. |
| Commands.Animation | badge_controller/commands.py:95-106 | The packet is `05 'ANIM' id`, or ByteOutOfRange. |
| Commands.Speed | badge_controller/commands.py:108-119 | The packet is `06 'SPEED' level`, or ByteOutOfRange. |
| Commands.Counted | badge_controller/commands.py:121-147 | The count of ids precedes the ids, so the length byte is 5 + n. Succeeds iff n <= 250 and every id is a byte. |
| Commands.Play | badge_controller/commands.py:121-133 | The packet is `[5 + n] 'PLAY' n id_1..id_n`. Succeeds iff n <= 250 and all ids are bytes; otherwise ByteOutOfRange. |
| Commands.Delete | badge_controller/commands.py:135-147 | The packet is `[5 + n] 'DELE' n id_1..id_n`, with the same success condition as Play. |
| Commands.LengthBytes | badge_controller/commands.py:172-173 | The two length bytes satisfy `hi * 256 + lo == length mod 65536`, for any integer length. |
| Commands.DataStart | badge_controller/commands.py:161-177 | The packet is `09 'DATS' hi lo u1 u2 u3`. The length never fails because it is masked. The packet is built iff the three unknown values are bytes. |
| Commands.DataStartDefault | badge_controller/commands.py:161-177 | With the unknowns at their default 0, DATS always succeeds with `09 'DATS' hi lo 00 00 00`. |
| Commands.Payloads | badge_controller/commands.py:203-212 | Dropping the two header bytes of each packet keeps one chunk per packet. |
| Commands.PacketsFromSpec | badge_controller/commands.py:184-212 | From any offset, with packets numbered from `counter`: the packetizer fails with ByteOutOfRange exactly when a counter would pass 255. Otherwise it gives ceil(remaining / 98) packets. Packet i is `[len(chunk) + 1, counter + i] ++ chunk` with 1..98 data bytes. Every packet but the last is full, and the chunks concatenated are the remaining data. |
| Commands.PacketsFromOutcome | badge_controller/commands.py:199-212 | The packetizer fails iff the bytes left after `offset` need more packets than the counters `counter..255` can number. The only error is ByteOutOfRange. |
| Commands.PacketsFromShape | badge_controller/commands.py:203-212 | On success there are ceil(remaining / 98) packets. Packet i carries its length byte and the counter `counter + i` followed by 1..98 data bytes, and every packet but the last is full. |
| Commands.PacketsFromFlatten | badge_controller/commands.py:203-212 | On success the packets' chunks, concatenated in order, are exactly the data from `offset` on. |
| Commands.PacketsSpec | badge_controller/commands.py:184-212 | `build_packets` fails iff the data is longer than 256 * 98 bytes. Empty data gives no packets. Packet i carries index i and its own length minus one, and the chunks concatenated in order are the image data. |
| Commands.PacketsOutcome | badge_controller/commands.py:184-212 | Success iff at most 256 packets are needed; the error is ByteOutOfRange. |
| Commands.BuildPackets | badge_controller/commands.py:184-212 | The `while` loop over offset and counter returns what the packetizer specification gives, so PacketsSpec holds of it. |
| ImageSegments.RowByteIndex | examples/test_image_upload.py:83-84 | The row byte of each local column lies inside the 9-byte segment. |
| ImageSegments.NibbleByteIndex | examples/test_image_upload.py:93-94 | The nibble byte of each local column lies inside the 9-byte segment. |
| ImageSegments.PackColumn | examples/test_image_upload.py:97-108 | Packing column n sets its row byte. It touches no byte other than its row byte and its nibble byte. |
| ImageSegments.SegmentsAt | examples/test_image_upload.py:112-119 | The 8-segment assembly has 9n bytes, and bytes 9s..9s+8 are segment s. |
| ImageSegments.SegmentsLength | examples/test_image_upload.py:112-119 | n segments take 9n bytes. |
| ImageSegments.PackNibbleByte | examples/test_image_upload.py:93-108 | The shared nibble byte holds the even column's nibble in its upper half and the odd column's nibble in its lower half, without overlap. |
| ImageSegments.SegmentRowByte | examples/test_image_upload.py:83-90 | For rows 0-7, byte `[0,2,3,5,6,8][c]` of a segment is column c's row byte, with bit 7 - row set iff the pixel is on. |
| ImageSegments.SegmentNibbleByte | examples/test_image_upload.py:98-108 | Byte `[1,1,4,4,7,7][c]` of a segment holds the nibble of the pair's even column in its upper half and the odd column's nibble in its lower half. |
| ImageSegments.PackLayout6 | examples/test_image_upload.py:77-110 | After all six columns are packed, the buffer is the documented layout: row bytes at 0, 2, 3, 5, 6, 8 and the shared nibble bytes at 1, 4, 7. |
| ImageSegments.PackNext | examples/test_image_upload.py:79-108 | Packing the first n + 1 columns is packing the first n, then column n. |
| ImageSegments.HighRowsStep | examples/test_image_upload.py:84-86 | One row of the `byte_val` loop ors in the bit of row r exactly when pixel r is on. |
| ImageSegments.LowRowsStep | examples/test_image_upload.py:94-96 | One row of the `nibble_val` loop ors in bit 11 - r exactly when pixel r is on. |
| ImageSegments.HighRowsBit | examples/test_image_upload.py:83-86 | Bit 7 - r of a column's row byte is set iff r is among the rows already packed and pixel (r, col) is on. |
| ImageSegments.LowRowsBit | examples/test_image_upload.py:93-96 | A column's nibble stays below 16. Its bit 11 - r is set iff row r is already packed and pixel (r, col) is on. |
| ImageSegments.ShiftedBit | examples/test_image_upload.py:141 | Reading a bit as `(byte >> bit) & 1` gives 1 iff that bit of the byte is set. |
| ImageSegments.NibbleBit | examples/test_image_upload.py:139-145 | In a shared byte holding nibble hi above nibble lo, shifting by `7 - (row - 8)` reads row `row` of the upper nibble, and shifting by `3 - (row - 8)` reads it from the lower nibble. |
| ImageSegments.NibbleRead | examples/test_image_upload.py:138-145 | `get_pixel` on rows 8-11 reads the even column from the upper nibble and the odd column from the lower nibble of the shared byte. |
| ImageSegments.NibblePixelInSegment | examples/test_image_upload.py:93-145 | For rows 8-11, the pixel read back from an encoded segment is the pixel that was encoded. |
| ImageSegments.RowPixelInSegment | examples/test_image_upload.py:83-90 | For rows 0-7, the pixel read back from an encoded segment is the pixel that was encoded. |
| ImageSegments.SegmentSlice | examples/test_image_upload.py:112-119 | The encoded image has 72 bytes, and bytes 9s..9s+8 are exactly segment s. |
| ImageSegments.GetPixel | examples/test_image_upload.py:128-145 | `get_pixel` returns a single bit, 0 or 1. |
| ImageSegments.GetPixelRoundTrip | examples/test_image_upload.py:75-145 | Round trip: `get_pixel(encoded, s, col, row)` is 1 iff pixel `(row, 6s + col)` is on, for every s < 8, col < 6 and row < 12. The image is 72 bytes. |
| ImageSegments.GetPixelInSegment | examples/test_image_upload.py:128-145 | In a lone segment, the pixel read back is the pixel that was encoded. |
| ImageSegments.ColumnByte | examples/test_image_upload.py:83-90 | The or-assignment loop over rows 0-7 computes the column's row byte: bit 7 - r is set iff pixel r is on. |
| ImageSegments.ColumnNibble | examples/test_image_upload.py:93-96 | The or-assignment loop over rows 8-11 computes the column's nibble: bit 11 - r is set iff pixel r is on. |
| ImageSegments.EncodeSegment | examples/test_image_upload.py:75-110 | `encode_segment` fills the zeroed 9-element list in place and returns exactly the specified segment. |
| ImageSegments.EncodeColumn | examples/test_image_upload.py:79-108 | One pass of the column loop stores the column's row byte and ors its nibble into the shared byte, exactly as the segment packing specifies. |
| ImageSegments.SegmentLocal | examples/test_image_upload.py:75-110 | A segment depends only on its own six columns: grids that agree there give the same 9 bytes. |
| ImageSegments.RasterizedSegment | examples/test_image_upload.py:112-119 | Bytes 9s..9s+8 of the image are segment s. Changing any column outside 6s..6s+5 leaves them unchanged. |
| ImageSegments.BlankSegment | examples/test_image_upload.py:77-108 | Six columns with no pixel on encode to nine zero bytes. |
| ImageSegments.NormalizeRow | examples/test_image_upload.py:54-60 | A text row becomes exactly 48 pixels. Pixel c is on iff the text has a '1' at c, so short rows are padded with off pixels and long rows are cut. |
| ImageSegments.NormalizeRows | examples/test_image_upload.py:53-60 | The row loop builds the normalised grid, one row per string. |
| ImageSegments.EncodeSegments | examples/test_image_upload.py:112-117 | The segment loop produces the 72-byte rasterisation: the 8 segments in order. |
| ImageSegments.CreateBitmap | examples/test_image_upload.py:23-119 | For any 12-row image, the normalised grid covers 48 columns, and the output is its 8 segments concatenated: 72 bytes. |
| ImageSegments.CreateSunglassesBitmap | examples/test_image_upload.py:23-119 | The sunglasses image encodes to the 72-byte rasterisation of its normalised rows. |
| BadgeController.Dequeued | badge_controller/badge.py:109-112 | The queue after `get()` loses exactly its oldest element, if it has one. |
| BadgeController.ImageWrites | badge_controller/badge.py:235-238 | One IMAGE_UPLOAD write without response per packet, in packet order. |
| BadgeController.ImageValuesAppend | badge_controller/badge.py:228-241 | Selecting the IMAGE_UPLOAD writes distributes over concatenation of traces. |
| BadgeController.ImageValuesOfImageWrites | badge_controller/badge.py:235-238 | The IMAGE_UPLOAD values of the packet writes are the packets themselves. |
| BadgeController.UploadCarriesImage | badge_controller/badge.py:217-244 | The bytes written to IMAGE_UPLOAD during an upload, with their two header bytes dropped and concatenated in write order, are exactly the image data. The first write is DATS carrying the data length. |
| BadgeController.UploadImageValues | badge_controller/badge.py:228-241 | For image data that fits in 256 packets, the values written to IMAGE_UPLOAD during an upload are exactly the `build_packets` packets. |
| BadgeController.Badge.constructor | badge_controller/badge.py:29-39 | A new badge has no client, no callback, an empty unbounded queue and no writes. |
| BadgeController.Badge.IsConnected | badge_controller/badge.py:51-53 | True iff a client is held and its link is connected. |
| BadgeController.Badge.Connect | badge_controller/badge.py:55-64 | After `connect` the badge is connected, and nothing else changes. |
| BadgeController.Badge.Disconnect | badge_controller/badge.py:66-74 | After `disconnect` the client is gone and `is_connected` is false, and nothing else changes. |
| BadgeController.Badge.DropLink | badge_controller/badge.py:51-53 | When a held client loses its link, the client stays but `is_connected` is false; nothing else changes. |
| BadgeController.Badge.SendCommand | badge_controller/badge.py:114-122 | With no client, the result is NotConnected and nothing is written. Otherwise exactly one COMMAND write with response is appended. |
| BadgeController.Badge.SendImageData | badge_controller/badge.py:124-134 | With no client, the result is NotConnected and nothing is written. Otherwise exactly one IMAGE_UPLOAD write without response is appended. |
| BadgeController.Badge.HandleNotification | badge_controller/badge.py:76-88 | The notification is decrypted. The plaintext goes to the callback, if one is set, and is then queued unless the queue is full. A notification that is not a whole number of blocks changes nothing. |
| BadgeController.Badge.OnNotification | badge_controller/badge.py:90-97 | The callback is replaced; None clears it. |
| BadgeController.Badge.WaitNotification | badge_controller/badge.py:99-112 | Returns and removes the oldest queued notification, or None on an empty queue (the timeout). |
| BadgeController.Badge.SendBuilt | badge_controller/badge.py:144-189 | A builder error is raised before anything is written. A built packet is sent as `_send_command` sends it. |
| BadgeController.Badge.SetScrollMode | badge_controller/badge.py:153-160 | Writes the MODE packet, or raises ByteOutOfRange or NotConnected with no write. |
| BadgeController.Badge.SetBrightness | badge_controller/badge.py:144-151 | Writes the LIGHT packet, or raises ByteOutOfRange or NotConnected with no write. |
| BadgeController.Badge.SetSpeed | badge_controller/badge.py:180-187 | Writes the SPEED packet, or raises ByteOutOfRange or NotConnected with no write. |
| BadgeController.Badge.CheckImages | badge_controller/badge.py:207-215 | Sends CHEC, then returns the oldest queued notification or None. Without a client it writes nothing. |
| BadgeController.Badge.SendPackets | badge_controller/badge.py:235-238 | Every packet in order becomes one IMAGE_UPLOAD write. |
| BadgeController.Badge.UploadImage | badge_controller/badge.py:217-244 | The writes are DATS(len), then every `build_packets` packet in order to IMAGE_UPLOAD, then DATCP. The result is true iff a notification was waiting, and the packets are sent either way. Too much data fails after DATS. Without a client nothing is written. |
| BadgeController.Badge.FinishUpload | badge_controller/badge.py:235-241 | Sends every packet to IMAGE_UPLOAD in order, then DATCP on the command characteristic. Nothing else in the badge state changes. |
| BadgeController.Badge.SendText | badge_controller/badge.py:246-284 | Uploads the rendered text. Only when the upload was acknowledged does it then send MODE, LIGHT and SPEED with the given values, in that order, up to the first value that is not a byte. It returns the upload result. Data too large for 256 packets fails after the DATS write alone. With a client, exactly one notification is taken from the queue (by the upload); without one, nothing is written and the queue is unchanged. |
| BadgeController.Badge.SendTextDefault | badge_controller/badge.py:246-252 | With the default arguments, an acknowledged upload is followed by MODE 3 (scroll left), LIGHT 128 and SPEED 50, and the result is whether the upload was acknowledged. |
| BadgeController.ImageWritesAppend | badge_controller/badge.py:235-238 | One more packet adds one more IMAGE_UPLOAD write at the end. |
| Bytes.Slice | badge_controller/commands.py:204 | A Python slice clamps both bounds to the sequence and is empty when they cross. |
| Bytes.U16LE | initial_analysis/parse_btsnoop.py:100-101 | A little-endian u16 is below 65536. |
| Btsnoop.ParseHeader | initial_analysis/parse_btsnoop.py:35-47 | Succeeds iff there are at least 16 bytes and the first 8 are `btsnoop\0`. Otherwise the error is HeaderTooShort or BadIdentification. Version and datalink are the big-endian u32s at bytes 8-11 and 12-15. |
| Btsnoop.ParseRecord | initial_analysis/parse_btsnoop.py:50-61 | Fails with ShortRecord iff fewer than 24 bytes remain. Otherwise the next offset is `offset + 24 + incl_len`, strictly greater than offset. The data is the `incl_len` bytes after the header, or fewer when the file is cut short. |
| Btsnoop.ParseHci | initial_analysis/parse_btsnoop.py:64-92 | The packet is ACL iff the type byte is 0x02 and there are more than 5 bytes. The connection handle is the LE u16 masked to 12 bits, and the payload is the sliced data. |
| Btsnoop.ParseL2cap | initial_analysis/parse_btsnoop.py:95-110 | None iff there are fewer than 4 bytes. Length and CID are little-endian, and the channel name is ATT iff the CID is 4. |
| Btsnoop.ParseAtt | initial_analysis/parse_btsnoop.py:113-160 | None iff the input is empty. The data is everything after the opcode. Handle and value are present iff the opcode is 0x12 or 0x52 and there are at least 3 bytes. |
| Btsnoop.RecordAtt | initial_analysis/parse_btsnoop.py:200-221 | A record yields an ATT PDU iff it is ACL data of at least 4 bytes whose L2CAP CID is 4 and whose L2CAP payload is not empty. The PDU is then exactly what `parse_att` gives for that payload. |
| Btsnoop.WalkSpec | initial_analysis/parse_btsnoop.py:178-249 | Stated over the records the walk reads (up to the end of the data or the first that does not parse): it fails with MissingKey iff one of them is a write PDU too short to carry a handle. Otherwise it counts them all. Every ATT operation is the entry of an ATT record, and every ATT record has its entry, numbered by its position, with direction `recv` iff flag bit 0 is set, in record order. The writes are exactly the 0x12/0x52 operations among them. |
| Btsnoop.WalkError | initial_analysis/parse_btsnoop.py:183-247 | The walk fails iff one of the records it reads is a write PDU without a handle, and the error is MissingKey (the uncaught KeyError). |
| Btsnoop.WalkOps | initial_analysis/parse_btsnoop.py:183-230 | A successful walk counts every record it reads, and its ATT operations are the entries of its ATT records in order. |
| Btsnoop.WalkStep | initial_analysis/parse_btsnoop.py:183-230 | One record of the loop: the parsed record is the first of those the walk reads. A non-ATT record is skipped with only the count advancing. A write PDU too short for a handle fails with MissingKey. Any other ATT record adds its entry, and a 0x12/0x52 entry is also a write. |
| Btsnoop.AnyShortWritePrepend | initial_analysis/parse_btsnoop.py:225-229 | A list of records holds a handle-less write iff its first record is one or the rest holds one. |
| Btsnoop.WalkWellFormed | initial_analysis/parse_btsnoop.py:183-247 | A successful walk lists its operations in increasing record order, every write among them carries its handle and value, and the writes are the write operations among them. |
| Btsnoop.OpsOfSound | initial_analysis/parse_btsnoop.py:222-230 | Every entry belongs to an ATT record and carries its position as the record number and its flag bit 0 as the direction. |
| Btsnoop.OpsOfComplete | initial_analysis/parse_btsnoop.py:222-230 | Every ATT record has its entry. |
| Btsnoop.WritesOfMembers | initial_analysis/parse_btsnoop.py:232-239 | The writes are exactly the entries of the operations with opcode 0x12 or 0x52. |
| Btsnoop.AnalyzeOutcome | initial_analysis/parse_btsnoop.py:163-249 | A bad header gives the header's error. Otherwise the analysis fails iff a record after the 16-byte header is a write PDU without a handle. When it succeeds it counts all those records, and its ATT operations are theirs, numbered from 1. |
| Btsnoop.AnalyzeTrace | initial_analysis/parse_btsnoop.py:163-249 | The record loop computes exactly the specified analysis, so AnalyzeOutcome and WalkSpec hold of it. |
| AnalyzeBitmap.Unframe | experiments/analyze_bitmap.py:39-41 | `decrypted[1:1+len]` has `min(len, 15)` bytes, byte k being block byte 1 + k. A length above 15 is clamped without error. |
| AnalyzeBitmap.UnframeFrame | experiments/analyze_bitmap.py:39-41 | Un-framing inverts the `[len][data][zero pad]` framing of up to 15 bytes. |
| AnalyzeBitmap.Extracted | experiments/analyze_bitmap.py:31-43 | The output length is the sum of `min(len_i, 15)`, and an empty block list gives empty output. |
| AnalyzeBitmap.ExtractBitmapData | experiments/analyze_bitmap.py:31-43 | The loop concatenates the un-framed data of every decrypted block, in block order. |
| AnalyzeBitmap.Encrypted | experiments/analyze_bitmap.py:31-43 | Block i is the encryption of the framed chunk i. |
| AnalyzeBitmap.ExtractStep | experiments/analyze_bitmap.py:35-41 | One more framed block adds exactly its chunk at the end of the extraction. |
| AnalyzeBitmap.ExtractEncrypted | experiments/analyze_bitmap.py:31-43 | Under a bijective cipher, extracting framed and encrypted chunks gives back exactly those chunks, concatenated in order. |
| BadgeTrace.HexDigit | experiments/parse_badge_trace.py:37 | A hex digit is '0'-'9' or 'a'-'f'. |
| BadgeTrace.HexByte | experiments/parse_badge_trace.py:37 | A byte prints as two lower-case hex digits, high nibble first. |
| BadgeTrace.Hex | experiments/parse_badge_trace.py:37 | `bytes.hex()` is two characters per byte, in order. |
| BadgeTrace.HexInjective | experiments/parse_badge_trace.py:37 | Different contents give different hex strings. |
| BadgeTrace.RenderByte | experiments/parse_badge_trace.py:36 | Bytes 32..126 print as themselves; every other byte prints as `[hh]`. |
| BadgeTrace.Render | experiments/parse_badge_trace.py:36 | Each byte renders as its own character or as a 4-character `[hh]`, so the rendering has between 1 and 4 characters per byte. |
| BadgeTrace.RenderPrintable | experiments/parse_badge_trace.py:36 | Printable content renders as the characters it encodes. |
| BadgeTrace.DecryptCommand | experiments/parse_badge_trace.py:22-39 | Input that is not 16 bytes gives "not 16 bytes" with its length. A decrypted length byte above 15 gives "invalid length". Otherwise the description holds the content `decrypted[1:len+1]` rendered, and the hex of the same content. |
| BadgeTrace.DescribeBuilt | experiments/parse_badge_trace.py:22-39 | A command built by `build_encrypted_packet` that fits in one block is described by its own payload bytes. |
| BadgeTrace.ValueEnd | experiments/parse_badge_trace.py:68-80 | A non-COMMAND value ends at the first badge-handle write marker after i+3, or at `min(i + 120, len)`. |
| BadgeTrace.ScanValueEnd | experiments/parse_badge_trace.py:68-80 | The inner `while` computes ValueEnd. |
| BadgeTrace.WriteAt | experiments/parse_badge_trace.py:47-86 | A write is reported at i iff the opcode is 0x12/0x52 and the LE handle is a badge handle (with a further condition for non-COMMAND handles). A COMMAND value is exactly the 16 bytes after the handle. Any other value runs from after the handle to ValueEnd (the next badge-handle marker or i+120), cut to 100 bytes, and is at least 1 byte long. |
| BadgeTrace.WritesFromSpec | experiments/parse_badge_trace.py:42-88 | The writes found from offset i on are in strictly increasing offset order, each exactly what WriteAt gives at its offset. Every write WriteAt finds at an offset the scan visits is among them. |
| BadgeTrace.WritesFromComplete | experiments/parse_badge_trace.py:47-86 | No write WriteAt finds at a visited offset is missing from the result. |
| BadgeTrace.ScanAt | experiments/parse_badge_trace.py:47-86 | One iteration of the scan computes WriteAt. |
| BadgeTrace.FindBadgeWrites | experiments/parse_badge_trace.py:42-88 | The scan loop returns the specified writes, so WritesFromSpec holds of it. |
| AlphabetTrace.DecryptBlock | initial_analysis/analyze_alphabet_trace.py:64-68 | None iff there are fewer than 16 bytes; otherwise the decryption of the first 16. |
| AlphabetTrace.AsciiReplace | initial_analysis/analyze_alphabet_trace.py:85 | ASCII decoding with replacement keeps bytes below 128 and maps each other byte to U+FFFD, one character per byte. |
| AlphabetTrace.DecodeCommand | initial_analysis/analyze_alphabet_trace.py:71-87 | None when the block is short or its length byte is above 15. Otherwise it decodes bytes 1..length. |
| AlphabetTrace.DecodeBuilt | initial_analysis/analyze_alphabet_trace.py:71-87 | Under a bijective cipher, decoding the packet of an ASCII command of at most 15 characters gives back the command. |
| AlphabetTrace.AttValueEnd | initial_analysis/analyze_alphabet_trace.py:43-50 | The value end lies between the scan start and `min(i + 120, len)`. When it is before that limit, it holds a stop opcode past i+5 followed by a handle of interest. The only error is ShortUnpack. |
| AlphabetTrace.AttValueEndSpec | initial_analysis/analyze_alphabet_trace.py:43-50 | The scan passes every position before the value end, so the end is the first stop opcode past i+5 followed by a handle of interest. It raises ShortUnpack iff the first stop it does not pass is one whose handle bytes would be read past the end of the data. |
| AlphabetTrace.ScanAttValueEnd | initial_analysis/analyze_alphabet_trace.py:43-50 | The inner `while` computes AttValueEnd. |
| AlphabetTrace.AttWriteAt | initial_analysis/analyze_alphabet_trace.py:35-59 | Nothing is reported unless the opcode is 0x12/0x52 and the handle is of interest. The step raises iff it is and AttValueEnd raises. A reported value is exactly the bytes from after the handle to AttValueEnd, at least 2 and ending before i+120. Conversely, an opcode 0x12/0x52, a handle of interest and a value end at least 2 bytes on always give a write. |
| AlphabetTrace.AttWritesFromSpec | initial_analysis/analyze_alphabet_trace.py:26-61 | A successful scan returns writes in strictly increasing offset order, each what AttWriteAt finds there, and every write AttWriteAt finds at a visited offset. It fails iff AttWriteAt raises at a visited offset, and the only error is ShortUnpack. |
| AlphabetTrace.AttWritesFromComplete | initial_analysis/analyze_alphabet_trace.py:33-59 | A successful scan misses no write AttWriteAt finds at a visited offset. |
| AlphabetTrace.AttWritesFromError | initial_analysis/analyze_alphabet_trace.py:33-59 | The scan fails iff AttWriteAt raises at one of the offsets it visits. |
| AlphabetTrace.ScanAttAt | initial_analysis/analyze_alphabet_trace.py:35-59 | One iteration of the scan computes AttWriteAt. |
| AlphabetTrace.FindAttWrites | initial_analysis/analyze_alphabet_trace.py:26-61 | The scan loop returns the specified writes, so AttWritesFromSpec holds of it. |
| AlphabetTrace.Backtrack | initial_analysis/analyze_alphabet_trace.py:243-245 | The backtrack stops at the value start or after a byte that is not 0..4, and never moves before the value start. |
| AlphabetTrace.RawValueEnd | initial_analysis/analyze_alphabet_trace.py:232-247 | The value end never lies before the value start, nor past the scan limit (or the scan start when that is later). |
| AlphabetTrace.RawValueEndSpec | initial_analysis/analyze_alphabet_trace.py:232-247 | Only a position more than 10 bytes into the value can end it. The value ends at the first `12 09` or `52 09` boundary itself, or at the first "5oi" timestamp backed up over the bytes 0..4 before it (never before the value start). With neither before the limit `min(i + 103, len)`, it ends at the limit. |
| AlphabetTrace.RawValueEndStep | initial_analysis/analyze_alphabet_trace.py:236-246 | A position that is not a stop passes the scan on to the next one. |
| AlphabetTrace.RawValueEndStop | initial_analysis/analyze_alphabet_trace.py:236-245 | A boundary ends the value where it is, and a timestamp ends it where the back-up stops. |
| AlphabetTrace.RawValueEndLimit | initial_analysis/analyze_alphabet_trace.py:235-246 | Without a stop before the limit, the value ends at the limit. |
| AlphabetTrace.RawValueEndAt | initial_analysis/analyze_alphabet_trace.py:235-246 | The first stop before the limit decides the end. |
| AlphabetTrace.ScanRawValueEnd | initial_analysis/analyze_alphabet_trace.py:232-247 | The inner `while` computes RawValueEnd; its back-up before a timestamp is BackUp. |
| AlphabetTrace.BackUp | initial_analysis/analyze_alphabet_trace.py:243-244 | The back-up loop stops where Backtrack does: it steps back over bytes 0..4, never before the value start. |
| AlphabetTrace.RawWritesFromSpec | initial_analysis/analyze_alphabet_trace.py:213-259 | Only opcode 0x12 followed by the handle's lo/hi bytes matches, and every value is exactly 16 bytes. The scan resumes at the value end, so matches never overlap and offsets strictly increase. With no marker left it finds nothing. Otherwise its first marker gives the first write, iff that value has at least 16 bytes, and the scan goes on from where the value ends. |
| AlphabetTrace.RawWritesFromSkip | initial_analysis/analyze_alphabet_trace.py:228-257 | Offsets without a marker contribute nothing: the scan from i finds what the scan from the next marker finds. |
| AlphabetTrace.RawWritesFromSound | initial_analysis/analyze_alphabet_trace.py:222-257 | Every write found is a 0x12 match for the handle at its offset, its value is the 16 bytes after the match, offsets start at the scan start, and each is at least 19 past the one before (the matches never overlap). |
| AlphabetTrace.RawWritesFromFirst | initial_analysis/analyze_alphabet_trace.py:222-257 | From the first marker at or after i, the scan yields that marker's write iff its value reaches 16 bytes, then whatever the scan from the value end yields. |
| AlphabetTrace.ExtractWritesFromRaw | initial_analysis/analyze_alphabet_trace.py:213-259 | The scan loop returns the specified writes, so RawWritesFromSpec holds of it. |
| AlphabetTrace.FontContent | initial_analysis/analyze_alphabet_trace.py:333-342 | A block with length byte 0x0F and a non-letter byte 1 contributes its 15 data bytes. One with 0x06 and a non-letter contributes 6. All others contribute nothing. |
| AlphabetTrace.FontContentFrame | initial_analysis/analyze_alphabet_trace.py:333-342 | A framed chunk of 15 or 6 bytes that does not start with a letter is recovered whole. |
| AlphabetTrace.CollectFontBytes | initial_analysis/analyze_alphabet_trace.py:325-342 | The loop collects the font bytes of every value in order and counts the contributing blocks. Each counted block adds between 6 and 15 bytes. |
| AlphabetTrace.FontDictSpec | initial_analysis/analyze_alphabet_trace.py:364-374 | A character is in the dictionary iff one of its positions k has all 9 bytes `9k..9k+8`. Its entry is those 9 bytes for the last such position. |
| AlphabetTrace.FontDictKeys | initial_analysis/analyze_alphabet_trace.py:364-374 | A character is a key of the dictionary iff it occurs at some position k whose 9 bytes `9k..9k+8` exist. |
| AlphabetTrace.FontDictAt | initial_analysis/analyze_alphabet_trace.py:364-374 | If k is the last position of a character that has all 9 bytes, the character's entry is bytes `9k..9k+8`. |
| AlphabetTrace.BuildFontDict | initial_analysis/analyze_alphabet_trace.py:364-374 | The 9-byte slicing loop builds exactly that dictionary. |
| ExperimentBitmap.UpperChar | experiments/experiment_bitmap.py:36 | ASCII `upper()` maps a-z to A-Z and leaves every other character unchanged, so the result is never lower case. |
| ExperimentBitmap.Upper | experiments/experiment_bitmap.py:36 | `upper()` applies to every character and keeps the length. |
| ExperimentBitmap.Glyph | experiments/experiment_bitmap.py:38 | A glyph is 12 bytes: a character in the font gets its own glyph, and an unknown character gets the ' ' glyph. |
| ExperimentBitmap.ByChar | experiments/experiment_bitmap.py:34-40 | The glyph-by-glyph layout has 12 bytes per character. |
| ExperimentBitmap.ByCharAt | experiments/experiment_bitmap.py:34-40 | Byte `12k + row` is row `row` of the glyph of the upper-cased character k. |
| ExperimentBitmap.ByCharUpper | experiments/experiment_bitmap.py:36 | Lower-case text renders exactly like its upper-case form. |
| ExperimentBitmap.TextToBitmapByChar | experiments/experiment_bitmap.py:34-40 | The loop emits the glyph-by-glyph layout. |
| ExperimentBitmap.ByRow | experiments/experiment_bitmap.py:43-50 | The row-major layout also has 12n bytes. |
| ExperimentBitmap.Row | experiments/experiment_bitmap.py:47-49 | Row r holds row r of each glyph, in text order. |
| ExperimentBitmap.RowsFromAt | experiments/experiment_bitmap.py:43-50 | Byte `row * n + k` of the first rows is row `row` of glyph k. |
| ExperimentBitmap.ByRowTranspose | experiments/experiment_bitmap.py:43-50 | `out[r*n + k] == glyph_k[r]`: the row-major output is the transpose of the glyph-major one. |
| ExperimentBitmap.TextToBitmapByRow | experiments/experiment_bitmap.py:43-50 | The nested row/character loops emit the row-major layout. |
| ExperimentBitmap.RowBytes | experiments/experiment_bitmap.py:48-49 | The inner loop appends row `row` of every character's glyph, in text order. |
| ExperimentBitmap.Fill | experiments/experiment_bitmap.py:55 | n copies of one byte. |
| ExperimentBitmap.SolidPattern | experiments/experiment_bitmap.py:53-55 | `rows * cols` bytes all equal to the pattern. Raises ByteOutOfRange iff the pattern is not a byte and there is at least one byte to make. |
| ExperimentBitmap.SolidPatternDefault | experiments/experiment_bitmap.py:53-55 | With the default pattern 0xFF, `rows * cols` bytes, all 0xFF. |
| ExperimentBitmap.Stripes | experiments/experiment_bitmap.py:58-64 | The stripe pattern has `rows * cols` bytes. |
| ExperimentBitmap.StripesAt | experiments/experiment_bitmap.py:58-64 | Every byte of row r is 0xFF when r is even and 0x00 when r is odd. |
| ExperimentBitmap.StripePattern | experiments/experiment_bitmap.py:58-64 | The row loop emits the stripe pattern. |
| DirectImage.WangHeader | experiments/experiment_direct_image.py:33-41 | The header packet has "wang" in bytes 0-3 and the text length in byte 9, with every other byte zero. |
| DirectImage.ChunksLength | experiments/experiment_direct_image.py:50-58 | Cutting n bytes gives ceil(n / 16) packets. |
| DirectImage.ChunksFlatten | experiments/experiment_direct_image.py:50-58 | The packets concatenated are the bitmap followed by zeros up to a multiple of 16. |
| DirectImage.WangPacketsSpec | experiments/experiment_direct_image.py:28-60 | Fails with ByteOutOfRange iff the text is longer than 255. Otherwise there are `3 + ceil(12n / 16)` packets: the "wang" header with the length, two zero packets, then the 12-byte-per-character bitmap (with the ' ' fallback) and zero padding. |
| DirectImage.ChunkPackets | experiments/experiment_direct_image.py:50-58 | The packet loop cuts the bitmap into 16-byte packets, padding the last one. |
| DirectImage.HeaderBytes | experiments/experiment_direct_image.py:33-41 | Filling `bytearray(16)` by index gives the header packet. |
| DirectImage.WangHeaderBytes | experiments/experiment_direct_image.py:33-41 | The header packet is the 16 bytes `w a n g 0 0 0 0 0 len 0 0 0 0 0 0`. |
| DirectImage.BuildWangPackets | experiments/experiment_direct_image.py:28-60 | `build_wang_packets` returns the specified packets, so WangPacketsSpec holds of it. |

## Left out

- AES-128 itself (the cipher library) is not modelled. A `Cipher` is a parameter, and results that need decryption to undo encryption require `Bijective(c)`. The key in badge_controller/protocol.py is a constant the model does not use.
- The BLE transport is not modelled: scanning (`scan_for_badges`, `find_badge_by_name`), `start_notify`/`stop_notify`, the async context manager, event loops and sleeps. The client is reduced to "present, link up or down". Writes are recorded in a trace, and a timed wait becomes "take the oldest queued notification, or None when the queue is empty".
- A write on a client whose link has dropped would raise inside the BLE library; the model lets it succeed.
- BadgeController.Badge: `turn_on`, `turn_off`, `show_image`, `play_animation`, `play_sequence` and `delete_images` are not modelled as methods. Each is one `_send_command` of a builder modelled in `Commands`, the same shape as SetScrollMode.
- BadgeController.Badge: `send_raw_command` is not modelled as a method. It involves no builder: it passes the caller's pre-encrypted packet straight to `_send_command`, which is SendCommand with that packet.
- BadgeController.Badge.constructor: `Command.data_complete()` is called by `upload_image` but defined nowhere in badge_controller/commands.py. The DATCP block is therefore a constructor parameter, treated as an opaque block.
- BadgeController.Badge.SendText: `TextRenderer.render_text` is not part of this model and becomes the parameter `render`. The `image_slot` argument is accepted and unused, as in the source.
- Commands.ScrollMode: only STATIC, LEFT and RIGHT exist in badge_controller/commands.py. The UP/DOWN/SNOW members that the OSC server refers to are not defined there.
- The `Animation` enum names are not modelled, because `animation` takes any byte.
- Btsnoop.AnalyzeOutcome: on a bad header, `analyze_trace` prints the error and returns `None`; the model returns the header's error as an `Err` value instead, which carries the same information without the printing.
- Btsnoop: the textual opcode and handle names and all printing in `analyze_trace` are left out. So are the optional verbose listing, `compare_writes` and `main`. The model keeps the counts, the ATT operations and the writes, in order.
- Btsnoop.ParseHci is modelled as `parse_hci_packet` defines it. `analyze_trace` reads records as raw ACL data without an H4 type byte and does not call it (RecordAtt follows `analyze_trace`).
- AlphabetTrace: `analyze_trace`, `extract_bitmap_from_handle`, `visualize_char` and the printing and grouping in `main` are left out. The font filter and the 9-byte slicing are kept.
- AlphabetTrace.RawWritesFromSpec: `extract_writes_from_raw`'s comment also names Write Command 0x52, but the code matches only 0x12, and the model follows the code. Its `12 09`/`52 09` boundary test is hard-wired to handle 0x09 whatever handle is asked for, and that is modelled as written.
- BadgeTrace.WriteAt: the "fewer than 16 bytes" skip for COMMAND writes cannot trigger, because the scan only visits i < len - 20, so 16 bytes always follow the handle. The model states the 16-byte value unconditionally.
- BadgeTrace and AlphabetTrace: the printing parts of `main` (grouping by handle, the seen-block de-duplication) are left out.
- AnalyzeBitmap: `visualize_bitmap` and the module-level calls that print its output are left out; they only print.
- ExperimentBitmap.UpperChar: `str.upper` is modelled on ASCII letters only. Python also maps non-ASCII characters, sometimes into the font: `'ı'.upper()` is `'I'`, which gets the I glyph where the model gives the space glyph. Some characters grow: `'ß'.upper()` is `'SS'` and `'ﬁ'.upper()` is `'FI'`. Python's `text_to_bitmap_by_char("ß")` is then 24 bytes where ByChar gives 12, and `build_wang_packets("ß")` sends 5 packets where WangPacketsSpec states 4.
- ExperimentBitmap.Upper, ExperimentBitmap.ByChar, ExperimentBitmap.ByRow and DirectImage.WangPacketsSpec: their 12-bytes-per-character lengths and layouts hold only for text whose upper-casing maps each character to exactly one character, as ASCII text does.
- AnalyzeBitmap.ExtractBitmapData: `extract_bitmap_data` takes hex strings, and `bytes.fromhex` raises ValueError on bad hex. The model takes blocks already decoded, each exactly 16 bytes. In Python a string of several blocks is decrypted whole, and its first length byte (up to 255) can then take data from the later blocks. A length that is not a multiple of 16 makes the decryption raise. Neither case is modelled.
- ExperimentBitmap.SolidPattern and ExperimentBitmap.StripePattern take natural numbers for rows and columns, so negative counts are not modelled. In Python, `solid_pattern`'s length is decided by the product `rows * cols_bytes`, not by each count: one negative count gives empty output, but two negative counts give a positive product (rows=-2, cols_bytes=-3 gives 6 bytes of the pattern). `stripe_pattern` gives empty output for any negative count, since `range(rows)` or each row's `[val] * cols_bytes` is empty.
- The sending parts of experiment_bitmap.py and experiment_direct_image.py (`send_encrypted`, `send_image_data`, `upload_data`, `main`) are BLE I/O and are left out.
- The other "wang" builders in experiment_wang.py, experiment_ae01_wang.py, experiment_wang_via_dats.py and experiment_wang_encrypted.py are left out. They differ from `build_wang_packets` only in header byte positions or chunk size.
- `find_att_writes_simple` in parse_pklg.py is left out because it duplicates `find_att_writes`. The PKLG container format is not modelled.
- `print_bitmap_preview` is left out apart from its nested `get_pixel`.
