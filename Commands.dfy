/** The command builders of badge_controller/commands.py, each one
    `build_encrypted_packet` applied to a 4- or 5-letter opcode and its
    arguments, and `ImageUpload.build_packets`, which cuts image data into
    unencrypted `[len(chunk) + 1][counter] ++ chunk` packets of at most 98
    data bytes. */
module Commands {
  import opened Bytes
  import opened Protocol
  import opened Encryption

  /** `ScrollMode`: the three scroll modes the badge accepts. */
  datatype ScrollMode = Static | Left | Right

  function ScrollModeValue(m: ScrollMode): (v: byte)
    ensures v == 1 || v == 3 || v == 4
  {
    match m
    case Static => 1
    case Left => 3
    case Right => 4
  }

  /** The three modes have three different wire values. */
  lemma ScrollModeValuesDistinct(m1: ScrollMode, m2: ScrollMode)
    ensures ScrollModeValue(m1) == ScrollModeValue(m2) <==> m1 == m2
  {
  }

  // ---------------------------------------------------------------------
  // Opcodes, as the bytes of their ASCII spelling

  const LEDON: seq<byte> := [0x4C, 0x45, 0x44, 0x4F, 0x4E]
  const LEDOFF: seq<byte> := [0x4C, 0x45, 0x44, 0x4F, 0x46, 0x46]
  const LIGHT: seq<byte> := [0x4C, 0x49, 0x47, 0x48, 0x54]
  const MODE: seq<byte> := [0x4D, 0x4F, 0x44, 0x45]
  const IMAG: seq<byte> := [0x49, 0x4D, 0x41, 0x47]
  const ANIM: seq<byte> := [0x41, 0x4E, 0x49, 0x4D]
  const SPEED: seq<byte> := [0x53, 0x50, 0x45, 0x45, 0x44]
  const PLAY: seq<byte> := [0x50, 0x4C, 0x41, 0x59]
  const DELE: seq<byte> := [0x44, 0x45, 0x4C, 0x45]
  const CHEC: seq<byte> := [0x43, 0x48, 0x45, 0x43]
  const DATS: seq<byte> := [0x44, 0x41, 0x54, 0x53]

  /** The opcode string `op` is spelled by the bytes `code`. */
  predicate Spells(op: string, code: seq<byte>) {
    |op| == |code| && forall i :: 0 <= i < |op| ==> op[i] as int == code[i] && code[i] < 128
  }

  /** The block an opcode spelled by `code` produces with `args`: the
      frame `[len(payload)] ++ code ++ args`, padded and encrypted, or the
      error for an argument outside 0..255 or a payload over 255 bytes. */
  lemma OpcodePacket(c: Cipher, op: string, code: seq<byte>, args: seq<int>)
    requires Spells(op, code)
    ensures BuildEncryptedPacket(c, op, args) ==
              if AllBytes(args) && |code| + |args| < 256
              then Ok(c.encrypt(PadToBlockSize([|code| + |args|] + code + args)))
              else Err(ByteOutOfRange)
  {
    assert IsAscii(op);
    assert Ascii(op) == code;
    if AllBytes(args) && |code| + |args| < 256 {
      var payload := Ascii(op) + args;
      assert payload == code + args;
      assert [|payload|] + payload == [|code| + |args|] + code + args;
      assert Plaintext(op, args) == Ok([|code| + |args|] + code + args);
    } else {
      assert Plaintext(op, args) == Err(ByteOutOfRange);
    }
  }

  /** The packet of an opcode with no argument; it cannot fail. */
  function Simple(c: Cipher, op: string, code: seq<byte>): (r: Result<Block>)
    requires Spells(op, code) && |code| < 256
    ensures r == Ok(c.encrypt(PadToBlockSize([|code|] + code)))
  {
    OpcodePacket(c, op, code, []);
    assert [|code| + 0] + code + [] == [|code|] + code;
    BuildEncryptedPacket(c, op, [])
  }

  /** The packet of an opcode with one argument byte. */
  function OneArg(c: Cipher, op: string, code: seq<byte>, arg: int): (r: Result<Block>)
    requires Spells(op, code) && |code| < 255
    ensures IsByte(arg) ==> r == Ok(c.encrypt(PadToBlockSize([|code| + 1] + code + [arg])))
    ensures !IsByte(arg) ==> r == Err(ByteOutOfRange)
  {
    OpcodePacket(c, op, code, [arg]);
    assert AllBytes([arg]) <==> IsByte(arg) by {
      assert [arg][0] == arg;
    }
    BuildEncryptedPacket(c, op, [arg])
  }

  /** `led_on`: `05 'LEDON'`. */
  function LedOn(c: Cipher): (r: Result<Block>)
    ensures r == Ok(c.encrypt(PadToBlockSize([5] + LEDON)))
  {
    Simple(c, "LEDON", LEDON)
  }

  /** `led_off`: `06 'LEDOFF'`. */
  function LedOff(c: Cipher): (r: Result<Block>)
    ensures r == Ok(c.encrypt(PadToBlockSize([6] + LEDOFF)))
  {
    Simple(c, "LEDOFF", LEDOFF)
  }

  /** `check`: `04 'CHEC'`. */
  function Check(c: Cipher): (r: Result<Block>)
    ensures r == Ok(c.encrypt(PadToBlockSize([4] + CHEC)))
  {
    Simple(c, "CHEC", CHEC)
  }

  /** `light(brightness)`: `06 'LIGHT' brightness`. */
  function Light(c: Cipher, brightness: int): (r: Result<Block>)
    ensures IsByte(brightness) ==> r == Ok(c.encrypt(PadToBlockSize([6] + LIGHT + [brightness])))
    ensures !IsByte(brightness) ==> r == Err(ByteOutOfRange)
  {
    OneArg(c, "LIGHT", LIGHT, brightness)
  }

  /** `mode(scroll_mode)`: `05 'MODE' mode`. */
  function Mode(c: Cipher, scrollMode: int): (r: Result<Block>)
    ensures IsByte(scrollMode) ==> r == Ok(c.encrypt(PadToBlockSize([5] + MODE + [scrollMode])))
    ensures !IsByte(scrollMode) ==> r == Err(ByteOutOfRange)
  {
    OneArg(c, "MODE", MODE, scrollMode)
  }

  /** `image(image_id)`: `05 'IMAG' id`. */
  function Image(c: Cipher, imageId: int): (r: Result<Block>)
    ensures IsByte(imageId) ==> r == Ok(c.encrypt(PadToBlockSize([5] + IMAG + [imageId])))
    ensures !IsByte(imageId) ==> r == Err(ByteOutOfRange)
  {
    OneArg(c, "IMAG", IMAG, imageId)
  }

  /** `animation(anim_id)`: `05 'ANIM' id`. */
  function Animation(c: Cipher, animId: int): (r: Result<Block>)
    ensures IsByte(animId) ==> r == Ok(c.encrypt(PadToBlockSize([5] + ANIM + [animId])))
    ensures !IsByte(animId) ==> r == Err(ByteOutOfRange)
  {
    OneArg(c, "ANIM", ANIM, animId)
  }

  /** `speed(speed_level)`: `06 'SPEED' level`. */
  function Speed(c: Cipher, speedLevel: int): (r: Result<Block>)
    ensures IsByte(speedLevel) ==> r == Ok(c.encrypt(PadToBlockSize([6] + SPEED + [speedLevel])))
    ensures !IsByte(speedLevel) ==> r == Err(ByteOutOfRange)
  {
    OneArg(c, "SPEED", SPEED, speedLevel)
  }

  /** An opcode followed by a count byte and that many ids: the payload is
      5 + n bytes, so it fits its length byte only for n <= 250. */
  function Counted(c: Cipher, op: string, code: seq<byte>, ids: seq<int>): (r: Result<Block>)
    requires Spells(op, code) && |code| == 4
    ensures r.Ok? <==> |ids| <= 250 && AllBytes(ids)
    ensures r.Err? ==> r.error == ByteOutOfRange
    ensures r.Ok? ==> r.value == c.encrypt(PadToBlockSize([5 + |ids|] + code + [|ids|] + ids))
  {
    OpcodePacket(c, op, code, [|ids|] + ids);
    var args := [|ids|] + ids;
    assert AllBytes(args) <==> IsByte(|ids|) && AllBytes(ids) by {
      assert args[0] == |ids|;
      assert forall i :: 0 <= i < |ids| ==> ids[i] == args[i + 1];
      if IsByte(|ids|) && AllBytes(ids) {
        forall i | 0 <= i < |args|
          ensures IsByte(args[i])
        {
          if i > 0 {
            assert args[i] == ids[i - 1];
          }
        }
      }
    }
    assert [|code| + |[|ids|] + ids|] + code + ([|ids|] + ids) == [5 + |ids|] + code + [|ids|] + ids;
    BuildEncryptedPacket(c, op, [|ids|] + ids)
  }

  /** `play(image_ids)`: `'PLAY' n id_1 .. id_n` behind its length byte. */
  function Play(c: Cipher, imageIds: seq<int>): (r: Result<Block>)
    ensures r.Ok? <==> |imageIds| <= 250 && AllBytes(imageIds)
    ensures r.Err? ==> r.error == ByteOutOfRange
    ensures r.Ok? ==> r.value == c.encrypt(PadToBlockSize([5 + |imageIds|] + PLAY + [|imageIds|] + imageIds))
  {
    Counted(c, "PLAY", PLAY, imageIds)
  }

  /** `delete(image_ids)`: `'DELE' n id_1 .. id_n` behind its length byte. */
  function Delete(c: Cipher, imageIds: seq<int>): (r: Result<Block>)
    ensures r.Ok? <==> |imageIds| <= 250 && AllBytes(imageIds)
    ensures r.Err? ==> r.error == ByteOutOfRange
    ensures r.Ok? ==> r.value == c.encrypt(PadToBlockSize([5 + |imageIds|] + DELE + [|imageIds|] + imageIds))
  {
    Counted(c, "DELE", DELE, imageIds)
  }

  /** `(length >> 8) & 0xFF` and `length & 0xFF`: Python's shift floors and
      its mask keeps the low 8 bits of the two's-complement value, which
      for a positive divisor are Dafny's `/` and `%`. Together the two
      bytes are the length modulo 65536. */
  function LengthBytes(length: int): (hl: seq<byte>)
    ensures |hl| == 2 && hl[0] as int * 256 + hl[1] == length % 65536
  {
    LengthBytesSplit(length);
    [(length / 256) % 256, length % 256]
  }

  lemma LengthBytesSplit(length: int)
    ensures ((length / 256) % 256) * 256 + length % 256 == length % 65536
  {
    var q, r := length / 256, length % 256;
    assert length == q * 256 + r;
    var q2, r2 := q / 256, q % 256;
    assert q == q2 * 256 + r2;
    assert length == q2 * 65536 + (r2 * 256 + r);
    assert 0 <= r2 * 256 + r < 65536;
    ModUnique(length, q2, r2 * 256 + r);
  }

  /** The remainder modulo 65536 is the unique one in range. */
  lemma ModUnique(n: int, q: int, r: int)
    requires 0 <= r < 65536 && n == q * 65536 + r
    ensures n % 65536 == r
  {
  }

  /** `data_start(length, u1, u2, u3)`: `09 'DATS' hi lo u1 u2 u3`. The
      length never fails (it is masked); the three unknown bytes can. */
  function DataStart(c: Cipher, length: int, unknown1: int, unknown2: int, unknown3: int): (r: Result<Block>)
    ensures r.Ok? <==> IsByte(unknown1) && IsByte(unknown2) && IsByte(unknown3)
    ensures r.Err? ==> r.error == ByteOutOfRange
    ensures r.Ok? ==> r.value == c.encrypt(PadToBlockSize([9] + DATS + LengthBytes(length) + [unknown1, unknown2, unknown3]))
  {
    var args := LengthBytes(length) + [unknown1, unknown2, unknown3];
    OpcodePacket(c, "DATS", DATS, args);
    assert AllBytes(args) <==> IsByte(unknown1) && IsByte(unknown2) && IsByte(unknown3) by {
      assert args[2] == unknown1 && args[3] == unknown2 && args[4] == unknown3;
    }
    assert [|DATS| + |args|] + DATS + args == [9] + DATS + LengthBytes(length) + [unknown1, unknown2, unknown3];
    BuildEncryptedPacket(c, "DATS", args)
  }

  /** `data_start(length)` with the unknowns at their default 0. */
  function DataStartDefault(c: Cipher, length: int): (r: Result<Block>)
    ensures r.Ok?
    ensures r.value == c.encrypt(PadToBlockSize([9] + DATS + LengthBytes(length) + [0, 0, 0]))
  {
    DataStart(c, length, 0, 0, 0)
  }

  // ---------------------------------------------------------------------
  // Image upload packets

  /** The packets `build_packets` produces from `offset` on, the next one
      numbered `counter`, or the ValueError raised when a counter reaches
      256 and no longer fits in a byte. */
  function PacketsFrom(data: seq<byte>, offset: nat, counter: nat): (r: Result<seq<seq<byte>>>)
    decreases |data| - offset
  {
    if offset >= |data| then Ok([])
    else if counter > 255 then Err(ByteOutOfRange)
    else
      var chunk := Slice(data, offset, offset + MAX_IMAGE_PAYLOAD);
      var packet := [|chunk| + 1, counter] + chunk;
      match PacketsFrom(data, offset + MAX_IMAGE_PAYLOAD, counter + 1)
      case Ok(rest) => Ok([packet] + rest)
      case Err(e) => Err(e)
  }

  function Packets(data: seq<byte>): Result<seq<seq<byte>>> {
    PacketsFrom(data, 0, 0)
  }

  /** The data bytes of each packet, without its two header bytes. */
  function Payloads(ps: seq<seq<byte>>): (r: seq<seq<byte>>)
    ensures |r| == |ps|
    ensures forall i :: 0 <= i < |ps| ==> |ps[i]| < 2 || r[i] == ps[i][2..]
  {
    if ps == [] then []
    else [if |ps[0]| < 2 then [] else ps[0][2..]] + Payloads(ps[1..])
  }

  /** One well-formed upload packet: `[len(chunk) + 1][index] ++ chunk`
      with 1..98 data bytes. */
  predicate PacketShape(packet: seq<byte>, index: int) {
    3 <= |packet| <= MAX_IMAGE_PAYLOAD + 2 && packet[0] == |packet| - 1 && packet[1] == index
  }

  /** `build_packets` from `offset` on fails exactly when a 257th packet
      would be needed, and then with ByteOutOfRange. */
  lemma {:induction false} PacketsFromOutcome(data: seq<byte>, offset: nat, counter: nat)
    requires offset <= |data| || counter <= 256
    ensures var r := PacketsFrom(data, offset, counter);
      r.Ok? <==> offset >= |data| || |data| - offset <= (256 - counter) * MAX_IMAGE_PAYLOAD
    ensures var r := PacketsFrom(data, offset, counter);
      r.Err? ==> r.error == ByteOutOfRange
    decreases |data| - offset
  {
    if offset < |data| && counter <= 255 {
      PacketsFromOutcome(data, offset + MAX_IMAGE_PAYLOAD, counter + 1);
    }
  }

  /** When it succeeds, ceil(n / 98) packets for the n remaining bytes,
      numbered from `counter`, each well formed and every one full but the
      last. */
  lemma {:induction false} PacketsFromShape(data: seq<byte>, offset: nat, counter: nat)
    requires PacketsFrom(data, offset, counter).Ok?
    ensures var ps := PacketsFrom(data, offset, counter).value;
      (offset >= |data| ==> ps == []) &&
      (offset < |data| ==> (|ps| - 1) * MAX_IMAGE_PAYLOAD < |data| - offset <= |ps| * MAX_IMAGE_PAYLOAD) &&
      (forall i :: 0 <= i < |ps| ==> PacketShape(ps[i], counter + i)) &&
      (forall i :: 0 <= i < |ps| - 1 ==> |ps[i]| == MAX_IMAGE_PAYLOAD + 2)
    decreases |data| - offset
  {
    if offset < |data| {
      var chunk := Slice(data, offset, offset + MAX_IMAGE_PAYLOAD);
      var packet := [|chunk| + 1, counter] + chunk;
      var rest := PacketsFrom(data, offset + MAX_IMAGE_PAYLOAD, counter + 1).value;
      PacketsFromShape(data, offset + MAX_IMAGE_PAYLOAD, counter + 1);
      var ps := [packet] + rest;
      assert PacketsFrom(data, offset, counter).value == ps;
      forall i | 0 <= i < |ps|
        ensures PacketShape(ps[i], counter + i)
        ensures i < |ps| - 1 ==> |ps[i]| == MAX_IMAGE_PAYLOAD + 2
      {
        if i > 0 {
          assert ps[i] == rest[i - 1];
        }
      }
    }
  }

  /** When it succeeds, the packets' chunks concatenated in order give back
      the remaining data. */
  lemma {:induction false} PacketsFromFlatten(data: seq<byte>, offset: nat, counter: nat)
    requires PacketsFrom(data, offset, counter).Ok?
    ensures Flatten(Payloads(PacketsFrom(data, offset, counter).value)) ==
      (if offset >= |data| then [] else data[offset..])
    decreases |data| - offset
  {
    if offset < |data| {
      var chunk := Slice(data, offset, offset + MAX_IMAGE_PAYLOAD);
      var packet := [|chunk| + 1, counter] + chunk;
      var rest := PacketsFrom(data, offset + MAX_IMAGE_PAYLOAD, counter + 1).value;
      PacketsFromFlatten(data, offset + MAX_IMAGE_PAYLOAD, counter + 1);
      var ps := [packet] + rest;
      assert PacketsFrom(data, offset, counter).value == ps;
      assert Payloads(ps) == [chunk] + Payloads(rest);
      if offset + MAX_IMAGE_PAYLOAD >= |data| {
        assert chunk == data[offset..];
      } else {
        assert chunk + data[offset + MAX_IMAGE_PAYLOAD..] == data[offset..];
      }
    }
  }

  /** What `build_packets` promises from `offset` on: the outcome, the
      packet layout and the data they carry together. */
  lemma PacketsFromSpec(data: seq<byte>, offset: nat, counter: nat)
    requires offset <= |data| || counter <= 256
    ensures var r := PacketsFrom(data, offset, counter);
      r.Ok? <==> offset >= |data| || |data| - offset <= (256 - counter) * MAX_IMAGE_PAYLOAD
    ensures var r := PacketsFrom(data, offset, counter);
      r.Err? ==> r.error == ByteOutOfRange
    ensures var r := PacketsFrom(data, offset, counter);
      r.Ok? ==>
        var ps := r.value;
        (offset >= |data| ==> ps == []) &&
        (offset < |data| ==> (|ps| - 1) * MAX_IMAGE_PAYLOAD < |data| - offset <= |ps| * MAX_IMAGE_PAYLOAD) &&
        (forall i :: 0 <= i < |ps| ==> PacketShape(ps[i], counter + i)) &&
        (forall i :: 0 <= i < |ps| - 1 ==> |ps[i]| == MAX_IMAGE_PAYLOAD + 2) &&
        Flatten(Payloads(ps)) == (if offset >= |data| then [] else data[offset..])
  {
    PacketsFromOutcome(data, offset, counter);
    if PacketsFrom(data, offset, counter).Ok? {
      PacketsFromShape(data, offset, counter);
      PacketsFromFlatten(data, offset, counter);
    }
  }

  /** The whole upload: packet i carries its index and its length, and the
      chunks of all packets concatenated are the image data. */
  lemma PacketsSpec(data: seq<byte>)
    ensures Packets(data).Ok? <==> |data| <= 256 * MAX_IMAGE_PAYLOAD
    ensures Packets(data).Err? ==> Packets(data).error == ByteOutOfRange
    ensures Packets(data).Ok? ==>
      var ps := Packets(data).value;
      (|data| == 0 <==> ps == []) &&
      (|data| > 0 ==> (|ps| - 1) * MAX_IMAGE_PAYLOAD < |data| <= |ps| * MAX_IMAGE_PAYLOAD) &&
      (forall i :: 0 <= i < |ps| ==> PacketShape(ps[i], i)) &&
      Flatten(Payloads(ps)) == data
  {
    PacketsFromSpec(data, 0, 0);
    assert data[0..] == data;
  }

  /** When `build_packets` fails, and with which error. */
  lemma PacketsOutcome(data: seq<byte>)
    ensures Packets(data).Ok? <==> |data| <= 256 * MAX_IMAGE_PAYLOAD
    ensures Packets(data).Err? ==> Packets(data).error == ByteOutOfRange
  {
    PacketsSpec(data);
  }

  /** `ImageUpload.build_packets`: walk the data 98 bytes at a time,
      numbering the packets from 0. */
  method BuildPackets(imageData: seq<byte>) returns (r: Result<seq<seq<byte>>>)
    ensures r == Packets(imageData)
  {
    var packets: seq<seq<byte>> := [];
    var offset: nat := 0;
    var counter: nat := 0;
    assert Prepend(packets, Packets(imageData)) == Packets(imageData) by {
      if Packets(imageData).Ok? {
        assert packets + Packets(imageData).value == Packets(imageData).value;
      }
    }
    while offset < |imageData|
      invariant offset == counter * MAX_IMAGE_PAYLOAD
      invariant counter <= 256
      invariant Packets(imageData) == Prepend(packets, PacketsFrom(imageData, offset, counter))
      decreases |imageData| - offset
    {
      if counter > 255 {
        assert PacketsFrom(imageData, offset, counter) == Err(ByteOutOfRange);
        return Err(ByteOutOfRange);
      }
      var chunk := Slice(imageData, offset, offset + MAX_IMAGE_PAYLOAD);
      var packetLen := |chunk| + 1;
      var packet := [packetLen, counter] + chunk;
      PrependStep(packets, packet, PacketsFrom(imageData, offset + MAX_IMAGE_PAYLOAD, counter + 1));
      packets := packets + [packet];
      offset := offset + MAX_IMAGE_PAYLOAD;
      counter := counter + 1;
    }
    assert PacketsFrom(imageData, offset, counter) == Ok([]);
    assert packets + [] == packets;
    r := Ok(packets);
  }

  /** The packets already built, in front of the outcome of the rest. */
  function Prepend(done: seq<seq<byte>>, rest: Result<seq<seq<byte>>>): Result<seq<seq<byte>>> {
    match rest
    case Ok(ps) => Ok(done + ps)
    case Err(e) => Err(e)
  }

  lemma PrependStep(done: seq<seq<byte>>, packet: seq<byte>, rest: Result<seq<seq<byte>>>)
    ensures Prepend(done, match rest case Ok(ps) => Ok([packet] + ps) case Err(e) => Err(e)) ==
            Prepend(done + [packet], rest)
  {
    if rest.Ok? {
      assert done + ([packet] + rest.value) == (done + [packet]) + rest.value;
    }
  }
}
