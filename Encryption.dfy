/** The command codec of badge_controller/encryption.py: a command is
    framed as [payload length] ++ ASCII opcode ++ argument bytes, padded with
    zeros or cut to one 16-byte block, and encrypted with AES-128 in ECB mode
    under the fixed key. AES itself is not modelled: a `Cipher` is any pair
    of functions on blocks, and `Bijective` is the only thing assumed of it,
    passed as a precondition where a result needs it. */
module Encryption {
  import opened Bytes
  import opened Protocol

  /** AES-ECB under AES_KEY, one block at a time. */
  datatype Cipher = Cipher(encrypt: Block -> Block, decrypt: Block -> Block)

  /** Decryption undoes encryption and vice versa. */
  ghost predicate Bijective(c: Cipher) {
    (forall b: Block :: c.decrypt(c.encrypt(b)) == b) &&
    (forall b: Block :: c.encrypt(c.decrypt(b)) == b)
  }

  /** `pad_to_block_size`: exactly one block, whose byte i is byte i of the
      input when there is one and zero otherwise. Input longer than a block
      is cut to its first 16 bytes without any error. */
  function PadToBlockSize(data: seq<byte>): (r: Block)
    ensures forall i :: 0 <= i < BLOCK_SIZE ==> r[i] == if i < |data| then data[i] else 0
    ensures |data| == BLOCK_SIZE ==> r == data
  {
    if |data| >= BLOCK_SIZE then data[..BLOCK_SIZE] else data + Zeros(BLOCK_SIZE - |data|)
  }

  /** Padding a block again changes nothing. */
  lemma PadIdempotent(data: seq<byte>)
    ensures PadToBlockSize(PadToBlockSize(data)) == PadToBlockSize(data)
  {
    var once := PadToBlockSize(data);
    assert |once| == BLOCK_SIZE;
  }

  /** Short input comes back followed by zeros; long input is its prefix. */
  lemma PadShape(data: seq<byte>)
    ensures |data| <= BLOCK_SIZE ==> PadToBlockSize(data) == data + Zeros(BLOCK_SIZE - |data|)
    ensures |data| >= BLOCK_SIZE ==> PadToBlockSize(data) == data[..BLOCK_SIZE]
  {
    var r := PadToBlockSize(data);
    if |data| <= BLOCK_SIZE {
      var z := data + Zeros(BLOCK_SIZE - |data|);
      forall i | 0 <= i < BLOCK_SIZE
        ensures r[i] == z[i]
      {
      }
    }
  }

  /** `encrypt_command`: pad, then encrypt one block. */
  function EncryptCommand(c: Cipher, data: seq<byte>): (r: Block)
    ensures Bijective(c) ==> c.decrypt(r) == PadToBlockSize(data)
  {
    c.encrypt(PadToBlockSize(data))
  }

  /** ECB decryption of whole blocks, each block on its own. */
  function DecryptBlocks(c: Cipher, data: seq<byte>): (r: seq<byte>)
    requires |data| % BLOCK_SIZE == 0
    ensures |r| == |data|
    decreases |data|
  {
    if |data| == 0 then [] else c.decrypt(data[..BLOCK_SIZE]) + DecryptBlocks(c, data[BLOCK_SIZE..])
  }

  /** `decrypt_response`: ECB decryption, which refuses input that is not a
      whole number of blocks. */
  function DecryptResponse(c: Cipher, data: seq<byte>): (r: Result<seq<byte>>)
    ensures r.Err? <==> |data| % BLOCK_SIZE != 0
    ensures r.Err? ==> r.error == NotBlockMultiple
    ensures r.Ok? ==> |r.value| == |data|
  {
    if |data| % BLOCK_SIZE != 0 then Err(NotBlockMultiple) else Ok(DecryptBlocks(c, data))
  }

  /** Decrypting what `encrypt_command` produced gives back the padded
      plaintext. */
  lemma DecryptEncrypt(c: Cipher, data: seq<byte>)
    requires Bijective(c)
    ensures var r := DecryptResponse(c, EncryptCommand(c, data));
      r.Ok? && r.value == PadToBlockSize(data)
  {
    var block := EncryptCommand(c, data);
    assert block[..BLOCK_SIZE] == block && block[BLOCK_SIZE..] == [];
  }

  predicate IsAscii(s: string) {
    forall i :: 0 <= i < |s| ==> s[i] as int < 128
  }

  predicate AllBytes(args: seq<int>) {
    forall i :: 0 <= i < |args| ==> IsByte(args[i])
  }

  /** `str.encode('ascii')` on a string that is pure ASCII. */
  function Ascii(s: string): (r: seq<byte>)
    requires IsAscii(s)
    ensures |r| == |s| && forall i :: 0 <= i < |s| ==> r[i] == s[i] as int
  {
    seq(|s|, i requires 0 <= i < |s| => s[i] as int)
  }

  /** The unpadded frame `[len(payload)] ++ payload` that
      `build_encrypted_packet` encrypts, or the exception raised while
      building it: a non-ASCII opcode first, then an argument outside
      0..255, then a payload too long for its length byte. */
  function Plaintext(command: string, args: seq<int>): (r: Result<seq<byte>>)
    ensures r.Ok? <==> IsAscii(command) && AllBytes(args) && |command| + |args| < 256
    ensures !IsAscii(command) ==> r == Err(NotAscii)
    ensures IsAscii(command) && !AllBytes(args) ==> r == Err(ByteOutOfRange)
    ensures r.Ok? ==> |r.value| == 1 + |command| + |args| && r.value[0] == |command| + |args|
    ensures r.Ok? ==> forall i :: 0 <= i < |command| ==> r.value[1 + i] == command[i] as int
    ensures r.Ok? ==> forall i :: 0 <= i < |args| ==> r.value[1 + |command| + i] == args[i]
  {
    if !IsAscii(command) then Err(NotAscii)
    else if !AllBytes(args) then Err(ByteOutOfRange)
    else
      var payload := Ascii(command) + args;
      if |payload| >= 256 then Err(ByteOutOfRange)
      else Ok([|payload|] + payload)
  }

  /** `build_encrypted_packet`: frame, pad and encrypt one command. */
  function BuildEncryptedPacket(c: Cipher, command: string, args: seq<int>): (r: Result<Block>)
    ensures r.Ok? <==> Plaintext(command, args).Ok?
    ensures r.Err? ==> r.error == Plaintext(command, args).error
    ensures Bijective(c) && r.Ok? ==> c.decrypt(r.value) == PadToBlockSize(Plaintext(command, args).value)
  {
    match Plaintext(command, args)
    case Ok(packet) => Ok(EncryptCommand(c, packet))
    case Err(e) => Err(e)
  }

  /** A command whose payload fits in 15 bytes decrypts to
      `[len] ++ ascii(command) ++ args` followed by zeros. */
  lemma ShortCommandFrame(c: Cipher, command: string, args: seq<int>)
    requires Bijective(c) && IsAscii(command) && AllBytes(args)
    requires 1 + |command| + |args| <= BLOCK_SIZE
    ensures BuildEncryptedPacket(c, command, args).Ok?
    ensures c.decrypt(BuildEncryptedPacket(c, command, args).value) ==
              [|command| + |args|] + Ascii(command) + args + Zeros(BLOCK_SIZE - 1 - |command| - |args|)
  {
    var packet := Plaintext(command, args).value;
    var frame := [|command| + |args|] + Ascii(command) + args;
    assert packet == frame;
    PadShape(packet);
  }

  /** A payload of 16 bytes or more is cut silently: the length byte still
      counts the whole payload, but only its first 15 bytes are sent. */
  lemma LongCommandTruncated(c: Cipher, command: string, args: seq<int>)
    requires Bijective(c) && IsAscii(command) && AllBytes(args)
    requires BLOCK_SIZE <= |command| + |args| < 256
    ensures BuildEncryptedPacket(c, command, args).Ok?
    ensures var plain := c.decrypt(BuildEncryptedPacket(c, command, args).value);
      plain[0] == |command| + |args| && plain[1..] == (Ascii(command) + args)[..BLOCK_SIZE - 1]
  {
    var packet := Plaintext(command, args).value;
    var payload := Ascii(command) + args;
    assert packet == [|payload|] + payload;
    PadShape(packet);
    assert packet[..BLOCK_SIZE][1..] == payload[..BLOCK_SIZE - 1];
  }

  /** Without an IV, equal commands give equal packets; and under a
      bijective cipher, two short commands give the same packet only if
      their payloads are the same bytes. */
  lemma PacketInjective(c: Cipher, c1: string, a1: seq<int>, c2: string, a2: seq<int>)
    requires Bijective(c)
    requires BuildEncryptedPacket(c, c1, a1).Ok? && BuildEncryptedPacket(c, c2, a2).Ok?
    requires 1 + |c1| + |a1| <= BLOCK_SIZE && 1 + |c2| + |a2| <= BLOCK_SIZE
    ensures BuildEncryptedPacket(c, c1, a1) == BuildEncryptedPacket(c, c2, a2) <==>
              Ascii(c1) + a1 == Ascii(c2) + a2
  {
    ShortCommandFrame(c, c1, a1);
    ShortCommandFrame(c, c2, a2);
    var p1, p2 := Ascii(c1) + a1, Ascii(c2) + a2;
    var f1 := [|p1|] + p1 + Zeros(BLOCK_SIZE - 1 - |p1|);
    var f2 := [|p2|] + p2 + Zeros(BLOCK_SIZE - 1 - |p2|);
    if BuildEncryptedPacket(c, c1, a1) == BuildEncryptedPacket(c, c2, a2) {
      assert f1 == f2;
      assert f1[0] == |p1| && f2[0] == |p2|;
      assert p1 == f1[1..1 + |p1|];
      assert p2 == f2[1..1 + |p2|];
    }
    if p1 == p2 {
      assert Plaintext(c1, a1) == Plaintext(c2, a2);
    }
  }

  /** "LEDON": the block `05 4C 45 44 4F 4E` and ten zero bytes. */
  lemma LedOnBlock(c: Cipher)
    ensures Plaintext("LEDON", []) == Ok([0x05, 0x4C, 0x45, 0x44, 0x4F, 0x4E])
    ensures BuildEncryptedPacket(c, "LEDON", []) ==
              Ok(c.encrypt([0x05, 0x4C, 0x45, 0x44, 0x4F, 0x4E, 0, 0, 0, 0, 0, 0, 0, 0, 0, 0]))
  {
    var ledon := "LEDON";
    assert IsAscii(ledon) && Ascii(ledon) == [0x4C, 0x45, 0x44, 0x4F, 0x4E] by {
      assert ledon[0] == 'L' && ledon[1] == 'E' && ledon[2] == 'D' && ledon[3] == 'O' && ledon[4] == 'N';
    }
    var frame: seq<byte> := [0x05, 0x4C, 0x45, 0x44, 0x4F, 0x4E];
    var none: seq<int> := [];
    assert AllBytes(none);
    assert [|Ascii(ledon) + none|] + (Ascii(ledon) + none) == frame;
    assert Plaintext(ledon, none) == Ok(frame);
    PadShape(frame);
    assert Zeros(10) == [0, 0, 0, 0, 0, 0, 0, 0, 0, 0];
    assert PadToBlockSize(frame) == [0x05, 0x4C, 0x45, 0x44, 0x4F, 0x4E, 0, 0, 0, 0, 0, 0, 0, 0, 0, 0];
  }
}
