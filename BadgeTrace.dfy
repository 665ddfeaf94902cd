/** experiments/parse_badge_trace.py: describing a decrypted command packet,
    and scanning the raw bytes of a capture for ATT writes to the badge's
    handles without parsing the capture's structure. */
module BadgeTrace {
  import opened Bytes
  import opened Protocol
  import opened Encryption
  import opened AnalyzeBitmap
  import opened Btsnoop

  /** The keys of `BADGE_HANDLES`: COMMAND, IMAGE_UPLOAD, WRITE_3 and the
      notification CCCD. */
  const BADGE_HANDLES: set<nat> := {0x0006, 0x0009, 0x000B, 0x000E}
  const COMMAND_HANDLE: nat := 0x0006

  /** Lower-case hexadecimal digit of a nibble. */
  function HexDigit(d: nat): (ch: char)
    requires d < 16
    ensures '0' <= ch <= '9' || 'a' <= ch <= 'f'
  {
    if d < 10 then ('0' as int + d) as char else ('a' as int + d - 10) as char
  }

  /** `f'{b:02x}'`: two lower-case hex digits, high nibble first. */
  function HexByte(b: byte): (s: string)
    ensures |s| == 2
    ensures s[0] == HexDigit(b / 16) && s[1] == HexDigit(b % 16)
  {
    [HexDigit(b / 16), HexDigit(b % 16)]
  }

  /** `bytes.hex()`. */
  function Hex(s: seq<byte>): (r: string)
    ensures |r| == 2 * |s|
    ensures forall k :: 0 <= k < |s| ==> r[2 * k] == HexDigit(s[k] / 16) && r[2 * k + 1] == HexDigit(s[k] % 16)
  {
    if s == [] then []
    else
      var rest := Hex(s[1..]);
      var r := HexByte(s[0]) + rest;
      assert forall k :: 0 <= k < |s| ==> r[2 * k] == HexDigit(s[k] / 16) && r[2 * k + 1] == HexDigit(s[k] % 16) by {
        forall k | 1 <= k < |s|
          ensures r[2 * k] == HexDigit(s[k] / 16) && r[2 * k + 1] == HexDigit(s[k] % 16)
        {
          var j := k - 1;
          assert s[k] == s[1..][j];
          assert 2 * k == 2 + 2 * j;
        }
      }
      r
  }

  lemma HexDigitInjective(d: nat, e: nat)
    requires d < 16 && e < 16 && HexDigit(d) == HexDigit(e)
    ensures d == e
  {
  }

  /** Different byte strings have different hex strings. */
  lemma HexInjective(s: seq<byte>, t: seq<byte>)
    requires Hex(s) == Hex(t)
    ensures s == t
  {
    assert |s| == |t|;
    forall k | 0 <= k < |s|
      ensures s[k] == t[k]
    {
      HexDigitInjective(s[k] / 16, t[k] / 16);
      HexDigitInjective(s[k] % 16, t[k] % 16);
    }
  }

  predicate Printable(b: byte) {
    32 <= b < 127
  }

  /** One byte of `ascii_str`: itself when printable, `[hh]` otherwise. */
  function RenderByte(b: byte): (s: string)
    ensures Printable(b) ==> s == [b as char]
    ensures !Printable(b) ==> |s| == 4 && s[0] == '[' && s[1..3] == HexByte(b) && s[3] == ']'
  {
    if Printable(b) then [b as char] else "[" + HexByte(b) + "]"
  }

  /** `ascii_str`: each byte rendered in turn. */
  function Render(content: seq<byte>): (r: string)
    ensures |content| <= |r| <= 4 * |content|
  {
    if content == [] then [] else RenderByte(content[0]) + Render(content[1..])
  }

  /** Printable content is shown as the characters it encodes. */
  lemma {:induction false} RenderPrintable(content: seq<byte>)
    requires forall k :: 0 <= k < |content| ==> Printable(content[k])
    ensures |Render(content)| == |content|
    ensures forall k :: 0 <= k < |content| ==> Render(content)[k] == content[k] as char
    decreases |content|
  {
    if content != [] {
      RenderPrintable(content[1..]);
      var rest := Render(content[1..]);
      assert Render(content) == [content[0] as char] + rest;
      forall k | 1 <= k < |content|
        ensures Render(content)[k] == content[k] as char
      {
        assert Render(content)[k] == rest[k - 1];
      }
    }
  }

  /** The description `decrypt_command` builds. */
  datatype Description =
    | NotBlock(length: nat)
    | InvalidLength(lengthByte: byte)
    | Described(text: string, hex: string)

  /** `decrypt_command`. */
  function DecryptCommand(c: Cipher, data: seq<byte>): (r: Description)
    ensures r.NotBlock? <==> |data| != BLOCK_SIZE
    ensures r.NotBlock? ==> r.length == |data|
    ensures r.InvalidLength? <==> |data| == BLOCK_SIZE && c.decrypt(data)[0] > 15
    ensures r.InvalidLength? ==> r.lengthByte == c.decrypt(data)[0]
    ensures r.Described? ==>
      var content := c.decrypt(data)[1 .. 1 + c.decrypt(data)[0]];
      r.text == Render(content) && r.hex == Hex(content)
  {
    if |data| != BLOCK_SIZE then NotBlock(|data|)
    else
      var decrypted := c.decrypt(data);
      var length := decrypted[0];
      if length > 15 then InvalidLength(length)
      else
        var content := Unframe(decrypted);
        assert content == decrypted[1 .. 1 + length];
        Described(Render(content), Hex(content))
  }

  /** A command built by `build_encrypted_packet` whose payload fits in
      one block is described by its own payload bytes. */
  lemma DescribeBuilt(c: Cipher, command: string, args: seq<int>)
    requires Bijective(c) && IsAscii(command) && AllBytes(args)
    requires 1 + |command| + |args| <= BLOCK_SIZE
    ensures BuildEncryptedPacket(c, command, args).Ok?
    ensures var payload := Ascii(command) + args;
      DecryptCommand(c, BuildEncryptedPacket(c, command, args).value) == Described(Render(payload), Hex(payload))
  {
    ShortCommandFrame(c, command, args);
    var payload: seq<byte> := Ascii(command) + args;
    var plain := c.decrypt(BuildEncryptedPacket(c, command, args).value);
    assert plain == [|payload|] + payload + Zeros(BLOCK_SIZE - 1 - |payload|);
    assert plain[1 .. 1 + plain[0]] == payload;
  }

  // ---------------------------------------------------------------------
  // find_badge_writes

  datatype BadgeWrite = BadgeWrite(offset: nat, handle: nat, value: seq<byte>, opcode: byte)

  /** A write opcode followed by a badge handle, with a byte after it. */
  predicate IsMarker(data: seq<byte>, e: nat) {
    e + 3 < |data| && IsWriteOpcode(data[e]) && U16LE(data[e + 1], data[e + 2]) in BADGE_HANDLES
  }

  /** The end of a non-COMMAND value starting at `e`: the first marker at
      or after `e`, or `min(i + 120, len(data))` when there is none. */
  function ValueEnd(data: seq<byte>, i: nat, e: nat): (r: nat)
    ensures e <= r <= Max(e, Min(i + 120, |data|))
    ensures forall k :: e <= k < r ==> !IsMarker(data, k)
    ensures r < Min(i + 120, |data|) ==> IsMarker(data, r)
    decreases |data| - e
  {
    if e >= Min(i + 120, |data|) then e
    else if IsMarker(data, e) then e
    else ValueEnd(data, i, e + 1)
  }

  /** The inner `while` of `find_badge_writes`. */
  method ScanValueEnd(data: seq<byte>, i: nat) returns (valueEnd: nat)
    ensures valueEnd == ValueEnd(data, i, i + 3)
  {
    valueEnd := i + 3;
    while valueEnd < Min(i + 120, |data|)
      invariant ValueEnd(data, i, valueEnd) == ValueEnd(data, i, i + 3)
      decreases |data| - valueEnd
    {
      if valueEnd + 3 < |data| {
        var nextHandle := U16LE(data[valueEnd + 1], data[valueEnd + 2]);
        if IsWriteOpcode(data[valueEnd]) && nextHandle in BADGE_HANDLES {
          break;
        }
      }
      valueEnd := valueEnd + 1;
    }
  }

  /** What offset i contributes to `writes`; for every i the loop visits,
      the handle's two bytes are there. */
  function WriteAt(data: seq<byte>, i: nat): (r: Option<BadgeWrite>)
    requires i + 20 < |data|
    ensures r.Some? ==>
      var w := r.value;
      w.offset == i && w.opcode == data[i] && IsWriteOpcode(w.opcode) &&
      w.handle == U16LE(data[i + 1], data[i + 2]) && w.handle in BADGE_HANDLES
    ensures r.None? <==> !IsWriteOpcode(data[i]) || U16LE(data[i + 1], data[i + 2]) !in BADGE_HANDLES ||
                         (U16LE(data[i + 1], data[i + 2]) != COMMAND_HANDLE && IsMarker(data, i + 3))
    ensures r.Some? && r.value.handle == COMMAND_HANDLE ==> r.value.value == data[i + 3 .. i + 19]
    ensures r.Some? && r.value.handle != COMMAND_HANDLE ==>
      1 <= |r.value.value| <= 100 && i + 3 + |r.value.value| <= |data| &&
      |r.value.value| == Min(ValueEnd(data, i, i + 3) - (i + 3), 100) &&
      r.value.value == data[i + 3 .. i + 3 + |r.value.value|]
  {
    var opcode := data[i];
    var handle := U16LE(data[i + 1], data[i + 2]);
    if !IsWriteOpcode(opcode) || handle !in BADGE_HANDLES then None
    else if handle == COMMAND_HANDLE then
      var value := Slice(data, i + 3, i + 19);
      if |value| == BLOCK_SIZE then Some(BadgeWrite(i, handle, value, opcode)) else None
    else
      var valueEnd := ValueEnd(data, i, i + 3);
      var value := data[i + 3 .. valueEnd];
      if |value| >= 1 then Some(BadgeWrite(i, handle, Slice(value, 0, 100), opcode)) else None
  }

  /** The writes found at offsets i, i + 1, ... up to `len(data) - 21`. */
  function WritesFrom(data: seq<byte>, i: nat): seq<BadgeWrite>
    decreases |data| - i
  {
    if i + 20 >= |data| then []
    else
      var rest := WritesFrom(data, i + 1);
      match WriteAt(data, i)
      case Some(w) => [w] + rest
      case None => rest
  }

  predicate OffsetsIncreasing(ws: seq<BadgeWrite>) {
    forall j, k :: 0 <= j < k < |ws| ==> ws[j].offset < ws[k].offset
  }

  /** `w` is what `WriteAt` finds at its own offset. */
  predicate FoundAt(data: seq<byte>, w: BadgeWrite) {
    w.offset + 20 < |data| && WriteAt(data, w.offset) == Some(w)
  }

  /** Writes in strictly increasing offset order, from offset i on, each
      one what `WriteAt` finds at its offset. */
  predicate FoundFrom(data: seq<byte>, ws: seq<BadgeWrite>, i: nat) {
    OffsetsIncreasing(ws) &&
    forall k :: 0 <= k < |ws| ==> i <= ws[k].offset && FoundAt(data, ws[k])
  }

  lemma PrependIncreasing(w: BadgeWrite, ws: seq<BadgeWrite>)
    requires OffsetsIncreasing(ws)
    requires forall k :: 0 <= k < |ws| ==> w.offset < ws[k].offset
    ensures OffsetsIncreasing([w] + ws)
  {
    var all := [w] + ws;
    forall j, k | 0 <= j < k < |all|
      ensures all[j].offset < all[k].offset
    {
      assert all[k] == ws[k - 1];
      if j > 0 {
        assert all[j] == ws[j - 1];
      }
    }
  }

  lemma PrependFound(data: seq<byte>, w: BadgeWrite, ws: seq<BadgeWrite>, i: nat)
    requires FoundFrom(data, ws, i + 1)
    requires w.offset == i && FoundAt(data, w)
    ensures FoundFrom(data, [w] + ws, i)
  {
    PrependIncreasing(w, ws);
    var all := [w] + ws;
    forall k | 0 <= k < |all|
      ensures i <= all[k].offset && FoundAt(data, all[k])
    {
      if k > 0 {
        assert all[k] == ws[k - 1];
      }
    }
  }

  /** Every write `WriteAt` finds at an offset from i on is in the result. */
  lemma {:induction false} WritesFromComplete(data: seq<byte>, i: nat)
    ensures forall j :: i <= j && j + 20 < |data| && WriteAt(data, j).Some? ==> WriteAt(data, j).value in WritesFrom(data, i)
    decreases |data| - i
  {
    if i + 20 < |data| {
      WritesFromComplete(data, i + 1);
      var rest := WritesFrom(data, i + 1);
      assert WritesFrom(data, i) == (if WriteAt(data, i).Some? then [WriteAt(data, i).value] else []) + rest;
    }
  }

  /** What `find_badge_writes` returns from offset i on: in increasing
      offset order, each one what WriteAt finds at its offset, and every
      write WriteAt finds at an offset the scan visits. */
  lemma {:induction false} WritesFromSpec(data: seq<byte>, i: nat)
    ensures FoundFrom(data, WritesFrom(data, i), i)
    ensures forall j :: i <= j && j + 20 < |data| && WriteAt(data, j).Some? ==> WriteAt(data, j).value in WritesFrom(data, i)
    decreases |data| - i
  {
    WritesFromComplete(data, i);
    if i + 20 < |data| {
      WritesFromSpec(data, i + 1);
      match WriteAt(data, i)
      case Some(w) =>
        assert FoundAt(data, w);
        PrependFound(data, w, WritesFrom(data, i + 1), i);
      case None =>
    }
  }

  /** One pass of the outer loop of `find_badge_writes`. */
  method ScanAt(data: seq<byte>, i: nat) returns (found: Option<BadgeWrite>)
    requires i + 20 < |data|
    ensures found == WriteAt(data, i)
  {
    found := None;
    var opcode := data[i];
    var handle := U16LE(data[i + 1], data[i + 2]);
    if IsWriteOpcode(opcode) && handle in BADGE_HANDLES {
      if handle == COMMAND_HANDLE {
        var value := Slice(data, i + 3, i + 19);
        if |value| == BLOCK_SIZE {
          found := Some(BadgeWrite(i, handle, value, opcode));
        }
      } else {
        var valueEnd := ScanValueEnd(data, i);
        var value := data[i + 3 .. valueEnd];
        if |value| >= 1 {
          found := Some(BadgeWrite(i, handle, Slice(value, 0, 100), opcode));
        }
      }
    }
  }

  /** `find_badge_writes`. */
  method FindBadgeWrites(data: seq<byte>) returns (writes: seq<BadgeWrite>)
    ensures writes == WritesFrom(data, 0)
  {
    writes := [];
    var i: nat := 0;
    while i + 20 < |data|
      invariant writes + WritesFrom(data, i) == WritesFrom(data, 0)
      decreases |data| - i
    {
      var found := ScanAt(data, i);
      if found.Some? {
        writes := writes + [found.value];
      }
      i := i + 1;
    }
    assert WritesFrom(data, i) == [];
    assert writes + [] == writes;
  }
}
