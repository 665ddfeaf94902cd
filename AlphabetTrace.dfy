/** initial_analysis/analyze_alphabet_trace.py: decrypting and decoding
    single command blocks, two raw-byte scans of a capture for ATT writes,
    and the extraction of 9-byte font glyphs from the decrypted image
    blocks of the alphabet capture. */
module AlphabetTrace {
  import opened Bytes
  import opened Protocol
  import opened Encryption
  import opened AnalyzeBitmap
  import opened Btsnoop

  // ---------------------------------------------------------------------
  // decrypt_block and decode_command

  /** `decrypt_block`: the first 16 bytes decrypted, or None for fewer. */
  function DecryptBlock(c: Cipher, data: seq<byte>): (r: Option<Block>)
    ensures r.None? <==> |data| < BLOCK_SIZE
    ensures r.Some? && Bijective(c) ==> c.encrypt(r.value) == data[..BLOCK_SIZE]
  {
    if |data| < BLOCK_SIZE then None else Some(c.decrypt(data[..BLOCK_SIZE]))
  }

  /** `bytes.decode('ascii', errors='replace')`. */
  function AsciiReplace(s: seq<byte>): (r: string)
    ensures |r| == |s|
    ensures forall k :: 0 <= k < |s| ==> r[k] == if s[k] < 128 then s[k] as char else '�'
  {
    seq(|s|, k requires 0 <= k < |s| => if s[k] < 128 then s[k] as char else '�')
  }

  /** `decode_command`: the decrypted block's content as text, or None for
      a short input or a length byte above 15. */
  function DecodeCommand(c: Cipher, data: seq<byte>): (r: Option<string>)
    ensures r.None? <==> |data| < BLOCK_SIZE || c.decrypt(data[..BLOCK_SIZE])[0] > 15
    ensures r.Some? ==>
      var dec := c.decrypt(data[..BLOCK_SIZE]);
      |r.value| == dec[0] &&
      forall k :: 0 <= k < |r.value| ==> r.value[k] == if dec[1 + k] < 128 then dec[1 + k] as char else '�'
  {
    match DecryptBlock(c, data)
    case None => None
    case Some(decrypted) =>
      if decrypted[0] > 15 then None else Some(AsciiReplace(Unframe(decrypted)))
  }

  /** Decoding a command built from an ASCII opcode of at most 15
      characters gives the opcode back. */
  lemma DecodeBuilt(c: Cipher, command: string)
    requires Bijective(c) && IsAscii(command) && 1 + |command| <= BLOCK_SIZE
    ensures BuildEncryptedPacket(c, command, []).Ok?
    ensures DecodeCommand(c, BuildEncryptedPacket(c, command, []).value) == Some(command)
  {
    var none: seq<int> := [];
    assert AllBytes(none);
    ShortCommandFrame(c, command, none);
    var packet := BuildEncryptedPacket(c, command, none).value;
    assert packet[..BLOCK_SIZE] == packet;
    var plain := c.decrypt(packet);
    assert Ascii(command) + none == Ascii(command);
    assert plain == [|command|] + Ascii(command) + Zeros(BLOCK_SIZE - 1 - |command|);
    assert plain[0] == |command|;
    var r := DecodeCommand(c, packet).value;
    assert |r| == |command|;
    forall k | 0 <= k < |command|
      ensures r[k] == command[k]
    {
      assert plain[1 + k] == command[k] as int;
    }
    assert r == command;
  }

  // ---------------------------------------------------------------------
  // find_att_writes

  const HANDLES_OF_INTEREST: set<nat> := {0x0006, 0x0009, 0x000B, 0x000E, 0x0081, 0x0083, 0x0014}

  /** Opcodes that may start the next ATT PDU: write request, write
      command, write response and handle value notification. */
  predicate IsStopOpcode(b: byte) {
    b == 0x12 || b == 0x52 || b == 0x13 || b == 0x1B
  }

  datatype AttWrite = AttWrite(offset: nat, opcode: byte, handle: nat, value: seq<byte>)

  /** The end of the value of the write at `i`, scanning from `e`: the
      first position past `i + 5` holding a stop opcode followed by a handle
      of interest, or `min(i + 120, len(data))`. A stop opcode among the
      last two bytes makes `struct.unpack` raise when the scan reaches it. */
  function AttValueEnd(data: seq<byte>, i: nat, e: nat): (r: Result<nat>)
    ensures r.Err? ==> r.error == ShortUnpack
    ensures r.Ok? ==> e <= r.value <= Max(e, Min(i + 120, |data|))
    ensures r.Ok? && r.value < Min(i + 120, |data|) ==>
      r.value > i + 5 && IsStopOpcode(data[r.value]) && r.value + 3 <= |data| &&
      U16LE(data[r.value + 1], data[r.value + 2]) in HANDLES_OF_INTEREST
    decreases |data| - e
  {
    if e >= Min(i + 120, |data|) then Ok(e)
    else if e > i + 5 && IsStopOpcode(data[e]) then
      if e + 3 > |data| then Err(ShortUnpack)
      else if U16LE(data[e + 1], data[e + 2]) in HANDLES_OF_INTEREST then Ok(e)
      else AttValueEnd(data, i, e + 1)
    else AttValueEnd(data, i, e + 1)
  }

  /** A stop opcode past `i + 5` at `j` that is not followed by a handle of
      interest, its two handle bytes being there. */
  predicate PassedStop(data: seq<byte>, i: nat, j: nat)
    requires j < |data|
  {
    j > i + 5 && IsStopOpcode(data[j]) ==> j + 3 <= |data| && U16LE(data[j + 1], data[j + 2]) !in HANDLES_OF_INTEREST
  }

  /** The scan passes every position of [e, k). */
  predicate NoStopBefore(data: seq<byte>, i: nat, e: nat, k: nat) {
    forall j :: e <= j < k && j < |data| ==> PassedStop(data, i, j)
  }

  /** The scan from `e` reaches a stop opcode at `k`, before the limit, whose
      handle would be read past the end of the data. */
  predicate ShortStop(data: seq<byte>, i: nat, e: nat, k: nat) {
    e <= k < Min(i + 120, |data|) && NoStopBefore(data, i, e, k) &&
    k > i + 5 && IsStopOpcode(data[k]) && k + 3 > |data|
  }

  /** The value end is the FIRST stop the scan does not pass, and the scan
      raises exactly when that first stop is one whose handle bytes are
      missing. */
  lemma {:induction false} AttValueEndSpec(data: seq<byte>, i: nat, e: nat)
    ensures AttValueEnd(data, i, e).Ok? ==> NoStopBefore(data, i, e, AttValueEnd(data, i, e).value)
    ensures AttValueEnd(data, i, e).Err? <==> exists k :: ShortStop(data, i, e, k)
    decreases |data| - e
  {
    if e < Min(i + 120, |data|) {
      var stop := e > i + 5 && IsStopOpcode(data[e]);
      if !(stop && (e + 3 > |data| || U16LE(data[e + 1], data[e + 2]) in HANDLES_OF_INTEREST)) {
        var e1 := e + 1;
        AttValueEndSpec(data, i, e1);
        assert PassedStop(data, i, e);
        if exists k :: ShortStop(data, i, e1, k) {
          var k :| ShortStop(data, i, e1, k);
          assert ShortStop(data, i, e, k);
        }
        if exists k :: ShortStop(data, i, e, k) {
          var k :| ShortStop(data, i, e, k);
          assert k != e;
          assert ShortStop(data, i, e1, k);
        }
      } else if e + 3 > |data| {
        assert ShortStop(data, i, e, e);
      } else {
        assert !PassedStop(data, i, e);
        forall k
          ensures !ShortStop(data, i, e, k)
        {
          if e < k {
            assert !PassedStop(data, i, e);
          }
        }
      }
    }
  }

  /** The inner `while` of `find_att_writes`. */
  method ScanAttValueEnd(data: seq<byte>, i: nat) returns (r: Result<nat>)
    ensures r == AttValueEnd(data, i, i + 3)
  {
    var valueEnd := i + 3;
    var maxLen := Min(i + 120, |data|);
    while valueEnd < maxLen
      invariant AttValueEnd(data, i, valueEnd) == AttValueEnd(data, i, i + 3)
      decreases |data| - valueEnd
    {
      if valueEnd > i + 5 && IsStopOpcode(data[valueEnd]) {
        if valueEnd + 3 > |data| {
          return Err(ShortUnpack);
        }
        var nextHandle := U16LE(data[valueEnd + 1], data[valueEnd + 2]);
        if nextHandle in HANDLES_OF_INTEREST {
          break;
        }
      }
      valueEnd := valueEnd + 1;
    }
    r := Ok(valueEnd);
  }

  /** What offset i contributes to `find_att_writes`. */
  function AttWriteAt(data: seq<byte>, i: nat): (r: Result<Option<AttWrite>>)
    requires i + 20 < |data|
    ensures r.Err? ==> r.error == ShortUnpack
    ensures r.Ok? && r.value.Some? ==>
      var w := r.value.value;
      w.offset == i && w.opcode == data[i] && IsWriteOpcode(w.opcode) &&
      w.handle == U16LE(data[i + 1], data[i + 2]) && w.handle in HANDLES_OF_INTEREST &&
      2 <= |w.value| && i + 3 + |w.value| <= Min(i + 120, |data|) &&
      w.value == data[i + 3 .. i + 3 + |w.value|]
    ensures !IsWriteOpcode(data[i]) || U16LE(data[i + 1], data[i + 2]) !in HANDLES_OF_INTEREST ==> r == Ok(None)
    ensures r.Err? <==>
      IsWriteOpcode(data[i]) && U16LE(data[i + 1], data[i + 2]) in HANDLES_OF_INTEREST && AttValueEnd(data, i, i + 3).Err?
    ensures r.Ok? && r.value.Some? ==>
      AttValueEnd(data, i, i + 3).Ok? && r.value.value.value == data[i + 3 .. AttValueEnd(data, i, i + 3).value]
    ensures (IsWriteOpcode(data[i]) && U16LE(data[i + 1], data[i + 2]) in HANDLES_OF_INTEREST &&
             AttValueEnd(data, i, i + 3).Ok? && AttValueEnd(data, i, i + 3).value >= i + 5) ==>
      r.Ok? && r.value.Some?
  {
    var opcode := data[i];
    var handle := U16LE(data[i + 1], data[i + 2]);
    if !IsWriteOpcode(opcode) || handle !in HANDLES_OF_INTEREST then Ok(None)
    else match AttValueEnd(data, i, i + 3)
      case Err(e) => Err(e)
      case Ok(valueEnd) =>
        var value := data[i + 3 .. valueEnd];
        if |value| >= 2 then Ok(Some(AttWrite(i, opcode, handle, value))) else Ok(None)
  }

  /** The writes found at offsets i, i + 1, ... up to `len(data) - 21`, or
      the first error. */
  function AttWritesFrom(data: seq<byte>, i: nat): Result<seq<AttWrite>>
    decreases |data| - i
  {
    if i + 20 >= |data| then Ok([])
    else match AttWriteAt(data, i)
      case Err(e) => Err(e)
      case Ok(found) =>
        match AttWritesFrom(data, i + 1)
        case Err(e) => Err(e)
        case Ok(rest) => Ok(if found.Some? then [found.value] + rest else rest)
  }

  predicate AttOffsetsIncreasing(ws: seq<AttWrite>) {
    forall j, k :: 0 <= j < k < |ws| ==> ws[j].offset < ws[k].offset
  }

  /** `w` is what `AttWriteAt` finds at its own offset. */
  predicate AttFoundAt(data: seq<byte>, w: AttWrite) {
    w.offset + 20 < |data| && AttWriteAt(data, w.offset) == Ok(Some(w))
  }

  predicate AttFoundFrom(data: seq<byte>, ws: seq<AttWrite>, i: nat) {
    AttOffsetsIncreasing(ws) &&
    forall k :: 0 <= k < |ws| ==> i <= ws[k].offset && AttFoundAt(data, ws[k])
  }

  lemma PrependAttIncreasing(w: AttWrite, ws: seq<AttWrite>)
    requires AttOffsetsIncreasing(ws)
    requires forall k :: 0 <= k < |ws| ==> w.offset < ws[k].offset
    ensures AttOffsetsIncreasing([w] + ws)
  {
    var all := [w] + ws;
    forall j, k | 0 <= j < k < |all|
      ensures all[j].offset < all[k].offset
    {
      assert all[k] == ws[k - 1];
      if j > 0 {
        assert all[j] == ws[j - 1];
      }
    }
  }

  lemma PrependAttFound(data: seq<byte>, w: AttWrite, ws: seq<AttWrite>, i: nat)
    requires AttFoundFrom(data, ws, i + 1)
    requires w.offset == i && AttFoundAt(data, w)
    ensures AttFoundFrom(data, [w] + ws, i)
  {
    PrependAttIncreasing(w, ws);
    var all := [w] + ws;
    forall k | 1 <= k < |all|
      ensures all[k] == ws[k - 1]
    {
    }
  }

  /** A successful scan lists every write AttWriteAt finds at an offset
      it visits. */
  lemma {:induction false} AttWritesFromComplete(data: seq<byte>, i: nat)
    ensures AttWritesFrom(data, i).Ok? ==>
      forall j :: i <= j && j + 20 < |data| && AttWriteAt(data, j).Ok? && AttWriteAt(data, j).value.Some? ==>
        AttWriteAt(data, j).value.value in AttWritesFrom(data, i).value
    decreases |data| - i
  {
    if i + 20 < |data| && AttWritesFrom(data, i).Ok? {
      AttWritesFromComplete(data, i + 1);
      var found := AttWriteAt(data, i).value;
      var rest := AttWritesFrom(data, i + 1).value;
      var all := AttWritesFrom(data, i).value;
      var head := if found.Some? then [found.value] else [];
      assert all == head + rest;
      forall j | i <= j && j + 20 < |data| && AttWriteAt(data, j).Ok? && AttWriteAt(data, j).value.Some?
        ensures AttWriteAt(data, j).value.value in all
      {
        if j == i {
          assert all[0] == found.value;
        } else {
          assert AttWriteAt(data, j).value.value in rest;
        }
      }
    }
  }

  /** The scan raises exactly when AttWriteAt raises at an offset it
      visits. */
  lemma {:induction false} AttWritesFromError(data: seq<byte>, i: nat)
    ensures AttWritesFrom(data, i).Err? <==> exists j :: i <= j && j + 20 < |data| && AttWriteAt(data, j).Err?
    decreases |data| - i
  {
    if i + 20 < |data| {
      var i1 := i + 1;
      AttWritesFromError(data, i1);
      if exists j :: i <= j && j + 20 < |data| && AttWriteAt(data, j).Err? {
        var j :| i <= j && j + 20 < |data| && AttWriteAt(data, j).Err?;
        if j != i {
          assert i1 <= j;
        }
      }
    }
  }

  /** A successful scan returns writes in strictly increasing offset
      order, each what AttWriteAt finds at its offset, and every write
      AttWriteAt finds at an offset it visits; it raises ShortUnpack
      exactly when AttWriteAt raises at one of those offsets. */
  lemma {:induction false} AttWritesFromSpec(data: seq<byte>, i: nat)
    ensures AttWritesFrom(data, i).Ok? ==> AttFoundFrom(data, AttWritesFrom(data, i).value, i)
    ensures AttWritesFrom(data, i).Ok? ==>
      forall j :: i <= j && j + 20 < |data| && AttWriteAt(data, j).Ok? && AttWriteAt(data, j).value.Some? ==>
        AttWriteAt(data, j).value.value in AttWritesFrom(data, i).value
    ensures AttWritesFrom(data, i).Err? <==> exists j :: i <= j && j + 20 < |data| && AttWriteAt(data, j).Err?
    ensures AttWritesFrom(data, i).Err? ==> AttWritesFrom(data, i).error == ShortUnpack
    decreases |data| - i
  {
    AttWritesFromComplete(data, i);
    AttWritesFromError(data, i);
    if i + 20 < |data| {
      AttWritesFromSpec(data, i + 1);
      var here := AttWriteAt(data, i);
      var rest := AttWritesFrom(data, i + 1);
      if here.Ok? && here.value.Some? && rest.Ok? {
        var w := here.value.value;
        assert AttFoundAt(data, w);
        PrependAttFound(data, w, rest.value, i);
      }
    }
  }

  /** One pass of the outer loop of `find_att_writes`. */
  method ScanAttAt(data: seq<byte>, i: nat) returns (r: Result<Option<AttWrite>>)
    requires i + 20 < |data|
    ensures r == AttWriteAt(data, i)
  {
    var opcode := data[i];
    r := Ok(None);
    if IsWriteOpcode(opcode) {
      var handle := U16LE(data[i + 1], data[i + 2]);
      if handle in HANDLES_OF_INTEREST {
        var valueEnd := ScanAttValueEnd(data, i);
        if valueEnd.Err? {
          return Err(valueEnd.error);
        }
        var value := data[i + 3 .. valueEnd.value];
        if |value| >= 2 {
          r := Ok(Some(AttWrite(i, opcode, handle, value)));
        }
      }
    }
  }

  /** `find_att_writes`. */
  method FindAttWrites(data: seq<byte>) returns (r: Result<seq<AttWrite>>)
    ensures r == AttWritesFrom(data, 0)
  {
    var writes: seq<AttWrite> := [];
    var i: nat := 0;
    PrefixedEmpty(AttWritesFrom(data, 0));
    while i + 20 < |data|
      invariant AttWritesFrom(data, 0) == Prefixed(writes, AttWritesFrom(data, i))
      decreases |data| - i
    {
      var found := ScanAttAt(data, i);
      if found.Err? {
        return Err(found.error);
      }
      ghost var rest := AttWritesFrom(data, i + 1);
      if found.value.Some? {
        PrefixedAppend(writes, found.value.value, rest);
        writes := writes + [found.value.value];
      }
      i := i + 1;
    }
    assert writes + [] == writes;
    r := Ok(writes);
  }

  /** Writes already found, in front of the outcome of the rest of the scan. */
  function Prefixed(ws: seq<AttWrite>, rest: Result<seq<AttWrite>>): Result<seq<AttWrite>> {
    match rest
    case Ok(more) => Ok(ws + more)
    case Err(e) => Err(e)
  }

  lemma PrefixedEmpty(rest: Result<seq<AttWrite>>)
    ensures Prefixed([], rest) == rest
  {
    if rest.Ok? {
      assert [] + rest.value == rest.value;
    }
  }

  lemma PrefixedAppend(ws: seq<AttWrite>, w: AttWrite, rest: Result<seq<AttWrite>>)
    ensures Prefixed(ws, Prefixed([w], rest)) == Prefixed(ws + [w], rest)
  {
    if rest.Ok? {
      assert ws + ([w] + rest.value) == (ws + [w]) + rest.value;
    }
  }

  // ---------------------------------------------------------------------
  // extract_writes_from_raw

  datatype RawWrite = RawWrite(offset: nat, value: seq<byte>)

  /** Bytes that the timestamp back-up skips over. */
  predicate IsLowByte(b: byte) {
    b <= 4
  }

  /** The back-up before a "5oi" timestamp: step back over bytes 0..4,
      never before `start`. */
  function Backtrack(data: seq<byte>, start: nat, e: nat): (r: nat)
    requires start <= e <= |data|
    ensures start <= r <= e
    ensures forall k :: r <= k < e ==> IsLowByte(data[k])
    ensures r == start || !IsLowByte(data[r - 1])
    decreases e
  {
    if e > start && IsLowByte(data[e - 1]) then Backtrack(data, start, e - 1) else e
  }

  /** A `\x12\x09` or `\x52\x09` pair at `e`. */
  predicate IsBoundary(data: seq<byte>, e: nat) {
    e + 2 <= |data| && (data[e] == 0x12 || data[e] == 0x52) && data[e + 1] == 0x09
  }

  /** A "5oi" timestamp at `e`. */
  predicate IsTimestamp(data: seq<byte>, e: nat) {
    e + 3 <= |data| && data[e] == 0x35 && data[e + 1] == 0x6F && data[e + 2] == 0x69
  }

  /** The end of a value starting at `start`, scanning from `e` up to
      `limit`; boundaries only count more than 10 bytes into the value. */
  function RawValueEnd(data: seq<byte>, start: nat, limit: nat, e: nat): (r: nat)
    requires start <= e && limit <= |data|
    ensures start <= r <= Max(e, limit)
    decreases limit - e
  {
    if e >= limit then e
    else if e - start > 10 && IsBoundary(data, e) then e
    else if e - start > 10 && IsTimestamp(data, e) then Backtrack(data, start, e)
    else RawValueEnd(data, start, limit, e + 1)
  }

  /** A position more than 10 bytes into the value that ends it: a
      `12 09` or `52 09` boundary, or a "5oi" timestamp. */
  predicate RawStop(data: seq<byte>, start: nat, k: nat) {
    k > start + 10 && (IsBoundary(data, k) || IsTimestamp(data, k))
  }

  /** No position of [e, k) ends the value. */
  predicate NoRawStop(data: seq<byte>, start: nat, e: nat, k: nat) {
    forall j :: e <= j < k ==> !RawStop(data, start, j)
  }

  /** One step of the scan: a position that does not end the value passes
      the scan on to the next one. */
  lemma RawValueEndStep(data: seq<byte>, start: nat, limit: nat, e: nat)
    requires start <= e < limit <= |data| && !RawStop(data, start, e)
    ensures RawValueEnd(data, start, limit, e) == RawValueEnd(data, start, limit, e + 1)
  {
  }

  /** A position that ends the value: a boundary ends it there, a
      timestamp where the back-up stops. */
  lemma RawValueEndStop(data: seq<byte>, start: nat, limit: nat, e: nat)
    requires start <= e < limit <= |data| && RawStop(data, start, e)
    ensures RawValueEnd(data, start, limit, e) == if IsBoundary(data, e) then e else Backtrack(data, start, e)
  {
  }

  /** With no stop in [e, limit), the value ends at the limit. */
  lemma {:induction false} RawValueEndLimit(data: seq<byte>, start: nat, limit: nat, e: nat)
    requires start <= e && limit <= |data|
    ensures NoRawStop(data, start, e, limit) ==> RawValueEnd(data, start, limit, e) == Max(e, limit)
    decreases limit - e
  {
    if e < limit && NoRawStop(data, start, e, limit) {
      assert !RawStop(data, start, e);
      RawValueEndStep(data, start, limit, e);
      RawValueEndLimit(data, start, limit, e + 1);
    }
  }

  /** At the first stop k in [e, limit), the value ends at k for a
      boundary and at k backed up over the bytes 0..4 for a timestamp. */
  lemma {:induction false} RawValueEndAt(data: seq<byte>, start: nat, limit: nat, e: nat, k: nat)
    requires start <= e <= k < limit <= |data|
    requires NoRawStop(data, start, e, k) && RawStop(data, start, k)
    ensures RawValueEnd(data, start, limit, e) == if IsBoundary(data, k) then k else Backtrack(data, start, k)
    decreases k - e
  {
    if e < k {
      var e1 := e + 1;
      assert !RawStop(data, start, e);
      assert NoRawStop(data, start, e1, k);
      RawValueEndStep(data, start, limit, e);
      RawValueEndAt(data, start, limit, e1, k);
    } else {
      RawValueEndStop(data, start, limit, e);
    }
  }

  /** The value ends at the first stop in [e, limit): at a boundary
      itself, or at a timestamp backed up over the bytes 0..4 before it;
      with no stop, it ends at the limit. */
  lemma RawValueEndSpec(data: seq<byte>, start: nat, limit: nat, e: nat)
    requires start <= e && limit <= |data|
    ensures NoRawStop(data, start, e, limit) ==> RawValueEnd(data, start, limit, e) == Max(e, limit)
    ensures forall k :: e <= k < limit && NoRawStop(data, start, e, k) && RawStop(data, start, k) ==>
      RawValueEnd(data, start, limit, e) == if IsBoundary(data, k) then k else Backtrack(data, start, k)
  {
    RawValueEndLimit(data, start, limit, e);
    forall k | e <= k < limit && NoRawStop(data, start, e, k) && RawStop(data, start, k)
      ensures RawValueEnd(data, start, limit, e) == if IsBoundary(data, k) then k else Backtrack(data, start, k)
    {
      RawValueEndAt(data, start, limit, e, k);
    }
  }

  /** The back-up loop before a timestamp. */
  method BackUp(data: seq<byte>, start: nat, at: nat) returns (valueEnd: nat)
    requires start <= at <= |data|
    ensures valueEnd == Backtrack(data, start, at)
  {
    valueEnd := at;
    while valueEnd > start && IsLowByte(data[valueEnd - 1])
      invariant start <= valueEnd <= at
      invariant Backtrack(data, start, valueEnd) == Backtrack(data, start, at)
      decreases valueEnd
    {
      valueEnd := valueEnd - 1;
    }
  }

  /** The inner `while` of `extract_writes_from_raw`, with its back-up. */
  method ScanRawValueEnd(data: seq<byte>, start: nat, limit: nat) returns (valueEnd: nat)
    requires limit <= |data|
    ensures valueEnd == RawValueEnd(data, start, limit, start)
  {
    valueEnd := start;
    while valueEnd < limit
      invariant start <= valueEnd
      invariant RawValueEnd(data, start, limit, valueEnd) == RawValueEnd(data, start, limit, start)
      decreases limit - valueEnd
    {
      if valueEnd - start > 10 {
        if IsBoundary(data, valueEnd) {
          RawValueEndStop(data, start, limit, valueEnd);
          return;
        }
        if IsTimestamp(data, valueEnd) {
          RawValueEndStop(data, start, limit, valueEnd);
          valueEnd := BackUp(data, start, valueEnd);
          return;
        }
      }
      RawValueEndStep(data, start, limit, valueEnd);
      valueEnd := valueEnd + 1;
    }
  }

  /** The two bytes of the searched handle, `handle & 0xFF` and
      `(handle >> 8) & 0xFF`. */
  function HandleLo(handle: nat): byte {
    handle % 256
  }

  function HandleHi(handle: nat): byte {
    (handle / 256) % 256
  }

  /** A write request to `handle` at `i`. Only opcode 0x12 is matched. */
  predicate IsRawMatch(data: seq<byte>, handle: nat, i: nat)
    requires i + 2 < |data|
  {
    data[i] == ATT_WRITE_REQUEST && data[i + 1] == HandleLo(handle) && data[i + 2] == HandleHi(handle)
  }

  /** The writes `extract_writes_from_raw` finds from index i on; after a
      match the scan resumes where the value ended. */
  function RawWritesFrom(data: seq<byte>, handle: nat, i: nat): seq<RawWrite>
    decreases |data| - i
  {
    if i + 20 >= |data| then []
    else if IsRawMatch(data, handle, i) then
      var valueEnd := RawValueEnd(data, i + 3, Min(i + 103, |data|), i + 3);
      (if valueEnd - (i + 3) >= BLOCK_SIZE then [RawWrite(i, data[i + 3 .. i + 3 + BLOCK_SIZE])] else []) +
      RawWritesFrom(data, handle, valueEnd)
    else RawWritesFrom(data, handle, i + 1)
  }

  /** A matched write: the marker bytes at its offset and the 16 bytes
      after them as its value. */
  predicate RawMatched(data: seq<byte>, handle: nat, w: RawWrite) {
    w.offset + 20 < |data| && IsRawMatch(data, handle, w.offset) &&
    w.value == data[w.offset + 3 .. w.offset + 19]
  }

  /** Each write is a 16-byte value after a matching marker, at an offset
      from i on; two writes never overlap: each next one starts at least
      19 bytes after the previous one. */
  predicate RawFoundFrom(data: seq<byte>, handle: nat, ws: seq<RawWrite>, i: nat) {
    (forall k :: 0 <= k < |ws| ==> i <= ws[k].offset && RawMatched(data, handle, ws[k])) &&
    (forall j, k :: 0 <= j < k < |ws| ==> ws[j].offset + 19 <= ws[k].offset)
  }

  lemma PrependRaw(data: seq<byte>, handle: nat, w: RawWrite, ws: seq<RawWrite>, i: nat, next: nat)
    requires RawFoundFrom(data, handle, ws, next)
    requires w.offset == i && i + 19 <= next && RawMatched(data, handle, w)
    ensures RawFoundFrom(data, handle, [w] + ws, i)
  {
    var all := [w] + ws;
    forall k | 1 <= k < |all|
      ensures all[k] == ws[k - 1]
    {
    }
  }

  lemma RawFoundWeaken(data: seq<byte>, handle: nat, ws: seq<RawWrite>, i: nat, j: nat)
    requires RawFoundFrom(data, handle, ws, j) && i <= j
    ensures RawFoundFrom(data, handle, ws, i)
  {
  }

  /** No offset of [i, j) that the scan visits holds a marker. */
  predicate NoRawMatch(data: seq<byte>, handle: nat, i: nat, j: nat) {
    forall k :: i <= k < j && k + 20 < |data| ==> !IsRawMatch(data, handle, k)
  }

  /** Where the value of a match at j ends, and the scan resumes. */
  function RawMatchEnd(data: seq<byte>, j: nat): nat
    requires j + 20 < |data|
  {
    RawValueEnd(data, j + 3, Min(j + 103, |data|), j + 3)
  }

  /** Offsets without a marker contribute nothing: the scan from i finds
      what the scan from j finds. */
  lemma {:induction false} RawWritesFromSkip(data: seq<byte>, handle: nat, i: nat, j: nat)
    requires i <= j && NoRawMatch(data, handle, i, j)
    ensures RawWritesFrom(data, handle, i) == RawWritesFrom(data, handle, j)
    decreases j - i
  {
    if i < j && i + 20 < |data| {
      assert !IsRawMatch(data, handle, i);
      RawWritesFromSkip(data, handle, i + 1, j);
    }
  }

  /** Each write is the 16 bytes after a marker, and writes never overlap. */
  lemma {:induction false} RawWritesFromSound(data: seq<byte>, handle: nat, i: nat)
    ensures RawFoundFrom(data, handle, RawWritesFrom(data, handle, i), i)
    decreases |data| - i
  {
    if i + 20 < |data| {
      if IsRawMatch(data, handle, i) {
        var valueEnd := RawValueEnd(data, i + 3, Min(i + 103, |data|), i + 3);
        RawWritesFromSound(data, handle, valueEnd);
        var rest := RawWritesFrom(data, handle, valueEnd);
        if valueEnd - (i + 3) >= BLOCK_SIZE {
          var w := RawWrite(i, data[i + 3 .. i + 3 + BLOCK_SIZE]);
          PrependRaw(data, handle, w, rest, i, valueEnd);
        } else {
          RawFoundWeaken(data, handle, rest, i, valueEnd);
        }
      } else {
        RawWritesFromSound(data, handle, i + 1);
        RawFoundWeaken(data, handle, RawWritesFrom(data, handle, i + 1), i, i + 1);
      }
    }
  }

  /** The scan from the first marker j on: the write of j, when its value
      has at least 16 bytes, then what the scan finds from the value end. */
  lemma RawWritesFromFirst(data: seq<byte>, handle: nat, i: nat, j: nat)
    requires i <= j && j + 20 < |data| && NoRawMatch(data, handle, i, j) && IsRawMatch(data, handle, j)
    ensures RawWritesFrom(data, handle, i) ==
      (if RawMatchEnd(data, j) - (j + 3) >= BLOCK_SIZE then [RawWrite(j, data[j + 3 .. j + 19])] else []) +
      RawWritesFrom(data, handle, RawMatchEnd(data, j))
  {
    RawWritesFromSkip(data, handle, i, j);
    var rest := RawWritesFrom(data, handle, RawMatchEnd(data, j));
    assert RawWritesFrom(data, handle, j) ==
      (if RawMatchEnd(data, j) - (j + 3) >= BLOCK_SIZE then [RawWrite(j, data[j + 3 .. j + 3 + BLOCK_SIZE])] else []) + rest;
  }

  /** What `extract_writes_from_raw` returns: every value is exactly the
      16 bytes after an 0x12 marker for the handle, and the matches never
      overlap, so offsets strictly increase. With no marker left the scan
      finds nothing; otherwise its first marker gives the first write
      when that value has at least 16 bytes, and the scan goes on where
      the value ends. */
  lemma RawWritesFromSpec(data: seq<byte>, handle: nat, i: nat)
    ensures RawFoundFrom(data, handle, RawWritesFrom(data, handle, i), i)
    ensures NoRawMatch(data, handle, i, |data|) ==> RawWritesFrom(data, handle, i) == []
    ensures forall j :: i <= j && j + 20 < |data| && NoRawMatch(data, handle, i, j) && IsRawMatch(data, handle, j) ==>
      RawWritesFrom(data, handle, i) ==
        (if RawMatchEnd(data, j) - (j + 3) >= BLOCK_SIZE then [RawWrite(j, data[j + 3 .. j + 19])] else []) +
        RawWritesFrom(data, handle, RawMatchEnd(data, j))
  {
    RawWritesFromSound(data, handle, i);
    if i <= |data| && NoRawMatch(data, handle, i, |data|) {
      RawWritesFromSkip(data, handle, i, |data|);
    }
    forall j | i <= j && j + 20 < |data| && NoRawMatch(data, handle, i, j) && IsRawMatch(data, handle, j)
      ensures RawWritesFrom(data, handle, i) ==
        (if RawMatchEnd(data, j) - (j + 3) >= BLOCK_SIZE then [RawWrite(j, data[j + 3 .. j + 19])] else []) +
        RawWritesFrom(data, handle, RawMatchEnd(data, j))
    {
      RawWritesFromFirst(data, handle, i, j);
    }
  }

  /** `extract_writes_from_raw`. */
  method ExtractWritesFromRaw(data: seq<byte>, handle: nat) returns (writes: seq<RawWrite>)
    ensures writes == RawWritesFrom(data, handle, 0)
  {
    writes := [];
    var handleLo := HandleLo(handle);
    var handleHi := HandleHi(handle);
    var i: nat := 0;
    while i + 20 < |data|
      invariant writes + RawWritesFrom(data, handle, i) == RawWritesFrom(data, handle, 0)
      decreases |data| - i
    {
      if data[i] == 0x12 && data[i + 1] == handleLo && data[i + 2] == handleHi {
        var valueStart := i + 3;
        var valueEnd := ScanRawValueEnd(data, valueStart, Min(i + 103, |data|));
        var value := data[valueStart .. valueEnd];
        ghost var rest := RawWritesFrom(data, handle, valueEnd);
        if |value| >= BLOCK_SIZE {
          assert value[..BLOCK_SIZE] == data[i + 3 .. i + 3 + BLOCK_SIZE];
          ConcatAssoc3(writes, [RawWrite(i, value[..BLOCK_SIZE])], rest);
          writes := writes + [RawWrite(i, value[..BLOCK_SIZE])];
        }
        i := valueEnd;
      } else {
        i := i + 1;
      }
    }
    assert writes + [] == writes;
  }

  // ---------------------------------------------------------------------
  // The font extraction of main

  predicate IsLetter(b: byte) {
    65 <= b <= 90 || 97 <= b <= 122
  }

  /** The font bytes one decrypted block contributes: its 15 data bytes
      after a length byte 0x0f, its 6 data bytes after a length byte 0x06,
      nothing otherwise, and nothing when the first data byte is a letter
      (a command). */
  function FontContent(dec: Block): (r: seq<byte>)
    ensures dec[0] == 0x0F && !IsLetter(dec[1]) ==> |r| == 15 && r == Unframe(dec)
    ensures dec[0] == 0x06 && !IsLetter(dec[1]) ==> |r| == 6 && r == Unframe(dec)
    ensures !(dec[0] in {0x0F, 0x06} && !IsLetter(dec[1])) ==> r == []
  {
    if dec[0] == 0x0F && !IsLetter(dec[1]) then dec[1..16]
    else if dec[0] == 0x06 && !IsLetter(dec[1]) then dec[1..7]
    else []
  }

  /** A framed chunk of 15 or 6 bytes that does not start with a letter is
      recognised as font data and comes back whole. */
  lemma FontContentFrame(chunk: seq<byte>)
    requires |chunk| == 15 || |chunk| == 6
    requires !IsLetter(chunk[0])
    ensures FontContent(Frame(chunk)) == chunk
  {
    UnframeFrame(chunk);
    assert Frame(chunk)[1] == chunk[0];
  }

  /** The font bytes of a list of written values, in order. */
  function FontBytes(c: Cipher, values: seq<seq<byte>>): seq<byte> {
    if values == [] then []
    else
      var last := values[|values| - 1];
      FontBytes(c, values[..|values| - 1]) +
      match DecryptBlock(c, last) case None => [] case Some(dec) => FontContent(dec)
  }

  /** The number of values that contributed font bytes. */
  function FontBlockCount(c: Cipher, values: seq<seq<byte>>): nat {
    if values == [] then 0
    else
      var last := values[|values| - 1];
      FontBlockCount(c, values[..|values| - 1]) +
      match DecryptBlock(c, last) case None => 0 case Some(dec) => if FontContent(dec) == [] then 0 else 1
  }

  /** The loop of `main` that collects `all_font_bytes`: each counted block
      brought 6 or 15 bytes. */
  method CollectFontBytes(c: Cipher, values: seq<seq<byte>>) returns (allFontBytes: seq<byte>, blockCount: nat)
    ensures allFontBytes == FontBytes(c, values) && blockCount == FontBlockCount(c, values)
    ensures 6 * blockCount <= |allFontBytes| <= 15 * blockCount
  {
    allFontBytes := [];
    blockCount := 0;
    for i := 0 to |values|
      invariant allFontBytes == FontBytes(c, values[..i]) && blockCount == FontBlockCount(c, values[..i])
      invariant 6 * blockCount <= |allFontBytes| <= 15 * blockCount
    {
      assert values[..i + 1][..i] == values[..i];
      var dec := DecryptBlock(c, values[i]);
      if dec.Some? {
        var d := dec.value;
        var firstContent := d[1];
        if d[0] == 0x0F && !IsLetter(firstContent) {
          allFontBytes := allFontBytes + d[1..16];
          blockCount := blockCount + 1;
        } else if d[0] == 0x06 && !IsLetter(firstContent) {
          allFontBytes := allFontBytes + d[1..7];
          blockCount := blockCount + 1;
        }
      }
    }
    assert values[..|values|] == values;
  }

  const GLYPH_BYTES: nat := 9

  /** The glyph of character index k, when all its 9 bytes exist. */
  predicate HasGlyph(fontBytes: seq<byte>, k: nat) {
    GLYPH_BYTES * k + GLYPH_BYTES <= |fontBytes|
  }

  /** `font_dict` after the characters of `text`: a later character
      overwrites an earlier equal one. */
  function FontDict(text: string, fontBytes: seq<byte>): map<char, seq<byte>> {
    if text == [] then map[]
    else
      var k := |text| - 1;
      var d := FontDict(text[..k], fontBytes);
      if HasGlyph(fontBytes, k) then d[text[k] := fontBytes[GLYPH_BYTES * k .. GLYPH_BYTES * k + GLYPH_BYTES]] else d
  }

  /** A character is in the dictionary exactly when one of its positions k
      has all 9 bytes. */
  lemma {:induction false} FontDictKeys(text: string, fontBytes: seq<byte>)
    ensures forall ch :: ch in FontDict(text, fontBytes) <==>
      exists k :: 0 <= k < |text| && text[k] == ch && HasGlyph(fontBytes, k)
    decreases |text|
  {
    if text != [] {
      var n := |text| - 1;
      var init := text[..n];
      FontDictKeys(init, fontBytes);
      forall ch
        ensures ch in FontDict(text, fontBytes) <==>
          exists k :: 0 <= k < |text| && text[k] == ch && HasGlyph(fontBytes, k)
      {
        if ch in FontDict(text, fontBytes) && !(ch == text[n] && HasGlyph(fontBytes, n)) {
          assert ch in FontDict(init, fontBytes);
          var k :| 0 <= k < n && init[k] == ch && HasGlyph(fontBytes, k);
          assert text[k] == ch;
        }
        if exists k :: 0 <= k < |text| && text[k] == ch && HasGlyph(fontBytes, k) {
          var k :| 0 <= k < |text| && text[k] == ch && HasGlyph(fontBytes, k);
          if k < n {
            assert init[k] == ch;
          }
        }
      }
    }
  }

  /** Position k's 9 bytes are the entry of its character when no later
      position of the same character has a glyph. */
  lemma {:induction false} FontDictAt(text: string, fontBytes: seq<byte>, k: nat)
    requires k < |text| && HasGlyph(fontBytes, k)
    requires forall j :: k < j < |text| && HasGlyph(fontBytes, j) ==> text[j] != text[k]
    ensures text[k] in FontDict(text, fontBytes)
    ensures FontDict(text, fontBytes)[text[k]] == fontBytes[GLYPH_BYTES * k .. GLYPH_BYTES * k + GLYPH_BYTES]
    decreases |text|
  {
    var n := |text| - 1;
    if k < n {
      var init := text[..n];
      assert init[k] == text[k];
      forall j | k < j < n && HasGlyph(fontBytes, j)
        ensures init[j] != init[k]
      {
        assert init[j] == text[j];
      }
      FontDictAt(init, fontBytes, k);
    }
  }

  /** Both halves together: the keys are the characters with a complete
      glyph, and each entry is the slice of the last such position. */
  lemma FontDictSpec(text: string, fontBytes: seq<byte>)
    ensures forall ch :: ch in FontDict(text, fontBytes) <==>
      exists k :: 0 <= k < |text| && text[k] == ch && HasGlyph(fontBytes, k)
    ensures forall k ::
      (0 <= k < |text| && HasGlyph(fontBytes, k) &&
       (forall j :: k < j < |text| && HasGlyph(fontBytes, j) ==> text[j] != text[k])) ==>
      FontDict(text, fontBytes)[text[k]] == fontBytes[GLYPH_BYTES * k .. GLYPH_BYTES * k + GLYPH_BYTES]
  {
    FontDictKeys(text, fontBytes);
    forall k | 0 <= k < |text| && HasGlyph(fontBytes, k) &&
               (forall j :: k < j < |text| && HasGlyph(fontBytes, j) ==> text[j] != text[k])
      ensures text[k] in FontDict(text, fontBytes)
      ensures FontDict(text, fontBytes)[text[k]] == fontBytes[GLYPH_BYTES * k .. GLYPH_BYTES * k + GLYPH_BYTES]
    {
      FontDictAt(text, fontBytes, k);
    }
  }

  /** The 9-byte slicing loop of `main`. */
  method BuildFontDict(text: string, fontBytes: seq<byte>) returns (fontDict: map<char, seq<byte>>)
    ensures fontDict == FontDict(text, fontBytes)
  {
    fontDict := map[];
    for idx := 0 to |text|
      invariant fontDict == FontDict(text[..idx], fontBytes)
    {
      assert text[..idx + 1][..idx] == text[..idx];
      var start := idx * GLYPH_BYTES;
      var end := start + GLYPH_BYTES;
      if end <= |fontBytes| {
        fontDict := fontDict[text[idx] := fontBytes[start..end]];
      }
    }
    assert text[..|text|] == text;
  }
}
