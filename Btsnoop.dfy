/** The btsnoop capture parser of initial_analysis/parse_btsnoop.py: the
    16-byte file header, the 24-byte big-endian record headers that follow
    it, the HCI ACL header (Bluetooth Core Specification, Volume 4, Part E,
    section 5.4.2), the L2CAP basic header (Volume 3, Part A, section 3.1)
    and the ATT Write Request 0x12 / Write Command 0x52 PDUs (Volume 3,
    Part F, sections 3.4.5.1 and 3.4.5.3), and the record walk of
    `analyze_trace` that collects the ATT operations and writes of a
    capture. Multi-byte fields are read with `U16LE`/`U32BE`/`U64BE`. */
module Btsnoop {
  import opened Bytes

  /** `b'btsnoop\0'`. */
  const IDENTIFICATION: seq<byte> := [0x62, 0x74, 0x73, 0x6E, 0x6F, 0x6F, 0x70, 0x00]

  const FILE_HEADER_LENGTH: nat := 16
  const RECORD_HEADER_LENGTH: nat := 24

  const ATT_WRITE_REQUEST: byte := 0x12
  const ATT_WRITE_COMMAND: byte := 0x52
  const ATT_CID: nat := 4

  datatype Header = Header(identification: seq<byte>, version: nat, datalinkType: nat)

  /** `parse_btsnoop_header`. */
  function ParseHeader(data: seq<byte>): (r: Result<Header>)
    ensures r.Ok? <==> |data| >= FILE_HEADER_LENGTH && data[..8] == IDENTIFICATION
    ensures |data| < FILE_HEADER_LENGTH ==> r == Err(HeaderTooShort)
    ensures |data| >= FILE_HEADER_LENGTH && data[..8] != IDENTIFICATION ==> r == Err(BadIdentification)
    ensures r.Ok? ==> r.value.version == U32BE(data[8..12]) && r.value.datalinkType == U32BE(data[12..16])
  {
    if |data| < FILE_HEADER_LENGTH then Err(HeaderTooShort)
    else if data[0..8] != IDENTIFICATION then Err(BadIdentification)
    else Ok(Header(data[0..8], U32BE(data[8..12]), U32BE(data[12..16])))
  }

  datatype Record = Record(
    originalLength: nat,
    includedLength: nat,
    packetFlags: nat,
    cumulativeDrops: nat,
    timestamp: nat,
    data: seq<byte>)

  /** `parse_btsnoop_record`: the record at `offset` and the offset just
      past its `incl_len` data bytes. */
  function ParseRecord(data: seq<byte>, offset: nat): (r: Result<(Record, nat)>)
    ensures r.Err? <==> offset + RECORD_HEADER_LENGTH > |data|
    ensures r.Err? ==> r.error == ShortRecord
    ensures r.Ok? ==>
      var (rec, next) := r.value;
      next == offset + RECORD_HEADER_LENGTH + rec.includedLength && next > offset &&
      rec.includedLength == U32BE(data[offset + 4 .. offset + 8]) &&
      rec.packetFlags == U32BE(data[offset + 8 .. offset + 12]) &&
      (|rec.data| == rec.includedLength <==> next <= |data|) &&
      offset + RECORD_HEADER_LENGTH + |rec.data| <= |data| &&
      |rec.data| <= rec.includedLength &&
      forall k :: 0 <= k < |rec.data| ==> rec.data[k] == data[offset + RECORD_HEADER_LENGTH + k]
  {
    if offset + RECORD_HEADER_LENGTH > |data| then Err(ShortRecord)
    else
      var inclLen := U32BE(data[offset + 4 .. offset + 8]);
      var rec := Record(
        U32BE(data[offset .. offset + 4]),
        inclLen,
        U32BE(data[offset + 8 .. offset + 12]),
        U32BE(data[offset + 12 .. offset + 16]),
        U64BE(data[offset + 16 .. offset + 24]),
        Slice(data, offset + RECORD_HEADER_LENGTH, offset + RECORD_HEADER_LENGTH + inclLen));
      Ok((rec, offset + RECORD_HEADER_LENGTH + inclLen))
  }

  /** A parsed HCI packet: ACL with its 12-bit connection handle, or any
      other type (None standing for the source's 'unknown': an empty packet
      or type 0). */
  datatype HciPacket =
    | Acl(connHandle: nat, payload: seq<byte>, raw: seq<byte>)
    | OtherPacket(packetType: Option<byte>, raw: seq<byte>)

  /** `parse_hci_packet`. */
  function ParseHci(data: seq<byte>): (r: HciPacket)
    ensures r.Acl? <==> |data| > 5 && data[0] == 2
    ensures r.Acl? ==>
      r.connHandle < 4096 && r.connHandle == U16LE(data[1], data[2]) % 4096 &&
      r.payload == Slice(data, 5, 5 + U16LE(data[3], data[4])) && r.raw == data
    ensures r.OtherPacket? ==> r.raw == data && (r.packetType.None? <==> |data| == 0 || data[0] == 0)
  {
    if |data| < 1 then OtherPacket(None, data)
    else if data[0] == 2 && |data| > 5 then
      Acl(U16LE(data[1], data[2]) % 4096, Slice(data, 5, 5 + U16LE(data[3], data[4])), data)
    else OtherPacket(if data[0] == 0 then None else Some(data[0]), data)
  }

  datatype CidName = AttChannel | OtherChannel(cid: nat)

  datatype L2cap = L2cap(length: nat, cid: nat, cidName: CidName, payload: seq<byte>)

  /** `parse_l2cap`: the basic L2CAP header, both fields little-endian. */
  function ParseL2cap(acl: seq<byte>): (r: Option<L2cap>)
    ensures r.None? <==> |acl| < 4
    ensures r.Some? ==>
      r.value.length == U16LE(acl[0], acl[1]) && r.value.cid == U16LE(acl[2], acl[3]) &&
      (r.value.cidName == AttChannel <==> r.value.cid == ATT_CID) &&
      |r.value.payload| <= r.value.length && 4 + |r.value.payload| <= |acl| &&
      forall k :: 0 <= k < |r.value.payload| ==> r.value.payload[k] == acl[4 + k]
  {
    if |acl| < 4 then None
    else
      var length := U16LE(acl[0], acl[1]);
      var cid := U16LE(acl[2], acl[3]);
      Some(L2cap(length, cid, if cid == ATT_CID then AttChannel else OtherChannel(cid), Slice(acl, 4, 4 + length)))
  }

  predicate IsWriteOpcode(opcode: byte) {
    opcode == ATT_WRITE_REQUEST || opcode == ATT_WRITE_COMMAND
  }

  datatype Att = Att(opcode: byte, params: seq<byte>, handle: Option<nat>, value: Option<seq<byte>>)

  /** `parse_att`: the opcode and everything after it; a write also gets
      its little-endian handle and value when it has at least 3 bytes. */
  function ParseAtt(pdu: seq<byte>): (r: Option<Att>)
    ensures r.None? <==> |pdu| == 0
    ensures r.Some? ==> r.value.opcode == pdu[0] && r.value.params == pdu[1..]
    ensures r.Some? ==> (r.value.handle.Some? <==> IsWriteOpcode(pdu[0]) && |pdu| >= 3)
    ensures r.Some? ==> r.value.handle.Some? == r.value.value.Some?
    ensures r.Some? && r.value.handle.Some? ==>
      r.value.handle.value == U16LE(pdu[1], pdu[2]) && r.value.value.value == pdu[3..]
  {
    if |pdu| < 1 then None
    else if IsWriteOpcode(pdu[0]) && |pdu| >= 3 then
      Some(Att(pdu[0], pdu[1..], Some(U16LE(pdu[1], pdu[2])), Some(pdu[3..])))
    else Some(Att(pdu[0], pdu[1..], None, None))
  }

  // ---------------------------------------------------------------------
  // The record walk of analyze_trace

  /** One entry of `all_att_ops`. */
  datatype AttOp = AttOp(record: nat, opcode: byte, handle: Option<nat>, value: Option<seq<byte>>,
                         params: seq<byte>, received: bool)

  /** One entry of `writes`. */
  datatype WriteOp = WriteOp(record: nat, handle: nat, value: seq<byte>, opcode: byte, received: bool)

  datatype Analysis = Analysis(records: nat, writes: seq<WriteOp>, attOps: seq<AttOp>)

  /** `packet_flags & 0x01`: the controller sent this packet to the host. */
  predicate Received(flags: nat) {
    flags % 2 == 1
  }

  /** `packet_flags & 0x02`: a command or event rather than ACL data. */
  predicate CommandOrEvent(flags: nat) {
    (flags / 2) % 2 == 1
  }

  /** The L2CAP bytes of an ACL record: after the 4-byte ACL header, as
      many as its little-endian length field says (clamped). */
  function AclData(rec: Record): seq<byte>
    requires |rec.data| >= 4
  {
    Slice(rec.data, 4, 4 + U16LE(rec.data[2], rec.data[3]))
  }

  /** An ACL data record of at least 4 bytes whose L2CAP channel is ATT. */
  predicate OnAttChannel(rec: Record) {
    !CommandOrEvent(rec.packetFlags) && |rec.data| >= 4 &&
    ParseL2cap(AclData(rec)).Some? && ParseL2cap(AclData(rec)).value.cid == ATT_CID
  }

  /** The ATT PDU a record carries: an ACL data record (read without an
      H4 type byte) of at least 4 bytes, whose L2CAP channel is ATT. */
  function RecordAtt(rec: Record): (r: Option<Att>)
    ensures r.Some? <==> OnAttChannel(rec) && |ParseL2cap(AclData(rec)).value.payload| > 0
    ensures OnAttChannel(rec) ==> r == ParseAtt(ParseL2cap(AclData(rec)).value.payload)
  {
    if CommandOrEvent(rec.packetFlags) || |rec.data| < 4 then None
    else
      match ParseL2cap(AclData(rec))
      case None => None
      case Some(l2cap) => if l2cap.cid == ATT_CID then ParseAtt(l2cap.payload) else None
  }

  /** The walk from `offset` on, records numbered after `n`: it ends at
      the end of the data or at the first record that does not parse; a
      write PDU too short to carry a handle raises KeyError, which the
      loop does not catch. */
  function Walk(data: seq<byte>, offset: nat, n: nat): Result<Analysis>
    decreases |data| - offset
  {
    if offset >= |data| then Ok(Analysis(n, [], []))
    else match ParseRecord(data, offset)
      case Err(_) => Ok(Analysis(n, [], []))
      case Ok((rec, next)) =>
        var rest := Walk(data, next, n + 1);
        match RecordAtt(rec)
        case None => rest
        case Some(att) =>
          if IsWriteOpcode(att.opcode) && att.handle.None? then Err(MissingKey)
          else
            var op := AttOp(n + 1, att.opcode, att.handle, att.value, att.params, Received(rec.packetFlags));
            var ws := if IsWriteOpcode(att.opcode)
              then [WriteOp(n + 1, att.handle.value, att.value.value, att.opcode, Received(rec.packetFlags))]
              else [];
            Then(ws, [op], rest)
  }

  /** The entries of one record in front of the rest of the walk. */
  function Then(ws: seq<WriteOp>, ops: seq<AttOp>, rest: Result<Analysis>): Result<Analysis> {
    match rest
    case Ok(a) => Ok(Analysis(a.records, ws + a.writes, ops + a.attOps))
    case Err(e) => Err(e)
  }

  /** `analyze_trace` on the bytes of a capture: a bad header ends it with
      the header's error; otherwise the walk starts after the header. */
  function Analyze(data: seq<byte>): Result<Analysis> {
    match ParseHeader(data)
    case Err(e) => Err(e)
    case Ok(_) => Walk(data, FILE_HEADER_LENGTH, 0)
  }

  // ---------------------------------------------------------------------
  // What the walk computes, record by record

  /** The records the walk reads from `offset` on: every record up to the
      end of the data or up to the first one that does not parse. */
  function Records(data: seq<byte>, offset: nat): seq<Record>
    decreases |data| - offset
  {
    if offset >= |data| then []
    else match ParseRecord(data, offset)
      case Err(_) => []
      case Ok((rec, next)) => [rec] + Records(data, next)
  }

  /** A write PDU on the ATT channel too short to carry a handle. */
  predicate ShortWrite(rec: Record) {
    RecordAtt(rec).Some? && IsWriteOpcode(RecordAtt(rec).value.opcode) && RecordAtt(rec).value.handle.None?
  }

  /** The `all_att_ops` entry of an ATT record numbered `num`: its PDU's
      fields, with direction `recv` exactly when flag bit 0 is set. */
  function OpOf(rec: Record, num: nat): AttOp
    requires RecordAtt(rec).Some?
  {
    var att := RecordAtt(rec).value;
    AttOp(num, att.opcode, att.handle, att.value, att.params, Received(rec.packetFlags))
  }

  /** The entries of the ATT records among `recs`, numbered from n + 1. */
  function OpsOf(recs: seq<Record>, n: nat): seq<AttOp>
    decreases |recs|
  {
    if recs == [] then []
    else (if RecordAtt(recs[0]).Some? then [OpOf(recs[0], n + 1)] else []) + OpsOf(recs[1..], n + 1)
  }

  /** The `writes` entry of a write operation. */
  function WriteOf(op: AttOp): WriteOp
    requires op.handle.Some? && op.value.Some?
  {
    WriteOp(op.record, op.handle.value, op.value.value, op.opcode, op.received)
  }

  /** A write operation that carries its handle and value. */
  predicate IsWriteOp(op: AttOp) {
    IsWriteOpcode(op.opcode) && op.handle.Some? && op.value.Some?
  }

  /** The write operations among the ATT operations, in order. */
  function WritesOf(ops: seq<AttOp>): seq<WriteOp>
  {
    if ops == [] then []
    else (if IsWriteOp(ops[0]) then [WriteOf(ops[0])] else []) + WritesOf(ops[1..])
  }

  predicate Increasing(ops: seq<AttOp>) {
    forall i, j :: 0 <= i < j < |ops| ==> ops[i].record < ops[j].record
  }

  /** What a walk from record n on returns when it succeeds: ATT operations
      in strictly increasing record order, all numbered between n + 1 and
      the record count, every write among them with its handle; and
      `writes` is the subsequence of write operations. */
  predicate WellFormed(a: Analysis, n: nat) {
    n <= a.records &&
    Increasing(a.attOps) &&
    (forall i :: 0 <= i < |a.attOps| ==> n < a.attOps[i].record <= a.records) &&
    (forall i :: 0 <= i < |a.attOps| && IsWriteOpcode(a.attOps[i].opcode) ==> IsWriteOp(a.attOps[i])) &&
    a.writes == WritesOf(a.attOps)
  }

  /** One record's entries in front of a well-formed rest keep it well formed. */
  lemma PrependOp(a: Analysis, n: nat, op: AttOp, ws: seq<WriteOp>)
    requires WellFormed(a, n + 1) && op.record == n + 1
    requires IsWriteOpcode(op.opcode) ==> IsWriteOp(op)
    requires ws == if IsWriteOpcode(op.opcode) then [WriteOf(op)] else []
    ensures WellFormed(Analysis(a.records, ws + a.writes, [op] + a.attOps), n)
  {
    var ops := [op] + a.attOps;
    assert ops[1..] == a.attOps;
    assert Increasing(ops) by {
      forall i, j | 0 <= i < j < |ops|
        ensures ops[i].record < ops[j].record
      {
        assert ops[j] == a.attOps[j - 1];
        if i > 0 {
          assert ops[i] == a.attOps[i - 1];
        }
      }
    }
    forall i | 0 <= i < |ops|
      ensures n < ops[i].record <= a.records
      ensures IsWriteOpcode(ops[i].opcode) ==> IsWriteOp(ops[i])
    {
      if i > 0 {
        assert ops[i] == a.attOps[i - 1];
      }
    }
  }

  lemma {:induction false} WalkWellFormed(data: seq<byte>, offset: nat, n: nat)
    ensures Walk(data, offset, n).Ok? ==> WellFormed(Walk(data, offset, n).value, n)
    decreases |data| - offset
  {
    if offset < |data| && ParseRecord(data, offset).Ok? {
      var (rec, next) := ParseRecord(data, offset).value;
      WalkWellFormed(data, next, n + 1);
      var rest := Walk(data, next, n + 1);
      if RecordAtt(rec).Some? && rest.Ok? {
        var att := RecordAtt(rec).value;
        if !(IsWriteOpcode(att.opcode) && att.handle.None?) {
          var op := AttOp(n + 1, att.opcode, att.handle, att.value, att.params, Received(rec.packetFlags));
          var ws := if IsWriteOpcode(att.opcode)
            then [WriteOp(n + 1, att.handle.value, att.value.value, att.opcode, Received(rec.packetFlags))]
            else [];
          PrependOp(rest.value, n, op, ws);
        }
      }
    }
  }

  /** One step of the walk: the record at `offset` in front of the walk
      from the next offset. */
  lemma WalkStep(data: seq<byte>, offset: nat, n: nat) returns (rec: Record, next: nat)
    requires offset < |data| && ParseRecord(data, offset).Ok?
    ensures ParseRecord(data, offset).value == (rec, next) && offset < next
    ensures Records(data, offset) == [rec] + Records(data, next)
    ensures RecordAtt(rec).None? ==> Walk(data, offset, n) == Walk(data, next, n + 1)
    ensures ShortWrite(rec) ==> Walk(data, offset, n) == Err(MissingKey)
    ensures RecordAtt(rec).Some? && !ShortWrite(rec) ==>
      var op := OpOf(rec, n + 1);
      IsWriteOpcode(op.opcode) ==> IsWriteOp(op)
    ensures RecordAtt(rec).Some? && !ShortWrite(rec) ==>
      var op := OpOf(rec, n + 1);
      Walk(data, offset, n) == Then(if IsWriteOpcode(op.opcode) then [WriteOf(op)] else [], [op], Walk(data, next, n + 1))
  {
    rec := ParseRecord(data, offset).value.0;
    next := ParseRecord(data, offset).value.1;
  }

  /** Some record of `recs` is a write PDU too short to carry a handle. */
  predicate AnyShortWrite(recs: seq<Record>) {
    exists k :: 0 <= k < |recs| && ShortWrite(recs[k])
  }

  lemma AnyShortWritePrepend(rec: Record, recs: seq<Record>)
    ensures AnyShortWrite([rec] + recs) <==> ShortWrite(rec) || AnyShortWrite(recs)
  {
    var all := [rec] + recs;
    assert all[0] == rec;
    assert forall k :: 0 <= k < |recs| ==> all[k + 1] == recs[k];
    if AnyShortWrite(all) && !ShortWrite(rec) {
      var k :| 0 <= k < |all| && ShortWrite(all[k]);
      assert recs[k - 1] == all[k];
    }
  }

  /** The walk fails exactly when one of the records it reads is a write
      PDU too short to carry a handle. */
  lemma {:induction false} WalkError(data: seq<byte>, offset: nat, n: nat)
    ensures Walk(data, offset, n).Err? <==> AnyShortWrite(Records(data, offset))
    ensures Walk(data, offset, n).Err? ==> Walk(data, offset, n).error == MissingKey
    decreases |data| - offset
  {
    if offset < |data| && ParseRecord(data, offset).Ok? {
      var rec, next := WalkStep(data, offset, n);
      WalkError(data, next, n + 1);
      AnyShortWritePrepend(rec, Records(data, next));
    }
  }

  /** A successful walk counts every record it reads and lists the
      entries of exactly its ATT records. */
  lemma {:induction false} WalkOps(data: seq<byte>, offset: nat, n: nat)
    ensures Walk(data, offset, n).Ok? ==>
      Walk(data, offset, n).value.records == n + |Records(data, offset)| &&
      Walk(data, offset, n).value.attOps == OpsOf(Records(data, offset), n)
    decreases |data| - offset
  {
    if offset < |data| && ParseRecord(data, offset).Ok? {
      var rec, next := WalkStep(data, offset, n);
      WalkOps(data, next, n + 1);
      var recs := Records(data, offset);
      assert recs[0] == rec && recs[1..] == Records(data, next);
    }
  }

  /** Each entry of `ops` is the entry of an ATT record of `recs`,
      numbered by its position after n. */
  predicate EntriesFrom(ops: seq<AttOp>, recs: seq<Record>, n: nat) {
    forall j :: 0 <= j < |ops| ==>
      exists k :: 0 <= k < |recs| && RecordAtt(recs[k]).Some? && ops[j] == OpOf(recs[k], n + k + 1)
  }

  /** Every ATT record of `recs` has its entry in `ops`. */
  predicate EntriesOfAll(ops: seq<AttOp>, recs: seq<Record>, n: nat) {
    forall k :: 0 <= k < |recs| && RecordAtt(recs[k]).Some? ==> OpOf(recs[k], n + k + 1) in ops
  }

  /** Every entry of OpsOf belongs to an ATT record, numbered by its
      position. */
  lemma {:induction false} OpsOfSound(recs: seq<Record>, n: nat)
    ensures EntriesFrom(OpsOf(recs, n), recs, n)
    decreases |recs|
  {
    if recs != [] {
      var rest := recs[1..];
      OpsOfSound(rest, n + 1);
      var ops := OpsOf(recs, n);
      var head := if RecordAtt(recs[0]).Some? then [OpOf(recs[0], n + 1)] else [];
      var tail := OpsOf(rest, n + 1);
      assert ops == head + tail;
      forall j | 0 <= j < |ops|
        ensures exists k :: 0 <= k < |recs| && RecordAtt(recs[k]).Some? && ops[j] == OpOf(recs[k], n + k + 1)
      {
        if j < |head| {
          assert ops[j] == OpOf(recs[0], n + 0 + 1);
        } else {
          assert ops[j] == tail[j - |head|];
          var k :| 0 <= k < |rest| && RecordAtt(rest[k]).Some? && tail[j - |head|] == OpOf(rest[k], n + 1 + k + 1);
          assert recs[k + 1] == rest[k];
          assert ops[j] == OpOf(recs[k + 1], n + (k + 1) + 1);
        }
      }
    }
  }

  /** Every ATT record has its entry in OpsOf, numbered by its position. */
  lemma {:induction false} OpsOfComplete(recs: seq<Record>, n: nat)
    ensures EntriesOfAll(OpsOf(recs, n), recs, n)
    decreases |recs|
  {
    if recs != [] {
      var rest := recs[1..];
      OpsOfComplete(rest, n + 1);
      var head := if RecordAtt(recs[0]).Some? then [OpOf(recs[0], n + 1)] else [];
      assert OpsOf(recs, n) == head + OpsOf(rest, n + 1);
      forall k | 0 <= k < |recs| && RecordAtt(recs[k]).Some?
        ensures OpOf(recs[k], n + k + 1) in OpsOf(recs, n)
      {
        if k > 0 {
          assert recs[k] == rest[k - 1];
          assert OpOf(rest[k - 1], n + 1 + (k - 1) + 1) in OpsOf(rest, n + 1);
        }
      }
    }
  }

  /** `writes` holds exactly the entries of the write operations of `ops`. */
  ghost predicate WritesExactly(writes: seq<WriteOp>, ops: seq<AttOp>) {
    forall w :: w in writes <==> exists i :: 0 <= i < |ops| && IsWriteOp(ops[i]) && w == WriteOf(ops[i])
  }

  lemma {:induction false} WritesOfMembers(ops: seq<AttOp>)
    ensures WritesExactly(WritesOf(ops), ops)
    decreases |ops|
  {
    if ops != [] {
      var rest := ops[1..];
      WritesOfMembers(rest);
      var head := if IsWriteOp(ops[0]) then [WriteOf(ops[0])] else [];
      assert WritesOf(ops) == head + WritesOf(rest);
      forall w
        ensures w in WritesOf(ops) <==> exists i :: 0 <= i < |ops| && IsWriteOp(ops[i]) && w == WriteOf(ops[i])
      {
        if w in WritesOf(rest) {
          var i :| 0 <= i < |rest| && IsWriteOp(rest[i]) && w == WriteOf(rest[i]);
          assert ops[i + 1] == rest[i];
        }
        if exists i :: 0 <= i < |ops| && IsWriteOp(ops[i]) && w == WriteOf(ops[i]) {
          var i :| 0 <= i < |ops| && IsWriteOp(ops[i]) && w == WriteOf(ops[i]);
          if i > 0 {
            assert rest[i - 1] == ops[i];
          }
        }
      }
    }
  }

  /** The walk from `offset` on, stated over the records it reads: it
      fails with MissingKey exactly when one of them is a write PDU too
      short to carry a handle. Otherwise it counts them all; its ATT
      operations are in record order, each is the entry of an ATT record
      and every ATT record has its entry, numbered by its position and
      with direction `recv` exactly when flag bit 0 is set; and the writes
      are exactly the 0x12/0x52 operations among them. */
  lemma WalkSpec(data: seq<byte>, offset: nat, n: nat)
    ensures Walk(data, offset, n).Err? <==> AnyShortWrite(Records(data, offset))
    ensures Walk(data, offset, n).Err? ==> Walk(data, offset, n).error == MissingKey
    ensures Walk(data, offset, n).Ok? ==>
      var a, recs := Walk(data, offset, n).value, Records(data, offset);
      WellFormed(a, n) && a.records == n + |recs| &&
      EntriesFrom(a.attOps, recs, n) && EntriesOfAll(a.attOps, recs, n) && WritesExactly(a.writes, a.attOps)
  {
    WalkError(data, offset, n);
    if Walk(data, offset, n).Ok? {
      var a := Walk(data, offset, n).value;
      WalkWellFormed(data, offset, n);
      WalkOps(data, offset, n);
      OpsOfSound(Records(data, offset), n);
      OpsOfComplete(Records(data, offset), n);
      WritesOfMembers(a.attOps);
    }
  }

  /** A capture with a bad header yields the header's error; otherwise
      the analysis is the walk over the records after the 16-byte header,
      numbered from 1. */
  lemma AnalyzeOutcome(data: seq<byte>)
    ensures ParseHeader(data).Err? ==> Analyze(data) == Err(ParseHeader(data).error)
    ensures ParseHeader(data).Ok? ==>
      var recs := Records(data, FILE_HEADER_LENGTH);
      (Analyze(data).Err? <==> AnyShortWrite(recs)) &&
      (Analyze(data).Ok? ==>
         WellFormed(Analyze(data).value, 0) && Analyze(data).value.records == |recs| &&
         Analyze(data).value.attOps == OpsOf(recs, 0))
  {
    if ParseHeader(data).Ok? {
      WalkError(data, FILE_HEADER_LENGTH, 0);
      WalkWellFormed(data, FILE_HEADER_LENGTH, 0);
      WalkOps(data, FILE_HEADER_LENGTH, 0);
    }
  }

  /** `analyze_trace`'s loop: walk the records from offset 16, count them,
      and append every ATT operation and every write in record order. */
  method AnalyzeTrace(data: seq<byte>) returns (r: Result<Analysis>)
    ensures r == Analyze(data)
  {
    var header := ParseHeader(data);
    if header.Err? {
      return Err(header.error);
    }
    var offset: nat := FILE_HEADER_LENGTH;
    var recordNum: nat := 0;
    var writes: seq<WriteOp> := [];
    var allAttOps: seq<AttOp> := [];
    assert Then(writes, allAttOps, Walk(data, offset, recordNum)) == Analyze(data) by {
      ThenEmpty(Walk(data, offset, recordNum));
    }
    while offset < |data|
      invariant Then(writes, allAttOps, Walk(data, offset, recordNum)) == Analyze(data)
      decreases |data| - offset
    {
      var parsed := ParseRecord(data, offset);
      if parsed.Err? {
        break;
      }
      var (rec, next) := parsed.value;
      ghost var before := Walk(data, next, recordNum + 1);
      offset := next;
      recordNum := recordNum + 1;
      var att := RecordAtt(rec);
      if att.Some? {
        var a := att.value;
        var received := Received(rec.packetFlags);
        if IsWriteOpcode(a.opcode) && a.handle.None? {
          return Err(MissingKey);
        }
        var op := AttOp(recordNum, a.opcode, a.handle, a.value, a.params, received);
        var ws := if IsWriteOpcode(a.opcode) then [WriteOp(recordNum, a.handle.value, a.value.value, a.opcode, received)] else [];
        ThenAssoc(writes, allAttOps, ws, [op], before);
        allAttOps := allAttOps + [op];
        writes := writes + ws;
      }
    }
    if offset < |data| {
      assert Walk(data, offset, recordNum) == Ok(Analysis(recordNum, [], []));
    }
    ThenEmptyRest(writes, allAttOps, recordNum);
    r := Then(writes, allAttOps, Ok(Analysis(recordNum, [], [])));
  }

  lemma ThenEmpty(rest: Result<Analysis>)
    ensures Then([], [], rest) == rest
  {
    if rest.Ok? {
      assert [] + rest.value.writes == rest.value.writes;
      assert [] + rest.value.attOps == rest.value.attOps;
    }
  }

  lemma ThenAssoc(w1: seq<WriteOp>, o1: seq<AttOp>, w2: seq<WriteOp>, o2: seq<AttOp>, rest: Result<Analysis>)
    ensures Then(w1, o1, Then(w2, o2, rest)) == Then(w1 + w2, o1 + o2, rest)
  {
    if rest.Ok? {
      assert w1 + (w2 + rest.value.writes) == (w1 + w2) + rest.value.writes;
      assert o1 + (o2 + rest.value.attOps) == (o1 + o2) + rest.value.attOps;
    }
  }

  lemma ThenEmptyRest(ws: seq<WriteOp>, ops: seq<AttOp>, n: nat)
    ensures Then(ws, ops, Ok(Analysis(n, [], []))) == Ok(Analysis(n, ws, ops))
  {
    assert ws + [] == ws && ops + [] == ops;
  }
}
