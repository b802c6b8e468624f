/**
  RS-422 frames: checksum, command encoding, file-data packets and decoding (rs422_protocol.c).

  A frame is sync(2) | packet id(2) | sequence control(2) | data length - 1 (2) | data | checksum(2),
  all big-endian; the header after the sync word is laid out like the primary header of
  section 4.1.2 of CCSDS 133.0-B-1.
 */
module Rs422Protocol {
  import opened Bytes

  const SYNC_CMD: u16 := 0xEB90
  const SYNC_ACK: u16 := 0x1ACF
  const HEADER_SIZE := 8
  const CHECKSUM_SIZE := 2
  const MAX_PAYLOAD_SIZE := 1002
  const APID_FILE_DATA: u16 := 0x018F

  // ---------------------------------------------------------------- checksum

  function Sum(s: seq<byte>): nat {
    if s == [] then 0 else Sum(s[..|s| - 1]) + s[|s| - 1]
  }

  /** One's complement of the byte sum, low sixteen bits. */
  function Checksum(s: seq<byte>): u16 {
    0xFFFF - Sum(s) % 0x1_0000
  }

  /** rs422_checksum over data[from..to]: a uint32_t accumulator, complemented and truncated. */
  method ComputeChecksum(data: array<byte>, from: nat, to: nat) returns (r: u16)
    requires from <= to <= data.Length
    ensures r == Checksum(data[from..to])
  {
    var sum: u32 := 0;
    for i := from to to
      invariant sum == Sum(data[from..i]) % 0x1_0000_0000
    {
      assert data[from..i + 1][..i - from] == data[from..i];
      sum := (sum + data[i]) % 0x1_0000_0000;
    }
    TruncateSum(Sum(data[from..to]));
    r := (0xFFFF_FFFF - sum) % 0x1_0000;
  }

  lemma TruncateSum(x: nat)
    ensures (0xFFFF_FFFF - x % 0x1_0000_0000) % 0x1_0000 == 0xFFFF - x % 0x1_0000
  {
    var q, r := x / 0x1_0000_0000, x % 0x1_0000_0000;
    var h, l := r / 0x1_0000, r % 0x1_0000;
    assert x == (0x1_0000 * q + h) * 0x1_0000 + l;
    assert x % 0x1_0000 == l;
    assert 0xFFFF_FFFF - r == (0xFFFF - h) * 0x1_0000 + (0xFFFF - l);
  }

  lemma {:induction false} SumSplit(a: seq<byte>, b: seq<byte>)
    ensures Sum(a + b) == Sum(a) + Sum(b)
    decreases |b|
  {
    if b == [] {
      assert a + b == a;
    } else {
      var n := |b| - 1;
      assert (a + b)[..|a + b| - 1] == a + b[..n];
      SumSplit(a, b[..n]);
    }
  }

  /** Two inputs that differ in exactly one byte never share a checksum. */
  lemma ChecksumDetectsOneByte(pre: seq<byte>, x: byte, y: byte, post: seq<byte>)
    requires Checksum(pre + [x] + post) == Checksum(pre + [y] + post)
    ensures x == y
  {
    SumSplit(pre + [x], post);
    SumSplit(pre, [x]);
    SumSplit(pre + [y], post);
    SumSplit(pre, [y]);
    assert Sum([x]) == x && Sum([y]) == y by {
      assert [x][..0] == [] && [y][..0] == [];
    }
    ResidueUnique(Sum(pre) + Sum(post), x, y);
  }

  lemma ResidueUnique(base: nat, x: byte, y: byte)
    requires (base + x) % 0x1_0000 == (base + y) % 0x1_0000
    ensures x == y
  {
    var q1, q2 := (base + x) / 0x1_0000, (base + y) / 0x1_0000;
    assert x - y == 0x1_0000 * (q1 - q2);
  }

  // ---------------------------------------------------------------- frame layout

  /** Everything between the sync word and the checksum; the length field is a uint16_t. */
  function Body(packetId: u16, seqCtrl: u16, word: u16, payload: seq<byte>): seq<byte> {
    Be16(packetId) + Be16(seqCtrl) + Be16((|payload| + 1) % 0x1_0000) + Be16(word) + payload
  }

  function Seal(sync: u16, body: seq<byte>): seq<byte> {
    Be16(sync) + body + Be16(Checksum(body))
  }

  /** A command frame: grouping flags 0b11 and the low fourteen bits of the counter. */
  function CommandFrame(sync: u16, apid: u16, cmd: u16, payload: seq<byte>, counter: u16): seq<byte>
    requires |payload| <= MAX_PAYLOAD_SIZE - 2
  {
    Seal(sync, Body(apid % 0x800, 0xC000 + counter % 0x4000, cmd, payload))
  }

  /** The two grouping bits of a file-data packet: alone, first, last or middle of its segment. */
  function GroupFlag(index: nat, total: nat): (f: nat)
    ensures f < 4
  {
    if total == 1 then 3 else if index == 0 then 1 else if index == total - 1 then 2 else 0
  }

  function FileDataFrame(segment: u16, data: seq<byte>, index: nat, total: nat): seq<byte> {
    Seal(SYNC_CMD, Body(APID_FILE_DATA % 0x800, GroupFlag(index, total) * 0x4000 + index % 0x4000, segment, data))
  }

  datatype Decoded =
    | Ok(apid: u16, cmd: u16, payload: seq<byte>)
    | InvalidParam
    | BadFrame

  /** rs422_decode_frame, which accepts only the acknowledgement sync word. */
  function Decode(frame: seq<byte>): Decoded {
    if |frame| < HEADER_SIZE + 2 + CHECKSUM_SIZE then InvalidParam
    else if FromBe16(frame[0], frame[1]) != SYNC_ACK then BadFrame
    else
      var dataLen: nat := FromBe16(frame[6], frame[7]) + 1;
      if dataLen < 2 then BadFrame
      else if |frame| < HEADER_SIZE + dataLen + CHECKSUM_SIZE then BadFrame
      else
        var at := HEADER_SIZE + dataLen;
        if FromBe16(frame[at], frame[at + 1]) != Checksum(frame[2..at]) then BadFrame
        else Ok(FromBe16(frame[2], frame[3]), FromBe16(frame[8], frame[9]), frame[10..at])
  }

  /** The same checks made in place over the receive buffer. */
  method DecodeFrame(buf: array<byte>, len: nat) returns (r: Decoded)
    requires len <= buf.Length
    ensures r == Decode(buf[..len])
  {
    if len < HEADER_SIZE + 2 + CHECKSUM_SIZE {
      return InvalidParam;
    }
    if FromBe16(buf[0], buf[1]) != SYNC_ACK {
      return BadFrame;
    }
    var dataLen: nat := FromBe16(buf[6], buf[7]) + 1;
    if dataLen < 2 || len < HEADER_SIZE + dataLen + CHECKSUM_SIZE {
      return BadFrame;
    }
    var at := HEADER_SIZE + dataLen;
    var expected := ComputeChecksum(buf, 2, at);
    assert buf[..len][2..at] == buf[2..at];
    if FromBe16(buf[at], buf[at + 1]) != expected {
      return BadFrame;
    }
    assert buf[..len][10..at] == buf[10..at];
    return Ok(FromBe16(buf[2], buf[3]), FromBe16(buf[8], buf[9]), buf[10..at]);
  }

  // ---------------------------------------------------------------- the encoder and its counter

  function NextCounter(c: u16): u16 {
    (c + 1) % 0x1_0000
  }

  function RollbackCounter(c: u16): u16 {
    if c > 0 then c - 1 else c
  }

  /** rs422_seq_counter_rollback undoes an increment exactly when the increment did not wrap. */
  lemma RollbackUndoesUnlessWrapped(c: u16)
    ensures RollbackCounter(NextCounter(c)) == c <==> c != 0xFFFF
    ensures NextCounter(c) == if c == 0xFFFF then 0 else c + 1
  {
  }

  method Memcpy(buf: array<byte>, offset: nat, src: seq<byte>)
    requires offset + |src| <= buf.Length
    modifies buf
    ensures buf[..offset + |src|] == old(buf[..offset]) + src
    ensures forall k :: offset + |src| <= k < buf.Length ==> buf[k] == old(buf[k])
  {
    for i := 0 to |src|
      invariant forall k :: 0 <= k < buf.Length && !(offset <= k < offset + i) ==> buf[k] == old(buf[k])
      invariant forall k :: 0 <= k < i ==> buf[offset + k] == src[k]
    {
      buf[offset + i] := src[i];
    }
    assert forall k :: offset <= k < offset + |src| ==> buf[k] == src[k - offset] by {
      forall k | offset <= k < offset + |src|
        ensures buf[k] == src[k - offset]
      {
        assert buf[offset + (k - offset)] == src[k - offset];
      }
    }
  }

  /** The header, field by field. */
  method PutHeader(packetId: u16, seqCtrl: u16, dataLen: u16, word: u16, buf: array<byte>)
    requires buf.Length >= 10
    modifies buf
    ensures buf[..10] == Be16(SYNC_CMD) + (Be16(packetId) + Be16(seqCtrl) + Be16(dataLen) + Be16(word))
    ensures forall k :: 10 <= k < buf.Length ==> buf[k] == old(buf[k])
  {
    Memcpy(buf, 0, Be16(SYNC_CMD));
    Memcpy(buf, 2, Be16(packetId));
    Memcpy(buf, 4, Be16(seqCtrl));
    Memcpy(buf, 6, Be16(dataLen));
    Memcpy(buf, 8, Be16(word));
  }

  /** Header, data and the checksum over everything after the sync word. */
  method PutFrame(packetId: u16, seqCtrl: u16, word: u16, payload: seq<byte>, buf: array<byte>) returns (len: nat)
    requires HEADER_SIZE + |payload| + 4 <= buf.Length
    modifies buf
    ensures len == |payload| + 12
    ensures buf[..len] == Seal(SYNC_CMD, Body(packetId, seqCtrl, word, payload))
    ensures forall k :: len <= k < buf.Length ==> buf[k] == old(buf[k])
  {
    PutHeader(packetId, seqCtrl, (2 + |payload| - 1) % 0x1_0000, word, buf);
    Memcpy(buf, 10, payload);
    var at := 10 + |payload|;
    ghost var body := Body(packetId, seqCtrl, word, payload);
    assert buf[..at] == Be16(SYNC_CMD) + body;
    var sum := ComputeChecksum(buf, 2, at);
    assert buf[2..at] == buf[..at][2..] == body;
    Memcpy(buf, at, Be16(sum));
    len := at + 2;
  }

  class Encoder {
    /** g_seq_counter */
    var counter: u16

    constructor ()
      ensures counter == 0
    {
      counter := 0;
    }

    /** rs422_encode_frame; None is ERROR_INVALID_PARAM, with nothing written or counted. */
    method EncodeFrame(apid: u16, cmd: u16, payload: seq<byte>, buf: array<byte>) returns (len: int)
      modifies this, buf
      ensures len >= 0 <==> |payload| <= MAX_PAYLOAD_SIZE - 2 && HEADER_SIZE + |payload| + 4 <= buf.Length
      ensures len >= 0 ==> len == |payload| + 12
                           && buf[..len] == CommandFrame(SYNC_CMD, apid, cmd, payload, old(counter))
                           && counter == NextCounter(old(counter))
      ensures len >= 0 ==> forall k :: len <= k < buf.Length ==> buf[k] == old(buf[k])
      ensures len < 0 ==> buf[..] == old(buf[..]) && counter == old(counter)
    {
      if buf.Length < HEADER_SIZE + |payload| + CHECKSUM_SIZE + 2 || |payload| > MAX_PAYLOAD_SIZE - 2 {
        return -1;
      }
      var c := counter;
      counter := (counter + 1) % 0x1_0000;
      len := PutFrame(apid % 0x800, 0xC000 + c % 0x4000, cmd, payload, buf);
    }

    /** rs422_seq_counter_rollback */
    method Rollback()
      modifies this
      ensures counter == RollbackCounter(old(counter))
    {
      if counter > 0 {
        counter := counter - 1;
      }
    }
  }

  /** rs422_build_file_data: the packet position is carried by the sequence control word. */
  method BuildFileData(segment: u16, data: seq<byte>, buf: array<byte>, index: nat, total: nat) returns (len: int)
    modifies buf
    ensures len >= 0 <==> |data| > 0 && HEADER_SIZE + |data| + 4 <= buf.Length
    ensures len >= 0 ==> len == |data| + 12 && buf[..len] == FileDataFrame(segment, data, index, total)
    ensures len >= 0 ==> forall k :: len <= k < buf.Length ==> buf[k] == old(buf[k])
    ensures len < 0 ==> buf[..] == old(buf[..])
  {
    if |data| == 0 || buf.Length < HEADER_SIZE + 2 + |data| + CHECKSUM_SIZE {
      return -1;
    }
    var flag := 0;
    if total == 1 {
      flag := 3;
    } else if index == 0 {
      flag := 1;
    } else if index == total - 1 {
      flag := 2;
    }
    len := PutFrame(APID_FILE_DATA % 0x800, flag * 0x4000 + index % 0x4000, segment, data, buf);
  }

  // ---------------------------------------------------------------- round trips

  /** The fields of a sealed frame, each at its own offset. */
  lemma SealedFields(sync: u16, packetId: u16, seqCtrl: u16, word: u16, payload: seq<byte>)
    ensures var body := Body(packetId, seqCtrl, word, payload);
            var f := Seal(sync, body);
            && |f| == |payload| + 12
            && [f[0], f[1]] == Be16(sync) && [f[2], f[3]] == Be16(packetId) && [f[4], f[5]] == Be16(seqCtrl)
            && [f[6], f[7]] == Be16((|payload| + 1) % 0x1_0000) && [f[8], f[9]] == Be16(word)
            && f[10..|f| - 2] == payload && f[2..|f| - 2] == body
            && [f[|f| - 2], f[|f| - 1]] == Be16(Checksum(body))
  {
    hide Checksum;
    var body := Body(packetId, seqCtrl, word, payload);
    var f := Seal(sync, body);
    assert |body| == 8 + |payload| && body[8..] == payload;
    assert f[2..|f| - 2] == body;
    assert forall k :: 2 <= k < 10 ==> f[k] == body[k - 2];
  }

  lemma ReadsBack(hi: byte, lo: byte, v: u16)
    requires [hi, lo] == Be16(v)
    ensures FromBe16(hi, lo) == v
  {
    assert hi == [hi, lo][0] && lo == [hi, lo][1];
  }

  /** Decoding a sealed body gives back its packet id, command word and payload. */
  lemma DecodeSealed(packetId: u16, seqCtrl: u16, word: u16, payload: seq<byte>)
    requires |payload| < 0xFFFF
    ensures Decode(Seal(SYNC_ACK, Body(packetId, seqCtrl, word, payload))) == Ok(packetId, word, payload)
  {
    hide Seal, Body, Checksum;
    SealedFields(SYNC_ACK, packetId, seqCtrl, word, payload);
    var f := Seal(SYNC_ACK, Body(packetId, seqCtrl, word, payload));
    ReadsBack(f[6], f[7], |payload| + 1);
  }

  /**
    An encoded command whose sync word is exchanged for that of a reply decodes to the low
    eleven APID bits, the command code and the payload; left as it is, it is refused.
   */
  lemma CodecRoundTrip(apid: u16, cmd: u16, payload: seq<byte>, counter: u16)
    requires |payload| <= MAX_PAYLOAD_SIZE - 2
    ensures var f := CommandFrame(SYNC_CMD, apid, cmd, payload, counter);
            && Decode(Be16(SYNC_ACK) + f[2..]) == Ok(apid % 0x800, cmd, payload)
            && Decode(f) == BadFrame
  {
    var id, ctrl := apid % 0x800, 0xC000 + counter % 0x4000;
    DecodeSealed(id, ctrl, cmd, payload);
    ResyncSealed(Body(id, ctrl, cmd, payload));
  }

  lemma ResyncSealed(body: seq<byte>)
    requires |body| >= 8
    ensures Be16(SYNC_ACK) + Seal(SYNC_CMD, body)[2..] == Seal(SYNC_ACK, body)
    ensures Decode(Seal(SYNC_CMD, body)) == BadFrame
  {
    var f := Seal(SYNC_CMD, body);
    assert f[2..] == body + Be16(Checksum(body));
    assert f[0] == 0xEB && f[1] == 0x90;
  }

  /** What a receiver reads out of a file-data packet by field offset. */
  datatype FilePacket = FilePacket(segment: nat, flag: nat, index: nat, data: seq<byte>)

  function ReadFilePacket(frame: seq<byte>): FilePacket
    requires |frame| >= 12
  {
    var ctrl := FromBe16(frame[4], frame[5]);
    FilePacket(FromBe16(frame[8], frame[9]), ctrl / 0x4000, ctrl % 0x4000, frame[10..|frame| - 2])
  }

  /** Segment number, grouping flag, index and data survive the packet, for indices below 2^14. */
  lemma FilePacketRoundTrip(segment: u16, data: seq<byte>, index: nat, total: nat)
    requires index < 0x4000
    ensures |FileDataFrame(segment, data, index, total)| == |data| + 12
    ensures ReadFilePacket(FileDataFrame(segment, data, index, total))
         == FilePacket(segment, GroupFlag(index, total), index, data)
  {
    hide Seal, Body, GroupFlag, Checksum, Be16, FromBe16;
    var flag := GroupFlag(index, total);
    var ctrl := flag * 0x4000 + index % 0x4000;
    var f := Seal(SYNC_CMD, Body(APID_FILE_DATA % 0x800, ctrl, segment, data));
    SealedFields(SYNC_CMD, APID_FILE_DATA % 0x800, ctrl, segment, data);
    ReadsBack(f[4], f[5], ctrl);
    ReadsBack(f[8], f[9], segment);
    assert ctrl / 0x4000 == flag && ctrl % 0x4000 == index;
  }

  // ---------------------------------------------------------------- the bytes on the wire

  /** The sum of the bytes and the checksum behind them make sixteen ones. */
  lemma ChecksumCompletes(s: seq<byte>)
    ensures (Sum(s) + Checksum(s)) % 0x1_0000 == 0xFFFF
  {
    var q, r := Sum(s) / 0x1_0000, Sum(s) % 0x1_0000;
    assert Sum(s) + Checksum(s) == q * 0x1_0000 + 0xFFFF;
  }

  /** No other sixteen-bit number does. */
  lemma ChecksumUnique(s: seq<byte>, v: u16)
    requires (Sum(s) + v) % 0x1_0000 == 0xFFFF
    ensures v == Checksum(s)
  {
    var q, k := Sum(s) / 0x1_0000, (Sum(s) + v) / 0x1_0000;
    var r := Sum(s) % 0x1_0000;
    assert r + v - 0xFFFF == (k - q) * 0x1_0000;
  }

  lemma ChecksumTest(s: seq<byte>, v: u16)
    ensures v == Checksum(s) <==> (Sum(s) + v) % 0x1_0000 == 0xFFFF
  {
    ChecksumCompletes(s);
    if (Sum(s) + v) % 0x1_0000 == 0xFFFF {
      ChecksumUnique(s, v);
    }
  }

  /** The sixteen bits in bytes `i` and `i + 1`. */
  function Word(f: seq<byte>, i: nat): nat
    requires i + 1 < |f|
  {
    f[i] as int * 0x100 + f[i + 1]
  }

  /** A frame of either kind, byte by byte, up to its payload, and the sum over it. */
  predicate OnWire(f: seq<byte>, sync: nat, id: nat, control: nat, word: nat, payload: seq<byte>) {
    && |f| == |payload| + 12
    && Word(f, 0) == sync && Word(f, 2) == id && Word(f, 4) == control && Word(f, 6) == |payload| + 1
    && Word(f, 8) == word && f[10..|f| - 2] == payload
    && (Sum(f[2..|f| - 2]) + Word(f, |f| - 2)) % 0x1_0000 == 0xFFFF
  }

  lemma SealedOnWire(sync: u16, id: u16, control: u16, word: u16, payload: seq<byte>)
    requires |payload| < 0xFFFF
    ensures OnWire(Seal(sync, Body(id, control, word, payload)), sync, id, control, word, payload)
  {
    hide Seal, Body, Checksum, Sum;
    var body := Body(id, control, word, payload);
    var f := Seal(sync, body);
    SealedFields(sync, id, control, word, payload);
    ChecksumCompletes(body);
    ReadsBack(f[0], f[1], sync);
    ReadsBack(f[2], f[3], id);
    ReadsBack(f[4], f[5], control);
    ReadsBack(f[6], f[7], |payload| + 1);
    ReadsBack(f[8], f[9], word);
    ReadsBack(f[|f| - 2], f[|f| - 1], Checksum(body));
  }

  /** A command: EB 90, eleven bits of APID, two ones and fourteen bits of counter, length, code, payload, sum. */
  lemma CommandOnWire(apid: u16, cmd: u16, payload: seq<byte>, counter: u16)
    requires |payload| <= 1000
    ensures OnWire(CommandFrame(SYNC_CMD, apid, cmd, payload, counter),
                   0xEB90, apid % 0x800, 0xC000 + counter % 0x4000, cmd, payload)
  {
    hide OnWire;
    SealedOnWire(SYNC_CMD, apid % 0x800, 0xC000 + counter % 0x4000, cmd, payload);
  }

  /** A file-data packet: EB 90, 01 8F, group and index, length, segment number, data, sum. */
  lemma FileDataOnWire(segment: u16, data: seq<byte>, index: nat, total: nat)
    requires index < 0x4000 && |data| < 0xFFFF
    ensures var group := if total == 1 then 3 else if index == 0 then 1 else if index == total - 1 then 2 else 0;
            OnWire(FileDataFrame(segment, data, index, total), 0xEB90, 0x018F, group * 0x4000 + index, segment, data)
  {
    hide OnWire;
    SealedOnWire(SYNC_CMD, APID_FILE_DATA % 0x800, GroupFlag(index, total) * 0x4000 + index % 0x4000, segment, data);
  }

  /**
    The notice before an upload, at the head of a run, to the byte: its header ends in C0 00 00 03 and
    its sum is FD 67; that of the one after is FD 66.
   */
  lemma UploadNotices()
    ensures CommandFrame(SYNC_CMD, 0x0180, 0xA207, [0x01, 0xAA], 0)
         == [0xEB, 0x90, 0x01, 0x80, 0xC0, 0x00, 0x00, 0x03, 0xA2, 0x07, 0x01, 0xAA, 0xFD, 0x67]
    ensures CommandFrame(SYNC_CMD, 0x0180, 0xA207, [0x02, 0xAA], 0)
         == [0xEB, 0x90, 0x01, 0x80, 0xC0, 0x00, 0x00, 0x03, 0xA2, 0x07, 0x02, 0xAA, 0xFD, 0x66]
  {
    NoticeBytes(0x01);
    NoticeBytes(0x02);
  }

  lemma NoticeBytes(code: byte)
    requires code <= 2
    ensures CommandFrame(SYNC_CMD, 0x0180, 0xA207, [code, 0xAA], 0)
         == [0xEB, 0x90, 0x01, 0x80, 0xC0, 0x00, 0x00, 0x03, 0xA2, 0x07, code, 0xAA, 0xFD, 0x68 - code]
  {
    hide Seal, Sum, Checksum;
    var body := Body(0x0180, 0xC000, 0xA207, [code, 0xAA]);
    assert body == [0x01, 0x80, 0xC0, 0x00, 0x00, 0x03, 0xA2, 0x07, code, 0xAA];
    NoticeSum(code);
    ChecksumUnique(body, 0xFD68 - code);
    SealedBytes(SYNC_CMD, body, 0xFD68 - code);
  }

  lemma SealedBytes(sync: u16, body: seq<byte>, sum: u16)
    requires sum == Checksum(body)
    ensures Seal(sync, body) == [sync / 0x100, sync % 0x100] + body + [sum / 0x100, sum % 0x100]
  {
  }

  lemma SumSnoc(s: seq<byte>, x: byte)
    ensures Sum(s + [x]) == Sum(s) + x
  {
    assert (s + [x])[..|s|] == s;
  }

  lemma NoticeSum(code: byte)
    ensures Sum([0x01, 0x80, 0xC0, 0x00, 0x00, 0x03, 0xA2, 0x07, code, 0xAA]) == 0x297 + code
  {
    hide Sum;
    var a: seq<byte> := [0x01, 0x80];
    assert Sum(a) == 0x81 by {
      SumSnoc([], 0x01);
      SumSnoc([0x01], 0x80);
      assert [] + [0x01] == [0x01] && [0x01] + [0x80] == a;
      SumOfNothing();
    }
    SumSnoc(a, 0xC0);
    SumSnoc(a + [0xC0], 0x00);
    SumSnoc(a + [0xC0] + [0x00], 0x00);
    SumSnoc(a + [0xC0] + [0x00] + [0x00], 0x03);
    var b := a + [0xC0] + [0x00] + [0x00] + [0x03];
    assert Sum(b) == 0x144;
    SumSnoc(b, 0xA2);
    SumSnoc(b + [0xA2], 0x07);
    SumSnoc(b + [0xA2] + [0x07], code);
    SumSnoc(b + [0xA2] + [0x07] + [code], 0xAA);
    assert b + [0xA2] + [0x07] + [code] + [0xAA] == [0x01, 0x80, 0xC0, 0x00, 0x00, 0x03, 0xA2, 0x07, code, 0xAA];
  }

  lemma SumOfNothing()
    ensures Sum([]) == 0
  {
  }

  /**
    What the decoder lets pass: 1A CF, a length of at least one that the frame has room for, and bytes
    after the first two that sum up to sixteen ones with the two behind them. It returns the packet id,
    the word at eight and what lies between that and the sum.
   */
  lemma DecodesExactly(f: seq<byte>)
    ensures Decode(f).Ok? <==>
            && |f| >= 12 && Word(f, 0) == 0x1ACF && Word(f, 6) >= 1 && |f| >= Word(f, 6) + 11
            && (Sum(f[2..Word(f, 6) + 9]) + Word(f, Word(f, 6) + 9)) % 0x1_0000 == 0xFFFF
    ensures Decode(f).Ok? ==> Decode(f) == Ok(Word(f, 2), Word(f, 8), f[10..Word(f, 6) + 9])
  {
    hide Checksum, Sum;
    if |f| >= 12 && Word(f, 6) >= 1 && |f| >= Word(f, 6) + 11 {
      ChecksumTest(f[2..Word(f, 6) + 9], Word(f, Word(f, 6) + 9));
    }
  }
}
