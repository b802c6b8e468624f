/**
  Messages of the base station over TCP (cpri_protocol.c and the receive callback of main.c): a
  length-prefixed format reassembled in one fixed buffer, with payloads copied into a fixed pool.
 */
module Cpri {
  import opened Bytes
  import opened Options
  import TxGate

  const CPRI_HEADER_LEN := 15
  const RECV_BUFFER_SIZE := 8192
  const MAX_CPRI_PAYLOAD_SIZE := 8192
  const MAX_CPRI_MESSAGE_POOL := 16
  const MSG_CHANNEL_SETUP_CFG: u32 := 2

  // ---------------------------------------------------------------- wire format

  datatype Header = Header(msgId: u32, msgLength: u32, paauId: byte, bbuId: byte, portNum: byte, serialNum: u32)

  datatype Message = Message(header: Header, payload: seq<byte>)

  function TotalLength(m: Message): nat {
    CPRI_HEADER_LEN + |m.payload|
  }

  /** A message whose length fits its 32-bit field. */
  predicate Encodable(m: Message) {
    TotalLength(m) < 0x1_0000_0000
  }

  /** A message the receive buffer can hold. */
  predicate Sendable(m: Message) {
    TotalLength(m) <= RECV_BUFFER_SIZE
  }

  function HeaderBytes(h: Header, total: u32): (r: seq<byte>)
    ensures |r| == CPRI_HEADER_LEN
  {
    var id := Le32(h.msgId);
    var len := Le32(total);
    var serial := Le32(h.serialNum);
    [id[0], id[1], id[2], id[3], len[0], len[1], len[2], len[3], h.paauId, h.bbuId, h.portNum,
     serial[0], serial[1], serial[2], serial[3]]
  }

  /** The bytes of a message; the length field is computed, not taken from the header. */
  function Encode(m: Message): seq<byte>
    requires Encodable(m)
  {
    HeaderBytes(m.header, TotalLength(m)) + m.payload
  }

  function LengthField(s: seq<byte>): u32
    requires |s| >= CPRI_HEADER_LEN
  {
    FromLe32([s[4], s[5], s[6], s[7]])
  }

  function DecodeHeader(s: seq<byte>): Header
    requires |s| >= CPRI_HEADER_LEN
  {
    Header(FromLe32([s[0], s[1], s[2], s[3]]), LengthField(s), s[8], s[9], s[10],
           FromLe32([s[11], s[12], s[13], s[14]]))
  }

  /** What the other side sees of a message: its own header with the length filled in. */
  function Received(m: Message): Message
    requires Encodable(m)
  {
    Message(m.header.(msgLength := TotalLength(m)), m.payload)
  }

  lemma Le32RoundTrip(v: u32)
    ensures FromLe32(Le32(v)) == v
  {
    var a: int, b: int, c: int := v / 0x100, v / 0x1_0000, v / 0x100_0000;
    assert v == 0x100 * a + v % 0x100;
    assert a == 0x100 * b + a % 0x100;
    assert b == 0x100 * c + b % 0x100;
  }

  /** Decoding undoes encoding, and only the length field is the encoder's own. */
  lemma DecodeEncode(m: Message, rest: seq<byte>)
    requires Encodable(m)
    ensures DecodeHeader(Encode(m) + rest) == Received(m).header
    ensures |Encode(m)| == TotalLength(m)
    ensures (Encode(m) + rest)[CPRI_HEADER_LEN..TotalLength(m)] == m.payload
  {
    var h := HeaderBytes(m.header, TotalLength(m));
    var s := Encode(m) + rest;
    assert forall k :: 0 <= k < CPRI_HEADER_LEN ==> s[k] == h[k];
    Le32RoundTrip(m.header.msgId);
    Le32RoundTrip(TotalLength(m));
    Le32RoundTrip(m.header.serialNum);
    assert [s[0], s[1], s[2], s[3]] == Le32(m.header.msgId);
    assert [s[4], s[5], s[6], s[7]] == Le32(TotalLength(m));
    assert [s[11], s[12], s[13], s[14]] == Le32(m.header.serialNum);
  }

  /**
    cpri_encode_message: the length, or -1 and nothing written when the buffer is too small.
   */
  method EncodeMessage(m: Message, buffer: array<byte>) returns (length: int)
    requires Encodable(m)
    modifies buffer
    ensures length == if TotalLength(m) <= buffer.Length then TotalLength(m) else -1
    ensures length == -1 ==> buffer[..] == old(buffer[..])
    ensures length >= 0 ==> buffer[..length] == Encode(m) && buffer[length..] == old(buffer[length..])
  {
    length := TotalLength(m);
    if buffer.Length < length {
      return -1;
    }
    var h := HeaderBytes(m.header, length);
    for i := 0 to CPRI_HEADER_LEN
      invariant forall k :: 0 <= k < i ==> buffer[k] == h[k]
      invariant forall k :: i <= k < buffer.Length ==> buffer[k] == old(buffer[k])
    {
      buffer[i] := h[i];
    }
    for i := 0 to |m.payload|
      invariant forall k :: 0 <= k < CPRI_HEADER_LEN ==> buffer[k] == h[k]
      invariant forall k :: 0 <= k < i ==> buffer[CPRI_HEADER_LEN + k] == m.payload[k]
      invariant forall k :: CPRI_HEADER_LEN + i <= k < buffer.Length ==> buffer[k] == old(buffer[k])
    {
      buffer[CPRI_HEADER_LEN + i] := m.payload[i];
    }
    assert buffer[..length] == h + m.payload;
  }

  // ---------------------------------------------------------------- payload pool

  predicate HasFree(inUse: seq<bool>) {
    exists i :: 0 <= i < |inUse| && !inUse[i]
  }

  class Pool {
    const inUse: array<bool>
    const data: array<seq<byte>>

    ghost predicate Valid()
      reads this, inUse, data
    {
      && inUse.Length == data.Length == MAX_CPRI_MESSAGE_POOL
      && forall i :: 0 <= i < data.Length ==> |data[i]| == MAX_CPRI_PAYLOAD_SIZE
    }

    constructor ()
      ensures Valid() && fresh(inUse) && fresh(data) && forall i :: 0 <= i < MAX_CPRI_MESSAGE_POOL ==> !inUse[i]
    {
      inUse := new bool[MAX_CPRI_MESSAGE_POOL](_ => false);
      data := new seq<byte>[MAX_CPRI_MESSAGE_POOL](_ => seq(MAX_CPRI_PAYLOAD_SIZE, _ => 0));
    }

    /** cpri_payload_alloc: the index of the slot taken, or -1. */
    method Alloc(size: nat) returns (slot: int)
      requires Valid()
      modifies inUse
      ensures Valid() && -1 <= slot < MAX_CPRI_MESSAGE_POOL
      ensures slot == -1 <==> size > MAX_CPRI_PAYLOAD_SIZE || !HasFree(old(inUse[..]))
      ensures slot == -1 ==> inUse[..] == old(inUse[..])
      ensures slot >= 0 ==> !old(inUse[slot]) && inUse[..] == old(inUse[..])[slot := true]
    {
      if size > MAX_CPRI_PAYLOAD_SIZE {
        return -1;
      }
      for i := 0 to MAX_CPRI_MESSAGE_POOL
        invariant inUse[..] == old(inUse[..])
        invariant forall k :: 0 <= k < i ==> inUse[k]
      {
        if !inUse[i] {
          assert !old(inUse[..])[i];
          inUse[i] := true;
          return i;
        }
      }
      return -1;
    }

    /** cpri_payload_free; a payload from elsewhere goes to free(), and the pool stays as it is. */
    method Free(slot: int)
      requires Valid()
      modifies inUse
      ensures Valid()
      ensures inUse[..] == if 0 <= slot < MAX_CPRI_MESSAGE_POOL then old(inUse[..])[slot := false] else old(inUse[..])
    {
      for i := 0 to MAX_CPRI_MESSAGE_POOL
        invariant inUse[..] == old(inUse[..])
        invariant !(0 <= slot < i)
      {
        if i == slot {
          inUse[i] := false;
          return;
        }
      }
    }
  }

  // ---------------------------------------------------------------- reassembly

  /** The messages handed to the dispatcher, and the bytes kept for the next read. */
  datatype Scanned = Scanned(delivered: seq<Message>, rest: seq<byte>)

  /** The message at the head of the buffer, as the dispatcher sees it when a payload can be held. */
  function Head(s: seq<byte>, free: bool): seq<Message>
    requires |s| >= CPRI_HEADER_LEN && CPRI_HEADER_LEN <= LengthField(s) <= |s|
  {
    if LengthField(s) == CPRI_HEADER_LEN || free then [Message(DecodeHeader(s), s[CPRI_HEADER_LEN..LengthField(s)])]
      else []
  }

  function Scan(s: seq<byte>, free: bool): (r: Scanned)
    ensures |r.rest| <= |s|
  {
    if |s| < CPRI_HEADER_LEN then Scanned([], s)
    else if LengthField(s) < CPRI_HEADER_LEN || LengthField(s) > RECV_BUFFER_SIZE then Scanned([], [])
    else if |s| < LengthField(s) then Scanned([], s)
    else
      var r := Scan(s[LengthField(s)..], free);
      Scanned(Head(s, free) + r.delivered, r.rest)
  }

  /** One read: appended and scanned, or dropped together with what was kept when it does not fit. */
  function Feed(kept: seq<byte>, chunk: seq<byte>, free: bool): Scanned {
    if |kept| + |chunk| > RECV_BUFFER_SIZE then Scanned([], []) else Scan(kept + chunk, free)
  }

  predicate SetsUp(ms: seq<Message>) {
    exists k :: 0 <= k < |ms| && ms[k].header.msgId == MSG_CHANNEL_SETUP_CFG
  }

  lemma CopiedFront(a: seq<byte>, b: seq<byte>)
    ensures (a + b)[..|a|] == a
  {
  }

  lemma SetsUpParts(a: seq<Message>, b: seq<Message>)
    ensures SetsUp(a + b) <==> SetsUp(a) || SetsUp(b)
    ensures !SetsUp([])
  {
    if SetsUp(a + b) {
      var k :| 0 <= k < |a + b| && (a + b)[k].header.msgId == MSG_CHANNEL_SETUP_CFG;
      assert if k < |a| then (a + b)[k] == a[k] else (a + b)[k] == b[k - |a|];
    }
    if SetsUp(a) {
      var k :| 0 <= k < |a| && a[k].header.msgId == MSG_CHANNEL_SETUP_CFG;
      assert (a + b)[k] == a[k];
    }
    if SetsUp(b) {
      var k :| 0 <= k < |b| && b[k].header.msgId == MSG_CHANNEL_SETUP_CFG;
      assert (a + b)[|a| + k] == b[k];
    }
  }

  /** One turn of the loop over the buffer. */
  lemma ScanTurn(s: seq<byte>, free: bool, length: u32)
    requires |s| >= CPRI_HEADER_LEN && length == FromLe32([s[4], s[5], s[6], s[7]])
    ensures length == LengthField(s)
    ensures length < CPRI_HEADER_LEN || length > RECV_BUFFER_SIZE ==> Scan(s, free) == Scanned([], [])
    ensures CPRI_HEADER_LEN <= length <= RECV_BUFFER_SIZE && |s| < length ==> Scan(s, free) == Scanned([], s)
    ensures CPRI_HEADER_LEN <= length <= RECV_BUFFER_SIZE && length <= |s| ==>
              Scan(s, free) == Scanned(Head(s, free) + Scan(s[length..], free).delivered, Scan(s[length..], free).rest)
  {
  }

  lemma ScanShort(s: seq<byte>, free: bool)
    requires |s| < CPRI_HEADER_LEN
    ensures Scan(s, free) == Scanned([], s)
  {
  }

  class Receiver {
    /** g_recv_buffer, g_recv_offset, g_channel_established */
    const buffer: array<byte>
    var offset: nat
    var channelEstablished: bool
    const pool: Pool
    const gate: TxGate.Gate
    /** What msg_handler_dispatch has been called with. */
    ghost var dispatched: seq<Message>

    ghost predicate Valid()
      reads this, buffer, pool, pool.inUse, pool.data, gate
    {
      && buffer.Length == RECV_BUFFER_SIZE && offset <= RECV_BUFFER_SIZE
      && pool.Valid() && gate.Valid()
    }

    constructor (pool: Pool, gate: TxGate.Gate)
      requires pool.Valid() && gate.Valid()
      ensures Valid() && fresh(buffer) && this.pool == pool && this.gate == gate
      ensures offset == 0 && !channelEstablished && dispatched == []
    {
      buffer := new byte[RECV_BUFFER_SIZE];
      offset, channelEstablished, dispatched := 0, false, [];
      this.pool, this.gate := pool, gate;
    }

    ghost function Contents(): seq<byte>
      reads this, buffer
      requires offset <= buffer.Length
    {
      buffer[..offset]
    }

    /** memcpy of a read behind what is kept */
    method Append(chunk: seq<byte>)
      requires buffer.Length == RECV_BUFFER_SIZE && offset + |chunk| <= RECV_BUFFER_SIZE
      modifies buffer, `offset
      ensures offset == old(offset) + |chunk| && buffer[..offset] == old(buffer[..offset]) + chunk
    {
      for i := 0 to |chunk|
        modifies buffer
        invariant buffer[..offset] == old(buffer[..offset])
        invariant forall k :: 0 <= k < i ==> buffer[offset + k] == chunk[k]
      {
        buffer[offset + i] := chunk[i];
      }
      offset := offset + |chunk|;
    }

    /** memmove of what follows the first `n` bytes to the front */
    method Shift(n: nat)
      requires n <= offset <= buffer.Length
      modifies buffer, `offset
      ensures offset == old(offset) - n && buffer[..offset] == old(buffer[n..offset])
    {
      offset := offset - n;
      for i := 0 to offset
        modifies buffer
        invariant forall k :: 0 <= k < i ==> buffer[k] == old(buffer[n + k])
        invariant forall k :: n + i <= k < buffer.Length ==> buffer[k] == old(buffer[k])
      {
        buffer[i] := buffer[n + i];
      }
    }

    /** cpri_decode_message on the first `length` bytes; the payload goes to a pool slot. */
    method DecodeMessage(length: nat) returns (msg: Option<Message>, slot: int)
      requires Valid() && CPRI_HEADER_LEN <= length <= offset && LengthField(buffer[..offset]) == length
      modifies pool.inUse, pool.data
      ensures Valid() && -1 <= slot < MAX_CPRI_MESSAGE_POOL
      ensures Head(buffer[..offset], HasFree(old(pool.inUse[..]))) == if msg.Some? then [msg.value] else []
      ensures slot == -1 ==> pool.inUse[..] == old(pool.inUse[..])
      ensures slot >= 0 ==> msg.Some? && !old(pool.inUse[slot]) && pool.inUse[..] == old(pool.inUse[..])[slot := true]
    {
      ghost var s := buffer[..offset];
      var header := Header(FromLe32([buffer[0], buffer[1], buffer[2], buffer[3]]),
                           FromLe32([buffer[4], buffer[5], buffer[6], buffer[7]]),
                           buffer[8], buffer[9], buffer[10],
                           FromLe32([buffer[11], buffer[12], buffer[13], buffer[14]]));
      assert header == DecodeHeader(s);
      var n := length - CPRI_HEADER_LEN;
      if n == 0 {
        assert s[CPRI_HEADER_LEN..length] == [];
        return Some(Message(header, [])), -1;
      }
      slot := pool.Alloc(n);
      if slot < 0 {
        return None, -1;
      }
      var copied := buffer[CPRI_HEADER_LEN..length];
      assert copied == s[CPRI_HEADER_LEN..length];
      CopiedFront(copied, pool.data[slot][n..]);
      pool.data[slot] := copied + pool.data[slot][n..];
      return Some(Message(header, pool.data[slot][..n])), slot;
    }

    /** Decode, dispatch and free the message at the front. */
    method Handle(length: nat)
      requires Valid() && CPRI_HEADER_LEN <= length <= offset && LengthField(buffer[..offset]) == length
      modifies this`channelEstablished, this`dispatched, pool.inUse, pool.data, gate
      ensures Valid()
      ensures dispatched == old(dispatched) + Head(buffer[..offset], HasFree(old(pool.inUse[..])))
      ensures pool.inUse[..] == old(pool.inUse[..])
      ensures var setsUp := SetsUp(Head(buffer[..offset], HasFree(old(pool.inUse[..]))));
              channelEstablished == (old(channelEstablished) || setsUp) && gate.linkOk == (old(gate.linkOk) || setsUp)
      ensures gate.commands == old(gate.commands)
    {
      hide Head, HasFree, LengthField;
      ghost var before := pool.inUse[..];
      var msg, slot := DecodeMessage(length);
      if msg.None? {
        return;
      }
      assert SetsUp([msg.value]) <==> msg.value.header.msgId == MSG_CHANNEL_SETUP_CFG by {
        assert [msg.value][0] == msg.value;
      }
      if msg.value.header.msgId == MSG_CHANNEL_SETUP_CFG {
        channelEstablished := true;
        gate.NotifyBbuLink(true, false);
      }
      dispatched := dispatched + [msg.value];
      if slot >= 0 {
        pool.Free(slot);
        assert before[slot := true][slot := false] == before;
      }
    }

    /** on_tcp_data_received */
    method OnData(chunk: seq<byte>)
      requires Valid()
      modifies this, buffer, pool.inUse, pool.data, gate
      ensures Valid()
      ensures var r := Feed(old(Contents()), chunk, HasFree(old(pool.inUse[..])));
              && Contents() == r.rest && dispatched == old(dispatched) + r.delivered
              && channelEstablished == (old(channelEstablished) || SetsUp(r.delivered))
              && gate.linkOk == (old(gate.linkOk) || SetsUp(r.delivered))
      ensures pool.inUse[..] == old(pool.inUse[..]) && gate.commands == old(gate.commands)
    {
      hide Head, HasFree, LengthField, SetsUp, Scan;
      if offset + |chunk| > RECV_BUFFER_SIZE {
        offset := 0;
        SetsUpParts([], []);
        return;
      }
      Append(chunk);
      ghost var s := buffer[..offset];
      ghost var free := HasFree(pool.inUse[..]);
      ghost var done := [];
      SetsUpParts([], []);
      while offset >= CPRI_HEADER_LEN
        invariant Valid()
        invariant var left := Scan(buffer[..offset], free); Scan(s, free) == Scanned(done + left.delivered, left.rest)
        invariant dispatched == old(dispatched) + done
        invariant channelEstablished == (old(channelEstablished) || SetsUp(done))
        invariant gate.linkOk == (old(gate.linkOk) || SetsUp(done))
        invariant pool.inUse[..] == old(pool.inUse[..]) && gate.commands == old(gate.commands)
        decreases offset
      {
        var length := FromLe32([buffer[4], buffer[5], buffer[6], buffer[7]]);
        ghost var cur := buffer[..offset];
        ScanTurn(cur, free, length);
        if length < CPRI_HEADER_LEN || length > RECV_BUFFER_SIZE {
          offset := 0;
          ScanShort([], free);
          break;
        }
        if offset < length {
          break;
        }
        Handle(length);
        Shift(length);
        SetsUpParts(done, Head(cur, free));
        Assoc(done, Head(cur, free), Scan(buffer[..offset], free).delivered);
        Assoc(old(dispatched), done, Head(cur, free));
        done := done + Head(cur, free);
      }
      if offset < CPRI_HEADER_LEN {
        ScanShort(buffer[..offset], free);
      }
      assert done + [] == done;
    }

    /** The reads of one connection, one after another. */
    method Session(chunks: seq<seq<byte>>)
      requires Valid()
      modifies this, buffer, pool.inUse, pool.data, gate
      ensures Valid() && pool.inUse[..] == old(pool.inUse[..])
      ensures var r := Run(old(Contents()), chunks, HasFree(old(pool.inUse[..])));
              Contents() == r.rest && dispatched == old(dispatched) + r.delivered
      decreases |chunks|
    {
      hide Feed, HasFree, SetsUp;
      if chunks == [] {
        return;
      }
      ghost var now := Feed(Contents(), chunks[0], HasFree(pool.inUse[..]));
      OnData(chunks[0]);
      ghost var later := Run(Contents(), chunks[1..], HasFree(pool.inUse[..]));
      Session(chunks[1..]);
      Assoc(old(dispatched), now.delivered, later.delivered);
    }

    /** on_tcp_disconnected: what is kept belongs to the old connection. */
    method OnDisconnected(sent: bool)
      requires Valid()
      modifies this, gate
      ensures Valid() && Contents() == [] && !channelEstablished && !gate.linkOk && dispatched == old(dispatched)
      ensures sent ==> !gate.txOn
    {
      offset := 0;
      channelEstablished := false;
      gate.NotifyBbuLink(false, sent);
    }
  }

  // ---------------------------------------------------------------- a whole connection

  predicate AllSendable(ms: seq<Message>) {
    forall k :: 0 <= k < |ms| ==> Sendable(ms[k])
  }

  function EncodeAll(ms: seq<Message>): seq<byte>
    requires AllSendable(ms)
  {
    if ms == [] then [] else Encode(ms[0]) + EncodeAll(ms[1..])
  }

  function Alone(m: Message, free: bool): seq<Message>
    requires Encodable(m)
  {
    if m.payload == [] || free then [Received(m)] else []
  }

  /** What the dispatcher should see: everything, or only the bare headers while the pool is full. */
  function Deliverable(ms: seq<Message>, free: bool): seq<Message>
    requires AllSendable(ms)
  {
    if ms == [] then []
    else Alone(ms[0], free) + Deliverable(ms[1..], free)
  }

  /** All reads of a connection, starting with `kept` in the buffer. */
  function Run(kept: seq<byte>, chunks: seq<seq<byte>>, free: bool): Scanned
    decreases |chunks|
  {
    if chunks == [] then Scanned([], kept)
    else
      var now := Feed(kept, chunks[0], free);
      var later := Run(now.rest, chunks[1..], free);
      Scanned(now.delivered + later.delivered, later.rest)
  }

  /** No read overflows what the buffer still holds when it comes. */
  predicate Fits(kept: seq<byte>, chunks: seq<seq<byte>>, free: bool)
    decreases |chunks|
  {
    chunks != [] ==>
      |kept| + |chunks[0]| <= RECV_BUFFER_SIZE && Fits(Scan(kept + chunks[0], free).rest, chunks[1..], free)
  }

  /** The buffer holds a proper beginning of the next message, or nothing. */
  predicate Pending(kept: seq<byte>, ms: seq<Message>)
    requires AllSendable(ms)
  {
    if ms == [] then kept == [] else |kept| < TotalLength(ms[0])
  }

  lemma HeadOfStream(m: Message, rest: seq<byte>, free: bool)
    requires Sendable(m)
    ensures Scan(Encode(m) + rest, free)
            == Scanned(Alone(m, free) + Scan(rest, free).delivered, Scan(rest, free).rest)
  {
    var s := Encode(m) + rest;
    DecodeEncode(m, rest);
    assert s[TotalLength(m)..] == rest;
  }

  lemma PartOfMessage(m: Message, p: seq<byte>, q: seq<byte>, rest: seq<byte>, free: bool)
    requires Sendable(m) && p + q == Encode(m) + rest && |p| < TotalLength(m)
    ensures Scan(p, free) == Scanned([], p)
  {
    if |p| >= CPRI_HEADER_LEN {
      DecodeEncode(m, rest);
      assert forall k :: 0 <= k < CPRI_HEADER_LEN ==> p[k] == (p + q)[k];
      assert LengthField(p) == LengthField(Encode(m) + rest);
    }
  }

  /** A beginning `p` of an encoded stream: the messages that are complete come out, the rest is kept. */
  lemma {:induction false} ScanBeginning(ms: seq<Message>, p: seq<byte>, q: seq<byte>, free: bool) returns (done: nat)
    requires AllSendable(ms) && p + q == EncodeAll(ms)
    ensures done <= |ms|
    ensures Scan(p, free).delivered == Deliverable(ms[..done], free)
    ensures Scan(p, free).rest + q == EncodeAll(ms[done..]) && Pending(Scan(p, free).rest, ms[done..])
    decreases |ms|
  {
    hide Encode, Scan;
    if ms == [] {
      ScanShort([], free);
      assert p == [];
      return 0;
    }
    assert |Encode(ms[0])| == TotalLength(ms[0]) by {
      DecodeEncode(ms[0], []);
    }
    if |p| < TotalLength(ms[0]) {
      PartOfMessage(ms[0], p, q, EncodeAll(ms[1..]), free);
      assert ms[0..] == ms;
      return 0;
    }
    var p' := SplitAt(p, q, Encode(ms[0]), EncodeAll(ms[1..]));
    HeadOfStream(ms[0], p', free);
    var d := ScanBeginning(ms[1..], p', q, free);
    assert ms[..d + 1][1..] == ms[1..][..d] && ms[d + 1..] == ms[1..][d..];
    return d + 1;
  }

  lemma SplitAt(p: seq<byte>, q: seq<byte>, a: seq<byte>, b: seq<byte>) returns (p': seq<byte>)
    requires p + q == a + b && |a| <= |p|
    ensures p == a + p' && p' + q == b
  {
    p' := p[|a|..];
    assert forall k :: 0 <= k < |p| ==> p[k] == (a + b)[k];
    assert forall k :: 0 <= k < |b| ==> (p' + q)[k] == (p + q)[|a| + k];
  }

  lemma {:induction false} DeliverableParts(a: seq<Message>, b: seq<Message>, free: bool)
    requires AllSendable(a) && AllSendable(b) && AllSendable(a + b)
    ensures Deliverable(a + b, free) == Deliverable(a, free) + Deliverable(b, free)
  {
    hide Alone;
    if a == [] {
      assert a + b == b;
    } else {
      assert (a + b)[1..] == a[1..] + b;
      DeliverableParts(a[1..], b, free);
      Assoc(Alone(a[0], free), Deliverable(a[1..], free), Deliverable(b, free));
    }
  }

  lemma NothingPending(ms: seq<Message>)
    requires AllSendable(ms)
    ensures ms != [] ==> |EncodeAll(ms)| >= TotalLength(ms[0])
  {
    if ms != [] {
      DecodeEncode(ms[0], []);
    }
  }

  lemma DeliverableSplit(ms: seq<Message>, d: nat, free: bool)
    requires AllSendable(ms) && d <= |ms|
    ensures Deliverable(ms, free) == Deliverable(ms[..d], free) + Deliverable(ms[d..], free)
  {
    hide Alone, Deliverable;
    assert ms[..d] + ms[d..] == ms;
    DeliverableParts(ms[..d], ms[d..], free);
  }

  lemma RunStep(kept: seq<byte>, chunks: seq<seq<byte>>, free: bool)
    requires chunks != [] && Fits(kept, chunks, free)
    ensures var now := Scan(kept + chunks[0], free);
            && Fits(now.rest, chunks[1..], free)
            && var later := Run(now.rest, chunks[1..], free);
               Run(kept, chunks, free) == Scanned(now.delivered + later.delivered, later.rest)
    ensures kept + Concat(chunks) == (kept + chunks[0]) + Concat(chunks[1..])
  {
    hide Scan;
    Assoc(kept, chunks[0], Concat(chunks[1..]));
  }

  /**
    However an encoded stream is cut into reads, as long as no read overflows the buffer, exactly its
    messages are dispatched, in order, with their fields and payloads, and nothing is left over.
   */
  lemma {:induction false} StreamDelivered(ms: seq<Message>, kept: seq<byte>, chunks: seq<seq<byte>>, free: bool)
    requires AllSendable(ms) && kept + Concat(chunks) == EncodeAll(ms) && Pending(kept, ms) && Fits(kept, chunks, free)
    ensures Run(kept, chunks, free) == Scanned(Deliverable(ms, free), [])
    decreases |chunks|
  {
    hide Scan, Encode, Alone;
    if chunks == [] {
      assert kept + [] == kept;
      NothingPending(ms);
    } else {
      hide EncodeAll, Deliverable, Run, Fits, Concat, Pending;
      RunStep(kept, chunks, free);
      var d := ScanBeginning(ms, kept + chunks[0], Concat(chunks[1..]), free);
      StreamDelivered(ms[d..], Scan(kept + chunks[0], free).rest, chunks[1..], free);
      DeliverableSplit(ms, d, free);
    }
  }

  /** With a free slot nothing is lost; without one, exactly the messages that carry a payload are. */
  lemma {:induction false} LostOnlyWhenFull(ms: seq<Message>, free: bool)
    requires AllSendable(ms)
    ensures |Deliverable(ms, free)| == |ms| <==> free || forall k :: 0 <= k < |ms| ==> ms[k].payload == []
    ensures |Deliverable(ms, free)| <= |ms|
    ensures free ==> forall k :: 0 <= k < |ms| && |Deliverable(ms, free)| == |ms| ==>
              Deliverable(ms, free)[k] == Received(ms[k])
  {
    if ms != [] {
      LostOnlyWhenFull(ms[1..], free);
    }
  }

  /** Reads that leave room for the longest unfinished message never overflow. */
  lemma {:induction false} ShortReadsFit(ms: seq<Message>, kept: seq<byte>, chunks: seq<seq<byte>>,
                                         longest: nat, free: bool)
    requires AllSendable(ms) && kept + Concat(chunks) == EncodeAll(ms) && Pending(kept, ms)
    requires 1 <= longest && forall k :: 0 <= k < |ms| ==> TotalLength(ms[k]) <= longest
    requires forall k :: 0 <= k < |chunks| ==> |chunks[k]| <= RECV_BUFFER_SIZE - (longest - 1)
    ensures Fits(kept, chunks, free)
    decreases |chunks|
  {
    hide Scan, Encode, EncodeAll;
    if chunks != [] {
      Assoc(kept, chunks[0], Concat(chunks[1..]));
      var d := ScanBeginning(ms, kept + chunks[0], Concat(chunks[1..]), free);
      ShortReadsFit(ms[d..], Scan(kept + chunks[0], free).rest, chunks[1..], longest, free);
    }
  }

  // ---------------------------------------------------------------- the bytes on the wire

  /** The little-endian number in bytes `i` to `i + 3`. */
  function Little(s: seq<byte>, i: nat): nat
    requires i + 3 < |s|
  {
    s[i] as int + 0x100 * s[i + 1] as int + 0x1_0000 * s[i + 2] as int + 0x100_0000 * s[i + 3] as int
  }

  /** Each field of a message at its own offset. */
  lemma EncodedOnWire(m: Message)
    requires Encodable(m)
    ensures var f := Encode(m);
            && |f| == |m.payload| + 15 && f[15..] == m.payload
            && Little(f, 0) == m.header.msgId && Little(f, 4) == |f| && Little(f, 11) == m.header.serialNum
            && f[8] == m.header.paauId && f[9] == m.header.bbuId && f[10] == m.header.portNum
  {
    Le32RoundTrip(m.header.msgId);
    Le32RoundTrip(TotalLength(m));
    Le32RoundTrip(m.header.serialNum);
  }

  lemma DecodedFromWire(s: seq<byte>)
    requires |s| >= 15
    ensures DecodeHeader(s) == Header(Little(s, 0), Little(s, 4), s[8], s[9], s[10], Little(s, 11))
  {
  }

  /** A length that cannot be empties the buffer, and so does a read that does not fit. */
  lemma BadLengthEmpties(s: seq<byte>, kept: seq<byte>, chunk: seq<byte>, free: bool)
    ensures |s| >= 15 && (Little(s, 4) < 15 || Little(s, 4) > 8192) ==> Scan(s, free) == Scanned([], [])
    ensures |kept| + |chunk| > 8192 ==> Feed(kept, chunk, free) == Scanned([], [])
  {
    if |s| >= 15 {
      DecodedFromWire(s);
    }
  }

  /** A message opens the gate exactly when it begins with the number two. */
  lemma SetupOnWire(m: Message)
    requires Encodable(m)
    ensures SetsUp([Received(m)]) <==> Encode(m)[..4] == [2, 0, 0, 0]
  {
    EncodedOnWire(m);
    var f := Encode(m);
    assert SetsUp([Received(m)]) <==> m.header.msgId == 2 by {
      assert [Received(m)][0] == Received(m);
    }
    if Little(f, 0) == 2 {
      assert f[..4] == [f[0], f[1], f[2], f[3]];
    }
  }
}
