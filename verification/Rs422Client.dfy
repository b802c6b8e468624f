/**
  The receive side of the RS-422 client (uart_rs422_client.c): the callback that keeps the last
  good frame, the parsing pass over the ring, and the send-and-wait transaction. select(), read()
  and write() are inputs.
 */
module Rs422Client {
  import opened Bytes
  import opened Rs422Protocol
  import opened PkFinder
  import opened RBuf

  const RD_BUF := 1024

  /** What select() and read() bring to one turn of the receive loop, until its time is up. */
  datatype Input = Idle | Failed | Data(bytes: seq<byte>)

  datatype Result = Success(frame: seq<byte>) | Timeout | General

  function Pass(d: seq<byte>): Parsed {
    Parse(d, 0, PARSE_BUF, Accepts, 0, 0)
  }

  /** A pass some of whose candidates have been dealt with already. */
  function Preceded(seen: seq<seq<byte>>, taken: seq<seq<byte>>, r: Parsed): Parsed {
    Parsed(seen + r.checked, taken + r.accepted, r.consumed)
  }

  lemma PrecededAfter(seen: seq<seq<byte>>, taken: seq<seq<byte>>, pk: seq<byte>, good: bool, r: Parsed)
    ensures Preceded(seen, taken, r.After(pk, good))
         == Preceded(seen + [pk], if good then taken + [pk] else taken, r)
  {
    Assoc(seen, [pk], r.checked);
    Assoc(taken, [pk], r.accepted);
  }

  /** One turn of the search, as the passes before and after it see it. */
  lemma ParseTurn(d: seq<byte>, i: nat, cap: nat, chk: Check, pos: nat, len: nat)
    requires i <= |d|
    ensures Parse(d, i, cap, chk, pos, len) ==
            match TurnAt(d, i, cap, chk, pos, len)
            case Stop(consumed) => Parsed([], [], consumed)
            case Candidate(pk, p, good) =>
              Parse(d, i + p + if good then |pk| else HEAD_LEN, cap, chk, p, |pk|).After(pk, good)
  {
  }

  lemma ParseTooShort(d: seq<byte>, i: nat, cap: nat, chk: Check, pos: nat, len: nat)
    requires i <= |d| < i + HEAD_LEN
    ensures Parse(d, i, cap, chk, pos, len) == Parsed([], [], i)
  {
  }

  /** uart_recv_context_t */
  class RecvContext {
    const ring: Ring
    const parseBuf: array<byte>
    const received: array<byte>
    var receivedLen: nat
    var frameReady: bool

    /** The packets handed to the callback so far. */
    ghost var checked: seq<seq<byte>>

    ghost predicate Valid()
      reads this, ring
    {
      && ring.Valid() && ring.buf.Length == PARSE_BUF
      && parseBuf.Length == PARSE_BUF && received.Length == FRAME_BUF
      && ring.buf != parseBuf && ring.buf != received && parseBuf != received
      && receivedLen <= FRAME_BUF
    }

    ghost function Frame(): seq<byte>
      requires receivedLen <= received.Length
      reads this, received
    {
      received[..receivedLen]
    }

    /** uart_recv_context_init */
    constructor ()
      ensures Valid() && fresh(ring) && fresh(ring.buf) && fresh(parseBuf) && fresh(received)
      ensures ring.Contents() == [] && !frameReady && checked == []
    {
      var storage := new byte[PARSE_BUF];
      ring := new Ring(storage);
      parseBuf := new byte[PARSE_BUF];
      received := new byte[FRAME_BUF];
      receivedLen := 0;
      frameReady := false;
      checked := [];
    }

    /** rs422_frame_check_and_process on parseBuf[from..to] */
    method CheckAndProcess(from: nat, to: nat) returns (ok: bool)
      requires Valid() && from <= to <= PARSE_BUF
      modifies `checked, `receivedLen, `frameReady, received
      ensures Valid()
      ensures ok == Accepts(parseBuf[from..to])
      ensures checked == old(checked) + [parseBuf[from..to]]
      ensures ok ==> frameReady && Frame() == parseBuf[from..to]
      ensures !ok ==> frameReady == old(frameReady) && Frame() == old(Frame())
    {
      ghost var f := parseBuf[from..to];
      checked := checked + [f];
      var len := to - from;
      if len < HEADER_SIZE + CHECKSUM_SIZE || len > FRAME_BUF {
        return false;
      }
      var at := to - CHECKSUM_SIZE;
      var expected := ComputeChecksum(parseBuf, from + 2, at);
      assert parseBuf[from + 2..at] == f[2..len - 2];
      if FromBe16(parseBuf[at], parseBuf[at + 1]) != expected {
        return false;
      }
      Memcpy(received, 0, parseBuf[from..to]);
      receivedLen := len;
      frameReady := true;
      return true;
    }

    /** One turn of the search loop: find, and either stop or run the callback on a candidate. */
    method SearchTurn(n: nat, i: nat, pos0: nat, len0: nat)
      returns (done: bool, good: bool, next: nat, pos: nat, len: nat)
      requires Valid() && i + HEAD_LEN <= n <= PARSE_BUF
      modifies `checked, `receivedLen, `frameReady, received
      ensures Valid()
      ensures match TurnAt(parseBuf[..n], i, PARSE_BUF, Accepts, pos0, len0)
              case Stop(consumed) =>
                && done && !good && next == consumed
                && checked == old(checked) && frameReady == old(frameReady) && Frame() == old(Frame())
              case Candidate(pk, p, verdict) =>
                && !done && good == verdict && pos == p && len == |pk|
                && next == i + p + (if good then |pk| else HEAD_LEN)
                && checked == old(checked) + [pk]
                && (if good then frameReady && Frame() == pk
                    else frameReady == old(frameReady) && Frame() == old(Frame()))
    {
      hide Accepts;
      var code;
      code, pos, len := PkFinderFind(parseBuf, i, n, pos0, len0);
      if code == 0 {
        return true, false, n - HEAD_LEN, pos, len;
      } else if code == 1 {
        return true, false, i + if len > PARSE_BUF then pos + HEAD_LEN else pos, pos, len;
      }
      var from, to := i + pos, i + pos + len;
      assert parseBuf[..n][from..to] == parseBuf[from..to];
      good := CheckAndProcess(from, to);
      done, next := false, if good then to else from + HEAD_LEN;
    }

    /** The search loop of pkfinderParse over parseBuf[..n]. */
    method Scan(n: nat) returns (index: nat, ok: bool)
      requires Valid() && n <= PARSE_BUF
      modifies `checked, `receivedLen, `frameReady, received
      ensures Valid()
      ensures var r := Pass(parseBuf[..n]);
              && checked == old(checked) + r.checked
              && index == r.consumed
              && ok == (r.accepted != [])
              && (ok ==> frameReady && Frame() == r.accepted[|r.accepted| - 1])
              && (!ok ==> frameReady == old(frameReady) && Frame() == old(Frame()))
    {
      hide Accepts, TurnAt, Parse;
      ghost var d := parseBuf[..n];
      ghost var seen: seq<seq<byte>>, taken: seq<seq<byte>> := [], [];
      var pos: nat, len: nat, done := 0, 0, false;
      index, ok := 0, false;
      ghost var rest := Pass(d);
      while !done && index + HEAD_LEN <= n
        invariant Valid() && index <= n && parseBuf[..n] == d
        invariant checked == old(checked) + seen
        invariant ok == (taken != [])
        invariant if ok then frameReady && Frame() == taken[|taken| - 1]
                  else frameReady == old(frameReady) && Frame() == old(Frame())
        invariant rest == if done then Parsed([], [], index) else Parse(d, index, PARSE_BUF, Accepts, pos, len)
        invariant Pass(d) == Preceded(seen, taken, rest)
        decreases if done then 0 else 1 + n - index
      {
        ghost var t := TurnAt(d, index, PARSE_BUF, Accepts, pos, len);
        ParseTurn(d, index, PARSE_BUF, Accepts, pos, len);
        var good;
        done, good, index, pos, len := SearchTurn(n, index, pos, len);
        ok := ok || good;
        if t.Candidate? {
          rest := Parse(d, index, PARSE_BUF, Accepts, pos, len);
          PrecededAfter(seen, taken, t.pk, t.good, rest);
          seen := seen + [t.pk];
          if t.good {
            taken := taken + [t.pk];
          }
        }
      }
      if !done {
        ParseTooShort(d, index, PARSE_BUF, Accepts, pos, len);
      }
    }

    /** pkfinderParse: copy the ring out, search the copy, drop what was consumed. */
    method ParseRing() returns (ok: bool)
      requires Valid()
      modifies `checked, `receivedLen, `frameReady, ring`outIndex, parseBuf, received
      ensures Valid()
      ensures var r := Pass(old(ring.Contents()));
              && checked == old(checked) + r.checked
              && ring.Contents() == old(ring.Contents())[r.consumed..]
              && ok == (r.accepted != [])
              && (ok ==> frameReady && Frame() == r.accepted[|r.accepted| - 1])
              && (!ok ==> frameReady == old(frameReady) && Frame() == old(Frame()))
    {
      hide Accepts;
      ghost var d := ring.Contents();
      var n := ring.Get(parseBuf, PARSE_BUF);
      assert parseBuf[..n] == d;
      var index;
      index, ok := Scan(n);
      var removed := ring.Remove(index);
    }

    /** rBufPut with the fallback of the receive loop: a full ring is emptied for the new bytes. */
    method Refill(bytes: seq<byte>)
      requires Valid()
      modifies ring, ring.buf
      ensures Valid() && ring.Contents() == Refilled(old(ring.Contents()), bytes)
    {
      var put := ring.Put(bytes);
      if put != |bytes| && put == 0 {
        ring.Clear();
        put := ring.Put(bytes);
      }
    }

    /** uart_rs422_recv_frame: the first non-empty read decides, whatever it contains. */
    method RecvFrame(inputs: seq<Input>, size: nat) returns (res: Result)
      requires Valid() && ReadsFit(inputs)
      modifies this, ring, ring.buf, parseBuf, received
      ensures Valid()
      ensures (res, ring.Contents()) == Receive(old(ring.Contents()), inputs, size)
    {
      hide Accepts, Refilled, Pass, Receive;
      frameReady := false;
      ghost var d := ring.Contents();
      for i := 0 to |inputs|
        invariant Valid() && !frameReady && ring.Contents() == d
        invariant Receive(d, inputs, size) == Receive(d, inputs[i..], size)
      {
        ReceiveTurn(d, inputs, i, size);
        match inputs[i]
        case Idle =>
        case Failed => return General;
        case Data(bytes) =>
          if |bytes| > 0 {
            Refill(bytes);
            var ok := ParseRing();
            if ok && frameReady {
              frameReady := false;
              return if receivedLen > size then General else Success(received[..receivedLen]);
            }
            return General;
          }
      }
      assert inputs[|inputs|..] == [];
      ReceiveNothing(d, size);
      return Timeout;
    }

    /** uart_rs422_discard_pending, for the part of the state that lives in this process. */
    method DiscardPending()
      requires Valid()
      modifies this, ring
      ensures Valid() && ring.Contents() == [] && !frameReady && receivedLen == 0 && checked == old(checked)
    {
      ring.Clear();
      frameReady := false;
      receivedLen := 0;
    }

    /** uart_rs422_send_and_wait: only bytes read after the command went out can answer it. */
    method SendAndWait(sent: bool, inputs: seq<Input>, size: nat, expected: u16) returns (res: Result)
      requires Valid() && ReadsFit(inputs)
      modifies this, ring, ring.buf, parseBuf, received
      ensures Valid()
      ensures res == if sent then Answer(Receive([], inputs, size).0, expected) else General
      // a reply that is handed over is the frame received, and has the command code asked for
      ensures res.Success? ==> sent && Receive([], inputs, size).0 == res
      ensures res.Success? && expected != 0 ==> |res.frame| >= 12 && Word(res.frame, 8) == expected
    {
      DiscardPending();
      if !sent {
        return General;
      }
      res := RecvFrame(inputs, size);
      if res.Success? {
        DecodesExactly(res.frame);
      }
      if expected != 0 && res.Success? {
        match Decode(res.frame)
        case Ok(_, cmd, _) =>
          if cmd != expected {
            res := General;
          }
        case _ => res := General;
      }
    }
  }

  // ---------------------------------------------------------------- what a transaction can return

  /** Each read is into a buffer of 1024 bytes. */
  ghost predicate ReadsFit(inputs: seq<Input>) {
    forall k :: 0 <= k < |inputs| && inputs[k].Data? ==> |inputs[k].bytes| <= RD_BUF
  }

  function Refilled(d: seq<byte>, bytes: seq<byte>): seq<byte>
    requires |d| < PARSE_BUF
  {
    var put := Min(|bytes|, PARSE_BUF - 1 - |d|);
    if put == 0 && bytes != [] then bytes[..Min(|bytes|, PARSE_BUF - 1)] else d + bytes[..put]
  }

  /** What fits is appended; a ring of 5119 bytes is full and is emptied first. */
  lemma RefillByRoom(d: seq<byte>, bytes: seq<byte>)
    requires |d| < PARSE_BUF
    ensures |d| + |bytes| <= 5119 ==> Refilled(d, bytes) == d + bytes
    ensures |d| == 5119 && 0 < |bytes| <= 5119 ==> Refilled(d, bytes) == bytes
  {
    assert bytes[..|bytes|] == bytes;
  }

  function Receive(d: seq<byte>, inputs: seq<Input>, size: nat): (Result, seq<byte>)
    requires |d| < PARSE_BUF
    decreases |inputs|
  {
    if inputs == [] then (Timeout, d)
    else match inputs[0]
      case Idle => Receive(d, inputs[1..], size)
      case Failed => (General, d)
      case Data(bytes) =>
        if bytes == [] then Receive(d, inputs[1..], size)
        else
          Outcome(Refilled(d, bytes), size)
  }

  /** What one pass over the ring yields: the last frame accepted, or a failed call. */
  function Outcome(all: seq<byte>, size: nat): (Result, seq<byte>) {
    var r := Pass(all);
    (if r.accepted == [] then General else Bounded(r.accepted[|r.accepted| - 1], size), all[r.consumed..])
  }

  function Bounded(frame: seq<byte>, size: nat): Result {
    if |frame| > size then General else Success(frame)
  }

  lemma ReceiveTurn(d: seq<byte>, inputs: seq<Input>, i: nat, size: nat)
    requires |d| < PARSE_BUF && i < |inputs|
    ensures Receive(d, inputs[i..], size) ==
            match inputs[i]
            case Idle => Receive(d, inputs[i + 1..], size)
            case Failed => (General, d)
            case Data(bytes) =>
              if bytes == [] then Receive(d, inputs[i + 1..], size) else Outcome(Refilled(d, bytes), size)
  {
    assert inputs[i..][0] == inputs[i] && inputs[i..][1..] == inputs[i + 1..];
  }

  lemma ReceiveNothing(d: seq<byte>, size: nat)
    requires |d| < PARSE_BUF
    ensures Receive(d, [], size) == (Timeout, d)
  {
  }

  /** The command code check on a received frame; a code of zero asks for none. */
  function Answer(res: Result, expected: u16): Result {
    if expected == 0 || !res.Success? then res
    else match Decode(res.frame)
      case Ok(_, cmd, _) => if cmd == expected then res else General
      case _ => General
  }

  /** Nothing but waiting. */
  predicate Quiescent(inputs: seq<Input>) {
    forall k :: 0 <= k < |inputs| ==> inputs[k] == Idle || inputs[k] == Data([])
  }

  lemma {:induction false} WaitingChangesNothing(d: seq<byte>, wait: seq<Input>, more: seq<Input>, size: nat)
    requires |d| < PARSE_BUF && Quiescent(wait)
    ensures Receive(d, wait + more, size) == Receive(d, more, size)
    decreases |wait|
  {
    if wait == [] {
      assert wait + more == more;
    } else {
      assert (wait + more)[0] == wait[0] && (wait + more)[1..] == wait[1..] + more;
      WaitingChangesNothing(d, wait[1..], more, size);
    }
  }

  /**
    A transaction whose first non-empty read is quiet noise, complete frames and the beginning of
    another one: with at least one complete frame the last of them is the reply and the beginning
    stays in the ring; with none the call fails at once, so a reply split across two reads is
    never received even if the rest of it follows.
   */
  lemma FirstReadDecides(wait: seq<Input>, g: seq<byte>, fs: seq<seq<byte>>, p: seq<byte>, more: seq<Input>, size: nat)
    requires Quiescent(wait) && Quiet(g) && AllWellFormed(fs, Accepts) && Unfinished(p, Accepts)
    requires 0 < |g + Concat(fs) + p| <= RD_BUF
    ensures var r := Receive([], wait + [Data(g + Concat(fs) + p)] + more, size);
            if fs == [] then r == (General, g[|g| - NoiseKept(g, p)..] + p)
            else r == (Bounded(fs[|fs| - 1], size), p)
  {
    hide Receive, Pass, Accepts, Quiet, AllWellFormed, Unfinished;
    var d := g + Concat(fs) + p;
    assert wait + [Data(d)] + more == wait + ([Data(d)] + more);
    WaitingChangesNothing([], wait, [Data(d)] + more, size);
    ReceiveIntoEmpty(d, more, size);
    PassStream(g, fs, p);
  }

  lemma ReceiveIntoEmpty(d: seq<byte>, more: seq<Input>, size: nat)
    requires 0 < |d| <= RD_BUF
    ensures Receive([], [Data(d)] + more, size) == Outcome(d, size)
  {
    hide Pass;
    LeftUnit(d);
    assert Refilled([], d) == d;
  }

  lemma PassStream(g: seq<byte>, fs: seq<seq<byte>>, p: seq<byte>)
    requires Quiet(g) && AllWellFormed(fs, Accepts) && Unfinished(p, Accepts)
    ensures var d := g + Concat(fs) + p;
            var r := Pass(d);
            r.accepted == fs && d[r.consumed..] == if fs == [] then g[|g| - NoiseKept(g, p)..] + p else p
  {
    hide Accepts, Quiet, AllWellFormed, Unfinished, Parse;
    var d := g + Concat(fs) + p;
    assert d[0..] == d;
    ParseStream(d, 0, g, fs, p, PARSE_BUF, Accepts, 0, 0);
    if fs == [] {
      assert d == g + p;
    }
  }

  /** Every successful receive hands over a packet that passed the finder and the checksum. */
  lemma {:induction false} ReceivedFramesAreSound(d: seq<byte>, inputs: seq<Input>, size: nat)
    requires |d| < PARSE_BUF && Receive(d, inputs, size).0.Success?
    ensures var f := Receive(d, inputs, size).0.frame;
            |f| <= size && |f| >= LEN_ADD && HeadAt(f, 0) && |f| == PacketLen(f, 0) && Accepts(f)
    decreases |inputs|
  {
    hide Accepts, Refilled;
    match inputs[0]
    case Idle => ReceivedFramesAreSound(d, inputs[1..], size);
    case Data(bytes) =>
      if bytes == [] {
        ReceivedFramesAreSound(d, inputs[1..], size);
      } else {
        var all := Refilled(d, bytes);
        AcceptedFrame(all, 0, PARSE_BUF, Accepts, 0, 0, |Pass(all).accepted| - 1);
      }
  }

  /**
    A transaction on a quiet line whose first read brings complete frames, the last of them a reply
    that fits the caller's buffer: the reply is handed over if no command code was asked for, or its
    own, and refused otherwise.
   */
  lemma ReplyByCode(wait: seq<Input>, g: seq<byte>, fs: seq<seq<byte>>, p: seq<byte>, more: seq<Input>, size: nat,
                    expected: u16)
    requires Quiescent(wait) && Quiet(g) && AllWellFormed(fs, Accepts) && Unfinished(p, Accepts)
    requires 0 < |g + Concat(fs) + p| <= RD_BUF && fs != [] && |fs[|fs| - 1]| <= size
    requires ReplyFrame(fs[|fs| - 1]) && Word(fs[|fs| - 1], 6) >= 1
    ensures var reply := fs[|fs| - 1];
            Answer(Receive([], wait + [Data(g + Concat(fs) + p)] + more, size).0, expected)
              == if expected == 0 || Word(reply, 8) == expected then Success(reply) else General
  {
    hide Receive, Accepts, Quiet, Unfinished, Decode, Sum;
    var reply := fs[|fs| - 1];
    FirstReadDecides(wait, g, fs, p, more, size);
    assert WellFormed(reply, Accepts);
    ReplyOnWire(reply);
    DecodesExactly(reply);
    assert Word(reply, 6) + 9 == |reply| - 2;
  }
}
