/**
  The FPGA firmware injector (fpga_firmware_injector.c): one background thread that drives a state
  machine. Everything outside the thread (metadata checks, file system, RS-422 transactions,
  clocks, the abort request) is an input of each turn of its loop.
 */
module Injector {
  import opened Bytes
  import opened Crc16
  import opened FirmwareGeometry

  const MAX_RETRIES: nat := 3

  const READY: byte := 0x00
  const PREPARING: byte := 0x11
  const OK: byte := 0x00
  const IN_PROGRESS: byte := 0x11

  datatype State = Idle | ParsingMetadata | TransferStart | TransferData | TransferEnd
                 | ReconfigStart | ReconfigPolling | Completed | Failed

  /** Position in the enumeration, which is the order a run passes through the states. */
  function Rank(s: State): nat {
    match s
    case Idle => 0
    case ParsingMetadata => 1
    case TransferStart => 2
    case TransferData => 3
    case TransferEnd => 4
    case ReconfigStart => 5
    case ReconfigPolling => 6
    case Completed => 7
    case Failed => 8
  }

  datatype Notice = Pre | Post

  /** What the thread does on the line or learns from it. */
  datatype Event =
    | Notified(notice: Notice)
    | StartSent(params: StartParams, crc: nat)
    | Ready
    | Sent(packet: Packet)
    | Acked(packet: Packet)
    | EndAccepted
    | Reconfigured
    | AbortSent

  /** Outcome of uart_rs422_send_and_wait followed by decoding and parsing the reply. */
  datatype Reply = NoReply | Undecodable | TooShort | Ack(result: byte)

  datatype StartPoll = StartPoll(abort: bool, timeout: bool, reply: Reply)
  datatype Attempt = Attempt(segmentSeek: bool, retrySeek: bool, read: bool, reply: Reply)

  /** The inputs of one turn of the loop; each state looks at its own. */
  datatype Turn = Turn(
    abort: bool,
    metadataOk: bool, hashOk: bool, openOk: bool, mallocOk: bool, readAllOk: bool,
    polls: seq<StartPoll>, reopenOk: bool, abortInErase: bool,
    attempt: Attempt,
    end: Reply,
    sendOk: bool,
    pollTimeout: bool, poll: Reply)

  /** The events that mark progress, in the order they happened. */
  function Milestones(log: seq<Event>): seq<Event> {
    if log == [] then []
    else
      var e, before := log[|log| - 1], Milestones(log[..|log| - 1]);
      if e.Ready? || e.Acked? || e.EndAccepted? || e.Reconfigured? then before + [e] else before
  }

  lemma MilestonesSnoc(log: seq<Event>, e: Event)
    ensures Milestones(log + [e])
         == Milestones(log) + if e.Ready? || e.Acked? || e.EndAccepted? || e.Reconfigured? then [e] else []
  {
    assert (log + [e])[..|log|] == log;
  }

  function Acks(packets: seq<Packet>): seq<Event> {
    seq(|packets|, i requires 0 <= i < |packets| => Acked(packets[i]))
  }

  /** The packets that make up a complete transfer; none when the segment count has wrapped to 0. */
  function Transfer(image: seq<byte>): seq<Packet> {
    if |image| <= LIMIT then AllPackets(image) else []
  }

  /** The packets acknowledged when a run stands at segment `s`, packet `i`. */
  function Progress(image: seq<byte>, s: nat, i: nat): seq<Packet>
    requires |image| < 0x1_0000_0000
  {
    if s < SegmentCount(|image|) && PacketStart(|image|, s, i) <= |image| then PacketsUpTo(image, s, i)
    else Transfer(image)
  }

  /** The milestones a task in state `s` must have passed; a failed task may have passed any. */
  predicate Earned(image: seq<byte>, s: State, seg: nat, pk: nat, log: seq<Event>)
    requires |image| < 0x1_0000_0000
  {
    match s
    case TransferData => Milestones(log) == [Ready] + Acks(Progress(image, seg, pk))
    case TransferEnd => Milestones(log) == [Ready] + Acks(Transfer(image))
    case ReconfigStart => Milestones(log) == [Ready] + Acks(Transfer(image)) + [EndAccepted]
    case ReconfigPolling => Milestones(log) == [Ready] + Acks(Transfer(image)) + [EndAccepted]
    case Completed => Milestones(log) == [Ready] + Acks(Transfer(image)) + [EndAccepted, Reconfigured]
    case Failed => true
    case _ => Milestones(log) == []
  }

  /** Number of times a packet has been put on the line. */
  function Tries(log: seq<Event>, p: Packet): nat {
    multiset(log)[Sent(p)]
  }

  /**
    Every packet ever sent is the file's own and was sent at most three times, and every start
    command announced the file's geometry and CRC.
   */
  ghost predicate SendsSound(image: seq<byte>, log: seq<Event>)
    requires |image| < 0x1_0000_0000
  {
    && (forall a, c :: StartSent(a, c) in log ==> a == Announced(|image|) && c == Value(Crc(image)))
    && (forall p :: Sent(p) in log ==> Genuine(image, p))
    && (forall p :: Tries(log, p) <= MAX_RETRIES)
  }

  /** Only packets in front of position (s, i) have been sent. */
  ghost predicate SentBefore(log: seq<Event>, s: nat, i: nat) {
    forall p :: Sent(p) in log ==> p.segment < s || (p.segment == s && p.index < i)
  }

  /** The packet at position (s, i) has been sent `n` times and nothing beyond it. */
  ghost predicate SentUpTo(image: seq<byte>, log: seq<Event>, s: nat, i: nat, n: nat) {
    if n == 0 then SentBefore(log, s, i)
    else
      && SentBefore(log, s, i + 1)
      && SegmentStart(s) < |image| && i < PacketCount(SegmentSize(|image|, s))
      && Tries(log, PacketAt(image, s, i)) == n
  }

  /** The log opens with the one PRE notice and, until the thread leaves, holds no other notice. */
  ghost predicate Opened(log: seq<Event>) {
    && log != [] && log[0] == Notified(Pre)
    && forall k :: 1 <= k < |log| ==> !log[k].Notified?
  }

  // ---------------------------------------------------------------- progress and the log

  lemma ProgressSnoc(image: seq<byte>, s: nat, i: nat)
    requires |image| <= LIMIT && s < SegmentCount(|image|) && i < PacketCount(SegmentSize(|image|, s))
    ensures PacketStart(|image|, s, i + 1) <= |image|
    ensures Progress(image, s, i + 1) == Progress(image, s, i) + [PacketAt(image, s, i)]
  {
    SegmentCountExact(|image|);
  }

  /** The end of one segment is the start of the next, or of the end of the transfer. */
  lemma ProgressTurn(image: seq<byte>, s: nat)
    requires |image| <= LIMIT && s < SegmentCount(|image|)
    ensures Progress(image, s, PacketCount(SegmentSize(|image|, s))) == Progress(image, s + 1, 0)
  {
    SegmentCountExact(|image|);
  }

  /** A packet sent once more. */
  lemma LogSent(image: seq<byte>, log: seq<Event>, s: nat, i: nat, n: nat)
    requires |image| < 0x1_0000_0000
    requires Opened(log) && SendsSound(image, log) && SentUpTo(image, log, s, i, n) && n < MAX_RETRIES
    requires SegmentStart(s) < |image| && i < PacketCount(SegmentSize(|image|, s))
    ensures var log' := log + [Sent(PacketAt(image, s, i))];
            && Opened(log') && SendsSound(image, log') && SentUpTo(image, log', s, i, n + 1)
            && Milestones(log') == Milestones(log)
  {
    var p := PacketAt(image, s, i);
    MilestonesSnoc(log, Sent(p));
    TriesSnoc(log, Sent(p));
  }

  /** An entry counts as one more try of the packet it sends, and of no other. */
  lemma TriesSnoc(log: seq<Event>, e: Event)
    ensures forall q :: Tries(log + [e], q) == Tries(log, q) + if e == Sent(q) then 1 else 0
    ensures forall q :: Sent(q) in log + [e] <==> Sent(q) in log || e == Sent(q)
    ensures forall q :: Sent(q) !in log ==> Tries(log, q) == 0
    ensures forall a, c :: StartSent(a, c) in log + [e] <==> StartSent(a, c) in log || e == StartSent(a, c)
  {
    assert multiset(log + [e]) == multiset(log) + multiset{e};
  }

  /** Any other entry leaves the record of sent packets alone. */
  lemma LogOther(image: seq<byte>, log: seq<Event>, e: Event)
    requires |image| < 0x1_0000_0000
    requires Opened(log) && SendsSound(image, log) && !e.Sent? && !e.Notified?
    requires e.StartSent? ==> e.params == Announced(|image|) && e.crc == Value(Crc(image))
    ensures var log' := log + [e];
            && Opened(log') && SendsSound(image, log')
            && (forall p :: Sent(p) in log' <==> Sent(p) in log)
            && (forall p :: Tries(log', p) == Tries(log, p))
            && Milestones(log') == Milestones(log) + if e.AbortSent? || e.StartSent? then [] else [e]
  {
    MilestonesSnoc(log, e);
    TriesSnoc(log, e);
  }

  lemma AcksSnoc(packets: seq<Packet>, p: Packet)
    ensures [Ready] + Acks(packets + [p]) == [Ready] + Acks(packets) + [Acked(p)]
  {
    assert Acks(packets + [p]) == Acks(packets) + [Acked(p)];
  }

  /** What one packet attempt puts on record, and where it leaves the position, the tries and the state. */
  ghost predicate Exchanged(image: seq<byte>, s: nat, i: nat, tries: nat, reply: Reply, was: seq<Event>,
                            log: seq<Event>, packet: nat, retryCount: nat, state: State) {
    && PacketStart(|image|, s, i + 1) <= |image|
    && var p := PacketAt(image, s, i);
       if reply == Ack(OK) then
         log == was + [Sent(p)] + [Acked(p)] && packet == i + 1 && retryCount == 0 && state == TransferData
       else
         && packet == i && retryCount == tries + 1
         && if tries + 1 < MAX_RETRIES then log == was + [Sent(p)] && state == TransferData
            else log == was + [Sent(p)] + [AbortSent] && state == Failed
  }

  /** The receiver asks for more time until poll `k`, which says READY; nothing interrupts before. */
  predicate ReadyAt(polls: seq<StartPoll>, k: nat) {
    && k < |polls| && polls[k].reply == Ack(READY) && AllPreparing(polls, k)
    && !polls[k].abort && !polls[k].timeout
  }

  /** The first `k` polls were made and left the receiver preparing. */
  predicate AllPreparing(polls: seq<StartPoll>, k: nat) {
    k <= |polls|
    && forall j :: 0 <= j < k ==>
         !polls[j].abort && !polls[j].timeout && (polls[j].reply.Ack? ==> polls[j].reply.result == PREPARING)
  }

  /** The announcement, once per poll. */
  function Announcements(params: StartParams, crc: nat, n: nat): seq<Event> {
    if n == 0 then [] else Announcements(params, crc, n - 1) + [StartSent(params, crc)]
  }

  /** Everything one turn of the data phase can do: end it, enter the next segment, fail, or exchange a packet. */
  ghost predicate DataTurn(image: seq<byte>, segments: nat, s: nat, i: nat, tries: nat, a: Attempt, was: seq<Event>,
                           log: seq<Event>, segment: nat, packet: nat, retryCount: nat, state: State) {
    if s >= segments then state == TransferEnd && log == was
    else if i == 0 && !a.segmentSeek then state == Failed && log == was
    else if i == PacketCount(SegmentSize(|image|, s)) then
      state == TransferData && log == was && segment == s + 1 && packet == retryCount == 0
    else if (tries > 0 && !a.retrySeek) || !a.read then state == Failed && log == was
    else segment == s && Exchanged(image, s, i, tries, a.reply, was, log, packet, retryCount, state)
  }

  lemma ReadyOrWaiting(polls: seq<StartPoll>)
    ensures !((exists k: nat :: ReadyAt(polls, k)) && AllPreparing(polls, |polls|))
  {
  }

  /** A poll that interrupts, or an answer other than "preparing" and "ready", ends the wait for good. */
  lemma NeverReady(polls: seq<StartPoll>, i: nat)
    requires AllPreparing(polls, i)
    requires i == |polls| || polls[i].abort || polls[i].timeout
             || (polls[i].reply.Ack? && polls[i].reply.result !in {PREPARING, READY})
    ensures forall k: nat :: !ReadyAt(polls, k)
  {
    forall k: nat ensures !ReadyAt(polls, k) {
      if k < i {
        assert polls[k].reply.Ack? ==> polls[k].reply.result == PREPARING;
      }
    }
  }

  // ---------------------------------------------------------------- turns and runs

  /** The task between two turns of its loop. */
  datatype Snapshot = Snapshot(state: State, totalSegments: nat, checksum: nat,
                               segment: nat, packet: nat, retryCount: nat, log: seq<Event>)

  /** What one turn of the loop makes of each state. */
  ghost predicate StateTurn(image: seq<byte>, a: Snapshot, t: Turn, b: Snapshot)
    requires |image| < 0x1_0000_0000
  {
    match a.state
    case ParsingMetadata =>
      && b.log == a.log
      && if t.metadataOk && t.hashOk && t.openOk && t.mallocOk && t.readAllOk then
           b.state == TransferStart && b.totalSegments == SegmentCount(|image|) && b.checksum == Value(Crc(image))
         else b.state == Failed
    case TransferStart =>
      && StartTurn(|image|, a, t, b)
      && b.totalSegments == a.totalSegments && b.checksum == a.checksum
    case TransferData =>
      && b.totalSegments == a.totalSegments
      && DataTurn(image, a.totalSegments, a.segment, a.packet, a.retryCount, t.attempt, a.log,
                  b.log, b.segment, b.packet, b.retryCount, b.state)
    case TransferEnd =>
      && b.state == (if t.end == Ack(OK) then ReconfigStart else Failed)
      && b.log == a.log + if t.end == Ack(OK) then [EndAccepted] else if t.end.Ack? then [AbortSent] else []
    case ReconfigStart => b.log == a.log && b.state == if t.sendOk then ReconfigPolling else Failed
    case ReconfigPolling =>
      && b.state == (if t.pollTimeout then Failed
                     else if t.poll == Ack(OK) then Completed
                     else if t.poll.Ack? && t.poll.result != IN_PROGRESS then Failed else ReconfigPolling)
      && b.log == a.log + if b.state == Completed then [Reconfigured] else []
    case _ => b == a
  }

  /** The wait for READY, and what follows it. */
  ghost predicate StartTurn(n: u32, a: Snapshot, t: Turn, b: Snapshot) {
    && b.state in {TransferStart, TransferData, Failed}
    && (b.state == TransferStart <==> AllPreparing(t.polls, |t.polls|))
    && (b.state == TransferData <==> (exists k: nat :: ReadyAt(t.polls, k)) && t.reopenOk && !t.abortInErase)
    && (b.state == TransferData ==> b.segment == b.packet == b.retryCount == 0)
    && (if exists k: nat :: ReadyAt(t.polls, k)
        then exists k: nat :: ReadyAt(t.polls, k)
               && b.log == a.log + Announcements(Announced(n), a.checksum, k + 1) + [Ready]
        else Milestones(b.log) == [])
    && (AllPreparing(t.polls, |t.polls|) ==>
          b.log == a.log + Announcements(Announced(n), a.checksum, |t.polls|))
  }

  predicate Finished(s: State) {
    s == Completed || s == Failed
  }

  /** The turns a run has taken, from the opening notice on. */
  ghost predicate IsRun(image: seq<byte>, trace: seq<Snapshot>, turns: seq<Turn>)
    requires |image| < 0x1_0000_0000
  {
    && 0 < |trace| <= |turns| + 1
    && trace[0].state == ParsingMetadata && trace[0].log == [Notified(Pre)]
    && forall k :: 0 <= k < |trace| - 1 ==>
         !turns[k].abort && !Finished(trace[k].state) && StateTurn(image, trace[k], turns[k], trace[k + 1])
  }

  /** Answers of 11 or none that can be read, and then 00, with nothing coming between. */
  predicate Readied(polls: seq<StartPoll>, k: nat) {
    && k < |polls| && polls[k].reply == Ack(0x00)
    && (forall j :: 0 <= j < k ==> polls[j].reply.Ack? ==> polls[j].reply.result == 0x11)
    && (forall j :: 0 <= j <= k ==> !polls[j].abort && !polls[j].timeout)
  }

  /** A turn on which nothing goes wrong, but for the answer to a packet; 00 is the answer that all is well. */
  ghost predicate Good(t: Turn) {
    && !t.abort && t.metadataOk && t.hashOk && t.openOk && t.mallocOk && t.readAllOk
    && (exists k: nat :: Readied(t.polls, k)) && t.reopenOk && !t.abortInErase
    && t.attempt.segmentSeek && t.attempt.retrySeek && t.attempt.read
    && t.end == Ack(0x00) && t.sendOk && !t.pollTimeout && t.poll == Ack(0x00)
  }

  /** Good turns; and of any three in a row one at least acknowledges a packet. */
  ghost predicate GoodTurns(turns: seq<Turn>) {
    && (forall k :: 0 <= k < |turns| ==> Good(turns[k]))
    && forall k :: 0 <= k < |turns| - 2 ==>
         Ack(0x00) in [turns[k].attempt.reply, turns[k + 1].attempt.reply, turns[k + 2].attempt.reply]
  }

  /** At most so many turns take the data phase from a position to its end: three a packet, one a segment. */
  function MaxTurns(n: u32, s: nat, i: nat): int
    decreases if s < SegmentCount(n) then SegmentCount(n) - s else 0
  {
    if s >= SegmentCount(n) then 1
    else 3 * (PacketCount(SegmentSize(n, s)) - i) + 1 + MaxTurns(n, s + 1, 0)
  }

  /** Turns that are enough for a run with a file of `n` bytes. */
  function TurnsNeeded(n: u32): int {
    2 + MaxTurns(n, 0, 0) + 3
  }

  class Task {
    /** The .bin file as it lies on disk. */
    const file: seq<byte>
    var state: State
    var totalSegments: nat
    var segment: nat
    var totalPackets: nat
    var packet: nat
    var segmentOffset: nat
    var checksum: nat
    var fileOpen: bool
    var filePos: nat
    var retryCount: nat
    var inProgress: bool
    ghost var log: seq<Event>

    /** The bytes covered by metadata.file_size. */
    ghost function Image(): (r: seq<byte>)
      reads this
      ensures |r| == FileSize(file) < 0x1_0000_0000
    {
      file[..FileSize(file)]
    }

    ghost function Now(): Snapshot
      reads this
    {
      Snapshot(state, totalSegments, checksum, segment, packet, retryCount, log)
    }

    /** Where the data phase stands, and that the next read starts in the right place. */
    ghost predicate DataPhase()
      reads this
    {
      var n := FileSize(file);
      && totalSegments == SegmentCount(n) && segment <= totalSegments && fileOpen
      && retryCount < MAX_RETRIES
      && (segment == totalSegments ==> packet == 0 && retryCount == 0)
      && (segment < totalSegments ==> packet <= PacketCount(SegmentSize(n, segment)))
      && (packet > 0 ==> totalPackets == PacketCount(SegmentSize(n, segment)) && segmentOffset == SegmentStart(segment))
      && (packet > 0 && retryCount == 0 ==> filePos == PacketStart(n, segment, packet))
      && SentUpTo(Image(), log, segment, packet, retryCount)
    }

    ghost predicate Valid()
      reads this
    {
      && Opened(log) && SendsSound(Image(), log)
      && Earned(Image(), state, segment, packet, log)
      && (state == TransferData ==> DataPhase())
      && (Rank(state) < Rank(TransferData) ==> SentBefore(log, 0, 0))
      && (state == TransferStart ==> totalSegments == SegmentCount(FileSize(file)) && checksum == Value(Crc(Image())))
    }

    /** fpga_firmware_injection_init */
    constructor (file: seq<byte>)
      ensures state == Idle && !inProgress && this.file == file && log == []
    {
      this.file := file;
      state := Idle;
      totalSegments, segment, totalPackets, packet, segmentOffset := 0, 0, 0, 0, 0;
      checksum, fileOpen, filePos, retryCount, inProgress := 0, false, 0, 0, false;
      log := [];
    }

    /** fpga_firmware_injection_start, up to the creation of the thread. */
    method Start(threadCreated: bool) returns (ok: bool)
      modifies this
      ensures ok == (!old(inProgress) && threadCreated)
      ensures ok ==> state == ParsingMetadata && inProgress && log == []
      ensures old(inProgress) ==> inProgress && state == old(state) && log == old(log)
      ensures !old(inProgress) && !threadCreated ==> !inProgress
    {
      if inProgress {
        return false;
      }
      state := ParsingMetadata;
      segment, retryCount, fileOpen := 0, 0, false;
      log := [];
      inProgress := threadCreated;
      ok := threadCreated;
    }

    method Fail()
      requires Opened(log) && SendsSound(Image(), log)
      modifies `state
      ensures Valid() && state == Failed
    {
      state := Failed;
    }

    /** handle_parsing_metadata */
    method HandleParsingMetadata(t: Turn)
      requires Valid() && state == ParsingMetadata
      modifies this
      ensures Valid() && log == old(log)
      ensures state == if t.metadataOk && t.hashOk && t.openOk && t.mallocOk && t.readAllOk then TransferStart
                else Failed
    {
      hide Milestones, SendsSound, Opened, Crc, Value;
      if !t.metadataOk || !t.hashOk {
        Fail();
        return;
      }
      totalSegments := SegmentCount(FileSize(file));
      if !t.openOk || !t.mallocOk || !t.readAllOk {
        Fail();
        return;
      }
      var n := FileSize(file);
      var data := new byte[n];
      forall i | 0 <= i < n {
        data[i] := file[i];
      }
      assert data[..n] == Image();
      var crc := ComputeCrc16(data, n);
      checksum := Value(crc);
      state := TransferStart;
    }

    /** Some polls of the loop of handle_transfer_start: ready, still waiting, or failed. */
    method AwaitReady(polls: seq<StartPoll>) returns (ready: bool, waiting: bool)
      requires Valid() && state == TransferStart
      modifies `log, `state
      ensures Valid() && state == if ready || waiting then TransferStart else Failed
      ensures ready <==> exists k: nat :: ReadyAt(polls, k)
      ensures ready ==>
                exists k: nat :: ReadyAt(polls, k)
                       && log == old(log) + Announcements(Announced(FileSize(file)), checksum, k + 1)
      ensures waiting <==> AllPreparing(polls, |polls|)
      ensures waiting ==> log == old(log) + Announcements(Announced(FileSize(file)), checksum, |polls|)
      ensures Milestones(log) == []
    {
      hide Milestones, SendsSound, Opened, Crc, Value;
      var params := Announced(FileSize(file));
      var result := PREPARING;
      var i := 0;
      assert log + [] == log;
      while result == PREPARING && i < |polls|
        invariant Valid() && state == TransferStart && checksum == old(checksum)
        invariant i <= |polls| && log == old(log) + Announcements(params, checksum, i)
        invariant if result == PREPARING then AllPreparing(polls, i)
                  else 0 < i && AllPreparing(polls, i - 1) && polls[i - 1].reply == Ack(result)
                       && !polls[i - 1].abort && !polls[i - 1].timeout
        decreases |polls| - i
      {
        var poll := polls[i];
        if poll.abort || poll.timeout {
          NeverReady(polls, i);
          Fail();
          return false, false;
        }
        LogOther(Image(), log, StartSent(params, checksum));
        Assoc(old(log), Announcements(params, checksum, i), [StartSent(params, checksum)]);
        log := log + [StartSent(params, checksum)];
        if poll.reply.Ack? {
          result := poll.reply.result;
        }
        i := i + 1;
      }
      if result == PREPARING {
        NeverReady(polls, i);
        return false, true;
      }
      if result != READY {
        NeverReady(polls, i - 1);
        Fail();
        return false, false;
      }
      assert ReadyAt(polls, i - 1);
      return true, false;
    }

    /**
      handle_transfer_start: poll until the receiver is ready, refuses, or time is up. Where the polls of
      one turn end with the receiver still preparing, the next turn goes on polling.
     */
    method HandleTransferStart(t: Turn)
      requires Valid() && state == TransferStart
      modifies this
      ensures Valid() && state in {TransferStart, TransferData, Failed}
      ensures state == TransferStart <==> AllPreparing(t.polls, |t.polls|)
      ensures state == TransferData <==> (exists k: nat :: ReadyAt(t.polls, k)) && t.reopenOk && !t.abortInErase
      ensures state == TransferData ==> segment == packet == retryCount == 0
      ensures totalSegments == old(totalSegments) && checksum == old(checksum)
      ensures if exists k: nat :: ReadyAt(t.polls, k)
              then exists k: nat :: ReadyAt(t.polls, k)
                     && log == old(log) + Announcements(Announced(FileSize(file)), old(checksum), k + 1) + [Ready]
              else Milestones(log) == []
      ensures AllPreparing(t.polls, |t.polls|) ==>
                log == old(log) + Announcements(Announced(FileSize(file)), old(checksum), |t.polls|)
    {
      hide Milestones, SendsSound, Opened, Crc, Value, Progress, Announcements;
      var ready, waiting := AwaitReady(t.polls);
      if !ready {
        return;
      }
      ReadyOrWaiting(t.polls);
      LogOther(Image(), log, Ready);
      log := log + [Ready];
      if !t.reopenOk {
        Fail();
        return;
      }
      fileOpen := true;
      if t.abortInErase {
        Fail();
        return;
      }
      segment, packet, segmentOffset, retryCount := 0, 0, 0, 0;
      NoProgressYet(Image());
      state := TransferData;
    }

    /** handle_transfer_end */
    method HandleTransferEnd(reply: Reply)
      requires Valid() && state == TransferEnd
      modifies this
      ensures Valid() && !fileOpen
      ensures state == if reply == Ack(OK) then ReconfigStart else Failed
      ensures log == old(log) + if reply == Ack(OK) then [EndAccepted] else if reply.Ack? then [AbortSent] else []
    {
      hide Milestones, SendsSound, Opened;
      fileOpen := false;
      if !reply.Ack? {
        Fail();
      } else if reply.result != OK {
        LogOther(Image(), log, AbortSent);
        log := log + [AbortSent];
        Fail();
      } else {
        LogOther(Image(), log, EndAccepted);
        log := log + [EndAccepted];
        state := ReconfigStart;
      }
    }

    /** handle_reconfig_start */
    method HandleReconfigStart(sendOk: bool)
      requires Valid() && state == ReconfigStart
      modifies this
      ensures Valid() && log == old(log) && state == if sendOk then ReconfigPolling else Failed
    {
      state := if sendOk then ReconfigPolling else Failed;
    }

    /** handle_reconfig_polling */
    method HandleReconfigPolling(timeout: bool, reply: Reply)
      requires Valid() && state == ReconfigPolling
      modifies this
      ensures Valid()
      ensures state == if timeout then Failed
                       else if reply == Ack(OK) then Completed
                       else if reply.Ack? && reply.result != IN_PROGRESS then Failed else ReconfigPolling
      ensures log == old(log) + if state == Completed then [Reconfigured] else []
    {
      hide Milestones, SendsSound, Opened;
      if timeout {
        Fail();
        return;
      }
      if !reply.Ack? {
        return;
      }
      if reply.result == OK {
        LogOther(Image(), log, Reconfigured);
        log := log + [Reconfigured];
        assert forall m: seq<Event> :: m + [EndAccepted] + [Reconfigured] == m + [EndAccepted, Reconfigured];
        state := Completed;
      } else if reply.result != IN_PROGRESS {
        Fail();
      }
    }

    /** One turn of the thread's loop: states only move forward or to FAILED. */
    method HandleState(t: Turn)
      requires Valid() && state !in {Completed, Failed}
      modifies this
      ensures Valid() && Rank(old(state)) <= Rank(state)
      ensures StateTurn(Image(), old(Now()), t, Now())
    {
      hide SendsSound, Opened, DataPhase, Earned, DataTurn, Announcements, Milestones, Crc, Value;
      match state
      case ParsingMetadata => HandleParsingMetadata(t);
      case TransferStart => HandleTransferStart(t);
      case TransferData => HandleTransferData(t.attempt);
      case TransferEnd => HandleTransferEnd(t.end);
      case ReconfigStart => HandleReconfigStart(t.sendOk);
      case ReconfigPolling => HandleReconfigPolling(t.pollTimeout, t.poll);
      case _ =>
    }

    /**
      injection_thread_func. The run lasts as many turns as are given; `exited` tells whether it
      came to its end within them. It opens with one PRE notice, takes a turn after the other as long
      as it is neither aborted nor finished, and closes with one POST notice; whatever state it leaves
      behind has been earned.
     */
    method RunThread(turns: seq<Turn>) returns (exited: bool, ghost trace: seq<Snapshot>)
      requires state == ParsingMetadata && log == []
      modifies this
      ensures SendsSound(Image(), log) && Earned(Image(), state, segment, packet, log)
      ensures Rank(ParsingMetadata) <= Rank(state)
      ensures IsRun(Image(), trace, turns)
      ensures var taken := |trace| - 1;
              var last := trace[taken];
              if exited then
                && taken < |turns| && (turns[taken].abort || Finished(last.state)) && log == last.log + [Notified(Post)]
                && state == (if last.state == TransferStart && taken > 0 && trace[taken - 1].state == TransferStart
                             then Failed else last.state)
                && Opened(last.log) && !fileOpen && !inProgress
              else taken == |turns| && Now() == last && Opened(log)
    {
      hide SendsSound, DataPhase, Earned, Opened, Rank, StateTurn, Finished;
      Open();
      trace := [Now()];
      var waiting := false;
      for i := 0 to |turns|
        invariant Valid() && log != [] && Rank(ParsingMetadata) <= Rank(state)
        invariant IsRun(Image(), trace, turns) && |trace| == i + 1 && Now() == trace[i]
        invariant waiting == (i > 0 && trace[i].state == trace[i - 1].state == TransferStart)
      {
        if turns[i].abort || Finished(state) {
          Leave(waiting);
          return true, trace;
        }
        waiting := TakeTurn(turns[i]);
        RunGrows(Image(), trace, turns, Now());
        trace := trace + [Now()];
      }
      exited := false;
    }

    /** The PRE notice. */
    method Open()
      requires state == ParsingMetadata && log == []
      modifies `log
      ensures Valid() && log == [Notified(Pre)]
    {
      hide SendsSound;
      EmptyLog(Image(), segment, packet);
      log := [Notified(Pre)];
    }

    /** One turn, and whether it ended within the wait for READY. */
    method TakeTurn(t: Turn) returns (waiting: bool)
      requires Valid() && !Finished(state)
      modifies this
      ensures Valid() && log != [] && Rank(old(state)) <= Rank(state)
      ensures StateTurn(Image(), old(Now()), t, Now())
      ensures waiting == (old(state) == state == TransferStart)
    {
      hide SendsSound, DataPhase, Earned, StateTurn;
      var was := state;
      HandleState(t);
      waiting := was == TransferStart && state == TransferStart;
    }

    /**
      A whole injection: what has been acknowledged once the data phase is over. When nothing goes wrong
      but that packets are acknowledged on their third try at the latest, the injection completes, with
      any file: what was acknowledged is the file without what its 32-bit size lost, or nothing where the
      segment count wraps. So it is the file if and only if that is not too long.
     */
    method Inject(turns: seq<Turn>) returns (exited: bool)
      requires !inProgress
      modifies this
      ensures state in {TransferEnd, ReconfigStart, ReconfigPolling, Completed} ==>
                (AckedData(log) == file <==> |file| <= LIMIT)
      ensures forall p :: Tries(log, p) <= MAX_RETRIES
      ensures GoodTurns(turns) && |turns| > TurnsNeeded(FileSize(file)) ==>
                && exited && state == Completed && EndAccepted in log && Reconfigured in log
                && AckedData(log) == if FileSize(file) <= LIMIT then file[..FileSize(file)] else []
    {
      hide Earned, AckedData, GoodTurns, TurnsNeeded, IsRun, Milestones, Transfer, DataOf, Opened;
      var started := Start(true);
      ghost var trace;
      exited, trace := RunThread(turns);
      if GoodTurns(turns) && |turns| > TurnsNeeded(FileSize(file)) {
        GoodRunCompletes(Image(), trace, turns);
        CompletedLog(Image(), segment, packet, log);
        CarriedData(Image());
      }
      if state in {TransferEnd, ReconfigStart, ReconfigPolling, Completed} {
        TransferRebuildsFile(file, state, segment, packet, log);
      }
    }

    /** exit_thread: the POST notice, then the file is closed. An abort within the wait for READY fails the run. */
    method Leave(waiting: bool)
      requires Valid()
      modifies `log, `fileOpen, `inProgress, `state
      ensures state == (if waiting then Failed else old(state)) && Rank(old(state)) <= Rank(state)
      ensures SendsSound(Image(), log) && Earned(Image(), state, segment, packet, log)
      ensures log == old(log) + [Notified(Post)] && Opened(old(log)) && !fileOpen && !inProgress
      ensures log[..|log| - 1] == old(log)
    {
      hide SendsSound, Opened, Progress, Milestones;
      if waiting {
        Fail();
      }
      LogClosed(Image(), log);
      log := log + [Notified(Post)];
      fileOpen := false;
      inProgress := false;
    }

    /** The data phase ends, whatever the line does: no unbounded run stays in it. */
    method DataPhaseEnds(outcome: nat -> Attempt)
      requires Valid() && state == TransferData
      modifies this
      ensures Valid() && state in {TransferEnd, Failed}
    {
      hide SendsSound, Opened, Earned;
      var turn := 0;
      while state == TransferData
        invariant Valid() && state in {TransferData, TransferEnd, Failed}
        decreases state == TransferData, SegmentsLeft(), PacketsLeft(), MAX_RETRIES - retryCount
      {
        HandleTransferData(outcome(turn));
        turn := turn + 1;
      }
    }

    /** Segments, packets and attempts still to come: what every turn of the data phase lowers. */
    ghost function SegmentsLeft(): int
      reads this
    {
      totalSegments - segment
    }

    ghost function PacketsLeft(): int
      reads this
    {
      PacketCount(SegmentSize(FileSize(file), segment)) - packet
    }

    /** handle_transfer_data: one packet attempt, or one move to the next segment or state. */
    method HandleTransferData(a: Attempt)
      requires Valid() && state == TransferData
      modifies this
      ensures Valid() && state in {TransferData, TransferEnd, Failed} && totalSegments == old(totalSegments)
      ensures DataTurn(Image(), old(totalSegments), old(segment), old(packet), old(retryCount), a, old(log),
                       log, segment, packet, retryCount, state)
      ensures state == TransferData ==>
                || SegmentsLeft() < old(SegmentsLeft())
                || (SegmentsLeft() == old(SegmentsLeft()) && PacketsLeft() < old(PacketsLeft()))
                || (SegmentsLeft() == old(SegmentsLeft()) && PacketsLeft() == old(PacketsLeft())
                    && retryCount > old(retryCount))
    {
      hide Progress, Milestones, SentUpTo, SendsSound, Opened;
      if segment >= totalSegments {
        ProgressAtEnd(Image());
        state := TransferEnd;
        return;
      }
      SegmentCountExact(FileSize(file));
      var ok := EnterSegment(a.segmentSeek);
      if !ok {
        return;
      }
      if packet >= totalPackets {
        ProgressTurn(Image(), segment);
        NextSegmentUnsent(Image(), log, segment, retryCount);
        segment, packet, retryCount := segment + 1, 0, 0;
        return;
      }
      TryPacket(a);
    }

    /** One attempt at the packet at the current position. */
    method TryPacket(a: Attempt)
      requires Valid() && state == TransferData && 0 < FileSize(file) <= LIMIT
      requires segment < totalSegments == SegmentCount(FileSize(file))
      requires packet < totalPackets == PacketCount(SegmentSize(FileSize(file), segment))
      requires segmentOffset == SegmentStart(segment)
      requires retryCount == 0 ==> filePos == PacketStart(FileSize(file), segment, packet)
      modifies this
      ensures Valid() && state in {TransferData, Failed}
      ensures totalSegments == old(totalSegments) && segment == old(segment)
      ensures if (old(retryCount) > 0 && !a.retrySeek) || !a.read then state == Failed && log == old(log)
              else Exchanged(Image(), segment, old(packet), old(retryCount), a.reply, old(log), log, packet,
                             retryCount, state)
    {
      hide Progress, Milestones, SentUpTo, SendsSound, Opened, Exchanged;
      var ok, data := ReadPacket(a.retrySeek, a.read);
      if !ok {
        return;
      }
      Exchange(data, a.reply);
    }

    /** The size of the current segment as the code computes it. */
    function CurrentSize(): nat
      requires 0 < FileSize(file) <= LIMIT && segment < totalSegments == SegmentCount(FileSize(file))
      reads this
      ensures CurrentSize() == SegmentSize(FileSize(file), segment)
    {
      SegmentCountExact(FileSize(file));
      if segment == totalSegments - 1 then FileSize(file) - segment * SEGMENT else SEGMENT
    }

    /** At the first packet of a segment: count its packets and seek to its start. */
    method EnterSegment(seekOk: bool) returns (ok: bool)
      requires Valid() && state == TransferData && segment < totalSegments && 0 < FileSize(file) <= LIMIT
      modifies `totalPackets, `segmentOffset, `filePos, `state
      ensures Valid() && (if ok then state == TransferData else state == Failed)
      ensures ok <==> packet != 0 || seekOk
      ensures ok ==> && totalPackets == PacketCount(SegmentSize(FileSize(file), segment))
                     && segmentOffset == SegmentStart(segment)
                     && (retryCount == 0 ==> filePos == PacketStart(FileSize(file), segment, packet))
    {
      hide Progress, Milestones, SentUpTo, SendsSound, Opened;
      var size := CurrentSize();
      if packet == 0 {
        totalPackets := (size + PACKET - 1) / PACKET;
        segmentOffset := segment * SEGMENT;
        if !seekOk {
          state := Failed;
          return false;
        }
        filePos := segmentOffset;
      }
      return true;
    }

    /** Seek back for a retry, otherwise go on from the current position, and read one packet. */
    method ReadPacket(seekOk: bool, readOk: bool) returns (ok: bool, data: seq<byte>)
      requires Valid() && state == TransferData && 0 < FileSize(file) <= LIMIT
      requires segment < totalSegments == SegmentCount(FileSize(file))
      requires packet < totalPackets == PacketCount(SegmentSize(FileSize(file), segment))
      requires segmentOffset == SegmentStart(segment)
      requires retryCount == 0 ==> filePos == PacketStart(FileSize(file), segment, packet)
      modifies `filePos, `state
      ensures if ok then state == TransferData else state == Failed && Valid()
      ensures ok <==> (retryCount == 0 || seekOk) && readOk
      ensures ok ==> filePos == PacketStart(FileSize(file), segment, packet + 1)
                     && Packet(segment, packet, totalPackets, data) == PacketAt(Image(), segment, packet)
    {
      hide Earned, DataPhase, SendsSound, Opened, PacketStart, PacketCount, SegmentSize, SegmentStart;
      var size := CurrentSize();
      PacketSpan(FileSize(file), segment, packet);
      data := [];
      var len := PACKET;
      if packet == totalPackets - 1 {
        var remaining := size - packet * PACKET;
        if remaining < PACKET {
          len := remaining;
        }
      }
      if retryCount > 0 {
        if !seekOk {
          Fail();
          return false, data;
        }
        filePos := segmentOffset + packet * PACKET;
      }
      if !readOk || filePos + len > |file| {
        Fail();
        return false, data;
      }
      data := file[filePos..filePos + len];
      SliceOfPrefix(file, FileSize(file), filePos, filePos + len);
      filePos := filePos + len;
      ok := true;
    }

    /** Send the packet and wait for its acknowledgement: move on, or count one more failure. */
    method Exchange(data: seq<byte>, reply: Reply)
      requires Opened(log) && SendsSound(Image(), log) && Earned(Image(), TransferData, segment, packet, log)
      requires state == TransferData && segment < totalSegments == SegmentCount(FileSize(file)) && fileOpen
      requires 0 < FileSize(file) <= LIMIT && retryCount < MAX_RETRIES
      requires packet < totalPackets == PacketCount(SegmentSize(FileSize(file), segment))
      requires segmentOffset == SegmentStart(segment)
      requires filePos == PacketStart(FileSize(file), segment, packet + 1)
      requires Packet(segment, packet, totalPackets, data) == PacketAt(Image(), segment, packet)
      requires SentUpTo(Image(), log, segment, packet, retryCount)
      modifies `log, `packet, `retryCount, `state
      ensures Valid() && state in {TransferData, Failed}
      ensures Exchanged(Image(), segment, old(packet), old(retryCount), reply, old(log), log, packet, retryCount, state)
    {
      hide Progress, Milestones, SentUpTo, SendsSound, Opened;
      var p := Packet(segment, packet, totalPackets, data);
      SegmentCountExact(FileSize(file));
      LogSent(Image(), log, segment, packet, retryCount);
      log := log + [Sent(p)];
      if reply == Ack(OK) {
        Acknowledge(p);
      } else {
        CountFailure();
      }
    }

    /** A try went unanswered, unread or refused: retry, or give up and abort the transfer. */
    method CountFailure()
      requires Opened(log) && SendsSound(Image(), log) && Earned(Image(), TransferData, segment, packet, log)
      requires state == TransferData && segment < totalSegments == SegmentCount(FileSize(file)) && fileOpen
      requires retryCount < MAX_RETRIES
      requires packet < totalPackets == PacketCount(SegmentSize(FileSize(file), segment))
      requires segmentOffset == SegmentStart(segment)
      requires SentUpTo(Image(), log, segment, packet, retryCount + 1)
      modifies `log, `retryCount, `state
      ensures Valid() && retryCount == old(retryCount) + 1
      ensures if retryCount < MAX_RETRIES then state == TransferData && log == old(log)
              else state == Failed && log == old(log) + [AbortSent]
    {
      hide Progress, Milestones, SentUpTo, SendsSound, Opened;
      retryCount := retryCount + 1;
      if retryCount >= MAX_RETRIES {
        LogOther(Image(), log, AbortSent);
        log := log + [AbortSent];
        state := Failed;
      }
    }

    /** A packet was received correctly. */
    method Acknowledge(p: Packet)
      requires Opened(log) && SendsSound(Image(), log) && Earned(Image(), TransferData, segment, packet, log)
      requires state == TransferData && segment < totalSegments == SegmentCount(FileSize(file)) && fileOpen
      requires 0 < FileSize(file) <= LIMIT
      requires packet < totalPackets == PacketCount(SegmentSize(FileSize(file), segment))
      requires segmentOffset == SegmentStart(segment)
      requires filePos == PacketStart(FileSize(file), segment, packet + 1)
      requires p == PacketAt(Image(), segment, packet)
      requires SentUpTo(Image(), log, segment, packet, retryCount + 1)
      modifies `log, `packet, `retryCount
      ensures Valid() && packet == old(packet) + 1 && retryCount == 0 && log == old(log) + [Acked(p)]
    {
      hide Progress, Milestones, SendsSound, Opened;
      LogOther(Image(), log, Acked(p));
      ProgressSnoc(Image(), segment, packet);
      AcksSnoc(Progress(Image(), segment, packet), p);
      log := log + [Acked(p)];
      packet, retryCount := packet + 1, 0;
    }
  }

  lemma CarriedData(image: seq<byte>)
    ensures DataOf(Transfer(image)) == if |image| <= LIMIT then image else []
  {
    hide AllPackets;
    if |image| <= LIMIT {
      AllPacketsCarryFile(image);
    }
  }

  lemma NoProgressYet(image: seq<byte>)
    requires |image| < 0x1_0000_0000
    ensures Progress(image, 0, 0) == []
    ensures [Ready] + Acks(Progress(image, 0, 0)) == [] + [Ready]
  {
  }

  lemma LogClosed(image: seq<byte>, log: seq<Event>)
    requires |image| < 0x1_0000_0000 && SendsSound(image, log)
    ensures SendsSound(image, log + [Notified(Post)])
    ensures Milestones(log + [Notified(Post)]) == Milestones(log)
  {
    MilestonesSnoc(log, Notified(Post));
    TriesSnoc(log, Notified(Post));
  }

  lemma EmptyLog(image: seq<byte>, s: nat, i: nat)
    requires |image| < 0x1_0000_0000
    ensures var log := [Notified(Pre)];
            SendsSound(image, log) && Earned(image, ParsingMetadata, s, i, log) && SentBefore(log, 0, 0)
  {
    MilestonesSnoc([], Notified(Pre));
    TriesSnoc([], Notified(Pre));
    assert [] + [Notified(Pre)] == [Notified(Pre)];
  }

  lemma ProgressAtEnd(image: seq<byte>)
    requires |image| < 0x1_0000_0000
    ensures Progress(image, SegmentCount(|image|), 0) == Transfer(image)
  {
  }

  /** A finished segment leaves nothing of the next one sent. */
  lemma NextSegmentUnsent(image: seq<byte>, log: seq<Event>, s: nat, n: nat)
    requires SentUpTo(image, log, s, PacketCount(SegmentSize(|image|, s)), n)
    ensures n == 0 && SentUpTo(image, log, s + 1, 0, 0)
  {
  }

  // ---------------------------------------------------------------- what a run has achieved

  /** The data of the packets acknowledged, in the order of the acknowledgements. */
  function AckedData(log: seq<Event>): seq<byte> {
    if log == [] then []
    else
      var e, before := log[|log| - 1], AckedData(log[..|log| - 1]);
      if e.Acked? then before + e.packet.data else before
  }

  lemma AckedDataSnoc(log: seq<Event>, e: Event)
    ensures AckedData(log + [e]) == AckedData(log) + if e.Acked? then e.packet.data else []
  {
    assert (log + [e])[..|log|] == log;
  }

  lemma {:induction false} AckedDataOfMilestones(log: seq<Event>)
    ensures AckedData(log) == AckedData(Milestones(log))
    decreases |log|
  {
    if log != [] {
      var n := |log| - 1;
      AckedDataOfMilestones(log[..n]);
      AckedDataSnoc(Milestones(log[..n]), log[n]);
    }
  }

  lemma {:induction false} AckedDataOfPackets(packets: seq<Packet>)
    ensures AckedData([Ready] + Acks(packets)) == DataOf(packets)
    decreases |packets|
  {
    if packets == [] {
      AckedDataSnoc([], Ready);
      assert [Ready] + Acks(packets) == [] + [Ready];
    } else {
      var n := |packets| - 1;
      assert packets == packets[..n] + [packets[n]];
      AckedDataOfPackets(packets[..n]);
      AcksSnoc(packets[..n], packets[n]);
      AckedDataSnoc([Ready] + Acks(packets[..n]), Acked(packets[n]));
    }
  }

  /** Past the data phase, the acknowledged data is that of the whole transfer. */
  lemma AckedDataOfTransfer(image: seq<byte>, s: State, seg: nat, pk: nat, log: seq<Event>)
    requires |image| < 0x1_0000_0000 && Earned(image, s, seg, pk, log)
    requires s in {TransferEnd, ReconfigStart, ReconfigPolling, Completed}
    ensures AckedData(log) == DataOf(Transfer(image))
  {
    hide Milestones, Transfer, DataOf;
    var start := [Ready] + Acks(Transfer(image));
    AckedDataOfMilestones(log);
    AckedDataOfPackets(Transfer(image));
    AckedDataSnoc(start, EndAccepted);
    AckedDataSnoc(start + [EndAccepted], Reconfigured);
    assert start + [EndAccepted] + [Reconfigured] == start + [EndAccepted, Reconfigured];
  }

  /**
    Whatever the line did, a run that has come past its data phase has had the file acknowledged,
    byte for byte and in order, exactly when the file has at most 2^32 - 2^20 bytes. Above that
    the segment count or the file size wraps and what was acknowledged is not the file.
   */
  lemma TransferRebuildsFile(file: seq<byte>, s: State, seg: nat, pk: nat, log: seq<Event>)
    requires Earned(file[..FileSize(file)], s, seg, pk, log)
    requires s in {TransferEnd, ReconfigStart, ReconfigPolling, Completed}
    ensures AckedData(log) == file <==> |file| <= LIMIT
  {
    hide Earned, AckedData, Transfer, DataOf;
    var image := file[..FileSize(file)];
    AckedDataOfTransfer(image, s, seg, pk, log);
    TransferredData(file);
  }

  /** What a complete transfer carries. */
  lemma TransferredData(file: seq<byte>)
    ensures DataOf(Transfer(file[..FileSize(file)])) == file <==> |file| <= LIMIT
  {
    hide AllPackets;
    var image := file[..FileSize(file)];
    CarriedData(image);
    assert |file| <= LIMIT ==> image == file;
  }

  /**
    A receiver that stores packets by segment number and index, and has stored at least those it
    acknowledged out of all that were sent, holds the file once the data phase is over.
   */
  lemma ReceiverHoldsFile(file: seq<byte>, s: State, seg: nat, pk: nat, log: seq<Event>, stored: seq<Packet>)
    requires |file| <= LIMIT && Earned(file, s, seg, pk, log) && SendsSound(file, log)
    requires s in {TransferEnd, ReconfigStart, ReconfigPolling, Completed}
    requires forall p :: p in stored ==> Sent(p) in log
    requires forall p :: Acked(p) in log ==> p in stored
    ensures StoreAll(stored) == map k | 0 <= k < |file| :: file[k]
  {
    hide StoreAll, AllPackets;
    assert Transfer(file) == AllPackets(file);
    forall p | p in AllPackets(file)
      ensures p in stored
    {
      var packets := AllPackets(file);
      var i :| 0 <= i < |packets| && packets[i] == p;
      assert Acks(packets)[i] == Acked(p);
      assert ([Ready] + Acks(packets))[i + 1] == Acked(p);
      assert Acked(p) in Milestones(log);
      MilestoneLogged(log, Acked(p));
    }
    ReceiverRecoversFile(file, stored);
  }

  lemma {:induction false} MilestoneLogged(log: seq<Event>, e: Event)
    requires e in Milestones(log)
    ensures e in log
    decreases |log|
  {
    var n := |log| - 1;
    if log[n] != e {
      MilestoneLogged(log[..n], e);
    }
  }

  // ---------------------------------------------------------------- good runs complete

  lemma RunGrows(image: seq<byte>, trace: seq<Snapshot>, turns: seq<Turn>, b: Snapshot)
    requires |image| < 0x1_0000_0000 && IsRun(image, trace, turns) && |trace| <= |turns|
    requires !turns[|trace| - 1].abort && !Finished(trace[|trace| - 1].state)
    requires StateTurn(image, trace[|trace| - 1], turns[|trace| - 1], b)
    ensures IsRun(image, trace + [b], turns)
  {
    hide StateTurn;
    var t := trace + [b];
    forall k | 0 <= k < |t| - 1
      ensures !turns[k].abort && !Finished(t[k].state) && StateTurn(image, t[k], turns[k], t[k + 1])
    {
      assert t[k] == trace[k] && (k < |trace| - 1 ==> t[k + 1] == trace[k + 1]);
    }
  }

  /** Where a run can stand. */
  predicate Placed(n: u32, a: Snapshot) {
    && a.state != Idle
    && (a.state == TransferStart ==> a.totalSegments == SegmentCount(n))
    && (a.state == TransferData ==>
          && a.totalSegments == SegmentCount(n) && a.segment <= a.totalSegments && a.retryCount < 3
          && (if a.segment == a.totalSegments then a.packet == a.retryCount == 0
              else a.packet < PacketCount(SegmentSize(n, a.segment))
                   || (a.packet == PacketCount(SegmentSize(n, a.segment)) && a.retryCount == 0)))
  }

  /** Turns that are enough from here. */
  function Left(n: u32, a: Snapshot): int {
    match a.state
    case ParsingMetadata => 2 + MaxTurns(n, 0, 0) + 3
    case TransferStart => 1 + MaxTurns(n, 0, 0) + 3
    case TransferData => MaxTurns(n, a.segment, a.packet) - a.retryCount + 3
    case TransferEnd => 3
    case ReconfigStart => 2
    case ReconfigPolling => 1
    case _ => 0
  }

  lemma {:induction false} MaxTurnsPositive(n: u32, s: nat, i: nat)
    requires s < SegmentCount(n) ==> i <= PacketCount(SegmentSize(n, s))
    ensures MaxTurns(n, s, i) >= 1
    decreases if s < SegmentCount(n) then SegmentCount(n) - s else 0
  {
    hide PacketCount, SegmentSize;
    if s < SegmentCount(n) {
      MaxTurnsPositive(n, s + 1, 0);
    }
  }

  lemma LeftPositive(n: u32, a: Snapshot)
    requires Placed(n, a) && !Finished(a.state)
    ensures Left(n, a) >= 1
  {
    hide PacketCount, SegmentSize;
    if a.state == TransferData {
      MaxTurnsPositive(n, a.segment, a.packet);
      if a.segment < a.totalSegments {
        MaxTurnsPositive(n, a.segment + 1, 0);
      }
    }
    MaxTurnsPositive(n, 0, 0);
  }

  /** A good turn brings the end nearer, unless it is the third failure of a packet. */
  lemma GoodTurn(image: seq<byte>, a: Snapshot, t: Turn, b: Snapshot)
    requires |image| < 0x1_0000_0000 && StateTurn(image, a, t, b) && Good(t)
    requires Placed(|image|, a) && !Finished(a.state)
    requires a.state == TransferData && a.retryCount == 2 ==> t.attempt.reply == Ack(OK)
    ensures Placed(|image|, b) && b.state != Failed && Left(|image|, b) < Left(|image|, a)
    ensures b.state == TransferData && b.retryCount > 0 ==>
              a.state == TransferData && b.retryCount == a.retryCount + 1 && t.attempt.reply != Ack(OK)
  {
    hide PacketCount, SegmentSize, SegmentCount, PacketStart, PacketAt, Crc, Value, Announcements, Milestones;
    var k: nat :| Readied(t.polls, k);
    assert ReadyAt(t.polls, k);
    ReadyOrWaiting(t.polls);
  }

  /** The last answers before a position that is being tried again were no acknowledgements. */
  predicate FailedBefore(turns: seq<Turn>, k: nat, a: Snapshot)
    requires k <= |turns|
  {
    a.state == TransferData ==>
      a.retryCount <= k && forall j :: k - a.retryCount <= j < k ==> turns[j].attempt.reply != Ack(OK)
  }

  lemma {:induction false} GoodRunGoes(image: seq<byte>, trace: seq<Snapshot>, turns: seq<Turn>, k: nat)
    requires |image| < 0x1_0000_0000 && IsRun(image, trace, turns) && GoodTurns(turns) && k < |trace|
    ensures Placed(|image|, trace[k]) && trace[k].state != Failed
    ensures Left(|image|, trace[k]) + k <= TurnsNeeded(|image|) && FailedBefore(turns, k, trace[k])
  {
    hide StateTurn, Left, Placed, Good;
    if k == 0 {
      assert Placed(|image|, trace[0]) && Left(|image|, trace[0]) == TurnsNeeded(|image|) by {
        StartsPlaced(|image|, trace[0]);
      }
    } else {
      GoodRunGoes(image, trace, turns, k - 1);
      var a, t, b := trace[k - 1], turns[k - 1], trace[k];
      if a.state == TransferData && a.retryCount == 2 {
        assert turns[k - 3].attempt.reply != Ack(OK) && turns[k - 2].attempt.reply != Ack(OK);
        assert Ack(OK) in [turns[k - 3].attempt.reply, turns[k - 3 + 1].attempt.reply, turns[k - 3 + 2].attempt.reply];
      }
      GoodTurn(image, a, t, b);
    }
  }

  lemma StartsPlaced(n: u32, a: Snapshot)
    requires a.state == ParsingMetadata
    ensures Placed(n, a) && Left(n, a) == TurnsNeeded(n)
  {
  }

  /** A run of enough good turns finishes, and not by failing. */
  lemma GoodRunCompletes(image: seq<byte>, trace: seq<Snapshot>, turns: seq<Turn>)
    requires |image| < 0x1_0000_0000 && IsRun(image, trace, turns) && GoodTurns(turns)
    requires |turns| > TurnsNeeded(|image|)
    ensures var taken := |trace| - 1;
            && taken < |turns| && !turns[taken].abort
            && (Finished(trace[taken].state) ==> trace[taken].state == Completed)
            && (!Finished(trace[taken].state) ==> taken < TurnsNeeded(|image|))
  {
    hide StateTurn, Left, Placed, TurnsNeeded;
    var taken := |trace| - 1;
    GoodRunGoes(image, trace, turns, taken);
    if !Finished(trace[taken].state) {
      LeftPositive(|image|, trace[taken]);
    }
    assert Left(|image|, trace[taken]) >= 0 by { LeftNotNegative(|image|, trace[taken]); }
    assert Good(turns[taken]);
  }

  lemma LeftNotNegative(n: u32, a: Snapshot)
    requires Placed(n, a)
    ensures Left(n, a) >= 0
  {
    if !Finished(a.state) {
      LeftPositive(n, a);
    }
  }

  /** A completed run has had every packet acknowledged, the end accepted and the reconfiguration confirmed. */
  lemma CompletedLog(image: seq<byte>, seg: nat, pk: nat, log: seq<Event>)
    requires |image| < 0x1_0000_0000 && Earned(image, Completed, seg, pk, log)
    ensures EndAccepted in log && Reconfigured in log && AckedData(log) == DataOf(Transfer(image))
  {
    hide AckedData, Milestones, DataOf, Transfer;
    AckedDataOfTransfer(image, Completed, seg, pk, log);
    var m := Milestones(log);
    MilestonesAreEvents(log);
    assert m[|m| - 1] == Reconfigured && m[|m| - 2] == EndAccepted;
  }

  lemma {:induction false} MilestonesAreEvents(log: seq<Event>)
    ensures forall e :: e in Milestones(log) ==> e in log
  {
    if log != [] {
      MilestonesAreEvents(log[..|log| - 1]);
    }
  }

  // ---------------------------------------------------------------- what any run was told

  /** A turn of any kind leaves a run failed or well placed; a failed try counts one more. */
  lemma AnyTurn(image: seq<byte>, a: Snapshot, t: Turn, b: Snapshot)
    requires |image| < 0x1_0000_0000 && StateTurn(image, a, t, b) && Placed(|image|, a) && !Finished(a.state)
    ensures b.state == Failed || Placed(|image|, b)
    ensures b.state == TransferData && b.retryCount > 0 ==>
              a.state == TransferData && b.retryCount == a.retryCount + 1 && t.attempt.reply != Ack(OK)
  {
    hide PacketCount, SegmentSize, SegmentCount, PacketStart, PacketAt, Crc, Value, Announcements, Milestones;
  }

  lemma {:induction false} RunPlaced(image: seq<byte>, trace: seq<Snapshot>, turns: seq<Turn>, k: nat)
    requires |image| < 0x1_0000_0000 && IsRun(image, trace, turns) && k < |trace|
    ensures trace[k].state == Failed || (Placed(|image|, trace[k]) && FailedBefore(turns, k, trace[k]))
  {
    hide StateTurn, Placed;
    if k == 0 {
      StartsPlaced(|image|, trace[0]);
    } else {
      RunPlaced(image, trace, turns, k - 1);
      AnyTurn(image, trace[k - 1], turns[k - 1], trace[k]);
    }
  }

  /**
    A transfer is given up only when the file cannot be read, or after three tries of one packet in
    three turns running, none of which was acknowledged; and then the receiver is told.
   */
  lemma GivesUp(image: seq<byte>, trace: seq<Snapshot>, turns: seq<Turn>, k: nat)
    requires |image| < 0x1_0000_0000 && IsRun(image, trace, turns) && k < |trace| - 1
    requires trace[k].state == TransferData && trace[k + 1].state == Failed
    requires turns[k].attempt.segmentSeek && turns[k].attempt.retrySeek && turns[k].attempt.read
    ensures k >= 2 && forall j :: k - 2 <= j <= k ==> turns[j].attempt.reply != Ack(OK)
    ensures var log := trace[k + 1].log; |log| >= 2 && log[|log| - 1] == AbortSent && log[|log| - 2].Sent?
  {
    hide PacketCount, SegmentSize, SegmentCount, PacketStart, PacketAt, Crc, Value, Announcements, Milestones;
    RunPlaced(image, trace, turns, k);
    assert StateTurn(image, trace[k], turns[k], trace[k + 1]);
  }

  /** A packet that cannot be read, or a place in the file that cannot be reached, fails the run; nothing is sent. */
  lemma UnreadableFails(image: seq<byte>, a: Snapshot, t: Turn, b: Snapshot)
    requires |image| < 0x1_0000_0000 && StateTurn(image, a, t, b) && Placed(|image|, a)
    requires a.state == TransferData && a.segment < a.totalSegments
    requires a.packet < PacketCount(SegmentSize(|image|, a.segment))
    requires || !t.attempt.read || (a.packet == 0 && !t.attempt.segmentSeek)
             || (a.retryCount > 0 && !t.attempt.retrySeek)
    ensures b.state == Failed && b.log == a.log
  {
    hide PacketStart, PacketAt, Crc, Value, Announcements, Milestones;
  }

  predicate StillPreparing(polls: seq<StartPoll>) {
    forall k :: 0 <= k < |polls| ==> polls[k] == StartPoll(false, false, Ack(0x11))
  }

  /** What the answers in front of and behind the data phase lead to, by their codes on the wire. */
  lemma AnswersByCode(image: seq<byte>, a: Snapshot, t: Turn, b: Snapshot)
    requires |image| < 0x1_0000_0000 && StateTurn(image, a, t, b)
    ensures a.state == TransferStart && (exists k: nat :: Readied(t.polls, k)) ==>
              Ready in b.log && b.state == if t.reopenOk && !t.abortInErase then TransferData else Failed
    ensures a.state == TransferStart && StillPreparing(t.polls) ==> b.state == TransferStart
    ensures a.state == TransferEnd && t.end.Ack? ==>
              if t.end.result == 0x00 then b.state == ReconfigStart && b.log == a.log + [EndAccepted]
              else b.state == Failed && b.log == a.log + [AbortSent]
    ensures a.state == TransferEnd && !t.end.Ack? ==> b.state == Failed && b.log == a.log
    ensures a.state == ReconfigPolling && !t.pollTimeout && t.poll.Ack? ==>
              if t.poll.result == 0x00 then b.state == Completed && b.log == a.log + [Reconfigured]
              else b.state == (if t.poll.result == 0x11 then ReconfigPolling else Failed) && b.log == a.log
    ensures a.state == ReconfigPolling && !t.pollTimeout && !t.poll.Ack? ==> b.state == ReconfigPolling
    ensures a.state == ReconfigPolling && t.pollTimeout ==> b.state == Failed
  {
    hide Crc, Value, Announcements, Milestones, DataTurn;
    if k: nat :| a.state == TransferStart && Readied(t.polls, k) {
      assert ReadyAt(t.polls, k);
      ReadyOrWaiting(t.polls);
    }
  }

  /** What a turn in a state must have brought for the state to be left other than by failing. */
  ghost predicate Answered(s: State, t: Turn) {
    match s
    case ParsingMetadata => t.metadataOk && t.hashOk && t.openOk && t.mallocOk && t.readAllOk
    case TransferStart => (exists k: nat :: ReadyAt(t.polls, k)) && t.reopenOk && !t.abortInErase
    case TransferEnd => t.end == Ack(OK)
    case ReconfigStart => t.sendOk
    case ReconfigPolling => !t.pollTimeout && t.poll == Ack(OK)
    case _ => true
  }

  lemma TurnAnswered(image: seq<byte>, a: Snapshot, t: Turn, b: Snapshot)
    requires |image| < 0x1_0000_0000 && StateTurn(image, a, t, b) && !Finished(a.state) && b.state != Failed
    ensures a.state == b.state || (Rank(b.state) == Rank(a.state) + 1 && Answered(a.state, t))
  {
    hide PacketCount, SegmentSize, SegmentCount, PacketStart, PacketAt, Crc, Value, Announcements, Milestones;
  }

  /** Every state a run has behind it was left on a turn that brought the answer for it. */
  lemma {:induction false} RunAnswered(image: seq<byte>, trace: seq<Snapshot>, turns: seq<Turn>, k: nat, s: State)
    requires |image| < 0x1_0000_0000 && IsRun(image, trace, turns) && k < |trace|
    requires s != Idle && trace[k].state != Failed && Rank(s) < Rank(trace[k].state)
    ensures exists j :: 0 <= j < k && trace[j].state == s && Answered(s, turns[j])
  {
    hide StateTurn, Answered;
    if k > 0 {
      TurnAnswered(image, trace[k - 1], turns[k - 1], trace[k]);
      if trace[k - 1].state != s {
        RunAnswered(image, trace, turns, k - 1, s);
      }
    }
  }

  /** A packet is acknowledged only on a turn that sent it and brought the answer. */
  lemma TurnAcks(image: seq<byte>, a: Snapshot, t: Turn, b: Snapshot, p: Packet)
    requires |image| < 0x1_0000_0000 && StateTurn(image, a, t, b) && !Finished(a.state)
    requires Acked(p) in b.log && Acked(p) !in a.log
    ensures a.state == TransferData && t.attempt.reply == Ack(OK) && b.log == a.log + [Sent(p), Acked(p)]
  {
    hide PacketCount, SegmentSize, SegmentCount, PacketStart, PacketAt, Crc, Value, Milestones;
    if a.state == TransferStart {
      StartAcksNothing(|image|, a, t, b, p);
    }
  }

  lemma StartAcksNothing(n: u32, a: Snapshot, t: Turn, b: Snapshot, p: Packet)
    requires StartTurn(n, a, t, b) && Acked(p) !in a.log
    ensures Acked(p) !in b.log
  {
    hide Announced, Announcements, Milestones;
    AckIsMilestone(b.log, p);
    forall k: nat ensures Acked(p) !in Announcements(Announced(n), a.checksum, k) {
      AnnouncementsOnly(Announced(n), a.checksum, k);
    }
  }

  lemma {:induction false} AckIsMilestone(log: seq<Event>, p: Packet)
    ensures Acked(p) in log ==> Acked(p) in Milestones(log)
  {
    if log != [] {
      AckIsMilestone(log[..|log| - 1], p);
    }
  }

  lemma {:induction false} AnnouncementsOnly(params: StartParams, crc: nat, n: nat)
    ensures forall e :: e in Announcements(params, crc, n) ==> e.StartSent?
  {
    if n > 0 {
      AnnouncementsOnly(params, crc, n - 1);
    }
  }

  lemma {:induction false} AckedByAnswer(image: seq<byte>, trace: seq<Snapshot>, turns: seq<Turn>, k: nat, p: Packet)
    requires |image| < 0x1_0000_0000 && IsRun(image, trace, turns) && k < |trace| && Acked(p) in trace[k].log
    ensures exists j :: 0 <= j < k && trace[j].state == TransferData && turns[j].attempt.reply == Ack(OK)
                        && trace[j + 1].log == trace[j].log + [Sent(p), Acked(p)]
  {
    hide StateTurn;
    if k > 0 {
      if Acked(p) in trace[k - 1].log {
        AckedByAnswer(image, trace, turns, k - 1, p);
      } else {
        TurnAcks(image, trace[k - 1], turns[k - 1], trace[k], p);
      }
    }
  }
}
