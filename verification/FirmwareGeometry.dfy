/**
  How the injector cuts a firmware file: segments of 2^20 bytes, packets of 1000 bytes, all in
  uint32_t arithmetic (fpga_firmware_injector.c), and what a receiver makes of the packets.
 */
module FirmwareGeometry {
  import opened Bytes
  import opened Rs422Protocol

  /** FPGA_SEGMENT_SIZE */
  const SEGMENT: nat := 0x10_0000
  /** FPGA_PACKET_SIZE */
  const PACKET: nat := 1000
  /** The largest file size for which the segment count does not wrap. */
  const LIMIT: nat := 0xFFF0_0000

  /** metadata.file_size: st_size cast to uint32_t. */
  function FileSize(file: seq<byte>): u32 {
    |file| % 0x1_0000_0000
  }

  /** (file_size + FPGA_SEGMENT_SIZE - 1) / FPGA_SEGMENT_SIZE */
  function SegmentCount(n: u32): nat {
    (n + SEGMENT - 1) % 0x1_0000_0000 / SEGMENT
  }

  /** The wrap loses every segment of a file above the limit; below it the count is exact. */
  lemma SegmentCountExact(n: u32)
    ensures if n == 0 then SegmentCount(n) == 0
            else if n <= LIMIT then (SegmentCount(n) - 1) * SEGMENT < n <= SegmentCount(n) * SEGMENT
            else SegmentCount(n) == 0
    ensures SegmentCount(n) <= 0xFFF
  {
  }

  function SegmentStart(s: nat): nat {
    s * SEGMENT
  }

  /** The bytes of segment `s` of a file of n bytes. */
  function SegmentSize(n: nat, s: nat): nat {
    if n <= SegmentStart(s) then 0 else Min(SEGMENT, n - SegmentStart(s))
  }

  function PacketCount(size: nat): nat {
    (size + PACKET - 1) / PACKET
  }

  /** Where the data of packet `i` of segment `s` starts and ends. */
  function PacketStart(n: nat, s: nat, i: nat): nat {
    SegmentStart(s) + Min(i * PACKET, SegmentSize(n, s))
  }

  /** A packet starts at its index; it is full unless it is the last and the segment ends within it. */
  lemma PacketSpan(n: nat, s: nat, i: nat)
    requires 0 < n <= LIMIT && s < SegmentCount(n) && i < PacketCount(SegmentSize(n, s))
    ensures PacketStart(n, s, i) == SegmentStart(s) + i * PACKET
    ensures var left := SegmentSize(n, s) - i * PACKET;
            && 0 < left && PacketStart(n, s, i + 1) <= n
            && PacketStart(n, s, i + 1) - PacketStart(n, s, i)
               == if i == PacketCount(SegmentSize(n, s)) - 1 && left < PACKET then left else PACKET
  {
    SegmentCountExact(n);
  }

  datatype Packet = Packet(segment: nat, index: nat, total: nat, data: seq<byte>)

  /** The packet of a file at a position. */
  function PacketAt(file: seq<byte>, s: nat, i: nat): Packet
    requires PacketStart(|file|, s, i + 1) <= |file|
  {
    Packet(s, i, PacketCount(SegmentSize(|file|, s)),
           file[PacketStart(|file|, s, i)..PacketStart(|file|, s, i + 1)])
  }

  /** All packets in front of position (s, i), in sending order. */
  function PacketsUpTo(file: seq<byte>, s: nat, i: nat): seq<Packet>
    requires PacketStart(|file|, s, i) <= |file|
    decreases s, i
  {
    if i > 0 then PacketsUpTo(file, s, i - 1) + [PacketAt(file, s, i - 1)]
    else if s > 0 then PacketsUpTo(file, s - 1, PacketCount(SegmentSize(|file|, s - 1)))
    else []
  }

  function AllPackets(file: seq<byte>): seq<Packet>
    requires |file| <= LIMIT
  {
    if file == [] then []
    else
      var last := SegmentCount(|file|) - 1;
      PacketsUpTo(file, last, PacketCount(SegmentSize(|file|, last)))
  }

  function DataOf(packets: seq<Packet>): seq<byte> {
    if packets == [] then [] else DataOf(packets[..|packets| - 1]) + packets[|packets| - 1].data
  }

  lemma DataOfSnoc(packets: seq<Packet>, p: Packet)
    ensures DataOf(packets + [p]) == DataOf(packets) + p.data
  {
    assert (packets + [p])[..|packets|] == packets;
  }

  lemma JoinSlices(file: seq<byte>, a: nat, b: nat)
    requires a <= b <= |file|
    ensures file[..a] + file[a..b] == file[..b]
  {
  }

  /** The packets in front of a position carry exactly the bytes in front of it. */
  lemma {:induction false} PacketsCarryPrefix(file: seq<byte>, s: nat, i: nat)
    requires PacketStart(|file|, s, i) <= |file|
    ensures DataOf(PacketsUpTo(file, s, i)) == file[..PacketStart(|file|, s, i)]
    decreases s, i
  {
    hide PacketStart, PacketCount, SegmentSize, DataOf;
    var n := |file|;
    if i > 0 {
      PacketOrder(n, s, i - 1);
      PacketsCarryPrefix(file, s, i - 1);
      DataOfSnoc(PacketsUpTo(file, s, i - 1), PacketAt(file, s, i - 1));
      JoinSlices(file, PacketStart(n, s, i - 1), PacketStart(n, s, i));
    } else if s > 0 {
      SegmentsMeet(n, s);
      PacketsCarryPrefix(file, s - 1, PacketCount(SegmentSize(n, s - 1)));
    } else {
      NoPackets(n);
    }
  }

  lemma NoPackets(n: nat)
    ensures DataOf([]) == [] && PacketStart(n, 0, 0) == 0
  {
  }

  lemma PacketOrder(n: nat, s: nat, i: nat)
    ensures PacketStart(n, s, i) <= PacketStart(n, s, i + 1)
  {
  }

  /** Segments have 2^20 bytes and packets 1000, but for the last segment and the last packet of a segment. */
  lemma PacketLengths(file: seq<byte>, s: nat, i: nat)
    requires s * 1048576 + i * 1000 < |file| && i * 1000 < 1048576
    ensures PacketStart(|file|, s, i + 1) <= |file|
    ensures var p := PacketAt(file, s, i);
            var left := Min(|file| - s * 1048576, 1048576) - i * 1000;
            && p.data == file[s * 1048576 + i * 1000..s * 1048576 + i * 1000 + Min(left, 1000)]
            && (p.total - 1) * 1000 < left + i * 1000 <= p.total * 1000
  {
  }

  /** The last packet of a segment ends where the next segment starts. */
  lemma SegmentsMeet(n: nat, s: nat)
    requires 0 < s && PacketStart(n, s, 0) <= n
    ensures PacketStart(n, s - 1, PacketCount(SegmentSize(n, s - 1))) == PacketStart(n, s, 0)
  {
    assert SegmentSize(n, s - 1) == SEGMENT;
  }

  /** All packets together carry the file. */
  lemma AllPacketsCarryFile(file: seq<byte>)
    requires |file| <= LIMIT
    ensures DataOf(AllPackets(file)) == file
  {
    if file != [] {
      var last := SegmentCount(|file|) - 1;
      SegmentCountExact(|file|);
      var size := SegmentSize(|file|, last);
      PacketsCarryPrefix(file, last, PacketCount(size));
      assert PacketStart(|file|, last, PacketCount(size)) == |file|;
      assert file[..|file|] == file;
    }
  }

  // ---------------------------------------------------------------- the announced geometry

  /** The length fields of the transfer-start command. */
  datatype StartParams = StartParams(segmentInfo: u16, fileLength: u32, lastSegmentLen: u32)

  function Announced(n: u32): StartParams {
    var count := SegmentCount(n);
    StartParams(
      if count > 1 then 0xC000 + count else 0,
      if count == 1 then n else SEGMENT,
      if count == 1 then n else if n % SEGMENT == 0 then SEGMENT else n % SEGMENT)
  }

  /** The total a receiver computes from those fields. */
  function AnnouncedTotal(p: StartParams): int {
    if p.segmentInfo / 0x4000 == 0 then p.fileLength
    else (p.segmentInfo % 0x4000 - 1) * p.fileLength + p.lastSegmentLen
  }

  /**
    The announced geometry adds up to the file size exactly for files of 1 to 2^32 - 2^20 bytes;
    then the last segment has 1 to 2^20 bytes and the count fits its fourteen bits.
   */
  lemma AnnouncedGeometry(n: u32)
    ensures AnnouncedTotal(Announced(n)) == n <==> 1 <= n <= LIMIT
    ensures 1 <= n <= LIMIT ==>
              && 1 <= Announced(n).lastSegmentLen <= SEGMENT
              && Announced(n).segmentInfo % 0x4000 == (if SegmentCount(n) == 1 then 0 else SegmentCount(n))
              && Announced(n).lastSegmentLen == SegmentSize(n, SegmentCount(n) - 1)
    // one segment: no flags and the file's own length; several: two ones, the count, and 2^20 bytes each
    ensures 1 <= n <= 1048576 ==> Announced(n) == StartParams(0, n, n)
    ensures 1048576 < n <= LIMIT ==>
              && Announced(n).segmentInfo / 0x4000 == 3 && Announced(n).fileLength == 1048576
              && (Announced(n).segmentInfo % 0x4000 - 1) * 1048576 < n <= Announced(n).segmentInfo % 0x4000 * 1048576
  {
    SegmentCountExact(n);
    if SegmentCount(n) > 1 {
      SeveralSegments(n);
    }
  }

  lemma SeveralSegments(n: u32)
    requires SegmentCount(n) > 1
    ensures var p := Announced(n);
            && AnnouncedTotal(p) == n <= LIMIT
            && 1 <= p.lastSegmentLen <= SEGMENT
            && p.segmentInfo % 0x4000 == SegmentCount(n)
            && p.lastSegmentLen == SegmentSize(n, SegmentCount(n) - 1)
  {
    SegmentCountExact(n);
    var count, p := SegmentCount(n), Announced(n);
    assert p.segmentInfo / 0x4000 == 3 && p.segmentInfo % 0x4000 == count;
    assert p.fileLength == SEGMENT;
    assert n == n / SEGMENT * SEGMENT + n % SEGMENT;
    assert (count - 1) * SEGMENT + p.lastSegmentLen == n;
    assert (p.segmentInfo % 0x4000 - 1) * p.fileLength == (count - 1) * SEGMENT;
  }

  /** In each segment the first and last packet, or the only one, are flagged as such and no other. */
  lemma GroupFlags(file: seq<byte>, s: nat, i: nat)
    requires SegmentStart(s) < |file| && i < PacketCount(SegmentSize(|file|, s))
    ensures var total := PacketCount(SegmentSize(|file|, s));
            var flag := GroupFlag(i, total);
            && i < 0x4000
            && (flag == 3 <==> total == 1)
            && (flag == 1 <==> total > 1 && i == 0)
            && (flag == 2 <==> total > 1 && i == total - 1)
  {
  }

  // ---------------------------------------------------------------- a receiver

  predicate InSpan(k: nat, at: nat, n: nat) {
    at <= k < at + n
  }

  /** Memory of a receiver that stores packet data at segment * 2^20 + index * 1000. */
  function Store(mem: map<nat, byte>, p: Packet): map<nat, byte> {
    var at := SegmentStart(p.segment) + p.index * PACKET;
    mem + map k | at <= k < at + |p.data| && InSpan(k, at, |p.data|) :: p.data[k - at]
  }

  function StoreAll(packets: seq<Packet>): map<nat, byte> {
    if packets == [] then map[]
    else Store(StoreAll(packets[..|packets| - 1]), packets[|packets| - 1])
  }

  /** The packet is one of the file's own. */
  ghost predicate Genuine(file: seq<byte>, p: Packet) {
    && SegmentStart(p.segment) < |file|
    && p.index < PacketCount(SegmentSize(|file|, p.segment))
    && p == PacketAt(file, p.segment, p.index)
  }

  /** The memory holds nothing but bytes of the file, each at its own place. */
  ghost predicate Agrees(mem: map<nat, byte>, file: seq<byte>) {
    forall k :: k in mem ==> k < |file| && mem[k] == file[k]
  }

  lemma {:induction false} StoreAgrees(file: seq<byte>, packets: seq<Packet>)
    requires forall p :: p in packets ==> Genuine(file, p)
    ensures Agrees(StoreAll(packets), file)
  {
    if packets != [] {
      var m := |packets| - 1;
      StoreAgrees(file, packets[..m]);
      StoreOneAgrees(file, StoreAll(packets[..m]), packets[m]);
    }
  }

  lemma StoreOneAgrees(file: seq<byte>, mem: map<nat, byte>, p: Packet)
    requires Agrees(mem, file) && Genuine(file, p)
    ensures Agrees(Store(mem, p), file)
  {
    var at := SegmentStart(p.segment) + p.index * PACKET;
    assert p.index * PACKET < SegmentSize(|file|, p.segment);
    assert p.data == file[at..at + |p.data|];
    forall k | k in Store(mem, p)
      ensures k < |file| && Store(mem, p)[k] == file[k]
    {
      if InSpan(k, at, |p.data|) {
        assert p.data[k - at] == file[k];
      }
    }
  }

  lemma {:induction false} StoreCovers(packets: seq<Packet>, p: Packet, k: nat)
    requires p in packets && InSpan(k, SegmentStart(p.segment) + p.index * PACKET, |p.data|)
    ensures k in StoreAll(packets)
  {
    var m := |packets| - 1;
    if packets[m] != p {
      assert p in packets[..m];
      StoreCovers(packets[..m], p, k);
    }
  }

  /** Every byte of the file belongs to one of its packets. */
  lemma PacketOfByte(file: seq<byte>, k: nat) returns (s: nat, i: nat)
    requires k < |file|
    ensures SegmentStart(s) < |file| && i < PacketCount(SegmentSize(|file|, s))
    ensures PacketStart(|file|, s, i) <= k < PacketStart(|file|, s, i + 1)
    ensures PacketStart(|file|, s, i) == SegmentStart(s) + i * PACKET
  {
    s := k / SEGMENT;
    i := k % SEGMENT / PACKET;
    assert k == SegmentStart(s) + k % SEGMENT;
    assert i * PACKET <= k % SEGMENT < (i + 1) * PACKET;
    assert k % SEGMENT < SegmentSize(|file|, s);
  }

  /** A position that has been passed is among the packets sent. */
  lemma {:induction false} PassedPacketSent(file: seq<byte>, s: nat, i: nat, s0: nat, i0: nat)
    requires PacketStart(|file|, s, i) <= |file|
    requires SegmentStart(s0) < |file| && i0 < PacketCount(SegmentSize(|file|, s0))
    requires s0 < s || (s0 == s && i0 < i)
    ensures PacketAt(file, s0, i0) in PacketsUpTo(file, s, i)
    decreases s, i
  {
    if i > 0 {
      if !(s0 == s && i0 == i - 1) {
        PassedPacketSent(file, s, i - 1, s0, i0);
      }
    } else {
      PassedPacketSent(file, s - 1, PacketCount(SegmentSize(|file|, s - 1)), s0, i0);
    }
  }

  /**
    A receiver that stores any selection of the file's packets, in any order and with any
    repetitions, ends up with the file as long as each of them was stored at least once.
   */
  lemma ReceiverRecoversFile(file: seq<byte>, stored: seq<Packet>)
    requires |file| <= LIMIT
    requires forall p :: p in stored ==> Genuine(file, p)
    requires forall p :: p in AllPackets(file) ==> p in stored
    ensures StoreAll(stored) == map k | 0 <= k < |file| :: file[k]
  {
    StoreAgrees(file, stored);
    var mem := StoreAll(stored);
    forall k | 0 <= k < |file|
      ensures k in mem
    {
      var s, i := PacketOfByte(file, k);
      var last := SegmentCount(|file|) - 1;
      SegmentCountExact(|file|);
      PassedPacketSent(file, last, PacketCount(SegmentSize(|file|, last)), s, i);
      StoreCovers(stored, PacketAt(file, s, i), k);
    }
    assert mem.Keys == (map k | 0 <= k < |file| :: file[k]).Keys;
  }

  /** What goes on the line for one of the file's packets reads back as that packet. */
  lemma GenuinePacketOnWire(file: seq<byte>, p: Packet)
    requires |file| <= LIMIT && Genuine(file, p)
    ensures p.segment < 0x1_0000 && 0 < |p.data| <= PACKET
    ensures ReadFilePacket(FileDataFrame(p.segment, p.data, p.index, p.total))
         == FilePacket(p.segment, GroupFlag(p.index, p.total), p.index, p.data)
  {
    FilePacketRoundTrip(p.segment, p.data, p.index, p.total);
  }
}
