/**
  The packet finder (pkfinder.c) in the one configuration the program gives it
  (uart_recv_context_init): head 1A CF with all-ones masks, variable length, a big-endian
  two-byte length at offset 6, packet length = field + 11.
 */
module PkFinder {
  import opened Bytes
  import opened Rs422Protocol

  const HEAD_LEN := 2
  const LEN_POS := 6
  const LEN_LEN := 2
  const LEN_ADD := 11
  const FRAME_BUF := 2048
  const PARSE_BUF := 5120

  predicate HeadAt(d: seq<byte>, i: nat) {
    i + HEAD_LEN <= |d| && d[i] == 0x1A && d[i + 1] == 0xCF
  }

  /** Where the first head starts at or after `i`; |d| when there is none. */
  function HeadPos(d: seq<byte>, i: nat): (p: nat)
    requires i <= |d|
    ensures i <= p <= |d|
    ensures p < |d| ==> HeadAt(d, p)
    decreases |d| - i
  {
    if i == |d| || HeadAt(d, i) then i else HeadPos(d, i + 1)
  }

  /** The packet length announced by the frame that starts at `p`. */
  function PacketLen(d: seq<byte>, p: nat): nat
    requires p + LEN_POS + LEN_LEN <= |d|
  {
    FromBe16(d[p + LEN_POS], d[p + LEN_POS + 1]) + LEN_ADD
  }

  /** Result code and out-parameters of pkfinderFind; both out-parameters can be left stale. */
  datatype Found = Found(code: int, pos: nat, len: nat)

  /** pkfinderFind on the bytes from `i` on; `pos` counts from there. */
  function Find(d: seq<byte>, i: nat, pos0: nat, len0: nat): (f: Found)
    requires i <= |d|
    ensures f.code == 1 ==> i + f.pos + HEAD_LEN <= |d|
    ensures f.code == 2 ==> i + f.pos + f.len <= |d| && LEN_ADD <= f.len
  {
    var p := HeadPos(d, i);
    if p == |d| then Found(0, pos0, len0)
    else if p + LEN_POS + LEN_LEN > |d| then Found(1, p - i, len0)
    else if p + PacketLen(d, p) > |d| then Found(1, p - i, PacketLen(d, p))
    else Found(2, p - i, PacketLen(d, p))
  }

  /** The callback chkExec: the verdict on a candidate packet. */
  type Check = seq<byte> -> bool

  /** One turn of the search loop: stop with that much consumed, or hand over a candidate. */
  datatype Turn =
    | Stop(consumed: nat)
    | Candidate(pk: seq<byte>, pos: nat, good: bool)

  function TurnAt(d: seq<byte>, i: nat, cap: nat, chk: Check, pos: nat, len: nat): (t: Turn)
    requires i <= |d|
    ensures t.Stop? ==> i <= t.consumed <= |d|
    ensures t.Candidate? ==> LEN_ADD <= |t.pk| && i + t.pos + |t.pk| <= |d|
  {
    if i + HEAD_LEN > |d| then Stop(i)
    else
      var f := Find(d, i, pos, len);
      if f.code == 0 then Stop(|d| - HEAD_LEN)
      else if f.code == 1 then Stop(i + if f.len > cap then f.pos + HEAD_LEN else f.pos)
      else var pk := d[i + f.pos..i + f.pos + f.len]; Candidate(pk, f.pos, chk(pk))
  }

  /** One pass of pkfinderParse: the candidates checked, those accepted, and how much is consumed. */
  datatype Parsed = Parsed(checked: seq<seq<byte>>, accepted: seq<seq<byte>>, consumed: nat) {
    /** The same pass when a candidate precedes it. */
    function After(pk: seq<byte>, good: bool): Parsed {
      Parsed([pk] + checked, if good then [pk] + accepted else accepted, consumed)
    }
  }

  /** The search loop from fndIndex == i on, over the whole copy `d` of the ring. */
  function Parse(d: seq<byte>, i: nat, cap: nat, chk: Check, pos: nat, len: nat): (r: Parsed)
    requires i <= |d|
    ensures i <= r.consumed <= |d|
    decreases |d| - i
  {
    match TurnAt(d, i, cap, chk, pos, len)
    case Stop(consumed) => Parsed([], [], consumed)
    case Candidate(pk, p, good) =>
      Parse(d, i + p + if good then |pk| else HEAD_LEN, cap, chk, p, |pk|).After(pk, good)
  }

  // ---------------------------------------------------------------- the scan loop

  /** pkfinderFind over buf[start..end]. */
  method PkFinderFind(buf: array<byte>, start: nat, end: nat, pos0: nat, len0: nat)
    returns (code: int, pos: nat, len: nat)
    requires start + HEAD_LEN <= end <= buf.Length
    ensures Found(code, pos, len) == Find(buf[..end], start, pos0, len0)
  {
    ghost var d := buf[..end];
    pos, len := pos0, len0;
    var i := start;
    while i < end - HEAD_LEN + 1 && !(buf[i] == 0x1A && buf[i + 1] == 0xCF)
      invariant start <= i <= end - HEAD_LEN + 1
      invariant forall k :: start <= k < i ==> !HeadAt(d, k)
    {
      i := i + 1;
    }
    if i == end - HEAD_LEN + 1 {
      FirstHead(d, start, |d|);
      return 0, pos, len;
    }
    FirstHead(d, start, i);
    pos := i - start;
    if i + LEN_POS + LEN_LEN > end {
      return 1, pos, len;
    }
    len := FromBe16(buf[i + LEN_POS], buf[i + LEN_POS + 1]) + LEN_ADD;
    code := if i + len > end then 1 else 2;
  }

  /** HeadPos is the only place with a head and none before it. */
  lemma {:induction false} FirstHead(d: seq<byte>, i: nat, p: nat)
    requires i <= p && (p == |d| || HeadAt(d, p))
    requires forall k :: i <= k < p ==> !HeadAt(d, k)
    ensures HeadPos(d, i) == p
    decreases p - i
  {
    if i < p {
      FirstHead(d, i + 1, p);
    }
  }

  // ---------------------------------------------------------------- what reaches the caller

  /** A frame by the finder's own rules that the callback accepts and the buffers can hold. */
  predicate WellFormed(f: seq<byte>, chk: Check) {
    && LEN_POS + LEN_LEN <= |f| <= FRAME_BUF
    && HeadAt(f, 0) && |f| == PacketLen(f, 0) && chk(f)
  }

  predicate AllWellFormed(fs: seq<seq<byte>>, chk: Check) {
    forall f :: f in fs ==> WellFormed(f, chk)
  }

  /** Noise that cannot start a head. */
  predicate Quiet(g: seq<byte>) {
    forall i :: 0 <= i < |g| ==> g[i] != 0x1A
  }

  /** The beginning of a frame whose remaining bytes have not arrived. */
  ghost predicate Unfinished(p: seq<byte>, chk: Check) {
    exists f: seq<byte> :: WellFormed(f, chk) && |p| < |f| && p == f[..|p|]
  }

  lemma CandidateShape(d: seq<byte>, i: nat, cap: nat, chk: Check, pos: nat, len: nat)
    requires i <= |d|
    ensures var t := TurnAt(d, i, cap, chk, pos, len);
            t.Candidate? ==> HeadAt(t.pk, 0) && |t.pk| == PacketLen(t.pk, 0) && t.good == chk(t.pk)
  {
  }

  /** On every input, whatever is accepted starts with a head, has its announced length and passed the check. */
  lemma {:induction false} AcceptedFrame(d: seq<byte>, i: nat, cap: nat, chk: Check, pos: nat, len: nat, k: nat)
    requires i <= |d| && k < |Parse(d, i, cap, chk, pos, len).accepted|
    ensures var f := Parse(d, i, cap, chk, pos, len).accepted[k];
            |f| >= LEN_ADD && HeadAt(f, 0) && |f| == PacketLen(f, 0) && chk(f)
    decreases |d| - i
  {
    hide TurnAt;
    CandidateShape(d, i, cap, chk, pos, len);
    var t := TurnAt(d, i, cap, chk, pos, len);
    if !t.good {
      AcceptedFrame(d, i + t.pos + HEAD_LEN, cap, chk, t.pos, |t.pk|, k);
    } else if k > 0 {
      AcceptedFrame(d, i + t.pos + |t.pk|, cap, chk, t.pos, |t.pk|, k - 1);
    }
  }

  /** A complete frame behind quiet noise is the next candidate. */
  lemma FindFrame(d: seq<byte>, i: nat, g: seq<byte>, f: seq<byte>, cap: nat, chk: Check, pos: nat, len: nat)
    requires Holds(d, i, g) && Holds(d, i + |g|, f) && Quiet(g) && WellFormed(f, chk)
    ensures TurnAt(d, i, cap, chk, pos, len) == Candidate(f, |g|, true)
  {
    var p := i + |g|;
    HeadAfterNoise(d, i, g);
    assert d[p] == d[p + 0] == f[0] && d[p + 1] == f[1] && d[p + 6] == f[6] && d[p + 7] == f[7];
    FirstHead(d, i, p);
    assert d[p..p + |f|] == f;
  }

  lemma HeadAfterNoise(d: seq<byte>, i: nat, g: seq<byte>)
    requires Holds(d, i, g) && Quiet(g)
    ensures forall k :: i <= k < i + |g| ==> !HeadAt(d, k)
  {
    forall k | i <= k < i + |g|
      ensures !HeadAt(d, k)
    {
      assert d[i + (k - i)] == g[k - i];
    }
  }

  /** How much noise a pass that finds no complete frame leaves in front of what is unfinished. */
  function NoiseKept(g: seq<byte>, p: seq<byte>): (n: nat)
    ensures n <= 2 && n <= |g|
  {
    if |p| >= HEAD_LEN then 0
    else if |g| + |p| < HEAD_LEN then |g|
    else HEAD_LEN - |p|
  }

  /** A search that meets no complete frame stops in front of the unfinished one. */
  lemma FindTail(d: seq<byte>, i: nat, g: seq<byte>, p: seq<byte>, cap: nat, chk: Check, pos: nat, len: nat)
    requires Holds(d, i, g) && Holds(d, i + |g|, p) && i + |g| + |p| == |d|
    requires Quiet(g) && Unfinished(p, chk) && len <= cap && FRAME_BUF <= cap
    ensures TurnAt(d, i, cap, chk, pos, len) == Stop(i + |g| - NoiseKept(g, p))
  {
    HeadAfterNoise(d, i, g);
    var at := i + |g|;
    if |p| >= HEAD_LEN {
      var f: seq<byte> :| WellFormed(f, chk) && |p| < |f| && p == f[..|p|];
      assert d[at] == d[at + 0] == p[0] == f[0] && d[at + 1] == p[1] == f[1];
      FirstHead(d, i, at);
      if |p| >= LEN_POS + LEN_LEN {
        assert d[at + 6] == p[6] == f[6] && d[at + 7] == p[7] == f[7];
      }
    } else {
      FirstHead(d, i, |d|);
    }
  }

  /**
    The receive theorem. On a ring that holds quiet noise, complete frames back to back and the
    beginning of one more, a pass checks exactly the complete frames, in order, accepts them all,
    and leaves the beginning of the next one, with at most two bytes of noise before it and none
    once a frame was found. `pos` and `len` are whatever the previous search left behind.
   */
  lemma {:induction false} ParseStream(d: seq<byte>, i: nat, g: seq<byte>, fs: seq<seq<byte>>, p: seq<byte>,
                                       cap: nat, chk: Check, pos: nat, len: nat)
    requires i <= |d| && d[i..] == g + Concat(fs) + p
    requires Quiet(g) && AllWellFormed(fs, chk) && Unfinished(p, chk)
    requires len <= cap && FRAME_BUF <= cap
    ensures var r := Parse(d, i, cap, chk, pos, len);
            && r.checked == r.accepted == fs
            && r.consumed == |d| - |p| - (if fs == [] then NoiseKept(g, p) else 0)
    decreases |fs|
  {
    hide TurnAt, WellFormed, Holds, Quiet, Unfinished;
    PartsHold(d, i, g, Concat(fs), p);
    if fs == [] {
      FindTail(d, i, g, p, cap, chk, pos, len);
    } else {
      var f, more, at := fs[0], Concat(fs[1..]), i + |g|;
      HoldsSplit(d, at, f, more);
      FindFrame(d, i, g, f, cap, chk, pos, len);
      FrameFits(f, chk);
      SliceHold(d, at + |f|, more, p);
      NothingIsQuiet();
      ParseStream(d, at + |f|, [], fs[1..], p, cap, chk, |g|, |f|);
      assert fs == [f] + fs[1..];
    }
  }

  lemma NothingIsQuiet()
    ensures Quiet([])
  {
  }

  lemma FrameFits(f: seq<byte>, chk: Check)
    requires WellFormed(f, chk)
    ensures |f| <= FRAME_BUF
  {
  }

  lemma SliceHold(d: seq<byte>, i: nat, a: seq<byte>, b: seq<byte>)
    requires Holds(d, i, a) && Holds(d, i + |a|, b) && i + |a| + |b| == |d|
    ensures d[i..] == [] + a + b
  {
    forall k | 0 <= k < |a| + |b|
      ensures d[i + k] == (a + b)[k]
    {
      if k >= |a| {
        assert d[i + |a| + (k - |a|)] == b[k - |a|];
      }
    }
    assert [] + a == a;
  }

  lemma PartsHold(d: seq<byte>, i: nat, a: seq<byte>, b: seq<byte>, c: seq<byte>)
    requires i <= |d| && d[i..] == a + b + c
    ensures |d| == i + |a| + |b| + |c|
    ensures Holds(d, i, a) && Holds(d, i + |a|, b) && Holds(d, i + |a| + |b|, c)
  {
    var s := d[i..];
    forall k | 0 <= k < |s|
      ensures d[i + k] == (a + b + c)[k]
    {
      assert d[i + k] == s[k];
    }
    HoldsSplit(d, i, a + b, c);
    HoldsSplit(d, i, a, b);
  }

  // ---------------------------------------------------------------- finder and decoder agree

  /** The length and checksum test of rs422_frame_check_and_process, the callback in use. */
  predicate Accepts(f: seq<byte>) {
    && HEADER_SIZE + CHECKSUM_SIZE <= |f| <= FRAME_BUF
    && FromBe16(f[|f| - 2], f[|f| - 1]) == Checksum(f[2..|f| - 2])
  }

  /**
    Every frame the finder delivers decodes, unless its length field is zero: the finder's
    "+ 11" and the decoder's header, command and checksum sizes describe the same frame.
   */
  lemma DeliveredFramesDecode(f: seq<byte>)
    requires WellFormed(f, Accepts)
    ensures Decode(f).Ok? <==> FromBe16(f[LEN_POS], f[LEN_POS + 1]) >= 1
  {
    assert HEADER_SIZE + (FromBe16(f[6], f[7]) + 1) == |f| - 2;
  }

  /** A frame that is delivered and does not decode: a length field of zero, whatever its other bytes are. */
  lemma ZeroLengthFrame(a: byte, b: byte, c: byte, d: byte, x: byte)
    ensures var sum := Checksum([a, b, c, d, 0, 0, x]);
            var f := [0x1A, 0xCF, a, b, c, d, 0, 0, x, sum / 0x100, sum % 0x100];
            WellFormed(f, Accepts) && !Decode(f).Ok?
  {
    var sum := Checksum([a, b, c, d, 0, 0, x]);
    var f := [0x1A, 0xCF, a, b, c, d, 0, 0, x, sum / 0x100, sum % 0x100];
    hide Checksum, Decode;
    assert f[2..9] == [a, b, c, d, 0, 0, x];
    DeliveredFramesDecode(f);
  }

  // ---------------------------------------------------------------- the bytes on the wire

  /** 1A CF, the length field eleven below the length, at most 2048 bytes, and a right sum. */
  predicate ReplyFrame(f: seq<byte>) {
    && 11 <= |f| <= 2048 && Word(f, 0) == 0x1ACF && |f| == Word(f, 6) + 11
    && (Sum(f[2..|f| - 2]) + Word(f, |f| - 2)) % 0x1_0000 == 0xFFFF
  }

  lemma ReplyOnWire(f: seq<byte>)
    ensures WellFormed(f, Accepts) <==> ReplyFrame(f)
  {
    hide Sum, Checksum;
    if 11 <= |f| {
      ChecksumTest(f[2..|f| - 2], Word(f, |f| - 2));
    }
  }

  /** The first head from `i` on is at `p`. */
  predicate FirstHeadAt(d: seq<byte>, i: nat, p: nat) {
    && i <= p && p + 8 <= |d| && d[p] == 0x1A && d[p + 1] == 0xCF
    && forall k :: i <= k < p ==> d[k] != 0x1A || d[k + 1] != 0xCF
  }

  /** A candidate the callback refuses costs its head, and nothing behind that. */
  lemma RefusedCostsHead(d: seq<byte>, i: nat, p: nat, cap: nat, chk: Check, pos: nat, len: nat)
    requires FirstHeadAt(d, i, p) && p + Word(d, p + 6) + 11 <= |d|
    requires !chk(d[p..p + Word(d, p + 6) + 11])
    ensures var pk := d[p..p + Word(d, p + 6) + 11];
            Parse(d, i, cap, chk, pos, len) == Parse(d, p + 2, cap, chk, p - i, |pk|).After(pk, false)
  {
    TurnAtHead(d, i, p, cap, chk, pos, len);
    hide TurnAt;
  }

  lemma TurnAtHead(d: seq<byte>, i: nat, p: nat, cap: nat, chk: Check, pos: nat, len: nat)
    requires FirstHeadAt(d, i, p)
    ensures var n := Word(d, p + 6) + 11;
            TurnAt(d, i, cap, chk, pos, len) ==
              if p + n <= |d| then Candidate(d[p..p + n], p - i, chk(d[p..p + n]))
              else Stop(if n > cap then p + 2 else p)
  {
    FirstHead(d, i, p);
  }

  /** A head that announces more than the buffer can hold is passed over; one that is only unfinished is kept. */
  lemma UnfinishedKept(d: seq<byte>, i: nat, p: nat, cap: nat, chk: Check, pos: nat, len: nat)
    requires FirstHeadAt(d, i, p) && p + Word(d, p + 6) + 11 > |d|
    ensures Parse(d, i, cap, chk, pos, len) == Parsed([], [], if Word(d, p + 6) + 11 > cap then p + 2 else p)
  {
    TurnAtHead(d, i, p, cap, chk, pos, len);
    hide TurnAt;
  }
}
