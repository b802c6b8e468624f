/**
  The receive thread's framing loop (uart_client.c): status frames EB 90 with a two-byte length
  and telemetry frames EB 93 with source and one-byte length share one serial line and one
  2048-byte buffer.
 */
module UartFramer {
  import opened Bytes

  const BUFFER := 2048
  const READ := 1024
  const MIN_FRAME := 6

  /** fpga_telemetry_payload_len: the length the protocol fixes for a source, 0 if unknown. */
  function PayloadLen(src: byte): nat {
    if src == 0xA1 then 127 else if src == 0xB1 || src == 0xB2 then 146 else 0
  }

  predicate HeaderAt(s: seq<byte>, i: nat) {
    i + 2 <= |s| && s[i] == 0xEB && (s[i + 1] == 0x90 || s[i + 1] == 0x93)
  }

  /** The first header at or after `i`; |s| when there is none. */
  function HeaderPos(s: seq<byte>, i: nat): (p: nat)
    requires i <= |s|
    ensures i <= p <= |s|
    ensures p < |s| ==> HeaderAt(s, p)
    decreases |s| - i
  {
    if i == |s| || HeaderAt(s, i) then i else HeaderPos(s, i + 1)
  }

  /** Length of the frame whose header is at `p`; None when the header is to be given up. */
  datatype Length = Refused | Total(n: nat)

  function FrameLength(s: seq<byte>, p: nat): (r: Length)
    requires p + 4 <= |s|
    ensures r.Total? ==> MIN_FRAME <= r.n <= BUFFER
  {
    if s[p + 1] == 0x93 then
      var wanted := PayloadLen(s[p + 2]);
      if wanted == 0 || s[p + 3] != wanted then Refused else Total(6 + wanted)
    else
      var n := 6 + FromBe16(s[p + 2], s[p + 3]);
      if n > BUFFER then Refused else Total(n)
  }

  /** One turn of the framing loop from `i` on. */
  datatype Turn =
    | Wait(keep: nat)
    | Skip(next: nat)
    | Deliver(from: nat, to: nat)

  /** What becomes of the header at `p`. */
  function FrameAt(s: seq<byte>, p: nat): (t: Turn)
    requires HeaderAt(s, p)
    ensures match t
            case Wait(keep) => keep == p
            case Skip(next) => next == p + 1
            case Deliver(from, to) => from == p && p + MIN_FRAME <= to <= |s|
  {
    if p + 4 > |s| then Wait(p)
    else match FrameLength(s, p)
      case Refused => Skip(p + 1)
      case Total(n) =>
        if p + n > |s| then Wait(p)
        else if s[p + n - 2] == 0x55 && s[p + n - 1] == 0x55 then Deliver(p, p + n)
        else Skip(p + 1)
  }

  function TurnAt(s: seq<byte>, i: nat): (t: Turn)
    requires i < |s|
    ensures match t
            case Wait(keep) => i <= keep <= |s|
            case Skip(next) => i < next <= |s|
            case Deliver(from, to) => i <= from && from + MIN_FRAME <= to <= |s|
  {
    var p := HeaderPos(s, i);
    if p == |s| then Wait(if s[|s| - 1] == 0xEB then |s| - 1 else |s|)
    else FrameAt(s, p)
  }

  /** Which callback a frame goes to. */
  datatype Delivery = Telemetry(frame: seq<byte>) | Status(frame: seq<byte>) | Other(frame: seq<byte>)

  function Dispatch(f: seq<byte>): Delivery
    requires |f| >= 4
  {
    if f[1] == 0x93 then Telemetry(f)
    else if |f| == 133 && FromBe16(f[2], f[3]) == 127 then Status(f)
    else Other(f)
  }

  /** Everything the loop delivers from `i` on, and the index of the first byte it leaves. */
  datatype Scanned = Scanned(out: seq<Delivery>, keep: nat) {
    function After(d: Delivery): Scanned {
      Scanned([d] + out, keep)
    }
  }

  function Scan(s: seq<byte>, i: nat): (r: Scanned)
    requires i <= |s|
    ensures i <= r.keep <= |s|
    decreases |s| - i
  {
    if i == |s| then Scanned([], i)
    else match TurnAt(s, i)
      case Wait(keep) => Scanned([], keep)
      case Skip(next) => Scan(s, next)
      case Deliver(from, to) => Scan(s, to).After(Dispatch(s[from..to]))
  }

  // ---------------------------------------------------------------- the loop over the buffer

  /** The loop did what the turn says: how to go on, and what the callbacks have been given since. */
  predicate Follows(t: Turn, done: bool, next: nat, s: seq<byte>, was: seq<Delivery>, now: seq<Delivery>) {
    match t
    case Wait(keep) => done && next == keep && now == was
    case Skip(n) => !done && next == n && now == was
    case Deliver(from, to) =>
      from + MIN_FRAME <= to <= |s| && !done && next == to && now == was + [Dispatch(s[from..to])]
  }

  /** uart_client_t together with the thread's static frame buffer. */
  class Framer {
    const buffer: array<byte>
    var offset: nat
    /** What the callbacks have been given, in order. */
    var delivered: seq<Delivery>

    ghost predicate Valid()
      reads this
    {
      buffer.Length == BUFFER && offset <= BUFFER
    }

    ghost function Held(): seq<byte>
      requires Valid()
      reads this, buffer
    {
      buffer[..offset]
    }

    constructor ()
      ensures Valid() && fresh(buffer) && Held() == [] && delivered == []
    {
      buffer := new byte[BUFFER];
      offset := 0;
      delivered := [];
    }

    /** The header search. */
    method FindHeader(i: nat) returns (p: nat)
      requires Valid() && i < offset
      ensures p == HeaderPos(Held(), i)
    {
      ghost var s := Held();
      p := i;
      while p + 1 < offset && !(buffer[p] == 0xEB && (buffer[p + 1] == 0x90 || buffer[p + 1] == 0x93))
        invariant i <= p < offset
        invariant HeaderPos(s, i) == HeaderPos(s, p)
      {
        p := p + 1;
      }
      if p + 1 >= offset {
        assert HeaderPos(s, p) == HeaderPos(s, p + 1);
        p := offset;
      }
    }

    /** One turn: `next` is where to go on, or what to keep when `done`. */
    method FrameTurn(i: nat) returns (done: bool, next: nat)
      requires Valid() && i < offset
      modifies `delivered
      ensures Follows(TurnAt(Held(), i), done, next, Held(), old(delivered), delivered)
    {
      hide HeaderPos, FrameAt, Dispatch;
      var p := FindHeader(i);
      if p == offset {
        return true, if buffer[offset - 1] == 0xEB then offset - 1 else offset;
      }
      done, next := TakeFrame(p);
    }

    /** The part of a turn that looks at the frame behind a header. */
    method TakeFrame(p: nat) returns (done: bool, next: nat)
      requires Valid() && HeaderAt(Held(), p)
      modifies `delivered
      ensures Follows(FrameAt(Held(), p), done, next, Held(), old(delivered), delivered)
    {
      hide FrameLength;
      if offset - p < 4 {
        return true, p;
      }
      var length := ReadLength(p);
      if length.Refused? {
        return false, p + 1;
      }
      var total := length.n;
      if offset - p < total {
        return true, p;
      }
      if buffer[p + total - 2] != 0x55 || buffer[p + total - 1] != 0x55 {
        return false, p + 1;
      }
      var frame := buffer[..offset][p..p + total];
      assert frame[1] == buffer[p + 1] && frame[2] == buffer[p + 2] && frame[3] == buffer[p + 3];
      if buffer[p + 1] == 0x93 {
        delivered := delivered + [Telemetry(frame)];
      } else if total == 133 && FromBe16(buffer[p + 2], buffer[p + 3]) == 127 {
        delivered := delivered + [Status(frame)];
      } else {
        delivered := delivered + [Other(frame)];
      }
      return false, p + total;
    }

    /** The two length rules, and the bounds check that follows them. */
    method ReadLength(p: nat) returns (r: Length)
      requires Valid() && p + 4 <= offset
      ensures r == FrameLength(Held(), p)
    {
      var total: nat;
      if buffer[p + 1] == 0x93 {
        var wanted := PayloadLen(buffer[p + 2]);
        if wanted == 0 || buffer[p + 3] != wanted {
          return Refused;
        }
        total := 6 + wanted;
      } else {
        total := 2 + 2 + FromBe16(buffer[p + 2], buffer[p + 3]) + 2;
      }
      r := if total < MIN_FRAME || total > BUFFER then Refused else Total(total);
    }

    /** All turns over what is in the buffer. */
    method ScanBuffer() returns (keep: nat)
      requires Valid()
      modifies `delivered
      ensures keep == Scan(Held(), 0).keep
      ensures delivered == old(delivered) + Scan(Held(), 0).out
    {
      hide TurnAt, Dispatch;
      ghost var s := Held();
      var i: nat, done := 0, false;
      ghost var rest := Scan(s, 0);
      while !done && i < offset
        invariant i <= offset && Held() == s
        invariant rest == if done then Scanned([], i) else Scan(s, i)
        invariant old(delivered) + Scan(s, 0).out == delivered + rest.out && Scan(s, 0).keep == rest.keep
        decreases if done then 0 else 1 + offset - i
      {
        ghost var t := TurnAt(s, i);
        ghost var before := delivered;
        done, i := FrameTurn(i);
        if !done {
          rest := Scan(s, i);
        } else {
          rest := Scanned([], i);
        }
        if t.Deliver? {
          Assoc(before, [Dispatch(s[t.from..t.to])], rest.out);
        }
      }
      keep := i;
    }

    /** One successful read(): append, frame, and move what is left to the front. */
    method Receive(chunk: seq<byte>)
      requires Valid() && 0 < |chunk| <= READ
      modifies this, buffer
      ensures Valid()
      ensures delivered == old(delivered) + Feed(old(Held()), chunk).0
      ensures Held() == Feed(old(Held()), chunk).1
      // what does not fit costs the bytes held, and only these
      ensures old(offset) + |chunk| > 2048 ==> delivered == old(delivered) + Scan(chunk, 0).out
    {
      if offset + |chunk| > BUFFER {
        LeftUnit(chunk);
      }
      if offset + |chunk| > BUFFER {
        offset := 0;
      }
      Append(chunk);
      ghost var s := Held();
      var keep := ScanBuffer();
      MoveDown(keep);
    }

    /** memcpy of the chunk behind the bytes held */
    method Append(chunk: seq<byte>)
      requires Valid() && offset + |chunk| <= BUFFER
      modifies `offset, buffer
      ensures Valid() && Held() == old(Held()) + chunk
    {
      var at := offset;
      offset := offset + |chunk|;
      for k := 0 to |chunk|
        invariant offset == at + |chunk|
        invariant forall j :: 0 <= j < at ==> buffer[j] == old(buffer[j])
        invariant forall j :: at <= j < at + k ==> buffer[j] == chunk[j - at]
      {
        buffer[at + k] := chunk[k];
      }
    }

    /** memmove of the unprocessed bytes to the front */
    method MoveDown(keep: nat)
      requires Valid() && keep <= offset
      modifies `offset, buffer
      ensures Valid() && Held() == old(Held())[keep..]
    {
      var n := offset - keep;
      for k := 0 to n
        invariant forall j :: 0 <= j < k ==> buffer[j] == old(buffer[keep + j])
        invariant forall j :: k <= j < BUFFER ==> buffer[j] == old(buffer[j])
      {
        buffer[k] := buffer[keep + k];
      }
      offset := n;
    }
  }

  // ---------------------------------------------------------------- runs of reads

  /** One read: an overflowing buffer is emptied first. */
  function Feed(left: seq<byte>, chunk: seq<byte>): (seq<Delivery>, seq<byte>) {
    var s := (if |left| + |chunk| > BUFFER then [] else left) + chunk;
    var r := Scan(s, 0);
    (r.out, s[r.keep..])
  }

  function Run(left: seq<byte>, chunks: seq<seq<byte>>): (seq<Delivery>, seq<byte>)
    decreases |chunks|
  {
    if chunks == [] then ([], left)
    else
      var (out, next) := Feed(left, chunks[0]);
      var (more, end) := Run(next, chunks[1..]);
      (out + more, end)
  }

  /** No read ever finds too little room. */
  predicate Fits(left: seq<byte>, chunks: seq<seq<byte>>)
    decreases |chunks|
  {
    chunks == [] || (|left| + |chunks[0]| <= BUFFER && Fits(Feed(left, chunks[0]).1, chunks[1..]))
  }

  // ---------------------------------------------------------------- later bytes change no decision

  predicate Extends(x: seq<byte>, s: seq<byte>) {
    |s| <= |x| && forall k :: 0 <= k < |s| ==> x[k] == s[k]
  }

  /** A header found stays found. */
  lemma {:induction false} HeaderStable(s: seq<byte>, x: seq<byte>, i: nat)
    requires Extends(x, s) && i <= |s| && HeaderPos(s, i) < |s|
    ensures HeaderPos(x, i) == HeaderPos(s, i)
    decreases |s| - i
  {
    if !HeaderAt(s, i) {
      assert !HeaderAt(x, i);
      HeaderStable(s, x, i + 1);
    }
  }

  /** Where none was found, the search can resume at the bytes that were kept. */
  lemma {:induction false} HeaderResumes(s: seq<byte>, x: seq<byte>, i: nat, k: nat)
    requires Extends(x, s) && i <= k <= |s| && HeaderPos(s, i) == |s|
    requires k == |s| - 1 || (k == |s| && k > 0 && s[k - 1] != 0xEB)
    ensures HeaderPos(x, i) == HeaderPos(x, k)
    decreases k - i
  {
    if i < k {
      assert !HeaderAt(s, i);
      assert !HeaderAt(x, i);
      HeaderResumes(s, x, i + 1, k);
    }
  }

  lemma FrameStable(s: seq<byte>, x: seq<byte>, p: nat)
    requires Extends(x, s) && HeaderAt(s, p)
    ensures HeaderAt(x, p)
    ensures !FrameAt(s, p).Wait? ==> FrameAt(x, p) == FrameAt(s, p)
    ensures FrameAt(s, p).Deliver? ==> x[p..FrameAt(s, p).to] == s[p..FrameAt(s, p).to]
  {
  }

  /** A turn taken on the bytes so far is the turn taken on any continuation; a wait is resumable. */
  lemma TurnStable(s: seq<byte>, x: seq<byte>, i: nat)
    requires Extends(x, s) && i < |s|
    ensures match TurnAt(s, i)
            case Wait(keep) => if keep < |x| then TurnAt(x, i) == TurnAt(x, keep) else TurnAt(x, i) == Wait(keep)
            case Skip(next) => TurnAt(x, i) == TurnAt(s, i)
            case Deliver(from, to) => TurnAt(x, i) == TurnAt(s, i) && x[from..to] == s[from..to]
  {
    hide HeaderPos, FrameAt;
    var p := HeaderPos(s, i);
    if p == |s| {
      var keep := if s[|s| - 1] == 0xEB then |s| - 1 else |s|;
      HeaderResumes(s, x, i, keep);
      if keep == |x| {
        HeaderAtEnd(x);
      }
    } else {
      HeaderStable(s, x, i);
      FrameStable(s, x, p);
      HeaderHere(x, p);
    }
  }

  lemma HeaderAtEnd(s: seq<byte>)
    ensures HeaderPos(s, |s|) == |s|
  {
  }

  lemma HeaderHere(s: seq<byte>, p: nat)
    requires p <= |s| && HeaderAt(s, p)
    ensures HeaderPos(s, p) == p
  {
  }

  function Joined(out: seq<Delivery>, r: Scanned): Scanned {
    Scanned(out + r.out, r.keep)
  }

  /** Scanning more bytes delivers the same frames first and goes on from the bytes that were kept. */
  lemma {:induction false} ScanStable(s: seq<byte>, x: seq<byte>, i: nat)
    requires Extends(x, s) && i <= |s|
    ensures Scan(x, i) == Joined(Scan(s, i).out, Scan(x, Scan(s, i).keep))
    decreases |s| - i
  {
    hide TurnAt, Extends, Dispatch;
    LengthOfExtension(s, x);
    if i < |s| {
      TurnStable(s, x, i);
      match TurnAt(s, i)
      case Wait(keep) =>
        LeftUnit(Scan(x, keep).out);
      case Skip(next) =>
        ScanStable(s, x, next);
      case Deliver(from, to) =>
        ScanStable(s, x, to);
        Assoc([Dispatch(s[from..to])], Scan(s, to).out, Scan(x, Scan(s, to).keep).out);
    } else {
      LeftUnit(Scan(x, i).out);
    }
  }

  lemma LengthOfExtension(s: seq<byte>, x: seq<byte>)
    requires Extends(x, s)
    ensures |s| <= |x|
  {
  }

  // ---------------------------------------------------------------- moving the bytes changes nothing

  lemma {:induction false} HeaderShift(s: seq<byte>, k: nat, i: nat)
    requires k + i <= |s|
    ensures HeaderPos(s[k..], i) == HeaderPos(s, k + i) - k
    decreases |s| - i
  {
    if k + i < |s| {
      assert HeaderAt(s[k..], i) == HeaderAt(s, k + i);
      HeaderShift(s, k, i + 1);
    }
  }

  lemma FrameShift(s: seq<byte>, k: nat, p: nat)
    requires k <= p && HeaderAt(s, p)
    ensures HeaderAt(s[k..], p - k)
    ensures match FrameAt(s, p)
            case Wait(keep) => FrameAt(s[k..], p - k) == Wait(keep - k)
            case Skip(next) => FrameAt(s[k..], p - k) == Skip(next - k)
            case Deliver(from, to) => FrameAt(s[k..], p - k) == Deliver(from - k, to - k)
  {
  }

  lemma TurnShift(s: seq<byte>, k: nat, i: nat)
    requires k + i < |s|
    ensures match TurnAt(s, k + i)
            case Wait(keep) => TurnAt(s[k..], i) == Wait(keep - k)
            case Skip(next) => TurnAt(s[k..], i) == Skip(next - k)
            case Deliver(from, to) =>
              TurnAt(s[k..], i) == Deliver(from - k, to - k) && s[k..][from - k..to - k] == s[from..to]
  {
    hide HeaderPos, FrameAt;
    HeaderShift(s, k, i);
    var p := HeaderPos(s, k + i);
    if p < |s| {
      FrameShift(s, k, p);
    }
  }

  lemma {:induction false} ScanShift(s: seq<byte>, k: nat, i: nat)
    requires k + i <= |s|
    ensures Scan(s[k..], i) == Scanned(Scan(s, k + i).out, Scan(s, k + i).keep - k)
    decreases |s| - i
  {
    hide TurnAt, Dispatch;
    if k + i < |s| {
      TurnShift(s, k, i);
      match TurnAt(s, k + i)
      case Wait(keep) =>
      case Skip(next) => ScanShift(s, k, next - k);
      case Deliver(from, to) => ScanShift(s, k, to - k);
    }
  }

  // ---------------------------------------------------------------- chunk independence

  /** One read, seen from the stream: it scans on where the stream was left. */
  lemma FeedContinues(x: seq<byte>, chunk: seq<byte>)
    requires |x| - Scan(x, 0).keep + |chunk| <= BUFFER
    ensures Scan(x + chunk, 0).out == Scan(x, 0).out + Feed(x[Scan(x, 0).keep..], chunk).0
    ensures Feed(x[Scan(x, 0).keep..], chunk).1 == (x + chunk)[Scan(x + chunk, 0).keep..]
  {
    hide Scan, Extends, Feed;
    var keep, y := Scan(x, 0).keep, x + chunk;
    AppendExtends(x, chunk, keep);
    FeedWithRoom(x[keep..], chunk, y[keep..]);
    ScanStable(x, y, 0);
    ScanShift(y, keep, 0);
    assert Scan(y, 0).keep == Scan(y, keep).keep == keep + Scan(y[keep..], 0).keep;
    DropTwice(y, keep, Scan(y, keep).keep);
  }

  lemma FeedWithRoom(left: seq<byte>, chunk: seq<byte>, s: seq<byte>)
    requires |left| + |chunk| <= BUFFER && s == left + chunk
    ensures Feed(left, chunk) == (Scan(s, 0).out, s[Scan(s, 0).keep..])
  {
  }

  lemma AppendExtends(x: seq<byte>, c: seq<byte>, keep: nat)
    requires keep <= |x|
    ensures Extends(x + c, x) && x[keep..] + c == (x + c)[keep..]
  {
  }

  lemma DropTwice(s: seq<byte>, a: nat, b: nat)
    requires a <= b <= |s|
    ensures s[a..][b - a..] == s[b..]
  {
  }

  lemma {:induction false} RunContinues(x: seq<byte>, chunks: seq<seq<byte>>)
    requires Fits(x[Scan(x, 0).keep..], chunks)
    ensures var y := x + Concat(chunks);
            var (out, left) := Run(x[Scan(x, 0).keep..], chunks);
            Scan(y, 0).out == Scan(x, 0).out + out && left == y[Scan(y, 0).keep..]
    decreases |chunks|
  {
    hide Scan, Feed;
    if chunks == [] {
      assert x + Concat(chunks) == x;
      assert Scan(x, 0).out + [] == Scan(x, 0).out;
    } else {
      var z := x + chunks[0];
      FeedContinues(x, chunks[0]);
      RunContinues(z, chunks[1..]);
      Assoc(x, chunks[0], Concat(chunks[1..]));
      var (out, next) := Feed(x[Scan(x, 0).keep..], chunks[0]);
      Assoc(Scan(x, 0).out, out, Run(next, chunks[1..]).0);
    }
  }

  /**
    However a byte stream is cut into reads, as long as each fits behind the bytes held, the
    frames delivered and the bytes left are those of one pass over the whole stream.
   */
  lemma ChunkIndependence(chunks: seq<seq<byte>>)
    requires Fits([], chunks)
    ensures var s := Concat(chunks);
            Run([], chunks) == (Scan(s, 0).out, s[Scan(s, 0).keep..])
  {
    RunContinues([], chunks);
    LeftUnit(Concat(chunks));
    LeftUnit(Run([], chunks).0);
  }

  // ---------------------------------------------------------------- well-formed frames in noise

  /** A frame by one of the two rules: header, announced length, tail. Its payload is arbitrary. */
  predicate IsFrame(f: seq<byte>) {
    |f| >= 4 && HeaderAt(f, 0) && FrameLength(f, 0) == Total(|f|)
    && f[|f| - 2] == 0x55 && f[|f| - 1] == 0x55
  }

  predicate Noise(g: seq<byte>) {
    0xEB !in g
  }

  datatype Item = Item(noise: seq<byte>, frame: seq<byte>)

  predicate AllFrames(items: seq<Item>) {
    forall k :: 0 <= k < |items| ==> Noise(items[k].noise) && IsFrame(items[k].frame)
  }

  /** Noise, frame, noise, frame, ..., and noise at the end. */
  function Line(items: seq<Item>, tail: seq<byte>): seq<byte> {
    if items == [] then tail else items[0].noise + items[0].frame + Line(items[1..], tail)
  }

  function Deliveries(items: seq<Item>): seq<Delivery>
    requires AllFrames(items)
  {
    seq(|items|, k requires 0 <= k < |items| => Dispatch(items[k].frame))
  }

  lemma NoHeaderInNoise(s: seq<byte>, i: nat, g: seq<byte>)
    requires Holds(s, i, g) && Noise(g)
    ensures forall k :: i <= k < i + |g| ==> !HeaderAt(s, k) && s[k] != 0xEB
  {
    forall k | i <= k < i + |g|
      ensures s[k] != 0xEB
    {
      assert s[i + (k - i)] == g[k - i];
    }
  }

  lemma {:induction false} FirstHeader(s: seq<byte>, i: nat, p: nat)
    requires i <= p && (p == |s| || HeaderAt(s, p))
    requires forall k :: i <= k < p ==> !HeaderAt(s, k)
    ensures HeaderPos(s, i) == p
    decreases p - i
  {
    if i < p {
      FirstHeader(s, i + 1, p);
    }
  }

  /** A frame behind noise is delivered by one turn. */
  lemma FrameInNoise(s: seq<byte>, i: nat, g: seq<byte>, f: seq<byte>)
    requires Holds(s, i, g) && Holds(s, i + |g|, f) && Noise(g) && IsFrame(f)
    ensures i < |s| && TurnAt(s, i) == Deliver(i + |g|, i + |g| + |f|)
    ensures s[i + |g|..i + |g| + |f|] == f
  {
    var p := i + |g|;
    NoHeaderInNoise(s, i, g);
    assert s[p + 0] == f[0] && s[p + 1] == f[1] && s[p + 2] == f[2] && s[p + 3] == f[3];
    assert s[p + (|f| - 2)] == f[|f| - 2] && s[p + (|f| - 1)] == f[|f| - 1];
    FirstHeader(s, i, p);
  }

  /** Noise at the end is dropped. */
  lemma OnlyNoise(s: seq<byte>, i: nat, g: seq<byte>)
    requires Holds(s, i, g) && i + |g| == |s| && Noise(g)
    ensures Scan(s, i) == Scanned([], |s|)
  {
    NoHeaderInNoise(s, i, g);
    FirstHeader(s, i, |s|);
  }

  /** The beginning of a frame behind noise waits for the rest, with the noise dropped. */
  lemma PartOfFrame(s: seq<byte>, i: nat, g: seq<byte>, f: seq<byte>, n: nat)
    requires Noise(g) && IsFrame(f) && 0 < n < |f|
    requires Holds(s, i, g) && Holds(s, i + |g|, f[..n]) && i + |g| + n == |s|
    ensures Scan(s, i) == Scanned([], i + |g|)
  {
    var p := i + |g|;
    NoHeaderInNoise(s, i, g);
    assert s[p + 0] == f[..n][0] == f[0];
    if n == 1 {
      FirstHeader(s, i, |s|);
    } else {
      assert s[p + 1] == f[..n][1] == f[1];
      FirstHeader(s, i, p);
      if n >= 4 {
        assert s[p + 2] == f[..n][2] == f[2] && s[p + 3] == f[..n][3] == f[3];
      }
    }
  }

  /**
    Well-formed frames separated by noise are all delivered, once and in order, whatever headers
    or tails their payloads imitate, and nothing is left.
   */
  lemma {:induction false} FramesInNoise(s: seq<byte>, i: nat, items: seq<Item>, tail: seq<byte>)
    requires AllFrames(items) && Noise(tail) && Holds(s, i, Line(items, tail)) && i + |Line(items, tail)| == |s|
    ensures Scan(s, i) == Scanned(Deliveries(items), |s|)
    decreases |items|
  {
    hide Holds, Noise, IsFrame, TurnAt, Dispatch;
    if items == [] {
      OnlyNoise(s, i, tail);
    } else {
      var g, f, rest := items[0].noise, items[0].frame, Line(items[1..], tail);
      HoldsSplit(s, i, g + f, rest);
      HoldsSplit(s, i, g, f);
      FrameInNoise(s, i, g, f);
      FramesInNoise(s, i + |g| + |f|, items[1..], tail);
      assert Deliveries(items) == [Dispatch(f)] + Deliveries(items[1..]);
    }
  }

  /** The same through any sequence of reads that fit. */
  lemma NoisyLineDelivered(items: seq<Item>, tail: seq<byte>, chunks: seq<seq<byte>>)
    requires AllFrames(items) && Noise(tail) && Concat(chunks) == Line(items, tail) && Fits([], chunks)
    ensures Run([], chunks) == (Deliveries(items), [])
  {
    hide Scan, Fits, Run, Noise, IsFrame, Dispatch;
    var s := Line(items, tail);
    assert Holds(s, 0, s);
    FramesInNoise(s, 0, items, tail);
    ChunkIndependence(chunks);
    assert s[|s|..] == [];
  }

  // ---------------------------------------------------------------- reads that always fit

  predicate FramesAtMost(items: seq<Item>, n: nat) {
    forall k :: 0 <= k < |items| ==> |items[k].frame| <= n
  }

  /** After any beginning of such a line, fewer bytes are held than the longest frame has. */
  lemma {:induction false} HeldBelowFrame(s: seq<byte>, i: nat, items: seq<Item>, tail: seq<byte>, n: nat, max: nat)
    requires AllFrames(items) && Noise(tail) && FramesAtMost(items, max) && 0 < max
    requires n <= |Line(items, tail)| && i + n == |s| && Holds(s, i, Line(items, tail)[..n])
    ensures |s| - Scan(s, i).keep < max
    decreases |items|
  {
    hide Holds, Noise, IsFrame, TurnAt, Dispatch;
    var line := Line(items, tail);
    if items == [] {
      NoisePrefix(tail, n);
      OnlyNoise(s, i, tail[..n]);
    } else {
      var g, f, rest := items[0].noise, items[0].frame, Line(items[1..], tail);
      if n <= |g| {
        assert line[..n] == g[..n];
        NoisePrefix(g, n);
        OnlyNoise(s, i, g[..n]);
      } else if n < |g| + |f| {
        assert line[..n] == g + f[..n - |g|];
        HoldsSplit(s, i, g, f[..n - |g|]);
        PartOfFrame(s, i, g, f, n - |g|);
      } else {
        var m := n - |g| - |f|;
        assert line[..n] == (g + f) + rest[..m];
        HoldsSplit(s, i, g + f, rest[..m]);
        HoldsSplit(s, i, g, f);
        FrameInNoise(s, i, g, f);
        HeldBelowFrame(s, i + |g| + |f|, items[1..], tail, m, max);
      }
    }
  }

  lemma NoisePrefix(g: seq<byte>, n: nat)
    requires Noise(g) && n <= |g|
    ensures Noise(g[..n])
  {
  }

  predicate ReadsAtMost(chunks: seq<seq<byte>>, n: nat) {
    forall k :: 0 <= k < |chunks| ==> |chunks[k]| <= n
  }

  /** `x` is the part of the line read so far. */
  lemma {:induction false} ReadsFit(items: seq<Item>, tail: seq<byte>, x: seq<byte>, chunks: seq<seq<byte>>)
    requires AllFrames(items) && Noise(tail) && FramesAtMost(items, READ) && ReadsAtMost(chunks, READ)
    requires x + Concat(chunks) == Line(items, tail)
    ensures Fits(x[Scan(x, 0).keep..], chunks)
    decreases |chunks|
  {
    hide Scan, Feed, Noise, IsFrame;
    if chunks != [] {
      var line := Line(items, tail);
      assert line[..|x|] == x;
      assert Holds(x, 0, x);
      HeldBelowFrame(x, 0, items, tail, |x|, READ);
      FeedContinues(x, chunks[0]);
      Assoc(x, chunks[0], Concat(chunks[1..]));
      ReadsFit(items, tail, x + chunks[0], chunks[1..]);
    }
  }

  /**
    With frames of at most 1024 bytes (the line's own are 133 and 152) and reads of at most 1024,
    the buffer never overflows, so every frame arrives however the line is cut into reads.
   */
  lemma EveryFrameArrives(items: seq<Item>, tail: seq<byte>, chunks: seq<seq<byte>>)
    requires AllFrames(items) && Noise(tail) && FramesAtMost(items, READ) && ReadsAtMost(chunks, READ)
    requires Concat(chunks) == Line(items, tail)
    ensures Run([], chunks) == (Deliveries(items), [])
  {
    hide Fits, Run, Noise, IsFrame, Dispatch;
    LeftUnit(Concat(chunks));
    ReadsFit(items, tail, [], chunks);
    NoisyLineDelivered(items, tail, chunks);
  }

  /** On every input, what is delivered is a frame by the two rules, handed to the right callback. */
  lemma {:induction false} DeliveredAreFrames(s: seq<byte>, i: nat, k: nat)
    requires i <= |s| && k < |Scan(s, i).out|
    ensures var d := Scan(s, i).out[k]; IsFrame(d.frame) && d == Dispatch(d.frame)
    decreases |s| - i
  {
    hide TurnAt, IsFrame, Dispatch;
    match TurnAt(s, i)
    case Wait(_) =>
    case Skip(next) => DeliveredAreFrames(s, next, k);
    case Deliver(from, to) =>
      if k == 0 {
        TurnDeliversFrame(s, i);
      } else {
        DeliveredAreFrames(s, to, k - 1);
      }
  }

  lemma TurnDeliversFrame(s: seq<byte>, i: nat)
    requires i < |s| && TurnAt(s, i).Deliver?
    ensures var t := TurnAt(s, i); IsFrame(s[t.from..t.to]) && Dispatch(s[t.from..t.to]).frame == s[t.from..t.to]
  {
    hide HeaderPos;
    var t := TurnAt(s, i);
    var f := s[t.from..t.to];
    assert f[0] == s[t.from] && f[1] == s[t.from + 1] && f[2] == s[t.from + 2] && f[3] == s[t.from + 3];
  }

  // ---------------------------------------------------------------- the frames on the wire

  /** EB 93, source A1 with 127 bytes or B1 or B2 with 146, 55 55. */
  predicate TelemetryFrame(f: seq<byte>) {
    && |f| > 6 && f[0] == 0xEB && f[1] == 0x93 && f[|f| - 2] == 0x55 && f[|f| - 1] == 0x55
    && ((f[2] == 0xA1 && f[3] == 127 && |f| == 133) || (f[2] in {0xB1, 0xB2} && f[3] == 146 && |f| == 152))
  }

  /** EB 90, a big-endian length that fits the buffer, 55 55. */
  predicate MessageFrame(f: seq<byte>) {
    && 6 <= |f| <= 2048 && f[0] == 0xEB && f[1] == 0x90 && f[|f| - 2] == 0x55 && f[|f| - 1] == 0x55
    && |f| == 6 + f[2] as int * 0x100 + f[3]
  }

  predicate StatusFrame(f: seq<byte>) {
    MessageFrame(f) && |f| == 133
  }

  /** The frames of the two rules are these. */
  lemma FramesOnWire(f: seq<byte>)
    ensures IsFrame(f) <==> TelemetryFrame(f) || MessageFrame(f)
  {
  }

  /**
    On every input, a delivery to the telemetry callback is a telemetry frame and one to the status
    callback a status frame, and these go nowhere else.
   */
  lemma DeliveredToItsCallback(s: seq<byte>, i: nat, k: nat)
    requires i <= |s| && k < |Scan(s, i).out|
    ensures var d := Scan(s, i).out[k];
            && (TelemetryFrame(d.frame) || MessageFrame(d.frame))
            && (d.Telemetry? <==> d.frame[1] == 0x93)
            && (d.Status? <==> d.frame[1] == 0x90 && |d.frame| == 133)
  {
    hide Scan, IsFrame;
    DeliveredAreFrames(s, i, k);
    FramesOnWire(Scan(s, i).out[k].frame);
  }

  /** What the telemetry callback, the status callback and the callback for other data are given. */
  function ToTelemetry(out: seq<Delivery>): seq<seq<byte>> {
    if out == [] then [] else (if out[0].Telemetry? then [out[0].frame] else []) + ToTelemetry(out[1..])
  }

  function ToStatus(out: seq<Delivery>): seq<seq<byte>> {
    if out == [] then [] else (if out[0].Status? then [out[0].frame] else []) + ToStatus(out[1..])
  }

  function ToOther(out: seq<Delivery>): seq<seq<byte>> {
    if out == [] then [] else (if out[0].Other? then [out[0].frame] else []) + ToOther(out[1..])
  }

  /** The frames of a line that are of a kind, in order. */
  function OfKind(items: seq<Item>, kind: seq<byte> -> bool): seq<seq<byte>> {
    if items == [] then []
    else (if kind(items[0].frame) then [items[0].frame] else []) + OfKind(items[1..], kind)
  }

  lemma {:induction false} SortedByKind(items: seq<Item>)
    requires AllFrames(items)
    ensures ToTelemetry(Deliveries(items)) == OfKind(items, TelemetryFrame)
    ensures ToStatus(Deliveries(items)) == OfKind(items, StatusFrame)
    ensures ToOther(Deliveries(items)) == OfKind(items, f => MessageFrame(f) && !StatusFrame(f))
  {
    hide IsFrame;
    if items != [] {
      var f := items[0].frame;
      SortedByKind(items[1..]);
      FramesOnWire(f);
      assert Deliveries(items)[1..] == Deliveries(items[1..]) && Deliveries(items)[0] == Dispatch(f);
    }
  }

  /**
    On a line of frames of at most 1024 bytes, however it is cut into reads of at most 1024: the
    telemetry callback gets exactly its telemetry frames, the status callback exactly its status
    frames, and the third one all others, each in order.
   */
  lemma CallbacksGetTheirs(items: seq<Item>, tail: seq<byte>, chunks: seq<seq<byte>>)
    requires AllFrames(items) && Noise(tail) && FramesAtMost(items, 1024) && ReadsAtMost(chunks, 1024)
    requires Concat(chunks) == Line(items, tail)
    ensures var (out, left) := Run([], chunks);
            && left == [] && ToTelemetry(out) == OfKind(items, TelemetryFrame)
            && ToStatus(out) == OfKind(items, StatusFrame)
            && ToOther(out) == OfKind(items, f => MessageFrame(f) && !StatusFrame(f))
  {
    hide Run, Noise, AllFrames, TelemetryFrame, StatusFrame, MessageFrame;
    EveryFrameArrives(items, tail, chunks);
    SortedByKind(items);
  }

  /** A header at `j` that is none: its length is refused, or its frame is there with another tail. */
  predicate FalseHeader(s: seq<byte>, j: nat) {
    && j + 4 <= |s|
    && if s[j + 1] == 0x93 then
         var n := if s[j + 2] == 0xA1 then 127 else 146;
         || s[j + 2] !in {0xA1, 0xB1, 0xB2} || s[j + 3] != n
         || (j + n + 6 <= |s| && !(s[j + n + 4] == 0x55 && s[j + n + 5] == 0x55))
       else
         var n := s[j + 2] as int * 0x100 + s[j + 3];
         n > 2042 || (j + n + 6 <= |s| && !(s[j + n + 4] == 0x55 && s[j + n + 5] == 0x55))
  }

  /** Garbage full of false headers costs nothing behind it: the pass comes to what follows. */
  lemma {:induction false} GarbageSkipped(s: seq<byte>, i: nat, p: nat)
    requires i <= p < |s| && HeaderAt(s, p)
    requires forall j :: i <= j < p && HeaderAt(s, j) ==> FalseHeader(s, j)
    ensures Scan(s, i) == Scan(s, p)
    decreases p - i
  {
    hide Scan, FalseHeader, HeaderAt;
    if i < p {
      GarbageSkipped(s, i + 1, p);
      if HeaderAt(s, i) {
        FalseHeaderSkipped(s, i);
      } else {
        SearchGoesOn(s, i);
      }
    }
  }

  lemma FalseHeaderSkipped(s: seq<byte>, j: nat)
    requires HeaderAt(s, j) && FalseHeader(s, j)
    ensures Scan(s, j) == Scan(s, j + 1)
  {
    FalseFrame(s, j);
    HeaderHere(s, j);
    hide FrameAt, HeaderPos, FalseHeader;
    assert TurnAt(s, j) == Skip(j + 1);
  }

  lemma FalseFrame(s: seq<byte>, j: nat)
    requires HeaderAt(s, j) && FalseHeader(s, j)
    ensures FrameAt(s, j) == Skip(j + 1)
  {
  }

  lemma SearchGoesOn(s: seq<byte>, i: nat)
    requires i + 1 < |s| && !HeaderAt(s, i)
    ensures Scan(s, i) == Scan(s, i + 1)
  {
    assert HeaderPos(s, i) == HeaderPos(s, i + 1);
  }
}
