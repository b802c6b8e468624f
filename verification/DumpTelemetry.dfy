/** The offline decoder of the telemetry file (tools/dump_telemetry.py). */
module DumpTelemetry {
  import opened Bytes
  import UartFramer

  datatype Frame = Frame(offset: nat, src: byte, len: byte, bytes: seq<byte>)

  datatype Fault = NotHeader | HalfHeader | NoLength | Incomplete | BadTail | UnknownSource | WrongLength

  datatype Error = Error(offset: nat, fault: Fault)

  datatype Decoded = Decoded(frames: seq<Frame>, errors: seq<Error>)

  /** SRC_LEN.get(src), 0 for a source that is not listed. */
  function SrcLen(src: byte): nat {
    if src == 0xA1 then 127 else if src == 0xB1 then 146 else if src == 0xB2 then 146 else 0
  }

  /** The remarks on a frame whose source or length the receiver would not have let pass. */
  function Remarks(i: nat, src: byte, len: byte): seq<Error> {
    if SrcLen(src) == 0 then [Error(i, UnknownSource)]
    else if SrcLen(src) != len then [Error(i, WrongLength)]
    else []
  }

  predicate Header(data: seq<byte>, i: nat) {
    i + 2 <= |data| && data[i] == 0xEB && data[i + 1] == 0x93
  }

  /** What one turn of the loop appends to the two lists, and where it goes on. */
  datatype Turn =
    | Stop(error: Error)
    | Go(frames: seq<Frame>, errors: seq<Error>, next: nat)

  function TurnAt(data: seq<byte>, i: nat): (t: Turn)
    requires i < |data|
    ensures t.Go? ==> i < t.next <= |data|
  {
    var n := |data|;
    if !Header(data, i) then
      if data[i] == 0xEB && i + 1 >= n then Stop(Error(i, HalfHeader))
      else Go([], [Error(i, NotHeader)], i + 1)
    else if i + 4 > n then Stop(Error(i, NoLength))
    else
      var src, len := data[i + 2], data[i + 3];
      var end := i + 6 + len;
      if end > n then Stop(Error(i, Incomplete))
      else if !(data[end - 2] == 0x55 && data[end - 1] == 0x55) then Go([], [Error(i, BadTail)], i + 1)
      else Go([Frame(i, src, len, data[i..end])], Remarks(i, src, len), end)
  }

  function Cons(frames: seq<Frame>, errors: seq<Error>, rest: Decoded): Decoded {
    Decoded(frames + rest.frames, errors + rest.errors)
  }

  /** What the loop yields from index `i` on. */
  function ParseFrom(data: seq<byte>, i: nat): Decoded
    requires i <= |data|
    decreases |data| - i
  {
    if i == |data| then Decoded([], [])
    else match TurnAt(data, i)
      case Stop(error) => Decoded([], [error])
      case Go(frames, errors, next) => Cons(frames, errors, ParseFrom(data, next))
  }

  /** parse(data) */
  method Parse(data: seq<byte>) returns (frames: seq<Frame>, errors: seq<Error>)
    ensures Decoded(frames, errors) == ParseFrom(data, 0)
  {
    hide TurnAt, Cons;
    frames, errors := [], [];
    var i, n := 0, |data|;
    NothingYet(ParseFrom(data, 0));
    while i < n
      invariant i <= n
      invariant ParseFrom(data, 0) == Cons(frames, errors, ParseFrom(data, i))
      decreases n - i
    {
      var t := ParseTurn(data, i);
      match t
      case Stop(error) =>
        ConsLast(frames, errors, error);
        errors := errors + [error];
        return;
      case Go(more, remarks, next) =>
        ConsCons(frames, errors, more, remarks, ParseFrom(data, next));
        frames, errors, i := frames + more, errors + remarks, next;
    }
    ConsNothing(frames, errors);
  }

  /** The body of the loop: a frame, a fault that costs one byte, or a fault that ends the file. */
  method ParseTurn(data: seq<byte>, i: nat) returns (t: Turn)
    requires i < |data|
    ensures t == TurnAt(data, i)
  {
    var n := |data|;
    if !Header(data, i) {
      if data[i] == 0xEB && i + 1 >= n {
        return Stop(Error(i, HalfHeader));
      }
      return Go([], [Error(i, NotHeader)], i + 1);
    }
    if i + 4 > n {
      return Stop(Error(i, NoLength));
    }
    var src, len := data[i + 2], data[i + 3];
    var total := 6 + len as nat;
    if i + total > n {
      return Stop(Error(i, Incomplete));
    }
    if data[i + total - 2] != 0x55 || data[i + total - 1] != 0x55 {
      return Go([], [Error(i, BadTail)], i + 1);
    }
    var remarks := [];
    if SrcLen(src) == 0 {
      remarks := [Error(i, UnknownSource)];
    } else if SrcLen(src) != len {
      remarks := [Error(i, WrongLength)];
    }
    t := Go([Frame(i, src, len, data[i..i + total])], remarks, i + total);
  }

  lemma NothingYet(d: Decoded)
    ensures d == Cons([], [], d)
  {
  }

  lemma ConsNothing(frames: seq<Frame>, errors: seq<Error>)
    ensures Cons(frames, errors, Decoded([], [])) == Decoded(frames, errors)
  {
  }

  lemma ConsLast(frames: seq<Frame>, errors: seq<Error>, error: Error)
    ensures Cons(frames, errors, Decoded([], [error])) == Decoded(frames, errors + [error])
  {
  }

  lemma ConsCons(f1: seq<Frame>, e1: seq<Error>, f2: seq<Frame>, e2: seq<Error>, d: Decoded)
    ensures Cons(f1, e1, Cons(f2, e2, d)) == Cons(f1 + f2, e1 + e2, d)
  {
    Assoc(f1, f2, d.frames);
    Assoc(e1, e2, d.errors);
  }

  /** A telemetry frame as the receiver's framing loop lets it through. */
  predicate IsTelemetry(f: seq<byte>) {
    UartFramer.IsFrame(f) && f[1] == 0x93
  }

  predicate AllTelemetry(fs: seq<seq<byte>>) {
    forall k :: 0 <= k < |fs| ==> IsTelemetry(fs[k])
  }

  /** The entries of a file that holds these frames from offset `at` on. */
  function Entries(fs: seq<seq<byte>>, at: nat): seq<Frame>
    requires AllTelemetry(fs)
  {
    if fs == [] then []
    else [Frame(at, fs[0][2], fs[0][3], fs[0])] + Entries(fs[1..], at + |fs[0]|)
  }

  /** One frame in its place is decoded without a remark. */
  lemma FrameDecodes(data: seq<byte>, i: nat, f: seq<byte>)
    requires Holds(data, i, f) && IsTelemetry(f)
    ensures ParseFrom(data, i) == Cons([Frame(i, f[2], f[3], f)], [], ParseFrom(data, i + |f|))
  {
    assert data[i + 0] == f[0] && data[i + 1] == f[1] && data[i + 2] == f[2] && data[i + 3] == f[3];
    assert data[i + (|f| - 2)] == f[|f| - 2] && data[i + (|f| - 1)] == f[|f| - 1];
    assert data[i..i + |f|] == f;
  }

  lemma {:induction false} FramesDecode(data: seq<byte>, i: nat, fs: seq<seq<byte>>)
    requires AllTelemetry(fs) && Holds(data, i, Concat(fs)) && i + |Concat(fs)| == |data|
    ensures ParseFrom(data, i) == Decoded(Entries(fs, i), [])
    decreases |fs|
  {
    hide Holds, IsTelemetry;
    if fs != [] {
      HoldsSplit(data, i, fs[0], Concat(fs[1..]));
      FrameDecodes(data, i, fs[0]);
      FramesDecode(data, i + |fs[0]|, fs[1..]);
    }
  }

  /** A file of telemetry frames laid end to end decodes to exactly those frames, with no error. */
  lemma FileDecodes(fs: seq<seq<byte>>)
    requires AllTelemetry(fs)
    ensures ParseFrom(Concat(fs), 0) == Decoded(Entries(fs, 0), [])
  {
    FramesDecode(Concat(fs), 0, fs);
  }

  // ---------------------------------------------------------------- any file

  /** EB 93 and a tail where the length byte says. */
  predicate FrameAt(data: seq<byte>, i: nat) {
    && i + 6 <= |data| && data[i] == 0xEB && data[i + 1] == 0x93
    && i + 6 + data[i + 3] as int <= |data|
    && data[i + 4 + data[i + 3] as int] == 0x55 && data[i + 5 + data[i + 3] as int] == 0x55
  }

  /** Whatever a file holds, every frame found is there, at its offset, and behind the one before it. */
  lemma {:induction false} FramesAreThere(data: seq<byte>, i: nat, k: nat)
    requires i <= |data| && k < |ParseFrom(data, i).frames|
    ensures var f := ParseFrom(data, i).frames[k];
            && i <= f.offset && FrameAt(data, f.offset)
            && f == Frame(f.offset, data[f.offset + 2], data[f.offset + 3],
                          data[f.offset..f.offset + 6 + data[f.offset + 3] as int])
            && (k + 1 < |ParseFrom(data, i).frames| ==>
                  f.offset + |f.bytes| <= ParseFrom(data, i).frames[k + 1].offset)
    decreases |data| - i
  {
    hide FrameAt;
    if TurnAt(data, i).Go? {
      var t := TurnAt(data, i);
      TurnFrames(data, i);
      if k < |t.frames| {
        if k + 1 < |ParseFrom(data, i).frames| {
          FramesAreThere(data, t.next, 0);
        }
      } else {
        FramesAreThere(data, t.next, k - |t.frames|);
      }
    }
  }

  lemma TurnFrames(data: seq<byte>, i: nat)
    requires i < |data| && TurnAt(data, i).Go?
    ensures var t := TurnAt(data, i);
            && |t.frames| <= 1
            && (t.frames != [] ==>
                  && FrameAt(data, i) && t.next == i + |t.frames[0].bytes|
                  && t.frames[0] == Frame(i, data[i + 2], data[i + 3], data[i..i + 6 + data[i + 3] as int]))
  {
  }

  /** A byte at which no frame can start, and a frame with another tail, cost one byte and are reported. */
  lemma FaultCostsByte(data: seq<byte>, i: nat)
    requires i + 1 < |data|
    ensures data[i] != 0xEB || data[i + 1] != 0x93 ==>
              ParseFrom(data, i) == Cons([], [Error(i, NotHeader)], ParseFrom(data, i + 1))
    ensures data[i] == 0xEB && data[i + 1] == 0x93 && i + 6 <= |data|
            && i + 6 + data[i + 3] as int <= |data| && !FrameAt(data, i) ==>
              ParseFrom(data, i) == Cons([], [Error(i, BadTail)], ParseFrom(data, i + 1))
  {
  }

  /** What is cut off at the end of the file is reported, and nothing is made of it. */
  lemma EndReported(data: seq<byte>, i: nat)
    requires i < |data|
    ensures i + 1 == |data| && data[i] == 0xEB ==> ParseFrom(data, i) == Decoded([], [Error(i, HalfHeader)])
    ensures 2 <= |data| - i < 4 && data[i] == 0xEB && data[i + 1] == 0x93 ==>
              ParseFrom(data, i) == Decoded([], [Error(i, NoLength)])
    ensures 4 <= |data| - i && data[i] == 0xEB && data[i + 1] == 0x93 && i + 6 + data[i + 3] as int > |data| ==>
              ParseFrom(data, i) == Decoded([], [Error(i, Incomplete)])
  {
  }

  /** A frame of a source or a length the receiver would not have let pass is returned with a remark. */
  lemma FrameReturned(data: seq<byte>, i: nat)
    requires FrameAt(data, i)
    ensures var src, len := data[i + 2], data[i + 3];
            var end := i + 6 + len as int;
            var known := src in {0xA1, 0xB1, 0xB2};
            var right := if src == 0xA1 then len == 127 else len == 146;
            ParseFrom(data, i) ==
              Cons([Frame(i, src, len, data[i..end])],
                   if !known then [Error(i, UnknownSource)] else if !right then [Error(i, WrongLength)] else [],
                   ParseFrom(data, end))
  {
  }
}
