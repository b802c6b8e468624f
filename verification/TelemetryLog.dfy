/**
  The telemetry log (telemetry_log.c): a bounded queue between the UART receive thread and a
  writer thread, and a file that is rotated by size. The critical sections of the two threads are
  the methods; between them anything may happen. A write succeeds as a whole or not at all.
 */
module TelemetryLog {
  import opened Bytes
  import UartFramer
  import DumpTelemetry

  const QUEUE_SLOTS := 32
  const SLOT_MAX := 160

  // ---------------------------------------------------------------- the queue

  /** The frames in a circular store, oldest first. */
  function Slots(ring: seq<seq<byte>>, head: nat, count: nat): (q: seq<seq<byte>>)
    requires |ring| == QUEUE_SLOTS
    ensures |q| == count
  {
    seq(count, k requires 0 <= k < count => ring[(head + k) % QUEUE_SLOTS])
  }

  lemma SlotsPut(ring: seq<seq<byte>>, head: nat, count: nat, f: seq<byte>)
    requires |ring| == QUEUE_SLOTS && head < QUEUE_SLOTS && count < QUEUE_SLOTS
    ensures Slots(ring[(head + count) % QUEUE_SLOTS := f], head, count + 1) == Slots(ring, head, count) + [f]
  {
    var before, after := Slots(ring, head, count), Slots(ring[(head + count) % QUEUE_SLOTS := f], head, count + 1);
    forall k | 0 <= k < count
      ensures after[k] == before[k]
    {
      assert (head + k) % QUEUE_SLOTS != (head + count) % QUEUE_SLOTS;
    }
    assert after == before + [f];
  }

  lemma SlotsTake(ring: seq<seq<byte>>, head: nat, count: nat)
    requires |ring| == QUEUE_SLOTS && head < QUEUE_SLOTS && 0 < count
    ensures Slots(ring, head, count) == [ring[head]] + Slots(ring, (head + 1) % QUEUE_SLOTS, count - 1)
  {
    var q, rest := Slots(ring, head, count), Slots(ring, (head + 1) % QUEUE_SLOTS, count - 1);
    forall k | 0 < k < count
      ensures q[k] == rest[k - 1]
    {
      assert (head + k) % QUEUE_SLOTS == ((head + 1) % QUEUE_SLOTS + (k - 1)) % QUEUE_SLOTS;
    }
    assert q == [ring[head]] + rest;
  }

  // ---------------------------------------------------------------- the rotated files

  type Frames = seq<seq<byte>>

  /** The frames of the backups, newest backup first in the list, oldest frame first in the result. */
  function Oldest(backups: seq<Frames>): Frames {
    if backups == [] then [] else Oldest(backups[1..]) + backups[0]
  }

  predicate SuffixOf<T(==)>(s: seq<T>, t: seq<T>) {
    |s| <= |t| && t[|t| - |s|..] == s
  }

  /** Dropping the oldest backups leaves a suffix of the history. */
  lemma {:induction false} NewestSuffix(backups: seq<Frames>, n: nat)
    requires n <= |backups|
    ensures SuffixOf(Oldest(backups[..n]), Oldest(backups))
    decreases n
  {
    if n == 0 {
      var all := Oldest(backups);
      assert all[|all|..] == [];
    } else {
      NewestSuffix(backups[1..], n - 1);
      assert backups[..n][1..] == backups[1..][..n - 1];
      SuffixAppend(Oldest(backups[1..][..n - 1]), Oldest(backups[1..]), backups[0]);
    }
  }

  lemma SuffixAppend<T>(s: seq<T>, t: seq<T>, u: seq<T>)
    requires SuffixOf(s, t)
    ensures SuffixOf(s + u, t + u)
  {
    var n := |t| - |s|;
    assert (t + u)[n..] == t[n..] + u;
  }

  lemma SuffixTransitive<T>(s: seq<T>, t: seq<T>, u: seq<T>)
    requires SuffixOf(s, t) && SuffixOf(t, u)
    ensures SuffixOf(s, u)
  {
    assert u[|u| - |s|..] == u[|u| - |t|..][|t| - |s|..];
  }

  /** A file that was closed before it could grow past the limit, or holds a single frame. */
  predicate Bounded(file: Frames, maxSize: nat) {
    |file| <= 1 || |Concat(file)| < maxSize
  }

  /** The decoder returns exactly these frames for the file, and no error. */
  predicate Decodes(file: seq<byte>, frames: Frames) {
    && DumpTelemetry.AllTelemetry(frames)
    && DumpTelemetry.ParseFrom(file, 0) == DumpTelemetry.Decoded(DumpTelemetry.Entries(frames, 0), [])
  }

  datatype History = History(current: Frames, backups: seq<Frames>)

  /** The current file becomes the newest backup; only the oldest backup may go. */
  function Rotated(h: History, depth: nat): History {
    History([], ([h.current] + h.backups)[..Min(depth, |h.backups| + 1)])
  }

  function Appended(h: History, f: seq<byte>): History {
    h.(current := h.current + [f])
  }

  /** The frames of files in the order in which they were closed. */
  function Flat(files: seq<Frames>): Frames {
    if files == [] then [] else Flat(files[..|files| - 1]) + files[|files| - 1]
  }

  /** The backups, newest first, are the files closed last, as many as there is room for. */
  predicate LastClosed(backups: seq<Frames>, closed: seq<Frames>, depth: nat) {
    && |backups| == Min(depth, |closed|)
    && forall i :: 0 <= i < |backups| ==> backups[i] == closed[|closed| - 1 - i]
  }

  lemma FileClosed(backups: seq<Frames>, closed: seq<Frames>, depth: nat, file: Frames)
    requires LastClosed(backups, closed, depth) && depth > 0
    ensures LastClosed(([file] + backups)[..Min(depth, |backups| + 1)], closed + [file], depth)
    ensures Flat(closed + [file]) + [] == Flat(closed) + file
  {
    assert (closed + [file])[..|closed|] == closed;
    assert Flat(closed + [file]) + [] == Flat(closed + [file]);
  }

  lemma NewestFirst(backups: seq<Frames>, closed: seq<Frames>)
    requires backups != [] && closed != []
    ensures Oldest(backups) == Oldest(backups[1..]) + backups[0]
    ensures Flat(closed) == Flat(closed[..|closed| - 1]) + closed[|closed| - 1]
  {
  }

  lemma {:induction false} OldestOfClosed(backups: seq<Frames>, closed: seq<Frames>, depth: nat)
    requires LastClosed(backups, closed, depth)
    ensures Flat(closed) == Flat(closed[..|closed| - |backups|]) + Oldest(backups)
    decreases |backups|
  {
    if backups == [] {
      assert closed[..|closed|] == closed;
      assert Oldest(backups) == [] && Flat(closed) + [] == Flat(closed);
    } else {
      hide Flat, Oldest;
      var n := |closed| - 1;
      OldestOfClosed(backups[1..], closed[..n], |backups| - 1);
      assert closed[..n][..n - |backups[1..]|] == closed[..|closed| - |backups|];
      NewestFirst(backups, closed);
      Assoc(Flat(closed[..|closed| - |backups|]), Oldest(backups[1..]), backups[0]);
    }
  }

  /** Writing a frame: at most one rotation before it, and at most one after a failed attempt. */
  function Stored(h: History, bytes: nat, f: seq<byte>, maxSize: nat, depth: nat, first: bool, second: bool): History {
    var room := if bytes + |f| >= maxSize then Rotated(h, depth) else h;
    if first then Appended(room, f)
    else if second then Appended(Rotated(room, depth), f)
    else Rotated(room, depth)
  }

  class Log {
    // ---- the queue, under g_tel_queue_mutex
    const ring: array<seq<byte>>
    var head: nat
    var tail: nat
    var count: nat
    var dropped: nat
    var stopping: bool

    // ---- the files, under g_tel_file_mutex; backups[i] is the file with suffix .i
    const maxSize: nat
    const maxBackups: nat
    var current: seq<byte>
    var backups: map<nat, seq<byte>>
    var bytes: nat

    // ---- the writer thread's copy of the slot it took out
    var slot: seq<seq<byte>>

    // ---- history
    ghost var offered: nat
    ghost var accepted: Frames
    ghost var handled: Frames
    ghost var written: Frames
    ghost var inCurrent: Frames
    ghost var inBackups: seq<Frames>
    /** Every file that a rotation has closed, oldest first. */
    ghost var closed: seq<Frames>

    ghost function Queue(): Frames
      requires ring.Length == QUEUE_SLOTS
      reads this, ring
    {
      Slots(ring[..], head, count)
    }

    function Depth(): nat {
      if maxBackups > 0 then maxBackups else 1
    }

    ghost predicate QueueValid()
      reads this, ring
    {
      && ring.Length == QUEUE_SLOTS && head < QUEUE_SLOTS && count <= QUEUE_SLOTS
      && tail == (head + count) % QUEUE_SLOTS
      && |slot| <= 1 && maxSize > 0
    }

    /** Every frame offered before the stop is accounted for, and nothing is reordered. */
    ghost predicate Accounted()
      requires ring.Length == QUEUE_SLOTS
      reads this, ring
    {
      && accepted == handled + slot + Queue()
      && offered == |accepted| + dropped
      && |written| <= |handled| && (|written| == |handled| ==> written == handled)
      && (forall f :: f in written ==> f in accepted)
    }

    /** The frames of the current file and of the backups, newest backup first. */
    ghost function Files(): History
      reads this
    {
      History(inCurrent, inBackups)
    }

    ghost predicate FilesValid()
      reads this
    {
      && bytes == |current| && current == Concat(inCurrent) && Bounded(inCurrent, maxSize)
      && |inBackups| <= Depth()
      && (forall i :: i in backups <==> 1 <= i <= |inBackups|)
      && (forall i :: 1 <= i <= |inBackups| ==> backups[i] == Concat(inBackups[i - 1]))
      && (forall i :: 0 <= i < |inBackups| ==> Bounded(inBackups[i], maxSize))
      && SuffixOf(Oldest(inBackups) + inCurrent, written)
      && LastClosed(inBackups, closed, Depth()) && written == Flat(closed) + inCurrent
    }

    ghost predicate Valid()
      reads this, ring
    {
      QueueValid() && Accounted() && FilesValid()
    }

    /** telemetry_log_init on a fresh path. */
    constructor (maxSize: nat, maxBackups: nat)
      requires maxSize > 0
      ensures Valid() && fresh(ring) && !stopping
      ensures accepted == written == [] && current == [] && backups == map[]
    {
      this.maxSize, this.maxBackups := maxSize, maxBackups;
      ring := new seq<byte>[QUEUE_SLOTS];
      head, tail, count, dropped, stopping := 0, 0, 0, 0, false;
      current, backups, bytes, slot := [], map[], 0, [];
      offered, accepted, handled, written, inCurrent, inBackups, closed := 0, [], [], [], [], [], [];
    }

    /** telemetry_log_on_frame: copy in, or drop; never waits. */
    method OnFrame(frame: seq<byte>)
      requires Valid()
      modifies `tail, `count, `dropped, `offered, `accepted, ring
      ensures Valid()
      ensures var taken := 0 < |frame| <= SLOT_MAX && !stopping;
              if !taken then offered == old(offered) && accepted == old(accepted) && dropped == old(dropped)
              else if old(count) == QUEUE_SLOTS then
                offered == old(offered) + 1 && accepted == old(accepted) && dropped == old(dropped) + 1
              else offered == old(offered) + 1 && accepted == old(accepted) + [frame] && dropped == old(dropped)
    {
      hide Slots, Oldest, Concat, Bounded, SuffixOf, Flat, LastClosed;
      if |frame| == 0 || |frame| > SLOT_MAX || stopping {
        return;
      }
      offered := offered + 1;
      if count >= QUEUE_SLOTS {
        dropped := dropped + 1;
        return;
      }
      Enqueue(frame);
    }

    /** The copy into the slot at g_tel_tail. */
    method Enqueue(frame: seq<byte>)
      requires QueueValid() && count < QUEUE_SLOTS
      requires accepted == handled + slot + Queue()
      modifies `tail, `count, `accepted, ring
      ensures QueueValid() && accepted == old(accepted) + [frame]
      ensures accepted == handled + slot + Queue() && count == old(count) + 1
    {
      hide Slots;
      ghost var was := ring[..];
      SlotsPut(was, head, count, frame);
      ring[tail] := frame;
      assert ring[..] == was[tail := frame];
      Assoc(handled + slot, Slots(was, head, count), [frame]);
      tail := (tail + 1) % QUEUE_SLOTS;
      count := count + 1;
      accepted := accepted + [frame];
    }

    /** The writer's first critical section: take the oldest frame; false when told to stop. */
    method Take() returns (more: bool)
      requires Valid() && slot == [] && (count > 0 || stopping)
      modifies `head, `count, `slot
      ensures Valid() && more == (old(count) > 0) && |slot| == (if more then 1 else 0)
      ensures !more ==> handled == accepted
      ensures more ==> slot + Queue() == old(Queue())
    {
      hide Slots, Oldest, Concat, Bounded, SuffixOf, Flat, LastClosed;
      if count == 0 {
        assert handled + [] + Queue() == handled;
        return false;
      }
      SlotsTake(ring[..], head, count);
      slot := [ring[head]];
      head := (head + 1) % QUEUE_SLOTS;
      count := count - 1;
      Assoc(handled, slot, Queue());
      assert handled + [] == handled;
      return true;
    }

    /** tel_rotate_locked */
    method Rotate()
      requires FilesValid()
      modifies `current, `backups, `bytes, `inCurrent, `inBackups, `closed
      ensures FilesValid() && bytes == 0
      ensures Files() == Rotated(old(Files()), Depth())
      ensures closed == old(closed) + [old(inCurrent)]
      // the closed file is backup 1, each other backup moves up by one, and only the one at the depth goes
      ensures current == [] && 1 in backups && backups[1] == old(current)
      ensures forall i :: 1 <= i < Depth() ==>
                (i + 1 in backups <==> i in old(backups)) && (i in old(backups) ==> backups[i + 1] == old(backups)[i])
    {
      hide Oldest, Concat, SuffixOf, Bounded, Flat, LastClosed;
      FileClosed(inBackups, closed, Depth(), inCurrent);
      ghost var all := [inCurrent] + inBackups;
      ghost var keep := Min(Depth(), |all|);
      MoveFiles();
      RotateHistory(inBackups, inCurrent, keep, written);
      EmptyFile(maxSize);
      closed := closed + [inCurrent];
      inCurrent, inBackups := [], all[..keep];
    }

    /** The files themselves: shift the backups, rename the current file, begin a new one. */
    method MoveFiles()
      requires FilesValid()
      modifies `current, `backups, `bytes
      ensures current == [] && bytes == 0 && 1 in backups && backups[1] == old(current)
      ensures forall i :: 1 <= i < Depth() ==>
                (i + 1 in backups <==> i in old(backups)) && (i in old(backups) ==> backups[i + 1] == old(backups)[i])
      ensures var all := [inCurrent] + inBackups;
              && (forall i :: i in backups <==> 1 <= i <= Min(Depth(), |all|))
              && (forall i :: i in backups ==> backups[i] == Concat(all[i - 1]))
    {
      hide Oldest, Concat, SuffixOf, Bounded, Flat, LastClosed;
      ghost var was := backups;
      ShiftBackups();
      RotatedFiles(was, backups, current, inBackups, inCurrent, maxBackups);
      MovedUp(was, backups[1 := current], inBackups, inCurrent, Depth());
      backups := backups[1 := current];
      current, bytes := [], 0;
    }

    /** The writer's second critical section: rotate if the frame would reach the limit, and write it. */
    method WriteOut(first: bool, second: bool)
      requires Valid() && |slot| == 1
      modifies `slot, `handled, `written, `current, `backups, `bytes, `inCurrent, `inBackups, `closed
      ensures Valid() && slot == [] && handled == old(handled) + old(slot)
      ensures Files() == Stored(old(Files()), old(bytes), old(slot)[0], maxSize, Depth(), first, second)
      ensures written == if first || second then old(written) + old(slot) else old(written)
    {
      hide Slots, Oldest, Concat, SuffixOf, Bounded, Flat, LastClosed;
      var f := slot[0];
      assert slot == [f];
      assert f in accepted;
      ToFile(f, first, second);
      handled := handled + [f];
      slot := [];
      assert handled + [] == handled;
    }

    /** The work under the file lock: make room, write, and after a failed write rotate and retry once. */
    method ToFile(f: seq<byte>, first: bool, second: bool)
      requires FilesValid()
      modifies `written, `current, `backups, `bytes, `inCurrent, `inBackups, `closed
      ensures FilesValid() && written == if first || second then old(written) + [f] else old(written)
      ensures Files() == Stored(old(Files()), old(bytes), f, maxSize, Depth(), first, second)
      // one file is closed when the frame would reach the limit, and one more when its first write fails
      ensures old(closed) <= closed
      ensures |closed| == |old(closed)| + (if old(bytes) + |f| >= maxSize then 1 else 0) + if first then 0 else 1
    {
      hide Oldest, Concat, SuffixOf, Bounded, Flat, LastClosed;
      if bytes + |f| >= maxSize {
        Rotate();
      }
      if first {
        Write(f);
      } else {
        Rotate();
        if second {
          Write(f);
        }
      }
    }

    /** fwrite of a whole frame */
    method Write(f: seq<byte>)
      requires FilesValid() && (inCurrent == [] || bytes + |f| < maxSize)
      modifies `written, `current, `bytes, `inCurrent
      ensures FilesValid() && written == old(written) + [f]
      ensures Files() == Appended(old(Files()), f)
    {
      hide Oldest, Flat;
      Assoc(Flat(closed), inCurrent, [f]);
      ConcatSplit(inCurrent, [f]);
      assert Concat([f]) == f + Concat([]) == f;
      SuffixAppend(Oldest(inBackups) + inCurrent, written, [f]);
      Assoc(Oldest(inBackups), inCurrent, [f]);
      current := current + f;
      bytes := bytes + |f|;
      inCurrent := inCurrent + [f];
      written := written + [f];
    }

    /** telemetry_log_destroy raises the flag ... */
    method Stop()
      requires Valid()
      modifies `stopping
      ensures Valid() && stopping
    {
      stopping := true;
    }

    /** ... and the writer thread leaves only when every accepted frame has been handled. */
    method Drain(writes: nat -> (bool, bool))
      requires Valid() && stopping && slot == []
      modifies `head, `count, `slot, `handled, `written, `current, `backups, `bytes, `inCurrent, `inBackups, `closed
      ensures Valid() && count == 0 && handled == accepted
      ensures old(written) == old(handled) && (forall n :: writes(n).0 || writes(n).1) ==> written == accepted
    {
      hide Slots, Oldest, Concat, SuffixOf, Bounded, Flat, LastClosed;
      var turn := 0;
      while true
        invariant Valid() && slot == [] && stopping && accepted == old(accepted)
        invariant old(written) == old(handled) && (forall n :: writes(n).0 || writes(n).1) ==> written == handled
        decreases count
      {
        var more := Take();
        if !more {
          return;
        }
        WriteOut(writes(turn).0, writes(turn).1);
        turn := turn + 1;
      }
    }

    /** telemetry_log_snapshot copies the current file while nothing can be written to it. */
    method Snapshot() returns (copy: seq<byte>)
      requires Valid()
      ensures copy == Concat(inCurrent) && SuffixOf(inCurrent, written)
    {
      SuffixOfParts(Oldest(inBackups), inCurrent, written);
      copy := current;
    }

    /** Every frame offered has been handled, is in the writer's hand, is queued, or was dropped. */
    lemma Conservation()
      requires Valid()
      ensures offered == |handled| + |slot| + count + dropped
      ensures |written| <= |handled| && (|written| == |handled| ==> written == handled == accepted[..|written|])
    {
    }

    /**
      When every frame accepted is a telemetry frame, every file on disk is a sequence of whole
      frames that the offline decoder returns without a single error, and the files from the
      oldest backup to the current one are the latest part of what was written.
     */
    lemma FilesDecode()
      requires Valid() && forall f :: f in accepted ==> DumpTelemetry.IsTelemetry(f)
      ensures SuffixOf(Oldest(inBackups) + inCurrent, written)
      ensures Decodes(current, inCurrent)
      ensures forall i :: i in backups ==> 1 <= i <= |inBackups| && Decodes(backups[i], inBackups[i - 1])
    {
      hide Slots, DumpTelemetry.IsTelemetry, Oldest, SuffixOf, Bounded, Concat, DumpTelemetry.ParseFrom;
      HistoryTelemetry(inBackups, inCurrent, written);
      DumpTelemetry.FileDecodes(inCurrent);
      forall i | i in backups
        ensures Decodes(backups[i], inBackups[i - 1])
      {
        DumpTelemetry.FileDecodes(inBackups[i - 1]);
      }
    }

    /**
      The backups are the files closed last, by number, and together with the current file they hold
      every frame written but those of files that Depth() later rotations have pushed out: none while
      no more than Depth() files have been closed.
     */
    lemma OnlyPushedOutLost()
      requires Valid()
      ensures forall i :: 1 <= i <= Depth() && i <= |closed| ==>
                i in backups && backups[i] == Concat(closed[|closed| - i])
      ensures |closed| >= Depth() ==>
                written == Flat(closed[..|closed| - Depth()]) + (Oldest(inBackups) + inCurrent)
      ensures |closed| <= Depth() ==> written == Oldest(inBackups) + inCurrent
    {
      hide Slots, Oldest, SuffixOf, Bounded, Concat, Flat;
      OldestOfClosed(inBackups, closed, Depth());
      Assoc(Flat(closed[..|closed| - |inBackups|]), Oldest(inBackups), inCurrent);
      if |closed| <= Depth() {
        assert closed[..0] == [];
        FlatOfNone(Oldest(inBackups) + inCurrent);
      }
    }

    /** unlink the oldest backup and rename the others one number up */
    method ShiftBackups()
      requires forall i :: i in backups ==> 1 <= i <= Depth()
      modifies `backups
      ensures maxBackups > 0 ==>
                forall j :: Get(backups, j) == if 2 <= j <= maxBackups then Get(old(backups), j - 1) else Missing
      ensures maxBackups == 0 ==> backups == old(backups)
    {
      if maxBackups > 0 {
        backups := backups - {maxBackups};
      }
      var i: int := maxBackups - 1;
      ghost var was := old(backups);
      assert maxBackups > 0 ==> forall j :: Get(backups, j) == if 1 <= j <= i then Get(was, j) else Missing by {
        if maxBackups > 0 {
          forall j
            ensures Get(backups, j) == if 1 <= j <= i then Get(was, j) else Missing
          {
            assert j >= 0 && j as nat in was ==> 1 <= j <= maxBackups;
          }
        }
      }
      while i >= 1
        invariant maxBackups == 0 ==> i == -1 && backups == was
        invariant maxBackups > 0 ==> 0 <= i < maxBackups
        invariant maxBackups > 0 ==> forall j :: Get(backups, j) == Shifted(was, i, maxBackups, j)
      {
        assert Get(backups, i) == Get(was, i);
        ghost var before := backups;
        if i in backups {
          backups := backups[i + 1 := backups[i]] - {i};
        }
        forall j
          ensures Get(backups, j) == Shifted(was, i - 1, maxBackups, j)
        {
          assert Get(before, j) == Shifted(was, i, maxBackups, j);
        }
        i := i - 1;
      }
    }
  }

  /** Where backup `j` comes from when those above `i` have been moved up one number. */
  function Shifted(was: map<nat, seq<byte>>, i: int, max: nat, j: int): Lookup {
    if 1 <= j <= i then Get(was, j)
    else if i + 2 <= j <= max then Get(was, j - 1)
    else Missing
  }

  datatype Lookup = Missing | File(bytes: seq<byte>)

  function Get(m: map<nat, seq<byte>>, i: int): Lookup {
    if i >= 0 && i in m then File(m[i]) else Missing
  }

  /** The files are the old ones moved up one number, the closed one first, cut at the depth. */
  lemma RotatedFiles(was: map<nat, seq<byte>>, mid: map<nat, seq<byte>>, closed: seq<byte>,
                     backups: seq<Frames>, current: Frames, max: nat)
    requires |backups| <= (if max > 0 then max else 1)
    requires forall i :: i in was <==> 1 <= i <= |backups|
    requires forall i :: 1 <= i <= |backups| ==> was[i] == Concat(backups[i - 1])
    requires closed == Concat(current)
    requires if max > 0 then forall j :: Get(mid, j) == if 2 <= j <= max then Get(was, j - 1) else Missing
               else mid == was
    ensures var all := [current] + backups;
            var now := mid[1 := closed];
            && (forall i :: i in now <==> 1 <= i <= Min(if max > 0 then max else 1, |all|))
            && (forall i :: i in now ==> now[i] == Concat(all[i - 1]))
  {
    hide Concat;
    var all, now := [current] + backups, mid[1 := closed];
    forall i: nat
      ensures i in now <==> 1 <= i <= Min(if max > 0 then max else 1, |all|)
      ensures i in now ==> now[i] == Concat(all[i - 1])
    {
      if max > 0 {
        assert Get(mid, i) == if 2 <= i <= max then Get(was, i - 1) else Missing;
      }
    }
  }

  /** ... so each old backup below the depth is there still, under the next number. */
  lemma MovedUp(was: map<nat, seq<byte>>, now: map<nat, seq<byte>>, backups: seq<Frames>, current: Frames, depth: nat)
    requires |backups| <= depth
    requires forall i :: i in was <==> 1 <= i <= |backups|
    requires forall i :: 1 <= i <= |backups| ==> was[i] == Concat(backups[i - 1])
    requires forall i :: i in now <==> 1 <= i <= Min(depth, |backups| + 1)
    requires forall i :: i in now ==> 1 <= i <= |backups| + 1 && now[i] == Concat(([current] + backups)[i - 1])
    ensures forall i :: 1 <= i < depth ==> (i + 1 in now <==> i in was) && (i in was ==> now[i + 1] == was[i])
  {
    hide Concat;
    forall i | 1 <= i < depth
      ensures (i + 1 in now <==> i in was) && (i in was ==> now[i + 1] == was[i])
    {
      if i in was {
        assert ([current] + backups)[i + 1 - 1] == backups[i - 1];
      }
    }
  }

  lemma FlatOfNone(s: Frames)
    ensures Flat([]) + s == s
  {
  }

  lemma EmptyFile(maxSize: nat)
    ensures Concat([]) == [] && Bounded([], maxSize)
  {
  }

  lemma SuffixOfParts<T>(a: seq<T>, b: seq<T>, t: seq<T>)
    requires SuffixOf(a + b, t)
    ensures SuffixOf(b, t)
  {
    assert t[|t| - |a + b|..][|a|..] == b;
  }

  lemma {:induction false} InOldest(backups: seq<Frames>, i: nat, f: seq<byte>)
    requires i < |backups| && f in backups[i]
    ensures f in Oldest(backups)
  {
    if i > 0 {
      InOldest(backups[1..], i - 1, f);
    }
  }

  lemma HistoryTelemetry(backups: seq<Frames>, current: Frames, written: Frames)
    requires SuffixOf(Oldest(backups) + current, written)
    requires forall f :: f in written ==> DumpTelemetry.IsTelemetry(f)
    ensures DumpTelemetry.AllTelemetry(current)
    ensures forall i :: 0 <= i < |backups| ==> DumpTelemetry.AllTelemetry(backups[i])
  {
    hide DumpTelemetry.IsTelemetry;
    var history := Oldest(backups) + current;
    forall f | f in history
      ensures f in written
    {
      assert f in written[|written| - |history|..];
    }
    forall i | 0 <= i < |backups|
      ensures DumpTelemetry.AllTelemetry(backups[i])
    {
      forall f | f in backups[i]
        ensures f in history
      {
        InOldest(backups, i, f);
      }
    }
  }

  /** What the framing loop hands to the telemetry callback is what the decoder accepts. */
  lemma FramerFeedsTelemetry(s: seq<byte>, k: nat)
    requires k < |UartFramer.Scan(s, 0).out| && UartFramer.Scan(s, 0).out[k].Telemetry?
    ensures var f := UartFramer.Scan(s, 0).out[k].frame;
            DumpTelemetry.IsTelemetry(f) && 0 < |f| <= SLOT_MAX
  {
    hide UartFramer.Scan;
    UartFramer.DeliveredAreFrames(s, 0, k);
  }

  lemma RotateHistory(backups: seq<Frames>, current: Frames, keep: nat, written: Frames)
    requires SuffixOf(Oldest(backups) + current, written) && keep <= |backups| + 1
    ensures SuffixOf(Oldest(([current] + backups)[..keep]) + [], written)
  {
    var all := [current] + backups;
    assert all[1..] == backups;
    NewestSuffix(all, keep);
    SuffixTransitive(Oldest(all[..keep]), Oldest(all), written);
    assert Oldest(all[..keep]) + [] == Oldest(all[..keep]);
  }
}
