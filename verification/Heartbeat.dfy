/**
  The base station's heartbeat (heartbeat.c) and the part of the main loop that acts on its loss.
  Times are whole seconds, as time() gives them.
 */
module Heartbeat {
  import opened Bytes
  import opened Options
  import TxGate

  const HEARTBEAT_INTERVAL_SEC := 3
  const HEARTBEAT_TIMEOUT_COUNT := 20

  /** heartbeat_enabled, bbu_heartbeat_miss_count, last_bbu_heartbeat_time */
  datatype State = State(enabled: bool, miss: u32, last: int)

  datatype Checked = Checked(state: State, timeout: bool)

  /** heartbeat_check_timeout as a function of the state and the clock. */
  function Check(s: State, now: int): Checked {
    if !s.enabled || now - s.last < HEARTBEAT_INTERVAL_SEC then Checked(s, false)
    else
      var miss: u32 := (s.miss + 1) % 0x1_0000_0000;
      if miss >= HEARTBEAT_TIMEOUT_COUNT then Checked(s.(miss := miss), true)
      else Checked(State(true, miss, now), false)
  }

  /** The time base has moved three seconds for every miss counted since the station was last heard. */
  predicate Counted(s: State, since: int) {
    s.enabled ==> s.last >= since + HEARTBEAT_INTERVAL_SEC * Min(s.miss, HEARTBEAT_TIMEOUT_COUNT - 1)
  }

  /** A timeout means at least sixty seconds of silence, whatever the clock and the checks did between. */
  lemma NeverEarly(s: State, since: int, now: int)
    requires Counted(s, since)
    ensures Counted(Check(s, now).state, since)
    ensures Check(s, now).timeout ==> now >= since + 60
  {
  }

  /** Index of the check that reports the timeout when the station stays silent. */
  function FirstTimeout(s: State, times: seq<int>): Option<nat>
    decreases |times|
  {
    if times == [] then None
    else if Check(s, times[0]).timeout then Some(0)
    else
      match FirstTimeout(Check(s, times[0]).state, times[1..])
      case None => None
      case Some(k) => Some(k + 1)
  }

  /** Checks follow `from` and one another by at most `d` seconds. */
  predicate AtMostApart(from: int, times: seq<int>, d: nat) {
    && (times != [] ==> times[0] <= from + d)
    && forall k :: 0 < k < |times| ==> times[k] <= times[k - 1] + d
  }

  /** The latest moment of a timeout: every miss still to come takes at most two seconds more than the gap. */
  function Deadline(s: State, d: nat): int {
    s.last + (HEARTBEAT_TIMEOUT_COUNT - s.miss) * (2 + d)
  }

  lemma DeadlineMoves(s: State, d: nat, now: int)
    requires s.miss < HEARTBEAT_TIMEOUT_COUNT - 1 && now <= s.last + 2 + d
    ensures Deadline(State(true, s.miss + 1, now), d) <= Deadline(s, d)
  {
    var k: int := HEARTBEAT_TIMEOUT_COUNT - s.miss;
    assert k * (2 + d) == (k - 1) * (2 + d) + (2 + d);
  }

  lemma DeadlineAhead(s: State, d: nat)
    requires s.miss < HEARTBEAT_TIMEOUT_COUNT
    ensures Deadline(s, d) >= s.last + 2 + d
    ensures s.miss < HEARTBEAT_TIMEOUT_COUNT - 1 ==> Deadline(s, d) > s.last + 2 + d
  {
    var k: int := HEARTBEAT_TIMEOUT_COUNT - s.miss;
    assert k * (2 + d) == (k - 1) * (2 + d) + (2 + d);
  }

  /**
    Silence is always noticed: once checks at most `d` seconds apart have gone on for 20 * (2 + d)
    seconds, one of them has reported the timeout, no later than that.
   */
  lemma {:induction false} NeverLate(s: State, checkedAt: int, times: seq<int>, d: nat)
    requires s.enabled && s.miss < HEARTBEAT_TIMEOUT_COUNT && 1 <= d
    requires checkedAt < s.last + HEARTBEAT_INTERVAL_SEC && AtMostApart(checkedAt, times, d)
    requires times != [] && times[|times| - 1] >= Deadline(s, d)
    ensures FirstTimeout(s, times).Some?
    ensures var k := FirstTimeout(s, times).value; k < |times| && times[k] <= Deadline(s, d)
    decreases |times|
  {
    hide Deadline;
    var t := times[0];
    DeadlineAhead(s, d);
    if t - s.last < HEARTBEAT_INTERVAL_SEC {
      NeverLate(s, t, times[1..], d);
    } else if s.miss < HEARTBEAT_TIMEOUT_COUNT - 1 {
      DeadlineMoves(s, d, t);
      NeverLate(State(true, s.miss + 1, t), t, times[1..], d);
    }
  }

  /** From the moment the station was heard: not before sixty seconds, and by 20 * (2 + d) at the latest. */
  lemma {:induction false} TimeoutWindow(since: int, times: seq<int>, d: nat)
    requires 1 <= d && AtMostApart(since, times, d) && times != [] && times[|times| - 1] >= since + 20 * (2 + d)
    ensures var s := State(true, 0, since);
            && FirstTimeout(s, times).Some?
            && var k := FirstTimeout(s, times).value; k < |times| && since + 60 <= times[k] <= since + 20 * (2 + d)
  {
    var s := State(true, 0, since);
    NeverLate(s, since, times, d);
    TimeoutNotEarly(s, since, times);
  }

  lemma {:induction false} TimeoutNotEarly(s: State, since: int, times: seq<int>)
    requires Counted(s, since)
    ensures FirstTimeout(s, times).Some? ==>
              FirstTimeout(s, times).value < |times| && times[FirstTimeout(s, times).value] >= since + 60
    decreases |times|
  {
    hide Check, Counted;
    if times != [] {
      NeverEarly(s, since, times[0]);
      TimeoutNotEarly(Check(s, times[0]).state, since, times[1..]);
    }
  }

  class Heartbeat {
    var enabled: bool
    var miss: u32
    var last: int
    /** When the station was last heard, or the heartbeat last started. */
    ghost var since: int

    ghost function Now(): State
      reads this
    {
      State(enabled, miss, last)
    }

    ghost predicate Valid()
      reads this
    {
      Counted(Now(), since)
    }

    /** heartbeat_init */
    constructor ()
      ensures Valid() && !enabled
    {
      enabled, miss, last, since := false, 0, 0, 0;
    }

    /** heartbeat_start */
    method Start(now: int)
      modifies this
      ensures Valid() && Now() == State(true, 0, now) && since == now
    {
      enabled, miss, last, since := true, 0, now, now;
    }

    /** heartbeat_stop */
    method Stop()
      modifies this
      ensures Valid() && Now() == old(Now()).(enabled := false) && since == old(since)
    {
      enabled := false;
    }

    /** heartbeat_handle_bbu */
    method HandleBbu(now: int)
      requires Valid()
      modifies this
      ensures Valid()
      ensures if old(enabled) then Now() == State(true, 0, now) && since == now
                else Now() == old(Now()) && since == old(since)
    {
      if !enabled {
        return;
      }
      last, miss, since := now, 0, now;
    }

    /** heartbeat_check_timeout */
    method CheckTimeout(now: int) returns (timeout: bool)
      requires Valid()
      modifies this
      ensures Valid() && since == old(since)
      ensures Checked(Now(), timeout) == Check(old(Now()), now)
      ensures timeout ==> now >= since + 60
    {
      NeverEarly(Now(), since, now);
      if !enabled {
        return false;
      }
      var elapsed := now - last;
      if elapsed >= HEARTBEAT_INTERVAL_SEC {
        miss := (miss + 1) % 0x1_0000_0000;
        if miss >= HEARTBEAT_TIMEOUT_COUNT {
          return true;
        }
        last := now;
      }
      return false;
    }
  }

  class MainLoop {
    const heartbeat: Heartbeat
    const gate: TxGate.Gate
    /** g_channel_established */
    var channelEstablished: bool

    constructor (heartbeat: Heartbeat, gate: TxGate.Gate)
      ensures this.heartbeat == heartbeat && this.gate == gate && !channelEstablished
    {
      this.heartbeat, this.gate := heartbeat, gate;
      channelEstablished := false;
    }

    /** The heartbeat part of one turn. */
    method Turn(now: int, connected: bool, sent: bool) returns (lost: bool)
      requires heartbeat.Valid() && gate.Valid()
      modifies this, heartbeat, gate
      ensures heartbeat.Valid() && gate.Valid()
      ensures lost == (old(channelEstablished) && connected && Check(old(heartbeat.Now()), now).timeout)
      ensures lost ==> now >= old(heartbeat.since) + 60
      // the loss closes the gate, and a transmitter that was on gets exactly one OFF
      ensures lost ==> !gate.linkOk && !channelEstablished && !heartbeat.enabled
      ensures lost ==>
                gate.commands == old(gate.commands)
                  + if old(gate.txOn) then [TxGate.Command(false, sent, false)] else []
      ensures lost && sent ==> !gate.txOn
      ensures !lost ==>
                gate.commands == old(gate.commands) && gate.txOn == old(gate.txOn) && gate.linkOk == old(gate.linkOk)
      ensures !lost ==> channelEstablished == old(channelEstablished)
      ensures !lost && channelEstablished && connected ==> heartbeat.Now() == Check(old(heartbeat.Now()), now).state
    {
      lost := false;
      if channelEstablished && connected {
        lost := heartbeat.CheckTimeout(now);
        if lost {
          channelEstablished := false;
          heartbeat.Stop();
          gate.NotifyBbuLink(false, sent);
        }
      }
    }

    /** Turns at the given times with the station silent and every OFF command going out. */
    method WatchSilence(times: seq<int>, d: nat)
      requires heartbeat.Valid() && gate.Valid() && channelEstablished
      requires heartbeat.Now() == State(true, 0, heartbeat.since)
      requires 1 <= d && AtMostApart(heartbeat.since, times, d)
      requires times != [] && times[|times| - 1] >= heartbeat.since + 20 * (2 + d)
      modifies this, heartbeat, gate
      ensures gate.Valid() && !gate.linkOk && !gate.txOn && !channelEstablished
    {
      ghost var first := heartbeat.since;
      TimeoutWindow(first, times, d);
      for k := 0 to |times|
        invariant heartbeat.Valid() && gate.Valid()
        invariant channelEstablished ==> FirstTimeout(heartbeat.Now(), times[k..]).Some?
        invariant !channelEstablished ==> !gate.linkOk && !gate.txOn
      {
        assert times[k..][0] == times[k] && times[k..][1..] == times[k + 1..];
        var lost := Turn(times[k], true, true);
      }
    }
  }
}
