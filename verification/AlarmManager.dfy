/**
  The alarm table (alarm_manager.c): a fixed array of records searched by loops, and edge trackers
  that decide when a record is raised or cleared.
 */
module AlarmManager {
  import opened Bytes
  import opened Counting
  import opened Options

  const MAX_ALARM_RECORDS := 64
  const OPTICAL_PORTS := 8
  const TEMPERATURE_PROBES := 10

  const ALARM_CODE_LO_UNLOCK: u32 := 50001
  const ALARM_CODE_OPTICAL_SYNC_LOSS: u32 := 1097
  const ALARM_CODE_OVER_TEMPERATURE: u32 := 1156
  const ALARM_CODE_VERSION_ACTIVATE_FAIL: u32 := 1158
  const ALARM_CODE_CHANNEL_FAULT_EXCEED: u32 := 1159
  const ALARM_CODE_TCP_DISCONNECT: u32 := 1160
  const ALARM_CODE_WATCHDOG_FEED_FAIL: u32 := 1161
  const LOOPBACK_ALARM_BASE: u32 := 60001
  const RESET_ALARM_BASE: u32 := 70001

  datatype Key = Key(code: u32, sub: u32)

  datatype Record = Record(active: bool, key: Key)

  predicate InUse(r: Record) {
    r.active
  }

  // ---------------------------------------------------------------- the table as a set of keys

  predicate Distinct(rs: seq<Record>) {
    forall i, k :: 0 <= i < k < |rs| && rs[i].active && rs[k].active ==> rs[i].key != rs[k].key
  }

  ghost function KeysTo(rs: seq<Record>, n: nat): set<Key>
    requires n <= |rs|
  {
    set i | 0 <= i < n && rs[i].active :: rs[i].key
  }

  /** The keys of the active records. */
  ghost function Keys(rs: seq<Record>): set<Key> {
    KeysTo(rs, |rs|)
  }

  lemma KeysAll(rs: seq<Record>)
    ensures Keys(rs) == KeysTo(rs, |rs|)
  {
  }

  lemma KeysStep(rs: seq<Record>, n: nat)
    requires n < |rs| && Distinct(rs)
    ensures KeysTo(rs, n + 1) == KeysTo(rs, n) + if rs[n].active then {rs[n].key} else {}
    ensures rs[n].active ==> rs[n].key !in KeysTo(rs, n)
  {
  }

  /** With distinct keys the counter is the number of keys. */
  lemma {:induction false} CountIsKeys(rs: seq<Record>, n: nat)
    requires n <= |rs| && Distinct(rs)
    ensures CountTo(rs, InUse, n) == |KeysTo(rs, n)|
    decreases n
  {
    if n == 0 {
      assert KeysTo(rs, 0) == {};
    } else {
      hide KeysTo, Distinct;
      CountIsKeys(rs, n - 1);
      KeysStep(rs, n - 1);
    }
  }

  lemma RaiseEffect(rs: seq<Record>, i: nat, key: Key)
    requires Distinct(rs) && i < |rs| && !rs[i].active && key !in Keys(rs)
    ensures Distinct(rs[i := Record(true, key)])
    ensures Keys(rs[i := Record(true, key)]) == Keys(rs) + {key}
    ensures CountTo(rs[i := Record(true, key)], InUse, |rs|) == CountTo(rs, InUse, |rs|) + 1
  {
    var us := rs[i := Record(true, key)];
    CountUpdate(rs, InUse, i, Record(true, key), |rs|);
    forall k ensures k in Keys(us) <==> k in Keys(rs) + {key} {
      if k in Keys(rs) {
        var j :| 0 <= j < |rs| && rs[j].active && rs[j].key == k;
        assert us[j] == rs[j];
      }
      assert us[i].active && us[i].key == key;
    }
    forall j | 0 <= j < |rs| && rs[j].active ensures rs[j].key != key {
      assert rs[j].key in Keys(rs);
    }
  }

  lemma ClearEffect(rs: seq<Record>, i: nat)
    requires Distinct(rs) && i < |rs| && rs[i].active
    ensures Distinct(rs[i := rs[i].(active := false)])
    ensures Keys(rs[i := rs[i].(active := false)]) == Keys(rs) - {rs[i].key}
    ensures CountTo(rs[i := rs[i].(active := false)], InUse, |rs|) == CountTo(rs, InUse, |rs|) - 1
  {
    var us := rs[i := rs[i].(active := false)];
    CountUpdate(rs, InUse, i, rs[i].(active := false), |rs|);
    forall k ensures k in Keys(us) <==> k in Keys(rs) - {rs[i].key} {
      if k in Keys(rs) && k != rs[i].key {
        var j :| 0 <= j < |rs| && rs[j].active && rs[j].key == k;
        assert us[j] == rs[j];
      }
    }
  }

  // ---------------------------------------------------------------- what the code base can raise

  ghost function Subs(code: u32, n: nat): (r: set<Key>)
    requires n <= 100
    ensures |r| <= n
    ensures forall k: Key :: k in r <==> k.code == code && k.sub < n
  {
    if n == 0 then {} else Subs(code, n - 1) + {Key(code, n - 1)}
  }

  ghost function Codes(base: u32, n: nat): (r: set<Key>)
    requires n <= 100 && base < 100000
    ensures |r| <= n
    ensures forall k: Key :: k in r <==> base <= k.code < base + n && k.sub == 0
  {
    if n == 0 then {} else Codes(base, n - 1) + {Key(base + n - 1, 0)}
  }

  /** The keys that callers of alarm_trigger pass. */
  predicate CanRaise(k: Key) {
    || (k.code == ALARM_CODE_OPTICAL_SYNC_LOSS && k.sub < OPTICAL_PORTS)
    || (k.code == ALARM_CODE_OVER_TEMPERATURE && k.sub < TEMPERATURE_PROBES)
    || (k.sub == 0 && (|| k.code == ALARM_CODE_LO_UNLOCK
                       || ALARM_CODE_VERSION_ACTIVATE_FAIL <= k.code <= ALARM_CODE_WATCHDOG_FEED_FAIL
                       || LOOPBACK_ALARM_BASE <= k.code < LOOPBACK_ALARM_BASE + 6
                       || RESET_ALARM_BASE <= k.code < RESET_ALARM_BASE + 4))
  }

  ghost function TelemetryKeys(): set<Key> {
    Subs(ALARM_CODE_OPTICAL_SYNC_LOSS, OPTICAL_PORTS) + Subs(ALARM_CODE_OVER_TEMPERATURE, TEMPERATURE_PROBES)
    + Codes(ALARM_CODE_LO_UNLOCK, 1)
  }

  ghost function OtherKeys(): set<Key> {
    Codes(ALARM_CODE_VERSION_ACTIVATE_FAIL, 4) + Codes(LOOPBACK_ALARM_BASE, 6) + Codes(RESET_ALARM_BASE, 4)
  }

  lemma UnionSize(a: set<Key>, b: set<Key>)
    ensures |a + b| <= |a| + |b|
  {
    assert |a + b| == |a| + |b| - |a * b|;
  }

  /** There are at most 33 of them. */
  lemma RaisableAreFew()
    ensures |TelemetryKeys() + OtherKeys()| <= 33
    ensures forall k: Key :: CanRaise(k) ==> k in TelemetryKeys() + OtherKeys()
  {
    hide Subs, Codes;
    var optical := Subs(ALARM_CODE_OPTICAL_SYNC_LOSS, OPTICAL_PORTS);
    var hot := Subs(ALARM_CODE_OVER_TEMPERATURE, TEMPERATURE_PROBES);
    var lo := Codes(ALARM_CODE_LO_UNLOCK, 1);
    UnionSize(optical, hot);
    UnionSize(optical + hot, lo);
    var own := Codes(ALARM_CODE_VERSION_ACTIVATE_FAIL, 4);
    var loopback, reset := Codes(LOOPBACK_ALARM_BASE, 6), Codes(RESET_ALARM_BASE, 4);
    UnionSize(own, loopback);
    UnionSize(own + loopback, reset);
    UnionSize(TelemetryKeys(), OtherKeys());
  }

  predicate AllRaisable(keys: set<Key>) {
    forall k :: k in keys ==> CanRaise(k)
  }

  /** A table that holds only such keys is never full. */
  lemma NeverFull(keys: set<Key>)
    requires AllRaisable(keys)
    ensures |keys| <= 33
  {
    hide TelemetryKeys, OtherKeys, CanRaise;
    RaisableAreFew();
    SubsetSize(keys, TelemetryKeys() + OtherKeys());
  }

  lemma {:induction false} NoneActive(rs: seq<Record>, n: nat)
    requires n <= |rs| && forall i :: 0 <= i < |rs| ==> !rs[i].active
    ensures CountTo(rs, InUse, n) == 0 && Keys(rs) == {} && Distinct(rs)
    decreases n
  {
    if n > 0 {
      NoneActive(rs, n - 1);
    }
  }

  lemma SubsetSize(a: set<Key>, b: set<Key>)
    requires a <= b
    ensures |a| <= |b|
  {
    assert b == a + (b - a);
  }

  function LoKey(): Key {
    Key(ALARM_CODE_LO_UNLOCK, 0)
  }

  function OpticalKey(port: nat): Key
    requires port < OPTICAL_PORTS
  {
    Key(ALARM_CODE_OPTICAL_SYNC_LOSS, port)
  }

  function TemperatureKey(probe: nat): Key
    requires probe < TEMPERATURE_PROBES
  {
    Key(ALARM_CODE_OVER_TEMPERATURE, probe)
  }

  function ChannelKey(): Key {
    Key(ALARM_CODE_CHANNEL_FAULT_EXCEED, 0)
  }

  function TcpKey(): Key {
    Key(ALARM_CODE_TCP_DISCONNECT, 0)
  }

  /** alarm_state_tracker_t */
  datatype Tracker = Tracker(lo: bool, optical: seq<bool>, temperature: seq<bool>, channels: bool, tcp: bool)

  predicate Shaped(t: Tracker) {
    |t.optical| == OPTICAL_PORTS && |t.temperature| == TEMPERATURE_PROBES
  }

  /** Every edge tracker that the telemetry frames drive says whether its record is active. */
  ghost predicate Tracks(t: Tracker, keys: set<Key>) {
    && Shaped(t)
    && (t.lo <==> LoKey() in keys) && (t.channels <==> ChannelKey() in keys)
    && (forall p: nat :: p < OPTICAL_PORTS ==> (t.optical[p] <==> OpticalKey(p) in keys))
    && (forall p: nat :: p < TEMPERATURE_PROBES ==> (t.temperature[p] <==> TemperatureKey(p) in keys))
  }

  /** A set with one key put in or taken out. */
  function With(keys: set<Key>, key: Key, present: bool): set<Key> {
    if present then keys + {key} else keys - {key}
  }

  datatype Config = Config(faultThreshold: byte, tempHigh: int, tempLow: int, graceSec: u32, opticalPorts: byte)

  /** The fields of a telemetry frame the periodic check looks at. */
  datatype Telemetry = Telemetry(loLockStatus: u32, temps: (int, int, int), channelFaults: byte, linkSuccess: byte)

  function Bit(v: nat, i: nat): bool {
    if i == 0 then v % 2 == 1 else Bit(v / 2, i - 1)
  }

  predicate TooHot(c: Config, t: int) {
    t > c.tempHigh || t < c.tempLow
  }

  /** The keys whose records are driven by an edge tracker. */
  predicate Tracked(k: Key) {
    || k == LoKey() || k == ChannelKey() || k == TcpKey()
    || (k.code == ALARM_CODE_OPTICAL_SYNC_LOSS && k.sub < OPTICAL_PORTS)
    || (k.code == ALARM_CODE_OVER_TEMPERATURE && k.sub < TEMPERATURE_PROBES)
  }

  function PortsWatched(c: Config): nat {
    if c.opticalPorts == 8 then 8 else 4
  }

  /** Whether a frame falls into the time after start-up in which the optical links are not looked at. */
  predicate InGrace(c: Config, armed: bool, end: nat, clock: Option<nat>) {
    c.graceSec != 0 && clock.Some? && (armed ==> clock.value < end)
  }

  /** What a frame says about one alarm; nothing for the alarms it does not cover. */
  function Reading(c: Config, t: Telemetry, grace: bool, k: Key): Option<bool> {
    if k == LoKey() then Some(t.loLockStatus != 0)
    else if k == TemperatureKey(0) then Some(TooHot(c, t.temps.0))
    else if k == TemperatureKey(1) then Some(TooHot(c, t.temps.1))
    else if k == TemperatureKey(2) then Some(TooHot(c, t.temps.2))
    else if k == ChannelKey() then Some(t.channelFaults > c.faultThreshold)
    else if !grace && k.code == ALARM_CODE_OPTICAL_SYNC_LOSS && k.sub < PortsWatched(c) then
      Some(!Bit(t.linkSuccess, k.sub))
    else None
  }

  function Sampled(c: Config, t: Telemetry, keys: set<Key>): set<Key> {
    var lo := With(keys, LoKey(), t.loLockStatus != 0);
    var hot0 := With(lo, TemperatureKey(0), TooHot(c, t.temps.0));
    var hot1 := With(hot0, TemperatureKey(1), TooHot(c, t.temps.1));
    var hot2 := With(hot1, TemperatureKey(2), TooHot(c, t.temps.2));
    With(hot2, ChannelKey(), t.channelFaults > c.faultThreshold)
  }

  lemma SampledIsRead(c: Config, t: Telemetry, keys: set<Key>, k: Key)
    ensures k in Sampled(c, t, keys) <==>
              if Reading(c, t, true, k).Some? then Reading(c, t, true, k).value else k in keys
  {
  }

  /** The weight of each bit of link_success_flag. */
  const WEIGHTS: seq<nat> := [1, 2, 4, 8, 16, 32, 64, 128]

  lemma BitByWeight(v: byte, i: nat)
    requires i < 8
    ensures Bit(v, i) <==> v / WEIGHTS[i] % 2 == 1
  {
    BitAfter(v, i, 1);
    assert v / 2 / 2 == v / 4 && v / 4 / 2 == v / 8 && v / 8 / 2 == v / 16;
    assert v / 16 / 2 == v / 32 && v / 32 / 2 == v / 64 && v / 64 / 2 == v / 128;
  }

  lemma BitAfter(v: nat, i: nat, k: nat)
    requires i < 8
    ensures var halves := [v, v / 2, v / 2 / 2, v / 2 / 2 / 2, v / 2 / 2 / 2 / 2, v / 2 / 2 / 2 / 2 / 2,
                           v / 2 / 2 / 2 / 2 / 2 / 2, v / 2 / 2 / 2 / 2 / 2 / 2 / 2];
            Bit(v, i) <==> halves[i] % 2 == 1
  {
  }

  /** What a frame says, alarm by alarm, by the code on the wire and the configured thresholds. */
  lemma FrameSays(c: Config, t: Telemetry, grace: bool)
    ensures Reading(c, t, grace, Key(50001, 0)) == Some(t.loLockStatus != 0)
    ensures Reading(c, t, grace, Key(1156, 0)) == Some(t.temps.0 > c.tempHigh || t.temps.0 < c.tempLow)
    ensures Reading(c, t, grace, Key(1156, 1)) == Some(t.temps.1 > c.tempHigh || t.temps.1 < c.tempLow)
    ensures Reading(c, t, grace, Key(1156, 2)) == Some(t.temps.2 > c.tempHigh || t.temps.2 < c.tempLow)
    ensures Reading(c, t, grace, Key(1159, 0)) == Some(t.channelFaults > c.faultThreshold)
    ensures forall p: nat :: p < 8 ==>
              Reading(c, t, grace, Key(1097, p)) ==
                if grace || (p >= 4 && c.opticalPorts != 8) then None else Some(t.linkSuccess / WEIGHTS[p] % 2 == 0)
  {
    hide Bit;
    forall p: nat | p < 8
      ensures Reading(c, t, grace, Key(1097, p)) ==
                if grace || (p >= 4 && c.opticalPorts != 8) then None else Some(t.linkSuccess / WEIGHTS[p] % 2 == 0)
    {
      BitByWeight(t.linkSuccess, p);
    }
  }

  class Manager {
    const records: array<Record>
    var alarmCount: nat
    var tracker: Tracker
    const config: Config
    var graceArmed: bool
    var graceEnd: nat
    /** Calls of the TCP alarm that have released the lock and whose second half is still to come. */
    var raising: nat
    var clearing: nat

    ghost function TcpNow(): TcpState
      reads this, records
    {
      TcpState(tracker.tcp, TcpKey() in Active(), raising, clearing)
    }

    ghost function Active(): set<Key>
      reads records
    {
      Keys(records[..])
    }

    ghost predicate TableValid()
      reads this, records
    {
      && records.Length == MAX_ALARM_RECORDS && Distinct(records[..])
      && alarmCount == CountTo(records[..], InUse, MAX_ALARM_RECORDS)
    }

    ghost predicate Valid()
      reads this, records
    {
      TableValid() && AllRaisable(Active()) && Tracks(tracker, Active())
    }

    /** alarm_manager_init; port counts other than 4 and 8 are taken as 4. */
    constructor (config: Config)
      ensures Valid() && Active() == {} && alarmCount == 0 && !graceArmed && fresh(records)
      ensures TcpNow() == TcpState(false, false, 0, 0) && Settled(TcpNow())
      ensures this.config == config.(opticalPorts := if config.opticalPorts == 8 then 8 else 4)
    {
      records := new Record[MAX_ALARM_RECORDS](_ => Record(false, Key(0, 0)));
      alarmCount := 0;
      tracker := Tracker(false, [false, false, false, false, false, false, false, false],
                         [false, false, false, false, false, false, false, false, false, false], false, false);
      this.config := config.(opticalPorts := if config.opticalPorts == 8 then 8 else 4);
      graceArmed, graceEnd, raising, clearing := false, 0, 0, 0;
      new;
      NoneActive(records[..], MAX_ALARM_RECORDS);
    }

    /** find_alarm_record */
    method FindRecord(key: Key) returns (i: int)
      requires records.Length == MAX_ALARM_RECORDS
      ensures -1 <= i < MAX_ALARM_RECORDS && (i >= 0 <==> key in Active())
      ensures i >= 0 ==> records[i].active && records[i].key == key
    {
      for k := 0 to MAX_ALARM_RECORDS
        invariant forall j :: 0 <= j < k ==> !(records[j].active && records[j].key == key)
      {
        if records[k].active && records[k].key == key {
          assert records[..][k].active;
          return k;
        }
      }
      return -1;
    }

    /** find_free_record */
    method FindFree() returns (i: int)
      requires records.Length == MAX_ALARM_RECORDS
      ensures -1 <= i < MAX_ALARM_RECORDS && (i >= 0 ==> !records[i].active)
      ensures i == -1 ==> forall k :: 0 <= k < MAX_ALARM_RECORDS ==> records[..][k].active
    {
      for k := 0 to MAX_ALARM_RECORDS
        invariant forall j :: 0 <= j < k ==> records[j].active
      {
        if !records[k].active {
          return k;
        }
      }
      return -1;
    }

    /** alarm_trigger: refused only when the key is new and 64 others are active. */
    method Trigger(key: Key) returns (ok: bool)
      requires TableValid()
      modifies records, `alarmCount
      ensures TableValid()
      ensures ok <==> key in old(Active()) || |old(Active())| < MAX_ALARM_RECORDS
      ensures Active() == if ok then old(Active()) + {key} else old(Active())
    {
      hide Keys, Distinct, CountTo;
      var i := FindRecord(key);
      if i >= 0 {
        return true;
      }
      i := FindFree();
      CountBounds(records[..], InUse, MAX_ALARM_RECORDS);
      CountIsKeys(records[..], MAX_ALARM_RECORDS);
      assert |Active()| == CountTo(records[..], InUse, MAX_ALARM_RECORDS) by {
        assert Keys(records[..]) == KeysTo(records[..], MAX_ALARM_RECORDS) by { KeysAll(records[..]); }
      }
      if i < 0 {
        return false;
      }
      assert !records[..][i].active;
      RaiseEffect(records[..], i, key);
      records[i] := Record(true, key);
      assert records[..] == old(records[..])[i := Record(true, key)];
      alarmCount := alarmCount + 1;
      return true;
    }

    /** alarm_clear */
    method Clear(key: Key)
      requires TableValid()
      modifies records, `alarmCount
      ensures TableValid() && Active() == old(Active()) - {key}
    {
      hide Keys, Distinct, CountTo;
      var i := FindRecord(key);
      if i < 0 {
        return;
      }
      ClearEffect(records[..], i);
      records[i] := records[i].(active := false);
      assert records[..] == old(records[..])[i := old(records[i]).(active := false)];
      alarmCount := alarmCount - 1;
    }

    /** The edge of one tracker: raise on the way up, clear on the way down, nothing in between. */
    method Edge(key: Key, was: bool, now: bool)
      requires TableValid() && AllRaisable(Active()) && CanRaise(key) && (was <==> key in Active())
      modifies records, `alarmCount
      ensures TableValid() && AllRaisable(Active()) && Active() == With(old(Active()), key, now)
    {
      hide Keys, Distinct, CountTo;
      NeverFull(Active());
      if now && !was {
        var ok := Trigger(key);
      } else if !now && was {
        Clear(key);
      }
    }

    /** alarm_check_lo_unlock */
    method CheckLoUnlock(status: u32)
      requires Valid()
      modifies `tracker, `alarmCount, records
      ensures Valid() && Active() == With(old(Active()), LoKey(), status != 0)
      ensures tracker.tcp == old(tracker.tcp)
    {
      hide Keys, Distinct, CountTo;
      var was := tracker.lo;
      tracker := tracker.(lo := status != 0);
      Edge(LoKey(), was, status != 0);
    }

    /** alarm_check_optical_sync_loss */
    method CheckOpticalSyncLoss(port: byte, sync: bool)
      requires Valid()
      modifies `tracker, `alarmCount, records
      ensures Valid()
      ensures Active() == if port < OPTICAL_PORTS then With(old(Active()), OpticalKey(port), !sync) else old(Active())
      ensures tracker.tcp == old(tracker.tcp)
    {
      hide Keys, Distinct, CountTo;
      if port >= OPTICAL_PORTS {
        return;
      }
      var was := tracker.optical[port];
      tracker := tracker.(optical := tracker.optical[port := !sync]);
      Edge(OpticalKey(port), was, !sync);
    }

    /** alarm_check_over_temperature */
    method CheckOverTemperature(probe: byte, temperature: int)
      requires Valid()
      modifies `tracker, `alarmCount, records
      ensures Valid()
      ensures Active() == if probe >= TEMPERATURE_PROBES then old(Active())
                          else With(old(Active()), TemperatureKey(probe), TooHot(config, temperature))
      ensures tracker.tcp == old(tracker.tcp)
    {
      hide Keys, Distinct, CountTo;
      if probe >= TEMPERATURE_PROBES {
        return;
      }
      var was := tracker.temperature[probe];
      var now := temperature > config.tempHigh || temperature < config.tempLow;
      tracker := tracker.(temperature := tracker.temperature[probe := now]);
      Edge(TemperatureKey(probe), was, now);
    }

    /** alarm_check_channel_fault_exceed */
    method CheckChannelFaultExceed(faults: byte)
      requires Valid()
      modifies `tracker, `alarmCount, records
      ensures Valid() && Active() == With(old(Active()), ChannelKey(), faults > config.faultThreshold)
      ensures tracker.tcp == old(tracker.tcp)
    {
      hide Keys, Distinct, CountTo;
      var was := tracker.channels;
      tracker := tracker.(channels := faults > config.faultThreshold);
      Edge(ChannelKey(), was, faults > config.faultThreshold);
    }

    /** alarm_trigger_tcp_disconnect up to the unlock: the tracker. */
    method BeginTcpRaise()
      requires Valid()
      modifies `tracker, `raising
      ensures Valid() && Active() == old(Active()) && TcpNow() == TcpNext(old(TcpNow()), BeginRaise)
      ensures tracker.tcp && raising == old(raising) + if old(tracker.tcp) then 0 else 1
    {
      hide Keys, Distinct, CountTo, CanRaise;
      var was := tracker.tcp;
      tracker := tracker.(tcp := true);
      if !was {
        raising := raising + 1;
      }
    }

    /** ... and after it: the record. */
    method EndTcpRaise()
      requires Valid() && raising > 0
      modifies `raising, `alarmCount, records
      ensures Valid() && Active() == old(Active()) + {TcpKey()} && TcpNow() == TcpNext(old(TcpNow()), EndRaise)
    {
      hide Keys, Distinct, CountTo;
      NeverFull(Active());
      raising := raising - 1;
      var ok := Trigger(TcpKey());
    }

    /** alarm_clear_tcp_disconnect up to the unlock: the tracker. */
    method BeginTcpClear()
      requires Valid()
      modifies `tracker, `clearing
      ensures Valid() && Active() == old(Active()) && TcpNow() == TcpNext(old(TcpNow()), BeginClear)
      ensures !tracker.tcp && clearing == old(clearing) + if old(tracker.tcp) then 1 else 0
    {
      hide Keys, Distinct, CountTo, CanRaise;
      var was := tracker.tcp;
      tracker := tracker.(tcp := false);
      if was {
        clearing := clearing + 1;
      }
    }

    /** ... and after it: the record. */
    method EndTcpClear()
      requires Valid() && clearing > 0
      modifies `clearing, `alarmCount, records
      ensures Valid() && Active() == old(Active()) - {TcpKey()} && TcpNow() == TcpNext(old(TcpNow()), EndClear)
    {
      hide Keys, Distinct, CountTo, CanRaise;
      clearing := clearing - 1;
      Clear(TcpKey());
    }

    method TcpDo(step: TcpStep)
      requires Valid()
      modifies `tracker, `raising, `clearing, `alarmCount, records
      ensures Valid() && TcpNow() == TcpNext(old(TcpNow()), step)
    {
      hide Keys, Distinct, CountTo, CanRaise, Tracks;
      match step
      case BeginRaise => BeginTcpRaise();
      case EndRaise =>
        if raising > 0 {
          EndTcpRaise();
        }
      case BeginClear => BeginTcpClear();
      case EndClear =>
        if clearing > 0 {
          EndTcpClear();
        }
    }

    /** The alarms without a tracker: version activation, watchdog, and the loopback and reset parsers. */
    method TriggerOther(key: Key) returns (ok: bool)
      requires Valid() && CanRaise(key) && !Tracked(key)
      modifies `alarmCount, records
      ensures Valid() && ok && Active() == old(Active()) + {key}
    {
      hide Keys, Distinct, CountTo, CanRaise;
      NeverFull(Active());
      ok := Trigger(key);
    }

    method ClearOther(key: Key)
      requires Valid() && !Tracked(key)
      modifies `alarmCount, records
      ensures Valid() && Active() == old(Active()) - {key}
    {
      hide Keys, Distinct, CountTo, CanRaise;
      Clear(key);
    }

    /** alarm_optical_in_grace: the period begins with the first frame for which the clock can be read. */
    method OpticalInGrace(clock: Option<nat>) returns (grace: bool)
      modifies `graceArmed, `graceEnd
      ensures grace == InGrace(config, old(graceArmed), old(graceEnd), clock)
      ensures grace <==> config.graceSec != 0 && clock.Some? && (!old(graceArmed) || clock.value < old(graceEnd))
      ensures graceArmed == (old(graceArmed) || grace)
      ensures graceEnd == if grace && !old(graceArmed) then clock.value + config.graceSec else old(graceEnd)
    {
      if config.graceSec == 0 {
        return false;
      }
      if clock.None? {
        return false;
      }
      if !graceArmed {
        graceArmed := true;
        graceEnd := clock.value + config.graceSec;
        return true;
      }
      return clock.value < graceEnd;
    }

    /** The optical part of alarm_periodic_check. */
    method CheckOpticalPorts(linkSuccess: byte)
      requires Valid()
      modifies `tracker, `alarmCount, records
      ensures Valid() && tracker.tcp == old(tracker.tcp)
      ensures forall k: Key :: k in Active() <==>
                if k.code == ALARM_CODE_OPTICAL_SYNC_LOSS && k.sub < PortsWatched(config) then !Bit(linkSuccess, k.sub)
                else k in old(Active())
    {
      hide Keys, Distinct, CountTo, Tracks, Bit, CanRaise;
      ghost var before := Active();
      for i := 0 to 4
        invariant Valid() && tracker.tcp == old(tracker.tcp)
        invariant forall k: Key :: k in Active() <==>
                    if k.code == ALARM_CODE_OPTICAL_SYNC_LOSS
                       && (k.sub < i || (config.opticalPorts == 8 && 4 <= k.sub < 4 + i))
                    then !Bit(linkSuccess, k.sub) else k in before
      {
        CheckOpticalSyncLoss(i, Bit(linkSuccess, i));
        if config.opticalPorts == 8 {
          CheckOpticalSyncLoss(i + 4, Bit(linkSuccess, i + 4));
        }
      }
    }

    /** The part of alarm_periodic_check before the optical links. */
    method CheckSamples(t: Telemetry)
      requires Valid()
      modifies `tracker, `alarmCount, records
      ensures Valid() && tracker.tcp == old(tracker.tcp)
      ensures Active() == Sampled(config, t, old(Active()))
    {
      hide Keys, Distinct, CountTo, Tracks, CanRaise, With, TooHot;
      CheckLoUnlock(t.loLockStatus);
      CheckOverTemperature(0, t.temps.0);
      CheckOverTemperature(1, t.temps.1);
      CheckOverTemperature(2, t.temps.2);
      CheckChannelFaultExceed(t.channelFaults);
    }

    /** The checks of one frame. */
    method CheckFrame(t: Telemetry, clock: Option<nat>)
      requires Valid()
      modifies `tracker, `alarmCount, `graceArmed, `graceEnd, records
      ensures Valid() && tracker.tcp == old(tracker.tcp)
      ensures var grace := InGrace(config, old(graceArmed), old(graceEnd), clock);
              forall k :: k in Active() <==>
                if Reading(config, t, grace, k).Some? then Reading(config, t, grace, k).value else k in old(Active())
    {
      hide Keys, Distinct, CountTo, Tracks, Bit, CanRaise, Sampled;
      ghost var before := Active();
      CheckSamples(t);
      forall k
        ensures k in Active() <==>
                  if Reading(config, t, true, k).Some? then Reading(config, t, true, k).value else k in before
      {
        SampledIsRead(config, t, before, k);
      }
      var grace := OpticalInGrace(clock);
      if !grace {
        CheckOpticalPorts(t.linkSuccess);
      }
    }

    /** alarm_periodic_check: afterwards every watched alarm is active exactly when the frame says so. */
    method PeriodicCheck(t: Telemetry, clock: Option<nat>)
      requires Valid()
      modifies `tracker, `alarmCount, `graceArmed, `graceEnd, records
      ensures Valid() && tracker.tcp == old(tracker.tcp)
      ensures var grace := InGrace(config, old(graceArmed), old(graceEnd), clock);
              forall k :: k in Active() <==>
                if Reading(config, t, grace, k).Some? then Reading(config, t, grace, k).value else k in old(Active())
      ensures Key(50001, 0) in Active() <==> t.loLockStatus != 0
      ensures Key(1156, 0) in Active() <==> t.temps.0 > config.tempHigh || t.temps.0 < config.tempLow
      ensures Key(1156, 1) in Active() <==> t.temps.1 > config.tempHigh || t.temps.1 < config.tempLow
      ensures Key(1156, 2) in Active() <==> t.temps.2 > config.tempHigh || t.temps.2 < config.tempLow
      ensures Key(1159, 0) in Active() <==> t.channelFaults > config.faultThreshold
      // out of the time of grace, a port's alarm is up exactly when its bit is not
      ensures config.graceSec == 0 || clock == None || (old(graceArmed) && clock.value >= old(graceEnd)) ==>
                forall p: nat :: p < (if config.opticalPorts == 8 then 8 else 4) ==>
                  (Key(1097, p) in Active() <==> t.linkSuccess / WEIGHTS[p] % 2 == 0)
    {
      hide Keys, Distinct, CountTo, Tracks, CanRaise, Reading;
      FrameSays(config, t, InGrace(config, graceArmed, graceEnd, clock));
      CheckFrame(t, clock);
    }

    method Do(e: Event)
      requires Valid()
      modifies this, records
      ensures Valid() && TcpNow() == if e.Tcp? then TcpNext(old(TcpNow()), e.step) else old(TcpNow())
    {
      hide Keys, Distinct, CountTo, Tracks, CanRaise;
      match e
      case Frame(t, clock) => PeriodicCheck(t, clock);
      case Tcp(step) => TcpDo(step);
      case Raise(key) =>
        if CanRaise(key) && !Tracked(key) {
          var ok := TriggerOther(key);
        }
      case Withdraw(key) =>
        if !Tracked(key) {
          ClearOther(key);
        }
    }

    /**
      Any run of all threads: keys stay distinct, the counter is the number of alarms, at most 33 of
      the 64 records are ever in use, and every tracker driven by frames equals its record. The
      tracker of the TCP alarm does so whenever its threads are at rest, as long as no raise and
      clear overlap.
     */
    method Run(events: seq<Event>)
      requires Valid()
      modifies this, records
      ensures Valid() && alarmCount == |Active()| <= 33
      ensures TcpNow() == TcpExec(old(TcpNow()), TcpSteps(events))
      ensures Settled(old(TcpNow())) && NeverOverlaps(old(TcpNow()), TcpSteps(events)) && raising == clearing == 0 ==>
                (tracker.tcp <==> TcpKey() in Active())
    {
      hide Keys, Distinct, CountTo, Tracks, CanRaise;
      ghost var first := TcpNow();
      assert events[0..] == events;
      for i := 0 to |events|
        invariant Valid()
        invariant TcpExec(first, TcpSteps(events)) == TcpExec(TcpNow(), TcpSteps(events[i..]))
      {
        assert events[i..][0] == events[i] && events[i..][1..] == events[i + 1..];
        TcpFirst(TcpNow(), events[i..]);
        Do(events[i]);
      }
      NeverFull(Active());
      CountIsKeys(records[..], MAX_ALARM_RECORDS);
      KeysAll(records[..]);
      if Settled(first) && NeverOverlaps(first, TcpSteps(events)) {
        SettledAlong(first, TcpSteps(events));
        SettledAtEnd(first, TcpSteps(events));
      }
    }
  }

  datatype Event =
    | Frame(t: Telemetry, clock: Option<nat>)
    | Tcp(step: TcpStep)
    | Raise(key: Key)
    | Withdraw(key: Key)

  function TcpSteps(events: seq<Event>): seq<TcpStep> {
    if events == [] then []
    else (if events[0].Tcp? then [events[0].step] else []) + TcpSteps(events[1..])
  }

  lemma TcpFirst(s: TcpState, events: seq<Event>)
    requires events != []
    ensures var next := if events[0].Tcp? then TcpNext(s, events[0].step) else s;
            TcpExec(s, TcpSteps(events)) == TcpExec(next, TcpSteps(events[1..]))
  {
    if events[0].Tcp? {
      assert TcpSteps(events)[0] == events[0].step && TcpSteps(events)[1..] == TcpSteps(events[1..]);
    } else {
      assert TcpSteps(events) == TcpSteps(events[1..]);
    }
  }

  // ---------------------------------------------------------------- the TCP alarm, split at its unlocks

  /**
    The tracker, whether the record is active, and the calls that have updated the tracker and whose
    alarm_trigger or alarm_clear is still to come. The receive thread that dies raises; the thread that
    reconnects clears, and does so before it joins the other.
   */
  datatype TcpState = TcpState(tracker: bool, record: bool, raising: nat, clearing: nat)

  datatype TcpStep = BeginRaise | EndRaise | BeginClear | EndClear

  function TcpNext(s: TcpState, step: TcpStep): TcpState {
    match step
    case BeginRaise => if s.tracker then s else s.(tracker := true, raising := s.raising + 1)
    case EndRaise => if s.raising == 0 then s else s.(record := true, raising := s.raising - 1)
    case BeginClear => if s.tracker then s.(tracker := false, clearing := s.clearing + 1) else s
    case EndClear => if s.clearing == 0 then s else s.(record := false, clearing := s.clearing - 1)
  }

  function TcpExec(s: TcpState, steps: seq<TcpStep>): TcpState
    decreases |steps|
  {
    if steps == [] then s else TcpExec(TcpNext(s, steps[0]), steps[1..])
  }

  predicate AtRest(s: TcpState) {
    s.raising == 0 && s.clearing == 0
  }

  predicate Ends(steps: seq<TcpStep>) {
    forall k :: 0 <= k < |steps| ==> steps[k] == EndRaise || steps[k] == EndClear
  }

  /** In whatever order the calls in flight end, tracker and record then agree. */
  ghost predicate AlwaysSettles(s: TcpState) {
    forall steps {:trigger TcpExec(s, steps)} ::
      Ends(steps) && AtRest(TcpExec(s, steps)) ==> TcpExec(s, steps).tracker == TcpExec(s, steps).record
  }

  /** Only raises are in flight and the tracker is set, only clears and it is not, or neither and it is right. */
  predicate Settled(s: TcpState) {
    && (s.raising > 0 ==> s.clearing == 0 && s.tracker)
    && (s.clearing > 0 ==> !s.tracker)
    && (AtRest(s) ==> s.tracker == s.record)
  }

  lemma {:induction false} EndsKeepSettled(s: TcpState, steps: seq<TcpStep>)
    requires Settled(s) && Ends(steps)
    ensures Settled(TcpExec(s, steps))
    decreases |steps|
  {
    if steps != [] {
      EndsKeepSettled(TcpNext(s, steps[0]), steps[1..]);
    }
  }

  lemma {:induction false} TcpAppend(s: TcpState, a: seq<TcpStep>, b: seq<TcpStep>)
    ensures TcpExec(s, a + b) == TcpExec(TcpExec(s, a), b)
    decreases |a|
  {
    if a == [] {
      assert a + b == b;
    } else {
      assert (a + b)[0] == a[0] && (a + b)[1..] == a[1..] + b;
      TcpAppend(TcpNext(s, a[0]), a[1..], b);
    }
  }

  lemma {:induction false} RaisesEnd(s: TcpState) returns (steps: seq<TcpStep>)
    ensures Ends(steps) && TcpExec(s, steps) == s.(record := s.record || s.raising > 0, raising := 0)
    decreases s.raising
  {
    if s.raising == 0 {
      return [];
    }
    var rest := RaisesEnd(TcpNext(s, EndRaise));
    steps := [EndRaise] + rest;
    assert steps[1..] == rest;
  }

  lemma {:induction false} ClearsEnd(s: TcpState) returns (steps: seq<TcpStep>)
    ensures Ends(steps) && TcpExec(s, steps) == s.(record := s.record && s.clearing == 0, clearing := 0)
    decreases s.clearing
  {
    if s.clearing == 0 {
      return [];
    }
    var rest := ClearsEnd(TcpNext(s, EndClear));
    steps := [EndClear] + rest;
    assert steps[1..] == rest;
  }

  /** The condition is exact: with a raise and a clear in flight, one of the two orders parts them. */
  lemma SettlesExactly(s: TcpState)
    ensures AlwaysSettles(s) <==> Settled(s)
  {
    if Settled(s) {
      forall steps | Ends(steps) && AtRest(TcpExec(s, steps))
        ensures TcpExec(s, steps).tracker == TcpExec(s, steps).record
      {
        EndsKeepSettled(s, steps);
      }
    } else {
      var a, b;
      if s.clearing > 0 && s.tracker {
        a := RaisesEnd(s);
        b := ClearsEnd(TcpExec(s, a));
      } else {
        a := ClearsEnd(s);
        b := RaisesEnd(TcpExec(s, a));
      }
      TcpAppend(s, a, b);
      assert Ends(a + b) && AtRest(TcpExec(s, a + b));
      assert TcpExec(s, a + b).tracker != TcpExec(s, a + b).record;
    }
  }

  /** A call enters that changes the tracker while a call of the other kind is in flight. */
  predicate Overlaps(s: TcpState, step: TcpStep) {
    || (step == BeginRaise && !s.tracker && s.clearing > 0)
    || (step == BeginClear && s.tracker && s.raising > 0)
  }

  lemma StepSettles(s: TcpState, step: TcpStep)
    requires Settled(s)
    ensures Settled(TcpNext(s, step)) <==> !Overlaps(s, step)
  {
  }

  predicate NeverOverlaps(s: TcpState, steps: seq<TcpStep>)
    decreases |steps|
  {
    steps != [] ==> !Overlaps(s, steps[0]) && NeverOverlaps(TcpNext(s, steps[0]), steps[1..])
  }

  /** Every state of a run, the first and the last included, is settled. */
  predicate AlwaysSettled(s: TcpState, steps: seq<TcpStep>)
    decreases |steps|
  {
    Settled(s) && (steps != [] ==> AlwaysSettled(TcpNext(s, steps[0]), steps[1..]))
  }

  /** Over a whole run tracker and record are sure to agree at every rest if and only if no calls overlap. */
  lemma {:induction false} SettledAlong(s: TcpState, steps: seq<TcpStep>)
    requires Settled(s)
    ensures AlwaysSettled(s, steps) <==> NeverOverlaps(s, steps)
    decreases |steps|
  {
    if steps != [] {
      StepSettles(s, steps[0]);
      if !Overlaps(s, steps[0]) {
        SettledAlong(TcpNext(s, steps[0]), steps[1..]);
      }
    }
  }

  lemma {:induction false} SettledAtEnd(s: TcpState, steps: seq<TcpStep>)
    requires AlwaysSettled(s, steps)
    ensures Settled(TcpExec(s, steps))
    decreases |steps|
  {
    if steps != [] {
      SettledAtEnd(TcpNext(s, steps[0]), steps[1..]);
    }
  }

  /**
    The run in which a reconnection overtakes the disconnection it follows: the alarm stays up on a
    live connection, and no number of further clears takes it down.
   */
  lemma ClearOvertakes(clears: seq<TcpStep>)
    requires forall k :: 0 <= k < |clears| ==> clears[k] == BeginClear || clears[k] == EndClear
    ensures var e := TcpExec(TcpState(false, false, 0, 0), [BeginRaise, BeginClear, EndClear, EndRaise]);
            && AtRest(e) && !e.tracker && e.record
            && TcpExec(e, clears) == e
  {
    var s := TcpState(false, false, 0, 0);
    TcpAppend(s, [BeginRaise, BeginClear], [EndClear, EndRaise]);
    TcpPair(s, BeginRaise, BeginClear);
    TcpPair(TcpState(false, false, 1, 1), EndClear, EndRaise);
    assert [BeginRaise, BeginClear] + [EndClear, EndRaise] == [BeginRaise, BeginClear, EndClear, EndRaise];
    ClearsDoNothing(TcpState(false, true, 0, 0), clears);
  }

  lemma TcpPair(s: TcpState, a: TcpStep, b: TcpStep)
    ensures TcpExec(s, [a, b]) == TcpNext(TcpNext(s, a), b)
  {
    assert [a, b][1..] == [b];
    assert TcpExec(TcpNext(s, a), [b]) == TcpNext(TcpNext(s, a), b);
  }

  lemma {:induction false} ClearsDoNothing(s: TcpState, clears: seq<TcpStep>)
    requires !s.tracker && s.clearing == 0
    requires forall k :: 0 <= k < |clears| ==> clears[k] == BeginClear || clears[k] == EndClear
    ensures TcpExec(s, clears) == s
    decreases |clears|
  {
    if clears != [] {
      ClearsDoNothing(s, clears[1..]);
    }
  }
}
