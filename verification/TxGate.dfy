/**
  The transmit switch guarded by the baseband link (cell_config.c). Gate is the switch with its
  functions as atomic steps; Sys splits them where the code holds no lock, with one worker and any
  number of threads reporting the link.
 */
module TxGate {

  // ---------------------------------------------------------------- atomic functions

  /** A command on the UART: what it asked for, whether it went out, and the link at that moment. */
  datatype Command = Command(on: bool, delivered: bool, linkOk: bool)

  /** The switch position the antenna is left in by the commands that reached it. */
  function Antenna(commands: seq<Command>): bool {
    if commands == [] then false
    else
      var c := commands[|commands| - 1];
      if c.delivered then c.on else Antenna(commands[..|commands| - 1])
  }

  class Gate {
    /** g_bbu_link_ok */
    var linkOk: bool
    /** g_tx_on */
    var txOn: bool
    ghost var commands: seq<Command>
    /** Length of `commands` when the link was last lost. */
    ghost var lostAt: nat

    ghost predicate Valid()
      reads this
    {
      && txOn == Antenna(commands) && lostAt <= |commands|
      // transmission is never asked for while the link is down
      && (forall k :: 0 <= k < |commands| && commands[k].on ==> commands[k].linkOk)
      // still transmitting with the link down: every attempt to stop since the loss has failed
      && (!linkOk && txOn ==>
            lostAt < |commands| && forall k :: lostAt <= k < |commands| ==> !commands[k].on && !commands[k].delivered)
    }

    constructor ()
      ensures Valid() && !linkOk && !txOn && commands == []
    {
      linkOk, txOn, commands, lostAt := false, false, [], 0;
    }

    /** apply_tx_control */
    method ApplyTxControl(on: bool, sent: bool)
      modifies `txOn, `commands
      ensures commands == old(commands) + [Command(on, sent, linkOk)]
      ensures txOn == if sent then on else old(txOn)
    {
      commands := commands + [Command(on, sent, linkOk)];
      if !sent {
        return;
      }
      txOn := on;
    }

    /** update_tx_control, called after every table change that could matter. */
    method UpdateTxControl(hasAnyFreq: bool, sent: bool)
      requires Valid()
      modifies `txOn, `commands
      ensures Valid()
      ensures commands == if linkOk then old(commands) + [Command(hasAnyFreq, sent, true)] else old(commands)
    {
      if !linkOk {
        return;
      }
      ApplyTxControl(hasAnyFreq, sent);
      assert commands[..|commands| - 1] == old(commands);
    }

    /** cell_config_notify_bbu_link */
    method NotifyBbuLink(up: bool, sent: bool)
      requires Valid()
      modifies this
      ensures Valid() && linkOk == up
      ensures commands == if !up && old(txOn) then old(commands) + [Command(false, sent, false)] else old(commands)
      ensures !up && sent ==> !txOn
    {
      var wasOk := linkOk;
      var needOff := false;
      if up {
        linkOk := true;
      } else {
        linkOk := false;
        needOff := txOn;
      }
      if up {
        return;
      }
      if wasOk {
        lostAt := |commands|;
      }
      if !wasOk && !needOff {
        return;
      }
      if needOff {
        ApplyTxControl(false, sent);
        assert commands[..|commands| - 1] == old(commands);
      }
    }
  }

  // ---------------------------------------------------------------- split functions

  /** The worker inside update_tx_control: about to send, or sent and about to set g_tx_on. */
  datatype Worker = Idle | Sending(on: bool) | Recording(on: bool)

  /** A thread inside the OFF branch of cell_config_notify_bbu_link. */
  datatype Notifier = SendingOff | RecordingOff

  datatype Sys = Sys(linkOk: bool, txOn: bool, antenna: bool, worker: Worker, notifiers: map<nat, Notifier>)

  datatype Step =
    | WorkerReads(hasAnyFreq: bool)
    | WorkerSends(sent: bool)
    | WorkerRecords
    | NotifyLocks(id: nat, up: bool)
    | NotifySends(id: nat, sent: bool)
    | NotifyRecords(id: nat)

  /** One step of one thread; a step whose thread is not there does nothing. */
  function Next(s: Sys, step: Step): Sys {
    match step
    case WorkerReads(has) =>
      if s.worker.Idle? && s.linkOk then s.(worker := Sending(has)) else s
    case WorkerSends(sent) =>
      if !s.worker.Sending? then s
      else if sent then s.(antenna := s.worker.on, worker := Recording(s.worker.on))
      else s.(worker := Idle)
    case WorkerRecords =>
      if s.worker.Recording? then s.(txOn := s.worker.on, worker := Idle) else s
    case NotifyLocks(id, up) =>
      if id in s.notifiers then s
      else if up then s.(linkOk := true)
      else s.(linkOk := false, notifiers := if s.txOn then s.notifiers[id := SendingOff] else s.notifiers)
    case NotifySends(id, sent) =>
      if !(id in s.notifiers && s.notifiers[id].SendingOff?) then s
      else if sent then s.(antenna := false, notifiers := s.notifiers[id := RecordingOff])
      else s.(notifiers := s.notifiers - {id})
    case NotifyRecords(id) =>
      if id in s.notifiers && s.notifiers[id].RecordingOff? then s.(txOn := false, notifiers := s.notifiers - {id})
        else s
  }

  function Exec(s: Sys, steps: seq<Step>): Sys
    decreases |steps|
  {
    if steps == [] then s else Exec(Next(s, steps[0]), steps[1..])
  }

  predicate LinkStaysDown(steps: seq<Step>) {
    forall k :: 0 <= k < |steps| ==> !(steps[k].NotifyLocks? && steps[k].up)
  }

  predicate SendsSucceed(steps: seq<Step>) {
    forall k :: 0 <= k < |steps| ==>
      (steps[k].WorkerSends? ==> steps[k].sent) && (steps[k].NotifySends? ==> steps[k].sent)
  }

  /** No thread is inside either function. */
  predicate AtRest(s: Sys) {
    s.worker.Idle? && s.notifiers == map[]
  }

  /** How many ON commands a run puts on the line. */
  function OnCommands(s: Sys, steps: seq<Step>): nat
    decreases |steps|
  {
    if steps == [] then 0
    else
      (if steps[0].WorkerSends? && s.worker == Sending(true) then 1 else 0)
      + OnCommands(Next(s, steps[0]), steps[1..])
  }

  /** After a loss, until the link comes back, at most the one ON already decided on is still sent. */
  lemma {:induction false} AtMostOneOn(s: Sys, steps: seq<Step>)
    requires !s.linkOk && LinkStaysDown(steps)
    ensures OnCommands(s, steps) <= if s.worker == Sending(true) then 1 else 0
    decreases |steps|
  {
    if steps != [] {
      assert LinkStaysDown(steps[1..]);
      AtMostOneOn(Next(s, steps[0]), steps[1..]);
    }
  }

  /** The worker is past its link read and not yet past its flag write, with an ON. */
  predicate TurningOn(w: Worker) {
    w == Sending(true) || w == Recording(true)
  }

  /** Some notifier still has its OFF to send. */
  ghost predicate OffPending(s: Sys) {
    exists id :: id in s.notifiers && s.notifiers[id].SendingOff?
  }

  // ---------------------------------------------------------------- runs after a loss

  /** The link stays down and what is sent goes out. */
  predicate Orderly(steps: seq<Step>) {
    LinkStaysDown(steps) && SendsSucceed(steps)
  }

  lemma {:induction false} ExecAppend(s: Sys, a: seq<Step>, b: seq<Step>)
    requires Orderly(a) && Orderly(b)
    ensures Exec(s, a + b) == Exec(Exec(s, a), b) && Orderly(a + b)
    decreases |a|
  {
    if a == [] {
      assert a + b == b;
    } else {
      assert (a + b)[0] == a[0] && (a + b)[1..] == a[1..] + b;
      ExecAppend(Next(s, a[0]), a[1..], b);
    }
  }

  lemma TwoSteps(s: Sys, a: Step, b: Step, rest: seq<Step>)
    requires Orderly([a, b]) && Orderly(rest)
    ensures Exec(s, [a, b] + rest) == Exec(Next(Next(s, a), b), rest) && Orderly([a, b] + rest)
  {
    ExecTwo(s, a, b);
    ExecAppend(s, [a, b], rest);
  }

  /** One notifier runs to its end. */
  lemma DrainOne(s: Sys, id: nat)
    requires id in s.notifiers
    ensures var t := Next(Next(s, NotifySends(id, true)), NotifyRecords(id));
            && t.notifiers == s.notifiers - {id} && |t.notifiers| < |s.notifiers|
            && t.worker == s.worker && t.linkOk == s.linkOk && !t.txOn
            && (t.antenna && !OffPending(t) <==> s.antenna && !OffPending(s))
  {
    var t := Next(Next(s, NotifySends(id, true)), NotifyRecords(id));
    DropOne(s.notifiers, id, RecordingOff);
    if OffPending(t) {
      var other :| other in t.notifiers && t.notifiers[other].SendingOff?;
      assert other in s.notifiers && s.notifiers[other].SendingOff?;
    }
    if OffPending(s) && !s.notifiers[id].SendingOff? {
      var other :| other in s.notifiers && s.notifiers[other].SendingOff?;
      assert other in t.notifiers && t.notifiers[other].SendingOff?;
    }
  }

  /** The notifiers in flight can always run to their ends, leaving the worker where it is. */
  lemma {:induction false} Drain(s: Sys) returns (steps: seq<Step>)
    ensures Orderly(steps)
    ensures var e := Exec(s, steps);
            && e.notifiers == map[] && e.worker == s.worker && e.linkOk == s.linkOk
            && e.antenna == (s.antenna && !OffPending(s))
            && e.txOn == (s.txOn && s.notifiers == map[])
    decreases |s.notifiers|
  {
    if s.notifiers == map[] {
      return [];
    }
    hide Next, OffPending;
    var id :| id in s.notifiers;
    var a, b := NotifySends(id, true), NotifyRecords(id);
    DrainOne(s, id);
    var rest := Drain(Next(Next(s, a), b));
    TwoSteps(s, a, b, rest);
    steps := [a, b] + rest;
  }

  lemma DropOne(m: map<nat, Notifier>, id: nat, n: Notifier)
    requires id in m
    ensures m[id := n] - {id} == m - {id} && |m - {id}| < |m|
  {
    assert (m - {id}).Keys == m.Keys - {id};
  }

  /** The worker can always run to the end of its operation. */
  lemma WorkerFinishes(s: Sys) returns (steps: seq<Step>)
    ensures Orderly(steps)
    ensures var e := Exec(s, steps);
            && e.worker == Idle && e.notifiers == s.notifiers && e.linkOk == s.linkOk
            && e.antenna == (if s.worker.Sending? then s.worker.on else s.antenna)
            && e.txOn == (if s.worker.Idle? then s.txOn else s.worker.on)
  {
    match s.worker
    case Idle => steps := [];
    case Sending(on) =>
      steps := [WorkerSends(true), WorkerRecords];
      ExecTwo(s, WorkerSends(true), WorkerRecords);
    case Recording(on) =>
      steps := [WorkerRecords];
      ExecOne(s, WorkerRecords);
  }

  /** First the notifiers, then the worker. */
  lemma WorkerLast(s: Sys) returns (steps: seq<Step>)
    ensures Orderly(steps) && AtRest(Exec(s, steps))
    ensures var e := Exec(s, steps);
            && e.antenna == (if s.worker.Sending? then s.worker.on else s.antenna && !OffPending(s))
            && e.txOn == (if s.worker.Idle? then s.txOn && s.notifiers == map[] else s.worker.on)
  {
    var a := Drain(s);
    var b := WorkerFinishes(Exec(s, a));
    ExecAppend(s, a, b);
    steps := a + b;
  }

  /** First the worker, then the notifiers. */
  lemma WorkerFirst(s: Sys) returns (steps: seq<Step>)
    requires s.notifiers != map[]
    ensures Orderly(steps) && AtRest(Exec(s, steps))
    ensures var e := Exec(s, steps);
            && e.antenna == ((if s.worker.Sending? then s.worker.on else s.antenna) && !OffPending(s))
            && !e.txOn
  {
    var a := WorkerFinishes(s);
    var b := Drain(Exec(s, a));
    ExecAppend(s, a, b);
    steps := a + b;
  }

  // ---------------------------------------------------------------- when a loss stops transmission

  /** However the threads go on, they end with transmission off. */
  ghost predicate AlwaysStops(t: Sys) {
    forall steps {:trigger Exec(t, steps)} ::
      Orderly(steps) && AtRest(Exec(t, steps)) ==> !Exec(t, steps).antenna && !Exec(t, steps).txOn
  }

  /**
    No ON is under way; the antenna, if it transmits, has an OFF coming; the flag, if it is set,
    has someone to clear it.
   */
  ghost predicate Stopping(s: Sys) {
    && !TurningOn(s.worker)
    && (s.antenna ==> s.worker == Sending(false) || OffPending(s))
    && (s.txOn ==> !s.worker.Idle? || s.notifiers != map[])
  }

  lemma StoppingStep(s: Sys, step: Step)
    requires !s.linkOk && Stopping(s) && Orderly([step])
    ensures !Next(s, step).linkOk && Stopping(Next(s, step))
  {
    assert [step][0] == step;
    if OffPending(s) {
      OffStaysPending(s, step);
    }
    var t := Next(s, step);
    if step.NotifyLocks? && t != s && s.txOn {
      assert t.notifiers[step.id].SendingOff?;
    }
  }

  /** An OFF that is pending stays so as long as the antenna transmits and nobody turns it on. */
  lemma OffStaysPending(s: Sys, step: Step)
    requires OffPending(s) && !(step.NotifyLocks? && step.up) && (step.NotifySends? ==> step.sent)
    ensures OffPending(Next(s, step)) || (step.NotifySends? && !Next(s, step).antenna)
  {
    var id :| id in s.notifiers && s.notifiers[id].SendingOff?;
    var t := Next(s, step);
    if step.NotifySends? && step.id == id {
    } else {
      assert id in t.notifiers && t.notifiers[id].SendingOff?;
    }
  }

  lemma {:induction false} StoppingKept(s: Sys, steps: seq<Step>)
    requires !s.linkOk && Stopping(s) && Orderly(steps)
    ensures Stopping(Exec(s, steps))
    decreases |steps|
  {
    hide Stopping;
    if steps != [] {
      OneOfMany(steps);
      StoppingStep(s, steps[0]);
      StoppingKept(Next(s, steps[0]), steps[1..]);
    }
  }

  lemma OneOfMany(steps: seq<Step>)
    requires Orderly(steps) && steps != []
    ensures Orderly([steps[0]]) && Orderly(steps[1..])
  {
  }

  /** From any state with the link down, and with any number of threads inside any of the functions. */
  lemma StopsExactly(t: Sys)
    requires !t.linkOk
    ensures AlwaysStops(t) <==> Stopping(t)
  {
    if Stopping(t) {
      forall steps | Orderly(steps) && AtRest(Exec(t, steps))
        ensures !Exec(t, steps).antenna && !Exec(t, steps).txOn
      {
        StoppingKept(t, steps);
      }
    } else {
      var steps := WorkerLast(t);
      assert Exec(t, steps).antenna || Exec(t, steps).txOn;
    }
  }

  /**
    A loss, reported by a thread that is not inside the function already, stops transmission for
    certain if and only if no ON is under way and, where the antenna transmits, the flag says so or
    some OFF is on its way.
   */
  lemma LossStopsExactly(s: Sys, id: nat)
    requires id !in s.notifiers
    ensures AlwaysStops(Next(s, NotifyLocks(id, false))) <==>
            !TurningOn(s.worker) && (s.antenna ==> s.txOn || s.worker == Sending(false) || OffPending(s))
  {
    var t := Next(s, NotifyLocks(id, false));
    StopsExactly(t);
    LossPending(s, id);
  }

  lemma LossPending(s: Sys, id: nat)
    requires id !in s.notifiers
    ensures var t := Next(s, NotifyLocks(id, false));
            && (OffPending(t) <==> OffPending(s) || s.txOn)
            && (t.notifiers == map[] <==> s.notifiers == map[] && !s.txOn)
  {
    var t := Next(s, NotifyLocks(id, false));
    if s.txOn {
      assert t.notifiers[id].SendingOff?;
    }
  }

  // ---------------------------------------------------------------- when the flag stays right

  /** However the threads go on, they end with the flag saying what the antenna does. */
  ghost predicate AlwaysAgrees(t: Sys) {
    forall steps {:trigger Exec(t, steps)} ::
      Orderly(steps) && AtRest(Exec(t, steps)) ==> Exec(t, steps).antenna == Exec(t, steps).txOn
  }

  /**
    With an ON under way, nobody else may be inside or about to enter; with an OFF still to be sent
    by the worker anything may; otherwise what transmits must have an OFF coming.
   */
  ghost predicate Agreeing(s: Sys) {
    if TurningOn(s.worker) then s.notifiers == map[] && !s.txOn && (s.worker.Recording? ==> s.antenna)
    else if s.worker.Idle? && s.notifiers == map[] then s.antenna == s.txOn
    else s.antenna ==> s.worker == Sending(false) || OffPending(s)
  }

  lemma AgreeingStep(s: Sys, step: Step)
    requires !s.linkOk && Agreeing(s) && Orderly([step])
    ensures !Next(s, step).linkOk && Agreeing(Next(s, step))
  {
    assert [step][0] == step;
    if OffPending(s) {
      OffStaysPending(s, step);
    }
    var t := Next(s, step);
    if step.NotifyLocks? && t != s && s.txOn {
      assert t.notifiers[step.id].SendingOff?;
    }
  }

  lemma {:induction false} AgreeingKept(s: Sys, steps: seq<Step>)
    requires !s.linkOk && Agreeing(s) && Orderly(steps)
    ensures Agreeing(Exec(s, steps))
    decreases |steps|
  {
    hide Agreeing;
    if steps != [] {
      OneOfMany(steps);
      AgreeingStep(s, steps[0]);
      AgreeingKept(Next(s, steps[0]), steps[1..]);
    }
  }

  /** An ON whose command has gone out, racing with a notifier: one order or the other parts flag and antenna. */
  lemma RaceParts(s: Sys) returns (steps: seq<Step>)
    requires s.worker == Recording(true) && s.notifiers != map[]
    ensures Orderly(steps) && AtRest(Exec(s, steps)) && Exec(s, steps).antenna != Exec(s, steps).txOn
  {
    if s.antenna && !OffPending(s) {
      steps := WorkerFirst(s);
    } else {
      steps := WorkerLast(s);
    }
  }

  /** The same with the command still to be sent, and with a notifier only about to enter. */
  lemma RacePartsSoon(s: Sys) returns (steps: seq<Step>)
    requires TurningOn(s.worker) && !s.linkOk && (s.notifiers != map[] || s.txOn)
    ensures Orderly(steps) && AtRest(Exec(s, steps)) && Exec(s, steps).antenna != Exec(s, steps).txOn
  {
    var lock, send := NotifyLocks(0, false), WorkerSends(true);
    var t := Next(Next(s, lock), send);
    assert 0 in t.notifiers || t.notifiers != map[];
    var rest := RaceParts(t);
    TwoSteps(s, lock, send, rest);
    steps := [lock, send] + rest;
  }

  lemma AgreesExactly(t: Sys)
    requires !t.linkOk
    ensures AlwaysAgrees(t) <==> Agreeing(t)
  {
    if Agreeing(t) {
      forall steps | Orderly(steps) && AtRest(Exec(t, steps))
        ensures Exec(t, steps).antenna == Exec(t, steps).txOn
      {
        AgreeingKept(t, steps);
      }
    } else {
      var steps;
      if TurningOn(t.worker) && (t.notifiers != map[] || t.txOn) {
        steps := RacePartsSoon(t);
      } else {
        steps := WorkerLast(t);
      }
      assert Exec(t, steps).antenna != Exec(t, steps).txOn;
    }
  }

  /** No notifier is inside, and the flag is right as far as the worker has recorded what it sent. */
  predicate Consistent(s: Sys) {
    && (s.notifiers == map[])
    && (s.worker.Recording? ==> s.antenna == s.worker.on)
    && (!s.worker.Recording? ==> s.antenna == s.txOn)
  }

  /**
    From a consistent state a loss stops transmission unless an ON is under way, and parts flag and
    antenna in some run if and only if an ON is under way that repeats one already recorded.
   */
  lemma LossFromConsistent(s: Sys, id: nat)
    requires Consistent(s)
    ensures AlwaysStops(Next(s, NotifyLocks(id, false))) <==> !TurningOn(s.worker)
    ensures AlwaysAgrees(Next(s, NotifyLocks(id, false))) <==> !(TurningOn(s.worker) && s.txOn)
  {
    LossStopsExactly(s, id);
    LossPending(s, id);
    AgreesExactly(Next(s, NotifyLocks(id, false)));
  }

  lemma ExecOne(s: Sys, a: Step)
    ensures Exec(s, [a]) == Next(s, a)
  {
    assert [a][1..] == [];
  }

  lemma ExecTwo(s: Sys, a: Step, b: Step)
    ensures Exec(s, [a, b]) == Next(Next(s, a), b)
  {
    assert [a, b][1..] == [b];
    assert Exec(Next(s, a), [b]) == Next(Next(s, a), b);
  }

  lemma ExecFour(s: Sys, a: Step, b: Step, c: Step, d: Step)
    ensures Exec(s, [a, b, c, d]) == Next(Next(Next(Next(s, a), b), c), d)
  {
    assert [a, b, c, d][1..] == [b, c, d] && [b, c, d][1..] == [c, d];
    ExecTwo(Next(Next(s, a), b), c, d);
  }

  /** update_tx_control is never reached with the link up. */
  predicate NotUpdated(s: Sys, steps: seq<Step>)
    decreases |steps|
  {
    steps == [] || (!(steps[0].WorkerReads? && s.linkOk) && NotUpdated(Next(s, steps[0]), steps[1..]))
  }

  /** At rest with the flag off, no report of the link does anything to antenna or flag. */
  lemma {:induction false} OffUntilUpdated(s: Sys, steps: seq<Step>)
    requires AtRest(s) && !s.txOn && NotUpdated(s, steps)
    ensures Exec(s, steps) == s.(linkOk := Exec(s, steps).linkOk)
    decreases |steps|
  {
    if steps != [] {
      OffUntilUpdated(Next(s, steps[0]), steps[1..]);
    }
  }

  /**
    A run that ends with the antenna transmitting and g_tx_on false; from there on no loss, however
    many there are, stops the antenna before update_tx_control is reached with the link up.
   */
  lemma FlagCanBeLost(id: nat, later: seq<Step>)
    ensures var s := Sys(true, true, true, Sending(true), map[]);
            var steps := [NotifySends(id, true), WorkerSends(true), WorkerRecords, NotifyRecords(id)];
            var e := Exec(Next(s, NotifyLocks(id, false)), steps);
            && AtRest(e) && e.antenna && !e.txOn
            && (NotUpdated(e, later) ==>
                 AtRest(Exec(e, later)) && Exec(e, later).antenna && !Exec(e, later).txOn)
  {
    hide NotUpdated;
    var s := Sys(true, true, true, Sending(true), map[]);
    var t := Next(s, NotifyLocks(id, false));
    ExecFour(t, NotifySends(id, true), WorkerSends(true), WorkerRecords, NotifyRecords(id));
    assert map[id := RecordingOff] - {id} == map[];
    var e := Sys(false, false, true, Idle, map[]);
    if NotUpdated(e, later) {
      OffUntilUpdated(e, later);
    }
  }

  // ---------------------------------------------------------------- undisturbed, the steps are the functions

  /** An update that nothing interrupts does what the atomic function does. */
  lemma UpdateAlone(s: Sys, hasAnyFreq: bool, sent: bool)
    requires AtRest(s)
    ensures Exec(s, [WorkerReads(hasAnyFreq), WorkerSends(sent), WorkerRecords])
         == if s.linkOk && sent then s.(antenna := hasAnyFreq, txOn := hasAnyFreq) else s
  {
    var t := Next(s, WorkerReads(hasAnyFreq));
    assert [WorkerReads(hasAnyFreq), WorkerSends(sent), WorkerRecords][1..] == [WorkerSends(sent), WorkerRecords];
    ExecTwo(t, WorkerSends(sent), WorkerRecords);
  }

  /** A report of the link that nothing interrupts: a loss sends OFF exactly when the flag is set. */
  lemma ReportAlone(s: Sys, id: nat, up: bool, sent: bool)
    requires AtRest(s)
    ensures Exec(s, [NotifyLocks(id, up), NotifySends(id, sent), NotifyRecords(id)])
         == if !up && s.txOn && sent then s.(linkOk := false, antenna := false, txOn := false) else s.(linkOk := up)
  {
    var t := Next(s, NotifyLocks(id, up));
    assert [NotifyLocks(id, up), NotifySends(id, sent), NotifyRecords(id)][1..]
        == [NotifySends(id, sent), NotifyRecords(id)];
    ExecTwo(t, NotifySends(id, sent), NotifyRecords(id));
    assert map[id := SendingOff] - {id} == map[] && map[id := RecordingOff] - {id} == map[];
  }
}
