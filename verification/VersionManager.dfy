/**
  Trial activation of a software version (version_manager.c). Every system call that changes the
  file system is one step; `trace` records the disk after each, so that a crash between any two
  steps is a point of the trace. Calls may fail; what they do to the disk is atomic and in order.
 */
module VersionManager {
  import opened Bytes
  import opened Options
  import opened TrialRecord

  /** A directory path, as a C string in its 512-byte buffer; never empty for an installed version. */
  type Dir = s: string | |s| < DIR_BUF

  /** What strftime makes of the clock. */
  type Stamp = s: string | Clean(s) && |s| < TIME_BUF

  /** A version on trial and the one that was running when the trial was armed. */
  datatype Pair = Pair(newDir: string, prevDir: string)

  /**
    VERSION_CURRENT_LINK, the text of VERSION_TRIAL_FILE, their temporary names, and the installed
    versions. `meant` is in no file: it is what the last armed trial was about.
   */
  datatype Disk = Disk(
    current: Option<Dir>, record: Option<string>,
    linkTmp: Option<Dir>, recordTmp: bool,
    dirs: set<Dir>, meant: Option<Pair>)

  /** read_current_link: an empty string when there is no link. */
  function CurrentTarget(d: Disk): Dir {
    if d.current.Some? then d.current.value else ""
  }

  /** What trial_read finds in the record file. */
  function Fields(d: Disk): Trial {
    if d.record.Some? then ReadFrom(EMPTY, d.record.value) else EMPTY
  }

  /** trial_read succeeds when the file is there and names a version. */
  predicate HasRecord(d: Disk) {
    d.record.Some? && Fields(d).newDir != ""
  }

  /** There is an installed version to start. */
  predicate Startable(d: Disk) {
    "" !in d.dirs && d.current.Some? && d.current.value in d.dirs
  }

  /** The record file says: `target` is on trial, fall back to `prev`. */
  predicate Names(d: Disk, target: string, prev: string) {
    d.record.Some? && Fields(d).newDir == target && Fields(d).prevDir == prev
  }

  /** The last trial armed was of one installed version, with another one running. */
  predicate MeantOk(d: Disk) {
    d.meant.Some? ==>
      && d.meant.value.newDir in d.dirs && d.meant.value.prevDir in d.dirs
      && d.meant.value.newDir != d.meant.value.prevDir
  }

  /**
    The system can start a version, and a record names the version of the last trial armed and the
    one that was running then.
   */
  predicate Safe(d: Disk) {
    && Startable(d) && MeantOk(d)
    && (d.record.Some? ==> d.meant.Some? && Names(d, d.meant.value.newDir, d.meant.value.prevDir))
  }

  /** What version_manager_init does to the disk: drop a record that is not about the current version. */
  function AfterInit(d: Disk): Disk {
    if HasRecord(d) && CurrentTarget(d) != Fields(d).newDir then d.(record := None) else d
  }

  /** A trial of the version that is running. */
  predicate Running(d: Disk) {
    HasRecord(d) && CurrentTarget(d) == Fields(d).newDir
  }

  datatype ActivateResult = Success | NotExist | Corrupted | OtherError

  /**
    The calls of one trial_write. Their results are looked at for fopen and rename only: when no more
    than `bytes` bytes of the text reach the file it is committed all the same.
   */
  datatype Write = Write(fopen: bool, bytes: nat, rename: bool)

  /** Whether the fallible calls of one activation succeed, and what the clock said. */
  datatype Calls = Calls(clock: bool, stamp: Stamp, metadata: bool, mkdirRollback: bool, write: Write,
                         unlinkFirst: bool, symlink: bool, renameLink: bool, unlinkLast: bool)

  // ---------------------------------------------------------------- which requests commit a record

  /** switch_to_version gets as far as the trial record. */
  predicate Proceeds(d: Disk, target: Dir, c: Calls) {
    c.clock && target in d.dirs && c.metadata && (CurrentTarget(d) != "" ==> c.mkdirRollback)
  }

  predicate Same(d: Disk, target: Dir) {
    CurrentTarget(d) != "" && CurrentTarget(d) == target
  }

  /** The activation is a trial: a different version, with one to fall back to. */
  predicate IsTrial(d: Disk, target: Dir, trial: bool) {
    trial && !Same(d, target) && CurrentTarget(d) != "" && CurrentTarget(d) in d.dirs
  }

  predicate Commits(d: Disk, target: Dir, trial: bool, c: Calls) {
    Proceeds(d, target, c) && IsTrial(d, target, trial) && c.write.fopen && c.write.rename
  }

  /** The record an activation means to write. */
  function Wanted(d: Disk, target: Dir, c: Calls): Trial {
    Trial(target, CurrentTarget(d), 0, c.stamp)
  }

  /** The record file as it stands before the link is moved. */
  function Armed(d: Disk, target: Dir, trial: bool, c: Calls): Option<string> {
    if Same(d, target) then d.record
    else if !IsTrial(d, target, trial) then (if c.unlinkFirst then None else d.record)
    else if c.write.fopen && c.write.rename then Some(Cut(Wanted(d, target, c), c.write.bytes))
    else d.record
  }

  /** The last trial armed by then. */
  function Meant(d: Disk, target: Dir, trial: bool, c: Calls): Option<Pair> {
    if IsTrial(d, target, trial) && c.write.fopen && c.write.rename then Some(Pair(target, CurrentTarget(d)))
    else d.meant
  }

  // ---------------------------------------------------------------- the file-system steps of each call

  /** The disk after the last of some steps. */
  function After(d: Disk, steps: seq<Disk>): Disk {
    if steps == [] then d else steps[|steps| - 1]
  }

  lemma AfterAppend(d: Disk, a: seq<Disk>, b: seq<Disk>)
    ensures After(d, a + b) == After(After(d, a), b)
  {
    if b == [] {
      assert a + b == a;
    }
  }

  function RemoveSteps(d: Disk, unlink: bool): seq<Disk> {
    if unlink && d.record.Some? then [d.(record := None)] else []
  }

  /** The temporary file appears; then it becomes the record or is taken away. */
  function WriteSteps(d: Disk, t: Trial, about: Option<Pair>, w: Write): seq<Disk> {
    if !w.fopen then []
    else if !w.rename then [d.(recordTmp := true), d.(recordTmp := false)]
    else [d.(recordTmp := true), d.(recordTmp := false, record := Some(Cut(t, w.bytes)), meant := about)]
  }

  /** The temporary link is cleared and made; then it becomes the link or is taken away. */
  function LinkSteps(d: Disk, target: Dir, symlink: bool, rename: bool): seq<Disk> {
    var clear := d.(linkTmp := None);
    if !symlink then [clear]
    else [clear, d.(linkTmp := Some(target)), if rename then clear.(current := Some(target)) else clear]
  }

  /** The part of an activation before the link is touched. */
  function ArmSteps(d: Disk, target: Dir, trial: bool, c: Calls): seq<Disk> {
    if IsTrial(d, target, trial) then WriteSteps(d, Wanted(d, target, c), Some(Pair(target, CurrentTarget(d))), c.write)
    else if !Same(d, target) then RemoveSteps(d, c.unlinkFirst)
    else []
  }

  /** The part from the link on. */
  function MoveSteps(d: Disk, target: Dir, c: Calls): seq<Disk> {
    var moved := LinkSteps(d, target, c.symlink, c.renameLink);
    moved + if c.symlink && c.renameLink then [] else RemoveSteps(After(d, moved), c.unlinkLast)
  }

  function SwitchSteps(d: Disk, target: Dir, trial: bool, c: Calls): seq<Disk> {
    if !Proceeds(d, target, c) then []
    else
      var armed := ArmSteps(d, target, trial, c);
      armed + MoveSteps(After(d, armed), target, c)
  }

  /** version_trial_on_uptime rewrites the record of the running trial. */
  predicate Clears(d: Disk, confirmed: bool, stableDone: bool, stableSec: nat, sec: nat) {
    sec >= stableSec && !stableDone && !confirmed && Running(d) && Fields(d).attempts != 0
  }

  function UptimeSteps(d: Disk, confirmed: bool, stableDone: bool, stableSec: nat, sec: nat, w: Write): seq<Disk> {
    if Clears(d, confirmed, stableDone, stableSec, sec) then WriteSteps(d, Fields(d).(attempts := 0), d.meant, w)
    else []
  }

  /** A request that commits a text cut off before the end of the two versions, or broken by their names. */
  predicate Harms(d: Disk, confirmed: bool, stableDone: bool, stableSec: nat, op: Op) {
    match op
    case Activate(target, trial, c) =>
      Commits(d, target, trial, c) && !Kept(Wanted(d, target, c), c.write.bytes)
    case Channel(_) => false
    case Uptime(sec, w) =>
      && Clears(d, confirmed, stableDone, stableSec, sec)
      && w.fopen && w.rename && w.bytes < VersionsEnd(Fields(d))
  }

  datatype Op =
    | Activate(target: Dir, trial: bool, calls: Calls)
    | Channel(unlink: bool)
    | Uptime(sec: nat, write: Write)

  /**
    One thing after another in the life of the device: a request that runs to its end, one cut off
    after so many file-system steps, or a restart between requests. `unlink` is the outcome of the
    removal that the start after it may try.
   */
  datatype Event =
    | Request(op: Op)
    | Crash(op: Op, steps: nat, unlink: bool)
    | Restart(unlink: bool)

  /** A request of the past: the disk and the process it found, and how many steps it took. */
  datatype Entry = Entry(disk: Disk, confirmed: bool, stableDone: bool, op: Op, steps: nat)

  /** The request lived to its second step, the commit, and the text was damaged. */
  predicate HarmDone(e: Entry, stableSec: nat) {
    Harms(e.disk, e.confirmed, e.stableDone, stableSec, e.op) && e.steps >= 2
  }

  ghost predicate NoHarm(history: seq<Entry>, stableSec: nat) {
    forall j :: 0 <= j < |history| ==> !HarmDone(history[j], stableSec)
  }

  lemma NoHarmSnoc(history: seq<Entry>, e: Entry, stableSec: nat)
    ensures NoHarm(history + [e], stableSec) <==> NoHarm(history, stableSec) && !HarmDone(e, stableSec)
  {
    hide Harms;
    assert (history + [e])[|history|] == e;
    assert forall j :: 0 <= j < |history| ==> (history + [e])[j] == history[j];
  }

  ghost predicate AllSafe(trace: seq<Disk>) {
    forall k :: 0 <= k < |trace| ==> Safe(trace[k])
  }

  ghost predicate AllStartable(trace: seq<Disk>) {
    forall k :: 0 <= k < |trace| ==> Startable(trace[k])
  }

  /** Every step is safe, unless a damaged commit is the second of them. */
  ghost predicate SafeUnless(steps: seq<Disk>, harm: bool) {
    if harm then |steps| >= 2 && Safe(steps[0]) && !Safe(steps[1]) else AllSafe(steps)
  }

  // ---------------------------------------------------------------- what a crash in an activation leaves

  /** Before the link is touched only the record changes, and once. */
  lemma ArmedSteps(d: Disk, target: Dir, trial: bool, c: Calls)
    ensures var armed := ArmSteps(d, target, trial, c);
            && After(d, armed).record == Armed(d, target, trial, c)
            && After(d, armed).meant == Meant(d, target, trial, c)
            && After(d, armed).(recordTmp := d.recordTmp, record := d.record, meant := d.meant) == d
            && forall x :: x in armed ==>
                 && x.current == d.current && x.dirs == d.dirs
                 && ((x.record == d.record && x.meant == d.meant)
                     || (x.record == Armed(d, target, trial, c) && x.meant == Meant(d, target, trial, c)))
  {
  }

  /** From the link on, it is the old one or the new one, and the record goes only if it stays the old one. */
  lemma MovedSteps(d: Disk, target: Dir, c: Calls)
    ensures var e := After(d, MoveSteps(d, target, c));
            && e.current == (if c.symlink && c.renameLink then Some(target) else d.current)
            && e.record == (if (c.symlink && c.renameLink) || !c.unlinkLast then d.record else None)
    ensures forall x :: x in MoveSteps(d, target, c) ==>
              && x.dirs == d.dirs && x.meant == d.meant && x.current in {d.current, Some(target)}
              && (x.current != d.current ==> c.symlink && c.renameLink)
              && (x.record == d.record || (x.record == None && x.current == d.current))
              && x.recordTmp == d.recordTmp
    ensures MoveSteps(d, target, c) != [] && MoveSteps(d, target, c)[0] == d.(linkTmp := None)
  {
  }

  /** Each step of an activation is a step before the link is touched or one from there on. */
  lemma SwitchedSteps(d: Disk, target: Dir, trial: bool, c: Calls)
    requires Proceeds(d, target, c)
    ensures var armed := ArmSteps(d, target, trial, c);
            && (forall x :: x in SwitchSteps(d, target, trial, c) ==>
                 x in armed || x in MoveSteps(After(d, armed), target, c))
            && After(d, SwitchSteps(d, target, trial, c))
                 == After(After(d, armed), MoveSteps(After(d, armed), target, c))
            && |armed| < |SwitchSteps(d, target, trial, c)| && armed <= SwitchSteps(d, target, trial, c)
  {
  }

  /** The link only ever names the old version or the new one, so there is always a version to start. */
  lemma LinkNeverMissing(d: Disk, target: Dir, trial: bool, c: Calls)
    requires Startable(d)
    ensures forall x :: x in SwitchSteps(d, target, trial, c) ==>
              (x.current == d.current || (x.current == Some(target) && target in d.dirs)) && Startable(x)
  {
    hide SwitchSteps, ArmSteps, MoveSteps;
    if Proceeds(d, target, c) {
      SwitchedSteps(d, target, trial, c);
      ArmedSteps(d, target, trial, c);
      MovedSteps(After(d, ArmSteps(d, target, trial, c)), target, c);
    } else {
      NoSteps(d, target, trial, c);
    }
  }

  lemma NoSteps(d: Disk, target: Dir, trial: bool, c: Calls)
    ensures !Proceeds(d, target, c) ==> SwitchSteps(d, target, trial, c) == []
  {
  }

  /** A record of a trial of `target`, with no failed starts yet, that falls back to `prev`. */
  predicate Guards(d: Disk, target: string, prev: string) {
    Names(d, target, prev) && Fields(d).attempts == 0
  }

  /** What an activation commits is the record it meant exactly when the text is not damaged. */
  lemma CommitNames(d: Disk, target: Dir, trial: bool, c: Calls, x: Disk)
    requires IsTrial(d, target, trial) && x.record == Some(Cut(Wanted(d, target, c), c.write.bytes))
    ensures Names(x, target, CurrentTarget(d)) <==> Kept(Wanted(d, target, c), c.write.bytes)
    ensures Guards(x, target, CurrentTarget(d)) <==> Kept(Wanted(d, target, c), c.write.bytes)
  {
    hide Cut, ReadFrom, Kept;
    CutRecord(Wanted(d, target, c), c.write.bytes);
  }

  /** The steps of an activation that commits: two to arm it, the second being the commit. */
  lemma CommittedSteps(d: Disk, target: Dir, trial: bool, c: Calls)
    requires Commits(d, target, trial, c)
    ensures var steps := SwitchSteps(d, target, trial, c);
            && |steps| > 2 && steps[0] == d.(recordTmp := true)
            && steps[1] == d.(recordTmp := false, record := Armed(d, target, trial, c),
                              meant := Some(Pair(target, CurrentTarget(d))))
            && After(d, steps) == After(steps[1], MoveSteps(steps[1], target, c))
            && forall x :: x in steps ==> x == steps[0] || x == steps[1] || x in MoveSteps(steps[1], target, c)
  {
    hide MoveSteps, Cut;
    var armed := ArmSteps(d, target, trial, c);
    SwitchedSteps(d, target, trial, c);
    assert |armed| == 2 && SwitchSteps(d, target, trial, c)[..2] == armed;
  }

  /**
    From a safe disk every step is safe if and only if no damaged text is committed; and then the
    commit is the first step that is not.
   */
  lemma ActivationSafe(d: Disk, target: Dir, trial: bool, c: Calls)
    requires Safe(d)
    ensures SafeUnless(SwitchSteps(d, target, trial, c),
                       Commits(d, target, trial, c) && !Kept(Wanted(d, target, c), c.write.bytes))
  {
    hide SwitchSteps, MoveSteps, ArmSteps, Kept, Cut, ReadFrom;
    if !Proceeds(d, target, c) {
      NoSteps(d, target, trial, c);
    } else if Commits(d, target, trial, c) {
      CommittedSteps(d, target, trial, c);
      var steps := SwitchSteps(d, target, trial, c);
      CommitNames(d, target, trial, c, steps[1]);
      MovedSteps(steps[1], target, c);
    } else {
      var armed := ArmSteps(d, target, trial, c);
      SwitchedSteps(d, target, trial, c);
      ArmedSteps(d, target, trial, c);
      MovedSteps(After(d, armed), target, c);
    }
  }

  /**
    A crash anywhere in an activation that commits leaves, after the next start, the new version with
    a record that guards it, exactly when the text was not damaged; or the old version: with the record
    it had, before the commit, and with none after it.
   */
  lemma CrashLeaves(d: Disk, target: Dir, trial: bool, c: Calls, x: Disk)
    requires Startable(d) && Commits(d, target, trial, c) && x in SwitchSteps(d, target, trial, c)
    ensures x.current == Some(target) ==>
              (Guards(AfterInit(x), target, CurrentTarget(d)) <==> Kept(Wanted(d, target, c), c.write.bytes))
    ensures x.current != Some(target) && Kept(Wanted(d, target, c), c.write.bytes) ==>
              && x.current == d.current
              && AfterInit(x).record == if x.record == d.record then AfterInit(d).record else None
  {
    hide SwitchSteps, MoveSteps, Kept, Cut, ReadFrom;
    CommittedSteps(d, target, trial, c);
    var committed := SwitchSteps(d, target, trial, c)[1];
    MovedSteps(committed, target, c);
    CommitNames(d, target, trial, c, committed);
  }

  /**
    In an activation that commits, every step at which the new version is the current one has a
    record that guards it, exactly when the text was not damaged or the link never moves.
   */
  lemma NewVersionGuarded(d: Disk, target: Dir, trial: bool, c: Calls)
    requires Startable(d) && Commits(d, target, trial, c)
    ensures (forall x :: x in SwitchSteps(d, target, trial, c) && x.current == Some(target) ==>
              Guards(x, target, CurrentTarget(d)))
            <==> Kept(Wanted(d, target, c), c.write.bytes) || !(c.symlink && c.renameLink)
  {
    hide SwitchSteps, MoveSteps, ArmSteps, Kept, Cut, ReadFrom;
    CommittedSteps(d, target, trial, c);
    var steps := SwitchSteps(d, target, trial, c);
    MovedSteps(steps[1], target, c);
    CommitNames(d, target, trial, c, steps[1]);
    assert steps[|steps| - 1] == After(d, steps) && steps[|steps| - 1] in steps;
  }

  /** The last step of an activation that succeeds. */
  lemma SuccessLast(d: Disk, target: Dir, trial: bool, c: Calls)
    requires Proceeds(d, target, c) && c.symlink && c.renameLink
    ensures var e := After(d, SwitchSteps(d, target, trial, c));
            e.current == Some(target) && e.record == Armed(d, target, trial, c)
  {
    hide SwitchSteps, ArmSteps, MoveSteps, Armed;
    SwitchedSteps(d, target, trial, c);
    ArmedSteps(d, target, trial, c);
    MovedSteps(After(d, ArmSteps(d, target, trial, c)), target, c);
  }

  /**
    What a successful activation leaves, by who asked for it. A trial of another version than the one
    installed and running is guarded when its record reached the file; an activation by hand of
    another version leaves no record when the old one can be removed; and one of the version that is
    running leaves the record alone.
   */
  lemma ActivationLeaves(d: Disk, target: Dir, trial: bool, c: Calls)
    requires Proceeds(d, target, c) && c.symlink && c.renameLink && "" !in d.dirs
    ensures var e, prev := After(d, SwitchSteps(d, target, trial, c)), CurrentTarget(d);
            && (trial && target != prev && prev in d.dirs ==>
                  (Kept(Trial(target, prev, 0, c.stamp), c.write.bytes) && c.write.fopen && c.write.rename ==>
                    Guards(e, target, prev)))
            && ((!trial || prev !in d.dirs) && target != prev && c.unlinkFirst ==> e.record == None)
            && (target == prev ==> e.record == d.record)
  {
    hide SwitchSteps, Kept, Cut, ReadFrom;
    SuccessLast(d, target, trial, c);
    var e := After(d, SwitchSteps(d, target, trial, c));
    if IsTrial(d, target, trial) && c.write.fopen && c.write.rename {
      CommitNames(d, target, trial, c, e);
    }
  }

  /** Only a trial of another version writes a record; anything else can at most remove the one there is. */
  lemma OnlyTrialsWrite(d: Disk, target: Dir, trial: bool, c: Calls)
    requires !trial || target == CurrentTarget(d) || CurrentTarget(d) !in d.dirs
    requires "" !in d.dirs
    ensures forall x :: x in SwitchSteps(d, target, trial, c) ==>
              x.record in {None, d.record} && x.recordTmp == d.recordTmp
  {
    hide MoveSteps;
    if Proceeds(d, target, c) {
      SwitchedSteps(d, target, trial, c);
      MovedSteps(After(d, ArmSteps(d, target, trial, c)), target, c);
    }
  }

  /** Rewriting the record of the running trial: the same, for names that were read and so hold no line break. */
  lemma UptimeSafe(d: Disk, confirmed: bool, stableDone: bool, stableSec: nat, sec: nat, w: Write)
    requires Safe(d)
    ensures SafeUnless(UptimeSteps(d, confirmed, stableDone, stableSec, sec, w),
                       Harms(d, confirmed, stableDone, stableSec, Uptime(sec, w)))
  {
    hide Cut, ReadFrom, Kept;
    if Clears(d, confirmed, stableDone, stableSec, sec) {
      var t := Fields(d).(attempts := 0);
      ReadIsClean(EMPTY, d.record.value);
      ReadFits(EMPTY, d.record.value);
      CutRecord(t, w.bytes);
      assert Kept(t, w.bytes) <==> w.bytes >= VersionsEnd(Fields(d)) by {
        KeptRead(t, w.bytes);
      }
    }
  }

  /** What is read was read from a file, so writing it again keeps both versions unless the end is cut off. */
  lemma RewrittenGuards(d: Disk, bytes: nat)
    ensures var t := Fields(d).(attempts := 0);
            forall e: Disk :: e.record == Some(Cut(t, bytes)) && bytes >= VersionsEnd(Fields(d)) ==>
                       Guards(e, t.newDir, t.prevDir)
  {
    hide ReadFrom, Cut, Kept;
    var t := Fields(d).(attempts := 0);
    if d.record.Some? {
      ReadIsClean(EMPTY, d.record.value);
      ReadFits(EMPTY, d.record.value);
    }
    KeptRead(t, bytes);
    CutRecord(t, bytes);
  }

  lemma KeptRead(t: Trial, n: nat)
    requires CleanFields(t)
    ensures Kept(t, n) <==> n >= VersionsEnd(t)
  {
  }

  /** So a trial in progress loses its protection at the commit, before the link has moved. */
  lemma ProtectionLost(d: Disk, target: Dir, trial: bool, c: Calls)
    requires Safe(d) && Commits(d, target, trial, c) && Kept(Wanted(d, target, c), c.write.bytes)
    ensures exists x :: x in SwitchSteps(d, target, trial, c) && x.current == d.current && AfterInit(x).record == None
  {
    hide SwitchSteps, MoveSteps, ArmSteps, Kept, Cut, ReadFrom;
    CommittedSteps(d, target, trial, c);
    var x := SwitchSteps(d, target, trial, c)[1];
    CommitNames(d, target, trial, c, x);
    assert x in SwitchSteps(d, target, trial, c);
  }

  /** A text cut off inside the previous version names whatever version that much of it spells. */
  lemma TornFallback(d: Disk, target: Dir, trial: bool, c: Calls, k: nat)
    requires Commits(d, target, trial, c) && Clean(target) && Clean(CurrentTarget(d))
    requires k <= |CurrentTarget(d)| && c.write.bytes == |"new="| + |target| + 1 + |"previous="| + k
    ensures Names(SwitchSteps(d, target, trial, c)[1], target, CurrentTarget(d)[..k])
  {
    hide SwitchSteps, ReadFrom, Cut;
    CommittedSteps(d, target, trial, c);
    CutInPrevious(Wanted(d, target, c), k);
  }

  class Manager {
    var disk: Disk
    /** g_trial_confirmed, g_trial_stable_done and g_trial_stable_sec of this process */
    var confirmed: bool
    var stableDone: bool
    const stableSec: nat
    var trace: seq<Disk>
    ghost var history: seq<Entry>

    /** A process that starts on a disk, before version_manager_init. */
    constructor (disk: Disk, stableSec: nat)
      ensures this.disk == disk && trace == [disk] && !confirmed && !stableDone && this.stableSec == stableSec
      ensures history == []
    {
      this.disk, this.stableSec := disk, stableSec;
      confirmed, stableDone := false, false;
      trace, history := [disk], [];
    }

    ghost predicate Valid()
      reads this
    {
      trace != [] && disk == trace[|trace| - 1]
    }

    method Step(d: Disk)
      modifies `disk, `trace
      ensures Valid() && disk == d && trace == old(trace) + [d]
    {
      disk := d;
      trace := trace + [d];
    }

    /** trial_write: write a temporary file, then rename it over the record. */
    method TrialWrite(t: Trial, about: Option<Pair>, w: Write) returns (ok: bool)
      requires Valid()
      modifies `disk, `trace
      ensures ok == (w.fopen && w.rename)
      ensures Valid() && disk == After(old(disk), WriteSteps(old(disk), t, about, w))
      ensures trace == old(trace) + WriteSteps(old(disk), t, about, w)
    {
      if !w.fopen {
        return false;
      }
      Step(disk.(recordTmp := true));
      if !w.rename {
        Step(disk.(recordTmp := false));
        return false;
      }
      Step(disk.(recordTmp := false, record := Some(Cut(t, w.bytes)), meant := about));
      return true;
    }

    /** trial_remove; a failing unlink is tolerated. */
    method TrialRemove(unlinkOk: bool)
      requires Valid()
      modifies `disk, `trace
      ensures Valid() && disk == After(old(disk), RemoveSteps(old(disk), unlinkOk))
      ensures trace == old(trace) + RemoveSteps(old(disk), unlinkOk)
    {
      if unlinkOk && disk.record.Some? {
        Step(disk.(record := None));
      }
    }

    /** replace_current_link: build the link under a temporary name, then rename it over the old one. */
    method ReplaceCurrentLink(target: Dir, symlinkOk: bool, renameOk: bool) returns (ok: bool)
      requires Valid()
      modifies `disk, `trace
      ensures ok == (symlinkOk && renameOk)
      ensures Valid() && disk == After(old(disk), LinkSteps(old(disk), target, symlinkOk, renameOk))
      ensures trace == old(trace) + LinkSteps(old(disk), target, symlinkOk, renameOk)
    {
      Step(disk.(linkTmp := None));
      if !symlinkOk {
        return false;
      }
      Step(disk.(linkTmp := Some(target)));
      if !renameOk {
        Step(disk.(linkTmp := None));
        return false;
      }
      Step(disk.(current := Some(target), linkTmp := None));
      return true;
    }

    /** The part of switch_to_version that comes before the link is touched. */
    method Arm(target: Dir, trial: bool, c: Calls)
      requires Valid()
      modifies `disk, `trace
      ensures Valid() && disk == After(old(disk), ArmSteps(old(disk), target, trial, c))
      ensures trace == old(trace) + ArmSteps(old(disk), target, trial, c)
    {
      hide WriteSteps, RemoveSteps;
      var currentTarget := CurrentTarget(disk);
      var same := currentTarget != "" && currentTarget == target;
      if trial && !same && currentTarget != "" && currentTarget in disk.dirs {
        var t := Trial(target, currentTarget, 0, c.stamp);
        var armed := TrialWrite(t, Some(Pair(target, currentTarget)), c.write);
      } else if !same {
        TrialRemove(c.unlinkFirst);
      }
    }

    /** The part of switch_to_version from the link on. */
    method Move(target: Dir, c: Calls) returns (moved: bool)
      requires Valid()
      modifies `disk, `trace
      ensures moved == (c.symlink && c.renameLink)
      ensures Valid() && disk == After(old(disk), MoveSteps(old(disk), target, c))
      ensures trace == old(trace) + MoveSteps(old(disk), target, c)
    {
      hide LinkSteps, RemoveSteps;
      ghost var d := disk;
      ghost var link := LinkSteps(d, target, c.symlink, c.renameLink);
      moved := ReplaceCurrentLink(target, c.symlink, c.renameLink);
      assert link + [] == link;
      if !moved {
        Assoc(old(trace), link, RemoveSteps(disk, c.unlinkLast));
        AfterAppend(d, link, RemoveSteps(disk, c.unlinkLast));
        TrialRemove(c.unlinkLast);
      }
    }

    /** switch_to_version once nothing stands against it. */
    method ArmAndMove(target: Dir, trial: bool, c: Calls) returns (moved: bool)
      requires Valid() && Proceeds(disk, target, c)
      modifies `disk, `trace
      ensures moved == (c.symlink && c.renameLink)
      ensures Valid() && disk == After(old(disk), SwitchSteps(old(disk), target, trial, c))
      ensures trace == old(trace) + SwitchSteps(old(disk), target, trial, c)
      ensures disk.dirs == old(disk).dirs && disk.current == if moved then Some(target) else old(disk).current
      ensures disk.record == if moved || !c.unlinkLast then Armed(old(disk), target, trial, c) else None
    {
      hide ArmSteps, MoveSteps, Armed;
      ghost var d := disk;
      ArmedSteps(d, target, trial, c);
      SwitchedSteps(d, target, trial, c);
      Arm(target, trial, c);
      MovedSteps(disk, target, c);
      Assoc(old(trace), ArmSteps(d, target, trial, c), MoveSteps(disk, target, c));
      moved := Move(target, c);
    }

    /** switch_to_version */
    method SwitchToVersion(target: Dir, trial: bool, c: Calls) returns (result: ActivateResult)
      requires Valid()
      modifies `disk, `trace
      ensures Valid() && trace == old(trace) + SwitchSteps(old(disk), target, trial, c)
      ensures result == if !c.clock then OtherError
                        else if target !in old(disk).dirs then NotExist
                        else if !c.metadata then Corrupted
                        else if CurrentTarget(old(disk)) != "" && !c.mkdirRollback then OtherError
                        else if !c.symlink || !c.renameLink then OtherError
                        else Success
      // refused before anything is changed
      ensures !c.clock || result in {NotExist, Corrupted} || (CurrentTarget(old(disk)) != "" && !c.mkdirRollback) ==>
                disk == old(disk) && trace == old(trace)
      // a trial of another version than the installed one that is running is guarded, if its record was written
      ensures result == Success && trial && target != CurrentTarget(old(disk)) && CurrentTarget(old(disk)) in disk.dirs
              && "" !in disk.dirs && c.write.fopen && c.write.rename
              && Kept(Trial(target, CurrentTarget(old(disk)), 0, c.stamp), c.write.bytes) ==>
                Guards(disk, target, CurrentTarget(old(disk)))
      // anything else never writes a record: another version's goes, the running version's stays
      ensures !trial && "" !in disk.dirs ==>
                && (forall x :: x in trace[|old(trace)|..] ==> x.record in {None, old(disk).record})
                && (result == Success && target != CurrentTarget(old(disk)) && c.unlinkFirst ==> disk.record == None)
      ensures result == Success && target == CurrentTarget(old(disk)) && "" !in disk.dirs ==>
                disk.record == old(disk).record
      ensures result == Success ==>
                disk.current == Some(target) && disk.record == Armed(old(disk), target, trial, c)
      ensures disk.dirs == old(disk).dirs && disk == After(old(disk), SwitchSteps(old(disk), target, trial, c))
      // a link that could not be moved costs the record, whichever version it was about
      ensures result == OtherError && Proceeds(old(disk), target, c) ==>
                && disk.current == old(disk).current
                && disk.record == if c.unlinkLast then None else Armed(old(disk), target, trial, c)
    {
      hide SwitchSteps, Armed, Kept, ReadFrom;
      assert trace + [] == trace;
      if !trial && "" !in disk.dirs {
        OnlyTrialsWrite(disk, target, trial, c);
      }
      NoSteps(disk, target, trial, c);
      if !c.clock {
        return OtherError;
      }
      if target !in disk.dirs {
        return NotExist;
      }
      if !c.metadata {
        return Corrupted;
      }
      var currentTarget := CurrentTarget(disk);
      if currentTarget != "" && !c.mkdirRollback {
        return OtherError;
      }
      if c.symlink && c.renameLink && "" !in disk.dirs {
        ActivationLeaves(disk, target, trial, c);
      }
      var moved := ArmAndMove(target, trial, c);
      result := if moved then Success else OtherError;
    }

    /** The trial part of version_manager_init. */
    method Init(unlinkOk: bool)
      requires Valid()
      modifies `disk, `trace
      ensures Valid() && disk == if unlinkOk then AfterInit(old(disk)) else old(disk)
      ensures disk == if unlinkOk && Fields(old(disk)).newDir !in {"", CurrentTarget(old(disk))}
                      then old(disk).(record := None) else old(disk)
      ensures trace == if disk == old(disk) then old(trace) else old(trace) + [disk]
    {
      if HasRecord(disk) && CurrentTarget(disk) != Fields(disk).newDir {
        TrialRemove(unlinkOk);
      }
    }

    /** version_trial_on_channel_established: the first channel to the BBU ends any trial. */
    method OnChannelEstablished(unlinkOk: bool)
      requires Valid()
      modifies `disk, `trace, `confirmed
      ensures Valid() && confirmed
      ensures disk == if !old(confirmed) && HasRecord(old(disk)) && unlinkOk then old(disk).(record := None)
                else old(disk)
      ensures trace == if disk == old(disk) then old(trace) else old(trace) + [disk]
    {
      if confirmed {
        return;
      }
      confirmed := true;
      if HasRecord(disk) {
        TrialRemove(unlinkOk);
      }
    }

    /** version_trial_on_uptime: once the process has run long enough, forget the failed starts. */
    method OnUptime(sec: nat, w: Write)
      requires Valid()
      modifies `disk, `trace, `stableDone
      ensures Valid() && old(trace) <= trace
      ensures stableDone == (old(stableDone) || (sec >= stableSec && !old(confirmed)))
      ensures var clears := Clears(old(disk), old(confirmed), old(stableDone), stableSec, sec);
              && disk.current == old(disk).current
              && disk.record == (if clears && w.fopen && w.rename
                                 then Some(Cut(Fields(old(disk)).(attempts := 0), w.bytes)) else old(disk).record)
      ensures disk.(recordTmp := false, record := None) == old(disk).(recordTmp := false, record := None)
      // a record of the version that is running, with failed starts, loses these and nothing else; any other stays
      ensures var t := Fields(old(disk));
              if && sec >= stableSec && !old(stableDone) && !old(confirmed)
                 && t.newDir == CurrentTarget(old(disk)) && t.newDir != "" && t.attempts != 0
              then w.fopen && w.rename && w.bytes >= VersionsEnd(t) ==> Guards(disk, t.newDir, t.prevDir)
              else disk == old(disk)
      ensures trace == old(trace) + UptimeSteps(old(disk), old(confirmed), old(stableDone), stableSec, sec, w)
    {
      hide ReadFrom, Cut, VersionsEnd;
      RewrittenGuards(disk, w.bytes);
      if sec < stableSec {
        return;
      }
      if stableDone || confirmed {
        return;
      }
      stableDone := true;
      if HasRecord(disk) && Fields(disk).attempts != 0 {
        var t := Fields(disk);
        if CurrentTarget(disk) == t.newDir {
          var ok := TrialWrite(t.(attempts := 0), disk.meant, w);
        }
      }
    }

    /** One request or timer event of a process. */
    method Do(op: Op)
      requires Valid()
      modifies `disk, `trace, `confirmed, `stableDone
      ensures Valid() && old(trace) <= trace
      ensures var steps := trace[|old(trace)|..];
              && (Startable(old(disk)) ==> AllStartable(steps))
              && (Safe(old(disk)) ==>
                   SafeUnless(steps, Harms(old(disk), old(confirmed), old(stableDone), stableSec, op)))
    {
      hide Commits, SwitchSteps;
      match op
      case Activate(target, trial, calls) =>
        var r := SwitchToVersion(target, trial, calls);
        if Startable(old(disk)) {
          LinkNeverMissing(old(disk), target, trial, calls);
        }
        if Safe(old(disk)) {
          ActivationSafe(old(disk), target, trial, calls);
        }
        assert trace[|old(trace)|..] == SwitchSteps(old(disk), target, trial, calls);
      case Channel(unlink) =>
        OnChannelEstablished(unlink);
      case Uptime(sec, w) =>
        if Safe(disk) {
          UptimeSafe(disk, confirmed, stableDone, stableSec, sec, w);
        }
        OnUptime(sec, w);
        assert trace[|old(trace)|..] == UptimeSteps(old(disk), old(confirmed), old(stableDone), stableSec, sec, w);
    }

    /** The power fails after `steps` steps of what was done since the trace had `from` entries. */
    method CutOff(from: nat, steps: nat) returns (n: nat)
      requires Valid() && 0 < from <= |trace|
      modifies `disk, `trace, `confirmed, `stableDone
      ensures Valid() && n == Min(steps, |old(trace)| - from) && trace == old(trace)[..from + n]
      ensures !confirmed && !stableDone
    {
      n := Min(steps, |trace| - from);
      trace := trace[..from + n];
      disk := trace[|trace| - 1];
      confirmed, stableDone := false, false;
    }

    /**
      The whole life of the device: requests, crashes after any file-system step of any request, and
      restarts, each followed by version_manager_init on the disk as it was left. There is always a
      version to start; and every state is safe, its record naming the version of the last trial
      armed and the one that was running then, if and only if no request lived to commit a text that
      was cut off before the end of the two versions or broken by a line break in them.
     */
    method Lifetime(events: seq<Event>)
      requires Safe(disk) && trace == [disk] && history == []
      modifies this
      ensures AllStartable(trace)
      ensures AllSafe(trace) <==> NoHarm(history, stableSec)
    {
      assert AllSafe(trace) && AllStartable(trace);
      for i := 0 to |events|
        invariant Valid() && AllStartable(trace)
        invariant AllSafe(trace) <==> NoHarm(history, stableSec)
      {
        Live(events[i]);
      }
    }

    /** One event of that life. */
    method Live(e: Event)
      requires Valid() && AllStartable(trace)
      requires AllSafe(trace) <==> NoHarm(history, stableSec)
      modifies this
      ensures Valid() && AllStartable(trace) && old(history) <= history
      ensures AllSafe(trace) <==> NoHarm(history, stableSec)
      ensures !e.Restart? ==> |history| == |old(history)| + 1 && history[|old(history)|].disk == old(disk)
                              && history[|old(history)|].op == e.op
    {
      hide Safe, Startable, Harms, AfterInit;
      if e.Restart? {
        Start(e.unlink);
        return;
      }
      ghost var before := trace;
      ghost var found := Entry(disk, confirmed, stableDone, e.op, 0);
      var from := |trace|;
      Do(e.op);
      ghost var steps := trace[from..];
      var n := |trace| - from;
      if e.Crash? {
        n := CutOff(from, e.steps);
      }
      assert trace == before + steps[..n];
      LifeGoesOn(before, steps, Harms(found.disk, found.confirmed, found.stableDone, stableSec, e.op), n);
      NoHarmSnoc(history, found.(steps := n), stableSec);
      history := history + [found.(steps := n)];
      if e.Crash? {
        Start(e.unlink);
      }
    }

    /** A new process on the disk as it is. */
    method Start(unlinkOk: bool)
      requires Valid() && AllStartable(trace)
      modifies `disk, `trace, `confirmed, `stableDone
      ensures Valid() && !confirmed && !stableDone && disk == if unlinkOk then AfterInit(old(disk)) else old(disk)
      ensures AllStartable(trace) && (AllSafe(trace) <==> old(AllSafe(trace)))
    {
      hide Safe, Startable, AfterInit;
      confirmed, stableDone := false, false;
      InitSafe(disk);
      Init(unlinkOk);
      if trace != old(trace) {
        assert trace[..|old(trace)|] == old(trace) && trace[|old(trace)|] == disk;
        assert AllSafe(trace) ==> forall k :: 0 <= k < |old(trace)| ==> Safe(trace[k]) && trace[k] == old(trace)[k];
      }
    }
  }

  /** A start never makes a disk worse. */
  lemma InitSafe(d: Disk)
    ensures Safe(d) ==> Safe(AfterInit(d))
    ensures Startable(d) ==> Startable(AfterInit(d))
  {
  }

  /** What a request adds to a life, cut off after `n` of its steps. */
  lemma LifeGoesOn(before: seq<Disk>, steps: seq<Disk>, harm: bool, n: nat)
    requires before != [] && n <= |steps| && AllStartable(before) && AllStartable(steps)
    requires Safe(before[|before| - 1]) ==> SafeUnless(steps, harm)
    ensures AllStartable(before + steps[..n])
    ensures AllSafe(before + steps[..n]) <==> AllSafe(before) && !(harm && n >= 2)
  {
    hide Safe, Startable;
    var trace := before + steps[..n];
    assert forall k :: 0 <= k < |before| ==> trace[k] == before[k];
    assert forall k :: 0 <= k < n ==> trace[|before| + k] == steps[k];
  }
}
