/** What becomes of an actuator's current command in a tick, and what is sent to it: the
    working-status check, the sensor loop and the sending of software/gos/src/gos_device.c
    taken together, for every status a command can have. */
module CommandFate {
  import opened Words
  import opened Commands
  import opened CommandInvariants
  import opened CommandRuns
  import opened ServerRuns
  import opened TickEffects
  import opened CommandTheorems

  datatype Fate = Stays(status: Status) | Ends(status: Status)

  /** The life of a current command, tick by tick: whether its actuator reports work, whether a
      stop command waits, and whether a touched limiter is within reach. */
  function FateOf(stat: Status, works: bool, stop: bool, limiter: bool): Fate
  {
    if stat == StoppingByStop then if works then Stays(StoppingByStop) else Ends(FinishedByStop)
    else if stat == Sent && !works then if stop then Stays(StoppingByStop) else Stays(Sent)
    else if !works then Ends(if stat == StoppingByAsensor then FinishedByAsensor else FinishedNormally)
    else if stop then Stays(StoppingByStop)
    else if stat == StoppingByAsensor || limiter then Stays(StoppingByAsensor)
    else Stays(Working)
  }

  /** The eighth, sixteenth, ... tick without a reaction. */
  predicate ResendsNow(c: Cmd) { !c.IsStop() && (c.resentignore + 1) % RESENT_IGNORE_COUNT == 0 }

  /** What is sent in a tick that leaves the command with that status. */
  function SentThen(d: Dev, st: Status, conns: set<int>): seq<Frame>
  {
    if st == StoppingByStop then Sending(d, d.waiting, conns)
    else if st == StoppingByAsensor || (st == Sent && ResendsNow(d.current)) then Sending(d, d.current, conns)
    else []
  }

  /** The command after that tick, with its counters. */
  function CommandThen(d: Dev, st: Status, conns: set<int>): Cmd
  {
    var c := d.current;
    if st == StoppingByStop || st == StoppingByAsensor then c.(stat := st, stopcnt := c.stopcnt + 1)
    else if st == Sent && !c.IsStop() then
      c.(stat := st, resentignore := c.resentignore + 1, workcnt := c.workcnt + One(ResendsNow(c) && d.gcgid in conns))
    else c.(stat := st)
  }

  function WaitingThen(d: Dev, st: Status, conns: set<int>): Cmd
  {
    if st == StoppingByStop then d.waiting.(arg := d.current.arg, workcnt := d.waiting.workcnt + One(d.gcgid in conns))
    else d.waiting
  }

  /** The device once its current slot is free: the waiting command moves up and is sent. */
  function MovedUp(d: Dev, conns: set<int>): Dev
  {
    if d.waiting.stat == Waiting
    then d.(current := d.waiting.(stat := Sent, workcnt := d.waiting.workcnt + One(d.gcgid in conns)),
            waiting := d.waiting.(stat := NoCommand))
    else d
  }

  function SentUp(d: Dev, conns: set<int>): seq<Frame>
  {
    if d.waiting.stat == Waiting then Sending(d, d.waiting, conns) else []
  }

  // ---------------------------------------------------------------- the three steps

  /** The status the working-status check leaves, or ends with. */
  function CheckedFate(stat: Status, works: bool, stop: bool): Fate { FateOf(stat, works, stop, false) }

  /** The device and the new archive entries after the check. */
  predicate Checked(d: Dev, io: Io, d': Dev, io': Io, fate: Fate)
  {
    && io'.wire == io.wire
    && match fate
       case Stays(st) =>
         d' == d.(current := d.current.(stat := st)) && io'.history == io.history
       case Ends(st) =>
         if st == FinishedByStop
         then && d' == d.(current := d.current.(stat := NoCommand), waiting := d.waiting.(stat := NoCommand))
              && io'.history == io.history + [d.current.(stat := st), d.waiting.(stat := FinishedNormally)]
         else && d' == d.(current := d.current.(stat := NoCommand))
              && io'.history == io.history + [d.current.(stat := st)]
  }

  lemma CheckWorks(d: Dev, io: Io)
    requires Good(d, io) && d.current.Live() && ReportedTime(d) > 0
    ensures var (d', io') := CheckWorking(d, io);
      Checked(d, io, d', io', CheckedFate(d.current.stat, true, StopIsWaiting(d)))
  {
    hide Good, SetCurrent, SetWaiting, UpdateStatus, ReportedTime;
    Statuses(d, io);
    if d.current.stat == Sent {
      CheckSentWorks(d, io);
    } else if StopIsWaiting(d) {
      CurrentSet(d, StoppingByStop, io);
    }
  }

  lemma CheckSentWorks(d: Dev, io: Io)
    requires d.current.stat == Sent && ReportedTime(d) > 0
    ensures var (d', io') := CheckWorking(d, io);
      Checked(d, io, d', io', CheckedFate(Sent, true, StopIsWaiting(d)))
  {
    hide SetCurrent, SetWaiting, UpdateStatus, ReportedTime;
    CurrentSet(d, Working, io);
    var (d0, io0) := SetCurrent(d, Working, io);
    if StopIsWaiting(d0) { CurrentSet(d0, StoppingByStop, io0); }
  }

  lemma CheckRests(d: Dev, io: Io)
    requires Good(d, io) && d.current.Live() && ReportedTime(d) <= 0
    ensures var (d', io') := CheckWorking(d, io);
      Checked(d, io, d', io', CheckedFate(d.current.stat, false, StopIsWaiting(d)))
  {
    hide Good, SetCurrent, SetWaiting, UpdateStatus, ReportedTime;
    Statuses(d, io);
    match d.current.stat
    case Sent => CurrentSet(d, StoppingByStop, io);
    case Working => CurrentSet(d, FinishedNormally, io);
    case StoppingByAsensor => CurrentSet(d, FinishedByAsensor, io);
    case StoppingByStop => RestEndsStop(d, io);
    case _ => assert false;
  }

  lemma RestEndsStop(d: Dev, io: Io)
    requires Good(d, io) && d.current.stat == StoppingByStop && ReportedTime(d) <= 0
    ensures var (d', io') := CheckWorking(d, io); Checked(d, io, d', io', Ends(FinishedByStop))
  {
    hide Good, SetCurrent, SetWaiting, UpdateStatus, ReportedTime, Conserves, Frames;
    RetireBothKeeps(d, io);
    Statuses(d, io);
  }

  lemma CheckFate(d: Dev, io: Io)
    requires Good(d, io) && d.current.Live()
    ensures var (d', io') := CheckWorking(d, io);
      Checked(d, io, d', io', CheckedFate(d.current.stat, ReportedTime(d) > 0, StopIsWaiting(d)))
  {
    hide Good, CheckWorking, ReportedTime, Checked, CheckedFate;
    if ReportedTime(d) > 0 { CheckWorks(d, io); } else { CheckRests(d, io); }
  }

  lemma CurrentSet(d: Dev, st: Status, io: Io)
    ensures var (d', io') := SetCurrent(d, st, io);
      && d' == d.(current := d.current.(stat := if st.Terminal() then NoCommand else st)) && io'.wire == io.wire
      && io'.history == io.history + (if st.Terminal() then [d.current.(stat := st)] else [])
  {
    if !st.Terminal() { assert io.history + [] == io.history; }
  }

  lemma {:induction false} ScanKeepsHistory(d: Dev, devs: seq<Dev>, j: nat, io: Io)
    ensures ScanAsensors(d, devs, j, io).1.history == io.history
    decreases |d.asensors| - j
  {
    hide FindDevice;
    if j < |d.asensors| {
      ScanKeepsHistory(d, devs, j + 1, io);
      var (d1, io1) := LimitStop(d, io);
      assert d1.asensors == d.asensors && io1.history == io.history;
      ScanKeepsHistory(d1, devs, j + 1, io1);
    }
  }

  /** The sensor loop turns a working command into a stopping one exactly if a touched limiter
      is within reach, and does nothing else. */
  lemma AsensorFate(d: Dev, devs: seq<Dev>, io: Io)
    requires Good(d, io)
    ensures var (d', io') := ControlWithAsensor(d, devs, io);
      && io'.wire == io.wire && io'.history == io.history
      && d' == if d.current.stat == Working && LimiterOn(d, devs)
               then d.(current := d.current.(stat := StoppingByAsensor)) else d
  {
    hide ScanAsensors, Good, Local, LimiterOn;
    ControlWithAsensorKeeps(d, devs, io);
    ScanExact(d, devs, io);
    if d.usedAsensor { ScanKeepsHistory(d, devs, 0, io); }
  }

  lemma SendFate(d: Dev, conns: set<int>, io: Io)
    requires d.current.Live()
    ensures var (d', io') := SendCommand(d, conns, io);
      var st := d.current.stat;
      && io'.history == io.history && io'.wire == io.wire + SentThen(d, st, conns)
      && d' == d.(current := CommandThen(d, st, conns), waiting := WaitingThen(d, st, conns))
  {
  }

  lemma SendMovesUp(d: Dev, conns: set<int>, io: Io)
    requires !d.current.Live()
    ensures var (d', io') := SendCommand(d, conns, io);
      io'.history == io.history && io'.wire == io.wire + SentUp(d, conns) && d' == MovedUp(d, conns)
  {
    if d.waiting.stat != Waiting { assert io.wire + [] == io.wire; }
  }

  // ------------------------------------------------------------ one actuator's share

  /** What an actuator's share of a tick does to the device, the archive and the wire. */
  ghost predicate Served(d: Dev, conns: set<int>, fate: Fate, d': Dev, archived: seq<Cmd>, frames: seq<Frame>)
  {
    match fate
    case Stays(st) =>
      && archived == [] && frames == SentThen(d, st, conns)
      && d' == d.(current := CommandThen(d, st, conns), waiting := WaitingThen(d, st, conns))
    case Ends(st) =>
      if st == FinishedByStop
      then && archived == [d.current.(stat := st), d.waiting.(stat := FinishedNormally)] && frames == []
           && d' == d.(current := d.current.(stat := NoCommand), waiting := d.waiting.(stat := NoCommand))
      else && archived == [d.current.(stat := st)] && frames == SentUp(d, conns)
           && d' == MovedUp(d.(current := d.current.(stat := NoCommand)), conns)
  }

  /** The fate of a live current command is decided by its status, the report, the waiting stop
      and the limiters, and by nothing else. */
  lemma ServeFate(d: Dev, devs: seq<Dev>, conns: set<int>, io: Io)
    requires Good(d, io) && ReportIsPlausible(d) && d.current.Live()
    ensures var (d', io') := ServeActuator(d, devs, conns, io);
      && io.history <= io'.history && io.wire <= io'.wire
      && Served(d, conns, FateOf(d.current.stat, ReportedTime(d) > 0, StopIsWaiting(d), LimiterOn(d, devs)), d',
                io'.history[|io.history|..], io'.wire[|io.wire|..])
  {
    hide Good, CheckWorking, ControlWithAsensor, SendCommand, ReportedTime, LimiterOn, ReportIsPlausible, FateOf, Checked, Served;
    CheckAndSense(d, devs, io);
    var (d1, io1) := CheckWorking(d, io);
    var (d2, io2) := ControlWithAsensor(d1, devs, io1);
    SendServes(d, io, d2, io2, conns, FateOf(d.current.stat, ReportedTime(d) > 0, StopIsWaiting(d), LimiterOn(d, devs)));
  }

  lemma CheckAndSense(d: Dev, devs: seq<Dev>, io: Io)
    requires Good(d, io) && ReportIsPlausible(d) && d.current.Live()
    ensures var (d1, io1) := CheckWorking(d, io);
      var (d2, io2) := ControlWithAsensor(d1, devs, io1);
      && Checked(d, io, d2, io2, FateOf(d.current.stat, ReportedTime(d) > 0, StopIsWaiting(d), LimiterOn(d, devs)))
      && FateOf(d.current.stat, ReportedTime(d) > 0, StopIsWaiting(d), LimiterOn(d, devs)) != Stays(NoCommand)
  {
    hide Good, CheckWorking, ControlWithAsensor, ReportedTime, LimiterOn, Conserves, Frames, ReportIsPlausible, FateOf, CheckedFate, Checked;
    Statuses(d, io);
    CheckFate(d, io);
    CheckWorkingKeeps(d, io);
    var (d1, io1) := CheckWorking(d, io);
    AsensorFate(d1, devs, io1);
    LimiterOfSlots(d, d1, devs);
    FateAfterSensing(d.current.stat, ReportedTime(d) > 0, StopIsWaiting(d), LimiterOn(d, devs));
    Sensed(d, io, d1, io1, ControlWithAsensor(d1, devs, io1).0, ControlWithAsensor(d1, devs, io1).1,
           CheckedFate(d.current.stat, ReportedTime(d) > 0, StopIsWaiting(d)), LimiterOn(d, devs));
  }

  /** The sensors only turn a fate of working into one of stopping. */
  lemma FateAfterSensing(stat: Status, works: bool, stop: bool, limiter: bool)
    requires stat in {Sent, Working, StoppingByAsensor, StoppingByStop}
    ensures FateOf(stat, works, stop, limiter) != Stays(NoCommand)
    ensures var fate := CheckedFate(stat, works, stop);
      FateOf(stat, works, stop, limiter) == if fate == Stays(Working) && limiter then Stays(StoppingByAsensor) else fate
  {
  }

  lemma Sensed(d: Dev, io: Io, d1: Dev, io1: Io, d2: Dev, io2: Io, fate: Fate, limiter: bool)
    requires Checked(d, io, d1, io1, fate) && io2.wire == io1.wire && io2.history == io1.history
    requires d2 == if d1.current.stat == Working && limiter then d1.(current := d1.current.(stat := StoppingByAsensor)) else d1
    ensures Checked(d, io, d2, io2, if fate == Stays(Working) && limiter then Stays(StoppingByAsensor) else fate)
  {
  }

  lemma SendServes(d: Dev, io: Io, d2: Dev, io2: Io, conns: set<int>, fate: Fate)
    requires Checked(d, io, d2, io2, fate) && fate != Stays(NoCommand)
    ensures var (d', io') := SendCommand(d2, conns, io2);
      && io.history <= io'.history && io.wire <= io'.wire
      && Served(d, conns, fate, d', io'.history[|io.history|..], io'.wire[|io.wire|..])
  {
    hide SendCommand;
    SendAfter(d2, conns, io2);
    if fate.Stays? {
      assert SentThen(d2, fate.status, conns) == SentThen(d, fate.status, conns);
    } else if fate.status == FinishedByStop {
      assert SentUp(d2, conns) == [];
    }
  }

  lemma SendAfter(d: Dev, conns: set<int>, io: Io)
    ensures var (d', io') := SendCommand(d, conns, io);
      && io'.history == io.history
      && (if d.current.Live()
          then && io'.wire == io.wire + SentThen(d, d.current.stat, conns)
               && d' == d.(current := CommandThen(d, d.current.stat, conns), waiting := WaitingThen(d, d.current.stat, conns))
          else io'.wire == io.wire + SentUp(d, conns) && d' == MovedUp(d, conns))
  {
    hide SendCommand, SentThen, CommandThen, WaitingThen, SentUp, MovedUp;
    if d.current.Live() { SendFate(d, conns, io); } else { SendMovesUp(d, conns, io); }
  }

  /** With nothing in the current slot the waiting command moves up. */
  lemma ServeIdle(d: Dev, devs: seq<Dev>, conns: set<int>, io: Io)
    requires ReportIsPlausible(d) && !d.current.Live()
    ensures var (d', io') := ServeActuator(d, devs, conns, io);
      io'.history == io.history && io'.wire == io.wire + SentUp(d, conns) && d' == MovedUp(d, conns)
  {
    hide ReportedTime, ScanAsensors, SendCommand;
    if d.usedAsensor { ScanSkips(d, devs, 0, io); }
    SendMovesUp(d, conns, io);
  }

  // --------------------------------------------------------------------- one tick

  /** The entries are new neighbours in the archive. */
  ghost predicate ArchivedIn(h: seq<Cmd>, h': seq<Cmd>, entries: seq<Cmd>)
  {
    exists k :: |h| <= k && EntriesAt(h', k, entries)
  }

  predicate EntriesAt(h: seq<Cmd>, k: nat, entries: seq<Cmd>)
  {
    k + |entries| <= |h| && h[k..k + |entries|] == entries
  }

  lemma OwnFrames(d: Dev, conns: set<int>, fate: Fate, d': Dev, archived: seq<Cmd>, frames: seq<Frame>, wire: seq<Frame>)
    requires Served(d, conns, fate, d', archived, frames)
    ensures FramesFor(wire + frames, d.id) == FramesFor(wire, d.id) + frames
  {
    hide FramesFor;
    if frames == [] {
      assert wire + frames == wire;
    } else {
      assert frames == [frames[0]] && frames[0].deviceid == d.id;
      FramesForAppend(wire, frames[0], d.id);
    }
  }

  /** The same over a whole tick, for the slots that reading the commands left: the archive
      gains the entries as neighbours, and the actuator is sent those frames alone. */
  lemma TickFate(s: Sys, batch: seq<Selected>, auto: bool, conns: set<int>, i: nat) returns (archived: seq<Cmd>, frames: seq<Frame>)
    requires Inv(s) && IsSelection(s.io.rows, batch) && ReportsPlausible(s.devs)
    requires i < |s.devs| && s.devs[i].actuator && s.devs[i].current.Live()
    ensures var slots, t := ReadCommands(s, batch, auto).devs[i], Tick(s, batch, auto, conns);
      && slots == s.devs[i].(waiting := slots.waiting)
      && Served(slots, conns,
                FateOf(slots.current.stat, ReportedTime(slots) > 0, StopIsWaiting(slots), LimiterOn(s.devs[i], s.devs)),
                t.devs[i], archived, frames)
      && FramesFor(t.io.wire, slots.id) == FramesFor(s.io.wire, slots.id) + frames
      && ArchivedIn(s.io.history, t.io.history, archived)
  {
    hide Inv, Good, ServeActuator, ReportIsPlausible, FramesFor, Tick, IsSelection, ReadCommands, LimiterOn, ReportedTime,
      FateOf, Served, ReportsPlausible, ArchivedIn;
    var m := TickServes(s, batch, auto, conns, i);
    var slots, t := ReadCommands(s, batch, auto).devs[i], Tick(s, batch, auto, conns);
    LimiterOnBoth(s.devs[i], slots, s.devs, m.devs);
    ServeFate(slots, m.devs, conns, m.io);
    var io' := ServeActuator(slots, m.devs, conns, m.io).1;
    archived, frames := io'.history[|m.io.history|..], io'.wire[|m.io.wire|..];
    TickTakes(s, slots, m, conns, i, t,
              FateOf(slots.current.stat, ReportedTime(slots) > 0, StopIsWaiting(slots), LimiterOn(slots, m.devs)));
  }

  /** What serving the actuator added is there at the end of the tick. */
  lemma TickTakes(s: Sys, slots: Dev, m: Sys, conns: set<int>, i: nat, t: Sys, fate: Fate)
    requires i < |s.devs| == |m.devs| == |t.devs| && ServedIn(s, slots, m, conns, i, t)
    requires var (d, io) := ServeActuator(slots, m.devs, conns, m.io);
      && m.io.history <= io.history && m.io.wire <= io.wire
      && Served(slots, conns, fate, d, io.history[|m.io.history|..], io.wire[|m.io.wire|..])
    ensures var io := ServeActuator(slots, m.devs, conns, m.io).1;
      && FramesFor(t.io.wire, slots.id) == FramesFor(s.io.wire, slots.id) + io.wire[|m.io.wire|..]
      && ArchivedIn(s.io.history, t.io.history, io.history[|m.io.history|..])
  {
    hide Good, ServeActuator, ReportIsPlausible, FramesFor, Served;
    var (d, io) := ServeActuator(slots, m.devs, conns, m.io);
    var archived, frames, k := io.history[|m.io.history|..], io.wire[|m.io.wire|..], |m.io.history|;
    OwnFrames(slots, conns, fate, d, archived, frames, m.io.wire);
    assert io.wire == m.io.wire + frames;
    assert EntriesAt(t.io.history, k, archived);
  }

  lemma LimiterOnBoth(d: Dev, d': Dev, devs: seq<Dev>, devs': seq<Dev>)
    requires |devs'| == |devs| && forall j :: 0 <= j < |devs| ==> SameDevice(devs[j], devs'[j])
    requires SameDevice(d, d')
    ensures LimiterOn(d, devs) <==> LimiterOn(d', devs')
  {
    hide LimiterOn;
    if LimiterOn(d, devs) { LimiterOnSame(d, d', devs, devs'); }
    if LimiterOn(d', devs') { LimiterOnSame(d', d, devs', devs); }
  }

  // -------------------------------------------------------------- stretches of a run

  function Ticks(acts: seq<Action>): nat
  {
    if acts == [] then 0 else Ticks(acts[..|acts| - 1]) + One(acts[|acts| - 1].Timer?)
  }

  /** From run[m] to run[n] no restart comes, and in every tick the actuator reports work, or
      none, as `works` says, with no stop command waiting once the rows are read. */
  ghost predicate Undisturbed(acts: seq<Action>, run: seq<Sys>, i: nat, works: bool, m: nat, n: nat)
    requires m <= n <= |acts| < |run|
  {
    forall k :: m <= k < n ==> Quiet(run[k], acts[k], i, works)
  }

  ghost predicate Quiet(s: Sys, a: Action, i: nat, works: bool)
  {
    && !a.Restart? && i < |s.devs|
    && (a.Timer? ==>
          && (ReportedTime(s.devs[i]) > 0 <==> works)
          && i < |ReadCommands(s, a.batch, a.auto).devs| && !StopIsWaiting(ReadCommands(s, a.batch, a.auto).devs[i]))
  }

  /** One action while a limiter stop goes on. */
  lemma LimiterStep(s: Sys, a: Action, i: nat)
    requires Inv(s) && Enabled(s, a) && Quiet(s, a, i, true) && i < |s.devs| && s.devs[i].actuator
    requires s.devs[i].current.stat == StoppingByAsensor
    ensures var d, t := s.devs[i], Apply(s, a);
      && |t.devs| == |s.devs|
      && t.devs[i].current == d.current.(stopcnt := d.current.stopcnt + One(a.Timer?))
      && FramesFor(t.io.wire, d.id) == FramesFor(s.io.wire, d.id)
           + (if a.Timer? && d.gcgid in a.conns then [Frame(d.id, d.current.id, d.current.ctrlarg)] else [])
  {
    hide Inv, IsSelection, ReportsPlausible, Tick, ReportedTime, FramesFor, MoveRows, ReadCommands, LimiterOn;
    ApplySameUnit(s, a, i);
    if a.Timer? {
      var archived, frames := TickFate(s, a.batch, a.auto, a.conns, i);
      SameTime(s.devs[i], ReadCommands(s, a.batch, a.auto).devs[i]);
    }
  }

  lemma SameTime(d: Dev, d': Dev)
    requires d.rawvalue == d'.rawvalue
    ensures ReportedTime(d) == ReportedTime(d')
  {
  }

  /** A limiter stop persists: as long as the actuator reports work and no stop command waits,
      the command stays, its stops are counted, and it is sent its own word once for each tick
      with the gateway connected, and nothing else. */
  lemma {:induction false} LimiterPersists(devs: seq<Dev>, acts: seq<Action>, run: seq<Sys>, m: nat, n: nat, i: nat)
    requires DistinctIds(devs) && IsRun(devs, acts, run) && m <= n <= |acts|
    requires i < |run[m].devs| && run[m].devs[i].actuator && run[m].devs[i].current.stat == StoppingByAsensor
    requires Undisturbed(acts, run, i, true, m, n)
    ensures var d := run[m].devs[i];
      && |run[n].devs| == |run[m].devs| && SameUnit(d, run[n].devs[i])
      && run[n].devs[i].current == d.current.(stopcnt := d.current.stopcnt + Ticks(acts[m..n]))
      && FramesFor(run[n].io.wire, d.id) == FramesFor(run[m].io.wire, d.id)
           + Copies(Frame(d.id, d.current.id, d.current.ctrlarg), ConnectedTicks(acts[m..n], d.gcgid))
    decreases n
  {
    hide Inv, Apply, Enabled, Quiet, FramesFor, Start, DistinctIds;
    if m < n {
      LimiterPersists(devs, acts, run, m, n - 1, i);
      RunInv(devs, acts, run, n - 1);
      ApplySameUnit(run[n - 1], acts[n - 1], i);
      assert Quiet(run[n - 1], acts[n - 1], i, true);
      LimiterStep(run[n - 1], acts[n - 1], i);
      assert acts[m..n][..n - m - 1] == acts[m..n - 1];
    } else {
      assert acts[m..n] == [];
    }
  }

  /** The first tick that finds the actuator at rest ends the limiter stop: the command is
      archived as finished by the sensor, and whatever waits moves up. */
  lemma LimiterStopEnds(s: Sys, batch: seq<Selected>, auto: bool, conns: set<int>, i: nat)
    requires Inv(s) && IsSelection(s.io.rows, batch) && ReportsPlausible(s.devs)
    requires i < |s.devs| && s.devs[i].actuator && s.devs[i].current.stat == StoppingByAsensor && ReportedTime(s.devs[i]) <= 0
    ensures var d, slots, t := s.devs[i], ReadCommands(s, batch, auto).devs[i], Tick(s, batch, auto, conns);
      && ArchivedIn(s.io.history, t.io.history, [d.current.(stat := FinishedByAsensor)])
      && t.devs[i] == MovedUp(slots.(current := d.current.(stat := NoCommand)), conns)
      && FramesFor(t.io.wire, d.id) == FramesFor(s.io.wire, d.id) + SentUp(slots, conns)
  {
    hide Inv, IsSelection, ReportsPlausible, Tick, ReportedTime, FramesFor, ReadCommands, LimiterOn, MovedUp, SentUp;
    var archived, frames := TickFate(s, batch, auto, conns, i);
    SameTime(s.devs[i], ReadCommands(s, batch, auto).devs[i]);
  }

  /** The first tick that finds the actuator of a working command at rest ends it normally. */
  lemma WorkEnds(s: Sys, batch: seq<Selected>, auto: bool, conns: set<int>, i: nat)
    requires Inv(s) && IsSelection(s.io.rows, batch) && ReportsPlausible(s.devs)
    requires i < |s.devs| && s.devs[i].actuator && s.devs[i].current.stat == Working && ReportedTime(s.devs[i]) <= 0
    ensures var d, slots, t := s.devs[i], ReadCommands(s, batch, auto).devs[i], Tick(s, batch, auto, conns);
      && ArchivedIn(s.io.history, t.io.history, [d.current.(stat := FinishedNormally)])
      && t.devs[i] == MovedUp(slots.(current := d.current.(stat := NoCommand)), conns)
      && FramesFor(t.io.wire, d.id) == FramesFor(s.io.wire, d.id) + SentUp(slots, conns)
  {
    hide Inv, IsSelection, ReportsPlausible, Tick, ReportedTime, FramesFor, ReadCommands, LimiterOn, MovedUp, SentUp;
    var archived, frames := TickFate(s, batch, auto, conns, i);
    SameTime(s.devs[i], ReadCommands(s, batch, auto).devs[i]);
  }

  /** How often a command without a reaction, ignored r times before, is sent again. */
  function Resends(acts: seq<Action>, gcgid: int, r: nat): nat
  {
    if acts == [] then 0
    else
      var a := acts[|acts| - 1];
      Resends(acts[..|acts| - 1], gcgid, r)
      + One(a.Timer? && (r + Ticks(acts)) % RESENT_IGNORE_COUNT == 0 && gcgid in a.conns)
  }

  /** One action while a sent command finds no reaction. */
  lemma UnansweredStep(s: Sys, a: Action, i: nat)
    requires Inv(s) && Enabled(s, a) && Quiet(s, a, i, false) && i < |s.devs| && s.devs[i].actuator
    requires s.devs[i].current.stat == Sent && !s.devs[i].current.IsStop()
    ensures var d, t := s.devs[i], Apply(s, a);
      var r := One(a.Timer? && (d.current.resentignore + 1) % RESENT_IGNORE_COUNT == 0 && d.gcgid in a.conns);
      && |t.devs| == |s.devs|
      && t.devs[i].current == d.current.(resentignore := d.current.resentignore + One(a.Timer?), workcnt := d.current.workcnt + r)
      && FramesFor(t.io.wire, d.id) == FramesFor(s.io.wire, d.id) + Copies(Frame(d.id, d.current.id, d.current.ctrlarg), r)
  {
    hide Inv, IsSelection, ReportsPlausible, Tick, ReportedTime, FramesFor, MoveRows, ReadCommands, LimiterOn;
    ApplySameUnit(s, a, i);
    OneCopy(Frame(s.devs[i].id, s.devs[i].current.id, s.devs[i].current.ctrlarg));
    if a.Timer? {
      var archived, frames := TickFate(s, a.batch, a.auto, a.conns, i);
      SameTime(s.devs[i], ReadCommands(s, a.batch, a.auto).devs[i]);
    }
  }

  lemma OneCopy(f: Frame)
    ensures Copies(f, 0) == [] && Copies(f, 1) == [f]
  {
    assert Copies(f, 0) == [];
  }

  lemma {:induction false} CopiesAdd(f: Frame, a: nat, b: nat)
    ensures Copies(f, a) + Copies(f, b) == Copies(f, a + b)
  {
    if b == 0 { assert Copies(f, a) + [] == Copies(f, a); }
    else { CopiesAdd(f, a, b - 1); assert Copies(f, a) + (Copies(f, b - 1) + [f]) == Copies(f, a) + Copies(f, b - 1) + [f]; }
  }

  lemma StretchGrows(acts: seq<Action>, m: nat, n: nat, gcgid: int, r: nat)
    requires m < n <= |acts|
    ensures var a := acts[n - 1];
      && Ticks(acts[m..n]) == Ticks(acts[m..n - 1]) + One(a.Timer?)
      && Resends(acts[m..n], gcgid, r) == Resends(acts[m..n - 1], gcgid, r)
           + One(a.Timer? && (r + Ticks(acts[m..n])) % RESENT_IGNORE_COUNT == 0 && gcgid in a.conns)
  {
    assert acts[m..n][..n - m - 1] == acts[m..n - 1];
  }

  lemma NoStretch(acts: seq<Action>, m: nat, gcgid: int, r: nat)
    requires m <= |acts|
    ensures Ticks(acts[m..m]) == 0 && Resends(acts[m..m], gcgid, r) == 0
  {
    assert acts[m..m] == [];
  }

  /** A sent command to which its actuator does not react is sent again in every eighth tick,
      and its actuator is sent nothing else. */
  lemma {:induction false} UnansweredResent(devs: seq<Dev>, acts: seq<Action>, run: seq<Sys>, m: nat, n: nat, i: nat)
    requires DistinctIds(devs) && IsRun(devs, acts, run) && m <= n <= |acts|
    requires i < |run[m].devs| && run[m].devs[i].actuator
    requires run[m].devs[i].current.stat == Sent && !run[m].devs[i].current.IsStop()
    requires Undisturbed(acts, run, i, false, m, n)
    ensures var d := run[m].devs[i];
      var c, r := d.current, Resends(acts[m..n], d.gcgid, d.current.resentignore);
      && |run[n].devs| == |run[m].devs| && SameUnit(d, run[n].devs[i])
      && run[n].devs[i].current == c.(resentignore := c.resentignore + Ticks(acts[m..n]), workcnt := c.workcnt + r)
      && FramesFor(run[n].io.wire, d.id) == FramesFor(run[m].io.wire, d.id) + Copies(Frame(d.id, c.id, c.ctrlarg), r)
    decreases n
  {
    hide Inv, Apply, Enabled, Quiet, FramesFor, Start, DistinctIds, Copies, Ticks, Resends;
    var d := run[m].devs[i];
    var f := Frame(d.id, d.current.id, d.current.ctrlarg);
    if m < n {
      UnansweredResent(devs, acts, run, m, n - 1, i);
      RunInv(devs, acts, run, n - 1);
      ApplySameUnit(run[n - 1], acts[n - 1], i);
      assert Quiet(run[n - 1], acts[n - 1], i, false);
      UnansweredStep(run[n - 1], acts[n - 1], i);
      StretchGrows(acts, m, n, d.gcgid, d.current.resentignore);
      var a, r := acts[n - 1], d.current.resentignore;
      CopiesAdd(f, Resends(acts[m..n - 1], d.gcgid, r),
                One(a.Timer? && (r + Ticks(acts[m..n])) % RESENT_IGNORE_COUNT == 0 && d.gcgid in a.conns));
    } else {
      NoStretch(acts, m, d.gcgid, d.current.resentignore);
      OneCopy(f);
    }
  }
}
