/** How a stop begins: from the row that asks for it, and why no stop command is left waiting
    between ticks unless it is under way (software/gos/src/gos_device.c). */
module StopProgress {
  import opened Words
  import opened Commands
  import opened CommandInvariants
  import opened CommandRuns
  import opened ServerRuns
  import opened TickEffects
  import opened CommandTheorems
  import opened B = BatchMeaning

  // --------------------------------------------------------- from the row to the stop

  /** Row k of the batch is the first admissible stop command of the device at position i,
      and none waits for it yet. */
  ghost predicate StopComes(devs: seq<Dev>, batch: seq<Selected>, auto: bool, k: nat, i: nat)
    requires k < |batch| && i < |devs|
  {
    && Admissible(devs, batch, auto, k) && LoadCommand(batch[k]).IsStop()
    && Device(batch, k) == devs[i].id && !StopBefore(devs, batch, auto, k, devs[i].id)
  }

  /** After reading the batch the stop command waits. */
  lemma StopIsTaken(s: Sys, batch: seq<Selected>, auto: bool, k: nat, i: nat)
    requires Inv(s) && NaturalIds(s.devs) && IsSelection(s.io.rows, batch)
    requires k < |batch| && i < |s.devs| && StopComes(s.devs, batch, auto, k, i)
    ensures ReadCommands(s, batch, auto).devs[i].waiting == LoadCommand(batch[k]).(stat := Waiting)
  {
    B.BatchMeaning(s, batch, auto);
    FirstStopWins(s.devs, batch, auto, k);
    hide Inv, IsSelection, ReadCommands, LastAccepted, OutcomeOf, LoadCommand, Admissible, StopBefore;
  }

  /** A tick that reads the first admissible stop row of an actuator, with a sent command or
      with a live one and time reported, begins the stop at once: the row's command is
      pinned, its word goes out, and nothing else is sent to the actuator. */
  lemma TickTakesStop(s: Sys, batch: seq<Selected>, auto: bool, conns: set<int>, k: nat, i: nat)
    requires Inv(s) && NaturalIds(s.devs) && IsSelection(s.io.rows, batch) && ReportsPlausible(s.devs)
    requires k < |batch| && i < |s.devs| && s.devs[i].actuator && StopComes(s.devs, batch, auto, k, i)
    requires s.devs[i].current.stat == Sent || (s.devs[i].current.Live() && ReportedTime(s.devs[i]) > 0)
    ensures var d, c, t := s.devs[i], LoadCommand(batch[k]), Tick(s, batch, auto, conns);
      && StoppingWith(t.devs[i], d.current.id, batch[k].id, c.ctrlarg)
      && FramesFor(t.io.wire, d.id) == FramesFor(s.io.wire, d.id) + Sending(d, c, conns)
  {
    StopIsTaken(s, batch, auto, k, i);
    LoadedCommand(batch[k]);
    hide Inv, NaturalIds, IsSelection, ReportsPlausible, ReadCommands, Tick, LoadCommand, Admissible, StopBefore, FramesFor,
      ReportedTime, ParseArgument;
    TickBeginsStop(s, batch, auto, conns, i);
  }

  /** A whole stop from its row: the tick that reads it sends it, every later tick sends it
      again while the actuator works, and the first tick that finds the actuator at rest
      archives both commands. */
  lemma StopRowRunsToEnd(devs: seq<Dev>, acts: seq<Action>, run: seq<Sys>, m: nat, n: nat, k: nat, i: nat)
    requires DistinctIds(devs) && IsRun(devs, acts, run) && m < n < |acts|
    requires acts[m].Timer? && acts[n].Timer? && StillWorking(acts, run, i, m + 1, n)
    requires i < |run[m].devs| && run[m].devs[i].actuator && NaturalIds(run[m].devs)
    requires k < |acts[m].batch| && StopComes(run[m].devs, acts[m].batch, acts[m].auto, k, i)
    requires run[m].devs[i].current.stat == Sent
             || (run[m].devs[i].current.Live() && ReportedTime(run[m].devs[i]) > 0)
    requires i < |run[n].devs| && ReportedTime(run[n].devs[i]) == 0
    ensures var d, c := run[m].devs[i], LoadCommand(acts[m].batch[k]);
      var e, t := run[n].devs[i], run[n + 1];
      && StoppingWith(e, d.current.id, c.id, c.ctrlarg)
      && FramesFor(t.io.wire, d.id) == FramesFor(run[m].io.wire, d.id)
           + Sending(d, c, acts[m].conns)
           + Copies(Frame(d.id, c.id, c.ctrlarg), ConnectedTicks(acts[m + 1..n], d.gcgid))
      && |t.devs| == |run[m].devs| && !t.devs[i].current.Live() && !t.devs[i].waiting.Live()
      && ArchivedTogether(run[n].io.history, t.io.history,
                          e.current.(stat := FinishedByStop), e.waiting.(stat := FinishedNormally))
  {
    RunInv(devs, acts, run, m);
    assert Enabled(run[m], acts[m]);
    hide Inv, NaturalIds, IsSelection, ReportsPlausible, ReadCommands, Tick, LoadCommand, Admissible, StopBefore, FramesFor,
      ReportedTime, ParseArgument, Copies, ConnectedTicks, StillWorking, ArchivedTogether, Apply, Start, DistinctIds, StoppingWith;
    StopIsTaken(run[m], acts[m].batch, acts[m].auto, k, i);
    StopRunsToEnd(devs, acts, run, m, n, i);
  }

  // ------------------------------------------------------- no stop command is left over

  /** A stop command waits exactly while a stop is under way. */
  predicate Settled(d: Dev) { StopIsWaiting(d) <==> d.current.stat == StoppingByStop }

  /** An actuator's share of a tick leaves no stop command waiting that is not under way. */
  lemma ServeLeaves(d: Dev, devs: seq<Dev>, conns: set<int>, io: Io)
    requires Good(d, io) && ReportIsPlausible(d)
    ensures Settled(ServeActuator(d, devs, conns, io).0)
  {
    ServeActuatorKeeps(d, devs, conns, io);
    var d' := ServeActuator(d, devs, conns, io).0;
    Statuses(d, io);
    hide Local, LogOk, Mirror, StopsPaired, WireOk, ServeActuator, WaitingOk, CurrentOk, ReportedTime;
    if StopIsWaiting(d) {
      if d.current.stat == Sent || (d.current.Live() && ReportedTime(d) > 0) {
        StopBegins(d, devs, conns, io);
      } else {
        AtRestLeaves(d, devs, conns, io);
      }
    } else {
      NoStopLeft(d, devs, conns, io);
    }
  }

  lemma NoStopLeft(d: Dev, devs: seq<Dev>, conns: set<int>, io: Io)
    requires Good(d, io) && ReportIsPlausible(d) && !StopIsWaiting(d)
    ensures !StopIsWaiting(ServeActuator(d, devs, conns, io).0)
  {
    CheckWorkingKeeps(d, io);
    CheckKeepsWaiting(d, io);
    var (d1, io1) := CheckWorking(d, io);
    ControlWithAsensorKeeps(d1, devs, io1);
    var (d2, io2) := ControlWithAsensor(d1, devs, io1);
    SendBringsNoStop(d2, conns, io2);
    hide Good, Local, CheckWorking, ControlWithAsensor, SendCommand, ReportIsPlausible;
  }

  lemma SendBringsNoStop(d: Dev, conns: set<int>, io: Io)
    requires !StopIsWaiting(d)
    ensures !StopIsWaiting(SendCommand(d, conns, io).0)
  {
    hide UpdateStatus;
  }

  /** Only a stop command in the waiting slot is ever retired there. */
  lemma CheckKeepsWaiting(d: Dev, io: Io)
    requires Good(d, io)
    ensures CheckWorking(d, io).0.waiting == d.waiting || !CheckWorking(d, io).0.waiting.Live()
  {
    hide ParseArgument, LogOk, Mirror, StopsPaired, WireOk, WaitingOk, CurrentOk;
  }

  /** With nothing in the current slot the stop command moves there; with a command that has
      come to rest it does so after that was archived. */
  lemma AtRestLeaves(d: Dev, devs: seq<Dev>, conns: set<int>, io: Io)
    requires Good(d, io) && ReportIsPlausible(d) && StopIsWaiting(d)
    requires d.current.stat != Sent && (d.current.Live() ==> ReportedTime(d) <= 0)
    ensures !StopIsWaiting(ServeActuator(d, devs, conns, io).0)
  {
    CheckWorkingKeeps(d, io);
    CheckFrees(d, io);
    var (d1, io1) := CheckWorking(d, io);
    AsensorSkips(d1, devs, io1);
    hide Good, Local, CheckWorking, ControlWithAsensor, UpdateStatus, ReportIsPlausible;
  }

  lemma CheckFrees(d: Dev, io: Io)
    requires Good(d, io) && ReportIsPlausible(d) && d.current.stat != Sent && (d.current.Live() ==> ReportedTime(d) <= 0)
    ensures !CheckWorking(d, io).0.current.Live()
  {
    hide ParseArgument, LogOk, Mirror, StopsPaired, WireOk;
    Statuses(d, io);
  }

  /** In every reachable state a stop command waits for an actuator exactly while a stop of
      its is under way. */
  lemma {:induction false} StopsWaitUnderWay(devs: seq<Dev>, acts: seq<Action>, run: seq<Sys>, n: nat, i: nat)
    requires DistinctIds(devs) && IsRun(devs, acts, run) && n <= |acts| && i < |run[n].devs| && run[n].devs[i].actuator
    ensures StopIsWaiting(run[n].devs[i]) <==> run[n].devs[i].current.stat == StoppingByStop
  {
    if n > 0 {
      var s, a := run[n - 1], acts[n - 1];
      RunInv(devs, acts, run, n - 1);
      RunStep(devs, acts, run, n - 1);
      SizeKept(s, a);
      ApplySameUnit(s, a, i);
      hide Inv, Apply, Enabled, IsRun, DistinctIds;
      StopsWaitUnderWay(devs, acts, run, n - 1, i);
      StepSettles(s, a, i);
    } else {
      hide IsRun, DistinctIds;
      StartsIdle(devs, acts, run);
    }
  }

  lemma RunStep(devs: seq<Dev>, acts: seq<Action>, run: seq<Sys>, n: nat)
    requires IsRun(devs, acts, run) && n < |acts|
    ensures n + 1 < |run| && Enabled(run[n], acts[n]) && run[n + 1] == Apply(run[n], acts[n])
  {
  }

  lemma StartsIdle(devs: seq<Dev>, acts: seq<Action>, run: seq<Sys>)
    requires IsRun(devs, acts, run)
    ensures |run| > 0 && forall i :: 0 <= i < |run[0].devs| ==> !run[0].devs[i].waiting.Live() && !run[0].devs[i].current.Live()
  {
  }

  lemma SizeKept(s: Sys, a: Action)
    requires Enabled(s, a)
    ensures |Apply(s, a).devs| == |s.devs|
  {
    hide Tick;
  }

  lemma StepSettles(s: Sys, a: Action, i: nat)
    requires Inv(s) && Enabled(s, a) && i < |s.devs| && s.devs[i].actuator && Settled(s.devs[i])
    ensures |Apply(s, a).devs| == |s.devs| && Settled(Apply(s, a).devs[i])
  {
    hide Inv, IsSelection, ReportsPlausible, ReadCommands, Tick, MoveRows, ServeActuator, Good, ReportIsPlausible, FramesFor;
    if a.Timer? {
      var m := TickServes(s, a.batch, a.auto, a.conns, i);
      ServeLeaves(ReadCommands(s, a.batch, a.auto).devs[i], m.devs, a.conns, m.io);
    }
  }
}
