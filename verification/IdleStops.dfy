/** A stop command on an actuator at rest, over whole runs: it blocks the actuator
    (software/gos/src/gos_device.c, the test at line 1454 that shadows the one at 1459). */
module IdleStops {
  import opened Words
  import opened Commands
  import opened CommandInvariants
  import opened CommandRuns
  import opened ServerRuns
  import opened TickEffects
  import opened CommandTheorems
  import opened BatchMeaning

  /** A sent stop command, with no other stop command waiting. */
  predicate Idle(d: Dev)
  {
    d.current.stat == Sent && d.current.IsStop() && !StopIsWaiting(d)
  }

  /** No admissible row of the batch is a stop command for the device. */
  ghost predicate NoStopComes(devs: seq<Dev>, batch: seq<Selected>, auto: bool, id: int)
  {
    forall k :: 0 <= k < |batch| && Device(batch, k) == id && Admissible(devs, batch, auto, k) ==>
      !LoadCommand(batch[k]).IsStop()
  }

  /** An idle stop has nothing done to it and nothing sent. */
  lemma IdleSkips(d: Dev, devs: seq<Dev>, conns: set<int>, io: Io)
    requires Good(d, io) && Idle(d) && ReportedTime(d) <= 0
    ensures ServeActuator(d, devs, conns, io) == (d, io)
  {
    hide ParseArgument, ControlWithAsensor, UpdateStatus;
    assert CheckWorking(d, io) == (d, io);
    AsensorSkips(d, devs, io);
  }

  lemma TakesItself(d: Dev, c: Cmd, io: Io)
    ensures UpdateWaiting(d, c, io).0 == d.(waiting := c.(stat := Waiting))
  {
  }

  lemma {:induction false} ReadBringsNoStop(s: Sys, batch: seq<Selected>, auto: bool, n: nat, i: nat)
    requires Inv(s) && IsSelection(s.io.rows, batch) && n <= |batch| && i < |s.devs|
    requires !StopIsWaiting(s.devs[i]) && NoStopComes(s.devs, batch, auto, s.devs[i].id)
    ensures !StopIsWaiting(ReadRows(s, batch[..n], auto).sys.devs[i])
  {
    hide LoadCommand, Inv, IsSelection, FindDevice, IsWrong, UpdateStatus;
    if n > 0 {
      var m := n - 1;
      ReadBringsNoStop(s, batch, auto, m, i);
      ReadRowsKeeps(s, batch, m, auto);
      assert batch[..n][..m] == batch[..m];
      LoadedCommand(batch[m]);
      var st, c := ReadRows(s, batch[..m], auto), LoadCommand(batch[m]);
      var j := FindDevice(st.sys.devs, c.deviceid);
      if j >= 0 && !IsWrong(c) && (auto ==> c.IsAuto()) {
        TakesItself(st.sys.devs[j], c, st.sys.io);
        if j == i { assert Admissible(s.devs, batch, auto, m); }
      }
    } else {
      assert batch[..0] == [];
    }
  }

  /** One action other than a restart, while the actuator rests and no stop command comes. */
  lemma IdleStep(s: Sys, a: Action, i: nat)
    requires Inv(s) && Enabled(s, a) && !a.Restart? && i < |s.devs| && s.devs[i].actuator && Idle(s.devs[i])
    requires a.Timer? ==> ReportedTime(s.devs[i]) <= 0 && NoStopComes(s.devs, a.batch, a.auto, s.devs[i].id)
    ensures var d, t := s.devs[i], Apply(s, a);
      && |t.devs| == |s.devs| && Idle(t.devs[i]) && t.devs[i].current == d.current
      && FramesFor(t.io.wire, d.id) == FramesFor(s.io.wire, d.id)
  {
    hide Inv, IsSelection, ReportsPlausible, Tick, ReportedTime, ParseArgument, FramesFor, MoveRows, NoStopComes, ReadRows,
      ServeActuator, Good;
    ApplySameUnit(s, a, i);
    if a.Timer? {
      var m := TickServes(s, a.batch, a.auto, a.conns, i);
      var slots := ReadCommands(s, a.batch, a.auto).devs[i];
      ReadBringsNoStop(s, a.batch, a.auto, |a.batch|, i);
      assert a.batch[..|a.batch|] == a.batch;
      SameReport(s.devs[i], slots);
      IdleSkips(slots, m.devs, a.conns, m.io);
    }
  }

  lemma SameReport(d: Dev, d': Dev)
    requires d.rawvalue == d'.rawvalue
    ensures ReportedTime(d) == ReportedTime(d')
  {
  }

  /** From run[m] to run[n] the actuator rests in every tick, and no stop command comes. */
  ghost predicate Resting(acts: seq<Action>, run: seq<Sys>, i: nat, m: nat, n: nat)
    requires m <= n <= |acts| < |run|
  {
    forall k :: m <= k < n ==>
      && !acts[k].Restart? && i < |run[k].devs|
      && (acts[k].Timer? ==>
            && ReportedTime(run[k].devs[i]) <= 0
            && NoStopComes(run[k].devs, acts[k].batch, acts[k].auto, run[k].devs[i].id))
  }

  /** An actuator at rest with a sent stop command is blocked: as long as it reports no time
      and no admissible stop command comes for it, whatever other commands come, the stop
      stays where it is, no waiting command is promoted and no frame is sent to it. */
  lemma {:induction false} IdleStopBlocks(devs: seq<Dev>, acts: seq<Action>, run: seq<Sys>, m: nat, n: nat, i: nat)
    requires DistinctIds(devs) && IsRun(devs, acts, run) && m <= n <= |acts|
    requires i < |run[m].devs| && run[m].devs[i].actuator && Idle(run[m].devs[i]) && Resting(acts, run, i, m, n)
    ensures var d := run[m].devs[i];
      && |run[n].devs| == |run[m].devs| && SameUnit(d, run[n].devs[i])
      && Idle(run[n].devs[i]) && run[n].devs[i].current == d.current
      && FramesFor(run[n].io.wire, d.id) == FramesFor(run[m].io.wire, d.id)
    decreases n
  {
    hide Inv, Apply, Enabled, ReportedTime, FramesFor, Start, DistinctIds, Idle, NoStopComes;
    if m < n {
      IdleStopBlocks(devs, acts, run, m, n - 1, i);
      RunInv(devs, acts, run, n - 1);
      ApplySameUnit(run[n - 1], acts[n - 1], i);
      IdleStep(run[n - 1], acts[n - 1], i);
    }
  }
}
