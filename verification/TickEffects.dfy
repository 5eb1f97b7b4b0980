/** What one tick does to one actuator: stop progress, limiter safety and the number of
    sends, first for the actuator alone, then inside a tick of the whole server. */
module TickEffects {
  import opened Words
  import opened Commands
  import opened CommandInvariants
  import opened CommandRuns

  /** The frames sent to one device. */
  function FramesFor(wire: seq<Frame>, id: int): seq<Frame>
  {
    if wire == [] then []
    else
      var n := |wire| - 1;
      FramesFor(wire[..n], id) + (if wire[n].deviceid == id then [wire[n]] else [])
  }

  /** The frame that carries a command, if the gateway is connected. */
  function Sending(d: Dev, c: Cmd, conns: set<int>): seq<Frame>
  {
    if d.gcgid in conns then [Frame(d.id, c.id, c.ctrlarg)] else []
  }

  lemma FramesForAppend(wire: seq<Frame>, f: Frame, id: int)
    ensures FramesFor(wire + [f], id) == FramesFor(wire, id) + (if f.deviceid == id then [f] else [])
  {
    assert (wire + [f])[..|wire|] == wire;
  }

  // ------------------------------------------------------- the actuator by itself

  /** The command being stopped and its stop command, as the tick finds them. */
  predicate StoppingWith(d: Dev, cur: int, stop: int, ctrlarg: int)
  {
    && d.current.stat == StoppingByStop && d.current.id == cur
    && StopIsWaiting(d) && d.waiting.id == stop && d.waiting.ctrlarg == ctrlarg
    && ParseArgument(ctrlarg).1 == 0
  }

  lemma StopTimeIsZero(d: Dev)
    requires Shape(d) && StopIsWaiting(d)
    ensures ParseArgument(d.waiting.ctrlarg).1 == 0
  {
    hide ParseArgument, WrongArguments, CurrentOk, Pinned;
  }

  lemma SendStop(d: Dev, conns: set<int>, io: Io)
    requires d.current.stat == StoppingByStop && StopIsWaiting(d)
    ensures var (d', io') := SendCommand(d, conns, io);
      && d'.current == d.current.(stopcnt := d.current.stopcnt + 1)
      && d'.waiting == d.waiting.(arg := d.current.arg, workcnt := d'.waiting.workcnt)
      && io'.wire == io.wire + Sending(d, d.waiting, conns)
      && io'.history == io.history
  {
  }

  lemma AsensorSkips(d: Dev, devs: seq<Dev>, io: Io)
    requires Good(d, io) && d.current.stat != Working
    ensures ControlWithAsensor(d, devs, io) == (d, io)
  {
    if d.usedAsensor { ScanSkips(d, devs, 0, io); }
  }

  lemma {:induction false} ScanSkips(d: Dev, devs: seq<Dev>, j: nat, io: Io)
    requires d.current.stat != Working
    ensures ScanAsensors(d, devs, j, io) == (d, io)
    decreases |d.asensors| - j
  {
    if j < |d.asensors| { ScanSkips(d, devs, j + 1, io); }
  }

  lemma SetCurrentEffect(d: Dev, st: Status, io: Io)
    ensures var (d', io') := SetCurrent(d, st, io);
      && d' == d.(current := Marked(d.current, st)) && io'.wire == io.wire
      && (!st.Terminal() ==> io'.history == io.history)
  {
  }

  lemma CheckFindsStop(d: Dev, io: Io)
    requires ReportIsPlausible(d) && StopIsWaiting(d)
    requires d.current.stat == Sent || (d.current.Live() && ReportedTime(d) > 0)
    requires d.current.stat in {Sent, Working, StoppingByAsensor, StoppingByStop}
    ensures var (d', io') := CheckWorking(d, io);
      d' == d.(current := d.current.(stat := StoppingByStop)) && io'.wire == io.wire
  {
    hide SetCurrent, ParseArgument;
    SetCurrentEffect(d, Working, io);
    SetCurrentEffect(d, StoppingByStop, io);
    var (d1, io1) := if d.current.stat == Sent then SetCurrent(d, Working, io) else (d, io);
    SetCurrentEffect(d1, StoppingByStop, io1);
  }

  /** A waiting stop command starts to stop a sent or working command, and goes out. */
  lemma StopBegins(d: Dev, devs: seq<Dev>, conns: set<int>, io: Io)
    requires Good(d, io) && ReportIsPlausible(d) && StopIsWaiting(d)
    requires d.current.stat == Sent || (d.current.Live() && ReportedTime(d) > 0)
    ensures var (d', io') := ServeActuator(d, devs, conns, io);
      && StoppingWith(d', d.current.id, d.waiting.id, d.waiting.ctrlarg)
      && io'.wire == io.wire + Sending(d, d.waiting, conns)
  {
    hide LogOk, Mirror, Shape, StopsPaired, WireOk, Local, CheckWorking, ControlWithAsensor, SendCommand, ParseArgument;
    StopTimeIsZero(d);
    Statuses(d, io);
    CheckFindsStop(d, io);
    CheckWorkingKeeps(d, io);
    var (d1, io1) := CheckWorking(d, io);
    AsensorSkips(d1, devs, io1);
    SendStop(d1, conns, io1);
  }

  /** While the actuator still works, its stop command goes out again and nothing else does. */
  lemma StopContinues(d: Dev, devs: seq<Dev>, conns: set<int>, io: Io)
    requires Good(d, io) && ReportIsPlausible(d) && ReportedTime(d) > 0
    requires d.current.stat == StoppingByStop
    ensures var (d', io') := ServeActuator(d, devs, conns, io);
      && StoppingWith(d', d.current.id, d.waiting.id, d.waiting.ctrlarg)
      && io'.wire == io.wire + Sending(d, d.waiting, conns)
  {
    Statuses(d, io);
    StopBegins(d, devs, conns, io);
  }

  /** Once the actuator reports no remaining time, both commands are archived together. */
  lemma StopEnds(d: Dev, devs: seq<Dev>, conns: set<int>, io: Io)
    requires Good(d, io) && ReportedTime(d) == 0 && d.current.stat == StoppingByStop
    ensures var (d', io') := ServeActuator(d, devs, conns, io);
      && d'.current == d.current.(stat := NoCommand) && d'.waiting == d.waiting.(stat := NoCommand)
      && io'.wire == io.wire
      && io'.history == io.history + [d.current.(stat := FinishedByStop), d.waiting.(stat := FinishedNormally)]
  {
    Statuses(d, io);
    RetireBothKeeps(d, io);
    var (d1, io1) := CheckWorking(d, io);
    hide Local, UpdateStatus, ParseArgument, ControlWithAsensor, SetCurrent, SetWaiting, Good;
    AsensorSkips(d1, devs, io1);
  }

  /** A stop command promoted on an idle actuator stays SENT: a tick changes it exactly
      when the actuator reports work or another stop command waits. */
  lemma IdleStopStays(d: Dev, devs: seq<Dev>, conns: set<int>, io: Io)
    requires Good(d, io) && ReportIsPlausible(d) && d.current.stat == Sent && d.current.IsStop()
    ensures ServeActuator(d, devs, conns, io).0.current == d.current
            <==> !StopIsWaiting(d) && ReportedTime(d) <= 0
  {
    hide LogOk, Mirror, StopsPaired, WireOk, Local, ParseArgument, ControlWithAsensor, SetCurrent, Shape;
    var (d1, io1) := CheckWorking(d, io);
    CheckWorkingKeeps(d, io);
    ControlWithAsensorKeeps(d1, devs, io1);
    SetCurrentEffect(d, Working, io);
    SetCurrentEffect(d, StoppingByStop, io);
    var (d0, io0) := SetCurrent(d, Working, io);
    SetCurrentEffect(d0, StoppingByStop, io0);
  }

  /** The frame sent for a limiter carries the word of the running command, so the time it
      encodes is that command's time, and zero only if the command is itself a stop. */
  lemma LimiterFrameTime(d: Dev, conns: set<int>, io: Io)
    requires Good(d, io) && d.current.stat == StoppingByAsensor && d.gcgid in conns
    ensures SendCommand(d, conns, io).1.wire == io.wire + [Frame(d.id, d.current.id, d.current.ctrlarg)]
    ensures ParseArgument(d.current.ctrlarg).1 == 0 <==> d.current.IsStop()
  {
    hide LogOk, StopsPaired, WireOk, ParseArgument;
  }

  /** The loop of gos_control_actuator_with_asensor gets as far as entry j. */
  ghost predicate Reaches(d: Dev, devs: seq<Dev>, j: nat)
    requires j < |d.asensors|
  {
    && d.usedAsensor
    && forall k :: 0 <= k <= j ==>
         d.asensors[k].id != NOT_ASENSOR && exists a :: 0 <= a < |devs| && devs[a].id == d.asensors[k].id
  }

  /** The sensor is a limiter of the device table, and is touched. */
  ghost predicate Touched(a: Asensor, devs: seq<Dev>)
  {
    a.kind == Limiter && FindDevice(devs, a.id) >= 0 && devs[FindDevice(devs, a.id)].rawvalue != SIGNAL_OFF
  }

  /** A touched limiter that the loop gets to: every entry before it is set and found. */
  ghost predicate LimiterOn(d: Dev, devs: seq<Dev>)
  {
    exists j :: 0 <= j < |d.asensors| && Reaches(d, devs, j) && Touched(d.asensors[j], devs)
  }

  lemma {:induction false} ScanStops(d: Dev, devs: seq<Dev>, i: nat, j: nat, io: Io)
    requires Good(d, io) && i <= j < |d.asensors| && Reaches(d, devs, j) && Touched(d.asensors[j], devs)
    ensures ScanAsensors(d, devs, i, io).0.current.stat != Working
    decreases j - i
  {
    hide Good, LimitStop, FindDevice, Local;
    assert d.asensors[i].id != NOT_ASENSOR;
    var a := FindDevice(devs, d.asensors[i].id);
    var hit := devs[a].rawvalue != SIGNAL_OFF && d.asensors[i].kind == Limiter;
    LimitStopKeeps(d, io);
    var (d1, io1) := if hit then LimitStop(d, io) else (d, io);
    if i < j {
      ScanStops(d1, devs, i + 1, j, io1);
    } else {
      ScanAsensorsKeeps(d1, devs, i + 1, io1);
    }
  }

  /** Without a touched limiter within reach the loop changes nothing, whatever lies behind an
      unset entry or one that is not found. */
  lemma {:induction false} ScanGoesOn(d: Dev, devs: seq<Dev>, i: nat, io: Io)
    requires d.usedAsensor && (0 < i <= |d.asensors| ==> Reaches(d, devs, i - 1)) && !LimiterOn(d, devs)
    ensures ScanAsensors(d, devs, i, io) == (d, io)
    decreases |d.asensors| - i
  {
    hide LimitStop, FindDevice;
    if i < |d.asensors| && d.asensors[i].id != NOT_ASENSOR && FindDevice(devs, d.asensors[i].id) >= 0 {
      assert Reaches(d, devs, i);
      assert !Touched(d.asensors[i], devs);
      ScanGoesOn(d, devs, i + 1, io);
    }
  }

  /** Sending never makes a command working, nor stops one. */
  lemma SendNeverWorks(d: Dev, conns: set<int>, io: Io)
    ensures SendCommand(d, conns, io).0.current.stat == Working <==> d.current.stat == Working
  {
  }

  /** The actuator works, and no stop command asks it to stop. */
  predicate WorksOn(d: Dev)
  {
    ReportedTime(d) > 0 && (d.current.stat == Sent || d.current.stat == Working) && !StopIsWaiting(d)
  }

  lemma CheckFindsWork(d: Dev, io: Io)
    ensures CheckWorking(d, io).0.current.stat == Working <==> WorksOn(d)
  {
    hide ParseArgument, SetCurrent, UpdateStatus;
    SetCurrentEffect(d, Working, io);
    SetCurrentEffect(d, StoppingByStop, io);
    SetCurrentEffect(d, FinishedNormally, io);
    SetCurrentEffect(d, FinishedByAsensor, io);
    SetCurrentEffect(d, FinishedByStop, io);
    var (d1, io1) := SetCurrent(d, Working, io);
    SetCurrentEffect(d1, StoppingByStop, io1);
  }

  /** A command is working after its actuator's share of a tick exactly if it works on and no
      touched limiter is within reach of the sensor loop. */
  lemma LimiterExact(d: Dev, devs: seq<Dev>, conns: set<int>, io: Io)
    requires Good(d, io) && ReportIsPlausible(d)
    ensures ServeActuator(d, devs, conns, io).0.current.stat == Working <==> WorksOn(d) && !LimiterOn(d, devs)
  {
    hide CheckWorking, Good, Conserves, FindDevice, ScanAsensors, SendCommand, Frames, SlotIds, WorksOn, LimiterOn,
      Reaches, Touched;
    CheckWorkingKeeps(d, io);
    CheckFindsWork(d, io);
    var (d1, io1) := CheckWorking(d, io);
    LimiterOfSlots(d, d1, devs);
    ScanExact(d1, devs, io1);
    var (d2, io2) := ControlWithAsensor(d1, devs, io1);
    SendNeverWorks(d2, conns, io2);
  }

  /** Which limiters are on does not depend on the slots. */
  lemma LimiterOfSlots(d: Dev, d': Dev, devs: seq<Dev>)
    requires SameDevice(d, d')
    ensures LimiterOn(d, devs) <==> LimiterOn(d', devs)
  {
    hide Touched;
    if j :| 0 <= j < |d.asensors| && Reaches(d, devs, j) && Touched(d.asensors[j], devs) {
      assert Reaches(d', devs, j);
    }
    if j :| 0 <= j < |d'.asensors| && Reaches(d', devs, j) && Touched(d'.asensors[j], devs) {
      assert Reaches(d, devs, j);
    }
  }

  lemma ScanExact(d: Dev, devs: seq<Dev>, io: Io)
    requires Good(d, io)
    ensures ControlWithAsensor(d, devs, io).0.current.stat == Working <==> d.current.stat == Working && !LimiterOn(d, devs)
  {
    hide Good, ScanAsensors, Touched, Local, FindDevice;
    if LimiterOn(d, devs) {
      var j :| 0 <= j < |d.asensors| && Reaches(d, devs, j) && Touched(d.asensors[j], devs);
      ScanStops(d, devs, 0, j, io);
    } else if d.usedAsensor {
      ScanGoesOn(d, devs, 0, io);
    }
  }

  /** With the gateway always connected, a live command was sent once when it started
      and once more for every eighth tick without a reaction. */
  predicate SendsExact(d: Dev)
  {
    d.current.Live() ==> d.current.workcnt == 1 + d.current.resentignore / RESENT_IGNORE_COUNT
  }

  lemma ServeSendsExact(d: Dev, devs: seq<Dev>, conns: set<int>, io: Io)
    requires Good(d, io) && ReportIsPlausible(d) && SendsExact(d) && d.gcgid in conns
    ensures SendsExact(ServeActuator(d, devs, conns, io).0)
  {
    hide LogOk, Mirror, StopsPaired, WireOk, Conserves, Frames, SlotIds, CheckWorking, ControlWithAsensor, SendCommand;
    hide ParseArgument, Shape;
    var (d1, io1) := CheckWorking(d, io);
    CheckWorkingKeeps(d, io);
    CheckKeepsCounts(d, io);
    ControlWithAsensorKeeps(d1, devs, io1);
    var (d2, io2) := ControlWithAsensor(d1, devs, io1);
    SendExact(d2, conns, io2);
  }

  lemma CheckKeepsCounts(d: Dev, io: Io)
    requires ReportIsPlausible(d)
    ensures var d' := CheckWorking(d, io).0;
      && d'.current == d.current.(stat := d'.current.stat)
      && (d'.current.Live() ==> d.current.Live()) && d'.gcgid == d.gcgid
  {
    hide SetCurrent, UpdateStatus, ParseArgument;
    SetCurrentEffect(d, Working, io);
    SetCurrentEffect(d, StoppingByStop, io);
    SetCurrentEffect(d, FinishedNormally, io);
    SetCurrentEffect(d, FinishedByAsensor, io);
    SetCurrentEffect(d, FinishedByStop, io);
    var (d1, io1) := SetCurrent(d, Working, io);
    SetCurrentEffect(d1, StoppingByStop, io1);
  }

  lemma SendExact(d: Dev, conns: set<int>, io: Io)
    requires Shape(d) && SendsExact(d) && d.gcgid in conns
    ensures SendsExact(SendCommand(d, conns, io).0)
  {
    hide ParseArgument, WrongArguments, UpdateControl, ArchiveControl;
  }

  // ------------------------------------------------- inside a tick of the server

  lemma SendWire(d: Dev, conns: set<int>, io: Io)
    ensures var io' := SendCommand(d, conns, io).1;
      io'.wire == io.wire || exists f: Frame :: f.deviceid == d.id && io'.wire == io.wire + [f]
  {
    hide ArchiveControl;
    var io' := SendCommand(d, conns, io).1;
    if io'.wire != io.wire {
      var f := io'.wire[|io.wire|];
      assert f.deviceid == d.id && io'.wire == io.wire + [f];
    }
  }

  /** Serving one actuator sends nothing to another. */
  lemma ServeWire(d: Dev, devs: seq<Dev>, conns: set<int>, io: Io, id: int)
    requires Good(d, io) && ReportIsPlausible(d) && id != d.id
    ensures FramesFor(ServeActuator(d, devs, conns, io).1.wire, id) == FramesFor(io.wire, id)
  {
    hide Good, Conserves, Frames, SlotIds, CheckWorking, ControlWithAsensor, SendCommand, ReportIsPlausible, FramesFor;
    CheckWorkingKeeps(d, io);
    var (d1, io1) := CheckWorking(d, io);
    ControlWithAsensorKeeps(d1, devs, io1);
    var (d2, io2) := ControlWithAsensor(d1, devs, io1);
    SendWire(d2, conns, io2);
    var io3 := SendCommand(d2, conns, io2).1;
    if io3.wire != io2.wire {
      var f: Frame :| f.deviceid == d2.id && io3.wire == io2.wire + [f];
      FramesForAppend(io2.wire, f, id);
    }
  }

  /** Between two rounds of gos_select_and_send_command, a device outside them keeps its
      slots and is sent nothing, and the archive only grows. */
  lemma {:induction false} RoundsApart(s: Sys, conns: set<int>, m: nat, n: nat, i: nat)
    requires Inv(s) && ReportsPlausible(s.devs) && m <= n <= |s.devs| && i < |s.devs| && !(m <= i < n)
    ensures var a, b := ServeFirst(s, conns, m), ServeFirst(s, conns, n);
      && b.devs[i] == a.devs[i]
      && FramesFor(b.io.wire, s.devs[i].id) == FramesFor(a.io.wire, s.devs[i].id)
      && a.io.history <= b.io.history
    decreases n
  {
    hide Shape, DevsOk, LogOk, StopsPaired, WireOk, Conserved, Good, ServeActuator, ReportIsPlausible, FramesFor,
      Conserves, Frames, SlotIds;
    if m < n {
      RoundsApart(s, conns, m, n - 1, i);
      ServeFirstKeeps(s, conns, n - 1);
      var r := ServeFirst(s, conns, n - 1);
      var d := r.devs[n - 1];
      if d.actuator {
        GoodDevice(r, n - 1);
        ServeActuatorKeeps(d, r.devs, conns, r.io);
        assert s.devs[i].id != d.id;
        ServeWire(d, r.devs, conns, r.io, s.devs[i].id);
      }
    }
  }

  /** Device i is served in the state m, left by the rounds before it as `slots`, and
      the rounds after it leave it alone. */
  ghost predicate ServedIn(s: Sys, slots: Dev, m: Sys, conns: set<int>, i: nat, t: Sys)
    requires i < |s.devs| == |m.devs| == |t.devs|
  {
    var id := s.devs[i].id;
    var (d, io) := ServeActuator(slots, m.devs, conns, m.io);
    && slots == s.devs[i].(waiting := slots.waiting)
    && Good(slots, m.io) && ReportIsPlausible(slots)
    && (forall j :: 0 <= j < |s.devs| ==> SameDevice(s.devs[j], m.devs[j]))
    && FramesFor(m.io.wire, id) == FramesFor(s.io.wire, id)
    && t.devs[i] == d
    && FramesFor(t.io.wire, id) == FramesFor(io.wire, id)
    && s.io.history <= m.io.history && io.history <= t.io.history
  }

  /** A tick serves an actuator exactly once, with the slots that reading the commands left. */
  lemma TickServes(s: Sys, batch: seq<Selected>, auto: bool, conns: set<int>, i: nat) returns (m: Sys)
    requires Inv(s) && IsSelection(s.io.rows, batch) && ReportsPlausible(s.devs)
    requires i < |s.devs| && s.devs[i].actuator
    ensures |m.devs| == |s.devs|
    ensures ServedIn(s, ReadCommands(s, batch, auto).devs[i], m, conns, i, Tick(s, batch, auto, conns))
  {
    hide Shape, DevsOk, LogOk, StopsPaired, WireOk, Conserved, Good, ServeActuator, ReportIsPlausible, FramesFor,
      Conserves, Frames, SlotIds, ReadCommands;
    ReadCommandsKeeps(s, batch, auto);
    var r := ReadCommands(s, batch, auto);
    PlausibleAfterReading(s.devs, r.devs);
    ServeFirstKeeps(r, conns, i);
    m := ServeFirst(r, conns, i);
    RoundsApart(r, conns, 0, i, i);
    GoodDevice(m, i);
    ServeFirstKeeps(r, conns, i + 1);
    RoundsApart(r, conns, i + 1, |r.devs|, i);
  }
}
