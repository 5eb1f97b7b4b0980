/** Runs of the server from its start: a whole stop, and the states at which the program does
    not do what its names and comments say. */
module Witnesses {
  import opened Words
  import opened Commands
  import opened CommandInvariants
  import opened CommandRuns
  import opened ServerRuns
  import opened TickEffects
  import opened IdleStops
  import opened CommandTheorems
  import opened B = BatchMeaning
  import opened StopProgress

  // ------------------------------------------------------------ runs of the server

  function Actuator(asensors: seq<Asensor>): Dev
  {
    Dev(1, true, 5, asensors != [], asensors, 0, IDLE, IDLE)
  }

  const LIMITER := Dev(2, false, 5, false, [], 0, IDLE, IDLE)

  /** A command for the actuator, opening it for the given seconds. */
  function OpenFor(seconds: nat): Row
  {
    Row(1, 1, seconds, "user", 0, 4096 + seconds, 0, 0, NoCommand)
  }

  /** The command once it was read. */
  function Opening(seconds: nat, st: Status): Cmd
  {
    Cmd(7, 1, 1, seconds, 4096 + seconds, 0, "user", One(st != Waiting), 0, 0, st)
  }

  /** The server after the command was inserted, read and sent. */
  function AfterSending(devs: seq<Dev>, seconds: nat): Sys
    requires devs != []
  {
    var row := OpenFor(seconds);
    Sys([devs[0].(waiting := Opening(seconds, Waiting).(stat := NoCommand), current := Opening(seconds, Sent))] + devs[1..],
        Io(map[7 := row.(sentcnt := 1, status := Sent)], [], [Update(7, Waiting), Update(7, Sent)], [Frame(1, 7, 4096 + seconds)]),
        {7})
  }

  function Inserted(devs: seq<Dev>, seconds: nat): Sys
  {
    Sys(devs, Io(map[7 := OpenFor(seconds)], [], [], []), {7})
  }

  lemma LoadedOpening(seconds: nat)
    requires seconds <= TIME_FILTER
    ensures LoadCommand(Selected(7, OpenFor(seconds))) == Opening(seconds, Waiting).(stat := NoCommand)
    ensures !IsWrong(Opening(seconds, Waiting))
  {
  }

  lemma FirstIsFound(devs: seq<Dev>)
    requires devs != [] && devs[0].id == 1 && forall i :: 0 < i < |devs| ==> devs[i].id != 1
    ensures FindDevice(devs, 1) == 0
  {
  }

  lemma ReadOpening(devs: seq<Dev>, seconds: nat)
    requires devs != [] && devs[0].id == 1 && devs[0].waiting == IDLE && (forall i :: 0 < i < |devs| ==> devs[i].id != 1)
    requires seconds <= TIME_FILTER
    ensures var s := Inserted(devs, seconds);
      ReadCommands(s, [Selected(7, OpenFor(seconds))], false) ==
      Sys([devs[0].(waiting := Opening(seconds, Waiting))] + devs[1..],
          Io(map[7 := OpenFor(seconds).(status := Waiting)], [], [Update(7, Waiting)], []), {7})
  {
    var s, r := Inserted(devs, seconds), Selected(7, OpenFor(seconds));
    LoadedOpening(seconds);
    FirstIsFound(devs);
    hide LoadCommand, FindDevice, IsWrong;
    assert [r][..0] == [];
    assert ReadRows(s, [], false) == Scan(s, -1);
    var (d, io) := UpdateWaiting(devs[0], LoadCommand(r), s.io);
    assert io.rows == map[7 := OpenFor(seconds).(status := Waiting)];
    assert devs[0 := d] == [d] + devs[1..];
  }

  lemma {:induction false} OnlyFirstServed(s: Sys, conns: set<int>, n: nat)
    requires 0 < n <= |s.devs| && s.devs[0].actuator && forall i :: 0 < i < |s.devs| ==> !s.devs[i].actuator
    ensures var (d, io) := ServeActuator(s.devs[0], s.devs, conns, s.io);
      ServeFirst(s, conns, n) == s.(devs := [d] + s.devs[1..], io := io)
  {
    hide ServeActuator;
    var (d, io) := ServeActuator(s.devs[0], s.devs, conns, s.io);
    if n == 1 {
      assert s.devs[0 := d] == [d] + s.devs[1..];
      assert ServeFirst(s, conns, 0) == s;
    } else {
      OnlyFirstServed(s, conns, n - 1);
    }
  }

  /** The actuator first, with nothing else under the server's control. */
  ghost predicate OneActuator(devs: seq<Dev>)
  {
    && devs != [] && devs[0].id == 1 && devs[0].actuator && devs[0].gcgid == 5
    && forall i :: 0 < i < |devs| ==> devs[i].id != 1 && !devs[i].actuator
  }

  lemma SendOpening(devs: seq<Dev>, seconds: nat)
    requires OneActuator(devs) && devs[0].waiting == devs[0].current == IDLE && devs[0].rawvalue == 0
    requires seconds <= TIME_FILTER
    ensures Tick(Inserted(devs, seconds), [Selected(7, OpenFor(seconds))], false, {5}) == AfterSending(devs, seconds)
  {
    ReadOpening(devs, seconds);
    var r := ReadCommands(Inserted(devs, seconds), [Selected(7, OpenFor(seconds))], false);
    OnlyFirstServed(r, {5}, |r.devs|);
    SendFirst(r.devs[0], r.devs, r.io, seconds);
    hide ReadCommands, ServeActuator, ServeFirst;
    assert r.devs[1..] == devs[1..];
  }

  lemma SendFirst(d: Dev, devs: seq<Dev>, io: Io, seconds: nat)
    requires d.id == 1 && d.gcgid == 5 && d.waiting == Opening(seconds, Waiting) && d.current == IDLE && d.rawvalue == 0
    requires io == Io(map[7 := OpenFor(seconds).(status := Waiting)], [], [Update(7, Waiting)], [])
    ensures var (d', io') := ServeActuator(d, devs, {5}, io);
      && d' == d.(waiting := Opening(seconds, Waiting).(stat := NoCommand), current := Opening(seconds, Sent))
      && io' == Io(map[7 := OpenFor(seconds).(sentcnt := 1, status := Sent)], [],
                   [Update(7, Waiting), Update(7, Sent)], [Frame(1, 7, 4096 + seconds)])
  {
    ScanIdle(d, devs, io);
    hide ControlWithAsensor;
  }

  lemma ScanIdle(d: Dev, devs: seq<Dev>, io: Io)
    requires d.current.stat != Working
    ensures ControlWithAsensor(d, devs, io) == (d, io)
  {
    if d.usedAsensor { ScanSkips(d, devs, 0, io); }
  }

  /** From the start to the sent command. */
  lemma SendingRun(devs: seq<Dev>, seconds: nat) returns (acts: seq<Action>, run: seq<Sys>)
    requires OneActuator(devs) && seconds <= TIME_FILTER
    requires forall i :: 0 <= i < |devs| ==> devs[i].waiting == devs[i].current == IDLE && devs[i].rawvalue == 0
    ensures IsRun(devs, acts, run) && |acts| == 2 && run[2] == AfterSending(devs, seconds)
  {
    var batch := [Selected(7, OpenFor(seconds))];
    acts := [Insert(7, OpenFor(seconds)), Timer(batch, false, {5})];
    run := [Start(devs), Inserted(devs, seconds), AfterSending(devs, seconds)];
    assert Fresh(devs) == devs;
    SendOpening(devs, seconds);
    hide Tick;
    assert Apply(run[0], acts[0]) == run[1];
    PlausibleAtRest(devs);
    assert IsSelection(run[1].io.rows, batch) by { assert batch[0].id == 7; }
    forall k | 0 <= k < 2 ensures Enabled(run[k], acts[k]) && run[k + 1] == Apply(run[k], acts[k]) {
      if k == 1 { assert Apply(run[1], acts[1]) == run[2]; }
    }
  }

  lemma PlausibleAtRest(devs: seq<Dev>)
    requires forall i :: 0 <= i < |devs| ==> devs[i].rawvalue == 0
    ensures ReportsPlausible(devs)
  {
  }

  /** A stop command sent to an actuator at rest: IdleStopStays and IdleStopBlocks apply to a
      state the server reaches in two actions. */
  lemma IdleStopReached() returns (acts: seq<Action>, run: seq<Sys>)
    ensures IsRun([Actuator([])], acts, run) && |acts| == 2
    ensures |run[2].devs| == 1 && Idle(run[2].devs[0]) && ReportedTime(run[2].devs[0]) == 0
  {
    acts, run := SendingRun([Actuator([])], 0);
  }

  const NEAR := [Asensor(2, Limiter)]
  const BEHIND := [Asensor(9, Limiter), Asensor(2, Limiter)]   // no device has the id 9

  function Plant(asensors: seq<Asensor>): seq<Dev> { [Actuator(asensors), LIMITER] }

  /** The actuator reports ten seconds of work, and the limiter is touched. */
  function Reported(s: Sys): Sys
    requires |s.devs| == 2
  {
    s.(devs := [s.devs[0].(rawvalue := 4106), s.devs[1].(rawvalue := 1)])
  }

  function BeforeLimiter(asensors: seq<Asensor>): Sys { Reported(AfterSending(Plant(asensors), 10)) }

  lemma OpeningWord()
    ensures ParseArgument(4106) == (1, 10)
  {
  }

  lemma CheckFindsOpening(d: Dev, io: Io)
    requires d.current == Opening(10, Sent) && !d.waiting.Live() && d.rawvalue == 4106
    ensures CheckWorking(d, io).0 == d.(current := Opening(10, Working)) && CheckWorking(d, io).1.wire == io.wire
  {
    OpeningWord();
    hide ParseArgument;
  }

  lemma LimiterFound(devs: seq<Dev>)
    requires |devs| == 2 && devs[0].id == 1 && devs[1].id == 2
    ensures FindDevice(devs, 2) == 1 && FindDevice(devs, 9) == -1
  {
    assert devs[..1] == [devs[0]];
  }

  lemma LimitStopEffect(d: Dev, io: Io)
    requires d.current.stat == Working
    ensures LimitStop(d, io).0 == d.(current := d.current.(stat := StoppingByAsensor)) && LimitStop(d, io).1.wire == io.wire
  {
  }

  lemma ScanNear(d: Dev, devs: seq<Dev>, io: Io)
    requires d.usedAsensor && d.asensors == NEAR && |devs| == 2 && devs[0].id == 1 && devs[1].id == 2 && devs[1].rawvalue == 1
    ensures ControlWithAsensor(d, devs, io) == LimitStop(d, io)
  {
    LimiterFound(devs);
    hide FindDevice, LimitStop;
    var (d2, io2) := LimitStop(d, io);
    SameAsensors(d, io);
    assert ScanAsensors(d2, devs, 1, io2) == (d2, io2);
  }

  lemma SameAsensors(d: Dev, io: Io)
    ensures LimitStop(d, io).0.asensors == d.asensors
  {
  }

  lemma ServeNear(s: Sys)
    requires s == BeforeLimiter(NEAR)
    ensures var (d, io) := ServeActuator(s.devs[0], s.devs, {5}, s.io);
      && d.current == Opening(10, StoppingByAsensor).(stopcnt := 1)
      && io.wire == s.io.wire + [Frame(1, 7, 4106)]
  {
    var d := s.devs[0];
    CheckFindsOpening(d, s.io);
    var (d1, io1) := CheckWorking(d, s.io);
    ScanNear(d1, s.devs, io1);
    LimitStopEffect(d1, io1);
    hide CheckWorking, ControlWithAsensor, LimitStop, UpdateStatus, ParseArgument;
  }

  lemma ServeBehind(s: Sys)
    requires s == BeforeLimiter(BEHIND)
    ensures ServeActuator(s.devs[0], s.devs, {5}, s.io).0.current == Opening(10, Working)
    ensures Touched(s.devs[0].asensors[1], s.devs)
  {
    var d := s.devs[0];
    CheckFindsOpening(d, s.io);
    LimiterFound(s.devs);
    var (d1, io1) := CheckWorking(d, s.io);
    hide CheckWorking, FindDevice;
    assert ControlWithAsensor(d1, s.devs, io1) == (d1, io1);
  }

  lemma RunExtends(devs: seq<Dev>, acts: seq<Action>, run: seq<Sys>, a: Action) returns (acts': seq<Action>, run': seq<Sys>)
    requires IsRun(devs, acts, run) && Enabled(run[|acts|], a)
    ensures IsRun(devs, acts', run') && |acts'| == |acts| + 1 && acts'[|acts|] == a
    ensures |run'| == |run| + 1 && run'[|run|] == Apply(run[|acts|], a) && run' == run + [run'[|run|]]
  {
    hide Enabled, Apply, Start;
    acts', run' := acts + [a], run + [Apply(run[|acts|], a)];
    forall k | 0 <= k < |acts'| ensures Enabled(run'[k], acts'[k]) && run'[k + 1] == Apply(run'[k], acts'[k]) {
      if k < |acts| { assert acts'[k] == acts[k] && run'[k] == run[k] && run'[k + 1] == run[k + 1]; }
    }
  }

  lemma LastTickApplies(s: Sys, asensors: seq<Asensor>)
    requires s == BeforeLimiter(asensors)
    ensures Enabled(s, Timer([], false, {5}))
    ensures var (d, io) := ServeActuator(s.devs[0], s.devs, {5}, s.io);
      Apply(s, Timer([], false, {5})) == s.(devs := [d, s.devs[1]], io := io)
  {
    LastTickEnabled(s, asensors);
    LastTick(s, asensors);
    hide ServeActuator, Tick, AfterSending, Reported, IsSelection, ReportsPlausible;
  }

  lemma ReportsApply(s: Sys)
    requires |s.devs| == 2
    ensures Apply(Apply(s, Report(0, 4106)), Report(1, 1)) == Reported(s)
  {
  }

  lemma LastTickEnabled(s: Sys, asensors: seq<Asensor>)
    requires s == BeforeLimiter(asensors)
    ensures Enabled(s, Timer([], false, {5}))
  {
    OpeningWord();
    hide ParseArgument;
  }

  lemma LastTick(s: Sys, asensors: seq<Asensor>)
    requires s == BeforeLimiter(asensors)
    ensures var (d, io) := ServeActuator(s.devs[0], s.devs, {5}, s.io);
      Tick(s, [], false, {5}) == s.(devs := [d, s.devs[1]], io := io)
  {
    OnlyFirstServed(s, {5}, 2);
    hide ServeActuator, ServeFirst, AfterSending;
    assert ReadCommands(s, [], false) == s;
  }

  /** The run that ends with a tick in which the limiter is touched. */
  lemma LimiterRun(asensors: seq<Asensor>) returns (acts: seq<Action>, run: seq<Sys>)
    ensures IsRun(Plant(asensors), acts, run) && |acts| == 5 && |run| == 6 && run[4] == BeforeLimiter(asensors)
    ensures acts[4] == Timer([], false, {5})
    ensures var s := run[4]; var (d, io) := ServeActuator(s.devs[0], s.devs, {5}, s.io);
      run[5] == s.(devs := [d, s.devs[1]], io := io)
  {
    var devs := Plant(asensors);
    acts, run := SendingRun(devs, 10);
    ReportsApply(run[2]);
    LastTickApplies(BeforeLimiter(asensors), asensors);
    hide Apply, IsRun, ServeActuator, Reported;
    assert |run[2].devs| == 2;
    acts, run := RunExtends(devs, acts, run, Report(0, 4106));
    Reportable(run[2]);
    acts, run := RunExtends(devs, acts, run, Report(1, 1));
    acts, run := RunExtends(devs, acts, run, Timer([], false, {5}));
  }

  lemma Reportable(s: Sys)
    requires |s.devs| == 2
    ensures Enabled(Apply(s, Report(0, 4106)), Report(1, 1))
  {
  }

  /** A command being stopped by a limiter is a state the server reaches, and the frame it
      then sends encodes ten seconds: the same word that started the actuator. */
  lemma LimiterFrameReached() returns (acts: seq<Action>, run: seq<Sys>)
    ensures IsRun(Plant(NEAR), acts, run) && |acts| == 5 && |run[5].devs| == 2
    ensures run[5].devs[0].current.stat == StoppingByAsensor && run[5].devs[0].current.tm == 10
    ensures run[5].io.wire == [Frame(1, 7, 4106), Frame(1, 7, 4106)] && ParseArgument(4106) == (1, 10)
  {
    acts, run := LimiterRun(NEAR);
    hide ServeActuator, IsRun;
    ServeNear(run[4]);
    OpeningWord();
  }

  /** The limiter in the second entry is in the device table and touched, yet the command goes
      on working, because the first entry names a device that is not there. */
  lemma LimiterMissed() returns (acts: seq<Action>, run: seq<Sys>)
    ensures IsRun(Plant(BEHIND), acts, run) && |acts| == 5 && run[4] == BeforeLimiter(BEHIND) && |run[5].devs| == 2
    ensures acts[4].Timer? && Touched(run[4].devs[0].asensors[1], run[4].devs)
    ensures run[5].devs[0].current.stat == Working
  {
    acts, run := LimiterRun(BEHIND);
    hide ServeActuator, IsRun;
    ServeBehind(run[4]);
  }

  // --------------------------------------------------------------------- a whole stop

  const STOP_ROW := Row(1, 1, 0, "user", 0, 4096, 0, 0, NoCommand)
  const STOP_BATCH := [Selected(8, STOP_ROW)]

  function StopInserted(s: Sys): Sys
  {
    s.(io := s.io.(rows := s.io.rows[8 := STOP_ROW]), inserted := s.inserted + {8})
  }

  lemma StopLoaded()
    ensures var c := LoadCommand(STOP_BATCH[0]); c.id == 8 && c.IsStop() && !IsWrong(c) && c.ctrlarg == 4096
  {
  }

  /** The sent command, with the row of its stop in the table. */
  lemma StopRowComes(s: Sys)
    requires s == StopInserted(AfterSending([Actuator([])], 10))
    ensures |s.devs| == 1 && NaturalIds(s.devs) && Enabled(s, Timer(STOP_BATCH, false, {5}))
    ensures StopComes(s.devs, STOP_BATCH, false, 0, 0)
    ensures s.devs[0].actuator && s.devs[0].current.stat == Sent && s.devs[0].rawvalue == 0
  {
    StopLoaded();
    FirstIsFound(s.devs);
    PlausibleAtRest(s.devs);
    hide LoadCommand, IsWrong, FindDevice, ReportsPlausible;
    assert STOP_BATCH[0].id == 8;
  }

  lemma StopInsertable(devs: seq<Dev>, seconds: nat)
    requires devs != []
    ensures var s := AfterSending(devs, seconds);
      Enabled(s, Insert(8, STOP_ROW)) && Apply(s, Insert(8, STOP_ROW)) == StopInserted(s)
  {
  }

  /** With both commands in slots the table has no pending row. */
  lemma NothingPending(t: Sys)
    requires Inv(t) && |t.devs| == 1 && StoppingWith(t.devs[0], 7, 8, 4096) && t.inserted == {7, 8}
    ensures IsSelection(t.io.rows, [])
  {
    hide LogOk, StopsPaired, WireOk, Shape, HistCount, ParseArgument;
    assert Mirror(t.devs[0], t.io);
    forall id | id in t.io.rows ensures id == 7 || id == 8 {
      assert Records(t.io, id) == One(id in t.inserted);
    }
  }

  /** The tick that reads the stop row. */
  lemma StopTick(s: Sys)
    requires s == StopInserted(AfterSending([Actuator([])], 10)) && Inv(s)
    ensures Enabled(s, Timer(STOP_BATCH, false, {5}))
    ensures var t := Apply(s, Timer(STOP_BATCH, false, {5}));
      && Inv(t) && |t.devs| == 1 && t.inserted == {7, 8}
      && StoppingWith(t.devs[0], 7, 8, 4096) && t.devs[0].actuator && t.devs[0].rawvalue == 0
  {
    StopRowComes(s);
    StopLoaded();
    TickTakesStop(s, STOP_BATCH, false, {5}, 0, 0);
    TickKeeps(s, STOP_BATCH, false, {5});
    ReadCommandsKeeps(s, STOP_BATCH, false);
    var r := ReadCommands(s, STOP_BATCH, false);
    PlausibleAfterReading(s.devs, r.devs);
    ServeFirstKeeps(r, {5}, 1);
    hide Inv, ReadCommands, ServeFirst, StoppingWith, LoadCommand, StopComes, IsSelection, ReportsPlausible, FramesFor, IsWrong;
  }

  /** The tick after it, with the actuator at rest. */
  lemma EndTick(t: Sys)
    requires Inv(t) && |t.devs| == 1 && t.inserted == {7, 8}
    requires StoppingWith(t.devs[0], 7, 8, 4096) && t.devs[0].actuator && t.devs[0].rawvalue == 0
    ensures Enabled(t, Timer([], false, {5}))
    ensures var u := Apply(t, Timer([], false, {5}));
      && |u.devs| == 1 && !u.devs[0].current.Live() && !u.devs[0].waiting.Live()
      && ArchivedTogether(t.io.history, u.io.history,
                          t.devs[0].current.(stat := FinishedByStop), t.devs[0].waiting.(stat := FinishedNormally))
  {
    NothingPending(t);
    PlausibleAtRest(t.devs);
    hide Inv, ReportsPlausible, IsSelection, FramesFor, Tick, ArchivedTogether;
    TickEndsStop(t, [], false, {5}, 0);
  }

  /** A stop row for the sent command: the tick that reads it begins the stop, and the next
      tick, with the actuator at rest, archives both commands. */
  lemma StopReached() returns (acts: seq<Action>, run: seq<Sys>)
    ensures IsRun([Actuator([])], acts, run) && |acts| == 5 && |run[4].devs| == |run[5].devs| == 1
    ensures StoppingWith(run[4].devs[0], 7, 8, 4096)
    ensures !run[5].devs[0].current.Live() && !run[5].devs[0].waiting.Live()
    ensures ArchivedTogether(run[4].io.history, run[5].io.history,
                             run[4].devs[0].current.(stat := FinishedByStop), run[4].devs[0].waiting.(stat := FinishedNormally))
  {
    var devs := [Actuator([])];
    assert DistinctIds(devs);
    acts, run := SendingRun(devs, 10);
    StopInsertable(devs, 10);
    hide IsRun, Apply, Enabled, AfterSending, StopInserted, Inv, ArchivedTogether, StoppingWith, DistinctIds, Actuator;
    acts, run := RunExtends(devs, acts, run, Insert(8, STOP_ROW));
    RunInv(devs, acts, run, 3);
    StopTick(run[3]);
    acts, run := RunExtends(devs, acts, run, Timer(STOP_BATCH, false, {5}));
    EndTick(run[4]);
    acts, run := RunExtends(devs, acts, run, Timer([], false, {5}));
  }
}
