/** The promises of the command life cycle, over all runs of the server. */
module CommandTheorems {
  import opened Words
  import opened Commands
  import opened CommandInvariants
  import opened CommandRuns
  import opened LifeCycle
  import opened ServerRuns
  import opened TickEffects

  // -------------------------------------------------------- conservation of commands

  predicate InNoSlot(devs: seq<Dev>, id: int)
  {
    forall i :: 0 <= i < |devs| ==> Held(devs[i], id) == 0
  }

  /** The command waits in the table, untouched by any slot. */
  predicate Queued(s: Sys, id: int)
  {
    Pending(s.io, id) && InNoSlot(s.devs, id) && HistCount(s.io.history, id) == 0
  }

  /** The command is in one slot of one device, and its row shows that slot's status. */
  ghost predicate InOneSlot(s: Sys, id: int)
  {
    && id in s.io.rows && HistCount(s.io.history, id) == 0
    && exists i :: 0 <= i < |s.devs| && Held(s.devs[i], id) == 1 && ShownBy(s.devs[i], s.io.rows[id], id)
                   && forall j :: 0 <= j < |s.devs| && j != i ==> Held(s.devs[j], id) == 0
  }

  predicate ShownBy(d: Dev, row: Row, id: int)
  {
    row.status != NoCommand && row.status == (if d.waiting.Live() && d.waiting.id == id then d.waiting.stat else d.current.stat)
  }

  /** The command was archived once and is nowhere else. */
  predicate Archived(s: Sys, id: int)
  {
    id !in s.io.rows && InNoSlot(s.devs, id) && HistCount(s.io.history, id) == 1
  }

  lemma NotHeld(devs: seq<Dev>, id: int)
    requires HeldBy(devs, id) == 0
    ensures InNoSlot(devs, id)
  {
    forall i | 0 <= i < |devs| ensures Held(devs[i], id) == 0 { HeldAtLeast(devs, i, id); }
  }

  lemma OnePlaceIn(s: Sys, id: int)
    requires Inv(s) && id in s.inserted
    ensures Queued(s, id) || InOneSlot(s, id) || Archived(s, id)
  {
    hide LogOk, StopsPaired, WireOk, Shape, HistCount, DistinctIds;
    assert TotalPlaces(s, id) == 1 && Records(s.io, id) == 1;
    if id in s.io.rows && s.io.rows[id].status != NoCommand {
      var i := RowHasOwner(s, id);
      HeldAtLeast(s.devs, i, id);
      assert Mirror(s.devs[i], s.io);
      assert ShownBy(s.devs[i], s.io.rows[id], id);
    } else {
      NotHeld(s.devs, id);
    }
  }

  /** In every reachable state every command ever inserted is in exactly one of the three
      places (they exclude one another), and nothing else is in any of them. */
  lemma EveryCommandInOnePlace(devs: seq<Dev>, acts: seq<Action>, run: seq<Sys>, n: nat, id: int)
    requires DistinctIds(devs) && IsRun(devs, acts, run) && n <= |acts|
    ensures id in run[n].inserted ==> Queued(run[n], id) || InOneSlot(run[n], id) || Archived(run[n], id)
    ensures id !in run[n].inserted ==>
      id !in run[n].io.rows && InNoSlot(run[n].devs, id) && HistCount(run[n].io.history, id) == 0
  {
    hide LogOk, StopsPaired, WireOk, Shape, HistCount, Apply, Start, DevsOk, Enabled;
    RunInv(devs, acts, run, n);
    if id in run[n].inserted {
      OnePlaceIn(run[n], id);
    } else {
      assert TotalPlaces(run[n], id) == 0 && Records(run[n].io, id) == 0;
      NotHeld(run[n].devs, id);
    }
  }

  // ------------------------------------------------------------- life cycle over runs

  /** In every reachable state the status log climbs for each command, the table and the
      archive show its last entry, and every archive entry that names a cause has it. */
  lemma LifeCycleOverRuns(devs: seq<Dev>, acts: seq<Action>, run: seq<Sys>, n: nat)
    requires DistinctIds(devs) && IsRun(devs, acts, run) && n <= |acts|
    ensures PathOk(run[n].io.log)
    ensures forall id :: Changes(run[n].io.log, id) <= 6
    ensures forall id :: id in run[n].io.rows ==> run[n].io.rows[id].status == LastStatus(run[n].io.log, id)
    ensures forall k :: 0 <= k < |run[n].io.history| ==>
      run[n].io.history[k].stat == LastStatus(run[n].io.log, run[n].io.history[k].id)
    ensures forall k :: 0 <= k < |run[n].io.history| && run[n].io.history[k].stat == FinishedByAsensor ==>
      exists a, b, c :: 0 <= a < b < c < |run[n].io.log| && AsensorStory(run[n].io.log, a, b, c)
                        && run[n].io.log[c].id == run[n].io.history[k].id
  {
    hide StopsPaired, WireOk, Shape, HistCount, Apply, Start, DevsOk, Enabled, LastStatus, PathOk, Changes, Conserved;
    RunInv(devs, acts, run, n);
    var io := run[n].io;
    forall id ensures Changes(io.log, id) <= 6 { ChangesBounded(io.log, id); }
    forall k | 0 <= k < |io.history| && io.history[k].stat == FinishedByAsensor
      ensures exists a, b, c :: 0 <= a < b < c < |io.log| && AsensorStory(io.log, a, b, c)
                                && io.log[c].id == io.history[k].id
    {
      var c := LastLogged(io.log, io.history[k].id);
      AsensorFinishHasCause(io.log, c);
    }
  }

  /** In every reachable state a command being stopped has its stop command waiting, and
      every archived "finished by a stop command" is directly followed by that command. */
  lemma StopsPinnedAndPaired(devs: seq<Dev>, acts: seq<Action>, run: seq<Sys>, n: nat)
    requires DistinctIds(devs) && IsRun(devs, acts, run) && n <= |acts|
    ensures forall i :: 0 <= i < |run[n].devs| && run[n].devs[i].current.stat == StoppingByStop ==>
      StopIsWaiting(run[n].devs[i])
    ensures StopsPaired(run[n].io.history)
  {
    hide WireOk, LogOk, HistCount, Apply, Start, Enabled, Mirror, WaitingOk, CurrentOk, Conserved;
    RunInv(devs, acts, run, n);
  }

  /** Arguments: the word of a live current command decodes to its direction and time, at
      the server and, cut to 16 bits, at the node; so does every frame ever sent. */
  lemma ArgumentsSurvive(devs: seq<Dev>, acts: seq<Action>, run: seq<Sys>, n: nat)
    requires DistinctIds(devs) && IsRun(devs, acts, run) && n <= |acts|
    ensures forall i :: 0 <= i < |run[n].devs| && run[n].devs[i].current.Live() ==>
      var c := run[n].devs[i].current;
      ParseArgument(c.ctrlarg) == ParseArgument(c.ctrlarg % 0x1_0000) == (c.arg, c.tm) && !IsWrong(c)
    ensures forall k :: 0 <= k < |run[n].io.wire| ==>
      var w := run[n].io.wire[k].ctrlarg % 0x1_0000;
      !WrongArguments(ParseArgument(w).0, ParseArgument(w).1)
  {
    hide LogOk, HistCount, Apply, Start, Enabled, Mirror, WaitingOk, Pinned, Conserved, StopsPaired, ParseArgument;
    RunInv(devs, acts, run, n);
    forall i | 0 <= i < |run[n].devs| && run[n].devs[i].current.Live()
      ensures var c := run[n].devs[i].current;
        ParseArgument(c.ctrlarg) == ParseArgument(c.ctrlarg % 0x1_0000) == (c.arg, c.tm) && !IsWrong(c)
    {
      NodeReadsSameFields(run[n].devs[i].current.ctrlarg);
      assert CurrentOk(run[n].devs[i]);
    }
    forall k | 0 <= k < |run[n].io.wire|
      ensures ParseArgument(run[n].io.wire[k].ctrlarg % 0x1_0000) == ParseArgument(run[n].io.wire[k].ctrlarg)
    {
      NodeReadsSameFields(run[n].io.wire[k].ctrlarg);
    }
  }

  // ----------------------------------------------------------------- stop progress

  /** While a stop command waits, no row displaces it. */
  lemma {:induction false} ReadKeepsStop(s: Sys, batch: seq<Selected>, auto: bool, i: nat)
    requires i < |s.devs| && StopIsWaiting(s.devs[i])
    ensures ReadRows(s, batch, auto).sys.devs[i] == s.devs[i]
  {
    hide LoadCommand, UpdateStatus;
    if batch != [] { ReadKeepsStop(s, batch[..|batch| - 1], auto, i); }
  }

  /** A tick in which a stop command waits once the rows are read, for a sent command or for
      any live command of a working actuator, sends it and reaches "stopping by a stop
      command". */
  lemma TickBeginsStop(s: Sys, batch: seq<Selected>, auto: bool, conns: set<int>, i: nat)
    requires Inv(s) && IsSelection(s.io.rows, batch) && ReportsPlausible(s.devs)
    requires i < |s.devs| && s.devs[i].actuator && StopIsWaiting(ReadCommands(s, batch, auto).devs[i])
    requires s.devs[i].current.stat == Sent || (s.devs[i].current.Live() && ReportedTime(s.devs[i]) > 0)
    ensures var d, w, t := s.devs[i], ReadCommands(s, batch, auto).devs[i].waiting, Tick(s, batch, auto, conns);
      && StoppingWith(t.devs[i], d.current.id, w.id, w.ctrlarg)
      && FramesFor(t.io.wire, d.id) == FramesFor(s.io.wire, d.id) + Sending(d, w, conns)
  {
    hide Inv, Good, ServeActuator, ReportIsPlausible, FramesFor, Tick, IsSelection, ReadCommands, ParseArgument;
    var m := TickServes(s, batch, auto, conns, i);
    var slots := ReadCommands(s, batch, auto).devs[i];
    StopBegins(slots, m.devs, conns, m.io);
    SentAlone(slots, slots.waiting, conns, m.io.wire);
  }

  lemma SentAlone(d: Dev, c: Cmd, conns: set<int>, wire: seq<Frame>)
    ensures FramesFor(wire + Sending(d, c, conns), d.id) == FramesFor(wire, d.id) + Sending(d, c, conns)
  {
    hide FramesFor;
    if d.gcgid in conns { FramesForAppend(wire, Frame(d.id, c.id, c.ctrlarg), d.id); }
    else { assert wire + Sending(d, c, conns) == wire; }
  }

  /** a and b are new neighbours in the archive. */
  predicate ArchivedTogether(h: seq<Cmd>, h': seq<Cmd>, a: Cmd, b: Cmd)
  {
    exists k :: |h| <= k < |h'| - 1 && h'[k] == a && h'[k + 1] == b
  }

  /** The first tick that finds the stopped actuator reporting no remaining time archives
      both commands, one after the other, frees both slots and sends nothing. */
  lemma TickEndsStop(s: Sys, batch: seq<Selected>, auto: bool, conns: set<int>, i: nat)
    requires Inv(s) && IsSelection(s.io.rows, batch) && ReportsPlausible(s.devs)
    requires i < |s.devs| && s.devs[i].actuator
    requires s.devs[i].current.stat == StoppingByStop && ReportedTime(s.devs[i]) == 0
    ensures var d, t := s.devs[i], Tick(s, batch, auto, conns);
      && !t.devs[i].current.Live() && !t.devs[i].waiting.Live()
      && FramesFor(t.io.wire, d.id) == FramesFor(s.io.wire, d.id)
      && ArchivedTogether(s.io.history, t.io.history,
                          d.current.(stat := FinishedByStop), d.waiting.(stat := FinishedNormally))
  {
    hide LogOk, StopsPaired, WireOk, Conserved, ServeActuator, ReportIsPlausible, FramesFor, Tick, IsSelection, ReadRows,
      ReportedTime, WaitingOk, CurrentOk;
    var m := TickServes(s, batch, auto, conns, i);
    assert Shape(s.devs[i]);
    ReadKeepsStop(s, batch, auto, i);
    StopEnds(s.devs[i], m.devs, conns, m.io);
    var t := Tick(s, batch, auto, conns);
    var k := |m.io.history|;
    assert t.io.history[k] == s.devs[i].current.(stat := FinishedByStop);
    assert t.io.history[k + 1] == s.devs[i].waiting.(stat := FinishedNormally);
  }

  function Copies(f: Frame, n: nat): seq<Frame> { if n == 0 then [] else Copies(f, n - 1) + [f] }

  /** How many of the ticks had the gateway connected. */
  function ConnectedTicks(acts: seq<Action>, gcgid: int): nat
  {
    if acts == [] then 0
    else
      var a := acts[|acts| - 1];
      ConnectedTicks(acts[..|acts| - 1], gcgid) + One(a.Timer? && gcgid in a.conns)
  }

  /** Nothing but a restart changes what a device is. */
  predicate SameUnit(d: Dev, d': Dev)
  {
    d'.id == d.id && d'.gcgid == d.gcgid && d'.actuator == d.actuator
    && d'.usedAsensor == d.usedAsensor && d'.asensors == d.asensors
  }

  lemma ApplySameUnit(s: Sys, a: Action, i: nat)
    requires Inv(s) && Enabled(s, a) && i < |s.devs|
    ensures |Apply(s, a).devs| == |s.devs| && SameUnit(s.devs[i], Apply(s, a).devs[i])
  {
    hide Inv, IsSelection, ReportsPlausible, ReadCommands, ServeFirst, MoveRows;
    if a.Timer? {
      ReadCommandsKeeps(s, a.batch, a.auto);
      var r := ReadCommands(s, a.batch, a.auto);
      PlausibleAfterReading(s.devs, r.devs);
      ServeFirstKeeps(r, a.conns, |r.devs|);
    }
  }

  /** From run[m] to run[n] the device is being stopped and keeps reporting work. */
  ghost predicate StillWorking(acts: seq<Action>, run: seq<Sys>, i: nat, m: nat, n: nat)
    requires m <= n <= |acts| < |run|
  {
    forall k :: m <= k < n ==>
      !acts[k].Restart? && i < |run[k].devs| && (acts[k].Timer? ==> ReportedTime(run[k].devs[i]) > 0)
  }

  /** One action other than a restart, while the actuator is being stopped and works on. */
  lemma StopStep(s: Sys, a: Action, i: nat, cur: int, stop: int, ctrlarg: int)
    requires Inv(s) && Enabled(s, a) && !a.Restart? && i < |s.devs| && s.devs[i].actuator
    requires StoppingWith(s.devs[i], cur, stop, ctrlarg)
    requires a.Timer? ==> ReportedTime(s.devs[i]) > 0
    ensures var d, t := s.devs[i], Apply(s, a);
      && |t.devs| == |s.devs|
      && StoppingWith(t.devs[i], cur, stop, ctrlarg)
      && FramesFor(t.io.wire, d.id) == FramesFor(s.io.wire, d.id)
           + (if a.Timer? && d.gcgid in a.conns then [Frame(d.id, stop, ctrlarg)] else [])
  {
    hide Inv, IsSelection, ReportsPlausible, Tick, ReadRows, ReportedTime, ParseArgument, FramesFor, MoveRows;
    ApplySameUnit(s, a, i);
    if a.Timer? {
      ReadKeepsStop(s, a.batch, a.auto, i);
      TickBeginsStop(s, a.batch, a.auto, a.conns, i);
    }
  }

  /** Whatever rows arrive and whatever else happens short of a restart: as long as a
      stopped actuator reports remaining time, it is sent its stop command, once for each
      tick with the gateway connected, and nothing else, and both commands stay. */
  lemma {:induction false} StopPersists(devs: seq<Dev>, acts: seq<Action>, run: seq<Sys>, m: nat, n: nat,
                                        i: nat, cur: int, stop: int, ctrlarg: int)
    requires DistinctIds(devs) && IsRun(devs, acts, run) && m <= n <= |acts|
    requires i < |run[m].devs| && run[m].devs[i].actuator
    requires StoppingWith(run[m].devs[i], cur, stop, ctrlarg) && StillWorking(acts, run, i, m, n)
    ensures var d := run[m].devs[i];
      && |run[n].devs| == |run[m].devs| && SameUnit(d, run[n].devs[i])
      && StoppingWith(run[n].devs[i], cur, stop, ctrlarg)
      && FramesFor(run[n].io.wire, d.id) == FramesFor(run[m].io.wire, d.id)
           + Copies(Frame(d.id, stop, ctrlarg), ConnectedTicks(acts[m..n], d.gcgid))
    decreases n
  {
    hide Inv, Apply, Enabled, ReportedTime, FramesFor, StoppingWith, Start, DistinctIds;
    if m < n {
      StopPersists(devs, acts, run, m, n - 1, i, cur, stop, ctrlarg);
      RunInv(devs, acts, run, n - 1);
      ApplySameUnit(run[n - 1], acts[n - 1], i);
      StopStep(run[n - 1], acts[n - 1], i, cur, stop, ctrlarg);
      assert acts[m..n][..n - m - 1] == acts[m..n - 1];
    } else {
      assert acts[m..n] == [];
    }
  }

  /** A whole stop: the tick that leaves the stop command waiting once its rows are read sends
      it; every later tick sends it again while the actuator works; the first tick that
      finds it at rest archives both commands. */
  lemma StopRunsToEnd(devs: seq<Dev>, acts: seq<Action>, run: seq<Sys>, m: nat, n: nat, i: nat)
    requires DistinctIds(devs) && IsRun(devs, acts, run) && m < n < |acts|
    requires acts[m].Timer? && acts[n].Timer? && StillWorking(acts, run, i, m + 1, n)
    requires i < |run[m].devs| && run[m].devs[i].actuator
    requires StopIsWaiting(ReadCommands(run[m], acts[m].batch, acts[m].auto).devs[i])
    requires run[m].devs[i].current.stat == Sent
             || (run[m].devs[i].current.Live() && ReportedTime(run[m].devs[i]) > 0)
    requires i < |run[n].devs| && ReportedTime(run[n].devs[i]) == 0
    ensures var d, w := run[m].devs[i], ReadCommands(run[m], acts[m].batch, acts[m].auto).devs[i].waiting;
      var e, t := run[n].devs[i], run[n + 1];
      && StoppingWith(e, d.current.id, w.id, w.ctrlarg)
      && FramesFor(t.io.wire, d.id) == FramesFor(run[m].io.wire, d.id)
           + Sending(d, w, acts[m].conns)
           + Copies(Frame(d.id, w.id, w.ctrlarg), ConnectedTicks(acts[m + 1..n], d.gcgid))
      && |t.devs| == |run[m].devs| && !t.devs[i].current.Live() && !t.devs[i].waiting.Live()
      && ArchivedTogether(run[n].io.history, t.io.history,
                          e.current.(stat := FinishedByStop), e.waiting.(stat := FinishedNormally))
  {
    hide Inv, Tick, ReadCommands, ReportedTime, FramesFor, Start, DistinctIds, ArchivedTogether, Copies, ConnectedTicks,
      IsSelection, ReportsPlausible, MoveRows, StillWorking, ParseArgument;
    var d, w := run[m].devs[i], ReadCommands(run[m], acts[m].batch, acts[m].auto).devs[i].waiting;
    RunInv(devs, acts, run, m);
    TickBeginsStop(run[m], acts[m].batch, acts[m].auto, acts[m].conns, i);
    ApplySameUnit(run[m], acts[m], i);
    StopPersists(devs, acts, run, m + 1, n, i, d.current.id, w.id, w.ctrlarg);
    RunInv(devs, acts, run, n);
    TickEndsStop(run[n], acts[n].batch, acts[n].auto, acts[n].conns, i);
  }

  // ------------------------------------------------------------------ limiter safety

  lemma {:induction false} FindSame(devs: seq<Dev>, devs': seq<Dev>, id: int)
    requires |devs'| == |devs| && forall j :: 0 <= j < |devs| ==> SameDevice(devs[j], devs'[j])
    ensures FindDevice(devs', id) == FindDevice(devs, id)
  {
    if devs != [] { FindSame(devs[..|devs| - 1], devs'[..|devs| - 1], id); }
  }

  lemma LimiterOnSame(d: Dev, d': Dev, devs: seq<Dev>, devs': seq<Dev>)
    requires |devs'| == |devs| && forall j :: 0 <= j < |devs| ==> SameDevice(devs[j], devs'[j])
    requires SameDevice(d, d') && LimiterOn(d, devs)
    ensures LimiterOn(d', devs')
  {
    hide FindDevice;
    var j :| 0 <= j < |d.asensors| && Reaches(d, devs, j) && Touched(d.asensors[j], devs);
    FindSame(devs, devs', d.asensors[j].id);
    forall k | 0 <= k <= j ensures exists a :: 0 <= a < |devs'| && devs'[a].id == d'.asensors[k].id {
      var a :| 0 <= a < |devs| && devs[a].id == d.asensors[k].id;
      assert SameDevice(devs[a], devs'[a]);
    }
    assert Reaches(d', devs', j);
    assert Touched(d'.asensors[j], devs');
  }

  /** After every tick an actuator's command is working exactly if the actuator works on,
      with the slots that reading the commands left, and no touched limiter is within reach
      of its sensor loop. So a touched limiter stops the command unless an entry before it
      is unset or names a device that is not there. */
  lemma TickLimiterExact(s: Sys, batch: seq<Selected>, auto: bool, conns: set<int>, i: nat)
    requires Inv(s) && IsSelection(s.io.rows, batch) && ReportsPlausible(s.devs)
    requires i < |s.devs| && s.devs[i].actuator
    ensures Tick(s, batch, auto, conns).devs[i].current.stat == Working
            <==> WorksOn(ReadCommands(s, batch, auto).devs[i]) && !LimiterOn(s.devs[i], s.devs)
  {
    hide Inv, Good, ServeActuator, ReportIsPlausible, FramesFor, Tick, IsSelection, ReadCommands, LimiterOn, WorksOn;
    var m := TickServes(s, batch, auto, conns, i);
    var slots := ReadCommands(s, batch, auto).devs[i];
    if LimiterOn(s.devs[i], s.devs) { LimiterOnSame(s.devs[i], slots, s.devs, m.devs); }
    if LimiterOn(slots, m.devs) { LimiterOnSame(slots, s.devs[i], m.devs, s.devs); }
    LimiterExact(slots, m.devs, conns, m.io);
  }

  // ---------------------------------------------------------------- send accounting

  /** Without any assumption on connections: never more sends than the resend rule allows. */
  lemma SendsBounded(devs: seq<Dev>, acts: seq<Action>, run: seq<Sys>, n: nat)
    requires DistinctIds(devs) && IsRun(devs, acts, run) && n <= |acts|
    ensures forall i :: 0 <= i < |run[n].devs| ==>
      var c, w := run[n].devs[i].current, run[n].devs[i].waiting;
      && (c.Live() ==> c.workcnt <= 1 + c.resentignore / RESENT_IGNORE_COUNT)
      && (w.Live() && c.stat != StoppingByStop ==> w.workcnt == 0)
      && (c.stat == StoppingByStop ==> w.workcnt <= c.stopcnt)
  {
    hide WireOk, LogOk, HistCount, Apply, Start, Enabled, Mirror, Conserved, StopsPaired, ParseArgument;
    RunInv(devs, acts, run, n);
    forall i | 0 <= i < |run[n].devs| ensures Shape(run[n].devs[i]) {}
  }

  ghost predicate AlwaysConnected(acts: seq<Action>, gcgid: int, n: nat)
    requires n <= |acts|
  {
    forall k :: 0 <= k < n && acts[k].Timer? ==> gcgid in acts[k].conns
  }

  lemma ExactStep(s: Sys, a: Action, i: nat)
    requires Inv(s) && Enabled(s, a) && i < |s.devs| && s.devs[i].actuator
    requires SendsExact(s.devs[i]) && (a.Timer? ==> s.devs[i].gcgid in a.conns)
    ensures |Apply(s, a).devs| == |s.devs| && SendsExact(Apply(s, a).devs[i])
  {
    hide Inv, Good, ServeActuator, ReportIsPlausible, FramesFor, Tick, IsSelection, ReadCommands, MoveRows,
      ReportsPlausible;
    ApplySameUnit(s, a, i);
    if a.Timer? {
      var m := TickServes(s, a.batch, a.auto, a.conns, i);
      ServeSendsExact(ReadCommands(s, a.batch, a.auto).devs[i], m.devs, a.conns, m.io);
    }
  }

  /** With the gateway connected in every tick, a live command was sent exactly once plus
      once for every eighth unanswered tick. */
  lemma {:induction false} SendsExactOverRuns(devs: seq<Dev>, acts: seq<Action>, run: seq<Sys>, n: nat, i: nat)
    requires DistinctIds(devs) && IsRun(devs, acts, run) && n <= |acts|
    requires i < |devs| && devs[i].actuator && AlwaysConnected(acts, devs[i].gcgid, n)
    ensures |run[n].devs| == |devs| && SameUnit(devs[i], run[n].devs[i]) && SendsExact(run[n].devs[i])
  {
    hide Inv, Apply, Enabled, DistinctIds;
    if n > 0 {
      SendsExactOverRuns(devs, acts, run, n - 1, i);
      RunInv(devs, acts, run, n - 1);
      ApplySameUnit(run[n - 1], acts[n - 1], i);
      ExactStep(run[n - 1], acts[n - 1], i);
    }
  }
}
