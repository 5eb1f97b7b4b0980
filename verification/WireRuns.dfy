/** From the row of a command to the frames sent for it, over whole runs
    (software/gos/src/gos_device.c): a command keeps the device, the direction and the time of
    its row, its frames carry them, and its count of sends is the number of its frames. */
module WireRuns {
  import opened Words
  import opened Commands
  import opened CommandInvariants
  import opened CommandRuns
  import opened ServerRuns
  import opened LifeCycle
  import opened TickEffects
  import opened CommandTheorems
  import opened CommandFate

  // ------------------------------------------------------------- what a row asks for

  /** The direction and time a row asks for: its word if it has one, else its two columns. */
  predicate AsksFor(row: Row, arg: int, time: int)
  {
    if row.ctrlarg < 0 then arg == row.argument && time == row.worktime
    else arg == row.ctrlarg / 0x1000 % 16 && time == row.ctrlarg % 0x1000
  }

  /** A word that says what the row asks for, which it can if the two columns fit. */
  predicate WordFor(row: Row, word: int)
  {
    if row.ctrlarg < 0
    then 1 <= row.argument <= 2 && 0 <= row.worktime <= 4095 && word == row.argument * 0x1000 + row.worktime
    else word == row.ctrlarg
  }

  /** Loading keeps the row's device, control source and wishes; it is refused exactly if it
      asks for something other than opening (1) or closing (2) for 0 to 4095 seconds; it is a
      stop exactly if it asks for no time, and automatic exactly if its type starts with "a". */
  lemma RowReading(r: Selected)
    ensures var c, row := LoadCommand(r), r.row;
      && c.id == r.id && c.deviceid == row.deviceid && c.ctrltype == row.ctrltype && c.ctrlid == row.ctrlid
      && AsksFor(row, c.arg, c.tm)
      && (IsWrong(c) <==> !(1 <= c.arg <= 2 && 0 <= c.tm <= 4095))
      && (c.IsStop() <==> c.tm == 0)
      && (c.IsAuto() <==> row.ctrltype != "" && row.ctrltype[0] == 'a')
      && (!IsWrong(c) ==> WordFor(row, c.ctrlarg) && ParseArgument(c.ctrlarg) == (c.arg, c.tm))
  {
    hide PackArgument, ParseArgument;
    var c := LoadCommand(r);
    MasksOf(r.row.ctrlarg);
    if !IsWrong(c) && r.row.ctrlarg < 0 {
      PackOfFields(r.row.argument, r.row.worktime);
      PackThenParse(r.row.argument, r.row.worktime);
    }
  }

  lemma MasksOf(w: int)
    ensures ParseArgument(w) == (w / 0x1000 % 16, w % 0x1000)
  {
  }

  // ------------------------------------------------------------- frames of a command

  /** The frames sent for a command. */
  function FramesWith(wire: seq<Frame>, id: int): seq<Frame>
  {
    if wire == [] then []
    else
      var n := |wire| - 1;
      FramesWith(wire[..n], id) + (if wire[n].cmdid == id then [wire[n]] else [])
  }

  lemma {:induction false} FramesWithAppend(wire: seq<Frame>, more: seq<Frame>, id: int)
    ensures FramesWith(wire + more, id) == FramesWith(wire, id) + FramesWith(more, id)
  {
    if more == [] {
      assert wire + more == wire;
    } else {
      var n := |more| - 1;
      assert (wire + more)[..|wire| + n] == wire + more[..n];
      FramesWithAppend(wire, more[..n], id);
    }
  }

  lemma FramesWithOne(f: Frame, id: int)
    ensures FramesWith([], id) == [] && FramesWith([f], id) == if f.cmdid == id then [f] else []
  {
    assert [f][..0] == [];
  }

  type Origin = map<int, Row>

  /** The command came from a row for this device, and its word says what the row asks for. */
  ghost predicate FromRow(c: Cmd, d: Dev, origin: Origin)
  {
    c.id in origin && origin[c.id].deviceid == d.id && WordFor(origin[c.id], c.ctrlarg)
  }

  predicate CountedFrames(c: Cmd, d: Dev, wire: seq<Frame>)
  {
    FramesWith(wire, c.id) == Copies(Frame(d.id, c.id, c.ctrlarg), c.workcnt)
  }

  /** What is known of the commands in the slots of a device. */
  ghost predicate SlotWords(d: Dev, wire: seq<Frame>, origin: Origin)
  {
    && (d.waiting.Live() ==> FromRow(d.waiting, d, origin) && CountedFrames(d.waiting, d, wire))
    && (d.current.Live() ==> FromRow(d.current, d, origin))
    && (d.current.stat == Sent || d.current.stat == Working ==> CountedFrames(d.current, d, wire))
  }

  /** Every frame goes to the device its row names, with a word that says what the row asks for. */
  ghost predicate WireWords(wire: seq<Frame>, origin: Origin)
  {
    forall k :: 0 <= k < |wire| ==>
      wire[k].cmdid in origin && origin[wire[k].cmdid].deviceid == wire[k].deviceid && WordFor(origin[wire[k].cmdid], wire[k].ctrlarg)
  }

  /** The two commands of a device differ. */
  predicate Apart(d: Dev) { d.waiting.Live() && d.current.Live() ==> d.waiting.id != d.current.id }

  /** Frames sent to one device for the commands in its slots. */
  ghost predicate SentFrom(d: Dev, frames: seq<Frame>)
  {
    frames == []
    || (d.waiting.Live() && frames == [Frame(d.id, d.waiting.id, d.waiting.ctrlarg)])
    || (d.current.Live() && frames == [Frame(d.id, d.current.id, d.current.ctrlarg)])
  }

  /** The frames of other commands are left alone. */
  lemma OthersUnsent(d: Dev, wire: seq<Frame>, frames: seq<Frame>, id: int)
    requires SentFrom(d, frames) && id !in SlotIds(d)
    ensures FramesWith(wire + frames, id) == FramesWith(wire, id)
  {
    FramesWithAppend(wire, frames, id);
    if frames == [] { assert frames == []; } else { FramesWithOne(frames[0], id); assert frames == [frames[0]]; }
  }

  lemma SentWords(d: Dev, wire: seq<Frame>, frames: seq<Frame>, origin: Origin)
    requires SlotWords(d, wire, origin) && WireWords(wire, origin) && SentFrom(d, frames)
    ensures WireWords(wire + frames, origin)
  {
    hide WordFor, FramesWith;
  }

  /** One frame more for a command. */
  lemma OneMoreFrame(c: Cmd, d: Dev, wire: seq<Frame>, sent: bool)
    requires CountedFrames(c, d, wire)
    ensures var f := Frame(d.id, c.id, c.ctrlarg);
      FramesWith(wire + (if sent then [f] else []), c.id) == Copies(f, c.workcnt + One(sent))
  {
    var f := Frame(d.id, c.id, c.ctrlarg);
    if sent {
      FramesWithAppend(wire, [f], c.id);
      FramesWithOne(f, c.id);
    } else {
      assert wire + [] == wire;
    }
  }

  /** One actuator's share of a tick keeps all of it. */
  lemma ServeWords(d: Dev, devs: seq<Dev>, conns: set<int>, io: Io, origin: Origin)
    requires Good(d, io) && ReportIsPlausible(d) && Apart(d)
    requires SlotWords(d, io.wire, origin) && WireWords(io.wire, origin)
    ensures var (d', io') := ServeActuator(d, devs, conns, io);
      && io.wire <= io'.wire && SentFrom(d, io'.wire[|io.wire|..])
      && SlotWords(d', io'.wire, origin) && WireWords(io'.wire, origin)
  {
    hide ServeActuator, Good, SlotWords, WireWords, SentFrom, ReportIsPlausible;
    if d.current.Live() { ServeLiveWords(d, devs, conns, io, origin); } else { ServeIdleWords(d, devs, conns, io, origin); }
    var io' := ServeActuator(d, devs, conns, io).1;
    var frames := io'.wire[|io.wire|..];
    assert io'.wire == io.wire + frames;
    SentWords(d, io.wire, frames, origin);
  }

  lemma ServeIdleWords(d: Dev, devs: seq<Dev>, conns: set<int>, io: Io, origin: Origin)
    requires ReportIsPlausible(d) && !d.current.Live() && SlotWords(d, io.wire, origin)
    ensures var (d', io') := ServeActuator(d, devs, conns, io);
      io.wire <= io'.wire && SentFrom(d, io'.wire[|io.wire|..]) && SlotWords(d', io'.wire, origin)
  {
    hide ServeActuator, SlotWords, SentFrom, ReportIsPlausible, SentUp, MovedUp;
    ServeIdle(d, devs, conns, io);
    UpWords(d, conns, io, origin);
    assert (io.wire + SentUp(d, conns))[|io.wire|..] == SentUp(d, conns);
  }

  lemma ServeLiveWords(d: Dev, devs: seq<Dev>, conns: set<int>, io: Io, origin: Origin)
    requires Good(d, io) && ReportIsPlausible(d) && Apart(d) && d.current.Live() && SlotWords(d, io.wire, origin)
    ensures var (d', io') := ServeActuator(d, devs, conns, io);
      io.wire <= io'.wire && SentFrom(d, io'.wire[|io.wire|..]) && SlotWords(d', io'.wire, origin)
  {
    hide ServeActuator, Good, SlotWords, SentFrom, Served, FateOf, ReportIsPlausible, LimiterOn, ReportedTime, Apart;
    ServeFate(d, devs, conns, io);
    Statuses(d, io);
    var (d', io') := ServeActuator(d, devs, conns, io);
    var frames := io'.wire[|io.wire|..];
    var works, stop, limiter := ReportedTime(d) > 0, StopIsWaiting(d), LimiterOn(d, devs);
    FateStays(d.current.stat, works, stop, limiter);
    LiveWords(d, conns, io, FateOf(d.current.stat, works, stop, limiter), d', io'.history[|io.history|..], frames, origin);
    assert io'.wire == io.wire + frames;
  }

  lemma FateStays(stat: Status, works: bool, stop: bool, limiter: bool)
    requires stat in {Sent, Working, StoppingByAsensor, StoppingByStop}
    ensures var fate := FateOf(stat, works, stop, limiter);
      && (fate.Stays? ==> fate.status != NoCommand && (fate.status == StoppingByStop ==> stop || stat == StoppingByStop))
      && (fate.Stays? && fate.status in {Sent, Working} ==> stat in {Sent, Working})
  {
  }

  /** The waiting command moves up. */
  lemma UpWords(d: Dev, conns: set<int>, io: Io, origin: Origin)
    requires !d.current.Live() && SlotWords(d, io.wire, origin)
    ensures SentFrom(d, SentUp(d, conns)) && SlotWords(MovedUp(d, conns), io.wire + SentUp(d, conns), origin)
  {
    hide WordFor, FramesWith, Copies, ParseArgument;
    if d.waiting.stat == Waiting {
      OneMoreFrame(d.waiting, d, io.wire, d.gcgid in conns);
    } else {
      assert io.wire + [] == io.wire;
    }
  }

  /** The cases of a live command. */
  lemma LiveWords(d: Dev, conns: set<int>, io: Io, fate: Fate, d': Dev, archived: seq<Cmd>, frames: seq<Frame>, origin: Origin)
    requires Apart(d) && SlotWords(d, io.wire, origin) && d.current.Live()
    requires Served(d, conns, fate, d', archived, frames)
    requires fate.Stays? ==> fate.status != NoCommand && (fate.status == StoppingByStop ==> StopIsWaiting(d))
    requires fate.Stays? && fate.status in {Sent, Working} ==> d.current.stat in {Sent, Working}
    ensures SentFrom(d, frames) && SlotWords(d', io.wire + frames, origin)
  {
    hide WordFor, FramesWith, Copies, ParseArgument;
    match fate
    case Stays(st) => StayWords(d, conns, io, st, origin);
    case Ends(st) =>
      if st == FinishedByStop {
        assert io.wire + frames == io.wire;
      } else {
        UpWords(d.(current := d.current.(stat := NoCommand)), conns, io, origin);
      }
  }

  lemma StayWords(d: Dev, conns: set<int>, io: Io, st: Status, origin: Origin)
    requires Apart(d) && SlotWords(d, io.wire, origin) && d.current.Live() && st != NoCommand
    requires st == StoppingByStop ==> StopIsWaiting(d)
    requires st in {Sent, Working} ==> d.current.stat in {Sent, Working}
    ensures var d' := d.(current := CommandThen(d, st, conns), waiting := WaitingThen(d, st, conns));
      SentFrom(d, SentThen(d, st, conns)) && SlotWords(d', io.wire + SentThen(d, st, conns), origin)
  {
    hide WordFor, FramesWith, Copies;
    var frames := SentThen(d, st, conns);
    if frames == [] { assert io.wire + frames == io.wire; }
    if st == StoppingByStop {
      OneMoreFrame(d.waiting, d, io.wire, d.gcgid in conns);
    } else {
      if d.waiting.Live() { OnlyCurrent(d, io.wire, frames); }
      if st == Sent { OneMoreFrame(d.current, d, io.wire, ResendsNow(d.current) && d.gcgid in conns); }
    }
  }

  /** Frames of the current command do not count for the waiting one. */
  lemma OnlyCurrent(d: Dev, wire: seq<Frame>, frames: seq<Frame>)
    requires Apart(d) && d.waiting.Live() && d.current.Live()
    requires frames == [] || frames == [Frame(d.id, d.current.id, d.current.ctrlarg)]
    ensures FramesWith(wire + frames, d.waiting.id) == FramesWith(wire, d.waiting.id)
  {
    FramesWithAppend(wire, frames, d.waiting.id);
    FramesWithOne(Frame(d.id, d.current.id, d.current.ctrlarg), d.waiting.id);
  }

  // ----------------------------------------------------------------- the whole server

  /** Everything known of rows, slots and frames; `origin` holds the rows as inserted. */
  ghost predicate WordsOk(s: Sys, origin: Origin)
  {
    && origin.Keys == s.inserted
    && WireWords(s.io.wire, origin)
    && (forall i :: 0 <= i < |s.devs| ==> SlotWords(s.devs[i], s.io.wire, origin))
    && PendingWords(s.io, origin)
  }

  /** Pending rows are as inserted, and nothing was sent for them. */
  ghost predicate PendingWords(io: Io, origin: Origin)
  {
    forall id :: Pending(io, id) ==> id in origin && io.rows[id] == origin[id] && FramesWith(io.wire, id) == []
  }

  lemma ApartIn(s: Sys, i: int)
    requires Inv(s) && 0 <= i < |s.devs|
    ensures Apart(s.devs[i])
  {
    hide DevsOk, LogOk, StopsPaired, WireOk;
    var id := s.devs[i].waiting.id;
    HeldAtLeast(s.devs, i, id);
    assert TotalPlaces(s, id) == One(id in s.inserted);
  }

  /** Replacing device i after frames were sent for its own commands. */
  lemma SwapWords(s: Sys, i: int, d': Dev, io': Io, frames: seq<Frame>, origin: Origin)
    requires Inv(s) && WordsOk(s, origin) && 0 <= i < |s.devs|
    requires io'.wire == s.io.wire + frames && SentFrom(s.devs[i], frames)
    requires SlotWords(d', io'.wire, origin) && WireWords(io'.wire, origin)
    requires forall id :: Pending(io', id) ==> Pending(s.io, id) && io'.rows[id] == s.io.rows[id]
    ensures WordsOk(s.(devs := s.devs[i := d'], io := io'), origin)
  {
    hide LogOk, StopsPaired, WireOk, DevsOk, FramesWith, WireWords, WordFor, SentFrom, Copies;
    forall j | 0 <= j < |s.devs| && j != i ensures SlotWords(s.devs[j], io'.wire, origin) {
      var d := s.devs[j];
      if d.waiting.Live() { OtherSlot(s, i, j, d.waiting.id); OthersUnsent(s.devs[i], s.io.wire, frames, d.waiting.id); }
      if d.current.Live() { OtherSlot(s, i, j, d.current.id); OthersUnsent(s.devs[i], s.io.wire, frames, d.current.id); }
    }
    forall id | Pending(io', id) ensures FramesWith(io'.wire, id) == [] {
      PendingApart(s, i, id);
      OthersUnsent(s.devs[i], s.io.wire, frames, id);
    }
  }

  lemma OtherSlot(s: Sys, i: int, j: int, id: int)
    requires Inv(s) && 0 <= i < |s.devs| && 0 <= j < |s.devs| && i != j && id in SlotIds(s.devs[j])
    ensures id !in SlotIds(s.devs[i])
  {
    OthersApart(s, j, i, id);
  }

  /** Any number of rounds of serving. */
  lemma {:induction false} ServeFirstWords(s: Sys, conns: set<int>, n: nat, origin: Origin)
    requires Inv(s) && ReportsPlausible(s.devs) && n <= |s.devs| && WordsOk(s, origin)
    ensures WordsOk(ServeFirst(s, conns, n), origin)
  {
    hide Inv, WordsOk, ServeActuator;
    if n > 0 {
      ServeFirstWords(s, conns, n - 1, origin);
      ServeFirstKeeps(s, conns, n - 1);
      RoundWords(s, ServeFirst(s, conns, n - 1), conns, n, origin);
    }
  }

  lemma RoundWords(s: Sys, r: Sys, conns: set<int>, n: nat, origin: Origin)
    requires 0 < n <= |s.devs| == |r.devs| && ReportsPlausible(s.devs) && Inv(r) && WordsOk(r, origin)
    requires r == ServeFirst(s, conns, n - 1) && r.devs[n - 1] == s.devs[n - 1]
    ensures WordsOk(ServeFirst(s, conns, n), origin)
  {
    hide Inv, WordsOk, ServeActuator, ReportIsPlausible;
    if r.devs[n - 1].actuator {
      assert ReportIsPlausible(s.devs[n - 1]);
      ServedWords(r, conns, n - 1, origin);
    }
  }

  lemma ServedWords(r: Sys, conns: set<int>, i: nat, origin: Origin)
    requires i < |r.devs| && ReportIsPlausible(r.devs[i]) && Inv(r) && WordsOk(r, origin)
    ensures var (d, io) := ServeActuator(r.devs[i], r.devs, conns, r.io); WordsOk(r.(devs := r.devs[i := d], io := io), origin)
  {
    hide Inv, WordsOk, ServeActuator, Good, ReportIsPlausible, SlotWords, WireWords, SentFrom, Local, Apart, Pending;
    var d := r.devs[i];
    GoodDevice(r, i);
    ApartIn(r, i);
    SlotsOf(r, i, origin);
    ServeWords(d, r.devs, conns, r.io, origin);
    ServeActuatorKeeps(d, r.devs, conns, r.io);
    var (d', io') := ServeActuator(d, r.devs, conns, r.io);
    var frames := io'.wire[|r.io.wire|..];
    assert io'.wire == r.io.wire + frames;
    PendingFramed(r, i, d', io');
    SwapWords(r, i, d', io', frames, origin);
  }

  lemma SlotsOf(s: Sys, i: int, origin: Origin)
    requires WordsOk(s, origin) && 0 <= i < |s.devs|
    ensures SlotWords(s.devs[i], s.io.wire, origin) && WireWords(s.io.wire, origin)
  {
  }

  /** A device's share of a tick makes no row pending. */
  lemma PendingFramed(s: Sys, i: int, d': Dev, io': Io)
    requires Inv(s) && 0 <= i < |s.devs| && Local(s.devs[i], s.io, d', io') && Good(d', io')
    ensures forall id :: Pending(io', id) ==> Pending(s.io, id) && io'.rows[id] == s.io.rows[id]
  {
    hide StopsPaired, WireOk, DevsOk, HistCount, Shape, Conserves, LastStatus, PathOk, ArchiveOk, Records;
    forall id | Pending(io', id) ensures Pending(s.io, id) && io'.rows[id] == s.io.rows[id] {
      if id in SlotIds(s.devs[i]) {
        SlotRow(s, i, id);
        StatusStays(s.io.log, io'.log, id);
      }
    }
  }

  /** The row of a command in a slot has a status. */
  lemma SlotRow(s: Sys, i: int, id: int)
    requires Inv(s) && 0 <= i < |s.devs| && id in SlotIds(s.devs[i])
    ensures id in s.io.rows && s.io.rows[id].status != NoCommand
    ensures LastStatus(s.io.log, id) != NoCommand
  {
    hide StopsPaired, WireOk, Conserved, Shape, LastStatus, PathOk, ArchiveOk, Records;
    assert Mirror(s.devs[i], s.io);
  }

  /** A command with a status never goes back to none. */
  lemma {:induction false} StatusStays(log: seq<Update>, log': seq<Update>, id: int)
    requires PathOk(log') && log <= log' && LastStatus(log, id) != NoCommand
    ensures LastStatus(log', id) != NoCommand
    decreases |log'|
  {
    hide PathOk, LastStatus, Allowed;
    if |log| < |log'| {
      var n := |log'| - 1;
      PrefixPathOk(log', n);
      assert log <= log'[..n];
      LastStatusStep(log', id);
      LastIsAllowed(log');
      StatusStays(log, log'[..n], id);
    } else {
      assert log == log';
    }
  }

  lemma LastIsAllowed(log: seq<Update>)
    requires PathOk(log) && log != []
    ensures log[|log| - 1].status != NoCommand
  {
    hide LastStatus;
  }

  // ---------------------------------------------------------------------- reading rows

  /** A rejected row: nothing is sent, no slot changes, no row becomes pending. */
  lemma RejectWords(s: Sys, c: Cmd, st: Status, origin: Origin)
    requires WordsOk(s, origin) && c.id in s.io.rows && (st == WrongCommand || st == ByAutoControl)
    ensures WordsOk(s.(io := UpdateStatus(c, st, s.io).1), origin)
  {
    hide SlotWords, WireWords, FramesWith;
  }

  /** A command taken from a pending row. */
  lemma TakeWords(s: Sys, i: int, r: Selected, origin: Origin)
    requires Inv(s) && WordsOk(s, origin) && 0 <= i < |s.devs| && Pending(s.io, r.id) && s.io.rows[r.id] == r.row
    requires r.row.deviceid == s.devs[i].id && !StopIsWaiting(s.devs[i]) && !IsWrong(LoadCommand(r))
    ensures var (d, io) := UpdateWaiting(s.devs[i], LoadCommand(r), s.io); WordsOk(s.(devs := s.devs[i := d], io := io), origin)
  {
    hide Inv, Good, SlotWords, WireWords, LoadCommand, UpdateWaiting, IsWrong, Conserves, ParseArgument;
    var d, c := s.devs[i], LoadCommand(r);
    GoodDevice(s, i);
    LoadedCommand(r);
    UpdateWaitingKeeps(d, c, s.io);
    var (d', io') := UpdateWaiting(d, c, s.io);
    TakenPending(d, c, s.io);
    SlotsOf(s, i, origin);
    TakenSlots(d, c, s.io, r, origin);
    assert io'.wire == s.io.wire + [];
    SwapWords(s, i, d', io', [], origin);
  }

  lemma TakenPending(d: Dev, c: Cmd, io: Io)
    requires Good(d, io) && !StopIsWaiting(d) && Pending(io, c.id) && !c.Live()
    requires c.deviceid == d.id && !IsWrong(c) && ParseArgument(c.ctrlarg) == (c.arg, c.tm)
    requires c.workcnt == 0 && c.resentignore == 0
    ensures var io' := UpdateWaiting(d, c, io).1;
      forall id :: Pending(io', id) ==> Pending(io, id) && io'.rows[id] == io.rows[id]
  {
    hide UpdateWaiting, Good, Conserves, IsWrong, ParseArgument, Frames, SlotIds;
    UpdateWaitingKeeps(d, c, io);
    var (d', io') := UpdateWaiting(d, c, io);
    if d.current.Live() { CurrentRow(d', io'); }
    InSlots(d);
    UntouchedPending(io, io', SlotIds(d) + {c.id});
  }

  lemma InSlots(d: Dev)
    ensures forall id :: id in SlotIds(d) ==> (d.waiting.Live() && id == d.waiting.id) || (d.current.Live() && id == d.current.id)
  {
  }

  lemma UntouchedPending(io: Io, io': Io, touched: set<int>)
    requires Frames(io, io', touched)
    ensures forall id :: id !in touched && Pending(io', id) ==> Pending(io, id) && io'.rows[id] == io.rows[id]
  {
  }

  lemma CurrentRow(d: Dev, io: Io)
    requires Good(d, io) && d.current.Live()
    ensures d.current.id in io.rows && !Pending(io, d.current.id)
  {
    hide LogOk, StopsPaired, WireOk, Shape;
  }

  lemma TakenSlots(d: Dev, c: Cmd, io: Io, r: Selected, origin: Origin)
    requires SlotWords(d, io.wire, origin) && c == LoadCommand(r) && !IsWrong(c) && r.row.deviceid == d.id
    requires r.id in origin && origin[r.id] == r.row && FramesWith(io.wire, r.id) == []
    ensures SlotWords(d.(waiting := c.(stat := Waiting)), io.wire, origin)
  {
    hide LoadCommand, IsWrong, FramesWith, ParseArgument, WordFor, AsksFor;
    RowReading(r);
    LoadedCommand(r);
  }

  lemma ReadRowWords(st: Scan, r: Selected, auto: bool, origin: Origin)
    requires Inv(st.sys) && WordsOk(st.sys, origin) && Pending(st.sys.io, r.id) && st.sys.io.rows[r.id] == r.row
    ensures WordsOk(ReadRow(st, r, auto).sys, origin)
  {
    hide Inv, WordsOk, LoadCommand, FindDevice, UpdateWaiting, IsWrong, UpdateStatus, ParseArgument;
    var s, c := st.sys, LoadCommand(r);
    LoadedCommand(r);
    if IsWrong(c) { RejectWords(s, c, WrongCommand, origin); }
    else if c.deviceid != st.pass && auto && !c.IsAuto() { RejectWords(s, c, ByAutoControl, origin); }
    else {
      var i := FindDevice(s.devs, c.deviceid);
      if i >= 0 && !StopIsWaiting(s.devs[i]) { TakeWords(s, i, r, origin); }
    }
  }

  lemma {:induction false} ReadRowsWords(s: Sys, batch: seq<Selected>, n: nat, auto: bool, origin: Origin)
    requires Inv(s) && IsSelection(s.io.rows, batch) && n <= |batch| && WordsOk(s, origin)
    ensures WordsOk(ReadRows(s, batch[..n], auto).sys, origin)
  {
    hide WordsOk, ReadRow, Inv, IsSelection;
    if n == 0 {
      assert batch[..0] == [];
    } else {
      var m := n - 1;
      ReadRowsWords(s, batch, m, auto, origin);
      ReadRowsKeeps(s, batch, m, auto);
      SelectedPending(s.io.rows, batch, m);
      assert batch[..n][..m] == batch[..m];
      ReadRowWords(ReadRows(s, batch[..m], auto), batch[m], auto, origin);
    }
  }

  lemma SelectedPending(rows: map<int, Row>, batch: seq<Selected>, k: nat)
    requires IsSelection(rows, batch) && k < |batch|
    ensures batch[k].row.status == NoCommand
  {
  }

  // ---------------------------------------------------------------------------- runs

  /** The rows as they were inserted. */
  function Inserts(acts: seq<Action>): Origin
  {
    if acts == [] then map[]
    else
      var init, a := Inserts(acts[..|acts| - 1]), acts[|acts| - 1];
      if a.Insert? then init[a.id := a.row] else init
  }

  lemma TickWords(s: Sys, a: Action, origin: Origin)
    requires Inv(s) && Enabled(s, a) && a.Timer? && WordsOk(s, origin)
    ensures WordsOk(Apply(s, a), origin)
  {
    hide WordsOk, ReadRows, ServeFirst, Inv, IsSelection, ReportsPlausible;
    ReadRowsWords(s, a.batch, |a.batch|, a.auto, origin);
    assert a.batch[..|a.batch|] == a.batch;
    ReadCommandsKeeps(s, a.batch, a.auto);
    var r := ReadCommands(s, a.batch, a.auto);
    PlausibleAfterReading(s.devs, r.devs);
    ServeFirstWords(r, a.conns, |r.devs|, origin);
  }

  lemma InsertWords(s: Sys, id: int, row: Row, origin: Origin)
    requires Inv(s) && Enabled(s, Insert(id, row)) && WordsOk(s, origin)
    ensures WordsOk(Apply(s, Insert(id, row)), origin[id := row])
  {
    hide Inv, FramesWith, WordFor, Copies, SlotWords, WireWords, PendingWords;
    forall i | 0 <= i < |s.devs| ensures SlotWords(s.devs[i], s.io.wire, origin[id := row]) {
      KnownSlots(s.devs[i], s.io.wire, origin, id, row);
    }
    KnownWire(s.io.wire, origin, id, row);
    KnownPending(s.io, origin, id, row);
  }

  lemma KnownPending(io: Io, origin: Origin, id: int, row: Row)
    requires PendingWords(io, origin) && WireWords(io.wire, origin) && id !in origin
    ensures PendingWords(io.(rows := io.rows[id := row]), origin[id := row])
  {
    hide FramesWith, WordFor;
    UnsentBefore(io.wire, id, origin);
  }

  lemma KnownSlots(d: Dev, wire: seq<Frame>, origin: Origin, id: int, row: Row)
    requires SlotWords(d, wire, origin) && id !in origin
    ensures SlotWords(d, wire, origin[id := row])
  {
    hide FramesWith, WordFor, Copies;
  }

  lemma KnownWire(wire: seq<Frame>, origin: Origin, id: int, row: Row)
    requires WireWords(wire, origin) && id !in origin
    ensures WireWords(wire, origin[id := row])
  {
    hide WordFor;
  }

  /** Nothing was ever sent for an id that was never inserted. */
  lemma {:induction false} UnsentBefore(wire: seq<Frame>, id: int, origin: Origin)
    requires WireWords(wire, origin) && id !in origin
    ensures FramesWith(wire, id) == []
  {
    hide WordFor;
    if wire != [] { UnsentBefore(wire[..|wire| - 1], id, origin); }
  }

  lemma StepWords(s: Sys, a: Action, origin: Origin)
    requires Inv(s) && Enabled(s, a) && WordsOk(s, origin)
    ensures WordsOk(Apply(s, a), if a.Insert? then origin[a.id := a.row] else origin)
  {
    match a
    case Insert(id, row) => InsertWords(s, id, row, origin);
    case Report(_, _) => ReportWords(s, a, origin);
    case Timer(_, _, _) => TickWords(s, a, origin);
    case Restart(_) => RestartWords(s, a, origin);
  }

  lemma ReportWords(s: Sys, a: Action, origin: Origin)
    requires Enabled(s, a) && a.Report? && WordsOk(s, origin)
    ensures WordsOk(Apply(s, a), origin)
  {
    hide FramesWith, WordFor, Copies, WireWords, PendingWords;
  }

  lemma RestartWords(s: Sys, a: Action, origin: Origin)
    requires Enabled(s, a) && a.Restart? && WordsOk(s, origin)
    ensures WordsOk(Apply(s, a), origin)
  {
    hide FramesWith, WordFor, Copies, WireWords;
  }

  lemma {:induction false} RunWords(devs: seq<Dev>, acts: seq<Action>, run: seq<Sys>, n: nat)
    requires DistinctIds(devs) && IsRun(devs, acts, run) && n <= |acts|
    ensures WordsOk(run[n], Inserts(acts[..n]))
  {
    if n == 0 {
      assert acts[..0] == [];
    } else {
      hide WordsOk, Inv, Apply, Enabled, DistinctIds;
      RunWords(devs, acts, run, n - 1);
      RunInv(devs, acts, run, n - 1);
      assert acts[..n][..n - 1] == acts[..n - 1];
      StepWords(run[n - 1], acts[n - 1], Inserts(acts[..n - 1]));
    }
  }

  lemma EnabledAt(devs: seq<Dev>, acts: seq<Action>, run: seq<Sys>, n: nat)
    requires IsRun(devs, acts, run) && n < |acts|
    ensures |run| > n && Enabled(run[n], acts[n])
  {
    hide Enabled, Apply, Start;
  }

  lemma InsertedIds(s: Sys, a: Action, origin: Origin)
    requires WordsOk(s, origin) && Enabled(s, a)
    ensures a.Insert? ==> a.id !in origin
  {
    hide WireWords, SlotWords, PendingWords;
  }

  lemma InsertsStep(acts: seq<Action>, n: nat)
    requires 0 < n <= |acts|
    ensures var a, init := acts[n - 1], Inserts(acts[..n - 1]);
      Inserts(acts[..n]) == if a.Insert? then init[a.id := a.row] else init
  {
    assert acts[..n][..n - 1] == acts[..n - 1];
  }

  /** The row an id was inserted with stays its origin: ids are fresh. */
  lemma {:induction false} InsertedOnce(devs: seq<Dev>, acts: seq<Action>, run: seq<Sys>, k: nat, n: nat)
    requires DistinctIds(devs) && IsRun(devs, acts, run) && k < n <= |acts| && acts[k].Insert?
    ensures acts[k].id in Inserts(acts[..n]) && Inserts(acts[..n])[acts[k].id] == acts[k].row
    decreases n
  {
    hide WordsOk, Enabled, IsRun, DistinctIds, Inserts;
    InsertsStep(acts, n);
    if k < n - 1 {
      EnabledAt(devs, acts, run, n - 1);
      InsertedOnce(devs, acts, run, k, n - 1);
      RunWords(devs, acts, run, n - 1);
      InsertedIds(run[n - 1], acts[n - 1], Inserts(acts[..n - 1]));
    }
  }

  /** From the row to the wire: every frame ever sent for a command goes to the device its row
      names, and decodes to the direction and time its row asks for: the two columns of a row
      without a word, the row's own word otherwise. */
  lemma RowReachesWire(devs: seq<Dev>, acts: seq<Action>, run: seq<Sys>, k: nat, n: nat, j: nat)
    requires DistinctIds(devs) && IsRun(devs, acts, run) && k < n <= |acts| && acts[k].Insert?
    requires j < |run[n].io.wire| && run[n].io.wire[j].cmdid == acts[k].id
    ensures var row, f := acts[k].row, run[n].io.wire[j];
      && f.deviceid == row.deviceid
      && AsksFor(row, ParseArgument(f.ctrlarg).0, ParseArgument(f.ctrlarg).1)
      && (row.ctrlarg >= 0 ==> f.ctrlarg == row.ctrlarg)
  {
    hide WordsOk, Inv, DistinctIds, ParseArgument, AsksFor;
    RunWords(devs, acts, run, n);
    InsertedOnce(devs, acts, run, k, n);
    RunInv(devs, acts, run, n);
    var f := run[n].io.wire[j];
    FrameAsks(run[n], j, Inserts(acts[..n]));
  }

  lemma FrameAsks(s: Sys, j: nat, origin: Origin)
    requires WordsOk(s, origin) && j < |s.io.wire|
    ensures var f := s.io.wire[j];
      && f.cmdid in origin && origin[f.cmdid].deviceid == f.deviceid && WordFor(origin[f.cmdid], f.ctrlarg)
      && AsksFor(origin[f.cmdid], ParseArgument(f.ctrlarg).0, ParseArgument(f.ctrlarg).1)
  {
    hide ParseArgument, FramesWith, WordFor, AsksFor, PendingWords, SlotWords;
    var f := s.io.wire[j];
    assert f.cmdid in origin && WordFor(origin[f.cmdid], f.ctrlarg);
    WordAsks(origin[f.cmdid], f.ctrlarg);
  }

  lemma WordAsks(row: Row, word: int)
    requires WordFor(row, word)
    ensures AsksFor(row, ParseArgument(word).0, ParseArgument(word).1)
  {
    MasksOf(word);
    if row.ctrlarg < 0 {
      assert word % 0x1000 == row.worktime && word / 0x1000 == row.argument;
    }
  }

  /** A command in a slot keeps what its row asks for; only a stop that waits while it is under
      way has given up its direction, not its word. */
  lemma RowReachesSlot(devs: seq<Dev>, acts: seq<Action>, run: seq<Sys>, k: nat, n: nat, i: nat)
    requires DistinctIds(devs) && IsRun(devs, acts, run) && k < n <= |acts| && acts[k].Insert? && i < |run[n].devs|
    ensures var row, d := acts[k].row, run[n].devs[i];
      && (d.current.Live() && d.current.id == acts[k].id ==>
            row.deviceid == d.id && AsksFor(row, d.current.arg, d.current.tm))
      && (d.waiting.Live() && d.waiting.id == acts[k].id ==>
            && row.deviceid == d.id && AsksFor(row, ParseArgument(d.waiting.ctrlarg).0, d.waiting.tm)
            && (d.current.stat != StoppingByStop ==> AsksFor(row, d.waiting.arg, d.waiting.tm)))
  {
    hide WordsOk, Inv, DistinctIds, AsksFor, ParseArgument;
    RunWords(devs, acts, run, n);
    InsertedOnce(devs, acts, run, k, n);
    RunInv(devs, acts, run, n);
    var origin := Inserts(acts[..n]);
    if run[n].devs[i].current.Live() { CurrentAsks(run[n], i, origin); }
    if run[n].devs[i].waiting.Live() { WaitingAsks(run[n], i, origin); }
  }

  lemma CurrentAsks(s: Sys, i: nat, origin: Origin)
    requires WordsOk(s, origin) && Inv(s) && i < |s.devs| && s.devs[i].current.Live()
    ensures var d := s.devs[i];
      && d.current.id in origin && origin[d.current.id].deviceid == d.id
      && AsksFor(origin[d.current.id], d.current.arg, d.current.tm)
  {
    hide WordsOk, ParseArgument, WordFor, AsksFor, FramesWith, Copies, LogOk, StopsPaired, WireOk, Conserved, Mirror;
    var d := s.devs[i];
    SlotsOf(s, i, origin);
    assert CurrentOk(d);
    WordAsks(origin[d.current.id], d.current.ctrlarg);
  }

  lemma WaitingAsks(s: Sys, i: nat, origin: Origin)
    requires WordsOk(s, origin) && Inv(s) && i < |s.devs| && s.devs[i].waiting.Live()
    ensures var d := s.devs[i];
      && d.waiting.id in origin && origin[d.waiting.id].deviceid == d.id
      && AsksFor(origin[d.waiting.id], ParseArgument(d.waiting.ctrlarg).0, d.waiting.tm)
      && (d.current.stat != StoppingByStop ==> AsksFor(origin[d.waiting.id], d.waiting.arg, d.waiting.tm))
  {
    hide WordsOk, ParseArgument, WordFor, AsksFor, FramesWith, Copies, LogOk, StopsPaired, WireOk, Conserved, Mirror;
    var d := s.devs[i];
    SlotsOf(s, i, origin);
    assert WaitingOk(d);
    WordAsks(origin[d.waiting.id], d.waiting.ctrlarg);
  }

  /** Send accounting on the wire: in every reachable state the frames ever sent for a command
      that is sent or working, and for a command that waits, are as many as its count says, all
      to its device and all with its word. */
  lemma FramesCounted(devs: seq<Dev>, acts: seq<Action>, run: seq<Sys>, n: nat, i: nat)
    requires DistinctIds(devs) && IsRun(devs, acts, run) && n <= |acts| && i < |run[n].devs|
    ensures var d, wire := run[n].devs[i], run[n].io.wire;
      && (d.current.stat == Sent || d.current.stat == Working ==>
            FramesWith(wire, d.current.id) == Copies(Frame(d.id, d.current.id, d.current.ctrlarg), d.current.workcnt))
      && (d.waiting.Live() ==>
            FramesWith(wire, d.waiting.id) == Copies(Frame(d.id, d.waiting.id, d.waiting.ctrlarg), d.waiting.workcnt))
  {
    hide WordsOk, DistinctIds, FramesWith, Copies;
    RunWords(devs, acts, run, n);
    SlotsOf(run[n], i, Inserts(acts[..n]));
  }
}
