/** What every operation on an actuator's two command slots keeps: where each command
    is, that the table mirrors the slots, and the order of a command's statuses. */
module CommandInvariants {
  import opened Words
  import opened Commands

  // ------------------------------------------------------ where a command can be

  function One(b: bool): nat { if b then 1 else 0 }

  /** How often a command was archived. */
  function HistCount(h: seq<Cmd>, id: int): nat
  {
    if h == [] then 0
    else HistCount(h[..|h| - 1], id) + One(h[|h| - 1].id == id)
  }

  predicate Pending(io: Io, id: int) { id in io.rows && io.rows[id].status == NoCommand }

  /** How many live slots of the device hold the command. */
  function Held(d: Dev, id: int): nat
  {
    One(d.waiting.Live() && d.waiting.id == id) + One(d.current.Live() && d.current.id == id)
  }

  /** The places of a command, counting only the slots of one device. */
  function Places(d: Dev, io: Io, id: int): nat
  {
    One(Pending(io, id)) + Held(d, id) + HistCount(io.history, id)
  }

  /** A command is recorded by its row or by its history entries. */
  function Records(io: Io, id: int): nat { One(id in io.rows) + HistCount(io.history, id) }

  // ------------------------------------------------------------ life cycle order

  /** The status changes gos_device.c makes. */
  predicate Allowed(a: Status, b: Status)
  {
    match a
    case NoCommand => b == Waiting || b == WrongCommand || b == ByAutoControl
    case Waiting => b == Sent || b == ByNewCommand || b == FinishedNormally
    case Sent => b == Working || b == StoppingByStop
    case Working => b == StoppingByAsensor || b == StoppingByStop || b == FinishedNormally
    case StoppingByAsensor => b == StoppingByStop || b == FinishedByAsensor
    case StoppingByStop => b == StoppingByStop || b == FinishedByStop
    case _ => false
  }

  /** The last status written for a command. */
  function LastStatus(log: seq<Update>, id: int): Status
  {
    if log == [] then NoCommand
    else if log[|log| - 1].id == id then log[|log| - 1].status
    else LastStatus(log[..|log| - 1], id)
  }

  predicate PathOk(log: seq<Update>)
  {
    forall k :: 0 <= k < |log| ==> Allowed(LastStatus(log[..k], log[k].id), log[k].status)
  }

  /** Commands with a row are not archived, and an archive entry shows the last status logged. */
  ghost predicate ArchiveOk(io: Io)
  {
    && (forall id :: id in io.rows ==> HistCount(io.history, id) == 0)
    && (forall k :: 0 <= k < |io.history| ==> io.history[k].stat == LastStatus(io.log, io.history[k].id))
  }

  /** The log is a run of the life cycle for every command, and the table and the archive
      show its end. */
  ghost predicate LogOk(io: Io)
  {
    && PathOk(io.log)
    && ArchiveOk(io)
    && (forall id :: id in io.rows ==> io.rows[id].status == LastStatus(io.log, id))
    && (forall id :: LastStatus(io.log, id) != NoCommand ==> Records(io, id) > 0)
  }

  /** An archive entry "finished by a stop command" is followed at once by the stop
      command of the same device, archived as finished normally. */
  predicate StopsPaired(h: seq<Cmd>)
  {
    forall k :: 0 <= k < |h| && h[k].stat == FinishedByStop ==>
      && k + 1 < |h|
      && h[k + 1].stat == FinishedNormally && h[k + 1].IsStop()
      && h[k + 1].deviceid == h[k].deviceid
  }

  /** Every frame names, as the node will decode it, one of the two motor directions. */
  predicate WireOk(wire: seq<Frame>)
  {
    forall k :: 0 <= k < |wire| ==>
      !WrongArguments(ParseArgument(wire[k].ctrlarg).0, ParseArgument(wire[k].ctrlarg).1)
  }

  // ------------------------------------------------------------- slot invariants

  predicate WaitingOk(d: Dev)
  {
    var w := d.waiting;
    && (w.stat == NoCommand || w.stat == Waiting)
    && (w.Live() ==>
          && w.deviceid == d.id
          && !IsWrong(w)
          && w.resentignore == 0
          && ParseArgument(w.ctrlarg).1 == w.tm
          && !WrongArguments(ParseArgument(w.ctrlarg).0, w.tm)
          && (d.current.stat != StoppingByStop ==>
                w.workcnt == 0 && ParseArgument(w.ctrlarg) == (w.arg, w.tm)))
  }

  predicate CurrentOk(d: Dev)
  {
    var c := d.current;
    && (c.stat == NoCommand || c.stat == Sent || c.stat == Working
        || c.stat == StoppingByAsensor || c.stat == StoppingByStop)
    && (c.Live() ==>
          && c.deviceid == d.id
          && !IsWrong(c)
          && ParseArgument(c.ctrlarg) == (c.arg, c.tm)
          && c.workcnt <= 1 + c.resentignore / RESENT_IGNORE_COUNT)
  }

  /** A command that is being stopped has its stop command pinned in the waiting slot. */
  predicate Pinned(d: Dev)
  {
    d.current.stat == StoppingByStop ==> StopIsWaiting(d) && d.waiting.workcnt <= d.current.stopcnt
  }

  predicate Shape(d: Dev) { WaitingOk(d) && CurrentOk(d) && Pinned(d) }

  /** The row of a live slot exists and shows the slot's status. */
  predicate RowShows(c: Cmd, io: Io)
  {
    c.Live() ==> c.id in io.rows && io.rows[c.id].status == c.stat
  }

  predicate Mirror(d: Dev, io: Io) { RowShows(d.waiting, io) && RowShows(d.current, io) }

  /** Everything a device operation may rely on and has to leave behind. */
  ghost predicate Good(d: Dev, io: Io)
  {
    Shape(d) && Mirror(d, io) && LogOk(io) && StopsPaired(io.history) && WireOk(io.wire)
  }

  /** No command is lost, invented or duplicated. */
  ghost predicate Conserves(d: Dev, io: Io, d': Dev, io': Io)
  {
    && (forall id :: Places(d', io', id) == Places(d, io, id))
    && (forall id :: Records(io', id) == Records(io, id))
  }

  /** Rows outside `touched` are left alone. */
  ghost predicate Frames(io: Io, io': Io, touched: set<int>)
  {
    forall id :: id !in touched ==>
      (id in io'.rows <==> id in io.rows) && (id in io.rows ==> io'.rows[id] == io.rows[id])
  }

  function SlotIds(d: Dev): set<int>
  {
    (if d.waiting.Live() then {d.waiting.id} else {}) + (if d.current.Live() then {d.current.id} else {})
  }

  predicate SameDevice(d: Dev, d': Dev) { d' == d.(waiting := d'.waiting, current := d'.current) }

  /** A step of one device: conserving, touching only its own rows, never taking back
      history, log or frames, and taking no new command into a slot. */
  ghost predicate Local(d: Dev, io: Io, d': Dev, io': Io)
  {
    && SameDevice(d, d')
    && Conserves(d, io, d', io')
    && Frames(io, io', SlotIds(d))
    && SlotIds(d') <= SlotIds(d)
    && io.history <= io'.history && io.log <= io'.log && io.wire <= io'.wire
  }

  lemma LocalCompose(d: Dev, io: Io, d1: Dev, io1: Io, d2: Dev, io2: Io)
    requires Local(d, io, d1, io1) && Local(d1, io1, d2, io2)
    ensures Local(d, io, d2, io2)
  {
  }

  // ---------------------------------------------------------- the one primitive

  lemma LogGrows(io: Io, u: Update)
    requires PathOk(io.log) && Allowed(LastStatus(io.log, u.id), u.status)
    ensures PathOk(io.log + [u])
    ensures forall id :: LastStatus(io.log + [u], id) == if id == u.id then u.status else LastStatus(io.log, id)
  {
    var l := io.log + [u];
    assert l[..|io.log|] == io.log;
    forall k | 0 <= k < |l| ensures Allowed(LastStatus(l[..k], l[k].id), l[k].status) {
      if k < |io.log| { assert l[..k] == io.log[..k]; }
    }
  }

  lemma HistGrows(h: seq<Cmd>, c: Cmd)
    ensures forall id :: HistCount(h + [c], id) == HistCount(h, id) + One(c.id == id)
  {
    assert (h + [c])[..|h|] == h;
  }

  lemma {:induction false} HistMember(h: seq<Cmd>, k: int)
    requires 0 <= k < |h|
    ensures HistCount(h, h[k].id) > 0
  {
    if k < |h| - 1 { HistMember(h[..|h| - 1], k); }
  }

  lemma UpdateArchive(c: Cmd, st: Status, io: Io)
    requires c.id in io.rows && ArchiveOk(io) && PathOk(io.log)
    requires Allowed(LastStatus(io.log, c.id), st)
    ensures ArchiveOk(UpdateStatus(c, st, io).1)
  {
    var e := c.(stat := st);
    var io' := UpdateStatus(c, st, io).1;
    LogGrows(io, Update(c.id, st));
    HistGrows(io.history, e);
    hide PathOk, Allowed, LastStatus;
    assert io'.log == io.log + [Update(c.id, st)];
    forall k | 0 <= k < |io.history| ensures io.history[k].id != c.id {
      HistMember(io.history, k);
    }
  }

  lemma UpdateRecords(c: Cmd, st: Status, io: Io)
    requires c.id in io.rows
    ensures forall id :: Records(UpdateStatus(c, st, io).1, id) == Records(io, id)
  {
    var io' := UpdateStatus(c, st, io).1;
    HistGrows(io.history, c.(stat := st));
    hide HistCount;
  }

  lemma UpdateLog(c: Cmd, st: Status, io: Io)
    requires c.id in io.rows && io.rows[c.id].status == c.stat && Allowed(c.stat, st) && LogOk(io)
    ensures LogOk(UpdateStatus(c, st, io).1)
  {
    hide ArchiveOk, PathOk, LastStatus, Allowed, Records;
    var io' := UpdateStatus(c, st, io).1;
    UpdateArchive(c, st, io);
    UpdateRecords(c, st, io);
    LogGrows(io, Update(c.id, st));
    RecordedHere(io, c.id);
  }

  lemma RecordedHere(io: Io, id: int)
    requires id in io.rows
    ensures Records(io, id) > 0
  {
  }

  /** What one status update of a command does to the records, for a command whose row
      shows its present status. The command is either taken from the batch (NoCommand)
      or held by a slot. */
  lemma UpdateEffect(c: Cmd, st: Status, io: Io)
    requires c.id in io.rows && io.rows[c.id].status == c.stat
    requires st != NoCommand && Allowed(c.stat, st) && LogOk(io)
    ensures var (c', io') := UpdateStatus(c, st, io);
      && c' == c.(stat := if st.Terminal() then NoCommand else st)
      && (forall id :: One(Pending(io', id)) + HistCount(io'.history, id) + One(c'.Live() && c.id == id)
                    == One(Pending(io, id)) + HistCount(io.history, id) + One(c.Live() && c.id == id))
      && (forall id :: Records(io', id) == Records(io, id))
      && Frames(io, io', {c.id})
      && RowShows(c', io')
      && io'.history == io.history + (if st.Terminal() then [c.(stat := st)] else [])
      && io'.log == io.log + [Update(c.id, st)]
      && io'.wire == io.wire
      && (!st.Terminal() ==> io'.rows[c.id] == io.rows[c.id].(sentcnt := c.workcnt, stopcnt := c.stopcnt, status := st))
      && LogOk(io')
  {
    UpdateLog(c, st, io);
    UpdateRecords(c, st, io);
    UpdateShape(c, st, io);
    UpdatePlaces(c, st, io);
    hide LogOk, Records, HistCount, Allowed, UpdateStatus, Pending, Frames, RowShows;
  }

  lemma UpdateShape(c: Cmd, st: Status, io: Io)
    requires c.id in io.rows
    ensures var (c', io') := UpdateStatus(c, st, io);
      && c' == c.(stat := if st.Terminal() then NoCommand else st)
      && Frames(io, io', {c.id})
      && RowShows(c', io')
      && io'.history == io.history + (if st.Terminal() then [c.(stat := st)] else [])
      && io'.log == io.log + [Update(c.id, st)]
      && io'.wire == io.wire
      && (!st.Terminal() ==> io'.rows[c.id] == io.rows[c.id].(sentcnt := c.workcnt, stopcnt := c.stopcnt, status := st))
  {
    if !st.Terminal() { assert io.history + [] == io.history; }
  }

  lemma UpdatePlaces(c: Cmd, st: Status, io: Io)
    requires c.id in io.rows && io.rows[c.id].status == c.stat && st != NoCommand
    ensures var (c', io') := UpdateStatus(c, st, io);
      forall id :: One(Pending(io', id)) + HistCount(io'.history, id) + One(c'.Live() && c.id == id)
                == One(Pending(io, id)) + HistCount(io.history, id) + One(c.Live() && c.id == id)
  {
    HistGrows(io.history, c.(stat := st));
    hide HistCount;
  }

  /** The current slot after gos_update_command_status. */
  function Marked(c: Cmd, st: Status): Cmd { c.(stat := if st.Terminal() then NoCommand else st) }

  lemma SetCurrentShape(d: Dev, st: Status)
    requires Shape(d) && d.current.Live()
    requires Allowed(d.current.stat, st) && st != FinishedByStop
    requires st == StoppingByStop ==> StopIsWaiting(d)
    ensures Shape(d.(current := Marked(d.current, st)))
  {
  }

  /** Replacing the current slot's status, seen from the whole device. */
  lemma SetCurrentRecords(d: Dev, st: Status, io: Io)
    requires Mirror(d, io) && LogOk(io) && d.current.Live() && st != NoCommand
    requires Allowed(d.current.stat, st)
    ensures var (d', io') := SetCurrent(d, st, io);
      && d' == d.(current := Marked(d.current, st))
      && Conserves(d, io, d', io')
      && LogOk(io') && RowShows(d'.current, io') && Frames(io, io', {d.current.id})
      && io'.history == io.history + (if st.Terminal() then [d.current.(stat := st)] else [])
      && io.log <= io'.log && io.wire == io'.wire
  {
    hide LogOk;
    var (d', io') := SetCurrent(d, st, io);
    UpdateEffect(d.current, st, io);
    forall id ensures Places(d', io', id) == Places(d, io, id) {
    }
  }

  /** gos_update_command_status on the current slot. */
  lemma SetCurrentKeeps(d: Dev, st: Status, io: Io)
    requires Good(d, io) && d.current.Live()
    requires Allowed(d.current.stat, st) && st != FinishedByStop
    requires st == StoppingByStop ==> StopIsWaiting(d)
    ensures var (d', io') := SetCurrent(d, st, io);
      && Good(d', io') && Local(d, io, d', io')
      && d' == d.(current := Marked(d.current, st))
      && io'.wire == io.wire
  {
    hide LogOk, Conserves, UpdateStatus, WireOk, ParseArgument, WrongArguments;
    var (d', io') := SetCurrent(d, st, io);
    SetCurrentShape(d, st);
    SetCurrentRecords(d, st, io);
  }

  /** Archiving the waiting command. */
  lemma RetireWaitingRecords(d: Dev, st: Status, io: Io)
    requires Mirror(d, io) && LogOk(io) && d.waiting.stat == Waiting
    requires st == FinishedNormally || st == ByNewCommand
    ensures var (d', io') := SetWaiting(d, st, io);
      && d' == d.(waiting := d.waiting.(stat := NoCommand))
      && Conserves(d, io, d', io')
      && LogOk(io') && Frames(io, io', {d.waiting.id}) && d.waiting.id !in io'.rows
      && io'.history == io.history + [d.waiting.(stat := st)]
      && io.log <= io'.log && io.wire == io'.wire
  {
    hide LogOk, UpdateStatus, Records, HistCount, Pending;
    var (d', io') := SetWaiting(d, st, io);
    UpdateEffect(d.waiting, st, io);
    ArchivedIsGone(d.waiting, st, io);
    forall id ensures Places(d', io', id) == Places(d, io, id) {
    }
  }

  lemma ArchivedIsGone(c: Cmd, st: Status, io: Io)
    requires st.Terminal()
    ensures c.id !in UpdateStatus(c, st, io).1.rows
  {
  }

  /** The two archive operations that end a stop: first the stopped command, then the
      stop command. */
  lemma RetireBothKeeps(d: Dev, io: Io)
    requires Good(d, io) && d.current.stat == StoppingByStop
    ensures var (d1, io1) := SetCurrent(d, FinishedByStop, io);
      var (d', io') := SetWaiting(d1, FinishedNormally, io1);
      && Good(d', io') && Local(d, io, d', io')
      && d1.waiting == d.waiting
      && d'.waiting == d.waiting.(stat := NoCommand) && d'.current == d.current.(stat := NoCommand)
      && io'.wire == io.wire
      && io'.history == io.history + [d.current.(stat := FinishedByStop), d.waiting.(stat := FinishedNormally)]
  {
    hide LogOk, Conserves, UpdateStatus, WireOk, ParseArgument, WrongArguments;
    var (d1, io1) := SetCurrent(d, FinishedByStop, io);
    var (d', io') := SetWaiting(d1, FinishedNormally, io1);
    SetCurrentRecords(d, FinishedByStop, io);
    RetireWaitingRecords(d1, FinishedNormally, io1);
    ConservesCompose(d, io, d1, io1, d', io');
    var a := d.current.(stat := FinishedByStop);
    var b := d.waiting.(stat := FinishedNormally);
    assert io'.history == io.history + [a, b];
  }

  lemma ConservesCompose(d: Dev, io: Io, d1: Dev, io1: Io, d2: Dev, io2: Io)
    requires Conserves(d, io, d1, io1) && Conserves(d1, io1, d2, io2)
    ensures Conserves(d, io, d2, io2)
  {
  }

  lemma LocalRefl(d: Dev, io: Io)
    ensures Local(d, io, d, io)
  {
  }

  /** The statuses a slot can have between two operations. */
  lemma Statuses(d: Dev, io: Io)
    requires Good(d, io)
    ensures d.waiting.stat in {NoCommand, Waiting}
    ensures d.current.stat in {NoCommand, Sent, Working, StoppingByAsensor, StoppingByStop}
    ensures d.current.stat == StoppingByStop ==> StopIsWaiting(d)
  {
    hide LogOk, Mirror, ParseArgument, WrongArguments, WireOk;
  }

  /** gos_check_actuator_working_status */
  lemma CheckWorkingKeeps(d: Dev, io: Io)
    requires Good(d, io) && ReportIsPlausible(d)
    ensures var (d', io') := CheckWorking(d, io);
      Good(d', io') && Local(d, io, d', io') && io'.wire == io.wire
  {
    hide Good, Local, UpdateStatus, ParseArgument, SetCurrent, SetWaiting;
    LocalRefl(d, io);
    Statuses(d, io);
    if ReportedTime(d) > 0 {
      if d.current.stat == Sent { SetCurrentKeeps(d, Working, io); }
      var (d1, io1) := if d.current.stat == Sent then SetCurrent(d, Working, io) else (d, io);
      if StopIsWaiting(d1) {
        SetCurrentKeeps(d1, StoppingByStop, io1);
        var (d2, io2) := SetCurrent(d1, StoppingByStop, io1);
        LocalCompose(d, io, d1, io1, d2, io2);
      }
    } else {
      match d.current.stat
      case Working => SetCurrentKeeps(d, FinishedNormally, io);
      case StoppingByAsensor => SetCurrentKeeps(d, FinishedByAsensor, io);
      case StoppingByStop => RetireBothKeeps(d, io);
      case Sent => if StopIsWaiting(d) { SetCurrentKeeps(d, StoppingByStop, io); }
      case _ =>
    }
  }

  lemma LimitStopKeeps(d: Dev, io: Io)
    requires Good(d, io)
    ensures var (d', io') := LimitStop(d, io);
      && Good(d', io') && Local(d, io, d', io') && io'.wire == io.wire
      && d' == if d.current.stat == Working then d.(current := d.current.(stat := StoppingByAsensor)) else d
  {
    hide Good, Local, UpdateStatus;
    LocalRefl(d, io);
    if d.current.stat == Working { SetCurrentKeeps(d, StoppingByAsensor, io); }
  }

  /** gos_control_actuator_with_asensor: it can only turn WORKING into STOPPING. */
  lemma {:induction false} ScanAsensorsKeeps(d: Dev, devs: seq<Dev>, j: nat, io: Io)
    requires Good(d, io)
    ensures var (d', io') := ScanAsensors(d, devs, j, io);
      && Good(d', io') && Local(d, io, d', io') && io'.wire == io.wire
      && (d' == d || (d.current.stat == Working && d' == d.(current := d.current.(stat := StoppingByAsensor))))
    decreases |d.asensors| - j
  {
    hide Good, Local, LimitStop, FindDevice;
    LocalRefl(d, io);
    if j < |d.asensors| && d.asensors[j].id != NOT_ASENSOR {
      var a := FindDevice(devs, d.asensors[j].id);
      if a >= 0 {
        var hit := devs[a].rawvalue != SIGNAL_OFF && d.asensors[j].kind == Limiter;
        LimitStopKeeps(d, io);
        var (d1, io1) := if hit then LimitStop(d, io) else (d, io);
        ScanAsensorsKeeps(d1, devs, j + 1, io1);
        var (d2, io2) := ScanAsensors(d1, devs, j + 1, io1);
        LocalCompose(d, io, d1, io1, d2, io2);
      }
    }
  }

  lemma ControlWithAsensorKeeps(d: Dev, devs: seq<Dev>, io: Io)
    requires Good(d, io)
    ensures var (d', io') := ControlWithAsensor(d, devs, io);
      && Good(d', io') && Local(d, io, d', io') && io'.wire == io.wire
      && (d' == d || (d.current.stat == Working && d' == d.(current := d.current.(stat := StoppingByAsensor))))
  {
    hide Good, Local, ScanAsensors;
    LocalRefl(d, io);
    if d.usedAsensor { ScanAsensorsKeeps(d, devs, 0, io); }
  }

  /** The device and the frames after the waiting command moved to the current slot. */
  lemma PromoteShape(d: Dev, conns: set<int>, wire: seq<Frame>)
    requires Shape(d) && d.current.stat == NoCommand && d.waiting.stat == Waiting && WireOk(wire)
    ensures var c := d.waiting.(stat := Sent, workcnt := One(d.gcgid in conns));
      && Shape(d.(waiting := d.waiting.(stat := NoCommand), current := c))
      && WireOk(wire + [Frame(d.id, d.waiting.id, d.waiting.ctrlarg)])
      && d.waiting.workcnt == 0
  {
    hide ParseArgument, WrongArguments;
  }

  lemma WireOnly(d: Dev, io: Io, wire: seq<Frame>)
    ensures LogOk(io) <==> LogOk(io.(wire := wire))
    ensures Conserves(d, io, d, io.(wire := wire))
  {
    hide PathOk, LastStatus;
    var io' := io.(wire := wire);
    assert forall id :: Records(io', id) == Records(io, id);
    assert forall id :: Places(d, io', id) == Places(d, io, id);
  }

  /** Moving the waiting command into the idle current slot, seen from the records. */
  lemma PromoteRecords(d: Dev, c: Cmd, io: Io)
    requires Mirror(d, io) && LogOk(io) && d.current.stat == NoCommand && d.waiting.stat == Waiting
    requires c == d.waiting.(workcnt := c.workcnt)
    ensures var (c', io') := UpdateStatus(c, Sent, io);
      var d' := d.(current := c', waiting := d.waiting.(stat := NoCommand));
      && c' == c.(stat := Sent)
      && Conserves(d, io, d', io') && LogOk(io') && Mirror(d', io') && Frames(io, io', {d.waiting.id})
      && io'.history == io.history && io.log <= io'.log && io.wire == io'.wire
  {
    hide LogOk;
    var (c', io') := UpdateStatus(c, Sent, io);
    var d' := d.(current := c', waiting := d.waiting.(stat := NoCommand));
    UpdateEffect(c, Sent, io);
    forall id ensures Places(d', io', id) == Places(d, io, id) {
    }
  }

  /** Moving the waiting command into the idle current slot. */
  lemma PromoteKeeps(d: Dev, conns: set<int>, io: Io)
    requires Good(d, io) && d.current.stat == NoCommand && d.waiting.stat == Waiting
    ensures var (d', io') := SendCommand(d, conns, io);
      && Good(d', io') && Local(d, io, d', io')
      && d' == d.(current := d.waiting.(stat := Sent, workcnt := One(d.gcgid in conns)),
                  waiting := d.waiting.(stat := NoCommand))
  {
    hide LogOk, Conserves, UpdateStatus, WireOk, ParseArgument, WrongArguments, WaitingOk, CurrentOk;
    var (d', io') := SendCommand(d, conns, io);
    var (c1, io1) := SendReal(d.waiting, d, conns, io);
    PromoteShape(d, conns, io.wire);
    WireOnly(d, io, io1.wire);
    PromoteRecords(d, c1, io1);
    ConservesCompose(d, io, d, io1, d', io');
  }

  /** A step that leaves the rows, the archive and the log alone. */
  lemma SendOnlyKeeps(d: Dev, io: Io, d': Dev, wire: seq<Frame>)
    requires Good(d, io) && SameDevice(d, d') && Shape(d')
    requires d'.waiting.id == d.waiting.id && d'.waiting.stat == d.waiting.stat
    requires d'.current.id == d.current.id && d'.current.stat == d.current.stat
    requires io.wire <= wire && WireOk(wire)
    ensures Good(d', io.(wire := wire)) && Local(d, io, d', io.(wire := wire))
  {
    var io' := io.(wire := wire);
    assert forall id :: Records(io', id) == Records(io, id);
    assert forall id :: Places(d', io', id) == Places(d, io, id);
    assert LogOk(io');
  }

  /** gos_send_command with a command in the current slot changes counters and frames only. */
  lemma SendCommandShape(d: Dev, conns: set<int>, io: Io)
    requires Shape(d) && WireOk(io.wire) && d.current.Live()
    ensures var (d', io') := SendCommand(d, conns, io);
      && Shape(d') && WireOk(io'.wire) && SameDevice(d, d')
      && d'.waiting.id == d.waiting.id && d'.waiting.stat == d.waiting.stat
      && d'.current.id == d.current.id && d'.current.stat == d.current.stat
      && io' == io.(wire := io'.wire) && io.wire <= io'.wire
  {
    hide ParseArgument, UpdateStatus;
  }

  /** gos_send_command; the assertion at line 1342 of the source is `Pinned`. */
  lemma SendCommandKeeps(d: Dev, conns: set<int>, io: Io)
    requires Good(d, io)
    ensures var (d', io') := SendCommand(d, conns, io);
      Good(d', io') && Local(d, io, d', io')
  {
    hide LogOk, Mirror, Local, WaitingOk, CurrentOk, Pinned, WireOk, UpdateStatus, SendReal;
    LocalRefl(d, io);
    if d.current.stat == NoCommand {
      if d.waiting.stat == Waiting { PromoteKeeps(d, conns, io); }
    } else {
      SendCommandShape(d, conns, io);
      var (d', io') := SendCommand(d, conns, io);
      SendOnlyKeeps(d, io, d', io'.wire);
    }
  }

  /** One actuator's share of a tick. */
  lemma ServeActuatorKeeps(d: Dev, devs: seq<Dev>, conns: set<int>, io: Io)
    requires Good(d, io) && ReportIsPlausible(d)
    ensures var (d', io') := ServeActuator(d, devs, conns, io);
      Good(d', io') && Local(d, io, d', io')
  {
    var (d1, io1) := CheckWorking(d, io);
    CheckWorkingKeeps(d, io);
    var (d2, io2) := ControlWithAsensor(d1, devs, io1);
    ControlWithAsensorKeeps(d1, devs, io1);
    LocalCompose(d, io, d1, io1, d2, io2);
    var (d3, io3) := SendCommand(d2, conns, io2);
    SendCommandKeeps(d2, conns, io2);
    LocalCompose(d, io, d2, io2, d3, io3);
  }

  // ------------------------------------------------------------- reading commands

  /** What gos_load_command_from_result produces. */
  lemma LoadedCommand(r: Selected)
    ensures var c := LoadCommand(r);
      && c.id == r.id && c.deviceid == r.row.deviceid && !c.Live()
      && c.workcnt == 0 && c.stopcnt == 0 && c.resentignore == 0
      && (!IsWrong(c) ==> ParseArgument(c.ctrlarg) == (c.arg, c.tm))
  {
    if r.row.ctrlarg < 0 { PackThenParse(r.row.argument, r.row.worktime); }
  }

  /** An archived row of the batch: wrong, or manual during automatic operation. */
  lemma RejectKeeps(c: Cmd, st: Status, io: Io)
    requires LogOk(io) && StopsPaired(io.history)
    requires c.id in io.rows && io.rows[c.id].status == NoCommand && !c.Live()
    requires st == WrongCommand || st == ByAutoControl
    ensures var io' := UpdateStatus(c, st, io).1;
      && LogOk(io') && StopsPaired(io'.history)
      && Frames(io, io', {c.id}) && io'.wire == io.wire
      && io'.history == io.history + [c.(stat := st)]
      && c.id !in io'.rows
      && (forall id :: Records(io', id) == Records(io, id))
      && (forall id :: One(Pending(io', id)) + HistCount(io'.history, id)
                    == One(Pending(io, id)) + HistCount(io.history, id))
  {
    hide LogOk;
    UpdateEffect(c, st, io);
  }

  /** A pending command taken into an idle waiting slot. */
  lemma TakeRecords(d: Dev, c: Cmd, io: Io)
    requires LogOk(io) && !d.waiting.Live()
    requires c.id in io.rows && io.rows[c.id].status == NoCommand && !c.Live()
    ensures var (w, io') := UpdateStatus(c, Waiting, io);
      && w == c.(stat := Waiting)
      && Conserves(d, io, d.(waiting := w), io')
      && LogOk(io') && RowShows(w, io') && Frames(io, io', {c.id})
      && io'.history == io.history && io.wire == io'.wire
  {
    hide LogOk;
    UpdateEffect(c, Waiting, io);
    var (w, io') := UpdateStatus(c, Waiting, io);
    forall id ensures Places(d.(waiting := w), io', id) == Places(d, io, id) {
    }
  }

  /** gos_update_waiting_command when no stop is waiting. */
  lemma UpdateWaitingKeeps(d: Dev, c: Cmd, io: Io)
    requires Good(d, io) && !StopIsWaiting(d)
    requires c.id in io.rows && io.rows[c.id].status == NoCommand && !c.Live()
    requires c.deviceid == d.id && !IsWrong(c) && ParseArgument(c.ctrlarg) == (c.arg, c.tm)
    requires c.workcnt == 0 && c.resentignore == 0
    ensures var (d', io') := UpdateWaiting(d, c, io);
      && Good(d', io') && Conserves(d, io, d', io')
      && Frames(io, io', SlotIds(d) + {c.id})
      && d' == d.(waiting := c.(stat := Waiting))
      && io'.wire == io.wire
      && io'.history == io.history + (if d.waiting.Live() then [d.waiting.(stat := ByNewCommand)] else [])
      && c.id in io'.rows && io'.rows[c.id].status == Waiting
      && (d.waiting.Live() ==> d.waiting.id !in io'.rows)
  {
    hide LogOk, Conserves, UpdateStatus, WireOk, ParseArgument;
    var (d1, io1) := if d.waiting.Live() then SetWaiting(d, ByNewCommand, io) else (d, io);
    if d.waiting.Live() { RetireWaitingRecords(d, ByNewCommand, io); } else { LocalRefl(d, io); }
    TakeRecords(d1, c, io1);
    var (d', io') := UpdateWaiting(d, c, io);
    assert d' == d1.(waiting := c.(stat := Waiting));
    ConservesCompose(d, io, d1, io1, d', io');
  }
}
