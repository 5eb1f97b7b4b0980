/** The actuator command life cycle of the greenhouse operating server
    (software/gos/src/gos_device.c), as functions on values. GosDevice holds the
    same operations as methods that change objects in place, each proved equal
    to the function of this module. */
module Commands {
  import opened Words

  const RESENT_IGNORE_COUNT := 8   // _GOS_RESENT_IGNORE_COUNT
  const NOT_ASENSOR := -1          // _GOS_NOT_ASENSOR
  const SIGNAL_OFF := 0            // GOS_SIGNAL_OFF
  const MOTOR_ARG_OPEN := 1        // _GOS_MOTOR_ARG_OPEN
  const MOTOR_ARG_CLOSE := 2       // _GOS_MOTOR_ARG_CLOSE

  /** gos_cmdstat_t */
  datatype Status =
    | NoCommand | WrongCommand | ByNewCommand | ByAutoControl
    | Waiting | Sent | Working
    | StoppingByAsensor | StoppingByStop
    | FinishedNormally | FinishedByAsensor | FinishedByStop
  {
    /** The number stored in the status column. */
    function Code(): int {
      match this
      case NoCommand => 0
      case WrongCommand => 1
      case ByNewCommand => 2
      case ByAutoControl => 3
      case Waiting => 11
      case Sent => 12
      case Working => 13
      case StoppingByAsensor => 21
      case StoppingByStop => 22
      case FinishedNormally => 31
      case FinishedByAsensor => 32
      case FinishedByStop => 33
    }

    predicate Finished() { Code() >= FinishedNormally.Code() }

    predicate Ignored() { this == ByNewCommand || this == ByAutoControl || this == WrongCommand }

    /** A status after which the command is archived. */
    predicate Terminal() { Finished() || Ignored() }
  }

  /** gos_cmd_t, without its time stamps */
  datatype Cmd = Cmd(
    id: int, deviceid: int,
    arg: int, tm: int, ctrlarg: int,
    ctrlid: int, ctrltype: string,
    workcnt: nat, stopcnt: nat, resentignore: nat,
    stat: Status)
  {
    predicate Live() { stat != NoCommand }

    predicate IsStop() { tm == 0 }

    predicate IsAuto() { |ctrltype| > 0 && ctrltype[0] == 'a' }
  }

  /** A row of the table gos_control. */
  datatype Row = Row(
    deviceid: int, argument: int, worktime: int,
    ctrltype: string, ctrlid: int, ctrlarg: int,
    sentcnt: nat, stopcnt: nat, status: Status)

  /** One executed `update gos_control ... status`. */
  datatype Update = Update(id: int, status: Status)

  /** One actuator control frame handed to the connection. */
  datatype Frame = Frame(deviceid: int, cmdid: int, ctrlarg: int)

  /** Everything outside the device table: gos_control, gos_control_history, the
      status updates executed so far and the frames sent so far. */
  datatype Io = Io(rows: map<int, Row>, history: seq<Cmd>, log: seq<Update>, wire: seq<Frame>)

  datatype AsensorKind = Limiter | AngleSensor
  datatype Asensor = Asensor(id: int, kind: AsensorKind)

  /** gos_dev_t, reduced to what control uses. */
  datatype Dev = Dev(
    id: int, actuator: bool, gcgid: int,
    usedAsensor: bool, asensors: seq<Asensor>,
    rawvalue: int,
    waiting: Cmd, current: Cmd)

  /** One line of the selection made by gos_read_commands. */
  datatype Selected = Selected(id: int, row: Row)

  // ---------------------------------------------------------------- commands

  /** gos_set_command */
  function SetCommand(id: int, deviceid: int, argument: int, worktime: int,
                      ctrltype: string, ctrlid: int, ctrlarg: int): Cmd
  {
    var (a, t) := if ctrlarg < 0 then (argument, worktime) else ParseArgument(ctrlarg);
    var c := if ctrlarg < 0 then PackArgument(argument, worktime) else ctrlarg;
    Cmd(id, deviceid, a, t, c, ctrlid, ctrltype, 0, 0, 0, NoCommand)
  }

  /** gos_load_command_from_result */
  function LoadCommand(r: Selected): Cmd
  {
    SetCommand(r.id, r.row.deviceid, r.row.argument, r.row.worktime,
               r.row.ctrltype, r.row.ctrlid, r.row.ctrlarg)
  }

  /** gos_is_wrong_command */
  predicate WrongArguments(arg: int, tm: int)
  {
    tm < 0 || tm > TIME_FILTER || (arg != MOTOR_ARG_OPEN && arg != MOTOR_ARG_CLOSE)
  }

  predicate IsWrong(c: Cmd) { WrongArguments(c.arg, c.tm) }

  // ---------------------------------------------------------------- database

  /** gos_update_control: a row that is not there is left alone. */
  function UpdateControl(c: Cmd, io: Io): Io
  {
    io.(rows := if c.id in io.rows
                then io.rows[c.id := io.rows[c.id].(sentcnt := c.workcnt, stopcnt := c.stopcnt, status := c.stat)]
                else io.rows,
        log := io.log + [Update(c.id, c.stat)])
  }

  /** gos_insert_control_history followed by gos_delete_control */
  function ArchiveControl(c: Cmd, io: Io): Io
  {
    io.(history := io.history + [c], rows := io.rows - {c.id})
  }

  /** gos_update_command_status */
  function UpdateStatus(c: Cmd, st: Status, io: Io): (Cmd, Io)
  {
    var c1 := c.(stat := st);
    var io1 := UpdateControl(c1, io);
    if st.Terminal() then (c1.(stat := NoCommand), ArchiveControl(c1, io1)) else (c1, io1)
  }

  /** gos_update_waiting_command */
  function UpdateWaiting(d: Dev, c: Cmd, io: Io): (Dev, Io)
  {
    var io1 := if d.waiting.Live() then UpdateStatus(d.waiting, ByNewCommand, io).1 else io;
    var (w, io2) := UpdateStatus(c, Waiting, io1);
    (d.(waiting := w), io2)
  }

  // ------------------------------------------------------- one actuator, one tick

  /** gos_send_real_command: nothing happens without a connection to the gateway. */
  function SendReal(c: Cmd, d: Dev, conns: set<int>, io: Io): (Cmd, Io)
  {
    if d.gcgid in conns
    then (c.(workcnt := c.workcnt + 1), io.(wire := io.wire + [Frame(d.id, c.id, c.ctrlarg)]))
    else (c, io)
  }

  /** gos_send_command */
  function SendCommand(d: Dev, conns: set<int>, io: Io): (Dev, Io)
  {
    var cur := d.current;
    if cur.stat == NoCommand then
      if d.waiting.stat == Waiting then
        var (c1, io1) := SendReal(d.waiting, d, conns, io);
        var (c2, io2) := UpdateStatus(c1, Sent, io1);
        (d.(current := c2, waiting := d.waiting.(stat := NoCommand)), io2)
      else (d, io)
    else if cur.stat == StoppingByAsensor then
      // the frame goes out from a copy whose tm, but not ctrlarg, was cleared
      var (_, io1) := SendReal(cur.(tm := 0), d, conns, io);
      (d.(current := cur.(stopcnt := cur.stopcnt + 1)), io1)
    else if cur.stat == StoppingByStop then
      var (w, io1) := SendReal(d.waiting.(arg := cur.arg), d, conns, io);
      (d.(waiting := w, current := cur.(stopcnt := cur.stopcnt + 1)), io1)
    else if cur.stat == Sent && !cur.IsStop() then
      var c1 := cur.(resentignore := cur.resentignore + 1);
      if c1.resentignore % RESENT_IGNORE_COUNT == 0 then
        var (c2, io1) := SendReal(c1, d, conns, io);
        (d.(current := c2), io1)
      else (d.(current := c1), io)
    else (d, io)
  }

  /** gos_limitstop_actuator */
  function LimitStop(d: Dev, io: Io): (Dev, Io)
  {
    if d.current.stat == Working then
      var (c, io1) := UpdateStatus(d.current, StoppingByAsensor, io);
      (d.(current := c), io1)
    else (d, io)
  }

  /** gos_find_device: the first device with that id, or -1. */
  function FindDevice(devs: seq<Dev>, id: int): (i: int)
    ensures -1 <= i < |devs|
    ensures i >= 0 ==> devs[i].id == id
    ensures i < 0 ==> forall j :: 0 <= j < |devs| ==> devs[j].id != id
  {
    if devs == [] then -1
    else
      var i := FindDevice(devs[..|devs| - 1], id);
      if i >= 0 then i else if devs[|devs| - 1].id == id then |devs| - 1 else -1
  }

  /** The loop of gos_control_actuator_with_asensor from its j-th round on: an unset
      entry ends it, and so does a sensor that is not in the device table. */
  function ScanAsensors(d: Dev, devs: seq<Dev>, j: nat, io: Io): (Dev, Io)
    decreases |d.asensors| - j
  {
    if j >= |d.asensors| || d.asensors[j].id == NOT_ASENSOR then (d, io)
    else
      var a := FindDevice(devs, d.asensors[j].id);
      if a < 0 then (d, io)
      else if devs[a].rawvalue != SIGNAL_OFF && d.asensors[j].kind == Limiter then
        var (d1, io1) := LimitStop(d, io);
        ScanAsensors(d1, devs, j + 1, io1)
      else ScanAsensors(d, devs, j + 1, io)
  }

  /** gos_control_actuator_with_asensor */
  function ControlWithAsensor(d: Dev, devs: seq<Dev>, io: Io): (Dev, Io)
  {
    if d.usedAsensor then ScanAsensors(d, devs, 0, io) else (d, io)
  }

  predicate StopIsWaiting(d: Dev) { d.waiting.stat == Waiting && d.waiting.IsStop() }

  /** The seconds of work the actuator last reported. */
  function ReportedTime(d: Dev): int { ParseArgument(d.rawvalue).1 }

  /** The two assertions at the top of gos_check_actuator_working_status. */
  predicate ReportIsPlausible(d: Dev)
  {
    ReportedTime(d) > 0 ==>
      && d.current.Live()
      && (d.current.arg == ParseArgument(d.rawvalue).0 || d.current.arg == 0)
  }

  function SetCurrent(d: Dev, st: Status, io: Io): (Dev, Io)
  {
    var (c, io1) := UpdateStatus(d.current, st, io);
    (d.(current := c), io1)
  }

  function SetWaiting(d: Dev, st: Status, io: Io): (Dev, Io)
  {
    var (c, io1) := UpdateStatus(d.waiting, st, io);
    (d.(waiting := c), io1)
  }

  /** gos_check_actuator_working_status; the branch at line 1459 of the source cannot
      be taken because the branch at line 1454 tests the same status first. */
  function CheckWorking(d: Dev, io: Io): (Dev, Io)
  {
    if ReportedTime(d) > 0 then
      var (d1, io1) := if d.current.stat == Sent then SetCurrent(d, Working, io) else (d, io);
      if StopIsWaiting(d1) then SetCurrent(d1, StoppingByStop, io1) else (d1, io1)
    else if d.current.stat == Working then SetCurrent(d, FinishedNormally, io)
    else if d.current.stat == StoppingByAsensor then SetCurrent(d, FinishedByAsensor, io)
    else if d.current.stat == StoppingByStop then
      var (d1, io1) := SetCurrent(d, FinishedByStop, io);
      if d1.waiting.IsStop() then SetWaiting(d1, FinishedNormally, io1) else (d1, io1)
    else if d.current.stat == Sent then
      if StopIsWaiting(d) then SetCurrent(d, StoppingByStop, io) else (d, io)
    else if d.current.stat == Sent && d.current.IsStop() then SetCurrent(d, FinishedNormally, io)
    else (d, io)
  }

  /** One round of gos_select_and_send_command. */
  function ServeActuator(d: Dev, devs: seq<Dev>, conns: set<int>, io: Io): (Dev, Io)
  {
    var (d1, io1) := CheckWorking(d, io);
    var (d2, io2) := ControlWithAsensor(d1, devs, io1);
    SendCommand(d2, conns, io2)
  }

  // ---------------------------------------------------------------- the server

  /** The whole server. `inserted` remembers every command id ever put in gos_control. */
  datatype Sys = Sys(devs: seq<Dev>, io: Io, inserted: set<int>)

  /** The first n rounds of gos_select_and_send_command. */
  function ServeFirst(s: Sys, conns: set<int>, n: nat): (r: Sys)
    requires n <= |s.devs|
    ensures |r.devs| == |s.devs|
  {
    if n == 0 then s
    else
      var r := ServeFirst(s, conns, n - 1);
      if r.devs[n - 1].actuator then
        var (d, io) := ServeActuator(r.devs[n - 1], r.devs, conns, r.io);
        r.(devs := r.devs[n - 1 := d], io := io)
      else r
  }

  /** gos_select_and_send_command */
  function SelectAndSend(s: Sys, conns: set<int>): (r: Sys)
    ensures |r.devs| == |s.devs|
  {
    ServeFirst(s, conns, |s.devs|)
  }

  /** The variables gos_read_commands carries from one row to the next. */
  datatype Scan = Scan(sys: Sys, pass: int)

  /** One round of the loop of gos_read_commands. */
  function ReadRow(st: Scan, r: Selected, auto: bool): (st': Scan)
    ensures |st'.sys.devs| == |st.sys.devs|
  {
    var s := st.sys;
    var c := LoadCommand(r);
    if IsWrong(c) then
      st.(sys := s.(io := UpdateStatus(c, WrongCommand, s.io).1))
    else if c.deviceid == st.pass then st
    else if auto && !c.IsAuto() then
      st.(sys := s.(io := UpdateStatus(c, ByAutoControl, s.io).1))
    else
      var i := FindDevice(s.devs, c.deviceid);
      if i < 0 then st
      else if StopIsWaiting(s.devs[i]) then st.(pass := c.deviceid)
      else
        var (d, io) := UpdateWaiting(s.devs[i], c, s.io);
        st.(sys := s.(devs := s.devs[i := d], io := io))
  }

  function ReadRows(s: Sys, batch: seq<Selected>, auto: bool): (st: Scan)
    ensures |st.sys.devs| == |s.devs|
  {
    if batch == [] then Scan(s, -1)
    else ReadRow(ReadRows(s, batch[..|batch| - 1], auto), batch[|batch| - 1], auto)
  }

  /** gos_read_commands */
  function ReadCommands(s: Sys, batch: seq<Selected>, auto: bool): (r: Sys)
    ensures |r.devs| == |s.devs|
  {
    ReadRows(s, batch, auto).sys
  }

  /** gos_control: one tick of the timer. */
  function Tick(s: Sys, batch: seq<Selected>, auto: bool, conns: set<int>): (r: Sys)
    ensures |r.devs| == |s.devs|
  {
    SelectAndSend(ReadCommands(s, batch, auto), conns)
  }

  /** What `select ... where status = 0 order by device_id asc, id asc` returns. */
  predicate Before(a: Selected, b: Selected)
  {
    a.row.deviceid < b.row.deviceid || (a.row.deviceid == b.row.deviceid && a.id < b.id)
  }

  ghost predicate IsSelection(rows: map<int, Row>, batch: seq<Selected>)
  {
    && (forall k :: 0 <= k < |batch| ==>
          batch[k].id in rows && rows[batch[k].id] == batch[k].row && batch[k].row.status == NoCommand)
    && (forall id :: id in rows && rows[id].status == NoCommand ==>
          exists k :: 0 <= k < |batch| && batch[k].id == id)
    && (forall j, k :: 0 <= j < k < |batch| ==> Before(batch[j], batch[k]))
  }
}
