/** gos_device.c as it is written: command slots and tables changed in place. Every
    method is tied to the function of Commands that gives its meaning. */
module GosDevice {
  import opened Words
  import C = Commands
  import I = CommandInvariants
  import R = CommandRuns

  /** gos_cmd_t */
  class Command {
    var id: int
    var deviceid: int
    var arg: int
    var tm: int
    var ctrlarg: int
    var ctrlid: int
    var ctrltype: string
    var workcnt: nat
    var stopcnt: nat
    var resentignore: nat
    var stat: C.Status

    ghost function View(): C.Cmd
      reads this
    {
      C.Cmd(id, deviceid, arg, tm, ctrlarg, ctrlid, ctrltype, workcnt, stopcnt, resentignore, stat)
    }

    /** A zeroed command. */
    constructor ()
      ensures View() == C.Cmd(0, 0, 0, 0, 0, 0, "", 0, 0, 0, C.NoCommand)
    {
      id, deviceid, arg, tm, ctrlarg, ctrlid, ctrltype := 0, 0, 0, 0, 0, 0, "";
      workcnt, stopcnt, resentignore, stat := 0, 0, 0, C.NoCommand;
    }

    /** gos_set_command */
    method Set(id: int, deviceid: int, argument: int, worktime: int, ctrltype: string, ctrlid: int, ctrlarg: int)
      modifies this
      ensures View() == C.SetCommand(id, deviceid, argument, worktime, ctrltype, ctrlid, ctrlarg)
    {
      hide PackArgument, ParseArgument;
      this.id, this.deviceid, this.ctrlid := id, deviceid, ctrlid;
      this.resentignore, this.ctrltype := 0, ctrltype;
      if ctrlarg < 0 {
        this.arg, this.tm := argument, worktime;
        this.ctrlarg := PackArgument(argument, worktime);
      } else {
        this.arg, this.tm := ParseArgument(ctrlarg).0, ParseArgument(ctrlarg).1;
        this.ctrlarg := ctrlarg;
      }
      this.workcnt, this.stopcnt, this.stat := 0, 0, C.NoCommand;
    }

    /** A command on the stack, filled by memcpy. */
    constructor Copy(src: Command)
      ensures View() == src.View()
    {
      id, deviceid, arg, tm, ctrlarg := src.id, src.deviceid, src.arg, src.tm, src.ctrlarg;
      ctrlid, ctrltype := src.ctrlid, src.ctrltype;
      workcnt, stopcnt, resentignore, stat := src.workcnt, src.stopcnt, src.resentignore, src.stat;
    }

    /** memcpy */
    method CopyFrom(src: Command)
      modifies this
      ensures View() == old(src.View())
    {
      id, deviceid, arg, tm, ctrlarg := src.id, src.deviceid, src.arg, src.tm, src.ctrlarg;
      ctrlid, ctrltype := src.ctrlid, src.ctrltype;
      workcnt, stopcnt, resentignore, stat := src.workcnt, src.stopcnt, src.resentignore, src.stat;
    }
  }

  /** gos_dev_t; the two slots are part of the device. */
  class Device {
    const id: int
    const actuator: bool
    const gcgid: int
    const usedAsensor: bool
    const asensors: seq<C.Asensor>
    var rawvalue: int
    const waiting: Command
    const current: Command

    constructor (id: int, actuator: bool, gcgid: int, usedAsensor: bool, asensors: seq<C.Asensor>,
                 waiting: Command, current: Command)
      ensures this.waiting == waiting && this.current == current
      ensures View() == C.Dev(id, actuator, gcgid, usedAsensor, asensors, 0, waiting.View(), current.View())
    {
      this.id, this.actuator, this.gcgid := id, actuator, gcgid;
      this.usedAsensor, this.asensors, this.rawvalue := usedAsensor, asensors, 0;
      this.waiting, this.current := waiting, current;
    }

    ghost function Parts(): set<object> { {this, waiting, current} }

    ghost function View(): C.Dev
      reads Parts()
    {
      C.Dev(id, actuator, gcgid, usedAsensor, asensors, rawvalue, waiting.View(), current.View())
    }
  }

  /** The two tables, and the connections' outgoing frames. */
  class Backend {
    var rows: map<int, C.Row>
    var history: seq<C.Cmd>
    var log: seq<C.Update>
    var wire: seq<C.Frame>
    var conns: set<int>

    constructor ()
      ensures View() == C.Io(map[], [], [], []) && conns == {}
    {
      rows, history, log, wire, conns := map[], [], [], [], {};
    }

    ghost function View(): C.Io
      reads this
    {
      C.Io(rows, history, log, wire)
    }

    /** gos_update_control */
    method UpdateControl(c: Command)
      modifies this
      ensures View() == C.UpdateControl(c.View(), old(View())) && conns == old(conns)
    {
      if c.id in rows {
        rows := rows[c.id := rows[c.id].(sentcnt := c.workcnt, stopcnt := c.stopcnt, status := c.stat)];
      }
      log := log + [C.Update(c.id, c.stat)];
    }

    /** gos_insert_control_history */
    method InsertHistory(c: Command)
      modifies this
      ensures View() == old(View()).(history := old(history) + [c.View()]) && conns == old(conns)
    {
      history := history + [C.Cmd(c.id, c.deviceid, c.arg, c.tm, c.ctrlarg, c.ctrlid, c.ctrltype,
                                  c.workcnt, c.stopcnt, c.resentignore, c.stat)];
    }

    /** gos_delete_control */
    method DeleteControl(c: Command)
      modifies this
      ensures View() == old(View()).(rows := old(rows) - {c.id}) && conns == old(conns)
    {
      rows := rows - {c.id};
    }
  }

  /** gos_update_command_status */
  method UpdateCommandStatus(pcmd: Command, st: C.Status, db: Backend)
    modifies pcmd, db
    ensures (pcmd.View(), db.View()) == C.UpdateStatus(old(pcmd.View()), st, old(db.View()))
    ensures db.conns == old(db.conns)
  {
    pcmd.stat := st;
    db.UpdateControl(pcmd);
    if pcmd.stat.Terminal() {
      db.InsertHistory(pcmd);
      db.DeleteControl(pcmd);
      pcmd.stat := C.NoCommand;
    }
  }

  /** gos_update_waiting_command */
  method UpdateWaitingCommand(pdev: Device, pcmd: Command, db: Backend)
    requires pcmd !in pdev.Parts() && pdev.waiting != pdev.current
    modifies pdev.waiting, db
    ensures (pdev.View(), db.View()) == C.UpdateWaiting(old(pdev.View()), pcmd.View(), old(db.View()))
    ensures db.conns == old(db.conns)
  {
    if pdev.waiting.stat != C.NoCommand {
      UpdateCommandStatus(pdev.waiting, C.ByNewCommand, db);
    }
    pdev.waiting.CopyFrom(pcmd);
    UpdateCommandStatus(pdev.waiting, C.Waiting, db);
  }

  /** gos_send_real_command */
  method SendRealCommand(pcmd: Command, db: Backend, pdev: Device)
    modifies pcmd, db
    ensures (pcmd.View(), db.View()) == C.SendReal(old(pcmd.View()), old(pdev.View()), old(db.conns), old(db.View()))
    ensures db.conns == old(db.conns)
  {
    if pdev.gcgid !in db.conns { return; }
    db.wire := db.wire + [C.Frame(pdev.id, pcmd.id, pcmd.ctrlarg)];
    pcmd.workcnt := pcmd.workcnt + 1;
  }

  /** gos_send_command with an idle current slot */
  method SendWaiting(pdev: Device, db: Backend)
    requires pdev.waiting != pdev.current && pdev.current.stat == C.NoCommand
    modifies pdev.waiting, pdev.current, db
    ensures (pdev.View(), db.View()) == C.SendCommand(old(pdev.View()), old(db.conns), old(db.View()))
    ensures db.conns == old(db.conns)
  {
    hide C.UpdateStatus;
    var pcmd, pnewcmd := pdev.current, pdev.waiting;
    if pnewcmd.stat == C.Waiting {
      pcmd.CopyFrom(pnewcmd);
      pnewcmd.stat := C.NoCommand;
      SendRealCommand(pcmd, db, pdev);
      UpdateCommandStatus(pcmd, C.Sent, db);
    }
  }

  /** gos_send_command for a command a limiter stops: the frame is sent from a copy. */
  method SendLimiterStop(pdev: Device, db: Backend)
    requires pdev.waiting != pdev.current && pdev.current.stat == C.StoppingByAsensor
    modifies pdev.current, db
    ensures (pdev.View(), db.View()) == C.SendCommand(old(pdev.View()), old(db.conns), old(db.View()))
    ensures db.conns == old(db.conns)
  {
    var pcmd := pdev.current;
    var tmpcmd := new Command.Copy(pcmd);
    tmpcmd.tm := 0;
    pcmd.stopcnt := pcmd.stopcnt + 1;
    SendRealCommand(tmpcmd, db, pdev);
  }

  /** gos_send_command for a command a stop command stops: the stop takes over its argument. */
  method SendStopCommand(pdev: Device, db: Backend)
    requires pdev.waiting != pdev.current && pdev.current.stat == C.StoppingByStop
    modifies pdev.waiting, pdev.current, db
    ensures (pdev.View(), db.View()) == C.SendCommand(old(pdev.View()), old(db.conns), old(db.View()))
    ensures db.conns == old(db.conns)
  {
    hide C.UpdateStatus;
    var pcmd, pnewcmd := pdev.current, pdev.waiting;
    if pnewcmd.arg != pcmd.arg { pnewcmd.arg := pcmd.arg; }
    SendRealCommand(pnewcmd, db, pdev);
    pcmd.stopcnt := pcmd.stopcnt + 1;
  }

  /** gos_send_command for a sent command without a reaction: every eighth time it is resent. */
  method Resend(pdev: Device, db: Backend)
    requires pdev.waiting != pdev.current && pdev.current.stat == C.Sent && pdev.current.tm != 0
    modifies pdev.current, db
    ensures (pdev.View(), db.View()) == C.SendCommand(old(pdev.View()), old(db.conns), old(db.View()))
    ensures db.conns == old(db.conns)
  {
    hide C.UpdateStatus;
    var pcmd := pdev.current;
    pcmd.resentignore := pcmd.resentignore + 1;
    if pcmd.resentignore % C.RESENT_IGNORE_COUNT == 0 {
      SendRealCommand(pcmd, db, pdev);
    }
  }

  /** gos_send_command; the source asserts that a pinned command is a stop command. */
  method SendCommand(pdev: Device, db: Backend)
    requires pdev.waiting != pdev.current
    requires pdev.current.stat == C.StoppingByStop ==> pdev.waiting.View().IsStop()
    modifies pdev.waiting, pdev.current, db
    ensures (pdev.View(), db.View()) == C.SendCommand(old(pdev.View()), old(db.conns), old(db.View()))
    ensures db.conns == old(db.conns)
  {
    hide C.UpdateStatus;
    var pcmd := pdev.current;
    if pcmd.stat == C.NoCommand {
      SendWaiting(pdev, db);
    } else if pcmd.stat == C.StoppingByAsensor {
      SendLimiterStop(pdev, db);
    } else if pcmd.stat == C.StoppingByStop {
      assert pdev.waiting.View().IsStop();
      SendStopCommand(pdev, db);
    } else if pcmd.stat == C.Sent && pcmd.tm != 0 {
      Resend(pdev, db);
    }
  }

  /** gos_limitstop_actuator */
  method LimitstopActuator(pdev: Device, db: Backend)
    requires pdev.waiting != pdev.current
    modifies pdev.current, db
    ensures (pdev.View(), db.View()) == C.LimitStop(old(pdev.View()), old(db.View()))
    ensures db.conns == old(db.conns)
  {
    if pdev.current.stat == C.Working {
      UpdateCommandStatus(pdev.current, C.StoppingByAsensor, db);
    }
  }

  /** gos_check_actuator_working_status; the source asserts its precondition. */
  method CheckActuatorWorkingStatus(pdev: Device, db: Backend)
    requires pdev.waiting != pdev.current && C.ReportIsPlausible(pdev.View())
    modifies pdev.waiting, pdev.current, db
    ensures (pdev.View(), db.View()) == C.CheckWorking(old(pdev.View()), old(db.View()))
    ensures db.conns == old(db.conns)
  {
    hide ParseArgument, C.UpdateStatus;
    var pcmd, pnewcmd := pdev.current, pdev.waiting;
    var (_, tm) := ParseArgument(pdev.rawvalue);
    if tm > 0 {
      if pcmd.stat == C.Sent { UpdateCommandStatus(pcmd, C.Working, db); }
      if pnewcmd.stat == C.Waiting && pnewcmd.tm == 0 {
        UpdateCommandStatus(pcmd, C.StoppingByStop, db);
      }
    } else {
      if pcmd.stat == C.Working {
        UpdateCommandStatus(pcmd, C.FinishedNormally, db);
      } else if pcmd.stat == C.StoppingByAsensor {
        UpdateCommandStatus(pcmd, C.FinishedByAsensor, db);
      } else if pcmd.stat == C.StoppingByStop {
        UpdateCommandStatus(pcmd, C.FinishedByStop, db);
        if pnewcmd.tm == 0 { UpdateCommandStatus(pnewcmd, C.FinishedNormally, db); }
      } else if pcmd.stat == C.Sent {
        if pnewcmd.stat == C.Waiting && pnewcmd.tm == 0 {
          UpdateCommandStatus(pcmd, C.StoppingByStop, db);
        }
      } // the source's last branch (line 1459) tests SENT once more and cannot be reached
    }
  }

  // ------------------------------------------------------------------ the server

  lemma {:induction false} FoundEarly(devs: seq<C.Dev>, i: nat, id: int)
    requires i < |devs| && devs[i].id == id && C.FindDevice(devs[..i], id) < 0
    ensures C.FindDevice(devs, id) == i
  {
    var n := |devs| - 1;
    if i < n {
      assert devs[..n][..i] == devs[..i];
      FoundEarly(devs[..n], i, id);
    }
  }

  /** Finding a device looks at ids only. */
  lemma {:induction false} SameFind(a: seq<C.Dev>, b: seq<C.Dev>, id: int)
    requires |a| == |b| && forall i :: 0 <= i < |a| ==> a[i].id == b[i].id
    ensures C.FindDevice(a, id) == C.FindDevice(b, id)
  {
    if a != [] { SameFind(a[..|a| - 1], b[..|b| - 1], id); }
  }

  lemma AsensorsIgnoreSlots(d: C.Dev, a: seq<C.Dev>, b: seq<C.Dev>, io: C.Io)
    requires |a| == |b| && forall i :: 0 <= i < |a| ==> a[i].id == b[i].id && a[i].rawvalue == b[i].rawvalue
    ensures C.ControlWithAsensor(d, a, io) == C.ControlWithAsensor(d, b, io)
  {
    hide C.ScanAsensors;
    if d.usedAsensor { ScanIgnoresSlots(d, a, b, 0, io); }
  }

  lemma {:induction false} ScanIgnoresSlots(d: C.Dev, a: seq<C.Dev>, b: seq<C.Dev>, j: nat, io: C.Io)
    requires |a| == |b| && forall i :: 0 <= i < |a| ==> a[i].id == b[i].id && a[i].rawvalue == b[i].rawvalue
    ensures C.ScanAsensors(d, a, j, io) == C.ScanAsensors(d, b, j, io)
    decreases |d.asensors| - j
  {
    hide C.LimitStop, C.FindDevice;
    if j < |d.asensors| {
      SameFind(a, b, d.asensors[j].id);
      ScanIgnoresSlots(d, a, b, j + 1, io);
      var (d1, io1) := C.LimitStop(d, io);
      LimitKeepsAsensors(d, io);
      ScanIgnoresSlots(d1, a, b, j + 1, io1);
    }
  }

  lemma LimitKeepsAsensors(d: C.Dev, io: C.Io)
    ensures C.LimitStop(d, io).0.asensors == d.asensors
  {
  }

  /** The device table, the tables of the database, and the timer's work on them. */
  class Server {
    const devs: seq<Device>
    const db: Backend
    ghost const parts: set<object>
    ghost var inserted: set<int>

    /** No two devices share a slot, and no slot is used twice. */
    ghost predicate Valid()
    {
      && db !in parts && this !in parts
      && (forall i :: 0 <= i < |devs| ==> devs[i].Parts() <= parts && devs[i].waiting != devs[i].current)
      && (forall i, j :: 0 <= i < j < |devs| ==> devs[i].Parts() !! devs[j].Parts())
    }

    ghost function Views(): (r: seq<C.Dev>)
      requires Valid()
      reads parts
      ensures |r| == |devs|
      ensures forall i :: 0 <= i < |devs| ==> r[i] == devs[i].View()
    {
      seq(|devs|, i requires 0 <= i < |devs| reads parts => devs[i].View())
    }

    ghost function View(): C.Sys
      requires Valid()
      reads this, db, parts
    {
      C.Sys(Views(), db.View(), inserted)
    }

    constructor (devs: seq<Device>, db: Backend)
      requires forall i :: 0 <= i < |devs| ==> devs[i].waiting != devs[i].current
      requires forall i, j :: 0 <= i < j < |devs| ==> devs[i].Parts() !! devs[j].Parts()
      ensures Valid() && this.devs == devs && this.db == db && inserted == db.rows.Keys
    {
      this.devs, this.db := devs, db;
      this.parts := set d, o | d in devs && o in d.Parts() :: o;
      this.inserted := db.rows.Keys;
    }

    /** gos_find_device */
    method FindDevice(id: int) returns (r: int)
      requires Valid()
      ensures r == C.FindDevice(Views(), id)
    {
      for i := 0 to |devs|
        invariant C.FindDevice(Views()[..i], id) < 0
      {
        assert Views()[..i + 1][..i] == Views()[..i];
        if devs[i].id == id {
          FoundEarly(Views(), i, id);
          return i;
        }
      }
      assert Views()[..|devs|] == Views();
      return -1;
    }

    /** gos_control_actuator_with_asensor */
    method ControlActuatorWithAsensor(pdev: Device)
      requires Valid() && pdev in devs
      modifies pdev.current, db
      ensures (pdev.View(), db.View()) == C.ControlWithAsensor(old(pdev.View()), old(Views()), old(db.View()))
      ensures db.conns == old(db.conns)
    {
      hide C.LimitStop, C.FindDevice;
      ghost var before := Views();
      if pdev.usedAsensor {
        var j := 0;
        while j < |pdev.asensors|
          invariant j <= |pdev.asensors| && db.conns == old(db.conns)
          invariant C.ScanAsensors(pdev.View(), before, j, db.View())
                    == C.ScanAsensors(old(pdev.View()), before, 0, old(db.View()))
          invariant forall i :: 0 <= i < |devs| ==> devs[i].rawvalue == before[i].rawvalue
        {
          if pdev.asensors[j].id == C.NOT_ASENSOR { break; }
          var a := FindDevice(pdev.asensors[j].id);
          SameFind(before, Views(), pdev.asensors[j].id);
          if a < 0 { break; }
          if devs[a].rawvalue != C.SIGNAL_OFF && pdev.asensors[j].kind == C.Limiter {
            LimitstopActuator(pdev, db);
          }
          j := j + 1;
        }
      }
    }

    /** One round of gos_select_and_send_command; the invariant discharges the assertion of
        gos_send_command. */
    method ServeActuator(pdev: Device)
      requires Valid() && pdev in devs
      requires I.Good(pdev.View(), db.View()) && C.ReportIsPlausible(pdev.View())
      modifies pdev.waiting, pdev.current, db
      ensures (pdev.View(), db.View()) == C.ServeActuator(old(pdev.View()), old(Views()), old(db.conns), old(db.View()))
      ensures db.conns == old(db.conns)
    {
      hide I.LogOk, I.Mirror, I.StopsPaired, I.WireOk, I.Conserves, I.Frames, I.SlotIds, I.WaitingOk, I.CurrentOk,
        C.CheckWorking, C.ScanAsensors, C.SendCommand, C.ReportIsPlausible;
      ghost var before := Views();
      I.CheckWorkingKeeps(pdev.View(), db.View());
      CheckActuatorWorkingStatus(pdev, db);
      AsensorsIgnoreSlots(pdev.View(), before, Views(), db.View());
      I.ControlWithAsensorKeeps(pdev.View(), Views(), db.View());
      ControlActuatorWithAsensor(pdev);
      SendCommand(pdev, db);
    }

    /** The body of the loop of gos_select_and_send_command. */
    method ServeRound(i: nat)
      requires Valid() && i < |devs| && R.Inv(View())
      requires devs[i].actuator ==> C.ReportIsPlausible(devs[i].View())
      modifies db, devs[i].waiting, devs[i].current
      ensures db.conns == old(db.conns)
      ensures if devs[i].actuator
              then var (d, io) := C.ServeActuator(old(devs[i].View()), old(Views()), old(db.conns), old(db.View()));
                   Views() == old(Views())[i := d] && db.View() == io
              else Views() == old(Views()) && db.View() == old(db.View())
    {
      hide R.Inv, I.Good, C.ServeActuator, C.ReportIsPlausible;
      if devs[i].actuator {
        R.GoodDevice(View(), i);
        ServeActuator(devs[i]);
      }
    }

    /** gos_select_and_send_command */
    method SelectAndSendCommand()
      requires Valid() && R.Inv(View()) && R.ReportsPlausible(Views())
      modifies db, parts
      ensures View() == C.SelectAndSend(old(View()), old(db.conns)) && db.conns == old(db.conns)
    {
      hide R.Inv, C.ServeActuator, C.ReportIsPlausible;
      ghost var s := View();
      var i := 0;
      while i < |devs|
        invariant i <= |devs|
        invariant View() == C.ServeFirst(s, db.conns, i)
        invariant db.conns == old(db.conns)
      {
        R.ServeFirstKeeps(s, db.conns, i);
        ServeRound(i);
        i := i + 1;
      }
    }

    /** The device last looked up is the one its id finds. */
    ghost predicate Cached(pdev: Device?)
      requires Valid()
      reads parts
    {
      pdev != null ==> var k := C.FindDevice(Views(), pdev.id); 0 <= k < |devs| && devs[k] == pdev
    }

    /** The device lookup of gos_read_commands, skipped while the device stays the same. */
    method LookUp(pdev: Device?, deviceid: int) returns (pdev': Device?)
      requires Valid() && Cached(pdev)
      ensures Cached(pdev')
      ensures var k := C.FindDevice(Views(), deviceid);
        if k < 0 then pdev' == null else k < |devs| && pdev' == devs[k] && pdev'.id == deviceid
    {
      pdev' := pdev;
      if pdev == null || pdev.id != deviceid {
        var r := FindDevice(deviceid);
        pdev' := if r < 0 then null else devs[r];
        assert r >= 0 ==> Views()[r] == devs[r].View();
      }
    }

    /** The last branch of the loop of gos_read_commands: the row is well-formed and allowed. */
    method TakeOne(cmd: Command, pass: int, pdev: Device?) returns (pass': int, pdev': Device?)
      requires Valid() && Cached(pdev) && cmd !in parts
      modifies db, parts
      ensures db.conns == old(db.conns) && Cached(pdev')
      ensures var k := C.FindDevice(old(Views()), cmd.deviceid);
        var held := k >= 0 && C.StopIsWaiting(old(Views())[k]);
        && pass' == (if held then cmd.deviceid else pass)
        && if k < 0 || held then Views() == old(Views()) && db.View() == old(db.View())
           else var (d, io) := C.UpdateWaiting(old(Views())[k], cmd.View(), old(db.View()));
                Views() == old(Views())[k := d] && db.View() == io
    {
      hide C.UpdateWaiting, C.FindDevice;
      ghost var before := Views();
      pass' := pass;
      pdev' := LookUp(pdev, cmd.deviceid);
      if pdev' == null { return; }
      ghost var k := C.FindDevice(before, cmd.deviceid);
      assert before[k] == pdev'.View();
      var pwaiting := pdev'.waiting;
      if pwaiting.stat == C.Waiting && pwaiting.tm == 0 {
        pass' := cmd.deviceid;
      } else {
        UpdateWaitingCommand(pdev', cmd, db);
        SameFind(before, Views(), pdev'.id);
      }
    }

    /** The body of the loop of gos_read_commands; `cmd` is its local command. */
    method ReadOne(sel: C.Selected, auto: bool, pass: int, pdev: Device?, cmd: Command)
        returns (pass': int, pdev': Device?)
      requires Valid() && Cached(pdev) && cmd !in parts
      modifies cmd, db, parts
      ensures C.Scan(View(), pass') == C.ReadRow(C.Scan(old(View()), pass), sel, auto)
      ensures Cached(pdev') && db.conns == old(db.conns)
    {
      hide C.UpdateStatus, C.UpdateWaiting, C.SetCommand, C.WrongArguments, C.FindDevice;
      pass', pdev' := pass, pdev;
      var row := sel.row;
      cmd.Set(sel.id, row.deviceid, row.argument, row.worktime, row.ctrltype, row.ctrlid, row.ctrlarg);
      if C.WrongArguments(cmd.arg, cmd.tm) {
        UpdateCommandStatus(cmd, C.WrongCommand, db);
        return;
      }
      if cmd.deviceid == pass { return; }
      if auto && !(|cmd.ctrltype| > 0 && cmd.ctrltype[0] == 'a') {
        UpdateCommandStatus(cmd, C.ByAutoControl, db);
      } else {
        pass', pdev' := TakeOne(cmd, pass, pdev);
      }
    }

    /** gos_read_commands on the rows the database selected. */
    method ReadCommands(result: seq<C.Selected>, auto: bool)
      requires Valid()
      modifies db, parts
      ensures View() == C.ReadCommands(old(View()), result, auto) && db.conns == old(db.conns)
    {
      hide C.ReadRow;
      ghost var s := View();
      var cmd := new Command();
      var pdev: Device? := null;
      var pass := -1;
      assert result[..0] == [];
      for i := 0 to |result|
        invariant C.Scan(View(), pass) == C.ReadRows(s, result[..i], auto)
        invariant db.conns == old(db.conns) && Cached(pdev)
      {
        assert result[..i + 1][..i] == result[..i];
        pass, pdev := ReadOne(result[i], auto, pass, pdev, cmd);
      }
      assert result[..|result|] == result;
    }

    /** gos_control: one tick of the timer is the tick of the model, and keeps the run invariant. */
    method Control(result: seq<C.Selected>, auto: bool)
      requires Valid() && R.Inv(View()) && R.ReportsPlausible(Views())
      requires C.IsSelection(db.rows, result)
      modifies db, parts
      ensures View() == C.Tick(old(View()), result, auto, old(db.conns))
      ensures R.Inv(View()) && db.conns == old(db.conns)
    {
      hide R.Inv, R.ReportsPlausible, C.ReadRows, C.ServeFirst, C.IsSelection;
      ghost var s := View();
      R.ReadCommandsKeeps(s, result, auto);
      R.PlausibleAfterReading(s.devs, C.ReadCommands(s, result, auto).devs);
      R.TickKeeps(s, result, auto, db.conns);
      ReadCommands(result, auto);
      SelectAndSendCommand();
    }
  }
}
