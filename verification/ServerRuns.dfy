/** Runs of the operating server: rows appear, actuators and limiters report, the timer
    ticks, the server restarts. What holds in every reachable state. */
module ServerRuns {
  import opened Words
  import opened Commands
  import opened CommandInvariants
  import opened CommandRuns
  import opened LifeCycle

  datatype Action =
    | Insert(id: int, row: Row)
    | Report(device: nat, raw: int)
    | Timer(batch: seq<Selected>, auto: bool, conns: set<int>)
    | Restart(order: seq<int>)

  predicate NoRepeats(order: seq<int>)
  {
    forall j, k :: 0 <= j < k < |order| ==> order[j] != order[k]
  }

  ghost predicate Enabled(s: Sys, a: Action)
  {
    match a
    case Insert(id, row) => id !in s.inserted && row.status == NoCommand
    case Report(i, _) => i < |s.devs|
    case Timer(batch, _, _) => IsSelection(s.io.rows, batch) && ReportsPlausible(s.devs)
    case Restart(order) =>
      NoRepeats(order) && forall id :: id in order <==> id in s.io.rows && s.io.rows[id].status != NoCommand
  }

  const IDLE := Cmd(0, 0, 0, 0, 0, 0, "", 0, 0, 0, NoCommand)

  /** The device table as it is loaded: zeroed slots and readings. */
  function Fresh(devs: seq<Dev>): (r: seq<Dev>)
    ensures |r| == |devs|
    ensures forall i :: 0 <= i < |devs| ==> r[i] == devs[i].(waiting := IDLE, current := IDLE, rawvalue := 0)
  {
    if devs == [] then []
    else Fresh(devs[..|devs| - 1]) + [devs[|devs| - 1].(waiting := IDLE, current := IDLE, rawvalue := 0)]
  }

  /** What `insert into gos_control_history (select * from gos_control ...)` keeps of a row. */
  function RowAsCmd(id: int, r: Row): Cmd
  {
    Cmd(id, r.deviceid, r.argument, r.worktime, r.ctrlarg, r.ctrlid, r.ctrltype, r.sentcnt, r.stopcnt, 0, r.status)
  }

  /** gos_init_control on the rows listed in `order`. */
  function MoveRows(io: Io, order: seq<int>): Io
    requires forall id :: id in order ==> id in io.rows
  {
    io.(history := io.history + seq(|order|, k requires 0 <= k < |order| =>
                                             RowAsCmd(order[k], io.rows[order[k]])),
        rows := io.rows - set id | id in order)
  }

  function Apply(s: Sys, a: Action): Sys
    requires Enabled(s, a)
  {
    match a
    case Insert(id, row) => s.(io := s.io.(rows := s.io.rows[id := row]), inserted := s.inserted + {id})
    case Report(i, raw) => s.(devs := s.devs[i := s.devs[i].(rawvalue := raw)])
    case Timer(batch, auto, conns) => Tick(s, batch, auto, conns)
    case Restart(order) => s.(devs := Fresh(s.devs), io := MoveRows(s.io, order))
  }

  function Start(devs: seq<Dev>): Sys { Sys(Fresh(devs), Io(map[], [], [], []), {}) }

  /** `run` is a sequence of states that starts freshly loaded and moves by `acts`. */
  ghost predicate IsRun(devs: seq<Dev>, acts: seq<Action>, run: seq<Sys>)
  {
    && |run| == |acts| + 1
    && run[0] == Start(devs)
    && forall k :: 0 <= k < |acts| ==> Enabled(run[k], acts[k]) && run[k + 1] == Apply(run[k], acts[k])
  }

  // ----------------------------------------------------------- every action keeps Inv

  lemma {:induction false} IdleHeldBy(devs: seq<Dev>, id: int)
    requires forall i :: 0 <= i < |devs| ==> !devs[i].waiting.Live() && !devs[i].current.Live()
    ensures HeldBy(devs, id) == 0
  {
    if devs != [] { IdleHeldBy(devs[..|devs| - 1], id); }
  }

  lemma StartInv(devs: seq<Dev>)
    requires DistinctIds(devs)
    ensures Inv(Start(devs))
  {
    var s := Start(devs);
    forall id ensures TotalPlaces(s, id) == 0 { IdleHeldBy(s.devs, id); }
  }

  lemma InsertInv(s: Sys, id: int, row: Row)
    requires Inv(s) && id !in s.inserted && row.status == NoCommand
    ensures Inv(Apply(s, Insert(id, row)))
  {
    hide Shape, WireOk, StopsPaired, DistinctIds, PathOk, LastStatus, HistCount;
    var s' := Apply(s, Insert(id, row));
    assert Records(s.io, id) == 0;
    forall i | 0 <= i < |s.devs| ensures Mirror(s'.devs[i], s'.io) {}
    forall x ensures TotalPlaces(s', x) == One(x in s'.inserted) && Records(s'.io, x) == One(x in s'.inserted) {
      assert TotalPlaces(s, x) == One(x in s.inserted);
      assert Records(s.io, x) == One(x in s.inserted);
    }
    forall x | LastStatus(s'.io.log, x) != NoCommand ensures Records(s'.io, x) > 0 {
      assert Records(s.io, x) > 0;
    }
  }

  lemma ReportInv(s: Sys, i: nat, raw: int)
    requires Inv(s) && i < |s.devs|
    ensures Inv(Apply(s, Report(i, raw)))
  {
    hide WireOk, StopsPaired, LogOk, Records, HistCount, ParseArgument, WrongArguments;
    var s' := Apply(s, Report(i, raw));
    forall id ensures TotalPlaces(s', id) == One(id in s.inserted) {
      HeldUpdate(s.devs, i, s'.devs[i], id);
      assert TotalPlaces(s, id) == One(id in s.inserted);
    }
  }

  /** A row with a status belongs to a slot that shows the same status. */
  lemma RowHasOwner(s: Sys, id: int) returns (i: int)
    requires Inv(s) && id in s.io.rows && s.io.rows[id].status != NoCommand
    ensures 0 <= i < |s.devs| && Held(s.devs[i], id) == 1
    ensures forall j :: 0 <= j < |s.devs| && j != i ==> Held(s.devs[j], id) == 0
    ensures s.io.rows[id].status in {Waiting, Sent, Working, StoppingByAsensor, StoppingByStop}
  {
    hide WireOk, StopsPaired, LogOk, ParseArgument, WrongArguments;
    assert Records(s.io, id) == One(id in s.inserted) && TotalPlaces(s, id) == One(id in s.inserted);
    i := HeldWitness(s.devs, id);
    HeldAtLeast(s.devs, i, id);
    assert Shape(s.devs[i]) && Mirror(s.devs[i], s.io);
    forall j | 0 <= j < |s.devs| && j != i ensures Held(s.devs[j], id) == 0 {
      if i < j { HeldByTwo(s.devs, i, j, id); } else { HeldByTwo(s.devs, j, i, id); }
    }
  }

  lemma {:induction false} HistCountAppend(h: seq<Cmd>, e: seq<Cmd>, id: int)
    ensures HistCount(h + e, id) == HistCount(h, id) + HistCount(e, id)
  {
    if e == [] {
      assert h + e == h;
    } else {
      assert (h + e)[..|h + e| - 1] == h + e[..|e| - 1];
      HistCountAppend(h, e[..|e| - 1], id);
    }
  }

  lemma {:induction false} HistCountDistinct(e: seq<Cmd>, order: seq<int>, id: int)
    requires |e| == |order| && NoRepeats(order)
    requires forall k :: 0 <= k < |e| ==> e[k].id == order[k]
    ensures HistCount(e, id) == One(id in order)
  {
    if e != [] {
      var n := |e| - 1;
      HistCountDistinct(e[..n], order[..n], id);
      assert order == order[..n] + [order[n]];
    }
  }

  lemma MovedCounts(s: Sys, order: seq<int>)
    requires Inv(s) && Enabled(s, Restart(order))
    ensures var io' := MoveRows(s.io, order);
      && (forall id :: HistCount(io'.history, id) == HistCount(s.io.history, id) + One(id in order))
      && (forall id :: Records(io', id) == Records(s.io, id))
  {
    hide Inv, Records;
    var io' := MoveRows(s.io, order);
    var h, e := s.io.history, io'.history[|s.io.history|..];
    assert io'.history == h + e;
    forall id ensures HistCount(io'.history, id) == HistCount(h, id) + One(id in order) {
      HistCountAppend(h, e, id);
      HistCountDistinct(e, order, id);
    }
    forall id ensures Records(io', id) == Records(s.io, id) {
      MovedRecords(s.io, order, id);
    }
  }

  lemma MovedHistory(s: Sys, order: seq<int>)
    requires Inv(s) && Enabled(s, Restart(order))
    ensures var io' := MoveRows(s.io, order);
      && StopsPaired(io'.history)
      && ArchiveOk(io')
      && (forall id :: HistCount(io'.history, id) == HistCount(s.io.history, id) + One(id in order))
      && (forall id :: Records(io', id) == Records(s.io, id))
  {
    MovedCounts(s, order);
    MovedPairs(s, order);
    MovedArchive(s, order);
    hide Inv, StopsPaired, ArchiveOk, MoveRows, Records, HistCount;
  }

  lemma MovedPairs(s: Sys, order: seq<int>)
    requires Inv(s) && Enabled(s, Restart(order))
    ensures StopsPaired(MoveRows(s.io, order).history)
  {
    hide WireOk, Shape, Mirror, DevsOk, LogOk, DistinctIds, Conserved, Records, HistCount;
    var h, io' := s.io.history, MoveRows(s.io, order);
    forall k | 0 <= k < |io'.history| && io'.history[k].stat == FinishedByStop
      ensures k + 1 < |h|
    {
      if k >= |h| {
        var id := order[k - |h|];
        assert id in order;
        var i := RowHasOwner(s, id);
      }
    }
  }

  lemma MovedArchive(s: Sys, order: seq<int>)
    requires Inv(s) && Enabled(s, Restart(order))
    ensures ArchiveOk(MoveRows(s.io, order))
  {
    MovedCounts(s, order);
    hide WireOk, Shape, Mirror, DevsOk, PathOk, StopsPaired, LastStatus, DistinctIds, Conserved, Records, HistCount;
    var h, io' := s.io.history, MoveRows(s.io, order);
    forall k | 0 <= k < |io'.history| ensures io'.history[k].stat == LastStatus(io'.log, io'.history[k].id) {
      if k >= |h| { assert order[k - |h|] in order; }
    }
  }

  lemma MovedRecords(io: Io, order: seq<int>, id: int)
    requires NoRepeats(order) && forall x :: x in order ==> x in io.rows
    requires HistCount(MoveRows(io, order).history, id) == HistCount(io.history, id) + One(id in order)
    ensures Records(MoveRows(io, order), id) == Records(io, id)
  {
  }

  lemma RestartConserves(s: Sys, order: seq<int>)
    requires Inv(s) && Enabled(s, Restart(order))
    ensures Conserved(Apply(s, Restart(order)))
  {
    hide StopsPaired, WireOk, ParseArgument, WrongArguments, HistCount, PathOk, LastStatus, ArchiveOk, LogOk, DevsOk;
    var s' := Apply(s, Restart(order));
    MovedCounts(s, order);
    forall id ensures TotalPlaces(s', id) == One(id in s.inserted) {
      IdleHeldBy(s'.devs, id);
      assert TotalPlaces(s, id) == One(id in s.inserted);
      assert Records(s.io, id) == One(id in s.inserted);
      if id in order {
        var i := RowHasOwner(s, id);
        HeldAtLeast(s.devs, i, id);
      } else if id in s.io.rows {
        assert Pending(s.io, id) && Pending(s'.io, id);
      }
    }
    forall id ensures Records(s'.io, id) == One(id in s.inserted) {
      assert Records(s.io, id) == One(id in s.inserted);
    }
  }

  lemma RestartLog(s: Sys, order: seq<int>)
    requires Inv(s) && Enabled(s, Restart(order))
    ensures LogOk(MoveRows(s.io, order)) && StopsPaired(MoveRows(s.io, order).history)
  {
    hide StopsPaired, WireOk, HistCount, PathOk, LastStatus, ArchiveOk, Conserved, DevsOk, Records;
    MovedHistory(s, order);
    var io' := MoveRows(s.io, order);
    forall id | LastStatus(io'.log, id) != NoCommand ensures Records(io', id) > 0 {
      assert Records(s.io, id) > 0;
    }
  }

  lemma RestartInv(s: Sys, order: seq<int>)
    requires Inv(s) && Enabled(s, Restart(order))
    ensures Inv(Apply(s, Restart(order)))
  {
    hide StopsPaired, WireOk, ParseArgument, WrongArguments, LogOk, Conserved;
    RestartConserves(s, order);
    RestartLog(s, order);
  }

  /** The archive entry of row id after a restart. */
  ghost predicate MovedAs(h: seq<Cmd>, h': seq<Cmd>, id: int, row: Row)
  {
    exists k :: |h| <= k < |h'| && ShowsRow(h'[k], id, row)
  }

  /** The entry has every column of the row. */
  predicate ShowsRow(c: Cmd, id: int, row: Row)
  {
    && c.id == id && c.deviceid == row.deviceid && c.arg == row.argument && c.tm == row.worktime
    && c.ctrltype == row.ctrltype && c.ctrlid == row.ctrlid && c.ctrlarg == row.ctrlarg
    && c.workcnt == row.sentcnt && c.stopcnt == row.stopcnt && c.stat == row.status
  }

  /** A restart archives every command of a slot with the status the slot showed, leaves the
      pending rows alone and frees all slots. */
  lemma RestartArchives(s: Sys, order: seq<int>)
    requires Inv(s) && Enabled(s, Restart(order))
    ensures var s' := Apply(s, Restart(order));
      && s.io.history <= s'.io.history
      && (forall i, c :: 0 <= i < |s.devs| && c in [s.devs[i].waiting, s.devs[i].current] && c.Live() ==>
            && c.id in s.io.rows && s.io.rows[c.id].status == c.stat && c.id !in s'.io.rows
            && MovedAs(s.io.history, s'.io.history, c.id, s.io.rows[c.id]))
      && (forall id :: id in s'.io.rows <==> Pending(s.io, id))
      && (forall id :: id in s'.io.rows ==> s'.io.rows[id] == s.io.rows[id])
      && (forall i :: 0 <= i < |s'.devs| ==>
            !s'.devs[i].waiting.Live() && !s'.devs[i].current.Live() && ParseArgument(s'.devs[i].rawvalue) == (0, 0))
  {
    hide LogOk, StopsPaired, WireOk, Shape, Conserved, DistinctIds;
    var s' := Apply(s, Restart(order));
    forall i, c | 0 <= i < |s.devs| && c in [s.devs[i].waiting, s.devs[i].current] && c.Live()
      ensures c.id in s.io.rows && s.io.rows[c.id].status == c.stat && c.id !in s'.io.rows
      ensures MovedAs(s.io.history, s'.io.history, c.id, s.io.rows[c.id])
    {
      assert Mirror(s.devs[i], s.io);
      assert c.stat != NoCommand && c.id in order;
      var k :| 0 <= k < |order| && order[k] == c.id;
      assert s'.io.history[|s.io.history| + k] == RowAsCmd(c.id, s.io.rows[c.id]);
    }
  }

  lemma ApplyInv(s: Sys, a: Action)
    requires Inv(s) && Enabled(s, a)
    ensures Inv(Apply(s, a))
  {
    hide Inv, Tick, MoveRows, Fresh, ReportsPlausible, IsSelection;
    match a
    case Insert(id, row) => InsertInv(s, id, row);
    case Report(i, raw) => ReportInv(s, i, raw);
    case Timer(batch, auto, conns) => TickKeeps(s, batch, auto, conns);
    case Restart(order) => RestartInv(s, order);
  }

  /** The invariant holds in every state of every run. */
  lemma {:induction false} RunInv(devs: seq<Dev>, acts: seq<Action>, run: seq<Sys>, n: nat)
    requires DistinctIds(devs) && IsRun(devs, acts, run) && n <= |acts|
    ensures Inv(run[n])
  {
    hide Inv, Apply, Start, Enabled, DistinctIds;
    if n == 0 { StartInv(devs); }
    else {
      RunInv(devs, acts, run, n - 1);
      ApplyInv(run[n - 1], acts[n - 1]);
    }
  }
}
