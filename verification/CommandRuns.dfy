/** Runs of the whole server: the invariant of every reachable state, and what follows
    from it for the commands over a run. */
module CommandRuns {
  import opened Words
  import opened Commands
  import opened CommandInvariants

  // ------------------------------------------------------------- the invariant

  /** How many live slots of the device table hold the command. */
  function HeldBy(devs: seq<Dev>, id: int): nat
  {
    if devs == [] then 0 else HeldBy(devs[..|devs| - 1], id) + Held(devs[|devs| - 1], id)
  }

  /** In how many places the command is: the queue of pending rows, the slots, the archive. */
  function TotalPlaces(s: Sys, id: int): nat
  {
    One(Pending(s.io, id)) + HeldBy(s.devs, id) + HistCount(s.io.history, id)
  }

  ghost predicate DistinctIds(devs: seq<Dev>)
  {
    forall i, j :: 0 <= i < j < |devs| ==> devs[i].id != devs[j].id
  }

  /** Every command ever inserted is in exactly one place, and has a row exactly until it is archived. */
  ghost predicate Conserved(s: Sys)
  {
    && (forall id :: TotalPlaces(s, id) == One(id in s.inserted))
    && (forall id :: Records(s.io, id) == One(id in s.inserted))
  }

  ghost predicate DevsOk(devs: seq<Dev>, io: Io)
  {
    forall i :: 0 <= i < |devs| ==> Shape(devs[i]) && Mirror(devs[i], io)
  }

  ghost predicate Inv(s: Sys)
  {
    && DistinctIds(s.devs)
    && DevsOk(s.devs, s.io)
    && LogOk(s.io) && StopsPaired(s.io.history) && WireOk(s.io.wire)
    && Conserved(s)
  }

  lemma GoodDevice(s: Sys, i: int)
    requires Inv(s) && 0 <= i < |s.devs|
    ensures Good(s.devs[i], s.io)
  {
    hide Shape, Mirror, LogOk, StopsPaired, WireOk, Conserved, DistinctIds;
  }

  // ------------------------------------------------------------------ counting

  lemma {:induction false} HeldUpdate(devs: seq<Dev>, i: int, d: Dev, id: int)
    requires 0 <= i < |devs|
    ensures HeldBy(devs[i := d], id) + Held(devs[i], id) == HeldBy(devs, id) + Held(d, id)
  {
    var n := |devs| - 1;
    if i == n {
      assert devs[i := d][..n] == devs[..n];
    } else {
      assert devs[i := d][..n] == devs[..n][i := d];
      HeldUpdate(devs[..n], i, d, id);
    }
  }

  lemma {:induction false} HeldAtLeast(devs: seq<Dev>, i: int, id: int)
    requires 0 <= i < |devs|
    ensures HeldBy(devs, id) >= Held(devs[i], id)
  {
    if i < |devs| - 1 { HeldAtLeast(devs[..|devs| - 1], i, id); }
  }

  lemma {:induction false} HeldByTwo(devs: seq<Dev>, i: int, j: int, id: int)
    requires 0 <= i < j < |devs|
    ensures HeldBy(devs, id) >= Held(devs[i], id) + Held(devs[j], id)
  {
    if j == |devs| - 1 {
      HeldAtLeast(devs[..j], i, id);
    } else {
      HeldByTwo(devs[..|devs| - 1], i, j, id);
    }
  }

  lemma {:induction false} HeldWitness(devs: seq<Dev>, id: int) returns (i: int)
    requires HeldBy(devs, id) > 0
    ensures 0 <= i < |devs| && Held(devs[i], id) > 0
  {
    if Held(devs[|devs| - 1], id) > 0 { i := |devs| - 1; }
    else { i := HeldWitness(devs[..|devs| - 1], id); }
  }

  /** The rows a device operation may touch belong to no slot of another device. */
  lemma OthersApart(s: Sys, i: int, j: int, id: int)
    requires Conserved(s) && 0 <= i < |s.devs| && 0 <= j < |s.devs| && i != j
    requires id in SlotIds(s.devs[i]) || Pending(s.io, id)
    ensures id !in SlotIds(s.devs[j])
  {
    assert TotalPlaces(s, id) <= 1;
    if i < j { HeldByTwo(s.devs, i, j, id); } else { HeldByTwo(s.devs, j, i, id); }
    HeldAtLeast(s.devs, j, id);
  }

  lemma MirrorFramed(d: Dev, io: Io, io': Io, touched: set<int>)
    requires Mirror(d, io) && Frames(io, io', touched) && touched !! SlotIds(d)
    ensures Mirror(d, io')
  {
  }

  // ------------------------------------------------------ one device takes a step

  lemma SwapConserved(s: Sys, i: int, d: Dev, io: Io)
    requires Conserved(s) && 0 <= i < |s.devs| && Conserves(s.devs[i], s.io, d, io)
    ensures Conserved(s.(devs := s.devs[i := d], io := io))
  {
    var s' := s.(devs := s.devs[i := d], io := io);
    forall id ensures TotalPlaces(s', id) == One(id in s.inserted) {
      HeldUpdate(s.devs, i, d, id);
      assert Places(d, io, id) == Places(s.devs[i], s.io, id);
      assert TotalPlaces(s, id) == One(id in s.inserted);
    }
    forall id ensures Records(io, id) == One(id in s.inserted) {
      assert Records(io, id) == Records(s.io, id);
    }
  }

  lemma SwapDevsOk(s: Sys, i: int, d: Dev, io: Io, touched: set<int>)
    requires Conserved(s) && DevsOk(s.devs, s.io) && 0 <= i < |s.devs|
    requires Shape(d) && Mirror(d, io) && Frames(s.io, io, touched)
    requires forall id :: id in touched ==> id in SlotIds(s.devs[i]) || Pending(s.io, id)
    ensures DevsOk(s.devs[i := d], io)
  {
    hide Shape, Mirror, Conserved, Frames, SlotIds, Pending;
    forall j | 0 <= j < |s.devs| && j != i ensures Mirror(s.devs[j], io) {
      forall id | id in touched ensures id !in SlotIds(s.devs[j]) { OthersApart(s, i, j, id); }
      MirrorFramed(s.devs[j], s.io, io, touched);
    }
  }

  lemma SwapKeeps(s: Sys, i: int, d: Dev, io: Io, touched: set<int>)
    requires Inv(s) && 0 <= i < |s.devs|
    requires Good(d, io) && SameDevice(s.devs[i], d) && Conserves(s.devs[i], s.io, d, io)
    requires Frames(s.io, io, touched)
    requires forall id :: id in touched ==> id in SlotIds(s.devs[i]) || Pending(s.io, id)
    ensures Inv(s.(devs := s.devs[i := d], io := io))
  {
    hide Shape, Mirror, LogOk, StopsPaired, WireOk, Conserved, Conserves, Frames, SlotIds, Pending, DevsOk;
    SwapConserved(s, i, d, io);
    SwapDevsOk(s, i, d, io, touched);
  }

  // ------------------------------------------------------------ reading commands

  /** A rejected row touches no slot. */
  lemma RejectInv(s: Sys, c: Cmd, st: Status)
    requires Inv(s) && Pending(s.io, c.id) && !c.Live()
    requires st == WrongCommand || st == ByAutoControl
    ensures Inv(s.(io := UpdateStatus(c, st, s.io).1))
  {
    hide LogOk, UpdateStatus, StopsPaired, WireOk, Shape, Mirror, SlotIds, DistinctIds;
    var io := UpdateStatus(c, st, s.io).1;
    var s' := s.(io := io);
    RejectKeeps(c, st, s.io);
    forall j | 0 <= j < |s.devs| ensures Mirror(s.devs[j], io) {
      PendingApart(s, j, c.id);
      MirrorFramed(s.devs[j], s.io, io, {c.id});
    }
    forall id ensures TotalPlaces(s', id) == One(id in s.inserted) {
      assert TotalPlaces(s, id) == One(id in s.inserted);
    }
    forall id ensures Records(io, id) == One(id in s.inserted) {
      assert Records(io, id) == Records(s.io, id);
    }
  }

  lemma PendingApart(s: Sys, j: int, id: int)
    requires Conserved(s) && 0 <= j < |s.devs| && Pending(s.io, id)
    ensures id !in SlotIds(s.devs[j])
  {
    HeldAtLeast(s.devs, j, id);
    assert TotalPlaces(s, id) <= 1;
  }

  /** Reading commands never changes what the actuator does or reports. */
  predicate OnlyWaitingChanged(devs: seq<Dev>, devs': seq<Dev>)
  {
    |devs'| == |devs| && forall i :: 0 <= i < |devs| ==> devs'[i] == devs[i].(waiting := devs'[i].waiting)
  }

  /** Rows still pending, other than the row just read, are as they were. */
  ghost predicate PendingKept(io: Io, io': Io, id: int)
  {
    forall x :: x != id && Pending(io, x) ==> x in io'.rows && io'.rows[x] == io.rows[x]
  }

  lemma FramesKeepPending(s: Sys, io': Io, i: int, id: int)
    requires Conserved(s) && 0 <= i < |s.devs|
    requires Frames(s.io, io', SlotIds(s.devs[i]) + {id})
    ensures PendingKept(s.io, io', id)
  {
    forall x | x != id && Pending(s.io, x) ensures x in io'.rows && io'.rows[x] == s.io.rows[x] {
      PendingApart(s, i, x);
    }
  }

  lemma ReadRowKeeps(st: Scan, r: Selected, auto: bool)
    requires Inv(st.sys) && Pending(st.sys.io, r.id)
    ensures var st' := ReadRow(st, r, auto);
      && Inv(st'.sys)
      && OnlyWaitingChanged(st.sys.devs, st'.sys.devs)
      && st'.sys.inserted == st.sys.inserted
      && PendingKept(st.sys.io, st'.sys.io, r.id)
      && st'.sys.io.wire == st.sys.io.wire && st.sys.io.history <= st'.sys.io.history
  {
    hide LogOk, UpdateStatus, StopsPaired, WireOk, Shape, Mirror, ParseArgument, WrongArguments,
      LoadCommand, UpdateWaiting, Conserves, Records, Conserved, DevsOk, DistinctIds, SlotIds, FindDevice;
    var s := st.sys;
    var c := LoadCommand(r);
    LoadedCommand(r);
    if IsWrong(c) {
      RejectInv(s, c, WrongCommand);
      RejectKeeps(c, WrongCommand, s.io);
    } else if c.deviceid == st.pass {
    } else if auto && !c.IsAuto() {
      RejectInv(s, c, ByAutoControl);
      RejectKeeps(c, ByAutoControl, s.io);
    } else {
      var i := FindDevice(s.devs, c.deviceid);
      if i >= 0 && !StopIsWaiting(s.devs[i]) {
        GoodDevice(s, i);
        UpdateWaitingKeeps(s.devs[i], c, s.io);
        var (d, io) := UpdateWaiting(s.devs[i], c, s.io);
        SwapKeeps(s, i, d, io, SlotIds(s.devs[i]) + {c.id});
        FramesKeepPending(s, io, i, c.id);
      }
    }
  }

  lemma SelectionHasDistinctIds(rows: map<int, Row>, batch: seq<Selected>, j: int, k: int)
    requires IsSelection(rows, batch) && 0 <= j < k < |batch|
    ensures batch[j].id != batch[k].id
  {
    assert Before(batch[j], batch[k]);
  }

  /** After any number of rows: the invariant, and the rest of the batch still pending. */
  lemma {:induction false} ReadRowsKeeps(s: Sys, batch: seq<Selected>, n: nat, auto: bool)
    requires Inv(s) && IsSelection(s.io.rows, batch) && n <= |batch|
    ensures var st := ReadRows(s, batch[..n], auto);
      && Inv(st.sys)
      && OnlyWaitingChanged(s.devs, st.sys.devs)
      && st.sys.inserted == s.inserted
      && st.sys.io.wire == s.io.wire && s.io.history <= st.sys.io.history
      && (forall k :: n <= k < |batch| ==>
            batch[k].id in st.sys.io.rows && st.sys.io.rows[batch[k].id] == batch[k].row)
  {
    hide Inv, ReadRow;
    if n > 0 {
      ReadRowsKeeps(s, batch, n - 1, auto);
      assert batch[..n][..n - 1] == batch[..n - 1];
      var st := ReadRows(s, batch[..n - 1], auto);
      ReadRowKeeps(st, batch[n - 1], auto);
      var st' := ReadRow(st, batch[n - 1], auto);
      forall k | n <= k < |batch|
        ensures batch[k].id in st'.sys.io.rows && st'.sys.io.rows[batch[k].id] == batch[k].row
      {
        SelectionHasDistinctIds(s.io.rows, batch, n - 1, k);
        assert Pending(st.sys.io, batch[k].id);
      }
    } else {
      assert batch[..0] == [];
    }
  }

  lemma ReadCommandsKeeps(s: Sys, batch: seq<Selected>, auto: bool)
    requires Inv(s) && IsSelection(s.io.rows, batch)
    ensures var s' := ReadCommands(s, batch, auto);
      && Inv(s') && OnlyWaitingChanged(s.devs, s'.devs)
      && s'.inserted == s.inserted && s'.io.wire == s.io.wire && s.io.history <= s'.io.history
  {
    ReadRowsKeeps(s, batch, |batch|, auto);
    assert batch[..|batch|] == batch;
  }

  // ------------------------------------------------------------- serving actuators

  ghost predicate ReportsPlausible(devs: seq<Dev>)
  {
    forall i :: 0 <= i < |devs| && devs[i].actuator ==> ReportIsPlausible(devs[i])
  }

  lemma {:induction false} ServeFirstKeeps(s: Sys, conns: set<int>, n: nat)
    requires Inv(s) && ReportsPlausible(s.devs) && n <= |s.devs|
    ensures var r := ServeFirst(s, conns, n);
      && Inv(r) && r.inserted == s.inserted
      && (forall i :: 0 <= i < |s.devs| ==> SameDevice(s.devs[i], r.devs[i]))
      && (forall i :: n <= i < |s.devs| ==> r.devs[i] == s.devs[i])
  {
    hide Inv, Good, ServeActuator, ReportIsPlausible, Conserves, Frames, SlotIds;
    if n > 0 {
      ServeFirstKeeps(s, conns, n - 1);
      var r := ServeFirst(s, conns, n - 1);
      var d := r.devs[n - 1];
      if d.actuator {
        GoodDevice(r, n - 1);
        ServeActuatorKeeps(d, r.devs, conns, r.io);
        var (d', io') := ServeActuator(d, r.devs, conns, r.io);
        SwapKeeps(r, n - 1, d', io', SlotIds(d));
      }
    }
  }

  lemma PlausibleAfterReading(devs: seq<Dev>, devs': seq<Dev>)
    requires ReportsPlausible(devs) && OnlyWaitingChanged(devs, devs')
    ensures ReportsPlausible(devs')
  {
    hide ParseArgument;
    forall i | 0 <= i < |devs'| && devs'[i].actuator ensures ReportIsPlausible(devs'[i]) {
      assert ReportIsPlausible(devs[i]);
    }
  }

  lemma TickKeeps(s: Sys, batch: seq<Selected>, auto: bool, conns: set<int>)
    requires Inv(s) && IsSelection(s.io.rows, batch) && ReportsPlausible(s.devs)
    ensures Inv(Tick(s, batch, auto, conns)) && Tick(s, batch, auto, conns).inserted == s.inserted
  {
    hide Inv, ReadCommands, ServeFirst, ReportsPlausible;
    ReadCommandsKeeps(s, batch, auto);
    var r := ReadCommands(s, batch, auto);
    PlausibleAfterReading(s.devs, r.devs);
    ServeFirstKeeps(r, conns, |r.devs|);
  }
}
