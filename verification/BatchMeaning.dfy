/** What gos_read_commands does with a batch of pending rows, stated row by row from the
    sorted batch alone, without the variables its loop carries. */
module BatchMeaning {
  import opened Words
  import opened Commands
  import opened CommandInvariants
  import opened CommandRuns
  import opened CommandTheorems

  function Device(batch: seq<Selected>, k: nat): int
    requires k < |batch|
  {
    batch[k].row.deviceid
  }

  /** A row that may be taken: well-formed, allowed in this mode, for a known device. */
  predicate Admissible(devs: seq<Dev>, batch: seq<Selected>, auto: bool, k: nat)
    requires k < |batch|
  {
    var c := LoadCommand(batch[k]);
    !IsWrong(c) && (auto ==> c.IsAuto()) && FindDevice(devs, Device(batch, k)) >= 0
  }

  /** Before row n: a stop command waits for the device, or an admissible one came by. */
  predicate StopBefore(devs: seq<Dev>, batch: seq<Selected>, auto: bool, n: nat, id: int)
    requires n <= |batch|
  {
    || (FindDevice(devs, id) >= 0 && StopIsWaiting(devs[FindDevice(devs, id)]))
    || exists j :: 0 <= j < n && Device(batch, j) == id && Admissible(devs, batch, auto, j)
                   && LoadCommand(batch[j]).IsStop()
  }

  /** Row k is an admissible row that a stop command keeps out of the waiting slot. */
  predicate Refused(devs: seq<Dev>, batch: seq<Selected>, auto: bool, k: nat)
    requires k < |batch|
  {
    Admissible(devs, batch, auto, k) && StopBefore(devs, batch, auto, k, Device(batch, k))
  }

  /** Row k comes after a refused row of its device (or names the unset device id -1). */
  predicate HeldBack(devs: seq<Dev>, batch: seq<Selected>, auto: bool, k: nat)
    requires k < |batch|
  {
    || Device(batch, k) == -1
    || exists j :: 0 <= j < k && Device(batch, j) == Device(batch, k) && Refused(devs, batch, auto, j)
  }

  datatype Outcome = Rejected(status: Status) | LeftPending | Accepted

  /** What happens to row k. */
  function OutcomeOf(devs: seq<Dev>, batch: seq<Selected>, auto: bool, k: nat): Outcome
    requires k < |batch|
  {
    var c := LoadCommand(batch[k]);
    if IsWrong(c) then Rejected(WrongCommand)
    else if HeldBack(devs, batch, auto, k) then LeftPending
    else if auto && !c.IsAuto() then Rejected(ByAutoControl)
    else if !Admissible(devs, batch, auto, k) || Refused(devs, batch, auto, k) then LeftPending
    else Accepted
  }

  /** The last accepted row for a device among the first n, or -1. */
  function LastAccepted(devs: seq<Dev>, batch: seq<Selected>, auto: bool, n: nat, id: int): (l: int)
    requires n <= |batch|
    ensures -1 <= l < n
    ensures l >= 0 ==> Device(batch, l) == id && OutcomeOf(devs, batch, auto, l) == Accepted
    ensures forall j :: l < j < n && Device(batch, j) == id ==> OutcomeOf(devs, batch, auto, j) != Accepted
  {
    if n == 0 then -1
    else if Device(batch, n - 1) == id && OutcomeOf(devs, batch, auto, n - 1) == Accepted then n - 1
    else LastAccepted(devs, batch, auto, n - 1, id)
  }

  /** The last refused row among the first n, or -1. */
  function LastRefused(devs: seq<Dev>, batch: seq<Selected>, auto: bool, n: nat): (l: int)
    requires n <= |batch|
    ensures -1 <= l < n
    ensures l >= 0 ==> Refused(devs, batch, auto, l)
    ensures forall j :: l < j < n ==> !Refused(devs, batch, auto, j)
  {
    if n == 0 then -1
    else if Refused(devs, batch, auto, n - 1) then n - 1
    else LastRefused(devs, batch, auto, n - 1)
  }

  /** The waiting slot of the device at position i after n rows. */
  function WaitingAfter(devs: seq<Dev>, batch: seq<Selected>, auto: bool, n: nat, i: nat): Cmd
    requires n <= |batch| && i < |devs|
  {
    var l := LastAccepted(devs, batch, auto, n, devs[i].id);
    if l < 0 then devs[i].waiting else LoadCommand(batch[l]).(stat := Waiting)
  }

  /** The row and the archive entry of row k after n rows. */
  predicate RowDone(s: Sys, batch: seq<Selected>, auto: bool, n: nat, k: nat, io: Io)
    requires k < |batch| && n <= |batch|
  {
    var c := LoadCommand(batch[k]);
    if k >= n then c.id in io.rows && io.rows[c.id] == batch[k].row
    else match OutcomeOf(s.devs, batch, auto, k)
      case Rejected(st) => c.id !in io.rows && c.(stat := st) in io.history
      case LeftPending => c.id in io.rows && io.rows[c.id] == batch[k].row
      case Accepted =>
        if LastAccepted(s.devs, batch, auto, n, Device(batch, k)) == k
        then c.id in io.rows && io.rows[c.id].status == Waiting
        else c.id !in io.rows && c.(stat := ByNewCommand) in io.history
  }

  ghost predicate SlotsDone(s: Sys, batch: seq<Selected>, auto: bool, n: nat, devs: seq<Dev>, io: Io)
    requires n <= |batch|
  {
    && |devs| == |s.devs|
    && forall i :: 0 <= i < |devs| ==>
         && devs[i] == s.devs[i].(waiting := WaitingAfter(s.devs, batch, auto, n, i))
         && (s.devs[i].waiting.Live() && LastAccepted(s.devs, batch, auto, n, s.devs[i].id) >= 0 ==>
               s.devs[i].waiting.(stat := ByNewCommand) in io.history)
  }

  predicate PassDone(s: Sys, batch: seq<Selected>, auto: bool, n: nat, pass: int)
    requires n <= |batch|
  {
    var l := LastRefused(s.devs, batch, auto, n);
    pass == if l < 0 then -1 else Device(batch, l)
  }

  /** Device ids come from the database and are not negative; -1 stands for "no id". */
  ghost predicate NaturalIds(devs: seq<Dev>)
  {
    forall i :: 0 <= i < |devs| ==> devs[i].id >= 0
  }

  // --------------------------------------------------------------- the three tests

  /** The loop's pass variable tells whether a row is held back. */
  lemma PassMeans(s: Sys, batch: seq<Selected>, auto: bool, n: nat, pass: int)
    requires NaturalIds(s.devs) && IsSelection(s.io.rows, batch) && n < |batch| && PassDone(s, batch, auto, n, pass)
    ensures Device(batch, n) == pass <==> HeldBack(s.devs, batch, auto, n)
  {
    hide Refused;
    var l := LastRefused(s.devs, batch, auto, n);
    if HeldBack(s.devs, batch, auto, n) && Device(batch, n) != -1 {
      var j :| 0 <= j < n && Device(batch, j) == Device(batch, n) && Refused(s.devs, batch, auto, j);
      assert j <= l;
      assert j < l ==> Before(batch[j], batch[l]);
      assert Before(batch[l], batch[n]);
    } else if HeldBack(s.devs, batch, auto, n) && l >= 0 {
      assert Refused(s.devs, batch, auto, l) && Before(batch[l], batch[n]);
      RefusedIsKnown(s.devs, batch, auto, l);
    }
  }

  lemma RefusedIsKnown(devs: seq<Dev>, batch: seq<Selected>, auto: bool, l: nat)
    requires l < |batch| && Refused(devs, batch, auto, l)
    ensures exists i :: 0 <= i < |devs| && devs[i].id == Device(batch, l)
  {
  }

  /** The waiting slot tells whether a stop command came by. */
  lemma {:induction false} SlotMeansStop(s: Sys, batch: seq<Selected>, auto: bool, n: nat, i: nat)
    requires NaturalIds(s.devs) && n <= |batch| && i < |s.devs| && FindDevice(s.devs, s.devs[i].id) == i
    ensures StopIsWaiting(s.devs[i].(waiting := WaitingAfter(s.devs, batch, auto, n, i)))
            <==> StopBefore(s.devs, batch, auto, n, s.devs[i].id)
  {
    hide LoadCommand, FindDevice, IsWrong;
    if n > 0 {
      SlotMeansStop(s, batch, auto, n - 1, i);
      if Device(batch, n - 1) == s.devs[i].id {
        if HeldBack(s.devs, batch, auto, n - 1) { HeldBackMeansStop(s.devs, batch, auto, n - 1); }
      }
    }
  }

  lemma HeldBackMeansStop(devs: seq<Dev>, batch: seq<Selected>, auto: bool, k: nat)
    requires k < |batch| && HeldBack(devs, batch, auto, k) && Device(batch, k) != -1
    ensures StopBefore(devs, batch, auto, k, Device(batch, k))
  {
    hide LoadCommand, FindDevice, IsWrong;
  }

  // ------------------------------------------------------------------- one more row

  /** Everything known after n rows. */
  ghost predicate Done(s: Sys, batch: seq<Selected>, auto: bool, n: nat, st: Scan)
    requires n <= |batch|
  {
    && Inv(st.sys)
    && SlotsDone(s, batch, auto, n, st.sys.devs, st.sys.io)
    && PassDone(s, batch, auto, n, st.pass)
    && forall k :: 0 <= k < |batch| ==> RowDone(s, batch, auto, n, k, st.sys.io)
  }

  lemma SlotsSame(s: Sys, batch: seq<Selected>, auto: bool, n: nat, devs: seq<Dev>, io: Io, id: int)
    requires n <= |batch| && SlotsDone(s, batch, auto, n, devs, io)
    ensures FindDevice(devs, id) == FindDevice(s.devs, id)
  {
    hide FindDevice, WaitingAfter, LastAccepted;
    FindSame(s.devs, devs, id);
  }

  /** Which branch of the loop body row n takes. */
  lemma BranchOfRow(s: Sys, batch: seq<Selected>, auto: bool, n: nat, st: Scan)
    requires NaturalIds(s.devs) && DistinctIds(s.devs) && IsSelection(s.io.rows, batch) && n < |batch|
    requires Done(s, batch, auto, n, st)
    ensures var st' := ReadRow(st, batch[n], auto);
      var c := LoadCommand(batch[n]);
      var i := FindDevice(s.devs, Device(batch, n));
      match OutcomeOf(s.devs, batch, auto, n)
      case Rejected(x) => st' == st.(sys := st.sys.(io := UpdateStatus(c, x, st.sys.io).1))
                          && (x == WrongCommand || x == ByAutoControl)
      case LeftPending => st'.sys == st.sys
      case Accepted =>
        && i >= 0 && !StopIsWaiting(st.sys.devs[i]) && !IsWrong(c)
        && var (d, io) := UpdateWaiting(st.sys.devs[i], c, st.sys.io);
        st' == st.(sys := st.sys.(devs := st.sys.devs[i := d], io := io))
    ensures PassDone(s, batch, auto, n + 1, ReadRow(st, batch[n], auto).pass)
  {
    hide Inv, UpdateStatus, UpdateWaiting, IsWrong, FindDevice, WaitingAfter, IsSelection, LastAccepted, HeldBack, StopBefore;
    LoadedCommand(batch[n]);
    hide LoadCommand;
    PassMeans(s, batch, auto, n, st.pass);
    SlotsSame(s, batch, auto, n, st.sys.devs, st.sys.io, Device(batch, n));
    var i := FindDevice(s.devs, Device(batch, n));
    if i >= 0 { SlotMeansStop(s, batch, auto, n, i); }
  }

  /** A row whose table entry and acceptance stay as they are stays done. */
  lemma RowStaysDone(s: Sys, batch: seq<Selected>, auto: bool, n: nat, k: nat, io: Io, io': Io)
    requires n < |batch| && k < |batch| && k != n
    requires RowDone(s, batch, auto, n, k, io) && io.history <= io'.history
    requires batch[k].id in io.rows <==> batch[k].id in io'.rows
    requires batch[k].id in io.rows ==> io'.rows[batch[k].id] == io.rows[batch[k].id]
    requires LastAccepted(s.devs, batch, auto, n + 1, Device(batch, k)) == LastAccepted(s.devs, batch, auto, n, Device(batch, k))
    ensures RowDone(s, batch, auto, n + 1, k, io')
  {
    hide OutcomeOf, LastAccepted;
    LoadedCommand(batch[k]);
    hide LoadCommand;
  }

  lemma RejectedStep(s: Sys, batch: seq<Selected>, auto: bool, n: nat, st: Scan)
    requires NaturalIds(s.devs) && DistinctIds(s.devs) && IsSelection(s.io.rows, batch) && n < |batch|
    requires Done(s, batch, auto, n, st) && OutcomeOf(s.devs, batch, auto, n).Rejected?
    ensures Done(s, batch, auto, n + 1, ReadRow(st, batch[n], auto))
  {
    hide OutcomeOf, UpdateStatus, ReadRow, LogOk, StopsPaired, WireOk, DevsOk, Conserved, LastAccepted, Refused, LastRefused;
    BranchOfRow(s, batch, auto, n, st);
    var x := OutcomeOf(s.devs, batch, auto, n).status;
    var c := LoadCommand(batch[n]);
    LoadedCommand(batch[n]);
    hide LoadCommand;
    assert RowDone(s, batch, auto, n, n, st.sys.io);
    RejectKeeps(c, x, st.sys.io);
    RejectInv(st.sys, c, x);
    var io' := ReadRow(st, batch[n], auto).sys.io;
    NotAccepted(s, batch, auto, n);
    var m := n + 1;
    forall k | 0 <= k < |batch| ensures RowDone(s, batch, auto, m, k, io') {
      if k != n {
        DistinctRows(s.io.rows, batch, k, n);
        RowStaysDone(s, batch, auto, n, k, st.sys.io, io');
      } else {
        assert c.(stat := x) in io'.history;
      }
    }
    SlotsStayDone(s, batch, auto, n, st.sys.devs, st.sys.io, io');
  }

  lemma SelectedIsPending(rows: map<int, Row>, batch: seq<Selected>, k: nat)
    requires IsSelection(rows, batch) && k < |batch|
    ensures batch[k].row.status == NoCommand
  {
  }

  lemma NotAccepted(s: Sys, batch: seq<Selected>, auto: bool, n: nat)
    requires n < |batch| && OutcomeOf(s.devs, batch, auto, n) != Accepted
    ensures forall id :: LastAccepted(s.devs, batch, auto, n + 1, id) == LastAccepted(s.devs, batch, auto, n, id)
  {
  }

  lemma DistinctRows(rows: map<int, Row>, batch: seq<Selected>, j: int, k: int)
    requires IsSelection(rows, batch) && 0 <= j < |batch| && 0 <= k < |batch| && j != k
    ensures batch[j].id != batch[k].id
  {
    if j < k { SelectionHasDistinctIds(rows, batch, j, k); } else { SelectionHasDistinctIds(rows, batch, k, j); }
  }

  lemma SlotsStayDone(s: Sys, batch: seq<Selected>, auto: bool, n: nat, devs: seq<Dev>, io: Io, io': Io)
    requires n < |batch| && OutcomeOf(s.devs, batch, auto, n) != Accepted
    requires SlotsDone(s, batch, auto, n, devs, io) && io.history <= io'.history
    ensures SlotsDone(s, batch, auto, n + 1, devs, io')
  {
    hide OutcomeOf, LastAccepted;
    NotAccepted(s, batch, auto, n);
  }

  lemma PendingStep(s: Sys, batch: seq<Selected>, auto: bool, n: nat, st: Scan)
    requires NaturalIds(s.devs) && DistinctIds(s.devs) && IsSelection(s.io.rows, batch) && n < |batch|
    requires Done(s, batch, auto, n, st) && OutcomeOf(s.devs, batch, auto, n).LeftPending?
    ensures Done(s, batch, auto, n + 1, ReadRow(st, batch[n], auto))
  {
    hide OutcomeOf, UpdateStatus, ReadRow, Inv, LastAccepted, Refused, LastRefused;
    BranchOfRow(s, batch, auto, n, st);
    hide LoadCommand;
    NotAccepted(s, batch, auto, n);
    var m := n + 1;
    forall k | 0 <= k < |batch| ensures RowDone(s, batch, auto, m, k, st.sys.io) {
      assert RowDone(s, batch, auto, n, k, st.sys.io);
      if k != n { RowStaysDone(s, batch, auto, n, k, st.sys.io, st.sys.io); } else { LoadedCommand(batch[n]); }
    }
    SlotsStayDone(s, batch, auto, n, st.sys.devs, st.sys.io, st.sys.io);
  }

  /** The row that was the device's last accepted one until row n displaced it. */
  lemma Displaced(s: Sys, batch: seq<Selected>, auto: bool, n: nat, k: nat, st: Scan, io': Io)
    requires n < |batch| && k < n && OutcomeOf(s.devs, batch, auto, n) == OutcomeOf(s.devs, batch, auto, k) == Accepted
    requires Device(batch, k) == Device(batch, n)
    requires LastAccepted(s.devs, batch, auto, n, Device(batch, k)) == k
    requires LoadCommand(batch[k]).(stat := ByNewCommand) in io'.history && batch[k].id !in io'.rows
    ensures RowDone(s, batch, auto, n + 1, k, io')
  {
    hide OutcomeOf;
    LoadedCommand(batch[k]);
    hide LoadCommand;
    assert LastAccepted(s.devs, batch, auto, n + 1, Device(batch, k)) == n;
  }

  /** A row of the batch held by a slot before row n is the last accepted one of its device. */
  lemma EarlierRow(s: Sys, batch: seq<Selected>, auto: bool, n: nat, k: nat, st: Scan, i: nat)
    requires NaturalIds(s.devs) && DistinctIds(s.devs) && IsSelection(s.io.rows, batch) && n < |batch| && k < |batch| && k != n
    requires Done(s, batch, auto, n, st) && i < |s.devs| == |st.sys.devs| && s.devs[i].id == Device(batch, n)
    requires k > n || LastAccepted(s.devs, batch, auto, n, Device(batch, k)) != k || Device(batch, k) != Device(batch, n)
             || OutcomeOf(s.devs, batch, auto, k) != Accepted
    ensures batch[k].id !in SlotIds(st.sys.devs[i])
  {
    hide OutcomeOf, LogOk, StopsPaired, WireOk, Shape, HistCount;
    LoadedCommand(batch[k]);
    hide LoadCommand;
    var id := batch[k].id;
    assert RowDone(s, batch, auto, n, k, st.sys.io);
    assert Mirror(st.sys.devs[i], st.sys.io);
    if Pending(st.sys.io, id) {
      PendingApart(st.sys, i, id);
    } else if id in st.sys.io.rows {
      AcceptedSlot(s, batch, auto, n, k, st);
      var j := FindDevice(s.devs, Device(batch, k));
      assert Device(batch, k) != Device(batch, n) && j != i;
      OthersApart(st.sys, j, i, id);
    }
  }

  lemma AcceptedSlot(s: Sys, batch: seq<Selected>, auto: bool, n: nat, k: nat, st: Scan)
    requires n < |batch| && k < n && DistinctIds(s.devs)
    requires SlotsDone(s, batch, auto, n, st.sys.devs, st.sys.io)
    requires OutcomeOf(s.devs, batch, auto, k) == Accepted
    requires LastAccepted(s.devs, batch, auto, n, Device(batch, k)) == k
    ensures var j := FindDevice(s.devs, Device(batch, k));
      0 <= j < |st.sys.devs| && batch[k].id in SlotIds(st.sys.devs[j])
      && st.sys.devs[j].waiting == LoadCommand(batch[k]).(stat := Waiting)
  {
    hide StopBefore, HeldBack, FindDevice;
    LoadedCommand(batch[k]);
    hide LoadCommand;
  }

  lemma AcceptedStep(s: Sys, batch: seq<Selected>, auto: bool, n: nat, st: Scan)
    requires NaturalIds(s.devs) && DistinctIds(s.devs) && IsSelection(s.io.rows, batch) && n < |batch|
    requires Done(s, batch, auto, n, st) && OutcomeOf(s.devs, batch, auto, n).Accepted?
    ensures Done(s, batch, auto, n + 1, ReadRow(st, batch[n], auto))
  {
    hide OutcomeOf, UpdateStatus, UpdateWaiting, ReadRow, LogOk, StopsPaired, WireOk, DevsOk, Conserved, Refused,
      LastRefused, Good, Conserves, FindDevice, IsSelection;
    BranchOfRow(s, batch, auto, n, st);
    var i := FindDevice(s.devs, Device(batch, n));
    var c := LoadCommand(batch[n]);
    LoadedCommand(batch[n]);
    hide LoadCommand;
    GoodDevice(st.sys, i);
    var d := st.sys.devs[i];
    assert RowDone(s, batch, auto, n, n, st.sys.io);
    SelectedIsPending(s.io.rows, batch, n);
    UpdateWaitingKeeps(d, c, st.sys.io);
    var (d', io') := UpdateWaiting(d, c, st.sys.io);
    SwapKeeps(st.sys, i, d', io', SlotIds(d) + {c.id});
    hide SlotIds;
    var m := n + 1;
    forall k | 0 <= k < |batch| ensures RowDone(s, batch, auto, m, k, io') {
      AcceptedRow(s, batch, auto, n, st, k, i, io');
    }
    AcceptedSlots(s, batch, auto, n, st.sys.devs, st.sys.io, i, d', io');
  }

  /** Any row after row n was accepted. */
  lemma AcceptedRow(s: Sys, batch: seq<Selected>, auto: bool, n: nat, st: Scan, k: nat, i: nat, io': Io)
    requires NaturalIds(s.devs) && DistinctIds(s.devs) && IsSelection(s.io.rows, batch) && n < |batch| && k < |batch|
    requires Done(s, batch, auto, n, st) && OutcomeOf(s.devs, batch, auto, n).Accepted?
    requires i < |s.devs| && s.devs[i].id == Device(batch, n) && i == FindDevice(s.devs, Device(batch, n))
    requires Frames(st.sys.io, io', SlotIds(st.sys.devs[i]) + {batch[n].id})
    requires batch[n].id in io'.rows && io'.rows[batch[n].id].status == Waiting
    requires st.sys.io.history <= io'.history
    requires st.sys.devs[i].waiting.Live() ==>
               st.sys.devs[i].waiting.(stat := ByNewCommand) in io'.history && st.sys.devs[i].waiting.id !in io'.rows
    ensures RowDone(s, batch, auto, n + 1, k, io')
  {
    hide OutcomeOf, Inv, FindDevice, SlotIds, WaitingAfter, IsSelection;
    LoadedCommand(batch[n]);
    LoadedCommand(batch[k]);
    hide LoadCommand;
    assert RowDone(s, batch, auto, n, k, st.sys.io);
    if k == n {
    } else if k < n && LastAccepted(s.devs, batch, auto, n, Device(batch, k)) == k
              && Device(batch, k) == Device(batch, n) && OutcomeOf(s.devs, batch, auto, k) == Accepted {
      AcceptedSlot(s, batch, auto, n, k, st);
      Displaced(s, batch, auto, n, k, st, io');
    } else {
      EarlierRow(s, batch, auto, n, k, st, i);
      DistinctRows(s.io.rows, batch, k, n);
      if Device(batch, k) != Device(batch, n) || k > n {
        if k < n { RowStaysDone(s, batch, auto, n, k, st.sys.io, io'); }
      } else {
        SupersededStays(s, batch, auto, n, k, st.sys.io, io');
      }
    }
  }

  /** A row of the same device that was not the last accepted one stays done. */
  lemma SupersededStays(s: Sys, batch: seq<Selected>, auto: bool, n: nat, k: nat, io: Io, io': Io)
    requires n < |batch| && k < n
    requires RowDone(s, batch, auto, n, k, io) && io.history <= io'.history
    requires batch[k].id in io.rows <==> batch[k].id in io'.rows
    requires batch[k].id in io.rows ==> io'.rows[batch[k].id] == io.rows[batch[k].id]
    requires LastAccepted(s.devs, batch, auto, n, Device(batch, k)) != k || OutcomeOf(s.devs, batch, auto, k) != Accepted
    ensures RowDone(s, batch, auto, n + 1, k, io')
  {
    hide OutcomeOf;
    LoadedCommand(batch[k]);
    hide LoadCommand;
  }

  lemma AcceptedSlots(s: Sys, batch: seq<Selected>, auto: bool, n: nat, devs: seq<Dev>, io: Io, i: nat, d': Dev, io': Io)
    requires DistinctIds(s.devs) && n < |batch| && OutcomeOf(s.devs, batch, auto, n).Accepted?
    requires SlotsDone(s, batch, auto, n, devs, io) && i < |devs| && s.devs[i].id == Device(batch, n)
    requires d' == devs[i].(waiting := LoadCommand(batch[n]).(stat := Waiting))
    requires io.history <= io'.history
    requires devs[i].waiting.Live() ==> devs[i].waiting.(stat := ByNewCommand) in io'.history
    ensures SlotsDone(s, batch, auto, n + 1, devs[i := d'], io')
  {
    hide OutcomeOf, LoadCommand;
    assert LastAccepted(s.devs, batch, auto, n + 1, s.devs[i].id) == n;
    forall j | 0 <= j < |devs| && j != i
      ensures LastAccepted(s.devs, batch, auto, n + 1, s.devs[j].id) == LastAccepted(s.devs, batch, auto, n, s.devs[j].id)
    {
    }
  }

  lemma DoneAtFirst(s: Sys, batch: seq<Selected>, auto: bool)
    requires Inv(s) && NaturalIds(s.devs) && IsSelection(s.io.rows, batch)
    ensures Done(s, batch, auto, 0, ReadRows(s, batch[..0], auto))
  {
    hide Conserved, LogOk, StopsPaired, WireOk, DevsOk;
    assert batch[..0] == [];
    forall k | 0 <= k < |batch| ensures RowDone(s, batch, auto, 0, k, s.io) { LoadedCommand(batch[k]); }
  }

  lemma {:induction false} DoneAfter(s: Sys, batch: seq<Selected>, auto: bool, n: nat)
    requires Inv(s) && NaturalIds(s.devs) && IsSelection(s.io.rows, batch) && n <= |batch|
    ensures Done(s, batch, auto, n, ReadRows(s, batch[..n], auto))
  {
    hide Done, ReadRow, OutcomeOf, Inv, IsSelection, LoadCommand;
    if n == 0 {
      DoneAtFirst(s, batch, auto);
    } else {
      DoneAfter(s, batch, auto, n - 1);
      assert batch[..n][..n - 1] == batch[..n - 1];
      var st := ReadRows(s, batch[..n - 1], auto);
      assert Inv(s) ==> DistinctIds(s.devs) by { DistinctOfInv(s); }
      match OutcomeOf(s.devs, batch, auto, n - 1)
      case Rejected(_) => RejectedStep(s, batch, auto, n - 1, st);
      case LeftPending => PendingStep(s, batch, auto, n - 1, st);
      case Accepted => AcceptedStep(s, batch, auto, n - 1, st);
    }
  }

  lemma DistinctOfInv(s: Sys)
    ensures Inv(s) ==> DistinctIds(s.devs)
  {
  }

  /** The meaning of a batch: every row has the outcome the sorted batch determines, every
      waiting slot ends with the last accepted command of its device or as it was, and
      every command displaced from a slot is archived as replaced. */
  lemma BatchMeaning(s: Sys, batch: seq<Selected>, auto: bool)
    requires Inv(s) && NaturalIds(s.devs) && IsSelection(s.io.rows, batch)
    ensures var r := ReadCommands(s, batch, auto);
      && SlotsDone(s, batch, auto, |batch|, r.devs, r.io)
      && forall k :: 0 <= k < |batch| ==> RowDone(s, batch, auto, |batch|, k, r.io)
  {
    hide Inv, RowDone, SlotsDone, PassDone, ReadRows;
    DoneAfter(s, batch, auto, |batch|);
    assert batch[..|batch|] == batch;
  }

  /** The first admissible stop command of a device ends up waiting. */
  lemma FirstStopWins(devs: seq<Dev>, batch: seq<Selected>, auto: bool, k: nat)
    requires NaturalIds(devs) && k < |batch| && Admissible(devs, batch, auto, k)
    requires LoadCommand(batch[k]).IsStop() && !StopBefore(devs, batch, auto, k, Device(batch, k))
    ensures OutcomeOf(devs, batch, auto, k) == Accepted
    ensures LastAccepted(devs, batch, auto, |batch|, Device(batch, k)) == k
  {
    hide LoadCommand, IsWrong;
    assert !HeldBack(devs, batch, auto, k) by {
      if HeldBack(devs, batch, auto, k) { HeldBackMeansStop(devs, batch, auto, k); }
    }
    forall j | k < j < |batch| && Device(batch, j) == Device(batch, k)
      ensures OutcomeOf(devs, batch, auto, j) != Accepted
    {
      assert StopBefore(devs, batch, auto, j, Device(batch, j));
    }
  }

  /** Without a stop command, waiting or arriving, the last admissible row ends up waiting:
      every admissible row of the device is accepted and no other. */
  lemma WithoutStopLastWins(devs: seq<Dev>, batch: seq<Selected>, auto: bool, k: nat)
    requires NaturalIds(devs) && k < |batch|
    requires !StopBefore(devs, batch, auto, |batch|, Device(batch, k))
    ensures OutcomeOf(devs, batch, auto, k) == Accepted <==> Admissible(devs, batch, auto, k)
  {
    hide LoadCommand, IsWrong;
    if Admissible(devs, batch, auto, k) && HeldBack(devs, batch, auto, k) { HeldBackMeansStop(devs, batch, auto, k); }
  }

  /** A stop command that already waits is displaced by no row. */
  lemma WaitingStopHolds(devs: seq<Dev>, batch: seq<Selected>, auto: bool, n: nat, i: nat)
    requires NaturalIds(devs) && n <= |batch| && i < |devs|
    requires FindDevice(devs, devs[i].id) == i && StopIsWaiting(devs[i])
    ensures LastAccepted(devs, batch, auto, n, devs[i].id) == -1
    ensures WaitingAfter(devs, batch, auto, n, i) == devs[i].waiting
  {
    hide LoadCommand, IsWrong, FindDevice;
    forall j | 0 <= j < n && Device(batch, j) == devs[i].id
      ensures OutcomeOf(devs, batch, auto, j) != Accepted
    {
      assert StopBefore(devs, batch, auto, j, devs[i].id);
    }
  }

  // -------------------------------------------------------- the selection exists

  /** Position of a new row in a sorted selection. */
  function Position(batch: seq<Selected>, x: Selected): (k: nat)
    ensures k <= |batch|
    ensures forall j :: 0 <= j < k ==> Before(batch[j], x)
    ensures k < |batch| ==> !Before(batch[k], x)
  {
    if batch == [] || !Before(batch[0], x) then 0 else 1 + Position(batch[1..], x)
  }

  /** Every table has a sorted selection of its pending rows, so a tick is always possible. */
  lemma {:induction false} SelectionExists(rows: map<int, Row>) returns (batch: seq<Selected>)
    ensures IsSelection(rows, batch)
    decreases |rows|
  {
    if !exists id :: id in rows {
      batch := [];
    } else {
      var id :| id in rows;
      var rest := rows - {id};
      assert rest.Keys == rows.Keys - {id};
      assert |rest| < |rows|;
      var others := SelectionExists(rest);
      if rows[id].status != NoCommand {
        batch := others;
        forall y | y in rows && rows[y].status == NoCommand ensures exists k :: 0 <= k < |batch| && batch[k].id == y {
          assert y in rest && rest[y] == rows[y];
        }
      } else {
        var x := Selected(id, rows[id]);
        var p := Position(others, x);
        batch := others[..p] + [x] + others[p..];
        InsertedSelection(rows, others, x, p);
      }
    }
  }

  lemma InsertedSelection(rows: map<int, Row>, others: seq<Selected>, x: Selected, p: nat)
    requires x.id in rows && rows[x.id] == x.row && x.row.status == NoCommand
    requires IsSelection(rows - {x.id}, others) && p == Position(others, x)
    ensures IsSelection(rows, others[..p] + [x] + others[p..])
  {
    hide Before, Position;
    var batch := others[..p] + [x] + others[p..];
    forall id | id in rows && rows[id].status == NoCommand ensures exists k :: 0 <= k < |batch| && batch[k].id == id {
      if id == x.id { assert batch[p].id == id; }
      else {
        assert id in rows - {x.id};
        var k :| 0 <= k < |others| && others[k].id == id;
        assert batch[if k < p then k else k + 1].id == id;
      }
    }
    InsertedOrder(others, x, p);
  }

  lemma InsertedOrder(others: seq<Selected>, x: Selected, p: nat)
    requires p == Position(others, x)
    requires forall j, k :: 0 <= j < k < |others| ==> Before(others[j], others[k])
    requires forall k :: 0 <= k < |others| ==> others[k].id != x.id
    ensures var batch := others[..p] + [x] + others[p..];
      forall j, k :: 0 <= j < k < |batch| ==> Before(batch[j], batch[k])
  {
    hide Position;
    forall k | p <= k < |others| ensures Before(x, others[k]) {
      if k > p { assert Before(others[p], others[k]); }
    }
    hide Before;
    var batch := others[..p] + [x] + others[p..];
    forall j, k | 0 <= j < k < |batch| ensures Before(batch[j], batch[k]) {
      var j0, k0 := if j <= p then j else j - 1, if k <= p then k else k - 1;
      assert j == p || batch[j] == others[j0];
      assert k == p || batch[k] == others[k0];
    }
  }

  /** Rows are read device by device, and those of a device in the order of their ids. */
  lemma SelectionOrder(rows: map<int, Row>, batch: seq<Selected>, j: nat, k: nat)
    requires IsSelection(rows, batch) && j < |batch| && k < |batch|
    ensures var a, b := batch[j], batch[k];
      j < k <==> a.row.deviceid < b.row.deviceid || (a.row.deviceid == b.row.deviceid && a.id < b.id)
  {
    if j < k { assert Before(batch[j], batch[k]); } else if k < j { assert Before(batch[k], batch[j]); }
  }

  /** A table has only one selection, so a tick does not depend on how the rows are found. */
  lemma SelectionUnique(rows: map<int, Row>, batch: seq<Selected>, batch': seq<Selected>)
    requires IsSelection(rows, batch) && IsSelection(rows, batch')
    ensures batch == batch'
  {
    forall x ensures x in batch <==> x in batch' {
      Selects(rows, batch, x);
      Selects(rows, batch', x);
    }
    hide Before;
    SortedAlike(batch, batch');
  }

  lemma Selects(rows: map<int, Row>, batch: seq<Selected>, x: Selected)
    requires IsSelection(rows, batch)
    ensures x in batch <==> x.id in rows && rows[x.id] == x.row && x.row.status == NoCommand
  {
    if x.id in rows && rows[x.id] == x.row && x.row.status == NoCommand {
      var k :| 0 <= k < |batch| && batch[k].id == x.id;
      assert batch[k] == x;
    }
  }

  lemma {:induction false} SortedAlike(a: seq<Selected>, b: seq<Selected>)
    requires forall j, k :: 0 <= j < k < |a| ==> Before(a[j], a[k])
    requires forall j, k :: 0 <= j < k < |b| ==> Before(b[j], b[k])
    requires forall x :: x in a <==> x in b
    ensures a == b
  {
    assert b != [] ==> b[0] in b;
    if a != [] {
      assert a[0] in b && b[0] in a;
      var j, k :| 0 <= j < |b| && b[j] == a[0] && 0 <= k < |a| && a[k] == b[0];
      assert j == 0;
      forall x ensures x in a[1..] <==> x in b[1..] {
        BehindFirst(a, x);
        BehindFirst(b, x);
      }
      SortedAlike(a[1..], b[1..]);
    }
  }

  lemma BehindFirst(s: seq<Selected>, x: Selected)
    requires s != [] && forall j, k :: 0 <= j < k < |s| ==> Before(s[j], s[k])
    ensures x in s[1..] <==> x in s && x != s[0]
  {
    assert s == [s[0]] + s[1..];
    if x in s[1..] {
      var k :| 0 <= k < |s| - 1 && s[1..][k] == x;
      assert Before(s[0], s[k + 1]);
    }
  }
}
