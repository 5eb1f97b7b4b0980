/** What the order of status changes means for one command: its statuses climb, end
    with at most one terminal status, and the endings have the causes their names say. */
module LifeCycle {
  import opened Commands
  import opened CommandInvariants

  function Rank(s: Status): nat
  {
    match s
    case NoCommand => 0
    case Waiting => 1
    case Sent => 2
    case Working => 3
    case StoppingByAsensor => 4
    case StoppingByStop => 5
    case _ => 6
  }

  /** The last status is one that was logged. */
  lemma {:induction false} LastLogged(log: seq<Update>, id: int) returns (j: int)
    requires LastStatus(log, id) != NoCommand
    ensures 0 <= j < |log| && log[j] == Update(id, LastStatus(log, id))
    ensures forall k :: j < k < |log| ==> log[k].id != id
  {
    var n := |log| - 1;
    if log[n].id == id { j := n; } else { j := LastLogged(log[..n], id); }
  }

  lemma PrefixPathOk(log: seq<Update>, n: nat)
    requires PathOk(log) && n <= |log|
    ensures PathOk(log[..n])
  {
    forall k | 0 <= k < n ensures Allowed(LastStatus(log[..n][..k], log[..n][k].id), log[..n][k].status) {
      assert log[..n][..k] == log[..k];
    }
  }

  /** A logged status is never above the last one. */
  lemma {:induction false} RankBelowLast(log: seq<Update>, j: int)
    requires PathOk(log) && 0 <= j < |log|
    ensures Rank(log[j].status) <= Rank(LastStatus(log, log[j].id))
    decreases |log|
  {
    var n := |log| - 1;
    LastStatusStep(log, log[j].id);
    if j < n {
      PrefixPathOk(log, n);
      RankBelowLast(log[..n], j);
      LastStep(log);
      hide Rank, Allowed, PathOk, LastStatus;
    }
  }

  lemma LastStatusStep(log: seq<Update>, id: int)
    requires log != []
    ensures var n := |log| - 1;
      LastStatus(log, id) == if log[n].id == id then log[n].status else LastStatus(log[..n], id)
  {
  }

  lemma LastStep(log: seq<Update>)
    requires PathOk(log) && log != []
    ensures var n := |log| - 1; Rank(LastStatus(log[..n], log[n].id)) <= Rank(log[n].status)
  {
    hide LastStatus;
    var n := |log| - 1;
    RankGrows(LastStatus(log[..n], log[n].id), log[n].status);
  }

  lemma RankGrows(a: Status, b: Status)
    requires Allowed(a, b)
    ensures Rank(a) <= Rank(b)
  {
  }

  /** The statuses of one command strictly climb, except that "stopping by a stop
      command" may be written again. */
  lemma StatusesClimb(log: seq<Update>, j: int, k: int)
    requires PathOk(log) && 0 <= j < k < |log| && log[j].id == log[k].id
    ensures Rank(log[j].status) < Rank(log[k].status)
            || log[j].status == log[k].status == StoppingByStop
  {
    PrefixPathOk(log, k);
    RankBelowLast(log[..k], j);
    assert Allowed(LastStatus(log[..k], log[k].id), log[k].status);
  }

  /** Short of being ignored, the stored number of a command's status rises with every change.
      Each status has its own. */
  lemma NumbersRise(log: seq<Update>, j: int, k: int)
    requires PathOk(log) && 0 <= j < k < |log| && log[j].id == log[k].id && !log[k].status.Ignored()
    ensures log[j].status.Code() < log[k].status.Code() || log[j].status == log[k].status == StoppingByStop
    ensures log[j].status.Code() == log[k].status.Code() <==> log[j].status == log[k].status
  {
    hide PathOk, Rank;
    StatusesClimb(log, j, k);
    if log[j].status.Terminal() { TerminalIsFinal(log, j, k); } else { NumberByRank(log[j].status, log[k].status); }
  }

  lemma NumberByRank(a: Status, b: Status)
    requires !a.Terminal() && !b.Ignored()
    ensures Rank(a) < Rank(b) ==> a.Code() < b.Code()
    ensures a.Code() == b.Code() <==> a == b
  {
  }

  /** How often the status of a command changed. */
  function Changes(log: seq<Update>, id: int): nat
  {
    if log == [] then 0
    else
      var n := |log| - 1;
      Changes(log[..n], id) + One(log[n].id == id && log[n].status != LastStatus(log[..n], id))
  }

  /** A command changes its status at most six times. */
  lemma {:induction false} ChangesBounded(log: seq<Update>, id: int)
    requires PathOk(log)
    ensures Changes(log, id) <= Rank(LastStatus(log, id)) <= 6
  {
    if log != [] {
      var n := |log| - 1;
      PrefixPathOk(log, n);
      ChangesBounded(log[..n], id);
      assert Allowed(LastStatus(log[..n], log[n].id), log[n].status);
    }
  }

  /** Nothing is written for a command after a terminal status. */
  lemma TerminalIsFinal(log: seq<Update>, j: int, k: int)
    requires PathOk(log) && 0 <= j < |log| && 0 <= k < |log| && log[j].id == log[k].id
    requires log[j].status.Terminal()
    ensures k <= j
  {
    if j < k { StatusesClimb(log, j, k); }
  }

  /** The entry before a given one of the same command. */
  lemma PreviousEntry(log: seq<Update>, k: int) returns (j: int)
    requires PathOk(log) && 0 <= k < |log|
    requires log[k].status !in {Waiting, WrongCommand, ByAutoControl}
    ensures 0 <= j < k && log[j].id == log[k].id && Allowed(log[j].status, log[k].status)
    ensures forall m :: j < m < k ==> log[m].id != log[k].id
  {
    assert Allowed(LastStatus(log[..k], log[k].id), log[k].status);
    j := LastLogged(log[..k], log[k].id);
    assert forall m :: j < m < k ==> log[..k][m] == log[m];
  }

  /** i, j and k are consecutive entries of one command: working, stopping, finished. */
  predicate AsensorStory(log: seq<Update>, i: nat, j: nat, k: nat)
    requires i < j < k < |log|
  {
    && log[i] == Update(log[k].id, Working)
    && log[j] == Update(log[k].id, StoppingByAsensor)
    && log[k].status == FinishedByAsensor
    && forall m :: i < m < k && m != j ==> log[m].id != log[k].id
  }

  /** "Finished by the actuator sensor" comes straight after "stopping by the actuator
      sensor", which comes straight after "working". */
  lemma AsensorFinishHasCause(log: seq<Update>, k: int)
    requires PathOk(log) && 0 <= k < |log| && log[k].status == FinishedByAsensor
    ensures exists i, j :: 0 <= i < j < k && AsensorStory(log, i, j, k)
  {
    var j := PreviousEntry(log, k);
    var i := PreviousEntry(log, j);
    assert AsensorStory(log, i, j, k);
  }

  /** "Finished by a stop command" comes after "stopping by a stop command". */
  lemma StopFinishHasCause(log: seq<Update>, k: int)
    requires PathOk(log) && 0 <= k < |log| && log[k].status == FinishedByStop
    ensures exists j :: 0 <= j < k && log[j] == Update(log[k].id, StoppingByStop) &&
                        (forall m :: j < m < k ==> log[m].id != log[k].id)
  {
    var j := PreviousEntry(log, k);
  }
}
