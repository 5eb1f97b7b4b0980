/** The actuator node and the relay boards in place: the table of countdowns, the output
    registers, and the loops over them. */
module NodeDaemon {
  import opened Words
  import opened Relays

  /** One relay board; `odr` is its output register. */
  class RelayBoard {
    const typeId: int
    var odr: Register

    /** InitRelayModule */
    constructor (typeId: int)
      ensures this.typeId == typeId && odr == NO_BITS
    {
      this.typeId, this.odr := typeId, NO_BITS;
    }

    /** SetMaskRelayOutput */
    method SetMask(setmask: Register)
      modifies this
      ensures odr == old(odr) + setmask
    {
      odr := odr + setmask;
    }

    /** ResetMaskRelayOutput */
    method ResetMask(rstmask: Register)
      modifies this
      ensures odr == old(odr) - rstmask
    {
      odr := odr - rstmask;
    }

    /** ProcedureRelayModule: a message for this board's relay function whose masks do not
        overlap; any other message is ignored. */
    method Receive(canid: int, setmask: Register, rstmask: Register)
      modifies this
      ensures odr == if canid % 0x100 == typeId && (canid / 0x100) % 16 == OUTPUT_RELAY && setmask * rstmask == {}
                     then old(odr) - rstmask + setmask else old(odr)
    {
      if canid % 0x100 == typeId && (canid / 0x100) % 16 == OUTPUT_RELAY {
        if setmask * rstmask == {} {
          ResetMask(rstmask);
          SetMask(setmask);
        }
      }
    }
  }

  ghost predicate Distinct(boards: seq<RelayBoard>)
  {
    forall i, j :: 0 <= i < j < |boards| ==> boards[i] != boards[j] && boards[i].typeId != boards[j].typeId
  }

  /** The output registers by board id. */
  ghost function Outputs(boards: seq<RelayBoard>): (m: map<int, Register>)
    reads boards
    requires Distinct(boards)
    ensures forall i :: 0 <= i < |boards| ==> boards[i].typeId in m && m[boards[i].typeId] == boards[i].odr
    ensures forall t :: t in m ==> exists i :: 0 <= i < |boards| && boards[i].typeId == t
  {
    if boards == [] then map[]
    else Outputs(boards[..|boards| - 1])[boards[|boards| - 1].typeId := boards[|boards| - 1].odr]
  }

  /** The registers, listed by board id. */
  lemma OutputsAre(boards: seq<RelayBoard>, m: map<int, Register>)
    requires Distinct(boards)
    requires forall t :: t in m ==> exists i :: 0 <= i < |boards| && boards[i].typeId == t
    requires forall i :: 0 <= i < |boards| ==> boards[i].typeId in m && boards[i].odr == m[boards[i].typeId]
    ensures Outputs(boards) == m
  {
    var o := Outputs(boards);
    forall t ensures t in o <==> t in m {}
    forall t | t in m ensures o[t] == m[t] {
      var i :| 0 <= i < |boards| && boards[i].typeId == t;
    }
  }

  class Node {
    const actuatorMap: array<Entry>
    const boards: seq<RelayBoard>
    var pending: nat
    var sent: seq<Report>
    ghost const config: Config
    const installed: nat
    const interval: nat

    ghost predicate Valid()
      reads this
    {
      && actuatorMap.Length == MAX_ACTUATOR_COUNT && Distinct(boards)
      && config.Complete() && config.installed == installed && config.interval == interval
    }

    ghost function View(): Field
      requires Valid()
      reads this, actuatorMap, boards
    {
      Field(actuatorMap[..], Outputs(boards), pending, sent)
    }

    /** ReadDevice_Config: the nested loops over nodes and channels. */
    constructor (c: Config, boards: seq<RelayBoard>)
      requires c.Complete() && Distinct(boards)
      ensures Valid() && config == c && this.boards == boards && fresh(actuatorMap)
      ensures actuatorMap[..] == Layout(c) && pending == 0 && sent == []
    {
      config, installed, interval, this.boards := c, c.installed, c.interval, boards;
      actuatorMap := new Entry[MAX_ACTUATOR_COUNT](_ => BLANK);
      pending, sent := 0, [];
      new;
      for b := 0 to c.installed
        invariant pending == 0 && sent == []
        invariant forall k :: 0 <= k < MAX_ACTUATOR_COUNT ==>
                    actuatorMap[k] == if k < b * CHANNELS then Layout(c)[k] else BLANK
      {
        for i := 0 to CHANNELS
          invariant pending == 0 && sent == []
          invariant forall k :: 0 <= k < MAX_ACTUATOR_COUNT ==>
                      actuatorMap[k] == if k < b * CHANNELS + i then Layout(c)[k] else BLANK
        {
          var k := b * CHANNELS + i;
          actuatorMap[k] := Entry(b, i, AsChar(c.ids[k]), AsChar(c.args[k]), c.canids[b], c.maxtimes[k], 0, false);
        }
      }
    }

    /** USART_SendPacket and the CAN bus: every board sees the message. */
    method Send(canid: int, setmask: Register, rstmask: Register)
      requires Valid()
      modifies boards
      ensures Outputs(boards) == Deliver(old(Outputs(boards)), canid, setmask, rstmask)
    {
      hide Outputs;
      ghost var before := Outputs(boards);
      for i := 0 to |boards|
        invariant forall j :: i <= j < |boards| ==> boards[j].odr == before[boards[j].typeId]
        invariant forall j :: 0 <= j < i ==> boards[j].odr == Deliver(before, canid, setmask, rstmask)[boards[j].typeId]
      {
        boards[i].Receive(canid, setmask, rstmask);
      }
      OutputsAre(boards, Deliver(before, canid, setmask, rstmask));
    }

    /** ACTUATOR_NODE_CONTROL */
    method Control(node: nat, mode: Mode, ch: nat, on: bool)
      requires Valid() && node * CHANNELS + ch < MAX_ACTUATOR_COUNT
      modifies boards
      ensures View() == NodeControl(old(View()), node, mode, ch, on)
    {
      hide Deliver, Outputs;
      var canid := actuatorMap[node * CHANNELS + ch].canid;
      if mode == Init {
        Send(canid, NO_BITS, ALL_BITS);
      } else if on {
        Send(canid, {ch}, NO_BITS);
      } else {
        Send(canid, NO_BITS, {ch});
      }
    }

    /** GetActuatorConfigIndex */
    method GetConfigIndex(id: int, arg: int) returns (r: int)
      requires Valid()
      ensures r == ConfigIndex(actuatorMap[..installed * CHANNELS], id, arg)
    {
      ghost var t := actuatorMap[..installed * CHANNELS];
      for b := 0 to installed * CHANNELS
        invariant ConfigIndex(t[..b], id, arg) < 0
      {
        assert t[..b + 1][..b] == t[..b];
        if actuatorMap[b].id == AsChar(id) && actuatorMap[b].arg == arg {
          FirstIndex(t, b, id, arg);
          return b;
        }
      }
      assert t[..|t|] == t;
      return -1;
    }

    lemma {:induction false} FirstIndex(t: seq<Entry>, b: nat, id: int, arg: int)
      requires b < |t| && t[b].id == AsChar(id) && t[b].arg == arg && ConfigIndex(t[..b], id, arg) < 0
      ensures ConfigIndex(t, id, arg) == b
      decreases |t|
    {
      var n := |t| - 1;
      if b < n {
        assert t[..n][..b] == t[..b];
        FirstIndex(t[..n], b, id, arg);
      }
    }

    /** The REQCMD_ACTUATOR_SET case for one payload item */
    method SetActuator(id: int, value: int)
      requires Valid() && WellLaid(config, View())
      modifies actuatorMap, boards
      ensures View() == Command(config, old(View()), id, value)
    {
      hide NodeControl, ConfigIndex, ParseArgument, Outputs;
      var (arg, time) := ParseArgument(value);
      var k := GetConfigIndex(id, arg);
      assert View().table[..installed * CHANNELS] == actuatorMap[..installed * CHANNELS];
      if k > -1 {
        actuatorMap[k] := actuatorMap[k].(interval := interval, count := if time > 0 then time else 1);
        Control(actuatorMap[k].node, ActuatorSet, actuatorMap[k].ch, time > 0);
      }
    }

    /** The actuator loop of Timer_handler */
    method CountDown()
      requires Valid() && Safe(config, View())
      modifies this`pending, actuatorMap, boards
      ensures View() == CountRound(config, old(View()))
    {
      hide Count, CountedTo, On, Outputs;
      ghost var f := View();
      var i := 0;
      while i < MAX_ACTUATOR_COUNT
        invariant i <= MAX_ACTUATOR_COUNT
        invariant View() == CountFirst(config, f, i)
      {
        CountedEntry(config, f, View(), i);
        CountOne(i);
        i := i + 1;
      }
    }

    /** The actuator part of one round of Timer_handler: the loop, and the sending of reports
        if any are due and a gateway is connected. */
    method TimerRound(connected: bool)
      requires Valid() && Safe(config, View())
      modifies this`pending, this`sent, actuatorMap, boards
      ensures View() == Second(config, old(View()), connected)
    {
      hide Transmit, Outputs, Safe;
      CountDown();
      if pending > 0 && connected {
        TransOnStatusActuatorData();
        pending := 0;
      }
    }

    /** The body of its loops */
    method SendEntry(k: nat)
      requires k < actuatorMap.Length
      modifies this`sent, actuatorMap
      ensures actuatorMap[..] == old(actuatorMap[..])[k := Sent(old(actuatorMap[k]))]
      ensures sent == old(sent) + if Reported(old(actuatorMap[k])) then [ReportOf(old(actuatorMap[k]))] else []
    {
      if Reported(actuatorMap[k]) {
        sent := sent + [ReportOf(actuatorMap[k])];
        actuatorMap[k] := actuatorMap[k].(due := false);
      }
    }

    /** TransOnStatusActuatorData: the loops over nodes and channels */
    method TransOnStatusActuatorData()
      requires Valid()
      modifies this`sent, actuatorMap
      ensures View().(pending := 0) == Transmit(config, old(View()))
    {
      hide Outputs, ReportOf, Reported, Sent;
      ghost var t, before := actuatorMap[..], sent;
      for ncnt := 0 to installed
        invariant sent == before + ReportsOf(t, ncnt * CHANNELS)
        invariant forall k :: 0 <= k < MAX_ACTUATOR_COUNT ==> actuatorMap[k] == if k < ncnt * CHANNELS then Sent(t[k]) else t[k]
      {
        for cnt := 0 to CHANNELS
          invariant sent == before + ReportsOf(t, ncnt * CHANNELS + cnt)
          invariant forall k :: 0 <= k < MAX_ACTUATOR_COUNT ==>
                      actuatorMap[k] == if k < ncnt * CHANNELS + cnt then Sent(t[k]) else t[k]
        {
          SendEntry(ncnt * CHANNELS + cnt);
          assert (ncnt + 1) * CHANNELS == ncnt * CHANNELS + CHANNELS;
        }
      }
    }

    lemma CountedEntry(c: Config, f: Field, r: Field, k: nat)
      requires Safe(c, f) && k < MAX_ACTUATOR_COUNT && CountedTo(c, f, r, k)
      ensures |r.table| == MAX_ACTUATOR_COUNT
      ensures r.table[k].node * CHANNELS + r.table[k].ch < MAX_ACTUATOR_COUNT
      ensures r.table[k].count % 0x1_0000 > 0 ==> r.table[k].interval > 0
    {
      hide On;
      if k >= c.installed * CHANNELS { assert r.table[k] == BLANK; }
    }

    /** The body of the actuator loop of Timer_handler */
    method CountOne(i: nat)
      requires Valid() && i < MAX_ACTUATOR_COUNT
      requires actuatorMap[i].node * CHANNELS + actuatorMap[i].ch < MAX_ACTUATOR_COUNT
      requires actuatorMap[i].count % 0x1_0000 > 0 ==> actuatorMap[i].interval > 0
      modifies this`pending, actuatorMap, boards
      ensures View() == Count(old(View()), i)
    {
      hide NodeControl, Outputs;
      ghost var f := View();
      var liveTime := actuatorMap[i].count % 0x1_0000;
      if liveTime > 0 {
        actuatorMap[i] := actuatorMap[i].(count := actuatorMap[i].count - 1);
        ghost var g := View();
        if actuatorMap[i].count == 0 {
          ControlIgnoresMarks(g, Counted(f, i), actuatorMap[i].node, ActuatorSet, actuatorMap[i].ch, false);
          Control(actuatorMap[i].node, ActuatorSet, actuatorMap[i].ch, false);
        }
        MarkDue(i);
      }
    }

    /** At the end of the entry's interval a report is due. */
    method MarkDue(i: nat)
      requires Valid() && i < MAX_ACTUATOR_COUNT && actuatorMap[i].interval > 0
      modifies this`pending, actuatorMap
      ensures var f := old(View());
        View() == if f.table[i].count % f.table[i].interval == 0
                  then f.(table := f.table[i := f.table[i].(due := true)], pending := if f.pending < 63 then f.pending + 1 else f.pending)
                  else f
    {
      hide Outputs;
      ghost var t := actuatorMap[..];
      if actuatorMap[i].count % actuatorMap[i].interval == 0 {
        actuatorMap[i] := actuatorMap[i].(due := true);
        if pending < 63 { pending := pending + 1; }
        assert actuatorMap[..] == t[i := actuatorMap[i]];
      }
    }

    /** InitializeActuatorOffAtStartup */
    method OffAtStartup()
      requires Valid() && WellLaid(config, View()) && BoardsDistinct(config, Outputs(boards))
      modifies boards
      ensures View() == OffFirst(config, old(View()), installed * CHANNELS)
    {
      hide NodeControl, On, Outputs;
      ghost var f := View();
      var i := 0;
      while i < installed * CHANNELS
        invariant i <= installed * CHANNELS
        invariant View() == OffFirst(config, f, i)
      {
        Control(actuatorMap[i].node, ActuatorSet, actuatorMap[i].ch, false);
        i := i + 1;
      }
    }
  }
}
