/** The field side: the countdown table of the actuator node (software/node/src/TTA12daemon.cpp,
    software/libtp12/src/util.cpp) and the relay boards it drives
    (hardware/ver.2/cecs/m4_cecs_relay.c). A 16-bit register or mask is the set of the
    numbers of its one bits; the path from the node to the boards delivers at once. */
module Relays {
  import opened Words

  const CHANNELS := 16                       // MAXNODE_CHANNEL
  const MAX_ACTUATOR_COUNT := 16 * 8 + 1
  const OUTPUT_RELAY := 2                    // tagCAN_OUTPUT_RELAY, bits 8 to 11 of the CAN id

  type Register = set<nat>

  const ALL_BITS: Register := set b: nat | b < CHANNELS
  const NO_BITS: Register := {}

  /** One entry of ACTUATOR_MAP, with the report flag of AI. */
  datatype Entry = Entry(node: nat, ch: nat, id: int, arg: int, canid: int, interval: nat, count: nat, due: bool)

  /** One actuator value sent to the gateway: node, id and 16-bit value. */
  datatype Report = Report(node: nat, id: int, value: int)

  /** The node's table, the output registers of the relay boards by board id, how many reports
      are due (TransActuatorDataCount, at most 63), and the reports sent so far. */
  datatype Field = Field(table: seq<Entry>, relays: map<int, Register>, pending: nat, sent: seq<Report>)

  datatype Mode = Init | ActuatorSet

  /** The relay case of ProcedureRelayModule on every board of the bus. */
  function Deliver(relays: map<int, Register>, canid: int, setmask: Register, rstmask: Register): (r: map<int, Register>)
    ensures r.Keys == relays.Keys
  {
    map t | t in relays ::
      if canid % 0x100 == t && (canid / 0x100) % 16 == OUTPUT_RELAY && setmask * rstmask == {}
      then relays[t] - rstmask + setmask
      else relays[t]
  }

  /** ACTUATOR_NODE_CONTROL */
  function NodeControl(f: Field, node: nat, mode: Mode, ch: nat, on: bool): Field
    requires node * CHANNELS + ch < |f.table|
  {
    var canid := f.table[node * CHANNELS + ch].canid;
    match mode
    case Init => f.(relays := Deliver(f.relays, canid, NO_BITS, ALL_BITS))
    case ActuatorSet =>
      f.(relays := if on then Deliver(f.relays, canid, {ch}, NO_BITS) else Deliver(f.relays, canid, NO_BITS, {ch}))
  }

  /** The message depends on the CAN id in the table and on nothing else of the node. */
  lemma ControlIgnoresMarks(f: Field, g: Field, node: nat, mode: Mode, ch: nat, on: bool)
    requires node * CHANNELS + ch < |f.table| == |g.table| && f.relays == g.relays
    requires f.table[node * CHANNELS + ch].canid == g.table[node * CHANNELS + ch].canid
    ensures NodeControl(g, node, mode, ch, on) == g.(relays := NodeControl(f, node, mode, ch, on).relays)
    ensures NodeControl(f, node, mode, ch, on) == f.(relays := NodeControl(f, node, mode, ch, on).relays)
  {
  }

  /** What a `char` keeps of a number; the build sets -fsigned-char. */
  function AsChar(x: int): int { (x + 128) % 256 - 128 }

  /** GetActuatorConfigIndex: the first entry with that id, cut to a `char`, and argument, or
      -1. */
  function ConfigIndex(table: seq<Entry>, id: int, arg: int): (r: int)
    ensures -1 <= r < |table|
    ensures r >= 0 ==> table[r].id == AsChar(id) && table[r].arg == arg
    ensures forall b :: 0 <= b < (if r < 0 then |table| else r) ==> table[b].id != AsChar(id) || table[b].arg != arg
  {
    if table == [] then -1
    else
      var n := |table| - 1;
      var r := ConfigIndex(table[..n], id, arg);
      if r >= 0 then r else if table[n].id == AsChar(id) && table[n].arg == arg then n else -1
  }

  /** What the plant is set up with: how many nodes, the report interval, and per node or
      per entry what cflora-device.ini says. */
  datatype Config = Config(installed: nat, interval: nat, canids: seq<int>, ids: seq<int>, args: seq<int>, maxtimes: seq<nat>)
  {
    predicate Complete()
    {
      && installed <= 8
      && |canids| == installed
      && |ids| == |args| == |maxtimes| == installed * CHANNELS
    }
  }

  const BLANK := Entry(0, 0, 0, 0, 0, 0, 0, false)

  /** The actuator loops of ReadDevice_Config over a zeroed table. */
  function Layout(c: Config): (table: seq<Entry>)
    requires c.Complete()
    ensures |table| == MAX_ACTUATOR_COUNT
  {
    seq(MAX_ACTUATOR_COUNT, k requires 0 <= k < MAX_ACTUATOR_COUNT =>
      if k < c.installed * CHANNELS
      then Entry(k / CHANNELS, k % CHANNELS, AsChar(c.ids[k]), AsChar(c.args[k]), c.canids[k / CHANNELS], c.maxtimes[k], 0, false)
      else BLANK)
  }

  /** Channel i of node b, as configured under that node and channel. */
  lemma LayoutOf(c: Config, b: nat, i: nat)
    requires c.Complete() && b < c.installed && i < CHANNELS
    ensures var e, k := Layout(c)[b * CHANNELS + i], b * CHANNELS + i;
      && e.node == b && e.ch == i && e.canid == c.canids[b] && e.id == AsChar(c.ids[k]) && e.arg == AsChar(c.args[k])
      && e.interval == c.maxtimes[k] && e.count == 0 && !e.due
  {
  }

  /** One payload item of REQCMD_ACTUATOR_SET: id and 16-bit value. */
  function Command(c: Config, f: Field, id: int, value: int): (r: Field)
    requires WellLaid(c, f)
    ensures |r.table| == |f.table|
  {
    var (arg, time) := ParseArgument(value);
    var k := ConfigIndex(f.table[..c.installed * CHANNELS], id, arg);
    if k < 0 then f
    else
      var e := f.table[k].(interval := c.interval, count := if time > 0 then time else 1);
      NodeControl(f.(table := f.table[k := e]), e.node, ActuatorSet, e.ch, time > 0)
  }

  /** One second less for entry k, and a report due when its interval is over. */
  function Counted(f: Field, k: nat): Field
    requires k < |f.table| && f.table[k].count > 0 && f.table[k].interval > 0
  {
    var e := f.table[k].(count := f.table[k].count - 1);
    var marked := e.count % e.interval == 0;
    f.(table := f.table[k := if marked then e.(due := true) else e],
       pending := if marked && f.pending < 63 then f.pending + 1 else f.pending)
  }

  /** The actuator part of one round of Timer_handler for one entry. */
  function Count(f: Field, k: nat): (r: Field)
    requires k < |f.table|
    requires f.table[k].node * CHANNELS + f.table[k].ch < |f.table|
    requires f.table[k].count % 0x1_0000 > 0 ==> f.table[k].interval > 0
    ensures |r.table| == |f.table|
  {
    var e := f.table[k];
    if e.count % 0x1_0000 > 0 then
      var f1 := Counted(f, k);
      var e1 := f1.table[k];
      if e1.count == 0 then NodeControl(f1, e1.node, ActuatorSet, e1.ch, false) else f1
    else f
  }

  // ----------------------------------------------------------------- the invariant

  /** Entries keep their place: node and channel of an installed entry are its index. */
  ghost predicate WellLaid(c: Config, f: Field)
  {
    && c.Complete() && |f.table| == MAX_ACTUATOR_COUNT
    && forall k :: 0 <= k < MAX_ACTUATOR_COUNT ==>
         if k < c.installed * CHANNELS
         then && f.table[k].node == k / CHANNELS && f.table[k].ch == k % CHANNELS
              && f.table[k].id == AsChar(c.ids[k]) && f.table[k].arg == AsChar(c.args[k])
              && f.table[k].canid == c.canids[k / CHANNELS]
              && f.table[k].count < 0x1000
              && (f.table[k].count > 0 ==> f.table[k].interval == c.interval)
         else f.table[k] == BLANK
  }

  /** The boards are on the bus, each node's CAN id addresses the relay function of its
      own board, and the report interval is set. */
  ghost predicate BoardsDistinct(c: Config, relays: map<int, Register>)
  {
    && c.Complete() && c.interval > 0
    && (forall n :: 0 <= n < c.installed ==> (c.canids[n] / 0x100) % 16 == OUTPUT_RELAY && c.canids[n] % 0x100 in relays)
    && (forall m, n :: 0 <= m < n < c.installed ==> c.canids[m] % 0x100 != c.canids[n] % 0x100)
  }

  /** The relay of installed entry k is closed. */
  predicate On(c: Config, f: Field, k: nat)
    requires c.Complete() && k < c.installed * CHANNELS
  {
    c.canids[k / CHANNELS] % 0x100 in f.relays && k % CHANNELS in f.relays[c.canids[k / CHANNELS] % 0x100]
  }

  /** The gateway can be told about the entry: 255 stands for "no id". */
  predicate Reportable(e: Entry) { e.id % 256 < 255 }

  /** As long as a report is due that can be sent, some are counted, at most 63. */
  ghost predicate DueCounted(f: Field)
  {
    f.pending <= 63 &&
    forall k :: 0 <= k < |f.table| && f.table[k].due && Reportable(f.table[k]) ==> f.pending > 0
  }

  /** A closed relay always has time left. */
  ghost predicate Safe(c: Config, f: Field)
  {
    && WellLaid(c, f) && BoardsDistinct(c, f.relays) && DueCounted(f)
    && forall k :: 0 <= k < c.installed * CHANNELS && On(c, f, k) ==> f.table[k].count > 0
  }

  // --------------------------------------------------------------- one relay message

  /** A message for one channel reaches the relay of that entry and no other. */
  lemma SetReachesOne(c: Config, f: Field, k: nat, on: bool)
    requires WellLaid(c, f) && BoardsDistinct(c, f.relays) && k < c.installed * CHANNELS
    ensures var f' := NodeControl(f, f.table[k].node, ActuatorSet, f.table[k].ch, on);
      && f' == f.(relays := f'.relays) && f'.relays.Keys == f.relays.Keys
      && forall j :: 0 <= j < c.installed * CHANNELS ==> On(c, f', j) == if j == k then on else On(c, f, j)
  {
    var f' := NodeControl(f, f.table[k].node, ActuatorSet, f.table[k].ch, on);
    assert f.table[k].node * CHANNELS + f.table[k].ch == k;
    forall j | 0 <= j < c.installed * CHANNELS ensures On(c, f', j) == if j == k then on else On(c, f, j) {
      var m, n := k / CHANNELS, j / CHANNELS;
      if m == n {
        assert j == k <==> j % CHANNELS == k % CHANNELS;
      } else {
        assert c.canids[m] % 0x100 != c.canids[n] % 0x100;
      }
    }
  }

  /** The initialisation message opens every relay of one node and no other. */
  lemma InitReachesNode(c: Config, f: Field, node: nat)
    requires WellLaid(c, f) && BoardsDistinct(c, f.relays) && node < c.installed
    ensures var f' := NodeControl(f, node, Init, 0, false);
      && f' == f.(relays := f'.relays) && f'.relays.Keys == f.relays.Keys
      && forall j :: 0 <= j < c.installed * CHANNELS ==> (On(c, f', j) <==> On(c, f, j) && j / CHANNELS != node)
  {
    var f' := NodeControl(f, node, Init, 0, false);
    assert f.table[node * CHANNELS].canid == c.canids[node];
    forall j | 0 <= j < c.installed * CHANNELS ensures On(c, f', j) <==> On(c, f, j) && j / CHANNELS != node {
      var n := j / CHANNELS;
      if n == node {
        assert j % CHANNELS in ALL_BITS;
      } else {
        assert c.canids[node] % 0x100 != c.canids[n] % 0x100;
      }
    }
  }

  // ------------------------------------------------------------ commands and seconds

  /** The entry a command addresses, or -1. */
  function Target(c: Config, id: int, value: int): (k: int)
    requires c.Complete()
    ensures -1 <= k < c.installed * CHANNELS
  {
    ConfigIndex(Layout(c)[..c.installed * CHANNELS], id, ParseArgument(value).0)
  }

  /** Ids and arguments of the configuration count modulo 256: the target is the first entry
      that agrees with the command in both. */
  ghost predicate Addresses(c: Config, k: nat, id: int, value: int)
    requires c.Complete() && k < c.installed * CHANNELS
  {
    (c.ids[k] - id) % 256 == 0 && (c.args[k] - ParseArgument(value).0) % 256 == 0
  }

  lemma CharsAgree(a: int, b: int)
    ensures AsChar(a) == AsChar(b) <==> (a - b) % 256 == 0
    ensures 0 <= b < 16 ==> AsChar(b) == b
  {
  }

  lemma TargetExact(c: Config, id: int, value: int)
    requires c.Complete()
    ensures var k := Target(c, id, value);
      && (k >= 0 ==> Addresses(c, k, id, value))
      && forall b :: 0 <= b < (if k < 0 then c.installed * CHANNELS else k) ==> !Addresses(c, b, id, value)
  {
    var arg := ParseArgument(value).0;
    ParseRange(value);
    forall b | 0 <= b < c.installed * CHANNELS
      ensures Layout(c)[b].id == AsChar(id) && Layout(c)[b].arg == arg <==> Addresses(c, b, id, value)
    {
      CharsAgree(c.ids[b], id);
      CharsAgree(c.args[b], arg);
    }
    hide AsChar, ParseArgument, Addresses, Layout;
  }

  lemma {:induction false} SameIndex(a: seq<Entry>, b: seq<Entry>, id: int, arg: int)
    requires |a| == |b| && forall k :: 0 <= k < |a| ==> a[k].id == b[k].id && a[k].arg == b[k].arg
    ensures ConfigIndex(a, id, arg) == ConfigIndex(b, id, arg)
  {
    if a != [] { SameIndex(a[..|a| - 1], b[..|b| - 1], id, arg); }
  }

  /** A command changes its own entry and relay only: a time closes the relay for that
      many seconds, time zero opens it and leaves one second for the report. */
  lemma CommandEffect(c: Config, f: Field, id: int, value: int)
    requires Safe(c, f)
    ensures var f', k, time := Command(c, f, id, value), Target(c, id, value), ParseArgument(value).1;
      && Safe(c, f') && f'.sent == f.sent && f'.pending == f.pending
      && (k < 0 ==> f' == f)
      && (k >= 0 ==> On(c, f', k) == (time > 0) && f'.table[k].count == if time > 0 then time else 1)
      && (forall j :: 0 <= j < |f.table| && j != k ==> f'.table[j] == f.table[j])
      && (forall j :: 0 <= j < c.installed * CHANNELS && j != k ==> On(c, f', j) == On(c, f, j))
  {
    hide ConfigIndex, NodeControl, On;
    var m := c.installed * CHANNELS;
    var (arg, time) := ParseArgument(value);
    SameIndex(f.table[..m], Layout(c)[..m], id, arg);
    var k := ConfigIndex(f.table[..m], id, arg);
    if k >= 0 {
      var e := f.table[k].(interval := c.interval, count := if time > 0 then time else 1);
      var g := f.(table := f.table[k := e]);
      SameRelays(c, f, g);
      SetReachesOne(c, g, k, time > 0);
    }
  }

  lemma SameRelays(c: Config, f: Field, g: Field)
    requires c.Complete() && f.relays == g.relays
    ensures forall j :: 0 <= j < c.installed * CHANNELS ==> On(c, g, j) == On(c, f, j)
  {
  }

  /** The initialisation command opens the relays of its node and touches no countdown;
      for a node that is not installed it does nothing. */
  lemma InitEffect(c: Config, f: Field, node: nat)
    requires Safe(c, f) && node * CHANNELS < MAX_ACTUATOR_COUNT
    ensures var f' := NodeControl(f, node, Init, 0, false);
      && Safe(c, f') && f' == f.(relays := f'.relays)
      && forall j :: 0 <= j < c.installed * CHANNELS ==> (On(c, f', j) <==> On(c, f, j) && j / CHANNELS != node)
  {
    if node < c.installed {
      InitReachesNode(c, f, node);
    } else {
      assert f.table[node * CHANNELS] == BLANK;
    }
  }

  /** The first n entries of one round of the timer. */
  function CountFirst(c: Config, f: Field, n: nat): (r: Field)
    requires Safe(c, f) && n <= MAX_ACTUATOR_COUNT
    ensures CountedTo(c, f, r, n)
  {
    if n == 0 then f
    else
      var r := CountFirst(c, f, n - 1);
      CountEffect(c, f, r, n - 1);
      Count(r, n - 1)
  }

  /** The countdowns after one round of the timer: every running one is down by one, and the
      relay of one that reached zero is open. */
  function CountRound(c: Config, f: Field): Field
    requires Safe(c, f)
  {
    CountFirst(c, f, MAX_ACTUATOR_COUNT)
  }

  /** A running countdown that this second brings to a multiple of the report interval, its end
      included. */
  predicate Marks(c: Config, count: nat)
  {
    count > 0 && c.interval > 0 && (count - 1) % c.interval == 0
  }

  /** The field when the timer has passed the first n entries. */
  ghost predicate CountedTo(c: Config, f: Field, r: Field, n: nat)
  {
    && WellLaid(c, f) && WellLaid(c, r) && BoardsDistinct(c, r.relays) && DueCounted(r) && r.sent == f.sent
    && (forall k :: 0 <= k < c.installed * CHANNELS ==>
          if k < n
          then && r.table[k].count == (if f.table[k].count > 0 then f.table[k].count - 1 else 0)
               && (On(c, r, k) <==> On(c, f, k) && f.table[k].count > 1)
               && (r.table[k].due <==> f.table[k].due || Marks(c, f.table[k].count))
          else r.table[k] == f.table[k] && On(c, r, k) == On(c, f, k))
  }

  /** One second less for an installed entry, before its relay is touched. */
  lemma CountedKeeps(c: Config, r: Field, k: nat)
    requires WellLaid(c, r) && BoardsDistinct(c, r.relays) && DueCounted(r)
    requires k < c.installed * CHANNELS && r.table[k].count > 0
    ensures r.table[k].interval > 0
    ensures var g := Counted(r, k);
      && WellLaid(c, g) && DueCounted(g) && g.relays == r.relays && g.sent == r.sent
      && g.table[k].count == r.table[k].count - 1 && (g.table[k].due <==> r.table[k].due || Marks(c, r.table[k].count))
      && (forall j :: 0 <= j < MAX_ACTUATOR_COUNT && j != k ==> g.table[j] == r.table[j])
  {
  }

  lemma SameTable(c: Config, f: Field, g: Field)
    requires g == f.(relays := g.relays)
    ensures (WellLaid(c, g) <==> WellLaid(c, f)) && (DueCounted(g) <==> DueCounted(f))
  {
  }

  /** What counting does to the field when the countdown of entry k runs. */
  lemma CountRunning(c: Config, r: Field, k: nat)
    requires WellLaid(c, r) && BoardsDistinct(c, r.relays) && DueCounted(r)
    requires k < c.installed * CHANNELS && 0 < r.table[k].count
    ensures r.table[k].interval > 0 && r.table[k].node * CHANNELS + r.table[k].ch < |r.table| && r.table[k].count < 0x1000
    ensures var h := Count(r, k);
      && WellLaid(c, h) && BoardsDistinct(c, h.relays) && DueCounted(h) && h.sent == r.sent
      && h.table == Counted(r, k).table
      && (forall j :: 0 <= j < c.installed * CHANNELS ==>
            (On(c, h, j) <==> On(c, r, j) && (j != k || r.table[k].count > 1)))
  {
    var g := Counted(r, k);
    CountedKeeps(c, r, k);
    EntryPlace(c, r, k);
    EntryPlace(c, g, k);
    SameRelays(c, r, g);
    SetReachesOne(c, g, k, false);
    SameTable(c, g, NodeControl(g, g.table[k].node, ActuatorSet, g.table[k].ch, false));
    hide NodeControl, On, Counted, WellLaid, DueCounted;
  }

  lemma CountEffect(c: Config, f: Field, r: Field, k: nat)
    requires Safe(c, f) && k < MAX_ACTUATOR_COUNT && CountedTo(c, f, r, k)
    ensures CountedTo(c, f, Count(r, k), k + 1)
  {
    if k < c.installed * CHANNELS {
      EntryPlace(c, r, k);
      if r.table[k].count > 0 {
        CountRunning(c, r, k);
        CountedKeeps(c, r, k);
        hide Count;
      }
    } else {
      assert r.table[k] == BLANK;
    }
    hide NodeControl, On, Counted, WellLaid, DueCounted, BoardsDistinct;
  }

  lemma EntryPlace(c: Config, f: Field, k: nat)
    requires WellLaid(c, f) && k < c.installed * CHANNELS
    ensures |f.table| == MAX_ACTUATOR_COUNT && f.table[k].node * CHANNELS + f.table[k].ch == k && f.table[k].count < 0x1000
  {
  }

  // ------------------------------------------------------------------------ reports

  predicate Reported(e: Entry) { e.due && Reportable(e) }

  /** COUNT | (ARG << 12), in 16 bits */
  function ReportOf(e: Entry): Report
  {
    Report(e.node, e.id % 256, PackArgument(e.arg, e.count) % 0x1_0000)
  }

  /** The values of the first n entries that TransOnStatusActuatorData sends, node by node. */
  function ReportsOf(table: seq<Entry>, n: nat): seq<Report>
    requires n <= |table|
  {
    if n == 0 then [] else ReportsOf(table, n - 1) + if Reported(table[n - 1]) then [ReportOf(table[n - 1])] else []
  }

  function Sent(e: Entry): Entry { if Reported(e) then e.(due := false) else e }

  /** TransOnStatusActuatorData and the reset of the counter */
  function Transmit(c: Config, f: Field): (r: Field)
    requires c.Complete() && |f.table| == MAX_ACTUATOR_COUNT
    ensures |r.table| == |f.table|
  {
    var m := c.installed * CHANNELS;
    f.(table := seq(MAX_ACTUATOR_COUNT, k requires 0 <= k < MAX_ACTUATOR_COUNT => if k < m then Sent(f.table[k]) else f.table[k]),
       pending := 0, sent := f.sent + ReportsOf(f.table, m))
  }

  /** One round of the timer, with or without a gateway connected. */
  function Second(c: Config, f: Field, connected: bool): Field
    requires Safe(c, f)
  {
    var r := CountRound(c, f);
    if r.pending > 0 && connected then Transmit(c, r) else r
  }

  /** Entry k is among the reports sent from position `first` on. */
  ghost predicate Told(sent: seq<Report>, first: nat, e: Entry)
  {
    exists m :: first <= m < |sent| && sent[m] == ReportOf(e)
  }

  lemma {:induction false} ReportsAre(table: seq<Entry>, n: nat)
    requires n <= |table|
    ensures forall k :: 0 <= k < n && Reported(table[k]) ==> ReportOf(table[k]) in ReportsOf(table, n)
    ensures forall x :: x in ReportsOf(table, n) ==> exists k :: 0 <= k < n && Reported(table[k]) && x == ReportOf(table[k])
  {
    hide ReportOf, Reported;
    if n > 0 { ReportsAre(table, n - 1); }
  }

  /** A report decodes, at the server as at the node, to the direction and the seconds left. */
  lemma ReportDecodes(e: Entry)
    requires e.count < 0x1000 && -128 <= e.arg < 128
    ensures ParseArgument(ReportOf(e).value) == (e.arg % 16, e.count)
  {
    PackSigned(e.arg, e.count);
    NodeReadsSameFields(PackArgument(e.arg, e.count));
    FieldsOf(e.arg, e.count);
    hide PackArgument, ParseArgument;
  }

  lemma PackSigned(arg: int, count: nat)
    requires -128 <= arg < 128 && count < 0x1000
    ensures PackArgument(arg, count) == arg * 4096 + count
  {
    hide BitOr, Pow2;
    FieldShift();
    OrOfDisjointBits(arg, count, ARG_BIT);
  }

  lemma FieldsOf(arg: int, count: nat)
    requires count < 0x1000
    ensures ParseArgument(arg * 4096 + count) == (arg % 16, count)
  {
    var w := arg * 4096 + count;
    assert w % 4096 == count && w / 4096 == arg;
  }

  /** Sending tells every due entry that has an id, and leaves none of them due. */
  lemma TransmitEffect(c: Config, f: Field)
    requires WellLaid(c, f) && BoardsDistinct(c, f.relays)
    ensures var r := Transmit(c, f);
      && WellLaid(c, r) && DueCounted(r) && r.relays == f.relays && f.sent <= r.sent
      && (forall k :: 0 <= k < c.installed * CHANNELS ==>
            && r.table[k] == f.table[k].(due := r.table[k].due)
            && (r.table[k].due <==> f.table[k].due && !Reportable(f.table[k]))
            && (f.table[k].due ==> r.table[k].due || Told(r.sent, |f.sent|, r.table[k])))
  {
    hide ReportOf, ReportsOf, BoardsDistinct, Told;
    TransmitTells(c, f);
  }

  lemma TransmitTells(c: Config, f: Field)
    requires c.Complete() && |f.table| == MAX_ACTUATOR_COUNT
    ensures var r := Transmit(c, f);
      forall k :: 0 <= k < c.installed * CHANNELS && Reported(f.table[k]) ==> Told(r.sent, |f.sent|, r.table[k])
  {
    hide ReportOf, ReportsOf, Reported, Transmit;
    var r, m := Transmit(c, f), c.installed * CHANNELS;
    ReportsAre(f.table, m);
    TransmitTables(c, f);
    forall k | 0 <= k < m && Reported(f.table[k]) ensures Told(r.sent, |f.sent|, r.table[k]) {
      var j :| 0 <= j < |ReportsOf(f.table, m)| && ReportsOf(f.table, m)[j] == ReportOf(f.table[k]);
      assert r.sent[|f.sent| + j] == ReportOf(r.table[k]);
    }
  }

  lemma SameReport(e: Entry, e': Entry)
    requires e' == e.(due := e'.due)
    ensures ReportOf(e') == ReportOf(e)
  {
  }

  /** What one round does to entry k: a countdown less, its relay open at the end. A multiple of
      the report interval is reported in the same round if a gateway is connected, or due
      from then on; nothing else becomes due. */
  ghost predicate Passed(c: Config, f: Field, r: Field, connected: bool, k: nat)
    requires c.Complete() && k < c.installed * CHANNELS && |f.table| == |r.table| == MAX_ACTUATOR_COUNT
  {
    && r.table[k].count == (if f.table[k].count > 0 then f.table[k].count - 1 else 0)
    && (On(c, r, k) <==> On(c, f, k) && f.table[k].count > 1)
    && (f.table[k].due || Marks(c, f.table[k].count) ==> r.table[k].due || Told(r.sent, |f.sent|, r.table[k]))
    && (r.table[k].due ==> f.table[k].due || Marks(c, f.table[k].count))
    && (connected && Reportable(r.table[k]) ==> !r.table[k].due)
  }

  /** A whole round of the timer. */
  lemma SecondEffect(c: Config, f: Field, connected: bool)
    requires Safe(c, f)
    ensures var r := Second(c, f, connected);
      && Safe(c, r) && f.sent <= r.sent
      && forall k :: 0 <= k < c.installed * CHANNELS ==> Passed(c, f, r, connected, k)
  {
    hide On, CountFirst, ReportOf, Transmit;
    var g := CountRound(c, f);
    CountedSafe(c, f, g);
    if g.pending > 0 && connected {
      TransmitEffect(c, g);
      SameRelays(c, g, Transmit(c, g));
    }
  }

  predicate Rising(ks: seq<nat>) { forall a, b :: 0 <= a < b < |ks| ==> ks[a] < ks[b] }

  /** The places of the due entries with an id, in the order of the table */
  function DuePlaces(table: seq<Entry>, n: nat): seq<nat>
    requires n <= |table|
  {
    if n == 0 then [] else DuePlaces(table, n - 1) + if Reported(table[n - 1]) then [n - 1] else []
  }

  lemma {:induction false} PlacesRise(table: seq<Entry>, n: nat)
    requires n <= |table|
    ensures Rising(DuePlaces(table, n)) && forall k: nat :: k in DuePlaces(table, n) <==> k < n && Reported(table[k])
  {
    hide Reported;
    if n > 0 {
      PlacesRise(table, n - 1);
      var js := DuePlaces(table, n - 1);
      assert forall a :: 0 <= a < |js| ==> js[a] in js;
    }
  }

  lemma {:induction false} PlacesReport(table: seq<Entry>, n: nat)
    requires n <= |table|
    ensures |DuePlaces(table, n)| == |ReportsOf(table, n)|
    ensures forall a :: 0 <= a < |DuePlaces(table, n)| ==>
      DuePlaces(table, n)[a] < n && ReportsOf(table, n)[a] == ReportOf(table[DuePlaces(table, n)[a]])
  {
    hide ReportOf, Reported;
    if n > 0 { PlacesReport(table, n - 1); }
  }

  /** What sending adds: the reports of the due entries with an id, each once. */
  lemma TransmitReports(c: Config, g: Field) returns (ks: seq<nat>)
    requires c.Complete() && |g.table| == MAX_ACTUATOR_COUNT
    ensures var r, n := Transmit(c, g), c.installed * CHANNELS;
      && |r.sent| == |g.sent| + |ks| && Rising(ks)
      && (forall a :: 0 <= a < |ks| ==> ks[a] < n && r.sent[|g.sent| + a] == ReportOf(r.table[ks[a]]))
      && (forall k: nat :: k in ks <==> k < n && Reported(g.table[k]))
  {
    hide ReportsOf, ReportOf, Reported, DuePlaces, Transmit, Rising;
    var n, r := c.installed * CHANNELS, Transmit(c, g);
    ks := DuePlaces(g.table, n);
    PlacesRise(g.table, n);
    PlacesReport(g.table, n);
    TransmitTables(c, g);
    forall a | 0 <= a < |ks| ensures r.sent[|g.sent| + a] == ReportOf(r.table[ks[a]]) {
      assert ReportsOf(g.table, n)[a] == ReportOf(g.table[ks[a]]);
    }
  }

  lemma TransmitTables(c: Config, g: Field)
    requires c.Complete() && |g.table| == MAX_ACTUATOR_COUNT
    ensures var r, n := Transmit(c, g), c.installed * CHANNELS;
      && r.sent == g.sent + ReportsOf(g.table, n)
      && forall k :: 0 <= k < n ==> ReportOf(r.table[k]) == ReportOf(g.table[k])
  {
    hide ReportsOf, Reported, PackArgument;
  }

  /** Exactly what a round reports: with a gateway connected the entries with an id that were
      due or come to a multiple of the report interval, each once; without one nothing. */
  lemma SecondReports(c: Config, f: Field, connected: bool) returns (ks: seq<nat>)
    requires Safe(c, f)
    ensures var r := Second(c, f, connected);
      && |r.table| == MAX_ACTUATOR_COUNT && |r.sent| == |f.sent| + |ks| && Rising(ks)
      && (forall a :: 0 <= a < |ks| ==> ks[a] < c.installed * CHANNELS && r.sent[|f.sent| + a] == ReportOf(r.table[ks[a]]))
      && (forall k: nat :: k in ks <==>
            && connected && k < c.installed * CHANNELS && Reportable(f.table[k])
            && (f.table[k].due || Marks(c, f.table[k].count)))
  {
    var g, n := CountRound(c, f), c.installed * CHANNELS;
    SameIds(c, f, g);
    hide On, CountFirst, ReportOf, Transmit, BoardsDistinct, Reportable, Marks;
    if g.pending > 0 && connected { ks := TransmitReports(c, g); } else { ks := []; }
  }

  lemma SameIds(c: Config, f: Field, g: Field)
    requires WellLaid(c, f) && WellLaid(c, g)
    ensures forall k :: 0 <= k < c.installed * CHANNELS ==> (Reportable(f.table[k]) <==> Reportable(g.table[k]))
  {
    hide AsChar;
  }

  lemma SentEntry(c: Config, g: Field, m: nat) returns (k: nat)
    requires c.Complete() && |g.table| == MAX_ACTUATOR_COUNT && |g.sent| <= m < |Transmit(c, g).sent|
    ensures k < c.installed * CHANNELS && Transmit(c, g).sent[m] == ReportOf(Transmit(c, g).table[k])
  {
    var n, r := c.installed * CHANNELS, Transmit(c, g);
    ReportsAre(g.table, n);
    var x := ReportsOf(g.table, n)[m - |g.sent|];
    assert x in ReportsOf(g.table, n) && r.sent[m] == x;
    k :| 0 <= k < n && Reported(g.table[k]) && x == ReportOf(g.table[k]);
    SameReport(g.table[k], r.table[k]);
    hide ReportsOf, ReportOf;
  }

  lemma ReportFacts(c: Config, r: Field, k: nat)
    requires WellLaid(c, r) && k < c.installed * CHANNELS
    ensures var x := ReportOf(r.table[k]);
      && x.node == k / CHANNELS && (x.id - c.ids[k]) % 256 == 0
      && ParseArgument(x.value) == (c.args[k] % 16, r.table[k].count)
  {
    EntryFacts(c, r, k);
    ReportDecodes(r.table[k]);
    hide ParseArgument, PackArgument;
  }

  /** Every report tells the state after the round: the direction of some entry, by its own
      node and id, and the seconds it has left. */
  lemma ReportsTell(c: Config, f: Field, connected: bool, m: nat) returns (k: nat)
    requires Safe(c, f) && |f.sent| <= m < |Second(c, f, connected).sent|
    ensures var r := Second(c, f, connected);
      && k < c.installed * CHANNELS && |r.table| == MAX_ACTUATOR_COUNT && r.sent[m] == ReportOf(r.table[k])
      && r.sent[m].node == k / CHANNELS && (r.sent[m].id - c.ids[k]) % 256 == 0
      && ParseArgument(r.sent[m].value) == (c.args[k] % 16, r.table[k].count)
  {
    SecondEffect(c, f, connected);
    k := SentEntry(c, CountRound(c, f), m);
    ReportFacts(c, Second(c, f, connected), k);
    hide CountRound, WellLaid, On, ParseArgument, ReportOf, BoardsDistinct, DueCounted, Transmit, Passed;
  }

  lemma CountedSafe(c: Config, f: Field, g: Field)
    requires Safe(c, f) && CountedTo(c, f, g, MAX_ACTUATOR_COUNT)
    ensures Safe(c, g)
  {
    hide On;
  }

  // ----------------------------------------------------------------------- start-up

  /** InitializeActuatorOffAtStartup for the first n entries. */
  function OffFirst(c: Config, f: Field, n: nat): (r: Field)
    requires WellLaid(c, f) && BoardsDistinct(c, f.relays) && n <= c.installed * CHANNELS
    ensures r == f.(relays := r.relays) && BoardsDistinct(c, r.relays)
    ensures forall j :: 0 <= j < c.installed * CHANNELS ==> (On(c, r, j) <==> On(c, f, j) && j >= n)
  {
    if n == 0 then f
    else
      var r := OffFirst(c, f, n - 1);
      SetReachesOne(c, r, n - 1, false);
      NodeControl(r, r.table[n - 1].node, ActuatorSet, r.table[n - 1].ch, false)
  }

  /** Whatever the boards show when the node comes up, its start-up opens every relay. */
  lemma StartsSafe(c: Config, relays: map<int, Register>)
    requires BoardsDistinct(c, relays)
    ensures var f := OffFirst(c, Field(Layout(c), relays, 0, []), c.installed * CHANNELS);
      Safe(c, f) && forall j :: 0 <= j < c.installed * CHANNELS ==> !On(c, f, j)
  {
    hide On, OffFirst;
  }

  // --------------------------------------------------------------------------- runs

  datatype Event = Set(id: int, value: int) | InitNode(node: nat) | Tick(connected: bool)

  predicate Possible(e: Event) { e.InitNode? ==> e.node * CHANNELS < MAX_ACTUATOR_COUNT }

  ghost predicate AllPossible(es: seq<Event>) { forall k :: 0 <= k < |es| ==> Possible(es[k]) }

  /** One event under the command mutex. */
  function Step(c: Config, f: Field, e: Event): (f': Field)
    requires Safe(c, f) && Possible(e)
    ensures Safe(c, f') && f.sent <= f'.sent
  {
    match e
    case Set(id, value) => CommandEffect(c, f, id, value); Command(c, f, id, value)
    case InitNode(node) => InitEffect(c, f, node); NodeControl(f, node, Init, 0, false)
    case Tick(connected) => SecondEffect(c, f, connected); Second(c, f, connected)
  }

  /** In every run a closed relay has time left: `Safe` is the type of every step. */
  function Run(c: Config, f: Field, es: seq<Event>): (r: Field)
    requires Safe(c, f) && AllPossible(es)
    ensures Safe(c, r) && f.sent <= r.sent
  {
    if es == [] then f else Step(c, Run(c, f, es[..|es| - 1]), es[|es| - 1])
  }

  /** Relay safety: after start-up, whatever commands and timer rounds follow, a closed
      relay has time left on its countdown. */
  lemma ClosedRelayHasTime(c: Config, relays: map<int, Register>, es: seq<Event>, k: nat)
    requires BoardsDistinct(c, relays) && AllPossible(es) && k < c.installed * CHANNELS
    ensures var f := OffFirst(c, Field(Layout(c), relays, 0, []), c.installed * CHANNELS);
      Safe(c, f) && (On(c, Run(c, f, es), k) ==> Run(c, f, es).table[k].count > 0)
  {
    hide On, OffFirst, Run;
    StartsSafe(c, relays);
  }

  function Seconds(es: seq<Event>): nat
  {
    if es == [] then 0 else Seconds(es[..|es| - 1]) + (if es[|es| - 1].Tick? then 1 else 0)
  }

  /** No command for the entry and no initialisation of its node. */
  ghost predicate Undisturbed(c: Config, es: seq<Event>, k: int)
    requires c.Complete()
  {
    forall i :: 0 <= i < |es| ==>
      (es[i].Set? ==> Target(c, es[i].id, es[i].value) != k) && (es[i].InitNode? ==> es[i].node != k / CHANNELS)
  }

  /** Exact on-time: after an ON command of v seconds and s further seconds with no command
      for the entry, its relay is closed exactly if s < v, and v - s seconds are left;
      after the end of the time a report of it is still due or was sent. */
  lemma {:induction false} ExactOnTime(c: Config, f: Field, id: int, value: int, es: seq<Event>)
    requires Safe(c, f) && AllPossible(es)
    requires Target(c, id, value) >= 0 && ParseArgument(value).1 > 0
    requires Undisturbed(c, es, Target(c, id, value))
    ensures var k, v, s := Target(c, id, value), ParseArgument(value).1, Seconds(es);
      var f1 := Step(c, f, Set(id, value));
      var r := Run(c, f1, es);
      && (On(c, r, k) <==> s < v)
      && r.table[k].count == (if s < v then v - s else 0)
      && (s >= v ==> r.table[k].due || Told(r.sent, |f1.sent|, r.table[k]))
  {
    hide On, Command, Second, NodeControl, ParseArgument, Target;
    var k := Target(c, id, value);
    var f1 := Step(c, f, Set(id, value));
    if es == [] {
      CommandEffect(c, f, id, value);
    } else {
      var init, e := es[..|es| - 1], es[|es| - 1];
      ExactOnTime(c, f, id, value, init);
      var r := Run(c, f1, init);
      StepElsewhere(c, r, e, k);
      var t := Step(c, r, e);
      hide Step, Safe, ReportOf;
      if Told(r.sent, |f1.sent|, r.table[k]) && t.table[k].count == r.table[k].count { ToldStays(c, f1.sent, r, t, k); }
      if Told(t.sent, |r.sent|, t.table[k]) { ToldBefore(t.sent, |f1.sent|, |r.sent|, t.table[k]); }
    }
  }

  lemma ToldBefore(sent: seq<Report>, first: nat, later: nat, e: Entry)
    requires first <= later && Told(sent, later, e)
    ensures Told(sent, first, e)
  {
  }

  /** What was told stays told while the countdown stands. */
  lemma ToldStays(c: Config, start: seq<Report>, r: Field, t: Field, k: nat)
    requires WellLaid(c, r) && WellLaid(c, t) && k < c.installed * CHANNELS && r.sent <= t.sent
    requires t.table[k].count == r.table[k].count && Told(r.sent, |start|, r.table[k])
    ensures Told(t.sent, |start|, t.table[k])
  {
    var m :| |start| <= m < |r.sent| && r.sent[m] == ReportOf(r.table[k]);
    assert t.sent[m] == ReportOf(t.table[k]);
  }

  /** One event that does not address entry k. */
  lemma StepElsewhere(c: Config, f: Field, e: Event, k: nat)
    requires Safe(c, f) && Possible(e) && k < c.installed * CHANNELS && Undisturbed(c, [e], k)
    ensures var r := Step(c, f, e);
      if e.Tick? then Passed(c, f, r, e.connected, k) else r.table[k] == f.table[k] && On(c, r, k) == On(c, f, k)
  {
    hide On, Command, Second, NodeControl, ParseArgument, Target;
    assert [e][0] == e;
    match e
    case Set(id, value) => CommandEffect(c, f, id, value);
    case InitNode(node) => InitEffect(c, f, node);
    case Tick(connected) => SecondEffect(c, f, connected);
  }

  lemma EntryFacts(c: Config, f: Field, k: nat)
    requires WellLaid(c, f) && k < c.installed * CHANNELS
    ensures var e := f.table[k];
      e.id == AsChar(c.ids[k]) && -128 <= e.arg < 128 && e.arg % 16 == c.args[k] % 16 && e.count < 0x1000
  {
    CharRange(c.args[k]);
    hide AsChar;
  }

  lemma CharRange(x: int)
    ensures -128 <= AsChar(x) < 128 && AsChar(x) % 16 == x % 16
  {
    var q := (x + 128) / 256;
    assert AsChar(x) == x - 256 * q;
    WholeSixteens(x, 16 * q);
    hide AsChar;
  }

  lemma WholeSixteens(x: int, m: int)
    ensures (x - 16 * m) % 16 == x % 16
  {
    var d := x / 16;
    assert x - 16 * m == 16 * (d - m) + x % 16;
  }

  /** While an ON command of v seconds runs, every second that leaves a multiple of the report
      interval reports, with a gateway connected, the direction and the seconds left. */
  lemma PeriodicReport(c: Config, f: Field, id: int, value: int, es: seq<Event>)
    requires Safe(c, f) && AllPossible(es)
    requires Target(c, id, value) >= 0 && Undisturbed(c, es, Target(c, id, value))
    requires Seconds(es) < ParseArgument(value).1 && (ParseArgument(value).1 - Seconds(es) - 1) % c.interval == 0
    requires Reportable(Layout(c)[Target(c, id, value)])
    ensures var k, left := Target(c, id, value), ParseArgument(value).1 - Seconds(es) - 1;
      var r := Run(c, Step(c, f, Set(id, value)), es);
      var t := Step(c, r, Tick(true));
      && Told(t.sent, |r.sent|, t.table[k]) && t.table[k].count == left
      && ParseArgument(ReportOf(t.table[k]).value) == (c.args[k] % 16, left)
  {
    hide On, Second, Run, Target, ReportOf, ParseArgument, Told, WellLaid, DueCounted, BoardsDistinct, Layout, Undisturbed,
      Seconds, Reportable;
    SafeFits(c, f);
    var k := Target(c, id, value);
    ExactOnTime(c, f, id, value, es);
    MarkedIsTold(c, Run(c, Step(c, f, Set(id, value)), es), k);
  }

  /** A second that brings a running countdown to a multiple of the interval, with a gateway. */
  lemma MarkedIsTold(c: Config, r: Field, k: nat)
    requires Safe(c, r) && k < c.installed * CHANNELS && Marks(c, r.table[k].count) && Reportable(Layout(c)[k])
    ensures var t := Step(c, r, Tick(true));
      && Told(t.sent, |r.sent|, t.table[k]) && t.table[k].count == r.table[k].count - 1
      && ParseArgument(ReportOf(t.table[k]).value) == (c.args[k] % 16, t.table[k].count)
  {
    hide On, Second, ReportOf, ParseArgument, Told, WellLaid, DueCounted, BoardsDistinct, Layout, Reportable, Marks;
    SafeFits(c, r);
    SecondEffect(c, r, true);
    var t := Second(c, r, true);
    SafeFits(c, t);
    LaidAlike(c, t, k);
    ReportFacts(c, t, k);
    assert Passed(c, r, t, true, k);
    MarksRun(c, r.table[k].count);
  }

  lemma SafeFits(c: Config, f: Field)
    requires Safe(c, f)
    ensures c.Complete() && c.interval > 0 && |f.table| == MAX_ACTUATOR_COUNT
  {
  }

  lemma MarksRun(c: Config, count: nat)
    ensures Marks(c, count) ==> count > 0
  {
  }

  lemma LaidAlike(c: Config, f: Field, k: nat)
    requires WellLaid(c, f) && k < c.installed * CHANNELS
    ensures Reportable(f.table[k]) <==> Reportable(Layout(c)[k])
  {
    hide AsChar;
  }

  /** In the second in which the time of an entry ends, with a gateway connected, the end is
      reported to it: the entry's direction with no seconds left. */
  lemma EndIsReported(c: Config, f: Field, k: nat)
    requires Safe(c, f) && k < c.installed * CHANNELS && f.table[k].count == 1 && Reportable(f.table[k])
    ensures var r := Step(c, f, Tick(true));
      && r.table[k].count == 0 && Told(r.sent, |f.sent|, r.table[k])
      && ParseArgument(ReportOf(r.table[k]).value) == (c.args[k] % 16, 0)
  {
    SecondEffect(c, f, true);
    var r := Second(c, f, true);
    EntryFacts(c, f, k);
    EntryFacts(c, r, k);
    ReportDecodes(r.table[k]);
    assert Passed(c, f, r, true, k);
    hide On, Second, ReportOf, ParseArgument, Told, WellLaid, BoardsDistinct, DueCounted, AsChar;
  }

  // ------------------------------------------------- from the server to the relay

  /** The word of an accepted server command, cut to 16 bits on the way, addresses the
      entry of its direction and closes the relay for its time, or opens it at time zero. */
  lemma ServerCommandArrives(c: Config, f: Field, id: int, ctrlarg: int)
    requires Safe(c, f)
    ensures var (arg, time) := ParseArgument(ctrlarg);
      var k := ConfigIndex(Layout(c)[..c.installed * CHANNELS], id, arg);
      var f' := Command(c, f, id, ctrlarg % 0x1_0000);
      if k < 0 then f' == f
      else On(c, f', k) == (time > 0) && f'.table[k].count == if time > 0 then time else 1
  {
    NodeReadsSameFields(ctrlarg);
    hide On, Command, ParseArgument, Layout, ConfigIndex;
    CommandEffect(c, f, id, ctrlarg % 0x1_0000);
  }

  /** The stop command of the server keeps its own word although the slot takes over the
      direction of the running command, so at the node it opens the relay of the running
      command exactly if both were given for the same direction. */
  lemma StopReachesRelay(c: Config, f: Field, id: int, running: int, stop: int)
    requires Safe(c, f) && ParseArgument(stop).1 == 0
    requires Target(c, id, running) >= 0 && On(c, f, Target(c, id, running))
    ensures var k := Target(c, id, running);
      !On(c, Command(c, f, id, stop % 0x1_0000), k) <==> ParseArgument(stop).0 == ParseArgument(running).0
  {
    NodeReadsSameFields(stop);
    CommandEffect(c, f, id, stop % 0x1_0000);
    hide On, Command, ParseArgument, Layout;
  }
}
