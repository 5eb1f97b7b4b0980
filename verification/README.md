# Greenhouse controller: a verified model

This project models the cores of a greenhouse controller in Dafny 4.11 and proves what
they promise. The operating server drives actuators from a table of commands; a field node
switches relays on countdowns; two receivers cut byte streams into packets and frames;
sensor readings are calibrated, tested by control rules, and measured by an analog board.
`dafny verify dfyconfig.toml` checks everything.

Each in-place part of the program is an imperative method proved equal to a function of the
old state; the theorems are about those functions and hold over all their runs.

| files | subject |
|---|---|
| `Words` | the 16-bit actuator word, packing and unpacking |
| `Basics` | what several modules share |
| `Commands`, `GosDevice` | the command life cycle as functions of values, and in place on devices, slots and tables |
| `CommandInvariants`, `CommandRuns`, `ServerRuns` | what every operation, every tick and every action of a run keeps |
| `LifeCycle`, `TickEffects`, `BatchMeaning`, `CommandTheorems`, `StopProgress`, `IdleStops` | what the invariant and the operations mean: order of statuses, batches, stops from begin to end, limiters, sends |
| `CommandFate`, `WireRuns` | what decides over a command in a tick, limiter stops and resends over runs, and the way from a row to the frames on the wire |
| `Relays`, `NodeDaemon` | the node's countdowns and reports, and the relay boards |
| `Uart`, `UartQueues` | packets on the serial line: queues, sliding window, checksum |
| `MsgBuf`, `Frames` | the message buffer of a TCP connection and the parse loop |
| `Calibration`, `CalibrationConfig` | sensor conversion and the configuration text it comes from |
| `Rules`, `RuleRuns`, `RuleEngine` | control rules: grouping, flags, evaluation |
| `Adc` | the sampling interrupt of the analog board |
| `Witnesses`, `Literals` | a whole stop from the start, and inputs at which the code does not do what its names say |

A run of the server is any sequence of four actions: a fresh row appears in the command
table, a device reports, the timer ticks, the server restarts. The assumptions are those the
program makes: database calls succeed, device ids are unique, new rows have new ids and
status 0, and a report satisfies the two assertions at `gos_device.c:1429-1430` when a tick
reads it.

## Where the code differs from what its names and comments say

The model follows the code. For each difference the exact condition is a theorem, and an
input at which it shows is a lemma of `Witnesses` (runs of the server from its start) or
`Literals`.

- A stop command promoted on an idle actuator is not retired: the test at
  `gos_device.c:1454` shadows the one at 1459. It stays sent exactly as long as no other stop
  waits and the actuator reports no work (`TickEffects.IdleStopStays`), and blocks the
  actuator meanwhile (`IdleStops.IdleStopBlocks`; reached in `Witnesses.IdleStopReached`).
- The frame sent when a limiter is reached is not a stop: 1334 clears the time of a copy, but
  the frame is built from the word of the command. It encodes time zero exactly if the
  command was itself a stop (`TickEffects.LimiterFrameTime`; `Witnesses.LimiterFrameReached`).
- A touched limiter does not always stop the actuator: 1396-1399 gives up at the first entry
  that names no device, so a limiter in a later entry is ignored
  (`CommandTheorems.TickLimiterExact`; `Witnesses.LimiterMissed`).
- A stop command takes over the argument of the command it stops, at 1348, but is sent with
  its own word. At the node it opens the relay of the running command exactly if both were
  given for the same direction (`Relays.StopReachesRelay`; `Literals.StopMisses`).
- A write to an idle UART puts its first byte into the data register without asking whether
  it is free, so a byte that waits there is lost (`UartQueues.Transmitter.Write`;
  `Literals.OverwrittenByte`).
- Calibration: a configuration with an empty field leaves a zero segment behind, which
  answers for the reading 0 (`CalibrationConfig.ConfiguredRange`; `Literals.ZeroIsCovered`).
- The operator texts stand between operand and reading, as `gos_rule.h:10-15` pairs them: `<`
  tests "operand below reading". Read as "reading op operand" they say what is tested exactly
  for `=` and `!=`, or when both are equal (`Rules.OperatorExact`; `Literals.LessThan`).
- Rule operands are divided by the span twice, so they lie on the straight line only in
  three cases (`Rules.InterpolationExact`; `Literals.HalfWay`).
- Rows that share one bound are merged into one time span (`Rules.MergeExact`;
  `Literals.MergedAway`).
- A satisfied rule without true actions reads before its action table; an unsatisfied rule
  with false actions only executes none of them (`Rules.BranchesExact`; `Literals.FalseOnly`).
- A match is said to stop other rules, but only the inner loop is left: every later due rule
  still acts on its first span (`RuleRuns.EvaluationExact`; `Literals.BothAct`).
- The time of a rule's last execution is a second of the day, and no midnight between two
  evaluations sets it back. So over the whole life of the server a rule acts in fewer
  evaluations than fit into one day, and into one more for every evaluation that a midnight
  falls into (`RuleRuns.ActsBounded`). It can act again exactly if a later second of the day
  allows it (`RuleRuns.ActsAgainExactly`; `Literals.NeverActs`).

One difference is only a choice of the model: `cf_msgbuf.c:39` copies between overlapping
areas, which C leaves undefined, and is modelled as a move.

## Model

| member | source | states |
|---|---|---|
| CommandTheorems.EveryCommandInOnePlace | software/gos/src/gos_device.c:1171-1187 | In every state of every run each command ever inserted is a status-0 row, or in exactly one slot of one device with its row showing that slot, or archived exactly once with no row left; ids never inserted are nowhere |
| CommandTheorems.LifeCycleOverRuns | software/gos/src/gos_device.c:1150-1187 | In every state of every run a command has changed its status at most six times, rows and archive entries show its last logged status, and "finished by the actuator sensor" is preceded, for the same command, by working and then stopping |
| CommandTheorems.StopsPinnedAndPaired | software/gos/src/gos_device.c:1339-1352 | In every reachable state a command being stopped has a stop command waiting, so the assertion at 1342 never fires; each entry "finished by a stop command" is directly followed by that device's stop command, finished normally |
| CommandTheorems.ArgumentsSurvive | software/gos/src/gos_device.c:1049-1070 | The word of every live current command decodes to its direction and time, also after being cut to 16 bits; every frame ever sent carries one of the two directions |
| CommandTheorems.TickBeginsStop | software/gos/src/gos_device.c:1416-1465 | A tick in which a stop waits once its rows are read, for a sent command or for any live command of a working actuator, reaches "stopping by a stop command" and sends the device that stop and nothing else |
| CommandTheorems.TickEndsStop | software/gos/src/gos_device.c:1447-1452 | The first tick that finds the stopped actuator reporting no time archives both commands as neighbours, frees both slots and sends the device nothing |
| CommandTheorems.StopPersists | software/gos/src/gos_device.c:1339-1352 | Whatever rows arrive, reports come in or ticks run: while the stopped actuator keeps reporting time it is sent its stop once per connected tick and nothing else, and both commands stay in place |
| CommandTheorems.StopRunsToEnd | software/gos/src/gos_device.c:1312-1465 | A whole stop over a run, from the tick that reads it: begin, repeat and end, with the exact frames sent to the device in between |
| StopProgress.TickTakesStop | software/gos/src/gos_device.c:1491-1497 | A tick that reads the first admissible stop row of an actuator with a sent command, or with a live one and time reported, begins the stop at once: the row is pinned, its word goes out, nothing else is sent to the actuator |
| StopProgress.StopRowRunsToEnd | software/gos/src/gos_device.c:1312-1465 | The whole stop from its row in the batch to the archive, with the exact frames |
| StopProgress.StopsWaitUnderWay | software/gos/src/gos_device.c:1312-1465 | In every reachable state a stop command waits for an actuator if and only if a stop of its is under way |
| StopProgress.ServeLeaves | software/gos/src/gos_device.c:1471-1486 | After an actuator's share of a tick, in any state that keeps the invariant, a stop waits if and only if one is under way |
| StopProgress.StopIsTaken | software/gos/src/gos_device.c:1297-1303 | The first admissible stop of a device is in its waiting slot after the batch |
| Witnesses.StopReached | software/gos/src/gos_device.c:1312-1465 | Five actions from the start: a command is sent, a stop row is read and begins the stop, the next tick archives both |
| CommandTheorems.ReadKeepsStop | software/gos/src/gos_device.c:1297-1303 | No batch of rows displaces a waiting stop command |
| CommandTheorems.TickLimiterExact | software/gos/src/gos_device.c:1387-1413 | After a tick an actuator's command is working if and only if the actuator works on and no touched limiter is within reach: one with every earlier entry set and found. A limiter behind an entry that is not found is ignored |
| CommandTheorems.SendsBounded | software/gos/src/gos_device.c:1312-1367 | In every reachable state a live current command was sent at most 1 + resentignore / 8 times, a waiting one not at all unless a stop is running, and a running stop at most once per stopping tick |
| CommandTheorems.SendsExactOverRuns | software/gos/src/gos_device.c:1354-1364 | With the gateway connected in every tick a live command was sent exactly 1 + resentignore / 8 times, over any run |
| CommandFate.LimiterPersists | software/gos/src/gos_device.c:1331-1338 | Over any stretch of a run without a restart, while the actuator reports work and no stop command waits: a command stopped by a limiter stays current, counts one stop for each tick, and its actuator is sent its own word once for each tick with the gateway connected, and nothing else |
| CommandFate.LimiterStopEnds | software/gos/src/gos_device.c:1444-1445 | The first tick that finds the actuator at rest archives a command stopped by a limiter, as it was but finished by the sensor, and whatever waits moves up |
| CommandFate.WorkEnds | software/gos/src/gos_device.c:1441-1442 | The first tick that finds the actuator of a working command at rest archives it, as it was but finished normally, and whatever waits moves up |
| CommandFate.UnansweredResent | software/gos/src/gos_device.c:1354-1364 | Over any stretch of a run without a restart in which a sent command finds no reaction: its word goes out again in every eighth tick if the gateway is then connected, the count rises with the frames, and its actuator is sent nothing else |
| CommandFate.TickFate | software/gos/src/gos_device.c:1467-1497 | One tick, for an actuator with a live command: status, report, waiting stop and limiters decide, by a table, whether the command stays and with which status, or what it is archived as; the slots, the new archive entries and the frames of the device follow from that |
| CommandFate.ServeFate | software/gos/src/gos_device.c:1471-1486 | The same for one share of a tick, in any state that keeps the invariant |
| CommandFate.ServeIdle | software/gos/src/gos_device.c:1317-1329 | With a free current slot the share of a tick moves the waiting command up, marked sent, with its frame, and does nothing else |
| WireRuns.RowReading | software/gos/src/gos_device.c:1049-1070 | Loading keeps the device and the control source of the row; it takes direction and time from the columns if the control word is negative, else from the word; the command is refused exactly if these are not 1 or 2 and 0 to 4095, a stop exactly if the time is 0, automatic exactly if its type starts with "a" |
| WireRuns.RowReachesWire | software/gos/src/gos_device.c:1011-1047 | Over any run: every frame ever sent for a command goes to the device of the row it was inserted with, and its word decodes to the direction and time that row asks for; it is the control word of the row if there is one |
| WireRuns.RowReachesSlot | software/gos/src/gos_device.c:1195-1206 | Over any run: the commands in the slots have the device, direction and time their rows ask for; only a stop under way has taken over another direction, while its word keeps its own |
| WireRuns.FramesCounted | software/gos/src/gos_device.c:1041-1046 | In every reachable state the frames ever sent for a sent, working or waiting command are as many as its count, all to its device and with its word; so a waiting command was sent none unless it is a stop under way |
| WireRuns.RunWords | software/gos/src/gos_device.c:1011-1047 | The invariant behind them: pending rows are as inserted and unsent, each command in a slot and each frame says what its row asks for |
| ServerRuns.RunInv | software/gos/src/gos_device.c:1491-1497 | The joint invariant (places, table mirror, log, pinned stops, frames) holds in every state of every run of inserts, reports, ticks and restarts |
| ServerRuns.RestartInv | software/gos/src/gos_device.c:1529-1557 | A restart keeps the joint invariant: no command is lost or duplicated |
| ServerRuns.RestartArchives | software/gos/src/gos_device.c:1529-1557 | A restart archives the row of every command in a slot, field by field, with the status the slot showed, leaves the pending rows alone, frees all slots and forgets the reports |
| ServerRuns.StartInv | software/gos/src/gos_device.c:142-219 | The freshly loaded device table satisfies the invariant |
| LifeCycle.StatusesClimb | software/gos/src/gos_device.c:1171-1187 | Two log entries of one command are strictly ordered by rank, except for repeated "stopping by a stop command" |
| LifeCycle.ChangesBounded | software/gos/src/gos_device.c:1171-1187 | The number of status changes of a command is at most the rank of its last status, hence at most six |
| LifeCycle.NumbersRise | software/gos/src/gos_device.c:1150-1187 | Short of being ignored, the stored number of a status rises with every change of it, except for a repeated "stopping by a stop command" |
| LifeCycle.TerminalIsFinal | software/gos/src/gos_device.c:1150-1187 | Nothing is written for a command after a terminal status |
| LifeCycle.AsensorFinishHasCause | software/gos/src/gos_device.c:1444-1445 | "Finished by the actuator sensor" comes straight after "stopping by the actuator sensor", which comes straight after "working" |
| LifeCycle.StopFinishHasCause | software/gos/src/gos_device.c:1447-1452 | "Finished by a stop command" comes straight after "stopping by a stop command" |
| BatchMeaning.BatchMeaning | software/gos/src/gos_device.c:1242-1309 | What a batch does, row by row, from the sorted batch alone: which rows are archived and as what, which stay pending, which command ends up in each waiting slot, and that each displaced command is archived as replaced |
| BatchMeaning.FirstStopWins | software/gos/src/gos_device.c:1297-1303 | The first admissible stop of a device is accepted and no later row of the batch replaces it |
| BatchMeaning.WithoutStopLastWins | software/gos/src/gos_device.c:1219-1229 | Without a stop, exactly the admissible rows of a device are accepted, so the last one ends up waiting |
| BatchMeaning.WaitingStopHolds | software/gos/src/gos_device.c:1297-1303 | With a stop already waiting no row of the device is accepted and the slot is unchanged |
| BatchMeaning.PassMeans | software/gos/src/gos_device.c:1279-1300 | The loop's pass variable says exactly whether a row follows a refused row of its device |
| BatchMeaning.SlotMeansStop | software/gos/src/gos_device.c:1297-1303 | The slot holds a stop exactly if one waited before or an admissible stop came by |
| BatchMeaning.SelectionExists | software/gos/src/gos_device.c:1242-1262 | Every table has a sorted selection of its pending rows, so a tick is always possible |
| BatchMeaning.SelectionOrder | software/gos/src/gos_device.c:1242-1262 | Rows are read device by device, and those of a device in the order of their ids |
| BatchMeaning.SelectionUnique | software/gos/src/gos_device.c:1242-1262 | A table has only one selection, so a tick does not depend on how the rows are found |
| TickEffects.StopBegins | software/gos/src/gos_device.c:1436-1457 | One actuator's share of a tick with a stop waiting: status, slots and the one frame |
| TickEffects.StopContinues | software/gos/src/gos_device.c:1339-1352 | While the actuator works on, its stop is sent again and nothing else changes |
| TickEffects.StopEnds | software/gos/src/gos_device.c:1447-1452 | At rest, the stopped command and its stop are archived together, in that order |
| TickEffects.IdleStopStays | software/gos/src/gos_device.c:1454-1461 | A stop promoted on an idle actuator stays SENT: a tick leaves the current command alone if and only if no other stop waits and the actuator reports no time (the test at 1454 shadows the one at 1459) |
| IdleStops.IdleStopBlocks | software/gos/src/gos_device.c:1454-1461 | Over any run: while an actuator with a sent stop reports no time and no admissible stop comes for it, the stop stays current, no waiting command is promoted and nothing is sent to it |
| IdleStops.ReadBringsNoStop | software/gos/src/gos_device.c:1241-1309 | A batch without an admissible stop for a device leaves it without a waiting stop |
| Witnesses.IdleStopReached | software/gos/src/gos_device.c:1454-1461 | Two actions from the start lead to a sent stop on an actuator at rest |
| Witnesses.LimiterFrameReached | software/gos/src/gos_device.c:1331-1338 | Five actions from the start lead to a command being stopped by a limiter, and to a second frame that encodes ten seconds |
| Witnesses.LimiterMissed | software/gos/src/gos_device.c:1395-1399 | Five actions from the start end with a touched limiter of the device table and the command working on, because the entry before it names no device |
| TickEffects.LimiterFrameTime | software/gos/src/gos_device.c:1331-1338 | The frame sent for a limiter stop is the word of the running command; its time is zero if and only if that command is itself a stop |
| TickEffects.LimiterExact | software/gos/src/gos_device.c:1387-1413 | The same for an actuator's share of a tick, in any state that keeps the invariant |
| TickEffects.ScanGoesOn | software/gos/src/gos_device.c:1391-1411 | Without a touched limiter within reach the sensor loop changes nothing |
| TickEffects.CheckFindsWork | software/gos/src/gos_device.c:1415-1465 | The working-status check leaves a command working if and only if the actuator reports time, the command was sent or working, and no stop waits |
| TickEffects.ServeSendsExact | software/gos/src/gos_device.c:1312-1367 | The exact send count survives an actuator's share of a tick with the gateway connected |
| TickEffects.RoundsApart | software/gos/src/gos_device.c:1467-1489 | Serving other devices changes no slot of this one, sends it nothing and only adds to the archive |
| TickEffects.TickServes | software/gos/src/gos_device.c:1467-1497 | A tick serves each actuator exactly once, with the slots left by reading the commands |
| CommandInvariants.UpdateEffect | software/gos/src/gos_device.c:1171-1187 | One status update: slot, row with its two counts, archive and log before and after, and that the command is neither lost nor duplicated |
| CommandInvariants.SetCurrentKeeps | software/gos/src/gos_device.c:1171-1187 | A status update of the current slot keeps the device invariant |
| CommandInvariants.RetireBothKeeps | software/gos/src/gos_device.c:1447-1452 | Ending a stop keeps the invariant and appends exactly the two entries |
| CommandInvariants.CheckWorkingKeeps | software/gos/src/gos_device.c:1416-1465 | The working-status check keeps the invariant, conserves commands and sends nothing; what it decides is stated by ServeFate |
| CommandInvariants.LimitStopKeeps | software/gos/src/gos_device.c:1369-1384 | Changes the device only from working to stopping |
| CommandInvariants.ScanAsensorsKeeps | software/gos/src/gos_device.c:1387-1413 | The sensor loop can only turn a working command into a stopping one |
| CommandInvariants.PromoteKeeps | software/gos/src/gos_device.c:1317-1329 | Moving the waiting command to the idle slot keeps it in exactly one place, marked sent, with the count of the one frame |
| CommandInvariants.SendCommandKeeps | software/gos/src/gos_device.c:1312-1367 | Sending keeps the invariant; the assertion at 1342 is part of it |
| CommandInvariants.ServeActuatorKeeps | software/gos/src/gos_device.c:1467-1489 | One actuator's share of a tick keeps the invariant and touches only its own rows |
| CommandInvariants.LoadedCommand | software/gos/src/gos_device.c:1195-1206 | A loaded command is not live, has zero counters, and its word decodes to its fields unless it is wrong; what the fields are is stated by RowReading |
| CommandInvariants.RejectKeeps | software/gos/src/gos_device.c:1273-1284 | An archived row disappears from the table, is archived once, and touches nothing else |
| CommandInvariants.UpdateWaitingKeeps | software/gos/src/gos_device.c:1219-1229 | Taking a command keeps the invariant, archives the displaced one as replaced, and changes only the waiting slot |
| CommandRuns.ReadRowKeeps | software/gos/src/gos_device.c:1270-1304 | One row of the batch keeps the invariant and the other pending rows |
| CommandRuns.ReadRowsKeeps | software/gos/src/gos_device.c:1242-1309 | Any prefix of the batch keeps the invariant, the rest still pending, nothing sent |
| CommandRuns.ServeFirstKeeps | software/gos/src/gos_device.c:1467-1489 | Any number of rounds keeps the invariant and leaves later devices as they were |
| CommandRuns.TickKeeps | software/gos/src/gos_device.c:1491-1497 | A whole tick keeps the invariant and invents no command |
| Commands.FindDevice | software/gos/src/gos_device.c:330-342 | The first device with the id, or -1 if and only if there is none |
| GosDevice.Command.Set | software/gos/src/gos_device.c:1049-1070 | The in-place fields equal the model command that RowReading describes |
| GosDevice.Backend.UpdateControl | software/gos/src/gos_device.c:1110-1132 | Row update as in the model; a missing row is left missing |
| GosDevice.UpdateCommandStatus | software/gos/src/gos_device.c:1170-1187 | In-place status update, archive and delete equal the model step that UpdateEffect describes |
| GosDevice.UpdateWaitingCommand | software/gos/src/gos_device.c:1218-1229 | In place: the slot, the table and the archive are those of UpdateWaitingKeeps |
| GosDevice.SendRealCommand | software/gos/src/gos_device.c:1011-1047 | In place: a frame and a count if the gateway is connected, otherwise nothing |
| GosDevice.SendWaiting | software/gos/src/gos_device.c:1317-1329 | In place: promotion of the waiting command |
| GosDevice.SendLimiterStop | software/gos/src/gos_device.c:1331-1338 | In place, with the stack copy the source sends from |
| GosDevice.SendStopCommand | software/gos/src/gos_device.c:1339-1352 | In place: the stop takes over the argument and is sent with its own word |
| GosDevice.Resend | software/gos/src/gos_device.c:1354-1363 | In place: the model step that UnansweredResent and FramesCounted describe, with its frame and its count |
| GosDevice.SendCommand | software/gos/src/gos_device.c:1311-1367 | In place: all branches, with the source's assertion discharged by the pinned stop |
| GosDevice.LimitstopActuator | software/gos/src/gos_device.c:1369-1384 | In place: working becomes stopping |
| GosDevice.CheckActuatorWorkingStatus | software/gos/src/gos_device.c:1415-1465 | In place: all branches, in the source's order, equal the check that ServeFate describes |
| GosDevice.Server.FindDevice | software/gos/src/gos_device.c:330-342 | The search loop finds the first device with the id |
| GosDevice.Server.ControlActuatorWithAsensor | software/gos/src/gos_device.c:1387-1413 | The sensor loop with its early exits equals the model scan |
| GosDevice.Server.ServeActuator | software/gos/src/gos_device.c:1471-1486 | One round on the shared tables equals the model round |
| GosDevice.Server.SelectAndSendCommand | software/gos/src/gos_device.c:1467-1489 | The loop over the device table equals the model's |
| GosDevice.Server.LookUp | software/gos/src/gos_device.c:1288-1289 | The cached lookup always yields the device the id finds |
| GosDevice.Server.ReadOne | software/gos/src/gos_device.c:1270-1304 | The loop body with its one reused command and pass variable equals the model row step |
| GosDevice.Server.ReadCommands | software/gos/src/gos_device.c:1241-1309 | The loop over the selected rows equals the model batch that BatchMeaning describes |
| GosDevice.Server.Control | software/gos/src/gos_device.c:1491-1497 | One timer tick in place is the model tick, and keeps the run invariant |
| Words.PackThenParse | software/gos/src/gos_device.c:75-84 | An actuator word decodes to the fields it was packed from if and only if they fit 4 and 12 bits |
| Words.PackOfFields | software/gos/src/gos_device.c:75-78 | Packing fields that fit is arg * 4096 + time |
| Words.NodeReadsSameFields | software/node/src/TTA12daemon.cpp:759-760 | The 16 bits the node receives give the same direction and time as the server's word |
| Relays.ClosedRelayHasTime | software/node/src/TTA12daemon.cpp:488-520 | After start-up, in every run of commands, initialisations and timer seconds, a closed relay has time left |
| Relays.ExactOnTime | software/node/src/TTA12daemon.cpp:488-520 | After an ON command of v seconds, with no further command for the entry, the relay is closed exactly until the v-th second, the countdown is v minus the seconds passed, and after the end a report of it is still due or was sent |
| Relays.CommandEffect | software/node/src/TTA12daemon.cpp:747-797 | A command changes its own entry and relay only, for every id and value; unknown targets change nothing |
| Relays.InitEffect | software/node/src/TTA12daemon.cpp:719-730 | Initialisation opens the relays of its own node only and touches no countdown, for node ids within the table |
| Relays.SecondEffect | software/node/src/TTA12daemon.cpp:488-534 | A timer round takes one second off every running countdown, opens exactly the relays that ran out, makes due or tells every entry that comes to a multiple of the report interval and no other, and with a gateway connected leaves no entry with an id due |
| Relays.SecondReports | software/node/src/TTA12daemon.cpp:488-534 | Exactly what a round reports: with a gateway connected the entries with an id that were due or come to a multiple of the report interval, each once and in the order of the table, with their direction and seconds left; without one nothing |
| Relays.PeriodicReport | software/node/src/TTA12daemon.cpp:511-516 | While an ON command of v seconds runs, with no further command for the entry: every second that leaves a multiple of the report interval, with a gateway connected, reports the direction and the seconds left |
| Relays.EndIsReported | software/node/src/TTA12daemon.cpp:488-534 | The second in which the time of an entry ends, with a gateway connected, sends the report of the end: its direction and no seconds left |
| Relays.ReportsTell | software/node/src/TTA12daemon.cpp:154-227 | Every report sent in a round tells some entry by node and id, its direction and the seconds it has left after the round |
| Relays.ReportDecodes | software/node/src/TTA12daemon.cpp:191-191 | The 16-bit value of a report decodes, by the masks of the server, to the direction and the countdown |
| Relays.TransmitEffect | software/node/src/TTA12daemon.cpp:154-227 | Sending tells every due entry that has an id, leaves none of them due, and changes nothing else of the table |
| Relays.TransmitReports | software/node/src/TTA12daemon.cpp:154-227 | What sending adds are the reports of the due entries with an id, each once and in the order of the table |
| Relays.LayoutOf | software/libtp12/src/util.cpp:303-331 | The entry of a channel has the node, channel, CAN id, id, argument and interval configured for it, and starts idle |
| Relays.StartsSafe | software/node/src/TTA12daemon.cpp:655-701 | Whatever the boards show, start-up leaves every relay open |
| Relays.StepElsewhere | software/node/src/TTA12daemon.cpp:719-797 | An event that does not address an entry leaves it alone, but for the passing second |
| Relays.ServerCommandArrives | software/node/src/TTA12daemon.cpp:755-790 | The word of an accepted server command, cut to 16 bits, addresses the entry of its direction and closes its relay for its time |
| Relays.StopReachesRelay | software/gos/src/gos_device.c:1343-1350 | The stop is sent with its own word, so at the node it opens the relay of the running command if and only if both were given for the same direction |
| Literals.StopMisses | software/gos/src/gos_device.c:1343-1350 | A relay that was closed for ten seconds stays closed after a stop with the word of the other direction |
| Relays.SetReachesOne | software/node/src/TTA12daemon.cpp:107-149 | A set message changes the relay of one entry, given distinct boards |
| Relays.InitReachesNode | software/node/src/TTA12daemon.cpp:119-123 | An initialisation message opens the sixteen relays of one node |
| Relays.ConfigIndex | software/libtp12/src/util.cpp:421-430 | The first entry with the id, cut to a signed char, and the argument, or -1 if and only if there is none |
| Relays.TargetExact | software/libtp12/src/util.cpp:303-331 | A command addresses the first configured entry that agrees with it in id and argument modulo 256, or none |
| Relays.OffFirst | software/node/src/TTA12daemon.cpp:655-701 | After n entries of the start-up loop the first n relays are open and the others as before |
| Relays.Run | software/node/src/TTA12daemon.cpp:107-149 | Every run from a safe field stays safe |
| NodeDaemon.RelayBoard.Receive | hardware/ver.2/cecs/m4_cecs_relay.c:114-146 | Only a relay message for this board with masks that do not overlap changes the register, first clearing and then setting |
| NodeDaemon.Node.constructor | software/libtp12/src/util.cpp:303-339 | The nested loops lay out exactly the model table |
| NodeDaemon.Node.Control | software/node/src/TTA12daemon.cpp:107-149 | The message built in place has the effect of the model message on all boards |
| NodeDaemon.Node.GetConfigIndex | software/libtp12/src/util.cpp:421-430 | The search loop returns the first matching index |
| NodeDaemon.Node.SetActuator | software/node/src/TTA12daemon.cpp:755-790 | In place, one payload item equals the model command |
| NodeDaemon.Node.CountOne | software/node/src/TTA12daemon.cpp:490-518 | In place, one entry of the timer loop, with its relay, its mark and the counter of due reports |
| NodeDaemon.Node.TimerRound | software/node/src/TTA12daemon.cpp:488-534 | In place, the timer loop and the sending of reports equal the model second |
| NodeDaemon.Node.TransOnStatusActuatorData | software/node/src/TTA12daemon.cpp:154-227 | In place, the loops over nodes and channels send the due values in order and clear their marks |
| NodeDaemon.Node.OffAtStartup | software/node/src/TTA12daemon.cpp:655-701 | In place, the start-up loop |
| Uart.ReceiverExact | hardware/ver.2/cecs/m4_cecs_uart1.c:159-185 | For every schedule of pushed bytes and calls, the packets reported so far are exactly the accepted windows of the consumed bytes, in order, and the window is their last 14 |
| Uart.SplitDoesNotMatter | software/node/src/rs232.c:570-631 | Without overflow, after draining, the reported packets depend only on the pushed stream, not on how pushes and calls alternate |
| Uart.GarbageDoesNotMatter | software/node/src/rs232.c:605-631 | After any garbage, and before any tail, a packet sent in one piece is accepted and decodes to the message sent |
| Uart.EncodeDecode | software/node/src/rs232.c:633-653 | Round trip: a packet is accepted if and only if it carries the accepting header, and decodes to its id and data; a NACK is never accepted |
| Uart.AcceptedIsEncoded | hardware/ver.2/cecs/m4_cecs_uart1.c:121-135 | Every accepted window is the encoding of what it decodes to |
| Uart.SingleWordErrorRejected | hardware/ver.2/cecs/m4_cecs_uart1.c:170-181 | Changing any single one of the seven words of an accepted packet makes it rejected |
| Uart.PollReports | hardware/ver.2/cecs/m4_cecs_uart1.c:159-185 | One call reports the next accepted window of the stream or none |
| UartQueues.RingQueue.Push | hardware/ver.2/cecs/m4_cecs_uart1.c:212-222 | Appends the byte if fewer than 255 are queued, else refuses and keeps the queue |
| UartQueues.RingQueue.Pop | software/node/src/rs232.c:595-603 | Removes the oldest byte; fails exactly on an empty queue |
| UartQueues.Receiver.ShiftIn | hardware/ver.2/cecs/m4_cecs_uart1.c:163-169 | The shifting loop equals dropping the oldest byte and appending the new one |
| UartQueues.Receiver.PacketStreaming | software/node/src/rs232.c:605-631 | The receive loop in place is the model call that PollReports describes |
| UartQueues.Transmitter.Interrupt | hardware/ver.2/cecs/m4_cecs_uart1.c:108-116 | With the data register free it takes over the oldest queued byte, else nothing changes; the stream keeps its order, and queued bytes keep the interrupt enabled |
| UartQueues.Transmitter.Write | hardware/ver.2/cecs/m4_cecs_uart1.c:137-155 | Line, data register and queue grow by exactly the bytes accepted if and only if the queue was not empty or the register was free; otherwise the byte in the register is lost |
| Literals.OverwrittenByte | hardware/ver.2/cecs/m4_cecs_uart1.c:144-147 | Two one-byte writes in a row, from the start, leave only the second byte |
| Literals.PacketBytes | software/node/src/rs232.c:633-653 | A packet byte by byte: header, id and data with the low byte first, and the 16-bit sum of id and data |
| Frames.CuttingDoesNotMatter | software/gos/src/gos_server.c:147-170 | With every frame processed, the frames delivered and the bytes kept are those of greedy decoding of the whole stream, for every way of cutting it into reads |
| Frames.NoFrameLost | software/gos/src/gos_server.c:147-170 | Whichever occurrences fail to be processed, delivered frames followed by those still buffered are the frames of the whole stream in order |
| Frames.AllProcessed | software/gos/src/gos_server.c:156-167 | With every frame processed no complete frame stays in the buffer |
| Frames.DrainIsGreedy | software/gos/src/gos_server.c:156-167 | One run of the parse loop delivers a prefix of the greedy decoding and loses nothing |
| Frames.DrainStops | software/gos/src/gos_server.c:156-167 | One run stops only after a frame whose processing failed, or when no complete frame is left |
| Frames.GreedyAppend | software/gos/src/gos_connection.c:146-157 | Decoding a longer string goes on where decoding its beginning stopped |
| MsgBuf.Buffer.constructor | software/libcflora/src/cf_msgbuf.c:14-23 | An empty queue in a block of the initial size |
| MsgBuf.Buffer.MakeRoom | software/libcflora/src/cf_msgbuf.c:27-40 | Growing or sliding keeps the contents and makes room; the block grows exactly if it lacks the room, by the step size or the size asked for |
| MsgBuf.Buffer.Append | software/libcflora/src/cf_msgbuf.c:26-46 | Contents grow by exactly the data, for every state of the buffer, and the block as in MakeRoom |
| MsgBuf.Buffer.SetUsed | software/libcflora/src/cf_msgbuf.c:83-87 | Contents lose exactly the used bytes |
| MsgBuf.Buffer.Resize | software/libcflora/src/cf_msgbuf.c:48-60 | A large enough buffer is left alone, a smaller one replaced by an empty one |
| MsgBuf.Buffer.SetLength | software/libcflora/src/cf_msgbuf.c:62-65 | Contents become the front of the block |
| MsgBuf.ParseFrame | software/gos/src/gos_connection.c:146-157 | Takes one frame off the front, or nothing |
| MsgBuf.AfterRead | software/gos/src/gos_server.c:147-170 | In place: a failed read shuts down and changes nothing; otherwise the frames delivered and the bytes kept are those of the model read, and the loop ends because each frame shortens the buffer |
| Calibration.LinearMeaning | software/gos/src/gos_device.c:699-754 | For increasing knots linear conversion succeeds exactly on the covered range, on the line of the two knots around the reading and between their values |
| Calibration.LinearHitsKnots | software/gos/src/gos_device.c:699-754 | A reading at a knot returns the knot's value plus the offset |
| Calibration.LinearMonotone | software/gos/src/gos_device.c:699-754 | If the knot values rise, conversion is monotone over the whole range |
| Calibration.AnySegmentWillDo | software/gos/src/gos_device.c:731-754 | The result does not depend on which covering segment is used |
| Calibration.MatchesTouch | software/gos/src/gos_device.c:731-754 | A covering segment other than the first touches it at the reading |
| Calibration.TableMeaning | software/gos/src/gos_device.c:705-707 | The table form is the step function with value y_i on (x_i, x_i+1], and y_0 at x_0 |
| Calibration.RatioMeaning | software/gos/src/gos_device.c:710-719 | The ratio form is affine: offset plus intercept at the reading 0 and the slope more for each step; the inverse form is 0 at 0, and elsewhere its value without offset and intercept, times the reading, is the slope |
| Calibration.CoveredRange | software/gos/src/gos_device.c:731-754 | Some segment covers a reading if and only if it lies between the first and last knot |
| Calibration.FirstMatch | software/gos/src/gos_device.c:735-749 | The first covering segment, or -1 if and only if none covers |
| Calibration.ConvertEnv | software/gos/src/gos_device.c:731-754 | The search loop computes the conversion |
| CalibrationConfig.PassesAgree | software/gos/src/gos_device.c:783-816 | The token pass never writes more segments than the counting pass allocates, and just as many if and only if no field is empty |
| CalibrationConfig.CleanConfig | software/gos/src/gos_device.c:783-816 | Without empty fields the segments are contiguous and exactly those between neighbouring knots |
| CalibrationConfig.ConfiguredRange | software/gos/src/gos_device.c:823-861 | A parsed configuration converts a reading if and only if the knots cover it, or the reading is 0 and some field is empty, when a leftover zero segment answers |
| CalibrationConfig.AbortsExactly | software/gos/src/gos_device.c:794-801 | The program aborts on a configuration exactly if fewer than two of its fields are not empty, or one of those has no colon |
| Literals.ZeroIsCovered | software/gos/src/gos_device.c:783-816 | A text with the knots 1 and 2 and an empty field between them converts the reading 0 |
| CalibrationConfig.KnotsRead | software/gos/src/gos_device.c:759-770 | The knot of a token is the reading before its first colon and the value behind it, at the place of the token |
| CalibrationConfig.TokensAreFields | software/gos/src/gos_device.c:794-816 | strtok_r yields the fields that are not empty, in order |
| CalibrationConfig.CountCommas | software/gos/src/gos_device.c:783-786 | The counting pass counts the commas |
| CalibrationConfig.Strtok | software/gos/src/gos_device.c:795-799 | One tokenizer call yields the next token, if any, and makes progress |
| CalibrationConfig.GenerateSegments | software/gos/src/gos_device.c:775-861 | Both passes in place build the specified array, every write in range |
| Rules.InterpolationExact | software/gos/src/gos_rule.c:12-16 | The interpolated operand lies on the straight line if and only if the span lasts one second, it is the span's first second, or both operands are equal (the span is divided by twice) |
| Rules.OperatorExact | software/gos/src/gos_rule.c:60-63 | For each of the six operator texts the selected test is "operand op reading"; it agrees with "reading op operand" if and only if the text is = or !=, or the reading equals the operand |
| Literals.LessThan | software/gos/src/gos_rule.c:118-130 | With the text < and the operand 10 the test fails for the reading 5 and holds for 15 |
| Literals.HalfWay | software/gos/src/gos_rule.c:12-16 | Half way from 0 to 4 in two seconds the operand is 1 |
| Rules.GroupPartitions | software/gos/src/gos_rule.c:172-202 | The spans cut the expressions into consecutive non-empty pieces; each row shares the start or the end of its span |
| Rules.MergeExact | software/gos/src/gos_rule.c:186-195 | Every row is tested in a span with exactly its own bounds if and only if no two neighbouring rows share only one bound (the test uses "and") |
| Literals.MergedAway | software/gos/src/gos_rule.c:186-195 | Two sorted rows from 0 to 10 and from 0 to 20 give one span, until 10 |
| Rules.SpansFit | software/gos/src/gos_rule.c:142-147 | The grouping loop never needs more spans than the count of distinct pairs allocates |
| Rules.IndexIsFirst | software/gos/src/gos_rule.c:100-113 | The action index is that of the first true action, and -1 if and only if there is none |
| Rules.BranchesExact | software/gos/src/gos_rule.c:379-387 | A satisfied span executes exactly the true actions if there is one, and otherwise reads before the table; an unsatisfied span executes exactly the false actions if and only if the rule has a true action or no action |
| Literals.FalseOnly | software/gos/src/gos_rule.c:379-387 | A rule with one false action reads before its table when satisfied and executes nothing otherwise |
| Rules.BranchesPure | software/gos/src/gos_rule.c:379-387 | No branch ever executes an action of the other kind |
| RuleRuns.LoadedSound | software/gos/src/gos_rule.c:133-205 | In every loaded rule spans do not overlap, every expression lies in one of them, and actions and period are as given |
| RuleRuns.FlagMeaning | software/gos/src/gos_rule.c:279-320 | After any sequence of resets and tests a flag is 1 exactly if its expression held at the last reading of its sensor taken inside its span since the last reset, and 0 otherwise |
| RuleRuns.LoadedFlag | software/gos/src/gos_rule.c:172-202 | The same in terms of the row of the rule table: the flag is 1 exactly if the condition of the row held at that reading, its text standing between the operand and the reading |
| RuleRuns.ExpressionIsRow | software/gos/src/gos_rule.c:197-200 | An expression of a loaded rule holds exactly when its row does: same sensor, the operand going from the first to the second of the row (as InterpolationExact says), and < for an unknown operator text |
| RuleRuns.FlagsOverRuns | software/gos/src/gos_rule.c:279-331 | In every state of every run, evaluations included, the flags of every rule are those of the tests and resets alone |
| RuleRuns.MatchedExactly | software/gos/src/gos_rule.c:374-380 | After any run the sum test succeeds if and only if every flag of the span is 1 |
| RuleRuns.SpanDecidesActions | software/gos/src/gos_rule.c:373-394 | What a visited span executes after any run, for every sorted action table: the true actions exactly if every condition of the span held at its last in-span reading and there is a true action, as its four cases say |
| RuleRuns.RoundExecutes | software/gos/src/gos_rule.c:363-408 | From readings to orders: after any run an evaluation makes one call for each span a rule acts on, in the order of the table, and executes what the conditions of that span decide |
| RuleRuns.RoundNotes | software/gos/src/gos_rule.c:393-401 | An evaluation leaves the noted time of a rule alone that acts on no span, and notes for any other what the clock shows after its last span |
| RuleRuns.VisitsExact | software/gos/src/gos_rule.c:372-405 | Which spans of a rule are acted on: every one it is inside of up to its first match, but only the first span once an earlier rule has matched |
| RuleRuns.VisitStops | software/gos/src/gos_rule.c:372-405 | The evaluation is stopping after a rule if and only if it was before or the rule has a match |
| RuleRuns.VisitsInOrder | software/gos/src/gos_rule.c:372-405 | No span is acted on twice |
| RuleRuns.EvaluationExact | software/gos/src/gos_rule.c:363-408 | Which spans of which rules one evaluation acts on, without loop variables: a match stops no later due rule from acting on its first span (the break leaves the inner loop only) |
| RuleRuns.FirstRound | software/gos/src/gos_rule.c:363-408 | Before any reading an evaluation acts on every open span of every loaded rule, from the first second of the day that is more than its period |
| Literals.BothAct | software/gos/src/gos_rule.c:363-408 | Two rules with a satisfied condition: after the match of the first, the second still acts |
| RuleRuns.ActsBounded | software/gos/src/gos_rule.c:368-405 | Over any run, with any clock: k evaluations in which a rule of period p acts satisfy k * (p + 1) <= b * 86400 + lastexec, where b counts the evaluations that a midnight fell into and set the time back |
| RuleRuns.ActsAgainExactly | software/gos/src/gos_rule.c:368-371 | After any run of populated rules, there is a continuation in which a rule acts again if and only if some second of the day, later than its last execution plus its period, lies in one of its spans |
| RuleRuns.NeverAgain | software/gos/src/gos_rule.c:368-371 | Without such a second the rule acts in no continuation, whatever the clock shows after an evaluation has begun |
| RuleRuns.LoadedPopulated | software/gos/src/gos_rule.c:172-202 | Loaded rules have conditions in every span that lasts |
| Literals.NeverActs | software/gos/src/gos_rule.c:368-371 | A rule for the first hundred seconds of the day with a period of a hundred seconds never acts |
| RuleEngine.RuleRecord.LoadActs | software/gos/src/gos_rule.c:78-116 | The loading loop fills the table and finds the index |
| RuleEngine.RuleRecord.LoadExps | software/gos/src/gos_rule.c:132-205 | The grouping loop in place builds the specified spans, every write in range, with all flags 0 |
| RuleEngine.PlaceRow | software/gos/src/gos_rule.c:186-195 | One row opens a span or extends the present one |
| RuleEngine.RuleRecord.Test | software/gos/src/gos_rule.c:298-320 | The nested loops set exactly the flags the specification sets |
| RuleEngine.RuleRecord.CountSatisfied | software/gos/src/gos_rule.c:374-377 | The loop adds up the flags of the span |
| RuleEngine.RuleRecord.EvaluateSpans | software/gos/src/gos_rule.c:372-405 | The loop with its break makes the calls of gos_execute_action that VisitsExact describes |
| RuleEngine.ResetAll | software/gos/src/gos_rule.c:279-288 | Clears the flags of every rule and nothing else |
| RuleEngine.TestAll | software/gos/src/gos_rule.c:322-331 | Tests the reading on every rule |
| RuleEngine.EvaluateAll | software/gos/src/gos_rule.c:363-408 | The whole evaluation in place: the calls made, the time noted by each rule after its last execution, the flags untouched |
| Adc.Attribution | hardware/ver.2/cecs/m4_cecs_analog.c:156-177 | After any number of interrupts each channel holds the value of readings two and three of its own last complete block of four, and 0 before there is one |
| Adc.StoredAt | hardware/ver.2/cecs/m4_cecs_analog.c:165-178 | A reading changes a channel only if it ends a block of four of that channel, and then stores the two readings before it |
| Adc.CountersMatch | hardware/ver.2/cecs/m4_cecs_analog.c:165-194 | The counters number the readings, the multiplexer bits and the converter input belong to the counted channel, and the other port bits keep their values |
| Adc.TakenWhileSelected | hardware/ver.2/cecs/m4_cecs_analog.c:180-192 | Each reading of block b was converted while channel b modulo 16 was selected |
| Adc.SelectionsDiffer | hardware/ver.2/cecs/m4_cecs_analog.c:19-36 | Different channels have different pairs of multiplexer setting and converter input |
| Adc.SignalOf | hardware/ver.2/cecs/m4_cecs_analog.c:19-36 | The multiplexer setting and the converter input of every channel |
| Adc.MaskedBits | hardware/ver.2/cecs/m4_cecs_analog.c:180-192 | A selection changes its own four bits of the port and no other |
| Adc.MillivoltsExact | hardware/ver.2/cecs/m4_cecs_analog.c:170-175 | The stored value is the rounded-down share of 5000, uncut if and only if the mean is at most 53673; for 12-bit readings at most 5000, and 5000 only at full scale |
| Adc.StoredInRange | hardware/ver.2/cecs/m4_cecs_analog.c:170-175 | With 12-bit readings no channel ever holds more than 5000 |
| Adc.LastBlockUnique | hardware/ver.2/cecs/m4_cecs_analog.c:165-178 | A channel has exactly one last complete block, or none if and only if too few readings were taken |
| Adc.Converter.Start | hardware/ver.2/cecs/m4_cecs_analog.c:118-138 | In place: arrays and counters cleared, first channel selected |
| Adc.Converter.Interrupt | hardware/ver.2/cecs/m4_cecs_analog.c:156-195 | The handler in place, shifting loop included, is the model step |

## Left out

- GosDevice.Command.Set: does not model the time stamps of commands (exectime, senttime, finishtime) nor the truncation of the control type text, which decide nothing.
- SQL text, database failures and rollbacks: the two tables are a map and a sequence with atomic operations.
- Sockets, timers, threads, process handling, logging; the generation of server messages, which is taken to succeed; message parts that tp3 and the TTA12 parser classes build, which are not part of this model.
- The tables of connections: a connection is the presence of its gateway's id. `gos_remove_connection` copies from the wrong index (line 133), so no claim is made about it.
- uart3, uart6 and the earlier hardware version, which repeat the modelled logic; the line errors and the receive interrupt of the UART.
- Interleavings inside one queue operation: push and pop are single steps.
- Register code of the vendor library and the initialisation of ports, timers and converters; registers of the relay boards are sets of bit numbers.
- Shifting a negative or large `int` is undefined in C; packing wraps to 32 bits, as compilers for these machines do. Overflow of the resend counters is not modelled.
- Allocation failures, and the write to a table of zero entries when a rule has no condition rows.
- Condition rows with negative times: the grouping loop uses -1 for "no span yet", so the rule theorems take times of day to be non-negative.
- Rounding, infinities and NaN of `double`: numbers are reals. The slope between two knots with equal readings, a division by zero in the source, is 0.
- The text form of numbers: `atof` is any function from text to numbers. Configurations for the ratio form, virtual sensors and their formulas, serial sensors and INI parsing.
- The actuator's sensor list has any length, where the source has two entries.
- Relays.InitEffect: leaves out node ids above 8, for which the source reads past its table of 129 entries.
- Relays.SecondEffect: takes the configured report interval to be positive, since the source divides by it.
- The packets around the reports of the node, and reports of its sensors.
- The other commands of the node (sensor intervals, node information); the delay between messages at start-up.
- BatchMeaning.BatchMeaning: takes device ids to be non-negative, because the loop uses -1 for "no device".
- Adc.Converter.Start: stopping the converter is left out, since it only clears the selection.
