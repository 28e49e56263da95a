# Tentacle protocol models

Dafny models of the stateful core of Tentacle, an industrial edge gateway, with proofs of what its
protocols keep over whole runs. `dafny verify dfyconfig.toml` checks everything.

- **Sparkplug B session** (`SparkplugNode.dfy`, `SparkplugBirths.dfy`, `SparkplugTrace.dfy`): the edge node of `internal/mqtt/node.go`. Every section the
  source runs under its mutex is one action; a run is any sequence of actions, so every interleaving of
  goroutines and broker callbacks is covered. The class `SparkplugNode` has the source's fields and its methods
  are proved to take exactly those steps. The theorems concern section 5 (Operational Behavior) of the
  Sparkplug 3.0.0 specification: waiting for the primary host, sequence numbers, bdSeq.
- **Store and forward** (`StoreForward.dfy`): the bounded queue of `internal/mqtt/storeforward.go`, its counters,
  its drain mode, and two histories that are trimmed but must answer like the full ones.
- **Modbus TCP, both ends** (`Bytes.dfy`, `ModbusCodec.dfy`, `ModbusStore.dfy`, `ModbusServer.dfy`,
  `ModbusWire.dfy`, `ModbusLink.dfy`, `ModbusPlan.dfy`, `ModbusScan.dfy`, `ModbusEndToEnd.dfy`, `ModbusPoll.dfy`):
  value encoding, framing, reassembly, request handling, the register space, the read planner, the poll of a whole
  plan, and the theorems that put client and server together. They follow sections 6.1 to 6.6, 6.11 and 6.12 of the MODBUS Application Protocol
  Specification V1.1b3 and section 3.1.3 of the MODBUS Messaging on TCP/IP Implementation Guide V1.0b as far as
  the code does.
- **Reporting filters** (`ReportByException.dfy`, `UdtAssembler.dfy`, `UdtTrace.dfy`): the deadband filter, with bounded staleness
  and a rate bound over every run, and the debounced UDT assembler with its timers, with a rate bound, the exact
  conditions for losing no update, and how long one can wait.
- **Key-value bus** (`KeyValueBus.dfy`): a bucket with expiry and watchers, and subject matching.
- **Template browsing** (`TemplateBrowse.dfy`): the tag-list parser and the template worklist.

Conventions. A clock is a parameter; where a theorem needs it, time does not go back. An encode, publish,
read or write has an outcome that may be failure, given as a parameter. Where the language leaves the order of
walking a map open, the order is a parameter or is chosen freely. Names in configurations that select a
case are enumerations, with the source's default for any other name. Floats that travel through registers are
bit patterns; deadband arithmetic is over reals.

## What the code does not keep

Each comes with the exact condition under which the property does hold and with inputs that show it fail.

- The comment above `NewSparkplugNode` says bdSeq is incremented on every MQTT CONNECT. It advances only when an
  NDEATH was attempted since the CONNECT before, the client library's own reconnects included:
  `ConnectAdvancesBdSeqIff`, with `ConnectWithoutAdvance` and `ReconnectWithoutAdvance` as the examples.
- After a reconnect that the node learns of late, data goes out before the NBIRTH of its connection
  (`DataBeforeItsBirth`); exactly when it does not: `DataFollowsItsBirthIff`.
- An NBIRTH can rest on a STATE message of the previous connection (`BirthOnStaleState`). It rests on one of its own
  exactly when, since its CONNECT, onConnect has run or a STATE was accepted: `BirthHearsHostInItsSessionIff`.
- The comment in `onConnect` promises one birth per connect. There can be a second in the session (`TwoBirths`), or one
  more that the reset undoes (`BirthUndone`). A CONNECT sees exactly one exactly when its onConnect did not find the
  node born and no other birth was pending after the first: `OneBirthPerConnectIff`.
- `Rebirth`, or a late callback, on a node without a client leaves it neither connected nor able to connect until
  the process restarts: `StuckIff`, `StuckUntilRestart`, with `RebirthStrands` as the example.
- Failed attempts use up sequence numbers, so numbers on the wire are consecutive exactly under the
  condition of `NoWireGapIff`; `WireGap` shows a gap.
- A frame whose MBAP length is 0 makes the server's handler panic (`SevenBytesPanic`), and nothing else in a byte
  stream does: `PanicsIff`.
- The planner makes blocks of any length at any address. A poll gives every tag its value exactly when every block
  delivers (`PollReadsOwnIff`), and it does so whatever is in the registers exactly when every block starts at a 16-bit
  address and fits its one-byte count (`AlwaysDeliversIff`). It ends at the first register block of more than 127, in
  a panic or in an error: `PollPanicsIff` says which. 128 neighbouring registers are enough (`NeighboursPanic`).
- The client does not compare transaction numbers, and a command that timed out keeps the connection: its reply
  answers the next request (`LateReplyTaken`), and so on. A request gets its own reply exactly when none is outstanding:
  `OwnReplyIff`.
- `arrangeBytes` is called self-inverse; for BADC the last byte of an odd length is lost: `ArrangedSelfInverseIff`,
  `ArrangedLosesByte`.
- Client and server disagree on four-register CDAB values: `ClientReadsServerIff`, `CdabDiffers`.
- The server stores a number that does not fit its integer type as some other (`StoredAsAnother`) and drops what follows
  the point (`StoredAsZero`). It keeps a number exactly when the type holds that very number: `StoredExactlyIff`.
- A command to a writable tag that is neither a coil nor a holding register is sent to the holding registers and lost
  (`CommandLost`). Exactly when a command leaves its tag with the value: `CommandHoldsIff`.
- In both reporting filters MaxTime overrides MinTime: the two `MinTimeKeptIff` give the exact condition, the two
  `MaxTimeBeatsMinTime` the runs.
- The assembler's MaxTime bounds nothing: updates less than the debounce time apart postpone publishing without end
  (`Starves`); a quiet gap settles them by the bound of `SettledBy`, which `SettledNoSooner` shows to be sharp.
- The assembler counts an object as published when the bus refuses it (`RefusedIsLost`) or when it has no JSON text
  (`UnencodableIsLost`), and comparing two arrays or two objects panics (`ClashPanics`, `NeverPanicsIff`). Exactly when
  no update is ever lost: `NothingLostIff`. Through the gateway every value but NaN and the infinities has a JSON text,
  and none of those comes out of a JSON message, so there the refusals and the panics are what remains.
- The comment on `Stop` says that it cancels any pending debounce timer. A deferral forgets the timer of an update made meanwhile,
  so an update can go out after `Stop` (`PublishesAfterStop`). Exactly when none can: `StopIsFinalIff`.
- Notifications of the key-value bus are handed to a goroutine each, so a watcher may get them in any order. Every order
  leads to the same map exactly when the notes about one key all leave it alike: `AnyOrderAgreesIff`. A put and a
  delete are enough for one that does not: `DeletedEntryStays`.

## Model

| member | source | states |
|---|---|---|
| SparkplugRuns.LastWriterWins | internal/mqtt/node.go:620-635 | in every run hostOnline holds exactly when the last of the greatest-timestamped STATE messages heard since the last reset says online |
| SparkplugRuns.ArrivalOrderIrrelevant | internal/mqtt/node.go:620-635 | two sessions that heard the same unambiguous messages, in any order and any number of times, agree on flag and timestamp |
| SparkplugRuns.BirthWaitsForHost | internal/mqtt/node.go:331-343 | with a primary host, every NBIRTH of every run, rebirths included, finds that host's winning STATE online and heard since the last reset |
| SparkplugRuns.BirthHearsHostInItsSessionIff | internal/mqtt/node.go:292-311 | the STATE an NBIRTH rests on came after its own CONNECT exactly when since then onConnect has run or a STATE was accepted |
| SparkplugRuns.BirthOnStaleState | internal/mqtt/node.go:247-249 | a run whose NBIRTH rests only on a STATE of the connection before |
| SparkplugRuns.BirthedIff | internal/mqtt/node.go:292-300 | birthed holds exactly when an NBIRTH was sent since the last onConnect or restart |
| SparkplugRuns.DeviceBirthIsCurrent | internal/mqtt/node.go:381-405 | a DBIRTH announces the metrics last registered for its device |
| SparkplugRuns.BornSession | internal/mqtt/node.go:314-379 | a Born node has a client, is birthed, and an NBIRTH was sent with no loss, reconnect, rebirth or disconnect since |
| SparkplugRuns.NumberedInSession | internal/mqtt/node.go:408-458 | every DBIRTH and DDATA belongs to a session opened by a sent NBIRTH and its number is its position after the latest NBIRTH attempt, modulo 256 |
| SparkplugRuns.NodeBirthIsZero | internal/mqtt/node.go:341-356 | every NBIRTH carries the number it has just reset, 0 |
| SparkplugRuns.BornIff | internal/mqtt/node.go:314-379 | the node is Born exactly while a session opened by a sent NBIRTH goes on |
| SparkplugRuns.DataFollowsItsBirthIff | internal/mqtt/node.go:213-224 | a DBIRTH or DDATA goes over the connection that carried its NBIRTH exactly when since that CONNECT an NBIRTH was sent or a session's end was noticed |
| SparkplugRuns.DataBeforeItsBirth | internal/mqtt/node.go:208-224 | a run in which a DDATA is sent over a new connection before any NBIRTH |
| SparkplugTrace.NodeBirthIff | internal/mqtt/node.go:314-339 | in every run an NBIRTH goes out exactly when a birth runs on an open connection whose primary host, if one is waited for, is up by the STATE messages heard |
| SparkplugTrace.NodeBirthCarries | internal/mqtt/node.go:341-356 | it carries number 0, the metric of its connection's will, the rebirth control and the metrics last set for the node, and nothing else |
| SparkplugTrace.DeviceBirthIff | internal/mqtt/node.go:479-492 | a DBIRTH goes out exactly when asked for while a sent NBIRTH's session goes on and metrics were registered for the device |
| SparkplugTrace.DeviceDataIff | internal/mqtt/node.go:408-416 | a DDATA goes out exactly when asked for while a sent NBIRTH's session goes on |
| SparkplugTrace.DataCarriesItsMetrics | internal/mqtt/node.go:418-433 | every DDATA carries the device and the very metrics its caller gave |
| SparkplugTrace.NodeDeathIff | internal/mqtt/node.go:495-529 | an NDEATH goes out exactly when a disconnect ends a session that goes on |
| SparkplugTrace.ConnectIff | internal/mqtt/node.go:179-249 | a CONNECT goes out exactly when the library reopens a connection, or Connect succeeds without one and no Rebirth or callback has stranded the node |
| SparkplugTrace.FirstConnect | internal/mqtt/node.go:84-101 | the first CONNECT carries the bdSeq after the one found on disk, or 0 |
| SparkplugTrace.StartsBirthIff | internal/mqtt/node.go:620-653 | a birth is started exactly by Rebirth, by onConnect without a host to wait for, and by a fresh online STATE while no NBIRTH was sent since onConnect |
| SparkplugTrace.StartsDisconnectIff | internal/mqtt/node.go:654-662 | a disconnect is started exactly by a fresh STATE that takes the host from up to down on a connection that has sent its NBIRTH |
| SparkplugBirths.OneBirthPerConnectIff | internal/mqtt/node.go:292-311 | a CONNECT sees exactly one NBIRTH exactly when its onConnect did not find the node born and no other birth was pending once the first was sent |
| SparkplugBirths.BirthsOfConnection | internal/mqtt/node.go:292-311 | the NBIRTHs of a CONNECT are those before its onConnect, one, and as many as were pending after that one; there are some before exactly when onConnect finds the node born |
| SparkplugBirths.UndoneIff | internal/mqtt/node.go:292-300 | onConnect undoes an NBIRTH of its own connection exactly when it finds the node born |
| SparkplugBirths.OneBirthIff | internal/mqtt/node.go:292-311 | once all started births have run, an undisturbed session saw no second NBIRTH exactly when none was pending as the first was sent |
| SparkplugBirths.PendingArePublished | internal/mqtt/node.go:620-654 | after an NBIRTH no birth is started in its session, and each one pending is published |
| SparkplugBirths.TwoBirths | internal/mqtt/node.go:636-654 | a run, with every birth started by its cause and callbacks one at a time, in which a Rebirth and the STATE after it make two NBIRTHs in one session |
| SparkplugBirths.BirthUndone | internal/mqtt/node.go:281-300 | a run whose NBIRTH is sent before the reset of its own connect, which leaves the node Dead and unbirthed |
| SparkplugRuns.NumberGap | internal/mqtt/node.go:381-385 | between two numbered messages of one birth the numbers advance by the attempts made, failures included |
| SparkplugRuns.NoWireGapIff | internal/mqtt/node.go:412-416 | two sent messages with only failures between are consecutive exactly when the failures are a multiple of 256 |
| SparkplugRuns.WireGap | internal/mqtt/node.go:412-433 | a run with one failed DDATA between two sent ones numbered 1 and 3 |
| SparkplugRuns.ClientWill | internal/mqtt/node.go:187-211 | in every run the present client's will is the one the CONNECT of its connection carries, and holds the current bdSeq; a disconnected node has no client |
| SparkplugRuns.BirthAndDeathMatchWill | internal/mqtt/node.go:345-346 | every NBIRTH leads with the bdSeq of its own connection's will, and every NDEATH is that will |
| SparkplugRuns.ConnectAdvancesBdSeqIff | internal/mqtt/node.go:503-529 | from one CONNECT to the next, those of the client library included, bdSeq advances by one modulo 256 exactly when an NDEATH was attempted between, and is the same otherwise |
| SparkplugRuns.ReconnectWithoutAdvance | internal/mqtt/node.go:208-211 | a run whose connection is lost after the NBIRTH and reopened with the same bdSeq |
| SparkplugRuns.ConnectWithoutAdvance | internal/mqtt/node.go:72-93 | a run with two CONNECTs of equal bdSeq |
| SparkplugRuns.FileHoldsLastSaved | internal/mqtt/node.go:251-258 | the file holds the bdSeq of the last CONNECT that wrote it, whatever happened since |
| SparkplugRuns.RestartAdvancesBdSeq | internal/mqtt/node.go:84-101 | the first CONNECT after a restart uses the last saved bdSeq plus one modulo 256 |
| SparkplugRuns.StuckUntilRestart | internal/mqtt/node.go:537-543 | a clientless node that is not Disconnected never connects and publishes nothing until a restart |
| SparkplugRuns.StuckIff | internal/mqtt/node.go:537-543 | a clientless node is in that state exactly when Rebirth or a connection callback ran while it had no client |
| SparkplugRuns.RebirthStrands | internal/mqtt/node.go:537-543 | a run of one Rebirth before any CONNECT that leaves the node stuck |
| SparkplugNode.SparkplugNode.constructor | internal/mqtt/node.go:84-101 | a new node starts a valid run from the saved bdSeq |
| SparkplugNode.SparkplugNode.Connect | internal/mqtt/node.go:179-262 | takes the Connect step of the run; succeeds exactly from Disconnected when encode and connect do |
| SparkplugNode.SparkplugNode.Reconnect | internal/mqtt/node.go:208-211 | takes the Reconnect step: the client's own will goes out again and nothing else changes |
| SparkplugNode.SparkplugNode.OnConnect | internal/mqtt/node.go:292-310 | takes the OnConnect step; it starts a birth exactly when there is no host to wait for |
| SparkplugNode.SparkplugNode.ConnectionLost | internal/mqtt/node.go:213-223 | takes the ConnectionLost step |
| SparkplugNode.SparkplugNode.MarkDead | internal/mqtt/node.go:537-543 | takes the first step of Rebirth |
| SparkplugNode.SparkplugNode.PublishNodeBirth | internal/mqtt/node.go:327-372 | attempts exactly one NBIRTH when the guards allow it and none otherwise; born exactly when it was sent |
| SparkplugNode.SparkplugNode.Birth | internal/mqtt/node.go:314-379 | the messages sent are the NBIRTH and then one DBIRTH a device numbered from 1, or nothing when a guard stops it |
| SparkplugNode.SparkplugNode.PublishDeviceBirthLocked | internal/mqtt/node.go:381-405 | adds one DBIRTH with the next number and changes nothing else |
| SparkplugNode.SparkplugNode.PublishDeviceData | internal/mqtt/node.go:408-458 | takes the DeviceData step: one DDATA with the metrics given and the next number exactly when born with a client; succeeds exactly when it is sent |
| SparkplugNode.SparkplugNode.PublishDeviceBirth | internal/mqtt/node.go:479-492 | takes the DeviceBirth step, silent when not born or the device is unknown |
| SparkplugNode.SparkplugNode.SetNodeMetrics | internal/mqtt/node.go:461-465 | takes the SetNodeMetrics step |
| SparkplugNode.SparkplugNode.SetDeviceMetrics | internal/mqtt/node.go:469-476 | takes the SetDeviceMetrics step and says whether the device is new |
| SparkplugNode.SparkplugNode.Disconnect | internal/mqtt/node.go:495-531 | takes the Disconnect step: NDEATH and a bdSeq advance exactly when born |
| SparkplugNode.SparkplugNode.ProcessHostState | internal/mqtt/node.go:620-663 | takes the HostState step; what it starts is given exactly: a birth for any accepted online STATE while unbirthed, a disconnect when a birthed host turns offline, nothing otherwise |
| StoreForwardRuns.EveryRun | internal/mqtt/storeforward.go:84-235 | after every run: length within maxCount, stored equals drained plus evicted plus held, the buffer is the newest records, drained records came out once each in order, both trimmed histories are suffixes that lost only outdated entries |
| StoreForwardRuns.StepKeepsInv | internal/mqtt/storeforward.go:84-181 | every single call keeps all of that |
| StoreForwardRuns.TimelineAnswers | internal/mqtt/storeforward.go:192-201 | at every instant of the last hour the trimmed timeline shows the mode the full history shows |
| StoreForwardRuns.RateCountsWindow | internal/mqtt/storeforward.go:221-235 | the trimmed window counts exactly the publishes of the last ten seconds |
| StoreForwardRuns.DrainsInExactly | internal/mqtt/storeforward.go:146-181 | n records left alone come out in order, and the mode turns online with exactly the (ceil(n / drainRate) + 1)-th Drain |
| StoreForwardRuns.DrainsNothing | internal/mqtt/storeforward.go:146-156 | outside drain mode Drain returns nothing and changes nothing |
| StoreForwardRuns.OnlineDrainsBacklog | internal/mqtt/storeforward.go:84-101 | after going online the Drain calls return the whole backlog in order and end online after exactly that many; without a backlog the buffer is online at once |
| StoreForwardRuns.OfflineHoldsBacklog | internal/mqtt/storeforward.go:104-114 | after going offline no Drain returns anything and every record stays |
| StoreForwardCalls.LimitsAndMode | internal/mqtt/storeforward.go:61-114 | in every run the limits are those asked for or the defaults, and the mode is offline exactly when every SetOnline was followed by a SetOffline |
| StoreForwardCalls.HoldsAsManyAsFit | internal/mqtt/storeforward.go:124-142 | until the first Drain the buffer holds the newest records stored, as many as its limit allows |
| StoreForwardCalls.DrainedAreStored | internal/mqtt/storeforward.go:146-181 | in every run the records that come out are stored ones in order, each at most once, same device, time, names and values, every metric marked historical |
| StoreForwardCalls.RateIsOfCalls | internal/mqtt/storeforward.go:204-235 | in every run the rate counts exactly the metrics reported published in the last ten seconds |
| StoreForwardCalls.TimelineShowsModes | internal/mqtt/storeforward.go:192-201 | in every run the timeline shows, at every instant of the last hour, the mode the calls made by then had led to |
| StoreForwardCalls.TimelineIsShort | internal/mqtt/storeforward.go:192-201 | in every run trimming keeps at most one entry from more than an hour before the last, or two entries in all |
| StoreForward.StoreForwardBuffer.constructor | internal/mqtt/storeforward.go:61-81 | a new buffer has the defaults for non-positive limits and an empty history |
| StoreForward.StoreForwardBuffer.RecordTimeline | internal/mqtt/storeforward.go:192-201 | appends an entry and drops exactly the entries superseded more than an hour ago |
| StoreForward.StoreForwardBuffer.SetOnline | internal/mqtt/storeforward.go:84-101 | turns to draining with records and to online without, keeping the invariant |
| StoreForward.StoreForwardBuffer.SetOffline | internal/mqtt/storeforward.go:104-114 | turns offline once, keeping the invariant |
| StoreForward.StoreForwardBuffer.Store | internal/mqtt/storeforward.go:124-142 | evicts the oldest records until one fits and appends it, keeping the invariant |
| StoreForward.StoreForwardBuffer.Drain | internal/mqtt/storeforward.go:146-181 | returns the oldest records marked historical, or turns online when there are none |
| StoreForward.StoreForwardBuffer.RecordPublish | internal/mqtt/storeforward.go:204-218 | adds one time a metric and drops those out of the window |
| StoreForward.StoreForwardBuffer.PublishRate | internal/mqtt/storeforward.go:221-235 | is a tenth of the number of all publishes ever made that fall in the last ten seconds |
| StoreForward.StoreForwardBuffer.StatusTimeline | internal/mqtt/storeforward.go:297-327 | the reported points lie in the last hour and show the mode of the full history at each of its instants |
| ModbusCodec.ArrangeBytes | internal/modbus/decode.go:28-59 | the four loops compute one position map |
| ModbusCodec.ArrangedSelfInverseIff | internal/modbus/decode.go:25-59 | rearranging twice gives the data back exactly when the order is not BADC, the length is even, or the last byte is 0 |
| ModbusCodec.ArrangedLosesByte | internal/modbus/decode.go:31-36 | one byte, rearranged twice in BADC order, comes back as 0 |
| ModbusCodec.WrapUnique | internal/modbus/decode.go:107-168 | only one integer of a data type is congruent to a value modulo the type's width |
| ModbusCodec.DecodeOfEncode | internal/modbus/decode.go:64-219 | encoded bytes of any value encodeValue accepts, json.Number included, whatever follows them, decode to the truth value, the bit pattern or the in-range integer congruent to the value, for every byte order |
| ModbusCodec.WrittenInteger | internal/modbus/decode.go:107-219 | whichever Go type holds it, an integer written reads back as the one integer of the type congruent to it, itself when in range; any other value is refused |
| ModbusCodec.WrittenTruth | internal/modbus/decode.go:171-188 | whichever Go type holds it, a truth value written to a boolean reads back as itself; any other value is refused |
| ModbusCodec.WrittenFloat | internal/modbus/decode.go:222-243 | a number written to a float type reads back as its bit pattern; any other value is refused |
| ModbusCodec.NamesTellOrder | internal/modbus/decode.go:28-59 | four bytes are permuted as the order's name spells it, and two and eight accordingly |
| ModbusCodec.HighByteFirst | internal/modbus/decode.go:107-168 | a 16-bit integer is sent most significant byte first |
| ModbusStore.ArrangeWordsSelfInverse | internal/modbusserver/store.go:269-317 | every word order undoes itself on any number of words |
| ModbusStore.ServerRoundTrip | internal/modbusserver/store.go:201-265 | the server decodes what it encoded to the value stored, for every value, data type and byte order |
| ModbusStore.StoredIsMeantIff | internal/modbusserver/store.go:212-226 | for an integer type the value stored is the integer part of the number handed in exactly when that part is in range |
| ModbusStore.StoredExactlyIff | internal/modbusserver/store.go:201-228 | the number handed in is kept exactly when the type is no integer type or holds that very integer |
| ModbusStore.StoredAsZero | internal/modbusserver/store.go:214-215 | 0.5 is stored as 0 in a uint16 |
| ModbusStore.StoredAsAnother | internal/modbusserver/store.go:214-215 | 70000 is not stored as 70000 in a uint16 |
| ModbusStore.ServerKeeps | internal/modbusserver/store.go:201-265 | the server reads back the integer in range, the truth value or the bit pattern it was handed, for every byte order |
| ModbusStore.OrdersAgree | internal/modbusserver/store.go:269-317 | client and server orders are the same map for one and two registers, and for four but for CDAB |
| ModbusStore.OrdersDiffer | internal/modbusserver/store.go:294-301 | in CDAB order the client swaps the halves of a four-register value of the server |
| ModbusStore.ClientReadsServerIff | internal/modbus/decode.go:64-92 | the client decodes the server's registers to the stored value exactly unless it is a CDAB float64 with unequal halves |
| ModbusStore.CdabDiffers | internal/modbus/decode.go:37-49 | the float64 of bit pattern 1 in CDAB order reaches the client as another |
| ModbusStore.UpdateReadsBack | internal/modbusserver/store.go:51-132 | an update with any value is read back as the value stored |
| ModbusStore.UpdateElsewhere | internal/modbusserver/store.go:51-85 | an update changes the value of no tag it does not overlap |
| ModbusStore.RegisterStore.constructor | internal/modbusserver/store.go:28-37 | a new store is empty |
| ModbusStore.RegisterStore.RegisterTag | internal/modbusserver/store.go:41-47 | adds the tag under its variable and under its own function-code name and address |
| ModbusStore.RegisterStore.UpdateFromVariable | internal/modbusserver/store.go:51-85 | changes exactly the tag's registers; false and unchanged for an unknown variable |
| ModbusStore.RegisterStore.ReadTypedValue | internal/modbusserver/store.go:90-132 | yields the typed value exactly when a tag is registered under that very name and address |
| Bytes.BitOfPower | internal/modbusserver/server.go:230-236 | bit k alone makes the byte two to the k: the first of eight coils is the lowest bit |
| ModbusServer.PackedBitOfPack | internal/modbusserver/server.go:226-238 | bit i of packed bits is the i-th bit, and every padding bit is zero |
| ModbusServer.TcpServer.HandlePDU | internal/modbusserver/server.go:181-207 | reply and registers are those of the pure request function, for every byte string |
| ModbusServer.TcpServer.HandleReadBits | internal/modbusserver/server.go:210-239 | the loop sets exactly the bits of the cells that are on |
| ModbusServer.TcpServer.HandleReadWords | internal/modbusserver/server.go:242-268 | the loop lays the registers end to end, big-endian |
| ModbusServer.TcpServer.HandleWriteSingleCoil | internal/modbusserver/server.go:271-292 | sets one coil, on only for FF00, and echoes the request |
| ModbusServer.TcpServer.HandleWriteSingleRegister | internal/modbusserver/server.go:295-315 | sets one register and echoes the request |
| ModbusServer.TcpServer.HandleWriteMultipleCoils | internal/modbusserver/server.go:318-354 | overwrites the coils the request carries bits for, or refuses a short request |
| ModbusServer.TcpServer.HandleWriteMultipleRegisters | internal/modbusserver/server.go:357-389 | overwrites the registers named, or refuses a short request |
| ModbusServer.RefusedIff | internal/modbusserver/server.go:181-207 | any bytes: refused exactly when the code is unknown or the request shorter than it says, with the code's high bit, the reason and no effect; reads have no effect and writes are echoed |
| ModbusServer.CoilAfter | internal/modbusserver/server.go:271-354 | any accepted coil write, malformed counts included: each coil is the bit the request carries for it, or as before |
| ModbusServer.RegisterAfter | internal/modbusserver/server.go:295-389 | any accepted register write: each register is the two bytes the request carries for it, or as before |
| ModbusServer.WrittenCoilsReadBack | internal/modbusserver/server.go:318-354 | coils written by FC 0F and read by FC 01 are the bits sent, and padding reads zero whatever was sent there |
| ModbusServer.WrittenBytesReadBack | internal/modbusserver/server.go:210-239 | with clean padding the bytes read are the bytes written |
| ModbusServer.OtherCoilsKept | internal/modbusserver/server.go:318-354 | a well-formed write leaves every other coil as it was |
| ModbusWire.FragmentationIrrelevant | internal/modbusserver/server.go:129-179 | however a byte stream, malformed ones included, is cut into reads, replies, registers, unread bytes and end are the same |
| ModbusWire.PanicsIff | internal/modbusserver/server.go:144-156 | however the bytes are cut, the handler panics exactly when it comes to a frame of length 0 before a write fails; without a failing write, exactly when the bytes hold one |
| ModbusWire.SevenBytesPanic | internal/modbusserver/server.go:145-155 | seven zero bytes make the handler of any server panic |
| ModbusWire.RequestsDoNotPanic | internal/modbusserver/server.go:144-156 | a stream of well-formed requests holds no frame of length 0 |
| ModbusWire.StreamIsServed | internal/modbusserver/server.go:129-179 | a stream of well-formed requests, cut anywhere, is answered request by request in order |
| ModbusWire.StreamIsAnswered | internal/modbusserver/server.go:158-176 | of a stream cut anywhere exactly the requests to the server's unit and to unit 0 are answered, each under its own transaction, in order |
| ModbusWire.ResponseReturned | internal/modbus/client.go:72-85 | a response with the high bit in its code is raised as that exception and any other returned whole, wherever the bytes are cut |
| ModbusWire.DecodeOfFrameIff | internal/modbus/protocol.go:37-80 | a framed PDU decodes to itself with its header exactly when its length fits the field; an empty one is invalid |
| ModbusWire.AwaitTakesFirstFrame | internal/modbus/client.go:67-92 | the client's reply is the first frame of the bytes on hand and to come, wherever cut, all later bytes stay unread, and it fails exactly without a complete valid frame |
| ModbusWire.RepliesInOrder | internal/modbus/client.go:67-92 | successive calls return the stream's responses in order and keep exactly the bytes after them |
| ModbusWire.LateRepliesShift | internal/modbus/client.go:67-92 | with replies outstanding to earlier requests, wherever the bytes are cut, every later request gets the reply of one as many places before it |
| ModbusWire.OwnReplyIff | internal/modbus/scanner.go:364-395 | a request gets its own reply exactly when none is outstanding |
| ModbusWire.LateReplyTaken | internal/modbus/client.go:72-85 | of two responses in a row the first answers the request made for the second |
| ModbusLink.ServerConnection.Receive | internal/modbusserver/server.go:136-177 | the buffer loop does what the stream specification says for one read |
| ModbusLink.ServerConnection.HandleFrame | internal/modbusserver/server.go:158-176 | answers a frame for its unit or for broadcast, ignores others, and ends when the write fails |
| ModbusLink.ModbusClient.NextTxnId | internal/modbus/client.go:43-47 | hands out the id and wraps at 16 bits |
| ModbusLink.ModbusClient.SendAndReceive | internal/modbus/client.go:51-93 | uses up a transaction id; a failed write leaves the buffer alone, otherwise the reply and the unread bytes are those of the stream specification |
| ModbusLink.ModbusClient.ReadData | internal/modbus/client.go:97-129 | sends the read request and returns the counted data bytes or the error of the write or the reply |
| ModbusPlan.PlanPlaces | internal/modbus/scanner.go:584-627 | every tag lies in exactly one block, once, at start plus offset, within the count |
| ModbusPlan.PlanCanonical | internal/modbus/scanner.go:584-627 | blocks start and end on a tag and span no unused run longer than the gap, and together hold every address in use |
| ModbusPlan.CanonicalApart | internal/modbus/scanner.go:597-610 | any two blocks are more than the gap apart |
| ModbusPlan.CanonicalUnique | internal/modbus/scanner.go:584-627 | there is only one canonical plan for a set of addresses |
| ModbusPlan.PlanOrderIrrelevant | internal/modbus/scanner.go:577-580 | start and count of every block depend on the tags alone, not on how ties were sorted |
| ModbusScan.SortByAddress | internal/modbus/scanner.go:577-580 | an address-ordered permutation of the tags |
| ModbusScan.MergeTags | internal/modbus/scanner.go:582-627 | the loop with its current block computes the plan |
| ModbusScan.BuildReadBlocks | internal/modbus/scanner.go:549-631 | for every walk of both maps, the blocks of each space are a plan of exactly its tags |
| ModbusScan.PlanIsCanonical | internal/modbus/scanner.go:558-627 | any two results for the same tags read the same ranges of every space |
| ModbusScan.ExtractedIsOwn | internal/modbus/client.go:177-196 | a tag decoded out of a block's data is the tag decoded from its own registers or coil |
| ModbusScan.ReadBlockValues | internal/modbus/client.go:163-199 | on any data: panics exactly when a register tag starts past its end, otherwise gathers every tag that decodes and leaves out the others |
| ModbusEndToEnd.ExchangeIff | internal/modbusserver/server.go:129-179 | one request over connections cut anywhere: the registers are those after it, and the client gets the response to it exactly when that fits the length field |
| ModbusEndToEnd.ReadIsFaithfulIff | internal/modbus/client.go:97-129 | a read of any range brings exactly the server's content when and only when the byte count can hold its length |
| ModbusPoll.PollReadsOwnIff | internal/modbus/scanner.go:427-445 | a poll of the plan over one connection cut anywhere, request by request and reply by reply, gives every tag, at any address, the value of its own addresses exactly when every block delivers: it arrives and the request looks at what stands there |
| ModbusPoll.AlwaysDeliversIff | internal/modbus/scanner.go:597-610 | every register content reaches every tag exactly when every block starts at a 16-bit address and fits its one-byte count |
| ModbusPoll.PollPanicsIff | internal/modbus/client.go:177-196 | a poll of any plan panics exactly when the reply to its first register block of more than 127 can still be read, fails exactly when it cannot, and gives values exactly when there is no such block |
| ModbusPoll.NeighboursPanic | internal/modbus/scanner.go:582-627 | a row of 128 or more uint16 tags is planned as one block, and every poll of it panics |
| ModbusPoll.ReplyPayload | internal/modbus/client.go:97-111 | the payload taken from any read reply is the front of the content, as long as the low byte of its length says, or an error exactly when the length field does not cover it |
| ModbusPoll.PollDevice | internal/modbus/scanner.go:424-445 | the loop over the blocks ends with the values of all, at the first failed write or read, or in the panic, as the poll of the stream does |
| ModbusPoll.ReadOneBlock | internal/modbus/client.go:163-199 | one request and the values of its reply, or an error that leaves the buffer as it was when the write fails |
| ModbusEndToEnd.StoredValueIsReadIff | internal/modbusserver/store.go:51-85 | a stored value is what a client read of the tag yields, with the one exact exception |
| ModbusEndToEnd.StoredValueTravelsIff | internal/modbusserver/server.go:242-268 | stored by the server, asked for over a connection cut anywhere, answered and decoded: what stands at the address the request names, which for an address of 16 bits is the value stored, with the one exact exception |
| ModbusEndToEnd.WriteEffect | internal/modbus/protocol.go:104-122 | the client's FC 06 or FC 10 request puts its bytes into exactly the registers from the address on |
| ModbusEndToEnd.WrittenValueReadsBack | internal/modbus/scanner.go:373-388 | a value written and read back with FC 03 on one connection cut anywhere is the value wrapped to its type for every byte order |
| ModbusEndToEnd.WriteElsewhere | internal/modbusserver/server.go:357-389 | a write changes no register outside its range and no other space |
| ModbusEndToEnd.WriteThenRead | internal/modbus/scanner.go:373-388 | a read that follows a write of the same registers brings back the very bytes written |
| ModbusEndToEnd.CommandHoldsIff | internal/modbus/scanner.go:338-388 | a command that is sent leaves its tag with the value exactly when the tag is a coil or holding register at a 16-bit address, or had the value before |
| ModbusEndToEnd.CommandedInteger | internal/modbus/scanner.go:373-388 | a command of any Go integer in range leaves that integer in the holding register |
| ModbusEndToEnd.CommandedTruth | internal/modbus/scanner.go:365-372 | a command of any Go truth value leaves the coil at it |
| ModbusEndToEnd.CommandConfirmed | internal/modbus/scanner.go:364-394 | a command over a connection cut anywhere is carried out and confirmed with its own first five bytes |
| ModbusEndToEnd.RefusalReachesClient | internal/modbus/client.go:72-85 | a refused request over a connection cut anywhere reaches the caller as the exception with the server's reason, and changes nothing |
| ModbusEndToEnd.CommandMisses | internal/modbus/scanner.go:364-388 | a command to any other tag leaves it as it was |
| ModbusEndToEnd.CommandLost | internal/modbus/scanner.go:364-388 | a command to a writable discrete input that is sent and has no effect on it |
| ModbusEndToEnd.WrittenCoilReadsBack | internal/modbus/scanner.go:364-372 | a coil written reads back as written and nothing else changes |
| ReportByException.RbeState.constructor | plc/rbe.go:17-23 | a new filter has published nothing |
| ReportByException.RbeState.Offer | plc/rbe.go:25-62 | publishes exactly when the rule says, and remembers exactly what it published |
| ReportByException.StateIsLatest | plc/rbe.go:25-62 | in every run the state is the latest publish |
| ReportByException.PublishedIff | plc/rbe.go:25-75 | the whole rule on the samples: published exactly when first not nil, MaxTime is over, or MinTime is and the number left the interval of the deadband or the value is another |
| ReportByException.WithinDeadbandIsSilent | plc/rbe.go:64-75 | without MaxTime a number within the deadband of the last one published is never published |
| ReportByException.UnfilteredPublishesAll | plc/rbe.go:31-36 | without a configuration every sample is published |
| ReportByException.BoundedStaleness | plc/rbe.go:25-75 | after every sample the last published value is the sample, within its deadband, or younger than MinTime, and it is younger than MaxTime when that is set |
| ReportByException.NumericStaleness | plc/rbe.go:64-98 | after a numeric sample there is a published value, equal, numerically within the deadband, or younger than MinTime |
| ReportByException.PublishHasReason | plc/rbe.go:25-62 | a publish is the first, is forced by MaxTime, or left the deadband with MinTime over |
| ReportByException.MinTimeKeptIff | plc/rbe.go:33-52 | publishes are MinTime apart in every run exactly when MaxTime is off or no shorter |
| ReportByException.MaxTimeBeatsMinTime | plc/rbe.go:38-45 | for every MaxTime below MinTime, an unchanged value published again after MaxTime |
| ReportByException.RateBound | plc/rbe.go:43-52 | a window of length W holds at most W / MinTime + 1 publishes |
| UdtRuns.DirtyIsPending | internal/gateway/udt.go:56-69 | in every interleaving before Stop, a dirty assembler has a callback waiting or its current timer running |
| UdtRuns.CleanIsUpToDate | internal/gateway/udt.go:72-130 | in every run a clean assembler agrees with what it recorded last, unless what it holds has no JSON text or the process has panicked |
| UdtRuns.NoLostUpdate | internal/gateway/udt.go:56-130 | before Stop, while every value has a JSON text, the bus accepts everything and nothing has panicked, a change is pending or every member agrees with the last object sent up to its deadband or its JSON text |
| UdtRuns.NothingLostIff | internal/gateway/udt.go:72-178 | every run over a set of values loses nothing exactly when the template has no members, there are no values, or the bus never refuses, each value has a JSON text, and no two can meet in a comparison that panics |
| UdtRuns.RefusedIsLost | internal/gateway/udt.go:124-177 | for every value, a run whose publish the bus refuses and that ends clean with nothing pending and nothing sent |
| UdtRuns.CallbackMayPanicIff | internal/gateway/udt.go:92-121 | some order of walking the members makes the callback panic exactly when it gets to comparing members and one of them clashes |
| UdtRuns.NeverPanicsIff | internal/gateway/udt.go:181-211 | no run over a set of values panics exactly when no two of them can meet in a comparison that panics |
| UdtRuns.ClashPanics | internal/gateway/udt.go:199-202 | for every two values that clash, a run that publishes one and panics on the other |
| UdtRuns.UnencodableIsLost | internal/gateway/udt.go:126-132 | for every value without a JSON text, a run that ends clean with nothing pending and nothing sent |
| UdtTrace.RecordIsCurrent | internal/gateway/udt.go:81-87 | a published object holds exactly the template's members that were set, each with its latest value |
| UdtTrace.SentIff | internal/gateway/udt.go:123-177 | it goes out as it is exactly when the bus accepts it and every value has a JSON text |
| UdtTrace.RecordsIff | internal/gateway/udt.go:89-130 | the whole rule on the objects: an update is published exactly when reporting is unfiltered, it is the first, MaxTime is over, or MinTime is and a member is new, gone or outside the interval of its deadband |
| UdtTrace.WithinDeadbandsIsSilent | internal/gateway/udt.go:181-198 | an object whose members all stay within their deadbands is not published before MaxTime |
| UdtTrace.StopIsFinalIff | internal/gateway/udt.go:213-221 | after Stop no callback can run exactly when it found none waiting and no timer running but the current one |
| UdtTrace.PublishesAfterStop | internal/gateway/udt.go:100-105 | a run in which a deferral forgets a timer and the object goes out after Stop |
| UdtRuns.SettledBy | internal/gateway/udt.go:63-68 | after a quiet gap, once due timers and callbacks have run, nothing is dirty past both the debounce time of the last update and MinTime after the last publish |
| UdtRuns.SettledNoSooner | internal/gateway/udt.go:100-108 | until then a run can have caught up and the update still wait |
| UdtRuns.Starves | internal/gateway/udt.go:60-68 | for every number of updates less than the debounce time apart, a run in which no timer ever comes due and nothing is published, MaxTime or not |
| UdtRuns.PublishesApart | internal/gateway/udt.go:92-108 | with report by exception on and MaxTime off or no shorter, any two publishes are MinTime apart whatever the clock does |
| UdtRuns.MaxTimeBeatsMinTime | internal/gateway/udt.go:98-99 | for every MaxTime below MinTime, a run with publishes just MaxTime apart |
| UdtRuns.MinTimeKeptIff | internal/gateway/udt.go:92-108 | every run keeps MinTime exactly when MaxTime is off or no shorter |
| UdtRuns.DeferralSettles | internal/gateway/udt.go:100-108 | a callback that runs once MinTime has passed leaves nothing dirty |
| UdtRuns.DeferralDeadline | internal/gateway/udt.go:100-108 | a deferral's timer is due exactly MinTime after the last publish |
| UdtAssembler.UdtAssembler.constructor | internal/gateway/udt.go:41-53 | a new assembler is empty and clean |
| UdtAssembler.UdtAssembler.SetMember | internal/gateway/udt.go:56-69 | takes the SetMember step: value stored, timer restarted |
| UdtAssembler.UdtAssembler.Publish | internal/gateway/udt.go:72-178 | takes the callback step, panic included, and sends the assembled object exactly when the rule says and the bus accepts it |
| UdtAssembler.UdtAssembler.CheckRbe | internal/gateway/udt.go:90-123 | forces, defers to the end of MinTime, suppresses, gives up, panics or allows the publish exactly as the rule of the runs says |
| UdtAssembler.UdtAssembler.AnyMemberExceedsDeadband | internal/gateway/udt.go:181-211 | walking the members in any order, stops at the first that is new or changed by more than it may, panics at the first comparison of two arrays or two objects, and otherwise tells whether one is gone |
| UdtAssembler.UdtAssembler.Stop | internal/gateway/udt.go:214-221 | takes the Stop step: the timer is cancelled |
| KvRuns.WatchersConverge | internal/bus/channel.go:222-364 | in every run a watcher applying what it is owed to an empty map holds only current entries it watches and all of them that have not expired |
| KvRuns.WatcherHolds | internal/bus/channel.go:271-275 | a watcher of a key holds at most that key, a watcher of the empty key any, always with the current value, and each one that can be read |
| KvRuns.WatchersAreRegistered | internal/bus/channel.go:323-364 | in every run the watchers are exactly those registered and not taken off since, each once |
| KvRuns.WatcherIsOwed | internal/bus/channel.go:260-360 | in every run a watcher is owed exactly, in order: the entries current when it was registered, then one note for each put, delete and swept key since that it watches |
| KvRuns.ReplayedIff | internal/bus/channel.go:340-360 | a new watcher is told of exactly the entries it watches that can be read, with their values |
| KvRuns.SweepClears | internal/bus/channel.go:470-505 | in every run a sweep leaves no entry whose latest put is past its lifetime, in the bucket or with a watcher, and takes no other |
| KvRuns.ListedIffRead | internal/bus/channel.go:304-321 | a key is listed exactly when it can be read |
| KvRuns.ListedIffLatestPutLives | internal/bus/channel.go:304-321 | in every run a key is listed exactly when its latest put was not deleted and its lifetime is not over |
| KvRuns.SweepInvisible | internal/bus/channel.go:470-505 | a sweep changes no answer of a read or a key listing at its time or later |
| KvRuns.WritesDecide | internal/bus/channel.go:222-321 | two runs with the same puts and deletes, whatever sweeps and watches come between, answer every read and key listing alike from then on |
| KvRuns.AnyOrderAgreesIff | internal/bus/channel.go:271-275 | every order of delivering the notes a watcher is owed leads to one map exactly when all notes about a key would leave it alike |
| KvRuns.DeletedEntryStays | internal/bus/channel.go:296-300 | a run of a watch, a put and a delete whose two notes, delivered the other way round, leave the watcher an entry the bucket does not hold |
| KvRuns.GetIsLatestPut | internal/bus/channel.go:222-258 | a read yields value and revision of the key's latest put unless it was deleted since or its lifetime is over; revisions count the puts |
| KeyValueBus.KvBucket.constructor | internal/bus/channel.go:199-220 | a new bucket is empty |
| KeyValueBus.KvBucket.Get | internal/bus/channel.go:222-238 | the entry unless absent or expired |
| KeyValueBus.KvBucket.Keys | internal/bus/channel.go:304-321 | every unexpired key once, and no other |
| KeyValueBus.KvBucket.Put | internal/bus/channel.go:240-278 | takes the Put step: new revision and lifetime, watchers owed the value |
| KeyValueBus.KvBucket.Delete | internal/bus/channel.go:280-302 | takes the Delete step, watchers told even of an absent key |
| KeyValueBus.KvBucket.Watch | internal/bus/channel.go:323-364 | takes the Watch step: the new watcher is owed every unexpired entry it watches |
| KeyValueBus.KvBucket.Unwatch | internal/bus/channel.go:553-564 | removes that watcher alone |
| KeyValueBus.KvBucket.Sweep | internal/bus/channel.go:470-505 | with a time read before or after the lock was taken, removes exactly the keys expired by then and owes watchers each deletion; leaves buckets without a lifetime alone |
| KeyValueBus.MatchSubject | internal/bus/channel.go:507-525 | true exactly when the dot-separated tokens match one by one up to the first tail wildcard, which stands for one or more, and without it the numbers of tokens agree |
| KeyValueBus.MatchesIffTakes | internal/bus/channel.go:507-525 | matching up to the first tail wildcard agrees with reading the pattern token by token off the front |
| KeyValueBus.Split | internal/bus/channel.go:510-511 | the tokens hold no dot and joined by dots give the string |
| TemplateBrowse.LoadTemplates | internal/ethernetip/browse.go:401-452 | ends on every graph of templates and with every outcome of every read; what is loaded was read so and is referred to through loaded templates, every template referred to is loaded or was read and failed, and none is read again once it was read |
| TemplateGraph.LoadedIsReachable | internal/ethernetip/browse.go:419-452 | when a template's reads always have one outcome, the loaded set is exactly the readable ids reachable from the tags through readable templates |
| TemplateBrowse.RootIds | internal/ethernetip/browse.go:402-407 | the template ids of the structured tags that are not system tags |
| TemplateModel.RootIff | internal/ethernetip/types.go:87-99 | a template is a root exactly when a tag's code is laid out as structure bit, any dimensions, no system bit and the template's twelve bits |
| TemplateModel.NestedIff | internal/ethernetip/types.go:109-121 | a template refers to another exactly when a field's code is laid out with the structure bit and the other's twelve bits |
| TagList.LaidEncodes | internal/ethernetip/browse.go:153-179 | a record laid out byte by byte, least significant first, is read back as what it was laid out from |
| TagList.TagsAre | internal/ethernetip/browse.go:181-193 | the tags are all records without the system bit, in order |
| TagList.ProgramIff | internal/ethernetip/browse.go:181-186 | a program is listed exactly when a record with the system bit is named after it |
| TagList.ParseTagList | internal/ethernetip/browse.go:142-197 | the cursor loop yields the tags and programs of the records of the reply |
| TagList.RecordsOfEncoded | internal/ethernetip/browse.go:148-179 | records laid end to end are read back in order and a record cut short at the end is ignored |
| TagList.RecordsSplit | internal/ethernetip/browse.go:148-179 | every reply is made of the records read from it and a rest that is no whole record |
| TagList.TruncatedPrefix | internal/ethernetip/browse.go:148-179 | a reply cut short anywhere gives a prefix of the records |

## Left out

- Sockets, the MQTT client library, NATS, JSON, logging, TLS and HTTP: plumbing or foreign code; their outcomes are parameters.
- Subscribing to command and STATE topics, Sparkplug command handling, `splitTopic` and the STATE payload scanners: easy index loops; the model starts from a host, a flag and a timestamp.
- The message timestamps of Sparkplug payloads and the retained flag and quality of service of publishes: constant or not read back.
- The bridge (`internal/mqtt/bridge.go`): it reads and sets state in separate lock sections.
- Floating point: registers carry bit patterns, deadbands are reals, so rounding and NaN are not modelled.
- Conversions of a float to an integer type it does not fit are left open by the language; their result is part of the value in the model.
- ModbusPoll.PollReadsOwnIff: tags have distinct identifiers, as the keys of the source's map do, and the registers do not change during the poll.
- ModbusScan.SortByAddress: the library's sort is modelled by an insertion sort with the same promise.
- Subscribe and unsubscribe bookkeeping, polling, backoff, read timeouts, and the fallback from a tag's byte order to its device's: no hard property.
- `fcAddressKey` and `intToString` are modelled by the pair of space and address they stand for.
- Write callbacks of the Modbus server: they do not change the registers.
- StoreForward.StoreForwardBuffer.Drain: the source marks metrics in the shared payload; the model marks a copy, so sharing of payloads is not captured. The byte limit, which the source stores and does not use, is left out.
- StoreForward.StoreForwardBuffer.StatusTimeline: models the timeline part of Status alone.
- UdtAssembler.UdtAssembler.Publish: the template definition sent along is not modelled.
- UdtRuns.NoLostUpdate: stops at Stop, after which a waiting change may never be sent.
- KvRuns.WatchersConverge: is about notifications in the order of the lock; `AnyOrderAgreesIff` says when every other order comes to the same.
- Persistence of buckets, several buckets at once, and publish, subscribe and request of the bus.
- TemplateBrowse.LoadTemplates: a template is the type codes of its fields; names, the parser of template replies, cancellation and member expansion are left out.
- The web interface, command line, installers and configuration schemas: no hard property.
