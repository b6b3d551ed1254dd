# QuicKeys: a verified model

QuicKeys types into a virtual machine from afar. A client sends key edges over UDP, which may
be lost, late or out of order, and the whole key set over QUIC many times a second. A daemon
keeps one key set from both, lets go of keys by a deadline filter, by snapshots and by a
watchdog, and writes 8-byte keyboard reports to a socket. QEMU puts the reports together
byte by byte and shows them to the guest as a USB keyboard.

This project models that path in Dafny and proves what it is for: that snapshots heal, that
stale edges are dropped, that the watchdog bounds staleness, that the threads never tell the
guest something that was not so, and that a key set arrives as it was sent however the bytes
are cut.

## How it is organised

| file | what it holds |
|---|---|
| `Words.dfy` | fixed-width integers, 64-bit wrap-around, options |
| `KeyState.dfy` | the state under the lock, the events, and what each event does |
| `KeyInvariants.dfy` | what every event keeps; the clock arithmetic of the deadline and the watchdog |
| `KeyHistory.dfy` | runs: 256 independent registers, last writer wins, counting of reports |
| `KeyTiming.dfy` | runs: convergence after a snapshot, the watchdog's bound, the healing bound |
| `Interleaving.dfy` | the threads: change, read, send, in any interleaving |
| `Ownership.dfy` | one report for each handler that owes one |
| `SnapshotCodec.dfy` | the bitmap and the two binary records, client side and daemon side |
| `StuckKeys.dfy` | when a key is reported stuck |
| `ErrorLog.dfy` | the heal, stuck and watchdog lines of a run: how many, and what they say |
| `Daemon.dfy` | the daemon as a class that changes its set and its table in place |
| `Framing.dfy`, `QuicStreams.dfy` | cutting a stream into records; the QUIC receive callback |
| `QemuKeyboard.dfy` | the socket backend of the USB keyboard |
| `Pipeline.dfy` | the whole way from the client's key set to the guest's key array |
| `EdgeRecords.dfy` | the reliable baseline: the client's edge records, end to end |
| `Datagrams.dfy` | what the client's text messages do, told on their text |
| `TextEdges.dfy`, `Workload.dfy` | text datagrams, the scripted workload, client and daemon in step |
| `Wire.dfy`, `Messages.dfy`, `MessageCodec.dfy` | the generated message codec |
| `StaleCounts.dfy` | prints with a nested length that is no longer right |
| `Outbox.dfy`, `Percentile.dfy` | the client's delayed outboxes; the report's percentile |

Code that changes things step by step is a class or a loop here too, and each method's
contract gives its whole new state as a function of the old one. The functions are what the
laws about runs are proved on. A run is a list of events in the order in which the handlers
take the lock. Each event carries the clock value its handler read *before* it waited for the
lock, so times need not follow that order; the bounds on time allow for any `skew` between the
two, and `InLockOrder` is the case of no skew. Subtractions of clock values wrap modulo 2^64 as
they do in the daemon. Iteration over an `unordered_set` picks elements in any order. A
`double` is taken as an exact rational.

## Where the code and its promises part

* The proposal promises that a missed release heals within one snapshot interval
  (`docs/proposal.md`). The daemon keeps that exactly for the keys that were held for at least
  one deadline (`HealsWithinIntervalIff`). For a shorter press the edge itself can still pass
  the deadline right behind a snapshot, and the healing time is counted from the end of the
  deadline (`HealingTimeIff`). Without the deadline filter there is no bound
  (`WithoutDeadlineNoBound`).
* A watchdog tick that read its clock before a snapshot and takes the lock after it wraps
  its subtraction and releases keys that were confirmed just now
  (`OvertakenTickReleasesFreshKey`); `TickReleasesIff` says exactly when a tick lets a key go.
* A down edge does not renew a key's confirmation, so the next tick can release a key that was
  pressed milliseconds ago because its last snapshot is from an earlier press
  (`FreshPressReleased`); `PressHoldsIff` says exactly how long such a press holds.
* Two daemons that get the same snapshot and then the same input can still diverge, because
  the watchdog remembers when keys outside the snapshot were last confirmed;
  `SnapshotConvergesIff` gives the exact condition, for a clock that does not go back behind
  the snapshot, or does so by the skew.
* A heal time is wrong by 2^64 ns when the healed marker's stamp lies behind the snapshot's
  clock (`HealTimeIsPlainIff`). That happens without a deadline, when a marker overtakes a
  snapshot that has read its clock, and while the clock has not passed one deadline
  (`HealTimesCanWrap`).
* Printing an edge or a snapshot of the message codec after its header has changed size, without
  counting again, gives bytes that do not read back, even where the length is right
  (`EdgeReadsBackIff`, `SnapshotReadsBackIff`).
* Reports are sent outside the lock, so the guest can be left with an older one
  (`StaleReportExists`). Nothing but such a reordering leaves it stale (`OnlyReorderingIsStale`,
  `StaleIff`).
* A QUIC edge may press usage 0. The daemon then spends one of six slots on it, and QEMU reads
  the slot as no key (`SelectionReachesKeyboardIff`, `UsageZeroIsNotShown`).
* The space key has a usage on the client, but the daemon's tokenizer drops it
  (`UsagesAgreeIff`).
* A future stamp is dropped on the UDP path, where the age wraps, and accepted on the QUIC edge
  path, where it is clamped (`UdpAcceptsIff`, `QuicAcceptsIff`).

## Model

| member | source | states |
|---|---|---|
| KeyInvariants.RunsKeepAgreement | daemon/src/main.cpp:139-149 | after any run, for all 256 keys, the table's `pressed` flag is set exactly for the members of the set |
| KeyInvariants.RunsStayInKeyboardRange | daemon/src/main.cpp:189-219 | in runs without QUIC edges every pressed key is a usage in 0x04..0xA5 |
| KeyInvariants.SilentHandlersKeepView | daemon/src/main.cpp:269-278 | a handler that does not go on to send has changed neither the key set nor the modifiers |
| KeyInvariants.UdpAcceptsIff | daemon/src/main.cpp:405-412 | exactly the stamps that pass the UDP deadline, wrap-around of a future stamp included |
| KeyInvariants.UdpDropsTheFuture | daemon/src/main.cpp:405-412 | once the clock has passed one deadline, a stamped message passes exactly when it is not from the future and not older than the deadline |
| KeyInvariants.QuicAcceptsIff | daemon/src/main.cpp:326-332 | exactly the millisecond stamps that pass on the QUIC edge path; future ones always do |
| KeyInvariants.ExpiredIff | daemon/src/main.cpp:256-257 | exactly when a watchdog tick lets a key go: older than the bound, or confirmed after the tick read its clock |
| KeyInvariants.IsStuckIff | daemon/src/main.cpp:248-250 | exactly when a tick finds a key stuck: not reported yet, and longer since its last edge than the limit in milliseconds |
| KeyInvariants.OvertakenTickReleasesFreshKey | daemon/src/main.cpp:240-257 | a concrete run in which an overtaken tick releases a key confirmed a nanosecond later |
| KeyHistory.MachineIsRegisters | daemon/src/main.cpp:200-220 | after any run the set and the table are what 256 registers hold that each see only their own key |
| KeyHistory.PressedIsLastWrite | daemon/src/main.cpp:244-267 | a key is pressed exactly when the last event that wrote it (edge, snapshot, watchdog release) wrote "pressed" |
| KeyHistory.MarkerIsLastWrite | daemon/src/main.cpp:423-440 | a present key-up marker is the stamp of the last accepted `mup` that no up, heal or watchdog release has cleared since |
| KeyHistory.ConfirmationIsLastWrite | daemon/src/main.cpp:214-219 | the confirmation time is the clock of the last snapshot that held the key |
| KeyHistory.EdgeIsLastWrite | daemon/src/main.cpp:426-441 | the edge time is the clock at the last accepted edge of the key |
| KeyHistory.ReportsAreEarned | daemon/src/main.cpp:203-213 | per key, heals plus a present marker never exceed accepted `mup`s, and stuck reports never exceed accepted edges |
| KeyHistory.StuckReportsAreSeparated | daemon/src/main.cpp:248-254 | between two stuck reports of a key there is an accepted edge of that key |
| StuckKeys.StuckReportedIff | daemon/src/main.cpp:248-254 | in any run a tick reports a key stuck exactly when it is down, its last accepted edge is longer ago than the limit (or read behind the tick's clock), and no tick since has found it so |
| ErrorLog.PrintedWhenDue | daemon/src/main.cpp:203-213 | a handler prints one heal line for each key with a marker that a snapshot lets go of, one watchdog line for each key that a tick lets go of, one stuck line when that is due, and none otherwise |
| ErrorLog.LogIsEarned | daemon/src/main.cpp:248-254 | in the log of any run each key has no more heal lines than accepted `mup`s and no more stuck lines than accepted edges |
| ErrorLog.HealLineSays | daemon/src/main.cpp:206-209 | the heal time in a line is the time from the stamp of the last accepted marker to the clock of the snapshot, 2^64 ns more if the stamp is later |
| ErrorLog.StuckLineSays | daemon/src/main.cpp:248-254 | the age in a stuck line runs from the last accepted edge of the key |
| ErrorLog.WatchdogLineSays | daemon/src/main.cpp:256-264 | the age in a watchdog line runs from the last snapshot that held the key |
| KeyTiming.SnapshotConvergesIff | daemon/src/main.cpp:200-220 | two daemons in any states that apply one snapshot agree on keys and modifiers in every later run with clocks from `from` on exactly when no watchdog runs or, for each key outside the snapshot, their confirmation times are equal, can expire in neither, or have expired in both by then |
| KeyTiming.WatchdogBound | daemon/src/main.cpp:237-268 | a pressed key was never in a snapshot, or was in one at most watchdog + tick period ago, or went down since the last tick |
| KeyTiming.TickReleasesIff | daemon/src/main.cpp:256-264 | in any run a tick releases a pressed key exactly when the last snapshot that held the key is older than the bound or newer than the clock the tick read |
| KeyTiming.PressHoldsIff | daemon/src/main.cpp:426-434 | an accepted press holds, until the next snapshot or edge of its key, exactly until a tick finds the last snapshot from before the press too old |
| KeyTiming.FreshPressReleased | daemon/src/main.cpp:256-264 | a run in which a key is released five milliseconds after its press |
| KeyTiming.NoSnapshotsNoReleases | daemon/src/main.cpp:256-264 | in a run without snapshots the watchdog releases nothing |
| KeyTiming.QuietTick | daemon/src/main.cpp:256-264 | nor does any tick change the key set in such a run |
| KeyTiming.HealingBound | daemon/src/main.cpp:405-441 | whatever edges are lost, delayed or reordered, a key last pressed at c is not pressed after c + deadline + snapshot period + skew |
| KeyTiming.HealingTimeIff | daemon/src/main.cpp:405-441 | in every run from every state with snapshots a period apart, a key last pressed at c and held to r is released `late` after r exactly when there is a deadline and r + late is at least the later of c + deadline and r, plus period and skew |
| KeyTiming.HealsWithinIntervalIff | daemon/src/main.cpp:200-220 | the promise of healing within one snapshot interval of the release holds exactly when there is a deadline and the key was held for at least that long |
| KeyTiming.WithoutDeadlineNoBound | daemon/src/main.cpp:408 | with the deadline off, for every last press, period and instant there is a run in lock order, with an empty snapshot in every period, in which the key is pressed at that instant |
| KeyTiming.HealTimesDoNotWrap | daemon/src/main.cpp:206-209 | with lock-order time, a deadline and a clock past it, every heal time that is printed is the plain difference |
| KeyTiming.HealTimeIsPlainIff | daemon/src/main.cpp:206-209 | in any run, a printed heal time is the plain difference exactly when the last accepted marker has a stamp no later than the snapshot's clock |
| KeyTiming.HealTimesCanWrap | daemon/src/main.cpp:206-209 | three runs, each lacking one of the three conditions, in which the heal time wraps |
| Interleaving.HistoryIsRun | daemon/src/main.cpp:138-149 | in every interleaving the states in lock order are those of one run of events, so all that is proved of runs holds of the threads |
| Interleaving.LockFreeAgreement | daemon/src/main.cpp:138-149 | in every interleaving of handler stages, the set and the table agree whenever the lock is free |
| Interleaving.SentReportsAreHonest | daemon/src/main.cpp:286-297 | every sent report shows a state that held when it was read, no earlier than its sender's own change, and is sent once |
| Ownership.EachHandlerReportsOnce | daemon/src/main.cpp:443-451 | in every interleaving, reports sent and handlers under way are as many as snapshots, accepted edges and releasing ticks, and each report belongs to one of those, no two to the same |
| Interleaving.LastReadingIsCurrent | daemon/src/main.cpp:443-450 | with no handler under way, the report read last was sent and shows the present modifiers and min(6, all) of the present keys; with no report, nothing visible has changed |
| Interleaving.OnlyReorderingIsStale | daemon/src/main.cpp:352-359 | if the last report sent does not show the present state, a newer one was sent before it |
| Interleaving.StaleIff | daemon/src/main.cpp:352-359 | with all handlers done and at most six keys held, the last report sent is stale exactly when the newest reading was sent before it and says something else |
| Interleaving.StaleReportExists | daemon/src/main.cpp:352-359 | a reachable execution of two handlers that leaves the guest with a stale report |
| Interleaving.FreshIff | daemon/src/main.cpp:286-297 | with at most six keys, the last report sent is current exactly when keys and modifiers are what they were when it was read |
| SnapshotCodec.SetBitSets | client/hybrid_run.py:52 | setting one bit of a byte changes the reading of that bit and of no other |
| SnapshotCodec.BitmapFromPressed | client/hybrid_run.py:48-53 | the bitmap has exactly the bits of the set's elements in 0..255, in whatever order the set is walked |
| SnapshotCodec.BitmapIsUnique | client/hybrid_run.py:48-53 | only one bitmap has given bits, so the order of insertion cannot show |
| SnapshotCodec.EncodeSnapshot | client/hybrid_run.py:219-220 | the client's record is the 20-byte header and modifiers followed by a bitmap of its set |
| SnapshotCodec.SnapshotLayout | client/hybrid_run.py:19-33 | version, sequence number, time, modifiers and bitmap, in that order, at their widths |
| SnapshotCodec.BitsOfByte | daemon/src/main.cpp:189-194 | the eight bits that are tested are worth 1 to 128 |
| SnapshotCodec.SnapshotRoundTrip | daemon/src/main.cpp:174-197 | every record the client can build decodes to its keys in 0x04..0xA5 and the low byte of its modifiers |
| SnapshotCodec.ModsAreLowByte | daemon/src/main.cpp:174-181 | the modifiers are the last byte before the bitmap |
| SnapshotCodec.ReadBigEndian | daemon/src/main.cpp:312-319 | the shifting loops compute the big-endian number, within its width |
| SnapshotCodec.EdgeRoundTrip | client/baselines_quic_only.py:87-88 | the 16-byte edge record decodes to the packed seq, time, usage, cmd and modifiers for all in-range values |
| SnapshotCodec.EdgeRoundTripBack | daemon/src/main.cpp:320-324 | any sixteen bytes are the packing of what they decode to |
| EdgeRecords.RecordLayout | client/baselines_quic_only.py:87-88 | the sixteen bytes, highest byte of each number first |
| EdgeRecords.RecordEffect | daemon/src/main.cpp:312-350 | from its bytes, a record in time sets the modifiers and its own key, pressed exactly for command 1, and nothing else; any other changes nothing |
| EdgeRecords.WriteRecords | client/baselines_quic_only.py:66-91 | the loop writes the records of the steps that are not lost and have a usage, numbering every step |
| EdgeRecords.EdgesCarrySteps | client/baselines_quic_only.py:70-91 | each record has the number, time, direction and usage of its step, in rising order |
| EdgeRecords.UsagesOfTable | client/baselines_quic_only.py:17-24 | a key has a usage exactly if it is a letter or ENTER, and then that of the HID tables |
| EdgeRecords.ScriptReachesDaemon | daemon/src/main.cpp:310-350 | end to end, however the stream is cut and with ticks anywhere: the daemon has pressed what the client holds after as much of the script, and no modifier |
| EdgeRecords.HandlingExists | daemon/src/main.cpp:310-350 | any records can be handled so |
| EdgeRecords.TextEndsReleased | client/baselines_quic_only.py:27-34 | without losses nothing is held between two characters, nor at the end |
| Daemon.BuildHidReport | daemon/include/hid_report.h:11-19 | modifiers, a zero, then the first six keys, zero where there is none |
| Daemon.DecodeBitmap | daemon/src/main.cpp:183-197 | the two loops, zero bytes skipped, find exactly the keyboard usages whose bits are set |
| Daemon.KeyDaemon.constructor | daemon/src/main.cpp:138-149 | starts with nothing pressed and 256 fresh entries |
| Daemon.KeyDaemon.ParseSnapshot | daemon/src/main.cpp:160-220 | refuses a short record unchanged, else makes exactly the snapshot step in place and prints one heal line for each released key with a marker |
| Daemon.KeyDaemon.WatchdogTick | daemon/src/main.cpp:240-268 | erasing while iterating makes exactly the tick step; each key's stuck and watchdog lines are printed once; `changed` says whether any key went |
| Daemon.KeyDaemon.UdpMessage | daemon/src/main.cpp:405-441 | a parsed text message makes exactly the step of its event, and says whether a report follows |
| Daemon.KeyDaemon.QuicEdgeRecord | daemon/src/main.cpp:311-350 | a record makes exactly the step of the edge it decodes to; short records, late ones and usages above 255 change nothing |
| Daemon.KeyDaemon.ReadKeys | daemon/src/main.cpp:445-449 | min(6, all) different pressed keys, in any order, and the modifiers |
| Framing.BlocksAreConsecutive | daemon/src/msquic_server.cpp:199-205 | the records and the leftover are the bytes again, nothing lost or moved |
| Framing.CutPieceByPiece | daemon/src/msquic_server.cpp:189-205 | cutting records off as bytes arrive gives the records of the whole |
| QuicStreams.MsQuicServer.Receive | daemon/src/msquic_server.cpp:189-212 | for any buffers, the callback gets the records of what was pending and what arrived, in order, and the rest stays pending; in raw mode everything is handed on |
| QuicStreams.EachStreamIsFramed | daemon/src/msquic_server.cpp:142-212 | for any events on any streams, each stream's messages are the consecutive records of its own bytes, and total mod record size bytes wait |
| QuicStreams.RawStreamsPassThrough | daemon/src/msquic_server.cpp:206-212 | without a record size each stream's bytes are handed on unchanged and nothing waits |
| QemuKeyboard.UsbKeyboard.ApplyReport | qemu/dev-hid.c:581-606 | a report replaces modifiers and key array by its non-zero keys in order, as many as fit |
| QemuKeyboard.UsbKeyboard.CanRead | qemu/dev-hid.c:608-612 | the room that QEMU is told of is never less than nine bytes between reads |
| QemuKeyboard.UsbKeyboard.ChrRead | qemu/dev-hid.c:614-629 | every byte is taken within the 16-byte buffer, fewer than eight stay, and exactly the consecutive 8-byte reports are applied in order |
| QemuKeyboard.PiecesDoNotMatter | qemu/dev-hid.c:614-629 | any cutting of the socket's bytes leaves the same buffer and the same keyboard |
| Pipeline.ReportShowsFirstSix | qemu/dev-hid.c:588-599 | the report of any key list shows its first six entries with zeros removed |
| Pipeline.SelectionReachesKeyboardIff | daemon/include/hid_report.h:11-19 | the key array holds exactly the selected keys unless usage zero was selected |
| Pipeline.UsageZeroIsNotShown | daemon/include/hid_report.h:11-19 | a reachable execution in which usage 0 is pressed and no keyboard shows it |
| Pipeline.RecordsArrive | daemon/src/msquic_server.cpp:189-205 | however one stream is cut, the callback gets the client's records one by one |
| Pipeline.KeySetsReachTheGuest | daemon/src/main.cpp:284-299 | end to end: the daemon holds the keyboard keys of the last set, and the guest all of them, or six different ones if there are more, with the low byte of the modifiers |
| Pipeline.SessionsExist | daemon/src/main.cpp:284-299 | any list of key sets can be sent in such a session to a daemon in any state |
| Pipeline.OrderlyExecutionExists | daemon/src/main.cpp:286-297 | a reachable execution meets all that is asked of the threads for the guest to follow them |
| Pipeline.GuestFollowsThreads | daemon/src/main.cpp:269-277 | with all handlers done and the newest report sent last, the guest has the daemon's modifiers, and shows its keys exactly when usage 0 is not among those last read |
| Pipeline.HealedReportsOmit | daemon/src/main.cpp:286-297 | a report read behind the healing bound does not show the key, in any interleaving and however late it is sent |
| Pipeline.GuestIsHealed | daemon/src/main.cpp:286-297 | behind the healing bound, with all handlers done and the newest report sent last, the key whose release was lost is not in the guest's key array |
| TextEdges.SpansAreRuns | daemon/src/main.cpp:382-392 | the tokens are exactly the maximal runs of non-blank characters |
| TextEdges.SpansAreOrdered | daemon/src/main.cpp:382-392 | tokens come in order with a blank between any two |
| TextEdges.Tokenize | daemon/src/main.cpp:381-392 | the tokenizer's loops return those tokens |
| TextEdges.StampRoundTrip | daemon/src/main.cpp:397-398 | the stamp parser reads back every printed number below 2^64 |
| TextEdges.EdgeMsgRoundTrip | client/hybrid_run.py:146-149 | the daemon reads back the stamp, command and key of every message the client builds |
| TextEdges.UsagesAgreeIff | daemon/src/main.cpp:413-420 | for every one-character ASCII key both sides name the same usage exactly when it is not the space |
| TextEdges.EnterAgrees | client/hybrid_run.py:36-45 | both sides name ENTER 0x28 |
| TextEdges.HandleDatagram | daemon/src/main.cpp:374-441 | a datagram makes exactly the step of the event it spells, or none |
| Datagrams.MessageSpells | client/hybrid_run.py:146-149 | the client's text for letters and ENTER is the edge or the marker that it spells, with its stamp and the usage of the HID tables |
| Datagrams.MessageText | client/hybrid_run.py:146-149 | how a message looks |
| Datagrams.MessageEffect | daemon/src/main.cpp:405-441 | past one deadline, a message that is from the future or too old changes nothing; any other presses its key, releases it or leaves its stamp as the marker, and touches nothing else |
| Datagrams.BlanksSeparate | daemon/src/main.cpp:381-392 | spaces, tabs and line ends separate words, other characters do not |
| Datagrams.UnstampedMessage | daemon/src/main.cpp:395-403 | without a stamp a message reads as with stamp zero |
| Datagrams.StampIsNumber | daemon/src/main.cpp:397-399 | signs, trailing characters and numbers beyond 64 bits in a stamp |
| Datagrams.StampSkipsSpace | daemon/src/main.cpp:397-399 | white space before the number is skipped, and no number is zero |
| Datagrams.DaemonUsageIs | daemon/src/main.cpp:413-420 | the usage the daemon gives to any key, from its first character |
| Datagrams.OtherCommandsAreIgnored | daemon/src/main.cpp:423-426 | any command but the three does nothing |
| Datagrams.HealingBoundOfText | daemon/src/main.cpp:405-441 | the healing bound for runs whose edges come as text, told on the messages |
| Workload.WorkloadEvents | client/hybrid_run.py:228-252 | the loops list down, marker, up for each character, with waits folded into the next event |
| Workload.FoldingKeepsTime | client/hybrid_run.py:243-252 | folding loses no waiting time but that after the last event |
| Workload.ScheduleIs | client/hybrid_run.py:228-252 | the folded list, event by event: delays, commands, keys and marker flags |
| Workload.StateMachine | client/hybrid_run.py:284-292 | the client's set after a script is the fold of its steps |
| Workload.ClientUsageIs | client/hybrid_run.py:36-45 | the usage that the client gives to each one-character key, the space among them |
| Workload.DaemonFollowsClient | client/hybrid_run.py:284-292 | with edges delivered in order and in time, no snapshots, and watchdog ticks anywhere between them, the daemon's set equals the client's after every event |
| Workload.DaemonEndsReleased | client/hybrid_run.py:228-252 | and is empty once all messages of the script are in |
| Workload.DeliveriesExist | client/hybrid_run.py:284-292 | every typeable text can be delivered so, with a tick behind every message |
| Wire.VarintReadsBack | daemon/include/remoter.pb.cc:225 | a varint reads back, whatever follows it, exactly when it fits in the reader's limit |
| Wire.Varint32Truncates | daemon/include/remoter.pb.cc:225 | a 32-bit field keeps the low 32 bits of a longer number |
| Messages.HeaderParsesAsMerge | daemon/include/remoter.pb.cc:216-299 | parsing a printed header onto any header merges it and goes on behind it |
| Messages.HeaderCodec | daemon/include/remoter.pb.cc:216-352 | a printed header parses to itself, two in a row to their merge |
| Messages.EdgeCodec | daemon/include/remoter.pb.cc:466-628 | a printed edge parses to itself, an empty header kept, and two in a row parse to their merge |
| Messages.SnapshotCodecIff | daemon/include/remoter.pb.cc:750-835 | a printed snapshot parses to itself exactly when its bitmap's length is one the parser accepts |
| Messages.SnapshotsMerge | daemon/include/remoter.pb.cc:750-893 | two printed snapshots in a row parse to their merge |
| MessageCodec.HeaderMessage.InternalParse | daemon/include/remoter.pb.cc:216-267 | the loop over tags assigns what the parse gives, and refuses what it refuses |
| MessageCodec.HeaderMessage.InternalSerialize | daemon/include/remoter.pb.cc:269-299 | prints the non-zero fields in order |
| MessageCodec.HeaderMessage.ByteSizeLong | daemon/include/remoter.pb.cc:301-325 | counts exactly the bytes that printing gives, and caches the count |
| MessageCodec.HeaderMessage.MergeFrom | daemon/include/remoter.pb.cc:334-352 | overwrites with the non-zero fields |
| MessageCodec.EdgeMessage.InternalParse | daemon/include/remoter.pb.cc:466-525 | likewise, a nested header being parsed into the one that is there |
| MessageCodec.EdgeMessage.InternalSerialize | daemon/include/remoter.pb.cc:527-564 | prints the nested length as it was last counted |
| MessageCodec.EdgeMessage.ByteSizeLong | daemon/include/remoter.pb.cc:566-597 | counts exactly the bytes of the edge, and brings the nested count up to date |
| MessageCodec.EdgeMessage.MergeFrom | daemon/include/remoter.pb.cc:606-628 | merges the header and overwrites with the non-zero fields |
| MessageCodec.StaleCountLengthIff | daemon/include/remoter.pb.cc:534-538 | with a stale nested count the length is right exactly when the count is printed as widely as the true one |
| MessageCodec.StaleCountMisreads | daemon/include/remoter.pb.cc:534-538 | one such print, equally wide: a sequence number is read as a key usage (`EdgeReadsBackIff` has the general case) |
| MessageCodec.SnapshotCountIff | daemon/include/remoter.pb.cc:804-862 | the snapshot's count is the length of its print, and with a stale nested count exactly when there is no header or both counts are equally wide |
| MessageCodec.EdgeExample | daemon/include/remoter.pb.cc:527-564 | the bytes of one edge, field by field |
| MessageCodec.SnapshotExample | daemon/include/remoter.pb.cc:804-835 | the bytes of one snapshot |
| StaleCounts.CutHeader | daemon/include/remoter.pb.cc:216-267 | a header cut short is refused or parses to another header |
| StaleCounts.EdgeReadsBackIff | daemon/include/remoter.pb.cc:527-564 | for every edge with a header and every cached count, the print parses to that edge exactly when the count is the size of the header |
| StaleCounts.SnapshotReadsBackIff | daemon/include/remoter.pb.cc:804-835 | likewise for snapshots, if the length of the bitmap is accepted |
| Outbox.NothingLostNothingEarly | client/hybrid_run.py:83-102 | at every step sent, held and queued entries are together the accepted ones; and reading the clock, then sleeping for the rest, sends none before its time |
| Outbox.ReturnsWhenAllSent | client/hybrid_run.py:91-107 | `run` returns only after `close`, with every accepted entry sent exactly once |
| Outbox.HandedInIsKept | client/hybrid_run.py:83-102 | told by the turns alone: each payload is sent, held and queued together as often as it was enqueued without a drop, due at that time plus its delay, and never sent before |
| Outbox.ReturnedIsSent | client/hybrid_run.py:91-107 | on return `close` was called and each such payload has been sent just as often |
| Outbox.SentInOrder | client/hybrid_run.py:88-98 | what waits together is sent by its time, and by its bytes where the times are equal |
| Outbox.LexLeqIff | client/hybrid_run.py:88-98 | that order of byte strings |
| Percentile.BetweenNeighbours | scripts/run_report_experiments.py:38-53 | the result lies between the two sorted samples next to its position, which are in range |
| Percentile.PermutationInvariant | scripts/run_report_experiments.py:38-53 | the order of the samples does not matter |
| Percentile.MonotoneInP | scripts/run_report_experiments.py:38-53 | a greater p never gives a smaller result |
| Percentile.OnTheLine | scripts/run_report_experiments.py:38-53 | at p percent of the way through the sorted samples, the value on the line between the two samples there |

## Left out

- MessageCodec.HeaderMessage.InternalParse: does not say what the fields hold when a parse is refused; a field whose number cannot be read is assigned whatever the runtime returns, which is not part of this repository.
- MessageCodec.EdgeMessage.InternalParse: does not say what the fields hold when a parse is refused; a field whose number cannot be read is assigned whatever the runtime returns, which is not part of this repository.
- MessageCodec.EdgeMessage.MergeFrom: is for two edges that do not share a header object, which the generated ownership rules out.
- Outbox.NothingLostNothingEarly: coroutines take turns as steps of a state machine, and a sleep is taken to last at least as long as asked.
- Sockets: connecting, partial sends and reconnecting of the HID socket; a send appends to a list.
- The connection and stream life cycle of msquic, certificates, and the callback being cleared by `stop`.
- The rest of `qemu/dev-hid.c`: what the guest polls from the keyboard state. `hs->kbd.key` has any size; six entries are asked for where all six keys must show.
- The log lines for latency and drops, the counters, and the verbose output.
- Command line parsing; the three thresholds are any 32-bit integers.
- Protobuf fields that the schema does not know, arenas, reflection; the varint runtime is not part of this repository and follows the Protocol Buffers Encoding guide.
- The snapshot message as an object with fields; its codec, counts included, is proved on values, and its methods are those of the edge with a byte string for the flag.
- Values that Python's `struct.pack` refuses: the client's numbers are in range by their types.
- Text outside ASCII, where Python's `lower` and the daemon's bytes differ.
- The client's rounding of time to milliseconds through a float; the daemon ignores that field.
- The experiment drivers, log parsers and the older clients.
