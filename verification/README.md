# Verified model of a home-automation gateway

A Dafny model of the stateful parts of a C home-automation gateway, with proofs of what they keep over
whole runs. `dafny verify dfyconfig.toml` checks everything.

* **Camera firmware upgrade** (`Cameras`, `UpgradeSpec`, `UpgradeProofs`, `UpgradeNotices`, `UpgradeStarts`,
  `UpgradeDaemon`, `UpgradeChild`, `UpgradeOutcome`). The daemon waits for an image, forks a child and polls
  a two-field shared record; it is modelled as atomic steps over its control block, the record, the child
  and a trace of requests, launches and reports. Every reachable state keeps the run invariant, each
  finished run is reported once with its own type, path and verdict, and a success report means that every
  connected camera of the model with another version took the image and then first reported the image's
  version. A change noticed meanwhile is served at the next end of a wait or run. The daemon can also hang
  for good while waiting for an image; the run says exactly when.
* **Serial receiver** (`Slip`, `Packet`, `SerialReceiver`). The SLIP decoder finds an escape by looking at
  the last decoded byte, so the encoding of RFC 1055, section PROTOCOL, round-trips exactly on payloads
  without an escape byte directly before an escape code. Two checksums catch every single damaged byte.
* **Notification queue** (`NotificationQueue`). A bounded doubly linked list against a plain sequence.
* **Message dispatcher** (`DispatcherSpec`, `DispatcherProofs`, `DispatcherLoop`, `DispatcherStreams`). The
  128-slot client table, its redundant counter and watched set, exact fan-out, and the correlation of replies
  through the sender's descriptor over arbitrary runs, including what a reused slot receives; and the same
  runs from a client's connection on and from the bytes on the clients' sockets.
* **Message framing** (`Framing`, `SocketLoops`). Length-framed messages over a byte stream that fragments
  and interrupts arbitrarily.
* **Stores** (`BoundedLists`, `EventLog`, `LogReaders`, `LogTables`, `KeyValue`, `Numbers`, `DeviceValues`,
  `StoreTables`). The bounded logs are a plain list, the key/value and device value tables are a plain map;
  the configuration table is one only under the condition that is proved.
* **Media URL slots** (`MediaSlots`, `CameraTables`). Eight slots and a counter against the multiset of the
  cameras' URLs.

Functions give the meaning of each operation on values; classes with the source's own fields and loops are
proved to compute them; lemmas state what holds over calls and over runs. A descriptor handed out by the
kernel is assumed to be new, and only watched descriptors are assumed readable. Time, version replies,
camera replies, socket input and the results of system calls are parameters of the steps.

Where the source does not do what its names promise, the code is followed: the configuration table parses
a value where the others count rows; adding a list of device logs writes the first entry each time; a
camera re-added with its own URL can lose its slot; a full table, a failing sensor, a database that refuses
a new camera or a reload separates the cameras' URLs from the slots; the user log can be written but never
read; entries of devices with ids from 2^31 on are not found by id; a head insertion into a full queue leaves
a link to freed memory; a reply can reach the next client on the same descriptor; a notice can stay behind in
the idle state; a camera without a version is not counted but pushed to.

## Model

| member | source | states |
|---|---|---|
| Cameras.ModelTablesAgree | camera/src/ipcam_upgrade.c:165-214 | the two conversions between device types and model names are inverse: a model name has a type exactly when that type has this name |
| Cameras.NeedCountPositive | camera/src/ipcam_upgrade.c:278-356 | a type counts as needing an upgrade exactly when some connected camera in the table is of that model and reports another version |
| Cameras.FirstNeeded | camera/src/ipcam_upgrade.c:393-401 | the type chosen for the next request is the first one with a nonzero count, or the end of the list when there is none |
| UpgradeDaemon.Daemon.constructor | camera/src/ipcam_upgrade.c:235-246 | the daemon starts idle with no timer, no notice, no child and an empty record |
| UpgradeDaemon.Daemon.SetTimerWaitImage | camera/src/ipcam_upgrade.c:221-233 | the image timer is either on with 600 ticks or off with none; nothing else changes |
| UpgradeDaemon.Daemon.CbUpdate | camera/src/ipcam_upgrade.c:278-356 | the in-place refresh of device copies and per-type counts is the refresh function of the camera table and the stored versions |
| UpgradeDaemon.Daemon.UpgradeStart | camera/src/ipcam_upgrade.c:358-443 | a start without a version reply changes nothing; otherwise it stores the versions, recounts, and either goes idle or requests the first needed type, arming the timer only if it is off |
| UpgradeDaemon.Daemon.ReportRun | camera/src/ipcam_upgrade.c:486-520 | the report carries the parent's current type and path, fails on a nonzero count, and would delete the image only for a zero need count |
| UpgradeDaemon.Daemon.ServeNotices | camera/src/ipcam_upgrade.c:522-544 | pending notices restart from idle and are both cleared |
| UpgradeDaemon.Daemon.UpgradeEnd | camera/src/ipcam_upgrade.c:445-547 | the end of a wait or of a run is the specified transition, branch by branch |
| UpgradeDaemon.Daemon.PollResult | camera/src/ipcam_upgrade.c:1206-1217 | the shared record is looked at every fifth tick and a set flag is consumed before the run is ended |
| UpgradeDaemon.Daemon.CountDownWait | camera/src/ipcam_upgrade.c:1218-1226 | the image timer counts down and at zero ends the wait and is switched off |
| UpgradeDaemon.Daemon.HandleTimeoutEvent | camera/src/ipcam_upgrade.c:1206-1226 | one tick is the result query followed by the wait timer |
| UpgradeDaemon.Daemon.CameraListChanged | camera/src/ipcam_upgrade.c:1193-1204 | a list change starts an upgrade when idle and is noted otherwise |
| UpgradeDaemon.Daemon.HandleVersionChangeEvent | camera/src/ipcam_upgrade.c:1228-1278 | a version change that differs from the stored list starts an upgrade when idle and is noted otherwise |
| UpgradeDaemon.Daemon.ForkToUpgrade | camera/src/ipcam_upgrade.c:1163-1191 | the child gets a copy of the job and a cleared record; a failed fork posts the failure count itself |
| UpgradeDaemon.Daemon.HandleFirmwareUpgradeEvent | camera/src/ipcam_upgrade.c:1280-1346 | an image is taken only while waiting, for the awaited type and with a path; every other case ends the wait or is ignored as written |
| UpgradeDaemon.Daemon.ChildStores | camera/src/ipcam_upgrade.c:1157-1158 | the child's count reaches the shared record and no field of the parent |
| UpgradeDaemon.Daemon.ChildSignals | camera/src/ipcam_upgrade.c:1159 | the unread flag is set after the count and the child is gone afterwards |
| UpgradeProofs.StartKeepsInvariant | camera/src/ipcam_upgrade.c:358-443 | a start from idle keeps the run invariant |
| UpgradeProofs.RestartAtExpiry | camera/src/ipcam_upgrade.c:435-439 | a restart served at the expiry finds the timer still on, does not re-arm it, and leaves a started wait without a timer |
| UpgradeProofs.ReportKeepsInvariant | camera/src/ipcam_upgrade.c:486-520 | reporting an unread result keeps the invariant, names the launched job and never takes the branch that deletes the image |
| UpgradeProofs.QueryKeepsInvariant | camera/src/ipcam_upgrade.c:1206-1217 | the result query keeps the invariant and never makes a state stuck |
| UpgradeProofs.WaitTimerKeepsInvariant | camera/src/ipcam_upgrade.c:1218-1226 | the wait timer keeps the invariant; it makes a state stuck exactly when a notice is served at the expiry and a camera still needs an upgrade |
| UpgradeProofs.ImageKeepsInvariant | camera/src/ipcam_upgrade.c:1280-1346 | an image, wanted or not, keeps the invariant and never makes a state stuck |
| UpgradeProofs.ChildKeepsInvariant | camera/src/ipcam_upgrade.c:1157-1160 | the child's writes keep the invariant and touch no control field |
| UpgradeProofs.StepKeepsInvariant | camera/src/ipcam_upgrade.c:358-547 | every step keeps the invariant (timer ranges, unread only in a run with the child done, a live child only in a run, the ledger of launches, posts and reports); waiting loses its timer in exactly one kind of step |
| UpgradeProofs.RunKeepsInvariant | camera/src/ipcam_upgrade.c:1163-1346 | the invariant holds after every sequence of ticks, changes, images and child events |
| UpgradeProofs.RunStuckIff | camera/src/ipcam_upgrade.c:1218-1225 | a run ends waiting without a timer if and only if one of its steps was an expiry that served a notice with a camera still to upgrade |
| UpgradeProofs.StuckForever | camera/src/ipcam_upgrade.c:1193-1204 | that state is absorbing: no later event changes it, requests, launches or reports anything |
| UpgradeProofs.LostForever | camera/src/ipcam_upgrade.c:1206-1217 | a child that dies before its last write leaves the daemon in its run for good |
| UpgradeProofs.RunIsAttributed | camera/src/ipcam_upgrade.c:486-511 | during a run type, path, version, devices and counts do not change and the need count stays positive; only a tick that finds a result ends it |
| UpgradeProofs.OneChildAtATime | camera/src/ipcam_upgrade.c:1163-1191 | a child is forked only when no other is alive and no result waits to be read |
| UpgradeProofs.EveryRunReportedOnce | camera/src/ipcam_upgrade.c:486-520 | over a whole run every finished job is reported exactly once, in launch order, with its own type, path and verdict, and no image is deleted |
| UpgradeProofs.ConsumedWithinFiveTicks | camera/src/ipcam_upgrade.c:1206-1217 | a posted result is reported by the fifth tick, with the type, path and verdict of the job that posted it |
| UpgradeProofs.WaitIsBounded | camera/src/ipcam_upgrade.c:1218-1226 | a wait without images lasts exactly its remaining ticks and then ends idle or stuck |
| UpgradeProofs.QuietRunWedges | camera/src/ipcam_upgrade.c:1218-1225 | whenever some camera is out of date, two list changes and 600 quiet ticks leave the daemon waiting for ever |
| UpgradeProofs.WedgeIsReachable | camera/src/ipcam_upgrade.c:522-544 | such a run exists: one camera with an old version is enough |
| UpgradeNotices.NoticeStep | camera/src/ipcam_upgrade.c:522-544 | a pending notice outlives every step but the end of a wait or run, which serves it |
| UpgradeNotices.ServedAtNextEnd | camera/src/ipcam_upgrade.c:522-544 | over every run a set notice is served by the next step that ends a wait or run and by no earlier one: both notices are cleared and the start over requests the first type out of date or says that nothing is left |
| UpgradeNotices.NoticeSurvives | camera/src/ipcam_upgrade.c:358-443 | as long as nothing ends, a notice survives, starts included |
| UpgradeNotices.IdleNoticeStep | camera/src/ipcam_upgrade.c:1309-1335 | a notice comes into the idle state exactly through an image that is refused during the wait |
| UpgradeNotices.IdleNoticeIff | camera/src/ipcam_upgrade.c:1309-1335 | from any state without notices, as the initial one, a run ends idle with a notice pending if and only if it ends idle and an image was refused during a wait with a notice pending, with no wait or run ended since |
| UpgradeNotices.EveryFifthTick | camera/src/ipcam_upgrade.c:1206-1217 | over every run the result is looked for at exactly every fifth tick, beginning with the first |
| UpgradeStarts.StaleIsOutOfDate | camera/src/ipcam_upgrade.c:303-340 | the counted cameras are the connected ones of the model of a type that report a version, and another one than announced |
| UpgradeStarts.ChosenIsFirstStale | camera/src/ipcam_upgrade.c:393-408 | the type a start chooses is the first one with such a camera; none is chosen exactly when there is no such camera |
| UpgradeStarts.StartDoes | camera/src/ipcam_upgrade.c:358-443 | a start from idle without a version reply changes nothing; with no camera out of date it stays idle and silent; otherwise it requests exactly the first type out of date, once, and waits 600 ticks; versions and device copies are those just read |
| UpgradeStarts.VersionChangeDoes | camera/src/ipcam_upgrade.c:1228-1278 | without a reply or with the stored list nothing changes; a new list starts an upgrade when idle and otherwise sets the notice and nothing else |
| UpgradeStarts.ListChangeDoes | camera/src/ipcam_upgrade.c:1193-1204 | a list change starts an upgrade when idle and otherwise sets the notice and nothing else |
| UpgradeStarts.ImageDoes | camera/src/ipcam_upgrade.c:1280-1346 | an image is ignored outside a wait; an unknown type is refused and the wait goes on; another type or an empty path is refused and ends the wait; otherwise the job is launched in a child, or failed with 255 when the fork fails |
| UpgradeStarts.AnswerMeans | camera/src/ipcam_upgrade.c:522-544 | starting over requests the first type out of date, and otherwise says that nothing is left to do |
| UpgradeStarts.ChangeIsServed | camera/src/ipcam_upgrade.c:522-544 | every new version list and every list change seen in a wait or run is served by the next step that ends it |
| UpgradeStarts.StepKnows | camera/src/ipcam_upgrade.c:278-300 | a step that starts takes versions, device copies and counts from what it reads; every other step leaves them alone |
| UpgradeStarts.RunKnows | camera/src/ipcam_upgrade.c:278-300 | over every run versions, device copies and counts are those of the last start |
| UpgradeStarts.LaunchedJob | camera/src/ipcam_upgrade.c:1163-1175 | a child is given the image's path and version and the camera table of the last start, in which a camera of the type was out of date |
| UpgradeChild.PushImages | camera/src/ipcam_upgrade.c:678-921 | the push loop classifies every selected camera and counts exactly the pushed ones |
| UpgradeChild.ReadCamera | camera/src/ipcam_upgrade.c:1046-1104 | one reply moves one camera and keeps flags, codes and error count in step with its standing |
| UpgradeChild.HandlePass | camera/src/ipcam_upgrade.c:1036-1115 | one select turn acts on each camera in the set as if that camera were alone |
| UpgradeChild.OpenQueries | camera/src/ipcam_upgrade.c:953-1014 | the set to listen to is exactly the flagged cameras that could be reached, and the recount is the number of flags |
| UpgradeChild.CheckRound | camera/src/ipcam_upgrade.c:946-1117 | a check round acts on each flagged camera as if that camera were alone |
| UpgradeChild.CheckAll | camera/src/ipcam_upgrade.c:945-1135 | at most five rounds, and stopping early when nothing is flagged changes no camera's outcome |
| UpgradeChild.MarkUnresolved | camera/src/ipcam_upgrade.c:1138-1154 | cameras still flagged after the rounds each add one error |
| UpgradeChild.Process | camera/src/ipcam_upgrade.c:608-1161 | the count the child stores is push failures, mismatches, unresolved cameras and unparseable replies together, for every table and every sequence of replies |
| UpgradeChild.HearRoundsSplit | camera/src/ipcam_upgrade.c:945-1135 | hearing two lists of rounds is hearing them in turn |
| UpgradeChild.SettledStaysSettled | camera/src/ipcam_upgrade.c:1101-1103 | a camera with a verdict ignores all later rounds |
| UpgradeChild.Accounting | camera/src/ipcam_upgrade.c:678-1160 | the classes partition the cameras and the error count splits over three of them and the unparseable replies |
| UpgradeChild.VerdictIsFirstVersion | camera/src/ipcam_upgrade.c:1068-1104 | the verdict on a pushed camera is its first parseable version compared with the target |
| UpgradeChild.ErrorFreeMeansUpgraded | camera/src/ipcam_upgrade.c:678-1160 | the count is zero if and only if every connected camera of the model with another version took the image and then first reported the image's version, with no unparseable reply before |
| UpgradeChild.SelectedIsClassified | camera/src/ipcam_upgrade.c:678-1160 | exactly the connected cameras of the model with another version are pushed to, and each ends in exactly one of push-failed, mismatched, unresolved and upgraded |
| UpgradeOutcome.ChildPostsItsCount | camera/src/ipcam_upgrade.c:1157-1160 | whatever happens between the child's two last writes, the count it stores is the count the parent later reads, for the launched job and with nothing reported before |
| UpgradeOutcome.SuccessMeansUpgraded | camera/src/ipcam_upgrade.c:486-511 | end to end: within five ticks a child that stored its count and, after any other events, raised the flag is reported with the launched type and path, and as a success exactly when it could start and every connected camera of the model with another version took the image and then first reported the image's version, with no unparseable reply before |
| UpgradeOutcome.SelectedIffOutOfDate | camera/src/ipcam_upgrade.c:672-704 | for an image of the announced version the child pushes to a camera with a known version if and only if the parent counted it as out of date |
| UpgradeOutcome.UnknownVersionIsSelected | camera/src/ipcam_upgrade.c:672-704 | a camera without a version is pushed to although the parent does not count it |
| UpgradeOutcome.LaunchSelects | camera/src/ipcam_upgrade.c:1163-1191 | a run launched with the announced version pushes to at least one camera |
| UpgradeOutcome.ForkFailureIsReported | camera/src/ipcam_upgrade.c:1163-1191 | a fork that fails is reported within five ticks as a failed run of the awaited type and the image's path |
| Slip.DecodeSplit | sp_ble_ctrl/sp_ble_serial.c:460-496 | decoding a stream is decoding its two halves in turn |
| Slip.ChunksDoNotMatter | sp_ble_ctrl/sp_ble_serial.c:499-524 | however the stream is cut into reads, the same frames come out |
| Slip.EarlierFramesStay | sp_ble_ctrl/sp_ble_serial.c:460-496 | delivered frames are never changed by later bytes and later frames do not depend on them |
| Slip.FrameDependsOnItsBytes | sp_ble_ctrl/sp_ble_serial.c:460-496 | after an END the next frame depends on the bytes since that END alone |
| Slip.RoundTripExact | sp_ble_ctrl/sp_ble_serial.c:460-496 | what is buffered after an encoded payload is the payload when it is clean and something strictly shorter otherwise |
| Slip.DeliveredIffClean | sp_ble_ctrl/sp_ble_serial.c:460-496 | the encoding by RFC 1055, section PROTOCOL, followed by END delivers the payload if and only if it has no 0xDB directly before 0xDC or 0xDD; otherwise the frame is strictly shorter |
| Slip.EscapeThenEndCodeIsLost | sp_ble_ctrl/sp_ble_serial.c:473-484 | the concrete payload 0xDB 0xDC comes out as one byte |
| Packet.XorByteBit | sp_ble_ctrl/sp_ble_serial.c:206-215 | a bit of the exclusive or is set exactly when the operands differ in it |
| Packet.XorIsParity | sp_ble_ctrl/sp_ble_serial.c:206-215 | a bit of the checksum is the parity of that bit over the base and all bytes |
| Packet.CalculateBytesXor | sp_ble_ctrl/sp_ble_serial.c:206-215 | the accumulation loop computes the exclusive or of the base and all bytes, bit by bit |
| Packet.XorByteInjective | sp_ble_ctrl/sp_ble_serial.c:206-215 | a byte is determined by the other operand and the exclusive or |
| Packet.XorNotices | sp_ble_ctrl/sp_ble_serial.c:206-215 | the checksum changes with any change of a single byte |
| Packet.SubstitutionRejected | sp_ble_ctrl/sp_ble_serial.c:421-457 | any substitution of one byte in a well-formed packet with the checksum flag is dropped by the validator |
| Packet.BuildValidates | sp_ble_ctrl/sp_ble_serial.c:421-457 | a packet built from a type and a payload validates to exactly that type, length and payload |
| Packet.AcceptedIff | sp_ble_ctrl/sp_ble_serial.c:421-457 | which frames the validator accepts and as what: the headers must be those of the message; with an odd flag byte the payload must be whole with a byte behind it and the last byte its checksum, with an even one what is there of the payload is taken |
| Packet.EncodedPacketValidates | sp_ble_ctrl/sp_ble_serial.c:421-496 | an encoded packet validates to its own message when its bytes are clean and never does otherwise |
| Packet.PacketArrivesIffClean | sp_ble_ctrl/sp_ble_serial.c:421-496 | an encoded packet reaches dispatch with its type, length and payload if and only if its bytes are clean |
| SerialReceiver.BufferedAtMostRaw | sp_ble_ctrl/sp_ble_serial.c:66-67 | the buffer never holds more than the raw bytes since the last END |
| SerialReceiver.StaysInsideMeans | sp_ble_ctrl/sp_ble_serial.c:460-496 | every write hits the buffer if and only if no proper prefix of the bytes decodes to 512 buffered bytes |
| SerialReceiver.ShortRunsStayInside | sp_ble_ctrl/sp_ble_serial.c:66-67 | runs of at most 511 raw bytes between ENDs are enough for that |
| SerialReceiver.CheckFrame | sp_ble_ctrl/sp_ble_serial.c:421-457 | the checks in the order of the code accept exactly what the validator function accepts |
| SerialReceiver.Receiver.OnUartPacketRecv | sp_ble_ctrl/sp_ble_serial.c:421-457 | a complete frame hands on its message or nothing |
| SerialReceiver.Receiver.ReceiveByte | sp_ble_ctrl/sp_ble_serial.c:460-496 | one byte updates the fixed buffer in place as the decoder function says |
| SerialReceiver.Receiver.OnUartDataRecv | sp_ble_ctrl/sp_ble_serial.c:460-496 | a received block leaves the buffer and the dispatched messages of the decoder function as long as every write hits the 512-byte buffer, and the result says exactly whether it does |
| NotificationQueue.Queue.InsertTail | sp_ble_ctrl/sp_ble_queue.c:123-154 | the doubly linked chain becomes the old sequence with the unit at the end, without its oldest element at the limit of 200, and ends in null |
| NotificationQueue.Queue.InsertHead | sp_ble_ctrl/sp_ble_queue.c:90-121 | the unit becomes the first; at the limit the last unit is dropped but the new last one still points to it, so the chain ends in null exactly when it did and there was room |
| NotificationQueue.Queue.Popup | sp_ble_ctrl/sp_ble_queue.c:253-275 | the first unit is taken off, or null is returned from an empty queue; taking the last unit of a chain that does not end moves the head to a freed unit and writes to it, and only that does |
| NotificationQueue.Queue.Clean | sp_ble_ctrl/sp_ble_queue.c:288-303 | walking a chain that ends frees every unit and leaves the empty queue; a chain that does not end leads to a freed unit |
| NotificationQueue.Queue.Empty | sp_ble_ctrl/sp_ble_queue.c:277-281 | empty means no units |
| NotificationQueue.Queue.Number | sp_ble_ctrl/sp_ble_queue.c:283-286 | the counter is the number of units and at most 200 |
| NotificationQueue.Queue.Execute | sp_ble_ctrl/sp_ble_queue.c:90-303 | running a list of operations on the linked queue touches freed memory exactly when the list is unsafe, and otherwise ends in the contents of the sequence and in a chain that ends exactly when the history says so |
| NotificationQueue.RunConserves | sp_ble_ctrl/sp_ble_queue.c:90-303 | over every run that touches no freed memory what was inserted is what left plus what is there, and never more than 200 are there |
| NotificationQueue.ChainEndsIff | sp_ble_ctrl/sp_ble_queue.c:107-119 | in such a run the chain fails to end if and only if a head insertion at the limit was followed by no tail insertion |
| NotificationQueue.HeadsThenCleanIsUnsafe | sp_ble_ctrl/sp_ble_queue.c:288-303 | 201 head insertions followed by a clean touch freed memory |
| NotificationQueue.TailRunIsFifo | sp_ble_ctrl/sp_ble_queue.c:123-154 | without head insertions every run is safe, the chain always ends, and units leave in the order they came; a drop at the limit hits the oldest |
| NotificationQueue.TailRunKeepsNewest | sp_ble_ctrl/sp_ble_queue.c:123-154 | without removals the queue holds the last 200 insertions |
| DispatcherSpec.FirstFree | hc_dispatcher/hc_dispatcher.c:225-229 | the slot search stops at the first free slot |
| DispatcherProofs.FreeSlotExists | hc_dispatcher/hc_dispatcher.c:217-235 | once the counter is below 128 a free slot exists, so the second full-table branch is unreachable |
| DispatcherProofs.AcceptKeeps | hc_dispatcher/hc_dispatcher.c:204-243 | accepting a fresh descriptor keeps the table invariant |
| DispatcherProofs.ResetKeeps | hc_dispatcher/hc_dispatcher.c:62-68 | resetting a client keeps the table invariant |
| DispatcherProofs.RegisterKeeps | hc_dispatcher/hc_dispatcher.c:266-279 | registering a client keeps the table invariant |
| DispatcherProofs.WakeKeeps | hc_dispatcher/hc_dispatcher.c:158-336 | one whole wake-up keeps the invariant: the counter counts, descriptors are distinct, the watched set is the listener and the clients, and maxfd bounds it |
| DispatcherProofs.SlotAfterWake | hc_dispatcher/hc_dispatcher.c:204-333 | what a client's slot holds after any wake-up: the announced types and process with the old descriptor after a registration, no descriptor but the old types after a loss, and everything as before when the client was not read or sent a message |
| DispatcherProofs.WakeOutcome | hc_dispatcher/hc_dispatcher.c:158-336 | what a wake-up tells the caller: nothing for a timeout, failure for an error of select or at the listener, and otherwise what the first readable client with a message or a failure says |
| DispatcherProofs.RunKeeps | hc_dispatcher/hc_dispatcher.c:511-540 | every run of wake-ups keeps the invariant |
| DispatcherProofs.ReachableStates | hc_dispatcher/hc_dispatcher.c:85-139 | from a fresh table the invariant holds after every possible run |
| DispatcherProofs.FanIsExact | hc_dispatcher/hc_dispatcher.c:380-469 | a message goes out unchanged, once to each wanted client and to nobody else |
| DispatcherProofs.BroadcastIsExact | hc_dispatcher/hc_dispatcher.c:384-403 | a broadcast reaches exactly the clients in slots not typed as applications, once each |
| DispatcherProofs.CommandIsExact | hc_dispatcher/hc_dispatcher.c:354-469 | a command reaches exactly the default sockets of a connected target, once each; with no target connected the only delivery is one not-supported bounce to its sender |
| DispatcherProofs.EventIsExact | hc_dispatcher/hc_dispatcher.c:428-447 | an event for the applications reaches exactly their event sockets, once each |
| DispatcherProofs.NobodyToTell | hc_dispatcher/hc_dispatcher.c:354-380 | a message for a daemon that is not connected is dropped, unless it is an application's command, which bounces |
| DispatcherProofs.CommandIsServed | hc_dispatcher/hc_dispatcher.c:280-469 | from reading to delivery: a command read from an application's command socket goes, naming its sender, once to each default socket of its target and to nobody else, or comes back as one bounce |
| DispatcherProofs.ReplyReachesHolder | hc_dispatcher/hc_dispatcher.c:408-427 | a reply goes to whoever holds the descriptor it names if that slot is typed as an application, and otherwise to nobody |
| DispatcherProofs.ReplyToNobody | hc_dispatcher/hc_dispatcher.c:408-427 | a reply naming a descriptor that is not connected is sent to nobody |
| DispatcherProofs.MessageNamesItsSender | hc_dispatcher/hc_dispatcher.c:280-323 | a received message carries its slot's type as source and, on a command socket, the sender's descriptor, whatever the client wrote there |
| DispatcherProofs.RunKeepsCommander | hc_dispatcher/hc_dispatcher.c:158-336 | a registered client that stays keeps its slot, descriptor and types over any run of other connects, closes, registrations and messages |
| DispatcherProofs.ReplyFindsItsSender | hc_dispatcher/hc_dispatcher.c:280-427 | correlation over whole runs: a reply that names back the sender of a received command is delivered once, to it alone, after any run in which that client stays |
| DispatcherProofs.FirstClientHearsNothing | hc_dispatcher/hc_dispatcher.c:85-139 | in a new table a client that has not registered is sent nothing that is addressed to one daemon or the applications |
| DispatcherProofs.NewClientGetsReply | hc_dispatcher/hc_dispatcher.c:225-242 | an unregistered client is sent a reply naming its descriptor if and only if its slot's previous occupant was an application |
| DispatcherProofs.StrangerGetsReply | hc_dispatcher/hc_dispatcher.c:62-68 | after the sender hangs up, a new client with the same descriptor and slot receives the reply meant for it |
| DispatcherLoop.WaitIsPartOfTheRun | hc_dispatcher/hc_dispatcher.c:158-336 | however the wake-ups are cut into calls of the wait, table and deliveries are those of one uninterrupted run |
| DispatcherLoop.Dispatcher.constructor | hc_dispatcher/hc_dispatcher.c:85-139 | a new table has 128 free slots and watches the listener |
| DispatcherLoop.Dispatcher.ResetClient | hc_dispatcher/hc_dispatcher.c:62-68 | the slot loses its descriptor but keeps its types |
| DispatcherLoop.Dispatcher.ClientCheck | hc_dispatcher/hc_dispatcher.c:70-82 | zero exactly when some connected client has the type |
| DispatcherLoop.Dispatcher.AcceptClient | hc_dispatcher/hc_dispatcher.c:204-245 | the new client goes into the first free slot, or is refused without being watched |
| DispatcherLoop.Dispatcher.ReadClient | hc_dispatcher/hc_dispatcher.c:249-330 | what one readable client's input does to its slot and to the caller |
| DispatcherLoop.Dispatcher.ScanClients | hc_dispatcher/hc_dispatcher.c:247-333 | slots are served in order up to the first message or failure |
| DispatcherLoop.Dispatcher.ServeReadySockets | hc_dispatcher/hc_dispatcher.c:204-333 | the listener is served before the clients of the same wake-up |
| DispatcherLoop.Dispatcher.WaitForMsg | hc_dispatcher/hc_dispatcher.c:158-336 | the wait returns at the first message, timeout, error or after too many interrupts |
| DispatcherLoop.Dispatcher.SendMsgToClient | hc_dispatcher/hc_dispatcher.c:338-469 | the loop with its nested branches sends exactly the specified deliveries and returns the result of the last one |
| DispatcherLoop.Dispatcher.Serve | hc_dispatcher/hc_dispatcher.c:511-540 | the main loop ends in the table of the run and has sent its deliveries in order |
| DispatcherStreams.MessageFields | hc_msg/hc_msg.h:100-121 | where the fields of a message lie in its bytes |
| DispatcherStreams.MessageKeepsAll | hc_msg/hc_msg.h:100-143 | the bytes of a message can be read off what the dispatcher makes of it |
| DispatcherStreams.RegistrationIsHeard | hc_dispatcher/hc_dispatcher.c:265-279 | a registration without data gives the client types and process id, and the stream goes on behind it |
| DispatcherStreams.StreamsAreInput | hc_dispatcher/hc_dispatcher.c:248-323 | reading the streams of the ready sockets one after another is one scan of the table with what each stream yields |
| DispatcherStreams.ServeIsWake | hc_dispatcher/hc_dispatcher.c:158-336 | serving the bytes on the sockets is a possible wake-up of the table |
| DispatcherStreams.BytesMakeARun | hc_dispatcher/hc_dispatcher.c:511-540 | every run on bytes is a possible run of the table, so all results about runs hold for it |
| DispatcherStreams.ClientIsHeard | hc_dispatcher/hc_dispatcher.c:248-323 | over every run the messages taken from a registered client are an initial part of what it sent, in order, each once and stamped with its slot, and the rest is still on its stream, whatever all other clients do |
| DispatcherStreams.RunJoins | hc_dispatcher/hc_dispatcher.c:248-323 | a client that has connected and whose stream starts with a registration is, after any run, either not read yet or registered as announced and heard in order |
| DispatcherStreams.ApplicationJoins | hc_dispatcher/hc_dispatcher.c:204-323 | from the connection on, over every run: an application that registers its command socket in bytes is not read yet, or it is a registered command socket in the slot it was given and was heard in order |
| DispatcherStreams.JoinedIsServed | hc_dispatcher/hc_dispatcher.c:280-469 | its next message is served as its command, and a reply that names its descriptor goes to it alone |
| DispatcherStreams.CommandInBytesIsServed | hc_dispatcher/hc_dispatcher.c:248-469 | a command sent in bytes is served, to its target or as a bounce, in the wake-up that takes it |
| Framing.RecvExact | hc_msg/hc_msg.c:81-113 | a read of n bytes returns n, delivers the next n bytes and stops right behind them if and only if the stream has them before it ends and at most 9999 interruptions come first |
| Framing.RecvShort | hc_msg/hc_msg.c:81-113 | on a stream with too few bytes a hang-up gives the number read so far, and everything else -1 |
| Framing.Int32OfBytes | hc_msg/hc_msg.h:100-121 | a field reads as the signed number whose bytes it holds, lowest first |
| Framing.ReceiveFrameIs | hc_msg/hc_msg.c:262-299 | what a reader makes of any stream: broken without a whole fixed part, no data for a length field that is not positive, and otherwise the data whole or lost |
| Framing.FrameArrivesIff | hc_msg/hc_msg.c:262-299 | a message on the stream is received unchanged if and only if neither of its two reads is interrupted too often, and the rest of the stream starts right behind it |
| Framing.RoundTrip | hc_msg/hc_msg.c:262-299 | for any list of messages and any fragmentation the receiver reconstructs the list if and only if no read is interrupted too often; otherwise it delivers a proper initial part |
| Framing.DispatcherRoundTrip | hc_dispatcher/hc_dispatcher.c:249-323 | the dispatcher reconstructs the list if and only if no read is interrupted too often and no registration carries data |
| Framing.LadenShifts | hc_dispatcher/hc_dispatcher.c:266-279 | behind a registration that carries data the stream goes on with that data, where the next message should start |
| Framing.FewInterruptionsSuffice | hc_msg/hc_msg.c:96-102 | at most 9999 interruptions on the whole stream are always tolerable |
| Framing.SendAllOrPrefix | hc_msg/hc_msg.c:115-144 | a send writes the whole message and returns its length, or writes a proper initial part and returns -1 |
| Framing.SendExact | hc_msg/hc_msg.c:115-144 | a send succeeds, and stops behind the last answer it needs, if and only if the kernel takes the rest of the message before the first refusal with at most 9999 interruptions on the way |
| Framing.SendAllIff | hc_msg/hc_msg.c:328-343 | a list is sent without error if and only if the kernel takes every message in turn |
| Framing.EndToEnd | hc_msg/hc_msg.c:328-343 | a list that the kernel takes and brings over with few interruptions arrives as the same list, whatever partial writes and reads happen |
| Framing.NegativeLengthIsCut | hc_msg/hc_msg.c:328-343 | a message arrives if and only if its signed length field is not negative; with a negative one it is cut on sending and never received |
| SocketLoops.Socket.RecvEx | hc_msg/hc_msg.c:81-113 | the retry loop fills the buffer as the specification reads the stream |
| SocketLoops.Socket.WaitForMsg | hc_msg/hc_msg.c:262-299 | a client reads the fixed part, then the announced data: broken, data lost or whole message exactly as specified |
| SocketLoops.Socket.ReadClient | hc_dispatcher/hc_dispatcher.c:249-323 | the dispatcher reads the same way, but no data behind a registration |
| SocketLoops.Socket.ReadData | hc_dispatcher/hc_dispatcher.c:299-323 | the announced data is read whole or the message is lost |
| SocketLoops.Socket.SendEx | hc_msg/hc_msg.c:115-144 | the retry loop hands the kernel exactly the specified bytes |
| SocketLoops.Socket.SendMsg | hc_msg/hc_msg.c:328-343 | one message is sent as its fixed part plus announced data, and not at all on an unopened socket |
| EventLog.InsertAppends | database/db_lib/sql_api.c:108-116 | an insertion never meets an existing key and its row is read last |
| EventLog.RecycleAppends | database/db_lib/sql_api.c:132-139 | overwriting the row with the smallest key drops exactly the oldest entry and appends the new one, under a key that was free |
| EventLog.AddAppends | database/db_lib/sql_api.c:1639-1669 | with the count taken before a list of additions, each addition appends within the limit |
| EventLog.CopiesAppend | database/db_lib/sql_api.c:1639-1669 | writing an entry n times, counted once before, appends it n times within the limit |
| EventLog.ListIsAppendedIff | database/db_lib/sql_api.c:1603-1673 | adding a list of device logs reads as appending it if and only if its last 200 entries equal its first; the one caller passes one entry |
| EventLog.SecondEntryIsLost | database/db_lib/sql_api.c:1603-1673 | adding two different entries writes the first one twice |
| EventLog.ReadKeeps | database/db_lib/sql_api.c:2076-2088 | deleting by device leaves the other entries in their order |
| EventLog.TableIsBoundedList | database/db_lib/sql_api.c:1603-1728 | after any sequence of additions and deletions the table in key order is the plain bounded list, and never exceeds the limit; for the device log and the user log, and with deletions that name a missing column and so remove nothing |
| EventLog.TableKeepsOrder | database/db_lib/sql_api.c:108-139 | what a table holds is a subsequence of everything ever written, in that order |
| EventLog.TableHoldsNewest | database/db_lib/sql_api.c:2457-2509 | with additions and refused deletions only, a table holds exactly the last 200 (user log: 1000) writes |
| EventLog.KeyIsNeverGivenAgain | database/db_lib/sql_api.c:141-149 | a key the database gave to an entry of the user log is never given again, whatever happens in between |
| EventLog.DeviceLogIsSelected | database/db_lib/sql_api.c:1896-2030 | a query of the device log selects from the bounded list, newest first or oldest first |
| LogReaders.DeviceLogIsRead | database/db_lib/sql_api.c:1896-2030 | every reader of the device log (all, by device, by type, by network, by alarm type, by time, from an index) sees what it asks for of the bounded list, newest first or oldest first, up to its buffer |
| LogReaders.NewestRecords | database/db_lib/sql_api.c:1731-1784 | record by record, the first reader delivers the wanted entries from the newest on, passing over as many as its index says, until its buffer is full |
| LogReaders.OldestRecords | database/db_lib/sql_api.c:1786-1880 | record by record, the second reader delivers the wanted entries from the oldest on until its buffer is full, and says so when there is none |
| LogReaders.DeliveredIff | database/db_lib/sql_api.c:1970-2030 | a buffer for the whole log gets an entry if and only if it is in the log and of the device, type, network, alarm or time span asked for, with the bounds as the conditions have them |
| LogReaders.FoundByIdIff | database/db_lib/sql_api.c:1984-1991 | what was just logged for a device is found by its id if and only if the id is below 2^31: it is printed signed on writing and unsigned in the condition |
| LogReaders.DeletedByIdIff | database/db_lib/sql_api.c:2076-2083 | the deletion by device removes what was logged for it under the same condition |
| LogReaders.UserLogIsNeverRead | database/db_lib/sql_api.c:2621-2671 | every reader of the user log orders by a column that table does not have, so none ever delivers a record |
| LogReaders.UserLogOnlyGrows | database/db_lib/sql_api.c:2703-2710 | the deletion by user name names a column that table does not have and removes nothing |
| LogTables.LogTable.ExecInsert | database/db_lib/sql_api.c:108-111 | the new key is the largest plus one, or the database's next key |
| LogTables.LogTable.ExecUpdateOldest | database/db_lib/sql_api.c:132-134 | the oldest row is overwritten and becomes the newest |
| LogTables.LogTable.AddLog | database/db_lib/sql_api.c:1603-1673 | the loop writes the list's first entry once for each entry, inserting while the running count allows and overwriting after |
| LogTables.LogTable.DeleteLog | database/db_lib/sql_api.c:2076-2083 | exactly the matching rows go, or none if the condition names a missing column |
| LogTables.LogTable.DeleteAll | database/db_lib/sql_api.c:2085-2088 | all rows go, the key counter stays |
| LogTables.LogTable.GetLog | database/db_lib/sql_api.c:1731-1784 | the first reader copies the selected entries in order, up to the buffer's size, and always succeeds |
| LogTables.LogTable.GetLogV2 | database/db_lib/sql_api.c:1786-1880 | the second reader reports a refused statement and an empty result, and otherwise copies up to the buffer's size |
| LogTables.LogTable.Select | database/db_lib/sql_api.c:1896-2030 | walking the rows by key, up or down, selects what the statement asks for |
| KeyValue.UpdateThenFirst | database/db_lib/sql_api.c:3089-3178 | an attribute, scene or location update is read back even among duplicate rows and changes no other key |
| KeyValue.TableIsMap | database/db_lib/sql_api.c:3180-3224 | over every run of updates, unchecked additions and deletions by key or by device a reader sees the map's value cut to its buffer, or its buffer untouched |
| KeyValue.ConfUpdate | database/db_lib/sql_api.c:3764-3815 | on a key that is absent or whose last value parses to a nonzero number the configuration update works; otherwise it adds a row and the old value stays in front |
| KeyValue.ConfUpdateThenFirst | database/db_lib/sql_api.c:3764-3855 | configuration update-then-get returns whatever was written if and only if the key is absent or its last value parses to a nonzero number |
| KeyValue.ConfUpdateOther | database/db_lib/sql_api.c:3764-3815 | no other key changes |
| KeyValue.ConfLastIsLatest | database/db_lib/sql_api.c:1089-1098 | the last row of a key is always the latest value |
| KeyValue.ConfRun | database/db_lib/sql_api.c:3764-3855 | over every run of updates, unchecked additions and deletions a reader of a configuration key sees its first value since it was last removed, or the latest update that followed a nonzero number |
| KeyValue.ConfRead | database/db_lib/sql_api.c:3817-3855 | so after any run a configuration reader is given that value cut to 127 characters, or its buffer untouched |
| KeyValue.TruncatedMeans | database/db_lib/sql_api.c:3531-3571 | a reader gets the first characters that fit |
| StoreTables.KeyValueTable.CountRows | database/db_lib/sql_api.c:1089-1098 | the counter callback leaves the row count, or for configuration the number in the last row |
| StoreTables.KeyValueTable.UpdateValue | database/db_lib/sql_api.c:3444-3529 | insert when the counter is zero, overwrite all rows of the key otherwise |
| StoreTables.KeyValueTable.AddValue | database/db_lib/sql_api.c:3734-3762 | a row is added without a check |
| StoreTables.KeyValueTable.GetValue | database/db_lib/sql_api.c:3531-3571 | the first row's value cut to the buffer, or the buffer unchanged |
| StoreTables.KeyValueTable.Delete | database/db_lib/sql_api.c:3330-3379 | all rows of a key, or of a device, go |
| Numbers.StringToUnsignedNum | database/db_lib/sql_api.c:3983-4014 | the right-to-left loop returns one exactly for a nonempty digit string and then its decimal value; on another character it has stored the digits behind it; the largest number on the way fits an int if and only if at most nine digits end the string |
| Numbers.ParseInvertsPrint | database/db_lib/sql_api.c:3983-4014 | below a thousand million it inverts decimal printing |
| Numbers.AtoiMeans | database/db_lib/sql_api.c:1089-1098 | any text reads as the number of its leading digits behind blanks and a sign, saturated to an int, and as zero without such digits |
| Numbers.AtoiSplits | database/db_lib/sql_api.c:1089-1098 | every text has such parts |
| Numbers.PrintIsDecimal | database/db_lib/sql_api.c:5084-5150 | a printed int is its decimal digits without a leading zero behind a minus sign when negative |
| Numbers.AtoiOfPrint | database/db_lib/sql_api.c:6065-6067 | reading a printed int gives it back, for every 32-bit value |
| DeviceValues.ExecOne | database/db_lib/sql_api.c:5084-5150 | the statement chosen for a field changes that field's row only and keeps one row for each field |
| DeviceValues.BatchActsInTurn | database/db_lib/sql_api.c:953-1086 | a batch whose statements were all chosen before the first ran acts like its fields written in turn |
| DeviceValues.ValueRoundTrip | database/db_lib/sql_api.c:6061-6085 | ints of 32 bits, unsigned values below a thousand million and strings up to 127 characters survive printing, storing and scanning |
| DeviceValues.FindIsFirst | database/db_lib/sql_api.c:6087-6104 | searching the copied rows by name finds the stored value cut to 127 characters |
| DeviceValues.SetThenGet | database/db_lib/sql_api.c:953-1086 | a device that was set reads back with the same fields |
| DeviceValues.SetLeavesOthers | database/db_lib/sql_api.c:953-1086 | no other device and no other field reads differently |
| DeviceValues.TableIsMap | database/db_lib/sql_api.c:953-1086 | after any run of settings, deletions of a device and deletions of all devices each device and name has at most one row, and the table is the map of what was last written |
| DeviceValues.ReadAfterRun | database/db_lib/sql_api.c:7032-7078 | after any run of settings and of deletions of one or all devices a field reads as the map says, or as no record |
| StoreTables.DeviceValueTable.SetDeviceValue | database/db_lib/sql_api.c:5084-5150 | statements are chosen against the table as it is and then run |
| StoreTables.DeviceValueTable.SetDevs | database/db_lib/sql_api.c:953-1086 | a list of devices is written in turn |
| StoreTables.DeviceValueTable.DeleteDevice | database/db_lib/sql_api.c:7112-7128 | exactly the rows of the device go |
| StoreTables.DeviceValueTable.DeleteAll | database/db_lib/sql_api.c:1287-1299 | all rows go |
| StoreTables.DeviceValueTable.CopyRows | database/db_lib/sql_api.c:6965-7030 | exactly the device's rows are copied, in order, cut to the buffers |
| StoreTables.DeviceValueTable.FindValue | database/db_lib/sql_api.c:6087-6104 | the first copy with the name, or no record |
| StoreTables.DeviceValueTable.GetField | database/db_lib/sql_api.c:7032-7078 | copy, find and scan give the specified field |
| StoreTables.SetDevicesKeeps | database/db_lib/sql_api.c:953-1086 | writing a list of devices keeps one row for each field |
| MediaSlots.AddStores | camera/src/camera_util.c:1125-1164 | a nonempty URL is refused exactly when all eight slots are taken, and otherwise goes into a slot that was free, under an id in 1..8 |
| MediaSlots.DelRemoves | camera/src/camera_util.c:1166-1205 | deleting a nonempty URL takes out one copy of it if there is one |
| MediaSlots.EmptyUrlDrifts | camera/src/camera_util.c:1125-1205 | with an empty URL the counter goes wrong exactly when the call succeeds |
| MediaSlots.RunKeepsCount | camera/src/camera_util.c:1125-1205 | over every run with nonempty URLs the counter is the number of occupied slots and at most eight |
| MediaSlots.CutMeans | camera/src/camera_util.c:1125-1164 | a slot takes the first 255 characters of a URL |
| MediaSlots.RemoteNameTells | camera/src/camera_state.c:220-221 | the name a camera is told tells the slots apart |
| MediaSlots.OverlaidMeans | camera/src/camera_state.c:231-243 | copying a string over a record leaves what a longer old one held behind it, and changes nothing exactly when the old string starts with the new one |
| MediaSlots.SwapNamesItsSlot | camera/src/camera_state.c:215-232 | after the swap the slot named by the remote URL holds the new URL if and only if the URLs differ or the old one sat in an earlier slot |
| MediaSlots.SwapKeepsMatch | camera/src/camera_state.c:215-242 | adding or re-adding a camera keeps slots and camera records together if and only if a slot is free or the record does not change |
| MediaSlots.DropKeepsMatch | camera/src/camera_state.c:59-91 | deleting a camera keeps them together if and only if it had a URL or the table is empty or full |
| MediaSlots.CleanKeepsMatch | camera/src/camera_state.c:94-123 | cleaning up keeps them together if and only if no camera in use without a URL is visited while some but not all slots are taken; then every record and every slot is free |
| MediaSlots.TakingBackOrphans | camera/src/camera_util.c:484-499 | a new camera that the database refuses, or whose sensor cannot be read, is cleared and leaves its URL in a slot, unless every slot was taken; only the sensor failure is returned as an error |
| MediaSlots.LoadedMatches | camera/src/camera_main.c:708-780 | loading the records again keeps them together with the slots if and only if no slot is taken |
| MediaSlots.EventKeepsIff | camera/src/camera_state.c:59-303 | each attempt to add, however it ends, each deletion and each clean-up keeps slots and records together if and only if its own condition holds; for a new camera that a sensor or the database takes back again the condition is that every slot was taken, otherwise that a slot is free or the record's URL starts with the new one |
| MediaSlots.StartsInStep | camera/src/camera_main.c:708-780 | the start with the records of the database is in step |
| MediaSlots.RunStaysInStepIff | camera/src/camera_state.c:59-303 | over every run of such events the occupied slots are at all times exactly the URLs of the cameras that were given one, if and only if every event meets its condition |
| CameraTables.MediaMap.AddMediaUrl | camera/src/camera_util.c:1125-1164 | the search loop adds as specified and leaves the id alone on failure |
| CameraTables.MediaMap.DelMediaUrl | camera/src/camera_util.c:1166-1205 | the search loop deletes as specified |
| CameraTables.CameraTable.SwapUrl | camera/src/camera_state.c:215-242 | add first, delete the old URL second, then copy the strings over the record |
| CameraTables.CameraTable.CameraDel | camera/src/camera_state.c:59-91 | the first record with the id is dropped with its URL, or the records are loaded again without any URL |
| CameraTables.CameraTable.CameraInfoInit | camera/src/camera_main.c:708-780 | loaded records have their ids and no URLs |
| CameraTables.CameraTable.RecordInDatabase | camera/src/camera_util.c:484-499 | only a camera reported as added is cleared when the database refuses it |
| CameraTables.CameraTable.CameraAdd | camera/src/camera_state.c:126-303 | adding a camera by how it ends: refused, failed at a sensor, not recorded by the database (which also returns zero), or added |
| CameraTables.CameraTable.CameraCleanAll | camera/src/camera_state.c:94-123 | every record in use is dropped with its URL |

## Left out

- Sockets, SSL, HTTP, XML, DBus, device control calls, processes and files: foreign calls, modelled only by their results.
- The thin request and database wrappers (hcapi.c, hcapi_db.c, zb_db.c, zw_db.c, lprf_db.c, db_main.c), the camera CGI setters and the lookup tables of hc_util.c: one code mapped to another.
- Thread races: each event handler is one atomic step. The camera threads guard the media slots with two different mutexes, so two handlers can interleave in the program.
- The headers capi_struct.h and ctrl_common_lib.h are not part of this model: the order and number of camera types are taken from the conversion functions.
- Truncation of strings copied into the fixed fields of the upgrade control block, and the state value UNKNOW, which no code sets.
- The progress codes that the device refresh stores for each camera in the parent: they are not read by the state machine.
- SerialReceiver.Receiver.OnUartDataRecv: what the program overwrites once a write misses the buffer.
- Payload bytes beyond the end of a short frame: without the checksum flag the validator lets the handler read what an earlier frame left in the buffer. Forwarding of a dispatched message is not modelled either.
- queue_push, and queue_found and queue_delete, whose comparison covers no bytes, so that they never match.
- NotificationQueue.Queue.Popup: what happens after the first use of freed memory, including that the allocator may hand the memory out again; the mutex of the queue.
- Descriptor 0: it occupies a slot but the program neither reads it nor sends to it, and so does the model. The size limit of a descriptor set is not modelled.
- DispatcherStreams.ClientIsHeard: a client that closes its connection; its socket is assumed readable only while bytes are there.
- Allocation failures of the dispatcher, and closing all sockets at exit.
- SQLite itself: a table is a list of rows (a log table a map from key to row), a statement is atomic and succeeds at the first try; the retry of a partly executed batch is not modelled, nor is the largest row id.
- SQL quoting: strings with quotes change the statements they are printed into.
- EventLog: the text columns and their cuts on reading; an entry is a value. The reader by alarm type selects other columns than it formats: which entries it finds is modelled, the text it makes of them is not.
- The device table itself with its blob column; device values stored as floating-point numbers or single characters, which do not round trip in general.
- Numbers.StringToUnsignedNum: beyond nine characters the program's int arithmetic may overflow, which C leaves undefined; the model computes without bound.
- Numbers.Atoi: a long of 32 bits is assumed; numbers outside saturate.
- SocketLoops.Socket.SendMsg: a length field of minus the size of the fixed part or less, or one beyond the data held, makes the program send from beyond the message.
- MediaSlots.Swap: the record's stream URL field holds 127 characters; the results about records bound URLs by that, since a longer one overruns the field in the program.
- The stream server notification after each slot change, the clip lists of the camera records, and the camera records' other fields.
