# TNL: a verified model of the datagram protocol stack

The Torque Network Library runs a small protocol stack over unreliable datagrams. This project
models that stack and the encoders under it, and proves what its documentation promises of it.
Each layer rests only on the contract proved for the layer below:

1. **Notify protocol.** Two endpoints exchange packets that carry 11 bits of a sequence number, 10
   bits of the highest sequence received, and at most 32 acknowledgement flags. The network may
   lose, repeat, delay and reorder packets. `NotifyProtocol` gives one endpoint as functions on
   its fields, `NetConnection` is the class that updates those fields in place, `NotifySystem` is
   the pair of endpoints with the network, `NotifyTheorems` states what holds over every run,
   `NotifyReports` which reports of a run are wrong, and `NotifyAcks` what must happen: which
   packets take effect, when an acknowledgement is sent, and what the sender learns from reports.
2. **Channel.** `Channel` is what the layers above see in one direction: bodies are sent, read in
   send order and at most once, and reported to the sender in send order. `NotifyChannel` proves
   that the notify protocol provides it. The channel's reports are right: the layers above are
   proved for runs in which no report is wrong in the way described below.
3. **Layers on the channel.** Guaranteed-ordered events (`OrderedEvents`, `OrderedEventSystem`,
   and the classes in `EventNoteList` and `EventConnection`) and the others
   (`UnorderedEventSystem` and the class in `UnorderedEventConnection`); ghosting
   (`GhostProtocol`, `GhostSlot`, `GhostSystem`, `GhostTheorems` for what never goes wrong and
   `GhostProgress` and `GhostArrival` for what must happen, the class in `GhostConnection`, and
   `GhostRefinement` between system and class); the connection string table (`StringTable`,
   `StringTableSystem`, `StringTableRebinding`, `StringTableTexts`, and the class in
   `ConnectionStringTable`).
4. **Codecs and indexes.** The bit stream (`BitStream` over `ByteBits` and `BitFields`, and
   `BitStreamItems` through two streams), Huffman tables and strings (`HuffmanTree`,
   `HuffmanStringProcessor`, `SharedPrefixStrings`, with `HuffmanOptimal` for the codes being the
   shortest there are), the connection hash table (`ConnectionTable`), the interning string table
   (`NetStringTable`), the CRC (`Crc`) and the incremental journal file (`Journal`).

Where the source updates state in place, a class has the source's fields and its methods are proved
equal to a function on their values; the theorems are about those functions, so they hold of the
methods. Distributed properties are stated of runs: finite sequences of enabled actions from the
initial state, with packets chosen for delivery from everything ever sent.

Some promises turn out not to hold without a condition. In each case the model keeps the source's
behaviour and proves exactly when the promise is kept; all but the last come with a failing input:

- A ping or ack that overtakes the data packet of the same sequence can make that packet be reported
  received without being processed (`OvertakenBodyMisreported` is a whole run). Over every run a
  packet is misreported if and only if its delivery had been overtaken by the time the other side
  wrote the header that reports it (`MisreportedExactly`); one overtaken later is reported right.
  The acknowledgement bits themselves are wrong for exactly the overtaken packets
  (`RunOvertakes`).
- A string-table entry bound to A, then to B, then to A again before the first A is reported can be
  confirmed too early, and a later reference is misread (`MisledReached` is a whole run from the
  empty table). After any run without such rebindings, a write can lead to a misread reference,
  without another rebinding, if and only if it is one (`MisleadsExactly`): if a packet with the
  earlier binding was read or can still be, and the other side has, or is yet to read, another string
  in the entry. A sender rules that out by looking at the packets it has not seen reported
  (`RebindingIsCarried`).
- `clearMaskBits` moves a ghost out of the pending segment only when its mask equals the bits
  cleared. The segments stay right if and only if the mask is not a non-empty proper subset of those
  bits (`ClearGhostBits`); `ClearingBreaksSegments` reaches a state in which they do not.
- Sequence comparisons do not handle the wrap at 2^32. An acknowledgement of a packet in flight is
  refused if and only if it lies before the wrap and the last sent packet after it (`AckNearWrap`,
  with the endpoint of `AckRefusedAtWrap`), and an acknowledgement of a packet already reported is
  accepted if and only if its reconstruction passes the wrap and the last sent packet does not
  (`StaleAckNearWrap`, with the endpoint of `StaleAckAccepted`); only such an acknowledgement makes
  the notify loop run beyond the records (`RecordedExactly`). Runs are therefore taken to stay below
  the wrap, which the window conditions on `lastSendSeq` say.
- `calculateCRC` gives 0 for a range that starts at the buffer's end, so that a CRC continued over
  the empty rest of a buffer is lost (`ChainedFails`). Continuing from one range to the next gives
  the CRC of both if and only if the second starts before the buffer's end, or the first does not,
  or the CRC is 0 (`ChainedExactly`).
- `readFlag` lets the position at the end pass: the flag read there, one bit behind a full buffer, is
  none of the stream's and no error (`FlagBehindEnd`; `ReadFlag` says when).
- Reference counts of interned strings have 16 bits. Giving a reference back frees the string if and
  only if the number of references is 1 or one more than a multiple of 65536 (`DecRef`), which is too
  soon with 65537 of them (`FreedTooSoon`).
- `writeString` cuts a string to 255 characters, so what the other side of a string table reads is
  the string if and only if it is no longer than that (`TextAgreement`).

Where code and comments disagree the model follows the code. The comments on the sequence check
speak of 9 bits and 31 packets; the constants are 11 bits and 32. The comment on
`GhostRef::updateChain` says it leads to an earlier packet; the code chains each record to the next
one.

`dafny verify dfyconfig.toml` checks everything.

## Model

| member | source | states |
|---|---|---|
| `NotifyTheorems.NotifyTheorem` | tnl/netConnection.cpp:312-488 | over every run of two endpoints, for every sent data packet: mHighestAckedSeq and mLastSendSeq count the reports given and the packets sent, reports come in send order and once each, the queue is exactly the packets not yet reported, the remote processes data in increasing send order with the bodies as sent, and a packet is reported received if it was processed, and only if it was processed or its delivery was overtaken |
| `NotifyTheorems.WindowTheorem` | tnl/netConnection.cpp:270-376 | over every run: mLastRecvAckAck <= remote mHighestAckedSeq <= mLastSeqRecvd <= remote mLastSendSeq <= remote mHighestAckedSeq + 30, at most 4 acknowledgement bytes, and the abbreviated numbers of a fresh packet are accepted exactly when current and then reconstruct in full |
| `NotifyTheorems.StepOvertakes` | tnl/netConnection.cpp:430-487 | in each step the set of packets whose acknowledgement bit was set without their being processed grows by the overtaken delivery, if the step is one, and by nothing else |
| `NotifyTheorems.RunOvertakes` | tnl/netConnection.cpp:430-487 | over a whole run, the packets whose acknowledgement bit was set without their being processed are exactly those whose delivery was overtaken by a ping or ack of the same sequence |
| `NotifyTheorems.OvertakenBodyMisreported` | tnl/netConnection.cpp:430-487 | a concrete run in which a ping overtakes the data packet of its sequence: the sender is told it was received, the receiver processed nothing |
| `NotifyReports.MisreportedExactly` | tnl/netConnection.cpp:312-488 | over every run from the start, each report is given on reading a header that the other side wrote earlier in the run, a processed packet is never reported lost, and a packet is reported received without being processed if and only if its delivery had been overtaken by the time that header was written |
| `NotifyReports.ReportMeans` | tnl/netConnection.cpp:437-455 | a flag tells whether the packet was accepted when the header was written; whether it was processed is settled by then |
| `NotifyReports.WrittenTells` | tnl/netConnection.cpp:279-305 | a header just written, of any kind, carries the highest sequence received and for each flag whether that packet was accepted so far |
| `NotifyReports.ReportGiven` | tnl/netConnection.cpp:437-455 | a report is the flag that the header just read transmitted at the packet's distance from its highest ack |
| `NotifyReports.LastStep` | tnl/netConnection.cpp:208-488 | the last event of a run acts on what the events before it lead to |
| `NotifyAcks.SendTakesEffect` | tnl/netConnection.cpp:696-703 | in every state satisfying the invariant a body can be sent if and only if fewer than 30 bodies are unreported and the numbers stay below the wrap; it is then on the network under the next number with the highest sequence received |
| `NotifyAcks.DeliveryTakesEffect` | tnl/netConnection.cpp:404-488 | a delivered packet changes nothing if one of its numbers is behind; otherwise both numbers become its receiver's, that many more reports are given, a data packet counts as accepted, and its body is processed if its number is new |
| `NotifyAcks.AnswersGiven` | tnl/netConnection.cpp:479-486 | an accepted ping is answered with an ack packet of its sequence that has the true flag of every packet the other side may not know of; after any accepted packet such an ack was sent or mLastSeqRecvd - mLastRecvAckAck <= 16; in no other case is anything sent |
| `NotifyAcks.AcknowledgedIsKnown` | tnl/netConnection.cpp:462-468 | over every run from the start, once a data packet is reported received, its sender's mLastRecvAckAck is at least the highest sequence that the packet acknowledged |
| `NotifyAcks.ActLearns` | tnl/netConnection.cpp:265-310 | in each step what is recorded for an unreported number stays at least what any packet up to that number acknowledged |
| `NotifySystem.HeaderReadExactly` | tnl/netConnection.cpp:353-377 | in every state satisfying the invariant a fresh header is accepted if and only if neither number is behind the receiver, and then both are recovered in full and lie in the window |
| `NotifySystem.AcceptKeepsInv` | tnl/netConnection.cpp:404-469 | accepting any deliverable packet keeps the two-party invariant in both directions |
| `NotifySystem.ActKeepsInv` | tnl/netConnection.cpp:208-488 | every action of either endpoint (send, ping, ack, deliver a lost, repeated or reordered packet) keeps the two-party invariant |
| `NotifySystem.DeliverOutcome` | tnl/netConnection.cpp:312-488 | a delivery changes nothing, or gives exactly the reports, the advance and the body of an accepted packet |
| `NotifyProtocol.ReconstructExact` | tnl/netConnection.cpp:353-370 | a number at most window - 1 ahead of any 32-bit base, next to the wrap included, is recovered exactly from its low bits |
| `NotifyProtocol.ReconstructStale` | tnl/netConnection.cpp:353-374 | a number behind the base is taken for one in the next window, never for one behind |
| `NotifyProtocol.SendKeepsValid` | tnl/netConnection.cpp:265-305 | sending a data packet with the window open keeps the endpoint valid and the flags within 4 bytes |
| `NotifyProtocol.ReceiveKeepsValid` | tnl/netConnection.cpp:404-480 | an accepted header, across the 2^32 wrap too, leaves the endpoint valid if there is a record for each packet it reports: a queue record for each unacknowledged packet, the window at most 30 |
| `NotifyProtocol.ReceiveFields` | tnl/netConnection.cpp:404-478 | the whole new state of an accepted header in terms of its full numbers, across the wrap too, and the reports it gives; below the wrap the 32-bit differences are plain ones |
| `NotifyProtocol.NoticeBit` | tnl/netConnection.cpp:440-449 | the report for a packet is the transmitted flag at its distance from the highest ack; no bit that was not transmitted is consulted |
| `NotifyProtocol.AckAckSource` | tnl/netConnection.cpp:463-464 | mLastRecvAckAck takes only values recorded when acknowledged packets were sent, whatever bounds those satisfy |
| `NotifyProtocol.AckAckNewest` | tnl/netConnection.cpp:462-463 | mLastRecvAckAck becomes what was recorded for the newest packet reported received |
| `NotifyProtocol.AckAckSame` | tnl/netConnection.cpp:462-463 | and stays as it is if none was |
| `NotifyProtocol.ClampRange` | tnl/netConnection.cpp:465-468 | the correction of mLastRecvAckAck by the window stays within what the other side has processed |
| `NotifyProtocol.AckNearWrap` | tnl/netConnection.cpp:353-377 | of any header in sequence, an acknowledgement of a packet in flight is refused if and only if its number lies before the 2^32 wrap and the last sent number after it |
| `NotifyProtocol.StaleAckNearWrap` | tnl/netConnection.cpp:353-377 | an acknowledgement of a packet already reported is accepted if and only if its reconstruction passes the 2^32 wrap and the last sent number does not |
| `NotifyProtocol.StaleAckAccepted` | tnl/netConnection.cpp:367-377 | an endpoint with nothing outstanding, ten numbers before the wrap, accepts an old acknowledgement, for packets it has no record of |
| `NotifyProtocol.RecordedExactly` | tnl/netConnection.cpp:437-441 | an accepted header makes the notify loop run beyond the records if and only if its acknowledgement is taken for a number beyond the wrap and the last sent number is before it |
| `NotifyProtocol.AckRefusedAtWrap` | tnl/netConnection.cpp:367-377 | an endpoint with two packets around the wrap in flight refuses the acknowledgement of the first |
| `NetConnectionObject.NetConnection.constructor` | tnl/netConnection.cpp:69-112 | the initial endpoint for an initial send sequence |
| `NetConnectionObject.NetConnection.SetInitialRecvSequence` | tnl/netConnection.cpp:114-117 | sets mLastSeqRecvd and mLastRecvAckAck, and nothing else |
| `NetConnectionObject.NetConnection.WritePacketHeader` | tnl/netConnection.cpp:265-310 | data packets take the next 32-bit number, across the wrap too, and record mLastSeqRecvd at its slot; the header has the low bits of both numbers and just the acknowledgement bytes needed |
| `NetConnectionObject.NetConnection.WriteRawPacket` | tnl/netConnection.cpp:208-235 | the in-place send equals the protocol function, the record appended to the notify queue |
| `NetConnectionObject.NetConnection.HandleNotify` | tnl/netConnection.cpp:581-642 | takes the oldest record off the queue and reports it |
| `NetConnectionObject.NetConnection.NotifyUpTo` | tnl/netConnection.cpp:439-464 | the notify loop reports each packet up to the highest ack with its flag and updates mLastRecvAckAck as the protocol function does |
| `NetConnectionObject.NetConnection.ApplyHeader` | tnl/netConnection.cpp:404-478 | if the records suffice for the packets reported, shifting the mask, the reports and the new numbers in place equal the protocol function |
| `NetConnectionObject.NetConnection.ReadPacketHeader` | tnl/netConnection.cpp:312-488 | a refused header changes nothing; an accepted one, for whose reports the source asserts that there are records, gives the new state, the reports, and whether the packet is to be processed; one ack with the current numbers is sent back if and only if it is a ping or more than 16 numbers are unacknowledged |
| `Channel.StepsKeepValid` | tnl/netConnection.cpp:312-488 | the service given to the layers above keeps its well-formedness in each of its steps |
| `Channel.FateIsFinal` | tnl/netConnection.cpp:312-488 | whether a body before the cursor was read never changes, so a report once given stays true |
| `NotifyChannel.ViewValid` | tnl/netConnection.cpp:312-488 | two endpoints provide a well-formed channel in each direction |
| `NotifyChannel.ActRefinesOutgoing` | tnl/netConnection.cpp:208-488 | each action of an endpoint is, for what it sends, a channel send, nothing, or a number of reports in order |
| `NotifyChannel.ActRefinesIncoming` | tnl/netConnection.cpp:312-488 | each action is, for what it receives, the reading of one body or the passing over of some |
| `NotifyChannel.ReportsTellArrival` | tnl/netConnection.cpp:447-453 | a reported flag is the channel's: the body was read, both ways when no delivery was overtaken |
| `OrderedEventSystem.ExactlyOnceInOrder` | tnl/eventConnection.cpp:143-489 | over every run the events processed are a prefix of those posted, the sender never counts as acknowledged what is not processed, and every posted event is in exactly one place, once: queued, in one packet not yet reported, awaiting its predecessors' reports, or acknowledged; the three lists are sorted |
| `OrderedEventSystem.AllProcessedWhenQuiet` | tnl/eventConnection.cpp:143-489 | with nothing queued and every packet reported, all posted events have been processed |
| `OrderedEventSystem.ActKeepsInv` | tnl/eventConnection.cpp:143-489 | posting, sending, reading, losing and reporting each keep the event invariant |
| `OrderedEventSystem.AckedBehindReceiver` | tnl/eventConnection.cpp:222-230 | mLastAckedEventSeq + 1 <= remote mNextRecvEventSeq, which the 126-event window rests on |
| `OrderedEventSystem.PacketReadExactly` | tnl/eventConnection.cpp:371-455 | any packet that can be read decodes to exactly the events and full numbers written, none of which the receiver has yet |
| `OrderedEventSystem.ReceiverDrain` | tnl/eventConnection.cpp:444-455 | taking the due events off the merged list leaves the processed events a prefix of those posted and loses none |
| `OrderedEventSystem.SettleAcked` | tnl/eventConnection.cpp:193-230 | after a receipt, exactly the events up to the new mLastAckedEventSeq are acknowledged and the others wait, sorted |
| `OrderedEventSystem.NothingFromTheFuture` | tnl/eventConnection.cpp:346-455 | reading a packet never takes the receiver beyond the events posted when that packet was written |
| `OrderedEventSystem.NothingHeldBack` | tnl/eventConnection.cpp:193-231 | over every run neither end holds back the event that is due: the notify list lacks the one after mLastAckedEventSeq and the waiting list the next to receive; with nothing queued and every packet reported, all events are acknowledged |
| `OrderedEvents.MergeMembers` | tnl/eventConnection.cpp:152-190 | the cursor merge holds exactly the notes of both lists |
| `OrderedEvents.MergeIncreasing` | tnl/eventConnection.cpp:152-190 | merging sorted lists without common numbers gives a strictly sorted list |
| `OrderedEvents.ReadyPrefix` | tnl/eventConnection.cpp:222-230 | what is taken off the head is numbered consecutively, and after it comes a gap |
| `OrderedEvents.ExtendExact` | tnl/eventConnection.cpp:428-430 | a number less than 128 ahead of the receiver's is recovered from its 7 low bits |
| `OrderedEvents.DecodeEncode` | tnl/eventConnection.cpp:286-338 | notes within 128 of the receiver's number decode to themselves, whether marked as next or numbered, although the reader keeps only the low bits of the number before |
| `OrderedEvents.EncodeExact` | tnl/eventConnection.cpp:303-305 | a number takes one flag if and only if it follows that of the event before it in the packet, and else its low 7 bits |
| `EventConnectionObject.EventConnection.constructor` | tnl/eventConnection.cpp:37-54 | empty queues, numbers at their start |
| `EventConnectionObject.EventConnection.PostNetEvent` | tnl/eventConnection.cpp:470-478 | the event gets the next number at the end of the send queue, head and tail pointers kept |
| `EventConnectionObject.EventConnection.WritePacketOrdered` | tnl/eventConnection.cpp:285-343 | takes from the queue the longest run of events that fit and lie in the 126-event window, with their encoding |
| `EventConnectionObject.EventConnection.PacketDroppedOrdered` | tnl/eventConnection.cpp:143-191 | relinking a dropped packet's notes in place equals the sorted merge into the send queue, tail pointer kept |
| `EventConnectionObject.EventConnection.PacketReceivedOrdered` | tnl/eventConnection.cpp:193-231 | relinking into the notify list and the acknowledgement loop equal the specification |
| `EventConnectionObject.EventConnection.ReadPacketOrdered` | tnl/eventConnection.cpp:368-455 | inserting a packet's events into the waiting list and processing those due equal the specification |
| `EventNoteList.MergeLists` | tnl/eventConnection.cpp:152-171 | the pointer-to-pointer cursor merge over linked notes gives a well-formed list of exactly the merged notes, and its last note |
| `EventNoteList.MergeAndDrain` | tnl/eventConnection.cpp:200-230 | merge, then unlinking the notes now due |
| `EventNoteList.AppendNew` | tnl/eventConnection.cpp:466-478 | links a new note at the end |
| `UnorderedEventSystem.AtMostOnce` | tnl/eventConnection.cpp:172-210 | over every run no unordered event is processed twice; each is in exactly one place, queued, in one packet not yet reported, or reported once; it is reported delivered only if it was processed and lost only if it was not, and a guaranteed one never lost |
| `UnorderedEventSystem.AllSettledWhenQuiet` | tnl/eventConnection.cpp:172-210 | with nothing queued and every packet reported, each guaranteed event has been processed, and each other one was processed or reported lost, never both |
| `UnorderedEventSystem.ActKeepsInv` | tnl/eventConnection.cpp:143-487 | posting, sending, reading, losing and reporting each keep the places of the unordered events |
| `UnorderedEventSystem.PutBackHas` | tnl/eventConnection.cpp:172-181 | a lost packet gives back to the queue exactly its guaranteed events, each once |
| `UnorderedEventSystem.PutBackAtHead` | tnl/eventConnection.cpp:172-181 | they stand before all that waits, the later ones first |
| `UnorderedEventSystem.LossesHas` | tnl/eventConnection.cpp:182-189 | a lost packet reports lost exactly its other events |
| `UnorderedEventConnectionObject.EventConnection.constructor` | tnl/eventConnection.cpp:37-54 | an empty queue |
| `UnorderedEventConnectionObject.EventConnection.PostNetEvent` | tnl/eventConnection.cpp:479-487 | the event goes to the end of the queue, head and tail pointers kept |
| `UnorderedEventConnectionObject.EventConnection.WritePacketUnordered` | tnl/eventConnection.cpp:243-283 | takes the first events off the queue, as many as fit, as a list of their own |
| `UnorderedEventConnectionObject.EventConnection.PacketDroppedUnordered` | tnl/eventConnection.cpp:172-189 | relinking a dropped packet's guaranteed events to the head of the queue in place, tail pointer kept, and reporting the others lost, equal the specification |
| `UnorderedEventConnectionObject.EventConnection.PacketReceivedUnordered` | tnl/eventConnection.cpp:203-210 | reports each event of the list delivered, in order |
| `UnorderedEventConnectionObject.EventConnection.ReadPacketUnordered` | tnl/eventConnection.cpp:420-427 | processes the events in the order read |
| `EventNoteList.MoveToFront` | tnl/eventConnection.cpp:172-181 | moves the first note of one list in front of another, both lists well-formed |
| `GhostTheorems.SlotAgreement` | tnl/ghostConnection.cpp:323-336 | over every run, with losses, slot reuse and sessions reset and restarted: when the client reads an entry its slot is empty exactly if a class id was written, and a kill or plain update finds a ghost |
| `GhostTheorems.NeverDesynchronised` | tnl/ghostConnection.cpp:439-497 | over every run the client never meets an entry its slot does not fit |
| `GhostTheorems.MostRecentState` | tnl/ghostConnection.cpp:100-157 | over every run, for every ghost and state bit: the bit is dirty, or in updateMask, or carried with the current version by the newest record in flight, or the client holds the current version; and no object has two ghosts |
| `GhostTheorems.Settled` | tnl/ghostConnection.cpp:100-191 | with nothing marked and nothing in flight, the client's ghost is the object exactly as it is |
| `GhostTheorems.ChainsLand` | tnl/ghostConnection.cpp:366-379 | over every run lastUpdateChain and every updateChain point at records that still exist |
| `GhostProgress.SessionComesUp` | tnl/ghostConnection.cpp:672-755 | over every run objects can come into scope if and only if the last call posted is an rpcStartGhosting; each start has the next number; ghosting is on only then, and it is on once the client has read all calls and the server taken all answers |
| `GhostProgress.OutOfScopeLeaves` | tnl/ghostConnection.cpp:263-287 | over every run, in an active packet a pending ghost out of scope loses its object; it or another to be killed is freed if never sent, and if sent is a kill on the wire; one in scope and not to be killed keeps its object and if sent is an update; afterwards no pending ghost with an object is out of scope |
| `GhostProgress.DestroyedLeaves` | tnl/netObject.cpp:48-62 | over every run, destroying an object cuts its ghost off and marks it to be killed, and changes no other ghost |
| `GhostProgress.ResetFrees` | tnl/ghostConnection.cpp:757-797 | over every run, ending the session frees every slot and forgets what is in flight, so that the next session can be started |
| `GhostProgress.ReportActs` | tnl/ghostConnection.cpp:100-191 | over every run, the report of a packet with a ghost: received, a creation is done and a removal frees the slot; lost, either is to be done again, and exactly the bits that no later packet carries are marked |
| `GhostProgress.NothingStuck` | tnl/ghostConnection.cpp:269-293 | over every run, a slot of an active session with nothing in flight waits for no report: it can be sent if anything is marked, and otherwise the client has its object |
| `GhostArrival.ObjectArrives` | tnl/ghostConnection.cpp:238-497 | an explicit run from the start: for any object state, once the session is up and the object in scope, one packet gives the client a ghost with exactly that state |
| `GhostArrival.ChangeArrives` | tnl/ghostConnection.cpp:238-497 | its continuation: for any change of any bits, with a new scope query, the next packet carries just those bits, without the class id, and gives the client the new state |
| `GhostArrival.ObjectLeaves` | tnl/ghostConnection.cpp:238-497 | its continuation without the object in the scope query: the next packet takes the ghost from the client, and its report frees the slot |
| `GhostSystem.ActKeepsInv` | tnl/ghostConnection.cpp:100-797 | each of the thirteen actions (object changes, scope, packets, reports, session calls) keeps the invariant of all slots |
| `GhostSystem.ReadyIsCurrent` | tnl/ghostConnection.cpp:713-726 | only the answer to the newest rpcStartGhosting turns ghosting on, and by then the client has read the last rpcEndGhosting |
| `GhostSystem.WireQuiet` | tnl/ghostConnection.cpp:784-797 | after the last end of session is read no entry of an earlier session can still be read and the client has no ghosts |
| `GhostSystem.EndedQuiet` | tnl/ghostConnection.cpp:728-755 | a packet that ends a session is followed by no entries |
| `GhostSystem.StartsOf` | tnl/ghostConnection.cpp:698-711 | each sequence the client posts back is that of a start it has read |
| `GhostSystem.DestroyKept` | tnl/netObject.cpp:48-62 | destroying an object detaches its ghosts and keeps their slots in agreement |
| `GhostSystem.SessionStarts` | tnl/ghostConnection.cpp:713-726 | a quiet slot starts the next session in agreement |
| `GhostSystem.SlotObject` | tnl/ghostConnection.cpp:622-669 | a slot in use keeps its object or is given to one that just came into scope, and never to a destroyed one |
| `GhostSlot.ReadKeepsSlot` | tnl/ghostConnection.cpp:439-497 | reading an entry keeps a slot's agreement of flags, records, wire and client |
| `GhostSlot.SendUpdateKeepsSlot` | tnl/ghostConnection.cpp:366-404 | so does sending an update, initial or plain, with any mask packUpdate leaves |
| `GhostSlot.SendKillKeepsSlot` | tnl/ghostConnection.cpp:381-389 | so does sending a kill |
| `GhostSlot.PrepareKeepsSlot` | tnl/ghostConnection.cpp:263-281 | so does detaching or freeing before a packet |
| `GhostSlot.DetachKeepsSlot` | tnl/ghostConnection.cpp:524-558 | so does detaching the object |
| `GhostSlot.NotifyReceivedKeepsSlot` | tnl/ghostConnection.cpp:159-191 | so does the receipt of the oldest packet |
| `GhostSlot.NotifyDroppedKeepsSlot` | tnl/ghostConnection.cpp:100-157 | so does its loss |
| `GhostSlot.WalkRemovesLater` | tnl/ghostConnection.cpp:112-116 | walking updateChain removes exactly the bits that some later packet of the slot carries |
| `GhostSlot.DroppedMask` | tnl/ghostConnection.cpp:112-151 | a lost creation or kill is the slot's only record, so all its bits go back |
| `GhostSlot.ReadKeepsCurrent` | tnl/ghostConnection.cpp:439-497 | reading keeps every bit current in the sense of MostRecentState |
| `GhostSlot.SendUpdateKeepsCurrent` | tnl/ghostConnection.cpp:391-404 | so does sending an update |
| `GhostSlot.NotifyKeepsCurrent` | tnl/ghostConnection.cpp:100-191 | so does a report of the oldest packet, received or lost |
| `GhostSlot.MarkedKeepsCurrent` | tnl/netObject.cpp:128-140 | so does any change that moves dirty bits into masks without losing one |
| `GhostSlot.ChangeKeepsCurrent` | tnl/netObject.cpp:66-82 | so does a change of the object that sets its dirty bits |
| `GhostConnectionObject.GhostConnection.GhostPushNonZero` | tnl/tnlGhostConnection.h:269-282 | moves just this ghost into the pending segment; the array stays a permutation with arrayIndex its inverse |
| `GhostConnectionObject.GhostConnection.GhostPushToZero` | tnl/tnlGhostConnection.h:284-297 | moves just this ghost out of the pending segment and leaves the places before it alone |
| `GhostConnectionObject.GhostConnection.GhostPushZeroToFree` | tnl/tnlGhostConnection.h:299-312 | moves just this ghost to the free segment and leaves the pending segment alone |
| `GhostConnectionObject.GhostConnection.GhostPushFreeToZero` | tnl/tnlGhostConnection.h:314-327 | takes just this ghost out of the free segment |
| `GhostConnectionObject.GhostConnection.DetachObject` | tnl/ghostConnection.cpp:524-558 | marks the kill, moves the ghost up if nothing was pending, unlinks the object; segments and lookup stay right |
| `GhostConnectionObject.GhostConnection.FreeGhostInfo` | tnl/ghostConnection.cpp:560-571 | clears the mask and frees the structure, the places below it unmoved |
| `GhostConnectionObject.GhostConnection.ObjectInScope` | tnl/ghostConnection.cpp:622-669 | an object already ghosted is only marked in scope; otherwise it gets a free structure with the full mask, unless none is free |
| `GhostConnectionObject.GhostConnection.NewGhost` | tnl/ghostConnection.cpp:645-667 | takes the first free structure into the pending segment with every bit marked, and changes no other |
| `GhostConnectionObject.GhostConnection.MarkGhost` | tnl/netObject.cpp:128-140 | ors a mask into a ghost, moving it to the pending segment if it had none |
| `GhostConnectionObject.GhostConnection.CollapseDirtyList` | tnl/netObject.cpp:112-143 | ors each object's changed bits into the mask of its ghost and changes no other ghost |
| `GhostConnectionObject.GhostConnection.ClearGhostBits` | tnl/netObject.cpp:101-110 | takes the bits out of the mask; pending segment and masks still agree afterwards if and only if the mask was not a non-empty proper subset of the bits |
| `GhostConnectionObject.GhostConnection.RemoveObject` | tnl/netObject.cpp:48-52 | detaches the ghost of a destroyed object, if it has one, and changes no other |
| `GhostConnectionObject.GhostConnection.ClearScope` | tnl/ghostConnection.cpp:218-225 | takes just the pending ghosts out of scope, but for those always in it |
| `GhostConnectionObject.ClearingBreaksSegments` | tnl/netObject.cpp:101-110 | from a new connection: an object is ghosted, sent and marked with bit 0; clearing bits 0 and 1 then leaves a ghost with an empty mask in the pending segment |
| `GhostConnectionObject.GhostConnection.PacketReceived` | tnl/ghostConnection.cpp:159-191 | the receipt loop does the specified step for every record of the packet and nothing to other slots |
| `GhostConnectionObject.GhostConnection.PacketDropped` | tnl/ghostConnection.cpp:100-157 | the drop loop does the specified step for every record of the packet and nothing to other slots |
| `GhostConnectionObject.GhostConnection.FlagsToResend` | tnl/ghostConnection.cpp:112-116 | the chain walk computes the bits no later packet carries, stopping when none is left |
| `GhostConnectionObject.GhostConnection.DetachUnscoped` | tnl/ghostConnection.cpp:263-267 | the descending loop detaches exactly the pending ghosts out of scope, once each |
| `GhostConnectionObject.GhostConnection.FreeUnsent` | tnl/ghostConnection.cpp:269-293 | the descending loop frees exactly the pending kills never sent, despite the swaps, and maxIndex bounds the rest |
| `GhostConnectionObject.GhostConnection.SortPending` | tnl/ghostConnection.cpp:282-298 | orders the pending segment: in flight counts as 0, a kill as 10000, an update as its object says; arrayIndex its inverse again |
| `GhostConnectionObject.GhostConnection.WriteGhosts` | tnl/ghostConnection.cpp:309-410 | the write loop sends eligible ghosts from the highest place down until the room is used, each once, with the records and entries specified |
| `GhostConnectionObject.GhostConnection.WritePacket` | tnl/ghostConnection.cpp:251-411 | in terms of the flags before: a pending ghost out of scope loses its object, it or another to be killed is freed if never sent and is a kill if sent; one in scope keeps its object and if sent is an update with the class id exactly the first time and the bits asked for; none eligible is left out while there is room, nor a more urgent one for a less urgent; every index fits sendSize bits |
| `GhostConnectionObject.GhostConnection.WriteActive` | tnl/ghostConnection.cpp:259-411 | the same step as the ghosting system's functions have it, which the refinement rests on |
| `GhostConnectionObject.WrittenFlags` | tnl/ghostConnection.cpp:263-404 | what those functions make of each ghost and of its entry, in terms of its flags |
| `GhostConnectionObject.GhostConnection.ClearGhostInfo` | tnl/ghostConnection.cpp:757-782 | frees every slot and empties every in-flight record list |
| `GhostConnectionObject.GhostConnection.constructor` | tnl/ghostConnection.cpp:77-98 | all structures free, array and inverse identical |
| `GhostConnectionObject.SendSize` | tnl/ghostConnection.cpp:300-307 | the fewest bits that hold maxIndex, but at least 3 |
| `GhostConnectionObject.VisitsAll` | tnl/ghostConnection.cpp:311-315 | the descending visit meets exactly the eligible ghosts, each once |
| `GhostConnectionObject.VisitsChosen` | tnl/ghostConnection.cpp:311-315 | stopping when room runs out leaves the eligible ghosts of higher places sent and lower ones not |
| `GhostRefinement.ReadyToWrite` | tnl/ghostConnection.cpp:238-411 | writePacket's demands hold in every reachable state of an active session |
| `GhostRefinement.WriteRefines` | tnl/ghostConnection.cpp:238-411 | what the object does to one slot is the system's step for it |
| `GhostRefinement.WritePacketRefines` | tnl/ghostConnection.cpp:238-411 | the object's choice of ghosts is one the system allows, leads to the same next state, and the entries it writes are those the system puts on the wire |
| `GhostRefinement.NotifyRefines` | tnl/ghostConnection.cpp:100-191 | packetReceived and packetDropped can run for the oldest packet in every reachable state and do the system's step |
| `GhostRefinement.ScopeRefines` | tnl/ghostConnection.cpp:622-669 | the ghost that objectInScope picks is one the system allows, and its records become the next state's |
| `GhostRefinement.ClearScopeRefines` | tnl/ghostConnection.cpp:218-225 | so for the scope being cleared |
| `GhostRefinement.CollapseRefines` | tnl/netObject.cpp:112-143 | collapsing the dirty list does to the records what the system's step does |
| `GhostRefinement.DestroyRefines` | tnl/netObject.cpp:48-52 | detaching a destroyed object's ghost is the system's step |
| `GhostRefinement.ResetRefines` | tnl/ghostConnection.cpp:757-797 | freeing all structures and emptying all packets' records is the system's reset |
| `GhostRefinement.RestRefines` | tnl/ghostConnection.cpp:698-755 | every other action leaves the server's records as they are |
| `StringTableSystem.Agreement` | tnl/connectionStringTable.cpp:54-139 | over every run without rebinding, each reference of any packet that can be read resolves to the string the sender meant |
| `StringTableSystem.WriteExactly` | tnl/connectionStringTable.cpp:70-113 | a write keeps the agreement invariant if and only if it is not a rebinding: binding an entry anew to a string that an unreported packet which was or can be read bound it to before, while the other side has, or is yet to read, another string there |
| `StringTableRebinding.MisleadsExactly` | tnl/connectionStringTable.cpp:70-139 | after any run without rebindings, a write can be followed, without another rebinding, by a run after which a packet that can be read is misread, if and only if that write is a rebinding |
| `StringTableSystem.RebindingIsCarried` | tnl/connectionStringTable.cpp:70-113 | a sender can rule a rebinding out: there is none unless an unreported packet carries the string for the entry |
| `StringTableSystem.InvAgrees` | tnl/connectionStringTable.cpp:115-126 | in every state satisfying the invariant each packet that can be read resolves to the strings meant |
| `StringTableSystem.RunKeepsInv` | tnl/connectionStringTable.cpp:54-150 | every state reached without rebindings satisfies the invariant |
| `StringTableSystem.ReadBrings` | tnl/connectionStringTable.cpp:115-126 | reading a packet leaves an entry with the last string the packet brought it, or with what it had |
| `StringTableSystem.SettledRead` | tnl/connectionStringTable.cpp:115-139 | what the report of a packet may confirm stays true when any packet is read |
| `StringTableSystem.ActKeepsInv` | tnl/connectionStringTable.cpp:54-150 | writes without rebinding, sends, reads, losses and reports keep the agreement invariant |
| `StringTableSystem.ResolvedExactly` | tnl/connectionStringTable.cpp:115-126 | a packet whose plain references are known to the reader is resolved as meant |
| `StringTable.ConfirmedWhich` | tnl/connectionStringTable.cpp:128-139 | a receipt confirms exactly the entries that still have a string the packet carried for them |
| `StringTableRebinding.RebindingMisleads` | tnl/connectionStringTable.cpp:128-139 | from any state, a rebinding that is written and sent can be followed by a run, without another rebinding, in which a reference meant as one string is read as another |
| `StringTableRebinding.RebindingReached` | tnl/connectionStringTable.cpp:70-113 | a rebinding is reached from the empty table, with the true LRU order: two full packets are under way and the next string is one the first of them bound |
| `StringTableRebinding.MisledReached` | tnl/connectionStringTable.cpp:70-139 | a whole run from the empty table in which a reference is misread |
| `StringTableRebinding.Rotation` | tnl/connectionStringTable.cpp:70-94 | new strings take the entries in the order of the LRU list, each once |
| `StringTableTexts.TextAgreement` | tnl/bitStream.cpp:486-503 | over every run without rebinding the text read for a reference is the one written cut to 255 characters, which is the text itself if and only if it is no longer |
| `StringTableTexts.TextsFollow` | tnl/connectionStringTable.cpp:115-126 | the texts read are those of the strings that the references resolve to, each cut |
| `StringTable.WriteKeepsValid` | tnl/connectionStringTable.cpp:54-94 | a write keeps the list a permutation and bound strings distinct, and leaves the string bound to the entry sent |
| `StringTable.WriteKeepsRecency` | tnl/tnlConnectionStringTable.h:86-94 | the list stays in order of last use |
| `StringTable.WrittenExactly` | tnl/connectionStringTable.cpp:54-113 | a known string is written as its entry's index, with its text if and only if the entry is not confirmed; an unknown one takes over the least recently used entry, unconfirmed, and is written with its text; the entry goes last and the others keep their order |
| `StringTableSystem.ConfirmedSaves` | tnl/connectionStringTable.cpp:128-139 | once a packet that brought a string is reported received and the string has kept its entry, it is written as the index alone |
| `StringTable.MovedBackPermutes` | tnl/tnlConnectionStringTable.h:86-94 | pushing back keeps the list a permutation of all entries |
| `ConnectionStringTableObject.PushBack` | tnl/tnlConnectionStringTable.h:86-94 | the six pointer assignments on the doubly linked list move the entry to the back, all links consistent |
| `ConnectionStringTableObject.Find` | tnl/connectionStringTable.cpp:56-69 | the chain walk finds the entry with the string exactly if one has it |
| `ConnectionStringTableObject.UnhashEntry` | tnl/connectionStringTable.cpp:79-88 | takes the entry out of the chain of its old string, all chains right |
| `ConnectionStringTableObject.HashEntry` | tnl/connectionStringTable.cpp:90-93 | puts it in front of the chain of its new string, all chains right |
| `ConnectionStringTableObject.ConnectionStringTable.constructor` | tnl/connectionStringTable.cpp:37-52 | linked list of all entries in index order, empty chains |
| `ConnectionStringTableObject.ConnectionStringTable.WriteStringTableEntry` | tnl/connectionStringTable.cpp:54-113 | the in-place lookup, LRU move and rebinding equal the specification, and so does the reference written |
| `ConnectionStringTableObject.ConnectionStringTable.ReadStringTableEntry` | tnl/connectionStringTable.cpp:115-126 | stores the string if one came, and returns what the entry has |
| `ConnectionStringTableObject.ConnectionStringTable.PacketReceived` | tnl/connectionStringTable.cpp:128-139 | sets receiveConfirmed for just the entries whose string is still the packet's |
| `HuffmanStringProcessorObject.RoundTrip` | tnl/huffmanStringProcessor.cpp:195-263 | for every string of at most 255 characters, compressed or raw, reading what was written gives it back with the rest of the stream, in at most 9 + 8 * length bits |
| `HuffmanStringProcessorObject.ReadCodesAll` | tnl/huffmanStringProcessor.cpp:200-218 | the coded characters are read back in order |
| `HuffmanStringProcessorObject.ReadRawAll` | tnl/huffmanStringProcessor.cpp:219-225 | the raw characters are read back in order, 8 bits each |
| `HuffmanStringProcessorObject.EncodedLength` | tnl/huffmanStringProcessor.cpp:243-263 | a string takes 9 bits and the smaller of what its codes and what 8 bits a character take; the flag tells which |
| `HuffmanTree.PrefixFree` | tnl/huffmanStringProcessor.cpp:158-180 | no symbol's code is a prefix of another's |
| `HuffmanTree.DescendCode` | tnl/huffmanStringProcessor.cpp:203-215 | walking down along a code leads to its symbol and uses just the code |
| `HuffmanTree.CodeLength` | tnl/huffmanStringProcessor.cpp:158-180 | a code is no longer than the tree is high |
| `HuffmanTree.JoinHeavy` | tnl/huffmanStringProcessor.cpp:110-142 | joining two trees each outweighing the other's halves keeps weight >= Fib(height + 2) in every subtree |
| `HuffmanTree.MergeKeepsForest` | tnl/huffmanStringProcessor.cpp:110-142 | merging the two lightest roots keeps the forest's weight bound and disjointness |
| `HuffmanTree.MergeKeepsCover` | tnl/huffmanStringProcessor.cpp:110-142 | and its set of symbols |
| `HuffmanTree.CodesFit` | tnl/huffmanStringProcessor.cpp:45-50 | a total weight below Fib(35) gives every symbol a code of at most 32 bits |
| `HuffmanTree.Fib35` | tnl/huffmanStringProcessor.cpp:45-50 | the bound as a number |
| `HuffmanStringProcessorObject.CharFreqsTotal` | tnl/huffmanStringProcessor.cpp:265-275 | the total of the shipped table plus one per symbol is below the bound |
| `HuffmanStringProcessorObject.TwoLightest` | tnl/huffmanStringProcessor.cpp:111-126 | the scan finds the lightest and the second lightest root |
| `HuffmanStringProcessorObject.MergeLightest` | tnl/huffmanStringProcessor.cpp:110-143 | one round in place: new node, merged wrap, last wrap moved into the hole |
| `HuffmanStringProcessorObject.BuildNodes` | tnl/huffmanStringProcessor.cpp:87-150 | the node table stands for the one tree that the frequencies determine, got by merging the two roots the scan picks until one is left; with HuffTreeWhole that tree has each of the 256 symbols as one leaf and is at most 32 high |
| `HuffmanStringProcessorObject.ScanFinds` | tnl/huffmanStringProcessor.cpp:111-126 | what the scan of the weights picks is a lightest and then a lightest of the others, for weights below its start values |
| `HuffmanStringProcessorObject.GrowsWhole` | tnl/huffmanStringProcessor.cpp:107-143 | merging what the scan picks until one root is left gives a tree of all the symbols, each as one leaf, with codes of at most 32 bits |
| `HuffmanStringProcessorObject.HuffTreeWhole` | tnl/huffmanStringProcessor.cpp:87-150 | for every frequency table of positive weights whose total is below Fib(35), its tree has each symbol as one leaf and codes of at most 32 bits |
| `HuffmanOptimal.CodeTreeOptimal` | tnl/huffmanStringProcessor.cpp:82-180 | no prefix-free code of 256 words takes fewer bits than the codes of the shipped table for a text in which each character is once more frequent than the table says |
| `HuffmanOptimal.NoBetterCode` | tnl/huffmanStringProcessor.cpp:107-143 | the same for every frequency table of positive weights with a total below Fib(35) |
| `HuffmanOptimal.GrowsCheapest` | tnl/huffmanStringProcessor.cpp:110-142 | whatever word lengths a prefix-free code gives the roots, merging what the scan picks costs no more |
| `HuffmanOptimal.Kraft` | tnl/huffmanStringProcessor.cpp:158-180 | the words of a prefix-free code satisfy Kraft's inequality |
| `HuffmanOptimal.LightestLongest` | tnl/huffmanStringProcessor.cpp:110-126 | the two lightest can be given equal, greatest length at no cost |
| `HuffmanOptimal.CostIsSpent` | tnl/huffmanStringProcessor.cpp:132-132 | the weights of the nodes made add up to the bits that the codes take |
| `HuffmanStringProcessorObject.GenerateCodes` | tnl/huffmanStringProcessor.cpp:158-180 | the recursion over the shared bit buffer gives every leaf below the node its code and length, and changes no other leaf |
| `HuffmanStringProcessorObject.HuffmanStringProcessor.BuildTables` | tnl/huffmanStringProcessor.cpp:82-156 | node and leaf tables of the code tree that the shipped frequencies determine, hence the same on both sides |
| `HuffmanStringProcessorObject.HuffmanStringProcessor.WriteHuffBuffer` | tnl/huffmanStringProcessor.cpp:228-263 | the bits written for a string cut to maxLen |
| `HuffmanStringProcessorObject.HuffmanStringProcessor.ReadCharacter` | tnl/huffmanStringProcessor.cpp:203-215 | the table walk equals the descent of the tree |
| `HuffmanStringProcessorObject.HuffmanStringProcessor.ReadHuffBuffer` | tnl/huffmanStringProcessor.cpp:195-226 | the string read, in either form, building the tables first if need be, or failure if the stream ends first |
| `SharedPrefixStrings.StringRoundTrip` | tnl/bitStream.cpp:471-503 | a string comes back cut to maxLen, for any previous string both sides have |
| `SharedPrefixStrings.StreamRoundTrip` | tnl/bitStream.cpp:471-503 | any sequence of strings written to a fresh stream comes back, each cut to its maxLen |
| `SharedPrefixStrings.SharedLongest` | tnl/bitStream.cpp:490-492 | the prefix counted is the longest common one up to maxLen |
| `SharedPrefixStrings.PrefixUsed` | tnl/bitStream.cpp:496-502 | the prefix goes unsent if and only if the strings share their first three characters within maxLen |
| `SharedPrefixStrings.StringCoder.WriteString` | tnl/bitStream.cpp:486-503 | writes the specified bits and leaves mStringBuffer as the C string written |
| `SharedPrefixStrings.StringCoder.ReadString` | tnl/bitStream.cpp:471-484 | for any bits whose lengths fit the buffer, a reader new or not returns the string they stand for after what its buffer holds, and leaves mStringBuffer as that C string |
| `SharedPrefixStrings.WriteThenRead` | tnl/bitStream.cpp:471-503 | two coders with the same last string, their tables built or not: what one writes the other reads, cut to maxLen, and their last strings are again the same |
| `ConnectionTable.NetInterface.FindConnection` | tnl/netInterface.cpp:197-217 | returns a connection with the address if and only if the list has one; the probe loop ends |
| `ConnectionTable.NetInterface.AddConnection` | tnl/netInterface.cpp:265-298 | the list gains the connection and the table stays a complete index of it, at most half full, rebuilt with four times as many slots less one exactly when it would not be |
| `ConnectionTable.NetInterface.RemoveConnection` | tnl/netInterface.cpp:219-263 | the list loses just this connection, the last one filling its place, and the table stays a complete index of it |
| `ConnectionTable.StandsBehindHash` | tnl/netInterface.cpp:197-215 | in an index each connection stands in one slot, with no gap between the slot its address hashes to and that one |
| `ConnectionTable.NetInterface.RemoveSlot` | tnl/netInterface.cpp:241-261 | emptying a slot and rehashing the rest of its cluster leaves every other connection reachable |
| `ConnectionTable.InsertIndexes` | tnl/netInterface.cpp:289-296 | filling the first empty slot from the home keeps the table an index |
| `ConnectionTable.VacateFirst` | tnl/netInterface.cpp:241-251 | after one slot is emptied only the slots up to the next empty one can be out of reach |
| `ConnectionTable.VacateNext` | tnl/netInterface.cpp:244-252 | and each rehash step shrinks that stretch |
| `ConnectionTable.PutBack` | tnl/netInterface.cpp:253-260 | putting a connection back into the first empty slot from its home keeps the rest reachable |
| `BitStreamObject.BitStream.WriteBits` | tnl/bitStream.cpp:93-165 | at any position, changes exactly the bitCount bits from it on and no others, enlarging a buffer the stream owns when it is full, or fails leaving the buffer alone |
| `BitStreamObject.BitStream.ResizeBits` | tnl/bitStream.cpp:80-91 | a buffer the stream owns is enlarged with all its bits kept; another is not, with an error |
| `BitStreamObject.BitStream.constructor` | tnl/tnlBitStream.h:90-97 | an empty stream over its own or given memory, readable and writable to the end of it |
| `BitStreamObject.BitStream.Over` | tnl/tnlBitStream.h:90-96 | a stream over given memory, with its own read and write limits |
| `BitStreamObject.BitStream.ReadBits` | tnl/bitStream.cpp:167-212 | returns exactly the bitCount bits at the position, or fails without moving |
| `BitStreamObject.BitStream.WriteFlag` | tnl/bitStream.cpp:231-242 | one bit written, those after it kept, enlarging a buffer the stream owns when it is full |
| `BitStreamObject.BitStream.ReadFlag` | tnl/tnlBitStream.h:345-356 | the bit at the position; an error only beyond the end, so that at the end of a full buffer the bit behind it is returned |
| `BitStreamObject.FlagBehindEnd` | tnl/tnlBitStream.h:345-356 | a stream of one byte, all of it read: the next flag comes from behind the buffer, without an error |
| `BitStreamObject.BitStream.WriteInt` | tnl/bitStream.cpp:277-281 | appends the low bitCount bits of the value |
| `BitStreamObject.BitStream.ReadInt` | tnl/bitStream.cpp:262-275 | the value of the next bitCount bits |
| `BitStreamObject.BitStream.WriteSignedInt` | tnl/bitStream.cpp:303-309 | appends sign and magnitude |
| `BitStreamObject.SignAndMagnitude` | tnl/bitStream.cpp:303-309 | the sign flag comes first, set if and only if the number is negative, and then the bits of the magnitude, the least significant first |
| `BitStreamObject.BitStream.ReadSignedInt` | tnl/bitStream.cpp:311-317 | the signed value of the next bits; 0 if there are too few, an error except for a lone sign flag at the end |
| `BitStreamObject.BitStream.WriteRangedU32` | tnl/tnlBitStream.h:366-375 | appends the offset in as many bits as the range needs |
| `BitStreamObject.BitStream.ReadRangedU32` | tnl/tnlBitStream.h:377-391 | the value, or the start of the range with an error if it is out of range or the bits run out |
| `BitStreamObject.FieldsRoundTrip` | tnl/bitStream.cpp:231-317 | any sequence of flags, ints, signed ints and ranged ints that fit their fields reads back unchanged |
| `BitStreamItems.WriteItems` | tnl/bitStream.cpp:231-309 | written through the stream's methods, the items add just their encoding to what was written |
| `BitStreamItems.ReadItems` | tnl/bitStream.cpp:262-317 | reading through the stream's methods gives what the bits decode to, with an error if and only if a number is beyond its range |
| `BitStreamItems.WriteThenRead` | tnl/bitStream.cpp:231-317 | through two streams over the same memory: a reader who knows only the shapes gets the items back, without an error |
| `BitStreamItems.WrittenInRange` | tnl/tnlBitStream.h:366-391 | what was written of a ranged number is never read as beyond the range |
| `BitStreamItems.ShapesRead` | tnl/bitStream.cpp:262-317 | what is read depends only on the shapes |
| `BitStreamObject.ItemRoundTrip` | tnl/bitStream.cpp:231-317 | each of them does by itself, in the bits it is given |
| `BitStreamObject.RangeBitsExact` | tnl/tnlBitStream.h:371-372 | the field is the narrowest that holds the range |
| `BitStreamObject.WrittenBits` | tnl/bitStream.cpp:93-165 | bytes changed bit by bit as specified are the old bits with the source's spliced in |
| `BitStreamObject.ReadBitsAre` | tnl/bitStream.cpp:167-212 | bytes assembled as specified hold just the bits read |
| `BitFields.FieldValue` | tnl/bitStream.cpp:262-281 | a number written to a field reads back reduced to the field's width |
| `BitFields.FieldBit` | tnl/bitStream.cpp:262-281 | bit k of a field is the one worth 2^k |
| `NetStringTable.StringTable.Insertn` | tnl/netStringTable.cpp:227-289 | a known string keeps its id and gains a reference, its 16-bit count wrapping; a new one gets an unused id with count one; no other id, text or count changes; the table is enlarged so that there are at most two strings to a bucket |
| `NetStringTable.StringTable.DecRef` | tnl/netStringTable.cpp:400-429 | one reference less; just this id is removed if and only if the number of references was 1 or one more than a multiple of 65536, and its memory counted as free, also through compaction |
| `NetStringTable.FreedTooSoon` | tnl/netStringTable.cpp:395-404 | a string with 65537 references is freed when one of them is given back |
| `NetStringTable.CountLess` | tnl/netStringTable.cpp:400-404 | the 16-bit count reaches 0 exactly if the number of references is one more than a multiple of 65536, and otherwise keeps its low bits |
| `NetStringTable.StringTable.IncRef` | tnl/netStringTable.cpp:395-398 | one reference more, the 16-bit count wrapping, and nothing else |
| `NetStringTable.StringTable.Lookupn` | tnl/netStringTable.cpp:310-325 | the id of a string if and only if it is live |
| `NetStringTable.StringTable.ResizeHashTable` | tnl/netStringTable.cpp:328-366 | turning the chains round and distributing them anew changes no string, id or count, and every node is in the chain of its hash |
| `NetStringTable.StringTable.Compact` | tnl/netStringTable.cpp:368-393 | afterwards the memory taken is exactly that of the live strings, of which none changes text, id, count or links |
| `NetStringTable.MemoryWithout` | tnl/netStringTable.cpp:406-422 | the memory of the strings is that of any one of them and of the others |
| `NetStringTable.EntriesNext` | tnl/netStringTable.cpp:371-389 | copying the nodes slot by slot adds up their memory |
| `NetStringTable.StringTable.GetString` | tnl/netStringTable.cpp:431-436 | the text of a live id |
| `NetStringTable.Added` | tnl/netStringTable.cpp:266-282 | linking a new node at the end of its bucket keeps all chains right |
| `NetStringTable.AddedNodes` | tnl/netStringTable.cpp:266-282 | and keeps list slots split into live nodes with distinct texts and the free list |
| `NetStringTable.Removed` | tnl/netStringTable.cpp:406-422 | unlinking a node and putting its slot on the free list keeps chains, free list and the other strings right |
| `NetStringTable.GrownTable` | tnl/netStringTable.cpp:256-265 | a longer node list has just its new slots free |
| `NetStringTable.ReverseAll` | tnl/netStringTable.cpp:340-349 | the reversing loops give one list of all live nodes |
| `NetStringTable.Distribute` | tnl/netStringTable.cpp:350-365 | the distributing loop puts every node into the bucket of its hash |
| `NetStringTable.OneToOne` | tnl/netStringTable.cpp:227-289 | live ids and live strings correspond one to one, with at least one reference each, and the count is that of the references exactly below 65536 |
| `Crc.ByteBuffer.CalculateCRC` | tnl/byteBuffer.cpp:118-152 | the table-driven CRC of any range is the bit-at-a-time division by the reflected polynomial 0xedb88320, cut at the buffer's end, and 0 if the range starts there |
| `Crc.ByteBuffer.BuildTable` | tnl/byteBuffer.cpp:123-140 | every table entry is eight division steps of its index |
| `Crc.ByteCrcIsBits` | tnl/byteBuffer.cpp:147-150 | dividing a byte at a time equals dividing a bit at a time |
| `Crc.ByteStepIsBits` | tnl/byteBuffer.cpp:129-136 | for one byte |
| `Crc.TableStep` | tnl/byteBuffer.cpp:150-150 | the lookup with shift is one byte step |
| `Crc.HighByte` | tnl/byteBuffer.cpp:150-150 | eight steps of a word are those of its low byte, looked up, with the rest moved down |
| `Crc.Linear` | tnl/byteBuffer.cpp:132-135 | a division step distributes over exclusive or |
| `Crc.Chained` | tnl/byteBuffer.cpp:146-152 | dividing a run of bytes in two parts, the remainder of the first passed on, gives the remainder of the whole |
| `Crc.CheckValue` | tnl/byteBuffer.cpp:118-152 | the check value of CRC-32: the nine bytes 123456789 give the complement of 0xcbf43926 |
| `Crc.ChainedExactly` | tnl/byteBuffer.cpp:118-152 | two calls on adjacent ranges, the first result passed to the second, give the CRC of the whole range if and only if the second range starts before the buffer's end, or the first does not, or the whole CRC is 0 |
| `Crc.ChainedFails` | tnl/byteBuffer.cpp:142-143 | the byte 0 with initial value 1, followed by the empty rest: 0 instead of 0x77073096 |
| `Journal.Journal.SyncWriteStream` | tnl/journal.cpp:131-170 | after a sync the file is the total bit count followed by the single bit stream of everything recorded, and less than a byte stays in memory |
| `Journal.Journal.Record` | tnl/journal.cpp:226-227 | recorded bits join the stream in memory, which grows as needed, the file unchanged |
| `Journal.Journal.constructor` | tnl/journal.cpp:172-180 | an empty journal writes from byte 4 on |
| `Journal.PartLeft` | tnl/journal.cpp:158-164 | keeping the partial byte and backing up one byte continues the stream without a gap |
| `Journal.NoneLeft` | tnl/journal.cpp:165-169 | on a byte boundary nothing is kept and nothing lost |
| `Journal.HeaderValue` | tnl/journal.cpp:140-147 | the four header bytes hold the number of bits |

## Left out

What the model assumes or gives as a parameter:

- NotifyTheorems.NotifyTheorem: the network delivers no packet whose abbreviated numbers have come round again (`Fresh`: less than 2048 - 32 sequences or 1024 acks behind), and no run wraps past 2^32; both are conditions the source needs and cannot check itself.
- NotifyTheorems.WindowTheorem: for runs that stay below the 2^32 wrap, as above.
- NotifyReports.MisreportedExactly: for the reports of one endpoint, runs being symmetric, and below the 2^32 wrap as above.
- NotifyAcks.AcknowledgedIsKnown: for runs that stay below the 2^32 wrap, as above.
- NotifyChannel.ReportsTellArrival: the layers above are proved for channels whose reports are right; what a misreported packet does to them is not modelled.
- NetConnectionObject.NetConnection.WritePacketHeader: the padding bits and the 8-bit send delay are not in the header, and the header is a record of its fields rather than bits; the loops over acknowledgement words run once, as there is one word.
- NetConnectionObject.NetConnection.ReadPacketHeader: the loop that shifts whole mask words never runs, since an accepted packet is at most 31 ahead, and the shift by 32 has an unused result; neither is modelled. What happens when the notify loop runs beyond the records, which the source only asserts against, is not modelled; `RecordedExactly` says when. Flags that were not transmitted are arbitrary (`junk`). Keep-alive, round-trip averages and logging are left out.
- NetConnectionObject.NetConnection.HandleNotify: the notify queue is a sequence, not a linked list; rate and congestion window updates are left out.
- EventConnectionObject.EventConnection.WritePacketOrdered: how many events fit is a parameter (`room`) in place of the stream's free space, so the rewind of the event that did not fit is the choice to stop before it; string-table entries added by that event are not undone in the source, and are not modelled here.
- EventConnectionObject.EventConnection.ReadPacketOrdered: the packet's events are first made into a list and then merged, where the source inserts each as it is read; an error raised by an event does not stop the loop.
- EventConnectionObject.EventConnection.PostNetEvent: for ordered events; event numbers are unbounded, the source's are 32-bit signed.
- UnorderedEventConnectionObject.EventConnection.PacketDroppedUnordered: events are known by the number of their posting; in the source they share a packet's list with the ordered ones, and each kind is modelled by itself. How many fit is a parameter.
- GhostSlot.SendUpdateKeepsSlot: what packUpdate and unpackUpdate exchange is a version number for each state bit, and packUpdate may leave any subset of the mask.
- GhostConnectionObject.GhostConnection.WritePacket: priorities are real numbers given as parameters, room is a number of ghosts, updateSkipCount only reaches the priorities, the bits of the entries are not laid out; the packet-overrun rewind is the choice to stop before the ghost.
- GhostConnectionObject.GhostConnection.SortPending: the library sort is a selection by swaps with the same order; its order among equal priorities is not determined.
- GhostConnectionObject.GhostConnection.PacketDropped: an in-flight record list is a map from slots to records, so the order of records within one packet is not captured.
- GhostConnectionObject.GhostConnection.ObjectInScope: hash chains for object lookup and the list of an object's ghosts are a map from objects to slots; ghostability and local scope are decided by the caller. Which ghosts are ScopeLocalAlways is a parameter of `ClearScope`, and which objects the scope query finds is the caller's choice.
- GhostSystem.ActKeepsInv: the dirty list is each object's set of dirty bits, collapsed in one step; clearMaskBits is no action of the system, since it can break the segments (see ClearGhostBits) and discards changes on purpose.
- GhostArrival.ObjectArrives: explicit runs of one object in slot 0, over a network that loses nothing; losses are the subject of the theorems over every run.
- HuffmanOptimal.NoBetterCode: for totals below Fib(35), where codes are known to fit 32 bits.
- StringTableSystem.Agreement: strings are ids of the global table, which is taken to keep them alive; `StringTableTexts` adds their texts, which are not laid out in bits. Strings are written only while a packet is, so when the window is open.
- ConnectionStringTableObject.ConnectionStringTable.constructor: no entry starts confirmed; the source leaves receiveConfirmed unset there and sets it when an entry is first bound.
- HuffmanStringProcessorObject.HuffmanStringProcessor.WriteHuffBuffer: over a sequence of bits instead of a BitStream; a null string is written as the empty string is; not for more than 255 characters with a maxLen above 255, whose length does not fit its field of 8 bits. Tables belong to a processor object, where the source's are static.
- HuffmanStringProcessorObject.HuffmanStringProcessor.ReadHuffBuffer: fails when the bits run out, where the source reads on into the error state.
- SharedPrefixStrings.StringCoder.ReadString: for bits whose prefix length and string length together are at most 255; beyond that the source writes past its buffer of 256 characters.
- ConnectionTable.NetInterface.AddConnection: addresses are numbers and their hash is any function; a connection's address never changes while it is listed, and reference counts are left out.
- BitStreamObject.BitStream.WriteBits: a stream that owns its memory is writable to the end of it, as its constructor makes it; a smaller write limit set on such a stream is not modelled.
- BitStreamObject.BitStream.ReadFlag: the bit behind a full buffer is a parameter, `behind`.
- NetStringTable.StringTable.Insertn: case-sensitive inserts with any hash function and any node size; memory is counted in bytes and not laid out, and texts of 65536 characters or more, whose stored length wraps, are counted in full.
- Journal.Journal.SyncWriteStream: the file is a sequence of bytes that every write reaches; the total stays below 2^32 bits.

What the repository does that is not modelled:

- Handshake, puzzles, certificates and encryption: both sides start with each other's initial sequence set, and no cipher.
- The adaptive window, rate negotiation and send timing: they narrow the window of 30 but do not affect safety.
- Local connections that short-circuit the network, and teardown with clearAllPacketNotifies.
- Float, normal-vector and compressed-point encodings, and the float trick in getBinLog2; the bit width of a range is specified mathematically.
- Journal loading and entry dispatch: the entry index is written and read with ranges that differ by one.
- RPC macros, the class registry, the master server and the game: RPC calls appear in `GhostSystem` as posted events, whose order and arrival `OrderedEventSystem` justifies.
- Sockets, timers, threads and logging; debug sizes and checksums; assertions, except as what the proofs establish.
