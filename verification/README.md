# A verified model of the XMOS TCP/IP stack

This Dafny project models the hard parts of an embedded TCP/IP stack (uIP and Contiki, ported to
XMOS) and of the client libraries on top of it, and proves what they promise.
`dafny verify dfyconfig.toml` checks everything. The configuration is the shipped one: IPv4, no
sliding window, no urgent data, no reassembly.

| module | models |
|---|---|
| `UipTcp`, `UipProcess` | the TCP part of `uip_process`: as a step function, and as a class whose methods update the connection record in place and are proved against it |
| `TcpLifecycle` | what every run of a connection keeps: lengths, the state diagram, giving up, lingering, the round-trip estimator |
| `TcpAnswers`, `TcpAnyPeer` | what one step sends and reports, in terms of sequence numbers; and one host against any peer that follows the sequence rules |
| `BufferedSend`, `BufferedReceive`, `DemoProtocol` | the buffered client and the framing loops over it |
| `TcpSystem`, `TcpStreamSafety`, `TcpWraparound`, `TcpEndToEnd`, `TcpDelivery`, `TcpHalfClose` | two whole hosts and the network between them; the invariant of their runs, its transfer to 32-bit sequence numbers, the end-to-end theorems, runs that deliver everything, and what an acknowledgement is worth once a side has closed |
| `ConnTable`, `ConnIds` | the table of connection records with port allocation, and the identifiers given to clients |
| `InternetChecksum`, `PacketSplit` | checksum arithmetic and its shortcuts; cutting a segment in two |
| `ContikiList`, `Memb`, `NbrTable`, `RouteTable` | linked lists, block pools, the neighbour tables and the routes that hang off them |
| `MdnsName`, `MdnsClaim` | the mDNS name codec and the claim protocol |
| `Tftp` | the TFTP receiver and its server loop against a sender of RFC 1350 |
| `Basics` | shared vocabulary |

Code that works in place is modelled by classes and methods with loops; each is proved equal to a
function of its old state, and the properties are proved about those functions and their runs.

## Where the code does not do what it says

The proofs follow the code. Where it falls short of its documentation or of the obvious intention,
the project states exactly when it does not.

- A pause in TIME-WAIT keeps the connection there until an unpause or a reset; one in FIN-WAIT-2 until
  one of these or the FIN of the peer, which clears it. A pause that reaches a closed slot makes it
  count as in use until an unpause or a reset, or until its retransmission timer has given up once
  more; the last happens only if it was closed with something outstanding whose acknowledgement does
  not arrive in between (`TcpLifecycle`).
- An end in FIN-WAIT-1 or FIN-WAIT-2 acknowledges data it does not deliver, so a client that closes
  makes its peer release bytes nobody received (`TcpHalfClose`). Its own bytes still waiting in the
  buffered client are never sent (`TcpDelivery`).
- Data that comes with the acknowledgement of our FIN is taken without being acknowledged
  (`TcpAnswers`).
- Round-trip measurements can be negative, because a data segment clears the retransmission count
  while the backed-off timer still runs; the eight-bit average then wraps. The timeout can wrap even
  where average and deviation fit (`TcpLifecycle`).
- Rebinding a local port, and pausing a connection that has been reset, can break the uniqueness of
  endpoints (`ConnTable`).
- An echo request that is blank apart from type and checksum gets a reply that sums to zero
  (`InternetChecksum`); the receiver test accepts it all the same.
- The buffered client adds the length of the new segment where it frees that of the old one, so a
  pause may never be lifted. With one segment size throughout, the segment in flight included, a
  low-water mark at least that size below the capacity avoids it; with a size that shrinks during the drain it does not
  (`BufferedSend`).
- Whether a frame of the longest kind fits the receive buffer depends on how TCP cut the stream
  (`BufferedReceive`). An overflow costs the whole next receive event as well.
- Adding a route without route memory can leave a neighbour with an empty list, which hides other
  routes; adding over a covering route keeps the old next hop and takes the route from the
  destinations the new prefix leaves out (`RouteTable`).
- A name with an empty label inside is cut short by the mDNS parser; name comparison does not look
  at the characters between labels, and finds no non-empty string equal to a name that is compressed
  (`MdnsName`).
- Answers waiting when a conflict arrives are not withdrawn, and a service registered twice takes
  two entries (`MdnsClaim`).
- The configured 128 KB limit of a TFTP transfer is in fact one byte short of 255 blocks; the end of
  a longer file is refused and the transfer reported as failed (`Tftp`).

## Model

| member | source | states |
|---|---|---|
| `TcpEndToEnd.StreamSafety` | module_xtcp/src/xtcp_uip/uip.c:1498-1853 | End to end: over every run of two hosts with their buffered clients and a network that loses, duplicates and reorders, each application has received a prefix of what the other client accepted, each byte once and in order (unbounded sequence numbers) |
| `TcpEndToEnd.StreamSafety32` | module_xtcp/src/xtcp_uip/uip.c:1498-1853 | The same for the 32-bit machine, as long as no delivered segment is a whole sequence space away |
| `TcpWraparound.RunWraps` | module_xtcp/src/xtcp_uip/uip.c:1501-1717 | Every run of the 32-bit system is the image of the run of the unbounded one, state by state |
| `TcpWraparound.InputWraps` | module_xtcp/src/xtcp_uip/uip.c:1477-1919 | One received segment: reducing sequence numbers before or after processing gives the same connection, answer and event |
| `TcpEndToEnd.BuffersAreInLockStep` | module_xtcp/src/xtcp_buffered_client.c:158-237 | The receiver is never ahead of the segment in flight; per direction, bytes leave the buffer of an established sender only after delivery as long as the receiver has not sent a FIN |
| `TcpHalfClose.AcknowledgedIsDeliveredIff` | module_xtcp/src/xtcp_uip/uip.c:1862-1908 | Per direction, throughout a run and until the sender has sent its FIN, what a connected end acknowledges is exactly what it has delivered if and only if no new data reaches it in FIN-WAIT-1 or FIN-WAIT-2 |
| `TcpHalfClose.NextKeepsLevelIff` | module_xtcp/src/xtcp_uip/uip.c:1862-1908 | The same for one step of the system |
| `TcpHalfClose.BytesLeaveAfterDelivery` | module_xtcp/src/xtcp_buffered_client.c:206-237 | In such a run no byte leaves the buffer of an established sender undelivered, whatever state the receiver ends in |
| `TcpHalfClose.BytesMayLeaveUndelivered` | module_xtcp/src/xtcp_uip/uip.c:1862-1891 | For any bytes that fit a packet there is a run in which they are acknowledged, leave the buffer and are never delivered |
| `TcpStreamSafety.RunKeepsInvariant` | module_xtcp/src/xtcp_uip/uip.c:725-1919 | The inductive invariant behind both: every segment ever sent carries the bytes its sequence number names, and it survives every step |
| `TcpStreamSafety.ReceiveIsGood` | module_xtcp/src/xtcp_uip/uip.c:1477-1919 | A received segment, wanted or not, keeps the sender record in step with what the client holds, and delivers only the next bytes in order |
| `TcpStreamSafety.ActIsGood` | module_xtcp/src/xtcp_uip/uip_xtcp.c:392-582 | Timer pulses, polls and client commands do so too |
| `TcpDelivery.AnyWritesCanBeDelivered` | module_xtcp/src/xtcp_uip/uip.c:1477-1853 | The theorem is not vacuous: for any writes that together fit the client buffer, in as many segments as they take, split or not, there is a run from a fresh start in which all are accepted, sent, delivered in order and released |
| `TcpDelivery.RestIsDelivered` | module_xtcp/src/xtcp_uip/uip.c:1758-1853 | From any state with a segment on its way to a listening peer some run delivers all that is queued |
| `TcpDelivery.UnpauseReopensWindow` | module_xtcp/src/xtcp_uip/uip_xtcp.c:328-335 | The poll after an unpause tells the peer that the window is open |
| `TcpDelivery.CloseIsCarriedOut` | module_xtcp/src/xtcp_uip/uip_xtcp.c:392-424 | A close or an abort is carried out with the next poll; what still waits in the client buffer is never sent |
| `TcpDelivery.DataPausesInAckMode` | module_xtcp/src/xtcp_uip/uip_xtcp.c:505-582 | Where the client acknowledges every receipt, data pauses the connection as it is delivered and closes its window |
| `TcpDelivery.PauseStopsDelivery` | module_xtcp/src/xtcp_uip/uip_xtcp.c:319-325 | After a pause nothing is delivered, and whatever the record still says closes the window |
| `TcpDelivery.NothingAfterTheEnd` | module_xtcp/src/xtcp_uip/uip.c:1318-1365 | A host whose connection is over answers every segment but a reset with a reset, and is moved by none |
| `TcpAnyPeer.AnyPeerIsHeardInOrder` | module_xtcp/src/xtcp_uip/uip.c:1498-1853 | One host against any peer that follows the sequence rules, however it cuts, reorders and repeats its stream and wherever it puts its FIN: the application has always received a prefix of the stream, and all of it once it is told, while established, that the peer closed |
| `TcpHalfClose.LostFinIsRepeated` | module_xtcp/src/xtcp_uip/uip.c:797-857 | A run in which the first FIN is lost, the timer repeats it and the peer reaches LAST-ACK |
| `TcpAnswers.EstablishedDelivers` | module_xtcp/src/xtcp_uip/uip.c:1669-1757 | In order, with or without a FIN, a segment hands an unpaused established application exactly its bytes or, with a FIN that has to wait, none; the record advances by them and by one for the FIN, which is reported if and only if it is taken; the advance is acknowledged at once |
| `TcpAnswers.PausedTakesNothing` | module_xtcp/src/xtcp_uip/uip.c:1669-1757 | A paused application is handed nothing and nothing is acknowledged for it |
| `TcpAnswers.OtherStatesDeliver` | module_xtcp/src/xtcp_uip/uip.c:1578-1595 | In the other states: data with the acknowledgement of our SYN-ACK is handed over; after our FIN everything in order is acknowledged and handed to nobody |
| `TcpAnswers.AdvanceIsAcknowledgedIff` | module_xtcp/src/xtcp_uip/uip.c:1573-1919 | Whatever is taken is acknowledged in the answer, if and only if it is not data that comes with the acknowledgement of our FIN |
| `TcpAnswers.OutOfOrderIsAnswered` | module_xtcp/src/xtcp_uip/uip.c:1498-1506 | A segment out of order changes nothing and is answered with what is expected |
| `TcpAnswers.ArrivalSpeaks` | module_xtcp/src/xtcp_uip/uip.c:1573-1919 | Whatever arrives, the answer carries the numbers of the record and either nothing or exactly the sequence numbers outstanding; what becomes outstanding goes out in it |
| `TcpAnswers.PulseSpeaks` | module_xtcp/src/xtcp_uip/uip.c:770-868 | The same for pulses and polls |
| `TcpAnswers.RetransmissionIsExact` | module_xtcp/src/xtcp_uip/uip.c:797-857 | When the timer has run down exactly the outstanding sequence numbers go out again, SYN and FIN included; for data the application supplies the bytes |
| `TcpAnswers.ReachableRetransmissionIsExact` | module_xtcp/src/xtcp_uip/uip.c:797-857 | The same for every state a slot can reach |
| `TcpAnswers.CloseProgresses` | module_xtcp/src/xtcp_uip/uip.c:1855-1919 | After our FIN the state tells exactly which of the two FINs are still missing, and the FIN of the peer is reported |
| `TcpAnswers.AbortIsReportedIff` | module_xtcp/src/xtcp_uip/uip.c:1477-1493 | An abort is reported exactly for a reset or an answer to our SYN that is none; the record is closed, and only the latter answered, by a reset |
| `TcpAnswers.ConnectionIsReportedIff` | module_xtcp/src/xtcp_uip/uip.c:1578-1652 | The connection is reported exactly when the record leaves the SYN states otherwise |
| `TcpAnswers.AcknowledgementIsReportedIff` | module_xtcp/src/xtcp_uip/uip.c:1508-1566 | An acknowledgement is reported exactly when all outstanding data of an established record is acknowledged |
| `TcpAnswers.PulseIsReportedIff` | module_xtcp/src/xtcp_uip/uip.c:770-868 | Time-out, retransmission and poll are reported exactly when they happen; giving up also resets the peer |
| `TcpAnswers.SegmentSizeFollowsWindow` | module_xtcp/src/xtcp_uip/uip.c:1718-1734 | The segment size is the largest that neither the window of the peer nor the agreed MSS forbids, and no answer exceeds it |
| `TcpAnswers.EventsShowRecord` | module_xtcp/src/xtcp_uip/uip.c:1573-1919 | Whatever the application hears of comes with the segment size of the record and, if new data is reported, with the data of the segment |
| `TcpAnswers.OptionBoundsSegmentSize` | module_xtcp/src/xtcp_uip/uip.c:1597-1652 | The MSS option bounds it from the opening on |
| `TcpAnswers.ResetFitsItsSender` | module_xtcp/src/xtcp_uip/uip.c:1337-1361 | A reset starts where its receiver expects it and acknowledges a SYN exactly, so an opener hears of the refusal |
| `TcpAnswers.OpeningSpeaks` | module_xtcp/src/xtcp_uip/uip.c:479-500 | An accepted connection answers with its SYN-ACK, one asked for sends its SYN with the second pulse; unanswered they are given up with pulse 102 and 100 |
| `TcpAnswers.AcknowledgementTimesAnew` | module_xtcp/src/xtcp_uip/uip.c:1508-1566 | An acknowledgement restarts the timer with the new estimate and is measured if and only if nothing was repeated; other segments leave timer and estimate alone |
| `TcpAnswers.AnswerIsRepeatedAfter` | module_xtcp/src/xtcp_uip/uip.c:1508-1566 | What is sent in answer to an acknowledgement is repeated first with pulse rto + 1 |
| `TcpAnswers.FirstRepeatIsTimed` | module_xtcp/src/xtcp_uip/uip.c:797-857 | The first repetition comes with the pulse after those the timer says |
| `TcpAnswers.AppSendObeys` | module_xtcp/src/xtcp_uip/uip.c:1758-1853 | A pause takes effect at once; new data, or an acknowledgement asked for, is answered even without data |
| `TcpAnswers.AppSendCloses` | module_xtcp/src/xtcp_uip/uip.c:1763-1787 | A close sends the FIN, an abort the reset |
| `TcpAnswers.AppSendSendsInOrder` | module_xtcp/src/xtcp_uip/uip.c:1791-1853 | Accepted data leaves in order: what goes out is the beginning of what the application offers, as much as the segment size allows |
| `TcpAnswers.RetransmissionObeys` | module_xtcp/src/xtcp_uip/uip.c:797-857 | A pause asked for during a retransmission takes effect; where the application supplies nothing, only an acknowledgement it asks for goes out |
| `TcpAnswers.TimeWaitAnswers` | module_xtcp/src/xtcp_uip/uip.c:1906-1912 | TIME-WAIT acknowledges every segment but a reset, without starting its timer again; it begins with the timer at 0 |
| `UipProcess.UipConn.Receive` | module_xtcp/src/xtcp_uip/uip.c:1477-1919 | In-place processing of a segment for a known connection produces the state, answer and event of the step function the theorems are about, and keeps the length discipline its callers rely on |
| `UipProcess.UipConn.Switch` | module_xtcp/src/xtcp_uip/uip.c:1573-1919 | The switch on the connection state likewise |
| `UipProcess.UipConn.ReceiveSynRcvd` | module_xtcp/src/xtcp_uip/uip.c:1578-1595 | SYN-RCVD: opens only on the awaited acknowledgement |
| `UipProcess.UipConn.ReceiveSynSent` | module_xtcp/src/xtcp_uip/uip.c:1597-1652 | SYN-SENT: opens on the SYN-ACK that acknowledges the SYN, otherwise aborts with a reset |
| `UipProcess.UipConn.ReceiveEstablished` | module_xtcp/src/xtcp_uip/uip.c:1655-1853 | ESTABLISHED: FIN, new data, window update, application call and its answer |
| `UipProcess.UipConn.ReceiveFinWait1` | module_xtcp/src/xtcp_uip/uip.c:1864-1891 | FIN-WAIT-1: the four outcomes |
| `UipProcess.UipConn.ReceiveFinWait2` | module_xtcp/src/xtcp_uip/uip.c:1893-1908 | FIN-WAIT-2: TIME-WAIT on a FIN, data acknowledged |
| `UipProcess.UipConn.AcceptAck` | module_xtcp/src/xtcp_uip/uip.c:1513-1566 | Only an acknowledgement of all that is outstanding counts; it advances the sequence number and, without retransmissions, the estimator |
| `UipProcess.UipConn.RttEstimate` | module_xtcp/src/xtcp_uip/uip.c:1532-1545 | The estimator in eight-bit arithmetic |
| `UipProcess.UipConn.Respond` | module_xtcp/src/xtcp_uip/uip.c:1758-1853 | From label `appsend`: abort, close, new data, retransmission, bare acknowledgement |
| `UipProcess.UipConn.Periodic` | module_xtcp/src/xtcp_uip/uip.c:770-868 | A timer pulse: lingering, retransmission with backoff, giving up, polling; keeps the length discipline |
| `UipProcess.UipConn.TimerExpired` | module_xtcp/src/xtcp_uip/uip.c:797-857 | The retransmission timer has run down: give up or send again |
| `UipProcess.UipConn.SendAgain` | module_xtcp/src/xtcp_uip/uip.c:828-856 | What is retransmitted in each state |
| `UipProcess.UipConn.PollRequest` | module_xtcp/src/xtcp_uip/uip.c:752-767 | A poll reaches the application only when nothing is outstanding |
| `UipProcess.UipConn.Accept` | module_xtcp/src/xtcp_uip/uip.c:1404-1460 | Filling a slot for a SYN; the old MSS stays unless the SYN has one |
| `UipProcess.UipConn.Connect` | module_xtcp/src/xtcp_uip/uip.c:479-500 | Filling a slot for an active open |
| `TcpLifecycle.ReachableLengths` | module_xtcp/src/xtcp_uip/uip.c:783-1919 | In every reachable state the outstanding length is the one the TCP state allows: 1 in the SYN and FIN states, 0 in FIN-WAIT-2 and TIME-WAIT, at most an MSS in ESTABLISHED |
| `TcpLifecycle.EveryRunKeepsLenInv` | module_xtcp/src/xtcp_uip/uip.c:783-1919 | The same as an invariant of every run, from any state that has it |
| `TcpLifecycle.StepsFollowRfc793` | module_xtcp/src/xtcp_uip/uip.c:1573-1919 | Every step, filling a slot included, is a path of at most two arrows in figure 6 of RFC 793 (section 3.2), three when a SYN takes over a lingering slot, or ends the connection by a reset, an abort, the retransmission limit or the FIN-WAIT-2 limit |
| `TcpLifecycle.GiveUpIsExact` | module_xtcp/src/xtcp_uip/uip.c:797-857 | A connection that hears nothing stays in its state until exactly one computed pulse closes it, having retransmitted exactly up to the limit, whatever the application answers |
| `TcpLifecycle.GiveUpTimes` | module_xtcp/src/xtcp_uip/uip.c:787-819 | That pulse is number timer + 246, or timer + 99 in the SYN states |
| `TcpLifecycle.LingerIsExact` | module_xtcp/src/xtcp_uip/uip.c:787-792 | FIN-WAIT-2 and TIME-WAIT end after exactly the stated number of pulses, at most 256, wrap-around of the eight-bit timer included |
| `TcpLifecycle.LingerEndsIffNotPaused` | module_xtcp/src/xtcp_uip/uip.c:787-792 | With nothing but pulses they end then if and only if the connection is not paused: the unmasked comparison misses paused ones |
| `TcpLifecycle.PausedLingerNeverEnds` | module_xtcp/src/xtcp_uip/uip.c:787-868 | Pulses alone never end a paused connection in these states |
| `TcpLifecycle.PausedTimeWaitStays` | module_xtcp/src/xtcp_uip/uip.c:787-1909 | A paused TIME-WAIT record stays as it is under all actions but an unpause or a reset |
| `TcpLifecycle.PausedFinWait2StaysIff` | module_xtcp/src/xtcp_uip/uip.c:787-1908 | A paused FIN-WAIT-2 record stays paused in that state, under all actions but an unpause or a reset, exactly as long as no FIN of its peer comes in order |
| `TcpLifecycle.FinEndsPausedFinWait2` | module_xtcp/src/xtcp_uip/uip.c:1893-1904 | That FIN clears the pause, and TIME-WAIT then ends after 120 pulses unless the application pauses again |
| `TcpLifecycle.PausedClosedSlotIsFreedIff` | module_xtcp/src/xtcp_uip/uip.c:787-857 | Under pulses alone a closed slot that is paused becomes free after exactly those of its retransmission timer if it was closed with something outstanding, and never if it was not |
| `TcpLifecycle.PausedClosedSlotComesBackIff` | module_xtcp/src/xtcp_uip/uip.c:1508-1566 | Under all actions but an unpause or a reset it becomes free with that pulse if and only if something was outstanding and its acknowledgement has not arrived since |
| `TcpLifecycle.PauseAfterGivingUp` | module_xtcp/src/xtcp_uip/uip.c:797-819 | A connection given up and then paused is of the first kind and comes back after 256 pulses, or 403 from the SYN states |
| `TcpLifecycle.PausedClosedSlotIsLost` | module_xtcp/src/xtcp_uip/uip_xtcp.c:319-325 | One of the second kind stays marked in use under all actions but an unpause or a reset |
| `TcpLifecycle.EstimatorStaysInRange` | module_xtcp/src/xtcp_uip/uip.c:1532-1545 | For measurements of 0 to 31 pulses the update never wraps: sa <= 255, sv <= 127, rto <= 158 |
| `TcpLifecycle.TimelyRunsKeepEstimator` | module_xtcp/src/xtcp_uip/uip.c:1532-1545 | Over every run with such measurements, all other steps arbitrary |
| `TcpLifecycle.SafeMeasurementsAreExactly0To31` | module_xtcp/src/xtcp_uip/uip.c:1532-1545 | 0 to 31 is exactly the range that is safe in every estimator state |
| `TcpLifecycle.UpdateIsExactIff` | module_xtcp/src/xtcp_uip/uip.c:1532-1545 | In each estimator state the eight-bit update of average, deviation and timeout is the integer update if and only if the measurement lies within stated bounds around the average and the new timeout fits |
| `TcpLifecycle.TimeoutMayWrapAlone` | module_xtcp/src/xtcp_uip/uip.c:1532-1545 | A state and measurement for which average and deviation are exact and only the timeout wraps, to 6 instead of 262 |
| `TcpLifecycle.NegativeMeasurementIsReachable` | module_xtcp/src/xtcp_uip/uip.c:1532-1545 | A reachable connection and an acknowledgement whose measurement is negative and out of those bounds: the average should become -3 and becomes 253 |
| `BufferedSend.RetransmissionRepeatsLastSegment` | module_xtcp/src/xtcp_buffered_client.c:158-237 | After any interleaving of sends and handler calls a resend repeats the last segment byte for byte, and the segments handed over spell a prefix of the accepted bytes |
| `BufferedSend.RunKeepsConsistent` | module_xtcp/src/xtcp_buffered_client.c:158-237 | The invariant behind it, over every run |
| `BufferedSend.WriteIsAcceptedIff` | module_xtcp/src/xtcp_buffered_client.c:158-203 | A write is accepted if and only if it fits beside the bytes retained and waiting; the stream then grows by exactly it; sending is asked for if and only if nothing was waiting |
| `BufferedSend.WritesAreAcceptedIff` | module_xtcp/src/xtcp_buffered_client.c:158-203 | Successive writes are all accepted if and only if together they fit, and are then one stream |
| `BufferedSend.TxBuffer.Send` | module_xtcp/src/xtcp_buffered_client.c:158-203 | Queueing in the real buffer, compaction included: accepted exactly if there is room, asks to send exactly if nothing was waiting, and to pause as specified |
| `BufferedSend.TxBuffer.Compact` | module_xtcp/src/xtcp_buffered_client.c:169-178 | Shifting the buffer changes nothing that can be observed |
| `BufferedSend.TxBuffer.SendHandler` | module_xtcp/src/xtcp_buffered_client.c:206-237 | The handler sends the retained or the next segment and moves the cursors |
| `BufferedSend.DrainLiftsIff` | module_xtcp/src/xtcp_buffered_client.c:218-231 | Draining a buffer with any segment size at each call lifts the pause if and only if some call finds the mark above the space it has and no higher than that space with the segment it hands over; space and segments are given by the sums of the sizes |
| `BufferedSend.MissedOnlyByShorterSegment` | module_xtcp/src/xtcp_buffered_client.c:218-231 | A mark that the space passes is missed only at a call that hands over less than it frees |
| `BufferedSend.FixedSizeLiftsIff` | module_xtcp/src/xtcp_buffered_client.c:218-231 | With one segment size throughout, draining a paused buffer lifts the pause if and only if the mark lies within the first segment handed over, or above the space that the segment in flight frees and at least that size below the capacity |
| `BufferedSend.LowMarkIsLiftedIff` | module_xtcp/src/xtcp_buffered_client.c:218-231 | The same when the segment in flight is no longer than that size: for an unchanging size a mark that much below the capacity is enough |
| `BufferedSend.ShrinkingSegmentsMissTheMark` | module_xtcp/src/xtcp_buffered_client.c:218-231 | It is not enough when the peer shrinks the segments during the drain |
| `BufferedSend.PauseMayNeverBeLifted` | module_xtcp/src/xtcp_buffered_client.c:218-231 | A buffer that asks for a pause and drains completely without the pause being lifted |
| `BufferedReceive.EveryCuttingIsFramedIff` | module_xtcp/src/xtcp_buffered_client.c:47-103 | In a buffer with room for n bytes besides the largest event, every cutting of a stream into receive events gives the frames of the uncut stream without overflow if and only if no frame exceeds n + 1 bytes and the rest does not exceed n |
| `BufferedReceive.FramingIgnoresPacketisation` | module_xtcp/src/xtcp_buffered_client.c:47-103 | A run without overflow gives the frames and the rest of the uncut stream, whatever the cutting |
| `BufferedReceive.DocumentedSizeSuffices` | module_xtcp/src/xtcp_buffered_client.h:43-46 | The documented size, the largest event plus the largest message, is enough |
| `BufferedReceive.DrainEvents` | experimental/app_buffered_protocol_demo_2/src/demo_protocol.c:41-63 | The real buffer, drained once per receive event, gives exactly the frames, the rest and the overflow of that run; an overflow drops the rest and the event after it |
| `BufferedReceive.OverflowLosesNextEvent` | module_xtcp/src/xtcp_buffered_client.c:47-103 | An overflow costs the unfinished frame and the whole next event, whatever it carries; then the framing starts afresh |
| `BufferedReceive.SplitIsACut` | module_xtcp/src/xtcp_buffered_client.c:63-102 | The delimiter split loses and reorders nothing and its pieces end in the only delimiter they contain |
| `BufferedReceive.SplitOfConcat` | module_xtcp/src/xtcp_buffered_client.c:63-102 | Splitting a longer stream continues where splitting its prefix stopped |
| `BufferedReceive.RxBuffer.RecvUpto` | module_xtcp/src/xtcp_buffered_client.c:47-103 | Returns the first frame, or overflows exactly when the rest leaves no room for another event, or keeps everything for the next event |
| `BufferedReceive.RxBuffer.Recv` | module_xtcp/src/xtcp_buffered_client.c:107-153 | The same for a given number of bytes |
| `BufferedReceive.RxBuffer.Drain` | experimental/app_buffered_protocol_demo_2/src/demo_protocol.c:41-63 | The receive loop yields the delimiter split of one event and overflows exactly for a rest that leaves no room for the next; after an overflow it only readies the buffer |
| `DemoProtocol.MessagesIgnorePacketisation` | experimental/app_buffered_protocol_demo/src/demo_protocol_transport.c:40-85 | For every cutting into events the length-prefixed messages and the verdict are those of the uncut stream |
| `DemoProtocol.ParseOfConcat` | experimental/app_buffered_protocol_demo/src/demo_protocol_transport.c:40-85 | Parsing can be interrupted anywhere |
| `DemoProtocol.ParseEncoded` | experimental/app_buffered_protocol_demo/src/demo_protocol_transport.c:40-85 | Parsing gives back exactly the messages a sender encoded and goes on behind them |
| `DemoProtocol.HeaderIsRefusedIff` | experimental/app_buffered_protocol_demo/src/demo_protocol_transport.c:57-66 | A header is refused if and only if it is zero or above the limit, after all messages before it |
| `DemoProtocol.MessagesSpellStream` | experimental/app_buffered_protocol_demo/src/demo_protocol_transport.c:40-85 | Messages and what is in hand spell the bytes that came |
| `DemoProtocol.Connection.Receive` | experimental/app_buffered_protocol_demo/src/demo_protocol_transport.c:40-85 | The loop with its two state fields computes the parse of the stream; the overflow branch is never taken |
| `InternetChecksum.Chksum` | module_xtcp/src/xtcp_uip/uip.c:345-365 | For every length and seed the accumulator never wraps and the result is the sum of section 1 of RFC 1071, zero only if everything is zero |
| `InternetChecksum.OnesReduce` | module_xtcp/src/xtcp_uip/uip.c:345-348 | Two folds reduce any 32-bit sum to its canonical representative |
| `InternetChecksum.SumFromSeed` | module_xtcp/src/xtcp_uip/uip.c:350-365 | Folding after every word or once at the end is the same |
| `InternetChecksum.ChksumComposes` | module_xtcp/src/xtcp_uip/uip.c:379-399 | Summing in two calls across an even split is summing once |
| `InternetChecksum.FillThenVerify` | module_xtcp/src/xtcp_uip/uip.c:1022-1024 | A field filled with the complement makes the packet recompute to 0xffff, wherever the field is |
| `InternetChecksum.UpperLayerCoversPseudoHeader` | module_xtcp/src/xtcp_uip/uip.c:1305-1309 | The sum started with length and protocol is that of the pseudo-header of RFC 793, section 3.1, and the segment |
| `InternetChecksum.TransportChecksumVerifies` | module_xtcp/src/xtcp_uip/uip.c:1305-1309 | The same through the pseudo-header sum |
| `InternetChecksum.ByteOrderIndependence` | module_xtcp/src/xtcp_uip/uip.c:1080-1086 | Section 2(B) of RFC 1071: swapping octets multiplies the sum by 256 modulo 65535 |
| `InternetChecksum.VerifiesInEitherOrder` | module_xtcp/src/xtcp_uip/uip.c:1080-1086 | A packet verifies in one byte order if and only if it does in the other |
| `InternetChecksum.MakeEchoReply` | module_xtcp/src/xtcp_uip/uip.c:1080-1086 | The echo shortcut on the buffer |
| `InternetChecksum.EchoReplyVerifiesUnlessBlank` | module_xtcp/src/xtcp_uip/uip.c:1080-1086 | The reply to an intact echo request is intact if and only if something besides type and checksum is set; the receiver test accepts it always |
| `InternetChecksum.SomeEchoRepliesDoNotVerify` | module_xtcp/src/xtcp_uip/uip.c:1080-1086 | Such a blank request exists |
| `InternetChecksum.DecrementTtl` | module_xtcp/src/xtcp_uip/uip-fw.c:468-476 | The TTL shortcut on the buffer |
| `InternetChecksum.ForwardedHeaderVerifies` | module_xtcp/src/xtcp_uip/uip-fw.c:468-476 | Every intact header stays intact |
| `InternetChecksum.TurnedHeaderVerifies` | module_xtcp/src/xtcp_uip/uip.c:1087-1091 | The reused header checksum of an echo reply is right because the request was addressed to this host |
| `PacketSplit.SplitOutput` | module_xtcp/src/xtcp_uip/uip-split.c:95-170 | Two intact packets with the same header, payloads that concatenate to the original, the second at seq + len1 modulo 2^32; small segments only get a checksum; other protocols pass |
| `PacketSplit.SplitInTwo` | module_xtcp/src/xtcp_uip/uip-split.c:107-160 | The large-segment case |
| `PacketSplit.CopyPayloadDown` | module_xtcp/src/xtcp_uip/uip-split.c:148-155 | The overlapping forward copy moves the second half down like a memmove |
| `PacketSplit.SplitOutputSend` | module_xtcp/src/xtcp_uip/uip-split.c:67-83 | The packet sent has both checksums right |
| `PacketSplit.AddToSeqno` | module_xtcp/src/xtcp_uip/uip-split.c:157-158 | The sequence number in the packet advances modulo 2^32 |
| `ConnTable.RunsKeepUniqueIff` | module_xtcp/src/xtcp_uip/uip.c:439-502 | Over every run of segments, connects, pulses, polls, rebinds, pauses and unpauses from an empty table, no two live connections ever share local port, remote port and remote address if and only if each rebind and pause meets its guard |
| `ConnTable.NextKeepsUniqueIff` | module_xtcp/src/xtcp_uip/uip.c:1300-1420 | The same for one operation; segments, connects and timers need no guard |
| `ConnTable.FirstMatchIsOnlyMatch` | module_xtcp/src/xtcp_uip/uip.c:1313-1319 | So the first match of the demultiplexer is the only one |
| `ConnTable.LiveRecordsHaveAnOrigin` | module_xtcp/src/xtcp_uip/uip.c:1321-1440 | Over every run, a record in use was opened by a SYN for a listening port, by a client, or revived by a pause, and has been in use with the same endpoints since, unless rebound |
| `ConnTable.FreePortExists` | module_xtcp/src/xtcp_uip/uip.c:443-458 | With fewer than 27904 connections some port of the range is free |
| `ConnTable.Stack.Demultiplex` | module_xtcp/src/xtcp_uip/uip.c:1313-1319 | The loop finds the first matching connection, the only one while endpoints are unique, or none |
| `ConnTable.Stack.FindSlot` | module_xtcp/src/xtcp_uip/uip.c:1382-1393 | The first closed slot, else the TIME-WAIT slot with the largest timer, first among equals |
| `ConnTable.Stack.FindPort` | module_xtcp/src/xtcp_uip/uip.c:443-458 | The port search ends, with a port no live connection uses |
| `ConnTable.Stack.Connect` | module_xtcp/src/xtcp_uip/uip.c:439-502 | Fills exactly the chosen slot under that port, or fails only for want of a slot |
| `ConnTable.Stack.TcpInput` | module_xtcp/src/xtcp_uip/uip.c:1300-1420 | A segment goes to its connection record, opens one, or is answered with a reset, and touches no other record |
| `ConnTable.Stack.Periodic` | module_xtcp/src/xtcp_uip/uip.c:770-868 | A pulse or poll changes its own record only |
| `ConnTable.Stack.Bind` | module_xtcp/src/xtcp_uip/uip_xtcp.c:207-215 | The rebind operation on the records in memory |
| `ConnTable.Stack.SetPaused` | module_xtcp/src/xtcp_uip/uip_xtcp.c:319-335 | Pause and unpause on the records in memory |
| `ConnTable.BindLocalKeepsUniqueIff` | module_xtcp/src/xtcp_uip/uip_xtcp.c:207-215 | Rebinding a local port keeps the endpoints unique if and only if no other live connection has them |
| `ConnTable.PauseKeepsUniqueIff` | module_xtcp/src/xtcp_uip/uip_xtcp.c:319-325 | Pausing a slot keeps them unique if and only if it is live or nobody took over its endpoints |
| `ConnTable.RebindingCanClash` | module_xtcp/src/xtcp_uip/uip_xtcp.c:207-215 | A run from an empty table whose last operation, a rebind, makes two live connections share endpoints |
| `ConnTable.LatePauseCanClash` | module_xtcp/src/xtcp_uip/uip_xtcp.c:319-325 | The same with a pause of a connection that was reset and whose peer has come back |
| `ConnIds.FreeGuidExists` | module_xtcp/src/xtcp_uip/uip_xtcp.c:25-30 | With one record zeroed some id of 200 is free |
| `ConnIds.Registry.Lookup` | module_xtcp/src/xtcp_uip/uip_xtcp.c:50-63 | Finds a record with the id, the only one, in the two tables |
| `ConnIds.Registry.InitState` | module_xtcp/src/xtcp_uip/uip_xtcp.c:93-133 | Gives the record an id nobody else has and keeps all nonzero ids distinct |
| `ConnIds.Registry.FindGuid` | module_xtcp/src/xtcp_uip/uip_xtcp.c:117-122 | The cyclic search ends |
| `ContikiList.List.Remove` | module_xtcp/src/xtcp_uip6/contiki/lib/list.c:238-262 | Removes exactly the item, wherever it is, on the linked nodes |
| `ContikiList.List.Add` | module_xtcp/src/xtcp_uip6/contiki/lib/list.c:141-158 | The item ends up last, once, even if it was listed before |
| `ContikiList.List.Push` | module_xtcp/src/xtcp_uip6/contiki/lib/list.c:163-173 | The item ends up first, once |
| `ContikiList.List.Chop` | module_xtcp/src/xtcp_uip6/contiki/lib/list.c:184-204 | Takes off the last element |
| `ContikiList.List.Pop` | module_xtcp/src/xtcp_uip6/contiki/lib/list.c:216-226 | Takes off the first element |
| `ContikiList.List.Tail` | module_xtcp/src/xtcp_uip6/contiki/lib/list.c:116-128 | Finds the last element |
| `ContikiList.List.Length` | module_xtcp/src/xtcp_uip6/contiki/lib/list.c:273-284 | Counts the elements |
| `ContikiList.List.Insert` | module_xtcp/src/xtcp_uip6/contiki/lib/list.c:301-311 | Inserts behind the given element, or pushes when there is none |
| `ContikiList.WithoutKeepsDistinct` | module_xtcp/src/xtcp_uip6/contiki/lib/list.c:238-262 | Removal leaves a list of the other elements, without repetition |
| `Memb.Pool.Alloc` | module_xtcp/src/xtcp_uip6/contiki/lib/memb.c:59-77 | Takes the first free block, or none only if all are in use |
| `Memb.Pool.Free` | module_xtcp/src/xtcp_uip6/contiki/lib/memb.c:79-102 | Releases exactly the block pointed to; -1 and no effect for any other pointer |
| `Memb.InUseAfter` | module_xtcp/src/xtcp_uip6/contiki/lib/memb.c:59-102 | The number of blocks in use moves with one count |
| `NbrTable.AddRefines` | module_xtcp/src/xtcp_uip6/contiki/net/nbr-table.c:271-311 | Adding an address puts a cleared item under it in that table only; it fails exactly when the address is new and all neighbours are locked; it costs at most the one neighbour of the policy, gone from every table |
| `NbrTable.UseRefines` | module_xtcp/src/xtcp_uip6/contiki/net/nbr-table.c:303-311 | An address already listed: a map update of one table |
| `NbrTable.RemoveRefines` | module_xtcp/src/xtcp_uip6/contiki/net/nbr-table.c:323-329 | Removal from one table removes that key from its map and from no other |
| `NbrTable.SetLockRefines` | module_xtcp/src/xtcp_uip6/contiki/net/nbr-table.c:331-343 | Locking changes no map |
| `NbrTable.SetLockMeaning` | module_xtcp/src/xtcp_uip6/contiki/net/nbr-table.c:331-343 | Locking and unlocking set and clear the lock of this table on this neighbour, and nothing else |
| `NbrTable.UseAndRemoveMeaning` | module_xtcp/src/xtcp_uip6/contiki/net/nbr-table.c:303-329 | Removal gives up use and lock of this table, and no other |
| `NbrTable.EvictRefines` | module_xtcp/src/xtcp_uip6/contiki/net/nbr-table.c:205-223 | Eviction removes one address from every map |
| `NbrTable.GetMeaning` | module_xtcp/src/xtcp_uip6/contiki/net/nbr-table.c:314-320 | Lookup finds the item of the address if the table uses it |
| `NbrTable.Apply` | module_xtcp/src/xtcp_uip6/contiki/net/nbr-table.c:159-343 | Every operation keeps: listed keys are the allocated blocks, addresses differ, unlisted neighbours are unused |
| `NbrTable.VictimMeaning` | module_xtcp/src/xtcp_uip6/contiki/net/nbr-table.c:168-205 | The victim is unlocked, has the fewest users and was inserted first among those; there is none only if all are locked |
| `NbrTable.UnusedVictimIsFinal` | module_xtcp/src/xtcp_uip6/contiki/net/nbr-table.c:195-199 | Stopping the scan at an unused neighbour does not change its outcome |
| `NbrTable.LockedIsNeverEvicted` | module_xtcp/src/xtcp_uip6/contiki/net/nbr-table.c:173-176 | Over every run a locked neighbour stays listed under its address until that table releases it |
| `NbrTable.OnceLockedStays` | module_xtcp/src/xtcp_uip6/contiki/net/nbr-table.c:331-343 | Once a table has locked a listed neighbour, whatever came before, it stays listed under its address until that table releases it |
| `NbrTable.NotifiedMeaning` | module_xtcp/src/xtcp_uip6/contiki/net/nbr-table.c:206-216 | The callbacks fire exactly once for exactly the registered tables that use the victim, in order |
| `NbrTable.EvictedMeaning` | module_xtcp/src/xtcp_uip6/contiki/net/nbr-table.c:196-216 | Adding a neighbour calls back exactly the tables with a callback that lose one by it |
| `NbrTable.CountUsers` | module_xtcp/src/xtcp_uip6/contiki/net/nbr-table.c:179-187 | The shifting loop counts the set bits |
| `NbrTable.WalkVisitsExactlyUsed` | module_xtcp/src/xtcp_uip6/contiki/net/nbr-table.c:244-270 | Head and next visit exactly the neighbours of the table, oldest first |
| `NbrTable.Neighbours.PickVictim` | module_xtcp/src/xtcp_uip6/contiki/net/nbr-table.c:171-203 | The scan with its early exit finds the victim |
| `NbrTable.Neighbours.Allocate` | module_xtcp/src/xtcp_uip6/contiki/net/nbr-table.c:159-225 | A free block or the victim, with its callbacks |
| `NbrTable.Neighbours.AddLladdr` | module_xtcp/src/xtcp_uip6/contiki/net/nbr-table.c:271-311 | The in-place form of adding; a null address is the all-zero one |
| `NbrTable.Neighbours.GetFromLladdr` | module_xtcp/src/xtcp_uip6/contiki/net/nbr-table.c:314-320 | The in-place form of the lookup |
| `NbrTable.Neighbours.RemoveItem` | module_xtcp/src/xtcp_uip6/contiki/net/nbr-table.c:323-329 | The in-place form of removal |
| `NbrTable.Neighbours.Lock` | module_xtcp/src/xtcp_uip6/contiki/net/nbr-table.c:331-343 | The in-place form of locking and unlocking, bit by bit |
| `NbrTable.Neighbours.Register` | module_xtcp/src/xtcp_uip6/contiki/net/nbr-table.c:228-242 | At most eight tables |
| `NbrTable.Neighbours.Head` | module_xtcp/src/xtcp_uip6/contiki/net/nbr-table.c:244-255 | The first neighbour the table uses |
| `NbrTable.Neighbours.Next` | module_xtcp/src/xtcp_uip6/contiki/net/nbr-table.c:258-270 | The next neighbour the table uses |
| `RouteTable.RunsShowEveryRoute` | module_xtcp/src/xtcp_uip6/contiki/net/uip-ds6-route.c:254-451 | Over every run of adds, removals and other tables' operations, evictions included, in which no add runs out of route memory as below, a walk visits every route once and counts `num_routes`, which is the total of the lists and the blocks in use |
| `RouteTable.AddKeepsListsIff` | module_xtcp/src/xtcp_uip6/contiki/net/uip-ds6-route.c:276-324 | Adding keeps every neighbour's list non-empty if and only if it is not the case of a new neighbour entry without route memory |
| `RouteTable.ApplyKeepsListsIff` | module_xtcp/src/xtcp_uip6/contiki/net/uip-ds6-route.c:254-451 | The same over all operations: no other one can leave a neighbour without routes |
| `RouteTable.EmptyListHides` | module_xtcp/src/xtcp_uip6/contiki/net/uip-ds6-route.c:300-324 | After such an add routes are hidden, and a walk counts fewer than `num_routes`, as soon as a neighbour with routes is listed behind the new entry |
| `RouteTable.EmptyListIsReachable` | module_xtcp/src/xtcp_uip6/contiki/net/uip-ds6-route.c:300-324 | A run from an empty table to a state where that add hides the only route |
| `RouteTable.AllVisibleIffNoGap` | module_xtcp/src/xtcp_uip6/contiki/net/uip-ds6-route.c:175-209 | A walk reaches every route if and only if no neighbour without routes is listed before one with routes |
| `RouteTable.WalkCountsRoutes` | module_xtcp/src/xtcp_uip6/contiki/net/uip-ds6-route.c:73-103 | A walk never counts more than `num_routes` routes, and exactly that many if and only if it reaches all |
| `RouteTable.NextIsVisible` | module_xtcp/src/xtcp_uip6/contiki/net/uip-ds6-route.c:175-209 | Head and next enumerate the lists of the neighbours in order |
| `RouteTable.BestIsLongest` | module_xtcp/src/xtcp_uip6/contiki/net/uip-ds6-route.c:217-252 | The lookup scan picks the longest matching prefix, the last among equals |
| `RouteTable.LookupIsLongestMatch` | module_xtcp/src/xtcp_uip6/contiki/net/uip-ds6-route.c:217-252 | While every route is reachable the lookup finds a matching route of maximal length whenever one exists |
| `RouteTable.NewRouteIsFound` | module_xtcp/src/xtcp_uip6/contiki/net/uip-ds6-route.c:254-354 | A route added for a destination nothing covered is what a lookup then finds |
| `RouteTable.AddUsesNextHopIff` | module_xtcp/src/xtcp_uip6/contiki/net/uip-ds6-route.c:276-335 | The route an add returns goes to the requested next hop if and only if nothing covered the destination or the best covering route went there already |
| `RouteTable.OldNextHopIsReachable` | module_xtcp/src/xtcp_uip6/contiki/net/uip-ds6-route.c:276-299 | A run after which an add for another next hop returns the route through the old one |
| `RouteTable.AddTakesLastRouteIff` | module_xtcp/src/xtcp_uip6/contiki/net/uip-ds6-route.c:276-299 | A destination loses its last route to an add over a covering route if and only if that route alone matched it and the new prefix does not |
| `RouteTable.NarrowedRouteIsReachable` | module_xtcp/src/xtcp_uip6/contiki/net/uip-ds6-route.c:276-299 | A run to a /64 from which adding a /128 takes the route of every other destination in it |
| `RouteTable.RmKeepsConsistent` | module_xtcp/src/xtcp_uip6/contiki/net/uip-ds6-route.c:357-411 | Removing a route keeps lists, pool and counter in step |
| `RouteTable.RmMeaning` | module_xtcp/src/xtcp_uip6/contiki/net/uip-ds6-route.c:357-411 | Exactly the given route leaves its list and frees its block; its neighbour leaves the table exactly with its last route |
| `RouteTable.NextHopIsForgotten` | module_xtcp/src/xtcp_uip6/contiki/net/uip-ds6-route.c:440-451 | Removal by next hop frees exactly the routes through it, and the table forgets it |
| `RouteTable.OnlyWholeBytesCount` | module_xtcp/src/xtcp_uip6/contiki/net/uip-ds6-route.c:217-252 | A prefix stands for its whole bytes; the remaining bits do not count |
| `RouteTable.RmListMeaning` | module_xtcp/src/xtcp_uip6/contiki/net/uip-ds6-route.c:413-432 | Removing a list ends, frees exactly its routes and takes the neighbour out |
| `RouteTable.NbrAddKeeps` | module_xtcp/src/xtcp_uip6/contiki/net/uip-ds6-route.c:433-438 | An eviction by any table takes exactly the routes of the evicted neighbour along |
| `RouteTable.Router.RouteLookup` | module_xtcp/src/xtcp_uip6/contiki/net/uip-ds6-route.c:217-252 | The lookup loop over head and next |
| `RouteTable.Router.RouteAdd` | module_xtcp/src/xtcp_uip6/contiki/net/uip-ds6-route.c:254-354 | The in-place form of adding |
| `RouteTable.Router.RouteRm` | module_xtcp/src/xtcp_uip6/contiki/net/uip-ds6-route.c:357-411 | The in-place form of removal |
| `RouteTable.Router.RmRoutelist` | module_xtcp/src/xtcp_uip6/contiki/net/uip-ds6-route.c:413-432 | The removal loop, with its termination |
| `RouteTable.Router.AddLladdr` | module_xtcp/src/xtcp_uip6/contiki/net/uip-ds6-route.c:433-438 | Adding a neighbour with the eviction callback run between choice and reuse |
| `RouteTable.Router.RouteRmByNexthop` | module_xtcp/src/xtcp_uip6/contiki/net/uip-ds6-route.c:440-451 | Removal by next hop; an unknown one stands for the all-zero address |
| `RouteTable.DefrtPeriodic` | module_xtcp/src/xtcp_uip6/contiki/net/uip-ds6-route.c:576-591 | The scan that restarts after each removal ends with exactly the expired routers gone |
| `RouteTable.UnexpiredMeaning` | module_xtcp/src/xtcp_uip6/contiki/net/uip-ds6-route.c:576-591 | What the scan keeps is exactly the routers that are infinite or not expired |
| `MdnsName.ParseSkipsEncodedIff` | module_zeroconf/mdns/mdns.c:118-156 | Parsing skips exactly what the encoder wrote if and only if no label after the first is empty (labels up to 127 bytes) |
| `MdnsName.CompareSelfIff` | module_zeroconf/mdns/mdns.c:158-198 | A name equals its own encoding if and only if no label after the first is empty |
| `MdnsName.CompareEncodedIff` | module_zeroconf/mdns/mdns.c:158-198 | The exact meaning of equal: only the characters in place of the dots, and one at the end, may differ |
| `MdnsName.RevIpRoundTrip` | module_zeroconf/mdns/mdns.c:206-256 | Parsing the reverse-lookup name of any address succeeds and gives it back (section 3.5 of RFC 1035) |
| `MdnsName.RevIsAcceptedIff` | module_zeroconf/mdns/mdns.c:206-256 | A name with labels behind its four fields is taken for a reverse name if and only if the fields are numbers up to 255 and the rest compares as in-addr.arpa |
| `MdnsName.EncodeName` | module_zeroconf/mdns/mdns.c:909-934 | The encoder loop writes the labels and touches nothing else |
| `MdnsName.ParseName` | module_zeroconf/mdns/mdns.c:118-156 | The skipping loop, with its limit checks, up to a compression pointer |
| `MdnsName.CompareName` | module_zeroconf/mdns/mdns.c:158-198 | The comparison loop, with its single jump at a compression pointer |
| `MdnsName.CompressedIsEqualIff` | module_zeroconf/mdns/mdns.c:166-173 | A name that ends in a compression pointer is found equal only to the empty string, and only if it is nothing but a pointer to an empty name |
| `MdnsName.EncodeIp` | module_zeroconf/mdns/mdns.c:964-982 | The reverse-lookup name is written byte for byte |
| `MdnsName.ParseRevIp` | module_zeroconf/mdns/mdns.c:206-256 | The field loop, ended by four fields, the end of the name or a compression pointer, and the final comparison |
| `MdnsName.Itoa` | module_zeroconf/mdns/mdns.c:80-101 | Decimal digits, written last first and reversed in place |
| `MdnsName.FieldOfDigits` | module_zeroconf/mdns/mdns.c:228-241 | Reading the digits of a number gives the number |
| `MdnsClaim.ClaimDiscipline` | module_zeroconf/mdns/mdns.c:1097-1323 | Over every run an entry is active only after exactly three probes and then exactly three announcements since its last conflict, start or registration; the count is exact in every state, and none stays half way through a probe |
| `MdnsClaim.UncontestedClaim` | module_zeroconf/mdns/mdns.c:1097-1323 | A claim nobody contests takes six rounds, no more and no fewer |
| `MdnsClaim.LateEntryWaits` | module_zeroconf/mdns/mdns.c:1277-1283 | An entry registered after the start is not claimed until the interface comes up again |
| `MdnsClaim.QuietIff` | module_zeroconf/mdns/mdns.c:438-455 | Only active entries have answers waiting, if and only if no conflict or restart hits an entry with answers waiting |
| `MdnsClaim.PendingSurvivesConflict` | module_zeroconf/mdns/mdns.c:438-455 | A run to an active entry with an answer waiting, which a conflict then takes back to probing with the answer kept |
| `MdnsClaim.RenamingIsFresh` | module_zeroconf/mdns/mdns.c:293-313 | An entry that keeps losing never comes back to a name it lost |
| `MdnsClaim.ConflictRenamesIff` | module_zeroconf/mdns/mdns.c:438-455 | A conflict renames an entry if and only if it was still probing |
| `MdnsClaim.TieBreakRenamesIff` | module_zeroconf/mdns/mdns.c:557-586 | A lost tie-break renames an entry if and only if it was probing, and starts its claim again |
| `MdnsClaim.LosingGivesANewName` | module_zeroconf/mdns/mdns.c:421-586 | Over runs without registration, each conflict while probing and each lost tie-break gives a name the entry has not had before, and nothing else changes its name |
| `MdnsClaim.QuestionsAreAnsweredOnce` | module_zeroconf/mdns/mdns.c:1161-1236 | Questions about an owned name are taken up and answered once, unless an answer seen suffices |
| `MdnsClaim.NothingBeforeTheTimeout` | module_zeroconf/mdns/mdns.c:1097-1236 | Time moves an entry only past its timeout: 250 ms after a probe, 2.5 s from the fifteenth renaming on, one second after an announcement |
| `MdnsClaim.SecondRegistrationIff` | module_zeroconf/mdns/mdns.c:1407-1445 | Registering a name again uses the same entry if and only if it is not a service |
| `MdnsClaim.RegistrationStartsAfresh` | module_zeroconf/mdns/mdns.c:1407-1445 | A registration starts a claim under its own name and touches no other entry |
| `MdnsClaim.Mdns.SendProbes` | module_zeroconf/mdns/mdns.c:1097-1154 | Questions first, authority records second, no entry left between |
| `MdnsClaim.Mdns.SendResponses` | module_zeroconf/mdns/mdns.c:1161-1236 | Announcements and pending answers |
| `MdnsClaim.Mdns.MdnsSend` | module_zeroconf/mdns/mdns.c:1254-1274 | Responses go out only when no probe does |
| `MdnsClaim.Mdns.Periodic` | module_zeroconf/mdns/mdns.c:1276-1324 | Start and timeouts |
| `MdnsClaim.Mdns.HandleResponse` | module_zeroconf/mdns/mdns.c:421-467 | Conflicts send entries back to probing |
| `MdnsClaim.Mdns.HandleAuth` | module_zeroconf/mdns/mdns.c:557-586 | Lost tie-breaks rename and restart |
| `MdnsClaim.Mdns.AddEntry` | module_zeroconf/mdns/mdns.c:1407-1445 | Which slot a registration takes and what it resets |
| `Tftp.InOrderIff` | module_tftp/src/tftp_support.c:96-147 | Over a network that loses, duplicates and reorders, the application has always been given exactly blocks 1 to prev_block_num in order, if and only if the file has fewer than 255 full blocks |
| `Tftp.CompletionMeansWholeFile` | module_tftp/src/tftp.xc:195-229 | Whatever the network does and however long the file, a transfer reported complete has passed on the whole file |
| `Tftp.CanCompleteIff` | module_tftp/src/tftp_support.c:99-125 | A file can be transferred at all if and only if it has fewer than 255 full blocks, although the limit is set to 256 |
| `Tftp.CanFailIff` | module_tftp/src/tftp_support.c:99-135 | If the application accepts every block, exactly the other files can end in an error |
| `Tftp.SafeBelowLimit` | module_tftp/src/tftp_support.c:96-147 | Order and completion for every reachable state of a transfer within that size |
| `Tftp.BlocksSpellFile` | module_tftp/src/tftp_support.c:101-112 | The numbered blocks concatenate to the file |
| `Tftp.AcknowledgedIff` | module_tftp/src/tftp_support.c:56-164 | Only a proper write request and data are acknowledged, by number; data is refused if and only if it is new and past the limit or not wanted; exactly the error replies raise the error flag |
| `Tftp.RefusalIsFinal` | module_tftp/src/tftp.xc:195-212 | A transfer is never reported complete after the application refused a block |
| `Tftp.Transfer.ProcessPacket` | module_tftp/src/tftp_support.c:56-164 | The packet handler with its statics and flags |
| `Tftp.TftpServer.HandleRecvData` | module_tftp/src/tftp.xc:155-184 | Packets are processed only while data is awaited |
| `Tftp.TftpServer.HandleSentData` | module_tftp/src/tftp.xc:195-230 | After the reply: error first, then completion, else on with the transfer |

## Left out

- TcpEndToEnd.StreamSafety32: assumes that no segment is delivered a whole 32-bit sequence space
  away from the receiver (`FreshRun`), because the code accepts by equality alone.
- TcpEndToEnd.StreamSafety: one connection per run, as uIP has no protection against segments of
  an earlier connection between the same endpoints; a SYN after the end is answered by a reset.
- ContikiList.List.Insert: behind an element, requires an item not listed yet; the code would build a cycle otherwise.
- PacketSplit.CopyPayloadDown: requires six bytes of slack behind the payload, which the word loop reads.
- MdnsName.ParseName: stops at a compression pointer; following pointers need not end.
- NbrTable.Neighbours.Allocate: table callbacks are reported in order, not run.
- NbrTable.Neighbours.AddLladdr: table callbacks are reported in order, not run; `RouteTable` runs the one of the route table at its place. Item contents are one number per neighbour.
- RouteTable.Router.AddLladdr: the neighbour tables are a value inside this class, the route lists sequences; their forms in memory are `NbrTable.Neighbours` and `ContikiList.List`.
- MdnsClaim.ClaimDiscipline: says nothing about the time between packets.
- URG data, the TCP option parser (the MSS is an input), the increment of the initial sequence number
  (it is arbitrary), the sliding window, reassembly and the IPv6 branches of `uip_process`.
- Bytes an application did not write but uIP sends are modelled as zero.
- Data queued by a client inside its receive callback: equivalent to queueing just before the event.
- UDP, ARP, AutoIP, DHCP, IGMP, the forwarding cache and `time_exceeded`.
- Connections without a client link (`linknum` -1) and the partial-acknowledgement mode.
- A second TFTP transfer: `prev_block_num` is never reset; of the server loop, the time-out, the
  interface events and the application that is not ready.
- The mDNS tie-break order, packet-size estimates, the records inside packets, and NetBIOS.
- Notifications, default router choice and lifetimes of the route module; RPL.
- RouteTable.RmKeepsConsistent: requires an allocated route; removing one twice through a stale pointer would miscount.
