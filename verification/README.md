# Verified model of the CCSDS protocol library

This project models the protocol logic of an embedded CCSDS library and proves what that
logic is for. Five parts are covered:

- **CFDP file transfer** (CCSDS 727.0-B-5): range lists, checksums, PDU codecs, the sending and
  the receiving state machine, and a system of one sender and one receiver over a network that
  loses, duplicates and reorders PDUs: what is committed is what was sent, and transfers complete
  though segments, EOF, NAK or Finished are lost. `CfdpEntity.Entity` is the object the program
  keeps; each of its methods does to the object what the functions of `CfdpSender` and
  `CfdpReceiver` do to their states, and the theorems are about those states.
- **Telemetry frames** (CCSDS 132.0-B): cutting a queue of Space Packets into fixed data fields,
  with a reference deframer that joins anywhere.
- **Telecommand reception**: FARM-1 acceptance (CCSDS 232.1-B), segment reassembly, and the
  BCH and CLTU decoders (CCSDS 231.0-B).
- **Space Data Link Security** (CCSDS 355.0-B-2, CCSDS 355.1-B-1): initialization vectors, which
  frames are accepted, anti-replay, and the exact condition and effect of every command.
- **The frame error control CRC** as division of polynomials.

What the program asks of the outside world (filestore, transport, clock, PSA key store, AEAD,
the CRC library) is a parameter of each call: an `Env`, a `Store` or a function value that fixes
the answers. Sizes and limits (range capacity, retry rounds, window, frame length, numbers of
keys and associations) are symbolic. 8-, 16-, 32- and 64-bit wrap-around is written out where the
program has it. Configuration fields of function type (`CfdpCore.Config.encoder`,
`SdlsRuns.Semantics`) stand for the functions that `WireConfig` and `Means` name; they keep proofs
small. `CfdpCore.WithCodec` and `SdlsRuns.Meaning` are the values meant, and the security theorems
are stated for the latter.

## Reading order

`CfdpRanges`, `CfdpChecksum` and `CfdpPdu` are the building blocks; `CfdpWire` says byte by byte
what the PDU codec reads and writes. `CfdpSender` and `CfdpReceiver` define the two state machines,
`CfdpSenderRuns`, `CfdpReceiverRuns` and `CfdpReplies` say what every run keeps, `CfdpSystem` and
`CfdpDelivery` put both ends together, `CfdpRecovery` proves one round of recovery. `CfdpExchange`
and `CfdpCompletion` show that transfers complete when nothing is lost, `CfdpTimers` what every poll
does, `CfdpRepair` and `CfdpLoss` that the timers and the NAK repair what is lost. `CfdpEntity` is
the object. `SpacePacket` holds the packet length rule that telemetry and telecommand share.
`TmPackets`, `TmFrame`, `TmFaults` and `TmGenerator` are telemetry; `Farm`, `FarmLink` and
`TcReassembly` telecommand; `ShiftRegisters`, `Octets`, `Crc16`, `Bch` and `Cltu` the codes. `Sdls`,
`SdlsEp`, `SdlsRuns` and `SdlsContext` are security; `SdlsFrames` says which frames are accepted,
`SdlsCommands` and `SdlsKeys` what each command does, from its bytes on.

## Where a first guess is false

- An empty file is never completed, because the completeness test rejects an empty scope
  (`CfdpDelivery.EmptyFileNeverCompletes`). With nothing lost and an environment that works, every
  other file is: the transfer ends in COMPLETE exactly when the file is not empty
  (`CfdpCompletion.CompletesExactly`, and `CfdpCompletion.UnacknowledgedExactly` for a transfer
  without acknowledgement).
- A receiver reports COMPLETE on an acknowledgement of Finished even if it has not sent
  Finished. `CfdpReplies.CompleteExactly` gives the exact condition, `CfdpReplies.StrayAckCompletes`
  the failing family. The sender's COMPLETE has no such gap (`CfdpDelivery.EndToEndDelivery`).
- The running modular checksum does not notice which segments it has counted before. If a
  partition of the file and a surplus of segments have gone in, it is the checksum of the file
  exactly when the lane sum of the surplus is 0 modulo 2^32
  (`CfdpChecksum.SurplusMiscountsExactly`); the receiver therefore re-reads the stored file.
- Which ranges a list of limited capacity accepts depends on the order of arrival
  (`CfdpRanges.OverflowDependsOnOrder`); what an accepted order leads to does not
  (`CfdpRanges.AcceptedOrdersAgree`).
- The last six bytes of a data field, if they are zeros, are fill, so a packet header of zeros
  there is not seen. `TmPackets.PackFollows` says that a data field is read back exactly when it
  does not end so, and stream recovery is stated for frames that do not. For the shortest such
  packets only a field of six bytes is misread (`TmPackets.ZeroHeaderExactly`), and
  `TmFaults.ZeroHeaderLost` is a run with any data field length in which one is lost.
- A telemetry packet that finds too little room is refused, but the bytes that were taken stay
  in the queue: the refusal is harmless exactly when the queue was full to the last byte
  (`TmFaults.RefusalHarmless`). Otherwise the channel never drains until something else is
  offered to it (`TmFaults.RefusalNeverDrains`). Once a channel has run dry inside a packet no
  frame is built, and from then on no channel emits one, idle frames included, until a packet is
  offered to that channel or a lower one (`TmFaults.StarvationBlocks`; `TmFaults.FullQueueStarves`
  is such a run).
- A sender can lock the receiver out exactly when its window reaches half the acceptance window
  (`FarmLink.LocksOutExactly`); UNLOCK and SET V(R) always lead out again
  (`FarmLink.LockedOutRecovers`).
- A receiver does not accept every frame that a transmitter protects in order: the key's 32-bit
  sequence number wraps to 0, which is not new. All are accepted exactly as long as it has not
  wrapped (`SdlsFrames.AcceptedInOrder`).
- A locked-out channel refuses bypass frames too (`Farm.LockoutPersists`), as coded.

## Model

| member | source | states |
|---|---|---|
| CfdpRanges.InsertUnion | src/ccsds_cfdp_ranges.c:22-73 | adding a range keeps the list sorted, disjoint and non-adjacent and denotes set union |
| CfdpRanges.GapsComplement | src/ccsds_cfdp_ranges.c:98-151 | the missing list is canonical and denotes exactly the complement within the scope |
| CfdpRanges.GapsCount | src/ccsds_cfdp_ranges.c:98-151 | at most one gap more than ranges held, and none more if the first range starts the scope |
| CfdpRanges.CanonicalUnique | src/ccsds_cfdp_ranges.c:22-73 | equal sets of bytes have identical canonical lists |
| CfdpRanges.ArrivalOrderIrrelevant | src/ccsds_cfdp_ranges.c:22-73 | as long as the capacity is not met, any two arrival orders of the same bytes end in the same list |
| CfdpRanges.AddAllExactly | src/ccsds_cfdp_ranges.c:52-55 | every range of an arrival order is accepted exactly when the list fits its capacity after each of them |
| CfdpRanges.AcceptedOrdersAgree | src/ccsds_cfdp_ranges.c:22-73 | under a capacity, any two arrival orders of the same bytes that are accepted end in the same list |
| CfdpRanges.OverflowDependsOnOrder | src/ccsds_cfdp_ranges.c:52-55 | three adjoining ranges fit a list of one in one order and overflow it in another |
| CfdpRanges.InsertSplice | src/ccsds_cfdp_ranges.c:30-72 | the in-place merge of overlapping or adjacent entries is the list-level insertion |
| CfdpRanges.RangeList.ShiftUp | src/ccsds_cfdp_ranges.c:57-61 | entries move up by one slot, the others stay |
| CfdpRanges.RangeList.ShiftDown | src/ccsds_cfdp_ranges.c:62-66 | the tail closes the hole that a merge leaves |
| CfdpRanges.RangeList.FindOverlap | src/ccsds_cfdp_ranges.c:36-50 | finds the entries touched by a range and the range they merge to |
| CfdpRanges.RangeList.Add | src/ccsds_cfdp_ranges.c:22-73 | set union on success; overflow exactly when a new disjoint range exceeds the capacity, with the list unchanged |
| CfdpRanges.RangeList.IsComplete | src/ccsds_cfdp_ranges.c:75-96 | decides inclusion of the scope in the bytes held; an empty scope is an error |
| CfdpRanges.RangeList.Missing | src/ccsds_cfdp_ranges.c:98-151 | the exact complement, or overflow with the output unchanged |
| CfdpChecksum.LaneSumIsWordSum | src/ccsds_cfdp_checksum.c:50-108 | adding bytes in lanes equals the sum of zero-padded big-endian words modulo 2^32 |
| CfdpChecksum.ModularOrderIndependent | src/ccsds_cfdp_checksum.c:50-145 | any partition of a file in any order yields the modular checksum of the whole file |
| CfdpChecksum.SegmentChangesNothingExactly | src/ccsds_cfdp_checksum.c:66-82 | one more segment leaves the running value alone exactly when its lane sum is 0 modulo 2^32 |
| CfdpChecksum.SurplusMiscountsExactly | src/ccsds_cfdp_checksum.c:50-145 | after a partition and any surplus of segments the checksum is that of the file exactly when the surplus lane sum is 0 modulo 2^32 |
| CfdpChecksum.DuplicateSegmentMiscounts | src/ccsds_cfdp_checksum.c:66-82 | the one-byte file 1, counted twice, has another checksum |
| CfdpChecksum.RunningChecksum.AddLanes | src/ccsds_cfdp_checksum.c:66-82 | the byte loop adds the lane sum modulo 2^32 |
| CfdpChecksum.RunningChecksum.Accept | src/ccsds_cfdp_checksum.c:50-108 | updates the state as specified, deferring a CRC that arrives out of order |
| CfdpChecksum.PrefixStep | src/ccsds_cfdp_checksum.c:50-108 | an in-order update takes the state of a prefix to the state of the longer prefix |
| CfdpChecksum.ComputeChecksum | src/ccsds_cfdp_checksum.c:178-214 | the chunked re-read returns the whole-file checksum or the failing read's status |
| CfdpChecksum.FinishFile | src/ccsds_cfdp_checksum.c:153-214 | the streamed value when it covers the file, otherwise a re-read |
| CfdpChecksum.CrcHistory | src/ccsds_cfdp_checksum.c:50-108 | a CRC not deferred is the CRC of the prefix it has covered |
| CfdpChecksum.CrcFinishFileCorrect | src/ccsds_cfdp_checksum.c:153-214 | for every update history consistent with the file, the CRC of the whole file or a failed read |
| CfdpPdu.HeaderRoundTrip | src/ccsds_cfdp_pdu.c:120-255 | decoding an encoded fixed header returns it |
| CfdpPdu.HeaderBytesRoundTrip | src/ccsds_cfdp_pdu.c:120-255 | encoding a decoded header gives back the accepted bytes |
| CfdpPdu.PduRoundTrip | src/ccsds_cfdp_pdu.c:306-1175 | decoding undoes encoding for every valid PDU, up to the derived length and the suppressed closure flag |
| CfdpPdu.NakRoundTrip | src/ccsds_cfdp_pdu.c:1045-1175 | variable-length NAK lists survive the round trip |
| CfdpPdu.WriteNakRanges | src/ccsds_cfdp_pdu.c:1097-1104 | the range loop writes exactly the encoding of the ranges and nothing else |
| CfdpPdu.ReadNakRanges | src/ccsds_cfdp_pdu.c:1158-1167 | the decoding loop reads every range |
| CfdpWire.HeaderDecodes | src/ccsds_cfdp_pdu.c:185-255 | a header is decoded to given values exactly when it has the format of section 5.1, byte by byte, with lengths the library supports |
| CfdpWire.HeaderEncodes | src/ccsds_cfdp_pdu.c:120-183 | an encoded header has the format: version and flag bits, length word, id lengths, source, number, destination |
| CfdpWire.FieldDecodes | src/ccsds_cfdp_pdu.c:386-1175 | each of the six bodies is decoded to given values exactly when the data field has its format, with literal directive codes and each number where it belongs |
| CfdpWire.FieldEncodes | src/ccsds_cfdp_pdu.c:306-1110 | what the encoder writes as data field has the format of its body |
| CfdpWire.PduEncodes | src/ccsds_cfdp_pdu.c:306-1110 | every PDU that is sent is a header of that format, with the length of the data field, and a data field of that format |
| CfdpWire.PduDecodes | src/ccsds_cfdp_pdu.c:386-1175 | a buffer that has the format of a message is decoded, whole, to that message |
| CfdpWire.PduDecodedOnly | src/ccsds_cfdp_pdu.c:386-1175 | and a buffer that is decoded to a message has its format |
| CfdpCore.ParseEncoded | src/ccsds_cfdp_entity.c:1393-1482 | a message sent in its own direction is parsed back as itself |
| CfdpSenderRuns.SegmentsEmitted | src/ccsds_cfdp_entity.c:1321-1352 | the read-and-send loop emits segments of the file that tile the range from left to right |
| CfdpSenderRuns.RetransmitEmitted | src/ccsds_cfdp_entity.c:900-997 | retransmission emits only segments of the sender's own file |
| CfdpSenderRuns.SenderConservation | src/ccsds_cfdp_entity.c:625-632 | in every run activations equal terminal events plus one if still active |
| CfdpSenderRuns.OtherTransactionIgnored | src/ccsds_cfdp_entity.c:280-288 | a PDU naming another transaction leaves the sender exactly as it was |
| CfdpSenderRuns.PutBounded | src/ccsds_cfdp_entity.c:1246-1390 | send_file emits at most one EOF |
| CfdpSenderRuns.BoundedSender | src/ccsds_cfdp_entity.c:936-997 | whatever follows, at most 1 + 2 * rounds EOF PDUs, and release by the (rounds + 1)-th due poll |
| CfdpReceiverRuns.FinishOutcome | src/ccsds_cfdp_entity.c:653-713 | receiver_finish commits at most once, only on success, and waits or releases |
| CfdpReceiverRuns.CompleteMeansCovered | src/ccsds_cfdp_ranges.c:75-96 | the completeness test is coverage of the whole file |
| CfdpReceiverRuns.StepHasOutcome | src/ccsds_cfdp_entity.c:1392-1549 | every PDU or poll is one move of the slot with at most one, guarded, commit |
| CfdpReceiverRuns.RunInv | src/ccsds_cfdp_entity.c:715-1177 | ranges stay canonical and inside the stored file in every run |
| CfdpReceiverRuns.ReceiverConservation | src/ccsds_cfdp_entity.c:634-713 | activations equal terminal events plus one if active, and no transaction commits twice |
| CfdpReceiverRuns.CallGuard | src/ccsds_cfdp_entity.c:1050-1145 | commit_tmp is called, whether it succeeds or not, only with full coverage, a good EOF of the right size, and the checksum of the stored file |
| CfdpReceiverRuns.CommitGuard | src/ccsds_cfdp_entity.c:1050-1145 | the same for every file committed, wherever in the new trace entries |
| CfdpReceiverRuns.OtherTransactionIgnored | src/ccsds_cfdp_entity.c:290-343 | a PDU naming another transaction leaves an active slot exactly as it was |
| CfdpReplies.ReceiveEvolves | src/ccsds_cfdp_entity.c:999-1069 | a delivered PDU keeps the partial file, adds its own data, or starts an empty one |
| CfdpReplies.ReceiveReplies | src/ccsds_cfdp_entity.c:565-589 | a Finished that claims delivery is sent only after a commit |
| CfdpReplies.PollReplies | src/ccsds_cfdp_entity.c:1484-1549 | the same for everything a poll repeats |
| CfdpReplies.CompleteExactly | src/ccsds_cfdp_entity.c:1148-1177 | COMPLETE follows a commit exactly when it is not caused by a stray acknowledgement |
| CfdpReplies.StrayAckCompletes | src/ccsds_cfdp_entity.c:1172-1177 | a stray acknowledgement of Finished always reports COMPLETE with nothing committed |
| CfdpSystem.PutEmits | src/ccsds_cfdp_entity.c:1246-1390 | everything send_file emits is true of the file, and success at once only without acknowledgement |
| CfdpSystem.ReceiveServes | src/ccsds_cfdp_entity.c:791-849 | COMPLETE only on a Finished that claims delivery of this transaction |
| CfdpSystem.SourceUnique | src/ccsds_cfdp_entity.c:23-44 | with no number reused, a transaction number identifies its source file |
| CfdpDelivery.NextKeepsInv | src/ccsds_cfdp_entity.c:1246-1549 | every action of the system keeps the system invariant |
| CfdpDelivery.CommitIsSource | src/ccsds_cfdp_entity.c:653-676 | a guarded commit of truthful data commits the source file |
| CfdpDelivery.EndToEndDelivery | src/ccsds_cfdp_entity.c:653-713 | in every run committed files equal their sources byte for byte, and COMPLETE at the sender implies a committed copy |
| CfdpDelivery.EmptyFileNeverCompletes | src/ccsds_cfdp_entity.c:1119-1123 | an acknowledged transfer of an empty file is never reported COMPLETE |
| CfdpExchange.PutSucceeds | src/ccsds_cfdp_entity.c:1246-1390 | send_file emits Metadata, segments that tile the file, and EOF with its checksum, and then waits, or ends at once without acknowledgement |
| CfdpCompletion.NonemptySucceeds | src/ccsds_cfdp_entity.c:653-713 | with nothing lost the transfer of a nonempty file ends with both slots free, one commit, and COMPLETE on both sides |
| CfdpCompletion.CompletesExactly | src/ccsds_cfdp_entity.c:1246-1482 | from any reached state, put and in-order delivery of everything emitted is a run, and ends in COMPLETE with a committed copy exactly when the file is not empty |
| CfdpCompletion.UnacknowledgedSucceeds | src/ccsds_cfdp_entity.c:1246-1390 | without acknowledgement and with nothing lost, both slots are free after the transfer, the receiver has committed, and the sender's status says whether it expected closure |
| CfdpCompletion.UnacknowledgedExactly | src/ccsds_cfdp_entity.c:1246-1482 | from any reached state such a transfer is a run, and commits a copy exactly when the file is not empty |
| CfdpCompletion.EveryFileTransfers | src/ccsds_cfdp_entity.c:1246-1482 | for every nonempty file below 2^32 bytes there is a run from the start that transfers it and reports COMPLETE |
| CfdpRecovery.NakBuilds | src/ccsds_cfdp_entity.c:471-507 | with room for one more range, or a first range at 0, the NAK always builds |
| CfdpRecovery.RetransmitFills | src/ccsds_cfdp_entity.c:900-997 | the sender's answer fills exactly the missing ranges, in order |
| CfdpRecovery.FillStep | src/ccsds_cfdp_entity.c:999-1069 | filling gaps from the left never overflows the range list, and the last segment commits |
| CfdpRecovery.OneRoundRecovery | src/ccsds_cfdp_entity.c:471-507 | one NAK and its retransmissions delivered in order commit the source file |
| CfdpTimers.SenderPollExactly | src/ccsds_cfdp_entity.c:1531-1548 | a poll of the sender does nothing unless due, gives up at the limit, or sends exactly one EOF with no error, the checksum and the size of the file, counts it and re-arms; or ends on a failed send |
| CfdpTimers.RepeatedEofIsTrue | src/ccsds_cfdp_entity.c:1531-1544 | in every reached state the EOF that a due poll repeats carries checksum and size of the file asked to be sent |
| CfdpTimers.NakPollExactly | src/ccsds_cfdp_entity.c:1490-1509 | a due poll of a recovering receiver gives up at the limit, or sends exactly one NAK whose ranges are the complement of what is held, or ends on a NAK that cannot go out |
| CfdpTimers.NakGoesOut | src/ccsds_cfdp_entity.c:471-507 | the NAK goes out whenever it can be built, encoded and accepted |
| CfdpTimers.FinishedPollExactly | src/ccsds_cfdp_entity.c:1511-1529 | a due poll of a waiting receiver gives up at the limit, or sends exactly one Finished with no error and the file retained, or ends on a failed send |
| CfdpTimers.ReceiverGivesUp | src/ccsds_cfdp_entity.c:1490-1529 | if nothing arrives, the (rounds + 1)-th due poll releases the receiver's slot |
| CfdpTimers.VerifyFailure | src/ccsds_cfdp_entity.c:360-423 | a whole file with another checksum is a checksum failure, and a failing or short read is its own status |
| CfdpTimers.FailureReported | src/ccsds_cfdp_entity.c:530-589 | an EOF for a transfer that cannot succeed is answered with ACK and a Finished with the condition code and file status of that failure, the slot is released, nothing is committed |
| CfdpTimers.FailureReaches | src/ccsds_cfdp_entity.c:791-849 | a Finished with a failure is acknowledged and ends the sender's transaction with the status its code stands for |
| CfdpTimers.FailureIsShared | src/ccsds_cfdp_entity.c:530-550 | for filestore, checksum and size failures that is the status the receiver reports |
| CfdpRepair.LostEofRepaired | src/ccsds_cfdp_entity.c:1531-1548 | everything but EOF arrives and one due poll of the sender follows: the receiver commits the file and reports it |
| CfdpRepair.LostEofCompletes | src/ccsds_cfdp_entity.c:1531-1548 | from any reached state, that is a run and ends with the file committed and COMPLETE on both sides |
| CfdpRepair.LostFinishedRepaired | src/ccsds_cfdp_entity.c:1511-1529 | Finished is lost, however often: after one more due poll of the receiver the transfer can still be closed |
| CfdpRepair.LostFinishedCompletes | src/ccsds_cfdp_entity.c:1511-1529 | from any reached state, a transfer whose replies are lost and one due poll of the receiver is a run that ends with COMPLETE on both sides |
| CfdpRepair.LostRepliesRepaired | src/ccsds_cfdp_entity.c:1090-1098 | the sender's timer repairs it too: a repeated EOF makes a waiting receiver send Finished again |
| CfdpRepair.ClosingSucceeds | src/ccsds_cfdp_entity.c:791-849 | a delivered Finished and its acknowledgement free both slots and report COMPLETE on both sides |
| CfdpRepair.LostNakRepaired | src/ccsds_cfdp_entity.c:1490-1509 | the NAK is lost, however often: one more due poll, its NAK and the retransmissions commit the source file |
| CfdpLoss.SomeGathered | src/ccsds_cfdp_entity.c:999-1069 | any choice of segments, in any order and repeated at will, is stored as long as the range list can hold what is there |
| CfdpLoss.EofStalls | src/ccsds_cfdp_entity.c:1071-1146 | EOF while something is missing is acknowledged, a NAK with the exact gaps goes out and recovery is pending |
| CfdpLoss.LostSegmentsComplete | src/ccsds_cfdp_entity.c:1246-1549 | from any reached state: any segments lost, reordered or repeated, the NAK for them lost too, and one due poll of the receiver is a run that ends with the file committed and COMPLETE on both sides |
| CfdpEntity.Entity.constructor | src/ccsds_cfdp_entity.c:1180-1215 | two idle slots, an empty range list and the first transaction number |
| CfdpEntity.Entity.SendRange | src/ccsds_cfdp_entity.c:900-934 | the read-and-send loop does what the state machine specifies |
| CfdpEntity.Entity.SendWhole | src/ccsds_cfdp_entity.c:1321-1360 | the sending loop emits the whole file and its running checksum is that of the file |
| CfdpEntity.Entity.SendFile | src/ccsds_cfdp_entity.c:1246-1390 | send_file updates the sender slot as specified and nothing of the receiver |
| CfdpEntity.Entity.RetransmitRanges | src/ccsds_cfdp_entity.c:976-988 | the loop over requested ranges retransmits as specified |
| CfdpEntity.Entity.HandleNak | src/ccsds_cfdp_entity.c:936-997 | as specified, releasing the slot on every failure |
| CfdpEntity.Entity.HandleFinished | src/ccsds_cfdp_entity.c:791-849 | as specified, acknowledging before the terminal event |
| CfdpEntity.Entity.CheckAck | src/ccsds_cfdp_entity.c:851-881 | an acknowledged EOF is checked and changes nothing |
| CfdpEntity.Entity.VerifyFile | src/ccsds_cfdp_entity.c:360-423 | the recomputed checksum decides, as specified |
| CfdpEntity.Entity.Finish | src/ccsds_cfdp_entity.c:653-713 | close, commit, report and conclude, as specified |
| CfdpEntity.Entity.SendNak | src/ccsds_cfdp_entity.c:471-507 | the NAK of the in-place range list is that of its contents |
| CfdpEntity.Entity.HandleMetadata | src/ccsds_cfdp_entity.c:715-786 | opens a slot as specified, or releases it when the file cannot be opened |
| CfdpEntity.Entity.HandleFileData | src/ccsds_cfdp_entity.c:999-1069 | stores the data, adds the range in place and completes as specified |
| CfdpEntity.Entity.HandleEof | src/ccsds_cfdp_entity.c:1071-1146 | acknowledges, then completes, recovers or fails as specified |
| CfdpEntity.Entity.HandleAck | src/ccsds_cfdp_entity.c:1148-1177 | releases the slot with the recorded status |
| CfdpEntity.Entity.ReceivePdu | src/ccsds_cfdp_entity.c:1392-1482 | a PDU changes only the side it is directed to, and the outbox; the receiver's invariant is kept and every commit call of the object is guarded |
| CfdpEntity.Entity.Poll | src/ccsds_cfdp_entity.c:1484-1549 | the receiver's timers, then the sender's, do to the object what `CfdpTimers` says of them; no commit call |
| TmPackets.MoveConserves | src/ccsds_tm_frame.c:374-464 | packets completed and packets left are the packets held, in order |
| TmPackets.PackFollows | src/ccsds_tm_frame.c:374-464 | packing bytes follows moving packets, and deframing the bytes yields those packets exactly when the field does not end in a packet header of zeros |
| TmPackets.IdleFillDeframes | src/ccsds_tm_frame.c:295-308 | fill, whether an idle packet or zeros, is never taken for a packet |
| TmPackets.IdlePacketFormat | src/ccsds_tm_frame.c:295-308 | the fill is a packet with APID 2047, unsegmented, of the length of the space, and zeros |
| TmPackets.FirstStart | src/ccsds_tm_frame.c:405-441 | the pointer is right behind the packet under way; it is absent exactly when neither a queued packet nor an idle packet starts in the field |
| TmPackets.ZeroHeaderExactly | src/ccsds_tm_frame.c:295-308 | a packet of six zeros and one more byte, alone in a data field, is misread exactly when the field has six bytes |
| TmFrame.RunMatches | src/ccsds_tm_frame.c:803-863 | in every run in which packets find room, the byte queue is the packet queue and nothing admitted is lost, doubled or reordered |
| TmFrame.StreamRecovery | src/ccsds_tm_frame.c:374-464 | a deframer joining anywhere recovers exactly the packets that start from there on, byte for byte, if all found room and no frame ends in a packet header of zeros |
| TmFrame.NonzeroHeadersLegible | src/ccsds_tm_frame.c:295-308 | no frame ends so if no packet admitted has a header of zeros |
| TmFrame.AllRecovered | src/ccsds_tm_frame.c:374-464 | once a channel has drained, a deframer that listened from the start has exactly what was admitted |
| TmFrame.FrameCounters | src/ccsds_tm_frame.c:232-236 | frame counters number the frames of the master and of each virtual channel modulo 256 |
| TmFrame.FrameContents | src/ccsds_tm_frame.c:519-546 | an idle frame of channel 7 exactly when nothing is pending, else a frame of the lowest channel with bytes, with its field and pointer |
| TmFaults.ZeroHeaderLost | src/ccsds_tm_frame.c:295-308 | for every data field length, a run in which a packet with a header of zeros is lost, save one coincidence |
| TmFaults.RefusalHarmless | src/ccsds_tm_frame.c:839-862 | a refused packet leaves the queue as it was exactly when the queue was full |
| TmFaults.RefusalNeverDrains | src/ccsds_tm_frame.c:839-862 | in every run, a packet refused after part of it was taken leaves a channel that does not drain until something is offered to it |
| TmFaults.StarvationBlocks | src/ccsds_tm_frame.c:374-464 | after a cycle without a frame no channel emits one until a packet is offered to the channel that ran dry or a lower one |
| TmFaults.FullQueueStarves | src/ccsds_tm_frame.c:839-862 | a run in which a refused packet blocks the generator |
| TmGenerator.Generating.AddPacket | src/ccsds_tm_frame.c:803-863 | writes an admissible packet as far as the queue has room, and succeeds exactly when all of it fits |
| TmGenerator.Generating.Drain | src/ccsds_tm_frame.c:314-335 | moves exactly the requested bytes from queue to buffer, or empties a queue that holds fewer and fails |
| TmGenerator.Generating.PackField | src/ccsds_tm_frame.c:374-448 | the packing loop and the fill compute the specified data field and pointer, or leave what the specification leaves of a queue that runs dry |
| TmGenerator.Generating.SelectActive | src/ccsds_tm_frame.c:507-517 | the lowest channel with bytes pending |
| TmGenerator.Generating.RunCycle | src/ccsds_tm_frame.c:519-546 | one packet frame or idle frame per cycle, with its counters, or none and the queue as it ran dry |
| Farm.VirtualChannel.UpdateSequence | src/ccsds_profile.c:274-321 | the acceptance test on 8-bit numbers |
| Farm.VirtualChannel.HandleControl | src/ccsds_profile.c:231-272 | UNLOCK and SET V(R) on the object; `Farm.LockoutExactly` and `Farm.UnlockThenSet` say what they bring about |
| Farm.VirtualChannel.Receive | src/ccsds_profile.c:510-610 | reserved types refused, every other frame counted and handled |
| Farm.LockoutPersists | src/ccsds_profile.c:240-291 | lockout lasts, and nothing is accepted, until UNLOCK |
| Farm.LockoutExactly | src/ccsds_profile.c:240-316 | after any run of frames the channel is locked out exactly when it began so or a frame fell outside both half windows, with no UNLOCK (0x00) since |
| Farm.AcceptedFrames | src/ccsds_profile.c:231-321 | in every state, exactly which frames are accepted and what V(R) is after them |
| Farm.UnlockThenSet | src/ccsds_profile.c:231-272 | from every state, after UNLOCK (0x00) and SET V(R) n (0x82 0x00 n) the frame numbered n is accepted and V(R) is n + 1 modulo 256 |
| Farm.FarmBCounts | src/ccsds_profile.c:510-610 | the FARM-B counter counts every frame of a known type modulo 4 |
| Farm.RetransmitExactly | src/ccsds_profile.c:246-320 | retransmission is requested exactly when a frame came ahead of V(R) and nothing has settled it since |
| Farm.ClcwFields | src/ccsds_profile.c:323-351 | every field can be read back from the control word |
| FarmLink.ModularAgrees | src/ccsds_profile.c:293-320 | within half a window the 8-bit test is comparison of unbounded numbers |
| FarmLink.FarmRefines | src/ccsds_profile.c:274-321 | for a window below half, whenever the sender unlocks or restarts: no lockout, and the frames accepted in a service are a gap-free, duplicate-free prefix of those sent |
| FarmLink.AcceptedExactly | src/ccsds_profile.c:293-301 | in every run a delivered frame is accepted exactly when its unbounded number is the next one |
| FarmLink.LocksOutExactly | src/ccsds_profile.c:303-316 | some run of a sender with a given window locks the receiver out exactly when the window reaches half the acceptance window |
| FarmLink.LockedOutRecovers | src/ccsds_profile.c:231-272 | from any state of the link, UNLOCK, a restart at any number and one frame leave a channel that is not locked out and has accepted that frame |
| TcReassembly.SegmentRoundTrip | src/ccsds_tc_segment.c:46-64 | boundary and MAP are read back from the segment header |
| TcReassembly.SegmentFormat | src/ccsds_tc_segment.c:46-64 | a segment is decoded exactly to the flags in the top two bits, the MAP in the other six, and the rest as data |
| TcReassembly.Reassembly.Copy | src/ccsds_profile.c:198-199 | fragments are appended in place |
| TcReassembly.Reassembly.AppendPart | src/ccsds_profile.c:193-229 | appends, completes or drops a packet as specified |
| TcReassembly.Reassembly.Accept | src/ccsds_profile.c:139-229 | one part, as specified |
| TcReassembly.Reassembly.WalkParts | src/ccsds_tc_segment.c:76-137 | the walk over a segment, as specified |
| TcReassembly.RunInProgress | src/ccsds_profile.c:139-229 | an active reassembly holds its fragments in order, whatever came in between |
| TcReassembly.ReassembledExactly | src/ccsds_profile.c:193-229 | a reassembled packet is the concatenation of one FIRST to LAST run on one MAP, of the declared length |
| TcReassembly.SplitReassembles | src/ccsds_profile.c:139-229 | every split of a packet that fits is dispatched once and unchanged |
| TcReassembly.WholePackets | src/ccsds_tc_segment.c:112-137 | an unsegmented segment dispatches exactly its packets, in order |
| ShiftRegisters.BurstSeparates | src/ccsds_crc16.c:40-67 | for any linear register with an invertible step, two messages that differ only in one burst do not both leave zero |
| Crc16.TableEntry | src/ccsds_crc16.c:5-38 | every table entry is its index times x^8 reduced by the generator |
| Crc16.TableStepIsCrc | src/ccsds_crc16.c:44-48 | one table step is the eight bit steps of its byte |
| Crc16.Update | src/ccsds_crc16.c:40-51 | the loop folds its step over the buffer |
| Crc16.ComputeCrc | src/ccsds_crc16.c:53-56 | the table-driven value is the bitwise CRC of the buffer |
| Crc16.TableIsBitwise | src/ccsds_crc16.c:40-51 | table-driven and bitwise CRC agree on every buffer |
| Crc16.CrcIsRemainder | src/ccsds_crc16.c:40-56 | the CRC is the remainder of the message times x^16, start value added, on division by the generator |
| Crc16.AppendChecks | src/ccsds_crc16.c:58-67 | appending the CRC always checks |
| Crc16.BurstRejected | src/ccsds_crc16.c:58-67 | any error confined to 16 consecutive bits of a valid codeword is rejected |
| Bch.LogIsLog | src/ccsds_bch.c:48-62 | x generates all 63 nonzero syndromes |
| Bch.ComputeCheck | src/ccsds_bch.c:26-40 | the first loop computes syndrome and parity |
| Bch.DecodeBlock | src/ccsds_bch.c:8-65 | decodes a block in place as specified, and writes nothing else |
| Bch.SearchNeverFails | src/ccsds_bch.c:50-64 | the search always finds a nonzero syndrome of odd parity |
| Bch.SingleErrorCorrected | src/ccsds_bch.c:26-64 | any one flipped code bit is reported by its index and the data restored |
| Bch.DoubleErrorDetected | src/ccsds_bch.c:42-48 | any two flipped code bits are detected |
| Bch.VerdictMeans | src/ccsds_bch.c:42-64 | a block is clean exactly when syndrome and parity are, and a located bit explains both |
| Bch.LocatedIsCodeword | src/ccsds_bch.c:48-64 | whatever was received, flipping the bit located gives a codeword |
| Bch.EncodeIsCodeword | src/ccsds_bch.c:26-44 | every 56-bit word has a codeword that carries it |
| Bch.CodewordUnique | src/ccsds_bch.c:26-44 | and only one |
| Cltu.HasTail | src/ccsds_cltu.c:15-32 | decides whether the tail sequence is intact |
| Cltu.DecodeMessage | src/ccsds_cltu.c:64-153 | frame, or the reason for rejection, as specified; no length on failure |
| Cltu.CltuCorrects | src/ccsds_cltu.c:119-152 | a unit with at most one flipped bit per block decodes to its payload |
| Cltu.UsableExactly | src/ccsds_cltu.c:119-152 | a block yields given data exactly when it is at most one code bit away from the codeword of that data |
| Cltu.CltuAcceptedExactly | src/ccsds_cltu.c:64-153 | a unit yields a frame exactly when it fits, its start is off by at most one bit, its tail is intact, and each block is at most one code bit away from a codeword |
| Cltu.DoubleErrorRejects | src/ccsds_cltu.c:133-150 | a block with two flipped bits rejects the whole unit |
| Sdls.OddCancels | include/ccsds/ccsds_sdls.h:97-104 | an odd factor cancels modulo a power of two |
| Sdls.IvDistinct | include/ccsds/ccsds_sdls.h:97-104 | counter values fewer than 2^64 uses apart are distinct |
| SdlsEp.FailedCommandUntouched | src/ccsds_sdls_ep.c:1999-2126 | for every byte string a failed command changes no association, key, vector counter or report flag, and its clean-up destroys exactly the handles it imported |
| SdlsEp.CleanUpImported | src/ccsds_sdls_ep.c:1122-1127 | before the commit loop, the clean-up loop destroys every imported handle once |
| SdlsEp.CleanUpNulled | src/ccsds_sdls_ep.c:1105-1127 | after the commit loop, it destroys none |
| SdlsEp.OtarAllOrNone | src/ccsds_sdls_ep.c:1061-1135 | OTAR installs every key or none |
| SdlsEp.OtarHandlesLive | src/ccsds_sdls_ep.c:1105-1127 | after a success no handle in the key table was destroyed, and only replaced ones were |
| SdlsEp.LifecycleAllOrNone | src/ccsds_sdls_ep.c:1138-1185 | activation and deactivation move every recipient or none |
| SdlsRuns.IvsUnique | src/ccsds_sdls.c:401-418 | emitted vectors are pairwise distinct for the first 2^64 uses, in every run |
| SdlsRuns.CommandSpends | src/ccsds_sdls_ep.c:1319-1347 | a command emits consecutive counter values and spends exactly those |
| SdlsRuns.NoReplay | src/ccsds_sdls.c:510-521 | between rekeys accepted sequence numbers strictly increase, each by at most the configured window |
| SdlsRuns.WindowBounded | src/ccsds_sdls_ep.c:1679-1707 | no event moves the window beyond the configured maximum |
| SdlsFrames.AcceptedExactly | src/ccsds_sdls.c:436-555 | a frame is accepted exactly when it is long enough, its SPI is valid and configured, the association is operational in the receiving role with an active key, its sequence number is new and in the window, and it decrypts; only counter, carrier and report change |
| SdlsFrames.RefusedExactly | src/ccsds_sdls.c:261-286 | every other frame is refused for the first condition that fails: associations, keys and vector counter stay, the carrier is not valid, and exactly that failure's flag is raised |
| SdlsFrames.CarrierAuthentic | src/ccsds_sdls.c:534-555 | in every run the carrier is valid exactly when a frame that decrypted was accepted, and no frame or command has come since |
| SdlsFrames.TransmitsExactly | src/ccsds_sdls.c:395-418 | a vector is used exactly when the association can transmit: the counter moves by the stride, the key's sequence number by one, nothing else moves |
| SdlsFrames.FrameFields | src/ccsds_sdls.c:141-216 | SPI, counter and sequence number are read back from the frame that carries them |
| SdlsFrames.PassedOnce | src/ccsds_sdls.c:353-555 | a frame protected at one end is accepted at the other if its sequence number is in the window |
| SdlsFrames.AcceptedInOrder | src/ccsds_sdls.c:353-555 | however many frames are protected and delivered in order, all are accepted exactly as long as the 32-bit sequence number does not wrap |
| SdlsCommands.OnlyCommandsSucceed | src/ccsds_sdls_ep.c:85-133 | only a well-formed PDU of at most the configured size with the tag of a command succeeds |
| SdlsCommands.SaKeyExactly | src/ccsds_sdls_ep.c:1463-1495 | which key an association may be given: present, active, fit for its direction, and shared only with associations of its direction and mode |
| SdlsCommands.StartExactly | src/ccsds_sdls_ep.c:1497-1534 | from the bytes: when Start SA succeeds, and that it makes the association operational and touches nothing else |
| SdlsCommands.StopExactly | src/ccsds_sdls_ep.c:1536-1573 | the same of Stop SA, from operational to stopped |
| SdlsCommands.ExpireExactly | src/ccsds_sdls_ep.c:1536-1583 | the same of Expire SA, from stopped to expired |
| SdlsCommands.RekeyExactly | src/ccsds_sdls_ep.c:1585-1628 | the same of Rekey SA, from expired to stopped: the key is the one named, and a receiving association starts at the sequence number named |
| SdlsCommands.SetArsnExactly | src/ccsds_sdls_ep.c:1630-1677 | the same of Set ARSN: a sequence number that is not behind, and nothing else |
| SdlsCommands.SetWindowExactly | src/ccsds_sdls_ep.c:1679-1707 | the same of Set ARSN Window: a window that is neither zero nor beyond the maximum, and nothing else |
| SdlsCommands.LifecycleLaw | src/ccsds_sdls_ep.c:1497-1628 | in every run an association moves only stopped, operational, stopped, expired, stopped, and its key is the one it began with or the one named by a rekey |
| SdlsKeys.MoveKeysExactly | src/ccsds_sdls_ep.c:1138-1205 | from the bytes: when Key Activation and Deactivation succeed, and that then every key listed is in its new state and nothing else has changed |
| SdlsKeys.CutListRefused | src/ccsds_sdls_ep.c:233-267 | a key list that is cut off inside an entry is refused |
| SdlsKeys.VerifyKeysExactly | src/ccsds_sdls_ep.c:1270-1356 | from the bytes: when Key Verification succeeds, and that it uses one vector per key in order |
| SdlsKeys.ResetExactly | src/ccsds_sdls_ep.c:1971-1997 | Reset Alarm Flag succeeds exactly when it has no data, and lowers all four flags and nothing else |
| SdlsKeys.ReadingChangesNothing | src/ccsds_sdls_ep.c:1709-1781 | the commands that only read change nothing |
| SdlsKeys.ReplaceKeysExactly | src/ccsds_sdls_ep.c:1009-1135 | from the bytes: when OTAR succeeds, and that then every destination holds the key imported for it, not yet active, and nothing else has changed |
| SdlsContext.Security.Protect | src/ccsds_sdls.c:359-434 | the vector is spent even when encryption fails, but emitted only on success |
| SdlsContext.Security.Unprotect | src/ccsds_sdls.c:436-555 | the object accepts, or refuses and reports, as `SdlsFrames.AcceptedExactly` and `SdlsFrames.RefusedExactly` say |
| SdlsContext.Security.CheckDestinations | src/ccsds_sdls_ep.c:1061-1085 | the loop with its table of seen identifiers finds the first error |
| SdlsContext.Security.ImportKeys | src/ccsds_sdls_ep.c:1093-1103 | the import loop fills the array up to the first refusal |
| SdlsContext.Security.InstallKeys | src/ccsds_sdls_ep.c:1105-1113 | the commit loop moves each handle from the array to its slot, and the one it replaces to another array |
| SdlsContext.Security.DestroyReplaced | src/ccsds_sdls_ep.c:1114-1119 | destroys the replaced handles that are volatile |
| SdlsContext.Security.DestroyImported | src/ccsds_sdls_ep.c:1122-1127 | the clean-up loop destroys what the array still holds |
| SdlsContext.Security.ReplaceKeys | src/ccsds_sdls_ep.c:1061-1135 | OTAR after decryption, as specified, with the clean-up loop on every way out |
| SdlsContext.Security.MoveKeys | src/ccsds_sdls_ep.c:1138-1185 | every recipient is checked before any is moved |
| SdlsContext.Security.AnswerChallenges | src/ccsds_sdls_ep.c:1295-1347 | vectors come from a local copy of the counter, committed only when all succeed |
| SdlsContext.Security.CheckSharing | src/ccsds_sdls_ep.c:1483-1494 | the loop over associations that share a key |
| SdlsContext.Security.ProcessRekey | src/ccsds_sdls_ep.c:1585-1628 | the object is rekeyed as `SdlsCommands.RekeyExactly` says |
| SdlsContext.Security.ProcessSetArsn | src/ccsds_sdls_ep.c:1650-1677 | Set ARSN on the object, never backwards, as `SdlsCommands.SetArsnExactly` says |
| SdlsContext.Security.ProcessSetWindow | src/ccsds_sdls_ep.c:1679-1707 | Set ARSN Window on the object, as `SdlsCommands.SetWindowExactly` says |
| SdlsContext.Security.Execute | src/ccsds_sdls_ep.c:1999-2126 | one command PDU, as specified; on an error the tables, the counter and the report are as before |

## Left out

- Re-entrant transports: messages sent are collected in an outbox; a send callback that calls back into the entity is not modelled.
- Calling the CFDP entity's match_or_create and create_sender_transaction entry points directly, the sender completion flags, and file names in events: they only add easy members.
- The receiver's running checksum state: no decision reads it; the stored file is re-read instead.
- A source file that changes while it is being sent; a successful read returns what is stored, and a failing one fails or returns too few or too many bytes.
- TmGenerator.Generating.AddPacket: an admission that cannot get the channel's lock changes nothing and is no event; one that has it keeps the generator out until it ends, so that a full queue stays full until the timeout.
- Telemetry with security enabled, the operational control field, Reed-Solomon parity, randomization, routing masks and the bit layout of the frame header.
- Bch.Encode: the library has no encoder; this one is the reference that the decoder is proved against.
- Streaming CLTU reception, which the library does not implement.
- Crc16.Update: takes the step as an argument, so that one loop serves as the program's; `ComputeCrc` uses it with the table.
- AES-GCM, PSA key attributes and key storage: abstract answers of the outside world.
- The security event log, the encodings of reply PDUs, checking of verification replies on the ground side, and wiping of buffers.
- SdlsContext.Security.constructor: every slot starts alike; loading the configured associations and keys is not modelled.
- UDP and Space Packet adapters, the packet router, samples, logging and statistics, mutexes, work queues and timers.
