/**
  The receiving side of a CFDP entity: one transaction slot, the set of ranges received so
  far, and the temporary file behind the open handle.  Every call is a function of the state
  and of an `Env` that fixes how the filestore and the transport answered during that call.
 */
module CfdpReceiver {
  import opened CfdpTypes
  import opened CfdpRanges
  import opened CfdpChecksum
  import opened CfdpPdu
  import opened CfdpCore

  /** The receiver's fields of a transaction slot; `tmp` is the temporary file behind the handle. */
  datatype Slot = Slot(
    active: bool, id: TxnId, peer: nat, acknowledged: bool, closure: bool, handleOpen: bool, tmp: seq<byte>,
    fileSize: nat, kind: ChecksumType, destPath: seq<byte>, eofReceived: bool, eofChecksum: nat,
    recoveryPending: bool, waiting: bool, retries: nat, deadline: nat, finishedStatus: Status)

  const IDLE := Slot(false, TxnId(0, 0), 0, true, false, false, [], 0, Modular, [], false, 0, false, false, 0, 0, OK)

  /** One call of the filestore's commit, whether it succeeds or not. */
  datatype Call = Call(id: TxnId, path: seq<byte>, content: seq<byte>)

  datatype Receiver = Receiver(
    cfg: Config, ids: Ids, slot: Slot, ranges: seq<Range>, out: seq<Message>, trace: seq<Effect>, calls: seq<Call>)

  /** Answers of the outside world during one call. */
  datatype Env = Env(
    openOk: bool, writeOk: bool, read: Reader, closeOk: bool, commitOk: bool,
    acceptAck: bool, acceptNak: bool, acceptFinished: bool, now: nat)

  // ---- The temporary file ----

  /** Writing at an offset overwrites or extends; a hole reads as zeros. */
  function WriteAt(tmp: seq<byte>, offset: nat, data: seq<byte>): (r: seq<byte>)
    ensures |r| == Max(|tmp|, offset + |data|)
    ensures forall i :: 0 <= i < |r| ==>
                          r[i] == if offset <= i < offset + |data| then data[i - offset] else if i < |tmp| then tmp[i] else 0
  {
    seq(Max(|tmp|, offset + |data|),
        i requires 0 <= i =>
          if offset <= i < offset + |data| then data[i - offset] else if i < |tmp| then tmp[i] else 0)
  }

  /** A read that the filestore refuses is reported as a filestore rejection. */
  function RejectReads(read: Reader): Reader {
    (offset, len) => if read(offset, len).Err? then Err(FilestoreRejection) else read(offset, len)
  }

  /** receiver_verify_complete_file: re-read the temporary file and compare its checksum. */
  function Verify(r: Receiver, expected: nat, env: Env): Status {
    if |r.slot.tmp| < r.slot.fileSize then FileSizeError
    else
      var sum := ReadBack(r.cfg.lib, r.slot.kind, r.slot.tmp[..r.slot.fileSize], r.cfg.maxSegment,
                          RejectReads(env.read), FileSizeError);
      if sum.Err? then sum.status else if sum.value != expected then ChecksumFailure else OK
  }

  /** The test of ccsds_cfdp_ranges_is_complete: one range holds all of [start, end). */
  predicate HasRange(s: seq<Range>, start: int, end: int) {
    exists i :: 0 <= i < |s| && s[i].start <= start && end <= s[i].end
  }

  // ---- Messages ----

  function Reply(r: Receiver): Header {
    Header(1, false, true, !r.slot.acknowledged, false, false, 0, false, false, r.ids.idLen, r.ids.seqLen,
           r.slot.id.source, r.slot.id.seqno, r.ids.local)
  }

  function Send(r: Receiver, m: Message, accepted: bool): (Receiver, Status) {
    var status := SendStatus(r.cfg, m, accepted);
    (if status == OK then r.(out := r.out + [m]) else r, status)
  }

  function ConditionOf(status: Status): nat {
    match status
    case FilestoreRejection => 4
    case ChecksumFailure => 5
    case FileSizeError => 6
    case NakLimitReached => 7
    case OK => NO_ERROR
    case _ => 15
  }

  function FileStatusOf(status: Status): nat {
    if status == OK then 2 else if status == FilestoreRejection then 1 else 0
  }

  function FinishedMessage(r: Receiver, status: Status): Message {
    Message(Reply(r), Finished(ConditionOf(status), status != OK, FileStatusOf(status)))
  }

  function AckEofMessage(r: Receiver, condition: nat): Message {
    Message(Reply(r), Ack(4, 0, condition, 1))
  }

  function NakMessage(r: Receiver, missing: seq<Range>): Message {
    Message(Reply(r), Nak(0, r.slot.fileSize, missing))
  }

  /** send_nak_for_missing_ranges. */
  function SendNak(r: Receiver, env: Env): (Receiver, Status) {
    if r.slot.fileSize == 0 then (r, InvalidArgument)
    else
      var missing := Gaps(r.ranges, 0, r.slot.fileSize);
      if |missing| > r.cfg.lim.maxNakRanges then (r, NakLimitReached)
      else Send(r, NakMessage(r, missing), env.acceptNak)
  }

  // ---- Ending a transaction ----

  function Release(r: Receiver, status: Status): Receiver {
    r.(slot := IDLE, ranges := [], trace := r.trace + [Terminal(r.slot.id, status)])
  }

  /** Closing the handle and committing the temporary file, or discarding it on failure. */
  function CloseAndCommit(r: Receiver, status: Status, env: Env): (Receiver, Status) {
    var closed := if r.slot.handleOpen && !env.closeOk && status == OK then FilestoreRejection else status;
    var a := r.(slot := r.slot.(handleOpen := false));
    if closed != OK then (a, closed)
    else
      var b := a.(calls := a.calls + [Call(r.slot.id, r.slot.destPath, r.slot.tmp)]);
      if env.commitOk then (b.(trace := b.trace + [Committed(r.slot.id, r.slot.destPath, r.slot.tmp)]), OK)
      else (b, FilestoreRejection)
  }

  /** Finished goes out when the transaction asked for it. */
  function Report(r: Receiver, status: Status, env: Env): (Receiver, Status) {
    if r.slot.closure
    then Send(r.(slot := r.slot.(finishedStatus := status)), FinishedMessage(r, status), env.acceptFinished)
    else (r, OK)
  }

  /** In acknowledged mode a reported end waits for its acknowledgement; any other end releases the slot. */
  function Conclude(r: Receiver, status: Status, sent: Status, env: Env): (Receiver, Status) {
    var final := if status == OK then sent else status;
    if !r.slot.acknowledged then (Release(r, final), final)
    else if sent == OK then
      (r.(slot := r.slot.(recoveryPending := false, waiting := true, retries := 0, deadline := ArmRetry(r.cfg, env.now))),
       status)
    else (Release(r, sent), final)
  }

  /** receiver_finish. */
  function EndTransaction(r: Receiver, status: Status, env: Env): (Receiver, Status) {
    var a := CloseAndCommit(r, status, env);
    var b := Report(a.0, a.1, env);
    Conclude(b.0, a.1, b.1, env)
  }

  // ---- Handlers ----

  predicate Supports(r: Receiver, h: Header) {
    && h.dest == r.ids.local && h.source == r.ids.remote && h.idLen == r.ids.idLen && h.seqLen == r.ids.seqLen
    && !h.towardSender && !h.crcPresent
  }

  predicate Matches(r: Receiver, h: Header) { r.slot.active && r.slot.id == IdOf(h) }

  function MatchStatus(r: Receiver, h: Header): Status {
    if !r.slot.active then InvalidArgument else if r.slot.id != IdOf(h) then TransactionBusy else OK
  }

  function OpenSlot(h: Header, body: Body): Slot
    requires body.Metadata?
  {
    IDLE.(active := true, id := IdOf(h), peer := h.source, acknowledged := !h.unacknowledged,
          closure := body.closure || !h.unacknowledged, handleOpen := true, fileSize := body.fileSize,
          kind := body.kind, destPath := body.destName)
  }

  function HandleMetadata(r: Receiver, h: Header, body: Body, env: Env): (Receiver, Status)
    requires body.Metadata?
  {
    if r.slot.active then (r, if r.slot.id == IdOf(h) then InvalidArgument else TransactionBusy)
    else if !Supported(body.kind) then (r, UnsupportedChecksum)
    else
      var a := r.(slot := OpenSlot(h, body), ranges := [], trace := r.trace + [Activated(IdOf(h))]);
      if env.openOk then (a, OK) else (Release(a, FilestoreRejection), FilestoreRejection)
  }

  /** Adding a received range; a full list refuses. */
  function AddRange(r: Receiver, start: nat, end: nat): (Receiver, Status) {
    if start >= end then (r, InvalidArgument)
    else if |Insert(r.ranges, Range(start, end))| > r.cfg.lim.maxNakRanges then (r, BufferTooSmall)
    else (r.(ranges := Insert(r.ranges, Range(start, end))), OK)
  }

  /** The data of a File Data PDU is stored: after an EOF, it may complete the file. */
  function CompleteIfWhole(r: Receiver, env: Env): (Receiver, Status) {
    if !(r.slot.eofReceived && r.slot.acknowledged) then (r, OK)
    else if r.slot.fileSize == 0 then EndTransaction(r, InvalidArgument, env)
    else if HasRange(r.ranges, 0, r.slot.fileSize) then EndTransaction(r, Verify(r, r.slot.eofChecksum, env), env)
    else (r, OK)
  }

  function HandleFileData(r: Receiver, h: Header, body: Body, env: Env): (Receiver, Status)
    requires body.FileData?
  {
    var end := body.offset + |body.data|;
    if MatchStatus(r, h) != OK then (r, MatchStatus(r, h))
    else if end >= U32 || end > r.slot.fileSize then (r, FileSizeError)
    else if !r.slot.handleOpen || !env.writeOk then (r, FilestoreRejection)
    else
      var a := r.(slot := r.slot.(tmp := WriteAt(r.slot.tmp, body.offset, body.data)));
      var b := AddRange(a, body.offset, end);
      if b.1 != OK then b else CompleteIfWhole(b.0, env)
  }

  /** The part of receiver_handle_eof after a good EOF has been acknowledged. */
  function CompleteOrRecover(r: Receiver, env: Env): (Receiver, Status) {
    if r.slot.fileSize == 0 then EndTransaction(r, InvalidArgument, env)
    else if HasRange(r.ranges, 0, r.slot.fileSize) then EndTransaction(r, Verify(r, r.slot.eofChecksum, env), env)
    else if !r.slot.acknowledged then EndTransaction(r, FileSizeError, env)
    else
      var a := r.(slot := r.slot.(eofReceived := true));
      var b := SendNak(a, env);
      if b.1 != OK then EndTransaction(b.0, b.1, env)
      else (b.0.(slot := b.0.slot.(recoveryPending := true, retries := 0, deadline := ArmRetry(r.cfg, env.now))), OK)
  }

  function HandleEof(r: Receiver, h: Header, body: Body, env: Env): (Receiver, Status)
    requires body.Eof?
  {
    if MatchStatus(r, h) != OK then (r, MatchStatus(r, h))
    else if r.slot.waiting then Send(r, FinishedMessage(r, r.slot.finishedStatus), env.acceptFinished)
    else
      var a := r.(slot := r.slot.(eofChecksum := body.checksum));
      var b := if r.slot.acknowledged then Send(a, AckEofMessage(a, body.condition), env.acceptAck) else (a, OK);
      if body.condition != NO_ERROR || body.size != r.slot.fileSize then EndTransaction(b.0, FileSizeError, env)
      else if b.1 != OK then b
      else CompleteOrRecover(b.0, env)
  }

  function HandleAck(r: Receiver, h: Header, body: Body): (Receiver, Status)
    requires body.Ack?
  {
    if body.directive != 5 || body.subtype != 1 || h.unacknowledged then (r, Unsupported)
    else if !Matches(r, h) then (r, InvalidArgument)
    else (Release(r, r.slot.finishedStatus), OK)
  }

  function FailIfActive(x: (Receiver, Status), h: Header): (Receiver, Status) {
    if x.1 != OK && Matches(x.0, h) then (Release(x.0, x.1), x.1) else x
  }

  /** receive_pdu for a PDU directed toward the receiver. */
  function Receive(r: Receiver, incoming: Incoming, env: Env): (Receiver, Status) {
    match incoming
    case BadHeader(status) => (r, status)
    case NoDirective(h) => (r, if Supports(r, h) then MalformedPdu else Unsupported)
    case Undecodable(h, status) => if Supports(r, h) then FailIfActive((r, status), h) else (r, Unsupported)
    case Decodable(h, body) =>
      if !Supports(r, h) then (r, Unsupported)
      else FailIfActive(Handle(r, h, body, env), h)
  }

  function Handle(r: Receiver, h: Header, body: Body, env: Env): (Receiver, Status) {
    match body
    case Metadata(_, _, _, _, _) => HandleMetadata(r, h, body, env)
    case FileData(_, _) => HandleFileData(r, h, body, env)
    case Eof(_, _, _) => HandleEof(r, h, body, env)
    case Ack(_, _, _, _) => HandleAck(r, h, body)
    case _ => (r, Unsupported)
  }

  /** First part of poll: repeat the NAK while recovering, or give up. */
  function PollRecovery(r: Receiver, now: nat, env: Env): Receiver {
    if !(r.slot.active && r.slot.acknowledged && r.slot.recoveryPending && RetryDue(r.slot.deadline, now)) then r
    else if r.slot.retries >= r.cfg.maxRounds then Release(r, InactivityDetected)
    else
      var sent := SendNak(r, env);
      if sent.1 != OK then Release(sent.0, sent.1)
      else sent.0.(slot := r.slot.(retries := r.slot.retries + 1, deadline := ArmRetry(r.cfg, now)))
  }

  /** Second part of poll: repeat Finished while its acknowledgement is awaited, or give up. */
  function PollFinished(r: Receiver, now: nat, env: Env): Receiver {
    if !(r.slot.active && r.slot.acknowledged && r.slot.waiting && RetryDue(r.slot.deadline, now)) then r
    else if r.slot.retries >= r.cfg.maxRounds then Release(r, InactivityDetected)
    else
      var sent := Send(r, FinishedMessage(r, r.slot.finishedStatus), env.acceptFinished);
      if sent.1 != OK then Release(sent.0, sent.1)
      else sent.0.(slot := r.slot.(retries := r.slot.retries + 1, deadline := ArmRetry(r.cfg, now)))
  }

  function Poll(r: Receiver, now: nat, env: Env): Receiver {
    PollFinished(PollRecovery(r, now, env), now, env)
  }
}
