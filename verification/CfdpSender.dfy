/**
  The sending side of a CFDP entity: one transaction slot, driven by send_file, by PDUs
  coming back from the receiver, and by polls.  Every call is a function of the state and of
  an `Env` that fixes how the filestore and the transport answered during that call.
 */
module CfdpSender {
  import opened CfdpTypes
  import opened CfdpRanges
  import opened CfdpChecksum
  import opened CfdpPdu
  import opened CfdpCore

  /** The sender's fields of a transaction slot; `file` is the content behind the open handle. */
  datatype Slot = Slot(
    active: bool, id: TxnId, peer: nat, acknowledged: bool, handleOpen: bool, file: seq<byte>,
    eofChecksum: nat, finishedReceived: bool, nakRounds: nat, retries: nat, deadline: nat)

  const IDLE := Slot(false, TxnId(0, 0), 0, true, false, [], 0, false, 0, 0, 0)

  datatype Sender = Sender(
    cfg: Config, ids: Ids, nextSeqno: nat, slot: Slot, out: seq<Message>, trace: seq<Effect>)

  /** Answers of the outside world: opening and reading the source file, accepting the k-th message, the clock. */
  datatype Env = Env(open: Result<seq<byte>>, read: Reader, accept: nat -> bool, clock: Option<nat>)

  datatype PutRequest = PutRequest(
    sourcePath: seq<byte>, destPath: seq<byte>, kind: ChecksumType, closure: bool, acknowledged: bool)

  function HeaderFor(s: Sender, fileData: bool): Header {
    Header(1, fileData, false, !s.slot.acknowledged, false, false, 0, false, false, s.ids.idLen, s.ids.seqLen,
           s.slot.id.source, s.slot.id.seqno, s.slot.peer)
  }

  function Send(s: Sender, m: Message, env: Env): (Sender, Status) {
    var status := SendStatus(s.cfg, m, env.accept(|s.out|));
    (if status == OK then s.(out := s.out + [m]) else s, status)
  }

  function MetadataMessage(s: Sender, request: PutRequest): Message {
    Message(HeaderFor(s, false),
            Metadata(request.closure, request.kind, |s.slot.file|, request.sourcePath, request.destPath))
  }

  function FileDataMessage(s: Sender, offset: nat, len: nat): Message
    requires offset + len <= |s.slot.file|
  {
    Message(HeaderFor(s, true), FileData(offset, s.slot.file[offset..offset + len]))
  }

  function EofMessage(s: Sender): Message {
    Message(HeaderFor(s, false), Eof(NO_ERROR, s.slot.eofChecksum, |s.slot.file|))
  }

  /** release_sender_terminal: one terminal event, then an empty slot. */
  function Release(s: Sender, status: Status): Sender {
    s.(slot := IDLE, trace := s.trace + [Terminal(s.slot.id, status)])
  }

  /** Sending the file from `from` to `to`, segment by segment, as far as reads and sends succeed. */
  function SendSegments(s: Sender, from: nat, until: nat, env: Env): (Sender, Status)
    requires from <= until <= |s.slot.file|
    decreases until - from
  {
    if from == until then (s, OK)
    else
      var request := Request(until, from, s.cfg.maxSegment);
      var got := env.read(from, request);
      if got.Err? then (s, FilestoreRejection)
      else if got.value == 0 || got.value > request then (s, FileSizeError)
      else
        var sent := Send(s, FileDataMessage(s, from, got.value), env);
        if sent.1 != OK then sent else SendSegments(sent.0, from + got.value, until, env)
  }

  function SeqnoModulus(seqLen: nat): nat { if seqLen >= 8 then U64 else Pow256(seqLen) }

  predicate PathValid(cfg: Config, path: seq<byte>) { 0 < |path| <= cfg.lim.maxName }

  predicate RequestValid(cfg: Config, request: PutRequest) {
    PathValid(cfg, request.sourcePath) && PathValid(cfg, request.destPath)
  }

  function Activate(s: Sender, request: PutRequest): Sender {
    var id := TxnId(s.ids.local, s.nextSeqno);
    s.(nextSeqno := (s.nextSeqno + 1) % SeqnoModulus(s.ids.seqLen),
       slot := IDLE.(active := true, id := id, peer := s.ids.remote, acknowledged := request.acknowledged),
       trace := s.trace + [Activated(id)])
  }

  /** The body of send_file after the source file is open: Metadata, the segments, EOF. */
  function Transmit(s: Sender, request: PutRequest, env: Env): (Sender, Status) {
    var a := Send(s, MetadataMessage(s, request), env);
    if a.1 != OK then a
    else
      var b := SendSegments(a.0, 0, |a.0.slot.file|, env);
      if b.1 != OK then b
      else
        var c := b.0.(slot := b.0.slot.(eofChecksum := WholeFile(s.cfg.lib, request.kind, b.0.slot.file)));
        Send(c, EofMessage(c), env)
  }

  function SendFile(s: Sender, request: PutRequest, env: Env): (Sender, Status) {
    if !RequestValid(s.cfg, request) then (s, InvalidArgument)
    else if !Supported(request.kind) then (s, UnsupportedChecksum)
    else if s.slot.active then (s, TransactionBusy)
    else
      var a := Activate(s, request);
      if env.open.Err? || |env.open.value| >= U32 then (Release(a, FilestoreRejection), FilestoreRejection)
      else
        var b := a.(slot := a.slot.(handleOpen := true, file := env.open.value));
        var c := Transmit(b, request, env);
        if c.1 == OK && request.acknowledged then
          (c.0.(slot := c.0.slot.(retries := 0, deadline := ArmRetry(s.cfg, Now(env)))), OK)
        else
          var status := if c.1 == OK && request.closure && env.clock.Some? then InactivityDetected else c.1;
          (Release(c.0, status), status)
  }

  function Now(env: Env): nat { if env.clock.Some? then env.clock.value else 0 }

  predicate Supports(s: Sender, h: Header) {
    && h.source == s.ids.local && h.dest == s.ids.remote && h.idLen == s.ids.idLen && h.seqLen == s.ids.seqLen
    && h.towardSender && !h.crcPresent
  }

  predicate Matches(s: Sender, h: Header) { s.slot.active && s.slot.id == IdOf(h) }

  function FinishedStatus(condition: nat, incomplete: bool): Status {
    if condition == NO_ERROR && !incomplete then OK
    else if condition == 5 then ChecksumFailure
    else if condition == 6 then FileSizeError
    else if condition == 4 then FilestoreRejection
    else CancelRequest
  }

  function AckFinishedMessage(s: Sender, condition: nat): Message {
    Message(HeaderFor(s, false), Ack(5, 1, condition, 2))
  }

  function HandleFinished(s: Sender, h: Header, body: Body, env: Env): (Sender, Status)
    requires body.Finished?
  {
    if !Matches(s, h) then (s, InvalidArgument)
    else
      var outcome := FinishedStatus(body.condition, body.incomplete);
      var a := s.(slot := s.slot.(finishedReceived := true));
      if !a.slot.acknowledged then (a, outcome)
      else
        var sent := Send(a, AckFinishedMessage(a, body.condition), env);
        var final := if sent.1 != OK then sent.1 else outcome;
        (Release(sent.0, final), final)
  }

  function HandleAck(s: Sender, h: Header, body: Body): Status
    requires body.Ack?
  {
    if body.directive != 4 || body.subtype != 0 || h.unacknowledged then Unsupported
    else if !Matches(s, h) then InvalidArgument
    else OK
  }

  /** Retransmitting the requested ranges in order; a range beyond the file aborts. */
  function Retransmit(s: Sender, ranges: seq<Range>, env: Env): (Sender, Status)
    decreases |ranges|
  {
    if ranges == [] then (s, OK)
    else
      var r := ranges[0];
      if r.end > |s.slot.file| then (s, FileSizeError)
      else if !(0 <= r.start <= r.end) then Retransmit(s, ranges[1..], env)
      else
        var sent := SendSegments(s, r.start, r.end, env);
        if sent.1 != OK then sent else Retransmit(sent.0, ranges[1..], env)
  }

  function HandleNak(s: Sender, h: Header, body: Body, env: Env): (Sender, Status)
    requires body.Nak?
  {
    if h.unacknowledged then (s, Unsupported)
    else if !Matches(s, h) then (s, InvalidArgument)
    else if !s.slot.handleOpen then (Release(s, FilestoreRejection), FilestoreRejection)
    else if !s.slot.acknowledged then (Release(s, InvalidTransmissionMode), InvalidTransmissionMode)
    else
      var a := s.(slot := s.slot.(nakRounds := s.slot.nakRounds + 1));
      if a.slot.nakRounds > s.cfg.maxRounds then (Release(a, NakLimitReached), NakLimitReached)
      else if body.scopeStart != 0 || body.scopeEnd != |a.slot.file| then (Release(a, FileSizeError), FileSizeError)
      else
        var b := Retransmit(a, body.ranges, env);
        if b.1 != OK then (Release(b.0, b.1), b.1)
        else
          var c := Send(b.0, EofMessage(b.0), env);
          if c.1 != OK then (Release(c.0, c.1), c.1) else c
  }

  /** receive_pdu for a PDU directed toward the sender. */
  function Receive(s: Sender, incoming: Incoming, env: Env): (Sender, Status) {
    match incoming
    case BadHeader(status) => (s, status)
    case NoDirective(h) => (s, Unsupported)
    case Undecodable(h, status) => if Supports(s, h) then FailIfActive((s, status), h) else (s, Unsupported)
    case Decodable(h, body) =>
      if !Supports(s, h) then (s, Unsupported)
      else match body
      case Finished(_, _, _) => FailIfActive(HandleFinished(s, h, body, env), h)
      case Ack(_, _, _, _) => FailIfActive((s, HandleAck(s, h, body)), h)
      case Nak(_, _, _) => FailIfActive(HandleNak(s, h, body, env), h)
      case _ => FailIfActive((s, Unsupported), h)
  }

  /** A failing handler that left the named transaction active ends it. */
  function FailIfActive(r: (Sender, Status), h: Header): (Sender, Status) {
    if r.1 != OK && Matches(r.0, h) then (Release(r.0, r.1), r.1) else r
  }

  predicate PollDue(s: Sender, now: nat) {
    s.slot.active && s.slot.acknowledged && !s.slot.finishedReceived && RetryDue(s.slot.deadline, now)
  }

  /** The sender's part of poll: resend EOF, or give up after the configured number of rounds. */
  function Poll(s: Sender, now: nat, env: Env): Sender {
    if !PollDue(s, now) then s
    else if s.slot.retries >= s.cfg.maxRounds then Release(s, InactivityDetected)
    else
      var sent := Send(s, EofMessage(s), env);
      if sent.1 != OK then Release(sent.0, sent.1)
      else sent.0.(slot := s.slot.(retries := s.slot.retries + 1, deadline := ArmRetry(s.cfg, now)))
  }
}
