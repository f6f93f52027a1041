/**
  What the sending and the receiving side of a CFDP entity share: configuration,
  transaction identifiers, the trace of observable effects, and how a received buffer is
  classified before any handler sees it.
 */
module CfdpCore {
  import opened CfdpTypes
  import opened CfdpRanges
  import opened CfdpChecksum
  import opened CfdpPdu

  /**
    What an entity is built with: the CRC routines, the PDU encoder (`WireConfig` says it is the
    codec with the configured buffer), and the size and retry limits.
   */
  datatype Config = Config(
    lib: CrcLibrary, encoder: Message -> Result<seq<byte>>, lim: Limits, maxPdu: nat, maxSegment: nat,
    maxRounds: nat, retryInterval: nat)

  function EncodeMessage(lim: Limits, maxPdu: nat, m: Message): Result<seq<byte>> {
    if InTypeRange(m.body) then Encode(lim, m, maxPdu) else Err(InvalidArgument)
  }

  ghost predicate WireConfig(cfg: Config) {
    forall m :: cfg.encoder(m) == EncodeMessage(cfg.lim, cfg.maxPdu, m)
  }

  /** A configuration whose encoder is the codec. */
  function WithCodec(lib: CrcLibrary, lim: Limits, maxPdu: nat, maxSegment: nat, maxRounds: nat, retryInterval: nat): (cfg: Config)
    ensures WireConfig(cfg)
  {
    Config(lib, m => EncodeMessage(lim, maxPdu, m), lim, maxPdu, maxSegment, maxRounds, retryInterval)
  }

  datatype Ids = Ids(local: nat, remote: nat, idLen: nat, seqLen: nat)

  datatype TxnId = TxnId(source: nat, seqno: nat)

  /** Observable effects, in order: activations and terminal events of a slot, and committed files. */
  datatype Effect =
    | Activated(id: TxnId)
    | Terminal(id: TxnId, status: Status)
    | Committed(id: TxnId, path: seq<byte>, content: seq<byte>)

  function IdOf(h: Header): TxnId { TxnId(h.source, h.seqno) }

  function ArmRetry(cfg: Config, now: nat): nat { (now + cfg.retryInterval) % U64 }

  predicate RetryDue(deadline: nat, now: nat) { deadline == 0 || now >= deadline }

  /** The status of handing a message to the transport: encoding may fail, and so may the send callback. */
  function SendStatus(cfg: Config, m: Message, accepted: bool): Status {
    var bytes := cfg.encoder(m);
    if bytes.Err? then bytes.status else if accepted then OK else InvalidArgument
  }

  /** How receive_pdu sees a buffer. */
  datatype Incoming =
    | BadHeader(status: Status)
    | NoDirective(header: Header)
    | Undecodable(header: Header, status: Status)
    | Decodable(header: Header, body: Body)

  predicate DirectiveExpected(towardSender: bool, directive: byte) {
    if towardSender then directive in [DIRECTIVE_FINISHED, DIRECTIVE_ACK, DIRECTIVE_NAK]
    else directive in [DIRECTIVE_METADATA, DIRECTIVE_EOF, DIRECTIVE_ACK]
  }

  function ParseAs(lim: Limits, h: Header, buf: seq<byte>, directive: Option<byte>): Incoming {
    var d := DecodePdu(lim, buf, directive);
    if d.Err? then Undecodable(h, d.status)
    else if d.value.consumed != |buf| then Undecodable(h, Unsupported)
    else Decodable(h, d.value.message.body)
  }

  function Parse(lim: Limits, buf: seq<byte>): Incoming {
    var header := DecodeHeader(lim, buf);
    if header.Err? then BadHeader(header.status)
    else
      var h, at := header.value, HeaderLen(header.value);
      if h.fileData then (if h.towardSender then NoDirective(h) else ParseAs(lim, h, buf, None))
      else if h.dataLen == 0 || |buf| <= at then NoDirective(h)
      else if !DirectiveExpected(h.towardSender, buf[at]) then Undecodable(h, Unsupported)
      else ParseAs(lim, h, buf, Some(buf[at]))
  }

  predicate GoesToward(m: Message) {
    match m.body
    case Metadata(_, _, _, _, _) => !m.header.towardSender
    case FileData(_, _) => !m.header.towardSender
    case Eof(_, _, _) => !m.header.towardSender
    case Finished(_, _, _) => m.header.towardSender
    case Nak(_, _, _) => m.header.towardSender
    case Ack(_, _, _, _) => true
  }

  /** A message sent in its own direction is parsed back as itself. */
  lemma ParseEncoded(cfg: Config, m: Message)
    requires WireConfig(cfg) && cfg.encoder(m).Ok? && GoesToward(m)
    ensures InTypeRange(m.body) && EncodeStatus(cfg.lim, m) == OK
    ensures Parse(cfg.lim, cfg.encoder(m).value)
         == Decodable(Canon(cfg.lim, m).header, Canon(cfg.lim, m).body)
  {
    var lim := cfg.lim;
    assert cfg.encoder(m) == EncodeMessage(lim, cfg.maxPdu, m);
    var bytes := Encode(lim, m, cfg.maxPdu).value;
    PduRoundTrip(lim, m, cfg.maxPdu, []);
    assert bytes + [] == bytes;
    var field := DataField(lim, m);
    var h := m.header.(dataLen := |field|);
    DataFieldLength(lim, m);
    HeaderRoundTrip(lim, h, cfg.maxPdu, field);
    assert bytes[HeaderLen(h)] == field[0];
    FirstOfField(lim, m);
  }

  lemma FirstOfField(lim: Limits, m: Message)
    requires EncodeStatus(lim, m) == OK && InTypeRange(m.body)
    ensures DirectiveOf(m.body).Some? ==> |DataField(lim, m)| > 0 && DataField(lim, m)[0] == DirectiveOf(m.body).value
  {
  }

  // ---- Counting effects ----

  function Activations(trace: seq<Effect>): nat
    decreases |trace|
  {
    if trace == [] then 0
    else Activations(trace[..|trace| - 1]) + if trace[|trace| - 1].Activated? then 1 else 0
  }

  function Terminals(trace: seq<Effect>): nat
    decreases |trace|
  {
    if trace == [] then 0
    else Terminals(trace[..|trace| - 1]) + if trace[|trace| - 1].Terminal? then 1 else 0
  }

  lemma CountAppend(trace: seq<Effect>, e: Effect)
    ensures Activations(trace + [e]) == Activations(trace) + if e.Activated? then 1 else 0
    ensures Terminals(trace + [e]) == Terminals(trace) + if e.Terminal? then 1 else 0
  {
  }

  /** Every activation has ended in exactly one terminal event, except the one still running. */
  predicate Balanced(active: bool, trace: seq<Effect>) {
    Activations(trace) == Terminals(trace) + if active then 1 else 0
  }

  /** Commits since the last activation. */
  function CommitsSince(trace: seq<Effect>): nat
    decreases |trace|
  {
    if trace == [] || trace[|trace| - 1].Activated? then 0
    else CommitsSince(trace[..|trace| - 1]) + if trace[|trace| - 1].Committed? then 1 else 0
  }

  lemma CommitsSinceAppend(trace: seq<Effect>, e: Effect)
    ensures CommitsSince(trace + [e]) == if e.Activated? then 0 else CommitsSince(trace) + if e.Committed? then 1 else 0
  {
  }
}
