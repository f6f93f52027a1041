/**
  CFDP protocol data units: the fixed header and the six PDU bodies the entity exchanges,
  with their big-endian wire form.
 */
module CfdpPdu {
  import opened CfdpTypes
  import opened Sequences
  import opened CfdpRanges

  /** Build-time limits the codec checks against. */
  datatype Limits = Limits(maxIdLen: nat, maxSeqLen: nat, maxName: nat, maxNakRanges: nat)

  datatype Header = Header(
    version: nat, fileData: bool, towardSender: bool, unacknowledged: bool, crcPresent: bool, largeFile: bool,
    dataLen: nat, boundariesPreserved: bool, segmentMetadata: bool, idLen: nat, seqLen: nat,
    source: nat, seqno: nat, dest: nat)

  datatype Body =
    | Metadata(closure: bool, kind: ChecksumType, fileSize: nat, sourceName: seq<byte>, destName: seq<byte>)
    | FileData(offset: nat, data: seq<byte>)
    | Eof(condition: nat, checksum: nat, size: nat)
    | Finished(condition: nat, incomplete: bool, fileStatus: nat)
    | Ack(directive: nat, subtype: nat, condition: nat, txnStatus: nat)
    | Nak(scopeStart: nat, scopeEnd: nat, ranges: seq<Range>)

  datatype Message = Message(header: Header, body: Body)

  const NO_ERROR: nat := 0
  const DIRECTIVE_EOF: byte := 4
  const DIRECTIVE_FINISHED: byte := 5
  const DIRECTIVE_ACK: byte := 6
  const DIRECTIVE_METADATA: byte := 7
  const DIRECTIVE_NAK: byte := 8

  // ---- Big-endian integers ----

  function Pow256(n: nat): (p: nat)
    ensures p >= 1
  {
    if n == 0 then 1 else 256 * Pow256(n - 1)
  }

  /** The low n bytes of a value, most significant first. */
  function PutBe(value: nat, n: nat): (s: seq<byte>)
    ensures |s| == n
  {
    if n == 0 then [] else PutBe(value / 256, n - 1) + [value % 256]
  }

  function GetBe(s: seq<byte>): nat
    decreases |s|
  {
    if s == [] then 0 else GetBe(s[..|s| - 1]) * 256 + s[|s| - 1] as int
  }

  predicate Fits(value: nat, n: nat) {
    value < Pow256(n)
  }

  lemma {:induction false} GetPut(value: nat, n: nat)
    requires Fits(value, n)
    ensures GetBe(PutBe(value, n)) == value
  {
    if n > 0 {
      GetPut(value / 256, n - 1);
      assert PutBe(value, n)[..n - 1] == PutBe(value / 256, n - 1);
    }
  }

  lemma {:induction false} PutGet(s: seq<byte>)
    ensures Fits(GetBe(s), |s|) && PutBe(GetBe(s), |s|) == s
    decreases |s|
  {
    if s != [] {
      PutGet(s[..|s| - 1]);
    }
  }

  lemma Pow256Values()
    ensures Pow256(1) == 0x100 && Pow256(2) == 0x1_0000 && Pow256(4) == 0x1_0000_0000
  {
  }

  // ---- Fixed header ----

  predicate LengthsValid(lim: Limits, h: Header) {
    1 <= h.idLen <= lim.maxIdLen && h.idLen <= 8 && 1 <= h.seqLen <= lim.maxSeqLen && h.seqLen <= 8
  }

  function HeaderLen(h: Header): nat {
    4 + 2 * h.idLen + h.seqLen
  }

  function Bit(b: bool, weight: nat): nat { if b then weight else 0 }

  function FirstByte(h: Header): nat {
    h.version * 32 + Bit(h.fileData, 16) + Bit(h.towardSender, 8) + Bit(h.unacknowledged, 4) + Bit(h.crcPresent, 2)
    + Bit(h.largeFile, 1)
  }

  function FourthByte(h: Header): nat
    requires h.idLen >= 1 && h.seqLen >= 1
  {
    Bit(h.boundariesPreserved, 128) + (h.idLen - 1) * 16 + Bit(h.segmentMetadata, 8) + (h.seqLen - 1)
  }

  /** The header layout: flags, data field length, lengths, then the three variable-length integers. */
  function Layout(first: byte, len: seq<byte>, fourth: byte, source: seq<byte>, seqno: seq<byte>, dest: seq<byte>): seq<byte> {
    [first] + len + [fourth] + source + seqno + dest
  }

  function EncodeHeader(lim: Limits, h: Header, cap: nat): Result<seq<byte>> {
    if h.version != 1 then Err(InvalidArgument)
    else if h.largeFile then Err(Unsupported)
    else if !LengthsValid(lim, h) || !Fits(h.source, h.idLen) || !Fits(h.seqno, h.seqLen) || !Fits(h.dest, h.idLen)
    then Err(InvalidArgument)
    else if cap < HeaderLen(h) then Err(BufferTooSmall)
    else Ok(Layout(FirstByte(h), PutBe(h.dataLen, 2), FourthByte(h),
                   PutBe(h.source, h.idLen), PutBe(h.seqno, h.seqLen), PutBe(h.dest, h.idLen)))
  }

  predicate Odd(n: nat) { n % 2 == 1 }

  function IdLenOf(fourth: byte): nat { fourth / 16 % 8 + 1 }

  function SeqLenOf(fourth: byte): nat { fourth % 8 + 1 }

  /** The header whose layout has the given parts. */
  function FromLayout(first: byte, len: seq<byte>, fourth: byte, source: seq<byte>, seqno: seq<byte>, dest: seq<byte>): Header {
    Header(1, Odd(first / 16), Odd(first / 8), Odd(first / 4), Odd(first / 2), false,
           GetBe(len), Odd(fourth / 128), Odd(fourth / 8), IdLenOf(fourth), SeqLenOf(fourth),
           GetBe(source), GetBe(seqno), GetBe(dest))
  }

  /** The header at the front of a buffer; its length is `HeaderLen` of the result. */
  function DecodeHeader(lim: Limits, buf: seq<byte>): Result<Header> {
    if |buf| < 4 then Err(MalformedPdu)
    else if buf[0] / 32 != 1 || Odd(buf[0]) then Err(Unsupported)
    else
      var i, q := IdLenOf(buf[3]), SeqLenOf(buf[3]);
      if i > lim.maxIdLen || q > lim.maxSeqLen then Err(Unsupported)
      else if |buf| < 4 + 2 * i + q then Err(MalformedPdu)
      else Ok(FromLayout(buf[0], buf[1..3], buf[3], buf[4..4 + i], buf[4 + i..4 + i + q], buf[4 + i + q..4 + 2 * i + q]))
  }

  lemma FirstByteFields(h: Header)
    requires h.version == 1 && !h.largeFile
    ensures FirstByte(h) < 256
    ensures var b := FirstByte(h);
            b / 32 == 1 && !Odd(b) && Odd(b / 16) == h.fileData && Odd(b / 8) == h.towardSender
            && Odd(b / 4) == h.unacknowledged && Odd(b / 2) == h.crcPresent
  {
  }

  lemma FourthByteFields(h: Header)
    requires 1 <= h.idLen <= 8 && 1 <= h.seqLen <= 8
    ensures FourthByte(h) < 256
    ensures var b := FourthByte(h);
            IdLenOf(b) == h.idLen && SeqLenOf(b) == h.seqLen
            && Odd(b / 128) == h.boundariesPreserved && Odd(b / 8) == h.segmentMetadata
  {
    var b, high, ids, meta := FourthByte(h), Bit(h.boundariesPreserved, 1), h.idLen - 1, Bit(h.segmentMetadata, 1);
    assert b == 16 * (8 * high + ids) + 8 * meta + (h.seqLen - 1);
    assert b / 16 == 8 * high + ids && b / 8 == 2 * (8 * high + ids) + meta && b / 128 == high;
  }

  /** Cutting a header layout back into its parts. */
  lemma LayoutParts(a: byte, len: seq<byte>, b: byte, x: seq<byte>, y: seq<byte>, z: seq<byte>, rest: seq<byte>)
    requires |len| == 2
    ensures var buf := Layout(a, len, b, x, y, z) + rest;
            var i, j := 4 + |x|, 4 + |x| + |y|;
            |buf| == j + |z| + |rest| && buf[0] == a && buf[3] == b && buf[1..3] == len
            && buf[4..i] == x && buf[i..j] == y && buf[j..j + |z|] == z
  {
  }

  lemma DecodeLayout(lim: Limits, a: byte, len: seq<byte>, b: byte, x: seq<byte>, y: seq<byte>, z: seq<byte>, rest: seq<byte>)
    requires |len| == 2 && a / 32 == 1 && !Odd(a)
    requires |x| == |z| == IdLenOf(b) <= lim.maxIdLen && |y| == SeqLenOf(b) <= lim.maxSeqLen
    ensures DecodeHeader(lim, Layout(a, len, b, x, y, z) + rest) == Ok(FromLayout(a, len, b, x, y, z))
  {
    LayoutParts(a, len, b, x, y, z, rest);
  }

  lemma FromLayoutOf(h: Header)
    requires h.version == 1 && !h.largeFile && 1 <= h.idLen <= 8 && 1 <= h.seqLen <= 8 && h.dataLen < U16
    requires Fits(h.source, h.idLen) && Fits(h.seqno, h.seqLen) && Fits(h.dest, h.idLen)
    ensures FirstByte(h) < 256 && FourthByte(h) < 256
    ensures FromLayout(FirstByte(h), PutBe(h.dataLen, 2), FourthByte(h),
                       PutBe(h.source, h.idLen), PutBe(h.seqno, h.seqLen), PutBe(h.dest, h.idLen)) == h
  {
    FirstByteFields(h);
    FourthByteFields(h);
    GetPut(h.dataLen, 2) by { Pow256Values(); }
    GetPut(h.source, h.idLen);
    GetPut(h.seqno, h.seqLen);
    GetPut(h.dest, h.idLen);
  }

  /** Decoding an encoded header, whatever follows it, returns the header. */
  lemma HeaderRoundTrip(lim: Limits, h: Header, cap: nat, rest: seq<byte>)
    requires EncodeHeader(lim, h, cap).Ok? && h.dataLen < U16
    ensures |EncodeHeader(lim, h, cap).value| == HeaderLen(h)
    ensures DecodeHeader(lim, EncodeHeader(lim, h, cap).value + rest) == Ok(h)
  {
    FirstByteFields(h);
    FourthByteFields(h);
    FromLayoutOf(h);
    DecodeLayout(lim, FirstByte(h), PutBe(h.dataLen, 2), FourthByte(h),
                 PutBe(h.source, h.idLen), PutBe(h.seqno, h.seqLen), PutBe(h.dest, h.idLen), rest);
  }

  /** Encoding a decoded header gives back exactly the accepted bytes. */
  lemma HeaderBytesRoundTrip(lim: Limits, buf: seq<byte>, cap: nat)
    requires DecodeHeader(lim, buf).Ok? && cap >= HeaderLen(DecodeHeader(lim, buf).value)
    ensures var h := DecodeHeader(lim, buf).value;
            EncodeHeader(lim, h, cap) == Ok(buf[..HeaderLen(h)])
  {
    var i, q := IdLenOf(buf[3]), SeqLenOf(buf[3]);
    var a, len, b, x, y, z := buf[0], buf[1..3], buf[3], buf[4..4 + i], buf[4 + i..4 + i + q], buf[4 + i + q..4 + 2 * i + q];
    HeaderConcat(buf, i, q);
    var h := FromLayout(a, len, b, x, y, z);
    assert DecodeHeader(lim, buf) == Ok(h) && HeaderLen(h) == 4 + 2 * i + q;
    EncodeFromLayout(lim, a, len, b, x, y, z, cap);
  }

  lemma EncodeFromLayout(lim: Limits, a: byte, len: seq<byte>, b: byte, x: seq<byte>, y: seq<byte>, z: seq<byte>, cap: nat)
    requires |len| == 2 && a / 32 == 1 && !Odd(a) && cap >= 4 + 2 * |x| + |y|
    requires |x| == |z| == IdLenOf(b) <= lim.maxIdLen && |y| == SeqLenOf(b) <= lim.maxSeqLen
    ensures EncodeHeader(lim, FromLayout(a, len, b, x, y, z), cap) == Ok(Layout(a, len, b, x, y, z))
  {
    var h := FromLayout(a, len, b, x, y, z);
    PutGet(len);
    PutGet(x);
    PutGet(y);
    PutGet(z);
    FirstByteRebuilt(a, h);
    FourthByteRebuilt(b, h);
  }

  lemma FirstByteRebuilt(b: byte, h: Header)
    requires b / 32 == 1 && !Odd(b) && h.version == 1 && !h.largeFile
    requires h.fileData == Odd(b / 16) && h.towardSender == Odd(b / 8)
    requires h.unacknowledged == Odd(b / 4) && h.crcPresent == Odd(b / 2)
    ensures FirstByte(h) == b
  {
  }

  lemma FourthByteRebuilt(b: byte, h: Header)
    requires h.idLen == IdLenOf(b) && h.seqLen == SeqLenOf(b)
    requires h.boundariesPreserved == Odd(b / 128) && h.segmentMetadata == Odd(b / 8)
    ensures FourthByte(h) == b
  {
    var halves, nibbles, eighths := b / 128, b / 16, b / 8;
    assert nibbles == 8 * halves + nibbles % 8 && eighths == 2 * nibbles + eighths % 2 && b == 8 * eighths + b % 8;
    assert Bit(h.boundariesPreserved, 128) == 128 * halves;
    assert Bit(h.segmentMetadata, 8) == 8 * (eighths % 2);
  }

  lemma HeaderConcat(buf: seq<byte>, i: nat, q: nat)
    requires |buf| >= 4 + 2 * i + q
    ensures Layout(buf[0], buf[1..3], buf[3], buf[4..4 + i], buf[4 + i..4 + i + q], buf[4 + i + q..4 + 2 * i + q])
         == buf[..4 + 2 * i + q]
  {
  }

  // ---- Bodies ----

  function ChecksumCode(kind: ChecksumType): nat {
    match kind
    case Modular => 0
    case Crc32c => 2
    case Ieee8023 => 3
    case NullChecksum => 15
    case OtherChecksum(code) => code
  }

  function ChecksumOf(code: nat): ChecksumType {
    if code == 0 then Modular else if code == 2 then Crc32c else if code == 3 then Ieee8023
    else if code == 15 then NullChecksum else OtherChecksum(code)
  }

  predicate NameValid(lim: Limits, name: seq<byte>) {
    0 < |name| <= lim.maxName && |name| < 256
  }

  /** A length-value field. */
  function Lv(name: seq<byte>): seq<byte>
    requires |name| < 256
  {
    [|name|] + name
  }

  predicate AckValid(directive: nat, subtype: nat) {
    (directive == 5 && subtype == 1) || (directive == 4 && subtype == 0)
  }

  predicate NakValid(lim: Limits, scopeStart: nat, scopeEnd: nat, ranges: seq<Range>) {
    && scopeStart < scopeEnd && |ranges| <= lim.maxNakRanges
    && forall i :: 0 <= i < |ranges| ==> scopeStart <= ranges[i].start < ranges[i].end <= scopeEnd
  }

  function NakBytes(ranges: seq<Range>): (s: seq<byte>)
    requires forall i :: 0 <= i < |ranges| ==> 0 <= ranges[i].start && 0 <= ranges[i].end
    ensures |s| == 8 * |ranges|
    decreases |ranges|
  {
    if ranges == [] then [] else PutBe(ranges[0].start, 4) + PutBe(ranges[0].end, 4) + NakBytes(ranges[1..])
  }

  function NakRanges(s: seq<byte>): (ranges: seq<Range>)
    requires |s| % 8 == 0
    ensures |ranges| == |s| / 8
    decreases |s|
  {
    if s == [] then [] else [Range(GetBe(s[..4]), GetBe(s[4..8]))] + NakRanges(s[8..])
  }

  /** Whether the fields of a body hold values of their declared C types. */
  predicate InTypeRange(body: Body) {
    match body
    case Metadata(_, kind, size, src, dst) => size < U32 && |src| < 256 && |dst| < 256
    case FileData(offset, data) => offset < U32
    case Eof(_, checksum, size) => checksum < U32 && size < U32
    case Finished(_, _, _) => true
    case Ack(_, _, _, _) => true
    case Nak(s, e, ranges) =>
      s < U32 && e < U32 && forall i :: 0 <= i < |ranges| ==> 0 <= ranges[i].start < U32 && 0 <= ranges[i].end < U32
  }

  /** The validity checks of the encoders, in their order. */
  function EncodeStatus(lim: Limits, m: Message): Status {
    if m.header.fileData != m.body.FileData? || m.header.segmentMetadata then InvalidArgument
    else match m.body
    case Metadata(_, kind, _, src, dst) =>
      if m.header.largeFile then InvalidArgument
      else if kind.OtherChecksum? then UnsupportedChecksum
      else if !NameValid(lim, src) || !NameValid(lim, dst) then InvalidArgument
      else OK
    case FileData(_, data) =>
      if m.header.largeFile then Unsupported
      else if data == [] || |data| > U16 - 1 - 4 then InvalidArgument
      else OK
    case Eof(condition, _, _) =>
      if m.header.largeFile then Unsupported else if condition > 15 then InvalidArgument else OK
    case Finished(condition, _, fileStatus) =>
      if m.header.largeFile then Unsupported else if condition > 15 || fileStatus > 3 then InvalidArgument else OK
    case Ack(directive, subtype, condition, txnStatus) =>
      if !AckValid(directive, subtype) || condition > 15 || txnStatus > 3 then InvalidArgument
      else if m.header.largeFile then Unsupported
      else OK
    case Nak(s, e, ranges) =>
      if m.header.largeFile then Unsupported
      else if !NakValid(lim, s, e, ranges) || 9 + 8 * |ranges| > U16 - 1 then InvalidArgument
      else OK
  }

  /** The data field of a PDU. */
  function DataField(lim: Limits, m: Message): (s: seq<byte>)
    requires EncodeStatus(lim, m) == OK && InTypeRange(m.body)
  {
    match m.body
    case Metadata(closure, kind, size, src, dst) =>
      [DIRECTIVE_METADATA, Bit(closure && m.header.unacknowledged, 64) + ChecksumCode(kind)]
      + PutBe(size, 4) + (Lv(src) + Lv(dst))
    case FileData(offset, data) => PutBe(offset, 4) + data
    case Eof(condition, checksum, size) => [DIRECTIVE_EOF, condition * 16] + PutBe(checksum, 4) + PutBe(size, 4)
    case Finished(condition, incomplete, fileStatus) =>
      [DIRECTIVE_FINISHED, condition * 16 + Bit(incomplete, 4) + fileStatus]
    case Ack(directive, subtype, condition, txnStatus) =>
      [DIRECTIVE_ACK, directive * 16 + subtype, condition * 16 + txnStatus]
    case Nak(s, e, ranges) => [DIRECTIVE_NAK] + PutBe(s, 4) + PutBe(e, 4) + NakBytes(ranges)
  }

  function Encode(lim: Limits, m: Message, cap: nat): Result<seq<byte>>
    requires InTypeRange(m.body)
  {
    if EncodeStatus(lim, m) != OK then Err(EncodeStatus(lim, m))
    else
      var field := DataField(lim, m);
      var header := EncodeHeader(lim, m.header.(dataLen := |field|), cap);
      if header.Err? then header
      else if cap < |header.value| + |field| then Err(BufferTooSmall)
      else Ok(header.value + field)
  }

  /** What a decoder returns for an encoded message: the length is derived, closure is implied in acknowledged mode. */
  function Canon(lim: Limits, m: Message): Message
    requires EncodeStatus(lim, m) == OK && InTypeRange(m.body)
  {
    var header := m.header.(dataLen := |DataField(lim, m)|);
    Message(header, if m.body.Metadata? then m.body.(closure := m.body.closure && m.header.unacknowledged) else m.body)
  }

  // ---- Decoding ----

  function LvLen(s: seq<byte>): Result<nat> {
    if |s| < 1 || |s| - 1 < s[0] as int then Err(MalformedPdu) else Ok(s[0] as int)
  }

  function DecodeMetadata(lim: Limits, field: seq<byte>): Result<Body> {
    if |field| < 8 || field[0] != DIRECTIVE_METADATA then Err(MalformedPdu)
    else if field[1] >= 128 || Odd(field[1] / 32) || Odd(field[1] / 16) then Err(MalformedPdu)
    else
      var kind := ChecksumOf(field[1] % 16);
      if kind.OtherChecksum? then Err(UnsupportedChecksum)
      else
        var src := LvLen(field[6..]);
        if src.Err? then Err(src.status)
        else if src.value == 0 || src.value > lim.maxName then Err(InvalidArgument)
        else
          var dst := LvLen(field[7 + src.value..]);
          if dst.Err? then Err(dst.status)
          else if dst.value == 0 || dst.value > lim.maxName then Err(InvalidArgument)
          else
            var end := 8 + src.value + dst.value;
            if end < |field| then DecodeTlv(field[end..])
            else Ok(Metadata(Odd(field[1] / 64), kind, GetBe(field[2..6]), field[7..7 + src.value], field[8 + src.value..end]))
  }

  /** Trailing options are parsed only to be refused. */
  function DecodeTlv(s: seq<byte>): Result<Body> {
    if |s| < 2 || |s| - 2 < s[1] as int then Err(MalformedPdu) else Err(Unsupported)
  }

  function DecodeFileData(field: seq<byte>): Result<Body> {
    if |field| <= 4 then Err(MalformedPdu) else Ok(FileData(GetBe(field[..4]), field[4..]))
  }

  function DecodeEof(field: seq<byte>): Result<Body> {
    if |field| != 10 || field[0] != DIRECTIVE_EOF then Err(MalformedPdu)
    else Ok(Eof(field[1] / 16, GetBe(field[2..6]), GetBe(field[6..10])))
  }

  function DecodeFinished(field: seq<byte>): Result<Body> {
    if |field| != 2 || field[0] != DIRECTIVE_FINISHED || Odd(field[1] / 8) then Err(MalformedPdu)
    else Ok(Finished(field[1] / 16, Odd(field[1] / 4), field[1] % 4))
  }

  function DecodeAck(field: seq<byte>): Result<Body> {
    if |field| != 3 || field[0] != DIRECTIVE_ACK then Err(MalformedPdu)
    else if !AckValid(field[1] / 16, field[1] % 16) then Err(Unsupported)
    else if Odd(field[2] / 4) || Odd(field[2] / 8) then Err(MalformedPdu)
    else Ok(Ack(field[1] / 16, field[1] % 16, field[2] / 16, field[2] % 4))
  }

  function DecodeNak(lim: Limits, field: seq<byte>): Result<Body> {
    if |field| < 9 || (|field| - 9) % 8 != 0 || (|field| - 9) / 8 > lim.maxNakRanges || field[0] != DIRECTIVE_NAK
    then Err(MalformedPdu)
    else NakBody(lim, GetBe(field[1..5]), GetBe(field[5..9]), NakRanges(field[9..]))
  }

  function NakBody(lim: Limits, s: nat, e: nat, ranges: seq<Range>): Result<Body> {
    if NakValid(lim, s, e, ranges) then Ok(Nak(s, e, ranges)) else Err(MalformedPdu)
  }

  function DecodeBody(lim: Limits, directive: byte, field: seq<byte>): Result<Body> {
    if directive == DIRECTIVE_METADATA then DecodeMetadata(lim, field)
    else if directive == DIRECTIVE_EOF then DecodeEof(field)
    else if directive == DIRECTIVE_FINISHED then DecodeFinished(field)
    else if directive == DIRECTIVE_ACK then DecodeAck(field)
    else if directive == DIRECTIVE_NAK then DecodeNak(lim, field)
    else Err(Unsupported)
  }

  function DecodeField(lim: Limits, directive: Option<byte>, field: seq<byte>): Result<Body> {
    if directive.None? then DecodeFileData(field) else DecodeBody(lim, directive.value, field)
  }

  /** One decoder call: the header, the body in its data field, and the bytes consumed. */
  datatype Decoded = Decoded(message: Message, consumed: nat)

  function DecodePdu(lim: Limits, buf: seq<byte>, directive: Option<byte>): Result<Decoded> {
    var header := DecodeHeader(lim, buf);
    if header.Err? then Err(header.status)
    else
      var h, at := header.value, HeaderLen(header.value);
      if h.fileData != directive.None? || h.segmentMetadata || |buf| - at < h.dataLen then Err(MalformedPdu)
      else
        var field := buf[at..at + h.dataLen];
        var body := DecodeField(lim, directive, field);
        if body.Err? then Err(body.status) else Ok(Decoded(Message(h, body.value), at + h.dataLen))
  }

  function DirectiveOf(body: Body): Option<byte> {
    match body
    case Metadata(_, _, _, _, _) => Some(DIRECTIVE_METADATA)
    case FileData(_, _) => None
    case Eof(_, _, _) => Some(DIRECTIVE_EOF)
    case Finished(_, _, _) => Some(DIRECTIVE_FINISHED)
    case Ack(_, _, _, _) => Some(DIRECTIVE_ACK)
    case Nak(_, _, _) => Some(DIRECTIVE_NAK)
  }

  lemma GetPut4(value: nat)
    requires value < U32
    ensures GetBe(PutBe(value, 4)) == value
  {
    Pow256Values();
    GetPut(value, 4);
  }

  lemma Cut(a: seq<byte>, b: seq<byte>, rest: seq<byte>)
    ensures (a + b + rest)[..|a|] == a
    ensures (a + b + rest)[|a|..|a| + |b|] == b
    ensures (a + b + rest)[|a| + |b|..] == rest
  {
  }

  lemma {:induction false} NakRangesRoundTrip(ranges: seq<Range>)
    requires forall i :: 0 <= i < |ranges| ==> 0 <= ranges[i].start < U32 && 0 <= ranges[i].end < U32
    ensures NakRanges(NakBytes(ranges)) == ranges
    decreases |ranges|
  {
    if ranges != [] {
      var first := ranges[0];
      Cut(PutBe(first.start, 4), PutBe(first.end, 4), NakBytes(ranges[1..]));
      GetPut4(first.start);
      GetPut4(first.end);
      NakRangesRoundTrip(ranges[1..]);
    }
  }

  lemma MetadataParts(head: seq<byte>, size: seq<byte>, src: seq<byte>, dst: seq<byte>)
    requires |head| == 2 && |size| == 4 && |src| < 256 && |dst| < 256
    ensures var field := head + size + (Lv(src) + Lv(dst));
            && |field| == 8 + |src| + |dst| && field[0] == head[0] && field[1] == head[1] && field[2..6] == size
            && field[6] as int == |src| && field[7..7 + |src|] == src
            && field[7 + |src|] as int == |dst| && field[8 + |src|..8 + |src| + |dst|] == dst
  {
  }

  lemma MetadataFlags(closure: bool, kind: ChecksumType)
    requires !kind.OtherChecksum?
    ensures var flags := Bit(closure, 64) + ChecksumCode(kind);
            flags < 128 && !Odd(flags / 32) && !Odd(flags / 16) && Odd(flags / 64) == closure && ChecksumOf(flags % 16) == kind
  {
  }

  lemma MetadataDecodes(lim: Limits, field: seq<byte>, flags: byte, size: nat, src: seq<byte>, dst: seq<byte>)
    requires 0 < |src| <= lim.maxName && 0 < |dst| <= lim.maxName && |src| < 256 && |dst| < 256 && size < U32
    requires field == [DIRECTIVE_METADATA, flags] + PutBe(size, 4) + (Lv(src) + Lv(dst))
    requires flags < 128 && !Odd(flags / 32) && !Odd(flags / 16) && !ChecksumOf(flags % 16).OtherChecksum?
    ensures DecodeMetadata(lim, field) == Ok(Metadata(Odd(flags / 64), ChecksumOf(flags % 16), size, src, dst))
  {
    GetPut4(size);
    MetadataParts([DIRECTIVE_METADATA, flags], PutBe(size, 4), src, dst);
  }

  lemma MetadataRoundTrip(lim: Limits, m: Message)
    requires m.body.Metadata? && EncodeStatus(lim, m) == OK && InTypeRange(m.body)
    ensures DecodeMetadata(lim, DataField(lim, m)) == Ok(Canon(lim, m).body)
  {
    var closure := m.body.closure && m.header.unacknowledged;
    MetadataFlags(closure, m.body.kind);
    MetadataDecodes(lim, DataField(lim, m), Bit(closure, 64) + ChecksumCode(m.body.kind), m.body.fileSize, m.body.sourceName, m.body.destName);
  }

  lemma EofRoundTrip(lim: Limits, m: Message)
    requires m.body.Eof? && EncodeStatus(lim, m) == OK && InTypeRange(m.body)
    ensures DecodeEof(DataField(lim, m)) == Ok(m.body)
  {
    var field := DataField(lim, m);
    GetPut4(m.body.checksum);
    GetPut4(m.body.size);
    assert field[2..6] == PutBe(m.body.checksum, 4) && field[6..10] == PutBe(m.body.size, 4);
  }

  lemma FileDataRoundTrip(lim: Limits, m: Message)
    requires m.body.FileData? && EncodeStatus(lim, m) == OK && InTypeRange(m.body)
    ensures DecodeFileData(DataField(lim, m)) == Ok(m.body)
  {
    var field := DataField(lim, m);
    GetPut4(m.body.offset);
    assert field[..4] == PutBe(m.body.offset, 4) && field[4..] == m.body.data;
  }

  lemma FinishedRoundTrip(lim: Limits, m: Message)
    requires m.body.Finished? && EncodeStatus(lim, m) == OK
    ensures DecodeFinished(DataField(lim, m)) == Ok(m.body)
  {
    var flags := m.body.condition * 16 + Bit(m.body.incomplete, 4) + m.body.fileStatus;
    assert flags / 4 == 4 * m.body.condition + Bit(m.body.incomplete, 1) && flags / 8 == 2 * m.body.condition;
  }

  lemma AckRoundTrip(lim: Limits, m: Message)
    requires m.body.Ack? && EncodeStatus(lim, m) == OK
    ensures DecodeAck(DataField(lim, m)) == Ok(m.body)
  {
    var flags := m.body.condition * 16 + m.body.txnStatus;
    assert flags / 4 == 4 * m.body.condition && flags / 8 == 2 * m.body.condition;
  }

  lemma DecodeNakParts(lim: Limits, a: seq<byte>, b: seq<byte>, c: seq<byte>)
    requires |a| == 4 && |b| == 4 && |c| % 8 == 0 && |c| / 8 <= lim.maxNakRanges
    requires NakValid(lim, GetBe(a), GetBe(b), NakRanges(c))
    ensures DecodeNak(lim, [DIRECTIVE_NAK] + a + b + c) == Ok(Nak(GetBe(a), GetBe(b), NakRanges(c)))
  {
    var field := [DIRECTIVE_NAK] + a + b + c;
    NakSlices(a, b, c);
    assert DecodeNak(lim, field) == NakBody(lim, GetBe(a), GetBe(b), NakRanges(c));
  }

  lemma NakSlices(a: seq<byte>, b: seq<byte>, c: seq<byte>)
    requires |a| == 4 && |b| == 4
    ensures var field := [DIRECTIVE_NAK] + a + b + c;
            field[1..5] == a && field[5..9] == b && field[9..] == c
  {
  }

  lemma NakRoundTrip(lim: Limits, m: Message)
    requires m.body.Nak? && EncodeStatus(lim, m) == OK && InTypeRange(m.body)
    ensures DecodeNak(lim, DataField(lim, m)) == Ok(m.body)
  {
    var s, e, ranges := m.body.scopeStart, m.body.scopeEnd, m.body.ranges;
    GetPut4(s);
    GetPut4(e);
    NakRangesRoundTrip(ranges);
    DecodeNakParts(lim, PutBe(s, 4), PutBe(e, 4), NakBytes(ranges));
  }

  lemma DataFieldLength(lim: Limits, m: Message)
    requires EncodeStatus(lim, m) == OK && InTypeRange(m.body)
    ensures 0 < |DataField(lim, m)| < U16
  {
  }

  lemma BodyRoundTrip(lim: Limits, m: Message)
    requires EncodeStatus(lim, m) == OK && InTypeRange(m.body)
    ensures DecodeField(lim, DirectiveOf(m.body), DataField(lim, m)) == Ok(Canon(lim, m).body)
  {
    match m.body {
      case Metadata(_, _, _, _, _) => MetadataRoundTrip(lim, m);
      case Nak(_, _, _) => NakRoundTrip(lim, m);
      case Eof(_, _, _) => EofRoundTrip(lim, m);
      case FileData(_, _) => FileDataRoundTrip(lim, m);
      case Finished(_, _, _) => FinishedRoundTrip(lim, m);
      case Ack(_, _, _, _) => AckRoundTrip(lim, m);
    }
  }

  lemma DecodePduParts(lim: Limits, h: Header, head: seq<byte>, field: seq<byte>, rest: seq<byte>,
                       directive: Option<byte>, body: Body)
    requires DecodeHeader(lim, head + (field + rest)) == Ok(h)
    requires |head| == HeaderLen(h) && |field| == h.dataLen
    requires h.fileData == directive.None? && !h.segmentMetadata
    requires DecodeField(lim, directive, field) == Ok(body)
    ensures DecodePdu(lim, head + field + rest, directive) == Ok(Decoded(Message(h, body), |head| + |field|))
  {
    assert head + field + rest == head + (field + rest);
    assert (head + field + rest)[|head|..|head| + |field|] == field;
  }

  lemma PartsRoundTrip(lim: Limits, m: Message, head: seq<byte>, field: seq<byte>, rest: seq<byte>, directive: Option<byte>,
                       bytes: seq<byte>)
    requires DecodeHeader(lim, head + (field + rest)) == Ok(m.header) && |head| == HeaderLen(m.header)
    requires |field| == m.header.dataLen && m.header.fileData == directive.None? && !m.header.segmentMetadata
    requires DecodeField(lim, directive, field) == Ok(m.body) && bytes == head + field
    ensures DecodePdu(lim, bytes + rest, directive) == Ok(Decoded(m, |bytes|))
  {
    DecodePduParts(lim, m.header, head, field, rest, directive, m.body);
  }

  lemma EncodedHead(lim: Limits, h: Header, cap: nat, rest: seq<byte>) returns (head: seq<byte>)
    requires EncodeHeader(lim, h, cap).Ok? && h.dataLen < U16
    ensures EncodeHeader(lim, h, cap) == Ok(head) && |head| == HeaderLen(h) && DecodeHeader(lim, head + rest) == Ok(h)
  {
    HeaderRoundTrip(lim, h, cap, rest);
    head := EncodeHeader(lim, h, cap).value;
  }

  /** An encoded PDU is its header, with the derived length, followed by its data field. */
  lemma EncodeSplits(lim: Limits, m: Message, cap: nat)
    requires InTypeRange(m.body) && Encode(lim, m, cap).Ok?
    ensures EncodeStatus(lim, m) == OK
    ensures var h, field := Canon(lim, m).header, DataField(lim, m);
            && EncodeHeader(lim, h, cap).Ok? && 0 < |field| == h.dataLen < U16
            && Encode(lim, m, cap).value == EncodeHeader(lim, h, cap).value + field
            && h.fileData == DirectiveOf(m.body).None? && !h.segmentMetadata
  {
  }

  /** Decoding an encoded PDU, whatever follows it in the buffer, returns the message and consumes exactly its bytes. */
  lemma PduRoundTrip(lim: Limits, m: Message, cap: nat, rest: seq<byte>)
    requires InTypeRange(m.body) && Encode(lim, m, cap).Ok?
    ensures EncodeStatus(lim, m) == OK
    ensures var bytes := Encode(lim, m, cap).value;
            DecodePdu(lim, bytes + rest, DirectiveOf(m.body)) == Ok(Decoded(Canon(lim, m), |bytes|))
  {
    EncodeSplits(lim, m, cap);
    var field := DataField(lim, m);
    var head := EncodedHead(lim, Canon(lim, m).header, cap, field + rest);
    BodyRoundTrip(lim, m);
    PartsRoundTrip(lim, Canon(lim, m), head, field, rest, DirectiveOf(m.body), Encode(lim, m, cap).value);
  }

  // ---- The range loops of the NAK encoder and decoder ----

  /** Writes one range as two big-endian words at an offset, leaving every other byte alone. */
  method PutRange(buf: array<byte>, offset: nat, r: Range)
    requires offset + 8 <= buf.Length && 0 <= r.start && 0 <= r.end
    modifies buf
    ensures buf[offset..offset + 8] == PutBe(r.start, 4) + PutBe(r.end, 4)
    ensures forall k :: 0 <= k < offset || offset + 8 <= k < buf.Length ==> buf[k] == old(buf[k])
  {
    var word := PutBe(r.start, 4);
    buf[offset], buf[offset + 1], buf[offset + 2], buf[offset + 3] := word[0], word[1], word[2], word[3];
    word := PutBe(r.end, 4);
    buf[offset + 4], buf[offset + 5], buf[offset + 6], buf[offset + 7] := word[0], word[1], word[2], word[3];
  }

  /** Writes the range list at an offset and returns the offset past it. */
  method WriteNakRanges(buf: array<byte>, offset: nat, ranges: seq<Range>) returns (end: nat)
    requires forall i :: 0 <= i < |ranges| ==> 0 <= ranges[i].start && 0 <= ranges[i].end
    requires offset + 8 * |ranges| <= buf.Length
    modifies buf
    ensures end == offset + 8 * |ranges|
    ensures buf[offset..end] == NakBytes(ranges)
    ensures forall k :: 0 <= k < offset || end <= k < buf.Length ==> buf[k] == old(buf[k])
  {
    end := offset;
    assert ranges[0..] == ranges;
    for i := 0 to |ranges|
      invariant end == offset + 8 * i
      invariant buf[offset..end] + NakBytes(ranges[i..]) == NakBytes(ranges)
      invariant forall k :: 0 <= k < offset || end <= k < buf.Length ==> buf[k] == old(buf[k])
    {
      ghost var done := buf[offset..end];
      PutRange(buf, end, ranges[i]);
      assert buf[offset..end] == done;
      NakBytesStep(done, ranges, i);
      end := end + 8;
      assert buf[offset..end] == done + buf[end - 8..end];
    }
  }

  lemma NakBytesStep(done: seq<byte>, ranges: seq<Range>, i: nat)
    requires i < |ranges| && forall k :: 0 <= k < |ranges| ==> 0 <= ranges[k].start && 0 <= ranges[k].end
    ensures done + NakBytes(ranges[i..])
         == done + (PutBe(ranges[i].start, 4) + PutBe(ranges[i].end, 4)) + NakBytes(ranges[i + 1..])
  {
  }

  /** Reads the range list back, eight bytes at a time. */
  method ReadNakRanges(s: seq<byte>) returns (ranges: seq<Range>)
    requires |s| % 8 == 0
    ensures ranges == NakRanges(s)
  {
    ranges := [];
    var offset := 0;
    assert s[0..] == s;
    while offset < |s|
      invariant offset <= |s| && offset % 8 == 0
      invariant NakRanges(s) == ranges + NakRanges(s[offset..])
    {
      NakRangesStep(ranges, s, offset);
      ranges := ranges + [Range(GetBe(s[offset..offset + 4]), GetBe(s[offset + 4..offset + 8]))];
      offset := offset + 8;
    }
    assert s[offset..] == [] && ranges + NakRanges([]) == ranges;
  }

  lemma NakRangesStep(done: seq<Range>, s: seq<byte>, offset: nat)
    requires |s| % 8 == 0 && offset % 8 == 0 && offset + 8 <= |s|
    ensures done + NakRanges(s[offset..])
         == done + [Range(GetBe(s[offset..offset + 4]), GetBe(s[offset + 4..offset + 8]))] + NakRanges(s[offset + 8..])
  {
    var rest := s[offset..];
    assert rest[..4] == s[offset..offset + 4] && rest[4..8] == s[offset + 4..offset + 8] && rest[8..] == s[offset + 8..];
  }
}
