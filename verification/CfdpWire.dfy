/**
  The PDU formats of CFDP byte by byte (section 5 of CCSDS 727.0-B-5), written down without the
  codec, and the laws that tie the codec to them: what the encoder writes has the format, and the
  decoder accepts exactly what has it and returns the values it holds.
 */
module CfdpWire {
  import opened CfdpTypes
  import opened CfdpRanges
  import opened CfdpPdu

  // ---- Numbers ----

  function Word16(s: seq<byte>, at: nat): nat
    requires at + 2 <= |s|
  {
    s[at] as int * 0x100 + s[at + 1] as int
  }

  function Word32(s: seq<byte>, at: nat): nat
    requires at + 4 <= |s|
  {
    s[at] as int * 0x100_0000 + s[at + 1] as int * 0x1_0000 + s[at + 2] as int * 0x100 + s[at + 3] as int
  }

  /** An n-byte number, each byte weighted by its place. */
  function Number(s: seq<byte>, at: nat, n: nat): nat
    requires at + n <= |s|
    decreases n
  {
    if n == 0 then 0 else s[at] as int * Pow256(n - 1) + Number(s, at + 1, n - 1)
  }

  lemma Word16IsBe(s: seq<byte>, at: nat)
    requires at + 2 <= |s|
    ensures GetBe(s[at..at + 2]) == Word16(s, at)
  {
    var t := s[at..at + 2];
    assert t[..1][..0] == [] && t[..1] == [s[at]];
    assert GetBe(t[..1]) == GetBe(t[..1][..0]) * 256 + s[at] as int;
  }

  lemma Word32IsBe(s: seq<byte>, at: nat)
    requires at + 4 <= |s|
    ensures GetBe(s[at..at + 4]) == Word32(s, at) < U32
  {
    var t := s[at..at + 4];
    assert t[..3] == s[at..at + 3];
    assert s[at..at + 3][..2] == s[at..at + 2];
    Word16IsBe(s, at);
    assert GetBe(t[..3]) == GetBe(s[at..at + 2]) * 256 + s[at + 2] as int;
  }

  /** Splitting the first byte off a big-endian number. */
  lemma {:induction false} BeFirst(s: seq<byte>)
    requires s != []
    ensures GetBe(s) == s[0] as int * Pow256(|s| - 1) + GetBe(s[1..])
    decreases |s|
  {
    var init, last := s[..|s| - 1], s[|s| - 1];
    if |s| > 1 {
      BeFirst(init);
      assert init[1..] == s[1..][..|s| - 2];
      Shifted(s[0], Pow256(|s| - 2), GetBe(init[1..]));
    }
  }

  lemma Shifted(b: nat, p: nat, rest: nat)
    ensures (b * p + rest) * 256 == b * (256 * p) + rest * 256
  {
  }

  lemma {:induction false} NumberIsBe(s: seq<byte>, at: nat, n: nat)
    requires at + n <= |s|
    ensures GetBe(s[at..at + n]) == Number(s, at, n)
    decreases n
  {
    if n > 0 {
      BeFirst(s[at..at + n]);
      assert s[at..at + n][1..] == s[at + 1..at + 1 + (n - 1)];
      NumberIsBe(s, at + 1, n - 1);
    }
  }

  // ---- The fixed header (table 5-1) ----

  predicate HeaderFormat(h: Header, s: seq<byte>) {
    && 1 <= h.idLen <= 8 && 1 <= h.seqLen <= 8 && |s| >= 4 + 2 * h.idLen + h.seqLen
    && s[0] as int == 32 + (if h.fileData then 16 else 0) + (if h.towardSender then 8 else 0)
                      + (if h.unacknowledged then 4 else 0) + (if h.crcPresent then 2 else 0)
    && Word16(s, 1) == h.dataLen
    && s[3] as int == (if h.boundariesPreserved then 128 else 0) + 16 * (h.idLen - 1)
                      + (if h.segmentMetadata then 8 else 0) + (h.seqLen - 1)
    && Number(s, 4, h.idLen) == h.source
    && Number(s, 4 + h.idLen, h.seqLen) == h.seqno
    && Number(s, 4 + h.idLen + h.seqLen, h.idLen) == h.dest
  }

  lemma FromLayoutFormat(s: seq<byte>, i: nat, q: nat)
    requires |s| >= 4 + 2 * i + q && s[0] / 32 == 1 && !Odd(s[0]) && i == IdLenOf(s[3]) && q == SeqLenOf(s[3])
    ensures HeaderFormat(FromLayout(s[0], s[1..3], s[3], s[4..4 + i], s[4 + i..4 + i + q], s[4 + i + q..4 + 2 * i + q]), s)
  {
    var h := FromLayout(s[0], s[1..3], s[3], s[4..4 + i], s[4 + i..4 + i + q], s[4 + i + q..4 + 2 * i + q]);
    Word16IsBe(s, 1);
    NumberIsBe(s, 4, i);
    NumberIsBe(s, 4 + i, q);
    NumberIsBe(s, 4 + i + q, i);
    assert s[4 + i + q..4 + 2 * i + q] == s[4 + i + q..4 + i + q + i];
    FirstByteRebuilt(s[0], h);
    FourthByteRebuilt(s[3], h);
  }

  lemma FormatBits(h: Header, s: seq<byte>)
    requires HeaderFormat(h, s) && h.version == 1 && !h.largeFile
    ensures s[0] / 32 == 1 && !Odd(s[0]) && Odd(s[0] / 16) == h.fileData && Odd(s[0] / 8) == h.towardSender
    ensures Odd(s[0] / 4) == h.unacknowledged && Odd(s[0] / 2) == h.crcPresent
    ensures IdLenOf(s[3]) == h.idLen && SeqLenOf(s[3]) == h.seqLen
    ensures Odd(s[3] / 128) == h.boundariesPreserved && Odd(s[3] / 8) == h.segmentMetadata
  {
    FirstByteFields(h);
    FourthByteFields(h);
    assert s[0] as int == FirstByte(h) && s[3] as int == FourthByte(h);
  }

  lemma FormatIsLayout(s: seq<byte>, h: Header, i: nat, q: nat)
    requires HeaderFormat(h, s) && h.version == 1 && !h.largeFile && i == h.idLen && q == h.seqLen
    ensures FromLayout(s[0], s[1..3], s[3], s[4..4 + i], s[4 + i..4 + i + q], s[4 + i + q..4 + 2 * i + q]) == h
  {
    FormatBits(h, s);
    Word16IsBe(s, 1);
    NumberIsBe(s, 4, i);
    NumberIsBe(s, 4 + i, q);
    NumberIsBe(s, 4 + i + q, i);
    assert s[4 + i + q..4 + 2 * i + q] == s[4 + i + q..4 + i + q + i];
  }

  lemma FormatDecodes(lim: Limits, s: seq<byte>, h: Header)
    requires HeaderFormat(h, s) && h.version == 1 && !h.largeFile && h.idLen <= lim.maxIdLen && h.seqLen <= lim.maxSeqLen
    ensures DecodeHeader(lim, s) == Ok(h)
  {
    FormatBits(h, s);
    FormatIsLayout(s, h, h.idLen, h.seqLen);
  }

  /** The decoder accepts exactly the headers that have the format with lengths it supports, and returns their values. */
  lemma HeaderDecodes(lim: Limits, s: seq<byte>, h: Header)
    requires h.version == 1 && !h.largeFile
    ensures DecodeHeader(lim, s) == Ok(h) <==> HeaderFormat(h, s) && h.idLen <= lim.maxIdLen && h.seqLen <= lim.maxSeqLen
  {
    if DecodeHeader(lim, s).Ok? {
      FromLayoutFormat(s, IdLenOf(s[3]), SeqLenOf(s[3]));
    }
    if HeaderFormat(h, s) && h.idLen <= lim.maxIdLen && h.seqLen <= lim.maxSeqLen {
      FormatDecodes(lim, s, h);
    }
  }

  /** An encoded header has the format. */
  lemma HeaderEncodes(lim: Limits, h: Header, cap: nat)
    requires EncodeHeader(lim, h, cap).Ok? && h.dataLen < U16
    ensures HeaderFormat(h, EncodeHeader(lim, h, cap).value)
  {
    HeaderRoundTrip(lim, h, cap, []);
    var s := EncodeHeader(lim, h, cap).value;
    assert s + [] == s;
    HeaderDecodes(lim, s, h);
  }

  // ---- The data field of each PDU (tables 5-6 to 5-16) ----

  /** The checksum types of the SANA registry that the library supports. */
  predicate TypeCode(kind: ChecksumType, code: nat) {
    match kind
    case Modular => code == 0
    case Crc32c => code == 2
    case Ieee8023 => code == 3
    case NullChecksum => code == 15
    case OtherChecksum(_) => false
  }

  /** The spare bits of the condition byte of EOF are not looked at. */
  predicate FieldFormat(body: Body, f: seq<byte>) {
    match body
    case Metadata(closure, kind, size, src, dst) =>
      && |f| == 8 + |src| + |dst| && |src| < 256 && |dst| < 256
      && f[0] == 7 && TypeCode(kind, f[1] % 16) && f[1] / 16 == (if closure then 4 else 0)
      && Word32(f, 2) == size && f[6] as int == |src| && f[7..7 + |src|] == src
      && f[7 + |src|] as int == |dst| && f[8 + |src|..] == dst
    case FileData(offset, data) => |f| == 4 + |data| && Word32(f, 0) == offset && f[4..] == data
    case Eof(condition, checksum, size) =>
      |f| == 10 && f[0] == 4 && f[1] / 16 == condition && Word32(f, 2) == checksum && Word32(f, 6) == size
    case Finished(condition, incomplete, fileStatus) =>
      |f| == 2 && f[0] == 5 && fileStatus < 4 && f[1] as int == 16 * condition + (if incomplete then 4 else 0) + fileStatus
    case Ack(directive, subtype, condition, txnStatus) =>
      && |f| == 3 && f[0] == 6 && subtype < 16 && f[1] as int == 16 * directive + subtype
      && txnStatus < 4 && f[2] as int == 16 * condition + txnStatus
    case Nak(start, end, ranges) =>
      && |f| == 9 + 8 * |ranges| && f[0] == 8 && Word32(f, 1) == start && Word32(f, 5) == end
      && forall i :: 0 <= i < |ranges| ==> Word32(f, 9 + 8 * i) == ranges[i].start && Word32(f, 13 + 8 * i) == ranges[i].end
  }

  /** What the receiving side requires of a body besides its format. */
  predicate Admitted(lim: Limits, body: Body) {
    match body
    case Metadata(_, _, _, src, dst) => 0 < |src| <= lim.maxName && 0 < |dst| <= lim.maxName
    case FileData(_, data) => data != []
    case Ack(directive, subtype, _, _) => (directive == 4 && subtype == 0) || (directive == 5 && subtype == 1)
    case Nak(start, end, ranges) =>
      && start < end && |ranges| <= lim.maxNakRanges
      && forall i :: 0 <= i < |ranges| ==> start <= ranges[i].start < ranges[i].end <= end
    case _ => true
  }

  lemma MetadataDecodes(lim: Limits, f: seq<byte>, body: Body)
    requires body.Metadata?
    ensures DecodeMetadata(lim, f) == Ok(body) <==> FieldFormat(body, f) && Admitted(lim, body)
  {
    if |f| >= 8 {
      Word32IsBe(f, 2);
      MetadataFlags(f[1]);
      if FieldFormat(body, f) {
        assert f[8 + |body.sourceName|..8 + |body.sourceName| + |body.destName|] == body.destName;
      }
      if DecodeMetadata(lim, f).Ok? {
        var src, dst := f[6] as int, f[7 + f[6]] as int;
        assert f[8 + src..8 + src + dst] == f[8 + src..];
      }
    }
  }

  lemma MetadataFlags(b: byte)
    ensures b < 128 && !Odd(b / 32) && !Odd(b / 16) <==> b / 16 == 0 || b / 16 == 4
    ensures b / 16 == 0 || b / 16 == 4 ==> (Odd(b / 64) <==> b / 16 == 4)
  {
    assert b / 32 == b / 16 / 2 && b / 64 == b / 16 / 4;
  }

  lemma EofDecodes(f: seq<byte>, body: Body)
    requires body.Eof?
    ensures DecodeEof(f) == Ok(body) <==> FieldFormat(body, f)
  {
    if |f| == 10 {
      Word32IsBe(f, 2);
      Word32IsBe(f, 6);
    }
  }

  lemma FileDataDecodes(lim: Limits, f: seq<byte>, body: Body)
    requires body.FileData?
    ensures DecodeFileData(f) == Ok(body) <==> FieldFormat(body, f) && Admitted(lim, body)
  {
    if |f| >= 4 {
      Word32IsBe(f, 0);
      assert f[..4] == f[0..4];
    }
  }

  lemma Flags(b: byte, high: nat, bit: bool, low: nat)
    requires low < 4
    ensures b as int == 16 * high + (if bit then 4 else 0) + low
       <==> b / 16 == high && !Odd(b / 8) && (Odd(b / 4) <==> bit) && b % 4 == low
  {
    var n := b as int;
    assert n / 4 == 2 * (n / 8) + n / 4 % 2 && n / 8 == 2 * (n / 16) + n / 8 % 2 && n == 4 * (n / 4) + n % 4;
  }

  lemma Nibbles(b: byte, high: nat, low: nat)
    requires low < 16
    ensures b as int == 16 * high + low <==> b / 16 == high && b % 16 == low
  {
  }

  lemma FinishedDecodes(f: seq<byte>, body: Body)
    requires body.Finished?
    ensures DecodeFinished(f) == Ok(body) <==> FieldFormat(body, f)
  {
    if |f| == 2 && body.fileStatus < 4 {
      Flags(f[1], body.condition, body.incomplete, body.fileStatus);
    }
  }

  lemma AckDecodes(lim: Limits, f: seq<byte>, body: Body)
    requires body.Ack?
    ensures DecodeAck(f) == Ok(body) <==> FieldFormat(body, f) && Admitted(lim, body)
  {
    if |f| == 3 && body.subtype < 16 && body.txnStatus < 4 {
      Nibbles(f[1], body.directive, body.subtype);
      Flags(f[2], body.condition, false, body.txnStatus);
    }
  }

  ghost predicate HasWords(f: seq<byte>, at: nat, ranges: seq<Range>)
    requires |f| == at + 8 * |ranges|
  {
    forall i :: 0 <= i < |ranges| ==> Word32(f, at + 8 * i) == ranges[i].start && Word32(f, at + 4 + 8 * i) == ranges[i].end
  }

  /** The words of a range list are its ranges in order. */
  lemma {:induction false} RangeWords(f: seq<byte>, at: nat, ranges: seq<Range>)
    requires |f| == at + 8 * |ranges|
    ensures NakRanges(f[at..]) == ranges <==> HasWords(f, at, ranges)
    decreases |ranges|
  {
    if ranges != [] {
      var s := f[at..];
      Word32IsBe(f, at);
      Word32IsBe(f, at + 4);
      assert s[..4] == f[at..at + 4] && s[4..8] == f[at + 4..at + 8] && s[8..] == f[at + 8..];
      RangeWords(f, at + 8, ranges[1..]);
      var first := Range(Word32(f, at), Word32(f, at + 4));
      assert NakRanges(s) == [first] + NakRanges(f[at + 8..]);
      RangeWordsStep(f, at, ranges);
      if NakRanges(s) == ranges {
        assert NakRanges(s)[1..] == NakRanges(f[at + 8..]);
      }
    }
  }

  lemma RangeWordsStep(f: seq<byte>, at: nat, ranges: seq<Range>)
    requires |f| == at + 8 * |ranges| && ranges != []
    ensures HasWords(f, at, ranges)
       <==> Range(Word32(f, at), Word32(f, at + 4)) == ranges[0] && HasWords(f, at + 8, ranges[1..])
  {
    if HasWords(f, at, ranges) {
      assert Word32(f, at + 8 * 0) == ranges[0].start && Word32(f, at + 4 + 8 * 0) == ranges[0].end;
      forall i | 0 <= i < |ranges[1..]|
        ensures Word32(f, at + 8 + 8 * i) == ranges[1..][i].start && Word32(f, at + 8 + 4 + 8 * i) == ranges[1..][i].end
      {
        assert Word32(f, at + 8 * (i + 1)) == ranges[i + 1].start && Word32(f, at + 4 + 8 * (i + 1)) == ranges[i + 1].end;
      }
    }
    if Range(Word32(f, at), Word32(f, at + 4)) == ranges[0] && HasWords(f, at + 8, ranges[1..]) {
      forall i | 0 <= i < |ranges|
        ensures Word32(f, at + 8 * i) == ranges[i].start && Word32(f, at + 4 + 8 * i) == ranges[i].end
      {
        if i > 0 {
          assert Word32(f, at + 8 + 8 * (i - 1)) == ranges[1..][i - 1].start;
          assert Word32(f, at + 8 + 4 + 8 * (i - 1)) == ranges[1..][i - 1].end;
        }
      }
    }
  }

  lemma NakDecodes(lim: Limits, f: seq<byte>, body: Body)
    requires body.Nak?
    ensures DecodeNak(lim, f) == Ok(body) <==> FieldFormat(body, f) && Admitted(lim, body)
  {
    var n := |body.ranges|;
    if |f| == 9 + 8 * n {
      Word32IsBe(f, 1);
      Word32IsBe(f, 5);
      RangeWords(f, 9, body.ranges);
      assert HasWords(f, 9, body.ranges) <==>
        forall i :: 0 <= i < n ==> Word32(f, 9 + 8 * i) == body.ranges[i].start && Word32(f, 13 + 8 * i) == body.ranges[i].end;
      assert DecodeNak(lim, f).Ok? ==> DecodeNak(lim, f) == Ok(Nak(Word32(f, 1), Word32(f, 5), NakRanges(f[9..])));
    }
  }

  /** The code that says which directive a PDU carries; file data has none. */
  function CodeOf(body: Body): Option<byte> {
    match body
    case Metadata(_, _, _, _, _) => Some(7)
    case FileData(_, _) => None
    case Eof(_, _, _) => Some(4)
    case Finished(_, _, _) => Some(5)
    case Ack(_, _, _, _) => Some(6)
    case Nak(_, _, _) => Some(8)
  }

  /** Each decoder accepts exactly the data fields that have its format, and returns their values. */
  lemma FieldDecodes(lim: Limits, f: seq<byte>, body: Body)
    ensures DecodeField(lim, CodeOf(body), f) == Ok(body) <==> FieldFormat(body, f) && Admitted(lim, body)
  {
    match body {
      case Metadata(_, _, _, _, _) => MetadataDecodes(lim, f, body);
      case FileData(_, _) => FileDataDecodes(lim, f, body);
      case Eof(_, _, _) => EofDecodes(f, body);
      case Finished(_, _, _) => FinishedDecodes(f, body);
      case Ack(_, _, _, _) => AckDecodes(lim, f, body);
      case Nak(_, _, _) => NakDecodes(lim, f, body);
    }
  }

  /** The body that a peer sees: closure is shown in unacknowledged mode only. */
  function Shown(m: Message): Body {
    if m.body.Metadata? && !m.header.unacknowledged then m.body.(closure := false) else m.body
  }

  /** What the encoder writes as data field has the format, with the spare bits of EOF zero. */
  lemma FieldEncodes(lim: Limits, m: Message)
    requires EncodeStatus(lim, m) == OK && InTypeRange(m.body)
    ensures FieldFormat(Shown(m), DataField(lim, m)) && (m.body.Eof? ==> DataField(lim, m)[1] % 16 == 0)
  {
    BodyRoundTrip(lim, m);
    FieldDecodes(lim, DataField(lim, m), Shown(m));
    assert Shown(m) == Canon(lim, m).body;
  }

  /** The format of a whole PDU: the header, with the length of the data field, and the data field. */
  predicate PduFormat(h: Header, body: Body, s: seq<byte>, f: seq<byte>) {
    && HeaderFormat(h, s) && |s| == 4 + 2 * h.idLen + h.seqLen + |f| && |f| == h.dataLen && s[4 + 2 * h.idLen + h.seqLen..] == f
    && FieldFormat(body, f) && h.fileData == body.FileData? && !h.segmentMetadata
  }

  /** Every PDU that is sent has the format. */
  lemma PduEncodes(lim: Limits, m: Message, cap: nat)
    requires InTypeRange(m.body) && Encode(lim, m, cap).Ok?
    ensures exists f :: PduFormat(m.header.(dataLen := |f|), Shown(m), Encode(lim, m, cap).value, f)
  {
    EncodeSplits(lim, m, cap);
    var field := DataField(lim, m);
    var h := m.header.(dataLen := |field|);
    HeaderRoundTrip(lim, h, cap, field);
    var head, s := EncodeHeader(lim, h, cap).value, Encode(lim, m, cap).value;
    HeaderDecodes(lim, s, h);
    FieldEncodes(lim, m);
    assert s[|head|..] == field;
    assert PduFormat(h, Shown(m), s, field);
  }

  lemma PduSplits(lim: Limits, s: seq<byte>, h: Header, body: Body, code: Option<byte>)
    ensures DecodePdu(lim, s, code) == Ok(Decoded(Message(h, body), |s|))
       <==> && DecodeHeader(lim, s) == Ok(h) && |s| == HeaderLen(h) + h.dataLen
            && h.fileData == code.None? && !h.segmentMetadata && DecodeField(lim, code, s[HeaderLen(h)..]) == Ok(body)
  {
    var header := DecodeHeader(lim, s);
    if header.Ok? {
      var at, len := HeaderLen(header.value), header.value.dataLen;
      if |s| == at + len {
        assert s[at..at + len] == s[at..];
      }
    }
  }

  lemma DecodedHasFormat(lim: Limits, s: seq<byte>, h: Header, body: Body, f: seq<byte>)
    requires h.version == 1 && !h.largeFile && DecodeHeader(lim, s) == Ok(h) && |s| == HeaderLen(h) + h.dataLen
    requires f == s[HeaderLen(h)..] && DecodeField(lim, CodeOf(body), f) == Ok(body)
    ensures HeaderFormat(h, s) && FieldFormat(body, f) && Admitted(lim, body) && h.idLen <= lim.maxIdLen && h.seqLen <= lim.maxSeqLen
  {
    HeaderDecodes(lim, s, h);
    FieldDecodes(lim, f, body);
  }

  /** A buffer that has the format of a message is decoded, whole, to that message. */
  lemma PduDecodes(lim: Limits, s: seq<byte>, h: Header, body: Body, f: seq<byte>)
    requires h.version == 1 && !h.largeFile && h.idLen <= lim.maxIdLen && h.seqLen <= lim.maxSeqLen
    requires PduFormat(h, body, s, f) && Admitted(lim, body)
    ensures DecodePdu(lim, s, CodeOf(body)) == Ok(Decoded(Message(h, body), |s|))
  {
    assert CodeOf(body).None? <==> body.FileData?;
    assert DecodeHeader(lim, s) == Ok(h) by { HeaderDecodes(lim, s, h); }
    assert DecodeField(lim, CodeOf(body), f) == Ok(body) by { FieldDecodes(lim, f, body); }
    PartsDecode(lim, s, h, body, f, CodeOf(body));
  }

  lemma PartsDecode(lim: Limits, s: seq<byte>, h: Header, body: Body, f: seq<byte>, code: Option<byte>)
    requires DecodeHeader(lim, s) == Ok(h) && |s| == HeaderLen(h) + h.dataLen && f == s[HeaderLen(h)..]
    requires DecodeField(lim, code, f) == Ok(body) && h.fileData == code.None? && !h.segmentMetadata
    ensures DecodePdu(lim, s, code) == Ok(Decoded(Message(h, body), |s|))
  {
    PduSplits(lim, s, h, body, code);
  }

  /** And only such a buffer is. */
  lemma PduDecodedOnly(lim: Limits, s: seq<byte>, h: Header, body: Body) returns (f: seq<byte>)
    requires h.version == 1 && !h.largeFile && DecodePdu(lim, s, CodeOf(body)) == Ok(Decoded(Message(h, body), |s|))
    ensures PduFormat(h, body, s, f) && Admitted(lim, body) && h.idLen <= lim.maxIdLen && h.seqLen <= lim.maxSeqLen
  {
    PduSplits(lim, s, h, body, CodeOf(body));
    f := s[HeaderLen(h)..];
    DecodedHasFormat(lim, s, h, body, f);
  }
}
