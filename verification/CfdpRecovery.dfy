/**
  One round of recovery: a receiver that still has room in its range list asks for what is
  missing, and the retransmissions, delivered in order, complete and commit the file.
 */
module CfdpRecovery {
  import opened CfdpTypes
  import opened CfdpRanges
  import opened CfdpChecksum
  import opened CfdpPdu
  import opened CfdpCore
  import opened CfdpSystem
  import S = CfdpSender
  import SR = CfdpSenderRuns
  import R = CfdpReceiver
  import RR = CfdpReceiverRuns
  import D = CfdpDelivery

  // ---- Buffers are large enough for the PDUs built in them ----

  predicate IdsFit(lim: Limits, ids: Ids, seqno: nat) {
    && 1 <= ids.idLen <= lim.maxIdLen && ids.idLen <= 8 && 1 <= ids.seqLen <= lim.maxSeqLen && ids.seqLen <= 8
    && Fits(ids.local, ids.idLen) && Fits(ids.remote, ids.idLen) && Fits(seqno, ids.seqLen)
  }

  predicate Roomy(cfg: Config, ids: Ids) {
    && 0 < cfg.maxSegment < U16 - 4 && 9 + 8 * cfg.lim.maxNakRanges < U16
    && 4 + 2 * ids.idLen + ids.seqLen + Max(10, Max(4 + cfg.maxSegment, 9 + 8 * cfg.lim.maxNakRanges)) <= cfg.maxPdu
  }

  predicate PlainHeader(ids: Ids, h: Header) {
    && h.version == 1 && !h.largeFile && !h.segmentMetadata && h.idLen == ids.idLen && h.seqLen == ids.seqLen
    && ((h.source == ids.local && h.dest == ids.remote) || (h.source == ids.remote && h.dest == ids.local))
  }

  lemma Encodes(cfg: Config, ids: Ids, m: Message)
    requires WireConfig(cfg) && Roomy(cfg, ids) && IdsFit(cfg.lim, ids, m.header.seqno) && PlainHeader(ids, m.header)
    requires InTypeRange(m.body) && EncodeStatus(cfg.lim, m) == OK
    requires |DataField(cfg.lim, m)| <= Max(10, Max(4 + cfg.maxSegment, 9 + 8 * cfg.lim.maxNakRanges))
    ensures cfg.encoder(m).Ok?
  {
  }

  // ---- The sender's answer to a NAK ----

  /** Reads return between one byte and what was asked for, and every message is accepted. */
  ghost predicate Answers(read: Reader) {
    forall offset, len :: len > 0 ==> read(offset, len).Ok? && 0 < read(offset, len).value <= len
  }

  ghost predicate Accepts(env: S.Env) {
    Answers(env.read) && forall k :: env.accept(k)
  }

  ghost predicate CanSend(s: S.Sender) {
    && WireConfig(s.cfg) && Roomy(s.cfg, s.ids) && IdsFit(s.cfg.lim, s.ids, s.slot.id.seqno)
    && s.slot.id.source == s.ids.local && s.slot.peer == s.ids.remote && |s.slot.file| < U32
    && s.slot.eofChecksum < U32
  }

  lemma SegmentEncodes(s: S.Sender, offset: nat, len: nat)
    requires CanSend(s) && 0 < len <= s.cfg.maxSegment && offset + len <= |s.slot.file|
    ensures s.cfg.encoder(S.FileDataMessage(s, offset, len)).Ok?
  {
  }

  /** Every segment of the file encodes. */
  ghost predicate SegmentsEncode(s: S.Sender) {
    && 0 < s.cfg.maxSegment
    && forall offset: nat, len: nat :: 0 < len <= s.cfg.maxSegment && offset + len <= |s.slot.file| ==>
                                         s.cfg.encoder(S.FileDataMessage(s, offset, len)).Ok?
  }

  lemma SegmentsEncodeWhen(s: S.Sender)
    requires CanSend(s)
    ensures SegmentsEncode(s) && s.cfg.encoder(S.EofMessage(s)).Ok?
  {
    forall offset: nat, len: nat | 0 < len <= s.cfg.maxSegment && offset + len <= |s.slot.file|
      ensures s.cfg.encoder(S.FileDataMessage(s, offset, len)).Ok?
    {
      SegmentEncodes(s, offset, len);
    }
    Encodes(s.cfg, s.ids, S.EofMessage(s));
  }

  lemma SegmentsEncodeSame(s: S.Sender, t: S.Sender)
    requires SegmentsEncode(s) && t.cfg == s.cfg && t.ids == s.ids
    requires t.slot.(nakRounds := s.slot.nakRounds) == s.slot
    ensures SegmentsEncode(t)
  {
    forall offset: nat, len: nat | 0 < len <= t.cfg.maxSegment && offset + len <= |t.slot.file|
      ensures t.cfg.encoder(S.FileDataMessage(t, offset, len)).Ok?
    {
      assert S.FileDataMessage(t, offset, len) == S.FileDataMessage(s, offset, len);
    }
  }

  lemma {:induction false} SegmentsSucceed(s: S.Sender, from: nat, until: nat, env: S.Env)
    requires SegmentsEncode(s) && Accepts(env) && from <= until <= |s.slot.file|
    ensures S.SendSegments(s, from, until, env).1 == OK
    decreases until - from
  {
    if from < until {
      var request := Request(until, from, s.cfg.maxSegment);
      var got := env.read(from, request);
      var sent := S.Send(s, S.FileDataMessage(s, from, got.value), env);
      SegmentsEncodeSame(s, sent.0);
      SegmentsSucceed(sent.0, from + got.value, until, env);
    }
  }

  /** The messages `ms` fill, from left to right, exactly what `ranges` misses of [p, size). */
  ghost predicate Fills(ranges: seq<Range>, p: nat, ms: seq<Message>, size: nat)
    decreases |ms|
  {
    if ms == [] then Interval(p, size) <= Denote(ranges)
    else
      && ms[0].body.FileData?
      && var offset, end := ms[0].body.offset, ms[0].body.offset + |ms[0].body.data|;
         && p <= offset < end <= size
         && Interval(p, offset) <= Denote(ranges) && Interval(offset, end) !! Denote(ranges)
         && Fills(ranges, end, ms[1..], size)
  }

  lemma MoreToFill(ranges: seq<Range>, p: nat, ms: seq<Message>, size: nat)
    requires Fills(ranges, p, ms, size) && ms != []
    ensures !(Interval(p, size) <= Denote(ranges))
  {
    var next := ms[0].body.offset;
    assert next in Interval(next, next + |ms[0].body.data|) && next in Interval(p, size);
  }

  predicate Nonempty(ms: seq<Message>) {
    forall i :: 0 <= i < |ms| ==> ms[i].body.FileData? && ms[i].body.data != []
  }

  lemma {:induction false} TilesFill(ms: seq<Message>, from: nat, until: nat, rest: seq<Message>, ranges: seq<Range>, p: nat, size: nat)
    requires Nonempty(ms) && SR.Tiles(ms, from, until) && until <= size && p <= from
    requires Interval(p, from) <= Denote(ranges) && Interval(from, until) !! Denote(ranges)
    requires Fills(ranges, until, rest, size)
    ensures from <= until
    ensures ms != [] ==> Fills(ranges, p, ms + rest, size)
    decreases |ms|
  {
    if ms != [] {
      var end := from + |ms[0].body.data|;
      assert (ms + rest)[1..] == ms[1..] + rest;
      assert Interval(end, end) <= Denote(ranges);
      TilesOrdered(ms[1..], end, until);
      if |ms| == 1 {
        assert ms[1..] + rest == rest;
      } else {
        TilesFill(ms[1..], end, until, rest, ranges, end, size);
      }
    }
  }

  lemma {:induction false} TilesOrdered(ms: seq<Message>, from: nat, until: nat)
    requires SR.Tiles(ms, from, until)
    ensures from <= until
    decreases |ms|
  {
    if ms != [] {
      TilesOrdered(ms[1..], from + |ms[0].body.data|, until);
    }
  }

  ghost predicate Complements(gs: seq<Range>, ranges: seq<Range>, p: nat, size: nat) {
    && Canonical(gs) && (forall i :: 0 <= i < |gs| ==> p <= gs[i].start && gs[i].end <= size)
    && forall x :: p <= x < size ==> (Covers(gs, x) <==> !Covers(ranges, x))
  }

  lemma ComplementsTail(gs: seq<Range>, ranges: seq<Range>, p: nat, size: nat)
    requires gs != [] && Complements(gs, ranges, p, size)
    ensures Interval(p, gs[0].start) <= Denote(ranges) && Interval(gs[0].start, gs[0].end) !! Denote(ranges)
    ensures Complements(gs[1..], ranges, gs[0].end, size)
  {
  }

  lemma GapSent(s: S.Sender, g: Range, env: S.Env) returns (sent: S.Sender)
    requires SegmentsEncode(s) && Accepts(env) && 0 <= g.start < g.end <= |s.slot.file|
    ensures S.SendSegments(s, g.start, g.end, env) == (sent, OK)
    ensures SR.OnlyEmitted(s, sent) && SegmentsEncode(sent) && Nonempty(SR.Added(s, sent))
    ensures SR.Tiles(SR.Added(s, sent), g.start, g.end) && SR.Added(s, sent) != []
  {
    SegmentsSucceed(s, g.start, g.end, env);
    SR.SegmentsEmitted(s, g.start, g.end, env);
    sent := S.SendSegments(s, g.start, g.end, env).0;
    SegmentsEncodeSame(s, sent);
    var ms := SR.Added(s, sent);
    forall i | 0 <= i < |ms| ensures ms[i].body.FileData? && ms[i].body.data != [] {
      assert SR.Segment(s, ms[i]);
    }
  }

  lemma ComplementsNothing(ranges: seq<Range>, p: nat, size: nat)
    requires Complements([], ranges, p, size)
    ensures Interval(p, size) <= Denote(ranges)
  {
  }

  /** Retransmitting the missing ranges succeeds and fills them in order. */
  lemma {:induction false} RetransmitFills(s: S.Sender, gs: seq<Range>, ranges: seq<Range>, p: nat, env: S.Env)
    requires SegmentsEncode(s) && Accepts(env) && p <= |s.slot.file| && Complements(gs, ranges, p, |s.slot.file|)
    ensures var r := S.Retransmit(s, gs, env);
            r.1 == OK && SR.OnlyEmitted(s, r.0) && SR.Segments(s, SR.Added(s, r.0))
            && Fills(ranges, p, SR.Added(s, r.0), |s.slot.file|)
    decreases |gs|
  {
    SR.RetransmitEmitted(s, gs, env);
    var r := S.Retransmit(s, gs, env);
    var size := |s.slot.file|;
    if gs == [] {
      assert SR.Added(s, r.0) == [];
      ComplementsNothing(ranges, p, size);
    } else {
      var g := gs[0];
      ComplementsTail(gs, ranges, p, size);
      var sent := GapSent(s, g, env);
      RetransmitFills(sent, gs[1..], ranges, g.end, env);
      var ms, rest := SR.Added(s, sent), SR.Added(sent, r.0);
      assert SR.Added(s, r.0) == ms + rest;
      TilesFill(ms, g.start, g.end, rest, ranges, p, size);
    }
  }

  // ---- The receiver while the gaps are filled from the left ----

  /** The ranges held once everything below p is filled. */
  function Upto(ranges: seq<Range>, p: nat): seq<Range> {
    if p == 0 then ranges else Insert(ranges, Range(0, p))
  }

  lemma UptoDenotes(ranges: seq<Range>, p: nat, x: int)
    requires Canonical(ranges)
    ensures Canonical(Upto(ranges, p))
    ensures Covers(Upto(ranges, p), x) <==> Covers(ranges, x) || 0 <= x < p
  {
    if p > 0 {
      InsertFromCanonical(ranges, 0, Range(0, p));
      InsertFromCovers(ranges, 0, Range(0, p), x);
    }
  }

  /** Filling the next gap from the left extends the filled prefix. */
  lemma UptoStep(ranges: seq<Range>, p: nat, offset: nat, end: nat)
    requires Canonical(ranges) && p <= offset < end && Interval(p, offset) <= Denote(ranges)
    ensures Insert(Upto(ranges, p), Range(offset, end)) == Upto(ranges, end)
  {
    UptoDenotes(ranges, p, 0);
    UptoDenotes(ranges, end, 0);
    var a, b := Insert(Upto(ranges, p), Range(offset, end)), Upto(ranges, end);
    InsertFromCanonical(Upto(ranges, p), 0, Range(offset, end));
    forall x ensures Covers(a, x) <==> Covers(b, x) {
      InsertFromCovers(Upto(ranges, p), 0, Range(offset, end), x);
      UptoDenotes(ranges, p, x);
      UptoDenotes(ranges, end, x);
      if p <= x < offset {
        assert x in Interval(p, offset);
      }
    }
    CanonicalUnique(a, b);
  }

  lemma {:induction false} InsertCount(s: seq<Range>, k: nat, r: Range)
    requires k <= |s|
    ensures |InsertFrom(s, k, r)| <= |s| - k + 1
    decreases |s| - k
  {
    if k < |s| && r.end >= s[k].start {
      InsertCount(s, k + 1, if s[k].end < r.start then r else Merge(s[k], r));
    }
  }

  /** There is room for one more range, or the first range already starts the file. */
  predicate HasRoom(ranges: seq<Range>, limit: nat) {
    |ranges| < limit || (|ranges| == limit > 0 && ranges[0].start == 0)
  }

  lemma UptoCount(ranges: seq<Range>, p: nat, limit: nat)
    requires Canonical(ranges) && HasRoom(ranges, limit)
    ensures |Upto(ranges, p)| <= limit
  {
    if p > 0 {
      InsertCount(ranges, 0, Range(0, p));
      if ranges != [] && ranges[0].start == 0 {
        InsertCount(ranges, 1, Merge(ranges[0], Range(0, p)));
      }
    }
  }

  ghost predicate Recovering(r: R.Receiver, src: Source, ranges: seq<Range>, p: nat) {
    && RR.Inv(r) && r.slot.active && r.slot.acknowledged && r.slot.eofReceived && !r.slot.waiting
    && Partial(r, src) && 0 < |src.file| < U32 && r.slot.kind == src.kind
    && r.slot.eofChecksum == WholeFile(r.cfg.lib, src.kind, src.file)
    && Canonical(ranges) && r.ranges == Upto(ranges, p) && HasRoom(ranges, r.cfg.lim.maxNakRanges)
  }

  ghost predicate Works(env: R.Env) {
    env.writeOk && env.closeOk && env.commitOk && env.acceptFinished && Answers(env.read)
  }

  lemma {:induction false} ReadsSucceed(size: nat, chunk: nat, read: Reader, shortRead: Failure, offset: nat)
    requires chunk > 0 && Answers(read) && offset <= size
    ensures ReadsFrom(size, chunk, RejectedAs(read), shortRead, offset).Ok?
    decreases size - offset
  {
    if offset < size {
      var request := Request(size, offset, chunk);
      assert RejectedAs(read)(offset, request) == read(offset, request);
      ReadsSucceed(size, chunk, read, shortRead, offset + read(offset, request).value);
    }
  }

  function RejectedAs(read: Reader): Reader { R.RejectReads(read) }

  lemma VerifySucceeds(r: R.Receiver, src: Source, env: R.Env)
    requires r.slot.tmp == src.file && |src.file| == r.slot.fileSize && r.slot.kind == src.kind && Supported(src.kind)
    requires r.cfg.maxSegment > 0 && Works(env)
    ensures R.Verify(r, WholeFile(r.cfg.lib, src.kind, src.file), env) == OK
  {
    assert r.slot.tmp[..r.slot.fileSize] == src.file;
    ReadsSucceed(|src.file|, r.cfg.maxSegment, env.read, FileSizeError, 0);
  }

  ghost predicate CanReply(r: R.Receiver) {
    && WireConfig(r.cfg) && Roomy(r.cfg, r.ids) && IdsFit(r.cfg.lim, r.ids, r.slot.id.seqno)
    && r.slot.id.source == r.ids.remote
  }

  /** The slot commits: the file is whole, verified and stored, and Finished goes out. */
  lemma CommitSucceeds(r: R.Receiver, src: Source, env: R.Env)
    requires CanReply(r) && Works(env) && r.slot.active && r.slot.acknowledged && r.slot.closure && r.slot.handleOpen
    ensures var f := R.EndTransaction(r, OK, env);
            && f.1 == OK && f.0.slot.active && f.0.slot.waiting && f.0.slot.id == r.slot.id && f.0.slot.acknowledged
            && f.0.slot.finishedStatus == OK && f.0.slot.retries == 0 && !f.0.slot.recoveryPending
            && f.0.slot.deadline == ArmRetry(r.cfg, env.now)
            && f.0.cfg == r.cfg && f.0.ids == r.ids && f.0.out == r.out + [R.FinishedMessage(r, OK)]
            && f.0.trace == r.trace + [Committed(r.slot.id, r.slot.destPath, r.slot.tmp)]
  {
    Encodes(r.cfg, r.ids, R.FinishedMessage(r, OK));
  }

  lemma DataKeepsPartial(r: R.Receiver, src: Source, body: Body)
    requires RR.Covered(r) && Partial(r, src) && body.FileData? && TruthfulData(src, body)
    ensures Partial(r.(slot := r.slot.(tmp := RR.TmpAfter(r, body)), ranges := RR.RangesAfter(r, body)), src)
  {
    var tmp := RR.TmpAfter(r, body);
    forall x | 0 <= x < |tmp| && Covers(RR.RangesAfter(r, body), x) ensures tmp[x] == src.file[x] {
      D.DataAgrees(r, body, src, x);
    }
  }

  lemma WholePartial(r: R.Receiver, src: Source)
    requires RR.Covered(r) && Partial(r, src) && R.HasRange(r.ranges, 0, |src.file|) && 0 < |src.file|
    ensures r.slot.tmp == src.file
  {
  }

  /** Whether everything is held once [0, end) is filled. */
  lemma UptoWhole(ranges: seq<Range>, end: nat, size: nat)
    requires Canonical(ranges) && 0 < end <= size
    ensures R.HasRange(Upto(ranges, end), 0, size) <==> Interval(end, size) <= Denote(ranges)
  {
    UptoDenotes(ranges, end, 0);
    RR.CompleteMeansCovered(Upto(ranges, end), size);
    forall x ensures x in Denote(Upto(ranges, end)) <==> x in Denote(ranges) || 0 <= x < end {
      UptoDenotes(ranges, end, x);
    }
    if Interval(0, size) <= Denote(Upto(ranges, end)) {
      forall x | x in Interval(end, size) ensures x in Denote(ranges) {
        assert x in Interval(0, size);
      }
    } else {
      var x :| x in Interval(0, size) && x !in Denote(Upto(ranges, end));
      assert x in Interval(end, size);
    }
  }

  /** What the last segment of a round leaves behind. */
  ghost predicate Done(r: R.Receiver, q: R.Receiver, src: Source) {
    && q.slot.active && q.slot.waiting && q.slot.id == r.slot.id && q.slot.acknowledged && q.slot.finishedStatus == OK
    && q.cfg == r.cfg && q.ids == r.ids && q.out == r.out + [R.FinishedMessage(r, OK)]
    && q.trace == r.trace + [Committed(r.slot.id, src.destPath, src.file)]
  }

  /** One retransmitted segment: the filled prefix grows, and the last one commits the file. */
  lemma FillStep(r: R.Receiver, src: Source, ranges: seq<Range>, p: nat, h: Header, body: Body, env: R.Env)
    requires Recovering(r, src, ranges, p) && CanReply(r) && Works(env) && R.Supports(r, h) && R.Matches(r, h)
    requires body.FileData? && TruthfulData(src, body) && p <= body.offset && Interval(p, body.offset) <= Denote(ranges)
    ensures var q, end := R.Receive(r, Decodable(h, body), env).0, body.offset + |body.data|;
            if Interval(end, |src.file|) <= Denote(ranges) then Done(r, q, src)
            else Recovering(q, src, ranges, end) && q == r.(slot := r.slot.(tmp := q.slot.tmp), ranges := q.ranges)
  {
    var end := body.offset + |body.data|;
    UptoStep(ranges, p, body.offset, end);
    UptoCount(ranges, end, r.cfg.lim.maxNakRanges);
    DataKeepsPartial(r, src, body);
    RR.AddRangeCovered(r, body);
    UptoWhole(ranges, end, |src.file|);
    var a := r.(slot := r.slot.(tmp := RR.TmpAfter(r, body)));
    var b := R.AddRange(a, body.offset, end);
    assert b == (a.(ranges := Upto(ranges, end)), OK);
    assert R.HandleFileData(r, h, body, env) == R.CompleteIfWhole(b.0, env);
    if R.HasRange(b.0.ranges, 0, |src.file|) {
      WholePartial(b.0, src);
      VerifySucceeds(b.0, src, env);
      CommitSucceeds(b.0, src, env);
    }
  }

  // ---- The round ----

  /** Taking PDUs one by one, the first of them message k. */
  function Take<T>(step: (T, Incoming, nat) -> T, t: T, pdus: seq<Incoming>, k: nat): T
    decreases |pdus|
  {
    if pdus == [] then t else Take(step, step(t, pdus[0], k), pdus[1..], k + 1)
  }

  function Receiving(env: nat -> R.Env): (R.Receiver, Incoming, nat) -> R.Receiver {
    (r: R.Receiver, pdu: Incoming, k: nat) => R.Receive(r, pdu, env(k)).0
  }

  /** Messages of `peer` as they reach an entity that decodes with `lim`. */
  function OnTheWire(peer: Config, lim: Limits, ms: seq<Message>): seq<Incoming>
    requires forall i :: 0 <= i < |ms| ==> peer.encoder(ms[i]).Ok?
  {
    seq(|ms|, i requires 0 <= i < |ms| => Parse(lim, peer.encoder(ms[i]).value))
  }

  /** The two ends of one transaction. */
  ghost predicate Ends(s: S.Sender, r: R.Receiver, src: Source) {
    && CanSend(s) && CanReply(r) && s.cfg.lim == r.cfg.lim && s.slot.id == r.slot.id
    && s.ids.local == r.ids.remote && s.ids.remote == r.ids.local && s.ids.idLen == r.ids.idLen && s.ids.seqLen == r.ids.seqLen
    && s.slot.active && s.slot.acknowledged && s.slot.handleOpen && s.slot.file == src.file
  }

  /** A delivered segment of the source file. */
  predicate Carries(r: R.Receiver, src: Source, pdu: Incoming, m: Message) {
    pdu.Decodable? && pdu.body == m.body && m.body.FileData? && R.Supports(r, pdu.header) && IdOf(pdu.header) == r.slot.id && TruthfulData(src, m.body)
  }

  lemma SegmentArrives(s: S.Sender, r: R.Receiver, src: Source, m: Message)
    requires Ends(s, r, src) && SR.Segment(s, m) && s.cfg.encoder(m).Ok?
    ensures Carries(r, src, Parse(r.cfg.lim, s.cfg.encoder(m).value), m)
  {
    ParseEncoded(s.cfg, m);
  }

  lemma CarriesTail(r: R.Receiver, q: R.Receiver, src: Source, pdus: seq<Incoming>, ms: seq<Message>)
    requires |pdus| == |ms| > 0 && forall i :: 0 <= i < |ms| ==> Carries(r, src, pdus[i], ms[i])
    requires q.ids == r.ids && q.slot.id == r.slot.id
    ensures forall i :: 0 <= i < |ms[1..]| ==> Carries(q, src, pdus[1..][i], ms[1..][i])
  {
  }

  /** Each segment that fills the next gap extends what is filled, and the last one commits. */
  ghost predicate FillsOn(step: (R.Receiver, Incoming, nat) -> R.Receiver, src: Source, ranges: seq<Range>) {
    forall r: R.Receiver, p: nat, h: Header, body: Body, k: nat ::
      Fillable(r, src, ranges, p, h, body) ==> FilledOnce(r, src, ranges, body, step(r, Decodable(h, body), k))
  }

  ghost predicate Fillable(r: R.Receiver, src: Source, ranges: seq<Range>, p: nat, h: Header, body: Body) {
    && Recovering(r, src, ranges, p) && CanReply(r) && R.Supports(r, h) && R.Matches(r, h)
    && body.FileData? && TruthfulData(src, body) && p <= body.offset && Interval(p, body.offset) <= Denote(ranges)
  }

  ghost predicate FilledOnce(r: R.Receiver, src: Source, ranges: seq<Range>, body: Body, q: R.Receiver)
    requires body.FileData?
  {
    var end := body.offset + |body.data|;
    if Interval(end, |src.file|) <= Denote(ranges) then Done(r, q, src)
    else Recovering(q, src, ranges, end) && q == r.(slot := r.slot.(tmp := q.slot.tmp), ranges := q.ranges)
  }

  lemma ReceivingFills(src: Source, ranges: seq<Range>, env: nat -> R.Env)
    requires forall k :: Works(env(k))
    ensures FillsOn(Receiving(env), src, ranges)
  {
    forall r: R.Receiver, p: nat, h: Header, body: Body, k: nat | Fillable(r, src, ranges, p, h, body)
      ensures FilledOnce(r, src, ranges, body, Receiving(env)(r, Decodable(h, body), k))
    {
      assert Works(env(k));
      FillStep(r, src, ranges, p, h, body, env(k));
    }
  }

  lemma {:induction false} DeliverFills(
    step: (R.Receiver, Incoming, nat) -> R.Receiver, r: R.Receiver, src: Source, ranges: seq<Range>, p: nat,
    ms: seq<Message>, pdus: seq<Incoming>, k: nat)
    requires FillsOn(step, src, ranges) && CanReply(r) && Recovering(r, src, ranges, p) && ms != [] && |pdus| == |ms|
    requires forall i :: 0 <= i < |ms| ==> Carries(r, src, pdus[i], ms[i])
    requires Fills(ranges, p, ms, |src.file|)
    ensures Done(r, Take(step, r, pdus, k), src)
    decreases |ms|
  {
    var m, rest := ms[0], ms[1..];
    assert Carries(r, src, pdus[0], m) && pdus[0] == Decodable(pdus[0].header, m.body);
    assert Fillable(r, src, ranges, p, pdus[0].header, m.body);
    var q := step(r, pdus[0], k);
    assert FilledOnce(r, src, ranges, m.body, q);
    var end := m.body.offset + |m.body.data|;
    if rest == [] {
      assert Interval(end, |src.file|) <= Denote(ranges);
      assert pdus[1..] == [];
    } else {
      MoreToFill(ranges, end, rest, |src.file|);
      CarriesTail(r, q, src, pdus, ms);
      DeliverFills(step, q, src, ranges, end, rest, pdus[1..], k + 1);
    }
  }

  lemma NakBuilds(r: R.Receiver, src: Source, env: R.Env)
    requires CanReply(r) && Recovering(r, src, r.ranges, 0) && env.acceptNak
    ensures var gs := Gaps(r.ranges, 0, |src.file|);
            && R.SendNak(r, env) == (r.(out := r.out + [R.NakMessage(r, gs)]), OK)
            && r.cfg.encoder(R.NakMessage(r, gs)).Ok?
            && Complements(gs, r.ranges, 0, |src.file|)
  {
    var gs := Gaps(r.ranges, 0, |src.file|);
    GapsCount(r.ranges, 0, 0, |src.file|);
    GapsFromCanonical(r.ranges, 0, 0, |src.file|);
    forall x | 0 <= x < |src.file| ensures Covers(gs, x) <==> !Covers(r.ranges, x) {
      GapsFromCovers(r.ranges, 0, 0, |src.file|, x);
    }
    Encodes(r.cfg, r.ids, R.NakMessage(r, gs));
  }

  lemma RetransmissionsFill(s: S.Sender, gs: seq<Range>, ranges: seq<Range>, env: S.Env)
    requires SegmentsEncode(s) && Accepts(env) && Complements(gs, ranges, 0, |s.slot.file|)
    ensures var b, segs := s.(slot := s.slot.(nakRounds := s.slot.nakRounds + 1)), Retransmissions(s, gs, env);
            && S.Retransmit(b, gs, env) == (b.(out := s.out + segs), OK)
            && SR.Segments(s, segs) && Fills(ranges, 0, segs, |s.slot.file|)
            && forall i :: 0 <= i < |segs| ==> s.cfg.encoder(segs[i]).Ok?
  {
    var b := s.(slot := s.slot.(nakRounds := s.slot.nakRounds + 1));
    SegmentsEncodeSame(s, b);
    RetransmitFills(b, gs, ranges, 0, env);
    RetransmitEncodable(b, gs, env);
    var c := S.Retransmit(b, gs, env).0;
    var segs := SR.Added(b, c);
    assert c.out == s.out + segs;
    forall i | 0 <= i < |segs| ensures s.cfg.encoder(segs[i]).Ok? && SR.Segment(s, segs[i]) {
      assert segs[i] == c.out[|s.out| + i] && SR.Segment(b, segs[i]);
    }
  }

  /** The sender's reaction to the NAK: every gap retransmitted in order, then EOF. */
  lemma NakAnswered(s: S.Sender, h: Header, gs: seq<Range>, ranges: seq<Range>, env: S.Env)
    requires SegmentsEncode(s) && s.cfg.encoder(S.EofMessage(s)).Ok? && Accepts(env)
    requires S.Supports(s, h) && S.Matches(s, h) && !h.unacknowledged
    requires s.slot.acknowledged && s.slot.handleOpen && s.slot.nakRounds < s.cfg.maxRounds
    requires Complements(gs, ranges, 0, |s.slot.file|)
    ensures var a := S.Receive(s, Decodable(h, Nak(0, |s.slot.file|, gs)), env);
            a.1 == OK && a.0 == Answered(s, Retransmissions(s, gs, env))
  {
    RetransmissionsFill(s, gs, ranges, env);
    var b := s.(slot := s.slot.(nakRounds := s.slot.nakRounds + 1));
    var c := S.Retransmit(b, gs, env).0;
    assert S.EofMessage(c) == S.EofMessage(s);
  }

  /** The sender after its answer to a NAK: one more round counted, the segments and EOF sent. */
  function Answered(s: S.Sender, segs: seq<Message>): S.Sender {
    s.(slot := s.slot.(nakRounds := s.slot.nakRounds + 1), out := s.out + segs + [S.EofMessage(s)])
  }

  /** What the sender retransmits for the requested ranges. */
  function Retransmissions(s: S.Sender, gs: seq<Range>, env: S.Env): seq<Message> {
    var out := S.Retransmit(s.(slot := s.slot.(nakRounds := s.slot.nakRounds + 1)), gs, env).0.out;
    if |s.out| <= |out| then out[|s.out|..] else []
  }

  /**
    If the receiver's range list has room for one more range, or its first range starts at 0,
    then the NAK builds, the sender answers it with retransmissions followed by EOF, and
    delivering the retransmissions in order commits the source file.
   */
  lemma OneRoundRecovery(s: S.Sender, r: R.Receiver, src: Source, senv: S.Env, nakEnv: R.Env, k: nat, env: nat -> R.Env)
    requires Ends(s, r, src) && s.slot.nakRounds < s.cfg.maxRounds
    requires Recovering(r, src, r.ranges, 0) && !(Interval(0, |src.file|) <= Denote(r.ranges))
    requires Accepts(senv) && nakEnv.acceptNak && forall n :: Works(env(n))
    ensures var gs := Gaps(r.ranges, 0, |src.file|);
            var nak := R.NakMessage(r, gs);
            var segs := Retransmissions(s, gs, senv);
            && R.SendNak(r, nakEnv) == (r.(out := r.out + [nak]), OK) && r.cfg.encoder(nak).Ok?
            && var a := S.Receive(s, Parse(s.cfg.lim, r.cfg.encoder(nak).value), senv);
            && a.1 == OK && a.0 == Answered(s, segs)
            && (forall i :: 0 <= i < |segs| ==> s.cfg.encoder(segs[i]).Ok?)
            && Done(R.SendNak(r, nakEnv).0, Take(Receiving(env), R.SendNak(r, nakEnv).0, OnTheWire(s.cfg, r.cfg.lim, segs), k), src)
  {
    var gs := Gaps(r.ranges, 0, |src.file|);
    var nak := R.NakMessage(r, gs);
    NakBuilds(r, src, nakEnv);
    ParseEncoded(r.cfg, nak);
    var h := Canon(r.cfg.lim, nak).header;
    SegmentsEncodeWhen(s);
    NakAnswered(s, h, gs, r.ranges, senv);
    RetransmissionsFill(s, gs, r.ranges, senv);
    RoundDelivers(s, r, src, Retransmissions(s, gs, senv), R.SendNak(r, nakEnv).0, k, env);
  }

  lemma RoundDelivers(s: S.Sender, r: R.Receiver, src: Source, segs: seq<Message>, q: R.Receiver, k: nat, env: nat -> R.Env)
    requires Ends(s, r, src) && q == r.(out := q.out) && Recovering(r, src, r.ranges, 0)
    requires !(Interval(0, |src.file|) <= Denote(r.ranges)) && forall n :: Works(env(n))
    requires SR.Segments(s, segs) && Fills(r.ranges, 0, segs, |src.file|)
    requires forall i :: 0 <= i < |segs| ==> s.cfg.encoder(segs[i]).Ok?
    ensures Done(q, Take(Receiving(env), q, OnTheWire(s.cfg, r.cfg.lim, segs), k), src)
  {
    var pdus := OnTheWire(s.cfg, r.cfg.lim, segs);
    forall i | 0 <= i < |segs| ensures Carries(q, src, pdus[i], segs[i]) {
      SegmentArrives(s, r, src, segs[i]);
    }
    ReceivingFills(src, r.ranges, env);
    DeliverFills(Receiving(env), q, src, r.ranges, 0, segs, pdus, k);
  }
}
