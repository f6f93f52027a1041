/**
  That lost segments are recovered: Metadata and EOF arrive, and of the segments any that do, in any
  order and any number of times.  The receiver then asks for exactly what is missing, and even if
  that NAK is lost, one due poll later the transfer ends in COMPLETE on both sides.
 */
module CfdpLoss {
  import opened CfdpTypes
  import opened CfdpRanges
  import opened CfdpChecksum
  import opened CfdpPdu
  import opened CfdpCore
  import opened CfdpSystem
  import opened CfdpRecovery
  import opened CfdpExchange
  import opened CfdpCompletion
  import opened CfdpTimers
  import opened CfdpRepair
  import S = CfdpSender
  import SR = CfdpSenderRuns
  import R = CfdpReceiver
  import RR = CfdpReceiverRuns
  import D = CfdpDelivery

  // ---- The receiver, whatever arrives ----

  /** A receiver that was opened as `q` and has since stored some of the file. */
  ghost predicate Gathering(q: R.Receiver, r: R.Receiver, src: Source) {
    && r == q.(slot := q.slot.(tmp := r.slot.tmp), ranges := r.ranges)
    && Filling(q, src.file) && RR.Inv(r) && Partial(r, src)
  }

  function RangeOf(body: Body): Range {
    if body.FileData? then Range(body.offset, body.offset + |body.data|) else Range(0, 0)
  }

  /** One segment that fits the range list. */
  lemma GatherStep(q: R.Receiver, r: R.Receiver, src: Source, h: Header, body: Body, env: R.Env)
    requires Gathering(q, r, src) && R.Supports(q, h) && IdOf(h) == q.slot.id && body.FileData? && TruthfulData(src, body) && env.writeOk
    requires |Insert(r.ranges, RangeOf(body))| <= r.cfg.lim.maxNakRanges
    ensures var t := R.Receive(r, Decodable(h, body), env).0;
            Gathering(q, t, src) && t.ranges == Insert(r.ranges, RangeOf(body))
  {
    var end := body.offset + |body.data|;
    DataKeepsPartial(r, src, body);
    RR.AddRangeCovered(r, body);
    var a := r.(slot := r.slot.(tmp := RR.TmpAfter(r, body)));
    var b := R.AddRange(a, body.offset, end);
    assert b == (a.(ranges := Insert(r.ranges, RangeOf(body))), OK);
    assert R.HandleFileData(r, h, body, env) == b;
  }

  /** Something is missing: a NAK goes out and the timer is armed. */
  lemma RecoveryBegins(r: R.Receiver, src: Source, env: R.Env)
    requires RR.Inv(r) && Partial(r, src) && Filling(r, src.file) && CanReply(r) && r.slot.acknowledged && env.acceptNak
    requires src.kind == r.slot.kind && r.slot.eofChecksum == WholeFile(r.cfg.lib, src.kind, src.file)
    requires HasRoom(r.ranges, r.cfg.lim.maxNakRanges) && !(Interval(0, |src.file|) <= Denote(r.ranges))
    ensures var t := R.CompleteOrRecover(r, env);
            && t.1 == OK && Recovering(t.0, src, r.ranges, 0)
            && t.0 == r.(slot := r.slot.(eofReceived := true, recoveryPending := true, retries := 0, deadline := ArmRetry(r.cfg, env.now)),
                         out := r.out + [R.NakMessage(r, Gaps(r.ranges, 0, |src.file|))])
  {
    RR.CompleteMeansCovered(r.ranges, |src.file|);
    var c := r.(slot := r.slot.(eofReceived := true));
    assert R.NakMessage(c, Gaps(r.ranges, 0, |src.file|)) == R.NakMessage(r, Gaps(r.ranges, 0, |src.file|));
    NakBuilds(c, src, env);
  }

  /** What is left to do: the file is partly there, EOF is in, and a NAK has gone out. */
  ghost predicate Missing(q: R.Receiver, r: R.Receiver, t: R.Receiver, src: Source) {
    && Recovering(t, src, t.ranges, 0) && t.slot.recoveryPending && t.slot.retries == 0 && t.ranges == r.ranges
    && t.slot.id == q.slot.id && CanReply(t) && t.cfg == q.cfg && t.ids == q.ids && t.trace == q.trace
    && t.out == q.out + [R.AckEofMessage(q, NO_ERROR)] + [R.NakMessage(q, Gaps(r.ranges, 0, |src.file|))]
  }

  /** The receiver with a good EOF recorded and acknowledged. */
  function WithEof(r: R.Receiver, sum: nat): R.Receiver {
    r.(slot := r.slot.(eofChecksum := sum), out := r.out + [R.AckEofMessage(r, NO_ERROR)])
  }

  lemma EofRecorded(r: R.Receiver, h: Header, sum: nat, env: R.Env)
    requires r.slot.active && r.slot.acknowledged && !r.slot.waiting && R.Supports(r, h) && IdOf(h) == r.slot.id
    requires CanReply(r) && env.acceptAck && R.CompleteOrRecover(WithEof(r, sum), env).1 == OK
    ensures R.Receive(r, Decodable(h, Eof(NO_ERROR, sum, r.slot.fileSize)), env) == R.CompleteOrRecover(WithEof(r, sum), env)
  {
    RepliesEncode(r);
    var a := r.(slot := r.slot.(eofChecksum := sum));
    assert R.AckEofMessage(a, NO_ERROR) == R.AckEofMessage(r, NO_ERROR);
  }

  lemma EofGathered(q: R.Receiver, r: R.Receiver, src: Source, sum: nat)
    requires Gathering(q, r, src) && CanReply(q)
    ensures var b := WithEof(r, sum); RR.Inv(b) && Partial(b, src) && Filling(b, src.file) && CanReply(b) && CanReply(r)
  {
  }

  /** EOF arrives while something is missing: it is acknowledged, and recovery begins. */
  lemma EofStalls(q: R.Receiver, r: R.Receiver, src: Source, h: Header, env: R.Env)
    requires Gathering(q, r, src) && R.Supports(q, h) && IdOf(h) == q.slot.id && CanReply(q) && q.slot.acknowledged
    requires env.acceptAck && env.acceptNak && src.kind == q.slot.kind
    requires HasRoom(r.ranges, r.cfg.lim.maxNakRanges) && !(Interval(0, |src.file|) <= Denote(r.ranges))
    ensures var eof := Eof(NO_ERROR, WholeFile(r.cfg.lib, src.kind, src.file), |src.file|);
            Missing(q, r, R.Receive(r, Decodable(h, eof), env).0, src)
  {
    var sum := WholeFile(r.cfg.lib, src.kind, src.file);
    EofGathered(q, r, src, sum);
    RecoveryBegins(WithEof(r, sum), src, env);
    EofRecorded(r, h, sum, env);
  }

  // ---- The run ----

  /** Delivering chosen messages of the sender, in the order given. */
  function DeliverSome(sys: System, ks: seq<nat>, env: nat -> R.Env): System {
    if ks == [] then sys else HandOver(DeliverSome(sys, ks[..|ks| - 1], env), ks[|ks| - 1], env(ks[|ks| - 1]))
  }

  lemma {:induction false} SomeReached(sys: System, ks: seq<nat>, env: nat -> R.Env)
    requires Reached(sys)
    ensures Reached(DeliverSome(sys, ks, env))
  {
    if ks != [] {
      SomeReached(sys, ks[..|ks| - 1], env);
      HandOverReached(DeliverSome(sys, ks[..|ks| - 1], env), ks[|ks| - 1], env(ks[|ks| - 1]));
    }
  }

  /** Every message chosen is a segment of the sender's file. */
  ghost predicate Chosen(s: S.Sender, out: seq<Message>, ks: seq<nat>) {
    forall i :: 0 <= i < |ks| ==> ks[i] < |out| && SR.Segment(s, out[ks[i]]) && s.cfg.encoder(out[ks[i]]).Ok?
  }

  /** The ranges they bring. */
  function RangesOf(out: seq<Message>, ks: seq<nat>): seq<Range>
    requires forall i :: 0 <= i < |ks| ==> ks[i] < |out|
  {
    seq(|ks|, i requires 0 <= i < |ks| => RangeOf(out[ks[i]].body))
  }

  lemma SegmentGathered(s: S.Sender, q: R.Receiver, r: R.Receiver, src: Source, m: Message, env: R.Env)
    requires Gathering(q, r, src) && Paired(s, q) && Addressed(s) && q.slot.id == s.slot.id && s.slot.file == src.file
    requires SR.Segment(s, m) && s.cfg.encoder(m).Ok? && env.writeOk
    requires |Insert(r.ranges, RangeOf(m.body))| <= r.cfg.lim.maxNakRanges
    ensures var t := R.Receive(r, Parse(r.cfg.lim, s.cfg.encoder(m).value), env).0;
            Gathering(q, t, src) && t.ranges == Insert(r.ranges, RangeOf(m.body))
  {
    SegmentCarried(s, q, src, m);
    var pdu := Parse(q.cfg.lim, s.cfg.encoder(m).value);
    GatherStep(q, r, src, pdu.header, m.body, env);
  }

  lemma AddLast(s: seq<Range>, out: seq<Message>, ks: seq<nat>, capacity: nat)
    requires (forall i :: 0 <= i < |ks| ==> ks[i] < |out|) && ks != []
    ensures AddAll(s, RangesOf(out, ks), capacity)
         == var before := AddAll(s, RangesOf(out, ks[..|ks| - 1]), capacity);
            if before.None? then None else AddTo(before.value, RangeOf(out[ks[|ks| - 1]].body), capacity)
  {
    var rs := RangesOf(out, ks);
    assert rs[..|rs| - 1] == RangesOf(out, ks[..|ks| - 1]);
  }

  /** The ends of the transaction while the file comes in. */
  ghost predicate Link(s: S.Sender, q: R.Receiver, src: Source) {
    Paired(s, q) && Addressed(s) && q.slot.id == s.slot.id && s.slot.file == src.file
  }

  lemma HandOverGathered(sys: System, s: S.Sender, q: R.Receiver, src: Source, k: nat, env: R.Env)
    requires Gathering(q, sys.b, src) && Link(s, q, src) && sys.a.cfg == s.cfg && Cooperates(env)
    requires k < |sys.a.out| && SR.Segment(s, sys.a.out[k]) && s.cfg.encoder(sys.a.out[k]).Ok?
    requires AddTo(sys.b.ranges, RangeOf(sys.a.out[k].body), q.cfg.lim.maxNakRanges).Some?
    ensures var t := HandOver(sys, k, env);
            && t == sys.(b := t.b) && Gathering(q, t.b, src)
            && AddTo(sys.b.ranges, RangeOf(sys.a.out[k].body), q.cfg.lim.maxNakRanges) == Some(t.b.ranges)
  {
    SegmentGathered(s, q, sys.b, src, sys.a.out[k], env);
  }

  /** Any choice of segments, in any order, is gathered as long as the range list can hold what is there. */
  lemma {:induction false} SomeGathered(sys: System, s: S.Sender, q: R.Receiver, src: Source, ks: seq<nat>, env: nat -> R.Env)
    requires Gathering(q, sys.b, src) && Link(s, q, src)
    requires sys.a.cfg == s.cfg && Chosen(s, sys.a.out, ks) && forall i :: Cooperates(env(i))
    requires AddAll(sys.b.ranges, RangesOf(sys.a.out, ks), q.cfg.lim.maxNakRanges).Some?
    ensures var t := DeliverSome(sys, ks, env);
            && t == sys.(b := t.b) && Gathering(q, t.b, src)
            && AddAll(sys.b.ranges, RangesOf(sys.a.out, ks), q.cfg.lim.maxNakRanges) == Some(t.b.ranges)
  {
    if ks != [] {
      var init, k := ks[..|ks| - 1], ks[|ks| - 1];
      AddLast(sys.b.ranges, sys.a.out, ks, q.cfg.lim.maxNakRanges);
      SomeGathered(sys, s, q, src, init, env);
      HandOverGathered(DeliverSome(sys, init, env), s, q, src, k, env(k));
    }
  }

  /** Message k, then the chosen ones, then message e. */
  function Scatter(s1: System, k: nat, ks: seq<nat>, e: nat, env: nat -> R.Env): System {
    HandOver(DeliverSome(HandOver(s1, k, env(k)), ks, env), e, env(e))
  }

  lemma ScatterReached(s1: System, k: nat, ks: seq<nat>, e: nat, env: nat -> R.Env)
    requires Reached(s1)
    ensures Reached(Scatter(s1, k, ks, e, env))
  {
    HandOverReached(s1, k, env(k));
    SomeReached(HandOver(s1, k, env(k)), ks, env);
    HandOverReached(DeliverSome(HandOver(s1, k, env(k)), ks, env), e, env(e));
  }

  lemma EmptyGathering(sys: System, s: S.Sender, q: R.Receiver, request: S.PutRequest, file: seq<byte>)
    requires Ready(s, sys.b, request) && Fresh(sys.b, q, s.slot.id, request, file) && s.slot.file == file && RR.Inv(Held(q, file, 0))
    requires request.acknowledged
    ensures Gathering(q, Held(q, file, 0), SourceFor(request, file)) && Link(s, q, SourceFor(request, file))
  {
  }

  /** Metadata arrives. */
  lemma OpenedPhase(sys: System, s1: System, s: S.Sender, request: S.PutRequest, segs: seq<Message>, k: nat, env: R.Env, file: seq<byte>)
    returns (q: R.Receiver)
    requires AfterPut(sys, s1, s, request, segs, file) && k == |sys.a.out| && Cooperates(env)
    ensures HandOver(s1, k, env) == s1.(b := Held(q, file, 0))
    ensures Fresh(sys.b, q, s.slot.id, request, file) && CanReply(q)
    ensures Gathering(q, Held(q, file, 0), SourceFor(request, file)) && Link(s, q, SourceFor(request, file))
  {
    assert s1.a.out[k] == S.MetadataMessage(s, request);
    q := MetadataTaken(s, sys.b, request, env);
    HandOverKeepsTidy(s1, k, env);
    EmptyGathering(sys, s, q, request, file);
  }

  /** The messages between Metadata and EOF are segments. */
  lemma ChosenSegments(sys: System, s1: System, s: S.Sender, request: S.PutRequest, segs: seq<Message>, ks: seq<nat>, file: seq<byte>)
    requires AfterPut(sys, s1, s, request, segs, file)
    requires forall i :: 0 <= i < |ks| ==> |sys.a.out| < ks[i] < |s1.a.out| - 1
    ensures Chosen(s, s1.a.out, ks)
  {
    forall i | 0 <= i < |ks| ensures ks[i] < |s1.a.out| && SR.Segment(s, s1.a.out[ks[i]]) && s.cfg.encoder(s1.a.out[ks[i]]).Ok? {
      assert s1.a.out[ks[i]] == segs[ks[i] - |sys.a.out| - 1];
    }
  }

  /** EOF arrives while something is missing. */
  lemma EofMisses(s2: System, s: S.Sender, q: R.Receiver, src: Source, e: nat, env: R.Env)
    requires Gathering(q, s2.b, src) && Link(s, q, src) && CanReply(q) && q.slot.acknowledged && s2.a.cfg == s.cfg
    requires env.acceptAck && env.acceptNak && src.kind == q.slot.kind
    requires s.slot.eofChecksum == WholeFile(s.cfg.lib, src.kind, src.file)
    requires e < |s2.a.out| && s2.a.out[e] == S.EofMessage(s) && s.cfg.encoder(S.EofMessage(s)).Ok?
    requires HasRoom(s2.b.ranges, q.cfg.lim.maxNakRanges) && !(Interval(0, |src.file|) <= Denote(s2.b.ranges))
    ensures var t := HandOver(s2, e, env); t == s2.(b := t.b) && Missing(q, s2.b, t.b, src)
  {
    var h := Arrives(s, q, S.EofMessage(s));
    EofStalls(q, s2.b, src, h, env);
  }

  /** A receiver that misses something, once its timer is due. */
  lemma MissingStalls(sys: System, s: S.Sender, q: R.Receiver, r: R.Receiver, src: Source, now: nat)
    requires Missing(q, r, sys.b, src) && Link(s, q, src) && sys.a == s && CanSend(s) && s.slot.active && s.slot.acknowledged && s.slot.handleOpen
    requires s.slot.nakRounds < s.cfg.maxRounds && !(Interval(0, |src.file|) <= Denote(r.ranges))
    requires Due(sys.b.slot.deadline, now) && sys.b.cfg.maxRounds > 0
    ensures Stalled(sys.a, sys.b, src, now)
  {
  }

  /** What the chosen segments leave fits the range list with room to spare, and something is missing. */
  ghost predicate LeavesGaps(out: seq<Message>, ks: seq<nat>, size: nat, limit: nat)
    requires forall i :: 0 <= i < |ks| ==> ks[i] < |out|
  {
    var ranges := AddAll([], RangesOf(out, ks), limit);
    ranges.Some? && HasRoom(ranges.value, limit) && !(Interval(0, size) <= Denote(ranges.value))
  }

  lemma SomeArrive(
    sys: System, s1: System, s: S.Sender, request: S.PutRequest, segs: seq<Message>, k: nat, ks: seq<nat>, renv: nat -> R.Env, file: seq<byte>)
    returns (q: R.Receiver)
    requires AfterPut(sys, s1, s, request, segs, file) && k == |sys.a.out| && forall i :: Cooperates(renv(i))
    requires forall i :: 0 <= i < |ks| ==> k < ks[i] < |s1.a.out| - 1
    requires LeavesGaps(s1.a.out, ks, |file|, sys.b.cfg.lim.maxNakRanges)
    ensures var s2, src := DeliverSome(HandOver(s1, k, renv(k)), ks, renv), SourceFor(request, file);
            && s2 == s1.(b := s2.b) && Gathering(q, s2.b, src) && Link(s, q, src)
            && HasRoom(s2.b.ranges, q.cfg.lim.maxNakRanges) && !(Interval(0, |file|) <= Denote(s2.b.ranges))
    ensures Fresh(sys.b, q, s.slot.id, request, file) && CanReply(q)
  {
    q := OpenedPhase(sys, s1, s, request, segs, k, renv(k), file);
    ChosenSegments(sys, s1, s, request, segs, ks, file);
    SomeGathered(s1.(b := Held(q, file, 0)), s, q, SourceFor(request, file), ks, renv);
  }

  /** Then the EOF, and recovery begins. */
  lemma ScatterMisses(
    sys: System, s1: System, s: S.Sender, request: S.PutRequest, segs: seq<Message>, k: nat, ks: seq<nat>, e: nat, renv: nat -> R.Env, file: seq<byte>)
    returns (q: R.Receiver, r: R.Receiver)
    requires AfterPut(sys, s1, s, request, segs, file) && k == |sys.a.out| && (forall i :: Cooperates(renv(i))) && renv(e).acceptNak
    requires e + 1 == |s1.a.out| && forall i :: 0 <= i < |ks| ==> k < ks[i] < e
    requires LeavesGaps(s1.a.out, ks, |file|, sys.b.cfg.lim.maxNakRanges)
    ensures var s3 := Scatter(s1, k, ks, e, renv);
            && s3 == s1.(b := s3.b) && Missing(q, r, s3.b, SourceFor(request, file)) && Link(s, q, SourceFor(request, file))
            && !(Interval(0, |file|) <= Denote(r.ranges))
    ensures Fresh(sys.b, q, s.slot.id, request, file)
  {
    q := SomeArrive(sys, s1, s, request, segs, k, ks, renv, file);
    var s2 := DeliverSome(HandOver(s1, k, renv(k)), ks, renv);
    r := s2.b;
    assert Cooperates(renv(e)) && s1.a.out[e] == S.EofMessage(s);
    EofMisses(s2, s, q, SourceFor(request, file), e, renv(e));
  }

  /** After send_file: whatever segments arrive, and even if the NAK for the others is lost, one due poll recovers the file. */
  lemma LossRecovered(
    sys: System, s1: System, s: S.Sender, request: S.PutRequest, segs: seq<Message>, k: nat, ks: seq<nat>, e: nat,
    s3: System, now: nat, poll: R.Env, n: nat, senv: nat -> S.Env, renv: nat -> R.Env, file: seq<byte>)
    requires AfterPut(sys, s1, s, request, segs, file) && k == |sys.a.out| && (forall i :: Cooperates(renv(i))) && renv(e).acceptNak
    requires e + 1 == |s1.a.out| && forall i :: 0 <= i < |ks| ==> k < ks[i] < e
    requires LeavesGaps(s1.a.out, ks, |file|, sys.b.cfg.lim.maxNakRanges)
    requires s3 == Scatter(s1, k, ks, e, renv) && Due(s3.b.slot.deadline, now) && poll.acceptNak && forall i :: Accepts(senv(i))
    requires sys.a.cfg.maxRounds > 0 && sys.b.cfg.maxRounds > 0 && n + 1 == |NakAgain(s3, now, poll, senv).a.out|
    ensures Recovered(s3, ToB(NakAgain(s3, now, poll, senv), |s3.a.out|, n, renv), SourceFor(request, file))
    ensures s3.a == s && s3.first == sys.first && s3.b.slot.id == s.slot.id && s3.b.trace == sys.b.trace + [Activated(s.slot.id)]
  {
    var q, r := ScatterMisses(sys, s1, s, request, segs, k, ks, e, renv, file);
    MissingStalls(s3, s, q, r, SourceFor(request, file), now);
    LostNakRepaired(s3, SourceFor(request, file), now, poll, senv, n, renv);
  }

  lemma RecoveredSucceeds(sys: System, s3: System, s5: System, src: Source, senv: nat -> S.Env, renv: nat -> R.Env)
    requires Recovered(s3, s5, src) && s3.first == sys.first && s3.a.ids == sys.a.ids && forall i :: Accepts(senv(i))
    requires s3.b.slot.id == TxnId(sys.a.ids.local, sys.a.nextSeqno) && s3.a.trace == sys.a.trace + [Activated(s3.b.slot.id)]
    requires s3.b.trace == sys.b.trace + [Activated(s3.b.slot.id)]
    ensures Succeeded(sys, Closing(s5, senv, renv), s3.b.slot.id, src.destPath, src.file)
  {
    ClosingCloses(s5, s3.b, senv, renv);
  }

  /** The receiver's NAK, sent again, and the retransmissions, from a given state. */
  function Recovery(s3: System, now: nat, poll: R.Env, n: nat, senv: nat -> S.Env, renv: nat -> R.Env): System {
    ToB(NakAgain(s3, now, poll, senv), |s3.a.out|, n, renv)
  }

  lemma RecoveryReached(s3: System, now: nat, poll: R.Env, n: nat, senv: nat -> S.Env, renv: nat -> R.Env)
    requires Reached(s3)
    ensures Reached(Recovery(s3, now, poll, n, senv, renv))
  {
    PollBReached(s3, now, poll);
    var p := PollB(s3, now, poll);
    ToAReached(p, |s3.b.out|, |p.b.out|, senv);
    ToBReached(NakAgain(s3, now, poll, senv), |s3.a.out|, n, renv);
  }

  lemma LossReached(
    sys: System, request: S.PutRequest, put: S.Env, ks: seq<nat>, e: nat, s3: System, now: nat, poll: R.Env, n: nat,
    senv: nat -> S.Env, renv: nat -> R.Env)
    requires Reached(sys) && s3 == Scatter(PutFile(sys, request, put), |sys.a.out|, ks, e, renv)
    ensures Reached(Closing(Recovery(s3, now, poll, n, senv, renv), senv, renv))
  {
    PutReached(sys, request, put);
    ScatterReached(PutFile(sys, request, put), |sys.a.out|, ks, e, renv);
    RecoveryReached(s3, now, poll, n, senv, renv);
    ClosingReached(Recovery(s3, now, poll, n, senv, renv), senv, renv);
  }

  /**
    From any reached state with both slots free: an acknowledged send_file of which Metadata, EOF
    and any choice of segments arrive, in any order and any number of times, with something
    missing and room in the range list; the NAK for it lost; a poll of the receiver once its timer
    is due; and the delivery of what follows.  It is a run that ends with the file committed and
    COMPLETE on both sides.
   */
  lemma LostSegmentsComplete(
    sys: System, request: S.PutRequest, put: S.Env, s1: System, ks: seq<nat>, e: nat, s3: System, now: nat, poll: R.Env, n: nat,
    senv: nat -> S.Env, renv: nat -> R.Env, file: seq<byte>, end: System)
    requires Reached(sys) && Setting(sys, request, put, file) && request.acknowledged && file != [] && s1 == PutFile(sys, request, put)
    requires e + 1 == |s1.a.out| && forall i :: 0 <= i < |ks| ==> |sys.a.out| < ks[i] < e
    requires LeavesGaps(s1.a.out, ks, |file|, sys.b.cfg.lim.maxNakRanges)
    requires s3 == Scatter(s1, |sys.a.out|, ks, e, renv) && Due(s3.b.slot.deadline, now)
    requires (forall i :: Accepts(senv(i))) && (forall i :: Cooperates(renv(i))) && renv(e).acceptNak && poll.acceptNak
    requires sys.a.cfg.maxRounds > 0 && sys.b.cfg.maxRounds > 0 && n + 1 == |NakAgain(s3, now, poll, senv).a.out|
    requires end == Closing(Recovery(s3, now, poll, n, senv, renv), senv, renv)
    ensures Reached(end) && Succeeded(sys, end, TxnId(sys.a.ids.local, sys.a.nextSeqno), request.destPath, file)
  {
    ReachedInv(sys);
    PutIsTidy(sys, request, put);
    var segs, s := PutLeads(sys, request, put, file, s1);
    LossRecovered(sys, s1, s, request, segs, |sys.a.out|, ks, e, s3, now, poll, n, senv, renv, file);
    RecoveredSucceeds(sys, s3, Recovery(s3, now, poll, n, senv, renv), SourceFor(request, file), senv, renv);
    LossReached(sys, request, put, ks, e, s3, now, poll, n, senv, renv);
  }
}
