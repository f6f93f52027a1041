/**
  That the timers repair what is lost: if the EOF, the Finished or the NAK of an acknowledged
  transfer is lost, one due poll sends it again and the transfer still ends in COMPLETE on both
  sides with the file committed.
 */
module CfdpRepair {
  import opened CfdpTypes
  import opened CfdpRanges
  import opened CfdpChecksum
  import opened CfdpPdu
  import opened CfdpCore
  import opened CfdpSystem
  import opened CfdpRecovery
  import opened CfdpExchange
  import opened CfdpCompletion
  import opened CfdpTimers
  import S = CfdpSender
  import SR = CfdpSenderRuns
  import R = CfdpReceiver
  import RR = CfdpReceiverRuns
  import D = CfdpDelivery

  // ---- One Finished closes the transaction ----

  lemma FinishedTaken(s: S.Sender, q: R.Receiver, k: nat, env: nat -> S.Env)
    requires Opposite(s, q) && Accepts(env(k))
    ensures q.cfg.encoder(R.FinishedMessage(q, OK)).Ok?
    ensures Take(Sending(env), s, OnTheWire(q.cfg, s.cfg.lim, [R.FinishedMessage(q, OK)]), k)
         == S.Release(s.(out := s.out + [S.AckFinishedMessage(s, NO_ERROR)]), OK)
    ensures s.cfg.encoder(S.AckFinishedMessage(s, NO_ERROR)).Ok?
  {
    RepliesEncode(q);
    var fin := R.FinishedMessage(q, OK);
    var y := Parse(s.cfg.lim, q.cfg.encoder(fin).value);
    assert OnTheWire(q.cfg, s.cfg.lim, [fin]) == [y];
    SenderCompletes(s, q, y, k, env);
    TakeOne(Sending(env), s, y, k);
  }

  lemma FinishedPhase(sys: System, q: R.Receiver, k: nat, env: nat -> S.Env)
    requires Opposite(sys.a, q) && q.cfg == sys.b.cfg && Accepts(env(k))
    requires k + 1 == |sys.b.out| && sys.b.out[k] == R.FinishedMessage(q, OK)
    ensures ToA(sys, k, |sys.b.out|, env) == sys.(a := S.Release(sys.a.(out := sys.a.out + [S.AckFinishedMessage(sys.a, NO_ERROR)]), OK))
    ensures sys.a.cfg.encoder(S.AckFinishedMessage(sys.a, NO_ERROR)).Ok?
  {
    var ms := [R.FinishedMessage(q, OK)];
    assert sys.b.out[k..|sys.b.out|] == ms;
    FinishedTaken(sys.a, q, k, env);
    ToAGives(sys, k, |sys.b.out|, env, ms);
  }

  /** The last reply, which is a Finished, is delivered, and then the answer to it. */
  function Closing(sys: System, senv: nat -> S.Env, renv: nat -> R.Env): System {
    var s3 := ToA(sys, if |sys.b.out| > 0 then |sys.b.out| - 1 else 0, |sys.b.out|, senv);
    ToB(s3, |sys.a.out|, |s3.a.out|, renv)
  }

  /** A receiver that has committed and waits, with a Finished as its latest message. */
  ghost predicate Waits(sys: System, q: R.Receiver) {
    && RR.Inv(sys.b) && Opposite(sys.a, q) && Addressed(sys.a) && q.cfg == sys.b.cfg && q.ids == sys.b.ids
    && sys.b.slot.active && sys.b.slot.id == q.slot.id && sys.b.slot.finishedStatus == OK
    && |sys.b.out| > 0 && sys.b.out[|sys.b.out| - 1] == R.FinishedMessage(q, OK)
  }

  /** It is the transfer of this file, begun in `sys`, that is to be closed. */
  ghost predicate Closable(sys: System, s4: System, q: R.Receiver, destPath: seq<byte>, file: seq<byte>) {
    var id := TxnId(sys.a.ids.local, sys.a.nextSeqno);
    && Waits(s4, q) && s4.first == sys.first && s4.a.ids == sys.a.ids && s4.a.slot.id == id == s4.b.slot.id
    && s4.a.trace == sys.a.trace + [Activated(id)]
    && s4.b.trace == sys.b.trace + [Activated(id)] + [Committed(id, destPath, file)]
  }

  /** Then closing it succeeds on both sides. */
  lemma ClosingSucceeds(sys: System, s4: System, q: R.Receiver, destPath: seq<byte>, file: seq<byte>, senv: nat -> S.Env, renv: nat -> R.Env)
    requires Closable(sys, s4, q, destPath, file) && forall i :: Accepts(senv(i))
    ensures var end := Closing(s4, senv, renv);
            Succeeded(sys, end, TxnId(sys.a.ids.local, sys.a.nextSeqno), destPath, file)
  {
    ClosingCloses(s4, q, senv, renv);
  }

  lemma ClosingReached(sys: System, senv: nat -> S.Env, renv: nat -> R.Env)
    requires Reached(sys)
    ensures Reached(Closing(sys, senv, renv))
  {
    var k := if |sys.b.out| > 0 then |sys.b.out| - 1 else 0;
    ToAReached(sys, k, |sys.b.out|, senv);
    var s3 := ToA(sys, k, |sys.b.out|, senv);
    ToBReached(s3, |sys.a.out|, |s3.a.out|, renv);
  }

  lemma ClosingCloses(sys: System, q: R.Receiver, senv: nat -> S.Env, renv: nat -> R.Env)
    requires Waits(sys, q) && forall i :: Accepts(senv(i))
    ensures Closing(sys, senv, renv)
         == sys.(a := S.Release(sys.a.(out := sys.a.out + [S.AckFinishedMessage(sys.a, NO_ERROR)]), OK), b := R.Release(sys.b, OK))
  {
    var k := |sys.b.out| - 1;
    FinishedPhase(sys, q, k, senv);
    AckPhase(ToA(sys, k, |sys.b.out|, senv), sys.a, renv);
  }

  // ---- After send_file ----

  /**
    A state in which an acknowledged send_file of a nonempty file has just returned, begun
    in `sys`; `s` is the sender, which waits, and its last messages are Metadata, the segments and EOF.
   */
  ghost predicate AfterPut(sys: System, s1: System, s: S.Sender, request: S.PutRequest, segs: seq<Message>, file: seq<byte>) {
    && PutDone(sys, s1, s, request, segs, file) && request.acknowledged && s1.a == s && CanSend(s)
    && s1.first == sys.first
  }

  lemma PutIsReady(sys: System, s1: System, s: S.Sender, request: S.PutRequest, segs: seq<Message>, file: seq<byte>)
    requires Wired(sys) && RR.Inv(sys.b) && !sys.b.slot.active && 0 < |file| < U32 && Supported(request.kind) && request.acknowledged
    requires Roomy(sys.a.cfg, sys.a.ids) && IdsFit(sys.a.cfg.lim, sys.a.ids, sys.a.nextSeqno)
    requires Roomy(sys.b.cfg, sys.b.ids) && sys.b.cfg.lim.maxNakRanges >= 1 && Emitter(sys, s, request, file, segs)
    requires Tidy(s1) && s1.a == s && s1.b == sys.b && s1.first == sys.first
    ensures AfterPut(sys, s1, s, request, segs, file)
  {
  }

  /** send_file leads there, with its timer armed; by `PutIsTidy` this holds wherever the system invariant does. */
  lemma PutLeads(sys: System, request: S.PutRequest, put: S.Env, file: seq<byte>, s1: System)
    returns (segs: seq<Message>, s: S.Sender)
    requires Setting(sys, request, put, file) && request.acknowledged && file != []
    requires s1 == PutFile(sys, request, put) && Tidy(s1)
    ensures AfterPut(sys, s1, s, request, segs, file)
    ensures s.slot.deadline == ArmRetry(s.cfg, S.Now(put))
  {
    segs, s := PutPhase(sys, request, put, file);
    PutIsReady(sys, s1, s, request, segs, file);
  }

  // ---- A lost EOF ----

  /** A due poll of the sender, and what it emits is delivered. */
  function EofAgain(mid: System, now: nat, poll: S.Env, renv: nat -> R.Env): System {
    var s3 := PollA(mid, now, poll);
    ToB(s3, |mid.a.out|, |s3.a.out|, renv)
  }

  /** A due poll of a sender that can send repeats its EOF. */
  lemma TickRepeatsEof(s: S.Sender, now: nat, env: S.Env)
    requires CanSend(s) && s.slot.active && s.slot.acknowledged && !s.slot.finishedReceived && Due(s.slot.deadline, now)
    requires s.slot.retries < s.cfg.maxRounds && Accepts(env)
    ensures var q := S.Poll(s, now, env);
            && q == s.(out := s.out + [S.EofMessage(s)], slot := s.slot.(retries := q.slot.retries, deadline := q.slot.deadline))
            && S.EofMessage(q) == S.EofMessage(s) && s.cfg.encoder(S.EofMessage(s)).Ok?
  {
    SegmentsEncodeWhen(s);
    SenderPollExactly(s, now, env);
    assert EofOf(s) == S.EofMessage(s);
  }

  /** The sender with its EOF sent again. */
  predicate Repeated(s: S.Sender, a: S.Sender) {
    && a.out == s.out + [S.EofMessage(s)]
    && a.slot == s.slot.(retries := a.slot.retries, deadline := a.slot.deadline)
    && a.ids == s.ids && a.trace == s.trace
  }

  /** It reaches a receiver that holds the whole file. */
  lemma EofRepaired(
    sys: System, s1: System, s: S.Sender, s3: System, q: R.Receiver, request: S.PutRequest, segs: seq<Message>,
    renv: nat -> R.Env, file: seq<byte>)
    requires AfterPut(sys, s1, s, request, segs, file) && forall i :: Cooperates(renv(i))
    requires Fresh(sys.b, q, s.slot.id, request, file) && CanReply(q)
    requires Tidy(s3) && s3.b == Held(q, file, |file|) && s3.first == s1.first && s3.a.cfg == s.cfg && Repeated(s, s3.a)
    ensures Closable(sys, ToB(s3, |s.out|, |s3.a.out|, renv), q, request.destPath, file)
  {
    var t := EofPhase(s3, s, sys.b, q, request, |s.out|, renv);
    ToBKeepsTidy(s3, |s.out|, |s3.a.out|, renv);
  }

  lemma EofRepeated(mid: System, s: S.Sender, now: nat, poll: S.Env) returns (s3: System)
    requires Tidy(mid) && mid.a == s && CanSend(s) && s.slot.active && s.slot.acknowledged && !s.slot.finishedReceived
    requires Due(s.slot.deadline, now) && s.slot.retries < s.cfg.maxRounds && Accepts(poll)
    ensures s3 == PollA(mid, now, poll) && s3 == mid.(a := s3.a) && Tidy(s3)
    ensures s3.a.cfg == s.cfg && Repeated(s, s3.a)
  {
    TickRepeatsEof(s, now, poll);
    s3 := PollA(mid, now, poll);
  }

  /** The whole file is there but the EOF: a due poll sends it again, and when it arrives the transfer can be closed. */
  lemma EofAgainRepairs(
    sys: System, s1: System, s: S.Sender, mid: System, q: R.Receiver, request: S.PutRequest, segs: seq<Message>, now: nat,
    poll: S.Env, renv: nat -> R.Env, file: seq<byte>)
    requires AfterPut(sys, s1, s, request, segs, file) && s.cfg.maxRounds > 0 && Due(s.slot.deadline, now)
    requires Fresh(sys.b, q, s.slot.id, request, file) && CanReply(q) && mid == s1.(b := Held(q, file, |file|)) && Tidy(mid)
    requires Accepts(poll) && forall i :: Cooperates(renv(i))
    ensures Closable(sys, EofAgain(mid, now, poll, renv), q, request.destPath, file)
  {
    var s3 := EofRepeated(mid, s, now, poll);
    EofRepaired(sys, s1, s, s3, q, request, segs, renv, file);
  }

  /** The EOF is lost once, everything before it arrives, and one due poll follows: the transfer can be closed all the same. */
  lemma LostEofRepaired(
    sys: System, s1: System, s: S.Sender, n: nat, request: S.PutRequest, segs: seq<Message>, now: nat, poll: S.Env,
    renv: nat -> R.Env, file: seq<byte>)
    returns (q: R.Receiver)
    requires AfterPut(sys, s1, s, request, segs, file) && s.cfg.maxRounds > 0 && Due(s.slot.deadline, now)
    requires n + 1 == |s1.a.out| && Accepts(poll) && forall i :: Cooperates(renv(i))
    ensures Closable(sys, EofAgain(ToB(s1, |sys.a.out|, n, renv), now, poll, renv), q, request.destPath, file)
  {
    q := FileTaken(sys, s1, s, n, request, segs, renv, file);
    EofAgainRepairs(sys, s1, s, s1.(b := Held(q, file, |file|)), q, request, segs, now, poll, renv, file);
  }

  /** send_file, everything but the EOF delivered, and a due poll of the sender. */
  function LoseEof(sys: System, request: S.PutRequest, put: S.Env, n: nat, now: nat, poll: S.Env, renv: nat -> R.Env): System {
    EofAgain(ToB(PutFile(sys, request, put), |sys.a.out|, n, renv), now, poll, renv)
  }

  lemma LoseEofReached(sys: System, request: S.PutRequest, put: S.Env, n: nat, now: nat, poll: S.Env, renv: nat -> R.Env)
    requires Reached(sys)
    ensures Reached(LoseEof(sys, request, put, n, now, poll, renv))
  {
    var s1 := PutFile(sys, request, put);
    PutReached(sys, request, put);
    ToBReached(s1, |sys.a.out|, n, renv);
    EofAgainReached(ToB(s1, |sys.a.out|, n, renv), now, poll, renv);
  }

  lemma EofAgainReached(mid: System, now: nat, poll: S.Env, renv: nat -> R.Env)
    requires Reached(mid)
    ensures Reached(EofAgain(mid, now, poll, renv))
  {
    PollAReached(mid, now, poll);
    var s3 := PollA(mid, now, poll);
    ToBReached(s3, |mid.a.out|, |s3.a.out|, renv);
  }

  lemma LostEofCloses(
    sys: System, request: S.PutRequest, put: S.Env, s1: System, n: nat, now: nat, poll: S.Env, renv: nat -> R.Env, file: seq<byte>)
    returns (q: R.Receiver)
    requires Setting(sys, request, put, file) && request.acknowledged && file != [] && forall i :: Cooperates(renv(i))
    requires s1 == PutFile(sys, request, put) && Tidy(s1) && n + 1 == |s1.a.out|
    requires sys.a.cfg.maxRounds > 0 && Due(ArmRetry(sys.a.cfg, S.Now(put)), now) && Accepts(poll)
    ensures Closable(sys, EofAgain(ToB(s1, |sys.a.out|, n, renv), now, poll, renv), q, request.destPath, file)
  {
    var segs, s := PutLeads(sys, request, put, file, s1);
    q := LostEofRepaired(sys, s1, s, n, request, segs, now, poll, renv, file);
  }

  /**
    From any reached state with both slots free: an acknowledged send_file, its EOF lost, a poll of
    the sender once its timer is due, and the delivery of what follows is a run that ends with the
    file committed and COMPLETE on both sides.
   */
  lemma LostEofCompletes(
    sys: System, request: S.PutRequest, put: S.Env, n: nat, now: nat, poll: S.Env, senv: nat -> S.Env, renv: nat -> R.Env,
    file: seq<byte>, end: System)
    requires Reached(sys) && Setting(sys, request, put, file) && request.acknowledged && file != []
    requires n + 1 == |PutFile(sys, request, put).a.out|
    requires sys.a.cfg.maxRounds > 0 && Due(ArmRetry(sys.a.cfg, S.Now(put)), now) && Accepts(poll)
    requires (forall i :: Accepts(senv(i))) && forall i :: Cooperates(renv(i))
    requires end == Closing(LoseEof(sys, request, put, n, now, poll, renv), senv, renv)
    ensures Reached(end) && Succeeded(sys, end, TxnId(sys.a.ids.local, sys.a.nextSeqno), request.destPath, file)
  {
    ReachedInv(sys);
    PutIsTidy(sys, request, put);
    var s4 := LoseEof(sys, request, put, n, now, poll, renv);
    var q := LostEofCloses(sys, request, put, PutFile(sys, request, put), n, now, poll, renv, file);
    ClosingSucceeds(sys, s4, q, request.destPath, file, senv, renv);
    LoseEofReached(sys, request, put, n, now, poll, renv);
    ClosingReached(s4, senv, renv);
  }

  // ---- A lost Finished ----

  /** After the transfer the receiver waits with its Finished out. */
  lemma TransferWaits(sys: System, request: S.PutRequest, put: S.Env, renv: nat -> R.Env, file: seq<byte>)
    returns (q: R.Receiver)
    requires SysInv(sys) && Setting(sys, request, put, file) && request.acknowledged && file != [] && forall i :: Cooperates(renv(i))
    ensures var s2 := Transfer(sys, request, put, renv);
            Closable(sys, s2, q, request.destPath, file) && s2.b.slot.waiting && s2.b.slot.retries == 0 && s2.b.cfg == sys.b.cfg
  {
    var s: S.Sender, s2: System;
    s, q, s2 := TransferTakes(sys, request, put, renv, file);
  }

  /** A due poll of a receiver that waits repeats its Finished. */
  lemma PollRepeatsFinished(r: R.Receiver, q: R.Receiver, now: nat, env: R.Env)
    requires RR.Inv(r) && r.slot.active && r.slot.waiting && Due(r.slot.deadline, now) && r.slot.retries < r.cfg.maxRounds
    requires CanReply(q) && q.cfg == r.cfg && q.ids == r.ids && q.slot.id == r.slot.id && q.slot.acknowledged && env.acceptFinished
    ensures var p := R.Poll(r, now, env);
            && p == r.(out := r.out + [R.FinishedMessage(q, OK)], slot := r.slot.(retries := p.slot.retries, deadline := p.slot.deadline))
            && RR.Inv(p)
  {
    RepliesEncode(q);
    assert FinishedOf(r) == R.FinishedMessage(q, OK);
    assert R.PollRecovery(r, now, env) == r;
    FinishedPollExactly(r, now, env);
    RR.PollFinishedMoves(r, now, env);
  }

  /** Finished is lost, however often; after one more due poll of the receiver the transfer can still be closed. */
  lemma LostFinishedRepaired(sys: System, s2: System, q: R.Receiver, destPath: seq<byte>, file: seq<byte>, now: nat, poll: R.Env)
    requires Closable(sys, s2, q, destPath, file) && s2.b.slot.waiting && Due(s2.b.slot.deadline, now)
    requires s2.b.slot.retries < s2.b.cfg.maxRounds && poll.acceptFinished
    ensures var s3 := PollB(s2, now, poll);
            Closable(sys, s3, q, destPath, file) && s3.b.out == s2.b.out + [R.FinishedMessage(q, OK)]
  {
    PollRepeatsFinished(s2.b, q, now, poll);
  }

  /**
    From any reached state with both slots free: an acknowledged transfer whose replies are all lost,
    a poll of the receiver once its timer is due, and the delivery of what follows is a run that ends
    with the file committed and COMPLETE on both sides.
   */
  lemma LostFinishedCompletes(
    sys: System, request: S.PutRequest, put: S.Env, s2: System, now: nat, poll: R.Env, senv: nat -> S.Env, renv: nat -> R.Env,
    file: seq<byte>, end: System)
    requires Reached(sys) && Setting(sys, request, put, file) && request.acknowledged && file != []
    requires s2 == Transfer(sys, request, put, renv) && Due(s2.b.slot.deadline, now) && sys.b.cfg.maxRounds > 0 && poll.acceptFinished
    requires (forall i :: Accepts(senv(i))) && forall i :: Cooperates(renv(i))
    requires end == Closing(PollB(s2, now, poll), senv, renv)
    ensures Reached(end) && Succeeded(sys, end, TxnId(sys.a.ids.local, sys.a.nextSeqno), request.destPath, file)
  {
    ReachedInv(sys);
    var q := TransferWaits(sys, request, put, renv, file);
    LostFinishedRepaired(sys, s2, q, request.destPath, file, now, poll);
    ClosingSucceeds(sys, PollB(s2, now, poll), q, request.destPath, file, senv, renv);
    TransferReached(sys, request, put, renv);
    PollBReached(s2, now, poll);
    ClosingReached(PollB(s2, now, poll), senv, renv);
  }

  /** A receiver that waits answers a repeated EOF with its Finished. */
  lemma EofRepeatsFinished(r: R.Receiver, q: R.Receiver, h: Header, checksum: nat, size: nat, env: R.Env)
    requires RR.Inv(r) && r.slot.active && r.slot.waiting && R.Supports(r, h) && IdOf(h) == r.slot.id
    requires CanReply(q) && q.cfg == r.cfg && q.ids == r.ids && q.slot.id == r.slot.id && q.slot.acknowledged && env.acceptFinished
    ensures R.Receive(r, Decodable(h, Eof(NO_ERROR, checksum, size)), env) == (r.(out := r.out + [R.FinishedMessage(q, OK)]), OK)
  {
    RepliesEncode(q);
    assert R.FinishedMessage(r, r.slot.finishedStatus) == R.FinishedMessage(q, OK);
  }

  /** A repeated EOF reaches a receiver that waits. */
  lemma EofAnswered(s3: System, s: S.Sender, q: R.Receiver, env: nat -> R.Env)
    requires Tidy(s3) && Waits(s3.(a := s), q) && s3.b.slot.waiting && s3.a.cfg == s.cfg && Repeated(s, s3.a)
    requires Cooperates(env(|s.out|))
    ensures ToB(s3, |s.out|, |s3.a.out|, env) == s3.(b := s3.b.(out := s3.b.out + [R.FinishedMessage(q, OK)]))
  {
    var k, m := |s.out|, S.EofMessage(s);
    assert s3.a.out[k..|s3.a.out|] == [m] && s3.a.out[k] == m;
    ToBTakes(s3, k, |s3.a.out|, env, [m]);
    var h := Arrives(s, s3.b, m);
    var x := Parse(s3.b.cfg.lim, s.cfg.encoder(m).value);
    assert OnTheWire(s3.a.cfg, s3.a.cfg.lim, [m]) == [x];
    TakeOne(Receiving(env), s3.b, x, k);
    EofRepeatsFinished(s3.b, q, h, m.body.checksum, m.body.size, env(k));
  }

  /** The sender's timer repairs it as well: its EOF, sent again, brings the Finished again. */
  lemma LostRepliesRepaired(
    sys: System, s2: System, q: R.Receiver, destPath: seq<byte>, file: seq<byte>, now: nat, poll: S.Env, renv: nat -> R.Env)
    requires Closable(sys, s2, q, destPath, file) && Tidy(s2) && s2.b.slot.waiting && !s2.a.slot.finishedReceived
    requires Due(s2.a.slot.deadline, now) && s2.a.slot.retries < s2.a.cfg.maxRounds && Accepts(poll) && forall i :: Cooperates(renv(i))
    ensures Closable(sys, EofAgain(s2, now, poll, renv), q, destPath, file)
  {
    var s3 := EofRepeated(s2, s2.a, now, poll);
    EofAnswered(s3, s2.a, q, renv);
    ToBKeepsTidy(s3, |s2.a.out|, |s3.a.out|, renv);
  }

  // ---- A lost NAK ----

  /** The receiver with its retry counted, about to send the NAK again. */
  function Retrying(r: R.Receiver, now: nat): R.Receiver {
    r.(slot := r.slot.(retries := r.slot.retries + 1, deadline := ArmRetry(r.cfg, now)))
  }

  /** Both ends of a transfer with something missing, the receiver recovering and its timer due. */
  ghost predicate Stalled(s: S.Sender, r: R.Receiver, src: Source, now: nat) {
    && Ends(s, r, src) && Paired(s, r) && s.slot.nakRounds < s.cfg.maxRounds
    && Recovering(r, src, r.ranges, 0) && !(Interval(0, |src.file|) <= Denote(r.ranges))
    && r.slot.recoveryPending && Due(r.slot.deadline, now) && r.slot.retries < r.cfg.maxRounds
  }

  lemma RetryingRecovers(s: S.Sender, r: R.Receiver, src: Source, now: nat)
    requires Stalled(s, r, src, now)
    ensures var t := Retrying(r, now);
            && Ends(s, t, src) && Recovering(t, src, t.ranges, 0) && t.ranges == r.ranges && t.cfg == r.cfg
            && R.NakMessage(t, Gaps(t.ranges, 0, |src.file|)) == R.NakMessage(r, Gaps(r.ranges, 0, |src.file|))
  {
  }

  lemma PollRepeatsNak(s: S.Sender, r: R.Receiver, src: Source, now: nat, env: R.Env)
    requires Stalled(s, r, src, now) && env.acceptNak
    ensures R.Poll(r, now, env) == R.SendNak(Retrying(r, now), env).0
  {
    RetryingRecovers(s, r, src, now);
    NakBuilds(Retrying(r, now), src, env);
    NakBuilds(r, src, env);
    assert R.PollRecovery(r, now, env) == R.SendNak(Retrying(r, now), env).0;
  }

  /** What the sender's answer to the NAK looks like, and what it makes of the receiver. */
  ghost predicate RoundDone(s: S.Sender, a: S.Sender, r: R.Receiver, t: R.Receiver, segs: seq<Message>, src: Source, k: nat, renv: nat -> R.Env) {
    && a == Answered(s, segs) && (forall i :: 0 <= i < |segs| ==> s.cfg.encoder(segs[i]).Ok?)
    && t == Take(Receiving(renv), r, OnTheWire(s.cfg, r.cfg.lim, segs), k) && Done(r, t, src)
  }

  /** The NAK sent again, its answer, and the receiver after the retransmissions. */
  lemma NakRound(s: S.Sender, r: R.Receiver, src: Source, now: nat, poll: R.Env, senv: S.Env, renv: nat -> R.Env)
    returns (nak: Message, segs: seq<Message>, a: S.Sender, t: R.Receiver)
    requires Stalled(s, r, src, now) && poll.acceptNak && Accepts(senv) && forall i :: Cooperates(renv(i))
    ensures R.Poll(r, now, poll) == Retrying(r, now).(out := r.out + [nak]) && r.cfg.encoder(nak).Ok?
    ensures a == S.Receive(s, Parse(s.cfg.lim, r.cfg.encoder(nak).value), senv).0
    ensures RoundDone(s, a, R.Poll(r, now, poll), t, segs, src, |s.out|, renv)
  {
    forall i ensures Works(renv(i)) { assert Cooperates(renv(i)); }
    var p := Retrying(r, now);
    RetryingRecovers(s, r, src, now);
    PollRepeatsNak(s, r, src, now, poll);
    OneRoundRecovery(s, p, src, senv, poll, |s.out|, renv);
    var gs := Gaps(p.ranges, 0, |src.file|);
    nak := R.NakMessage(p, gs);
    segs := Retransmissions(s, gs, senv);
    a := S.Receive(s, Parse(s.cfg.lim, r.cfg.encoder(nak).value), senv).0;
    t := Take(Receiving(renv), R.SendNak(p, poll).0, OnTheWire(s.cfg, r.cfg.lim, segs), |s.out|);
  }

  /** A due poll of the receiver, and its NAK is delivered. */
  function NakAgain(sys: System, now: nat, poll: R.Env, senv: nat -> S.Env): System {
    var s3 := PollB(sys, now, poll);
    ToA(s3, |sys.b.out|, |s3.b.out|, senv)
  }

  /** The NAK reaches the sender. */
  lemma NakPhase(s3: System, nak: Message, k: nat, env: nat -> S.Env)
    requires k + 1 == |s3.b.out| && s3.b.out[k] == nak && s3.b.cfg.lim == s3.a.cfg.lim && s3.b.cfg.encoder(nak).Ok?
    ensures ToA(s3, k, |s3.b.out|, env) == s3.(a := S.Receive(s3.a, Parse(s3.a.cfg.lim, s3.b.cfg.encoder(nak).value), env(k)).0)
  {
    assert s3.b.out[k..|s3.b.out|] == [nak];
    ToAGives(s3, k, |s3.b.out|, env, [nak]);
    var x := Parse(s3.a.cfg.lim, s3.b.cfg.encoder(nak).value);
    assert OnTheWire(s3.b.cfg, s3.b.cfg.lim, [nak]) == [x];
    TakeOne(Sending(env), s3.a, x, k);
  }

  /** The retransmissions reach the receiver. */
  lemma RetransmissionPhase(s4: System, s: S.Sender, segs: seq<Message>, n: nat, renv: nat -> R.Env)
    requires RR.Inv(s4.b) && s4.a.cfg.lim == s4.b.cfg.lim && s4.a == Answered(s, segs) && n + 1 == |s4.a.out|
    requires forall i :: 0 <= i < |segs| ==> s.cfg.encoder(segs[i]).Ok?
    ensures ToB(s4, |s.out|, n, renv) == s4.(b := Take(Receiving(renv), s4.b, OnTheWire(s.cfg, s4.b.cfg.lim, segs), |s.out|))
  {
    assert s4.a.out[|s.out|..n] == segs;
    ToBTakes(s4, |s.out|, n, renv, segs);
  }

  lemma AnsweredOpposite(s: S.Sender, r: R.Receiver, src: Source, segs: seq<Message>)
    requires Ends(s, r, src) && Paired(s, r) && r.slot.acknowledged
    ensures Opposite(Answered(s, segs), r) && Addressed(Answered(s, segs))
  {
  }

  lemma DoneWaits(end: System, s: S.Sender, r: R.Receiver, p: R.Receiver, segs: seq<Message>, src: Source)
    requires Ends(s, r, src) && Paired(s, r) && r.slot.acknowledged && end.a == Answered(s, segs) && RR.Inv(end.b)
    requires Done(p, end.b, src) && p.cfg == r.cfg && p.ids == r.ids && p.slot.id == r.slot.id && p.slot.acknowledged
    ensures Waits(end, r)
  {
    AnsweredOpposite(s, r, src, segs);
  }

  /** The NAK and the answer to it, delivered. */
  lemma NakDelivered(sys: System, s3: System, src: Source, now: nat, poll: R.Env, senv: nat -> S.Env, renv: nat -> R.Env)
    returns (nak: Message, segs: seq<Message>, t: R.Receiver)
    requires Tidy(sys) && Stalled(sys.a, sys.b, src, now) && poll.acceptNak && s3 == PollB(sys, now, poll)
    requires (forall i :: Accepts(senv(i))) && forall i :: Cooperates(renv(i))
    ensures s3.b == Retrying(sys.b, now).(out := sys.b.out + [nak])
    ensures ToA(s3, |sys.b.out|, |s3.b.out|, senv) == s3.(a := Answered(sys.a, segs))
    ensures forall i :: 0 <= i < |segs| ==> sys.a.cfg.encoder(segs[i]).Ok?
    ensures t == Take(Receiving(renv), s3.b, OnTheWire(sys.a.cfg, s3.b.cfg.lim, segs), |sys.a.out|) && Done(s3.b, t, src)
  {
    var k := |sys.b.out|;
    var a: S.Sender;
    nak, segs, a, t := NakRound(sys.a, sys.b, src, now, poll, senv(k), renv);
    NakPhase(s3, nak, k, senv);
  }

  lemma {:induction false} TakeKeepsInv(r: R.Receiver, pdus: seq<Incoming>, k: nat, env: nat -> R.Env)
    requires RR.Inv(r)
    ensures RR.Inv(Take(Receiving(env), r, pdus, k))
    decreases |pdus|
  {
    if pdus != [] {
      ReceiveKeepsInv(r, pdus[0], env(k));
      TakeKeepsInv(Receiving(env)(r, pdus[0], k), pdus[1..], k + 1, env);
    }
  }

  lemma RetryingInv(r: R.Receiver, p: R.Receiver, now: nat)
    requires RR.Inv(r) && r.slot.active && p == Retrying(r, now).(out := p.out)
    ensures RR.Inv(p)
  {
  }

  /** The file is committed, and the receiver waits for its Finished to be acknowledged. */
  ghost predicate Recovered(sys: System, end: System, src: Source) {
    && Waits(end, sys.b) && end.first == sys.first && end.a.ids == sys.a.ids && end.a.slot.id == sys.b.slot.id
    && end.a.trace == sys.a.trace
    && end.b.trace == sys.b.trace + [Committed(sys.b.slot.id, src.destPath, src.file)]
  }

  /** The answer to the NAK, delivered. */
  lemma AnswerRecovers(sys: System, s4: System, src: Source, now: nat, nak: Message, segs: seq<Message>, t: R.Receiver, n: nat, renv: nat -> R.Env)
    requires sys.a.cfg.lim == sys.b.cfg.lim && RR.Inv(sys.b) && sys.b.slot.active && sys.b.slot.acknowledged
    requires Ends(sys.a, sys.b, src) && Paired(sys.a, sys.b)
    requires s4 == sys.(a := Answered(sys.a, segs), b := Retrying(sys.b, now).(out := sys.b.out + [nak]))
    requires forall i :: 0 <= i < |segs| ==> sys.a.cfg.encoder(segs[i]).Ok?
    requires t == Take(Receiving(renv), s4.b, OnTheWire(sys.a.cfg, s4.b.cfg.lim, segs), |sys.a.out|) && Done(s4.b, t, src)
    requires n + 1 == |s4.a.out|
    ensures Recovered(sys, ToB(s4, |sys.a.out|, n, renv), src)
  {
    RetryingInv(sys.b, s4.b, now);
    RetransmissionPhase(s4, sys.a, segs, n, renv);
    TakeKeepsInv(s4.b, OnTheWire(sys.a.cfg, s4.b.cfg.lim, segs), |sys.a.out|, renv);
    DoneWaits(s4.(b := t), sys.a, sys.b, s4.b, segs, src);
  }

  /**
    The NAK is lost, however often; after one more due poll of the receiver the NAK and the
    retransmissions that answer it, though not the EOF behind them, recover the file.
   */
  lemma LostNakRepaired(sys: System, src: Source, now: nat, poll: R.Env, senv: nat -> S.Env, n: nat, renv: nat -> R.Env)
    requires Tidy(sys) && Stalled(sys.a, sys.b, src, now) && poll.acceptNak
    requires (forall i :: Accepts(senv(i))) && forall i :: Cooperates(renv(i))
    requires n + 1 == |NakAgain(sys, now, poll, senv).a.out|
    ensures Recovered(sys, ToB(NakAgain(sys, now, poll, senv), |sys.a.out|, n, renv), src)
  {
    var s3 := PollB(sys, now, poll);
    var nak, segs, t := NakDelivered(sys, s3, src, now, poll, senv, renv);
    AnswerRecovers(sys, s3.(a := Answered(sys.a, segs)), src, now, nak, segs, t, n, renv);
  }
}
