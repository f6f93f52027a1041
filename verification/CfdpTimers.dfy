/**
  What each timer sends and how often, and what a failure is reported as: the parts of both state
  machines that only matter when something goes wrong.
 */
module CfdpTimers {
  import opened CfdpTypes
  import opened CfdpRanges
  import opened CfdpChecksum
  import opened CfdpPdu
  import opened CfdpCore
  import opened CfdpSystem
  import S = CfdpSender
  import R = CfdpReceiver
  import RR = CfdpReceiverRuns

  predicate Due(deadline: nat, now: nat) { deadline == 0 || now >= deadline }

  // ---- The sender's timer ----

  /** An acknowledged transaction whose Finished has not come, at its deadline. */
  predicate EofDue(s: S.Sender, now: nat) {
    s.slot.active && s.slot.acknowledged && !s.slot.finishedReceived && Due(s.slot.deadline, now)
  }

  /** The EOF of the slot: no error, the checksum and the size of the file, toward the receiver. */
  function EofOf(s: S.Sender): Message {
    Message(Header(1, false, false, false, false, false, 0, false, false, s.ids.idLen, s.ids.seqLen,
                   s.slot.id.source, s.slot.id.seqno, s.slot.peer),
            Eof(0, s.slot.eofChecksum, |s.slot.file|))
  }

  /** A poll does nothing, gives up, repeats the EOF once and re-arms the timer, or ends on a failed send. */
  lemma SenderPollExactly(s: S.Sender, now: nat, env: S.Env)
    ensures var q := S.Poll(s, now, env);
            if !EofDue(s, now) then q == s
            else if s.slot.retries >= s.cfg.maxRounds then
              q == s.(slot := S.IDLE, trace := s.trace + [Terminal(s.slot.id, InactivityDetected)])
            else if s.cfg.encoder(EofOf(s)).Ok? && env.accept(|s.out|) then
              q == s.(out := s.out + [EofOf(s)],
                      slot := s.slot.(retries := s.slot.retries + 1, deadline := (now + s.cfg.retryInterval) % U64))
            else q.slot == S.IDLE && q.out == s.out && exists st :: st != OK && q.trace == s.trace + [Terminal(s.slot.id, st)]
  {
    var q := S.Poll(s, now, env);
    assert EofDue(s, now) ==> S.EofMessage(s) == EofOf(s);
    if EofDue(s, now) && s.slot.retries < s.cfg.maxRounds && !(s.cfg.encoder(EofOf(s)).Ok? && env.accept(|s.out|)) {
      var st := SendStatus(s.cfg, EofOf(s), env.accept(|s.out|));
      assert q.trace == s.trace + [Terminal(s.slot.id, st)];
    }
  }

  /** In every reached state the EOF that a due poll repeats is that of the file being sent. */
  lemma RepeatedEofIsTrue(sys: System, now: nat, env: S.Env)
    requires SysInv(sys) && EofDue(sys.a, now)
    ensures exists i :: IsSource(sys, i, sys.a.slot.id)
                        && EofOf(sys.a).body == Eof(0, WholeFile(sys.a.cfg.lib, sys.sources[i].kind, sys.sources[i].file), |sys.sources[i].file|)
  {
    var i :| IsSource(sys, i, sys.a.slot.id) && SlotOf(sys.a, sys.sources[i]);
  }

  // ---- The receiver's timers ----

  function ReplyHeader(r: R.Receiver): Header {
    Header(1, false, true, !r.slot.acknowledged, false, false, 0, false, false, r.ids.idLen, r.ids.seqLen,
           r.slot.id.source, r.slot.id.seqno, r.ids.local)
  }

  predicate NakDue(r: R.Receiver, now: nat) {
    r.slot.active && r.slot.acknowledged && r.slot.recoveryPending && Due(r.slot.deadline, now)
  }

  /** A NAK over the whole file that names exactly the bytes not held. */
  ghost predicate NakOf(r: R.Receiver, m: Message) {
    && m.header == ReplyHeader(r) && m.body.Nak? && m.body.scopeStart == 0 && m.body.scopeEnd == r.slot.fileSize
    && Canonical(m.body.ranges) && Denote(m.body.ranges) == Interval(0, r.slot.fileSize) - Denote(r.ranges)
  }

  lemma NakIsComplement(r: R.Receiver)
    requires RR.Inv(r)
    ensures NakOf(r, R.NakMessage(r, Gaps(r.ranges, 0, r.slot.fileSize)))
  {
    GapsComplement(r.ranges, 0, r.slot.fileSize);
  }

  /** While recovering, a due poll gives up, repeats the NAK once and re-arms the timer, or ends on a NAK that cannot go out. */
  lemma NakPollExactly(r: R.Receiver, now: nat, env: R.Env)
    requires RR.Inv(r)
    ensures var q := R.PollRecovery(r, now, env);
            if !NakDue(r, now) then q == r
            else if r.slot.retries >= r.cfg.maxRounds then q == R.Release(r, InactivityDetected)
            else if q.slot.active then
              exists m :: NakOf(r, m) && r.cfg.encoder(m).Ok? && env.acceptNak
                          && q == r.(out := r.out + [m],
                                     slot := r.slot.(retries := r.slot.retries + 1, deadline := (now + r.cfg.retryInterval) % U64))
            else q.slot == R.IDLE && q.out == r.out && exists st :: st != OK && q.trace == r.trace + [Terminal(r.slot.id, st)]
  {
    var q := R.PollRecovery(r, now, env);
    if NakDue(r, now) && r.slot.retries < r.cfg.maxRounds {
      NakIsComplement(r);
      var m := R.NakMessage(r, Gaps(r.ranges, 0, r.slot.fileSize));
      var sent := R.SendNak(r, env);
      if sent.1 == OK {
        assert q == r.(out := r.out + [m],
                       slot := r.slot.(retries := r.slot.retries + 1, deadline := (now + r.cfg.retryInterval) % U64));
      } else {
        assert q.trace == r.trace + [Terminal(r.slot.id, sent.1)];
      }
    }
  }

  /** And it does go out whenever it can be built, encoded and accepted. */
  lemma NakGoesOut(r: R.Receiver, now: nat, env: R.Env)
    requires RR.Inv(r) && NakDue(r, now) && r.slot.retries < r.cfg.maxRounds && r.slot.fileSize > 0
    requires |Gaps(r.ranges, 0, r.slot.fileSize)| <= r.cfg.lim.maxNakRanges && env.acceptNak
    requires r.cfg.encoder(R.NakMessage(r, Gaps(r.ranges, 0, r.slot.fileSize))).Ok?
    ensures R.PollRecovery(r, now, env).slot.active
  {
  }

  predicate FinishedDue(r: R.Receiver, now: nat) {
    r.slot.active && r.slot.acknowledged && r.slot.waiting && Due(r.slot.deadline, now)
  }

  /** Finished for a slot that waits in a reached state: no error, data complete, file retained. */
  function FinishedOf(r: R.Receiver): Message { Message(ReplyHeader(r), Finished(0, false, 2)) }

  /** While its acknowledgement is awaited, a due poll gives up, repeats Finished once, or ends on a failed send. */
  lemma FinishedPollExactly(r: R.Receiver, now: nat, env: R.Env)
    requires RR.Inv(r)
    ensures var q := R.PollFinished(r, now, env);
            if !FinishedDue(r, now) then q == r
            else if r.slot.retries >= r.cfg.maxRounds then q == R.Release(r, InactivityDetected)
            else if r.cfg.encoder(FinishedOf(r)).Ok? && env.acceptFinished then
              q == r.(out := r.out + [FinishedOf(r)],
                      slot := r.slot.(retries := r.slot.retries + 1, deadline := (now + r.cfg.retryInterval) % U64))
            else q.slot == R.IDLE && q.out == r.out && exists st :: st != OK && q.trace == r.trace + [Terminal(r.slot.id, st)]
  {
    var q := R.PollFinished(r, now, env);
    if FinishedDue(r, now) {
      assert R.FinishedMessage(r, r.slot.finishedStatus) == FinishedOf(r);
      if r.slot.retries < r.cfg.maxRounds && !(r.cfg.encoder(FinishedOf(r)).Ok? && env.acceptFinished) {
        var st := SendStatus(r.cfg, FinishedOf(r), env.acceptFinished);
        assert q.trace == r.trace + [Terminal(r.slot.id, st)];
      }
    }
  }

  // ---- A receiver that hears nothing any more ----

  /** Polls alone: how many of them find a timer due. */
  function Polled(r: R.Receiver, nows: seq<nat>, env: R.Env, n: nat): R.Receiver
    requires n <= |nows|
  {
    if n == 0 then r else R.Poll(Polled(r, nows, env, n - 1), nows[n - 1], env)
  }

  function DuePolls(r: R.Receiver, nows: seq<nat>, env: R.Env, n: nat): nat
    requires n <= |nows|
  {
    if n == 0 then 0
    else
      var before := Polled(r, nows, env, n - 1);
      DuePolls(r, nows, env, n - 1) + if NakDue(before, nows[n - 1]) || FinishedDue(before, nows[n - 1]) then 1 else 0
  }

  ghost predicate PollCounts(r: R.Receiver, q: R.Receiver, due: bool) {
    && (due && q.slot.active ==> q.slot.retries == r.slot.retries + 1 && r.slot.retries < r.cfg.maxRounds)
    && (!due ==> q == r)
  }

  lemma PollCountsOnce(r: R.Receiver, now: nat, env: R.Env)
    requires RR.Inv(r)
    ensures var q := R.Poll(r, now, env);
            q.cfg == r.cfg && RR.Inv(q) && PollCounts(r, q, NakDue(r, now) || FinishedDue(r, now))
  {
    NakPollExactly(r, now, env);
    var mid := R.PollRecovery(r, now, env);
    RR.PollRecoveryMoves(r, now, env);
    FinishedPollExactly(mid, now, env);
    RR.PollFinishedMoves(mid, now, env);
  }

  /** A slot is released by the (rounds + 1)-th due poll, if nothing arrives in between. */
  lemma {:induction false} ReceiverGivesUp(r: R.Receiver, nows: seq<nat>, env: R.Env, n: nat)
    requires RR.Inv(r) && n <= |nows|
    ensures var q := Polled(r, nows, env, n);
            && q.cfg == r.cfg && RR.Inv(q)
            && (q.slot.active ==> q.slot.retries == r.slot.retries + DuePolls(r, nows, env, n))
            && (q.slot.active && DuePolls(r, nows, env, n) > 0 ==> q.slot.retries <= r.cfg.maxRounds)
  {
    if n > 0 {
      ReceiverGivesUp(r, nows, env, n - 1);
      PollCountsOnce(Polled(r, nows, env, n - 1), nows[n - 1], env);
    }
  }

  // ---- Failures ----

  /** What an EOF makes of a transfer that cannot succeed; None if it may. */
  function EofFailure(r: R.Receiver, body: Body, env: R.Env): Option<Status>
    requires body.Eof?
  {
    if body.condition != 0 || body.size != r.slot.fileSize then Some(FileSizeError)
    else if r.slot.fileSize == 0 then Some(InvalidArgument)
    else if R.HasRange(r.ranges, 0, r.slot.fileSize) && R.Verify(r, body.checksum, env) != OK then Some(R.Verify(r, body.checksum, env))
    else None
  }

  /** A file that was re-read but has another checksum is a checksum failure; a read that fails or falls short is its own. */
  lemma VerifyFailure(r: R.Receiver, expected: nat, env: R.Env)
    requires RR.Covered(r) && R.HasRange(r.ranges, 0, r.slot.fileSize) && r.slot.fileSize > 0 && Supported(r.slot.kind)
    ensures var got := ReadsFrom(r.slot.fileSize, r.cfg.maxSegment, R.RejectReads(env.read), FileSizeError, 0);
            R.Verify(r, expected, env) == if got.Err? then got.status
                                          else if WholeFile(r.cfg.lib, r.slot.kind, r.slot.tmp) != expected then ChecksumFailure else OK
  {
    assert r.slot.tmp[..r.slot.fileSize] == r.slot.tmp;
  }

  /** The condition code of a failure (table 5-5), and the file status that goes with it. */
  predicate CodeFor(status: Status, condition: nat, fileStatus: nat) {
    && condition == (if status == FilestoreRejection then 4 else if status == ChecksumFailure then 5
                     else if status == FileSizeError then 6 else if status == NakLimitReached then 7 else 15)
    && fileStatus == if status == FilestoreRejection then 1 else 0
  }

  /**
    An EOF that cannot succeed, on an acknowledged transfer: nothing is committed, the EOF is
    acknowledged, the failure goes out as Finished with its code, and the slot ends with its status.
   */
  lemma FailureReported(r: R.Receiver, h: Header, body: Body, env: R.Env)
    requires RR.Inv(r) && body.Eof? && R.Supports(r, h) && R.Matches(r, h) && r.slot.acknowledged && !r.slot.waiting
    requires EofFailure(r, body, env).Some? && env.acceptAck && env.acceptFinished
    requires r.cfg.encoder(Message(ReplyHeader(r), Ack(4, 0, body.condition, 1))).Ok?
    requires forall m: Message :: m.header == ReplyHeader(r) && m.body.Finished? && m.body.condition <= 15 && m.body.fileStatus <= 3 ==>
                                    r.cfg.encoder(m).Ok?
    ensures var status, q := EofFailure(r, body, env).value, R.Receive(r, Decodable(h, body), env).0;
            && status != OK && q.slot == R.IDLE && q.trace == r.trace + [Terminal(r.slot.id, status)] && q.calls == r.calls
            && exists condition, fileStatus :: CodeFor(status, condition, fileStatus)
                 && q.out == r.out + [Message(ReplyHeader(r), Ack(4, 0, body.condition, 1))]
                                   + [Message(ReplyHeader(r), Finished(condition, true, fileStatus))]
  {
    var status := EofFailure(r, body, env).value;
    var a := r.(slot := r.slot.(eofChecksum := body.checksum));
    var b := a.(out := a.out + [R.AckEofMessage(a, body.condition)]);
    var m := R.FinishedMessage(b, status);
    assert m.header == ReplyHeader(r) && r.cfg.encoder(m).Ok?;
    EndFails(b, status, env);
    var f := R.EndTransaction(b, status, env);
    assert R.Verify(b, body.checksum, env) == R.Verify(r, body.checksum, env);
    assert R.HandleEof(r, h, body, env) == f;
    assert CodeFor(status, R.ConditionOf(status), R.FileStatusOf(status));
  }

  lemma EndFails(r: R.Receiver, status: Status, env: R.Env)
    requires status != OK && r.slot.active && r.slot.acknowledged && r.slot.closure && env.acceptFinished
    requires r.cfg.encoder(R.FinishedMessage(r, status)).Ok?
    ensures var f := R.EndTransaction(r, status, env);
            && f.1 == status && f.0.slot.active && f.0.slot.id == r.slot.id && f.0.trace == r.trace && f.0.calls == r.calls
            && f.0.out == r.out + [R.FinishedMessage(r, status)] && f.0.cfg == r.cfg && f.0.ids == r.ids
  {
  }

  /** The sender ends a transaction with the status that the code of Finished stands for. */
  lemma FailureReaches(s: S.Sender, h: Header, condition: nat, incomplete: bool, fileStatus: nat, env: S.Env)
    requires S.Supports(s, h) && S.Matches(s, h) && s.slot.acknowledged && env.accept(|s.out|)
    requires s.cfg.encoder(S.AckFinishedMessage(s, condition)).Ok?
    ensures var q := S.Receive(s, Decodable(h, Finished(condition, incomplete, fileStatus)), env).0;
            && q.slot == S.IDLE && q.out == s.out + [S.AckFinishedMessage(s, condition)]
            && q.trace == s.trace + [Terminal(s.slot.id,
                 if condition == 0 && !incomplete then OK else if condition == 4 then FilestoreRejection
                 else if condition == 5 then ChecksumFailure else if condition == 6 then FileSizeError else CancelRequest)]
  {
    var a := s.(slot := s.slot.(finishedReceived := true));
    assert S.AckFinishedMessage(a, condition) == S.AckFinishedMessage(s, condition);
  }

  /** So both ends report the same failure whenever the code can tell it. */
  lemma FailureIsShared(status: Status, condition: nat, fileStatus: nat)
    requires CodeFor(status, condition, fileStatus) && status in [FilestoreRejection, ChecksumFailure, FileSizeError]
    ensures S.FinishedStatus(condition, true) == status
  {
  }
}
