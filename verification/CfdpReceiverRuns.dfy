/** Properties of every run of the receiving side, whatever PDUs arrive. */
module CfdpReceiverRuns {
  import opened CfdpTypes
  import opened CfdpRanges
  import opened CfdpChecksum
  import opened CfdpPdu
  import opened CfdpCore
  import opened CfdpReceiver

  datatype Input =
    | Arrive(incoming: Incoming, env: Env)
    | Tick(now: nat, env: Env)

  function Step(r: Receiver, input: Input): Receiver {
    match input
    case Arrive(incoming, env) => Receive(r, incoming, env).0
    case Tick(now, env) => Poll(r, now, env)
  }

  /** The state after the first n inputs. */
  function Run(r: Receiver, inputs: seq<Input>, n: nat): Receiver
    requires n <= |inputs|
  {
    if n == 0 then r else Step(Run(r, inputs, n - 1), inputs[n - 1])
  }

  // ---- What a slot keeps true for arbitrary input ----

  ghost predicate Covered(r: Receiver) {
    && Canonical(r.ranges) && |r.ranges| <= r.cfg.lim.maxNakRanges
    && |r.slot.tmp| <= r.slot.fileSize
    && forall i :: 0 <= i < |r.ranges| ==> 0 <= r.ranges[i].start && r.ranges[i].end <= |r.slot.tmp|
  }

  ghost predicate Inv(r: Receiver) {
    && Covered(r)
    && (!r.slot.active ==> r.slot == IDLE && r.ranges == [])
    && (r.slot.active ==> Supported(r.slot.kind) && r.slot.finishedStatus == OK)
    && (r.slot.active && r.slot.acknowledged ==> r.slot.closure)
    && (r.slot.active && !r.slot.waiting ==> r.slot.handleOpen)
    && (r.slot.waiting ==> r.slot.acknowledged && !r.slot.handleOpen && !r.slot.recoveryPending)
  }

  // ---- What a call can do to the slot and the trace ----

  /** The file a step would commit: what the slot holds once the step's data is written. */
  function CommitOf(r: Receiver, content: seq<byte>): Effect {
    Committed(r.slot.id, r.slot.destPath, content)
  }

  /** The temporary file after the data of an incoming PDU, if any, is written. */
  function TmpAfter(r: Receiver, body: Body): seq<byte> {
    if body.FileData? then WriteAt(r.slot.tmp, body.offset, body.data) else r.slot.tmp
  }

  function RangesAfter(r: Receiver, body: Body): seq<Range> {
    if body.FileData? then Insert(r.ranges, Range(body.offset, body.offset + |body.data|)) else r.ranges
  }

  /** The EOF checksum the step compares with, when an EOF free of errors and of the right size vouches for it. */
  function Vouched(r: Receiver, body: Body): Option<nat> {
    if body.Eof? && body.condition == NO_ERROR && body.size == r.slot.fileSize then Some(body.checksum)
    else if body.FileData? && r.slot.eofReceived then Some(r.slot.eofChecksum)
    else None
  }

  /** Everything that must hold for `content` to be committed by a step on `body`. */
  ghost predicate Guard(r: Receiver, h: Header, body: Body, content: seq<byte>) {
    && Matches(r, h) && !r.slot.waiting
    && content == TmpAfter(r, body) && |content| == r.slot.fileSize > 0
    && Interval(0, r.slot.fileSize) <= Denote(RangesAfter(r, body))
    && Vouched(r, body) == Some(WholeFile(r.cfg.lib, r.slot.kind, content) as nat)
  }

  /** `c` is empty or the single commit of this call. */
  ghost predicate MoveWith(r: Receiver, q: Receiver, c: seq<Effect>) {
    || (q.trace == r.trace + c && q.slot.active == r.slot.active && (r.slot.active ==> q.slot.id == r.slot.id)
        && (c == [] ==> q.slot.waiting == r.slot.waiting)
        && (c != [] ==> r.slot.active && !r.slot.waiting && q.slot.waiting))
    || (r.slot.active && !q.slot.active && (c != [] ==> !r.slot.waiting)
        && exists status :: q.trace == r.trace + c + [Terminal(r.slot.id, status)])
    || (!r.slot.active && c == [] && !q.slot.waiting
        && exists id :: if q.slot.active then q.slot.id == id && q.trace == r.trace + [Activated(id)]
                        else exists status :: q.trace == r.trace + [Activated(id)] + [Terminal(id, status)])
  }

  ghost predicate Keeps(r: Receiver, q: Receiver) {
    q.cfg == r.cfg && q.ids == r.ids && r.out <= q.out
  }

  /** The outcome of receiver_finish for a slot that is not yet waiting. */
  ghost predicate Ended(r: Receiver, q: Receiver, status: Status, c: seq<Effect>) {
    && Keeps(r, q) && (c == [] || c == [CommitOf(r, r.slot.tmp)])
    && (if q.slot.active
        then q.trace == r.trace + c && r.slot.acknowledged && q.ranges == r.ranges
             && q.slot == r.slot.(handleOpen := false, finishedStatus := status, recoveryPending := false,
                                  waiting := true, retries := 0, deadline := q.slot.deadline)
             && (status == OK <==> c != [])
        else q.slot == IDLE && q.ranges == [] && exists st :: q.trace == r.trace + c + [Terminal(r.slot.id, st)])
  }

  /** At most one commit call was made, on what the slot held. */
  predicate CallsFrom(r: Receiver, q: Receiver) {
    q.calls == r.calls || q.calls == r.calls + [CallOf(r, r.slot.tmp)]
  }

  lemma FinishOutcome(r: Receiver, status: Status, env: Env)
    requires r.slot.active && (r.slot.acknowledged ==> r.slot.closure)
    ensures var f := EndTransaction(r, status, env);
            exists c :: Ended(r, f.0, f.1, c) && (c != [] ==> status == OK)
    ensures status != OK ==> EndTransaction(r, status, env).1 != OK
    ensures CallsFrom(r, EndTransaction(r, status, env).0)
    ensures status != OK ==> EndTransaction(r, status, env).0.calls == r.calls
  {
    var f := EndTransaction(r, status, env);
    var a := CloseAndCommit(r, status, env);
    var c := if a.1 == OK then [CommitOf(r, r.slot.tmp)] else [];
    assert a.0 == r.(slot := r.slot.(handleOpen := false), trace := r.trace + c, calls := a.0.calls);
    var b := Report(a.0, a.1, env);
    ReportOutcome(a.0, a.1, env);
    ConcludeOutcome(r, b.0, a.1, b.1, c, env);
  }

  lemma ReportOutcome(r: Receiver, status: Status, env: Env)
    ensures var b := Report(r, status, env);
            b.0 == r.(slot := r.slot.(finishedStatus := b.0.slot.finishedStatus), out := b.0.out) && r.out <= b.0.out
            && (r.slot.closure ==> b.0.slot.finishedStatus == status)
  {
  }

  lemma ConcludeOutcome(r: Receiver, b: Receiver, status: Status, sent: Status, c: seq<Effect>, env: Env)
    requires Keeps(r, b) && b.ranges == r.ranges && b.trace == r.trace + c
    requires b.slot == r.slot.(handleOpen := false, finishedStatus := b.slot.finishedStatus) && r.slot.active
    requires c == if status == OK then [CommitOf(r, r.slot.tmp)] else []
    requires r.slot.acknowledged ==> b.slot.finishedStatus == status
    ensures var f := Conclude(b, status, sent, env); Ended(r, f.0, f.1, c)
  {
  }

  // ---- Step by step ----

  /** A handler call: either an ordinary move, or an end of transaction of the state `mid` it reached. */
  ghost predicate HandlerOutcome(r: Receiver, h: Header, body: Body, x: (Receiver, Status)) {
    exists c ::
      && Keeps(r, x.0) && MoveWith(r, x.0, c) && Inv(x.0)
      && (c == [] || (c == [CommitOf(r, TmpAfter(r, body))] && Guard(r, h, body, TmpAfter(r, body))))
  }

  /** A handler calls the commit at most once, and only under the guard. */
  ghost predicate HandlerCalls(r: Receiver, h: Header, body: Body, q: Receiver) {
    || q.calls == r.calls
    || (q.calls == r.calls + [CallOf(r, TmpAfter(r, body))] && Guard(r, h, body, TmpAfter(r, body)))
  }

  function CallOf(r: Receiver, content: seq<byte>): Call { Call(r.slot.id, r.slot.destPath, content) }

  lemma CompleteMeansCovered(s: seq<Range>, size: int)
    requires Canonical(s) && size > 0
    ensures HasRange(s, 0, size) <==> Interval(0, size) <= Denote(s)
  {
    if HasRange(s, 0, size) {
      var i :| 0 <= i < |s| && s[i].start <= 0 && size <= s[i].end;
      forall x | x in Interval(0, size) ensures x in Denote(s) {
        assert s[i].start <= x < s[i].end;
      }
    } else if Covers(s, 0) {
      var i :| 0 <= i < |s| && s[i].start <= 0 < s[i].end;
      var x := s[i].end;
      assert x in Interval(0, size) && x !in Denote(s);
    } else {
      assert 0 in Interval(0, size) && 0 !in Denote(s);
    }
  }

  lemma VerifyMeaning(r: Receiver, expected: nat, env: Env)
    requires Covered(r) && HasRange(r.ranges, 0, r.slot.fileSize) && Verify(r, expected, env) == OK
    ensures |r.slot.tmp| == r.slot.fileSize
    ensures WholeFile(r.cfg.lib, r.slot.kind, r.slot.tmp) == expected
  {
    var whole := r.slot.tmp[..r.slot.fileSize];
    assert whole == r.slot.tmp;
  }

  lemma AddRangeCovered(r: Receiver, body: Body)
    requires Covered(r) && body.FileData? && body.offset + |body.data| <= r.slot.fileSize
    ensures var a := r.(slot := r.slot.(tmp := TmpAfter(r, body)));
            var b := AddRange(a, body.offset, body.offset + |body.data|);
            b.1 == OK ==> Covered(b.0) && b.0 == a.(ranges := RangesAfter(r, body))
  {
    var end := body.offset + |body.data|;
    if body.data != [] {
      InsertUnion(r.ranges, Range(body.offset, end));
      InsertBounds(r.ranges, 0, Range(body.offset, end), |TmpAfter(r, body)|);
    }
  }

  lemma {:induction false} InsertBounds(s: seq<Range>, k: nat, r: Range, limit: int)
    requires k <= |s| && 0 <= r.start && r.end <= limit
    requires forall i :: 0 <= i < |s| ==> 0 <= s[i].start && s[i].end <= limit
    ensures forall i :: 0 <= i < |InsertFrom(s, k, r)| ==>
                          0 <= InsertFrom(s, k, r)[i].start && InsertFrom(s, k, r)[i].end <= limit
    decreases |s| - k
  {
    if k < |s| && r.end >= s[k].start {
      InsertBounds(s, k + 1, if s[k].end < r.start then r else Merge(s[k], r), limit);
    }
  }

  lemma MetadataOutcome(r: Receiver, h: Header, body: Body, env: Env)
    requires Inv(r) && body.Metadata?
    ensures HandlerOutcome(r, h, body, FailIfActive(HandleMetadata(r, h, body, env), h))
    ensures HandlerCalls(r, h, body, FailIfActive(HandleMetadata(r, h, body, env), h).0)
  {
    var x := HandleMetadata(r, h, body, env);
    if !r.slot.active && Supported(body.kind) {
      var id := IdOf(h);
      if !env.openOk {
        assert x.0.trace == r.trace + [Activated(id)] + [Terminal(id, FilestoreRejection)];
      }
      assert MoveWith(r, x.0, []) && Inv(x.0);
    } else {
      UnchangedOutcome(r, h, body, x);
    }
  }

  /** Failing or not, ending a transaction is one move of the slot with at most one commit. */
  lemma EndMoves(r: Receiver, h: Header, mid: Receiver, f: (Receiver, Status), c: seq<Effect>)
    requires Matches(r, h) && !r.slot.waiting && mid.trace == r.trace && mid.slot.id == r.slot.id
    requires Ended(mid, f.0, f.1, c)
    ensures MoveWith(r, FailIfActive(f, h).0, c)
  {
  }

  /** An end of transaction reached from `mid`, seen from the state before the call. */
  lemma EndOutcome(r: Receiver, h: Header, body: Body, mid: Receiver, status: Status, env: Env)
    requires Inv(r) && Matches(r, h) && !r.slot.waiting
    requires Keeps(r, mid) && Covered(mid) && mid.trace == r.trace && mid.calls == r.calls
    requires mid.slot == r.slot.(tmp := mid.slot.tmp, eofReceived := mid.slot.eofReceived, eofChecksum := mid.slot.eofChecksum)
    requires mid.slot.tmp == TmpAfter(r, body)
    requires status == OK ==> Guard(r, h, body, mid.slot.tmp)
    ensures HandlerOutcome(r, h, body, FailIfActive(EndTransaction(mid, status, env), h))
    ensures HandlerCalls(r, h, body, FailIfActive(EndTransaction(mid, status, env), h).0)
  {
    FinishOutcome(mid, status, env);
    var f := EndTransaction(mid, status, env);
    var c :| Ended(mid, f.0, f.1, c) && (c != [] ==> status == OK);
    EndMoves(r, h, mid, f, c);
    EndInv(mid, h, f, c);
  }

  lemma EndInv(mid: Receiver, h: Header, f: (Receiver, Status), c: seq<Effect>)
    requires Covered(mid) && Matches(mid, h) && Supported(mid.slot.kind) && (mid.slot.acknowledged ==> mid.slot.closure)
    requires Ended(mid, f.0, f.1, c)
    ensures Inv(FailIfActive(f, h).0) && Keeps(mid, FailIfActive(f, h).0)
  {
  }

  lemma UnchangedOutcome(r: Receiver, h: Header, body: Body, x: (Receiver, Status))
    requires Inv(r) && x.0 == r
    ensures HandlerOutcome(r, h, body, FailIfActive(x, h))
    ensures HandlerCalls(r, h, body, FailIfActive(x, h).0)
  {
    var y := FailIfActive(x, h);
    if y.0 != r {
      assert y.0.trace == r.trace + [] + [Terminal(r.slot.id, x.1)];
    } else {
      assert r.trace == r.trace + [];
    }
    assert MoveWith(r, y.0, []);
  }

  /** A call that wrote data or sent a reply but did not end the transaction. */
  lemma PlainOutcome(r: Receiver, h: Header, body: Body, x: (Receiver, Status))
    requires Inv(r) && Matches(r, h) && Keeps(r, x.0) && x.0.trace == r.trace && x.0.calls == r.calls
    requires x.0.slot.active && x.0.slot.id == r.slot.id && x.0.slot.waiting == r.slot.waiting
    requires x.1 == OK ==> Inv(x.0)
    ensures HandlerOutcome(r, h, body, FailIfActive(x, h))
    ensures HandlerCalls(r, h, body, FailIfActive(x, h).0)
  {
    var y := FailIfActive(x, h);
    if x.1 != OK {
      assert y.0.trace == r.trace + [] + [Terminal(r.slot.id, x.1)];
    } else {
      assert r.trace == r.trace + [];
    }
    assert MoveWith(r, y.0, []);
  }

  /** The data of a File Data PDU is in: a good EOF and a complete file end the transaction. */
  lemma WholeOutcome(r: Receiver, h: Header, body: Body, mid: Receiver, env: Env)
    requires Inv(r) && body.FileData? && Matches(r, h) && !r.slot.waiting
    requires mid == r.(slot := r.slot.(tmp := TmpAfter(r, body)), ranges := RangesAfter(r, body))
    requires Covered(mid)
    ensures HandlerOutcome(r, h, body, FailIfActive(CompleteIfWhole(mid, env), h))
    ensures HandlerCalls(r, h, body, FailIfActive(CompleteIfWhole(mid, env), h).0)
  {
    if !(r.slot.eofReceived && r.slot.acknowledged) {
      PlainOutcome(r, h, body, (mid, OK));
    } else if r.slot.fileSize == 0 {
      EndOutcome(r, h, body, mid, InvalidArgument, env);
    } else if HasRange(mid.ranges, 0, r.slot.fileSize) {
      var status := Verify(mid, r.slot.eofChecksum, env);
      if status == OK {
        VerifyMeaning(mid, r.slot.eofChecksum, env);
        CompleteMeansCovered(mid.ranges, r.slot.fileSize);
      }
      EndOutcome(r, h, body, mid, status, env);
    } else {
      PlainOutcome(r, h, body, (mid, OK));
    }
  }

  lemma FileDataOutcome(r: Receiver, h: Header, body: Body, env: Env)
    requires Inv(r) && body.FileData?
    ensures HandlerOutcome(r, h, body, FailIfActive(HandleFileData(r, h, body, env), h))
    ensures HandlerCalls(r, h, body, FailIfActive(HandleFileData(r, h, body, env), h).0)
  {
    var x := HandleFileData(r, h, body, env);
    var end := body.offset + |body.data|;
    if MatchStatus(r, h) != OK || end >= U32 || end > r.slot.fileSize || !r.slot.handleOpen || !env.writeOk {
      UnchangedOutcome(r, h, body, x);
    } else {
      var a := r.(slot := r.slot.(tmp := TmpAfter(r, body)));
      var b := AddRange(a, body.offset, end);
      AddRangeCovered(r, body);
      if b.1 == OK {
        WholeOutcome(r, h, body, b.0, env);
      } else {
        PlainOutcome(r, h, body, x);
      }
    }
  }

  lemma RecoverOutcome(r: Receiver, h: Header, body: Body, mid: Receiver, env: Env)
    requires Inv(r) && body.Eof? && Matches(r, h) && !r.slot.waiting
    requires body.condition == NO_ERROR && body.size == r.slot.fileSize
    requires Keeps(r, mid) && mid.trace == r.trace && mid.ranges == r.ranges && mid.calls == r.calls
    requires mid.slot == r.slot.(eofChecksum := body.checksum)
    ensures HandlerOutcome(r, h, body, FailIfActive(CompleteOrRecover(mid, env), h))
    ensures HandlerCalls(r, h, body, FailIfActive(CompleteOrRecover(mid, env), h).0)
  {
    if r.slot.fileSize > 0 && HasRange(r.ranges, 0, r.slot.fileSize) {
      var status := Verify(mid, mid.slot.eofChecksum, env);
      if status == OK {
        VerifyMeaning(mid, body.checksum, env);
        CompleteMeansCovered(mid.ranges, r.slot.fileSize);
      }
      EndOutcome(r, h, body, mid, status, env);
    } else if r.slot.fileSize == 0 {
      EndOutcome(r, h, body, mid, InvalidArgument, env);
    } else if !r.slot.acknowledged {
      EndOutcome(r, h, body, mid, FileSizeError, env);
    } else {
      var a := mid.(slot := mid.slot.(eofReceived := true));
      var b := SendNak(a, env);
      if b.1 != OK {
        EndOutcome(r, h, body, b.0, b.1, env);
      } else {
        PlainOutcome(r, h, body, CompleteOrRecover(mid, env));
      }
    }
  }

  lemma EofOutcome(r: Receiver, h: Header, body: Body, env: Env)
    requires Inv(r) && body.Eof?
    ensures HandlerOutcome(r, h, body, FailIfActive(HandleEof(r, h, body, env), h))
    ensures HandlerCalls(r, h, body, FailIfActive(HandleEof(r, h, body, env), h).0)
  {
    var x := HandleEof(r, h, body, env);
    if MatchStatus(r, h) != OK {
      UnchangedOutcome(r, h, body, x);
    } else if r.slot.waiting {
      PlainOutcome(r, h, body, x);
    } else {
      var a := r.(slot := r.slot.(eofChecksum := body.checksum));
      var b := if r.slot.acknowledged then Send(a, AckEofMessage(a, body.condition), env.acceptAck) else (a, OK);
      if body.condition != NO_ERROR || body.size != r.slot.fileSize {
        EndOutcome(r, h, body, b.0, FileSizeError, env);
      } else if b.1 != OK {
        PlainOutcome(r, h, body, x);
      } else {
        RecoverOutcome(r, h, body, b.0, env);
      }
    }
  }

  /** Everything one input can do: at most one commit, and only a guarded one. */
  ghost predicate StepOutcome(r: Receiver, input: Input, q: Receiver) {
    exists c ::
      && Keeps(r, q) && MoveWith(r, q, c) && Inv(q)
      && (c == [] || (GuardedCommit(r, input) && c == [CommitOf(r, TmpAfter(r, input.incoming.body))]))
  }

  /** One input calls the commit at most once, and only under the guard. */
  ghost predicate StepCalls(r: Receiver, input: Input, q: Receiver) {
    || q.calls == r.calls
    || (GuardedCommit(r, input) && q.calls == r.calls + [CallOf(r, TmpAfter(r, input.incoming.body))])
  }

  ghost predicate GuardedCommit(r: Receiver, input: Input) {
    && input.Arrive? && input.incoming.Decodable?
    && Guard(r, input.incoming.header, input.incoming.body, TmpAfter(r, input.incoming.body))
  }

  lemma HandleOutcome(r: Receiver, h: Header, body: Body, env: Env)
    requires Inv(r)
    ensures HandlerOutcome(r, h, body, FailIfActive(Handle(r, h, body, env), h))
    ensures HandlerCalls(r, h, body, FailIfActive(Handle(r, h, body, env), h).0)
  {
    match body {
      case Metadata(_, _, _, _, _) => MetadataOutcome(r, h, body, env);
      case FileData(_, _) => FileDataOutcome(r, h, body, env);
      case Eof(_, _, _) => EofOutcome(r, h, body, env);
      case Ack(_, _, _, _) => AckOutcome(r, h, body);
      case _ => UnchangedOutcome(r, h, body, (r, Unsupported));
    }
  }

  lemma AckOutcome(r: Receiver, h: Header, body: Body)
    requires Inv(r) && body.Ack?
    ensures HandlerOutcome(r, h, body, FailIfActive(HandleAck(r, h, body), h))
    ensures HandlerCalls(r, h, body, FailIfActive(HandleAck(r, h, body), h).0)
  {
    var x := HandleAck(r, h, body);
    if x.0 == r {
      UnchangedOutcome(r, h, body, x);
    } else {
      assert x.0.trace == r.trace + [] + [Terminal(r.slot.id, r.slot.finishedStatus)];
      assert MoveWith(r, x.0, []);
    }
  }

  lemma PollRecoveryMoves(r: Receiver, now: nat, env: Env)
    requires Inv(r)
    ensures var q := PollRecovery(r, now, env);
            Keeps(r, q) && MoveWith(r, q, []) && Inv(q) && q.calls == r.calls && (r.slot.waiting ==> q == r)
  {
    var q := PollRecovery(r, now, env);
    if r.slot.active && !q.slot.active {
      assert q.trace == r.trace + [] + [Terminal(r.slot.id, q.trace[|q.trace| - 1].status)];
    } else {
      assert q.trace == r.trace + [];
    }
  }

  lemma PollFinishedMoves(r: Receiver, now: nat, env: Env)
    requires Inv(r)
    ensures var q := PollFinished(r, now, env);
            Keeps(r, q) && MoveWith(r, q, []) && Inv(q) && q.calls == r.calls && (!r.slot.waiting ==> q == r)
  {
    var q := PollFinished(r, now, env);
    if r.slot.active && !q.slot.active {
      assert q.trace == r.trace + [] + [Terminal(r.slot.id, q.trace[|q.trace| - 1].status)];
    } else {
      assert q.trace == r.trace + [];
    }
  }

  lemma TickOutcome(r: Receiver, now: nat, env: Env)
    requires Inv(r)
    ensures Keeps(r, Poll(r, now, env)) && MoveWith(r, Poll(r, now, env), []) && Inv(Poll(r, now, env))
    ensures Poll(r, now, env).calls == r.calls
  {
    PollRecoveryMoves(r, now, env);
    PollFinishedMoves(PollRecovery(r, now, env), now, env);
  }

  lemma StepHasOutcome(r: Receiver, input: Input)
    requires Inv(r)
    ensures StepOutcome(r, input, Step(r, input))
    ensures StepCalls(r, input, Step(r, input))
  {
    if input.Tick? {
      TickOutcome(r, input.now, input.env);
    } else {
      var incoming := input.incoming;
      if incoming.Decodable? && Supports(r, incoming.header) {
        var h, body := incoming.header, incoming.body;
        HandleOutcome(r, h, body, input.env);
        var x := FailIfActive(Handle(r, h, body, input.env), h);
        var c :| Keeps(r, x.0) && MoveWith(r, x.0, c) && Inv(x.0)
                 && (c == [] || (c == [CommitOf(r, TmpAfter(r, body))] && Guard(r, h, body, TmpAfter(r, body))));
      } else {
        UndecodedOutcome(r, incoming, input.env);
      }
    }
  }

  lemma UndecodedOutcome(r: Receiver, incoming: Incoming, env: Env)
    requires Inv(r) && !(incoming.Decodable? && Supports(r, incoming.header))
    ensures var q := Receive(r, incoming, env).0;
            Keeps(r, q) && MoveWith(r, q, []) && Inv(q) && q.calls == r.calls
  {
  }

  lemma {:induction false} RunInv(r: Receiver, inputs: seq<Input>, n: nat)
    requires n <= |inputs| && Inv(r)
    ensures Inv(Run(r, inputs, n)) && Run(r, inputs, n).cfg == r.cfg
  {
    if n > 0 {
      RunInv(r, inputs, n - 1);
      var t := Run(r, inputs, n - 1);
      StepHasOutcome(t, inputs[n - 1]);
    }
  }

  // ---- Conservation, and at most one commit per transaction ----

  /** Activations match terminal events, and only a waiting slot or a finished one has committed, once. */
  predicate TraceInv(r: Receiver) {
    && Balanced(r.slot.active, r.trace)
    && CommitsSince(r.trace) <= 1
    && (r.slot.active ==> CommitsSince(r.trace) == if r.slot.waiting then 1 else 0)
  }

  lemma AppendCounts(trace: seq<Effect>, c: seq<Effect>)
    requires |c| <= 1 && forall i :: 0 <= i < |c| ==> c[i].Committed?
    ensures Activations(trace + c) == Activations(trace) && Terminals(trace + c) == Terminals(trace)
    ensures CommitsSince(trace + c) == CommitsSince(trace) + |c|
  {
    if c == [] {
      assert trace + c == trace;
    } else {
      assert c == [c[0]];
      CountAppend(trace, c[0]);
      CommitsSinceAppend(trace, c[0]);
    }
  }

  lemma MoveKeepsTraceInv(r: Receiver, q: Receiver, c: seq<Effect>)
    requires TraceInv(r) && MoveWith(r, q, c)
    requires |c| <= 1 && forall i :: 0 <= i < |c| ==> c[i].Committed?
    ensures TraceInv(q)
  {
    AppendCounts(r.trace, c);
    if q.slot.active != r.slot.active || q.trace != r.trace + c {
      if r.slot.active {
        var status :| q.trace == r.trace + c + [Terminal(r.slot.id, status)];
        CountAppend(r.trace + c, Terminal(r.slot.id, status));
        CommitsSinceAppend(r.trace + c, Terminal(r.slot.id, status));
      } else {
        var id :| if q.slot.active then q.slot.id == id && q.trace == r.trace + [Activated(id)]
                  else exists status :: q.trace == r.trace + [Activated(id)] + [Terminal(id, status)];
        CountAppend(r.trace, Activated(id));
        CommitsSinceAppend(r.trace, Activated(id));
        if !q.slot.active {
          var status :| q.trace == r.trace + [Activated(id)] + [Terminal(id, status)];
          CountAppend(r.trace + [Activated(id)], Terminal(id, status));
          CommitsSinceAppend(r.trace + [Activated(id)], Terminal(id, status));
        }
      }
    }
  }

  /**
    In every run: activations equal terminal events plus one if the slot is still active, and
    no transaction commits twice; a slot waiting for the acknowledgement of Finished has committed.
   */
  lemma {:induction false} ReceiverConservation(r: Receiver, inputs: seq<Input>, n: nat)
    requires n <= |inputs| && Inv(r) && TraceInv(r)
    ensures TraceInv(Run(r, inputs, n))
  {
    if n > 0 {
      ReceiverConservation(r, inputs, n - 1);
      RunInv(r, inputs, n - 1);
      var t, q := Run(r, inputs, n - 1), Run(r, inputs, n);
      StepHasOutcome(t, inputs[n - 1]);
      var c :| Keeps(t, q) && MoveWith(t, q, c) && Inv(q)
               && (c == [] || (GuardedCommit(t, inputs[n - 1]) && c == [CommitOf(t, TmpAfter(t, inputs[n - 1].incoming.body))]));
      MoveKeepsTraceInv(t, q, c);
    }
  }

  // ---- The commit guard over runs ----

  predicate IsGoodEof(input: Input, id: TxnId, size: nat, checksum: nat) {
    && input.Arrive? && input.incoming.Decodable? && IdOf(input.incoming.header) == id && input.incoming.body.Eof?
    && input.incoming.body.condition == NO_ERROR && input.incoming.body.size == size
    && input.incoming.body.checksum == checksum
  }

  /** While a transaction stays active its identity is fixed, and a recorded EOF checksum comes from a good EOF. */
  lemma EofRecorded(r: Receiver, input: Input)
    requires Inv(r)
    ensures var q := Step(r, input);
            q.slot.active && q.slot.eofReceived ==>
              && r.slot.active && q.slot.id == r.slot.id && q.slot.fileSize == r.slot.fileSize
              && (IsGoodEof(input, q.slot.id, q.slot.fileSize, q.slot.eofChecksum)
                  || (r.slot.eofReceived && q.slot.eofChecksum == r.slot.eofChecksum))
  {
    if input.Arrive? && input.incoming.Decodable? {
      var h, body := input.incoming.header, input.incoming.body;
      if body.FileData? && MatchStatus(r, h) == OK {
        EofKeptByData(r, h, body, input.env);
      } else if body.Eof? && MatchStatus(r, h) == OK {
        EofKeptByEof(r, h, body, input.env);
      }
    } else if input.Tick? {
      PollRecoveryMoves(r, input.now, input.env);
    }
  }

  predicate KeepsEof(r: Receiver, q: Receiver) {
    q.slot.active ==> q.slot.eofReceived == r.slot.eofReceived && q.slot.eofChecksum == r.slot.eofChecksum
                      && q.slot.id == r.slot.id && q.slot.fileSize == r.slot.fileSize
  }

  lemma EndKeepsEof(r: Receiver, status: Status, env: Env)
    ensures KeepsEof(r, EndTransaction(r, status, env).0)
  {
  }

  lemma WholeKeepsEof(r: Receiver, env: Env)
    ensures KeepsEof(r, CompleteIfWhole(r, env).0)
  {
    if r.slot.fileSize == 0 {
      EndKeepsEof(r, InvalidArgument, env);
    } else if HasRange(r.ranges, 0, r.slot.fileSize) {
      EndKeepsEof(r, Verify(r, r.slot.eofChecksum, env), env);
    }
  }

  lemma EofKeptByData(r: Receiver, h: Header, body: Body, env: Env)
    requires body.FileData?
    ensures KeepsEof(r, HandleFileData(r, h, body, env).0)
  {
    var x := HandleFileData(r, h, body, env).0;
    var a := r.(slot := r.slot.(tmp := TmpAfter(r, body)));
    var b := AddRange(a, body.offset, body.offset + |body.data|).0;
    assert x == r || x == b || x == CompleteIfWhole(b, env).0;
    assert b.slot == a.slot;
    WholeKeepsEof(b, env);
  }

  lemma RecoverKeepsEof(r: Receiver, env: Env)
    ensures var q := CompleteOrRecover(r, env).0;
            KeepsEof(r, q) || KeepsEof(r.(slot := r.slot.(eofReceived := true)), q)
  {
    if r.slot.fileSize == 0 {
      EndKeepsEof(r, InvalidArgument, env);
    } else if HasRange(r.ranges, 0, r.slot.fileSize) {
      EndKeepsEof(r, Verify(r, r.slot.eofChecksum, env), env);
    } else if !r.slot.acknowledged {
      EndKeepsEof(r, FileSizeError, env);
    } else {
      var b := SendNak(r.(slot := r.slot.(eofReceived := true)), env);
      if b.1 != OK {
        EndKeepsEof(b.0, b.1, env);
      }
    }
  }

  lemma EofKeptByEof(r: Receiver, h: Header, body: Body, env: Env)
    requires body.Eof? && Matches(r, h)
    ensures var x := HandleEof(r, h, body, env);
            x.0.slot.active ==>
              && x.0.slot.id == r.slot.id && x.0.slot.fileSize == r.slot.fileSize
              && (x.1 == OK && x.0.slot.eofReceived ==>
                    (body.condition == NO_ERROR && body.size == r.slot.fileSize && body.checksum == x.0.slot.eofChecksum)
                    || (r.slot.eofReceived && x.0.slot.eofChecksum == r.slot.eofChecksum))
  {
    if !r.slot.waiting {
      var a := r.(slot := r.slot.(eofChecksum := body.checksum));
      var b := if r.slot.acknowledged then Send(a, AckEofMessage(a, body.condition), env.acceptAck) else (a, OK);
      if body.condition != NO_ERROR || body.size != r.slot.fileSize {
        EndKeepsEof(b.0, FileSizeError, env);
        BadEofFails(b.0, env);
      } else if b.1 == OK {
        RecoverKeepsEof(b.0, env);
      }
    }
  }

  lemma BadEofFails(r: Receiver, env: Env)
    ensures EndTransaction(r, FileSizeError, env).1 != OK
  {
  }

  ghost predicate EofSeen(inputs: seq<Input>, n: nat, id: TxnId, size: nat, checksum: nat) {
    exists j :: 0 <= j < n && j < |inputs| && IsGoodEof(inputs[j], id, size, checksum)
  }

  lemma {:induction false} EofRecordedRun(r: Receiver, inputs: seq<Input>, n: nat)
    requires n <= |inputs| && Inv(r) && !r.slot.active
    ensures var q := Run(r, inputs, n);
            q.slot.active && q.slot.eofReceived ==> EofSeen(inputs, n, q.slot.id, q.slot.fileSize, q.slot.eofChecksum)
  {
    if n > 0 {
      EofRecordedRun(r, inputs, n - 1);
      RunInv(r, inputs, n - 1);
      EofRecorded(Run(r, inputs, n - 1), inputs[n - 1]);
    }
  }

  lemma RunFacts(r: Receiver, inputs: seq<Input>, n: nat)
    requires 0 < n <= |inputs| && Inv(r) && !r.slot.active
    ensures var t := Run(r, inputs, n - 1);
            && Inv(t) && Run(r, inputs, n) == Step(t, inputs[n - 1])
            && (t.slot.active && t.slot.eofReceived ==> EofSeen(inputs, n - 1, t.slot.id, t.slot.fileSize, t.slot.eofChecksum))
  {
    RunInv(r, inputs, n - 1);
    EofRecordedRun(r, inputs, n - 1);
  }

  /** A step from t to q committed a file; i is any index of a new trace entry. */
  predicate CommitsAt(t: Receiver, q: Receiver, i: nat, e: Effect) {
    e.Committed? && |t.trace| <= i < |q.trace| && q.trace[i] == e
  }

  /** A step from t to q called the filestore's commit, which may have refused. */
  predicate CallsAt(t: Receiver, q: Receiver, i: nat, e: Call) {
    |t.calls| <= i < |q.calls| && q.calls[i] == e
  }

  /** Before input n - 1, everything was in place to commit `content`. */
  ghost predicate GuardedAt(t: Receiver, inputs: seq<Input>, n: nat, content: seq<byte>)
    requires 0 < n <= |inputs|
  {
    var input := inputs[n - 1];
    && GuardedCommit(t, input) && content == TmpAfter(t, input.incoming.body)
    && |content| == t.slot.fileSize > 0
    && Interval(0, t.slot.fileSize) <= Denote(RangesAfter(t, input.incoming.body))
    && EofSeen(inputs, n, t.slot.id, t.slot.fileSize, WholeFile(t.cfg.lib, t.slot.kind, content))
  }

  /**
    Whatever PDUs arrive, the n-th input calls the filestore's commit, with whatever result, only
    if the received ranges cover [0, file size), an EOF with no error and the size of the Metadata
    arrived for this transaction, and its checksum is that of the file to be committed.
   */
  lemma CallGuard(r: Receiver, inputs: seq<Input>, n: nat, i: nat, e: Call)
    requires 0 < n <= |inputs| && Inv(r) && !r.slot.active
    requires CallsAt(Run(r, inputs, n - 1), Run(r, inputs, n), i, e)
    ensures var t := Run(r, inputs, n - 1); GuardedAt(t, inputs, n, e.content) && e == CallOf(t, e.content)
  {
    RunFacts(r, inputs, n);
    CallGuardedAt(Run(r, inputs, n - 1), Run(r, inputs, n), inputs, n, i, e);
  }

  lemma CallGuardedAt(t: Receiver, q: Receiver, inputs: seq<Input>, n: nat, i: nat, e: Call)
    requires 0 < n <= |inputs| && Inv(t) && q == Step(t, inputs[n - 1]) && CallsAt(t, q, i, e)
    requires t.slot.active && t.slot.eofReceived ==> EofSeen(inputs, n - 1, t.slot.id, t.slot.fileSize, t.slot.eofChecksum)
    ensures GuardedAt(t, inputs, n, e.content) && e == CallOf(t, e.content)
  {
    StepHasOutcome(t, inputs[n - 1]);
    GuardSawEof(t, inputs, n, e.content);
  }

  /** The same of every file committed. */
  lemma CommitGuard(r: Receiver, inputs: seq<Input>, n: nat, i: nat, e: Effect)
    requires 0 < n <= |inputs| && Inv(r) && !r.slot.active
    requires CommitsAt(Run(r, inputs, n - 1), Run(r, inputs, n), i, e)
    ensures var t := Run(r, inputs, n - 1); GuardedAt(t, inputs, n, e.content) && e == CommitOf(t, e.content)
  {
    RunFacts(r, inputs, n);
    CommitGuardedAt(Run(r, inputs, n - 1), Run(r, inputs, n), inputs, n, i, e);
  }

  lemma CommitGuardedAt(t: Receiver, q: Receiver, inputs: seq<Input>, n: nat, i: nat, e: Effect)
    requires 0 < n <= |inputs| && Inv(t) && q == Step(t, inputs[n - 1]) && CommitsAt(t, q, i, e)
    requires t.slot.active && t.slot.eofReceived ==> EofSeen(inputs, n - 1, t.slot.id, t.slot.fileSize, t.slot.eofChecksum)
    ensures GuardedAt(t, inputs, n, e.content) && e == CommitOf(t, e.content)
  {
    StepGuarded(t, inputs[n - 1], i, e);
    GuardSawEof(t, inputs, n, e.content);
  }

  lemma StepGuarded(t: Receiver, input: Input, i: nat, e: Effect)
    requires Inv(t) && CommitsAt(t, Step(t, input), i, e)
    ensures GuardedCommit(t, input) && e == CommitOf(t, TmpAfter(t, input.incoming.body))
  {
    var q := Step(t, input);
    StepHasOutcome(t, input);
    var c :| Keeps(t, q) && MoveWith(t, q, c) && Inv(q)
             && (c == [] || (GuardedCommit(t, input) && c == [CommitOf(t, TmpAfter(t, input.incoming.body))]));
    OnlyCommit(t, q, c, i, e);
  }

  lemma GuardSawEof(t: Receiver, inputs: seq<Input>, n: nat, content: seq<byte>)
    requires 0 < n <= |inputs| && GuardedCommit(t, inputs[n - 1])
    requires content == TmpAfter(t, inputs[n - 1].incoming.body)
    requires t.slot.eofReceived ==> EofSeen(inputs, n - 1, t.slot.id, t.slot.fileSize, t.slot.eofChecksum)
    ensures GuardedAt(t, inputs, n, content)
  {
    assert EofSeen(inputs, n, t.slot.id, t.slot.fileSize, WholeFile(t.cfg.lib, t.slot.kind, content));
  }

  lemma OnlyCommit(t: Receiver, q: Receiver, c: seq<Effect>, i: nat, e: Effect)
    requires MoveWith(t, q, c) && |c| <= 1 && CommitsAt(t, q, i, e)
    ensures c == [e]
  {
  }

  /** A PDU that names another transaction leaves an active slot exactly as it was. */
  lemma OtherTransactionIgnored(r: Receiver, incoming: Incoming, env: Env)
    requires r.slot.active && !incoming.BadHeader? && IdOf(incoming.header) != r.slot.id
    ensures Receive(r, incoming, env).0 == r
  {
  }
}
