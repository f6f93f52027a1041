/** What a receiver step does to the file being assembled, and what its replies vouch for. */
module CfdpReplies {
  import opened CfdpTypes
  import opened CfdpRanges
  import opened CfdpChecksum
  import opened CfdpPdu
  import opened CfdpCore
  import opened CfdpReceiver
  import opened CfdpReceiverRuns

  // ---- The file being assembled ----

  predicate SameFile(r: Receiver, q: Receiver) {
    q.slot.id == r.slot.id && q.slot.fileSize == r.slot.fileSize && q.slot.kind == r.slot.kind
    && q.slot.destPath == r.slot.destPath && q.slot.acknowledged == r.slot.acknowledged
  }

  predicate SameData(r: Receiver, q: Receiver) {
    SameFile(r, q) && q.slot.tmp == r.slot.tmp && q.ranges == r.ranges
  }

  lemma EndSameData(r: Receiver, status: Status, env: Env)
    ensures var q := EndTransaction(r, status, env).0; q.slot.active ==> SameData(r, q)
  {
  }

  /** What `q.slot` can be after a handler ran on `body`: nothing new, the data written, or a new transaction. */
  ghost predicate Evolved(r: Receiver, h: Header, body: Body, q: Receiver) {
    q.slot.active ==>
      || (r.slot.active && SameData(r, q))
      || (r.slot.active && body.FileData? && Matches(r, h) && SameFile(r, q)
          && q.slot.tmp == TmpAfter(r, body) && body.offset + |body.data| <= r.slot.fileSize && body.data != []
          && q.ranges == RangesAfter(r, body))
      || (!r.slot.active && body.Metadata? && q.slot == OpenSlot(h, body) && q.ranges == [])
  }

  lemma FileDataEvolves(r: Receiver, h: Header, body: Body, env: Env)
    requires body.FileData?
    ensures HandleFileData(r, h, body, env).1 == OK ==> Evolved(r, h, body, HandleFileData(r, h, body, env).0)
    ensures HandleFileData(r, h, body, env).0.slot.active ==> HandleFileData(r, h, body, env).0.slot.id == r.slot.id
  {
    var x := HandleFileData(r, h, body, env);
    var a := r.(slot := r.slot.(tmp := TmpAfter(r, body)));
    var b := AddRange(a, body.offset, body.offset + |body.data|);
    assert x.0 == r || x == b || (x == CompleteIfWhole(b.0, env) && b.1 == OK);
    assert b.0.slot == a.slot;
    WholeSameData(b.0, env);
  }

  lemma WholeSameData(r: Receiver, env: Env)
    ensures var q := CompleteIfWhole(r, env).0; q.slot.active ==> SameData(r, q)
  {
    if r.slot.fileSize == 0 {
      EndSameData(r, InvalidArgument, env);
    } else if HasRange(r.ranges, 0, r.slot.fileSize) {
      EndSameData(r, Verify(r, r.slot.eofChecksum, env), env);
    }
  }

  lemma RecoverSameData(r: Receiver, env: Env)
    ensures var q := CompleteOrRecover(r, env).0; q.slot.active ==> SameData(r, q)
  {
    if r.slot.fileSize == 0 {
      EndSameData(r, InvalidArgument, env);
    } else if HasRange(r.ranges, 0, r.slot.fileSize) {
      EndSameData(r, Verify(r, r.slot.eofChecksum, env), env);
    } else if !r.slot.acknowledged {
      EndSameData(r, FileSizeError, env);
    } else {
      var b := SendNak(r.(slot := r.slot.(eofReceived := true)), env);
      if b.1 != OK {
        EndSameData(b.0, b.1, env);
      }
    }
  }

  lemma EofSameData(r: Receiver, h: Header, body: Body, env: Env)
    requires body.Eof?
    ensures var q := HandleEof(r, h, body, env).0; q.slot.active ==> SameData(r, q)
  {
    if MatchStatus(r, h) == OK && !r.slot.waiting {
      var a := r.(slot := r.slot.(eofChecksum := body.checksum));
      var b := if r.slot.acknowledged then Send(a, AckEofMessage(a, body.condition), env.acceptAck) else (a, OK);
      if body.condition != NO_ERROR || body.size != r.slot.fileSize {
        EndSameData(b.0, FileSizeError, env);
      } else if b.1 == OK {
        RecoverSameData(b.0, env);
      }
    }
  }

  /** One delivered PDU: the slot holds what it held, or the PDU's data as well, or a new empty file. */
  lemma ReceiveEvolves(r: Receiver, h: Header, body: Body, env: Env)
    ensures Evolved(r, h, body, Receive(r, Decodable(h, body), env).0)
  {
    match body {
      case FileData(_, _) => FileDataEvolves(r, h, body, env);
      case Eof(_, _, _) => EofSameData(r, h, body, env);
      case _ =>
    }
  }

  lemma PollSameData(r: Receiver, now: nat, env: Env)
    ensures Poll(r, now, env).slot.active ==> r.slot.active && SameData(r, Poll(r, now, env))
  {
  }

  // ---- Replies ----

  predicate ClaimsDelivery(m: Message) {
    m.body.Finished? && m.body.condition == NO_ERROR && !m.body.incomplete
  }

  predicate HasCommit(trace: seq<Effect>, id: TxnId) {
    exists i :: 0 <= i < |trace| && trace[i].Committed? && trace[i].id == id
  }

  predicate IsReply(r: Receiver, m: Message) {
    m.header == Reply(r) && r.cfg.encoder(m).Ok? && (m.body.Finished? || m.body.Ack? || m.body.Nak?)
  }

  /** Every new message is a reply for the slot's transaction, and claims delivery only of a committed file. */
  ghost predicate Replies(r: Receiver, q: Receiver) {
    && r.out <= q.out && r.trace <= q.trace
    && forall i :: |r.out| <= i < |q.out| ==>
                     IsReply(r, q.out[i])
                     && (ClaimsDelivery(q.out[i]) ==> r.slot.waiting || HasCommit(q.trace, r.slot.id))
  }

  lemma HasCommitGrows(s: seq<Effect>, t: seq<Effect>, id: TxnId)
    requires s <= t && HasCommit(s, id)
    ensures HasCommit(t, id)
  {
  }

  /** Replies compose across a step that keeps the transaction. */
  lemma RepliesThrough(r: Receiver, mid: Receiver, q: Receiver)
    requires Replies(r, mid) && Replies(mid, q)
    requires Reply(mid) == Reply(r) && mid.cfg == r.cfg && mid.slot.id == r.slot.id && (mid.slot.waiting ==> r.slot.waiting)
    ensures Replies(r, q)
  {
  }

  lemma SendReplies(r: Receiver, m: Message, accepted: bool)
    requires m.header == Reply(r) && (m.body.Finished? || m.body.Ack? || m.body.Nak?)
    requires ClaimsDelivery(m) ==> r.slot.waiting || HasCommit(r.trace, r.slot.id)
    ensures Replies(r, Send(r, m, accepted).0)
  {
  }

  /** A successful commit puts the file in the trace before Finished is sent. */
  lemma CommitRecorded(r: Receiver, status: Status, env: Env)
    ensures var a := CloseAndCommit(r, status, env);
            Replies(r, a.0) && (a.1 == OK ==> HasCommit(a.0.trace, r.slot.id))
  {
    var a := CloseAndCommit(r, status, env);
    if a.1 == OK {
      assert a.0.trace[|r.trace|] == Committed(r.slot.id, r.slot.destPath, r.slot.tmp);
    }
  }

  lemma EndReplies(r: Receiver, status: Status, env: Env)
    ensures Replies(r, EndTransaction(r, status, env).0)
  {
    var a := CloseAndCommit(r, status, env);
    CommitRecorded(r, status, env);
    var s := a.0.(slot := a.0.slot.(finishedStatus := a.1));
    assert Replies(r, s);
    var m := FinishedMessage(a.0, a.1);
    SendReplies(s, m, env.acceptFinished);
    var b := if r.slot.closure then Send(s, m, env.acceptFinished).0 else a.0;
    assert Replies(r, b) by {
      if r.slot.closure { RepliesThrough(r, s, b); }
    }
    var q := EndTransaction(r, status, env).0;
    assert q.out == b.out && b.trace <= q.trace;
    EndRepliesTail(r, b, q);
  }

  lemma EndRepliesTail(r: Receiver, b: Receiver, q: Receiver)
    requires Replies(r, b) && q.out == b.out && b.trace <= q.trace
    ensures Replies(r, q)
  {
  }

  lemma SendNakReplies(r: Receiver, env: Env)
    ensures Replies(r, SendNak(r, env).0)
  {
  }

  lemma WholeReplies(r: Receiver, env: Env)
    ensures Replies(r, CompleteIfWhole(r, env).0)
  {
    if r.slot.fileSize == 0 {
      EndReplies(r, InvalidArgument, env);
    } else if HasRange(r.ranges, 0, r.slot.fileSize) {
      EndReplies(r, Verify(r, r.slot.eofChecksum, env), env);
    }
  }

  lemma RecoverReplies(r: Receiver, env: Env)
    ensures Replies(r, CompleteOrRecover(r, env).0)
  {
    if r.slot.fileSize == 0 {
      EndReplies(r, InvalidArgument, env);
    } else if HasRange(r.ranges, 0, r.slot.fileSize) {
      EndReplies(r, Verify(r, r.slot.eofChecksum, env), env);
    } else if !r.slot.acknowledged {
      EndReplies(r, FileSizeError, env);
    } else {
      var a := r.(slot := r.slot.(eofReceived := true));
      var b := SendNak(a, env);
      SendNakReplies(a, env);
      assert Replies(r, b.0);
      if b.1 != OK {
        EndReplies(b.0, b.1, env);
        RepliesThrough(r, b.0, EndTransaction(b.0, b.1, env).0);
      }
    }
  }

  lemma EofReplies(r: Receiver, h: Header, body: Body, env: Env)
    requires body.Eof? && (r.slot.waiting ==> r.slot.active)
    ensures Replies(r, HandleEof(r, h, body, env).0)
  {
    if MatchStatus(r, h) == OK {
      if r.slot.waiting {
        SendReplies(r, FinishedMessage(r, r.slot.finishedStatus), env.acceptFinished);
      } else {
        var a := r.(slot := r.slot.(eofChecksum := body.checksum));
        var b := if r.slot.acknowledged then Send(a, AckEofMessage(a, body.condition), env.acceptAck) else (a, OK);
        SendReplies(a, AckEofMessage(a, body.condition), env.acceptAck);
        assert Replies(r, b.0);
        if body.condition != NO_ERROR || body.size != r.slot.fileSize {
          EndReplies(b.0, FileSizeError, env);
          RepliesThrough(r, b.0, EndTransaction(b.0, FileSizeError, env).0);
        } else if b.1 == OK {
          RecoverReplies(b.0, env);
          RepliesThrough(r, b.0, CompleteOrRecover(b.0, env).0);
        }
      }
    }
  }

  lemma FileDataReplies(r: Receiver, h: Header, body: Body, env: Env)
    requires body.FileData?
    ensures Replies(r, HandleFileData(r, h, body, env).0)
  {
    var x := HandleFileData(r, h, body, env).0;
    var a := r.(slot := r.slot.(tmp := TmpAfter(r, body)));
    var b := AddRange(a, body.offset, body.offset + |body.data|).0;
    assert x == r || x == b || x == CompleteIfWhole(b, env).0;
    assert b.slot == a.slot && Replies(r, b);
    WholeReplies(b, env);
    RepliesThrough(r, b, CompleteIfWhole(b, env).0);
  }

  /** Replies to any buffer or poll: only a committed file is ever claimed as delivered. */
  lemma ReceiveReplies(r: Receiver, incoming: Incoming, env: Env)
    requires Inv(r)
    ensures Replies(r, Receive(r, incoming, env).0)
  {
    if incoming.Decodable? && Supports(r, incoming.header) {
      var h, body := incoming.header, incoming.body;
      var x := Handle(r, h, body, env);
      assert Replies(r, x.0) by {
        match body {
          case FileData(_, _) => FileDataReplies(r, h, body, env);
          case Eof(_, _, _) => EofReplies(r, h, body, env);
          case _ =>
        }
      }
      var q := FailIfActive(x, h).0;
      EndRepliesTail(r, x.0, q);
    }
  }

  lemma PollReplies(r: Receiver, now: nat, env: Env)
    requires Inv(r)
    ensures Replies(r, Poll(r, now, env))
  {
    var p := PollRecovery(r, now, env);
    PollRecoveryMoves(r, now, env);
    SendNakReplies(r, env);
    assert Replies(r, p);
    if p.slot.waiting {
      SendReplies(p, FinishedMessage(p, p.slot.finishedStatus), env.acceptFinished);
    }
  }

  // ---- What a COMPLETE event vouches for ----

  predicate EndsComplete(r: Receiver, q: Receiver) {
    |q.trace| > |r.trace| && q.trace[|q.trace| - 1] == Terminal(r.slot.id, OK)
  }

  predicate JustCommitted(r: Receiver, q: Receiver) {
    |q.trace| >= |r.trace| + 2 && q.trace[|q.trace| - 2].Committed? && q.trace[|q.trace| - 2].id == r.slot.id
  }

  /** A step that ends the transaction with COMPLETE commits the file first. */
  predicate CompleteCommits(r: Receiver, q: Receiver) {
    EndsComplete(r, q) ==> JustCommitted(r, q)
  }

  lemma EndCommits(r: Receiver, status: Status, env: Env)
    ensures CompleteCommits(r, EndTransaction(r, status, env).0)
  {
    var a := CloseAndCommit(r, status, env);
    assert a.1 == OK ==> a.0.trace == r.trace + [CommitOf(r, r.slot.tmp)];
    assert a.1 != OK ==> a.0.trace == r.trace;
  }

  lemma WholeCommits(r: Receiver, env: Env)
    ensures CompleteCommits(r, CompleteIfWhole(r, env).0)
  {
    if r.slot.fileSize == 0 {
      EndCommits(r, InvalidArgument, env);
    } else if HasRange(r.ranges, 0, r.slot.fileSize) {
      EndCommits(r, Verify(r, r.slot.eofChecksum, env), env);
    }
  }

  lemma RecoverCommits(r: Receiver, env: Env)
    ensures CompleteCommits(r, CompleteOrRecover(r, env).0)
  {
    if r.slot.fileSize == 0 {
      EndCommits(r, InvalidArgument, env);
    } else if HasRange(r.ranges, 0, r.slot.fileSize) {
      EndCommits(r, Verify(r, r.slot.eofChecksum, env), env);
    } else if !r.slot.acknowledged {
      EndCommits(r, FileSizeError, env);
    } else {
      var b := SendNak(r.(slot := r.slot.(eofReceived := true)), env);
      if b.1 != OK {
        EndCommits(b.0, b.1, env);
      }
    }
  }

  lemma EofCommits(r: Receiver, h: Header, body: Body, env: Env)
    requires body.Eof?
    ensures CompleteCommits(r, HandleEof(r, h, body, env).0)
  {
    if MatchStatus(r, h) == OK && !r.slot.waiting {
      var a := r.(slot := r.slot.(eofChecksum := body.checksum));
      var b := if r.slot.acknowledged then Send(a, AckEofMessage(a, body.condition), env.acceptAck) else (a, OK);
      if body.condition != NO_ERROR || body.size != r.slot.fileSize {
        EndCommits(b.0, FileSizeError, env);
      } else if b.1 == OK {
        RecoverCommits(b.0, env);
      }
    }
  }

  lemma FileDataCommits(r: Receiver, h: Header, body: Body, env: Env)
    requires body.FileData?
    ensures CompleteCommits(r, HandleFileData(r, h, body, env).0)
  {
    var x := HandleFileData(r, h, body, env).0;
    var a := r.(slot := r.slot.(tmp := TmpAfter(r, body)));
    var b := AddRange(a, body.offset, body.offset + |body.data|).0;
    assert x == r || x == b || x == CompleteIfWhole(b, env).0;
    assert b.slot == a.slot && b.trace == r.trace;
    WholeCommits(b, env);
  }

  /** An acknowledgement of Finished for the slot's transaction, although no Finished awaits one. */
  predicate StrayAck(r: Receiver, input: Input) {
    && input.Arrive? && input.incoming.Decodable? && input.incoming.body.Ack?
    && Supports(r, input.incoming.header) && Matches(r, input.incoming.header) && !r.slot.waiting
    && input.incoming.body.directive == 5 && input.incoming.body.subtype == 1 && !input.incoming.header.unacknowledged
  }

  lemma ArriveCommits(r: Receiver, incoming: Incoming, env: Env)
    requires Inv(r) && r.slot.active
    ensures var q := Receive(r, incoming, env).0;
            EndsComplete(r, q) ==> JustCommitted(r, q) || r.slot.waiting || StrayAck(r, Arrive(incoming, env))
  {
    if incoming.Decodable? && Supports(r, incoming.header) {
      var h, body := incoming.header, incoming.body;
      match body {
        case FileData(_, _) => FileDataCommits(r, h, body, env);
        case Eof(_, _, _) => EofCommits(r, h, body, env);
        case _ =>
      }
    }
  }

  /**
    When a step reports COMPLETE, the transaction has committed its file, unless the step is
    an acknowledgement of Finished that nothing was waiting for: then it has not.
   */
  lemma CompleteExactly(r: Receiver, input: Input)
    requires Inv(r) && TraceInv(r) && r.slot.active && EndsComplete(r, Step(r, input))
    ensures CommitsSince(Step(r, input).trace) == 1 <==> !StrayAck(r, input)
  {
    if StrayAck(r, input) {
      StrayAckCompletes(r, input);
    } else {
      StepHasOutcome(r, input);
      EndWasVouched(r, input);
      CountAtEnd(r, Step(r, input), input);
    }
  }

  /** A COMPLETE that is not stray follows a commit: of this step, or of the one that made the slot wait. */
  lemma EndWasVouched(r: Receiver, input: Input)
    requires Inv(r) && r.slot.active && EndsComplete(r, Step(r, input)) && !StrayAck(r, input)
    ensures JustCommitted(r, Step(r, input)) || r.slot.waiting
  {
    if input.Arrive? {
      ArriveCommits(r, input.incoming, input.env);
    } else {
      PollRecoveryMoves(r, input.now, input.env);
    }
  }

  lemma CountAtEnd(r: Receiver, q: Receiver, input: Input)
    requires TraceInv(r) && r.slot.active && EndsComplete(r, q) && StepOutcome(r, input, q)
    requires JustCommitted(r, q) || r.slot.waiting
    ensures CommitsSince(q.trace) == 1
  {
    var c :| Keeps(r, q) && MoveWith(r, q, c) && Inv(q)
             && (c == [] || (GuardedCommit(r, input) && c == [CommitOf(r, TmpAfter(r, input.incoming.body))]));
    var status :| q.trace == r.trace + c + [Terminal(r.slot.id, status)];
    AppendCounts(r.trace, c);
    CommitsSinceAppend(r.trace + c, Terminal(r.slot.id, status));
  }

  /** A stray acknowledgement always ends the transaction as COMPLETE, with nothing committed. */
  lemma StrayAckCompletes(r: Receiver, input: Input)
    requires Inv(r) && TraceInv(r) && StrayAck(r, input)
    ensures EndsComplete(r, Step(r, input)) && CommitsSince(Step(r, input).trace) == 0
  {
  }
}
