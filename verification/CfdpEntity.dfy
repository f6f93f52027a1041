/**
  The CFDP entity as the program holds it: one object with a sender slot, a receiver slot, an
  in-place range list and an outbox, updated call by call.  Every method is proved to do to
  its object what the functions of `CfdpSender` and `CfdpReceiver` do to their states.
 */
module CfdpEntity {
  import opened CfdpTypes
  import opened CfdpRanges
  import opened CfdpChecksum
  import Sums = CfdpChecksum
  import opened CfdpPdu
  import opened CfdpCore
  import S = CfdpSender
  import R = CfdpReceiver
  import RR = CfdpReceiverRuns

  /** The file size in a decoded Metadata PDU is a 32-bit value. */
  lemma ParsedSize(lim: Limits, buf: seq<byte>)
    ensures var p := Parse(lim, buf); p.Decodable? && p.body.Metadata? ==> p.body.fileSize < U32
  {
    var p := Parse(lim, buf);
    if p.Decodable? && p.body.Metadata? {
      var at := HeaderLen(p.header);
      var field := buf[at..at + p.header.dataLen];
      PutGet(field[2..6]);
      Pow256Values();
    }
  }

  class Entity {
    const cfg: Config
    const ids: Ids
    var nextSeqno: nat
    var sender: S.Slot
    var receiver: R.Slot
    const received: RangeList
    var out: seq<Message>
    var senderEvents: seq<Effect>
    var receiverEvents: seq<Effect>
    var commitCalls: seq<R.Call>

    ghost predicate Valid()
      reads this, received, received.ranges
    {
      received.Valid() && received.ranges.Length == cfg.lim.maxNakRanges && receiver.fileSize < U32
    }

    /** The sending side of the object, as a state. */
    function Sending(): S.Sender
      reads this
    {
      S.Sender(cfg, ids, nextSeqno, sender, out, senderEvents)
    }

    /** The receiving side of the object, as a state. */
    function Receiving(): R.Receiver
      requires received.count <= received.ranges.Length
      reads this, received, received.ranges
    {
      R.Receiver(cfg, ids, receiver, received.Contents(), out, receiverEvents, commitCalls)
    }

    constructor (cfg: Config, ids: Ids, first: nat)
      ensures Valid() && fresh(received) && fresh(received.ranges)
      ensures this.cfg == cfg && this.ids == ids && nextSeqno == first && out == []
      ensures sender == S.IDLE && receiver == R.IDLE && received.Contents() == []
      ensures senderEvents == [] && receiverEvents == [] && commitCalls == [] && RR.Inv(Receiving())
    {
      this.cfg, this.ids, nextSeqno := cfg, ids, first;
      sender, receiver := S.IDLE, R.IDLE;
      received := new RangeList(cfg.lim.maxNakRanges);
      out, senderEvents, receiverEvents, commitCalls := [], [], [], [];
    }

    method Transmit(m: Message, accepted: bool) returns (status: Status)
      modifies this`out
      ensures status == SendStatus(cfg, m, accepted)
      ensures out == if status == OK then old(out) + [m] else old(out)
    {
      var bytes := cfg.encoder(m);
      if bytes.Err? {
        return bytes.status;
      }
      if !accepted {
        return InvalidArgument;
      }
      out := out + [m];
      return OK;
    }

    // ---- Sending side ----

    method ReleaseSender(status: Status)
      modifies this`sender, this`senderEvents
      ensures Sending() == S.Release(old(Sending()), status)
    {
      senderEvents := senderEvents + [Terminal(sender.id, status)];
      sender := S.IDLE;
    }

    /** The read-and-send loop over [from, until) of the open file. */
    method SendRange(from: nat, until: nat, env: S.Env) returns (status: Status)
      requires from <= until <= |sender.file|
      modifies this`out
      ensures (Sending(), status) == S.SendSegments(old(Sending()), from, until, env)
    {
      var offset := from;
      while offset < until
        invariant from <= offset <= until
        invariant S.SendSegments(old(Sending()), from, until, env) == S.SendSegments(Sending(), offset, until, env)
      {
        var request := Request(until, offset, cfg.maxSegment);
        var got := env.read(offset, request);
        if got.Err? {
          return FilestoreRejection;
        }
        if got.value == 0 || got.value > request {
          return FileSizeError;
        }
        status := Transmit(S.FileDataMessage(Sending(), offset, got.value), env.accept(|out|));
        if status != OK {
          return;
        }
        offset := offset + got.value;
      }
      return OK;
    }

    /** The loop of send_file: each segment is sent and then added to the running checksum. */
    method SendWhole(kind: ChecksumType, env: S.Env) returns (status: Status, checksum: u32)
      requires Supported(kind) && |sender.file| < U32
      modifies this`out
      ensures (Sending(), status) == S.SendSegments(old(Sending()), 0, |sender.file|, env)
      ensures status == OK ==> checksum == WholeFile(cfg.lib, kind, sender.file)
    {
      var c, offset := Init(kind), 0;
      checksum := 0;
      while offset < |sender.file|
        invariant offset <= |sender.file| && c == PrefixState(cfg.lib, kind, sender.file, offset)
        invariant S.SendSegments(old(Sending()), 0, |sender.file|, env) == S.SendSegments(Sending(), offset, |sender.file|, env)
      {
        var request := Request(|sender.file|, offset, cfg.maxSegment);
        var got := env.read(offset, request);
        if got.Err? {
          return FilestoreRejection, 0;
        }
        if got.value == 0 || got.value > request {
          return FileSizeError, 0;
        }
        status := Transmit(S.FileDataMessage(Sending(), offset, got.value), env.accept(|out|));
        if status != OK {
          return;
        }
        var data := sender.file[offset..offset + got.value];
        PrefixStep(cfg.lib, kind, sender.file, offset, data);
        c := Update(cfg.lib, c, offset, data).value;
        offset := offset + got.value;
      }
      PrefixDone(cfg.lib, kind, sender.file);
      return OK, Sums.Finish(c).value;
    }

    method SendBody(request: S.PutRequest, env: S.Env) returns (status: Status)
      requires Supported(request.kind) && |sender.file| < U32
      modifies this`out, this`sender
      ensures (Sending(), status) == S.Transmit(old(Sending()), request, env)
    {
      status := Transmit(S.MetadataMessage(Sending(), request), env.accept(|out|));
      if status != OK {
        return;
      }
      var checksum;
      status, checksum := SendWhole(request.kind, env);
      if status != OK {
        return;
      }
      sender := sender.(eofChecksum := checksum);
      status := Transmit(S.EofMessage(Sending()), env.accept(|out|));
    }

    method SendFile(request: S.PutRequest, env: S.Env) returns (status: Status)
      modifies this`sender, this`nextSeqno, this`out, this`senderEvents
      ensures (Sending(), status) == S.SendFile(old(Sending()), request, env)
    {
      if !S.RequestValid(cfg, request) {
        return InvalidArgument;
      }
      if !Supported(request.kind) {
        return UnsupportedChecksum;
      }
      if sender.active {
        return TransactionBusy;
      }
      var id := TxnId(ids.local, nextSeqno);
      nextSeqno := (nextSeqno + 1) % S.SeqnoModulus(ids.seqLen);
      sender := S.IDLE.(active := true, id := id, peer := ids.remote, acknowledged := request.acknowledged);
      senderEvents := senderEvents + [Activated(id)];
      if env.open.Err? || |env.open.value| >= U32 {
        ReleaseSender(FilestoreRejection);
        return FilestoreRejection;
      }
      sender := sender.(handleOpen := true, file := env.open.value);
      status := SendBody(request, env);
      if status == OK && request.acknowledged {
        sender := sender.(retries := 0, deadline := ArmRetry(cfg, S.Now(env)));
        return;
      }
      if status == OK && request.closure && env.clock.Some? {
        status := InactivityDetected;
      }
      ReleaseSender(status);
    }

    /** The loop over the ranges a NAK asks for. */
    method RetransmitRanges(ranges: seq<Range>, env: S.Env) returns (status: Status)
      modifies this`out
      ensures (Sending(), status) == S.Retransmit(old(Sending()), ranges, env)
    {
      var i := 0;
      assert ranges[0..] == ranges;
      while i < |ranges|
        invariant i <= |ranges|
        invariant S.Retransmit(old(Sending()), ranges, env) == S.Retransmit(Sending(), ranges[i..], env)
      {
        var r := ranges[i];
        assert ranges[i..][1..] == ranges[i + 1..];
        if r.end > |sender.file| {
          return FileSizeError;
        }
        if 0 <= r.start <= r.end {
          status := SendRange(r.start, r.end, env);
          if status != OK {
            return;
          }
        }
        i := i + 1;
      }
      return OK;
    }

    method HandleNak(h: Header, body: Body, env: S.Env) returns (status: Status)
      requires body.Nak?
      modifies this`sender, this`out, this`senderEvents
      ensures (Sending(), status) == S.HandleNak(old(Sending()), h, body, env)
    {
      if h.unacknowledged {
        return Unsupported;
      }
      if !S.Matches(Sending(), h) {
        return InvalidArgument;
      }
      if !sender.handleOpen {
        status := FilestoreRejection;
      } else if !sender.acknowledged {
        status := InvalidTransmissionMode;
      } else {
        sender := sender.(nakRounds := sender.nakRounds + 1);
        if sender.nakRounds > cfg.maxRounds {
          status := NakLimitReached;
        } else if body.scopeStart != 0 || body.scopeEnd != |sender.file| {
          status := FileSizeError;
        } else {
          status := RetransmitRanges(body.ranges, env);
          if status == OK {
            status := Transmit(S.EofMessage(Sending()), env.accept(|out|));
          }
        }
      }
      if status != OK {
        ReleaseSender(status);
      }
    }

    method HandleFinished(h: Header, body: Body, env: S.Env) returns (status: Status)
      requires body.Finished?
      modifies this`sender, this`out, this`senderEvents
      ensures (Sending(), status) == S.HandleFinished(old(Sending()), h, body, env)
    {
      if !S.Matches(Sending(), h) {
        return InvalidArgument;
      }
      status := S.FinishedStatus(body.condition, body.incomplete);
      sender := sender.(finishedReceived := true);
      if sender.acknowledged {
        var sent := Transmit(S.AckFinishedMessage(Sending(), body.condition), env.accept(|out|));
        if sent != OK {
          status := sent;
        }
        ReleaseSender(status);
      }
    }

    /** An acknowledged EOF is only checked: the sender goes on waiting for Finished. */
    method CheckAck(h: Header, body: Body) returns (status: Status)
      requires body.Ack?
      ensures status == S.HandleAck(Sending(), h, body)
    {
      if body.directive != 4 || body.subtype != 0 || h.unacknowledged {
        return Unsupported;
      }
      if !(sender.active && sender.id == IdOf(h)) {
        return InvalidArgument;
      }
      return OK;
    }

    /** receive_pdu for a PDU directed toward the sender. */
    method ReceiveReply(incoming: Incoming, env: S.Env) returns (status: Status)
      modifies this`sender, this`out, this`senderEvents
      ensures (Sending(), status) == S.Receive(old(Sending()), incoming, env)
    {
      if incoming.BadHeader? {
        return incoming.status;
      }
      var h := incoming.header;
      if incoming.NoDirective? || !S.Supports(Sending(), h) {
        return Unsupported;
      }
      if incoming.Undecodable? {
        status := incoming.status;
      } else {
        match incoming.body {
          case Finished(_, _, _) => status := HandleFinished(h, incoming.body, env);
          case Ack(_, _, _, _) => status := CheckAck(h, incoming.body);
          case Nak(_, _, _) => status := HandleNak(h, incoming.body, env);
          case _ => status := Unsupported;
        }
      }
      if status != OK && S.Matches(Sending(), h) {
        ReleaseSender(status);
      }
    }

    // ---- Receiving side ----

    method ReleaseReceiver(status: Status)
      requires Valid()
      modifies this`receiver, this`receiverEvents, received`count
      ensures Valid() && Receiving() == R.Release(old(Receiving()), status)
    {
      receiverEvents := receiverEvents + [Terminal(receiver.id, status)];
      receiver := R.IDLE;
      received.Clear();
    }

    method VerifyFile(expected: nat, env: R.Env) returns (status: Status)
      requires Valid()
      ensures status == R.Verify(Receiving(), expected, env)
    {
      if |receiver.tmp| < receiver.fileSize {
        return FileSizeError;
      }
      var sum := ComputeChecksum(cfg.lib, receiver.kind, receiver.tmp[..receiver.fileSize], cfg.maxSegment,
                                 R.RejectReads(env.read), FileSizeError);
      if sum.Err? {
        return sum.status;
      }
      return if sum.value != expected then ChecksumFailure else OK;
    }

    method CloseAndCommit(verified: Status, env: R.Env) returns (status: Status)
      requires Valid()
      modifies this`receiver, this`receiverEvents, this`commitCalls
      ensures Valid() && (Receiving(), status) == R.CloseAndCommit(old(Receiving()), verified, env)
    {
      ghost var before := Receiving();
      status := verified;
      if receiver.handleOpen && !env.closeOk && status == OK {
        status := FilestoreRejection;
      }
      receiver := receiver.(handleOpen := false);
      ghost var closed := Receiving();
      assert closed == before.(slot := before.slot.(handleOpen := false));
      if status != OK {
        return;
      }
      commitCalls := commitCalls + [R.Call(receiver.id, receiver.destPath, receiver.tmp)];
      if !env.commitOk {
        return FilestoreRejection;
      }
      receiverEvents := receiverEvents + [Committed(receiver.id, receiver.destPath, receiver.tmp)];
      assert Receiving() == closed.(trace := receiverEvents, calls := commitCalls);
    }

    method Report(status: Status, env: R.Env) returns (sent: Status)
      requires Valid()
      modifies this`receiver, this`out
      ensures Valid() && (Receiving(), sent) == R.Report(old(Receiving()), status, env)
    {
      sent := OK;
      if receiver.closure {
        var m := R.FinishedMessage(Receiving(), status);
        receiver := receiver.(finishedStatus := status);
        sent := Transmit(m, env.acceptFinished);
      }
    }

    method Conclude(status: Status, sent: Status, env: R.Env) returns (final: Status)
      requires Valid()
      modifies this`receiver, this`receiverEvents, received`count
      ensures Valid() && (Receiving(), final) == R.Conclude(old(Receiving()), status, sent, env)
    {
      final := if status == OK then sent else status;
      if !receiver.acknowledged {
        ReleaseReceiver(final);
      } else if sent == OK {
        receiver := receiver.(recoveryPending := false, waiting := true, retries := 0, deadline := ArmRetry(cfg, env.now));
        return status;
      } else {
        ReleaseReceiver(sent);
      }
    }

    /** receiver_finish. */
    method Finish(verified: Status, env: R.Env) returns (status: Status)
      requires Valid()
      modifies this`receiver, this`receiverEvents, this`commitCalls, this`out, received`count
      ensures Valid() && (Receiving(), status) == R.EndTransaction(old(Receiving()), verified, env)
    {
      var committed := CloseAndCommit(verified, env);
      var sent := Report(committed, env);
      status := Conclude(committed, sent, env);
    }

    method SendNak(env: R.Env) returns (status: Status)
      requires Valid()
      modifies this`out
      ensures (Receiving(), status) == R.SendNak(old(Receiving()), env)
    {
      if receiver.fileSize == 0 {
        return InvalidArgument;
      }
      var missing := new RangeList(cfg.lim.maxNakRanges);
      status := received.Missing(0, receiver.fileSize, missing);
      if status == BufferTooSmall {
        return NakLimitReached;
      }
      status := Transmit(R.NakMessage(Receiving(), missing.Contents()), env.acceptNak);
    }

    method HandleMetadata(h: Header, body: Body, env: R.Env) returns (status: Status)
      requires Valid() && body.Metadata? && body.fileSize < U32
      modifies this`receiver, this`receiverEvents, received`count
      ensures Valid() && (Receiving(), status) == R.HandleMetadata(old(Receiving()), h, body, env)
    {
      if receiver.active {
        return if receiver.id == IdOf(h) then InvalidArgument else TransactionBusy;
      }
      if !Supported(body.kind) {
        return UnsupportedChecksum;
      }
      receiver := R.OpenSlot(h, body);
      received.Clear();
      receiverEvents := receiverEvents + [Activated(IdOf(h))];
      if !env.openOk {
        ReleaseReceiver(FilestoreRejection);
        return FilestoreRejection;
      }
      return OK;
    }

    /** The completeness test, as the range list decides it. */
    method IsWhole() returns (status: Status, whole: bool)
      requires Valid()
      ensures status == if receiver.fileSize == 0 then InvalidArgument else OK
      ensures status == OK ==> (whole <==> R.HasRange(received.Contents(), 0, receiver.fileSize))
    {
      status, whole := received.IsComplete(0, receiver.fileSize);
      if receiver.fileSize > 0 {
        RR.CompleteMeansCovered(received.Contents(), receiver.fileSize);
      }
    }

    method CompleteIfWhole(env: R.Env) returns (status: Status)
      requires Valid()
      modifies this`receiver, this`receiverEvents, this`commitCalls, this`out, received`count
      ensures Valid() && (Receiving(), status) == R.CompleteIfWhole(old(Receiving()), env)
    {
      if !(receiver.eofReceived && receiver.acknowledged) {
        return OK;
      }
      var whole;
      status, whole := IsWhole();
      if status == OK && whole {
        status := VerifyFile(receiver.eofChecksum, env);
        status := Finish(status, env);
      } else if status != OK {
        status := Finish(status, env);
      }
    }

    method HandleFileData(h: Header, body: Body, env: R.Env) returns (status: Status)
      requires Valid() && body.FileData?
      modifies this`receiver, this`receiverEvents, this`commitCalls, this`out, received`count, received.ranges
      ensures Valid() && (Receiving(), status) == R.HandleFileData(old(Receiving()), h, body, env)
    {
      status := R.MatchStatus(Receiving(), h);
      if status != OK {
        return;
      }
      var end := body.offset + |body.data|;
      if end >= U32 || end > receiver.fileSize {
        return FileSizeError;
      }
      if !receiver.handleOpen || !env.writeOk {
        return FilestoreRejection;
      }
      receiver := receiver.(tmp := R.WriteAt(receiver.tmp, body.offset, body.data));
      status := received.Add(body.offset, end);
      if status == OK {
        status := CompleteIfWhole(env);
      }
    }

    method CompleteOrRecover(env: R.Env) returns (status: Status)
      requires Valid()
      modifies this`receiver, this`receiverEvents, this`commitCalls, this`out, received`count
      ensures Valid() && (Receiving(), status) == R.CompleteOrRecover(old(Receiving()), env)
    {
      var whole;
      status, whole := IsWhole();
      if status != OK {
        status := Finish(status, env);
      } else if whole {
        status := VerifyFile(receiver.eofChecksum, env);
        status := Finish(status, env);
      } else if !receiver.acknowledged {
        status := Finish(FileSizeError, env);
      } else {
        receiver := receiver.(eofReceived := true);
        status := SendNak(env);
        if status != OK {
          status := Finish(status, env);
        } else {
          receiver := receiver.(recoveryPending := true, retries := 0, deadline := ArmRetry(cfg, env.now));
        }
      }
    }

    method HandleEof(h: Header, body: Body, env: R.Env) returns (status: Status)
      requires Valid() && body.Eof?
      modifies this`receiver, this`receiverEvents, this`commitCalls, this`out, received`count
      ensures Valid() && (Receiving(), status) == R.HandleEof(old(Receiving()), h, body, env)
    {
      status := R.MatchStatus(Receiving(), h);
      if status != OK {
        return;
      }
      if receiver.waiting {
        status := Transmit(R.FinishedMessage(Receiving(), receiver.finishedStatus), env.acceptFinished);
        return;
      }
      receiver := receiver.(eofChecksum := body.checksum);
      if receiver.acknowledged {
        status := Transmit(R.AckEofMessage(Receiving(), body.condition), env.acceptAck);
      }
      if body.condition != NO_ERROR || body.size != receiver.fileSize {
        status := Finish(FileSizeError, env);
      } else if status == OK {
        status := CompleteOrRecover(env);
      }
    }

    method HandleAck(h: Header, body: Body) returns (status: Status)
      requires Valid() && body.Ack?
      modifies this`receiver, this`receiverEvents, received`count
      ensures Valid() && (Receiving(), status) == R.HandleAck(old(Receiving()), h, body)
    {
      if body.directive != 5 || body.subtype != 1 || h.unacknowledged {
        return Unsupported;
      }
      if !R.Matches(Receiving(), h) {
        return InvalidArgument;
      }
      ReleaseReceiver(receiver.finishedStatus);
      return OK;
    }

    method HandleBody(h: Header, body: Body, env: R.Env) returns (status: Status)
      requires Valid() && (body.Metadata? ==> body.fileSize < U32)
      modifies this`receiver, this`receiverEvents, this`commitCalls, this`out, received`count, received.ranges
      ensures Valid() && (Receiving(), status) == R.Handle(old(Receiving()), h, body, env)
    {
      match body {
        case Metadata(_, _, _, _, _) => status := HandleMetadata(h, body, env);
        case FileData(_, _) => status := HandleFileData(h, body, env);
        case Eof(_, _, _) => status := HandleEof(h, body, env);
        case Ack(_, _, _, _) => status := HandleAck(h, body);
        case _ => status := Unsupported;
      }
    }

    /** receive_pdu for a PDU directed toward the receiver. */
    method ReceiveData(incoming: Incoming, env: R.Env) returns (status: Status)
      requires Valid() && (incoming.Decodable? && incoming.body.Metadata? ==> incoming.body.fileSize < U32)
      modifies this`receiver, this`receiverEvents, this`commitCalls, this`out, received`count, received.ranges
      ensures Valid() && (Receiving(), status) == R.Receive(old(Receiving()), incoming, env)
    {
      if incoming.BadHeader? {
        return incoming.status;
      }
      var h := incoming.header;
      if !R.Supports(Receiving(), h) {
        return Unsupported;
      }
      match incoming {
        case NoDirective(_) => return MalformedPdu;
        case Undecodable(_, undecodable) => status := undecodable;
        case Decodable(_, body) => status := HandleBody(h, body, env);
      }
      if status != OK && R.Matches(Receiving(), h) {
        ReleaseReceiver(status);
      }
    }

    // ---- The entity's entry points ----

    /** receive_pdu: a PDU touches the side it is directed to, and nothing of the other side but the outbox. */
    method ReceivePdu(buf: seq<byte>, senv: S.Env, renv: R.Env) returns (status: Status)
      requires Valid()
      modifies this, received`count, received.ranges
      ensures Valid()
      ensures var incoming := Parse(cfg.lim, buf);
              if incoming.BadHeader? || incoming.header.towardSender
              then (Sending(), status) == S.Receive(old(Sending()), incoming, senv)
                   && Receiving() == old(Receiving()).(out := out)
              else (Receiving(), status) == R.Receive(old(Receiving()), incoming, renv)
                   && Sending() == old(Sending()).(out := out)
      ensures RR.Inv(old(Receiving())) ==>
                RR.Inv(Receiving()) && RR.StepCalls(old(Receiving()), RR.Arrive(Parse(cfg.lim, buf), renv), Receiving())
    {
      ghost var before := Receiving();
      var incoming := Parse(cfg.lim, buf);
      ParsedSize(cfg.lim, buf);
      if incoming.BadHeader? || incoming.header.towardSender {
        status := ReceiveReply(incoming, senv);
      } else {
        status := ReceiveData(incoming, renv);
        if RR.Inv(before) {
          RR.StepHasOutcome(before, RR.Arrive(incoming, renv));
        }
      }
    }

    method PollRecovery(now: nat, env: R.Env)
      requires Valid()
      modifies this`receiver, this`receiverEvents, this`out, received`count
      ensures Valid() && Receiving() == R.PollRecovery(old(Receiving()), now, env)
    {
      if receiver.active && receiver.acknowledged && receiver.recoveryPending && RetryDue(receiver.deadline, now) {
        if receiver.retries >= cfg.maxRounds {
          ReleaseReceiver(InactivityDetected);
        } else {
          var status := SendNak(env);
          if status == OK {
            receiver := receiver.(retries := receiver.retries + 1, deadline := ArmRetry(cfg, now));
          } else {
            ReleaseReceiver(status);
          }
        }
      }
    }

    method PollFinished(now: nat, env: R.Env)
      requires Valid()
      modifies this`receiver, this`receiverEvents, this`out, received`count
      ensures Valid() && Receiving() == R.PollFinished(old(Receiving()), now, env)
    {
      if receiver.active && receiver.acknowledged && receiver.waiting && RetryDue(receiver.deadline, now) {
        if receiver.retries >= cfg.maxRounds {
          ReleaseReceiver(InactivityDetected);
        } else {
          var status := Transmit(R.FinishedMessage(Receiving(), receiver.finishedStatus), env.acceptFinished);
          if status == OK {
            receiver := receiver.(retries := receiver.retries + 1, deadline := ArmRetry(cfg, now));
          } else {
            ReleaseReceiver(status);
          }
        }
      }
    }

    method PollSender(now: nat, env: S.Env)
      modifies this`sender, this`senderEvents, this`out
      ensures Sending() == S.Poll(old(Sending()), now, env)
    {
      if S.PollDue(Sending(), now) {
        if sender.retries >= cfg.maxRounds {
          ReleaseSender(InactivityDetected);
        } else {
          var status := Transmit(S.EofMessage(Sending()), env.accept(|out|));
          if status == OK {
            sender := sender.(retries := sender.retries + 1, deadline := ArmRetry(cfg, now));
          } else {
            ReleaseSender(status);
          }
        }
      }
    }

    /** poll: the receiver's timers first, then the sender's, which sees the outbox the receiver left. */
    method Poll(now: nat, senv: S.Env, renv: R.Env)
      requires Valid()
      modifies this, received`count
      ensures Valid()
      ensures var polled := R.Poll(old(Receiving()), now, renv);
              && Receiving() == polled.(out := out)
              && Sending() == S.Poll(old(Sending()).(out := polled.out), now, senv)
      ensures RR.Inv(old(Receiving())) ==> RR.Inv(Receiving()) && commitCalls == old(commitCalls)
    {
      if RR.Inv(Receiving()) {
        RR.TickOutcome(Receiving(), now, renv);
      }
      PollRecovery(now, renv);
      PollFinished(now, renv);
      PollSender(now, senv);
    }
  }
}
