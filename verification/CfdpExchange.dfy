/**
  Runs of the system in which chosen messages are delivered in order, and what each side makes of
  them: send_file and what it emits, a receiver that fills up and commits, and the replies.
 */
module CfdpExchange {
  import opened CfdpTypes
  import opened CfdpRanges
  import opened CfdpChecksum
  import opened CfdpPdu
  import opened CfdpCore
  import opened CfdpSystem
  import opened CfdpRecovery
  import S = CfdpSender
  import SR = CfdpSenderRuns
  import R = CfdpReceiver
  import RR = CfdpReceiverRuns
  import D = CfdpDelivery

  // ---- The run ----

  /** An action, or nothing if it is not possible. */
  function Try(sys: System, action: Action): System {
    if Enabled(sys, action) then Next(sys, action) else sys
  }

  /** Message k of the sender reaches the receiver, if there is one. */
  function HandOver(sys: System, k: nat, env: R.Env): System {
    if k < |sys.a.out| && sys.a.cfg.encoder(sys.a.out[k]).Ok?
    then sys.(b := R.Receive(sys.b, Parse(sys.b.cfg.lim, sys.a.cfg.encoder(sys.a.out[k]).value), env).0) else sys
  }

  /** Message k of the receiver reaches the sender, if there is one. */
  function HandBack(sys: System, k: nat, env: S.Env): System {
    if k < |sys.b.out| && sys.b.cfg.encoder(sys.b.out[k]).Ok?
    then sys.(a := S.Receive(sys.a, Parse(sys.a.cfg.lim, sys.b.cfg.encoder(sys.b.out[k]).value), env).0) else sys
  }

  lemma HandOverReached(sys: System, k: nat, env: R.Env)
    requires Reached(sys)
    ensures Reached(HandOver(sys, k, env))
  {
    assert HandOver(sys, k, env) == Try(sys, ToReceiver(k, env));
    TryReached(sys, ToReceiver(k, env));
  }

  lemma HandBackReached(sys: System, k: nat, env: S.Env)
    requires Reached(sys)
    ensures Reached(HandBack(sys, k, env))
  {
    assert HandBack(sys, k, env) == Try(sys, ToSender(k, env));
    TryReached(sys, ToSender(k, env));
  }

  /** send_file, as long as transaction numbers last. */
  function PutFile(sys: System, request: S.PutRequest, env: S.Env): System {
    if Starts(sys.a, request) && |sys.sources| >= Modulus(sys) then sys
    else sys.(a := S.SendFile(sys.a, request, env).0,
              sources := if Starts(sys.a, request) then sys.sources + [SourceOf(request, env)] else sys.sources)
  }

  lemma PutReached(sys: System, request: S.PutRequest, env: S.Env)
    requires Reached(sys)
    ensures Reached(PutFile(sys, request, env))
  {
    assert PutFile(sys, request, env) == Try(sys, Put(request, env));
    TryReached(sys, Put(request, env));
  }

  function PollA(sys: System, now: nat, env: S.Env): System { sys.(a := S.Poll(sys.a, now, env)) }

  function PollB(sys: System, now: nat, env: R.Env): System { sys.(b := R.Poll(sys.b, now, env)) }

  lemma PollAReached(sys: System, now: nat, env: S.Env)
    requires Reached(sys)
    ensures Reached(PollA(sys, now, env))
  {
    assert PollA(sys, now, env) == Try(sys, TickSender(now, env));
    TryReached(sys, TickSender(now, env));
  }

  lemma PollBReached(sys: System, now: nat, env: R.Env)
    requires Reached(sys)
    ensures Reached(PollB(sys, now, env))
  {
    assert PollB(sys, now, env) == Try(sys, TickReceiver(now, env));
    TryReached(sys, TickReceiver(now, env));
  }

  /** Delivering messages k to n - 1 of the sender's outbox, in order; `env(i)` answers for message i. */
  function ToB(sys: System, k: nat, n: nat, env: nat -> R.Env): System
    decreases n - k
  {
    if k >= n then sys else ToB(HandOver(sys, k, env(k)), k + 1, n, env)
  }

  function ToA(sys: System, k: nat, n: nat, env: nat -> S.Env): System
    decreases n - k
  {
    if k >= n then sys else ToA(HandBack(sys, k, env(k)), k + 1, n, env)
  }

  ghost predicate Reached(sys: System) {
    exists states, actions :: IsRun(states, actions) && states[|actions|] == sys
  }

  lemma TryReached(sys: System, action: Action)
    requires Reached(sys)
    ensures Reached(Try(sys, action))
  {
    if Enabled(sys, action) {
      var states, actions :| IsRun(states, actions) && states[|actions|] == sys;
      RunExtends(states, actions, sys, action, Next(sys, action));
    }
  }

  lemma RunExtends(states: seq<System>, actions: seq<Action>, sys: System, action: Action, q: System)
    requires IsRun(states, actions) && states[|actions|] == sys && Enabled(sys, action) && q == Next(sys, action)
    ensures Reached(q)
  {
    var states', actions' := states + [q], actions + [action];
    forall i | 0 <= i < |actions'| ensures Enabled(states'[i], actions'[i]) && states'[i + 1] == Next(states'[i], actions'[i]) {
      if i < |actions| {
        assert states'[i] == states[i] && states'[i + 1] == states[i + 1] && actions'[i] == actions[i];
      }
    }
    assert IsRun(states', actions') && states'[|actions'|] == q;
  }

  lemma {:induction false} ToBReached(sys: System, k: nat, n: nat, env: nat -> R.Env)
    requires Reached(sys)
    ensures Reached(ToB(sys, k, n, env))
    decreases n - k
  {
    if k < n {
      HandOverReached(sys, k, env(k));
      ToBReached(HandOver(sys, k, env(k)), k + 1, n, env);
    }
  }

  lemma {:induction false} ToAReached(sys: System, k: nat, n: nat, env: nat -> S.Env)
    requires Reached(sys)
    ensures Reached(ToA(sys, k, n, env))
    decreases n - k
  {
    if k < n {
      HandBackReached(sys, k, env(k));
      ToAReached(HandBack(sys, k, env(k)), k + 1, n, env);
    }
  }

  // ---- What deliveries need of a state ----

  /** What was sent can be encoded, and the receiver is in order. */
  ghost predicate Tidy(sys: System) {
    && sys.a.cfg.lim == sys.b.cfg.lim && RR.Inv(sys.b)
    && forall k :: 0 <= k < |sys.a.out| ==> sys.a.cfg.encoder(sys.a.out[k]).Ok?
  }

  lemma InvIsTidy(sys: System)
    requires SysInv(sys)
    ensures Tidy(sys)
  {
    forall k | 0 <= k < |sys.a.out| ensures sys.a.cfg.encoder(sys.a.out[k]).Ok? {
      assert Honest(sys, sys.a.out[k]);
    }
  }

  lemma {:induction false} ToBKeepsTidy(sys: System, k: nat, n: nat, env: nat -> R.Env)
    requires Tidy(sys)
    ensures Tidy(ToB(sys, k, n, env))
    decreases n - k
  {
    if k < n {
      HandOverKeepsTidy(sys, k, env(k));
      ToBKeepsTidy(HandOver(sys, k, env(k)), k + 1, n, env);
    }
  }

  lemma HandOverKeepsTidy(sys: System, k: nat, env: R.Env)
    requires Tidy(sys)
    ensures Tidy(HandOver(sys, k, env))
  {
    if k < |sys.a.out| {
      ReceiveKeepsInv(sys.b, Parse(sys.b.cfg.lim, sys.a.cfg.encoder(sys.a.out[k]).value), env);
    }
  }

  lemma PutFileKeepsInv(sys: System, request: S.PutRequest, env: S.Env)
    requires SysInv(sys)
    ensures SysInv(PutFile(sys, request, env))
  {
    if Enabled(sys, Put(request, env)) {
      D.PutKeepsInv(sys, request, env);
    }
  }

  // ---- Deliveries, seen by one side ----

  function Sending(env: nat -> S.Env): (S.Sender, Incoming, nat) -> S.Sender {
    (s: S.Sender, pdu: Incoming, k: nat) => S.Receive(s, pdu, env(k)).0
  }

  lemma {:induction false} ToBTakes(sys: System, k: nat, n: nat, env: nat -> R.Env, ms: seq<Message>)
    requires k <= n <= |sys.a.out| && ms == sys.a.out[k..n] && sys.b.cfg.lim == sys.a.cfg.lim && RR.Inv(sys.b)
    requires forall i :: 0 <= i < |ms| ==> sys.a.cfg.encoder(ms[i]).Ok?
    ensures ToB(sys, k, n, env) == sys.(b := Take(Receiving(env), sys.b, OnTheWire(sys.a.cfg, sys.a.cfg.lim, ms), k))
    decreases n - k
  {
    if k < n {
      var q := HandOver(sys, k, env(k));
      assert ms[0] == sys.a.out[k] && ms[1..] == sys.a.out[k + 1..n];
      WireTail(sys.a.cfg, sys.a.cfg.lim, ms);
      ReceiveKeepsInv(sys.b, Parse(sys.a.cfg.lim, sys.a.cfg.encoder(ms[0]).value), env(k));
      ToBTakes(q, k + 1, n, env, ms[1..]);
    }
  }

  lemma {:induction false} ToAGives(sys: System, k: nat, n: nat, env: nat -> S.Env, ms: seq<Message>)
    requires k <= n <= |sys.b.out| && ms == sys.b.out[k..n] && sys.b.cfg.lim == sys.a.cfg.lim
    requires forall i :: 0 <= i < |ms| ==> sys.b.cfg.encoder(ms[i]).Ok?
    ensures ToA(sys, k, n, env) == sys.(a := Take(Sending(env), sys.a, OnTheWire(sys.b.cfg, sys.b.cfg.lim, ms), k))
    decreases n - k
  {
    if k < n {
      var q := HandBack(sys, k, env(k));
      assert ms[0] == sys.b.out[k] && ms[1..] == sys.b.out[k + 1..n];
      WireTail(sys.b.cfg, sys.b.cfg.lim, ms);
      SenderKeepsConfig(sys.a, Parse(sys.a.cfg.lim, sys.b.cfg.encoder(ms[0]).value), env(k));
      ToAGives(q, k + 1, n, env, ms[1..]);
    }
  }

  lemma WireTail(peer: Config, lim: Limits, ms: seq<Message>)
    requires ms != [] && forall i :: 0 <= i < |ms| ==> peer.encoder(ms[i]).Ok?
    ensures OnTheWire(peer, lim, ms)[1..] == OnTheWire(peer, lim, ms[1..])
  {
  }

  lemma ReceiveKeepsInv(r: R.Receiver, incoming: Incoming, env: R.Env)
    requires RR.Inv(r)
    ensures R.Receive(r, incoming, env).0.cfg == r.cfg && RR.Inv(R.Receive(r, incoming, env).0)
  {
    RR.StepHasOutcome(r, RR.Arrive(incoming, env));
  }

  lemma SenderKeepsConfig(s: S.Sender, incoming: Incoming, env: S.Env)
    ensures S.Receive(s, incoming, env).0.cfg == s.cfg
  {
    if incoming.Decodable? && incoming.body.Nak? {
      SR.RetransmitEmitted(s.(slot := s.slot.(nakRounds := s.slot.nakRounds + 1)), incoming.body.ranges, env);
    }
  }

  // ---- What send_file emits ----

  /** The Metadata PDU fits the buffer. */
  predicate MetadataFits(cfg: Config, ids: Ids, request: S.PutRequest) {
    && |request.sourcePath| < 256 && |request.destPath| < 256
    && 4 + 2 * ids.idLen + ids.seqLen + 8 + |request.sourcePath| + |request.destPath| <= cfg.maxPdu
  }

  lemma MetadataEncodes(s: S.Sender, request: S.PutRequest)
    requires CanSend(s) && S.RequestValid(s.cfg, request) && Supported(request.kind) && MetadataFits(s.cfg, s.ids, request)
    ensures s.cfg.encoder(S.MetadataMessage(s, request)).Ok?
  {
    var m := S.MetadataMessage(s, request);
    assert EncodeStatus(s.cfg.lim, m) == OK && InTypeRange(m.body);
    assert |DataField(s.cfg.lim, m)| == 8 + |request.sourcePath| + |request.destPath|;
  }

  /** Everything the theorem asks of the sending entity. */
  ghost predicate Sends(s: S.Sender, request: S.PutRequest, env: S.Env, file: seq<byte>) {
    && WireConfig(s.cfg) && Roomy(s.cfg, s.ids) && IdsFit(s.cfg.lim, s.ids, s.nextSeqno) && !s.slot.active
    && S.RequestValid(s.cfg, request) && Supported(request.kind) && MetadataFits(s.cfg, s.ids, request)
    && env.open == Ok(file) && |file| < U32 && Accepts(env)
  }

  /** The slot once the file is open, before the checksum is known. */
  function Started(s: S.Sender, request: S.PutRequest, file: seq<byte>): S.Sender {
    var a := S.Activate(s, request);
    a.(slot := a.slot.(handleOpen := true, file := file))
  }

  /** Metadata and the segments go out in order. */
  lemma SegmentsGoOut(b: S.Sender, request: S.PutRequest, env: S.Env) returns (segs: seq<Message>)
    requires CanSend(b) && Accepts(env)
    requires S.RequestValid(b.cfg, request) && Supported(request.kind) && MetadataFits(b.cfg, b.ids, request)
    ensures var md := S.MetadataMessage(b, request);
            && S.Send(b, md, env) == (b.(out := b.out + [md]), OK)
            && S.SendSegments(b.(out := b.out + [md]), 0, |b.slot.file|, env) == (b.(out := b.out + [md] + segs), OK)
    ensures SR.Segments(b, segs) && SR.Tiles(segs, 0, |b.slot.file|)
  {
    MetadataEncodes(b, request);
    SegmentsEncodeWhen(b);
    var a := b.(out := b.out + [S.MetadataMessage(b, request)]);
    SegmentsEncodeSame(b, a);
    SegmentsSucceed(a, 0, |b.slot.file|, env);
    SR.SegmentsEmitted(a, 0, |b.slot.file|, env);
    var c := S.SendSegments(a, 0, |b.slot.file|, env).0;
    segs := SR.Added(a, c);
    assert c.out == a.out + segs;
    forall i | 0 <= i < |segs| ensures SR.Segment(b, segs[i]) {
      assert SR.Segment(a, segs[i]);
    }
  }

  /** The slot once the EOF is out. */
  function Transmitted(s: S.Sender, request: S.PutRequest, file: seq<byte>, segs: seq<Message>): S.Sender {
    var b := Started(s, request, file);
    var c := b.(slot := b.slot.(eofChecksum := WholeFile(s.cfg.lib, request.kind, file)));
    c.(out := s.out + [S.MetadataMessage(b, request)] + segs + [S.EofMessage(c)])
  }

  /** Metadata, segments that tile the file, and EOF with its checksum go out in order. */
  lemma TransmitSucceeds(s: S.Sender, request: S.PutRequest, env: S.Env, file: seq<byte>) returns (segs: seq<Message>)
    requires Sends(s, request, env, file)
    ensures S.Transmit(Started(s, request, file), request, env) == (Transmitted(s, request, file, segs), OK)
    ensures SR.Segments(Started(s, request, file), segs) && SR.Tiles(segs, 0, |file|)
  {
    var b := Started(s, request, file);
    segs := SegmentsGoOut(b, request, env);
    var d := b.(out := b.out + [S.MetadataMessage(b, request)] + segs,
                slot := b.slot.(eofChecksum := WholeFile(s.cfg.lib, request.kind, file)));
    SegmentsEncodeWhen(d);
    assert S.Transmit(b, request, env) == S.Send(d, S.EofMessage(d), env);
  }

  /** An acknowledged sender then waits; any other is done at once, unless it asked for closure and has a clock. */
  lemma PutSucceeds(s: S.Sender, request: S.PutRequest, env: S.Env, file: seq<byte>) returns (segs: seq<Message>)
    requires Sends(s, request, env, file)
    ensures var t := Transmitted(s, request, file, segs);
            var status := if request.closure && env.clock.Some? then InactivityDetected else OK;
            S.SendFile(s, request, env)
            == if request.acknowledged then (t.(slot := t.slot.(retries := 0, deadline := ArmRetry(s.cfg, S.Now(env)))), OK)
               else (S.Release(t, status), status)
    ensures SR.Segments(Started(s, request, file), segs) && SR.Tiles(segs, 0, |file|)
  {
    segs := TransmitSucceeds(s, request, env, file);
  }

  // ---- The receiver, PDU by PDU ----

  /** The ranges and the temporary file after the first p bytes. */
  function Held(r: R.Receiver, file: seq<byte>, p: nat): R.Receiver
    requires p <= |file|
  {
    r.(slot := r.slot.(tmp := file[..p]), ranges := if p == 0 then [] else [Range(0, p)])
  }

  function Opened(r: R.Receiver, h: Header, body: Body): R.Receiver
    requires body.Metadata?
  {
    r.(slot := R.OpenSlot(h, body), ranges := [], trace := r.trace + [Activated(IdOf(h))])
  }

  lemma MetadataOpens(r: R.Receiver, h: Header, body: Body, env: R.Env, file: seq<byte>)
    requires r.slot == R.IDLE && R.Supports(r, h) && body.Metadata? && Supported(body.kind) && env.openOk
    ensures R.Receive(r, Decodable(h, body), env) == (Held(Opened(r, h, body), file, 0), OK)
  {
    assert file[..0] == [];
  }

  /** A slot that is filling up: open, no EOF yet. */
  predicate Filling(r: R.Receiver, file: seq<byte>) {
    && r.slot.active && r.slot.handleOpen && !r.slot.eofReceived && !r.slot.waiting
    && r.slot.fileSize == |file| < U32 && r.cfg.lim.maxNakRanges >= 1
  }

  lemma FrontGrows(p: nat, end: nat)
    requires p < end
    ensures Insert(if p == 0 then [] else [Range(0, p)], Range(p, end)) == [Range(0, end)]
  {
    if p > 0 {
      assert Merge(Range(0, p), Range(p, end)) == Range(0, end);
      assert InsertFrom([Range(0, p)], 1, Range(0, end)) == [Range(0, end)];
    }
  }

  lemma SegmentHeld(r: R.Receiver, file: seq<byte>, h: Header, p: nat, end: nat, env: R.Env)
    requires Filling(r, file) && p < end <= |file| && R.Supports(r, h) && IdOf(h) == r.slot.id && env.writeOk
    ensures R.Receive(Held(r, file, p), Decodable(h, FileData(p, file[p..end])), env) == (Held(r, file, end), OK)
  {
    var a := Held(r, file, p);
    assert R.WriteAt(file[..p], p, file[p..end]) == file[..end];
    FrontGrows(p, end);
    assert R.HandleFileData(a, h, FileData(p, file[p..end]), env) == (Held(r, file, end), OK);
  }

  /** PDUs that bring the rest of the file, in order. */
  predicate Brings(r: R.Receiver, file: seq<byte>, pdus: seq<Incoming>, p: nat)
    decreases |pdus|
  {
    if pdus == [] then p == |file|
    else
      && pdus[0].Decodable? && R.Supports(r, pdus[0].header) && IdOf(pdus[0].header) == r.slot.id && pdus[0].body.FileData?
      && var end := p + |pdus[0].body.data|;
         p < end <= |file| && pdus[0].body == FileData(p, file[p..end]) && Brings(r, file, pdus[1..], end)
  }

  /** Segments in order extend what is held. */
  ghost predicate Extends(step: (R.Receiver, Incoming, nat) -> R.Receiver, r: R.Receiver, file: seq<byte>) {
    forall h, p: nat, end: nat, k: nat :: p < end <= |file| && R.Supports(r, h) && IdOf(h) == r.slot.id ==>
      step(Held(r, file, p), Decodable(h, FileData(p, file[p..end])), k) == Held(r, file, end)
  }

  lemma ReceivingExtends(r: R.Receiver, file: seq<byte>, env: nat -> R.Env)
    requires Filling(r, file) && forall k :: Works(env(k))
    ensures Extends(Receiving(env), r, file)
  {
    forall h, p: nat, end: nat, k: nat | p < end <= |file| && R.Supports(r, h) && IdOf(h) == r.slot.id
      ensures Receiving(env)(Held(r, file, p), Decodable(h, FileData(p, file[p..end])), k) == Held(r, file, end)
    {
      assert Works(env(k));
      SegmentHeld(r, file, h, p, end, env(k));
    }
  }

  lemma {:induction false} TakeSegments(
    step: (R.Receiver, Incoming, nat) -> R.Receiver, r: R.Receiver, file: seq<byte>, pdus: seq<Incoming>, p: nat,
    rest: seq<Incoming>, k: nat)
    requires Extends(step, r, file) && p <= |file| && Brings(r, file, pdus, p)
    ensures Take(step, Held(r, file, p), pdus + rest, k) == Take(step, Held(r, file, |file|), rest, k + |pdus|)
    decreases |pdus|
  {
    if pdus == [] {
      assert pdus + rest == rest;
    } else {
      var h, end := pdus[0].header, p + |pdus[0].body.data|;
      assert pdus[0] == Decodable(h, FileData(p, file[p..end]));
      assert step(Held(r, file, p), pdus[0], k) == Held(r, file, end);
      assert (pdus + rest)[1..] == pdus[1..] + rest;
      TakeSegments(step, r, file, pdus[1..], end, rest, k + 1);
    }
  }

  /** The receiver after the EOF: committed, and waiting for its Finished to be acknowledged. */
  ghost predicate Reported(r: R.Receiver, q: R.Receiver, file: seq<byte>) {
    && q.slot.active && q.slot.waiting && q.slot.id == r.slot.id && q.slot.finishedStatus == OK && q.cfg == r.cfg && q.ids == r.ids
    && q.slot.acknowledged && !q.slot.recoveryPending && q.slot.retries == 0
    && q.trace == r.trace + [Committed(r.slot.id, r.slot.destPath, file)]
    && q.out == r.out + [R.AckEofMessage(r, NO_ERROR), R.FinishedMessage(r, OK)]
  }

  lemma RepliesEncode(r: R.Receiver)
    requires CanReply(r)
    ensures r.cfg.encoder(R.AckEofMessage(r, NO_ERROR)).Ok? && r.cfg.encoder(R.FinishedMessage(r, OK)).Ok?
  {
    Encodes(r.cfg, r.ids, R.AckEofMessage(r, NO_ERROR));
    Encodes(r.cfg, r.ids, R.FinishedMessage(r, OK));
  }

  lemma EofCommits(r: R.Receiver, file: seq<byte>, h: Header, env: R.Env)
    requires Filling(r, file) && file != [] && CanReply(r) && Works(env) && env.acceptAck && Supported(r.slot.kind)
    requires r.slot.acknowledged && r.slot.closure
    requires R.Supports(r, h) && IdOf(h) == r.slot.id
    ensures var eof := Eof(NO_ERROR, WholeFile(r.cfg.lib, r.slot.kind, file), |file|);
            Reported(r, R.Receive(Held(r, file, |file|), Decodable(h, eof), env).0, file)
  {
    var a := Held(r, file, |file|);
    var sum := WholeFile(r.cfg.lib, r.slot.kind, file);
    var b := a.(slot := a.slot.(eofChecksum := sum), out := a.out + [R.AckEofMessage(r, NO_ERROR)]);
    RepliesEncode(r);
    assert file[..|file|] == file;
    assert R.HasRange(b.ranges, 0, |file|) by { assert b.ranges[0] == Range(0, |file|); }
    VerifySucceeds(b, Source(file, r.slot.kind, [], true), env);
    CommitSucceeds(b, Source(file, r.slot.kind, [], true), env);
    assert R.CompleteOrRecover(b, env) == R.EndTransaction(b, OK, env);
    assert R.HandleEof(a, h, Eof(NO_ERROR, sum, |file|), env) == R.CompleteOrRecover(b, env);
  }

  /** The receiver of an unacknowledged transfer after the EOF: committed and free again. */
  ghost predicate SlotFreed(r: R.Receiver, q: R.Receiver, file: seq<byte>) {
    && q.slot == R.IDLE && q.cfg == r.cfg && q.ids == r.ids
    && q.trace == r.trace + [Committed(r.slot.id, r.slot.destPath, file)] + [Terminal(r.slot.id, OK)]
  }

  lemma CommitReleases(r: R.Receiver, env: R.Env)
    requires CanReply(r) && Works(env) && r.slot.active && !r.slot.acknowledged && r.slot.handleOpen
    ensures SlotFreed(r, R.EndTransaction(r, OK, env).0, r.slot.tmp) && R.EndTransaction(r, OK, env).1 == OK
  {
    RepliesEncode(r);
  }

  lemma EofDelivers(r: R.Receiver, file: seq<byte>, h: Header, env: R.Env)
    requires Filling(r, file) && file != [] && CanReply(r) && Works(env) && Supported(r.slot.kind) && !r.slot.acknowledged
    requires R.Supports(r, h) && IdOf(h) == r.slot.id
    ensures var eof := Eof(NO_ERROR, WholeFile(r.cfg.lib, r.slot.kind, file), |file|);
            SlotFreed(r, R.Receive(Held(r, file, |file|), Decodable(h, eof), env).0, file)
  {
    var a := Held(r, file, |file|);
    var sum := WholeFile(r.cfg.lib, r.slot.kind, file);
    var b := a.(slot := a.slot.(eofChecksum := sum));
    assert file[..|file|] == file;
    assert R.HasRange(b.ranges, 0, |file|) by { assert b.ranges[0] == Range(0, |file|); }
    VerifySucceeds(b, Source(file, r.slot.kind, [], true), env);
    CommitReleases(b, env);
    assert R.CompleteOrRecover(b, env) == R.EndTransaction(b, OK, env);
    assert R.HandleEof(a, h, Eof(NO_ERROR, sum, |file|), env) == R.CompleteOrRecover(b, env);
  }

  // ---- From one side to the other ----

  /** Two entities configured for each other. */
  ghost predicate Paired(s: S.Sender, r: R.Receiver) {
    && WireConfig(s.cfg) && WireConfig(r.cfg) && s.cfg.lim == r.cfg.lim && s.cfg.lib == r.cfg.lib
    && s.ids.local == r.ids.remote && s.ids.remote == r.ids.local && s.ids.idLen == r.ids.idLen && s.ids.seqLen == r.ids.seqLen
  }

  predicate Addressed(s: S.Sender) {
    s.slot.id.source == s.ids.local && s.slot.peer == s.ids.remote
  }

  predicate HasHeader(s: S.Sender, m: Message) { m.header == S.HeaderFor(s, m.body.FileData?) }

  /** What the sender emits reaches the receiver as it was, with the identifiers of the transaction. */
  lemma Arrives(s: S.Sender, r: R.Receiver, m: Message) returns (h: Header)
    requires Paired(s, r) && Addressed(s) && HasHeader(s, m) && s.cfg.encoder(m).Ok? && GoesToward(m)
    ensures R.Supports(r, h) && IdOf(h) == s.slot.id && h.unacknowledged == !s.slot.acknowledged && h.source == s.ids.local
    ensures Parse(r.cfg.lim, s.cfg.encoder(m).value)
         == Decodable(h, if m.body.Metadata? then m.body.(closure := m.body.closure && !s.slot.acknowledged) else m.body)
  {
    ParseEncoded(s.cfg, m);
    h := Canon(s.cfg.lim, m).header;
  }

  /** What the receiver replies reaches the sender as it was. */
  lemma ReplyArrives(r: R.Receiver, s: S.Sender, m: Message) returns (h: Header)
    requires Paired(s, r) && r.slot.id.source == r.ids.remote && r.slot.acknowledged && m.header == R.Reply(r)
    requires r.cfg.encoder(m).Ok? && GoesToward(m)
    ensures S.Supports(s, h) && IdOf(h) == r.slot.id && !h.unacknowledged
    ensures !m.body.Metadata? ==> Parse(s.cfg.lim, r.cfg.encoder(m).value) == Decodable(h, m.body)
  {
    ParseEncoded(r.cfg, m);
    h := Canon(r.cfg.lim, m).header;
  }

  /** Segments that tile the file and arrive as they are bring it in order. */
  lemma {:induction false} CarriedBring(r: R.Receiver, src: Source, ms: seq<Message>, pdus: seq<Incoming>, p: nat)
    requires |pdus| == |ms| && SR.Tiles(ms, p, |src.file|) && forall i :: 0 <= i < |ms| ==> Carries(r, src, pdus[i], ms[i])
    ensures Brings(r, src.file, pdus, p)
    decreases |ms|
  {
    if ms != [] {
      assert Carries(r, src, pdus[0], ms[0]);
      CarriesTail(r, r, src, pdus, ms);
      CarriedBring(r, src, ms[1..], pdus[1..], p + |ms[0].body.data|);
    }
  }

  lemma SegmentCarried(s: S.Sender, r: R.Receiver, src: Source, m: Message)
    requires Paired(s, r) && Addressed(s) && r.slot.id == s.slot.id && src.file == s.slot.file
    requires SR.Segment(s, m) && s.cfg.encoder(m).Ok?
    ensures Carries(r, src, Parse(r.cfg.lim, s.cfg.encoder(m).value), m)
  {
    var h := Arrives(s, r, m);
  }

  lemma SegmentsBring(s: S.Sender, r: R.Receiver, ms: seq<Message>, file: seq<byte>)
    requires Paired(s, r) && Addressed(s) && r.slot.id == s.slot.id && file == s.slot.file
    requires SR.Segments(s, ms) && SR.Tiles(ms, 0, |file|) && forall i :: 0 <= i < |ms| ==> s.cfg.encoder(ms[i]).Ok?
    ensures Brings(r, file, OnTheWire(s.cfg, r.cfg.lim, ms), 0)
  {
    var src, pdus := Source(file, Modular, [], true), OnTheWire(s.cfg, r.cfg.lim, ms);
    forall i | 0 <= i < |ms| ensures Carries(r, src, pdus[i], ms[i]) {
      SegmentCarried(s, r, src, ms[i]);
    }
    CarriedBring(r, src, ms, pdus, 0);
  }

  ghost predicate Cooperates(env: R.Env) { Works(env) && env.openOk && env.acceptAck }

  /** The receiver's slot once the Metadata is in. */
  ghost predicate Fresh(r: R.Receiver, q: R.Receiver, id: TxnId, request: S.PutRequest, file: seq<byte>) {
    && q.slot.acknowledged == request.acknowledged && q.slot.closure == (request.acknowledged || request.closure)
    && Filling(q, file) && q.slot.id == id && q.slot.kind == request.kind && q.slot.destPath == request.destPath
    && q.cfg == r.cfg && q.ids == r.ids && q.out == r.out && q.trace == r.trace + [Activated(id)]
  }

  lemma MetadataTaken(s: S.Sender, r: R.Receiver, request: S.PutRequest, env: R.Env) returns (q: R.Receiver)
    requires Paired(s, r) && Addressed(s) && r.slot == R.IDLE && env.openOk && Supported(request.kind) && |s.slot.file| < U32
    requires r.cfg.lim.maxNakRanges >= 1 && s.slot.acknowledged == request.acknowledged
    requires s.cfg.encoder(S.MetadataMessage(s, request)).Ok?
    ensures Fresh(r, q, s.slot.id, request, s.slot.file)
    ensures R.Receive(r, Parse(r.cfg.lim, s.cfg.encoder(S.MetadataMessage(s, request)).value), env).0 == Held(q, s.slot.file, 0)
  {
    var m := S.MetadataMessage(s, request);
    var h := Arrives(s, r, m);
    var body := m.body.(closure := m.body.closure && !s.slot.acknowledged);
    MetadataOpens(r, h, body, env, s.slot.file);
    q := Opened(r, h, body);
  }

  lemma WireFirst(peer: Config, lim: Limits, first: Message, ms: seq<Message>)
    requires forall i :: 0 <= i < |[first] + ms| ==> peer.encoder(([first] + ms)[i]).Ok?
    ensures peer.encoder(first).Ok? && forall i :: 0 <= i < |ms| ==> peer.encoder(ms[i]).Ok?
    ensures OnTheWire(peer, lim, [first] + ms) == [Parse(lim, peer.encoder(first).value)] + OnTheWire(peer, lim, ms)
  {
    var all := [first] + ms;
    assert all[0] == first;
    forall i | 0 <= i < |ms| ensures peer.encoder(ms[i]).Ok? {
      assert all[i + 1] == ms[i];
    }
  }

  lemma TakeFirst<T>(step: (T, Incoming, nat) -> T, t: T, first: Incoming, rest: seq<Incoming>, k: nat)
    ensures Take(step, t, [first] + rest, k) == Take(step, step(t, first, k), rest, k + 1)
  {
    assert ([first] + rest)[1..] == rest;
  }

  lemma TakeOne<T>(step: (T, Incoming, nat) -> T, t: T, only: Incoming, k: nat)
    ensures Take(step, t, [only], k) == step(t, only, k)
  {
    TakeFirst(step, t, only, [], k);
    assert [only] + [] == [only];
  }

  /** What the theorem asks of the receiving side when the sender `s` has put a file. */
  ghost predicate Ready(s: S.Sender, r: R.Receiver, request: S.PutRequest) {
    && Paired(s, r) && Addressed(s) && s.slot.acknowledged == request.acknowledged
    && r.slot == R.IDLE && Supported(request.kind) && 0 < |s.slot.file| < U32
    && r.cfg.lim.maxNakRanges >= 1 && Roomy(r.cfg, r.ids) && IdsFit(r.cfg.lim, r.ids, s.slot.id.seqno)
    && s.slot.eofChecksum == WholeFile(s.cfg.lib, request.kind, s.slot.file)
  }

  lemma ReceiverOpens(s: S.Sender, r: R.Receiver, request: S.PutRequest, first: Incoming, k: nat, env: nat -> R.Env)
    returns (q: R.Receiver)
    requires Ready(s, r, request) && Cooperates(env(k)) && s.cfg.encoder(S.MetadataMessage(s, request)).Ok?
    requires first == Parse(r.cfg.lim, s.cfg.encoder(S.MetadataMessage(s, request)).value)
    ensures Fresh(r, q, s.slot.id, request, s.slot.file) && CanReply(q)
    ensures Receiving(env)(r, first, k) == Held(q, s.slot.file, 0)
  {
    q := MetadataTaken(s, r, request, env(k));
  }

  lemma ReceiverFills(q: R.Receiver, file: seq<byte>, pdus: seq<Incoming>, rest: seq<Incoming>, k: nat, env: nat -> R.Env)
    requires Filling(q, file) && Brings(q, file, pdus, 0) && forall i :: Cooperates(env(i))
    ensures Take(Receiving(env), Held(q, file, 0), pdus + rest, k)
         == Take(Receiving(env), Held(q, file, |file|), rest, k + |pdus|)
  {
    forall i ensures Works(env(i)) { assert Cooperates(env(i)); }
    ReceivingExtends(q, file, env);
    TakeSegments(Receiving(env), q, file, pdus, 0, rest, k);
  }

  /** The EOF ends the transfer: acknowledged, it is reported; unacknowledged, the slot is free again. */
  ghost predicate EndsAs(q: R.Receiver, t: R.Receiver, request: S.PutRequest, file: seq<byte>) {
    if request.acknowledged then Reported(q, t, file) else SlotFreed(q, t, file)
  }

  lemma ReceiverEnds(s: S.Sender, r: R.Receiver, q: R.Receiver, request: S.PutRequest, last: Incoming, n: nat, env: nat -> R.Env)
    requires Ready(s, r, request) && Fresh(r, q, s.slot.id, request, s.slot.file) && CanReply(q) && Cooperates(env(n))
    requires s.cfg.encoder(S.EofMessage(s)).Ok? && last == Parse(r.cfg.lim, s.cfg.encoder(S.EofMessage(s)).value)
    ensures EndsAs(q, Receiving(env)(Held(q, s.slot.file, |s.slot.file|), last, n), request, s.slot.file)
  {
    var h := Arrives(s, r, S.EofMessage(s));
    if request.acknowledged {
      EofCommits(q, s.slot.file, h, env(n));
    } else {
      EofDelivers(q, s.slot.file, h, env(n));
    }
  }

  lemma TakeOpened<T>(step: (T, Incoming, nat) -> T, t: T, begun: T, filled: T, first: Incoming, pdus: seq<Incoming>, rest: seq<Incoming>, k: nat)
    requires step(t, first, k) == begun
    requires Take(step, begun, pdus + rest, k + 1) == Take(step, filled, rest, k + 1 + |pdus|)
    ensures Take(step, t, [first] + (pdus + rest), k) == Take(step, filled, rest, k + 1 + |pdus|)
  {
    TakeFirst(step, t, first, pdus + rest, k);
  }

  /** The receiver takes Metadata and the segments: it holds the whole file and waits for EOF. */
  lemma ReceiverTakes(s: S.Sender, r: R.Receiver, request: S.PutRequest, segs: seq<Message>, k: nat, env: nat -> R.Env)
    returns (q: R.Receiver)
    requires Ready(s, r, request) && forall i :: Cooperates(env(i))
    requires SR.Segments(s, segs) && SR.Tiles(segs, 0, |s.slot.file|)
    requires var ms := [S.MetadataMessage(s, request)] + segs; forall i :: 0 <= i < |ms| ==> s.cfg.encoder(ms[i]).Ok?
    ensures var ms := [S.MetadataMessage(s, request)] + segs;
            Take(Receiving(env), r, OnTheWire(s.cfg, r.cfg.lim, ms), k) == Held(q, s.slot.file, |s.slot.file|)
    ensures Fresh(r, q, s.slot.id, request, s.slot.file) && CanReply(q)
  {
    var md, file := S.MetadataMessage(s, request), s.slot.file;
    WireFirst(s.cfg, r.cfg.lim, md, segs);
    var first, pdus := Parse(r.cfg.lim, s.cfg.encoder(md).value), OnTheWire(s.cfg, r.cfg.lim, segs);
    q := ReceiverOpens(s, r, request, first, k, env);
    SegmentsBring(s, q, segs, file);
    assert pdus + [] == pdus;
    ReceiverFills(q, file, pdus, [], k + 1, env);
    TakeOpened(Receiving(env), r, Held(q, file, 0), Held(q, file, |file|), first, pdus, [], k);
  }

  lemma WireParts(peer: Config, lim: Limits, first: Message, ms: seq<Message>, last: Message)
    requires forall i :: 0 <= i < |[first] + ms + [last]| ==> peer.encoder(([first] + ms + [last])[i]).Ok?
    ensures peer.encoder(first).Ok? && peer.encoder(last).Ok? && forall i :: 0 <= i < |ms| ==> peer.encoder(ms[i]).Ok?
    ensures OnTheWire(peer, lim, [first] + ms + [last])
         == [Parse(lim, peer.encoder(first).value)] + (OnTheWire(peer, lim, ms) + [Parse(lim, peer.encoder(last).value)])
  {
    var all := [first] + ms + [last];
    assert all[0] == first && all[|ms| + 1] == last;
    forall i | 0 <= i < |ms| ensures peer.encoder(ms[i]).Ok? {
      assert all[i + 1] == ms[i];
    }
  }

  lemma TakeAll<T>(step: (T, Incoming, nat) -> T, t: T, begun: T, filled: T, first: Incoming, pdus: seq<Incoming>, last: Incoming, k: nat)
    requires step(t, first, k) == begun
    requires Take(step, begun, pdus + [last], k + 1) == Take(step, filled, [last], k + 1 + |pdus|)
    ensures Take(step, t, [first] + (pdus + [last]), k) == step(filled, last, k + 1 + |pdus|)
  {
    TakeOpened(step, t, begun, filled, first, pdus, [last], k);
    TakeOne(step, filled, last, k + 1 + |pdus|);
  }

  /** Metadata, the segments and EOF. */
  lemma ReceiverTakesAll(
    s: S.Sender, r: R.Receiver, request: S.PutRequest, segs: seq<Message>, ms: seq<Message>, k: nat, env: nat -> R.Env)
    returns (q: R.Receiver, t: R.Receiver)
    requires Ready(s, r, request) && forall i :: Cooperates(env(i))
    requires SR.Segments(s, segs) && SR.Tiles(segs, 0, |s.slot.file|)
    requires ms == [S.MetadataMessage(s, request)] + segs + [S.EofMessage(s)] && forall i :: 0 <= i < |ms| ==> s.cfg.encoder(ms[i]).Ok?
    ensures t == Take(Receiving(env), r, OnTheWire(s.cfg, r.cfg.lim, ms), k)
    ensures Fresh(r, q, s.slot.id, request, s.slot.file) && CanReply(q) && EndsAs(q, t, request, s.slot.file)
  {
    var md, eof, file := S.MetadataMessage(s, request), S.EofMessage(s), s.slot.file;
    WireParts(s.cfg, r.cfg.lim, md, segs, eof);
    var first, last := Parse(r.cfg.lim, s.cfg.encoder(md).value), Parse(r.cfg.lim, s.cfg.encoder(eof).value);
    var pdus := OnTheWire(s.cfg, r.cfg.lim, segs);
    q := ReceiverOpens(s, r, request, first, k, env);
    SegmentsBring(s, q, segs, file);
    ReceiverFills(q, file, pdus, [last], k + 1, env);
    ReceiverEnds(s, r, q, request, last, k + 1 + |segs|, env);
    TakeAll(Receiving(env), r, Held(q, file, 0), Held(q, file, |file|), first, pdus, last, k);
    t := Receiving(env)(Held(q, file, |file|), last, k + 1 + |segs|);
  }

  // ---- The replies ----

  lemma AckIgnored(s: S.Sender, h: Header, condition: nat, txnStatus: nat, env: S.Env)
    requires S.Supports(s, h) && S.Matches(s, h) && !h.unacknowledged
    ensures S.Receive(s, Decodable(h, Ack(4, 0, condition, txnStatus)), env).0 == s
  {
  }

  /** The sender completes on a good Finished, and acknowledges it. */
  lemma FinishedCompletes(s: S.Sender, h: Header, env: S.Env)
    requires CanSend(s) && S.Supports(s, h) && S.Matches(s, h) && s.slot.acknowledged && Accepts(env)
    ensures S.Receive(s, Decodable(h, Finished(NO_ERROR, false, 2)), env).0
         == S.Release(s.(out := s.out + [S.AckFinishedMessage(s, NO_ERROR)]), OK)
    ensures s.cfg.encoder(S.AckFinishedMessage(s, NO_ERROR)).Ok?
  {
    Encodes(s.cfg, s.ids, S.AckFinishedMessage(s, NO_ERROR));
    var a := s.(slot := s.slot.(finishedReceived := true));
    assert S.AckFinishedMessage(a, NO_ERROR) == S.AckFinishedMessage(s, NO_ERROR);
  }

  lemma TakeTwo<T>(step: (T, Incoming, nat) -> T, t: T, x: Incoming, y: Incoming, k: nat)
    ensures Take(step, t, [x, y], k) == step(step(t, x, k), y, k + 1)
  {
    TakeFirst(step, t, x, [y], k);
    TakeOne(step, step(t, x, k), y, k + 1);
    assert [x] + [y] == [x, y];
  }

  /** The two ends of the transaction, the receiver's as it was opened. */
  ghost predicate Opposite(s: S.Sender, r: R.Receiver) {
    && Paired(s, r) && CanSend(s) && CanReply(r) && s.slot.active && s.slot.acknowledged && r.slot.acknowledged
    && r.slot.id == s.slot.id
  }

  lemma SenderIgnores(s: S.Sender, r: R.Receiver, x: Incoming, k: nat, env: nat -> S.Env)
    requires Opposite(s, r) && r.cfg.encoder(R.AckEofMessage(r, NO_ERROR)).Ok?
    requires x == Parse(s.cfg.lim, r.cfg.encoder(R.AckEofMessage(r, NO_ERROR)).value)
    ensures Sending(env)(s, x, k) == s
  {
    var h := ReplyArrives(r, s, R.AckEofMessage(r, NO_ERROR));
    AckIgnored(s, h, NO_ERROR, 1, env(k));
  }

  lemma SenderCompletes(s: S.Sender, r: R.Receiver, y: Incoming, k: nat, env: nat -> S.Env)
    requires Opposite(s, r) && Accepts(env(k)) && r.cfg.encoder(R.FinishedMessage(r, OK)).Ok?
    requires y == Parse(s.cfg.lim, r.cfg.encoder(R.FinishedMessage(r, OK)).value)
    ensures Sending(env)(s, y, k) == S.Release(s.(out := s.out + [S.AckFinishedMessage(s, NO_ERROR)]), OK)
    ensures s.cfg.encoder(S.AckFinishedMessage(s, NO_ERROR)).Ok?
  {
    var h := ReplyArrives(r, s, R.FinishedMessage(r, OK));
    FinishedCompletes(s, h, env(k));
  }

  lemma WireTwo(peer: Config, lim: Limits, a: Message, b: Message)
    requires peer.encoder(a).Ok? && peer.encoder(b).Ok?
    ensures forall i :: 0 <= i < |[a, b]| ==> peer.encoder([a, b][i]).Ok?
    ensures OnTheWire(peer, lim, [a, b]) == [Parse(lim, peer.encoder(a).value), Parse(lim, peer.encoder(b).value)]
  {
  }

  lemma SenderTakes(s: S.Sender, r: R.Receiver, k: nat, env: nat -> S.Env)
    requires Opposite(s, r) && forall i :: Accepts(env(i))
    ensures var ms := [R.AckEofMessage(r, NO_ERROR), R.FinishedMessage(r, OK)];
            && (forall i :: 0 <= i < |ms| ==> r.cfg.encoder(ms[i]).Ok?)
            && Take(Sending(env), s, OnTheWire(r.cfg, s.cfg.lim, ms), k)
            == S.Release(s.(out := s.out + [S.AckFinishedMessage(s, NO_ERROR)]), OK)
    ensures s.cfg.encoder(S.AckFinishedMessage(s, NO_ERROR)).Ok?
  {
    RepliesEncode(r);
    var ack, fin := R.AckEofMessage(r, NO_ERROR), R.FinishedMessage(r, OK);
    var x, y := Parse(s.cfg.lim, r.cfg.encoder(ack).value), Parse(s.cfg.lim, r.cfg.encoder(fin).value);
    WireTwo(r.cfg, s.cfg.lim, ack, fin);
    SenderIgnores(s, r, x, k, env);
    SenderCompletes(s, r, y, k + 1, env);
    TakeTwo(Sending(env), s, x, y, k);
  }

  /** The acknowledged receiver lets go of its slot. */
  lemma AckTaken(s: S.Sender, t: R.Receiver, k: nat, env: nat -> R.Env)
    requires Paired(s, t) && Addressed(s) && s.slot.acknowledged && t.slot.active && t.slot.id == s.slot.id && t.slot.finishedStatus == OK
    requires s.cfg.encoder(S.AckFinishedMessage(s, NO_ERROR)).Ok?
    ensures Take(Receiving(env), t, OnTheWire(s.cfg, t.cfg.lim, [S.AckFinishedMessage(s, NO_ERROR)]), k) == R.Release(t, OK)
  {
    var m := S.AckFinishedMessage(s, NO_ERROR);
    var h := Arrives(s, t, m);
    var x := Parse(t.cfg.lim, s.cfg.encoder(m).value);
    assert OnTheWire(s.cfg, t.cfg.lim, [m]) == [x];
    TakeOne(Receiving(env), t, x, k);
    assert R.Receive(t, Decodable(h, m.body), env(k)).0 == R.Release(t, OK);
  }
}
