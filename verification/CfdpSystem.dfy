/**
  One sender and one receiver over a network that loses, duplicates and reorders PDUs but
  never alters them.  The network is the pair of outboxes: any message ever sent may be
  delivered, as the bytes it was encoded to, any number of times and in any order.
 */
module CfdpSystem {
  import opened CfdpTypes
  import opened CfdpRanges
  import opened CfdpChecksum
  import opened CfdpPdu
  import opened CfdpCore
  import S = CfdpSender
  import SR = CfdpSenderRuns
  import R = CfdpReceiver
  import RR = CfdpReceiverRuns
  import Q = CfdpReplies

  /** What was asked to be sent under a transaction number. */
  datatype Source = Source(file: seq<byte>, kind: ChecksumType, destPath: seq<byte>, acknowledged: bool)

  /** `sources[i]` belongs to the i-th transaction started; its number is `first` advanced i times. */
  datatype System = System(a: S.Sender, b: R.Receiver, first: nat, sources: seq<Source>)

  datatype Action =
    | Put(request: S.PutRequest, senv: S.Env)
    | ToSender(k: nat, senv: S.Env)
    | ToReceiver(k: nat, renv: R.Env)
    | TickSender(now: nat, senv: S.Env)
    | TickReceiver(now: nat, renv: R.Env)

  function Modulus(sys: System): nat { S.SeqnoModulus(sys.a.ids.seqLen) }

  /** The n-th number after `first` in a space of m numbers, wrapping round to 0. */
  function NumberAt(first: nat, n: nat, m: nat): nat {
    if n == 0 then first
    else
      var before := NumberAt(first, n - 1, m);
      if before + 1 == m then 0 else before + 1
  }

  function NumberOf(sys: System, i: nat): TxnId {
    TxnId(sys.a.ids.local, NumberAt(sys.first, i, Modulus(sys)))
  }

  /** Whether send_file gets as far as allocating a transaction number. */
  predicate Starts(s: S.Sender, request: S.PutRequest) {
    S.RequestValid(s.cfg, request) && Supported(request.kind) && !s.slot.active
  }

  function SourceOf(request: S.PutRequest, env: S.Env): Source {
    Source(if env.open.Ok? then env.open.value else [], request.kind, request.destPath, request.acknowledged)
  }

  /** An action is possible if it delivers something that was sent, and no transaction number is reused. */
  predicate Enabled(sys: System, action: Action) {
    match action
    case Put(request, env) => Starts(sys.a, request) ==> |sys.sources| < Modulus(sys)
    case ToSender(k, _) => k < |sys.b.out| && sys.b.cfg.encoder(sys.b.out[k]).Ok?
    case ToReceiver(k, _) => k < |sys.a.out| && sys.a.cfg.encoder(sys.a.out[k]).Ok?
    case _ => true
  }

  function Next(sys: System, action: Action): System
    requires Enabled(sys, action)
  {
    match action
    case Put(request, env) =>
      sys.(a := S.SendFile(sys.a, request, env).0,
           sources := if Starts(sys.a, request) then sys.sources + [SourceOf(request, env)] else sys.sources)
    case ToSender(k, env) =>
      sys.(a := S.Receive(sys.a, Parse(sys.a.cfg.lim, sys.b.cfg.encoder(sys.b.out[k]).value), env).0)
    case ToReceiver(k, env) =>
      sys.(b := R.Receive(sys.b, Parse(sys.b.cfg.lim, sys.a.cfg.encoder(sys.a.out[k]).value), env).0)
    case TickSender(now, env) => sys.(a := S.Poll(sys.a, now, env))
    case TickReceiver(now, env) => sys.(b := R.Poll(sys.b, now, env))
  }

  /** A run: a start state and one enabled action after another. */
  ghost predicate IsRun(states: seq<System>, actions: seq<Action>) {
    && |states| == |actions| + 1 && Initial(states[0])
    && forall i :: 0 <= i < |actions| ==> Enabled(states[i], actions[i]) && states[i + 1] == Next(states[i], actions[i])
  }

  ghost predicate Wired(sys: System) {
    && WireConfig(sys.a.cfg) && WireConfig(sys.b.cfg) && sys.a.cfg.lim == sys.b.cfg.lim && sys.a.cfg.lib == sys.b.cfg.lib
    && sys.a.ids.local == sys.b.ids.remote && sys.a.ids.remote == sys.b.ids.local
    && sys.a.ids.idLen == sys.b.ids.idLen && sys.a.ids.seqLen == sys.b.ids.seqLen
  }

  ghost predicate Initial(sys: System) {
    && Wired(sys) && sys.sources == [] && sys.first < Modulus(sys) && sys.a.nextSeqno == sys.first
    && sys.a.slot == S.IDLE && sys.a.out == [] && sys.a.trace == []
    && sys.b.slot == R.IDLE && sys.b.ranges == [] && sys.b.out == [] && sys.b.trace == []
  }

  // ---- The invariant ----

  predicate IsSource(sys: System, i: int, id: TxnId) {
    0 <= i < |sys.sources| && id == NumberOf(sys, i)
  }

  predicate TruthfulData(src: Source, body: Body)
    requires body.FileData?
  {
    body.data != [] && body.offset + |body.data| <= |src.file|
    && body.data == src.file[body.offset..body.offset + |body.data|]
  }

  /** What a message says about the file it belongs to is true. */
  predicate Truthful(lib: CrcLibrary, src: Source, h: Header, body: Body) {
    match body
    case Metadata(_, kind, size, _, dest) =>
      kind == src.kind && size == |src.file| && dest == src.destPath && h.unacknowledged == !src.acknowledged
    case FileData(_, _) => TruthfulData(src, body)
    case Eof(condition, checksum, size) =>
      condition == NO_ERROR && checksum == WholeFile(lib, src.kind, src.file) && size == |src.file|
    case Ack(_, _, _, _) => true
    case _ => false
  }

  ghost predicate Honest(sys: System, m: Message) {
    && sys.a.cfg.encoder(m).Ok? && !m.header.towardSender
    && exists i :: IsSource(sys, i, IdOf(m.header)) && Truthful(sys.a.cfg.lib, sys.sources[i], m.header, m.body)
  }

  ghost predicate SlotHonest(sys: System) {
    sys.a.slot.active ==>
      exists i :: IsSource(sys, i, sys.a.slot.id) && SlotOf(sys.a, sys.sources[i])
  }

  predicate SlotOf(s: S.Sender, src: Source) {
    && s.slot.file == src.file && s.slot.acknowledged && src.acknowledged
    && s.slot.eofChecksum == WholeFile(s.cfg.lib, src.kind, src.file)
  }

  /** The receiver's partial file agrees with the source on every byte it has recorded as received. */
  ghost predicate Partial(r: R.Receiver, src: Source) {
    && r.slot.fileSize == |src.file| && r.slot.destPath == src.destPath
    && |r.slot.tmp| <= |src.file|
    && forall x :: 0 <= x < |r.slot.tmp| && Covers(r.ranges, x) ==> r.slot.tmp[x] == src.file[x]
  }

  ghost predicate PartialHonest(sys: System) {
    sys.b.slot.active ==>
      && (exists i :: IsSource(sys, i, sys.b.slot.id) && Partial(sys.b, sys.sources[i]))
      && (sys.b.slot.waiting ==> Q.HasCommit(sys.b.trace, sys.b.slot.id))
  }

  ghost predicate Delivered(sys: System, e: Effect) {
    e.Committed? ==>
      e.content != []
      && exists i :: IsSource(sys, i, e.id) && e.content == sys.sources[i].file && e.path == sys.sources[i].destPath
  }

  predicate ReplyHonest(sys: System, m: Message) {
    && m.header.towardSender && GoesToward(m) && sys.b.cfg.encoder(m).Ok?
    && (Q.ClaimsDelivery(m) ==> Q.HasCommit(sys.b.trace, IdOf(m.header)))
  }

  /** A completed acknowledged transfer has been committed by the receiver. */
  ghost predicate Completed(sys: System, e: Effect) {
    e.Terminal? && e.status == OK ==>
      exists i :: IsSource(sys, i, e.id) && (sys.sources[i].acknowledged ==> Q.HasCommit(sys.b.trace, e.id))
  }

  ghost predicate SysInv(sys: System) {
    && Wired(sys) && RR.Inv(sys.b)
    && |sys.sources| <= Modulus(sys) && sys.first < Modulus(sys)
    && sys.a.nextSeqno == NumberAt(sys.first, |sys.sources|, Modulus(sys))
    && (forall k :: 0 <= k < |sys.a.out| ==> Honest(sys, sys.a.out[k]))
    && (forall k :: 0 <= k < |sys.b.out| ==> ReplyHonest(sys, sys.b.out[k]))
    && SlotHonest(sys) && PartialHonest(sys)
    && (forall k :: 0 <= k < |sys.b.trace| ==> Delivered(sys, sys.b.trace[k]))
    && (forall k :: 0 <= k < |sys.a.trace| ==> Completed(sys, sys.a.trace[k]))
  }

  // ---- Transaction numbers ----

  lemma {:induction false} NumberAhead(first: nat, i: nat, d: nat, m: nat)
    requires first < m && d < m
    ensures NumberAt(first, i, m) < m
    ensures NumberAt(first, i + d, m) ==
            NumberAt(first, i, m) + d - if NumberAt(first, i, m) + d < m then 0 else m
    decreases i + d
  {
    if d > 0 {
      NumberAhead(first, i, d - 1, m);
    } else if i > 0 {
      NumberAhead(first, i - 1, 0, m);
    }
  }

  /** The next number is the one the sender computes. */
  lemma NextNumber(first: nat, n: nat, m: nat)
    requires first < m
    ensures NumberAt(first, n, m) < m
    ensures NumberAt(first, n + 1, m) == (NumberAt(first, n, m) + 1) % m
  {
    NumberAhead(first, n, 0, m);
    var x := NumberAt(first, n, m);
    if x + 1 < m {
      assert (x + 1) % m == x + 1;
    } else {
      assert m % m == 0;
    }
  }

  /** Fewer transactions than numbers: a number identifies its source. */
  lemma SourceUnique(sys: System, i: int, j: int, id: TxnId)
    requires sys.first < Modulus(sys) && |sys.sources| <= Modulus(sys)
    requires IsSource(sys, i, id) && IsSource(sys, j, id)
    ensures i == j
  {
    if i < j {
      NumberAhead(sys.first, i, j - i, Modulus(sys));
    } else if j < i {
      NumberAhead(sys.first, j, i - j, Modulus(sys));
    }
  }

  // ---- What the sender emits ----

  /** Every message beyond those of `s` is sent for transaction `id` and is truthful about `src`. */
  ghost predicate Emits(s: S.Sender, q: S.Sender, id: TxnId, src: Source) {
    && s.out <= q.out
    && forall k :: |s.out| <= k < |q.out| ==> EmittedFor(s, q.out[k], id, src)
  }

  predicate EmittedFor(s: S.Sender, m: Message, id: TxnId, src: Source) {
    && s.cfg.encoder(m).Ok? && !m.header.towardSender && IdOf(m.header) == id
    && Truthful(s.cfg.lib, src, m.header, m.body)
  }

  lemma EmitsThrough(s: S.Sender, mid: S.Sender, q: S.Sender, id: TxnId, src: Source)
    requires Emits(s, mid, id, src) && Emits(mid, q, id, src) && mid.cfg == s.cfg
    ensures Emits(s, q, id, src)
  {
  }

  lemma SendEmits(s: S.Sender, m: Message, env: S.Env, id: TxnId, src: Source)
    requires !m.header.towardSender && IdOf(m.header) == id && Truthful(s.cfg.lib, src, m.header, m.body)
    ensures Emits(s, S.Send(s, m, env).0, id, src)
  {
  }

  lemma SegmentsEmit(s: S.Sender, q: S.Sender, src: Source)
    requires SR.OnlyEmitted(s, q) && SR.Segments(s, SR.Added(s, q)) && s.slot.file == src.file
    requires forall k :: |s.out| <= k < |q.out| ==> s.cfg.encoder(q.out[k]).Ok?
    ensures Emits(s, q, s.slot.id, src)
  {
  }

  /** Only messages the encoder accepts reach the outbox. */
  ghost predicate Encodable(s: S.Sender, q: S.Sender) {
    s.out <= q.out && forall k :: |s.out| <= k < |q.out| ==> s.cfg.encoder(q.out[k]).Ok?
  }

  lemma {:induction false} SegmentsEncodable(s: S.Sender, from: nat, until: nat, env: S.Env)
    requires from <= until <= |s.slot.file|
    ensures Encodable(s, S.SendSegments(s, from, until, env).0)
    decreases until - from
  {
    if from < until {
      var request := Request(until, from, s.cfg.maxSegment);
      var got := env.read(from, request);
      if got.Ok? && 0 < got.value <= request {
        var sent := S.Send(s, S.FileDataMessage(s, from, got.value), env);
        if sent.1 == OK {
          SegmentsEncodable(sent.0, from + got.value, until, env);
        }
      }
    }
  }

  lemma {:induction false} RetransmitEncodable(s: S.Sender, ranges: seq<Range>, env: S.Env)
    ensures Encodable(s, S.Retransmit(s, ranges, env).0)
    decreases |ranges|
  {
    if ranges != [] && ranges[0].end <= |s.slot.file| {
      var first := ranges[0];
      if 0 <= first.start <= first.end {
        SegmentsEncodable(s, first.start, first.end, env);
        SR.SegmentsEmitted(s, first.start, first.end, env);
        var sent := S.SendSegments(s, first.start, first.end, env);
        if sent.1 == OK {
          RetransmitEncodable(sent.0, ranges[1..], env);
        }
      } else {
        RetransmitEncodable(s, ranges[1..], env);
      }
    }
  }

  /** send_file from an open file: Metadata, segments and EOF are all truthful. */
  lemma TransmitEmits(s: S.Sender, request: S.PutRequest, env: S.Env, src: Source)
    requires s.slot.file == src.file && s.slot.acknowledged == request.acknowledged
    requires src.kind == request.kind && src.destPath == request.destPath && src.acknowledged == request.acknowledged
    ensures var t := S.Transmit(s, request, env);
            Emits(s, t.0, s.slot.id, src) && (t.1 == OK ==> t.0.slot.eofChecksum == WholeFile(s.cfg.lib, src.kind, src.file))
  {
    var id := s.slot.id;
    var a := S.Send(s, S.MetadataMessage(s, request), env);
    SendEmits(s, S.MetadataMessage(s, request), env, id, src);
    if a.1 == OK {
      var b := S.SendSegments(a.0, 0, |a.0.slot.file|, env);
      SR.SegmentsEmitted(a.0, 0, |a.0.slot.file|, env);
      SegmentsEncodable(a.0, 0, |a.0.slot.file|, env);
      SegmentsEmit(a.0, b.0, src);
      EmitsThrough(s, a.0, b.0, id, src);
      if b.1 == OK {
        var c := b.0.(slot := b.0.slot.(eofChecksum := WholeFile(s.cfg.lib, request.kind, b.0.slot.file)));
        SendEmits(c, S.EofMessage(c), env, id, src);
        EmitsThrough(s, c, S.Send(c, S.EofMessage(c), env).0, id, src);
      }
    }
  }

  /** The sender after send_file: truthful messages, and success reported at once only without acknowledgement. */
  lemma PutEmits(s: S.Sender, request: S.PutRequest, env: S.Env)
    requires Starts(s, request)
    ensures var q, id, src := S.SendFile(s, request, env).0, TxnId(s.ids.local, s.nextSeqno), SourceOf(request, env);
            && Emits(s, q, id, src)
            && q.cfg == s.cfg && q.ids == s.ids && q.nextSeqno == (s.nextSeqno + 1) % S.SeqnoModulus(s.ids.seqLen)
            && (q.slot.active ==> q.slot.id == id && SlotOf(q, src))
            && s.trace <= q.trace
            && (forall k :: |s.trace| <= k < |q.trace| ==>
                  !q.trace[k].Committed? && q.trace[k].id == id
                  && (q.trace[k].Terminal? && q.trace[k].status == OK ==> !request.acknowledged))
  {
    var a := S.Activate(s, request);
    if env.open.Ok? && |env.open.value| < U32 {
      var b := a.(slot := a.slot.(handleOpen := true, file := env.open.value));
      var src := SourceOf(request, env);
      TransmitEmits(b, request, env, src);
      SR.TransmitEmitted(b, request, env);
      EmitsFrom(s, b, S.Transmit(b, request, env).0, b.slot.id, src);
    }
  }

  lemma EmitsFrom(s: S.Sender, b: S.Sender, q: S.Sender, id: TxnId, src: Source)
    requires b.out == s.out && b.cfg == s.cfg && Emits(b, q, id, src)
    ensures Emits(s, q, id, src)
  {
  }

  // ---- What the sender does with an incoming PDU or a poll ----

  /** A step of a running transaction: truthful messages, and COMPLETE only if `claimed`. */
  ghost predicate Serves(s: S.Sender, q: S.Sender, src: Source, claimed: bool) {
    && Emits(s, q, s.slot.id, src)
    && q.cfg == s.cfg && q.ids == s.ids && q.nextSeqno == s.nextSeqno
    && (q.slot.active ==> q.slot.id == s.slot.id && SlotOf(q, src))
    && (q.trace == s.trace
        || exists status :: q.trace == s.trace + [Terminal(s.slot.id, status)] && (status == OK ==> claimed))
  }

  lemma NakServes(s: S.Sender, h: Header, body: Body, env: S.Env, src: Source)
    requires body.Nak? && s.slot.active && SlotOf(s, src)
    ensures Serves(s, S.FailIfActive(S.HandleNak(s, h, body, env), h).0, src, false)
  {
    var q := S.FailIfActive(S.HandleNak(s, h, body, env), h).0;
    if !h.unacknowledged && S.Matches(s, h) && s.slot.handleOpen && s.slot.acknowledged {
      var a := s.(slot := s.slot.(nakRounds := s.slot.nakRounds + 1));
      var b := S.Retransmit(a, body.ranges, env);
      SR.RetransmitEmitted(a, body.ranges, env);
      RetransmitEncodable(a, body.ranges, env);
      SegmentsEmit(a, b.0, src);
      SendEmits(b.0, S.EofMessage(b.0), env, s.slot.id, src);
      EmitsThrough(a, b.0, S.Send(b.0, S.EofMessage(b.0), env).0, s.slot.id, src);
      EmitsFrom(s, a, b.0, s.slot.id, src);
      EmitsFrom(s, a, S.Send(b.0, S.EofMessage(b.0), env).0, s.slot.id, src);
    }
    if q.trace != s.trace {
      assert q.trace == s.trace + [Terminal(s.slot.id, q.trace[|q.trace| - 1].status)];
    }
  }

  lemma FinishedServes(s: S.Sender, h: Header, body: Body, env: S.Env, src: Source)
    requires body.Finished? && s.slot.active && SlotOf(s, src)
    ensures Serves(s, S.FailIfActive(S.HandleFinished(s, h, body, env), h).0, src,
                   S.Matches(s, h) && body.condition == NO_ERROR && !body.incomplete)
  {
  }

  /** A delivered reply: COMPLETE only for a Finished that claims delivery of this very transaction. */
  lemma ReceiveServes(s: S.Sender, h: Header, body: Body, env: S.Env, src: Source)
    requires s.slot.active && SlotOf(s, src)
    ensures Serves(s, S.Receive(s, Decodable(h, body), env).0, src,
                   S.Matches(s, h) && Q.ClaimsDelivery(Message(h, body)))
  {
    var q := S.Receive(s, Decodable(h, body), env).0;
    if S.Supports(s, h) {
      if body.Nak? {
        NakServes(s, h, body, env, src);
      } else if body.Finished? {
        FinishedServes(s, h, body, env, src);
      } else if q.trace != s.trace {
        assert q.trace == s.trace + [Terminal(s.slot.id, q.trace[|q.trace| - 1].status)];
      }
    }
  }

  lemma PollServes(s: S.Sender, now: nat, env: S.Env, src: Source)
    requires s.slot.active && SlotOf(s, src)
    ensures Serves(s, S.Poll(s, now, env), src, false)
  {
  }
}
