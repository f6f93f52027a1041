/** Properties of every run of the sending side: what it emits, how it ends, and how often it repeats itself. */
module CfdpSenderRuns {
  import opened CfdpTypes
  import opened CfdpRanges
  import opened CfdpChecksum
  import opened CfdpPdu
  import opened CfdpCore
  import opened CfdpSender

  datatype Input =
    | Put(request: PutRequest, env: Env)
    | Arrive(incoming: Incoming, env: Env)
    | Tick(now: nat, env: Env)

  function Step(s: Sender, input: Input): Sender {
    match input
    case Put(request, env) => SendFile(s, request, env).0
    case Arrive(incoming, env) => Receive(s, incoming, env).0
    case Tick(now, env) => Poll(s, now, env)
  }

  /** The state after the first n inputs. */
  function Run(s: Sender, inputs: seq<Input>, n: nat): Sender
    requires n <= |inputs|
  {
    if n == 0 then s else Step(Run(s, inputs, n - 1), inputs[n - 1])
  }

  // ---- What the emitting helpers add to the outbox ----

  /** A File Data message of the slot's own file. */
  predicate Segment(s: Sender, m: Message) {
    && m.body.FileData? && m.body.data != [] && m.body.offset + |m.body.data| <= |s.slot.file|
    && m == FileDataMessage(s, m.body.offset, |m.body.data|)
  }

  predicate Segments(s: Sender, ms: seq<Message>) {
    forall i :: 0 <= i < |ms| ==> Segment(s, ms[i])
  }

  /** The messages that `r` holds beyond those of `s`. */
  function Added(s: Sender, r: Sender): seq<Message>
    requires |s.out| <= |r.out|
  {
    r.out[|s.out|..]
  }

  ghost predicate OnlyEmitted(s: Sender, r: Sender) {
    s.out <= r.out && r == s.(out := r.out)
  }

  /** Segments that tile [from, to) from left to right. */
  predicate Tiles(ms: seq<Message>, from: nat, until: nat)
    decreases |ms|
  {
    if ms == [] then from == until
    else ms[0].body.FileData? && ms[0].body.offset == from && Tiles(ms[1..], from + |ms[0].body.data|, until)
  }

  lemma SegmentPrepended(s: Sender, m: Message, sent: Sender, r: Sender)
    requires sent == s.(out := s.out + [m]) && Segment(s, m)
    requires OnlyEmitted(sent, r) && Segments(sent, Added(sent, r))
    ensures OnlyEmitted(s, r) && Added(s, r) == [m] + Added(sent, r) && Segments(s, Added(s, r))
    ensures Added(s, r)[1..] == Added(sent, r)
  {
    var more := Added(sent, r);
    assert Added(s, r) == [m] + more;
    forall i | 0 <= i < |more| ensures Segment(s, more[i]) {
      assert Segment(sent, more[i]);
    }
  }

  lemma {:induction false} SegmentsEmitted(s: Sender, from: nat, until: nat, env: Env)
    requires from <= until <= |s.slot.file|
    ensures var r := SendSegments(s, from, until, env);
            OnlyEmitted(s, r.0) && Segments(s, Added(s, r.0)) && (r.1 == OK ==> Tiles(Added(s, r.0), from, until))
    decreases until - from
  {
    var r := SendSegments(s, from, until, env);
    if from < until {
      var request := Request(until, from, s.cfg.maxSegment);
      var got := env.read(from, request);
      if got.Ok? && 0 < got.value <= request {
        var m := FileDataMessage(s, from, got.value);
        var sent := Send(s, m, env);
        if sent.1 == OK {
          SegmentsEmitted(sent.0, from + got.value, until, env);
          assert r == SendSegments(sent.0, from + got.value, until, env);
          SegmentPrepended(s, m, sent.0, r.0);
        }
      }
    }
  }

  lemma {:induction false} RetransmitEmitted(s: Sender, ranges: seq<Range>, env: Env)
    ensures var r := Retransmit(s, ranges, env);
            OnlyEmitted(s, r.0) && Segments(s, Added(s, r.0))
    decreases |ranges|
  {
    if ranges != [] && ranges[0].end <= |s.slot.file| {
      var first := ranges[0];
      if 0 <= first.start <= first.end {
        SegmentsEmitted(s, first.start, first.end, env);
        var sent := SendSegments(s, first.start, first.end, env);
        if sent.1 == OK {
          RetransmitEmitted(sent.0, ranges[1..], env);
          var r := Retransmit(s, ranges, env).0;
          assert Added(s, r) == Added(s, sent.0) + Added(sent.0, r);
        }
      } else {
        RetransmitEmitted(s, ranges[1..], env);
      }
    }
  }

  // ---- Terminal-event conservation ----

  /** The ways a call can move the slot: stay, start and possibly end, or end. */
  ghost predicate SlotMove(s: Sender, r: Sender) {
    || (r.trace == s.trace && r.slot.active == s.slot.active)
    || (s.slot.active && !r.slot.active && exists status :: r.trace == s.trace + [Terminal(s.slot.id, status)])
    || (!s.slot.active && exists id ::
          || (r.slot.active && r.trace == s.trace + [Activated(id)])
          || (!r.slot.active && exists status :: r.trace == s.trace + [Activated(id)] + [Terminal(id, status)]))
  }

  lemma TransmitEmitted(s: Sender, request: PutRequest, env: Env)
    ensures var r := Transmit(s, request, env).0;
            r.trace == s.trace && r.slot == s.slot.(eofChecksum := r.slot.eofChecksum) && s.out <= r.out
            && r.cfg == s.cfg && r.ids == s.ids && r.nextSeqno == s.nextSeqno
  {
    var a := Send(s, MetadataMessage(s, request), env);
    if a.1 == OK {
      SegmentsEmitted(a.0, 0, |a.0.slot.file|, env);
    }
  }

  lemma PutMoves(s: Sender, request: PutRequest, env: Env)
    ensures SlotMove(s, SendFile(s, request, env).0)
  {
    var r := SendFile(s, request, env).0;
    if r != s {
      var a := Activate(s, request);
      var id := a.slot.id;
      if env.open.Ok? && |env.open.value| < U32 {
        var b := a.(slot := a.slot.(handleOpen := true, file := env.open.value));
        TransmitEmitted(b, request, env);
      }
      if r.slot.active {
        assert r.trace == s.trace + [Activated(id)];
      } else {
        var status := r.trace[|r.trace| - 1].status;
        assert r.trace == s.trace + [Activated(id)] + [Terminal(id, status)];
      }
    }
  }

  lemma NakMoves(s: Sender, h: Header, body: Body, env: Env)
    requires body.Nak?
    ensures SlotMove(s, HandleNak(s, h, body, env).0)
  {
    if Matches(s, h) && !h.unacknowledged && s.slot.handleOpen && s.slot.acknowledged {
      var a := s.(slot := s.slot.(nakRounds := s.slot.nakRounds + 1));
      RetransmitEmitted(a, body.ranges, env);
    }
    var r := HandleNak(s, h, body, env).0;
    if s.slot.active && !r.slot.active {
      assert r.trace == s.trace + [Terminal(s.slot.id, r.trace[|r.trace| - 1].status)];
    }
  }

  lemma ArriveMoves(s: Sender, incoming: Incoming, env: Env)
    ensures SlotMove(s, Receive(s, incoming, env).0)
  {
    if incoming.Decodable? && incoming.body.Nak? {
      NakMoves(s, incoming.header, incoming.body, env);
    }
    var r := Receive(s, incoming, env).0;
    if s.slot.active && !r.slot.active {
      assert r.trace == s.trace + [Terminal(s.slot.id, r.trace[|r.trace| - 1].status)];
    }
  }

  lemma TickMoves(s: Sender, now: nat, env: Env)
    ensures SlotMove(s, Poll(s, now, env))
  {
  }

  lemma StepMoves(s: Sender, input: Input)
    ensures SlotMove(s, Step(s, input))
  {
    match input {
      case Put(request, env) => PutMoves(s, request, env);
      case Arrive(incoming, env) => ArriveMoves(s, incoming, env);
      case Tick(now, env) => TickMoves(s, now, env);
    }
  }

  lemma MoveBalances(s: Sender, r: Sender)
    requires SlotMove(s, r) && Balanced(s.slot.active, s.trace)
    ensures Balanced(r.slot.active, r.trace)
  {
  }

  /** In every run, activations equal terminal events plus one if the slot is still active. */
  lemma {:induction false} SenderConservation(s: Sender, inputs: seq<Input>, n: nat)
    requires n <= |inputs| && Balanced(s.slot.active, s.trace)
    ensures Balanced(Run(s, inputs, n).slot.active, Run(s, inputs, n).trace)
  {
    if n > 0 {
      SenderConservation(s, inputs, n - 1);
      StepMoves(Run(s, inputs, n - 1), inputs[n - 1]);
      MoveBalances(Run(s, inputs, n - 1), Run(s, inputs, n));
    }
  }

  /** A PDU that names another transaction leaves the sender exactly as it was. */
  lemma OtherTransactionIgnored(s: Sender, incoming: Incoming, env: Env)
    requires !incoming.BadHeader? && IdOf(incoming.header) != s.slot.id
    ensures Receive(s, incoming, env).0 == s
  {
  }

  // ---- Bounded repetition ----

  function EofCount(ms: seq<Message>): nat
    decreases |ms|
  {
    if ms == [] then 0 else EofCount(ms[..|ms| - 1]) + if ms[|ms| - 1].body.Eof? then 1 else 0
  }

  lemma EofCountAppend(ms: seq<Message>, m: Message)
    ensures EofCount(ms + [m]) == EofCount(ms) + if m.body.Eof? then 1 else 0
  {
  }

  lemma {:induction false} EofCountNone(ms: seq<Message>, more: seq<Message>)
    requires forall i :: 0 <= i < |more| ==> !more[i].body.Eof?
    ensures EofCount(ms + more) == EofCount(ms)
    decreases |more|
  {
    if more == [] {
      assert ms + more == ms;
    } else {
      var init, last := more[..|more| - 1], more[|more| - 1];
      EofCountNone(ms, init);
      assert ms + more == ms + init + [last];
      EofCountAppend(ms + init, last);
    }
  }

  /** What an acknowledged transaction that started with `base` messages in the outbox keeps true. */
  predicate Bounded(s: Sender, base: nat) {
    && base <= |s.out|
    && EofCount(s.out[base..]) <= 1 + 2 * s.cfg.maxRounds
    && (s.slot.active ==>
          && s.slot.acknowledged && s.slot.handleOpen && !s.slot.finishedReceived
          && s.slot.nakRounds <= s.cfg.maxRounds && s.slot.retries <= s.cfg.maxRounds
          && EofCount(s.out[base..]) <= 1 + s.slot.nakRounds + s.slot.retries)
  }

  lemma SinceAppend(out: seq<Message>, base: nat, more: seq<Message>)
    requires base <= |out|
    ensures (out + more)[base..] == out[base..] + more
  {
  }

  lemma EofCountSent(s: Sender, m: Message, env: Env, base: nat)
    requires base <= |s.out|
    ensures var r := Send(s, m, env).0;
            base <= |r.out| && EofCount(r.out[base..]) <= EofCount(s.out[base..]) + (if m.body.Eof? then 1 else 0)
  {
    SinceAppend(s.out, base, [m]);
    EofCountAppend(s.out[base..], m);
  }

  lemma EofCountSegments(s: Sender, r: Sender, base: nat)
    requires base <= |s.out| && OnlyEmitted(s, r) && Segments(s, Added(s, r))
    ensures EofCount(r.out[base..]) == EofCount(s.out[base..])
  {
    assert r.out == s.out + Added(s, r);
    SinceAppend(s.out, base, Added(s, r));
    EofCountNone(s.out[base..], Added(s, r));
  }

  /** send_file in acknowledged mode emits at most one EOF. */
  lemma PutBounded(s: Sender, request: PutRequest, env: Env)
    requires !s.slot.active && request.acknowledged
    ensures Bounded(SendFile(s, request, env).0, |s.out|)
    ensures SendFile(s, request, env).0.slot.active ==> SendFile(s, request, env).0.slot.retries == 0
  {
    var base := |s.out|;
    var r := SendFile(s, request, env).0;
    assert s.out[base..] == [];
    if RequestValid(s.cfg, request) && Supported(request.kind) && env.open.Ok? && |env.open.value| < U32 {
      var a := Activate(s, request);
      var b := a.(slot := a.slot.(handleOpen := true, file := env.open.value));
      TransmitEmitted(b, request, env);
      var c := Send(b, MetadataMessage(b, request), env);
      EofCountSent(b, MetadataMessage(b, request), env, base);
      if c.1 == OK {
        SegmentsEmitted(c.0, 0, |c.0.slot.file|, env);
        var d := SendSegments(c.0, 0, |c.0.slot.file|, env);
        EofCountSegments(c.0, d.0, base);
        if d.1 == OK {
          var e := d.0.(slot := d.0.slot.(eofChecksum := WholeFile(s.cfg.lib, request.kind, d.0.slot.file)));
          EofCountSent(e, EofMessage(e), env, base);
        }
      }
    }
  }

  lemma NakBounded(s: Sender, h: Header, body: Body, env: Env, base: nat)
    requires body.Nak? && Bounded(s, base)
    ensures Bounded(HandleNak(s, h, body, env).0, base)
    ensures HandleNak(s, h, body, env).0.slot.active ==> HandleNak(s, h, body, env).0.slot.retries == s.slot.retries
  {
    if Matches(s, h) && !h.unacknowledged {
      var a := s.(slot := s.slot.(nakRounds := s.slot.nakRounds + 1));
      RetransmitEmitted(a, body.ranges, env);
      var b := Retransmit(a, body.ranges, env).0;
      EofCountSegments(a, b, base);
      EofCountSent(b, EofMessage(b), env, base);
    }
  }

  lemma ArriveBounded(s: Sender, incoming: Incoming, env: Env, base: nat)
    requires Bounded(s, base)
    ensures Bounded(Receive(s, incoming, env).0, base)
    ensures Receive(s, incoming, env).0.slot.active ==> Receive(s, incoming, env).0.slot.retries == s.slot.retries
  {
    if incoming.Decodable? {
      var h, body := incoming.header, incoming.body;
      if body.Nak? {
        NakBounded(s, h, body, env, base);
      } else if body.Finished? {
        var a := s.(slot := s.slot.(finishedReceived := true));
        EofCountSent(a, AckFinishedMessage(a, body.condition), env, base);
      }
    }
  }

  lemma TickBounded(s: Sender, now: nat, env: Env, base: nat)
    requires Bounded(s, base)
    ensures Bounded(Poll(s, now, env), base)
    ensures Poll(s, now, env).slot.active ==>
              Poll(s, now, env).slot.retries == s.slot.retries + if PollDue(s, now) then 1 else 0
  {
    EofCountSent(s, EofMessage(s), env, base);
  }

  predicate NoNewPut(inputs: seq<Input>) {
    forall i :: 0 <= i < |inputs| ==> !inputs[i].Put?
  }

  /** How many of the first n inputs are polls that found the retry timer due. */
  function DuePolls(s: Sender, inputs: seq<Input>, n: nat): nat
    requires n <= |inputs|
  {
    if n == 0 then 0
    else
      var input := inputs[n - 1];
      DuePolls(s, inputs, n - 1)
      + if input.Tick? && PollDue(Run(s, inputs, n - 1), input.now) then 1 else 0
  }

  /** One PDU or poll: the bound is kept, a due poll is counted, and a released slot stays released. */
  lemma BoundedStep(s: Sender, input: Input, base: nat)
    requires !input.Put? && Bounded(s, base)
    ensures Bounded(Step(s, input), base) && Step(s, input).cfg == s.cfg
    ensures Step(s, input).slot.active ==>
              s.slot.active
              && Step(s, input).slot.retries == s.slot.retries + if input.Tick? && PollDue(s, input.now) then 1 else 0
  {
    if input.Arrive? {
      ArriveBounded(s, input.incoming, input.env, base);
      ArriveMoves(s, input.incoming, input.env);
      ArriveKeeps(s, input.incoming, input.env);
    } else {
      TickBounded(s, input.now, input.env, base);
    }
  }

  lemma {:induction false} BoundedRun(s: Sender, inputs: seq<Input>, n: nat, base: nat)
    requires n <= |inputs| && NoNewPut(inputs) && Bounded(s, base) && (s.slot.active ==> s.slot.retries == 0)
    ensures Bounded(Run(s, inputs, n), base) && Run(s, inputs, n).cfg == s.cfg
    ensures Run(s, inputs, n).slot.active ==> Run(s, inputs, n).slot.retries == DuePolls(s, inputs, n)
  {
    if n > 0 {
      BoundedRun(s, inputs, n - 1, base);
      BoundedStep(Run(s, inputs, n - 1), inputs[n - 1], base);
    }
  }

  lemma ArriveKeeps(s: Sender, incoming: Incoming, env: Env)
    ensures var r := Receive(s, incoming, env).0;
            r.cfg == s.cfg && r.ids == s.ids && r.nextSeqno == s.nextSeqno && s.out <= r.out
  {
    if incoming.Decodable? && incoming.body.Nak? {
      RetransmitEmitted(s.(slot := s.slot.(nakRounds := s.slot.nakRounds + 1)), incoming.body.ranges, env);
    }
  }

  lemma PutKeeps(s: Sender, request: PutRequest, env: Env)
    ensures var r := SendFile(s, request, env).0;
            r.cfg == s.cfg && r.ids == s.ids && s.out <= r.out
  {
    var a := Activate(s, request);
    if env.open.Ok? {
      TransmitEmitted(a.(slot := a.slot.(handleOpen := true, file := env.open.value)), request, env);
    }
  }

  /**
    After an acknowledged send_file, whatever PDUs and polls follow, the transaction emits at
    most 1 + 2 * maxRounds EOF PDUs, and its (maxRounds + 1)-th due poll finds or leaves it released.
   */
  lemma BoundedSender(s: Sender, request: PutRequest, env: Env, inputs: seq<Input>)
    requires !s.slot.active && request.acknowledged && NoNewPut(inputs)
    ensures var started := SendFile(s, request, env).0;
            var final := Run(started, inputs, |inputs|);
            && |s.out| <= |final.out|
            && EofCount(final.out[|s.out|..]) <= 1 + 2 * s.cfg.maxRounds
            && (DuePolls(started, inputs, |inputs|) > s.cfg.maxRounds ==> !final.slot.active)
  {
    var started := SendFile(s, request, env).0;
    PutBounded(s, request, env);
    PutKeeps(s, request, env);
    BoundedRun(started, inputs, |inputs|, |s.out|);
  }
}
