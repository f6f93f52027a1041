/**
  That transfers complete when nothing is lost: from any reached state in which both slots are
  free, the run that puts a file and then delivers everything emitted, in order, ends with the
  committed file at the receiver, and in acknowledged mode with COMPLETE at the sender, exactly
  when the file is not empty.
 */
module CfdpCompletion {
  import opened CfdpTypes
  import opened CfdpRanges
  import opened CfdpChecksum
  import opened CfdpPdu
  import opened CfdpCore
  import opened CfdpSystem
  import opened CfdpRecovery
  import opened CfdpExchange
  import S = CfdpSender
  import SR = CfdpSenderRuns
  import R = CfdpReceiver
  import RR = CfdpReceiverRuns
  import D = CfdpDelivery

  /** send_file, and everything it emitted to the receiver. */
  function Transfer(sys: System, request: S.PutRequest, put: S.Env, renv: nat -> R.Env): System {
    var s1 := PutFile(sys, request, put);
    ToB(s1, |sys.a.out|, |s1.a.out|, renv)
  }

  /** Then every reply to the sender, and its answers to the receiver. */
  function Exchange(sys: System, request: S.PutRequest, put: S.Env, senv: nat -> S.Env, renv: nat -> R.Env): System {
    var s2 := Transfer(sys, request, put, renv);
    var s3 := ToA(s2, |sys.b.out|, |s2.b.out|, senv);
    ToB(s3, |s2.a.out|, |s3.a.out|, renv)
  }

  lemma TransferReached(sys: System, request: S.PutRequest, put: S.Env, renv: nat -> R.Env)
    requires Reached(sys)
    ensures Reached(Transfer(sys, request, put, renv))
  {
    var s1 := PutFile(sys, request, put);
    PutReached(sys, request, put);
    ToBReached(s1, |sys.a.out|, |s1.a.out|, renv);
  }

  lemma ExchangeReached(sys: System, request: S.PutRequest, put: S.Env, senv: nat -> S.Env, renv: nat -> R.Env)
    requires Reached(sys)
    ensures Reached(Exchange(sys, request, put, senv, renv))
  {
    var s2 := Transfer(sys, request, put, renv);
    TransferReached(sys, request, put, renv);
    var s3 := ToA(s2, |sys.b.out|, |s2.b.out|, senv);
    ToAReached(s2, |sys.b.out|, |s2.b.out|, senv);
    ToBReached(s3, |s2.a.out|, |s3.a.out|, renv);
  }

  // ---- The phases ----

  /** Where the theorems start: both slots free, room for the PDUs, an environment that works, and a new number. */
  ghost predicate Setting(sys: System, request: S.PutRequest, put: S.Env, file: seq<byte>) {
    && Wired(sys) && RR.Inv(sys.b) && !sys.b.slot.active && |sys.sources| < Modulus(sys) && Sends(sys.a, request, put, file)
    && Roomy(sys.b.cfg, sys.b.ids) && sys.b.cfg.lim.maxNakRanges >= 1
  }

  lemma ReachedInv(sys: System)
    requires Reached(sys)
    ensures SysInv(sys)
  {
    var states, actions :| IsRun(states, actions) && states[|actions|] == sys;
    D.RunKeepsInv(states, actions, |actions|);
  }

  function SourceFor(request: S.PutRequest, file: seq<byte>): Source {
    Source(file, request.kind, request.destPath, request.acknowledged)
  }

  /** The sender that emitted Metadata, segments and EOF, as it was while it emitted them. */
  ghost predicate Emitter(sys: System, s: S.Sender, request: S.PutRequest, file: seq<byte>, segs: seq<Message>) {
    && s.out == sys.a.out + ([S.MetadataMessage(s, request)] + segs + [S.EofMessage(s)])
    && SR.Segments(s, segs) && SR.Tiles(segs, 0, |file|)
    && Addressed(s) && s.slot.active && s.slot.file == file && s.slot.id == TxnId(sys.a.ids.local, sys.a.nextSeqno)
    && s.slot.acknowledged == request.acknowledged
    && s.cfg == sys.a.cfg && s.ids == sys.a.ids && s.trace == sys.a.trace + [Activated(s.slot.id)]
    && s.slot.eofChecksum == WholeFile(s.cfg.lib, request.kind, file) && s.slot.retries == 0 && !s.slot.finishedReceived
    && s.slot.handleOpen && s.slot.nakRounds == 0
  }

  /** How an unacknowledged send_file ends. */
  function PutStatus(request: S.PutRequest, put: S.Env): Status {
    if request.closure && put.clock.Some? then InactivityDetected else OK
  }

  lemma OutOf(out: seq<Message>, first: Message, segs: seq<Message>, last: Message)
    ensures out + [first] + segs + [last] == out + ([first] + segs + [last])
  {
  }

  lemma TransmittedEmits(sys: System, request: S.PutRequest, file: seq<byte>, segs: seq<Message>, deadline: nat, s: S.Sender)
    requires SR.Segments(Started(sys.a, request, file), segs) && SR.Tiles(segs, 0, |file|)
    requires var t := Transmitted(sys.a, request, file, segs); s == t.(slot := t.slot.(retries := 0, deadline := deadline))
    ensures Emitter(sys, s, request, file, segs)
  {
    var b := Started(sys.a, request, file);
    assert S.MetadataMessage(s, request) == S.MetadataMessage(b, request);
    OutOf(sys.a.out, S.MetadataMessage(b, request), segs, S.EofMessage(s));
    forall i | 0 <= i < |segs| ensures SR.Segment(s, segs[i]) {
      assert SR.Segment(b, segs[i]);
    }
  }

  lemma PutPhase(sys: System, request: S.PutRequest, put: S.Env, file: seq<byte>) returns (segs: seq<Message>, s: S.Sender)
    requires Setting(sys, request, put, file)
    ensures PutFile(sys, request, put)
         == sys.(a := if request.acknowledged then s else S.Release(s, PutStatus(request, put)),
                 sources := sys.sources + [SourceFor(request, file)])
    ensures Emitter(sys, s, request, file, segs)
    ensures request.acknowledged ==> s.slot.deadline == ArmRetry(s.cfg, S.Now(put))
  {
    segs := PutSucceeds(sys.a, request, put, file);
    var t := Transmitted(sys.a, request, file, segs);
    var deadline := if request.acknowledged then ArmRetry(sys.a.cfg, S.Now(put)) else t.slot.deadline;
    s := t.(slot := t.slot.(retries := 0, deadline := deadline));
    TransmittedEmits(sys, request, file, segs, deadline, s);
  }

  lemma OutEncodes(sys: System, k: nat, n: nat, ms: seq<Message>)
    requires Tidy(sys) && k <= n <= |sys.a.out| && sys.a.out[k..n] == ms
    ensures forall i :: 0 <= i < |ms| ==> sys.a.cfg.encoder(ms[i]).Ok?
  {
    forall i | 0 <= i < |ms| ensures sys.a.cfg.encoder(ms[i]).Ok? {
      assert ms[i] == sys.a.out[k + i];
    }
  }

  /** Metadata and all segments reach the receiver. */
  lemma DataPhase(
    sys: System, s: S.Sender, request: S.PutRequest, segs: seq<Message>, ms: seq<Message>, k: nat, n: nat, env: nat -> R.Env)
    returns (q: R.Receiver)
    requires Tidy(sys) && Ready(s, sys.b, request) && (forall i :: Cooperates(env(i))) && s.cfg == sys.a.cfg
    requires SR.Segments(s, segs) && SR.Tiles(segs, 0, |s.slot.file|)
    requires k <= n <= |sys.a.out| && sys.a.out[k..n] == ms && ms == [S.MetadataMessage(s, request)] + segs
    ensures ToB(sys, k, n, env) == sys.(b := Held(q, s.slot.file, |s.slot.file|)) && RR.Inv(Held(q, s.slot.file, |s.slot.file|))
    ensures Fresh(sys.b, q, s.slot.id, request, s.slot.file) && CanReply(q)
  {
    ToBKeepsTidy(sys, k, n, env);
    OutEncodes(sys, k, n, ms);
    ToBTakes(sys, k, n, env, ms);
    q := ReceiverTakes(s, sys.b, request, segs, k, env);
  }

  /** One EOF reaches a receiver that holds the whole file. */
  lemma EofPhase(sys: System, s: S.Sender, r: R.Receiver, q: R.Receiver, request: S.PutRequest, k: nat, env: nat -> R.Env)
    returns (t: R.Receiver)
    requires Tidy(sys) && Ready(s, r, request) && Cooperates(env(k)) && s.cfg == sys.a.cfg && r.cfg == sys.b.cfg
    requires Fresh(r, q, s.slot.id, request, s.slot.file) && CanReply(q) && sys.b == Held(q, s.slot.file, |s.slot.file|)
    requires k < |sys.a.out| && sys.a.out[k] == S.EofMessage(s)
    ensures ToB(sys, k, k + 1, env) == sys.(b := t)
    ensures EndsAs(q, t, request, s.slot.file)
  {
    assert ToB(sys, k, k + 1, env) == HandOver(sys, k, env(k));
    t := HandOver(sys, k, env(k)).b;
    ReceiverEnds(s, r, q, request, Parse(r.cfg.lim, s.cfg.encoder(S.EofMessage(s)).value), k, env);
  }

  /** A reply reaches the sender, the Finished among them, and COMPLETE follows. */
  lemma ReplyPhase(sys: System, before: seq<Message>, q: R.Receiver, env: nat -> S.Env)
    requires Opposite(sys.a, q) && q.cfg == sys.b.cfg && forall i :: Accepts(env(i))
    requires sys.b.out == before + [R.AckEofMessage(q, NO_ERROR), R.FinishedMessage(q, OK)]
    ensures ToA(sys, |before|, |sys.b.out|, env)
         == sys.(a := S.Release(sys.a.(out := sys.a.out + [S.AckFinishedMessage(sys.a, NO_ERROR)]), OK))
    ensures sys.a.cfg.encoder(S.AckFinishedMessage(sys.a, NO_ERROR)).Ok?
  {
    var ms := [R.AckEofMessage(q, NO_ERROR), R.FinishedMessage(q, OK)];
    SenderTakes(sys.a, q, |before|, env);
    assert sys.b.out[|before|..|sys.b.out|] == ms;
    ToAGives(sys, |before|, |sys.b.out|, env, ms);
  }

  /** The acknowledgement of Finished reaches the receiver. */
  lemma AckPhase(sys: System, s: S.Sender, env: nat -> R.Env)
    requires Paired(s, sys.b) && Addressed(s) && s.slot.acknowledged
    requires sys.b.slot.active && sys.b.slot.id == s.slot.id && sys.b.slot.finishedStatus == OK
    requires RR.Inv(sys.b) && s.cfg == sys.a.cfg && s.cfg.encoder(S.AckFinishedMessage(s, NO_ERROR)).Ok?
    requires sys.a.out == s.out + [S.AckFinishedMessage(s, NO_ERROR)]
    ensures ToB(sys, |s.out|, |sys.a.out|, env) == sys.(b := R.Release(sys.b, OK))
  {
    var m := S.AckFinishedMessage(s, NO_ERROR);
    assert sys.a.out[|s.out|..|sys.a.out|] == [m];
    ToBTakes(sys, |s.out|, |sys.a.out|, env, [m]);
    AckTaken(s, sys.b, |s.out|, env);
  }

  /** The replies, and the acknowledgement that answers them. */
  lemma ClosingPhases(sys: System, before: seq<Message>, q: R.Receiver, file: seq<byte>, senv: nat -> S.Env, renv: nat -> R.Env)
    requires Tidy(sys) && Opposite(sys.a, q) && Addressed(sys.a) && q.out == before && Reported(q, sys.b, file)
    requires forall i :: Accepts(senv(i))
    ensures var s3 := ToA(sys, |before|, |sys.b.out|, senv);
            ToB(s3, |sys.a.out|, |s3.a.out|, renv)
            == sys.(a := S.Release(sys.a.(out := sys.a.out + [S.AckFinishedMessage(sys.a, NO_ERROR)]), OK),
                    b := R.Release(sys.b, OK))
  {
    ReplyPhase(sys, before, q, senv);
    AckPhase(ToA(sys, |before|, |sys.b.out|, senv), sys.a, renv);
  }

  // ---- Nothing is lost ----

  lemma PutIsTidy(sys: System, request: S.PutRequest, put: S.Env)
    requires SysInv(sys)
    ensures Tidy(PutFile(sys, request, put))
  {
    PutFileKeepsInv(sys, request, put);
    InvIsTidy(PutFile(sys, request, put));
  }

  /** After Transfer: the receiver has taken Metadata, the segments and EOF. */
  lemma TransferTakes(sys: System, request: S.PutRequest, put: S.Env, renv: nat -> R.Env, file: seq<byte>)
    returns (s: S.Sender, q: R.Receiver, s2: System)
    requires SysInv(sys) && Setting(sys, request, put, file) && file != [] && forall i :: Cooperates(renv(i))
    ensures s2 == Transfer(sys, request, put, renv) && Tidy(s2) && s2.first == sys.first
    ensures s2.a == (if request.acknowledged then s else S.Release(s, PutStatus(request, put)))
    ensures s.cfg == sys.a.cfg && s.ids == sys.a.ids && s.slot.id == TxnId(sys.a.ids.local, sys.a.nextSeqno)
    ensures s.trace == sys.a.trace + [Activated(s.slot.id)]
    ensures Fresh(sys.b, q, s.slot.id, request, file)
    ensures if request.acknowledged then Opposite(s, q) && Addressed(s) && Reported(q, s2.b, file) else SlotFreed(q, s2.b, file)
  {
    var segs: seq<Message>;
    segs, s := PutPhase(sys, request, put, file);
    var s1 := PutFile(sys, request, put);
    PutIsTidy(sys, request, put);
    var t: R.Receiver;
    q, t := AllTaken(sys, s1, s, request, segs, renv, file);
    s2 := Transfer(sys, request, put, renv);
    ToBKeepsTidy(s1, |sys.a.out|, |s1.a.out|, renv);
  }

  /** The system after send_file, with the emitter that its messages come from. */
  ghost predicate PutDone(sys: System, s1: System, s: S.Sender, request: S.PutRequest, segs: seq<Message>, file: seq<byte>) {
    && Tidy(s1) && s1.b == sys.b && s1.a.out == s.out && s1.a.cfg == s.cfg && file != []
    && Ready(s, sys.b, request) && Emitter(sys, s, request, file, segs)
  }

  /** Everything but the EOF is delivered: the receiver holds the whole file. */
  lemma FileTaken(
    sys: System, s1: System, s: S.Sender, n: nat, request: S.PutRequest, segs: seq<Message>, renv: nat -> R.Env, file: seq<byte>)
    returns (q: R.Receiver)
    requires PutDone(sys, s1, s, request, segs, file) && (forall i :: Cooperates(renv(i))) && n + 1 == |s1.a.out|
    ensures ToB(s1, |sys.a.out|, n, renv) == s1.(b := Held(q, file, |file|)) && RR.Inv(Held(q, file, |file|))
    ensures Fresh(sys.b, q, s.slot.id, request, file) && CanReply(q)
  {
    var k, ms := |sys.a.out|, [S.MetadataMessage(s, request)] + segs;
    OutCut(sys.a.out, ms, S.EofMessage(s), s1.a.out, k, n);
    q := DataPhase(s1, s, request, segs, ms, k, n, renv);
  }

  lemma AllTaken(sys: System, s1: System, s: S.Sender, request: S.PutRequest, segs: seq<Message>, renv: nat -> R.Env, file: seq<byte>)
    returns (q: R.Receiver, t: R.Receiver)
    requires PutDone(sys, s1, s, request, segs, file) && forall i :: Cooperates(renv(i))
    ensures ToB(s1, |sys.a.out|, |s1.a.out|, renv) == s1.(b := t)
    ensures EndsAs(q, t, request, file)
    ensures Fresh(sys.b, q, s.slot.id, request, file) && CanReply(q)
  {
    var ms := [S.MetadataMessage(s, request)] + segs + [S.EofMessage(s)];
    assert s1.a.out[|sys.a.out|..|s1.a.out|] == ms;
    OutEncodes(s1, |sys.a.out|, |s1.a.out|, ms);
    ToBTakes(s1, |sys.a.out|, |s1.a.out|, renv, ms);
    q, t := ReceiverTakesAll(s, sys.b, request, segs, ms, |sys.a.out|, renv);
  }

  lemma OutCut(before: seq<Message>, ms: seq<Message>, last: Message, out: seq<Message>, k: nat, n: nat)
    requires out == before + (ms + [last]) && k == |before| && n + 1 == |out|
    ensures k <= n && out[k..n] == ms
  {
  }

  /** Both slots are free again, and what each side reported. */
  predicate Succeeded(sys: System, end: System, id: TxnId, destPath: seq<byte>, file: seq<byte>) {
    && !end.a.slot.active && !end.b.slot.active && end.first == sys.first && end.a.ids == sys.a.ids
    && end.a.trace == sys.a.trace + [Activated(id)] + [Terminal(id, OK)]
    && end.b.trace == sys.b.trace + [Activated(id)] + [Committed(id, destPath, file)] + [Terminal(id, OK)]
  }

  /** With nothing lost, the acknowledged transfer of a nonempty file succeeds on both sides. */
  lemma NonemptySucceeds(sys: System, request: S.PutRequest, put: S.Env, senv: nat -> S.Env, renv: nat -> R.Env, file: seq<byte>)
    requires SysInv(sys) && Setting(sys, request, put, file) && request.acknowledged && file != []
    requires (forall i :: Accepts(senv(i))) && forall i :: Cooperates(renv(i))
    ensures var id := TxnId(sys.a.ids.local, sys.a.nextSeqno);
            Succeeded(sys, Exchange(sys, request, put, senv, renv), id, request.destPath, file)
  {
    var s, q, s2 := TransferTakes(sys, request, put, renv, file);
    ClosingPhases(s2, sys.b.out, q, file, senv, renv);
  }

  lemma {:induction false} ToBKeepsSources(sys: System, k: nat, n: nat, env: nat -> R.Env)
    ensures ToB(sys, k, n, env).sources == sys.sources
    decreases n - k
  {
    if k < n {
      ToBKeepsSources(HandOver(sys, k, env(k)), k + 1, n, env);
    }
  }

  lemma {:induction false} ToAKeepsSources(sys: System, k: nat, n: nat, env: nat -> S.Env)
    ensures ToA(sys, k, n, env).sources == sys.sources
    decreases n - k
  {
    if k < n {
      ToAKeepsSources(HandBack(sys, k, env(k)), k + 1, n, env);
    }
  }

  lemma TransferSources(sys: System, request: S.PutRequest, put: S.Env, renv: nat -> R.Env, file: seq<byte>)
    requires Setting(sys, request, put, file)
    ensures Transfer(sys, request, put, renv).sources == sys.sources + [SourceFor(request, file)]
  {
    var segs, s := PutPhase(sys, request, put, file);
    var s1 := PutFile(sys, request, put);
    ToBKeepsSources(s1, |sys.a.out|, |s1.a.out|, renv);
  }

  lemma ExchangeSources(sys: System, request: S.PutRequest, put: S.Env, senv: nat -> S.Env, renv: nat -> R.Env, file: seq<byte>)
    requires Setting(sys, request, put, file)
    ensures Exchange(sys, request, put, senv, renv).sources == sys.sources + [SourceFor(request, file)]
  {
    TransferSources(sys, request, put, renv, file);
    var s2 := Transfer(sys, request, put, renv);
    ToAKeepsSources(s2, |sys.b.out|, |s2.b.out|, senv);
    var s3 := ToA(s2, |sys.b.out|, |s2.b.out|, senv);
    ToBKeepsSources(s3, |s2.a.out|, |s3.a.out|, renv);
  }

  lemma SuccessCompletes(sys: System, end: System, request: S.PutRequest, file: seq<byte>)
    requires SysInv(sys) && end.sources == sys.sources + [SourceFor(request, file)]
    requires Succeeded(sys, end, TxnId(sys.a.ids.local, sys.a.nextSeqno), request.destPath, file)
    ensures Terminal(NumberOf(end, |sys.sources|), OK) in end.a.trace && D.CommittedCopy(end, |sys.sources|)
  {
    var id := TxnId(sys.a.ids.local, sys.a.nextSeqno);
    assert NumberOf(end, |sys.sources|) == id;
    assert end.a.trace[|sys.a.trace| + 1] == Terminal(id, OK);
    assert end.b.trace[|sys.b.trace| + 1] == Committed(id, request.destPath, file);
  }

  lemma EmptyFails(end: System, i: nat)
    requires Reached(end) && i < |end.sources| && end.sources[i].file == [] && end.sources[i].acknowledged
    ensures Terminal(NumberOf(end, i), OK) !in end.a.trace
  {
    var states, actions :| IsRun(states, actions) && states[|actions|] == end;
    D.EmptyFileNeverCompletes(states, actions, |actions|, i);
  }

  /**
    From any reached state with both slots free, with environments that work and buffers and
    identifiers that fit: an acknowledged send_file and the in-order delivery of everything both
    sides emit is a run, and it ends with COMPLETE at the sender and a committed copy at the
    receiver exactly when the file is not empty.
   */
  lemma CompletesExactly(
    sys: System, request: S.PutRequest, put: S.Env, senv: nat -> S.Env, renv: nat -> R.Env, file: seq<byte>, end: System)
    requires Reached(sys) && Setting(sys, request, put, file) && request.acknowledged
    requires end == Exchange(sys, request, put, senv, renv)
    requires (forall i :: Accepts(senv(i))) && forall i :: Cooperates(renv(i))
    ensures Reached(end) && end.sources == sys.sources + [SourceFor(request, file)]
    ensures Terminal(NumberOf(end, |sys.sources|), OK) in end.a.trace && D.CommittedCopy(end, |sys.sources|) <==> file != []
  {
    ReachedInv(sys);
    ExchangeReached(sys, request, put, senv, renv);
    ExchangeSources(sys, request, put, senv, renv, file);
    if file == [] {
      EmptyFails(end, |sys.sources|);
    } else {
      NonemptySucceeds(sys, request, put, senv, renv, file);
      SuccessCompletes(sys, end, request, file);
    }
  }

  // ---- Unacknowledged mode ----

  /** Both slots are free after the transfer alone; the sender's status says whether it expected closure. */
  predicate Passed(sys: System, end: System, id: TxnId, status: Status, destPath: seq<byte>, file: seq<byte>) {
    && !end.a.slot.active && !end.b.slot.active && end.first == sys.first && end.a.ids == sys.a.ids
    && end.a.trace == sys.a.trace + [Activated(id)] + [Terminal(id, status)]
    && end.b.trace == sys.b.trace + [Activated(id)] + [Committed(id, destPath, file)] + [Terminal(id, OK)]
  }

  lemma UnacknowledgedSucceeds(sys: System, request: S.PutRequest, put: S.Env, renv: nat -> R.Env, file: seq<byte>)
    requires SysInv(sys) && Setting(sys, request, put, file) && !request.acknowledged && file != [] && forall i :: Cooperates(renv(i))
    ensures var id := TxnId(sys.a.ids.local, sys.a.nextSeqno);
            Passed(sys, Transfer(sys, request, put, renv), id, PutStatus(request, put), request.destPath, file)
  {
    var s, q, s2 := TransferTakes(sys, request, put, renv, file);
  }

  lemma EmptyUncommitted(end: System, i: nat)
    requires Reached(end) && i < |end.sources| && end.sources[i].file == []
    ensures !D.CommittedCopy(end, i)
  {
    ReachedInv(end);
  }

  /**
    The same of an unacknowledged transfer: send_file and the in-order delivery of what it emitted
    is a run, and it commits a copy at the receiver exactly when the file is not empty.
   */
  lemma UnacknowledgedExactly(
    sys: System, request: S.PutRequest, put: S.Env, renv: nat -> R.Env, file: seq<byte>, end: System)
    requires Reached(sys) && Setting(sys, request, put, file) && !request.acknowledged
    requires end == Transfer(sys, request, put, renv)
    requires forall i :: Cooperates(renv(i))
    ensures Reached(end) && end.sources == sys.sources + [SourceFor(request, file)]
    ensures D.CommittedCopy(end, |sys.sources|) <==> file != []
  {
    ReachedInv(sys);
    TransferReached(sys, request, put, renv);
    TransferSources(sys, request, put, renv, file);
    if file == [] {
      EmptyUncommitted(end, |sys.sources|);
    } else {
      UnacknowledgedSucceeds(sys, request, put, renv, file);
      var id := TxnId(sys.a.ids.local, sys.a.nextSeqno);
      assert NumberOf(end, |sys.sources|) == id;
      assert end.b.trace[|sys.b.trace| + 1] == Committed(id, request.destPath, file);
    }
  }

  // ---- Such transfers exist ----

  /** Two entities numbered 1 and 2 with small buffers, before anything was sent. */
  function Start(lib: CrcLibrary): System {
    var cfg := WithCodec(lib, Limits(8, 8, 64, 8), 512, 128, 3, 1000);
    System(S.Sender(cfg, Ids(1, 2, 1, 2), 0, S.IDLE, [], []), R.Receiver(cfg, Ids(2, 1, 1, 2), R.IDLE, [], [], [], []), 0, [])
  }

  const REQUEST := S.PutRequest([97], [98], Crc32c, false, true)

  /** For every file below 2^32 bytes, they meet what the theorems ask. */
  lemma SettingMet(lib: CrcLibrary, file: seq<byte>, put: S.Env)
    requires |file| < U32 && Accepts(put) && put.open == Ok(file)
    ensures Reached(Start(lib)) && Setting(Start(lib), REQUEST, put, file)
  {
    var sys := Start(lib);
    var states, actions: seq<Action> := [sys], [];
    assert IsRun(states, actions) && states[|actions|] == sys;
    ReachedInv(sys);
    Pow256Values();
  }

  const ALL_READ: Reader := (offset, len) => Ok(len)

  /** The conclusion of the theorem is reached for every nonempty file. */
  lemma EveryFileTransfers(lib: CrcLibrary, file: seq<byte>)
    requires 0 < |file| < U32
    ensures exists sys :: Reached(sys) && sys.sources == [Source(file, Crc32c, [98], true)] && D.CommittedCopy(sys, 0)
                          && Terminal(NumberOf(sys, 0), OK) in sys.a.trace
  {
    var put := S.Env(Ok(file), ALL_READ, (k: nat) => true, None);
    var serve := R.Env(true, true, ALL_READ, true, true, true, true, true, 0);
    var senv, renv := (k: nat) => put, (k: nat) => serve;
    SettingMet(lib, file, put);
    var end := Exchange(Start(lib), REQUEST, put, senv, renv);
    CompletesExactly(Start(lib), REQUEST, put, senv, renv, file, end);
  }
}
