/** End-to-end delivery: every action keeps the system invariant, so it holds in every run. */
module CfdpDelivery {
  import opened CfdpTypes
  import opened CfdpRanges
  import opened CfdpChecksum
  import opened CfdpPdu
  import opened CfdpCore
  import opened CfdpSystem
  import S = CfdpSender
  import SR = CfdpSenderRuns
  import R = CfdpReceiver
  import RR = CfdpReceiverRuns
  import Q = CfdpReplies

  // ---- Facts about the past stay true ----

  ghost predicate Extends(sys: System, q: System) {
    && q.a.cfg == sys.a.cfg && q.a.ids == sys.a.ids && q.b.cfg == sys.b.cfg && q.b.ids == sys.b.ids
    && q.first == sys.first && sys.sources <= q.sources && sys.b.trace <= q.b.trace
  }

  lemma DeliveredGrows(sys: System, q: System, e: Effect)
    requires Extends(sys, q) && Delivered(sys, e)
    ensures Delivered(q, e)
  {
  }

  lemma CompletedGrows(sys: System, q: System, e: Effect)
    requires Extends(sys, q) && Completed(sys, e)
    ensures Completed(q, e)
  {
  }

  /** What the receiving half of the invariant says survives any step of the sender, and conversely. */
  lemma ReceiverHalf(sys: System, q: System)
    requires SysInv(sys) && Extends(sys, q) && q.b == sys.b
    ensures PartialHonest(q)
    ensures forall k :: 0 <= k < |q.b.out| ==> ReplyHonest(q, q.b.out[k])
    ensures forall k :: 0 <= k < |q.b.trace| ==> Delivered(q, q.b.trace[k])
  {
  }

  lemma SenderHalf(sys: System, q: System)
    requires SysInv(sys) && Extends(sys, q) && q.a == sys.a
    ensures SlotHonest(q)
    ensures forall k :: 0 <= k < |q.a.out| ==> Honest(q, q.a.out[k])
    ensures forall k :: 0 <= k < |q.a.trace| ==> Completed(q, q.a.trace[k])
  {
  }

  // ---- Steps of the sender ----

  lemma EmitsHonest(sys: System, q: System, i: nat, id: TxnId)
    requires SysInv(sys) && Extends(sys, q) && IsSource(q, i, id) && Emits(sys.a, q.a, id, q.sources[i])
    ensures forall k :: 0 <= k < |q.a.out| ==> Honest(q, q.a.out[k])
  {
  }

  lemma PutCompleted(sys: System, q: System, request: S.PutRequest)
    requires SysInv(sys) && Extends(sys, q) && |q.sources| == |sys.sources| + 1 && sys.a.trace <= q.a.trace
    requires q.sources[|sys.sources|].acknowledged == request.acknowledged
    requires forall k :: |sys.a.trace| <= k < |q.a.trace| ==>
                           q.a.trace[k].id == NumberOf(q, |sys.sources|)
                           && (q.a.trace[k].Terminal? && q.a.trace[k].status == OK ==> !request.acknowledged)
    ensures forall k :: 0 <= k < |q.a.trace| ==> Completed(q, q.a.trace[k])
  {
  }

  /** The system after a transaction was started. */
  lemma StartedKeepsInv(sys: System, q: System, request: S.PutRequest, src: Source)
    requires SysInv(sys) && q == sys.(a := q.a, sources := sys.sources + [src]) && |q.sources| <= Modulus(sys)
    requires src.acknowledged == request.acknowledged && sys.a.trace <= q.a.trace
    requires Emits(sys.a, q.a, TxnId(sys.a.ids.local, sys.a.nextSeqno), src)
    requires q.a.cfg == sys.a.cfg && q.a.ids == sys.a.ids && q.a.nextSeqno == (sys.a.nextSeqno + 1) % Modulus(sys)
    requires q.a.slot.active ==> q.a.slot.id == TxnId(sys.a.ids.local, sys.a.nextSeqno) && SlotOf(q.a, src)
    requires forall k :: |sys.a.trace| <= k < |q.a.trace| ==>
                           q.a.trace[k].id == TxnId(sys.a.ids.local, sys.a.nextSeqno)
                           && (q.a.trace[k].Terminal? && q.a.trace[k].status == OK ==> !request.acknowledged)
    ensures SysInv(q)
  {
    var n := |sys.sources|;
    var id := NumberOf(q, n);
    assert Extends(sys, q) && IsSource(q, n, id) && q.sources[n] == src;
    ReceiverHalf(sys, q);
    EmitsHonest(sys, q, n, id);
    PutCompleted(sys, q, request);
    NextNumber(sys.first, n, Modulus(sys));
  }

  lemma PutKeepsInv(sys: System, request: S.PutRequest, env: S.Env)
    requires SysInv(sys) && Enabled(sys, Put(request, env))
    ensures SysInv(Next(sys, Put(request, env)))
  {
    if Starts(sys.a, request) {
      PutEmits(sys.a, request, env);
      StartedKeepsInv(sys, Next(sys, Put(request, env)), request, SourceOf(request, env));
    }
  }

  /** A step of the sender's running transaction. */
  lemma ServesKeepsInv(sys: System, q: System, i: nat, claimed: bool)
    requires SysInv(sys) && q == sys.(a := q.a)
    requires IsSource(sys, i, sys.a.slot.id) && Serves(sys.a, q.a, sys.sources[i], claimed)
    requires claimed ==> Q.HasCommit(sys.b.trace, sys.a.slot.id)
    ensures SysInv(q)
  {
    var id := sys.a.slot.id;
    assert Extends(sys, q) && IsSource(q, i, id);
    ReceiverHalf(sys, q);
    EmitsHonest(sys, q, i, id);
    forall k | 0 <= k < |q.a.trace| ensures Completed(q, q.a.trace[k]) {
      if k < |sys.a.trace| {
        assert q.a.trace[k] == sys.a.trace[k];
        CompletedGrows(sys, q, sys.a.trace[k]);
      }
    }
  }

  lemma IdleIgnores(s: S.Sender, incoming: Incoming, env: S.Env)
    requires !s.slot.active
    ensures S.Receive(s, incoming, env).0 == s
  {
  }

  lemma ToSenderKeepsInv(sys: System, k: nat, env: S.Env)
    requires SysInv(sys) && Enabled(sys, ToSender(k, env))
    ensures SysInv(Next(sys, ToSender(k, env)))
  {
    var q := Next(sys, ToSender(k, env));
    var m := sys.b.out[k];
    assert ReplyHonest(sys, m);
    ParseEncoded(sys.b.cfg, m);
    var h := Canon(sys.b.cfg.lim, m).header;
    if sys.a.slot.active {
      var i :| IsSource(sys, i, sys.a.slot.id) && SlotOf(sys.a, sys.sources[i]);
      ReceiveServes(sys.a, h, m.body, env, sys.sources[i]);
      assert IdOf(h) == IdOf(m.header);
      ServesKeepsInv(sys, q, i, S.Matches(sys.a, h) && Q.ClaimsDelivery(Message(h, m.body)));
    } else {
      IdleIgnores(sys.a, Decodable(h, m.body), env);
    }
  }

  lemma TickSenderKeepsInv(sys: System, now: nat, env: S.Env)
    requires SysInv(sys)
    ensures SysInv(Next(sys, TickSender(now, env)))
  {
    var q := Next(sys, TickSender(now, env));
    if sys.a.slot.active {
      var i :| IsSource(sys, i, sys.a.slot.id) && SlotOf(sys.a, sys.sources[i]);
      PollServes(sys.a, now, env, sys.sources[i]);
      ServesKeepsInv(sys, q, i, false);
    } else {
      assert q == sys;
    }
  }

  // ---- Steps of the receiver ----

  /** Writing a truthful segment keeps the partial file in agreement with the source. */
  lemma DataAgrees(r: R.Receiver, body: Body, src: Source, x: int)
    requires RR.Covered(r) && Partial(r, src)
    requires body.FileData? ==> TruthfulData(src, body)
    requires 0 <= x < |RR.TmpAfter(r, body)| && Covers(RR.RangesAfter(r, body), x)
    ensures |RR.TmpAfter(r, body)| <= |src.file| && RR.TmpAfter(r, body)[x] == src.file[x]
  {
    if body.FileData? {
      var end := body.offset + |body.data|;
      InsertFromCovers(r.ranges, 0, Range(body.offset, end), x);
      if body.offset <= x < end {
        assert body.data[x - body.offset] == src.file[x];
      } else {
        assert Covers(r.ranges, x);
        var i :| 0 <= i < |r.ranges| && r.ranges[i].start <= x < r.ranges[i].end;
        assert x < |r.slot.tmp|;
      }
    }
  }

  /** A guarded commit of truthful data commits the source file. */
  lemma CommitIsSource(r: R.Receiver, h: Header, body: Body, src: Source)
    requires RR.Covered(r) && Partial(r, src) && RR.Guard(r, h, body, RR.TmpAfter(r, body))
    requires body.FileData? ==> TruthfulData(src, body)
    ensures RR.TmpAfter(r, body) == src.file
  {
    var content := RR.TmpAfter(r, body);
    forall x | 0 <= x < |content| ensures content[x] == src.file[x] {
      assert x in Interval(0, r.slot.fileSize);
      assert Covers(RR.RangesAfter(r, body), x);
      DataAgrees(r, body, src, x);
    }
  }

  /** The partial file after any delivered PDU. */
  lemma EvolvedPartial(r: R.Receiver, h: Header, body: Body, q: R.Receiver, src: Source)
    requires RR.Inv(r) && Q.Evolved(r, h, body, q) && q.slot.active
    requires r.slot.active ==> Partial(r, src)
    requires (r.slot.active ==> IdOf(h) == r.slot.id) ==> exists lib :: Truthful(lib, src, h, body)
    ensures Partial(q, src)
  {
    if r.slot.active && Q.SameData(r, q) {
    } else if r.slot.active {
      forall x | 0 <= x < |q.slot.tmp| && Covers(q.ranges, x) ensures q.slot.tmp[x] == src.file[x] {
        DataAgrees(r, body, src, x);
      }
    }
  }

  lemma NewEffects(r: R.Receiver, q: R.Receiver, c: seq<Effect>, k: nat)
    requires RR.MoveWith(r, q, c) && |c| <= 1 && k < |q.trace|
    ensures r.trace <= q.trace
    ensures q.trace[k].Committed? ==> k < |r.trace| || (c != [] && q.trace[k] == c[0])
  {
  }

  lemma WaitingCommitted(r: R.Receiver, q: R.Receiver, c: seq<Effect>)
    requires RR.MoveWith(r, q, c) && (c == [] || (|c| == 1 && c[0].Committed? && c[0].id == r.slot.id))
    requires r.slot.active && r.slot.waiting ==> Q.HasCommit(r.trace, r.slot.id)
    requires RR.Inv(r)
    ensures q.slot.active && q.slot.waiting ==> Q.HasCommit(q.trace, q.slot.id)
  {
    if q.slot.active && q.slot.waiting {
      if c == [] {
        assert q.trace == r.trace + c;
        Q.HasCommitGrows(r.trace, q.trace, r.slot.id);
      } else {
        assert q.trace[|r.trace|] == c[0];
      }
    }
  }

  lemma RepliesHonest(sys: System, q: System)
    requires SysInv(sys) && Extends(sys, q) && Q.Replies(sys.b, q.b)
    ensures forall k :: 0 <= k < |q.b.out| ==> ReplyHonest(q, q.b.out[k])
  {
  }

  /** The message that arrives, as the source it tells about. */
  lemma DeliveredTruth(sys: System, k: nat) returns (h: Header, body: Body, i: nat)
    requires SysInv(sys) && k < |sys.a.out|
    ensures Parse(sys.b.cfg.lim, sys.a.cfg.encoder(sys.a.out[k]).value) == Decodable(h, body)
    ensures IsSource(sys, i, IdOf(h)) && Truthful(sys.a.cfg.lib, sys.sources[i], h, body)
  {
    var m := sys.a.out[k];
    assert Honest(sys, m);
    ParseEncoded(sys.a.cfg, m);
    h, body := Canon(sys.a.cfg.lim, m).header, Canon(sys.a.cfg.lim, m).body;
    i :| IsSource(sys, i, IdOf(m.header)) && Truthful(sys.a.cfg.lib, sys.sources[i], m.header, m.body);
  }

  lemma ArrivalPartial(sys: System, h: Header, body: Body, i: nat, q: System)
    requires SysInv(sys) && q == sys.(b := q.b) && q.b.slot.active
    requires IsSource(sys, i, IdOf(h)) && Truthful(sys.a.cfg.lib, sys.sources[i], h, body)
    requires Q.Evolved(sys.b, h, body, q.b)
    ensures exists j :: IsSource(q, j, q.b.slot.id) && Partial(q.b, q.sources[j])
  {
    if sys.b.slot.active {
      var j :| IsSource(sys, j, sys.b.slot.id) && Partial(sys.b, sys.sources[j]);
      if IdOf(h) == sys.b.slot.id {
        SourceUnique(sys, i, j, IdOf(h));
      }
      EvolvedPartial(sys.b, h, body, q.b, sys.sources[j]);
      assert IsSource(q, j, q.b.slot.id);
    } else {
      EvolvedPartial(sys.b, h, body, q.b, sys.sources[i]);
      assert IsSource(q, i, q.b.slot.id);
    }
  }

  lemma ArrivalDelivered(sys: System, h: Header, body: Body, i: nat, q: System, c: seq<Effect>)
    requires SysInv(sys) && q == sys.(b := q.b) && Extends(sys, q)
    requires IsSource(sys, i, IdOf(h)) && Truthful(sys.a.cfg.lib, sys.sources[i], h, body)
    requires RR.MoveWith(sys.b, q.b, c)
    requires c == [] || (c == [RR.CommitOf(sys.b, RR.TmpAfter(sys.b, body))] && RR.Guard(sys.b, h, body, RR.TmpAfter(sys.b, body)))
    ensures forall k :: 0 <= k < |q.b.trace| ==> Delivered(q, q.b.trace[k])
  {
    forall k | 0 <= k < |q.b.trace| ensures Delivered(q, q.b.trace[k]) {
      NewEffects(sys.b, q.b, c, k);
      if k < |sys.b.trace| {
        assert q.b.trace[k] == sys.b.trace[k];
        DeliveredGrows(sys, q, sys.b.trace[k]);
      } else if c != [] {
        var j :| IsSource(sys, j, sys.b.slot.id) && Partial(sys.b, sys.sources[j]);
        SourceUnique(sys, i, j, IdOf(h));
        CommitIsSource(sys.b, h, body, sys.sources[i]);
        assert IsSource(q, i, sys.b.slot.id);
      }
    }
  }

  /** The system after the receiver made a move with truthful consequences. */
  lemma MoveKeepsInv(sys: System, q: System, c: seq<Effect>)
    requires SysInv(sys) && q == sys.(b := q.b)
    requires RR.Keeps(sys.b, q.b) && RR.MoveWith(sys.b, q.b, c) && RR.Inv(q.b) && Q.Replies(sys.b, q.b)
    requires c == [] || (|c| == 1 && c[0].Committed? && c[0].id == sys.b.slot.id)
    requires forall k :: 0 <= k < |q.b.trace| ==> Delivered(q, q.b.trace[k])
    requires q.b.slot.active ==> exists j :: IsSource(q, j, q.b.slot.id) && Partial(q.b, q.sources[j])
    ensures SysInv(q)
  {
    assert Extends(sys, q);
    SenderHalf(sys, q);
    RepliesHonest(sys, q);
    WaitingCommitted(sys.b, q.b, c);
  }

  lemma ArrivalKeepsInv(sys: System, h: Header, body: Body, i: nat, q: System, env: R.Env)
    requires SysInv(sys) && q == sys.(b := q.b) && q.b == RR.Step(sys.b, RR.Arrive(Decodable(h, body), env))
    requires IsSource(sys, i, IdOf(h)) && Truthful(sys.a.cfg.lib, sys.sources[i], h, body)
    requires Q.Evolved(sys.b, h, body, q.b) && Q.Replies(sys.b, q.b)
    ensures SysInv(q)
  {
    var input := RR.Arrive(Decodable(h, body), env);
    RR.StepHasOutcome(sys.b, input);
    var c :| RR.Keeps(sys.b, q.b) && RR.MoveWith(sys.b, q.b, c) && RR.Inv(q.b)
             && (c == [] || (RR.GuardedCommit(sys.b, input) && c == [RR.CommitOf(sys.b, RR.TmpAfter(sys.b, body))]));
    ArrivalDelivered(sys, h, body, i, q, c);
    if q.b.slot.active {
      ArrivalPartial(sys, h, body, i, q);
    }
    MoveKeepsInv(sys, q, c);
  }

  lemma ToReceiverKeepsInv(sys: System, k: nat, env: R.Env)
    requires SysInv(sys) && Enabled(sys, ToReceiver(k, env))
    ensures SysInv(Next(sys, ToReceiver(k, env)))
  {
    var h, body, i := DeliveredTruth(sys, k);
    Q.ReceiveReplies(sys.b, Decodable(h, body), env);
    Q.ReceiveEvolves(sys.b, h, body, env);
    ArrivalKeepsInv(sys, h, body, i, Next(sys, ToReceiver(k, env)), env);
  }

  lemma PolledDelivered(sys: System, q: System)
    requires SysInv(sys) && q == sys.(b := q.b) && RR.Keeps(sys.b, q.b) && RR.MoveWith(sys.b, q.b, [])
    ensures forall k :: 0 <= k < |q.b.trace| ==> Delivered(q, q.b.trace[k])
  {
  }

  lemma TickReceiverKeepsInv(sys: System, now: nat, env: R.Env)
    requires SysInv(sys)
    ensures SysInv(Next(sys, TickReceiver(now, env)))
  {
    var q := Next(sys, TickReceiver(now, env));
    RR.TickOutcome(sys.b, now, env);
    Q.PollReplies(sys.b, now, env);
    Q.PollSameData(sys.b, now, env);
    PolledDelivered(sys, q);
    if q.b.slot.active {
      var j :| IsSource(sys, j, sys.b.slot.id) && Partial(sys.b, sys.sources[j]);
      assert IsSource(q, j, q.b.slot.id) && Partial(q.b, q.sources[j]);
    }
    MoveKeepsInv(sys, q, []);
  }

  lemma NextKeepsInv(sys: System, action: Action)
    requires SysInv(sys) && Enabled(sys, action)
    ensures SysInv(Next(sys, action))
  {
    match action {
      case Put(request, env) => PutKeepsInv(sys, request, env);
      case ToSender(k, env) => ToSenderKeepsInv(sys, k, env);
      case ToReceiver(k, env) => ToReceiverKeepsInv(sys, k, env);
      case TickSender(now, env) => TickSenderKeepsInv(sys, now, env);
      case TickReceiver(now, env) => TickReceiverKeepsInv(sys, now, env);
    }
  }

  lemma {:induction false} RunKeepsInv(states: seq<System>, actions: seq<Action>, n: nat)
    requires IsRun(states, actions) && n < |states|
    ensures SysInv(states[n])
  {
    if n == 0 {
      InitialInv(states[0]);
    } else {
      RunKeepsInv(states, actions, n - 1);
      NextKeepsInv(states[n - 1], actions[n - 1]);
    }
  }

  lemma InitialInv(sys: System)
    requires Initial(sys)
    ensures SysInv(sys)
  {
  }

  /**
    In every state of every run of one sender and one receiver over a network that loses,
    duplicates and reorders PDUs: each file the receiver committed is, byte for byte and under
    its destination name, the file some transaction was asked to send; and each acknowledged
    transaction that the sender reported COMPLETE has been committed by the receiver.
   */
  lemma EndToEndDelivery(states: seq<System>, actions: seq<Action>, n: nat)
    requires IsRun(states, actions) && n < |states|
    ensures forall k :: 0 <= k < |states[n].b.trace| ==> Delivered(states[n], states[n].b.trace[k])
    ensures forall k, i :: 0 <= k < |states[n].a.trace| && states[n].a.trace[k].Terminal? && states[n].a.trace[k].status == OK
                           && IsSource(states[n], i, states[n].a.trace[k].id) && states[n].sources[i].acknowledged ==>
                             CommittedCopy(states[n], i)
  {
    RunKeepsInv(states, actions, n);
    var sys := states[n];
    forall k, i | 0 <= k < |sys.a.trace| && sys.a.trace[k].Terminal? && sys.a.trace[k].status == OK
                  && IsSource(sys, i, sys.a.trace[k].id) && sys.sources[i].acknowledged
      ensures CommittedCopy(sys, i)
    {
      assert Completed(sys, sys.a.trace[k]);
      CompletedCopy(sys, sys.a.trace[k].id, i);
    }
  }

  /** The receiver has committed the i-th source under its number, byte for byte. */
  ghost predicate CommittedCopy(sys: System, i: int) {
    && 0 <= i < |sys.sources|
    && Committed(NumberOf(sys, i), sys.sources[i].destPath, sys.sources[i].file) in sys.b.trace
  }

  lemma CompletedCopy(sys: System, id: TxnId, i: nat)
    requires SysInv(sys) && IsSource(sys, i, id) && sys.sources[i].acknowledged && Completed(sys, Terminal(id, OK))
    ensures CommittedCopy(sys, i)
  {
    var j :| IsSource(sys, j, id) && (sys.sources[j].acknowledged ==> Q.HasCommit(sys.b.trace, id));
    SourceUnique(sys, i, j, id);
    var k :| 0 <= k < |sys.b.trace| && sys.b.trace[k].Committed? && sys.b.trace[k].id == id;
    assert Delivered(sys, sys.b.trace[k]);
    var l :| IsSource(sys, l, id) && sys.b.trace[k].content == sys.sources[l].file && sys.b.trace[k].path == sys.sources[l].destPath;
    SourceUnique(sys, i, l, id);
  }

  /** An acknowledged transfer of an empty file is never reported COMPLETE, in any run. */
  lemma EmptyFileNeverCompletes(states: seq<System>, actions: seq<Action>, n: nat, i: nat)
    requires IsRun(states, actions) && n < |states| && i < |states[n].sources|
    requires states[n].sources[i].file == [] && states[n].sources[i].acknowledged
    ensures Terminal(NumberOf(states[n], i), OK) !in states[n].a.trace
  {
    var sys := states[n];
    EndToEndDelivery(states, actions, n);
    if Terminal(NumberOf(sys, i), OK) in sys.a.trace {
      var k :| 0 <= k < |sys.a.trace| && sys.a.trace[k] == Terminal(NumberOf(sys, i), OK);
      assert IsSource(sys, i, sys.a.trace[k].id);
    }
  }
}
