/**
  The two ways in which a telemetry channel loses packets, with runs that show them: a packet
  header of zeros at the end of a data field, and a queue that was full.
 */
module TmFaults {
  import opened CfdpTypes
  import opened SpacePacket
  import opened Sequences
  import opened TmPackets
  import opened TmFrame

  // ---- A run in which an all-zero header is lost ----

  /** Bytes that begin with a whole packet, not an idle one, yield it. */
  lemma DeframeWhole(s: seq<byte>, n: nat)
    requires HEADER < n <= |s| && PacketLen(s) == n && !IdleApid(s)
    ensures Deframe([], 0, s).packets == [s[..n]] + Deframe([], 0, s[n..]).packets
  {
    DeframeHeader(s);
    var head, rest := s[..HEADER], s[HEADER..];
    assert head + rest[..n - HEADER] == s[..n] && rest[n - HEADER..] == s[n..];
    assert Deframe(head, n - HEADER, rest) == Emit(s[..n], Deframe([], 0, s[n..]));
  }

  /** What follows a hidden header: its packet's seventh byte and fill, read as if a packet began there. */
  lemma SeventhByteMisread(x: byte, len: nat)
    requires HEADER + 1 <= len <= 2046
    ensures var got := Deframe([], 0, [x] + IdleFill(len - 1)).packets;
            && |got| >= 1 && |got[0]| >= 7 && got[0][1] == (if len == 7 then 0 else 7)
            && (len == 7 ==> got == [[x, 0, 0, 0, 0, 0, 0]])
  {
    var s := [x] + IdleFill(len - 1);
    assert s[1] == (if len == 7 then 0 else 7) && s[4] == 0 && s[5] == if len == 7 then 0 else (len - 8) / 256;
    DeframeWhole(s, PacketLen(s));
    if len == 7 {
      assert s == [x, 0, 0, 0, 0, 0, 0] && s[..7] == s && s[7..] == [];
    }
  }

  /** A packet that ends six bytes before the end of its second frame, then one with an all-zero header. */
  function LossRun(a: seq<byte>, p: seq<byte>): seq<Event> {
    [Admit(0, a), Admit(0, p), Tick, Tick, Tick]
  }

  predicate LossSetting(cfg: Config, a: seq<byte>, p: seq<byte>) {
    && ValidConfig(cfg) && |a| == 2 * cfg.dataLen - HEADER && Proper(a) && Admissible(cfg, 0, a)
    && |p| == HEADER + 1 && Proper(p) && AllZero(p[..HEADER]) && Admissible(cfg, 0, p) && |a| + |p| <= cfg.depth
  }

  lemma LossMoves(len: nat, a: seq<byte>, p: seq<byte>)
    requires HEADER + 1 <= len && |a| == 2 * len - HEADER && |p| == HEADER + 1
    ensures Move(Queue([], [], [a, p]), len) == Moved([], Queue(a[..len], a[len..], [p]))
    ensures Move(Queue(a[..len], a[len..], [p]), len) == Moved([a], Queue(p[..HEADER], p[HEADER..], []))
    ensures Move(Queue(p[..HEADER], p[HEADER..], []), len) == Moved([p], Queue([], [], []))
  {
    var q := Queue(a[..HEADER], a[HEADER..], [p]);
    assert [a, p][1..] == [p] && [p][1..] == [];
    assert Move(Queue([], [], [a, p]), len) == Move(q, len - HEADER);
    assert q.head + q.tail[..len - HEADER] == a[..len] && q.tail[len - HEADER..] == a[len..];
    MoveRest(Queue(a[..len], a[len..], [p]), len);
    assert a[..len] + a[len..] == a;
    assert Move(Queue([], [], [p]), HEADER) == Move(Queue(p[..HEADER], p[HEADER..], []), 0);
    MoveRest(Queue(p[..HEADER], p[HEADER..], []), len);
    assert p[..HEADER] + p[HEADER..] == p;
  }

  lemma LossAdmits(cfg: Config, a: seq<byte>, p: seq<byte>)
    requires LossSetting(cfg, a, p)
    ensures var events := LossRun(a, p);
            && ProperTo(cfg, events, 0) && Admitted(cfg, events, 0, 5) == [a, p]
            && Sent(cfg, events, 0, 2) == Moved([], Queue([], [], [a, p]))
  {
    var events := LossRun(a, p);
    assert Sent(cfg, events, 0, 1) == Moved([], Queue([], [], [a]));
    assert Admitted(cfg, events, 0, 1) == [a];
    assert Admitted(cfg, events, 0, 2) == [a] + [p] == [a, p];
    assert Admitted(cfg, events, 0, 3) == Admitted(cfg, events, 0, 4) == [a, p];
  }

  /** A cycle serves channel 0 whenever it holds anything. */
  lemma SentTick(cfg: Config, events: seq<Event>, n: nat)
    requires n < |events| && ValidConfig(cfg) && ProperTo(cfg, events, 0) && events[n].Tick?
    requires Bytes(Sent(cfg, events, 0, n).q) != []
    ensures var s := Sent(cfg, events, 0, n);
            var m := Move(s.q, cfg.dataLen);
            Builds(cfg, events, 0, n) && Sent(cfg, events, 0, n + 1) == Moved(s.packets + m.packets, m.q)
  {
    RunMatches(cfg, events, 0, n);
  }

  lemma LossSent(cfg: Config, a: seq<byte>, p: seq<byte>)
    requires LossSetting(cfg, a, p)
    ensures var events, len := LossRun(a, p), cfg.dataLen;
            && ProperTo(cfg, events, 0) && Admitted(cfg, events, 0, 5) == [a, p]
            && Sent(cfg, events, 0, 2) == Moved([], Queue([], [], [a, p])) && Builds(cfg, events, 0, 2)
            && Sent(cfg, events, 0, 3) == Moved([], Queue(a[..len], a[len..], [p])) && Builds(cfg, events, 0, 3)
            && Sent(cfg, events, 0, 4) == Moved([a], Queue(p[..HEADER], p[HEADER..], [])) && Builds(cfg, events, 0, 4)
            && Sent(cfg, events, 0, 5) == Moved([a, p], Queue([], [], []))
  {
    var events := LossRun(a, p);
    LossMoves(cfg.dataLen, a, p);
    LossAdmits(cfg, a, p);
    FlatEmpty([a, p]);
    SentTick(cfg, events, 2);
    SentTick(cfg, events, 3);
    SentTick(cfg, events, 4);
  }

  /** The frame that event n builds for the channel is the packed front of its queue. */
  lemma BuiltFrame(cfg: Config, events: seq<Event>, v: nat, n: nat)
    requires n < |events| && ValidConfig(cfg) && v < CHANNELS && ProperTo(cfg, events, v) && Builds(cfg, events, v, n)
    ensures var q, f := Sent(cfg, events, v, n).q, FrameAt(cfg, events, n);
            && f.Some? && f.value.vcid == v && f.value.fhp != IDLE_FRAME
            && var r := Pack(Bytes(q), |q.tail|, cfg.dataLen); r.Packed? && f.value.data == r.bytes
  {
    RunMatches(cfg, events, v, n);
    var g, s := StateAt(cfg, events, n), Sent(cfg, events, v, n);
    BuildMatches(cfg, g, v, s, Admitted(cfg, events, v, n));
    FirstStart(s.q, cfg.dataLen);
    CycleNames(cfg, g, v);
  }

  lemma HearFrame(cfg: Config, events: seq<Event>, n: nat, d: Deframer, f: Frame)
    requires n < |events| && ValidConfig(cfg) && Heard(cfg, events, 0, 0, n) == d
    requires FrameAt(cfg, events, n) == Some(f) && f.vcid == 0
    ensures Heard(cfg, events, 0, 0, n + 1) == Hear(d, f)
  {
  }

  /** The frame that ends in the header of p: nothing of p is heard. */
  lemma HeaderHides(cfg: Config, events: seq<Event>, n: nat, a: seq<byte>, p: seq<byte>)
    requires LossSetting(cfg, a, p) && n < |events| && ProperTo(cfg, events, 0) && Builds(cfg, events, 0, n)
    requires Sent(cfg, events, 0, n).q == Queue(a[..cfg.dataLen], a[cfg.dataLen..], [p])
    requires Heard(cfg, events, 0, 0, n) == Synced([], a[..cfg.dataLen], |a| - cfg.dataLen)
    ensures Heard(cfg, events, 0, 0, n + 1) == Synced([a], [], 0)
  {
    var len := cfg.dataLen;
    BuiltFrame(cfg, events, 0, n);
    HearFrame(cfg, events, n, Heard(cfg, events, 0, 0, n), FrameAt(cfg, events, n).value);
    var rest := Pack(Flat([p]), 0, HEADER);
    PackRest(a[len..], Flat([p]), len);
    assert Flat([p]) == p + Flat([]);
    PackStart(p, [], HEADER);
    DeframeStart(p, []);
    assert a[..len] + a[len..] == a;
    RestJoins(a[..len], a[len..], rest, Deframed([], [], 0));
  }

  /** The last byte of a packet, and fill behind it. */
  lemma TailField(x: byte, len: nat)
    requires HEADER + 1 <= len < U16
    ensures var r := Pack([x], 1, len); r.Packed? && r.bytes == [x] + IdleFill(len - 1)
  {
    assert [x] + [] == [x];
    PackRest([x], [], len);
    assert Pack([], 0, len - 1).bytes == IdleFill(len - 1);
  }

  /** The frame that begins with the last byte of p, heard as if a packet began there. */
  lemma TailHeard(cfg: Config, events: seq<Event>, n: nat, a: seq<byte>, head: seq<byte>, x: byte)
    requires n < |events| && ValidConfig(cfg) && ProperTo(cfg, events, 0) && Builds(cfg, events, 0, n)
    requires Sent(cfg, events, 0, n).q == Queue(head, [x], []) && Heard(cfg, events, 0, 0, n) == Synced([a], [], 0)
    ensures Recovered(Heard(cfg, events, 0, 0, n + 1)) == [a] + Deframe([], 0, [x] + IdleFill(cfg.dataLen - 1)).packets
  {
    BuiltFrame(cfg, events, 0, n);
    assert Bytes(Queue(head, [x], [])) == [x];
    TailField(x, cfg.dataLen);
    HearFrame(cfg, events, n, Synced([a], [], 0), FrameAt(cfg, events, n).value);
  }

  lemma LossHeard(cfg: Config, a: seq<byte>, p: seq<byte>)
    requires LossSetting(cfg, a, p)
    ensures Recovered(Heard(cfg, LossRun(a, p), 0, 0, 5))
         == [a] + Deframe([], 0, [p[6]] + IdleFill(cfg.dataLen - 1)).packets
  {
    var events, len := LossRun(a, p), cfg.dataLen;
    LossSent(cfg, a, p);
    HeardTracks(cfg, events, 0, 0, 3);
    assert Heard(cfg, events, 0, 0, 3) == Synced([], a[..len], |a| - len);
    HeaderHides(cfg, events, 3, a, p);
    assert p[HEADER..] == [p[6]];
    TailHeard(cfg, events, 4, a, p[..HEADER], p[6]);
  }

  lemma MisreadDiffers(a: seq<byte>, p: seq<byte>, len: nat, got: seq<seq<byte>>)
    requires |p| == HEADER + 1 && AllZero(p[..HEADER])
    requires |got| >= 1 && |got[0]| >= 7 && got[0][1] == (if len == 7 then 0 else 7)
    requires len == 7 ==> got == [[p[6], 0, 0, 0, 0, 0, 0]]
    ensures [a] + got == [a, p] <==> len == 7 && p[6] == 0
  {
    assert p[0] == p[..HEADER][0] && p[1] == p[..HEADER][1];
    assert ([a] + got)[1] == got[0] && [a, p][1] == p;
    if len == 7 && p[6] == 0 {
      assert p == [0, 0, 0, 0, 0, 0, 0];
      assert [a] + [p] == [a, p];
    }
  }

  lemma LossDrains(cfg: Config, a: seq<byte>, p: seq<byte>)
    requires LossSetting(cfg, a, p)
    ensures Admitted(cfg, LossRun(a, p), 0, 5) == [a, p] && !Active(StateAt(cfg, LossRun(a, p), 5).vcs[0])
  {
    LossSent(cfg, a, p);
    RunMatches(cfg, LossRun(a, p), 0, 5);
  }

  lemma TailDiffers(a: seq<byte>, p: seq<byte>, len: nat, tail: seq<byte>)
    requires |p| == HEADER + 1 && AllZero(p[..HEADER]) && 7 <= len <= 2046 && tail == [p[6]] + IdleFill(len - 1)
    ensures [a] + Deframe([], 0, tail).packets == [a, p] <==> len == 7 && p[6] == 0
  {
    SeventhByteMisread(p[6], len);
    MisreadDiffers(a, p, len, Deframe([], 0, tail).packets);
  }

  /**
    The second packet is lost: the channel drains, yet what was recovered is not what was
    admitted, save that in the shortest data field the misreading of seven zeros is seven zeros.
   */
  lemma ZeroHeaderLost(cfg: Config, a: seq<byte>, p: seq<byte>, events: seq<Event>)
    requires LossSetting(cfg, a, p) && events == LossRun(a, p)
    ensures Admitted(cfg, events, 0, 5) == [a, p] && !Active(StateAt(cfg, events, 5).vcs[0])
    ensures Recovered(Heard(cfg, events, 0, 0, 5)) == [a, p] <==> cfg.dataLen == 7 && p[6] == 0
  {
    LossDrains(cfg, a, p);
    LossHeard(cfg, a, p);
    TailDiffers(a, p, cfg.dataLen, [p[6]] + IdleFill(cfg.dataLen - 1));
  }

  // ---- A full queue ----

  /** A packet refused for want of room leaves the queue as it was exactly when not one byte of it was taken. */
  lemma RefusalHarmless(cfg: Config, g: Generator, v: nat, s: Moved, admitted: seq<seq<byte>>, p: seq<byte>)
    requires |g.vcs| == CHANNELS && v < CHANNELS && Matches(g, v, s, admitted)
    requires Admissible(cfg, v, p) && !HasRoom(cfg, g.vcs[v], p)
    ensures Matches(Add(cfg, g, v, p), v, s, admitted) <==> |g.vcs[v].pending| >= cfg.depth
  {
    var taken := p[..Taken(cfg, g.vcs[v], p)];
    assert Add(cfg, g, v, p).vcs[v].pending == Bytes(s.q) + taken;
    if |g.vcs[v].pending| >= cfg.depth {
      assert Bytes(s.q) + taken == Bytes(s.q);
    } else {
      assert |Bytes(s.q) + taken| > |Bytes(s.q)|;
    }
  }

  /** A queue that ends in the first k bytes of p, behind whole packets, or that misses more than it holds. */
  ghost predicate Broken(pending: seq<byte>, rem: nat, p: seq<byte>, k: nat) {
    || rem > |pending|
    || (k <= |p| && exists q :: EndsIn(pending, rem, q, p[..k]))
  }

  ghost predicate EndsIn(pending: seq<byte>, rem: nat, q: Queue, part: seq<byte>) {
    Sound(q) && pending == Bytes(q) + part && rem == |q.tail|
  }

  lemma DryStays(pending: seq<byte>, rem: nat, space: nat)
    requires rem > |pending| && space < U16
    ensures var r := Pack(pending, rem, space); r.rem > |r.pending|
  {
  }

  lemma HeaderStarts(all: seq<byte>, len: nat, space: nat)
    requires |all| >= HEADER && PacketLen(all) == len && HEADER <= space < U16
    ensures Pack(all, 0, space) == Prefix(all[..HEADER], true, Pack(all[HEADER..], len - HEADER, space - HEADER))
  {
  }

  /** Only part of p is left, and nothing behind it. */
  lemma PartStays(p: seq<byte>, k: nat, space: nat)
    requires Proper(p) && 0 < k < |p| && space < U16
    ensures var r := Pack(p[..k], 0, space); Broken(r.pending, r.rem, p, k)
  {
    var part := p[..k];
    var none := Queue([], [], []);
    assert EndsIn(part, 0, none, part) by { assert Bytes(none) + part == part; }
    if HEADER <= space && HEADER <= k {
      assert part[..HEADER] == p[..HEADER];
      SameHeader(part, p);
      HeaderStarts(part, |p|, space);
      DryStays(part[HEADER..], |p| - HEADER, space - HEADER);
    }
  }

  ghost predicate StaysBroken(q: Queue, p: seq<byte>, k: nat, space: nat)
    requires k <= |p| && space < U16
  {
    var r := Pack(Bytes(q) + p[..k], |q.tail|, space);
    Broken(r.pending, r.rem, p, k)
  }

  lemma UnsentStays(q: Queue, p: seq<byte>, k: nat, space: nat)
    requires Sound(q) && k <= |p| && space < U16
    requires var r := Pack(Bytes(q) + p[..k], |q.tail|, space); r.pending == Bytes(q) + p[..k] && r.rem == |q.tail|
    ensures StaysBroken(q, p, k, space)
  {
    assert EndsIn(Bytes(q) + p[..k], |q.tail|, q, p[..k]);
  }

  lemma PartSent(q: Queue, p: seq<byte>, k: nat, space: nat)
    requires Sound(q) && 0 < space < |q.tail| && space < U16 && k <= |p|
    ensures StaysBroken(q, p, k, space)
  {
    HeadGrows(q, space);
    var next, part := q.(head := q.head + q.tail[..space], tail := q.tail[space..]), p[..k];
    var pending := Bytes(q) + part;
    var left := pending[space..];
    assert left == Bytes(next) + part;
    assert Pack(left, |q.tail| - space, 0) == Packed([], left, |q.tail| - space, -1);
    assert Pack(pending, |q.tail|, space) == Prefix(pending[..space], false, Pack(left, |q.tail| - space, 0));
    assert EndsIn(left, |q.tail| - space, next, part);
  }

  lemma RestSent(q: Queue, p: seq<byte>, k: nat, space: nat)
    requires Sound(q) && 0 < |q.tail| <= space < U16 && k <= |p|
    requires StaysBroken(Queue([], [], q.packets), p, k, space - |q.tail|)
    ensures StaysBroken(q, p, k, space)
  {
    var flat, part := Flat(q.packets), p[..k];
    ConcatAssociative(q.tail, flat, part);
    PackRest(q.tail, flat + part, space);
    assert Bytes(Queue([], [], q.packets)) == flat;
  }

  lemma HeaderSent(q: Queue, p: seq<byte>, k: nat, space: nat)
    requires Sound(q) && q.tail == [] && q.packets != [] && HEADER <= space < U16 && k <= |p|
    requires var first := q.packets[0];
             StaysBroken(Queue(first[..HEADER], first[HEADER..], q.packets[1..]), p, k, space - HEADER)
    ensures StaysBroken(q, p, k, space)
  {
    var first, rest, part := q.packets[0], Flat(q.packets[1..]), p[..k];
    assert Proper(first);
    assert Bytes(q) == first + rest;
    ConcatAssociative(first, rest, part);
    PackStart(first, rest + part, space);
    ConcatAssociative(first[HEADER..], rest, part);
  }

  /** Packing never mends a broken queue. */
  lemma {:induction false} BrokenStays(q: Queue, p: seq<byte>, k: nat, space: nat)
    requires Sound(q) && Proper(p) && 0 < k < |p| && space < U16
    ensures StaysBroken(q, p, k, space)
    decreases space
  {
    if space == 0 || (q.tail == [] && space < HEADER) {
      UnsentStays(q, p, k, space);
    } else if q.tail != [] {
      if space < |q.tail| {
        PartSent(q, p, k, space);
      } else {
        BrokenStays(Queue([], [], q.packets), p, k, space - |q.tail|);
        RestSent(q, p, k, space);
      }
    } else if q.packets == [] {
      assert Bytes(q) + p[..k] == p[..k];
      PartStays(p, k, space);
    } else {
      ConservesStart(q);
      var first := q.packets[0];
      assert Proper(first);
      BrokenStays(Queue(first[..HEADER], first[HEADER..], q.packets[1..]), p, k, space - HEADER);
      HeaderSent(q, p, k, space);
    }
  }

  lemma CycleKeepsBroken(cfg: Config, g: Generator, v: nat, p: seq<byte>, k: nat)
    requires |g.vcs| == CHANNELS && cfg.dataLen < U16 && v < CHANNELS && Proper(p) && 0 < k < |p|
    requires Broken(g.vcs[v].pending, g.vcs[v].rem, p, k)
    ensures var h := Cycle(cfg, g).0; Broken(h.vcs[v].pending, h.vcs[v].rem, p, k)
  {
    var pending, rem := g.vcs[v].pending, g.vcs[v].rem;
    if Select(g.vcs, 0) != Some(v) {
      CycleLeavesOthers(cfg, g, v);
    } else if rem > |pending| {
      DryStays(pending, rem, cfg.dataLen);
    } else {
      var q :| EndsIn(pending, rem, q, p[..k]);
      BrokenStays(q, p, k, cfg.dataLen);
    }
  }

  /**
    In every run: a proper packet refused when the queue had room for part of it leaves a channel
    that does not drain any more, whatever else happens, until something is offered to it.
   */
  lemma {:induction false} RefusalNeverDrains(cfg: Config, events: seq<Event>, v: nat, s: Moved, i: nat, n: nat)
    requires i < n <= |events| && cfg.dataLen < U16 && v < CHANNELS && AdmitsTo(cfg, events[i], v) && Proper(events[i].packet)
    requires Matches(StateAt(cfg, events, i), v, s, s.packets + Held(s.q))
    requires var c := StateAt(cfg, events, i).vcs[v]; !HasRoom(cfg, c, events[i].packet) && |c.pending| < cfg.depth
    requires forall j :: i < j < n ==> !AdmitsTo(cfg, events[j], v)
    ensures var c := StateAt(cfg, events, n).vcs[v];
            Active(c) && Broken(c.pending, c.rem, events[i].packet, Taken(cfg, StateAt(cfg, events, i).vcs[v], events[i].packet))
    decreases n
  {
    var p, before := events[i].packet, StateAt(cfg, events, i).vcs[v];
    var k := Taken(cfg, before, p);
    if n == i + 1 {
      assert EndsIn(before.pending + p[..k], before.rem, s.q, p[..k]);
    } else {
      RefusalNeverDrains(cfg, events, v, s, i, n - 1);
      if events[n - 1].Tick? {
        CycleKeepsBroken(cfg, StateAt(cfg, events, n - 1), v, p, k);
      }
    }
  }

  /** A cycle that finds too little of a packet, and leaves nothing that another cycle could use. */
  predicate Blocked(cfg: Config, g: Generator, c: nat) {
    && |g.vcs| == CHANNELS && HEADER < cfg.dataLen < U16 && c < CHANNELS && Select(g.vcs, 0) == Some(c)
    && (if g.vcs[c].rem > 0 then g.vcs[c].pending == [] else 0 < |g.vcs[c].pending| < HEADER)
  }

  lemma {:induction false} StarvedLeaves(pending: seq<byte>, rem: nat, space: nat)
    requires space < U16
    ensures var r := Pack(pending, rem, space);
            r.Starved? ==> if r.rem > 0 then r.pending == [] else 0 < |r.pending| < HEADER
    decreases space
  {
    if space > 0 {
      if rem > 0 {
        var n := if rem < space then rem else space;
        if n <= |pending| {
          StarvedLeaves(pending[n..], rem - n, space - n);
        }
      } else if pending != [] && HEADER <= space && HEADER <= |pending| {
        StarvedLeaves(pending[HEADER..], PacketLen(pending) - HEADER, space - HEADER);
      }
    }
  }

  lemma {:induction false} SelectsFirst(vcs: seq<Vc>, k: nat, c: nat)
    requires k <= c < |vcs|
    ensures Select(vcs, k) == Some(c) <==> Active(vcs[c]) && forall i :: k <= i < c ==> !Active(vcs[i])
    decreases c - k
  {
    SelectInRange(vcs, k);
    if k == c {
      SelectInRange(vcs, c + 1);
    } else if !Active(vcs[k]) {
      SelectsFirst(vcs, k + 1, c);
    }
  }

  /** A cycle without a frame blocks the generator on the channel it selected. */
  lemma NoFrameBlocks(cfg: Config, g: Generator, c: nat)
    requires |g.vcs| == CHANNELS && HEADER < cfg.dataLen < U16 && c < CHANNELS && Select(g.vcs, 0) == Some(c)
    requires Cycle(cfg, g).1.None?
    ensures Blocked(cfg, Cycle(cfg, g).0, c)
  {
    var v := g.vcs[c];
    StarvedLeaves(v.pending, v.rem, cfg.dataLen);
    var h := Cycle(cfg, g).0;
    SelectsFirst(g.vcs, 0, c);
    SelectsFirst(h.vcs, 0, c);
  }

  lemma BlockedCycle(cfg: Config, g: Generator, c: nat)
    requires Blocked(cfg, g, c)
    ensures Cycle(cfg, g) == (g, None)
  {
    var v := g.vcs[c];
    assert Pack(v.pending, v.rem, cfg.dataLen) == Starved(v.pending, v.rem);
    assert g.vcs[c := v] == g.vcs;
  }

  lemma BlockedAdd(cfg: Config, g: Generator, c: nat, vcid: nat, packet: seq<byte>)
    requires Blocked(cfg, g, c) && vcid > c
    ensures Blocked(cfg, Add(cfg, g, vcid, packet), c)
  {
    var h := Add(cfg, g, vcid, packet);
    SelectsFirst(g.vcs, 0, c);
    SelectsFirst(h.vcs, 0, c);
  }

  /**
    In every run: from a cycle that built no frame on, no channel emits another frame, idle
    frames included, until a packet is offered to the channel that ran dry or to a lower one.
   */
  lemma {:induction false} StarvationBlocks(cfg: Config, events: seq<Event>, c: nat, k: nat, n: nat)
    requires k < n <= |events| && ValidConfig(cfg) && c < CHANNELS
    requires Builds(cfg, events, c, k) && FrameAt(cfg, events, k).None?
    requires forall i :: k < i < n && events[i].Admit? ==> events[i].vcid > c
    ensures Blocked(cfg, StateAt(cfg, events, n), c)
    ensures forall i :: k <= i < n ==> FrameAt(cfg, events, i).None?
    decreases n
  {
    if n == k + 1 {
      NoFrameBlocks(cfg, StateAt(cfg, events, k), c);
    } else {
      StarvationBlocks(cfg, events, c, k, n - 1);
      var g := StateAt(cfg, events, n - 1);
      match events[n - 1] {
        case Tick => BlockedCycle(cfg, g, c);
        case Admit(vcid, packet) => BlockedAdd(cfg, g, c, vcid, packet);
      }
    }
  }

  /** Part of a packet, and nothing behind it, starves a field that the whole packet would fit. */
  lemma PartStarves(p: seq<byte>, k: nat, len: nat)
    requires Proper(p) && 0 < k < |p| <= len < U16
    ensures Pack(p[..k], 0, len).Starved?
  {
    var part := p[..k];
    if k >= HEADER {
      assert part[..HEADER] == p[..HEADER];
      SameHeader(part, p);
    }
  }

  /** A packet that fills one data field, packed in front of anything. */
  lemma WholeField(a: seq<byte>, more: seq<byte>)
    requires Proper(a) && |a| < U16
    ensures var r := Pack(a + more, 0, |a|); r.Packed? && r.pending == more && r.rem == 0
  {
    PackStart(a, more, |a|);
    PackRest(a[HEADER..], more, |a| - HEADER);
  }

  predicate FullSetting(cfg: Config, a: seq<byte>, p: seq<byte>) {
    && ValidConfig(cfg) && Proper(a) && Admissible(cfg, 0, a) && |a| == cfg.dataLen
    && Proper(p) && Admissible(cfg, 0, p) && |p| <= cfg.dataLen && |a| < cfg.depth < |a| + |p|
  }

  /** Such a run: the second packet finds too little room, and two cycles later the generator is blocked. */
  lemma FullQueueStarves(cfg: Config, a: seq<byte>, p: seq<byte>, events: seq<Event>)
    requires FullSetting(cfg, a, p) && events == [Admit(0, a), Admit(0, p), Tick, Tick]
    ensures Builds(cfg, events, 0, 2) && FrameAt(cfg, events, 2).Some?
    ensures Builds(cfg, events, 0, 3) && FrameAt(cfg, events, 3).None?
    ensures Blocked(cfg, StateAt(cfg, events, 4), 0)
  {
    var k := cfg.depth - |a|;
    FullAdmits(cfg, a, p, events);
    WholeField(a, p[..k]);
    assert StateAt(cfg, events, 3).vcs[0].pending == p[..k] && StateAt(cfg, events, 3).vcs[0].rem == 0;
    PartStarves(p, k, cfg.dataLen);
    NoFrameBlocks(cfg, StateAt(cfg, events, 3), 0);
  }

  lemma FullAdmits(cfg: Config, a: seq<byte>, p: seq<byte>, events: seq<Event>)
    requires FullSetting(cfg, a, p) && |events| >= 2 && events[0] == Admit(0, a) && events[1] == Admit(0, p)
    ensures var v := StateAt(cfg, events, 2).vcs[0]; v.pending == a + p[..cfg.depth - |a|] && v.rem == 0
  {
    assert StateAt(cfg, events, 0).vcs[0].pending == [] && [] + a[..|a|] == a;
    assert StateAt(cfg, events, 1).vcs[0].pending == a;
  }
}
