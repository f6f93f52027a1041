/**
  The telemetry frame generator: eight virtual channels, each a byte queue of Space Packets,
  from which one fixed-length frame is built per cycle; and what a receiver that joins at any
  frame recovers.
 */
module TmFrame {
  import opened CfdpTypes
  import opened SpacePacket
  import opened Sequences
  import opened TmPackets

  /** Bytes queued, bytes missing of the packet under way, and the channel's frame counter. */
  datatype Vc = Vc(pending: seq<byte>, rem: nat, vcfc: byte)

  datatype Frame = Frame(vcid: nat, mcfc: byte, vcfc: byte, fhp: nat, data: seq<byte>)

  /** The data field, the longest packet, and the bytes that a channel's queue holds. */
  datatype Config = Config(dataLen: nat, maxPacket: nat, depth: nat)

  const CHANNELS: nat := 8
  const IDLE_VC: nat := 7

  datatype Generator = Generator(vcs: seq<Vc>, mcfc: byte)

  /** The data field is long enough for an idle packet, and short enough for its pointers. */
  predicate ValidConfig(cfg: Config) { HEADER + 1 <= cfg.dataLen <= 2046 }

  function Next8(n: byte): byte { (n + 1) % 256 }

  /** The checks of ccsds_tm_frame_add. */
  predicate Admissible(cfg: Config, vcid: nat, packet: seq<byte>) {
    && |packet| >= HEADER + 1 && PacketLen(packet) == |packet| && |packet| <= cfg.maxPacket && |packet| <= cfg.depth
    && vcid < CHANNELS
  }

  predicate Active(v: Vc) { v.pending != [] || v.rem > 0 }

  /** The lowest active channel from k on. */
  function Select(vcs: seq<Vc>, k: nat): Option<nat>
    requires k <= |vcs|
    decreases |vcs| - k
  {
    if k == |vcs| then None else if Active(vcs[k]) then Some(k) else Select(vcs, k + 1)
  }

  function Pointer(first: int): nat { if first < 0 then NO_START else first }

  /**
    One cycle: a packet frame of the selected channel, or an idle frame.  If the queue runs dry
    inside a packet there is no frame, and what was drained for it is gone.
   */
  function Cycle(cfg: Config, g: Generator): (Generator, Option<Frame>)
    requires |g.vcs| == CHANNELS && cfg.dataLen < U16
  {
    var chosen := Select(g.vcs, 0);
    if chosen.None? then
      var v := g.vcs[IDLE_VC];
      (Counted(g, IDLE_VC, v), Some(Frame(IDLE_VC, g.mcfc, v.vcfc, IDLE_FRAME, Repeated(0, cfg.dataLen))))
    else if chosen.value < CHANNELS then
      var v := g.vcs[chosen.value];
      var r := Pack(v.pending, v.rem, cfg.dataLen);
      if r.Starved? then (g.(vcs := g.vcs[chosen.value := v.(pending := r.pending, rem := r.rem)]), None)
      else (Counted(g, chosen.value, v.(pending := r.pending, rem := r.rem)),
            Some(Frame(chosen.value, g.mcfc, v.vcfc, Pointer(r.first), r.bytes)))
    else (g, None)
  }

  /** What goes into a frame: an idle frame of channel 7 when nothing is pending, else a frame of the lowest channel with bytes. */
  lemma FrameContents(cfg: Config, g: Generator)
    requires |g.vcs| == CHANNELS && cfg.dataLen < U16 && Cycle(cfg, g).1.Some?
    ensures var f := Cycle(cfg, g).1.value;
            if forall k :: 0 <= k < CHANNELS ==> !Active(g.vcs[k])
            then f.vcid == 7 && f.fhp == 0x7fe && |f.data| == cfg.dataLen && AllZero(f.data)
            else
              && f.vcid < CHANNELS && Active(g.vcs[f.vcid]) && (forall k :: 0 <= k < f.vcid ==> !Active(g.vcs[k]))
              && var r := Pack(g.vcs[f.vcid].pending, g.vcs[f.vcid].rem, cfg.dataLen);
                 r.Packed? && f.data == r.bytes && f.fhp == if r.first < 0 then 0x7ff else r.first
  {
    SelectLowest(g.vcs, 0);
  }

  lemma {:induction false} SelectLowest(vcs: seq<Vc>, k: nat)
    requires k <= |vcs|
    ensures Select(vcs, k).None? <==> forall i :: k <= i < |vcs| ==> !Active(vcs[i])
    ensures Select(vcs, k).Some? ==> var v := Select(vcs, k).value;
              k <= v < |vcs| && Active(vcs[v]) && forall i :: k <= i < v ==> !Active(vcs[i])
    decreases |vcs| - k
  {
    if k < |vcs| && !Active(vcs[k]) {
      SelectLowest(vcs, k + 1);
    }
  }

  function Counted(g: Generator, vcid: nat, v: Vc): Generator
    requires vcid < |g.vcs|
  {
    Generator(g.vcs[vcid := v.(vcfc := Next8(v.vcfc))], Next8(g.mcfc))
  }

  /** How many bytes of a packet the queue takes. */
  function Taken(cfg: Config, v: Vc, packet: seq<byte>): (n: nat)
    ensures n <= |packet|
  {
    if |v.pending| + |packet| <= cfg.depth then |packet| else if |v.pending| < cfg.depth then cfg.depth - |v.pending| else 0
  }

  predicate HasRoom(cfg: Config, v: Vc, packet: seq<byte>) { |v.pending| + |packet| <= cfg.depth }

  /** What the queue takes of an admissible packet before it is full stays there, whether or not it is all. */
  function Add(cfg: Config, g: Generator, vcid: nat, packet: seq<byte>): Generator
    requires |g.vcs| == CHANNELS
  {
    if Admissible(cfg, vcid, packet) then
      var v := g.vcs[vcid];
      g.(vcs := g.vcs[vcid := v.(pending := v.pending + packet[..Taken(cfg, v, packet)])])
    else g
  }

  lemma {:induction false} SelectInRange(vcs: seq<Vc>, k: nat)
    requires k <= |vcs|
    ensures Select(vcs, k).Some? ==> k <= Select(vcs, k).value < |vcs|
    decreases |vcs| - k
  {
    if k < |vcs| && !Active(vcs[k]) {
      SelectInRange(vcs, k + 1);
    }
  }

  // ---- Runs ----

  datatype Event = Admit(vcid: nat, packet: seq<byte>) | Tick

  function StateAt(cfg: Config, events: seq<Event>, n: nat): (g: Generator)
    requires n <= |events| && cfg.dataLen < U16
    ensures |g.vcs| == CHANNELS
  {
    if n == 0 then Generator(seq(CHANNELS, _ => Vc([], 0, 0)), 0)
    else
      var g := StateAt(cfg, events, n - 1);
      match events[n - 1]
      case Admit(vcid, packet) => Add(cfg, g, vcid, packet)
      case Tick => Cycle(cfg, g).0
  }

  function FrameAt(cfg: Config, events: seq<Event>, n: nat): Option<Frame>
    requires n < |events| && cfg.dataLen < U16
  {
    if events[n].Tick? then Cycle(cfg, StateAt(cfg, events, n)).1 else None
  }

  /** Whether event n adds a packet to the channel. */
  predicate AdmitsTo(cfg: Config, e: Event, v: nat) {
    e.Admit? && e.vcid == v && Admissible(cfg, e.vcid, e.packet)
  }

  /** Whether event n builds a packet frame of the channel. */
  predicate Builds(cfg: Config, events: seq<Event>, v: nat, n: nat)
    requires n < |events| && cfg.dataLen < U16
  {
    events[n].Tick? && Select(StateAt(cfg, events, n).vcs, 0) == Some(v)
  }

  /** Everything admitted to a channel, in order. */
  function Admitted(cfg: Config, events: seq<Event>, v: nat, n: nat): seq<seq<byte>>
    requires n <= |events|
  {
    if n == 0 then []
    else Admitted(cfg, events, v, n - 1) + if AdmitsTo(cfg, events[n - 1], v) then [events[n - 1].packet] else []
  }

  /** What is left in a channel's queue, and which packets have gone out completely. */
  function Sent(cfg: Config, events: seq<Event>, v: nat, n: nat): Moved
    requires n <= |events| && cfg.dataLen < U16
  {
    if n == 0 then Moved([], Queue([], [], []))
    else
      var s := Sent(cfg, events, v, n - 1);
      if AdmitsTo(cfg, events[n - 1], v) then s.(q := s.q.(packets := s.q.packets + [events[n - 1].packet]))
      else if Builds(cfg, events, v, n - 1) then
        var m := Move(s.q, cfg.dataLen);
        Moved(s.packets + m.packets, m.q)
      else s
  }

  /** How many packets have at least begun to go out. */
  function Started(s: Moved): nat { |s.packets| + if s.q.tail == [] then 0 else 1 }

  /** Every packet offered to the channel is a proper one and finds room in the queue. */
  ghost predicate ProperTo(cfg: Config, events: seq<Event>, v: nat)
    requires cfg.dataLen < U16 && v < CHANNELS
  {
    forall i :: 0 <= i < |events| && AdmitsTo(cfg, events[i], v) ==>
                  Proper(events[i].packet) && HasRoom(cfg, StateAt(cfg, events, i).vcs[v], events[i].packet)
  }

  /** No packet frame of the channel built from event j on, before event n, ends in an all-zero packet header. */
  ghost predicate Legible(cfg: Config, events: seq<Event>, v: nat, j: nat, n: nat)
    requires n <= |events| && cfg.dataLen < U16
  {
    forall i :: j <= i < n && Builds(cfg, events, v, i) ==> !Hidden(Sent(cfg, events, v, i).q, cfg.dataLen)
  }

  // ---- The bytes queued are the packets queued ----

  ghost predicate Matches(g: Generator, v: nat, s: Moved, admitted: seq<seq<byte>>) {
    && v < |g.vcs| && g.vcs[v].pending == Bytes(s.q) && g.vcs[v].rem == |s.q.tail| && Sound(s.q)
    && admitted == s.packets + Held(s.q)
  }

  lemma {:induction false} FlatAppend(packets: seq<seq<byte>>, p: seq<byte>)
    ensures Flat(packets + [p]) == Flat(packets) + p
    decreases |packets|
  {
    if packets == [] {
      assert Flat([p]) == p + Flat([]);
      assert [] + [p] == [p];
    } else {
      assert (packets + [p])[1..] == packets[1..] + [p];
      FlatAppend(packets[1..], p);
      ConcatAssociative(packets[0], Flat(packets[1..]), p);
    }
  }

  lemma AdmitMatches(g: Generator, v: nat, s: Moved, admitted: seq<seq<byte>>, p: seq<byte>, h: Generator)
    requires Matches(g, v, s, admitted) && Proper(p)
    requires v < |h.vcs| && h.vcs[v] == g.vcs[v].(pending := g.vcs[v].pending + p)
    ensures Matches(h, v, s.(q := s.q.(packets := s.q.packets + [p])), admitted + [p])
  {
    var q := s.q.(packets := s.q.packets + [p]);
    FlatAppend(s.q.packets, p);
    ConcatAssociative(s.q.tail, Flat(s.q.packets), p);
    var cur := if s.q.tail == [] then [] else [s.q.head + s.q.tail];
    assert Held(q) == Held(s.q) + [p] by { ConcatAssociative(cur, s.q.packets, [p]); }
    ConcatAssociative(s.packets, Held(s.q), [p]);
  }

  lemma BuildMatches(cfg: Config, g: Generator, v: nat, s: Moved, admitted: seq<seq<byte>>)
    requires Matches(g, v, s, admitted) && |g.vcs| == CHANNELS && cfg.dataLen < U16 && Select(g.vcs, 0) == Some(v)
    ensures var m := Move(s.q, cfg.dataLen);
            Matches(Cycle(cfg, g).0, v, Moved(s.packets + m.packets, m.q), admitted) && Cycle(cfg, g).1.Some?
  {
    PackFollows(s.q, cfg.dataLen);
    MoveConserves(s.q, cfg.dataLen);
    var m := Move(s.q, cfg.dataLen);
    ConcatAssociative(s.packets, m.packets, Held(m.q));
  }

  lemma CycleLeavesOthers(cfg: Config, g: Generator, v: nat)
    requires |g.vcs| == CHANNELS && cfg.dataLen < U16 && v < CHANNELS && Select(g.vcs, 0) != Some(v)
    ensures var h := Cycle(cfg, g).0; |h.vcs| == CHANNELS && h.vcs[v].pending == g.vcs[v].pending && h.vcs[v].rem == g.vcs[v].rem
  {
  }

  lemma OthersMatch(cfg: Config, g: Generator, e: Event, v: nat, s: Moved, admitted: seq<seq<byte>>, h: Generator)
    requires Matches(g, v, s, admitted) && |g.vcs| == CHANNELS && cfg.dataLen < U16 && v < CHANNELS && !AdmitsTo(cfg, e, v)
    requires e.Tick? ==> Select(g.vcs, 0) != Some(v) && h == Cycle(cfg, g).0
    requires e.Admit? ==> h == Add(cfg, g, e.vcid, e.packet)
    ensures Matches(h, v, s, admitted)
  {
    if e.Tick? {
      CycleLeavesOthers(cfg, g, v);
    }
  }

  /** In every run: the queue of bytes is the queue of packets, and nothing admitted is lost, doubled or reordered. */
  lemma {:induction false} RunMatches(cfg: Config, events: seq<Event>, v: nat, n: nat)
    requires n <= |events| && cfg.dataLen < U16 && v < CHANNELS && ProperTo(cfg, events, v)
    ensures Matches(StateAt(cfg, events, n), v, Sent(cfg, events, v, n), Admitted(cfg, events, v, n))
  {
    if n > 0 {
      RunMatches(cfg, events, v, n - 1);
      var g, s, e := StateAt(cfg, events, n - 1), Sent(cfg, events, v, n - 1), events[n - 1];
      var a := Admitted(cfg, events, v, n - 1);
      if AdmitsTo(cfg, e, v) {
        AdmitMatches(g, v, s, a, e.packet, StateAt(cfg, events, n));
      } else if Builds(cfg, events, v, n - 1) {
        BuildMatches(cfg, g, v, s, a);
        assert a + [] == a;
      } else {
        OthersMatch(cfg, g, e, v, s, a, StateAt(cfg, events, n));
        assert a + [] == a;
      }
    }
  }

  // ---- A receiver that joins at any frame ----

  datatype Deframer = Hunting | Synced(packets: seq<seq<byte>>, carry: seq<byte>, rem: nat)

  /** Frames before the first one with a packet start are skipped, and so are idle frames. */
  function Hear(d: Deframer, f: Frame): Deframer {
    if f.fhp == IDLE_FRAME then d
    else if d.Hunting? then
      if f.fhp >= |f.data| then Hunting
      else
        var r := Deframe([], 0, f.data[f.fhp..]);
        Synced(r.packets, r.carry, r.rem)
    else
      var r := Deframe(d.carry, d.rem, f.data);
      Synced(d.packets + r.packets, r.carry, r.rem)
  }

  /** The deframer of a channel that starts to listen before event j, after event n - 1. */
  function Heard(cfg: Config, events: seq<Event>, v: nat, j: nat, n: nat): Deframer
    requires j <= n <= |events| && cfg.dataLen < U16
    decreases n - j
  {
    if n == j then Hunting
    else
      var d, f := Heard(cfg, events, v, j, n - 1), FrameAt(cfg, events, n - 1);
      if f.Some? && f.value.vcid == v then Hear(d, f.value) else d
  }

  /** What the deframer knows: nothing yet, or the packet under way and all that were completed since `start`. */
  ghost predicate Tracks(d: Deframer, s: Moved, start: nat) {
    match d
    case Hunting => Started(s) == start
    case Synced(packets, carry, rem) =>
      carry == s.q.head && rem == |s.q.tail| && start <= |s.packets| && packets == s.packets[start..]
  }

  lemma AppendFrom<T>(a: seq<T>, b: seq<T>, start: nat)
    requires start <= |a|
    ensures (a + b)[start..] == a[start..] + b
  {
  }

  lemma SyncedTracks(d: Deframer, s: Moved, start: nat, dataLen: nat, f: Frame)
    requires d.Synced? && Tracks(d, s, start) && Sound(s.q) && dataLen < U16 && f.fhp != IDLE_FRAME
    requires var r := Pack(Bytes(s.q), |s.q.tail|, dataLen); r.Packed? && f.data == r.bytes
    requires !Hidden(s.q, dataLen)
    ensures var m := Move(s.q, dataLen); Tracks(Hear(d, f), Moved(s.packets + m.packets, m.q), start)
  {
    PackFollows(s.q, dataLen);
    AppendFrom(s.packets, Move(s.q, dataLen).packets, start);
  }

  /** No start in the frame: the packet under way may end, but none begins. */
  lemma StillHunting(s: Moved, dataLen: nat)
    requires Sound(s.q) && Move(s.q, dataLen).q.packets == s.q.packets
    ensures var m := Move(s.q, dataLen); Started(Moved(s.packets + m.packets, m.q)) == Started(s)
  {
    MoveConserves(s.q, dataLen);
    var m := Move(s.q, dataLen);
    assert |m.packets| + |Held(m.q)| == |Held(s.q)|;
  }

  lemma JoinTracks(s: Moved, dataLen: nat, f: Frame)
    requires Sound(s.q) && dataLen < U16 && |s.q.tail| < dataLen == |f.data| && f.fhp == |s.q.tail| != IDLE_FRAME
    requires var rest := Pack(Flat(s.q.packets), 0, dataLen - |s.q.tail|); rest.Packed? && f.data[f.fhp..] == rest.bytes
    requires !Hidden(s.q, dataLen)
    ensures var m := Move(s.q, dataLen); Tracks(Hear(Hunting, f), Moved(s.packets + m.packets, m.q), Started(s))
  {
    var next := Queue([], [], s.q.packets);
    JoinMoves(s.q, dataLen);
    JoinHears(next, dataLen - |s.q.tail|, f);
    var moved, m := Move(next, dataLen - |s.q.tail|), Move(s.q, dataLen);
    DropFirst(s.packets, m.packets, moved.packets, if s.q.tail == [] then 0 else 1);
  }

  lemma DropFirst<T>(a: seq<T>, b: seq<T>, c: seq<T>, k: nat)
    requires k <= |b| && b[k..] == c
    ensures (a + b)[|a| + k..] == c
  {
  }

  lemma JoinHears(next: Queue, left: nat, f: Frame)
    requires Sound(next) && next.tail == [] && left < U16 && f.fhp < |f.data| && f.fhp != IDLE_FRAME
    requires var rest := Pack(Flat(next.packets), 0, left); rest.Packed? && f.data[f.fhp..] == rest.bytes
    requires !Hidden(next, left)
    ensures var moved := Move(next, left); Hear(Hunting, f) == Synced(moved.packets, moved.q.head, |moved.q.tail|)
  {
    assert Bytes(next) == Flat(next.packets);
    PackFollows(next, left);
  }

  lemma JoinMoves(q: Queue, space: nat)
    requires Sound(q) && |q.tail| < space
    ensures var k := if q.tail == [] then 0 else 1;
            var moved, m := Move(Queue([], [], q.packets), space - |q.tail|), Move(q, space);
            m.q == moved.q && k <= |m.packets| && m.packets[k..] == moved.packets
  {
  }

  lemma BuildTracks(cfg: Config, g: Generator, v: nat, s: Moved, admitted: seq<seq<byte>>, d: Deframer, start: nat)
    requires ValidConfig(cfg) && Matches(g, v, s, admitted) && |g.vcs| == CHANNELS && Select(g.vcs, 0) == Some(v)
    requires Tracks(d, s, start) && Cycle(cfg, g).1.Some? && !Hidden(s.q, cfg.dataLen)
    ensures var m := Move(s.q, cfg.dataLen); Tracks(Hear(d, Cycle(cfg, g).1.value), Moved(s.packets + m.packets, m.q), start)
  {
    var f, len := Cycle(cfg, g).1.value, cfg.dataLen;
    FirstStart(s.q, len);
    var r := Pack(Bytes(s.q), |s.q.tail|, len);
    assert f.data == r.bytes && f.fhp == Pointer(r.first);
    if d.Synced? {
      SyncedTracks(d, s, start, len, f);
    } else if r.first < 0 {
      StillHunting(s, len);
    } else {
      JoinTracks(s, len, f);
    }
  }

  lemma BuildHeard(cfg: Config, g: Generator, v: nat, s: Moved, admitted: seq<seq<byte>>, d: Deframer, start: nat)
    requires ValidConfig(cfg) && Matches(g, v, s, admitted) && |g.vcs| == CHANNELS && Select(g.vcs, 0) == Some(v)
    requires Tracks(d, s, start) && !Hidden(s.q, cfg.dataLen)
    ensures var m, f := Move(s.q, cfg.dataLen), Cycle(cfg, g).1;
            f.Some? && f.value.vcid == v && Tracks(Hear(d, f.value), Moved(s.packets + m.packets, m.q), start)
  {
    BuildMatches(cfg, g, v, s, admitted);
    BuildTracks(cfg, g, v, s, admitted, d, start);
    CycleNames(cfg, g, v);
  }

  lemma AdmitTracks(d: Deframer, s: Moved, start: nat, p: seq<byte>)
    requires Tracks(d, s, start)
    ensures Tracks(d, s.(q := s.q.(packets := s.q.packets + [p])), start)
  {
  }

  lemma IdleFrameOnly(cfg: Config, g: Generator, v: nat)
    requires |g.vcs| == CHANNELS && cfg.dataLen < U16 && Select(g.vcs, 0) != Some(v)
    ensures var f := Cycle(cfg, g).1; f.Some? && f.value.vcid == v ==> f.value.fhp == IDLE_FRAME
  {
  }

  /** One event: the packet side, and the deframer if a frame of the channel comes out. */
  lemma StepTracks(
    cfg: Config, g: Generator, e: Event, v: nat, s: Moved, admitted: seq<seq<byte>>, d: Deframer, start: nat,
    f: Option<Frame>, t: Moved, h: Deframer)
    requires ValidConfig(cfg) && |g.vcs| == CHANNELS && Matches(g, v, s, admitted) && Tracks(d, s, start)
    requires f == if e.Tick? then Cycle(cfg, g).1 else None
    requires var builds := e.Tick? && Select(g.vcs, 0) == Some(v);
             && (builds ==> !Hidden(s.q, cfg.dataLen))
             && t == if AdmitsTo(cfg, e, v) then s.(q := s.q.(packets := s.q.packets + [e.packet]))
                     else if builds then var m := Move(s.q, cfg.dataLen); Moved(s.packets + m.packets, m.q)
                     else s
    requires h == if f.Some? && f.value.vcid == v then Hear(d, f.value) else d
    ensures Tracks(h, t, start)
  {
    if AdmitsTo(cfg, e, v) {
      AdmitTracks(d, s, start, e.packet);
    } else if e.Tick? && Select(g.vcs, 0) == Some(v) {
      BuildHeard(cfg, g, v, s, admitted, d, start);
    } else if e.Tick? {
      IdleFrameOnly(cfg, g, v);
    }
  }

  lemma {:induction false} HeardTracks(cfg: Config, events: seq<Event>, v: nat, j: nat, n: nat)
    requires j <= n <= |events| && ValidConfig(cfg) && v < CHANNELS && ProperTo(cfg, events, v)
    requires Legible(cfg, events, v, j, n)
    ensures Tracks(Heard(cfg, events, v, j, n), Sent(cfg, events, v, n), Started(Sent(cfg, events, v, j)))
    decreases n - j
  {
    if n > j {
      HeardTracks(cfg, events, v, j, n - 1);
      RunMatches(cfg, events, v, n - 1);
      StepTracks(cfg, StateAt(cfg, events, n - 1), events[n - 1], v, Sent(cfg, events, v, n - 1), Admitted(cfg, events, v, n - 1),
                 Heard(cfg, events, v, j, n - 1), Started(Sent(cfg, events, v, j)),
                 FrameAt(cfg, events, n - 1), Sent(cfg, events, v, n), Heard(cfg, events, v, j, n));
    }
  }

  lemma CycleNames(cfg: Config, g: Generator, v: nat)
    requires |g.vcs| == CHANNELS && cfg.dataLen < U16 && Select(g.vcs, 0) == Some(v) && Cycle(cfg, g).1.Some?
    ensures Cycle(cfg, g).1.value.vcid == v
  {
  }

  function Recovered(d: Deframer): seq<seq<byte>> { if d.Hunting? then [] else d.packets }

  /**
    For every interleaving of admissions and cycles, a deframer that starts to listen to a
    channel before any event j and aligns itself by the first header pointer has recovered,
    after event n - 1, exactly the packets whose headers went out from event j on and that are
    complete, in order and byte for byte.
   */
  lemma StreamRecovery(cfg: Config, events: seq<Event>, v: nat, j: nat, n: nat)
    requires j <= n <= |events| && ValidConfig(cfg) && v < CHANNELS && ProperTo(cfg, events, v)
    requires Legible(cfg, events, v, j, n)
    ensures var start, done := Started(Sent(cfg, events, v, j)), |Sent(cfg, events, v, n).packets|;
            && done <= |Admitted(cfg, events, v, n)|
            && Recovered(Heard(cfg, events, v, j, n)) == if start <= done then Admitted(cfg, events, v, n)[start..done] else []
  {
    HeardTracks(cfg, events, v, j, n);
    RunMatches(cfg, events, v, n);
    var s, a, start := Sent(cfg, events, v, n), Admitted(cfg, events, v, n), Started(Sent(cfg, events, v, j));
    assert a[..|s.packets|] == s.packets;
    if start <= |s.packets| {
      assert a[start..|s.packets|] == s.packets[start..];
    }
  }

  /** Once a channel has drained, whoever listened from the start has every admitted packet. */
  lemma AllRecovered(cfg: Config, events: seq<Event>, v: nat, n: nat)
    requires n <= |events| && ValidConfig(cfg) && v < CHANNELS && ProperTo(cfg, events, v)
    requires Legible(cfg, events, v, 0, n) && !Active(StateAt(cfg, events, n).vcs[v])
    ensures Recovered(Heard(cfg, events, v, 0, n)) == Admitted(cfg, events, v, n)
  {
    StreamRecovery(cfg, events, v, 0, n);
    RunMatches(cfg, events, v, n);
    var s, a := Sent(cfg, events, v, n), Admitted(cfg, events, v, n);
    FlatEmpty(s.q.packets);
    assert a == s.packets + [] == s.packets && a[0..|a|] == a;
  }

  /** Frames are legible whenever no packet admitted to the channel has an all-zero header. */
  lemma NonzeroHeadersLegible(cfg: Config, events: seq<Event>, v: nat, j: nat, n: nat)
    requires n <= |events| && ValidConfig(cfg) && v < CHANNELS && ProperTo(cfg, events, v)
    requires forall i :: 0 <= i < |events| && AdmitsTo(cfg, events[i], v) ==> !AllZero(events[i].packet[..HEADER])
    ensures Legible(cfg, events, v, j, n)
  {
    forall i | j <= i < n && Builds(cfg, events, v, i) ensures !Hidden(Sent(cfg, events, v, i).q, cfg.dataLen) {
      RunMatches(cfg, events, v, i + 1);
      NonzeroAdmitted(cfg, events, v, i + 1);
      var s, a := Sent(cfg, events, v, i + 1), Admitted(cfg, events, v, i + 1);
      assert s.q == Move(Sent(cfg, events, v, i).q, cfg.dataLen).q;
      if s.q.tail != [] && |s.q.head| == HEADER {
        assert a[|s.packets|] == s.q.head + s.q.tail;
        assert (s.q.head + s.q.tail)[..HEADER] == s.q.head;
      }
    }
  }

  lemma {:induction false} NonzeroAdmitted(cfg: Config, events: seq<Event>, v: nat, n: nat)
    requires n <= |events|
    requires forall i :: 0 <= i < |events| && AdmitsTo(cfg, events[i], v) ==> !AllZero(events[i].packet[..HEADER])
    ensures forall k :: 0 <= k < |Admitted(cfg, events, v, n)|
              ==> |Admitted(cfg, events, v, n)[k]| >= HEADER && !AllZero(Admitted(cfg, events, v, n)[k][..HEADER])
  {
    if n > 0 {
      NonzeroAdmitted(cfg, events, v, n - 1);
    }
  }

  // ---- Frame counters ----

  function FramesBefore(cfg: Config, events: seq<Event>, n: nat): nat
    requires n <= |events| && cfg.dataLen < U16
  {
    if n == 0 then 0 else FramesBefore(cfg, events, n - 1) + if FrameAt(cfg, events, n - 1).Some? then 1 else 0
  }

  function FramesOf(cfg: Config, events: seq<Event>, v: nat, n: nat): nat
    requires n <= |events| && cfg.dataLen < U16
  {
    if n == 0 then 0
    else
      var f := FrameAt(cfg, events, n - 1);
      FramesOf(cfg, events, v, n - 1) + if f.Some? && f.value.vcid == v then 1 else 0
  }

  lemma CycleCounts(cfg: Config, g: Generator, v: nat)
    requires |g.vcs| == CHANNELS && cfg.dataLen < U16 && v < CHANNELS
    ensures var c := Cycle(cfg, g);
            && |c.0.vcs| == CHANNELS
            && (c.1.Some? ==> c.1.value.mcfc == g.mcfc && c.1.value.vcid < CHANNELS
                              && c.1.value.vcfc == g.vcs[c.1.value.vcid].vcfc)
            && c.0.mcfc == (if c.1.Some? then Next8(g.mcfc) else g.mcfc)
            && c.0.vcs[v].vcfc == (if c.1.Some? && c.1.value.vcid == v then Next8(g.vcs[v].vcfc) else g.vcs[v].vcfc)
  {
  }

  lemma NextModulo(n: nat, b: byte)
    requires b == n % 256
    ensures Next8(b) == (n + 1) % 256
  {
  }

  lemma StepNumbers(cfg: Config, g: Generator, e: Event, h: Generator, f: Option<Frame>, v: nat, frames: nat, own: nat)
    requires |g.vcs| == CHANNELS && cfg.dataLen < U16 && v < CHANNELS && g.mcfc == frames % 256 && g.vcs[v].vcfc == own % 256
    requires if e.Tick? then (h, f) == Cycle(cfg, g) else h == Add(cfg, g, e.vcid, e.packet) && f == None
    ensures |h.vcs| == CHANNELS && h.mcfc == (frames + if f.Some? then 1 else 0) % 256
    ensures h.vcs[v].vcfc == (own + if f.Some? && f.value.vcid == v then 1 else 0) % 256
  {
    if e.Tick? {
      CycleNumbers(cfg, g, v, frames, own);
    } else {
      AddKeepsCounters(cfg, g, e.vcid, e.packet, v);
    }
  }

  /** Counters number the frames emitted modulo 256, on the master channel and on each virtual channel. */
  lemma {:induction false} CountersNumberFrames(cfg: Config, events: seq<Event>, v: nat, n: nat)
    requires n <= |events| && cfg.dataLen < U16 && v < CHANNELS
    ensures StateAt(cfg, events, n).mcfc == FramesBefore(cfg, events, n) % 256
    ensures StateAt(cfg, events, n).vcs[v].vcfc == FramesOf(cfg, events, v, n) % 256
  {
    if n > 0 {
      CountersNumberFrames(cfg, events, v, n - 1);
      StepNumbers(cfg, StateAt(cfg, events, n - 1), events[n - 1], StateAt(cfg, events, n), FrameAt(cfg, events, n - 1), v,
                  FramesBefore(cfg, events, n - 1), FramesOf(cfg, events, v, n - 1));
    }
  }

  lemma AddKeepsCounters(cfg: Config, g: Generator, vcid: nat, packet: seq<byte>, v: nat)
    requires |g.vcs| == CHANNELS && v < CHANNELS
    ensures var h := Add(cfg, g, vcid, packet); |h.vcs| == CHANNELS && h.mcfc == g.mcfc && h.vcs[v].vcfc == g.vcs[v].vcfc
  {
  }

  lemma CycleNumbers(cfg: Config, g: Generator, v: nat, frames: nat, own: nat)
    requires |g.vcs| == CHANNELS && cfg.dataLen < U16 && v < CHANNELS
    requires g.mcfc == frames % 256 && g.vcs[v].vcfc == own % 256
    ensures var c := Cycle(cfg, g);
            && |c.0.vcs| == CHANNELS
            && c.0.mcfc == (frames + if c.1.Some? then 1 else 0) % 256
            && c.0.vcs[v].vcfc == (own + if c.1.Some? && c.1.value.vcid == v then 1 else 0) % 256
  {
    CycleCounts(cfg, g, v);
    NextModulo(frames, g.mcfc);
    NextModulo(own, g.vcs[v].vcfc);
  }

  /** The counters in an emitted frame continue those of the frames before it. */
  lemma FrameCounters(cfg: Config, events: seq<Event>, n: nat)
    requires n < |events| && cfg.dataLen < U16 && FrameAt(cfg, events, n).Some?
    ensures var f := FrameAt(cfg, events, n).value;
            && f.vcid < CHANNELS && f.mcfc == FramesBefore(cfg, events, n) % 256
            && f.vcfc == FramesOf(cfg, events, f.vcid, n) % 256
  {
    var g := StateAt(cfg, events, n);
    CycleCounts(cfg, g, 0);
    CountersNumberFrames(cfg, events, FrameAt(cfg, events, n).value.vcid, n);
  }
}
