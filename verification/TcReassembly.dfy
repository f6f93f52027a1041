/**
  Telecommand segments: the walk over the packets or fragments a segment carries, and the
  reassembly of fragmented Space Packets, one MAP at a time, in a fixed buffer.
 */
module TcReassembly {
  import opened CfdpTypes
  import opened Sequences
  import opened SpacePacket

  datatype Boundary = Continuation | First | Last | Unsegmented

  datatype Segment = Segment(boundary: Boundary, mapId: nat, data: seq<byte>)

  /** What the walk hands to the reassembly. */
  datatype Part = Part(mapId: nat, starts: bool, ends: bool, data: seq<byte>, packetLen: nat)

  datatype Code = Done | Busy | BadSegment | TooLong | HandlerFailed

  datatype Packet = Packet(mapId: nat, bytes: seq<byte>)

  /** The reassembly buffer and the packets handed to the router so far. */
  datatype State = State(active: bool, mapId: nat, buffer: seq<byte>, expected: nat, log: seq<Packet>)

  /** The buffer size, and whether the handler of a packet reports success. */
  datatype Config = Config(capacity: nat, handled: Packet -> bool)

  function BoundaryOf(code: nat): Boundary {
    if code == 0 then Continuation else if code == 1 then First else if code == 2 then Last else Unsegmented
  }

  function CodeOf(b: Boundary): nat {
    match b
    case Continuation => 0
    case First => 1
    case Last => 2
    case Unsegmented => 3
  }

  function DecodeSegment(buf: seq<byte>): Result<Segment> {
    if buf == [] then Err(InvalidArgument) else Ok(Segment(BoundaryOf(buf[0] / 64), buf[0] % 64, buf[1..]))
  }

  function EncodeSegment(s: Segment): seq<byte>
    requires s.mapId < 64
  {
    [CodeOf(s.boundary) * 64 + s.mapId] + s.data
  }

  lemma SegmentRoundTrip(s: Segment)
    requires s.mapId < 64
    ensures DecodeSegment(EncodeSegment(s)) == Ok(s)
  {
  }

  /** The segment header byte: two bits of sequence flags and six of MAP identifier. */
  lemma SegmentFormat(buf: seq<byte>, s: Segment)
    ensures DecodeSegment(buf) == Ok(s)
       <==> && buf != [] && s.data == buf[1..] && s.mapId == buf[0] % 64
            && s.boundary == if buf[0] < 0x40 then Continuation else if buf[0] < 0x80 then First
                             else if buf[0] < 0xc0 then Last else Unsegmented
  {
  }

  function Idle(s: State): State { State(false, 0, [], 0, s.log) }

  /** Decoding `bytes` as a Space Packet and giving it to its handler. */
  function Dispatch(cfg: Config, s: State, mapId: nat, bytes: seq<byte>): (State, Code) {
    if |bytes| < HEADER then (s, BadSegment)
    else if |bytes| < PacketLen(bytes) then (s, TooLong)
    else
      var p := Packet(mapId, bytes[..PacketLen(bytes)]);
      (s.(log := s.log + [p]), if cfg.handled(p) then Done else HandlerFailed)
  }

  /** The fragment is appended; the last one completes the packet or drops it. */
  function Append(cfg: Config, s: State, p: Part): (State, Code) {
    if |p.data| > cfg.capacity - |s.buffer| then (Idle(s), TooLong)
    else
      var a := s.(buffer := s.buffer + p.data);
      if a.expected > cfg.capacity || |a.buffer| > a.expected then (Idle(a), TooLong)
      else if !p.ends then (a, Done)
      else if |a.buffer| != a.expected then (Idle(a), TooLong)
      else
        var d := Dispatch(cfg, a, a.mapId, a.buffer);
        (Idle(d.0), d.1)
  }

  /** dispatch_tc_segment_part. */
  function OnPart(cfg: Config, s: State, p: Part): (State, Code) {
    if p.starts && p.ends then
      if s.active then (s, Busy) else Dispatch(cfg, s, p.mapId, p.data)
    else if p.starts then
      if s.active then (Idle(s), Busy)
      else if p.packetLen == 0 || p.packetLen > cfg.capacity then (s, TooLong)
      else Append(cfg, s.(active := true, mapId := p.mapId, buffer := [], expected := p.packetLen), p)
    else if !s.active || s.mapId != p.mapId then (Idle(s), BadSegment)
    else Append(cfg, s, p)
  }

  function WalkPackets(cfg: Config, s: State, seg: Segment, offset: nat): (State, Code)
    requires offset <= |seg.data|
    decreases |seg.data| - offset
  {
    if offset == |seg.data| then (s, Done)
    else
      var data := seg.data[offset..];
      if |data| < HEADER || PacketLen(data) > |data| then (s, BadSegment)
      else
        var len := PacketLen(data);
        var r := OnPart(cfg, s, Part(seg.mapId, true, true, data[..len], len));
        if r.1 != Done then r else WalkPackets(cfg, r.0, seg, offset + len)
  }

  /** ccsds_tc_segment_walk_parts with the reassembly as its handler. */
  function Walk(cfg: Config, s: State, seg: Segment): (State, Code) {
    if seg.data == [] then (s, BadSegment)
    else match seg.boundary
    case Continuation => OnPart(cfg, s, Part(seg.mapId, false, false, seg.data, 0))
    case Last => OnPart(cfg, s, Part(seg.mapId, false, true, seg.data, 0))
    case First =>
      if MalformedFirst(seg) then (s, BadSegment)
      else OnPart(cfg, s, Part(seg.mapId, true, false, seg.data, PacketLen(seg.data)))
    case Unsegmented => WalkPackets(cfg, s, seg, 0)
  }

  /** A first fragment that holds no header, or already the whole packet. */
  predicate MalformedFirst(seg: Segment) {
    |seg.data| < HEADER || PacketLen(seg.data) <= |seg.data|
  }

  // ---- The program's own form ----

  class Reassembly {
    const cfg: Config
    var active: bool
    var mapId: nat
    var len: nat
    var expected: nat
    const buffer: array<byte>
    var log: seq<Packet>

    ghost predicate Valid()
      reads this
    {
      len <= buffer.Length == cfg.capacity
    }

    function Value(): State
      requires len <= buffer.Length
      reads this, buffer
    {
      State(active, mapId, buffer[..len], expected, log)
    }

    constructor (cfg: Config)
      ensures Valid() && this.cfg == cfg && fresh(buffer) && Value() == State(false, 0, [], 0, [])
    {
      this.cfg := cfg;
      active, mapId, len, expected, log := false, 0, 0, 0, [];
      buffer := new byte[cfg.capacity](_ => 0);
    }

    method Reset()
      requires Valid()
      modifies this`active, this`mapId, this`len, this`expected
      ensures Valid() && Value() == Idle(old(Value()))
    {
      active, mapId, len, expected := false, 0, 0, 0;
    }

    method Copy(data: seq<byte>)
      requires Valid() && len + |data| <= buffer.Length
      modifies this`len, buffer
      ensures Valid() && buffer[..len] == old(buffer[..len]) + data
    {
      ghost var was := buffer[..len];
      for i := 0 to |data|
        invariant len == old(len)
        invariant forall k :: 0 <= k < len ==> buffer[k] == was[k]
        invariant forall k :: 0 <= k < i ==> buffer[len + k] == data[k]
      {
        buffer[len + i] := data[i];
      }
      len := len + |data|;
    }

    method DispatchBytes(packetMap: nat, bytes: seq<byte>) returns (code: Code)
      requires Valid()
      modifies this`log
      ensures (Value(), code) == Dispatch(cfg, old(Value()), packetMap, bytes)
    {
      if |bytes| < HEADER {
        return BadSegment;
      }
      if |bytes| < PacketLen(bytes) {
        return TooLong;
      }
      var p := Packet(packetMap, bytes[..PacketLen(bytes)]);
      log := log + [p];
      return if cfg.handled(p) then Done else HandlerFailed;
    }

    method AppendPart(p: Part) returns (code: Code)
      requires Valid()
      modifies this, buffer
      ensures Valid() && (Value(), code) == Append(cfg, old(Value()), p)
    {
      if |p.data| > buffer.Length - len {
        Reset();
        return TooLong;
      }
      Copy(p.data);
      if expected > buffer.Length || len > expected {
        Reset();
        return TooLong;
      }
      if !p.ends {
        return Done;
      }
      if len != expected {
        Reset();
        return TooLong;
      }
      code := DispatchBytes(mapId, buffer[..len]);
      Reset();
    }

    method Accept(p: Part) returns (code: Code)
      requires Valid()
      modifies this, buffer
      ensures Valid() && (Value(), code) == OnPart(cfg, old(Value()), p)
    {
      if p.starts && p.ends {
        if active {
          return Busy;
        }
        code := DispatchBytes(p.mapId, p.data);
        return;
      }
      if p.starts {
        if active {
          Reset();
          return Busy;
        }
        if p.packetLen == 0 || p.packetLen > buffer.Length {
          return TooLong;
        }
        active, mapId, len, expected := true, p.mapId, 0, p.packetLen;
      } else if !active || mapId != p.mapId {
        Reset();
        return BadSegment;
      }
      code := AppendPart(p);
    }

    method WalkParts(seg: Segment) returns (code: Code)
      requires Valid()
      modifies this, buffer
      ensures Valid() && (Value(), code) == Walk(cfg, old(Value()), seg)
    {
      if |seg.data| == 0 {
        return BadSegment;
      }
      if seg.boundary == Continuation || seg.boundary == Last {
        code := Accept(Part(seg.mapId, false, seg.boundary == Last, seg.data, 0));
        return;
      }
      if seg.boundary == First {
        if MalformedFirst(seg) {
          return BadSegment;
        }
        code := Accept(Part(seg.mapId, true, false, seg.data, PacketLen(seg.data)));
        return;
      }
      var offset := 0;
      while offset < |seg.data|
        invariant Valid() && offset <= |seg.data|
        invariant Walk(cfg, old(Value()), seg) == WalkPackets(cfg, Value(), seg, offset)
      {
        var data := seg.data[offset..];
        if |data| < HEADER || PacketLen(data) > |data| {
          return BadSegment;
        }
        var packetLen := PacketLen(data);
        code := Accept(Part(seg.mapId, true, true, data[..packetLen], packetLen));
        if code != Done {
          return;
        }
        offset := offset + packetLen;
      }
      return Done;
    }
  }

  // ---- Every dispatched packet is one run of fragments ----

  function Run(cfg: Config, s: State, segs: seq<Segment>, n: nat): State
    requires n <= |segs|
  {
    if n == 0 then s else Walk(cfg, Run(cfg, s, segs, n - 1), segs[n - 1]).0
  }

  /** The data of the segments at the given positions, in order. */
  function Joined(segs: seq<Segment>, at: seq<nat>): seq<byte>
    requires forall i :: 0 <= i < |at| ==> at[i] < |segs|
    decreases |at|
  {
    if at == [] then [] else Joined(segs, at[..|at| - 1]) + segs[at[|at| - 1]].data
  }

  /** Segments that leave a reassembly in progress alone: whole packets, malformed starts, empty segments. */
  predicate PassedOver(seg: Segment) {
    seg.data == [] || seg.boundary == Unsegmented || (seg.boundary == First && MalformedFirst(seg))
  }

  /** Positions of a FIRST and its continuations on one MAP, with only passed-over segments among them up to n. */
  ghost predicate Fragments(segs: seq<Segment>, at: seq<nat>, n: nat, mapId: nat) {
    && at != [] && (forall i :: 0 <= i < |at| ==> at[i] < n <= |segs|)
    && (forall i, j :: 0 <= i < j < |at| ==> at[i] < at[j])
    && segs[at[0]].boundary == First && !MalformedFirst(segs[at[0]])
    && (forall i :: 0 <= i < |at| ==> segs[at[i]].mapId == mapId && (i > 0 ==> segs[at[i]].boundary == Continuation))
    && (forall k :: at[0] <= k < n && k !in at ==> PassedOver(segs[k]))
  }

  ghost predicate Holds(s: State, segs: seq<Segment>, at: seq<nat>, n: nat) {
    && Fragments(segs, at, n, s.mapId) && s.buffer == Joined(segs, at)
    && s.expected == PacketLen(segs[at[0]].data) && |s.buffer| >= HEADER && s.buffer[..HEADER] == segs[at[0]].data[..HEADER]
  }

  /** An active reassembly holds what its fragments carried, in order. */
  ghost predicate InProgress(s: State, segs: seq<Segment>, n: nat) {
    s.active ==> exists at :: Holds(s, segs, at, n)
  }

  lemma {:induction false} WalkPacketsIdle(cfg: Config, s: State, seg: Segment, offset: nat)
    requires !s.active && offset <= |seg.data|
    ensures var r := WalkPackets(cfg, s, seg, offset).0; !r.active && s.log <= r.log && r == s.(log := r.log)
    decreases |seg.data| - offset
  {
    if offset < |seg.data| {
      var data := seg.data[offset..];
      if |data| >= HEADER && PacketLen(data) <= |data| {
        var len := PacketLen(data);
        var r := OnPart(cfg, s, Part(seg.mapId, true, true, data[..len], len));
        if r.1 == Done {
          WalkPacketsIdle(cfg, r.0, seg, offset + len);
        }
      }
    }
  }

  lemma JoinedAppend(segs: seq<Segment>, at: seq<nat>, k: nat)
    requires k < |segs| && forall i :: 0 <= i < |at| ==> at[i] < |segs|
    ensures Joined(segs, at + [k]) == Joined(segs, at) + segs[k].data
  {
  }

  /** A passed-over segment, or one more fragment, extends the positions. */
  lemma HoldsLater(s: State, segs: seq<Segment>, at: seq<nat>, n: nat)
    requires n < |segs| && Holds(s, segs, at, n) && PassedOver(segs[n])
    ensures Holds(s, segs, at, n + 1)
  {
  }

  lemma HoldsMore(s: State, q: State, segs: seq<Segment>, at: seq<nat>, n: nat)
    requires n < |segs| && Holds(s, segs, at, n) && segs[n].boundary == Continuation && segs[n].mapId == s.mapId
    requires q == s.(buffer := s.buffer + segs[n].data)
    ensures Holds(q, segs, at + [n], n + 1)
  {
  }

  lemma HoldsFirst(s: State, segs: seq<Segment>, n: nat)
    requires n < |segs| && segs[n].boundary == First && !MalformedFirst(segs[n])
    requires s.mapId == segs[n].mapId && s.buffer == segs[n].data && s.expected == PacketLen(segs[n].data)
    ensures Holds(s, segs, [n], n + 1)
  {
  }

  lemma StepInProgress(cfg: Config, s: State, segs: seq<Segment>, n: nat)
    requires n < |segs| && InProgress(s, segs, n)
    ensures InProgress(Walk(cfg, s, segs[n]).0, segs, n + 1)
  {
    var seg := segs[n];
    var q := Walk(cfg, s, seg).0;
    if q.active {
      if PassedOver(seg) {
        if s.active {
          assert q == s;
          var at :| Holds(s, segs, at, n);
          HoldsLater(s, segs, at, n);
        } else if seg.boundary == Unsegmented {
          WalkPacketsIdle(cfg, s, seg, 0);
        }
      } else if seg.boundary == First {
        assert q.buffer == [] + seg.data == seg.data;
        HoldsFirst(q, segs, n);
      } else {
        assert q == s.(buffer := s.buffer + seg.data);
        var at :| Holds(s, segs, at, n);
        HoldsMore(s, q, segs, at, n);
      }
    }
  }

  lemma {:induction false} RunInProgress(cfg: Config, s: State, segs: seq<Segment>, n: nat)
    requires n <= |segs| && !s.active
    ensures InProgress(Run(cfg, s, segs, n), segs, n)
  {
    if n > 0 {
      RunInProgress(cfg, s, segs, n - 1);
      StepInProgress(cfg, Run(cfg, s, segs, n - 1), segs, n - 1);
    }
  }

  /**
    Over any sequence of segments, whatever the handlers answer: a segment that is not
    UNSEGMENTED dispatches at most one packet, and only as the LAST of a run FIRST, CONTINUATION*,
    LAST on its MAP; the packet is exactly the concatenation of that run and has the length its
    own header declares.
   */
  lemma ReassembledExactly(cfg: Config, s: State, segs: seq<Segment>, n: nat)
    requires n < |segs| && !s.active && segs[n].boundary != Unsegmented
    requires Run(cfg, s, segs, n + 1).log != Run(cfg, s, segs, n).log
    ensures var before, after := Run(cfg, s, segs, n), Run(cfg, s, segs, n + 1);
            && segs[n].boundary == Last && !after.active && |after.log| == |before.log| + 1
            && exists at :: Fragments(segs, at, n, segs[n].mapId)
                            && after.log == before.log + [Packet(segs[n].mapId, Joined(segs, at + [n]))]
                            && |Joined(segs, at + [n])| == PacketLen(segs[at[0]].data)
  {
    RunInProgress(cfg, s, segs, n);
    var before, seg := Run(cfg, s, segs, n), segs[n];
    OnlyLastDispatches(cfg, before, seg);
    var at :| Holds(before, segs, at, n);
    JoinedAppend(segs, at, n);
    var whole := before.buffer + seg.data;
    assert whole[..HEADER] == before.buffer[..HEADER];
    SameHeader(whole, segs[at[0]].data);
    assert whole[..|whole|] == whole;
  }

  /** What it takes for a fragment to dispatch a packet. */
  lemma OnlyLastDispatches(cfg: Config, s: State, seg: Segment)
    requires seg.boundary != Unsegmented && Walk(cfg, s, seg).0.log != s.log
    ensures seg.boundary == Last && s.active && s.mapId == seg.mapId && !Walk(cfg, s, seg).0.active
    ensures var whole := s.buffer + seg.data;
            && |whole| == s.expected && |whole| >= HEADER && PacketLen(whole) <= |whole|
            && Walk(cfg, s, seg).0.log == s.log + [Packet(s.mapId, whole[..PacketLen(whole)])]
  {
  }

  // ---- Every split of a packet that fits is reassembled ----

  function Concat(pieces: seq<seq<byte>>, n: nat): seq<byte>
    requires n <= |pieces|
  {
    if n == 0 then [] else Concat(pieces, n - 1) + pieces[n - 1]
  }

  /** The segments that carry the pieces of one packet on one MAP. */
  function Split(mapId: nat, pieces: seq<seq<byte>>): (segs: seq<Segment>)
    ensures |segs| == |pieces|
  {
    seq(|pieces|, i requires 0 <= i < |pieces| =>
      Segment(if i == 0 then First else if i == |pieces| - 1 then Last else Continuation, mapId, pieces[i]))
  }

  predicate SplitOf(pieces: seq<seq<byte>>, packet: seq<byte>) {
    && |pieces| >= 2 && (forall i :: 0 <= i < |pieces| ==> pieces[i] != []) && |pieces[0]| >= HEADER
    && Concat(pieces, |pieces|) == packet && IsPacket(packet)
  }

  lemma {:induction false} ConcatPrefix(pieces: seq<seq<byte>>, n: nat, m: nat)
    requires n <= m <= |pieces| && forall i :: 0 <= i < |pieces| ==> pieces[i] != []
    ensures Concat(pieces, n) <= Concat(pieces, m)
    ensures n < m ==> |Concat(pieces, n)| < |Concat(pieces, m)|
    decreases m
  {
    if n < m {
      ConcatPrefix(pieces, n, m - 1);
    }
  }

  lemma FirstPiece(cfg: Config, s: State, mapId: nat, piece: seq<byte>, packet: seq<byte>)
    requires !s.active && IsPacket(packet) && |packet| <= cfg.capacity && HEADER <= |piece| < |packet| && piece <= packet
    ensures Walk(cfg, s, Segment(First, mapId, piece)).0 == State(true, mapId, piece, |packet|, s.log)
  {
    assert packet[..HEADER] == piece[..HEADER];
    SameHeader(packet, piece);
  }

  lemma MiddlePiece(cfg: Config, s: State, piece: seq<byte>)
    requires s.active && piece != [] && |s.buffer + piece| < s.expected <= cfg.capacity
    ensures Walk(cfg, s, Segment(Continuation, s.mapId, piece)).0 == s.(buffer := s.buffer + piece)
  {
  }

  /** After the first n pieces, short of all, exactly their concatenation is held. */
  lemma {:induction false} SplitHeld(cfg: Config, s: State, mapId: nat, pieces: seq<seq<byte>>, packet: seq<byte>, n: nat)
    requires SplitOf(pieces, packet) && |packet| <= cfg.capacity && !s.active && 0 < n < |pieces|
    ensures Run(cfg, s, Split(mapId, pieces), n) == State(true, mapId, Concat(pieces, n), |packet|, s.log)
  {
    var segs := Split(mapId, pieces);
    ConcatPrefix(pieces, n, |pieces|);
    if n == 1 {
      assert Concat(pieces, 1) == [] + pieces[0] == pieces[0];
      FirstPiece(cfg, s, mapId, pieces[0], packet);
      assert Run(cfg, s, segs, 1) == Walk(cfg, Run(cfg, s, segs, 0), segs[0]).0;
    } else {
      SplitHeld(cfg, s, mapId, pieces, packet, n - 1);
      MiddlePiece(cfg, Run(cfg, s, segs, n - 1), pieces[n - 1]);
      assert Run(cfg, s, segs, n) == Walk(cfg, Run(cfg, s, segs, n - 1), segs[n - 1]).0;
    }
  }

  /** A packet that fits, split in any way, is dispatched exactly once and unchanged. */
  lemma SplitReassembles(cfg: Config, s: State, mapId: nat, pieces: seq<seq<byte>>, packet: seq<byte>)
    requires SplitOf(pieces, packet) && |packet| <= cfg.capacity && !s.active
    ensures var q := Run(cfg, s, Split(mapId, pieces), |pieces|);
            !q.active && q.log == s.log + [Packet(mapId, packet)]
  {
    var n := |pieces| - 1;
    SplitHeld(cfg, s, mapId, pieces, packet, n);
    var held := State(true, mapId, Concat(pieces, n), |packet|, s.log);
    assert Run(cfg, s, Split(mapId, pieces), |pieces|) == Walk(cfg, held, Split(mapId, pieces)[n]).0;
    LastPiece(cfg, held, pieces[n], packet);
  }

  lemma LastPiece(cfg: Config, s: State, piece: seq<byte>, packet: seq<byte>)
    requires s.active && IsPacket(packet) && |packet| <= cfg.capacity && piece != []
    requires s.buffer + piece == packet && s.expected == |packet|
    ensures Walk(cfg, s, Segment(Last, s.mapId, piece)).0 == Idle(s.(log := s.log + [Packet(s.mapId, packet)]))
  {
    assert packet[..|packet|] == packet;
  }

  // ---- Whole packets in one segment ----

  function Flat(packets: seq<seq<byte>>, k: nat): seq<byte>
    requires k <= |packets|
    decreases |packets| - k
  {
    if k == |packets| then [] else packets[k] + Flat(packets, k + 1)
  }

  function Logged(mapId: nat, packets: seq<seq<byte>>, k: nat): seq<Packet>
    requires k <= |packets|
    decreases |packets| - k
  {
    if k == |packets| then [] else [Packet(mapId, packets[k])] + Logged(mapId, packets, k + 1)
  }

  predicate IsPacket(p: seq<byte>) { |p| >= HEADER && |p| == PacketLen(p) }

  lemma NextPacket(cfg: Config, s: State, seg: Segment, offset: nat, p: seq<byte>, rest: seq<byte>)
    requires !s.active && offset <= |seg.data| && seg.data[offset..] == p + rest
    requires IsPacket(p) && cfg.handled(Packet(seg.mapId, p))
    ensures offset + |p| <= |seg.data| && seg.data[offset + |p|..] == rest
    ensures var t := s.(log := s.log + [Packet(seg.mapId, p)]);
            WalkPackets(cfg, s, seg, offset) == WalkPackets(cfg, t, seg, offset + |p|)
  {
    var data := seg.data[offset..];
    assert data[..|p|] == p && data[|p|..] == rest;
    assert seg.data[offset + |p|..] == data[|p|..];
    assert data[..HEADER] == p[..HEADER];
    SameHeader(data, p);
    assert p[..|p|] == p;
  }

  lemma {:induction false} PacketsLogged(cfg: Config, s: State, seg: Segment, packets: seq<seq<byte>>, k: nat, offset: nat, log: seq<Packet>)
    requires !s.active && k <= |packets| && offset <= |seg.data| && seg.data[offset..] == Flat(packets, k)
    requires forall i :: 0 <= i < |packets| ==> IsPacket(packets[i]) && cfg.handled(Packet(seg.mapId, packets[i]))
    requires log == s.log + Logged(seg.mapId, packets, k)
    ensures WalkPackets(cfg, s, seg, offset) == (s.(log := log), Done)
    decreases |packets| - k
  {
    if k == |packets| {
      assert |seg.data[offset..]| == 0 && log == s.log;
    } else {
      var p, tail := packets[k], Flat(packets, k + 1);
      var t := s.(log := s.log + [Packet(seg.mapId, p)]);
      assert log == t.log + Logged(seg.mapId, packets, k + 1) by {
        ConcatAssociative(s.log, [Packet(seg.mapId, p)], Logged(seg.mapId, packets, k + 1));
      }
      NextPacket(cfg, s, seg, offset, p, tail);
      PacketsLogged(cfg, t, seg, packets, k + 1, offset + |p|, log);
      assert t.(log := log) == s.(log := log);
    }
  }

  /** An UNSEGMENTED segment dispatches exactly the packets it was built from, in order. */
  lemma WholePackets(cfg: Config, s: State, mapId: nat, packets: seq<seq<byte>>)
    requires !s.active && packets != []
    requires forall i :: 0 <= i < |packets| ==> IsPacket(packets[i]) && cfg.handled(Packet(mapId, packets[i]))
    ensures Walk(cfg, s, Segment(Unsegmented, mapId, Flat(packets, 0)))
         == (s.(log := s.log + Logged(mapId, packets, 0)), Done)
  {
    var seg := Segment(Unsegmented, mapId, Flat(packets, 0));
    assert seg.data[0..] == seg.data;
    PacketsLogged(cfg, s, seg, packets, 0, 0, s.log + Logged(mapId, packets, 0));
  }
}
