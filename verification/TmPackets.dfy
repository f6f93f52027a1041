/**
  Cutting a queue of Space Packets into the data fields of telemetry frames, with a first
  header pointer and idle fill (section 4.1.2.7 of CCSDS 132.0-B), and a reference deframer.
 */
module TmPackets {
  import opened CfdpTypes
  import opened Sequences
  import opened SpacePacket

  const NO_START: nat := 0x7ff
  const IDLE_FRAME: nat := 0x7fe

  function Repeated(b: byte, n: nat): (s: seq<byte>)
    ensures |s| == n && forall i :: 0 <= i < n ==> s[i] == b
  {
    seq(n, _ => b)
  }

  predicate IdleApid(s: seq<byte>)
    requires |s| >= 2
  {
    s[0] % 8 == 7 && s[1] == 255
  }

  /** fill_idle_space_packet: one idle packet, or zeros when no packet fits. */
  function IdleFill(n: nat): (s: seq<byte>)
    requires n < U16
    ensures |s| == n
  {
    if n < HEADER + 1 then Repeated(0, n)
    else [0x07, 0xff, 0xc0, 0x00, (n - 7) / 256, (n - 7) % 256] + Repeated(0, n - HEADER)
  }

  /** The idle packet: version 0, telemetry, APID 2047, unsegmented, as long as the space, and zeros. */
  lemma IdlePacketFormat(n: nat)
    requires HEADER < n < U16
    ensures var s := IdleFill(n);
            && s[0] < 8 && (s[0] % 8) as int * 256 + s[1] as int == 2047 && s[2] / 64 == 3 && s[2] % 64 == 0 && s[3] == 0
            && PacketLen(s) == n && AllZero(s[HEADER..])
  {
    var s := IdleFill(n);
    assert s[HEADER..] == Repeated(0, n - HEADER);
  }

  // ---- Packing one data field ----

  /**
    What packing `space` bytes yields, and the bytes and missing count left queued; `first` is the
    offset of the first packet start, if any.  A queue that runs dry inside a packet yields nothing.
   */
  datatype Packed =
    | Packed(bytes: seq<byte>, pending: seq<byte>, rem: nat, first: int)
    | Starved(pending: seq<byte>, rem: nat)

  function Prefix(chunk: seq<byte>, starts: bool, rest: Packed): Packed {
    if rest.Starved? then rest
    else rest.(bytes := chunk + rest.bytes,
               first := if starts then 0 else if rest.first < 0 then -1 else |chunk| + rest.first)
  }

  /** The loop of build_packet_transfer_frame and the fill after it. */
  function Pack(pending: seq<byte>, rem: nat, space: nat): Packed
    requires space < U16
    decreases space
  {
    if space == 0 then Packed([], pending, rem, -1)
    else if rem > 0 then
      var n := if rem < space then rem else space;
      if |pending| < n then Starved([], rem) else Prefix(pending[..n], false, Pack(pending[n..], rem - n, space - n))
    else if pending == [] || space < HEADER then
      Packed(IdleFill(space), pending, 0, if space >= HEADER + 1 then 0 else -1)
    else if |pending| < HEADER then Starved(pending, 0)
    else Prefix(pending[..HEADER], true, Pack(pending[HEADER..], PacketLen(pending) - HEADER, space - HEADER))
  }

  // ---- The reference deframer ----

  /** What the deframer made of some bytes: packets completed, and the bytes and missing count of the one begun. */
  datatype Deframed = Deframed(packets: seq<seq<byte>>, carry: seq<byte>, rem: nat)

  predicate AllZero(s: seq<byte>) { forall i :: 0 <= i < |s| ==> s[i] == 0 }

  /** Reading on inside a data field: `carry` has been read of a packet that lacks `rem` more bytes. */
  function Deframe(carry: seq<byte>, rem: nat, s: seq<byte>): Deframed
    decreases |s|
  {
    if s == [] then Deframed([], carry, rem)
    else if rem > 0 then
      var n := if rem < |s| then rem else |s|;
      if n < rem then Deframed([], carry + s, rem - n)
      else Emit(carry + s[..n], Deframe([], 0, s[n..]))
    else if |s| < HEADER || (|s| == HEADER && AllZero(s)) then Deframed([], [], 0)
    else Deframe(s[..HEADER], PacketLen(s) - HEADER, s[HEADER..])
  }

  /** Idle packets are dropped. */
  function Emit(packet: seq<byte>, rest: Deframed): Deframed {
    if |packet| >= 2 && IdleApid(packet) then rest else rest.(packets := [packet] + rest.packets)
  }

  // ---- The same on whole packets ----

  /** The packet being sent, split into what is out and what is not, and the packets behind it. */
  datatype Queue = Queue(head: seq<byte>, tail: seq<byte>, packets: seq<seq<byte>>)

  function Flat(packets: seq<seq<byte>>): seq<byte>
    decreases |packets|
  {
    if packets == [] then [] else packets[0] + Flat(packets[1..])
  }

  function Bytes(q: Queue): seq<byte> { q.tail + Flat(q.packets) }

  /** A well-formed packet that is not an idle one. */
  predicate Proper(p: seq<byte>) {
    |p| > HEADER && |p| == PacketLen(p) && !IdleApid(p)
  }

  ghost predicate Sound(q: Queue) {
    && (forall i :: 0 <= i < |q.packets| ==> Proper(q.packets[i]))
    && (if q.tail == [] then q.head == [] else |q.head| >= HEADER && Proper(q.head + q.tail))
  }

  datatype Moved = Moved(packets: seq<seq<byte>>, q: Queue)

  /** Moving up to `space` bytes out of the queue: the packets completed, and the queue left. */
  function Move(q: Queue, space: nat): Moved
    decreases space
  {
    if space == 0 then Moved([], q)
    else if q.tail != [] then
      if space < |q.tail| then Moved([], q.(head := q.head + q.tail[..space], tail := q.tail[space..]))
      else
        var rest := Move(Queue([], [], q.packets), space - |q.tail|);
        Moved([q.head + q.tail] + rest.packets, rest.q)
    else if q.packets == [] || space < HEADER || |q.packets[0]| <= HEADER then Moved([], q)
    else
      Move(Queue(q.packets[0][..HEADER], q.packets[0][HEADER..], q.packets[1..]), space - HEADER)
  }

  /** Moving `space` bytes ends with an all-zero packet header in the last six of them, where it reads as fill. */
  predicate Hidden(q: Queue, space: nat) {
    var left := Move(q, space).q;
    space > 0 && left.tail != [] && |left.head| == HEADER && AllZero(left.head)
  }

  /** The packets in a queue, the one being sent first. */
  function Held(q: Queue): seq<seq<byte>> { (if q.tail == [] then [] else [q.head + q.tail]) + q.packets }

  lemma Split(p: seq<byte>, n: nat)
    requires n <= |p|
    ensures p[..n] + p[n..] == p
  {
  }

  ghost predicate Conserves(q: Queue, m: Moved) {
    Sound(m.q) && m.packets + Held(m.q) == Held(q)
  }

  lemma ConservesRest(q: Queue, rest: Moved)
    requires Sound(q) && q.tail != [] && Conserves(Queue([], [], q.packets), rest)
    ensures Conserves(q, Moved([q.head + q.tail] + rest.packets, rest.q))
  {
    ConcatAssociative([q.head + q.tail], rest.packets, Held(rest.q));
    assert Held(Queue([], [], q.packets)) == q.packets;
  }

  lemma ConservesStart(q: Queue)
    requires Sound(q) && q.tail == [] && q.packets != []
    ensures var p := q.packets[0]; var next := Queue(p[..HEADER], p[HEADER..], q.packets[1..]);
            Sound(next) && Held(next) == Held(q)
  {
    var p := q.packets[0];
    assert Proper(p);
    Split(p, HEADER);
    assert q.packets == [p] + q.packets[1..];
  }

  /** Nothing is lost, doubled or reordered: packets completed and packets left are the packets held before. */
  lemma {:induction false} MoveConserves(q: Queue, space: nat)
    requires Sound(q)
    ensures Conserves(q, Move(q, space))
    decreases space
  {
    if space > 0 && q.tail != [] {
      if space < |q.tail| {
        HeadGrows(q, space);
      } else {
        MoveConserves(Queue([], [], q.packets), space - |q.tail|);
        ConservesRest(q, Move(Queue([], [], q.packets), space - |q.tail|));
      }
    } else if space >= HEADER && q.tail == [] && q.packets != [] {
      ConservesStart(q);
      assert Proper(q.packets[0]);
      MoveConserves(Queue(q.packets[0][..HEADER], q.packets[0][HEADER..], q.packets[1..]), space - HEADER);
    }
  }

  lemma HeadGrows(q: Queue, n: nat)
    requires Sound(q) && n < |q.tail|
    ensures var g := q.(head := q.head + q.tail[..n], tail := q.tail[n..]);
            Sound(g) && g.head + g.tail == q.head + q.tail
  {
    ConcatAssociative(q.head, q.tail[..n], q.tail[n..]);
    Split(q.tail, n);
  }

  // ---- Packing bytes follows moving packets, and deframing reads it back ----

  lemma IdleFillDeframes(n: nat)
    requires 0 < n < U16
    ensures Deframe([], 0, IdleFill(n)) == Deframed([], [], 0)
  {
    var s := IdleFill(n);
    if n > HEADER {
      var head, rest := s[..HEADER], s[HEADER..];
      assert PacketLen(s) == n;
      assert Deframe([], 0, s) == Deframe(head, n - HEADER, rest);
      assert rest[..n - HEADER] == rest && rest[n - HEADER..] == [];
      assert Deframe(head, n - HEADER, rest) == Emit(head + rest, Deframe([], 0, []));
      assert (head + rest)[0] == 0x07 && (head + rest)[1] == 0xff;
    }
  }

  lemma FlatEmpty(packets: seq<seq<byte>>)
    requires forall i :: 0 <= i < |packets| ==> Proper(packets[i])
    ensures Flat(packets) == [] <==> packets == []
  {
  }

  lemma DeframeHeader(all: seq<byte>)
    requires |all| >= HEADER && (|all| > HEADER || !AllZero(all))
    ensures Deframe([], 0, all) == Deframe(all[..HEADER], PacketLen(all) - HEADER, all[HEADER..])
  {
  }

  lemma DeframeStart(p: seq<byte>, s: seq<byte>)
    requires Proper(p)
    ensures Deframe([], 0, p[..HEADER] + s)
         == if s == [] && AllZero(p[..HEADER]) then Deframed([], [], 0) else Deframe(p[..HEADER], |p| - HEADER, s)
  {
    var head := p[..HEADER];
    var all := head + s;
    if s == [] {
      assert all == head;
    }
    if s != [] || !AllZero(head) {
      assert all[..HEADER] == head && all[HEADER..] == s;
      SameHeader(all, p);
      DeframeHeader(all);
    }
  }

  lemma PackRest(tail: seq<byte>, more: seq<byte>, space: nat)
    requires 0 < |tail| <= space < U16
    ensures Pack(tail + more, |tail|, space) == Prefix(tail, false, Pack(more, 0, space - |tail|))
  {
  }

  lemma PackStart(p: seq<byte>, more: seq<byte>, space: nat)
    requires Proper(p) && HEADER <= space < U16
    ensures Pack(p + more, 0, space) == Prefix(p[..HEADER], true, Pack(p[HEADER..] + more, |p| - HEADER, space - HEADER))
  {
    var all := p + more;
    assert all[..HEADER] == p[..HEADER] && all[HEADER..] == p[HEADER..] + more;
    SameHeader(all, p);
  }

  /** The field is full, and what it leaves of the bytes is what moving packets leaves of the packets. */
  predicate Packs(r: Packed, m: Moved, space: nat) {
    r.Packed? && |r.bytes| == space && r.pending == Bytes(m.q) && r.rem == |m.q.tail|
  }

  /** Deframing the field yields the packets moved, and the part of a packet moved. */
  predicate Reads(q: Queue, r: Packed, m: Moved) {
    r.Packed? && Deframe(q.head, |q.tail|, r.bytes) == Deframed(m.packets, m.q.head, |m.q.tail|)
  }

  ghost predicate Follows(q: Queue, space: nat)
    requires space < U16
  {
    var r, m := Pack(Bytes(q), |q.tail|, space), Move(q, space);
    Packs(r, m, space) && (Reads(q, r, m) <==> !Hidden(q, space))
  }

  lemma FollowsPart(q: Queue, space: nat)
    requires Sound(q) && 0 < space < |q.tail| && space < U16
    ensures Follows(q, space)
  {
  }

  lemma MoveRest(q: Queue, space: nat)
    requires 0 < |q.tail| <= space
    ensures var rest := Move(Queue([], [], q.packets), space - |q.tail|);
            Move(q, space) == Moved([q.head + q.tail] + rest.packets, rest.q)
  {
  }

  lemma RestJoins(head: seq<byte>, tail: seq<byte>, rest: Packed, d: Deframed)
    requires rest.Packed? && tail != [] && Proper(head + tail) && Deframe([], 0, rest.bytes) == d
    ensures var r := Prefix(tail, false, rest);
            && r.Packed? && |r.bytes| == |tail| + |rest.bytes| && r.pending == rest.pending && r.rem == rest.rem
            && Deframe(head, |tail|, r.bytes) == d.(packets := [head + tail] + d.packets)
            && r.bytes[|tail|..] == rest.bytes
  {
  }

  lemma ConsCancels<T>(x: T, a: seq<T>, b: seq<T>)
    ensures [x] + a == [x] + b <==> a == b
  {
    if [x] + a == [x] + b {
      assert ([x] + a)[1..] == a && ([x] + b)[1..] == b;
    }
  }

  lemma FollowsRest(q: Queue, space: nat)
    requires Sound(q) && 0 < |q.tail| <= space < U16 && Follows(Queue([], [], q.packets), space - |q.tail|)
    ensures Follows(q, space)
  {
    var next, left := Queue([], [], q.packets), space - |q.tail|;
    var flat := Flat(q.packets);
    assert Bytes(next) == flat;
    var rest, moved := Pack(flat, 0, left), Move(next, left);
    MoveRest(q, space);
    PackRest(q.tail, flat, space);
    var d := Deframe([], 0, rest.bytes);
    RestJoins(q.head, q.tail, rest, d);
    ConsCancels(q.head + q.tail, d.packets, moved.packets);
  }

  /** A field that begins with a packet header reads as the rest of the field does, unless the header hides. */
  lemma StartJoins(p: seq<byte>, rest: Packed, m: Moved, left: nat)
    requires Proper(p) && Packs(rest, m, left)
    ensures var r := Prefix(p[..HEADER], true, rest);
            && Packs(r, m, HEADER + left)
            && Deframe([], 0, r.bytes) == if left == 0 && AllZero(p[..HEADER]) then Deframed([], [], 0)
                                          else Deframe(p[..HEADER], |p| - HEADER, rest.bytes)
  {
    DeframeStart(p, rest.bytes);
  }

  lemma FollowsStart(q: Queue, space: nat)
    requires Sound(q) && q.tail == [] && q.packets != [] && HEADER <= space < U16
    requires var p := q.packets[0]; Follows(Queue(p[..HEADER], p[HEADER..], q.packets[1..]), space - HEADER)
    ensures Follows(q, space)
  {
    var p := q.packets[0];
    assert Proper(p);
    var next := Queue(p[..HEADER], p[HEADER..], q.packets[1..]);
    assert Bytes(q) == p + Flat(q.packets[1..]);
    PackStart(p, Flat(q.packets[1..]), space);
    var rest, m := Pack(Bytes(next), |next.tail|, space - HEADER), Move(next, space - HEADER);
    StartJoins(p, rest, m, space - HEADER);
    assert Move(q, space) == m;
  }

  lemma {:induction false} PackFollows(q: Queue, space: nat)
    requires Sound(q) && space < U16
    ensures Follows(q, space)
    decreases space
  {
    FlatEmpty(q.packets);
    if space == 0 {
    } else if q.tail != [] {
      if space < |q.tail| {
        FollowsPart(q, space);
      } else {
        PackFollows(Queue([], [], q.packets), space - |q.tail|);
        FollowsRest(q, space);
      }
    } else if q.packets == [] || space < HEADER {
      assert Bytes(q) == Flat(q.packets);
      IdleFillDeframes(space);
    } else {
      var p := q.packets[0];
      assert Proper(p);
      Split(p, HEADER);
      PackFollows(Queue(p[..HEADER], p[HEADER..], q.packets[1..]), space - HEADER);
      FollowsStart(q, space);
    }
  }

  /** A queued packet or an idle one begins in the field: there is room for its header, or for a whole idle packet. */
  predicate SomethingStarts(q: Queue, space: nat) {
    |q.tail| + 7 <= space || (|q.tail| + 6 == space && q.packets != [])
  }

  /**
    The first header pointer: right behind the rest of the packet under way, and absent exactly
    when neither a queued packet nor an idle one begins in the field.
   */
  ghost predicate PointsToStart(q: Queue, space: nat)
    requires space < U16
  {
    var r := Pack(Bytes(q), |q.tail|, space);
    && r.Packed? && |r.bytes| == space
    && r.first == (if SomethingStarts(q, space) then |q.tail| else -1)
    && (r.first < 0 ==> Move(q, space).q.packets == q.packets)
    && (r.first >= 0 ==>
          && r.first == |q.tail| < space
          && var rest := Pack(Flat(q.packets), 0, space - |q.tail|); rest.Packed? && r.bytes[r.first..] == rest.bytes)
  }

  lemma FirstStart(q: Queue, space: nat)
    requires Sound(q) && space < U16
    ensures PointsToStart(q, space)
  {
    PackFollows(q, space);
    if q.tail == [] {
      assert Bytes(q) == Flat(q.packets);
      StartsHere(q, space);
    } else if |q.tail| <= space {
      FirstAfterRest(q, space);
    } else {
      NoStart(q, space);
    }
  }

  lemma FirstAfterRest(q: Queue, space: nat)
    requires Sound(q) && 0 < |q.tail| <= space < U16
    ensures PointsToStart(q, space)
  {
    var next, left := Queue([], [], q.packets), space - |q.tail|;
    var flat := Flat(q.packets);
    assert Bytes(next) == flat;
    var rest := Pack(flat, 0, left);
    PackFollows(next, left);
    StartsHere(next, left);
    MoveRest(q, space);
    PackRest(q.tail, flat, space);
    RestJoins(q.head, q.tail, rest, Deframe([], 0, rest.bytes));
  }

  lemma NoStart(q: Queue, space: nat)
    requires q.tail != [] && space < |q.tail| && space < U16
    ensures var r := Pack(Bytes(q), |q.tail|, space); r.Packed? ==> r.first == -1
    ensures Move(q, space).q.packets == q.packets
  {
  }

  lemma StartsHere(q: Queue, space: nat)
    requires Sound(q) && q.tail == [] && space < U16
    ensures var r := Pack(Flat(q.packets), 0, space);
            && r.Packed? && ((r.first == 0 && space > 0) || (r.first == -1 && Move(q, space).q.packets == q.packets))
            && (r.first == 0 <==> SomethingStarts(q, space))
  {
    assert Bytes(q) == Flat(q.packets);
    PackFollows(q, space);
    FlatEmpty(q.packets);
  }

  /** The shortest packets with an all-zero header: one of them in a field of its own is misread at one size only. */
  lemma ZeroHeaderExactly(p: seq<byte>, space: nat)
    requires |p| == HEADER + 1 && AllZero(p[..HEADER]) && space < U16
    ensures var q := Queue([], [], [p]); Reads(q, Pack(Bytes(q), 0, space), Move(q, space)) <==> space != HEADER
  {
    var q, begun := Queue([], [], [p]), Queue(p[..HEADER], p[HEADER..], []);
    assert p[0] == p[..HEADER][0] == 0 && p[4] == p[..HEADER][4] == 0 && p[5] == p[..HEADER][5] == 0;
    PackFollows(q, space);
    if space >= HEADER {
      assert q.packets[1..] == [];
      assert Move(q, space) == Move(begun, space - HEADER);
    }
  }
}
