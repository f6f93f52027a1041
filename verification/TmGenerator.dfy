/** The frame generator as the program runs it: queues, counters and a frame buffer changed in place. */
module TmGenerator {
  import opened CfdpTypes
  import opened SpacePacket
  import opened Sequences
  import opened TmPackets
  import opened TmFrame

  /** What has been packed so far, in front of what is still to be packed. */
  function Joined(bytes: seq<byte>, first: int, rest: Packed): Packed {
    if rest.Starved? then rest
    else rest.(bytes := bytes + rest.bytes,
               first := if first >= 0 then first else if rest.first < 0 then -1 else |bytes| + rest.first)
  }

  lemma JoinedPrefix(bytes: seq<byte>, first: int, chunk: seq<byte>, starts: bool, rest: Packed)
    requires first >= -1
    ensures Joined(bytes, first, Prefix(chunk, starts, rest))
         == Joined(bytes + chunk, if first >= 0 then first else if starts then |bytes| else -1, rest)
  {
  }

  /** One iteration that continues a packet. */
  lemma ContinueJoined(bytes: seq<byte>, first: int, pending: seq<byte>, rem: nat, space: nat, n: nat)
    requires first >= -1 && 0 < rem && 0 < space < U16 && n == (if rem < space then rem else space) <= |pending|
    ensures Joined(bytes, first, Pack(pending, rem, space))
         == Joined(bytes + pending[..n], first, Pack(pending[n..], rem - n, space - n))
  {
    JoinedPrefix(bytes, first, pending[..n], false, Pack(pending[n..], rem - n, space - n));
  }

  /** One iteration that starts a packet. */
  lemma StartJoined(bytes: seq<byte>, first: int, pending: seq<byte>, space: nat)
    requires first >= -1 && HEADER <= space < U16 && HEADER <= |pending|
    ensures Joined(bytes, first, Pack(pending, 0, space))
         == Joined(bytes + pending[..HEADER], if first >= 0 then first else |bytes|,
                   Pack(pending[HEADER..], PacketLen(pending) - HEADER, space - HEADER))
  {
  }

  lemma JoinedFront(rest: Packed)
    ensures rest.Packed? && rest.first >= -1 ==> Joined([], -1, rest) == rest
    ensures rest.Starved? ==> Joined([], -1, rest) == rest
  {
  }

  /** The fill after the loop. */
  lemma FillJoined(bytes: seq<byte>, first: int, v: Vc, space: nat)
    requires first >= -1 && space < U16 && (space > 0 ==> v.rem == 0 && (v.pending == [] || space < HEADER))
    ensures Joined(bytes, first, Pack(v.pending, v.rem, space))
         == Packed(bytes + (if space == 0 then [] else IdleFill(space)), v.pending, v.rem,
                   if first >= 0 || space < HEADER + 1 then first else |bytes|)
  {
  }

  lemma {:induction false} FirstAtLeast(pending: seq<byte>, rem: nat, space: nat)
    requires space < U16
    ensures var r := Pack(pending, rem, space); r.Packed? ==> r.first >= -1
    decreases space
  {
  }

  /** Pack, for use as a value: beyond 16-bit lengths it promises nothing. */
  function PackOf(pending: seq<byte>, rem: nat, space: nat): Packed {
    if space < U16 then Pack(pending, rem, space) else Starved([], 0)
  }

  /** How many bytes the packet under way gets. */
  function Chunk(v: Vc, space: nat): nat { if v.rem < space then v.rem else space }

  /** What one iteration that continues a packet keeps. */
  ghost predicate ContinueKeeps(pack: (seq<byte>, nat, nat) -> Packed, bytes: seq<byte>, first: int, v: Vc, space: nat) {
    first >= -1 && 0 < v.rem && 0 < space < U16 ==>
      var n := Chunk(v, space);
      if n > |v.pending| then pack(v.pending, v.rem, space) == Starved([], v.rem)
      else Joined(bytes, first, pack(v.pending, v.rem, space))
           == Joined(bytes + v.pending[..n], first, pack(v.pending[n..], v.rem - n, space - n))
  }

  /** What one iteration that starts a packet keeps. */
  ghost predicate StartKeeps(pack: (seq<byte>, nat, nat) -> Packed, bytes: seq<byte>, first: int, v: Vc, space: nat) {
    first >= -1 && v.rem == 0 && v.pending != [] && HEADER <= space < U16 ==>
      if |v.pending| < HEADER then pack(v.pending, 0, space) == Starved(v.pending, 0)
      else Joined(bytes, first, pack(v.pending, 0, space))
           == Joined(bytes + v.pending[..HEADER], if first >= 0 then first else |bytes|,
                     pack(v.pending[HEADER..], PacketLen(v.pending) - HEADER, space - HEADER))
  }

  /** What the fill after the loop completes. */
  ghost predicate FillKeeps(pack: (seq<byte>, nat, nat) -> Packed, bytes: seq<byte>, first: int, v: Vc, space: nat) {
    first >= -1 && space < U16 && (space > 0 ==> v.rem == 0 && (v.pending == [] || space < HEADER)) ==>
      Joined(bytes, first, pack(v.pending, v.rem, space))
      == Packed(bytes + (if space == 0 then [] else IdleFill(space)), v.pending, v.rem,
                if first >= 0 || space < HEADER + 1 then first else |bytes|)
  }

  ghost predicate FrontKeeps(pack: (seq<byte>, nat, nat) -> Packed, v: Vc, space: nat) {
    Joined([], -1, pack(v.pending, v.rem, space)) == pack(v.pending, v.rem, space)
  }

  ghost predicate IsPack(pack: (seq<byte>, nat, nat) -> Packed) {
    && (forall bytes, first, v, space: nat :: ContinueKeeps(pack, bytes, first, v, space))
    && (forall bytes, first, v, space: nat :: StartKeeps(pack, bytes, first, v, space))
    && (forall bytes, first, v, space: nat :: FillKeeps(pack, bytes, first, v, space))
    && (forall v, space: nat :: FrontKeeps(pack, v, space))
  }

  lemma PackOfIsPack()
    ensures IsPack(PackOf)
  {
    forall bytes, first, v, space: nat ensures ContinueKeeps(PackOf, bytes, first, v, space) {
      var n := Chunk(v, space);
      if first >= -1 && 0 < v.rem && 0 < space < U16 && n <= |v.pending| {
        ContinueJoined(bytes, first, v.pending, v.rem, space, n);
      }
    }
    forall bytes, first, v, space: nat ensures StartKeeps(PackOf, bytes, first, v, space) {
      if first >= -1 && v.rem == 0 && HEADER <= space < U16 && HEADER <= |v.pending| {
        StartJoined(bytes, first, v.pending, space);
      }
    }
    forall bytes, first, v, space: nat ensures FillKeeps(PackOf, bytes, first, v, space) {
      if first >= -1 && space < U16 && (space > 0 ==> v.rem == 0 && (v.pending == [] || space < HEADER)) {
        FillJoined(bytes, first, v, space);
      }
    }
    forall v: Vc, space: nat ensures FrontKeeps(PackOf, v, space) {
      if space < U16 {
        FirstAtLeast(v.pending, v.rem, space);
      }
      JoinedFront(PackOf(v.pending, v.rem, space));
    }
  }

  class Generating {
    const cfg: Config
    var vcs: seq<Vc>
    var mcfc: byte

    ghost predicate Valid()
      reads this
    {
      |vcs| == CHANNELS && cfg.dataLen < U16
    }

    function Value(): Generator
      reads this
    {
      Generator(vcs, mcfc)
    }

    constructor (cfg: Config)
      requires cfg.dataLen < U16
      ensures Valid() && this.cfg == cfg && Value() == StateAt(cfg, [], 0)
    {
      this.cfg := cfg;
      vcs, mcfc := seq(CHANNELS, _ => Vc([], 0, 0)), 0;
    }

    /** One k_pipe_write: as many bytes as the queue takes, or none until the timeout. */
    method WritePipe(vcid: nat, bytes: seq<byte>) returns (n: nat)
      requires Valid() && vcid < CHANNELS
      modifies this`vcs
      ensures Valid() && n == Taken(cfg, old(vcs)[vcid], bytes)
      ensures vcs == old(vcs)[vcid := old(vcs)[vcid].(pending := old(vcs)[vcid].pending + bytes[..n])]
    {
      var v := vcs[vcid];
      n := if |v.pending| + |bytes| <= cfg.depth then |bytes| else if |v.pending| < cfg.depth then cfg.depth - |v.pending| else 0;
      vcs := vcs[vcid := v.(pending := v.pending + bytes[..n])];
    }

    /** ccsds_tm_frame_add: writes until the packet is in or the queue stays full. */
    method AddPacket(vcid: nat, packet: seq<byte>) returns (ok: bool)
      requires Valid()
      modifies this`vcs
      ensures Valid() && Value() == Add(cfg, old(Value()), vcid, packet)
      ensures ok == (Admissible(cfg, vcid, packet) && HasRoom(cfg, old(vcs)[vcid], packet))
    {
      if |packet| < HEADER + 1 || PacketLen(packet) != |packet| || |packet| > cfg.maxPacket || |packet| > cfg.depth
         || vcid >= CHANNELS {
        return false;
      }
      ghost var v := vcs[vcid];
      var written := 0;
      assert v.pending + packet[..0] == v.pending;
      while written < |packet|
        invariant Valid() && written <= Taken(cfg, v, packet)
        invariant vcs == old(vcs)[vcid := v.(pending := v.pending + packet[..written])]
        decreases |packet| - written
      {
        var n := WritePipe(vcid, packet[written..]);
        assert packet[..written] + packet[written..][..n] == packet[..written + n];
        assert v.pending + packet[..written] + packet[written..][..n] == v.pending + packet[..written + n];
        written := written + n;
        if n == 0 {
          return false;
        }
      }
      return true;
    }

    /** read_pending_bytes: n bytes move from the head of the queue into the buffer, or all of them if there are fewer. */
    method Drain(vcid: nat, n: nat, data: array<byte>, at: nat) returns (ok: bool)
      requires Valid() && vcid < CHANNELS && at + n <= data.Length
      modifies this`vcs, data
      ensures Valid() && ok == (n <= |old(vcs)[vcid].pending|)
      ensures var pending := old(vcs)[vcid].pending;
              && vcs == old(vcs)[vcid := old(vcs)[vcid].(pending := if ok then pending[n..] else [])]
              && (ok ==> data[..at + n] == old(data[..at]) + pending[..n])
    {
      var pending := vcs[vcid].pending;
      ok := n <= |pending|;
      var readable := if ok then n else |pending|;
      for i := 0 to readable
        invariant vcs == old(vcs)
        invariant forall k :: 0 <= k < at ==> data[k] == old(data[k])
        invariant forall k :: 0 <= k < i ==> data[at + k] == pending[k]
      {
        data[at + i] := pending[i];
      }
      assert pending[|pending|..] == [];
      vcs := vcs[vcid := vcs[vcid].(pending := pending[readable..])];
    }

    /** What the buffer and the queue will have packed in the end, given how the rest of a data field is packed. */
    ghost function Outcome(pack: (seq<byte>, nat, nat) -> Packed, vcid: nat, data: array<byte>, used: nat, first: int): Packed
      requires Valid() && vcid < CHANNELS && used <= data.Length < U16
      reads this, data
    {
      Joined(data[..used], first, pack(vcs[vcid].pending, vcs[vcid].rem, data.Length - used))
    }

    /** The rest of the packet under way, as far as it fits. */
    method Continue(vcid: nat, data: array<byte>, used: nat) returns (ok: bool, n: nat)
      requires Valid() && vcid < CHANNELS && vcs[vcid].rem > 0 && used < data.Length < U16
      modifies this`vcs, data
      ensures var v := old(vcs)[vcid];
              && n == (if v.rem < data.Length - used then v.rem else data.Length - used) && ok == (n <= |v.pending|)
              && (!ok ==> vcs == old(vcs)[vcid := v.(pending := [])])
              && (ok ==> vcs == old(vcs)[vcid := v.(pending := v.pending[n..], rem := v.rem - n)]
                         && data[..used + n] == old(data[..used]) + v.pending[..n])
              && Valid()
    {
      var v, space := vcs[vcid], data.Length - used;
      n := if v.rem < space then v.rem else space;
      ok := Drain(vcid, n, data, used);
      if ok {
        vcs := vcs[vcid := vcs[vcid].(rem := v.rem - n)];
      }
    }

    /** The header of the next packet, which fits. */
    method Start(vcid: nat, data: array<byte>, used: nat) returns (ok: bool)
      requires Valid() && vcid < CHANNELS && used + HEADER <= data.Length < U16
      modifies this`vcs, data
      ensures var v := old(vcs)[vcid];
              && ok == (HEADER <= |v.pending|) && (!ok ==> vcs == old(vcs))
              && (ok ==> vcs == old(vcs)[vcid := v.(pending := v.pending[HEADER..], rem := PacketLen(v.pending) - HEADER)]
                         && data[..used + HEADER] == old(data[..used]) + v.pending[..HEADER])
              && Valid()
    {
      var v := vcs[vcid];
      if |v.pending| < HEADER {
        return false;
      }
      ok := Drain(vcid, HEADER, data, used);
      vcs := vcs[vcid := vcs[vcid].(rem := PacketLen(v.pending) - HEADER)];
    }

    /** The idle packet or zeros behind the last packet byte. */
    method FillIdle(data: array<byte>, used: nat)
      requires used <= data.Length < U16
      modifies data
      ensures data[..] == old(data[..used]) + IdleFill(data.Length - used)
    {
      var fill := IdleFill(data.Length - used);
      for i := used to data.Length
        invariant forall k :: 0 <= k < used ==> data[k] == old(data[k])
        invariant forall k :: used <= k < i ==> data[k] == fill[k - used]
      {
        data[i] := fill[i - used];
      }
      assert data[..used] == old(data[..used]) && data[used..] == fill;
      assert data[..] == data[..used] + data[used..];
    }

    method ContinueOnce(ghost pack: (seq<byte>, nat, nat) -> Packed, vcid: nat, data: array<byte>, used: nat, ghost first: int)
      returns (ok: bool, n: nat)
      requires Valid() && vcid < CHANNELS && used < data.Length < U16 && first >= -1 && vcs[vcid].rem > 0 && IsPack(pack)
      modifies this`vcs, data
      ensures Valid() && (!ok ==> old(Outcome(pack, vcid, data, used, first)) == Starved(vcs[vcid].pending, vcs[vcid].rem))
      ensures ok ==> 0 < n <= data.Length - used
                     && Outcome(pack, vcid, data, used + n, first) == old(Outcome(pack, vcid, data, used, first))
      ensures vcs == old(vcs)[vcid := vcs[vcid]] && vcs[vcid].vcfc == old(vcs)[vcid].vcfc
    {
      ghost var bytes, v, space := data[..used], vcs[vcid], data.Length - used;
      ok, n := Continue(vcid, data, used);
      assert ContinueKeeps(pack, bytes, first, v, space);
    }

    method StartOnce(ghost pack: (seq<byte>, nat, nat) -> Packed, vcid: nat, data: array<byte>, used: nat, first: int)
      returns (ok: bool, pointer: int)
      requires Valid() && vcid < CHANNELS && used + HEADER <= data.Length < U16 && first >= -1 && IsPack(pack)
      requires vcs[vcid].rem == 0 && vcs[vcid].pending != []
      modifies this`vcs, data
      ensures Valid() && pointer >= -1
      ensures !ok ==> old(Outcome(pack, vcid, data, used, first)) == Starved(vcs[vcid].pending, vcs[vcid].rem)
      ensures ok ==> Outcome(pack, vcid, data, used + HEADER, pointer) == old(Outcome(pack, vcid, data, used, first))
      ensures vcs == old(vcs)[vcid := vcs[vcid]] && vcs[vcid].vcfc == old(vcs)[vcid].vcfc
    {
      ghost var bytes, v, space := data[..used], vcs[vcid], data.Length - used;
      ok := Start(vcid, data, used);
      pointer := if first >= 0 then first else used;
      assert StartKeeps(pack, bytes, first, v, space);
    }

    /** The packing loop of build_packet_transfer_frame. */
    method PackLoop(ghost pack: (seq<byte>, nat, nat) -> Packed, vcid: nat, data: array<byte>)
      returns (ok: bool, used: nat, first: int)
      requires Valid() && vcid < CHANNELS && data.Length < U16 && IsPack(pack)
      modifies this`vcs, data
      ensures Valid() && used <= data.Length && first >= -1
      ensures !ok ==> old(Outcome(pack, vcid, data, 0, -1)) == Starved(vcs[vcid].pending, vcs[vcid].rem)
      ensures ok ==> Outcome(pack, vcid, data, used, first) == old(Outcome(pack, vcid, data, 0, -1))
      ensures vcs == old(vcs)[vcid := vcs[vcid]] && vcs[vcid].vcfc == old(vcs)[vcid].vcfc
      ensures ok && used < data.Length ==> vcs[vcid].rem == 0 && (vcs[vcid].pending == [] || data.Length - used < HEADER)
    {
      used, first := 0, -1;
      while used < data.Length && Active(vcs[vcid])
        invariant Valid() && used <= data.Length && first >= -1
        invariant Outcome(pack, vcid, data, used, first) == old(Outcome(pack, vcid, data, 0, -1))
        invariant vcs == old(vcs)[vcid := vcs[vcid]] && vcs[vcid].vcfc == old(vcs)[vcid].vcfc
        decreases data.Length - used
      {
        if vcs[vcid].rem > 0 {
          var n;
          ok, n := ContinueOnce(pack, vcid, data, used, first);
          if !ok {
            return false, 0, -1;
          }
          used := used + n;
        } else {
          if data.Length - used < HEADER {
            break;
          }
          ok, first := StartOnce(pack, vcid, data, used, first);
          if !ok {
            return false, 0, -1;
          }
          used := used + HEADER;
        }
      }
      ok := true;
    }

    /** The loop and the fill after it. */
    method PackAndFill(ghost pack: (seq<byte>, nat, nat) -> Packed, vcid: nat, data: array<byte>) returns (ok: bool, first: int)
      requires Valid() && vcid < CHANNELS && data.Length < U16 && IsPack(pack)
      modifies this`vcs, data
      ensures Valid()
      ensures var r := pack(old(vcs)[vcid].pending, old(vcs)[vcid].rem, data.Length);
              && r == (if ok then Packed(data[..], vcs[vcid].pending, vcs[vcid].rem, first)
                       else Starved(vcs[vcid].pending, vcs[vcid].rem))
              && vcs == old(vcs)[vcid := vcs[vcid]] && vcs[vcid].vcfc == old(vcs)[vcid].vcfc
    {
      assert FrontKeeps(pack, vcs[vcid], data.Length) && data[..0] == [];
      var used;
      ok, used, first := PackLoop(pack, vcid, data);
      if !ok {
        return;
      }
      assert FillKeeps(pack, data[..used], first, vcs[vcid], data.Length - used);
      if used < data.Length {
        if first < 0 && data.Length - used >= HEADER + 1 {
          first := used;
        }
        FillIdle(data, used);
      } else {
        assert data[..used] == data[..] && data[..used] + [] == data[..used];
      }
    }

    method PackField(vcid: nat, data: array<byte>) returns (ok: bool, first: int)
      requires Valid() && vcid < CHANNELS && data.Length == cfg.dataLen
      modifies this`vcs, data
      ensures Valid()
      ensures var r := Pack(old(vcs)[vcid].pending, old(vcs)[vcid].rem, cfg.dataLen);
              && r == (if ok then Packed(data[..], vcs[vcid].pending, vcs[vcid].rem, first)
                       else Starved(vcs[vcid].pending, vcs[vcid].rem))
              && vcs == old(vcs)[vcid := vcs[vcid]] && vcs[vcid].vcfc == old(vcs)[vcid].vcfc
    {
      PackOfIsPack();
      ok, first := PackAndFill(PackOf, vcid, data);
    }

    /** generator_select_active_vc. */
    method SelectActive() returns (chosen: Option<nat>)
      requires Valid()
      ensures chosen == Select(vcs, 0)
    {
      var i := 0;
      while i < |vcs|
        invariant i <= |vcs| && Select(vcs, 0) == Select(vcs, i)
      {
        if Active(vcs[i]) {
          return Some(i);
        }
        i := i + 1;
      }
      return None;
    }

    method Count(vcid: nat)
      requires Valid() && vcid < CHANNELS
      modifies this
      ensures Valid() && Value() == Counted(old(Value()), vcid, old(vcs)[vcid])
    {
      mcfc := Next8(mcfc);
      vcs := vcs[vcid := vcs[vcid].(vcfc := Next8(vcs[vcid].vcfc))];
    }

    /** generator_cycle: one frame, unless the queue of the selected channel runs dry inside a packet. */
    method RunCycle() returns (frame: Option<Frame>)
      requires Valid()
      modifies this
      ensures Valid() && (Value(), frame) == Cycle(cfg, old(Value()))
    {
      var chosen := SelectActive();
      if chosen.None? {
        frame := Some(Frame(IDLE_VC, mcfc, vcs[IDLE_VC].vcfc, IDLE_FRAME, Repeated(0, cfg.dataLen)));
        Count(IDLE_VC);
        return;
      }
      SelectInRange(vcs, 0);
      var vcid := chosen.value;
      ghost var v := vcs[vcid];
      var data := new byte[cfg.dataLen](_ => 0);
      var ok, first := PackField(vcid, data);
      assert vcs[vcid] == v.(pending := vcs[vcid].pending, rem := vcs[vcid].rem);
      if !ok {
        return None;
      }
      frame := Some(Frame(vcid, mcfc, vcs[vcid].vcfc, Pointer(first), data[..]));
      Count(vcid);
      assert vcs == old(vcs)[vcid := v.(pending := vcs[vcid].pending, rem := vcs[vcid].rem, vcfc := Next8(v.vcfc))];
    }
  }
}
