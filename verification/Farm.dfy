/**
  FARM-1, the acceptance of telecommand frames (section 6 of CCSDS 232.1-B), as the receive
  profile implements it with 8-bit sequence numbers, and its refinement of acceptance by
  unbounded numbers for every sender with a small enough window.
 */
module Farm {
  import opened CfdpTypes

  datatype Code = Accepted | AccessDenied | TryAgain | Invalid | NotSupported

  /** The sequence state of a virtual channel. */
  datatype State = State(lockout: bool, retransmit: bool, farmB: nat, reportValue: byte)

  datatype Frame = Frame(bypass: bool, control: bool, fsn: byte, data: seq<byte>)

  const MODULUS: nat := 256

  /** Subtraction of 8-bit unsigned values. */
  function Sub8(a: byte, b: byte): byte { (a - b) % MODULUS }

  /** Half of the acceptance window; the window is 4 to 128. */
  predicate HalfWindow(half: nat) { 2 <= half <= 64 }

  /** update_tc_sequence_state. */
  function Accept(s: State, f: Frame, half: nat): (State, Code) {
    if s.lockout then (s, AccessDenied)
    else if f.bypass || f.control then (s, Accepted)
    else if f.fsn == s.reportValue then (s.(reportValue := (s.reportValue + 1) % MODULUS, retransmit := false), Accepted)
    else if Sub8(s.reportValue, f.fsn) < half then (s, TryAgain)
    else if Sub8(f.fsn, s.reportValue) < half then (s.(retransmit := true), TryAgain)
    else (s.(lockout := true), TryAgain)
  }

  const UNLOCK: byte := 0x00
  const SET_VR: byte := 0x82

  /** handle_tc_control_frame. */
  function Control(s: State, data: seq<byte>): (State, Code) {
    if data == [] then (s, Invalid)
    else if data[0] == UNLOCK then (s.(lockout := false, retransmit := false), Accepted)
    else if s.lockout then (s, AccessDenied)
    else if |data| >= 3 && data[0] == SET_VR && data[1] == 0 then (s.(reportValue := data[2], retransmit := false), Accepted)
    else (s, NotSupported)
  }

  /** A decoded frame of the accepted channel: the reserved type is refused, every other one counts. */
  function Process(s: State, f: Frame, half: nat): (State, Code) {
    if f.control && !f.bypass then (s, Invalid)
    else
      var counted := s.(farmB := (s.farmB + 1) % 4);
      if f.control then Control(counted, f.data) else Accept(counted, f, half)
  }

  class VirtualChannel {
    var lockout: bool
    var retransmit: bool
    var farmB: nat
    var reportValue: byte

    function Value(): State
      reads this
    {
      State(lockout, retransmit, farmB, reportValue)
    }

    constructor ()
      ensures Value() == State(false, false, 0, 0)
    {
      lockout, retransmit, farmB, reportValue := false, false, 0, 0;
    }

    method UpdateSequence(f: Frame, half: nat) returns (code: Code)
      modifies this`lockout, this`retransmit, this`reportValue
      ensures (Value(), code) == Accept(old(Value()), f, half)
    {
      if lockout {
        return AccessDenied;
      }
      if f.bypass || f.control {
        return Accepted;
      }
      var expected := reportValue;
      if f.fsn == expected {
        reportValue := (expected + 1) % MODULUS;
        retransmit := false;
        return Accepted;
      }
      if Sub8(expected, f.fsn) < half {
        return TryAgain;
      }
      if Sub8(f.fsn, expected) < half {
        retransmit := true;
        return TryAgain;
      }
      lockout := true;
      return TryAgain;
    }

    method HandleControl(data: seq<byte>) returns (code: Code)
      modifies this`lockout, this`retransmit, this`reportValue
      ensures (Value(), code) == Control(old(Value()), data)
    {
      if |data| == 0 {
        return Invalid;
      }
      if data[0] == UNLOCK {
        lockout, retransmit := false, false;
        return Accepted;
      }
      if lockout {
        return AccessDenied;
      }
      if |data| >= 3 && data[0] == SET_VR && data[1] == 0 {
        reportValue := data[2];
        retransmit := false;
        return Accepted;
      }
      return NotSupported;
    }

    method Receive(f: Frame, half: nat) returns (code: Code)
      modifies this
      ensures (Value(), code) == Process(old(Value()), f, half)
    {
      if f.control && !f.bypass {
        return Invalid;
      }
      farmB := (farmB + 1) % 4;
      if f.control {
        code := HandleControl(f.data);
      } else {
        code := UpdateSequence(f, half);
      }
    }
  }

  // ---- Lockout ----

  predicate IsUnlock(f: Frame) { f.bypass && f.control && f.data != [] && f.data[0] == UNLOCK }

  function RunFrames(s: State, fs: seq<Frame>, n: nat, half: nat): State
    requires n <= |fs|
  {
    if n == 0 then s else Process(RunFrames(s, fs, n - 1, half), fs[n - 1], half).0
  }

  /** A locked-out channel accepts nothing and keeps V(R) until an UNLOCK arrives, bypass frames included. */
  lemma {:induction false} LockoutPersists(s: State, fs: seq<Frame>, n: nat, half: nat)
    requires s.lockout && n <= |fs| && forall i :: 0 <= i < |fs| ==> !IsUnlock(fs[i])
    ensures RunFrames(s, fs, n, half).lockout && RunFrames(s, fs, n, half).reportValue == s.reportValue
    ensures n < |fs| ==> Process(RunFrames(s, fs, n, half), fs[n], half).1 != Accepted
  {
    if n > 0 {
      LockoutPersists(s, fs, n - 1, half);
    }
  }

  /** The unlock command is one byte 0; the command to set V(R) is 0x82, 0x00 and the value. */
  predicate IsSetVr(f: Frame) { f.bypass && f.control && |f.data| >= 3 && f.data[0] == 0x82 && f.data[1] == 0x00 }

  predicate IsUnlockCode(f: Frame) { f.bypass && f.control && |f.data| >= 1 && f.data[0] == 0x00 }

  /** A sequence-controlled frame whose number is neither less than half a window behind V(R) nor ahead of it. */
  predicate Outside(s: State, f: Frame, half: nat) {
    !f.bypass && !f.control && half <= (f.fsn - s.reportValue) % 256 <= 256 - half
  }

  /** A flag that `on` sets and `off` clears was set just before time i, or from the beginning, and not cleared since. */
  ghost predicate SetSince(on: nat -> bool, off: nat -> bool, first: bool, i: nat, n: nat) {
    i <= n && (if i == 0 then first else on(i - 1)) && forall j :: i <= j < n ==> !off(j)
  }

  lemma {:induction false} Latch(on: nat -> bool, off: nat -> bool, flag: nat -> bool, n: nat)
    requires forall k :: 0 <= k < n ==> (flag(k + 1) <==> on(k) || (flag(k) && !off(k)))
    ensures flag(n) <==> exists i: nat :: SetSince(on, off, flag(0), i, n)
  {
    if n == 0 {
      if flag(0) { assert SetSince(on, off, flag(0), 0, 0); }
    } else {
      Latch(on, off, flag, n - 1);
      if on(n - 1) {
        assert SetSince(on, off, flag(0), n, n);
      } else if flag(n) {
        var i: nat :| SetSince(on, off, flag(0), i, n - 1);
        assert SetSince(on, off, flag(0), i, n);
      }
      if i: nat :| SetSince(on, off, flag(0), i, n) {
        if i < n { assert SetSince(on, off, flag(0), i, n - 1); }
      }
    }
  }

  /** Whether frame k of a run fell outside both half windows, and whether it was an UNLOCK. */
  ghost function Locking(s: State, fs: seq<Frame>, half: nat): nat -> bool {
    (k: nat) => k < |fs| && Outside(RunFrames(s, fs, k, half), fs[k], half)
  }

  function Unlocking(fs: seq<Frame>): nat -> bool { (k: nat) => k < |fs| && IsUnlockCode(fs[k]) }

  lemma FrameLocks(s: State, f: Frame, half: nat)
    requires HalfWindow(half)
    ensures Process(s, f, half).0.lockout <==> Outside(s, f, half) || (s.lockout && !IsUnlockCode(f))
  {
    assert (f.fsn - s.reportValue) % 256 == if f.fsn >= s.reportValue then f.fsn - s.reportValue else 256 + f.fsn - s.reportValue;
  }

  /**
    In every run of frames, the channel is locked out exactly when it began so, or a
    sequence-controlled frame fell outside both half windows, with no UNLOCK since.
   */
  lemma LockoutExactly(s: State, fs: seq<Frame>, n: nat, half: nat)
    requires HalfWindow(half) && n <= |fs|
    ensures RunFrames(s, fs, n, half).lockout
       <==> exists i: nat :: SetSince(Locking(s, fs, half), Unlocking(fs), s.lockout, i, n)
  {
    var flag := (k: nat) => k <= |fs| && RunFrames(s, fs, k, half).lockout;
    forall k | 0 <= k < n
      ensures flag(k + 1) <==> Locking(s, fs, half)(k) || (flag(k) && !Unlocking(fs)(k))
    {
      FrameLocks(RunFrames(s, fs, k, half), fs[k], half);
    }
    assert flag(0) == s.lockout && flag(n) == RunFrames(s, fs, n, half).lockout;
    Latch(Locking(s, fs, half), Unlocking(fs), flag, n);
  }

  /** Which frames are accepted, in every state, and what V(R) is after them. */
  lemma AcceptedFrames(s: State, f: Frame, half: nat)
    ensures var r, inSequence := Process(s, f, half), !f.bypass && !f.control && f.fsn == s.reportValue;
            && (r.1 == Accepted <==>
                  IsUnlockCode(f) || (!s.lockout && (IsSetVr(f) || (f.bypass && !f.control) || inSequence)))
            && r.0.reportValue == (if s.lockout then s.reportValue
                                   else if IsSetVr(f) then f.data[2]
                                   else if inSequence then (f.fsn + 1) % 256 else s.reportValue)
  {
  }

  /** From every state: after UNLOCK and SET V(R) n, the frame numbered n is accepted and V(R) is one more. */
  lemma UnlockThenSet(s: State, unlock: Frame, setVr: Frame, f: Frame, half: nat)
    requires unlock.bypass && unlock.control && unlock.data == [0x00]
    requires setVr.bypass && setVr.control && |setVr.data| == 3 && setVr.data[0] == 0x82 && setVr.data[1] == 0x00
    requires !f.bypass && !f.control && f.fsn == setVr.data[2]
    ensures var a := Process(s, unlock, half);
            var b := Process(a.0, setVr, half);
            var c := Process(b.0, f, half);
            && a.1 == Accepted && !a.0.lockout && !a.0.retransmit && a.0.reportValue == s.reportValue
            && b.1 == Accepted && !b.0.lockout && !b.0.retransmit && b.0.reportValue == f.fsn
            && c.1 == Accepted && !c.0.lockout && c.0.reportValue == (f.fsn + 1) % 256
  {
  }

  // ---- The other fields of the state ----

  predicate Counted(f: Frame) { f.bypass || !f.control }

  function CountedFrames(fs: seq<Frame>, n: nat): nat
    requires n <= |fs|
  {
    if n == 0 then 0 else CountedFrames(fs, n - 1) + if Counted(fs[n - 1]) then 1 else 0
  }

  /** FARM-B counts every frame of a known type, whatever becomes of it, modulo 4. */
  lemma {:induction false} FarmBCounts(s: State, fs: seq<Frame>, n: nat, half: nat)
    requires n <= |fs| && s.farmB < 4
    ensures RunFrames(s, fs, n, half).farmB == (s.farmB + CountedFrames(fs, n)) % 4
  {
    if n > 0 {
      FarmBCounts(s, fs, n - 1, half);
    }
  }

  /** A frame ahead of V(R), by less than half a window: some frame before it is missing. */
  predicate Ahead(s: State, f: Frame, half: nat) {
    !s.lockout && !f.bypass && !f.control && 0 < (f.fsn - s.reportValue) % 256 < half
  }

  /** What ends the request for retransmission: the missing frame, UNLOCK, or an accepted SET V(R). */
  predicate Settles(s: State, f: Frame) {
    || (!s.lockout && !f.bypass && !f.control && f.fsn == s.reportValue)
    || IsUnlockCode(f) || (!s.lockout && IsSetVr(f))
  }

  ghost function Wanting(s: State, fs: seq<Frame>, half: nat): nat -> bool {
    (k: nat) => k < |fs| && Ahead(RunFrames(s, fs, k, half), fs[k], half)
  }

  ghost function Settling(s: State, fs: seq<Frame>, half: nat): nat -> bool {
    (k: nat) => k < |fs| && Settles(RunFrames(s, fs, k, half), fs[k])
  }

  lemma FrameWants(s: State, f: Frame, half: nat)
    requires HalfWindow(half)
    ensures Process(s, f, half).0.retransmit <==> Ahead(s, f, half) || (s.retransmit && !Settles(s, f))
  {
    assert (f.fsn - s.reportValue) % 256 == if f.fsn >= s.reportValue then f.fsn - s.reportValue else 256 + f.fsn - s.reportValue;
  }

  /** Retransmission is requested exactly when a frame came ahead of V(R) and nothing has settled it since. */
  lemma RetransmitExactly(s: State, fs: seq<Frame>, n: nat, half: nat)
    requires HalfWindow(half) && n <= |fs|
    ensures RunFrames(s, fs, n, half).retransmit
       <==> exists i: nat :: SetSince(Wanting(s, fs, half), Settling(s, fs, half), s.retransmit, i, n)
  {
    var flag := (k: nat) => k <= |fs| && RunFrames(s, fs, k, half).retransmit;
    forall k | 0 <= k < n
      ensures flag(k + 1) <==> Wanting(s, fs, half)(k) || (flag(k) && !Settling(s, fs, half)(k))
    {
      FrameWants(RunFrames(s, fs, k, half), fs[k], half);
    }
    assert flag(0) == s.retransmit && flag(n) == RunFrames(s, fs, n, half).retransmit;
    Latch(Wanting(s, fs, half), Settling(s, fs, half), flag, n);
  }

  // ---- The control word ----

  function Flag(b: bool): bv32 { if b then 1 else 0 }

  /** The word of build_clcw: control word type, version and status 0, COP in effect 1. */
  function Clcw(vcid: bv8, noRf: bool, noBitLock: bool, lockout: bool, wait: bool, retransmit: bool, farmB: bv8, report: bv8): bv32 {
    (1 << 24) | (((vcid & 0x3f) as bv32) << 18) | (Flag(noRf) << 15) | (Flag(noBitLock) << 14) | (Flag(lockout) << 13)
    | (Flag(wait) << 12) | (Flag(retransmit) << 11) | (((farmB & 3) as bv32) << 9) | (report as bv32)
  }

  /** Every field can be read back from the word, so no two fields overlap. */
  lemma ClcwFields(vcid: bv8, noRf: bool, noBitLock: bool, lockout: bool, wait: bool, retransmit: bool, farmB: bv8, report: bv8)
    ensures var w := Clcw(vcid, noRf, noBitLock, lockout, wait, retransmit, farmB, report);
            && w & 0xff == report as bv32 && (w >> 9) & 3 == (farmB & 3) as bv32 && (w >> 18) & 0x3f == (vcid & 0x3f) as bv32
            && (w >> 11) & 1 == Flag(retransmit) && (w >> 12) & 1 == Flag(wait) && (w >> 13) & 1 == Flag(lockout)
            && (w >> 14) & 1 == Flag(noBitLock) && (w >> 15) & 1 == Flag(noRf) && w >> 24 == 1
  {
  }
}
