/**
  Protected frames: exactly which are accepted, what a refusal leaves behind, and that a receiver
  accepts in order everything that a transmitter with the same key protects.
 */
module SdlsFrames {
  import opened CfdpTypes
  import opened CfdpWire
  import P = CfdpPdu
  import opened Sdls
  import opened SdlsEp
  import opened SdlsRuns

  // ---- Acceptance ----

  /** Long enough for the security header and trailer, and an SPI that is not reserved. */
  predicate WellFormed(frame: seq<byte>) {
    |frame| >= 30 && 0 < Word16(frame, 0) < 0xffff
  }

  predicate Receiving(role: Role) { role == EpCommandRx || role == TcRx }

  predicate InUse(sa: Association, expected: Role) {
    sa.state == Operational && Receiving(sa.role) && Receiving(expected)
  }

  predicate HasKey(c: Context, sa: Association) {
    0 < sa.keySlot < |c.keys| && c.keys[sa.keySlot].state == Active && c.keys[sa.keySlot].handle != 0
  }

  /** The sequence number is new and at most a window ahead, or the first. */
  predicate InWindow(sa: Association, arsn: nat) {
    !sa.initialized || (sa.rxArsn < arsn && arsn - sa.rxArsn <= sa.rxWindow)
  }

  predicate Acceptable(c: Context, expected: Role, frame: seq<byte>, decryption: Decryption) {
    && WellFormed(frame) && Word16(frame, 0) <= |c.sas|
    && var sa := c.sas[Word16(frame, 0) - 1];
       sa.configured && InUse(sa, expected) && HasKey(c, sa) && InWindow(sa, Word32(frame, 10)) && decryption == Decrypted
  }

  lemma HeaderFields(frame: seq<byte>)
    requires |frame| >= 30
    ensures SpiOf(frame) == Word16(frame, 0) && ArsnOf(frame) == Word32(frame, 10)
  {
    Word16IsBe(frame, 0);
    Word32IsBe(frame, 10);
    assert frame[..2] == frame[0..2];
  }

  /** What acceptance does: the association's counter, the carrier and the report, and nothing else. */
  predicate AcceptedAs(c: Context, d: Context, spi: nat, arsn: nat) {
    && |d.sas| == |c.sas| && 0 < spi <= |c.sas|
    && d.sas[spi - 1] == c.sas[spi - 1].(rxArsn := arsn, initialized := true)
    && (forall i :: 0 <= i < |c.sas| && i != spi - 1 ==> d.sas[i] == c.sas[i])
    && d.keys == c.keys && d.txIv == c.txIv && d.carrier == Carrier(true, spi, arsn, false)
    && d.fsr == Report(spi, arsn % 256, c.fsr.alarm, false, false, false)
  }

  /** A frame is accepted exactly under this condition, and then with its own sequence number. */
  lemma AcceptedExactly(c: Context, expected: Role, frame: seq<byte>, decryption: Decryption)
    ensures var r := ProcessSecurity(c, expected, frame, decryption);
            && (r.1.Got? <==> Acceptable(c, expected, frame, decryption))
            && (r.1.Got? ==> r.1.value == Word32(frame, 10) && AcceptedAs(c, r.0, Word16(frame, 0), Word32(frame, 10)))
  {
    if |frame| >= 30 {
      HeaderFields(frame);
    }
  }

  // ---- Refusal ----

  /** Why a frame is refused: the first of the conditions that does not hold. */
  predicate RefusedFor(c: Context, expected: Role, frame: seq<byte>, decryption: Decryption, e: Error) {
    if !WellFormed(frame) then e == Format
    else if !(Word16(frame, 0) <= |c.sas| && c.sas[Word16(frame, 0) - 1].configured) then e == UnknownSa
    else
      var sa := c.sas[Word16(frame, 0) - 1];
      if !InUse(sa, expected) then e == WrongSaState
      else if !HasKey(c, sa) then e == WrongKey
      else if !InWindow(sa, Word32(frame, 10)) then e == Replay
      else if decryption == BadSignature then e == Authentication
      else e == Psa
  }

  /** Exactly the flag of the failure is raised; a frame that cannot be read or a failure of the store raises none. */
  predicate Reports(before: Report, after: Report, spi: nat, e: Error) {
    if e == Format || e == Psa then after == before
    else
      && after.alarm && after.lastSpi == spi && after.lastArsn == before.lastArsn
      && after.badSequence == (before.badSequence || e == Replay)
      && after.badMac == (before.badMac || e == Authentication)
      && after.badSa == (before.badSa || e == UnknownSa || e == WrongSaState || e == WrongKey)
  }

  /** Every refusal leaves associations, keys and the vector counter alone, invalidates the carrier and reports its reason. */
  lemma RefusedExactly(c: Context, expected: Role, frame: seq<byte>, decryption: Decryption)
    ensures var r := ProcessSecurity(c, expected, frame, decryption);
            r.1.Fail? ==>
              && RefusedFor(c, expected, frame, decryption, r.1.error)
              && r.0.sas == c.sas && r.0.keys == c.keys && r.0.txIv == c.txIv && r.0.carrier == Carrier(false, 0, 0, false)
              && Reports(c.fsr, r.0.fsr, if WellFormed(frame) then Word16(frame, 0) else 0, r.1.error)
  {
    if |frame| >= 30 {
      HeaderFields(frame);
    }
  }

  // ---- The carrier over runs ----

  /** Event j is the reception of a frame that decrypted and was accepted, with this carrier. */
  ghost predicate Authenticates(sem: Semantics, c: Context, events: seq<Event>, j: nat, carrier: Carrier) {
    && j < |events| && events[j].Receive?
    && var e := events[j];
       Acceptable(At(sem, c, events, j), e.role, e.frame, e.decryption)
       && carrier == Carrier(true, Word16(e.frame, 0), Word32(e.frame, 10), false)
  }

  /** The carrier is that of event j, and since then there were only transmissions. */
  ghost predicate CarriedSince(sem: Semantics, c: Context, events: seq<Event>, j: nat, n: nat, carrier: Carrier) {
    j < n <= |events| && Authenticates(sem, c, events, j, carrier) && forall k :: j < k < n ==> events[k].Transmit?
  }

  /** What one event makes of the carrier. */
  predicate CarrierAfter(c: Context, e: Event, after: Carrier) {
    match e
    case Transmit(_, _, _) => after == c.carrier
    case Receive(role, frame, decryption) =>
      after == if Acceptable(c, role, frame, decryption) then Carrier(true, Word16(frame, 0), Word32(frame, 10), false)
               else Carrier(false, 0, 0, false)
    case Command(_, _) => after == Carrier(false, 0, 0, false)
  }

  ghost predicate MovesCarrier(sem: Semantics) {
    forall c: Context, e :: !c.carrier.dispatching ==> CarrierAfter(c, e, sem.next(c, e).carrier)
  }

  lemma EventCarrier(cfg: Config, c: Context, e: Event)
    requires !c.carrier.dispatching
    ensures CarrierAfter(c, e, Next(cfg, c, e).carrier)
  {
    match e {
      case Transmit(_, _, _) =>
      case Receive(role, frame, decryption) =>
        AcceptedExactly(c, role, frame, decryption);
        RefusedExactly(c, role, frame, decryption);
      case Command(encoded, store) =>
        CommandKeepsDispatching(cfg, c, encoded, store);
    }
  }

  lemma MeaningMovesCarrier(cfg: Config)
    ensures MovesCarrier(Meaning(cfg))
  {
    forall c: Context, e | !c.carrier.dispatching ensures CarrierAfter(c, e, Meaning(cfg).next(c, e).carrier) {
      EventCarrier(cfg, c, e);
    }
  }

  lemma CommandKeepsDispatching(cfg: Config, c: Context, encoded: seq<byte>, store: Store)
    requires !c.carrier.dispatching
    ensures ProcessPdu(cfg, c, encoded, store).ctx.carrier == NO_CARRIER
  {
    var pdu := DecodePdu(cfg, encoded);
    if pdu.Got? {
      DispatchKeepsCarrier(cfg, c, encoded, pdu.value, store);
    }
  }

  lemma DispatchKeepsCarrier(cfg: Config, c: Context, encoded: seq<byte>, pdu: Pdu, store: Store)
    ensures Dispatch(cfg, c, encoded, pdu, store).ctx.carrier == c.carrier
  {
  }

  /**
    In every run: the carrier is valid exactly when a frame that decrypted and was otherwise
    acceptable has come in, and since then neither another frame nor a command.
   */
  lemma CarrierAuthentic(cfg: Config, c: Context, events: seq<Event>, n: nat)
    requires n <= |events| && !c.carrier.valid && !c.carrier.dispatching
    ensures var carrier := At(Meaning(cfg), c, events, n).carrier;
            carrier.valid <==> exists j: nat :: CarriedSince(Meaning(cfg), c, events, j, n, carrier)
  {
    MeaningMovesCarrier(cfg);
    CarrierTracked(Meaning(cfg), c, events, n);
  }

  lemma {:induction false} CarrierTracked(sem: Semantics, c: Context, events: seq<Event>, n: nat)
    requires MovesCarrier(sem) && n <= |events| && !c.carrier.valid && !c.carrier.dispatching
    ensures !At(sem, c, events, n).carrier.dispatching
    ensures var carrier := At(sem, c, events, n).carrier;
            carrier.valid <==> exists j: nat :: CarriedSince(sem, c, events, j, n, carrier)
  {
    if n > 0 {
      CarrierTracked(sem, c, events, n - 1);
      var before := At(sem, c, events, n - 1);
      assert CarrierAfter(before, events[n - 1], sem.next(before, events[n - 1]).carrier);
      CarrierStep(sem, c, events, n - 1, n, before.carrier, At(sem, c, events, n).carrier);
    }
  }

  lemma CarrierStep(sem: Semantics, c: Context, events: seq<Event>, m: nat, n: nat, before: Carrier, after: Carrier)
    requires n == m + 1 <= |events|
    requires before.valid <==> exists j: nat :: CarriedSince(sem, c, events, j, m, before)
    requires events[m].Transmit? ==> after == before
    requires !events[m].Transmit? ==> (after.valid <==> Authenticates(sem, c, events, m, after))
    ensures after.valid <==> exists j: nat :: CarriedSince(sem, c, events, j, n, after)
  {
    if events[m].Transmit? {
      if after.valid {
        var j: nat :| CarriedSince(sem, c, events, j, m, before);
        assert CarriedSince(sem, c, events, j, n, after);
      }
      if j: nat :| CarriedSince(sem, c, events, j, n, after) {
        assert CarriedSince(sem, c, events, j, m, before);
      }
    } else if after.valid {
      assert CarriedSince(sem, c, events, m, n, after);
    }
  }

  // ---- Transmission ----

  predicate Transmitting(role: Role) { role == EpReplyTx || role == TmTx }

  predicate CanTransmit(c: Context, expected: Role, spi: nat) {
    && 0 < spi <= |c.sas| && c.sas[spi - 1].configured && c.sas[spi - 1].state == Operational
    && Transmitting(c.sas[spi - 1].role) && Transmitting(expected) && HasKey(c, c.sas[spi - 1])
  }

  /** One use: the counter moves by the stride, the key's sequence number by one, and nothing else moves. */
  predicate UsedOnce(c: Context, d: Context, slot: nat) {
    && d == c.(keys := d.keys, txIv := d.txIv) && d.txIv == (c.txIv + 0x9e37_79b9_7f4a_7c15) % U64
    && slot < |c.keys| == |d.keys| && d.keys[slot] == c.keys[slot].(txArsn := (c.keys[slot].txArsn + 1) % U32)
    && forall i :: 0 <= i < |c.keys| && i != slot ==> d.keys[i] == c.keys[i]
  }

  /** A vector is used exactly when the association can transmit, and emitted exactly when encryption succeeds too. */
  lemma TransmitsExactly(c: Context, expected: Role, spi: nat, encrypts: bool)
    requires Configured(c, spi)
    ensures var r := ApplySecurity(c, expected, spi, encrypts);
            && (if CanTransmit(c, expected, spi) then UsedOnce(c, r.0, c.sas[spi - 1].keySlot) else r.0 == c)
            && (r.1.Got? <==> CanTransmit(c, expected, spi) && encrypts)
            && (r.1.Got? ==> r.1.value == Iv(c.txIv, c.keys[c.sas[spi - 1].keySlot].txArsn))
  {
  }

  /** The frame that carries a vector: SPI, counter and sequence number, then data and tag. */
  function ProtectedFrame(spi: nat, iv: Iv, rest: seq<byte>): seq<byte> {
    P.PutBe(spi, 2) + P.PutBe(iv.sender, 8) + P.PutBe(iv.arsn, 4) + rest
  }

  lemma FrameFields(spi: nat, iv: Iv, rest: seq<byte>)
    requires spi < U16 && iv.arsn < U32 && |rest| >= 16
    ensures var f := ProtectedFrame(spi, iv, rest); |f| >= 30 && Word16(f, 0) == spi && Word32(f, 10) == iv.arsn
  {
    var f := ProtectedFrame(spi, iv, rest);
    assert f[0..2] == P.PutBe(spi, 2) && f[10..14] == P.PutBe(iv.arsn, 4);
    P.Pow256Values();
    P.GetPut(spi, 2);
    P.GetPut(iv.arsn, 4);
    Word16IsBe(f, 0);
    Word32IsBe(f, 10);
  }

  // ---- A transmitter and a receiver ----

  datatype Ends = Ends(tx: Context, rx: Context)

  /** The next frame that the transmitter emits for this payload. */
  function NextFrame(e: Ends, spi: nat, rest: seq<byte>): seq<byte>
    requires Configured(e.tx, spi)
  {
    var r := ApplySecurity(e.tx, TmTx, spi, true);
    if r.1.Got? then ProtectedFrame(spi, r.1.value, rest) else []
  }

  /** It is sent, arrives and decrypts. */
  function Passed(e: Ends, spi: nat, rest: seq<byte>): Ends
    requires Configured(e.tx, spi)
  {
    Ends(ApplySecurity(e.tx, TmTx, spi, true).0, ProcessSecurity(e.rx, TcRx, NextFrame(e, spi, rest), Decrypted).0)
  }

  predicate Arrives(e: Ends, spi: nat, rest: seq<byte>)
    requires Configured(e.tx, spi)
  {
    ProcessSecurity(e.rx, TcRx, NextFrame(e, spi, rest), Decrypted).1.Got?
  }

  /** Both ends use the association, and the key's next sequence number is `arsn`. */
  predicate Linked(e: Ends, spi: nat, arsn: nat) {
    && CanTransmit(e.tx, TmTx, spi) && spi < 0xffff && e.tx.keys[e.tx.sas[spi - 1].keySlot].txArsn == arsn < U32
    && spi <= |e.rx.sas| && e.rx.sas[spi - 1].configured && InUse(e.rx.sas[spi - 1], TcRx) && HasKey(e.rx, e.rx.sas[spi - 1])
    && e.rx.sas[spi - 1].rxWindow > 0
  }

  lemma PassedOnce(e: Ends, spi: nat, rest: seq<byte>, arsn: nat)
    requires Linked(e, spi, arsn) && |rest| >= 16
    ensures Arrives(e, spi, rest) <==> InWindow(e.rx.sas[spi - 1], arsn)
    ensures var q := Passed(e, spi, rest);
            && Linked(q, spi, (arsn + 1) % U32)
            && (Arrives(e, spi, rest) ==> q.rx.sas[spi - 1].initialized && q.rx.sas[spi - 1].rxArsn == arsn)
  {
    TransmitsExactly(e.tx, TmTx, spi, true);
    var r := ApplySecurity(e.tx, TmTx, spi, true);
    FrameFields(spi, r.1.value, rest);
    var frame := NextFrame(e, spi, rest);
    AcceptedExactly(e.rx, TcRx, frame, Decrypted);
    RefusedExactly(e.rx, TcRx, frame, Decrypted);
  }

  /** What passing a frame does, as a value. */
  type Passing = (Ends, seq<byte>) -> (Ends, bool)

  function PassOn(spi: nat): Passing {
    (e: Ends, rest: seq<byte>) => if Configured(e.tx, spi) then (Passed(e, spi, rest), Arrives(e, spi, rest)) else (e, false)
  }

  /** The two ends after n frames, and whether every one of them was accepted. */
  function AfterFrames(pass: Passing, e: Ends, rest: nat -> seq<byte>, n: nat): (Ends, bool)
    decreases n
  {
    if n == 0 then (e, true)
    else
      var before := AfterFrames(pass, e, rest, n - 1);
      var r := pass(before.0, rest(n));
      (r.0, before.1 && r.1)
  }

  /** m frames have been passed, and all accepted unless the sequence number has wrapped. */
  predicate InStep(e: Ends, all: bool, spi: nat, arsn: nat, m: nat) {
    && Linked(e, spi, (arsn + m) % U32) && (all <==> arsn + m <= U32)
    && (if m == 0 then InWindow(e.rx.sas[spi - 1], arsn)
        else arsn + m <= U32 ==> e.rx.sas[spi - 1].initialized && e.rx.sas[spi - 1].rxArsn == arsn + m - 1)
  }

  ghost predicate KeepsStep(pass: Passing, spi: nat) {
    forall e, all, rest, arsn: nat, m: nat :: arsn < U32 && |rest| >= 16 && InStep(e, all, spi, arsn, m) ==>
      InStep(pass(e, rest).0, all && pass(e, rest).1, spi, arsn, m + 1)
  }

  lemma PassOnKeepsStep(spi: nat)
    ensures KeepsStep(PassOn(spi), spi)
  {
    forall e, all, rest, arsn: nat, m: nat | arsn < U32 && |rest| >= 16 && InStep(e, all, spi, arsn, m)
      ensures InStep(PassOn(spi)(e, rest).0, all && PassOn(spi)(e, rest).1, spi, arsn, m + 1)
    {
      InOrderStep(e, all, spi, rest, arsn, m);
    }
  }

  /**
    A transmitter and a receiver that share an association: however many frames are protected and
    delivered in order, all are accepted exactly as long as the 32-bit sequence number does not wrap.
   */
  lemma AcceptedInOrder(e: Ends, spi: nat, rest: nat -> seq<byte>, arsn: nat, n: nat)
    requires Linked(e, spi, arsn) && InWindow(e.rx.sas[spi - 1], arsn) && forall k :: |rest(k)| >= 16
    ensures AfterFrames(PassOn(spi), e, rest, n).1 <==> arsn + n <= U32
  {
    PassOnKeepsStep(spi);
    WrapsAt(arsn);
    InOrder(PassOn(spi), e, spi, rest, arsn, n);
  }

  lemma {:induction false} InOrder(pass: Passing, e: Ends, spi: nat, rest: nat -> seq<byte>, arsn: nat, n: nat)
    requires KeepsStep(pass, spi) && arsn < U32 && InStep(e, true, spi, arsn, 0) && forall k :: |rest(k)| >= 16
    ensures var r := AfterFrames(pass, e, rest, n); InStep(r.0, r.1, spi, arsn, n)
  {
    if n > 0 {
      InOrder(pass, e, spi, rest, arsn, n - 1);
      assert |rest(n)| >= 16;
    }
  }

  lemma InOrderStep(b: Ends, all: bool, spi: nat, rest: seq<byte>, arsn: nat, m: nat)
    requires arsn < U32 && |rest| >= 16 && InStep(b, all, spi, arsn, m)
    ensures InStep(Passed(b, spi, rest), all && Arrives(b, spi, rest), spi, arsn, m + 1)
  {
    PassedOnce(b, spi, rest, (arsn + m) % U32);
    WrapsAt(arsn + m);
  }

  lemma WrapsAt(k: nat)
    ensures (k % U32 + 1) % U32 == (k + 1) % U32
    ensures k < U32 ==> k % U32 == k
    ensures k == U32 ==> k % U32 == 0
  {
  }
}
