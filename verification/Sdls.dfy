/**
  Space Data Link Security (CCSDS 355.0-B-2): security associations, keys, the transmit
  initialization vector and the anti-replay counter.  AES-GCM is abstract: an outcome of the
  outside world decides whether an encryption or a decryption succeeds.
 */
module Sdls {
  import opened CfdpTypes
  import P = CfdpPdu

  datatype Error = Format | Authentication | Replay | UnknownSa | WrongSaState | WrongKey | Psa | NotSupported | WrongKeyState | Capacity

  datatype KeyState = Preactive | Active | Deactivated

  datatype SaState = Stopped | Operational | Expired

  datatype Role = EpCommandRx | EpReplyTx | TcRx | TmTx

  datatype Mode = Gmac | Gcm | Clear

  /** A key slot: a PSA handle (0 is none), its transmit sequence number and its state. */
  datatype Key = Key(handle: nat, txArsn: nat, state: KeyState)

  datatype Association = Association(
    configured: bool, role: Role, mode: Mode, keySlot: nat, state: SaState,
    rxArsn: nat, rxWindow: nat, initialized: bool, lastProcedure: nat)

  /** The flags of the frame security report. */
  datatype Report = Report(lastSpi: nat, lastArsn: nat, alarm: bool, badSequence: bool, badMac: bool, badSa: bool)

  /** The authenticated frame whose payload is being processed. */
  datatype Carrier = Carrier(valid: bool, spi: nat, arsn: nat, dispatching: bool)

  datatype Context = Context(sas: seq<Association>, keys: seq<Key>, txIv: nat, fsr: Report, carrier: Carrier)

  datatype Config = Config(sessionBase: nat, arsnWindow: nat, maxPdu: nat)

  /** An initialization vector: the sender's counter value and the sequence number. */
  datatype Iv = Iv(sender: nat, arsn: nat)

  const STRIDE: nat := 0x9e37_79b9_7f4a_7c15
  const PROTECTED_OVERHEAD: nat := 30

  const NO_CARRIER := Carrier(false, 0, 0, false)

  predicate IsTx(r: Role) { r.EpReplyTx? || r.TmTx? }

  function NextIv(iv: nat): nat { (iv + STRIDE) % U64 }

  predicate Configured(c: Context, spi: nat) { 0 < spi <= |c.sas| && c.sas[spi - 1].configured }

  function Sa(c: Context, spi: nat): Association
    requires 0 < spi <= |c.sas|
  {
    c.sas[spi - 1]
  }

  function WithSa(c: Context, spi: nat, sa: Association): Context
    requires 0 < spi <= |c.sas|
  {
    c.(sas := c.sas[spi - 1 := sa])
  }

  /** operational_key: the slot of the key an association may use now. */
  function OperationalKey(c: Context, spi: nat, expected: Role, transmitting: bool): Answer<Error, nat>
    requires 0 < spi <= |c.sas|
  {
    var sa := Sa(c, spi);
    if IsTx(sa.role) != IsTx(expected) || IsTx(expected) != transmitting || !sa.state.Operational? then Fail(WrongSaState)
    else if sa.keySlot == 0 || sa.keySlot >= |c.keys| then Fail(WrongKey)
    else if !c.keys[sa.keySlot].state.Active? || c.keys[sa.keySlot].handle == 0 then Fail(WrongKey)
    else Got(sa.keySlot)
  }

  datatype Answer<+E, +T> = Got(value: T) | Fail(error: E)

  /** ccsds_sdls_apply_security: the vector is spent even when encryption fails, but then it is not emitted. */
  function ApplySecurity(c: Context, expected: Role, spi: nat, encrypts: bool): (Context, Answer<Error, Iv>)
    requires Configured(c, spi)
  {
    var slot := OperationalKey(c, spi, expected, true);
    if slot.Fail? then (c, Fail(slot.error))
    else if slot.value >= |c.keys| then (c, Fail(WrongKey))
    else
      var key := c.keys[slot.value];
      var spent := c.(keys := c.keys[slot.value := key.(txArsn := (key.txArsn + 1) % U32)], txIv := NextIv(c.txIv));
      (spent, if encrypts then Got(Iv(c.txIv, key.txArsn)) else Fail(Psa))
  }

  // ---- Receiving ----

  datatype Decryption = Decrypted | BadSignature | DecryptionFailed

  predicate Monitored(e: Error) {
    e.Authentication? || e.Replay? || e.UnknownSa? || e.WrongSaState? || e.WrongKey? || e.WrongKeyState?
  }

  function ReportFailure(c: Context, e: Error, spi: nat): Context {
    if !Monitored(e) then c
    else c.(fsr := c.fsr.(alarm := true, lastSpi := spi,
                          badSequence := c.fsr.badSequence || e.Replay?, badMac := c.fsr.badMac || e.Authentication?,
                          badSa := c.fsr.badSa || e.UnknownSa? || e.WrongSaState? || e.WrongKey? || e.WrongKeyState?))
  }

  /** The anti-replay test: strictly newer, and within the window. */
  predicate Fresh(sa: Association, arsn: nat) {
    sa.initialized ==> sa.rxArsn < arsn <= sa.rxArsn + sa.rxWindow
  }

  function SpiOf(frame: seq<byte>): nat
    requires |frame| >= PROTECTED_OVERHEAD
  {
    P.GetBe(frame[..2])
  }

  function ArsnOf(frame: seq<byte>): nat
    requires |frame| >= PROTECTED_OVERHEAD
  {
    P.GetBe(frame[10..14])
  }

  /** ccsds_sdls_process_security up to the payload: the sequence number accepted, or why not. */
  function ProcessSecurity(c: Context, expected: Role, frame: seq<byte>, decryption: Decryption): (Context, Answer<Error, nat>) {
    var a := c.(carrier := NO_CARRIER);
    if |frame| < PROTECTED_OVERHEAD then (a, Fail(Format))
    else
      var spi, arsn := SpiOf(frame), ArsnOf(frame);
      if spi == 0 || spi == 0xffff then (a, Fail(Format))
      else if !Configured(a, spi) then (ReportFailure(a, UnknownSa, spi), Fail(UnknownSa))
      else
        var slot := OperationalKey(a, spi, expected, false);
        if slot.Fail? then (ReportFailure(a, slot.error, spi), Fail(slot.error))
        else if !Fresh(Sa(a, spi), arsn) then (ReportFailure(a, Replay, spi), Fail(Replay))
        else match decryption
        case BadSignature => (ReportFailure(a, Authentication, spi), Fail(Authentication))
        case DecryptionFailed => (a, Fail(Psa))
        case Decrypted => (Accept(a, spi, arsn), Got(arsn))
  }

  function Accept(c: Context, spi: nat, arsn: nat): Context
    requires 0 < spi <= |c.sas|
  {
    WithSa(c, spi, Sa(c, spi).(rxArsn := arsn, initialized := true))
    .(carrier := Carrier(true, spi, arsn, false),
      fsr := c.fsr.(badSequence := false, badMac := false, badSa := false, lastSpi := spi, lastArsn := arsn % 256))
  }

  // ---- The vector generator never repeats within 2^64 uses ----

  function Pow2(n: nat): (p: nat)
    ensures p >= 1
  {
    if n == 0 then 1 else 2 * Pow2(n - 1)
  }

  /** An odd factor can be cancelled modulo a power of two. */
  lemma {:induction false} OddCancels(n: nat, d: nat, s: nat, q: nat) returns (k: nat)
    requires s % 2 == 1 && d * s == Pow2(n) * q
    ensures d == Pow2(n) * k
  {
    if n == 0 {
      k := d;
    } else {
      var p, h := Pow2(n - 1), d / 2;
      TwiceProduct(p, q);
      OddFactor(d, s);
      assert d == 2 * h;
      TwiceProduct(h, s);
      k := OddCancels(n - 1, h, s, q);
      TwiceProduct(p, k);
    }
  }

  lemma TwiceProduct(a: nat, b: nat)
    ensures 2 * a * b == 2 * (a * b)
  {
  }

  /** A product with an odd factor is even only if the other factor is. */
  lemma OddFactor(d: nat, s: nat)
    requires s % 2 == 1
    ensures d * s % 2 == d % 2
  {
    var b := s / 2;
    assert d * s == d * (2 * b + 1) == 2 * (d * b) + d;
  }

  /** The value of the generator after k uses. */
  function IvAt(seed: nat, k: nat): nat { (seed + k * STRIDE) % U64 }

  lemma Pow64()
    ensures Pow2(64) == U64
  {
    assert Pow2(4) == 16;
    Pow2Add(4, 4);
    Pow2Add(8, 8);
    Pow2Add(16, 16);
    Pow2Add(32, 32);
  }

  lemma {:induction false} Pow2Add(a: nat, b: nat)
    ensures Pow2(a + b) == Pow2(a) * Pow2(b)
  {
    if b > 0 {
      Pow2Add(a, b - 1);
    }
  }

  /** Distinct uses, fewer than 2^64 apart, get distinct vectors. */
  lemma IvDistinct(seed: nat, j: nat, k: nat)
    requires j < k < j + U64
    ensures IvAt(seed, j) != IvAt(seed, k)
  {
    if IvAt(seed, j) == IvAt(seed, k) {
      var x, y := seed + j * STRIDE, seed + k * STRIDE;
      DifferenceOfProducts(j, k, STRIDE);
      Pow64();
      var m := OddCancels(64, k - j, STRIDE, y / U64 - x / U64);
    }
  }

  lemma DifferenceOfProducts(j: nat, k: nat, s: nat)
    requires j < k
    ensures k * s - j * s == (k - j) * s
  {
  }

}
