/**
  The extended procedures read from their bytes: for each command PDU the exact condition of
  success and its whole effect, and the life cycle that associations follow in every run.
 */
module SdlsCommands {
  import opened CfdpTypes
  import opened CfdpWire
  import P = CfdpPdu
  import opened Sdls
  import opened SdlsEp
  import opened SdlsRuns

  // ---- The common header ----

  /** A command PDU: its tag, the length of its data in bits, and the data, within the configured size. */
  predicate IsCommand(cfg: Config, encoded: seq<byte>, tag: byte) {
    |encoded| >= 3 && encoded[0] == tag && Word16(encoded, 1) == 8 * (|encoded| - 3) && |encoded| <= cfg.maxPdu
  }

  /** The tags of the commands modelled: directives on keys, on associations, and on the report. */
  predicate Known(tag: byte) {
    tag in [0x01, 0x02, 0x03, 0x04, 0x07, 0x10, 0x15, 0x16, 0x19, 0x1a, 0x1b, 0x1e, 0x1f, 0x31, 0x32, 0x33, 0x34, 0x35, 0x37]
  }

  lemma KnownTags(tag: byte)
    ensures Known(tag) <==> tag < 128 && tag / 64 % 2 == 0 && Supported(false, tag / 16 % 4, tag % 16)
  {
    var group, procedure := tag / 16 % 4, tag % 16;
    if tag < 64 {
      assert tag as int == 16 * group + procedure;
    }
  }

  lemma CommandBytes(cfg: Config, encoded: seq<byte>, tag: byte)
    requires |encoded| >= 3 && encoded[0] == tag
    ensures P.GetBe(encoded[1..3]) == Word16(encoded, 1)
    ensures IsCommand(cfg, encoded, tag) <==>
            Word16(encoded, 1) % 8 == 0 && |encoded| == 3 + Word16(encoded, 1) / 8 && |encoded| <= cfg.maxPdu
  {
    Word16IsBe(encoded, 1);
    assert encoded[1..3] == encoded[1..1 + 2];
  }

  lemma DecodesCommand(cfg: Config, encoded: seq<byte>, tag: byte)
    requires |encoded| >= 1 && encoded[0] == tag && Known(tag)
    ensures DecodePdu(cfg, encoded).Got? <==> IsCommand(cfg, encoded, tag)
    ensures IsCommand(cfg, encoded, tag) ==> DecodePdu(cfg, encoded) == Got(Pdu(false, tag / 16 % 4, tag % 16, encoded[3..]))
  {
    KnownTags(tag);
    if |encoded| >= 3 {
      CommandBytes(cfg, encoded, tag);
    }
  }

  lemma ReplyRefused(cfg: Config, c: Context, encoded: seq<byte>, pdu: Pdu, store: Store)
    requires pdu.reply
    ensures Dispatch(cfg, c, encoded, pdu, store).error.Some?
  {
  }

  /** Nothing but a well-formed PDU with a known tag ever succeeds; replies never do. */
  lemma OnlyCommandsSucceed(cfg: Config, c: Context, encoded: seq<byte>, store: Store)
    ensures ProcessPdu(cfg, c, encoded, store).error.None? ==>
              |encoded| >= 1 && Known(encoded[0]) && IsCommand(cfg, encoded, encoded[0])
  {
    var pdu := DecodePdu(cfg, encoded);
    if pdu.Got? {
      if pdu.value.reply {
        ReplyRefused(cfg, c, encoded, pdu.value, store);
      } else {
        KnownTags(encoded[0]);
        DecodesCommand(cfg, encoded, encoded[0]);
      }
    }
  }

  /** The outcome of a command is that of its procedure, with the carrier forgotten unless it is being dispatched. */
  lemma Processed(cfg: Config, c: Context, encoded: seq<byte>, tag: byte, store: Store, o: Outcome)
    requires |encoded| >= 1 && encoded[0] == tag && Known(tag)
    requires IsCommand(cfg, encoded, tag) ==>
               o == Dispatch(cfg, c, encoded, Pdu(false, tag / 16 % 4, tag % 16, encoded[3..]), store) && o.ctx.carrier == c.carrier
    ensures var r := ProcessPdu(cfg, c, encoded, store);
            && (r.error.None? <==> IsCommand(cfg, encoded, tag) && o.error.None?)
            && (r.error.None? ==> r == o.(ctx := o.ctx.(carrier := if c.carrier.dispatching then c.carrier else NO_CARRIER)))
  {
    DecodesCommand(cfg, encoded, tag);
  }

  lemma DataWord(encoded: seq<byte>, at: nat)
    requires 3 + at + 2 <= |encoded|
    ensures Be16(encoded[3..], at) == Word16(encoded, 3 + at)
  {
    Word16IsBe(encoded, 3 + at);
    assert encoded[3..][at..at + 2] == encoded[3 + at..3 + at + 2];
  }

  lemma DataWord32(encoded: seq<byte>, at: nat)
    requires 3 + at + 4 <= |encoded|
    ensures Be32(encoded[3..], at) == Word32(encoded, 3 + at)
  {
    Word32IsBe(encoded, 3 + at);
    assert encoded[3..][at..at + 4] == encoded[3 + at..3 + at + 4];
  }

  lemma {:induction false} NoErrorExactly(check: nat -> Option<Error>, i: nat, n: nat)
    requires i <= n
    ensures FirstError(check, i, n).None? <==> forall k :: i <= k < n ==> check(k).None?
    decreases n - i
  {
    if i < n {
      NoErrorExactly(check, i + 1, n);
    }
  }

  // ---- Associations ----

  predicate ManagedSpi(c: Context, spi: nat) { 0 < spi < 0xffff && spi <= |c.sas| && c.sas[spi - 1].configured }

  predicate Transmits(role: Role) { role == EpReplyTx || role == TmTx }

  /** No other association uses the key in the other direction or another mode. */
  predicate NoClash(c: Context, spi: nat, keyId: nat)
    requires 0 < spi <= |c.sas|
  {
    forall i :: 0 <= i < |c.sas| && i != spi - 1 && c.sas[i].configured && c.sas[i].keySlot == keyId ==>
                  (Transmits(c.sas[i].role) <==> Transmits(c.sas[spi - 1].role)) && c.sas[i].mode == c.sas[spi - 1].mode
  }

  /** A key that the association may be given: present, active, fit for its direction, and shared with its like only. */
  predicate KeyFits(c: Context, spi: nat, keyId: nat, lowest: nat, store: Store)
    requires 0 < spi <= |c.sas|
  {
    && 0 < keyId < |c.keys| && lowest <= keyId && c.keys[keyId].handle != 0 && c.keys[keyId].state == Active
    && store.validate(c.keys[keyId].handle, if Transmits(c.sas[spi - 1].role) then Encrypt else Decrypt).None?
    && NoClash(c, spi, keyId)
  }

  lemma SaKeyExactly(cfg: Config, c: Context, spi: nat, keyId: nat, sessionOnly: bool, store: Store)
    requires 0 < spi <= |c.sas|
    ensures SaKeyError(cfg, c, spi, keyId, sessionOnly, store).None?
       <==> KeyFits(c, spi, keyId, if sessionOnly then cfg.sessionBase else 0, store)
  {
    NoErrorExactly(SharingCheck(c, spi, keyId), 0, |c.sas|);
    if NoClash(c, spi, keyId) {
      assert forall i :: 0 <= i < |c.sas| ==> SharingCheck(c, spi, keyId)(i).None?;
    } else {
      var i :| 0 <= i < |c.sas| && i != spi - 1 && c.sas[i].configured && c.sas[i].keySlot == keyId
               && !((Transmits(c.sas[i].role) <==> Transmits(c.sas[spi - 1].role)) && c.sas[i].mode == c.sas[spi - 1].mode);
      assert SharingCheck(c, spi, keyId)(i).Some?;
    }
  }

  /** Success, with one association replaced and nothing else touched; the carrier is forgotten unless it is being dispatched. */
  predicate Replaced(c: Context, o: Outcome, spi: nat, sa: Association) {
    && o.error.None? && o.effects == Effects([], [], [])
    && 0 < spi <= |c.sas| == |o.ctx.sas| && o.ctx.sas[spi - 1] == sa
    && (forall i :: 0 <= i < |c.sas| && i != spi - 1 ==> o.ctx.sas[i] == c.sas[i])
    && o.ctx.keys == c.keys && o.ctx.txIv == c.txIv && o.ctx.fsr == c.fsr
    && o.ctx.carrier == if c.carrier.dispatching then c.carrier else Carrier(false, 0, 0, false)
  }

  lemma ReplacesOne(c: Context, o: Outcome, r: Outcome, spi: nat, sa: Association)
    requires 0 < spi <= |c.sas| && o == Done(WithSa(c, spi, sa))
    requires r == o.(ctx := o.ctx.(carrier := if c.carrier.dispatching then c.carrier else NO_CARRIER))
    ensures Replaced(c, r, spi, sa)
  {
  }

  /** Start SA: tag 0x1b, the SPI, and any number of 4-byte channel identifiers. */
  predicate MayStart(cfg: Config, c: Context, encoded: seq<byte>, store: Store) {
    && IsCommand(cfg, encoded, 0x1b) && |encoded| >= 5 && (|encoded| - 5) % 4 == 0 && (|encoded| - 5) / 4 <= |c.sas|
    && ManagedSpi(c, Word16(encoded, 3))
    && var spi := Word16(encoded, 3);
       && c.sas[spi - 1].state == Stopped
       && if c.sas[spi - 1].mode == Clear then c.carrier.valid && c.carrier.spi != spi
          else KeyFits(c, spi, c.sas[spi - 1].keySlot, 0, store)
  }

  lemma StartExactly(cfg: Config, c: Context, encoded: seq<byte>, store: Store)
    requires |encoded| >= 1 && encoded[0] == 0x1b
    ensures var o := ProcessPdu(cfg, c, encoded, store);
            && (o.error.None? <==> MayStart(cfg, c, encoded, store))
            && (o.error.None? ==> var spi := Word16(encoded, 3);
                                  Replaced(c, o, spi, c.sas[spi - 1].(state := Operational, lastProcedure := 0x1b)))
  {
    var data := if |encoded| >= 3 then encoded[3..] else [];
    var o := StartSa(cfg, c, Pdu(false, 1, 11, data), store);
    Processed(cfg, c, encoded, 0x1b, store, o);
    if |encoded| >= 5 {
      DataWord(encoded, 0);
      var spi := Word16(encoded, 3);
      if ManagedSpi(c, spi) {
        SaKeyExactly(cfg, c, spi, c.sas[spi - 1].keySlot, false, store);
      }
    }
  }

  /** Stop SA (tag 0x1e) and Expire SA (tag 0x19) carry the SPI alone. */
  lemma StopExactly(cfg: Config, c: Context, encoded: seq<byte>, store: Store)
    requires |encoded| >= 1 && encoded[0] == 0x1e
    ensures var o := ProcessPdu(cfg, c, encoded, store);
            && (o.error.None? <==> IsCommand(cfg, encoded, 0x1e) && |encoded| == 5 && ManagedSpi(c, Word16(encoded, 3))
                                   && c.sas[Word16(encoded, 3) - 1].state == Operational)
            && (o.error.None? ==> var spi := Word16(encoded, 3);
                                  Replaced(c, o, spi, c.sas[spi - 1].(state := Stopped, lastProcedure := 0x1e)))
  {
    var data := if |encoded| >= 3 then encoded[3..] else [];
    Processed(cfg, c, encoded, 0x1e, store, MoveSa(c, Pdu(false, 1, 14, data), Operational, Stopped));
    if |encoded| == 5 {
      DataWord(encoded, 0);
    }
  }

  lemma ExpireExactly(cfg: Config, c: Context, encoded: seq<byte>, store: Store)
    requires |encoded| >= 1 && encoded[0] == 0x19
    ensures var o := ProcessPdu(cfg, c, encoded, store);
            && (o.error.None? <==> IsCommand(cfg, encoded, 0x19) && |encoded| == 5 && ManagedSpi(c, Word16(encoded, 3))
                                   && c.sas[Word16(encoded, 3) - 1].state == Stopped)
            && (o.error.None? ==> var spi := Word16(encoded, 3);
                                  Replaced(c, o, spi, c.sas[spi - 1].(state := Expired, lastProcedure := 0x19)))
  {
    var data := if |encoded| >= 3 then encoded[3..] else [];
    Processed(cfg, c, encoded, 0x19, store, MoveSa(c, Pdu(false, 1, 9, data), Stopped, Expired));
    if |encoded| == 5 {
      DataWord(encoded, 0);
    }
  }

  /** Rekey SA: tag 0x16, the SPI and the key, and for a receiving association its next sequence number. */
  predicate MayRekey(cfg: Config, c: Context, encoded: seq<byte>, store: Store) {
    && IsCommand(cfg, encoded, 0x16) && (|encoded| == 7 || |encoded| == 11) && ManagedSpi(c, Word16(encoded, 3))
    && var spi := Word16(encoded, 3);
       && c.sas[spi - 1].state == Expired && c.sas[spi - 1].mode != Clear
       && (Transmits(c.sas[spi - 1].role) <==> |encoded| == 7)
       && KeyFits(c, spi, Word16(encoded, 5), cfg.sessionBase, store)
  }

  /** The association that a rekey leaves. */
  function Rekeyed(sa: Association, keyId: nat, arsn: Option<nat>): Association {
    var moved := sa.(keySlot := keyId, state := Stopped, lastProcedure := 0x16);
    if arsn.None? then moved else moved.(rxArsn := arsn.value, initialized := true)
  }

  lemma RekeyDoes(cfg: Config, c: Context, data: seq<byte>, store: Store, spi: nat, keyId: nat, arsn: Option<nat>)
    requires arsn.None? ==> |data| == 4
    requires arsn.Some? ==> |data| == 8 && Be32(data, 4) == arsn.value
    requires |data| >= 4 && Be16(data, 0) == spi < U16 && Be16(data, 2) == keyId
    ensures var o := RekeySa(cfg, c, Pdu(false, 1, 6, data), store);
            && (o.error.None? <==>
                  && ManagedSpi(c, spi) && c.sas[spi - 1].state == Expired && c.sas[spi - 1].mode != Clear
                  && (Transmits(c.sas[spi - 1].role) <==> arsn.None?) && KeyFits(c, spi, keyId, cfg.sessionBase, store))
            && (o.error.None? ==> o == Done(WithSa(c, spi, Rekeyed(c.sas[spi - 1], keyId, arsn))))
            && o.ctx.carrier == c.carrier
  {
    if ManagedSpi(c, spi) {
      SaKeyExactly(cfg, c, spi, keyId, true, store);
    }
  }

  lemma RekeyExactly(cfg: Config, c: Context, encoded: seq<byte>, store: Store)
    requires |encoded| >= 1 && encoded[0] == 0x16
    ensures var o := ProcessPdu(cfg, c, encoded, store);
            && (o.error.None? <==> MayRekey(cfg, c, encoded, store))
            && (o.error.None? ==>
                  var spi, arsn := Word16(encoded, 3), if |encoded| == 7 then None else Some(Word32(encoded, 7));
                  Replaced(c, o, spi, Rekeyed(c.sas[spi - 1], Word16(encoded, 5), arsn)))
  {
    var data := if |encoded| >= 3 then encoded[3..] else [];
    var o := RekeySa(cfg, c, Pdu(false, 1, 6, data), store);
    if |data| == 4 || |data| == 8 {
      DataWord(encoded, 0);
      DataWord(encoded, 2);
      if |data| == 8 {
        DataWord32(encoded, 4);
      }
      var arsn := if |data| == 4 then None else Some(Word32(encoded, 7));
      RekeyDoes(cfg, c, data, store, Word16(encoded, 3), Word16(encoded, 5), arsn);
    }
    Processed(cfg, c, encoded, 0x16, store, o);
    var r := ProcessPdu(cfg, c, encoded, store);
    if r.error.None? {
      var spi, arsn := Word16(encoded, 3), if |encoded| == 7 then None else Some(Word32(encoded, 7));
      ReplacesOne(c, o, r, spi, Rekeyed(c.sas[spi - 1], Word16(encoded, 5), arsn));
    }
  }

  predicate MayAdjust(c: Context, spi: nat) {
    && ManagedSpi(c, spi) && !Transmits(c.sas[spi - 1].role) && c.sas[spi - 1].mode != Clear && c.sas[spi - 1].state != Expired
  }

  /** Set ARSN: tag 0x1a, the SPI and a sequence number that is not behind. */
  lemma SetArsnExactly(cfg: Config, c: Context, encoded: seq<byte>, store: Store)
    requires |encoded| >= 1 && encoded[0] == 0x1a
    ensures var o := ProcessPdu(cfg, c, encoded, store);
            && (o.error.None? <==>
                  && IsCommand(cfg, encoded, 0x1a) && |encoded| == 9 && MayAdjust(c, Word16(encoded, 3))
                  && var sa := c.sas[Word16(encoded, 3) - 1]; !sa.initialized || sa.rxArsn <= Word32(encoded, 5))
            && (o.error.None? ==>
                  var spi := Word16(encoded, 3);
                  Replaced(c, o, spi, c.sas[spi - 1].(rxArsn := Word32(encoded, 5), initialized := true, lastProcedure := 0x1a)))
  {
    var data := if |encoded| >= 3 then encoded[3..] else [];
    Processed(cfg, c, encoded, 0x1a, store, SetArsn(c, Pdu(false, 1, 10, data)));
    if |encoded| == 9 {
      DataWord(encoded, 0);
      DataWord32(encoded, 2);
    }
  }

  /** Set ARSN Window: tag 0x15, the SPI and a window that is neither zero nor beyond the configured maximum. */
  lemma SetWindowExactly(cfg: Config, c: Context, encoded: seq<byte>, store: Store)
    requires |encoded| >= 1 && encoded[0] == 0x15
    ensures var o := ProcessPdu(cfg, c, encoded, store);
            && (o.error.None? <==>
                  && IsCommand(cfg, encoded, 0x15) && |encoded| == 9 && MayAdjust(c, Word16(encoded, 3))
                  && 0 < Word32(encoded, 5) <= cfg.arsnWindow)
            && (o.error.None? ==>
                  var spi := Word16(encoded, 3);
                  Replaced(c, o, spi, c.sas[spi - 1].(rxWindow := Word32(encoded, 5), lastProcedure := 0x15)))
  {
    var data := if |encoded| >= 3 then encoded[3..] else [];
    Processed(cfg, c, encoded, 0x15, store, SetWindow(cfg, c, Pdu(false, 1, 5, data)));
    if |encoded| == 9 {
      DataWord(encoded, 0);
      DataWord32(encoded, 2);
    }
  }

  // ---- The life cycle of an association ----

  /** The association that a command names. */
  predicate NamesSpi(encoded: seq<byte>, tag: byte, spi: nat) {
    |encoded| >= 5 && encoded[0] == tag && Word16(encoded, 3) == spi
  }

  /** The moves of an association: what it is never changes, and its state and key change only so. */
  predicate SaMoves(e: Event, spi: nat, a: Association, b: Association) {
    && b.configured == a.configured && b.role == a.role && b.mode == a.mode
    && (|| (b.state == a.state && b.keySlot == a.keySlot)
        || (e.Command? && NamesSpi(e.encoded, 0x1b, spi) && a.state == Stopped && b.state == Operational && b.keySlot == a.keySlot)
        || (e.Command? && NamesSpi(e.encoded, 0x1e, spi) && a.state == Operational && b.state == Stopped && b.keySlot == a.keySlot)
        || (e.Command? && NamesSpi(e.encoded, 0x19, spi) && a.state == Stopped && b.state == Expired && b.keySlot == a.keySlot)
        || RekeyMove(e, spi, a, b))
  }

  predicate RekeyMove(e: Event, spi: nat, a: Association, b: Association) {
    && e.Command? && NamesSpi(e.encoded, 0x16, spi) && |e.encoded| >= 7 && a.state == Expired && b.state == Stopped
    && b.keySlot == Word16(e.encoded, 5)
  }

  lemma QuietTag(tag: byte)
    requires Known(tag) && tag !in [0x15, 0x16, 0x19, 0x1a, 0x1b, 0x1e]
    ensures tag / 16 % 4 == 1 ==> tag % 16 !in [5, 6, 9, 10, 11, 14]
  {
  }

  lemma QuietCommand(cfg: Config, c: Context, encoded: seq<byte>, store: Store, tag: byte)
    requires |encoded| >= 1 && encoded[0] == tag && Known(tag) && tag !in [0x15, 0x16, 0x19, 0x1a, 0x1b, 0x1e]
    ensures ProcessPdu(cfg, c, encoded, store).ctx.sas == c.sas
  {
    DecodesCommand(cfg, encoded, tag);
    QuietTag(tag);
    QuietlyProcessed(cfg, c, encoded, store, tag / 16 % 4, tag % 16);
  }

  lemma QuietlyProcessed(cfg: Config, c: Context, encoded: seq<byte>, store: Store, group: nat, procedure: nat)
    requires group == 1 ==> procedure !in [5, 6, 9, 10, 11, 14]
    requires DecodePdu(cfg, encoded).Got? ==> DecodePdu(cfg, encoded) == Got(Pdu(false, group, procedure, encoded[3..]))
    ensures ProcessPdu(cfg, c, encoded, store).ctx.sas == c.sas
  {
    var pdu := DecodePdu(cfg, encoded);
    if pdu.Got? {
      QuietDispatch(cfg, c, encoded, pdu.value, store);
    }
  }

  lemma QuietDispatch(cfg: Config, c: Context, encoded: seq<byte>, pdu: Pdu, store: Store)
    requires pdu.group == SA_MANAGEMENT ==> pdu.procedure !in [5, 6, 9, 10, 11, 14]
    ensures Dispatch(cfg, c, encoded, pdu, store).ctx.sas == c.sas
  {
  }

  lemma CommandMoves(cfg: Config, c: Context, encoded: seq<byte>, store: Store, spi: nat)
    requires 0 < spi <= |c.sas|
    ensures var d := ProcessPdu(cfg, c, encoded, store).ctx;
            |d.sas| == |c.sas| && SaMoves(Command(encoded, store), spi, c.sas[spi - 1], d.sas[spi - 1])
  {
    var o := ProcessPdu(cfg, c, encoded, store);
    if o.error.Some? {
      FailedCommandUntouched(cfg, c, encoded, store);
    } else {
      OnlyCommandsSucceed(cfg, c, encoded, store);
      if encoded[0] in [0x15, 0x16, 0x19, 0x1a, 0x1b, 0x1e] {
        NamesAnSpi(cfg, c, encoded, store);
      }
      if encoded[0] in [0x15, 0x1a] {
        AdjustingMoves(cfg, c, encoded, store, spi);
      } else if encoded[0] in [0x16, 0x19, 0x1b, 0x1e] {
        MovingMoves(cfg, c, encoded, store, spi);
      } else {
        QuietCommand(cfg, c, encoded, store, encoded[0]);
      }
    }
  }

  lemma AdjustingMoves(cfg: Config, c: Context, encoded: seq<byte>, store: Store, spi: nat)
    requires 0 < spi <= |c.sas| && |encoded| >= 5 && encoded[0] in [0x15, 0x1a] && ProcessPdu(cfg, c, encoded, store).error.None?
    ensures var d := ProcessPdu(cfg, c, encoded, store).ctx;
            |d.sas| == |c.sas| && SaMoves(Command(encoded, store), spi, c.sas[spi - 1], d.sas[spi - 1])
  {
    var o, at := ProcessPdu(cfg, c, encoded, store), Word16(encoded, 3);
    if encoded[0] == 0x15 {
      SetWindowExactly(cfg, c, encoded, store);
    } else {
      SetArsnExactly(cfg, c, encoded, store);
    }
    ReplacedMoves(c, o, at, o.ctx.sas[at - 1], Command(encoded, store), spi);
  }

  lemma ReplacedMoves(c: Context, o: Outcome, at: nat, sa: Association, e: Event, spi: nat)
    requires 0 < spi <= |c.sas| && Replaced(c, o, at, sa) && SaMoves(e, at, c.sas[at - 1], sa)
    ensures |o.ctx.sas| == |c.sas| && SaMoves(e, spi, c.sas[spi - 1], o.ctx.sas[spi - 1])
  {
  }

  lemma MovingMoves(cfg: Config, c: Context, encoded: seq<byte>, store: Store, spi: nat)
    requires 0 < spi <= |c.sas| && |encoded| >= 5 && encoded[0] in [0x16, 0x19, 0x1b, 0x1e]
    requires ProcessPdu(cfg, c, encoded, store).error.None?
    ensures var d := ProcessPdu(cfg, c, encoded, store).ctx;
            |d.sas| == |c.sas| && SaMoves(Command(encoded, store), spi, c.sas[spi - 1], d.sas[spi - 1])
  {
    var o, at := ProcessPdu(cfg, c, encoded, store), Word16(encoded, 3);
    if encoded[0] == 0x16 {
      RekeyExactly(cfg, c, encoded, store);
    } else if encoded[0] == 0x19 {
      ExpireExactly(cfg, c, encoded, store);
    } else if encoded[0] == 0x1b {
      StartExactly(cfg, c, encoded, store);
    } else {
      StopExactly(cfg, c, encoded, store);
    }
    ReplacedMoves(c, o, at, o.ctx.sas[at - 1], Command(encoded, store), spi);
  }

  lemma NamesAnSpi(cfg: Config, c: Context, encoded: seq<byte>, store: Store)
    requires |encoded| >= 1 && encoded[0] in [0x15, 0x16, 0x19, 0x1a, 0x1b, 0x1e] && ProcessPdu(cfg, c, encoded, store).error.None?
    ensures |encoded| >= 5
  {
    if encoded[0] in [0x15, 0x1a] {
      SetWindowOrArsnLength(cfg, c, encoded, store);
    } else if encoded[0] == 0x16 {
      RekeyExactly(cfg, c, encoded, store);
    } else if encoded[0] == 0x19 {
      ExpireExactly(cfg, c, encoded, store);
    } else if encoded[0] == 0x1b {
      StartExactly(cfg, c, encoded, store);
    } else {
      StopExactly(cfg, c, encoded, store);
    }
  }

  lemma SetWindowOrArsnLength(cfg: Config, c: Context, encoded: seq<byte>, store: Store)
    requires |encoded| >= 1 && encoded[0] in [0x15, 0x1a] && ProcessPdu(cfg, c, encoded, store).error.None?
    ensures |encoded| >= 5
  {
    if encoded[0] == 0x15 {
      SetWindowExactly(cfg, c, encoded, store);
    } else {
      SetArsnExactly(cfg, c, encoded, store);
    }
  }

  lemma EventMoves(cfg: Config, c: Context, e: Event, spi: nat)
    requires 0 < spi <= |c.sas|
    ensures var d := Next(cfg, c, e); |d.sas| == |c.sas| && SaMoves(e, spi, c.sas[spi - 1], d.sas[spi - 1])
  {
    if e.Command? {
      CommandMoves(cfg, c, e.encoded, e.store, spi);
    }
  }

  ghost predicate FollowsLifecycle(sem: Semantics, spi: nat) {
    forall c: Context, e :: 0 < spi <= |c.sas| ==>
      |sem.next(c, e).sas| == |c.sas| && SaMoves(e, spi, c.sas[spi - 1], sem.next(c, e).sas[spi - 1])
  }

  lemma MeaningFollows(cfg: Config, spi: nat)
    ensures FollowsLifecycle(Meaning(cfg), spi)
  {
    forall c: Context, e | 0 < spi <= |c.sas|
      ensures |Meaning(cfg).next(c, e).sas| == |c.sas|
      ensures SaMoves(e, spi, c.sas[spi - 1], Meaning(cfg).next(c, e).sas[spi - 1])
    {
      EventMoves(cfg, c, e, spi);
    }
  }

  /** The state that event j finds and the one it leaves, for one association. */
  ghost predicate MovesAt(sem: Semantics, c: Context, events: seq<Event>, spi: nat, j: nat) {
    && j < |events| && 0 < spi <= |At(sem, c, events, j).sas| == |At(sem, c, events, j + 1).sas|
    && SaMoves(events[j], spi, At(sem, c, events, j).sas[spi - 1], At(sem, c, events, j + 1).sas[spi - 1])
  }

  /** Event j was a rekey of the association to this key. */
  ghost predicate RekeyedTo(sem: Semantics, c: Context, events: seq<Event>, spi: nat, j: nat, keyId: nat) {
    && MovesAt(sem, c, events, spi, j) && At(sem, c, events, j + 1).sas[spi - 1].keySlot == keyId
    && RekeyMove(events[j], spi, At(sem, c, events, j).sas[spi - 1], At(sem, c, events, j + 1).sas[spi - 1])
  }

  ghost predicate KeyFromRekey(sem: Semantics, c: Context, events: seq<Event>, spi: nat, n: nat, keyId: nat) {
    exists j: nat :: j < n && RekeyedTo(sem, c, events, spi, j, keyId)
  }

  /**
    In every run, whatever commands and frames come: each event moves an association along its life
    cycle or not at all, and its key is the one it began with or the one named by a rekey.
   */
  lemma LifecycleLaw(cfg: Config, c: Context, events: seq<Event>, spi: nat, n: nat)
    requires n <= |events| && 0 < spi <= |c.sas|
    ensures forall j: nat :: j < n ==> MovesAt(Meaning(cfg), c, events, spi, j)
    ensures var d := At(Meaning(cfg), c, events, n);
            && |d.sas| == |c.sas|
            && (d.sas[spi - 1].keySlot == c.sas[spi - 1].keySlot
                || KeyFromRekey(Meaning(cfg), c, events, spi, n, d.sas[spi - 1].keySlot))
  {
    MeaningFollows(cfg, spi);
    LifecycleRun(Meaning(cfg), c, events, spi, n);
  }

  lemma {:induction false} LifecycleRun(sem: Semantics, c: Context, events: seq<Event>, spi: nat, n: nat)
    requires FollowsLifecycle(sem, spi) && n <= |events| && 0 < spi <= |c.sas|
    ensures forall j: nat :: j < n ==> MovesAt(sem, c, events, spi, j)
    ensures var d := At(sem, c, events, n);
            && |d.sas| == |c.sas|
            && (d.sas[spi - 1].keySlot == c.sas[spi - 1].keySlot
                || KeyFromRekey(sem, c, events, spi, n, d.sas[spi - 1].keySlot))
  {
    if n > 0 {
      LifecycleRun(sem, c, events, spi, n - 1);
      var before, after := At(sem, c, events, n - 1), At(sem, c, events, n);
      assert after == sem.next(before, events[n - 1]);
      assert MovesAt(sem, c, events, spi, n - 1);
      if after.sas[spi - 1].keySlot != before.sas[spi - 1].keySlot {
        assert RekeyedTo(sem, c, events, spi, n - 1, after.sas[spi - 1].keySlot);
      }
    }
  }
}
