/**
  The key management and monitoring procedures read from their bytes: exact conditions of success
  and whole effects.
 */
module SdlsKeys {
  import opened CfdpTypes
  import opened CfdpWire
  import opened Sdls
  import opened SdlsEp
  import opened SdlsCommands

  // ---- Lists of key identifiers ----

  /** The n identifiers that follow the header at a fixed distance from each other. */
  predicate Lists(encoded: seq<byte>, entry: nat, ids: seq<nat>) {
    && entry >= 2 && |encoded| == 3 + entry * |ids|
    && forall i :: 0 <= i < |ids| ==> ids[i] == EntryId(encoded, entry, i, |ids|)
  }

  function EntryId(encoded: seq<byte>, entry: nat, i: nat, n: nat): nat
    requires entry >= 2 && |encoded| == 3 + entry * n && i < n
  {
    EntryInside(entry, i, n);
    Word16(encoded, 3 + entry * i)
  }

  lemma ListsKeyIds(encoded: seq<byte>, entry: nat, ids: seq<nat>)
    requires Lists(encoded, entry, ids)
    ensures entry * |ids| <= |encoded[3..]| && KeyIds(encoded[3..], entry, |ids|) == ids
  {
    var n := |ids|;
    forall i | 0 <= i < n ensures IdAt(encoded[3..], entry, i, n) == ids[i] {
      EntryInside(entry, i, n);
      DataWord(encoded, entry * i);
    }
  }

  /** Success with new key states, and nothing else touched. */
  predicate KeysOnly(c: Context, o: Outcome) {
    && o.error.None? && |o.ctx.keys| == |c.keys| && o.ctx.sas == c.sas && o.ctx.fsr == c.fsr
    && o.ctx.carrier == if c.carrier.dispatching then c.carrier else Carrier(false, 0, 0, false)
  }

  // ---- Activation and deactivation ----

  /** Each key is a session key, named once, present, in a state to be moved from, and approved by the store. */
  predicate Movable(cfg: Config, c: Context, ids: seq<nat>, i: nat, activate: bool, store: Store)
    requires i < |ids|
  {
    && cfg.sessionBase <= ids[i] < |c.keys| && ids[i] !in ids[..i] && c.keys[ids[i]].handle != 0
    && (if activate then c.keys[ids[i]].state == Preactive else c.keys[ids[i]].state != Deactivated)
    && store.validate(c.keys[ids[i]].handle, Both).None?
  }

  lemma TransitionExactly(cfg: Config, c: Context, ids: seq<nat>, activate: bool, store: Store)
    ensures Transition(cfg, c, ids, activate, store).error.None?
       <==> forall i :: 0 <= i < |ids| ==> Movable(cfg, c, ids, i, activate, store)
  {
    var check := LifecycleCheck(cfg, c, ids, activate, store);
    NoErrorExactly(check, 0, |ids|);
    forall i | 0 <= i < |ids| ensures check(i).None? <==> Movable(cfg, c, ids, i, activate, store) {
      assert check(i) == LifecycleError(cfg, c, ids, activate, store, i);
    }
  }

  /** Every key listed is in its new state, and nothing else is touched. */
  predicate MovedAs(c: Context, o: Outcome, ids: seq<nat>, state: KeyState) {
    && KeysOnly(c, o) && o.ctx.txIv == c.txIv && o.effects == Effects([], [], [])
    && forall k :: 0 <= k < |c.keys| ==> o.ctx.keys[k] == if k in ids then c.keys[k].(state := state) else c.keys[k]
  }

  /** The outcome once the command is done: the carrier is forgotten unless it is being dispatched. */
  function Settled(c: Context, o: Outcome): Outcome {
    o.(ctx := o.ctx.(carrier := if c.carrier.dispatching then c.carrier else NO_CARRIER))
  }

  lemma MoveKeysDoes(cfg: Config, c: Context, data: seq<byte>, procedure: nat, activate: bool, store: Store, ids: seq<nat>)
    requires |data| == 2 * |ids| && KeyIds(data, 2, |ids|) == ids
    ensures var o := Lifecycle(cfg, c, Pdu(false, 0, procedure, data), activate, store);
            && o.ctx.carrier == c.carrier
            && (o.error.None? <==>
                  0 < |ids| <= |c.keys| && forall i :: 0 <= i < |ids| ==> Movable(cfg, c, ids, i, activate, store))
            && (o.error.None? ==> MovedAs(c, Settled(c, o), ids, if activate then Active else Deactivated))
  {
    assert |data| / 2 == |ids| && |data| % 2 == 0;
    TransitionExactly(cfg, c, ids, activate, store);
    LifecycleAllOrNone(cfg, c, ids, activate, store);
  }

  /** Key Activation is tag 0x02, Key Deactivation tag 0x03; both list the keys as 16-bit identifiers. */
  lemma MoveKeysExactly(cfg: Config, c: Context, encoded: seq<byte>, store: Store, tag: byte, activate: bool, ids: seq<nat>)
    requires tag == if activate then 0x02 else 0x03
    requires |encoded| >= 1 && encoded[0] == tag && Lists(encoded, 2, ids)
    ensures var o := ProcessPdu(cfg, c, encoded, store);
            && (o.error.None? <==>
                  && IsCommand(cfg, encoded, tag) && 0 < |ids| <= |c.keys|
                  && forall i :: 0 <= i < |ids| ==> Movable(cfg, c, ids, i, activate, store))
            && (o.error.None? ==> MovedAs(c, o, ids, if activate then Active else Deactivated))
  {
    var data := encoded[3..];
    var o := Lifecycle(cfg, c, Pdu(false, 0, tag % 16, data), activate, store);
    ListsKeyIds(encoded, 2, ids);
    MoveKeysDoes(cfg, c, data, tag % 16, activate, store, ids);
    Processed(cfg, c, encoded, tag, store, o);
  }

  /** A list that is cut off inside an entry is refused. */
  lemma CutListRefused(cfg: Config, c: Context, encoded: seq<byte>, store: Store, tag: byte, entry: nat)
    requires ((tag == 0x02 || tag == 0x03) && entry == 2) || (tag == 0x04 && entry == 18)
    requires |encoded| >= 3 && encoded[0] == tag && (|encoded| - 3) % entry != 0
    ensures ProcessPdu(cfg, c, encoded, store).error.Some?
  {
    var pdu := Pdu(false, 0, tag % 16, encoded[3..]);
    Processed(cfg, c, encoded, tag, store,
              if entry == 2 then Lifecycle(cfg, c, pdu, tag == 0x02, store) else Verification(cfg, c, pdu, store));
  }

  // ---- Verification ----

  predicate Verifiable(cfg: Config, c: Context, ids: seq<nat>, i: nat, store: Store)
    requires i < |ids|
  {
    && cfg.sessionBase <= ids[i] < |c.keys| && ids[i] !in ids[..i] && c.keys[ids[i]].handle != 0
    && c.keys[ids[i]].state != Deactivated && store.validate(c.keys[ids[i]].handle, Encrypt).None? && store.encrypts(i)
  }

  lemma ChallengeExactly(cfg: Config, c: Context, ids: seq<nat>, store: Store)
    ensures Challenge(cfg, c, ids, store).error.None? <==> forall i :: 0 <= i < |ids| ==> Verifiable(cfg, c, ids, i, store)
  {
    var check, encrypts := VerifyCheck(cfg, c, ids, store), EncryptCheck(store);
    NoErrorExactly(check, 0, |ids|);
    NoErrorExactly(encrypts, 0, |ids|);
    forall i | 0 <= i < |ids| ensures check(i).None? && encrypts(i).None? <==> Verifiable(cfg, c, ids, i, store) {
      assert check(i) == VerifyError(cfg, c, ids, store, i);
    }
  }

  lemma {:induction false} ArsnsSpent(keys: seq<Key>, ids: seq<nat>, n: nat)
    requires n <= |ids| && Distinct(ids) && forall i :: 0 <= i < |ids| ==> ids[i] < |keys|
    ensures forall k :: 0 <= k < |keys| ==>
                          SpendArsns(keys, ids, n)[k]
                          == if k in ids[..n] then keys[k].(txArsn := (keys[k].txArsn + 1) % U32) else keys[k]
  {
    if n > 0 {
      ArsnsSpent(keys, ids, n - 1);
      assert ids[..n] == ids[..n - 1] + [ids[n - 1]];
      assert ids[n - 1] !in ids[..n - 1];
    }
  }

  lemma {:induction false} VectorAt(c: Context, ids: seq<nat>, n: nat, i: nat)
    requires i < n <= |ids| && ids[i] < |c.keys|
    ensures VerifyIvs(c, ids, n)[i] == Iv(Advance(c.txIv, i), c.keys[ids[i]].txArsn)
  {
    if i < n - 1 {
      VectorAt(c, ids, n - 1, i);
    }
  }

  /** Key Verification is tag 0x04; each entry is a 16-bit identifier and a 16-byte challenge. */
  lemma VerifyKeysExactly(cfg: Config, c: Context, encoded: seq<byte>, store: Store, ids: seq<nat>)
    requires |encoded| >= 1 && encoded[0] == 0x04 && Lists(encoded, 18, ids)
    ensures var o := ProcessPdu(cfg, c, encoded, store);
            && (o.error.None? <==>
                  && IsCommand(cfg, encoded, 0x04) && 0 < |ids| <= |c.keys|
                  && forall i :: 0 <= i < |ids| ==> Verifiable(cfg, c, ids, i, store))
            && (o.error.None? ==> VerifiedAs(c, o, ids))
  {
    var data := encoded[3..];
    ListsKeyIds(encoded, 18, ids);
    assert |data| / 18 == |ids| && |data| % 18 == 0;
    var pdu := Pdu(false, 0, 4, data);
    var o := Verification(cfg, c, pdu, store);
    Processed(cfg, c, encoded, 0x04, store, o);
    if 0 < |ids| <= |c.keys| {
      assert o == Challenge(cfg, c, ids, store);
      ChallengeExactly(cfg, c, ids, store);
      if o.error.None? {
        ChallengeDoes(cfg, c, ids, store);
      }
    }
  }

  /** One vector per key in order, each with the key's number, and as many strides of the counter. */
  ghost predicate VerifiedAs(c: Context, o: Outcome, ids: seq<nat>) {
    && KeysOnly(c, o) && o.effects.imported == [] && o.effects.destroyed == []
    && |o.effects.ivs| == |ids| && o.ctx.txIv == Advance(c.txIv, |ids|)
    && (forall i :: 0 <= i < |ids| ==>
          ids[i] < |c.keys| && o.effects.ivs[i] == Iv(Advance(c.txIv, i), c.keys[ids[i]].txArsn))
    && (forall k :: 0 <= k < |c.keys| ==>
          o.ctx.keys[k] == if k in ids then c.keys[k].(txArsn := (c.keys[k].txArsn + 1) % U32) else c.keys[k])
  }

  lemma ChallengeDoes(cfg: Config, c: Context, ids: seq<nat>, store: Store)
    requires forall i :: 0 <= i < |ids| ==> Verifiable(cfg, c, ids, i, store)
    ensures var o := Challenge(cfg, c, ids, store);
            VerifiedAs(c, o.(ctx := o.ctx.(carrier := if c.carrier.dispatching then c.carrier else NO_CARRIER)), ids)
  {
    ChallengeExactly(cfg, c, ids, store);
    forall i | 0 <= i < |ids| ensures ids[i] < |c.keys| && ids[i] !in ids[..i] {
      assert Verifiable(cfg, c, ids, i, store);
    }
    SeenOnce(ids);
    ArsnsSpent(c.keys, ids, |ids|);
    assert ids[..|ids|] == ids;
    forall i | 0 <= i < |ids| ensures VerifyIvs(c, ids, |ids|)[i] == Iv(Advance(c.txIv, i), c.keys[ids[i]].txArsn) {
      VectorAt(c, ids, |ids|, i);
    }
  }

  // ---- Monitoring and reading ----

  /** Reset Alarm Flag is tag 0x37 and has no data: all four flags are lowered. */
  lemma ResetExactly(cfg: Config, c: Context, encoded: seq<byte>, store: Store)
    requires |encoded| >= 1 && encoded[0] == 0x37
    ensures var o := ProcessPdu(cfg, c, encoded, store);
            && (o.error.None? <==> IsCommand(cfg, encoded, 0x37) && |encoded| == 3)
            && (o.error.None? ==>
                  && o.effects == Effects([], [], []) && o.ctx.sas == c.sas && o.ctx.keys == c.keys && o.ctx.txIv == c.txIv
                  && o.ctx.fsr == Report(c.fsr.lastSpi, c.fsr.lastArsn, false, false, false, false))
  {
    var data := if |encoded| >= 3 then encoded[3..] else [];
    Processed(cfg, c, encoded, 0x37, store, Monitor(c, Pdu(false, 3, 7, data), store));
  }

  lemma ReadingTag(tag: byte)
    requires tag in [0x07, 0x10, 0x1f, 0x31, 0x32, 0x33, 0x34, 0x35]
    ensures Known(tag) && ReadingProcedure(tag / 16 % 4, tag % 16)
  {
  }

  predicate ReadingProcedure(group: nat, procedure: nat) {
    (group == 0 && procedure == 7) || (group == 1 && procedure in [0, 15]) || (group == 3 && procedure != 7)
  }

  lemma ReadingDispatch(cfg: Config, c: Context, encoded: seq<byte>, pdu: Pdu, store: Store)
    requires ReadingProcedure(pdu.group, pdu.procedure)
    ensures var o := Dispatch(cfg, c, encoded, pdu, store); o.effects == NOTHING && o.ctx == c
  {
  }

  lemma ReadingProcessed(cfg: Config, c: Context, encoded: seq<byte>, store: Store, group: nat, procedure: nat)
    requires ReadingProcedure(group, procedure)
    requires DecodePdu(cfg, encoded).Got? ==> DecodePdu(cfg, encoded) == Got(Pdu(false, group, procedure, encoded[3..]))
    ensures var o := ProcessPdu(cfg, c, encoded, store);
            o.effects == NOTHING && o.ctx == c.(carrier := o.ctx.carrier)
  {
    var pdu := DecodePdu(cfg, encoded);
    if pdu.Got? {
      ReadingDispatch(cfg, c, encoded, pdu.value, store);
    }
  }

  /** The commands that only read: inventory, SA status, ARSN, and the other monitoring commands. */
  lemma ReadingChangesNothing(cfg: Config, c: Context, encoded: seq<byte>, store: Store, tag: byte)
    requires |encoded| >= 1 && encoded[0] == tag && tag in [0x07, 0x10, 0x1f, 0x31, 0x32, 0x33, 0x34, 0x35]
    ensures var o := ProcessPdu(cfg, c, encoded, store);
            && o.effects == Effects([], [], []) && o.ctx == c.(carrier := o.ctx.carrier)
  {
    ReadingTag(tag);
    DecodesCommand(cfg, encoded, tag);
    ReadingProcessed(cfg, c, encoded, store, tag / 16 % 4, tag % 16);
  }

  // ---- Over-the-air rekeying ----

  /** A destination: a session slot, named once, that does not hold an active key. */
  predicate Installable(cfg: Config, c: Context, ids: seq<nat>, i: nat)
    requires i < |ids|
  {
    && cfg.sessionBase <= ids[i] < |c.keys| && ids[i] !in ids[..i]
    && (c.keys[ids[i]].handle == 0 || c.keys[ids[i]].state != Active)
  }

  lemma {:induction false} AllImported(store: Store, i: nat, n: nat)
    requires i <= n
    ensures ImportCount(store, i, n) == n <==> forall k :: i <= k < n ==> store.imported(k).Some?
    decreases n - i
  {
    if i < n && store.imported(i).Some? {
      AllImported(store, i + 1, n);
    }
  }

  lemma InstallExactly(cfg: Config, c: Context, ids: seq<nat>, store: Store)
    ensures OtarInstall(cfg, c, ids, store).error.None?
       <==> forall i :: 0 <= i < |ids| ==> Installable(cfg, c, ids, i) && store.imported(i).Some?
  {
    var check := CheckAt(cfg, c, ids);
    NoErrorExactly(check, 0, |ids|);
    AllImported(store, 0, |ids|);
    forall i | 0 <= i < |ids| ensures check(i).None? <==> Installable(cfg, c, ids, i) {
      assert check(i) == DestinationError(cfg, c, ids, i);
    }
  }

  /** The block i of the plaintext: a 16-bit identifier and a 32-byte key. */
  function BlockIds(plain: seq<byte>, n: nat): (ids: seq<nat>)
    requires |plain| == 34 * n
    ensures |ids| == n
  {
    seq(n, i requires 0 <= i < n => Word16(plain, 34 * i))
  }

  lemma BlockIdsAre(plain: seq<byte>, n: nat)
    requires |plain| == 34 * n
    ensures Destinations(plain, n) == BlockIds(plain, n)
  {
    forall i | 0 <= i < n ensures BlockId(plain, i) == Word16(plain, 34 * i) {
      Word16IsBe(plain, 34 * i);
    }
  }

  /** A master key below the session keys that may decrypt. */
  predicate Master(cfg: Config, c: Context, id: nat, store: Store) {
    && id < cfg.sessionBase && id < |c.keys| && c.keys[id].handle != 0 && c.keys[id].state == Active
    && store.validate(c.keys[id].handle, Decrypt).None?
  }

  /** OTAR is tag 0x01: the master key, a vector, the encrypted blocks and a tag of 30 bytes together. */
  predicate MayReplaceKeys(cfg: Config, c: Context, encoded: seq<byte>, store: Store, plain: seq<byte>, n: nat) {
    && IsCommand(cfg, encoded, 0x01) && n > 0 && |encoded| == 33 + 34 * n && n + cfg.sessionBase <= |c.keys|
    && Master(cfg, c, Word16(encoded, 3), store)
    && store.decrypt(c.keys[Word16(encoded, 3)].handle, encoded) == Got(plain) && |plain| == 34 * n
    && forall i :: 0 <= i < n ==> Installable(cfg, c, BlockIds(plain, n), i) && store.imported(i).Some?
  }

  /** OTAR succeeds exactly so, and then every destination holds the key imported for it, not yet active. */
  lemma ReplaceKeysExactly(cfg: Config, c: Context, encoded: seq<byte>, store: Store)
    requires |encoded| >= 1 && encoded[0] == 0x01
    ensures var o := ProcessPdu(cfg, c, encoded, store);
            && (o.error.None? <==> exists plain, n: nat :: MayReplaceKeys(cfg, c, encoded, store, plain, n))
            && (forall plain, n: nat :: MayReplaceKeys(cfg, c, encoded, store, plain, n) ==> InstalledAs(c, o, store, BlockIds(plain, n)))
  {
    var data := if |encoded| >= 3 then encoded[3..] else [];
    var o := Otar(cfg, c, encoded, Pdu(false, 0, 1, data), store);
    OtarCarrier(cfg, c, encoded, Pdu(false, 0, 1, data), store);
    Processed(cfg, c, encoded, 0x01, store, o);
    if IsCommand(cfg, encoded, 0x01) && o.error.None? {
      var plain, n := OtarNeeds(cfg, c, encoded, data, store);
      assert MayReplaceKeys(cfg, c, encoded, store, plain, n);
    }
    forall plain, n: nat | MayReplaceKeys(cfg, c, encoded, store, plain, n)
      ensures o.error.None? && InstalledAs(c, ProcessPdu(cfg, c, encoded, store), store, BlockIds(plain, n))
    {
      OtarDoes(cfg, c, encoded, data, store, plain, n);
    }
  }

  lemma OtarCarrier(cfg: Config, c: Context, encoded: seq<byte>, pdu: Pdu, store: Store)
    ensures Otar(cfg, c, encoded, pdu, store).ctx.carrier == c.carrier
  {
  }

  predicate InstalledAs(c: Context, o: Outcome, store: Store, ids: seq<nat>) {
    && KeysOnly(c, o) && o.ctx.txIv == c.txIv && o.effects.ivs == []
    && (forall i :: 0 <= i < |ids| ==>
          ids[i] < |c.keys| && store.imported(i).Some? && o.ctx.keys[ids[i]] == Key(store.imported(i).value, 0, Preactive))
    && (forall k :: 0 <= k < |c.keys| && k !in ids ==> o.ctx.keys[k] == c.keys[k])
  }

  lemma OtarNeeds(cfg: Config, c: Context, encoded: seq<byte>, data: seq<byte>, store: Store) returns (plain: seq<byte>, n: nat)
    requires IsCommand(cfg, encoded, 0x01) && data == encoded[3..]
    requires Otar(cfg, c, encoded, Pdu(false, 0, 1, data), store).error.None?
    ensures MayReplaceKeys(cfg, c, encoded, store, plain, n)
  {
    DataWord(encoded, 0);
    var master := Word16(encoded, 3);
    n := (|data| - 30) / 34;
    plain := store.decrypt(c.keys[master].handle, encoded).value;
    BlockIdsAre(plain, n);
    InstallExactly(cfg, c, BlockIds(plain, n), store);
  }

  lemma InstallDoes(cfg: Config, c: Context, ids: seq<nat>, store: Store)
    requires forall i :: 0 <= i < |ids| ==> Installable(cfg, c, ids, i) && store.imported(i).Some?
    ensures var o := OtarInstall(cfg, c, ids, store); o.error.None? && InstalledAs(c, Settled(c, o), store, ids)
  {
    InstallExactly(cfg, c, ids, store);
    OtarAllOrNone(cfg, c, ids, store);
    AllImported(store, 0, |ids|);
  }

  lemma OtarDoes(cfg: Config, c: Context, encoded: seq<byte>, data: seq<byte>, store: Store, plain: seq<byte>, n: nat)
    requires MayReplaceKeys(cfg, c, encoded, store, plain, n) && data == encoded[3..]
    ensures var o := Otar(cfg, c, encoded, Pdu(false, 0, 1, data), store);
            && o.error.None?
            && InstalledAs(c, Settled(c, o), store, BlockIds(plain, n))
  {
    var ids := BlockIds(plain, n);
    DataWord(encoded, 0);
    BlockIdsAre(plain, n);
    InstallDoes(cfg, c, ids, store);
    assert (|data| - 30) / 34 == n;
    assert Otar(cfg, c, encoded, Pdu(false, 0, 1, data), store) == OtarInstall(cfg, c, ids, store);
  }
}
