/**
  The extended procedures of Space Data Link Security (annex D of CCSDS 355.1-B-1): commands
  that replace, activate, deactivate and verify keys and that manage security associations.
  PSA calls are abstract; what they answered during one call is fixed by a `Store`.
 */
module SdlsEp {
  import opened CfdpTypes
  import opened Sdls
  import P = CfdpPdu

  // ---- The outside world during one call ----

  datatype Usage = Encrypt | Decrypt | Both

  /** What an import that succeeds returns; zero is PSA_KEY_ID_NULL. */
  type Handle = h: nat | h > 0 witness 1

  /**
    `validate` is the answer of the attribute check on a handle, `decrypt` the plaintext of an
    OTAR command under the master key, `imported` the handle given to the i-th imported key,
    `encrypts` whether the i-th verification challenge was encrypted; `logLen` is the length of the
    event log on the wire.
   */
  datatype Store = Store(
    validate: (nat, Usage) -> Option<Error>, decrypt: (nat, seq<byte>) -> Answer<Error, seq<byte>>, imported: nat -> Option<Handle>,
    volatileKey: nat -> bool, encrypts: nat -> bool, replyCapacity: nat, logLen: nat, selfTest: Option<Error>)

  /** What a call did to the key store and what it sent: handles imported and destroyed, vectors emitted. */
  datatype Effects = Effects(imported: seq<nat>, destroyed: seq<nat>, ivs: seq<Iv>)

  const NOTHING := Effects([], [], [])

  datatype Outcome = Outcome(ctx: Context, error: Option<Error>, effects: Effects)

  function Refused(c: Context, e: Error): Outcome { Outcome(c, Some(e), NOTHING) }

  function Done(c: Context): Outcome { Outcome(c, None, NOTHING) }

  // ---- The common header ----

  datatype Pdu = Pdu(reply: bool, group: nat, procedure: nat, data: seq<byte>)

  const KEY_MANAGEMENT: nat := 0
  const SA_MANAGEMENT: nat := 1
  const MONITORING: nat := 3

  predicate Supported(reply: bool, group: nat, procedure: nat) {
    if group == KEY_MANAGEMENT then
      procedure in [1, 2, 3, 4, 7] && (!reply || procedure in [4, 7])
    else if group == SA_MANAGEMENT then
      procedure in [0, 5, 6, 9, 10, 11, 14, 15] && (!reply || procedure in [0, 15])
    else if group == MONITORING then
      procedure in [1, 2, 3, 4, 5, 7] && (!reply || procedure != 7)
    else false
  }

  /** ccsds_sdls_ep_pdu_decode. */
  function DecodePdu(cfg: Config, encoded: seq<byte>): Answer<Error, Pdu> {
    if |encoded| < 3 then Fail(Format)
    else
      var tag := encoded[0];
      var reply, group, procedure := tag >= 128, tag / 16 % 4, tag % 16;
      if tag / 64 % 2 == 1 then Fail(NotSupported)
      else if !Supported(reply, group, procedure) then Fail(NotSupported)
      else
        var bits := P.GetBe(encoded[1..3]);
        if bits % 8 != 0 || |encoded| != 3 + bits / 8 then Fail(Format)
        else if |encoded| > cfg.maxPdu then Fail(Capacity)
        else Got(Pdu(reply, group, procedure, encoded[3..]))
  }

  function Be16(s: seq<byte>, at: nat): nat
    requires at + 2 <= |s|
  {
    P.GetBe(s[at..at + 2])
  }

  function Be32(s: seq<byte>, at: nat): nat
    requires at + 4 <= |s|
  {
    P.GetBe(s[at..at + 4])
  }

  // ---- OTAR: new session keys, all or none ----

  const OTAR_BLOCK: nat := 34

  function BlockId(plain: seq<byte>, i: nat): nat
    requires OTAR_BLOCK * i + 2 <= |plain|
  {
    Be16(plain, OTAR_BLOCK * i)
  }

  function Destinations(plain: seq<byte>, n: nat): (ids: seq<nat>)
    requires OTAR_BLOCK * n <= |plain|
    ensures |ids| == n
  {
    seq(n, i requires 0 <= i < n => BlockId(plain, i))
  }

  predicate SessionKey(cfg: Config, c: Context, id: nat) { cfg.sessionBase <= id < |c.keys| }

  /** The check of the i-th destination: a session slot, named once, and not an active key. */
  function DestinationError(cfg: Config, c: Context, ids: seq<nat>, i: nat): Option<Error>
    requires i < |ids|
  {
    if !SessionKey(cfg, c, ids[i]) then Some(WrongKey)
    else if ids[i] in ids[..i] then Some(Format)
    else if c.keys[ids[i]].handle != 0 && c.keys[ids[i]].state.Active? then Some(WrongKeyState)
    else None
  }

  /** The first error of a loop over n entries. */
  function FirstError(check: nat -> Option<Error>, i: nat, n: nat): Option<Error>
    requires i <= n
    decreases n - i
  {
    if i == n then None else if check(i).Some? then check(i) else FirstError(check, i + 1, n)
  }

  function CheckAt(cfg: Config, c: Context, ids: seq<nat>): nat -> Option<Error> {
    (i: nat) => if i < |ids| then DestinationError(cfg, c, ids, i) else None
  }

  /** How many keys the store imported before it refused one. */
  function ImportCount(store: Store, i: nat, n: nat): (k: nat)
    requires i <= n
    ensures i <= k <= n
    decreases n - i
  {
    if i == n || store.imported(i).None? then i else ImportCount(store, i + 1, n)
  }

  function Handles(store: Store, n: nat): (hs: seq<nat>)
    ensures |hs| == n
  {
    seq(n, i requires 0 <= i => if store.imported(i).Some? then store.imported(i).value else 0)
  }

  /** The `imported` array of n slots after k imports. */
  function Slots(store: Store, k: nat, n: nat): (slots: seq<nat>)
    requires k <= n
    ensures |slots| == n
  {
    Handles(store, k) + seq(n - k, _ => 0)
  }

  /** The array once the commit loop has moved its first n handles into the key table. */
  function Nulled(slots: seq<nat>, n: nat): (r: seq<nat>)
    requires n <= |slots|
    ensures |r| == |slots|
  {
    seq(n, _ => 0) + slots[n..]
  }

  /** The handles that the clean-up loop destroys among the first `count` slots: those still held. */
  function CleanUp(slots: seq<nat>, count: nat): seq<nat>
    requires count <= |slots|
  {
    if count == 0 then []
    else CleanUp(slots, count - 1) + if slots[count - 1] != 0 then [slots[count - 1]] else []
  }

  /** The first n new keys put into their slots. */
  function Install(keys: seq<Key>, ids: seq<nat>, hs: seq<nat>, n: nat): (r: seq<Key>)
    requires n <= |ids| && n <= |hs|
    ensures |r| == |keys|
  {
    if n == 0 then keys
    else
      var before := Install(keys, ids, hs, n - 1);
      if ids[n - 1] < |before| then before[ids[n - 1] := Key(hs[n - 1], 0, Preactive)] else before
  }

  /** The handles that the first n new keys replace and that the store may forget. */
  function Replaced(store: Store, keys: seq<Key>, ids: seq<nat>, n: nat): seq<nat>
    requires n <= |ids|
  {
    if n == 0 then []
    else
      var before := Replaced(store, keys, ids, n - 1);
      if ids[n - 1] < |keys| && keys[ids[n - 1]].handle != 0 && store.volatileKey(keys[ids[n - 1]].handle)
      then before + [keys[ids[n - 1]].handle] else before
  }

  function Otar(cfg: Config, c: Context, encoded: seq<byte>, pdu: Pdu, store: Store): Outcome {
    var data := pdu.data;
    if pdu.reply then Refused(c, NotSupported)
    else if |data| < 30 + OTAR_BLOCK || (|data| - 30) % OTAR_BLOCK != 0 then Refused(c, Format)
    else
      var count, master := (|data| - 30) / OTAR_BLOCK, Be16(data, 0);
      if count > NonNegative(|c.keys| - cfg.sessionBase) then Refused(c, Capacity)
      else if master >= cfg.sessionBase || master >= |c.keys| || c.keys[master].handle == 0 || !c.keys[master].state.Active?
      then Refused(c, WrongKey)
      else
        var invalid := store.validate(c.keys[master].handle, Decrypt);
        if invalid.Some? then Refused(c, invalid.value)
        else
          var plain := store.decrypt(c.keys[master].handle, encoded);
          if plain.Fail? then Refused(c, plain.error)
          else if |plain.value| != OTAR_BLOCK * count then Refused(c, Psa)
          else OtarInstall(cfg, c, Destinations(plain.value, count), store)
  }

  function NonNegative(n: int): nat { if n < 0 then 0 else n }

  /**
    After decryption: check every destination, import every key, and only then touch the slots.
    Both ways out run the clean-up loop over the array of imported handles.
   */
  function OtarInstall(cfg: Config, c: Context, ids: seq<nat>, store: Store): Outcome {
    var wrong := FirstError(CheckAt(cfg, c, ids), 0, |ids|);
    var n := ImportCount(store, 0, |ids|);
    var slots, hs := Slots(store, n, |ids|), Handles(store, n);
    if wrong.Some? then Refused(c, wrong.value)
    else if n < |ids| then Outcome(c, Some(Psa), Effects(hs, CleanUp(slots, n), []))
    else Outcome(c.(keys := Install(c.keys, ids, slots, n)), None,
                 Effects(hs, Replaced(store, c.keys, ids, n) + CleanUp(Nulled(slots, n), n), []))
  }

  // ---- Key life cycle: activation and deactivation, all or none ----

  function KeyIds(data: seq<byte>, entry: nat, n: nat): (ids: seq<nat>)
    requires entry >= 2 && entry * n <= |data|
    ensures |ids| == n
  {
    seq(n, i requires 0 <= i < n => IdAt(data, entry, i, n))
  }

  function IdAt(data: seq<byte>, entry: nat, i: nat, n: nat): nat
    requires entry >= 2 && entry * n <= |data| && i < n
  {
    EntryInside(entry, i, n);
    Be16(data, entry * i)
  }

  lemma EntryInside(entry: nat, i: nat, n: nat)
    requires i < n
    ensures entry * i + entry <= entry * n
  {
    assert entry * n == entry * (i + 1) + entry * (n - i - 1);
    assert entry * (i + 1) == entry * i + entry;
  }

  /** A session key named once that exists. */
  predicate Recipient(cfg: Config, c: Context, ids: seq<nat>, i: nat)
    requires i < |ids|
  {
    SessionKey(cfg, c, ids[i]) && ids[i] !in ids[..i] && c.keys[ids[i]].handle != 0
  }

  function LifecycleError(cfg: Config, c: Context, ids: seq<nat>, activate: bool, store: Store, i: nat): Option<Error>
    requires i < |ids|
  {
    if !Recipient(cfg, c, ids, i) then Some(WrongKey)
    else
      var key := c.keys[ids[i]];
      if (if activate then !key.state.Preactive? else key.state.Deactivated?) then Some(WrongKeyState)
      else store.validate(key.handle, Both)
  }

  function LifecycleCheck(cfg: Config, c: Context, ids: seq<nat>, activate: bool, store: Store): nat -> Option<Error> {
    (i: nat) => if i < |ids| then LifecycleError(cfg, c, ids, activate, store, i) else None
  }

  /** The first n recipients put into a state. */
  function SetStates(keys: seq<Key>, ids: seq<nat>, state: KeyState, n: nat): (r: seq<Key>)
    requires n <= |ids|
    ensures |r| == |keys|
  {
    if n == 0 then keys
    else
      var before := SetStates(keys, ids, state, n - 1);
      if ids[n - 1] < |before| then before[ids[n - 1] := before[ids[n - 1]].(state := state)] else before
  }

  function Lifecycle(cfg: Config, c: Context, pdu: Pdu, activate: bool, store: Store): Outcome {
    var n := |pdu.data| / 2;
    if pdu.reply then Refused(c, NotSupported)
    else if pdu.data == [] || |pdu.data| % 2 == 1 then Refused(c, Format)
    else if n > |c.keys| then Refused(c, Capacity)
    else Transition(cfg, c, KeyIds(pdu.data, 2, n), activate, store)
  }

  function Transition(cfg: Config, c: Context, ids: seq<nat>, activate: bool, store: Store): Outcome {
    var wrong := FirstError(LifecycleCheck(cfg, c, ids, activate, store), 0, |ids|);
    if wrong.Some? then Refused(c, wrong.value)
    else Done(c.(keys := SetStates(c.keys, ids, if activate then Active else Deactivated, |ids|)))
  }

  // ---- Key verification: one vector per recipient, spent only if all succeed ----

  function VerifyError(cfg: Config, c: Context, ids: seq<nat>, store: Store, i: nat): Option<Error>
    requires i < |ids|
  {
    if !Recipient(cfg, c, ids, i) then Some(WrongKey)
    else if c.keys[ids[i]].state.Deactivated? then Some(WrongKeyState)
    else store.validate(c.keys[ids[i]].handle, Encrypt)
  }

  function VerifyCheck(cfg: Config, c: Context, ids: seq<nat>, store: Store): nat -> Option<Error> {
    (i: nat) => if i < |ids| then VerifyError(cfg, c, ids, store, i) else None
  }

  function EncryptCheck(store: Store): nat -> Option<Error> {
    (i: nat) => if store.encrypts(i) then None else Some(Psa)
  }

  function Advance(iv: nat, n: nat): nat {
    if n == 0 then iv else NextIv(Advance(iv, n - 1))
  }

  function VerifyIvs(c: Context, ids: seq<nat>, n: nat): (ivs: seq<Iv>)
    requires n <= |ids|
    ensures |ivs| == n
  {
    if n == 0 then []
    else VerifyIvs(c, ids, n - 1)
         + [Iv(Advance(c.txIv, n - 1), if ids[n - 1] < |c.keys| then c.keys[ids[n - 1]].txArsn else 0)]
  }

  function SpendArsns(keys: seq<Key>, ids: seq<nat>, n: nat): (r: seq<Key>)
    requires n <= |ids|
    ensures |r| == |keys|
  {
    if n == 0 then keys
    else
      var before := SpendArsns(keys, ids, n - 1);
      if ids[n - 1] < |before|
      then before[ids[n - 1] := before[ids[n - 1]].(txArsn := (before[ids[n - 1]].txArsn + 1) % U32)] else before
  }

  const VERIFY_ENTRY: nat := 18

  function Verification(cfg: Config, c: Context, pdu: Pdu, store: Store): Outcome {
    var n := |pdu.data| / VERIFY_ENTRY;
    if pdu.reply then Refused(c, NotSupported)
    else if pdu.data == [] || |pdu.data| % VERIFY_ENTRY != 0 then Refused(c, Format)
    else if n > |c.keys| then Refused(c, Capacity)
    else Challenge(cfg, c, KeyIds(pdu.data, VERIFY_ENTRY, n), store)
  }

  function Challenge(cfg: Config, c: Context, ids: seq<nat>, store: Store): Outcome {
    var n := |ids|;
    var wrong := FirstError(VerifyCheck(cfg, c, ids, store), 0, n);
    if wrong.Some? then Refused(c, wrong.value)
    else if FirstError(EncryptCheck(store), 0, n).Some? then Refused(c, Psa)
    else Outcome(c.(keys := SpendArsns(c.keys, ids, n), txIv := Advance(c.txIv, n)), None, Effects([], [], VerifyIvs(c, ids, n)))
  }

  // ---- Key inventory ----

  function InventoryCheck(c: Context, first: nat, store: Store): nat -> Option<Error> {
    (i: nat) => if first + i < |c.keys| && c.keys[first + i].handle != 0 then store.validate(c.keys[first + i].handle, Both) else None
  }

  function Present(c: Context, first: nat, n: nat): nat {
    if n == 0 then 0
    else Present(c, first, n - 1) + if first + n - 1 < |c.keys| && c.keys[first + n - 1].handle != 0 then 1 else 0
  }

  function Inventory(c: Context, pdu: Pdu, store: Store): Outcome {
    if !c.carrier.valid then Refused(c, Authentication)
    else if pdu.reply then Refused(c, NotSupported)
    else if |pdu.data| != 4 then Refused(c, Format)
    else
      var first, last := Be16(pdu.data, 0), Be16(pdu.data, 2);
      if first > last || last >= |c.keys| then Refused(c, WrongKey)
      else
        var wrong := FirstError(InventoryCheck(c, first, store), 0, last - first + 1);
        if wrong.Some? then Refused(c, wrong.value)
        else if store.replyCapacity < 5 + 3 * Present(c, first, last - first + 1) then Refused(c, Capacity)
        else Done(c)
  }

  // ---- Security associations ----

  predicate Managed(c: Context, spi: nat) { spi != 0 && spi != 0xffff && Configured(c, spi) }

  function SharingCheck(c: Context, spi: nat, keyId: nat): nat -> Option<Error>
    requires 0 < spi <= |c.sas|
  {
    (i: nat) => if i < |c.sas| && i != spi - 1 && c.sas[i].configured && c.sas[i].keySlot == keyId
            && (IsTx(c.sas[i].role) != IsTx(Sa(c, spi).role) || c.sas[i].mode != Sa(c, spi).mode)
         then Some(WrongKey) else None
  }

  /** validate_sa_key. */
  function SaKeyError(cfg: Config, c: Context, spi: nat, keyId: nat, sessionOnly: bool, store: Store): Option<Error>
    requires 0 < spi <= |c.sas|
  {
    if keyId == 0 || keyId >= |c.keys| || (sessionOnly && keyId < cfg.sessionBase) || c.keys[keyId].handle == 0
    then Some(WrongKey)
    else if !c.keys[keyId].state.Active? then Some(WrongKeyState)
    else
      var invalid := store.validate(c.keys[keyId].handle, if IsTx(Sa(c, spi).role) then Encrypt else Decrypt);
      if invalid.Some? then invalid else FirstError(SharingCheck(c, spi, keyId), 0, |c.sas|)
  }

  function StartSa(cfg: Config, c: Context, pdu: Pdu, store: Store): Outcome {
    var data := pdu.data;
    if pdu.reply then Refused(c, NotSupported)
    else if |data| < 2 || (|data| - 2) % 4 != 0 then Refused(c, Format)
    else if (|data| - 2) / 4 > |c.sas| then Refused(c, Capacity)
    else
      var spi := Be16(data, 0);
      if !Managed(c, spi) then Refused(c, UnknownSa)
      else if !Sa(c, spi).state.Stopped? then Refused(c, WrongSaState)
      else if Sa(c, spi).mode.Clear? then
        if !c.carrier.valid || c.carrier.spi == spi then Refused(c, Authentication)
        else Done(WithSa(c, spi, Sa(c, spi).(state := Operational, lastProcedure := 27)))
      else
        var wrong := SaKeyError(cfg, c, spi, Sa(c, spi).keySlot, false, store);
        if wrong.Some? then Refused(c, wrong.value)
        else Done(WithSa(c, spi, Sa(c, spi).(state := Operational, lastProcedure := 27)))
  }

  /** Stop and Expire. */
  function MoveSa(c: Context, pdu: Pdu, from: SaState, next: SaState): Outcome {
    if pdu.reply then Refused(c, NotSupported)
    else if |pdu.data| != 2 then Refused(c, Format)
    else
      var spi := Be16(pdu.data, 0);
      if !Managed(c, spi) then Refused(c, UnknownSa)
      else if Sa(c, spi).state != from then Refused(c, WrongSaState)
      else Done(WithSa(c, spi, Sa(c, spi).(state := next, lastProcedure := 16 + pdu.procedure)))
  }

  function RekeySa(cfg: Config, c: Context, pdu: Pdu, store: Store): Outcome {
    var data := pdu.data;
    if pdu.reply then Refused(c, NotSupported)
    else if |data| != 4 && |data| != 8 then Refused(c, Format)
    else
      var spi, keyId := Be16(data, 0), Be16(data, 2);
      if !Managed(c, spi) then Refused(c, UnknownSa)
      else if !Sa(c, spi).state.Expired? || Sa(c, spi).mode.Clear? then Refused(c, WrongSaState)
      else if IsTx(Sa(c, spi).role) == (|data| == 8) then Refused(c, Format)
      else
        var wrong := SaKeyError(cfg, c, spi, keyId, true, store);
        if wrong.Some? then Refused(c, wrong.value)
        else
          var sa := Sa(c, spi).(keySlot := keyId, state := Stopped, lastProcedure := 22);
          Done(WithSa(c, spi, if |data| == 8 then sa.(rxArsn := Be32(data, 4), initialized := true) else sa))
  }

  /** mutable_rx_sa. */
  function MutableError(c: Context, spi: nat): Option<Error> {
    if !Managed(c, spi) then Some(UnknownSa)
    else if IsTx(Sa(c, spi).role) || Sa(c, spi).mode.Clear? || Sa(c, spi).state.Expired? then Some(WrongSaState)
    else None
  }

  function SetArsn(c: Context, pdu: Pdu): Outcome {
    if pdu.reply then Refused(c, NotSupported)
    else if |pdu.data| != 6 then Refused(c, Format)
    else
      var spi, arsn := Be16(pdu.data, 0), Be32(pdu.data, 2);
      var wrong := MutableError(c, spi);
      if wrong.Some? then Refused(c, wrong.value)
      else if Sa(c, spi).initialized && arsn < Sa(c, spi).rxArsn then Refused(c, Replay)
      else Done(WithSa(c, spi, Sa(c, spi).(rxArsn := arsn, initialized := true, lastProcedure := 26)))
  }

  function SetWindow(cfg: Config, c: Context, pdu: Pdu): Outcome {
    if pdu.reply then Refused(c, NotSupported)
    else if |pdu.data| != 6 then Refused(c, Format)
    else
      var spi, window := Be16(pdu.data, 0), Be32(pdu.data, 2);
      if window == 0 || window > cfg.arsnWindow then Refused(c, Capacity)
      else
        var wrong := MutableError(c, spi);
        if wrong.Some? then Refused(c, wrong.value)
        else Done(WithSa(c, spi, Sa(c, spi).(rxWindow := window, lastProcedure := 21)))
  }

  /** Read ARSN and SA Status change nothing. */
  function ReadSa(c: Context, pdu: Pdu, receiving: bool): Outcome {
    if pdu.reply then Refused(c, NotSupported)
    else if |pdu.data| != 2 then Refused(c, Format)
    else
      var spi := Be16(pdu.data, 0);
      var wrong := if receiving then MutableError(c, spi) else if Managed(c, spi) then None else Some(UnknownSa);
      if wrong.Some? then Refused(c, wrong.value) else Done(c)
  }

  // ---- Monitoring ----

  function Monitor(c: Context, pdu: Pdu, store: Store): Outcome {
    if pdu.reply then Refused(c, NotSupported)
    else if pdu.data != [] then Refused(c, Format)
    else if pdu.procedure == 7 then Done(c.(fsr := c.fsr.(alarm := false, badSequence := false, badMac := false, badSa := false)))
    else
      var needed := if pdu.procedure == 1 then 3 else if pdu.procedure == 3 then 3 + store.logLen
                    else if pdu.procedure == 5 then 4 else 7;
      if store.replyCapacity < needed then Refused(c, Capacity)
      else if pdu.procedure == 5 && store.selfTest.Some? then Refused(c, store.selfTest.value)
      else Done(c)
  }

  // ---- ccsds_sdls_ep_process_pdu ----

  function Dispatch(cfg: Config, c: Context, encoded: seq<byte>, pdu: Pdu, store: Store): Outcome {
    if pdu.group == KEY_MANAGEMENT then
      if pdu.procedure == 1 then Otar(cfg, c, encoded, pdu, store)
      else if pdu.procedure == 2 then Lifecycle(cfg, c, pdu, true, store)
      else if pdu.procedure == 3 then Lifecycle(cfg, c, pdu, false, store)
      else if pdu.procedure == 4 then Verification(cfg, c, pdu, store)
      else Inventory(c, pdu, store)
    else if pdu.group == SA_MANAGEMENT then
      if pdu.procedure == 11 then StartSa(cfg, c, pdu, store)
      else if pdu.procedure == 14 then MoveSa(c, pdu, Operational, Stopped)
      else if pdu.procedure == 6 then RekeySa(cfg, c, pdu, store)
      else if pdu.procedure == 9 then MoveSa(c, pdu, Stopped, Expired)
      else if pdu.procedure == 10 then SetArsn(c, pdu)
      else if pdu.procedure == 5 then SetWindow(cfg, c, pdu)
      else ReadSa(c, pdu, pdu.procedure == 0)
    else if pdu.group == MONITORING then Monitor(c, pdu, store)
    else Refused(c, NotSupported)
  }

  function ProcessPdu(cfg: Config, c: Context, encoded: seq<byte>, store: Store): Outcome {
    var pdu := DecodePdu(cfg, encoded);
    var o := if pdu.Fail? then Refused(c, pdu.error) else Dispatch(cfg, c, encoded, pdu.value, store);
    if o.ctx.carrier.dispatching then o else o.(ctx := o.ctx.(carrier := NO_CARRIER))
  }

  // ---- All or nothing ----

  /** Nothing that a command may change has changed, no vector was emitted, and no imported handle is left behind. */
  ghost predicate Untouched(c: Context, o: Outcome) {
    && o.ctx.sas == c.sas && o.ctx.keys == c.keys && o.ctx.txIv == c.txIv && o.ctx.fsr == c.fsr
    && o.effects.ivs == [] && o.effects.destroyed == o.effects.imported
  }

  lemma {:induction false} ImportsSucceed(store: Store, i: nat, n: nat, k: nat)
    requires i <= n && i <= k < ImportCount(store, i, n)
    ensures store.imported(k).Some?
    decreases n - i
  {
    if i < k {
      ImportsSucceed(store, i + 1, n, k);
    }
  }

  /** Before anything is committed, the clean-up loop destroys exactly what was imported, each handle once. */
  lemma {:induction false} CleanUpImported(store: Store, n: nat, count: nat)
    requires count <= ImportCount(store, 0, n)
    ensures CleanUp(Slots(store, ImportCount(store, 0, n), n), count) == Handles(store, count)
  {
    if count > 0 {
      CleanUpImported(store, n, count - 1);
      ImportsSucceed(store, 0, n, count - 1);
      assert Handles(store, count) == Handles(store, count - 1) + [store.imported(count - 1).value];
    }
  }

  /** After the commit loop, it destroys nothing. */
  lemma {:induction false} CleanUpNulled(slots: seq<nat>, n: nat, count: nat)
    requires count <= n <= |slots|
    ensures CleanUp(Nulled(slots, n), count) == []
  {
    if count > 0 {
      CleanUpNulled(slots, n, count - 1);
    }
  }

  lemma OtarInstallUntouched(cfg: Config, c: Context, ids: seq<nat>, store: Store)
    ensures var o := OtarInstall(cfg, c, ids, store); o.error.Some? ==> Untouched(c, o)
  {
    CleanUpImported(store, |ids|, ImportCount(store, 0, |ids|));
  }

  lemma OtarUntouched(cfg: Config, c: Context, encoded: seq<byte>, pdu: Pdu, store: Store)
    ensures Otar(cfg, c, encoded, pdu, store).error.Some? ==> Untouched(c, Otar(cfg, c, encoded, pdu, store))
  {
    if |pdu.data| >= 30 + OTAR_BLOCK && (|pdu.data| - 30) % OTAR_BLOCK == 0 {
      var count, master := (|pdu.data| - 30) / OTAR_BLOCK, Be16(pdu.data, 0);
      if master < |c.keys| {
        var plain := store.decrypt(c.keys[master].handle, encoded);
        if plain.Got? && |plain.value| == OTAR_BLOCK * count {
          OtarInstallUntouched(cfg, c, Destinations(plain.value, count), store);
        }
      }
    }
  }

  lemma LifecycleUntouched(cfg: Config, c: Context, pdu: Pdu, activate: bool, store: Store)
    ensures Lifecycle(cfg, c, pdu, activate, store).error.Some? ==> Untouched(c, Lifecycle(cfg, c, pdu, activate, store))
  {
  }

  lemma VerificationUntouched(cfg: Config, c: Context, pdu: Pdu, store: Store)
    ensures Verification(cfg, c, pdu, store).error.Some? ==> Untouched(c, Verification(cfg, c, pdu, store))
  {
  }

  lemma InventoryUntouched(c: Context, pdu: Pdu, store: Store)
    ensures Inventory(c, pdu, store).error.Some? ==> Untouched(c, Inventory(c, pdu, store))
  {
  }

  lemma StartUntouched(cfg: Config, c: Context, pdu: Pdu, store: Store)
    ensures StartSa(cfg, c, pdu, store).error.Some? ==> Untouched(c, StartSa(cfg, c, pdu, store))
  {
  }

  lemma RekeyUntouched(cfg: Config, c: Context, pdu: Pdu, store: Store)
    ensures RekeySa(cfg, c, pdu, store).error.Some? ==> Untouched(c, RekeySa(cfg, c, pdu, store))
  {
  }

  lemma SetUntouched(cfg: Config, c: Context, pdu: Pdu)
    ensures SetArsn(c, pdu).error.Some? ==> Untouched(c, SetArsn(c, pdu))
    ensures SetWindow(cfg, c, pdu).error.Some? ==> Untouched(c, SetWindow(cfg, c, pdu))
  {
  }

  lemma MoveUntouched(c: Context, pdu: Pdu, from: SaState, next: SaState)
    ensures MoveSa(c, pdu, from, next).error.Some? ==> Untouched(c, MoveSa(c, pdu, from, next))
  {
  }

  lemma ReadUntouched(c: Context, pdu: Pdu, receiving: bool, store: Store)
    ensures ReadSa(c, pdu, receiving).error.Some? ==> Untouched(c, ReadSa(c, pdu, receiving))
    ensures Monitor(c, pdu, store).error.Some? ==> Untouched(c, Monitor(c, pdu, store))
  {
  }

  lemma DispatchUntouched(cfg: Config, c: Context, encoded: seq<byte>, pdu: Pdu, store: Store)
    ensures var o := Dispatch(cfg, c, encoded, pdu, store); o.error.Some? ==> Untouched(c, o)
  {
    if pdu.group == KEY_MANAGEMENT {
      OtarUntouched(cfg, c, encoded, pdu, store);
      LifecycleUntouched(cfg, c, pdu, true, store);
      LifecycleUntouched(cfg, c, pdu, false, store);
      VerificationUntouched(cfg, c, pdu, store);
      InventoryUntouched(c, pdu, store);
    } else if pdu.group == SA_MANAGEMENT {
      StartUntouched(cfg, c, pdu, store);
      MoveUntouched(c, pdu, Operational, Stopped);
      MoveUntouched(c, pdu, Stopped, Expired);
      RekeyUntouched(cfg, c, pdu, store);
      SetUntouched(cfg, c, pdu);
      ReadUntouched(c, pdu, pdu.procedure == 0, store);
    } else {
      ReadUntouched(c, pdu, true, store);
    }
  }

  lemma CarrierUntouched(c: Context, o: Outcome)
    requires o.error.Some? ==> Untouched(c, o)
    ensures var r := if o.ctx.carrier.dispatching then o else o.(ctx := o.ctx.(carrier := NO_CARRIER));
            r.error.Some? ==> Untouched(c, r)
  {
  }

  /** For every byte string: a command that fails leaves associations, keys, the vector counter and the report as they were. */
  lemma FailedCommandUntouched(cfg: Config, c: Context, encoded: seq<byte>, store: Store)
    ensures var o := ProcessPdu(cfg, c, encoded, store); o.error.Some? ==> Untouched(c, o)
  {
    var pdu := DecodePdu(cfg, encoded);
    if pdu.Got? {
      DispatchUntouched(cfg, c, encoded, pdu.value, store);
      CarrierUntouched(c, Dispatch(cfg, c, encoded, pdu.value, store));
    }
  }

  lemma {:induction false} NoError(check: nat -> Option<Error>, i: nat, n: nat, k: nat)
    requires i <= k < n && FirstError(check, i, n).None?
    ensures check(k).None?
    decreases n - i
  {
    if i < k {
      NoError(check, i + 1, n, k);
    }
  }

  predicate Distinct(ids: seq<nat>) { forall i, j :: 0 <= i < j < |ids| ==> ids[i] != ids[j] }

  lemma SeenOnce(ids: seq<nat>)
    requires forall i :: 0 <= i < |ids| ==> ids[i] !in ids[..i]
    ensures Distinct(ids)
  {
  }

  lemma {:induction false} InstallAll(keys: seq<Key>, ids: seq<nat>, hs: seq<nat>, n: nat)
    requires n <= |ids| == |hs| && Distinct(ids) && forall i :: 0 <= i < |ids| ==> ids[i] < |keys|
    ensures forall i :: 0 <= i < n ==> Install(keys, ids, hs, n)[ids[i]] == Key(hs[i], 0, Preactive)
    ensures forall k :: 0 <= k < |keys| && k !in ids[..n] ==> Install(keys, ids, hs, n)[k] == keys[k]
  {
    if n > 0 {
      InstallAll(keys, ids, hs, n - 1);
      assert ids[..n] == ids[..n - 1] + [ids[n - 1]];
    }
  }

  /** A successful OTAR replaces every destination by its imported key, not yet active, and touches no other slot. */
  lemma OtarAllOrNone(cfg: Config, c: Context, ids: seq<nat>, store: Store)
    ensures var o := OtarInstall(cfg, c, ids, store);
            if o.error.Some? then Untouched(c, o)
            else
              && |o.effects.imported| == |ids| && Distinct(ids) && |o.ctx.keys| == |c.keys|
              && (forall i :: 0 <= i < |ids| ==>
                    SessionKey(cfg, c, ids[i]) && o.ctx.keys[ids[i]] == Key(o.effects.imported[i], 0, Preactive))
              && (forall k :: 0 <= k < |c.keys| && k !in ids ==> o.ctx.keys[k] == c.keys[k])
              && o.ctx == c.(keys := o.ctx.keys)
              && o.effects.destroyed == Replaced(store, c.keys, ids, |ids|)
  {
    OtarInstallUntouched(cfg, c, ids, store);
    var o := OtarInstall(cfg, c, ids, store);
    if o.error.None? {
      forall i | 0 <= i < |ids| ensures SessionKey(cfg, c, ids[i]) && ids[i] !in ids[..i] {
        NoError(CheckAt(cfg, c, ids), 0, |ids|, i);
      }
      SeenOnce(ids);
      var slots := Slots(store, |ids|, |ids|);
      assert slots == o.effects.imported;
      InstallAll(c.keys, ids, slots, |ids|);
      assert ids[..|ids|] == ids;
      CleanUpNulled(slots, |ids|, |ids|);
    }
  }

  /** No two key slots hold the same handle, and the store's new handles are unlike each other and unlike those held. */
  ghost predicate FreshHandles(keys: seq<Key>, store: Store) {
    && (forall j, k :: 0 <= j < k < |keys| && keys[j].handle != 0 ==> keys[j].handle != keys[k].handle)
    && (forall i: nat, k :: 0 <= k < |keys| && store.imported(i).Some? ==> store.imported(i).value != keys[k].handle)
    && (forall i: nat, j: nat :: i < j && store.imported(i).Some? && store.imported(j).Some? ==>
                                   store.imported(i).value != store.imported(j).value)
  }

  lemma {:induction false} ReplacedHeld(store: Store, keys: seq<Key>, ids: seq<nat>, n: nat, h: nat)
    requires n <= |ids| && h in Replaced(store, keys, ids, n)
    ensures h != 0 && exists i :: 0 <= i < n && ids[i] < |keys| && keys[ids[i]].handle == h
  {
    if h in Replaced(store, keys, ids, n - 1) {
      ReplacedHeld(store, keys, ids, n - 1, h);
    }
  }

  /** The keys `now` differ from `was` in the slots `ids`, which hold the handles imported. */
  ghost predicate Installed(was: seq<Key>, now: seq<Key>, ids: seq<nat>, imported: seq<nat>) {
    && |now| == |was| && |imported| == |ids| && Distinct(ids)
    && (forall i :: 0 <= i < |ids| ==> ids[i] < |was| && now[ids[i]].handle == imported[i])
    && (forall k :: 0 <= k < |was| && k !in ids ==> now[k] == was[k])
  }

  lemma InstalledDistinct(was: seq<Key>, now: seq<Key>, ids: seq<nat>, imported: seq<nat>, store: Store)
    requires FreshHandles(was, store) && Installed(was, now, ids, imported)
    requires forall i :: 0 <= i < |ids| ==> store.imported(i) == Some(imported[i])
    ensures forall j, k :: 0 <= j < k < |now| && now[j].handle != 0 ==> now[j].handle != now[k].handle
  {
  }

  /** A handle held before by one of the slots is not held any more. */
  lemma ReplacedGone(was: seq<Key>, now: seq<Key>, ids: seq<nat>, imported: seq<nat>, store: Store, i: nat)
    requires FreshHandles(was, store) && Installed(was, now, ids, imported) && i < |ids| && was[ids[i]].handle != 0
    requires forall i :: 0 <= i < |ids| ==> store.imported(i) == Some(imported[i])
    ensures forall k :: 0 <= k < |now| ==> now[k].handle != was[ids[i]].handle
    ensures forall k :: 0 <= k < |imported| ==> imported[k] != was[ids[i]].handle
  {
  }

  /**
    After a successful OTAR every handle in the key table is live: none that it holds, old or
    newly installed, was destroyed, and what was destroyed was held before by a destination.
   */
  lemma OtarHandlesLive(cfg: Config, c: Context, ids: seq<nat>, store: Store)
    requires FreshHandles(c.keys, store) && OtarInstall(cfg, c, ids, store).error.None?
    ensures var o := OtarInstall(cfg, c, ids, store);
            && (forall k :: 0 <= k < |o.ctx.keys| ==> o.ctx.keys[k].handle !in o.effects.destroyed)
            && (forall i :: 0 <= i < |o.effects.imported| ==> o.effects.imported[i] !in o.effects.destroyed)
            && (forall h :: h in o.effects.destroyed ==>
                  exists i :: 0 <= i < |ids| && ids[i] < |c.keys| && c.keys[ids[i]].handle == h)
            && (forall j, k :: 0 <= j < k < |o.ctx.keys| && o.ctx.keys[j].handle != 0 ==>
                  o.ctx.keys[j].handle != o.ctx.keys[k].handle)
  {
    OtarAllOrNone(cfg, c, ids, store);
    var o := OtarInstall(cfg, c, ids, store);
    var n, now, imported := |ids|, o.ctx.keys, o.effects.imported;
    forall i | 0 <= i < n ensures store.imported(i) == Some(imported[i]) {
      ImportsSucceed(store, 0, n, i);
    }
    assert Installed(c.keys, now, ids, imported);
    InstalledDistinct(c.keys, now, ids, imported, store);
    forall h | h in o.effects.destroyed
      ensures exists i :: 0 <= i < n && ids[i] < |c.keys| && c.keys[ids[i]].handle == h
      ensures forall k :: 0 <= k < |now| ==> now[k].handle != h
      ensures h !in imported
    {
      ReplacedHeld(store, c.keys, ids, n, h);
      var i :| 0 <= i < n && ids[i] < |c.keys| && c.keys[ids[i]].handle == h;
      ReplacedGone(c.keys, now, ids, imported, store, i);
    }
  }

  lemma {:induction false} SetAll(keys: seq<Key>, ids: seq<nat>, state: KeyState, n: nat)
    requires n <= |ids| && forall i :: 0 <= i < |ids| ==> ids[i] < |keys|
    ensures forall k :: 0 <= k < |keys| ==>
                          SetStates(keys, ids, state, n)[k] == if k in ids[..n] then keys[k].(state := state) else keys[k]
  {
    if n > 0 {
      SetAll(keys, ids, state, n - 1);
      assert ids[..n] == ids[..n - 1] + [ids[n - 1]];
    }
  }

  /** Activation and deactivation move every recipient, or none. */
  lemma LifecycleAllOrNone(cfg: Config, c: Context, ids: seq<nat>, activate: bool, store: Store)
    ensures var o := Transition(cfg, c, ids, activate, store);
            if o.error.Some? then o.ctx == c
            else
              && |o.ctx.keys| == |c.keys| && o.ctx == c.(keys := o.ctx.keys)
              && (forall i :: 0 <= i < |ids| ==> Recipient(cfg, c, ids, i)
                                                 && (if activate then c.keys[ids[i]].state.Preactive? else !c.keys[ids[i]].state.Deactivated?))
              && (forall k :: 0 <= k < |c.keys| ==>
                    o.ctx.keys[k] == if k in ids then c.keys[k].(state := if activate then Active else Deactivated) else c.keys[k])
  {
    var o := Transition(cfg, c, ids, activate, store);
    if o.error.None? {
      forall i | 0 <= i < |ids|
        ensures Recipient(cfg, c, ids, i)
        ensures if activate then c.keys[ids[i]].state.Preactive? else !c.keys[ids[i]].state.Deactivated?
      {
        NoError(LifecycleCheck(cfg, c, ids, activate, store), 0, |ids|, i);
      }
      SetAll(c.keys, ids, if activate then Active else Deactivated, |ids|);
      assert ids[..|ids|] == ids;
    }
  }
}
