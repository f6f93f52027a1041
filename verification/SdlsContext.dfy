/** The security context as the program holds it: tables of associations and keys changed in place by loops. */
module SdlsContext {
  import opened CfdpTypes
  import opened Sdls
  import opened SdlsEp

  class Security {
    const cfg: Config
    const sas: array<Association>
    const keys: array<Key>
    var txIv: nat
    var fsr: Report
    var carrier: Carrier

    function Value(): Context
      reads this, sas, keys
    {
      Context(sas[..], keys[..], txIv, fsr, carrier)
    }

    constructor (cfg: Config, maxSa: nat, maxKeys: nat, seed: nat, sa: Association, key: Key)
      ensures this.cfg == cfg && fresh(sas) && fresh(keys) && sas.Length == maxSa && keys.Length == maxKeys
      ensures txIv == seed && carrier == NO_CARRIER
      ensures (forall i :: 0 <= i < maxSa ==> sas[i] == sa) && (forall i :: 0 <= i < maxKeys ==> keys[i] == key)
    {
      this.cfg := cfg;
      sas := new Association[maxSa](_ => sa);
      keys := new Key[maxKeys](_ => key);
      txIv, fsr, carrier := seed, Report(0, 0, false, false, false, false), NO_CARRIER;
    }

    /** ccsds_sdls_apply_security. */
    method Protect(expected: Role, spi: nat, encrypts: bool) returns (r: Answer<Error, Iv>)
      requires Configured(Value(), spi)
      modifies this`txIv, keys
      ensures (Value(), r) == ApplySecurity(old(Value()), expected, spi, encrypts)
    {
      var slot := OperationalKey(Value(), spi, expected, true);
      if slot.Fail? {
        return Fail(slot.error);
      }
      if slot.value >= keys.Length {
        return Fail(WrongKey);
      }
      var key := keys[slot.value];
      var iv := Iv(txIv, key.txArsn);
      keys[slot.value] := key.(txArsn := (key.txArsn + 1) % U32);
      txIv := NextIv(txIv);
      return if encrypts then Got(iv) else Fail(Psa);
    }

    /** ccsds_sdls_process_security. */
    method Unprotect(expected: Role, frame: seq<byte>, decryption: Decryption) returns (r: Answer<Error, nat>)
      modifies this`fsr, this`carrier, sas
      ensures (Value(), r) == ProcessSecurity(old(Value()), expected, frame, decryption)
    {
      carrier := NO_CARRIER;
      if |frame| < PROTECTED_OVERHEAD {
        return Fail(Format);
      }
      var spi, arsn := SpiOf(frame), ArsnOf(frame);
      if spi == 0 || spi == 0xffff {
        return Fail(Format);
      }
      if !Configured(Value(), spi) {
        Note(UnknownSa, spi);
        return Fail(UnknownSa);
      }
      var slot := OperationalKey(Value(), spi, expected, false);
      if slot.Fail? {
        Note(slot.error, spi);
        return Fail(slot.error);
      }
      if !Fresh(sas[spi - 1], arsn) {
        Note(Replay, spi);
        return Fail(Replay);
      }
      if decryption.BadSignature? {
        Note(Authentication, spi);
        return Fail(Authentication);
      }
      if decryption.DecryptionFailed? {
        return Fail(Psa);
      }
      sas[spi - 1] := sas[spi - 1].(rxArsn := arsn, initialized := true);
      carrier := Carrier(true, spi, arsn, false);
      fsr := fsr.(badSequence := false, badMac := false, badSa := false, lastSpi := spi, lastArsn := arsn % 256);
      return Got(arsn);
    }

    method Note(e: Error, spi: nat)
      modifies this`fsr
      ensures Value() == ReportFailure(old(Value()), e, spi)
    {
      if Monitored(e) {
        fsr := fsr.(alarm := true, lastSpi := spi, badSequence := fsr.badSequence || e.Replay?,
                    badMac := fsr.badMac || e.Authentication?,
                    badSa := fsr.badSa || e.UnknownSa? || e.WrongSaState? || e.WrongKey? || e.WrongKeyState?);
      }
    }

    // ---- OTAR ----

    /** The destination loop, with its table of identifiers seen. */
    method CheckDestinations(ids: seq<nat>) returns (wrong: Option<Error>)
      ensures wrong == FirstError(CheckAt(cfg, Value(), ids), 0, |ids|)
    {
      var seen := new bool[keys.Length](_ => false);
      var i := 0;
      while i < |ids|
        invariant i <= |ids|
        invariant FirstError(CheckAt(cfg, Value(), ids), 0, |ids|) == FirstError(CheckAt(cfg, Value(), ids), i, |ids|)
        invariant forall k :: 0 <= k < keys.Length ==> (seen[k] <==> k in ids[..i])
      {
        var id := ids[i];
        assert CheckAt(cfg, Value(), ids)(i) == DestinationError(cfg, Value(), ids, i);
        if id < cfg.sessionBase || id >= keys.Length {
          return Some(WrongKey);
        }
        if seen[id] {
          return Some(Format);
        }
        if keys[id].handle != 0 && keys[id].state.Active? {
          return Some(WrongKeyState);
        }
        seen[id] := true;
        assert ids[..i + 1] == ids[..i] + [id];
        i := i + 1;
      }
      return None;
    }

    /** The import loop: fills the array until the store refuses a key. */
    method ImportKeys(imported: array<nat>, store: Store) returns (count: nat)
      requires forall i :: 0 <= i < imported.Length ==> imported[i] == 0
      modifies imported
      ensures count == ImportCount(store, 0, imported.Length)
      ensures imported[..] == Slots(store, count, imported.Length)
    {
      count := 0;
      while count < imported.Length && store.imported(count).Some?
        invariant count <= imported.Length
        invariant ImportCount(store, 0, imported.Length) == ImportCount(store, count, imported.Length)
        invariant imported[..] == Slots(store, count, imported.Length)
      {
        imported[count] := store.imported(count).value;
        count := count + 1;
      }
    }

    /** The commit loop: each new handle goes from the array to its slot, and the handle it replaces to another array. */
    method InstallKeys(ids: seq<nat>, imported: array<nat>, replaced: array<nat>)
      requires imported.Length == replaced.Length == |ids| && imported != replaced
      requires Distinct(ids) && forall i :: 0 <= i < |ids| ==> ids[i] < keys.Length
      modifies keys, imported, replaced
      ensures keys[..] == Install(old(keys[..]), ids, old(imported[..]), |ids|)
      ensures imported[..] == Nulled(old(imported[..]), |ids|)
      ensures forall i :: 0 <= i < |ids| ==> replaced[i] == old(keys[ids[i]]).handle
    {
      ghost var slots, before := imported[..], keys[..];
      for i := 0 to |ids|
        invariant keys[..] == Install(before, ids, slots, i)
        invariant forall j :: 0 <= j < |ids| ==> imported[j] == if j < i then 0 else slots[j]
        invariant forall j :: 0 <= j < i ==> replaced[j] == old(keys[ids[j]]).handle
        invariant forall k :: 0 <= k < keys.Length && k !in ids[..i] ==> keys[k] == old(keys[k])
      {
        var id := ids[i];
        assert id !in ids[..i];
        replaced[i] := keys[id].handle;
        keys[id] := Key(imported[i], 0, Preactive);
        imported[i] := 0;
        assert ids[..i + 1] == ids[..i] + [id];
      }
    }

    /** The handles replaced that the store keeps in memory only are destroyed. */
    method DestroyReplaced(ghost before: seq<Key>, ids: seq<nat>, replaced: array<nat>, store: Store) returns (destroyed: seq<nat>)
      requires replaced.Length == |ids|
      requires forall i :: 0 <= i < |ids| ==> ids[i] < |before| && replaced[i] == before[ids[i]].handle
      modifies replaced
      ensures destroyed == Replaced(store, before, ids, |ids|)
    {
      destroyed := [];
      for i := 0 to |ids|
        invariant destroyed == Replaced(store, before, ids, i)
        invariant forall j :: i <= j < |ids| ==> replaced[j] == before[ids[j]].handle
      {
        if replaced[i] != 0 {
          if store.volatileKey(replaced[i]) {
            destroyed := destroyed + [replaced[i]];
          }
          replaced[i] := 0;
        }
      }
    }

    /** The loop at the end, on success and on failure: what is still in the array is destroyed. */
    method DestroyImported(imported: array<nat>, count: nat) returns (destroyed: seq<nat>)
      requires count <= imported.Length
      ensures destroyed == CleanUp(imported[..], count)
    {
      destroyed := [];
      for i := 0 to count
        invariant destroyed == CleanUp(imported[..], i)
      {
        if imported[i] != 0 {
          destroyed := destroyed + [imported[i]];
        }
      }
    }

    /** The part of ccsds_sdls_ep_process_otar after decryption. */
    method ReplaceKeys(ids: seq<nat>, store: Store) returns (error: Option<Error>, effects: Effects)
      modifies keys
      ensures Outcome(Value(), error, effects) == OtarInstall(cfg, old(Value()), ids, store)
    {
      OtarAllOrNone(cfg, Value(), ids, store);
      var imported, replaced := new nat[|ids|](_ => 0), new nat[|ids|](_ => 0);
      var count, destroyed := 0, [];
      error := CheckDestinations(ids);
      if error.None? {
        count := ImportKeys(imported, store);
        if count < |ids| {
          error := Some(Psa);
        } else {
          InstallKeys(ids, imported, replaced);
          destroyed := DestroyReplaced(old(keys[..]), ids, replaced, store);
        }
      }
      var cleaned := DestroyImported(imported, count);
      return error, Effects(Handles(store, count), destroyed + cleaned, []);
    }

    // ---- Key life cycle ----

    method CheckRecipients(ids: seq<nat>, activate: bool, store: Store) returns (wrong: Option<Error>)
      ensures wrong == FirstError(LifecycleCheck(cfg, Value(), ids, activate, store), 0, |ids|)
    {
      var seen := new bool[keys.Length](_ => false);
      var i := 0;
      while i < |ids|
        invariant i <= |ids|
        invariant FirstError(LifecycleCheck(cfg, Value(), ids, activate, store), 0, |ids|)
               == FirstError(LifecycleCheck(cfg, Value(), ids, activate, store), i, |ids|)
        invariant forall k :: 0 <= k < keys.Length ==> (seen[k] <==> k in ids[..i])
      {
        var id := ids[i];
        assert LifecycleCheck(cfg, Value(), ids, activate, store)(i) == LifecycleError(cfg, Value(), ids, activate, store, i);
        if id < cfg.sessionBase || id >= keys.Length || seen[id] || keys[id].handle == 0 {
          return Some(WrongKey);
        }
        seen[id] := true;
        if (if activate then !keys[id].state.Preactive? else keys[id].state.Deactivated?) {
          return Some(WrongKeyState);
        }
        wrong := store.validate(keys[id].handle, Both);
        if wrong.Some? {
          return;
        }
        assert ids[..i + 1] == ids[..i] + [id];
        i := i + 1;
      }
      return None;
    }

    /** process_lifecycle after decoding: every recipient is checked before any is moved. */
    method MoveKeys(ids: seq<nat>, activate: bool, store: Store) returns (error: Option<Error>)
      modifies keys
      ensures Outcome(Value(), error, NOTHING) == Transition(cfg, old(Value()), ids, activate, store)
    {
      LifecycleAllOrNone(cfg, Value(), ids, activate, store);
      error := CheckRecipients(ids, activate, store);
      if error.Some? {
        return;
      }
      for i := 0 to |ids|
        invariant keys[..] == SetStates(old(keys[..]), ids, if activate then Active else Deactivated, i)
      {
        keys[ids[i]] := keys[ids[i]].(state := if activate then Active else Deactivated);
      }
    }

    /** ccsds_sdls_ep_process_otar. */
    method ProcessOtar(encoded: seq<byte>, pdu: Pdu, store: Store) returns (error: Option<Error>, effects: Effects)
      modifies keys
      ensures Outcome(Value(), error, effects) == Otar(cfg, old(Value()), encoded, pdu, store)
    {
      effects := NOTHING;
      if pdu.reply {
        return Some(NotSupported), effects;
      }
      if |pdu.data| < 30 + OTAR_BLOCK || (|pdu.data| - 30) % OTAR_BLOCK != 0 {
        return Some(Format), effects;
      }
      var count, master := (|pdu.data| - 30) / OTAR_BLOCK, Be16(pdu.data, 0);
      if count > NonNegative(keys.Length - cfg.sessionBase) {
        return Some(Capacity), effects;
      }
      if master >= cfg.sessionBase || master >= keys.Length || keys[master].handle == 0 || !keys[master].state.Active? {
        return Some(WrongKey), effects;
      }
      error := store.validate(keys[master].handle, Decrypt);
      if error.Some? {
        return;
      }
      var plain := store.decrypt(keys[master].handle, encoded);
      if plain.Fail? {
        return Some(plain.error), effects;
      }
      if |plain.value| != OTAR_BLOCK * count {
        return Some(Psa), effects;
      }
      error, effects := ReplaceKeys(Destinations(plain.value, count), store);
    }

    method ProcessLifecycle(pdu: Pdu, activate: bool, store: Store) returns (error: Option<Error>)
      modifies keys
      ensures Outcome(Value(), error, NOTHING) == Lifecycle(cfg, old(Value()), pdu, activate, store)
    {
      if pdu.reply {
        return Some(NotSupported);
      }
      if |pdu.data| == 0 || |pdu.data| % 2 == 1 {
        return Some(Format);
      }
      var n := |pdu.data| / 2;
      if n > keys.Length {
        return Some(Capacity);
      }
      error := MoveKeys(KeyIds(pdu.data, 2, n), activate, store);
    }

    // ---- Key verification ----

    method CheckChallenged(ids: seq<nat>, store: Store) returns (wrong: Option<Error>)
      ensures wrong == FirstError(VerifyCheck(cfg, Value(), ids, store), 0, |ids|)
    {
      var seen := new bool[keys.Length](_ => false);
      var i := 0;
      while i < |ids|
        invariant i <= |ids|
        invariant FirstError(VerifyCheck(cfg, Value(), ids, store), 0, |ids|)
               == FirstError(VerifyCheck(cfg, Value(), ids, store), i, |ids|)
        invariant forall k :: 0 <= k < keys.Length ==> (seen[k] <==> k in ids[..i])
      {
        var id := ids[i];
        assert VerifyCheck(cfg, Value(), ids, store)(i) == VerifyError(cfg, Value(), ids, store, i);
        if id < cfg.sessionBase || id >= keys.Length || seen[id] || keys[id].handle == 0 {
          return Some(WrongKey);
        }
        seen[id] := true;
        if keys[id].state.Deactivated? {
          return Some(WrongKeyState);
        }
        wrong := store.validate(keys[id].handle, Encrypt);
        if wrong.Some? {
          return;
        }
        assert ids[..i + 1] == ids[..i] + [id];
        i := i + 1;
      }
      return None;
    }

    /** The encryption loop: vectors are drawn from a local copy of the counter. */
    method EncryptChallenges(ids: seq<nat>, store: Store) returns (ok: bool, ivs: seq<Iv>, next: nat)
      ensures ok <==> FirstError(EncryptCheck(store), 0, |ids|).None?
      ensures ok ==> ivs == VerifyIvs(Value(), ids, |ids|) && next == Advance(txIv, |ids|)
    {
      ivs, next := [], txIv;
      for i := 0 to |ids|
        invariant FirstError(EncryptCheck(store), 0, |ids|) == FirstError(EncryptCheck(store), i, |ids|)
        invariant ivs == VerifyIvs(Value(), ids, i) && next == Advance(txIv, i)
      {
        ivs := ivs + [Iv(next, if ids[i] < keys.Length then keys[ids[i]].txArsn else 0)];
        next := NextIv(next);
        if !store.encrypts(i) {
          assert EncryptCheck(store)(i) == Some(Psa);
          return false, ivs, next;
        }
        assert EncryptCheck(store)(i) == None;
      }
      return true, ivs, next;
    }

    /** ccsds_sdls_ep_process_key_verification after decoding. */
    method AnswerChallenges(ids: seq<nat>, store: Store) returns (error: Option<Error>, effects: Effects)
      modifies this`txIv, keys
      ensures Outcome(Value(), error, effects) == Challenge(cfg, old(Value()), ids, store)
    {
      effects := NOTHING;
      error := CheckChallenged(ids, store);
      if error.Some? {
        return;
      }
      var ok, ivs, next := EncryptChallenges(ids, store);
      if !ok {
        return Some(Psa), effects;
      }
      for i := 0 to |ids|
        invariant keys[..] == SpendArsns(old(keys[..]), ids, i) && txIv == old(txIv)
      {
        if ids[i] < keys.Length {
          keys[ids[i]] := keys[ids[i]].(txArsn := (keys[ids[i]].txArsn + 1) % U32);
        }
      }
      txIv := next;
      return None, Effects([], [], ivs);
    }

    method ProcessVerification(pdu: Pdu, store: Store) returns (error: Option<Error>, effects: Effects)
      modifies this`txIv, keys
      ensures Outcome(Value(), error, effects) == Verification(cfg, old(Value()), pdu, store)
    {
      effects := NOTHING;
      if pdu.reply {
        return Some(NotSupported), effects;
      }
      if |pdu.data| == 0 || |pdu.data| % VERIFY_ENTRY != 0 {
        return Some(Format), effects;
      }
      var n := |pdu.data| / VERIFY_ENTRY;
      if n > keys.Length {
        return Some(Capacity), effects;
      }
      error, effects := AnswerChallenges(KeyIds(pdu.data, VERIFY_ENTRY, n), store);
    }

    // ---- Security associations ----

    method ProcessSetArsn(pdu: Pdu) returns (error: Option<Error>)
      modifies sas
      ensures Outcome(Value(), error, NOTHING) == SetArsn(old(Value()), pdu)
    {
      if pdu.reply {
        return Some(NotSupported);
      }
      if |pdu.data| != 6 {
        return Some(Format);
      }
      var spi, arsn := Be16(pdu.data, 0), Be32(pdu.data, 2);
      error := MutableError(Value(), spi);
      if error.Some? {
        return;
      }
      if sas[spi - 1].initialized && arsn < sas[spi - 1].rxArsn {
        return Some(Replay);
      }
      sas[spi - 1] := sas[spi - 1].(rxArsn := arsn, initialized := true, lastProcedure := 26);
    }

    method ProcessSetWindow(pdu: Pdu) returns (error: Option<Error>)
      modifies sas
      ensures Outcome(Value(), error, NOTHING) == SetWindow(cfg, old(Value()), pdu)
    {
      if pdu.reply {
        return Some(NotSupported);
      }
      if |pdu.data| != 6 {
        return Some(Format);
      }
      var spi, window := Be16(pdu.data, 0), Be32(pdu.data, 2);
      if window == 0 || window > cfg.arsnWindow {
        return Some(Capacity);
      }
      error := MutableError(Value(), spi);
      if error.None? {
        sas[spi - 1] := sas[spi - 1].(rxWindow := window, lastProcedure := 21);
      }
    }

    /** The loop of validate_sa_key over the associations that share the key. */
    method CheckSharing(spi: nat, keyId: nat) returns (wrong: Option<Error>)
      requires 0 < spi <= sas.Length
      ensures wrong == FirstError(SharingCheck(Value(), spi, keyId), 0, sas.Length)
    {
      for i := 0 to sas.Length
        invariant FirstError(SharingCheck(Value(), spi, keyId), 0, sas.Length)
               == FirstError(SharingCheck(Value(), spi, keyId), i, sas.Length)
      {
        var other, mine := sas[i], sas[spi - 1];
        var clash := i != spi - 1 && other.configured && other.keySlot == keyId
                     && (IsTx(other.role) != IsTx(mine.role) || other.mode != mine.mode);
        assert SharingCheck(Value(), spi, keyId)(i) == if clash then Some(WrongKey) else None;
        if clash {
          return Some(WrongKey);
        }
      }
      return None;
    }

    method CheckSaKey(spi: nat, keyId: nat, sessionOnly: bool, store: Store) returns (wrong: Option<Error>)
      requires 0 < spi <= sas.Length
      ensures wrong == SaKeyError(cfg, Value(), spi, keyId, sessionOnly, store)
    {
      if keyId == 0 || keyId >= keys.Length || (sessionOnly && keyId < cfg.sessionBase) || keys[keyId].handle == 0 {
        return Some(WrongKey);
      }
      if !keys[keyId].state.Active? {
        return Some(WrongKeyState);
      }
      wrong := store.validate(keys[keyId].handle, if IsTx(sas[spi - 1].role) then Encrypt else Decrypt);
      if wrong.None? {
        wrong := CheckSharing(spi, keyId);
      }
    }

    method ProcessStart(pdu: Pdu, store: Store) returns (error: Option<Error>)
      modifies sas
      ensures Outcome(Value(), error, NOTHING) == StartSa(cfg, old(Value()), pdu, store)
    {
      if pdu.reply {
        return Some(NotSupported);
      }
      if |pdu.data| < 2 || (|pdu.data| - 2) % 4 != 0 {
        return Some(Format);
      }
      if (|pdu.data| - 2) / 4 > sas.Length {
        return Some(Capacity);
      }
      var spi := Be16(pdu.data, 0);
      if !Managed(Value(), spi) {
        return Some(UnknownSa);
      }
      if !sas[spi - 1].state.Stopped? {
        return Some(WrongSaState);
      }
      if sas[spi - 1].mode.Clear? {
        if !carrier.valid || carrier.spi == spi {
          return Some(Authentication);
        }
      } else {
        error := CheckSaKey(spi, sas[spi - 1].keySlot, false, store);
        if error.Some? {
          return;
        }
      }
      sas[spi - 1] := sas[spi - 1].(state := Operational, lastProcedure := 27);
      return None;
    }

    method ProcessMove(pdu: Pdu, from: SaState, next: SaState) returns (error: Option<Error>)
      modifies sas
      ensures Outcome(Value(), error, NOTHING) == MoveSa(old(Value()), pdu, from, next)
    {
      if pdu.reply {
        return Some(NotSupported);
      }
      if |pdu.data| != 2 {
        return Some(Format);
      }
      var spi := Be16(pdu.data, 0);
      if !Managed(Value(), spi) {
        return Some(UnknownSa);
      }
      if sas[spi - 1].state != from {
        return Some(WrongSaState);
      }
      sas[spi - 1] := sas[spi - 1].(state := next, lastProcedure := 16 + pdu.procedure);
      return None;
    }

    method ProcessRekey(pdu: Pdu, store: Store) returns (error: Option<Error>)
      modifies sas
      ensures Outcome(Value(), error, NOTHING) == RekeySa(cfg, old(Value()), pdu, store)
    {
      if pdu.reply {
        return Some(NotSupported);
      }
      if |pdu.data| != 4 && |pdu.data| != 8 {
        return Some(Format);
      }
      var spi, keyId := Be16(pdu.data, 0), Be16(pdu.data, 2);
      if !Managed(Value(), spi) {
        return Some(UnknownSa);
      }
      if !sas[spi - 1].state.Expired? || sas[spi - 1].mode.Clear? {
        return Some(WrongSaState);
      }
      if IsTx(sas[spi - 1].role) == (|pdu.data| == 8) {
        return Some(Format);
      }
      error := CheckSaKey(spi, keyId, true, store);
      if error.Some? {
        return;
      }
      var sa := sas[spi - 1].(keySlot := keyId, state := Stopped, lastProcedure := 22);
      sas[spi - 1] := if |pdu.data| == 8 then sa.(rxArsn := Be32(pdu.data, 4), initialized := true) else sa;
    }

    // ---- ccsds_sdls_ep_process_pdu ----

    method Run(encoded: seq<byte>, pdu: Pdu, store: Store) returns (error: Option<Error>, effects: Effects)
      modifies this`txIv, this`fsr, sas, keys
      ensures Outcome(Value(), error, effects) == Dispatch(cfg, old(Value()), encoded, pdu, store)
    {
      effects := NOTHING;
      if pdu.group == KEY_MANAGEMENT {
        if pdu.procedure == 1 {
          error, effects := ProcessOtar(encoded, pdu, store);
        } else if pdu.procedure == 2 || pdu.procedure == 3 {
          error := ProcessLifecycle(pdu, pdu.procedure == 2, store);
        } else if pdu.procedure == 4 {
          error, effects := ProcessVerification(pdu, store);
        } else {
          error := Inventory(Value(), pdu, store).error;
        }
      } else if pdu.group == SA_MANAGEMENT {
        error := RunSa(pdu, store);
      } else if pdu.group == MONITORING {
        error := Monitor(Value(), pdu, store).error;
        if error.None? && pdu.procedure == 7 {
          fsr := fsr.(alarm := false, badSequence := false, badMac := false, badSa := false);
        }
      } else {
        error := Some(NotSupported);
      }
    }

    method RunSa(pdu: Pdu, store: Store) returns (error: Option<Error>)
      requires pdu.group == SA_MANAGEMENT
      modifies sas
      ensures Outcome(Value(), error, NOTHING) == Dispatch(cfg, old(Value()), [], pdu, store)
    {
      if pdu.procedure == 11 {
        error := ProcessStart(pdu, store);
      } else if pdu.procedure == 14 {
        error := ProcessMove(pdu, Operational, Stopped);
      } else if pdu.procedure == 6 {
        error := ProcessRekey(pdu, store);
      } else if pdu.procedure == 9 {
        error := ProcessMove(pdu, Stopped, Expired);
      } else if pdu.procedure == 10 {
        error := ProcessSetArsn(pdu);
      } else if pdu.procedure == 5 {
        error := ProcessSetWindow(pdu);
      } else {
        error := ReadSa(Value(), pdu, pdu.procedure == 0).error;
      }
    }

    /** One command: what it did, and the carrier forgotten unless a dispatch is still under way. */
    method Execute(encoded: seq<byte>, store: Store) returns (error: Option<Error>, effects: Effects)
      modifies this, sas, keys
      ensures Outcome(Value(), error, effects) == ProcessPdu(cfg, old(Value()), encoded, store)
      ensures error.Some? ==> sas[..] == old(sas[..]) && keys[..] == old(keys[..]) && txIv == old(txIv) && fsr == old(fsr)
      ensures error.Some? ==> effects.ivs == [] && effects.destroyed == effects.imported
    {
      FailedCommandUntouched(cfg, Value(), encoded, store);
      var pdu := DecodePdu(cfg, encoded);
      if pdu.Fail? {
        error, effects := Some(pdu.error), NOTHING;
      } else {
        error, effects := Run(encoded, pdu.value, store);
      }
      if !carrier.dispatching {
        carrier := NO_CARRIER;
      }
    }
  }
}
