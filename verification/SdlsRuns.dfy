/** Properties of every run of one security context: vectors never repeat, and nothing is replayed. */
module SdlsRuns {
  import opened CfdpTypes
  import opened Sdls
  import opened SdlsEp

  datatype Event =
    | Transmit(role: Role, spi: nat, encrypts: bool)
    | Receive(role: Role, frame: seq<byte>, decryption: Decryption)
    | Command(encoded: seq<byte>, store: Store)

  /** A transmission names a configured association. */
  function Sending(c: Context, e: Event): (Context, Answer<Error, Iv>)
    requires e.Transmit?
  {
    if Configured(c, e.spi) then ApplySecurity(c, e.role, e.spi, e.encrypts) else (c, Fail(UnknownSa))
  }

  function Next(cfg: Config, c: Context, e: Event): Context {
    match e
    case Transmit(_, _, _) => Sending(c, e).0
    case Receive(role, frame, decryption) => ProcessSecurity(c, role, frame, decryption).0
    case Command(encoded, store) => ProcessPdu(cfg, c, encoded, store).ctx
  }

  /** The vectors an event puts into an emitted frame or reply. */
  function Emitted(cfg: Config, c: Context, e: Event): seq<Iv> {
    match e
    case Transmit(_, _, _) => if Sending(c, e).1.Got? then [Sending(c, e).1.value] else []
    case Receive(_, _, _) => []
    case Command(encoded, store) => ProcessPdu(cfg, c, encoded, store).effects.ivs
  }

  /** How often an event advances the vector counter. */
  function Uses(cfg: Config, c: Context, e: Event): nat {
    if e.Transmit? then (if Sending(c, e).0.txIv != c.txIv then 1 else 0) else |Emitted(cfg, c, e)|
  }

  /** The meaning of events, as a value: `Means` says it is the one of this module. */
  datatype Semantics = Semantics(next: (Context, Event) -> Context, emitted: (Context, Event) -> seq<Iv>, uses: (Context, Event) -> nat)

  ghost predicate Means(sem: Semantics, cfg: Config) {
    && (forall c, e :: sem.next(c, e) == Next(cfg, c, e))
    && (forall c, e :: sem.emitted(c, e) == Emitted(cfg, c, e))
    && (forall c, e :: sem.uses(c, e) == Uses(cfg, c, e))
  }

  /** The meaning that this module gives to events. */
  function Meaning(cfg: Config): Semantics {
    Semantics((c, e) => Next(cfg, c, e), (c, e) => Emitted(cfg, c, e), (c, e) => Uses(cfg, c, e))
  }

  lemma MeaningMeans(cfg: Config)
    ensures Means(Meaning(cfg), cfg)
  {
  }

  /** The context before event n. */
  function At(sem: Semantics, c: Context, events: seq<Event>, n: nat): Context
    requires n <= |events|
  {
    if n == 0 then c else sem.next(At(sem, c, events, n - 1), events[n - 1])
  }

  function AllEmitted(sem: Semantics, c: Context, events: seq<Event>, n: nat): seq<Iv>
    requires n <= |events|
  {
    if n == 0 then [] else AllEmitted(sem, c, events, n - 1) + sem.emitted(At(sem, c, events, n - 1), events[n - 1])
  }

  function AllUses(sem: Semantics, c: Context, events: seq<Event>, n: nat): nat
    requires n <= |events|
  {
    if n == 0 then 0 else AllUses(sem, c, events, n - 1) + sem.uses(At(sem, c, events, n - 1), events[n - 1])
  }

  // ---- Vectors ----

  /** An event emits consecutive values of the counter, beginning with the current one. */
  ghost predicate Consecutive(iv: nat, ivs: seq<Iv>) {
    forall i :: 0 <= i < |ivs| ==> ivs[i].sender == Advance(iv, i)
  }

  lemma {:induction false} VerifyConsecutive(c: Context, ids: seq<nat>, n: nat)
    requires n <= |ids|
    ensures Consecutive(c.txIv, VerifyIvs(c, ids, n))
  {
    if n > 0 {
      VerifyConsecutive(c, ids, n - 1);
    }
  }

  ghost predicate Spends(c: Context, o: Outcome) {
    Consecutive(c.txIv, o.effects.ivs) && o.ctx.txIv == Advance(c.txIv, |o.effects.ivs|)
  }

  lemma VerificationSpends(cfg: Config, c: Context, pdu: Pdu, store: Store)
    ensures Spends(c, Verification(cfg, c, pdu, store))
  {
    var n := |pdu.data| / VERIFY_ENTRY;
    if pdu.data != [] && |pdu.data| % VERIFY_ENTRY == 0 {
      VerifyConsecutive(c, KeyIds(pdu.data, VERIFY_ENTRY, n), n);
    }
  }

  ghost predicate SpendsNothing(c: Context, o: Outcome) { o.effects.ivs == [] && o.ctx.txIv == c.txIv }

  lemma KeyCommandsSpend(cfg: Config, c: Context, encoded: seq<byte>, pdu: Pdu, store: Store)
    requires pdu.group == KEY_MANAGEMENT
    ensures Spends(c, Dispatch(cfg, c, encoded, pdu, store))
  {
    if pdu.procedure == 1 {
      assert SpendsNothing(c, Otar(cfg, c, encoded, pdu, store));
    } else if pdu.procedure == 2 || pdu.procedure == 3 {
      LifecycleSpends(cfg, c, pdu, pdu.procedure == 2, store);
    } else if pdu.procedure == 4 {
      VerificationSpends(cfg, c, pdu, store);
    } else {
      assert SpendsNothing(c, Inventory(c, pdu, store));
    }
  }

  lemma LifecycleSpends(cfg: Config, c: Context, pdu: Pdu, activate: bool, store: Store)
    ensures SpendsNothing(c, Lifecycle(cfg, c, pdu, activate, store))
  {
  }

  lemma SaCommandsSpend(cfg: Config, c: Context, encoded: seq<byte>, pdu: Pdu, store: Store)
    requires pdu.group != KEY_MANAGEMENT
    ensures SpendsNothing(c, Dispatch(cfg, c, encoded, pdu, store))
  {
  }

  lemma CommandSpends(cfg: Config, c: Context, encoded: seq<byte>, store: Store)
    ensures Spends(c, ProcessPdu(cfg, c, encoded, store))
  {
    var pdu := DecodePdu(cfg, encoded);
    if pdu.Got? {
      if pdu.value.group == KEY_MANAGEMENT {
        KeyCommandsSpend(cfg, c, encoded, pdu.value, store);
      } else {
        SaCommandsSpend(cfg, c, encoded, pdu.value, store);
      }
    }
  }

  lemma StrideMoves(iv: nat)
    requires iv < U64
    ensures NextIv(iv) != iv
  {
  }

  lemma EventSpends(cfg: Config, c: Context, e: Event)
    requires c.txIv < U64
    ensures Consecutive(c.txIv, Emitted(cfg, c, e)) && |Emitted(cfg, c, e)| <= Uses(cfg, c, e)
    ensures Next(cfg, c, e).txIv == Advance(c.txIv, Uses(cfg, c, e))
  {
    match e {
      case Transmit(_, _, _) =>
        StrideMoves(c.txIv);
        assert Advance(c.txIv, 1) == NextIv(Advance(c.txIv, 0));
      case Receive(_, _, _) =>
      case Command(encoded, store) => CommandSpends(cfg, c, encoded, store);
    }
  }

  /** `gen(k)` is the counter after k uses. */
  ghost predicate Generates(gen: nat -> nat) {
    forall k: nat {:trigger NextIv(gen(k))} :: NextIv(gen(k)) == gen(k + 1)
  }

  lemma {:induction false} AdvanceGenerates(gen: nat -> nat, u: nat, n: nat)
    requires Generates(gen)
    ensures Advance(gen(u), n) == gen(u + n)
  {
    if n > 0 {
      AdvanceGenerates(gen, u, n - 1);
      assert NextIv(gen(u + n - 1)) == gen(u + n - 1 + 1);
    }
  }

  /** The use of the counter that each emitted vector comes from. */
  ghost predicate Numbered(gen: nat -> nat, ivs: seq<Iv>, at: seq<nat>, uses: nat) {
    && |at| == |ivs| && (forall i :: 0 <= i < |ivs| ==> ivs[i].sender == gen(at[i]) && at[i] < uses)
    && (forall i, j :: 0 <= i < j < |at| ==> at[i] < at[j])
  }

  lemma NumberMore(gen: nat -> nat, ivs: seq<Iv>, at: seq<nat>, uses: nat, more: seq<Iv>, count: nat)
    requires Generates(gen) && Numbered(gen, ivs, at, uses) && Consecutive(gen(uses), more) && |more| <= count
    ensures Numbered(gen, ivs + more, at + seq(|more|, i requires 0 <= i => uses + i), uses + count)
  {
    forall i | 0 <= i < |more| ensures more[i].sender == gen(uses + i) {
      AdvanceGenerates(gen, uses, i);
    }
  }

  /** Every event emits consecutive counter values and moves the counter by its uses. */
  ghost predicate SpendsInOrder(sem: Semantics) {
    forall c: Context, e :: c.txIv < U64 ==>
      && Consecutive(c.txIv, sem.emitted(c, e)) && |sem.emitted(c, e)| <= sem.uses(c, e)
      && sem.next(c, e).txIv == Advance(c.txIv, sem.uses(c, e))
  }

  lemma MeaningSpends(sem: Semantics, cfg: Config)
    requires Means(sem, cfg)
    ensures SpendsInOrder(sem)
  {
    forall c: Context, e | c.txIv < U64
      ensures Consecutive(c.txIv, sem.emitted(c, e)) && |sem.emitted(c, e)| <= sem.uses(c, e)
      ensures sem.next(c, e).txIv == Advance(c.txIv, sem.uses(c, e))
    {
      EventSpends(cfg, c, e);
    }
  }

  lemma {:induction false} RunNumbered(sem: Semantics, gen: nat -> nat, c: Context, events: seq<Event>, n: nat)
    returns (at: seq<nat>)
    requires n <= |events| && SpendsInOrder(sem) && Generates(gen) && c.txIv == gen(0) && forall k :: gen(k) < U64
    ensures At(sem, c, events, n).txIv == gen(AllUses(sem, c, events, n))
    ensures Numbered(gen, AllEmitted(sem, c, events, n), at, AllUses(sem, c, events, n))
  {
    if n == 0 {
      at := [];
    } else {
      var before := RunNumbered(sem, gen, c, events, n - 1);
      var s, e, uses := At(sem, c, events, n - 1), events[n - 1], AllUses(sem, c, events, n - 1);
      var more, count := sem.emitted(s, e), sem.uses(s, e);
      AdvanceGenerates(gen, uses, count);
      NumberMore(gen, AllEmitted(sem, c, events, n - 1), before, uses, more, count);
      at := before + seq(|more|, i requires 0 <= i => uses + i);
    }
  }

  lemma NextIvAt(seed: nat, k: nat)
    ensures NextIv(IvAt(seed, k)) == IvAt(seed, k + 1)
  {
    assert (k + 1) * STRIDE == k * STRIDE + STRIDE;
  }

  lemma GeneratorWorks(seed: nat, gen: nat -> nat)
    requires forall k :: gen(k) == IvAt(seed, k)
    ensures Generates(gen)
  {
    forall k: nat ensures NextIv(gen(k)) == gen(k + 1) {
      NextIvAt(seed, k);
    }
  }

  lemma NumberedDistinct(seed: nat, gen: nat -> nat, ivs: seq<Iv>, at: seq<nat>, uses: nat)
    requires (forall k :: gen(k) == IvAt(seed, k)) && Numbered(gen, ivs, at, uses) && uses <= U64
    ensures forall i, j :: 0 <= i < j < |ivs| ==> ivs[i].sender != ivs[j].sender
  {
    forall i, j | 0 <= i < j < |ivs| ensures ivs[i].sender != ivs[j].sender {
      IvDistinct(seed, at[i], at[j]);
    }
  }

  /**
    In every run, as long as the counter has been used at most 2^64 times, the vectors in all
    emitted frames and verification replies of a context are pairwise distinct.
   */
  lemma IvsUnique(cfg: Config, c: Context, events: seq<Event>, n: nat)
    requires n <= |events| && c.txIv < U64 && AllUses(Meaning(cfg), c, events, n) <= U64
    ensures var ivs := AllEmitted(Meaning(cfg), c, events, n);
            forall i, j :: 0 <= i < j < |ivs| ==> ivs[i].sender != ivs[j].sender
  {
    MeaningMeans(cfg);
    IvsUniqueIn(Meaning(cfg), cfg, c, events, n);
  }

  lemma IvsUniqueIn(sem: Semantics, cfg: Config, c: Context, events: seq<Event>, n: nat)
    requires Means(sem, cfg) && n <= |events| && c.txIv < U64 && AllUses(sem, c, events, n) <= U64
    ensures var ivs := AllEmitted(sem, c, events, n);
            forall i, j :: 0 <= i < j < |ivs| ==> ivs[i].sender != ivs[j].sender
  {
    MeaningSpends(sem, cfg);
    IvsUniqueBy(sem, (k: nat) => IvAt(c.txIv, k), c, events, n);
  }

  lemma IvsUniqueBy(sem: Semantics, gen: nat -> nat, c: Context, events: seq<Event>, n: nat)
    requires SpendsInOrder(sem) && n <= |events| && c.txIv < U64 && AllUses(sem, c, events, n) <= U64
    requires forall k :: gen(k) == IvAt(c.txIv, k)
    ensures var ivs := AllEmitted(sem, c, events, n);
            forall i, j :: 0 <= i < j < |ivs| ==> ivs[i].sender != ivs[j].sender
  {
    GeneratorWorks(c.txIv, gen);
    var at := RunNumbered(sem, gen, c, events, n);
    NumberedDistinct(c.txIv, gen, AllEmitted(sem, c, events, n), at, AllUses(sem, c, events, n));
  }

  // ---- Replay ----

  /** The sequence number that an event accepts on an association, if any. */
  function Accepted(c: Context, e: Event, spi: nat): Option<nat> {
    if e.Receive? && |e.frame| >= PROTECTED_OVERHEAD && SpiOf(e.frame) == spi
       && ProcessSecurity(c, e.role, e.frame, e.decryption).1.Got?
    then Some(ProcessSecurity(c, e.role, e.frame, e.decryption).1.value) else None
  }

  predicate IsRekey(cfg: Config, encoded: seq<byte>, spi: nat) {
    var pdu := DecodePdu(cfg, encoded);
    pdu.Got? && pdu.value.group == SA_MANAGEMENT && pdu.value.procedure == 6 && |pdu.value.data| >= 2 && Be16(pdu.value.data, 0) == spi
  }

  /** A successful rekey of the association. */
  predicate Rekeys(cfg: Config, c: Context, e: Event, spi: nat) {
    e.Command? && IsRekey(cfg, e.encoded, spi) && ProcessPdu(cfg, c, e.encoded, e.store).error.None?
  }

  /** The counter of an association never moves back, and its window stays within the configured maximum. */
  ghost predicate Ratchets(cfg: Config, c: Context, d: Context, spi: nat) {
    && |d.sas| == |c.sas| && 0 < spi <= |c.sas|
    && (Sa(c, spi).initialized ==> Sa(d, spi).initialized && Sa(c, spi).rxArsn <= Sa(d, spi).rxArsn)
    && (Sa(c, spi).rxWindow <= cfg.arsnWindow ==> Sa(d, spi).rxWindow <= cfg.arsnWindow)
  }

  lemma KeyCommandsRatchet(cfg: Config, c: Context, encoded: seq<byte>, pdu: Pdu, store: Store, spi: nat)
    requires 0 < spi <= |c.sas| && pdu.group == KEY_MANAGEMENT
    ensures Dispatch(cfg, c, encoded, pdu, store).ctx.sas == c.sas
  {
  }

  lemma SaCommandsRatchet(cfg: Config, c: Context, encoded: seq<byte>, pdu: Pdu, store: Store, spi: nat)
    requires 0 < spi <= |c.sas| && pdu.group != KEY_MANAGEMENT
    requires pdu.group == SA_MANAGEMENT && pdu.procedure == 6 && |pdu.data| >= 2 && Be16(pdu.data, 0) == spi ==>
               RekeySa(cfg, c, pdu, store).error.Some?
    ensures Ratchets(cfg, c, Dispatch(cfg, c, encoded, pdu, store).ctx, spi)
  {
    if pdu.group == SA_MANAGEMENT && pdu.procedure == 6 {
      RekeyRatchets(cfg, c, pdu, store, spi);
    }
  }

  lemma RekeyRatchets(cfg: Config, c: Context, pdu: Pdu, store: Store, spi: nat)
    requires 0 < spi <= |c.sas|
    requires |pdu.data| >= 2 && Be16(pdu.data, 0) == spi ==> RekeySa(cfg, c, pdu, store).error.Some?
    ensures Ratchets(cfg, c, RekeySa(cfg, c, pdu, store).ctx, spi)
  {
  }

  lemma CommandRatchets(cfg: Config, c: Context, encoded: seq<byte>, store: Store, spi: nat)
    requires 0 < spi <= |c.sas| && !(IsRekey(cfg, encoded, spi) && ProcessPdu(cfg, c, encoded, store).error.None?)
    ensures Ratchets(cfg, c, ProcessPdu(cfg, c, encoded, store).ctx, spi)
  {
    var pdu := DecodePdu(cfg, encoded);
    if pdu.Got? {
      if pdu.value.group == KEY_MANAGEMENT {
        KeyCommandsRatchet(cfg, c, encoded, pdu.value, store, spi);
      } else {
        SaCommandsRatchet(cfg, c, encoded, pdu.value, store, spi);
      }
    }
  }

  lemma EventRatchets(cfg: Config, c: Context, e: Event, spi: nat)
    requires 0 < spi <= |c.sas| && !Rekeys(cfg, c, e, spi)
    ensures Ratchets(cfg, c, Next(cfg, c, e), spi)
  {
    if e.Command? {
      CommandRatchets(cfg, c, e.encoded, e.store, spi);
    }
  }

  /** Whatever happens to an association short of a rekey ratchets its counter. */
  ghost predicate Keeps(sem: Semantics, cfg: Config, spi: nat) {
    forall c: Context, e :: 0 < spi <= |c.sas| && !Rekeys(cfg, c, e, spi) ==> Ratchets(cfg, c, sem.next(c, e), spi)
  }

  lemma MeaningKeeps(sem: Semantics, cfg: Config, spi: nat)
    requires Means(sem, cfg)
    ensures Keeps(sem, cfg, spi)
  {
    forall c: Context, e | 0 < spi <= |c.sas| && !Rekeys(cfg, c, e, spi) ensures Ratchets(cfg, c, sem.next(c, e), spi) {
      EventRatchets(cfg, c, e, spi);
    }
  }

  /** The run rekeys the association at none of the events from m to n. */
  ghost predicate NoRekey(sem: Semantics, cfg: Config, c: Context, events: seq<Event>, spi: nat, m: nat, n: nat)
    requires n <= |events|
  {
    forall k :: m <= k < n ==> !Rekeys(cfg, At(sem, c, events, k), events[k], spi)
  }

  lemma {:induction false} RunRatchets(sem: Semantics, cfg: Config, c: Context, events: seq<Event>, spi: nat, m: nat, n: nat)
    requires Keeps(sem, cfg, spi) && m <= n <= |events| && 0 < spi <= |At(sem, c, events, m).sas|
    requires NoRekey(sem, cfg, c, events, spi, m, n)
    ensures Ratchets(cfg, At(sem, c, events, m), At(sem, c, events, n), spi)
    decreases n - m
  {
    if m < n {
      RunRatchets(sem, cfg, c, events, spi, m, n - 1);
      var s := At(sem, c, events, n - 1);
      assert !Rekeys(cfg, s, events[n - 1], spi);
      RatchetsThrough(cfg, At(sem, c, events, m), s, sem.next(s, events[n - 1]), spi);
    }
  }

  lemma RatchetsThrough(cfg: Config, a: Context, b: Context, d: Context, spi: nat)
    requires Ratchets(cfg, a, b, spi) && Ratchets(cfg, b, d, spi)
    ensures Ratchets(cfg, a, d, spi)
  {
  }

  lemma AcceptRatchets(sem: Semantics, cfg: Config, c: Context, e: Event, spi: nat)
    requires Means(sem, cfg) && Accepted(c, e, spi).Some? && 0 < spi <= |c.sas| && Sa(c, spi).rxWindow <= cfg.arsnWindow
    ensures var d := sem.next(c, e);
            && |d.sas| == |c.sas| && Sa(d, spi).initialized && Sa(d, spi).rxArsn == Accepted(c, e, spi).value
            && Sa(d, spi).rxWindow <= cfg.arsnWindow
  {
  }

  lemma AcceptLater(cfg: Config, after: Context, met: Context, e: Event, spi: nat, first: nat)
    requires Ratchets(cfg, after, met, spi) && Accepted(met, e, spi).Some?
    requires Sa(after, spi).initialized && Sa(after, spi).rxArsn == first && Sa(after, spi).rxWindow <= cfg.arsnWindow
    ensures var second := Accepted(met, e, spi).value;
            first <= Sa(met, spi).rxArsn < second && second - Sa(met, spi).rxArsn <= cfg.arsnWindow
  {
  }

  /**
    In every run, whatever frames and commands come: two frames accepted on an association with
    no successful rekey of it in between carry strictly increasing sequence numbers, and the
    later one advances the counter it met by at most the configured maximum window.
   */
  lemma NoReplay(cfg: Config, c: Context, events: seq<Event>, spi: nat, i: nat, j: nat)
    requires i < j < |events| && NoRekey(Meaning(cfg), cfg, c, events, spi, i + 1, j)
    requires 0 < spi <= |c.sas| && Sa(c, spi).rxWindow <= cfg.arsnWindow
    requires Accepted(At(Meaning(cfg), c, events, i), events[i], spi).Some?
    requires Accepted(At(Meaning(cfg), c, events, j), events[j], spi).Some?
    ensures var before, met := At(Meaning(cfg), c, events, i), At(Meaning(cfg), c, events, j);
            var first, second := Accepted(before, events[i], spi).value, Accepted(met, events[j], spi).value;
            && first < second && 0 < spi <= |met.sas|
            && first <= Sa(met, spi).rxArsn && second - Sa(met, spi).rxArsn <= cfg.arsnWindow
  {
    MeaningMeans(cfg);
    NoReplayIn(Meaning(cfg), cfg, c, events, spi, i, j);
  }

  lemma NoReplayIn(sem: Semantics, cfg: Config, c: Context, events: seq<Event>, spi: nat, i: nat, j: nat)
    requires Means(sem, cfg) && i < j < |events| && NoRekey(sem, cfg, c, events, spi, i + 1, j)
    requires 0 < spi <= |c.sas| && Sa(c, spi).rxWindow <= cfg.arsnWindow
    requires Accepted(At(sem, c, events, i), events[i], spi).Some? && Accepted(At(sem, c, events, j), events[j], spi).Some?
    ensures var first, second := Accepted(At(sem, c, events, i), events[i], spi).value, Accepted(At(sem, c, events, j), events[j], spi).value;
            && first < second && 0 < spi <= |At(sem, c, events, j).sas|
            && first <= Sa(At(sem, c, events, j), spi).rxArsn
            && second - Sa(At(sem, c, events, j), spi).rxArsn <= cfg.arsnWindow
  {
    var first := Accepted(At(sem, c, events, i), events[i], spi).value;
    MeaningBounds(sem, cfg, spi);
    RunBounded(sem, cfg, c, events, spi, i);
    AcceptRatchets(sem, cfg, At(sem, c, events, i), events[i], spi);
    MeaningKeeps(sem, cfg, spi);
    RunRatchets(sem, cfg, c, events, spi, i + 1, j);
    AcceptLater(cfg, At(sem, c, events, i + 1), At(sem, c, events, j), events[j], spi, first);
  }

  /** The window is within the configured maximum after any event, rekeys included. */
  lemma WindowBounded(cfg: Config, c: Context, e: Event, spi: nat)
    requires 0 < spi <= |c.sas| && Sa(c, spi).rxWindow <= cfg.arsnWindow
    ensures var d := Next(cfg, c, e); |d.sas| == |c.sas| && Sa(d, spi).rxWindow <= cfg.arsnWindow
  {
    if Rekeys(cfg, c, e, spi) {
      RekeyKeepsWindow(cfg, c, DecodePdu(cfg, e.encoded).value, e.store, spi);
    } else {
      EventRatchets(cfg, c, e, spi);
    }
  }

  /** No event moves the window beyond the configured maximum. */
  ghost predicate Bounds(sem: Semantics, cfg: Config, spi: nat) {
    forall c: Context, e :: 0 < spi <= |c.sas| && Sa(c, spi).rxWindow <= cfg.arsnWindow ==>
      |sem.next(c, e).sas| == |c.sas| && Sa(sem.next(c, e), spi).rxWindow <= cfg.arsnWindow
  }

  lemma MeaningBounds(sem: Semantics, cfg: Config, spi: nat)
    requires Means(sem, cfg)
    ensures Bounds(sem, cfg, spi)
  {
    forall c: Context, e | 0 < spi <= |c.sas| && Sa(c, spi).rxWindow <= cfg.arsnWindow
      ensures |sem.next(c, e).sas| == |c.sas| && Sa(sem.next(c, e), spi).rxWindow <= cfg.arsnWindow
    {
      WindowBounded(cfg, c, e, spi);
    }
  }

  lemma {:induction false} RunBounded(sem: Semantics, cfg: Config, c: Context, events: seq<Event>, spi: nat, n: nat)
    requires Bounds(sem, cfg, spi) && n <= |events| && 0 < spi <= |c.sas| && Sa(c, spi).rxWindow <= cfg.arsnWindow
    ensures |At(sem, c, events, n).sas| == |c.sas| && Sa(At(sem, c, events, n), spi).rxWindow <= cfg.arsnWindow
  {
    if n > 0 {
      RunBounded(sem, cfg, c, events, spi, n - 1);
    }
  }

  lemma RekeyKeepsWindow(cfg: Config, c: Context, pdu: Pdu, store: Store, spi: nat)
    requires 0 < spi <= |c.sas|
    ensures var d := RekeySa(cfg, c, pdu, store).ctx; |d.sas| == |c.sas| && Sa(d, spi).rxWindow == Sa(c, spi).rxWindow
  {
  }
}
