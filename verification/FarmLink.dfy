/**
  A window sender, two lossy FIFO channels and the FARM-1 receiver: acceptance by 8-bit numbers
  refines acceptance by unbounded ones for every small enough window, and only for those.
 */
module FarmLink {
  import opened CfdpTypes
  import opened Farm

  // ---- A window sender, two lossy FIFO channels, and this receiver ----

  /**
    `sent[n]` is the data of the n-th frame of the current service, counted without bound; `base`
    is the lowest number the sender has not seen acknowledged.  `uplink` holds the numbers of the
    AD frames in flight and `downlink` the V(R) values reported, oldest first; on the wire are the
    low 8 bits of what they are ahead of `start`, where the service began.  `vr` counts the frames
    accepted, and `accepted` is their data.
   */
  datatype Link<D> = Link(
    window: nat, half: nat, start: byte, sent: seq<D>, base: nat, uplink: seq<nat>, downlink: seq<nat>,
    farm: State, vr: nat, accepted: seq<D>)

  datatype Action<D> =
    | New(data: D)
    | Resend(n: nat)
    | LoseFrame(i: nat)
    | DeliverFrame
    | DeliverBypass(f: Frame)
    | Report
    | LoseReport(i: nat)
    | DeliverReport
    | Unlock
    | Restart(start: byte)

  function Low8(n: nat): byte { n % MODULUS }

  function AdFrame(n: nat): Frame { Frame(false, false, Low8(n), []) }

  const UNLOCK_FRAME := Frame(true, true, 0, [0x00])

  function SetVrFrame(v: byte): Frame { Frame(true, true, 0, [0x82, 0x00, v]) }

  /** A new service: nothing sent and nothing in flight, on either side. */
  function Renewed<D>(l: Link<D>, start: byte): Link<D> {
    l.(start := start, sent := [], base := 0, uplink := [], downlink := [], vr := 0, accepted := [])
  }

  /** A command that is refused changes nothing but the count of frames; the sender sees the lockout in the report. */
  predicate Enabled<D>(l: Link<D>, a: Action<D>) {
    match a
    case New(_) => |l.sent| < l.base + l.window
    case Resend(n) => l.base <= n < |l.sent|
    case LoseFrame(i) => i < |l.uplink|
    case DeliverFrame => l.uplink != [] && l.uplink[0] < |l.sent|
    case DeliverBypass(f) => f.bypass && !f.control
    case Report => true
    case LoseReport(i) => i < |l.downlink|
    case DeliverReport => l.downlink != []
    case Unlock => true
    case Restart(_) => true
  }

  function Without<T>(s: seq<T>, i: nat): seq<T>
    requires i < |s|
  {
    s[..i] + s[i + 1..]
  }

  /** The sender advances its base by the distance from the base's low 8 bits to the reported ones. */
  function Advance(start: byte, base: nat, report: byte): nat { base + Sub8(report, Low8(start + base)) }

  function Next<D>(l: Link<D>, a: Action<D>): Link<D>
    requires Enabled(l, a)
  {
    match a
    case New(data) => l.(sent := l.sent + [data], uplink := l.uplink + [|l.sent|])
    case Resend(n) => l.(uplink := l.uplink + [n])
    case LoseFrame(i) => l.(uplink := Without(l.uplink, i))
    case DeliverFrame =>
      var n := l.uplink[0];
      var r := Process(l.farm, AdFrame(l.start + n), l.half);
      if r.1 == Accepted
      then l.(uplink := l.uplink[1..], farm := r.0, vr := l.vr + 1, accepted := l.accepted + [l.sent[n]])
      else l.(uplink := l.uplink[1..], farm := r.0)
    case DeliverBypass(f) => l.(farm := Process(l.farm, f, l.half).0)
    case Report => l.(downlink := l.downlink + [l.vr])
    case LoseReport(i) => l.(downlink := Without(l.downlink, i))
    case DeliverReport => l.(downlink := l.downlink[1..], base := Advance(l.start, l.base, Low8(l.start + l.downlink[0])))
    case Unlock => l.(farm := Process(l.farm, UNLOCK_FRAME, l.half).0)
    case Restart(start) =>
      var r := Process(l.farm, SetVrFrame(start), l.half);
      if r.1 == Accepted then Renewed(l, start).(farm := r.0) else l.(farm := r.0)
  }

  ghost predicate Initial<D>(l: Link<D>) {
    && HalfWindow(l.half)
    && l.start == 0 && l.sent == [] && l.base == 0 && l.uplink == [] && l.downlink == [] && l.vr == 0 && l.accepted == []
    && l.farm == State(false, false, 0, 0)
  }

  ghost predicate IsRun<D>(states: seq<Link<D>>, actions: seq<Action<D>>) {
    && |states| == |actions| + 1 && Initial(states[0])
    && forall i :: 0 <= i < |actions| ==> Enabled(states[i], actions[i]) && states[i + 1] == Next(states[i], actions[i])
  }

  predicate UplinkInv<D>(l: Link<D>) {
    && (forall i :: 0 <= i < |l.uplink| ==> l.uplink[i] < |l.sent| && l.vr <= l.uplink[i] + l.window)
    && (forall i, j :: 0 <= i < j < |l.uplink| ==> l.uplink[i] < l.uplink[j] + l.window)
  }

  predicate DownlinkInv<D>(l: Link<D>) {
    && (forall i :: 0 <= i < |l.downlink| ==> l.base <= l.downlink[i] <= l.vr)
    && (forall i, j :: 0 <= i < j < |l.downlink| ==> l.downlink[i] <= l.downlink[j])
  }

  ghost predicate Inv<D>(l: Link<D>) {
    && HalfWindow(l.half) && l.window < l.half
    && l.base <= l.vr <= |l.sent| <= l.base + l.window
    && UplinkInv(l) && DownlinkInv(l)
    && !l.farm.lockout && l.farm.reportValue == Low8(l.start + l.vr)
    && l.accepted == l.sent[..l.vr]
  }

  /** 8-bit subtraction recovers a difference that fits in 8 bits. */
  lemma SubOfLow8(a: nat, b: nat)
    requires -256 < a - b < 256
    ensures Sub8(Low8(a), Low8(b)) == if a >= b then a - b else 256 + a - b
  {
  }

  /** Within half a window of V(R), the 8-bit test is comparison of unbounded numbers. */
  lemma ModularAgrees(s: State, vr: nat, n: nat, half: nat)
    requires HalfWindow(half) && !s.lockout && s.reportValue == Low8(vr) && n < vr + half && vr < n + half
    ensures var r := Accept(s, AdFrame(n), half);
            && (r.1 == Accepted <==> n == vr)
            && r.0 == (if n == vr then s.(reportValue := Low8(vr + 1), retransmit := false)
                       else if n > vr then s.(retransmit := true) else s)
  {
    SubOfLow8(vr, n);
    SubOfLow8(n, vr);
    var q := vr / 256;
    assert vr == 256 * q + Low8(vr);
  }

  lemma WithoutKeeps<D>(l: Link<D>, i: nat)
    requires Inv(l) && i < |l.uplink|
    ensures Inv(l.(uplink := Without(l.uplink, i)))
  {
  }

  lemma WithoutReportKeeps<D>(l: Link<D>, i: nat)
    requires Inv(l) && i < |l.downlink|
    ensures Inv(l.(downlink := Without(l.downlink, i)))
  {
  }

  lemma DeliverKeeps<D>(l: Link<D>)
    requires Inv(l) && Enabled(l, DeliverFrame)
    ensures Inv(Next(l, DeliverFrame))
  {
    var n := l.uplink[0];
    ModularAgrees(l.farm.(farmB := (l.farm.farmB + 1) % 4), l.start + l.vr, l.start + n, l.half);
    var q := Next(l, DeliverFrame);
    if n == l.vr {
      assert l.sent[..l.vr + 1] == l.sent[..l.vr] + [l.sent[l.vr]];
    }
  }

  lemma ReportKeeps<D>(l: Link<D>)
    requires Inv(l) && Enabled(l, DeliverReport)
    ensures Inv(Next(l, DeliverReport)) && Next(l, DeliverReport).base == l.downlink[0]
  {
    SubOfLow8(l.start + l.downlink[0], l.start + l.base);
  }

  lemma CommandKeeps<D>(l: Link<D>, a: Action<D>)
    requires Inv(l) && (a.Unlock? || a.Restart?)
    ensures Inv(Next(l, a))
  {
  }

  lemma SendKeeps<D>(l: Link<D>, a: Action<D>)
    requires Inv(l) && Enabled(l, a) && (a.New? || a.Resend? || a.DeliverBypass? || a.Report?)
    ensures Inv(Next(l, a))
  {
    if a.New? {
      assert (l.sent + [a.data])[..l.vr] == l.sent[..l.vr];
    }
  }

  lemma NextKeepsInv<D>(l: Link<D>, a: Action<D>)
    requires Inv(l) && Enabled(l, a)
    ensures Inv(Next(l, a))
  {
    match a {
      case LoseFrame(i) => WithoutKeeps(l, i);
      case LoseReport(i) => WithoutReportKeeps(l, i);
      case DeliverFrame => DeliverKeeps(l);
      case DeliverReport => ReportKeeps(l);
      case Unlock => CommandKeeps(l, a);
      case Restart(_) => CommandKeeps(l, a);
      case _ => SendKeeps(l, a);
    }
  }

  /**
    In every run of a sender with a window below half the acceptance window over lossy FIFO
    channels, whenever it unlocks or restarts: no lockout ever occurs, the 8-bit V(R) is the low
    part of the start number and the number of accepted frames, and what was accepted in a service
    is a gap-free, duplicate-free prefix of what was sent in it.
   */
  lemma {:induction false} FarmRefines<D>(states: seq<Link<D>>, actions: seq<Action<D>>, n: nat)
    requires IsRun(states, actions) && n < |states| && states[0].window < states[0].half
    ensures Inv(states[n])
    ensures !states[n].farm.lockout && states[n].farm.reportValue == Low8(states[n].start + |states[n].accepted|)
    ensures states[n].accepted <= states[n].sent
  {
    if n > 0 {
      FarmRefines(states, actions, n - 1);
      NextKeepsInv(states[n - 1], actions[n - 1]);
    }
  }

  /** In a run, a delivered frame is accepted exactly when its unbounded number is the next one expected. */
  lemma AcceptedExactly<D>(states: seq<Link<D>>, actions: seq<Action<D>>, n: nat)
    requires IsRun(states, actions) && n < |actions| && actions[n].DeliverFrame?
    requires states[0].window < states[0].half
    ensures var l, q := states[n], states[n + 1];
            q.accepted == if l.uplink[0] == |l.accepted| then l.accepted + [l.sent[l.uplink[0]]] else l.accepted
  {
    FarmRefines(states, actions, n);
    var l := states[n];
    ModularAgrees(l.farm.(farmB := (l.farm.farmB + 1) % 4), l.start + l.vr, l.start + l.uplink[0], l.half);
  }

  // ---- The bound on the window is exact ----

  /** Some run of a sender with this window, against this half of the acceptance window, ends locked out. */
  ghost predicate LocksOut<D(!new)>(window: nat, half: nat) {
    exists states: seq<Link<D>>, actions: seq<Action<D>> ::
      IsRun(states, actions) && states[0].window == window && states[0].half == half
      && states[|actions|].farm.lockout
  }

  /** The link after k frames were sent and delivered one by one, with no report. */
  function Delivered<D>(window: nat, half: nat, d: D, k: nat): Link<D> {
    var sent := seq(k, (_: nat) => d);
    Link(window, half, 0, sent, 0, [], [], State(false, false, k % 4, Low8(k)), k, sent)
  }

  ghost predicate Reaches<D(!new)>(from: Link<D>, l: Link<D>) {
    exists states: seq<Link<D>>, actions: seq<Action<D>> ::
      IsRun(states, actions) && states[0] == from && states[|actions|] == l
  }

  lemma ReachesNext<D(!new)>(from: Link<D>, l: Link<D>, a: Action<D>)
    requires Reaches(from, l) && Enabled(l, a)
    ensures Reaches(from, Next(l, a))
  {
    var states: seq<Link<D>>, actions: seq<Action<D>> :|
      IsRun(states, actions) && states[0] == from && states[|actions|] == l;
    RunExtends(states, actions, l, a, Next(l, a));
  }

  lemma RunExtends<D(!new)>(states: seq<Link<D>>, actions: seq<Action<D>>, l: Link<D>, a: Action<D>, q: Link<D>)
    requires IsRun(states, actions) && states[|actions|] == l && Enabled(l, a) && q == Next(l, a)
    ensures Reaches(states[0], q)
  {
    var states', actions' := states + [q], actions + [a];
    forall i | 0 <= i < |actions'| ensures Enabled(states'[i], actions'[i]) && states'[i + 1] == Next(states'[i], actions'[i]) {
      if i < |actions| {
        assert states'[i] == states[i] && states'[i + 1] == states[i + 1] && actions'[i] == actions[i];
      }
    }
    assert IsRun(states', actions') && states'[0] == states[0] && states'[|actions'|] == q;
  }

  lemma AcceptNext(s: State, k: nat, half: nat)
    requires s == State(false, false, k % 4, Low8(k))
    ensures Process(s, AdFrame(k), half) == (State(false, false, (k + 1) % 4, Low8(k + 1)), Accepted)
  {
  }

  lemma DeliverNext<D>(window: nat, half: nat, d: D, k: nat)
    requires k < window
    ensures var l := Delivered(window, half, d, k);
            && Enabled(l, New(d)) && Enabled(Next(l, New(d)), DeliverFrame)
            && Next(Next(l, New(d)), DeliverFrame) == Delivered(window, half, d, k + 1)
  {
    var l := Delivered(window, half, d, k);
    assert l.sent + [d] == Delivered(window, half, d, k + 1).sent;
    AcceptNext(l.farm, k, half);
  }

  lemma {:induction false} DeliveredReached<D(!new)>(window: nat, half: nat, d: D, k: nat)
    requires HalfWindow(half) && k <= window
    ensures Reaches(Delivered(window, half, d, 0), Delivered(window, half, d, k))
  {
    if k == 0 {
      var l := Delivered(window, half, d, 0);
      assert IsRun<D>([l], []) && [l][0] == l;
    } else {
      DeliveredReached(window, half, d, k - 1);
      DeliverNext(window, half, d, k - 1);
      var l := Delivered(window, half, d, k - 1);
      ReachesNext(Delivered(window, half, d, 0), l, New(d));
      ReachesNext(Delivered(window, half, d, 0), Next(l, New(d)), DeliverFrame);
    }
  }

  /** Half a window delivered and not reported, then its oldest frame again: the repeat is outside both halves. */
  lemma StaleRepeatLocks<D>(window: nat, half: nat, d: D)
    requires HalfWindow(half)
    ensures var l := Delivered(window, half, d, half);
            && Enabled(l, Resend(0)) && Enabled(Next(l, Resend(0)), DeliverFrame)
            && Next(Next(l, Resend(0)), DeliverFrame).farm.lockout
  {
  }

  /** A sender can drive the receiver into lockout exactly when its window reaches half the acceptance window. */
  lemma LocksOutExactly<D(!new)>(window: nat, half: nat, d: D)
    requires HalfWindow(half)
    ensures LocksOut<D>(window, half) <==> window >= half
  {
    if window >= half {
      var first, l := Delivered(window, half, d, 0), Delivered(window, half, d, half);
      DeliveredReached(window, half, d, half);
      StaleRepeatLocks(window, half, d);
      ReachesNext(first, l, Resend(0));
      ReachesNext(first, Next(l, Resend(0)), DeliverFrame);
    } else if LocksOut<D>(window, half) {
      var states: seq<Link<D>>, actions: seq<Action<D>> :|
        IsRun(states, actions) && states[0].window == window && states[0].half == half
        && states[|actions|].farm.lockout;
      FarmRefines(states, actions, |actions|);
    }
  }

  // ---- The way out of lockout ----

  /**
    From any state of the link, locked out or not: UNLOCK, a restart at any number and one frame
    leave a channel that is not locked out and has accepted exactly that frame.
   */
  lemma LockedOutRecovers<D>(l: Link<D>, start: byte, d: D)
    requires l.window > 0
    ensures var a := Next(l, Unlock);
            var b := Next(a, Restart(start));
            && !a.farm.lockout && b == Renewed(l, start).(farm := b.farm) && Enabled(b, New(d))
            && var c := Next(b, New(d));
            && Enabled(c, DeliverFrame)
            && var q := Next(c, DeliverFrame);
            && q.accepted == [d] == q.sent && !q.farm.lockout && q.farm.reportValue == Low8(start + 1)
  {
    var a := Next(l, Unlock);
    var b := Next(a, Restart(start));
    var c := Next(b, New(d));
    assert b.sent + [d] == [d] && c.uplink == [0];
  }
}
