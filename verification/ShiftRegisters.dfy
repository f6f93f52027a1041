/**
  Shift registers over {0, 1} in general: a register of any type T is stepped by message bits.
  The lemmas say what follows, over whole messages, from what one step is known to satisfy.
 */
module ShiftRegisters {

  /** The register after the first n symbols. */
  function Fold<T, A>(step: (T, A) -> T, r: T, xs: seq<A>, n: nat): T
    requires n <= |xs|
  {
    if n == 0 then r else step(Fold(step, r, xs, n - 1), xs[n - 1])
  }

  function Zeros(n: nat): (z: seq<bool>)
    ensures |z| == n && forall i :: 0 <= i < n ==> !z[i]
  {
    seq(n, _ => false)
  }

  /** The positions where two messages differ. */
  function Difference(x: seq<bool>, y: seq<bool>): (d: seq<bool>)
    requires |x| == |y|
    ensures |d| == |x| && forall i :: 0 <= i < |d| ==> d[i] == (x[i] != y[i])
  {
    seq(|x|, i requires 0 <= i < |x| => x[i] != y[i])
  }

  lemma {:induction false} FoldPrefix<T, A>(step: (T, A) -> T, r: T, a: seq<A>, b: seq<A>, n: nat)
    requires n <= |a|
    ensures Fold(step, r, a + b, n) == Fold(step, r, a, n)
  {
    if n > 0 {
      FoldPrefix(step, r, a, b, n - 1);
    }
  }

  lemma {:induction false} FoldConcat<T, A>(step: (T, A) -> T, r: T, a: seq<A>, b: seq<A>, n: nat)
    requires n <= |b|
    ensures Fold(step, r, a + b, |a| + n) == Fold(step, Fold(step, r, a, |a|), b, n)
  {
    if n == 0 {
      FoldPrefix(step, r, a, b, |a|);
    } else {
      FoldConcat(step, r, a, b, n - 1);
      assert (a + b)[|a| + n - 1] == b[n - 1];
    }
  }

  /** The bits of the first n symbols. */
  function Expand<A>(bits: A -> seq<bool>, xs: seq<A>, n: nat): seq<bool>
    requires n <= |xs|
  {
    if n == 0 then [] else Expand(bits, xs, n - 1) + bits(xs[n - 1])
  }

  /** If a step on a symbol is the steps on its bits, a run on symbols is the run on all their bits. */
  lemma {:induction false} FoldRefines<T(!new), A(!new)>(f: (T, A) -> T, g: (T, bool) -> T, bits: A -> seq<bool>, r: T, xs: seq<A>, n: nat)
    requires n <= |xs| && forall c, a :: f(c, a) == Fold(g, c, bits(a), |bits(a)|)
    ensures Fold(f, r, xs, n) == Fold(g, r, Expand(bits, xs, n), |Expand(bits, xs, n)|)
  {
    if n > 0 {
      FoldRefines(f, g, bits, r, xs, n - 1);
      FoldConcat(g, r, Expand(bits, xs, n - 1), bits(xs[n - 1]), |bits(xs[n - 1])|);
    }
  }

  ghost predicate Linear<T(!new)>(step: (T, bool) -> T, add: (T, T) -> T) {
    forall a, b, x, y :: add(step(a, x), step(b, y)) == step(add(a, b), x != y)
  }

  /** Registers driven by two messages differ by the register driven by their difference. */
  lemma {:induction false} FoldLinear<T(!new)>(step: (T, bool) -> T, add: (T, T) -> T, a: T, b: T, x: seq<bool>, y: seq<bool>, n: nat)
    requires Linear(step, add) && |x| == |y| && n <= |x|
    ensures add(Fold(step, a, x, n), Fold(step, b, y, n)) == Fold(step, add(a, b), Difference(x, y), n)
  {
    if n > 0 {
      FoldLinear(step, add, a, b, x, y, n - 1);
    }
  }

  // ---- Adding the message at the top, or at the bottom ----

  /**
    `div` takes bits in at the bottom and `step` at the top; `window(n)` is the register that
    holds the w message bits from position n on.
   */
  lemma {:induction false} FoldsAgree<T(!new)>(div: (T, bool) -> T, step: (T, bool) -> T, add: (T, T) -> T, window: nat -> T,
                                              d: T, c: T, stream: seq<bool>, bits: seq<bool>, w: nat, n: nat)
    requires n + w <= |bits| == |stream| && Fold(div, d, stream, w) == add(c, window(0))
    requires forall r, k :: 0 <= k && k + w < |bits| ==> div(add(r, window(k)), stream[k + w]) == add(step(r, bits[k]), window(k + 1))
    ensures Fold(div, d, stream, n + w) == add(Fold(step, c, bits, n), window(n))
  {
    if n > 0 {
      FoldsAgree(div, step, add, window, d, c, stream, bits, w, n - 1);
    }
  }

  /** A padded message divided at the bottom leaves the register of the message fed at the top. */
  lemma DivisionAgrees<T(!new)>(div: (T, bool) -> T, step: (T, bool) -> T, add: (T, T) -> T, window: nat -> T,
                                d: T, c: T, zero: T, stream: seq<bool>, msg: seq<bool>, pad: seq<bool>)
    requires |stream| == |msg| + |pad| && Fold(div, d, stream, |pad|) == add(c, window(0))
    requires forall r, k :: 0 <= k && k + |pad| < |stream| ==>
                              div(add(r, window(k)), stream[k + |pad|]) == add(step(r, (msg + pad)[k]), window(k + 1))
    requires window(|msg|) == zero && forall r :: add(r, zero) == r
    ensures Fold(div, d, stream, |stream|) == Fold(step, c, msg, |msg|)
  {
    FoldsAgree(div, step, add, window, d, c, stream, msg + pad, |pad|, |msg|);
    FoldPrefix(step, c, msg, pad, |msg|);
  }

  /** Message bits may be added to the register beforehand instead of one by one. */
  lemma {:induction false} FoldAbsorbs<T(!new)>(step: (T, bool) -> T, add: (T, T) -> T, window: nat -> T, c: T, bits: seq<bool>, zeros: seq<bool>, n: nat)
    requires n <= |bits| == |zeros| && forall i :: 0 <= i < |zeros| ==> !zeros[i]
    requires forall r, k :: 0 <= k < |bits| ==> step(add(r, window(k)), false) == add(step(r, bits[k]), window(k + 1))
    ensures Fold(step, add(c, window(0)), zeros, n) == add(Fold(step, c, bits, n), window(n))
  {
    if n > 0 {
      FoldAbsorbs(step, add, window, c, bits, zeros, n - 1);
    }
  }

  // ---- Burst errors ----

  lemma {:induction false} FoldZeroBits<T(!new)>(step: (T, bool) -> T, zero: T -> bool, r: T, bits: seq<bool>, m: nat, n: nat)
    requires m <= n <= |bits| && (forall i :: m <= i < n ==> !bits[i])
    requires forall c :: zero(step(c, false)) <==> zero(c)
    ensures zero(Fold(step, r, bits, n)) <==> zero(Fold(step, r, bits, m))
    decreases n - m
  {
    if m < n {
      FoldZeroBits(step, zero, r, bits, m, n - 1);
    }
  }

  /**
    What a step of a register of width w with an invertible generator satisfies: `low(c, k)` says
    that the last k coefficients vanish.  If they do after a step, nothing was subtracted in it.
   */
  ghost predicate Invertible<T(!new)>(step: (T, bool) -> T, zero: T -> bool, low: (T, nat) -> bool, w: nat) {
    && (forall c :: zero(step(c, false)) <==> zero(c))
    && (forall c :: zero(c) ==> low(c, w))
    && (forall c, b, k :: 0 < k <= w && low(step(c, b), k) ==> low(c, k - 1) && (zero(c) ==> !b && zero(step(c, b))))
  }

  lemma StepBack<T(!new)>(step: (T, bool) -> T, zero: T -> bool, low: (T, nat) -> bool, w: nat, c: T, b: bool, k: nat, j: nat)
    requires Invertible(step, zero, low, w) && k == j + 1 <= w && low(step(c, b), k)
    ensures low(c, j) && (zero(c) ==> !b && zero(step(c, b)))
  {
  }

  lemma {:induction false} BurstBack<T(!new)>(step: (T, bool) -> T, zero: T -> bool, low: (T, nat) -> bool, w: nat,
                                              r: T, bits: seq<bool>, p: nat, k: nat)
    requires Invertible(step, zero, low, w) && k <= w && p + w <= |bits| && zero(Fold(step, r, bits, p + w))
    ensures low(Fold(step, r, bits, p + k), k)
    decreases w - k
  {
    if k < w {
      BurstBack(step, zero, low, w, r, bits, p, k + 1);
      StepBack(step, zero, low, w, Fold(step, r, bits, p + k), bits[p + k], k + 1, k);
    }
  }

  lemma {:induction false} BurstForth<T(!new)>(step: (T, bool) -> T, zero: T -> bool, low: (T, nat) -> bool, w: nat,
                                               r: T, bits: seq<bool>, p: nat, k: nat)
    requires Invertible(step, zero, low, w) && k <= w && p + w <= |bits|
    requires zero(Fold(step, r, bits, p)) && zero(Fold(step, r, bits, p + w))
    ensures zero(Fold(step, r, bits, p + k)) && forall i :: p <= i < p + k ==> !bits[i]
    decreases k
  {
    if k > 0 {
      BurstForth(step, zero, low, w, r, bits, p, k - 1);
      BurstBack(step, zero, low, w, r, bits, p, k);
      StepBack(step, zero, low, w, Fold(step, r, bits, p + k - 1), bits[p + k - 1], k, k - 1);
    }
  }

  predicate Confined(d: seq<bool>, p: nat, w: nat) {
    forall i :: 0 <= i < |d| && (i < p || p + w <= i) ==> !d[i]
  }

  /** A nonzero message confined to w consecutive bits leaves a nonzero register. */
  lemma BurstSeen<T(!new)>(step: (T, bool) -> T, zero: T -> bool, low: (T, nat) -> bool, w: nat, r: T, d: seq<bool>, p: nat)
    requires Invertible(step, zero, low, w) && zero(r) && p + w <= |d| && Confined(d, p, w)
    requires exists i :: 0 <= i < |d| && d[i]
    ensures !zero(Fold(step, r, d, |d|))
  {
    FoldZeroBits(step, zero, r, d, 0, p);
    FoldZeroBits(step, zero, r, d, p + w, |d|);
    if zero(Fold(step, r, d, |d|)) {
      BurstForth(step, zero, low, w, r, d, p, w);
    }
  }

  /** Of two messages that differ only within w consecutive bits, at most one leaves the register zero. */
  lemma BurstSeparates<T(!new)>(step: (T, bool) -> T, add: (T, T) -> T, zero: T -> bool, low: (T, nat) -> bool, w: nat,
                                r: T, x: seq<bool>, y: seq<bool>, p: nat)
    requires Linear(step, add) && Invertible(step, zero, low, w) && zero(add(r, r))
    requires forall a, b :: zero(a) && zero(b) ==> zero(add(a, b))
    requires |x| == |y| && p + w <= |x| && (exists i :: 0 <= i < |x| && x[i] != y[i])
    requires forall i :: 0 <= i < |x| && (i < p || p + w <= i) ==> x[i] == y[i]
    ensures !(zero(Fold(step, r, x, |x|)) && zero(Fold(step, r, y, |y|)))
  {
    var d := Difference(x, y);
    FoldLinear(step, add, r, r, x, y, |x|);
    BurstSeen(step, zero, low, w, add(r, r), d, p);
  }
}
