/**
  The BCH(63,56) block code of telecommand (section 3 of CCSDS 231.0-B): a six-bit syndrome,
  which is the remainder on division by x^6 + x + 1, and an overall parity bit.  One flipped
  bit is located and corrected, two are detected.
 */
module Bch {
  import opened ShiftRegisters
  import opened Octets

  // ---- Residues modulo x^6 + x + 1 ----

  datatype Six = Six(a: bool, b: bool, c: bool, d: bool, e: bool, f: bool)

  const NONE := Six(false, false, false, false, false, false)
  const ONE := Six(false, false, false, false, false, true)

  function AddSix(x: Six, y: Six): Six {
    Six(x.a != y.a, x.b != y.b, x.c != y.c, x.d != y.d, x.e != y.e, x.f != y.f)
  }

  /** Shift in a bit at the bottom; a carry out of the top is x^6, which is x + 1. */
  function Shift(s: Six, bit: bool): Six {
    Six(s.b, s.c, s.d, s.e, s.f != s.a, bit != s.a)
  }

  function TimesX(s: Six): Six { Shift(s, false) }

  /** The inverse of TimesX, as the search computes it. */
  function OverX(s: Six): Six {
    Six(s.f, s.a, s.b, s.c, s.d, s.e != s.f)
  }

  function Power(j: nat): Six {
    if j == 0 then ONE else TimesX(Power(j - 1))
  }

  /** The exponent of a nonzero residue as a power of x, below 63. */
  function Log(s: Six): nat {
    if s.a then
      if s.b then
        if s.c then
          if s.d then
            if s.e then
              if s.f then 58 else 57
            else
              if s.f then 59 else 20
          else
            if s.e then
              if s.f then 21 else 42
            else
              if s.f then 60 else 29
        else
          if s.d then
            if s.e then
              if s.f then 43 else 39
            else
              if s.f then 22 else 50
          else
            if s.e then
              if s.f then 30 else 46
            else
              if s.f then 61 else 10
      else
        if s.c then
          if s.d then
            if s.e then
              if s.f then 40 else 55
            else
              if s.f then 44 else 37
          else
            if s.e then
              if s.f then 51 else 53
            else
              if s.f then 23 else 15
        else
          if s.d then
            if s.e then
              if s.f then 47 else 17
            else
              if s.f then 31 else 34
          else
            if s.e then
              if s.f then 11 else 25
            else
              if s.f then 62 else 5
    else
      if s.b then
        if s.c then
          if s.d then
            if s.e then
              if s.f then 56 else 19
            else
              if s.f then 41 else 28
          else
            if s.e then
              if s.f then 38 else 49
            else
              if s.f then 45 else 9
        else
          if s.d then
            if s.e then
              if s.f then 54 else 36
            else
              if s.f then 52 else 14
          else
            if s.e then
              if s.f then 16 else 33
            else
              if s.f then 24 else 4
      else
        if s.c then
          if s.d then
            if s.e then
              if s.f then 18 else 27
            else
              if s.f then 48 else 8
          else
            if s.e then
              if s.f then 35 else 13
            else
              if s.f then 32 else 3
        else
          if s.d then
            if s.e then
              if s.f then 26 else 7
            else
              if s.f then 12 else 2
          else
            if s.e then
              if s.f then 6 else 1
            else
              if s.f then 0 else 0
  }

  lemma LogBefore(s: Six)
    requires s != NONE && s != ONE
    ensures OverX(s) != NONE && TimesX(OverX(s)) == s && 0 < Log(s) < 63 && Log(OverX(s)) == Log(s) - 1
  {
  }

  /** x generates all 63 nonzero residues. */
  lemma {:induction false} LogIsLog(s: Six)
    requires s != NONE
    ensures Log(s) < 63 && Power(Log(s)) == s
    decreases Log(s)
  {
    if s != ONE {
      LogBefore(s);
      LogIsLog(OverX(s));
    }
  }

  lemma LogNext(s: Six)
    requires s != NONE
    ensures TimesX(s) != NONE && Log(TimesX(s)) == if Log(s) == 62 then 0 else Log(s) + 1
  {
  }

  lemma {:induction false} LogOfPower(j: nat)
    requires j < 63
    ensures Power(j) != NONE && Log(Power(j)) == j
  {
    if j > 0 {
      LogOfPower(j - 1);
      LogNext(Power(j - 1));
    }
  }

  // ---- The block ----

  /** Syndrome and overall parity. */
  datatype Check = Check(syndrome: Six, odd: bool)

  const CLEAR := Check(NONE, false)

  function Step(c: Check, bit: bool): Check { Check(Shift(c.syndrome, bit), c.odd != bit) }

  function AddCheck(x: Check, y: Check): Check { Check(AddSix(x.syndrome, y.syndrome), x.odd != y.odd) }

  type Block = b: seq<Octet> | |b| == 8 witness seq(8, _ => Octet(N0, N0))

  function BitAt(block: seq<Octet>, i: nat): bool
    requires i / 8 < |block|
  {
    ByteBits(block[i / 8])[i % 8]
  }

  /** The 63 code bits as the decoder reads them: the seven parity bits are transmitted complemented. */
  function Received(block: Block): (bits: seq<bool>)
    ensures |bits| == 63
  {
    seq(63, i requires 0 <= i < 63 => BitAt(block, i) != (i >= 56))
  }

  function CheckOf(block: Block): Check { Fold(Step, CLEAR, Received(block), 63) }

  predicate Codeword(block: Block) { CheckOf(block) == CLEAR }

  datatype Outcome = Clean | Corrected(bit: nat) | DetectedEven | DetectedOdd

  /** The search loop: position i is tried against `single`, the syndrome of an error there. */
  function Search(s: Six, single: Six, i: nat): Outcome
    decreases 63 - i
  {
    if i >= 63 then DetectedOdd else if s == single then Corrected(i) else Search(s, OverX(single), i + 1)
  }

  function Verdict(c: Check): Outcome {
    if c.syndrome == NONE then (if c.odd then DetectedOdd else Clean)
    else if !c.odd then DetectedEven
    else Search(c.syndrome, Six(true, false, false, false, false, true), 0)
  }

  function FlipBit(o: Octet, k: nat): Octet {
    Octet(Nibble(o.h.a != (k == 0), o.h.b != (k == 1), o.h.c != (k == 2), o.h.d != (k == 3)),
          Nibble(o.l.a != (k == 4), o.l.b != (k == 5), o.l.c != (k == 6), o.l.d != (k == 7)))
  }

  /** The data bytes, with the located bit flipped back if it is a data bit. */
  function Repaired(block: Block, outcome: Outcome): (data: seq<Octet>)
    ensures |data| == 7
  {
    var data := block[..7];
    if outcome.Corrected? && outcome.bit < 56
    then data[outcome.bit / 8 := FlipBit(data[outcome.bit / 8], outcome.bit % 8)]
    else data
  }

  function Decode(block: Block): (Outcome, seq<Octet>) {
    var outcome := Verdict(CheckOf(block));
    (outcome, Repaired(block, outcome))
  }

  /** The first loop of ccsds_bch_decode_block. */
  method ComputeCheck(block: Block) returns (c: Check)
    ensures c == CheckOf(block)
  {
    c := CLEAR;
    for i := 0 to 63
      invariant c == Fold(Step, CLEAR, Received(block), i)
    {
      var bit := BitAt(block, i);
      if i >= 56 {
        bit := !bit;
      }
      c := Step(c, bit);
    }
  }

  /** ccsds_bch_decode_block; the seven data bytes from `at` on are written in place. */
  method DecodeBlock(block: Block, data: array<Octet>, at: nat) returns (outcome: Outcome)
    requires at + 7 <= data.Length
    modifies data
    ensures (outcome, data[at..at + 7]) == Decode(block)
    ensures data[..at] == old(data[..at]) && data[at + 7..] == old(data[at + 7..])
  {
    for i := 0 to 7
      invariant forall j :: 0 <= j < i ==> data[at + j] == block[j]
      invariant forall j :: 0 <= j < data.Length && (j < at || at + 7 <= j) ==> data[j] == old(data[j])
    {
      data[at + i] := block[i];
    }
    assert data[at..at + 7] == block[..7];
    var c := ComputeCheck(block);
    if c.syndrome == NONE {
      return if c.odd then DetectedOdd else Clean;
    }
    if !c.odd {
      return DetectedEven;
    }
    var i, single := 0, Six(true, false, false, false, false, true);
    while i < 63
      invariant 0 <= i <= 63 && data[at..at + 7] == block[..7]
      invariant data[..at] == old(data[..at]) && data[at + 7..] == old(data[at + 7..])
      invariant Verdict(c) == Search(c.syndrome, single, i)
    {
      if c.syndrome == single {
        if i < 56 {
          data[at + i / 8] := FlipBit(data[at + i / 8], i % 8);
        }
        return Corrected(i);
      }
      single := OverX(single);
      i := i + 1;
    }
    return DetectedOdd;
  }

  // ---- What a pattern of errors does to the check ----

  lemma StepIsLinear()
    ensures Linear(Step, AddCheck)
  {
  }

  lemma AddClear(c: Check)
    ensures AddCheck(CLEAR, c) == c && AddCheck(c, c) == CLEAR
  {
  }

  /** The check of a received block is the check of its difference from a codeword. */
  lemma ErrorCheck(v: Block, w: Block)
    requires Codeword(v)
    ensures CheckOf(w) == Fold(Step, CLEAR, Difference(Received(v), Received(w)), 63)
  {
    StepIsLinear();
    FoldLinear(Step, AddCheck, CLEAR, CLEAR, Received(v), Received(w), 63);
    AddClear(CheckOf(w));
    AddClear(CLEAR);
  }

  function Single(i: nat): (e: seq<bool>)
    ensures |e| == 63
  {
    seq(63, j => j == i)
  }

  lemma {:induction false} SingleCheck(i: nat, n: nat)
    requires i < 63 && n <= 63
    ensures Fold(Step, CLEAR, Single(i), n) == if n <= i then CLEAR else Check(Power(n - 1 - i), true)
  {
    if n > 0 {
      SingleCheck(i, n - 1);
    }
  }

  /** `w` differs from `v` in exactly the code bit i. */
  ghost predicate OneFlipped(v: Block, w: Block, i: nat) {
    forall j :: 0 <= j < 63 ==> BitAt(w, j) == (BitAt(v, j) != (j == i))
  }

  lemma OneErrorCheck(v: Block, w: Block, i: nat)
    requires Codeword(v) && i < 63 && OneFlipped(v, w, i)
    ensures CheckOf(w) == Check(Power(62 - i), true)
  {
    ErrorCheck(v, w);
    var d := Difference(Received(v), Received(w));
    assert d == Single(i);
    SingleCheck(i, 63);
  }

  lemma OverXInverse(s: Six)
    ensures OverX(TimesX(s)) == s
  {
  }

  /** The search tries x^(62 - i) at position i, so it stops at the logarithm of the syndrome. */
  lemma {:induction false} SearchFinds(s: Six, i: nat)
    requires s != NONE && i <= 62 - Log(s)
    ensures Search(s, Power(62 - i), i) == Corrected(62 - Log(s))
    decreases 63 - i
  {
    LogIsLog(s);
    LogOfPower(62 - i);
    if i < 62 - Log(s) {
      OverXInverse(Power(62 - i - 1));
      SearchFinds(s, i + 1);
    }
  }

  lemma FirstSingle()
    ensures Power(62) == Six(true, false, false, false, false, true)
  {
    var s := Six(true, false, false, false, false, true);
    LogIsLog(s);
    assert Log(s) == 62;
  }

  /** A nonzero syndrome with odd parity is always located: the search never falls through. */
  lemma SearchNeverFails(c: Check)
    requires c.syndrome != NONE && c.odd
    ensures Log(c.syndrome) <= 62 && Verdict(c) == Corrected(62 - Log(c.syndrome))
  {
    LogIsLog(c.syndrome);
    FirstSingle();
    SearchFinds(c.syndrome, 0);
  }

  lemma FlipBitAt(o: Octet, k: nat, j: nat)
    requires j < 8 && k < 8
    ensures ByteBits(FlipBit(o, k))[j] == (ByteBits(o)[j] != (j == k))
  {
    if j < 4 {
      assert j == 0 || j == 1 || j == 2 || j == 3;
    } else {
      assert j == 4 || j == 5 || j == 6 || j == 7;
    }
  }

  lemma FlippedBack(v: Block, w: Block, i: nat, k: nat)
    requires i < 63 && OneFlipped(v, w, i) && k < 7
    ensures Repaired(w, Corrected(i))[k] == v[k]
  {
    var o := Repaired(w, Corrected(i))[k];
    forall j | 0 <= j < 8 ensures ByteBits(o)[j] == ByteBits(v[k])[j] {
      Position(k, j);
      assert BitAt(w, 8 * k + j) == (BitAt(v, 8 * k + j) != (8 * k + j == i));
      if i < 56 && i / 8 == k {
        FlipBitAt(w[k], i % 8, j);
      }
    }
    assert ByteBits(o) == ByteBits(v[k]);
    OctetBits(o, v[k]);
  }

  lemma Position(k: nat, j: nat)
    requires j < 8
    ensures (8 * k + j) / 8 == k && (8 * k + j) % 8 == j
  {
  }

  /** Flipping any one of the 63 code bits of a codeword is reported as that bit, and the data is restored. */
  lemma SingleErrorCorrected(v: Block, w: Block, i: nat)
    requires Codeword(v) && i < 63 && OneFlipped(v, w, i)
    ensures Decode(w) == (Corrected(i), v[..7])
  {
    OneErrorCheck(v, w, i);
    LogOfPower(62 - i);
    SearchNeverFails(CheckOf(w));
    forall k | 0 <= k < 7 ensures Repaired(w, Corrected(i))[k] == v[k] {
      FlippedBack(v, w, i, k);
    }
    assert Repaired(w, Corrected(i)) == v[..7];
  }

  ghost predicate TwoFlipped(v: Block, w: Block, i: nat, k: nat) {
    forall j :: 0 <= j < 63 ==> BitAt(w, j) == (BitAt(v, j) != (j == i || j == k))
  }

  /** Flipping any two code bits of a codeword is detected. */
  lemma DoubleErrorDetected(v: Block, w: Block, i: nat, k: nat)
    requires Codeword(v) && i < k < 63 && TwoFlipped(v, w, i, k)
    ensures Decode(w).0 == DetectedEven
  {
    ErrorCheck(v, w);
    var d := Difference(Received(v), Received(w));
    assert d == Difference(Single(i), Single(k));
    StepIsLinear();
    FoldLinear(Step, AddCheck, CLEAR, CLEAR, Single(i), Single(k), 63);
    AddClear(CLEAR);
    SingleCheck(i, 63);
    SingleCheck(k, 63);
    LogOfPower(62 - i);
    LogOfPower(62 - k);
    AddDistinct(Power(62 - i), Power(62 - k));
  }

  lemma AddDistinct(x: Six, y: Six)
    requires x != y
    ensures AddSix(x, y) != NONE
  {
  }

  lemma CleanDecodes(v: Block, w: Block)
    requires Codeword(v) && (forall j :: 0 <= j < 63 ==> BitAt(w, j) == BitAt(v, j))
    ensures Decode(w) == (Clean, v[..7])
  {
    assert Received(w) == Received(v);
    forall k | 0 <= k < 7 ensures w[k] == v[k] {
      forall j | 0 <= j < 8 ensures ByteBits(w[k])[j] == ByteBits(v[k])[j] {
        Position(k, j);
        assert BitAt(w, 8 * k + j) == BitAt(v, 8 * k + j);
      }
      assert ByteBits(w[k]) == ByteBits(v[k]);
      OctetBits(w[k], v[k]);
    }
    assert w[..7] == v[..7];
  }

  // ---- The encoder ----

  function Times7(s: Six): Six { TimesX(TimesX(TimesX(TimesX(TimesX(TimesX(TimesX(s))))))) }

  function Weight(s: Six): bool { s.a != (s.b != (s.c != (s.d != (s.e != s.f)))) }

  /** The seven bits that bring a check back to clear: x^7 times the syndrome, plus the generator if the parity asks for it. */
  function Parity(c: Check): (bits: seq<bool>)
    ensures |bits| == 7
  {
    var r := Times7(c.syndrome);
    var more := Weight(r) != c.odd;
    [more, r.a, r.b, r.c, r.d, r.e != more, r.f != more]
  }

  function Step7(c: Check, e: seq<bool>): Check
    requires |e| == 7
  {
    Step(Step(Step(Step(Step(Step(Step(c, e[0]), e[1]), e[2]), e[3]), e[4]), e[5]), e[6])
  }

  lemma ParityClears(c: Check)
    ensures Step7(c, Parity(c)) == CLEAR
  {
  }

  lemma SevenSteps(step: (Check, bool) -> Check, c: Check, e: seq<bool>)
    requires |e| == 7
    ensures Fold(step, c, e, 7) == step(step(step(step(step(step(step(c, e[0]), e[1]), e[2]), e[3]), e[4]), e[5]), e[6])
  {
    assert Fold(step, c, e, 1) == step(c, e[0]);
    assert Fold(step, c, e, 3) == step(step(Fold(step, c, e, 1), e[1]), e[2]);
    assert Fold(step, c, e, 5) == step(step(Fold(step, c, e, 3), e[3]), e[4]);
  }

  function DataBits(data: seq<Octet>): (bits: seq<bool>)
    requires |data| == 7
    ensures |bits| == 56
  {
    seq(56, i requires 0 <= i < 56 => BitAt(data, i))
  }

  function Packed(e: seq<bool>): Octet
    requires |e| == 7
  {
    Octet(Nibble(!e[0], !e[1], !e[2], !e[3]), Nibble(!e[4], !e[5], !e[6], false))
  }

  /** The codeword of seven data bytes: complemented parity bits, then a fill bit 0. */
  function Encode(data: seq<Octet>): Block
    requires |data| == 7
  {
    data + [Packed(Parity(Fold(Step, CLEAR, DataBits(data), 56)))]
  }

  lemma PackedAt(e: seq<bool>, j: nat)
    requires |e| == 7 && j < 7
    ensures ByteBits(Packed(e))[j] == !e[j]
  {
  }

  lemma PackedBits(data: seq<Octet>, e: seq<bool>, last: Octet, block: Block)
    requires |data| == 7 && |e| == 7 && block == data + [last]
    requires forall j :: 0 <= j < 7 ==> ByteBits(last)[j] == !e[j]
    ensures Received(block) == DataBits(data) + e
  {
  }

  /** Every 56-bit word has a codeword that carries it. */
  lemma EncodeIsCodeword(data: seq<Octet>)
    requires |data| == 7
    ensures Codeword(Encode(data)) && Encode(data)[..7] == data
  {
    var bits := DataBits(data);
    var c := Fold(Step, CLEAR, bits, 56);
    var e := Parity(c);
    forall j | 0 <= j < 7 ensures ByteBits(Packed(e))[j] == !e[j] {
      PackedAt(e, j);
    }
    PackedBits(data, e, Packed(e), Encode(data));
    FoldConcat(Step, CLEAR, bits, e, 7);
    SevenSteps(Step, c, e);
    ParityClears(c);
  }

  lemma OnlyZerosClear(e: seq<bool>)
    requires |e| == 7 && Step7(CLEAR, e) == CLEAR
    ensures !e[0] && !e[1] && !e[2] && !e[3] && !e[4] && !e[5] && !e[6]
  {
  }

  lemma {:induction false} ZerosStayClear(d: seq<bool>, n: nat)
    requires n <= |d| && forall i :: 0 <= i < n ==> !d[i]
    ensures Fold(Step, CLEAR, d, n) == CLEAR
  {
    if n > 0 {
      ZerosStayClear(d, n - 1);
    }
  }

  /** And only one: codewords with the same data agree in every code bit. */
  lemma CodewordUnique(v: Block, w: Block)
    requires Codeword(v) && Codeword(w) && v[..7] == w[..7]
    ensures forall j :: 0 <= j < 63 ==> BitAt(v, j) == BitAt(w, j)
  {
    var d := Difference(Received(v), Received(w));
    ErrorCheck(v, w);
    forall j | 0 <= j < 56 ensures !d[j] {
      assert v[j / 8] == v[..7][j / 8] && w[j / 8] == w[..7][j / 8];
    }
    LastSevenZero(d);
    forall j | 0 <= j < 63 ensures BitAt(v, j) == BitAt(w, j) {
      assert !d[j];
    }
  }

  /** The block with one code bit flipped. */
  function Flipped(w: Block, i: nat): Block
    requires i < 63
  {
    w[i / 8 := FlipBit(w[i / 8], i % 8)]
  }

  lemma FlippedDiffers(w: Block, i: nat)
    requires i < 63
    ensures OneFlipped(Flipped(w, i), w, i)
  {
    forall j | 0 <= j < 63 ensures BitAt(w, j) == (BitAt(Flipped(w, i), j) != (j == i)) {
      if j / 8 == i / 8 {
        FlipBitAt(w[i / 8], i % 8, j % 8);
      }
    }
  }

  /** What the verdict says of the check. */
  lemma VerdictMeans(c: Check)
    ensures Verdict(c).Clean? <==> c == CLEAR
    ensures Verdict(c).Corrected? ==> Verdict(c).bit < 63 && c == Check(Power(62 - Verdict(c).bit), true)
  {
    if c.syndrome != NONE && c.odd {
      SearchNeverFails(c);
      LogIsLog(c.syndrome);
    }
  }

  lemma FlipShifts(v: Block, w: Block, i: nat)
    requires i < 63 && OneFlipped(v, w, i)
    ensures AddCheck(CheckOf(v), CheckOf(w)) == Check(Power(62 - i), true)
  {
    StepIsLinear();
    FoldLinear(Step, AddCheck, CLEAR, CLEAR, Received(v), Received(w), 63);
    AddClear(CLEAR);
    assert Difference(Received(v), Received(w)) == Single(i);
    SingleCheck(i, 63);
  }

  /** Whatever was received, flipping the bit that the search locates gives a codeword. */
  lemma LocatedIsCodeword(w: Block, i: nat)
    requires Decode(w).0 == Corrected(i)
    ensures i < 63 && Codeword(Flipped(w, i))
  {
    VerdictMeans(CheckOf(w));
    FlippedDiffers(w, i);
    FlipShifts(Flipped(w, i), w, i);
    SumIsTerm(CheckOf(Flipped(w, i)), CheckOf(w));
  }

  lemma SumIsTerm(x: Check, y: Check)
    requires AddCheck(x, y) == y
    ensures x == CLEAR
  {
  }

  lemma LastSevenZero(d: seq<bool>)
    requires |d| == 63 && (forall j :: 0 <= j < 56 ==> !d[j]) && Fold(Step, CLEAR, d, 63) == CLEAR
    ensures forall j :: 0 <= j < 63 ==> !d[j]
  {
    var a, e := d[..56], d[56..];
    assert a + e == d;
    FoldConcat(Step, CLEAR, a, e, 7);
    ZerosStayClear(a, 56);
    SevenSteps(Step, CLEAR, e);
    OnlyZerosClear(e);
    forall j | 56 <= j < 63 ensures !d[j] {
      assert d[j] == e[j - 56];
      assert j == 56 || j == 57 || j == 58 || j == 59 || j == 60 || j == 61 || j == 62;
    }
  }
}
