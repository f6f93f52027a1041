/** Command link transmission units: a start sequence, BCH code blocks, and a tail sequence. */
module Cltu {
  import opened Octets
  import Bch

  datatype Failure = Invalid | NoSpace | BadBlock

  datatype Outcome = Frame(bytes: seq<Octet>) | Rejected(why: Failure)

  const START0 := Octet(NE, NB)
  const START1 := Octet(N9, N0)
  const C5 := Octet(NC, N5)
  const TAIL: Bch.Block := [C5, C5, C5, C5, C5, C5, C5, Octet(N7, N9)]

  function Count(b: bool): nat { if b then 1 else 0 }

  function Ones4(x: Nibble): nat { Count(x.a) + Count(x.b) + Count(x.c) + Count(x.d) }

  /** The number of bits in which two bytes differ. */
  function Distance(x: Octet, y: Octet): nat { Ones4(Add4(x.h, y.h)) + Ones4(Add4(x.l, y.l)) }

  predicate IsStart(x: Octet, y: Octet) {
    Distance(x, START0) <= 1 && Distance(x, START0) + Distance(y, START1) <= 1
  }

  function BlockAt(cltu: seq<Octet>, k: nat): Bch.Block
    requires 8 * k + 10 <= |cltu|
  {
    cltu[8 * k + 2..8 * k + 10]
  }

  predicate Usable(outcome: Bch.Outcome) { outcome.Clean? || outcome.Corrected? }

  /** A decoder of single blocks. */
  type BlockDecoder = Bch.Block -> (Bch.Outcome, seq<Octet>)

  /** The data of the first n blocks, unless one of them is beyond correction. */
  function DecodeBlocks(decode: BlockDecoder, cltu: seq<Octet>, n: nat): Outcome
    requires 8 * n + 2 <= |cltu|
  {
    if n == 0 then Frame([])
    else
      var before := DecodeBlocks(decode, cltu, n - 1);
      var d := decode(BlockAt(cltu, n - 1));
      if before.Rejected? then before
      else if Usable(d.0) then Frame(before.bytes + d.1) else Rejected(BadBlock)
  }

  predicate WellFormed(cltu: seq<Octet>, maxLen: nat) {
    && 18 <= |cltu| <= maxLen && IsStart(cltu[0], cltu[1]) && (|cltu| - 2) % 8 == 0 && cltu[|cltu| - 8..] == TAIL
  }

  function BlockCount(cltu: seq<Octet>): nat
    requires |cltu| >= 18
  {
    (|cltu| - 2) / 8 - 1
  }

  function Decode(cltu: seq<Octet>, maxLen: nat, capacity: nat): Outcome {
    if !WellFormed(cltu, maxLen) then Rejected(Invalid)
    else if capacity < 7 * BlockCount(cltu) then Rejected(NoSpace)
    else DecodeBlocks(Bch.Decode, cltu, BlockCount(cltu))
  }

  /** The last byte is compared first, then the others in order. */
  method HasTail(cltu: seq<Octet>) returns (yes: bool)
    requires |cltu| >= 8
    ensures yes <==> cltu[|cltu| - 8..] == TAIL
  {
    var tail := |cltu| - 8;
    ghost var end := cltu[tail..];
    if cltu[|cltu| - 1] != TAIL[7] {
      assert end[7] != TAIL[7];
      return false;
    }
    for i := 0 to 7
      invariant forall j :: 0 <= j < i ==> cltu[tail + j] == TAIL[j]
    {
      if cltu[tail + i] != TAIL[i] {
        assert end[i] != TAIL[i];
        return false;
      }
    }
    assert end == TAIL;
    return true;
  }

  lemma {:induction false} RejectedStays(decode: BlockDecoder, cltu: seq<Octet>, k: nat, n: nat)
    requires k <= n && 8 * n + 2 <= |cltu| && DecodeBlocks(decode, cltu, k).Rejected?
    ensures DecodeBlocks(decode, cltu, n) == DecodeBlocks(decode, cltu, k)
    decreases n
  {
    if k < n {
      RejectedStays(decode, cltu, k, n - 1);
    }
  }

  /** ccsds_cltu_decode_message: on success the frame fills the first `len` bytes of the buffer. */
  method DecodeMessage(cltu: seq<Octet>, frame: array<Octet>, maxLen: nat) returns (why: Failure, len: nat, ok: bool)
    modifies frame
    ensures len <= frame.Length && (!ok ==> len == 0)
    ensures (if ok then Frame(frame[..len]) else Rejected(why)) == Decode(cltu, maxLen, frame.Length)
  {
    if |cltu| < 18 || |cltu| > maxLen || !IsStart(cltu[0], cltu[1]) || (|cltu| - 2) % 8 != 0 {
      return Invalid, 0, false;
    }
    var tail := HasTail(cltu);
    if !tail {
      return Invalid, 0, false;
    }
    var count := BlockCount(cltu);
    if frame.Length < 7 * count {
      return NoSpace, 0, false;
    }
    var decoded := DecodeAll(Bch.Decode, cltu, count, frame);
    if !decoded {
      return BadBlock, 0, false;
    }
    return Invalid, 7 * count, true;
  }

  /** The loop over the code blocks; `decode` is what a call of the block decoder does. */
  method DecodeAll(ghost decode: BlockDecoder, cltu: seq<Octet>, count: nat, frame: array<Octet>) returns (ok: bool)
    requires 7 * count <= frame.Length && 8 * count + 2 <= |cltu| && forall b :: decode(b) == Bch.Decode(b)
    modifies frame
    ensures DecodeBlocks(decode, cltu, count) == if ok then Frame(frame[..7 * count]) else Rejected(BadBlock)
  {
    var at := 0;
    for k := 0 to count
      invariant at == 7 * k
      invariant DecodeBlocks(decode, cltu, k) == Frame(frame[..at])
    {
      var usable := DecodeOne(decode, cltu, k, frame, at);
      if !usable {
        RejectedStays(decode, cltu, k + 1, count);
        return false;
      }
      at := at + 7;
    }
    return true;
  }

  method DecodeOne(ghost decode: BlockDecoder, cltu: seq<Octet>, k: nat, frame: array<Octet>, at: nat) returns (usable: bool)
    requires 8 * k + 10 <= |cltu| && at + 7 <= frame.Length && forall b :: decode(b) == Bch.Decode(b)
    requires DecodeBlocks(decode, cltu, k) == Frame(frame[..at])
    modifies frame
    ensures DecodeBlocks(decode, cltu, k + 1) == if usable then Frame(frame[..at + 7]) else Rejected(BadBlock)
  {
    ghost var before := frame[..at];
    var outcome := Bch.DecodeBlock(BlockAt(cltu, k), frame, at);
    NextBlock(decode, cltu, k, before, outcome, frame[at..at + 7]);
    assert frame[..at + 7] == before + frame[at..at + 7];
    usable := Usable(outcome);
  }

  lemma NextBlock(decode: BlockDecoder, cltu: seq<Octet>, k: nat, before: seq<Octet>, outcome: Bch.Outcome, data: seq<Octet>)
    requires 8 * k + 10 <= |cltu| && DecodeBlocks(decode, cltu, k) == Frame(before)
    requires decode(BlockAt(cltu, k)) == (outcome, data)
    ensures DecodeBlocks(decode, cltu, k + 1) == if Usable(outcome) then Frame(before + data) else Rejected(BadBlock)
  {
  }

  // ---- Correction across a whole unit ----

  /** At most one of the 63 code bits differs. */
  ghost predicate NearlyEqual(v: Bch.Block, w: Bch.Block) {
    || (forall j :: 0 <= j < 63 ==> Bch.BitAt(w, j) == Bch.BitAt(v, j))
    || (exists i :: 0 <= i < 63 && Bch.OneFlipped(v, w, i))
  }

  lemma NearlyEqualDecodes(data: seq<Octet>, w: Bch.Block)
    requires |data| == 7 && NearlyEqual(Bch.Encode(data), w)
    ensures Usable(Bch.Decode(w).0) && Bch.Decode(w).1 == data
  {
    var v := Bch.Encode(data);
    Bch.EncodeIsCodeword(data);
    if forall j :: 0 <= j < 63 ==> Bch.BitAt(w, j) == Bch.BitAt(v, j) {
      Bch.CleanDecodes(v, w);
    } else {
      var i :| 0 <= i < 63 && Bch.OneFlipped(v, w, i);
      Bch.SingleErrorCorrected(v, w, i);
    }
  }

  /** A block is usable exactly when it is a codeword or one code bit away from one, and then it yields that word. */
  lemma UsableExactly(w: Bch.Block, data: seq<Octet>)
    requires |data| == 7
    ensures Usable(Bch.Decode(w).0) && Bch.Decode(w).1 == data <==> NearlyEqual(Bch.Encode(data), w)
  {
    if NearlyEqual(Bch.Encode(data), w) {
      NearlyEqualDecodes(data, w);
    } else if Usable(Bch.Decode(w).0) && Bch.Decode(w).1 == data {
      UsableIsNear(w, data);
    }
  }

  lemma UsableIsNear(w: Bch.Block, data: seq<Octet>)
    requires |data| == 7 && Usable(Bch.Decode(w).0) && Bch.Decode(w).1 == data
    ensures NearlyEqual(Bch.Encode(data), w)
  {
    var code := Bch.Encode(data);
    Bch.EncodeIsCodeword(data);
    Bch.VerdictMeans(Bch.CheckOf(w));
    if Bch.Decode(w).0.Clean? {
      Bch.CodewordUnique(w, code);
    } else {
      var i := Bch.Decode(w).0.bit;
      Bch.LocatedIsCodeword(w, i);
      var v := Bch.Flipped(w, i);
      Bch.FlippedDiffers(w, i);
      forall k | 0 <= k < 7 ensures data[k] == v[k] {
        Bch.FlippedBack(v, w, i, k);
      }
      assert v[..7] == data;
      Bch.CodewordUnique(v, code);
      assert Bch.OneFlipped(code, w, i);
    }
  }

  function Payload(words: seq<seq<Octet>>, n: nat): seq<Octet>
    requires n <= |words|
  {
    if n == 0 then [] else Payload(words, n - 1) + words[n - 1]
  }

  /** A received unit: the start off by at most one bit, the tail as sent, and each block off by at most one code bit. */
  ghost predicate ReceivedFrom(words: seq<seq<Octet>>, cltu: seq<Octet>) {
    && |words| >= 1 && (forall k :: 0 <= k < |words| ==> |words[k]| == 7)
    && |cltu| == 8 * |words| + 10 && IsStart(cltu[0], cltu[1]) && cltu[|cltu| - 8..] == TAIL
    && (forall k :: 0 <= k < |words| ==> NearlyEqual(Bch.Encode(words[k]), BlockAt(cltu, k)))
  }

  lemma {:induction false} BlocksDecode(decode: BlockDecoder, words: seq<seq<Octet>>, cltu: seq<Octet>, n: nat)
    requires n <= |words| && 8 * |words| + 2 <= |cltu|
    requires forall k :: 0 <= k < |words| ==> Usable(decode(BlockAt(cltu, k)).0) && decode(BlockAt(cltu, k)).1 == words[k]
    ensures DecodeBlocks(decode, cltu, n) == Frame(Payload(words, n))
  {
    if n > 0 {
      BlocksDecode(decode, words, cltu, n - 1);
    }
  }

  lemma BlocksUsable(words: seq<seq<Octet>>, cltu: seq<Octet>)
    requires ReceivedFrom(words, cltu)
    ensures forall k :: 0 <= k < |words| ==> Usable(Bch.Decode(BlockAt(cltu, k)).0) && Bch.Decode(BlockAt(cltu, k)).1 == words[k]
  {
    forall k | 0 <= k < |words| ensures Usable(Bch.Decode(BlockAt(cltu, k)).0) && Bch.Decode(BlockAt(cltu, k)).1 == words[k] {
      NearlyEqualDecodes(words[k], BlockAt(cltu, k));
    }
  }

  lemma ReceivedWellFormed(words: seq<seq<Octet>>, cltu: seq<Octet>, maxLen: nat)
    requires ReceivedFrom(words, cltu) && |cltu| <= maxLen
    ensures WellFormed(cltu, maxLen) && BlockCount(cltu) == |words|
  {
  }

  /** A unit with at most one flipped bit in each block decodes to the payload that was encoded. */
  lemma CltuCorrects(words: seq<seq<Octet>>, cltu: seq<Octet>, maxLen: nat, capacity: nat)
    requires ReceivedFrom(words, cltu) && |cltu| <= maxLen && 7 * |words| <= capacity
    ensures Decode(cltu, maxLen, capacity) == Frame(Payload(words, |words|))
  {
    ReceivedWellFormed(words, cltu, maxLen);
    BlocksUsable(words, cltu);
    BlocksDecode(Bch.Decode, words, cltu, |words|);
  }

  lemma {:induction false} AllUsable(decode: BlockDecoder, cltu: seq<Octet>, n: nat)
    requires 8 * n + 2 <= |cltu|
    ensures DecodeBlocks(decode, cltu, n).Frame? <==> forall k :: 0 <= k < n ==> Usable(decode(BlockAt(cltu, k)).0)
  {
    if n > 0 {
      AllUsable(decode, cltu, n - 1);
    }
  }

  /** What the blocks of a unit decode to. */
  function Words(cltu: seq<Octet>, n: nat): (words: seq<seq<Octet>>)
    requires 8 * n + 2 <= |cltu|
    ensures |words| == n
  {
    seq(n, k requires 0 <= k < n => Bch.Decode(BlockAt(cltu, k)).1)
  }

  /**
    A unit yields a frame exactly when it fits, its start is off by at most one bit, its tail is
    intact, and each block is at most one code bit away from a codeword.
   */
  lemma CltuAcceptedExactly(cltu: seq<Octet>, maxLen: nat, capacity: nat)
    ensures Decode(cltu, maxLen, capacity).Frame?
       <==> |cltu| <= maxLen && exists words :: ReceivedFrom(words, cltu) && 7 * |words| <= capacity
  {
    if |cltu| <= maxLen && exists words :: ReceivedFrom(words, cltu) && 7 * |words| <= capacity {
      var words :| ReceivedFrom(words, cltu) && 7 * |words| <= capacity;
      CltuCorrects(words, cltu, maxLen, capacity);
    } else if Decode(cltu, maxLen, capacity).Frame? {
      AcceptedReceived(cltu, maxLen, capacity);
    }
  }

  lemma AcceptedReceived(cltu: seq<Octet>, maxLen: nat, capacity: nat)
    requires Decode(cltu, maxLen, capacity).Frame?
    ensures |cltu| >= 18 && ReceivedFrom(Words(cltu, BlockCount(cltu)), cltu)
  {
    var n := BlockCount(cltu);
    var words := Words(cltu, n);
    AllUsable(Bch.Decode, cltu, n);
    forall k | 0 <= k < n ensures |words[k]| == 7 && NearlyEqual(Bch.Encode(words[k]), BlockAt(cltu, k)) {
      UsableExactly(BlockAt(cltu, k), words[k]);
    }
  }

  lemma BadBlockRejects(decode: BlockDecoder, cltu: seq<Octet>, k: nat, n: nat)
    requires k < n && 8 * n + 2 <= |cltu| && !Usable(decode(BlockAt(cltu, k)).0)
    ensures DecodeBlocks(decode, cltu, n) == Rejected(BadBlock)
  {
    if DecodeBlocks(decode, cltu, k).Rejected? {
      RejectedStays(decode, cltu, k, k + 1);
    }
    RejectedStays(decode, cltu, k + 1, n);
    OnlyBadBlocks(decode, cltu, n);
  }

  lemma {:induction false} OnlyBadBlocks(decode: BlockDecoder, cltu: seq<Octet>, n: nat)
    requires 8 * n + 2 <= |cltu|
    ensures DecodeBlocks(decode, cltu, n).Rejected? ==> DecodeBlocks(decode, cltu, n) == Rejected(BadBlock)
  {
    if n > 0 {
      OnlyBadBlocks(decode, cltu, n - 1);
    }
  }

  /** A block with two flipped bits makes the whole unit rejected: no frame is made of it. */
  lemma DoubleErrorRejects(v: Bch.Block, cltu: seq<Octet>, k: nat, i: nat, j: nat, maxLen: nat, capacity: nat)
    requires WellFormed(cltu, maxLen) && k < BlockCount(cltu) && 7 * BlockCount(cltu) <= capacity
    requires Bch.Codeword(v) && i < j < 63 && Bch.TwoFlipped(v, BlockAt(cltu, k), i, j)
    ensures Decode(cltu, maxLen, capacity) == Rejected(BadBlock)
  {
    Bch.DoubleErrorDetected(v, BlockAt(cltu, k), i, j);
    BadBlockRejects(Bch.Decode, cltu, k, BlockCount(cltu));
  }
}
