/**
  File checksums.  `WholeFile` is what each checksum type means for a complete file; the
  incremental state `Checksum` reaches it from updates at arbitrary offsets, either directly
  (modular) or by deferring to a re-read of the stored file (the CRC types).
 */
module CfdpChecksum {
  import opened CfdpTypes

  /** The two library CRC routines, as the per-byte register updates they iterate. */
  datatype CrcLibrary = CrcLibrary(crc32c: (u32, byte) -> u32, ieee: (u32, byte) -> u32)

  /** Running a CRC register over data[lo..hi]. */
  function Fold(step: (u32, byte) -> u32, seed: u32, data: seq<byte>, lo: nat, hi: nat): u32
    requires hi <= |data|
  {
    if lo >= hi then seed else step(Fold(step, seed, data, lo, hi - 1), data[hi - 1])
  }

  function Complement32(x: u32): u32 { 0xffff_ffff - x }

  function ByteAt(data: seq<byte>, i: nat): byte {
    if i < |data| then data[i] else 0
  }

  /** The value of a byte in the lane of its big-endian 32-bit word. */
  function Weighted(b: byte, offset: nat): nat {
    var lane := offset % 4;
    if lane == 0 then b * 0x100_0000 else if lane == 1 then b * 0x1_0000 else if lane == 2 then b * 0x100 else b
  }

  /** The untruncated modular sum of data[lo..hi] when data[0] sits at file position `base`. */
  function LaneSum(base: nat, data: seq<byte>, lo: nat, hi: nat): nat {
    if lo >= hi then 0 else LaneSum(base, data, lo, hi - 1) + Weighted(ByteAt(data, hi - 1), base + hi - 1)
  }

  /** The big-endian word at byte position `at`, reading zeros past the end of the file. */
  function WordAt(file: seq<byte>, at: nat): nat {
    ByteAt(file, at) as int * 0x100_0000 + ByteAt(file, at + 1) as int * 0x1_0000
    + ByteAt(file, at + 2) as int * 0x100 + ByteAt(file, at + 3)
  }

  /** The sum of the first `words` big-endian words of a file, zero-padded to whole words. */
  function WordSum(file: seq<byte>, words: nat): nat {
    if words == 0 then 0 else WordSum(file, words - 1) + WordAt(file, 4 * (words - 1))
  }

  function ModularSum(file: seq<byte>): u32 {
    WordSum(file, (|file| + 3) / 4) % U32
  }

  /** The checksum of a complete file. */
  function WholeFile(lib: CrcLibrary, kind: ChecksumType, file: seq<byte>): u32 {
    match kind
    case Modular => ModularSum(file)
    case Crc32c => if file == [] then 0 else Complement32(Fold(lib.crc32c, 0xffff_ffff, file, 0, |file|))
    case Ieee8023 => Fold(lib.ieee, 0, file, 0, |file|)
    case NullChecksum => 0
    case OtherChecksum(_) => 0
  }

  predicate Supported(kind: ChecksumType) {
    !kind.OtherChecksum?
  }

  predicate IsCrc(kind: ChecksumType) {
    kind.Crc32c? || kind.Ieee8023?
  }

  /** The fields of ccsds_cfdp_checksum_state_t. */
  datatype Checksum = Checksum(kind: ChecksumType, value: u32, nextOffset: nat, crcStarted: bool, deferred: bool)

  function Init(kind: ChecksumType): Checksum {
    Checksum(kind, 0, 0, false, false)
  }

  predicate UpdateRangeValid(offset: nat, len: nat) {
    len <= 1 || len - 1 <= U32 - 1 - offset
  }

  /** One update at a file offset. */
  function Update(lib: CrcLibrary, c: Checksum, offset: nat, data: seq<byte>): Result<Checksum> {
    if !Supported(c.kind) then Err(UnsupportedChecksum)
    else if data == [] then Ok(c)
    else if !UpdateRangeValid(offset, |data|) then Err(InvalidArgument)
    else match c.kind
    case Modular => Ok(c.(value := (c.value + LaneSum(offset, data, 0, |data|)) % U32))
    case Crc32c =>
      if offset != c.nextOffset then Ok(c.(deferred := true))
      else if c.deferred then Ok(c)
      else Ok(c.(value := Fold(lib.crc32c, if c.crcStarted then c.value else 0xffff_ffff, data, 0, |data|),
                 nextOffset := (c.nextOffset + |data|) % U32, crcStarted := true))
    case Ieee8023 =>
      if offset != c.nextOffset then Ok(c.(deferred := true))
      else if c.deferred then Ok(c)
      else Ok(c.(value := Fold(lib.ieee, c.value, data, 0, |data|), nextOffset := (c.nextOffset + |data|) % U32))
    case _ => Ok(c)
  }

  function Finish(c: Checksum): Result<u32> {
    match c.kind
    case OtherChecksum(_) => Err(UnsupportedChecksum)
    case NullChecksum => Ok(0)
    case Modular => Ok(c.value)
    case Crc32c =>
      if c.deferred then Err(InvalidArgument)
      else Ok(if c.crcStarted then Complement32(c.value) else 0)
    case Ieee8023 => if c.deferred then Err(InvalidArgument) else Ok(c.value)
  }

  lemma ModularAdd(a: nat, b: nat)
    ensures (a % U32 + b) % U32 == (a + b) % U32
  {
  }

  lemma WeightedWraps(b: byte, offset: nat)
    ensures Weighted(b, offset % U32) == Weighted(b, offset)
  {
  }

  /** The caller-owned running state, updated in place as segments arrive. */
  class RunningChecksum {
    var kind: ChecksumType
    var value: u32
    var nextOffset: nat
    var crcStarted: bool
    var deferred: bool

    function View(): Checksum
      reads this
    {
      Checksum(kind, value, nextOffset, crcStarted, deferred)
    }

    constructor (kind: ChecksumType)
      ensures View() == Init(kind)
    {
      this.kind, value, nextOffset, crcStarted, deferred := kind, 0, 0, false, false;
    }

    /** Accumulates a segment byte by byte into the lane of its file offset, in 32-bit arithmetic. */
    method AddLanes(offset: nat, data: seq<byte>)
      modifies this`value
      ensures value == (old(value) + LaneSum(offset, data, 0, |data|)) % U32
    {
      for i := 0 to |data|
        invariant value == (old(value) + LaneSum(offset, data, 0, i)) % U32
      {
        var lane := Weighted(data[i], (offset + i) % U32);
        WeightedWraps(data[i], offset + i);
        ModularAdd(old(value) + LaneSum(offset, data, 0, i), lane);
        value := (value + lane) % U32;
      }
    }

    method Accept(lib: CrcLibrary, offset: nat, data: seq<byte>) returns (status: Status)
      modifies this
      ensures var spec := Update(lib, old(View()), offset, data);
              if spec.Ok? then status == OK && View() == spec.value
              else status == spec.status && View() == old(View())
    {
      if !Supported(kind) {
        return UnsupportedChecksum;
      }
      if data == [] {
        return OK;
      }
      if !UpdateRangeValid(offset, |data|) {
        return InvalidArgument;
      }
      match kind {
        case Modular =>
          AddLanes(offset, data);
        case Crc32c =>
          if offset != nextOffset {
            deferred := true;
          } else if !deferred {
            value := Fold(lib.crc32c, if crcStarted then value else 0xffff_ffff, data, 0, |data|);
            nextOffset := (nextOffset + |data|) % U32;
            crcStarted := true;
          }
        case Ieee8023 =>
          if offset != nextOffset {
            deferred := true;
          } else if !deferred {
            value := Fold(lib.ieee, value, data, 0, |data|);
            nextOffset := (nextOffset + |data|) % U32;
          }
        case _ =>
      }
      return OK;
    }
  }

  // ---- Sums and folds over a file, cut at a position ----

  lemma {:induction false} LaneSumSplit(file: seq<byte>, lo: nat, mid: nat, hi: nat)
    requires lo <= mid <= hi
    ensures LaneSum(0, file, lo, hi) == LaneSum(0, file, lo, mid) + LaneSum(0, file, mid, hi)
    decreases hi
  {
    if mid < hi { LaneSumSplit(file, lo, mid, hi - 1); }
  }

  lemma {:induction false} LaneSumShift(file: seq<byte>, at: nat, data: seq<byte>, k: nat)
    requires k <= |data| && at + |data| <= |file| && data == file[at..at + |data|]
    ensures LaneSum(at, data, 0, k) == LaneSum(0, file, at, at + k)
  {
    if k > 0 { LaneSumShift(file, at, data, k - 1); }
  }

  lemma {:induction false} FoldSplit(step: (u32, byte) -> u32, seed: u32, file: seq<byte>, mid: nat, hi: nat)
    requires mid <= hi <= |file|
    ensures Fold(step, seed, file, 0, hi) == Fold(step, Fold(step, seed, file, 0, mid), file, mid, hi)
    decreases hi
  {
    if mid < hi { FoldSplit(step, seed, file, mid, hi - 1); }
  }

  lemma {:induction false} FoldShift(step: (u32, byte) -> u32, seed: u32, file: seq<byte>, at: nat, data: seq<byte>, k: nat)
    requires k <= |data| && at + |data| <= |file| && data == file[at..at + |data|]
    ensures Fold(step, seed, data, 0, k) == Fold(step, seed, file, at, at + k)
  {
    if k > 0 { FoldShift(step, seed, file, at, data, k - 1); }
  }

  lemma FoldExtend(step: (u32, byte) -> u32, seed: u32, file: seq<byte>, at: nat, data: seq<byte>)
    requires at + |data| <= |file| && data == file[at..at + |data|]
    ensures Fold(step, seed, file, 0, at + |data|) == Fold(step, Fold(step, seed, file, 0, at), data, 0, |data|)
  {
    FoldSplit(step, seed, file, at, at + |data|);
    FoldShift(step, Fold(step, seed, file, 0, at), file, at, data, |data|);
  }

  // ---- Modular sum: the lane-by-lane sum is the sum of big-endian words ----

  lemma LaneSumWord(file: seq<byte>, words: nat)
    ensures LaneSum(0, file, 0, 4 * words + 4) == LaneSum(0, file, 0, 4 * words) + WordAt(file, 4 * words)
  {
    var n := 4 * words;
    assert LaneSum(0, file, 0, n + 1) == LaneSum(0, file, 0, n) + Weighted(ByteAt(file, n), n);
    assert LaneSum(0, file, 0, n + 2) == LaneSum(0, file, 0, n + 1) + Weighted(ByteAt(file, n + 1), n + 1);
    assert LaneSum(0, file, 0, n + 3) == LaneSum(0, file, 0, n + 2) + Weighted(ByteAt(file, n + 2), n + 2);
  }

  lemma {:induction false} LaneSumWords(file: seq<byte>, words: nat)
    ensures LaneSum(0, file, 0, 4 * words) == WordSum(file, words)
  {
    if words > 0 {
      LaneSumWords(file, words - 1);
      LaneSumWord(file, words - 1);
    }
  }

  lemma {:induction false} LaneSumPadding(file: seq<byte>, n: nat)
    requires n >= |file|
    ensures LaneSum(0, file, 0, n) == LaneSum(0, file, 0, |file|)
  {
    if n > |file| { LaneSumPadding(file, n - 1); }
  }

  /** The lane sum of a whole file is the sum of its zero-padded big-endian words. */
  lemma LaneSumIsWordSum(file: seq<byte>)
    ensures LaneSum(0, file, 0, |file|) % U32 == ModularSum(file)
  {
    var words := (|file| + 3) / 4;
    LaneSumWords(file, words);
    LaneSumPadding(file, 4 * words);
  }

  // ---- Any partition of a file, in any order ----

  datatype Segment = Segment(offset: nat, len: nat)

  predicate InFile(g: Segment, file: seq<byte>) {
    g.len > 0 && g.offset + g.len <= |file|
  }

  predicate Touches(g: Segment, x: int) {
    g.offset <= x < g.offset + g.len
  }

  predicate Disjoint(g: Segment, h: Segment) {
    g.offset + g.len <= h.offset || h.offset + h.len <= g.offset
  }

  ghost predicate TouchedBy(gs: seq<Segment>, x: int) {
    exists i :: 0 <= i < |gs| && Touches(gs[i], x)
  }

  /** Segments that hold every byte of the file exactly once, in some order. */
  ghost predicate Partition(gs: seq<Segment>, file: seq<byte>) {
    && (forall i :: 0 <= i < |gs| ==> InFile(gs[i], file))
    && (forall i, j :: 0 <= i < j < |gs| ==> Disjoint(gs[i], gs[j]))
    && (forall x :: 0 <= x < |file| ==> TouchedBy(gs, x))
  }

  /** The lane sum of those of the first n bytes that some segment holds. */
  ghost function MaskedSum(gs: seq<Segment>, file: seq<byte>, n: nat): nat {
    if n == 0 then 0
    else MaskedSum(gs, file, n - 1) + if TouchedBy(gs, n - 1) then Weighted(ByteAt(file, n - 1), n - 1) else 0
  }

  function SegmentData(g: Segment, file: seq<byte>): seq<byte>
    requires InFile(g, file)
  {
    file[g.offset..g.offset + g.len]
  }

  function Clip(n: int, lo: int, hi: int): int {
    if n < lo then lo else if n > hi then hi else n
  }

  lemma TouchedByAppend(gs: seq<Segment>, g: Segment, x: int)
    ensures TouchedBy(gs + [g], x) <==> TouchedBy(gs, x) || Touches(g, x)
  {
    var all := gs + [g];
    assert all[|gs|] == g;
    if TouchedBy(gs, x) {
      var i :| 0 <= i < |gs| && Touches(gs[i], x);
      assert all[i] == gs[i];
    }
  }

  lemma {:induction false} MaskedSumAppend(gs: seq<Segment>, g: Segment, file: seq<byte>, n: nat)
    requires forall i :: 0 <= i < |gs| ==> Disjoint(gs[i], g)
    ensures MaskedSum(gs + [g], file, n)
         == MaskedSum(gs, file, n) + LaneSum(0, file, g.offset, Clip(n, g.offset, g.offset + g.len))
  {
    if n > 0 {
      MaskedSumAppend(gs, g, file, n - 1);
      TouchedByAppend(gs, g, n - 1);
      assert Touches(g, n - 1) ==> !TouchedBy(gs, n - 1);
    }
  }

  lemma {:induction false} MaskedSumNone(file: seq<byte>, n: nat)
    ensures MaskedSum([], file, n) == 0
  {
    if n > 0 { MaskedSumNone(file, n - 1); }
  }

  lemma {:induction false} MaskedSumAll(gs: seq<Segment>, file: seq<byte>, n: nat)
    requires forall x :: 0 <= x < n ==> TouchedBy(gs, x)
    ensures MaskedSum(gs, file, n) == LaneSum(0, file, 0, n)
  {
    if n > 0 { MaskedSumAll(gs, file, n - 1); }
  }

  /** Feeding the first n segments of a file to `Update` in the given order. */
  function UpdateAll(lib: CrcLibrary, kind: ChecksumType, gs: seq<Segment>, n: nat, file: seq<byte>): Result<Checksum>
    requires n <= |gs| && forall i :: 0 <= i < |gs| ==> InFile(gs[i], file)
  {
    if n == 0 then Ok(Init(kind))
    else
      var before := UpdateAll(lib, kind, gs, n - 1, file);
      if before.Err? then before
      else Update(lib, before.value, gs[n - 1].offset, SegmentData(gs[n - 1], file))
  }

  function ModularState(sum: nat): Checksum {
    Checksum(Modular, sum % U32, 0, false, false)
  }

  /** The untruncated modular sum of one segment of a file. */
  function Lanes(g: Segment, file: seq<byte>): nat { LaneSum(0, file, g.offset, g.offset + g.len) }

  lemma ModularUpdate(lib: CrcLibrary, sum: nat, g: Segment, file: seq<byte>)
    requires |file| < U32 && InFile(g, file)
    ensures Update(lib, ModularState(sum), g.offset, SegmentData(g, file))
         == Ok(ModularState(sum + Lanes(g, file)))
  {
    SliceLanes(file, g.offset, SegmentData(g, file));
    ModularAddLanes(lib, ModularState(sum), sum, g.offset, SegmentData(g, file));
  }

  lemma SliceLanes(file: seq<byte>, at: nat, data: seq<byte>)
    requires at + |data| <= |file| && data == file[at..at + |data|]
    ensures LaneSum(at, data, 0, |data|) == LaneSum(0, file, at, at + |data|)
  {
    LaneSumShift(file, at, data, |data|);
  }

  lemma ModularAddLanes(lib: CrcLibrary, c: Checksum, sum: nat, offset: nat, data: seq<byte>)
    requires 0 < |data| && offset + |data| <= U32 && c == ModularState(sum)
    ensures Update(lib, c, offset, data) == Ok(ModularState(sum + LaneSum(offset, data, 0, |data|)))
  {
    ModularAdd(sum, LaneSum(offset, data, 0, |data|));
    assert UpdateRangeValid(offset, |data|);
  }

  function SegmentSum(gs: seq<Segment>, n: nat, file: seq<byte>): nat
    requires n <= |gs|
  {
    if n == 0 then 0
    else SegmentSum(gs, n - 1, file) + Lanes(gs[n - 1], file)
  }

  lemma {:induction false} ModularUpdates(lib: CrcLibrary, gs: seq<Segment>, n: nat, file: seq<byte>)
    requires |file| < U32 && n <= |gs|
    requires forall i :: 0 <= i < |gs| ==> InFile(gs[i], file)
    ensures UpdateAll(lib, Modular, gs, n, file) == Ok(ModularState(SegmentSum(gs, n, file)))
  {
    if n > 0 {
      ModularUpdates(lib, gs, n - 1, file);
      ModularUpdatesStep(lib, gs, n, file, SegmentSum(gs, n - 1, file), SegmentSum(gs, n, file));
    }
  }

  lemma ModularUpdatesStep(lib: CrcLibrary, gs: seq<Segment>, n: nat, file: seq<byte>, sum: nat, next: nat)
    requires |file| < U32 && 0 < n <= |gs| && forall i :: 0 <= i < |gs| ==> InFile(gs[i], file)
    requires UpdateAll(lib, Modular, gs, n - 1, file) == Ok(ModularState(sum))
    requires next == sum + Lanes(gs[n - 1], file)
    ensures UpdateAll(lib, Modular, gs, n, file) == Ok(ModularState(next))
  {
    UpdateAllStep(lib, Modular, gs, n, file, ModularState(sum));
    ModularUpdate(lib, sum, gs[n - 1], file);
  }

  lemma UpdateAllStep(lib: CrcLibrary, kind: ChecksumType, gs: seq<Segment>, n: nat, file: seq<byte>, before: Checksum)
    requires 0 < n <= |gs| && forall i :: 0 <= i < |gs| ==> InFile(gs[i], file)
    requires UpdateAll(lib, kind, gs, n - 1, file) == Ok(before)
    ensures UpdateAll(lib, kind, gs, n, file)
         == Update(lib, before, gs[n - 1].offset, SegmentData(gs[n - 1], file))
  {
  }

  lemma {:induction false} SegmentSumMasked(gs: seq<Segment>, n: nat, file: seq<byte>)
    requires n <= |gs|
    requires forall i :: 0 <= i < |gs| ==> InFile(gs[i], file)
    requires forall i, j :: 0 <= i < j < |gs| ==> Disjoint(gs[i], gs[j])
    ensures SegmentSum(gs, n, file) == MaskedSum(gs[..n], file, |file|)
  {
    if n == 0 {
      MaskedSumNone(file, |file|);
      assert gs[..0] == [];
    } else {
      SegmentSumMasked(gs, n - 1, file);
      assert gs[..n] == gs[..n - 1] + [gs[n - 1]];
      MaskedSumAppend(gs[..n - 1], gs[n - 1], file, |file|);
    }
  }

  lemma PartitionSum(lib: CrcLibrary, gs: seq<Segment>, file: seq<byte>)
    requires Partition(gs, file)
    ensures SegmentSum(gs, |gs|, file) % U32 == WholeFile(lib, Modular, file)
  {
    SegmentSumMasked(gs, |gs|, file);
    assert gs[..|gs|] == gs;
    MaskedSumAll(gs, file, |file|);
    LaneSumIsWordSum(file);
  }

  /** For every partition of a file and every order, the modular checksum is that of the whole file. */
  lemma ModularOrderIndependent(lib: CrcLibrary, gs: seq<Segment>, file: seq<byte>)
    requires |file| < U32 && Partition(gs, file)
    ensures UpdateAll(lib, Modular, gs, |gs|, file).Ok?
    ensures Finish(UpdateAll(lib, Modular, gs, |gs|, file).value) == Ok(WholeFile(lib, Modular, file))
  {
    ModularUpdates(lib, gs, |gs|, file);
    PartitionSum(lib, gs, file);
  }

  lemma {:induction false} SegmentSumPrefix(gs: seq<Segment>, more: seq<Segment>, n: nat, file: seq<byte>)
    requires n <= |gs|
    ensures SegmentSum(gs + more, n, file) == SegmentSum(gs, n, file)
  {
    if n > 0 {
      SegmentSumPrefix(gs, more, n - 1, file);
    }
  }

  lemma {:induction false} SegmentSumConcat(gs: seq<Segment>, more: seq<Segment>, n: nat, file: seq<byte>)
    requires n <= |more|
    ensures SegmentSum(gs + more, |gs| + n, file) == SegmentSum(gs, |gs|, file) + SegmentSum(more, n, file)
  {
    if n == 0 {
      SegmentSumPrefix(gs, more, |gs|, file);
    } else {
      SegmentSumConcat(gs, more, n - 1, file);
      assert (gs + more)[|gs| + n - 1] == more[n - 1];
    }
  }

  /** Adding to a running sum leaves its value in place exactly when a multiple of the modulus is added. */
  lemma SameResidue(sum: nat, more: nat)
    ensures (sum + more) % U32 == sum % U32 <==> more % U32 == 0
    ensures ModularState(sum + more) == ModularState(sum) <==> more % U32 == 0
    ensures Finish(ModularState(sum + more)) == Ok(sum % U32) <==> more % U32 == 0
  {
    ResidueStays(sum, more);
    assert Finish(ModularState(sum + more)) == Ok((sum + more) % U32);
  }

  lemma ResidueStays(sum: nat, more: nat)
    ensures (sum + more) % U32 == sum % U32 <==> more % U32 == 0
  {
  }

  lemma ConcatUpdates(lib: CrcLibrary, gs: seq<Segment>, more: seq<Segment>, file: seq<byte>)
    requires |file| < U32
    requires forall i :: 0 <= i < |gs + more| ==> InFile((gs + more)[i], file)
    ensures UpdateAll(lib, Modular, gs + more, |gs + more|, file)
         == Ok(ModularState(SegmentSum(gs, |gs|, file) + SegmentSum(more, |more|, file)))
  {
    ModularUpdates(lib, gs + more, |gs + more|, file);
    SegmentSumConcat(gs, more, |more|, file);
  }

  lemma SingleSum(g: Segment, file: seq<byte>)
    ensures SegmentSum([g], 1, file) == Lanes(g, file)
  {
    assert SegmentSum([g], 1, file) == SegmentSum([g], 0, file) + Lanes(g, file);
  }

  /** One more segment, repeated or not, leaves the running value alone exactly when its lane sum is 0 modulo 2^32. */
  lemma SegmentChangesNothingExactly(lib: CrcLibrary, gs: seq<Segment>, g: Segment, file: seq<byte>)
    requires |file| < U32 && InFile(g, file) && forall i :: 0 <= i < |gs| ==> InFile(gs[i], file)
    ensures UpdateAll(lib, Modular, gs + [g], |gs + [g]|, file) == UpdateAll(lib, Modular, gs, |gs|, file)
       <==> Lanes(g, file) % U32 == 0
  {
    ModularUpdates(lib, gs, |gs|, file);
    ConcatUpdates(lib, gs, [g], file);
    SingleSum(g, file);
    SameResidue(SegmentSum(gs, |gs|, file), Lanes(g, file));
  }

  /**
    A partition of a file and any surplus of segments, repeated or overlapping: the modular
    checksum is that of the file exactly when the surplus lane sum is 0 modulo 2^32.
   */
  lemma SurplusMiscountsExactly(lib: CrcLibrary, gs: seq<Segment>, surplus: seq<Segment>, file: seq<byte>)
    requires |file| < U32 && Partition(gs, file) && forall i :: 0 <= i < |surplus| ==> InFile(surplus[i], file)
    ensures var all := gs + surplus;
            && UpdateAll(lib, Modular, all, |all|, file).Ok?
            && (Finish(UpdateAll(lib, Modular, all, |all|, file).value) == Ok(WholeFile(lib, Modular, file))
                <==> SegmentSum(surplus, |surplus|, file) % U32 == 0)
  {
    ConcatUpdates(lib, gs, surplus, file);
    PartitionSum(lib, gs, file);
    SameResidue(SegmentSum(gs, |gs|, file), SegmentSum(surplus, |surplus|, file));
  }

  /** For instance, the one-byte file 1 held twice. */
  lemma DuplicateSegmentMiscounts(lib: CrcLibrary)
    ensures var file: seq<byte>, gs := [1], [Segment(0, 1), Segment(0, 1)];
            UpdateAll(lib, Modular, gs, 2, file).Ok?
            && Finish(UpdateAll(lib, Modular, gs, 2, file).value) != Ok(WholeFile(lib, Modular, file))
  {
    var file: seq<byte>, g := [1], Segment(0, 1);
    assert forall x :: 0 <= x < 1 ==> Touches([g][0], x);
    assert LaneSum(0, file, 0, 1) == LaneSum(0, file, 0, 0) + 0x100_0000;
    assert SegmentSum([g], 1, file) == SegmentSum([g], 0, file) + Lanes(g, file);
    SurplusMiscountsExactly(lib, [g], [g], file);
    assert [g] + [g] == [g, g];
  }

  // ---- The CRC types ----

  /** What every update history consistent with a file keeps true of a CRC state. */
  predicate CrcInvariant(lib: CrcLibrary, c: Checksum, file: seq<byte>) {
    && c.nextOffset <= |file|
    && (c.kind == Crc32c ==>
          && (c.crcStarted <==> c.nextOffset > 0)
          && (c.crcStarted ==> c.value == Fold(lib.crc32c, 0xffff_ffff, file, 0, c.nextOffset)))
    && (c.kind == Ieee8023 ==> c.value == Fold(lib.ieee, 0, file, 0, c.nextOffset))
  }

  lemma CrcInvariantKept(lib: CrcLibrary, c: Checksum, g: Segment, file: seq<byte>)
    requires |file| < U32 && IsCrc(c.kind) && InFile(g, file)
    requires CrcInvariant(lib, c, file)
    ensures Update(lib, c, g.offset, SegmentData(g, file)).Ok?
    ensures Update(lib, c, g.offset, SegmentData(g, file)).value.kind == c.kind
    ensures CrcInvariant(lib, Update(lib, c, g.offset, SegmentData(g, file)).value, file)
  {
    if g.offset == c.nextOffset && !c.deferred {
      FoldExtend(lib.crc32c, 0xffff_ffff, file, g.offset, SegmentData(g, file));
      FoldExtend(lib.ieee, 0, file, g.offset, SegmentData(g, file));
    }
  }

  lemma {:induction false} CrcHistory(lib: CrcLibrary, kind: ChecksumType, gs: seq<Segment>, n: nat, file: seq<byte>)
    requires |file| < U32 && IsCrc(kind) && n <= |gs|
    requires forall i :: 0 <= i < |gs| ==> InFile(gs[i], file)
    ensures UpdateAll(lib, kind, gs, n, file).Ok?
    ensures UpdateAll(lib, kind, gs, n, file).value.kind == kind
    ensures CrcInvariant(lib, UpdateAll(lib, kind, gs, n, file).value, file)
  {
    if n > 0 {
      CrcHistory(lib, kind, gs, n - 1, file);
      CrcInvariantKept(lib, UpdateAll(lib, kind, gs, n - 1, file).value, gs[n - 1], file);
    }
  }

  // ---- Re-reading the stored file ----

  /** How a filestore answers a read at an offset: a count, possibly short, or a refusal. */
  type Reader = (nat, nat) -> Result<nat>

  function Request(size: nat, offset: nat, chunk: nat): nat
    requires offset <= size
  {
    if size - offset < chunk then size - offset else chunk
  }

  /** Whether the chunked reads from `offset` to `size` all succeed. */
  function ReadsFrom(size: nat, chunk: nat, read: Reader, shortRead: Failure, offset: nat): Result<()>
    requires offset <= size
    decreases size - offset
  {
    if offset == size then Ok(())
    else
      var got := read(offset, Request(size, offset, chunk));
      if got.Err? then Err(got.status)
      else if got.value == 0 || got.value > Request(size, offset, chunk) then Err(shortRead)
      else ReadsFrom(size, chunk, read, shortRead, offset + got.value)
  }

  /** Specification of the chunked re-read: the whole-file checksum, unless a read fails. */
  function ReadBack(lib: CrcLibrary, kind: ChecksumType, file: seq<byte>, chunk: nat, read: Reader, shortRead: Failure)
    : Result<u32>
  {
    if !Supported(kind) then Err(UnsupportedChecksum)
    else
      var outcome := ReadsFrom(|file|, chunk, read, shortRead, 0);
      if outcome.Err? then Err(outcome.status) else Ok(WholeFile(lib, kind, file))
  }

  /** The state reached by feeding exactly the first n bytes of a file, in order. */
  function PrefixState(lib: CrcLibrary, kind: ChecksumType, file: seq<byte>, n: nat): Checksum
    requires n <= |file|
  {
    match kind
    case Modular => ModularState(LaneSum(0, file, 0, n))
    case Crc32c =>
      Checksum(kind, if n == 0 then 0 else Fold(lib.crc32c, 0xffff_ffff, file, 0, n), n, n > 0, false)
    case Ieee8023 => Checksum(kind, Fold(lib.ieee, 0, file, 0, n), n, false, false)
    case _ => Init(kind)
  }

  lemma PrefixStep(lib: CrcLibrary, kind: ChecksumType, file: seq<byte>, n: nat, data: seq<byte>)
    requires Supported(kind)
    requires data != [] && n + |data| <= |file| < U32 && data == file[n..n + |data|]
    ensures Update(lib, PrefixState(lib, kind, file, n), n, data) == Ok(PrefixState(lib, kind, file, n + |data|))
  {
    match kind {
      case Modular =>
        LaneSumSplit(file, 0, n, n + |data|);
        ModularUpdate(lib, LaneSum(0, file, 0, n), Segment(n, |data|), file);
      case Crc32c =>
        FoldExtend(lib.crc32c, 0xffff_ffff, file, n, data);
      case Ieee8023 =>
        FoldExtend(lib.ieee, 0, file, n, data);
      case NullChecksum =>
    }
  }

  lemma PrefixDone(lib: CrcLibrary, kind: ChecksumType, file: seq<byte>)
    requires Supported(kind)
    ensures Finish(PrefixState(lib, kind, file, |file|)) == Ok(WholeFile(lib, kind, file))
  {
    LaneSumIsWordSum(file);
  }

  /**
    The loop of receiver_compute_checksum and of finish_file: reading the stored file in
    chunks no longer than `chunk`.  The only outcomes are the checksum of the whole file,
    however the reads were cut, or the failure of some read.
   */
  method ComputeChecksum(lib: CrcLibrary, kind: ChecksumType, file: seq<byte>, chunk: nat, read: Reader,
                         shortRead: Failure)
    returns (r: Result<u32>)
    requires |file| < U32
    ensures r == ReadBack(lib, kind, file, chunk, read, shortRead)
  {
    if !Supported(kind) {
      return Err(UnsupportedChecksum);
    }
    var c := Init(kind);
    var offset := 0;
    while offset < |file|
      invariant offset <= |file|
      invariant c == PrefixState(lib, kind, file, offset)
      invariant ReadsFrom(|file|, chunk, read, shortRead, 0) == ReadsFrom(|file|, chunk, read, shortRead, offset)
    {
      var request := Request(|file|, offset, chunk);
      var got := read(offset, request);
      if got.Err? {
        return Err(got.status);
      }
      if got.value == 0 || got.value > request {
        return Err(shortRead);
      }
      var data := file[offset..offset + got.value];
      PrefixStep(lib, kind, file, offset, data);
      c := Update(lib, c, offset, data).value;
      offset := offset + |data|;
    }
    PrefixDone(lib, kind, file);
    r := Finish(c);
  }

  function FinishFileSpec(lib: CrcLibrary, c: Checksum, file: seq<byte>, chunk: nat, read: Reader): Result<u32> {
    if !Supported(c.kind) then Err(UnsupportedChecksum)
    else if !IsCrc(c.kind) || (!c.deferred && c.nextOffset == |file|) then Finish(c)
    else ReadBack(lib, c.kind, file, chunk, read, InvalidArgument)
  }

  /** finish_file: the streamed value when it covers the file, otherwise a re-read of the stored file. */
  method FinishFile(lib: CrcLibrary, c: Checksum, file: seq<byte>, chunk: nat, read: Reader) returns (r: Result<u32>)
    requires |file| < U32
    ensures r == FinishFileSpec(lib, c, file, chunk, read)
  {
    if !Supported(c.kind) {
      return Err(UnsupportedChecksum);
    }
    if !IsCrc(c.kind) || (!c.deferred && c.nextOffset == |file|) {
      r := Finish(c);
    } else {
      r := ComputeChecksum(lib, c.kind, file, chunk, read, InvalidArgument);
    }
  }

  /**
    For every update history consistent with the stored file (overlapping, out of order or
    incomplete) a CRC finish_file yields the CRC of the whole file, or reports a failed read.
   */
  lemma CrcFinishFileCorrect(lib: CrcLibrary, kind: ChecksumType, gs: seq<Segment>, file: seq<byte>, chunk: nat,
                             read: Reader)
    requires |file| < U32 && IsCrc(kind)
    requires forall i :: 0 <= i < |gs| ==> InFile(gs[i], file)
    ensures UpdateAll(lib, kind, gs, |gs|, file).Ok?
    ensures var r := FinishFileSpec(lib, UpdateAll(lib, kind, gs, |gs|, file).value, file, chunk, read);
            r == Ok(WholeFile(lib, kind, file))
            || (r.Err? && ReadsFrom(|file|, chunk, read, InvalidArgument, 0) == Err(r.status))
  {
    CrcHistory(lib, kind, gs, |gs|, file);
  }
}
