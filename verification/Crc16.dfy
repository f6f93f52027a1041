/**
  The frame error control field: a table-driven CRC-16 with generator x^16 + x^12 + x^5 + 1
  and an all-ones start value, and the division of polynomials it stands for.
  A 16-bit word is modelled by its hexadecimal digits, and these by their bits.
 */
module Crc16 {
  import opened ShiftRegisters
  import opened Octets

  datatype Word = Word(high: Octet, low: Octet)

  function Hex(p: Nibble, q: Nibble, r: Nibble, s: Nibble): Word { Word(Octet(p, q), Octet(r, s)) }

  const ZERO := Hex(N0, N0, N0, N0)
  const GENERATOR := Hex(N1, N0, N2, N1)
  const INIT := Hex(NF, NF, NF, NF)

  function Add(x: Word, y: Word): Word { Word(Add8(x.high, y.high), Add8(x.low, y.low)) }

  function ShiftIn(x: Word, bit: bool): Word { Word(Shift8(x.high, x.low.h.a), Shift8(x.low, bit)) }

  function Top(x: Word): bool { x.high.h.a }

  /** The CRC register: a message bit enters at the top. */
  function BitStep(r: Word, bit: bool): Word {
    if Top(r) == bit then ShiftIn(r, false) else Add(ShiftIn(r, false), GENERATOR)
  }

  /** Long division: the next bit is brought down, and the generator subtracted if it fits. */
  function DivideStep(r: Word, bit: bool): Word {
    if Top(r) then Add(ShiftIn(r, bit), GENERATOR) else ShiftIn(r, bit)
  }

  // ---- The table ----

  function Row0(l: Nibble): Word {
    if l.a then
      if l.b then
        if l.c then
          if l.d then Hex(NF, N1, NE, NF) else Hex(NE, N1, NC, NE)
        else
          if l.d then Hex(ND, N1, NA, ND) else Hex(NC, N1, N8, NC)
      else
        if l.c then
          if l.d then Hex(NB, N1, N6, NB) else Hex(NA, N1, N4, NA)
        else
          if l.d then Hex(N9, N1, N2, N9) else Hex(N8, N1, N0, N8)
    else
      if l.b then
        if l.c then
          if l.d then Hex(N7, N0, NE, N7) else Hex(N6, N0, NC, N6)
        else
          if l.d then Hex(N5, N0, NA, N5) else Hex(N4, N0, N8, N4)
      else
        if l.c then
          if l.d then Hex(N3, N0, N6, N3) else Hex(N2, N0, N4, N2)
        else
          if l.d then Hex(N1, N0, N2, N1) else Hex(N0, N0, N0, N0)
  }

  function Row1(l: Nibble): Word {
    if l.a then
      if l.b then
        if l.c then
          if l.d then Hex(NE, N3, ND, NE) else Hex(NF, N3, NF, NF)
        else
          if l.d then Hex(NC, N3, N9, NC) else Hex(ND, N3, NB, ND)
      else
        if l.c then
          if l.d then Hex(NA, N3, N5, NA) else Hex(NB, N3, N7, NB)
        else
          if l.d then Hex(N8, N3, N1, N8) else Hex(N9, N3, N3, N9)
    else
      if l.b then
        if l.c then
          if l.d then Hex(N6, N2, ND, N6) else Hex(N7, N2, NF, N7)
        else
          if l.d then Hex(N4, N2, N9, N4) else Hex(N5, N2, NB, N5)
      else
        if l.c then
          if l.d then Hex(N2, N2, N5, N2) else Hex(N3, N2, N7, N3)
        else
          if l.d then Hex(N0, N2, N1, N0) else Hex(N1, N2, N3, N1)
  }

  function Row2(l: Nibble): Word {
    if l.a then
      if l.b then
        if l.c then
          if l.d then Hex(ND, N5, N8, ND) else Hex(NC, N5, NA, NC)
        else
          if l.d then Hex(NF, N5, NC, NF) else Hex(NE, N5, NE, NE)
      else
        if l.c then
          if l.d then Hex(N9, N5, N0, N9) else Hex(N8, N5, N2, N8)
        else
          if l.d then Hex(NB, N5, N4, NB) else Hex(NA, N5, N6, NA)
    else
      if l.b then
        if l.c then
          if l.d then Hex(N5, N4, N8, N5) else Hex(N4, N4, NA, N4)
        else
          if l.d then Hex(N7, N4, NC, N7) else Hex(N6, N4, NE, N6)
      else
        if l.c then
          if l.d then Hex(N1, N4, N0, N1) else Hex(N0, N4, N2, N0)
        else
          if l.d then Hex(N3, N4, N4, N3) else Hex(N2, N4, N6, N2)
  }

  function Row3(l: Nibble): Word {
    if l.a then
      if l.b then
        if l.c then
          if l.d then Hex(NC, N7, NB, NC) else Hex(ND, N7, N9, ND)
        else
          if l.d then Hex(NE, N7, NF, NE) else Hex(NF, N7, ND, NF)
      else
        if l.c then
          if l.d then Hex(N8, N7, N3, N8) else Hex(N9, N7, N1, N9)
        else
          if l.d then Hex(NA, N7, N7, NA) else Hex(NB, N7, N5, NB)
    else
      if l.b then
        if l.c then
          if l.d then Hex(N4, N6, NB, N4) else Hex(N5, N6, N9, N5)
        else
          if l.d then Hex(N6, N6, NF, N6) else Hex(N7, N6, ND, N7)
      else
        if l.c then
          if l.d then Hex(N0, N6, N3, N0) else Hex(N1, N6, N1, N1)
        else
          if l.d then Hex(N2, N6, N7, N2) else Hex(N3, N6, N5, N3)
  }

  function Row4(l: Nibble): Word {
    if l.a then
      if l.b then
        if l.c then
          if l.d then Hex(NB, N9, N2, NB) else Hex(NA, N9, N0, NA)
        else
          if l.d then Hex(N9, N9, N6, N9) else Hex(N8, N9, N4, N8)
      else
        if l.c then
          if l.d then Hex(NF, N9, NA, NF) else Hex(NE, N9, N8, NE)
        else
          if l.d then Hex(ND, N9, NE, ND) else Hex(NC, N9, NC, NC)
    else
      if l.b then
        if l.c then
          if l.d then Hex(N3, N8, N2, N3) else Hex(N2, N8, N0, N2)
        else
          if l.d then Hex(N1, N8, N6, N1) else Hex(N0, N8, N4, N0)
      else
        if l.c then
          if l.d then Hex(N7, N8, NA, N7) else Hex(N6, N8, N8, N6)
        else
          if l.d then Hex(N5, N8, NE, N5) else Hex(N4, N8, NC, N4)
  }

  function Row5(l: Nibble): Word {
    if l.a then
      if l.b then
        if l.c then
          if l.d then Hex(NA, NB, N1, NA) else Hex(NB, NB, N3, NB)
        else
          if l.d then Hex(N8, NB, N5, N8) else Hex(N9, NB, N7, N9)
      else
        if l.c then
          if l.d then Hex(NE, NB, N9, NE) else Hex(NF, NB, NB, NF)
        else
          if l.d then Hex(NC, NB, ND, NC) else Hex(ND, NB, NF, ND)
    else
      if l.b then
        if l.c then
          if l.d then Hex(N2, NA, N1, N2) else Hex(N3, NA, N3, N3)
        else
          if l.d then Hex(N0, NA, N5, N0) else Hex(N1, NA, N7, N1)
      else
        if l.c then
          if l.d then Hex(N6, NA, N9, N6) else Hex(N7, NA, NB, N7)
        else
          if l.d then Hex(N4, NA, ND, N4) else Hex(N5, NA, NF, N5)
  }

  function Row6(l: Nibble): Word {
    if l.a then
      if l.b then
        if l.c then
          if l.d then Hex(N9, ND, N4, N9) else Hex(N8, ND, N6, N8)
        else
          if l.d then Hex(NB, ND, N0, NB) else Hex(NA, ND, N2, NA)
      else
        if l.c then
          if l.d then Hex(ND, ND, NC, ND) else Hex(NC, ND, NE, NC)
        else
          if l.d then Hex(NF, ND, N8, NF) else Hex(NE, ND, NA, NE)
    else
      if l.b then
        if l.c then
          if l.d then Hex(N1, NC, N4, N1) else Hex(N0, NC, N6, N0)
        else
          if l.d then Hex(N3, NC, N0, N3) else Hex(N2, NC, N2, N2)
      else
        if l.c then
          if l.d then Hex(N5, NC, NC, N5) else Hex(N4, NC, NE, N4)
        else
          if l.d then Hex(N7, NC, N8, N7) else Hex(N6, NC, NA, N6)
  }

  function Row7(l: Nibble): Word {
    if l.a then
      if l.b then
        if l.c then
          if l.d then Hex(N8, NF, N7, N8) else Hex(N9, NF, N5, N9)
        else
          if l.d then Hex(NA, NF, N3, NA) else Hex(NB, NF, N1, NB)
      else
        if l.c then
          if l.d then Hex(NC, NF, NF, NC) else Hex(ND, NF, ND, ND)
        else
          if l.d then Hex(NE, NF, NB, NE) else Hex(NF, NF, N9, NF)
    else
      if l.b then
        if l.c then
          if l.d then Hex(N0, NE, N7, N0) else Hex(N1, NE, N5, N1)
        else
          if l.d then Hex(N2, NE, N3, N2) else Hex(N3, NE, N1, N3)
      else
        if l.c then
          if l.d then Hex(N4, NE, NF, N4) else Hex(N5, NE, ND, N5)
        else
          if l.d then Hex(N6, NE, NB, N6) else Hex(N7, NE, N9, N7)
  }

  function Row8(l: Nibble): Word {
    if l.a then
      if l.b then
        if l.c then
          if l.d then Hex(N6, N0, N6, N7) else Hex(N7, N0, N4, N6)
        else
          if l.d then Hex(N4, N0, N2, N5) else Hex(N5, N0, N0, N4)
      else
        if l.c then
          if l.d then Hex(N2, N0, NE, N3) else Hex(N3, N0, NC, N2)
        else
          if l.d then Hex(N0, N0, NA, N1) else Hex(N1, N0, N8, N0)
    else
      if l.b then
        if l.c then
          if l.d then Hex(NE, N1, N6, NF) else Hex(NF, N1, N4, NE)
        else
          if l.d then Hex(NC, N1, N2, ND) else Hex(ND, N1, N0, NC)
      else
        if l.c then
          if l.d then Hex(NA, N1, NE, NB) else Hex(NB, N1, NC, NA)
        else
          if l.d then Hex(N8, N1, NA, N9) else Hex(N9, N1, N8, N8)
  }

  function Row9(l: Nibble): Word {
    if l.a then
      if l.b then
        if l.c then
          if l.d then Hex(N7, N2, N5, N6) else Hex(N6, N2, N7, N7)
        else
          if l.d then Hex(N5, N2, N1, N4) else Hex(N4, N2, N3, N5)
      else
        if l.c then
          if l.d then Hex(N3, N2, ND, N2) else Hex(N2, N2, NF, N3)
        else
          if l.d then Hex(N1, N2, N9, N0) else Hex(N0, N2, NB, N1)
    else
      if l.b then
        if l.c then
          if l.d then Hex(NF, N3, N5, NE) else Hex(NE, N3, N7, NF)
        else
          if l.d then Hex(ND, N3, N1, NC) else Hex(NC, N3, N3, ND)
      else
        if l.c then
          if l.d then Hex(NB, N3, ND, NA) else Hex(NA, N3, NF, NB)
        else
          if l.d then Hex(N9, N3, N9, N8) else Hex(N8, N3, NB, N9)
  }

  function RowA(l: Nibble): Word {
    if l.a then
      if l.b then
        if l.c then
          if l.d then Hex(N4, N4, N0, N5) else Hex(N5, N4, N2, N4)
        else
          if l.d then Hex(N6, N4, N4, N7) else Hex(N7, N4, N6, N6)
      else
        if l.c then
          if l.d then Hex(N0, N4, N8, N1) else Hex(N1, N4, NA, N0)
        else
          if l.d then Hex(N2, N4, NC, N3) else Hex(N3, N4, NE, N2)
    else
      if l.b then
        if l.c then
          if l.d then Hex(NC, N5, N0, ND) else Hex(ND, N5, N2, NC)
        else
          if l.d then Hex(NE, N5, N4, NF) else Hex(NF, N5, N6, NE)
      else
        if l.c then
          if l.d then Hex(N8, N5, N8, N9) else Hex(N9, N5, NA, N8)
        else
          if l.d then Hex(NA, N5, NC, NB) else Hex(NB, N5, NE, NA)
  }

  function RowB(l: Nibble): Word {
    if l.a then
      if l.b then
        if l.c then
          if l.d then Hex(N5, N6, N3, N4) else Hex(N4, N6, N1, N5)
        else
          if l.d then Hex(N7, N6, N7, N6) else Hex(N6, N6, N5, N7)
      else
        if l.c then
          if l.d then Hex(N1, N6, NB, N0) else Hex(N0, N6, N9, N1)
        else
          if l.d then Hex(N3, N6, NF, N2) else Hex(N2, N6, ND, N3)
    else
      if l.b then
        if l.c then
          if l.d then Hex(ND, N7, N3, NC) else Hex(NC, N7, N1, ND)
        else
          if l.d then Hex(NF, N7, N7, NE) else Hex(NE, N7, N5, NF)
      else
        if l.c then
          if l.d then Hex(N9, N7, NB, N8) else Hex(N8, N7, N9, N9)
        else
          if l.d then Hex(NB, N7, NF, NA) else Hex(NA, N7, ND, NB)
  }

  function RowC(l: Nibble): Word {
    if l.a then
      if l.b then
        if l.c then
          if l.d then Hex(N2, N8, NA, N3) else Hex(N3, N8, N8, N2)
        else
          if l.d then Hex(N0, N8, NE, N1) else Hex(N1, N8, NC, N0)
      else
        if l.c then
          if l.d then Hex(N6, N8, N2, N7) else Hex(N7, N8, N0, N6)
        else
          if l.d then Hex(N4, N8, N6, N5) else Hex(N5, N8, N4, N4)
    else
      if l.b then
        if l.c then
          if l.d then Hex(NA, N9, NA, NB) else Hex(NB, N9, N8, NA)
        else
          if l.d then Hex(N8, N9, NE, N9) else Hex(N9, N9, NC, N8)
      else
        if l.c then
          if l.d then Hex(NE, N9, N2, NF) else Hex(NF, N9, N0, NE)
        else
          if l.d then Hex(NC, N9, N6, ND) else Hex(ND, N9, N4, NC)
  }

  function RowD(l: Nibble): Word {
    if l.a then
      if l.b then
        if l.c then
          if l.d then Hex(N3, NA, N9, N2) else Hex(N2, NA, NB, N3)
        else
          if l.d then Hex(N1, NA, ND, N0) else Hex(N0, NA, NF, N1)
      else
        if l.c then
          if l.d then Hex(N7, NA, N1, N6) else Hex(N6, NA, N3, N7)
        else
          if l.d then Hex(N5, NA, N5, N4) else Hex(N4, NA, N7, N5)
    else
      if l.b then
        if l.c then
          if l.d then Hex(NB, NB, N9, NA) else Hex(NA, NB, NB, NB)
        else
          if l.d then Hex(N9, NB, ND, N8) else Hex(N8, NB, NF, N9)
      else
        if l.c then
          if l.d then Hex(NF, NB, N1, NE) else Hex(NE, NB, N3, NF)
        else
          if l.d then Hex(ND, NB, N5, NC) else Hex(NC, NB, N7, ND)
  }

  function RowE(l: Nibble): Word {
    if l.a then
      if l.b then
        if l.c then
          if l.d then Hex(N0, NC, NC, N1) else Hex(N1, NC, NE, N0)
        else
          if l.d then Hex(N2, NC, N8, N3) else Hex(N3, NC, NA, N2)
      else
        if l.c then
          if l.d then Hex(N4, NC, N4, N5) else Hex(N5, NC, N6, N4)
        else
          if l.d then Hex(N6, NC, N0, N7) else Hex(N7, NC, N2, N6)
    else
      if l.b then
        if l.c then
          if l.d then Hex(N8, ND, NC, N9) else Hex(N9, ND, NE, N8)
        else
          if l.d then Hex(NA, ND, N8, NB) else Hex(NB, ND, NA, NA)
      else
        if l.c then
          if l.d then Hex(NC, ND, N4, ND) else Hex(ND, ND, N6, NC)
        else
          if l.d then Hex(NE, ND, N0, NF) else Hex(NF, ND, N2, NE)
  }

  function RowF(l: Nibble): Word {
    if l.a then
      if l.b then
        if l.c then
          if l.d then Hex(N1, NE, NF, N0) else Hex(N0, NE, ND, N1)
        else
          if l.d then Hex(N3, NE, NB, N2) else Hex(N2, NE, N9, N3)
      else
        if l.c then
          if l.d then Hex(N5, NE, N7, N4) else Hex(N4, NE, N5, N5)
        else
          if l.d then Hex(N7, NE, N3, N6) else Hex(N6, NE, N1, N7)
    else
      if l.b then
        if l.c then
          if l.d then Hex(N9, NF, NF, N8) else Hex(N8, NF, ND, N9)
        else
          if l.d then Hex(NB, NF, NB, NA) else Hex(NA, NF, N9, NB)
      else
        if l.c then
          if l.d then Hex(ND, NF, N7, NC) else Hex(NC, NF, N5, ND)
        else
          if l.d then Hex(NF, NF, N3, NE) else Hex(NE, NF, N1, NF)
  }

  /** The 256-entry table, sixteen rows of sixteen. */
  function Table(o: Octet): Word {
    var h, l := o.h, o.l;
    if h.a then
      if h.b then
        if h.c then
          if h.d then RowF(l) else RowE(l)
        else
          if h.d then RowD(l) else RowC(l)
      else
        if h.c then
          if h.d then RowB(l) else RowA(l)
        else
          if h.d then Row9(l) else Row8(l)
    else
      if h.b then
        if h.c then
          if h.d then Row7(l) else Row6(l)
        else
          if h.d then Row5(l) else Row4(l)
      else
        if h.c then
          if h.d then Row3(l) else Row2(l)
        else
          if h.d then Row1(l) else Row0(l)
  }

  function Times8(r: Word): Word {
    BitStep(BitStep(BitStep(BitStep(BitStep(BitStep(BitStep(BitStep(r, false), false), false), false), false), false), false), false)
  }

  /** An entry of the table is its index, moved to the top and multiplied by x eight times. */
  predicate EntryIs(o: Octet) { Table(o) == Times8(Word(o, Octet(N0, N0))) }

  lemma Row0Entries(l: Nibble)
    ensures EntryIs(Octet(N0, l))
  {
  }

  lemma Row1Entries(l: Nibble)
    ensures EntryIs(Octet(N1, l))
  {
  }

  lemma Row2Entries(l: Nibble)
    ensures EntryIs(Octet(N2, l))
  {
  }

  lemma Row3Entries(l: Nibble)
    ensures EntryIs(Octet(N3, l))
  {
  }

  lemma Row4Entries(l: Nibble)
    ensures EntryIs(Octet(N4, l))
  {
  }

  lemma Row5Entries(l: Nibble)
    ensures EntryIs(Octet(N5, l))
  {
  }

  lemma Row6Entries(l: Nibble)
    ensures EntryIs(Octet(N6, l))
  {
  }

  lemma Row7Entries(l: Nibble)
    ensures EntryIs(Octet(N7, l))
  {
  }

  lemma Row8Entries(l: Nibble)
    ensures EntryIs(Octet(N8, l))
  {
  }

  lemma Row9Entries(l: Nibble)
    ensures EntryIs(Octet(N9, l))
  {
  }

  lemma RowAEntries(l: Nibble)
    ensures EntryIs(Octet(NA, l))
  {
  }

  lemma RowBEntries(l: Nibble)
    ensures EntryIs(Octet(NB, l))
  {
  }

  lemma RowCEntries(l: Nibble)
    ensures EntryIs(Octet(NC, l))
  {
  }

  lemma RowDEntries(l: Nibble)
    ensures EntryIs(Octet(ND, l))
  {
  }

  lemma RowEEntries(l: Nibble)
    ensures EntryIs(Octet(NE, l))
  {
  }

  lemma RowFEntries(l: Nibble)
    ensures EntryIs(Octet(NF, l))
  {
  }

  /** Every entry of the table is its index times x^8, reduced by the generator. */
  lemma TableEntry(o: Octet)
    ensures EntryIs(o)
  {
    var l := o.l;
    if o.h.a {
      if o.h.b {
        if o.h.c {
          if o.h.d {
            RowFEntries(l);
          } else {
            RowEEntries(l);
          }
        } else {
          if o.h.d {
            RowDEntries(l);
          } else {
            RowCEntries(l);
          }
        }
      } else {
        if o.h.c {
          if o.h.d {
            RowBEntries(l);
          } else {
            RowAEntries(l);
          }
        } else {
          if o.h.d {
            Row9Entries(l);
          } else {
            Row8Entries(l);
          }
        }
      }
    } else {
      if o.h.b {
        if o.h.c {
          if o.h.d {
            Row7Entries(l);
          } else {
            Row6Entries(l);
          }
        } else {
          if o.h.d {
            Row5Entries(l);
          } else {
            Row4Entries(l);
          }
        }
      } else {
        if o.h.c {
          if o.h.d {
            Row3Entries(l);
          } else {
            Row2Entries(l);
          }
        } else {
          if o.h.d {
            Row1Entries(l);
          } else {
            Row0Entries(l);
          }
        }
      }
    }
  }

  /** One byte of ccsds_crc16_update: shift by a byte and add the entry that the top byte selects. */
  function TableStep(crc: Word, b: Octet): Word { Add(Word(crc.low, Octet(N0, N0)), Table(Add8(crc.high, b))) }

  function Compute(data: seq<Octet>): Word { Fold(TableStep, INIT, data, |data|) }

  predicate Check(data: seq<Octet>) { |data| >= 2 && Compute(data) == ZERO }

  /** The loop of ccsds_crc16_update, for the step given. */
  method Update(step: (Word, Octet) -> Word, crc: Word, data: seq<Octet>) returns (r: Word)
    ensures r == Fold(step, crc, data, |data|)
  {
    r := crc;
    for i := 0 to |data|
      invariant r == Fold(step, crc, data, i)
    {
      r := step(r, data[i]);
    }
  }

  /** ccsds_crc16_compute: what the table yields is the CRC of the buffer bit by bit. */
  method ComputeCrc(data: seq<Octet>) returns (r: Word)
    ensures r == Compute(data)
    ensures r == Fold(BitStep, INIT, BitsOf(data), |BitsOf(data)|)
  {
    r := Update(TableStep, INIT, data);
    TableIsBitwise(INIT, data);
  }

  // ---- One step ----

  lemma ShiftAdd(a: Word, b: Word, x: bool, y: bool)
    ensures ShiftIn(Add(a, b), x != y) == Add(ShiftIn(a, x), ShiftIn(b, y)) && Top(Add(a, b)) == (Top(a) != Top(b))
  {
  }

  lemma AddRules(x: Word, y: Word, g: Word)
    ensures Add(Add(x, g), Add(y, g)) == Add(x, y)
    ensures Add(Add(x, g), y) == Add(Add(x, y), g) && Add(x, Add(y, g)) == Add(Add(x, y), g)
  {
    AddRules4(x.high.h, y.high.h, g.high.h);
    AddRules4(x.high.l, y.high.l, g.high.l);
    AddRules4(x.low.h, y.low.h, g.low.h);
    AddRules4(x.low.l, y.low.l, g.low.l);
  }

  lemma StepLinear(a: Word, b: Word, x: bool, y: bool)
    ensures Add(BitStep(a, x), BitStep(b, y)) == BitStep(Add(a, b), x != y)
  {
    ShiftAdd(a, b, false, false);
    AddRules(ShiftIn(a, false), ShiftIn(b, false), GENERATOR);
  }

  lemma StepIsLinear()
    ensures Linear(BitStep, Add)
  {
    forall a, b, x, y ensures Add(BitStep(a, x), BitStep(b, y)) == BitStep(Add(a, b), x != y) {
      StepLinear(a, b, x, y);
    }
  }

  lemma StepAbsorbs(c: Word, ahead: Word)
    ensures BitStep(Add(c, ahead), false) == Add(BitStep(c, Top(ahead)), ShiftIn(ahead, false))
  {
    ShiftAdd(c, ahead, false, false);
    AddRules(ShiftIn(c, false), ShiftIn(ahead, false), GENERATOR);
  }

  lemma DivideIsStep(c: Word, ahead: Word, bit: bool)
    ensures DivideStep(Add(c, ahead), bit) == Add(BitStep(c, Top(ahead)), ShiftIn(ahead, bit))
  {
    ShiftAdd(c, ahead, false, bit);
    AddRules(ShiftIn(c, false), ShiftIn(ahead, bit), GENERATOR);
  }

  lemma AddZero(a: Word)
    ensures Add(a, ZERO) == a && Add(a, a) == ZERO
  {
  }

  // ---- The table step is eight bit steps ----

  /** What is still ahead of a byte when k of its bits have entered. */
  function Ahead(w: Word, k: nat): Word {
    if k == 0 then w else ShiftIn(Ahead(w, k - 1), false)
  }

  lemma AheadFour(p: Nibble, q: Nibble, r: Nibble, w: Word, k: nat)
    requires Ahead(w, k) == Hex(p, q, r, N0)
    ensures Top(Ahead(w, k)) == p.a && Top(Ahead(w, k + 1)) == p.b && Top(Ahead(w, k + 2)) == p.c && Top(Ahead(w, k + 3)) == p.d
    ensures Ahead(w, k + 4) == Hex(q, r, N0, N0)
  {
  }

  lemma AheadOfByte(o: Octet, k: nat)
    requires k < 8
    ensures Top(Ahead(Word(o, Octet(N0, N0)), k)) == ByteBits(o)[k]
    ensures Ahead(Word(o, Octet(N0, N0)), 8) == ZERO
  {
    var w := Word(o, Octet(N0, N0));
    AheadFour(o.h, o.l, N0, w, 0);
    AheadFour(o.l, N0, N0, w, 4);
    AheadCase(o, k, w);
  }

  lemma AheadCase(o: Octet, k: nat, w: Word)
    requires k < 8
    requires Top(Ahead(w, 0)) == o.h.a && Top(Ahead(w, 1)) == o.h.b && Top(Ahead(w, 2)) == o.h.c && Top(Ahead(w, 3)) == o.h.d
    requires Top(Ahead(w, 4)) == o.l.a && Top(Ahead(w, 5)) == o.l.b && Top(Ahead(w, 6)) == o.l.c && Top(Ahead(w, 7)) == o.l.d
    ensures Top(Ahead(w, k)) == ByteBits(o)[k]
  {
    assert k == 0 || k == 1 || k == 2 || k == 3 || k == 4 || k == 5 || k == 6 || k == 7;
  }

  lemma AbsorbByte(c: Word, o: Octet)
    ensures Fold(BitStep, Add(c, Word(o, Octet(N0, N0))), Zeros(8), 8) == Fold(BitStep, c, ByteBits(o), 8)
  {
    var w, bits := Word(o, Octet(N0, N0)), ByteBits(o);
    AheadOfByte(o, 0);
    forall r, k | 0 <= k < |bits| ensures BitStep(Add(r, Ahead(w, k)), false) == Add(BitStep(r, bits[k]), Ahead(w, k + 1)) {
      AheadOfByte(o, k);
      StepAbsorbs(r, Ahead(w, k));
    }
    FoldAbsorbs(BitStep, Add, k => Ahead(w, k), c, bits, Zeros(8), 8);
    AddZero(Fold(BitStep, c, bits, 8));
  }

  lemma EightZeros(r: Word)
    ensures Fold(BitStep, r, Zeros(8), 8) == Times8(r)
  {
  }

  lemma Times8Linear(a: Word, b: Word)
    ensures Times8(Add(a, b)) == Add(Times8(a), Times8(b))
  {
    StepIsLinear();
    FoldLinear(BitStep, Add, a, b, Zeros(8), Zeros(8), 8);
    assert Difference(Zeros(8), Zeros(8)) == Zeros(8);
    EightZeros(a);
    EightZeros(b);
    EightZeros(Add(a, b));
  }

  /** A low byte reaches the top after eight steps, with nothing subtracted on the way. */
  lemma Times8OfLow(o: Octet)
    ensures Times8(Word(Octet(N0, N0), o)) == Word(o, Octet(N0, N0))
  {
  }

  lemma SplitRegister(c: Word, b: Octet)
    ensures Add(c, Word(b, Octet(N0, N0))) == Add(Word(Octet(N0, N0), c.low), Word(Add8(c.high, b), Octet(N0, N0)))
  {
  }

  /** One table step is the eight bit steps of its byte. */
  lemma TableStepIsCrc(c: Word, b: Octet)
    ensures TableStep(c, b) == Fold(BitStep, c, ByteBits(b), 8)
  {
    var i := Add8(c.high, b);
    AbsorbByte(c, b);
    EightZeros(Add(c, Word(b, Octet(N0, N0))));
    SplitRegister(c, b);
    Times8Linear(Word(Octet(N0, N0), c.low), Word(i, Octet(N0, N0)));
    Times8OfLow(c.low);
    TableEntry(i);
  }

  /** The table-driven update computes the bit-by-bit CRC of every buffer. */
  lemma TableIsBitwise(c: Word, data: seq<Octet>)
    ensures Fold(TableStep, c, data, |data|) == Fold(BitStep, c, BitsOf(data), |BitsOf(data)|)
  {
    forall r, b ensures TableStep(r, b) == Fold(BitStep, r, ByteBits(b), |ByteBits(b)|) {
      TableStepIsCrc(r, b);
    }
    FoldRefines(TableStep, BitStep, ByteBits, c, data, |data|);
  }

  // ---- The register is the remainder of a long division ----

  /** Sixteen bits as a word. */
  function Slice(bits: seq<bool>, n: nat): Word {
    if n + 16 <= |bits| then
      Word(Octet(Nibble(bits[n], bits[n + 1], bits[n + 2], bits[n + 3]),
                 Nibble(bits[n + 4], bits[n + 5], bits[n + 6], bits[n + 7])),
           Octet(Nibble(bits[n + 8], bits[n + 9], bits[n + 10], bits[n + 11]),
                 Nibble(bits[n + 12], bits[n + 13], bits[n + 14], bits[n + 15])))
    else ZERO
  }

  /** `stream` is `padded` with the start value added to its first sixteen coefficients. */
  ghost predicate Seeded(start: Word, padded: seq<bool>, stream: seq<bool>) {
    && |stream| == |padded| >= 16 && Slice(stream, 0) == Add(start, Slice(padded, 0))
    && (forall i :: 16 <= i < |padded| ==> stream[i] == padded[i])
  }

  lemma WindowMoves(window: nat -> Word, msg: seq<bool>, pad: seq<bool>, stream: seq<bool>)
    requires |pad| == 16 && |stream| == |msg| + |pad| && (forall i :: 16 <= i < |stream| ==> stream[i] == (msg + pad)[i])
    requires forall k :: window(k) == Slice(msg + pad, k)
    ensures forall r, k :: 0 <= k && k + |pad| < |stream| ==>
                             DivideStep(Add(r, window(k)), stream[k + |pad|]) == Add(BitStep(r, (msg + pad)[k]), window(k + 1))
  {
    forall r: Word, k: nat | k + |pad| < |stream|
      ensures DivideStep(Add(r, window(k)), stream[k + |pad|]) == Add(BitStep(r, (msg + pad)[k]), window(k + 1))
    {
      WindowMove(msg + pad, k);
      DivideIsStep(r, window(k), stream[k + 16]);
    }
  }

  lemma WindowMove(bits: seq<bool>, k: nat)
    requires k + 16 < |bits|
    ensures ShiftIn(Slice(bits, k), bits[k + 16]) == Slice(bits, k + 1) && Top(Slice(bits, k)) == bits[k]
  {
  }

  /** Zeros shifted out of the register are not subtracted, so sixteen bits are just read in. */
  lemma {:induction false} DivisionFills(stream: seq<bool>, n: nat)
    requires n <= 16 <= |stream|
    ensures Fold(DivideStep, ZERO, stream, n) == Slice(Zeros(16 - n) + stream[..n], 0)
  {
    if n == 0 {
      assert Zeros(16) + stream[..0] == Zeros(16);
    } else {
      DivisionFills(stream, n - 1);
      var before := Zeros(17 - n) + stream[..n - 1];
      assert Zeros(16 - n) + stream[..n] == (before + [stream[n - 1]])[1..];
      assert Slice(before, 0) == Slice(before + [stream[n - 1]], 0);
      WindowMove(before + [stream[n - 1]], 0);
      SliceDrop(before + [stream[n - 1]]);
    }
  }

  lemma SliceDrop(bits: seq<bool>)
    requires |bits| == 17
    ensures Slice(bits, 1) == Slice(bits[1..], 0)
  {
  }

  lemma SeededStart(start: Word, padded: seq<bool>, stream: seq<bool>)
    requires Seeded(start, padded, stream)
    ensures Fold(DivideStep, ZERO, stream, 16) == Add(start, Slice(padded, 0))
  {
    DivisionFills(stream, 16);
    assert Zeros(0) + stream[..16] == stream[..16];
    SliceTake(stream);
  }

  lemma SliceTake(bits: seq<bool>)
    requires 16 <= |bits|
    ensures Slice(bits[..16], 0) == Slice(bits, 0)
  {
  }

  lemma SliceOfZeros(msg: seq<bool>)
    ensures Slice(msg + Zeros(16), |msg|) == ZERO
  {
  }

  /**
    The CRC of a message is the remainder, on division by the generator, of the message times
    x^16 with the start value added to its first sixteen coefficients.
   */
  lemma CrcIsRemainder(start: Word, msg: seq<bool>, stream: seq<bool>)
    requires Seeded(start, msg + Zeros(16), stream)
    ensures Fold(BitStep, start, msg, |msg|) == Fold(DivideStep, ZERO, stream, |stream|)
  {
    var window := (k: nat) => Slice(msg + Zeros(16), k);
    RemainderBy(window, start, msg, Zeros(16), stream);
  }

  lemma RemainderBy(window: nat -> Word, start: Word, msg: seq<bool>, pad: seq<bool>, stream: seq<bool>)
    requires pad == Zeros(16) && Seeded(start, msg + pad, stream) && forall k :: window(k) == Slice(msg + pad, k)
    ensures Fold(BitStep, start, msg, |msg|) == Fold(DivideStep, ZERO, stream, |stream|)
  {
    WindowMoves(window, msg, pad, stream);
    WindowEnds(window, start, msg, pad, stream);
    AddingZero();
    DivideThrough(DivideStep, BitStep, Add, window, start, msg, pad, stream);
  }

  lemma WindowEnds(window: nat -> Word, start: Word, msg: seq<bool>, pad: seq<bool>, stream: seq<bool>)
    requires pad == Zeros(16) && Seeded(start, msg + pad, stream) && forall k :: window(k) == Slice(msg + pad, k)
    ensures Fold(DivideStep, ZERO, stream, |pad|) == Add(start, window(0)) && window(|msg|) == ZERO
  {
    SeededStart(start, msg + pad, stream);
    SliceOfZeros(msg);
  }

  lemma DivideThrough(div: (Word, bool) -> Word, step: (Word, bool) -> Word, add: (Word, Word) -> Word, window: nat -> Word,
                      start: Word, msg: seq<bool>, pad: seq<bool>, stream: seq<bool>)
    requires |stream| == |msg| + |pad| && Fold(div, ZERO, stream, |pad|) == add(start, window(0)) && window(|msg|) == ZERO
    requires forall r, k :: 0 <= k && k + |pad| < |stream| ==>
                              div(add(r, window(k)), stream[k + |pad|]) == add(step(r, (msg + pad)[k]), window(k + 1))
    requires forall r :: add(r, ZERO) == r
    ensures Fold(step, start, msg, |msg|) == Fold(div, ZERO, stream, |stream|)
  {
    DivisionAgrees(div, step, add, window, ZERO, start, ZERO, stream, msg, pad);
  }

  lemma AddingZero()
    ensures forall r :: Add(r, ZERO) == r
  {
  }

  // ---- Appending the CRC ----

  lemma AppendedBytes(c: Word)
    ensures TableStep(TableStep(c, c.high), c.low) == ZERO
  {
  }

  lemma {:induction false} TwoMore(step: (Word, Octet) -> Word, c: Word, data: seq<Octet>, x: Octet, y: Octet)
    ensures var all := data + [x, y];
            Fold(step, c, all, |all|) == step(step(Fold(step, c, data, |data|), x), y)
  {
    var all := data + [x, y];
    FoldPrefix(step, c, data, [x, y], |data|);
    assert Fold(step, c, all, |data| + 1) == step(Fold(step, c, all, |data|), all[|data|]);
    assert Fold(step, c, all, |data| + 2) == step(Fold(step, c, all, |data| + 1), all[|data| + 1]);
  }

  /** Appending the computed CRC, high byte first, always checks. */
  lemma AppendChecks(data: seq<Octet>)
    ensures Check(data + [Compute(data).high, Compute(data).low])
  {
    var c := Compute(data);
    TwoMore(TableStep, INIT, data, c.high, c.low);
    AppendedBytes(c);
  }

  // ---- Burst errors ----

  /** The last k coefficients vanish. */
  predicate LowZero(c: Word, k: nat) {
    && LowZero4(c.low.l, k) && LowZero4(c.low.h, k - 4) && LowZero4(c.high.l, k - 8) && LowZero4(c.high.h, k - 12)
  }

  predicate LowZero4(x: Nibble, k: int) {
    (k >= 1 ==> !x.d) && (k >= 2 ==> !x.c) && (k >= 3 ==> !x.b) && (k >= 4 ==> !x.a)
  }

  predicate IsZero(c: Word) { c == ZERO }

  lemma Unshift(c: Word, bit: bool, k: nat)
    requires 0 < k <= 16 && LowZero(BitStep(c, bit), k)
    ensures Top(c) == bit && LowZero(c, k - 1)
  {
  }

  lemma StepIsInvertible()
    ensures Invertible(BitStep, IsZero, LowZero, 16)
  {
    forall c, b, k | 0 < k <= 16 && LowZero(BitStep(c, b), k)
      ensures LowZero(c, k - 1) && (IsZero(c) ==> !b && IsZero(BitStep(c, b)))
    {
      Unshift(c, b, k);
    }
    forall c ensures IsZero(BitStep(c, false)) <==> IsZero(c) {
      if IsZero(BitStep(c, false)) {
        Unshift(c, false, 16);
      }
    }
  }

  /**
    If two buffers of the same length differ, and only within sixteen consecutive bits, at most
    one of them checks: an error burst of up to sixteen bits in a valid frame is rejected.
   */
  lemma BurstRejected(x: seq<Octet>, y: seq<Octet>, p: nat)
    requires |x| == |y| && x != y && Check(x) && p + 16 <= 8 * |x|
    requires forall i :: 0 <= i < |BitsOf(x)| && i < |BitsOf(y)| && (i < p || p + 16 <= i) ==> BitsOf(x)[i] == BitsOf(y)[i]
    ensures !Check(y)
  {
    BitsDiffer(x, y);
    TableIsBitwise(INIT, x);
    TableIsBitwise(INIT, y);
    BitsSeparated(BitsOf(x), BitsOf(y), p);
  }

  lemma BitsSeparated(a: seq<bool>, b: seq<bool>, p: nat)
    requires |a| == |b| && p + 16 <= |a| && (exists i :: 0 <= i < |a| && a[i] != b[i])
    requires forall i :: 0 <= i < |a| && (i < p || p + 16 <= i) ==> a[i] == b[i]
    ensures !(IsZero(Fold(BitStep, INIT, a, |a|)) && IsZero(Fold(BitStep, INIT, b, |b|)))
  {
    StepIsLinear();
    StepIsInvertible();
    AddZero(INIT);
    AddZero(ZERO);
    BurstSeparates(BitStep, Add, IsZero, LowZero, 16, INIT, a, b, p);
  }
}
