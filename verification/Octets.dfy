/** Bytes as two hexadecimal digits, and these as their bits, most significant first. */
module Octets {
  import opened ShiftRegisters

  datatype Nibble = Nibble(a: bool, b: bool, c: bool, d: bool)

  datatype Octet = Octet(h: Nibble, l: Nibble)

  const N0 := Nibble(false, false, false, false)
  const N1 := Nibble(false, false, false, true)
  const N2 := Nibble(false, false, true, false)
  const N3 := Nibble(false, false, true, true)
  const N4 := Nibble(false, true, false, false)
  const N5 := Nibble(false, true, false, true)
  const N6 := Nibble(false, true, true, false)
  const N7 := Nibble(false, true, true, true)
  const N8 := Nibble(true, false, false, false)
  const N9 := Nibble(true, false, false, true)
  const NA := Nibble(true, false, true, false)
  const NB := Nibble(true, false, true, true)
  const NC := Nibble(true, true, false, false)
  const ND := Nibble(true, true, false, true)
  const NE := Nibble(true, true, true, false)
  const NF := Nibble(true, true, true, true)


  function Add4(x: Nibble, y: Nibble): Nibble { Nibble(x.a != y.a, x.b != y.b, x.c != y.c, x.d != y.d) }

  function Add8(x: Octet, y: Octet): Octet { Octet(Add4(x.h, y.h), Add4(x.l, y.l)) }

  function Shift4(x: Nibble, bit: bool): Nibble { Nibble(x.b, x.c, x.d, bit) }

  function Shift8(x: Octet, bit: bool): Octet { Octet(Shift4(x.h, x.l.a), Shift4(x.l, bit)) }

  lemma AddRules4(x: Nibble, y: Nibble, g: Nibble)
    ensures Add4(Add4(x, g), Add4(y, g)) == Add4(x, y)
    ensures Add4(Add4(x, g), y) == Add4(Add4(x, y), g) && Add4(x, Add4(y, g)) == Add4(Add4(x, y), g)
  {
  }

  function ByteBits(o: Octet): (bits: seq<bool>)
    ensures |bits| == 8
  {
    [o.h.a, o.h.b, o.h.c, o.h.d, o.l.a, o.l.b, o.l.c, o.l.d]
  }

  /** The bits of a buffer, most significant first. */
  function BitsOf(data: seq<Octet>): seq<bool> { Expand(ByteBits, data, |data|) }

  lemma OctetBits(x: Octet, y: Octet)
    ensures ByteBits(x) == ByteBits(y) ==> x == y
  {
  }

  lemma SplitEqual(a: seq<bool>, b: seq<bool>, c: seq<bool>, d: seq<bool>)
    requires |a| == |c|
    ensures a + b == c + d ==> a == c && b == d
  {
    if a + b == c + d {
      assert a == (a + b)[..|a|] && c == (c + d)[..|c|];
      assert b == (a + b)[|a|..] && d == (c + d)[|c|..];
    }
  }

  lemma {:induction false} BitsInjective(x: seq<Octet>, y: seq<Octet>, n: nat)
    requires n <= |x| == |y|
    ensures |Expand(ByteBits, x, n)| == |Expand(ByteBits, y, n)| == 8 * n
    ensures Expand(ByteBits, x, n) == Expand(ByteBits, y, n) ==> x[..n] == y[..n]
  {
    if n > 0 {
      BitsInjective(x, y, n - 1);
      SplitEqual(Expand(ByteBits, x, n - 1), ByteBits(x[n - 1]), Expand(ByteBits, y, n - 1), ByteBits(y[n - 1]));
      OctetBits(x[n - 1], y[n - 1]);
      assert x[..n] == x[..n - 1] + [x[n - 1]] && y[..n] == y[..n - 1] + [y[n - 1]];
    }
  }

  lemma BitsDiffer(x: seq<Octet>, y: seq<Octet>)
    requires |x| == |y| && x != y
    ensures |BitsOf(x)| == |BitsOf(y)| == 8 * |x| && exists i :: 0 <= i < 8 * |x| && BitsOf(x)[i] != BitsOf(y)[i]
  {
    BitsInjective(x, y, |x|);
    assert x[..|x|] == x && y[..|y|] == y;
  }
}
