/** The length rule of Space Packets: a six-byte primary header, then one byte more than its last field says. */
module SpacePacket {
  import opened CfdpTypes

  const HEADER: nat := 6

  /** The length that a packet's primary header declares. */
  function PacketLen(s: seq<byte>): nat
    requires |s| >= HEADER
  {
    HEADER + 256 * (s[4] as int) + s[5] as int + 1
  }

  lemma SameHeader(a: seq<byte>, b: seq<byte>)
    requires |a| >= HEADER && |b| >= HEADER && a[..HEADER] == b[..HEADER]
    ensures PacketLen(a) == PacketLen(b)
  {
    assert a[4] == a[..HEADER][4] && a[5] == a[..HEADER][5] && b[4] == b[..HEADER][4] && b[5] == b[..HEADER][5];
  }
}
