/** The outbound frame classifier: every decision is taken at a fixed byte
    offset of the Ethernet frame (the payload region of the loop buffer). */
module Frame {
  import opened Seqs

  /** Classification reads bytes 12 through 53, so the buffer must hold at
      least this many bytes. The loop never checks the frame length: the
      bytes past the received count are whatever the buffer held before. */
  const MinView: nat := 54

  /** Length of the Ethernet header (destination, source, EtherType). */
  const EthHeaderLen: nat := 14

  /** What the outbound loop makes of a frame. `Ipv4` and `Ipv6` carry the
      destination-address key handed to the peer directory; `UnknownType`
      carries the version nibble that is reported before the frame is
      dropped. */
  datatype FrameKind =
    | ArpRequest
    | Ipv4(key: seq<byte>)
    | Ipv6(key: seq<byte>)
    | UnknownType(nibble: int)

  /** The address-resolution test: EtherType bytes 0x08 0x06 and an opcode
      whose LOW byte is 0x01. The opcode's high byte (byte 20) is not read,
      so the test accepts every operation that is 1 modulo 256. */
  function IsArpRequest(buf: Buffer): (r: bool)
    requires |buf| >= MinView
    ensures r <==> EtherType(buf) == 0x0806 && ArpOperation(buf) % 256 == 1
  {
    BigEndian16(buf[12], buf[13]);
    BigEndian16(buf[20], buf[21]);
    buf[12] == 0x08 && buf[13] == 0x06 && buf[21] == 0x01
  }

  function Classify(buf: Buffer): (k: FrameKind)
    requires |buf| >= MinView
    ensures k.Ipv4? ==> |k.key| == 4
    ensures k.Ipv6? ==> |k.key| == 16
    ensures k.UnknownType? ==> 0 <= k.nibble < 16 && k.nibble != 4 && k.nibble != 6
  {
    if IsArpRequest(buf) then ArpRequest
    else if HighNibble(buf[14]) == 4 then Ipv4(buf[30..34])
    else if HighNibble(buf[14]) == 6 then Ipv6(buf[38..54])
    else UnknownType(HighNibble(buf[14]))
  }

  // ---------------------------------------------------------------------
  // Reference definitions, in the terms of the protocol standards, of the
  // fields the classifier reads.

  /** The 16-bit EtherType field of an Ethernet II header (bytes 12-13). */
  function EtherType(buf: Buffer): int
    requires |buf| >= MinView
  {
    buf[12] as int * 256 + buf[13] as int
  }

  /** The 16-bit ARP operation field, at offset 6 of the ARP packet
      (RFC 826): 1 is a request, 2 a reply. */
  function ArpOperation(buf: Buffer): int
    requires |buf| >= MinView
  {
    buf[EthHeaderLen + 6] as int * 256 + buf[EthHeaderLen + 7] as int
  }

  /** The 4-bit Version field of an IP header, the high nibble of its first
      byte, which is the first field of both the IPv4 header (RFC 791
      section 3.1) and the IPv6 header (RFC 8200 section 3). */
  function IpVersion(buf: Buffer): int
    requires |buf| >= MinView
  {
    HighNibble(buf[EthHeaderLen])
  }

  /** The Destination Address field of an IPv4 header: octets 16-19 of the
      header (RFC 791 section 3.1). */
  function Ipv4Destination(buf: Buffer): seq<byte>
    requires |buf| >= MinView
  {
    buf[EthHeaderLen + 16 .. EthHeaderLen + 20]
  }

  /** The Destination Address field of an IPv6 header: octets 24-39 of the
      header (RFC 8200 section 3). */
  function Ipv6Destination(buf: Buffer): seq<byte>
    requires |buf| >= MinView
  {
    buf[EthHeaderLen + 24 .. EthHeaderLen + 40]
  }

  /** The classifier, read against the standards: an ARP request is an
      ARP EtherType whose operation is 1 modulo 256 (the high byte is
      never read), and the IP family and lookup key are the IP Version
      field and the IPv4 or IPv6 Destination Address field. */
  lemma ClassifyMatchesProtocolFields(buf: Buffer)
    requires |buf| >= MinView
    ensures Classify(buf).ArpRequest? <==> EtherType(buf) == 0x0806 && ArpOperation(buf) % 256 == 1
    ensures !Classify(buf).ArpRequest? && IpVersion(buf) == 4 ==> Classify(buf) == Ipv4(Ipv4Destination(buf))
    ensures !Classify(buf).ArpRequest? && IpVersion(buf) == 6 ==> Classify(buf) == Ipv6(Ipv6Destination(buf))
    ensures !Classify(buf).ArpRequest? && IpVersion(buf) != 4 && IpVersion(buf) != 6
            ==> Classify(buf) == UnknownType(IpVersion(buf))
  {
  }

  /** Two frames that agree on the bytes the classifier reads (12, 13, 21,
      the version nibble of byte 14, and the two key ranges) are classified
      alike: no other byte, nor the frame length, influences the decision. */
  lemma ClassifyReadsOnlyFixedOffsets(a: Buffer, b: Buffer)
    requires |a| >= MinView && |b| >= MinView
    requires a[12] == b[12] && a[13] == b[13] && a[21] == b[21]
    requires HighNibble(a[14]) == HighNibble(b[14])
    requires a[30..34] == b[30..34] && a[38..54] == b[38..54]
    ensures Classify(a) == Classify(b)
  {
  }

  /** Once a frame is not an ARP request, its family is the version nibble
      alone: a frame whose EtherType announces IPv6 (0x86DD) but whose
      byte 14 starts with nibble 4 is forwarded as IPv4. */
  lemma EtherTypeNotConsultedForFamily(buf: Buffer)
    requires |buf| >= MinView
    requires buf[12] == 0x86 && buf[13] == 0xDD && HighNibble(buf[14]) == 4
    ensures Classify(buf) == Ipv4(buf[30..34])
  {
  }

  /** An ARP reply with the standard Ethernet hardware type (0x0001, whose
      high byte sits at byte 14) fails the request test and has version
      nibble 0, so it is dropped as an unknown type. */
  lemma ArpReplyIsUnknownType(buf: Buffer)
    requires |buf| >= MinView
    requires buf[12] == 0x08 && buf[13] == 0x06 && buf[20] == 0x00 && buf[21] == 0x02
    requires buf[14] == 0x00
    ensures Classify(buf) == UnknownType(0)
  {
  }

  /** Because only the opcode's low byte is compared, an opcode of 0x0101
      is taken for a request as well. */
  lemma OpcodeHighByteIgnored(buf: Buffer)
    requires |buf| >= MinView
    requires buf[12] == 0x08 && buf[13] == 0x06 && buf[20] == 0x01 && buf[21] == 0x01
    ensures ArpOperation(buf) == 0x0101
    ensures Classify(buf) == ArpRequest
  {
  }
}
