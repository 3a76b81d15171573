/** What both forwarding loops are given when they start: the loop options
    and the collaborators whose implementations are not part of this
    model. */
module Config {
  import opened Seqs
  import opened Peers
  import opened Effects

  /** The sizes a header region can have: a small part of the loop buffer.
      The model relies only on it fitting in 16 bits. */
  type HeaderSize = n: nat | n < 0x1_0000

  /** Size of the header region that precedes the Ethernet frame in the
      loop buffer (`BUF_OFFSET`). It is a link-wide constant defined
      outside the forwarding loops; the model leaves its value open, so
      every property holds whatever it is. */
  const BufOffset: HeaderSize

  /** The largest value of a C `int`, the type of the loops' byte counts. */
  const IntMax: int := 0x7FFF_FFFF

  /** `size_t` is 64 bits wide. */
  const SizeTModulus: int := 0x1_0000_0000_0000_0000

  /** `SSIZE_MAX`: on Linux, `write` fails for a larger count without
      writing anything. */
  const SsizeMax: int := 0x7FFF_FFFF_FFFF_FFFF

  /** The conversion of an `int` count to the `size_t` parameter of
      `write`: a count that is not negative is unchanged, a negative one
      wraps round to `2^64` plus the count. */
  function ToSizeT(n: int): (r: int)
    ensures 0 <= r < SizeTModulus
    ensures 0 <= n < SizeTModulus ==> r == n
    ensures -SizeTModulus <= n < 0 ==> r == n + SizeTModulus
  {
    n % SizeTModulus
  }

  /** The loop options: whether IPv4 address translation is on, whether a
      send or receive override replaces the datagram socket, and the MAC
      address written into inbound frames. */
  datatype Options = Options(translate: bool, hasSendFunc: bool, hasRecvFunc: bool, mac: seq<byte>)

  /** `create_arp_response`: its status (0 on success) and the buffer it
      left behind. */
  datatype ArpAnswer = ArpAnswer(status: int, frame: Buffer)

  /** The collaborators whose code is not part of this model, as
      uninterpreted functions of the buffer they work on in place:
      - `createArpResponse`: `create_arp_response(buf)`;
      - `translatePacket`: `translate_packet(buf, from, to, len)`;
      - `translateHeaders`: `translate_headers(buf, from, to, len)`;
      - `updateMac`: `update_mac(buf, mac)`;
      - `getHeaders`: `get_headers(enc_buf, source, dest)`, the decoder of
        the header region, applied to the whole received buffer. */
  datatype Collaborators = Collaborators(
    createArpResponse: Buffer -> ArpAnswer,
    translatePacket: (Buffer, Translation, int) -> Buffer,
    translateHeaders: (Buffer, Ipv4Addr, Ipv4Addr, int) -> Buffer,
    updateMac: (Buffer, seq<byte>) -> Buffer,
    getHeaders: Buffer -> Header)
}
