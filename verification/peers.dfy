/** The peer directory as the forwarding loops see it: peer records, the
    encapsulation header, and the answers of the multi-match lookup
    protocol, given as data rather than computed. */
module Peers {
  import opened Seqs

  /** A peer identifier, as decoded from or written into the header region. */
  type PeerId = seq<byte>

  /** An IPv4 address in network byte order. */
  type Ipv4Addr = seq<byte>

  /** A remote peer: its identifier, its address on its own local network
      (used by inbound translation), and the transport address and port
      its datagrams go to. */
  datatype Peer = Peer(id: PeerId, localIpv4: Ipv4Addr, destIpv4: Ipv4Addr, port: int)

  /** This node's own record (`peerlist_local`). */
  datatype LocalPeer = LocalPeer(id: PeerId, localIpv4: Ipv4Addr)

  /** The encapsulation header: sender and receiver identifiers. */
  datatype Header = Header(source: PeerId, dest: PeerId)

  /** One round of the outbound lookup protocol: the result code and peer
      the directory returned, and the status the transport returned for
      the copy sent to that peer (ignored when no copy is sent).
      Code -1: no further match. Code 0: last match. Any other code: a
      match, and more may follow. */
  datatype Round = Round(code: int, peer: Peer, sent: int)

  /** The code that ends the fan-out, with or without a final send. */
  predicate IsStop(code: int) {
    code == -1 || code == 0
  }

  /** The directory eventually answers -1 or 0. Without this the outbound
      loop would ask it forever. */
  predicate Ends(rounds: seq<Round>) {
    |rounds| > 0 && (IsStop(rounds[0].code) || Ends(rounds[1..]))
  }

  /** Index of the round that ends the fan-out: the first -1 or 0. */
  function FirstStop(rounds: seq<Round>): (j: nat)
    requires Ends(rounds)
    ensures j < |rounds| && IsStop(rounds[j].code)
    ensures forall k :: 0 <= k < j ==> !IsStop(rounds[k].code)
  {
    if IsStop(rounds[0].code) then 0 else 1 + FirstStop(rounds[1..])
  }

  /** The number of peers a frame is sent to: every round before the first
      -1, counting up to and including the first 0. */
  function MatchCount(rounds: seq<Round>): (n: nat)
    requires Ends(rounds)
    ensures n <= |rounds|
    ensures FirstStop(rounds) <= n <= FirstStop(rounds) + 1
    ensures n == FirstStop(rounds) + 1 <==> rounds[FirstStop(rounds)].code == 0
    ensures rounds[0].code == -1 ==> n == 0
    ensures forall k :: 0 <= k < n ==> rounds[k].code != -1
  {
    var j := FirstStop(rounds);
    if rounds[j].code == 0 then j + 1 else j
  }

  /** The answers of two directories that agree round by round on codes and
      peers, whatever the transport said about each send. */
  predicate SameLookups(a: seq<Round>, b: seq<Round>) {
    |a| == |b| &&
    forall i :: 0 <= i < |a| ==> a[i].code == b[i].code && a[i].peer == b[i].peer
  }
}
