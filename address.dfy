/**
 * Peer identity: every peer (including the local client) is identified by a
 * number derived from its "ipv4:port" transport address. Both ends compute it
 * the same way, so it is the only namespace the room uses for peers.
 *
 * The textual address is taken already split into its four dotted parts and
 * its port; parsing is not part of this model.
 */
module AddressIdentity {

  /** The four dotted parts of an IPv4 address, as parsed integers. */
  type Ipv4 = s: seq<int> | |s| == 4 witness [0, 0, 0, 0]

  datatype Address = Address(ip: Ipv4, port: int)

  type PeerId = int

  /** 256^k, the weight of the k-th octet counted from the right. */
  function Pow256(k: nat): nat
  {
    if k == 0 then 1 else 256 * Pow256(k - 1)
  }

  /**
   * The identifier of an address: the big-endian value of the four octets,
   * with the port ADDED to it (not packed beside it).
   */
  function IdOf(a: Address): PeerId
  {
    a.ip[0] * 16777216 + a.ip[1] * 65536 + a.ip[2] * 256 + a.ip[3] + a.port
  }

  /** Sum of the first i octets, each times its weight; what the loop has accumulated after i rounds. */
  function WeightedPrefix(ip: Ipv4, i: nat): int
    requires i <= 4
  {
    if i == 0 then 0 else WeightedPrefix(ip, i - 1) + ip[i - 1] * Pow256(3 - (i - 1))
  }

  /** The accumulating loop that computes the identifier of an address. */
  method ComputeIdFromIp(a: Address) returns (id: PeerId)
    ensures id == IdOf(a)
  {
    id := 0;
    for i := 0 to 4
      invariant id == WeightedPrefix(a.ip, i)
    {
      id := id + a.ip[i] * Pow256(3 - i);
    }
    assert Pow256(3) == 16777216 && Pow256(2) == 65536 && Pow256(1) == 256;
    assert WeightedPrefix(a.ip, 2) == a.ip[0] * 16777216 + a.ip[1] * 65536;
    assert WeightedPrefix(a.ip, 4) == a.ip[0] * 16777216 + a.ip[1] * 65536 + a.ip[2] * 256 + a.ip[3];
    id := id + a.port;
  }

  /** True when every dotted part is an octet, as a well-behaved server sends. */
  predicate OctetsInRange(ip: Ipv4)
  {
    forall i :: 0 <= i < 4 ==> 0 <= ip[i] < 256
  }

  /** Two numbers written with a last base-256 digit agree digit by digit. */
  lemma LastDigitUnique(high1: int, low1: int, high2: int, low2: int)
    requires 0 <= low1 < 256 && 0 <= low2 < 256
    requires high1 * 256 + low1 == high2 * 256 + low2
    ensures low1 == low2 && high1 == high2
  {
  }

  /**
   * For a fixed port, the identifier tells addresses with genuine octets
   * apart: equal identifiers mean equal addresses.
   */
  lemma {:induction false} IdSeparatesHosts(a: Address, b: Address)
    requires OctetsInRange(a.ip) && OctetsInRange(b.ip)
    requires a.port == b.port
    requires IdOf(a) == IdOf(b)
    ensures a == b
  {
    var x0, x1, x2, x3 := a.ip[0], a.ip[1], a.ip[2], a.ip[3];
    var y0, y1, y2, y3 := b.ip[0], b.ip[1], b.ip[2], b.ip[3];
    assert ((x0 * 256 + x1) * 256 + x2) * 256 + x3 == ((y0 * 256 + y1) * 256 + y2) * 256 + y3;
    LastDigitUnique((x0 * 256 + x1) * 256 + x2, x3, (y0 * 256 + y1) * 256 + y2, y3);
    LastDigitUnique(x0 * 256 + x1, x2, y0 * 256 + y1, y2);
    LastDigitUnique(x0, x1, y0, y1);
    assert a.ip == b.ip;
  }

  /** For a fixed host, the identifier tells ports apart. */
  lemma IdSeparatesPorts(a: Address, b: Address)
    requires a.ip == b.ip && a.port != b.port
    ensures IdOf(a) != IdOf(b)
  {
  }

  /**
   * Because the port is added rather than packed, two different addresses
   * can share an identifier: moving one up in the last octet and one down in
   * the port lands on the same number (10.0.0.1:5000 and 10.0.0.2:4999).
   */
  lemma IdsOfDistinctAddressesCanCollide(a: Address)
    requires a.ip[3] < 255 && a.port > 0
    ensures var b := Address([a.ip[0], a.ip[1], a.ip[2], a.ip[3] + 1], a.port - 1);
            b != a && IdOf(b) == IdOf(a)
  {
  }
}
