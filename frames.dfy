/**
 * The frame layout both eBPF programs read: an Ethernet header (14 bytes,
 * EtherType at offset 12), an IPv4 header (section 3.1 of RFC 791: version
 * and IHL in its first byte, protocol at byte 9) and the source and
 * destination ports that open both the TCP header (section 3.1 of RFC 793)
 * and the UDP header (RFC 768).
 *
 * Both programs load 16-bit fields from memory on a little-endian host and
 * convert them with a byte swap (`bpf_ntohs`, `bpf_htons`); the model spells
 * out the load and the swap and proves that together they read the field
 * in network (big-endian) order.
 */
module Frames {
  import opened Wrappers

  type uint8 = x: int | 0 <= x < 0x100
  type uint16 = x: int | 0 <= x < 0x1_0000
  type uint32 = x: int | 0 <= x < 0x1_0000_0000
  type uint64 = x: int | 0 <= x < 0x1_0000_0000_0000_0000
  type int32 = x: int | -0x8000_0000 <= x < 0x8000_0000

  /** `sizeof(struct ethhdr)`. */
  const ETH_HLEN: nat := 14
  /** `sizeof(struct iphdr)`: the IPv4 header without options. */
  const IP_HLEN: nat := 20
  const ETH_P_IP: uint16 := 0x0800
  const IPPROTO_TCP: uint8 := 6
  const IPPROTO_UDP: uint8 := 17
  /** `FILTER_PORT_1` and `FILTER_PORT_2`, both 2112 in each program. */
  const FILTER_PORT_1: uint16 := 2112
  const FILTER_PORT_2: uint16 := 2112

  /** A 16-bit load from `frame[off..off + 2]` on a little-endian host. */
  function LoadHost16(frame: seq<uint8>, off: nat): (v: uint16)
    requires off + 2 <= |frame|
    ensures v % 0x100 == frame[off] && v / 0x100 == frame[off + 1]
  {
    frame[off] as int + 0x100 * frame[off + 1] as int
  }

  /** `__builtin_bswap16`: exchanges the two bytes of a 16-bit value. */
  function ByteSwap16(x: uint16): (r: uint16)
    ensures r % 0x100 == x / 0x100 && r / 0x100 == x % 0x100
  {
    (x % 0x100) * 0x100 + x / 0x100
  }

  /** Swapping twice gives back the value, so `bpf_htons` and `bpf_ntohs` are one and the same inverse. */
  lemma ByteSwapInvolution(x: uint16)
    ensures ByteSwap16(ByteSwap16(x)) == x
  {
  }

  /** `bpf_ntohs(*(__u16 *)(frame + off))`. */
  function LoadNet16(frame: seq<uint8>, off: nat): uint16
    requires off + 2 <= |frame|
  {
    ByteSwap16(LoadHost16(frame, off))
  }

  /** Loading and swapping reads the field in network order: the first byte is the high one. */
  lemma LoadNet16BigEndian(frame: seq<uint8>, off: nat)
    requires off + 2 <= |frame|
    ensures LoadNet16(frame, off) == 0x100 * frame[off] as int + frame[off + 1] as int
  {
  }

  /**
   * `eth->h_proto == bpf_htons(ETH_P_IP)`: the raw load is compared with
   * the swapped constant.
   */
  predicate IsIPv4(frame: seq<uint8>)
    requires ETH_HLEN <= |frame|
  {
    LoadHost16(frame, 12) == ByteSwap16(ETH_P_IP)
  }

  /** The EtherType test holds exactly when bytes 12 and 13 are 0x08, 0x00. */
  lemma IsIPv4Bytes(frame: seq<uint8>)
    requires ETH_HLEN <= |frame|
    ensures IsIPv4(frame) <==> frame[12] == 0x08 && frame[13] == 0x00
  {
  }

  /** `ip->protocol`: byte 9 of the IPv4 header. */
  function IpProtocol(frame: seq<uint8>): uint8
    requires ETH_HLEN + IP_HLEN <= |frame|
  {
    frame[ETH_HLEN + 9]
  }

  /** `ip->ihl`: the low four bits of the first IPv4 byte (the bit-field's place on a little-endian host). */
  function Ihl(frame: seq<uint8>): (ihl: nat)
    requires ETH_HLEN + IP_HLEN <= |frame|
    ensures ihl < 16
  {
    frame[ETH_HLEN] % 16
  }

  predicate IsTcpOrUdp(protocol: uint8)
  {
    protocol == IPPROTO_TCP || protocol == IPPROTO_UDP
  }

  /** The port filter: either port equals either filter port. */
  predicate PortMatches(sport: uint16, dport: uint16)
  {
    sport == FILTER_PORT_1 || sport == FILTER_PORT_2 || dport == FILTER_PORT_1 || dport == FILTER_PORT_2
  }

  /** With both filter ports 2112, the filter asks for 2112 on either side. */
  lemma PortMatchesIs2112(sport: uint16, dport: uint16)
    ensures PortMatches(sport, dport) <==> sport == 2112 || dport == 2112
  {
  }

  /** Source and destination port read at `off`. */
  datatype Ports = Ports(sport: uint16, dport: uint16)

  function PortsAt(frame: seq<uint8>, off: nat): Ports
    requires off + 4 <= |frame|
  {
    Ports(LoadNet16(frame, off), LoadNet16(frame, off + 2))
  }

  /** `bpf_map_lookup_elem` on an array map holding `values`: no entry for a key past its end. */
  function Lookup<V>(values: seq<V>, key: uint32): Option<V>
  {
    if key < |values| then Some(values[key]) else None
  }

  /** Multiples of `n` at distinct factors lie at least `n` apart. */
  lemma MulGap(a: nat, b: nat, n: nat)
    ensures a < b ==> a * n + n <= b * n
  {
    if a < b {
      var d: nat := b - a - 1;
      assert b * n == a * n + d * n + n;
    }
  }

  /** A quotient and remainder in range are the ones `/` and `%` give. */
  lemma DivModUnique(x: nat, n: nat, q: nat, r: nat)
    requires n > 0 && r < n && x == q * n + r
    ensures x % n == r
  {
    var q0 := x / n;
    MulGap(q0, q, n);
    MulGap(q, q0, n);
  }

  /** Reducing before a cyclic increment changes nothing: `(a % n + 1) % n == (a + 1) % n`. */
  lemma ModSucc(a: nat, n: nat)
    requires n > 0
    ensures (a % n + 1) % n == (a + 1) % n
  {
    var q, r := a / n, a % n;
    if r + 1 < n {
      DivModUnique(a + 1, n, q, r + 1);
      DivModUnique(r + 1, n, 0, r + 1);
    } else {
      DivModUnique(a + 1, n, q + 1, 0);
      DivModUnique(r + 1, n, 1, 0);
    }
  }
}
