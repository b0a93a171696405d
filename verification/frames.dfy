/** Where the capture side finds each field of a raw Ethernet frame. The
    source overlays C header structs on the buffer at fixed offsets; these
    functions read the same bytes. Bit-fields follow the little-endian
    layout the source is built for. */
module Frames {
  import Ipv4

  type Frame = seq<bv8>

  const EthHeaderLen: nat := 14
  const EtherTypeArp: nat := 0x0806
  const EtherTypeVlan: nat := 0x8100
  /** ARP reply opcode (section "Packet format" of RFC 826). */
  const ArpOpReply: nat := 2
  /** IPv4 protocol number of ICMP. */
  const ProtoIcmp: nat := 1
  /** ICMP types of RFC 792. */
  const IcmpEchoReply: nat := 0
  const IcmpDestUnreach: nat := 3

  /** A 16-bit field in network byte order, as `ntohs` reads it. */
  function Be16(f: Frame, at: nat): (v: nat)
    requires at + 2 <= |f|
    ensures v < 0x1_0000
  {
    f[at] as int * 256 + f[at + 1] as int
  }

  /** `ethhdr.h_proto`. */
  function EtherType(f: Frame): (t: nat)
    requires |f| >= EthHeaderLen
    ensures t / 256 == f[12] as int && t % 256 == f[13] as int
  {
    Be16(f, 12)
  }

  /** `ether_arp.ea_hdr.ar_op`, just after the Ethernet header. */
  function ArpOpcode(f: Frame): (op: nat)
    requires |f| >= 22
    ensures op / 256 == f[EthHeaderLen + 6] as int && op % 256 == f[EthHeaderLen + 7] as int
  {
    Be16(f, 20)
  }

  /** `ether_arp.arp_sha`: the sender hardware address. */
  function SenderMac(f: Frame): (m: seq<bv8>)
    requires |f| >= 28
    ensures |m| == 6
    ensures m == f[EthHeaderLen + 8..EthHeaderLen + 14]
  {
    f[22..28]
  }

  /** `ether_arp.arp_spa`: the sender protocol address. */
  function SenderIp(f: Frame): (a: Ipv4.Addr)
    requires |f| >= 32
    ensures Ipv4.Octets(a) == f[EthHeaderLen + 14..EthHeaderLen + 18]
  {
    Ipv4.AddrAt(f, 28)
  }

  /** `iphdr.ihl`: header length in 32-bit words, the low nibble of the first byte. */
  function Ihl(f: Frame): (n: nat)
    requires |f| > EthHeaderLen
    ensures n < 16
    ensures n == (f[EthHeaderLen] & 0x0F) as int
  {
    (f[14] & 0x0F) as int
  }

  /** `iphdr.protocol`. */
  function Protocol(f: Frame): (p: nat)
    requires |f| >= 24
    ensures p < 256 && p == f[EthHeaderLen + 9] as int
  {
    f[23] as int
  }

  /** `iphdr.saddr`. */
  function SourceAddr(f: Frame): (a: Ipv4.Addr)
    requires |f| >= 30
    ensures Ipv4.Octets(a) == f[EthHeaderLen + 12..EthHeaderLen + 16]
  {
    Ipv4.AddrAt(f, 26)
  }

  /** `iphdr.daddr`. */
  function DestAddr(f: Frame): (a: Ipv4.Addr)
    requires |f| >= 34
    ensures Ipv4.Octets(a) == f[EthHeaderLen + 16..EthHeaderLen + 20]
  {
    Ipv4.AddrAt(f, 30)
  }

  /** Start of the ICMP header: past the Ethernet header and IHL words. */
  function IcmpOffset(f: Frame): (o: nat)
    requires |f| > EthHeaderLen
    ensures EthHeaderLen <= o <= EthHeaderLen + 60
    ensures o == EthHeaderLen + 4 * Ihl(f)
  {
    EthHeaderLen + 4 * Ihl(f)
  }

  /** `icmphdr.type`. */
  function IcmpType(f: Frame): (t: nat)
    requires |f| > EthHeaderLen && |f| > IcmpOffset(f)
    ensures t < 256 && t == f[EthHeaderLen + 4 * Ihl(f)] as int
  {
    f[IcmpOffset(f)] as int
  }

  /** `icmp.icmp_dun.id_ip.idi_ip.ip_dst`: the destination of the datagram a
      Destination Unreachable message quotes (8 bytes of ICMP header, then
      the quoted IP header whose destination sits at offset 16). */
  function QuotedDest(f: Frame): (a: Ipv4.Addr)
    requires |f| > EthHeaderLen && |f| >= IcmpOffset(f) + 28
    ensures Ipv4.Octets(a) == f[IcmpOffset(f) + 8 + 16..IcmpOffset(f) + 8 + 20]
  {
    Ipv4.AddrAt(f, IcmpOffset(f) + 24)
  }

  /** The bytes `processArp` reads are present: the opcode always, the
      sender addresses when it is a reply. */
  predicate ArpReadable(f: Frame) {
    |f| >= 22 && (ArpOpcode(f) == ArpOpReply ==> |f| >= 32)
  }

  /** The bytes `processIcmp` reads are present: IHL, the ICMP type, and the
      quoted destination of a Destination Unreachable. */
  predicate IcmpReadable(f: Frame) {
    |f| > EthHeaderLen && |f| > IcmpOffset(f)
    && (IcmpType(f) == IcmpDestUnreach ==> |f| >= IcmpOffset(f) + 28)
  }

}
