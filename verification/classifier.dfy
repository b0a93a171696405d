/** The private-address test of the capture side: section 3 of RFC 1918
    (10/8, 172.16/12, 192.168/16), minus the all-ones address of each range,
    computed as the source does by masked equality on the raw 32-bit
    in_addr as a little-endian host reads it (first octet in the low byte). */
module Classifier {
  import opened Options
  import Ipv4

  /** The in_addr value of an address as a little-endian uint32_t. */
  function Raw(a: Ipv4.Addr): bv32
  {
    ((a.o3 as bv32) << 24) | ((a.o2 as bv32) << 16) | ((a.o1 as bv32) << 8) | (a.o0 as bv32)
  }

  /** The address whose little-endian in_addr value is `w`: the inverse of `Raw`. */
  function Unraw(w: bv32): (a: Ipv4.Addr)
    ensures Raw(a) == w
  {
    Ipv4.Addr((w & 0xFF) as bv8, ((w >> 8) & 0xFF) as bv8, ((w >> 16) & 0xFF) as bv8, ((w >> 24) & 0xFF) as bv8)
  }

  lemma UnrawRaw(a: Ipv4.Addr)
    ensures Unraw(Raw(a)) == a
  {
  }

  /** The three masked tests on the raw value, in the source's order: they
      accept exactly the words that are a private address read low byte
      first. */
  predicate RawIsPrivate(address: bv32)
    ensures RawIsPrivate(address) <==> IsPrivateAddr(Unraw(address))
  {
    if address & 0x0000_00FF == 0x0000_000A then address != 0xFFFF_FF0A
    else if address & 0x0000_F0FF == 0x0000_10AC then address != 0xFFFF_1FAC
    else if address & 0x0000_FFFF == 0x0000_A8C0 then address != 0xFFFF_A8C0
    else false
  }

  /** The same ranges read on dotted octets. */
  predicate InClassA(a: Ipv4.Addr) {
    a.o0 == 10 && !(a.o1 == 255 && a.o2 == 255 && a.o3 == 255)
  }

  predicate InClassB(a: Ipv4.Addr) {
    a.o0 == 172 && 16 <= a.o1 <= 31 && !(a.o1 == 31 && a.o2 == 255 && a.o3 == 255)
  }

  predicate InClassC(a: Ipv4.Addr) {
    a.o0 == 192 && a.o1 == 168 && !(a.o2 == 255 && a.o3 == 255)
  }

  predicate IsPrivateAddr(a: Ipv4.Addr) {
    InClassA(a) || InClassB(a) || InClassC(a)
  }

  /** `Sniffer::ipIsPrivate`: false for any string inet_pton rejects. */
  function IpIsPrivate(ip: string): (r: bool)
    ensures r <==> Ipv4.IsValid(ip) && IsPrivateAddr(Ipv4.Parse(ip).value)
  {
    match Ipv4.Parse(ip)
    case None => false
    case Some(a) => RawIsPrivate(Raw(a))
  }

  /** The class-A test on the raw value holds exactly for first octet 10. */
  lemma ClassAMask(a: Ipv4.Addr)
    ensures (Raw(a) & 0x0000_00FF == 0x0000_000A) <==> a.o0 == 10
    ensures Raw(a) == 0xFFFF_FF0A <==> (a.o0 == 10 && a.o1 == 255 && a.o2 == 255 && a.o3 == 255)
  {
  }

  /** The bit-level classifier agrees with the octet-level ranges on every address. */
  lemma RawMatchesRanges(a: Ipv4.Addr)
    ensures RawIsPrivate(Raw(a)) <==> IsPrivateAddr(a)
  {
  }

  /** Classifying rendered text is classifying the address it renders. */
  lemma PrivateOfFormat(a: Ipv4.Addr)
    ensures IpIsPrivate(Ipv4.Format(a)) <==> IsPrivateAddr(a)
  {
    Ipv4.ParseFormat(a);
  }

  lemma Examples()
    ensures IpIsPrivate(Ipv4.Format(Ipv4.Addr(192, 168, 1, 10)))
    ensures !IpIsPrivate(Ipv4.Format(Ipv4.Addr(192, 168, 255, 255)))
    ensures !IpIsPrivate(Ipv4.Format(Ipv4.Addr(8, 8, 8, 8)))
    ensures IpIsPrivate(Ipv4.Format(Ipv4.Addr(172, 31, 255, 254)))
    ensures !IpIsPrivate(Ipv4.Format(Ipv4.Addr(172, 32, 0, 1)))
  {
    PrivateOfFormat(Ipv4.Addr(192, 168, 1, 10));
    PrivateOfFormat(Ipv4.Addr(192, 168, 255, 255));
    PrivateOfFormat(Ipv4.Addr(8, 8, 8, 8));
    PrivateOfFormat(Ipv4.Addr(172, 31, 255, 254));
    PrivateOfFormat(Ipv4.Addr(172, 32, 0, 1));
  }

}
