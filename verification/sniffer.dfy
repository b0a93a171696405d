/** The capture-side handlers of class `Sniffer` as transitions of the
    state they touch: the registry and the two deduplication sets. */
module Sniffer {
  import opened Options
  import opened Devices
  import opened Monitor
  import opened Frames
  import Ipv4
  import Mac

  /** `_macs_processed` and `_reachability_processed` beside the registry. */
  datatype State = State(registry: Registry, macsProcessed: set<string>, reachabilityProcessed: set<string>)

  const Initial: State := State(Monitor.Empty, {}, {})

  /** The sender MAC of an ARP frame as text: the deduplication key. */
  function SenderMacText(f: Frame): (t: string)
    requires |f| >= 28
    ensures Mac.IsMacText(t)
  {
    Mac.Format(SenderMac(f))
  }

  /** The sender IP of an ARP frame as dotted decimal. */
  function SenderIpText(f: Frame): (t: string)
    requires |f| >= 32
    ensures Ipv4.IsValid(t)
  {
    Ipv4.ParseFormat(SenderIp(f));
    Ipv4.Format(SenderIp(f))
  }

  /** The ARP keys denote the frame's addresses: the IP key parses back to
      `arp_spa`, and two frames share a MAC key iff they share `arp_sha`. */
  lemma SenderTexts(f: Frame, g: Frame)
    requires |f| >= 32 && |g| >= 32
    ensures Ipv4.Parse(SenderIpText(f)) == Some(SenderIp(f))
    ensures SenderMacText(f) == SenderMacText(g) <==> SenderMac(f) == SenderMac(g)
  {
    Ipv4.ParseFormat(SenderIp(f));
    if SenderMacText(f) == SenderMacText(g) {
      Mac.FormatInjective(SenderMac(f), SenderMac(g));
    }
  }

  /** The device the ARP handler writes back for `ip`: the stored one, or a
      default-constructed one given that address, with its MAC set. */
  function WithMac(r: Registry, ip: string, mac: string): (d: Device)
    ensures d.mac == mac
    ensures ip in r.devices ==> forall g :: g != Mac ==> Get(d, g) == Get(r.devices[ip], g)
    ensures ip !in r.devices ==> d == NewDevice(ip).(mac := mac)
  {
    var dev := match GetDevice(r, ip)
      case Some(stored) => stored
      case None => Set(NewDevice(""), Ip, StrValue(ip));
    Set(dev, Mac, StrValue(mac))
  }

  /** The part of `Sniffer::processArp` after the opcode test, on the
      rendered sender addresses: only the first reply per sender MAC is
      applied, and the observer's own address is never stored; otherwise
      the sender's entry (created if missing) gets the MAC and the MAC is
      marked processed. */
  function ApplyArpReply(s: State, ownIp: string, sha: string, spa: string): (r: State)
    ensures sha in s.macsProcessed || !Ipv4.IsValid(spa) || spa == ownIp ==> r == s
    ensures sha !in s.macsProcessed && Ipv4.IsValid(spa) && spa != ownIp ==>
      && GetDevice(r.registry, spa) == Some(WithMac(s.registry, spa, sha))
      && (forall other :: other != spa ==> GetDevice(r.registry, other) == GetDevice(s.registry, other))
      && r.registry.cursor == s.registry.cursor
      && r.macsProcessed == s.macsProcessed + {sha}
      && r.reachabilityProcessed == s.reachabilityProcessed
  {
    if sha in s.macsProcessed then s
    else if !Ipv4.IsValid(spa) || spa == ownIp then s
    else
      var registered :=
        if CheckDevice(s.registry, spa) then s.registry
        else AddDevice(s.registry, Set(NewDevice(""), Ip, StrValue(spa))).0;
      var (updated, _) := UpdateDevice(registered, spa, WithMac(s.registry, spa, sha));
      State(updated, s.macsProcessed + {sha}, s.reachabilityProcessed)
  }

  /** `Sniffer::processArp`: anything but a reply is ignored; a reply is
      applied with its sender MAC and IP as the source renders them. */
  function ProcessArp(s: State, ownIp: string, f: Frame): (r: State)
    requires ArpReadable(f)
    ensures ArpOpcode(f) != ArpOpReply ==> r == s
    ensures ArpOpcode(f) == ArpOpReply ==> r == ApplyArpReply(s, ownIp, SenderMacText(f), SenderIpText(f))
  {
    if ArpOpcode(f) != ArpOpReply then s
    else ApplyArpReply(s, ownIp, SenderMacText(f), SenderIpText(f))
  }

  /** The part of `Sniffer::processIcmp` after the type dispatch: nothing
      happens when `address` was already resolved or is not registered
      (no device is ever created); otherwise that one entry gets
      `reachable = v` and the address is marked resolved. */
  function Learn(s: State, address: string, v: int): (r: State)
    ensures r.registry.devices.Keys == s.registry.devices.Keys
    ensures address in s.reachabilityProcessed || address !in s.registry.devices ==> r == s
    ensures address !in s.reachabilityProcessed && address in s.registry.devices ==>
      && GetDevice(r.registry, address) == Some(Set(s.registry.devices[address], Reachable, IntValue(v)))
      && (forall other :: other != address ==> GetDevice(r.registry, other) == GetDevice(s.registry, other))
      && r.registry.cursor == s.registry.cursor
      && r.reachabilityProcessed == s.reachabilityProcessed + {address}
      && r.macsProcessed == s.macsProcessed
  {
    if address in s.reachabilityProcessed then s
    else
      match GetDevice(s.registry, address)
      case None => s
      case Some(dev) =>
        var (updated, _) := UpdateDevice(s.registry, address, Set(dev, Reachable, IntValue(v)));
        State(updated, s.macsProcessed, s.reachabilityProcessed + {address})
  }

  /** The address an ICMP message reports on: the replying source of an Echo
      Reply, the quoted destination of a Destination Unreachable. */
  function IcmpSubject(f: Frame, src: string): (a: string)
    requires IcmpReadable(f) && (IcmpType(f) == IcmpEchoReply || IcmpType(f) == IcmpDestUnreach)
    ensures IcmpType(f) == IcmpEchoReply ==> a == src
    ensures IcmpType(f) == IcmpDestUnreach ==> Ipv4.Parse(a) == Some(QuotedDest(f))
  {
    if IcmpType(f) == IcmpEchoReply then src
    else
      Ipv4.ParseFormat(QuotedDest(f));
      Ipv4.Format(QuotedDest(f))
  }

  /** `Sniffer::processIcmp`: an Echo Reply makes the replying source
      reachable, a Destination Unreachable makes the quoted destination
      unreachable, anything else is ignored. */
  function ProcessIcmp(s: State, f: Frame, src: string): (r: State)
    requires IcmpReadable(f)
    ensures IcmpType(f) == IcmpEchoReply ==> r == Learn(s, src, 1)
    ensures IcmpType(f) == IcmpDestUnreach ==> r == Learn(s, Ipv4.Format(QuotedDest(f)), 0)
    ensures IcmpType(f) != IcmpEchoReply && IcmpType(f) != IcmpDestUnreach ==> r == s
  {
    var t := IcmpType(f);
    if t != IcmpEchoReply && t != IcmpDestUnreach then s
    else Learn(s, IcmpSubject(f, src), if t == IcmpEchoReply then 1 else 0)
  }

  /** Only the first reply per MAC is applied: a replayed reply changes nothing. */
  lemma ProcessArpIdempotent(s: State, ownIp: string, f: Frame)
    requires ArpReadable(f)
    ensures ProcessArp(ProcessArp(s, ownIp, f), ownIp, f) == ProcessArp(s, ownIp, f)
  {
  }

  /** Two replies from the same MAC: once the first is applied, the second,
      whatever address it claims, changes nothing. */
  lemma FirstReplyPerMacWins(s: State, ownIp: string, sha: string, spa: string, spa': string)
    requires sha !in s.macsProcessed && Ipv4.IsValid(spa) && spa != ownIp
    ensures var t := ApplyArpReply(s, ownIp, sha, spa);
      && ApplyArpReply(t, ownIp, sha, spa') == t
      && (spa' != spa && spa' !in s.registry.devices ==> spa' !in t.registry.devices)
  {
    var t := ApplyArpReply(s, ownIp, sha, spa);
    if spa' != spa {
      assert GetDevice(t.registry, spa') == GetDevice(s.registry, spa');
    }
  }

  /** Reachability is resolved once per address. */
  lemma ProcessIcmpIdempotent(s: State, f: Frame, src: string)
    requires IcmpReadable(f)
    ensures ProcessIcmp(ProcessIcmp(s, f, src), f, src) == ProcessIcmp(s, f, src)
  {
  }

}
