/** The capture callback `gotPacket`: which handlers a frame reaches, which
    addresses it registers, and the discovery invariant every frame keeps. */
module Actions {
  import opened Options
  import opened Devices
  import opened Monitor
  import opened Frames
  import opened Sniffer
  import Ipv4
  import Mac
  import Classifier

  /** The observer's addresses: the capture interface's IP and the spoofed
      IP ("" when not spoofing). */
  datatype Config = Config(ownIp: string, spoofIp: string)

  /** The `Sniffer` handlers `gotPacket` may call. */
  datatype Handler = VlanHandler | ArpHandler | IcmpHandler

  /** The state after a frame and the handlers called, in call order. */
  datatype Outcome = Outcome(state: State, handlers: seq<Handler>)

  /** The address ICMP replies must be sent to for `gotPacket` to read them:
      the spoofed one when spoofing, the interface's one otherwise. */
  function EffectiveOwn(cfg: Config): (e: string)
    ensures cfg.spoofIp != "" ==> e == cfg.spoofIp
    ensures cfg.spoofIp == "" ==> e == cfg.ownIp
  {
    if cfg.spoofIp != "" then cfg.spoofIp else cfg.ownIp
  }

  /** `saddr` and `daddr` as `inet_ntoa` renders them. */
  function SourceText(f: Frame): string
    requires |f| >= 30
  {
    Ipv4.Format(SourceAddr(f))
  }

  function DestText(f: Frame): string
    requires |f| >= 34
  {
    Ipv4.Format(DestAddr(f))
  }

  /** The registry keys read from a header denote the header's addresses. */
  lemma HeaderTexts(f: Frame)
    requires |f| >= 34
    ensures Ipv4.Parse(SourceText(f)) == Some(SourceAddr(f))
    ensures Ipv4.Parse(DestText(f)) == Some(DestAddr(f))
  {
    Ipv4.ParseFormat(SourceAddr(f));
    Ipv4.ParseFormat(DestAddr(f));
  }

  /** An address seen in an IPv4 header is worth registering when it is a
      valid private address that is neither the interface's nor the
      spoofed one. */
  predicate Eligible(cfg: Config, ip: string) {
    Ipv4.IsValid(ip) && Classifier.IpIsPrivate(ip) && ip != cfg.ownIp && ip != cfg.spoofIp
  }

  /** Eligibility on the octets: a dotted quad in one of the private ranges
      that is neither of the observer's addresses. */
  lemma EligibleInOctets(cfg: Config, ip: string)
    ensures Eligible(cfg, ip) <==>
      && Ipv4.Parse(ip).Some? && Classifier.IsPrivateAddr(Ipv4.Parse(ip).value)
      && ip != cfg.ownIp && ip != cfg.spoofIp
  {
  }

  /** ... and is registered when, in addition, it is not yet known. */
  predicate Qualifies(r: Registry, cfg: Config, ip: string) {
    Eligible(cfg, ip) && !CheckDevice(r, ip)
  }

  /** One of the two registration blocks of `gotPacket`, given whether its
      address is eligible. */
  function Register(r: Registry, ip: string, eligible: bool): (r': Registry)
    ensures eligible && ip !in r.devices ==> r'.devices == r.devices[ip := NewDevice(ip)]
    ensures !(eligible && ip !in r.devices) ==> r' == r
    ensures r'.cursor == r.cursor
  {
    if eligible && !CheckDevice(r, ip) then AddDevice(r, NewDevice(ip)).0 else r
  }

  /** An ICMP datagram addressed to the observer. */
  predicate IcmpForUs(f: Frame, cfg: Config)
    requires |f| >= 34
  {
    Protocol(f) == ProtoIcmp && DestText(f) == EffectiveOwn(cfg)
  }

  /** An ICMP datagram is for the observer exactly when the configured
      address denotes the header's destination; comparing texts loses
      nothing, because only canonical dotted quads parse. */
  lemma IcmpForUsInOctets(f: Frame, cfg: Config)
    requires |f| >= 34
    ensures IcmpForUs(f, cfg) <==> Protocol(f) == ProtoIcmp && Ipv4.Parse(EffectiveOwn(cfg)) == Some(DestAddr(f))
  {
    HeaderTexts(f);
    if Ipv4.Parse(EffectiveOwn(cfg)).Some? {
      Ipv4.FormatParse(EffectiveOwn(cfg));
    }
  }

  /** The frame holds every byte `gotPacket` and the handler it reaches read:
      an ARP frame its ARP fields, any other frame an IPv4 header, and an
      ICMP datagram for the observer its ICMP fields. */
  predicate FrameReadable(f: Frame, cfg: Config) {
    |f| >= EthHeaderLen &&
    if EtherType(f) == EtherTypeArp then ArpReadable(f)
    else |f| >= 34 && (IcmpForUs(f, cfg) ==> IcmpReadable(f))
  }

  /** Both registration blocks of `gotPacket`, source first. */
  function RegisterBoth(s: State, src: string, dst: string, srcEligible: bool, dstEligible: bool): (r: State)
    ensures r.macsProcessed == s.macsProcessed && r.reachabilityProcessed == s.reachabilityProcessed
  {
    s.(registry := Register(Register(s.registry, src, srcEligible), dst, dstEligible))
  }

  /** The registration blocks applied to a frame's header addresses. */
  function RegisterHeader(s: State, cfg: Config, f: Frame): (r: State)
    requires |f| >= 34
    ensures s.registry.devices.Keys <= r.registry.devices.Keys
    ensures r.registry.cursor == s.registry.cursor
  {
    RegisterBoth(s, SourceText(f), DestText(f), Eligible(cfg, SourceText(f)), Eligible(cfg, DestText(f)))
  }

  /** Everything after the ARP test: the frame is read as IPv4 at offset 14
      whatever its EtherType. */
  function Ipv4Path(s: State, cfg: Config, f: Frame): (r: State)
    requires |f| >= 34 && (IcmpForUs(f, cfg) ==> IcmpReadable(f))
    ensures s.registry.devices.Keys <= r.registry.devices.Keys
    ensures r.registry.cursor == s.registry.cursor
    ensures r.macsProcessed == s.macsProcessed
  {
    var s1 := RegisterHeader(s, cfg, f);
    if IcmpForUs(f, cfg) then ProcessIcmp(s1, f, SourceText(f)) else s1
  }

  /** `gotPacket`: the VLAN handler (a no-op) runs for tagged frames without
      ending dispatch; ARP frames go to the ARP handler and nothing else;
      every other frame registers its addresses and, when it is ICMP for
      the observer, reaches the ICMP handler. */
  function GotPacket(s: State, cfg: Config, f: Frame): (o: Outcome)
    requires FrameReadable(f, cfg)
    ensures (VlanHandler in o.handlers) <==> EtherType(f) == EtherTypeVlan
    ensures (ArpHandler in o.handlers) <==> EtherType(f) == EtherTypeArp
    ensures (IcmpHandler in o.handlers) <==> EtherType(f) != EtherTypeArp && IcmpForUs(f, cfg)
    ensures |o.handlers| <= 2
    ensures EtherType(f) == EtherTypeArp ==> o.state == ProcessArp(s, cfg.ownIp, f)
    ensures EtherType(f) != EtherTypeArp ==> o.state == Ipv4Path(s, cfg, f)
  {
    var arp := EtherType(f) == EtherTypeArp;
    var state := if arp then ProcessArp(s, cfg.ownIp, f) else Ipv4Path(s, cfg, f);
    var calls := if arp then [ArpHandler] else if IcmpForUs(f, cfg) then [IcmpHandler] else [];
    Outcome(state, if EtherType(f) == EtherTypeVlan then [VlanHandler] + calls else calls)
  }

  // ---------------------------------------------------------------------------
  // Registration

  /** The addresses among `src` and `dst` that the registration blocks add. */
  function Qualifying(r: Registry, src: string, dst: string, srcEligible: bool, dstEligible: bool): (c: set<string>)
    ensures forall ip :: ip in c <==> ((ip == src && srcEligible) || (ip == dst && dstEligible)) && ip !in r.devices
  {
    (if srcEligible && src !in r.devices then {src} else {})
    + (if dstEligible && dst !in r.devices then {dst} else {})
  }

  /** The two registration blocks add exactly the qualifying addresses, each
      as a fresh device, and leave every known device as it was: the
      destination's test sees the source just added, but that only matters
      when both are the same address. */
  lemma {:induction false} RegisterBothRule(s: State, src: string, dst: string, srcEligible: bool, dstEligible: bool)
    ensures var before, after := s.registry.devices, RegisterBoth(s, src, dst, srcEligible, dstEligible).registry.devices;
      && after.Keys == before.Keys + Qualifying(s.registry, src, dst, srcEligible, dstEligible)
      && (forall k :: k in after && k !in before ==> after[k] == NewDevice(k))
      && (forall k :: k in before ==> after[k] == before[k])
      && RegisterBoth(s, src, dst, srcEligible, dstEligible).registry.cursor == s.registry.cursor
  {
    var r1 := Register(s.registry, src, srcEligible);
    RegisterStep(s.registry, src, srcEligible);
    RegisterStep(r1, dst, dstEligible);
  }

  /** One registration block adds at most its own address, as a fresh
      device, and keeps every known device. */
  lemma RegisterStep(r: Registry, ip: string, eligible: bool)
    ensures var r' := Register(r, ip, eligible);
      && r'.devices.Keys == r.devices.Keys + (if eligible && ip !in r.devices then {ip} else {})
      && (forall k :: k in r.devices ==> r'.devices[k] == r.devices[k])
      && (forall k :: k in r'.devices && k !in r.devices ==> r'.devices[k] == NewDevice(k))
  {
  }

  /** The header addresses of a frame that `gotPacket` registers. */
  function Candidates(r: Registry, cfg: Config, f: Frame): (c: set<string>)
    requires |f| >= 34
    ensures forall ip :: ip in c <==> (ip == SourceText(f) || ip == DestText(f)) && Qualifies(r, cfg, ip)
  {
    Qualifying(r, SourceText(f), DestText(f), Eligible(cfg, SourceText(f)), Eligible(cfg, DestText(f)))
  }

  /** A non-ARP frame adds exactly the qualifying header addresses, each as a
      fresh device (only its reachability may be learned from the same
      frame), and changes nothing of a known device but its reachability. */
  lemma {:induction false} RegistrationRule(s: State, cfg: Config, f: Frame)
    requires FrameReadable(f, cfg) && EtherType(f) != EtherTypeArp
    ensures var after := GotPacket(s, cfg, f).state.registry.devices;
      && after.Keys == s.registry.devices.Keys + Candidates(s.registry, cfg, f)
      && (forall k :: k in Candidates(s.registry, cfg, f) ==>
            after[k] == NewDevice(k).(reachable := after[k].reachable))
      && (forall k :: k in s.registry.devices ==>
            after[k] == s.registry.devices[k].(reachable := after[k].reachable))
  {
    var src, dst := SourceText(f), DestText(f);
    RegisterBothRule(s, src, dst, Eligible(cfg, src), Eligible(cfg, dst));
    var s1 := RegisterHeader(s, cfg, f);
    if IcmpForUs(f, cfg) && IcmpType(f) in {IcmpEchoReply, IcmpDestUnreach} {
      LearnOnlyReachability(s1, IcmpSubject(f, src), if IcmpType(f) == IcmpEchoReply then 1 else 0);
    }
  }

  /** Learning reachability changes one field of one entry at most. */
  lemma LearnOnlyReachability(s: State, address: string, v: int)
    ensures var after := Learn(s, address, v).registry.devices;
      && after.Keys == s.registry.devices.Keys
      && forall k :: k in after ==> after[k] == s.registry.devices[k].(reachable := after[k].reachable)
  {
    var t := Learn(s, address, v);
    forall k | k in t.registry.devices
      ensures t.registry.devices[k] == s.registry.devices[k].(reachable := t.registry.devices[k].reachable)
    {
      assert GetDevice(t.registry, k).Some?;
    }
  }

  /** The source registers independently of the destination: traffic between
      a private host and a public one registers the private host only. */
  lemma PublicPeerIgnored(s: State, cfg: Config, f: Frame)
    requires FrameReadable(f, cfg) && EtherType(f) != EtherTypeArp
    requires !Classifier.IpIsPrivate(DestText(f))
    ensures Candidates(s.registry, cfg, f) == if Qualifies(s.registry, cfg, SourceText(f)) then {SourceText(f)} else {}
  {
  }

  /** Traffic between 192.168.1.5 and 8.8.8.8 registers the private host
      (when new and not the observer) and never the public one. */
  lemma PrivateHostTalkingToPublicHost(s: State, cfg: Config, f: Frame)
    requires FrameReadable(f, cfg) && EtherType(f) != EtherTypeArp
    requires SourceAddr(f) == Ipv4.Addr(192, 168, 1, 5) && DestAddr(f) == Ipv4.Addr(8, 8, 8, 8)
    requires SourceText(f) !in s.registry.devices && SourceText(f) != cfg.ownIp && SourceText(f) != cfg.spoofIp
    ensures Candidates(s.registry, cfg, f) == {SourceText(f)}
  {
    Ipv4.ParseFormat(SourceAddr(f));
    Classifier.PrivateOfFormat(SourceAddr(f));
    Classifier.PrivateOfFormat(DestAddr(f));
  }

  /** The IPv4 path never registers the spoofed address, but the ARP path
      does: a first reply from the host that owns it registers it. */
  lemma ArpRegistersSpoofedAddress(s: State, cfg: Config, f: Frame)
    requires FrameReadable(f, cfg) && EtherType(f) == EtherTypeArp && ArpOpcode(f) == ArpOpReply
    requires SenderMacText(f) !in s.macsProcessed
    requires SenderIpText(f) == cfg.spoofIp && cfg.spoofIp != cfg.ownIp
    ensures !Eligible(cfg, cfg.spoofIp)
    ensures cfg.spoofIp in GotPacket(s, cfg, f).state.registry.devices
  {
    assert GetDevice(GotPacket(s, cfg, f).state.registry, cfg.spoofIp).Some?;
  }

  /** The ARP path does not test for a private address either: a first
      reply from a public sender, 8.8.8.8 for one, registers it, although
      the IPv4 path never would. */
  lemma ArpRegistersPublicAddress(s: State, cfg: Config, f: Frame)
    requires FrameReadable(f, cfg) && EtherType(f) == EtherTypeArp && ArpOpcode(f) == ArpOpReply
    requires SenderMacText(f) !in s.macsProcessed
    requires SenderIp(f) == Ipv4.Addr(8, 8, 8, 8) && SenderIpText(f) != cfg.ownIp
    ensures !Eligible(cfg, SenderIpText(f))
    ensures SenderIpText(f) in GotPacket(s, cfg, f).state.registry.devices
  {
    Classifier.PrivateOfFormat(SenderIp(f));
    assert GetDevice(GotPacket(s, cfg, f).state.registry, SenderIpText(f)).Some?;
  }

  /** Two frames whose ICMP fields agree are handled alike. */
  lemma IcmpReadsOnlyItsFields(s: State, f: Frame, g: Frame, src: string)
    requires IcmpReadable(f) && IcmpReadable(g) && IcmpType(f) == IcmpType(g)
    requires IcmpType(f) == IcmpDestUnreach ==> QuotedDest(f) == QuotedDest(g)
    ensures ProcessIcmp(s, f, src) == ProcessIcmp(s, g, src)
  {
  }

  /** Rewriting the EtherType to IPv4 leaves every field after the Ethernet
      header where it was. */
  lemma RetagKeepsFields(f: Frame)
    requires |f| >= 34
    ensures var g := f[12 := 0x08][13 := 0x00];
      && |g| == |f| && EtherType(g) == 0x0800
      && SourceAddr(g) == SourceAddr(f) && DestAddr(g) == DestAddr(f) && Protocol(g) == Protocol(f)
      && IcmpOffset(g) == IcmpOffset(f)
      && (|f| > IcmpOffset(f) ==> IcmpType(g) == IcmpType(f))
      && (|f| >= IcmpOffset(f) + 28 ==> QuotedDest(g) == QuotedDest(f))
  {
    var g := f[12 := 0x08][13 := 0x00];
    assert g[14..] == f[14..];
    assert Ihl(g) == Ihl(f);
  }

  /** The IPv4 path reads only the addresses, the protocol and the ICMP
      fields of a frame. */
  lemma Ipv4PathReadsOnlyItsFields(s: State, cfg: Config, f: Frame, g: Frame)
    requires |f| >= 34 && |g| >= 34 && (IcmpForUs(f, cfg) ==> IcmpReadable(f))
    requires SourceAddr(g) == SourceAddr(f) && DestAddr(g) == DestAddr(f) && Protocol(g) == Protocol(f)
    requires IcmpForUs(f, cfg) ==> IcmpReadable(g) && IcmpType(g) == IcmpType(f)
    requires IcmpForUs(f, cfg) && IcmpType(f) == IcmpDestUnreach ==> QuotedDest(g) == QuotedDest(f)
    ensures IcmpForUs(g, cfg) == IcmpForUs(f, cfg)
    ensures Ipv4Path(s, cfg, g) == Ipv4Path(s, cfg, f)
  {
    assert SourceText(g) == SourceText(f) && DestText(g) == DestText(f);
    if IcmpForUs(f, cfg) {
      IcmpReadsOnlyItsFields(RegisterHeader(s, cfg, f), f, g, SourceText(f));
    }
  }

  /** A VLAN-tagged frame is not stripped: it has the same effect as the
      untagged IPv4 frame carrying the same bytes after the EtherType, and
      additionally reaches the VLAN handler first. */
  lemma {:induction false} VlanIsDecodedAsIpv4(s: State, cfg: Config, f: Frame)
    requires FrameReadable(f, cfg) && EtherType(f) == EtherTypeVlan
    ensures var g := f[12 := 0x08][13 := 0x00];
      && FrameReadable(g, cfg)
      && GotPacket(s, cfg, f).state == GotPacket(s, cfg, g).state
      && GotPacket(s, cfg, f).handlers == [VlanHandler] + GotPacket(s, cfg, g).handlers
  {
    var g := f[12 := 0x08][13 := 0x00];
    RetagKeepsFields(f);
    Ipv4PathReadsOnlyItsFields(s, cfg, f, g);
    assert FrameReadable(g, cfg);
    VlanHandlers(s, cfg, f, g);
    assert GotPacket(s, cfg, g).state == Ipv4Path(s, cfg, g);
    assert GotPacket(s, cfg, f).state == Ipv4Path(s, cfg, f);
  }

  /** The handler calls of a tagged frame and of its retagged copy. */
  lemma VlanHandlers(s: State, cfg: Config, f: Frame, g: Frame)
    requires FrameReadable(f, cfg) && EtherType(f) == EtherTypeVlan
    requires FrameReadable(g, cfg) && EtherType(g) == 0x0800 && IcmpForUs(g, cfg) == IcmpForUs(f, cfg)
    ensures GotPacket(s, cfg, f).handlers == [VlanHandler] + GotPacket(s, cfg, g).handlers
  {
    var icmp := if IcmpForUs(f, cfg) then [IcmpHandler] else [];
    assert GotPacket(s, cfg, g).handlers == icmp;
    assert GotPacket(s, cfg, f).handlers == [VlanHandler] + icmp;
  }

  // ---------------------------------------------------------------------------
  // The discovery invariant

  /** Every entry is a fresh device under its own address with at most a MAC
      and a reachability learned. */
  ghost predicate Fresh(devs: map<string, Device>) {
    forall k :: k in devs ==> devs[k] == NewDevice(k).(mac := devs[k].mac, reachable := devs[k].reachable)
  }

  /** Every key is a valid dotted quad other than the observer's own. */
  ghost predicate Addressed(devs: map<string, Device>, cfg: Config) {
    forall k :: k in devs ==> Ipv4.IsValid(k) && k != cfg.ownIp
  }

  /** Reachability is unknown (-1), unreachable (0) or reachable (1). */
  ghost predicate ReachabilityInRange(devs: map<string, Device>) {
    forall k :: k in devs ==> -1 <= devs[k].reachable <= 1
  }

  /** A known MAC is a rendered address the ARP handler recorded. */
  ghost predicate MacsRecorded(devs: map<string, Device>, macs: set<string>) {
    forall k :: k in devs && devs[k].mac != "" ==> Mac.IsMacText(devs[k].mac) && devs[k].mac in macs
  }

  /** A known MAC names one device only. */
  ghost predicate MacsUnique(devs: map<string, Device>) {
    forall k, k' :: k in devs && k' in devs && k != k' && devs[k].mac != "" ==> devs[k].mac != devs[k'].mac
  }

  /** An address whose reachability was resolved is registered with a known
      reachability. */
  ghost predicate Resolved(devs: map<string, Device>, resolved: set<string>) {
    forall k :: k in resolved ==> k in devs && devs[k].reachable != Unknown
  }

  /** What capture alone maintains. */
  ghost predicate Inv(s: State, cfg: Config) {
    var devs := s.registry.devices;
    && Valid(s.registry)
    && Fresh(devs)
    && Addressed(devs, cfg)
    && ReachabilityInRange(devs)
    && MacsRecorded(devs, s.macsProcessed)
    && MacsUnique(devs)
    && Resolved(devs, s.reachabilityProcessed)
  }

  lemma InitialInv(cfg: Config)
    ensures Inv(Initial, cfg)
  {
  }

  /** Writing `d` at `k` keeps MACs unique when no other entry has `d`'s MAC. */
  lemma WriteKeepsMacsUnique(devs: map<string, Device>, k: string, d: Device)
    requires MacsUnique(devs)
    requires d.mac != "" ==> forall j :: j in devs && j != k ==> devs[j].mac != d.mac
    ensures MacsUnique(devs[k := d])
  {
    var devs' := devs[k := d];
    forall a, b | a in devs' && b in devs' && a != b && devs'[a].mac != ""
      ensures devs'[a].mac != devs'[b].mac
    {
      if a == k {
      } else if b == k {
        assert devs'[a] == devs[a];
      } else {
        assert devs'[a] == devs[a] && devs'[b] == devs[b];
      }
    }
  }

  /** Writing at `k` keeps every resolved address resolved when `k` itself is
      only marked resolved with a known reachability. */
  lemma WriteKeepsResolved(devs: map<string, Device>, resolved: set<string>, resolved': set<string>, k: string, d: Device)
    requires Resolved(devs, resolved)
    requires forall j :: j in resolved' ==> j in resolved || j == k
    requires k in resolved' ==> d.reachable != Unknown
    ensures Resolved(devs[k := d], resolved')
  {
  }

  /** Every handler writes one entry; this is what the entry written must
      satisfy for the invariant to survive. */
  lemma {:induction false} WritePreservesInv(s: State, t: State, cfg: Config, k: string, d: Device)
    requires Inv(s, cfg)
    requires t.registry == s.registry.(devices := s.registry.devices[k := d])
    requires d == NewDevice(k).(mac := d.mac, reachable := d.reachable)
    requires Ipv4.IsValid(k) && k != cfg.ownIp && -1 <= d.reachable <= 1
    requires s.macsProcessed <= t.macsProcessed
    requires d.mac != "" ==> Mac.IsMacText(d.mac) && d.mac in t.macsProcessed
    requires d.mac != "" ==> forall j :: j in s.registry.devices && j != k ==> s.registry.devices[j].mac != d.mac
    requires forall j :: j in t.reachabilityProcessed ==> j in s.reachabilityProcessed || j == k
    requires k in t.reachabilityProcessed ==> d.reachable != Unknown
    ensures Inv(t, cfg)
  {
    var devs := s.registry.devices;
    WriteKeepsMacsUnique(devs, k, d);
    WriteKeepsResolved(devs, s.reachabilityProcessed, t.reachabilityProcessed, k, d);
    WriteKeepsFreshAndAddressed(devs, cfg, k, d);
    assert MacsRecorded(devs[k := d], t.macsProcessed);
  }

  /** Writing a fresh device under a valid key other than the observer's
      keeps every entry fresh and addressed. */
  lemma WriteKeepsFreshAndAddressed(devs: map<string, Device>, cfg: Config, k: string, d: Device)
    requires Fresh(devs) && Addressed(devs, cfg)
    requires d == NewDevice(k).(mac := d.mac, reachable := d.reachable)
    requires Ipv4.IsValid(k) && k != cfg.ownIp
    ensures Fresh(devs[k := d]) && Addressed(devs[k := d], cfg)
  {
  }

  /** The entries other than `k` that agree with `s` make `t` a write at `k`. */
  lemma WriteAt(s: Registry, t: Registry, k: string)
    requires k in t.devices && t.cursor == s.cursor
    requires forall j :: j != k ==> GetDevice(t, j) == GetDevice(s, j)
    ensures t == s.(devices := s.devices[k := t.devices[k]])
  {
    assert forall j :: j in t.devices <==> j in s.devices[k := t.devices[k]] by {
      forall j
        ensures j in t.devices <==> j in s.devices[k := t.devices[k]]
      {
        if j != k {
          assert GetDevice(t, j) == GetDevice(s, j);
        }
      }
    }
    forall j | j in t.devices
      ensures t.devices[j] == s.devices[k := t.devices[k]][j]
    {
      if j != k {
        assert GetDevice(t, j) == GetDevice(s, j);
      }
    }
  }

  lemma {:induction false} ArpReplyPreservesInv(s: State, cfg: Config, sha: string, spa: string)
    requires Inv(s, cfg) && Mac.IsMacText(sha)
    ensures Inv(ApplyArpReply(s, cfg.ownIp, sha, spa), cfg)
  {
    if sha !in s.macsProcessed && Ipv4.IsValid(spa) && spa != cfg.ownIp {
      var t := ApplyArpReply(s, cfg.ownIp, sha, spa);
      var d := WithMac(s.registry, spa, sha);
      WriteAt(s.registry, t.registry, spa);
      assert d == NewDevice(spa).(mac := sha, reachable := d.reachable) by {
        if spa in s.registry.devices {
          assert Get(d, Reachable) == Get(s.registry.devices[spa], Reachable);
        }
      }
      WritePreservesInv(s, t, cfg, spa, d);
    }
  }

  lemma {:induction false} RegisterPreservesInv(s: State, cfg: Config, ip: string, eligible: bool)
    requires Inv(s, cfg) && (eligible ==> Ipv4.IsValid(ip) && ip != cfg.ownIp)
    ensures Inv(s.(registry := Register(s.registry, ip, eligible)), cfg)
  {
    if eligible && ip !in s.registry.devices {
      WritePreservesInv(s, s.(registry := Register(s.registry, ip, eligible)), cfg, ip, NewDevice(ip));
    }
  }

  lemma {:induction false} LearnPreservesInv(s: State, cfg: Config, address: string, v: int)
    requires Inv(s, cfg) && (v == 0 || v == 1)
    ensures Inv(Learn(s, address, v), cfg)
  {
    if address !in s.reachabilityProcessed && address in s.registry.devices {
      var t := Learn(s, address, v);
      var d := s.registry.devices[address].(reachable := v);
      assert GetDevice(t.registry, address) == Some(Set(s.registry.devices[address], Reachable, IntValue(v)));
      WriteAt(s.registry, t.registry, address);
      WritePreservesInv(s, t, cfg, address, d);
    }
  }

  /** Every frame keeps the discovery invariant. */
  lemma {:induction false} GotPacketPreservesInv(s: State, cfg: Config, f: Frame)
    requires Inv(s, cfg) && FrameReadable(f, cfg)
    ensures Inv(GotPacket(s, cfg, f).state, cfg)
  {
    if EtherType(f) == EtherTypeArp {
      if ArpOpcode(f) == ArpOpReply {
        ArpReplyPreservesInv(s, cfg, SenderMacText(f), SenderIpText(f));
      }
    } else {
      var src, dst := SourceText(f), DestText(f);
      var s1 := s.(registry := Register(s.registry, src, Eligible(cfg, src)));
      RegisterPreservesInv(s, cfg, src, Eligible(cfg, src));
      RegisterPreservesInv(s1, cfg, dst, Eligible(cfg, dst));
      var s2 := RegisterHeader(s, cfg, f);
      if IcmpForUs(f, cfg) && IcmpType(f) in {IcmpEchoReply, IcmpDestUnreach} {
        LearnPreservesInv(s2, cfg, IcmpSubject(f, src), if IcmpType(f) == IcmpEchoReply then 1 else 0);
      }
    }
  }

}
