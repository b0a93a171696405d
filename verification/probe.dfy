/** The probe loop `inject`: a round-robin walk over the registry that
    decides, per device, which frames to inject to learn what is missing. */
module Probe {
  import opened Options
  import opened Devices
  import opened Monitor
  import Mac
  import Ipv4
  import Sniffer

  /** The `Injector` calls: an ARP request for an address, an ICMP echo
      request to an address via a link-layer destination, and a forged ARP
      reply claiming the spoofed address towards a device. */
  datatype Action =
    | ArpRequest(ip: string)
    | IcmpEcho(ip: string, mac: string)
    | ArpSpoofReply(ip: string, mac: string)

  /** The link-layer destination of an echo request: the device's MAC when
      known, broadcast otherwise. */
  function EchoTarget(d: Device): (m: string)
    ensures m == Mac.Broadcast <==> d.mac == "" || d.mac == Mac.Broadcast
    ensures d.mac != "" ==> m == d.mac
  {
    if d.mac == "" then Mac.Broadcast else d.mac
  }

  /** Position of an action kind in the order the loop body issues them. */
  function Stage(a: Action): nat {
    match a
    case ArpRequest(_) => 0
    case IcmpEcho(_, _) => 1
    case ArpSpoofReply(_, _) => 2
  }

  /** One iteration of the loop body for the current device: an ARP request
      iff its MAC is unknown, an echo request iff its reachability is
      unknown, a spoofed reply iff its MAC is known and spoofing is on;
      nothing else, in that order. */
  function Decide(d: Device, spoofIp: string): (acts: seq<Action>)
    ensures (ArpRequest(d.ip) in acts) <==> d.mac == ""
    ensures (IcmpEcho(d.ip, EchoTarget(d)) in acts) <==> d.reachable == Unknown
    ensures (ArpSpoofReply(d.ip, d.mac) in acts) <==> d.mac != "" && spoofIp != ""
    ensures forall a :: a in acts ==>
      a == ArpRequest(d.ip) || a == IcmpEcho(d.ip, EchoTarget(d)) || a == ArpSpoofReply(d.ip, d.mac)
    ensures forall i, j :: 0 <= i < j < |acts| ==> Stage(acts[i]) < Stage(acts[j])
    ensures |acts| <= 2
  {
    (if d.mac == "" then [ArpRequest(d.ip)] else [])
    + (if d.reachable == Unknown then [IcmpEcho(d.ip, EchoTarget(d))] else [])
    + (if d.mac != "" && spoofIp != "" then [ArpSpoofReply(d.ip, d.mac)] else [])
  }

  /** The injections of a sequence of loop iterations, visiting `ips`. */
  function Plan(r: Registry, ips: seq<string>, spoofIp: string): (acts: seq<Action>)
    requires forall i :: 0 <= i < |ips| ==> ips[i] in r.devices
    ensures |acts| <= 2 * |ips|
  {
    if ips == [] then []
    else Plan(r, ips[..|ips| - 1], spoofIp) + Decide(r.devices[ips[|ips| - 1]], spoofIp)
  }

  /** The keys the iterator points at during the first `n` iterations after
      `reset`. */
  function Walk(r: Registry, n: nat): (ips: seq<string>)
    requires Valid(r) && r.devices != map[]
    ensures |ips| == n
    ensures forall j :: 0 <= j < n ==> Advance(Reset(r), j).cursor == Some(ips[j]) && ips[j] in r.devices
  {
    if n == 0 then [] else Walk(r, n - 1) + [Advance(Reset(r), n - 1).cursor.value]
  }

  /** A walk of as many positions as entries visits every key exactly once
      and ends where it started. */
  lemma FullRound(r: Registry)
    requires Valid(r) && r.devices != map[]
    ensures Advance(Reset(r), Count(r)) == Reset(r)
    ensures var ips := Walk(r, Count(r));
      && (forall i, j :: 0 <= i < j < |ips| ==> ips[i] != ips[j])
      && (forall k :: k in r.devices ==> k in ips)
  {
    var ips := Walk(r, Count(r));
    CyclicTraversal(r);
    forall k | k in r.devices
      ensures k in ips
    {
      assert ips[Rank(r.devices.Keys, k)] == k;
    }
  }

  /** `inject`, for `rounds` iterations against a registry that capture does
      not change meanwhile. With nothing registered the source waits; the
      model then probes nothing. Otherwise the walk starts at the first key
      and moves by `next`, and each visited device gets its injections; a
      full round of as many iterations as entries visits every entry once
      and leaves the iterator back at the first. */
  method Inject(r: Registry, spoofIp: string, rounds: nat) returns (ips: seq<string>, actions: seq<Action>, final: Registry)
    requires Valid(r)
    ensures r.devices == map[] ==> ips == [] && actions == [] && final == r
    ensures r.devices != map[] ==> ips == Walk(r, rounds) && final == Advance(Reset(r), rounds)
    ensures forall i :: 0 <= i < |ips| ==> ips[i] in r.devices
    ensures actions == Plan(r, ips, spoofIp)
    ensures r.devices != map[] && rounds == Count(r) ==>
      && final == Reset(r)
      && (forall i, j :: 0 <= i < j < |ips| ==> ips[i] != ips[j])
      && (forall k :: k in r.devices ==> k in ips)
  {
    if Count(r) == 0 {
      return [], [], r;
    }
    var cur := Reset(r);
    ips, actions := [], [];
    var i := 0;
    while i < rounds
      invariant 0 <= i <= rounds
      invariant Valid(cur) && cur.cursor.Some? && cur == Advance(Reset(r), i)
      invariant ips == Walk(r, i)
      invariant actions == Plan(r, ips, spoofIp)
    {
      var d := Current(cur);
      var ips' := ips + [cur.cursor.value];
      assert ips'[..|ips'| - 1] == ips;
      ips, actions := ips', actions + Decide(d, spoofIp);
      cur := Next(cur);
      i := i + 1;
    }
    final := cur;
    if rounds == Count(r) {
      FullRound(r);
    }
  }

  /** Once the ARP handler has recorded a device's MAC, the loop stops
      asking for it and sends its echo requests (if still needed) to that
      MAC instead of broadcast. */
  lemma ArpReplyRedirectsProbes(s: Sniffer.State, ownIp: string, sha: string, spa: string, spoofIp: string)
    requires Mac.IsMacText(sha) && sha !in s.macsProcessed && Ipv4.IsValid(spa) && spa != ownIp
    ensures var d := Sniffer.ApplyArpReply(s, ownIp, sha, spa).registry.devices[spa];
      && ArpRequest(d.ip) !in Decide(d, spoofIp)
      && (d.reachable == Unknown ==> IcmpEcho(d.ip, sha) in Decide(d, spoofIp))
      && (spoofIp != "" ==> ArpSpoofReply(d.ip, sha) in Decide(d, spoofIp))
  {
    var d := Sniffer.ApplyArpReply(s, ownIp, sha, spa).registry.devices[spa];
    assert GetDevice(Sniffer.ApplyArpReply(s, ownIp, sha, spa).registry, spa) == Some(d);
    assert d.mac == sha && sha != "";
  }

}
