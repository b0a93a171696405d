# Swarm device discovery, in Dafny

Swarm is a passive network monitor with an active probing side. A capture
callback (`gotPacket`) reads every Ethernet frame. It registers the private
IPv4 addresses it sees in a registry (`Monitor`), which maps the address text
to a `Device` record. ARP replies teach it MAC addresses. ICMP echo replies and
destination-unreachable messages teach it whether a device is reachable. A
probe loop (`inject`) walks the registry round-robin. For each device it
decides which frames to inject to learn what is still missing: an ARP
request, an ICMP echo request, or a forged ARP reply when spoofing.

This project models that core as pure functions over immutable data. It
proves what the code guarantees:

- dotted-decimal rendering round-trips through the strict parser, in both
  directions, and both the dotted-decimal and the MAC rendering are
  injective;
- the private-address test is exactly three octet ranges;
- each handler changes only the entries and fields it should;
- a frame registers exactly the qualifying header addresses;
- every frame preserves a discovery invariant (below);
- a full probe round visits every device once and returns to the start.

The discovery invariant says:

- every entry is a fresh device under its own valid address, other than the
  observer's;
- only a MAC and a reachability are ever learned;
- a known MAC names one device;
- a resolved address has a known reachability.

Modules, one per file:

| file | module | models |
|---|---|---|
| options.dfy | `Options` | optional values (a lookup that the source answers with an exception) |
| bytes.dfy | `Bytes` | conversion of small naturals to octets |
| ipv4.dfy | `Ipv4` | dotted-decimal text: rendering (`inet_ntoa`, the ARP handler's stream output) and strict parsing (`inet_pton` for IPv4) |
| mac.dfy | `Mac` | the ARP handler's MAC text: upper-case hex octets joined by `:` |
| classifier.dfy | `Classifier` | `Sniffer::ipIsPrivate`, on the raw little-endian `in_addr` word |
| device.dfy | `Devices` | the `Device` record, its getters and setters, `operator<<`, `save` |
| order.dfy | `StringOrder` | the lexicographic key order of `std::map<string, Device>` |
| monitor.dfy | `Monitor` | the registry: add, update, lookup, count, and the `reset`/`next` iterator |
| frames.dfy | `Frames` | where the handlers read each header field in a captured frame |
| sniffer.dfy | `Sniffer` | `processArp`, `processIcmp` and their de-duplication sets |
| actions.dfy | `Actions` | `gotPacket`: dispatch, registration, the discovery invariant |
| probe.dfy | `Probe` | `inject`: the per-device decision and the round-robin loop |
| persist.dfy | `Persistence` | the registry with `save` wired in, to follow what the ARP handler writes to the device table |

Where the documented intent and the code disagree, the model follows the code.

- The ARP handler excludes only the interface's own address. The spoofed
  address is excluded only on the IPv4 path (`actions.cpp:66`, `78`). So the
  spoofed address can be registered from an ARP reply
  (`Actions.ArpRegistersSpoofedAddress`).
- Only private addresses are meant to be registered, but the ARP handler
  has no private-range test (`sniffer.cpp:151-153`). A first reply from any
  valid sender address other than the observer's own, a public one
  included, is registered (`Actions.ArpRegistersPublicAddress`).
- A VLAN-tagged frame is not stripped. Its VLAN handler only prints. The same
  bytes are then read as an IPv4 header at offset 14
  (`Actions.VlanIsDecodedAsIpv4`).

## Model

| member | source | states |
|---|---|---|
| Ipv4.FormatFields | src/sniffer.cpp:139-144 | the dot-separated fields of a rendered address are the decimal renderings of its four octets, and the text is 7 to 15 characters long |
| Ipv4.ParseFields | src/sniffer.cpp:249-250 | text the strict parser accepts has exactly four fields, each the canonical decimal rendering of its octet, and is 7 to 15 characters long |
| Ipv4.ValidIffRendering | src/sniffer.cpp:151 | the validity check passes exactly for the dotted-decimal renderings of addresses |
| Ipv4.DecimalIsCanonical | src/sniffer.cpp:140-144 | a number written in decimal has no leading zero and no dot, and reads back as the same number |
| Ipv4.ParseFormat | src/sniffer.cpp:140-151 | the dotted quad rendered from four octets is accepted by the validity check and parses back to the same four octets |
| Ipv4.FormatParse | src/sniffer.cpp:249-251 | any text the strict parser accepts is the rendering of the address it parses to |
| Ipv4.FormatInjective | src/actions.cpp:55-56 | distinct addresses render to distinct registry keys |
| Ipv4.AddrAt | src/actions.cpp:47-52 | an address read from a frame is the four bytes at that offset, in wire order |
| Mac.Join | src/sniffer.cpp:121-127 | each octet renders as two upper-case hex digits, high nibble first, with ':' between octets |
| Mac.Format | src/sniffer.cpp:120-128 | a rendered hardware address is 17 characters: hex digit pairs separated by ':' |
| Mac.FormatInjective | src/sniffer.cpp:128-133 | distinct hardware addresses render differently, so de-duplicating by text is de-duplicating by address |
| Mac.BroadcastIsAllOnes | src/actions.cpp:127-129 | the broadcast text used for an unknown MAC is the rendering of the all-ones address |
| Classifier.IpIsPrivate | src/sniffer.cpp:246-272 | true exactly for valid addresses in 10/8 other than 10.255.255.255, in 172.16/12 other than 172.31.255.255, or in 192.168/16 other than 192.168.255.255 |
| Classifier.Unraw | src/sniffer.cpp:251 | the raw in_addr word determines the address, read low byte first |
| Classifier.RawIsPrivate | src/sniffer.cpp:254-269 | the three masked tests on a raw word accept exactly the words whose bytes, low byte first, form a private address |
| Classifier.ClassAMask | src/sniffer.cpp:254-257 | the class A mask test on the little-endian word selects first octet 10, and its excluded word is 10.255.255.255 |
| Classifier.RawMatchesRanges | src/sniffer.cpp:251-269 | the three masked tests on the raw word, in source order, accept exactly the three octet ranges |
| Classifier.PrivateOfFormat | src/actions.cpp:62-64 | an address read from a header is private by the text test iff its octets are in the ranges |
| Classifier.Examples | src/sniffer.cpp:253-269 | 192.168.1.10 and 172.31.255.254 are private; 192.168.255.255, 172.32.0.1 and 8.8.8.8 are not |
| Devices.NewDevice | src/device.cpp:28-36 | a new device has id 0, no hostname, MAC or subnet, unknown hops, VLAN and reachability, and the given address |
| Devices.Get | src/device.cpp:114-187 | each getter returns a value of its field's kind |
| Devices.Set | src/device.cpp:119-192 | a setter makes its getter return the value set and leaves every other getter unchanged |
| Devices.GettersDetermineDevice | src/device.cpp:114-192 | devices agreeing on every getter are equal |
| Devices.SetCurrentValue | src/device.cpp:119-192 | setting a field to its current value changes nothing |
| Devices.SetTwice | src/device.cpp:119-192 | a second set of a field overrides the first |
| Devices.ReachableText | src/device.cpp:198 | the printed reachability is "Yes" iff reachable is 1, "No" otherwise |
| Devices.Save | src/device.cpp:73-112 | id 0 inserts, any other id updates its row; the full row is written; failure is reported; a successful insert adopts the store's last id, a failed one keeps id 0; no other field changes |
| Devices.SaveAfterInsertUpdates | src/device.cpp:78-109 | after a successful insert with a non-zero id, saving again updates that row |
| StringOrder.Irreflexive | src/monitor.h:36 | no key is ordered before itself |
| StringOrder.Asymmetric | src/monitor.h:36 | two keys are never ordered both ways |
| StringOrder.Transitive | src/monitor.h:36 | the key order is transitive |
| StringOrder.Total | src/monitor.h:36 | any two distinct keys are ordered one way or the other |
| StringOrder.Least | src/monitor.h:36 | a non-empty key set has a least key, below every other key |
| Monitor.Count | src/monitor.cpp:124-126 | the count is the number of keys, and zero iff the registry is empty |
| Monitor.GetDevice | src/monitor.cpp:69-88 | a lookup succeeds iff the address is registered, and returns the stored device |
| Monitor.CheckDevice | src/monitor.cpp:91-97 | true iff a lookup would succeed |
| Monitor.AddDevice | src/monitor.cpp:34-48 | inserts under the device's own address iff it is new, reports whether it inserted, keeps an existing entry and every other entry, and grows the count by one iff it inserted |
| Monitor.UpdateDevice | src/monitor.cpp:51-66 | reports an error and changes nothing for an unknown address; otherwise replaces that entry only, keeping the count |
| Monitor.Reset | src/monitor.cpp:100-104 | the iterator goes to the least key, or to the end when the registry is empty |
| Monitor.Next | src/monitor.cpp:107-116 | the iterator moves to the next greater key, or back to the least key after the greatest |
| Monitor.Current | src/monitor.cpp:119-121 | the current device is the one stored under the iterator's key |
| Monitor.WalkPositions | src/monitor.cpp:100-116 | after reset and i calls of next (i below the count), the iterator is at the key with exactly i keys before it |
| Monitor.CycleCloses | src/monitor.cpp:107-116 | as many calls of next as there are entries bring the iterator back to the first key |
| Monitor.CycleDistinct | src/monitor.cpp:107-116 | within one round, distinct steps visit distinct keys |
| Monitor.CycleCovers | src/monitor.cpp:107-116 | every key is visited within one round, at the step equal to its rank |
| Monitor.CyclicTraversal | src/monitor.cpp:100-116 | one round from reset visits every key exactly once and ends where it started |
| Frames.Ihl | src/sniffer.cpp:192 | the header length is the low nibble of the first IP header byte, a count of 32-bit words below 16 |
| Frames.EtherType | src/actions.cpp:32-41 | the EtherType is bytes 12 and 13 of the frame, high byte first |
| Frames.ArpOpcode | src/sniffer.cpp:107-110 | the ARP opcode is bytes 6 and 7 of the ARP header, high byte first |
| Frames.SenderIp | src/sniffer.cpp:139-142 | the ARP sender address is bytes 14 to 17 of the ARP header |
| Frames.Protocol | src/actions.cpp:94 | the IP protocol is byte 9 of the IP header |
| Frames.SourceAddr | src/actions.cpp:47-51 | the IP source is bytes 12 to 15 of the IP header |
| Frames.DestAddr | src/actions.cpp:47-52 | the IP destination is bytes 16 to 19 of the IP header |
| Frames.IcmpType | src/sniffer.cpp:190-197 | the ICMP type is the first byte after the IP header of IHL words |
| Frames.QuotedDest | src/sniffer.cpp:204-207 | the quoted destination is bytes 16 to 19 of the IP header quoted after the 8-byte ICMP header |
| Frames.IcmpOffset | src/sniffer.cpp:190-194 | the ICMP header starts 4·IHL bytes past the Ethernet header, so at most 60 bytes past it |
| Frames.SenderMac | src/sniffer.cpp:121 | the ARP sender hardware address is the six octets at bytes 8 to 13 of the ARP header |
| Sniffer.SenderMacText | src/sniffer.cpp:120-128 | the ARP sender MAC key is always well-formed MAC text |
| Sniffer.SenderIpText | src/sniffer.cpp:139-151 | the rendered ARP sender address always passes the validity check |
| Sniffer.SenderTexts | src/sniffer.cpp:120-144 | the ARP IP key parses back to the sender protocol address, and two frames share a MAC key iff they share the sender hardware address |
| Sniffer.WithMac | src/sniffer.cpp:155-164 | the device written back has the new MAC: the stored device with every other field kept, or a new device for that address |
| Sniffer.ApplyArpReply | src/sniffer.cpp:128-171 | a MAC already processed, or the observer's own address, changes nothing; otherwise only the sender's entry is written (created if missing), the iterator is kept, and the MAC is marked processed |
| Sniffer.ProcessArp | src/sniffer.cpp:101-175 | anything but an ARP reply changes nothing; a reply is applied with its sender MAC and address |
| Sniffer.Learn | src/sniffer.cpp:214-232 | no entry is ever created; an address already resolved or not registered changes nothing; otherwise only its reachability is set and it is marked resolved |
| Sniffer.IcmpSubject | src/sniffer.cpp:197-208 | an echo reply reports on its source; a destination-unreachable reports on the text that denotes the quoted destination |
| Sniffer.ProcessIcmp | src/sniffer.cpp:184-233 | an echo reply makes the source reachable, a destination-unreachable makes the quoted destination unreachable, and any other type changes nothing |
| Sniffer.ProcessArpIdempotent | src/sniffer.cpp:130-133 | a replayed ARP reply changes nothing |
| Sniffer.FirstReplyPerMacWins | src/sniffer.cpp:130-170 | after a MAC's first reply is applied, a later reply with that MAC changes nothing, whatever address it claims |
| Sniffer.ProcessIcmpIdempotent | src/sniffer.cpp:214-228 | a replayed ICMP message changes nothing |
| Actions.EffectiveOwn | src/actions.cpp:85-89 | the spoofed address when spoofing, the interface's address otherwise |
| Actions.HeaderTexts | src/actions.cpp:55-56 | the registry keys read from an IP header denote its source and destination addresses |
| Actions.EligibleInOctets | src/actions.cpp:62-66 | an address is eligible iff it parses to an address in a private range and is neither the interface's nor the spoofed address |
| Actions.IcmpForUsInOctets | src/actions.cpp:94 | the ICMP handler runs iff the protocol is ICMP and the effective own address denotes the header's destination |
| Actions.RegisterHeader | src/actions.cpp:61-83 | registration only adds entries and never moves the iterator |
| Actions.Ipv4Path | src/actions.cpp:46-96 | the IPv4 path only adds entries, never moves the iterator and never touches the ARP handler's MAC set |
| Actions.RegisterStep | src/actions.cpp:61-71 | one block adds at most its own address, as a new device, and keeps every known device |
| Actions.Register | src/actions.cpp:61-71 | an eligible unknown address is added as a new device; otherwise nothing changes |
| Actions.RegisterBoth | src/actions.cpp:61-83 | registering header addresses leaves both de-duplication sets alone |
| Actions.GotPacket | src/actions.cpp:28-97 | VLAN frames reach the VLAN handler; ARP frames reach the ARP handler and nothing else; other frames reach the ICMP handler iff they are ICMP for the observer's effective address |
| Actions.Qualifying | src/actions.cpp:61-83 | the set of eligible header addresses not yet registered, the reference that `Actions.RegisterBothRule` is proved against |
| Actions.Candidates | src/actions.cpp:61-83 | the same set per frame: the header addresses that are valid, private, unregistered, and neither the interface's nor the spoofed address |
| Actions.RegisterBothRule | src/actions.cpp:61-83 | the two blocks add exactly the qualifying addresses as new devices and leave known devices and the iterator as they were, even when source equals destination |
| Actions.RegistrationRule | src/actions.cpp:46-96 | a non-ARP frame adds exactly the qualifying header addresses as new devices (only their reachability may be learned from the same frame), and changes only the reachability of known devices |
| Actions.LearnOnlyReachability | src/sniffer.cpp:221-228 | the ICMP handler changes only the reachability field of entries |
| Actions.PublicPeerIgnored | src/actions.cpp:73-83 | a public destination is never registered, and the source is registered on its own merits |
| Actions.PrivateHostTalkingToPublicHost | src/actions.cpp:61-83 | a frame between 192.168.1.5 and 8.8.8.8 registers only 192.168.1.5 (when new and not the observer) |
| Actions.ArpRegistersSpoofedAddress | src/sniffer.cpp:151-170 | the IPv4 path never registers the spoofed address, but a first ARP reply from it does |
| Actions.ArpRegistersPublicAddress | src/sniffer.cpp:151-170 | a first ARP reply from 8.8.8.8 registers it, although the IPv4 path would not |
| Actions.IcmpReadsOnlyItsFields | src/sniffer.cpp:189-207 | the ICMP handler reads only the ICMP type and, for destination-unreachable, the quoted destination |
| Actions.RetagKeepsFields | src/actions.cpp:46-52 | changing the EtherType moves none of the header fields the IPv4 path reads |
| Actions.Ipv4PathReadsOnlyItsFields | src/actions.cpp:46-96 | the IPv4 path depends only on the addresses, the protocol and the ICMP fields |
| Actions.VlanIsDecodedAsIpv4 | src/actions.cpp:34-47 | a VLAN-tagged frame has the same effect as the untagged frame with the same bytes, and additionally reaches the VLAN handler |
| Actions.VlanHandlers | src/actions.cpp:34-44 | a tagged frame reaches the VLAN handler and then the same handlers as its retagged copy |
| Actions.WriteKeepsFreshAndAddressed | src/actions.cpp:61-71 | writing a new device under a valid key other than the observer's keeps every entry fresh and addressed |
| Actions.InitialInv | src/sniffer.cpp:101-233 | the empty registry and empty sets satisfy the discovery invariant |
| Actions.WriteKeepsMacsUnique | src/sniffer.cpp:130-170 | writing a MAC that no other entry has keeps MACs unique |
| Actions.WriteKeepsResolved | src/sniffer.cpp:221-228 | writing an entry keeps every resolved address resolved |
| Actions.WritePreservesInv | src/monitor.cpp:51-66 | a single-entry write that keeps the entry fresh, validly addressed, in range and with a recorded unique MAC preserves the invariant |
| Actions.WriteAt | src/monitor.cpp:51-66 | a registry that differs only at one key is a write at that key |
| Actions.ArpReplyPreservesInv | src/sniffer.cpp:128-171 | an ARP reply preserves the discovery invariant; the new MAC is recorded and belongs to no other entry |
| Actions.RegisterPreservesInv | src/actions.cpp:61-83 | registering an address preserves the discovery invariant |
| Actions.LearnPreservesInv | src/sniffer.cpp:214-232 | learning a reachability of 0 or 1 preserves the discovery invariant |
| Actions.GotPacketPreservesInv | src/actions.cpp:28-97 | every readable frame preserves the discovery invariant |
| Probe.EchoTarget | src/actions.cpp:126-132 | the echo request goes to the device's MAC when known, to broadcast otherwise |
| Probe.Decide | src/actions.cpp:117-138 | an ARP request iff the MAC is unknown, an echo request iff reachability is unknown, a spoofed reply iff the MAC is known and spoofing is on; nothing else, in that order, at most two |
| Probe.Plan | src/actions.cpp:117-142 | a run of iterations injects at most two frames per visited device |
| Probe.Walk | src/actions.cpp:113-141 | iteration j of the loop visits the key the iterator reaches after j calls of next |
| Probe.FullRound | src/actions.cpp:113-141 | as many iterations as entries visit every entry exactly once and return to the first |
| Probe.Inject | src/actions.cpp:105-143 | with devices registered, the loop visits the walk from the first key and issues each visited device's decision in order; a full round covers every device once and ends back at the first; with none, nothing is probed |
| Probe.ArpReplyRedirectsProbes | src/sniffer.cpp:164 | once the ARP handler records a device's MAC, the loop stops asking for it and sends echo requests and spoofed replies to that MAC |
| Persistence.SaveTo | src/device.cpp:73-112 | against an accepting store, an unsaved device is inserted and takes the next id; a saved device updates its own row |
| Persistence.AddSaved | src/monitor.cpp:34-48 | the add saves the element stored under the address in place, whether it was just inserted or already there |
| Persistence.UpdateSaved | src/monitor.cpp:51-66 | an unknown address touches neither the registry nor the store; otherwise the given device replaces the entry and is saved in place |
| Persistence.NewSenderInsertedTwice | src/sniffer.cpp:155-165 | as written, a first reply from an unregistered sender issues two inserts for one device, and the registry keeps the second row's id |
| Persistence.NewSenderInsertedOnce | src/sniffer.cpp:155-165 | corrected, it issues one insert and one update of that same row, and the registry keeps the inserted id |
| Persistence.KnownSenderUpdated | src/sniffer.cpp:155-165 | for a saved, registered sender both versions issue a single update of its row |
| Persistence.ArpUpsertRefinesCapture | src/sniffer.cpp:155-170 | ids aside, the corrected step writes the registry exactly as the capture model's ARP handler does |
| Persistence.ArpUpsertAsWrittenRefinesCapture | src/sniffer.cpp:155-170 | ids aside, the step as written also writes the registry exactly as the capture model's ARP handler does |

## Left out

- Packet capture and injection: `pcap_loop`, libnet, the `Injector` class, `Sniffer::start` and `getOwnIp`. Frames arrive as byte sequences. Injections are returned as a list of actions.
- The VLAN handler only prints. It is modelled as a recorded handler call with no effect.
- Logging to `cerr`/`cout` and the ignored error flag of `updateDevice` in both handlers.
- Concurrency: the capture thread, the probe thread and the registry mutex. Each operation is one atomic step. `Inject` walks a registry that does not change meanwhile. The invariant and the cursor validity hold between any two steps.
- Probe.Inject: the source waits (`sleep`) while the registry is empty and never terminates. The model runs a given number of iterations and probes nothing on an empty registry.
- The MySQL store and the SQL text (`db.cpp`), `Device::load`, and `swarm.cpp`. In the capture model ids stay 0. `Persistence` wires `save` into the registry against a store that accepts every statement. `Devices.Save` alone covers store failure.
- `inet_pton`/`inet_ntoa` are libc functions. They are modelled as strict dotted-quad parsing and rendering. Embedded NUL characters in address strings are not modelled.
- Classifier.IpIsPrivate: the raw word is the little-endian reading of the address bytes, as on the x86 hosts the masks are written for. A big-endian host is not modelled.
- Frames shorter than the headers the code reads would be read out of bounds. The model requires frames long enough for the fields read (`Frames.ArpReadable`, `Frames.IcmpReadable`, `Actions.FrameReadable`).
- `Device::operator<<` is modelled only for the reachability line. The other two lines print fields unchanged.
- Counter widths: `count()` returns `int`, and `getLastId` narrows `mysql_insert_id` to `int`. Both are unbounded here.

## Findings

| source | as written | input that shows it | evidently intended | confidence | as-written member | corrected member |
|---|---|---|---|---|---|---|
| src/sniffer.cpp:155-165 | an unregistered ARP sender is added from the local default `dev`; `addDevice` saves the stored copy, which gets the new id, but the local `dev` keeps id 0; `updateDevice(spa, dev)` then stores that copy and `save` inserts it again | the first ARP reply from 192.168.1.7, not yet registered, with a store that accepts statements: the table gains two rows for 192.168.1.7 and the first is never written again | one row per device: the update should carry the id the insert assigned (read the device back after adding it) | high; not executed | Persistence.NewSenderInsertedTwice | Persistence.NewSenderInsertedOnce |
